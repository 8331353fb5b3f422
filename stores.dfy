/** What the decoder sees of a `SeekableStream`: the bytes up to its length, the
    position of the next read or write, and whether it refuses writes. Every stream
    operation the decoder uses is stated here once, on values; the stream classes and
    the `IOUtils` methods are proved against these functions. */
module Stores {
  import opened JavaInt
  import opened Errors
  import Varint

  datatype Store = Store(bytes: seq<byte>, pos: nat, readOnly: bool)
  {
    predicate Valid() { pos <= |bytes| }
  }

  /** A method's outcome paired with the stream state it leaves, in the shape the
      functions below return. */
  function With<T>(r: Result<T>, s: Store): Result<(T, Store)>
  {
    if r.Ok? then Ok((r.value, s)) else Err(r.error)
  }

  /** `seek(p)`: any position from 0 to the length; anything else is an IOException. */
  function Seek(s: Store, p: int): (r: Result<Store>)
    requires s.Valid()
    ensures r.Ok? <==> 0 <= p <= |s.bytes|
    ensures r.Ok? ==> r.value.Valid() && r.value.pos == p && r.value.bytes == s.bytes
  {
    if p < 0 || p > |s.bytes| then Err(Bounds) else Ok(s.(pos := p))
  }

  /** `IOUtils.readByte`: the next byte, or an IndexOutOfBoundsException at the end. */
  function ReadByte(s: Store): (r: Result<(byte, Store)>)
    requires s.Valid()
    ensures r.Ok? <==> s.pos < |s.bytes|
    ensures r.Ok? ==> r.value.0 == s.bytes[s.pos] && r.value.1.Valid() && r.value.1 == s.(pos := s.pos + 1)
  {
    if s.pos < |s.bytes| then Ok((s.bytes[s.pos], s.(pos := s.pos + 1))) else Err(Bounds)
  }

  /** `IOUtils.readBytes`: exactly `n` bytes; a negative `n` (NegativeArraySizeException)
      or too few bytes left (IndexOutOfBoundsException) fails. */
  function ReadBytes(s: Store, n: int): (r: Result<(seq<byte>, Store)>)
    requires s.Valid()
    ensures r.Ok? <==> 0 <= n <= |s.bytes| - s.pos
    ensures r.Ok? ==> r.value.0 == s.bytes[s.pos..s.pos + n] && r.value.1.Valid() && r.value.1 == s.(pos := s.pos + n)
  {
    if n < 0 || n > |s.bytes| - s.pos then Err(Bounds)
    else Ok((s.bytes[s.pos..s.pos + n], s.(pos := s.pos + n)))
  }

  /** The loop of `read7bitIntBE` on the store `s`, after `k` bytes with the
      continuation bit whose digits have the exact value `acc`, as a store read. */
  function VarintLoop(s: Store, k: nat, acc: nat): (r: Result<(nat, Store)>)
    requires s.Valid() && k <= 5
  {
    AtParsed(s, Varint.ReadFrom(s.bytes, s.pos, k, acc))
  }

  /** A varint loop's outcome with its exact value cast to a Java `int`. */
  function Wrapped(l: Result<(nat, Store)>): Result<(i32, Store)>
  {
    if l.Ok? then Ok((Wrap32(l.value.0), l.value.1)) else Err(l.error)
  }

  /** `IOUtils.read7bitIntBE`: one varint. */
  function ReadVarint(s: Store): (r: Result<(i32, Store)>)
    requires s.Valid()
    ensures r.Ok? ==> r.value.1.Valid() && s.pos < r.value.1.pos <= s.pos + 5 && r.value.1 == s.(pos := r.value.1.pos)
  {
    Wrapped(VarintLoop(s, 0, 0))
  }

  /** One turn of the `read7bitIntBE` loop on the store `s`, whose Java `int`
      accumulator `ret` holds the exact value `acc` wrapped, given the outcome of
      reading the next byte (`b`, leaving `t`; -1 at the end of the data): the end
      fails, a byte below 0x80 finishes the varint, any other byte goes on, and the
      accumulator `(ret << 7) | (b & 0x7f)` stays in step with the exact value. */
  lemma VarintLoopTurn(s: Store, k: nat, acc: nat, ret: i32, b: int, t: Store)
    requires s.Valid() && k < 5 && ret == Wrap32(acc)
    requires b == -1 <==> ReadByte(s).Err?
    requires b != -1 ==> ReadByte(s) == Ok((b, t))
    ensures b == -1 ==> VarintLoop(s, k, acc) == Err(Bounds)
    ensures b != -1 ==> 0 <= b < 256 && t.Valid() && Shl7Or(ret, b % 128) == Wrap32(acc * 128 + b % 128)
    ensures 0 <= b < 0x80 ==> VarintLoop(s, k, acc) == Ok((acc * 128 + b % 128, t))
    ensures 0x80 <= b ==> VarintLoop(s, k, acc) == VarintLoop(t, k + 1, acc * 128 + b % 128)
  {
    if b != -1 {
      WrapShiftAdd(acc, b % 128);
    }
  }

  /** A varint as `Varint.Parse` characterises it, as a store read. */
  function AtParsed(s: Store, r: Result<(nat, nat)>): Result<(nat, Store)>
  {
    if r.Ok? then Ok((r.value.0, s.(pos := r.value.1))) else Err(r.error)
  }

  /** The byte-by-byte loop reads exactly the varint `Varint.Parse` characterises. */
  lemma ReadVarintParse(s: Store)
    requires s.Valid()
    ensures ReadVarint(s) == Wrapped(AtParsed(s, Varint.Parse(s.bytes, s.pos)))
  {
    assert s.bytes[s.pos..s.pos + 0] == [];
    Varint.ReadFromParse(s.bytes, s.pos, 0, 0);
  }

  /** `write(data, 0, data.length)`: `data` replaces the bytes at the position, which
      moves past them. A store that enforces its read-only flag refuses every write
      (UnsupportedOperationException), even an empty one; writing past the length is a
      BufferOverflowException or IndexOutOfBoundsException. */
  function Write(s: Store, data: seq<byte>, enforceReadOnly: bool): (r: Result<Store>)
    requires s.Valid()
    ensures r.Ok? ==> r.value.Valid() && |r.value.bytes| == |s.bytes| && r.value.pos == s.pos + |data|
    ensures r.Ok? <==> !(enforceReadOnly && s.readOnly) && |data| <= |s.bytes| - s.pos
    ensures r.Err? ==> r.error == (if enforceReadOnly && s.readOnly then ReadOnlyStore else Bounds)
    ensures r.Ok? ==> r.value.readOnly == s.readOnly
  {
    if enforceReadOnly && s.readOnly then Err(ReadOnlyStore)
    else if |data| > |s.bytes| - s.pos then Err(Bounds)
    else Ok(s.(bytes := s.bytes[..s.pos] + data + s.bytes[s.pos + |data|..], pos := s.pos + |data|))
  }

  /** Writing one byte replaces the byte at the write position. */
  lemma WriteOne(s: Store, b: byte, enforceReadOnly: bool)
    requires s.Valid() && s.pos < |s.bytes| && !(enforceReadOnly && s.readOnly)
    ensures Write(s, [b], enforceReadOnly) == Ok(s.(bytes := s.bytes[s.pos := b], pos := s.pos + 1))
  {
    assert s.bytes[..s.pos] + [b] + s.bytes[s.pos + 1..] == s.bytes[s.pos := b];
  }

  /** Writing then seeking back and reading the same number of bytes gives the
      written bytes back; the bytes before and after are untouched. */
  lemma WriteReadBack(s: Store, data: seq<byte>, enforceReadOnly: bool)
    requires s.Valid() && Write(s, data, enforceReadOnly).Ok?
    ensures var w := Write(s, data, enforceReadOnly).value;
      && Seek(w, s.pos).Ok?
      && ReadBytes(Seek(w, s.pos).value, |data|) == Ok((data, w))
      && w.bytes[..s.pos] == s.bytes[..s.pos]
      && w.bytes[s.pos + |data|..] == s.bytes[s.pos + |data|..]
  {
    var w := Write(s, data, enforceReadOnly).value;
    assert w.bytes[s.pos..s.pos + |data|] == data;
    assert w.bytes[..s.pos] == s.bytes[..s.pos];
    assert w.bytes[s.pos + |data|..] == s.bytes[s.pos + |data|..];
  }

  /** Writing `x` and then `y` is writing `x + y` at once. */
  lemma WriteConcat(s: Store, x: seq<byte>, y: seq<byte>, enforceReadOnly: bool)
    requires s.Valid() && Write(s, x, enforceReadOnly).Ok?
    ensures Write(Write(s, x, enforceReadOnly).value, y, enforceReadOnly) == Write(s, x + y, enforceReadOnly)
  {
    var w := Write(s, x, enforceReadOnly).value;
    if |y| <= |s.bytes| - s.pos - |x| {
      var p := s.pos;
      assert w.bytes[..p + |x|] == s.bytes[..p] + x;
      assert w.bytes[p + |x| + |y|..] == s.bytes[p + |x| + |y|..];
      assert s.bytes[..p] + x + y + s.bytes[p + |x| + |y|..] == s.bytes[..p] + (x + y) + s.bytes[p + |x + y|..];
    }
  }

  /** Reading `m` bytes and then `n` more is reading `m + n` bytes at once. */
  lemma ReadBytesSplit(s: Store, m: nat, n: nat)
    requires s.Valid() && ReadBytes(s, m + n).Ok?
    ensures ReadBytes(s, m).Ok? && ReadBytes(ReadBytes(s, m).value.1, n).Ok?
    ensures ReadBytes(s, m).value.0 + ReadBytes(ReadBytes(s, m).value.1, n).value.0 == ReadBytes(s, m + n).value.0
    ensures ReadBytes(ReadBytes(s, m).value.1, n).value.1 == ReadBytes(s, m + n).value.1
  {
    assert s.bytes[s.pos..s.pos + m] + s.bytes[s.pos + m..s.pos + m + n] == s.bytes[s.pos..s.pos + m + n];
  }

  /** Reading a varint written in its shortest encoding gives the value back, as the
      Java `int` accumulator wraps it, and consumes exactly the encoding. */
  lemma ReadVarintEncoded(s: Store, v: nat)
    requires s.Valid() && v < 0x8_0000_0000
    requires s.pos + |Varint.Encode(v)| <= |s.bytes|
    requires s.bytes[s.pos..s.pos + |Varint.Encode(v)|] == Varint.Encode(v)
    ensures ReadVarint(s) == Ok((Wrap32(v), s.(pos := s.pos + |Varint.Encode(v)|)))
  {
    Varint.ParseEncode(s.bytes, s.pos, v);
    ReadVarintParse(s);
  }
}
