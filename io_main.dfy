/** The main revision's `IOUtils` over `SeekableStream` (a `ByteBufferStream` here):
    exact reads, single bytes, varints, stream views and copies, and the big- and
    little-endian integer helpers. */
module MainIO {
  import opened JavaInt
  import opened Errors
  import opened Stores
  import Varint
  import opened ByteBufferStreams

  /** `readBytes(SeekableStream, size)`: loops on `read` until `size` bytes are in a
      fresh array; a stream that ends first is an IndexOutOfBoundsException. */
  method ReadBytes(ss: ByteBufferStream, size: i32) returns (r: Result<array<byte>>)
    requires ss.Valid()
    modifies ss
    ensures ss.Valid() && ss.limit == old(ss.limit)
    ensures r.Ok? ==> fresh(r.value) && r.value.Length == size
    ensures With(if r.Ok? then Ok(r.value[..]) else Err(r.error), ss.Abs()) == Stores.ReadBytes(old(ss.Abs()), size)
    ensures r.Err? ==> ss.position == (if size < 0 then old(ss.position) else ss.limit)
  {
    if size < 0 {
      return Err(Bounds);  // NegativeArraySizeException
    }
    ghost var s0 := ss.Abs();
    var data := new byte[size];
    var offset: i32 := 0;
    while offset < size
      invariant ss.Valid() && ss.limit == s0.pos + (|s0.bytes| - s0.pos) && ss.Abs().bytes == s0.bytes
      invariant ss.readOnly == s0.readOnly
      invariant 0 <= offset <= size && ss.position == s0.pos + offset
      invariant data[..offset] == s0.bytes[s0.pos..s0.pos + offset]
      decreases size - offset
    {
      var rs := ss.Read(data, offset, size - offset);
      var readSize := rs.value;
      if readSize < 0 {
        return Err(Bounds);
      }
      offset := offset + readSize;
    }
    assert data[..] == data[..offset];
    r := Ok(data);
  }

  /** `readByte(SeekableStream)`: the next byte, or an IndexOutOfBoundsException. */
  method ReadByte(ss: ByteBufferStream) returns (r: Result<byte>)
    requires ss.Valid()
    modifies ss
    ensures ss.Valid() && ss.limit == old(ss.limit)
    ensures With(r, ss.Abs()) == Stores.ReadByte(old(ss.Abs()))
    ensures r.Err? ==> ss.position == old(ss.position)
  {
    var b := ss.ReadOne();
    if b == -1 {
      return Err(Bounds);
    }
    r := Ok(b);
  }

  /** `read7bitIntBE(SeekableStream)`: up to five bytes, seven bits each, most
      significant first, accumulated in a Java `int`. */
  method Read7bitIntBE(ss: ByteBufferStream) returns (r: Result<i32>)
    requires ss.Valid()
    modifies ss
    ensures ss.Valid() && ss.limit == old(ss.limit)
    ensures r.Ok? ==> Stores.ReadVarint(old(ss.Abs())) == Ok((r.value, ss.Abs()))
    ensures r.Err? ==> Stores.ReadVarint(old(ss.Abs())) == Err(r.error)
  {
    var ret: i32 := 0;
    ghost var exact: nat := 0;
    ghost var s0 := ss.Abs();
    for i := 0 to 5
      invariant ss.Valid() && ss.limit == old(ss.limit)
      invariant ret == Wrap32(exact)
      invariant Stores.VarintLoop(ss.Abs(), i, exact) == Stores.VarintLoop(s0, 0, 0)
    {
      ghost var before := ss.Abs();
      var b := ss.ReadOne();
      Stores.VarintLoopTurn(before, i, exact, ret, b, ss.Abs());
      if b == -1 {
        return Err(Bounds);
      }
      // `(ret << 7) | (b & 0x7f)`: the shift leaves the low seven bits clear.
      ret := Shl7Or(ret, b % 128);
      if b < 0x80 {
        return Ok(ret);
      }
      exact := exact * 128 + b % 128;
    }
    r := Err(InvalidVarint);
  }

  /** `getStreamView(ss, length, shareData)`: the next `length` bytes as a stream of
      their own, either copied (`readBytes` into a read-only stream) or shared
      (`slice`). The share path rejects a negative length before slicing, as the copy
      path does, so both paths read exactly what `readBytes` reads. */
  method GetStreamView(ss: ByteBufferStream, length: i32, shareData: bool) returns (r: Result<ByteBufferStream>)
    requires ss.Valid()
    modifies ss
    ensures ss.Valid() && ss.limit == old(ss.limit)
    ensures r.Ok? ==> fresh(r.value) && r.value.Valid() && r.value.position == 0
    ensures r.Ok? ==> r.value.buf == ss.buf || fresh(r.value.buf)
    ensures With(if r.Ok? then Ok(r.value.Abs().bytes) else Err(r.error), ss.Abs()) == Stores.ReadBytes(old(ss.Abs()), length)
  {
    if shareData {
      if length < 0 {
        return Err(Bounds);
      }
      SliceReadsLikeReadBytes(ss.Abs(), length);
      r := ss.Slice(length);
    } else {
      var bytes :- ReadBytes(ss, length);
      var view := new ByteBufferStream.Wrap(bytes, true);
      r := Ok(view);
    }
  }

  /** `copy(sourceStream, targetDataStream, size)`: `size` bytes read from one stream
      and written to the other. */
  method Copy(source: ByteBufferStream, target: ByteBufferStream, size: i32) returns (o: Outcome)
    requires source.Valid() && target.Valid()
    modifies source, target, target.buf
    ensures source.Valid() && target.Valid() && source.limit == old(source.limit) && target.limit == old(target.limit)
    ensures var rd := Stores.ReadBytes(old(source.Abs()), size);
      o.Pass? <==> rd.Ok? && Stores.Write(if source == target then rd.value.1 else old(target.Abs()), rd.value.0, true).Ok?
    ensures var rd := Stores.ReadBytes(old(source.Abs()), size);
      o.Pass? ==> rd.Ok? && Stores.Write(if source == target then rd.value.1 else old(target.Abs()), rd.value.0, true) == Ok(target.Abs())
    ensures var rd := Stores.ReadBytes(old(source.Abs()), size);
      o.Fail? ==> o.error == (if rd.Err? then rd.error else Stores.Write(if source == target then rd.value.1 else old(target.Abs()), rd.value.0, true).error)
    ensures o.Pass? && source != target ==> source.position == old(source.position) + size
  {
    var rb := ReadBytes(source, size);
    if rb.Err? {
      return Fail(rb.error);
    }
    var bytes := rb.value;
    o := target.Write(bytes, 0, bytes.Length);
    assert bytes[0..bytes.Length] == bytes[..];
  }

  /** `makeInt(b3, b2, b1, b0)`: the Java `int` whose two's-complement bytes are
      `b3 b2 b1 b0`, most significant first. */
  function MakeInt(b3: int8, b2: int8, b1: int8, b0: int8): (r: i32)
    ensures r == Wrap32(Unsigned(b3) * 0x100_0000 + Unsigned(b2) * 0x1_0000 + Unsigned(b1) * 0x100 + Unsigned(b0))
  {
    // `(b3 << 24) | ((b2 & 0xff) << 16) | ((b1 & 0xff) << 8) | (b0 & 0xff)`: the four
    // fields do not overlap, so the `|` is a sum, and `b3 << 24` keeps the sign of b3.
    b3 * 0x100_0000 + Unsigned(b2) * 0x1_0000 + Unsigned(b1) * 0x100 + Unsigned(b0)
  }

  /** `makeShort(b1, b0)`: the `(short)` cast of the unsigned 16-bit value leaves the
      high byte signed. */
  function MakeShort(b1: int8, b0: int8): (r: i16)
    ensures r == b1 * 0x100 + Unsigned(b0)
  {
    Wrap16(Unsigned(b1) * 0x100 + Unsigned(b0))
  }

  /** `makeIntB(ba, pos)`: big-endian `int` at `pos`. The length check compares against
      the Java sum `4 + pos`, which wraps for a position near 2^31; the array accesses
      then fail instead. */
  function MakeIntB(ba: seq<byte>, pos: i32): (r: Result<i32>)
    requires |ba| < 0x8000_0000
    ensures r.Ok? <==> 0 <= pos && pos + 4 <= |ba|
    ensures r.Ok? ==> r.value == Wrap32(ba[pos] as int * 0x100_0000 + ba[pos + 1] as int * 0x1_0000 + ba[pos + 2] as int * 0x100 + ba[pos + 3])
    ensures r == Err(IllegalArgument) <==> |ba| < 4 + pos < 0x8000_0000
  {
    if |ba| < Wrap32(4 + pos) then Err(IllegalArgument)
    else if pos < 0 || pos + 3 >= |ba| then Err(Bounds)
    else Ok(MakeInt(Signed(ba[pos]), Signed(ba[pos + 1]), Signed(ba[pos + 2]), Signed(ba[pos + 3])))
  }

  /** `makeIntS(ba, pos)`: little-endian `int` at `pos`, with the same checks. */
  function MakeIntS(ba: seq<byte>, pos: i32): (r: Result<i32>)
    requires |ba| < 0x8000_0000
    ensures r.Ok? <==> 0 <= pos && pos + 4 <= |ba|
    ensures r.Ok? ==> r.value == Wrap32(ba[pos + 3] as int * 0x100_0000 + ba[pos + 2] as int * 0x1_0000 + ba[pos + 1] as int * 0x100 + ba[pos])
    ensures r == Err(IllegalArgument) <==> |ba| < 4 + pos < 0x8000_0000
  {
    if |ba| < Wrap32(4 + pos) then Err(IllegalArgument)
    else if pos < 0 || pos + 3 >= |ba| then Err(Bounds)
    else Ok(MakeInt(Signed(ba[pos + 3]), Signed(ba[pos + 2]), Signed(ba[pos + 1]), Signed(ba[pos])))
  }

  /** `makeShortS(ba, pos)`: little-endian `short` at `pos`. */
  function MakeShortS(ba: seq<byte>, pos: i32): (r: Result<i16>)
    requires |ba| < 0x8000_0000
    ensures r.Ok? <==> 0 <= pos && pos + 2 <= |ba|
    ensures r.Ok? ==> r.value == Wrap16(ba[pos + 1] as int * 0x100 + ba[pos])
    ensures r == Err(IllegalArgument) <==> |ba| < 2 + pos < 0x8000_0000
  {
    if |ba| < Wrap32(2 + pos) then Err(IllegalArgument)
    else if pos < 0 || pos + 1 >= |ba| then Err(Bounds)
    else Ok(MakeShort(Signed(ba[pos + 1]), Signed(ba[pos])))
  }

  /** The four bytes of `x`, most significant first. */
  function IntBytesBE(x: i32): (b: seq<byte>)
    ensures |b| == 4
  {
    var u := x % TWO32;
    [u / 0x100_0000, u / 0x1_0000 % 0x100, u / 0x100 % 0x100, u % 0x100]
  }

  /** The two bytes of `x`, least significant first. */
  function ShortBytesLE(x: i16): (b: seq<byte>)
    ensures |b| == 2
  {
    var u := x % TWO16;
    [u % 0x100, u / 0x100]
  }

  function Reverse4(b: seq<byte>): seq<byte>
    requires |b| == 4
  {
    [b[3], b[2], b[1], b[0]]
  }

  /** Round trip: `makeIntB` reads back any `int` written big-endian, wherever it lies
      in the array. */
  lemma MakeIntBBytes(prefix: seq<byte>, x: i32, suffix: seq<byte>)
    requires |prefix| + 4 + |suffix| < 0x8000_0000
    ensures MakeIntB(prefix + IntBytesBE(x) + suffix, |prefix|) == Ok(x)
  {
    var ba := prefix + IntBytesBE(x) + suffix;
    var p := |prefix|;
    assert ba[p..p + 4] == IntBytesBE(x);
    BytesValue(x);
    WrapCongruent(x % TWO32, x);
  }

  /** Round trip: `makeIntS` reads back any `int` written little-endian. */
  lemma MakeIntSBytes(prefix: seq<byte>, x: i32, suffix: seq<byte>)
    requires |prefix| + 4 + |suffix| < 0x8000_0000
    ensures MakeIntS(prefix + Reverse4(IntBytesBE(x)) + suffix, |prefix|) == Ok(x)
  {
    var ba := prefix + Reverse4(IntBytesBE(x)) + suffix;
    var p := |prefix|;
    assert ba[p..p + 4] == Reverse4(IntBytesBE(x));
    BytesValue(x);
    WrapCongruent(x % TWO32, x);
  }

  /** Round trip: `makeShortS` reads back any `short` written little-endian. */
  lemma MakeShortSBytes(prefix: seq<byte>, x: i16, suffix: seq<byte>)
    requires |prefix| + 2 + |suffix| < 0x8000_0000
    ensures MakeShortS(prefix + ShortBytesLE(x) + suffix, |prefix|) == Ok(x)
  {
    var ba := prefix + ShortBytesLE(x) + suffix;
    var p := |prefix|;
    var u := x % TWO16;
    var hi, lo := u / 0x100, u % 0x100;
    assert ba[p] == lo && ba[p + 1] == hi;
    assert u == hi * 0x100 + lo;
    Wrap16Residue(x);
    assert MakeShort(Signed(hi), Signed(lo)) == x;
  }

  lemma BytesValue(x: i32)
    ensures var b := IntBytesBE(x);
      b[0] as int * 0x100_0000 + b[1] as int * 0x1_0000 + b[2] as int * 0x100 + b[3] == x % TWO32
  {
    var u := x % TWO32;
    assert u == u / 0x100 * 0x100 + u % 0x100;
    assert u / 0x100 == u / 0x1_0000 * 0x100 + u / 0x100 % 0x100;
    assert u / 0x1_0000 == u / 0x100_0000 * 0x100 + u / 0x1_0000 % 0x100;
  }
}
