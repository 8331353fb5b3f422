/** `ByteArraySeekableStream`: a seekable stream over a whole byte array, with a
    `long` position. It also stands for `java.io.ByteArrayInputStream`, which the
    address cache and the `InputStream` overloads of `IOUtils` read the same way. */
module ByteArrayStreams {
  import opened JavaInt
  import opened Errors
  import opened Stores
  import ArrayCopy

  class ByteArrayStream {
    const data: array<byte>
    var pos: int
    /** The flag of the two-argument constructor; no method of the class checks it. */
    const readOnly: bool

    ghost predicate Valid()
      reads this
    {
      0 <= pos <= data.Length < 0x8000_0000
    }

    /** The stream as the decoder sees it: the whole array. */
    function Abs(): (s: Store)
      reads this, data
      requires Valid()
      ensures s.Valid() && s.bytes == data[..] && s.pos == pos && s.readOnly == readOnly
    {
      Store(data[..], pos, readOnly)
    }

    /** `new ByteArraySeekableStream(source)` (`ro` false) and the read-only variant the
        decoder constructs for its table and instruction streams. */
    constructor (source: array<byte>, ro: bool)
      requires source.Length < 0x8000_0000
      ensures Valid() && data == source && pos == 0 && readOnly == ro
      ensures Abs() == Store(source[..], 0, ro)
    {
      data, pos, readOnly := source, 0, ro;
    }

    /** `length()`. */
    function Length(): (n: nat)
      reads this, data
      requires Valid()
      ensures n == |Abs().bytes|
    {
      data.Length
    }

    /** `seek(pos)`: any position from 0 to the length, else an IOException. */
    method Seek(p: int) returns (o: Outcome)
      requires Valid()
      modifies this
      ensures Valid()
      ensures o.Pass? <==> Stores.Seek(old(Abs()), p).Ok?
      ensures o.Pass? ==> Abs() == Stores.Seek(old(Abs()), p).value
      ensures o.Fail? ==> o == Fail(Bounds) && pos == old(pos)
    {
      if p < 0 || p > data.Length {
        return Fail(Bounds);
      }
      pos := p;
      o := Pass;
    }

    /** `read()`: the next byte, or -1 at the end. The legacy decoder calls it on its
        patch and instruction streams although neither `SeekableStream` nor this class
        declares it; it is modelled as `ByteArrayInputStream.read()` behaves. */
    method ReadOne() returns (r: int)
      requires Valid()
      modifies this
      ensures Valid()
      ensures r == -1 <==> Stores.ReadByte(old(Abs())).Err?
      ensures r != -1 ==> Stores.ReadByte(old(Abs())) == Ok((r, Abs()))
      ensures r == -1 ==> pos == old(pos)
    {
      if pos >= data.Length {
        return -1;
      }
      r := data[pos];
      pos := pos + 1;
    }

    /** `read(dst, offset, length)`: an IndexOutOfBoundsException when the range does
        not fit `dst` (the Java sum `offset + length` may wrap negative); 0 for an empty
        request; -1 at the end; otherwise as many bytes as asked for and remain. */
    method Read(dst: array<byte>, offset: i32, length: i32) returns (r: Result<int>)
      requires Valid() && dst.Length < 0x8000_0000
      modifies this, dst
      ensures Valid()
      ensures r.Err? <==> offset < 0 || length < 0 || offset + length > dst.Length
      ensures r.Err? ==> r.error == Bounds
      ensures r.Ok? ==> r.value >= -1
      ensures r == Ok(-1) <==> 0 < length && offset + length <= dst.Length && 0 <= offset && old(pos) == data.Length
      ensures r.Ok? && r.value >= 0 ==> (
        && r.value == (if length > data.Length - old(pos) then data.Length - old(pos) else length)
        && dst[..] == old(dst[..])[..offset] + old(data[..])[old(pos)..old(pos) + r.value] + old(dst[..])[offset + r.value..]
        && pos == old(pos) + r.value)
      ensures !(r.Ok? && r.value >= 0) ==> pos == old(pos) && dst[..] == old(dst[..])
    {
      if offset < 0 || offset > dst.Length || length < 0 || Wrap32(offset + length) > dst.Length || Wrap32(offset + length) < 0 {
        return Err(Bounds);
      }
      if length == 0 {
        return Ok(0);
      }
      if pos >= data.Length {
        return Ok(-1);
      }
      var remain := data.Length - pos;
      var n := if remain > length then length else remain;
      var chunk := data[pos..pos + n];
      ArrayCopy.Put(chunk, dst, offset);
      pos := pos + n;
      r := Ok(n);
    }

    /** `write(src, offset, length)`: the range check of `read`, nothing for an empty
        write, an IndexOutOfBoundsException when fewer than `length` bytes remain, and
        otherwise `System.arraycopy` into the array at the position, which moves past
        the bytes. The read-only flag is not consulted. */
    method Write(src: array<byte>, offset: i32, length: i32) returns (o: Outcome)
      requires Valid() && src.Length < 0x8000_0000
      modifies this, data
      ensures Valid()
      ensures o.Pass? <==> 0 <= offset && 0 <= length && offset + length <= src.Length && length <= data.Length - old(pos)
      ensures o.Fail? ==> o.error == Bounds && pos == old(pos) && data[..] == old(data[..])
      ensures o.Pass? ==> Stores.Write(old(Abs()), old(src[offset..offset + length]), false) == Ok(Abs())
    {
      if offset < 0 || offset > src.Length || length < 0 || Wrap32(offset + length) > src.Length || Wrap32(offset + length) < 0 {
        return Fail(Bounds);
      }
      if length == 0 {
        assert data[..] == data[..pos] + [] + data[pos..];
        return Pass;
      }
      var remain := data.Length - pos;
      if length > remain {
        return Fail(Bounds);
      }
      var chunk := src[offset..offset + length];
      ArrayCopy.Put(chunk, data, pos);
      pos := pos + length;
      o := Pass;
    }

    /** `write(b)`: an IndexOutOfBoundsException at the end, otherwise one byte at the
        position. */
    method WriteByte(b: byte) returns (o: Outcome)
      requires Valid()
      modifies this, data
      ensures Valid()
      ensures o.Pass? <==> old(pos) < data.Length
      ensures o.Fail? ==> o.error == Bounds && pos == old(pos) && data[..] == old(data[..])
      ensures o.Pass? ==> Stores.Write(old(Abs()), [b], false) == Ok(Abs())
    {
      if pos >= data.Length {
        return Fail(Bounds);
      }
      ghost var before := data[..];
      data[pos] := b;
      pos := pos + 1;
      assert data[..] == before[..pos - 1] + [b] + before[pos..];
      o := Pass;
    }
  }
}
