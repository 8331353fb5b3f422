/** The legacy revision's `IOUtils` over a `ByteArrayStream`: exact reads, single
    bytes and varints. Its `InputStream` and `SeekableStream` overloads of `readBytes`
    are one loop over the same `read(dst, offset, length)`, and are one method here. */
module LegacyIO {
  import opened JavaInt
  import opened Errors
  import opened Stores
  import opened ByteArrayStreams

  /** `readBytes(is, size)` and `readBytes(source, size)`: loops on `read` until `size`
      bytes are in a fresh array; a stream that ends first is an
      IndexOutOfBoundsException, a negative size a NegativeArraySizeException. */
  method ReadBytes(ss: ByteArrayStream, size: i32) returns (r: Result<array<byte>>)
    requires ss.Valid()
    modifies ss
    ensures ss.Valid()
    ensures r.Ok? ==> fresh(r.value) && r.value.Length == size
    ensures With(if r.Ok? then Ok(r.value[..]) else Err(r.error), ss.Abs()) == Stores.ReadBytes(old(ss.Abs()), size)
    ensures r.Err? ==> ss.pos == (if size < 0 then old(ss.pos) else ss.data.Length)
  {
    if size < 0 {
      return Err(Bounds);  // NegativeArraySizeException
    }
    ghost var s0 := ss.Abs();
    var data := new byte[size];
    var offset: i32 := 0;
    while offset < size
      invariant ss.Valid() && ss.Abs().bytes == s0.bytes && ss.readOnly == s0.readOnly
      invariant 0 <= offset <= size && ss.pos == s0.pos + offset
      invariant data[..offset] == s0.bytes[s0.pos..s0.pos + offset]
      decreases size - offset
    {
      var rs := ss.Read(data, offset, size - offset);
      var readSize := rs.value;
      if readSize < 0 {
        return Err(Bounds);
      }
      offset := offset + readSize;
    }
    assert data[..] == data[..offset];
    r := Ok(data);
  }

  /** `readByte(is)`: the next byte, or an IndexOutOfBoundsException. */
  method ReadByte(ss: ByteArrayStream) returns (r: Result<byte>)
    requires ss.Valid()
    modifies ss
    ensures ss.Valid()
    ensures With(r, ss.Abs()) == Stores.ReadByte(old(ss.Abs()))
    ensures r.Err? ==> ss.pos == old(ss.pos)
  {
    var b := ss.ReadOne();
    if b == -1 {
      return Err(Bounds);
    }
    r := Ok(b);
  }

  /** `read7bitIntBE(is)`: up to five bytes, seven bits each, most significant first,
      accumulated in a Java `int`. */
  method Read7bitIntBE(ss: ByteArrayStream) returns (r: Result<i32>)
    requires ss.Valid()
    modifies ss
    ensures ss.Valid()
    ensures r.Ok? ==> Stores.ReadVarint(old(ss.Abs())) == Ok((r.value, ss.Abs()))
    ensures r.Err? ==> Stores.ReadVarint(old(ss.Abs())) == Err(r.error)
  {
    var ret: i32 := 0;
    ghost var exact: nat := 0;
    ghost var s0 := ss.Abs();
    for i := 0 to 5
      invariant ss.Valid()
      invariant ret == Wrap32(exact)
      invariant Stores.VarintLoop(ss.Abs(), i, exact) == Stores.VarintLoop(s0, 0, 0)
    {
      ghost var before := ss.Abs();
      var b := ss.ReadOne();
      Stores.VarintLoopTurn(before, i, exact, ret, b, ss.Abs());
      if b == -1 {
        return Err(Bounds);
      }
      // `(ret << 7) | (b & 0x7f)`: the shift leaves the low seven bits clear.
      ret := Shl7Or(ret, b % 128);
      if b < 0x80 {
        return Ok(ret);
      }
      exact := exact * 128 + b % 128;
    }
    r := Err(InvalidVarint);
  }
}
