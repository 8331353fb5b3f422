/** `ByteBufferSeekableStream`: a seekable stream over a heap `java.nio.ByteBuffer`.
    The buffer is its backing array, the array offset and capacity fixed when the
    buffer was made, and the position and limit the stream moves. */
module ByteBufferStreams {
  import opened JavaInt
  import opened Errors
  import opened Stores
  import ArrayCopy

  class ByteBufferStream {
    const buf: array<byte>
    const offset: nat
    const capacity: nat
    var position: nat
    var limit: nat
    /** The stream's own flag, which `write` checks; a `ByteBuffer` made by `wrap` or
        `slice` never refuses a put itself. */
    const readOnly: bool

    ghost predicate Valid()
      reads this
    {
      offset + capacity <= buf.Length && position <= limit <= capacity && capacity < 0x8000_0000
    }

    /** The stream as the decoder sees it: the bytes up to the limit. */
    function Abs(): (s: Store)
      reads this, buf
      requires Valid()
      ensures s.Valid() && |s.bytes| == limit && s.pos == position && s.readOnly == readOnly
    {
      Store(buf[offset..][..limit], position, readOnly)
    }

    /** `new ByteBufferSeekableStream(source, readOnly)` over `ByteBuffer.wrap(source)`. */
    constructor Wrap(source: array<byte>, ro: bool)
      requires source.Length < 0x8000_0000
      ensures Valid() && buf == source && offset == 0 && capacity == source.Length
      ensures position == 0 && limit == source.Length && readOnly == ro
      ensures Abs() == Store(source[..], 0, ro)
    {
      buf, offset, capacity, readOnly := source, 0, source.Length, ro;
      position, limit := 0, source.Length;
    }

    /** The stream `slice` returns: `ByteBuffer.slice()` shares the array from the
        current position on, with position 0 and the remaining bytes as capacity and
        limit; the wrapping stream takes the buffer's own read-only state, false. */
    constructor View(b: array<byte>, off: nat, cap: nat)
      requires off + cap <= b.Length && cap < 0x8000_0000
      ensures Valid() && buf == b && offset == off && capacity == cap
      ensures position == 0 && limit == cap && !readOnly
    {
      buf, offset, capacity, readOnly := b, off, cap, false;
      position, limit := 0, cap;
    }

    /** `length()`: the limit. */
    function Length(): (n: nat)
      reads this, buf
      requires Valid()
      ensures n == |Abs().bytes|
    {
      limit
    }

    /** `seek(pos)`: any position up to the limit, else an IOException. */
    method Seek(pos: i32) returns (o: Outcome)
      requires Valid()
      modifies this
      ensures Valid() && limit == old(limit)
      ensures o.Pass? <==> Stores.Seek(old(Abs()), pos).Ok?
      ensures o.Pass? ==> Abs() == Stores.Seek(old(Abs()), pos).value
      ensures o.Fail? ==> o == Fail(Bounds) && position == old(position)
    {
      if pos < 0 || pos > limit {
        return Fail(Bounds);
      }
      position := pos;
      o := Pass;
    }

    /** `read()`: the next byte as 0..255, or -1 at the limit (BufferUnderflowException
        caught). */
    method ReadOne() returns (r: int)
      requires Valid()
      modifies this
      ensures Valid() && limit == old(limit)
      ensures r == -1 <==> Stores.ReadByte(old(Abs())).Err?
      ensures r != -1 ==> Stores.ReadByte(old(Abs())) == Ok((r, Abs()))
      ensures r == -1 ==> position == old(position)
    {
      if position == limit {
        return -1;
      }
      r := buf[offset + position];
      position := position + 1;
    }

    /** `read(data, off, length)`: -1 when nothing remains; otherwise as many bytes as
        asked for and remain, copied to `data[off..]`. The count is handed to
        `ByteBuffer.get`, whose bounds check fails (IndexOutOfBoundsException) for a
        negative count or one that does not fit in `data` from `off`. */
    method Read(data: array<byte>, off: i32, length: i32) returns (r: Result<int>)
      requires Valid() && data.Length < 0x8000_0000
      modifies this, data
      ensures Valid() && limit == old(limit)
      ensures r.Ok? && r.value == -1 <==> old(position) == old(limit)
      ensures r.Err? <==> (old(position) < old(limit) &&
        (off < 0 || Granted(length, old(limit) - old(position)) < 0 || off + Granted(length, old(limit) - old(position)) > data.Length))
      ensures r.Err? ==> r.error == Bounds
      ensures r.Ok? ==> r.value >= -1
      ensures r.Ok? && r.value >= 0 ==> (r.value == Granted(length, old(limit) - old(position)) &&
        data[..] == old(data[..])[..off] + old(Abs()).bytes[old(position)..old(position) + r.value] + old(data[..])[off + r.value..])
      ensures r.Ok? && r.value >= 0 ==> position == old(position) + r.value
      ensures !(r.Ok? && r.value >= 0) ==> position == old(position) && data[..] == old(data[..])
    {
      if position == limit {
        return Ok(-1);
      }
      var n := Granted(length, limit - position);
      // `ByteBuffer.get(dst, off, n)` checks `(off | n | (off + n) | (dst.length - (off + n))) < 0`
      // on Java ints; with off and n non-negative that is off + n > dst.length.
      if off < 0 || n < 0 || Wrap32(off + n) < 0 || data.Length - Wrap32(off + n) < 0 {
        return Err(Bounds);
      }
      ghost var src := Abs().bytes;
      var chunk := buf[offset + position..offset + position + n];
      assert chunk == src[position..position + n] by {
        SliceOfSlice(buf[..], offset, limit, position, n);
      }
      ArrayCopy.Put(chunk, data, off);
      position := position + n;
      r := Ok(n);
    }

    /** `write(data, off, length)`: refused when the stream is read-only
        (UnsupportedOperationException); otherwise `ByteBuffer.put` checks the range of
        `data` (IndexOutOfBoundsException) and the room left (BufferOverflowException),
        then copies the bytes in and moves the position past them. */
    method Write(data: array<byte>, off: i32, length: i32) returns (o: Outcome)
      requires Valid() && data.Length < 0x8000_0000
      modifies this, buf
      ensures Valid() && limit == old(limit)
      ensures o.Pass? <==> !readOnly && 0 <= off && 0 <= length && off + length <= data.Length && length <= old(limit) - old(position)
      ensures readOnly ==> o == Fail(ReadOnlyStore)
      ensures o.Fail? && !readOnly ==> o.error == Bounds
      ensures o.Fail? ==> unchanged(this, buf)
      ensures o.Pass? ==> Stores.Write(old(Abs()), old(data[off..off + length]), true) == Ok(Abs())
    {
      if readOnly {
        return Fail(ReadOnlyStore);
      }
      if off < 0 || length < 0 || Wrap32(off + length) < 0 || data.Length - Wrap32(off + length) < 0 {
        return Fail(Bounds);
      }
      if length > limit - position {
        return Fail(Bounds);
      }
      ghost var s := Abs();
      assert s == old(Abs());
      ghost var before := buf[..];
      var chunk := data[off..off + length];
      assert chunk == old(data[off..off + length]);
      assert s == Store(before[offset..offset + limit], s.pos, false);
      var at := offset + position;
      ArrayCopy.Put(chunk, buf, at);
      position := position + length;
      ghost var after := buf[..];
      assert Abs() == Store(after[offset..offset + limit], s.pos + length, false);
      SpliceWrite(s, Abs(), before, after, chunk, offset, limit);
      o := Pass;
    }

    /** `write(b)`: refused when read-only, a BufferOverflowException at the limit,
        otherwise one byte is put at the position. */
    method WriteByte(b: byte) returns (o: Outcome)
      requires Valid()
      modifies this, buf
      ensures Valid() && limit == old(limit)
      ensures o.Pass? <==> !readOnly && old(position) < old(limit)
      ensures readOnly ==> o == Fail(ReadOnlyStore)
      ensures o.Fail? && !readOnly ==> o.error == Bounds
      ensures o.Fail? ==> unchanged(this, buf)
      ensures o.Pass? ==> Stores.Write(old(Abs()), [b], true) == Ok(Abs())
    {
      if readOnly {
        return Fail(ReadOnlyStore);
      }
      if position >= limit {
        return Fail(Bounds);
      }
      ghost var s := Abs();
      buf[offset + position] := b;
      position := position + 1;
      assert Abs().bytes == s.bytes[s.pos := b];
      Stores.WriteOne(s, b, true);
      o := Pass;
    }

    /** `slice(n)`, exactly as written: a BufferUnderflowException when `n` exceeds what
        remains; otherwise the limit is set to `position + n` (an
        IllegalArgumentException below 0, and the position is pulled down to it when
        it is larger), the view is sliced off, the limit is restored and the position
        set to its current value plus `n` (an IllegalArgumentException below 0). For
        `n >= 0` the view holds the next `n` bytes and the position moves past them;
        for a negative `n` the view is empty and the position moves back by `2 * -n`. */
    method Slice(n: i32) returns (r: Result<ByteBufferStream>)
      requires Valid()
      modifies this
      ensures Valid() && limit == old(limit)
      ensures r == Err(Bounds) <==> n > old(limit) - old(position)
      ensures r.Ok? <==> SliceAsWritten(old(Abs()), n).Ok?
      ensures r.Err? ==> r == SliceAsWritten(old(Abs()), n).PropagateFailure()
      ensures r.Ok? ==> var v := r.value;
        && fresh(v) && v.Valid() && v.buf == buf && v.position == 0 && !v.readOnly
        && SliceAsWritten(old(Abs()), n) == Ok((v.Abs().bytes, Abs()))
    {
      if n > limit - position {
        return Err(Bounds);
      }
      var newLimit := position + n;
      if newLimit < 0 || newLimit > capacity {
        return Err(IllegalArgument);
      }
      ghost var s := Abs();
      ghost var contents := buf[..];
      // Setting the limit to `newLimit` pulls the position down to it; the view is
      // sliced off there and the limit is then restored.
      var p := if position > newLimit then newLimit else position;
      var view := new ByteBufferStream.View(buf, offset + p, newLimit - p);
      var newPosition := p + n;
      if newPosition < 0 || newPosition > limit {
        position := p;
        return Err(IllegalArgument);
      }
      ghost var bytes: seq<byte> := [];
      if n >= 0 {
        bytes := s.bytes[s.pos..s.pos + n];
      }
      assert SliceAsWritten(s, n) == Ok((bytes, s.(pos := newPosition)));
      assert view.Abs().bytes == bytes by {
        if n >= 0 {
          SliceOfSlice(contents, offset, limit, s.pos, n);
        }
      }
      position := newPosition;
      assert buf[..] == contents;
      assert Abs() == s.(pos := newPosition);
      r := Ok(view);
    }
  }

  /** The count `read` asks the buffer for: what was asked, capped by what remains. */
  function Granted(length: int, remaining: int): int
  {
    if length > remaining then remaining else length
  }

  lemma SliceOfSlice(a: seq<byte>, offset: nat, limit: nat, pos: nat, n: nat)
    requires offset + limit <= |a| && pos + n <= limit
    ensures a[offset..][..limit][pos..pos + n] == a[offset + pos..][..n] == a[offset + pos..offset + pos + n]
  {
    var w := a[offset..][..limit];
    var v := w[pos..pos + n];
    forall k | 0 <= k < n ensures v[k] == a[offset + pos + k] {
      assert w[pos + k] == a[offset + pos + k];
    }
  }

  /** An array whose window `[offset, offset + limit)` had `chunk` written into it at
      `pos` holds, in that window, what writing `chunk` to the window's store gives. */
  lemma SpliceWrite(s: Store, t: Store, before: seq<byte>, after: seq<byte>, chunk: seq<byte>, offset: nat, limit: nat)
    requires offset + limit <= |before| && s.pos + |chunk| <= limit
    requires after == before[..offset + s.pos] + chunk + before[offset + s.pos + |chunk|..]
    requires s == Store(before[offset..offset + limit], s.pos, false)
    requires t == Store(after[offset..offset + limit], s.pos + |chunk|, false)
    ensures Stores.Write(s, chunk, true) == Ok(t)
  {
    Splice(before, chunk, offset, limit, s.pos);
  }

  /** Replacing bytes inside the window `[offset, offset + limit)` of an array is the
      same replacement on the window. */
  lemma Splice(before: seq<byte>, chunk: seq<byte>, offset: nat, limit: nat, pos: nat)
    requires offset + limit <= |before| && pos + |chunk| <= limit
    ensures (before[..offset + pos] + chunk + before[offset + pos + |chunk|..])[offset..offset + limit]
      == before[offset..offset + limit][..pos] + chunk + before[offset..offset + limit][pos + |chunk|..]
  {
    var after := before[..offset + pos] + chunk + before[offset + pos + |chunk|..];
    var w := before[offset..offset + limit];
    assert |after| == |before|;
    var lhs := after[offset..offset + limit];
    var rhs := w[..pos] + chunk + w[pos + |chunk|..];
    forall k | 0 <= k < limit ensures lhs[k] == rhs[k] {
      assert lhs[k] == after[offset + k] && w[k] == before[offset + k];
      if k < pos {
      } else if k < pos + |chunk| {
        assert after[offset + k] == chunk[k - pos];
      } else {
        assert after[offset + k] == before[offset + k];
      }
    }
  }

  /** `slice(n)` on the stream's abstract state, as written: the view's bytes and the
      stream afterwards. */
  function SliceAsWritten(s: Store, n: int): (r: Result<(seq<byte>, Store)>)
    requires s.Valid()
  {
    if n > |s.bytes| - s.pos then Err(Bounds)
    else if s.pos + n < 0 then Err(IllegalArgument)
    else if n >= 0 then Ok((s.bytes[s.pos..s.pos + n], s.(pos := s.pos + n)))
    else if s.pos + 2 * n < 0 then Err(IllegalArgument)
    else Ok(([], s.(pos := s.pos + 2 * n)))
  }

  /** For a length that is not negative, slicing reads exactly what `readBytes` reads. */
  lemma SliceReadsLikeReadBytes(s: Store, n: int)
    requires s.Valid() && n >= 0
    ensures SliceAsWritten(s, n) == ReadBytes(s, n)
  {
  }

  /** A negative length is accepted and moves the stream backwards: twelve bytes into
      a stream, `slice(-6)` succeeds with an empty view and the position back at 0. */
  lemma NegativeSliceRewinds(s: Store)
    requires s.Valid() && s.pos == 12
    ensures SliceAsWritten(s, -6) == Ok(([], s.(pos := 0)))
    ensures ReadBytes(s, -6) == Err(Bounds)
  {
  }
}
