/** The main revision's `VcdiffDecoder` over `ByteBufferStream`s, proved against
    `Decoding` with the main configuration: every method leaves the streams, the code
    table and the address cache as the value-level decoder says, and fails exactly
    when and as it does. */
module MainDecoder {
  import opened JavaInt
  import opened Errors
  import opened Stores
  import opened Instructions
  import CodeTables
  import opened AddressModes
  import opened AddressCaches
  import opened ByteBufferStreams
  import MainIO
  import Interpreter
  import Decoding

  /** The locals of `decodeWindow` that the instruction loop works on: the stream over
      the target window (`targetDataStream`, whose array is `targetData`), the data
      section (`addRunData`), the instruction stream, the source segment
      (`sourceData`, with its length `realSourceLen`), the address cache, and the
      declared source length. */
  datatype Locals = Locals(
    target: ByteBufferStream,
    data: ByteBufferStream,
    inst: ByteBufferStream,
    source: ByteBufferStream?,
    realSourceLen: i32,
    cache: AddressCache,
    sourceLen: i32)

  /** The locals are valid streams over arrays the loop does not share: the target
      window is written, everything else only read. */
  ghost predicate Ready(l: Locals)
    reads l.target, l.data, l.inst, l.source, l.cache, l.cache.addressStream
  {
    && l.target.Valid() && l.data.Valid() && l.inst.Valid() && l.cache.Valid() && l.cache.addressStream != null
    && l.target.offset == 0 && l.target.limit == l.target.buf.Length && !l.target.readOnly && l.inst.readOnly
    && l.target != l.data && l.target != l.inst && l.data != l.inst
    && l.target.buf != l.data.buf && l.target.buf != l.inst.buf && l.target.buf != l.cache.addressStream.data
    && (l.source != null ==>
          && l.source.Valid() && l.realSourceLen == l.source.limit
          && l.source != l.target && l.source != l.data && l.source != l.inst && l.source.buf != l.target.buf)
  }

  /** The window the locals hold. The data section is read-only to the loop whatever
      view of the patch it is. */
  ghost function WindowOf(l: Locals): (w: Interpreter.Window)
    requires Ready(l)
    reads l.target, l.target.buf, l.data, l.data.buf, l.inst, l.inst.buf, l.source
    reads if l.source != null then {l.source.buf} else {}
    reads l.cache, l.cache.near, l.cache.same, l.cache.addressStream, l.cache.addressStream.data
    ensures w.Valid()
  {
    Interpreter.Window(
      l.target.Abs(), l.data.Abs().(readOnly := true), l.inst.Abs(), l.cache.addressStream.Abs(), l.cache.Abs(),
      if l.source == null then None else Some(l.source.Abs().bytes), l.sourceLen)
  }

  /** The instruction loop of `decodeWindow`: each index read from the instruction
      stream runs both instructions of its code-table entry, until the stream is
      used up. */
  method ExecuteInstructions(l: Locals, table: CodeTables.CodeTable) returns (o: Outcome)
    requires Ready(l) && table.Valid()
    modifies l.target, l.target.buf, l.data, l.inst, l.source, l.cache, l.cache.near, l.cache.same, l.cache.addressStream
    ensures Ready(l)
    ensures var r := Interpreter.Execute(old(WindowOf(l)), table.Rows());
      && (o.Pass? <==> r.Ok?) && (o.Pass? ==> WindowOf(l) == r.value) && (o.Fail? ==> o.error == r.error)
  {
    ghost var goal := Interpreter.Execute(WindowOf(l), table.Rows());
    var done := false;
    o := Pass;
    while !done
      invariant Ready(l) && l.cache.addressStream == old(l.cache.addressStream)
      invariant o.Pass? && !done ==> Interpreter.Execute(WindowOf(l), table.Rows()) == goal
      invariant o.Pass? && done ==> goal == Ok(WindowOf(l))
      invariant o.Fail? ==> done && goal == Err(o.error)
      decreases !done, Remaining(l)
    {
      o, done := Step(l, table);
    }
  }

  /** The bytes of the instruction section still to read. */
  ghost function Remaining(l: Locals): nat
    requires Ready(l)
    reads l.target, l.target.buf, l.data, l.data.buf, l.inst, l.inst.buf, l.source
    reads if l.source != null then {l.source.buf} else {}
    reads l.cache, l.cache.near, l.cache.same, l.cache.addressStream, l.cache.addressStream.data
  {
    var w := WindowOf(l); |w.inst.bytes| - w.inst.pos
  }

  /** One turn of the instruction loop: a failure, the end of the instruction
      stream, or both instructions of the entry the next index selects. */
  method Step(l: Locals, table: CodeTables.CodeTable) returns (o: Outcome, done: bool)
    requires Ready(l) && table.Valid()
    modifies l.target, l.target.buf, l.data, l.inst, l.source, l.cache, l.cache.near, l.cache.same, l.cache.addressStream
    ensures Ready(l) && l.cache.addressStream == old(l.cache.addressStream)
    ensures var goal := Interpreter.Execute(old(WindowOf(l)), table.Rows());
      && (o.Fail? ==> done && goal == Err(o.error))
      && (o.Pass? && done ==> goal == Ok(WindowOf(l)))
      && (o.Pass? && !done ==> goal == Interpreter.Execute(WindowOf(l), table.Rows()) && Remaining(l) < old(Remaining(l)))
  {
    ghost var w := WindowOf(l);
    var index := NextIndex(l);
    if index == -1 {
      return Pass, true;
    }
    Interpreter.ExecuteUnfold(w, table.Rows());
    o := Entry(l, table, index);
    done := o.Fail?;
  }

  /** Both instructions of the code-table entry `index`, in order. */
  method Entry(l: Locals, table: CodeTables.CodeTable, index: int) returns (o: Outcome)
    requires Ready(l) && table.Valid() && 0 <= index < 256
    modifies l.target, l.target.buf, l.data, l.inst, l.source, l.cache, l.cache.near, l.cache.same, l.cache.addressStream
    ensures Ready(l) && l.cache.addressStream == old(l.cache.addressStream)
    ensures var row := table.Rows()[index]; var r1 := Interpreter.Half(old(WindowOf(l)), row.first);
      var r2 := if r1.Ok? then Interpreter.Half(r1.value, row.second) else r1;
      && (o.Pass? <==> r2.Ok?) && (o.Pass? ==> WindowOf(l) == r2.value) && (o.Fail? ==> o.error == r2.error)
  {
    var first := table.Get(index, 0);
    o := ExecuteHalf(l, first);
    if o.Fail? {
      return;
    }
    var second := table.Get(index, 1);
    o := ExecuteHalf(l, second);
  }

  /** `instructionStream.read()`: the next index, or -1 when the section is used up. */
  method NextIndex(l: Locals) returns (index: int)
    requires Ready(l)
    modifies l.inst
    ensures Ready(l)
    ensures var w := old(WindowOf(l));
      && (index == -1 <==> w.inst.pos == |w.inst.bytes|) && (index == -1 ==> WindowOf(l) == w)
      && (index != -1 ==> index == w.inst.bytes[w.inst.pos] && WindowOf(l) == w.(inst := w.inst.(pos := w.inst.pos + 1)))
  {
    index := l.inst.ReadOne();
  }

  /** One instruction of an entry: its size, read from the instruction stream when
      the table gives 0 to anything but NOOP, then its action. */
  method ExecuteHalf(l: Locals, ins: Instruction) returns (o: Outcome)
    requires Ready(l)
    modifies l.target, l.target.buf, l.data, l.inst, l.source, l.cache, l.cache.near, l.cache.same, l.cache.addressStream
    ensures Ready(l) && l.cache.addressStream == old(l.cache.addressStream)
    ensures var r := Interpreter.Half(old(WindowOf(l)), ins);
      && (o.Pass? <==> r.Ok?) && (o.Pass? ==> WindowOf(l) == r.value) && (o.Fail? ==> o.error == r.error)
  {
    var rs := ReadSize(l, ins);
    if rs.Err? {
      return Fail(rs.error);
    }
    var size := rs.value;
    match ins.ist
    case NoOp => o := Pass;
    case Add => o := Add(l, size);
    case Run => o := Run(l, size);
    case Copy => o := CopyHalf(l, size, ins.mode);
  }

  /** The size of an instruction, on the locals. */
  method ReadSize(l: Locals, ins: Instruction) returns (r: Result<i32>)
    requires Ready(l)
    modifies l.inst
    ensures Ready(l)
    ensures var w := old(WindowOf(l)); var s := Interpreter.SizeOf(w.inst, ins);
      && (r.Ok? <==> s.Ok?) && (r.Err? ==> r.error == s.error)
      && (r.Ok? ==> r.value == s.value.0 && WindowOf(l) == w.(inst := s.value.1))
  {
    r := Ok(ins.size as i32);
    if ins.size == 0 && ins.ist != NoOp {
      r := MainIO.Read7bitIntBE(l.inst);
    }
  }

  /** ADD: `IOUtils.copy(addRunData, targetDataStream, size)`. */
  method Add(l: Locals, size: i32) returns (o: Outcome)
    requires Ready(l)
    modifies l.target, l.target.buf, l.data
    ensures Ready(l)
    ensures var r := Interpreter.ExecAdd(old(WindowOf(l)), size);
      && (o.Pass? <==> r.Ok?) && (o.Pass? ==> WindowOf(l) == r.value) && (o.Fail? ==> o.error == r.error)
  {
    o := AddStreams(l.data, l.target, size);
  }

  /** ADD on the two streams it moves. */
  method AddStreams(data: ByteBufferStream, target: ByteBufferStream, size: i32) returns (o: Outcome)
    requires data.Valid() && target.Valid() && data != target && data.buf != target.buf && !target.readOnly
    modifies data, target, target.buf
    ensures data.Valid() && target.Valid() && data.limit == old(data.limit) && target.limit == old(target.limit)
    ensures var r := Interpreter.AddBytes(old(data.Abs()).(readOnly := true), old(target.Abs()), size);
      && (o.Pass? <==> r.Ok?) && (o.Fail? ==> o.error == r.error)
      && (o.Pass? ==> data.Abs().(readOnly := true) == r.value.0 && target.Abs() == r.value.1)
  {
    ghost var d0 := data.Abs();
    ghost var t0 := target.Abs();
    o := MainIO.Copy(data, target, size);
    if 0 <= size <= |d0.bytes| - d0.pos {
      var chunk := d0.bytes[d0.pos..d0.pos + size];
      assert Write(t0, chunk, true) == Write(t0, chunk, false);
    }
  }

  /** RUN: `(byte) IOUtils.readByte(addRunData)`, written `size` times. */
  method Run(l: Locals, size: i32) returns (o: Outcome)
    requires Ready(l)
    modifies l.target, l.target.buf, l.data
    ensures Ready(l)
    ensures var r := Interpreter.ExecRun(old(WindowOf(l)), size);
      && (o.Pass? <==> r.Ok?) && (o.Pass? ==> WindowOf(l) == r.value) && (o.Fail? ==> o.error == r.error)
  {
    o := RunStreams(l.data, l.target, size);
  }

  /** RUN on the two streams it moves. */
  method RunStreams(data: ByteBufferStream, target: ByteBufferStream, size: i32) returns (o: Outcome)
    requires data.Valid() && target.Valid() && data != target && data.buf != target.buf && !target.readOnly
    modifies data, target, target.buf
    ensures data.Valid() && target.Valid() && data.limit == old(data.limit) && target.limit == old(target.limit)
    ensures var r := Interpreter.RunBytes(old(data.Abs()).(readOnly := true), old(target.Abs()), size);
      && (o.Pass? <==> r.Ok?) && (o.Fail? ==> o.error == r.error)
      && (o.Pass? ==> data.Abs().(readOnly := true) == r.value.0 && target.Abs() == r.value.1)
  {
    ghost var d0 := data.Abs();
    var rb := MainIO.ReadByte(data);
    if rb.Err? {
      return Fail(rb.error);
    }
    assert Stores.ReadByte(d0.(readOnly := true)) == Ok((rb.value, data.Abs().(readOnly := true)));
    o := WriteRun(target, rb.value, size);
  }

  /** The write loop of RUN: `targetDataStream.write(data)`, `size` times. */
  method WriteRun(target: ByteBufferStream, b: byte, size: i32) returns (o: Outcome)
    requires target.Valid() && !target.readOnly
    modifies target, target.buf
    ensures target.Valid() && target.limit == old(target.limit)
    ensures var r := Write(old(target.Abs()), Interpreter.Repeat(b, size), false);
      && (o.Pass? <==> r.Ok?) && (o.Pass? ==> target.Abs() == r.value) && (o.Fail? ==> o.error == r.error)
  {
    ghost var t0 := target.Abs();
    assert t0.bytes[..t0.pos] + [] + t0.bytes[t0.pos..] == t0.bytes;
    var j: i32 := 0;
    while j < size
      invariant target.Valid() && target.limit == old(target.limit)
      invariant 0 <= j <= (if size < 0 then 0 else size)
      invariant Write(t0, Interpreter.Repeat(b, j), false) == Ok(target.Abs())
    {
      ghost var before := target.Abs();
      o := target.WriteByte(b);
      if o.Fail? {
        assert before.pos == t0.pos + j && |before.bytes| == |t0.bytes|;
        return;
      }
      WriteConcat(t0, Interpreter.Repeat(b, j), [b], false);
      assert Interpreter.Repeat(b, j) + [b] == Interpreter.Repeat(b, j + 1);
      j := j + 1;
    }
    assert Interpreter.Repeat(b, size) == Interpreter.Repeat(b, j);
    o := Pass;
  }

  /** COPY: the address is decoded against the write position counted from the start
      of the source segment; an address inside the segment seeks the segment and
      copies from it, any other has the declared source length taken off and copies
      from the target window, in one block write when the Java sum of address and size
      is before the write position and byte by byte otherwise. */
  method CopyHalf(l: Locals, size: i32, mode: int8) returns (o: Outcome)
    requires Ready(l)
    modifies l.target, l.target.buf, l.source, l.cache, l.cache.near, l.cache.same, l.cache.addressStream
    ensures Ready(l) && l.cache.addressStream == old(l.cache.addressStream)
    ensures var r := Interpreter.ExecCopy(old(WindowOf(l)), size, mode);
      && (o.Pass? <==> r.Ok?) && (o.Pass? ==> WindowOf(l) == r.value) && (o.Fail? ==> o.error == r.error)
  {
    var here := Wrap32(l.target.position + l.sourceLen);
    var ra := DecodeAddress(l, here, mode);
    if ra.Err? {
      return Fail(ra.error);
    }
    o := CopyTo(l, ra.value, size);
  }

  /** `cache.decodeAddress(here, mode)`, on the locals. */
  method DecodeAddress(l: Locals, here: i32, mode: int8) returns (r: Result<i32>)
    requires Ready(l)
    modifies l.cache, l.cache.near, l.cache.same, l.cache.addressStream
    ensures Ready(l) && l.cache.addressStream == old(l.cache.addressStream)
    ensures var w := old(WindowOf(l)); var d := AddressModes.DecodeAddress(w.cache, w.addrs, here, mode);
      && (r.Ok? <==> d.Ok?) && (r.Err? ==> r.error == d.error)
      && (r.Ok? ==> r.value == d.value.0 && WindowOf(l) == w.(cache := d.value.1, addrs := d.value.2))
  {
    r := l.cache.DecodeAddress(here, mode);
  }

  /** The copy from the decoded address, on the locals. */
  method CopyTo(l: Locals, addr: i32, size: i32) returns (o: Outcome)
    requires Ready(l)
    modifies l.target, l.target.buf, l.source
    ensures Ready(l)
    ensures var w := old(WindowOf(l)); var r := Interpreter.CopyAt(w.target, w.source, w.sourceLen, addr, size);
      && (o.Pass? <==> r.Ok?) && (o.Pass? ==> WindowOf(l) == w.(target := r.value)) && (o.Fail? ==> o.error == r.error)
  {
    o := CopyAt(l.target, l.source, l.realSourceLen, l.sourceLen, addr, size);
  }

  /** The copy itself, once the address is decoded. */
  method CopyAt(target: ByteBufferStream, source: ByteBufferStream?, realSourceLen: i32, sourceLen: i32, addr: i32, size: i32)
    returns (o: Outcome)
    requires target.Valid() && target.offset == 0 && target.limit == target.buf.Length && !target.readOnly
    requires source != null ==> source.Valid() && source.limit == realSourceLen && source != target && source.buf != target.buf
    modifies target, target.buf, source
    ensures target.Valid() && target.limit == old(target.limit)
    ensures source != null ==> source.Valid() && source.limit == old(source.limit) && source.Abs().bytes == old(source.Abs().bytes)
    ensures var r := Interpreter.CopyAt(old(target.Abs()), if source == null then None else Some(old(source.Abs().bytes)), sourceLen, addr, size);
      && (o.Pass? <==> r.Ok?) && (o.Pass? ==> target.Abs() == r.value) && (o.Fail? ==> o.error == r.error)
  {
    if source != null && addr < realSourceLen {
      o := CopySource(source, target, addr, size);
    } else {
      o := CopyInTarget(target, Wrap32(addr - sourceLen), size);
    }
  }

  /** COPY from the source segment: `sourceData.seek(addr)`, then
      `IOUtils.copy(sourceData, targetDataStream, size)`. */
  method CopySource(source: ByteBufferStream, target: ByteBufferStream, addr: i32, size: i32) returns (o: Outcome)
    requires source.Valid() && target.Valid() && !target.readOnly && source != target && source.buf != target.buf
    modifies source, target, target.buf
    ensures source.Valid() && target.Valid() && source.limit == old(source.limit) && target.limit == old(target.limit)
    ensures source.Abs().bytes == old(source.Abs().bytes)
    ensures var r := Interpreter.CopyFromSource(old(source.Abs()).bytes, addr, size, old(target.Abs()));
      && (o.Pass? <==> r.Ok?) && (o.Pass? ==> target.Abs() == r.value) && (o.Fail? ==> o.error == r.error)
  {
    o := source.Seek(addr);
    if o.Fail? {
      return;
    }
    o := AddStreams(source, target, size);
  }

  /** COPY within the target window from index `a`: `targetDataStream.write(targetData,
      a, size)` when the Java sum `a + size` is before the write position, the byte
      loop otherwise. */
  method CopyInTarget(target: ByteBufferStream, a: i32, size: i32) returns (o: Outcome)
    requires target.Valid() && target.offset == 0 && target.limit == target.buf.Length && !target.readOnly
    modifies target, target.buf
    ensures target.Valid() && target.limit == old(target.limit)
    ensures var r := Interpreter.CopyTarget(old(target.Abs()), a, size);
      && (o.Pass? <==> r.Ok?) && (o.Pass? ==> target.Abs() == r.value) && (o.Fail? ==> o.error == r.error)
  {
    if Wrap32(a + size) < target.position {
      ghost var t0 := target.Abs();
      if 0 <= a && 0 <= size && a + size <= target.buf.Length {
        var chunk := t0.bytes[a..a + size];
        assert t0.bytes == target.buf[..];
        assert target.buf[a..a + size] == chunk;
        assert Write(t0, chunk, true) == Write(t0, chunk, false);
      }
      o := target.Write(target.buf, a, size);
    } else {
      o := CopyWithin(target, a, size);
    }
  }

  /** The byte loop of COPY within the target window: `targetData[addr++]` written
      `size` times, each read after the previous write. */
  method CopyWithin(target: ByteBufferStream, a: i32, size: i32) returns (o: Outcome)
    requires target.Valid() && target.offset == 0 && target.limit == target.buf.Length && !target.readOnly
    modifies target, target.buf
    ensures target.Valid() && target.limit == old(target.limit)
    ensures var r := Interpreter.CopyBytes(old(target.Abs()), a, size);
      && (o.Pass? <==> r.Ok?) && (o.Pass? ==> target.Abs() == r.value) && (o.Fail? ==> o.error == r.error)
  {
    ghost var goal := Interpreter.CopyBytes(target.Abs(), a, size);
    var addr: int := a;
    var n: int := size;
    while 0 < n
      invariant target.Valid() && target.limit == target.buf.Length
      invariant Interpreter.CopyBytes(target.Abs(), addr, n) == goal
    {
      o := CopyByte(target, addr, n);
      if o.Fail? {
        return;
      }
      addr, n := addr + 1, n - 1;
    }
    o := Pass;
  }

  /** One turn of that loop: `targetDataStream.write(targetData[addr])`, an
      ArrayIndexOutOfBoundsException outside the array. */
  method CopyByte(target: ByteBufferStream, addr: int, n: int) returns (o: Outcome)
    requires target.Valid() && target.offset == 0 && target.limit == target.buf.Length && !target.readOnly && 0 < n
    modifies target, target.buf
    ensures target.Valid() && target.limit == old(target.limit)
    ensures var r := Interpreter.CopyBytes(old(target.Abs()), addr, n);
      && (o.Fail? ==> r.Err? && o.error == r.error)
      && (o.Pass? ==> r == Interpreter.CopyBytes(target.Abs(), addr + 1, n - 1))
  {
    if addr < 0 || addr >= target.buf.Length {
      return Fail(Bounds);  // ArrayIndexOutOfBoundsException
    }
    ghost var before := target.Abs();
    var x := target.buf[addr];
    assert x == before.bytes[addr];
    o := target.WriteByte(x);
    if o.Pass? {
      Interpreter.CopyBytesTurn(before, addr, n, target.Abs());
    }
  }

  /** The three streams of a decoder are valid, and writing the target never touches
      the patch or the dictionary. */
  ghost predicate Apart(origin: ByteBufferStream?, patch: ByteBufferStream, target: ByteBufferStream)
    reads origin, patch, target
  {
    && patch.Valid() && target.Valid() && patch != target && patch.buf != target.buf
    && (origin != null ==> origin.Valid() && origin != patch && origin != target && origin.buf != target.buf)
  }

  /** The dictionary as the value-level decoder sees it. */
  ghost function OriginOf(origin: ByteBufferStream?): Option<Store>
    requires origin != null ==> origin.Valid()
    reads origin, if origin != null then {origin.buf} else {}
  {
    if origin == null then None else Some(origin.Abs())
  }

  /** The source segment as the value-level decoder sees it. */
  ghost function SourceOf(view: ByteBufferStream?): Option<seq<byte>>
    requires view != null ==> view.Valid()
    reads view, if view != null then {view.buf} else {}
  {
    if view == null then None else Some(view.Abs().bytes)
  }

  /** What `decodeWindow` holds once the window header is read: the checksum flag, the
      source segment (`sourceData`) with its declared and real lengths, the zeroed
      `targetData`, the data section (`addRunData`), and the instruction and address
      sections. */
  datatype Header = Header(
    checksum: bool,
    source: ByteBufferStream?,
    sourceLen: i32,
    realSourceLen: i32,
    targetData: array<byte>,
    data: ByteBufferStream,
    instructions: array<byte>,
    addresses: array<byte>)

  /** The window header the value-level decoder reads. */
  ghost function HeaderOf(h: Header): Decoding.WindowHeader
    requires h.data.Valid() && (h.source != null ==> h.source.Valid())
    reads h.data, h.data.buf, h.source, if h.source != null then {h.source.buf} else {}, h.instructions, h.addresses
  {
    Decoding.WindowHeader(h.checksum, SourceOf(h.source), h.sourceLen, h.targetData.Length,
                          h.data.Abs().bytes, h.instructions[..], h.addresses[..])
  }

  /** `VcdiffDecoder`: the three streams, the code table, the address cache and the
      `memorySaving` flag. */
  class VcdiffDecoder {
    const originStream: ByteBufferStream?
    const patchStream: ByteBufferStream
    const targetStream: ByteBufferStream
    var codeTable: CodeTables.CodeTable
    var cache: AddressCache
    /** Whether the data section and the source segment share the arrays of the
        streams they come from instead of being copied out of them. */
    var memorySaving: bool

    ghost predicate Valid()
      reads this`cache, this`codeTable, cache, cache.addressStream, codeTable, originStream, patchStream, targetStream
    {
      && Apart(originStream, patchStream, targetStream) && codeTable.Valid() && cache.Valid()
    }

    /** The decoder as the value-level decoder sees it. */
    ghost function Abs(): (d: Decoding.Decoder)
      requires Valid()
      reads this`cache, this`codeTable, cache, cache.addressStream, originStream, patchStream, targetStream
      reads codeTable, codeTable.entries, cache.near, cache.same
      reads patchStream.buf, targetStream.buf, if originStream != null then {originStream.buf} else {}
      ensures d.Valid()
    {
      var io := StreamsOf(originStream, patchStream, targetStream);
      Decoding.Decoder(io.origin, io.patch, io.target, codeTable.Rows(), cache.Abs())
    }

    /** `new VcdiffDecoder(originStream, patchStream, targetStream)`. */
    constructor (origin: ByteBufferStream?, patch: ByteBufferStream, target: ByteBufferStream)
      requires Apart(origin, patch, target)
      ensures Valid() && fresh(cache) && fresh(cache.near) && fresh(cache.same) && !memorySaving
      ensures originStream == origin && patchStream == patch && targetStream == target
      ensures Abs() == Decoding.Initial(OriginOf(origin), patch.Abs(), target.Abs())
    {
      var table := CodeTables.CodeTable.BuildDefault();
      var c := new AddressCache(4, 3);
      originStream, patchStream, targetStream := origin, patch, target;
      codeTable, cache, memorySaving := table, c, false;
    }

    /** `decode(originStream, patchStream, targetStream, memorySaving)`: a new decoder
        over the streams, run to the end of the patch. */
    static method Decode(origin: ByteBufferStream?, patch: ByteBufferStream, target: ByteBufferStream, memorySaving: bool)
      returns (o: Outcome)
      requires Apart(origin, patch, target)
      modifies origin, patch, target, target.buf
      ensures Apart(origin, patch, target)
      ensures var r := Decoding.Decode(old(OriginOf(origin)), old(patch.Abs()), old(target.Abs()), Decoding.MainConfig);
        && (o.Pass? <==> r.Ok?) && (o.Fail? ==> o.error == r.error)
        && (o.Pass? ==> OriginOf(origin) == r.value.origin && patch.Abs() == r.value.patch && target.Abs() == r.value.target)
      decreases patch.limit, 5
    {
      var decoder := new VcdiffDecoder(origin, patch, target);
      ghost var d := decoder.Abs();
      decoder.memorySaving := memorySaving;
      assert decoder.Abs() == d;
      o := decoder.Run();
      assert decoder.Abs().origin == OriginOf(origin) && decoder.Abs().patch == patch.Abs() && decoder.Abs().target == target.Abs();
    }

    /** The private `decode()`: the header, then window after window. */
    method Run() returns (o: Outcome)
      requires Valid()
      modifies this, cache, cache.near, cache.same, originStream, patchStream, targetStream, targetStream.buf
      ensures Valid()
      ensures var r := Decoding.Run(old(Abs()), Decoding.MainConfig);
        && (o.Pass? <==> r.Ok?) && (o.Pass? ==> Abs() == r.value) && (o.Fail? ==> o.error == r.error)
      decreases patchStream.limit, 4
    {
      o := ReadHeader();
      if o.Fail? {
        return;
      }
      o := Windows();
    }

    /** `while (decodeWindow());`. */
    method Windows() returns (o: Outcome)
      requires Valid()
      modifies cache, cache.near, cache.same, originStream, patchStream, targetStream, targetStream.buf
      ensures Valid()
      ensures var r := Decoding.Windows(old(Abs()), Decoding.MainConfig);
        && (o.Pass? <==> r.Ok?) && (o.Pass? ==> Abs() == r.value) && (o.Fail? ==> o.error == r.error)
    {
      ghost var goal := Decoding.Windows(Abs(), Decoding.MainConfig);
      var more := true;
      o := Pass;
      while more
        invariant Valid()
        invariant o.Pass? && more ==> Decoding.Windows(Abs(), Decoding.MainConfig) == goal
        invariant o.Pass? && !more ==> goal == Ok(Abs())
        invariant o.Fail? ==> !more && goal == Err(o.error)
        decreases more, |Abs().patch.bytes| - Abs().patch.pos
      {
        o, more := DecodeWindow();
      }
    }

    /** `readHeader`: the magic bytes, the version and the header indicator, then the
        custom code table and the application header if the indicator has them. */
    method ReadHeader() returns (o: Outcome)
      requires Valid()
      modifies this, patchStream
      ensures Valid() && (cache == old(cache) || (fresh(cache) && fresh(cache.near) && fresh(cache.same)))
      ensures var r := Decoding.ReadHeader(old(Abs()), Decoding.MainConfig);
        && (o.Pass? <==> r.Ok?) && (o.Pass? ==> Abs() == r.value) && (o.Fail? ==> o.error == r.error)
      decreases patchStream.limit, 3
    {
      var ri := ReadIndicator(patchStream);
      if ri.Err? {
        return Fail(ri.error);
      }
      o := HeaderTail(ri.value);
    }

    /** The rest of `readHeader`, once the indicator is read. */
    method HeaderTail(headerIndicator: byte) returns (o: Outcome)
      requires Valid()
      modifies this, patchStream
      ensures Valid() && (cache == old(cache) || (fresh(cache) && fresh(cache.near) && fresh(cache.same)))
      ensures var r := Decoding.HeaderTail(old(Abs()), headerIndicator, Decoding.MainConfig);
        && (o.Pass? <==> r.Ok?) && (o.Pass? ==> Abs() == r.value) && (o.Fail? ==> o.error == r.error)
      decreases patchStream.limit, 2
    {
      o := Pass;
      if headerIndicator / 2 % 2 == 1 {
        o := ReadCodeTable();
        if o.Fail? {
          return;
        }
      }
      if headerIndicator / 4 % 2 == 1 {
        o := SkipAppHeader();
      }
    }

    /** The application header, skipped on the patch stream. */
    method SkipAppHeader() returns (o: Outcome)
      requires Valid()
      modifies patchStream
      ensures Valid()
      ensures var r := Decoding.SkipApplicationHeader(old(Abs()).patch);
        && (o.Pass? <==> r.Ok?) && (o.Pass? ==> Abs() == old(Abs()).(patch := r.value)) && (o.Fail? ==> o.error == r.error)
    {
      o := SkipApplicationHeader(patchStream);
    }

    /** `readCodeTable`: the custom code table replaces the code table, and the cache
        is made anew with the sizes the patch gives. */
    method ReadCodeTable() returns (o: Outcome)
      requires Valid()
      modifies this, patchStream
      ensures Valid() && (cache == old(cache) || (fresh(cache) && fresh(cache.near) && fresh(cache.same)))
      ensures var r := Decoding.ReadCodeTable(old(Abs()), Decoding.MainConfig);
        && (o.Pass? <==> r.Ok?) && (o.Pass? ==> Abs() == r.value) && (o.Fail? ==> o.error == r.error)
      decreases patchStream.limit, 1
    {
      var rt := ReadCustomTable(patchStream);
      if rt.Err? {
        return Fail(rt.error);
      }
      var (table, nearSize, sameSize) := rt.value;
      codeTable := table;
      cache := new AddressCache(nearSize, sameSize);
      o := Pass;
    }

    /** The middle of `readCodeTable`: the compressed table decoded against the default
        table's bytes into a zeroed 1536-byte array, which must come out full. */
    static method DecompressTable(compressedTableData: array<byte>) returns (r: Result<array<byte>>)
      requires compressedTableData.Length < 0x8000_0000
      ensures var s := Decoding.DecompressTable(compressedTableData[..], Decoding.MainConfig);
        && (r.Ok? <==> s.Ok?) && (r.Err? ==> r.error == s.error)
        && (r.Ok? ==> fresh(r.value) && r.value[..] == s.value)
      decreases compressedTableData.Length, 6
    {
      var defaultTable := CodeTables.CodeTable.BuildDefault();
      var defaultTableData := defaultTable.GetBytes();
      var tableOriginal := new ByteBufferStream.Wrap(defaultTableData, true);
      var tableDelta := new ByteBufferStream.Wrap(compressedTableData, true);
      var decompressedTableData := new byte[1536](_ => 0);
      var tableOutput := new ByteBufferStream.Wrap(decompressedTableData, false);
      assert OriginOf(tableOriginal) == Some(Decoding.TableOrigin());
      assert tableOutput.Abs() == Decoding.TableTarget();
      var o := Decode(tableOriginal, tableDelta, tableOutput, true);
      if o.Fail? {
        return Err(o.error);
      }
      if tableOutput.position != 1536 {
        return Err(BadTableSize);
      }
      assert tableOutput.Abs().bytes == decompressedTableData[..];
      r := Ok(decompressedTableData);
    }

    /** `decodeWindow`: false at the end of the patch; otherwise the window indicator,
        the window header, the instruction loop, and the target window written to the
        target stream. */
    method DecodeWindow() returns (o: Outcome, more: bool)
      requires Valid()
      modifies cache, cache.near, cache.same, originStream, patchStream, targetStream, targetStream.buf
      ensures Valid()
      ensures var r := Decoding.DecodeWindow(old(Abs()), Decoding.MainConfig);
        && (o.Fail? <==> r.Err?) && (o.Fail? ==> !more && o.error == r.error)
        && (o.Pass? ==> (more <==> r.value.Some?) && (more ==> Abs() == r.value.value) && (!more ==> Abs() == old(Abs())))
    {
      ghost var d := Abs();
      var windowIndicator := NextIndicator();
      if windowIndicator == -1 {
        return Pass, false;
      }
      ghost var d1 := Abs();
      assert d1 == d.(patch := d.patch.(pos := d.patch.pos + 1));
      o := NextWindow(windowIndicator);
      assert Decoding.DecodeWindow(d, Decoding.MainConfig) == (
        var r := Decoding.NextWindow(d1, windowIndicator, Decoding.MainConfig); if r.Ok? then Ok(Some(r.value)) else Err(r.error));
      more := o.Pass?;
    }

    /** `patchStream.read()`: the window indicator, or -1 at the end of the patch. */
    method NextIndicator() returns (wi: int)
      requires Valid()
      modifies patchStream
      ensures Valid()
      ensures var d := old(Abs());
        && (wi == -1 <==> d.patch.pos == |d.patch.bytes|) && (wi == -1 ==> Abs() == d)
        && (wi != -1 ==> wi == d.patch.bytes[d.patch.pos] && Abs() == d.(patch := d.patch.(pos := d.patch.pos + 1)))
    {
      wi := patchStream.ReadOne();
    }

    /** A window after its indicator. */
    method NextWindow(windowIndicator: byte) returns (o: Outcome)
      requires Valid()
      modifies cache, cache.near, cache.same, originStream, patchStream, targetStream, targetStream.buf
      ensures Valid()
      ensures var r := Decoding.NextWindow(old(Abs()), windowIndicator, Decoding.MainConfig);
        && (o.Pass? <==> r.Ok?) && (o.Pass? ==> Abs() == r.value) && (o.Fail? ==> o.error == r.error)
    {
      o := DecodeWindowBody(originStream, patchStream, targetStream, codeTable, cache, windowIndicator, memorySaving);
    }
  }

  /** The three streams as the value-level decoder sees them. */
  ghost function StreamsOf(origin: ByteBufferStream?, patch: ByteBufferStream, target: ByteBufferStream): (io: Decoding.Streams)
    requires Apart(origin, patch, target)
    reads origin, patch, target, patch.buf, target.buf, if origin != null then {origin.buf} else {}
    ensures io.Valid()
  {
    Decoding.Streams(OriginOf(origin), patch.Abs(), target.Abs())
  }

  /** A window after its indicator: the header, the instruction loop, and the target
      window written to the target stream. */
  method DecodeWindowBody(origin: ByteBufferStream?, patch: ByteBufferStream, target: ByteBufferStream,
                          table: CodeTables.CodeTable, cache: AddressCache, windowIndicator: byte, memorySaving: bool)
    returns (o: Outcome)
    requires Apart(origin, patch, target) && table.Valid() && cache.Valid()
    modifies cache, cache.near, cache.same, origin, patch, target, target.buf
    ensures Apart(origin, patch, target) && cache.Valid()
    ensures var r := Decoding.WindowBody(old(StreamsOf(origin, patch, target)), windowIndicator, table.Rows(), old(cache.Abs()), Decoding.MainConfig);
      && (o.Pass? <==> r.Ok?) && (o.Fail? ==> o.error == r.error)
      && (o.Pass? ==> StreamsOf(origin, patch, target) == r.value.0 && cache.Abs() == r.value.1)
  {
    ghost var io0 := StreamsOf(origin, patch, target);
    ghost var c0 := cache.Abs();
    var rh := ReadWindowHeader(origin, patch, target, windowIndicator, memorySaving);
    ghost var s := Decoding.ReadWindowHeader(io0, windowIndicator);
    if rh.Err? {
      return Fail(rh.error);
    }
    o := FinishWindow(rh.value, target, table, cache, s.value.0, s.value.1.target, c0);
  }

  /** The window header after the indicator: the source segment the indicator asks
      for, then the sections, with the checksum bytes when the indicator has bit 2. */
  method ReadWindowHeader(origin: ByteBufferStream?, patch: ByteBufferStream, target: ByteBufferStream,
                          windowIndicator: byte, memorySaving: bool) returns (r: Result<Header>)
    requires Apart(origin, patch, target)
    modifies origin, patch, target
    ensures Apart(origin, patch, target) && patch.limit == old(patch.limit)
    ensures var s := Decoding.ReadWindowHeader(old(StreamsOf(origin, patch, target)), windowIndicator);
      && (r.Ok? <==> s.Ok?) && (r.Err? ==> r.error == s.error)
      && (r.Ok? ==> HeaderFresh(r.value, target) && HeaderApart(r.value, origin, patch))
      && (r.Ok? ==> HeaderOf(r.value) == s.value.0 && StreamsOf(origin, patch, target) == s.value.1)
      && (r.Ok? ==> fresh(r.value.targetData) && fresh(r.value.data) && (r.value.source != null ==> fresh(r.value.source)))
  {
    var hasAdler32Checksum := windowIndicator / 4 % 2 == 1;
    var mode := if hasAdler32Checksum then windowIndicator - 4 else windowIndicator;  // `windowIndicator &= 0xfb`
    if mode > 2 {
      return Err(BadWindowIndicator);
    }
    if mode == 1 && origin == null {
      return Err(SourceRequired);
    }
    ghost var io0 := StreamsOf(origin, patch, target);
    var source :- ReadSource(origin, patch, target, mode, memorySaving);
    ghost var io1 := Decoding.ReadSource(io0, mode).value.2;
    assert StreamsOf(origin, patch, target) == io1;
    var sections :- ReadSections(patch, hasAdler32Checksum, memorySaving);
    ghost var p2 := Decoding.ReadSections(io1.patch, hasAdler32Checksum).value.1;
    assert StreamsOf(origin, patch, target) == io1.(patch := p2);
    r := Ok(Header(hasAdler32Checksum, source.0, source.1, source.2, sections.0, sections.1, sections.2, sections.3));
  }

  /** The objects a window header holds are new, apart from the target stream and
      from each other, and the target window is zeroed. */
  ghost predicate HeaderFresh(h: Header, target: ByteBufferStream)
    reads target, h.data, h.source, h.targetData
  {
    && h.data.Valid() && h.data.position == 0 && h.data != target
    && h.targetData.Length < 0x8000_0000 && h.instructions.Length < 0x8000_0000 && h.addresses.Length < 0x8000_0000
    && h.targetData != target.buf && h.targetData != h.data.buf
    && h.targetData != h.instructions && h.targetData != h.addresses
    && h.targetData[..] == seq(h.targetData.Length, _ => 0)
    && (h.source != null ==>
          && h.source.Valid() && h.source.position == 0 && h.source.limit == h.realSourceLen
          && h.source != target && h.source != h.data && h.source.buf != h.targetData)
    && (h.source == null ==> h.realSourceLen == 0)
  }

  /** The streams and arrays of a window header that the instruction loop moves or
      writes are none of the dictionary's and the patch's. */
  ghost predicate HeaderApart(h: Header, origin: ByteBufferStream?, patch: ByteBufferStream)
    reads patch, origin
  {
    && h.data != patch && h.source != patch && h.targetData != patch.buf
    && (origin != null ==> h.data != origin && h.source != origin && h.targetData != origin.buf)
  }

  /** The source segment of a window of mode 1 (the dictionary) or 2 (the target so
      far): its declared length and position, a view of as many bytes as the stream
      holds from there, up to the declared length, and the target's position put
      back. */
  method ReadSource(origin: ByteBufferStream?, patch: ByteBufferStream, target: ByteBufferStream,
                    mode: byte, memorySaving: bool) returns (r: Result<(ByteBufferStream?, i32, i32)>)
    requires Apart(origin, patch, target) && mode <= 2 && (mode == 1 ==> origin != null)
    modifies origin, patch, target
    ensures Apart(origin, patch, target) && patch.limit == old(patch.limit)
    ensures var s := Decoding.ReadSource(old(StreamsOf(origin, patch, target)), mode);
      && (r.Ok? <==> s.Ok?) && (r.Err? ==> r.error == s.error)
      && (r.Ok? ==> var (sourceData, sourceLen, realSourceLen) := r.value;
            && (sourceData != null ==> sourceData.Valid()) && SourceOf(sourceData) == s.value.0
            && sourceLen == s.value.1 && StreamsOf(origin, patch, target) == s.value.2
            && (sourceData == null ==> realSourceLen == 0)
            && (sourceData != null ==>
                  && fresh(sourceData) && sourceData.position == 0 && sourceData.limit == realSourceLen))
  {
    if mode == 0 {
      return Ok((null, 0, 0));
    }
    var sourceStream: ByteBufferStream := if mode == 1 then origin else target;
    var tempTargetStreamPos: int := -1;
    if mode == 2 {
      tempTargetStreamPos := target.position;
    }
    var window :- ReadSourceWindow(patch);
    var (sourceLen, sourcePos) := window;
    var view :- SourceView(sourceStream, sourceLen, sourcePos, memorySaving);
    var (sourceData, realSourceLen) := view;
    if tempTargetStreamPos != -1 {
      var _ := target.Seek(tempTargetStreamPos);
    }
    r := Ok((sourceData, sourceLen, realSourceLen));
  }

  /** The rest of the window header: the delta length (ignored), the target length, a
      delta indicator that must be 0, the zeroed target window, the three section
      lengths, the checksum bytes if any, and the three sections. */
  method ReadSections(patch: ByteBufferStream, checksum: bool, memorySaving: bool)
    returns (r: Result<(array<byte>, ByteBufferStream, array<byte>, array<byte>)>)
    requires patch.Valid()
    modifies patch
    ensures patch.Valid() && patch.limit == old(patch.limit)
    ensures var s := Decoding.ReadSections(old(patch.Abs()), checksum);
      && (r.Ok? <==> s.Ok?) && (r.Err? ==> r.error == s.error)
      && (r.Ok? ==> var (targetData, addRunData, instructions, addresses) := r.value;
            && fresh(targetData) && fresh(addRunData) && fresh(instructions) && fresh(addresses)
            && addRunData.Valid() && addRunData.position == 0
            && (addRunData.buf == patch.buf || fresh(addRunData.buf)) && addRunData.buf != targetData
            && targetData != instructions && targetData != addresses
            && targetData.Length < 0x8000_0000 && instructions.Length < 0x8000_0000 && addresses.Length < 0x8000_0000
            && targetData[..] == seq(targetData.Length, _ => 0)
            && s.value.0 == Decoding.Sections(targetData.Length, addRunData.Abs().bytes, instructions[..], addresses[..])
            && patch.Abs() == s.value.1)
  {
    var targetData :- ReadTargetLength(patch);
    var lengths :- ReadSectionLengths(patch, checksum);
    var sections :- ReadSectionData(patch, lengths, memorySaving);
    var (addRunData, instructions, addresses) := sections;
    r := Ok((targetData, addRunData, instructions, addresses));
  }

  /** The start of the instruction loop: a stream over the zeroed target window
      (`targetDataStream`), a read-only stream over the instruction section, and the
      cache reset to the address section. */
  method StartLoop(h: Header, target: ByteBufferStream, cache: AddressCache) returns (l: Locals)
    requires cache.Valid() && HeaderFresh(h, target)
    modifies cache, cache.near, cache.same
    ensures cache.Valid() && Ready(l) && l.cache == cache && fresh(l.cache.addressStream)
    ensures fresh(l.target) && fresh(l.inst) && l.target.buf == h.targetData && l.data == h.data && l.source == h.source
    ensures WindowOf(l) == Decoding.StartWindow(old(HeaderOf(h)), old(cache.Abs()))
  {
    var targetDataStream := new ByteBufferStream.Wrap(h.targetData, false);
    var instructionStream := new ByteBufferStream.Wrap(h.instructions, true);
    cache.Reset(h.addresses);
    l := Locals(targetDataStream, h.data, instructionStream, h.source, h.realSourceLen, cache, h.sourceLen);
  }

  /** The rest of `decodeWindow` once the header is read: the instruction loop over
      the zeroed target window with the cache reset to the address section, then the
      whole target window written to the target stream. */
  method FinishWindow(h: Header, target: ByteBufferStream, table: CodeTables.CodeTable, cache: AddressCache,
                      ghost hv: Decoding.WindowHeader, ghost t0: Store, ghost c0: Cache)
    returns (o: Outcome)
    requires target.Valid() && table.Valid() && cache.Valid() && HeaderFresh(h, target)
    requires hv == HeaderOf(h) && t0 == target.Abs() && c0 == cache.Abs()
    modifies cache, cache.near, cache.same, h.targetData, h.data, h.source, target, target.buf
    ensures target.Valid() && cache.Valid()
    ensures var r := Decoding.FinishWindow(hv, t0, table.Rows(), c0, Decoding.MainConfig);
      && (o.Pass? <==> r.Ok?) && (o.Fail? ==> o.error == r.error)
      && (o.Pass? ==> target.Abs() == r.value.0 && cache.Abs() == r.value.1)
  {
    o := RunWindow(h, target, table, cache, hv, c0);
    if o.Fail? {
      return;
    }
    o := WriteWindow(target, h.targetData, t0);
  }

  /** The instruction loop of one window, from the zeroed target window and the
      cache reset to the address section; the target stream is not touched. */
  method RunWindow(h: Header, target: ByteBufferStream, table: CodeTables.CodeTable, cache: AddressCache,
                   ghost hv: Decoding.WindowHeader, ghost c0: Cache)
    returns (o: Outcome)
    requires target.Valid() && table.Valid() && cache.Valid() && HeaderFresh(h, target)
    requires hv == HeaderOf(h) && c0 == cache.Abs()
    modifies cache, cache.near, cache.same, h.targetData, h.data, h.source
    ensures cache.Valid()
    ensures var r := Interpreter.Execute(Decoding.StartWindow(hv, c0), table.Rows());
      && (o.Pass? <==> r.Ok?) && (o.Fail? ==> o.error == r.error)
      && (o.Pass? ==> h.targetData[..] == r.value.target.bytes && cache.Abs() == r.value.cache)
  {
    var l := StartLoop(h, target, cache);
    o := ExecuteInstructions(l, table);
  }

  /** `targetStream.write(targetData, 0, targetData.length)`. */
  method WriteWindow(target: ByteBufferStream, targetData: array<byte>, ghost t0: Store) returns (o: Outcome)
    requires target.Valid() && targetData.Length < 0x8000_0000 && targetData != target.buf && t0 == target.Abs()
    modifies target, target.buf
    ensures target.Valid()
    ensures var s := Stores.Write(t0, targetData[..], true);
      && (o.Pass? <==> s.Ok?) && (o.Fail? ==> o.error == s.error) && (o.Pass? ==> target.Abs() == s.value)
  {
    o := target.Write(targetData, 0, targetData.Length);
  }

  /** The declared length and the position of the source segment. */
  method ReadSourceWindow(patch: ByteBufferStream) returns (r: Result<(i32, i32)>)
    requires patch.Valid()
    modifies patch
    ensures patch.Valid() && patch.limit == old(patch.limit)
    ensures var s := Decoding.SourceWindow(old(patch.Abs()));
      && (r.Ok? <==> s.Ok?) && (r.Err? ==> r.error == s.error)
      && (r.Ok? ==> s.value == (r.value.0, r.value.1, patch.Abs()))
  {
    var sourceLen :- MainIO.Read7bitIntBE(patch);
    var sourcePos :- MainIO.Read7bitIntBE(patch);
    r := Ok((sourceLen, sourcePos));
  }

  /** The source segment (`sourceData`) and its real length: a seek of the source
      stream to the segment, then a view of as many bytes as the stream holds from
      there, up to the declared length. */
  method SourceView(source: ByteBufferStream, sourceLen: i32, sourcePos: i32, memorySaving: bool)
    returns (r: Result<(ByteBufferStream, i32)>)
    requires source.Valid()
    modifies source
    ensures source.Valid() && source.limit == old(source.limit)
    ensures var s := Decoding.SourceSegment(old(source.Abs()), sourceLen, sourcePos);
      && (r.Ok? <==> s.Ok?) && (r.Err? ==> r.error == s.error)
      && (r.Ok? ==> var (view, realSourceLen) := r.value;
            && fresh(view) && view.Valid() && view.position == 0 && view.limit == realSourceLen
            && view.Abs().bytes == s.value.0 && source.Abs() == s.value.1)
  {
    var sought := source.Seek(sourcePos);
    if sought.Fail? {
      return Err(sought.error);
    }
    var realSourceLen := sourceLen;
    if Wrap32(sourceLen as int + sourcePos) > source.Length() {
      realSourceLen := source.Length() - sourcePos;
    }
    var view :- MainIO.GetStreamView(source, realSourceLen, memorySaving);
    r := Ok((view, realSourceLen));
  }

  /** The start of `readHeader`: the magic bytes, the version and the header
      indicator. */
  method ReadIndicator(patch: ByteBufferStream) returns (r: Result<byte>)
    requires patch.Valid()
    modifies patch
    ensures patch.Valid() && patch.limit == old(patch.limit)
    ensures var s := Decoding.HeaderIndicator(old(patch.Abs()));
      && (r.Ok? <==> s.Ok?) && (r.Err? ==> r.error == s.error) && (r.Ok? ==> s.value == (r.value, patch.Abs()))
  {
    var magic :- MainIO.ReadBytes(patch, 4);
    if magic[0] != 0xD6 || magic[1] != 0xC3 || magic[2] != 0xC4 {
      return Err(NotVcdiff);
    }
    if magic[3] != 0 {
      return Err(UnsupportedVersion);
    }
    var headerIndicator :- MainIO.ReadByte(patch);
    if headerIndicator % 2 == 1 {
      return Err(UnsupportedSecondaryCompression);
    }
    if headerIndicator >= 8 {  // `(headerIndicator & 0xf8) != 0` on the signed byte
      return Err(BadHeaderIndicator);
    }
    r := Ok(headerIndicator);
  }

  /** The custom code table of `readCodeTable`: the compressed table is decoded by a
      decoder of its own, from the default table's bytes into 1536 bytes, which must
      all be written and must describe a table; the near and same sizes come with it. */
  method ReadCustomTable(patch: ByteBufferStream) returns (r: Result<(CodeTables.CodeTable, byte, byte)>)
    requires patch.Valid()
    modifies patch
    ensures patch.Valid() && patch.limit == old(patch.limit)
    ensures var s := Decoding.CustomTable(old(patch.Abs()), Decoding.MainConfig);
      && (r.Ok? <==> s.Ok?) && (r.Err? ==> r.error == s.error)
      && (r.Ok? ==> var (table, nearSize, sameSize) := r.value;
            && table.Valid() && s.value == (table.Rows(), nearSize, sameSize, patch.Abs()))
    decreases patch.limit, 0
  {
    var rd := ReadTableDelta(patch);
    if rd.Err? {
      return Err(rd.error);
    }
    var (compressedTableData, nearSize, sameSize) := rd.value;
    var rt := VcdiffDecoder.DecompressTable(compressedTableData);
    if rt.Err? {
      return Err(rt.error);
    }
    var table :- CodeTables.CodeTable.FromBytes(rt.value);
    r := Ok((table, nearSize, sameSize));
  }

  /** The sizes of a custom code table and its compressed bytes: a varint less 2,
      the near and same sizes, then that many bytes. */
  method ReadTableDelta(patch: ByteBufferStream) returns (r: Result<(array<byte>, byte, byte)>)
    requires patch.Valid()
    modifies patch
    ensures patch.Valid() && patch.limit == old(patch.limit)
    ensures var s := Decoding.TableDelta(old(patch.Abs()));
      && (r.Ok? <==> s.Ok?) && (r.Err? ==> r.error == s.error)
      && (r.Ok? ==>
            && fresh(r.value.0) && r.value.0.Length < patch.limit
            && s.value == (r.value.0[..], r.value.1, r.value.2, patch.Abs()))
  {
    var compressedTableLen :- MainIO.Read7bitIntBE(patch);
    var nearSize :- MainIO.ReadByte(patch);
    var sameSize :- MainIO.ReadByte(patch);
    var compressedTableData :- MainIO.ReadBytes(patch, Wrap32(compressedTableLen as int - 2));
    r := Ok((compressedTableData, nearSize, sameSize));
  }

  /** The application header: skipped. */
  method SkipApplicationHeader(patch: ByteBufferStream) returns (o: Outcome)
    requires patch.Valid()
    modifies patch
    ensures patch.Valid() && patch.limit == old(patch.limit)
    ensures var s := Decoding.SkipApplicationHeader(old(patch.Abs()));
      && (o.Pass? <==> s.Ok?) && (o.Fail? ==> o.error == s.error) && (o.Pass? ==> patch.Abs() == s.value)
  {
    var appHeaderLength := MainIO.Read7bitIntBE(patch);
    if appHeaderLength.Err? {
      return Fail(appHeaderLength.error);
    }
    var skipped := MainIO.ReadBytes(patch, appHeaderLength.value);
    o := if skipped.Ok? then Pass else Fail(skipped.error);
  }

  /** The delta length (ignored), the target length and the delta indicator, then the
      zeroed target window (`targetData`) of that length. */
  method ReadTargetLength(patch: ByteBufferStream) returns (r: Result<array<byte>>)
    requires patch.Valid()
    modifies patch
    ensures patch.Valid() && patch.limit == old(patch.limit)
    ensures var s := Decoding.TargetLength(old(patch.Abs()));
      && (r.Ok? <==> s.Ok?) && (r.Err? ==> r.error == s.error)
      && (r.Ok? ==>
            && fresh(r.value) && r.value.Length == s.value.0 && r.value[..] == seq(r.value.Length, _ => 0)
            && patch.Abs() == s.value.1)
  {
    var _ :- MainIO.Read7bitIntBE(patch);  // the length of the delta encoding
    var targetLen :- MainIO.Read7bitIntBE(patch);
    var deltaIndicator :- MainIO.ReadByte(patch);
    if deltaIndicator != 0 {
      return Err(UnsupportedDeltaCompression);
    }
    if targetLen < 0 {
      return Err(Bounds);  // NegativeArraySizeException
    }
    var targetData := new byte[targetLen](_ => 0);
    r := Ok(targetData);
  }

  /** The three section lengths, then the checksum bytes if the window has them. */
  method ReadSectionLengths(patch: ByteBufferStream, checksum: bool) returns (r: Result<(i32, i32, i32)>)
    requires patch.Valid()
    modifies patch
    ensures patch.Valid() && patch.limit == old(patch.limit)
    ensures var s := Decoding.SectionLengths(old(patch.Abs()), checksum);
      && (r.Ok? <==> s.Ok?) && (r.Err? ==> r.error == s.error)
      && (r.Ok? ==> r.value == s.value.0 && patch.Abs() == s.value.1)
  {
    var addRunDataLen :- MainIO.Read7bitIntBE(patch);
    var instructionsLen :- MainIO.Read7bitIntBE(patch);
    var addressesLen :- MainIO.Read7bitIntBE(patch);
    if checksum {
      var _ :- MainIO.ReadBytes(patch, 4);
    }
    r := Ok((addRunDataLen, instructionsLen, addressesLen));
  }

  /** The three sections: the data section as a view of the patch (`addRunData`),
      the instruction and address sections as arrays. */
  method ReadSectionData(patch: ByteBufferStream, lengths: (i32, i32, i32), memorySaving: bool)
    returns (r: Result<(ByteBufferStream, array<byte>, array<byte>)>)
    requires patch.Valid()
    modifies patch
    ensures patch.Valid() && patch.limit == old(patch.limit)
    ensures var s := Decoding.SectionData(old(patch.Abs()), lengths);
      && (r.Ok? <==> s.Ok?) && (r.Err? ==> r.error == s.error)
      && (r.Ok? ==> var (addRunData, instructions, addresses) := r.value;
            && fresh(addRunData) && fresh(instructions) && fresh(addresses)
            && addRunData.Valid() && addRunData.position == 0 && (addRunData.buf == patch.buf || fresh(addRunData.buf))
            && instructions.Length < 0x8000_0000 && addresses.Length < 0x8000_0000
            && s.value.0 == (addRunData.Abs().bytes, instructions[..], addresses[..]) && patch.Abs() == s.value.1)
  {
    var addRunData :- MainIO.GetStreamView(patch, lengths.0, memorySaving);
    var instructions :- MainIO.ReadBytes(patch, lengths.1);
    var addresses :- MainIO.ReadBytes(patch, lengths.2);
    r := Ok((addRunData, instructions, addresses));
  }
}
