/** The legacy revision's `VcdiffDecoder` over `ByteArrayStream`s, proved against
    `Decoding` with the legacy configuration. Its window keeps the data section as a
    byte array read through a running index (`addRunDataIndex`) and copies the source
    segment out into an array; its streams never refuse a write. */
module LegacyDecoder {
  import opened JavaInt
  import opened Errors
  import opened Stores
  import opened Instructions
  import CodeTables
  import opened AddressModes
  import opened AddressCaches
  import opened ByteArrayStreams
  import LegacyIO
  import Interpreter
  import Decoding

  /** The locals of `decodeWindow` that the instruction loop works on: the stream over
      the target window (`targetDataStream`, whose array is `targetData`), the data
      section (`addRunData`), the instruction stream, the source segment
      (`sourceData`), the address cache, and the declared source length. */
  datatype Locals = Locals(
    target: ByteArrayStream,
    data: array<byte>,
    inst: ByteArrayStream,
    source: array?<byte>,
    cache: AddressCache,
    sourceLen: i32)

  /** The locals are valid streams and arrays the loop does not share: the target
      window is written, everything else only read. */
  ghost predicate Ready(l: Locals)
    reads l.target, l.inst, l.cache, l.cache.addressStream
  {
    && l.target.Valid() && l.inst.Valid() && l.cache.Valid() && l.cache.addressStream != null
    && !l.target.readOnly && l.inst.readOnly
    && l.target != l.inst && l.target != l.cache.addressStream && l.inst != l.cache.addressStream
    && l.target.data != l.data && l.target.data != l.inst.data && l.target.data != l.cache.addressStream.data
    && l.data.Length < 0x8000_0000
    && (l.source != null ==> l.source != l.target.data && l.source.Length < 0x8000_0000)
  }

  /** The window the locals hold, with the data section read up to `index`. */
  ghost function WindowOf(l: Locals, index: int): (w: Interpreter.Window)
    requires Ready(l) && 0 <= index <= l.data.Length
    reads l.target, l.target.data, l.data, l.inst, l.inst.data, l.source
    reads l.cache, l.cache.near, l.cache.same, l.cache.addressStream, l.cache.addressStream.data
    ensures w.Valid()
  {
    Interpreter.Window(
      l.target.Abs(), Store(l.data[..], index, true), l.inst.Abs(), l.cache.addressStream.Abs(), l.cache.Abs(),
      if l.source == null then None else Some(l.source[..]), l.sourceLen)
  }

  /** The instruction loop of `decodeWindow`: each index read from the instruction
      stream runs both instructions of its code-table entry, until the stream is
      used up. `index` is `addRunDataIndex`, from 0. */
  method ExecuteInstructions(l: Locals, table: CodeTables.CodeTable) returns (o: Outcome, index: int)
    requires Ready(l) && table.Valid()
    modifies l.target, l.target.data, l.inst, l.cache, l.cache.near, l.cache.same, l.cache.addressStream
    ensures Ready(l) && 0 <= index <= l.data.Length
    ensures var r := Interpreter.Execute(old(WindowOf(l, 0)), table.Rows());
      && (o.Pass? <==> r.Ok?) && (o.Pass? ==> WindowOf(l, index) == r.value) && (o.Fail? ==> o.error == r.error)
  {
    ghost var goal := Interpreter.Execute(WindowOf(l, 0), table.Rows());
    index := 0;
    var done := false;
    o := Pass;
    while !done
      invariant Ready(l) && l.cache.addressStream == old(l.cache.addressStream) && 0 <= index <= l.data.Length
      invariant o.Pass? && !done ==> Interpreter.Execute(WindowOf(l, index), table.Rows()) == goal
      invariant o.Pass? && done ==> goal == Ok(WindowOf(l, index))
      invariant o.Fail? ==> done && goal == Err(o.error)
      decreases !done, Remaining(l)
    {
      o, done, index := Step(l, table, index);
    }
  }

  /** The bytes of the instruction section still to read. */
  ghost function Remaining(l: Locals): nat
    requires Ready(l)
    reads l.target, l.inst, l.cache, l.cache.addressStream
  {
    l.inst.data.Length - l.inst.pos
  }

  /** One turn of the instruction loop: a failure, the end of the instruction
      stream, or both instructions of the entry the next index selects. */
  method Step(l: Locals, table: CodeTables.CodeTable, index: int) returns (o: Outcome, done: bool, index': int)
    requires Ready(l) && table.Valid() && 0 <= index <= l.data.Length
    modifies l.target, l.target.data, l.inst, l.cache, l.cache.near, l.cache.same, l.cache.addressStream
    ensures Ready(l) && l.cache.addressStream == old(l.cache.addressStream) && 0 <= index' <= l.data.Length
    ensures var goal := Interpreter.Execute(old(WindowOf(l, index)), table.Rows());
      && (o.Fail? ==> done && goal == Err(o.error))
      && (o.Pass? && done ==> goal == Ok(WindowOf(l, index')))
      && (o.Pass? && !done ==> goal == Interpreter.Execute(WindowOf(l, index'), table.Rows()) && Remaining(l) < old(Remaining(l)))
  {
    ghost var w := WindowOf(l, index);
    var instructionIndex := NextIndex(l, index);
    if instructionIndex == -1 {
      return Pass, true, index;
    }
    Interpreter.ExecuteUnfold(w, table.Rows());
    o, index' := Entry(l, table, instructionIndex, index);
    done := o.Fail?;
  }

  /** Both instructions of the code-table entry `entry`, in order. */
  method Entry(l: Locals, table: CodeTables.CodeTable, entry: int, index: int) returns (o: Outcome, index': int)
    requires Ready(l) && table.Valid() && 0 <= entry < 256 && 0 <= index <= l.data.Length
    modifies l.target, l.target.data, l.inst, l.cache, l.cache.near, l.cache.same, l.cache.addressStream
    ensures Ready(l) && l.cache.addressStream == old(l.cache.addressStream) && 0 <= index' <= l.data.Length
    ensures var row := table.Rows()[entry]; var r1 := Interpreter.Half(old(WindowOf(l, index)), row.first);
      var r2 := if r1.Ok? then Interpreter.Half(r1.value, row.second) else r1;
      && (o.Pass? <==> r2.Ok?) && (o.Pass? ==> WindowOf(l, index') == r2.value) && (o.Fail? ==> o.error == r2.error)
  {
    var first := table.Get(entry, 0);
    o, index' := ExecuteHalf(l, first, index);
    if o.Fail? {
      return;
    }
    var second := table.Get(entry, 1);
    o, index' := ExecuteHalf(l, second, index');
  }

  /** `instructionStream.read()`: the next entry, or -1 when the section is used up. */
  method NextIndex(l: Locals, ghost index: int) returns (entry: int)
    requires Ready(l) && 0 <= index <= l.data.Length
    modifies l.inst
    ensures Ready(l)
    ensures var w := old(WindowOf(l, index));
      && (entry == -1 <==> w.inst.pos == |w.inst.bytes|) && (entry == -1 ==> WindowOf(l, index) == w)
      && (entry != -1 ==> entry == w.inst.bytes[w.inst.pos] && WindowOf(l, index) == w.(inst := w.inst.(pos := w.inst.pos + 1)))
  {
    entry := l.inst.ReadOne();
  }

  /** One instruction of an entry: its size, read from the instruction stream when
      the table gives 0 to anything but NOOP, then its action. */
  method ExecuteHalf(l: Locals, ins: Instruction, index: int) returns (o: Outcome, index': int)
    requires Ready(l) && 0 <= index <= l.data.Length
    modifies l.target, l.target.data, l.inst, l.cache, l.cache.near, l.cache.same, l.cache.addressStream
    ensures Ready(l) && l.cache.addressStream == old(l.cache.addressStream) && 0 <= index' <= l.data.Length
    ensures var r := Interpreter.Half(old(WindowOf(l, index)), ins);
      && (o.Pass? <==> r.Ok?) && (o.Pass? ==> WindowOf(l, index') == r.value) && (o.Fail? ==> o.error == r.error)
  {
    index' := index;
    var rs := ReadSize(l, ins, index);
    if rs.Err? {
      return Fail(rs.error), index;
    }
    var size := rs.value;
    match ins.ist
    case NoOp => o := Pass;
    case Add => o, index' := Add(l, index, size);
    case Run => o, index' := Run(l, index, size);
    case Copy => o := CopyHalf(l, index, size, ins.mode);
  }

  /** The size of an instruction, on the locals. */
  method ReadSize(l: Locals, ins: Instruction, ghost index: int) returns (r: Result<i32>)
    requires Ready(l) && 0 <= index <= l.data.Length
    modifies l.inst
    ensures Ready(l)
    ensures var w := old(WindowOf(l, index)); var s := Interpreter.SizeOf(w.inst, ins);
      && (r.Ok? <==> s.Ok?) && (r.Err? ==> r.error == s.error)
      && (r.Ok? ==> r.value == s.value.0 && WindowOf(l, index) == w.(inst := s.value.1))
  {
    r := Ok(ins.size as i32);
    if ins.size == 0 && ins.ist != NoOp {
      r := LegacyIO.Read7bitIntBE(l.inst);
    }
  }

  /** ADD: `targetDataStream.write(addRunData, addRunDataIndex, size)`, then the index
      moves past the bytes. */
  method Add(l: Locals, index: int, size: i32) returns (o: Outcome, index': int)
    requires Ready(l) && 0 <= index <= l.data.Length
    modifies l.target, l.target.data
    ensures Ready(l) && 0 <= index' <= l.data.Length
    ensures var r := Interpreter.ExecAdd(old(WindowOf(l, index)), size);
      && (o.Pass? <==> r.Ok?) && (o.Pass? ==> WindowOf(l, index') == r.value) && (o.Fail? ==> o.error == r.error)
  {
    o := AddBytes(l.target, l.data, index, size);
    index' := if o.Pass? then index + size else index;
  }

  /** ADD on the target stream and the data section. */
  method AddBytes(target: ByteArrayStream, data: array<byte>, index: int, size: i32) returns (o: Outcome)
    requires target.Valid() && target.data != data && data.Length < 0x8000_0000 && 0 <= index <= data.Length
    modifies target, target.data
    ensures target.Valid()
    ensures var r := Interpreter.AddBytes(Store(data[..], index, true), old(target.Abs()), size);
      && (o.Pass? <==> r.Ok?) && (o.Fail? ==> o.error == r.error)
      && (o.Pass? ==> r.value == (Store(data[..], index + size, true), target.Abs()))
  {
    o := target.Write(data, index, size);
  }

  /** RUN: `addRunData[addRunDataIndex++]` (an ArrayIndexOutOfBoundsException past the
      section), written `size` times. */
  method Run(l: Locals, index: int, size: i32) returns (o: Outcome, index': int)
    requires Ready(l) && 0 <= index <= l.data.Length
    modifies l.target, l.target.data
    ensures Ready(l) && 0 <= index' <= l.data.Length
    ensures var r := Interpreter.ExecRun(old(WindowOf(l, index)), size);
      && (o.Pass? <==> r.Ok?) && (o.Pass? ==> WindowOf(l, index') == r.value) && (o.Fail? ==> o.error == r.error)
  {
    index' := index;
    if index >= l.data.Length {
      return Fail(Bounds), index;
    }
    var b := l.data[index];
    index' := index + 1;
    o := WriteRun(l.target, b, size);
  }

  /** The write loop of RUN: `targetDataStream.write(data)`, `size` times. */
  method WriteRun(target: ByteArrayStream, b: byte, size: i32) returns (o: Outcome)
    requires target.Valid()
    modifies target, target.data
    ensures target.Valid()
    ensures var r := Write(old(target.Abs()), Interpreter.Repeat(b, size), false);
      && (o.Pass? <==> r.Ok?) && (o.Pass? ==> target.Abs() == r.value) && (o.Fail? ==> o.error == r.error)
  {
    ghost var t0 := target.Abs();
    assert t0.bytes[..t0.pos] + [] + t0.bytes[t0.pos..] == t0.bytes;
    var j: i32 := 0;
    while j < size
      invariant target.Valid()
      invariant 0 <= j <= (if size < 0 then 0 else size)
      invariant Write(t0, Interpreter.Repeat(b, j), false) == Ok(target.Abs())
    {
      ghost var before := target.Abs();
      o := target.WriteByte(b);
      if o.Fail? {
        assert before.pos == t0.pos + j && |before.bytes| == |t0.bytes|;
        return;
      }
      WriteConcat(t0, Interpreter.Repeat(b, j), [b], false);
      assert Interpreter.Repeat(b, j) + [b] == Interpreter.Repeat(b, j + 1);
      j := j + 1;
    }
    assert Interpreter.Repeat(b, size) == Interpreter.Repeat(b, j);
    o := Pass;
  }

  /** COPY: the address is decoded against the write position counted from the start
      of the source segment; an address inside the segment copies from it, any other
      has the declared source length taken off and copies from the target window. */
  method CopyHalf(l: Locals, ghost index: int, size: i32, mode: int8) returns (o: Outcome)
    requires Ready(l) && 0 <= index <= l.data.Length
    modifies l.target, l.target.data, l.cache, l.cache.near, l.cache.same, l.cache.addressStream
    ensures Ready(l) && l.cache.addressStream == old(l.cache.addressStream)
    ensures var r := Interpreter.ExecCopy(old(WindowOf(l, index)), size, mode);
      && (o.Pass? <==> r.Ok?) && (o.Pass? ==> WindowOf(l, index) == r.value) && (o.Fail? ==> o.error == r.error)
  {
    var here := Wrap32(l.target.pos + l.sourceLen);
    var ra := DecodeAddress(l, index, here, mode);
    if ra.Err? {
      return Fail(ra.error);
    }
    o := CopyTo(l, index, ra.value, size);
  }

  /** `cache.decodeAddress(here, mode)`, on the locals. */
  method DecodeAddress(l: Locals, ghost index: int, here: i32, mode: int8) returns (r: Result<i32>)
    requires Ready(l) && 0 <= index <= l.data.Length
    modifies l.cache, l.cache.near, l.cache.same, l.cache.addressStream
    ensures Ready(l) && l.cache.addressStream == old(l.cache.addressStream)
    ensures var w := old(WindowOf(l, index)); var d := AddressModes.DecodeAddress(w.cache, w.addrs, here, mode);
      && (r.Ok? <==> d.Ok?) && (r.Err? ==> r.error == d.error)
      && (r.Ok? ==> r.value == d.value.0 && WindowOf(l, index) == w.(cache := d.value.1, addrs := d.value.2))
  {
    r := l.cache.DecodeAddress(here, mode);
  }

  /** The copy from the decoded address, on the locals. */
  method CopyTo(l: Locals, ghost index: int, addr: i32, size: i32) returns (o: Outcome)
    requires Ready(l) && 0 <= index <= l.data.Length
    modifies l.target, l.target.data
    ensures Ready(l)
    ensures var w := old(WindowOf(l, index)); var r := Interpreter.CopyAt(w.target, w.source, w.sourceLen, addr, size);
      && (o.Pass? <==> r.Ok?) && (o.Pass? ==> WindowOf(l, index) == w.(target := r.value)) && (o.Fail? ==> o.error == r.error)
  {
    o := CopyAt(l.target, l.source, l.sourceLen, addr, size);
  }

  /** The copy itself, once the address is decoded:
      `targetDataStream.write(sourceData, addr, size)` for an address inside the
      source segment, the copy within the target window otherwise. */
  method CopyAt(target: ByteArrayStream, source: array?<byte>, sourceLen: i32, addr: i32, size: i32)
    returns (o: Outcome)
    requires target.Valid() && !target.readOnly && (source != null ==> source != target.data && source.Length < 0x8000_0000)
    modifies target, target.data
    ensures target.Valid()
    ensures var r := Interpreter.CopyAt(old(target.Abs()), if source == null then None else Some(old(source[..])), sourceLen, addr, size);
      && (o.Pass? <==> r.Ok?) && (o.Pass? ==> target.Abs() == r.value) && (o.Fail? ==> o.error == r.error)
  {
    if source != null && addr < source.Length {
      o := target.Write(source, addr, size);
    } else {
      o := CopyInTarget(target, Wrap32(addr - sourceLen), size);
    }
  }

  /** COPY within the target window from index `a`: `targetDataStream.write(targetData,
      a, size)` when the Java sum `a + size` is before the write position, the byte
      loop otherwise. */
  method CopyInTarget(target: ByteArrayStream, a: i32, size: i32) returns (o: Outcome)
    requires target.Valid() && !target.readOnly
    modifies target, target.data
    ensures target.Valid()
    ensures var r := Interpreter.CopyTarget(old(target.Abs()), a, size);
      && (o.Pass? <==> r.Ok?) && (o.Pass? ==> target.Abs() == r.value) && (o.Fail? ==> o.error == r.error)
  {
    if Wrap32(a + size) < target.pos {
      o := target.Write(target.data, a, size);
    } else {
      o := CopyWithin(target, a, size);
    }
  }

  /** The byte loop of COPY within the target window: `targetData[addr++]` written
      `size` times, each read after the previous write. */
  method CopyWithin(target: ByteArrayStream, a: i32, size: i32) returns (o: Outcome)
    requires target.Valid() && !target.readOnly
    modifies target, target.data
    ensures target.Valid()
    ensures var r := Interpreter.CopyBytes(old(target.Abs()), a, size);
      && (o.Pass? <==> r.Ok?) && (o.Pass? ==> target.Abs() == r.value) && (o.Fail? ==> o.error == r.error)
  {
    ghost var goal := Interpreter.CopyBytes(target.Abs(), a, size);
    var addr: int := a;
    var n: int := size;
    while 0 < n
      invariant target.Valid()
      invariant Interpreter.CopyBytes(target.Abs(), addr, n) == goal
    {
      o := CopyByte(target, addr, n);
      if o.Fail? {
        return;
      }
      addr, n := addr + 1, n - 1;
    }
    o := Pass;
  }

  /** One turn of that loop: `targetDataStream.write(targetData[addr])`, an
      ArrayIndexOutOfBoundsException outside the array. */
  method CopyByte(target: ByteArrayStream, addr: int, n: int) returns (o: Outcome)
    requires target.Valid() && !target.readOnly && 0 < n
    modifies target, target.data
    ensures target.Valid()
    ensures var r := Interpreter.CopyBytes(old(target.Abs()), addr, n);
      && (o.Fail? ==> r.Err? && o.error == r.error)
      && (o.Pass? ==> r == Interpreter.CopyBytes(target.Abs(), addr + 1, n - 1))
  {
    if addr < 0 || addr >= target.data.Length {
      return Fail(Bounds);  // ArrayIndexOutOfBoundsException
    }
    ghost var before := target.Abs();
    var x := target.data[addr];
    assert x == before.bytes[addr];
    o := target.WriteByte(x);
    if o.Pass? {
      Interpreter.CopyBytesTurn(before, addr, n, target.Abs());
    }
  }

  /** The three streams of a decoder are valid, and writing the target never touches
      the patch or the dictionary. */
  ghost predicate Apart(origin: ByteArrayStream?, patch: ByteArrayStream, target: ByteArrayStream)
    reads origin, patch, target
  {
    && patch.Valid() && target.Valid() && patch != target && patch.data != target.data
    && (origin != null ==> origin.Valid() && origin != patch && origin != target && origin.data != target.data)
  }

  /** The dictionary as the value-level decoder sees it. */
  ghost function OriginOf(origin: ByteArrayStream?): Option<Store>
    requires origin != null ==> origin.Valid()
    reads origin, if origin != null then {origin.data} else {}
  {
    if origin == null then None else Some(origin.Abs())
  }

  /** The three streams as the value-level decoder sees them. */
  ghost function StreamsOf(origin: ByteArrayStream?, patch: ByteArrayStream, target: ByteArrayStream): (io: Decoding.Streams)
    requires Apart(origin, patch, target)
    reads origin, patch, target, patch.data, target.data, if origin != null then {origin.data} else {}
    ensures io.Valid()
  {
    Decoding.Streams(OriginOf(origin), patch.Abs(), target.Abs())
  }

  /** What `decodeWindow` holds once the window header is read: the checksum flag, the
      source segment (`sourceData`) with its declared length, the zeroed `targetData`,
      and the data (`addRunData`), instruction and address sections. */
  datatype Header = Header(
    checksum: bool,
    source: array?<byte>,
    sourceLen: i32,
    targetData: array<byte>,
    data: array<byte>,
    instructions: array<byte>,
    addresses: array<byte>)

  /** The window header the value-level decoder reads. */
  ghost function HeaderOf(h: Header): Decoding.WindowHeader
    reads h.source, h.targetData, h.data, h.instructions, h.addresses
  {
    Decoding.WindowHeader(h.checksum, if h.source == null then None else Some(h.source[..]), h.sourceLen,
                          h.targetData.Length, h.data[..], h.instructions[..], h.addresses[..])
  }

  /** The arrays of a window header fit a Java array, the target window is zeroed,
      and it is none of the arrays the loop reads nor the target stream's. */
  ghost predicate HeaderFresh(h: Header, target: ByteArrayStream)
    reads target, h.targetData
  {
    && h.targetData.Length < 0x8000_0000 && h.data.Length < 0x8000_0000
    && h.instructions.Length < 0x8000_0000 && h.addresses.Length < 0x8000_0000
    && h.targetData != target.data && h.targetData != h.data
    && h.targetData != h.instructions && h.targetData != h.addresses
    && h.targetData[..] == seq(h.targetData.Length, _ => 0)
    && (h.source != null ==> h.source != h.targetData && h.source.Length < 0x8000_0000)
  }

  /** `VcdiffDecoder`: the three streams, the code table and the address cache. */
  class VcdiffDecoder {
    const originStream: ByteArrayStream?
    const patchStream: ByteArrayStream
    const targetStream: ByteArrayStream
    var codeTable: CodeTables.CodeTable
    var cache: AddressCache

    ghost predicate Valid()
      reads this`cache, this`codeTable, cache, cache.addressStream, codeTable, originStream, patchStream, targetStream
    {
      && Apart(originStream, patchStream, targetStream) && codeTable.Valid() && cache.Valid()
    }

    /** The decoder as the value-level decoder sees it. */
    ghost function Abs(): (d: Decoding.Decoder)
      requires Valid()
      reads this`cache, this`codeTable, cache, cache.addressStream, originStream, patchStream, targetStream
      reads codeTable, codeTable.entries, cache.near, cache.same
      reads patchStream.data, targetStream.data, if originStream != null then {originStream.data} else {}
      ensures d.Valid()
    {
      var io := StreamsOf(originStream, patchStream, targetStream);
      Decoding.Decoder(io.origin, io.patch, io.target, codeTable.Rows(), cache.Abs())
    }

    /** `new VcdiffDecoder(originStream, patchStream, targetStream)`, with the default
        code table and a cache of 4 near and 3 same slots. */
    constructor (origin: ByteArrayStream?, patch: ByteArrayStream, target: ByteArrayStream)
      requires Apart(origin, patch, target)
      ensures Valid() && fresh(cache) && fresh(cache.near) && fresh(cache.same)
      ensures originStream == origin && patchStream == patch && targetStream == target
      ensures Abs() == Decoding.Initial(OriginOf(origin), patch.Abs(), target.Abs())
    {
      var table := CodeTables.CodeTable.BuildDefault();
      var c := new AddressCache(4, 3);
      originStream, patchStream, targetStream := origin, patch, target;
      codeTable, cache := table, c;
    }

    /** `decode(originStream, patchStream, targetStream)`: a new decoder over the
        streams, run to the end of the patch. */
    static method Decode(origin: ByteArrayStream?, patch: ByteArrayStream, target: ByteArrayStream) returns (o: Outcome)
      requires Apart(origin, patch, target)
      modifies origin, patch, target, target.data
      ensures Apart(origin, patch, target)
      ensures var r := Decoding.Decode(old(OriginOf(origin)), old(patch.Abs()), old(target.Abs()), Decoding.LegacyConfig);
        && (o.Pass? <==> r.Ok?) && (o.Fail? ==> o.error == r.error)
        && (o.Pass? ==> OriginOf(origin) == r.value.origin && patch.Abs() == r.value.patch && target.Abs() == r.value.target)
      decreases patch.data.Length, 5
    {
      var decoder := new VcdiffDecoder(origin, patch, target);
      o := decoder.Run();
      assert decoder.Abs().origin == OriginOf(origin) && decoder.Abs().patch == patch.Abs() && decoder.Abs().target == target.Abs();
    }

    /** The private `decode()`: the header, then window after window. */
    method Run() returns (o: Outcome)
      requires Valid()
      modifies this, cache, cache.near, cache.same, originStream, patchStream, targetStream, targetStream.data
      ensures Valid()
      ensures var r := Decoding.Run(old(Abs()), Decoding.LegacyConfig);
        && (o.Pass? <==> r.Ok?) && (o.Pass? ==> Abs() == r.value) && (o.Fail? ==> o.error == r.error)
      decreases patchStream.data.Length, 4
    {
      o := ReadHeader();
      if o.Fail? {
        return;
      }
      o := Windows();
    }

    /** `while (decodeWindow());`. */
    method Windows() returns (o: Outcome)
      requires Valid()
      modifies cache, cache.near, cache.same, originStream, patchStream, targetStream, targetStream.data
      ensures Valid()
      ensures var r := Decoding.Windows(old(Abs()), Decoding.LegacyConfig);
        && (o.Pass? <==> r.Ok?) && (o.Pass? ==> Abs() == r.value) && (o.Fail? ==> o.error == r.error)
    {
      ghost var goal := Decoding.Windows(Abs(), Decoding.LegacyConfig);
      var more := true;
      o := Pass;
      while more
        invariant Valid()
        invariant o.Pass? && more ==> Decoding.Windows(Abs(), Decoding.LegacyConfig) == goal
        invariant o.Pass? && !more ==> goal == Ok(Abs())
        invariant o.Fail? ==> !more && goal == Err(o.error)
        decreases more, |Abs().patch.bytes| - Abs().patch.pos
      {
        o, more := DecodeWindow();
      }
    }

    /** `readHeader`: the magic bytes, the version and the header indicator, then the
        custom code table and the application header if the indicator has them. */
    method ReadHeader() returns (o: Outcome)
      requires Valid()
      modifies this, patchStream
      ensures Valid() && (cache == old(cache) || (fresh(cache) && fresh(cache.near) && fresh(cache.same)))
      ensures var r := Decoding.ReadHeader(old(Abs()), Decoding.LegacyConfig);
        && (o.Pass? <==> r.Ok?) && (o.Pass? ==> Abs() == r.value) && (o.Fail? ==> o.error == r.error)
      decreases patchStream.data.Length, 3
    {
      var ri := ReadIndicator(patchStream);
      if ri.Err? {
        return Fail(ri.error);
      }
      o := HeaderTail(ri.value);
    }

    /** The rest of `readHeader`, once the indicator is read. */
    method HeaderTail(headerIndicator: byte) returns (o: Outcome)
      requires Valid()
      modifies this, patchStream
      ensures Valid() && (cache == old(cache) || (fresh(cache) && fresh(cache.near) && fresh(cache.same)))
      ensures var r := Decoding.HeaderTail(old(Abs()), headerIndicator, Decoding.LegacyConfig);
        && (o.Pass? <==> r.Ok?) && (o.Pass? ==> Abs() == r.value) && (o.Fail? ==> o.error == r.error)
      decreases patchStream.data.Length, 2
    {
      o := Pass;
      if headerIndicator / 2 % 2 == 1 {
        o := ReadCodeTable();
        if o.Fail? {
          return;
        }
      }
      if headerIndicator / 4 % 2 == 1 {
        o := SkipAppHeader();
      }
    }

    /** The application header, skipped on the patch stream. */
    method SkipAppHeader() returns (o: Outcome)
      requires Valid()
      modifies patchStream
      ensures Valid()
      ensures var r := Decoding.SkipApplicationHeader(old(Abs()).patch);
        && (o.Pass? <==> r.Ok?) && (o.Pass? ==> Abs() == old(Abs()).(patch := r.value)) && (o.Fail? ==> o.error == r.error)
    {
      o := SkipApplicationHeader(patchStream);
    }

    /** `readCodeTable`: the custom code table replaces the code table, and the cache
        is made anew with the sizes the patch gives. */
    method ReadCodeTable() returns (o: Outcome)
      requires Valid()
      modifies this, patchStream
      ensures Valid() && (cache == old(cache) || (fresh(cache) && fresh(cache.near) && fresh(cache.same)))
      ensures var r := Decoding.ReadCodeTable(old(Abs()), Decoding.LegacyConfig);
        && (o.Pass? <==> r.Ok?) && (o.Pass? ==> Abs() == r.value) && (o.Fail? ==> o.error == r.error)
      decreases patchStream.data.Length, 1
    {
      var rt := ReadCustomTable(patchStream);
      if rt.Err? {
        return Fail(rt.error);
      }
      var (table, nearSize, sameSize) := rt.value;
      codeTable := table;
      cache := new AddressCache(nearSize, sameSize);
      o := Pass;
    }

    /** The middle of `readCodeTable`: the compressed table decoded against the default
        table's bytes into a zeroed 1536-byte array, whose stream must end at 1536. */
    static method DecompressTable(compressedTableData: array<byte>) returns (r: Result<array<byte>>)
      requires compressedTableData.Length < 0x8000_0000
      ensures var s := Decoding.DecompressTable(compressedTableData[..], Decoding.LegacyConfig);
        && (r.Ok? <==> s.Ok?) && (r.Err? ==> r.error == s.error)
        && (r.Ok? ==> fresh(r.value) && r.value[..] == s.value)
      decreases compressedTableData.Length, 6
    {
      var defaultTable := CodeTables.CodeTable.BuildDefault();
      var defaultTableData := defaultTable.GetBytes();
      var tableOriginal := new ByteArrayStream(defaultTableData, true);
      var tableDelta := new ByteArrayStream(compressedTableData, true);
      var decompressedTableData := new byte[1536](_ => 0);
      var tableOutput := new ByteArrayStream(decompressedTableData, false);
      assert OriginOf(tableOriginal) == Some(Decoding.TableOrigin());
      assert tableOutput.Abs() == Decoding.TableTarget();
      var o := Decode(tableOriginal, tableDelta, tableOutput);
      if o.Fail? {
        return Err(o.error);
      }
      if tableOutput.pos != 1536 {
        return Err(BadTableSize);
      }
      r := Ok(decompressedTableData);
    }

    /** `decodeWindow`: false at the end of the patch; otherwise one window. */
    method DecodeWindow() returns (o: Outcome, more: bool)
      requires Valid()
      modifies cache, cache.near, cache.same, originStream, patchStream, targetStream, targetStream.data
      ensures Valid()
      ensures var r := Decoding.DecodeWindow(old(Abs()), Decoding.LegacyConfig);
        && (o.Fail? <==> r.Err?) && (o.Fail? ==> !more && o.error == r.error)
        && (o.Pass? ==> (more <==> r.value.Some?) && (more ==> Abs() == r.value.value) && (!more ==> Abs() == old(Abs())))
    {
      ghost var d := Abs();
      var windowIndicator := NextIndicator();
      if windowIndicator == -1 {
        return Pass, false;
      }
      ghost var d1 := Abs();
      assert d1 == d.(patch := d.patch.(pos := d.patch.pos + 1));
      o := NextWindow(windowIndicator);
      assert Decoding.DecodeWindow(d, Decoding.LegacyConfig) == (
        var r := Decoding.NextWindow(d1, windowIndicator, Decoding.LegacyConfig); if r.Ok? then Ok(Some(r.value)) else Err(r.error));
      more := o.Pass?;
    }

    /** `patchStream.read()`: the window indicator, or -1 at the end of the patch. */
    method NextIndicator() returns (wi: int)
      requires Valid()
      modifies patchStream
      ensures Valid()
      ensures var d := old(Abs());
        && (wi == -1 <==> d.patch.pos == |d.patch.bytes|) && (wi == -1 ==> Abs() == d)
        && (wi != -1 ==> wi == d.patch.bytes[d.patch.pos] && Abs() == d.(patch := d.patch.(pos := d.patch.pos + 1)))
    {
      wi := patchStream.ReadOne();
    }

    /** A window after its indicator. */
    method NextWindow(windowIndicator: byte) returns (o: Outcome)
      requires Valid()
      modifies cache, cache.near, cache.same, originStream, patchStream, targetStream, targetStream.data
      ensures Valid()
      ensures var r := Decoding.NextWindow(old(Abs()), windowIndicator, Decoding.LegacyConfig);
        && (o.Pass? <==> r.Ok?) && (o.Pass? ==> Abs() == r.value) && (o.Fail? ==> o.error == r.error)
    {
      o := DecodeWindowBody(originStream, patchStream, targetStream, codeTable, cache, windowIndicator);
    }
  }

  /** A window after its indicator: the header, the instruction loop, and the target
      window written to the target stream. */
  method DecodeWindowBody(origin: ByteArrayStream?, patch: ByteArrayStream, target: ByteArrayStream,
                          table: CodeTables.CodeTable, cache: AddressCache, windowIndicator: byte)
    returns (o: Outcome)
    requires Apart(origin, patch, target) && table.Valid() && cache.Valid()
    modifies cache, cache.near, cache.same, origin, patch, target, target.data
    ensures Apart(origin, patch, target) && cache.Valid()
    ensures var r := Decoding.WindowBody(old(StreamsOf(origin, patch, target)), windowIndicator, table.Rows(), old(cache.Abs()), Decoding.LegacyConfig);
      && (o.Pass? <==> r.Ok?) && (o.Fail? ==> o.error == r.error)
      && (o.Pass? ==> StreamsOf(origin, patch, target) == r.value.0 && cache.Abs() == r.value.1)
  {
    ghost var io0 := StreamsOf(origin, patch, target);
    ghost var c0 := cache.Abs();
    var rh := ReadWindowHeader(origin, patch, target, windowIndicator);
    ghost var s := Decoding.ReadWindowHeader(io0, windowIndicator);
    if rh.Err? {
      return Fail(rh.error);
    }
    o := FinishWindow(rh.value, target, table, cache, s.value.0, s.value.1.target, c0);
  }

  /** The window header after the indicator: the source segment the indicator asks
      for, then the sections, with the checksum bytes when the indicator has bit 2. */
  method ReadWindowHeader(origin: ByteArrayStream?, patch: ByteArrayStream, target: ByteArrayStream,
                          windowIndicator: byte) returns (r: Result<Header>)
    requires Apart(origin, patch, target)
    modifies origin, patch, target
    ensures Apart(origin, patch, target)
    ensures var s := Decoding.ReadWindowHeader(old(StreamsOf(origin, patch, target)), windowIndicator);
      && (r.Ok? <==> s.Ok?) && (r.Err? ==> r.error == s.error)
      && (r.Ok? ==> HeaderFresh(r.value, target) && fresh(r.value.targetData))
      && (r.Ok? ==> HeaderOf(r.value) == s.value.0 && StreamsOf(origin, patch, target) == s.value.1)
  {
    var hasAdler32Checksum := windowIndicator / 4 % 2 == 1;
    var mode := if hasAdler32Checksum then windowIndicator - 4 else windowIndicator;  // `windowIndicator &= 0xfb`
    if mode > 2 {
      return Err(BadWindowIndicator);
    }
    if mode == 1 && origin == null {
      return Err(SourceRequired);
    }
    ghost var io0 := StreamsOf(origin, patch, target);
    var source :- ReadSource(origin, patch, target, mode);
    ghost var io1 := Decoding.ReadSource(io0, mode).value.2;
    assert StreamsOf(origin, patch, target) == io1;
    var sections :- ReadSections(patch, hasAdler32Checksum);
    ghost var p2 := Decoding.ReadSections(io1.patch, hasAdler32Checksum).value.1;
    assert StreamsOf(origin, patch, target) == io1.(patch := p2);
    r := Ok(Header(hasAdler32Checksum, source.0, source.1, sections.0, sections.1, sections.2, sections.3));
  }

  /** The source segment of a window of mode 1 (the dictionary) or 2 (the target so
      far): its declared length and position, then as many bytes as the stream holds
      from there, up to the declared length, copied out; the target's position is put
      back. */
  method ReadSource(origin: ByteArrayStream?, patch: ByteArrayStream, target: ByteArrayStream, mode: byte)
    returns (r: Result<(array?<byte>, i32)>)
    requires Apart(origin, patch, target) && mode <= 2 && (mode == 1 ==> origin != null)
    modifies origin, patch, target
    ensures Apart(origin, patch, target)
    ensures var s := Decoding.ReadSource(old(StreamsOf(origin, patch, target)), mode);
      && (r.Ok? <==> s.Ok?) && (r.Err? ==> r.error == s.error)
      && (r.Ok? ==> var (sourceData, sourceLen) := r.value;
            && (sourceData != null ==> fresh(sourceData) && sourceData.Length < 0x8000_0000)
            && (if sourceData == null then None else Some(sourceData[..])) == s.value.0
            && sourceLen == s.value.1 && StreamsOf(origin, patch, target) == s.value.2)
  {
    if mode == 0 {
      return Ok((null, 0));
    }
    var sourceStream: ByteArrayStream := if mode == 1 then origin else target;
    var tempTargetStreamPos: int := -1;
    if mode == 2 {
      tempTargetStreamPos := target.pos;
    }
    var window :- ReadSourceWindow(patch);
    var (sourceLen, sourcePos) := window;
    var sourceData :- SourceData(sourceStream, sourceLen, sourcePos);
    if tempTargetStreamPos != -1 {
      var _ := target.Seek(tempTargetStreamPos);
    }
    r := Ok((sourceData, sourceLen));
  }

  /** The declared length and the position of the source segment. */
  method ReadSourceWindow(patch: ByteArrayStream) returns (r: Result<(i32, i32)>)
    requires patch.Valid()
    modifies patch
    ensures patch.Valid()
    ensures var s := Decoding.SourceWindow(old(patch.Abs()));
      && (r.Ok? <==> s.Ok?) && (r.Err? ==> r.error == s.error)
      && (r.Ok? ==> s.value == (r.value.0, r.value.1, patch.Abs()))
  {
    var sourceLen :- LegacyIO.Read7bitIntBE(patch);
    var sourcePos :- LegacyIO.Read7bitIntBE(patch);
    r := Ok((sourceLen, sourcePos));
  }

  /** The source segment (`sourceData`): a seek of the source stream to the segment,
      then as many bytes as the stream holds from there, up to the declared length. */
  method SourceData(source: ByteArrayStream, sourceLen: i32, sourcePos: i32) returns (r: Result<array<byte>>)
    requires source.Valid()
    modifies source
    ensures source.Valid()
    ensures var s := Decoding.SourceSegment(old(source.Abs()), sourceLen, sourcePos);
      && (r.Ok? <==> s.Ok?) && (r.Err? ==> r.error == s.error)
      && (r.Ok? ==> fresh(r.value) && r.value[..] == s.value.0 && source.Abs() == s.value.1)
  {
    var sought := source.Seek(sourcePos);
    if sought.Fail? {
      return Err(sought.error);
    }
    var size := sourceLen;
    if Wrap32(sourceLen as int + sourcePos) > source.Length() {
      size := source.Length() - sourcePos;
    }
    var data := LegacyIO.ReadBytes(source, size);
    r := data;
  }

  /** The rest of the window header: the target length with the zeroed target window,
      the three section lengths, the checksum bytes if any, and the three sections. */
  method ReadSections(patch: ByteArrayStream, checksum: bool)
    returns (r: Result<(array<byte>, array<byte>, array<byte>, array<byte>)>)
    requires patch.Valid()
    modifies patch
    ensures patch.Valid()
    ensures var s := Decoding.ReadSections(old(patch.Abs()), checksum);
      && (r.Ok? <==> s.Ok?) && (r.Err? ==> r.error == s.error)
      && (r.Ok? ==> var (targetData, addRunData, instructions, addresses) := r.value;
            && fresh(targetData) && fresh(addRunData) && fresh(instructions) && fresh(addresses)
            && targetData != addRunData && targetData != instructions && targetData != addresses
            && targetData.Length < 0x8000_0000 && addRunData.Length < 0x8000_0000
            && instructions.Length < 0x8000_0000 && addresses.Length < 0x8000_0000
            && targetData[..] == seq(targetData.Length, _ => 0)
            && s.value.0 == Decoding.Sections(targetData.Length, addRunData[..], instructions[..], addresses[..])
            && patch.Abs() == s.value.1)
  {
    Decoding.ReadSectionsCases(patch.Abs(), checksum);
    var targetData :- ReadTargetLength(patch);
    var lengths :- ReadSectionLengths(patch, checksum);
    var sections :- ReadSectionData(patch, lengths);
    var (addRunData, instructions, addresses) := sections;
    r := Ok((targetData, addRunData, instructions, addresses));
  }

  /** The delta length (ignored), the target length and the delta indicator, then the
      zeroed target window (`targetData`) of that length. */
  method ReadTargetLength(patch: ByteArrayStream) returns (r: Result<array<byte>>)
    requires patch.Valid()
    modifies patch
    ensures patch.Valid()
    ensures var s := Decoding.TargetLength(old(patch.Abs()));
      && (r.Ok? <==> s.Ok?) && (r.Err? ==> r.error == s.error)
      && (r.Ok? ==>
            && fresh(r.value) && r.value.Length == s.value.0 && r.value[..] == seq(r.value.Length, _ => 0)
            && patch.Abs() == s.value.1)
  {
    var _ :- LegacyIO.Read7bitIntBE(patch);  // the length of the delta encoding
    var targetLen :- LegacyIO.Read7bitIntBE(patch);
    var deltaIndicator :- LegacyIO.ReadByte(patch);
    if deltaIndicator != 0 {
      return Err(UnsupportedDeltaCompression);
    }
    if targetLen < 0 {
      return Err(Bounds);  // NegativeArraySizeException
    }
    var targetData := new byte[targetLen](_ => 0);
    r := Ok(targetData);
  }

  /** The three section lengths, then the checksum bytes if the window has them. */
  method ReadSectionLengths(patch: ByteArrayStream, checksum: bool) returns (r: Result<(i32, i32, i32)>)
    requires patch.Valid()
    modifies patch
    ensures patch.Valid()
    ensures var s := Decoding.SectionLengths(old(patch.Abs()), checksum);
      && (r.Ok? <==> s.Ok?) && (r.Err? ==> r.error == s.error)
      && (r.Ok? ==> r.value == s.value.0 && patch.Abs() == s.value.1)
  {
    var addRunDataLen :- LegacyIO.Read7bitIntBE(patch);
    var instructionsLen :- LegacyIO.Read7bitIntBE(patch);
    var addressesLen :- LegacyIO.Read7bitIntBE(patch);
    if checksum {
      var _ :- LegacyIO.ReadBytes(patch, 4);
    }
    r := Ok((addRunDataLen, instructionsLen, addressesLen));
  }

  /** The three sections, each read into an array of its own. */
  method ReadSectionData(patch: ByteArrayStream, lengths: (i32, i32, i32))
    returns (r: Result<(array<byte>, array<byte>, array<byte>)>)
    requires patch.Valid()
    modifies patch
    ensures patch.Valid()
    ensures var s := Decoding.SectionData(old(patch.Abs()), lengths);
      && (r.Ok? <==> s.Ok?) && (r.Err? ==> r.error == s.error)
      && (r.Ok? ==> var (addRunData, instructions, addresses) := r.value;
            && fresh(addRunData) && fresh(instructions) && fresh(addresses)
            && addRunData.Length < 0x8000_0000 && instructions.Length < 0x8000_0000 && addresses.Length < 0x8000_0000
            && s.value.0 == (addRunData[..], instructions[..], addresses[..]) && patch.Abs() == s.value.1)
  {
    var addRunData :- LegacyIO.ReadBytes(patch, lengths.0);
    var instructions :- LegacyIO.ReadBytes(patch, lengths.1);
    var addresses :- LegacyIO.ReadBytes(patch, lengths.2);
    r := Ok((addRunData, instructions, addresses));
  }

  /** The start of the instruction loop: a stream over the zeroed target window
      (`targetDataStream`), a read-only stream over the instruction section, and the
      cache reset to the address section. */
  method StartLoop(h: Header, target: ByteArrayStream, cache: AddressCache) returns (l: Locals)
    requires cache.Valid() && HeaderFresh(h, target)
    modifies cache, cache.near, cache.same
    ensures cache.Valid() && Ready(l) && l.cache == cache && fresh(l.cache.addressStream)
    ensures fresh(l.target) && fresh(l.inst) && l.target.data == h.targetData && l.data == h.data && l.source == h.source
    ensures WindowOf(l, 0) == Decoding.StartWindow(old(HeaderOf(h)), old(cache.Abs()))
  {
    var targetDataStream := new ByteArrayStream(h.targetData, false);
    var instructionStream := new ByteArrayStream(h.instructions, true);
    cache.Reset(h.addresses);
    l := Locals(targetDataStream, h.data, instructionStream, h.source, cache, h.sourceLen);
  }

  /** The rest of `decodeWindow` once the header is read: the instruction loop, then
      `targetStream.write(targetData, 0, targetLen)`. */
  method FinishWindow(h: Header, target: ByteArrayStream, table: CodeTables.CodeTable, cache: AddressCache,
                      ghost hv: Decoding.WindowHeader, ghost t0: Store, ghost c0: Cache)
    returns (o: Outcome)
    requires target.Valid() && table.Valid() && cache.Valid() && HeaderFresh(h, target)
    requires hv == HeaderOf(h) && t0 == target.Abs() && c0 == cache.Abs()
    modifies cache, cache.near, cache.same, h.targetData, target, target.data
    ensures target.Valid() && cache.Valid()
    ensures var r := Decoding.FinishWindow(hv, t0, table.Rows(), c0, Decoding.LegacyConfig);
      && (o.Pass? <==> r.Ok?) && (o.Fail? ==> o.error == r.error)
      && (o.Pass? ==> target.Abs() == r.value.0 && cache.Abs() == r.value.1)
  {
    o := RunWindow(h, target, table, cache, hv, c0);
    if o.Fail? {
      return;
    }
    o := WriteWindow(target, h.targetData, t0);
  }

  /** The instruction loop of one window, from the zeroed target window and the
      cache reset to the address section; the target stream is not touched. */
  method RunWindow(h: Header, target: ByteArrayStream, table: CodeTables.CodeTable, cache: AddressCache,
                   ghost hv: Decoding.WindowHeader, ghost c0: Cache)
    returns (o: Outcome)
    requires target.Valid() && table.Valid() && cache.Valid() && HeaderFresh(h, target)
    requires hv == HeaderOf(h) && c0 == cache.Abs()
    modifies cache, cache.near, cache.same, h.targetData
    ensures cache.Valid()
    ensures var r := Interpreter.Execute(Decoding.StartWindow(hv, c0), table.Rows());
      && (o.Pass? <==> r.Ok?) && (o.Fail? ==> o.error == r.error)
      && (o.Pass? ==> h.targetData[..] == r.value.target.bytes && cache.Abs() == r.value.cache)
  {
    var l := StartLoop(h, target, cache);
    var index;
    o, index := ExecuteInstructions(l, table);
  }

  /** `targetStream.write(targetData, 0, targetLen)`. */
  method WriteWindow(target: ByteArrayStream, targetData: array<byte>, ghost t0: Store) returns (o: Outcome)
    requires target.Valid() && targetData.Length < 0x8000_0000 && targetData != target.data && t0 == target.Abs()
    modifies target, target.data
    ensures target.Valid()
    ensures var s := Stores.Write(t0, targetData[..], false);
      && (o.Pass? <==> s.Ok?) && (o.Fail? ==> o.error == s.error) && (o.Pass? ==> target.Abs() == s.value)
  {
    o := target.Write(targetData, 0, targetData.Length);
  }

  /** The start of `readHeader`: the magic bytes, the version and the header
      indicator. */
  method ReadIndicator(patch: ByteArrayStream) returns (r: Result<byte>)
    requires patch.Valid()
    modifies patch
    ensures patch.Valid()
    ensures var s := Decoding.HeaderIndicator(old(patch.Abs()));
      && (r.Ok? <==> s.Ok?) && (r.Err? ==> r.error == s.error) && (r.Ok? ==> s.value == (r.value, patch.Abs()))
  {
    var magic :- LegacyIO.ReadBytes(patch, 4);
    if magic[0] != 0xD6 || magic[1] != 0xC3 || magic[2] != 0xC4 {
      return Err(NotVcdiff);
    }
    if magic[3] != 0 {
      return Err(UnsupportedVersion);
    }
    var headerIndicator :- LegacyIO.ReadByte(patch);
    if headerIndicator % 2 == 1 {
      return Err(UnsupportedSecondaryCompression);
    }
    if headerIndicator >= 8 {  // `(headerIndicator & 0xf8) != 0` on the signed byte
      return Err(BadHeaderIndicator);
    }
    r := Ok(headerIndicator);
  }

  /** The custom code table of `readCodeTable`: the compressed table is decoded by a
      decoder of its own, from the default table's bytes into 1536 bytes, which must
      all be written and must describe a table; the near and same sizes come with it. */
  method ReadCustomTable(patch: ByteArrayStream) returns (r: Result<(CodeTables.CodeTable, byte, byte)>)
    requires patch.Valid()
    modifies patch
    ensures patch.Valid()
    ensures var s := Decoding.CustomTable(old(patch.Abs()), Decoding.LegacyConfig);
      && (r.Ok? <==> s.Ok?) && (r.Err? ==> r.error == s.error)
      && (r.Ok? ==> var (table, nearSize, sameSize) := r.value;
            && table.Valid() && s.value == (table.Rows(), nearSize, sameSize, patch.Abs()))
    decreases patch.data.Length, 0
  {
    var rd := ReadTableDelta(patch);
    if rd.Err? {
      return Err(rd.error);
    }
    var (compressedTableData, nearSize, sameSize) := rd.value;
    var rt := VcdiffDecoder.DecompressTable(compressedTableData);
    if rt.Err? {
      return Err(rt.error);
    }
    var table :- CodeTables.CodeTable.FromBytes(rt.value);
    r := Ok((table, nearSize, sameSize));
  }

  /** The sizes of a custom code table and its compressed bytes: a varint less 2,
      the near and same sizes, then that many bytes. */
  method ReadTableDelta(patch: ByteArrayStream) returns (r: Result<(array<byte>, byte, byte)>)
    requires patch.Valid()
    modifies patch
    ensures patch.Valid()
    ensures var s := Decoding.TableDelta(old(patch.Abs()));
      && (r.Ok? <==> s.Ok?) && (r.Err? ==> r.error == s.error)
      && (r.Ok? ==>
            && fresh(r.value.0) && r.value.0.Length < patch.data.Length
            && s.value == (r.value.0[..], r.value.1, r.value.2, patch.Abs()))
  {
    var compressedTableLen :- LegacyIO.Read7bitIntBE(patch);
    var nearSize :- LegacyIO.ReadByte(patch);
    var sameSize :- LegacyIO.ReadByte(patch);
    var compressedTableData :- LegacyIO.ReadBytes(patch, Wrap32(compressedTableLen as int - 2));
    r := Ok((compressedTableData, nearSize, sameSize));
  }

  /** The application header: its length, then that many bytes, skipped. */
  method SkipApplicationHeader(patch: ByteArrayStream) returns (o: Outcome)
    requires patch.Valid()
    modifies patch
    ensures patch.Valid()
    ensures var s := Decoding.SkipApplicationHeader(old(patch.Abs()));
      && (o.Pass? <==> s.Ok?) && (o.Fail? ==> o.error == s.error) && (o.Pass? ==> patch.Abs() == s.value)
  {
    var appHeaderLength := LegacyIO.Read7bitIntBE(patch);
    if appHeaderLength.Err? {
      return Fail(appHeaderLength.error);
    }
    var skipped := LegacyIO.ReadBytes(patch, appHeaderLength.value);
    o := if skipped.Ok? then Pass else Fail(skipped.error);
  }
}
