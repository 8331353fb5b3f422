/** The instruction loop of `decodeWindow`, common to both revisions: how ADD, RUN
    and COPY (section 5.3 of RFC 3284) fill the target window from the window's data,
    instruction and address sections. */
module Interpreter {
  import opened JavaInt
  import opened Errors
  import opened Stores
  import opened Instructions
  import opened CodeTables
  import opened AddressModes

  /** A window being decoded: the target window (`targetLen` bytes and the write
      position), the three sections of the delta as read positions, the address
      cache, the source segment if the window has one, and the source length the
      window header declares. The sections are never written. */
  datatype Window = Window(
    target: Store,
    data: Store,
    inst: Store,
    addrs: Store,
    cache: Cache,
    source: Option<seq<byte>>,
    sourceLen: i32)
  {
    predicate Valid()
    {
      target.Valid() && data.Valid() && inst.Valid() && addrs.Valid() && cache.Valid()
    }
  }

  /** A run of `size` copies of `b`; none for a size that is not positive. */
  function Repeat(b: byte, size: int): (r: seq<byte>)
    ensures |r| == (if size <= 0 then 0 else size)
    ensures forall i :: 0 <= i < |r| ==> r[i] == b
  {
    if size <= 0 then [] else seq(size, _ => b)
  }

  /** ADD: the next `size` bytes of the data section, written at the write position. */
  function ExecAdd(w: Window, size: i32): (r: Result<Window>)
    requires w.Valid()
    ensures r.Ok? <==> 0 <= size <= |w.data.bytes| - w.data.pos && size <= |w.target.bytes| - w.target.pos
    ensures r.Err? ==> r.error == Bounds
    ensures r.Ok? ==> r.value == w.(
      data := w.data.(pos := w.data.pos + size),
      target := Write(w.target, w.data.bytes[w.data.pos..w.data.pos + size], false).value)
  {
    var (data', target') :- AddBytes(w.data, w.target, size);
    Ok(w.(data := data', target := target'))
  }

  /** The streams ADD moves: the data section read from, the target window written. */
  function AddBytes(data: Store, t: Store, size: i32): (r: Result<(Store, Store)>)
    requires data.Valid() && t.Valid()
  {
    var (chunk, data') :- ReadBytes(data, size);
    var t' :- Write(t, chunk, false);
    Ok((data', t'))
  }

  /** RUN: the next byte of the data section, written `size` times. */
  function ExecRun(w: Window, size: i32): (r: Result<Window>)
    requires w.Valid()
    ensures r.Ok? <==> w.data.pos < |w.data.bytes| && size <= |w.target.bytes| - w.target.pos
    ensures r.Err? ==> r.error == Bounds
    ensures r.Ok? ==> r.value == w.(
      data := w.data.(pos := w.data.pos + 1),
      target := Write(w.target, Repeat(w.data.bytes[w.data.pos], size), false).value)
  {
    var (data', target') :- RunBytes(w.data, w.target, size);
    Ok(w.(data := data', target := target'))
  }

  /** The streams RUN moves: one byte read from the data section, `size` copies of it
      written to the target window. */
  function RunBytes(data: Store, t: Store, size: i32): (r: Result<(Store, Store)>)
    requires data.Valid() && t.Valid()
  {
    var (b, data') :- ReadByte(data);
    var t' :- Write(t, Repeat(b, size), false);
    Ok((data', t'))
  }

  /** COPY from the source segment: `size` bytes from `addr` on, through a seek and an
      exact read of the segment. */
  function CopyFromSource(src: seq<byte>, addr: i32, size: i32, t: Store): (r: Result<Store>)
    requires t.Valid()
    ensures r.Ok? <==> 0 <= addr && 0 <= size && addr + size <= |src| && size <= |t.bytes| - t.pos
    ensures r.Ok? ==> r == Write(t, src[addr..addr + size], false)
  {
    var view :- Seek(Store(src, 0, true), addr);
    var (_, t') :- AddBytes(view, t, size);
    Ok(t')
  }

  /** COPY within the target window, one byte at a time from index `a`: every byte is
      read from the window as it stands, so a copy that overlaps the bytes it writes
      repeats them. */
  function CopyBytes(t: Store, a: int, size: int): (r: Result<Store>)
    requires t.Valid()
    ensures r.Ok? <==> size <= 0 || (0 <= a && a + size <= |t.bytes| && size <= |t.bytes| - t.pos)
    ensures r.Err? ==> r.error == Bounds
    ensures r.Ok? ==> r.value.Valid() && |r.value.bytes| == |t.bytes| && r.value.readOnly == t.readOnly
    ensures r.Ok? ==> r.value.pos == t.pos + (if size <= 0 then 0 else size)
    decreases size
  {
    if size <= 0 then Ok(t)
    else if a < 0 || a >= |t.bytes| || t.pos >= |t.bytes| then Err(Bounds)
    else CopyBytes(t.(bytes := t.bytes[t.pos := t.bytes[a]], pos := t.pos + 1), a + 1, size - 1)
  }

  /** COPY: the address is decoded against `here`, the write position counted from
      the start of the source segment. An address inside the segment copies from it;
      any other is moved into the target window, copied in one block when it ends
      before the write position and byte by byte otherwise. */
  function ExecCopy(w: Window, size: i32, mode: int8): (r: Result<Window>)
    requires w.Valid()
    ensures r.Ok? ==> r.value.Valid() && |r.value.target.bytes| == |w.target.bytes|
    ensures r.Ok? ==> r.value.data == w.data && r.value.inst == w.inst && r.value.source == w.source
    ensures r.Ok? ==> r.value.sourceLen == w.sourceLen && r.value.target.readOnly == w.target.readOnly
    ensures r.Ok? ==> |r.value.cache.near| == |w.cache.near| && r.value.cache.sameSize == w.cache.sameSize
    ensures var a := DecodeAddress(w.cache, w.addrs, Wrap32(w.target.pos + w.sourceLen), mode);
      && (a.Err? ==> r == Err(a.error))
      && (r.Ok? ==>
            && a.Ok? && r.value.cache == a.value.1 && r.value.addrs == a.value.2
            && CopyAt(w.target, w.source, w.sourceLen, a.value.0, size) == Ok(r.value.target))
  {
    var here := Wrap32(w.target.pos + w.sourceLen);
    var (addr, cache', addrs') :- DecodeAddress(w.cache, w.addrs, here, mode);
    var target' :- CopyAt(w.target, w.source, w.sourceLen, addr, size);
    Ok(w.(target := target', cache := cache', addrs := addrs'))
  }

  /** COPY of `size` bytes from the decoded address `addr`: from the source segment
      when the address is inside it, otherwise from the target window, at the address
      less the declared source length. */
  function CopyAt(t: Store, source: Option<seq<byte>>, sourceLen: i32, addr: i32, size: i32): (r: Result<Store>)
    requires t.Valid()
    ensures r.Ok? ==> r.value.Valid() && |r.value.bytes| == |t.bytes| && r.value.readOnly == t.readOnly
    ensures r.Err? ==> r.error == Bounds
    ensures source.Some? && addr < |source.value| ==>
      && (r.Ok? <==> 0 <= addr && 0 <= size && addr + size <= |source.value| && size <= |t.bytes| - t.pos)
      && (r.Ok? ==>
            && r.value.pos == t.pos + size
            && r.value.bytes == t.bytes[..t.pos] + source.value[addr..addr + size] + t.bytes[t.pos + size..])
    ensures !(source.Some? && addr < |source.value|) && |t.bytes| < 0x8000_0000 && r.Ok? ==>
      r == CopyBytes(t, Wrap32(addr - sourceLen), size)
  {
    if source.Some? && addr < |source.value| then CopyFromSource(source.value, addr, size, t)
    else CopyTarget(t, Wrap32(addr - sourceLen), size)
  }

  /** COPY within the target window from index `a`: one block write when the Java sum
      `a + size` ends before the write position, byte by byte otherwise. */
  function CopyTarget(t: Store, a: i32, size: i32): (r: Result<Store>)
    requires t.Valid()
    ensures r.Ok? ==> r.value.Valid() && |r.value.bytes| == |t.bytes| && r.value.readOnly == t.readOnly
    ensures r.Ok? <==> if Wrap32(a + size) < t.pos
      then 0 <= a && 0 <= size && a + size <= |t.bytes| && size <= |t.bytes| - t.pos
      else size <= 0 || (0 <= a && a + size <= |t.bytes| && size <= |t.bytes| - t.pos)
    ensures r.Err? ==> r.error == Bounds
    ensures r.Ok? && |t.bytes| < 0x8000_0000 ==> r == CopyBytes(t, a, size)
  {
    if Wrap32(a + size) < t.pos then
      if a < 0 || size < 0 || a + size > |t.bytes| then Err(Bounds)
      else
        var block := Write(t, t.bytes[a..a + size], false);
        assert block.Ok? && |t.bytes| < 0x8000_0000 ==> block == CopyBytes(t, a, size) by {
          if block.Ok? && |t.bytes| < 0x8000_0000 {
            CopyBytesNoOverlap(t, a, size);
          }
        }
        block
    else
      CopyBytes(t, a, size)
  }

  /** One half of an instruction-table entry: its size, read from the instruction
      section when the table gives 0 to anything but NOOP, then its action. */
  function Half(w: Window, ins: Instruction): (r: Result<Window>)
    requires w.Valid()
    ensures r.Ok? ==> r.value.Valid() && |r.value.target.bytes| == |w.target.bytes|
    ensures r.Ok? ==> r.value.inst.bytes == w.inst.bytes && r.value.inst.pos >= w.inst.pos
    ensures r.Ok? ==> r.value.source == w.source && r.value.sourceLen == w.sourceLen
    ensures r.Ok? ==> r.value.target.readOnly == w.target.readOnly
    ensures r.Ok? && ins.size == 0 && ins.ist != NoOp ==> r.value.inst.pos > w.inst.pos
    ensures r.Ok? && !(ins.size == 0 && ins.ist != NoOp) ==> r.value.inst == w.inst
    ensures r.Ok? ==> |r.value.cache.near| == |w.cache.near| && r.value.cache.sameSize == w.cache.sameSize
  {
    var (size, inst') :- SizeOf(w.inst, ins);
    var w' := w.(inst := inst');
    match ins.ist
    case NoOp => Ok(w')
    case Add => ExecAdd(w', size)
    case Run => ExecRun(w', size)
    case Copy => ExecCopy(w', size, ins.mode)
  }

  /** The size of an instruction: the table's, unless the table gives 0 to anything
      but NOOP, when it is the next varint of the instruction section. */
  function SizeOf(inst: Store, ins: Instruction): (r: Result<(i32, Store)>)
    requires inst.Valid()
  {
    if ins.size == 0 && ins.ist != NoOp then ReadVarint(inst) else Ok((ins.size as i32, inst))
  }

  /** The instruction loop: each index byte of the instruction section runs both halves
      of its table entry, until the section is used up. */
  function Execute(w: Window, table: seq<Row>): (r: Result<Window>)
    requires w.Valid() && |table| == 256
    ensures r.Ok? ==> r.value.Valid() && |r.value.target.bytes| == |w.target.bytes|
    ensures r.Ok? ==> r.value.inst.bytes == w.inst.bytes && r.value.inst.pos == |w.inst.bytes|
    ensures r.Ok? ==> r.value.target.readOnly == w.target.readOnly
    ensures r.Ok? ==> |r.value.cache.near| == |w.cache.near| && r.value.cache.sameSize == w.cache.sameSize
    decreases |w.inst.bytes| - w.inst.pos
  {
    if w.inst.pos == |w.inst.bytes| then Ok(w)
    else
      var index := w.inst.bytes[w.inst.pos];
      var w0 := w.(inst := w.inst.(pos := w.inst.pos + 1));
      var w1 :- Half(w0, table[index].first);
      var w2 :- Half(w1, table[index].second);
      Execute(w2, table)
  }

  /** A proof helper for the imperative loops: `Execute` unfolded by one turn, in
      which the index at the read position selects the entry whose two halves run in
      order, and the loop goes on from there. */
  lemma ExecuteUnfold(w: Window, table: seq<Row>)
    requires w.Valid() && |table| == 256 && w.inst.pos < |w.inst.bytes|
    ensures var row := table[w.inst.bytes[w.inst.pos]];
      var r1 := Half(w.(inst := w.inst.(pos := w.inst.pos + 1)), row.first);
      var r2 := if r1.Ok? then Half(r1.value, row.second) else r1;
      Execute(w, table) == if r2.Ok? then Execute(r2.value, table) else Err(r2.error)
  {
  }

  /** A byte-by-byte copy from before the write position leaves the bytes before it
      alone, and every byte it writes equals the byte `pos - a` places earlier in the
      result: a copy that overlaps what it writes repeats the pattern between `a` and
      the write position. */
  lemma {:induction false} CopyBytesRepeats(t: Store, a: int, size: int)
    requires t.Valid() && 0 <= a < t.pos && 0 <= size <= |t.bytes| - t.pos
    ensures CopyBytes(t, a, size).Ok?
    ensures var r := CopyBytes(t, a, size).value;
      forall i, k :: t.pos <= k < t.pos + size && i == k - (t.pos - a) ==> r.bytes[k] == r.bytes[i]
    decreases size
  {
    if size > 0 {
      var t' := CopyBytesStep(t, a, size);
      CopyBytesRepeats(t', a + 1, size - 1);
      CopyBytesFrame(t', a + 1, size - 1);
      var r := CopyBytes(t', a + 1, size - 1).value;
      forall i, k | t.pos <= k < t.pos + size && i == k - (t.pos - a)
        ensures r.bytes[k] == r.bytes[i]
      {
        if k == t.pos {
          assert r.bytes[k] == t'.bytes[k];
          assert r.bytes[i] == t'.bytes[i];
        }
      }
    }
  }

  /** One turn of the byte-by-byte copy, as an update of the target window. */
  lemma CopyBytesStep(t: Store, a: int, size: int) returns (t': Store)
    requires t.Valid() && 0 <= a < t.pos < |t.bytes| && 0 < size
    ensures t' == t.(bytes := t.bytes[t.pos := t.bytes[a]], pos := t.pos + 1) && t'.Valid()
    ensures CopyBytes(t, a, size) == CopyBytes(t', a + 1, size - 1)
  {
    t' := t.(bytes := t.bytes[t.pos := t.bytes[a]], pos := t.pos + 1);
  }

  /** One turn of the byte-by-byte copy, as a write of the byte at `a` to a stream
      that may be written. */
  lemma CopyBytesTurn(t: Store, a: int, size: int, t': Store)
    requires t.Valid() && !t.readOnly && 0 <= a < |t.bytes| && 0 < size
    requires Write(t, [t.bytes[a]], true) == Ok(t')
    ensures CopyBytes(t, a, size) == CopyBytes(t', a + 1, size - 1)
  {
    WriteOne(t, t.bytes[a], true);
  }

  /** A byte-by-byte copy from before the write position writes only the `size` bytes
      from the write position on. */
  lemma {:induction false} CopyBytesFrame(t: Store, a: int, size: int)
    requires t.Valid() && 0 <= a < t.pos && 0 <= size <= |t.bytes| - t.pos
    ensures CopyBytes(t, a, size).Ok?
    ensures var r := CopyBytes(t, a, size).value;
      && (forall k :: 0 <= k < t.pos ==> r.bytes[k] == t.bytes[k])
      && (forall k :: t.pos + size <= k < |t.bytes| ==> r.bytes[k] == t.bytes[k])
    decreases size
  {
    if size > 0 {
      var t' := CopyBytesStep(t, a, size);
      CopyBytesFrame(t', a + 1, size - 1);
    }
  }

  /** The block copy of the target branch is sound: when the copied range ends at or
      before the write position, copying byte by byte writes exactly that block. */
  lemma CopyBytesNoOverlap(t: Store, a: int, size: int)
    requires t.Valid() && 0 <= a && 0 <= size && a + size <= t.pos && size <= |t.bytes| - t.pos
    ensures CopyBytes(t, a, size) == Write(t, t.bytes[a..a + size], false)
  {
    if size > 0 {
      CopyBytesRepeats(t, a, size);
      CopyBytesFrame(t, a, size);
      var r := CopyBytes(t, a, size).value;
      var w := Write(t, t.bytes[a..a + size], false).value;
      forall k | 0 <= k < |r.bytes|
        ensures r.bytes[k] == w.bytes[k]
      {
        if t.pos <= k < t.pos + size {
          var i := k - (t.pos - a);
          assert r.bytes[k] == r.bytes[i];
        }
      }
      assert r.bytes == w.bytes;
      assert r == w;
    } else {
      assert t.bytes[a..a + size] == [];
      assert t.bytes[..t.pos] + [] + t.bytes[t.pos..] == t.bytes;
    }
  }

  /** `t'` follows `t` as the instruction loop writes the target window: the same
      length, the write position not moved back, the bytes before `t`'s position
      kept, and nothing written from `t'`'s position on. */
  predicate WritesForward(t: Store, t': Store)
  {
    && |t'.bytes| == |t.bytes| && t.pos <= t'.pos
    && (forall k :: 0 <= k < t.pos && k < |t.bytes| ==> t'.bytes[k] == t.bytes[k])
    && (forall k :: t'.pos <= k < |t.bytes| ==> t'.bytes[k] == t.bytes[k])
  }

  /** A successful byte-by-byte copy writes forward: only the `size` bytes from the
      write position, wherever it reads them from. */
  lemma {:induction false} CopyBytesForward(t: Store, a: int, size: int)
    requires t.Valid() && CopyBytes(t, a, size).Ok?
    ensures WritesForward(t, CopyBytes(t, a, size).value)
    decreases size
  {
    if size > 0 {
      var t' := t.(bytes := t.bytes[t.pos := t.bytes[a]], pos := t.pos + 1);
      CopyBytesForward(t', a + 1, size - 1);
    }
  }

  /** Every write of the instruction loop is a write at the position. */
  lemma WriteForward(t: Store, data: seq<byte>, enforceReadOnly: bool)
    requires t.Valid() && Write(t, data, enforceReadOnly).Ok?
    ensures WritesForward(t, Write(t, data, enforceReadOnly).value)
  {
    WriteReadBack(t, data, enforceReadOnly);
    var w := Write(t, data, enforceReadOnly).value;
    forall k | 0 <= k < t.pos
      ensures w.bytes[k] == t.bytes[k]
    {
      assert w.bytes[k] == w.bytes[..t.pos][k];
    }
    forall k | w.pos <= k < |t.bytes|
      ensures w.bytes[k] == t.bytes[k]
    {
      assert w.bytes[k] == w.bytes[w.pos..][k - w.pos];
    }
  }

  /** A COPY from a decoded address writes forward in the target window. */
  lemma CopyAtForward(t: Store, source: Option<seq<byte>>, sourceLen: i32, addr: i32, size: i32)
    requires t.Valid() && CopyAt(t, source, sourceLen, addr, size).Ok?
    ensures WritesForward(t, CopyAt(t, source, sourceLen, addr, size).value)
  {
    if source.Some? && addr < |source.value| {
      WriteForward(t, source.value[addr..addr + size], false);
    } else {
      var a := Wrap32(addr - sourceLen);
      if Wrap32(a + size) < t.pos {
        WriteForward(t, t.bytes[a..a + size], false);
      } else {
        CopyBytesForward(t, a, size);
      }
    }
  }

  /** Half an instruction writes forward in the target window. */
  lemma HalfForward(w: Window, ins: Instruction)
    requires w.Valid() && Half(w, ins).Ok?
    ensures WritesForward(w.target, Half(w, ins).value.target)
  {
    var (size, inst') := SizeOf(w.inst, ins).value;
    var w' := w.(inst := inst');
    assert w'.target == w.target;
    match ins.ist
    case NoOp =>
    case Add =>
      WriteForward(w'.target, w'.data.bytes[w'.data.pos..w'.data.pos + size], false);
    case Run =>
      WriteForward(w'.target, Repeat(w'.data.bytes[w'.data.pos], size), false);
    case Copy =>
      var (addr, _, _) := DecodeAddress(w'.cache, w'.addrs, Wrap32(w'.target.pos + w'.sourceLen), ins.mode).value;
      CopyAtForward(w'.target, w'.source, w'.sourceLen, addr, size);
  }

  /** The whole instruction loop writes forward: the target window's bytes before its
      first position are kept, and nothing from its final position on is written. */
  lemma {:induction false} ExecuteForward(w: Window, table: seq<Row>)
    requires w.Valid() && |table| == 256
    ensures Execute(w, table).Ok? ==> WritesForward(w.target, Execute(w, table).value.target)
    decreases |w.inst.bytes| - w.inst.pos
  {
    if w.inst.pos < |w.inst.bytes| {
      var row := table[w.inst.bytes[w.inst.pos]];
      var w0 := w.(inst := w.inst.(pos := w.inst.pos + 1));
      var r1 := Half(w0, row.first);
      if r1.Ok? {
        HalfForward(w0, row.first);
        var r2 := Half(r1.value, row.second);
        if r2.Ok? {
          HalfForward(r1.value, row.second);
          ExecuteForward(r2.value, table);
        }
      }
    }
  }

  /** Section 5.3 of RFC 3284's example of an overlapping COPY, through the default
      code table: ADD "ab" then COPY 4 bytes from address 0 gives "ababab". */
  lemma AddThenOverlappingCopy()
    ensures var w := Window(Store(seq(6, _ => 0), 0, false), Store([0x61, 0x62], 0, true),
                            Store([3, 20], 0, true), Store([0], 0, true), Fresh(4, 3), None, 0);
      Execute(w, DefaultTable()) == Ok(w.(
        target := Store([0x61, 0x62, 0x61, 0x62, 0x61, 0x62], 6, false),
        data := w.data.(pos := 2), inst := w.inst.(pos := 2), addrs := w.addrs.(pos := 1),
        cache := Update(Fresh(4, 3), 0).value))
  {
    var w := Window(Store(seq(6, _ => 0), 0, false), Store([0x61, 0x62], 0, true),
                    Store([3, 20], 0, true), Store([0], 0, true), Fresh(4, 3), None, 0);
    var table := DefaultTable();
    assert table[3] == Row(Inst(Add, 2, 0), NoOpInstruction);
    assert table[20] == Row(Inst(Copy, 4, 0), NoOpInstruction);
    var w1 := Half(w.(inst := w.inst.(pos := 1)), table[3].first).value;
    assert w1.target == Store([0x61, 0x62, 0, 0, 0, 0], 2, false);
    var w2 := Half(w1, table[3].second).value;
    assert w2 == w1;
    assert ReadVarint(w.addrs) == Ok((0, w.addrs.(pos := 1))) by {
      ReadVarintEncoded(w.addrs, 0);
    }
    CopyBytesRepeats(w1.target, 0, 4);
    var w3 := Half(w2.(inst := w2.inst.(pos := 2)), table[20].first).value;
    assert w3.target.bytes == [0x61, 0x62, 0x61, 0x62, 0x61, 0x62];
  }
}
