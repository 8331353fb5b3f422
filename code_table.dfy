/** The 256 x 2 instruction code table of section 5 of RFC 3284 (`CodeTable.java`):
    the default table of section 5.6, and the 1536-byte six-plane serialization used
    for application-defined tables (section 7). */
module CodeTables {
  import opened JavaInt
  import opened Errors
  import opened Instructions

  /** The two instructions an index byte stands for. */
  datatype Row = Row(first: Instruction, second: Instruction)

  /** `get(index, half)` on the abstract table. */
  function Half(r: Row, half: nat): Instruction
    requires half < 2
  {
    if half == 0 then r.first else r.second
  }

  function Inst(t: InstructionType, size: int, mode: int): Instruction
    requires -0x80 <= size < 0x80 && -0x80 <= mode < 0x80
  {
    Instruction(t, size, mode)
  }

  /** Entry `(i, half)` of the default code table, read off the table of section 5.6
      of RFC 3284 row by row. */
  function DefaultEntry(i: nat, half: nat): (r: Instruction)
    requires i < 256 && half < 2
    ensures r.ist == Copy ==> 0 <= r.mode <= 8
    ensures r.ist != Copy ==> r.mode == 0
    ensures 0 <= r.size <= 18
    ensures r.ist == NoOp <==> half == 1 && i <= 162
    ensures (r.size == 0 && r.ist != NoOp) <==>
              half == 0 && (i == 0 || i == 1 || (19 <= i <= 162 && (i - 19) % 16 == 0))
  {
    if i == 0 then
      if half == 0 then Inst(Run, 0, 0) else NoOpInstruction
    else if i <= 18 then
      if half == 0 then Inst(Add, i - 1, 0) else NoOpInstruction
    else if i <= 162 then
      var k := i - 19;
      if half == 0 then Inst(Copy, if k % 16 == 0 then 0 else k % 16 + 3, k / 16)
      else NoOpInstruction
    else if i <= 234 then
      var k := i - 163;
      if half == 0 then Inst(Add, k % 12 / 3 + 1, 0) else Inst(Copy, k % 3 + 4, k / 12)
    else if i <= 246 then
      var k := i - 235;
      if half == 0 then Inst(Add, k % 4 + 1, 0) else Inst(Copy, 4, k / 4 + 6)
    else
      if half == 0 then Inst(Copy, 4, i - 247) else Inst(Add, 1, 0)
  }

  function DefaultTable(): (t: seq<Row>)
    ensures |t| == 256
    ensures forall i :: 0 <= i < 256 ==> t[i] == Row(DefaultEntry(i, 0), DefaultEntry(i, 1))
  {
    seq(256, i requires 0 <= i < 256 => Row(DefaultEntry(i, 0), DefaultEntry(i, 1)))
  }

  /** The type bytes of one half of every row (`(byte) getIst().getOp()`). */
  function TypePlane(t: seq<Row>, half: nat): (p: seq<byte>)
    requires |t| == 256 && half < 2
    ensures |p| == 256 && forall i :: 0 <= i < 256 ==> p[i] == Half(t[i], half).ist.Op()
  {
    seq(256, i requires 0 <= i < 256 => Half(t[i], half).ist.Op())
  }

  /** The size bytes of one half of every row. */
  function SizePlane(t: seq<Row>, half: nat): (p: seq<byte>)
    requires |t| == 256 && half < 2
    ensures |p| == 256 && forall i :: 0 <= i < 256 ==> p[i] == Unsigned(Half(t[i], half).size)
  {
    seq(256, i requires 0 <= i < 256 => Unsigned(Half(t[i], half).size))
  }

  /** The mode bytes of one half of every row. */
  function ModePlane(t: seq<Row>, half: nat): (p: seq<byte>)
    requires |t| == 256 && half < 2
    ensures |p| == 256 && forall i :: 0 <= i < 256 ==> p[i] == Unsigned(Half(t[i], half).mode)
  {
    seq(256, i requires 0 <= i < 256 => Unsigned(Half(t[i], half).mode))
  }

  /** `getBytes` on the abstract table: six planes of 256 bytes, types of half 0, types
      of half 1, sizes of half 0, sizes of half 1, modes of half 0, modes of half 1. */
  function Serialize(t: seq<Row>): (b: seq<byte>)
    requires |t| == 256
    ensures |b| == 1536
  {
    TypePlane(t, 0) + TypePlane(t, 1) + SizePlane(t, 0) + SizePlane(t, 1) + ModePlane(t, 0) + ModePlane(t, 1)
  }

  /** Where each field of row `i` lands in the serialization. */
  lemma SerializeLayout(t: seq<Row>, i: nat)
    requires |t| == 256 && i < 256
    ensures var b := Serialize(t);
      && b[i] == t[i].first.ist.Op() && b[i + 256] == t[i].second.ist.Op()
      && b[i + 512] == Unsigned(t[i].first.size) && b[i + 768] == Unsigned(t[i].second.size)
      && b[i + 1024] == Unsigned(t[i].first.mode) && b[i + 1280] == Unsigned(t[i].second.mode)
  {
  }

  /** Every byte of the serialization is one field of one row. */
  lemma SerializeCover(t: seq<Row>, k: nat)
    requires |t| == 256 && k < 1536
    ensures var b := Serialize(t);
      (k < 256 && b[k] == t[k].first.ist.Op()) ||
      (256 <= k < 512 && b[k] == t[k - 256].second.ist.Op()) ||
      (512 <= k < 768 && b[k] == Unsigned(t[k - 512].first.size)) ||
      (768 <= k < 1024 && b[k] == Unsigned(t[k - 768].second.size)) ||
      (1024 <= k < 1280 && b[k] == Unsigned(t[k - 1024].first.mode)) ||
      (1280 <= k && b[k] == Unsigned(t[k - 1280].second.mode))
  {
  }

  /** The instruction that `new Instruction(bytes[ti], bytes[si], bytes[mi])` builds,
      for a type byte already known to be valid. */
  function InstAt(b: seq<byte>, ti: nat, si: nat, mi: nat): (r: Instruction)
    requires ti < |b| && si < |b| && mi < |b| && b[ti] < 4
    ensures r.ist.Op() == b[ti] && r.size == Signed(b[si]) && r.mode == Signed(b[mi])
  {
    FromBytes(Signed(b[ti]), Signed(b[si]), Signed(b[mi])).value
  }

  /** `new CodeTable(byte[] bytes)` on the abstract table: row `i` is built from bytes
      `i`, `i + 512`, `i + 1024` (half 0) and `i + 256`, `i + 768`, `i + 1280` (half 1);
      any type byte outside 0..3 is an IllegalArgumentException. */
  function Parse(b: seq<byte>): (r: Result<seq<Row>>)
    requires |b| >= 1536
    ensures r.Ok? <==> forall k :: 0 <= k < 512 ==> b[k] < 4
    ensures r.Err? ==> r.error == IllegalArgument
    ensures r.Ok? ==> |r.value| == 256
  {
    if forall k :: 0 <= k < 512 ==> b[k] < 4 then
      Ok(seq(256, i requires 0 <= i < 256 =>
        Row(InstAt(b, i, i + 512, i + 1024), InstAt(b, i + 256, i + 768, i + 1280))))
    else Err(IllegalArgument)
  }

  /** `new CodeTable(t.getBytes())` has the same type, size and mode as `t` at every
      index and half. */
  lemma ParseSerialize(t: seq<Row>)
    requires |t| == 256
    ensures Parse(Serialize(t)) == Ok(t)
  {
    var b := Serialize(t);
    forall k | 0 <= k < 512 ensures b[k] < 4 {
      SerializeCover(t, k);
    }
    var u := Parse(b).value;
    forall i | 0 <= i < 256 ensures u[i] == t[i] {
      SerializeLayout(t, i);
      InstructionEq(u[i].first, t[i].first);
      InstructionEq(u[i].second, t[i].second);
    }
    assert u == t;
  }

  /** Serializing a parsed table gives back its 1536 bytes. */
  lemma SerializeParse(b: seq<byte>)
    requires |b| == 1536 && Parse(b).Ok?
    ensures Serialize(Parse(b).value) == b
  {
    var t := Parse(b).value;
    var s := Serialize(t);
    forall k | 0 <= k < 1536 ensures s[k] == b[k] {
      SerializeCover(t, k);
    }
  }

  /** A byte string laid out plane by plane as `getBytes` writes it is the
      serialization. */
  lemma SerializeFromPlanes(t: seq<Row>, s: seq<byte>)
    requires |t| == 256 && |s| == 1536
    requires forall j :: 0 <= j < 256 ==> Column(s, j) == RowBytes(t[j])
    ensures s == Serialize(t)
  {
    forall j | 0 <= j < 256
      ensures s[j] == TypePlane(t, 0)[j] && s[j + 256] == TypePlane(t, 1)[j]
      ensures s[j + 512] == SizePlane(t, 0)[j] && s[j + 768] == SizePlane(t, 1)[j]
      ensures s[j + 1024] == ModePlane(t, 0)[j] && s[j + 1280] == ModePlane(t, 1)[j]
    {
      assert Column(s, j) == RowBytes(t[j]);
    }
    assert s[..256] == TypePlane(t, 0);
    assert s[256..512] == TypePlane(t, 1);
    assert s[512..768] == SizePlane(t, 0);
    assert s[768..1024] == SizePlane(t, 1);
    assert s[1024..1280] == ModePlane(t, 0);
    assert s[1280..] == ModePlane(t, 1);
    assert s == s[..256] + s[256..512] + s[512..768] + s[768..1024] + s[1024..1280] + s[1280..];
  }

  lemma InstructionEq(x: Instruction, y: Instruction)
    requires x.ist.Op() == y.ist.Op() && x.size == y.size && x.mode == y.mode
    ensures x == y
  {
    TypeOfOp(x.ist);
    TypeOfOp(y.ist);
  }

  /** `CodeTable`: a table of 256 x 2 instructions, never changed once built. */
  class CodeTable {
    const entries: array2<Instruction>

    ghost predicate Valid()
      reads this
    {
      entries.Length0 == 256 && entries.Length1 == 2
    }

    /** The abstract table the entries hold. */
    function Rows(): (t: seq<Row>)
      reads this, entries
      requires Valid()
      ensures |t| == 256
      ensures forall i :: 0 <= i < 256 ==> t[i] == Row(entries[i, 0], entries[i, 1])
    {
      seq(256, i requires 0 <= i < 256 reads entries => Row(entries[i, 0], entries[i, 1]))
    }

    /** The private constructor `CodeTable(Instruction[][] entries)`. */
    constructor FromEntries(e: array2<Instruction>)
      requires e.Length0 == 256 && e.Length1 == 2
      ensures entries == e && Valid()
    {
      entries := e;
    }

    /** `get(instructionIndex, i)`: the array entry is the abstract table's entry. */
    function Get(index: nat, half: nat): (r: Instruction)
      reads this, entries
      requires Valid() && index < 256 && half < 2
      ensures r == Half(Rows()[index], half)
    {
      entries[index, half]
    }

    /** `BuildDefaultCodeTable`: the builder's loops with their running index produce
        exactly the default table of section 5.6 of RFC 3284. */
    static method BuildDefault() returns (t: CodeTable)
      ensures t.Valid() && t.Rows() == DefaultTable()
    {
      var e := new Instruction[256, 2]((i, j) => NoOpInstruction);
      e[0, 0] := Inst(Run, 0, 0);
      e[0, 1] := NoOpInstruction;
      FillAdds(e);
      FillCopies(e);
      FillAddCopies(e);
      FillAddCopiesFar(e);
      FillCopyAdds(e);
      t := new CodeTable.FromEntries(e);
    }

    /** One row of `BuildDefaultCodeTable`: `entries[index][0]` and `[1]`. */
    static method PutRow(e: array2<Instruction>, index: nat, first: Instruction, second: Instruction)
      requires FilledTo(e, index) && index < 256
      requires first == DefaultEntry(index, 0) && second == DefaultEntry(index, 1)
      modifies e
      ensures FilledTo(e, index + 1)
    {
      e[index, 0] := first;
      e[index, 1] := second;
    }

    /** Entries 1..18 of `BuildDefaultCodeTable`. */
    static method FillAdds(e: array2<Instruction>)
      requires FilledTo(e, 1)
      modifies e
      ensures FilledTo(e, 19)
    {
      for i := 1 to 19
        invariant FilledTo(e, i)
      {
        DefaultAddOnly(i);
        PutRow(e, i, Inst(Add, i - 1, 0), NoOpInstruction);
      }
    }

    /** Entries 19..162 of `BuildDefaultCodeTable`. */
    static method FillCopies(e: array2<Instruction>)
      requires FilledTo(e, 19)
      modifies e
      ensures FilledTo(e, 163)
    {
      var index := 19;
      for mode := 0 to 9
        invariant index == 19 + 16 * mode && FilledTo(e, index)
      {
        DefaultCopyOnly(mode, 0);
        PutRow(e, index, Inst(Copy, 0, mode), NoOpInstruction);
        index := index + 1;
        for size := 4 to 19
          invariant index == 19 + 16 * mode + size - 3 && FilledTo(e, index)
        {
          DefaultCopyOnly(mode, size);
          PutRow(e, index, Inst(Copy, size, mode), NoOpInstruction);
          index := index + 1;
        }
      }
    }

    /** Entries 163..234 of `BuildDefaultCodeTable`. */
    static method FillAddCopies(e: array2<Instruction>)
      requires FilledTo(e, 163)
      modifies e
      ensures FilledTo(e, 235)
    {
      var index := 163;
      for mode := 0 to 6
        invariant index == 163 + 12 * mode && FilledTo(e, index)
      {
        for addSize := 1 to 5
          invariant index == 163 + 12 * mode + 3 * (addSize - 1) && FilledTo(e, index)
        {
          for copySize := 4 to 7
            invariant index == 163 + 12 * mode + 3 * (addSize - 1) + copySize - 4 && FilledTo(e, index)
          {
            DefaultAddCopy(mode, addSize, copySize);
            PutRow(e, index, Inst(Add, addSize, 0), Inst(Copy, copySize, mode));
            index := index + 1;
          }
        }
      }
    }

    /** Entries 235..246 of `BuildDefaultCodeTable`. */
    static method FillAddCopiesFar(e: array2<Instruction>)
      requires FilledTo(e, 235)
      modifies e
      ensures FilledTo(e, 247)
    {
      var index := 235;
      for mode := 6 to 9
        invariant index == 235 + 4 * (mode - 6) && FilledTo(e, index)
      {
        for addSize := 1 to 5
          invariant index == 235 + 4 * (mode - 6) + addSize - 1 && FilledTo(e, index)
        {
          DefaultAddCopyFar(mode, addSize);
          PutRow(e, index, Inst(Add, addSize, 0), Inst(Copy, 4, mode));
          index := index + 1;
        }
      }
    }

    /** Entries 247..255 of `BuildDefaultCodeTable`. */
    static method FillCopyAdds(e: array2<Instruction>)
      requires FilledTo(e, 247)
      modifies e
      ensures FilledTo(e, 256)
    {
      for mode := 0 to 9
        invariant FilledTo(e, 247 + mode)
      {
        DefaultCopyAdd(mode);
        PutRow(e, 247 + mode, Inst(Copy, 4, mode), Inst(Add, 1, 0));
      }
    }

    /** The byte constructor `CodeTable(byte[] bytes)`: fails with
        IllegalArgumentException on the first type byte outside 0..3, and otherwise
        holds the table the six planes describe. */
    static method FromBytes(bytes: array<byte>) returns (r: Result<CodeTable>)
      requires bytes.Length >= 1536
      ensures r.Ok? <==> Parse(bytes[..]).Ok?
      ensures r.Err? ==> r.error == IllegalArgument
      ensures r.Ok? ==> r.value.Valid() && r.value.Rows() == Parse(bytes[..]).value
    {
      ghost var b := bytes[..];
      var e := new Instruction[256, 2]((i, j) => NoOpInstruction);
      for i := 0 to 256
        invariant forall k :: 0 <= k < i ==> b[k] < 4
        invariant forall k :: 256 <= k < 256 + i ==> b[k] < 4
        invariant forall j :: 0 <= j < i ==> e[j, 0] == InstAt(b, j, j + 512, j + 1024)
        invariant forall j :: 0 <= j < i ==> e[j, 1] == InstAt(b, j + 256, j + 768, j + 1280)
      {
        var first := Instructions.FromBytes(Signed(bytes[i]), Signed(bytes[i + 512]), Signed(bytes[i + 1024]));
        if first.Err? {
          assert !(b[i] < 4);
          return Err(first.error);
        }
        InstructionEq(first.value, InstAt(b, i, i + 512, i + 1024));
        e[i, 0] := first.value;
        var second := Instructions.FromBytes(Signed(bytes[i + 256]), Signed(bytes[i + 768]), Signed(bytes[i + 1280]));
        if second.Err? {
          assert !(b[i + 256] < 4);
          return Err(second.error);
        }
        InstructionEq(second.value, InstAt(b, i + 256, i + 768, i + 1280));
        e[i, 1] := second.value;
      }
      var t := new CodeTable.FromEntries(e);
      r := Ok(t);
    }

    /** `getBytes`: the six 256-byte planes of the serialization. */
    method GetBytes() returns (ret: array<byte>)
      requires Valid()
      ensures fresh(ret) && ret[..] == Serialize(Rows())
    {
      ghost var t := Rows();
      ret := new byte[1536];
      for i := 0 to 256
        invariant forall j :: 0 <= j < i ==> Column(ret[..], j) == RowBytes(t[j])
      {
        var row := Row(entries[i, 0], entries[i, 1]);
        assert row == t[i];
        PutColumn(ret, i, row);
      }
      SerializeFromPlanes(t, ret[..]);
    }
  }

  /** The six bytes row `j` contributes to a serialization, plane by plane. */
  function Column(s: seq<byte>, j: nat): seq<byte>
    requires |s| == 1536 && j < 256
  {
    [s[j], s[j + 256], s[j + 512], s[j + 768], s[j + 1024], s[j + 1280]]
  }

  /** The six bytes `getBytes` writes for one row. */
  function RowBytes(r: Row): seq<byte>
  {
    [r.first.ist.Op(), r.second.ist.Op(), Unsigned(r.first.size), Unsigned(r.second.size),
     Unsigned(r.first.mode), Unsigned(r.second.mode)]
  }

  /** The six writes of one iteration of `getBytes`: column `i` of every plane. */
  method PutColumn(ret: array<byte>, i: nat, row: Row)
    requires ret.Length == 1536 && i < 256
    modifies ret
    ensures Column(ret[..], i) == RowBytes(row)
    ensures forall j :: 0 <= j < 256 && j != i ==> Column(ret[..], j) == Column(old(ret[..]), j)
  {
    ret[i] := row.first.ist.Op();
    ret[i + 256] := row.second.ist.Op();
    ret[i + 512] := Unsigned(row.first.size);
    ret[i + 768] := Unsigned(row.second.size);
    ret[i + 1024] := Unsigned(row.first.mode);
    ret[i + 1280] := Unsigned(row.second.mode);
  }

  /** The first `n` rows of `e` hold the default table. */
  ghost predicate FilledTo(e: array2<Instruction>, n: nat)
    reads e
  {
    e.Length0 == 256 && e.Length1 == 2 && n <= 256 &&
    forall j :: 0 <= j < n ==> e[j, 0] == DefaultEntry(j, 0) && e[j, 1] == DefaultEntry(j, 1)
  }

  /** Rows 1..18: ADD of size 0..17 (size 0 meaning an explicit size follows). */
  lemma DefaultAddOnly(i: nat)
    requires 1 <= i <= 18
    ensures DefaultEntry(i, 0) == Inst(Add, i - 1, 0) && DefaultEntry(i, 1) == NoOpInstruction
  {
  }

  /** Rows 19..162: sixteen COPY rows per mode 0..8, size 0 first, then sizes 4..18. */
  lemma DefaultCopyOnly(mode: nat, size: nat)
    requires mode <= 8 && (size == 0 || 4 <= size <= 18)
    ensures var i := 19 + 16 * mode + (if size == 0 then 0 else size - 3);
      DefaultEntry(i, 0) == Inst(Copy, size, mode) && DefaultEntry(i, 1) == NoOpInstruction
  {
    var k := 16 * mode + (if size == 0 then 0 else size - 3);
    assert k / 16 == mode && k % 16 == (if size == 0 then 0 else size - 3);
  }

  /** Rows 163..234: ADD of size 1..4 then COPY of size 4..6 in mode 0..5; the COPY
      size varies fastest, then the ADD size, then the mode. */
  lemma DefaultAddCopy(mode: nat, addSize: nat, copySize: nat)
    requires mode <= 5 && 1 <= addSize <= 4 && 4 <= copySize <= 6
    ensures var i := 163 + 12 * mode + 3 * (addSize - 1) + copySize - 4;
      DefaultEntry(i, 0) == Inst(Add, addSize, 0) && DefaultEntry(i, 1) == Inst(Copy, copySize, mode)
  {
    var k := 12 * mode + 3 * (addSize - 1) + copySize - 4;
    assert k / 12 == mode && k % 12 == 3 * (addSize - 1) + copySize - 4;
    assert k % 3 == copySize - 4;
  }

  /** Rows 235..246: ADD of size 1..4 then COPY of size 4 in mode 6..8. */
  lemma DefaultAddCopyFar(mode: nat, addSize: nat)
    requires 6 <= mode <= 8 && 1 <= addSize <= 4
    ensures var i := 235 + 4 * (mode - 6) + addSize - 1;
      DefaultEntry(i, 0) == Inst(Add, addSize, 0) && DefaultEntry(i, 1) == Inst(Copy, 4, mode)
  {
    var k := 4 * (mode - 6) + addSize - 1;
    assert k / 4 == mode - 6 && k % 4 == addSize - 1;
  }

  /** Rows 247..255: COPY of size 4 in mode 0..8 then ADD of size 1. */
  lemma DefaultCopyAdd(mode: nat)
    requires mode <= 8
    ensures DefaultEntry(247 + mode, 0) == Inst(Copy, 4, mode) && DefaultEntry(247 + mode, 1) == Inst(Add, 1, 0)
  {
  }
}
