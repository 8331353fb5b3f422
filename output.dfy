/** What a decode writes to the target stream: each window's bytes, zero where its
    instructions wrote nothing, after the bytes already there, and nothing else. */
module Output {
  import opened JavaInt
  import opened Errors
  import opened Stores
  import opened CodeTables
  import opened AddressModes
  import opened Interpreter
  import opened Decoding

  /** The bytes of a window that its instructions leave unwritten reach the target
      stream as zeros: the target window starts zeroed, and the instruction loop
      writes nothing from its final position on. */
  lemma WindowZeroTail(h: WindowHeader, target: Store, table: seq<Row>, c: Cache, cfg: Config)
    requires target.Valid() && |table| == 256 && c.Valid() && FinishWindow(h, target, table, c, cfg).Ok?
    ensures var e := Execute(StartWindow(h, c), table).value; var t' := FinishWindow(h, target, table, c, cfg).value.0;
      forall k :: target.pos + e.target.pos <= k < t'.pos ==> t'.bytes[k] == 0
  {
    var w := StartWindow(h, c);
    ExecuteForward(w, table);
    var e := Execute(w, table).value;
    var t' := FinishWindow(h, target, table, c, cfg).value.0;
    forall k | target.pos + e.target.pos <= k < t'.pos
      ensures t'.bytes[k] == 0
    {
      assert t'.bytes[k] == t'.bytes[target.pos..t'.pos][k - target.pos];
    }
  }

  /** Writing a window to the target stream writes forward. */
  lemma FinishWindowForward(h: WindowHeader, target: Store, table: seq<Row>, c: Cache, cfg: Config)
    requires target.Valid() && |table| == 256 && c.Valid() && FinishWindow(h, target, table, c, cfg).Ok?
    ensures WritesForward(target, FinishWindow(h, target, table, c, cfg).value.0)
  {
    var t' := FinishWindow(h, target, table, c, cfg).value.0;
    forall k | 0 <= k < target.pos
      ensures t'.bytes[k] == target.bytes[k]
    {
      assert t'.bytes[k] == t'.bytes[..target.pos][k];
    }
    forall k | t'.pos <= k < |target.bytes|
      ensures t'.bytes[k] == target.bytes[k]
    {
      assert t'.bytes[k] == t'.bytes[t'.pos..][k - t'.pos];
    }
  }

  /** A window after its indicator reads its header without moving the target stream,
      then writes to it what `FinishWindow` writes for that header; so it writes
      forward. */
  lemma WindowBodyWrites(io: Streams, wi: byte, table: seq<Row>, c: Cache, cfg: Config)
    requires io.Valid() && |table| == 256 && c.Valid()
    ensures WindowBody(io, wi, table, c, cfg).Ok? ==> ReadWindowHeader(io, wi).Ok?
    ensures WindowBody(io, wi, table, c, cfg).Ok? ==>
      var (h, io1) := ReadWindowHeader(io, wi).value; var f := FinishWindow(h, io.target, table, c, cfg);
      && io1.target == io.target && f.Ok?
      && WindowBody(io, wi, table, c, cfg).value.0.target == f.value.0
      && WindowBody(io, wi, table, c, cfg).value.1 == f.value.1
    ensures WindowBody(io, wi, table, c, cfg).Ok? ==>
      WritesForward(io.target, WindowBody(io, wi, table, c, cfg).value.0.target)
  {
    if WindowBody(io, wi, table, c, cfg).Ok? {
      var (h, io1) := ReadWindowHeader(io, wi).value;
      FinishWindowForward(h, io1.target, table, c, cfg);
    }
  }

  /** A window after its indicator, on the decoder, writes forward in the target
      stream. */
  lemma NextWindowForward(d: Decoder, wi: byte, cfg: Config)
    requires d.Valid()
    ensures NextWindow(d, wi, cfg).Ok? ==> WritesForward(d.target, NextWindow(d, wi, cfg).value.target)
  {
    WindowBodyWrites(Streams(d.origin, d.patch, d.target), wi, d.table, d.cache, cfg);
  }

  /** Before the end of the patch, `decodeWindow` decodes the window after the
      indicator byte it reads. */
  lemma DecodeWindowNext(d: Decoder, cfg: Config)
    requires d.Valid() && d.patch.pos < |d.patch.bytes|
    ensures var n := NextWindow(d.(patch := d.patch.(pos := d.patch.pos + 1)), d.patch.bytes[d.patch.pos], cfg);
      DecodeWindow(d, cfg) == if n.Ok? then Ok(Some(n.value)) else Err(n.error)
  {
  }

  /** Each window of the patch writes forward in the target stream. */
  lemma DecodeWindowForward(d: Decoder, cfg: Config)
    requires d.Valid()
    ensures DecodeWindow(d, cfg).Ok? && DecodeWindow(d, cfg).value.Some? ==>
      WritesForward(d.target, DecodeWindow(d, cfg).value.value.target)
  {
    if d.patch.pos < |d.patch.bytes| {
      DecodeWindowNext(d, cfg);
      NextWindowForward(d.(patch := d.patch.(pos := d.patch.pos + 1)), d.patch.bytes[d.patch.pos], cfg);
    }
  }

  /** All the windows together write forward in the target stream: what was before
      its position stays, and each window's bytes follow the previous window's. */
  lemma {:induction false} WindowsForward(d: Decoder, cfg: Config)
    requires d.Valid()
    ensures Windows(d, cfg).Ok? ==> WritesForward(d.target, Windows(d, cfg).value.target)
    decreases |d.patch.bytes| - d.patch.pos
  {
    var next := DecodeWindow(d, cfg);
    if next.Ok? && next.value.Some? {
      DecodeWindowForward(d, cfg);
      WindowsForward(next.value.value, cfg);
    }
  }

  /** A whole decode writes forward in the target stream. */
  lemma DecodeForward(origin: Option<Store>, patch: Store, target: Store, cfg: Config)
    requires (origin.Some? ==> origin.value.Valid()) && patch.Valid() && target.Valid()
    requires Decode(origin, patch, target, cfg).Ok?
    ensures WritesForward(target, Decode(origin, patch, target, cfg).value.target)
  {
    var d := ReadHeader(Initial(origin, patch, target), cfg).value;
    WindowsForward(d, cfg);
  }

  /** A one-byte varint, below 0x80, is its own value. */
  lemma ReadSmallVarint(s: Store)
    requires s.Valid() && s.pos < |s.bytes| && s.bytes[s.pos] < 0x80
    ensures ReadVarint(s) == Ok((s.bytes[s.pos] as i32, s.(pos := s.pos + 1)))
  {
    var v := s.bytes[s.pos] as nat;
    assert Varint.Encode(v) == [s.bytes[s.pos]];
    ReadVarintEncoded(s, v);
  }

  /** A patch of one window without a source segment: ADD of "ab", then a COPY of 4
      bytes from address 0 that overlaps what it writes. */
  const ExamplePatch: seq<byte> :=
    [0xD6, 0xC3, 0xC4, 0, 0,   // magic, version 0, no code table, no application header
     0, 10, 6, 0,              // no source, delta length, target length 6, no compression
     2, 2, 1,                  // section lengths
     0x61, 0x62, 3, 20, 0]     // data "ab", ADD 2 and COPY 4 mode 0, address 0

  /** The example patch, read from its first byte, and the six zero bytes it is
      decoded into, as streams. */
  predicate ExampleStreams(p: Store, target: Store)
  {
    p == Store(ExamplePatch, 0, true) && target == Store(seq(6, _ => 0), 0, false)
  }

  /** The example's file header: the magic bytes, version 0 and an indicator of 0. */
  lemma ExampleHeader(p: Store, target: Store, cfg: Config)
    requires ExampleStreams(p, target)
    ensures ReadHeader(Initial(None, p, target), cfg) == Ok(Initial(None, p.(pos := 5), target))
  {
    ExampleIndicator(p, target);
    ReadHeaderIndicator(Initial(None, p, target), cfg);
  }

  /** The start of the example's header: the magic bytes, version 0 and an indicator
      of 0. */
  lemma ExampleIndicator(p: Store, target: Store)
    requires ExampleStreams(p, target)
    ensures HeaderIndicator(p) == Ok((0, p.(pos := 5)))
  {
    HeaderIndicatorCases(p);
    assert p.bytes[0..4] == Magic + [0];
  }

  /** The example's target length and section lengths. */
  lemma ExampleLengths(p: Store, target: Store)
    requires ExampleStreams(p, target)
    ensures TargetLength(p.(pos := 6)) == Ok((6, p.(pos := 9)))
    ensures SectionLengths(p.(pos := 9), false) == Ok(((2, 2, 1), p.(pos := 12)))
  {
    ReadSmallVarint(p.(pos := 6));
    ReadSmallVarint(p.(pos := 7));
    ReadSmallVarint(p.(pos := 9));
    ReadSmallVarint(p.(pos := 10));
    ReadSmallVarint(p.(pos := 11));
  }

  /** The example's window header after the (absent) source segment: a target length
      of 6 and the three sections. */
  lemma ExampleSections(p: Store, target: Store)
    requires ExampleStreams(p, target)
    ensures ReadSections(p.(pos := 6), false) == Ok((Sections(6, [0x61, 0x62], [3, 20], [0]), p.(pos := 17)))
  {
    ExampleLengths(p, target);
    ExampleData(p, target);
    ReadSectionsCases(p.(pos := 6), false);
  }

  /** The example's three sections. */
  lemma ExampleData(p: Store, target: Store)
    requires ExampleStreams(p, target)
    ensures SectionData(p.(pos := 12), (2, 2, 1)) == Ok((([0x61, 0x62], [3, 20], [0]), p.(pos := 17)))
  {
    assert p.bytes[12..14] == [0x61, 0x62] && p.bytes[14..16] == [3, 20] && p.bytes[16..17] == [0];
  }

  /** The example's window header, after the indicator byte 0: no source segment. */
  lemma ExampleWindowHeader(p: Store, target: Store)
    requires ExampleStreams(p, target)
    ensures ReadWindowHeader(Streams(None, p.(pos := 6), target), 0)
      == Ok((WindowHeader(false, None, 0, 6, [0x61, 0x62], [3, 20], [0]), Streams(None, p.(pos := 17), target)))
  {
    ExampleSections(p, target);
  }

  /** The example's window, run by the instruction loop and written to six zero bytes. */
  lemma ExampleWindow(p: Store, target: Store, cfg: Config)
    requires ExampleStreams(p, target)
    ensures var h := WindowHeader(false, None, 0, 6, [0x61, 0x62], [3, 20], [0]);
      var r := FinishWindow(h, target, DefaultTable(), Fresh(4, 3), cfg);
      r.Ok? && r.value.0 == Store([0x61, 0x62, 0x61, 0x62, 0x61, 0x62], 6, false)
  {
    var h := WindowHeader(false, None, 0, 6, [0x61, 0x62], [3, 20], [0]);
    AddThenOverlappingCopy();
    assert StartWindow(h, Fresh(4, 3)) == Window(Store(seq(6, _ => 0), 0, false), Store([0x61, 0x62], 0, true),
      Store([3, 20], 0, true), Store([0], 0, true), Fresh(4, 3), None, 0);
  }

  /** The example's one window, on the decoder after the file header. */
  lemma ExampleNext(p: Store, target: Store, cfg: Config)
    requires ExampleStreams(p, target)
    ensures var d := Initial(None, p.(pos := 5), target);
      && d.patch.pos < |d.patch.bytes|
      && var n := NextWindow(d.(patch := d.patch.(pos := d.patch.pos + 1)), d.patch.bytes[d.patch.pos], cfg);
      && n.Ok? && n.value.patch == p.(pos := 17)
      && n.value.target == Store([0x61, 0x62, 0x61, 0x62, 0x61, 0x62], 6, false)
  {
    var d := Initial(None, p.(pos := 5), target);
    assert d.patch.bytes[d.patch.pos] == 0;
    assert d.(patch := d.patch.(pos := d.patch.pos + 1)) == Initial(None, p.(pos := 6), target);
    ExampleBody(p, target, cfg);
  }

  /** The example's one window, on the streams after the indicator byte. */
  lemma ExampleBody(p: Store, target: Store, cfg: Config)
    requires ExampleStreams(p, target)
    ensures var r := WindowBody(Streams(None, p.(pos := 6), target), 0, DefaultTable(), Fresh(4, 3), cfg);
      && r.Ok? && r.value.0.patch == p.(pos := 17) && r.value.0.origin == None
      && r.value.0.target == Store([0x61, 0x62, 0x61, 0x62, 0x61, 0x62], 6, false)
  {
    ExampleWindowHeader(p, target);
    ExampleWindow(p, target, cfg);
  }

  /** The example's windows, after the file header: one window, then the end. */
  lemma ExampleWindows(p: Store, target: Store, cfg: Config)
    requires ExampleStreams(p, target)
    ensures var r := Windows(Initial(None, p.(pos := 5), target), cfg);
      r.Ok? && r.value.target == Store([0x61, 0x62, 0x61, 0x62, 0x61, 0x62], 6, false)
  {
    var d := Initial(None, p.(pos := 5), target);
    ExampleNext(p, target, cfg);
    DecodeWindowNext(d, cfg);
    var d' := NextWindow(d.(patch := d.patch.(pos := d.patch.pos + 1)), d.patch.bytes[d.patch.pos], cfg).value;
    assert Windows(d', cfg) == Ok(d');
  }

  /** The example patch decodes, in either revision, to "ababab" written over a target
      stream of six zero bytes. */
  lemma ExampleDecode(cfg: Config)
    ensures var r := Decode(None, Store(ExamplePatch, 0, true), Store(seq(6, _ => 0), 0, false), cfg);
      r.Ok? && r.value.target == Store([0x61, 0x62, 0x61, 0x62, 0x61, 0x62], 6, false)
  {
    var p := Store(ExamplePatch, 0, true);
    var target := Store(seq(6, _ => 0), 0, false);
    ExampleHeader(p, target, cfg);
    ExampleWindows(p, target, cfg);
  }
}
