/** `VcdiffDecoder` of both revisions on values: the header and optional custom code
    table (sections 4.1 and 7 of RFC 3284), then window after window (section 4.2),
    each decoded by the instruction loop of `Interpreter` and written to the target. */
module Decoding {
  import opened JavaInt
  import opened Errors
  import opened Stores
  import opened CodeTables
  import opened AddressModes
  import opened Interpreter

  /** The one way the revisions differ on values: the main revision's streams refuse a
      write to a stream opened read-only, the legacy revision's do not. */
  datatype Config = Config(enforceReadOnly: bool)

  const MainConfig := Config(true)
  const LegacyConfig := Config(false)

  /** A decoder's fields: the dictionary (the origin stream, possibly absent), the
      patch, the target, the code table and the address cache. */
  datatype Decoder = Decoder(origin: Option<Store>, patch: Store, target: Store, table: seq<Row>, cache: Cache)
  {
    predicate Valid()
    {
      (origin.Some? ==> origin.value.Valid()) && patch.Valid() && target.Valid()
      && |table| == 256 && cache.Valid()
    }
  }

  /** `new VcdiffDecoder(origin, patch, target)`: the default code table and a cache
      with 4 near and 3 same slots. */
  function Initial(origin: Option<Store>, patch: Store, target: Store): (d: Decoder)
    requires (origin.Some? ==> origin.value.Valid()) && patch.Valid() && target.Valid()
    ensures d.Valid() && d.table == DefaultTable() && |d.cache.near| == 4 && d.cache.sameSize == 3
  {
    Decoder(origin, patch, target, DefaultTable(), Fresh(4, 3))
  }

  const Magic: seq<byte> := [0xD6, 0xC3, 0xC4]

  /** The start of `readHeader`: the magic bytes, version 0, then a header indicator
      without the secondary-compression bit and with bits 3 to 7 clear. */
  function HeaderIndicator(p: Store): (r: Result<(byte, Store)>)
    requires p.Valid()
    ensures r.Ok? ==> p.pos + 5 <= |p.bytes| && r.value.1 == p.(pos := p.pos + 5) && r.value.0 == p.bytes[p.pos + 4]
  {
    var (magic, p1) :- ReadBytes(p, 4);
    if magic[0] != 0xD6 || magic[1] != 0xC3 || magic[2] != 0xC4 then
      Err(NotVcdiff)
    else if magic[3] != 0 then
      Err(UnsupportedVersion)
    else
      var (hi, p2) :- ReadByte(p1);
      if hi % 2 == 1 then Err(UnsupportedSecondaryCompression)
      else if hi >= 8 then Err(BadHeaderIndicator)  // `(byte) hi & 0xf8`
      else Ok((hi, p2))
  }

  /** What the start of the header accepts and refuses: fewer than four bytes, a wrong
      magic, a version other than 0, a missing indicator, the secondary-compression
      bit and any of bits 3 to 7 each fail; every other indicator is accepted. */
  lemma HeaderIndicatorCases(p: Store)
    requires p.Valid()
    ensures |p.bytes| - p.pos < 4 ==> HeaderIndicator(p) == Err(Bounds)
    ensures |p.bytes| - p.pos >= 4 && p.bytes[p.pos..p.pos + 3] != Magic ==> HeaderIndicator(p) == Err(NotVcdiff)
    ensures (|p.bytes| - p.pos >= 4 && p.bytes[p.pos..p.pos + 3] == Magic && p.bytes[p.pos + 3] != 0) ==>
      HeaderIndicator(p) == Err(UnsupportedVersion)
    ensures (|p.bytes| - p.pos == 4 && p.bytes[p.pos..p.pos + 4] == Magic + [0]) ==> HeaderIndicator(p) == Err(Bounds)
    ensures (|p.bytes| - p.pos >= 5 && p.bytes[p.pos..p.pos + 4] == Magic + [0]) ==>
      var hi := p.bytes[p.pos + 4];
      && (hi % 2 == 1 ==> HeaderIndicator(p) == Err(UnsupportedSecondaryCompression))
      && (hi % 2 == 0 && hi >= 8 ==> HeaderIndicator(p) == Err(BadHeaderIndicator))
      && (hi % 2 == 0 && hi < 8 ==> HeaderIndicator(p) == Ok((hi, p.(pos := p.pos + 5))))
  {
    if |p.bytes| - p.pos >= 4 {
      var magic := p.bytes[p.pos..p.pos + 4];
      assert magic[..3] == p.bytes[p.pos..p.pos + 3];
      if p.bytes[p.pos..p.pos + 4] == Magic + [0] {
        assert magic[..3] == Magic && magic[3] == 0;
      }
    }
  }

  /** `readHeader`: the magic bytes, the version and the header indicator, then the
      custom code table and the application header if the indicator announces them. */
  function ReadHeader(d: Decoder, cfg: Config): (r: Result<Decoder>)
    requires d.Valid()
    ensures r.Ok? ==> r.value.Valid() && r.value.target == d.target && r.value.origin == d.origin
    ensures r.Ok? ==> r.value.patch.bytes == d.patch.bytes && r.value.patch.pos >= d.patch.pos + 5
    decreases |d.patch.bytes|, 3
  {
    var (hi, p2) :- HeaderIndicator(d.patch);
    HeaderTail(d.(patch := p2), hi, cfg)
  }

  /** The rest of `readHeader` after the indicator `hi`: the custom code table when
      bit 1 is set, then the application header when bit 2 is. */
  function HeaderTail(d: Decoder, hi: byte, cfg: Config): (r: Result<Decoder>)
    requires d.Valid()
    ensures r.Ok? ==> r.value.Valid() && r.value.target == d.target && r.value.origin == d.origin
    ensures r.Ok? ==> r.value.patch.bytes == d.patch.bytes && r.value.patch.pos >= d.patch.pos
    decreases |d.patch.bytes|, 2
  {
    var d3 :- if hi / 2 % 2 == 1 then ReadCodeTable(d, cfg) else Ok(d);
    if hi / 4 % 2 == 1 then
      var p5 :- SkipApplicationHeader(d3.patch);
      Ok(d3.(patch := p5))
    else
      Ok(d3)
  }

  /** A header that fails its first checks fails `readHeader` the same way; one whose
      indicator announces neither a code table nor an application header ends right
      after the indicator, with the decoder otherwise unchanged. */
  lemma ReadHeaderIndicator(d: Decoder, cfg: Config)
    requires d.Valid()
    ensures HeaderIndicator(d.patch).Err? ==> ReadHeader(d, cfg) == Err(HeaderIndicator(d.patch).error)
    ensures HeaderIndicator(d.patch).Ok? && HeaderIndicator(d.patch).value.0 == 0 ==>
      ReadHeader(d, cfg) == Ok(d.(patch := HeaderIndicator(d.patch).value.1))
  {
  }

  /** The application header: its length as a varint, then that many bytes, skipped. */
  function SkipApplicationHeader(p: Store): (r: Result<Store>)
    requires p.Valid()
    ensures r.Ok? ==> r.value.Valid() && r.value == p.(pos := r.value.pos) && r.value.pos > p.pos
    ensures ReadVarint(p).Err? ==> r.Err?
    ensures ReadVarint(p).Ok? ==> var (len, p1) := ReadVarint(p).value;
      && (r.Ok? <==> 0 <= len <= |p.bytes| - p1.pos)
      && (r.Ok? ==> r.value.pos == p1.pos + len)
  {
    var (len, p1) :- ReadVarint(p);
    var (_, p2) :- ReadBytes(p1, len);
    Ok(p2)
  }

  /** The parts of a custom code table in the patch: the compressed table (its length
      is the varint minus 2, for the two size bytes), the near size and the same
      size. */
  function TableDelta(patch: Store): (r: Result<(seq<byte>, byte, byte, Store)>)
    requires patch.Valid()
    ensures r.Ok? ==> var (delta, _, _, p) := r.value;
      p.Valid() && p == patch.(pos := p.pos) && p.pos >= patch.pos + 3 + |delta| && p.pos > 0
    ensures r.Ok? ==> ReadVarint(patch).Ok? && var (v, p1) := ReadVarint(patch).value;
      var (delta, near, same, p) := r.value;
      && |delta| == Wrap32(v - 2) && p.pos == p1.pos + 2 + |delta|
      && near == patch.bytes[p1.pos] && same == patch.bytes[p1.pos + 1]
      && delta == patch.bytes[p1.pos + 2..p.pos]
  {
    var (v, p1) :- ReadVarint(patch);
    var (near, p2) :- ReadByte(p1);
    var (same, p3) :- ReadByte(p2);
    var (delta, p4) :- ReadBytes(p3, Wrap32(v - 2));
    Ok((delta, near, same, p4))
  }

  /** The dictionary of a custom code table's delta: the default table's 1536 bytes. */
  function TableOrigin(): (s: Store)
    ensures s.Valid() && |s.bytes| == 1536
  {
    Store(Serialize(DefaultTable()), 0, true)
  }

  /** The target of a custom code table's delta: 1536 zero bytes. */
  function TableTarget(): (s: Store)
    ensures s.Valid() && |s.bytes| == 1536 && !s.readOnly
  {
    Store(seq(1536, _ => 0), 0, false)
  }

  /** The compressed table decoded by a decoder of its own, from the default table's
      bytes into 1536 zero bytes; all 1536 must be written. */
  function DecompressTable(delta: seq<byte>, cfg: Config): (r: Result<seq<byte>>)
    ensures r.Ok? ==> |r.value| == 1536
    ensures var out := Decode(Some(TableOrigin()), Store(delta, 0, true), TableTarget(), cfg);
      && (out.Err? ==> r == Err(out.error))
      && (out.Ok? && out.value.target.pos != 1536 ==> r == Err(BadTableSize))
      && (out.Ok? && out.value.target.pos == 1536 ==> r == Ok(out.value.target.bytes))
    decreases |delta|, 6
  {
    var out :- Decode(Some(TableOrigin()), Store(delta, 0, true), TableTarget(), cfg);
    if out.target.pos != 1536 then Err(BadTableSize) else Ok(out.target.bytes)
  }

  /** The custom code table in the patch: the compressed table decoded from the
      default table's bytes must describe a code table; with it come the near and
      same sizes the patch gives. */
  function CustomTable(p: Store, cfg: Config): (r: Result<(seq<Row>, byte, byte, Store)>)
    requires p.Valid()
    ensures r.Ok? ==> var (table, near, same, p') := r.value;
      && |table| == 256 && p'.Valid() && p'.bytes == p.bytes && p'.pos > p.pos && p'.readOnly == p.readOnly
    ensures r.Ok? ==>
      TableDelta(p).Ok? &&
      var (delta, near, same, p') := TableDelta(p).value;
      var out := DecompressTable(delta, cfg);
      && out.Ok? && Serialize(r.value.0) == out.value
      && r.value.1 == near && r.value.2 == same && r.value.3 == p'
    decreases |p.bytes|, 0
  {
    var (delta, near, same, p') :- TableDelta(p);
    var bytes :- DecompressTable(delta, cfg);
    var table :- Parse(bytes);
    SerializeParse(bytes);
    Ok((table, near, same, p'))
  }

  /** `readCodeTable`: the custom table replaces the code table, and the cache takes
      the sizes the patch gives. */
  function ReadCodeTable(d: Decoder, cfg: Config): (r: Result<Decoder>)
    requires d.Valid()
    ensures r.Ok? ==> r.value.Valid() && r.value.target == d.target && r.value.origin == d.origin
    ensures r.Ok? ==> r.value.patch.bytes == d.patch.bytes && r.value.patch.pos > d.patch.pos
    ensures r.Ok? <==> CustomTable(d.patch, cfg).Ok?
    ensures r.Ok? ==> var (table, near, same, p) := CustomTable(d.patch, cfg).value;
      r.value.table == table && r.value.cache == Fresh(near, same) && r.value.patch == p
    decreases |d.patch.bytes|, 1
  {
    var (table, near, same, p) :- CustomTable(d.patch, cfg);
    Ok(d.(patch := p, table := table, cache := Fresh(near, same)))
  }

  /** What the header of a window says: whether a checksum follows, the source
      segment if any, the declared source length, the target window's length and the
      three sections. */
  datatype WindowHeader = WindowHeader(
    checksum: bool,
    source: Option<seq<byte>>,
    sourceLen: i32,
    targetLen: nat,
    data: seq<byte>,
    inst: seq<byte>,
    addrs: seq<byte>)

  /** The window indicator with the checksum bit (2) cleared. */
  function SourceMode(wi: byte): (m: byte)
    ensures m <= wi && (m == wi || m == wi - 4)
  {
    if wi / 4 % 2 == 1 then wi - 4 else wi
  }

  /** The three streams a window header reads or moves: the dictionary, the patch and
      the target. */
  datatype Streams = Streams(origin: Option<Store>, patch: Store, target: Store)
  {
    predicate Valid()
    {
      (origin.Some? ==> origin.value.Valid()) && patch.Valid() && target.Valid()
    }

    /** The streams have the same contents as `io`, and the patch has not moved back. */
    predicate Follows(io: Streams)
    {
      && (origin.Some? <==> io.origin.Some?) && (origin.Some? ==> origin.value.bytes == io.origin.value.bytes)
      && patch.bytes == io.patch.bytes && patch.pos >= io.patch.pos && target == io.target
    }
  }

  /** The source segment of a window of mode 1 (the dictionary) or 2 (the target so
      far): its declared length and position, then as many bytes as the stream holds
      from the position on, up to the declared length; the target's position is put
      back afterwards. */
  function ReadSource(io: Streams, mode: byte): (r: Result<(Option<seq<byte>>, i32, Streams)>)
    requires io.Valid() && mode <= 2 && (mode == 1 ==> io.origin.Some?)
    ensures r.Ok? ==> var (src, sourceLen, io') := r.value;
      && io'.Valid() && io'.Follows(io)
      && (mode == 0 <==> src.None?) && (mode == 0 ==> sourceLen == 0 && io' == io)
      && (mode != 1 ==> io'.origin == io.origin)
  {
    if mode == 0 then Ok((None, 0, io))
    else
      var (sourceLen, sourcePos, p2) :- SourceWindow(io.patch);
      var s := if mode == 1 then io.origin.value else io.target;
      var (bytes, s2) :- SourceSegment(s, sourceLen, sourcePos);
      if mode == 1 then Ok((Some(bytes), sourceLen, io.(patch := p2, origin := Some(s2))))
      else Ok((Some(bytes), sourceLen, io.(patch := p2)))
  }

  /** The declared length and the position of the source segment. */
  function SourceWindow(p: Store): (r: Result<(i32, i32, Store)>)
    requires p.Valid()
    ensures r.Ok? ==> var (_, _, p') := r.value; p'.Valid() && p' == p.(pos := p'.pos) && p'.pos >= p.pos + 2
  {
    var (sourceLen, p1) :- ReadVarint(p);
    var (sourcePos, p2) :- ReadVarint(p1);
    Ok((sourceLen, sourcePos, p2))
  }

  /** The source segment read from `s`: a seek to its position, then as many bytes as
      the stream holds from there, up to the declared length. */
  function SourceSegment(s: Store, sourceLen: i32, sourcePos: i32): (r: Result<(seq<byte>, Store)>)
    requires s.Valid()
    ensures r.Ok? ==> var (_, s') := r.value; s'.Valid() && s' == s.(pos := s'.pos)
    ensures r.Ok? ==> var (bytes, s') := r.value;
      && 0 <= sourcePos && |bytes| <= sourceLen && s'.pos == sourcePos + |bytes|
      && bytes == s.bytes[sourcePos..s'.pos]
    ensures r.Ok? <==>
      && 0 <= sourcePos <= |s.bytes| && 0 <= sourceLen
      && (sourceLen + sourcePos < 0x8000_0000 || sourceLen + sourcePos <= |s.bytes|)
    ensures r.Ok? ==> |r.value.0| == if sourceLen + sourcePos > |s.bytes| then |s.bytes| - sourcePos else sourceLen
    ensures r.Err? ==> r.error == Bounds
  {
    var s1 :- Seek(s, sourcePos);
    var realLen := if Wrap32(sourceLen + sourcePos) > |s.bytes| then |s.bytes| - sourcePos else sourceLen;
    ReadBytes(s1, realLen)
  }

  /** The part of a window header after the source segment: the target window's
      length and the three sections of the delta. */
  datatype Sections = Sections(targetLen: nat, data: seq<byte>, inst: seq<byte>, addrs: seq<byte>)

  /** The delta length (ignored), the target length, a delta indicator that must be 0,
      and a target length that must not be negative (`new byte[targetLen]`). */
  function TargetLength(p: Store): (r: Result<(nat, Store)>)
    requires p.Valid()
    ensures r.Ok? ==> var (_, p') := r.value; p'.Valid() && p' == p.(pos := p'.pos) && p'.pos >= p.pos + 3
    ensures ReadVarint(p).Err? ==> r.Err?
    ensures ReadVarint(p).Ok? ==> var l := ReadVarint(ReadVarint(p).value.1);
      && (l.Err? ==> r.Err?)
      && (l.Ok? ==> var (targetLen, p2) := l.value;
            && (p2.pos == |p2.bytes| ==> r == Err(Bounds))
            && (p2.pos < |p2.bytes| && p2.bytes[p2.pos] != 0 ==> r == Err(UnsupportedDeltaCompression))
            && (p2.pos < |p2.bytes| && p2.bytes[p2.pos] == 0 && targetLen < 0 ==> r == Err(Bounds))
            && (p2.pos < |p2.bytes| && p2.bytes[p2.pos] == 0 && targetLen >= 0 ==> r == Ok((targetLen as nat, p2.(pos := p2.pos + 1)))))
  {
    var (_, p1) :- ReadVarint(p);
    var (targetLen, p2) :- ReadVarint(p1);
    var (di, p3) :- ReadByte(p2);
    if di != 0 then Err(UnsupportedDeltaCompression)
    else if targetLen < 0 then Err(Bounds)
    else Ok((targetLen, p3))
  }

  /** The lengths of the three sections, then the four checksum bytes if the window
      has them. */
  function SectionLengths(p: Store, checksum: bool): (r: Result<((i32, i32, i32), Store)>)
    requires p.Valid()
    ensures r.Ok? ==> var (_, p') := r.value;
      p'.Valid() && p' == p.(pos := p'.pos) && p'.pos >= p.pos + 3 + (if checksum then 4 else 0)
  {
    var (dataLen, p1) :- ReadVarint(p);
    var (instLen, p2) :- ReadVarint(p1);
    var (addrLen, p3) :- ReadVarint(p2);
    var p4 :- if checksum then var (_, q) :- ReadBytes(p3, 4); Ok(q) else Ok(p3);
    Ok(((dataLen, instLen, addrLen), p4))
  }

  /** The three sections, of the lengths given. */
  function SectionData(p: Store, lengths: (i32, i32, i32)): (r: Result<((seq<byte>, seq<byte>, seq<byte>), Store)>)
    requires p.Valid()
    ensures r.Ok? ==> var ((data, inst, addrs), p') := r.value;
      p'.Valid() && p' == p.(pos := p'.pos) && p'.pos == p.pos + |data| + |inst| + |addrs|
  {
    var (data, p1) :- ReadBytes(p, lengths.0);
    var (inst, p2) :- ReadBytes(p1, lengths.1);
    var (addrs, p3) :- ReadBytes(p2, lengths.2);
    Ok(((data, inst, addrs), p3))
  }

  /** The part of a window header after the source segment: the target length, the
      section lengths and the checksum, and the three sections. */
  function ReadSections(p: Store, checksum: bool): (r: Result<(Sections, Store)>)
    requires p.Valid()
    ensures r.Ok? ==> var (x, p') := r.value;
      && p'.Valid() && p'.bytes == p.bytes && p'.readOnly == p.readOnly
      && p'.pos >= p.pos + 6 + (if checksum then 4 else 0) + |x.data| + |x.inst| + |x.addrs|
  {
    var (targetLen, p1) :- TargetLength(p);
    var (lengths, p2) :- SectionLengths(p1, checksum);
    var (sections, p3) :- SectionData(p2, lengths);
    Ok((Sections(targetLen, sections.0, sections.1, sections.2), p3))
  }

  /** A proof helper: `ReadSections` unfolded one part at a time, for the imperative
      decoders to follow; it fails as the first part that fails, and otherwise gathers
      the target length and the three sections. */
  lemma ReadSectionsCases(p: Store, checksum: bool)
    requires p.Valid()
    ensures TargetLength(p).Err? ==> ReadSections(p, checksum) == Err(TargetLength(p).error)
    ensures TargetLength(p).Ok? ==> var (targetLen, p1) := TargetLength(p).value;
      var n := SectionLengths(p1, checksum);
      && (n.Err? ==> ReadSections(p, checksum) == Err(n.error))
      && (n.Ok? ==> var d := SectionData(n.value.1, n.value.0);
            && (d.Err? ==> ReadSections(p, checksum) == Err(d.error))
            && (d.Ok? ==> ReadSections(p, checksum) == Ok((Sections(targetLen, d.value.0.0, d.value.0.1, d.value.0.2), d.value.1))))
  {
  }

  /** The window header after the indicator byte `wi`: the source segment, then the
      sections, with the checksum bytes present when the indicator has bit 2. */
  function ReadWindowHeader(io: Streams, wi: byte): (r: Result<(WindowHeader, Streams)>)
    requires io.Valid()
    ensures r.Ok? ==> var (h, io') := r.value;
      && io'.Valid() && io'.Follows(io) && io'.patch.pos > io.patch.pos
      && h.checksum == (wi / 4 % 2 == 1)
    ensures SourceMode(wi) > 2 ==> r == Err(BadWindowIndicator)
    ensures SourceMode(wi) == 1 && io.origin.None? ==> r == Err(SourceRequired)
  {
    var mode := SourceMode(wi);
    if mode > 2 then Err(BadWindowIndicator)
    else if mode == 1 && io.origin.None? then Err(SourceRequired)
    else
      var (src, sourceLen, io1) :- ReadSource(io, mode);
      var checksum := wi / 4 % 2 == 1;
      var (x, p) :- ReadSections(io1.patch, checksum);
      Ok((WindowHeader(checksum, src, sourceLen, x.targetLen, x.data, x.inst, x.addrs), io1.(patch := p)))
  }

  /** What a window header holds: the source segment and declared length that
      `ReadSource` reads for the indicator's mode, the checksum flag from bit 2, and
      the target length and sections that `ReadSections` reads after them. */
  lemma WindowHeaderParts(io: Streams, wi: byte)
    requires io.Valid()
    ensures ReadWindowHeader(io, wi).Ok? ==>
      var (h, io') := ReadWindowHeader(io, wi).value; var mode := SourceMode(wi);
      && mode <= 2 && (mode == 1 ==> io.origin.Some?)
      && ReadSource(io, mode).Ok?
      && var (src, sourceLen, io1) := ReadSource(io, mode).value;
      && h.source == src && h.sourceLen == sourceLen && io'.origin == io1.origin && io'.target == io.target
      && ReadSections(io1.patch, h.checksum) == Ok((Sections(h.targetLen, h.data, h.inst, h.addrs), io'.patch))
  {
  }

  /** The window the instruction loop starts from: a zeroed target window, the
      sections from their first byte, and the cache reset. */
  function StartWindow(h: WindowHeader, c: Cache): (w: Window)
    requires c.Valid()
    ensures w.Valid() && |w.target.bytes| == h.targetLen && w.target.pos == 0 && !w.target.readOnly
    ensures w.cache == Reset(c)
  {
    Window(Store(seq(h.targetLen, _ => 0), 0, false), Store(h.data, 0, true), Store(h.inst, 0, true),
           Store(h.addrs, 0, true), Reset(c), h.source, h.sourceLen)
  }

  /** The rest of `decodeWindow` once the header is read: the instruction loop over a
      zeroed target window, then all `targetLen` bytes of it written to the target
      stream. */
  function FinishWindow(h: WindowHeader, target: Store, table: seq<Row>, c: Cache, cfg: Config): (r: Result<(Store, Cache)>)
    requires target.Valid() && |table| == 256 && c.Valid()
    ensures r.Ok? ==> var (target', c') := r.value;
      && target'.Valid() && |target'.bytes| == |target.bytes| && target'.readOnly == target.readOnly
      && target'.pos == target.pos + h.targetLen
      && target'.bytes[..target.pos] == target.bytes[..target.pos]
      && target'.bytes[target'.pos..] == target.bytes[target'.pos..]
      && c'.Valid() && |c'.near| == |c.near| && c'.sameSize == c.sameSize
    ensures var e := Execute(StartWindow(h, c), table);
      && (e.Err? ==> r == Err(e.error))
      && (e.Ok? ==> (r.Ok? <==> !(cfg.enforceReadOnly && target.readOnly) && h.targetLen <= |target.bytes| - target.pos))
      && (r.Ok? ==> e.Ok? && r.value.0.bytes[target.pos..r.value.0.pos] == e.value.target.bytes && r.value.1 == e.value.cache)
  {
    var w :- Execute(StartWindow(h, c), table);
    var target' :- Write(target, w.target.bytes, cfg.enforceReadOnly);
    WriteReadBack(target, w.target.bytes, cfg.enforceReadOnly);
    Ok((target', w.cache))
  }

  /** `decodeWindow`: nothing at the end of the patch; otherwise one window decoded and
      written to the target stream. */
  function DecodeWindow(d: Decoder, cfg: Config): (r: Result<Option<Decoder>>)
    requires d.Valid()
    ensures d.patch.pos == |d.patch.bytes| ==> r == Ok(None)
    ensures r == Ok(None) ==> d.patch.pos == |d.patch.bytes|
    ensures r.Ok? && r.value.Some? ==> var d' := r.value.value;
      && d'.Valid() && d'.table == d.table && (d'.origin.Some? <==> d.origin.Some?)
      && d'.patch.bytes == d.patch.bytes && d'.patch.pos > d.patch.pos
      && |d'.target.bytes| == |d.target.bytes| && d'.target.readOnly == d.target.readOnly
      && |d'.cache.near| == |d.cache.near| && d'.cache.sameSize == d.cache.sameSize
  {
    if d.patch.pos == |d.patch.bytes| then Ok(None)
    else
      var wi := d.patch.bytes[d.patch.pos];
      var d' :- NextWindow(d.(patch := d.patch.(pos := d.patch.pos + 1)), wi, cfg);
      Ok(Some(d'))
  }

  /** A window after its indicator `wi`, on the decoder: the streams and the cache
      move on, and the code table stays. */
  function NextWindow(d: Decoder, wi: byte, cfg: Config): (r: Result<Decoder>)
    requires d.Valid()
    ensures r.Ok? ==> var d' := r.value;
      && d'.Valid() && d'.table == d.table && (d'.origin.Some? <==> d.origin.Some?)
      && d'.patch.bytes == d.patch.bytes && d'.patch.pos > d.patch.pos
      && |d'.target.bytes| == |d.target.bytes| && d'.target.readOnly == d.target.readOnly
      && |d'.cache.near| == |d.cache.near| && d'.cache.sameSize == d.cache.sameSize
  {
    var (io, c') :- WindowBody(Streams(d.origin, d.patch, d.target), wi, d.table, d.cache, cfg);
    Ok(Decoder(io.origin, io.patch, io.target, d.table, c'))
  }

  /** A window after its indicator byte `wi`: the header, the instruction loop, and the
      target window written to the target stream. */
  function WindowBody(io: Streams, wi: byte, table: seq<Row>, c: Cache, cfg: Config): (r: Result<(Streams, Cache)>)
    requires io.Valid() && |table| == 256 && c.Valid()
    ensures r.Ok? ==> var (io', c') := r.value;
      && io'.Valid() && (io'.origin.Some? <==> io.origin.Some?)
      && io'.patch.bytes == io.patch.bytes && io'.patch.pos > io.patch.pos
      && |io'.target.bytes| == |io.target.bytes| && io'.target.readOnly == io.target.readOnly
      && c'.Valid() && |c'.near| == |c.near| && c'.sameSize == c.sameSize
  {
    var (h, io1) :- ReadWindowHeader(io, wi);
    var (target', c') :- FinishWindow(h, io1.target, table, c, cfg);
    Ok((io1.(target := target'), c'))
  }

  /** `while (decodeWindow());`. */
  function Windows(d: Decoder, cfg: Config): (r: Result<Decoder>)
    requires d.Valid()
    ensures r.Ok? ==> r.value.Valid() && r.value.patch.pos == |d.patch.bytes| && r.value.patch.bytes == d.patch.bytes
    ensures r.Ok? ==> |r.value.target.bytes| == |d.target.bytes| && r.value.table == d.table
    decreases |d.patch.bytes| - d.patch.pos
  {
    var next :- DecodeWindow(d, cfg);
    if next.None? then Ok(d) else Windows(next.value, cfg)
  }

  /** The private `decode()`: the header, then every window. */
  function Run(d: Decoder, cfg: Config): (r: Result<Decoder>)
    requires d.Valid()
    ensures r.Ok? ==> r.value.Valid() && |r.value.target.bytes| == |d.target.bytes|
    ensures r.Ok? ==> r.value.patch.bytes == d.patch.bytes && r.value.patch.pos == |d.patch.bytes|
    decreases |d.patch.bytes|, 4
  {
    var d' :- ReadHeader(d, cfg);
    Windows(d', cfg)
  }

  /** `VcdiffDecoder.decode(origin, patch, target, memorySaving)`: a new decoder over the
      three streams, run to the end of the patch. */
  function Decode(origin: Option<Store>, patch: Store, target: Store, cfg: Config): (r: Result<Decoder>)
    requires (origin.Some? ==> origin.value.Valid()) && patch.Valid() && target.Valid()
    ensures r.Ok? ==> r.value.Valid() && |r.value.target.bytes| == |target.bytes|
    ensures r.Ok? ==> r.value.patch.bytes == patch.bytes && r.value.patch.pos == |patch.bytes|
    decreases |patch.bytes|, 5
  {
    Run(Initial(origin, patch, target), cfg)
  }

  /** Every window decodes its addresses against a freshly reset cache: what earlier
      windows left in it makes no difference. */
  lemma WindowIgnoresCache(h: WindowHeader, target: Store, table: seq<Row>, c: Cache, c': Cache, cfg: Config)
    requires target.Valid() && |table| == 256 && c.Valid() && c'.Valid()
    requires |c.near| == |c'.near| && c.sameSize == c'.sameSize
    ensures FinishWindow(h, target, table, c, cfg) == FinishWindow(h, target, table, c', cfg)
  {
    assert StartWindow(h, c) == StartWindow(h, c');
  }

  /** The two revisions decode a window to the same result whenever the target stream
      was not opened read-only. */
  lemma RevisionsAgreeOnWritableTarget(d: Decoder)
    requires d.Valid() && !d.target.readOnly
    ensures DecodeWindow(d, MainConfig) == DecodeWindow(d, LegacyConfig)
  {
  }
}
