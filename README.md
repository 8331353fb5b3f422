# VCDIFF decoder (jvcdiff), modelled in Dafny

This project models the decoding side of jvcdiff, a Java implementation of the VCDIFF
generic differencing format of RFC 3284. A decoder reads a delta (the *patch*), an
optional dictionary (the *origin* or source file) and writes the reconstructed file to a
*target* stream. The model covers two revisions of the decoder that live side by side in
the repository:

- the main revision (`net.dongliu.jvcdiff.vcdiff`): `VcdiffDecoder`, its `CodeTable` with
  the default instruction table, `Instruction`, and `IOUtils` (varints, byte reads,
  stream views, big- and little-endian integer helpers);
- the legacy revision (`com.wandoujia.mms.patch.vcdiff`): its `VcdiffDecoder`,
  `AddressCache`, `IOUtils`, and the two in-memory streams `ByteBufferSeekableStream`
  and `ByteArraySeekableStream`.

The model is layered the way the Java code is:

- `java_int.dfy` (Java `int`/`short`/`byte` arithmetic, wrap-around written out),
  `varint.dfy` (the base-128 integers of section 2 of RFC 3284), `stores.dfy` (a
  stream as a value: bytes, position, read-only flag) and `errors.dfy` (one error per
  kind of exception the decoder can throw);
- the stream classes `ByteBufferStreams.ByteBufferStream` and
  `ByteArrayStreams.ByteArrayStream`, proved against `Stores`, and the `IOUtils`
  methods of both revisions (`MainIO`, `LegacyIO`);
- `Instructions` and `CodeTables` (the code table of section 5.6 of RFC 3284, its
  1536-byte serialization and the byte constructor that parses it back);
- `AddressModes` (the address cache of section 5.3 of RFC 3284, on values) and the
  `AddressCaches.AddressCache` class with its `near` and `same` arrays;
- `Interpreter`: the instruction loop of one window (ADD, RUN, COPY with overlapping
  copies) on values;
- `Decoding`: the whole decode on values (header, custom code table decoded as a delta
  against the default table, windows, source segments, sections), with a `Config`
  telling the two revisions apart;
- `Output`: what a decode writes to the target stream (each window's bytes after the
  bytes already there, zeros where the instructions wrote nothing), and a whole patch
  decoded end to end;
- `MainDecoder` and `LegacyDecoder`: each revision's `VcdiffDecoder` class and the
  statements of its `decodeWindow`, as imperative methods over the stream objects,
  each proved to end in exactly the state the `Decoding` and `Interpreter` functions
  describe.

As modelled, the two revisions differ in one respect that shows in the result: the
main revision's target is a `ByteBufferSeekableStream`, whose writes are refused when it
is read-only, while the legacy revision's target is a `ByteArraySeekableStream`, which
never refuses a write. `Decoding.RevisionsAgreeOnWritableTarget` proves that on a
writable target the two decode a window identically. The Java main revision differs in
one more way: in memory-saving mode a negative section or source length rewinds the
patch instead of failing (see "## Findings"); the model's main decoder uses the
corrected `MainIO.GetStreamView`, which fails as the copying path does.

The Java code is followed where the RFC and the code differ: a window's checksum bytes
are skipped without being checked, a source segment is cut short at the end of the
dictionary instead of failing, `sourceLen + sourcePos` is compared as a wrapping Java
`int`, and an address-cache slot is chosen with Java's `%`, which is negative for a
negative address (an `ArrayIndexOutOfBoundsException`).

## Model

| member | source | states |
|---|---|---|
| Instructions.InstructionType.Op | src/main/java/net/dongliu/jvcdiff/vcdiff/Instruction.java:10-21 | each constant has its own type byte 0..3, and only NO_OP has 0 |
| Instructions.TypeOf | src/main/java/net/dongliu/jvcdiff/vcdiff/Instruction.java:35-53 | type bytes 0..3 name NO_OP, ADD, RUN, COPY (and give back the same byte through `getOp`); any other byte is an IllegalArgumentException |
| Instructions.FromBytes | src/main/java/net/dongliu/jvcdiff/vcdiff/Instruction.java:35-57 | the byte constructor succeeds exactly for type bytes 0..3, and the getters return the type, size and mode it was given |
| Instructions.TypeOfOp | src/main/java/net/dongliu/jvcdiff/vcdiff/Instruction.java:10-53 | round trip: the type byte of every constant maps back to that constant |
| CodeTables.DefaultEntry | src/main/java/net/dongliu/jvcdiff/vcdiff/codetable/CodeTable.java:66-117 | every default entry has size 0..18, mode 0..8 only on COPY, NO_OP exactly as the second half of entries 0..162, and size 0 on a non-NO_OP exactly at entries 0, 1, 19+16m |
| CodeTables.DefaultTable | src/main/java/net/dongliu/jvcdiff/vcdiff/codetable/CodeTable.java:66-117 | 256 rows, row `i` holding the two default entries of index `i` |
| CodeTables.DefaultAddOnly | src/main/java/net/dongliu/jvcdiff/vcdiff/codetable/CodeTable.java:75-78 | entries 1..18 are ADD of size i-1 followed by NO_OP |
| CodeTables.DefaultCopyOnly | src/main/java/net/dongliu/jvcdiff/vcdiff/codetable/CodeTable.java:80-90 | entries 19..162 are COPY in modes 0..8, followed by NO_OP: size 0 at 19+16*mode, sizes 4..18 at 19+16*mode+size-3 |
| CodeTables.DefaultAddCopy | src/main/java/net/dongliu/jvcdiff/vcdiff/codetable/CodeTable.java:93-100 | entries 163..234 are ADD 1..4 then COPY 4..6 in modes 0..5, copy size varying fastest |
| CodeTables.DefaultAddCopyFar | src/main/java/net/dongliu/jvcdiff/vcdiff/codetable/CodeTable.java:103-108 | entries 235..246 are ADD 1..4 then COPY 4 in modes 6..8 |
| CodeTables.DefaultCopyAdd | src/main/java/net/dongliu/jvcdiff/vcdiff/codetable/CodeTable.java:111-114 | entries 247..255 are COPY 4 in modes 0..8 then ADD 1 |
| CodeTables.TypePlane | src/main/java/net/dongliu/jvcdiff/vcdiff/codetable/CodeTable.java:122-123 | plane byte `i` is the type byte of half `half` of row `i` |
| CodeTables.SizePlane | src/main/java/net/dongliu/jvcdiff/vcdiff/codetable/CodeTable.java:124-125 | plane byte `i` is the size byte of half `half` of row `i`, as an unsigned byte |
| CodeTables.ModePlane | src/main/java/net/dongliu/jvcdiff/vcdiff/codetable/CodeTable.java:126-127 | plane byte `i` is the mode byte of half `half` of row `i`, as an unsigned byte |
| CodeTables.Serialize | src/main/java/net/dongliu/jvcdiff/vcdiff/codetable/CodeTable.java:119-130 | `getBytes` on a table is 1536 bytes long |
| CodeTables.SerializeLayout | src/main/java/net/dongliu/jvcdiff/vcdiff/codetable/CodeTable.java:121-128 | the six fields of row `i` land at `i`, `i+256`, `i+512`, `i+768`, `i+1024`, `i+1280` |
| CodeTables.SerializeCover | src/main/java/net/dongliu/jvcdiff/vcdiff/codetable/CodeTable.java:119-130 | every one of the 1536 bytes is one field of one row |
| CodeTables.InstAt | src/main/java/net/dongliu/jvcdiff/vcdiff/codetable/CodeTable.java:21-22 | the instruction built from three table bytes has that type byte and the signed size and mode bytes |
| CodeTables.Parse | src/main/java/net/dongliu/jvcdiff/vcdiff/codetable/CodeTable.java:19-24 | `new CodeTable(bytes)` succeeds exactly when the 512 type bytes are all 0..3 (IllegalArgumentException otherwise) and gives 256 rows |
| CodeTables.ParseSerialize | src/main/java/net/dongliu/jvcdiff/vcdiff/codetable/CodeTable.java:19-24 | round trip: `new CodeTable(t.getBytes())` is `t` |
| CodeTables.SerializeParse | src/main/java/net/dongliu/jvcdiff/vcdiff/codetable/CodeTable.java:119-130 | round trip: the bytes of a table parsed from 1536 bytes are those bytes |
| CodeTables.SerializeFromPlanes | src/main/java/net/dongliu/jvcdiff/vcdiff/codetable/CodeTable.java:119-130 | an array whose every row column holds that row's six bytes, as `getBytes` fills it, is the serialization |
| CodeTables.CodeTable.FromEntries | src/main/java/net/dongliu/jvcdiff/vcdiff/codetable/CodeTable.java:26-28 | the private constructor holds the given 256 x 2 entries |
| CodeTables.CodeTable.Get | src/main/java/net/dongliu/jvcdiff/vcdiff/codetable/CodeTable.java:132-134 | `get(index, i)` is half `i` of row `index` of the table |
| CodeTables.CodeTable.BuildDefault | src/main/java/net/dongliu/jvcdiff/vcdiff/codetable/CodeTable.java:66-117 | the builder with its running index produces exactly the default table |
| CodeTables.CodeTable.PutRow | src/main/java/net/dongliu/jvcdiff/vcdiff/codetable/CodeTable.java:71-72 | one row assignment extends the filled prefix of the default table by one |
| CodeTables.CodeTable.FillAdds | src/main/java/net/dongliu/jvcdiff/vcdiff/codetable/CodeTable.java:75-78 | the ADD loop fills entries 1..18 of the default table |
| CodeTables.CodeTable.FillCopies | src/main/java/net/dongliu/jvcdiff/vcdiff/codetable/CodeTable.java:80-90 | the COPY loops fill entries 19..162 of the default table |
| CodeTables.CodeTable.FillAddCopies | src/main/java/net/dongliu/jvcdiff/vcdiff/codetable/CodeTable.java:93-100 | the ADD/COPY loops fill entries 163..234 of the default table |
| CodeTables.CodeTable.FillAddCopiesFar | src/main/java/net/dongliu/jvcdiff/vcdiff/codetable/CodeTable.java:103-108 | the ADD/COPY loops for modes 6..8 fill entries 235..246 |
| CodeTables.CodeTable.FillCopyAdds | src/main/java/net/dongliu/jvcdiff/vcdiff/codetable/CodeTable.java:111-114 | the COPY/ADD loop fills entries 247..255 |
| CodeTables.CodeTable.FromBytes | src/main/java/net/dongliu/jvcdiff/vcdiff/codetable/CodeTable.java:19-24 | the byte constructor succeeds exactly when the bytes parse, with IllegalArgumentException otherwise, and holds the parsed table |
| CodeTables.CodeTable.GetBytes | src/main/java/net/dongliu/jvcdiff/vcdiff/codetable/CodeTable.java:119-130 | `getBytes` returns a new array holding the serialization of the table |
| CodeTables.PutColumn | src/main/java/net/dongliu/jvcdiff/vcdiff/codetable/CodeTable.java:122-127 | one loop turn of `getBytes` writes row `i`'s six bytes and leaves every other column alone |
| JavaInt.Wrap32 | src/main/java/net/dongliu/jvcdiff/vcdiff/VcdiffDecoder.java:209 | Java `int` arithmetic: in-range values are unchanged, others wrap modulo 2^32 |
| JavaInt.JavaRem | src/com/wandoujia/mms/patch/vcdiff/AddressCache.java:98 | Java `%`: equal to Dafny's for a non-negative dividend, in (-n, 0] for a negative one |
| Varint.Parse | src/main/java/net/dongliu/jvcdiff/vcdiff/io/IOUtils.java:58-73 | a varint is at most five bytes, all but the last with the high bit set, and its value is the base-128 value of its digits; otherwise InvalidVarint or Bounds |
| Varint.ParseErrors | src/main/java/net/dongliu/jvcdiff/vcdiff/io/IOUtils.java:58-73 | exactly five continuation bytes give InvalidVarint (the IOException); running out of data first gives Bounds |
| Varint.ParseSteps | src/main/java/net/dongliu/jvcdiff/vcdiff/io/IOUtils.java:60-70 | after `k` continuation bytes the loop stops with InvalidVarint at five, fails at the end of data, or finishes on a byte below 0x80 |
| Varint.Encode | src/main/java/net/dongliu/jvcdiff/vcdiff/io/IOUtils.java:58-73 | the shortest encoding: continuation bits on all bytes but the last, base-128 value `v`, at most five bytes below 2^35 |
| Varint.ParseEncode | src/main/java/net/dongliu/jvcdiff/vcdiff/io/IOUtils.java:58-73 | round trip: parsing the encoding of `v` gives `v` and consumes exactly the encoding |
| Varint.FourBytesNeverWrap | src/main/java/net/dongliu/jvcdiff/vcdiff/io/IOUtils.java:66 | a varint of at most four bytes is below 2^28, so the `int` accumulator never wraps on it |
| Varint.ReadFrom | src/main/java/net/dongliu/jvcdiff/vcdiff/io/IOUtils.java:58-73 | the loop from position `q` ends strictly after `q` and within the five-byte budget |
| Stores.Seek | src/com/wandoujia/mms/patch/vcdiff/ByteArraySeekableStream.java:25-30 | a seek succeeds exactly for positions 0..length (IOException otherwise) and only moves the position |
| Stores.ReadByte | src/com/wandoujia/mms/patch/vcdiff/IOUtils.java:42-49 | succeeds exactly when a byte is left; it yields the byte at the position and moves the position by one, changing nothing else |
| Stores.ReadBytes | src/com/wandoujia/mms/patch/vcdiff/IOUtils.java:22-34 | succeeds exactly when `n` is not negative and at most the bytes left; it yields exactly the `n` bytes from the position and moves the position by `n`, changing nothing else |
| Stores.ReadVarint | src/com/wandoujia/mms/patch/vcdiff/IOUtils.java:56-71 | a varint read moves the position forward by one to five bytes and changes nothing else |
| Stores.ReadVarintParse | src/com/wandoujia/mms/patch/vcdiff/IOUtils.java:56-71 | the byte-by-byte loop with its wrapping `int` accumulator reads exactly the varint `Varint.Parse` describes, wrapped to 32 bits |
| Stores.VarintLoopTurn | src/com/wandoujia/mms/patch/vcdiff/IOUtils.java:58-69 | one loop turn: -1 fails, a byte below 0x80 finishes, and `(ret << 7) | (b & 0x7f)` stays in step with the exact value |
| Stores.ReadVarintEncoded | src/com/wandoujia/mms/patch/vcdiff/IOUtils.java:56-71 | round trip: reading an encoded value gives it back as the Java `int` and consumes the encoding |
| Stores.Write | src/com/wandoujia/mms/patch/vcdiff/ByteBufferSeekableStream.java:77-90 | succeeds exactly when read-only is not enforced on a read-only store and the data fits the room left (ReadOnlyStore or Bounds otherwise); keeps the length and flag and moves the position past the data |
| Stores.WriteOne | src/com/wandoujia/mms/patch/vcdiff/ByteBufferSeekableStream.java:85-90 | writing one byte replaces the byte at the position |
| Stores.WriteReadBack | src/com/wandoujia/mms/patch/vcdiff/ByteArraySeekableStream.java:66-84 | round trip: seeking back and reading after a write gives the written bytes, and the bytes around them are untouched |
| Stores.WriteConcat | src/com/wandoujia/mms/patch/vcdiff/ByteArraySeekableStream.java:66-84 | writing `x` then `y` is writing `x + y` |
| Stores.ReadBytesSplit | src/com/wandoujia/mms/patch/vcdiff/IOUtils.java:81-94 | reading `m` bytes then `n` is reading `m + n` at once |
| ArrayCopy.Put | src/com/wandoujia/mms/patch/vcdiff/ByteArraySeekableStream.java:81 | `System.arraycopy` of a chunk read beforehand: it lands at `at`, the rest of the array unchanged |
| ByteArrayStreams.ByteArrayStream.constructor | src/com/wandoujia/mms/patch/vcdiff/ByteArraySeekableStream.java:19-22 | a stream over the whole array at position 0, with the given read-only flag |
| ByteArrayStreams.ByteArrayStream.Length | src/com/wandoujia/mms/patch/vcdiff/ByteArraySeekableStream.java:96-98 | `length()` is the array length |
| ByteArrayStreams.ByteArrayStream.Seek | src/com/wandoujia/mms/patch/vcdiff/ByteArraySeekableStream.java:25-30 | as `Stores.Seek`: 0..length accepted, the IOException otherwise, the position unchanged on failure |
| ByteArrayStreams.ByteArrayStream.ReadOne | src/com/wandoujia/mms/patch/vcdiff/VcdiffDecoder.java:140-144 | the next byte and the position past it, or -1 at the end with nothing moved |
| ByteArrayStreams.ByteArrayStream.Read | src/com/wandoujia/mms/patch/vcdiff/ByteArraySeekableStream.java:44-63 | IndexOutOfBounds when the range does not fit the destination, 0 for an empty request, -1 at the end, otherwise min(length, remaining) bytes copied and the position moved |
| ByteArrayStreams.ByteArrayStream.Write | src/com/wandoujia/mms/patch/vcdiff/ByteArraySeekableStream.java:66-84 | succeeds exactly when the range fits the source and enough room remains; then it is `Stores.Write` of the range, without a read-only check; a failure changes nothing |
| ByteArrayStreams.ByteArrayStream.WriteByte | src/com/wandoujia/mms/patch/vcdiff/ByteArraySeekableStream.java:87-93 | succeeds exactly before the end of the array, writing the byte at the position |
| ByteBufferStreams.ByteBufferStream.Wrap | src/com/wandoujia/mms/patch/vcdiff/ByteBufferSeekableStream.java:29-32 | a stream over the whole array, position 0, with the given read-only flag |
| ByteBufferStreams.ByteBufferStream.View | src/com/wandoujia/mms/patch/vcdiff/ByteBufferSeekableStream.java:34-37 | a stream over a window of an array shared with its parent, position 0, writable |
| ByteBufferStreams.ByteBufferStream.Length | src/com/wandoujia/mms/patch/vcdiff/ByteBufferSeekableStream.java:93-95 | `length()` is the limit |
| ByteBufferStreams.ByteBufferStream.Seek | src/com/wandoujia/mms/patch/vcdiff/ByteBufferSeekableStream.java:40-45 | as `Stores.Seek` over the bytes up to the limit |
| ByteBufferStreams.ByteBufferStream.ReadOne | src/com/wandoujia/mms/patch/vcdiff/ByteBufferSeekableStream.java:108-114 | the next byte and the position past it, or -1 at the limit with nothing moved |
| ByteBufferStreams.ByteBufferStream.Read | src/com/wandoujia/mms/patch/vcdiff/ByteBufferSeekableStream.java:59-74 | -1 when nothing remains; otherwise min(length, remaining) bytes copied to the destination, failing for a negative count or a range outside the destination |
| ByteBufferStreams.ByteBufferStream.Write | src/com/wandoujia/mms/patch/vcdiff/ByteBufferSeekableStream.java:77-82 | UnsupportedOperationException when read-only; otherwise `Stores.Write` of the source range, and only the window of the backing array changes |
| ByteBufferStreams.ByteBufferStream.WriteByte | src/com/wandoujia/mms/patch/vcdiff/ByteBufferSeekableStream.java:85-90 | refused when read-only, an overflow at the limit, otherwise one byte written at the position |
| ByteBufferStreams.ByteBufferStream.Slice | src/com/wandoujia/mms/patch/vcdiff/ByteBufferSeekableStream.java:117-127 | as written: the view shares the next `n` bytes and the position moves past them; a negative `n` is accepted (see Findings) |
| ByteBufferStreams.SliceReadsLikeReadBytes | src/com/wandoujia/mms/patch/vcdiff/ByteBufferSeekableStream.java:117-127 | for `n >= 0` slicing reads exactly what `readBytes` reads |
| ByteBufferStreams.NegativeSliceRewinds | src/com/wandoujia/mms/patch/vcdiff/ByteBufferSeekableStream.java:117-127 | counterexample: 12 bytes in, `slice(-6)` succeeds with an empty view and position 0, where `readBytes(-6)` fails |
| MainIO.ReadBytes | src/main/java/net/dongliu/jvcdiff/vcdiff/io/IOUtils.java:106-119 | a new array holding exactly what `Stores.ReadBytes` reads, and the stream after it; every failure as `Stores.ReadBytes` |
| MainIO.ReadByte | src/main/java/net/dongliu/jvcdiff/vcdiff/io/IOUtils.java:44-51 | the result is `Stores.ReadByte` of the stream |
| MainIO.Read7bitIntBE | src/main/java/net/dongliu/jvcdiff/vcdiff/io/IOUtils.java:58-74 | the loop returns exactly `Stores.ReadVarint` of the stream |
| MainIO.GetStreamView | src/main/java/net/dongliu/jvcdiff/vcdiff/io/IOUtils.java:128-135 | both the copy path and the share path give a view at position 0 holding exactly what `readBytes` reads, with the same failures |
| MainIO.Copy | src/main/java/net/dongliu/jvcdiff/vcdiff/io/IOUtils.java:150-154 | a read of `size` bytes followed by a write of them; fails as the read or the write does |
| MainIO.MakeInt | src/main/java/net/dongliu/jvcdiff/vcdiff/io/IOUtils.java:160-162 | the `int` whose two's-complement bytes are the four given, most significant first |
| MainIO.MakeShort | src/main/java/net/dongliu/jvcdiff/vcdiff/io/IOUtils.java:168-170 | the `short` of the two bytes, the high byte sign-carrying |
| MainIO.MakeIntB | src/main/java/net/dongliu/jvcdiff/vcdiff/io/IOUtils.java:176-181 | IllegalArgument when `4 + pos` (Java sum) exceeds the length, Bounds for an index outside the array, else the big-endian `int` at `pos` |
| MainIO.MakeIntS | src/main/java/net/dongliu/jvcdiff/vcdiff/io/IOUtils.java:187-192 | as `MakeIntB`, little-endian |
| MainIO.MakeShortS | src/main/java/net/dongliu/jvcdiff/vcdiff/io/IOUtils.java:195-200 | IllegalArgument when `2 + pos` exceeds the length, else the little-endian `short` at `pos` |
| MainIO.MakeIntBBytes | src/main/java/net/dongliu/jvcdiff/vcdiff/io/IOUtils.java:176-181 | round trip: `makeIntB` reads back any `int` written big-endian anywhere in an array |
| MainIO.MakeIntSBytes | src/main/java/net/dongliu/jvcdiff/vcdiff/io/IOUtils.java:187-192 | round trip: `makeIntS` reads back any `int` written little-endian |
| MainIO.MakeShortSBytes | src/main/java/net/dongliu/jvcdiff/vcdiff/io/IOUtils.java:195-200 | round trip: `makeShortS` reads back any `short` written little-endian |
| MainIO.BytesValue | src/main/java/net/dongliu/jvcdiff/vcdiff/io/IOUtils.java:160-162 | `makeInt` of the four bytes of `x` is `x` |
| LegacyIO.ReadBytes | src/com/wandoujia/mms/patch/vcdiff/IOUtils.java:81-94 | a new array holding exactly what `Stores.ReadBytes` reads, and the stream after it |
| LegacyIO.ReadByte | src/com/wandoujia/mms/patch/vcdiff/IOUtils.java:42-49 | the result is `Stores.ReadByte` of the stream |
| LegacyIO.Read7bitIntBE | src/com/wandoujia/mms/patch/vcdiff/IOUtils.java:56-72 | the loop returns exactly `Stores.ReadVarint` of the stream |
| AddressModes.Reset | src/com/wandoujia/mms/patch/vcdiff/AddressCache.java:43-47 | every near and same slot is 0, the cursor is 0, the sizes are kept |
| AddressModes.Fresh | src/com/wandoujia/mms/patch/vcdiff/AddressCache.java:36-41 | a new cache has the given sizes and is already reset |
| AddressModes.Update | src/com/wandoujia/mms/patch/vcdiff/AddressCache.java:92-100 | the address enters the near ring at the cursor, which advances modulo nearSize, and the same table at `address % (sameSize*256)`; nothing else changes; a negative slot is an error |
| AddressModes.LookUp | src/com/wandoujia/mms/patch/vcdiff/AddressCache.java:58-82 | a mode above nearSize+sameSize+1 is the RuntimeException, a negative mode an index error, a same mode reads exactly one byte; the address stream only moves forward |
| AddressModes.DecodeAddress | src/com/wandoujia/mms/patch/vcdiff/AddressCache.java:58-86 | the address is the look-up's, and the cache is the look-up address's update |
| AddressModes.LookUpSelf | src/com/wandoujia/mms/patch/vcdiff/AddressCache.java:61-63 | mode 0 round trip: an address written as a varint decodes to itself |
| AddressModes.LookUpHere | src/com/wandoujia/mms/patch/vcdiff/AddressCache.java:64-66 | mode 1 round trip: `here - addr` written as a varint decodes to `addr` |
| AddressModes.LookUpNear | src/com/wandoujia/mms/patch/vcdiff/AddressCache.java:67-70 | near-mode round trip: an offset from ring slot `m` decodes with mode `m + 2` |
| AddressModes.LookUpSameAfterUpdate | src/com/wandoujia/mms/patch/vcdiff/AddressCache.java:74-78 | same-mode round trip: after `update(addr)` the byte naming its slot decodes to `addr` |
| AddressCaches.AddressCache.constructor | src/com/wandoujia/mms/patch/vcdiff/AddressCache.java:36-41 | the arrays hold `AddressModes.Fresh` of the sizes, and no address stream yet |
| AddressCaches.AddressCache.Reset | src/com/wandoujia/mms/patch/vcdiff/AddressCache.java:43-49 | the arrays hold `AddressModes.Reset` of the old cache, and a new read-only stream is over the address section |
| AddressCaches.AddressCache.Fill | src/com/wandoujia/mms/patch/vcdiff/AddressCache.java:45-46 | `Arrays.fill(a, 0)` zeroes the whole array |
| AddressCaches.AddressCache.Update | src/com/wandoujia/mms/patch/vcdiff/AddressCache.java:92-100 | the arrays hold `AddressModes.Update` of the old cache, with the same failure |
| AddressCaches.AddressCache.LookUp | src/com/wandoujia/mms/patch/vcdiff/AddressCache.java:58-82 | the address and the stream afterwards are `AddressModes.LookUp`'s |
| AddressCaches.AddressCache.DecodeAddress | src/com/wandoujia/mms/patch/vcdiff/AddressCache.java:58-86 | result, new cache and address stream are `AddressModes.DecodeAddress`'s |
| Interpreter.Repeat | src/main/java/net/dongliu/jvcdiff/vcdiff/VcdiffDecoder.java:305-307 | `size` copies of the byte, none for `size <= 0` |
| Interpreter.ExecAdd | src/main/java/net/dongliu/jvcdiff/vcdiff/VcdiffDecoder.java:279-281 | ADD succeeds exactly when `size` is not negative and fits both the data left and the target room; it writes those data bytes at the write position and moves both positions |
| Interpreter.ExecRun | src/main/java/net/dongliu/jvcdiff/vcdiff/VcdiffDecoder.java:303-308 | RUN succeeds exactly when a data byte remains and `size` fits the target room; it writes `size` copies of that byte |
| Interpreter.CopyFromSource | src/com/wandoujia/mms/patch/vcdiff/VcdiffDecoder.java:269-270 | COPY from the source segment succeeds exactly when `[addr, addr+size)` is inside the segment and fits the target room, and writes those bytes |
| Interpreter.CopyBytes | src/main/java/net/dongliu/jvcdiff/vcdiff/VcdiffDecoder.java:297-299 | the byte loop succeeds exactly when `size <= 0` or `[a, a+size)` is inside the window and fits the room; the position moves by `size` |
| Interpreter.CopyBytesRepeats | src/main/java/net/dongliu/jvcdiff/vcdiff/VcdiffDecoder.java:293-299 | after an overlapping copy each written byte equals the byte `pos - a` before it: the pattern between `a` and the position repeats |
| Interpreter.CopyBytesStep | src/main/java/net/dongliu/jvcdiff/vcdiff/VcdiffDecoder.java:297-299 | one turn of the loop copies `bytes[a]` to the position |
| Interpreter.CopyBytesTurn | src/main/java/net/dongliu/jvcdiff/vcdiff/VcdiffDecoder.java:298 | one turn of the loop as a stream write of `targetData[addr]` |
| Interpreter.CopyBytesFrame | src/main/java/net/dongliu/jvcdiff/vcdiff/VcdiffDecoder.java:297-299 | a copy from before the position leaves the bytes before the position and after the copied range alone |
| Interpreter.CopyBytesNoOverlap | src/main/java/net/dongliu/jvcdiff/vcdiff/VcdiffDecoder.java:293-295 | when the copied range ends at or before the position the byte loop writes exactly that block |
| Interpreter.ExecCopy | src/main/java/net/dongliu/jvcdiff/vcdiff/VcdiffDecoder.java:282-302 | COPY decodes its address against `here`, the Java `int` sum of the write position and the declared source length; the cache and address stream become those of `AddressModes.DecodeAddress`, whose failure is COPY's; the target becomes `CopyAt`'s from the decoded address; the sections, source and cache sizes are kept |
| Interpreter.CopyAt | src/main/java/net/dongliu/jvcdiff/vcdiff/VcdiffDecoder.java:286-301 | an address below the source segment's length succeeds exactly when `[addr, addr+size)` lies in the segment and fits the room, and writes those segment bytes at the position; any other address copies within the target from `addr - sourceLen` (a Java `int` difference), writing what the byte loop `CopyBytes` writes; every failure is Bounds |
| Interpreter.CopyTarget | src/main/java/net/dongliu/jvcdiff/vcdiff/VcdiffDecoder.java:292-300 | when the Java sum `a + size` is before the position (the block write) it succeeds exactly when `size >= 0` and `[a, a+size)` is in the window and fits the room; otherwise (the byte loop) exactly when `size <= 0` or the same range condition holds; every success writes what the byte loop `CopyBytes` writes, so the block write never changes a result |
| Interpreter.Half | src/main/java/net/dongliu/jvcdiff/vcdiff/VcdiffDecoder.java:271-311 | one instruction keeps the target length, source and cache sizes, and consumes instruction bytes only for an explicit size |
| Interpreter.Execute | src/main/java/net/dongliu/jvcdiff/vcdiff/VcdiffDecoder.java:264-313 | the loop ends with the instruction section used up, the target length and cache sizes kept |
| Interpreter.CopyBytesForward | src/main/java/net/dongliu/jvcdiff/vcdiff/VcdiffDecoder.java:297-299 | a successful byte loop keeps the bytes before the position and writes nothing past the `size` bytes from it, wherever it reads from |
| Interpreter.CopyAtForward | src/main/java/net/dongliu/jvcdiff/vcdiff/VcdiffDecoder.java:286-301 | a COPY from either segment keeps the bytes before the position and writes nothing past its new position |
| Interpreter.HalfForward | src/main/java/net/dongliu/jvcdiff/vcdiff/VcdiffDecoder.java:271-311 | every instruction keeps the bytes before the position and writes nothing past its new position |
| Interpreter.ExecuteForward | src/main/java/net/dongliu/jvcdiff/vcdiff/VcdiffDecoder.java:264-313 | the whole loop keeps the bytes before its first position and writes nothing from its final position on |
| Interpreter.AddThenOverlappingCopy | src/main/java/net/dongliu/jvcdiff/vcdiff/VcdiffDecoder.java:279-300 | section 5.3 of RFC 3284: ADD "ab" then COPY 4 from 0 gives "ababab" |
| Decoding.Initial | src/main/java/net/dongliu/jvcdiff/vcdiff/VcdiffDecoder.java:22-34 | a new decoder has the default code table and a cache of 4 near and 3 same slots |
| Decoding.HeaderIndicator | src/main/java/net/dongliu/jvcdiff/vcdiff/VcdiffDecoder.java:86-109 | an accepted header is five bytes, the indicator being the fifth |
| Decoding.HeaderIndicatorCases | src/main/java/net/dongliu/jvcdiff/vcdiff/VcdiffDecoder.java:86-109 | fewer than four bytes, a bad magic, a nonzero version, a missing indicator, bit 0 and bits 3-7 each fail with their own error; every other indicator is accepted |
| Decoding.ReadHeader | src/main/java/net/dongliu/jvcdiff/vcdiff/VcdiffDecoder.java:86-124 | a read header keeps the target and dictionary and moves the patch at least five bytes |
| Decoding.HeaderTail | src/main/java/net/dongliu/jvcdiff/vcdiff/VcdiffDecoder.java:111-122 | the custom table and application header keep the target and dictionary and only move the patch forward |
| Decoding.ReadHeaderIndicator | src/main/java/net/dongliu/jvcdiff/vcdiff/VcdiffDecoder.java:86-124 | a failing indicator fails the header the same way; indicator 0 ends the header right after it |
| Decoding.SkipApplicationHeader | src/main/java/net/dongliu/jvcdiff/vcdiff/VcdiffDecoder.java:117-122 | the application header is its length as a varint and then exactly that many bytes: it succeeds exactly when the length is not negative and that many bytes follow, and then the patch moves past them and nothing else changes |
| Decoding.TableDelta | src/main/java/net/dongliu/jvcdiff/vcdiff/VcdiffDecoder.java:133-136 | the compressed table is the `int` value of the varint minus 2 (Java wrap-around) bytes long, read right after the near-size and same-size bytes; the patch moves past exactly those bytes |
| Decoding.TableOrigin | src/main/java/net/dongliu/jvcdiff/vcdiff/VcdiffDecoder.java:138-141 | the dictionary of the table delta: 1536 bytes (the default table's `getBytes`) |
| Decoding.TableTarget | src/main/java/net/dongliu/jvcdiff/vcdiff/VcdiffDecoder.java:143-144 | the target of the table delta: 1536 writable bytes |
| Decoding.DecompressTable | src/main/java/net/dongliu/jvcdiff/vcdiff/VcdiffDecoder.java:138-148 | a decompressed table is exactly 1536 bytes; fewer written is BadTableSize |
| Decoding.CustomTable | src/main/java/net/dongliu/jvcdiff/vcdiff/VcdiffDecoder.java:132-150 | a custom table is 256 rows whose serialization is exactly the decompressed delta, with the sizes read before it; the patch only moves forward |
| Decoding.ReadCodeTable | src/main/java/net/dongliu/jvcdiff/vcdiff/VcdiffDecoder.java:132-152 | succeeds exactly when `CustomTable` does; the code table becomes the custom table, the cache a fresh one of the near and same sizes the patch gives, the patch the position after it; target and dictionary kept |
| Decoding.SourceMode | src/main/java/net/dongliu/jvcdiff/vcdiff/VcdiffDecoder.java:168-171 | clearing bit 2 of the window indicator: the indicator or 4 less |
| Decoding.ReadSource | src/main/java/net/dongliu/jvcdiff/vcdiff/VcdiffDecoder.java:196-219 | mode 0 reads nothing and changes nothing; otherwise a segment, with only stream positions moved and, in mode 2, the dictionary untouched |
| Decoding.SourceWindow | src/main/java/net/dongliu/jvcdiff/vcdiff/VcdiffDecoder.java:202-203 | two varints, the patch moved forward at least two bytes |
| Decoding.SourceSegment | src/main/java/net/dongliu/jvcdiff/vcdiff/VcdiffDecoder.java:205-213 | succeeds exactly when the position is in the stream, the declared length is not negative and the Java sum `sourceLen + sourcePos` does not overflow; it then yields the stream's bytes from the position, the declared length of them or as many as the stream holds, and moves only the position |
| Decoding.TargetLength | src/main/java/net/dongliu/jvcdiff/vcdiff/VcdiffDecoder.java:222-234 | after the ignored delta length and the target length, a missing delta indicator is Bounds, a nonzero one UnsupportedDeltaCompression, a negative target length Bounds (`new byte[targetLen]`); otherwise the target length and the patch one byte past the indicator |
| Decoding.SectionLengths | src/main/java/net/dongliu/jvcdiff/vcdiff/VcdiffDecoder.java:237-251 | three varints, then four checksum bytes when the window has them |
| Decoding.SectionData | src/main/java/net/dongliu/jvcdiff/vcdiff/VcdiffDecoder.java:253-258 | the three sections are read one after another: the patch moves past exactly their bytes |
| Decoding.ReadSections | src/main/java/net/dongliu/jvcdiff/vcdiff/VcdiffDecoder.java:222-258 | the sections and the target length, with the patch only moved forward |
| Decoding.ReadWindowHeader | src/main/java/net/dongliu/jvcdiff/vcdiff/VcdiffDecoder.java:162-258 | a source mode above 2 is BadWindowIndicator, mode 1 without a dictionary SourceRequired; the header keeps stream contents |
| Decoding.WindowHeaderParts | src/main/java/net/dongliu/jvcdiff/vcdiff/VcdiffDecoder.java:162-258 | a read header holds the source segment and declared length that `ReadSource` reads for the indicator's mode, and the target length and sections that `ReadSections` reads after them; the target stream is not moved |
| Decoding.StartWindow | src/main/java/net/dongliu/jvcdiff/vcdiff/VcdiffDecoder.java:234-262 | the loop starts from a zeroed target window, sections at 0 and a reset cache |
| Decoding.FinishWindow | src/main/java/net/dongliu/jvcdiff/vcdiff/VcdiffDecoder.java:264-317 | fails as the instruction loop fails; after it, succeeds exactly when the target accepts a write of `targetLen` bytes at its position; the bytes written are exactly the loop's target window, all `targetLen` of them, and the bytes before and after are kept |
| Decoding.DecodeWindow | src/main/java/net/dongliu/jvcdiff/vcdiff/VcdiffDecoder.java:154-325 | nothing at the end of the patch; otherwise one window, the patch strictly advanced |
| Decoding.NextWindow | src/main/java/net/dongliu/jvcdiff/vcdiff/VcdiffDecoder.java:162-324 | a window keeps the table, the target length and the cache sizes, and advances the patch |
| Decoding.WindowBody | src/main/java/net/dongliu/jvcdiff/vcdiff/VcdiffDecoder.java:162-324 | a window keeps stream contents except the target, and advances the patch |
| Decoding.Windows | src/main/java/net/dongliu/jvcdiff/vcdiff/VcdiffDecoder.java:83 | `while (decodeWindow())` ends with the whole patch consumed |
| Decoding.Run | src/main/java/net/dongliu/jvcdiff/vcdiff/VcdiffDecoder.java:81-84 | header then windows: the patch is consumed to the end |
| Decoding.Decode | src/main/java/net/dongliu/jvcdiff/vcdiff/VcdiffDecoder.java:72-79 | the whole decode from a new decoder consumes the patch to the end |
| Decoding.WindowIgnoresCache | src/main/java/net/dongliu/jvcdiff/vcdiff/VcdiffDecoder.java:262 | a window's result does not depend on what earlier windows left in the cache |
| Decoding.RevisionsAgreeOnWritableTarget | src/com/wandoujia/mms/patch/vcdiff/ByteBufferSeekableStream.java:77-90 | the read-only check is the only difference between the revisions: on a writable target they decode a window identically |
| Output.WindowZeroTail | src/main/java/net/dongliu/jvcdiff/vcdiff/VcdiffDecoder.java:234-317 | the bytes of a window that its instructions leave unwritten reach the target stream as zeros |
| Output.FinishWindowForward | src/main/java/net/dongliu/jvcdiff/vcdiff/VcdiffDecoder.java:317 | writing a window keeps the target bytes before its position and after the window |
| Output.WindowBodyWrites | src/main/java/net/dongliu/jvcdiff/vcdiff/VcdiffDecoder.java:162-317 | a window reads its header without moving the target stream, then writes what `FinishWindow` writes for that header |
| Output.NextWindowForward | src/main/java/net/dongliu/jvcdiff/vcdiff/VcdiffDecoder.java:162-317 | a window on the decoder keeps the target bytes before its position and after what it writes |
| Output.DecodeWindowNext | src/main/java/net/dongliu/jvcdiff/vcdiff/VcdiffDecoder.java:154-160 | before the end of the patch, `decodeWindow` decodes the window after the indicator byte it reads |
| Output.DecodeWindowForward | src/main/java/net/dongliu/jvcdiff/vcdiff/VcdiffDecoder.java:154-317 | each window keeps the target bytes before its position and after what it writes |
| Output.WindowsForward | src/main/java/net/dongliu/jvcdiff/vcdiff/VcdiffDecoder.java:83 | all windows together keep the target bytes before the first position and after the last one written |
| Output.DecodeForward | src/main/java/net/dongliu/jvcdiff/vcdiff/VcdiffDecoder.java:72-84 | a whole decode keeps the target bytes before the target's position and writes nothing after the last window |
| Output.ReadSmallVarint | src/main/java/net/dongliu/jvcdiff/vcdiff/io/IOUtils.java:58-72 | a one-byte varint below 0x80 is its own value |
| Output.ExampleDecode | src/main/java/net/dongliu/jvcdiff/vcdiff/VcdiffDecoder.java:72-317 | a one-window patch of ADD "ab" and an overlapping COPY of 4 from address 0 decodes, in either revision, to "ababab" |
| MainDecoder.VcdiffDecoder.constructor | src/main/java/net/dongliu/jvcdiff/vcdiff/VcdiffDecoder.java:22-34 | the decoder's state is `Decoding.Initial` of the streams |
| MainDecoder.VcdiffDecoder.Decode | src/main/java/net/dongliu/jvcdiff/vcdiff/VcdiffDecoder.java:72-79 | success, failure and final streams are exactly `Decoding.Decode` with the main configuration |
| MainDecoder.VcdiffDecoder.Run | src/main/java/net/dongliu/jvcdiff/vcdiff/VcdiffDecoder.java:81-84 | the decoder ends as `Decoding.Run` says |
| MainDecoder.VcdiffDecoder.Windows | src/main/java/net/dongliu/jvcdiff/vcdiff/VcdiffDecoder.java:83 | the loop ends as `Decoding.Windows` says |
| MainDecoder.VcdiffDecoder.ReadHeader | src/main/java/net/dongliu/jvcdiff/vcdiff/VcdiffDecoder.java:86-124 | the decoder after `readHeader` is `Decoding.ReadHeader`'s, with the same failure |
| MainDecoder.VcdiffDecoder.HeaderTail | src/main/java/net/dongliu/jvcdiff/vcdiff/VcdiffDecoder.java:111-122 | the decoder after the custom table and application header is `Decoding.HeaderTail`'s |
| MainDecoder.VcdiffDecoder.SkipAppHeader | src/main/java/net/dongliu/jvcdiff/vcdiff/VcdiffDecoder.java:117-122 | the patch is skipped as `Decoding.SkipApplicationHeader` says |
| MainDecoder.VcdiffDecoder.ReadCodeTable | src/main/java/net/dongliu/jvcdiff/vcdiff/VcdiffDecoder.java:132-152 | the new code table and cache are `Decoding.ReadCodeTable`'s |
| MainDecoder.VcdiffDecoder.DecompressTable | src/main/java/net/dongliu/jvcdiff/vcdiff/VcdiffDecoder.java:138-148 | a new 1536-byte array exactly when `Decoding.DecompressTable` succeeds, holding its bytes |
| MainDecoder.VcdiffDecoder.DecodeWindow | src/main/java/net/dongliu/jvcdiff/vcdiff/VcdiffDecoder.java:154-160 | `false` at the end of the patch with nothing changed, otherwise the decoder of `Decoding.DecodeWindow` |
| MainDecoder.VcdiffDecoder.NextIndicator | src/main/java/net/dongliu/jvcdiff/vcdiff/VcdiffDecoder.java:156-160 | -1 exactly at the end of the patch; otherwise the next byte, with the patch moved by one |
| MainDecoder.VcdiffDecoder.NextWindow | src/main/java/net/dongliu/jvcdiff/vcdiff/VcdiffDecoder.java:162-324 | the decoder after the window is `Decoding.NextWindow`'s |
| MainDecoder.DecodeWindowBody | src/main/java/net/dongliu/jvcdiff/vcdiff/VcdiffDecoder.java:162-324 | streams and cache after the window are `Decoding.WindowBody`'s |
| MainDecoder.ReadWindowHeader | src/main/java/net/dongliu/jvcdiff/vcdiff/VcdiffDecoder.java:162-258 | the header and streams are `Decoding.ReadWindowHeader`'s, the target window a new zeroed array |
| MainDecoder.ReadSource | src/main/java/net/dongliu/jvcdiff/vcdiff/VcdiffDecoder.java:196-219 | the source segment, declared length and streams are `Decoding.ReadSource`'s |
| MainDecoder.ReadSourceWindow | src/main/java/net/dongliu/jvcdiff/vcdiff/VcdiffDecoder.java:202-203 | the two varints are `Decoding.SourceWindow`'s |
| MainDecoder.ReadSections | src/main/java/net/dongliu/jvcdiff/vcdiff/VcdiffDecoder.java:222-258 | the sections are `Decoding.ReadSections`'s, the target window new and zeroed |
| MainDecoder.ReadTargetLength | src/main/java/net/dongliu/jvcdiff/vcdiff/VcdiffDecoder.java:222-235 | a new zeroed target window of `Decoding.TargetLength`'s length, with the same failures |
| MainDecoder.ReadSectionLengths | src/main/java/net/dongliu/jvcdiff/vcdiff/VcdiffDecoder.java:237-251 | the three lengths are `Decoding.SectionLengths`'s |
| MainDecoder.ReadSectionData | src/main/java/net/dongliu/jvcdiff/vcdiff/VcdiffDecoder.java:253-258 | the three sections are `Decoding.SectionData`'s |
| MainDecoder.StartLoop | src/main/java/net/dongliu/jvcdiff/vcdiff/VcdiffDecoder.java:234-262 | the loop's window is `Decoding.StartWindow` of the header and cache |
| MainDecoder.FinishWindow | src/main/java/net/dongliu/jvcdiff/vcdiff/VcdiffDecoder.java:264-317 | target and cache are `Decoding.FinishWindow`'s |
| MainDecoder.RunWindow | src/main/java/net/dongliu/jvcdiff/vcdiff/VcdiffDecoder.java:260-313 | the target window and cache are `Interpreter.Execute` from `Decoding.StartWindow` |
| MainDecoder.WriteWindow | src/main/java/net/dongliu/jvcdiff/vcdiff/VcdiffDecoder.java:317 | the target stream is `Stores.Write` of the whole target window |
| MainDecoder.ExecuteInstructions | src/main/java/net/dongliu/jvcdiff/vcdiff/VcdiffDecoder.java:264-313 | the loop's final window is `Interpreter.Execute` of its first |
| MainDecoder.Step | src/main/java/net/dongliu/jvcdiff/vcdiff/VcdiffDecoder.java:264-313 | one loop turn keeps `Interpreter.Execute` of the window invariant and strictly consumes the instruction section |
| MainDecoder.Entry | src/main/java/net/dongliu/jvcdiff/vcdiff/VcdiffDecoder.java:270-312 | both halves of the entry as `Interpreter.Half` twice |
| MainDecoder.NextIndex | src/main/java/net/dongliu/jvcdiff/vcdiff/VcdiffDecoder.java:265-268 | -1 exactly at the end of the instruction section; otherwise its next byte |
| MainDecoder.ExecuteHalf | src/main/java/net/dongliu/jvcdiff/vcdiff/VcdiffDecoder.java:271-311 | one instruction as `Interpreter.Half` |
| MainDecoder.ReadSize | src/main/java/net/dongliu/jvcdiff/vcdiff/VcdiffDecoder.java:272-275 | the size as `Interpreter.SizeOf` |
| MainDecoder.Add | src/main/java/net/dongliu/jvcdiff/vcdiff/VcdiffDecoder.java:279-281 | ADD as `Interpreter.ExecAdd` |
| MainDecoder.Run | src/main/java/net/dongliu/jvcdiff/vcdiff/VcdiffDecoder.java:303-308 | RUN as `Interpreter.ExecRun` |
| MainDecoder.WriteRun | src/main/java/net/dongliu/jvcdiff/vcdiff/VcdiffDecoder.java:305-307 | the write loop is `Stores.Write` of `Repeat(b, size)` |
| MainDecoder.CopyHalf | src/main/java/net/dongliu/jvcdiff/vcdiff/VcdiffDecoder.java:282-302 | COPY as `Interpreter.ExecCopy` |
| MainDecoder.DecodeAddress | src/main/java/net/dongliu/jvcdiff/vcdiff/VcdiffDecoder.java:283-285 | the address and cache as `AddressModes.DecodeAddress` |
| MainDecoder.CopyTo | src/main/java/net/dongliu/jvcdiff/vcdiff/VcdiffDecoder.java:286-301 | the copy as `Interpreter.CopyAt` on the window |
| MainDecoder.CopyAt | src/main/java/net/dongliu/jvcdiff/vcdiff/VcdiffDecoder.java:286-301 | the copy from the decoded address as `Interpreter.CopyAt` |
| MainDecoder.CopyInTarget | src/main/java/net/dongliu/jvcdiff/vcdiff/VcdiffDecoder.java:289-300 | the copy within the target as `Interpreter.CopyTarget` |
| MainDecoder.CopyWithin | src/main/java/net/dongliu/jvcdiff/vcdiff/VcdiffDecoder.java:297-299 | the byte loop as `Interpreter.CopyBytes` |
| MainDecoder.CopyByte | src/main/java/net/dongliu/jvcdiff/vcdiff/VcdiffDecoder.java:298 | one turn keeps `Interpreter.CopyBytes` of the rest invariant |
| MainDecoder.ReadIndicator | src/main/java/net/dongliu/jvcdiff/vcdiff/VcdiffDecoder.java:86-109 | the indicator and patch are `Decoding.HeaderIndicator`'s |
| MainDecoder.ReadCustomTable | src/main/java/net/dongliu/jvcdiff/vcdiff/VcdiffDecoder.java:132-150 | the table and sizes are `Decoding.CustomTable`'s |
| MainDecoder.ReadTableDelta | src/main/java/net/dongliu/jvcdiff/vcdiff/VcdiffDecoder.java:133-136 | the compressed table and sizes are `Decoding.TableDelta`'s |
| MainDecoder.SkipApplicationHeader | src/main/java/net/dongliu/jvcdiff/vcdiff/VcdiffDecoder.java:118-122 | the patch is moved as `Decoding.SkipApplicationHeader` says |
| MainDecoder.AddStreams | src/main/java/net/dongliu/jvcdiff/vcdiff/VcdiffDecoder.java:280 | ADD through `IOUtils.copy` from the data view to the target window, as `Interpreter.AddBytes` |
| MainDecoder.RunStreams | src/main/java/net/dongliu/jvcdiff/vcdiff/VcdiffDecoder.java:304-307 | RUN from the data view, as `Interpreter.RunBytes` |
| MainDecoder.CopySource | src/main/java/net/dongliu/jvcdiff/vcdiff/VcdiffDecoder.java:286-288 | COPY from the source view after a seek, as `Interpreter.CopyFromSource` |
| MainDecoder.SourceView | src/main/java/net/dongliu/jvcdiff/vcdiff/VcdiffDecoder.java:205-213 | the source view holds `Decoding.SourceSegment`'s bytes, shared or copied |
| LegacyDecoder.VcdiffDecoder.constructor | src/com/wandoujia/mms/patch/vcdiff/VcdiffDecoder.java:22-32 | the decoder's state is `Decoding.Initial` of the streams |
| LegacyDecoder.VcdiffDecoder.Decode | src/com/wandoujia/mms/patch/vcdiff/VcdiffDecoder.java:57-63 | success, failure and final streams are exactly `Decoding.Decode` with the legacy configuration |
| LegacyDecoder.VcdiffDecoder.Run | src/com/wandoujia/mms/patch/vcdiff/VcdiffDecoder.java:65-68 | the decoder ends as `Decoding.Run` says |
| LegacyDecoder.VcdiffDecoder.Windows | src/com/wandoujia/mms/patch/vcdiff/VcdiffDecoder.java:67 | the loop ends as `Decoding.Windows` says |
| LegacyDecoder.VcdiffDecoder.ReadHeader | src/com/wandoujia/mms/patch/vcdiff/VcdiffDecoder.java:70-108 | the decoder after `readHeader` is `Decoding.ReadHeader`'s, with the same failure |
| LegacyDecoder.VcdiffDecoder.HeaderTail | src/com/wandoujia/mms/patch/vcdiff/VcdiffDecoder.java:95-106 | the decoder after the custom table and application header is `Decoding.HeaderTail`'s |
| LegacyDecoder.VcdiffDecoder.SkipAppHeader | src/com/wandoujia/mms/patch/vcdiff/VcdiffDecoder.java:101-106 | the patch is skipped as `Decoding.SkipApplicationHeader` says |
| LegacyDecoder.VcdiffDecoder.ReadCodeTable | src/com/wandoujia/mms/patch/vcdiff/VcdiffDecoder.java:116-136 | the new code table and cache are `Decoding.ReadCodeTable`'s |
| LegacyDecoder.VcdiffDecoder.DecompressTable | src/com/wandoujia/mms/patch/vcdiff/VcdiffDecoder.java:122-132 | a new 1536-byte array exactly when `Decoding.DecompressTable` succeeds, holding its bytes |
| LegacyDecoder.VcdiffDecoder.DecodeWindow | src/com/wandoujia/mms/patch/vcdiff/VcdiffDecoder.java:138-144 | `false` at the end of the patch with nothing changed, otherwise the decoder of `Decoding.DecodeWindow` |
| LegacyDecoder.VcdiffDecoder.NextIndicator | src/com/wandoujia/mms/patch/vcdiff/VcdiffDecoder.java:140-144 | -1 exactly at the end of the patch; otherwise the next byte, with the patch moved by one |
| LegacyDecoder.VcdiffDecoder.NextWindow | src/com/wandoujia/mms/patch/vcdiff/VcdiffDecoder.java:146-304 | the decoder after the window is `Decoding.NextWindow`'s |
| LegacyDecoder.DecodeWindowBody | src/com/wandoujia/mms/patch/vcdiff/VcdiffDecoder.java:146-304 | streams and cache after the window are `Decoding.WindowBody`'s |
| LegacyDecoder.ReadWindowHeader | src/com/wandoujia/mms/patch/vcdiff/VcdiffDecoder.java:146-238 | the header and streams are `Decoding.ReadWindowHeader`'s, the target window a new zeroed array |
| LegacyDecoder.ReadSource | src/com/wandoujia/mms/patch/vcdiff/VcdiffDecoder.java:180-199 | the source segment, declared length and streams are `Decoding.ReadSource`'s |
| LegacyDecoder.ReadSourceWindow | src/com/wandoujia/mms/patch/vcdiff/VcdiffDecoder.java:184-185 | the two varints are `Decoding.SourceWindow`'s |
| LegacyDecoder.ReadSections | src/com/wandoujia/mms/patch/vcdiff/VcdiffDecoder.java:202-238 | the sections are `Decoding.ReadSections`'s, the target window new and zeroed |
| LegacyDecoder.ReadTargetLength | src/com/wandoujia/mms/patch/vcdiff/VcdiffDecoder.java:202-215 | a new zeroed target window of `Decoding.TargetLength`'s length, with the same failures |
| LegacyDecoder.ReadSectionLengths | src/com/wandoujia/mms/patch/vcdiff/VcdiffDecoder.java:217-231 | the three lengths are `Decoding.SectionLengths`'s |
| LegacyDecoder.ReadSectionData | src/com/wandoujia/mms/patch/vcdiff/VcdiffDecoder.java:233-238 | the three sections are `Decoding.SectionData`'s |
| LegacyDecoder.StartLoop | src/com/wandoujia/mms/patch/vcdiff/VcdiffDecoder.java:214-244 | the loop's window is `Decoding.StartWindow` of the header and cache |
| LegacyDecoder.FinishWindow | src/com/wandoujia/mms/patch/vcdiff/VcdiffDecoder.java:246-297 | target and cache are `Decoding.FinishWindow`'s |
| LegacyDecoder.RunWindow | src/com/wandoujia/mms/patch/vcdiff/VcdiffDecoder.java:240-295 | the target window and cache are `Interpreter.Execute` from `Decoding.StartWindow` |
| LegacyDecoder.WriteWindow | src/com/wandoujia/mms/patch/vcdiff/VcdiffDecoder.java:297 | the target stream is `Stores.Write` of the whole target window |
| LegacyDecoder.ExecuteInstructions | src/com/wandoujia/mms/patch/vcdiff/VcdiffDecoder.java:246-295 | the loop's final window is `Interpreter.Execute` of its first |
| LegacyDecoder.Step | src/com/wandoujia/mms/patch/vcdiff/VcdiffDecoder.java:246-295 | one loop turn keeps `Interpreter.Execute` of the window invariant and strictly consumes the instruction section |
| LegacyDecoder.Entry | src/com/wandoujia/mms/patch/vcdiff/VcdiffDecoder.java:252-294 | both halves of the entry as `Interpreter.Half` twice |
| LegacyDecoder.NextIndex | src/com/wandoujia/mms/patch/vcdiff/VcdiffDecoder.java:247-250 | -1 exactly at the end of the instruction section; otherwise its next byte |
| LegacyDecoder.ExecuteHalf | src/com/wandoujia/mms/patch/vcdiff/VcdiffDecoder.java:253-293 | one instruction as `Interpreter.Half` |
| LegacyDecoder.ReadSize | src/com/wandoujia/mms/patch/vcdiff/VcdiffDecoder.java:254-257 | the size as `Interpreter.SizeOf` |
| LegacyDecoder.Add | src/com/wandoujia/mms/patch/vcdiff/VcdiffDecoder.java:261-264 | ADD as `Interpreter.ExecAdd` |
| LegacyDecoder.Run | src/com/wandoujia/mms/patch/vcdiff/VcdiffDecoder.java:285-290 | RUN as `Interpreter.ExecRun` |
| LegacyDecoder.WriteRun | src/com/wandoujia/mms/patch/vcdiff/VcdiffDecoder.java:287-289 | the write loop is `Stores.Write` of `Repeat(b, size)` |
| LegacyDecoder.CopyHalf | src/com/wandoujia/mms/patch/vcdiff/VcdiffDecoder.java:265-284 | COPY as `Interpreter.ExecCopy` |
| LegacyDecoder.DecodeAddress | src/com/wandoujia/mms/patch/vcdiff/VcdiffDecoder.java:266-268 | the address and cache as `AddressModes.DecodeAddress` |
| LegacyDecoder.CopyTo | src/com/wandoujia/mms/patch/vcdiff/VcdiffDecoder.java:269-283 | the copy as `Interpreter.CopyAt` on the window |
| LegacyDecoder.CopyAt | src/com/wandoujia/mms/patch/vcdiff/VcdiffDecoder.java:269-283 | the copy from the decoded address as `Interpreter.CopyAt` |
| LegacyDecoder.CopyInTarget | src/com/wandoujia/mms/patch/vcdiff/VcdiffDecoder.java:273-282 | the copy within the target as `Interpreter.CopyTarget` |
| LegacyDecoder.CopyWithin | src/com/wandoujia/mms/patch/vcdiff/VcdiffDecoder.java:279-281 | the byte loop as `Interpreter.CopyBytes` |
| LegacyDecoder.CopyByte | src/com/wandoujia/mms/patch/vcdiff/VcdiffDecoder.java:280 | one turn keeps `Interpreter.CopyBytes` of the rest invariant |
| LegacyDecoder.ReadIndicator | src/com/wandoujia/mms/patch/vcdiff/VcdiffDecoder.java:70-93 | the indicator and patch are `Decoding.HeaderIndicator`'s |
| LegacyDecoder.ReadCustomTable | src/com/wandoujia/mms/patch/vcdiff/VcdiffDecoder.java:116-134 | the table and sizes are `Decoding.CustomTable`'s |
| LegacyDecoder.ReadTableDelta | src/com/wandoujia/mms/patch/vcdiff/VcdiffDecoder.java:117-120 | the compressed table and sizes are `Decoding.TableDelta`'s |
| LegacyDecoder.SkipApplicationHeader | src/com/wandoujia/mms/patch/vcdiff/VcdiffDecoder.java:102-106 | the patch is moved as `Decoding.SkipApplicationHeader` says |
| LegacyDecoder.AddBytes | src/com/wandoujia/mms/patch/vcdiff/VcdiffDecoder.java:262-263 | ADD as one `write` from `addRunData` at the running index, as `Interpreter.AddBytes` |
| LegacyDecoder.SourceData | src/com/wandoujia/mms/patch/vcdiff/VcdiffDecoder.java:187-193 | the copied source segment is `Decoding.SourceSegment`'s |

## Left out

- `FileSeekableStream` and the static `patch(File, ...)` entry points: file I/O; only the in-memory streams are modelled.
- `IOUtils.closeQueitly` (both revisions) and every `close()`: closing changes no byte the decoder reads or writes.
- `SlicedSeekableStream` and the `SeekableStream` interfaces: the interfaces have no behaviour of their own, and the sliced stream is not used by the decoders.
- The window checksum: its four bytes are consumed (and the main revision assembles them into an `int`), but `check` does nothing, so no checksum is computed or compared.
- The debug `System.out.println` in `AddressCache.decodeAddress`: console output only.
- Exception messages and exception classes: each failure is one `Errors.Error` value; `IndexOutOfBoundsException`, `ArrayIndexOutOfBoundsException`, `NegativeArraySizeException`, `BufferOverflowException`, `BufferUnderflowException` and the seek `IOException` are all `Bounds`.
- The legacy revision's own `CodeTable` and `Instruction` classes are not part of this model; the main revision's `CodeTables` and `Instructions` stand in for both revisions.
- The main revision's own `AddressCache` and `ByteBufferSeekableStream` are not part of this model; the legacy revision's classes stand in for both revisions.
- ByteArrayStreams.ByteArrayStream.constructor: the two-argument (read-only) constructor and `read()` that the legacy decoder calls do not exist in this revision's `ByteArraySeekableStream.java`; they are modelled as `ByteArrayInputStream` behaves, and the read-only flag is never enforced on writes.
- CodeTables.CodeTable.FromBytes: requires at least 1536 bytes, where Java would throw on a shorter array; the decoder always passes exactly 1536.
- AddressCaches.AddressCache.LookUp: requires that `reset` has been called (a `NullPointerException` otherwise); the decoder always resets the cache before its instruction loop.
- AddressCaches.AddressCache.DecodeAddress: the same requirement as `LookUp`.
- Array and stream lengths are assumed below 2^31, as Java arrays are; positions and lengths are `int` in the source and `nat` or wrapped `int` in the model.
- Interpreter.CopyAt: that a copy within the target writes what the byte loop writes is stated for target windows shorter than 2^31 bytes, the longest a Java array can be; for a longer one the Java sum `a + size` could wrap.
- Interpreter.CopyTarget: the same bound as `CopyAt`, for the same reason.
- MainDecoder.VcdiffDecoder.Decode: requires the target to be a stream object other than the patch and the dictionary, over a buffer of its own (and the patch other than the dictionary); Java accepts any three streams, and a decode that writes into a buffer it reads from is not modelled.
- LegacyDecoder.VcdiffDecoder.Decode: the same requirement as the main revision's `Decode`, for the same reason.
- MainIO.GetStreamView: refuses a negative length in memory-saving mode, as the copying path does, where the Java as written slices and rewinds the stream (see "## Findings"); the main decoder reads its source segment and data section through this corrected view.
- `ByteBufferSeekableStream.asReadonly`, `isReadOnly` and `pos`: not used by the decoders.
- Concurrency: the decoders are single-threaded; no interleaving is modelled.

## Findings

| source | as written | input that shows it | evidently intended | confidence | as-written member | corrected member |
|---|---|---|---|---|---|---|
| src/com/wandoujia/mms/patch/vcdiff/ByteBufferSeekableStream.java:117-127 | `slice(n)` rejects only an `n` larger than what remains, so a negative `n` is accepted: the view is empty and the position moves back by 2*-n. In memory-saving mode `IOUtils.getStreamView` passes a section length or a source length straight to `slice`, and either can be negative (a five-byte varint that wraps to a negative `int`). | a stream 12 bytes in, `slice(-6)`: an empty view and position 0, so the following reads go over the earlier bytes again; the copying path (`readBytes(-6)`) fails | a negative length fails in both modes, as `readBytes` does with its `NegativeArraySizeException` | medium, not executed | ByteBufferStreams.NegativeSliceRewinds | MainIO.GetStreamView |
