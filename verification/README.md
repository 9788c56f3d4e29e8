# NTCF in Dafny

A model of NTCF, a columnar container for telemetry with semantic codecs, segment
indexes, a small query engine and crash-recoverable append, and proofs that its
parts do together what they are for: every record a writer accepts comes back,
after a clean close or after a crash behind a checkpoint, and a query says of the
file what it means on those records.

The modules follow the program from the bits up.

| layer | modules |
|---|---|
| machine words, libraries, limits | `Bits`, `Wrappers`, `Limits`, `Libraries`, `Numerals` |
| codecs | `Varint`, `BitPack`, `Sorting`, `Streams`, `Selection`, `Dictionaries`, `IntCodecs`, `IntDictionary`, `IntSelector`, `ByteCodecs` |
| framing | `Cursors`, `Framing`, `Column`, `Chunk`, `Schemas`, `FooterFormat` |
| indexes | `BloomFilter`, `InvertedIndex`, `ColumnIndexes` |
| byte layout, damaged input | `Formats`, `Acceptance` |
| reading and recovery | `Recovery`, `Store`, `Contents` |
| writing | `Records`, `WriterLog`, `Writers` |
| what writing guarantees | `EvenSpacing`, `Durability`, `Layout` |
| queries | `Queries`, `Evaluate`, `Execute`, `TopValues`, `Engine` |
| query text | `Lexer`, `Parser`, `Grammar`, `Printing` |
| everything together | `EndToEnd` |

`dafny verify dfyconfig.toml` checks the whole project.

## How the model is built

- Each source function that works by loops and updates is a method (or a class
  with the source's fields) whose contract equates its outcome with a
  specification function; the properties are lemmas about those functions.
- Words are integers with explicit bounds. Every wrap-around, truncation and
  signed reading of the source is written out (`% TWO64`, `ToI64`, the 32-bit
  dictionary ordinals, the 32-bit footer length). Bit operations are defined bit
  by bit in `Bits`.
- A writer's past is a value, `WriterLog.Log`: the sink's bytes, the segment
  directory, the rows behind it, the records accepted and the footers completed.
  `LogOk` is the invariant. The sink may fail at any point, having taken any part
  of what it was given; the only assumption is that no file outgrows the largest
  signed offset.
- `Contents.Truthful` says that whatever can be read of a file is true of given
  tables, `Contents.Readable` that everything can be read. Query methods require
  only the first, and then promise a right answer or an error; with the second
  they promise an answer. Execution requires truthfulness because the source
  indexes decoded vectors without checking that a chunk's kind is its schema
  column's.
- The reader enforces sizes the writer does not check, and `Durability` keeps them
  apart. `DirectoryFits` (names, footer length, segment count, values in zone
  maps) is all that opening and recovery need; no chunk is read for it.
  `SegmentsRepresentable` (segments of at most MaxSegmentRows rows, lengths within
  the source's words) is what makes a file truthful. `SegmentsFit` adds the chunk
  limits (stored size, decompression ratio, value lengths) and makes it readable;
  by `Chunk.ChunkRoundTrip` that is exact: outside them a chunk is refused.
- Decoding has three outcomes: a value, an error, and `Err(OutOfMemory)`, which
  stands for a process that dies because a slice would grow past the largest int.
- The integer and byte twins of the source (index building, scans, histograms)
  differ only in the key and are modelled once, over `Column.Cell`.
- zstd, LZ4, xxHash, CRC-32C, Roaring serialisation, Bloom sizing, and dates and IP
  addresses in text are function parameters (`Libraries.Platform`).
  `Lossless` is what is assumed of them: decompression inverts compression,
  unmarshalling inverts marshalling, a Bloom filter gets at least one word and
  between 1 and 32 probes, and the bitmap or filter of a column of at most
  MaxSegmentRows rows is not larger than its reader accepts.
  `EvenSpacing.LosslessIsPossible` gives libraries that meet it. Nothing is assumed
  of hashes and checksums.

## What the proofs bring out

- A chunk whose payload compresses at least 257-fold is written but never read
  back: the builder does not consult MaxDecompressRatio, the reader does
  (`Chunk.WellCompressedChunksAreRefused`). Evenly spaced timestamps come to that:
  delta-of-delta makes them nearly all zeros, and with 5122 rows or more, fewer
  than a default segment's 65536, a lossless codec that merely drops trailing
  zeros exceeds the ratio (`EvenSpacing.EvenlySpacedChunksAreRefused`). The file
  still recovers, and queries on it answer rightly or with an error.
- Statistics compare timestamps as uint64, the directory stores them as int64. A
  segment's span covers its timestamps if and only if they lie on one side of
  2^63 (`Layout.SegmentSpanCovers`, `Layout.SpanCanMiss`).
- The run-length decoders guard with `len(out)+int(run) > n`, which wraps around
  for huge runs. The guard agrees with the plain comparison if and only if
  len(out) + run stays below 2^63 (`Streams.GuardAgrees`); where it wraps, the loop
  appends until the process dies, and a chunk with a correct checksum can bring it
  there (`Chunk.WrappedRunChunk`). The decoders keep to n values exactly on the data
  without such a pair (`Streams.RunsOutcome`, `Chunk.ChunkOutcome`). The selector
  writes none.
- The comment in the byte codec's analysis says that a capped distinct count
  signals a column unfit for a dictionary. The count it stores, 65537, passes the
  selector's test against MaxDictEntries, so a dictionary is still tried. The
  model follows the code; the round trip does not depend on it.
- The grammar in the lexer's doc comment is what the parser accepts
  (`Grammar.QueriesExactly`), with one exception: a projection cannot begin with a
  column named count or top, in any capitals, because the parser then expects the
  aggregate.
- QueryEngine.md describes zone-map shortcuts for range predicates. The code scans
  for `<`, `>` and `!=`, and so does the model.
- While its writes succeed a writer keeps every segment within the configured row
  count. After a failed flush rows go on buffering, so a later segment may be
  larger, and beyond MaxSegmentRows it is refused;
  `Durability.RowsRepresentable` carries that condition.
- top(col, N) sorts with an unstable sort and distinct values may look alike (all
  non-zero bools are shown as true), yet what is shown is determined
  (`Engine.RankingsShowTheSame`).

## Model

| member | source | states |
|---|---|---|
| Varint.ZigZagBijection | internal/util/varint.go:8-15 | ZigZag and UnZigZag invert each other on all int64 and uint64 values, and small magnitudes map to small words |
| Varint.UvarintRoundTrip | internal/util/varint.go:18-20 | reading a LEB128 varint gives back the word written and its length, whatever follows; no word takes more than ten bytes |
| Varint.UvarintReads | internal/util/varint.go:18-20 | a varint is read exactly when at most ten bytes, only the last below 128, stand for a 64-bit word: their seven-bit groups, low ones first |
| Varint.UvarintLen | internal/util/varint.go:28-35 | the counting loop answers the length AppendUvarint emits |
| Varint.DeltaInverts | internal/encoding/ints.go:148-181 | a wrapped int64 difference added back with wrap-around restores the word, even across 2^63 |
| Varint.DeltaOfDeltaInverts | internal/encoding/ints.go:185-235 | a wrapped difference of differences adds back to the difference |
| BitPack.WidthLeast | internal/encoding/bitpack.go:16-23 | a width suffices for a maximum exactly when it is at least the number minWidth answers |
| BitPack.MinWidth | internal/encoding/bitpack.go:16-23 | the shifting loop computes that width |
| BitPack.PackSpills | internal/encoding/bitpack.go:37-77 | a value straddling two words: its low bits complete the accumulator that is emitted, its high bits start the next, and the packed number is kept |
| BitPack.AppendPacked | internal/encoding/bitpack.go:37-77 | for every width up to 64 the loops append exactly the packed region: packedBytes(n,width) bytes that read, as one little-endian number, as the sum of vals[i] * 2^(i*width) |
| BitPack.ReadLE64 | internal/encoding/bitpack.go:82-92 | the load loop reads up to eight bytes, zero-padded past the end |
| BitPack.LoadReadsBits | internal/encoding/bitpack.go:82-92 | a padded load is 64 bits of the number the whole region stands for |
| BitPack.GetBitsReads | internal/encoding/bitpack.go:95-111 | one or two overlapping loads give exactly the width bits at any bit offset |
| BitPack.GetBitsOfRegion | internal/encoding/bitpack.go:95-111 | reading at offset i*width of a packed region gives the i-th value, cut to width bits |
| BitPack.UnpackInverts | internal/encoding/bitpack.go:115-135 | unpacking inverts packing for values that fit the width |
| BitPack.UnpackInto | internal/encoding/bitpack.go:115-135 | the loop fills the slice with the unpacked values, and leaves it untouched on an error |
| Streams.GuardsAreExact | internal/encoding/ints.go:254-279 | one round of the run-length loop: a pair is taken, or refused as empty or overshooting, exactly by its length; a pair with have + run past the largest int passes the wrapped guard and ends the process (OutOfMemory) |
| Streams.GuardAgrees | internal/encoding/ints.go:271-273 | the guard len(out)+int(run) > n agrees with the plain comparison if and only if have + run does not exceed the largest int |
| Streams.RunsOutcome | internal/encoding/ints.go:254-279 | for all data: the loop never holds more than n values if and only if every pair it meets has have + run within the largest int, and it dies otherwise |
| Streams.WrappedRunDies | internal/encoding/ints.go:271-276 | a failing input for any value codec: one value with a run of 2^63, read for n = 1 |
| Streams.ListJoin | internal/encoding/ints.go:124-130 | an encoded list is its values' encodings one after the other |
| Streams.RunsInvert | internal/encoding/ints.go:239-279 | run-length coding inverts for any element codec that inverts |
| Selection.RunsAre | internal/encoding/ints.go:64-99 | there is one run more than there are values that differ from the one before |
| Sorting.BytesLessIs | internal/query/exec.go:307-317 | byte strings are ordered byte by byte: one is less if and only if it is a proper prefix, or the first byte that differs is smaller; zone maps, dictionary tables, comparisons and ranking ties rest on it |
| IntCodecs.EncodePlain | internal/encoding/ints.go:103-109 | the loop writes each value as eight little-endian bytes |
| IntCodecs.DecodePlain | internal/encoding/ints.go:111-120 | total: n values or truncation |
| IntCodecs.PlainRoundTrip | internal/encoding/ints.go:103-120 | plain coding round trip |
| IntCodecs.EncodeVarint | internal/encoding/ints.go:124-130 | the loop concatenates the varints |
| IntCodecs.DecodeVarint | internal/encoding/ints.go:132-144 | total: n values or truncation |
| IntCodecs.VarintRoundTrip | internal/encoding/ints.go:124-144 | varint coding round trip |
| IntCodecs.EncodeDelta | internal/encoding/ints.go:148-158 | the loop writes the first value and the ZigZag differences |
| IntCodecs.DecodeDelta | internal/encoding/ints.go:160-181 | the loop adds the differences back; total |
| IntCodecs.DeltaRoundTrip | internal/encoding/ints.go:148-181 | delta coding restores every uint64 sequence |
| IntCodecs.EncodeDoD | internal/encoding/ints.go:185-201 | the loop writes second differences |
| IntCodecs.DecodeDoD | internal/encoding/ints.go:203-235 | the loop restores them; total |
| IntCodecs.DeltaOfDeltaRoundTrip | internal/encoding/ints.go:185-235 | delta-of-delta coding restores every uint64 sequence |
| IntCodecs.DeltasAre | internal/encoding/ints.go:148-201 | delta words, read as signed numbers, are the differences of neighbours, and delta-of-delta words the differences of those, modulo 2^64 |
| IntCodecs.EncodeRLEInt | internal/encoding/ints.go:239-252 | the nested loops write maximal runs |
| IntCodecs.DecodeRLEInt | internal/encoding/ints.go:254-279 | terminates on every input with n values, an error, or the death of the process where a run wraps the guard |
| IntCodecs.RLEOutcome | internal/encoding/ints.go:254-279 | dies if and only if some pair read has have + run past the largest int; otherwise never holds more than n values |
| IntCodecs.WrappedRun | internal/encoding/ints.go:271-276 | a value varint followed by the run 2^63 kills the decoder |
| IntCodecs.RLERoundTrip | internal/encoding/ints.go:239-279 | run-length coding round trip |
| IntCodecs.EncodeBitpack | internal/encoding/ints.go:283-295 | frame of reference: minimum, width, packed residuals |
| IntCodecs.DecodeBitpack | internal/encoding/ints.go:297-319 | total: n values or an error |
| IntCodecs.BitpackRoundTrip | internal/encoding/ints.go:283-319 | frame-of-reference coding round trip for any bounds that hold |
| Dictionaries.BuildDictionary | internal/encoding/ints.go:324-340 | the map and the sort give the strictly ascending table of distinct values and each value's ordinal |
| Dictionaries.OrdinalsFit | internal/encoding/ints.go:334-354 | every ordinal is below dictLen and fits minWidth(dictLen-1) bits |
| Dictionaries.OrdinalsInvert | internal/encoding/ints.go:387-403 | packed ordinals read back through the table give the values, for tables of up to 2^32 entries, where the 32-bit ordinal does not truncate |
| IntDictionary.UngapInverts | internal/encoding/ints.go:343-380 | gap coding a strictly ascending table inverts |
| IntDictionary.EncodeDictInt | internal/encoding/ints.go:323-355 | the loops write table length, gaps, width and ordinals |
| IntDictionary.DecodeDictInt | internal/encoding/ints.go:357-404 | terminates with n values or an error on every input |
| IntDictionary.DictRoundTrip | internal/encoding/ints.go:323-404 | dictionary coding restores every non-empty sequence of at most MaxSegmentRows values; the decoder's cap is never met |
| IntSelector.AnalyzeInts | internal/encoding/ints.go:64-99 | one pass finds the true minimum, maximum, run count and order, and the distinct count or its cap |
| IntSelector.EncodeIntsAuto | internal/encoding/ints.go:19-50 | the chosen id and bytes are the shortest of the candidates the statistics admit, the first of equals |
| IntSelector.SelectorIs | internal/encoding/ints.go:19-50 | which codecs are tried under which conditions on runs, order and distinct values, that each of them is no shorter than the choice, and that the choice is the first of equals |
| IntSelector.DecodeInts | internal/encoding/encoding.go:86-111 | dispatch on the codec id: n values or an error, never more than MaxSegmentRows; only run-length data can kill it |
| IntSelector.DecodeOutcome | internal/encoding/encoding.go:86-111 | the process dies exactly for run-length data with a wrapping run |
| IntSelector.CandidateDecodes | internal/encoding/ints.go:26-49 | every candidate the selector considers decodes to the input |
| IntSelector.SelectorRoundTrip | internal/encoding/ints.go:19-50 | decoding what the selector chose restores any input of at most MaxSegmentRows values, and the choice is no longer than 8n bytes nor than the varints |
| ByteCodecs.EncodeRaw | internal/encoding/bytes.go:72-79 | the loop writes length-prefixed values |
| ByteCodecs.DecodeRaw | internal/encoding/bytes.go:81-102 | terminates with n values or an error on every input |
| ByteCodecs.RawRoundTrip | internal/encoding/bytes.go:72-102 | raw coding inverts on values of at most MaxBytesValue bytes |
| ByteCodecs.RawFails | internal/encoding/bytes.go:72-102 | and fails as soon as one value is longer |
| ByteCodecs.EncodeDictBytes | internal/encoding/bytes.go:106-132 | the loops write the ascending table and the ordinals |
| ByteCodecs.DecodeDictBytes | internal/encoding/bytes.go:134-189 | terminates with n values or an error on every input |
| ByteCodecs.DictRoundTrip | internal/encoding/bytes.go:106-189 | dictionary coding inverts if and only if every value and the whole table are within the decoder's limits |
| ByteCodecs.EncodeRLEBytes | internal/encoding/bytes.go:193-207 | the nested loops write maximal runs |
| ByteCodecs.DecodeRLEBytes | internal/encoding/bytes.go:209-243 | terminates on every input with n values, an error, or the death of the process where a run wraps the guard |
| ByteCodecs.RLEOutcome | internal/encoding/bytes.go:209-243 | dies if and only if some pair read has have + run past the largest int; otherwise never holds more than n values |
| ByteCodecs.WrappedRun | internal/encoding/bytes.go:209-243 | a value followed by the run 2^63 kills the decoder |
| ByteCodecs.RLERoundTrip | internal/encoding/bytes.go:193-243 | run-length coding inverts on values within the size cap |
| ByteCodecs.RLERejects | internal/encoding/bytes.go:193-243 | and is rejected when a value is over it |
| ByteCodecs.AnalyzeBytes | internal/encoding/bytes.go:44-68 | one pass finds the true run count and the distinct count or its cap |
| ByteCodecs.EncodeBytesAuto | internal/encoding/bytes.go:16-36 | the chosen id and bytes are the shortest of the candidates the statistics admit |
| ByteCodecs.SelectorIs | internal/encoding/bytes.go:16-36 | the same for byte strings: raw always, run-length and dictionary under their conditions |
| ByteCodecs.DecodeBytes | internal/encoding/encoding.go:115-132 | dispatch on the codec id: n values or an error; only run-length data can kill it |
| ByteCodecs.DecodeOutcome | internal/encoding/encoding.go:115-132 | the process dies exactly for run-length data with a wrapping run |
| ByteCodecs.SelectorRoundTrip | internal/encoding/bytes.go:16-36 | decoding what the selector chose restores the input if and only if the sizes are within limits; the choice is no longer than raw |
| Cursors.Cursor.Bytes | internal/util/cursor.go:111-118 | takes n bytes, or latches truncation and answers nothing; an earlier error is kept |
| Cursors.Cursor.U64 | internal/util/cursor.go:81-88 | reads a little-endian word or latches truncation |
| Cursors.Cursor.ReadUvarint | internal/util/cursor.go:91-102 | reads a varint or latches truncation |
| Cursors.Cursor.Magic | internal/util/cursor.go:130-138 | compares the magic and latches its absence |
| Cursors.TakeFront | internal/util/cursor.go:111-118 | what stands in front is taken and what follows remains |
| Cursors.TakeVarint | internal/util/cursor.go:91-102 | a varint in front is read and what follows remains |
| Cursors.NothingTaken | internal/util/cursor.go:70-118 | after an error or on too few bytes nothing is read and nothing consumed, and the first error stays |
| Schemas.Validate | internal/schema/schema.go:95-116 | accepts exactly the well-formed schemas: between 1 and MaxColumns columns, known types, non-empty pairwise different names |
| Schemas.KindsAre | internal/schema/schema.go:56-63 | addresses, enums and strings are byte columns, the other four types integer columns |
| Schemas.Index | internal/schema/schema.go:84-91 | the position of the column with the name, or that there is none |
| Schemas.AppendDescriptor | internal/schema/schema.go:119-139 | the loop appends the descriptor |
| Formats.ColumnFormat | internal/schema/schema.go:119-139 | name, type and the two flags of a schema column, in order |
| Schemas.ReadDescriptor | internal/schema/schema.go:142-174 | the cursor-driven loop reads a descriptor, validates it, and reports the first error |
| Schemas.TooManyColumns | internal/schema/schema.go:142-174 | a descriptor of more than MaxColumns columns is refused |
| Schemas.SchemaRoundTrip | internal/schema/schema.go:119-174 | reading a written descriptor gives the schema back and leaves what follows it |
| Column.Bitmap.Set | internal/column/column.go:42 | marks the row present and changes no other |
| Column.Bitmap.Get | internal/column/column.go:45 | tests exactly the row's bit |
| Column.PresenceBit | internal/column/column.go:36-75 | bit i of the stored bitmap says whether row i is present |
| Column.PresenceIs | internal/column/column.go:37-45 | row i is present exactly when bit i % 8, counted from the lowest, of byte i / 8 is set |
| Column.Builder.AppendInt | internal/column/builder.go:35-41 | adds one integer cell |
| Column.Builder.AppendBytes | internal/column/builder.go:45-53 | adds one byte-string cell |
| Column.Builder.AppendNull | internal/column/builder.go:56-70 | adds a null, materialising the presence vector on the first one |
| Column.Builder.Reset | internal/column/builder.go:73-78 | empties the builder |
| Column.Builder.Values | internal/column/builder.go:81-87 | the rows as index building sees them are the cells appended |
| Column.Builder.GetStats | internal/column/builder.go:93-130 | the running loop finds row and non-null counts and bounds that hold for every present value and are attained |
| Column.CountPresentIs | internal/column/builder.go:93-130 | the count of present values is the number of rows that have one |
| Column.StatsAre | internal/column/builder.go:93-130 | what these say in full: counts by rows, whether there is a null, the least and the greatest value by number or byte by byte, both attained |
| Column.DataForMeans | internal/column/column.go:61-75 | the vector a column decodes to is null exactly at the null rows and holds the values elsewhere |
| Chunk.PresenceBitmap | internal/column/chunk.go:34-57 | the loop sets exactly the present rows |
| Chunk.EncodeChunkBytes | internal/column/chunk.go:34-57 | frames header, presence, checksum and payload |
| Formats.ChunkFormat | internal/column/chunk.go:34-57 | kind, codec, compression and null flag are the first four bytes, then row count and lengths; the last bytes are the stored payload, and before it its checksum |
| Formats.StoredIs | internal/column/builder.go:143-165 | compression is used if and only if a codec is set and it shrinks the payload |
| Libraries.CodecsAre | internal/compress/compress.go:85-109 | the three codecs; an uncompressed chunk must have the length declared, an unknown codec is refused |
| Chunk.Encode | internal/column/builder.go:143-165 | the chunk of the cells appended, compressed only when that shrinks it, and their statistics |
| Chunk.DecodeChunk | internal/column/chunk.go:61-139 | any bytes give a well-formed vector, an error, or the death of the process in a run-length payload; checks and their order as in the source |
| Formats.ChunkChecked | internal/column/chunk.go:61-139 | whatever chunk is unframed has the checksum before its stored bytes, is within every limit, and yields what those bytes decompress to |
| Formats.DamagedChunk | internal/column/chunk.go:61-139 | a chunk whose stored bytes were changed to some with another hash is refused |
| Formats.WrongBitmap | internal/column/chunk.go:79-92 | a presence bitmap of any other length than the rows need is refused |
| Acceptance.IntsWithinLimits | internal/encoding/encoding.go:86-111 | whatever the input, no more than MaxSegmentRows integers are decoded, by a known codec, and no dictionary over its entry limit is read |
| Acceptance.BytesWithinLimits | internal/encoding/bytes.go:81-243 | whatever the input, no decoded byte string is over MaxBytesValue, nor a dictionary over its entry and size limits |
| Chunk.ChunkOutcome | internal/column/chunk.go:61-139 | the process dies if and only if the frame, the checksum and the limits pass and the payload holds a wrapping run |
| Chunk.WrappedRunChunk | internal/column/chunk.go:61-139 | such a chunk, with a correct checksum |
| Chunk.ChunkRoundTrip | internal/column/chunk.go:34-139 | a written chunk decodes if and only if row count, stored size, ratio and value sizes are within the limits, and then to the same values at present rows and nulls exactly at null rows; otherwise it is refused as over a limit |
| Limits.DecompressPasses | internal/util/limits.go:78-86 | the dividing check passes exactly the sizes of at most 4 GiB and less than 257 times what is stored |
| Chunk.WellCompressedChunksAreRefused | internal/util/limits.go:78-86 | the writer never checks MaxDecompressRatio: a payload a codec shrinks at least 257-fold is written and refused |
| EvenSpacing.LosslessIsPossible | internal/column/chunk.go:107-111 | what is assumed of the libraries can be met: by a codec that drops trailing zeros, among others |
| EvenSpacing.SpacedEncoding | internal/encoding/ints.go:19-50 | for at least 64 timestamps with a step of at least 64 the selector chooses delta-of-delta, and the payload is the start, the step and n - 2 zero bytes |
| EvenSpacing.EvenlySpacedChunksAreRefused | internal/column/builder.go:143-165 | so a column of 5122 or more such timestamps is written under that lossless codec and no reader accepts it |
| Chunk.PlainIntColumnsAlwaysRead | internal/column/chunk.go:34-139 | an uncompressed integer column of at most MaxSegmentRows rows needs no further hypothesis |
| FooterFormat.ReadHeader | internal/format/header.go:61-84 | reads a header or reports truncation, checksum, magic or version |
| Formats.HeaderFormat | internal/format/header.go:47-58 | the fields of the 36-byte header and where each stands, the checksum of the rest last |
| Formats.HeaderReads | internal/format/header.go:61-84 | the outcome on any bytes, offset by offset: truncated, then checksum, then magic, then version, then the fields |
| FooterFormat.HeaderRoundTrip | internal/format/header.go:47-84 | a written header reads back, whatever follows it |
| FooterFormat.AppendFooter | internal/format/footer.go:54-100 | the nested loops append body, length, checksum and magic |
| Formats.FooterFormat | internal/format/footer.go:54-100 | a footer ends in its body's length, its body's checksum and NTCF |
| Formats.ColumnDirFormat | internal/format/footer.go:72-91 | the fields of a directory entry in order, the zone map by the column's kind |
| Formats.SegmentFormat | internal/format/footer.go:62-72 | offset, length, row count and time span of a segment, in order |
| Formats.TotalsFormat | internal/format/footer.go:54-62 | total rows, time span and segment count, in order |
| FooterFormat.AppendColumnDir | internal/format/footer.go:72-91 | a directory entry, its zone map chosen by the schema column's kind |
| FooterFormat.ReadColumnDirs | internal/format/footer.go:162-186 | the inner loop reads one entry per schema column, each by its kind |
| FooterFormat.ReadSegments | internal/format/footer.go:149-190 | the outer loop reads the segments or stops at the first error |
| FooterFormat.ReadFooter | internal/format/footer.go:106-192 | reads the footer that ends the file, or the error the source reports first |
| Formats.FooterChecked | internal/format/footer.go:106-140 | no footer is believed whose end is not NTCF, whose length is over the limit or reaches into the header, or whose checksum differs |
| Formats.DamagedFooter | internal/format/footer.go:106-140 | a footer whose body was changed to one with another checksum is refused |
| Acceptance.FooterWithinLimits | internal/format/footer.go:106-192 | whatever footer is read has a well-formed schema, at most MaxSegments segments with exactly its columns, and no name or zone value over its limit |
| FooterFormat.FooterRoundTrip | internal/format/footer.go:54-192 | behind any prefix at least as long as a header, a footer within the limits reads back whole |
| Recovery.TryFooterAt | internal/format/recover.go:37-52 | succeeds exactly where ReadFooter does on the file cut at the candidate end |
| Recovery.RecoverFooter | internal/format/recover.go:19-34 | the backward scan answers the first valid footer met walking back; skipping ends without the magic loses none |
| Recovery.WalkBackFindsLatest | internal/format/recover.go:19-34 | that footer is the valid one with the greatest end offset; failure means the file holds none |
| Store.New | internal/store/reader.go:42-52 | opens a complete file |
| Store.Recover | internal/store/reader.go:57-70 | opens a file whose last footer may be missing |
| Store.RecoverFindsLatest | internal/store/reader.go:57-70 | with or without a scan, the footer opened is the valid one with the greatest end offset; a scan is reported exactly when the file does not end in one |
| Store.Slice | internal/store/reader.go:86-92 | the region, when it lies in the file and its end does not overflow; an error otherwise |
| Store.ReadColumnData | internal/store/reader.go:95-109 | decodes a column or reports the error |
| Store.ReadIndexOf | internal/store/reader.go:113-124 | reads a column's index, empty when it has none |
| BloomFilter.Builder.AddHash | internal/index/bloom.go:74-80 | sets the k probed bits and no others |
| Formats.ProbeIs | internal/index/bloom.go:55-80 | the probes of a digest: h + i*h2 modulo 2^64 and then the filter size, h2 being h turned by 33 bits |
| Formats.DigestIs | internal/index/bloom.go:65-72 | a key's digest is the hash of its bytes, an integer's that of its eight bytes, low byte first |
| BloomFilter.MayContainHash | internal/index/bloom.go:92-101 | true exactly when all k probed bits are set |
| BloomFilter.NoFalseNegatives | internal/index/bloom.go:55-101 | every digest added tests positive |
| BloomFilter.AppendBloom | internal/index/bloom.go:104-111 | the loop serialises the filter |
| BloomFilter.ReadBloomFrom | internal/index/bloom.go:114-134 | reads a filter or reports the first error |
| BloomFilter.BloomRoundTrip | internal/index/bloom.go:104-134 | a serialised filter reads back, so membership survives storage |
| InvertedIndex.BuildInverted | internal/index/inverted.go:29-67 | the index of a column is exact, or dropped when and only when its distinct present values exceed the cardinality cap |
| InvertedIndex.LookupIsExact | internal/index/inverted.go:70-83 | looking a value up answers exactly its rows; nothing means no row |
| InvertedIndex.AppendInverted | internal/index/inverted.go:112-146 | entries are written in ascending key order, whatever order the map yields |
| InvertedIndex.ReadInvertedFrom | internal/index/inverted.go:149-198 | reads an index or reports the first error |
| InvertedIndex.InvertedRoundTrip | internal/index/inverted.go:112-198 | a serialised index reads back |
| InvertedIndex.InvertedReads | internal/index/inverted.go:149-198 | of a storable index exactly one with every key within MaxBytesValue reads back; a longer key is refused as over the limit |
| ColumnIndexes.CountDistinct | internal/index/index.go:37-53 | exactly the distinct present values; or, when capped, at least as many as the probe cap |
| ColumnIndexes.AddEveryRow | internal/index/index.go:54-60 | capped path: the filter holds the digests of all present values |
| ColumnIndexes.AddEachValue | internal/index/index.go:61-65 | uncapped path: likewise, each value added once in any order |
| ColumnIndexes.BuildColumn | internal/index/index.go:36-109 | on either path the filter holds exactly the present values' digests, and the inverted index is there exactly when asked for and within the cap |
| ColumnIndexes.AppendIndex | internal/index/index.go:112-128 | flags, then whichever parts there are |
| Formats.IndexFormat | internal/index/index.go:112-128 | an index blob begins with its flags, a filter with its probe count |
| ColumnIndexes.ReadColumnIndex | internal/index/index.go:132-157 | reads the parts the flags announce |
| Acceptance.IndexWithinLimits | internal/index/index.go:132-157 | whatever index is read has a filter of at least one word and one probe, and at most 65536 keys of its own kind, none over its limit |
| ColumnIndexes.IndexRoundTrip | internal/index/index.go:112-157 | an index blob within the limits reads back |
| ColumnIndexes.IndexReads | internal/index/index.go:132-157 | a storable index blob reads back if and only if it is within the limits, and is refused as over a limit otherwise |
| ColumnIndexes.BuiltIndexFits | internal/index/index.go:36-109 | an index built from a column is storable, and within the reader's limits when every value is at most MaxBytesValue long |
| Records.SameColumns | internal/row/row.go:25-26 | a table is determined by its columns |
| Records.RecordIsKept | pkg/ntcf/writer.go:141-152 | the row kept is null exactly where the record is, and elsewhere holds the field of the column's type |
| WriterLog.LogGrows | pkg/ntcf/writer.go:126-130 | bytes that enter no directory disturb nothing recorded |
| WriterLog.LogAccepts | pkg/ntcf/writer.go:141-153 | a record enters the buffer: committed rows followed by buffered rows are still the accepted records |
| WriterLog.LogCommits | pkg/ntcf/writer.go:200-276 | a segment written after everything recorded moves the buffered rows to it and keeps order, disjointness and all footers |
| WriterLog.LogMarks | pkg/ntcf/writer.go:184-198 | a footer written after everything recorded becomes the latest completed one |
| WriterLog.ExtendsTransitive | pkg/ntcf/writer.go:165-173 | nothing recorded is taken back over any number of calls |
| WriterLog.TsColIs | pkg/ntcf/writer.go:107-114 | segments are timed by the first timestamp column, if there is one |
| Writers.Sink.Write | pkg/ntcf/writer.go:126-130 | the sink takes any prefix of the bytes; success means all of them |
| Writers.AppendToBuilders | pkg/ntcf/writer.go:141-152 | every builder gets one cell: null when the value is null, else the integer or the bytes, by the column's domain |
| Writers.Writer.constructor | pkg/ntcf/writer.go:100-124 | a new writer's log is the header alone |
| Writers.NewWriter | pkg/ntcf/writer.go:70-124 | refuses a missing or invalid schema and an unknown codec before writing; fills in the default options and clamps the segment size; otherwise a ready writer, behind whatever the sink already held, or the sink's failure |
| Writers.OptionsAre | pkg/ntcf/writer.go:40-86 | the default options, and the clamped segment size |
| Writers.TimedBy | pkg/ntcf/writer.go:107-114 | a writer's time column is its schema's first timestamp column |
| Writers.Writer.WriteBytes | pkg/ntcf/writer.go:126-130 | the position advances by what the sink took, failure or not |
| Writers.Writer.FlushChunk | pkg/ntcf/writer.go:213-232 | the chunk of the column's cells lies at the recorded offset, with a true zone map |
| Writers.Writer.FlushIndex | pkg/ntcf/writer.go:234-248 | a sound index blob lies at the recorded offset |
| Writers.Writer.FlushColumns | pkg/ntcf/writer.go:212-249 | all columns are stored back to back, or the sink failed and only stray bytes were added |
| Writers.Writer.NoteTimes | pkg/ntcf/writer.go:252-268 | the segment's time span, folded into the writer's |
| Writers.Writer.Install | pkg/ntcf/writer.go:269-275 | totals, directory and empty builders, changed only after every chunk is written |
| Writers.Writer.FlushSegment | pkg/ntcf/writer.go:200-276 | commits exactly the buffered rows as one segment, or fails leaving them buffered |
| Writers.Writer.WriteFooter | pkg/ntcf/writer.go:184-198 | appends a footer over the segments so far, or only stray bytes |
| Writers.Writer.Append | pkg/ntcf/writer.go:134-158 | a rejected record changes nothing; an accepted one is the last accepted row, null exactly at its nulls and else the integer or the bytes given, and is kept even when the flush it triggers fails; a segment is flushed when the buffer is full |
| Writers.Writer.Flush | pkg/ntcf/writer.go:160-162 | commits the buffered rows as one segment or fails without losing one |
| Writers.Writer.Checkpoint | pkg/ntcf/writer.go:174-182 | after success the latest footer covers every record accepted; a no-op when nothing is new |
| Writers.Writer.Close | pkg/ntcf/writer.go:280-292 | after success the file ends in a footer over every record accepted and further records are refused |
| Writers.Run | pkg/ntcf/writer.go:134-292 | over any sequence of calls, each of which may fail, the invariant holds and the log only grows |
| Writers.FooterIs | pkg/ntcf/writer.go:184-192 | the footer put together from the running totals is the footer of the directory |
| Contents.ContentsAreUnique | internal/store/reader.go:95-124 | a file stands for at most one list of tables |
| Durability.StoredColumnReads | internal/store/reader.go:95-124 | whatever can be read of a stored column is right, its zone map true and its index sound; within the chunk reader's limits all of it can be read |
| Durability.MarkReads | internal/format/recover.go:37-52 | every completed footer within the footer reader's limits can be read where it was written, whatever has become of the chunks |
| Durability.FitZones | internal/format/footer.go:72-91 | rows within the chunk reader's limits have zone maps within the footer reader's |
| Durability.DirectoryHolds | internal/store/reader.go:95-124 | a footer over segments of a size the reader accepts is true of exactly their rows, and all of them can be read when every chunk is within its limits |
| Durability.SegmentsFitAreRepresentable | internal/column/chunk.go:34-57 | segments within the chunk reader's limits are of a size the reader accepts, so the last tier of the theorems implies the middle one |
| Durability.CheckpointsSurvive | internal/format/recover.go:19-53 | cut anywhere after a completed footer, the file opens to the latest valid footer, which ends no earlier, though no chunk be readable; if it is that footer and segments are of a size the reader accepts, all that is read is true of exactly the records accepted before it; within the chunk limits all of it can be read |
| Durability.EarlierCheckpointsSurvive | pkg/ntcf/writer.go:164-182 | the same, in the same three steps, for a checkpoint taken at any earlier point of the run, whatever the writer did since |
| Durability.ClosedFilesOpen | pkg/ntcf/writer.go:278-292 | a closed file opens without recovery, though no chunk be readable; what is read of it is true of exactly the accepted records, and within the chunk limits all of it can be read |
| Durability.PlainIntegersFit | internal/column/chunk.go:34-139 | uncompressed integer tables of at most MaxSegmentRows rows are always within the chunk limits |
| Layout.FooterLayout | pkg/ntcf/writer.go:200-276 | in every footer emitted, chunk and index regions ascend, are pairwise disjoint and lie between the header and the footer's start; an earlier footer lists a prefix of its segments and overlaps none of its regions |
| Layout.RegionsAre | pkg/ntcf/writer.go:200-276 | every chunk and every index of every segment is among these regions |
| Layout.SegmentSpanCovers | pkg/ntcf/writer.go:252-256 | a segment's recorded time span covers its timestamps if and only if they are all below 2^63 or all at or above it |
| Layout.SpanCanMiss | pkg/ntcf/writer.go:252-256 | it fails for the timestamps 0 and 2^63 |
| Layout.FileSpanCovers | pkg/ntcf/writer.go:257-266 | the file's span covers every segment's and is attained |
| Layout.FooterSpanCovers | pkg/ntcf/writer.go:252-266 | timestamps below 2^63 lie in the span the footer claims |
| Queries.LiteralOf | internal/query/exec.go:321-347 | a literal normalises to a value of the column's own domain, or to nothing |
| Queries.LiteralsAre | internal/query/exec.go:321-347 | how each type reads a literal: counts and ports as digits, bools by name or digit, strings as they stand, addresses and only they by the address parser |
| Queries.TimesAre | internal/query/exec.go:349-361 | times are read as a date, else as a signed number, else as an unsigned one |
| Queries.ComparisonsAre | internal/query/exec.go:295-317 | a null or unreadable literal satisfies nothing; else exactly one of <, = and > holds, != negates =, and < is numeric or byte by byte |
| Queries.InIsAny | internal/query/exec.go:167-177 | IN holds exactly when one of its equalities does |
| Queries.HitsOf | internal/query/exec.go:127-160 | conjunction intersects, disjunction unites, and no WHERE takes every row |
| Queries.KnownIs | internal/query/exec.go:77-99 | an expression is over known columns exactly when every name in it is a column's |
| Queries.TallyIsCount | internal/index/inverted.go:87-108 | the number of positions of a value is the number of rows that hold it |
| Queries.HitsCount | internal/query/exec.go:408 | the bitmap's cardinality is the number of rows that pass |
| Evaluate.SegCtx.Col | internal/query/exec.go:112-123 | a decoded column, cached or not, is the column; only a damaged chunk is an error |
| Evaluate.SegCtx.ScanEq | internal/query/exec.go:231-257 | the scan finds exactly the rows of the value |
| Evaluate.SegCtx.EvalScan | internal/query/exec.go:259-317 | the scan finds exactly the present values that compare: by number, or byte by byte; none when the literal does not normalise |
| Evaluate.SegCtx.EvalEquality | internal/query/exec.go:187-229 | zone map, Bloom filter, inverted index and scan all give exactly the rows equal to the literal |
| Evaluate.SegCtx.EvalCmp | internal/query/exec.go:162-183 | a comparison gives exactly the rows that satisfy it; IN is the union of equalities |
| Evaluate.SegCtx.EvalExpr | internal/query/exec.go:133-159 | intersection and union give exactly the rows that satisfy the tree |
| Evaluate.SegCtx.EvalSegment | internal/query/exec.go:127-160 | the bitmap is exactly the set of positions of rows that satisfy the predicate with nulls false |
| Evaluate.OutsideZone | internal/query/exec.go:198-200 | a value outside the zone map has no row |
| Evaluate.NotInBloom | internal/query/exec.go:201-203 | a value the filter excludes has no row |
| Execute.ValidateExpr | internal/query/exec.go:77-99 | accepts exactly the trees over known columns |
| Execute.ValidateStmt | internal/query/exec.go:57-75 | accepts exactly the statements over known columns |
| Execute.KnownColumnsAre | internal/query/exec.go:57-99 | a statement is accepted exactly when the ranked, the projected and the compared names are columns |
| Execute.ExecCount | internal/query/exec.go:396-412 | count(*) is the number of rows that pass, whether summed over bitmaps or read off the footer's total |
| Execute.EmitRows | internal/query/exec.go:553-561 | one segment's matching rows in order, until the limit |
| Execute.ExecRows | internal/query/exec.go:508-565 | the first min(limit, matches) matching rows in file order across segments, 1000 when no limit is given; the header is the names asked for, in their order, or with * the schema's, and under each name stands that column's cell |
| Execute.ProjectionIs | internal/query/exec.go:508-565 | the same of the answer as a value, for any list of selected rows |
| Execute.FormatCell | internal/query/exec.go:363-371 | a cell is shown by its type, a null as nothing |
| Execute.CellsAreShown | internal/query/exec.go:363-392 | counts and ports are shown in decimal, bools by name, strings as they stand, a null as nothing |
| Execute.ShownIsRead | internal/query/exec.go:321-392 | a count, port, string or 0-1 bool as shown is read back as the same value, so that it can be asked for |
| Numerals.DecimalReads | internal/query/exec.go:337-341 | a number written in decimal is read back |
| Numerals.DigitsCount | internal/query/exec.go:337-341 | each digit counts its power of ten |
| TopValues.HistogramIsExact | internal/index/inverted.go:87-108 | the index's cardinalities are the true counts of the column's values |
| TopValues.MergeHistogram | internal/query/exec.go:435-446 | merging an index's histogram adds the segment's counts, in whatever order the map yields, without wrap-around |
| TopValues.CountRows | internal/query/exec.go:461-472 | counting over the bitmap adds the matching rows' non-null values |
| TopValues.CountSegment | internal/query/exec.go:425-474 | fast path or scan, a segment adds exactly its matching rows' counts |
| TopValues.Rank | internal/query/exec.go:490-495 | sorts by count descending, then shown key; a permutation of the items |
| TopValues.ExecTop | internal/query/exec.go:416-504 | top(col, N) shows the first N of all stored values that occur in matching rows, row by row the key and the decimal count, most frequent first and equals by key, each once with its exact count, over any mix of indexed and scanned segments |
| TopValues.TopIs | internal/query/exec.go:490-502 | what is shown of a ranking: its first N items, none left out ranking before one shown |
| TopValues.RankingCountsRows | internal/query/exec.go:416-504 | the counts sum to the number of matching rows with a value |
| Engine.ExecuteStmt | internal/query/exec.go:42-55 | an unknown column is refused, damage is an error, and any answer is the relational meaning of the statement |
| Engine.RankingsShowTheSame | internal/query/exec.go:490-502 | the ranking shown is determined although the sort is not stable and distinct values may look alike |
| Engine.AnswersAreDetermined | internal/query/exec.go:42-55 | a statement has exactly one answer on a table: segmentation, compression and indexes make no difference |
| Lexer.LexString | internal/query/lex.go:58-77 | undoes doubled quotes up to the closing quote, or reports that it is missing |
| Lexer.Lex | internal/query/lex.go:50-106 | the index-advancing loop yields the longest tokens in order and the end marker, or an error |
| Lexer.LexingInvertsPrinting | internal/query/lex.go:50-106 | any identifiers, numbers, marks and arbitrary strings, printed with doubled quotes and white space only where two would fuse, lex back to the same tokens and the end marker |
| Lexer.LexesExactly | internal/query/lex.go:50-106 | a text lexes to these tokens if and only if it is one of the ways to write them |
| Lexer.IdentifiersAre | internal/query/lex.go:108-110 | exactly the identifiers: a letter or underscore, then letters, digits, underscores and dots |
| Lexer.NumbersAre | internal/query/lex.go:90-96 | exactly the numbers: a digit, then digits and dots |
| Lexer.MarksAre | internal/query/lex.go:79-89 | exactly the marks |
| Lexer.BlanksAre | internal/query/lex.go:55-57 | exactly the white space |
| Lexer.QuotesAreDoubled | internal/query/lex.go:58-77 | in a literal a quote is written twice and any other byte as it is |
| Lexer.LexedIsEnded | internal/query/lex.go:104-105 | every lexing yields printable tokens and then exactly one end marker |
| Lexer.PrintingInvertsLexing | internal/query/lex.go:50-106 | the tokens of any query that lexes, printed with white space between and lexed again, are the same tokens |
| Parser.TokenParser.Next | internal/query/parse.go:63-64 | advances past the current token, which exists |
| Parser.TokenParser.EatKeyword | internal/query/parse.go:66-73 | consumes the keyword, its letters capital or not, or nothing |
| Parser.KeywordsAreSpelled | internal/query/parse.go:66-73 | a word is taken for a keyword exactly when each of its bytes is the keyword's letter or that letter's capital |
| Parser.TokenParser.ParseValuesAt | internal/query/parse.go:237-248 | reads the values of an IN list and stops at what follows |
| Parser.TokenParser.ParseCmpAt | internal/query/parse.go:227-266 | reads one comparison and exactly its tokens, or fails |
| Parser.TokenParser.ParseFactorAt | internal/query/parse.go:213-225 | reads a parenthesised expression or a comparison |
| Parser.TokenParser.ParseAndAt | internal/query/parse.go:198-211 | the AND loop associates to the left |
| Parser.TokenParser.ParseOrAt | internal/query/parse.go:183-196 | the OR loop associates to the left |
| Parser.TokenParser.ParseSelectListAt | internal/query/parse.go:125-179 | reads star, count(*), top(col[, N]) or a projection |
| Parser.TokenParser.ParseStmtAt | internal/query/parse.go:87-123 | parses a whole statement, terminates, and never indexes past the end marker |
| Parser.Parse | internal/query/parse.go:54-61 | lexes and parses |
| Grammar.ExprReads | internal/query/parse.go:181-276 | any expression of the grammar, with any parentheses, keyword spellings, string or number literals, is parsed to what it stands for and exactly its tokens |
| Grammar.FormReads | internal/query/parse.go:87-179 | so is any statement; top(col) without a number means ten |
| Grammar.ParsesExactly | internal/query/lex.go:8-21 | the parser accepts exactly the grammar: a token list parses to a statement if and only if it is one of the ways to write it |
| Grammar.QueriesExactly | internal/query/lex.go:8-21 | the query language: a text parses to a statement if and only if it writes a form of it |
| Printing.ExprRoundTrip | internal/query/parse.go:181-276 | a WHERE tree printed with only the parentheses precedence and left association need is parsed to the identical tree, consuming exactly those tokens, when AND and OR do not follow |
| Printing.StmtRoundTrip | internal/query/parse.go:87-179 | a statement's tokens parse to the identical statement |
| Printing.CapitalsRead | internal/query/parse.go:66-73 | a printed statement is parsed to the same statement when any letters of its keywords are replaced by their capitals |
| Printing.TextRoundTrip | internal/query/parse.go:54-61 | a statement written as text, its keywords in any mix of capitals and white space only where tokens would fuse, parses to the identical statement |
| Printing.ParsedIsPrintable | internal/query/parse.go:87-123 | every statement the parser yields can be written as text |
| Printing.PrintingInvertsParsing | internal/query/parse.go:54-61 | a query that parses, printed and parsed again, is the same statement |
| EndToEnd.ClosedWriterReads | pkg/ntcf/writer.go:278-292 | however its writes failed on the way, a closed writer has left a file that opens; what is read of it is true of exactly the records it accepted, and within the chunk limits all of it can be read |
| EndToEnd.QueryImage | internal/query/exec.go:42-55 | a query on an image, recovered if need be, is answered correctly or with an error, and never kills the process |
| EndToEnd.QueryAfterCrash | pkg/ntcf/writer.go:164-182 | after a cut behind a checkpoint with no later valid footer, every query over known columns is answered by its meaning on exactly the records accepted before it, or with an error; with an answer when all chunks are within the limits |

## Left out

- Compression, hashing, checksum and Roaring internals: libraries outside the repository; parameters of the model.
- Bloom sizing in floating point and its false-positive rate (internal/index/bloom.go:32-53): only the outcome, at least one word and 1 to 32 probes, is used.
- Parsing and formatting of IP addresses and dates (internal/query/exec.go:349-361, 373-392): partial parsing functions and total display functions, shared by engine and specification; numbers, bools and strings are modelled.
- Error texts and wrapped context: an error is its sentinel; writer and sink errors have sentinels of their own.
- Pruned and Scanned counters and the decoded flag (internal/query/exec.go:569-575): the top fast path skips them, so they satisfy no clean invariant.
- Search (internal/query/search.go): an OR of equalities, covered by the evaluation theorem.
- Adapters, decoding of input formats, data generation, the ingest loop, tailing, the CLI and benchmarks: plumbing around the modelled core.
- Wall-clock checkpoint scheduling and file descriptors: a checkpoint is a call that may come at any time, a file is its bytes.
- Memory use and recursion depth: only the limit that a slice holds at most as many elements as the largest int is modelled, in the run-length decoders, where the source can reach it.
- Fields updated in place by other goroutines: the source's types are not safe for concurrent use and the model has one caller.
- Durability.CheckpointsSurvive: says nothing of the rows when bytes behind the checkpoint happen to form a later valid footer; the footer then opened is still the latest valid one.
- Durability.DirectoryHolds: a segment above MaxSegmentRows rows, possible only after a failed flush, is refused when read; the rows of a log holding one are not described.
- EndToEnd.QueryAfterCrash: has both hypotheses.
- InvertedIndex.BuildInverted: the two typed maps of the source are one map keyed by the cell.
- TopValues.ExecTop: the two typed histograms of the source are one keyed by the stored value.
- Writers.NewWriter: the zstd level is left out and the creation time is a parameter; the sink's earlier bytes are not part of the file a writer describes.
- Parser.EqualFold: folds ASCII letters only, which is all an identifier token can contain.
