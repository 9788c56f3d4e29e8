/** What a Writer has put into its sink, as a value: the bytes, the segment
    directory, the rows behind it, and the footers completed so far. The Writer
    keeps this log consistent; crash recovery is a property of the log. */
module WriterLog {
  import opened Bits
  import opened Wrappers
  import opened Limits
  import opened Libraries
  import opened Varint
  import opened Column
  import opened Chunk
  import opened Schemas
  import opened FooterFormat
  import opened ColumnIndexes
  import opened BloomFilter
  import opened InvertedIndex
  import opened Records

  /** What is fixed when the writer is made. tsCol is the first timestamp column, or -1. */
  datatype Setup = Setup(
    p: Platform, schema: Schema, header: FooterFormat.Header, compression: byte,
    segmentRows: nat, sourceType: bytes, buildInverted: bool)

  /** The first timestamp column. */
  function TsCol(s: Schema): (k: int)
    ensures -1 <= k < |s.columns|
  {
    FirstTs(s, 0)
  }

  function FirstTs(s: Schema, from: nat): (k: int)
    requires from <= |s.columns|
    ensures -1 <= k < |s.columns|
    decreases |s.columns| - from
  {
    if from == |s.columns| then -1
    else if s.columns[from].typ == TYPE_TIMESTAMP then from
    else FirstTs(s, from + 1)
  }

  lemma {:induction false} TsColIsTimestamp(s: Schema, from: nat)
    requires from <= |s.columns|
    ensures FirstTs(s, from) >= 0 ==> s.columns[FirstTs(s, from)].typ == TYPE_TIMESTAMP
    decreases |s.columns| - from
  {
    if from < |s.columns| && s.columns[from].typ != TYPE_TIMESTAMP {
      TsColIsTimestamp(s, from + 1);
    }
  }

  /** The column that times segments is the first timestamp column, if there is one. */
  lemma {:induction false} TsColIs(s: Schema, from: nat)
    requires from <= |s.columns|
    ensures var t := FirstTs(s, from);
            if t < 0 then forall j :: from <= j < |s.columns| ==> s.columns[j].typ != 0
            else from <= t && s.columns[t].typ == 0 && forall j :: from <= j < t ==> s.columns[j].typ != 0
    decreases |s.columns| - from
  {
    if from < |s.columns| && s.columns[from].typ != TYPE_TIMESTAMP {
      TsColIs(s, from + 1);
    }
  }

  /** The rows and the indexes of a committed segment. */
  datatype Group = Group(rows: seq<Row>, indexes: seq<ColumnIndex>)

  /** A completed footer: where it lies, how many segments and records it covers. */
  datatype Mark = Mark(start: nat, end: nat, segs: nat, records: nat)

  datatype Log = Log(
    data: bytes, segments: seq<SegmentDir>, groups: seq<Group>, buffered: seq<Row>, accepted: seq<Row>,
        marks: seq<Mark>)

  // ----- one stored segment ------------------------------------------------------------

  function ZoneStats(cd: ColumnDir, rows: nat): Stats {
    Stats(rows, cd.nonNull, cd.hasNulls, cd.minInt, cd.maxInt, cd.minBytes, cd.maxBytes)
  }

  /** Region [off, off+len) of the file holds exactly these bytes. */
  ghost predicate HoldsAt(data: bytes, off: nat, len: nat, what: bytes) {
    off + len <= |data| && data[off..off + len] == what
  }

  /** The chunk and the zone map of one column of a segment. */
  ghost predicate ChunkStored(u: Setup, data: bytes, def: ColumnDef, cd: ColumnDir, cells: seq<Cell>) {
    && |cells| <= MAX_INT
    && HoldsAt(data, cd.chunkOffset, cd.chunkLength, ChunkBytes(u.p, u.compression, def.Kind(), cells))
    && StatsOf(ZoneStats(cd, |cells|), def.Kind(), cells)
  }

  /** What index building guarantees, whatever the size of the column. */
  ghost predicate IndexMade(u: Setup, ci: ColumnIndex, kind: Kind, cells: seq<Cell>) {
    && SoundIndex(u.p, ci, kind, cells)
    && (ci.bloom.Some? ==> |cells| <= MAX_SEGMENT_ROWS ==> BloomFits(ci.bloom.value))
    && (ci.inverted.Some? ==> |ci.inverted.value.rows| <= MAX_CARDINALITY)
  }

  /** One column of a segment: chunk, zone map, and the index if the schema asks for one. */
  ghost predicate ColumnStored(u: Setup, data: bytes, def: ColumnDef, cd: ColumnDir, cells: seq<Cell>,
      ci: ColumnIndex) {
    && ChunkStored(u, data, def, cd, cells)
    && IndexMade(u, ci, def.Kind(), cells)
    && if def.indexed then
         cd.indexLength > 0 && HoldsIndexAt(u.p, data, cd.indexOffset, cd.indexLength, ci)
       else cd.indexOffset == cd.indexLength == 0 && ci == ColumnIndex(None, None)
  }

  ghost predicate HoldsIndexAt(p: Platform, data: bytes, off: nat, len: nat, ci: ColumnIndex) {
    off + len <= |data| && IsIndexBytes(p, ci, data[off..off + len])
  }

  /** Where a column's bytes end. */
  function ColumnEnd(cd: ColumnDir): nat {
    cd.chunkOffset + cd.chunkLength + cd.indexLength
  }

  /** Column j's chunk begins where column j - 1 ends, its index where its chunk ends. */
  predicate TileAt(columns: seq<ColumnDir>, from: nat, j: nat)
    requires j < |columns|
  {
    && columns[j].chunkOffset == (if j == 0 then from else ColumnEnd(columns[j - 1]))
    && (columns[j].indexLength > 0 ==> columns[j].indexOffset == columns[j].chunkOffset + columns[j].chunkLength)
  }

  /** Chunks and indexes lie back to back from `from` on. */
  ghost predicate Tiled(columns: seq<ColumnDir>, from: nat) {
    forall j :: 0 <= j < |columns| ==> TileAt(columns, from, j)
  }

  function TiledEnd(columns: seq<ColumnDir>, from: nat): nat {
    if columns == [] then from else ColumnEnd(columns[|columns| - 1])
  }

  /** The time span a segment records: the timestamp column's bounds as int64. */
  predicate TimesRecorded(s: Schema, seg: SegmentDir)
    requires |seg.columns| == |s.columns|
  {
    var t := TsCol(s);
    if t >= 0 && seg.columns[t].nonNull > 0 then
      seg.minTS == ToI64(seg.columns[t].minInt) && seg.maxTS == ToI64(seg.columns[t].maxInt)
    else seg.minTS == seg.maxTS == 0
  }

  ghost predicate SegmentStored(u: Setup, data: bytes, seg: SegmentDir, g: Group) {
    var s := u.schema;
    && RowsOk(s, g.rows) && 1 <= |g.rows| <= MAX_INT
    && seg.rows == |g.rows|
    && |seg.columns| == |s.columns| == |g.indexes|
    && Tiled(seg.columns, seg.offset) && TiledEnd(seg.columns, seg.offset) == seg.offset + seg.length
    && TimesRecorded(s, seg)
    && forall j :: 0 <= j < |s.columns| ==>
         ColumnStored(u, data, s.columns[j], seg.columns[j], ColumnOf(s, g.rows, j), g.indexes[j])
  }

  function SegmentEnd(seg: SegmentDir): nat {
    seg.offset + seg.length
  }

  // ----- file totals ----------------------------------------------------------------------

  function RowsIn(groups: seq<Group>): seq<seq<Row>> {
    seq(|groups|, i requires 0 <= i < |groups| => groups[i].rows)
  }

  function AllRows(groups: seq<Group>): seq<Row> {
    Flatten(RowsIn(groups))
  }

  function TotalRows(segs: seq<SegmentDir>): nat {
    if segs == [] then 0 else TotalRows(segs[..|segs| - 1]) + segs[|segs| - 1].rows
  }

  /** Whether any segment has a time span, and the span of them all. */
  datatype Span = Span(have: bool, min: i64, max: i64)

  function HasTimes(s: Schema, seg: SegmentDir): bool {
    var t := TsCol(s);
    t >= 0 && t < |seg.columns| && seg.columns[t].nonNull > 0
  }

  function Widen(sp: Span, lo: i64, hi: i64): Span {
    if !sp.have then Span(true, lo, hi)
    else Span(true, if lo < sp.min then lo else sp.min, if hi > sp.max then hi else sp.max)
  }

  function FileSpan(s: Schema, segs: seq<SegmentDir>): Span {
    if segs == [] then Span(false, 0, 0)
    else
      var sp := FileSpan(s, segs[..|segs| - 1]);
      var seg := segs[|segs| - 1];
      if HasTimes(s, seg) then Widen(sp, seg.minTS, seg.maxTS) else sp
  }

  /** The footer over a list of segments; the row total is a uint64. */
  function FooterOf(u: Setup, segs: seq<SegmentDir>): Footer {
    var sp := FileSpan(u.schema, segs);
    Footer(u.schema, u.sourceType, TotalRows(segs) % TWO64, sp.min, sp.max, segs)
  }

  // ----- the log ----------------------------------------------------------------------------

  ghost predicate SetupOk(u: Setup) {
    && Lossless(u.p) && KnownCodec(u.compression)
    && WellFormed(u.schema)
    && u.header.version == FORMAT_VERSION && |u.header.writerID| == 16
    && 1 <= u.segmentRows <= MAX_SEGMENT_ROWS
  }

  /** A completed footer lies after the segments it covers and before all others. */
  ghost predicate MarkOk(u: Setup, l: Log, m: Mark) {
    && HEADER_SIZE <= m.start <= m.end <= |l.data|
    && m.segs <= |l.segments| && m.segs <= |l.groups|
    && HoldsAt(l.data, m.start, m.end - m.start, FooterBytes(u.p, FooterOf(u, l.segments[..m.segs])))
    && m.records == |AllRows(l.groups[..m.segs])|
    && (forall i :: 0 <= i < m.segs ==> SegmentEnd(l.segments[i]) <= m.start)
    && (forall i :: m.segs <= i < |l.segments| ==> m.end <= l.segments[i].offset)
  }

  /** Segments are in ascending order, disjoint, and after the header. */
  ghost predicate SegmentsInOrder(segs: seq<SegmentDir>, limit: nat) {
    && (forall i :: 0 <= i < |segs| ==> HEADER_SIZE <= segs[i].offset && SegmentEnd(segs[i]) <= limit)
    && (forall i, j :: 0 <= i < j < |segs| ==> SegmentEnd(segs[i]) <= segs[j].offset)
  }

  ghost predicate MarksInOrder(marks: seq<Mark>) {
    forall a, b :: 0 <= a < b < |marks| ==>
      marks[a].end <= marks[b].start && marks[a].segs <= marks[b].segs && marks[a].records <= marks[b].records
  }

  ghost predicate LogOk(u: Setup, l: Log) {
    && HEADER_SIZE <= |l.data| <= MAX_INT && HeaderBytes(u.p, u.header) <= l.data
    && |l.segments| == |l.groups|
    && (forall i :: 0 <= i < |l.segments| ==> SegmentStored(u, l.data, l.segments[i], l.groups[i]))
    && SegmentsInOrder(l.segments, |l.data|)
    && (forall k :: 0 <= k < |l.marks| ==> MarkOk(u, l, l.marks[k]))
    && MarksInOrder(l.marks)
    && RowsOk(u.schema, l.accepted) && |l.accepted| <= MAX_INT
    && l.accepted == AllRows(l.groups) + l.buffered
  }

  /** l is reached from l0 by more writing: nothing recorded is ever taken back. */
  predicate Extends(l0: Log, l: Log) {
    && l0.data <= l.data && l0.segments <= l.segments && l0.groups <= l.groups
    && l0.accepted <= l.accepted && l0.marks <= l.marks
  }

  lemma ExtendsTransitive(a: Log, b: Log, c: Log)
    requires Extends(a, b) && Extends(b, c)
    ensures Extends(a, c)
  {
  }

  // ----- bytes are only appended ----------------------------------------------------------------

  lemma SliceStable(data: bytes, data': bytes, lo: nat, hi: nat)
    requires data <= data' && lo <= hi <= |data|
    ensures data'[lo..hi] == data[lo..hi]
  {
  }

  lemma ColumnStable(u: Setup, data: bytes, data': bytes, def: ColumnDef, cd: ColumnDir, cells: seq<Cell>,
      ci: ColumnIndex)
    requires ColumnStored(u, data, def, cd, cells, ci) && data <= data'
    ensures ColumnStored(u, data', def, cd, cells, ci)
  {
    hide ChunkBytes, StatsOf, IndexMade, IsIndexBytes;
    SliceStable(data, data', cd.chunkOffset, cd.chunkOffset + cd.chunkLength);
    if def.indexed {
      SliceStable(data, data', cd.indexOffset, cd.indexOffset + cd.indexLength);
    }
  }

  lemma SegmentStable(u: Setup, data: bytes, data': bytes, seg: SegmentDir, g: Group)
    requires SegmentStored(u, data, seg, g) && data <= data'
    ensures SegmentStored(u, data', seg, g)
  {
    hide ColumnStored, RowsOk, Tiled, TimesRecorded, TiledEnd;
    forall j | 0 <= j < |u.schema.columns|
      ensures ColumnStored(u, data', u.schema.columns[j], seg.columns[j], ColumnOf(u.schema, g.rows, j), g.indexes[j])
    {
      ColumnStable(u, data, data', u.schema.columns[j], seg.columns[j], ColumnOf(u.schema, g.rows, j), g.indexes[j]);
    }
  }

  lemma MarkStable(u: Setup, l: Log, l': Log, m: Mark)
    requires MarkOk(u, l, m)
    requires l.data <= l'.data && l.segments <= l'.segments && l.groups <= l'.groups
    requires forall i :: |l.segments| <= i < |l'.segments| ==> m.end <= l'.segments[i].offset
    ensures MarkOk(u, l', m)
  {
    hide FooterBytes, FooterOf, AllRows;
    assert l'.segments[..m.segs] == l.segments[..m.segs];
    assert l'.groups[..m.segs] == l.groups[..m.segs];
    SliceStable(l.data, l'.data, m.start, m.end);
    forall i | m.segs <= i < |l'.segments|
      ensures m.end <= l'.segments[i].offset
    {
      if i < |l.segments| {
        assert l'.segments[i] == l.segments[i];
      }
    }
  }

  /** Bytes that end up in no directory change nothing. */
  lemma LogGrows(u: Setup, l: Log, data': bytes)
    requires LogOk(u, l) && l.data <= data' && |data'| <= MAX_INT
    ensures LogOk(u, l.(data := data')) && Extends(l, l.(data := data'))
  {
    hide SegmentStored, MarkOk, RowsOk, AllRows, HeaderBytes;
    var l' := l.(data := data');
    forall i | 0 <= i < |l.segments|
      ensures SegmentStored(u, data', l.segments[i], l.groups[i])
    {
      SegmentStable(u, l.data, data', l.segments[i], l.groups[i]);
    }
    forall k | 0 <= k < |l.marks|
      ensures MarkOk(u, l', l.marks[k])
    {
      MarkStable(u, l, l', l.marks[k]);
    }
  }

  /** A record enters the buffer. */
  lemma LogAccepts(u: Setup, l: Log, row: Row)
    requires LogOk(u, l) && RowOk(u.schema, row) && |l.accepted| < MAX_INT
    ensures var l' := l.(buffered := l.buffered + [row], accepted := l.accepted + [row]);
            LogOk(u, l') && Extends(l, l')
  {
    hide SegmentStored, AllRows, HeaderBytes, HoldsAt, FooterOf;
    var l' := l.(buffered := l.buffered + [row], accepted := l.accepted + [row]);
    forall k | 0 <= k < |l.marks|
      ensures MarkOk(u, l', l.marks[k])
    {
      assert MarkOk(u, l, l.marks[k]);
    }
    assert AllRows(l.groups) + l.buffered + [row] == AllRows(l.groups) + (l.buffered + [row]);
  }

  lemma AllRowsStep(groups: seq<Group>, g: Group)
    ensures AllRows(groups + [g]) == AllRows(groups) + g.rows
  {
    var all := RowsIn(groups + [g]);
    assert all[..|groups|] == RowsIn(groups);
  }

  /** A segment written after everything recorded so far is committed: the
      buffered rows move to it. */
  lemma LogCommits(u: Setup, l0: Log, l1: Log, seg: SegmentDir, g: Group)
    requires LogOk(u, l0) && LogOk(u, l1) && l1 == l0.(data := l1.data) && l0.data <= l1.data
    requires SegmentStored(u, l1.data, seg, g) && g.rows == l0.buffered
    requires seg.offset == |l0.data| && SegmentEnd(seg) <= |l1.data|
    ensures var l2 := l1.(segments := l1.segments + [seg], groups := l1.groups + [g], buffered := []);
            LogOk(u, l2) && Extends(l1, l2)
  {
    hide SegmentStored, RowsOk, AllRows, HeaderBytes, HoldsAt, FooterOf;
    var l2 := l1.(segments := l1.segments + [seg], groups := l1.groups + [g], buffered := []);
    forall k | 0 <= k < |l1.marks|
      ensures MarkOk(u, l2, l1.marks[k])
    {
      assert MarkOk(u, l0, l0.marks[k]);
      assert MarkOk(u, l1, l1.marks[k]);
      MarkStable(u, l1, l2, l1.marks[k]);
    }
    AllRowsStep(l1.groups, g);
    forall i, j | 0 <= i < j < |l2.segments|
      ensures SegmentEnd(l2.segments[i]) <= l2.segments[j].offset
    {
      if j == |l1.segments| {
        assert SegmentEnd(l0.segments[i]) <= |l0.data|;
      }
    }
    assert AllRows(l2.groups) + [] == AllRows(l2.groups);
  }

  /** A footer written after everything recorded so far becomes a mark. */
  lemma LogMarks(u: Setup, l0: Log, l1: Log)
    requires LogOk(u, l0) && LogOk(u, l1) && l1 == l0.(data := l1.data) && l0.buffered == []
    requires l1.data == l0.data + FooterBytes(u.p, FooterOf(u, l0.segments))
    ensures var m := Mark(|l0.data|, |l1.data|, |l0.segments|, |l0.accepted|);
            var l2 := l1.(marks := l1.marks + [m]);
            LogOk(u, l2) && Extends(l1, l2)
  {
    hide SegmentStored, RowsOk, AllRows, HeaderBytes, FooterOf, FooterBytes;
    var m := Mark(|l0.data|, |l1.data|, |l0.segments|, |l0.accepted|);
    var l2 := l1.(marks := l1.marks + [m]);
    assert l0.segments[..|l0.segments|] == l0.segments && l0.groups[..|l0.groups|] == l0.groups;
    assert l0.accepted == AllRows(l0.groups);
    assert MarkOk(u, l2, m);
    forall k | 0 <= k < |l2.marks|
      ensures MarkOk(u, l2, l2.marks[k])
      ensures k < |l1.marks| ==>
                l1.marks[k].end <= m.start && l1.marks[k].segs <= m.segs && l1.marks[k].records <= m.records
    {
      if k < |l1.marks| {
        assert MarkOk(u, l0, l0.marks[k]);
        MarkStable(u, l1, l2, l1.marks[k]);
        FewerRows(l0.groups, l1.marks[k].segs);
      }
    }
  }

  lemma FewerRows(groups: seq<Group>, k: nat)
    requires k <= |groups|
    ensures AllRows(groups[..k]) <= AllRows(groups)
  {
    FlattenSplit(RowsIn(groups), k);
    assert RowsIn(groups)[..k] == RowsIn(groups[..k]);
  }

  /** Before anything is written but the header. */
  lemma LogStarts(u: Setup)
    requires SetupOk(u)
    ensures LogOk(u, Log(HeaderBytes(u.p, u.header), [], [], [], [], []))
  {
    hide HeaderBytes, HeaderDecoded;
    HeaderRoundTrip(u.p, u.header, []);
    assert AllRows([]) == [];
  }

  lemma {:induction false} TotalRowsAre(segs: seq<SegmentDir>, groups: seq<Group>)
    requires |segs| == |groups| && forall i :: 0 <= i < |segs| ==> segs[i].rows == |groups[i].rows|
    ensures TotalRows(segs) == |AllRows(groups)|
  {
    if segs != [] {
      var last := |segs| - 1;
      TotalRowsAre(segs[..last], groups[..last]);
      assert groups == groups[..last] + [groups[last]];
      AllRowsStep(groups[..last], groups[last]);
    }
  }
}
