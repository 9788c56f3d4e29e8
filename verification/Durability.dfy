/** What survives a crash: every file a Writer can leave behind, cut at any point
    after a completed footer, opens to a footer no older than that one, and the
    rows behind that footer are exactly the records accepted before it. */
module Durability {
  import opened Bits
  import opened Wrappers
  import opened Limits
  import opened Libraries
  import opened Varint
  import opened Column
  import opened Chunk
  import opened Schemas
  import opened FooterFormat
  import opened ColumnIndexes
  import opened BloomFilter
  import opened InvertedIndex
  import opened Recovery
  import opened Store
  import opened Records
  import opened WriterLog
  import opened Contents

  // ----- the limits ------------------------------------------------------------------------

  /** The sizes the footer reader accepts. */
  ghost predicate DirectoryFits(u: Setup, segs: seq<SegmentDir>) {
    && NamesFit(u.schema) && |u.sourceType| <= MAX_NAME
    && |segs| <= MAX_SEGMENTS
    && (forall i, j :: 0 <= i < |segs| && 0 <= j < |segs[i].columns| ==> ZoneFits(segs[i].columns[j]))
    && |FooterBody(FooterOf(u, segs))| <= MAX_FOOTER_SIZE
  }

  /** A segment of the size the reader accepts, in numbers a machine can represent. */
  ghost predicate RowsRepresentable(u: Setup, rows: seq<Row>) {
    && RowsOk(u.schema, rows) && |rows| <= MAX_SEGMENT_ROWS
    && forall j :: 0 <= j < |u.schema.columns| ==>
         Representable(u.p, u.compression, u.schema.columns[j].Kind(), ColumnOf(u.schema, rows, j))
  }

  /** Every column of these rows is stored within the sizes the chunk reader accepts. */
  ghost predicate RowsFit(u: Setup, rows: seq<Row>) {
    && RowsOk(u.schema, rows) && |rows| <= MAX_INT
    && forall j :: 0 <= j < |u.schema.columns| ==>
         ChunkLimits(u.p, u.compression, u.schema.columns[j].Kind(), ColumnOf(u.schema, rows, j))
  }

  /** The first k segments are of a size the reader accepts. */
  ghost predicate SegmentsRepresentable(u: Setup, l: Log, k: nat) {
    k <= |l.groups| && forall i :: 0 <= i < k ==> RowsRepresentable(u, l.groups[i].rows)
  }

  /** The first k segments are within the chunk reader's limits. */
  ghost predicate SegmentsFit(u: Setup, l: Log, k: nat) {
    k <= |l.groups| && forall i :: 0 <= i < k ==> RowsFit(u, l.groups[i].rows)
  }

  lemma LimitsImplyRepresentable(p: Platform, comp: byte, kind: Kind, cells: seq<Cell>)
    requires |cells| <= MAX_INT && ColumnOk(kind, cells) && ChunkLimits(p, comp, kind, cells)
    ensures Representable(p, comp, kind, cells)
    ensures forall i :: 0 <= i < |cells| && cells[i].Blob? ==> |cells[i].b| <= MAX_BYTES_VALUE
  {
    hide Payload, Stored, ByteCodecs.BytesEncoding, IntSelector.IntsEncoding, ByteCodecs.TotalLen;
    forall i | 0 <= i < |cells|
      ensures cells[i].Blob? ==> |cells[i].b| <= MAX_BYTES_VALUE
      ensures |BlobsOf(cells)[i]| <= MAX_BYTES_VALUE
    {
      assert CellOk(kind, cells[i]);
      if kind == KindBytes {
        assert ByteCodecs.Fits(BlobsOf(cells)[i]);
      }
    }
  }

  // ----- one column ----------------------------------------------------------------------------

  /** Columns lie inside their segment, one after the other. */
  lemma {:induction false} ColumnsInside(columns: seq<ColumnDir>, from: nat, j: nat)
    requires Tiled(columns, from) && j < |columns|
    ensures from <= columns[j].chunkOffset && ColumnEnd(columns[j]) <= TiledEnd(columns, from)
    ensures j > 0 ==> columns[j].chunkOffset == ColumnEnd(columns[j - 1])
    decreases j
  {
    assert TileAt(columns, from, j);
    if j > 0 {
      ColumnsInside(columns, from, j - 1);
    }
    ColumnEndsGrow(columns, from, j, |columns| - 1);
  }

  lemma {:induction false} ColumnEndsGrow(columns: seq<ColumnDir>, from: nat, j: nat, k: nat)
    requires Tiled(columns, from) && j <= k < |columns|
    ensures ColumnEnd(columns[j]) <= ColumnEnd(columns[k])
    ensures j < k ==> ColumnEnd(columns[j]) <= columns[k].chunkOffset
    decreases k
  {
    assert TileAt(columns, from, k);
    if j < k {
      ColumnEndsGrow(columns, from, j, k - 1);
    }
  }

  /** A column that lies before the cut is still there after it. */
  lemma ColumnCut(u: Setup, data: bytes, cut: bytes, def: ColumnDef, cd: ColumnDir, cells: seq<Cell>, ci: ColumnIndex)
    requires ColumnStored(u, data, def, cd, cells, ci) && cut <= data && ColumnEnd(cd) <= |cut|
    requires cd.indexLength > 0 ==> cd.indexOffset == cd.chunkOffset + cd.chunkLength
    ensures ColumnStored(u, cut, def, cd, cells, ci)
  {
    hide ChunkBytes, StatsOf, IndexMade, IsIndexBytes;
    SliceStable(cut, data, cd.chunkOffset, cd.chunkOffset + cd.chunkLength);
    if def.indexed {
      SliceStable(cut, data, cd.indexOffset, cd.indexOffset + cd.indexLength);
    }
  }

  /** Whatever can be read of a stored column is right, and within the limits all
      of it can: the chunk, the zone map and the index. */
  lemma StoredColumnReads(u: Setup, r: Reader, i: nat, j: nat, def: ColumnDef, cells: seq<Cell>, ci: ColumnIndex)
    requires SetupOk(u) && |r.data| <= MAX_INT
    requires i < |r.footer.segments| && j < |r.footer.segments[i].columns|
    requires ColumnStored(u, r.data, def, r.footer.segments[i].columns[j], cells, ci)
    requires ColumnOk(def.Kind(), cells) && |cells| <= MAX_SEGMENT_ROWS
    requires Representable(u.p, u.compression, def.Kind(), cells)
    ensures ColumnTrue(u.p, r, i, j, def.Kind(), cells)
    ensures ChunkLimits(u.p, u.compression, def.Kind(), cells) ==> ColumnReadable(u.p, r, i, j)
  {
    hide ChunkBytes, StatsOf, SoundIndex, IsIndexBytes, ChunkDecoded, CellsOf, Lossless, WellFormed, ChunkLimits,
         IndexDecoded, Representable, BloomFits, InvertedFits, IndexStorable, IndexFits;
    var cd := r.footer.segments[i].columns[j];
    ChunkRoundTrip(u.p, u.compression, def.Kind(), cells);
    RepresentableBlobs(u.p, u.compression, def.Kind(), cells);
    if def.indexed {
      BuiltIndexFits(u.p, ci, def.Kind(), cells);
      IndexReads(u.p, ci, r.data[cd.indexOffset..cd.indexOffset + cd.indexLength]);
    }
    if ChunkLimits(u.p, u.compression, def.Kind(), cells) {
      LimitsImplyRepresentable(u.p, u.compression, def.Kind(), cells);
    }
  }

  lemma RepresentableBlobs(p: Platform, comp: byte, kind: Kind, cells: seq<Cell>)
    requires |cells| <= MAX_INT && Representable(p, comp, kind, cells)
    ensures forall i :: 0 <= i < |cells| && cells[i].Blob? ==> |cells[i].b| < TWO64
  {
    hide Payload;
    forall i | 0 <= i < |cells| && cells[i].Blob?
      ensures |cells[i].b| < TWO64
    {
      assert BlobsOf(cells)[i] == cells[i].b;
    }
  }

  lemma LimitsBoundRows(p: Platform, comp: byte, kind: Kind, cells: seq<Cell>)
    requires |cells| <= MAX_INT && ChunkLimits(p, comp, kind, cells)
    ensures |cells| <= MAX_SEGMENT_ROWS
  {
  }

  // ----- one segment -----------------------------------------------------------------------------

  /** Rows within the chunk reader's limits are representable. */
  lemma FitIsRepresentable(u: Setup, rows: seq<Row>)
    requires SetupOk(u) && RowsFit(u, rows)
    ensures RowsRepresentable(u, rows)
  {
    hide ChunkLimits, Representable, ColumnOf, RowsOk, Lossless;
    forall j | 0 <= j < |u.schema.columns|
      ensures Representable(u.p, u.compression, u.schema.columns[j].Kind(), ColumnOf(u.schema, rows, j))
    {
      ColumnIsOk(u.schema, rows, j);
      LimitsImplyRepresentable(u.p, u.compression, u.schema.columns[j].Kind(), ColumnOf(u.schema, rows, j));
    }
    LimitsBoundRows(u.p, u.compression, u.schema.columns[0].Kind(), ColumnOf(u.schema, rows, 0));
  }

  lemma SegmentsFitAreRepresentable(u: Setup, l: Log, k: nat)
    requires SetupOk(u) && SegmentsFit(u, l, k)
    ensures SegmentsRepresentable(u, l, k)
  {
    hide RowsFit, RowsRepresentable, SetupOk;
    forall i | 0 <= i < k
      ensures RowsRepresentable(u, l.groups[i].rows)
    {
      FitIsRepresentable(u, l.groups[i].rows);
    }
  }

  lemma StoredSegmentReads(u: Setup, data: bytes, r: Reader, i: nat, g: Group)
    requires SetupOk(u) && r.footer.schema == u.schema && i < |r.footer.segments|
    requires SegmentStored(u, data, r.footer.segments[i], g) && RowsRepresentable(u, g.rows)
    requires r.data <= data && SegmentEnd(r.footer.segments[i]) <= |r.data| <= MAX_INT
    ensures SegmentTrue(u.p, r, i, g.rows)
    ensures RowsFit(u, g.rows) ==> SegmentReadable(u.p, r, i)
  {
    hide ColumnStored, ColumnTrue, ColumnReadable, ChunkLimits, WellFormed, Lossless, TimesRecorded, Tiled, TiledEnd,
         ColumnOf, Representable;
    var s, seg := u.schema, r.footer.segments[i];
    forall j | 0 <= j < |s.columns|
      ensures ColumnTrue(u.p, r, i, j, s.columns[j].Kind(), ColumnOf(s, g.rows, j))
      ensures ChunkLimits(u.p, u.compression, s.columns[j].Kind(), ColumnOf(s, g.rows, j)) ==>
              ColumnReadable(u.p, r, i, j)
    {
      var cells := ColumnOf(s, g.rows, j);
      ColumnsInside(seg.columns, seg.offset, j);
      IndexFollows(seg.columns, seg.offset, j);
      ColumnCut(u, data, r.data, s.columns[j], seg.columns[j], cells, g.indexes[j]);
      ColumnIsOk(s, g.rows, j);
      StoredColumnReads(u, r, i, j, s.columns[j], cells, g.indexes[j]);
    }
  }

  lemma IndexFollows(columns: seq<ColumnDir>, from: nat, j: nat)
    requires Tiled(columns, from) && j < |columns|
    ensures columns[j].indexLength > 0 ==> columns[j].indexOffset == columns[j].chunkOffset + columns[j].chunkLength
  {
    assert TileAt(columns, from, j);
  }

  /** Zone maps of stored columns have the shape the directory stores, and the
      length of a value of the column. */
  lemma ZoneOfStored(cd: ColumnDir, kind: Kind, cells: seq<Cell>)
    requires StatsOf(ZoneStats(cd, |cells|), kind, cells)
    ensures ZoneCanonical(kind, cd)
    ensures (forall i :: 0 <= i < |cells| && cells[i].Blob? ==> |cells[i].b| <= MAX_BYTES_VALUE) ==> ZoneFits(cd)
  {
    hide CountPresent, NotAbove;
    if kind == KindBytes && cd.nonNull > 0 {
      var i :| 0 <= i < |cells| && cells[i] == Blob(cd.minBytes);
      var j :| 0 <= j < |cells| && cells[j] == Blob(cd.maxBytes);
    }
  }

  lemma StoredSegmentFits(u: Setup, data: bytes, seg: SegmentDir, g: Group)
    requires SegmentStored(u, data, seg, g)
    requires forall j :: 0 <= j < |seg.columns| ==> ZoneFits(seg.columns[j])
    ensures SegmentFits(u.schema, seg)
  {
    hide TimesRecorded, Tiled, TiledEnd, ColumnOf, StatsOf, ZoneStats, IndexMade, HoldsIndexAt, ZoneCanonical, ZoneFits,
         RowsOk;
    var s := u.schema;
    forall j | 0 <= j < |s.columns|
      ensures ZoneCanonical(s.columns[j].Kind(), seg.columns[j])
    {
      var cells := ColumnOf(s, g.rows, j);
      assert ColumnStored(u, data, s.columns[j], seg.columns[j], cells, g.indexes[j]);
      ZoneOfStored(seg.columns[j], s.columns[j].Kind(), cells);
    }
  }

  /** Values within the byte limit have zone maps within it. */
  lemma FitZones(u: Setup, data: bytes, seg: SegmentDir, g: Group)
    requires SegmentStored(u, data, seg, g) && RowsFit(u, g.rows)
    ensures forall j :: 0 <= j < |seg.columns| ==> ZoneFits(seg.columns[j])
  {
    hide ChunkLimits, TimesRecorded, Tiled, TiledEnd, ColumnOf, StatsOf, ZoneStats, IndexMade, HoldsIndexAt,
         ZoneCanonical, ZoneFits;
    var s := u.schema;
    forall j | 0 <= j < |s.columns|
      ensures ZoneFits(seg.columns[j])
    {
      var cells := ColumnOf(s, g.rows, j);
      assert ColumnStored(u, data, s.columns[j], seg.columns[j], cells, g.indexes[j]);
      ColumnIsOk(s, g.rows, j);
      LimitsImplyRepresentable(u.p, u.compression, s.columns[j].Kind(), cells);
      ZoneOfStored(seg.columns[j], s.columns[j].Kind(), cells);
    }
  }

  // ----- a footer and what is behind it --------------------------------------------------------------

  lemma DirectoryReads(u: Setup, l: Log, k: nat)
    requires SetupOk(u) && LogOk(u, l) && k <= |l.segments| && DirectoryFits(u, l.segments[..k])
    ensures FooterFits(FooterOf(u, l.segments[..k]))
  {
    hide SegmentStored, MarkOk, AllRows, RowsOk, FooterBody, SegmentFits, HeaderBytes, TotalRows, FileSpan, Lossless,
         WellFormed, NamesFit, SegmentsInOrder, MarksInOrder, ZoneFits;
    var f := FooterOf(u, l.segments[..k]);
    forall i | 0 <= i < |f.segments|
      ensures SegmentFits(f.schema, f.segments[i])
    {
      assert f.segments[i] == l.segments[i];
      StoredSegmentFits(u, l.data, l.segments[i], l.groups[i]);
    }
  }

  /** Each completed footer can be read where it was written, whatever has become
      of the chunks. */
  lemma MarkReads(u: Setup, l: Log, m: Mark)
    requires SetupOk(u) && LogOk(u, l) && m in l.marks
    requires m.segs <= |l.segments| && DirectoryFits(u, l.segments[..m.segs])
    ensures HEADER_SIZE <= m.start <= m.end <= |l.data| && m.end >= HEADER_SIZE + FOOTER_TRAILER
    ensures FooterDecoded(u.p, l.data[..m.end]) == Ok(FooterOf(u, l.segments[..m.segs]))
  {
    hide SegmentStored, AllRows, RowsOk, FooterBody, FooterFits, DirectoryFits, FooterDecoded, FooterOf, HeaderBytes,
         SegmentsInOrder, MarksInOrder, Lossless, WellFormed, Trailer;
    var i :| 0 <= i < |l.marks| && l.marks[i] == m;
    assert MarkOk(u, l, l.marks[i]);
    var f := FooterOf(u, l.segments[..m.segs]);
    DirectoryReads(u, l, m.segs);
    FooterRoundTrip(u.p, l.data[..m.start], f);
    assert l.data[..m.end] == l.data[..m.start] + FooterBytes(u.p, f);
    FooterLength(u.p, f);
  }

  lemma FooterLength(p: Platform, f: Footer)
    ensures |FooterBytes(p, f)| >= FOOTER_TRAILER
  {
    hide FooterBody, LEBytes;
  }

  /** The rows behind a footer: those of its segments. */
  lemma DirectoryHolds(u: Setup, l: Log, k: nat, r: Reader)
    requires SetupOk(u) && LogOk(u, l) && k <= |l.segments| && SegmentsRepresentable(u, l, k)
    requires r.footer == FooterOf(u, l.segments[..k]) && r.data <= l.data
    requires forall i :: 0 <= i < k ==> SegmentEnd(l.segments[i]) <= |r.data|
    ensures Truthful(u.p, r, RowsIn(l.groups[..k])) && Flatten(RowsIn(l.groups[..k])) <= l.accepted
    ensures SegmentsFit(u, l, k) ==> Readable(u.p, r)
  {
    hide SegmentStored, RowsFit, RowsRepresentable, MarkOk, RowsOk, HeaderBytes, TotalRows, FileSpan, Lossless,
         SegmentTrue, SegmentReadable, Flatten, SegmentsInOrder, MarksInOrder;
    var groups := RowsIn(l.groups[..k]);
    forall i | 0 <= i < k
      ensures SegmentTrue(u.p, r, i, groups[i])
      ensures RowsFit(u, l.groups[i].rows) ==> SegmentReadable(u.p, r, i)
    {
      assert r.footer.segments[i] == l.segments[i] && groups[i] == l.groups[i].rows;
      StoredSegmentReads(u, l.data, r, i, l.groups[i]);
    }
    FewerRows(l.groups, k);
    assert AllRows(l.groups[..k]) <= l.accepted;
    forall i | 0 <= i < k
      ensures l.segments[..k][i].rows == |l.groups[..k][i].rows|
    {
      SegmentCounts(u, l.data, l.segments[i], l.groups[i]);
    }
    TotalRowsAre(l.segments[..k], l.groups[..k]);
  }

  lemma SegmentCounts(u: Setup, data: bytes, seg: SegmentDir, g: Group)
    requires SegmentStored(u, data, seg, g)
    ensures seg.rows == |g.rows|
  {
    hide ColumnStored, Tiled, TiledEnd, TimesRecorded, RowsOk;
  }

  /** The opened footer is that of mark m. */
  ghost predicate OpensAt(u: Setup, l: Log, m: Mark, r: Reader) {
    m.segs <= |l.segments| && r.footer == FooterOf(u, l.segments[..m.segs])
  }

  /** What is read of the file is true of the segments mark m covers, and they hold
      the first m.records of the accepted records. */
  ghost predicate TrueOfAccepted(u: Setup, l: Log, m: Mark, r: Reader) {
    && m.segs <= |l.groups|
    && var groups := RowsIn(l.groups[..m.segs]);
       Truthful(u.p, r, groups) && Flatten(groups) <= l.accepted && |Flatten(groups)| == m.records
  }

  // ----- the theorems -----------------------------------------------------------------------------------

  /** Durability. Cut the file anywhere after a completed footer: recovery opens a
      footer that ends no earlier, and unless the bytes beyond happen to form
      another valid footer it is that one. For this no chunk need be readable. With
      segments of a size the reader accepts, all that is read of the file is then
      true of exactly the records accepted before that footer; within the chunk
      reader's limits all of it can be read. */
  lemma CheckpointsSurvive(u: Setup, l: Log, m: Mark, len: nat)
    requires SetupOk(u) && LogOk(u, l) && m in l.marks
    requires m.segs <= |l.segments| && DirectoryFits(u, l.segments[..m.segs])
    requires m.end <= len <= |l.data|
    ensures Recovered(u.p, l.data[..len]).Ok?
    ensures var (r, scanned) := Recovered(u.p, l.data[..len]).value;
            && r.data == l.data[..len] && r.header == u.header
            && (exists end: nat :: m.end <= end && LatestEnd(u.p, r.data, end)
                 && FooterDecoded(u.p, r.data[..end]) == Ok(r.footer))
    ensures var (r, scanned) := Recovered(u.p, l.data[..len]).value;
            LatestEnd(u.p, l.data[..len], m.end) ==>
              && OpensAt(u, l, m, r)
              && (SegmentsRepresentable(u, l, m.segs) ==> TrueOfAccepted(u, l, m, r))
              && (SegmentsFit(u, l, m.segs) ==> SegmentsRepresentable(u, l, m.segs) && Readable(u.p, r))
  {
    hide SegmentStored, RowsFit, RowsRepresentable, RowsOk, DirectoryFits, FooterDecoded, FooterOf, HeaderBytes,
         HeaderDecoded, Lossless, Truthful, Readable, Flatten, SegmentsInOrder, MarksInOrder, WellFormed, FooterBytes,
         WalkBack, SegmentsRepresentable, SegmentsFit;
    var cut := l.data[..len];
    MarkReads(u, l, m);
    assert l.data[..m.end] == cut[..m.end];
    assert FooterEndsAt(u.p, cut, m.end);
    HeaderReads(u, l, len);
    RecoverFindsLatest(u.p, cut);
    var (r, scanned) := Recovered(u.p, cut).value;
    RecoveredHeader(u.p, cut);
    var end: nat :| LatestEnd(u.p, cut, end) && FooterDecoded(u.p, cut[..end]) == Ok(r.footer);
    assert m.end <= end;
    if LatestEnd(u.p, cut, m.end) {
      assert end == m.end;
      if SegmentsFit(u, l, m.segs) {
        SegmentsFitAreRepresentable(u, l, m.segs);
      }
      if SegmentsRepresentable(u, l, m.segs) {
        var i :| 0 <= i < |l.marks| && l.marks[i] == m;
        assert MarkOk(u, l, l.marks[i]);
        DirectoryHolds(u, l, m.segs, r);
      }
    }
  }

  lemma HeaderReads(u: Setup, l: Log, len: nat)
    requires SetupOk(u) && LogOk(u, l) && HEADER_SIZE <= len <= |l.data|
    ensures HeaderDecoded(u.p, l.data[..len]) == Ok(u.header)
  {
    hide SegmentStored, RowsOk, HeaderBytes, HeaderDecoded, Lossless, SegmentsInOrder, MarksInOrder, WellFormed,
         AllRows, MarkOk;
    var h := HeaderBytes(u.p, u.header);
    HeaderRoundTrip(u.p, u.header, l.data[..len][HEADER_SIZE..]);
    assert l.data[..len] == h + l.data[..len][HEADER_SIZE..];
  }

  lemma RecoveredHeader(p: Platform, data: bytes)
    requires Recovered(p, data).Ok?
    ensures HeaderDecoded(p, data) == Ok(Recovered(p, data).value.0.header)
  {
    hide HeaderDecoded, FooterDecoded, WalkBack;
  }

  /** What was accepted before a checkpoint is recovered whatever the writer went
      on to do: the log may have grown in any way since. */
  lemma EarlierCheckpointsSurvive(u: Setup, l0: Log, l: Log, m: Mark, len: nat)
    requires SetupOk(u) && LogOk(u, l0) && LogOk(u, l) && Extends(l0, l) && m in l0.marks
    requires m.segs <= |l.segments| && DirectoryFits(u, l.segments[..m.segs])
    requires m.end <= len <= |l.data| && LatestEnd(u.p, l.data[..len], m.end)
    ensures Recovered(u.p, l.data[..len]).Ok?
    ensures var r := Recovered(u.p, l.data[..len]).value.0;
            && OpensAt(u, l, m, r)
            && (SegmentsRepresentable(u, l, m.segs) ==> TrueOfAccepted(u, l, m, r))
            && (SegmentsFit(u, l, m.segs) ==> SegmentsRepresentable(u, l, m.segs) && Readable(u.p, r))
    ensures m.records <= |l0.accepted| && l0.accepted[..m.records] == l.accepted[..m.records]
  {
    hide SegmentStored, RowsOk, DirectoryFits, FooterDecoded, FooterOf, HeaderBytes, HeaderDecoded, Lossless, Readable,
         Truthful, Flatten, SegmentsInOrder, MarksInOrder, WellFormed, AllRows, FooterBytes, Recovered, LatestEnd,
         SegmentsRepresentable, SegmentsFit, OpensAt, TrueOfAccepted;
    CheckpointsSurvive(u, l, m, len);
    var i :| 0 <= i < |l0.marks| && l0.marks[i] == m;
    assert MarkOk(u, l0, l0.marks[i]);
    FewerRows(l0.groups, m.segs);
    assert l0.accepted <= l.accepted;
  }

  /** A closed file opens without recovery, whatever has become of its chunks;
      what is read of it is true of exactly the accepted records, and within the
      limits all of it can be read. */
  lemma ClosedFilesOpen(u: Setup, l: Log, m: Mark)
    requires SetupOk(u) && LogOk(u, l) && m in l.marks && DirectoryFits(u, l.segments)
    requires m.end == |l.data| && m.segs == |l.segments| && m.records == |l.accepted|
    ensures Opened(u.p, l.data).Ok? && Recovered(u.p, l.data) == Ok((Opened(u.p, l.data).value, false))
    ensures var r := Opened(u.p, l.data).value;
            r.data == l.data && r.header == u.header && r.footer == FooterOf(u, l.segments)
    ensures var r := Opened(u.p, l.data).value;
            && (SegmentsRepresentable(u, l, |l.segments|) ==>
                  Truthful(u.p, r, RowsIn(l.groups)) && Flatten(RowsIn(l.groups)) == l.accepted)
            && (SegmentsFit(u, l, |l.segments|) ==> SegmentsRepresentable(u, l, |l.segments|) && Readable(u.p, r))
  {
    hide SegmentStored, RowsFit, RowsRepresentable, RowsOk, DirectoryFits, FooterDecoded, FooterOf, HeaderBytes,
         HeaderDecoded, Lossless, Truthful, Readable, Flatten, SegmentsInOrder, MarksInOrder, WellFormed, FooterBytes,
         WalkBack, SegmentsRepresentable, SegmentsFit;
    assert l.segments[..m.segs] == l.segments && l.groups[..m.segs] == l.groups;
    MarkReads(u, l, m);
    assert l.data[..m.end] == l.data;
    HeaderReads(u, l, |l.data|);
    if SegmentsFit(u, l, |l.segments|) {
      SegmentsFitAreRepresentable(u, l, |l.segments|);
    }
    if SegmentsRepresentable(u, l, |l.segments|) {
      var i :| 0 <= i < |l.marks| && l.marks[i] == m;
      assert MarkOk(u, l, l.marks[i]);
      DirectoryHolds(u, l, m.segs, Opened(u.p, l.data).value);
    }
  }

  /** An uncompressed file of integer columns needs no chunk limits at all: the
      segments of a writer whose writes never failed always read back. */
  lemma PlainIntegersFit(u: Setup, rows: seq<Row>)
    requires u.compression == NONE && RowsOk(u.schema, rows) && |rows| <= MAX_SEGMENT_ROWS
    requires forall j :: 0 <= j < |u.schema.columns| ==> u.schema.columns[j].Kind() == KindInt
    ensures RowsFit(u, rows) && RowsRepresentable(u, rows)
  {
    hide ChunkLimits, RowsOk, Representable;
    forall j | 0 <= j < |u.schema.columns|
      ensures ChunkLimits(u.p, u.compression, u.schema.columns[j].Kind(), ColumnOf(u.schema, rows, j))
      ensures Representable(u.p, u.compression, u.schema.columns[j].Kind(), ColumnOf(u.schema, rows, j))
    {
      ColumnIsOk(u.schema, rows, j);
      PlainIntColumnsAlwaysRead(u.p, ColumnOf(u.schema, rows, j));
    }
  }
}
