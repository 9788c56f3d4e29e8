/** Where a Writer puts things, and what time spans its directory may claim. */
module Layout {
  import opened Bits
  import opened Libraries
  import opened Varint
  import opened Column
  import opened Chunk
  import opened Schemas
  import opened FooterFormat
  import opened Records
  import opened WriterLog

  // ----- regions -----------------------------------------------------------------------

  datatype Region = Region(start: nat, end: nat)

  /** A column's chunk, and its index if it has one. */
  function RegionsOf(cd: ColumnDir): seq<Region> {
    [Region(cd.chunkOffset, cd.chunkOffset + cd.chunkLength)] +
    if cd.indexLength > 0 then [Region(cd.indexOffset, cd.indexOffset + cd.indexLength)] else []
  }

  function ColumnRegions(columns: seq<ColumnDir>): seq<Region> {
    if columns == [] then []
    else ColumnRegions(columns[..|columns| - 1]) + RegionsOf(columns[|columns| - 1])
  }

  /** All chunk and index regions of a directory, in directory order. */
  function SegmentRegions(segs: seq<SegmentDir>): seq<Region> {
    if segs == [] then []
    else SegmentRegions(segs[..|segs| - 1]) + ColumnRegions(segs[|segs| - 1].columns)
  }

  /** Regions in ascending order, pairwise disjoint, between lo and hi. */
  /** Every chunk and every index is among the regions. */
  lemma {:induction false} RegionsAre(segs: seq<SegmentDir>, i: nat, j: nat)
    requires i < |segs| && j < |segs[i].columns|
    ensures var cd := segs[i].columns[j];
            && Region(cd.chunkOffset, cd.chunkOffset + cd.chunkLength) in SegmentRegions(segs)
            && (cd.indexLength > 0 ==>
                  Region(cd.indexOffset, cd.indexOffset + cd.indexLength) in SegmentRegions(segs))
    decreases |segs|
  {
    var last := |segs| - 1;
    if i < last {
      RegionsAre(segs[..last], i, j);
    } else {
      ColumnRegionsAre(segs[last].columns, j);
    }
  }

  lemma {:induction false} ColumnRegionsAre(columns: seq<ColumnDir>, j: nat)
    requires j < |columns|
    ensures var cd := columns[j];
            && Region(cd.chunkOffset, cd.chunkOffset + cd.chunkLength) in ColumnRegions(columns)
            && (cd.indexLength > 0 ==>
                  Region(cd.indexOffset, cd.indexOffset + cd.indexLength) in ColumnRegions(columns))
    decreases |columns|
  {
    var last := |columns| - 1;
    if j < last {
      ColumnRegionsAre(columns[..last], j);
    } else {
      assert RegionsOf(columns[last])[0] in RegionsOf(columns[last]);
    }
  }

  ghost predicate InOrder(rs: seq<Region>, lo: nat, hi: nat) {
    && lo <= hi
    && (forall a :: 0 <= a < |rs| ==> lo <= rs[a].start <= rs[a].end <= hi)
    && (forall a, b :: 0 <= a < b < |rs| ==> rs[a].end <= rs[b].start)
  }

  lemma Joined(a: seq<Region>, lo: nat, mid: nat, mid': nat, b: seq<Region>, hi: nat)
    requires InOrder(a, lo, mid) && InOrder(b, mid', hi) && mid <= mid'
    ensures InOrder(a + b, lo, hi)
  {
    var rs := a + b;
    forall i | 0 <= i < |rs|
      ensures lo <= rs[i].start <= rs[i].end <= hi
    {
      assert i < |a| ==> rs[i] == a[i];
      assert i >= |a| ==> rs[i] == b[i - |a|];
    }
    forall i, j | 0 <= i < j < |rs|
      ensures rs[i].end <= rs[j].start
    {
      if j < |a| {
        assert rs[i] == a[i] && rs[j] == a[j];
      } else if i >= |a| {
        assert rs[i] == b[i - |a|] && rs[j] == b[j - |a|];
      } else {
        assert rs[i] == a[i] && rs[j] == b[j - |a|];
      }
    }
  }

  lemma {:induction false} ColumnsInOrder(columns: seq<ColumnDir>, from: nat)
    requires Tiled(columns, from)
    ensures InOrder(ColumnRegions(columns), from, TiledEnd(columns, from))
  {
    if columns != [] {
      var last := |columns| - 1;
      var front, cd := columns[..last], columns[last];
      assert Tiled(front, from) by {
        forall j | 0 <= j < |front|
          ensures TileAt(front, from, j)
        {
          assert TileAt(columns, from, j);
        }
      }
      ColumnsInOrder(front, from);
      assert TileAt(columns, from, last);
      assert InOrder(RegionsOf(cd), TiledEnd(front, from), ColumnEnd(cd));
      Joined(ColumnRegions(front), from, TiledEnd(front, from), TiledEnd(front, from), RegionsOf(cd), ColumnEnd(cd));
    }
  }

  lemma {:induction false} DirectoryInOrder(segs: seq<SegmentDir>, limit: nat)
    requires SegmentsInOrder(segs, limit) && HEADER_SIZE <= limit
    requires forall i :: 0 <= i < |segs| ==>
      Tiled(segs[i].columns, segs[i].offset) && TiledEnd(segs[i].columns, segs[i].offset) == SegmentEnd(segs[i])
    ensures InOrder(SegmentRegions(segs), HEADER_SIZE, limit)
  {
    hide Tiled, TiledEnd;
    if segs != [] {
      var last := |segs| - 1;
      var front, seg := segs[..last], segs[last];
      DirectoryInOrder(front, seg.offset);
      ColumnsInOrder(seg.columns, seg.offset);
      assert SegmentEnd(seg) <= limit;
      Joined(SegmentRegions(front), HEADER_SIZE, seg.offset, seg.offset, ColumnRegions(seg.columns), SegmentEnd(seg));
    }
  }

  /** Every region belongs to a segment and lies inside it. */
  lemma {:induction false} RegionHasSegment(segs: seq<SegmentDir>, rg: Region) returns (i: nat)
    requires rg in SegmentRegions(segs)
    requires forall k :: 0 <= k < |segs| ==>
      Tiled(segs[k].columns, segs[k].offset) && TiledEnd(segs[k].columns, segs[k].offset) == SegmentEnd(segs[k])
    ensures i < |segs| && segs[i].offset <= rg.start <= rg.end <= SegmentEnd(segs[i])
  {
    hide Tiled, TiledEnd;
    var last := |segs| - 1;
    if rg in SegmentRegions(segs[..last]) {
      i := RegionHasSegment(segs[..last], rg);
    } else {
      i := last;
      ColumnsInOrder(segs[last].columns, segs[last].offset);
      assert rg in ColumnRegions(segs[last].columns);
    }
  }

  /** The layout of every footer a Writer emits. Its regions ascend between the
      header and its own start; an earlier footer lists a prefix of its segments
      and shares no byte with any of its regions. */
  lemma FooterLayout(u: Setup, l: Log, k: nat)
    requires LogOk(u, l) && k < |l.marks|
    ensures l.marks[k].segs <= |l.segments|
    ensures InOrder(SegmentRegions(l.segments[..l.marks[k].segs]), HEADER_SIZE, l.marks[k].start)
    ensures forall e :: 0 <= e < k ==>
              && l.marks[e].segs <= l.marks[k].segs && l.segments[..l.marks[e].segs] <= l.segments[..l.marks[k].segs]
              && l.marks[e].end <= l.marks[k].start
              && forall rg :: rg in SegmentRegions(l.segments[..l.marks[k].segs]) ==>
                   rg.end <= l.marks[e].start || l.marks[e].end <= rg.start
  {
    hide ColumnStored, HoldsAt, RowsOk, AllRows, HeaderBytes, FooterBytes, FooterOf, Tiled, TiledEnd, TimesRecorded,
         SegmentRegions, InOrder;
    var m := l.marks[k];
    assert MarkOk(u, l, m);
    var segs := l.segments[..m.segs];
    forall i | 0 <= i < |segs|
      ensures Tiled(segs[i].columns, segs[i].offset) && TiledEnd(segs[i].columns, segs[i].offset) == SegmentEnd(segs[i])
    {
      assert segs[i] == l.segments[i];
      assert SegmentStored(u, l.data, l.segments[i], l.groups[i]);
    }
    DirectoryInOrder(segs, m.start);
    forall e | 0 <= e < k
      ensures l.marks[e].segs <= m.segs && l.segments[..l.marks[e].segs] <= segs
      ensures l.marks[e].end <= m.start
      ensures forall rg :: rg in SegmentRegions(segs) ==> rg.end <= l.marks[e].start || l.marks[e].end <= rg.start
    {
      assert MarkOk(u, l, l.marks[e]);
      forall rg | rg in SegmentRegions(segs)
        ensures rg.end <= l.marks[e].start || l.marks[e].end <= rg.start
      {
        var i := RegionHasSegment(segs, rg);
        assert segs[i] == l.segments[i];
      }
    }
  }

  // ----- time spans ------------------------------------------------------------------------

  const SIGN_BIT: nat := 0x8000_0000_0000_0000

  /** All timestamps of a column are below a bound. */
  ghost predicate AllBefore(cells: seq<Cell>, bound: nat) {
    forall i :: 0 <= i < |cells| && cells[i].Int? ==> cells[i].v < bound
  }

  ghost predicate NoneBefore(cells: seq<Cell>, bound: nat) {
    forall i :: 0 <= i < |cells| && cells[i].Int? ==> cells[i].v >= bound
  }

  /** The span a segment records is the signed reading of bounds found by unsigned
      comparison. It covers its timestamps if and only if they all fall on one
      side of the sign bit. */
  lemma SegmentSpanCovers(u: Setup, data: bytes, seg: SegmentDir, g: Group)
    requires SegmentStored(u, data, seg, g) && HasTimes(u.schema, seg)
    ensures var t := TsCol(u.schema);
            var cells := ColumnOf(u.schema, g.rows, t);
            (forall i :: 0 <= i < |cells| && cells[i].Int? ==> seg.minTS <= ToI64(cells[i].v) <= seg.maxTS)
            <==> (AllBefore(cells, SIGN_BIT) || NoneBefore(cells, SIGN_BIT))
  {
    hide ColumnOf, IndexMade, HoldsAt, HoldsIndexAt, ChunkBytes, CountPresent, NotAbove, Tiled, TiledEnd, RowsOk;
    var s, t := u.schema, TsCol(u.schema);
    var cd := seg.columns[t];
    var cells := ColumnOf(s, g.rows, t);
    assert ColumnStored(u, data, s.columns[t], cd, cells, g.indexes[t]);
    TsColIsTimestamp(s, 0);
    assert s.columns[t].Kind() == KindInt;
    var i :| 0 <= i < |cells| && cells[i] == Int(cd.minInt);
    var j :| 0 <= j < |cells| && cells[j] == Int(cd.maxInt);
    if cd.minInt < SIGN_BIT <= cd.maxInt {
      assert ToI64(cells[j].v) < 0 <= ToI64(cells[i].v);
    }
  }

  /** It fails for the two timestamps 0 and 2^63: the recorded span is empty. */
  lemma SpanCanMiss()
    ensures var cells := [Int(0), Int(SIGN_BIT)];
            var st := Stats(2, 2, false, 0, SIGN_BIT, [], []);
            StatsOf(st, KindInt, cells) && ToI64(st.maxInt) < ToI64(cells[0].v) == ToI64(st.minInt)
  {
    var cells := [Int(0), Int(SIGN_BIT)];
    assert cells[..1] == [Int(0)] && cells[..1][..0] == [];
    assert CountPresent(cells[..1]) == 1;
    assert cells[0] in cells && cells[1] in cells;
  }

  /** The file's span covers every segment that has one, and is attained. */
  lemma {:induction false} FileSpanCovers(s: Schema, segs: seq<SegmentDir>)
    ensures forall i :: 0 <= i < |segs| && HasTimes(s, segs[i]) ==>
              FileSpan(s, segs).have && FileSpan(s, segs).min <= segs[i].minTS && segs[i].maxTS <= FileSpan(s, segs).max
    ensures FileSpan(s, segs).have ==>
              && (exists i :: 0 <= i < |segs| && HasTimes(s, segs[i]) && segs[i].minTS == FileSpan(s, segs).min)
              && (exists i :: 0 <= i < |segs| && HasTimes(s, segs[i]) && segs[i].maxTS == FileSpan(s, segs).max)
    ensures !FileSpan(s, segs).have ==> FileSpan(s, segs).min == FileSpan(s, segs).max == 0
  {
    hide HasTimes;
    if segs != [] {
      var last := |segs| - 1;
      var front := segs[..last];
      FileSpanCovers(s, front);
      assert segs == front + [segs[last]];
      var sp := FileSpan(s, front);
      if sp.have {
        var i :| 0 <= i < |front| && HasTimes(s, front[i]) && front[i].minTS == sp.min;
        var j :| 0 <= j < |front| && HasTimes(s, front[j]) && front[j].maxTS == sp.max;
        assert segs[i] == front[i] && segs[j] == front[j];
      }
    }
  }

  /** Timestamps before the sign bit lie in the span the footer claims. */
  lemma FooterSpanCovers(u: Setup, l: Log, k: nat, i: nat, v: u64)
    requires i < k <= |l.segments| == |l.groups| && TsCol(u.schema) >= 0
    requires RowsOk(u.schema, l.groups[i].rows)
    requires Int(v) in ColumnOf(u.schema, l.groups[i].rows, TsCol(u.schema))
    requires AllBefore(ColumnOf(u.schema, l.groups[i].rows, TsCol(u.schema)), SIGN_BIT)
    requires LogOk(u, l)
    ensures FooterOf(u, l.segments[..k]).minTS <= ToI64(v) <= FooterOf(u, l.segments[..k]).maxTS
  {
    hide ColumnOf, IndexMade, HoldsAt, HoldsIndexAt, ChunkBytes, CountPresent, NotAbove, Tiled, TiledEnd, MarkOk,
         RowsOk, FileSpan, TotalRows, AllRows, HeaderBytes, TsCol;
    var s, t := u.schema, TsCol(u.schema);
    var seg, g := l.segments[i], l.groups[i];
    var cells := ColumnOf(s, g.rows, t);
    assert SegmentStored(u, l.data, seg, g);
    assert ColumnStored(u, l.data, s.columns[t], seg.columns[t], cells, g.indexes[t]);
    var a :| 0 <= a < |cells| && cells[a] == Int(v);
    CountPresentPositive(cells);
    TsIsInt(s);
    SegmentSpanCovers(u, l.data, seg, g);
    FileSpanCovers(s, l.segments[..k]);
    assert l.segments[..k][i] == seg;
  }

  lemma TsIsInt(s: Schema)
    requires TsCol(s) >= 0
    ensures s.columns[TsCol(s)].Kind() == KindInt
  {
    TsColIsTimestamp(s, 0);
  }
}
