/** What a readable file holds: a table per segment, whose columns decode, whose
    zone maps are true and whose indexes are sound. Queries are answered from this. */
module Contents {
  import opened Bits
  import opened Wrappers
  import opened Libraries
  import opened Column
  import opened Schemas
  import opened ColumnIndexes
  import opened FooterFormat
  import opened Store
  import opened Records
  import opened WriterLog

  /** What is read of column j of segment i is true of these cells: whatever does
      not fail to decode is right, and what fails does so with an error. */
  ghost predicate ColumnTrue(p: Platform, r: Reader, i: nat, j: nat, kind: Kind, cells: seq<Cell>)
    requires i < |r.footer.segments| && j < |r.footer.segments[i].columns|
  {
    var d := ColumnData(p, r, i, j);
    var ci := ColumnIndexOf(p, r, i, j);
    && (d.Ok? ==> d.value.kind == kind && CellsOf(d.value) == cells)
    && (ci.Ok? ==> SoundIndex(p, ci.value, kind, cells))
    && d != Err(OutOfMemory) && ci != Err(OutOfMemory)
    && StatsOf(ZoneStats(r.footer.segments[i].columns[j], |cells|), kind, cells)
  }

  ghost predicate ColumnReadable(p: Platform, r: Reader, i: nat, j: nat)
    requires i < |r.footer.segments| && j < |r.footer.segments[i].columns|
  {
    ColumnData(p, r, i, j).Ok? && ColumnIndexOf(p, r, i, j).Ok?
  }

  /** What is read of segment i is true of this table. */
  ghost predicate SegmentTrue(p: Platform, r: Reader, i: nat, rows: seq<Row>)
    requires i < |r.footer.segments|
  {
    var s, seg := r.footer.schema, r.footer.segments[i];
    && RowsOk(s, rows) && seg.rows == |rows|
    && |seg.columns| == |s.columns|
    && forall j :: 0 <= j < |s.columns| ==> ColumnTrue(p, r, i, j, s.columns[j].Kind(), ColumnOf(s, rows, j))
  }

  ghost predicate SegmentReadable(p: Platform, r: Reader, i: nat)
    requires i < |r.footer.segments|
  {
    forall j :: 0 <= j < |r.footer.segments[i].columns| ==> ColumnReadable(p, r, i, j)
  }

  /** The file is true of these tables, one per segment: a chunk or an index may
      fail to decode, but nothing that decodes is wrong. */
  ghost predicate Truthful(p: Platform, r: Reader, groups: seq<seq<Row>>) {
    && WellFormed(r.footer.schema)
    && |groups| == |r.footer.segments|
    && r.footer.totalRows == |Flatten(groups)|
    && forall i :: 0 <= i < |groups| ==> SegmentTrue(p, r, i, groups[i])
  }

  ghost predicate Readable(p: Platform, r: Reader) {
    forall i :: 0 <= i < |r.footer.segments| ==> SegmentReadable(p, r, i)
  }

  /** The file is these tables. */
  ghost predicate Faithful(p: Platform, r: Reader, groups: seq<seq<Row>>) {
    Truthful(p, r, groups) && Readable(p, r)
  }

  /** A file holds at most one list of tables. */
  lemma ContentsAreUnique(p: Platform, r: Reader, a: seq<seq<Row>>, b: seq<seq<Row>>)
    requires Faithful(p, r, a) && Truthful(p, r, b)
    ensures a == b
  {
    hide ColumnData, ColumnIndexOf, SoundIndex, StatsOf, CellsOf, Flatten;
    var s := r.footer.schema;
    forall i | 0 <= i < |a|
      ensures a[i] == b[i]
    {
      assert SegmentTrue(p, r, i, a[i]) && SegmentTrue(p, r, i, b[i]) && SegmentReadable(p, r, i);
      forall j | 0 <= j < |s.columns|
        ensures ColumnOf(s, a[i], j) == ColumnOf(s, b[i], j)
      {
        assert ColumnReadable(p, r, i, j);
        assert ColumnTrue(p, r, i, j, s.columns[j].Kind(), ColumnOf(s, a[i], j));
        assert ColumnTrue(p, r, i, j, s.columns[j].Kind(), ColumnOf(s, b[i], j));
      }
      SameColumns(s, a[i], b[i]);
    }
  }
}
