/** Records as callers pass them, and the rows they stand for (internal/row/row.go). */
module Records {
  import opened Bits
  import opened Column
  import opened Schemas

  /** One column's value: null, or the field its column's domain selects. */
  datatype Value = Value(isNull: bool, num: u64, blob: bytes)
  type Record = seq<Value>

  /** The logical content of a record. */
  type Row = seq<Cell>

  function CellOf(kind: Kind, v: Value): (c: Cell)
    ensures CellOk(kind, c)
  {
    if v.isNull then Null else if kind == KindInt then Int(v.num) else Blob(v.blob)
  }

  function RowOf(s: Schema, rec: Record): (row: Row)
    requires |rec| == |s.columns|
    ensures |row| == |rec|
  {
    seq(|rec|, j requires 0 <= j < |rec| => CellOf(s.columns[j].Kind(), rec[j]))
  }

  /** A record is kept as it is: null exactly where its value is, and elsewhere the
      field that the column's domain selects. */
  lemma RecordIsKept(s: Schema, rec: Record, row: Row)
    requires |rec| == |s.columns| && row == RowOf(s, rec)
    ensures |row| == |rec|
    ensures forall j :: 0 <= j < |rec| ==> (row[j] == Null <==> rec[j].isNull)
    ensures forall j :: 0 <= j < |rec| && !rec[j].isNull ==>
              row[j] == if s.columns[j].typ in {1, 4, 5} then Blob(rec[j].blob) else Int(rec[j].num)
  {
  }

  ghost predicate RowOk(s: Schema, row: Row) {
    |row| == |s.columns| && forall j :: 0 <= j < |row| ==> CellOk(s.columns[j].Kind(), row[j])
  }

  ghost predicate RowsOk(s: Schema, rows: seq<Row>) {
    forall i :: 0 <= i < |rows| ==> RowOk(s, rows[i])
  }

  /** Column j of a table. */
  function ColumnOf(s: Schema, rows: seq<Row>, j: nat): (cells: seq<Cell>)
    requires RowsOk(s, rows) && j < |s.columns|
    ensures |cells| == |rows|
  {
    seq(|rows|, i requires 0 <= i < |rows| => rows[i][j])
  }

  lemma ColumnIsOk(s: Schema, rows: seq<Row>, j: nat)
    requires RowsOk(s, rows) && j < |s.columns|
    ensures ColumnOk(s.columns[j].Kind(), ColumnOf(s, rows, j))
  {
    forall i | 0 <= i < |rows|
      ensures CellOk(s.columns[j].Kind(), ColumnOf(s, rows, j)[i])
    {
      assert RowOk(s, rows[i]);
    }
  }

  /** A table is determined by its columns. */
  lemma SameColumns(s: Schema, a: seq<Row>, b: seq<Row>)
    requires RowsOk(s, a) && RowsOk(s, b) && |s.columns| >= 1
    requires forall j :: 0 <= j < |s.columns| ==> ColumnOf(s, a, j) == ColumnOf(s, b, j)
    ensures a == b
  {
    assert |ColumnOf(s, a, 0)| == |ColumnOf(s, b, 0)|;
    forall i | 0 <= i < |a|
      ensures a[i] == b[i]
    {
      assert RowOk(s, a[i]) && RowOk(s, b[i]);
      forall j | 0 <= j < |s.columns|
        ensures a[i][j] == b[i][j]
      {
        assert ColumnOf(s, a, j)[i] == ColumnOf(s, b, j)[i];
      }
    }
  }

  lemma AppendRow(s: Schema, rows: seq<Row>, row: Row, j: nat)
    requires RowsOk(s, rows) && RowOk(s, row) && j < |s.columns|
    ensures RowsOk(s, rows + [row]) && ColumnOf(s, rows + [row], j) == ColumnOf(s, rows, j) + [row[j]]
  {
  }

  lemma RowOfIsOk(s: Schema, rec: Record)
    requires |rec| == |s.columns|
    ensures RowOk(s, RowOf(s, rec))
  {
  }

  /** All rows of a list of tables, in order. */
  function Flatten<T>(groups: seq<seq<T>>): seq<T> {
    if groups == [] then [] else Flatten(groups[..|groups| - 1]) + groups[|groups| - 1]
  }

  lemma {:induction false} FlattenSplit<T>(groups: seq<seq<T>>, k: nat)
    requires k <= |groups|
    ensures Flatten(groups) == Flatten(groups[..k]) + Flatten(groups[k..])
    decreases |groups|
  {
    if k == |groups| {
      assert groups[..k] == groups && groups[k..] == [];
    } else {
      var last := |groups| - 1;
      FlattenSplit(groups[..last], k);
      assert groups[..last][..k] == groups[..k];
      assert groups[..last][k..] == groups[k..][..last - k];
      assert groups[k..][last - k] == groups[last];
    }
  }
}
