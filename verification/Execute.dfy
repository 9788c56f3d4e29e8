/** Executing statements over a file (internal/query/exec.go). Every answer is the
    relational meaning of the statement on the rows the file stands for. */
module Execute {
  import opened Bits
  import opened Wrappers
  import opened Libraries
  import opened Numerals
  import opened Sorting
  import opened Column
  import opened Schemas
  import opened ColumnIndexes
  import opened InvertedIndex
  import opened FooterFormat
  import opened Store
  import opened Records
  import opened WriterLog
  import opened Contents
  import opened Evaluate
  import Q = Queries

  const DEFAULT_ROW_LIMIT: nat := 1000

  datatype AnswerKind = CountKind | TopKind | RowsKind

  datatype Answer = Answer(kind: AnswerKind, count: u64, columns: seq<bytes>, rows: seq<seq<bytes>>)

  // ----- validation ----------------------------------------------------------------------

  predicate KnownColumns(s: Schema, st: Q.Stmt) {
    && (st.aggregate.Some? && st.aggregate.value.Top? ==> Index(s, st.aggregate.value.col) >= 0)
    && (forall i :: 0 <= i < |st.projection| ==> Index(s, st.projection[i]) >= 0)
    && (st.filter.Some? ==> Q.Known(s, st.filter.value))
  }

  method ValidateExpr(s: Schema, e: Q.Expr) returns (r: Outcome)
    ensures r == if Q.Known(s, e) then Pass else Fail(Corrupt)
    decreases e
  {
    hide Index;
    match e {
      case Conj(a, b) =>
        r := ValidateExpr(s, a);
        if r.Fail? {
          return;
        }
        r := ValidateExpr(s, b);
      case Disj(a, b) =>
        r := ValidateExpr(s, a);
        if r.Fail? {
          return;
        }
        r := ValidateExpr(s, b);
      case Cmp(col, _, _) =>
        if Index(s, col) < 0 {
          return Fail(Corrupt);
        }
        return Pass;
    }
  }

  method ValidateStmt(s: Schema, st: Q.Stmt) returns (r: Outcome)
    ensures r == if KnownColumns(s, st) then Pass else Fail(Corrupt)
  {
    hide Index, Q.Known;
    if st.aggregate.Some? && st.aggregate.value.Top? {
      if Index(s, st.aggregate.value.col) < 0 {
        return Fail(Corrupt);
      }
    }
    var i := 0;
    while i < |st.projection|
      invariant 0 <= i <= |st.projection|
      invariant forall k :: 0 <= k < i ==> Index(s, st.projection[k]) >= 0
    {
      if Index(s, st.projection[i]) < 0 {
        return Fail(Corrupt);
      }
      i := i + 1;
    }
    if st.filter.None? {
      return Pass;
    }
    r := ValidateExpr(s, st.filter.value);
  }

  predicate FilterOk(s: Schema, f: Option<Q.Expr>) {
    f.Some? ==> Q.Shaped(f.value) && Q.Known(s, f.value)
  }

  // ----- segments one after the other --------------------------------------------------------

  /** The rows of the first k segments. */
  function Before(groups: seq<seq<Row>>, k: nat): seq<Row>
    requires k <= |groups|
  {
    Flatten(groups[..k])
  }

  lemma BeforeStep(groups: seq<seq<Row>>, k: nat)
    requires k < |groups|
    ensures Before(groups, k + 1) == Before(groups, k) + groups[k]
  {
    assert groups[..k + 1][..k] == groups[..k];
  }

  lemma BeforeBounds(groups: seq<seq<Row>>, k: nat)
    requires k <= |groups|
    ensures Before(groups, 0) == [] && Before(groups, |groups|) == Flatten(groups)
    ensures Before(groups, k) <= Flatten(groups)
  {
    FlattenSplit(groups, k);
    assert groups[..|groups|] == groups;
  }

  /** One more segment's worth of selected rows; none are selected beyond all rows. */
  lemma SelectedBefore(p: Platform, s: Schema, groups: seq<seq<Row>>, f: Option<Q.Expr>, k: nat)
    requires k < |groups|
    ensures Q.Selected(p, s, Before(groups, k + 1), f)
            == Q.Selected(p, s, Before(groups, k), f) + Q.Selected(p, s, groups[k], f)
    ensures |Before(groups, k + 1)| <= |Flatten(groups)|
  {
    BeforeStep(groups, k);
    BeforeBounds(groups, k + 1);
    Q.SelectedJoin(p, s, Before(groups, k), groups[k], f);
  }

  method OpenSegment(p: Platform, r: Reader, k: nat, ghost groups: seq<seq<Row>>) returns (ctx: SegCtx)
    requires Truthful(p, r, groups) && k < |groups|
    ensures fresh(ctx) && ctx.Valid() && ctx.p == p && ctx.r == r && ctx.segIdx == k && ctx.table == groups[k]
    ensures Readable(p, r) ==> ctx.Readable()
  {
    hide SegmentTrue, SegmentReadable, WellFormed, Flatten;
    assert SegmentTrue(p, r, k, groups[k]);
    ctx := new SegCtx(p, r, k, groups[k]);
  }

  // ----- count -------------------------------------------------------------------------------

  /** count(*): the number of rows that pass, without WHERE read off the footer. */
  method ExecCount(p: Platform, r: Reader, f: Option<Q.Expr>, ghost groups: seq<seq<Row>>) returns (res: Result<Answer>)
    requires Truthful(p, r, groups) && FilterOk(r.footer.schema, f)
    ensures res.Ok? ==> res.value.kind == CountKind && res.value.columns == [] && res.value.rows == []
    ensures res.Ok? ==> res.value.count == |Q.Selected(p, r.footer.schema, Flatten(groups), f)|
    ensures res != Err(OutOfMemory) && (Readable(p, r) ==> res.Ok?)
  {
    hide SegmentTrue, SegmentReadable, WellFormed, Flatten, Q.Selected, SegCtx.Valid, SegCtx.Readable, Before, Q.Hits,
         Readable;
    ghost var s := r.footer.schema;
    if f.None? {
      Q.SelectedAll(p, s, Flatten(groups));
      return Ok(Answer(CountKind, r.footer.totalRows, [], []));
    }
    var count: u64 := 0;
    var k := 0;
    BeforeBounds(groups, 0);
    NoneSelected(p, s, f);
    while k < |r.footer.segments|
      invariant 0 <= k <= |r.footer.segments| == |groups|
      invariant count == |Q.Selected(p, s, Before(groups, k), f)|
    {
      SelectedBefore(p, s, groups, f, k);
      Q.HitsCount(p, s, groups[k], f);
      var ctx := OpenSegment(p, r, k, groups);
      var bm :- ctx.EvalSegment(f);
      count := (count + |bm|) % TWO64;
      k := k + 1;
    }
    BeforeBounds(groups, k);
    return Ok(Answer(CountKind, count, [], []));
  }

  lemma NoneSelected(p: Platform, s: Schema, f: Option<Q.Expr>)
    ensures Q.Selected(p, s, [], f) == []
  {
  }

  // ----- rows --------------------------------------------------------------------------------

  function FormatIntVal(p: Platform, typ: byte, v: u64): bytes {
    if typ == TYPE_TIMESTAMP then p.showTime(v)
    else if typ == TYPE_BOOL then if v != 0 then Q.TRUE else Q.FALSE
    else Decimal(v)
  }

  function FormatBytesVal(p: Platform, typ: byte, b: bytes): bytes {
    if typ == TYPE_IP then p.showIP(b) else b
  }

  /** A cell as text; a null is shown as nothing. */
  function Shown(p: Platform, typ: byte, c: Cell): bytes {
    match c
    case Null => []
    case Int(v) => FormatIntVal(p, typ, v)
    case Blob(b) => FormatBytesVal(p, typ, b)
  }

  function FormatCell(p: Platform, typ: byte, d: Data, i: nat): (out: bytes)
    requires DataOk(d) && i < d.rows && d.kind == KindOf(typ)
    ensures out == Shown(p, typ, CellsOf(d)[i])
  {
    CellIs(d, i);
    if IsNull(d, i) then []
    else if KindOf(typ) == KindInt then FormatIntVal(p, typ, d.ints[i])
    else FormatBytesVal(p, typ, d.blobs[i])
  }

  /** The selected columns of a row, as shown. */
  function RowShown(p: Platform, s: Schema, cols: seq<nat>, row: Row): (out: seq<bytes>)
    ensures |out| == |cols|
  {
    seq(|cols|, k requires 0 <= k < |cols| =>
      if cols[k] < |row| && cols[k] < |s.columns| then Shown(p, s.columns[cols[k]].typ, row[cols[k]]) else [])
  }

  function RowsShown(p: Platform, s: Schema, cols: seq<nat>, rows: seq<Row>): (out: seq<seq<bytes>>)
    ensures |out| == |rows|
  {
    seq(|rows|, i requires 0 <= i < |rows| => RowShown(p, s, cols, rows[i]))
  }

  /** The first n of a list, or all of it. */
  function First<T>(s: seq<T>, n: nat): (t: seq<T>)
    ensures t <= s && |t| == if |s| < n then |s| else n
  {
    if |s| < n then s else s[..n]
  }

  /** The output columns of a statement. */
  function OutColumns(s: Schema, st: Q.Stmt): (cols: seq<nat>)
    requires st.star || forall i :: 0 <= i < |st.projection| ==> Index(s, st.projection[i]) >= 0
    ensures forall k :: 0 <= k < |cols| ==> cols[k] < |s.columns|
    ensures |cols| == if st.star then |s.columns| else |st.projection|
  {
    if st.star then seq(|s.columns|, i requires 0 <= i < |s.columns| => i)
    else seq(|st.projection|, i requires 0 <= i < |st.projection| => Index(s, st.projection[i]))
  }

  function NamesOf(s: Schema, cols: seq<nat>): (names: seq<bytes>)
    requires forall k :: 0 <= k < |cols| ==> cols[k] < |s.columns|
  {
    seq(|cols|, k requires 0 <= k < |cols| => s.columns[cols[k]].name)
  }

  function RowLimit(st: Q.Stmt): nat {
    if st.limit == 0 then DEFAULT_ROW_LIMIT else st.limit
  }

  /** What a projection answers: with * the schema's names in schema order, else the
      names asked for in their order; the first rows selected, 1000 when no limit is
      given; and in each row, under each name, the cell of the column of that name. */
  lemma ProjectionIs(p: Platform, s: Schema, st: Q.Stmt, sel: seq<Row>, names: seq<bytes>, out: seq<seq<bytes>>)
    requires WellFormed(s) && KnownColumns(s, st) && RowsOk(s, sel)
    requires names == NamesOf(s, OutColumns(s, st))
    requires out == RowsShown(p, s, OutColumns(s, st), First(sel, RowLimit(st)))
    ensures !st.star ==> names == st.projection
    ensures st.star ==> |names| == |s.columns| && forall k :: 0 <= k < |names| ==> names[k] == s.columns[k].name
    ensures var limit := if st.limit == 0 then 1000 else st.limit;
            |out| == if |sel| < limit then |sel| else limit
    ensures forall i :: 0 <= i < |out| ==> |out[i]| == |names|
    ensures forall i, k, j :: 0 <= i < |out| && 0 <= k < |names| && 0 <= j < |s.columns|
                              && s.columns[j].name == names[k] ==>
              out[i][k] == Shown(p, s.columns[j].typ, sel[i][j])
  {
    hide Shown;
    var cols := OutColumns(s, st);
    forall i, k, j | 0 <= i < |out| && 0 <= k < |names| && 0 <= j < |s.columns| && s.columns[j].name == names[k]
      ensures out[i][k] == Shown(p, s.columns[j].typ, sel[i][j])
    {
      assert s.columns[cols[k]].name == names[k] && cols[k] == j;
      assert RowOk(s, sel[i]);
      assert out[i] == RowShown(p, s, cols, sel[i]);
    }
  }

  /** How a cell is shown: nothing for a null, counts and ports in decimal, bools by
      name, strings as they stand, times and addresses as the library writes them. */
  lemma CellsAreShown(p: Platform, typ: byte, v: u64, b: bytes)
    ensures Shown(p, typ, Null) == []
    ensures Shown(p, 0, Int(v)) == p.showTime(v) && Shown(p, 1, Blob(b)) == p.showIP(b)
    ensures typ in {2, 3} ==> AllDigits(Shown(p, typ, Int(v))) && DecimalValue(Shown(p, typ, Int(v))) == v
    ensures typ in {4, 5} ==> Shown(p, typ, Blob(b)) == b
    ensures Shown(p, 6, Int(v)) == if v == 0 then [0x66, 0x61, 0x6C, 0x73, 0x65] else [0x74, 0x72, 0x75, 0x65]
  {
    DecimalReads(v);
  }

  /** What is shown can be asked for: a count, port or string as shown is read back
      as the same value, and so is a bool that was written as 0 or 1. */
  lemma ShownIsRead(p: Platform, typ: byte, c: Cell)
    requires c != Null && CellOk(KindOf(typ), c) && typ in {2, 3, 4, 5, 6} && (typ == 6 ==> c.v <= 1)
    ensures Q.LiteralOf(p, typ, Shown(p, typ, c)) == Some(c)
  {
    hide Decimal, DecimalValue;
    if c.Int? {
      DecimalReads(c.v);
    }
  }

  lemma SelectedOk(p: Platform, s: Schema, rows: seq<Row>, f: Option<Q.Expr>)
    requires RowsOk(s, rows)
    ensures RowsOk(s, Q.Selected(p, s, rows, f))
    decreases |rows|
  {
    hide Q.Passes, RowOk;
    if rows != [] {
      SelectedOk(p, s, rows[..|rows| - 1], f);
    }
  }

  lemma FlattenOk(s: Schema, groups: seq<seq<Row>>)
    requires forall i :: 0 <= i < |groups| ==> RowsOk(s, groups[i])
    ensures RowsOk(s, Flatten(groups))
  {
    hide RowOk;
    if groups != [] {
      FlattenOk(s, groups[..|groups| - 1]);
    }
  }

  lemma AllRowsOk(p: Platform, r: Reader, groups: seq<seq<Row>>, f: Option<Q.Expr>)
    requires Truthful(p, r, groups)
    ensures WellFormed(r.footer.schema) && RowsOk(r.footer.schema, Q.Selected(p, r.footer.schema, Flatten(groups), f))
  {
    hide ColumnTrue, RowsOk, WellFormed, Q.Selected, Flatten;
    forall i | 0 <= i < |groups|
      ensures RowsOk(r.footer.schema, groups[i])
    {
      assert SegmentTrue(p, r, i, groups[i]);
    }
    FlattenOk(r.footer.schema, groups);
    SelectedOk(p, r.footer.schema, Flatten(groups), f);
  }

  /** A statement is accepted exactly when every name in it is that of a column: the
      one ranked, those projected, and those compared. */
  lemma KnownColumnsAre(s: Schema, st: Q.Stmt)
    ensures KnownColumns(s, st) <==>
            && (st.aggregate.Some? && st.aggregate.value.Top? ==> Q.HasColumn(s, st.aggregate.value.col))
            && (forall k :: 0 <= k < |st.projection| ==> Q.HasColumn(s, st.projection[k]))
            && (st.filter.Some? ==> forall col :: col in Q.ColumnsIn(st.filter.value) ==> Q.HasColumn(s, col))
  {
    hide Index, Q.Known, Q.ColumnsIn;
    forall col: bytes
      ensures Index(s, col) >= 0 <==> Q.HasColumn(s, col)
    {
      assert Index(s, col) >= 0 ==> s.columns[Index(s, col)].name == col;
    }
    if st.filter.Some? {
      Q.KnownIs(s, st.filter.value);
    }
  }

  /** Decodes the output columns of a segment. */
  method DecodeColumns(ctx: SegCtx, cols: seq<nat>) returns (ds: Result<seq<Data>>)
    requires ctx.Valid() && forall k :: 0 <= k < |cols| ==> cols[k] < |ctx.S().columns|
    modifies ctx
    ensures ctx.Valid()
    ensures ds.Ok? ==> |ds.value| == |cols| && forall k :: 0 <= k < |cols| ==>
            Decodes(ctx.S(), ctx.table, cols[k], ds.value[k])
    ensures ds != Err(OutOfMemory) && (ctx.Readable() ==> ds.Ok?)
  {
    hide SegmentTrue, SegmentReadable, WellFormed, SegCtx.Valid, SegCtx.Readable, CellsOf, ColumnOf, RowsOk;
    ctx.TableOk();
    var out: seq<Data> := [];
    while |out| < |cols|
      invariant |out| <= |cols| && ctx.Valid()
      invariant forall k :: 0 <= k < |out| ==> Decodes(ctx.S(), ctx.table, cols[k], out[k])
    {
      var d :- ctx.Col(cols[|out|]);
      out := out + [d];
    }
    return Ok(out);
  }

  /** A decoded vector is column j of the table. */
  ghost predicate Decodes(s: Schema, table: seq<Row>, j: nat, d: Data) {
    && RowsOk(s, table) && j < |s.columns|
    && DataOk(d) && d.kind == s.columns[j].Kind() && CellsOf(d) == ColumnOf(s, table, j)
  }

  /** One row of output. */
  method FormatRow(p: Platform, s: Schema, cols: seq<nat>, ds: seq<Data>, i: nat, ghost table: seq<Row>)
    returns (out: seq<bytes>)
    requires |ds| == |cols| && i < |table| && forall k :: 0 <= k < |cols| ==> Decodes(s, table, cols[k], ds[k])
    ensures out == RowShown(p, s, cols, table[i])
  {
    hide Shown, CellsOf, WellFormed;
    out := [];
    while |out| < |cols|
      invariant |out| <= |cols| && out == RowShown(p, s, cols, table[i])[..|out|]
    {
      var k := |out|;
      assert Decodes(s, table, cols[k], ds[k]);
      assert RowOk(s, table[i]);
      assert CellsOf(ds[k])[i] == ColumnOf(s, table, cols[k])[i] == table[i][cols[k]];
      out := out + [FormatCell(p, s.columns[cols[k]].typ, ds[k], i)];
    }
  }

  lemma FirstStep(p: Platform, s: Schema, cols: seq<nat>, rows: seq<Row>, more: seq<Row>, n: nat)
    ensures |rows| >= n ==> First(rows + more, n) == First(rows, n)
    ensures |rows| < n && |more| == 1 ==>
              RowsShown(p, s, cols, First(rows + more, n))
              == RowsShown(p, s, cols, First(rows, n)) + [RowShown(p, s, cols, more[0])]
  {
    hide RowShown;
  }

  /** What an ascending iteration over a bitmap has still to visit. */
  function NotBelow(bm: set<nat>, i: nat): set<nat> {
    set b | b in bm && b >= i
  }

  lemma RowsShownLength(p: Platform, s: Schema, cols: seq<nat>, rows: seq<Row>, n: nat)
    ensures |RowsShown(p, s, cols, First(rows, n))| == if |rows| < n then |rows| else n
  {
    hide RowShown;
  }

  lemma HitsLeft(p: Platform, s: Schema, table: seq<Row>, f: Option<Q.Expr>, i: nat, left: set<nat>)
    requires left == NotBelow(Q.Hits(p, s, table, f), i) && left != {}
    ensures i < |table| && (i in Q.Hits(p, s, table, f) <==> Q.Passes(p, s, table[i], f))
  {
    hide Q.Passes;
    var b :| b in left;
  }

  lemma NoHitsLeft(p: Platform, s: Schema, table: seq<Row>, f: Option<Q.Expr>, i: nat)
    requires i <= |table| && forall b :: b in Q.Hits(p, s, table, f) ==> b < i
    ensures Q.Selected(p, s, table[i..], f) == []
  {
    hide Q.Passes, Q.Selected;
    forall b: nat | b < |table| - i
      ensures !Q.Passes(p, s, table[i..][b], f)
    {
      assert table[i..][b] == table[i + b];
      assert i + b !in Q.Hits(p, s, table, f);
    }
    assert Q.Hits(p, s, table[i..], f) == {};
    Q.HitsCount(p, s, table[i..], f);
  }

  lemma RestSelected(p: Platform, s: Schema, table: seq<Row>, f: Option<Q.Expr>, i: nat)
    requires i <= |table|
    ensures Q.Selected(p, s, table, f) == Q.Selected(p, s, table[..i], f) + Q.Selected(p, s, table[i..], f)
  {
    assert table == table[..i] + table[i..];
    Q.SelectedJoin(p, s, table[..i], table[i..], f);
  }

  /** The matching rows of one segment, until the limit is reached. */
  method EmitRows(p: Platform, s: Schema, cols: seq<nat>, ds: seq<Data>, bm: set<nat>, f: Option<Q.Expr>, limit: nat,
                  ghost table: seq<Row>, ghost before: seq<Row>, out0: seq<seq<bytes>>) returns (out: seq<seq<bytes>>)
    requires |ds| == |cols| && forall k :: 0 <= k < |cols| ==> Decodes(s, table, cols[k], ds[k])
    requires bm == Q.Hits(p, s, table, f)
    requires out0 == RowsShown(p, s, cols, First(before, limit))
    ensures out == RowsShown(p, s, cols, First(before + Q.Selected(p, s, table, f), limit))
  {
    hide Decodes, Q.Selected, RowsShown, Q.Passes, First;
    out := out0;
    var i, left := 0, bm;
    assert left == NotBelow(bm, 0);
    NoneSelected(p, s, f);
    assert table[..0] == [] && before + [] == before;
    RowsShownLength(p, s, cols, before, limit);
    while left != {} && |out| < limit
      invariant 0 <= i <= |table|
      invariant left == NotBelow(bm, i)
      invariant out == RowsShown(p, s, cols, First(before + Q.Selected(p, s, table[..i], f), limit))
      decreases |table| - i
    {
      HitsLeft(p, s, table, f, i, left);
      Q.SelectedStep(p, s, table, f, i);
      ghost var sel, row := before + Q.Selected(p, s, table[..i], f), table[i];
      RowsShownLength(p, s, cols, sel, limit);
      if i in bm {
        FirstStep(p, s, cols, sel, [row], limit);
        assert before + (Q.Selected(p, s, table[..i], f) + [row]) == sel + [row];
        var shown := FormatRow(p, s, cols, ds, i, table);
        out := out + [shown];
      } else {
        assert Q.Selected(p, s, table[..i], f) + [] == Q.Selected(p, s, table[..i], f);
      }
      assert left - {i} == NotBelow(bm, i + 1);
      left := left - {i};
      i := i + 1;
    }
    ghost var sel := before + Q.Selected(p, s, table[..i], f);
    RowsShownLength(p, s, cols, sel, limit);
    RestSelected(p, s, table, f, i);
    ghost var rest := Q.Selected(p, s, table[i..], f);
    assert before + Q.Selected(p, s, table, f) == sel + rest;
    if left == {} {
      forall b | b in bm
        ensures b < i
      {
        assert b >= i ==> b in left;
      }
      NoHitsLeft(p, s, table, f, i);
      assert sel + rest == sel;
    } else {
      FirstStep(p, s, cols, sel, rest, limit);
    }
  }

  /** A projection: the first rows that pass, in file order, as shown, up to the
      limit, stopping at the segment where it is reached. */
  method ExecRows(p: Platform, r: Reader, st: Q.Stmt, ghost groups: seq<seq<Row>>) returns (res: Result<Answer>)
    requires Truthful(p, r, groups) && FilterOk(r.footer.schema, st.filter) && KnownColumns(r.footer.schema, st)
    ensures res.Ok? ==>
              var s, cols := r.footer.schema, OutColumns(r.footer.schema, st);
              && res.value.kind == RowsKind && res.value.count == 0 && res.value.columns == NamesOf(s, cols)
              && res.value.rows
                 == RowsShown(p, s, cols, First(Q.Selected(p, s, Flatten(groups), st.filter), RowLimit(st)))
    ensures res.Ok? ==>
              var s, sel := r.footer.schema, Q.Selected(p, r.footer.schema, Flatten(groups), st.filter);
              var limit := if st.limit == 0 then 1000 else st.limit;
              var names, out := res.value.columns, res.value.rows;
              && (!st.star ==> names == st.projection)
              && (st.star ==> |names| == |s.columns| && forall k :: 0 <= k < |names| ==> names[k] == s.columns[k].name)
              && |out| == (if |sel| < limit then |sel| else limit)
              && RowsOk(s, sel) && (forall i :: 0 <= i < |out| ==> |out[i]| == |names|)
              && forall i, k, j :: 0 <= i < |out| && 0 <= k < |names| && 0 <= j < |s.columns|
                                   && s.columns[j].name == names[k] ==>
                   out[i][k] == Shown(p, s.columns[j].typ, sel[i][j])
    ensures res != Err(OutOfMemory) && (Readable(p, r) ==> res.Ok?)
  {
    hide SegmentTrue, SegmentReadable, WellFormed, Flatten, Q.Selected, SegCtx.Valid, SegCtx.Readable, Before, Q.Hits,
         Readable, Decodes, RowsShown, First, Index, OutColumns, Q.Known, Q.Shaped, RowsOk, Shown, NamesOf;
    var s := r.footer.schema;
    KnownFilter(s, st);
    var cols := OutColumns(s, st);
    var limit := RowLimit(st);
    var rows: seq<seq<bytes>> := [];
    var k := 0;
    BeforeBounds(groups, 0);
    NoneSelected(p, s, st.filter);
    NoneShown(p, s, cols, limit);
    while k < |r.footer.segments|
      invariant 0 <= k <= |r.footer.segments| == |groups|
      invariant rows == RowsShown(p, s, cols, First(Q.Selected(p, s, Before(groups, k), st.filter), limit))
    {
      ghost var before := Q.Selected(p, s, Before(groups, k), st.filter);
      RowsShownLength(p, s, cols, before, limit);
      if |rows| >= limit {
        EnoughSelected(p, s, cols, groups, st.filter, k, limit);
        AllRowsOk(p, r, groups, st.filter);
        ProjectionIs(p, s, st, Q.Selected(p, s, Flatten(groups), st.filter), NamesOf(s, cols), rows);
        return Ok(Answer(RowsKind, 0, NamesOf(s, cols), rows));
      }
      SelectedBefore(p, s, groups, st.filter, k);
      var ctx := OpenSegment(p, r, k, groups);
      var bm :- ctx.EvalSegment(st.filter);
      if bm == {} {
        NoHitsLeft(p, s, groups[k], st.filter, 0);
        assert groups[k][0..] == groups[k] && before + [] == before;
      } else {
        var ds :- DecodeColumns(ctx, cols);
        rows := EmitRows(p, s, cols, ds, bm, st.filter, limit, groups[k], before, rows);
      }
      k := k + 1;
    }
    BeforeBounds(groups, k);
    AllRowsOk(p, r, groups, st.filter);
    ProjectionIs(p, s, st, Q.Selected(p, s, Flatten(groups), st.filter), NamesOf(s, cols), rows);
    return Ok(Answer(RowsKind, 0, NamesOf(s, cols), rows));
  }

  lemma KnownFilter(s: Schema, st: Q.Stmt)
    requires KnownColumns(s, st)
    ensures st.star || forall i :: 0 <= i < |st.projection| ==> Index(s, st.projection[i]) >= 0
  {
  }

  lemma NoneShown(p: Platform, s: Schema, cols: seq<nat>, n: nat)
    ensures RowsShown(p, s, cols, First([], n)) == []
  {
  }

  /** Later segments add nothing once the limit is reached. */
  lemma EnoughSelected(p: Platform, s: Schema, cols: seq<nat>, groups: seq<seq<Row>>, f: Option<Q.Expr>, k: nat, n: nat)
    requires k <= |groups| && |Q.Selected(p, s, Before(groups, k), f)| >= n
    ensures First(Q.Selected(p, s, Flatten(groups), f), n) == First(Q.Selected(p, s, Before(groups, k), f), n)
  {
    hide Q.Selected, Flatten;
    BeforeBounds(groups, k);
    var all, done := Flatten(groups), Before(groups, k);
    assert all == done + all[|done|..];
    Q.SelectedJoin(p, s, done, all[|done|..], f);
    FirstStep(p, s, cols, Q.Selected(p, s, done, f), Q.Selected(p, s, all[|done|..], f), n);
  }
}
