/** top(col, N): the most frequent values of a column (internal/query/exec.go).
    The source keeps one histogram per physical domain; both are modelled by one
    keyed by the stored value. */
module TopValues {
  import opened Bits
  import opened Wrappers
  import opened Libraries
  import opened Numerals
  import opened Sorting
  import opened Column
  import opened Schemas
  import opened ColumnIndexes
  import opened InvertedIndex
  import opened FooterFormat
  import opened Store
  import opened Records
  import opened WriterLog
  import opened Contents
  import opened Evaluate
  import opened Execute
  import Q = Queries

  type Hist = map<Cell, u64>

  /** A histogram of column j of the rows: exactly the values that occur, each with its count. */
  ghost predicate HistOf(h: Hist, rows: seq<Row>, j: nat) {
    && Null !in h
    && forall c :: c != Null ==> (c in h <==> Q.Tally(rows, j, c) > 0) && (c in h ==> h[c] == Q.Tally(rows, j, c))
  }

  lemma NothingCounted(j: nat)
    ensures HistOf(map[], [], j)
  {
  }

  // ----- from an inverted index ----------------------------------------------------------------

  /** Histogram and HistogramBytes: nothing for the other domain. */
  function Histogram(iv: Inverted, kind: Kind): (h: map<Cell, nat>) {
    if iv.kind != kind.Code() then map[] else map c | c in iv.rows :: |iv.rows[c]|
  }

  /** The index's cardinalities are the counts of the column. */
  lemma HistogramIsExact(iv: Inverted, s: Schema, table: seq<Row>, j: nat, c: Cell)
    requires RowsOk(s, table) && j < |s.columns| && c != Null
    requires Indexes(iv, s.columns[j].Kind(), ColumnOf(s, table, j))
    ensures c in Histogram(iv, s.columns[j].Kind()) <==> Q.Tally(table, j, c) > 0
    ensures c in Histogram(iv, s.columns[j].Kind()) ==> Histogram(iv, s.columns[j].Kind())[c] == Q.Tally(table, j, c)
  {
    hide RowsOf, ColumnOf, Q.Tally, ValuesOf;
    var cells := ColumnOf(s, table, j);
    Q.TallyIsCount(s, table, j, c);
    ValueHasRows(cells, c);
    assert RowsOf(cells, c) == {} <==> |RowsOf(cells, c)| == 0;
  }

  /** The counts after merging all keys but those left. */
  ghost predicate MergedBut(h: Hist, left: set<Cell>, rows: seq<Row>, table: seq<Row>, j: nat) {
    && Null !in h
    && forall c :: c != Null ==>
         var n := Q.Tally(rows, j, c) + if c in left then 0 else Q.Tally(table, j, c);
         (c in h <==> n > 0) && (c in h ==> h[c] == n)
  }

  lemma MergeOne(h: Hist, left: set<Cell>, rows: seq<Row>, table: seq<Row>, j: nat, v: Cell, n: nat)
    requires MergedBut(h, left, rows, table, j) && v in left && v != Null
    requires n == Q.Tally(table, j, v) > 0 && |rows| + |table| < TWO64
    ensures MergedBut(h[v := ((if v in h then h[v] else 0) + n) % TWO64], left - {v}, rows, table, j)
  {
    hide Q.Tally;
    assert Q.Tally(rows, j, v) <= |rows| && Q.Tally(table, j, v) <= |table|;
  }

  /** Before the first key, and after the last. */
  lemma MergeEnds(h: Hist, keys: set<Cell>, rows: seq<Row>, table: seq<Row>, j: nat)
    requires forall c :: c != Null ==> (c in keys <==> Q.Tally(table, j, c) > 0)
    ensures HistOf(h, rows, j) ==> MergedBut(h, keys, rows, table, j)
    ensures MergedBut(h, {}, rows, table, j) ==> HistOf(h, rows + table, j)
  {
    hide Q.Tally;
    forall c
      ensures Q.Tally(rows + table, j, c) == Q.Tally(rows, j, c) + Q.Tally(table, j, c)
    {
      Q.TallyJoin(rows, table, j, c);
    }
  }

  /** intHist[v] += n over an index's histogram. */
  method MergeHistogram(h0: Hist, iv: Inverted, s: Schema, j: nat, ghost rows: seq<Row>, ghost table: seq<Row>)
    returns (h: Hist)
    requires RowsOk(s, table) && j < |s.columns| && Indexes(iv, s.columns[j].Kind(), ColumnOf(s, table, j))
    requires HistOf(h0, rows, j) && |rows| + |table| < TWO64
    ensures HistOf(h, rows + table, j)
  {
    hide Histogram, Q.Tally, Indexes, ColumnOf, RowsOk, MergedBut, HistOf;
    h := h0;
    var hist := Histogram(iv, s.columns[j].Kind());
    forall c | c != Null
      ensures c in hist <==> Q.Tally(table, j, c) > 0
      ensures c in hist ==> hist[c] == Q.Tally(table, j, c)
    {
      HistogramIsExact(iv, s, table, j, c);
    }
    NoNullKey(iv, s.columns[j].Kind(), ColumnOf(s, table, j));
    MergeEnds(h, hist.Keys, rows, table, j);
    var left := hist.Keys;
    while left != {}
      invariant left <= hist.Keys && MergedBut(h, left, rows, table, j)
      decreases left
    {
      var v :| v in left;
      MergeOne(h, left, rows, table, j, v, hist[v]);
      h := h[v := ((if v in h then h[v] else 0) + hist[v]) % TWO64];
      left := left - {v};
    }
    MergeEnds(h, hist.Keys, rows, table, j);
  }

  lemma NoNullKey(iv: Inverted, kind: Kind, cells: seq<Cell>)
    requires Indexes(iv, kind, cells)
    ensures Null !in Histogram(iv, kind)
  {
  }

  // ----- from a scan ---------------------------------------------------------------------------

  lemma OneMore(h: Hist, rows: seq<Row>, row: Row, j: nat)
    requires HistOf(h, rows, j) && |rows| + 1 < TWO64 && j < |row|
    ensures row[j] == Null ==> HistOf(h, rows + [row], j)
    ensures row[j] != Null ==>
              HistOf(h[row[j] := ((if row[j] in h then h[row[j]] else 0) + 1) % TWO64], rows + [row], j)
  {
    hide Q.Tally;
    forall c
      ensures Q.Tally(rows + [row], j, c) == Q.Tally(rows, j, c) + if row[j] == c then 1 else 0
      ensures Q.Tally(rows, j, c) <= |rows|
    {
      Q.TallyStep(rows, row, j, c);
    }
  }

  /** Counts the values at the rows of the bitmap. */
  method CountRows(h0: Hist, p: Platform, s: Schema, d: Data, bm: set<nat>, f: Option<Q.Expr>, j: nat,
                   ghost rows: seq<Row>, ghost table: seq<Row>) returns (h: Hist)
    requires Decodes(s, table, j, d) && bm == Q.Hits(p, s, table, f)
    requires HistOf(h0, rows, j) && |rows| + |table| < TWO64
    ensures HistOf(h, rows + Q.Selected(p, s, table, f), j)
  {
    hide Q.Selected, Q.Passes, HistOf, CellsOf, IsNull;
    h := h0;
    NoneSelected(p, s, f);
    assert table[..0] == [] && rows + [] == rows;
    var i := 0;
    while i < d.rows
      invariant 0 <= i <= d.rows == |table|
      invariant HistOf(h, rows + Q.Selected(p, s, table[..i], f), j)
    {
      ghost var sel, row := rows + Q.Selected(p, s, table[..i], f), table[i];
      Q.SelectedStep(p, s, table, f, i);
      assert Q.Selected(p, s, table[..i], f) + [] == Q.Selected(p, s, table[..i], f);
      assert rows + (Q.Selected(p, s, table[..i], f) + [row]) == sel + [row];
      CellIs(d, i);
      Q.ColumnPrefix(s, table, j, i);
      if i in bm {
        OneMore(h, sel, row, j);
        if !IsNull(d, i) {
          var v := if d.kind == KindInt then Int(d.ints[i]) else Blob(d.blobs[i]);
          h := h[v := ((if v in h then h[v] else 0) + 1) % TWO64];
        }
      }
      i := i + 1;
    }
    assert table[..i] == table;
  }

  // ----- ranking -----------------------------------------------------------------------------------

  datatype Item = Item(value: Cell, shown: bytes, count: u64)

  /** More frequent first, then by the shown key. */
  predicate ItemBefore(a: Item, b: Item) {
    a.count > b.count || (a.count == b.count && BytesLess(a.shown, b.shown))
  }

  ghost predicate Ranked(items: seq<Item>) {
    forall i, j :: 0 <= i < j < |items| ==> !ItemBefore(items[j], items[i])
  }

  lemma ItemOrderAt(a: Item, b: Item, c: Item)
    ensures ItemBefore(a, b) ==> !ItemBefore(b, a)
    ensures !ItemBefore(a, b) && !ItemBefore(b, c) ==> !ItemBefore(a, c)
  {
    hide BytesLess;
    BytesOrder();
    var x, y, z := a.shown, b.shown, c.shown;
    assert x == y || BytesLess(x, y) || BytesLess(y, x);
    assert y == z || BytesLess(y, z) || BytesLess(z, y);
    assert BytesLess(z, y) && BytesLess(y, x) ==> BytesLess(z, x);
    assert !BytesLess(x, x);
    assert BytesLess(x, z) && BytesLess(z, x) ==> BytesLess(x, x);
    assert BytesLess(x, y) && BytesLess(y, x) ==> BytesLess(x, x);
  }

  lemma ItemOrder()
    ensures forall a, b :: ItemBefore(a, b) ==> !ItemBefore(b, a)
    ensures forall a, b, c :: !ItemBefore(a, b) && !ItemBefore(b, c) ==> !ItemBefore(a, c)
  {
    hide ItemBefore;
    forall a, b
      ensures ItemBefore(a, b) ==> !ItemBefore(b, a)
    {
      ItemOrderAt(a, b, b);
    }
    forall a, b, c
      ensures !ItemBefore(a, b) && !ItemBefore(b, c) ==> !ItemBefore(a, c)
    {
      ItemOrderAt(a, b, c);
    }
  }

  /** Places an item in front of the first it precedes. */
  method Place(items: seq<Item>, it: Item) returns (out: seq<Item>)
    requires Ranked(items)
    ensures Ranked(out) && multiset(out) == multiset(items) + multiset{it}
  {
    hide ItemBefore;
    ItemOrder();
    var k := 0;
    while k < |items| && !ItemBefore(it, items[k])
      invariant 0 <= k <= |items|
      invariant forall i :: 0 <= i < k ==> !ItemBefore(it, items[i])
    {
      k := k + 1;
    }
    out := items[..k] + [it] + items[k..];
    assert items == items[..k] + items[k..];
    assert k < |items| ==> !ItemBefore(items[k], it);
  }

  /** sort.Slice by count, then key. */
  method Rank(items: seq<Item>) returns (out: seq<Item>)
    ensures Ranked(out) && multiset(out) == multiset(items)
  {
    hide ItemBefore;
    out := [];
    var i := 0;
    while i < |items|
      invariant 0 <= i <= |items| && Ranked(out) && multiset(out) == multiset(items[..i])
    {
      out := Place(out, items[i]);
      assert items[..i + 1] == items[..i] + [items[i]];
      i := i + 1;
    }
    assert items[..i] == items;
  }

  function ItemOf(p: Platform, typ: byte, h: Hist, v: Cell): Item
    requires v in h
  {
    Item(v, Shown(p, typ, v), h[v])
  }

  /** One item per entry of the histogram. */
  ghost predicate Lists(p: Platform, typ: byte, h: Hist, items: multiset<Item>) {
    && (forall it :: it in items ==> it.value in h && it == ItemOf(p, typ, h, it.value))
    && (forall v :: v in h ==> items[ItemOf(p, typ, h, v)] == 1)
  }

  /** The entries of the histogram in whatever order it yields them. */
  method ListItems(p: Platform, typ: byte, h: Hist) returns (items: seq<Item>)
    ensures Lists(p, typ, h, multiset(items))
  {
    hide Shown;
    items := [];
    var left := h.Keys;
    while left != {}
      invariant left <= h.Keys
      invariant forall it :: it in multiset(items) ==>
                it.value in h && it.value !in left && it == ItemOf(p, typ, h, it.value)
      invariant forall v :: v in h && v !in left ==> multiset(items)[ItemOf(p, typ, h, v)] == 1
      decreases left
    {
      var v :| v in left;
      assert ItemOf(p, typ, h, v) !in multiset(items);
      items := items + [ItemOf(p, typ, h, v)];
      left := left - {v};
    }
  }

  /** What top(col) ranks: every stored value that occurs in the rows, once, with its
      exact count, in rank order. */
  ghost predicate IsRanking(p: Platform, typ: byte, items: seq<Item>, rows: seq<Row>, j: nat) {
    && Ranked(items)
    && (forall a, b :: 0 <= a < b < |items| ==> items[a].value != items[b].value)
    && (forall a :: 0 <= a < |items| ==>
          && items[a].value != Null && items[a].shown == Shown(p, typ, items[a].value)
          && items[a].count == Q.Tally(rows, j, items[a].value) > 0)
    && (forall c :: c != Null && Q.Tally(rows, j, c) > 0 ==> exists a :: 0 <= a < |items| && items[a].value == c)
  }

  lemma RankingOf(p: Platform, typ: byte, h: Hist, items: seq<Item>, rows: seq<Row>, j: nat)
    requires HistOf(h, rows, j) && Lists(p, typ, h, multiset(items)) && Ranked(items)
    ensures IsRanking(p, typ, items, rows, j)
  {
    hide Shown, Q.Tally, ItemBefore, Ranked;
    forall a | 0 <= a < |items|
      ensures items[a].value in h && items[a] == ItemOf(p, typ, h, items[a].value)
    {
      assert items[a] in multiset(items);
    }
    forall a, b | 0 <= a < b < |items|
      ensures items[a].value != items[b].value
    {
      if items[a].value == items[b].value {
        Twice(items, a, b);
        assert false;
      }
    }
    forall c | c != Null && Q.Tally(rows, j, c) > 0
      ensures exists a :: 0 <= a < |items| && items[a].value == c
    {
      assert ItemOf(p, typ, h, c) in multiset(items);
      var a :| 0 <= a < |items| && items[a] == ItemOf(p, typ, h, c);
    }
  }

  lemma Twice(items: seq<Item>, a: nat, b: nat)
    requires a < b < |items| && items[a] == items[b]
    ensures multiset(items)[items[a]] >= 2
  {
    assert items == items[..b] + items[b..];
    assert items[..b][a] == items[a] && items[b..][0] == items[b];
    assert items[a] in multiset(items[..b]) && items[b] in multiset(items[b..]);
  }

  // ----- the counts add up ------------------------------------------------------------------------------

  function SumCounts(items: seq<Item>): nat {
    if items == [] then 0 else SumCounts(items[..|items| - 1]) + items[|items| - 1].count
  }

  ghost function SumTallies(items: seq<Item>, rows: seq<Row>, j: nat): nat {
    if items == [] then 0 else SumTallies(items[..|items| - 1], rows, j) + Q.Tally(rows, j, items[|items| - 1].value)
  }

  lemma {:induction false} SumsAgree(items: seq<Item>, rows: seq<Row>, j: nat)
    requires forall a :: 0 <= a < |items| ==> items[a].count == Q.Tally(rows, j, items[a].value)
    ensures SumCounts(items) == SumTallies(items, rows, j)
  {
    if items != [] {
      SumsAgree(items[..|items| - 1], rows, j);
    }
  }

  ghost predicate HasValue(items: seq<Item>, c: Cell) {
    exists a :: 0 <= a < |items| && items[a].value == c
  }

  /** A row adds one to the tally of its own value and of no other. */
  lemma {:induction false} SumStep(items: seq<Item>, rows: seq<Row>, row: Row, j: nat)
    requires j < |row|
    requires forall a, b :: 0 <= a < b < |items| ==> items[a].value != items[b].value
    ensures SumTallies(items, rows + [row], j) == SumTallies(items, rows, j) + if HasValue(items, row[j]) then 1 else 0
    decreases |items|
  {
    hide Q.Tally;
    if items != [] {
      var last := |items| - 1;
      var front, it := items[..last], items[last];
      SumStep(front, rows, row, j);
      Q.TallyStep(rows, row, j, it.value);
      assert items[last].value == it.value;
      if HasValue(front, row[j]) {
        var a :| 0 <= a < |front| && front[a].value == row[j];
        assert items[a].value == row[j];
      }
      if HasValue(items, row[j]) && it.value != row[j] {
        var a :| 0 <= a < |items| && items[a].value == row[j];
        assert front[a].value == row[j];
      }
    }
  }

  lemma {:induction false} NoTallies(items: seq<Item>, j: nat)
    ensures SumTallies(items, [], j) == 0
  {
    if items != [] {
      NoTallies(items[..|items| - 1], j);
    }
  }

  lemma {:induction false} SumOfPresent(items: seq<Item>, rows: seq<Row>, j: nat)
    requires forall a, b :: 0 <= a < b < |items| ==> items[a].value != items[b].value
    requires forall i :: 0 <= i < |rows| ==> j < |rows[i]| && (rows[i][j] != Null <==> HasValue(items, rows[i][j]))
    ensures SumTallies(items, rows, j) == Q.PresentIn(rows, j)
    decreases |rows|
  {
    hide HasValue;
    if rows == [] {
      NoTallies(items, j);
    } else {
      var last := |rows| - 1;
      SumOfPresent(items, rows[..last], j);
      SumStep(items, rows[..last], rows[last], j);
      assert rows[..last] + [rows[last]] == rows;
    }
  }

  lemma {:induction false} Occurs(rows: seq<Row>, j: nat, i: nat)
    requires i < |rows| && j < |rows[i]|
    ensures Q.Tally(rows, j, rows[i][j]) > 0
    decreases |rows|
  {
    var last := |rows| - 1;
    if i < last {
      Occurs(rows[..last], j, i);
    }
  }

  /** The counts of a ranking sum to the number of rows that have a value. */
  lemma RankingCountsRows(p: Platform, typ: byte, items: seq<Item>, rows: seq<Row>, j: nat)
    requires IsRanking(p, typ, items, rows, j)
    requires forall i :: 0 <= i < |rows| ==> j < |rows[i]|
    ensures SumCounts(items) == Q.PresentIn(rows, j)
  {
    hide Ranked, Shown, Q.Tally;
    SumsAgree(items, rows, j);
    forall i | 0 <= i < |rows|
      ensures rows[i][j] != Null <==> HasValue(items, rows[i][j])
    {
      Occurs(rows, j, i);
    }
    SumOfPresent(items, rows, j);
  }

  // ----- the query ------------------------------------------------------------------------------------

  const COUNT_NAME: bytes := [0x63, 0x6F, 0x75, 0x6E, 0x74]

  /** The rows of the answer: key and decimal count of the first n items. */
  function ItemsShown(p: Platform, items: seq<Item>, n: nat): (out: seq<seq<bytes>>)
    ensures |out| == if |items| < n then |items| else n
  {
    var k := if |items| < n then |items| else n;
    seq(k, a requires 0 <= a < k => [items[a].shown, Decimal(items[a].count)])
  }

  /** What a ranking shows: the first n items, key and decimal count, most frequent
      first and equally frequent ones by key, byte by byte; nothing left out ranks
      before anything shown. */
  lemma TopIs(p: Platform, items: seq<Item>, n: nat, out: seq<seq<bytes>>)
    requires Ranked(items) && out == ItemsShown(p, items, n)
    ensures |out| == if |items| < n then |items| else n
    ensures forall a :: 0 <= a < |out| ==> out[a] == [items[a].shown, Decimal(items[a].count)]
    ensures forall a, b :: 0 <= a < b < |items| ==>
              && items[a].count >= items[b].count
              && (items[a].count == items[b].count ==> !ByteBefore(items[b].shown, items[a].shown))
  {
    hide BytesLess, ByteBefore, Decimal;
    forall a, b | 0 <= a < b < |items|
      ensures items[a].count >= items[b].count
      ensures items[a].count == items[b].count ==> !ByteBefore(items[b].shown, items[a].shown)
    {
      assert !ItemBefore(items[b], items[a]);
      Q.BytesAreBefore(items[b].shown, items[a].shown);
    }
  }

  /** One segment's contribution: read off the inverted index when there is no
      WHERE and there is one, else counted over the rows that pass. */
  method CountSegment(ctx: SegCtx, h0: Hist, f: Option<Q.Expr>, j: nat, ghost rows: seq<Row>) returns (h: Result<Hist>)
    requires ctx.Valid() && FilterOk(ctx.S(), f) && j < |ctx.S().columns|
    requires HistOf(h0, rows, j) && |rows| + |ctx.table| < TWO64
    modifies ctx
    ensures ctx.Valid()
    ensures h.Ok? ==> HistOf(h.value, rows + Q.Selected(ctx.p, ctx.S(), ctx.table, f), j)
    ensures h != Err(OutOfMemory) && (ctx.Readable() ==> h.Ok?)
  {
    hide SegmentTrue, SegmentReadable, WellFormed, Q.Selected, SegCtx.Valid, SegCtx.Readable, Q.Hits, Readable, HistOf,
         CellsOf, ColumnOf, RowsOk, Q.Shaped, Q.Known, StatsOf, ColumnData;
    ghost var s := ctx.S();
    ctx.ColumnsTrue(j);
    if f.None? {
      SegmentInRange(ctx);
      var ci :- ReadIndexOf(ctx.p, ctx.r, ctx.segIdx, j);
      if ci.inverted.Some? {
        Q.SelectedAll(ctx.p, s, ctx.table);
        var merged := MergeHistogram(h0, ci.inverted.value, ctx.S(), j, rows, ctx.table);
        return Ok(merged);
      }
    }
    var bm :- ctx.EvalSegment(f);
    if bm == {} {
      NoHitsLeft(ctx.p, s, ctx.table, f, 0);
      assert ctx.table[0..] == ctx.table && rows + [] == rows;
      return Ok(h0);
    }
    var d :- ctx.Col(j);
    var counted := CountRows(h0, ctx.p, ctx.S(), d, bm, f, j, rows, ctx.table);
    return Ok(counted);
  }

  lemma SegmentInRange(ctx: SegCtx)
    requires ctx.Valid()
    ensures ctx.segIdx < |ctx.r.footer.segments| && |ctx.r.footer.segments[ctx.segIdx].columns| == |ctx.S().columns|
  {
    hide ColumnTrue, RowsOk, WellFormed;
  }

  lemma RankingIs(p: Platform, typ: byte, items: seq<Item>, rows: seq<Row>, j: nat)
    requires IsRanking(p, typ, items, rows, j)
    ensures Ranked(items)
    ensures forall a :: 0 <= a < |items| ==>
              items[a].shown == Shown(p, typ, items[a].value) && items[a].count == Q.Tally(rows, j, items[a].value)
    ensures forall a, b :: 0 <= a < b < |items| ==> items[a].value != items[b].value
    ensures forall c :: c != Null && Q.Tally(rows, j, c) > 0 ==> HasValue(items, c)
  {
    hide Ranked, Shown, Q.Tally;
  }

  /** top(col, N) is exact over any mix of segments, indexed or scanned. */
  method ExecTop(p: Platform, r: Reader, col: bytes, n: nat, f: Option<Q.Expr>, ghost groups: seq<seq<Row>>)
    returns (res: Result<Answer>, ghost items: seq<Item>)
    requires Truthful(p, r, groups) && FilterOk(r.footer.schema, f) && Index(r.footer.schema, col) >= 0
    ensures res.Ok? ==>
              var s, j := r.footer.schema, Index(r.footer.schema, col);
              && IsRanking(p, s.columns[j].typ, items, Q.Selected(p, s, Flatten(groups), f), j)
              && res.value == Answer(TopKind, 0, [col, COUNT_NAME], ItemsShown(p, items, n))
    ensures res.Ok? ==>
              var s, j, out := r.footer.schema, Index(r.footer.schema, col), res.value.rows;
              var sel := Q.Selected(p, s, Flatten(groups), f);
              && |out| == (if |items| < n then |items| else n)
              && (forall a :: 0 <= a < |out| ==> out[a] == [items[a].shown, Decimal(items[a].count)])
              && (forall a :: 0 <= a < |items| ==>
                    && items[a].shown == Shown(p, s.columns[j].typ, items[a].value)
                    && items[a].count == Q.Tally(sel, j, items[a].value))
              && (forall a, b :: 0 <= a < b < |items| ==> items[a].value != items[b].value)
              && (forall c :: c != Null && Q.Tally(sel, j, c) > 0 ==> HasValue(items, c))
              && (forall a, b :: 0 <= a < b < |items| ==>
                    && items[a].count >= items[b].count
                    && (items[a].count == items[b].count ==> !ByteBefore(items[b].shown, items[a].shown)))
    ensures res != Err(OutOfMemory) && (Readable(p, r) ==> res.Ok?)
  {
    hide SegmentTrue, SegmentReadable, WellFormed, Flatten, Q.Selected, SegCtx.Valid, SegCtx.Readable, Before, Q.Hits,
         Readable, HistOf, Index, Lists, Ranked, IsRanking, Q.Shaped, Q.Known, ItemsShown, Shown, Decimal, ByteBefore,
         Q.Tally, HasValue;
    ghost var s := r.footer.schema;
    var j := Index(r.footer.schema, col);
    var typ := r.footer.schema.columns[j].typ;
    items := [];
    var h: Hist := map[];
    var k := 0;
    BeforeBounds(groups, 0);
    NoneSelected(p, s, f);
    NothingCounted(j);
    while k < |r.footer.segments|
      invariant 0 <= k <= |r.footer.segments| == |groups|
      invariant HistOf(h, Q.Selected(p, s, Before(groups, k), f), j)
    {
      SelectedBefore(p, s, groups, f, k);
      BeforeStep(groups, k);
      var ctx := OpenSegment(p, r, k, groups);
      h :- CountSegment(ctx, h, f, j, Q.Selected(p, s, Before(groups, k), f));
      k := k + 1;
    }
    BeforeBounds(groups, k);
    var listed := ListItems(p, typ, h);
    var ranked := Rank(listed);
    RankingOf(p, typ, h, ranked, Q.Selected(p, s, Flatten(groups), f), j);
    items := ranked;
    RankingIs(p, typ, ranked, Q.Selected(p, s, Flatten(groups), f), j);
    TopIs(p, ranked, n, ItemsShown(p, ranked, n));
    return Ok(Answer(TopKind, 0, [col, COUNT_NAME], ItemsShown(p, ranked, n))), ranked;
  }
}
