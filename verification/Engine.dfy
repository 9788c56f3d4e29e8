/** The query engine's entry point (internal/query/exec.go) and what its answers
    depend on: the rows and the statement, nothing else. */
module Engine {
  import opened Bits
  import opened Wrappers
  import opened Libraries
  import opened Sorting
  import opened Column
  import opened Schemas
  import opened FooterFormat
  import opened Store
  import opened Records
  import opened Contents
  import opened Execute
  import opened TopValues
  import Q = Queries

  /** The relational meaning of a statement on a table. */
  ghost predicate Answers(p: Platform, s: Schema, rows: seq<Row>, st: Q.Stmt, a: Answer)
    requires KnownColumns(s, st)
  {
    var sel := Q.Selected(p, s, rows, st.filter);
    match st.aggregate
    case Some(Count) =>
      a.kind == CountKind && a.count == |sel| && a.columns == [] && a.rows == []
    case Some(Top(col, n)) =>
      exists items ::
        && IsRanking(p, s.columns[Index(s, col)].typ, items, sel, Index(s, col))
        && a == Answer(TopKind, 0, [col, COUNT_NAME], ItemsShown(p, items, n))
    case None =>
      var cols := OutColumns(s, st);
      a == Answer(RowsKind, 0, NamesOf(s, cols), RowsShown(p, s, cols, First(sel, RowLimit(st))))
  }

  /** Runs a statement: an unknown column is refused, a damaged chunk is an error,
      and any answer given is right. */
  method ExecuteStmt(p: Platform, r: Reader, st: Q.Stmt, ghost groups: seq<seq<Row>>) returns (res: Result<Answer>)
    requires Truthful(p, r, groups) && (st.filter.Some? ==> Q.Shaped(st.filter.value))
    ensures !KnownColumns(r.footer.schema, st) ==> res == Err(Corrupt)
    ensures KnownColumns(r.footer.schema, st) && res.Ok? ==> Answers(p, r.footer.schema, Flatten(groups), st, res.value)
    ensures res != Err(OutOfMemory) && (KnownColumns(r.footer.schema, st) && Readable(p, r) ==> res.Ok?)
  {
    hide Truthful, Readable, Q.Selected, Flatten, Index, OutColumns, RowsShown, ItemsShown, NamesOf, First, IsRanking,
         Q.Known, Q.Shaped;
    var v := ValidateStmt(r.footer.schema, st);
    if v.Fail? {
      return Err(v.error);
    }
    if st.aggregate.Some? && st.aggregate.value.Count? {
      res := ExecCount(p, r, st.filter, groups);
    } else if st.aggregate.Some? {
      ghost var items;
      res, items := ExecTop(p, r, st.aggregate.value.col, st.aggregate.value.n, st.filter, groups);
    } else {
      res := ExecRows(p, r, st, groups);
    }
  }

  // ----- answers are determined ---------------------------------------------------------------

  /** What a ranking shows of an item. */
  function KeyOf(it: Item): (u64, bytes) {
    (it.count, it.shown)
  }

  function KeysOf(items: seq<Item>): (ks: seq<(u64, bytes)>)
    ensures |ks| == |items|
  {
    seq(|items|, i requires 0 <= i < |items| => KeyOf(items[i]))
  }

  lemma {:induction false} DistinctMultiset<T>(s: seq<T>)
    requires forall i, j :: 0 <= i < j < |s| ==> s[i] != s[j]
    ensures forall x :: multiset(s)[x] == if x in s then 1 else 0
  {
    if s != [] {
      var front, last := s[..|s| - 1], s[|s| - 1];
      DistinctMultiset(front);
      assert s == front + [last];
    }
  }

  /** Two rankings of the same rows list the same items. */
  lemma SameItems(p: Platform, typ: byte, a: seq<Item>, b: seq<Item>, rows: seq<Row>, j: nat)
    requires IsRanking(p, typ, a, rows, j) && IsRanking(p, typ, b, rows, j)
    ensures multiset(a) == multiset(b)
  {
    hide Ranked, Shown, Q.Tally;
    DistinctMultiset(a);
    DistinctMultiset(b);
    forall it | it in a
      ensures it in b
    {
      SameItem(p, typ, a, b, rows, j, it);
    }
    forall it | it in b
      ensures it in a
    {
      SameItem(p, typ, b, a, rows, j, it);
    }
  }

  lemma SameItem(p: Platform, typ: byte, a: seq<Item>, b: seq<Item>, rows: seq<Row>, j: nat, it: Item)
    requires IsRanking(p, typ, a, rows, j) && IsRanking(p, typ, b, rows, j) && it in a
    ensures it in b
  {
    hide Ranked, Shown, Q.Tally;
    var k :| 0 <= k < |a| && a[k] == it;
    assert a[k].value != Null && Q.Tally(rows, j, a[k].value) > 0;
    var m :| 0 <= m < |b| && b[m].value == it.value;
    assert b[m] == it;
  }

  function Without<T>(s: seq<T>, k: nat): seq<T>
    requires k < |s|
  {
    s[..k] + s[k + 1..]
  }

  lemma WithoutOne<T>(s: seq<T>, k: nat)
    requires k < |s|
    ensures multiset(s) == multiset(Without(s, k)) + multiset{s[k]}
    ensures multiset(Without(s, k)) == multiset(s) - multiset{s[k]} && |Without(s, k)| == |s| - 1
  {
    assert s == s[..k] + [s[k]] + s[k + 1..];
  }

  lemma KeysWithout(items: seq<Item>, k: nat)
    requires k < |items|
    ensures multiset(KeysOf(items)) == multiset(KeysOf(Without(items, k))) + multiset{KeyOf(items[k])}
    ensures multiset(Without(items, k)) == multiset(items) - multiset{items[k]} && |Without(items, k)| == |items| - 1
  {
    hide KeyOf;
    WithoutOne(items, k);
    WithoutOne(KeysOf(items), k);
    assert KeysOf(Without(items, k)) == Without(KeysOf(items), k);
  }

  lemma {:induction false} KeysPermute(a: seq<Item>, b: seq<Item>)
    requires multiset(a) == multiset(b)
    ensures multiset(KeysOf(a)) == multiset(KeysOf(b))
    decreases |a|
  {
    hide KeysOf, KeyOf, Without;
    assert |multiset(a)| == |a| && |multiset(b)| == |b|;
    if a != [] {
      assert a[0] in multiset(b);
      var k :| 0 <= k < |b| && b[k] == a[0];
      KeysWithout(a, 0);
      KeysWithout(b, k);
      KeysPermute(Without(a, 0), Without(b, k));
    } else {
      assert |multiset(a)| == |multiset(b)|;
      assert b == [];
    }
  }

  predicate KeyBefore(x: (u64, bytes), y: (u64, bytes)) {
    x.0 > y.0 || (x.0 == y.0 && BytesLess(x.1, y.1))
  }

  ghost predicate KeysRanked(ks: seq<(u64, bytes)>) {
    forall i, j :: 0 <= i < j < |ks| ==> !KeyBefore(ks[j], ks[i])
  }

  lemma KeyTotal(x: (u64, bytes), y: (u64, bytes))
    requires !KeyBefore(x, y) && !KeyBefore(y, x)
    ensures x == y
  {
    hide BytesLess;
    BytesOrder();
  }

  lemma KeyIrreflexive(x: (u64, bytes))
    ensures !KeyBefore(x, x)
  {
    BytesOrder();
  }

  /** A multiset of keys has one ranked order. */
  lemma {:induction false} OneOrder(a: seq<(u64, bytes)>, b: seq<(u64, bytes)>)
    requires multiset(a) == multiset(b) && KeysRanked(a) && KeysRanked(b)
    ensures a == b
    decreases |a|
  {
    hide KeyBefore, KeysRanked;
    assert |multiset(a)| == |a| && |multiset(b)| == |b|;
    if a != [] {
      LeastFirst(a, b);
      LeastFirst(b, a);
      KeyTotal(a[0], b[0]);
      TailOf(a);
      TailOf(b);
      OneOrder(a[1..], b[1..]);
    }
  }

  lemma TailOf(ks: seq<(u64, bytes)>)
    requires ks != []
    ensures multiset(ks[1..]) == multiset(ks) - multiset{ks[0]} && ks == [ks[0]] + ks[1..]
    ensures KeysRanked(ks) ==> KeysRanked(ks[1..])
  {
    hide KeyBefore;
    assert ks == [ks[0]] + ks[1..];
  }

  lemma LeastFirst(a: seq<(u64, bytes)>, b: seq<(u64, bytes)>)
    requires multiset(a) == multiset(b) && KeysRanked(a) && a != [] && b != []
    ensures !KeyBefore(b[0], a[0])
  {
    hide KeyBefore;
    assert b[0] in multiset(a);
    var k :| 0 <= k < |a| && a[k] == b[0];
    if k == 0 {
      KeyIrreflexive(a[0]);
    }
  }

  /** The ranking shown is determined, though distinct values may look alike and
      the sort is not stable: ties show the same row. */
  lemma RankingsShowTheSame(p: Platform, typ: byte, a: seq<Item>, b: seq<Item>, rows: seq<Row>, j: nat, n: nat)
    requires IsRanking(p, typ, a, rows, j) && IsRanking(p, typ, b, rows, j)
    ensures ItemsShown(p, a, n) == ItemsShown(p, b, n)
  {
    hide Shown, Q.Tally;
    SameItems(p, typ, a, b, rows, j);
    KeysPermute(a, b);
    RankedKeys(a);
    RankedKeys(b);
    OneOrder(KeysOf(a), KeysOf(b));
    assert |a| == |b|;
    forall k | 0 <= k < |a|
      ensures a[k].count == b[k].count && a[k].shown == b[k].shown
    {
      assert KeysOf(a)[k] == KeysOf(b)[k];
    }
  }

  lemma RankedKeys(items: seq<Item>)
    requires Ranked(items)
    ensures KeysRanked(KeysOf(items))
  {
    hide BytesLess;
    var ks := KeysOf(items);
    forall i, j | 0 <= i < j < |ks|
      ensures !KeyBefore(ks[j], ks[i])
    {
      assert !ItemBefore(items[j], items[i]);
    }
  }

  /** Every statement has exactly one answer on a table: how the rows are divided
      into segments, compressed and indexed makes no difference. */
  lemma AnswersAreDetermined(p: Platform, s: Schema, rows: seq<Row>, st: Q.Stmt, a: Answer, b: Answer)
    requires KnownColumns(s, st) && Answers(p, s, rows, st, a) && Answers(p, s, rows, st, b)
    ensures a == b
  {
    hide Q.Selected, IsRanking, ItemsShown, RowsShown, OutColumns, NamesOf, First, Index;
    if st.aggregate.Some? && st.aggregate.value.Top? {
      var Top(col, n) := st.aggregate.value;
      var j := Index(s, col);
      var sel := Q.Selected(p, s, rows, st.filter);
      var x :| IsRanking(p, s.columns[j].typ, x, sel, j)
                && a == Answer(TopKind, 0, [col, COUNT_NAME], ItemsShown(p, x, n));
      var y :| IsRanking(p, s.columns[j].typ, y, sel, j)
                && b == Answer(TopKind, 0, [col, COUNT_NAME], ItemsShown(p, y, n));
      RankingsShowTheSame(p, s.columns[j].typ, x, y, sel, j, n);
    }
  }
}
