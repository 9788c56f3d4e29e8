/** Query statements and what they mean on rows (internal/query/parse.go,
    internal/query/exec.go). A null satisfies no comparison, and neither does any
    value when the literal cannot be read as the column's type. */
module Queries {
  import opened Wrappers
  import opened Limits
  import opened Libraries
  import opened Column
  import opened Schemas
  import opened Records
  import opened InvertedIndex
  import opened Numerals
  import opened Sorting
  import opened Varint
  import Bits

  type bytes = Bits.bytes
  type u64 = Bits.u64

  datatype Comparison = Eq | Ne | Lt | Gt | In

  /** A boolean predicate over one row. */
  datatype Expr = Conj(l: Expr, r: Expr) | Disj(l: Expr, r: Expr) | Cmp(col: bytes, op: Comparison, vals: seq<bytes>)

  datatype Agg = Count | Top(col: bytes, n: nat)

  /** One of aggregate, star and projection is used; a limit of 0 is unset. */
  datatype Stmt = Stmt(aggregate: Option<Agg>, star: bool, projection: seq<bytes>, filter: Option<Expr>, limit: nat)

  /** Every comparison but IN has exactly one literal. */
  predicate Shaped(e: Expr) {
    match e
    case Conj(l, r) => Shaped(l) && Shaped(r)
    case Disj(l, r) => Shaped(l) && Shaped(r)
    case Cmp(_, op, vals) => op != In ==> |vals| == 1
  }

  /** Every column named is in the schema. */
  predicate Known(s: Schema, e: Expr) {
    match e
    case Conj(l, r) => Known(s, l) && Known(s, r)
    case Disj(l, r) => Known(s, l) && Known(s, r)
    case Cmp(col, _, _) => Index(s, col) >= 0
  }

  // ----- meaning -------------------------------------------------------------------------

  const TRUE: bytes := [0x74, 0x72, 0x75, 0x65]
  const FALSE: bytes := [0x66, 0x61, 0x6C, 0x73, 0x65]

  /** parseTimestamp: a date, or a signed number. */
  function ParseTimestamp(p: Platform, lit: bytes): Option<u64> {
    if p.parseTime(lit).Some? then p.parseTime(lit)
    else
      match ParseInt(lit)
      case Some(n) => Some(ToU64(n))
      case None => None
  }

  /** normInt: an integer column reads its literal by its type, and any but a date
      or a bool as digits. */
  function NormInt(p: Platform, typ: byte, lit: bytes): Option<u64> {
    if typ == TYPE_TIMESTAMP && ParseTimestamp(p, lit).Some? then ParseTimestamp(p, lit)
    else if typ == TYPE_BOOL && (lit == TRUE || lit == [0x31]) then Some(1)
    else if typ == TYPE_BOOL && (lit == FALSE || lit == [0x30]) then Some(0)
    else ParseUint(lit)
  }

  /** A literal as a stored value of a column type. */
  function LiteralOf(p: Platform, typ: byte, lit: bytes): (c: Option<Cell>)
    ensures c.Some? ==> c.value != Null && CellOk(KindOf(typ), c.value)
  {
    if KindOf(typ) == KindInt then
      match NormInt(p, typ, lit)
      case Some(v) => Some(Int(v))
      case None => None
    else if typ == TYPE_IP then
      match p.parseIP(lit)
      case Some(b) => Some(Blob(b))
      case None => None
    else Some(Blob(lit))
  }

  type byte = Bits.byte

  predicate Compares(op: Comparison, a: Cell, b: Cell) {
    match op
    case Eq => a == b
    case In => a == b
    case Ne => a != b
    case Lt => CellLess(a, b)
    case Gt => CellLess(b, a)
  }

  /** A value satisfies a comparison with a literal. */
  predicate SatisfiesOne(p: Platform, typ: byte, c: Cell, op: Comparison, lit: bytes) {
    c != Null && match LiteralOf(p, typ, lit)
                 case Some(v) => Compares(op, c, v)
                 case None => false
  }

  predicate Satisfies(p: Platform, typ: byte, c: Cell, op: Comparison, vals: seq<bytes>) {
    exists k :: 0 <= k < |vals| && SatisfiesOne(p, typ, c, op, vals[k])
  }

  predicate Matches(p: Platform, s: Schema, row: Row, e: Expr) {
    match e
    case Conj(l, r) => Matches(p, s, row, l) && Matches(p, s, row, r)
    case Disj(l, r) => Matches(p, s, row, l) || Matches(p, s, row, r)
    case Cmp(col, op, vals) =>
      var j := Index(s, col);
      0 <= j < |row| && Satisfies(p, s.columns[j].typ, row[j], op, vals)
  }

  predicate Passes(p: Platform, s: Schema, row: Row, f: Option<Expr>) {
    match f
    case None => true
    case Some(e) => Matches(p, s, row, e)
  }

  /** The rows that pass, in order. */
  function Selected(p: Platform, s: Schema, rows: seq<Row>, f: Option<Expr>): (out: seq<Row>)
    ensures |out| <= |rows|
  {
    if rows == [] then []
    else
      var last := |rows| - 1;
      Selected(p, s, rows[..last], f) + if Passes(p, s, rows[last], f) then [rows[last]] else []
  }

  /** How often a value occurs in a column. */
  function Tally(rows: seq<Row>, j: nat, c: Cell): (n: nat)
    ensures n <= |rows|
  {
    if rows == [] then 0
    else
      var last := |rows| - 1;
      Tally(rows[..last], j, c) + if j < |rows[last]| && rows[last][j] == c then 1 else 0
  }

  /** How many rows have a value in a column. */
  function PresentIn(rows: seq<Row>, j: nat): nat {
    if rows == [] then 0
    else
      var last := |rows| - 1;
      PresentIn(rows[..last], j) + if j < |rows[last]| && rows[last][j] != Null then 1 else 0
  }

  // ----- what literals and comparisons are ---------------------------------------------------

  /** How each type reads a literal: counts and ports as digits, strings as they
      stand, addresses as the library reads them, bools by name or digit. */
  lemma LiteralsAre(p: Platform, lit: bytes, v: u64, b: bytes)
    ensures forall typ :: typ in {2, 3} ==>
              (LiteralOf(p, typ, lit) == Some(Int(v)) <==> AllDigits(lit) && DecimalValue(lit) == v)
    ensures forall typ :: typ in {4, 5} ==> (LiteralOf(p, typ, lit) == Some(Blob(b)) <==> lit == b)
    ensures LiteralOf(p, 1, lit) == Some(Blob(b)) <==> p.parseIP(lit) == Some(b)
    ensures LiteralOf(p, 6, [0x74, 0x72, 0x75, 0x65]) == Some(Int(1))
    ensures LiteralOf(p, 6, [0x66, 0x61, 0x6C, 0x73, 0x65]) == Some(Int(0))
    ensures AllDigits(lit) && DecimalValue(lit) == v ==> LiteralOf(p, 6, lit) == Some(Int(v))
  {
    hide DecimalValue;
    Unfolded([0x30]);
    Unfolded([0x31]);
    assert AllDigits(lit) ==> lit != TRUE && lit != FALSE by {
      assert TRUE[0] == 0x74 && FALSE[0] == 0x66;
    }
  }

  lemma Unfolded(s: bytes)
    requires |s| == 1 && s[0] >= 0x30
    ensures DecimalValue(s) == s[0] - 0x30
  {
    assert s[..0] == [];
  }

  /** Times are read as a date, else as a signed number of nanoseconds, or as digits
      beyond. */
  lemma TimesAre(p: Platform, lit: bytes, v: u64)
    ensures p.parseTime(lit) == Some(v) ==> LiteralOf(p, 0, lit) == Some(Int(v))
    ensures p.parseTime(lit) == None && AllDigits(lit) && DecimalValue(lit) == v ==>
              LiteralOf(p, 0, lit) == Some(Int(v))
    ensures p.parseTime([0x2D] + lit) == None && AllDigits(lit) && 1 <= DecimalValue(lit) <= MAX_INT + 1 ==>
              LiteralOf(p, 0, [0x2D] + lit) == Some(Int(Bits.TWO64 - DecimalValue(lit)))
  {
    hide DecimalValue;
    assert ([0x2D] + lit)[1..] == lit;
  }

  /** Intersection and union of bitmaps are conjunction and disjunction of predicates. */
  lemma HitsOf(p: Platform, s: Schema, rows: seq<Row>, e: Expr)
    ensures e.Conj? ==> Hits(p, s, rows, Some(e)) == Hits(p, s, rows, Some(e.l)) * Hits(p, s, rows, Some(e.r))
    ensures e.Disj? ==> Hits(p, s, rows, Some(e)) == Hits(p, s, rows, Some(e.l)) + Hits(p, s, rows, Some(e.r))
    ensures forall i :: i in Hits(p, s, rows, None) <==> 0 <= i < |rows|
  {
    hide Satisfies;
  }

  /** What one comparison says of one row. A null satisfies none, and neither does
      anything when the literal cannot be read. Else exactly one of <, = and > holds,
      != is the negation of =, and < is numeric or byte-wise. */
  lemma ComparisonsAre(p: Platform, s: Schema, row: Row, col: bytes, lit: bytes)
    requires RowOk(s, row) && Index(s, col) >= 0
    ensures var j := Index(s, col);
            var v := LiteralOf(p, s.columns[j].typ, lit);
            var less, equal := Matches(p, s, row, Cmp(col, Lt, [lit])), Matches(p, s, row, Cmp(col, Eq, [lit]));
            var greater, other := Matches(p, s, row, Cmp(col, Gt, [lit])), Matches(p, s, row, Cmp(col, Ne, [lit]));
            if row[j] == Null || v.None? then !less && !equal && !greater && !other
            else && equal == (row[j] == v.value) && other == !equal
                 && less == (match row[j] case Int(x) => x < v.value.v case Blob(x) => ByteBefore(x, v.value.b))
                 && (less || equal || greater) && !(less && equal) && !(less && greater) && !(equal && greater)
  {
    hide LiteralOf, BytesLess, ByteBefore, Index;
    var j := Index(s, col);
    var typ := s.columns[j].typ;
    assert CellOk(KindOf(typ), row[j]);
    forall op: Comparison
      ensures Matches(p, s, row, Cmp(col, op, [lit])) <==> SatisfiesOne(p, typ, row[j], op, lit)
    {
      assert [lit][0] == lit;
    }
    if row[j] != Null && LiteralOf(p, typ, lit).Some? {
      OneOrder(row[j], LiteralOf(p, typ, lit).value);
    }
  }

  lemma OneOrder(a: Cell, b: Cell)
    requires a != Null && b != Null && (a.Int? <==> b.Int?)
    ensures CellLess(a, b) == match a case Int(x) => x < b.v case Blob(x) => ByteBefore(x, b.b)
    ensures a == b || CellLess(a, b) || CellLess(b, a)
    ensures !(a == b && CellLess(a, b)) && !(CellLess(a, b) && CellLess(b, a)) && !(a == b && CellLess(b, a))
  {
    hide BytesLess, ByteBefore;
    if a.Blob? {
      BytesOrder();
      BytesAreBefore(a.b, b.b);
    }
  }

  lemma BytesAreBefore(a: bytes, b: bytes)
    ensures BytesLess(a, b) <==> ByteBefore(a, b)
  {
    BytesLessIs(a, b);
  }

  /** IN is any of its equalities. */
  lemma InIsAny(p: Platform, s: Schema, row: Row, col: bytes, vals: seq<bytes>)
    requires RowOk(s, row) && Index(s, col) >= 0
    ensures Matches(p, s, row, Cmp(col, In, vals)) <==>
            exists k :: 0 <= k < |vals| && Matches(p, s, row, Cmp(col, Eq, [vals[k]]))
  {
    hide LiteralOf, Index;
    var j := Index(s, col);
    var typ := s.columns[j].typ;
    forall lit: bytes
      ensures Matches(p, s, row, Cmp(col, Eq, [lit])) <==> SatisfiesOne(p, typ, row[j], In, lit)
    {
      assert [lit][0] == lit;
    }
  }

  /** The columns an expression names. */
  function ColumnsIn(e: Expr): set<bytes> {
    match e
    case Conj(l, r) => ColumnsIn(l) + ColumnsIn(r)
    case Disj(l, r) => ColumnsIn(l) + ColumnsIn(r)
    case Cmp(col, _, _) => {col}
  }

  ghost predicate HasColumn(s: Schema, col: bytes) {
    exists j :: 0 <= j < |s.columns| && s.columns[j].name == col
  }

  /** An expression is over known columns exactly when every name in it is that of a
      column of the schema. */
  lemma {:induction false} KnownIs(s: Schema, e: Expr)
    ensures Known(s, e) <==> forall col :: col in ColumnsIn(e) ==> HasColumn(s, col)
  {
    match e {
      case Conj(l, r) =>
        KnownIs(s, l);
        KnownIs(s, r);
        assert forall col :: col in ColumnsIn(e) <==> col in ColumnsIn(l) || col in ColumnsIn(r);
      case Disj(l, r) =>
        KnownIs(s, l);
        KnownIs(s, r);
        assert forall col :: col in ColumnsIn(e) <==> col in ColumnsIn(l) || col in ColumnsIn(r);
      case Cmp(col, _, _) =>
        hide Index;
        assert ColumnsIn(e) == {col};
        if Index(s, col) >= 0 {
          assert s.columns[Index(s, col)].name == col;
          assert HasColumn(s, col);
        } else {
          assert !HasColumn(s, col);
          assert col in ColumnsIn(e);
        }
    }
  }

  // ----- laws ------------------------------------------------------------------------------

  lemma SelectedStep(p: Platform, s: Schema, rows: seq<Row>, f: Option<Expr>, i: nat)
    requires i < |rows|
    ensures Selected(p, s, rows[..i + 1], f)
            == Selected(p, s, rows[..i], f) + if Passes(p, s, rows[i], f) then [rows[i]] else []
  {
    hide Passes;
    assert rows[..i + 1][..i] == rows[..i];
  }

  lemma {:induction false} SelectedJoin(p: Platform, s: Schema, a: seq<Row>, b: seq<Row>, f: Option<Expr>)
    ensures Selected(p, s, a + b, f) == Selected(p, s, a, f) + Selected(p, s, b, f)
    decreases |b|
  {
    hide Passes;
    if b == [] {
      assert a + b == a;
    } else {
      var last := |b| - 1;
      SelectedJoin(p, s, a, b[..last], f);
      assert (a + b)[..|a| + last] == a + b[..last];
    }
  }

  lemma {:induction false} SelectedAll(p: Platform, s: Schema, rows: seq<Row>)
    ensures Selected(p, s, rows, None) == rows
  {
    if rows != [] {
      SelectedAll(p, s, rows[..|rows| - 1]);
    }
  }

  lemma TallyStep(rows: seq<Row>, row: Row, j: nat, c: Cell)
    ensures Tally(rows + [row], j, c) == Tally(rows, j, c) + if j < |row| && row[j] == c then 1 else 0
  {
    assert (rows + [row])[..|rows|] == rows;
  }

  lemma {:induction false} TallyJoin(a: seq<Row>, b: seq<Row>, j: nat, c: Cell)
    ensures Tally(a + b, j, c) == Tally(a, j, c) + Tally(b, j, c)
    decreases |b|
  {
    if b == [] {
      assert a + b == a;
    } else {
      var last := |b| - 1;
      TallyJoin(a, b[..last], j, c);
      assert (a + b)[..|a| + last] == a + b[..last];
    }
  }

  /** The number of positions that hold a value is its tally. */
  lemma {:induction false} TallyIsCount(s: Schema, rows: seq<Row>, j: nat, c: Cell)
    requires RowsOk(s, rows) && j < |s.columns|
    ensures |RowsOf(ColumnOf(s, rows, j), c)| == Tally(rows, j, c)
  {
    hide RowsOf, ColumnOf;
    if rows == [] {
      NoRows(s, j, c);
    } else {
      var last := |rows| - 1;
      var cells := ColumnOf(s, rows, j);
      TallyIsCount(s, rows[..last], j, c);
      ColumnPrefix(s, rows, j, last);
      assert RowOk(s, rows[last]);
      assert cells[..last + 1] == cells;
      RowsStep(cells, last, c);
      NotYet(cells[..last], c, last);
    }
  }

  lemma NoRows(s: Schema, j: nat, c: Cell)
    requires j < |s.columns|
    ensures RowsOf(ColumnOf(s, [], j), c) == {}
  {
  }

  lemma NotYet(cells: seq<Cell>, c: Cell, i: nat)
    requires i >= |cells|
    ensures i !in RowsOf(cells, c)
  {
  }

  lemma ColumnPrefix(s: Schema, rows: seq<Row>, j: nat, i: nat)
    requires RowsOk(s, rows) && j < |s.columns| && i < |rows|
    ensures ColumnOf(s, rows[..i], j) == ColumnOf(s, rows, j)[..i] && |ColumnOf(s, rows, j)| == |rows|
    ensures RowOk(s, rows[i]) && ColumnOf(s, rows, j)[i] == rows[i][j]
  {
    assert RowOk(s, rows[i]);
  }

  /** The positions of the rows that pass. */
  function Hits(p: Platform, s: Schema, rows: seq<Row>, f: Option<Expr>): set<nat> {
    set i: nat | i < |rows| && Passes(p, s, rows[i], f)
  }

  lemma NoHits(p: Platform, s: Schema, f: Option<Expr>)
    ensures Hits(p, s, [], f) == {}
  {
  }

  lemma LastHit(p: Platform, s: Schema, rows: seq<Row>, f: Option<Expr>)
    requires rows != []
    ensures var last := |rows| - 1;
            && last !in Hits(p, s, rows[..last], f)
            && Hits(p, s, rows, f) == Hits(p, s, rows[..last], f) + if Passes(p, s, rows[last], f) then {last} else {}
  {
    hide Passes;
  }

  lemma {:induction false} HitsCount(p: Platform, s: Schema, rows: seq<Row>, f: Option<Expr>)
    ensures |Hits(p, s, rows, f)| == |Selected(p, s, rows, f)|
  {
    hide Passes, Hits;
    if rows == [] {
      NoHits(p, s, f);
    } else {
      var last := |rows| - 1;
      HitsCount(p, s, rows[..last], f);
      LastHit(p, s, rows, f);
    }
  }
}
