/** Evaluating a predicate over one segment (internal/query/exec.go): zone maps,
    Bloom filters and inverted indexes answer what they can, scans the rest. */
module Evaluate {
  import opened Bits
  import opened Wrappers
  import opened Libraries
  import opened Sorting
  import opened Column
  import opened Schemas
  import opened ColumnIndexes
  import opened BloomFilter
  import opened InvertedIndex
  import opened FooterFormat
  import opened Store
  import opened Records
  import opened WriterLog
  import opened Contents
  import Q = Queries

  /** Per-segment state: a column is decoded at most once. */
  class SegCtx {
    const p: Platform
    const r: Reader
    const segIdx: nat
    const rowCount: nat
    var cache: map<nat, Data>

    /** The table the segment stands for. */
    ghost const table: seq<Row>

    ghost predicate Valid()
      reads this
    {
      && segIdx < |r.footer.segments| && WellFormed(r.footer.schema)
      && SegmentTrue(p, r, segIdx, table) && rowCount == |table|
      && forall k :: k in cache ==> ColumnData(p, r, segIdx, k) == Ok(cache[k])
    }

    function S(): Schema {
      r.footer.schema
    }

    ghost predicate Readable()
      requires segIdx < |r.footer.segments|
    {
      SegmentReadable(p, r, segIdx)
    }

    ghost function Cells(j: nat): seq<Cell>
      requires RowsOk(S(), table) && j < |S().columns|
    {
      ColumnOf(S(), table, j)
    }

    constructor (p0: Platform, r0: Reader, seg: nat, ghost rows: seq<Row>)
      requires seg < |r0.footer.segments| && WellFormed(r0.footer.schema) && SegmentTrue(p0, r0, seg, rows)
      ensures Valid() && p == p0 && r == r0 && segIdx == seg && table == rows
    {
      hide ColumnTrue;
      p, r, segIdx, rowCount, table := p0, r0, seg, r0.footer.segments[seg].rows, rows;
      cache := map[];
    }

    lemma TableOk()
      requires Valid()
      ensures RowsOk(S(), table) && |r.footer.segments[segIdx].columns| == |S().columns|
    {
      hide ColumnTrue, RowsOk, WellFormed;
    }

    lemma ColumnsTrue(j: nat)
      requires Valid() && j < |S().columns|
      ensures RowsOk(S(), table) && |r.footer.segments[segIdx].columns| == |S().columns|
      ensures ColumnTrue(p, r, segIdx, j, S().columns[j].Kind(), Cells(j))
      ensures Readable() ==> ColumnReadable(p, r, segIdx, j)
    {
      hide ColumnTrue, ColumnReadable, RowsOk, WellFormed, ColumnOf;
    }

    /** A decoded column is the column; decoding fails only on a damaged chunk. */
    method Col(j: nat) returns (d: Result<Data>)
      requires Valid() && j < |S().columns|
      modifies this
      ensures Valid()
      ensures d.Ok? ==> DataOk(d.value) && d.value.kind == S().columns[j].Kind() && CellsOf(d.value) == Cells(j)
      ensures d != Err(OutOfMemory) && (Readable() ==> d.Ok?)
    {
      hide ColumnData, CellsOf, ColumnOf, RowsOk, SoundIndex, StatsOf, ColumnIndexOf, WellFormed, SegmentTrue,
           SegmentReadable;
      ColumnsTrue(j);
      if j in cache {
        return Ok(cache[j]);
      }
      d := ReadColumnData(p, r, segIdx, j);
      if d.Ok? {
        cache := cache[j := d.value];
      }
    }

    /** Equality by scanning: the rows of the value. */
    method ScanEq(j: nat, v: Cell) returns (bm: Result<set<nat>>)
      requires Valid() && j < |S().columns| && v != Null && CellOk(S().columns[j].Kind(), v)
      modifies this
      ensures Valid()
      ensures bm.Ok? ==> bm.value == RowsOf(Cells(j), v)
      ensures bm != Err(OutOfMemory) && (Readable() ==> bm.Ok?)
    {
      hide ColumnOf, RowsOk, SegmentTrue, SegmentReadable, IsNull, CellsOf, RowsOf, WellFormed, Valid;
      TableOk();
      var d :- Col(j);
      ghost var cells := CellsOf(d);
      NoneOf(cells, v);
      var out: set<nat> := {};
      var i := 0;
      while i < d.rows
        invariant 0 <= i <= d.rows && Valid() && out == RowsOf(cells[..i], v)
      {
        RowsStep(cells, i, v);
        CellIs(d, i);
        if v.Int? {
          if !IsNull(d, i) && d.ints[i] == v.v {
            out := out + {i};
          }
        } else {
          if !IsNull(d, i) && d.blobs[i] == v.b {
            out := out + {i};
          }
        }
        i := i + 1;
      }
      assert cells[..i] == cells;
      return Ok(out);
    }

    /** !=, < and > by scanning the present values. */
    method EvalScan(j: nat, op: Q.Comparison, lit: bytes) returns (bm: Result<set<nat>>)
      requires Valid() && j < |S().columns| && (op.Ne? || op.Lt? || op.Gt?)
      modifies this
      ensures Valid()
      ensures bm.Ok? ==> bm.value == Satisfying(p, S().columns[j].typ, Cells(j), op, lit)
      ensures bm.Ok? ==> Scanned(bm.value, Cells(j), op, Q.LiteralOf(p, S().columns[j].typ, lit))
      ensures bm != Err(OutOfMemory) && (Readable() ==> bm.Ok?)
    {
      hide ColumnOf, RowsOk, SegmentTrue, SegmentReadable, IsNull, CellsOf, BytesLess, Satisfying, WellFormed, CmpInt,
           CmpBytes, Q.LiteralOf, Q.SatisfiesOne, Valid, Scanned;
      TableOk();
      var d :- Col(j);
      ghost var cells := CellsOf(d);
      var typ := S().columns[j].typ;
      var v := Q.LiteralOf(p, typ, lit);
      NoneSatisfying(p, typ, cells, op, lit);
      ScanFinds(S(), table, j, p, op, lit);
      if v.None? {
        return Ok({});
      }
      var out: set<nat> := {};
      var i := 0;
      while i < d.rows
        invariant 0 <= i <= d.rows && Valid() && out == Satisfying(p, typ, cells[..i], op, lit)
      {
        SatisfyingStep(p, typ, cells, op, lit, i);
        CellIs(d, i);
        ComparesTo(p, typ, cells[i], op, lit);
        if !IsNull(d, i) {
          if d.kind == KindInt {
            if CmpInt(op, d.ints[i], v.value.v) {
              out := out + {i};
            }
          } else {
            if CmpBytes(op, d.blobs[i], v.value.b) {
              out := out + {i};
            }
          }
        }
        i := i + 1;
      }
      assert cells[..i] == cells;
      return Ok(out);
    }

    /** col = value: zone map, then Bloom filter, then inverted index, then a scan. */
    method EvalEquality(j: nat, lit: bytes) returns (bm: Result<set<nat>>)
      requires Valid() && j < |S().columns|
      modifies this
      ensures Valid()
      ensures bm.Ok? ==> bm.value == Satisfying(p, S().columns[j].typ, Cells(j), Q.Eq, lit)
      ensures bm.Ok? ==>
                forall i :: i in bm.value <==>
                  && 0 <= i < |table|
                  && Q.LiteralOf(p, S().columns[j].typ, lit) == Some(Cells(j)[i])
      ensures bm != Err(OutOfMemory) && (Readable() ==> bm.Ok?)
    {
      hide ColumnOf, RowsOk, MayContain, StatsOf, BytesLess, Indexes, RowsOf, Satisfying, CellsOf, ColumnData,
           ColumnIndexOf, WellFormed, Q.LiteralOf, SegmentTrue, SegmentReadable, RowsOf;
      ColumnsTrue(j);
      ghost var cells := Cells(j);
      var def := S().columns[j];
      var cd := r.footer.segments[segIdx].columns[j];
      EqualIsRows(p, def.typ, cells, lit);
      EqualFinds(p, def.typ, cells, lit);
      var ci :- ReadIndexOf(p, r, segIdx, j);
      var lv := Q.LiteralOf(p, def.typ, lit);
      if lv.None? {
        return Ok({});
      }
      var v := lv.value;
      if cd.nonNull > 0 && Outside(cd, v) {
        OutsideZone(cd, def.Kind(), cells, v);
        return Ok({});
      }
      if ci.bloom.Some? {
        var maybe := MayContainHash(ci.bloom.value, HashOf(p, v));
        if !maybe {
          NotInBloom(p, ci, def.Kind(), cells, v);
          return Ok({});
        }
      }
      if ci.inverted.Some? {
        LookupIsExact(ci.inverted.value, def.Kind(), cells, v);
        var hit := Lookup(ci.inverted.value, v);
        if hit.Some? {
          return Ok(hit.value);
        }
        return Ok({});
      }
      bm := ScanEq(j, v);
    }

    method EvalCmp(col: bytes, op: Q.Comparison, vals: seq<bytes>) returns (bm: Result<set<nat>>)
      requires Valid() && Index(S(), col) >= 0 && (op != Q.In ==> |vals| == 1)
      modifies this
      ensures Valid()
      ensures bm.Ok? ==> bm.value == Q.Hits(p, S(), table, Some(Q.Cmp(col, op, vals)))
      ensures bm != Err(OutOfMemory) && (Readable() ==> bm.Ok?)
    {
      hide ColumnOf, RowsOk, SegmentTrue, SegmentReadable, Satisfying, Q.Hits, Index, SatisfyingAny, WellFormed;
      TableOk();
      var j := Index(S(), col);
      var typ := S().columns[j].typ;
      CmpIsUnion(p, S(), table, col, op, vals);
      if op == Q.In {
        NoneSatisfyingAny(p, typ, Cells(j), op, vals);
        var out: set<nat> := {};
        var k := 0;
        while k < |vals|
          invariant 0 <= k <= |vals| && Valid()
          invariant out == SatisfyingAny(p, typ, Cells(j), op, vals[..k])
        {
          AnyStep(p, typ, Cells(j), op, vals, k);
          var one :- EvalEquality(j, vals[k]);
          out := out + one;
          k := k + 1;
        }
        assert vals[..k] == vals;
        return Ok(out);
      }
      AnyOfOne(p, typ, Cells(j), op, vals);
      if op == Q.Eq {
        bm := EvalEquality(j, vals[0]);
      } else {
        bm := EvalScan(j, op, vals[0]);
      }
    }

    method EvalExpr(e: Q.Expr) returns (bm: Result<set<nat>>)
      requires Valid() && Q.Shaped(e) && Q.Known(S(), e)
      modifies this
      ensures Valid()
      ensures bm.Ok? ==> bm.value == Q.Hits(p, S(), table, Some(e))
      ensures bm.Ok? && e.Conj? ==> bm.value == Q.Hits(p, S(), table, Some(e.l)) * Q.Hits(p, S(), table, Some(e.r))
      ensures bm.Ok? && e.Disj? ==> bm.value == Q.Hits(p, S(), table, Some(e.l)) + Q.Hits(p, S(), table, Some(e.r))
      ensures bm != Err(OutOfMemory) && (Readable() ==> bm.Ok?)
      decreases e
    {
      hide ColumnOf, RowsOk, SegmentTrue, SegmentReadable, Q.Matches, Q.Hits, WellFormed;
      Q.HitsOf(p, S(), table, e);
      match e {
        case Conj(a, b) =>
          var l :- EvalExpr(a);
          var rr :- EvalExpr(b);
          return Ok(l * rr);
        case Disj(a, b) =>
          var l :- EvalExpr(a);
          var rr :- EvalExpr(b);
          return Ok(l + rr);
        case Cmp(col, op, vals) =>
          bm := EvalCmp(col, op, vals);
      }
    }

    /** The WHERE bitmap of the segment: exactly the positions of the rows that
        pass, whatever mix of indexes the columns have. */
    method EvalSegment(f: Option<Q.Expr>) returns (bm: Result<set<nat>>)
      requires Valid() && (f.Some? ==> Q.Shaped(f.value) && Q.Known(S(), f.value))
      modifies this
      ensures Valid()
      ensures bm.Ok? ==> bm.value == Q.Hits(p, S(), table, f)
      ensures bm.Ok? && f.None? ==> forall i :: i in bm.value <==> 0 <= i < |table|
      ensures bm != Err(OutOfMemory) && (Readable() ==> bm.Ok?)
    {
      hide SegmentTrue, SegmentReadable, Q.Matches;
      if f.None? {
        return Ok(UpTo(rowCount));
      }
      bm := EvalExpr(f.value);
    }
  }

  /** AddRange(0, n). */
  function UpTo(n: nat): (s: set<nat>)
    ensures forall i: nat :: i in s <==> i < n
  {
    if n == 0 then {} else UpTo(n - 1) + {n - 1}
  }

  lemma CellIs(d: Data, i: nat)
    requires DataOk(d) && i < d.rows
    ensures IsNull(d, i) <==> CellsOf(d)[i] == Null
    ensures !IsNull(d, i) ==> CellsOf(d)[i] == if d.kind == KindInt then Int(d.ints[i]) else Blob(d.blobs[i])
  {
    hide BitAt;
  }

  /** What a scan with !=, < or > has found: the rows whose number or byte string
      stands so to the literal's; nothing when the literal cannot be read. */
  ghost predicate Scanned(bm: set<nat>, cells: seq<Cell>, op: Q.Comparison, lit: Option<Cell>) {
    forall i :: i in bm <==>
      && 0 <= i < |cells| && lit.Some?
      && match (cells[i], lit.value)
         case (Int(x), Int(v)) => (op.Ne? && x != v) || (op.Lt? && x < v) || (op.Gt? && x > v)
         case (Blob(x), Blob(v)) => (op.Ne? && x != v) || (op.Lt? && ByteBefore(x, v)) || (op.Gt? && ByteBefore(v, x))
         case _ => false
  }

  lemma ScanFinds(s: Schema, table: seq<Row>, j: nat, p: Platform, op: Q.Comparison, lit: bytes)
    requires RowsOk(s, table) && j < |s.columns| && (op.Ne? || op.Lt? || op.Gt?)
    ensures Scanned(Satisfying(p, s.columns[j].typ, ColumnOf(s, table, j), op, lit), ColumnOf(s, table, j), op,
                    Q.LiteralOf(p, s.columns[j].typ, lit))
  {
    hide Q.LiteralOf, ByteBefore, BytesLess, ColumnOf, RowsOk;
    var typ := s.columns[j].typ;
    ColumnIsOk(s, table, j);
    var cells := ColumnOf(s, table, j);
    var v := Q.LiteralOf(p, typ, lit);
    forall i | 0 <= i < |cells| && v.Some? && cells[i].Blob? && v.value.Blob?
      ensures BytesLess(cells[i].b, v.value.b) <==> ByteBefore(cells[i].b, v.value.b)
      ensures BytesLess(v.value.b, cells[i].b) <==> ByteBefore(v.value.b, cells[i].b)
    {
      Q.BytesAreBefore(cells[i].b, v.value.b);
      Q.BytesAreBefore(v.value.b, cells[i].b);
    }
    forall i | 0 <= i < |cells|
      ensures CellOk(KindOf(typ), cells[i])
    {
    }
  }

  lemma EqualFinds(p: Platform, typ: byte, cells: seq<Cell>, lit: bytes)
    ensures forall i :: i in Satisfying(p, typ, cells, Q.Eq, lit) <==>
              0 <= i < |cells| && Q.LiteralOf(p, typ, lit) == Some(cells[i])
  {
    hide Q.LiteralOf;
  }

  lemma NoneOf(cells: seq<Cell>, v: Cell)
    ensures RowsOf(cells[..0], v) == {}
  {
  }

  // ----- comparisons -------------------------------------------------------------------------

  function CmpInt(op: Q.Comparison, a: u64, b: u64): bool {
    match op
    case Ne => a != b
    case Lt => a < b
    case Gt => a > b
    case _ => false
  }

  function CmpBytes(op: Q.Comparison, a: bytes, b: bytes): bool {
    match op
    case Ne => a != b
    case Lt => BytesLess(a, b)
    case Gt => BytesLess(b, a)
    case _ => false
  }

  /** The positions whose value satisfies a comparison with a literal. */
  function Satisfying(p: Platform, typ: byte, cells: seq<Cell>, op: Q.Comparison, lit: bytes): set<nat> {
    set i: nat | i < |cells| && Q.SatisfiesOne(p, typ, cells[i], op, lit)
  }

  function SatisfyingAny(p: Platform, typ: byte, cells: seq<Cell>, op: Q.Comparison, vals: seq<bytes>): set<nat> {
    set i: nat | i < |cells| && Q.Satisfies(p, typ, cells[i], op, vals)
  }

  lemma NoneSatisfying(p: Platform, typ: byte, cells: seq<Cell>, op: Q.Comparison, lit: bytes)
    ensures Satisfying(p, typ, cells[..0], op, lit) == {}
    ensures Q.LiteralOf(p, typ, lit).None? ==> Satisfying(p, typ, cells, op, lit) == {}
  {
  }

  lemma NoneSatisfyingAny(p: Platform, typ: byte, cells: seq<Cell>, op: Q.Comparison, vals: seq<bytes>)
    ensures SatisfyingAny(p, typ, cells, op, vals[..0]) == {}
  {
  }

  /** The scan's test on a present value. */
  lemma ComparesTo(p: Platform, typ: byte, c: Cell, op: Q.Comparison, lit: bytes)
    requires CellOk(KindOf(typ), c) && (op.Ne? || op.Lt? || op.Gt?)
    ensures c == Null ==> !Q.SatisfiesOne(p, typ, c, op, lit)
    ensures c != Null ==> match Q.LiteralOf(p, typ, lit)
                          case Some(v) => Q.SatisfiesOne(p, typ, c, op, lit)
                                          <==> if c.Int? then v.Int? && CmpInt(op, c.v, v.v)
                                               else v.Blob? && CmpBytes(op, c.b, v.b)
                          case None => true
  {
    hide BytesLess;
  }

  lemma SatisfyingStep(p: Platform, typ: byte, cells: seq<Cell>, op: Q.Comparison, lit: bytes, i: nat)
    requires i < |cells|
    ensures Satisfying(p, typ, cells[..i + 1], op, lit)
            == Satisfying(p, typ, cells[..i], op, lit) + if Q.SatisfiesOne(p, typ, cells[i], op, lit) then {i} else {}
  {
    hide Q.SatisfiesOne;
  }

  lemma AnyStep(p: Platform, typ: byte, cells: seq<Cell>, op: Q.Comparison, vals: seq<bytes>, k: nat)
    requires k < |vals| && op == Q.In
    ensures SatisfyingAny(p, typ, cells, op, vals[..k + 1])
            == SatisfyingAny(p, typ, cells, op, vals[..k]) + Satisfying(p, typ, cells, Q.Eq, vals[k])
  {
    forall i: nat | i < |cells|
      ensures Q.Satisfies(p, typ, cells[i], op, vals[..k + 1])
              <==> Q.Satisfies(p, typ, cells[i], op, vals[..k]) || Q.SatisfiesOne(p, typ, cells[i], Q.Eq, vals[k])
    {
      InIsEq(p, typ, cells[i], vals[k]);
      AnyOfMore(p, typ, cells[i], op, vals, k);
    }
  }

  lemma InIsEq(p: Platform, typ: byte, c: Cell, lit: bytes)
    ensures Q.SatisfiesOne(p, typ, c, Q.In, lit) == Q.SatisfiesOne(p, typ, c, Q.Eq, lit)
  {
  }

  lemma AnyOfMore(p: Platform, typ: byte, c: Cell, op: Q.Comparison, vals: seq<bytes>, k: nat)
    requires k < |vals|
    ensures Q.Satisfies(p, typ, c, op, vals[..k + 1])
            <==> Q.Satisfies(p, typ, c, op, vals[..k]) || Q.SatisfiesOne(p, typ, c, op, vals[k])
  {
    hide Q.SatisfiesOne;
    if Q.SatisfiesOne(p, typ, c, op, vals[k]) {
      assert vals[..k + 1][k] == vals[k];
    }
    if Q.Satisfies(p, typ, c, op, vals[..k]) {
      var m :| 0 <= m < k && Q.SatisfiesOne(p, typ, c, op, vals[..k][m]);
      assert vals[..k + 1][m] == vals[..k][m];
    }
    if Q.Satisfies(p, typ, c, op, vals[..k + 1]) {
      var m :| 0 <= m < k + 1 && Q.SatisfiesOne(p, typ, c, op, vals[..k + 1][m]);
      assert m < k ==> vals[..k][m] == vals[..k + 1][m];
    }
  }

  lemma AnyOfOne(p: Platform, typ: byte, cells: seq<Cell>, op: Q.Comparison, vals: seq<bytes>)
    requires |vals| == 1
    ensures SatisfyingAny(p, typ, cells, op, vals) == Satisfying(p, typ, cells, op, vals[0])
  {
    hide Q.SatisfiesOne;
  }

  /** A comparison selects the positions whose cell satisfies it. */
  lemma CmpIsUnion(p: Platform, s: Schema, rows: seq<Row>, col: bytes, op: Q.Comparison, vals: seq<bytes>)
    requires RowsOk(s, rows) && Index(s, col) >= 0
    ensures Q.Hits(p, s, rows, Some(Q.Cmp(col, op, vals)))
            == SatisfyingAny(p, s.columns[Index(s, col)].typ, ColumnOf(s, rows, Index(s, col)), op, vals)
  {
    hide Q.Satisfies, Index;
    forall i: nat | i < |rows|
      ensures RowOk(s, rows[i])
    {
    }
  }

  /** Equality with a literal selects the rows of its value. */
  lemma EqualIsRows(p: Platform, typ: byte, cells: seq<Cell>, lit: bytes)
    ensures Satisfying(p, typ, cells, Q.Eq, lit)
            == match Q.LiteralOf(p, typ, lit) case Some(v) => RowsOf(cells, v) case None => {}
  {
  }

  // ----- the shortcuts -------------------------------------------------------------------------

  /** The zone-map test. */
  predicate Outside(cd: ColumnDir, v: Cell) {
    match v
    case Int(x) => x < cd.minInt || x > cd.maxInt
    case Blob(b) => BytesLess(b, cd.minBytes) || BytesLess(cd.maxBytes, b)
    case Null => false
  }

  lemma OutsideZone(cd: ColumnDir, kind: Kind, cells: seq<Cell>, v: Cell)
    requires StatsOf(ZoneStats(cd, |cells|), kind, cells) && Outside(cd, v)
    ensures RowsOf(cells, v) == {}
  {
    hide BytesLess, CountPresent;
    forall i | 0 <= i < |cells|
      ensures cells[i] != v
    {
      assert cells[i].Int? ==> cd.minInt <= cells[i].v <= cd.maxInt;
      assert cells[i].Blob? ==> NotAbove(cd.minBytes, cells[i].b) && NotAbove(cells[i].b, cd.maxBytes);
    }
  }

  lemma NotInBloom(p: Platform, ci: ColumnIndex, kind: Kind, cells: seq<Cell>, v: Cell)
    requires SoundIndex(p, ci, kind, cells) && v != Null
    requires ci.bloom.Some? && !MayContain(ci.bloom.value, HashOf(p, v))
    ensures RowsOf(cells, v) == {}
  {
    hide MayContain;
  }
}
