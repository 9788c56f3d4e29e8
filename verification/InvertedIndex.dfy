/** The inverted index: each distinct value of a column to the set of row
    positions that hold it (internal/index/inverted.go).

    The integer and the byte variants of the source differ only in the key, so
    both are modelled by one map keyed by the cell's value. */
module InvertedIndex {
  import opened Bits
  import opened Wrappers
  import opened Limits
  import opened Libraries
  import opened Varint
  import opened Sorting
  import opened Cursors
  import opened Framing
  import opened Column
  import opened Schemas

  const MAX_CARDINALITY: nat := 0x1_0000

  datatype Inverted = Inverted(kind: byte, rows: map<Cell, set<nat>>)

  /** The row positions of a value. */
  function RowsOf(cells: seq<Cell>, c: Cell): set<nat> {
    set i: nat | i < |cells| && cells[i] == c
  }

  /** The present values of a column. */
  function ValuesOf(cells: seq<Cell>): set<Cell> {
    set c | c in cells && c != Null
  }

  /** The index of a column: exactly the present values, each with exactly its rows. */
  ghost predicate Indexes(iv: Inverted, kind: Kind, cells: seq<Cell>) {
    && iv.kind == kind.Code()
    && iv.rows.Keys == ValuesOf(cells)
    && forall c :: c in iv.rows ==> iv.rows[c] == RowsOf(cells, c)
  }

  lemma RowsStep(cells: seq<Cell>, i: nat, c: Cell)
    requires i < |cells|
    ensures RowsOf(cells[..i + 1], c) == RowsOf(cells[..i], c) + if cells[i] == c then {i} else {}
  {
  }

  lemma ValuesStep(cells: seq<Cell>, i: nat)
    requires i < |cells|
    ensures ValuesOf(cells[..i + 1]) == ValuesOf(cells[..i]) + if cells[i] == Null then {} else {cells[i]}
    ensures |ValuesOf(cells[..i])| <= |ValuesOf(cells[..i + 1])|
    ensures |ValuesOf(cells[..i + 1])| <= |ValuesOf(cells)|
  {
    assert cells[..i + 1] == cells[..i] + [cells[i]];
    var v, w := ValuesOf(cells[..i]), ValuesOf(cells[..i + 1]);
    assert w == v + if cells[i] == Null then {} else {cells[i]};
    SubsetSize(v, w);
    SubsetSize(w, ValuesOf(cells));
  }

  lemma {:induction false} SubsetSize<T>(a: set<T>, b: set<T>)
    requires a <= b
    ensures |a| <= |b|
  {
    if a != {} {
      var x :| x in a;
      SubsetSize(a - {x}, b - {x});
    }
  }

  /** The map after the first i rows. */
  ghost predicate IndexedUpTo(rows: map<Cell, set<nat>>, cells: seq<Cell>, i: nat)
    requires i <= |cells|
  {
    && rows.Keys == ValuesOf(cells[..i])
    && forall c :: c in rows ==> rows[c] == RowsOf(cells[..i], c)
  }

  lemma RowsOfNew(cells: seq<Cell>, i: nat, c: Cell)
    requires i <= |cells| && c != Null && c !in ValuesOf(cells[..i])
    ensures RowsOf(cells[..i], c) == {}
  {
  }

  lemma SkipNull(rows: map<Cell, set<nat>>, cells: seq<Cell>, i: nat)
    requires i < |cells| && IndexedUpTo(rows, cells, i) && cells[i] == Null
    ensures IndexedUpTo(rows, cells, i + 1)
  {
    hide RowsOf, ValuesOf;
    ValuesStep(cells, i);
    assert rows.Keys + {} == rows.Keys;
    forall k | k in rows
      ensures rows[k] == RowsOf(cells[..i + 1], k)
    {
      NotNull(cells, i, k);
      RowsStep(cells, i, k);
    }
  }

  lemma NotNull(cells: seq<Cell>, i: nat, k: Cell)
    requires i <= |cells|
    ensures k in ValuesOf(cells[..i]) ==> k != Null
  {
  }

  /** Row i goes to the entry of its value, and to no other. */
  lemma AddRow(rows: map<Cell, set<nat>>, cells: seq<Cell>, i: nat, prev: set<nat>, rows': map<Cell, set<nat>>)
    requires i < |cells| && IndexedUpTo(rows, cells, i) && cells[i] != Null
    requires prev == if cells[i] in rows then rows[cells[i]] else {}
    requires rows' == rows[cells[i] := prev + {i}]
    ensures IndexedUpTo(rows', cells, i + 1)
  {
    hide RowsOf, ValuesOf;
    var c := cells[i];
    ValuesStep(cells, i);
    if c !in rows {
      RowsOfNew(cells, i, c);
    }
    assert rows'.Keys == rows.Keys + {c};
    forall k | k in rows'
      ensures rows'[k] == RowsOf(cells[..i + 1], k)
    {
      RowsStep(cells, i, k);
      if k != c {
        assert k in rows && rows'[k] == rows[k];
        assert RowsOf(cells[..i], k) + {} == RowsOf(cells[..i], k);
      }
    }
  }

  /** A value beyond the cap means the whole column is beyond the cap. */
  lemma BeyondCap(rows: map<Cell, set<nat>>, cells: seq<Cell>, i: nat)
    requires i < |cells| && IndexedUpTo(rows, cells, i) && cells[i] != Null
    ensures |rows| <= |ValuesOf(cells)|
    ensures cells[i] !in rows ==> |rows| < |ValuesOf(cells)|
  {
    hide RowsOf, ValuesOf;
    ValuesStep(cells, i);
    var v := ValuesOf(cells[..i]);
    assert |rows| == |rows.Keys|;
    if cells[i] !in rows {
      assert |v + {cells[i]}| == |v| + 1;
    }
  }

  /** BuildInvertedInts and BuildInvertedBytes: gives up, with no index, exactly
      when the column has more distinct values than the cap. */
  method BuildInverted(kind: Kind, cells: seq<Cell>) returns (r: Option<Inverted>)
    ensures r.None? <==> |ValuesOf(cells)| > MAX_CARDINALITY
    ensures r.Some? ==> Indexes(r.value, kind, cells)
  {
    hide RowsOf, ValuesOf, IndexedUpTo;
    var rows: map<Cell, set<nat>> := map[];
    NothingYet(cells);
    var i := 0;
    while i < |cells|
      invariant 0 <= i <= |cells|
      invariant IndexedUpTo(rows, cells, i) && |rows| <= MAX_CARDINALITY
    {
      var c := cells[i];
      if c == Null {
        SkipNull(rows, cells, i);
      } else {
        BeyondCap(rows, cells, i);
        ghost var was := rows;
        if c !in rows {
          if |rows| >= MAX_CARDINALITY {
            return None;
          }
          rows := rows[c := {}];
        }
        ghost var prev := rows[c];
        rows := rows[c := rows[c] + {i}];
        assert rows == was[c := prev + {i}];
        AddRow(was, cells, i, prev, rows);
      }
      i := i + 1;
    }
    Finished(rows, cells);
    return Some(Inverted(kind.Code(), rows));
  }

  lemma NothingYet(cells: seq<Cell>)
    ensures IndexedUpTo(map[], cells, 0)
  {
  }

  lemma Finished(rows: map<Cell, set<nat>>, cells: seq<Cell>)
    requires IndexedUpTo(rows, cells, |cells|)
    ensures rows.Keys == ValuesOf(cells) && |rows| == |ValuesOf(cells)|
    ensures forall c :: c in rows ==> rows[c] == RowsOf(cells, c)
  {
    assert cells[..|cells|] == cells;
    assert |rows| == |rows.Keys|;
  }

  /** LookupInt and LookupBytes: nothing for a key of the other domain. */
  function Lookup(iv: Inverted, key: Cell): Option<set<nat>> {
    if key in iv.rows && (iv.kind == 0 <==> key.Int?) then Some(iv.rows[key]) else None
  }

  /** Looking a value up answers exactly its rows; nothing means no row. */
  lemma LookupIsExact(iv: Inverted, kind: Kind, cells: seq<Cell>, key: Cell)
    requires Indexes(iv, kind, cells) && key != Null && CellOk(kind, key)
    ensures match Lookup(iv, key)
            case Some(s) => s == RowsOf(cells, key)
            case None => RowsOf(cells, key) == {}
  {
    ValueHasRows(cells, key);
  }

  lemma ValueHasRows(cells: seq<Cell>, key: Cell)
    requires key != Null
    ensures key in ValuesOf(cells) <==> RowsOf(cells, key) != {}
  {
    if RowsOf(cells, key) != {} {
      var i :| i in RowsOf(cells, key);
    }
    if key in ValuesOf(cells) {
      var i :| 0 <= i < |cells| && cells[i] == key;
      assert i in RowsOf(cells, key);
    }
  }

  // ----- serialisation -----------------------------------------------------------------

  predicate CellLess(a: Cell, b: Cell) {
    match (a, b)
    case (Int(x), Int(y)) => x < y
    case (Blob(x), Blob(y)) => BytesLess(x, y)
    case (Null, Null) => false
    case (Null, _) => true
    case (_, Null) => false
    case (Int(_), Blob(_)) => true
    case (Blob(_), Int(_)) => false
  }

  lemma CellOrder()
    ensures StrictTotal<Cell>(CellLess)
  {
    hide BytesLess;
    BytesOrder();
  }

  datatype Entry = Entry(key: Cell, rows: set<nat>)

  function KeyBytes(key: Cell, tail: bytes): bytes {
    match key
    case Int(v) => Uvarint(v) + tail
    case Blob(b) => NameBytes(b, tail)
    case Null => tail
  }

  function WriteEntry(p: Platform): Writer<Entry> {
    (j: nat, e: Entry, tail: bytes) => KeyBytes(e.key, NameBytes(p.marshal(e.rows), tail))
  }

  function EntriesFor(keys: seq<Cell>, rows: map<Cell, set<nat>>): (es: seq<Entry>)
    requires forall i :: 0 <= i < |keys| ==> keys[i] in rows
    ensures |es| == |keys|
  {
    seq(|keys|, i requires 0 <= i < |keys| => Entry(keys[i], rows[keys[i]]))
  }

  /** An index's entries in ascending key order. */
  ghost predicate EntriesOf(es: seq<Entry>, iv: Inverted) {
    exists keys: seq<Cell> ::
      && Ascending(CellLess, keys)
      && Elements(keys) == iv.rows.Keys
      && (forall i :: 0 <= i < |keys| ==> keys[i] in iv.rows)
      && es == EntriesFor(keys, iv.rows)
  }

  /** Serialised bytes: kind, count, entries. */
  function EntriesBytes(p: Platform, kind: byte, es: seq<Entry>, tail: bytes): bytes {
    [kind] + (Uvarint(|es|) + WriteMany(WriteEntry(p), es, 0, tail))
  }

  ghost predicate IsInvertedBytes(p: Platform, iv: Inverted, out: bytes, tail: bytes) {
    exists es :: EntriesOf(es, iv) && out == EntriesBytes(p, iv.kind, es, tail)
  }

  function ReadKey(kind: byte, c0: Cur): Result<(Cell, Cur)> {
    if kind == 0 then
      var (v, c1) := TakeUvarint(c0);
      Ok((Int(v), c1))
    else
      var (b, c1) :- ReadName(c0, MAX_BYTES_VALUE);
      Ok((Blob(b), c1))
  }

  function ReadEntryAs(p: Platform, kind: byte, c0: Cur): Result<(Entry, Cur)> {
    var (key, c1) :- ReadKey(kind, c0);
    var (raw, c2) :- ReadName(c1, MAX_CHUNK_STORED);
    if c2.err.Some? then Err(c2.err.value)
    else
      match p.unmarshal(raw)
      case Err(_) => Err(Corrupt)
      case Ok(rows) => Ok((Entry(key, rows), c2))
  }

  function ReadEntry(p: Platform, kind: byte): ItemReader<Entry> {
    (j: nat, c: Cur) => ReadEntryAs(p, kind, c)
  }

  /** Entries go into the map one after the other; a repeated key is overwritten. */
  function MapOf(es: seq<Entry>): map<Cell, set<nat>> {
    if es == [] then map[] else MapOf(es[..|es| - 1])[es[|es| - 1].key := es[|es| - 1].rows]
  }

  function ReadInverted(p: Platform, c0: Cur): Result<(Inverted, Cur)> {
    var (kind, c1) := TakeU8(c0);
    var (count, c2) := TakeUvarint(c1);
    if count > MAX_CARDINALITY then Err(LimitExceeded)
    else if c2.err.Some? then Err(c2.err.value)
    else if kind > 1 then Err(Corrupt)
    else
      var (es, c3) :- ReadMany(ReadEntry(p, kind), c2, 0, count);
      Ok((Inverted(kind, MapOf(es)), c3))
  }

  lemma {:induction false} MapOfEntries(keys: seq<Cell>, rows: map<Cell, set<nat>>)
    requires forall i :: 0 <= i < |keys| ==> keys[i] in rows
    ensures MapOf(EntriesFor(keys, rows)).Keys == Elements(keys)
    ensures forall c :: c in MapOf(EntriesFor(keys, rows)) ==> MapOf(EntriesFor(keys, rows))[c] == rows[c]
    decreases |keys|
  {
    if keys != [] {
      var last := |keys| - 1;
      var es := EntriesFor(keys, rows);
      assert es[..last] == EntriesFor(keys[..last], rows);
      MapOfEntries(keys[..last], rows);
      assert keys == keys[..last] + [keys[last]];
      assert Elements(keys) == Elements(keys[..last]) + {keys[last]};
    }
  }

  /** What every index built from a column of at most MAX_SEGMENT_ROWS rows is. */
  ghost predicate InvertedStorable(iv: Inverted) {
    && iv.kind <= 1 && |iv.rows| <= MAX_CARDINALITY
    && forall c :: c in iv.rows ==>
         c != Null && (iv.kind == 0 <==> c.Int?) && (c.Blob? ==> |c.b| < TWO64) && Rows(iv.rows[c])
  }

  /** No key is longer than the reader accepts. */
  ghost predicate KeysFit(iv: Inverted) {
    forall c :: c in iv.rows && c.Blob? ==> |c.b| <= MAX_BYTES_VALUE
  }

  ghost predicate InvertedFits(iv: Inverted) {
    InvertedStorable(iv) && KeysFit(iv)
  }

  lemma KeyReads(kind: byte, key: Cell, tail: bytes)
    requires key != Null && (kind == 0 <==> key.Int?) && (key.Blob? ==> |key.b| <= MAX_BYTES_VALUE)
    ensures ReadKey(kind, Start(KeyBytes(key, tail))) == Ok((key, Start(tail)))
  {
    hide TakeUvarint, Uvarint, NameBytes, ReadName;
    match key
    case Int(v) => TakeVarint(v, tail);
    case Blob(b) => NameReads(b, MAX_BYTES_VALUE, tail);
  }

  lemma EntryReads(p: Platform, iv: Inverted, j: nat, e: Entry)
    requires Lossless(p) && InvertedStorable(iv) && e.key in iv.rows && e.rows == iv.rows[e.key]
    requires e.key.Blob? ==> |e.key.b| <= MAX_BYTES_VALUE
    ensures ReadsBack(WriteEntry(p), ReadEntry(p, iv.kind), j, e)
  {
    hide KeyBytes, ReadKey, NameBytes, ReadName;
    forall t: bytes
      ensures ReadEntry(p, iv.kind)(j, Start(WriteEntry(p)(j, e, t))) == Ok((e, Start(t)))
    {
      assert Rows(e.rows);
      var raw := p.marshal(e.rows);
      KeyReads(iv.kind, e.key, NameBytes(raw, t));
      NameReads(raw, MAX_CHUNK_STORED, t);
    }
  }

  /** Reading a serialised index restores it. */
  lemma InvertedRoundTrip(p: Platform, iv: Inverted, out: bytes, tail: bytes)
    requires Lossless(p) && InvertedFits(iv) && IsInvertedBytes(p, iv, out, tail)
    ensures ReadInverted(p, Start(out)) == Ok((iv, Start(tail)))
  {
    hide TakeU8, TakeUvarint, Uvarint, ReadMany, WriteMany, WriteEntry, ReadEntry, MapOf, CellLess, Lossless, Ascending,
         Rows;
    var es :| EntriesOf(es, iv) && out == EntriesBytes(p, iv.kind, es, tail);
    var keys: seq<Cell> :|
      && Ascending(CellLess, keys) && Elements(keys) == iv.rows.Keys
      && (forall i :: 0 <= i < |keys| ==> keys[i] in iv.rows) && es == EntriesFor(keys, iv.rows);
    KeysCount(keys, iv.rows);
    var t2 := WriteMany(WriteEntry(p), es, 0, tail);
    TakeByte(iv.kind, Uvarint(|es|) + t2);
    TakeVarint(|es|, t2);
    forall j: nat | j < |es|
      ensures ReadsBack(WriteEntry(p), ReadEntry(p, iv.kind), j, es[j])
    {
      EntryReads(p, iv, j, es[j]);
    }
    ManyReadBack(WriteEntry(p), ReadEntry(p, iv.kind), es, 0, tail);
    assert es[0..] == es;
    MapOfEntries(keys, iv.rows);
    assert MapOf(es) == iv.rows;
  }

  lemma LongKeyFails(p: Platform, iv: Inverted, j: nat, e: Entry)
    requires InvertedStorable(iv) && e.key in iv.rows && e.key.Blob? && |e.key.b| > MAX_BYTES_VALUE
    ensures FailsOn(WriteEntry(p), ReadEntry(p, iv.kind), j, e, LimitExceeded)
  {
    hide NameBytes, ReadName;
    forall t: bytes
      ensures ReadEntry(p, iv.kind)(j, Start(WriteEntry(p)(j, e, t))) == Err(LimitExceeded)
    {
      NameTooLong(e.key.b, MAX_BYTES_VALUE, NameBytes(p.marshal(e.rows), t));
    }
  }

  /** A serialised index reads back if and only if its keys fit; one over-long key
      makes the whole index unreadable. */
  lemma InvertedReads(p: Platform, iv: Inverted, out: bytes, tail: bytes)
    requires Lossless(p) && InvertedStorable(iv) && IsInvertedBytes(p, iv, out, tail)
    ensures ReadInverted(p, Start(out)) == if KeysFit(iv) then Ok((iv, Start(tail))) else Err(LimitExceeded)
  {
    hide TakeU8, TakeUvarint, Uvarint, ReadMany, WriteMany, WriteEntry, ReadEntry, MapOf, CellLess, Lossless, Ascending,
         Rows, InvertedStorable;
    if KeysFit(iv) {
      InvertedRoundTrip(p, iv, out, tail);
    } else {
      var es :| EntriesOf(es, iv) && out == EntriesBytes(p, iv.kind, es, tail);
      StorableSizes(iv);
      var k := EntriesReadOrFail(p, iv, es);
      var t2 := WriteMany(WriteEntry(p), es, 0, tail);
      TakeByte(iv.kind, Uvarint(|es|) + t2);
      TakeVarint(|es|, t2);
      ManyFail(WriteEntry(p), ReadEntry(p, iv.kind), es, 0, tail, k, LimitExceeded);
    }
  }

  lemma StorableSizes(iv: Inverted)
    requires InvertedStorable(iv)
    ensures iv.kind <= 1 && |iv.rows| <= MAX_CARDINALITY
  {
  }

  lemma EntriesReadOrFail(p: Platform, iv: Inverted, es: seq<Entry>) returns (k: nat)
    requires Lossless(p) && InvertedStorable(iv) && !KeysFit(iv) && EntriesOf(es, iv)
    ensures |es| == |iv.rows| && k < |es| && FailsOn(WriteEntry(p), ReadEntry(p, iv.kind), k, es[k], LimitExceeded)
    ensures forall j: nat :: j < |es| ==>
              || ReadsBack(WriteEntry(p), ReadEntry(p, iv.kind), j, es[j])
              || FailsOn(WriteEntry(p), ReadEntry(p, iv.kind), j, es[j], LimitExceeded)
  {
    hide CellLess, Lossless, Rows, WriteEntry, ReadEntry, ReadsBack, FailsOn, Ascending;
    var keys: seq<Cell> :|
      && Ascending(CellLess, keys) && Elements(keys) == iv.rows.Keys
      && (forall i :: 0 <= i < |keys| ==> keys[i] in iv.rows) && es == EntriesFor(keys, iv.rows);
    KeysCount(keys, iv.rows);
    forall j: nat | j < |es|
      ensures !LongKey(es[j].key) ==> ReadsBack(WriteEntry(p), ReadEntry(p, iv.kind), j, es[j])
      ensures LongKey(es[j].key) ==> FailsOn(WriteEntry(p), ReadEntry(p, iv.kind), j, es[j], LimitExceeded)
    {
      if LongKey(es[j].key) {
        LongKeyFails(p, iv, j, es[j]);
      } else {
        EntryReads(p, iv, j, es[j]);
      }
    }
    var c :| c in iv.rows && LongKey(c);
    assert c in Elements(keys);
    k :| 0 <= k < |keys| && keys[k] == c;
  }

  predicate LongKey(c: Cell) {
    c.Blob? && |c.b| > MAX_BYTES_VALUE
  }

  lemma KeysCount(keys: seq<Cell>, rows: map<Cell, set<nat>>)
    requires Ascending(CellLess, keys) && Elements(keys) == rows.Keys
    ensures |keys| == |rows|
  {
    CellOrder();
    AscendingDistinct<Cell>(CellLess, keys);
    DistinctCount(keys);
    assert |rows| == |rows.Keys|;
  }

  // ----- the loops ----------------------------------------------------------------------

  lemma EntryAppends(p: Platform, j: nat, e: Entry)
    ensures Appends(WriteEntry(p), j, e)
  {
    hide Uvarint, NameBytes;
    forall t: bytes
      ensures WriteEntry(p)(j, e, t) == WriteEntry(p)(j, e, []) + t
    {
      var raw := p.marshal(e.rows);
      NameAppends(raw, [], t);
      assert [] + t == t;
      match e.key
      case Int(v) => assert Uvarint(v) + (NameBytes(raw, []) + t) == Uvarint(v) + NameBytes(raw, []) + t;
      case Blob(b) => NameAppends(b, NameBytes(raw, []), t);
      case Null =>
    }
  }

  /** The keys of the map, in whatever order it yields them. */
  method CollectKeys(rows: map<Cell, set<nat>>) returns (keys: seq<Cell>)
    ensures Elements(keys) == rows.Keys
  {
    keys := [];
    var left := rows.Keys;
    while left != {}
      invariant left <= rows.Keys && Elements(keys) == rows.Keys - left
      decreases left
    {
      var k :| k in left;
      assert Elements(keys + [k]) == Elements(keys) + {k};
      keys := keys + [k];
      left := left - {k};
    }
  }

  method SortedKeys(rows: map<Cell, set<nat>>) returns (keys: seq<Cell>)
    ensures Ascending(CellLess, keys) && Elements(keys) == rows.Keys
    ensures forall i :: 0 <= i < |keys| ==> keys[i] in rows
  {
    hide CellLess, SortedDistinct;
    var ks: seq<Cell> := CollectKeys(rows);
    CellOrder();
    SortedDistinctIs<Cell>(CellLess, ks);
    keys := SortAscending<Cell>(CellLess, ks);
    assert forall i :: 0 <= i < |keys| ==> keys[i] in Elements(keys);
  }

  method AppendInverted(dst: bytes, p: Platform, iv: Inverted) returns (out: bytes, ghost es: seq<Entry>)
    requires forall c :: c in iv.rows ==> c != Null && (iv.kind == 0 <==> c.Int?)
    ensures EntriesOf(es, iv) && out == dst + EntriesBytes(p, iv.kind, es, [])
  {
    hide Uvarint, WriteMany, WriteEntry, CellLess, Ascending;
    var keys := SortedKeys(iv.rows);
    es := EntriesFor(keys, iv.rows);
    out := dst + [iv.kind];
    out := out + Uvarint(|keys|);
    ghost var head := out;
    ghost var w := WriteEntry(p);
    var i := 0;
    while i < |keys|
      invariant 0 <= i <= |keys|
      invariant out + WriteMany(w, es, i, []) == head + WriteMany(w, es, 0, [])
    {
      var k := keys[i];
      EntryAppends(p, i, es[i]);
      WriteStep(w, es, i, out);
      ghost var before := out;
      if iv.kind == 0 {
        out := out + Uvarint(k.v);
      } else {
        out := out + Uvarint(|k.b|);
        out := out + k.b;
      }
      var raw := p.marshal(iv.rows[k]);
      out := out + Uvarint(|raw|);
      out := out + raw;
      EntryIs(p, i, es[i], before, out);
      i := i + 1;
    }
    NoMore(w, es);
    assert out == head + WriteMany(w, es, 0, []);
  }

  lemma NoMore(w: Writer<Entry>, es: seq<Entry>)
    ensures WriteMany(w, es, |es|, []) == []
  {
  }

  lemma EntryIs(p: Platform, j: nat, e: Entry, before: bytes, out: bytes)
    requires e.key != Null
    requires var raw := p.marshal(e.rows);
             out == (match e.key
                     case Int(v) => before + Uvarint(v)
                     case Blob(b) => before + Uvarint(|b|) + b
                     case Null => before) + Uvarint(|raw|) + raw
    ensures out == before + WriteEntry(p)(j, e, [])
  {
    hide Uvarint;
    var raw := p.marshal(e.rows);
    var name := NameBytes(raw, []);
    assert WriteEntry(p)(j, e, []) == KeyBytes(e.key, name);
    match e.key
    case Int(v) =>
      assert WriteEntry(p)(j, e, []) == Uvarint(v) + name;
      assert before + Uvarint(v) + Uvarint(|raw|) + raw == before + (Uvarint(v) + name);
    case Blob(b) =>
      assert WriteEntry(p)(j, e, []) == Uvarint(|b|) + (b + name);
      assert before + Uvarint(|b|) + b + Uvarint(|raw|) + raw == before + (Uvarint(|b|) + (b + name));
  }

  method ReadInvertedFrom(p: Platform, c: Cursor) returns (r: Result<Inverted>)
    requires c.Valid()
    modifies c
    ensures c.Valid()
    ensures match ReadInverted(p, old(c.State()))
            case Ok(q) => r == Ok(q.0) && c.State() == q.1
            case Err(e) => r == Err(e)
  {
    hide Take, TakeU8, TakeUvarint, ReadMany, ManyProgress, MapOf;
    var kind := c.U8();
    var count := c.ReadUvarint();
    if CheckCount(count, MAX_CARDINALITY).Fail? {
      return Err(LimitExceeded);
    }
    if c.err.Some? {
      return Err(c.err.value);
    }
    if kind > 1 {
      return Err(Corrupt);
    }
    ghost var c2, read := c.State(), ReadEntry(p, kind);
    var rows: map<Cell, set<nat>> := map[];
    ghost var es: seq<Entry> := [];
    ManyStart(read, c2, count);
    EmptyMap();
    var i := 0;
    while i < count
      invariant 0 <= i <= count && |es| == i && c.Valid() && rows == MapOf(es)
      invariant ManyProgress(read, c2, count, es, c.State())
    {
      ManyStep(read, c2, count, es, c.State());
      var key: Cell := Null;
      if kind == 0 {
        var v := c.ReadUvarint();
        key := Int(v);
      } else {
        var l := c.ReadUvarint();
        if CheckCount(l, MAX_BYTES_VALUE).Fail? {
          return Err(LimitExceeded);
        }
        var b := c.Bytes(l);
        key := Blob(b);
      }
      var bmLen := c.ReadUvarint();
      if CheckCount(bmLen, MAX_CHUNK_STORED).Fail? {
        return Err(LimitExceeded);
      }
      var raw := c.Bytes(bmLen);
      if c.err.Some? {
        return Err(c.err.value);
      }
      var bm := p.unmarshal(raw);
      if bm.Err? {
        return Err(Corrupt);
      }
      MapStep(es, Entry(key, bm.value));
      rows := rows[key := bm.value];
      es := es + [Entry(key, bm.value)];
      i := i + 1;
    }
    ManyEnd(read, c2, count, es, c.State());
    return Ok(Inverted(kind, rows));
  }

  lemma EmptyMap()
    ensures MapOf([]) == map[]
  {
  }

  lemma MapStep(es: seq<Entry>, e: Entry)
    ensures MapOf(es + [e]) == MapOf(es)[e.key := e.rows]
  {
    assert (es + [e])[..|es|] == es;
  }
}
