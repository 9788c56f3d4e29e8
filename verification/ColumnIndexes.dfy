/** The per-column index blob: Bloom filter and optional inverted index
    (internal/index/index.go). */
module ColumnIndexes {
  import opened Bits
  import opened Wrappers
  import opened Limits
  import opened Libraries
  import opened Cursors
  import opened Column
  import opened BloomFilter
  import opened InvertedIndex
  import Schemas

  datatype ColumnIndex = ColumnIndex(bloom: Option<Bloom>, inverted: Option<Inverted>)

  /** Distinct values are counted up to this many; past it every row is added. */
  const BLOOM_PROBE_CAP: nat := 0x10_0000

  /** The digest of a key: integers as eight little-endian bytes. */
  function HashOf(p: Platform, c: Cell): u64 {
    match c
    case Int(v) => p.xxh64(LEBytes(v, 8))
    case Blob(b) => p.xxh64(b)
    case Null => 0
  }

  ghost function Digests(p: Platform, vals: set<Cell>): iset<u64> {
    iset c | c in vals :: HashOf(p, c)
  }

  /** What an index must guarantee for its column: every present value may be
      contained, and the inverted index, if any, is exact. */
  ghost predicate SoundIndex(p: Platform, ci: ColumnIndex, kind: Kind, cells: seq<Cell>) {
    && (ci.bloom.Some? ==> forall i :: 0 <= i < |cells| && cells[i] != Null ==>
         MayContain(ci.bloom.value, HashOf(p, cells[i])))
    && (ci.inverted.Some? ==> Indexes(ci.inverted.value, kind, cells))
  }

  /** The distinct present values, up to the cap. */
  method CountDistinct(cells: seq<Cell>) returns (distinct: set<Cell>, capped: bool)
    ensures distinct <= ValuesOf(cells)
    ensures if capped then |distinct| >= BLOOM_PROBE_CAP else distinct == ValuesOf(cells)
  {
    hide ValuesOf;
    distinct := {};
    capped := false;
    NoValues(cells);
    var i := 0;
    while i < |cells|
      invariant 0 <= i <= |cells|
      invariant if capped then |distinct| >= BLOOM_PROBE_CAP else distinct == ValuesOf(cells[..i])
      invariant distinct <= ValuesOf(cells[..i])
    {
      ValuesStep(cells, i);
      if cells[i] != Null {
        if !capped {
          distinct := distinct + {cells[i]};
          if |distinct| >= BLOOM_PROBE_CAP {
            capped := true;
          }
        }
      }
      i := i + 1;
    }
    assert cells[..i] == cells;
  }

  /** The capped path: every present row is added. */
  method AddEveryRow(p: Platform, bl: BloomFilter.Builder, cells: seq<Cell>)
    requires bl.Valid() && Holds(bl.Value(), iset{})
    modifies bl.bits
    ensures Holds(bl.Value(), Digests(p, ValuesOf(cells)))
  {
    hide ValuesOf, Holds;
    NoValues(cells);
    NoDigests(p);
    ghost var added: set<Cell> := {};
    var i := 0;
    while i < |cells|
      invariant 0 <= i <= |cells| && added == ValuesOf(cells[..i])
      invariant Holds(bl.Value(), Digests(p, added))
    {
      ValuesStep(cells, i);
      if cells[i] != Null {
        OneMoreDigest(p, added, cells[i]);
        bl.AddHash(HashOf(p, cells[i]), Digests(p, added));
        added := added + {cells[i]};
      }
      i := i + 1;
    }
    assert cells[..i] == cells;
  }

  /** The uncapped path: each distinct value is added once, in any order. */
  method AddEachValue(p: Platform, bl: BloomFilter.Builder, distinct: set<Cell>)
    requires bl.Valid() && Holds(bl.Value(), iset{})
    modifies bl.bits
    ensures Holds(bl.Value(), Digests(p, distinct))
  {
    hide Holds;
    NoDigests(p);
    ghost var added: set<Cell> := {};
    var left := distinct;
    while left != {}
      invariant left <= distinct && added == distinct - left
      invariant Holds(bl.Value(), Digests(p, added))
      decreases left
    {
      var v :| v in left;
      OneMoreDigest(p, added, v);
      bl.AddHash(HashOf(p, v), Digests(p, added));
      added := added + {v};
      left := left - {v};
    }
    assert added == distinct;
  }

  /** BuildIntColumn and BuildBytesColumn. The filter holds exactly the present
      values, on the capped path and on the uncapped one; the inverted index is
      there if and only if it was asked for and the cardinality cap allows it. */
  method BuildColumn(p: Platform, kind: Kind, cells: seq<Cell>, withInverted: bool) returns (ci: ColumnIndex)
    requires Lossless(p)
    ensures SoundIndex(p, ci, kind, cells)
    ensures ci.bloom.Some? && (|cells| <= MAX_SEGMENT_ROWS ==> BloomFits(ci.bloom.value))
    ensures Holds(ci.bloom.value, Digests(p, ValuesOf(cells)))
    ensures ci.inverted.Some? <==> withInverted && |ValuesOf(cells)| <= MAX_CARDINALITY
  {
    hide Lossless, ValuesOf, Holds, Indexes, MayContain, Digests;
    var distinct, capped := CountDistinct(cells);
    var n := |distinct|;
    if capped {
      n := |cells|;
    }
    Sizing(p, cells, distinct, n);
    var (words, k) := p.bloomSize(n);
    var bl := new BloomFilter.Builder(words, k);
    if capped {
      AddEveryRow(p, bl, cells);
    } else {
      AddEachValue(p, bl, distinct);
    }
    var filter := Bloom(bl.bits[..], bl.k);
    assert filter == bl.Value();
    AllMayBeContained(p, filter, cells);
    ci := ColumnIndex(Some(filter), None);
    if withInverted {
      var iv := BuildInverted(kind, cells);
      ci := ColumnIndex(Some(filter), iv);
    }
  }

  lemma NoValues(cells: seq<Cell>)
    ensures ValuesOf(cells[..0]) == {}
  {
  }

  lemma NoDigests(p: Platform)
    ensures Digests(p, {}) == iset{}
  {
  }

  lemma OneMoreDigest(p: Platform, added: set<Cell>, c: Cell)
    ensures Digests(p, added + {c}) == Digests(p, added) + iset{HashOf(p, c)}
  {
  }

  lemma Sizing(p: Platform, cells: seq<Cell>, distinct: set<Cell>, n: nat)
    requires Lossless(p) && distinct <= ValuesOf(cells)
    requires n == |distinct| || n == |cells|
    ensures 1 <= p.bloomSize(n).0 && 1 <= p.bloomSize(n).1 <= 32
    ensures |cells| <= MAX_SEGMENT_ROWS ==> p.bloomSize(n).0 <= MAX_BLOOM_WORDS
  {
    SubsetSize(distinct, ValuesOf(cells));
    FewValues(cells);
  }

  lemma {:induction false} FewValues(cells: seq<Cell>)
    ensures |ValuesOf(cells)| <= |cells|
  {
    if cells == [] {
      assert ValuesOf(cells) == {};
    } else {
      var last := |cells| - 1;
      FewValues(cells[..last]);
      ValuesStep(cells, last);
      assert cells[..last + 1] == cells;
    }
  }

  lemma AllMayBeContained(p: Platform, bl: Bloom, cells: seq<Cell>)
    requires bl.words != [] && Holds(bl, Digests(p, ValuesOf(cells)))
    ensures forall i :: 0 <= i < |cells| && cells[i] != Null ==> MayContain(bl, HashOf(p, cells[i]))
  {
    hide MayContain, Holds;
    forall i | 0 <= i < |cells| && cells[i] != Null
      ensures MayContain(bl, HashOf(p, cells[i]))
    {
      assert cells[i] in ValuesOf(cells);
      NoFalseNegatives(bl, Digests(p, ValuesOf(cells)), HashOf(p, cells[i]));
    }
  }

  // ----- the blob ---------------------------------------------------------------------------

  function FlagsOf(ci: ColumnIndex): byte {
    (if ci.bloom.Some? then 1 else 0) + if ci.inverted.Some? then 2 else 0
  }

  ghost predicate InvertedPart(p: Platform, ci: ColumnIndex, inv: bytes) {
    if ci.inverted.Some? then IsInvertedBytes(p, ci.inverted.value, inv, []) else inv == []
  }

  /** The blob: flags, then whichever parts there are. */
  ghost predicate IsIndexBytes(p: Platform, ci: ColumnIndex, out: bytes) {
    exists inv: bytes ::
      && InvertedPart(p, ci, inv)
      && out == [FlagsOf(ci)] + if ci.bloom.Some? then BloomBytes(ci.bloom.value, inv) else inv
  }

  function ReadBloomPart(c: Cur, flags: byte): (r: Result<(Option<Bloom>, Cur)>)
    ensures r.Ok? && r.value.0.Some? ==> r.value.0.value.words != []
  {
    if And(flags, 1) == 0 then Ok((None, c))
    else
      var (bl, c') :- ReadBloom(c);
      Ok((Some(bl), c'))
  }

  function ReadInvertedPart(p: Platform, c: Cur, flags: byte): Result<(Option<Inverted>, Cur)> {
    if And(flags, 2) == 0 then Ok((None, c))
    else
      var (iv, c') :- ReadInverted(p, c);
      Ok((Some(iv), c'))
  }

  /** A decoded filter is never empty. */
  function IndexDecoded(p: Platform, raw: bytes): (r: Result<ColumnIndex>)
    ensures r.Ok? && r.value.bloom.Some? ==> r.value.bloom.value.words != []
  {
    if raw == [] then Ok(ColumnIndex(None, None))
    else
      var (flags, c1) := TakeU8(Start(raw));
      var (bl, c2) :- ReadBloomPart(c1, flags);
      var (iv, _) :- ReadInvertedPart(p, c2, flags);
      Ok(ColumnIndex(bl, iv))
  }

  ghost predicate IndexStorable(ci: ColumnIndex) {
    && (ci.bloom.Some? ==> BloomFits(ci.bloom.value))
    && (ci.inverted.Some? ==> InvertedStorable(ci.inverted.value))
  }

  ghost predicate IndexFits(ci: ColumnIndex) {
    && (ci.bloom.Some? ==> BloomFits(ci.bloom.value))
    && (ci.inverted.Some? ==> InvertedFits(ci.inverted.value))
  }

  lemma FlagBits(ci: ColumnIndex)
    ensures And(FlagsOf(ci), 1) != 0 <==> ci.bloom.Some?
    ensures And(FlagsOf(ci), 2) != 0 <==> ci.inverted.Some?
  {
    hide And;
    Schemas.TwoFlags();
  }

  /** Reading an index blob restores the index. */
  lemma IndexRoundTrip(p: Platform, ci: ColumnIndex, out: bytes)
    requires Lossless(p) && IndexFits(ci) && IsIndexBytes(p, ci, out)
    ensures IndexDecoded(p, out) == Ok(ci)
  {
    hide TakeU8, ReadBloom, ReadInverted, BloomBytes, IsInvertedBytes, Lossless, And, FlagsOf, BloomFits, InvertedFits;
    var inv: bytes :|
      && InvertedPart(p, ci, inv)
      && out == [FlagsOf(ci)] + if ci.bloom.Some? then BloomBytes(ci.bloom.value, inv) else inv;
    FlagBits(ci);
    TakeByte(FlagsOf(ci), if ci.bloom.Some? then BloomBytes(ci.bloom.value, inv) else inv);
    if ci.bloom.Some? {
      BloomRoundTrip(ci.bloom.value, inv);
    }
    if ci.inverted.Some? {
      InvertedRoundTrip(p, ci.inverted.value, inv, []);
    }
  }

  /** A storable index reads back if and only if its keys fit, else it is refused. */
  lemma IndexReads(p: Platform, ci: ColumnIndex, out: bytes)
    requires Lossless(p) && IndexStorable(ci) && IsIndexBytes(p, ci, out)
    ensures IndexDecoded(p, out) == if IndexFits(ci) then Ok(ci) else Err(LimitExceeded)
  {
    hide TakeU8, ReadBloom, ReadInverted, BloomBytes, IsInvertedBytes, Lossless, And, FlagsOf, BloomFits,
         InvertedStorable, KeysFit;
    if IndexFits(ci) {
      IndexRoundTrip(p, ci, out);
    } else {
      var inv: bytes :|
        && InvertedPart(p, ci, inv)
        && out == [FlagsOf(ci)] + if ci.bloom.Some? then BloomBytes(ci.bloom.value, inv) else inv;
      FlagBits(ci);
      TakeByte(FlagsOf(ci), if ci.bloom.Some? then BloomBytes(ci.bloom.value, inv) else inv);
      if ci.bloom.Some? {
        BloomRoundTrip(ci.bloom.value, inv);
      }
      InvertedReads(p, ci.inverted.value, inv, []);
    }
  }

  method AppendIndex(p: Platform, ci: ColumnIndex) returns (out: bytes)
    requires ci.inverted.Some? ==>
               forall c :: c in ci.inverted.value.rows ==> c != Null && (ci.inverted.value.kind == 0 <==> c.Int?)
    ensures IsIndexBytes(p, ci, out)
  {
    hide BloomBytes, EntriesBytes, EntriesOf;
    var flags: byte := 0;
    assert Or(0, 1) == 1 && Or(0, 2) == 2 && Or(1, 2) == 3;
    if ci.bloom.Some? {
      flags := Or(flags, 1);
    }
    if ci.inverted.Some? {
      flags := Or(flags, 2);
    }
    out := [flags];
    if ci.bloom.Some? {
      out := AppendBloom(out, ci.bloom.value);
    }
    ghost var head := out;
    ghost var inv: bytes := [];
    if ci.inverted.Some? {
      ghost var es;
      out, es := AppendInverted(out, p, ci.inverted.value);
      inv := EntriesBytes(p, ci.inverted.value.kind, es, []);
    }
    assert out == head + inv;
    if ci.bloom.Some? {
      BloomAppends(ci.bloom.value, inv);
      assert out == [flags] + BloomBytes(ci.bloom.value, inv);
    }
    assert flags == FlagsOf(ci);
    assert InvertedPart(p, ci, inv);
  }

  method ReadColumnIndex(p: Platform, raw: bytes) returns (r: Result<ColumnIndex>)
    ensures r == IndexDecoded(p, raw)
  {
    hide TakeU8, ReadBloom, ReadInverted, And;
    if |raw| == 0 {
      return Ok(ColumnIndex(None, None));
    }
    FirstByteThere(raw);
    var c := new Cursor(raw);
    var flags := c.U8();
    if c.err.Some? {
      return Err(Truncated);
    }
    var ci := ColumnIndex(None, None);
    if And(flags, 1) != 0 {
      var bl := ReadBloomFrom(c);
      if bl.Err? {
        return Err(bl.error);
      }
      ci := ci.(bloom := Some(bl.value));
    }
    if And(flags, 2) != 0 {
      var iv := ReadInvertedFrom(p, c);
      if iv.Err? {
        return Err(iv.error);
      }
      ci := ci.(inverted := Some(iv.value));
    }
    return Ok(ci);
  }

  lemma FirstByteThere(raw: bytes)
    requires raw != []
    ensures TakeU8(Start(raw)).1.err.None?
  {
  }

  /** An index built for a column of at most MAX_SEGMENT_ROWS rows is storable,
      and can be read back as well if the column's values are not too long. */
  lemma BuiltIndexFits(p: Platform, ci: ColumnIndex, kind: Kind, cells: seq<Cell>)
    requires SoundIndex(p, ci, kind, cells) && ColumnOk(kind, cells) && |cells| <= MAX_SEGMENT_ROWS
    requires ci.bloom.Some? ==> BloomFits(ci.bloom.value)
    requires ci.inverted.Some? ==> |ci.inverted.value.rows| <= MAX_CARDINALITY
    requires forall i :: 0 <= i < |cells| && cells[i].Blob? ==> |cells[i].b| < TWO64
    ensures IndexStorable(ci)
    ensures (forall i :: 0 <= i < |cells| && cells[i].Blob? ==> |cells[i].b| <= MAX_BYTES_VALUE) ==> IndexFits(ci)
  {
    hide MayContain, BloomFits;
    if ci.inverted.Some? {
      var iv := ci.inverted.value;
      forall c | c in iv.rows
        ensures c != Null && (iv.kind == 0 <==> c.Int?) && Rows(iv.rows[c])
        ensures exists i :: 0 <= i < |cells| && cells[i] == c
      {
        assert c in ValuesOf(cells);
        var i :| 0 <= i < |cells| && cells[i] == c;
        assert CellOk(kind, cells[i]);
      }
    }
  }
}
