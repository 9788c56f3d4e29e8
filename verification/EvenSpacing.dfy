/** A column the writer stores and the reader refuses: evenly spaced timestamps
    under a lossless codec that only drops trailing zeros
    (internal/column/builder.go, internal/util/limits.go). */
module EvenSpacing {
  import opened Bits
  import opened Wrappers
  import opened Limits
  import opened Libraries
  import opened Varint
  import opened BitPack
  import opened Sorting
  import opened Streams
  import opened Selection
  import opened Dictionaries
  import opened IntCodecs
  import opened Column
  import IntDictionary
  import IntSelector
  import ByteCodecs
  import Chunk

  // ----- the libraries' promises can be kept --------------------------------------------------

  function Zeros(k: nat): (z: bytes)
    ensures |z| == k
  {
    seq(k, _ => 0)
  }

  /** All but the trailing zero bytes. */
  function Stripped(x: bytes): bytes {
    if x != [] && x[|x| - 1] == 0 then Stripped(x[..|x| - 1]) else x
  }

  lemma {:induction false} StrippedRestores(x: bytes)
    ensures |Stripped(x)| <= |x| && Stripped(x) + Zeros(|x| - |Stripped(x)|) == x
    decreases |x|
  {
    if x != [] && x[|x| - 1] == 0 {
      var front := x[..|x| - 1];
      StrippedRestores(front);
      var s := Stripped(front);
      assert Zeros(|x| - |s|) == Zeros(|front| - |s|) + [0];
      assert x == front + [0];
      assert s + (Zeros(|front| - |s|) + [0]) == s + Zeros(|front| - |s|) + [0];
    } else {
      assert x + Zeros(0) == x;
    }
  }

  lemma {:induction false} StripsZeros(x: bytes, k: nat)
    requires x != [] && x[|x| - 1] != 0
    ensures Stripped(x + Zeros(k)) == x
  {
    if k == 0 {
      assert x + Zeros(0) == x;
    } else {
      StripsZeros(x, k - 1);
      assert (x + Zeros(k))[..|x| + k - 1] == x + Zeros(k - 1);
    }
  }

  /** Row numbers as a bitmap over the rows of a full segment. */
  function MarshalRows(s: set<nat>): bytes {
    PresenceBytes(seq(MAX_SEGMENT_ROWS, i requires 0 <= i < MAX_SEGMENT_ROWS => i in s))
  }

  function UnmarshalRows(b: bytes): Result<set<nat>> {
    if |b| != BitmapSize(MAX_SEGMENT_ROWS) then Err(Corrupt)
    else Ok(set i: nat | i < MAX_SEGMENT_ROWS && BitAt(b, i))
  }

  lemma RowsRestore(s: set<nat>)
    requires Rows(s)
    ensures UnmarshalRows(MarshalRows(s)) == Ok(s)
  {
    hide BitAt, PresenceBytes;
    var present := seq(MAX_SEGMENT_ROWS, i requires 0 <= i < MAX_SEGMENT_ROWS => i in s);
    forall i: nat | i < MAX_SEGMENT_ROWS
      ensures BitAt(PresenceBytes(present), i) <==> i in s
    {
      PresenceBit(present, i);
    }
    assert forall i :: i in s ==> i < MAX_SEGMENT_ROWS;
    assert (set i: nat | i < MAX_SEGMENT_ROWS && BitAt(PresenceBytes(present), i)) == s;
  }

  /** Libraries with a codec that drops trailing zeros. */
  function ZeroStripping(): Platform {
    Platform(
      b => 0,
      b => 0,
      (id, x) => Stripped(x),
      (id, s, n) => if |s| > n then Err(Corrupt) else Ok(s + Zeros(n - |s|)),
      s => MarshalRows(s),
      b => UnmarshalRows(b),
      n => (1, 1),
      lit => None,
      lit => None,
      v => [],
      b => b)
  }

  /** What is assumed of the libraries can be met. */
  lemma LosslessIsPossible()
    ensures Lossless(ZeroStripping())
  {
    hide Stripped, MarshalRows, UnmarshalRows, Zeros;
    var p := ZeroStripping();
    forall id: byte, x: bytes
      ensures p.decompress(id, p.compress(id, x), |x|) == Ok(x)
    {
      StrippedRestores(x);
    }
    forall s: set<nat> | Rows(s)
      ensures p.unmarshal(p.marshal(s)) == Ok(s) && |p.marshal(s)| <= MAX_CHUNK_STORED
    {
      RowsRestore(s);
      MarshalSize(s);
    }
  }

  lemma MarshalSize(s: set<nat>)
    ensures |MarshalRows(s)| <= MAX_CHUNK_STORED
  {
    hide PresenceBytes;
  }

  // ----- evenly spaced timestamps ------------------------------------------------------------------

  /** n timestamps from t0 on, d apart. */
  ghost predicate EvenlySpaced(vals: seq<u64>, t0: u64, d: nat) {
    && vals != [] && vals[0] == t0
    && (forall i :: 0 < i < |vals| ==> vals[i] == vals[i - 1] + d)
    && forall i :: 0 <= i < |vals| ==> vals[i] <= MAX_INT
  }

  lemma {:induction false} SpacedApart(vals: seq<u64>, t0: u64, d: nat, i: nat, j: nat)
    requires EvenlySpaced(vals, t0, d) && i <= j < |vals| && d >= 64
    ensures vals[j] >= vals[i] + 64 * (j - i)
    decreases j - i
  {
    if i < j {
      SpacedApart(vals, t0, d, i, j - 1);
    }
  }

  lemma {:induction false} SpacedRuns(vals: seq<u64>, t0: u64, d: nat, k: nat)
    requires EvenlySpaced(vals, t0, d) && d >= 64 && 1 <= k <= |vals|
    ensures Runs(vals[..k]) == k
  {
    if k > 1 {
      SpacedRuns(vals, t0, d, k - 1);
      assert vals[..k][..k - 1] == vals[..k - 1];
    }
  }

  /** The words delta-of-delta coding writes: the start, the step, then zeros. */
  lemma SpacedWords(vals: seq<u64>, t0: u64, d: nat)
    requires EvenlySpaced(vals, t0, d) && |vals| >= 2
    ensures d <= MAX_INT
    ensures SecondDeltas(vals) == [t0, ZigZag(d)] + seq(|vals| - 2, _ => 0)
    ensures Deltas(vals) == [t0, ZigZag(d)] + seq(|vals| - 2, _ => ZigZag(d))
  {
    hide ZigZag;
    forall i | 1 <= i < |vals|
      ensures Step(vals, i) == d
    {
    }
    ZigZagIs(0);
    assert vals[1] == vals[0] + d;
  }

  lemma ZigZagIs(d: nat)
    requires d <= MAX_INT
    ensures ZigZag(d) == 2 * d
  {
    ZigZagRange(d);
  }

  // ----- lengths ---------------------------------------------------------------------------------------

  lemma VarintSizes(v: u64)
    ensures |Uvarint(v)| <= 10 && (v >= 128 ==> |Uvarint(v)| >= 2)
  {
    UvarintRoundTrip(v, []);
  }

  lemma {:induction false} LastByteNotZero(v: nat)
    requires v > 0
    ensures Uvarint(v)[|Uvarint(v)| - 1] != 0
    decreases v
  {
    if v >= 0x80 {
      LastByteNotZero(v / 0x80);
    }
  }

  lemma {:induction false} AtLeastOneEach(vals: seq<u64>)
    ensures |ListEncoding(WordBytes, vals)| >= |vals|
  {
    hide Uvarint;
    if vals != [] {
      AtLeastOneEach(vals[1..]);
    }
  }

  lemma {:induction false} AtLeastTwoEach(vals: seq<u64>)
    requires forall i :: 0 <= i < |vals| ==> vals[i] >= 128
    ensures |ListEncoding(WordBytes, vals)| >= 2 * |vals|
  {
    hide Uvarint;
    if vals != [] {
      VarintSizes(vals[0]);
      AtLeastTwoEach(vals[1..]);
    }
  }

  lemma TwoFirst(a: u64, b: u64, rest: seq<u64>)
    ensures ListEncoding(WordBytes, [a, b] + rest) == Uvarint(a) + Uvarint(b) + ListEncoding(WordBytes, rest)
  {
    hide Uvarint;
    var all := [a, b] + rest;
    assert all[1..] == [b] + rest && all[1..][1..] == rest;
  }

  lemma {:induction false} ZeroWords(k: nat)
    ensures ListEncoding(WordBytes, seq(k, _ => 0)) == Zeros(k)
  {
    if k > 0 {
      ZeroWords(k - 1);
      assert seq(k, _ => 0 as u64)[1..] == seq(k - 1, _ => 0);
      assert Zeros(k) == [0] + Zeros(k - 1);
    }
  }

  lemma {:induction false} PlainSize(vals: seq<u64>)
    ensures |ListEncoding(PlainBytes, vals)| == 8 * |vals|
  {
    hide LEBytes;
    if vals != [] {
      PlainSize(vals[1..]);
    }
  }

  lemma PackedAtLeast(n: nat, width: nat, least: nat)
    requires width >= least > 0
    ensures PackedSize(n, width) >= n * least / 8
  {
    assert n * width == n * least + n * (width - least);
  }

  // ----- the selector's choice ----------------------------------------------------------------------------

  /** The payload: the start, the step, and a zero byte for every further row. */
  ghost function SpacedPayload(t0: u64, d: nat, n: nat): bytes
    requires n >= 2 && d <= MAX_INT
  {
    Uvarint(t0) + Uvarint(ZigZag(d)) + Zeros(n - 2)
  }

  lemma SecondsAre(vals: seq<u64>, t0: u64, d: nat)
    requires EvenlySpaced(vals, t0, d) && |vals| >= 2
    ensures d <= MAX_INT && ListEncoding(WordBytes, SecondDeltas(vals)) == SpacedPayload(t0, d, |vals|)
  {
    hide Uvarint, ListEncoding, ZigZag;
    SpacedWords(vals, t0, d);
    TwoFirst(t0, ZigZag(d), seq(|vals| - 2, _ => 0));
    ZeroWords(|vals| - 2);
  }

  lemma DeltasLonger(vals: seq<u64>, t0: u64, d: nat)
    requires EvenlySpaced(vals, t0, d) && |vals| >= 3 && d >= 64
    ensures d <= MAX_INT && |ListEncoding(WordBytes, Deltas(vals))| > |SpacedPayload(t0, d, |vals|)|
  {
    hide Uvarint, ListEncoding, ZigZag;
    SpacedWords(vals, t0, d);
    ZigZagIs(d);
    var rest: seq<u64> := seq(|vals| - 2, _ => ZigZag(d));
    TwoFirst(t0, ZigZag(d), rest);
    AtLeastTwoEach(rest);
  }

  lemma VarintsLonger(vals: seq<u64>, t0: u64, d: nat)
    requires EvenlySpaced(vals, t0, d) && |vals| >= 64 && d >= 64
    ensures d <= MAX_INT && |ListEncoding(WordBytes, vals)| > |SpacedPayload(t0, d, |vals|)|
  {
    hide Uvarint, ListEncoding, ZigZag;
    SpacedWords(vals, t0, d);
    VarintSizes(ZigZag(d));
    var rest := vals[2..];
    forall i | 0 <= i < |rest|
      ensures rest[i] >= 128
    {
      SpacedApart(vals, t0, d, 0, i + 2);
    }
    AtLeastTwoEach(rest);
    assert vals == [t0, vals[1]] + rest;
    TwoFirst(t0, vals[1], rest);
  }

  lemma FramesLonger(vals: seq<u64>, t0: u64, d: nat, max: u64)
    requires EvenlySpaced(vals, t0, d) && |vals| >= 64 && d >= 64
    requires t0 <= max && (forall i :: 0 <= i < |vals| ==> t0 <= vals[i] <= max)
    ensures d <= MAX_INT && |BitpackEncoding(vals, t0, max)| > |SpacedPayload(t0, d, |vals|)|
  {
    hide Uvarint, ZigZag, PackedValue, Pow2, Width, LEBytes;
    SpacedWords(vals, t0, d);
    VarintSizes(ZigZag(d));
    SpacedApart(vals, t0, d, 0, |vals| - 1);
    var width := Width(max - t0);
    assert width >= 9 by {
      WidthLeast(max - t0, 8);
      Pow2Values();
    }
    PackedAtLeast(|vals|, width, 9);
  }

  lemma DictionaryLonger(vals: seq<u64>, t0: u64, d: nat)
    requires EvenlySpaced(vals, t0, d) && 64 <= |vals| <= MAX_INT && d >= 64
    ensures d <= MAX_INT && |IntDictionary.DictEncoding(vals)| > |SpacedPayload(t0, d, |vals|)|
  {
    hide Uvarint, ZigZag, PackedValue, Pow2, Width, LEBytes, Table, ListEncoding, WordLess, Ascending, Elements;
    SpacedWords(vals, t0, d);
    VarintSizes(ZigZag(d));
    VarintSizes(t0);
    TableHasAll(vals, t0, d);
    var table := Table<u64>(WordLess, vals);
    AtLeastOneEach(IntDictionary.Gaps(table));
    var width := Width(|vals| - 1);
    assert width >= 6 by {
      WidthLeast(|vals| - 1, 5);
      Pow2Of5();
    }
    PackedAtLeast(|vals|, width, 6);
  }

  lemma Pow2Of5()
    ensures Pow2(5) == 32
  {
    assert Pow2(3) == 8;
  }

  lemma TableHasAll(vals: seq<u64>, t0: u64, d: nat)
    requires EvenlySpaced(vals, t0, d) && d >= 64
    ensures StrictTotal<u64>(WordLess) && |Table<u64>(WordLess, vals)| == |vals|
    ensures forall i :: 0 <= i < |vals| ==> vals[i] in Table<u64>(WordLess, vals)
  {
    hide Table, WordLess;
    WordOrder();
    TableIs<u64>(WordLess, vals);
    AscendingDistinct<u64>(WordLess, Table<u64>(WordLess, vals));
    DistinctCount(Table<u64>(WordLess, vals));
    forall i, j | 0 <= i < j < |vals|
      ensures vals[i] != vals[j]
    {
      SpacedApart(vals, t0, d, i, j);
    }
    DistinctCount(vals);
  }

  /** What the selector looks at finds the runs all short and the values ascending. */
  lemma SpacedStats(vals: seq<u64>, t0: u64, d: nat, st: IntSelector.IntStats)
    requires EvenlySpaced(vals, t0, d) && 2 <= |vals| && d >= 64 && IntSelector.StatsOf(st, vals)
    ensures st.min == t0 && st.n == |vals| && st.runs == |vals| && st.sortedNonDesc
    ensures st.min <= st.max && forall i :: 0 <= i < |vals| ==> t0 <= vals[i] <= st.max
  {
    hide Runs, Elements;
    SpacedRuns(vals, t0, d, |vals|);
    assert vals[..|vals|] == vals;
    forall i | 0 <= i < |vals|
      ensures t0 <= vals[i]
    {
      SpacedApart(vals, t0, d, 0, i);
    }
    assert vals[0] in vals;
  }

  lemma OnlyShortest(cands: seq<(byte, bytes)>, x: (byte, bytes))
    requires x in cands && forall c :: c in cands ==> c == x || |c.1| > |x.1|
    ensures Shortest(cands) == x
  {
    var k :| 0 <= k < |cands| && cands[k] == x;
    assert |Shortest(cands).1| <= |cands[k].1|;
  }

  /** The candidates tried on an ascending column without runs. */
  lemma CandidatesTried(vals: seq<u64>, st: IntSelector.IntStats)
    requires vals != [] && |vals| <= MAX_INT
    requires st.min <= st.max && forall i :: 0 <= i < |vals| ==> st.min <= vals[i]
    requires st.sortedNonDesc && st.runs * 3 >= st.n
    ensures IntSelector.Candidates(vals, st)
            == AddIf([(PLAIN, ListEncoding(PlainBytes, vals))] + [(VARINT, ListEncoding(WordBytes, vals))]
                     + [(BITPACK, BitpackEncoding(vals, st.min, st.max))]
                     + [(DELTA, ListEncoding(WordBytes, Deltas(vals)))]
                     + [(DELTA_OF_DELTA, ListEncoding(WordBytes, SecondDeltas(vals)))],
                     st.distinct <= MAX_DICT_ENTRIES && st.distinct * 4 < st.n * 3,
                     (DICT_INT, IntDictionary.DictEncoding(vals)))
  {
    hide ListEncoding, RunsEncoding, SecondDeltas, Deltas, BitpackEncoding, IntDictionary.DictEncoding;
  }

  lemma SixMembers<T>(a: T, b: T, c: T, d: T, e: T, f: T, cond: bool, x: T)
    ensures e in AddIf([a] + [b] + [c] + [d] + [e], cond, f)
    ensures x in AddIf([a] + [b] + [c] + [d] + [e], cond, f) ==> x in [a, b, c, d, e, f]
  {
    assert [a] + [b] + [c] + [d] + [e] == [a, b, c, d, e];
    assert [a, b, c, d, e][4] == e;
  }

  /** At least 64 timestamps, at least 64 apart: delta-of-delta is strictly the
      shortest candidate, and its payload is all zeros but for the first bytes. */
  lemma SpacedEncoding(vals: seq<u64>, t0: u64, d: nat)
    requires EvenlySpaced(vals, t0, d) && 64 <= |vals| <= MAX_INT && d >= 64
    ensures d <= MAX_INT && IntSelector.IntsEncoding(vals) == (DELTA_OF_DELTA, SpacedPayload(t0, d, |vals|))
  {
    hide ListEncoding, SecondDeltas, Deltas, BitpackEncoding, IntDictionary.DictEncoding, SpacedPayload, EvenlySpaced,
         Shortest, IntSelector.IntsEncoding, IntSelector.StatsOf, IntSelector.Candidates, AddIf;
    NotEmpty(vals, t0, d);
    IntSelector.StatsExist(vals);
    var st :| IntSelector.StatsOf(st, vals);
    IntSelector.EncodingIs(vals, st);
    SpacedStats(vals, t0, d, st);
    SecondsAre(vals, t0, d);
    DeltasLonger(vals, t0, d);
    VarintsLonger(vals, t0, d);
    FramesLonger(vals, t0, d, st.max);
    DictionaryLonger(vals, t0, d);
    PlainLonger(vals, t0, d);
    var dod := (DELTA_OF_DELTA, SpacedPayload(t0, d, |vals|));
    CandidatesTried(vals, st);
    forall c | c in IntSelector.Candidates(vals, st) || c == dod
      ensures c == dod || |c.1| > |dod.1|
      ensures dod in IntSelector.Candidates(vals, st)
    {
      SixMembers((PLAIN, ListEncoding(PlainBytes, vals)), (VARINT, ListEncoding(WordBytes, vals)),
                 (BITPACK, BitpackEncoding(vals, st.min, st.max)), (DELTA, ListEncoding(WordBytes, Deltas(vals))), dod,
                 (DICT_INT, IntDictionary.DictEncoding(vals)),
                 st.distinct <= MAX_DICT_ENTRIES && st.distinct * 4 < st.n * 3, c);
    }
    OnlyShortest(IntSelector.Candidates(vals, st), dod);
  }

  lemma NotEmpty(vals: seq<u64>, t0: u64, d: nat)
    requires EvenlySpaced(vals, t0, d)
    ensures vals != []
  {
  }

  lemma PlainLonger(vals: seq<u64>, t0: u64, d: nat)
    requires EvenlySpaced(vals, t0, d) && |vals| >= 64
    ensures d <= MAX_INT && |ListEncoding(PlainBytes, vals)| > |SpacedPayload(t0, d, |vals|)|
  {
    hide Uvarint, ListEncoding, ZigZag;
    SpacedWords(vals, t0, d);
    VarintSizes(t0);
    VarintSizes(ZigZag(d));
    PlainSize(vals);
  }

  // ----- the chunk --------------------------------------------------------------------------------------------

  function CellsFor(vals: seq<u64>): (cells: seq<Cell>)
    ensures |cells| == |vals|
  {
    seq(|vals|, i requires 0 <= i < |vals| => Int(vals[i]))
  }

  /** 5122 evenly spaced timestamps, at least 64 apart, are enough: under a lossless
      codec the chunk is written, and no reader accepts it. */
  lemma EvenlySpacedChunksAreRefused(vals: seq<u64>, t0: u64, d: nat)
    requires EvenlySpaced(vals, t0, d) && 5122 <= |vals| <= MAX_SEGMENT_ROWS && d >= 64
    ensures Lossless(ZeroStripping())
    ensures Chunk.ChunkDecoded(ZeroStripping(), Chunk.ChunkBytes(ZeroStripping(), ZSTD, KindInt, CellsFor(vals)))
            == Err(LimitExceeded)
  {
    hide Stripped, Uvarint, ZigZag, IntSelector.IntsEncoding, Chunk.ChunkDecoded, Chunk.ChunkBytes, Lossless,
         MarshalRows, UnmarshalRows, EvenlySpaced, Zeros;
    LosslessIsPossible();
    SpacedEncoding(vals, t0, d);
    var cells := CellsFor(vals);
    assert IntsOf(cells) == vals;
    var head := Uvarint(t0) + Uvarint(ZigZag(d));
    ZigZagIs(d);
    LastByteNotZero(ZigZag(d));
    VarintSizes(t0);
    VarintSizes(ZigZag(d));
    StripsZeros(head, |vals| - 2);
    Chunk.WellCompressedChunksAreRefused(ZeroStripping(), ZSTD, KindInt, cells);
  }

  /** There are such timestamps: one a microsecond, from the epoch on. */
  lemma SomeAreEvenlySpaced(n: nat)
    requires 1 <= n <= MAX_SEGMENT_ROWS
    ensures EvenlySpaced(seq(n, i requires 0 <= i < n => 1000 * i), 0, 1000)
  {
  }
}
