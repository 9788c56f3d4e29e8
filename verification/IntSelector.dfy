/** Column statistics, the codec selector and the decoder dispatch
    (internal/encoding/ints.go:10-99, internal/encoding/encoding.go:84-111). */
module IntSelector {
  import opened Bits
  import opened Wrappers
  import opened Limits
  import opened Varint
  import opened BitPack
  import opened Sorting
  import opened Streams
  import opened IntCodecs
  import opened IntDictionary
  import opened Selection
  import opened Dictionaries

  // ----- statistics ----------------------------------------------------------------

  datatype IntStats = IntStats(
    n: nat, min: u64, max: u64, distinct: nat, distinctExact: bool, runs: nat, sortedNonDesc: bool)

  predicate NonDecreasing(vals: seq<u64>) {
    forall i :: 1 <= i < |vals| ==> vals[i - 1] <= vals[i]
  }

  /** What the single pass is meant to find; the distinct count is exact up to
      the probe limit and stands at the limit beyond it. */
  ghost predicate StatsOf(st: IntStats, vals: seq<u64>) {
    && st.n == |vals|
    && st.min in vals && st.max in vals
    && (forall i :: 0 <= i < |vals| ==> st.min <= vals[i] <= st.max)
    && st.runs == Runs(vals)
    && st.sortedNonDesc == NonDecreasing(vals)
    && st.distinctExact == (|Elements(vals)| <= DICT_PROBE_LIMIT)
    && st.distinct == if st.distinctExact then |Elements(vals)| else DICT_PROBE_LIMIT
  }

  /** The statistics are determined by the values. */
  lemma StatsUnique(a: IntStats, b: IntStats, vals: seq<u64>)
    requires StatsOf(a, vals) && StatsOf(b, vals)
    ensures a == b
  {
    var i :| 0 <= i < |vals| && vals[i] == a.min;
    var j :| 0 <= j < |vals| && vals[j] == b.min;
    var k :| 0 <= k < |vals| && vals[k] == a.max;
    var l :| 0 <= l < |vals| && vals[l] == b.max;
  }

  /** The effect of value i > 0 on the run count and on sortedness. */
  lemma ScanStep(vals: seq<u64>, i: nat)
    requires 1 <= i < |vals|
    ensures Runs(vals[..i + 1]) == Runs(vals[..i]) + if vals[i] != vals[i - 1] then 1 else 0
    ensures NonDecreasing(vals[..i + 1]) <==> NonDecreasing(vals[..i]) && vals[i - 1] <= vals[i]
  {
    var a, b := vals[..i], vals[..i + 1];
    assert b[..i] == a;
    if NonDecreasing(b) {
      forall k | 1 <= k < |a|
        ensures a[k - 1] <= a[k]
      {
        assert b[k - 1] <= b[k];
      }
      assert b[i - 1] <= b[i];
    }
  }

  lemma ScanStart(vals: seq<u64>)
    requires vals != []
    ensures Runs(vals[..1]) == 1 && NonDecreasing(vals[..0]) && NonDecreasing(vals[..1])
    ensures Elements(vals[..0]) == {}
  {
  }

  method AnalyzeInts(vals: seq<u64>) returns (st: IntStats)
    requires vals != []
    ensures StatsOf(st, vals)
  {
    hide Runs, NonDecreasing, Elements;
    var min, max, runs, sorted := vals[0], vals[0], 1, true;
    var seen: set<u64> := {};
    var exact := true;
    var i := 0;
    ScanStart(vals);
    while i < |vals|
      invariant 0 <= i <= |vals|
      invariant min in vals && max in vals && forall k :: 0 <= k < i ==> min <= vals[k] <= max
      invariant runs == if i == 0 then 1 else Runs(vals[..i])
      invariant sorted == NonDecreasing(vals[..i])
      invariant exact ==> seen == Elements(vals[..i]) && |seen| <= DICT_PROBE_LIMIT
      invariant !exact ==> |Elements(vals[..i])| > DICT_PROBE_LIMIT
    {
      var v := vals[i];
      PrefixElements(vals, i);
      if v < min {
        min := v;
      }
      if v > max {
        max := v;
      }
      if i > 0 {
        ScanStep(vals, i);
        if v != vals[i - 1] {
          runs := runs + 1;
        }
        if v < vals[i - 1] {
          sorted := false;
        }
      }
      if exact {
        if v !in seen {
          if |seen| >= DICT_PROBE_LIMIT {
            exact := false;
          } else {
            seen := seen + {v};
          }
        } else {
          assert seen + {v} == seen;
        }
      }
      i := i + 1;
    }
    assert vals[..i] == vals;
    st := IntStats(|vals|, min, max, if exact then |seen| else DICT_PROBE_LIMIT, exact, runs, sorted);
  }

  // ----- the selector -----------------------------------------------------------------

  /** The candidates, in the order tried. */
  function Candidates(vals: seq<u64>, st: IntStats): seq<(byte, bytes)>
    requires vals != [] && |vals| <= MAX_INT
    requires st.min <= st.max && forall i :: 0 <= i < |vals| ==> st.min <= vals[i]
  {
    var always := [(PLAIN, ListEncoding(PlainBytes, vals))] + [(VARINT, ListEncoding(WordBytes, vals))];
    var runs := AddIf(always, st.runs * 3 < st.n, (RLE_INT, RunsEncoding(WordBytes, vals)));
    var frames := runs + [(BITPACK, BitpackEncoding(vals, st.min, st.max))];
    var deltas := frames + [(DELTA, ListEncoding(WordBytes, Deltas(vals)))];
    var seconds := AddIf(deltas, st.sortedNonDesc, (DELTA_OF_DELTA, ListEncoding(WordBytes, SecondDeltas(vals))));
    AddIf(seconds, st.distinct <= MAX_DICT_ENTRIES && st.distinct * 4 < st.n * 3, (DICT_INT, DictEncoding(vals)))
  }

  /** The chosen codec and payload. */
  ghost function IntsEncoding(vals: seq<u64>): (byte, bytes)
    requires |vals| <= MAX_INT
  {
    if vals == [] then (PLAIN, [])
    else
      StatsExist(vals);
      var st :| StatsOf(st, vals);
      Shortest(Candidates(vals, st))
  }

  lemma {:induction false} ExtremesExist(vals: seq<u64>) returns (min: u64, max: u64)
    requires vals != []
    ensures min in vals && max in vals && forall i :: 0 <= i < |vals| ==> min <= vals[i] <= max
  {
    if |vals| == 1 {
      min, max := vals[0], vals[0];
    } else {
      var a, b := ExtremesExist(vals[1..]);
      min := if vals[0] < a then vals[0] else a;
      max := if vals[0] > b then vals[0] else b;
      assert vals == [vals[0]] + vals[1..];
    }
  }

  lemma StatsExist(vals: seq<u64>)
    requires vals != []
    ensures exists st :: StatsOf(st, vals)
  {
    var min, max := ExtremesExist(vals);
    var d := |Elements(vals)|;
    var exact := d <= DICT_PROBE_LIMIT;
    var st := IntStats(|vals|, min, max, if exact then d else DICT_PROBE_LIMIT, exact, Runs(vals), NonDecreasing(vals));
    assert StatsOf(st, vals);
  }

  method EncodeIntsAuto(vals: seq<u64>) returns (id: byte, out: bytes)
    requires |vals| <= MAX_INT
    ensures (id, out) == IntsEncoding(vals)
  {
    hide ListEncoding, RunsEncoding, BitpackEncoding, DictEncoding, Deltas, SecondDeltas, Shortest, Elements;
    if |vals| == 0 {
      return PLAIN, [];
    }
    var st := AnalyzeInts(vals);
    EncodingIs(vals, st);
    ghost var tried: seq<(byte, bytes)> := [];

    var b := EncodePlain(vals);
    var best := (PLAIN, b);
    tried := [best];
    OnlyCandidate(best);
    b := EncodeVarint(vals);
    best, tried := Consider(best, (VARINT, b), tried);
    if st.runs * 3 < st.n {
      b := EncodeRLEInt(vals);
      best, tried := Consider(best, (RLE_INT, b), tried);
    }
    b := EncodeBitpack(vals, st.min, st.max);
    best, tried := Consider(best, (BITPACK, b), tried);
    if st.sortedNonDesc {
      b := EncodeDelta(vals);
      best, tried := Consider(best, (DELTA, b), tried);
      b := EncodeDoD(vals);
      best, tried := Consider(best, (DELTA_OF_DELTA, b), tried);
    } else {
      b := EncodeDelta(vals);
      best, tried := Consider(best, (DELTA, b), tried);
    }
    if st.distinct <= MAX_DICT_ENTRIES && st.distinct * 4 < st.n * 3 {
      b := EncodeDictInt(vals);
      best, tried := Consider(best, (DICT_INT, b), tried);
    }
    return best.0, best.1;
  }

  type Candidate = (byte, bytes)

  /** The first shortest of seven candidates, three of them tried under a condition. */
  function FirstOf(a: Candidate, b: Candidate, p: bool, c: Candidate, d: Candidate, e: Candidate, q: bool, f: Candidate,
                   r: bool, g: Candidate): Candidate {
    var x1 := Shorter(a, b);
    var x2 := if p then Shorter(x1, c) else x1;
    var x3 := Shorter(Shorter(x2, d), e);
    var x4 := if q then Shorter(x3, f) else x3;
    if r then Shorter(x4, g) else x4
  }

  /** It is one of those tried, none of those tried is shorter, and those tried before
      it are longer. */
  lemma FirstOfIs(a: Candidate, b: Candidate, p: bool, c: Candidate, d: Candidate, e: Candidate, q: bool, f: Candidate,
                  r: bool, g: Candidate)
    requires a.0 == 0 && b.0 == 1 && c.0 == 4 && d.0 == 5 && e.0 == 2 && f.0 == 3 && g.0 == 6
    ensures var x := FirstOf(a, b, p, c, d, e, q, f, r, g);
            var n := |x.1|;
            && (x.0 == 0 ==> x == a) && (x.0 == 1 ==> x == b) && (x.0 == 4 ==> p && x == c) && (x.0 == 5 ==> x == d)
            && (x.0 == 2 ==> x == e) && (x.0 == 3 ==> q && x == f) && (x.0 == 6 ==> r && x == g) && x.0 <= 6
            && n <= |a.1| && n <= |b.1| && (p ==> n <= |c.1|) && n <= |d.1| && n <= |e.1| && (q ==> n <= |f.1|)
            && (r ==> n <= |g.1|)
            && (x.0 != 0 ==> n < |a.1|) && (x.0 !in {0, 1} ==> n < |b.1|) && (x.0 !in {0, 1, 4} && p ==> n < |c.1|)
            && (x.0 !in {0, 1, 4, 5} ==> n < |d.1|) && (x.0 in {3, 6} ==> n < |e.1|) && (x.0 == 6 && q ==> n < |f.1|)
  {
  }

  /** The codecs tried, in order: plain, varint, run-length where runs are fewer than
      a third of the values, frame of reference, delta, delta-of-delta where the
      values never fall, and the dictionary where fewer than three quarters of the
      values are distinct, a capped count being taken for 65536. */
  lemma SelectorIs(vals: seq<u64>, lo: u64, hi: u64)
    requires vals != [] && |vals| <= MAX_INT
    requires lo in vals && hi in vals && forall i :: 0 <= i < |vals| ==> lo <= vals[i] <= hi
    ensures IntsEncoding(vals) ==
            FirstOf((0, ListEncoding(PlainBytes, vals)), (1, ListEncoding(WordBytes, vals)),
                    Runs(vals) * 3 < |vals|, (4, RunsEncoding(WordBytes, vals)), (5, BitpackEncoding(vals, lo, hi)),
                    (2, ListEncoding(WordBytes, Deltas(vals))),
                    forall i :: 1 <= i < |vals| ==> vals[i - 1] <= vals[i],
                    (3, ListEncoding(WordBytes, SecondDeltas(vals))),
                    (if |Elements(vals)| <= 65536 then |Elements(vals)| else 65536) * 4 < |vals| * 3,
                    (6, DictEncoding(vals)))
  {
    hide ListEncoding, RunsEncoding, BitpackEncoding, DictEncoding, Deltas, SecondDeltas, Elements, Runs, Shortest,
         IntsEncoding, Shorter, AddIf, FirstOf, Candidates;
    StatsExist(vals);
    var st :| StatsOf(st, vals);
    EncodingIs(vals, st);
    assert st.min == lo && st.max == hi;
    Tried(vals, st);
  }

  lemma Tried(vals: seq<u64>, st: IntStats)
    requires vals != [] && |vals| <= MAX_INT
    requires st.min <= st.max && forall i :: 0 <= i < |vals| ==> st.min <= vals[i]
    ensures Candidates(vals, st) != []
    ensures Shortest(Candidates(vals, st)) ==
            FirstOf((PLAIN, ListEncoding(PlainBytes, vals)), (VARINT, ListEncoding(WordBytes, vals)),
                    st.runs * 3 < st.n, (RLE_INT, RunsEncoding(WordBytes, vals)),
                    (BITPACK, BitpackEncoding(vals, st.min, st.max)), (DELTA, ListEncoding(WordBytes, Deltas(vals))),
                    st.sortedNonDesc, (DELTA_OF_DELTA, ListEncoding(WordBytes, SecondDeltas(vals))),
                    st.distinct <= MAX_DICT_ENTRIES && st.distinct * 4 < st.n * 3, (DICT_INT, DictEncoding(vals)))
  {
    hide ListEncoding, RunsEncoding, BitpackEncoding, DictEncoding, Deltas, SecondDeltas, Shortest, AddIf, Shorter;
    var a, b := (PLAIN, ListEncoding(PlainBytes, vals)), (VARINT, ListEncoding(WordBytes, vals));
    var c, d := (RLE_INT, RunsEncoding(WordBytes, vals)), (BITPACK, BitpackEncoding(vals, st.min, st.max));
    var e := (DELTA, ListEncoding(WordBytes, Deltas(vals)));
    var f, g := (DELTA_OF_DELTA, ListEncoding(WordBytes, SecondDeltas(vals))), (DICT_INT, DictEncoding(vals));
    ShortestOne(a);
    ShortestStep([a], b);
    var s1 := AddIf([a] + [b], st.runs * 3 < st.n, c);
    ShortestAddIf([a] + [b], st.runs * 3 < st.n, c);
    ShortestStep(s1, d);
    ShortestStep(s1 + [d], e);
    ShortestAddIf(s1 + [d] + [e], st.sortedNonDesc, f);
    ShortestAddIf(AddIf(s1 + [d] + [e], st.sortedNonDesc, f),
                  st.distinct <= MAX_DICT_ENTRIES && st.distinct * 4 < st.n * 3, g);
  }

  lemma ShortestOne(x: (byte, bytes))
    ensures Shortest([x]) == x
  {
  }

  lemma EncodingIs(vals: seq<u64>, st: IntStats)
    requires vals != [] && |vals| <= MAX_INT && StatsOf(st, vals)
    ensures IntsEncoding(vals) == Shortest(Candidates(vals, st))
  {
    hide Candidates, Shortest;
    var st' :| StatsOf(st', vals) && IntsEncoding(vals) == Shortest(Candidates(vals, st'));
    StatsUnique(st, st', vals);
  }

  // ----- the dispatch ----------------------------------------------------------------

  /** DecodeInts: exactly n values or an error, whatever the bytes. */
  function IntsDecoded(id: byte, data: bytes, n: nat): (r: Result<seq<u64>>)
    ensures r.Ok? ==> |r.value| == n && n <= MAX_SEGMENT_ROWS
  {
    if CheckCount(n, MAX_SEGMENT_ROWS).Fail? then Err(LimitExceeded)
    else if id == PLAIN then PlainDecoded(data, n)
    else if id == VARINT then VarintDecoded(data, n)
    else if id == DELTA then DeltaDecoded(data, n)
    else if id == DELTA_OF_DELTA then DeltaOfDeltaDecoded(data, n)
    else if id == RLE_INT then RLEDecoded(data, n)
    else if id == BITPACK then BitpackDecoded(data, n)
    else if id == DICT_INT then DictDecoded(data, n)
    else Err(UnknownEncoding)
  }

  /** What decoding comes to: n values or an error, or, for a run-length payload
      with an unbounded pair and for no other, death. */
  lemma DecodeOutcome(id: byte, data: bytes, n: nat)
    ensures IntsDecoded(id, data, n) == Err(OutOfMemory)
            <==> id == RLE_INT && n <= MAX_SEGMENT_ROWS && !RunsBounded(ReadWord, data, 0, n)
  {
    hide ReadWord, ListDecoded, RunsDecoded, RunsBounded, OrdinalsDecoded, Unpacked;
    if n <= MAX_SEGMENT_ROWS {
      RLEOutcome(data, n);
      WordListSurvives(data, n);
      WordsSurvive(data);
      UnpackingSurvives(data, n);
      DictSurvives(data, n);
    }
  }

  lemma UnpackingSurvives(data: bytes, n: nat)
    ensures BitpackDecoded(data, n) != Err(OutOfMemory)
  {
    hide ReadWord, GetBits;
    WordsSurvive(data);
  }

  lemma DictSurvives(data: bytes, n: nat)
    ensures DictDecoded(data, n) != Err(OutOfMemory)
  {
    hide ReadWord, ListDecoded, GetBits;
    WordsSurvive(data);
    if ReadWord(data).Ok? {
      WordListSurvives(ReadWord(data).value.1, ReadWord(data).value.0);
    }
  }

  method DecodeInts(id: byte, data: bytes, n: nat) returns (r: Result<seq<u64>>)
    ensures r == IntsDecoded(id, data, n)
  {
    hide PlainDecoded, VarintDecoded, DeltaDecoded, DeltaOfDeltaDecoded, RLEDecoded, BitpackDecoded, DictDecoded;
    if CheckCount(n, MAX_SEGMENT_ROWS).Fail? {
      return Err(LimitExceeded);
    }
    match id
    case 0 => r := DecodePlain(data, n);
    case 1 => r := DecodeVarint(data, n);
    case 2 => r := DecodeDelta(data, n);
    case 3 => r := DecodeDoD(data, n);
    case 4 => r := DecodeRLEInt(data, n);
    case 5 => r := DecodeBitpack(data, n);
    case 6 => r := DecodeDictInt(data, n);
    case _ => r := Err(UnknownEncoding);
  }

  // ----- correctness of the selector ---------------------------------------------------

  /** Every candidate the selector may keep decodes to the input. */
  lemma CandidateDecodes(vals: seq<u64>, st: IntStats, c: (byte, bytes))
    requires vals != [] && |vals| <= MAX_SEGMENT_ROWS && StatsOf(st, vals)
    requires c in Candidates(vals, st)
    ensures IntsDecoded(c.0, c.1, |vals|) == Ok(vals)
  {
    hide ListEncoding, RunsEncoding, BitpackEncoding, DictEncoding, Deltas, SecondDeltas, Runs, NonDecreasing,
         PlainDecoded, VarintDecoded, DeltaDecoded, DeltaOfDeltaDecoded, RLEDecoded, BitpackDecoded, DictDecoded;
    match c.0
    case 0 => PlainRoundTrip(vals);
    case 1 => VarintRoundTrip(vals);
    case 2 => DeltaRoundTrip(vals);
    case 3 => DeltaOfDeltaRoundTrip(vals);
    case 4 => RLERoundTrip(vals);
    case 5 => BitpackRoundTrip(vals, st.min, st.max);
    case _ => DictRoundTrip(vals);
  }

  /** Decoding what the selector chose restores the column, and the choice is
      never longer than 8 bytes a value nor than the plain varints. */
  lemma SelectorRoundTrip(vals: seq<u64>)
    requires |vals| <= MAX_SEGMENT_ROWS
    ensures var (id, data) := IntsEncoding(vals);
            && IntsDecoded(id, data, |vals|) == Ok(vals)
            && |data| <= 8 * |vals|
            && |data| <= |ListEncoding(WordBytes, vals)|
  {
    hide ListEncoding, RunsEncoding, BitpackEncoding, DictEncoding, Runs, NonDecreasing, IntsDecoded, PlainDecoded,
         Candidates, Shortest, Elements;
    PlainRoundTrip(vals);
    if vals == [] {
      NothingDecodes();
    } else {
      StatsExist(vals);
      var st :| StatsOf(st, vals);
      EncodingIs(vals, st);
      var cands := Candidates(vals, st);
      CandidateDecodes(vals, st, Shortest(cands));
      FallbacksFirst(vals, st);
    }
  }

  lemma FallbacksFirst(vals: seq<u64>, st: IntStats)
    requires vals != [] && |vals| <= MAX_INT && StatsOf(st, vals)
    ensures var c := Candidates(vals, st);
            |c| >= 2 && c[0].1 == ListEncoding(PlainBytes, vals) && c[1].1 == ListEncoding(WordBytes, vals)
  {
    hide ListEncoding, RunsEncoding, BitpackEncoding, DictEncoding, Runs, NonDecreasing, Elements;
  }

  lemma NothingDecodes()
    ensures IntsDecoded(PLAIN, [], 0) == Ok([])
  {
  }
}
