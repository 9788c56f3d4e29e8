/** The parts of codec selection that the integer and the byte selectors share. */
module Selection {
  import opened Bits
  import opened Sorting

  /** Distinct counting stops here, to bound the selector's cost. */
  const DICT_PROBE_LIMIT: nat := 0x1_0000

  /** The number of maximal runs of equal values. */
  function Runs<T(==)>(vals: seq<T>): nat {
    if |vals| <= 1 then |vals|
    else Runs(vals[..|vals| - 1]) + if vals[|vals| - 1] != vals[|vals| - 2] then 1 else 0
  }

  lemma PrefixElements<T>(vals: seq<T>, i: nat)
    requires i < |vals|
    ensures Elements(vals[..i + 1]) == Elements(vals[..i]) + {vals[i]}
    ensures |Elements(vals[..i])| <= |Elements(vals[..i + 1])|
  {
    assert vals[..i + 1] == vals[..i] + [vals[i]];
    var e := Elements(vals[..i]);
    assert Elements(vals[..i] + [vals[i]]) == e + {vals[i]};
    if vals[i] in e {
      assert e + {vals[i]} == e;
    }
  }

  function AddIf<T>(s: seq<T>, cond: bool, x: T): seq<T> {
    if cond then s + [x] else s
  }

  /** The first of the shortest candidates. */
  function Shortest(cands: seq<(byte, bytes)>): (best: (byte, bytes))
    requires cands != []
    ensures best in cands
    ensures forall i :: 0 <= i < |cands| ==> |best.1| <= |cands[i].1|
  {
    if |cands| == 1 then cands[0]
    else
      var best := Shortest(cands[..|cands| - 1]);
      Shorter(best, cands[|cands| - 1])
  }

  function Shorter(best: (byte, bytes), cand: (byte, bytes)): (byte, bytes) {
    if |cand.1| < |best.1| then cand else best
  }

  lemma OnlyCandidate(c: (byte, bytes))
    ensures Shortest([c]) == c
  {
  }

  /** Keeps the candidate when it is strictly shorter. */
  method Consider(best: (byte, bytes), cand: (byte, bytes), ghost tried: seq<(byte, bytes)>)
    returns (r: (byte, bytes), ghost tried': seq<(byte, bytes)>)
    requires tried != [] && best == Shortest(tried)
    ensures tried' == tried + [cand] && r == Shortest(tried')
  {
    r := best;
    if |cand.1| < |r.1| {
      r := cand;
    }
    tried' := tried + [cand];
    assert tried'[..|tried|] == tried;
  }

  /** A value that differs from the one before it. */
  ghost predicate Breaks<T>(vals: seq<T>, i: nat) {
    1 <= i < |vals| && vals[i] != vals[i - 1]
  }

  /** There is one run more than there are such values. */
  lemma {:induction false} RunsAre<T>(vals: seq<T>)
    requires vals != []
    ensures Runs(vals) == 1 + |set i: nat | i < |vals| && Breaks(vals, i)|
    decreases |vals|
  {
    var last := |vals| - 1;
    var breaks := set i: nat | i < |vals| && Breaks(vals, i);
    if last == 0 {
      assert breaks == {};
    } else {
      var front := vals[..last];
      RunsAre(front);
      var before := set i: nat | i < |front| && Breaks(front, i);
      assert breaks == before + if Breaks(vals, last) then {last as nat} else {};
    }
  }

  lemma ShortestStep(cands: seq<(byte, bytes)>, x: (byte, bytes))
    requires cands != []
    ensures Shortest(cands + [x]) == Shorter(Shortest(cands), x)
  {
    assert (cands + [x])[..|cands|] == cands;
  }

  lemma ShortestAddIf(cands: seq<(byte, bytes)>, cond: bool, x: (byte, bytes))
    requires cands != []
    ensures AddIf(cands, cond, x) != []
    ensures Shortest(AddIf(cands, cond, x)) == if cond then Shorter(Shortest(cands), x) else Shortest(cands)
  {
    ShortestStep(cands, x);
  }
}
