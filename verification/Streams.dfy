/** What the integer and the byte codecs share: streams of self-delimiting
    elements, and run-length pairs over them. */
module Streams {
  import opened Bits
  import opened Wrappers
  import opened Limits
  import opened Varint

  /** A reader takes one element off the front of the data. */
  type Reader<T> = bytes -> Result<(T, bytes)>

  // ----- elements ------------------------------------------------------------

  function WordBytes(v: u64): bytes {
    Uvarint(v)
  }

  function ReadWord(data: bytes): Result<(u64, bytes)> {
    match ReadUvarint(data)
    case None => Err(Truncated)
    case Some(p) => Ok((p.0, data[p.1..]))
  }

  function BlobBytes(v: bytes): bytes {
    Uvarint(|v|) + v
  }

  function ReadBlob(data: bytes): Result<(bytes, bytes)> {
    var (l, rest) :- ReadWord(data);
    if l > MAX_BYTES_VALUE then Err(LimitExceeded)
    else if l > |rest| then Err(Truncated)
    else Ok((rest[..l], rest[l..]))
  }

  ghost predicate Inverts<T(!new)>(enc: T -> bytes, dec: Reader<T>, v: T) {
    forall rest :: dec(enc(v) + rest) == Ok((v, rest))
  }

  lemma WordInverts(v: u64)
    ensures Inverts(WordBytes, ReadWord, v)
  {
    forall rest: bytes
      ensures ReadWord(WordBytes(v) + rest) == Ok((v, rest))
    {
      UvarintRoundTrip(v, rest);
      assert (Uvarint(v) + rest)[|Uvarint(v)|..] == rest;
    }
  }

  lemma BlobInverts(v: bytes)
    requires |v| <= MAX_BYTES_VALUE
    ensures Inverts(BlobBytes, ReadBlob, v)
  {
    forall rest: bytes
      ensures ReadBlob(BlobBytes(v) + rest) == Ok((v, rest))
    {
      WordInverts(|v|);
      assert BlobBytes(v) + rest == WordBytes(|v|) + (v + rest);
    }
  }

  // ----- element streams -------------------------------------------------------

  function ListEncoding<T>(enc: T -> bytes, vals: seq<T>): bytes {
    if vals == [] then [] else enc(vals[0]) + ListEncoding(enc, vals[1..])
  }

  /** n elements and the data left over. */
  function ListDecoded<T>(dec: Reader<T>, data: bytes, n: nat): (r: Result<(seq<T>, bytes)>)
    ensures r.Ok? ==> |r.value.0| == n
    decreases n
  {
    if n == 0 then Ok(([], data))
    else
      var (v, rest) :- dec(data);
      var (vs, end) :- ListDecoded(dec, rest, n - 1);
      Ok(([v] + vs, end))
  }

  lemma {:induction false} ListInverts<T(!new)>(enc: T -> bytes, dec: Reader<T>, vals: seq<T>, rest: bytes)
    requires forall i :: 0 <= i < |vals| ==> Inverts(enc, dec, vals[i])
    ensures ListDecoded(dec, ListEncoding(enc, vals) + rest, |vals|) == Ok((vals, rest))
  {
    if vals == [] {
      assert ListEncoding(enc, vals) + rest == rest;
    } else {
      hide ListEncoding;
      var tail := ListEncoding(enc, vals[1..]) + rest;
      assert Inverts(enc, dec, vals[0]);
      FirstOfList(enc, vals, rest);
      ListInverts(enc, dec, vals[1..], rest);
      assert vals == [vals[0]] + vals[1..];
    }
  }

  lemma FirstOfList<T>(enc: T -> bytes, vals: seq<T>, rest: bytes)
    requires vals != []
    ensures ListEncoding(enc, vals) + rest == enc(vals[0]) + (ListEncoding(enc, vals[1..]) + rest)
  {
  }

  /** Streams of elements whose reader does not kill do not kill. */
  lemma {:induction false} ListSurvives<T>(dec: Reader<T>, data: bytes, n: nat)
    requires forall d :: dec(d) != Err(OutOfMemory)
    ensures ListDecoded(dec, data, n) != Err(OutOfMemory)
    decreases n
  {
    if n > 0 && dec(data).Ok? {
      ListSurvives(dec, dec(data).value.1, n - 1);
    }
  }

  lemma WordListSurvives(data: bytes, n: nat)
    ensures ListDecoded(ReadWord, data, n) != Err(OutOfMemory)
  {
    hide ReadWord, ListDecoded;
    forall d
      ensures ReadWord(d) != Err(OutOfMemory)
    {
      WordsSurvive(d);
    }
    ListSurvives(ReadWord, data, n);
  }

  lemma BlobListSurvives(data: bytes, n: nat)
    ensures ListDecoded(ReadBlob, data, n) != Err(OutOfMemory)
  {
    hide ReadBlob, ListDecoded;
    forall d
      ensures ReadBlob(d) != Err(OutOfMemory)
    {
      WordsSurvive(d);
    }
    ListSurvives(ReadBlob, data, n);
  }

  /** The stream after one more element, for the encoding loops. */
  lemma ListStep<T>(enc: T -> bytes, out: bytes, vals: seq<T>, i: nat)
    requires i < |vals|
    ensures out + ListEncoding(enc, vals[i..]) == out + enc(vals[i]) + ListEncoding(enc, vals[i + 1..])
  {
    assert vals[i..][1..] == vals[i + 1..];
  }

  /** A decoding loop that has produced `done` and stands at pos. */
  ghost predicate Progress<T>(dec: Reader<T>, data: bytes, n: nat, done: seq<T>, pos: nat) {
    && pos <= |data| && |done| <= n
    && ListDecoded(dec, data, n) ==
       match ListDecoded(dec, data[pos..], n - |done|)
       case Ok(p) => Ok((done + p.0, p.1))
       case Err(e) => Err(e)
  }

  lemma ProgressStart<T>(dec: Reader<T>, data: bytes, n: nat)
    ensures Progress(dec, data, n, [], 0)
  {
    assert data[0..] == data;
    var r := ListDecoded(dec, data, n);
    if r.Ok? {
      assert [] + r.value.0 == r.value.0;
    }
  }

  /** One more element, or the error it fails with. */
  lemma ProgressStep<T>(dec: Reader<T>, data: bytes, n: nat, done: seq<T>, pos: nat)
    requires Progress(dec, data, n, done, pos) && |done| < n
    ensures match dec(data[pos..])
            case Err(e) => ListDecoded(dec, data, n) == Err(e)
            case Ok(p) => forall next: nat {:trigger data[next..]} :: next <= |data| && p.1 == data[next..]
                            ==> Progress(dec, data, n, done + [p.0], next)
  {
    match dec(data[pos..])
    case Ok(p) =>
      var r := ListDecoded(dec, p.1, n - |done| - 1);
      if r.Ok? {
        assert done + ([p.0] + r.value.0) == done + [p.0] + r.value.0;
      }
    case Err(_) =>
  }

  lemma ProgressEnd<T>(dec: Reader<T>, data: bytes, n: nat, done: seq<T>, pos: nat)
    requires Progress(dec, data, n, done, pos) && |done| == n
    ensures ListDecoded(dec, data, n) == Ok((done, data[pos..]))
  {
    assert done + [] == done;
  }

  /** binary.Uvarint(data[pos:]): a byte count <= 0 reports failure. */
  method UvarintAt(data: bytes, pos: nat) returns (v: u64, m: int)
    requires pos <= |data|
    ensures m <= |data| - pos
    ensures ReadWord(data[pos..]) == if m <= 0 then Err(Truncated) else Ok((v, data[pos + m..]))
  {
    match ReadUvarint(data[pos..])
    case None =>
      v, m := 0, 0;
    case Some(p) =>
      v, m := p.0, p.1;
      assert data[pos..][m..] == data[pos + m..];
  }

  // ----- run-length pairs --------------------------------------------------------

  /** Length of the run of equal values at the front. */
  function RunLength<T(==)>(vals: seq<T>): (k: nat)
    ensures k <= |vals| && (vals != [] ==> k >= 1)
    ensures forall i :: 0 <= i < k ==> vals[i] == vals[0]
    ensures k < |vals| ==> vals[k] != vals[0]
  {
    if |vals| <= 1 then |vals|
    else if vals[1] == vals[0] then 1 + RunLength(vals[1..])
    else 1
  }

  function Repeat<T>(v: T, k: nat): (s: seq<T>)
    ensures |s| == k
  {
    seq(k, _ => v)
  }

  function RunsEncoding<T(==)>(enc: T -> bytes, vals: seq<T>): bytes {
    if vals == [] then []
    else
      var run := RunLength(vals);
      enc(vals[0]) + Uvarint(run) + RunsEncoding(enc, vals[run..])
  }

  /** The decoding loop with `have` values already produced. Its guard adds the
      run length as a wrapped signed word, as the code does; a run the guard lets
      pass is appended value by value, and no slice holds more than MAX_INT. */
  function RunsDecoded<T>(dec: Reader<T>, data: bytes, have: nat, n: nat): (r: Result<seq<T>>)
    requires n <= MAX_SEGMENT_ROWS
    ensures r.Ok? ==> have + |r.value| == n
    decreases if have < n then n - have else 0
  {
    if have >= n then
      if have == n then Ok([]) else Err(Corrupt)
    else
      var (v, rest) :- dec(data);
      var (run, rest') :- ReadWord(rest);
      if run == 0 || AddI64(have, ToI64(run)) > n then Err(Corrupt)
      else if have + run > MAX_INT then Err(OutOfMemory)
      else
        var vs :- RunsDecoded(dec, rest', have + run, n);
        Ok(Repeat(v, run) + vs)
  }

  /** The guard says whether the run overshoots if and only if the sum does not wrap. */
  lemma GuardAgrees(have: nat, run: u64, n: nat)
    requires have < n <= MAX_SEGMENT_ROWS && run > 0
    ensures (AddI64(have, ToI64(run)) > n <==> have + run > n) <==> have + run <= MAX_INT
  {
  }

  /** What the guard and the slice limit make of a pair: an empty run and a run
      that overshoots without wrapping are rejected, one that wraps kills. */
  lemma GuardsAreExact<T>(dec: Reader<T>, data: bytes, have: nat, n: nat)
    requires have < n <= MAX_SEGMENT_ROWS && dec(data).Ok? && ReadWord(dec(data).value.1).Ok?
    ensures var (v, rest) := dec(data).value;
            var (run, rest') := ReadWord(rest).value;
            RunsDecoded(dec, data, have, n) ==
            if have + run > MAX_INT then Err(OutOfMemory)
            else if run == 0 || have + run > n then Err(Corrupt)
            else match RunsDecoded(dec, rest', have + run, n)
                 case Ok(vs) => Ok(Repeat(v, run) + vs)
                 case Err(e) => Err(e)
  {
    var rest := dec(data).value.1;
    var (run, rest') := ReadWord(rest).value;
    if run > 0 {
      GuardAgrees(have, run, n);
    }
  }

  /** Every pair the loop meets keeps the number of values a signed word. */
  ghost predicate RunsBounded<T>(dec: Reader<T>, data: bytes, have: nat, n: nat)
    decreases if have < n then n - have else 0
  {
    have < n ==>
      match dec(data)
      case Err(_) => true
      case Ok(p) =>
        match ReadWord(p.1)
        case Err(_) => true
        case Ok(q) =>
          have + q.0 <= MAX_INT && (0 < q.0 && have + q.0 <= n ==> RunsBounded(dec, q.1, have + q.0, n))
  }

  /** The largest number of values the loop asks its slice to hold. */
  function MostHeld<T>(dec: Reader<T>, data: bytes, have: nat, n: nat): (k: nat)
    requires n <= MAX_SEGMENT_ROWS
    ensures k >= have
    decreases if have < n then n - have else 0
  {
    if have >= n then have
    else
      match dec(data)
      case Err(_) => have
      case Ok(p) =>
        match ReadWord(p.1)
        case Err(_) => have
        case Ok(q) =>
          if q.0 == 0 || AddI64(have, ToI64(q.0)) > n then have
          else MostHeld(dec, q.1, have + q.0, n)
  }

  /** A run-length decoder never holds more than n values, and ends with n values
      or an error, if and only if every pair it meets is bounded; otherwise the
      process dies. */
  lemma {:induction false} RunsOutcome<T(!new)>(dec: Reader<T>, data: bytes, have: nat, n: nat)
    requires have <= n <= MAX_SEGMENT_ROWS && forall d :: dec(d) != Err(OutOfMemory)
    ensures MostHeld(dec, data, have, n) <= n <==> RunsBounded(dec, data, have, n)
    ensures RunsDecoded(dec, data, have, n) == Err(OutOfMemory) <==> !RunsBounded(dec, data, have, n)
    decreases n - have
  {
    hide ReadWord;
    if have < n && dec(data).Ok? {
      WordsSurvive(dec(data).value.1);
      if ReadWord(dec(data).value.1).Ok? {
        var (run, rest') := ReadWord(dec(data).value.1).value;
        if run > 0 {
          GuardAgrees(have, run, n);
          if have + run <= n {
            RunsOutcome(dec, rest', have + run, n);
          }
        }
      }
    }
  }

  lemma WordsSurvive(data: bytes)
    ensures ReadWord(data) != Err(OutOfMemory) && ReadBlob(data) != Err(OutOfMemory)
  {
  }

  /** A value followed by a run of 2^63: the guard adds a negative number. */
  lemma WrappedRunDies<T(!new)>(enc: T -> bytes, dec: Reader<T>, v: T)
    requires Inverts(enc, dec, v)
    ensures RunsDecoded(dec, enc(v) + Uvarint(MAX_INT + 1), 0, 1) == Err(OutOfMemory)
    ensures MostHeld(dec, enc(v) + Uvarint(MAX_INT + 1), 0, 1) == MAX_INT + 1
  {
    hide ReadWord, Uvarint;
    var run := Uvarint(MAX_INT + 1);
    WordInverts(MAX_INT + 1);
    assert run + [] == run;
    assert ReadWord(WordBytes(MAX_INT + 1) + []) == Ok((MAX_INT + 1, []));
    assert dec(enc(v) + run) == Ok((v, run));
  }

  lemma {:induction false} RunsInvert<T(!new)>(enc: T -> bytes, dec: Reader<T>, vals: seq<T>, have: nat, n: nat)
    requires forall i :: 0 <= i < |vals| ==> Inverts(enc, dec, vals[i])
    requires have + |vals| == n <= MAX_SEGMENT_ROWS
    ensures RunsDecoded(dec, RunsEncoding(enc, vals), have, n) == Ok(vals)
    decreases |vals|
  {
    hide *;
    if vals == [] {
      RunsEnd(enc, dec, n);
    } else {
      var run := RunLength(vals);
      assert Inverts(enc, dec, vals[0]);
      RunStep(enc, dec, vals, have, n);
      RunsInvert(enc, dec, vals[run..], have + run, n);
      RunSplit(vals);
    }
  }

  lemma RunSplit<T>(vals: seq<T>)
    requires vals != []
    ensures vals == Repeat(vals[0], RunLength(vals)) + vals[RunLength(vals)..]
  {
  }

  lemma RunsEnd<T>(enc: T -> bytes, dec: Reader<T>, n: nat)
    requires n <= MAX_SEGMENT_ROWS
    ensures RunsDecoded(dec, RunsEncoding(enc, []), n, n) == Ok([])
  {
  }

  lemma RunStep<T(!new)>(enc: T -> bytes, dec: Reader<T>, vals: seq<T>, have: nat, n: nat)
    requires vals != [] && Inverts(enc, dec, vals[0])
    requires have + |vals| <= n <= MAX_SEGMENT_ROWS
    ensures var run := RunLength(vals);
            RunsDecoded(dec, RunsEncoding(enc, vals), have, n) ==
            match RunsDecoded(dec, RunsEncoding(enc, vals[run..]), have + run, n)
            case Ok(vs) => Ok(Repeat(vals[0], run) + vs)
            case Err(e) => Err(e)
  {
    hide ReadWord, Uvarint;
    var run := RunLength(vals);
    var tail := RunsEncoding(enc, vals[run..]);
    var data := RunsEncoding(enc, vals);
    assert data == enc(vals[0]) + (Uvarint(run) + tail);
    WordInverts(run);
    assert ReadWord(WordBytes(run) + tail) == Ok((run, tail));
    GuardsAreExact(dec, data, have, n);
  }

  lemma RunLengthIs<T>(vals: seq<T>, k: nat)
    requires 1 <= k <= |vals|
    requires forall i :: 0 <= i < k ==> vals[i] == vals[0]
    requires k < |vals| ==> vals[k] != vals[0]
    ensures RunLength(vals) == k
  {
  }

  /** The pairs after one more run, for the encoding loops. */
  lemma EncodeRun<T>(enc: T -> bytes, out: bytes, vals: seq<T>, i: nat, j: nat)
    requires i < j <= |vals| && (forall k :: i <= k < j ==> vals[k] == vals[i])
    requires j < |vals| ==> vals[j] != vals[i]
    ensures out + RunsEncoding(enc, vals[i..]) == out + enc(vals[i]) + Uvarint(j - i) + RunsEncoding(enc, vals[j..])
  {
    hide *;
    var rest := vals[i..];
    RunLengthIs(rest, j - i);
    assert rest[j - i..] == vals[j..];
    EncodingOfRun(enc, rest);
    var a, b, c := enc(vals[i]), Uvarint(j - i), RunsEncoding(enc, vals[j..]);
    assert out + (a + b + c) == out + a + b + c;
  }

  lemma EncodingOfRun<T>(enc: T -> bytes, vals: seq<T>)
    requires vals != []
    ensures RunsEncoding(enc, vals)
            == enc(vals[0]) + Uvarint(RunLength(vals)) + RunsEncoding(enc, vals[RunLength(vals)..])
  {
  }

  /** A run-length decoding loop that has produced `done` and stands at pos. */
  ghost predicate RunsProgress<T>(dec: Reader<T>, data: bytes, n: nat, done: seq<T>, pos: nat)
    requires n <= MAX_SEGMENT_ROWS
  {
    && pos <= |data|
    && RunsDecoded(dec, data, 0, n) ==
       match RunsDecoded(dec, data[pos..], |done|, n)
       case Ok(vs) => Ok(done + vs)
       case Err(e) => Err(e)
  }

  lemma RunsStart<T>(dec: Reader<T>, data: bytes, n: nat)
    requires n <= MAX_SEGMENT_ROWS
    ensures RunsProgress(dec, data, n, [], 0)
  {
    assert data[0..] == data;
    var r := RunsDecoded(dec, data, 0, n);
    if r.Ok? {
      assert [] + r.value == r.value;
    }
  }

  /** Reading one pair, as the loop body does it. */
  lemma RunsStep<T>(dec: Reader<T>, data: bytes, n: nat, done: seq<T>, pos: nat)
    requires n <= MAX_SEGMENT_ROWS && RunsProgress(dec, data, n, done, pos) && |done| < n
    ensures match dec(data[pos..])
            case Err(e) => RunsDecoded(dec, data, 0, n) == Err(e)
            case Ok(p) =>
              match ReadWord(p.1)
              case Err(e) => RunsDecoded(dec, data, 0, n) == Err(e)
              case Ok(q) =>
                if q.0 == 0 || AddI64(|done|, ToI64(q.0)) > n then RunsDecoded(dec, data, 0, n) == Err(Corrupt)
                else if |done| + q.0 > MAX_INT then RunsDecoded(dec, data, 0, n) == Err(OutOfMemory)
                else forall next: nat {:trigger data[next..]} :: next <= |data| && q.1 == data[next..]
                       ==> RunsProgress(dec, data, n, done + Repeat(p.0, q.0), next)
  {
    match dec(data[pos..])
    case Err(_) =>
    case Ok(p) =>
      match ReadWord(p.1)
      case Err(_) =>
      case Ok(q) =>
        if q.0 != 0 && AddI64(|done|, ToI64(q.0)) <= n && |done| + q.0 <= MAX_INT {
          var r := RunsDecoded(dec, q.1, |done| + q.0, n);
          if r.Ok? {
            assert done + (Repeat(p.0, q.0) + r.value) == done + Repeat(p.0, q.0) + r.value;
          }
        }
  }

  lemma RunsFinish<T>(dec: Reader<T>, data: bytes, n: nat, done: seq<T>, pos: nat)
    requires n <= MAX_SEGMENT_ROWS && RunsProgress(dec, data, n, done, pos) && |done| >= n
    ensures RunsDecoded(dec, data, 0, n) == if |done| == n then Ok(done) else Err(Corrupt)
  {
    assert done + [] == done;
  }

  /** The inner loop of both run-length decoders, on a run that a slice can hold. */
  method AppendRun<T>(done: seq<T>, v: T, run: nat) returns (out: seq<T>)
    requires |done| + run <= MAX_INT
    ensures out == done + Repeat(v, run)
  {
    out := done;
    var k := 0;
    while k < run
      invariant 0 <= k <= run && out == done + Repeat(v, k)
    {
      out := out + [v];
      assert Repeat(v, k) + [v] == Repeat(v, k + 1);
      k := k + 1;
    }
  }

  /** An encoded list is its values' encodings, one after the other. */
  lemma {:induction false} ListJoin<T>(enc: T -> bytes, a: seq<T>, v: T, b: seq<T>)
    ensures ListEncoding(enc, a + [v] + b) == ListEncoding(enc, a) + enc(v) + ListEncoding(enc, b)
    ensures ListEncoding(enc, []) == []
    decreases |a|
  {
    var all := a + [v] + b;
    if a == [] {
      assert all[1..] == b && all[0] == v;
    } else {
      ListJoin(enc, a[1..], v, b);
      assert all[1..] == a[1..] + [v] + b && all[0] == a[0];
    }
  }
}
