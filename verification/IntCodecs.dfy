/** The integer column codecs and their selector (internal/encoding/ints.go,
    DecodeInts of internal/encoding/encoding.go). */
module IntCodecs {
  import opened Bits
  import opened Wrappers
  import opened Limits
  import opened Varint
  import opened BitPack
  import opened Sorting
  import opened Streams

  const PLAIN: byte := 0
  const VARINT: byte := 1
  const DELTA: byte := 2
  const DELTA_OF_DELTA: byte := 3
  const RLE_INT: byte := 4
  const BITPACK: byte := 5
  const DICT_INT: byte := 6

  // ----- plain -----------------------------------------------------------------

  function PlainBytes(v: u64): bytes {
    LEBytes(v, 8)
  }

  function PlainDecoded(data: bytes, n: nat): (r: Result<seq<u64>>)
    ensures r.Ok? ==> |r.value| == n
  {
    if |data| < n * 8 then Err(Truncated)
    else Ok(seq(n, i requires 0 <= i < n => WordAt(data, i * 8)))
  }

  function WordAt(data: bytes, at: nat): u64
    requires at + 8 <= |data|
  {
    WordBound(data[at..at + 8]);
    LE(data[at..at + 8])
  }

  method EncodePlain(vals: seq<u64>) returns (out: bytes)
    ensures out == ListEncoding(PlainBytes, vals)
  {
    out := [];
    var i := 0;
    while i < |vals|
      invariant i <= |vals| && out + ListEncoding(PlainBytes, vals[i..]) == ListEncoding(PlainBytes, vals)
    {
      ListStep(PlainBytes, out, vals, i);
      out := out + LEBytes(vals[i], 8);
      i := i + 1;
    }
  }

  method DecodePlain(data: bytes, n: nat) returns (r: Result<seq<u64>>)
    ensures r == PlainDecoded(data, n)
  {
    if |data| < n * 8 {
      return Err(Truncated);
    }
    var out: seq<u64> := [];
    var i := 0;
    while i < n
      invariant i <= n == i + (n - i) && |out| == i
      invariant forall k :: 0 <= k < i ==> out[k] == WordAt(data, k * 8)
    {
      out := out + [WordAt(data, i * 8)];
      i := i + 1;
    }
    assert out == PlainDecoded(data, n).value;
    return Ok(out);
  }

  lemma {:induction false} PlainAt(vals: seq<u64>, i: nat)
    requires i < |vals|
    ensures |ListEncoding(PlainBytes, vals)| == 8 * |vals|
    ensures WordAt(ListEncoding(PlainBytes, vals), i * 8) == vals[i]
    decreases |vals|
  {
    var data := ListEncoding(PlainBytes, vals);
    if |vals| > 1 {
      PlainAt(vals[1..], if i == 0 then 0 else i - 1);
    }
    if i == 0 {
      assert data[0..8] == LEBytes(vals[0], 8);
      LEWord(vals[0]);
    } else {
      var tail := ListEncoding(PlainBytes, vals[1..]);
      assert data[i * 8..i * 8 + 8] == tail[(i - 1) * 8..(i - 1) * 8 + 8];
    }
  }

  lemma PlainRoundTrip(vals: seq<u64>)
    ensures |ListEncoding(PlainBytes, vals)| == 8 * |vals|
    ensures PlainDecoded(ListEncoding(PlainBytes, vals), |vals|) == Ok(vals)
  {
    var data := ListEncoding(PlainBytes, vals);
    if vals != [] {
      PlainAt(vals, 0);
    }
    forall i | 0 <= i < |vals|
      ensures 8 * i + 8 <= |data| && WordAt(data, i * 8) == vals[i]
    {
      PlainAt(vals, i);
    }
    assert PlainDecoded(data, |vals|).value == vals;
  }

  // ----- varint ------------------------------------------------------------------

  function VarintDecoded(data: bytes, n: nat): (r: Result<seq<u64>>)
    ensures r.Ok? ==> |r.value| == n
  {
    var (vals, _) :- ListDecoded(ReadWord, data, n);
    Ok(vals)
  }

  method EncodeVarint(vals: seq<u64>) returns (out: bytes)
    ensures out == ListEncoding(WordBytes, vals)
  {
    out := [];
    var i := 0;
    while i < |vals|
      invariant i <= |vals| && out + ListEncoding(WordBytes, vals[i..]) == ListEncoding(WordBytes, vals)
    {
      ListStep(WordBytes, out, vals, i);
      out := out + Uvarint(vals[i]);
      i := i + 1;
    }
  }

  method DecodeVarint(data: bytes, n: nat) returns (r: Result<seq<u64>>)
    ensures r == VarintDecoded(data, n)
  {
    hide ListDecoded, ReadWord, Progress;
    var out: seq<u64> := [];
    var pos: nat := 0;
    ProgressStart(ReadWord, data, n);
    while |out| < n
      invariant pos <= |data| && |out| <= n && Progress(ReadWord, data, n, out, pos)
    {
      ProgressStep(ReadWord, data, n, out, pos);
      var v, m := UvarintAt(data, pos);
      if m <= 0 {
        return Err(Truncated);
      }
      out := out + [v];
      pos := pos + m;
    }
    ProgressEnd(ReadWord, data, n, out, pos);
    return Ok(out);
  }

  lemma VarintRoundTrip(vals: seq<u64>)
    ensures VarintDecoded(ListEncoding(WordBytes, vals), |vals|) == Ok(vals)
  {
    forall i | 0 <= i < |vals|
      ensures Inverts(WordBytes, ReadWord, vals[i])
    {
      WordInverts(vals[i]);
    }
    ListInverts(WordBytes, ReadWord, vals, []);
    assert ListEncoding(WordBytes, vals) + [] == ListEncoding(WordBytes, vals);
  }

  // ----- delta -------------------------------------------------------------------

  /** int64(vals[i]) - int64(vals[i-1]), wrapping. */
  function Step(vals: seq<u64>, i: nat): i64
    requires 1 <= i < |vals|
  {
    SubI64(ToI64(vals[i]), ToI64(vals[i - 1]))
  }

  function DeltaWord(vals: seq<u64>, i: nat): u64
    requires i < |vals|
  {
    if i == 0 then vals[0] else ZigZag(Step(vals, i))
  }

  function Deltas(vals: seq<u64>): (ds: seq<u64>)
    ensures |ds| == |vals|
  {
    seq(|vals|, i requires 0 <= i < |vals| => DeltaWord(vals, i))
  }

  /** uint64(int64(prev) + UnZigZag(z)). */
  function AddDelta(prev: u64, d: i64): u64 {
    ToU64(AddI64(ToI64(prev), d))
  }

  function Undelta(ds: seq<u64>): (vals: seq<u64>)
    ensures |vals| == |ds|
  {
    if |ds| <= 1 then ds
    else
      var init := Undelta(ds[..|ds| - 1]);
      init + [AddDelta(init[|init| - 1], UnZigZag(ds[|ds| - 1]))]
  }

  lemma UndeltaStep(ds: seq<u64>, z: u64)
    ensures ds == [] ==> Undelta(ds + [z]) == [z]
    ensures ds != [] ==> Undelta(ds + [z]) == Undelta(ds) + [AddDelta(Undelta(ds)[|ds| - 1], UnZigZag(z))]
  {
    hide AddDelta, UnZigZag;
    assert (ds + [z])[..|ds|] == ds;
  }

  function DeltaDecoded(data: bytes, n: nat): (r: Result<seq<u64>>)
    ensures r.Ok? ==> |r.value| == n
  {
    var ds :- VarintDecoded(data, n);
    Ok(Undelta(ds))
  }

  lemma {:induction false} UndeltaInverts(vals: seq<u64>)
    ensures Undelta(Deltas(vals)) == vals
  {
    hide ZigZag, UnZigZag, ToI64, ToU64, AddI64, SubI64;
    if |vals| > 1 {
      var last := |vals| - 1;
      assert Deltas(vals)[..last] == Deltas(vals[..last]);
      UndeltaInverts(vals[..last]);
      ZigZagBijection(Step(vals, last), 0);
      DeltaInverts(vals[last - 1], vals[last]);
    }
  }

  lemma DeltaRoundTrip(vals: seq<u64>)
    ensures DeltaDecoded(ListEncoding(WordBytes, Deltas(vals)), |vals|) == Ok(vals)
  {
    VarintRoundTrip(Deltas(vals));
    UndeltaInverts(vals);
  }

  method EncodeDelta(vals: seq<u64>) returns (out: bytes)
    ensures out == ListEncoding(WordBytes, Deltas(vals))
  {
    hide ZigZag, ListEncoding;
    ghost var ds := Deltas(vals);
    if |vals| == 0 {
      NoElementsEncoded();
      return [];
    }
    ListFirst(ds);
    out := Uvarint(vals[0]);
    var i := 1;
    while i < |vals|
      invariant 1 <= i <= |vals| && out + ListEncoding(WordBytes, ds[i..]) == ListEncoding(WordBytes, ds)
    {
      var d := SubI64(ToI64(vals[i]), ToI64(vals[i - 1]));
      ListStep(WordBytes, out, ds, i);
      out := out + Uvarint(ZigZag(d));
      i := i + 1;
    }
    assert ds[i..] == [];
    NoElementsEncoded();
  }

  lemma NoElementsEncoded()
    ensures ListEncoding(WordBytes, []) == []
  {
  }

  lemma ListFirst(ds: seq<u64>)
    requires ds != []
    ensures Uvarint(ds[0]) + ListEncoding(WordBytes, ds[1..]) == ListEncoding(WordBytes, ds)
  {
  }

  method DecodeDelta(data: bytes, n: nat) returns (r: Result<seq<u64>>)
    ensures r == DeltaDecoded(data, n)
  {
    hide ListDecoded, ReadWord, Progress, UnZigZag, AddDelta, Undelta;
    var out: seq<u64> := [];
    ghost var ds: seq<u64> := [];
    ProgressStart(ReadWord, data, n);
    if n == 0 {
      ProgressEnd(ReadWord, data, n, ds, 0);
      assert Undelta([]) == [];
      return Ok(out);
    }
    ProgressStep(ReadWord, data, n, ds, 0);
    var first, m := UvarintAt(data, 0);
    if m <= 0 {
      return Err(Truncated);
    }
    var pos: nat := m;
    out := [first];
    UndeltaStep([], first);
    assert ds + [first] == [first];
    ds := [first];
    while |out| < n
      invariant pos <= |data| && 1 <= |out| == |ds| <= n && out == Undelta(ds)
      invariant Progress(ReadWord, data, n, ds, pos)
    {
      ProgressStep(ReadWord, data, n, ds, pos);
      var z, k := UvarintAt(data, pos);
      if k <= 0 {
        return Err(Truncated);
      }
      pos := pos + k;
      out := out + [AddDelta(out[|out| - 1], UnZigZag(z))];
      UndeltaStep(ds, z);
      ds := ds + [z];
    }
    ProgressEnd(ReadWord, data, n, ds, pos);
    return Ok(out);
  }

  // ----- delta of delta ------------------------------------------------------------

  function SecondDeltaWord(vals: seq<u64>, i: nat): u64
    requires i < |vals|
  {
    if i <= 1 then DeltaWord(vals, i) else ZigZag(SubI64(Step(vals, i), Step(vals, i - 1)))
  }

  function SecondDeltas(vals: seq<u64>): (ds: seq<u64>)
    ensures |ds| == |vals|
  {
    seq(|vals|, i requires 0 <= i < |vals| => SecondDeltaWord(vals, i))
  }

  /** The values restored from second-order words, and the delta in force. */
  function UndoSecond(ds: seq<u64>): (r: (seq<u64>, i64))
    ensures |r.0| == |ds|
  {
    if |ds| <= 1 then (ds, 0)
    else
      var (init, prevDelta) := UndoSecond(ds[..|ds| - 1]);
      var d := if |ds| == 2 then UnZigZag(ds[1]) else AddI64(prevDelta, UnZigZag(ds[|ds| - 1]));
      (init + [AddDelta(init[|init| - 1], d)], d)
  }

  function DeltaOfDeltaDecoded(data: bytes, n: nat): (r: Result<seq<u64>>)
    ensures r.Ok? ==> |r.value| == n
  {
    var ds :- VarintDecoded(data, n);
    Ok(UndoSecond(ds).0)
  }

  lemma {:induction false} UndoSecondInverts(vals: seq<u64>)
    ensures UndoSecond(SecondDeltas(vals)).0 == vals
    ensures |vals| > 1 ==> UndoSecond(SecondDeltas(vals)).1 == Step(vals, |vals| - 1)
  {
    hide ZigZag, UnZigZag, AddI64, SubI64, ToU64, ToI64;
    if |vals| > 1 {
      var last := |vals| - 1;
      var ds := SecondDeltas(vals);
      assert ds[..last] == SecondDeltas(vals[..last]);
      UndoSecondInverts(vals[..last]);
      var d := Step(vals, last);
      assert vals == vals[..last] + [vals[last]];
      DeltaInverts(vals[last - 1], vals[last]);
      assert AddDelta(vals[last - 1], d) == vals[last];
      if last == 1 {
        ZigZagBijection(d, 0);
      } else {
        var prevDelta := Step(vals, last - 1);
        assert prevDelta == Step(vals[..last], last - 1);
        ZigZagBijection(SubI64(d, prevDelta), 0);
        DeltaOfDeltaInverts(d, prevDelta);
      }
    }
  }

  lemma DeltaOfDeltaRoundTrip(vals: seq<u64>)
    ensures DeltaOfDeltaDecoded(ListEncoding(WordBytes, SecondDeltas(vals)), |vals|) == Ok(vals)
  {
    VarintRoundTrip(SecondDeltas(vals));
    UndoSecondInverts(vals);
  }

  method EncodeDoD(vals: seq<u64>) returns (out: bytes)
    ensures out == ListEncoding(WordBytes, SecondDeltas(vals))
  {
    hide ZigZag, ListEncoding;
    ghost var ds := SecondDeltas(vals);
    NoElementsEncoded();
    if |vals| == 0 {
      return [];
    }
    ListFirst(ds);
    out := Uvarint(vals[0]);
    if |vals| == 1 {
      assert ds[1..] == [];
      return;
    }
    var prevDelta := SubI64(ToI64(vals[1]), ToI64(vals[0]));
    ListStep(WordBytes, out, ds, 1);
    out := out + Uvarint(ZigZag(prevDelta));
    var i := 2;
    while i < |vals|
      invariant 2 <= i <= |vals| && out + ListEncoding(WordBytes, ds[i..]) == ListEncoding(WordBytes, ds)
      invariant prevDelta == Step(vals, i - 1)
    {
      var d := SubI64(ToI64(vals[i]), ToI64(vals[i - 1]));
      ListStep(WordBytes, out, ds, i);
      out := out + Uvarint(ZigZag(SubI64(d, prevDelta)));
      prevDelta := d;
      i := i + 1;
    }
    assert ds[i..] == [];
  }

  method DecodeDoD(data: bytes, n: nat) returns (r: Result<seq<u64>>)
    ensures r == DeltaOfDeltaDecoded(data, n)
  {
    hide ListDecoded, ReadWord, Progress, UnZigZag, AddDelta, AddI64;
    var out: seq<u64> := [];
    ghost var ds: seq<u64> := [];
    ProgressStart(ReadWord, data, n);
    if n == 0 {
      ProgressEnd(ReadWord, data, n, ds, 0);
      return Ok(out);
    }
    ProgressStep(ReadWord, data, n, ds, 0);
    var first, m := UvarintAt(data, 0);
    if m <= 0 {
      return Err(Truncated);
    }
    var pos: nat := m;
    out := [first];
    assert ds + [first] == [first];
    ds := [first];
    if n == 1 {
      ProgressEnd(ReadWord, data, n, ds, pos);
      return Ok(out);
    }
    ProgressStep(ReadWord, data, n, ds, pos);
    var z1, m1 := UvarintAt(data, pos);
    if m1 <= 0 {
      return Err(Truncated);
    }
    pos := pos + m1;
    var prevDelta := UnZigZag(z1);
    out := out + [AddDelta(out[0], prevDelta)];
    assert (ds + [z1])[..1] == ds;
    ds := ds + [z1];
    assert ds[..1] == [first];
    while |out| < n
      invariant pos <= |data| && 2 <= |out| == |ds| <= n && (out, prevDelta) == UndoSecond(ds)
      invariant Progress(ReadWord, data, n, ds, pos)
    {
      ProgressStep(ReadWord, data, n, ds, pos);
      var z, k := UvarintAt(data, pos);
      if k <= 0 {
        return Err(Truncated);
      }
      pos := pos + k;
      prevDelta := AddI64(prevDelta, UnZigZag(z));
      out := out + [AddDelta(out[|out| - 1], prevDelta)];
      assert (ds + [z])[..|ds|] == ds;
      ds := ds + [z];
    }
    ProgressEnd(ReadWord, data, n, ds, pos);
    return Ok(out);
  }

  // ----- run length ------------------------------------------------------------------

  function RLEDecoded(data: bytes, n: nat): (r: Result<seq<u64>>)
    requires n <= MAX_SEGMENT_ROWS
    ensures r.Ok? ==> |r.value| == n
  {
    RunsDecoded(ReadWord, data, 0, n)
  }

  method EncodeRLEInt(vals: seq<u64>) returns (out: bytes)
    ensures out == RunsEncoding(WordBytes, vals)
  {
    hide Uvarint, RunLength;
    out := [];
    var i := 0;
    while i < |vals|
      invariant 0 <= i <= |vals| && out + RunsEncoding(WordBytes, vals[i..]) == RunsEncoding(WordBytes, vals)
    {
      var j := i + 1;
      while j < |vals| && vals[j] == vals[i]
        invariant i < j <= |vals| && forall k :: i <= k < j ==> vals[k] == vals[i]
      {
        j := j + 1;
      }
      EncodeRun(WordBytes, out, vals, i, j);
      out := out + Uvarint(vals[i]);
      out := out + Uvarint(j - i);
      i := j;
    }
  }

  method DecodeRLEInt(data: bytes, n: nat) returns (r: Result<seq<u64>>)
    requires n <= MAX_SEGMENT_ROWS
    ensures r == RLEDecoded(data, n)
  {
    hide RunsDecoded, ReadWord, RunsProgress;
    var out: seq<u64> := [];
    var pos: nat := 0;
    RunsStart(ReadWord, data, n);
    while |out| < n
      invariant pos <= |data| && RunsProgress(ReadWord, data, n, out, pos)
      decreases if |out| < n then n - |out| else 0
    {
      RunsStep(ReadWord, data, n, out, pos);
      var v, m := UvarintAt(data, pos);
      if m <= 0 {
        return Err(Truncated);
      }
      pos := pos + m;
      var run, k := UvarintAt(data, pos);
      if k <= 0 {
        return Err(Truncated);
      }
      pos := pos + k;
      if run == 0 || AddI64(|out|, ToI64(run)) > n {
        return Err(Corrupt);
      }
      if |out| + run > MAX_INT {
        return Err(OutOfMemory);
      }
      out := AppendRun(out, v, run);
    }
    RunsFinish(ReadWord, data, n, out, pos);
    if |out| != n {
      return Err(Corrupt);
    }
    return Ok(out);
  }

  lemma RLERoundTrip(vals: seq<u64>)
    requires |vals| <= MAX_SEGMENT_ROWS
    ensures RLEDecoded(RunsEncoding(WordBytes, vals), |vals|) == Ok(vals)
  {
    forall i | 0 <= i < |vals|
      ensures Inverts(WordBytes, ReadWord, vals[i])
    {
      WordInverts(vals[i]);
    }
    RunsInvert(WordBytes, ReadWord, vals, 0, |vals|);
  }

  /** n values, an error, or, if and only if some pair is not bounded, death. */
  lemma RLEOutcome(data: bytes, n: nat)
    requires n <= MAX_SEGMENT_ROWS
    ensures RLEDecoded(data, n) == Err(OutOfMemory) <==> !RunsBounded(ReadWord, data, 0, n)
    ensures MostHeld(ReadWord, data, 0, n) <= n <==> RunsBounded(ReadWord, data, 0, n)
  {
    hide ReadWord;
    forall d
      ensures ReadWord(d) != Err(OutOfMemory)
    {
      WordsSurvive(d);
    }
    RunsOutcome(ReadWord, data, 0, n);
  }

  /** It happens for one row and any value with a run of 2^63. */
  lemma WrappedRun(v: u64)
    ensures RLEDecoded(Uvarint(v) + Uvarint(MAX_INT + 1), 1) == Err(OutOfMemory)
  {
    hide ReadWord, Uvarint;
    WordInverts(v);
    WrappedRunDies(WordBytes, ReadWord, v);
  }

  // ----- frame of reference ------------------------------------------------------------

  function Residuals(vals: seq<u64>, min: u64): (rs: seq<u64>)
    requires forall i :: 0 <= i < |vals| ==> min <= vals[i]
    ensures |rs| == |vals|
  {
    seq(|vals|, i requires 0 <= i < |vals| => vals[i] - min)
  }

  function BitpackEncoding(vals: seq<u64>, min: u64, max: u64): bytes
    requires min <= max && forall i :: 0 <= i < |vals| ==> min <= vals[i]
  {
    WidthOf64(max - min);
    var width := Width(max - min);
    Uvarint(min) + ([width] + PackedRegion(Residuals(vals, min), width))
  }

  function AddMin(rs: seq<u64>, min: u64): (vals: seq<u64>)
    ensures |vals| == |rs|
  {
    seq(|rs|, i requires 0 <= i < |rs| => (rs[i] + min) % TWO64)
  }

  function BitpackDecoded(data: bytes, n: nat): (r: Result<seq<u64>>)
    ensures r.Ok? ==> |r.value| == n
  {
    var (min, rest) :- ReadWord(data);
    if rest == [] then Err(Truncated)
    else if rest[0] > 64 then Err(Corrupt)
    else
      var rs :- Unpacked(rest[1..], n, rest[0]);
      Ok(AddMin(rs, min))
  }

  lemma BitpackRoundTrip(vals: seq<u64>, min: u64, max: u64)
    requires min <= max && forall i :: 0 <= i < |vals| ==> min <= vals[i] <= max
    ensures BitpackDecoded(BitpackEncoding(vals, min, max), |vals|) == Ok(vals)
  {
    hide Uvarint, ReadWord, Unpacked, PackedRegion, Pow2, Width;
    var width := Width(max - min);
    WidthOf64(max - min);
    var rs := Residuals(vals, min);
    UnpackInverts(rs, width);
    var rest := [width] + PackedRegion(rs, width);
    WordInverts(min);
    assert ReadWord(WordBytes(min) + rest) == Ok((min, rest));
    assert rest[1..] == PackedRegion(rs, width);
    assert AddMin(rs, min) == vals;
  }

  method EncodeBitpack(vals: seq<u64>, min: u64, max: u64) returns (out: bytes)
    requires min <= max && forall i :: 0 <= i < |vals| ==> min <= vals[i]
    ensures out == BitpackEncoding(vals, min, max)
  {
    hide Uvarint, PackedRegion, Pow2, Width;
    WidthOf64(max - min);
    var width := MinWidth(max - min);
    out := Uvarint(min);
    out := out + [width];
    if width == 0 {
      EmptyRegion(Residuals(vals, min));
      return;
    }
    var res: seq<u64> := [];
    var i := 0;
    while i < |vals|
      invariant 0 <= i <= |vals| && |res| == i
      invariant forall k :: 0 <= k < i ==> res[k] == vals[k] - min
    {
      res := res + [vals[i] - min];
      i := i + 1;
    }
    assert res == Residuals(vals, min);
    out := AppendPacked(out, res, width);
  }

  method DecodeBitpack(data: bytes, n: nat) returns (r: Result<seq<u64>>)
    ensures r == BitpackDecoded(data, n)
  {
    hide ReadWord, Unpacked;
    assert data[0..] == data;
    var minv, m := UvarintAt(data, 0);
    if m <= 0 {
      return Err(Truncated);
    }
    var pos: nat := m;
    if pos >= |data| {
      return Err(Truncated);
    }
    var width := data[pos];
    assert data[pos..][1..] == data[pos + 1..];
    pos := pos + 1;
    if width > 64 {
      return Err(Corrupt);
    }
    var out := new u64[n];
    var res := UnpackInto(out, data[pos..], width);
    if res.Fail? {
      return Err(res.error);
    }
    ghost var rs := out[..];
    var i := 0;
    while i < n
      invariant 0 <= i <= n
      invariant forall k :: 0 <= k < i ==> out[k] == (rs[k] + minv) % TWO64
      invariant forall k :: i <= k < n ==> out[k] == rs[k]
    {
      out[i] := (out[i] + minv) % TWO64;
      i := i + 1;
    }
    assert out[..] == AddMin(rs, minv);
    return Ok(out[..]);
  }

  // ----- what delta words are -----------------------------------------------------------

  function Difference(x: int, y: int): int {
    x - y
  }

  function SecondDifference(x: int, y: int, z: int): int {
    (x - y) - (y - z)
  }

  /** Read as signed numbers, delta words are the differences of neighbours, and
      delta-of-delta words the differences of those, modulo 2^64. */
  lemma DeltasAre(vals: seq<u64>, i: nat)
    requires i < |vals|
    ensures i == 0 ==> Deltas(vals)[0] == SecondDeltas(vals)[0] == vals[0]
    ensures i >= 1 ==> StandsFor(Deltas(vals)[i], Difference(vals[i], vals[i - 1]))
    ensures i == 1 ==> SecondDeltas(vals)[1] == Deltas(vals)[1]
    ensures i >= 2 ==> StandsFor(SecondDeltas(vals)[i], SecondDifference(vals[i], vals[i - 1], vals[i - 2]))
  {
    hide ZigZag, UnZigZag, SubI64, SameWord;
    if i >= 1 {
      ZigZagBijection(Step(vals, i), 0);
      StepIs(vals, i);
    }
    if i >= 2 {
      var a, b := Step(vals, i), Step(vals, i - 1);
      ZigZagBijection(SubI64(a, b), 0);
      StepIs(vals, i - 1);
      SubIs(a, b);
      var x: int, y: int, z: int := vals[i], vals[i - 1], vals[i - 2];
      SameDifference(a, x - y, b, y - z);
      SameTwice(SubI64(a, b), Difference(a, b), (x - y) - (y - z));
    }
  }

  /** The word, read as a signed number, is the difference. */
  predicate StandsFor(w: u64, d: int) {
    SameWord(UnZigZag(w), d)
  }

  /** Equal modulo 2^64. */
  predicate SameWord(x: int, y: int) {
    x % TWO64 == y % TWO64
  }

  lemma SameTwice(x: int, y: int, z: int)
    requires SameWord(x, y) && SameWord(y, z)
    ensures SameWord(x, z)
  {
  }

  lemma SubIs(a: i64, b: i64)
    ensures SameWord(SubI64(a, b), Difference(a, b))
  {
  }

  lemma SignIs(v: u64)
    ensures SameWord(ToI64(v), v)
  {
  }

  lemma StepIs(vals: seq<u64>, i: nat)
    requires 1 <= i < |vals|
    ensures SameWord(Step(vals, i), Difference(vals[i], vals[i - 1]))
  {
    hide ToI64, SubI64, SameWord;
    var a, b := ToI64(vals[i]), ToI64(vals[i - 1]);
    SignIs(vals[i]);
    SignIs(vals[i - 1]);
    SubIs(a, b);
    SameDifference(a, vals[i], b, vals[i - 1]);
    SameTwice(SubI64(a, b), Difference(a, b), Difference(vals[i], vals[i - 1]));
  }

  lemma SameDifference(a: int, a': int, b: int, b': int)
    requires SameWord(a, a') && SameWord(b, b')
    ensures SameWord(a - b, a' - b')
  {
    var x, y := a - b, a' - b';
    var ka, kb := a / TWO64 - a' / TWO64, b / TWO64 - b' / TWO64;
    assert a == a' + ka * TWO64 && b == b' + kb * TWO64;
    DivModUnique(x, TWO64, y / TWO64 + ka - kb, y % TWO64);
  }
}
