/** The byte column codecs, their selector and decoder dispatch
    (internal/encoding/bytes.go, DecodeBytes of internal/encoding/encoding.go). */
module ByteCodecs {
  import opened Bits
  import opened Wrappers
  import opened Limits
  import opened Varint
  import opened BitPack
  import opened Sorting
  import opened Streams
  import opened Dictionaries
  import opened Selection

  const RAW: byte := 64
  const DICT_BYTES: byte := 65
  const RLE_BYTES: byte := 66

  /** A value a decoder accepts. */
  predicate Fits(v: bytes) {
    |v| <= MAX_BYTES_VALUE
  }

  predicate AllFit(vals: seq<bytes>) {
    forall i :: 0 <= i < |vals| ==> Fits(vals[i])
  }

  /** Lengths are Go ints. */
  predicate AllInts(vals: seq<bytes>) {
    forall i :: 0 <= i < |vals| ==> |vals[i]| < TWO64
  }

  // ----- raw ---------------------------------------------------------------------

  function RawDecoded(data: bytes, n: nat): (r: Result<seq<bytes>>)
    ensures r.Ok? ==> |r.value| == n
  {
    var (vals, _) :- ListDecoded(ReadBlob, data, n);
    Ok(vals)
  }

  method EncodeRaw(vals: seq<bytes>) returns (out: bytes)
    ensures out == ListEncoding(BlobBytes, vals)
  {
    out := [];
    var i := 0;
    while i < |vals|
      invariant 0 <= i <= |vals| && out + ListEncoding(BlobBytes, vals[i..]) == ListEncoding(BlobBytes, vals)
    {
      ListStep(BlobBytes, out, vals, i);
      assert out + BlobBytes(vals[i]) == out + Uvarint(|vals[i]|) + vals[i];
      out := out + Uvarint(|vals[i]|);
      out := out + vals[i];
      i := i + 1;
    }
  }

  /** One length-prefixed value at pos, with the decoders' checks in their order. */
  method BlobAt(data: bytes, pos: nat) returns (r: Result<bytes>, next: nat)
    requires pos <= |data|
    ensures pos <= next <= |data|
    ensures match r
            case Ok(v) => ReadBlob(data[pos..]) == Ok((v, data[next..]))
            case Err(e) => ReadBlob(data[pos..]) == Err(e)
  {
    hide ReadWord;
    next := pos;
    var l, m := UvarintAt(data, pos);
    if m <= 0 {
      return Err(Truncated), next;
    }
    next := pos + m;
    if l > MAX_BYTES_VALUE {
      return Err(LimitExceeded), next;
    }
    if next + l > |data| {
      return Err(Truncated), next;
    }
    r := Ok(data[next..next + l]);
    assert data[next..][..l] == data[next..next + l];
    assert data[next..][l..] == data[next + l..];
    next := next + l;
  }

  method DecodeRaw(data: bytes, n: nat) returns (r: Result<seq<bytes>>)
    ensures r == RawDecoded(data, n)
  {
    hide ListDecoded, ReadBlob, Progress;
    var out: seq<bytes> := [];
    var pos: nat := 0;
    ProgressStart(ReadBlob, data, n);
    while |out| < n
      invariant pos <= |data| && |out| <= n && Progress(ReadBlob, data, n, out, pos)
    {
      ProgressStep(ReadBlob, data, n, out, pos);
      var v, next := BlobAt(data, pos);
      if v.Err? {
        return Err(v.error);
      }
      out := out + [v.value];
      pos := next;
    }
    ProgressEnd(ReadBlob, data, n, out, pos);
    return Ok(out);
  }

  lemma RawRoundTrip(vals: seq<bytes>)
    requires AllFit(vals)
    ensures RawDecoded(ListEncoding(BlobBytes, vals), |vals|) == Ok(vals)
  {
    forall i | 0 <= i < |vals|
      ensures Inverts(BlobBytes, ReadBlob, vals[i])
    {
      assert Fits(vals[i]);
      BlobInverts(vals[i]);
    }
    ListInverts(BlobBytes, ReadBlob, vals, []);
    assert ListEncoding(BlobBytes, vals) + [] == ListEncoding(BlobBytes, vals);
  }

  /** An oversized value cannot be read back. */
  lemma OversizedFails(v: bytes, rest: bytes)
    requires !Fits(v) && |v| < TWO64
    ensures ReadBlob(BlobBytes(v) + rest) == Err(LimitExceeded)
  {
    WordInverts(|v|);
    assert BlobBytes(v) + rest == WordBytes(|v|) + (v + rest);
    assert ReadWord(WordBytes(|v|) + (v + rest)) == Ok((|v|, v + rest));
  }

  lemma {:induction false} RawFails(vals: seq<bytes>)
    requires AllInts(vals) && !AllFit(vals)
    ensures RawDecoded(ListEncoding(BlobBytes, vals), |vals|) == Err(LimitExceeded)
  {
    hide ReadBlob, BlobBytes;
    var tail := ListEncoding(BlobBytes, vals[1..]);
    assert ListEncoding(BlobBytes, vals) == BlobBytes(vals[0]) + tail;
    if !Fits(vals[0]) {
      OversizedFails(vals[0], tail);
    } else {
      BlobInverts(vals[0]);
      assert ReadBlob(BlobBytes(vals[0]) + tail) == Ok((vals[0], tail));
      assert !AllFit(vals[1..]) by {
        var i :| 0 <= i < |vals| && !Fits(vals[i]);
        assert !Fits(vals[1..][i - 1]);
      }
      RawFails(vals[1..]);
    }
  }

  // ----- dictionary ----------------------------------------------------------------

  function TotalLen(vals: seq<bytes>): nat {
    if vals == [] then 0 else |vals[0]| + TotalLen(vals[1..])
  }

  /** The value table, with the running total against the table limit. */
  function ValueTableDecoded(data: bytes, k: nat, total: nat): (r: Result<(seq<bytes>, bytes)>)
    ensures r.Ok? ==> |r.value.0| == k
    decreases k
  {
    if k == 0 then Ok(([], data))
    else
      var (l, rest) :- ReadWord(data);
      if l > MAX_BYTES_VALUE then Err(LimitExceeded)
      else if total + l > MAX_STRING_TABLE_BYTES then Err(LimitExceeded)
      else if l > |rest| then Err(Truncated)
      else
        var (vs, end) :- ValueTableDecoded(rest[l..], k - 1, total + l);
        Ok(([rest[..l]] + vs, end))
  }

  /** One table entry: it is read if and only if it and the total are in bounds. */
  lemma TableEntry(v: bytes, rest: bytes, k: nat, total: nat)
    requires k > 0 && |v| < TWO64
    ensures ValueTableDecoded(BlobBytes(v) + rest, k, total) ==
            if Fits(v) && total + |v| <= MAX_STRING_TABLE_BYTES then
              match ValueTableDecoded(rest, k - 1, total + |v|)
              case Ok(p) => Ok(([v] + p.0, p.1))
              case Err(e) => Err(e)
            else Err(LimitExceeded)
  {
    hide ReadWord;
    WordInverts(|v|);
    assert BlobBytes(v) + rest == WordBytes(|v|) + (v + rest);
    assert ReadWord(WordBytes(|v|) + (v + rest)) == Ok((|v|, v + rest));
    assert (v + rest)[..|v|] == v && (v + rest)[|v|..] == rest;
  }

  lemma {:induction false} ValueTableInverts(table: seq<bytes>, rest: bytes, total: nat)
    requires AllInts(table) && total <= MAX_STRING_TABLE_BYTES
    ensures var r := ValueTableDecoded(ListEncoding(BlobBytes, table) + rest, |table|, total);
            if AllFit(table) && total + TotalLen(table) <= MAX_STRING_TABLE_BYTES then r == Ok((table, rest))
            else r == Err(LimitExceeded)
    decreases |table|
  {
    hide BlobBytes, ReadWord;
    if table == [] {
      assert ListEncoding(BlobBytes, table) + rest == rest;
    } else {
      hide ValueTableDecoded;
      var v, ts := table[0], table[1..];
      var tail := ListEncoding(BlobBytes, ts) + rest;
      assert ListEncoding(BlobBytes, table) + rest == BlobBytes(v) + tail;
      TableEntry(v, tail, |table|, total);
      assert table == [v] + ts;
      assert AllFit(table) <==> Fits(v) && AllFit(ts);
      if Fits(v) && total + |v| <= MAX_STRING_TABLE_BYTES {
        ValueTableInverts(ts, rest, total + |v|);
      }
    }
  }

  function DictEncoding(vals: seq<bytes>): bytes
    requires vals != [] && |vals| <= MAX_INT
  {
    BytesOrder();
    TableIs<bytes>(BytesLess, vals);
    var table := Table<bytes>(BytesLess, vals);
    Uvarint(|table|) + (ListEncoding(BlobBytes, table) + OrdinalsEncoding(table, vals))
  }

  function DictDecoded(data: bytes, n: nat): (r: Result<seq<bytes>>)
    ensures r.Ok? ==> |r.value| == n
  {
    var (dictLen, rest) :- ReadWord(data);
    if CheckCount(dictLen, MAX_DICT_ENTRIES).Fail? then Err(LimitExceeded)
    else
      var (table, tail) :- ValueTableDecoded(rest, dictLen, 0);
      OrdinalsDecoded(table, tail, n)
  }

  /** Decoding restores the values if and only if every value and the whole
      table are within the decoder's limits. */
  lemma DictRoundTrip(vals: seq<bytes>)
    requires vals != [] && |vals| <= MAX_SEGMENT_ROWS && AllInts(vals)
    ensures var r := DictDecoded(DictEncoding(vals), |vals|);
            if AllFit(vals) && TotalLen(Table<bytes>(BytesLess, vals)) <= MAX_STRING_TABLE_BYTES then r == Ok(vals)
            else r == Err(LimitExceeded)
  {
    hide Uvarint, ReadWord, ListEncoding, ValueTableDecoded, OrdinalsEncoding, OrdinalsDecoded, Table, TotalLen;
    BytesOrder();
    TableIs<bytes>(BytesLess, vals);
    var table := Table<bytes>(BytesLess, vals);
    TableSameSizes(vals, table);
    var ords := OrdinalsEncoding(table, vals);
    var body := ListEncoding(BlobBytes, table) + ords;
    WordInverts(|table|);
    assert ReadWord(WordBytes(|table|) + body) == Ok((|table|, body));
    ValueTableInverts(table, ords, 0);
    OrdinalsInvert(table, vals);
  }

  lemma TableSameSizes(vals: seq<bytes>, table: seq<bytes>)
    requires Elements(table) == Elements(vals)
    ensures AllFit(vals) <==> AllFit(table)
    ensures AllInts(vals) ==> AllInts(table)
  {
    forall i | 0 <= i < |vals|
      ensures exists j :: 0 <= j < |table| && table[j] == vals[i]
    {
      assert vals[i] in Elements(table);
    }
    forall j | 0 <= j < |table|
      ensures exists i :: 0 <= i < |vals| && vals[i] == table[j]
    {
      assert table[j] in Elements(vals);
    }
  }

  lemma BlobIs(out: bytes, b: bytes)
    ensures out + BlobBytes(b) == out + Uvarint(|b|) + b
  {
    hide Uvarint;
  }

  lemma NoBlobsLeft(keys: seq<bytes>, i: nat)
    requires i == |keys|
    ensures ListEncoding(BlobBytes, keys[i..]) == []
  {
  }

  method EncodeDictBytes(vals: seq<bytes>) returns (out: bytes)
    requires vals != [] && |vals| <= MAX_INT
    ensures out == DictEncoding(vals)
  {
    hide Uvarint, PackedRegion, Table, Pow2, Width, ListEncoding, BytesLess, Ascending, Elements, BlobBytes;
    BytesOrder();
    var keys, idx := BuildDictionary<bytes>(BytesLess, vals);
    out := Uvarint(|keys|);
    ghost var head := out;
    var i := 0;
    while i < |keys|
      invariant 0 <= i <= |keys|
      invariant out + ListEncoding(BlobBytes, keys[i..]) == head + ListEncoding(BlobBytes, keys)
    {
      ListStep(BlobBytes, out, keys, i);
      BlobIs(out, keys[i]);
      out := out + Uvarint(|keys[i]|);
      out := out + keys[i];
      i := i + 1;
    }
    NoBlobsLeft(keys, i);
    assert out == head + ListEncoding(BlobBytes, keys);
    WidthOf64(|keys| - 1);
    var width := MinWidth(|keys| - 1);
    out := out + [width];
    out := AppendPacked(out, idx, width);
    assert out == head + (ListEncoding(BlobBytes, keys) + ([width] + PackedRegion(idx, width)));
  }

  /** The table loop of decodeDictBytes after `done` entries. */
  ghost predicate TableProgress(data: bytes, k: nat, done: seq<bytes>, pos: nat, total: nat) {
    && pos <= |data| && |done| <= k
    && ValueTableDecoded(data, k, 0) ==
       match ValueTableDecoded(data[pos..], k - |done|, total)
       case Ok(p) => Ok((done + p.0, p.1))
       case Err(e) => Err(e)
  }

  lemma TableStart(data: bytes, k: nat)
    ensures TableProgress(data, k, [], 0, 0)
  {
    assert data[0..] == data;
    var r := ValueTableDecoded(data, k, 0);
    if r.Ok? {
      assert [] + r.value.0 == r.value.0;
    }
  }

  lemma TableStep(data: bytes, k: nat, done: seq<bytes>, pos: nat, total: nat)
    requires TableProgress(data, k, done, pos, total) && |done| < k
    ensures match ReadWord(data[pos..])
            case Err(e) => ValueTableDecoded(data, k, 0) == Err(e)
            case Ok(p) =>
              if p.0 > MAX_BYTES_VALUE || total + p.0 > MAX_STRING_TABLE_BYTES then
                ValueTableDecoded(data, k, 0) == Err(LimitExceeded)
              else if p.0 > |p.1| then ValueTableDecoded(data, k, 0) == Err(Truncated)
              else forall next: nat {:trigger data[next..]} :: next <= |data| && p.1[p.0..] == data[next..]
                     ==> TableProgress(data, k, done + [p.1[..p.0]], next, total + p.0)
  {
    hide ReadWord;
    match ReadWord(data[pos..])
    case Err(_) =>
    case Ok(p) =>
      if p.0 <= MAX_BYTES_VALUE && total + p.0 <= MAX_STRING_TABLE_BYTES && p.0 <= |p.1| {
        var r := ValueTableDecoded(p.1[p.0..], k - |done| - 1, total + p.0);
        if r.Ok? {
          assert done + ([p.1[..p.0]] + r.value.0) == done + [p.1[..p.0]] + r.value.0;
        }
      }
  }

  lemma TableEnd(data: bytes, k: nat, done: seq<bytes>, pos: nat, total: nat)
    requires TableProgress(data, k, done, pos, total) && |done| == k
    ensures ValueTableDecoded(data, k, 0) == Ok((done, data[pos..]))
  {
    assert done + [] == done;
  }

  method DecodeDictBytes(data: bytes, n: nat) returns (r: Result<seq<bytes>>)
    ensures r == DictDecoded(data, n)
  {
    hide ReadWord, ValueTableDecoded, TableProgress, OrdinalsDecoded;
    assert data[0..] == data;
    var dictLen, m := UvarintAt(data, 0);
    if m <= 0 {
      return Err(Truncated);
    }
    if CheckCount(dictLen, MAX_DICT_ENTRIES).Fail? {
      return Err(LimitExceeded);
    }
    var rest := data[m..];
    var pos: nat := 0;
    var dict: seq<bytes> := [];
    var total: nat := 0;
    TableStart(rest, dictLen);
    while |dict| < dictLen
      invariant pos <= |rest| && |dict| <= dictLen && TableProgress(rest, dictLen, dict, pos, total)
    {
      TableStep(rest, dictLen, dict, pos, total);
      var l, k := UvarintAt(rest, pos);
      if k <= 0 {
        return Err(Truncated);
      }
      pos := pos + k;
      if l > MAX_BYTES_VALUE {
        return Err(LimitExceeded);
      }
      total := total + l;
      if total > MAX_STRING_TABLE_BYTES {
        return Err(LimitExceeded);
      }
      if pos + l > |rest| {
        return Err(Truncated);
      }
      assert rest[pos..][..l] == rest[pos..pos + l];
      assert rest[pos..][l..] == rest[pos + l..];
      dict := dict + [rest[pos..pos + l]];
      pos := pos + l;
    }
    TableEnd(rest, dictLen, dict, pos, total);
    r := OrdinalsAt(dict, rest, pos, n);
  }

  // ----- run length ------------------------------------------------------------------

  function RLEDecoded(data: bytes, n: nat): (r: Result<seq<bytes>>)
    requires n <= MAX_SEGMENT_ROWS
    ensures r.Ok? ==> |r.value| == n
  {
    RunsDecoded(ReadBlob, data, 0, n)
  }

  method EncodeRLEBytes(vals: seq<bytes>) returns (out: bytes)
    ensures out == RunsEncoding(BlobBytes, vals)
  {
    hide Uvarint, RunLength;
    out := [];
    var i := 0;
    while i < |vals|
      invariant 0 <= i <= |vals| && out + RunsEncoding(BlobBytes, vals[i..]) == RunsEncoding(BlobBytes, vals)
    {
      var j := i + 1;
      while j < |vals| && vals[j] == vals[i]
        invariant i < j <= |vals| && forall k :: i <= k < j ==> vals[k] == vals[i]
      {
        j := j + 1;
      }
      EncodeRun(BlobBytes, out, vals, i, j);
      assert out + BlobBytes(vals[i]) == out + Uvarint(|vals[i]|) + vals[i];
      out := out + Uvarint(|vals[i]|);
      out := out + vals[i];
      out := out + Uvarint(j - i);
      i := j;
    }
  }

  method DecodeRLEBytes(data: bytes, n: nat) returns (r: Result<seq<bytes>>)
    requires n <= MAX_SEGMENT_ROWS
    ensures r == RLEDecoded(data, n)
  {
    hide RunsDecoded, ReadWord, ReadBlob, RunsProgress;
    var out: seq<bytes> := [];
    var pos: nat := 0;
    RunsStart(ReadBlob, data, n);
    while |out| < n
      invariant pos <= |data| && RunsProgress(ReadBlob, data, n, out, pos)
      decreases if |out| < n then n - |out| else 0
    {
      RunsStep(ReadBlob, data, n, out, pos);
      var val, next := BlobAt(data, pos);
      if val.Err? {
        return Err(val.error);
      }
      pos := next;
      var run, k := UvarintAt(data, pos);
      if k <= 0 {
        return Err(Truncated);
      }
      pos := pos + k;
      if run == 0 || AddI64(|out|, ToI64(run)) > n {
        return Err(Corrupt);
      }
      if |out| + run > MAX_INT {
        return Err(OutOfMemory);
      }
      out := AppendRun(out, val.value, run);
    }
    RunsFinish(ReadBlob, data, n, out, pos);
    if |out| != n {
      return Err(Corrupt);
    }
    return Ok(out);
  }

  lemma RLERoundTrip(vals: seq<bytes>)
    requires |vals| <= MAX_SEGMENT_ROWS && AllFit(vals)
    ensures RLEDecoded(RunsEncoding(BlobBytes, vals), |vals|) == Ok(vals)
  {
    forall i | 0 <= i < |vals|
      ensures Inverts(BlobBytes, ReadBlob, vals[i])
    {
      assert Fits(vals[i]);
      BlobInverts(vals[i]);
    }
    RunsInvert(BlobBytes, ReadBlob, vals, 0, |vals|);
  }

  /** n values, an error, or, if and only if some pair is not bounded, death. */
  lemma RLEOutcome(data: bytes, n: nat)
    requires n <= MAX_SEGMENT_ROWS
    ensures RLEDecoded(data, n) == Err(OutOfMemory) <==> !RunsBounded(ReadBlob, data, 0, n)
    ensures MostHeld(ReadBlob, data, 0, n) <= n <==> RunsBounded(ReadBlob, data, 0, n)
  {
    hide ReadBlob;
    forall d
      ensures ReadBlob(d) != Err(OutOfMemory)
    {
      WordsSurvive(d);
    }
    RunsOutcome(ReadBlob, data, 0, n);
  }

  /** It happens for one row and any value with a run of 2^63. */
  lemma WrappedRun(v: bytes)
    requires Fits(v)
    ensures RLEDecoded(BlobBytes(v) + Uvarint(MAX_INT + 1), 1) == Err(OutOfMemory)
  {
    hide ReadBlob, BlobBytes, Uvarint;
    BlobInverts(v);
    WrappedRunDies(BlobBytes, ReadBlob, v);
  }

  lemma FirstRunFails(vals: seq<bytes>, have: nat, n: nat)
    requires have < n <= MAX_SEGMENT_ROWS && vals != [] && AllInts(vals) && !Fits(vals[0])
    ensures RunsDecoded(ReadBlob, RunsEncoding(BlobBytes, vals), have, n) == Err(LimitExceeded)
  {
    hide ReadBlob, BlobBytes, ReadWord, Uvarint, AddI64;
    var rest := Uvarint(RunLength(vals)) + RunsEncoding(BlobBytes, vals[RunLength(vals)..]);
    assert RunsEncoding(BlobBytes, vals) == BlobBytes(vals[0]) + rest;
    OversizedFails(vals[0], rest);
  }

  /** The values of a run are those of its first. */
  lemma RunFits(vals: seq<bytes>)
    requires vals != []
    ensures 1 <= RunLength(vals) <= |vals|
    ensures forall i :: 0 <= i < RunLength(vals) ==> vals[i] == vals[0]
  {
  }

  lemma {:induction false} RLEFails(vals: seq<bytes>, have: nat, n: nat)
    requires have + |vals| == n <= MAX_SEGMENT_ROWS && AllInts(vals) && !AllFit(vals)
    ensures RunsDecoded(ReadBlob, RunsEncoding(BlobBytes, vals), have, n) == Err(LimitExceeded)
    decreases |vals|
  {
    hide ReadBlob, BlobBytes, ReadWord, Uvarint, AddI64, RunsEncoding, RunsDecoded, RunLength;
    RunFits(vals);
    var run := RunLength(vals);
    if !Fits(vals[0]) {
      FirstRunFails(vals, have, n);
    } else {
      BlobInverts(vals[0]);
      RunStep(BlobBytes, ReadBlob, vals, have, n);
      assert !AllFit(vals[run..]) by {
        var i :| 0 <= i < |vals| && !Fits(vals[i]);
        assert i >= run;
        assert !Fits(vals[run..][i - run]);
      }
      RLEFails(vals[run..], have + run, n);
    }
  }

  lemma RLERejects(vals: seq<bytes>)
    requires |vals| <= MAX_SEGMENT_ROWS && AllInts(vals) && !AllFit(vals)
    ensures RLEDecoded(RunsEncoding(BlobBytes, vals), |vals|) == Err(LimitExceeded)
  {
    RLEFails(vals, 0, |vals|);
  }

  // ----- selector ----------------------------------------------------------------------

  datatype BytesStats = BytesStats(n: nat, distinct: nat, runs: nat)

  ghost predicate StatsOf(st: BytesStats, vals: seq<bytes>) {
    && st.n == |vals|
    && st.runs == Runs(vals)
    && st.distinct == if |Elements(vals)| <= DICT_PROBE_LIMIT then |Elements(vals)| else DICT_PROBE_LIMIT + 1
  }

  lemma RunsStep1(vals: seq<bytes>, i: nat)
    requires 1 <= i < |vals|
    ensures Runs(vals[..i + 1]) == Runs(vals[..i]) + if vals[i] != vals[i - 1] then 1 else 0
  {
    assert vals[..i + 1][..i] == vals[..i];
  }

  lemma ScanStart(vals: seq<bytes>)
    requires vals != []
    ensures Runs(vals[..1]) == 1 && Elements(vals[..0]) == {}
  {
  }

  method AnalyzeBytes(vals: seq<bytes>) returns (st: BytesStats)
    requires vals != []
    ensures StatsOf(st, vals)
  {
    hide Runs, Elements;
    var runs := 1;
    var seen: set<bytes> := {};
    var capped := false;
    var i := 0;
    ScanStart(vals);
    while i < |vals|
      invariant 0 <= i <= |vals|
      invariant runs == if i == 0 then 1 else Runs(vals[..i])
      invariant !capped ==> seen == Elements(vals[..i]) && |seen| <= DICT_PROBE_LIMIT
      invariant capped ==> |Elements(vals[..i])| > DICT_PROBE_LIMIT
    {
      var v := vals[i];
      PrefixElements(vals, i);
      if i > 0 {
        RunsStep1(vals, i);
        if v != vals[i - 1] {
          runs := runs + 1;
        }
      }
      if !capped {
        if v !in seen {
          if |seen| >= DICT_PROBE_LIMIT {
            capped := true;
          } else {
            seen := seen + {v};
          }
        } else {
          assert seen + {v} == seen;
        }
      }
      i := i + 1;
    }
    assert vals[..i] == vals;
    st := BytesStats(|vals|, if capped then DICT_PROBE_LIMIT + 1 else |seen|, runs);
  }

  ghost function StatsFor(vals: seq<bytes>): BytesStats {
    var distinct := |Elements(vals)|;
    BytesStats(|vals|, if distinct <= DICT_PROBE_LIMIT then distinct else DICT_PROBE_LIMIT + 1, Runs(vals))
  }

  function Candidates(vals: seq<bytes>, st: BytesStats): seq<(byte, bytes)>
    requires vals != [] && |vals| <= MAX_INT
  {
    var raw := [(RAW, ListEncoding(BlobBytes, vals))];
    var runs := AddIf(raw, st.runs * 3 < st.n, (RLE_BYTES, RunsEncoding(BlobBytes, vals)));
    AddIf(runs, st.distinct > 0 && st.distinct <= MAX_DICT_ENTRIES && st.distinct * 4 < st.n * 3,
          (DICT_BYTES, DictEncoding(vals)))
  }

  ghost function BytesEncoding(vals: seq<bytes>): (byte, bytes)
    requires |vals| <= MAX_INT
  {
    if vals == [] then (RAW, []) else Shortest(Candidates(vals, StatsFor(vals)))
  }

  method EncodeBytesAuto(vals: seq<bytes>) returns (id: byte, out: bytes)
    requires |vals| <= MAX_INT
    ensures (id, out) == BytesEncoding(vals)
  {
    hide ListEncoding, RunsEncoding, DictEncoding, Shortest, Elements, Runs;
    if |vals| == 0 {
      out := EncodeRaw(vals);
      NothingEncoded();
      return RAW, out;
    }
    var st := AnalyzeBytes(vals);
    var b := EncodeRaw(vals);
    var best := (RAW, b);
    ghost var tried := [best];
    OnlyCandidate(best);
    if st.runs * 3 < st.n {
      b := EncodeRLEBytes(vals);
      best, tried := Consider(best, (RLE_BYTES, b), tried);
    }
    if st.distinct > 0 && st.distinct <= MAX_DICT_ENTRIES && st.distinct * 4 < st.n * 3 {
      b := EncodeDictBytes(vals);
      best, tried := Consider(best, (DICT_BYTES, b), tried);
    }
    return best.0, best.1;
  }

  /** The codecs tried, in order: raw, run-length where runs are fewer than a third of
      the values, and the dictionary where fewer than three quarters of the values are
      distinct, a capped count being taken for 65537. The shortest is taken, and the
      first of equals. */
  lemma SelectorIs(vals: seq<bytes>)
    requires vals != [] && |vals| <= MAX_INT
    ensures var (id, out) := BytesEncoding(vals);
            var raw, runs, dict := ListEncoding(BlobBytes, vals), RunsEncoding(BlobBytes, vals), DictEncoding(vals);
            var few := Runs(vals) * 3 < |vals|;
            var repeats := (if |Elements(vals)| <= 65536 then |Elements(vals)| else 65537) * 4 < |vals| * 3;
            && (id == 64 ==> out == raw) && (id == 66 ==> few && out == runs && |out| < |raw|)
            && (id == 65 ==> repeats && out == dict && |out| < |raw| && (few ==> |out| < |runs|))
            && id in {64, 65, 66} && |out| <= |raw| && (few ==> |out| <= |runs|) && (repeats ==> |out| <= |dict|)
  {
    hide ListEncoding, RunsEncoding, DictEncoding, Elements, Runs, Shortest, AddIf;
    var st := StatsFor(vals);
    var raw, runs := (RAW, ListEncoding(BlobBytes, vals)), (RLE_BYTES, RunsEncoding(BlobBytes, vals));
    OneCandidate(raw);
    ShortestAddIf([raw], st.runs * 3 < st.n, runs);
    ShortestAddIf(AddIf([raw], st.runs * 3 < st.n, runs),
                  st.distinct > 0 && st.distinct <= MAX_DICT_ENTRIES && st.distinct * 4 < st.n * 3,
                  (DICT_BYTES, DictEncoding(vals)));
    SomeElement(vals);
  }

  lemma SomeElement(vals: seq<bytes>)
    requires vals != []
    ensures |Elements(vals)| > 0
  {
    assert vals[0] in Elements(vals);
  }

  lemma OneCandidate(x: (byte, bytes))
    ensures Shortest([x]) == x
  {
  }

  lemma NothingEncoded()
    ensures ListEncoding(BlobBytes, []) == []
  {
  }

  // ----- dispatch ------------------------------------------------------------------------

  /** DecodeBytes: exactly n values or an error, whatever the bytes. */
  function BytesDecoded(id: byte, data: bytes, n: nat): (r: Result<seq<bytes>>)
    ensures r.Ok? ==> |r.value| == n && n <= MAX_SEGMENT_ROWS
  {
    if CheckCount(n, MAX_SEGMENT_ROWS).Fail? then Err(LimitExceeded)
    else if id == RAW then RawDecoded(data, n)
    else if id == DICT_BYTES then DictDecoded(data, n)
    else if id == RLE_BYTES then RLEDecoded(data, n)
    else Err(UnknownEncoding)
  }

  /** What decoding comes to: n values or an error, or, for a run-length payload
      with an unbounded pair and for no other, death. */
  lemma DecodeOutcome(id: byte, data: bytes, n: nat)
    ensures BytesDecoded(id, data, n) == Err(OutOfMemory)
            <==> id == RLE_BYTES && n <= MAX_SEGMENT_ROWS && !RunsBounded(ReadBlob, data, 0, n)
  {
    hide ReadBlob, ListDecoded, RunsDecoded, RunsBounded, DictDecoded;
    if n <= MAX_SEGMENT_ROWS {
      RLEOutcome(data, n);
      BlobListSurvives(data, n);
      DictSurvives(data, n);
    }
  }

  lemma {:induction false} TableSurvives(data: bytes, k: nat, total: nat)
    ensures ValueTableDecoded(data, k, total) != Err(OutOfMemory)
    decreases k
  {
    hide ReadWord;
    WordsSurvive(data);
    if k > 0 && ReadWord(data).Ok? {
      var (l, rest) := ReadWord(data).value;
      if l <= |rest| {
        TableSurvives(rest[l..], k - 1, total + l);
      }
    }
  }

  lemma DictSurvives(data: bytes, n: nat)
    ensures DictDecoded(data, n) != Err(OutOfMemory)
  {
    hide ReadWord, ValueTableDecoded, GetBits;
    WordsSurvive(data);
    if ReadWord(data).Ok? {
      TableSurvives(ReadWord(data).value.1, ReadWord(data).value.0, 0);
    }
  }

  method DecodeBytes(id: byte, data: bytes, n: nat) returns (r: Result<seq<bytes>>)
    ensures r == BytesDecoded(id, data, n)
  {
    hide RawDecoded, DictDecoded, RLEDecoded;
    if CheckCount(n, MAX_SEGMENT_ROWS).Fail? {
      return Err(LimitExceeded);
    }
    match id
    case 64 => r := DecodeRaw(data, n);
    case 65 => r := DecodeDictBytes(data, n);
    case 66 => r := DecodeRLEBytes(data, n);
    case _ => r := Err(UnknownEncoding);
  }

  /** What a caller can check before packing a byte column: the sizes of its
      values and, when a dictionary would be kept, of its table. */
  ghost predicate WithinLimits(vals: seq<bytes>)
    requires |vals| <= MAX_INT
  {
    && AllFit(vals)
    && (BytesEncoding(vals).0 == DICT_BYTES ==> TotalLen(Table<bytes>(BytesLess, vals)) <= MAX_STRING_TABLE_BYTES)
  }

  /** Decoding what the selector chose restores the column if and only if the
      values are within the decoder's limits; the choice is never longer than raw. */
  lemma SelectorRoundTrip(vals: seq<bytes>)
    requires |vals| <= MAX_SEGMENT_ROWS && AllInts(vals)
    ensures var (id, data) := BytesEncoding(vals);
            && (if WithinLimits(vals) then BytesDecoded(id, data, |vals|) == Ok(vals)
                else BytesDecoded(id, data, |vals|) == Err(LimitExceeded))
            && |data| <= |ListEncoding(BlobBytes, vals)|
  {
    hide ListEncoding, RunsEncoding, DictEncoding, Runs, Elements, RawDecoded, DictDecoded, RLEDecoded, Table, TotalLen;
    var (id, data) := BytesEncoding(vals);
    if vals == [] {
      NothingEncoded();
      RawRoundTrip(vals);
    } else {
      var cands := Candidates(vals, StatsFor(vals));
      assert cands[0].1 == ListEncoding(BlobBytes, vals);
      if id == RAW {
        if AllFit(vals) { RawRoundTrip(vals); } else { RawFails(vals); }
      } else if id == RLE_BYTES {
        if AllFit(vals) { RLERoundTrip(vals); } else { RLERejects(vals); }
      } else {
        DictRoundTrip(vals);
      }
    }
  }
}
