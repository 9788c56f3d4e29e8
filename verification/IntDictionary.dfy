/** The integer dictionary codec (internal/encoding/ints.go:321-404): a strictly
    ascending, gap-coded table followed by bit-packed ordinals. */
module IntDictionary {
  import opened Bits
  import opened Wrappers
  import opened Limits
  import opened Varint
  import opened BitPack
  import opened Sorting
  import opened Streams
  import opened Dictionaries

  // ----- gap coding -------------------------------------------------------------

  function GapAt(table: seq<u64>, i: nat): u64
    requires i < |table|
  {
    if i == 0 then table[0] else Gap(table[i - 1], table[i])
  }

  function Gaps(table: seq<u64>): (gs: seq<u64>)
    ensures |gs| == |table|
  {
    seq(|table|, i requires 0 <= i < |table| => GapAt(table, i))
  }

  function Ungap(gs: seq<u64>): (table: seq<u64>)
    ensures |table| == |gs|
  {
    if |gs| <= 1 then gs
    else
      var init := Ungap(gs[..|gs| - 1]);
      init + [AddGap(init[|init| - 1], gs[|gs| - 1])]
  }

  lemma UngapStep(gs: seq<u64>, g: u64)
    ensures gs == [] ==> Ungap(gs + [g]) == [g]
    ensures gs != [] ==> Ungap(gs + [g]) == Ungap(gs) + [AddGap(Ungap(gs)[|gs| - 1], g)]
  {
    hide AddGap;
    assert (gs + [g])[..|gs|] == gs;
  }

  /** prev + g on uint64. */
  function AddGap(prev: u64, g: u64): u64 {
    (prev + g) % TWO64
  }

  /** v - prev on uint64. */
  function Gap(prev: u64, v: u64): u64 {
    (v - prev) % TWO64
  }

  lemma GapInverts(prev: u64, v: u64)
    ensures AddGap(prev, Gap(prev, v)) == v
    ensures prev <= v ==> Gap(prev, v) == v - prev
  {
  }

  lemma {:induction false} UngapInverts(table: seq<u64>)
    ensures Ungap(Gaps(table)) == table
  {
    hide AddGap, Gap;
    if |table| > 1 {
      var last := |table| - 1;
      assert Gaps(table)[..last] == Gaps(table[..last]);
      UngapInverts(table[..last]);
      GapInverts(table[last - 1], table[last]);
      assert table == table[..last] + [table[last]];
    }
  }

  // ----- the codec ------------------------------------------------------------------

  function DictEncoding(vals: seq<u64>): bytes
    requires vals != [] && |vals| <= MAX_INT
  {
    WordOrder();
    TableIs<u64>(WordLess, vals);
    var table := Table<u64>(WordLess, vals);
    Uvarint(|table|) + (ListEncoding(WordBytes, Gaps(table)) + OrdinalsEncoding(table, vals))
  }

  function DictDecoded(data: bytes, n: nat): (r: Result<seq<u64>>)
    ensures r.Ok? ==> |r.value| == n
  {
    var (dictLen, rest) :- ReadWord(data);
    var _ :- Checked(dictLen);
    var (gs, tail) :- ListDecoded(ReadWord, rest, dictLen);
    OrdinalsDecoded(Ungap(gs), tail, n)
  }

  function Checked(dictLen: nat): Result<()> {
    if CheckCount(dictLen, MAX_DICT_ENTRIES).Fail? then Err(LimitExceeded) else Ok(())
  }

  /** Decoding restores the sequence; the table limit is never hit. */
  lemma DictRoundTrip(vals: seq<u64>)
    requires vals != [] && |vals| <= MAX_SEGMENT_ROWS
    ensures DictDecoded(DictEncoding(vals), |vals|) == Ok(vals)
  {
    hide Uvarint, ReadWord, ListEncoding, ListDecoded, OrdinalsEncoding, OrdinalsDecoded, Ungap, Gaps, Table;
    WordOrder();
    TableIs<u64>(WordLess, vals);
    var table := Table<u64>(WordLess, vals);
    var ords := OrdinalsEncoding(table, vals);
    var gaps := ListEncoding(WordBytes, Gaps(table));
    WordInverts(|table|);
    assert ReadWord(WordBytes(|table|) + (gaps + ords)) == Ok((|table|, gaps + ords));
    forall i | 0 <= i < |table|
      ensures Inverts(WordBytes, ReadWord, Gaps(table)[i])
    {
      WordInverts(Gaps(table)[i]);
    }
    ListInverts(WordBytes, ReadWord, Gaps(table), ords);
    UngapInverts(table);
    OrdinalsInvert(table, vals);
  }

  // ----- the encoding and decoding loops ----------------------------------------------

  method EncodeDictInt(vals: seq<u64>) returns (out: bytes)
    requires vals != [] && |vals| <= MAX_INT
    ensures out == DictEncoding(vals)
  {
    hide Uvarint, ListEncoding, PackedRegion, Table, Pow2, Width, WordLess, Ascending, Elements, Gap;
    WordOrder();
    var dict, idx := BuildDictionary<u64>(WordLess, vals);

    out := Uvarint(|dict|);
    ghost var head := out;
    var prev: u64 := 0;
    var i := 0;
    while i < |dict|
      invariant 0 <= i <= |dict| && (i > 0 ==> prev == dict[i - 1])
      invariant out + ListEncoding(WordBytes, Gaps(dict)[i..]) == head + ListEncoding(WordBytes, Gaps(dict))
    {
      ListStep(WordBytes, out, Gaps(dict), i);
      if i == 0 {
        out := out + Uvarint(dict[i]);
      } else {
        out := out + Uvarint(Gap(prev, dict[i]));
      }
      prev := dict[i];
      i := i + 1;
    }
    NoGaps(Gaps(dict), i);
    assert out == head + ListEncoding(WordBytes, Gaps(dict));
    WidthOf64(|dict| - 1);
    var width := MinWidth(|dict| - 1);
    out := out + [width];
    out := AppendPacked(out, idx, width);
    assert out == head + (ListEncoding(WordBytes, Gaps(dict)) + ([width] + PackedRegion(idx, width)));
  }

  lemma NoGaps(gs: seq<u64>, i: nat)
    requires i == |gs|
    ensures ListEncoding(WordBytes, gs[i..]) == []
  {
  }

  method DecodeDictInt(data: bytes, n: nat) returns (r: Result<seq<u64>>)
    ensures r == DictDecoded(data, n)
  {
    hide ReadWord, Unpacked, ListDecoded, Progress, Ungap, AddGap;
    assert data[0..] == data;
    var dictLen, m := UvarintAt(data, 0);
    if m <= 0 {
      return Err(Truncated);
    }
    if CheckCount(dictLen, MAX_DICT_ENTRIES).Fail? {
      return Err(LimitExceeded);
    }
    var pos: nat := m;
    ghost var rest := data[m..];
    ghost var gs: seq<u64> := [];
    var dict: seq<u64> := [];
    var prev: u64 := 0;
    ProgressStart(ReadWord, rest, dictLen);
    assert Ungap([]) == [];
    while |dict| < dictLen
      invariant m <= pos <= |data| && |dict| == |gs| <= dictLen && dict == Ungap(gs)
      invariant dict != [] ==> prev == dict[|dict| - 1]
      invariant Progress(ReadWord, rest, dictLen, gs, pos - m)
    {
      assert rest[pos - m..] == data[pos..];
      ProgressStep(ReadWord, rest, dictLen, gs, pos - m);
      var g, k := UvarintAt(data, pos);
      if k <= 0 {
        return Err(Truncated);
      }
      pos := pos + k;
      assert rest[pos - m..] == data[pos..];
      UngapStep(gs, g);
      gs := gs + [g];
      dict := dict + [if |dict| == 0 then g else AddGap(prev, g)];
      prev := dict[|dict| - 1];
    }
    ProgressEnd(ReadWord, rest, dictLen, gs, pos - m);
    assert rest[pos - m..] == data[pos..];
    r := OrdinalsAt(dict, data, pos, n);
  }
}
