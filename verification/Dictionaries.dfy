/** What the integer and the byte dictionaries share: the ascending table of the
    values that occur, and bit-packed ordinals into it. */
module Dictionaries {
  import opened Bits
  import opened Wrappers
  import opened Limits
  import opened BitPack
  import opened Sorting

  // ----- the table -----------------------------------------------------------------

  function Table<T(==)>(less: (T, T) -> bool, vals: seq<T>): seq<T> {
    SortedDistinct(less, vals)
  }

  /** The table: strictly ascending, exactly the values that occur. */
  lemma TableIs<T(!new)>(less: (T, T) -> bool, vals: seq<T>)
    requires StrictTotal(less) && vals != []
    ensures Ascending(less, Table(less, vals))
    ensures Elements(Table(less, vals)) == Elements(vals)
    ensures 1 <= |Table(less, vals)| <= |vals|
    ensures forall i :: 0 <= i < |vals| ==> vals[i] in Table(less, vals)
  {
    SortedDistinctIs(less, vals);
    forall i | 0 <= i < |vals|
      ensures vals[i] in Table(less, vals)
    {
      assert vals[i] in Elements(vals);
      assert vals[i] in Elements(Table(less, vals));
    }
  }

  /** The table depends only on which values occur. */
  lemma SameTable<T(!new)>(less: (T, T) -> bool, a: seq<T>, b: seq<T>)
    requires StrictTotal(less) && Elements(a) == Elements(b)
    ensures Table(less, a) == Table(less, b)
  {
    SortedDistinctIs(less, a);
    SortedDistinctIs(less, b);
    AscendingUnique(less, Table(less, a), Table(less, b));
  }

  /** The distinct values, in order of first occurrence. */
  method CollectDistinct<T(==)>(vals: seq<T>) returns (dict: seq<T>)
    ensures Elements(dict) == Elements(vals)
  {
    dict := [];
    var seen: set<T> := {};
    var i := 0;
    while i < |vals|
      invariant 0 <= i <= |vals| && seen == Elements(dict) == Elements(vals[..i])
    {
      assert vals[..i + 1] == vals[..i] + [vals[i]];
      assert Elements(vals[..i] + [vals[i]]) == Elements(vals[..i]) + {vals[i]};
      if vals[i] !in seen {
        seen := seen + {vals[i]};
        assert Elements(dict + [vals[i]]) == Elements(dict) + {vals[i]};
        dict := dict + [vals[i]];
      }
      i := i + 1;
    }
    assert vals[..i] == vals;
  }

  /** The sorted table and the ordinal of every value: the first half of both
      dictionary encoders. Positions go into a map, then each value is looked up. */
  method BuildDictionary<T(==,!new)>(less: (T, T) -> bool, vals: seq<T>) returns (dict: seq<T>, idx: seq<u64>)
    requires StrictTotal(less) && vals != [] && |vals| <= MAX_INT
    ensures dict == Table(less, vals) && 1 <= |dict| <= |vals|
    ensures forall i :: 0 <= i < |vals| ==> vals[i] in dict
    ensures idx == Ordinals(dict, vals)
  {
    hide SortedDistinct;
    dict := CollectDistinct(vals);
    SameTable(less, dict, vals);
    TableIs(less, vals);
    dict := SortAscending(less, dict);
    var seen: map<T, u64> := map[];
    var i := 0;
    while i < |dict|
      invariant 0 <= i <= |dict|
      invariant forall k :: 0 <= k < i ==> dict[k] in seen && seen[dict[k]] == k % 0x1_0000_0000
    {
      assert forall k :: 0 <= k < i ==> less(dict[k], dict[i]);
      seen := seen[dict[i] := i % 0x1_0000_0000];
      i := i + 1;
    }
    idx := [];
    i := 0;
    while i < |vals|
      invariant 0 <= i <= |vals| && |idx| == i
      invariant forall k :: 0 <= k < i ==> idx[k] == IndexOf(dict, vals[k]) % 0x1_0000_0000
    {
      assert vals[i] == dict[IndexOf(dict, vals[i])];
      idx := idx + [seen[vals[i]]];
      i := i + 1;
    }
  }

  // ----- dictionary ordinals -------------------------------------------------------

  /** The ordinal of each value, cut to 32 bits as the encoders' maps hold it. */
  function Ordinals<T(==)>(table: seq<T>, vals: seq<T>): (idx: seq<u64>)
    requires forall i :: 0 <= i < |vals| ==> vals[i] in table
    ensures |idx| == |vals|
  {
    seq(|vals|, i requires 0 <= i < |vals| => IndexOf(table, vals[i]) % 0x1_0000_0000)
  }

  /** Width byte and packed ordinals, following the table. */
  function OrdinalsEncoding<T(==)>(table: seq<T>, vals: seq<T>): bytes
    requires 1 <= |table| <= MAX_INT
    requires forall i :: 0 <= i < |vals| ==> vals[i] in table
  {
    WidthOf64(|table| - 1);
    var width := Width(|table| - 1);
    [width] + PackedRegion(Ordinals(table, vals), width)
  }

  function OrdinalsDecoded<T>(table: seq<T>, data: bytes, n: nat): (r: Result<seq<T>>)
    ensures r.Ok? ==> |r.value| == n
  {
    if data == [] then
      if n == 0 then Ok([]) else Err(Truncated)
    else if data[0] > 64 then Err(Corrupt)
    else
      var idx :- Unpacked(data[1..], n, data[0]);
      if exists i :: 0 <= i < |idx| && idx[i] >= |table| then Err(Corrupt)
      else Ok(seq(n, i requires 0 <= i < n => table[idx[i]]))
  }

  /** Every ordinal fits the width and leads back to its value. */
  lemma OrdinalsInvert<T>(table: seq<T>, vals: seq<T>)
    requires 1 <= |table| <= 0x1_0000_0000
    requires forall i :: 0 <= i < |vals| ==> vals[i] in table
    ensures OrdinalsDecoded(table, OrdinalsEncoding(table, vals), |vals|) == Ok(vals)
  {
    hide PackedRegion, Unpacked, IndexOf, Width;
    var width := Width(|table| - 1);
    WidthOf64(|table| - 1);
    var idx := Ordinals(table, vals);
    forall i | 0 <= i < |vals|
      ensures idx[i] == IndexOf(table, vals[i]) && idx[i] < Pow2(width)
    {
      assert IndexOf(table, vals[i]) < |table|;
    }
    UnpackInverts(idx, width);
    var data := OrdinalsEncoding(table, vals);
    assert data[1..] == PackedRegion(idx, width);
    assert seq(|vals|, i requires 0 <= i < |vals| => table[idx[i]]) == vals;
  }

  /** Every ordinal is below the table length and fits the packed width. */
  lemma OrdinalsFit<T>(table: seq<T>, v: T)
    requires v in table && |table| < TWO64
    ensures IndexOf(table, v) < |table| && IndexOf(table, v) < Pow2(Width(|table| - 1))
    ensures Width(|table| - 1) <= 64
  {
    WidthOf64(|table| - 1);
  }

  /** The common end of both dictionary decoders. */
  method OrdinalsAt<T>(dict: seq<T>, data: bytes, start: nat, n: nat) returns (r: Result<seq<T>>)
    requires start <= |data|
    ensures r == OrdinalsDecoded(dict, data[start..], n)
  {
    hide Unpacked;
    var pos := start;
    if pos >= |data| {
      if n == 0 {
        return Ok([]);
      }
      return Err(Truncated);
    }
    var width := data[pos];
    pos := pos + 1;
    assert data[start..][1..] == data[pos..];
    if width > 64 {
      return Err(Corrupt);
    }
    var idx := new u64[n];
    var res := UnpackInto(idx, data[pos..], width);
    if res.Fail? {
      return Err(res.error);
    }
    var out: seq<T> := [];
    var i := 0;
    while i < n
      invariant 0 <= i <= n && |out| == i
      invariant forall k :: 0 <= k < i ==> idx[k] < |dict| && out[k] == dict[idx[k]]
    {
      if idx[i] >= |dict| {
        assert idx[..][i] >= |dict|;
        return Err(Corrupt);
      }
      out := out + [dict[idx[i]]];
      i := i + 1;
    }
    ghost var ords := Unpacked(data[pos..], n, width).value;
    assert ords == idx[..];
    assert forall k :: 0 <= k < |ords| ==> ords[k] < |dict|;
    assert out == OrdinalsDecoded(dict, data[start..], n).value;
    return Ok(out);
  }

  /** No ordinals are read off nothing, and none is more than nothing. */
  lemma NoOrdinals<T>(table: seq<T>, n: nat)
    ensures OrdinalsDecoded(table, [], n) == if n == 0 then Ok([]) else Err(Truncated)
  {
  }
}
