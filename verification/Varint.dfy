/** LEB128 varints and the ZigZag transform (internal/util/varint.go and the
    standard library routines it and the codecs call). */
module Varint {
  import opened Bits
  import opened Wrappers

  // ----- LEB128 ------------------------------------------------------------

  /** The bytes binary.AppendUvarint appends for v. */
  function Uvarint(v: nat): (bs: bytes)
    ensures 1 <= |bs|
    decreases v
  {
    if v < 0x80 then [v] else [v % 0x80 + 0x80] + Uvarint(v / 0x80)
  }

  /** binary.Uvarint from byte i on, with value x read so far in i groups of
      seven bits; None stands for every outcome with a byte count <= 0, which
      its callers do not tell apart. */
  function ReadUvarintFrom(buf: bytes, i: nat, x: nat): (r: Option<(u64, nat)>)
    requires i <= |buf| && i <= 10 && x < Pow2(7 * i)
    ensures r.Some? ==> i < r.value.1 <= |buf| && r.value.1 <= 10
    decreases |buf| - i
  {
    if i == |buf| || i == 10 then None
    else
      var b := buf[i];
      if b < 0x80 then
        if i == 9 && b > 1 then None
        else
          GroupBound(x, b, i);
          Some((x + Shl(b, 7 * i), i + 1))
      else
        GroupGrows(x, b, i);
        ReadUvarintFrom(buf, i + 1, x + Shl(b - 0x80, 7 * i))
  }

  /** The value and length of the varint at the front of buf. */
  function ReadUvarint(buf: bytes): (r: Option<(u64, nat)>)
    ensures r.Some? ==> 1 <= r.value.1 <= |buf| && r.value.1 <= 10
  {
    ReadUvarintFrom(buf, 0, 0)
  }

  lemma GroupGrows(x: nat, b: byte, i: nat)
    requires x < Pow2(7 * i) && 0x80 <= b
    ensures x + Shl(b - 0x80, 7 * i) < Pow2(7 * (i + 1))
  {
    Pow2Values();
    JoinBound(x, b - 0x80, 7 * i, 7);
  }

  lemma GroupBound(x: nat, b: byte, i: nat)
    requires x < Pow2(7 * i) && b < 0x80 && i <= 9 && (i == 9 ==> b <= 1)
    ensures x + Shl(b, 7 * i) < TWO64
  {
    hide Pow2, Shl;
    Pow2Values();
    if i == 9 {
      JoinBound(x, b, 63, 1);
    } else {
      JoinBound(x, b, 7 * i, 7);
      Pow2Monotone(7 * i + 7, 63);
    }
  }

  /** Reading a varint returns the value written and its length, whatever follows. */
  lemma UvarintRoundTrip(v: u64, rest: bytes)
    ensures ReadUvarint(Uvarint(v) + rest) == Some((v, |Uvarint(v)|))
    ensures |Uvarint(v)| <= 10
  {
    Pow2Values();
    ReadAfterWrite([], v, rest, 0);
    assert [] + Uvarint(v) + rest == Uvarint(v) + rest;
  }

  lemma {:induction false} ReadAfterWrite(done: bytes, v: u64, rest: bytes, x: nat)
    requires |done| <= 9 && x < Pow2(7 * |done|) && Shl(v, 7 * |done|) < TWO64
    ensures var buf := done + Uvarint(v) + rest;
            ReadUvarintFrom(buf, |done|, x) == Some((x + Shl(v, 7 * |done|), |done| + |Uvarint(v)|))
    ensures |done| + |Uvarint(v)| <= 10
    decreases v
  {
    hide Pow2, Shl;
    var i := |done|;
    var buf := done + Uvarint(v) + rest;
    if i == 9 {
      Pow2Values();
      ShiftMeaning(v, 63);
    }
    if v >= 0x80 {
      var g, w := v % 0x80, v / 0x80;
      var done' := done + [g + 0x80];
      assert buf == done' + Uvarint(w) + rest;
      assert buf[i] == g + 0x80;
      GroupGrows(x, g + 0x80, i);
      ShiftBy7(w);
      ShlSum(g, Shl(w, 7), 7 * i);
      ShlAdd(w, 7, 7 * i);
      ReadAfterWrite(done', w, rest, x + Shl(g, 7 * i));
    }
  }

  /** UvarintLen counts the bytes AppendUvarint would emit. */
  method UvarintLen(v: u64) returns (n: nat)
    ensures n == |Uvarint(v)|
  {
    n := 1;
    var x: u64 := v;
    while x >= 0x80
      invariant x < TWO64
      invariant |Uvarint(v)| == n - 1 + |Uvarint(x)|
    {
      ShiftBy7(x);
      x := Shr(x, 7);
      n := n + 1;
    }
  }

  // ----- signed words --------------------------------------------------------

  /** uint64(v). */
  function ToU64(v: i64): u64 {
    if v < 0 then v + TWO64 else v
  }

  /** int64(v). */
  function ToI64(v: u64): i64 {
    if v >= 0x8000_0000_0000_0000 then v - TWO64 else v
  }

  /** a + b on int64, wrapping. */
  function AddI64(a: i64, b: i64): i64 {
    ToI64((a + b) % TWO64)
  }

  /** a - b on int64, wrapping. */
  function SubI64(a: i64, b: i64): i64 {
    ToI64((a - b) % TWO64)
  }

  /** (v << 1) ^ (v >> 63), the second shift being arithmetic. */
  function ZigZag(v: i64): u64 {
    ZigZagRange(v);
    Xor(Shl64(ToU64(v), 1), if v < 0 then MAX64 else 0)
  }

  /** int64(v >> 1) ^ -int64(v & 1), computed on the two's complement words. */
  function UnZigZag(v: u64): i64 {
    UnZigZagRange(v);
    ToI64(Xor(Shr(v, 1), if And(v, 1) == 1 then MAX64 else 0))
  }

  lemma ZigZagRange(v: i64)
    ensures Xor(Shl64(ToU64(v), 1), if v < 0 then MAX64 else 0) == if v < 0 then -2 * v - 1 else 2 * v
  {
    DoubleWord(ToU64(v));
    var s := Shl64(ToU64(v), 1);
    if v < 0 {
      XorWord(s);
    } else {
      XorZero(s);
    }
  }

  lemma UnZigZagRange(v: u64)
    ensures var x := Xor(Shr(v, 1), if And(v, 1) == 1 then MAX64 else 0);
            x < TWO64 && ToI64(x) == if v % 2 == 1 then -(v / 2) - 1 else v / 2
  {
    Pow2Values();
    AndMask(v, 1);
    XorWord(v / 2);
    XorZero(v / 2);
  }

  /** ZigZag is a bijection between int64 and uint64 that sends small magnitudes
      to small words. */
  lemma ZigZagBijection(v: i64, u: u64)
    ensures UnZigZag(ZigZag(v)) == v
    ensures ZigZag(UnZigZag(u)) == u
    ensures v != I64_MIN ==> ZigZag(v) <= 2 * (if v < 0 then -v else v)
  {
    ZigZagRange(v);
    UnZigZagRange(ZigZag(v));
    UnZigZagRange(u);
    ZigZagRange(UnZigZag(u));
  }

  const I64_MIN: i64 := -0x8000_0000_0000_0000

  /** A wrapped difference added back with wrap-around restores the word, even
      across 2^63. */
  lemma DeltaInverts(prev: u64, cur: u64)
    ensures ToU64(AddI64(ToI64(prev), SubI64(ToI64(cur), ToI64(prev)))) == cur
  {
  }

  /** Second-order version: a wrapped difference of differences adds back. */
  lemma DeltaOfDeltaInverts(d: i64, prevDelta: i64)
    ensures AddI64(prevDelta, SubI64(d, prevDelta)) == d
  {
  }

  // ----- what varints are -----------------------------------------------------

  /** Seven bits of each byte, low groups first. */
  function Groups(bs: bytes): nat {
    if bs == [] then 0 else bs[0] % 0x80 + 0x80 * Groups(bs[1..])
  }

  /** A byte below 128 ends a varint, and only the last byte is. */
  predicate EndsOnce(bs: bytes) {
    bs != [] && bs[|bs| - 1] < 0x80 && forall i :: 0 <= i < |bs| - 1 ==> bs[i] >= 0x80
  }

  lemma {:induction false} ReadsGroups(buf: bytes, i: nat, x: nat)
    requires i <= |buf| && i <= 10 && x < Pow2(7 * i)
    ensures match ReadUvarintFrom(buf, i, x)
            case Some((v, n)) => EndsOnce(buf[i..n]) && v == x + Shl(Groups(buf[i..n]), 7 * i)
            case None => forall n :: i < n <= |buf| && n <= 10 && EndsOnce(buf[i..n]) ==>
                                       x + Shl(Groups(buf[i..n]), 7 * i) >= TWO64
    decreases |buf| - i
  {
    hide Pow2, Shl;
    if i < |buf| && i < 10 {
      var b := buf[i];
      if b < 0x80 {
        LastGroup(buf, i, x);
      } else {
        GroupGrows(x, b, i);
        var y := x + Shl(b - 0x80, 7 * i);
        ReadsGroups(buf, i + 1, y);
        forall n | i + 1 < n <= |buf|
          ensures EndsOnce(buf[i..n]) <==> EndsOnce(buf[i + 1..n])
          ensures x + Shl(Groups(buf[i..n]), 7 * i) == y + Shl(Groups(buf[i + 1..n]), 7 * (i + 1))
        {
          MoreGroups(buf, i, n, x);
        }
        assert !EndsOnce(buf[i..i + 1]);
      }
    }
  }

  lemma MoreGroups(buf: bytes, i: nat, n: nat, x: nat)
    requires i + 1 < n <= |buf| && buf[i] >= 0x80
    ensures EndsOnce(buf[i..n]) <==> EndsOnce(buf[i + 1..n])
    ensures x + Shl(Groups(buf[i..n]), 7 * i)
            == x + Shl(buf[i] - 0x80, 7 * i) + Shl(Groups(buf[i + 1..n]), 7 * (i + 1))
  {
    hide Pow2, Shl, Groups;
    var bs, rest := buf[i..n], buf[i + 1..n];
    assert bs[1..] == rest && bs[0] == buf[i];
    assert forall k :: 0 <= k < |rest| ==> rest[k] == bs[k + 1];
    OneGroup(bs);
    ShiftBy7(Groups(rest));
    ShlSum(buf[i] - 0x80, Shl(Groups(rest), 7), 7 * i);
    ShlAdd(Groups(rest), 7, 7 * i);
    if EndsOnce(rest) {
      assert forall k :: 0 <= k < |bs| - 1 ==> bs[k] >= 0x80 by {
        assert forall k :: 0 < k < |bs| - 1 ==> bs[k] == rest[k - 1];
      }
    }
  }

  lemma OneGroup(bs: bytes)
    requires bs != []
    ensures Groups(bs) == bs[0] % 0x80 + 0x80 * Groups(bs[1..])
  {
  }

  lemma NoGroup()
    ensures Groups([]) == 0
  {
  }

  lemma TenthTooLarge(b: byte)
    requires b > 1
    ensures Shl(b, 63) >= TWO64
  {
    hide Pow2, Shl;
    Pow2Values();
    ShiftMeaning(b, 63);
    assert b * Pow2(63) >= 2 * Pow2(63);
  }

  lemma LastGroup(buf: bytes, i: nat, x: nat)
    requires i < |buf| && i < 10 && x < Pow2(7 * i) && buf[i] < 0x80
    ensures EndsOnce(buf[i..i + 1]) && Groups(buf[i..i + 1]) == buf[i]
    ensures forall n :: i + 1 < n <= |buf| ==> !EndsOnce(buf[i..n])
    ensures i == 9 && buf[i] > 1 ==> x + Shl(buf[i], 7 * i) >= TWO64
  {
    hide Pow2, Shl, Groups;
    OneGroup(buf[i..i + 1]);
    assert buf[i..i + 1][1..] == [];
    NoGroup();
    forall n | i + 1 < n <= |buf|
      ensures !EndsOnce(buf[i..n])
    {
      assert buf[i..n][0] == buf[i];
    }
    if i == 9 && buf[i] > 1 {
      TenthTooLarge(buf[i]);
    }
  }

  /** A varint is read exactly when at most ten bytes, of which only the last is below
      128, stand for a 64-bit word: its seven-bit groups, the low ones first. */
  lemma UvarintReads(buf: bytes, v: u64, n: nat)
    ensures ReadUvarint(buf) == Some((v, n)) <==>
            n <= |buf| && n <= 10 && EndsOnce(buf[..n]) && Groups(buf[..n]) == v
  {
    hide Shl, ReadUvarintFrom, Groups, EndsOnce;
    assert Pow2(0) == 1;
    ReadsGroups(buf, 0, 0);
    forall k | 0 <= k <= |buf|
      ensures buf[0..k] == buf[..k] && Shl(Groups(buf[0..k]), 7 * 0) == Groups(buf[..k])
    {
      ShiftByNone(Groups(buf[..k]));
    }
    if n <= |buf| && n <= 10 && EndsOnce(buf[..n]) && Groups(buf[..n]) == v {
      NotEmpty(buf[..n]);
      match ReadUvarint(buf) {
        case Some((w, m)) => SameEnd(buf, n, m);
        case None =>
      }
    }
  }

  lemma ShiftByNone(x: nat)
    ensures Shl(x, 0) == x
  {
  }

  lemma NotEmpty(bs: bytes)
    requires EndsOnce(bs)
    ensures bs != []
  {
  }

  lemma SameEnd(buf: bytes, n: nat, m: nat)
    requires n <= |buf| && m <= |buf| && EndsOnce(buf[..n]) && EndsOnce(buf[..m])
    ensures n == m
  {
    GoesOn(buf, n, m);
    GoesOn(buf, m, n);
  }

  lemma GoesOn(buf: bytes, n: nat, m: nat)
    requires n <= |buf| && m <= |buf| && EndsOnce(buf[..m])
    ensures n < m ==> !EndsOnce(buf[..n])
  {
    if 0 < n < m {
      assert buf[..m][n - 1] == buf[..n][n - 1];
    }
  }
}
