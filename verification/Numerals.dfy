/** Decimal numbers in text, as strconv reads and writes them. */
module Numerals {
  import opened Bits
  import opened Wrappers
  import opened Limits
  import opened Varint

  predicate AllDigits(s: bytes) {
    s != [] && forall i :: 0 <= i < |s| ==> 0x30 <= s[i] <= 0x39
  }

  /** What a string of digits stands for. */
  function DecimalValue(s: bytes): nat {
    if s == [] then 0
    else
      var c := s[|s| - 1];
      10 * DecimalValue(s[..|s| - 1]) + if c >= 0x30 then c - 0x30 else 0
  }

  /** strconv.FormatUint in base 10. */
  function Decimal(n: nat): bytes {
    if n < 10 then [0x30 + n] else Decimal(n / 10) + [0x30 + n % 10]
  }

  lemma {:induction false} DecimalReads(n: nat)
    ensures DecimalValue(Decimal(n)) == n && AllDigits(Decimal(n))
  {
    if n < 10 {
      assert Decimal(n)[..0] == [];
    } else {
      DecimalReads(n / 10);
      var front := Decimal(n / 10);
      assert Decimal(n)[..|front|] == front;
    }
  }

  function Pow10(n: nat): nat {
    if n == 0 then 1 else 10 * Pow10(n - 1)
  }

  /** Each digit counts its power of ten. */
  lemma {:induction false} DigitsCount(s: bytes, d: nat, t: bytes)
    requires d < 10
    ensures DecimalValue(s + [0x30 + d] + t) == DecimalValue(s + [0x30] + t) + d * Pow10(|t|)
    decreases |t|
  {
    var a, b := s + [0x30 + d] + t, s + [0x30] + t;
    if t == [] {
      assert a[..|s|] == s && b[..|s|] == s;
    } else {
      var front := t[..|t| - 1];
      DigitsCount(s, d, front);
      assert a[..|a| - 1] == s + [0x30 + d] + front && b[..|b| - 1] == s + [0x30] + front;
      assert 10 * (d * Pow10(|front|)) == d * (10 * Pow10(|front|));
    }
  }

  /** strconv.ParseUint in base 10 with 64 bits. */
  function ParseUint(s: bytes): Option<u64> {
    if AllDigits(s) && DecimalValue(s) <= MAX64 then Some(DecimalValue(s)) else None
  }

  /** strconv.ParseInt in base 10 with 64 bits: a sign may stand in front. */
  function ParseInt(s: bytes): Option<i64> {
    if s != [] && s[0] == 0x2D then
      var n: int := DecimalValue(s[1..]);
      if AllDigits(s[1..]) && n <= MAX_INT + 1 then Some(-n) else None
    else
      var digits := if s != [] && s[0] == 0x2B then s[1..] else s;
      if AllDigits(digits) && DecimalValue(digits) <= MAX_INT then Some(DecimalValue(digits)) else None
  }

  /** strconv.Atoi on a number token: no sign, no dots, and no overflow. */
  function Atoi(s: bytes): Option<nat> {
    if AllDigits(s) && DecimalValue(s) <= MAX_INT then Some(DecimalValue(s)) else None
  }
}
