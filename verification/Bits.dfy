/** Fixed-width integers, little-endian byte strings and Go's bit operators.

    Words are natural numbers below a power of two. The bit operators are defined
    bit by bit, as the hardware defines them; the lemmas below give the arithmetic
    meaning they have in the places where the codecs use them. */
module Bits {
  type byte = b: int | 0 <= b < 0x100
  type u16 = x: int | 0 <= x < 0x1_0000
  type u32 = x: int | 0 <= x < 0x1_0000_0000
  type u64 = x: int | 0 <= x < TWO64
  type i64 = x: int | -0x8000_0000_0000_0000 <= x < 0x8000_0000_0000_0000
  type bytes = seq<byte>

  const TWO64: int := 0x1_0000_0000_0000_0000
  const MAX64: u64 := TWO64 - 1

  // ----- natural numbers as bit strings -------------------------------------

  /** 2^n. */
  function Pow2(n: nat): (p: nat)
    ensures p >= 1
  {
    if n == 0 then 1 else 2 * Pow2(n - 1)
  }

  /** x * 2^k: x with k zero bits put below it. */
  function Shl(x: nat, k: nat): nat
  {
    if k == 0 then x else 2 * Shl(x, k - 1)
  }

  /** x / 2^k: x without its k low bits. */
  function Shr(x: nat, k: nat): nat
  {
    if k == 0 then x else Shr(x / 2, k - 1)
  }

  /** x modulo 2^k: the k low bits of x. */
  function Low(x: nat, k: nat): nat
  {
    if k == 0 then 0 else x % 2 + 2 * Low(x / 2, k - 1)
  }

  /** Bit k of x. */
  predicate TestBit(x: nat, k: nat)
  {
    if k == 0 then x % 2 == 1 else TestBit(x / 2, k - 1)
  }

  lemma {:induction false} Pow2Monotone(a: nat, b: nat)
    requires a <= b
    ensures Pow2(a) <= Pow2(b)
    decreases b
  {
    if a < b {
      Pow2Monotone(a, b - 1);
    }
  }

  lemma Pow2Values()
    ensures Pow2(1) == 2 && Pow2(3) == 8 && Pow2(7) == 0x80 && Pow2(8) == 0x100
    ensures Pow2(16) == 0x1_0000 && Pow2(32) == 0x1_0000_0000
    ensures Pow2(63) == 0x8000_0000_0000_0000 && Pow2(64) == TWO64
  {
    assert Pow2(16) == 0x1_0000;
    assert Pow2(24) == 0x100_0000;
    assert Pow2(32) == 0x1_0000_0000;
    assert Pow2(40) == 0x100_0000_0000;
    assert Pow2(48) == 0x1_0000_0000_0000;
    assert Pow2(56) == 0x100_0000_0000_0000;
  }

  lemma {:induction false} ShlMeaning(x: nat, k: nat)
    ensures Shl(x, k) == x * Pow2(k)
  {
    if k != 0 {
      ShlMeaning(x, k - 1);
      Twice(x, Pow2(k - 1));
    }
  }

  lemma Twice(x: nat, p: nat)
    ensures x * (2 * p) == 2 * (x * p)
  {
  }

  /** The three shifts in terms of multiplication, division and remainder. */
  lemma ShiftMeaning(x: nat, k: nat)
    ensures Shl(x, k) == x * Pow2(k)
    ensures Shr(x, k) == x / Pow2(k)
    ensures Low(x, k) == x % Pow2(k)
  {
    ShlMeaning(x, k);
    SplitBits(x, k);
    ShlMeaning(Shr(x, k), k);
    DivModUnique(x, Pow2(k), Shr(x, k), Low(x, k));
  }

  lemma DivModUnique(n: int, d: int, q: int, r: int)
    requires d > 0 && n == q * d + r && 0 <= r < d
    ensures n / d == q && n % d == r
  {
    var q', r' := n / d, n % d;
    assert (q - q') * d == r' - r by {
      assert q' * d + r' == n;
      assert (q - q') * d == q * d - q' * d;
    }
    if q > q' {
      MulAtLeast(q - q', d);
    } else if q < q' {
      MulAtLeast(q' - q, d);
    }
  }

  lemma MulAtLeast(k: int, d: int)
    requires k >= 1 && d > 0
    ensures k * d >= d
  {
    assert k * d == (k - 1) * d + d;
    assert (k - 1) * d >= 0;
  }

  /** Shifts by a constant number of bits, as plain arithmetic. */
  lemma ShiftBy8(x: nat)
    ensures Shl(x, 8) == 0x100 * x && Shr(x, 8) == x / 0x100 && Low(x, 8) == x % 0x100
  {
    ShiftMeaning(x, 8);
  }

  lemma ShiftBy7(x: nat)
    ensures Shl(x, 7) == 0x80 * x && Shr(x, 7) == x / 0x80 && Low(x, 7) == x % 0x80
  {
    ShiftMeaning(x, 7);
  }

  lemma ShiftBy64(x: nat)
    ensures Shl(x, 64) == TWO64 * x && Shr(x, 64) == x / TWO64 && Low(x, 64) == x % TWO64
  {
    Pow2Values();
    ShiftMeaning(x, 64);
  }

  lemma {:induction false} ShlSum(x: nat, y: nat, k: nat)
    ensures Shl(x + y, k) == Shl(x, k) + Shl(y, k)
  {
    if k != 0 {
      ShlSum(x, y, k - 1);
    }
  }

  lemma {:induction false} ShlZero(k: nat)
    ensures Shl(0, k) == 0 && Shl(1, k) == Pow2(k)
  {
    if k != 0 {
      ShlZero(k - 1);
    }
  }

  lemma {:induction false} ShlAdd(x: nat, a: nat, b: nat)
    ensures Shl(Shl(x, a), b) == Shl(x, a + b)
  {
    if b != 0 {
      ShlAdd(x, a, b - 1);
      assert Shl(x, a + b) == 2 * Shl(x, a + b - 1);
    }
  }

  lemma {:induction false} ShrAdd(x: nat, a: nat, b: nat)
    ensures Shr(Shr(x, a), b) == Shr(x, a + b)
  {
    if a != 0 {
      ShrAdd(x / 2, a - 1, b);
      assert Shr(x, a + b) == Shr(x / 2, a - 1 + b);
    }
  }

  /** x is its low bits below its high bits. */
  lemma {:induction false} SplitBits(x: nat, k: nat)
    ensures x == Low(x, k) + Shl(Shr(x, k), k)
    ensures Low(x, k) < Pow2(k)
  {
    if k != 0 {
      SplitBits(x / 2, k - 1);
    }
  }

  /** A value below 2^k under a shifted one: both are recovered. */
  lemma {:induction false} JoinBits(r: nat, q: nat, k: nat)
    requires r < Pow2(k)
    ensures Shr(r + Shl(q, k), k) == q && Low(r + Shl(q, k), k) == r
  {
    if k != 0 {
      JoinBits(r / 2, q, k - 1);
      assert (r + Shl(q, k)) / 2 == r / 2 + Shl(q, k - 1);
      assert (r + Shl(q, k)) % 2 == r % 2;
    }
  }

  lemma SmallBits(r: nat, k: nat)
    requires r < Pow2(k)
    ensures Shr(r, k) == 0 && Low(r, k) == r
  {
    ShlZero(k);
    JoinBits(r, 0, k);
  }

  /** The low a + b bits are the low a bits and the b bits above them. */
  lemma {:induction false} LowSplit(x: nat, a: nat, b: nat)
    ensures Low(x, a + b) == Low(x, a) + Shl(Low(Shr(x, a), b), a)
  {
    if a != 0 {
      LowSplit(x / 2, a - 1, b);
      assert Low(x, a + b) == x % 2 + 2 * Low(x / 2, a - 1 + b);
    }
  }

  /** Bits from a on, of a number cut above bit a + b, are the original's. */
  lemma TakeBits(x: nat, a: nat, b: nat)
    ensures Low(Shr(Low(x, a + b), a), b) == Low(Shr(x, a), b)
    ensures Low(Low(x, a + b), a) == Low(x, a)
  {
    LowSplit(x, a, b);
    SplitBits(x, a);
    JoinBits(Low(x, a), Low(Shr(x, a), b), a);
    SplitBits(Shr(x, a), b);
    SmallBits(Low(Shr(x, a), b), b);
  }

  /** What is added above the low m bits does not change them. */
  lemma {:induction false} LowOfSum(x: nat, y: nat, m: nat)
    ensures Low(x + Shl(y, m), m) == Low(x, m)
  {
    if m != 0 {
      LowOfSum(x / 2, y, m - 1);
      assert (x + Shl(y, m)) / 2 == x / 2 + Shl(y, m - 1);
    }
  }

  lemma LowOfShl(x: nat, a: nat, b: nat)
    ensures Low(Shl(x, a), a + b) == Shl(Low(x, b), a)
  {
    LowSplit(Shl(x, a), a, b);
    JoinBits(0, x, a);
  }

  lemma LowBound(x: nat, k: nat)
    requires k <= 64
    ensures Low(x, k) < TWO64
  {
    SplitBits(x, k);
    Pow2Monotone(k, 64);
    Pow2Values();
  }

  /** A value of b bits shifted up by a stays below 2^(a+b), with room below. */
  lemma {:induction false} JoinBound(r: nat, q: nat, a: nat, b: nat)
    requires r < Pow2(a) && q < Pow2(b)
    ensures r + Shl(q, a) < Pow2(a + b)
  {
    if a != 0 {
      JoinBound(r / 2, q, a - 1, b);
      assert Pow2(a + b) == 2 * Pow2(a - 1 + b);
    }
  }

  lemma {:induction false} ShrBound(x: nat, a: nat, b: nat)
    requires x < Pow2(a + b)
    ensures Shr(x, a) < Pow2(b)
  {
    if a != 0 {
      assert Pow2(a + b) == 2 * Pow2(a - 1 + b);
      ShrBound(x / 2, a - 1, b);
    }
  }

  lemma {:induction false} ShrLess(x: nat, k: nat)
    ensures Shr(x, k) <= x
  {
    if k != 0 {
      ShrLess(x / 2, k - 1);
    }
  }

  // ----- little-endian byte strings ----------------------------------------

  /** The natural number a little-endian byte string stands for. */
  function LE(bs: bytes): nat
  {
    if |bs| == 0 then 0 else bs[0] + 0x100 * LE(bs[1..])
  }

  /** The n low bytes of v, least significant first. */
  function LEBytes(v: nat, n: nat): (bs: bytes)
    ensures |bs| == n
  {
    if n == 0 then [] else [v % 0x100] + LEBytes(v / 0x100, n - 1)
  }

  lemma {:induction false} LEBound(bs: bytes)
    ensures LE(bs) < Pow2(8 * |bs|)
  {
    hide Pow2, Shl;
    Pow2Values();
    if |bs| > 0 {
      LEBound(bs[1..]);
      ShiftBy8(LE(bs[1..]));
      JoinBound(bs[0], LE(bs[1..]), 8, 8 * |bs[1..]|);
    }
  }

  lemma {:induction false} LEConcat(a: bytes, b: bytes)
    ensures LE(a + b) == LE(a) + Shl(LE(b), 8 * |a|)
  {
    if |a| == 0 {
      assert a + b == b;
    } else {
      assert (a + b)[1..] == a[1..] + b;
      LEConcat(a[1..], b);
      ShlAdd(LE(b), 8 * |a[1..]|, 8);
      ShiftBy8(Shl(LE(b), 8 * |a[1..]|));
    }
  }

  /** Writing n bytes of v and reading them back keeps the 8n low bits of v. */
  lemma {:induction false} LEOfLEBytes(v: nat, n: nat)
    ensures LE(LEBytes(v, n)) == Low(v, 8 * n)
  {
    if n > 0 {
      LEOfLEBytes(v / 0x100, n - 1);
      assert LEBytes(v, n)[1..] == LEBytes(v / 0x100, n - 1);
      LowSplit(v, 8, 8 * (n - 1));
      ShiftBy8(v);
      ShiftBy8(Low(v / 0x100, 8 * (n - 1)));
    }
  }

  lemma {:induction false} LEBytesOfLE(bs: bytes)
    ensures LEBytes(LE(bs), |bs|) == bs
  {
    if |bs| > 0 {
      LEBytesOfLE(bs[1..]);
      assert bs == [bs[0]] + bs[1..];
    }
  }

  lemma LEFits(v: nat, n: nat)
    requires v < Pow2(8 * n)
    ensures LE(LEBytes(v, n)) == v
  {
    LEOfLEBytes(v, n);
    SmallBits(v, 8 * n);
  }

  lemma LEWord(v: u64)
    ensures LE(LEBytes(v, 8)) == v
  {
    Pow2Values();
    LEFits(v, 8);
  }

  // ----- Go's bit operators on unsigned words ------------------------------

  function Or(a: nat, b: nat): nat
    decreases a + b
  {
    if a == 0 && b == 0 then 0
    else (if a % 2 == 1 || b % 2 == 1 then 1 else 0) + 2 * Or(a / 2, b / 2)
  }

  function And(a: nat, b: nat): nat
    decreases a + b
  {
    if a == 0 && b == 0 then 0
    else (if a % 2 == 1 && b % 2 == 1 then 1 else 0) + 2 * And(a / 2, b / 2)
  }

  function Xor(a: nat, b: nat): nat
    decreases a + b
  {
    if a == 0 && b == 0 then 0
    else (if a % 2 != b % 2 then 1 else 0) + 2 * Xor(a / 2, b / 2)
  }

  /** `x << k` on a 64-bit word: bits shifted past bit 63 are lost. */
  function Shl64(x: u64, k: nat): u64
  {
    LowBound(Shl(x, k), 64);
    Low(Shl(x, k), 64)
  }

  lemma DoubleWord(x: u64)
    ensures Shl64(x, 1) == if 2 * x < TWO64 then 2 * x else 2 * x - TWO64
  {
    ShiftBy64(2 * x);
    assert Shl(x, 1) == 2 * x;
  }

  lemma {:induction false} OrZero(b: nat)
    ensures Or(0, b) == b && Or(b, 0) == b
    decreases b
  {
    if b != 0 {
      OrZero(b / 2);
    }
  }

  /** Or-ing in a value above the bits in use is addition. */
  lemma {:induction false} OrDisjoint(a: nat, b: nat, k: nat)
    requires a < Pow2(k)
    ensures Or(a, Shl(b, k)) == a + Shl(b, k)
  {
    if k == 0 {
      OrZero(b);
    } else {
      OrDisjoint(a / 2, b, k - 1);
      assert Shl(b, k) / 2 == Shl(b, k - 1) && Shl(b, k) % 2 == 0;
    }
  }

  lemma {:induction false} AndZero(a: nat)
    ensures And(a, 0) == 0
    decreases a
  {
    if a != 0 {
      AndZero(a / 2);
    }
  }

  /** Masking with 2^k - 1 keeps the k low bits. */
  lemma {:induction false} AndMask(a: nat, k: nat)
    ensures And(a, Pow2(k) - 1) == Low(a, k)
  {
    if k == 0 {
      AndZero(a);
    } else {
      AndMask(a / 2, k - 1);
      assert (Pow2(k) - 1) / 2 == Pow2(k - 1) - 1 && (Pow2(k) - 1) % 2 == 1;
    }
  }

  lemma {:induction false} XorZero(a: nat)
    ensures Xor(a, 0) == a
    decreases a
  {
    if a != 0 {
      XorZero(a / 2);
    }
  }

  /** Xor with k ones complements a k-bit word. */
  lemma {:induction false} XorOnes(a: nat, k: nat)
    requires a < Pow2(k)
    ensures Xor(a, Pow2(k) - 1) == Pow2(k) - 1 - a
  {
    if k > 0 {
      var p := Pow2(k - 1);
      XorOnes(a / 2, k - 1);
      assert (Pow2(k) - 1) / 2 == p - 1 && (Pow2(k) - 1) % 2 == 1;
    }
  }

  lemma XorWord(a: u64)
    ensures Xor(a, MAX64) == MAX64 - a
  {
    Pow2Values();
    XorOnes(a, 64);
  }

  lemma {:induction false} TestBitOfOr(a: nat, b: nat, k: nat)
    ensures TestBit(Or(a, b), k) <==> TestBit(a, k) || TestBit(b, k)
    decreases k
  {
    if k == 0 {
    } else {
      TestBitOfOr(a / 2, b / 2, k - 1);
      assert Or(a, b) / 2 == Or(a / 2, b / 2);
    }
  }

  lemma {:induction false} TestBitOfPow2(j: nat, k: nat)
    ensures TestBit(Pow2(j), k) <==> j == k
    decreases k
  {
    if j == 0 {
      if k > 0 {
        TestBitOfZero(k - 1);
      }
    } else if k > 0 {
      TestBitOfPow2(j - 1, k - 1);
      assert Pow2(j) / 2 == Pow2(j - 1);
    }
  }

  lemma {:induction false} TestBitOfZero(k: nat)
    ensures !TestBit(0, k)
  {
    if k > 0 {
      TestBitOfZero(k - 1);
    }
  }

  /** The test `w & (1 << k) != 0` is a test of bit k. */
  lemma {:induction false} AndPow2(a: nat, k: nat)
    ensures And(a, Pow2(k)) != 0 <==> TestBit(a, k)
    decreases k
  {
    if k == 0 {
      AndZero(a / 2);
    } else {
      AndPow2(a / 2, k - 1);
      assert Pow2(k) / 2 == Pow2(k - 1) && Pow2(k) % 2 == 0;
    }
  }

  /** Or-ing k-bit words stays within k bits. */
  lemma {:induction false} OrBound(a: nat, b: nat, k: nat)
    requires a < Pow2(k) && b < Pow2(k)
    ensures Or(a, b) < Pow2(k)
  {
    if k > 0 {
      OrBound(a / 2, b / 2, k - 1);
    }
  }

  /** Setting bit j of a k-bit word sets that bit and keeps every other. */
  lemma SetBit(w: nat, j: nat, k: nat)
    requires w < Pow2(k) && j < k
    ensures Or(w, Pow2(j)) < Pow2(k)
    ensures forall i: nat :: TestBit(Or(w, Pow2(j)), i) <==> TestBit(w, i) || i == j
  {
    Pow2Monotone(j + 1, k);
    OrBound(w, Pow2(j), k);
    forall i: nat
      ensures TestBit(Or(w, Pow2(j)), i) <==> TestBit(w, i) || i == j
    {
      TestBitOfOr(w, Pow2(j), i);
      TestBitOfPow2(j, i);
    }
  }

  // ----- what bits are ------------------------------------------------------

  /** Bit k is the k-th binary digit. */
  lemma TestBitIs(x: nat, k: nat)
    ensures TestBit(x, k) <==> x / Pow2(k) % 2 == 1
  {
    TestBitShr(x, k);
    ShiftMeaning(x, k);
  }

  lemma {:induction false} TestBitShr(x: nat, k: nat)
    ensures TestBit(x, k) <==> Shr(x, k) % 2 == 1
  {
    if k > 0 {
      TestBitShr(x / 2, k - 1);
    }
  }

  lemma {:induction false} TestBitOfAnd(a: nat, b: nat, k: nat)
    ensures TestBit(And(a, b), k) <==> TestBit(a, k) && TestBit(b, k)
    decreases k
  {
    if k > 0 {
      TestBitOfAnd(a / 2, b / 2, k - 1);
      assert And(a, b) / 2 == And(a / 2, b / 2);
    }
  }

  lemma {:induction false} TestBitOfXor(a: nat, b: nat, k: nat)
    ensures TestBit(Xor(a, b), k) <==> (TestBit(a, k) != TestBit(b, k))
    decreases k
  {
    if k > 0 {
      TestBitOfXor(a / 2, b / 2, k - 1);
      assert Xor(a, b) / 2 == Xor(a / 2, b / 2);
    }
  }
}
