/** The double-hashed Bloom filter over 64-bit digests (internal/index/bloom.go). */
module BloomFilter {
  import opened Bits
  import opened Wrappers
  import opened Limits
  import opened Libraries
  import opened Varint
  import opened BitPack
  import opened Cursors
  import opened Framing

  /** A finished filter: m = 64 * |words| bits, k probes. */
  datatype Bloom = Bloom(words: seq<u64>, k: byte)

  function SecondHash(h: u64): u64 {
    ShrLess(h, 33);
    OrWords(Shr(h, 33), Shl64(h, 31));
    var h2 := Or(Shr(h, 33), Shl64(h, 31));
    if h2 == 0 then 0x9E3779B97F4A7C15 else h2
  }

  /** The i-th probe: (h1 + i*h2) on uint64, then modulo m. */
  function Probe(h: u64, i: nat, m: nat): (b: nat)
    requires m > 0
    ensures b < m
  {
    ((h + i * SecondHash(h)) % TWO64) % m
  }

  predicate HasBit(words: seq<u64>, b: nat)
    requires b < 64 * |words|
  {
    TestBit(words[b / 64], b % 64)
  }

  predicate MayContain(bl: Bloom, h: u64) {
    && bl.words != []
    && forall i: nat :: i < bl.k ==> HasBit(bl.words, Probe(h, i, 64 * |bl.words|))
  }

  /** The bits set are exactly the probes of the digests added. */
  ghost predicate Holds(bl: Bloom, added: iset<u64>) {
    forall b: nat :: b < 64 * |bl.words| ==>
      (HasBit(bl.words, b) <==> exists h: u64, i: nat :: h in added && i < bl.k && b == Probe(h, i, 64 * |bl.words|))
  }

  /** No false negatives. */
  lemma NoFalseNegatives(bl: Bloom, added: iset<u64>, h: u64)
    requires Holds(bl, added) && bl.words != [] && h in added
    ensures MayContain(bl, h)
  {
    hide TestBit, SecondHash, HasBit;
    forall i: nat | i < bl.k
      ensures HasBit(bl.words, Probe(h, i, 64 * |bl.words|))
    {
    }
  }

  /** A filter under construction. */
  class Builder {
    const bits: array<u64>
    const m: nat
    const k: byte

    ghost predicate Valid() {
      m == 64 * bits.Length && bits.Length >= 1
    }

    ghost function Value(): Bloom
      reads bits
    {
      Bloom(bits[..], k)
    }

    constructor (words: nat, probes: byte)
      requires words >= 1
      ensures Valid() && fresh(bits) && k == probes && bits.Length == words
      ensures Holds(Value(), iset{})
    {
      bits := new u64[words](_ => 0);
      m := words * 64;
      k := probes;
      new;
      forall b: nat | b < 64 * words
        ensures !HasBit(bits[..], b)
      {
        TestBitOfZero(b % 64);
      }
    }

    /** Sets the probed bits and no others. */
    method AddHash(h: u64, ghost added: iset<u64>)
      requires Valid() && Holds(Value(), added)
      modifies bits
      ensures Holds(Value(), added + iset{h})
    {
      hide TestBit, SecondHash;
      ghost var before := bits[..];
      var i := 0;
      while i < k
        invariant 0 <= i <= k
        invariant forall b: nat :: b < m ==>
          (HasBit(bits[..], b) <==> HasBit(before, b) || exists j: nat :: j < i && b == Probe(h, j, m))
      {
        ghost var w := bits[..];
        var bit := Probe(h, i, m);
        SetBitAt(bits[bit / 64], bit % 64);
        bits[bit / 64] := Or(bits[bit / 64], Shl(1, bit % 64));
        forall b: nat | b < m
          ensures HasBit(bits[..], b) <==> HasBit(w, b) || b == bit
        {
          if b / 64 == bit / 64 {
            assert TestBit(bits[b / 64], b % 64) <==> TestBit(w[b / 64], b % 64) || b % 64 == bit % 64;
          }
        }
        i := i + 1;
      }
      AddedOne(Bloom(before, k), Value(), added, h);
    }
  }

  lemma SetBitAt(w: u64, j: nat)
    requires j < 64
    ensures Or(w, Shl(1, j)) < TWO64
    ensures forall i: nat :: TestBit(Or(w, Shl(1, j)), i) <==> TestBit(w, i) || i == j
  {
    Pow2Values();
    ShlZero(j);
    SetBit(w, j, 64);
  }

  lemma AddedOne(a: Bloom, b: Bloom, added: iset<u64>, h: u64)
    requires Holds(a, added) && a.k == b.k && |a.words| == |b.words|
    requires forall x: nat :: x < 64 * |b.words| ==>
      (HasBit(b.words, x) <==> HasBit(a.words, x) || exists j: nat :: j < b.k && x == Probe(h, j, 64 * |b.words|))
    ensures Holds(b, added + iset{h})
  {
    hide TestBit, SecondHash, HasBit, Probe;
  }

  /** Tests the probed bits, stopping at the first that is clear. */
  method MayContainHash(bl: Bloom, h: u64) returns (maybe: bool)
    requires bl.words != []
    ensures maybe == MayContain(bl, h)
  {
    hide TestBit, SecondHash, And;
    var i := 0;
    while i < bl.k
      invariant 0 <= i <= bl.k
      invariant forall j: nat :: j < i ==> HasBit(bl.words, Probe(h, j, 64 * |bl.words|))
    {
      var bit := Probe(h, i, 64 * |bl.words|);
      ShlZero(bit % 64);
      AndPow2(bl.words[bit / 64], bit % 64);
      if And(bl.words[bit / 64], Shl(1, bit % 64)) == 0 {
        return false;
      }
      i := i + 1;
    }
    return true;
  }

  // ----- serialisation ---------------------------------------------------------------

  function WriteWord(j: nat, w: u64, tail: bytes): bytes {
    LEBytes(w, 8) + tail
  }

  function ReadWord(j: nat, c: Cur): Result<(u64, Cur)> {
    Ok(TakeU64(c))
  }

  function BloomBytes(bl: Bloom, tail: bytes): bytes {
    [bl.k] + (Uvarint(|bl.words|) + WriteMany(WriteWord, bl.words, 0, tail))
  }

  function ReadBloom(c0: Cur): (r: Result<(Bloom, Cur)>)
    ensures r.Ok? ==> r.value.0.words != []
  {
    var (k, c1) := TakeU8(c0);
    var (n, c2) := TakeUvarint(c1);
    if n > MAX_BLOOM_WORDS then Err(LimitExceeded)
    else if c2.err.Some? then Err(c2.err.value)
    else
      var (words, c3) :- ReadMany(ReadWord, c2, 0, n);
      if c3.err.Some? then Err(c3.err.value)
      else if n == 0 || k == 0 then Err(Corrupt)
      else Ok((Bloom(words, k), c3))
  }

  predicate BloomFits(bl: Bloom) {
    1 <= |bl.words| <= MAX_BLOOM_WORDS && bl.k >= 1
  }

  lemma WordAppends(j: nat, w: u64)
    ensures Appends(WriteWord, j, w)
  {
    hide LEBytes;
    forall t: bytes
      ensures WriteWord(j, w, t) == WriteWord(j, w, []) + t
    {
      assert LEBytes(w, 8) + [] + t == LEBytes(w, 8) + t;
    }
  }

  lemma WordReads(j: nat, w: u64)
    ensures ReadsBack(WriteWord, ReadWord, j, w)
  {
    hide TakeU64, LEBytes;
    forall t: bytes
      ensures ReadWord(j, Start(WriteWord(j, w, t))) == Ok((w, Start(t)))
    {
      TakeWord64(w, t);
    }
  }

  lemma BloomRoundTrip(bl: Bloom, tail: bytes)
    requires BloomFits(bl)
    ensures ReadBloom(Start(BloomBytes(bl, tail))) == Ok((bl, Start(tail)))
  {
    hide TakeU8, TakeUvarint, Uvarint, ReadMany, WriteMany;
    var t2 := WriteMany(WriteWord, bl.words, 0, tail);
    TakeByte(bl.k, Uvarint(|bl.words|) + t2);
    TakeVarint(|bl.words|, t2);
    forall j: nat | j < |bl.words|
      ensures ReadsBack(WriteWord, ReadWord, j, bl.words[j])
    {
      WordReads(j, bl.words[j]);
    }
    ManyReadBack(WriteWord, ReadWord, bl.words, 0, tail);
    assert bl.words[0..] == bl.words;
  }

  lemma BloomAppends(bl: Bloom, t: bytes)
    ensures BloomBytes(bl, t) == BloomBytes(bl, []) + t
  {
    hide Uvarint, WriteMany;
    forall j: nat | j < |bl.words|
      ensures Appends(WriteWord, j, bl.words[j])
    {
      WordAppends(j, bl.words[j]);
    }
    WriteManyAppends(WriteWord, bl.words, 0, t);
    var w := WriteMany(WriteWord, bl.words, 0, []);
    assert [bl.k] + (Uvarint(|bl.words|) + (w + t)) == [bl.k] + (Uvarint(|bl.words|) + w) + t;
  }

  method AppendBloom(dst: bytes, bl: Bloom) returns (out: bytes)
    ensures out == dst + BloomBytes(bl, [])
  {
    hide Uvarint, WriteMany, LEBytes;
    out := dst + [bl.k];
    out := out + Uvarint(|bl.words|);
    ghost var head := out;
    var i := 0;
    while i < |bl.words|
      invariant 0 <= i <= |bl.words|
      invariant out + WriteMany(WriteWord, bl.words, i, []) == head + WriteMany(WriteWord, bl.words, 0, [])
    {
      WordAppends(i, bl.words[i]);
      WriteStep(WriteWord, bl.words, i, out);
      assert WriteWord(i, bl.words[i], []) == LEBytes(bl.words[i], 8);
      out := out + LEBytes(bl.words[i], 8);
      i := i + 1;
    }
    AllWritten(WriteWord, bl.words);
    assert out == head + WriteMany(WriteWord, bl.words, 0, []);
  }

  lemma AllWritten<T>(w: Writer<T>, items: seq<T>)
    ensures WriteMany(w, items, |items|, []) == []
  {
  }

  method ReadBloomFrom(c: Cursor) returns (r: Result<Bloom>)
    requires c.Valid()
    modifies c
    ensures c.Valid()
    ensures match ReadBloom(old(c.State()))
            case Ok(p) => r == Ok(p.0) && c.State() == p.1
            case Err(e) => r == Err(e)
  {
    hide TakeU8, TakeUvarint, TakeU64, ReadMany, ManyProgress;
    var k := c.U8();
    var n := c.ReadUvarint();
    if CheckCount(n, MAX_BLOOM_WORDS).Fail? {
      return Err(LimitExceeded);
    }
    if c.err.Some? {
      return Err(c.err.value);
    }
    ghost var c2 := c.State();
    var words: seq<u64> := [];
    ManyStart(ReadWord, c2, n);
    while |words| < n
      invariant c.Valid() && |words| <= n && ManyProgress(ReadWord, c2, n, words, c.State())
    {
      ManyStep(ReadWord, c2, n, words, c.State());
      var w := c.U64();
      words := words + [w];
    }
    ManyEnd(ReadWord, c2, n, words, c.State());
    if c.err.Some? {
      return Err(c.err.value);
    }
    if n == 0 || k == 0 {
      return Err(Corrupt);
    }
    return Ok(Bloom(words, k));
  }
}
