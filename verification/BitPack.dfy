/** Bit packing of fixed-width unsigned integers (internal/encoding/bitpack.go).

    A packed region is read as one little-endian natural number, the sum of
    `vals[i] * 2^(i*width)`; packing and unpacking are both related to it. */
module BitPack {
  import opened Bits
  import opened Wrappers

  // ----- specification -----------------------------------------------------

  /** Bytes emitted for n values of the given width. */
  function PackedSize(n: nat, width: nat): nat
  {
    if width == 0 then 0 else (n * width + 7) / 8
  }

  /** The number a packed region stands for; values are cut to `width` bits. */
  function PackedValue(vals: seq<u64>, width: nat): nat
  {
    if |vals| == 0 then 0
    else
      var last := |vals| - 1;
      PackedValue(vals[..last], width) + Shl(Low(vals[last], width), last * width)
  }

  function PackedRegion(vals: seq<u64>, width: nat): bytes
  {
    LEBytes(PackedValue(vals, width), PackedSize(|vals|, width))
  }

  /** The result of unpackInto on a slice of n elements. */
  function Unpacked(src: bytes, n: nat, width: nat): (r: Result<seq<u64>>)
    ensures r.Ok? ==> |r.value| == n
  {
    if width == 0 then Ok(seq(n, _ => 0))
    else if width > 64 then Err(Corrupt)
    else if |src| < PackedSize(n, width) then Err(Truncated)
    else Ok(seq(n, i requires 0 <= i < n => GetBits(src, i * width, width)))
  }

  // ----- minWidth ------------------------------------------------------------

  /** The number of bits needed for values in [0, max]. */
  function Width(max: nat): nat
  {
    if max == 0 then 0 else 1 + Width(max / 2)
  }

  /** Width is the least w with max < 2^w. */
  lemma {:induction false} WidthLeast(max: nat, w: nat)
    ensures max < Pow2(w) <==> Width(max) <= w
    decreases w
  {
    if w > 0 && max > 0 {
      WidthLeast(max / 2, w - 1);
    }
  }

  lemma WidthOf64(max: u64)
    ensures Width(max) <= 64 && max < Pow2(Width(max))
  {
    Pow2Values();
    WidthLeast(max, 64);
    WidthLeast(max, Width(max));
  }

  method MinWidth(max: u64) returns (w: nat)
    ensures w == Width(max)
  {
    w := 0;
    var m: nat := max;
    while m > 0
      invariant w + Width(m) == Width(max)
    {
      w := w + 1;
      assert Shr(m, 1) == m / 2;
      m := Shr(m, 1);
    }
  }

  // ----- appendPacked --------------------------------------------------------

  lemma MaskIs(v: u64, width: nat)
    requires width < 64
    ensures Shl64(1, width) == Pow2(width) >= 1
    ensures And(v, Pow2(width) - 1) == Low(v, width) < TWO64
  {
    Pow2Values();
    Pow2Monotone(width, 63);
    ShlZero(width);
    SmallBits(Pow2(width), 64);
    AndMask(v, width);
    LowBound(v, width);
  }

  /** v << nbits or-ed into an accumulator holding nbits bits. */
  lemma OrShifted(acc: nat, v: u64, nbits: nat, width: nat)
    requires acc < Pow2(nbits) && v < Pow2(width) && nbits + width <= 64
    ensures Or(acc, Shl64(v, nbits)) == acc + Shl(v, nbits) < Pow2(nbits + width) <= TWO64
  {
    JoinBound(acc, v, nbits, width);
    Pow2Monotone(nbits + width, 64);
    Pow2Values();
    SmallBits(Shl(v, nbits), 64);
    OrDisjoint(acc, v, nbits);
  }

  /** The packing loop's state after i values: e has been emitted, acc holds
      the next nbits bits. */
  ghost predicate Packing(e: bytes, acc: nat, nbits: nat, vals: seq<u64>, i: nat, width: nat)
  {
    && i <= |vals|
    && acc < Pow2(nbits)
    && 8 * |e| + nbits == i * width
    && LE(e) + Shl(acc, 8 * |e|) == PackedValue(vals[..i], width)
  }

  /** One more value sits just above the accumulator. */
  lemma PackedStep(e: bytes, acc: nat, nbits: nat, vals: seq<u64>, i: nat, width: nat)
    requires Packing(e, acc, nbits, vals, i, width) && i < |vals|
    ensures PackedValue(vals[..i + 1], width) == LE(e) + Shl(acc + Shl(Low(vals[i], width), nbits), 8 * |e|)
    ensures (i + 1) * width == i * width + width
  {
    assert vals[..i + 1][..i] == vals[..i];
    var v := Low(vals[i], width);
    ShlAdd(v, nbits, 8 * |e|);
    ShlSum(acc, Shl(v, nbits), 8 * |e|);
  }

  lemma PackFits(e: bytes, acc: nat, nbits: nat, vals: seq<u64>, i: nat, width: nat, v: u64)
    requires Packing(e, acc, nbits, vals, i, width) && i < |vals|
    requires v == Low(vals[i], width) && nbits + width <= 64
    ensures Or(acc, Shl64(v, nbits)) < TWO64
    ensures Packing(e, Or(acc, Shl64(v, nbits)), nbits + width, vals, i + 1, width)
  {
    SplitBits(vals[i], width);
    PackedStep(e, acc, nbits, vals, i, width);
    OrShifted(acc, v, nbits, width);
  }

  /** A value split over two words: its low bits complete the current word. */
  lemma PackSpills(e: bytes, acc: nat, nbits: nat, vals: seq<u64>, i: nat, width: nat, v: u64, free: nat)
    requires Packing(e, acc, nbits, vals, i, width) && i < |vals|
    requires v == Low(vals[i], width) && free + nbits == 64 && 1 <= free < width <= 64
    ensures Shl64(1, free) >= 1 && And(v, Shl64(1, free) - 1) < TWO64 && Shr(v, free) < TWO64
    ensures var word := Or(acc, Shl64(And(v, Shl64(1, free) - 1), nbits));
            word < TWO64 && Packing(e + LEBytes(word, 8), Shr(v, free), width - free, vals, i + 1, width)
  {
    hide Or, And, Shl, Shr, Low, Pow2, LE, LEBytes, PackedValue, Shl64;
    MaskIs(v, free);
    ShrLess(v, free);
    SplitBits(vals[i], width);
    SplitBits(v, free);
    PackedStep(e, acc, nbits, vals, i, width);
    OrShifted(acc, Low(v, free), nbits, free);
    var word, high := acc + Shl(Low(v, free), nbits), Shr(v, free);
    Spill(v, acc, free, nbits, width);
    EmitBytes(e, word, 8, high);
  }

  lemma Spill(v: nat, acc: nat, free: nat, nbits: nat, width: nat)
    requires v < Pow2(width) && free < width && free + nbits == 64
    ensures acc + Shl(v, nbits) == (acc + Shl(Low(v, free), nbits)) + Shl(Shr(v, free), 64)
    ensures Shr(v, free) < Pow2(width - free)
  {
    SplitBits(v, free);
    ShlSum(Low(v, free), Shl(Shr(v, free), free), nbits);
    ShlAdd(Shr(v, free), free, nbits);
    ShrBound(v, free, width - free);
  }

  lemma PackFlush(e: bytes, acc: nat, vals: seq<u64>, i: nat, width: nat)
    requires Packing(e, acc, 64, vals, i, width)
    ensures Packing(e + LEBytes(acc, 8), 0, 0, vals, i, width)
  {
    hide Pow2, Shl, LE, LEBytes, PackedValue;
    EmitBytes(e, acc, 8, 0);
    ShlZero(64);
  }

  /** Emitting k bytes moves them from the accumulator to the output. */
  lemma EmitBytes(e: bytes, word: nat, k: nat, high: nat)
    requires word < Pow2(8 * k)
    ensures LE(e + LEBytes(word, k)) + Shl(high, 8 * |e + LEBytes(word, k)|)
            == LE(e) + Shl(word + Shl(high, 8 * k), 8 * |e|)
  {
    hide Pow2, Shl, LE, LEBytes;
    LEConcat(e, LEBytes(word, k));
    LEFits(word, k);
    ShlAdd(high, 8 * k, 8 * |e|);
    ShlSum(word, Shl(high, 8 * k), 8 * |e|);
  }

  /** The final loop: nbits bits are left, to go out byte by byte. */
  ghost predicate Draining(e: bytes, acc: nat, nbits: nat, value: nat, size: nat)
  {
    && acc < Pow2(nbits)
    && |e| + (nbits + 7) / 8 == size
    && LE(e) + Shl(acc, 8 * |e|) == value
  }

  lemma DrainByte(e: bytes, acc: nat, nbits: nat, value: nat, size: nat)
    requires Draining(e, acc, nbits, value, size) && nbits > 0
    ensures Draining(e + [acc % 0x100], Shr(acc, 8), if nbits >= 8 then nbits - 8 else 0, value, size)
  {
    hide Pow2, Shl, Shr, Low, LE, LEBytes;
    ShiftBy8(acc);
    ShiftBy8(Shr(acc, 8));
    Pow2Values();
    OneByte(acc % 0x100);
    EmitBytes(e, acc % 0x100, 1, Shr(acc, 8));
    if nbits >= 8 {
      ShrBound(acc, 8, nbits - 8);
    } else {
      Pow2Monotone(nbits, 8);
    }
  }

  lemma OneByte(b: byte)
    ensures LEBytes(b, 1) == [b] && LE([b]) == b
  {
  }

  lemma PackingStarts(vals: seq<u64>, width: nat)
    ensures Packing([], 0, 0, vals, 0, width)
  {
  }

  lemma EmptyRegion(vals: seq<u64>)
    ensures PackedRegion(vals, 0) == []
  {
  }

  lemma PackingEnds(e: bytes, acc: nat, nbits: nat, vals: seq<u64>, width: nat)
    requires Packing(e, acc, nbits, vals, |vals|, width) && width > 0
    ensures Draining(e, acc, nbits, PackedValue(vals, width), PackedSize(|vals|, width))
  {
    assert vals[..|vals|] == vals;
  }

  lemma Drained(e: bytes, acc: nat, vals: seq<u64>, width: nat)
    requires Draining(e, acc, 0, PackedValue(vals, width), PackedSize(|vals|, width))
    ensures e == PackedRegion(vals, width)
  {
    ShlZero(8 * |e|);
    LEBytesOfLE(e);
  }

  lemma MaskedLow(v: u64, width: nat)
    requires width <= 64
    ensures And(v, Pow2(width) - 1) == Low(v, width) && 0 <= Low(v, width) < TWO64
  {
    AndMask(v, width);
    LowBound(v, width);
  }

  /** Packs vals at `width` bits each, least significant bit first. */
  method AppendPacked(dst: bytes, vals: seq<u64>, width: nat) returns (out: bytes)
    requires width <= 64
    ensures out == dst + PackedRegion(vals, width)
  {
    hide Or, And, Shl, Shr, Low, Pow2, LE, LEBytes, Shl64, PackedSize, PackedRegion, Packing, Draining;
    out := dst;
    if width == 0 {
      EmptyRegion(vals);
      return;
    }
    Pow2Values();
    var mask: u64 := MAX64;
    if width < 64 {
      MaskIs(0, width);
      mask := Shl64(1, width) - 1;
    }
    var acc: u64 := 0;
    var nbits: nat := 0;
    ghost var e: bytes := [];
    PackingStarts(vals, width);
    var i := 0;
    while i < |vals|
      invariant i <= |vals| && nbits < 64 && out == dst + e
      invariant Packing(e, acc, nbits, vals, i, width)
    {
      MaskedLow(vals[i], width);
      var v: u64 := And(vals[i], mask);
      var free := 64 - nbits;
      if width <= free {
        PackFits(e, acc, nbits, vals, i, width, v);
        acc := Or(acc, Shl64(v, nbits));
        nbits := nbits + width;
      } else {
        PackSpills(e, acc, nbits, vals, i, width, v, free);
        acc := Or(acc, Shl64(And(v, Shl64(1, free) - 1), nbits));
        out := out + LEBytes(acc, 8);
        e := e + LEBytes(acc, 8);
        acc := Shr(v, free);
        nbits := width - free;
      }
      i := i + 1;
      if nbits == 64 {
        PackFlush(e, acc, vals, i, width);
        out := out + LEBytes(acc, 8);
        e := e + LEBytes(acc, 8);
        acc := 0;
        nbits := 0;
      }
    }
    PackingEnds(e, acc, nbits, vals, width);
    ghost var value, size := PackedValue(vals, width), PackedSize(|vals|, width);
    while nbits > 0
      invariant out == dst + e
      invariant Draining(e, acc, nbits, value, size)
    {
      DrainByte(e, acc, nbits, value, size);
      ShrLess(acc, 8);
      out := out + [acc % 0x100];
      e := e + [acc % 0x100];
      acc := Shr(acc, 8);
      if nbits >= 8 {
        nbits := nbits - 8;
      } else {
        nbits := 0;
      }
    }
    Drained(e, acc, vals, width);
  }

  // ----- getBits -------------------------------------------------------------

  /** Up to 8 little-endian bytes of src at pos, zero-padded past the end. */
  function Le64At(src: bytes, pos: nat): u64
  {
    if pos >= |src| then 0
    else
      var word := if pos + 8 <= |src| then src[pos..pos + 8] else src[pos..];
      WordBound(word);
      LE(word)
  }

  lemma WordBound(word: bytes)
    requires |word| <= 8
    ensures LE(word) < TWO64
  {
    LEBound(word);
    Pow2Monotone(8 * |word|, 64);
    Pow2Values();
  }

  /** One more byte of a little-endian word. */
  lemma LoadStep(src: bytes, pos: nat, i: nat, v: u64)
    requires i < 8 && pos + i < |src| && v == LE(src[pos..pos + i])
    ensures Or(v, Shl64(src[pos + i], 8 * i)) == LE(src[pos..pos + i + 1]) < TWO64
  {
    hide Or, Shl, Pow2, LE, Shl64;
    var done, b := src[pos..pos + i], src[pos + i];
    assert src[pos..pos + i + 1] == done + [b];
    LEConcat(done, [b]);
    LEBound(done);
    OneByte(b);
    Pow2Values();
    OrShifted(v, b, 8 * i, 8);
  }

  lemma NothingLoaded()
    ensures LE([]) == 0
  {
  }

  method ReadLE64(src: bytes, pos: nat) returns (v: u64)
    ensures v == Le64At(src, pos)
  {
    hide Or, Shl, Pow2, LE, Shl64;
    NothingLoaded();
    assert pos <= |src| ==> src[pos..pos + 0] == [];
    v := 0;
    var i := 0;
    while i < 8 && pos + i < |src|
      invariant i <= 8 && (if pos <= |src| then pos + i <= |src| && v == LE(src[pos..pos + i]) else i == v == 0)
    {
      LoadStep(src, pos, i, v);
      v := Or(v, Shl64(src[pos + i], 8 * i));
      i := i + 1;
    }
    if pos < |src| && i < 8 {
      assert src[pos..pos + i] == src[pos..];
    }
  }

  /** A padded load reads 64 bits of the stream's number. */
  lemma LoadReadsBits(src: bytes, pos: nat)
    ensures Le64At(src, pos) == Low(Shr(LE(src), 8 * pos), 64)
  {
    hide Shl, Shr, Low, Pow2, LE;
    if pos >= |src| {
      LEBound(src);
      Pow2Monotone(8 * |src|, 8 * pos);
      SmallBits(LE(src), 8 * pos);
      ShlZero(64);
      SmallBits(0, 64);
    } else {
      var a, b := src[..pos], src[pos..];
      assert src == a + b;
      LEConcat(a, b);
      LEBound(a);
      JoinBits(LE(a), LE(b), 8 * pos);
      Pow2Values();
      if pos + 8 <= |src| {
        var m, r := src[pos..pos + 8], src[pos + 8..];
        assert b == m + r;
        LEConcat(m, r);
        WordBound(m);
        JoinBits(LE(m), LE(r), 64);
      } else {
        WordBound(b);
        SmallBits(LE(b), 64);
      }
    }
  }

  /** The width-bit value at bit offset off, through one or two padded loads. */
  function GetBits(src: bytes, off: nat, width: nat): u64
    requires width <= 64
  {
    if width == 0 then 0
    else
      var bytePos, bitPos := off / 8, off % 8;
      Masked(Assembled(Le64At(src, bytePos), Le64At(src, bytePos + 8), bitPos, width), width)
  }

  function Masked(v: u64, width: nat): u64
  {
    if width < 64 then
      MaskIs(v, width);
      And(v, Shl64(1, width) - 1)
    else v
  }

  lemma MaskedIsLow(v: u64, width: nat)
    requires width <= 64
    ensures Masked(v, width) == Low(v, width)
  {
    hide And, Low, Pow2, Shl, Shr, Shl64;
    if width < 64 {
      MaskIs(v, width);
    } else {
      Pow2Values();
      SmallBits(v, 64);
    }
  }

  /** The two loads joined; the second one is needed only past bit 64. */
  function Assembled(lo: u64, hi: u64, bitPos: nat, width: nat): u64
    requires bitPos < 8
  {
    var have := 64 - bitPos;
    ShrLess(lo, bitPos);
    OrWords(Shr(lo, bitPos), Shl64(hi, have));
    if have < width then Or(Shr(lo, bitPos), Shl64(hi, have)) else Shr(lo, bitPos)
  }

  lemma OrWords(a: u64, b: u64)
    ensures Or(a, b) < TWO64
  {
    Pow2Values();
    OrBound(a, b, 64);
  }

  /** The assembled word holds the stream's bits from bitPos on, up to width. */
  lemma AssembledBits(n: nat, bitPos: nat, width: nat)
    requires bitPos < 8 && 1 <= width <= 64
    requires Low(n, 64) < TWO64 && Low(Shr(n, 64), 64) < TWO64
    ensures Low(Assembled(Low(n, 64), Low(Shr(n, 64), 64), bitPos, width), width) == Low(Shr(n, bitPos), width)
  {
    hide Shl, Shr, Low, Pow2, Or;
    var have := 64 - bitPos;
    var lo, hi := Low(n, 64), Low(Shr(n, 64), 64);
    var x := Shr(n, bitPos);
    var w := Low(x, have);
    assert Shr(lo, bitPos) == w by {
      LowSplit(n, bitPos, have);
      SplitBits(n, bitPos);
      JoinBits(Low(n, bitPos), w, bitPos);
    }
    if have < width {
      ShrAdd(n, bitPos, have);
      var h := Low(Shr(x, have), bitPos);
      assert Shl64(hi, have) == Shl(h, have) by {
        LowOfShl(hi, have, bitPos);
        TakeBits(Shr(n, 64), bitPos, have);
      }
      SplitBits(x, have);
      OrDisjoint(w, h, have);
      LowSplit(x, have, bitPos);
      TakeBits(x, width, 64 - width);
    } else {
      TakeBits(x, width, have - width);
    }
  }

  /** getBits reads `width` bits of the stream's number at bit offset off,
      however the value straddles bytes and words. */
  lemma GetBitsReads(src: bytes, off: nat, width: nat)
    requires width <= 64
    ensures GetBits(src, off, width) == Low(Shr(LE(src), off), width)
  {
    if width > 0 {
      var bytePos, bitPos := off / 8, off % 8;
      LoadsReadBits(src, bytePos, bitPos);
      var n := Shr(LE(src), 8 * bytePos);
      AssembledBits(n, bitPos, width);
      MaskedIsLow(Assembled(Le64At(src, bytePos), Le64At(src, bytePos + 8), bitPos, width), width);
    }
  }

  lemma LoadsReadBits(src: bytes, bytePos: nat, bitPos: nat)
    ensures var n := Shr(LE(src), 8 * bytePos);
            && Le64At(src, bytePos) == Low(n, 64)
            && Le64At(src, bytePos + 8) == Low(Shr(n, 64), 64)
            && Shr(n, bitPos) == Shr(LE(src), 8 * bytePos + bitPos)
  {
    LoadReadsBits(src, bytePos);
    LoadReadsBits(src, bytePos + 8);
    ShrAdd(LE(src), 8 * bytePos, 64);
    ShrAdd(LE(src), 8 * bytePos, bitPos);
  }

  // ----- round trip ----------------------------------------------------------

  lemma {:induction false} PackedBound(vals: seq<u64>, width: nat)
    ensures PackedValue(vals, width) < Pow2(|vals| * width)
  {
    if |vals| > 0 {
      var last := |vals| - 1;
      PackedBound(vals[..last], width);
      assert |vals| * width == last * width + width;
      SplitBits(vals[last], width);
      JoinBound(PackedValue(vals[..last], width), Low(vals[last], width), last * width, width);
    }
  }

  /** The i-th group of `width` bits of a packed number is the i-th value. */
  lemma {:induction false} PackedAt(vals: seq<u64>, width: nat, i: nat)
    requires i < |vals|
    ensures Low(Shr(PackedValue(vals, width), i * width), width) == Low(vals[i], width)
    decreases |vals|
  {
    hide Shl, Shr, Low, Pow2;
    var last := |vals| - 1;
    var init := vals[..last];
    var x := Low(vals[last], width);
    PackedBound(init, width);
    if i == last {
      SplitBits(vals[last], width);
      JoinBits(PackedValue(init, width), x, i * width);
      SmallBits(x, width);
    } else {
      PackedAt(init, width, i);
      Distribute(last - i - 1, i, width);
      LaterValue(PackedValue(init, width), x, i * width, (last - i - 1) * width, width);
    }
  }

  /** A value packed later does not touch the bits at `at`. */
  lemma LaterValue(n: nat, x: nat, at: nat, gap: nat, width: nat)
    ensures Low(Shr(n + Shl(x, gap + (at + width)), at), width) == Low(Shr(n, at), width)
  {
    hide Shl, Shr, Low;
    ShlAdd(x, gap, at + width);
    LowOfSum(n, Shl(x, gap), at + width);
    TakeBits(n + Shl(x, gap + (at + width)), at, width);
    TakeBits(n, at, width);
  }

  lemma Distribute(a: nat, b: nat, w: nat)
    ensures (a + b + 1) * w == a * w + (b * w + w)
  {
  }

  lemma RegionValue(vals: seq<u64>, width: nat)
    ensures LE(PackedRegion(vals, width)) == PackedValue(vals, width)
  {
    var size := PackedSize(|vals|, width);
    PackedBound(vals, width);
    Pow2Monotone(|vals| * width, 8 * size);
    LEFits(PackedValue(vals, width), size);
  }

  /** Every value of a packed region is read back, cut to `width` bits. */
  lemma GetBitsOfRegion(vals: seq<u64>, width: nat, i: nat)
    requires width <= 64 && i < |vals|
    ensures GetBits(PackedRegion(vals, width), i * width, width) == Low(vals[i], width)
  {
    RegionValue(vals, width);
    GetBitsReads(PackedRegion(vals, width), i * width, width);
    PackedAt(vals, width, i);
  }

  /** Unpacking inverts packing for values that fit the width. */
  lemma UnpackInverts(vals: seq<u64>, width: nat)
    requires width <= 64
    requires forall i :: 0 <= i < |vals| ==> vals[i] < Pow2(width)
    ensures Unpacked(PackedRegion(vals, width), |vals|, width) == Ok(vals)
  {
    var src := PackedRegion(vals, width);
    if width > 0 {
      forall i | 0 <= i < |vals|
        ensures GetBits(src, i * width, width) == vals[i]
      {
        GetBitsOfRegion(vals, width, i);
        SmallBits(vals[i], width);
      }
      assert Unpacked(src, |vals|, width).value == vals;
    } else {
      assert Unpacked(src, |vals|, width).value == vals;
    }
  }

  /** Fills out with values unpacked from src; out is untouched on failure. */
  method UnpackInto(out: array<u64>, src: bytes, width: nat) returns (res: Outcome)
    modifies out
    ensures match Unpacked(src, out.Length, width)
            case Ok(v) => res == Pass && out[..] == v
            case Err(e) => res == Fail(e) && out[..] == old(out[..])
  {
    var i := 0;
    if width == 0 {
      while i < out.Length
        invariant i <= out.Length && forall k :: 0 <= k < i ==> out[k] == 0
      {
        out[i] := 0;
        i := i + 1;
      }
      return Pass;
    }
    if width > 64 {
      return Fail(Corrupt);
    }
    if |src| < PackedSize(out.Length, width) {
      return Fail(Truncated);
    }
    var off := 0;
    while i < out.Length
      invariant i <= out.Length && off == i * width
      invariant forall k :: 0 <= k < i ==> out[k] == GetBits(src, k * width, width)
    {
      out[i] := GetBits(src, off, width);
      assert (i + 1) * width == i * width + width;
      off := off + width;
      i := i + 1;
    }
    return Pass;
  }
}
