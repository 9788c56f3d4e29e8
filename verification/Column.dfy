/** Column vectors, presence bitmaps, statistics and the column builder
    (internal/column/column.go, internal/column/builder.go). */
module Column {
  import opened Bits
  import opened Wrappers
  import opened Limits
  import opened Sorting

  datatype Kind = KindInt | KindBytes {
    function Code(): byte {
      if KindInt? then 0 else 1
    }
  }

  /** One logical value of a column. */
  datatype Cell = Null | Int(v: u64) | Blob(b: bytes)

  predicate CellOk(kind: Kind, c: Cell) {
    match c
    case Null => true
    case Int(_) => kind == KindInt
    case Blob(_) => kind == KindBytes
  }

  ghost predicate ColumnOk(kind: Kind, cells: seq<Cell>) {
    forall i :: 0 <= i < |cells| ==> CellOk(kind, cells[i])
  }

  predicate HasNulls(cells: seq<Cell>) {
    Null in cells
  }

  /** The value stream: one entry per row, a placeholder for a null. */
  function IntsOf(cells: seq<Cell>): (s: seq<u64>)
    ensures |s| == |cells|
  {
    seq(|cells|, i requires 0 <= i < |cells| => if cells[i].Int? then cells[i].v else 0)
  }

  function BlobsOf(cells: seq<Cell>): (s: seq<bytes>)
    ensures |s| == |cells|
  {
    seq(|cells|, i requires 0 <= i < |cells| => if cells[i].Blob? then cells[i].b else [])
  }

  function PresentOf(cells: seq<Cell>): (s: seq<bool>)
    ensures |s| == |cells|
  {
    seq(|cells|, i requires 0 <= i < |cells| => !cells[i].Null?)
  }

  /** The three vectors of a column with one more row. */
  lemma AppendCell(cells: seq<Cell>, c: Cell)
    ensures IntsOf(cells + [c]) == IntsOf(cells) + [if c.Int? then c.v else 0]
    ensures BlobsOf(cells + [c]) == BlobsOf(cells) + [if c.Blob? then c.b else []]
    ensures PresentOf(cells + [c]) == PresentOf(cells) + [!c.Null?]
    ensures HasNulls(cells + [c]) <==> HasNulls(cells) || c.Null?
  {
  }

  // ----- presence bitmap ------------------------------------------------------------

  /** Bit i of a bitmap, as Get tests it. */
  predicate BitAt(bits: bytes, i: nat)
    requires i / 8 < |bits|
  {
    And(bits[i / 8], Shl(1, i % 8)) != 0
  }

  function BitmapSize(n: nat): nat {
    (n + 7) / 8
  }

  /** The number whose bit i says whether row i is present. */
  function PresenceWord(present: seq<bool>): nat {
    if present == [] then 0 else (if present[0] then 1 else 0) + 2 * PresenceWord(present[1..])
  }

  function PresenceBytes(present: seq<bool>): (bs: bytes)
    ensures |bs| == BitmapSize(|present|)
  {
    LEBytes(PresenceWord(present), BitmapSize(|present|))
  }

  lemma {:induction false} PresenceWordBit(present: seq<bool>, i: nat)
    ensures TestBit(PresenceWord(present), i) <==> i < |present| && present[i]
  {
    if present == [] {
      TestBitOfZero(i);
    } else if i > 0 {
      PresenceWordBit(present[1..], i - 1);
      assert PresenceWord(present) / 2 == PresenceWord(present[1..]);
    }
  }

  lemma {:induction false} TestBitAdd(x: nat, a: nat, b: nat)
    ensures TestBit(Shr(x, a), b) == TestBit(x, a + b)
  {
    if a > 0 {
      TestBitAdd(x / 2, a - 1, b);
      assert TestBit(x, a + b) == TestBit(x / 2, a - 1 + b);
    }
  }

  lemma {:induction false} TestBitLow(x: nat, k: nat, b: nat)
    requires b < k
    ensures TestBit(Low(x, k), b) == TestBit(x, b)
  {
    if b > 0 {
      TestBitLow(x / 2, k - 1, b - 1);
      assert Low(x, k) / 2 == Low(x / 2, k - 1);
    }
  }

  lemma {:induction false} LEBytesBit(v: nat, n: nat, k: nat, j: nat)
    requires k < n && j < 8
    ensures TestBit(LEBytes(v, n)[k], j) == TestBit(v, 8 * k + j)
    decreases k
  {
    ShiftBy8(v);
    if k == 0 {
      TestBitLow(v, 8, j);
    } else {
      LEBytesBit(v / 0x100, n - 1, k - 1, j);
      TestBitAdd(v, 8, 8 * (k - 1) + j);
    }
  }

  /** Reading bit i of the stored bitmap tells whether row i is present. */
  lemma PresenceBit(present: seq<bool>, i: nat)
    requires i < |present|
    ensures i / 8 < BitmapSize(|present|)
    ensures BitAt(PresenceBytes(present), i) == present[i]
  {
    var k, j := i / 8, i % 8;
    ShlZero(j);
    AndPow2(PresenceBytes(present)[k], j);
    LEBytesBit(PresenceWord(present), BitmapSize(|present|), k, j);
    PresenceWordBit(present, i);
  }

  /** A byte is determined by its eight bits. */
  lemma {:induction false} SameBits(a: nat, b: nat, k: nat)
    requires a < Pow2(k) && b < Pow2(k)
    requires forall j: nat :: j < k ==> (TestBit(a, j) <==> TestBit(b, j))
    ensures a == b
  {
    if k > 0 {
      assert TestBit(a, 0) <==> TestBit(b, 0);
      forall j: nat | j < k - 1
        ensures TestBit(a / 2, j) <==> TestBit(b / 2, j)
      {
        assert TestBit(a, j + 1) <==> TestBit(b, j + 1);
      }
      SameBits(a / 2, b / 2, k - 1);
    }
  }

  /** A bitmap object over n rows. */
  class Bitmap {
    const bits: array<byte>
    const n: nat

    ghost predicate Valid()
    {
      bits.Length == BitmapSize(n)
    }

    ghost predicate Has(i: nat)
      requires Valid() && i < 8 * BitmapSize(n)
      reads bits
    {
      TestBit(bits[i / 8], i % 8)
    }

    constructor (rows: nat)
      ensures Valid() && n == rows && fresh(bits)
      ensures forall i: nat :: i < 8 * BitmapSize(n) ==> !Has(i)
    {
      n := rows;
      bits := new byte[(rows + 7) / 8](_ => 0);
      new;
      forall i: nat | i < 8 * BitmapSize(n)
        ensures !Has(i)
      {
        TestBitOfZero(i % 8);
      }
    }

    /** Marks row i present and no other. */
    method Set(i: nat)
      requires Valid() && i < n
      modifies bits
      ensures forall k: nat :: k < 8 * BitmapSize(n) ==> (Has(k) <==> old(Has(k)) || k == i)
    {
      ShlZero(i % 8);
      Pow2Values();
      SetBit(bits[i / 8], i % 8, 8);
      var b := bits[i / 8];
      bits[i / 8] := Or(b, Shl(1, i % 8));
      forall k: nat | k < 8 * BitmapSize(n)
        ensures Has(k) <==> old(Has(k)) || k == i
      {
        if k / 8 == i / 8 {
          assert TestBit(Or(b, Pow2(i % 8)), k % 8) <==> TestBit(b, k % 8) || k % 8 == i % 8;
        }
      }
    }

    method Get(i: nat) returns (present: bool)
      requires Valid() && i < n
      ensures present == Has(i) == BitAt(bits[..], i)
    {
      ShlZero(i % 8);
      AndPow2(bits[i / 8], i % 8);
      present := And(bits[i / 8], Shl(1, i % 8)) != 0;
    }

    /** The stored form is determined by which rows are present. */
    lemma BytesAre(present: seq<bool>)
      requires Valid() && n == |present|
      requires forall i: nat :: i < 8 * BitmapSize(n) ==> (Has(i) <==> i < n && present[i])
      ensures bits[..] == PresenceBytes(present)
    {
      Pow2Values();
      var want := PresenceBytes(present);
      forall k: nat | k < BitmapSize(n)
        ensures bits[k] == want[k]
      {
        forall j: nat | j < 8
          ensures TestBit(bits[k], j) <==> TestBit(want[k], j)
        {
          var i := 8 * k + j;
          assert i / 8 == k && i % 8 == j;
          assert Has(i) <==> i < n && present[i];
          LEBytesBit(PresenceWord(present), BitmapSize(n), k, j);
          PresenceWordBit(present, i);
        }
        SameBits(bits[k], want[k], 8);
      }
    }
  }

  // ----- decoded vectors --------------------------------------------------------------

  /** A decoded column: present == None means no nulls. */
  datatype Data = Data(kind: Kind, ints: seq<u64>, blobs: seq<bytes>, present: Option<bytes>, rows: nat)

  ghost predicate DataOk(d: Data) {
    && (d.kind == KindInt ==> |d.ints| == d.rows)
    && (d.kind == KindBytes ==> |d.blobs| == d.rows)
    && (d.present.Some? ==> |d.present.value| == BitmapSize(d.rows))
  }

  predicate IsNull(d: Data, i: nat)
    requires DataOk(d) && i < d.rows
  {
    d.present.Some? && !BitAt(d.present.value, i)
  }

  /** The logical values a decoded vector stands for. */
  function CellsOf(d: Data): (cells: seq<Cell>)
    requires DataOk(d)
    ensures |cells| == d.rows
  {
    seq(d.rows, i requires 0 <= i < d.rows =>
      if IsNull(d, i) then Null else if d.kind == KindInt then Int(d.ints[i]) else Blob(d.blobs[i]))
  }

  /** The vector a column decodes to. */
  function DataFor(kind: Kind, cells: seq<Cell>): Data {
    Data(kind,
         if kind == KindInt then IntsOf(cells) else [],
         if kind == KindBytes then BlobsOf(cells) else [],
         if HasNulls(cells) then Some(PresenceBytes(PresentOf(cells))) else None,
         |cells|)
  }

  /** It is null exactly at the null rows and holds the values elsewhere. */
  lemma DataForMeans(kind: Kind, cells: seq<Cell>)
    requires ColumnOk(kind, cells)
    ensures DataOk(DataFor(kind, cells)) && CellsOf(DataFor(kind, cells)) == cells
  {
    hide PresenceBytes, BitAt;
    var d := DataFor(kind, cells);
    forall i | 0 <= i < |cells|
      ensures CellsOf(d)[i] == cells[i]
    {
      PresenceBit(PresentOf(cells), i);
      assert CellOk(kind, cells[i]);
    }
  }

  // ----- statistics ---------------------------------------------------------------------

  datatype Stats = Stats(
    rows: nat, nonNull: nat, hasNulls: bool, minInt: u64, maxInt: u64, minBytes: bytes, maxBytes: bytes)

  function CountPresent(cells: seq<Cell>): nat {
    if cells == [] then 0
    else CountPresent(cells[..|cells| - 1]) + if cells[|cells| - 1].Null? then 0 else 1
  }

  predicate NotAbove(a: bytes, b: bytes) {
    !BytesLess(b, a)
  }

  /** The zone map: true bounds, attained, over the present values. */
  ghost predicate StatsOf(st: Stats, kind: Kind, cells: seq<Cell>) {
    && st.rows == |cells|
    && st.nonNull == CountPresent(cells)
    && st.hasNulls == HasNulls(cells)
    && (forall i :: 0 <= i < |cells| && cells[i].Int? ==> st.minInt <= cells[i].v <= st.maxInt)
    && (forall i :: 0 <= i < |cells| && cells[i].Blob? ==>
          NotAbove(st.minBytes, cells[i].b) && NotAbove(cells[i].b, st.maxBytes))
    && (if kind == KindInt && st.nonNull > 0 then Int(st.minInt) in cells && Int(st.maxInt) in cells
        else st.minInt == st.maxInt == 0)
    && (if kind == KindBytes && st.nonNull > 0 then Blob(st.minBytes) in cells && Blob(st.maxBytes) in cells
        else st.minBytes == st.maxBytes == [])
  }

  lemma {:induction false} CountPresentPositive(cells: seq<Cell>)
    ensures CountPresent(cells) == 0 <==> forall i :: 0 <= i < |cells| ==> cells[i].Null?
    ensures CountPresent(cells) <= |cells|
  {
    if cells != [] {
      var last := |cells| - 1;
      CountPresentPositive(cells[..last]);
      if CountPresent(cells[..last]) != 0 {
        var i :| 0 <= i < last && !cells[..last][i].Null?;
        assert !cells[i].Null?;
      }
    }
  }

  lemma CountStep(cells: seq<Cell>, i: nat)
    requires i < |cells|
    ensures CountPresent(cells[..i + 1]) == CountPresent(cells[..i]) + if cells[i].Null? then 0 else 1
  {
    assert cells[..i + 1][..i] == cells[..i];
  }

  lemma NonePresent()
    ensures CountPresent([]) == 0
  {
  }

  /** Growing the bounds by one present value. */
  lemma BoundsGrow(min: bytes, max: bytes, v: bytes, w: bytes)
    requires NotAbove(min, w) && NotAbove(w, max)
    ensures NotAbove(if BytesLess(v, min) then v else min, w)
    ensures NotAbove(w, if BytesLess(max, v) then v else max)
  {
    BytesOrder();
  }

  lemma BoundsHold(min: bytes, max: bytes, v: bytes)
    ensures NotAbove(if BytesLess(v, min) then v else min, v)
    ensures NotAbove(v, if BytesLess(max, v) then v else max)
    ensures NotAbove(v, v)
  {
    BytesOrder();
  }

  // ----- the builder -----------------------------------------------------------------------

  class Builder {
    const kind: Kind
    var ints: seq<u64>
    var blobs: seq<bytes>
    var present: Option<seq<bool>>   // None until the first null
    var rows: nat

    /** The values appended since the last reset. */
    ghost var cells: seq<Cell>

    ghost predicate Valid()
      reads this
    {
      && ColumnOk(kind, cells)
      && rows == |cells|
      && (kind == KindInt ==> ints == IntsOf(cells))
      && (kind == KindBytes ==> blobs == BlobsOf(cells))
      && present == if HasNulls(cells) then Some(PresentOf(cells)) else None
    }

    constructor (k: Kind)
      ensures Valid() && kind == k && cells == []
    {
      kind := k;
      ints, blobs, present, rows := [], [], None, 0;
      cells := [];
    }

    method AppendInt(v: u64)
      requires Valid() && kind == KindInt
      modifies this
      ensures Valid() && cells == old(cells) + [Int(v)]
    {
      AppendCell(cells, Int(v));
      ints := ints + [v];
      if present.Some? {
        present := Some(present.value + [true]);
      }
      rows := rows + 1;
      cells := cells + [Int(v)];
    }

    method AppendBytes(v: bytes)
      requires Valid() && kind == KindBytes
      modifies this
      ensures Valid() && cells == old(cells) + [Blob(v)]
    {
      AppendCell(cells, Blob(v));
      blobs := blobs + [v];
      if present.Some? {
        present := Some(present.value + [true]);
      }
      rows := rows + 1;
      cells := cells + [Blob(v)];
    }

    /** Materialises the presence vector on the first null. */
    method AppendNull()
      requires Valid()
      modifies this
      ensures Valid() && cells == old(cells) + [Null]
    {
      AppendCell(cells, Null);
      if present.None? {
        present := Some(seq(rows, _ => true));
        assert present.value == PresentOf(cells);
      }
      if kind == KindInt {
        ints := ints + [0];
      } else {
        blobs := blobs + [[]];
      }
      present := Some(present.value + [false]);
      rows := rows + 1;
      cells := cells + [Null];
      assert cells[|cells| - 1] == Null;
    }

    method Reset()
      requires Valid()
      modifies this
      ensures Valid() && cells == []
    {
      ints := [];
      blobs := [];
      present := None;
      rows := 0;
      cells := [];
    }

    /** Whether row i holds a value. */
    function Present(i: nat): (b: bool)
      requires Valid() && i < rows
      reads this
      ensures b == !cells[i].Null?
    {
      present.None? || present.value[i]
    }

    /** The rows as index building sees them: the value, or nothing for a null. */
    function Values(): (vs: seq<Cell>)
      requires Valid()
      reads this
      ensures vs == cells
    {
      assert forall i :: 0 <= i < rows ==> CellOk(kind, cells[i]);
      seq(rows, i requires 0 <= i < rows && Valid() reads this =>
        if !Present(i) then Null else if kind == KindInt then Int(ints[i]) else Blob(blobs[i]))
    }

    /** One pass over the present values. */
    method GetStats() returns (st: Stats)
      requires Valid()
      ensures StatsOf(st, kind, cells)
    {
      hide BytesLess, CountPresent, NotAbove;
      NonePresent();
      var nonNull := 0;
      var minInt: u64, maxInt: u64 := 0, 0;
      var minBytes: bytes, maxBytes: bytes := [], [];
      var first := true;
      var i := 0;
      assert cells[..0] == [];
      while i < rows
        invariant 0 <= i <= rows
        invariant nonNull == CountPresent(cells[..i]) && first == (nonNull == 0)
        invariant forall k :: 0 <= k < i && cells[k].Int? ==> minInt <= cells[k].v <= maxInt
        invariant forall k :: 0 <= k < i && cells[k].Blob? ==>
                    NotAbove(minBytes, cells[k].b) && NotAbove(cells[k].b, maxBytes)
        invariant first ==> forall k :: 0 <= k < i ==> cells[k].Null?
        invariant if kind == KindInt && !first then Int(minInt) in cells && Int(maxInt) in cells
                  else minInt == maxInt == 0
        invariant if kind == KindBytes && !first then Blob(minBytes) in cells && Blob(maxBytes) in cells
                  else minBytes == maxBytes == []
      {
        CountStep(cells, i);
        assert CellOk(kind, cells[i]);
        if Present(i) {
          nonNull := nonNull + 1;
          if kind == KindInt {
            var v := ints[i];
            assert cells[i] == Int(v);
            if first {
              minInt, maxInt := v, v;
            } else {
              if v < minInt {
                minInt := v;
              }
              if v > maxInt {
                maxInt := v;
              }
            }
          } else {
            var v := blobs[i];
            assert cells[i] == Blob(v);
            BoundsHold(minBytes, maxBytes, v);
            if first {
              minBytes, maxBytes := v, v;
            } else {
              forall k | 0 <= k < i && cells[k].Blob?
                ensures NotAbove(if BytesLess(v, minBytes) then v else minBytes, cells[k].b)
                ensures NotAbove(cells[k].b, if BytesLess(maxBytes, v) then v else maxBytes)
              {
                BoundsGrow(minBytes, maxBytes, v, cells[k].b);
              }
              if BytesLess(v, minBytes) {
                minBytes := v;
              }
              if BytesLess(maxBytes, v) {
                maxBytes := v;
              }
            }
          }
          first := false;
        }
        i := i + 1;
      }
      assert cells[..i] == cells;
      st := Stats(rows, nonNull, present.Some?, minInt, maxInt, minBytes, maxBytes);
    }
  }

  // ----- what the presence bitmap and the counts are ---------------------------------------

  /** Row i is present when bit i % 8, the lowest being bit 0, of byte i / 8 is set. */
  lemma PresenceIs(present: seq<bool>, i: nat)
    requires i < |present|
    ensures |PresenceBytes(present)| == (|present| + 7) / 8
    ensures present[i] <==> PresenceBytes(present)[i / 8] / Pow2(i % 8) % 2 == 1
  {
    var k, j := i / 8, i % 8;
    TestBitIs(PresenceBytes(present)[k], j);
    LEBytesBit(PresenceWord(present), BitmapSize(|present|), k, j);
    PresenceWordBit(present, i);
  }

  /** The present values are counted by their rows. */
  lemma {:induction false} CountPresentIs(cells: seq<Cell>)
    ensures CountPresent(cells) == |set i: nat | i < |cells| && cells[i] != Null|
  {
    var rows := set i: nat | i < |cells| && cells[i] != Null;
    if cells == [] {
      assert rows == {};
    } else {
      var last := |cells| - 1;
      var front := cells[..last];
      CountPresentIs(front);
      var before := set i: nat | i < |front| && front[i] != Null;
      assert rows == before + if cells[last] != Null then {last as nat} else {};
    }
  }

  /** What a zone map says of its column: how many rows and how many values, whether there
      is a null, and of the values the least and the greatest, as numbers or byte by
      byte, both attained. */
  lemma StatsAre(st: Stats, kind: Kind, cells: seq<Cell>)
    requires StatsOf(st, kind, cells)
    ensures st.rows == |cells| && st.nonNull == |set i: nat | i < |cells| && cells[i] != Null|
    ensures st.hasNulls <==> exists i :: 0 <= i < |cells| && cells[i] == Null
    ensures forall i :: 0 <= i < |cells| && cells[i].Int? ==> st.minInt <= cells[i].v <= st.maxInt
    ensures forall i :: 0 <= i < |cells| && cells[i].Blob? ==>
              !ByteBefore(cells[i].b, st.minBytes) && !ByteBefore(st.maxBytes, cells[i].b)
    ensures kind == KindInt && st.nonNull > 0 ==> Int(st.minInt) in cells && Int(st.maxInt) in cells
    ensures kind == KindBytes && st.nonNull > 0 ==> Blob(st.minBytes) in cells && Blob(st.maxBytes) in cells
  {
    hide CountPresent, ByteBefore, BytesLess;
    CountPresentIs(cells);
    forall i | 0 <= i < |cells| && cells[i].Blob?
      ensures !ByteBefore(cells[i].b, st.minBytes) && !ByteBefore(st.maxBytes, cells[i].b)
    {
      LessIsBefore(cells[i].b, st.minBytes);
      LessIsBefore(st.maxBytes, cells[i].b);
    }
  }

  lemma LessIsBefore(a: bytes, b: bytes)
    ensures BytesLess(a, b) <==> ByteBefore(a, b)
  {
    BytesLessIs(a, b);
  }
}
