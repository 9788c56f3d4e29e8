/** Logical types, schemas and the schema descriptor (internal/schema/schema.go). */
module Schemas {
  import opened Bits
  import opened Wrappers
  import opened Limits
  import opened Varint
  import opened Cursors
  import opened Framing
  import opened Column

  const TYPE_TIMESTAMP: byte := 0
  const TYPE_IP: byte := 1
  const TYPE_UINT: byte := 2
  const TYPE_PORT: byte := 3
  const TYPE_ENUM: byte := 4
  const TYPE_STRING: byte := 5
  const TYPE_BOOL: byte := 6

  /** The physical domain of a logical type. */
  function KindOf(t: byte): Kind {
    if t == TYPE_IP || t == TYPE_ENUM || t == TYPE_STRING then KindBytes else KindInt
  }

  datatype ColumnDef = ColumnDef(name: bytes, typ: byte, indexed: bool, nullable: bool) {
    function Kind(): Kind {
      KindOf(typ)
    }
  }

  datatype Schema = Schema(id: u32, name: bytes, version: u16, columns: seq<ColumnDef>)

  /** The structural constraints. */
  ghost predicate WellFormed(s: Schema) {
    && 1 <= |s.columns| <= MAX_COLUMNS
    && (forall i :: 0 <= i < |s.columns| ==> s.columns[i].name != [] && s.columns[i].typ <= TYPE_BOOL)
    && (forall i, j :: 0 <= i < j < |s.columns| ==> s.columns[i].name != s.columns[j].name)
  }

  method Validate(s: Schema) returns (r: Outcome)
    ensures r == if WellFormed(s) then Pass else Fail(SchemaError)
  {
    if |s.columns| == 0 {
      return Fail(SchemaError);
    }
    if |s.columns| > MAX_COLUMNS {
      return Fail(SchemaError);
    }
    var seen: set<bytes> := {};
    var i := 0;
    while i < |s.columns|
      invariant 0 <= i <= |s.columns|
      invariant forall k :: 0 <= k < i ==> s.columns[k].name in seen
      invariant forall n :: n in seen ==> exists k :: 0 <= k < i && s.columns[k].name == n
      invariant forall k :: 0 <= k < i ==> s.columns[k].name != [] && s.columns[k].typ <= TYPE_BOOL
      invariant forall j, k :: 0 <= j < k < i ==> s.columns[j].name != s.columns[k].name
    {
      var c := s.columns[i];
      if c.name == [] || c.typ > TYPE_BOOL || c.name in seen {
        return Fail(SchemaError);
      }
      seen := seen + {c.name};
      i := i + 1;
    }
    return Pass;
  }

  /** The position of a column name, or -1. */
  function Index(s: Schema, name: bytes): (k: int)
    ensures -1 <= k < |s.columns|
    ensures k >= 0 ==> s.columns[k].name == name
    ensures k < 0 ==> forall i :: 0 <= i < |s.columns| ==> s.columns[i].name != name
  {
    IndexFrom(s, name, 0)
  }

  function IndexFrom(s: Schema, name: bytes, from: nat): (k: int)
    requires from <= |s.columns|
    ensures k == -1 || from <= k < |s.columns|
    ensures k >= 0 ==> s.columns[k].name == name
    ensures k < 0 ==> forall i :: from <= i < |s.columns| ==> s.columns[i].name != name
    decreases |s.columns| - from
  {
    if from == |s.columns| then -1
    else if s.columns[from].name == name then from
    else IndexFrom(s, name, from + 1)
  }

  // ----- descriptor --------------------------------------------------------------------

  function NameBytes(name: bytes, tail: bytes): bytes {
    Uvarint(|name|) + (name + tail)
  }

  function FlagsOf(c: ColumnDef): byte {
    (if c.indexed then 1 else 0) + (if c.nullable then 2 else 0)
  }

  function WriteColumn(j: nat, c: ColumnDef, tail: bytes): bytes {
    NameBytes(c.name, [c.typ] + ([FlagsOf(c)] + tail))
  }

  function DescriptorBytes(s: Schema, tail: bytes): bytes {
    LEBytes(s.id, 4) + NameBytes(s.name, LEBytes(s.version, 2) +
    (Uvarint(|s.columns|) + WriteMany(WriteColumn, s.columns, 0, tail)))
  }

  /** A length-prefixed string under a limit; the limit is checked first. */
  function ReadName(c0: Cur, max: nat): Result<(bytes, Cur)> {
    var (n, c1) := TakeUvarint(c0);
    if n > max then Err(LimitExceeded) else Ok(Take(c1, n))
  }

  function ReadColumn(j: nat, c0: Cur): Result<(ColumnDef, Cur)> {
    var (name, c1) :- ReadName(c0, MAX_NAME);
    var (typ, c2) := TakeU8(c1);
    var (flags, c3) := TakeU8(c2);
    Ok((ColumnDef(name, typ, And(flags, 1) != 0, And(flags, 2) != 0), c3))
  }

  ghost function ReadSchema(c0: Cur): Result<(Schema, Cur)> {
    var (id, c1) := TakeU32(c0);
    var (name, c2) :- ReadName(c1, MAX_NAME);
    var (version, c3) := TakeU16(c2);
    var (count, c4) := TakeUvarint(c3);
    if count > MAX_COLUMNS then Err(LimitExceeded)
    else
      var (columns, c5) :- ReadMany(ReadColumn, c4, 0, count);
      if c5.err.Some? then Err(c5.err.value)
      else if !WellFormed(Schema(id, name, version, columns)) then Err(SchemaError)
      else Ok((Schema(id, name, version, columns), c5))
  }

  // ----- the loops -----------------------------------------------------------------------

  lemma NameAppends(name: bytes, x: bytes, tail: bytes)
    ensures NameBytes(name, x + tail) == NameBytes(name, x) + tail
  {
    hide Uvarint;
    assert Uvarint(|name|) + (name + (x + tail)) == Uvarint(|name|) + (name + x) + tail;
  }

  lemma ColumnAppends(j: nat, c: ColumnDef)
    ensures Appends(WriteColumn, j, c)
  {
    hide NameBytes;
    forall t: bytes
      ensures WriteColumn(j, c, t) == WriteColumn(j, c, []) + t
    {
      NameAppends(c.name, [c.typ] + ([FlagsOf(c)] + []), t);
      assert [c.typ] + ([FlagsOf(c)] + []) + t == [c.typ] + ([FlagsOf(c)] + t);
    }
  }

  method AppendDescriptor(dst: bytes, s: Schema) returns (out: bytes)
    ensures out == dst + DescriptorBytes(s, [])
  {
    hide Uvarint, LEBytes, WriteMany, WriteColumn;
    out := dst + LEBytes(s.id, 4);
    out := out + Uvarint(|s.name|);
    out := out + s.name;
    out := out + LEBytes(s.version, 2);
    out := out + Uvarint(|s.columns|);
    ghost var head := out;
    var i := 0;
    while i < |s.columns|
      invariant 0 <= i <= |s.columns|
      invariant out + WriteMany(WriteColumn, s.columns, i, []) == head + WriteMany(WriteColumn, s.columns, 0, [])
    {
      var c := s.columns[i];
      ColumnAppends(i, c);
      WriteStep(WriteColumn, s.columns, i, out);
      ColumnIs(i, c);
      var flags: byte := 0;
      assert Or(0, 1) == 1 && Or(0, 2) == 2 && Or(1, 2) == 3;
      if c.indexed {
        flags := Or(flags, 1);
      }
      if c.nullable {
        flags := Or(flags, 2);
      }
      ghost var before := out;
      out := out + Uvarint(|c.name|);
      out := out + c.name;
      out := out + [c.typ];
      out := out + [flags];
      assert out == before + WriteColumn(i, c, []);
      i := i + 1;
    }
    NoneLeft(s);
    assert out == head + WriteMany(WriteColumn, s.columns, 0, []);
  }

  lemma ColumnIs(j: nat, c: ColumnDef)
    ensures WriteColumn(j, c, []) == Uvarint(|c.name|) + c.name + [c.typ] + [FlagsOf(c)]
  {
    hide Uvarint;
  }

  lemma NoneLeft(s: Schema)
    ensures WriteMany(WriteColumn, s.columns, |s.columns|, []) == []
  {
  }

  method ReadDescriptor(c: Cursor) returns (r: Result<Schema>)
    requires c.Valid()
    modifies c
    ensures c.Valid()
    ensures match ReadSchema(old(c.State()))
            case Ok(p) => r == Ok(p.0) && c.State() == p.1
            case Err(e) => r == Err(e)
  {
    hide Take, TakeU8, TakeU16, TakeU32, TakeUvarint, ReadMany, WellFormed, ManyProgress;
    var id := c.U32();
    var nameLen := c.ReadUvarint();
    if CheckCount(nameLen, MAX_NAME).Fail? {
      return Err(LimitExceeded);
    }
    var name := c.Bytes(nameLen);
    var version := c.U16();
    var colCount := c.ReadUvarint();
    if CheckCount(colCount, MAX_COLUMNS).Fail? {
      return Err(LimitExceeded);
    }
    ghost var c4 := c.State();
    var columns: seq<ColumnDef> := [];
    ManyStart(ReadColumn, c4, colCount);
    while |columns| < colCount
      invariant c.Valid() && |columns| <= colCount
      invariant ManyProgress(ReadColumn, c4, colCount, columns, c.State())
    {
      ManyStep(ReadColumn, c4, colCount, columns, c.State());
      var nl := c.ReadUvarint();
      if CheckCount(nl, MAX_NAME).Fail? {
        return Err(LimitExceeded);
      }
      var colName := c.Bytes(nl);
      var typ := c.U8();
      var flags := c.U8();
      columns := columns + [ColumnDef(colName, typ, And(flags, 1) != 0, And(flags, 2) != 0)];
    }
    ManyEnd(ReadColumn, c4, colCount, columns, c.State());
    if c.err.Some? {
      return Err(c.err.value);
    }
    var s := Schema(id, name, version, columns);
    var v := Validate(s);
    if v.Fail? {
      return Err(v.error);
    }
    return Ok(s);
  }

  // ----- round trip ------------------------------------------------------------------------

  /** Names short enough for the reader. */
  ghost predicate NamesFit(s: Schema) {
    |s.name| <= MAX_NAME && forall i :: 0 <= i < |s.columns| ==> |s.columns[i].name| <= MAX_NAME
  }

  lemma NameReads(name: bytes, max: nat, tail: bytes)
    requires |name| <= max < TWO64
    ensures ReadName(Start(NameBytes(name, tail)), max) == Ok((name, Start(tail)))
  {
    hide TakeUvarint, Uvarint, Take;
    TakeVarint(|name|, name + tail);
    TakeFront(name, tail);
  }

  lemma NameTooLong(name: bytes, max: nat, tail: bytes)
    requires max < |name| < TWO64
    ensures ReadName(Start(NameBytes(name, tail)), max) == Err(LimitExceeded)
  {
    hide TakeUvarint, Uvarint, Take;
    TakeVarint(|name|, name + tail);
  }

  lemma ColumnReads(j: nat, c: ColumnDef)
    requires |c.name| <= MAX_NAME
    ensures ReadsBack(WriteColumn, ReadColumn, j, c)
  {
    hide NameBytes, ReadName, TakeU8;
    forall t: bytes
      ensures ReadColumn(j, Start(WriteColumn(j, c, t))) == Ok((c, Start(t)))
    {
      NameReads(c.name, MAX_NAME, [c.typ] + ([FlagsOf(c)] + t));
      TakeByte(c.typ, [FlagsOf(c)] + t);
      TakeByte(FlagsOf(c), t);
      FlagBits(c);
    }
  }

  lemma FlagBits(c: ColumnDef)
    ensures And(FlagsOf(c), 1) != 0 <==> c.indexed
    ensures And(FlagsOf(c), 2) != 0 <==> c.nullable
  {
    hide And;
    TwoFlags();
  }

  lemma TwoFlags()
    ensures And(3, 1) == 1 && And(2, 1) == 0 && And(1, 1) == 1 && And(0, 1) == 0
    ensures And(3, 2) == 2 && And(2, 2) == 2 && And(1, 2) == 0 && And(0, 2) == 0
  {
    assert And(3, 1) == 1 && And(2, 1) == 0 && And(1, 1) == 1 && And(0, 1) == 0;
  }

  /** Reading a written descriptor returns the schema and leaves what follows it. */
  lemma SchemaRoundTrip(s: Schema, tail: bytes)
    requires WellFormed(s) && NamesFit(s)
    ensures ReadSchema(Start(DescriptorBytes(s, tail))) == Ok((s, Start(tail)))
  {
    hide NameBytes, ReadName, TakeU16, TakeU32, TakeUvarint, ReadMany, WriteMany, Uvarint, LEBytes;
    var t3 := WriteMany(WriteColumn, s.columns, 0, tail);
    var t2 := Uvarint(|s.columns|) + t3;
    var t1 := LEBytes(s.version, 2) + t2;
    TakeWord32(s.id, NameBytes(s.name, t1));
    NameReads(s.name, MAX_NAME, t1);
    TakeWord16(s.version, t2);
    TakeVarint(|s.columns|, t3);
    forall j: nat | j < |s.columns|
      ensures ReadsBack(WriteColumn, ReadColumn, j, s.columns[j])
    {
      ColumnReads(j, s.columns[j]);
    }
    ManyReadBack(WriteColumn, ReadColumn, s.columns, 0, tail);
    assert s.columns[0..] == s.columns;
  }

  /** A descriptor that declares too many columns is refused before any is read. */
  lemma TooManyColumns(id: u32, name: bytes, version: u16, count: u64, tail: bytes)
    requires |name| <= MAX_NAME && count > 4096
    ensures ReadSchema(Start(LEBytes(id, 4) + NameBytes(name, LEBytes(version, 2) + (Uvarint(count) + tail))))
            == Err(LimitExceeded)
  {
    hide TakeU32, TakeU16, TakeUvarint, ReadName, NameBytes, Uvarint, LEBytes, WellFormed;
    var t2 := Uvarint(count) + tail;
    var t1 := LEBytes(version, 2) + t2;
    TakeWord32(id, NameBytes(name, t1));
    NameReads(name, MAX_NAME, t1);
    TakeWord16(version, t2);
    TakeVarint(count, tail);
  }

  /** Addresses, enums and strings are byte columns; times, counts, ports and bools are
      integer columns. */
  lemma KindsAre()
    ensures KindOf(0) == KindOf(2) == KindOf(3) == KindOf(6) == KindInt
    ensures KindOf(1) == KindOf(4) == KindOf(5) == KindBytes
  {
  }
}
