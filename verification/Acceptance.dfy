/** Whatever the bytes, what a reader accepts is within the limits it enforces
    (internal/util/limits.go): damaged input yields an error, never a value out of
    bounds. */
module Acceptance {
  import opened Bits
  import opened Wrappers
  import opened Limits
  import opened Libraries
  import opened Streams
  import opened Dictionaries
  import opened Cursors
  import opened Framing
  import opened Column
  import opened Schemas
  import BloomFilter
  import opened InvertedIndex
  import BC = ByteCodecs
  import FF = FooterFormat
  import IC = IntCodecs
  import ID = IntDictionary
  import IS = IntSelector
  import IX = ColumnIndexes

  // ----- lists ------------------------------------------------------------------------------

  ghost predicate Always<T(!new)>(read: ItemReader<T>, good: T -> bool) {
    forall j, c :: read(j, c).Ok? ==> good(read(j, c).value.0)
  }

  /** If every item a reader accepts is good, so are all it reads in a row. */
  lemma {:induction false} ManyGood<T(!new)>(read: ItemReader<T>, good: T -> bool, c: Cur, from: nat, n: nat)
    requires Always(read, good) && ReadMany(read, c, from, n).Ok?
    ensures forall i :: 0 <= i < |ReadMany(read, c, from, n).value.0| ==> good(ReadMany(read, c, from, n).value.0[i])
    decreases n - from
  {
    if from < n {
      var (x, c') := read(from, c).value;
      ManyGood(read, good, c', from + 1, n);
      var all := ReadMany(read, c, from, n).value.0;
      assert good(read(from, c).value.0);
      assert all == [x] + ReadMany(read, c', from + 1, n).value.0;
    }
  }

  // ----- byte strings ------------------------------------------------------------------------

  lemma BlobRead(data: bytes)
    ensures ReadBlob(data).Ok? ==> BC.Fits(ReadBlob(data).value.0)
  {
    if ReadBlob(data).Ok? {
      var (l, rest) := Streams.ReadWord(data).value;
      assert ReadBlob(data) == Ok((rest[..l], rest[l..]));
    }
  }

  lemma {:induction false} ListFits(data: bytes, n: nat)
    requires ListDecoded(ReadBlob, data, n).Ok?
    ensures BC.AllFit(ListDecoded(ReadBlob, data, n).value.0)
    decreases n
  {
    hide Streams.ReadWord, ReadBlob;
    if n > 0 {
      BlobRead(data);
      var (v, rest) := ReadBlob(data).value;
      ListFits(rest, n - 1);
    }
  }

  lemma {:induction false} RunsFit(data: bytes, have: nat, n: nat)
    requires n <= MAX_SEGMENT_ROWS && RunsDecoded(ReadBlob, data, have, n).Ok?
    ensures BC.AllFit(RunsDecoded(ReadBlob, data, have, n).value)
    decreases if have < n then n - have else 0
  {
    hide Streams.ReadWord, ReadBlob;
    if have < n {
      var (v, rest) := ReadBlob(data).value;
      var (run, rest') := Streams.ReadWord(rest).value;
      BlobRead(data);
      RunsFit(rest', have + run, n);
    }
  }

  lemma {:induction false} TableFits(data: bytes, k: nat, total: nat)
    requires BC.ValueTableDecoded(data, k, total).Ok?
    ensures var table := BC.ValueTableDecoded(data, k, total).value.0;
            BC.AllFit(table) && (k > 0 ==> total + BC.TotalLen(table) <= MAX_STRING_TABLE_BYTES)
    decreases k
  {
    hide Streams.ReadWord;
    if k > 0 {
      var (l, rest) := Streams.ReadWord(data).value;
      TableFits(rest[l..], k - 1, total + l);
      var more := BC.ValueTableDecoded(rest[l..], k - 1, total + l).value.0;
      var table := BC.ValueTableDecoded(data, k, total).value.0;
      assert table == [rest[..l]] + more && table[1..] == more;
    }
  }

  lemma OrdinalsFit(table: seq<bytes>, data: bytes, n: nat)
    requires BC.AllFit(table) && OrdinalsDecoded(table, data, n).Ok?
    ensures BC.AllFit(OrdinalsDecoded(table, data, n).value)
  {
  }

  /** No value over 16 MiB comes out of a byte codec, and no more than MaxSegmentRows of
      them; nor is a dictionary of more than MaxDictEntries values or 1 GiB in all read. */
  lemma BytesWithinLimits(id: byte, data: bytes, n: nat)
    requires BC.BytesDecoded(id, data, n).Ok?
    ensures id in {64, 65, 66} && n <= 0x100_0000 && |BC.BytesDecoded(id, data, n).value| == n
    ensures forall i :: 0 <= i < n ==> |BC.BytesDecoded(id, data, n).value[i]| <= 0x100_0000
    ensures id == 65 ==>
              && Streams.ReadWord(data).Ok? && Streams.ReadWord(data).value.0 <= 0x100_0000
              && var k, rest := Streams.ReadWord(data).value.0, Streams.ReadWord(data).value.1;
                 && BC.ValueTableDecoded(rest, k, 0).Ok?
                 && BC.TotalLen(BC.ValueTableDecoded(rest, k, 0).value.0) <= 0x4000_0000
  {
    hide Streams.ReadWord, ListDecoded, RunsDecoded, BC.ValueTableDecoded, OrdinalsDecoded, BC.TotalLen;
    if id == BC.RAW {
      ListFits(data, n);
    } else if id == BC.RLE_BYTES {
      RunsFit(data, 0, n);
    } else {
      var (k, rest) := Streams.ReadWord(data).value;
      TableFits(rest, k, 0);
      NothingInTable(rest, k);
      OrdinalsFit(BC.ValueTableDecoded(rest, k, 0).value.0, BC.ValueTableDecoded(rest, k, 0).value.1, n);
    }
  }

  lemma NothingInTable(data: bytes, k: nat)
    requires BC.ValueTableDecoded(data, k, 0).Ok?
    ensures k == 0 ==> BC.TotalLen(BC.ValueTableDecoded(data, k, 0).value.0) == 0
  {
  }

  /** No integer codec yields more than MaxSegmentRows values or reads a dictionary of
      more than MaxDictEntries. */
  lemma IntsWithinLimits(id: byte, data: bytes, n: nat)
    ensures IS.IntsDecoded(id, data, n).Ok? ==>
              && id <= 6 && n <= 0x100_0000 && |IS.IntsDecoded(id, data, n).value| == n
              && (id == 6 ==> Streams.ReadWord(data).Ok? && Streams.ReadWord(data).value.0 <= 0x100_0000)
    ensures n > 0x100_0000 ==> IS.IntsDecoded(id, data, n) == Err(LimitExceeded)
    ensures n <= 0x100_0000 && id > 6 ==> IS.IntsDecoded(id, data, n) == Err(UnknownEncoding)
  {
    hide Streams.ReadWord, IC.PlainDecoded, IC.VarintDecoded, IC.DeltaDecoded, IC.DeltaOfDeltaDecoded, IC.RLEDecoded,
         IC.BitpackDecoded, ListDecoded, OrdinalsDecoded, ID.Ungap;
  }

  // ----- footer --------------------------------------------------------------------------------

  predicate NameFits(c: ColumnDef) {
    |c.name| <= 4096
  }

  lemma NamesRead(c0: Cur, max: nat)
    requires ReadName(c0, max).Ok?
    ensures |ReadName(c0, max).value.0| <= max
  {
    hide Streams.ReadWord;
  }

  lemma ColumnRead(j: nat, c: Cur)
    ensures ReadColumn(j, c).Ok? ==> NameFits(ReadColumn(j, c).value.0)
  {
    hide ReadName, And;
    if ReadName(c, MAX_NAME).Ok? {
      NamesRead(c, MAX_NAME);
    }
  }

  lemma SchemaRead(c0: Cur)
    requires ReadSchema(c0).Ok?
    ensures var s := ReadSchema(c0).value.0;
            WellFormed(s) && |s.name| <= 4096 && forall i :: 0 <= i < |s.columns| ==> |s.columns[i].name| <= 4096
  {
    hide ReadName, TakeU32, TakeU16, TakeUvarint, ReadColumn, WellFormed;
    var (_, c1) := TakeU32(c0);
    NamesRead(c1, MAX_NAME);
    var c2 := ReadName(c1, MAX_NAME).value.1;
    var (_, c3) := TakeU16(c2);
    var (count, c4) := TakeUvarint(c3);
    forall j, c
      ensures ReadColumn(j, c).Ok? ==> NameFits(ReadColumn(j, c).value.0)
    {
      ColumnRead(j, c);
    }
    ManyGood(ReadColumn, NameFits, c4, 0, count);
    var s := ReadSchema(c0).value.0;
    forall i | 0 <= i < |s.columns|
      ensures |s.columns[i].name| <= 4096
    {
      assert NameFits(s.columns[i]);
    }
  }

  predicate ZonesFit(cd: FF.ColumnDir) {
    |cd.minBytes| <= 0x100_0000 && |cd.maxBytes| <= 0x100_0000
  }

  lemma ZoneRead(kind: Kind, cd: FF.ColumnDir, c: Cur)
    requires cd.minBytes == cd.maxBytes == [] && FF.ReadZone(kind, cd, c).Ok?
    ensures ZonesFit(FF.ReadZone(kind, cd, c).value.0)
  {
    hide ReadName, TakeU64;
    if kind == KindBytes {
      NamesRead(c, MAX_BYTES_VALUE);
      NamesRead(ReadName(c, MAX_BYTES_VALUE).value.1, MAX_BYTES_VALUE);
    }
  }

  lemma ColumnDirRead(kind: Kind, c0: Cur)
    ensures FF.ReadColumnDirAs(kind, c0).Ok? ==> ZonesFit(FF.ReadColumnDirAs(kind, c0).value.0)
  {
    hide TakeU64, TakeU8, TakeUvarint, FF.ReadZone, And, ZonesFit;
    var (chunkOffset, c1) := TakeU64(c0);
    var (chunkLength, c2) := TakeU64(c1);
    var (indexOffset, c3) := TakeU64(c2);
    var (indexLength, c4) := TakeU64(c3);
    var (flags, c5) := TakeU8(c4);
    var (nonNull, c6) := TakeUvarint(c5);
    var nulls := And(flags, 1) != 0;
    var cd := FF.ColumnDir(chunkOffset, chunkLength, indexOffset, indexLength, nulls, nonNull, 0, 0, [], []);
    if FF.ReadZone(kind, cd, c6).Ok? {
      ZoneRead(kind, cd, c6);
    }
  }

  /** A segment with a column for each of the schema's, its zone maps within limits. */
  ghost predicate SegmentOk(s: Schema, seg: FF.SegmentDir) {
    |seg.columns| == |s.columns| && forall j :: 0 <= j < |seg.columns| ==> ZonesFit(seg.columns[j])
  }

  lemma SegmentRead(s: Schema, c0: Cur)
    ensures FF.ReadSegmentDir(s, c0).Ok? ==> SegmentOk(s, FF.ReadSegmentDir(s, c0).value.0)
  {
    hide TakeU64, TakeUvarint, FF.ReadColumnDirAs, ZonesFit;
    if FF.ReadSegmentDir(s, c0).Ok? {
      var c6 := TakeUvarint(TakeU64(TakeU64(TakeUvarint(TakeU64(TakeU64(c0).1).1).1).1).1).1;
      forall j: nat, c
        ensures FF.ReadColumnDir(s)(j, c).Ok? ==> ZonesFit(FF.ReadColumnDir(s)(j, c).value.0)
      {
        ColumnDirRead(if j < |s.columns| then s.columns[j].Kind() else KindInt, c);
      }
      ManyGood(FF.ReadColumnDir(s), ZonesFit, c6, 0, |s.columns|);
    }
  }

  /** Whatever footer is read has a well-formed schema, at most MaxSegments segments, each
      with exactly the schema's columns, and no name or zone value over its limit. */
  lemma FooterWithinLimits(p: Platform, file: bytes)
    requires FF.FooterDecoded(p, file).Ok?
    ensures var f := FF.FooterDecoded(p, file).value;
            && WellFormed(f.schema) && |f.schema.name| <= 4096 && |f.sourceType| <= 4096
            && (forall i :: 0 <= i < |f.schema.columns| ==> |f.schema.columns[i].name| <= 4096)
            && |f.segments| <= 0x10_0000
            && forall i :: 0 <= i < |f.segments| ==> SegmentOk(f.schema, f.segments[i])
  {
    hide FF.BodyDecoded, LE, WellFormed, SegmentOk;
    var n := |file|;
    var bodyLen := LE(file[n - 12..n - 8]);
    BodyWithinLimits(file[n - FF.FOOTER_TRAILER - bodyLen..n - FF.FOOTER_TRAILER]);
  }

  lemma BodyWithinLimits(body: bytes)
    requires FF.BodyDecoded(body).Ok?
    ensures var f := FF.BodyDecoded(body).value;
            && WellFormed(f.schema) && |f.schema.name| <= 4096 && |f.sourceType| <= 4096
            && (forall i :: 0 <= i < |f.schema.columns| ==> |f.schema.columns[i].name| <= 4096)
            && |f.segments| <= 0x10_0000
            && forall i :: 0 <= i < |f.segments| ==> SegmentOk(f.schema, f.segments[i])
  {
    hide TakeU64, TakeUvarint, ReadSchema, ReadName, FF.ReadSegmentDir, SegmentOk, WellFormed;
    SchemaRead(Start(body));
    var (s, c1) := ReadSchema(Start(body)).value;
    NamesRead(c1, MAX_NAME);
    var c2 := ReadName(c1, MAX_NAME).value.1;
    var (count, c6) := TakeUvarint(TakeU64(TakeU64(TakeU64(c2).1).1).1);
    var good := (seg: FF.SegmentDir) => |seg.columns| == |s.columns|
                                        && forall j :: 0 <= j < |seg.columns| ==> ZonesFit(seg.columns[j]);
    forall j: nat, c
      ensures FF.ReadSegment(s)(j, c).Ok? ==> good(FF.ReadSegment(s)(j, c).value.0)
    {
      SegmentRead(s, c);
      OkIsGood(s, c);
    }
    ManyGood(FF.ReadSegment(s), good, c6, 0, count);
    GoodAreOk(s, FF.BodyDecoded(body).value.segments);
  }

  lemma OkIsGood(s: Schema, c: Cur)
    requires FF.ReadSegmentDir(s, c).Ok? ==> SegmentOk(s, FF.ReadSegmentDir(s, c).value.0)
    ensures FF.ReadSegmentDir(s, c).Ok? ==>
              var seg := FF.ReadSegmentDir(s, c).value.0;
              |seg.columns| == |s.columns| && forall j :: 0 <= j < |seg.columns| ==> ZonesFit(seg.columns[j])
  {
    hide FF.ReadSegmentDir;
  }

  lemma GoodAreOk(s: Schema, segs: seq<FF.SegmentDir>)
    requires forall i :: 0 <= i < |segs| ==>
               && |segs[i].columns| == |s.columns|
               && forall j :: 0 <= j < |segs[i].columns| ==> ZonesFit(segs[i].columns[j])
    ensures forall i :: 0 <= i < |segs| ==> SegmentOk(s, segs[i])
  {
  }

  // ----- indexes -------------------------------------------------------------------------------

  lemma BloomRead(c: Cur)
    requires BloomFilter.ReadBloom(c).Ok?
    ensures var bl := BloomFilter.ReadBloom(c).value.0;
            1 <= |bl.words| <= 0x1000_0000 && bl.k >= 1
  {
    hide TakeU8, TakeUvarint;
    var n := TakeUvarint(TakeU8(c).1).0;
    assert |ReadMany(BloomFilter.ReadWord, TakeUvarint(TakeU8(c).1).1, 0, n).value.0| == n;
  }

  /** An entry whose key is of the index's kind and within the limit. */
  predicate KeyOk(kind: byte, key: Cell) {
    if kind == 0 then key.Int? else key.Blob? && |key.b| <= 0x100_0000
  }

  lemma EntryRead(p: Platform, kind: byte, c: Cur)
    ensures ReadEntryAs(p, kind, c).Ok? ==> KeyOk(kind, ReadEntryAs(p, kind, c).value.0.key)
  {
    hide ReadName, TakeUvarint;
    if kind != 0 && ReadName(c, MAX_BYTES_VALUE).Ok? {
      NamesRead(c, MAX_BYTES_VALUE);
    }
  }

  lemma {:induction false} MapHolds(kind: byte, es: seq<Entry>)
    requires forall i :: 0 <= i < |es| ==> KeyOk(kind, es[i].key)
    ensures |MapOf(es)| <= |es| && forall c :: c in MapOf(es) ==> KeyOk(kind, c)
  {
    hide KeyOk;
    if es != [] {
      var last := |es| - 1;
      MapHolds(kind, es[..last]);
      var m, k := MapOf(es[..last]), es[last].key;
      assert MapOf(es) == m[k := es[last].rows];
      assert MapOf(es).Keys == m.Keys + {k};
    }
  }

  lemma InvertedRead(p: Platform, c0: Cur)
    requires ReadInverted(p, c0).Ok?
    ensures var iv := ReadInverted(p, c0).value.0;
            iv.kind <= 1 && |iv.rows| <= 0x1_0000 && forall c :: c in iv.rows ==> KeyOk(iv.kind, c)
  {
    hide TakeU8, TakeUvarint, ReadEntryAs, MapOf, KeyOk;
    var (kind, c1) := TakeU8(c0);
    var (count, c2) := TakeUvarint(c1);
    var good := (e: Entry) => KeyOk(kind, e.key);
    forall j: nat, c
      ensures ReadEntry(p, kind)(j, c).Ok? ==> good(ReadEntry(p, kind)(j, c).value.0)
    {
      EntryRead(p, kind, c);
    }
    ManyGood(ReadEntry(p, kind), good, c2, 0, count);
    MapHolds(kind, ReadMany(ReadEntry(p, kind), c2, 0, count).value.0);
  }

  /** Whatever index is read has a filter of at least one word and one probe, and at most
      65536 keys of its own kind, none over its limit. */
  lemma IndexWithinLimits(p: Platform, raw: bytes)
    requires IX.IndexDecoded(p, raw).Ok?
    ensures var ci := IX.IndexDecoded(p, raw).value;
            && (ci.bloom.Some? ==> 1 <= |ci.bloom.value.words| <= 0x1000_0000 && ci.bloom.value.k >= 1)
            && (ci.inverted.Some? ==>
                  && ci.inverted.value.kind <= 1 && |ci.inverted.value.rows| <= 0x1_0000
                  && forall c :: c in ci.inverted.value.rows ==> KeyOk(ci.inverted.value.kind, c))
  {
    hide TakeU8, And, BloomFilter.ReadBloom, ReadInverted, KeyOk;
    if raw != [] {
      var (flags, c1) := TakeU8(Start(raw));
      if And(flags, 1) != 0 {
        BloomRead(c1);
      }
      var c2 := IX.ReadBloomPart(c1, flags).value.1;
      if And(flags, 2) != 0 {
        InvertedRead(p, c2);
      }
    }
  }
}
