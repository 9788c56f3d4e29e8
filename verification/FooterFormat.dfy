/** The file header and the footer: schema, segment directory and file totals
    (internal/format/header.go, internal/format/footer.go). */
module FooterFormat {
  import opened Bits
  import opened Wrappers
  import opened Limits
  import opened Libraries
  import opened Varint
  import opened Cursors
  import opened Framing
  import opened Column
  import opened Schemas

  /** 'NTCF', at the start of the header and the end of every footer. */
  const MAGIC: bytes := [0x4E, 0x54, 0x43, 0x46]
  const HEADER_SIZE: nat := 36
  const FOOTER_TRAILER: nat := 12

  datatype ColumnDir = ColumnDir(
    chunkOffset: u64, chunkLength: u64, indexOffset: u64, indexLength: u64,
    hasNulls: bool, nonNull: u64, minInt: u64, maxInt: u64, minBytes: bytes, maxBytes: bytes)

  datatype SegmentDir = SegmentDir(
    offset: u64, length: u64, rows: u64, minTS: i64, maxTS: i64, columns: seq<ColumnDir>)

  datatype Footer = Footer(
    schema: Schema, sourceType: bytes, totalRows: u64, minTS: i64, maxTS: i64, segments: seq<SegmentDir>)

  // ----- header -----------------------------------------------------------------------

  datatype Header = Header(version: u16, flags: u16, created: i64, writerID: bytes)

  function HeaderBody(h: Header): bytes {
    MAGIC + (LEBytes(h.version, 2) + (LEBytes(h.flags, 2) + (LEBytes(ToU64(h.created), 8) + h.writerID)))
  }

  function HeaderBytes(p: Platform, h: Header): bytes {
    HeaderBody(h) + LEBytes(p.crc32c(HeaderBody(h)), 4)
  }

  const FORMAT_VERSION: u16 := 1

  function HeaderDecoded(p: Platform, buf: bytes): Result<Header> {
    if |buf| < HEADER_SIZE then Err(Truncated)
    else
      var body := buf[..HEADER_SIZE - 4];
      if p.crc32c(body) != LE(buf[HEADER_SIZE - 4..HEADER_SIZE]) then Err(Checksum)
      else
        var (got, c1) := Take(Start(body), 4);
        var c1' := if c1.err.None? && got != MAGIC then c1.(err := Some(BadMagic)) else c1;
        var (version, c2) := TakeU16(c1');
        var (flags, c3) := TakeU16(c2);
        var (created, c4) := TakeU64(c3);
        var (id, c5) := Take(c4, 16);
        if c5.err.Some? then Err(c5.err.value)
        else if version != FORMAT_VERSION then Err(UnsupportedVersion)
        else Ok(Header(version, flags, ToI64(created), id))
  }

  method ReadHeader(p: Platform, buf: bytes) returns (r: Result<Header>)
    ensures r == HeaderDecoded(p, buf)
  {
    hide Take, TakeU16, TakeU64, LE;
    if |buf| < HEADER_SIZE {
      return Err(Truncated);
    }
    var body := buf[..HEADER_SIZE - 4];
    if p.crc32c(body) != LE(buf[HEADER_SIZE - 4..HEADER_SIZE]) {
      return Err(Checksum);
    }
    var c := new Cursor(body);
    c.Magic(MAGIC);
    var version := c.U16();
    var flags := c.U16();
    var created := c.U64();
    var id := c.Bytes(16);
    if c.err.Some? {
      return Err(c.err.value);
    }
    if version != FORMAT_VERSION {
      return Err(UnsupportedVersion);
    }
    return Ok(Header(version, flags, ToI64(created), id));
  }

  lemma HeaderRoundTrip(p: Platform, h: Header, rest: bytes)
    requires h.version == FORMAT_VERSION && |h.writerID| == 16
    ensures |HeaderBytes(p, h)| == HEADER_SIZE
    ensures HeaderDecoded(p, HeaderBytes(p, h) + rest) == Ok(h)
  {
    hide Take, TakeU16, TakeU64, LEBytes, LE, Pow2;
    var body := HeaderBody(h);
    var crc := LEBytes(p.crc32c(body), 4);
    var buf := HeaderBytes(p, h) + rest;
    assert buf[..HEADER_SIZE - 4] == body;
    assert buf[HEADER_SIZE - 4..HEADER_SIZE] == crc;
    Pow2Values();
    LEFits(p.crc32c(body), 4);
    TakeFront(MAGIC, LEBytes(h.version, 2) + (LEBytes(h.flags, 2) + (LEBytes(ToU64(h.created), 8) + h.writerID)));
    TakeWord16(h.version, LEBytes(h.flags, 2) + (LEBytes(ToU64(h.created), 8) + h.writerID));
    TakeWord16(h.flags, LEBytes(ToU64(h.created), 8) + h.writerID);
    TakeWord64(ToU64(h.created), h.writerID);
    TakeFront(h.writerID, []);
    assert h.writerID + [] == h.writerID;
  }

  // ----- footer, written ----------------------------------------------------------------

  function FlagByte(hasNulls: bool): byte {
    if hasNulls then 1 else 0
  }

  /** The zone map: two words or two byte strings, by the column's kind. */
  function ZoneBytes(kind: Kind, cd: ColumnDir, tail: bytes): bytes {
    if kind == KindInt then LEBytes(cd.minInt, 8) + (LEBytes(cd.maxInt, 8) + tail)
    else NameBytes(cd.minBytes, NameBytes(cd.maxBytes, tail))
  }

  function ColumnDirBytes(kind: Kind, cd: ColumnDir, tail: bytes): bytes {
    LEBytes(cd.chunkOffset, 8) + (LEBytes(cd.chunkLength, 8) +
    (LEBytes(cd.indexOffset, 8) + (LEBytes(cd.indexLength, 8) +
    ([FlagByte(cd.hasNulls)] + (Uvarint(cd.nonNull) + ZoneBytes(kind, cd, tail))))))
  }

  /** Column j is written by the kind the schema gives it. */
  function WriteColumnDir(s: Schema): Writer<ColumnDir> {
    (j: nat, cd: ColumnDir, tail: bytes) =>
      if j < |s.columns| then ColumnDirBytes(s.columns[j].Kind(), cd, tail) else tail
  }

  function SegmentBytes(s: Schema, seg: SegmentDir, tail: bytes): bytes {
    LEBytes(seg.offset, 8) + (LEBytes(seg.length, 8) + (Uvarint(seg.rows) +
    (LEBytes(ToU64(seg.minTS), 8) + (LEBytes(ToU64(seg.maxTS), 8) + (Uvarint(|seg.columns|) +
    WriteMany(WriteColumnDir(s), seg.columns, 0, tail))))))
  }

  function WriteSegment(s: Schema): Writer<SegmentDir> {
    (j: nat, seg: SegmentDir, tail: bytes) => SegmentBytes(s, seg, tail)
  }

  function TotalsBytes(f: Footer, tail: bytes): bytes {
    LEBytes(f.totalRows, 8) + (LEBytes(ToU64(f.minTS), 8) + (LEBytes(ToU64(f.maxTS), 8) +
    (Uvarint(|f.segments|) + tail)))
  }

  function FooterBody(f: Footer): bytes {
    var segments := WriteMany(WriteSegment(f.schema), f.segments, 0, []);
    DescriptorBytes(f.schema, NameBytes(f.sourceType, TotalsBytes(f, segments)))
  }

  /** The body's length is cut to 32 bits, as the writer does. */
  function Trailer(p: Platform, body: bytes): bytes {
    LEBytes(|body|, 4) + (LEBytes(p.crc32c(body), 4) + MAGIC)
  }

  function FooterBytes(p: Platform, f: Footer): bytes {
    FooterBody(f) + Trailer(p, FooterBody(f))
  }

  // ----- footer, read ---------------------------------------------------------------------

  function ReadZone(kind: Kind, cd: ColumnDir, c0: Cur): Result<(ColumnDir, Cur)> {
    if kind == KindInt then
      var (lo, c1) := TakeU64(c0);
      var (hi, c2) := TakeU64(c1);
      Ok((cd.(minInt := lo, maxInt := hi), c2))
    else
      var (lo, c1) :- ReadName(c0, MAX_BYTES_VALUE);
      var (hi, c2) :- ReadName(c1, MAX_BYTES_VALUE);
      Ok((cd.(minBytes := lo, maxBytes := hi), c2))
  }

  function ReadColumnDirAs(kind: Kind, c0: Cur): Result<(ColumnDir, Cur)> {
    var (chunkOffset, c1) := TakeU64(c0);
    var (chunkLength, c2) := TakeU64(c1);
    var (indexOffset, c3) := TakeU64(c2);
    var (indexLength, c4) := TakeU64(c3);
    var (flags, c5) := TakeU8(c4);
    var (nonNull, c6) := TakeUvarint(c5);
    var hasNulls := And(flags, 1) != 0;
    ReadZone(kind, ColumnDir(chunkOffset, chunkLength, indexOffset, indexLength, hasNulls, nonNull, 0, 0, [], []), c6)
  }

  function ReadColumnDir(s: Schema): ItemReader<ColumnDir> {
    (j: nat, c: Cur) => ReadColumnDirAs(if j < |s.columns| then s.columns[j].Kind() else KindInt, c)
  }

  function ReadSegmentDir(s: Schema, c0: Cur): Result<(SegmentDir, Cur)> {
    var (offset, c1) := TakeU64(c0);
    var (length, c2) := TakeU64(c1);
    var (rows, c3) := TakeUvarint(c2);
    var (minTS, c4) := TakeU64(c3);
    var (maxTS, c5) := TakeU64(c4);
    var (colCount, c6) := TakeUvarint(c5);
    if colCount != |s.columns| then Err(Corrupt)
    else
      var (columns, c7) :- ReadMany(ReadColumnDir(s), c6, 0, colCount);
      Ok((SegmentDir(offset, length, rows, ToI64(minTS), ToI64(maxTS), columns), c7))
  }

  function ReadSegment(s: Schema): ItemReader<SegmentDir> {
    (j: nat, c: Cur) => ReadSegmentDir(s, c)
  }

  ghost function BodyDecoded(body: bytes): Result<Footer> {
    var (sch, c1) :- ReadSchema(Start(body));
    var (sourceType, c2) :- ReadName(c1, MAX_NAME);
    var (totalRows, c3) := TakeU64(c2);
    var (minTS, c4) := TakeU64(c3);
    var (maxTS, c5) := TakeU64(c4);
    var (segCount, c6) := TakeUvarint(c5);
    if segCount > MAX_SEGMENTS then Err(LimitExceeded)
    else if c6.err.Some? then Err(c6.err.value)
    else
      var (segments, c7) :- ReadMany(ReadSegment(sch), c6, 0, segCount);
      if c7.err.Some? then Err(c7.err.value)
      else Ok(Footer(sch, sourceType, totalRows, ToI64(minTS), ToI64(maxTS), segments))
  }

  /** ReadFooter on a complete file image. */
  ghost function FooterDecoded(p: Platform, file: bytes): Result<Footer> {
    var n := |file|;
    if n < HEADER_SIZE + FOOTER_TRAILER then Err(Truncated)
    else if file[n - 4..] != MAGIC then Err(BadMagic)
    else
      var bodyLen := LE(file[n - 12..n - 8]);
      if bodyLen > MAX_FOOTER_SIZE then Err(LimitExceeded)
      else if bodyLen > n - FOOTER_TRAILER - HEADER_SIZE then Err(Corrupt)
      else
        var body := file[n - FOOTER_TRAILER - bodyLen..n - FOOTER_TRAILER];
        if p.crc32c(body) != LE(file[n - 8..n - 4]) then Err(Checksum)
        else BodyDecoded(body)
  }

  // ----- the writing loops ------------------------------------------------------------------

  lemma ColumnDirAppends(s: Schema, j: nat, cd: ColumnDir)
    ensures Appends(WriteColumnDir(s), j, cd)
  {
    hide NameBytes, LEBytes, Uvarint;
    forall t: bytes
      ensures WriteColumnDir(s)(j, cd, t) == WriteColumnDir(s)(j, cd, []) + t
    {
      if j < |s.columns| {
        ColumnDirAppend(s.columns[j].Kind(), cd, t);
      }
    }
  }

  lemma ColumnDirAppend(kind: Kind, cd: ColumnDir, t: bytes)
    ensures ColumnDirBytes(kind, cd, t) == ColumnDirBytes(kind, cd, []) + t
  {
    hide NameBytes, LEBytes, Uvarint;
    if kind == KindInt {
      assert LEBytes(cd.minInt, 8) + (LEBytes(cd.maxInt, 8) + t)
          == LEBytes(cd.minInt, 8) + (LEBytes(cd.maxInt, 8) + []) + t;
    } else {
      NameAppends(cd.maxBytes, [], t);
      assert [] + t == t;
      NameAppends(cd.minBytes, NameBytes(cd.maxBytes, []), t);
    }
    Prefix6(LEBytes(cd.chunkOffset, 8), LEBytes(cd.chunkLength, 8), LEBytes(cd.indexOffset, 8),
            LEBytes(cd.indexLength, 8), [FlagByte(cd.hasNulls)], Uvarint(cd.nonNull), ZoneBytes(kind, cd, []), t);
  }

  /** Six fields in front of a tail. */
  lemma Prefix6(a: bytes, b: bytes, c: bytes, d: bytes, e: bytes, f: bytes, x: bytes, t: bytes)
    ensures a + (b + (c + (d + (e + (f + (x + t)))))) == a + (b + (c + (d + (e + (f + x))))) + t
    ensures a + (b + (c + (d + (e + (f + x))))) == a + b + c + d + e + f + x
  {
  }

  lemma SegmentAppends(s: Schema, j: nat, seg: SegmentDir)
    ensures Appends(WriteSegment(s), j, seg)
  {
    hide LEBytes, Uvarint, WriteMany, WriteColumnDir;
    forall t: bytes
      ensures WriteSegment(s)(j, seg, t) == WriteSegment(s)(j, seg, []) + t
    {
      forall k: nat | k < |seg.columns|
        ensures Appends(WriteColumnDir(s), k, seg.columns[k])
      {
        ColumnDirAppends(s, k, seg.columns[k]);
      }
      WriteManyAppends(WriteColumnDir(s), seg.columns, 0, t);
      Prefix6(LEBytes(seg.offset, 8), LEBytes(seg.length, 8), Uvarint(seg.rows), LEBytes(ToU64(seg.minTS), 8),
              LEBytes(ToU64(seg.maxTS), 8), Uvarint(|seg.columns|),
              WriteMany(WriteColumnDir(s), seg.columns, 0, []), t);
    }
  }

  method AppendColumnDir(dst: bytes, kind: Kind, cd: ColumnDir) returns (out: bytes)
    ensures out == dst + ColumnDirBytes(kind, cd, [])
  {
    hide LEBytes, Uvarint;
    out := dst;
    out := out + LEBytes(cd.chunkOffset, 8);
    out := out + LEBytes(cd.chunkLength, 8);
    out := out + LEBytes(cd.indexOffset, 8);
    out := out + LEBytes(cd.indexLength, 8);
    var flags: byte := 0;
    assert Or(0, 1) == 1;
    if cd.hasNulls {
      flags := Or(flags, 1);
    }
    out := out + [flags];
    out := out + Uvarint(cd.nonNull);
    ghost var head := out;
    if kind == KindInt {
      out := out + LEBytes(cd.minInt, 8);
      out := out + LEBytes(cd.maxInt, 8);
    } else {
      out := out + Uvarint(|cd.minBytes|);
      out := out + cd.minBytes;
      out := out + Uvarint(|cd.maxBytes|);
      out := out + cd.maxBytes;
    }
    assert out == head + ZoneBytes(kind, cd, []);
    Fields6(dst, LEBytes(cd.chunkOffset, 8), LEBytes(cd.chunkLength, 8), LEBytes(cd.indexOffset, 8),
            LEBytes(cd.indexLength, 8), [FlagByte(cd.hasNulls)], Uvarint(cd.nonNull), ZoneBytes(kind, cd, []));
  }

  lemma Fields6(dst: bytes, a: bytes, b: bytes, c: bytes, d: bytes, e: bytes, f: bytes, x: bytes)
    ensures dst + a + b + c + d + e + f + x == dst + (a + (b + (c + (d + (e + (f + x))))))
  {
  }

  method AppendSegment(dst: bytes, s: Schema, seg: SegmentDir) returns (out: bytes)
    requires |seg.columns| <= |s.columns|
    ensures out == dst + SegmentBytes(s, seg, [])
  {
    hide LEBytes, Uvarint, WriteMany, ColumnDirBytes;
    out := dst;
    out := out + LEBytes(seg.offset, 8);
    out := out + LEBytes(seg.length, 8);
    out := out + Uvarint(seg.rows);
    out := out + LEBytes(ToU64(seg.minTS), 8);
    out := out + LEBytes(ToU64(seg.maxTS), 8);
    out := out + Uvarint(|seg.columns|);
    ghost var head := out;
    ghost var w := WriteColumnDir(s);
    var j := 0;
    while j < |seg.columns|
      invariant 0 <= j <= |seg.columns|
      invariant out + WriteMany(w, seg.columns, j, []) == head + WriteMany(w, seg.columns, 0, [])
    {
      ColumnDirAppends(s, j, seg.columns[j]);
      WriteStep(w, seg.columns, j, out);
      out := AppendColumnDir(out, s.columns[j].Kind(), seg.columns[j]);
      j := j + 1;
    }
    NoneWritten(w, seg.columns);
    assert out == head + WriteMany(w, seg.columns, 0, []);
    Fields6(dst, LEBytes(seg.offset, 8), LEBytes(seg.length, 8), Uvarint(seg.rows), LEBytes(ToU64(seg.minTS), 8),
            LEBytes(ToU64(seg.maxTS), 8), Uvarint(|seg.columns|), WriteMany(w, seg.columns, 0, []));
  }

  lemma NoneWritten<T>(w: Writer<T>, items: seq<T>)
    ensures WriteMany(w, items, |items|, []) == []
  {
  }

  /** Footer.Append; a segment has no more directory entries than the schema has columns. */
  method AppendFooter(p: Platform, f: Footer) returns (out: bytes)
    requires forall i :: 0 <= i < |f.segments| ==> |f.segments[i].columns| <= |f.schema.columns|
    ensures out == FooterBytes(p, f)
  {
    hide LEBytes, Uvarint, WriteMany, DescriptorBytes, SegmentBytes;
    out := AppendDescriptor([], f.schema);
    ghost var descriptor := DescriptorBytes(f.schema, []);
    assert out == descriptor;
    out := out + Uvarint(|f.sourceType|);
    out := out + f.sourceType;
    out := out + LEBytes(f.totalRows, 8);
    out := out + LEBytes(ToU64(f.minTS), 8);
    out := out + LEBytes(ToU64(f.maxTS), 8);
    out := out + Uvarint(|f.segments|);
    ghost var head := out;
    ghost var w := WriteSegment(f.schema);
    var i := 0;
    while i < |f.segments|
      invariant 0 <= i <= |f.segments|
      invariant out + WriteMany(w, f.segments, i, []) == head + WriteMany(w, f.segments, 0, [])
    {
      SegmentAppends(f.schema, i, f.segments[i]);
      WriteStep(w, f.segments, i, out);
      out := AppendSegment(out, f.schema, f.segments[i]);
      i := i + 1;
    }
    NoneWritten(w, f.segments);
    ghost var segs := WriteMany(w, f.segments, 0, []);
    assert out == head + segs;
    Fields6(descriptor, Uvarint(|f.sourceType|), f.sourceType, LEBytes(f.totalRows, 8), LEBytes(ToU64(f.minTS), 8),
            LEBytes(ToU64(f.maxTS), 8), Uvarint(|f.segments|), segs);
    DescriptorAppends(f.schema, NameBytes(f.sourceType, TotalsBytes(f, segs)));
    assert out == FooterBody(f);
    var bodyLen := |out|;
    var crc := p.crc32c(out);
    ghost var body := out;
    out := out + LEBytes(bodyLen, 4);
    out := out + LEBytes(crc, 4);
    out := out + MAGIC;
    assert out == body + Trailer(p, body);
  }

  lemma DescriptorAppends(s: Schema, t: bytes)
    ensures DescriptorBytes(s, t) == DescriptorBytes(s, []) + t
  {
    hide LEBytes, Uvarint, WriteMany, NameBytes;
    forall j: nat | j < |s.columns|
      ensures Appends(WriteColumn, j, s.columns[j])
    {
      ColumnAppends(j, s.columns[j]);
    }
    WriteManyAppends(WriteColumn, s.columns, 0, t);
    var m := WriteMany(WriteColumn, s.columns, 0, []);
    var x := LEBytes(s.version, 2) + (Uvarint(|s.columns|) + m);
    assert LEBytes(s.version, 2) + (Uvarint(|s.columns|) + (m + t)) == x + t;
    NameAppends(s.name, x, t);
    assert LEBytes(s.id, 4) + (NameBytes(s.name, x) + t) == LEBytes(s.id, 4) + NameBytes(s.name, x) + t;
  }

  // ----- the reading loops --------------------------------------------------------------------

  method ReadColumnDirs(c: Cursor, s: Schema) returns (r: Result<seq<ColumnDir>>)
    requires c.Valid()
    modifies c
    ensures c.Valid()
    ensures match ReadMany(ReadColumnDir(s), old(c.State()), 0, |s.columns|)
            case Ok(p) => r == Ok(p.0) && c.State() == p.1
            case Err(e) => r == Err(e)
  {
    hide Take, TakeU8, TakeU64, TakeUvarint, ReadMany, ManyProgress;
    ghost var c0, read := c.State(), ReadColumnDir(s);
    var columns: seq<ColumnDir> := [];
    ManyStart(read, c0, |s.columns|);
    while |columns| < |s.columns|
      invariant c.Valid() && |columns| <= |s.columns|
      invariant ManyProgress(read, c0, |s.columns|, columns, c.State())
    {
      ManyStep(read, c0, |s.columns|, columns, c.State());
      var chunkOffset := c.U64();
      var chunkLength := c.U64();
      var indexOffset := c.U64();
      var indexLength := c.U64();
      var flags := c.U8();
      var nonNull := c.ReadUvarint();
      var hasNulls := And(flags, 1) != 0;
      var cd := ColumnDir(chunkOffset, chunkLength, indexOffset, indexLength, hasNulls, nonNull, 0, 0, [], []);
      if s.columns[|columns|].Kind() == KindInt {
        var lo := c.U64();
        var hi := c.U64();
        cd := cd.(minInt := lo, maxInt := hi);
      } else {
        var ml := c.ReadUvarint();
        if CheckCount(ml, MAX_BYTES_VALUE).Fail? {
          return Err(LimitExceeded);
        }
        var lo := c.Bytes(ml);
        var xl := c.ReadUvarint();
        if CheckCount(xl, MAX_BYTES_VALUE).Fail? {
          return Err(LimitExceeded);
        }
        var hi := c.Bytes(xl);
        cd := cd.(minBytes := lo, maxBytes := hi);
      }
      columns := columns + [cd];
    }
    ManyEnd(read, c0, |s.columns|, columns, c.State());
    return Ok(columns);
  }

  method ReadSegments(c: Cursor, s: Schema, n: nat) returns (r: Result<seq<SegmentDir>>)
    requires c.Valid()
    modifies c
    ensures c.Valid()
    ensures match ReadMany(ReadSegment(s), old(c.State()), 0, n)
            case Ok(p) => r == Ok(p.0) && c.State() == p.1
            case Err(e) => r == Err(e)
  {
    hide Take, TakeU8, TakeU64, TakeUvarint, ReadMany, ManyProgress, ReadColumnDir;
    ghost var c0, read := c.State(), ReadSegment(s);
    var segments: seq<SegmentDir> := [];
    ManyStart(read, c0, n);
    while |segments| < n
      invariant c.Valid() && |segments| <= n
      invariant ManyProgress(read, c0, n, segments, c.State())
    {
      ManyStep(read, c0, n, segments, c.State());
      var offset := c.U64();
      var length := c.U64();
      var rows := c.ReadUvarint();
      var minTS := c.U64();
      var maxTS := c.U64();
      var colCount := c.ReadUvarint();
      if colCount != |s.columns| {
        return Err(Corrupt);
      }
      var columns := ReadColumnDirs(c, s);
      if columns.Err? {
        return Err(columns.error);
      }
      segments := segments + [SegmentDir(offset, length, rows, ToI64(minTS), ToI64(maxTS), columns.value)];
    }
    ManyEnd(read, c0, n, segments, c.State());
    return Ok(segments);
  }

  method ReadFooter(p: Platform, file: bytes) returns (r: Result<Footer>)
    ensures r == FooterDecoded(p, file)
  {
    hide Take, TakeU64, TakeUvarint, ReadMany, ReadSegment, ReadSchema, LE;
    var n := |file|;
    if n < HEADER_SIZE + FOOTER_TRAILER {
      return Err(Truncated);
    }
    if file[n - 4..] != MAGIC {
      return Err(BadMagic);
    }
    var bodyLen := LE(file[n - 12..n - 8]);
    var wantCRC := LE(file[n - 8..n - 4]);
    if CheckCount(bodyLen, MAX_FOOTER_SIZE).Fail? {
      return Err(LimitExceeded);
    }
    var bodyEnd := n - FOOTER_TRAILER;
    if bodyLen > bodyEnd - HEADER_SIZE {
      return Err(Corrupt);
    }
    var body := file[bodyEnd - bodyLen..bodyEnd];
    if p.crc32c(body) != wantCRC {
      return Err(Checksum);
    }
    var c := new Cursor(body);
    var sch := ReadDescriptor(c);
    if sch.Err? {
      return Err(sch.error);
    }
    var stLen := c.ReadUvarint();
    if CheckCount(stLen, MAX_NAME).Fail? {
      return Err(LimitExceeded);
    }
    var sourceType := c.Bytes(stLen);
    var totalRows := c.U64();
    var minTS := c.U64();
    var maxTS := c.U64();
    var segCount := c.ReadUvarint();
    if CheckCount(segCount, MAX_SEGMENTS).Fail? {
      return Err(LimitExceeded);
    }
    if c.err.Some? {
      return Err(c.err.value);
    }
    var segments := ReadSegments(c, sch.value, segCount);
    if segments.Err? {
      return Err(segments.error);
    }
    if c.err.Some? {
      return Err(c.err.value);
    }
    return Ok(Footer(sch.value, sourceType, totalRows, ToI64(minTS), ToI64(maxTS), segments.value));
  }

  // ----- round trip -----------------------------------------------------------------------------

  /** The zone map has only the half its column's kind calls for. */
  predicate ZoneCanonical(kind: Kind, cd: ColumnDir) {
    if kind == KindInt then cd.minBytes == cd.maxBytes == [] else cd.minInt == cd.maxInt == 0
  }

  predicate ZoneFits(cd: ColumnDir) {
    |cd.minBytes| <= MAX_BYTES_VALUE && |cd.maxBytes| <= MAX_BYTES_VALUE
  }

  ghost predicate SegmentFits(s: Schema, seg: SegmentDir) {
    && |seg.columns| == |s.columns|
    && forall j :: 0 <= j < |s.columns| ==>
         ZoneCanonical(s.columns[j].Kind(), seg.columns[j]) && ZoneFits(seg.columns[j])
  }

  /** The limits the reader enforces and the writer takes for granted. */
  ghost predicate FooterFits(f: Footer) {
    && WellFormed(f.schema) && NamesFit(f.schema)
    && |f.sourceType| <= MAX_NAME
    && |f.segments| <= MAX_SEGMENTS
    && (forall i :: 0 <= i < |f.segments| ==> SegmentFits(f.schema, f.segments[i]))
    && |FooterBody(f)| <= MAX_FOOTER_SIZE
  }

  lemma ZoneReads(kind: Kind, cd: ColumnDir, tail: bytes)
    requires ZoneCanonical(kind, cd) && ZoneFits(cd)
    ensures ReadZone(kind, cd.(minInt := 0, maxInt := 0, minBytes := [], maxBytes := []),
            Start(ZoneBytes(kind, cd, tail)))
            == Ok((cd, Start(tail)))
  {
    hide NameBytes, ReadName, LEBytes, TakeU64;
    if kind == KindInt {
      TakeWord64(cd.minInt, LEBytes(cd.maxInt, 8) + tail);
      TakeWord64(cd.maxInt, tail);
    } else {
      NameReads(cd.minBytes, MAX_BYTES_VALUE, NameBytes(cd.maxBytes, tail));
      NameReads(cd.maxBytes, MAX_BYTES_VALUE, tail);
    }
  }

  lemma ColumnDirReads(kind: Kind, cd: ColumnDir, tail: bytes)
    requires ZoneCanonical(kind, cd) && ZoneFits(cd)
    ensures ReadColumnDirAs(kind, Start(ColumnDirBytes(kind, cd, tail))) == Ok((cd, Start(tail)))
  {
    hide ReadZone, ZoneBytes, LEBytes, TakeU64, TakeU8, TakeUvarint, Uvarint;
    var t6 := ZoneBytes(kind, cd, tail);
    var t5 := Uvarint(cd.nonNull) + t6;
    var t4 := [FlagByte(cd.hasNulls)] + t5;
    var t3 := LEBytes(cd.indexLength, 8) + t4;
    var t2 := LEBytes(cd.indexOffset, 8) + t3;
    var t1 := LEBytes(cd.chunkLength, 8) + t2;
    TakeWord64(cd.chunkOffset, t1);
    TakeWord64(cd.chunkLength, t2);
    TakeWord64(cd.indexOffset, t3);
    TakeWord64(cd.indexLength, t4);
    TakeByte(FlagByte(cd.hasNulls), t5);
    TakeVarint(cd.nonNull, t6);
    ZoneReads(kind, cd, tail);
    assert And(1, 1) == 1 && And(0, 1) == 0;
  }

  lemma SegmentReads(s: Schema, j: nat, seg: SegmentDir)
    requires SegmentFits(s, seg) && |s.columns| <= MAX_COLUMNS
    ensures ReadsBack(WriteSegment(s), ReadSegment(s), j, seg)
  {
    hide LEBytes, TakeU64, TakeUvarint, Uvarint, ReadMany, WriteMany, ColumnDirBytes, ReadColumnDirAs;
    forall tail: bytes
      ensures ReadSegment(s)(j, Start(WriteSegment(s)(j, seg, tail))) == Ok((seg, Start(tail)))
    {
      var t6 := WriteMany(WriteColumnDir(s), seg.columns, 0, tail);
      var t5 := Uvarint(|seg.columns|) + t6;
      var t4 := LEBytes(ToU64(seg.maxTS), 8) + t5;
      var t3 := LEBytes(ToU64(seg.minTS), 8) + t4;
      var t2 := Uvarint(seg.rows) + t3;
      var t1 := LEBytes(seg.length, 8) + t2;
      TakeWord64(seg.offset, t1);
      TakeWord64(seg.length, t2);
      TakeVarint(seg.rows, t3);
      TakeWord64(ToU64(seg.minTS), t4);
      TakeWord64(ToU64(seg.maxTS), t5);
      TakeVarint(|seg.columns|, t6);
      forall k: nat | k < |seg.columns|
        ensures ReadsBack(WriteColumnDir(s), ReadColumnDir(s), k, seg.columns[k])
      {
        forall t: bytes
          ensures ReadColumnDir(s)(k, Start(WriteColumnDir(s)(k, seg.columns[k], t))) == Ok((seg.columns[k], Start(t)))
        {
          ColumnDirReads(s.columns[k].Kind(), seg.columns[k], t);
        }
      }
      ManyReadBack(WriteColumnDir(s), ReadColumnDir(s), seg.columns, 0, tail);
      assert seg.columns[0..] == seg.columns;
    }
  }

  lemma BodyRoundTrip(f: Footer)
    requires FooterFits(f)
    ensures BodyDecoded(FooterBody(f)) == Ok(f)
  {
    hide LEBytes, TakeU64, TakeUvarint, Uvarint, ReadMany, WriteMany, NameBytes, ReadName, DescriptorBytes, ReadSchema,
         WriteSegment, ReadSegment, WellFormed, NamesFit;
    var s := f.schema;
    var segs := WriteMany(WriteSegment(s), f.segments, 0, []);
    var t4 := Uvarint(|f.segments|) + segs;
    var t3 := LEBytes(ToU64(f.maxTS), 8) + t4;
    var t2 := LEBytes(ToU64(f.minTS), 8) + t3;
    var t1 := LEBytes(f.totalRows, 8) + t2;
    SchemaRoundTrip(s, NameBytes(f.sourceType, t1));
    NameReads(f.sourceType, MAX_NAME, t1);
    TakeWord64(f.totalRows, t2);
    TakeWord64(ToU64(f.minTS), t3);
    TakeWord64(ToU64(f.maxTS), t4);
    TakeVarint(|f.segments|, segs);
    SegmentsRead(f);
  }

  lemma SegmentsRead(f: Footer)
    requires FooterFits(f)
    ensures ReadMany(ReadSegment(f.schema), Start(WriteMany(WriteSegment(f.schema), f.segments, 0, [])), 0,
            |f.segments|)
            == Ok((f.segments, Start([])))
  {
    hide FooterBody, SegmentFits, NamesFit, ReadMany, WriteMany, ReadSegment, WriteSegment;
    forall j: nat | j < |f.segments|
      ensures ReadsBack(WriteSegment(f.schema), ReadSegment(f.schema), j, f.segments[j])
    {
      SegmentReads(f.schema, j, f.segments[j]);
    }
    ManyReadBack(WriteSegment(f.schema), ReadSegment(f.schema), f.segments, 0, []);
    assert f.segments[0..] == f.segments;
  }

  /** Behind any prefix at least as long as a header, a written footer is read
      back whole, each zone map by the kind its schema column has. */
  lemma FooterRoundTrip(p: Platform, prefix: bytes, f: Footer)
    requires FooterFits(f) && |prefix| >= HEADER_SIZE
    ensures FooterDecoded(p, prefix + FooterBytes(p, f)) == Ok(f)
  {
    hide FooterBody, BodyDecoded, LEBytes, LE, NamesFit, WellFormed, SegmentFits, Pow2;
    var body := FooterBody(f);
    TrailerReads(prefix, body, LEBytes(|body|, 4), LEBytes(p.crc32c(body), 4));
    Pow2Values();
    LEFits(|body|, 4);
    LEFits(p.crc32c(body), 4);
    BodyRoundTrip(f);
  }

  /** Where the parts of a footer lie, seen from the end of the file. */
  lemma TrailerReads(prefix: bytes, body: bytes, len: bytes, crc: bytes)
    requires |len| == 4 && |crc| == 4
    ensures var file := prefix + (body + (len + (crc + MAGIC)));
            var n := |file|;
            && n == |prefix| + |body| + FOOTER_TRAILER
            && file[n - 4..] == MAGIC && file[n - 12..n - 8] == len && file[n - 8..n - 4] == crc
            && file[n - FOOTER_TRAILER - |body|..n - FOOTER_TRAILER] == body
  {
    var file := prefix + (body + (len + (crc + MAGIC)));
    assert file == prefix + body + len + crc + MAGIC;
  }
}
