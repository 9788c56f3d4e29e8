/** Where each field stands in the bytes, and what a reader insists on before it
    believes them (internal/format/header.go, internal/format/footer.go,
    internal/column/chunk.go). */
module Formats {
  import opened Bits
  import opened Wrappers
  import opened Limits
  import opened Libraries
  import opened Varint
  import opened Cursors
  import opened Framing
  import opened Column
  import opened Chunk
  import opened Schemas
  import opened BloomFilter
  import FF = FooterFormat
  import IX = ColumnIndexes

  /** The bytes from one position on. */
  predicate StandsAt(b: bytes, at: nat, field: bytes) {
    at + |field| <= |b| && b[at..at + |field|] == field
  }

  lemma InFront(x: bytes, rest: bytes)
    ensures StandsAt(x + rest, 0, x)
    ensures forall at: nat, field: bytes :: StandsAt(rest, at, field) ==> StandsAt(x + rest, |x| + at, field)
  {
    forall at: nat, field: bytes | StandsAt(rest, at, field)
      ensures StandsAt(x + rest, |x| + at, field)
    {
      assert (x + rest)[|x| + at..|x| + at + |field|] == rest[at..at + |field|];
    }
  }

  lemma Whole(x: bytes)
    ensures StandsAt(x, 0, x)
  {
  }

  lemma WordAt(b: bytes, at: nat, v: nat, n: nat)
    requires StandsAt(b, at, LEBytes(v, n)) && v < Pow2(8 * n)
    ensures at + n <= |b| && LE(b[at..at + n]) == v
  {
    LEFits(v, n);
  }

  /** Bytes of a word, least significant first. */
  lemma {:induction false} ByteOfWord(v: nat, n: nat, i: nat)
    requires i < n
    ensures LEBytes(v, n)[i] == v / Pow2(8 * i) % 0x100
  {
    hide Pow2, Shr;
    if i > 0 {
      ByteOfWord(v / 0x100, n - 1, i - 1);
      ShiftBy8(v);
      ShrAdd(v, 8, 8 * (i - 1));
      ShiftMeaning(v / 0x100, 8 * (i - 1));
      ShiftMeaning(v, 8 * i);
    } else {
      NoShift();
    }
  }

  lemma NoShift()
    ensures Pow2(0) == 1
  {
  }

  // ----- header -------------------------------------------------------------------------

  /** 36 bytes: 'NTCF', version, flags, creation time, writer id, and the checksum of
      those. */
  lemma HeaderFormat(p: Platform, h: FF.Header)
    requires |h.writerID| == 16
    ensures var b := FF.HeaderBytes(p, h);
            && |b| == 36 && b[..4] == [0x4E, 0x54, 0x43, 0x46]
            && LE(b[4..6]) == h.version && LE(b[6..8]) == h.flags && LE(b[8..16]) == ToU64(h.created)
            && b[16..32] == h.writerID && LE(b[32..36]) == p.crc32c(b[..32])
  {
    hide LEBytes, LE, Pow2, ToU64;
    var b := FF.HeaderBytes(p, h);
    var body := FF.HeaderBody(h);
    var crc := LEBytes(p.crc32c(body), 4);
    var t4 := h.writerID;
    var t3 := LEBytes(ToU64(h.created), 8) + t4;
    var t2 := LEBytes(h.flags, 2) + t3;
    var t1 := LEBytes(h.version, 2) + t2;
    assert body == FF.MAGIC + t1 && b == body + crc;
    Whole(t4);
    InFront(LEBytes(ToU64(h.created), 8), t4);
    InFront(LEBytes(h.flags, 2), t3);
    InFront(LEBytes(h.version, 2), t2);
    InFront(FF.MAGIC, t1);
    Pow2Values();
    WordAt(body, 4, h.version, 2);
    WordAt(body, 6, h.flags, 2);
    WordAt(body, 8, ToU64(h.created), 8);
    assert StandsAt(body, 16, t4);
    assert b[..32] == body && b[32..36] == crc;
    LEFits(p.crc32c(body), 4);
    assert b[4..6] == body[4..6] && b[6..8] == body[6..8] && b[8..16] == body[8..16] && b[16..32] == body[16..32];
    assert b[..4] == FF.MAGIC;
  }

  /** What is read of any 36 bytes: the checksum is looked at first, then the magic,
      then the version. */
  lemma HeaderReads(p: Platform, b: bytes)
    ensures FF.HeaderDecoded(p, b) ==
            if |b| < 36 then Err(Truncated)
            else if p.crc32c(b[..32]) != LE(b[32..36]) then Err(Checksum)
            else if b[..4] != [0x4E, 0x54, 0x43, 0x46] then Err(BadMagic)
            else if LE(b[4..6]) != 1 then Err(UnsupportedVersion)
            else (Pow2Values(); LEBound(b[6..8]); LEBound(b[8..16]);
                  Ok(FF.Header(1, LE(b[6..8]), ToI64(LE(b[8..16])), b[16..32])))
  {
    hide LE, ToI64, Pow2;
    if |b| >= 36 {
      var body := b[..32];
      assert body[..4] == b[..4] && body[4..][..2] == b[4..6] && body[4..][2..][..2] == b[6..8];
      assert body[4..][2..][2..][..8] == b[8..16] && body[4..][2..][2..][8..][..16] == b[16..32];
    }
  }

  // ----- footer --------------------------------------------------------------------------

  /** A footer ends in the length of its body, the checksum of its body, and 'NTCF'. */
  lemma FooterFormat(p: Platform, f: FF.Footer)
    ensures var b, n := FF.FooterBytes(p, f), |FF.FooterBytes(p, f)|;
            && n >= 12 && b[n - 4..] == [0x4E, 0x54, 0x43, 0x46]
            && LE(b[n - 8..n - 4]) == p.crc32c(b[..n - 12])
            && (n - 12 < 0x1_0000_0000 ==> LE(b[n - 12..n - 8]) == n - 12)
  {
    hide LEBytes, LE, Pow2, FF.FooterBody;
    var body := FF.FooterBody(f);
    var b, n := FF.FooterBytes(p, f), |FF.FooterBytes(p, f)|;
    var len, crc := LEBytes(|body|, 4), LEBytes(p.crc32c(body), 4);
    assert b == body + (len + (crc + FF.MAGIC));
    assert b[..n - 12] == body && b[n - 12..n - 8] == len && b[n - 8..n - 4] == crc && b[n - 4..] == FF.MAGIC;
    Pow2Values();
    LEFits(p.crc32c(body), 4);
    if |body| < 0x1_0000_0000 {
      LEFits(|body|, 4);
    }
  }

  /** The file ends in a body within the limits, its length, its checksum and 'NTCF'. */
  ghost predicate EndsInFooter(p: Platform, file: bytes) {
    var n := |file|;
    && n >= 48 && file[n - 4..] == [0x4E, 0x54, 0x43, 0x46]
    && var len := LE(file[n - 12..n - 8]);
       && len <= 0x1000_0000 && len <= n - 48
       && LE(file[n - 8..n - 4]) == p.crc32c(file[n - 12 - len..n - 12])
  }

  /** No footer is believed that does not end so, is longer than the limit or reaches
      into the header, or whose checksum differs. */
  lemma FooterChecked(p: Platform, file: bytes)
    requires FF.FooterDecoded(p, file).Ok?
    ensures EndsInFooter(p, file)
  {
    hide FF.BodyDecoded, LE;
  }

  /** A footer whose body has been changed is refused, unless the checksum has a
      collision. */
  lemma DamagedFooter(p: Platform, front: bytes, body: bytes, damaged: bytes)
    requires |front| >= 36 && |damaged| == |body| <= 0x1000_0000 && p.crc32c(damaged) != p.crc32c(body)
    ensures FF.FooterDecoded(p, front + (damaged + FF.Trailer(p, body))) == Err(Checksum)
  {
    hide FF.BodyDecoded, LE, LEBytes, Pow2;
    var len, crc := LEBytes(|body|, 4), LEBytes(p.crc32c(body), 4);
    var file := front + (damaged + FF.Trailer(p, body));
    var n := |file|;
    assert file == front + (damaged + (len + (crc + FF.MAGIC)));
    assert file[n - 12..n - 8] == len && file[n - 8..n - 4] == crc && file[n - 4..] == FF.MAGIC;
    Pow2Values();
    LEFits(p.crc32c(body), 4);
    LEFits(|body|, 4);
    assert file[n - 12 - |body|..n - 12] == damaged;
  }

  /** A directory entry: four words, the null flag, the count and the zone map. */
  lemma ColumnDirFormat(kind: Kind, cd: FF.ColumnDir, tail: bytes)
    ensures var b := FF.ColumnDirBytes(kind, cd, tail);
            && |b| >= 33 && LE(b[0..8]) == cd.chunkOffset && LE(b[8..16]) == cd.chunkLength
            && LE(b[16..24]) == cd.indexOffset && LE(b[24..32]) == cd.indexLength
            && b[32] == (if cd.hasNulls then 1 else 0)
            && b[33..] == Uvarint(cd.nonNull) +
                 if kind == KindInt then LEBytes(cd.minInt, 8) + (LEBytes(cd.maxInt, 8) + tail)
                 else Uvarint(|cd.minBytes|) + (cd.minBytes + (Uvarint(|cd.maxBytes|) + (cd.maxBytes + tail)))
  {
    hide LEBytes, LE, Pow2, Uvarint;
    var b := FF.ColumnDirBytes(kind, cd, tail);
    var rest := [FF.FlagByte(cd.hasNulls)] + (Uvarint(cd.nonNull) + FF.ZoneBytes(kind, cd, tail));
    Words4(b, cd.chunkOffset, cd.chunkLength, cd.indexOffset, cd.indexLength, rest);
    assert b[32] == rest[0] && b[33..] == rest[1..];
  }

  lemma Words4(b: bytes, w: u64, x: u64, y: u64, z: u64, tail: bytes)
    requires b == LEBytes(w, 8) + (LEBytes(x, 8) + (LEBytes(y, 8) + (LEBytes(z, 8) + tail)))
    ensures |b| >= 32 && LE(b[0..8]) == w && LE(b[8..16]) == x && LE(b[16..24]) == y && LE(b[24..32]) == z
    ensures b[32..] == tail
  {
    hide LEBytes, LE, Pow2;
    Four(b, LEBytes(w, 8), LEBytes(x, 8), LEBytes(y, 8), LEBytes(z, 8), tail);
    LEWord(w);
    LEWord(x);
    LEWord(y);
    LEWord(z);
  }

  lemma Four(b: bytes, w: bytes, x: bytes, y: bytes, z: bytes, tail: bytes)
    requires b == w + (x + (y + (z + tail))) && |w| == |x| == |y| == |z| == 8
    ensures |b| == 32 + |tail| && b[0..8] == w && b[8..16] == x && b[16..24] == y && b[24..32] == z && b[32..] == tail
  {
  }

  /** A segment: offset, length, row count, time span, column count and its columns. */
  lemma SegmentFormat(s: Schema, seg: FF.SegmentDir, tail: bytes)
    ensures var b := FF.SegmentBytes(s, seg, tail);
            var rows := |Uvarint(seg.rows)|;
            && |b| >= 16 + rows + 16 && LE(b[0..8]) == seg.offset && LE(b[8..16]) == seg.length
            && b[16..16 + rows] == Uvarint(seg.rows)
            && LE(b[16 + rows..24 + rows]) == ToU64(seg.minTS) && LE(b[24 + rows..32 + rows]) == ToU64(seg.maxTS)
  {
    hide LEBytes, LE, Pow2, Uvarint, ToU64;
    var b := FF.SegmentBytes(s, seg, tail);
    var rows := Uvarint(seg.rows);
    var t := Uvarint(|seg.columns|) + WriteMany(FF.WriteColumnDir(s), seg.columns, 0, tail);
    var lo, hi := LEBytes(ToU64(seg.minTS), 8), LEBytes(ToU64(seg.maxTS), 8);
    assert b == LEBytes(seg.offset, 8) + (LEBytes(seg.length, 8) + (rows + (lo + (hi + t))));
    assert b[0..8] == LEBytes(seg.offset, 8) && b[8..16] == LEBytes(seg.length, 8) && b[16..16 + |rows|] == rows;
    assert b[16 + |rows|..24 + |rows|] == lo && b[24 + |rows|..32 + |rows|] == hi;
    LEWord(seg.offset);
    LEWord(seg.length);
    LEWord(ToU64(seg.minTS));
    LEWord(ToU64(seg.maxTS));
  }

  /** The file totals: rows, time span, segment count. */
  lemma TotalsFormat(f: FF.Footer, tail: bytes)
    ensures var b := FF.TotalsBytes(f, tail);
            && |b| >= 24 && LE(b[0..8]) == f.totalRows && LE(b[8..16]) == ToU64(f.minTS)
            && LE(b[16..24]) == ToU64(f.maxTS) && b[24..] == Uvarint(|f.segments|) + tail
  {
    hide LEBytes, LE, Pow2, Uvarint, ToU64;
    var b := FF.TotalsBytes(f, tail);
    assert b[0..8] == LEBytes(f.totalRows, 8) && b[8..16] == LEBytes(ToU64(f.minTS), 8);
    assert b[16..24] == LEBytes(ToU64(f.maxTS), 8);
    LEWord(f.totalRows);
    LEWord(ToU64(f.minTS));
    LEWord(ToU64(f.maxTS));
  }

  /** A column of the schema: name, type, and its two flags. */
  lemma ColumnFormat(j: nat, c: ColumnDef, tail: bytes)
    ensures var b, at := WriteColumn(j, c, tail), |Uvarint(|c.name|)| + |c.name|;
            && |b| >= at + 2 && b[..at] == Uvarint(|c.name|) + c.name && b[at] == c.typ && b[at + 2..] == tail
            && b[at + 1] == (if c.indexed then 1 else 0) + if c.nullable then 2 else 0
  {
    hide Uvarint;
    var b, at := WriteColumn(j, c, tail), |Uvarint(|c.name|)| + |c.name|;
    assert b == Uvarint(|c.name|) + (c.name + ([c.typ] + ([FlagsOf(c)] + tail)));
  }

  // ----- chunk -----------------------------------------------------------------------------

  /** A chunk begins with its kind, codec, compression and null flag, and ends in the
      checksum of the stored bytes and those bytes. */
  lemma ChunkFormat(p: Platform, kind: Kind, encID: byte, compID: byte, rows: nat, rawLen: nat, stored: bytes,
                    present: Option<seq<bool>>)
    ensures var b := Frame(p, kind, encID, compID, rows, rawLen, stored, present);
            var head := Uvarint(rows) + (Uvarint(rawLen) + Uvarint(|stored|));
            var n := |stored|;
            && |b| >= 12 + n && b[0] == (if kind == KindInt then 0 else 1) && b[1] == encID && b[2] == compID
            && b[3] == (if present.Some? then 1 else 0) && StandsAt(b, 4, head)
            && b[|b| - n..] == stored && LE(b[|b| - n - 8..|b| - n]) == p.xxh64(stored)
  {
    hide LEBytes, LE, Pow2, Uvarint, StandsAt, Frame;
    var b := Frame(p, kind, encID, compID, rows, rawLen, stored, present);
    var sum := LEBytes(p.xxh64(stored), 8);
    var first := [kind.Code(), encID, compID, if present.Some? then 1 else 0];
    var head := Uvarint(rows) + (Uvarint(rawLen) + Uvarint(|stored|));
    var mid := FrameSplit(p, kind, encID, compID, rows, rawLen, stored, present);
    Frames(b, first, head, mid, sum, stored);
    assert b[0] == b[..4][0] && b[1] == b[..4][1] && b[2] == b[..4][2] && b[3] == b[..4][3];
    LEWord(p.xxh64(stored));
  }

  lemma FrameSplit(p: Platform, kind: Kind, encID: byte, compID: byte, rows: nat, rawLen: nat, stored: bytes,
                   present: Option<seq<bool>>) returns (mid: bytes)
    ensures Frame(p, kind, encID, compID, rows, rawLen, stored, present) ==
            [kind.Code(), encID, compID, if present.Some? then 1 else 0]
            + ((Uvarint(rows) + (Uvarint(rawLen) + Uvarint(|stored|))) + (mid + (LEBytes(p.xxh64(stored), 8) + stored)))
  {
    hide LEBytes, Uvarint, PresencePart;
    var b := Frame(p, kind, encID, compID, rows, rawLen, stored, present);
    var tail := LEBytes(p.xxh64(stored), 8) + stored;
    mid := PartEnds(present, tail);
    var first := [kind.Code(), encID, compID, if present.Some? then 1 else 0];
    HeadSplit(b, first, Uvarint(rows), Uvarint(rawLen), Uvarint(|stored|), mid + tail);
  }

  lemma Frames(b: bytes, first: bytes, head: bytes, mid: bytes, sum: bytes, stored: bytes)
    requires b == first + (head + (mid + (sum + stored))) && |first| == 4 && |sum| == 8
    ensures |b| >= 12 + |stored| && b[..4] == first && StandsAt(b, 4, head)
    ensures b[|b| - |stored|..] == stored && b[|b| - |stored| - 8..|b| - |stored|] == sum
  {
    InFront(head, mid + (sum + stored));
    InFront(first, head + (mid + (sum + stored)));
    EndSplit(b, first + head + mid, sum, stored);
  }

  lemma HeadSplit(b: bytes, first: bytes, x: bytes, y: bytes, z: bytes, part: bytes)
    requires |first| == 4
    requires b == [first[0]] + ([first[1]] + ([first[2]] + ([first[3]] + (x + (y + (z + part))))))
    ensures b == first + ((x + (y + z)) + part) && b[..4] == first
  {
  }

  lemma EndSplit(b: bytes, front: bytes, sum: bytes, stored: bytes)
    requires b == front + (sum + stored) && |sum| == 8
    ensures b[|b| - |stored|..] == stored && b[|b| - |stored| - 8..|b| - |stored|] == sum
  {
  }

  lemma PartEnds(present: Option<seq<bool>>, tail: bytes) returns (mid: bytes)
    ensures PresencePart(present, tail) == mid + tail
  {
    hide PresenceBytes, Uvarint;
    if present.Some? {
      var bm := PresenceBytes(present.value);
      mid := Uvarint(|bm|) + bm;
    } else {
      mid := [];
    }
  }

  /** No chunk is decoded whose stored bytes do not have the checksum before them, or
      that is over a limit; and what is decoded is what they decompress to. */
  lemma ChunkChecked(p: Platform, raw: bytes)
    requires Unframed(p, raw).Ok?
    ensures var (h, present, encoded) := Unframed(p, raw).value;
            && h.rows <= 0x100_0000 && h.storedLen <= 0x4000_0000 && h.rawLen <= 0x1_0000_0000
            && (h.storedLen > 0 ==> h.rawLen < 257 * h.storedLen) && h.compID <= 2
            && exists at: nat, stored: bytes :: SumAndStored(p, raw, at, stored) && |stored| == h.storedLen
                 && Decompressed(p, h.compID, stored, h.rawLen) == Ok(encoded)
  {
    hide LE, And, Decompressed, ReadHead, ReadPresence, ReadStored, Leaves, CheckDecompress;
    var (h, c1) := ReadHead(Start(raw));
    var (present, c2) := ReadPresence(c1, h.flags, h.rows).value;
    HeadLeaves(raw);
    PresenceLeaves(c1, h.flags, h.rows, raw);
    StoredLeaves(p, c2, h.storedLen);
    var stored := ReadStored(p, c2, h.storedLen).value;
    var at := SumStands(p, raw, c2, stored);
    DecompressPasses(h.storedLen, h.rawLen);
    CodecsAre(p, h.compID, stored, h.rawLen);
  }

  lemma SumStands(p: Platform, raw: bytes, c: Cur, stored: bytes) returns (at: nat)
    requires Leaves(raw, c) && 8 + |stored| <= |c.rest|
    requires stored == c.rest[8..][..|stored|] && LE(c.rest[..8]) == p.xxh64(stored)
    ensures SumAndStored(p, raw, at, stored)
  {
    hide LE;
    at := |raw| - |c.rest|;
    assert raw[at..] == c.rest;
    assert raw[at..at + 8] == c.rest[..8] && raw[at + 8..at + 8 + |stored|] == c.rest[8..][..|stored|];
  }

  /** A chunk whose stored bytes have been changed is refused, unless the hash has a
      collision: here it carries the checksum of what was stored. */
  lemma DamagedChunk(p: Platform, kind: Kind, encID: byte, compID: byte, rows: nat, rawLen: u64, stored: bytes,
                     damaged: bytes, present: Option<seq<bool>>)
    requires rows <= MAX_SEGMENT_ROWS && (present.Some? ==> |present.value| == rows)
    requires |damaged| == |stored| <= MAX_CHUNK_STORED && p.xxh64(damaged) != p.xxh64(stored)
    ensures var q := p.(xxh64 := (b: bytes) => p.xxh64(stored));
            ChunkDecoded(p, Frame(q, kind, encID, compID, rows, rawLen, damaged, present)) == Err(Checksum)
  {
    hide Uvarint, ReadHead, ReadPresence, PresencePart, LEBytes, Expand, DecodePayload, TakeU64, Take;
    var tail := LEBytes(p.xxh64(stored), 8) + damaged;
    HeadReads(kind.Code(), encID, compID, if present.Some? then 1 else 0, rows, rawLen, |damaged|,
              PresencePart(present, tail));
    PresenceReads(present, rows, tail);
    TakeWord64(p.xxh64(stored), damaged);
    TakeFront(damaged, []);
    assert damaged + [] == damaged;
  }

  /** A presence bitmap of any other length than the rows need is refused. */
  lemma WrongBitmap(rows: nat, declared: u64, tail: bytes)
    requires declared != (rows + 7) / 8
    ensures ReadPresence(Start(Uvarint(declared) + tail), 1, rows) == Err(Corrupt)
  {
    hide Uvarint, TakeUvarint;
    assert And(1, 1) == 1;
    TakeVarint(declared, tail);
  }

  ghost predicate SumAndStored(p: Platform, raw: bytes, at: nat, stored: bytes) {
    at + 8 + |stored| <= |raw| && raw[at + 8..at + 8 + |stored|] == stored && LE(raw[at..at + 8]) == p.xxh64(stored)
  }

  /** What is left is the end of what there was. */
  ghost predicate Leaves(raw: bytes, c: Cur) {
    |c.rest| <= |raw| && raw[|raw| - |c.rest|..] == c.rest
  }

  lemma TakeLeaves(raw: bytes, c: Cur, n: nat)
    requires Leaves(raw, c)
    ensures Leaves(raw, Take(c, n).1)
  {
  }

  lemma UvarintLeaves(raw: bytes, c: Cur)
    requires Leaves(raw, c)
    ensures Leaves(raw, TakeUvarint(c).1)
  {
    hide ReadUvarint;
  }

  lemma HeadLeaves(raw: bytes)
    ensures Leaves(raw, ReadHead(Start(raw)).1)
  {
    hide Leaves, Take, TakeUvarint;
    var c0 := Start(raw);
    assert Leaves(raw, c0) by {
      AllLeft(raw);
    }
    TakeLeaves(raw, c0, 1);
    var c1 := TakeU8(c0).1;
    TakeLeaves(raw, c1, 1);
    var c2 := TakeU8(c1).1;
    TakeLeaves(raw, c2, 1);
    var c3 := TakeU8(c2).1;
    TakeLeaves(raw, c3, 1);
    var c4 := TakeU8(c3).1;
    UvarintLeaves(raw, c4);
    var c5 := TakeUvarint(c4).1;
    UvarintLeaves(raw, c5);
    UvarintLeaves(raw, TakeUvarint(c5).1);
  }

  lemma AllLeft(raw: bytes)
    ensures Leaves(raw, Start(raw))
  {
  }

  lemma PresenceLeaves(c: Cur, flags: byte, rows: nat, raw: bytes)
    requires Leaves(raw, c) && ReadPresence(c, flags, rows).Ok?
    ensures Leaves(raw, ReadPresence(c, flags, rows).value.1)
  {
    hide Leaves, Take, TakeUvarint, And;
    UvarintLeaves(raw, c);
    TakeLeaves(raw, TakeUvarint(c).1, TakeUvarint(c).0);
  }

  lemma StoredLeaves(p: Platform, c: Cur, storedLen: nat)
    requires ReadStored(p, c, storedLen).Ok?
    ensures var stored := ReadStored(p, c, storedLen).value;
            && |stored| == storedLen <= MAX_CHUNK_STORED && 8 + storedLen <= |c.rest|
            && stored == c.rest[8..][..storedLen] && LE(c.rest[..8]) == p.xxh64(stored)
  {
    hide LE, Pow2;
  }

  /** Compression is used exactly when it shrinks the payload. */
  lemma StoredIs(p: Platform, comp: byte, encoded: bytes)
    ensures var (id, stored) := Stored(p, comp, encoded);
            && |stored| <= |encoded|
            && (if comp != 0 && |p.compress(comp, encoded)| < |encoded|
                then id == comp && stored == p.compress(comp, encoded) else id == 0 && stored == encoded)
  {
  }

  // ----- indexes ----------------------------------------------------------------------------

  /** An index blob begins with its flags: 1 for the Bloom filter, 2 for the inverted
      index; a filter begins with its probe count. */
  lemma IndexFormat(p: Platform, ci: IX.ColumnIndex, out: bytes)
    requires IX.IsIndexBytes(p, ci, out)
    ensures |out| >= 1 && out[0] == (if ci.bloom.Some? then 1 else 0) + (if ci.inverted.Some? then 2 else 0)
    ensures ci.bloom.Some? ==> |out| >= 2 && out[1] == ci.bloom.value.k
  {
    hide Uvarint, IX.InvertedPart, WriteMany;
  }

  /** A key's digest is that of its bytes, an integer's of its eight, low byte first. */
  lemma DigestIs(p: Platform, v: u64, b: bytes)
    ensures IX.HashOf(p, Blob(b)) == p.xxh64(b)
    ensures exists k: bytes :: |k| == 8 && IX.HashOf(p, Int(v)) == p.xxh64(k)
                               && forall i :: 0 <= i < 8 ==> k[i] == v / Pow2(8 * i) % 0x100
  {
    var k := LEBytes(v, 8);
    forall i | 0 <= i < 8
      ensures k[i] == v / Pow2(8 * i) % 0x100
    {
      ByteOfWord(v, 8, i);
    }
    assert IX.HashOf(p, Int(v)) == p.xxh64(k);
  }

  /** The probes of a digest: h, h + h2, h + 2 h2 and so on, wrapping at 2^64, where h2 is
      the digest with its halves exchanged around bit 33, or a constant when that is 0. */
  lemma ProbeIs(h: u64, i: nat, m: nat)
    requires m > 0
    ensures var turned := h / 0x2_0000_0000 + h % 0x2_0000_0000 * 0x8000_0000;
            Probe(h, i, m) == ((h + i * (if turned == 0 then 0x9E37_79B9_7F4A_7C15 else turned)) % TWO64) % m
  {
    hide Shr, Shl, Low, Or;
    Turned(h);
  }

  lemma Turned(h: u64)
    ensures SecondHash(h) ==
            var turned := h / 0x2_0000_0000 + h % 0x2_0000_0000 * 0x8000_0000;
            if turned == 0 then 0x9E37_79B9_7F4A_7C15 else turned
  {
    hide Pow2, Shl, Shr, Low, Or;
    assert Pow2(31) == 0x8000_0000 && Pow2(33) == 0x2_0000_0000 by {
      Pow2Values();
      MorePow2();
    }
    Pow2Values();
    ShiftMeaning(h, 33);
    LowOfShl(h, 31, 33);
    ShiftMeaning(Low(h, 33), 31);
    ShrBound(h, 33, 31);
    OrDisjoint(Shr(h, 33), Low(h, 33), 31);
  }

  lemma MorePow2()
    ensures Pow2(31) == 0x8000_0000 && Pow2(33) == 0x2_0000_0000
  {
    Pow2Values();
    assert Pow2(32) == 2 * Pow2(31) && Pow2(33) == 2 * Pow2(32);
  }
}
