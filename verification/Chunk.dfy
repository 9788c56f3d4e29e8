/** The column-chunk framing (internal/column/chunk.go, Builder.Encode of
    internal/column/builder.go). */
module Chunk {
  import opened Bits
  import opened Wrappers
  import opened Limits
  import opened Libraries
  import opened Varint
  import opened Streams
  import opened Cursors
  import opened Column
  import IntCodecs
  import IntSelector
  import ByteCodecs

  // ----- encoding -----------------------------------------------------------------

  /** Semantic codec id and payload of a column. */
  ghost function Payload(kind: Kind, cells: seq<Cell>): (byte, bytes)
    requires |cells| <= MAX_INT
  {
    if kind == KindInt then IntSelector.IntsEncoding(IntsOf(cells)) else ByteCodecs.BytesEncoding(BlobsOf(cells))
  }

  /** Entropy codec id and stored bytes: compression is kept only if it shrinks. */
  function Stored(p: Platform, comp: byte, encoded: bytes): (byte, bytes) {
    if comp != NONE && |p.compress(comp, encoded)| < |encoded| then (comp, p.compress(comp, encoded))
    else (NONE, encoded)
  }

  function PresencePart(present: Option<seq<bool>>, tail: bytes): bytes {
    if present.None? then tail
    else Uvarint(|PresenceBytes(present.value)|) + (PresenceBytes(present.value) + tail)
  }

  function Frame(p: Platform, kind: Kind, encID: byte, compID: byte, rows: nat, rawLen: nat, stored: bytes,
                 present: Option<seq<bool>>): bytes
  {
    [kind.Code()] + ([encID] + ([compID] + ([if present.Some? then 1 else 0] +
    (Uvarint(rows) + (Uvarint(rawLen) + (Uvarint(|stored|) +
    PresencePart(present, LEBytes(p.xxh64(stored), 8) + stored)))))))
  }

  function NullsOf(cells: seq<Cell>): Option<seq<bool>> {
    if HasNulls(cells) then Some(PresentOf(cells)) else None
  }

  /** The chunk of a column. */
  ghost function ChunkBytes(p: Platform, comp: byte, kind: Kind, cells: seq<Cell>): bytes
    requires |cells| <= MAX_INT
  {
    var (encID, encoded) := Payload(kind, cells);
    var (compID, stored) := Stored(p, comp, encoded);
    Frame(p, kind, encID, compID, |cells|, |encoded|, stored, NullsOf(cells))
  }

  /** encodeChunkBytes. */
  method EncodeChunkBytes(p: Platform, b: Builder, encID: byte, compID: byte, rawLen: nat, stored: bytes)
    returns (out: bytes)
    requires b.Valid()
    ensures out == Frame(p, b.kind, encID, compID, |b.cells|, rawLen, stored, NullsOf(b.cells))
  {
    hide Uvarint, PresenceBytes, HasNulls;
    var flags: byte := if b.present.Some? then 1 else 0;
    out := [b.kind.Code(), encID, compID, flags];
    out := out + Uvarint(b.rows);
    out := out + Uvarint(rawLen);
    out := out + Uvarint(|stored|);
    ghost var head := out;
    ghost var tail := LEBytes(p.xxh64(stored), 8) + stored;
    if b.present.Some? {
      var bm := PresenceBitmap(b.present.value, b.rows);
      out := out + Uvarint(|bm|);
      out := out + bm;
    }
    out := out + LEBytes(p.xxh64(stored), 8);
    out := out + stored;
    assert out == head + PresencePart(NullsOf(b.cells), tail);
    HeadIs(b.kind.Code(), encID, compID, flags, Uvarint(b.rows), Uvarint(rawLen), Uvarint(|stored|),
           PresencePart(NullsOf(b.cells), tail));
  }

  lemma HeadIs(a: byte, b: byte, c: byte, d: byte, e: bytes, f: bytes, g: bytes, t: bytes)
    ensures [a, b, c, d] + e + f + g + t == [a] + ([b] + ([c] + ([d] + (e + (f + (g + t))))))
  {
  }

  method PresenceBitmap(present: seq<bool>, rows: nat) returns (bits: bytes)
    requires rows == |present|
    ensures bits == PresenceBytes(present)
  {
    var bm := new Bitmap(rows);
    var i := 0;
    while i < rows
      invariant 0 <= i <= rows
      invariant forall k: nat :: k < 8 * BitmapSize(rows) ==> (bm.Has(k) <==> k < i && present[k])
    {
      if present[i] {
        bm.Set(i);
      }
      i := i + 1;
    }
    bm.BytesAre(present);
    return bm.bits[..];
  }

  /** Builder.Encode: the chunk and the statistics for the directory. */
  method Encode(b: Builder, p: Platform, comp: byte) returns (chunk: bytes, st: Stats)
    requires b.Valid() && b.rows <= MAX_INT
    ensures chunk == ChunkBytes(p, comp, b.kind, b.cells)
    ensures StatsOf(st, b.kind, b.cells)
  {
    hide Frame;
    st := b.GetStats();
    var encID: byte, encoded: bytes;
    if b.kind == KindInt {
      encID, encoded := IntSelector.EncodeIntsAuto(b.ints);
    } else {
      encID, encoded := ByteCodecs.EncodeBytesAuto(b.blobs);
    }
    var compID, stored := NONE, encoded;
    if comp != NONE {
      var cand := p.compress(comp, encoded);
      if |cand| < |encoded| {
        stored, compID := cand, comp;
      }
    }
    chunk := EncodeChunkBytes(p, b, encID, compID, |encoded|, stored);
  }

  // ----- decoding --------------------------------------------------------------------

  datatype Header = Header(kind: byte, encID: byte, compID: byte, flags: byte, rows: u64, rawLen: u64, storedLen: u64)

  function ReadHead(c0: Cur): (Header, Cur) {
    var (kind, c1) := TakeU8(c0);
    var (encID, c2) := TakeU8(c1);
    var (compID, c3) := TakeU8(c2);
    var (flags, c4) := TakeU8(c3);
    var (rows, c5) := TakeUvarint(c4);
    var (rawLen, c6) := TakeUvarint(c5);
    var (storedLen, c7) := TakeUvarint(c6);
    (Header(kind, encID, compID, flags, rows, rawLen, storedLen), c7)
  }

  /** The optional presence bitmap. */
  function ReadPresence(c0: Cur, flags: byte, rows: nat): (r: Result<(Option<bytes>, Cur)>)
    ensures r.Ok? && r.value.0.Some? ==> |r.value.0.value| == BitmapSize(rows)
  {
    if And(flags, 1) == 0 then Ok((None, c0))
    else
      var (bmLen, c1) := TakeUvarint(c0);
      if bmLen != BitmapSize(rows) then Err(Corrupt)
      else
        var (bm, c2) := Take(c1, bmLen);
        if c2.err.Some? then Err(c2.err.value)
        else if |bm| != BitmapSize(rows) then Err(Corrupt)
        else Ok((Some(bm), c2))
  }

  function ReadStored(p: Platform, c0: Cur, storedLen: nat): Result<bytes> {
    var (checksum, c1) := TakeU64(c0);
    if CheckCount(storedLen, MAX_CHUNK_STORED).Fail? then Err(LimitExceeded)
    else
      var (stored, c2) := Take(c1, storedLen);
      if c2.err.Some? then Err(c2.err.value)
      else if p.xxh64(stored) != checksum then Err(Checksum)
      else Ok(stored)
  }

  function Expand(p: Platform, h: Header, stored: bytes): Result<bytes> {
    if CheckDecompress(h.storedLen, h.rawLen).Fail? then Err(LimitExceeded)
    else Decompressed(p, h.compID, stored, h.rawLen)
  }

  function DecodePayload(h: Header, encoded: bytes, present: Option<bytes>): (r: Result<Data>)
    requires present.Some? ==> |present.value| == BitmapSize(h.rows)
    ensures r.Ok? ==> DataOk(r.value)
  {
    if h.kind == 0 then
      var vals :- IntSelector.IntsDecoded(h.encID, encoded, h.rows);
      Ok(Data(KindInt, vals, [], present, h.rows))
    else if h.kind == 1 then
      var vals :- ByteCodecs.BytesDecoded(h.encID, encoded, h.rows);
      Ok(Data(KindBytes, [], vals, present, h.rows))
    else Err(Corrupt)
  }

  /** The header, presence bitmap and payload of a chunk, its checksum verified. */
  function Unframed(p: Platform, raw: bytes): (r: Result<(Header, Option<bytes>, bytes)>)
    ensures r.Ok? ==> r.value.0.rows <= MAX_SEGMENT_ROWS
    ensures r.Ok? && r.value.1.Some? ==> |r.value.1.value| == BitmapSize(r.value.0.rows)
  {
    var (h, c1) := ReadHead(Start(raw));
    if c1.err.Some? then Err(c1.err.value)
    else if CheckCount(h.rows, MAX_SEGMENT_ROWS).Fail? then Err(LimitExceeded)
    else
      var (present, c2) :- ReadPresence(c1, h.flags, h.rows);
      var stored :- ReadStored(p, c2, h.storedLen);
      var encoded :- Expand(p, h, stored);
      Ok((h, present, encoded))
  }

  /** DecodeChunk: a well-formed vector or an error, unless a run kills. */
  function ChunkDecoded(p: Platform, raw: bytes): (r: Result<Data>)
    ensures r.Ok? ==> DataOk(r.value)
  {
    var (h, present, encoded) :- Unframed(p, raw);
    DecodePayload(h, encoded, present)
  }

  /** No pair of a run-length payload is unbounded. */
  ghost predicate RunsSafe(h: Header, encoded: bytes) {
    && (h.kind == 0 && h.encID == IntCodecs.RLE_INT ==> RunsBounded(ReadWord, encoded, 0, h.rows))
    && (h.kind == 1 && h.encID == ByteCodecs.RLE_BYTES ==> RunsBounded(ReadBlob, encoded, 0, h.rows))
  }

  /** Any bytes give a vector or an error, except those whose verified payload is
      run-length coded with an unbounded pair, which kill. */
  lemma ChunkOutcome(p: Platform, raw: bytes)
    requires forall id: byte, s: bytes, n: nat :: p.decompress(id, s, n) != Err(OutOfMemory)
    ensures ChunkDecoded(p, raw) == Err(OutOfMemory)
            <==> Unframed(p, raw).Ok? && !RunsSafe(Unframed(p, raw).value.0, Unframed(p, raw).value.2)
  {
    hide Unframed, IntSelector.IntsDecoded, ByteCodecs.BytesDecoded, RunsBounded;
    UnframingSurvives(p, raw);
    if Unframed(p, raw).Ok? {
      var (h, _, encoded) := Unframed(p, raw).value;
      IntSelector.DecodeOutcome(h.encID, encoded, h.rows);
      ByteCodecs.DecodeOutcome(h.encID, encoded, h.rows);
    }
  }

  lemma HeadSurvives(c: Cur)
    requires Alive(c)
    ensures Alive(ReadHead(c).1)
  {
    hide TakeU8, TakeUvarint, Alive;
    TakesSurvive(c, 0);
    var c1 := TakeU8(c).1;
    TakesSurvive(c1, 0);
    var c2 := TakeU8(c1).1;
    TakesSurvive(c2, 0);
    var c3 := TakeU8(c2).1;
    TakesSurvive(c3, 0);
    var c4 := TakeU8(c3).1;
    TakesSurvive(c4, 0);
    var c5 := TakeUvarint(c4).1;
    TakesSurvive(c5, 0);
    var c6 := TakeUvarint(c5).1;
    TakesSurvive(c6, 0);
  }

  lemma PresenceSurvives(c: Cur, flags: byte, rows: nat)
    requires Alive(c)
    ensures match ReadPresence(c, flags, rows)
            case Ok(x) => Alive(x.1)
            case Err(e) => e != OutOfMemory
  {
    hide Take, TakeUvarint, And;
    TakesSurvive(c, 0);
    var (bmLen, c1) := TakeUvarint(c);
    TakesSurvive(c1, bmLen);
  }

  lemma StoredSurvives(p: Platform, c: Cur, storedLen: nat)
    requires Alive(c)
    ensures ReadStored(p, c, storedLen) != Err(OutOfMemory)
  {
    hide Take, TakeU64;
    TakesSurvive(c, 0);
    TakesSurvive(TakeU64(c).1, storedLen);
  }

  lemma UnframingSurvives(p: Platform, raw: bytes)
    requires forall id: byte, s: bytes, n: nat :: p.decompress(id, s, n) != Err(OutOfMemory)
    ensures Unframed(p, raw) != Err(OutOfMemory)
  {
    hide ReadHead, ReadPresence, ReadStored, CheckDecompress;
    HeadSurvives(Start(raw));
    var (h, c1) := ReadHead(Start(raw));
    PresenceSurvives(c1, h.flags, h.rows);
    if ReadPresence(c1, h.flags, h.rows).Ok? {
      StoredSurvives(p, ReadPresence(c1, h.flags, h.rows).value.1, h.storedLen);
    }
  }

  method DecodeChunk(p: Platform, raw: bytes) returns (r: Result<Data>)
    ensures r == ChunkDecoded(p, raw)
  {
    hide Take, TakeU8, TakeUvarint, TakeU64;
    var c := new Cursor(raw);
    var kind := c.U8();
    var encID := c.U8();
    var compID := c.U8();
    var flags := c.U8();
    var rows := c.ReadUvarint();
    var rawLen := c.ReadUvarint();
    var storedLen := c.ReadUvarint();
    ghost var h := Header(kind, encID, compID, flags, rows, rawLen, storedLen);
    assert (h, c.State()) == ReadHead(Start(raw));
    if c.err.Some? {
      return Err(c.err.value);
    }
    if CheckCount(rows, MAX_SEGMENT_ROWS).Fail? {
      return Err(LimitExceeded);
    }
    var present: Option<bytes> := None;
    if And(flags, 1) != 0 {
      var bmLen := c.ReadUvarint();
      if bmLen != (rows + 7) / 8 {
        return Err(Corrupt);
      }
      var bm := c.Bytes(bmLen);
      if c.err.Some? {
        return Err(c.err.value);
      }
      if |bm| != BitmapSize(rows) {
        return Err(Corrupt);
      }
      present := Some(bm);
    }
    var checksum := c.U64();
    if CheckCount(storedLen, MAX_CHUNK_STORED).Fail? {
      return Err(LimitExceeded);
    }
    var stored := c.Bytes(storedLen);
    if c.err.Some? {
      return Err(c.err.value);
    }
    if p.xxh64(stored) != checksum {
      return Err(Checksum);
    }
    if CheckDecompress(storedLen, rawLen).Fail? {
      return Err(LimitExceeded);
    }
    var encoded := Decompressed(p, compID, stored, rawLen);
    if encoded.Err? {
      return Err(encoded.error);
    }
    match kind
    case 0 =>
      var vals := IntSelector.DecodeInts(encID, encoded.value, rows);
      if vals.Err? {
        return Err(vals.error);
      }
      return Ok(Data(KindInt, vals.value, [], present, rows));
    case 1 =>
      var vals := ByteCodecs.DecodeBytes(encID, encoded.value, rows);
      if vals.Err? {
        return Err(vals.error);
      }
      return Ok(Data(KindBytes, [], vals.value, present, rows));
    case _ =>
      return Err(Corrupt);
  }

  // ----- round trip ---------------------------------------------------------------------

  lemma HeadReads(kind: byte, encID: byte, compID: byte, flags: byte, rows: u64, rawLen: u64, storedLen: u64,
      tail: bytes)
    ensures ReadHead(Start([kind] + ([encID] + ([compID] + ([flags] +
              (Uvarint(rows) + (Uvarint(rawLen) + (Uvarint(storedLen) + tail))))))))
            == (Header(kind, encID, compID, flags, rows, rawLen, storedLen), Start(tail))
  {
    hide TakeU8, TakeUvarint, Uvarint;
    var t3 := Uvarint(storedLen) + tail;
    var t2 := Uvarint(rawLen) + t3;
    var t1 := Uvarint(rows) + t2;
    TakeByte(kind, [encID] + ([compID] + ([flags] + t1)));
    TakeByte(encID, [compID] + ([flags] + t1));
    TakeByte(compID, [flags] + t1);
    TakeByte(flags, t1);
    TakeVarint(rows, t2);
    TakeVarint(rawLen, t3);
    TakeVarint(storedLen, tail);
  }

  lemma PresenceReads(present: Option<seq<bool>>, rows: nat, tail: bytes)
    requires rows <= MAX_SEGMENT_ROWS && (present.Some? ==> |present.value| == rows)
    ensures ReadPresence(Start(PresencePart(present, tail)), if present.Some? then 1 else 0, rows)
            == Ok((if present.Some? then Some(PresenceBytes(present.value)) else None, Start(tail)))
  {
    hide Uvarint, TakeUvarint, Take, PresenceBytes;
    assert And(1, 1) == 1 && And(0, 1) == 0;
    if present.Some? {
      var bm := PresenceBytes(present.value);
      TakeVarint(|bm|, bm + tail);
      TakeFront(bm, tail);
    }
  }

  lemma StoredReads(p: Platform, stored: bytes)
    requires |stored| < TWO64
    ensures ReadStored(p, Start(LEBytes(p.xxh64(stored), 8) + stored), |stored|)
            == if |stored| <= MAX_CHUNK_STORED then Ok(stored) else Err(LimitExceeded)
  {
    hide TakeU64, Take, LEBytes;
    TakeWord64(p.xxh64(stored), stored);
    TakeFront(stored, []);
    assert stored + [] == stored;
  }

  /** What decides whether a chunk can be read back: row, payload and ratio limits,
      and the byte codecs' own limits. A caller can check it before writing. */
  ghost predicate ChunkLimits(p: Platform, comp: byte, kind: Kind, cells: seq<Cell>)
    requires |cells| <= MAX_INT
  {
    var encoded := Payload(kind, cells).1;
    var stored := Stored(p, comp, encoded).1;
    && |cells| <= MAX_SEGMENT_ROWS
    && |stored| <= MAX_CHUNK_STORED
    && SizesPass(|stored|, |encoded|)
    && (kind == KindBytes ==> ByteCodecs.WithinLimits(BlobsOf(cells)))
  }

  /** Sizes that a 64-bit machine can represent. */
  ghost predicate Representable(p: Platform, comp: byte, kind: Kind, cells: seq<Cell>)
    requires |cells| <= MAX_INT
  {
    |Payload(kind, cells).1| < TWO64 && ByteCodecs.AllInts(BlobsOf(cells))
  }

  /** A chunk with a good checksum that kills: one row, any value, a run of 2^63. */
  lemma WrappedRunChunk(p: Platform, v: u64)
    ensures var data := Uvarint(v) + Uvarint(MAX_INT + 1);
            var raw := Frame(p, KindInt, IntCodecs.RLE_INT, NONE, 1, |data|, data, None);
            ChunkDecoded(p, raw) == Err(OutOfMemory)
  {
    hide Uvarint, ReadHead, ReadPresence, ReadStored, LEBytes, RunsDecoded;
    var data := Uvarint(v) + Uvarint(MAX_INT + 1);
    UvarintRoundTrip(v, []);
    UvarintRoundTrip(MAX_INT + 1, []);
    assert 2 <= |data| <= 20;
    var sum := LEBytes(p.xxh64(data), 8) + data;
    HeadReads(0, IntCodecs.RLE_INT, NONE, 0, 1, |data|, |data|, sum);
    PresenceReads(None, 1, sum);
    StoredReads(p, data);
    IntCodecs.WrappedRun(v);
    assert |data| / |data| == 1;
  }

  /** A chunk decodes if and only if its sizes are within the limits, else it is
      refused as over a limit; decoded it gives the same values at the present
      rows and nulls exactly at the null rows. */
  lemma ChunkRoundTrip(p: Platform, comp: byte, kind: Kind, cells: seq<Cell>)
    requires Lossless(p) && KnownCodec(comp)
    requires |cells| <= MAX_INT && ColumnOk(kind, cells) && Representable(p, comp, kind, cells)
    ensures var r := ChunkDecoded(p, ChunkBytes(p, comp, kind, cells));
            if ChunkLimits(p, comp, kind, cells) then
              r.Ok? && DataOk(r.value) && r.value.kind == kind && CellsOf(r.value) == cells
            else r == Err(LimitExceeded)
  {
    hide Uvarint, ReadHead, ReadPresence, ReadStored, PresencePart, LEBytes, PresenceBytes, HasNulls, CellsOf,
         IntSelector.IntsDecoded, ByteCodecs.BytesDecoded, IntSelector.IntsEncoding, ByteCodecs.BytesEncoding,
         CheckDecompress, SizesPass, ByteCodecs.WithinLimits, BitAt;
    var (encID, encoded) := Payload(kind, cells);
    var (compID, stored) := Stored(p, comp, encoded);
    DecompressPasses(|stored|, |encoded|);
    var nulls := NullsOf(cells);
    var sum := LEBytes(p.xxh64(stored), 8) + stored;
    var flags := if nulls.Some? then 1 else 0;
    HeadReads(kind.Code(), encID, compID, flags, |cells|, |encoded|, |stored|, PresencePart(nulls, sum));
    if |cells| <= MAX_SEGMENT_ROWS {
      PresenceReads(nulls, |cells|, sum);
      StoredReads(p, stored);
      PayloadDecodes(kind, cells);
      DataForMeans(kind, cells);
    }
    var h := Header(kind.Code(), encID, compID, flags, |cells|, |encoded|, |stored|);
    assert CheckDecompress(|stored|, |encoded|).Pass? ==> Expand(p, h, stored) == Ok(encoded);
  }

  /** The writer does not check the ratio the reader insists on: a column whose
      payload the codec shrinks at least 257-fold is written and never read,
      lossless as the codec may be. */
  lemma WellCompressedChunksAreRefused(p: Platform, comp: byte, kind: Kind, cells: seq<Cell>)
    requires Lossless(p) && KnownCodec(comp) && comp != NONE
    requires |cells| <= MAX_INT && ColumnOk(kind, cells) && Representable(p, comp, kind, cells)
    requires var encoded := Payload(kind, cells).1;
             0 < |p.compress(comp, encoded)| && 257 * |p.compress(comp, encoded)| <= |encoded|
    ensures ChunkDecoded(p, ChunkBytes(p, comp, kind, cells)) == Err(LimitExceeded)
  {
    hide ChunkDecoded, ChunkBytes, Payload, ByteCodecs.WithinLimits, ByteCodecs.AllInts, Lossless;
    ChunkRoundTrip(p, comp, kind, cells);
    var stored, encoded := |p.compress(comp, Payload(kind, cells).1)|, |Payload(kind, cells).1|;
    assert !SizesPass(stored, encoded);
  }

  lemma PayloadDecodes(kind: Kind, cells: seq<Cell>)
    requires |cells| <= MAX_SEGMENT_ROWS && ColumnOk(kind, cells) && ByteCodecs.AllInts(BlobsOf(cells))
    ensures var (encID, encoded) := Payload(kind, cells);
            && (kind == KindInt ==> IntSelector.IntsDecoded(encID, encoded, |cells|) == Ok(IntsOf(cells)))
            && (kind == KindBytes ==>
                  if ByteCodecs.WithinLimits(BlobsOf(cells))
                  then ByteCodecs.BytesDecoded(encID, encoded, |cells|) == Ok(BlobsOf(cells))
                  else ByteCodecs.BytesDecoded(encID, encoded, |cells|) == Err(LimitExceeded))
  {
    hide IntSelector.IntsDecoded, ByteCodecs.BytesDecoded, IntSelector.IntsEncoding, ByteCodecs.BytesEncoding,
         ByteCodecs.WithinLimits;
    PayloadIs(kind, cells);
    if kind == KindInt {
      IntSelector.SelectorRoundTrip(IntsOf(cells));
    } else {
      ByteCodecs.SelectorRoundTrip(BlobsOf(cells));
    }
  }

  lemma PayloadIs(kind: Kind, cells: seq<Cell>)
    requires |cells| <= MAX_INT
    ensures kind == KindInt ==> Payload(kind, cells) == IntSelector.IntsEncoding(IntsOf(cells))
    ensures kind == KindBytes ==> Payload(kind, cells) == ByteCodecs.BytesEncoding(BlobsOf(cells))
  {
  }

  /** An integer column stored without entropy compression always reads back:
      no ratio or size hypothesis is needed. */
  lemma PlainIntColumnsAlwaysRead(p: Platform, cells: seq<Cell>)
    requires |cells| <= MAX_SEGMENT_ROWS && ColumnOk(KindInt, cells)
    ensures ChunkLimits(p, NONE, KindInt, cells) && Representable(p, NONE, KindInt, cells)
  {
    hide IntSelector.IntsEncoding, IntSelector.IntsDecoded;
    IntSelector.SelectorRoundTrip(IntsOf(cells));
    assert forall i :: 0 <= i < |cells| ==> CellOk(KindInt, cells[i]);
    var n := |Payload(KindInt, cells).1|;
    assert n > 0 ==> n / n == 1;
  }
}
