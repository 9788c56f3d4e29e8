/** The read engine over a file image (internal/store/reader.go). */
module Store {
  import opened Bits
  import opened Wrappers
  import opened Limits
  import opened Libraries
  import opened Schemas
  import opened Column
  import opened Chunk
  import opened ColumnIndexes
  import opened FooterFormat
  import opened Recovery

  datatype Reader = Reader(data: bytes, header: FooterFormat.Header, footer: Footer) {
    function Schema(): Schema {
      footer.schema
    }
  }

  /** New: a complete file. */
  ghost function Opened(p: Platform, data: bytes): Result<Reader> {
    var hdr :- HeaderDecoded(p, data);
    var ftr :- FooterDecoded(p, data);
    Ok(Reader(data, hdr, ftr))
  }

  /** Recover: also a file whose final footer is missing; tells whether a scan was needed. */
  ghost function Recovered(p: Platform, data: bytes): Result<(Reader, bool)> {
    var hdr :- HeaderDecoded(p, data);
    if FooterDecoded(p, data).Ok? then Ok((Reader(data, hdr, FooterDecoded(p, data).value), false))
    else
      var ftr :- WalkBack(p, data, |data|);
      Ok((Reader(data, hdr, ftr), true))
  }

  /** Recovery opens the valid footer with the greatest end offset, scan or no
      scan, and fails only when the file holds none. */
  lemma RecoverFindsLatest(p: Platform, data: bytes)
    requires HeaderDecoded(p, data).Ok?
    ensures match Recovered(p, data)
            case Ok((r, scanned)) =>
              && r.data == data
              && scanned == !FooterDecoded(p, data).Ok?
              && exists end: nat :: LatestEnd(p, data, end) && FooterDecoded(p, data[..end]) == Ok(r.footer)
            case Err(_) => forall end: nat :: !FooterEndsAt(p, data, end)
  {
    hide HeaderDecoded;
    WalkBackFindsLatest(p, data, |data|);
    assert data[..|data|] == data;
    if FooterDecoded(p, data).Ok? {
      FooterNeedsRoom(p, data);
      assert LatestEnd(p, data, |data|);
    } else {
      hide FooterDecoded;
      var w := WalkBack(p, data, |data|);
      if w.Ok? {
        var e: nat :| e <= |data| && FooterEndsAt(p, data, e) && FooterDecoded(p, data[..e]) == Ok(w.value)
                      && forall e': nat :: e < e' <= |data| ==> !FooterEndsAt(p, data, e');
        assert LatestEnd(p, data, e);
      }
    }
  }

  lemma FooterNeedsRoom(p: Platform, data: bytes)
    requires FooterDecoded(p, data).Ok?
    ensures |data| >= HEADER_SIZE + FOOTER_TRAILER
  {
  }

  /** data[off:off+length], the end computed on uint64 and both overflow and
      overrun refused. */
  function Slice(r: Reader, off: u64, length: u64): (s: Result<bytes>)
    ensures s.Ok? <==> off + length <= |r.data| && off + length < TWO64
    ensures s.Ok? ==> s.value == r.data[off..off + length]
  {
    var end := (off + length) % TWO64;
    if end < off || end > |r.data| then Err(Corrupt) else Ok(r.data[off..end])
  }

  function ColumnData(p: Platform, r: Reader, segIdx: int, colIdx: int): (d: Result<Data>)
    ensures d.Ok? ==> DataOk(d.value)
  {
    if segIdx < 0 || segIdx >= |r.footer.segments| then Err(Corrupt)
    else
      var seg := r.footer.segments[segIdx];
      if colIdx < 0 || colIdx >= |seg.columns| then Err(Corrupt)
      else
        var raw :- Slice(r, seg.columns[colIdx].chunkOffset, seg.columns[colIdx].chunkLength);
        ChunkDecoded(p, raw)
  }

  function ColumnIndexOf(p: Platform, r: Reader, segIdx: nat, colIdx: nat): (ci: Result<ColumnIndex>)
    requires segIdx < |r.footer.segments| && colIdx < |r.footer.segments[segIdx].columns|
    ensures ci.Ok? && ci.value.bloom.Some? ==> ci.value.bloom.value.words != []
  {
    var cd := r.footer.segments[segIdx].columns[colIdx];
    if cd.indexLength == 0 then Ok(ColumnIndex(None, None))
    else
      var raw :- Slice(r, cd.indexOffset, cd.indexLength);
      IndexDecoded(p, raw)
  }

  method New(p: Platform, data: bytes) returns (r: Result<Reader>)
    ensures r == Opened(p, data)
  {
    hide HeaderDecoded, FooterDecoded;
    var hdr := ReadHeader(p, data);
    if hdr.Err? {
      return Err(hdr.error);
    }
    var ftr := ReadFooter(p, data);
    if ftr.Err? {
      return Err(ftr.error);
    }
    return Ok(Reader(data, hdr.value, ftr.value));
  }

  method Recover(p: Platform, data: bytes) returns (r: Result<(Reader, bool)>)
    ensures r == Recovered(p, data)
  {
    hide HeaderDecoded, FooterDecoded, WalkBack;
    var hdr := ReadHeader(p, data);
    if hdr.Err? {
      return Err(hdr.error);
    }
    var ftr := ReadFooter(p, data);
    if ftr.Ok? {
      return Ok((Reader(data, hdr.value, ftr.value), false));
    }
    var last := RecoverFooter(p, data);
    if last.Err? {
      return Err(last.error);
    }
    return Ok((Reader(data, hdr.value, last.value), true));
  }

  method ReadColumnData(p: Platform, r: Reader, segIdx: int, colIdx: int) returns (d: Result<Data>)
    ensures d == ColumnData(p, r, segIdx, colIdx)
    ensures segIdx < 0 || segIdx >= |r.footer.segments| ==> d == Err(Corrupt)
    ensures 0 <= segIdx < |r.footer.segments| && (colIdx < 0 || colIdx >= |r.footer.segments[segIdx].columns|) ==>
              d == Err(Corrupt)
    ensures d.Ok? ==>
              var cd := r.footer.segments[segIdx].columns[colIdx];
              && cd.chunkOffset + cd.chunkLength <= |r.data|
              && d == ChunkDecoded(p, r.data[cd.chunkOffset..cd.chunkOffset + cd.chunkLength])
  {
    hide ChunkDecoded;
    if segIdx < 0 || segIdx >= |r.footer.segments| {
      return Err(Corrupt);
    }
    var seg := r.footer.segments[segIdx];
    if colIdx < 0 || colIdx >= |seg.columns| {
      return Err(Corrupt);
    }
    var raw := Slice(r, seg.columns[colIdx].chunkOffset, seg.columns[colIdx].chunkLength);
    if raw.Err? {
      return Err(raw.error);
    }
    d := DecodeChunk(p, raw.value);
  }

  method ReadIndexOf(p: Platform, r: Reader, segIdx: nat, colIdx: nat) returns (ci: Result<ColumnIndex>)
    requires segIdx < |r.footer.segments| && colIdx < |r.footer.segments[segIdx].columns|
    ensures ci == ColumnIndexOf(p, r, segIdx, colIdx)
    ensures var cd := r.footer.segments[segIdx].columns[colIdx];
            && (cd.indexLength == 0 ==> ci == Ok(ColumnIndex(None, None)))
            && (cd.indexLength > 0 && cd.indexOffset + cd.indexLength > |r.data| ==> ci == Err(Corrupt))
            && (cd.indexLength > 0 && ci.Ok? ==>
                  && cd.indexOffset + cd.indexLength <= |r.data|
                  && ci == IndexDecoded(p, r.data[cd.indexOffset..cd.indexOffset + cd.indexLength]))
  {
    hide IndexDecoded;
    var cd := r.footer.segments[segIdx].columns[colIdx];
    if cd.indexLength == 0 {
      return Ok(ColumnIndex(None, None));
    }
    var raw := Slice(r, cd.indexOffset, cd.indexLength);
    if raw.Err? {
      return Err(raw.error);
    }
    ci := ReadColumnIndex(p, raw.value);
  }
}
