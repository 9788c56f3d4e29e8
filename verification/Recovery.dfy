/** Finding the most recent valid footer of a truncated file
    (internal/format/recover.go). */
module Recovery {
  import opened Bits
  import opened Wrappers
  import opened Limits
  import opened Libraries
  import opened FooterFormat

  /** A complete, valid footer ends at offset end. */
  ghost predicate FooterEndsAt(p: Platform, file: bytes, end: nat) {
    HEADER_SIZE + FOOTER_TRAILER <= end <= |file| && FooterDecoded(p, file[..end]).Ok?
  }

  /** end is where the latest valid footer ends. */
  ghost predicate LatestEnd(p: Platform, file: bytes, end: nat) {
    FooterEndsAt(p, file, end) && forall e: nat :: e > end ==> !FooterEndsAt(p, file, e)
  }

  /** The first valid footer met walking back from end. */
  ghost function WalkBack(p: Platform, file: bytes, end: nat): Result<Footer>
    requires end <= |file|
    decreases end
  {
    if end < HEADER_SIZE + FOOTER_TRAILER then Err(Corrupt)
    else if FooterDecoded(p, file[..end]).Ok? then FooterDecoded(p, file[..end])
    else WalkBack(p, file, end - 1)
  }

  /** The walk answers the valid footer with the greatest end offset, and fails
      only when there is none. */
  lemma {:induction false} WalkBackFindsLatest(p: Platform, file: bytes, end: nat)
    requires end <= |file|
    ensures match WalkBack(p, file, end)
            case Ok(f) => exists e: nat ::
              && e <= end && FooterEndsAt(p, file, e) && FooterDecoded(p, file[..e]) == Ok(f)
              && forall e': nat :: e < e' <= end ==> !FooterEndsAt(p, file, e')
            case Err(_) => forall e: nat :: e <= end ==> !FooterEndsAt(p, file, e)
    decreases end
  {
    hide FooterDecoded;
    if end >= HEADER_SIZE + FOOTER_TRAILER {
      if FooterDecoded(p, file[..end]).Ok? {
        assert FooterEndsAt(p, file, end);
      } else {
        WalkBackFindsLatest(p, file, end - 1);
      }
    }
  }

  /** tryFooterAt repeats some of ReadFooter's checks on the uncut file. */
  method TryFooterAt(p: Platform, file: bytes, end: nat) returns (r: Result<Footer>)
    requires end <= |file|
    ensures r.Ok? <==> FooterDecoded(p, file[..end]).Ok?
    ensures r.Ok? ==> r == FooterDecoded(p, file[..end])
  {
    hide BodyDecoded;
    if end < HEADER_SIZE + FOOTER_TRAILER {
      return Err(Truncated);
    }
    var bodyLen := LE(file[end - 12..end - 8]);
    assert file[..end][end - 12..end - 8] == file[end - 12..end - 8];
    if bodyLen > MAX_FOOTER_SIZE {
      return Err(LimitExceeded);
    }
    var bodyEnd := end - FOOTER_TRAILER;
    if bodyLen > bodyEnd - HEADER_SIZE {
      return Err(Corrupt);
    }
    r := ReadFooter(p, file[..end]);
  }

  /** Scans backwards over candidate ends for the trailer magic and a footer. */
  method RecoverFooter(p: Platform, file: bytes) returns (r: Result<Footer>)
    ensures r == WalkBack(p, file, |file|)
  {
    hide BodyDecoded;
    var end := |file|;
    while end >= HEADER_SIZE + FOOTER_TRAILER
      invariant 0 <= end <= |file|
      invariant WalkBack(p, file, |file|) == WalkBack(p, file, end)
      decreases end
    {
      assert file[..end][end - 4..] == file[end - 4..end];
      if file[end - 4] == MAGIC[0] && file[end - 3] == MAGIC[1] && file[end - 2] == MAGIC[2]
          && file[end - 1] == MAGIC[3] {
        var f := TryFooterAt(p, file, end);
        if f.Ok? {
          return f;
        }
      }
      end := end - 1;
    }
    return Err(Corrupt);
  }
}
