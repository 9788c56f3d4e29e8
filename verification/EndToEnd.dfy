/** From records in to answers out: what a query says of a file is what it means
    on the records the writer accepted. */
module EndToEnd {
  import opened Bits
  import opened Wrappers
  import opened Libraries
  import opened Schemas
  import opened FooterFormat
  import opened Recovery
  import opened Store
  import opened Records
  import opened WriterLog
  import opened Writers
  import opened Contents
  import opened Durability
  import opened Execute
  import opened Engine
  import opened Parser
  import Q = Queries

  /** However its writes failed on the way, a writer that has been closed has left
      a file that opens; what is read of it is true of exactly the records it
      accepted, and within the limits all of it can be read. */
  lemma ClosedWriterReads(w: Writer)
    requires w.Ready() && w.closed && DirectoryFits(w.u, w.segments)
    ensures Opened(w.p, w.Data()).Ok? && Opened(w.p, w.Data()).value.footer.schema == w.schema
    ensures var r := Opened(w.p, w.Data()).value;
            && (SegmentsRepresentable(w.u, w.Log(), |w.segments|) ==>
                  Truthful(w.p, r, RowsIn(w.groups)) && Flatten(RowsIn(w.groups)) == w.accepted)
            && (SegmentsFit(w.u, w.Log(), |w.segments|) ==>
                  SegmentsRepresentable(w.u, w.Log(), |w.segments|) && Readable(w.p, r))
  {
    hide LogOk, DirectoryFits, SegmentsRepresentable, SegmentsFit, Buffer, Opened, Truthful, Readable, Flatten,
         FooterOf, SetupOk, TotalRows, FileSpan, Recovered;
    var m := w.marks[|w.marks| - 1];
    ClosedFilesOpen(w.u, w.Log(), m);
    FooterSchema(w.u, w.segments);
  }

  lemma FooterSchema(u: Setup, segs: seq<SegmentDir>)
    ensures FooterOf(u, segs).schema == u.schema
  {
  }

  /** Answers a query on a file image, recovering it if need be. */
  method QueryImage(p: Platform, image: bytes, q: bytes, ghost groups: seq<seq<Row>>) returns (res: Result<Answer>)
    requires Recovered(p, image).Ok? ==> Truthful(p, Recovered(p, image).value.0, groups)
    ensures Recovered(p, image).Err? ==> res.Err?
    ensures Parsed(q).Err? ==> res.Err?
    ensures Recovered(p, image).Ok? && Parsed(q).Ok? ==>
              var r, st := Recovered(p, image).value.0, Parsed(q).value;
              && (!KnownColumns(r.footer.schema, st) ==> res == Err(Corrupt))
              && (KnownColumns(r.footer.schema, st) && res.Ok? ==>
                   Answers(p, r.footer.schema, Flatten(groups), st, res.value))
              && (KnownColumns(r.footer.schema, st) && Readable(p, r) ==> res.Ok?)
              && res != Err(OutOfMemory)
  {
    hide Recovered, Parsed, Truthful, Readable, KnownColumns, Answers, Flatten;
    var file := Recover(p, image);
    if file.Err? {
      return Err(file.error);
    }
    var st := Parse(q);
    if st.Err? {
      return Err(st.error);
    }
    res := ExecuteStmt(p, file.value.0, st.value, groups);
  }

  /** A query after a crash. Cut the file anywhere behind a completed checkpoint with
      no later valid footer: a query gets a right answer or an error, right
      meaning its meaning on exactly the records accepted before that checkpoint;
      a well-formed query over known columns gets an answer when all segments are
      within the chunk reader's limits. */
  method QueryAfterCrash(ghost u: Setup, ghost l: Log, ghost m: Mark, p: Platform, image: bytes, q: bytes)
    returns (res: Result<Answer>)
    requires SetupOk(u) && p == u.p && LogOk(u, l) && m in l.marks
    requires m.segs <= |l.segments| && DirectoryFits(u, l.segments[..m.segs]) && SegmentsRepresentable(u, l, m.segs)
    requires image <= l.data && m.end <= |image| && LatestEnd(p, image, m.end)
    ensures Parsed(q).Err? ==> res.Err?
    ensures Parsed(q).Ok? && !KnownColumns(u.schema, Parsed(q).value) ==> res == Err(Corrupt)
    ensures Parsed(q).Ok? && KnownColumns(u.schema, Parsed(q).value) ==>
              && (res.Ok? ==>
                    && m.records <= |l.accepted|
                    && Answers(p, u.schema, l.accepted[..m.records], Parsed(q).value, res.value))
              && (SegmentsFit(u, l, m.segs) ==> res.Ok?)
              && res != Err(OutOfMemory)
  {
    hide Recovered, Parsed, Truthful, Readable, KnownColumns, Answers, Flatten, LogOk, SetupOk, DirectoryFits,
         SegmentsRepresentable, SegmentsFit, LatestEnd, FooterOf;
    assert l.data[..|image|] == image;
    CheckpointsSurvive(u, l, m, |image|);
    FooterSchema(u, l.segments[..m.segs]);
    ghost var groups := RowsIn(l.groups[..m.segs]);
    assert Flatten(groups) == l.accepted[..m.records];
    res := QueryImage(p, image, q, groups);
  }
}
