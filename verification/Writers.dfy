/** The Writer: records in, segments and footers out (pkg/ntcf/writer.go). */
module Writers {
  import opened Bits
  import opened Wrappers
  import opened Limits
  import opened Libraries
  import opened Varint
  import opened Column
  import opened Chunk
  import opened Schemas
  import opened FooterFormat
  import opened ColumnIndexes
  import opened BloomFilter
  import opened InvertedIndex
  import opened Records
  import opened WriterLog

  // ----- the sink -------------------------------------------------------------------------

  /** An io.Writer. It may fail at any point, having taken any part of the bytes;
      taking fewer than it was given is always a failure, and no file grows past
      the largest signed offset. */
  class Sink {
    var data: bytes

    constructor ()
      ensures data == []
    {
      data := [];
    }

    method Write(b: bytes) returns (n: nat, ok: bool)
      requires |data| <= MAX_INT
      modifies this
      ensures n <= |b| && data == old(data) + b[..n] && |data| <= MAX_INT
      ensures ok ==> n == |b|
    {
      var room := MAX_INT - |data|;
      n :| 0 <= n <= |b| && n <= room;
      ok := *;
      if n < |b| {
        ok := false;
      }
      data := data + b[..n];
    }
  }

  // ----- one builder per column --------------------------------------------------------------

  type Builders = seq<Column.Builder>

  ghost predicate Distinct(bs: Builders) {
    forall i, j :: 0 <= i < j < |bs| ==> bs[i] != bs[j]
  }

  /** The builders hold the columns of these rows. */
  ghost predicate Buffer(bs: Builders, s: Schema, rows: seq<Row>)
    reads bs
  {
    && |bs| == |s.columns| && Distinct(bs) && RowsOk(s, rows)
    && forall j :: 0 <= j < |bs| ==>
         bs[j].Valid() && bs[j].kind == s.columns[j].Kind() && bs[j].cells == ColumnOf(s, rows, j)
  }

  lemma BufferedRowsOk(bs: Builders, s: Schema, rows: seq<Row>)
    requires Buffer(bs, s, rows)
    ensures RowsOk(s, rows) && |bs| == |s.columns|
  {
  }

  /** The dispatch loop of Append. */
  method AppendToBuilders(bs: Builders, s: Schema, rec: Record, ghost rows: seq<Row>)
    requires Buffer(bs, s, rows) && |rec| == |s.columns|
    modifies bs
    ensures Buffer(bs, s, rows + [RowOf(s, rec)])
    ensures forall j :: 0 <= j < |bs| ==>
              bs[j].cells == old(bs[j].cells) +
                [if rec[j].isNull then Null else if s.columns[j].Kind() == KindInt then Int(rec[j].num)
                 else Blob(rec[j].blob)]
  {
    ghost var row := RowOf(s, rec);
    RowOfIsOk(s, rec);
    var j := 0;
    while j < |rec|
      invariant 0 <= j <= |rec|
      invariant forall k :: 0 <= k < |bs| ==> bs[k].Valid() && bs[k].kind == s.columns[k].Kind()
      invariant forall k :: j <= k < |bs| ==> bs[k].cells == ColumnOf(s, rows, k)
      invariant forall k :: 0 <= k < j ==> bs[k].cells == ColumnOf(s, rows, k) + [row[k]]
    {
      hide Column.Builder.Valid;
      var b := bs[j];
      var v := rec[j];
      if v.isNull {
        b.AppendNull();
      } else if s.columns[j].Kind() == KindInt {
        b.AppendInt(v.num);
      } else {
        b.AppendBytes(v.blob);
      }
      j := j + 1;
    }
    forall k | 0 <= k < |bs|
      ensures bs[k].cells == ColumnOf(s, rows + [row], k)
    {
      AppendRow(s, rows, row, k);
    }
  }

  method ResetBuilders(bs: Builders, s: Schema, ghost rows: seq<Row>)
    requires Buffer(bs, s, rows)
    modifies bs
    ensures Buffer(bs, s, [])
  {
    var j := 0;
    while j < |bs|
      invariant 0 <= j <= |bs|
      invariant forall k :: 0 <= k < |bs| ==> bs[k].Valid() && bs[k].kind == s.columns[k].Kind()
      invariant forall k :: 0 <= k < j ==> bs[k].cells == []
    {
      bs[j].Reset();
      j := j + 1;
    }
  }

  method NewBuilders(s: Schema) returns (bs: Builders)
    ensures Buffer(bs, s, []) && forall j :: 0 <= j < |bs| ==> fresh(bs[j])
  {
    bs := [];
    while |bs| < |s.columns|
      invariant |bs| <= |s.columns| && Distinct(bs)
      invariant forall k :: 0 <= k < |bs| ==>
        fresh(bs[k]) && bs[k].Valid() && bs[k].kind == s.columns[k].Kind() && bs[k].cells == []
    {
      var b := new Column.Builder(s.columns[|bs|].Kind());
      bs := bs + [b];
    }
  }

  /** The latest footer covers this many records. */
  predicate CoversAll(marks: seq<Mark>, records: nat) {
    marks != [] && marks[|marks| - 1].records == records
  }

  /** The latest footer covers everything and ends the file. */
  predicate FileEnds(marks: seq<Mark>, records: nat, segs: nat, size: nat) {
    CoversAll(marks, records) && marks[|marks| - 1].segs == segs && marks[|marks| - 1].end == size
  }

  // ----- the writer ------------------------------------------------------------------------------

  class Writer {
    ghost const u: Setup
    ghost const base: nat   // what the sink held before this writer
    const sink: Sink
    const p: Platform
    const schema: Schema
    const compression: byte
    const segmentRows: nat
    const sourceType: bytes
    const buildInverted: bool
    const builders: Builders
    const tsCol: int

    var pos: u64
    var segments: seq<SegmentDir>
    var totalRows: u64
    var minTS: i64
    var maxTS: i64
    var haveTS: bool
    var dirty: bool
    var closed: bool

    ghost var groups: seq<Group>
    ghost var buffered: seq<Row>
    ghost var accepted: seq<Row>
    ghost var marks: seq<Mark>
    ghost var flawless: bool   // no write has failed yet

    /** What the sink has taken from this writer. */
    ghost function Data(): bytes
      reads sink
    {
      if base <= |sink.data| then sink.data[base..] else []
    }

    ghost function Log(): Log
      reads this, sink
    {
      WriterLog.Log(Data(), segments, groups, buffered, accepted, marks)
    }

    ghost predicate Frozen() {
      && SetupOk(u)
      && u == Setup(p, schema, u.header, compression, segmentRows, sourceType, buildInverted)
      && tsCol == TsCol(schema)
    }

    /** The fields agree with the log. */
    ghost predicate InStep()
      reads this, sink
    {
      && base <= |sink.data| <= MAX_INT
      && pos == |Data()|
      && totalRows == TotalRows(segments)
      && FileSpan(schema, segments) == Span(haveTS, minTS, maxTS)
      && (!dirty ==> accepted == [] || CoversAll(marks, |accepted|))
      && (closed ==> buffered == [] && FileEnds(marks, |accepted|, |segments|, |Data()|))
      && (flawless ==> |buffered| <= segmentRows && forall i :: 0 <= i < |groups| ==> |groups[i].rows| <= segmentRows)
    }

    ghost predicate Valid()
      reads this, sink, builders
    {
      && Frozen()
      && LogOk(u, Log())
      && Buffer(builders, schema, buffered)
      && InStep()
    }

    /** Between calls, and as long as no write has failed, the buffer is not full. */
    ghost predicate Ready()
      reads this, sink, builders
    {
      Valid() && (flawless ==> |buffered| < segmentRows)
    }

    constructor (s: Sink, cfg: Setup, bs: Builders, ghost start: nat)
      requires SetupOk(cfg) && start <= |s.data| <= MAX_INT && s.data[start..] == HeaderBytes(cfg.p, cfg.header)
      requires Buffer(bs, cfg.schema, [])
      ensures Ready() && sink == s && u == cfg && builders == bs && base == start
      ensures Log() == WriterLog.Log(s.data[start..], [], [], [], [], []) && !closed && flawless
    {
      hide Buffer, HeaderBytes, LogOk, WellFormed, Lossless;
      u, base, sink, p, schema := cfg, start, s, cfg.p, cfg.schema;
      compression, segmentRows, sourceType, buildInverted := cfg.compression, cfg.segmentRows, cfg.sourceType,
          cfg.buildInverted;
      builders := bs;
      tsCol := TsCol(cfg.schema);
      HeaderRoundTrip(cfg.p, cfg.header, []);
      pos := |HeaderBytes(cfg.p, cfg.header)|;
      segments, totalRows, minTS, maxTS, haveTS, dirty, closed := [], 0, 0, 0, false, false, false;
      groups, buffered, accepted, marks, flawless := [], [], [], [], true;
      new;
      LogStarts(cfg);
    }

    /** write: pos advances by what the sink took, whether or not it failed. */
    method WriteBytes(b: bytes) returns (ok: bool)
      requires Valid() && !closed
      modifies this`pos, this`flawless, sink
      ensures Valid() && Extends(old(Log()), Log())
      ensures Log() == old(Log()).(data := Data())
      ensures old(Data()) <= Data() <= old(Data()) + b
      ensures ok ==> Data() == old(Data()) + b
      ensures flawless == (old(flawless) && ok)
    {
      hide LogOk, SetupOk, Buffer, FileSpan, TotalRows;
      ghost var l := Log();
      LogLimits(u, l);
      var n;
      n, ok := sink.Write(b);
      assert sink.data[base..] == old(sink.data[base..]) + b[..n];
      pos := pos + n;
      flawless := flawless && ok;
      LogGrows(u, l, Data());
      if ok {
        assert b[..n] == b;
      }
    }

    /** The chunk of one column of a segment. */
    method FlushChunk(j: nat) returns (ok: bool, cd: ColumnDir)
      requires Valid() && !closed && j < |schema.columns| && |buffered| >= 1
      modifies this`pos, this`flawless, sink
      ensures Valid() && Log() == old(Log()).(data := Data()) && old(Data()) <= Data()
      ensures flawless == (old(flawless) && ok)
      ensures ok ==> ChunkStored(u, Data(), schema.columns[j], cd, ColumnOf(schema, buffered, j))
      ensures ok ==> cd.chunkOffset == old(pos) && ColumnEnd(cd) == pos && cd.indexOffset == cd.indexLength == 0
    {
      hide LogOk, FileSpan, TotalRows, StatsOf, ChunkBytes, WellFormed, Lossless, CoversAll, FileEnds, RowsOk, Data,
           TsCol, HeaderBytes, ColumnOk, IntsOf, BlobsOf, PresentOf, HasNulls;
      var b := builders[j];
      BufferLimits(u, Log());
      var chunk, st := Chunk.Encode(b, p, compression);
      var chunkOffset := pos;
      ok := WriteBytes(chunk);
      cd := ColumnDir(chunkOffset, |chunk| % TWO64, 0, 0, st.hasNulls, st.nonNull % TWO64, st.minInt, st.maxInt,
          st.minBytes, st.maxBytes);
      if !ok {
        return;
      }
      LogLimits(u, Log());
      StatsFit(st, schema.columns[j].Kind(), ColumnOf(schema, buffered, j));
      assert HoldsAt(Data(), cd.chunkOffset, cd.chunkLength, chunk);
    }

    /** The index of one column of a segment. */
    method FlushIndex(j: nat) returns (ok: bool, offset: u64, length: u64, ghost ci: ColumnIndex)
      requires Valid() && !closed && j < |schema.columns| && |buffered| >= 1
      modifies this`pos, this`flawless, sink
      ensures Valid() && Log() == old(Log()).(data := Data()) && old(Data()) <= Data()
      ensures flawless == (old(flawless) && ok)
      ensures IndexMade(u, ci, schema.columns[j].Kind(), ColumnOf(schema, buffered, j))
      ensures ok ==>
                && length > 0 && offset == old(pos) && offset + length == pos
                && HoldsIndexAt(p, Data(), offset, length, ci)
    {
      hide LogOk, FileSpan, TotalRows, IsIndexBytes, SoundIndex, WellFormed, Lossless, Holds, BloomFits, CoversAll,
           FileEnds, RowsOk, ColumnOk, ValuesOf, TsCol, HeaderBytes, Data;
      var b := builders[j];
      ColumnIsOk(schema, buffered, j);
      var index := BuildColumn(p, schema.columns[j].Kind(), b.Values(), buildInverted);
      ci := index;
      BuiltKeys(p, index, schema.columns[j].Kind(), ColumnOf(schema, buffered, j));
      var idxBytes := AppendIndex(p, index);
      IndexNotEmpty(p, index, idxBytes);
      offset, length := pos, |idxBytes| % TWO64;
      ok := WriteBytes(idxBytes);
      if ok {
        LogLimits(u, Log());
        assert Data()[offset..offset + length] == idxBytes;
      }
    }

    /** One column of a segment: its chunk, then its index if it has one. */
    method FlushColumn(j: nat) returns (ok: bool, cd: ColumnDir, ghost ci: ColumnIndex)
      requires Valid() && !closed && j < |schema.columns| && |buffered| >= 1
      modifies this`pos, this`flawless, sink
      ensures Valid() && Log() == old(Log()).(data := Data()) && old(Data()) <= Data()
      ensures flawless == (old(flawless) && ok)
      ensures ok ==> ColumnStored(u, Data(), schema.columns[j], cd, ColumnOf(schema, buffered, j), ci)
      ensures ok ==> cd.chunkOffset == old(pos) && ColumnEnd(cd) == pos
      ensures ok ==> cd.indexLength > 0 ==> cd.indexOffset == cd.chunkOffset + cd.chunkLength
    {
      hide LogOk, FileSpan, TotalRows, WellFormed, CoversAll, FileEnds, RowsOk, IndexMade, ChunkStored, HoldsIndexAt,
           Buffer, ColumnOf, ColumnStored;
      BufferedRowsOk(builders, schema, buffered);
      ok, cd := FlushChunk(j);
      ci := ColumnIndex(None, None);
      if !ok {
        return;
      }
      ghost var mid := Data();
      if schema.columns[j].indexed {
        var offset, length;
        ok, offset, length, ci := FlushIndex(j);
        cd := cd.(indexOffset := offset, indexLength := length);
        if !ok {
          return;
        }
      } else {
        NoIndexIsSound(u, schema.columns[j].Kind(), ColumnOf(schema, buffered, j));
      }
      ColumnIsStored(u, mid, Data(), schema.columns[j], cd, ColumnOf(schema, buffered, j), ci);
    }

    /** The loop over the columns of a segment. */
    method FlushColumns() returns (ok: bool, columns: seq<ColumnDir>, ghost indexes: seq<ColumnIndex>)
      requires Valid() && !closed && |buffered| >= 1
      modifies this`pos, this`flawless, sink
      ensures Valid() && Log() == old(Log()).(data := Data()) && old(Data()) <= Data()
      ensures flawless == (old(flawless) && ok)
      ensures ok ==> |columns| == |indexes| == |schema.columns|
      ensures ok ==> Tiled(columns, old(pos)) && TiledEnd(columns, old(pos)) == pos
      ensures ok ==> forall k :: 0 <= k < |columns| ==>
                ColumnStored(u, Data(), schema.columns[k], columns[k], ColumnOf(schema, buffered, k), indexes[k])
    {
      hide LogOk, FileSpan, TotalRows, ColumnStored, Lossless, WellFormed, Tiled, TiledEnd;
      ghost var l0 := Log();
      columns := [];
      indexes := [];
      ok := true;
      NothingTiled(pos);
      while |columns| < |builders|
        invariant Valid() && Log() == l0.(data := Data()) && l0.data <= Data()
        invariant |columns| == |indexes| <= |builders| && flawless == old(flawless) && ok
        invariant Tiled(columns, old(pos)) && TiledEnd(columns, old(pos)) == pos
        invariant forall k :: 0 <= k < |columns| ==>
          ColumnStored(u, Data(), schema.columns[k], columns[k], ColumnOf(schema, buffered, k), indexes[k])
      {
        ghost var before := Data();
        ghost var ci;
        var cd;
        ok, cd, ci := FlushColumn(|columns|);
        if !ok {
          return;
        }
        forall k | 0 <= k < |columns|
          ensures ColumnStored(u, Data(), schema.columns[k], columns[k], ColumnOf(schema, buffered, k), indexes[k])
        {
          ColumnStable(u, before, Data(), schema.columns[k], columns[k], ColumnOf(schema, buffered, k), indexes[k]);
        }
        TiledStep(columns, old(pos), cd);
        columns := columns + [cd];
        indexes := indexes + [ci];
      }
    }

    /** The time span of a segment, folded into the writer's own. */
    method NoteTimes(columns: seq<ColumnDir>, ghost indexes: seq<ColumnIndex>) returns (lo: i64, hi: i64)
      requires Buffer(builders, schema, buffered) && Frozen() && |columns| == |schema.columns| == |indexes|
      requires forall k :: 0 <= k < |columns| ==>
                 ColumnStored(u, Data(), schema.columns[k], columns[k], ColumnOf(schema, buffered, k), indexes[k])
      modifies this`minTS, this`maxTS, this`haveTS
      ensures if tsCol >= 0 && columns[tsCol].nonNull > 0 then
                && lo == ToI64(columns[tsCol].minInt) && hi == ToI64(columns[tsCol].maxInt)
                && Span(haveTS, minTS, maxTS) == Widen(old(Span(haveTS, minTS, maxTS)), lo, hi)
              else lo == hi == 0 && Span(haveTS, minTS, maxTS) == old(Span(haveTS, minTS, maxTS))
    {
      hide ColumnStored, SetupOk, StatsOf;
      lo, hi := 0, 0;
      if tsCol >= 0 {
        var st := builders[tsCol].GetStats();
        TimestampStats(u, Data(), schema, columns[tsCol], ColumnOf(schema, buffered, tsCol), indexes[tsCol], st);
        if st.nonNull > 0 {
          lo, hi := ToI64(st.minInt), ToI64(st.maxInt);
          if !haveTS {
            minTS, maxTS, haveTS := lo, hi, true;
          } else {
            if lo < minTS {
              minTS := lo;
            }
            if hi > maxTS {
              maxTS := hi;
            }
          }
        }
      }
    }

    /** Every chunk and index is written: the directory, the totals and the buffer change. */
    method FinishSegment(segStart: u64, rows: nat, columns: seq<ColumnDir>, ghost indexes: seq<ColumnIndex>,
        ghost l0: Log)
      requires Valid() && !closed && rows == |buffered| >= 1
      requires LogOk(u, l0) && Log() == l0.(data := Data()) && l0.data <= Data() && segStart == |l0.data|
      requires |columns| == |indexes| == |schema.columns|
      requires Tiled(columns, segStart) && TiledEnd(columns, segStart) == pos
      requires forall k :: 0 <= k < |columns| ==>
                 ColumnStored(u, Data(), schema.columns[k], columns[k], ColumnOf(schema, buffered, k), indexes[k])
      modifies this, builders
      ensures Valid() && Extends(l0, Log())
      ensures unchanged(`closed, `dirty, `accepted, `marks, `flawless) && buffered == []
      ensures |groups| == |l0.groups| + 1 && groups[|l0.groups|].rows == l0.buffered
      ensures |segments| == |l0.segments| + 1 && segments[|l0.segments|].offset == segStart
    {
      hide LogOk, FileSpan, TotalRows, ColumnStored, SetupOk, Tiled, TiledEnd, FooterOf, Widen, Extends, Buffer,
           AllRows, RowsOk, TsCol, ToI64, CoversAll, FileEnds, ColumnOf, Column.Builder.Valid;
      hide Writer.Frozen;
      FrozenFacts(this);
      BufferLimits(u, Log());
      BufferedRowsOk(builders, schema, buffered);
      var lo, hi := NoteTimes(columns, indexes);
      var seg := SegmentDir(segStart, pos - segStart, rows, lo, hi, columns);
      ghost var g := Group(buffered, indexes);
      Commit(u, l0, Log(), seg, g);
      Install(seg, g);
    }

    /** The directory, the totals and the buffer after a segment. */
    method Install(seg: SegmentDir, ghost g: Group)
      requires Frozen() && !closed && Buffer(builders, schema, buffered) && pos == |Data()|
               && base <= |sink.data| <= MAX_INT
      requires totalRows == TotalRows(segments) && TotalRows(segments + [seg]) == TotalRows(segments) + seg.rows < TWO64
      requires FileSpan(schema, segments + [seg]) == Span(haveTS, minTS, maxTS)
      requires !dirty ==> accepted == [] || CoversAll(marks, |accepted|)
      requires flawless ==> |g.rows| <= segmentRows && forall i :: 0 <= i < |groups| ==> |groups[i].rows| <= segmentRows
      requires LogOk(u, Log().(segments := segments + [seg], groups := groups + [g], buffered := []))
      modifies this`totalRows, this`segments, this`groups, this`buffered, builders
      ensures Valid() && Log() == old(Log()).(segments := old(segments) + [seg], groups := old(groups) + [g],
              buffered := [])
    {
      hide LogOk, FileSpan, TotalRows, Frozen, Buffer, CoversAll, FileEnds;
      totalRows := totalRows + seg.rows;
      segments := segments + [seg];
      groups := groups + [g];
      ResetBuilders(builders, schema, buffered);
      buffered := [];
    }

    /** Writes the buffered rows as a segment. After a failure the rows stay
        buffered and only stray bytes have been added. */
    method FlushSegment() returns (r: Outcome)
      requires Valid()
      modifies this, sink, builders
      ensures Ready() && Extends(old(Log()), Log())
      ensures unchanged(`closed, `dirty, `accepted, `marks)
      ensures r.Pass? ==> buffered == [] && flawless == old(flawless)
      ensures r.Pass? && old(buffered) == [] ==> Log() == old(Log())
      ensures r.Pass? && old(buffered) != [] ==>
                && |groups| == |old(groups)| + 1 && groups[|old(groups)|].rows == old(buffered)
                && |segments| == |old(segments)| + 1 && segments[|old(segments)|].offset == |old(Data())|
      ensures r.Fail? ==> r == Fail(SinkFailure) && !flawless && Log() == old(Log()).(data := Data())
    {
      hide LogOk, FileSpan, TotalRows, ColumnStored, SetupOk, Tiled, TiledEnd, RowsOk;
      SchemaNotEmpty(u);
      var rows := builders[0].rows;
      if rows == 0 {
        return Pass;
      }
      ghost var l0 := Log();
      LogLimits(u, l0);
      var segStart := pos;
      ghost var indexes;
      var ok, columns;
      ok, columns, indexes := FlushColumns();
      if !ok {
        GrowsExtends(l0, Data());
        return Fail(SinkFailure);
      }
      FinishSegment(segStart, rows, columns, indexes, l0);
      return Pass;
    }

    /** Appends a footer over the segments so far; on failure only stray bytes are added. */
    method WriteFooter() returns (r: Outcome)
      requires Ready() && !closed && buffered == []
      modifies this`pos, this`flawless, this`dirty, this`marks, sink
      ensures Ready() && Extends(old(Log()), Log())
      ensures r.Pass? ==>
                && !dirty && flawless == old(flawless)
                && Log() == old(Log()).(
                     data := old(Data()) + FooterBytes(p, FooterOf(u, segments)),
                     marks := old(marks) + [Mark(|old(Data())|, |Data()|, |segments|, |accepted|)])
      ensures r.Fail? ==>
                && r == Fail(SinkFailure) && !flawless && dirty == old(dirty)
                && Log() == old(Log()).(data := Data())
    {
      hide LogOk, FileSpan, TotalRows, SetupOk, FooterBytes, Buffer, RowsOk;
      ghost var l0 := Log();
      var footer := Footer(schema, sourceType, totalRows, minTS, maxTS, segments);
      FooterIs(u, l0, footer, Span(haveTS, minTS, maxTS));
      var image := AppendFooter(p, footer);
      var ok := WriteBytes(image);
      if !ok {
        return Fail(SinkFailure);
      }
      LogMarks(u, l0, Log());
      marks := marks + [Mark(|l0.data|, |Data()|, |segments|, |accepted|)];
      dirty := false;
      return Pass;
    }

    /** The record goes to the builders. */
    method Accept(rec: Record)
      requires Ready() && !closed && |rec| == |schema.columns| && |accepted| < MAX_INT
      modifies this`dirty, this`buffered, this`accepted, builders
      ensures Valid() && Extends(old(Log()), Log()) && dirty
      ensures buffered == old(buffered) + [RowOf(schema, rec)] && accepted == old(accepted) + [RowOf(schema, rec)]
    {
      hide LogOk, FileSpan, TotalRows, SetupOk, RowsOk, RowOf, Extends, CoversAll, FileEnds, Buffer;
      RowOfIsOk(schema, rec);
      LogAccepts(u, Log(), RowOf(schema, rec));
      AppendToBuilders(builders, schema, rec, buffered);
      buffered := buffered + [RowOf(schema, rec)];
      accepted := accepted + [RowOf(schema, rec)];
      dirty := true;
    }

    /** Adds one record. A rejected record changes nothing; an accepted one is
        kept even when the flush it triggers fails. */
    method Append(rec: Record) returns (r: Outcome)
      requires Ready() && |accepted| < MAX_INT
      modifies this, sink, builders
      ensures Ready() && Extends(old(Log()), Log()) && closed == old(closed)
      ensures closed ==> r == Fail(Closed)
      ensures !closed && |rec| != |schema.columns| ==> r == Fail(SchemaError)
      ensures closed || |rec| != |schema.columns| ==> Log() == old(Log()) && unchanged(this)
      ensures !closed && |rec| == |schema.columns| ==>
                accepted == old(accepted) + [RowOf(schema, rec)] && dirty && marks == old(marks)
      ensures !closed && |rec| == |schema.columns| ==>
                var row := accepted[|old(accepted)|];
                && |accepted| == |old(accepted)| + 1 && |row| == |rec|
                && (forall j :: 0 <= j < |rec| ==> (row[j] == Null <==> rec[j].isNull))
                && (forall j :: 0 <= j < |rec| && !rec[j].isNull ==>
                      row[j] == if schema.columns[j].typ in {TYPE_IP, TYPE_ENUM, TYPE_STRING} then Blob(rec[j].blob)
                                else Int(rec[j].num))
      ensures !closed && r == Fail(SinkFailure) ==>
                !flawless && segments == old(segments) && buffered == old(buffered) + [RowOf(schema, rec)]
      ensures r.Pass? && |old(buffered)| + 1 < segmentRows ==>
                segments == old(segments) && buffered == old(buffered) + [RowOf(schema, rec)]
      ensures r.Pass? && |old(buffered)| + 1 >= segmentRows ==>
                && buffered == [] && |segments| == |old(segments)| + 1 && |groups| == |old(groups)| + 1
                && groups[|old(groups)|].rows == old(buffered) + [RowOf(schema, rec)]
      ensures r.Fail? ==>
                r.error == if closed then Closed else if |rec| != |schema.columns| then SchemaError else SinkFailure
    {
      hide LogOk, FileSpan, TotalRows, SetupOk, RowsOk, RowOf, Extends, CoversAll, FileEnds;
      if closed {
        LogItself(Log());
        return Fail(Closed);
      }
      if |rec| != |schema.columns| {
        LogItself(Log());
        return Fail(SchemaError);
      }
      SchemaNotEmpty(u);
      RecordIsKept(schema, rec, RowOf(schema, rec));
      Accept(rec);
      ghost var l := Log();
      if builders[0].rows >= segmentRows {
        r := FlushSegment();
        ExtendsTransitive(old(Log()), l, Log());
        return;
      }
      return Pass;
    }

    /** Forces the segment in progress out. */
    method Flush() returns (r: Outcome)
      requires Ready()
      modifies this, sink, builders
      ensures Ready() && Extends(old(Log()), Log())
      ensures unchanged(`closed, `dirty, `accepted, `marks)
      ensures r.Pass? ==> buffered == []
      ensures r.Fail? ==> !flawless && Log() == old(Log()).(data := Data())
    {
      r := FlushSegment();
    }

    /** Flushes and appends a footer, so that everything accepted so far survives
        a crash; does nothing when a footer already covers it all. */
    method Checkpoint() returns (r: Outcome)
      requires Ready()
      modifies this, sink, builders
      ensures Ready() && Extends(old(Log()), Log()) && accepted == old(accepted) && closed == old(closed)
      ensures r.Pass? && accepted != [] ==> CoversAll(marks, |accepted|)
      ensures old(closed) || !old(dirty) ==> r.Pass? && Log() == old(Log())
      ensures !old(closed) && old(dirty) && r.Pass? ==> !dirty && |marks| == |old(marks)| + 1
      ensures r.Fail? ==> !flawless && marks == old(marks)
    {
      hide LogOk, FileSpan, TotalRows, SetupOk, RowsOk, FooterBytes, FooterOf, Buffer;
      if closed || !dirty {
        return Pass;
      }
      r := FlushSegment();
      if r.Fail? {
        return;
      }
      ghost var l := Log();
      r := WriteFooter();
      ExtendsTransitive(old(Log()), l, Log());
    }

    /** Flushes, writes the final footer and refuses further records. */
    method Close() returns (r: Outcome)
      requires Ready()
      modifies this, sink, builders
      ensures Ready() && Extends(old(Log()), Log()) && accepted == old(accepted)
      ensures r.Pass? ==> closed
      ensures old(closed) ==> r.Pass? && Log() == old(Log())
      ensures r.Fail? ==> !closed && !flawless && marks == old(marks)
    {
      hide LogOk, FileSpan, TotalRows, SetupOk, RowsOk, FooterBytes, FooterOf, Buffer;
      if closed {
        return Pass;
      }
      r := FlushSegment();
      if r.Fail? {
        return;
      }
      ghost var l := Log();
      r := WriteFooter();
      ExtendsTransitive(old(Log()), l, Log());
      if r.Fail? {
        return;
      }
      closed := true;
    }
  }

  lemma SchemaNotEmpty(u: Setup)
    requires SetupOk(u)
    ensures 1 <= |u.schema.columns| && 1 <= u.segmentRows
  {
  }

  lemma NothingTiled(from: nat)
    ensures Tiled([], from) && TiledEnd([], from) == from
  {
  }

  lemma GrowsExtends(l: Log, data': bytes)
    requires l.data <= data'
    ensures Extends(l, l.(data := data'))
  {
  }

  lemma TiledStep(columns: seq<ColumnDir>, from: nat, cd: ColumnDir)
    requires Tiled(columns, from) && cd.chunkOffset == TiledEnd(columns, from)
    requires cd.indexLength > 0 ==> cd.indexOffset == cd.chunkOffset + cd.chunkLength
    ensures Tiled(columns + [cd], from) && TiledEnd(columns + [cd], from) == ColumnEnd(cd)
  {
    var all := columns + [cd];
    forall j | 0 <= j < |all|
      ensures TileAt(all, from, j)
    {
      if j < |columns| {
        assert TileAt(columns, from, j);
      }
    }
  }

  /** The second pass over the timestamp column finds what the directory has. */
  lemma TimestampStats(u: Setup, data: bytes, s: Schema, cd: ColumnDir, cells: seq<Cell>, ci: ColumnIndex, st: Stats)
    requires 0 <= TsCol(s) && ColumnStored(u, data, s.columns[TsCol(s)], cd, cells, ci)
    requires StatsOf(st, s.columns[TsCol(s)].Kind(), cells)
    ensures st.nonNull == cd.nonNull
    ensures st.nonNull > 0 ==> st.minInt == cd.minInt && st.maxInt == cd.maxInt
  {
    hide ChunkBytes, SoundIndex, BloomFits, IsIndexBytes, CountPresent;
    TsColIsTimestamp(s, 0);
    if st.nonNull > 0 {
      var i :| 0 <= i < |cells| && cells[i] == Int(st.minInt);
      var j :| 0 <= j < |cells| && cells[j] == Int(cd.minInt);
      var k :| 0 <= k < |cells| && cells[k] == Int(st.maxInt);
      var l :| 0 <= l < |cells| && cells[l] == Int(cd.maxInt);
    }
  }

  lemma TimesAre(s: Schema, seg: SegmentDir)
    requires |seg.columns| == |s.columns|
    requires var t := TsCol(s);
             if t >= 0 && seg.columns[t].nonNull > 0 then
               seg.minTS == ToI64(seg.columns[t].minInt) && seg.maxTS == ToI64(seg.columns[t].maxInt)
             else seg.minTS == seg.maxTS == 0
    ensures TimesRecorded(s, seg)
  {
  }

  lemma SegmentIs(u: Setup, data: bytes, seg: SegmentDir, g: Group)
    requires RowsOk(u.schema, g.rows) && 1 <= |g.rows| <= MAX_INT && seg.rows == |g.rows|
    requires |seg.columns| == |u.schema.columns| == |g.indexes|
    requires Tiled(seg.columns, seg.offset) && TiledEnd(seg.columns, seg.offset) == seg.offset + seg.length
    requires TimesRecorded(u.schema, seg)
    requires forall j :: 0 <= j < |u.schema.columns| ==>
      ColumnStored(u, data, u.schema.columns[j], seg.columns[j], ColumnOf(u.schema, g.rows, j), g.indexes[j])
    ensures SegmentStored(u, data, seg, g)
  {
    hide ColumnStored, Tiled, TimesRecorded;
  }

  /** The running totals after one more segment. */
  lemma SegmentAdds(s: Schema, segs: seq<SegmentDir>, seg: SegmentDir)
    ensures TotalRows(segs + [seg]) == TotalRows(segs) + seg.rows
    ensures FileSpan(s, segs + [seg]) ==
            if HasTimes(s, seg) then Widen(FileSpan(s, segs), seg.minTS, seg.maxTS) else FileSpan(s, segs)
  {
    assert (segs + [seg])[..|segs|] == segs;
  }

  /** All that holds once a segment has been written in full. */
  lemma Commit(u: Setup, l0: Log, l1: Log, seg: SegmentDir, g: Group)
    requires LogOk(u, l0) && LogOk(u, l1) && l1 == l0.(data := l1.data) && l0.data <= l1.data
    requires RowsOk(u.schema, g.rows) && 1 <= |g.rows| <= MAX_INT && seg.rows == |g.rows| && g.rows == l0.buffered
    requires |seg.columns| == |u.schema.columns| == |g.indexes|
    requires Tiled(seg.columns, seg.offset) && TiledEnd(seg.columns, seg.offset) == seg.offset + seg.length
    requires seg.offset == |l0.data| && SegmentEnd(seg) == |l1.data|
    requires var t := TsCol(u.schema);
             if t >= 0 && seg.columns[t].nonNull > 0 then
               seg.minTS == ToI64(seg.columns[t].minInt) && seg.maxTS == ToI64(seg.columns[t].maxInt)
             else seg.minTS == seg.maxTS == 0
    requires forall j :: 0 <= j < |u.schema.columns| ==>
      ColumnStored(u, l1.data, u.schema.columns[j], seg.columns[j], ColumnOf(u.schema, g.rows, j), g.indexes[j])
    ensures var l2 := l1.(segments := l1.segments + [seg], groups := l1.groups + [g], buffered := []);
            LogOk(u, l2) && Extends(l1, l2) && Extends(l0, l2) && TotalRows(l2.segments) <= |l2.accepted| <= MAX_INT
    ensures TotalRows(l1.segments + [seg]) == TotalRows(l1.segments) + seg.rows
    ensures FileSpan(u.schema, l1.segments + [seg]) ==
            if HasTimes(u.schema, seg) then Widen(FileSpan(u.schema, l1.segments), seg.minTS, seg.maxTS)
            else FileSpan(u.schema, l1.segments)
  {
    hide LogOk, FileSpan, TotalRows, ColumnStored, TimesRecorded, SegmentStored, Tiled, TiledEnd;
    TimesAre(u.schema, seg);
    SegmentIs(u, l1.data, seg, g);
    LogCommits(u, l0, l1, seg, g);
    SegmentAdds(u.schema, l1.segments, seg);
    RowTotals(u, l1.(segments := l1.segments + [seg], groups := l1.groups + [g], buffered := []));
  }

  lemma RowTotals(u: Setup, l: Log)
    requires LogOk(u, l)
    ensures TotalRows(l.segments) == |AllRows(l.groups)| <= |l.accepted| <= MAX_INT
  {
    hide MarkOk, RowsOk, HeaderBytes;
    TotalRowsAre(l.segments, l.groups);
  }

  lemma FrozenFacts(w: Writer)
    requires w.Frozen()
    ensures w.u.schema == w.schema && w.tsCol == TsCol(w.schema) && w.u.segmentRows == w.segmentRows
  {
  }

  /** The footer put together from the running totals is the footer of the directory. */
  lemma FooterIs(u: Setup, l: Log, f: Footer, sp: Span)
    requires LogOk(u, l) && sp == FileSpan(u.schema, l.segments)
    requires f.schema == u.schema && f.sourceType == u.sourceType && f.segments == l.segments
    requires f.totalRows == TotalRows(l.segments) && f.minTS == sp.min && f.maxTS == sp.max
    ensures f == FooterOf(u, l.segments)
    ensures forall i :: 0 <= i < |f.segments| ==> |f.segments[i].columns| == |f.schema.columns|
  {
    hide FileSpan, TotalRows, ColumnStored, MarkOk, RowsOk, HeaderBytes, AllRows, Tiled, TiledEnd, TimesRecorded;
    forall i | 0 <= i < |f.segments|
      ensures |f.segments[i].columns| == |f.schema.columns|
    {
      assert SegmentStored(u, l.data, l.segments[i], l.groups[i]);
    }
  }

  lemma BufferLimits(u: Setup, l: Log)
    requires LogOk(u, l)
    ensures |l.buffered| <= |l.accepted| <= MAX_INT
  {
    hide SegmentStored, MarkOk, AllRows, RowsOk, HeaderBytes;
  }

  /** The statistics as the directory records them. */
  lemma StatsFit(st: Stats, kind: Kind, cells: seq<Cell>)
    requires StatsOf(st, kind, cells) && |cells| <= MAX_INT
    ensures st.nonNull % TWO64 == st.nonNull
    ensures st == Stats(|cells|, st.nonNull, st.hasNulls, st.minInt, st.maxInt, st.minBytes, st.maxBytes)
  {
    CountPresentPositive(cells);
  }

  lemma NoIndexIsSound(u: Setup, kind: Kind, cells: seq<Cell>)
    ensures IndexMade(u, ColumnIndex(None, None), kind, cells)
  {
  }

  /** A chunk followed by an index, or by none. */
  lemma ColumnIsStored(u: Setup, mid: bytes, data: bytes, def: ColumnDef, cd: ColumnDir, cells: seq<Cell>,
      ci: ColumnIndex)
    requires ChunkStored(u, mid, def, cd.(indexOffset := 0, indexLength := 0), cells) && mid <= data
    requires IndexMade(u, ci, def.Kind(), cells)
    requires if def.indexed then cd.indexLength > 0 && HoldsIndexAt(u.p, data, cd.indexOffset, cd.indexLength, ci)
             else cd.indexOffset == cd.indexLength == 0 && ci == ColumnIndex(None, None)
    ensures ColumnStored(u, data, def, cd, cells, ci)
  {
    hide ChunkBytes, StatsOf, IndexMade, IsIndexBytes;
    SliceStable(mid, data, cd.chunkOffset, cd.chunkOffset + cd.chunkLength);
    assert ZoneStats(cd, |cells|) == ZoneStats(cd.(indexOffset := 0, indexLength := 0), |cells|);
  }

  lemma IndexNotEmpty(p: Platform, ci: ColumnIndex, out: bytes)
    requires IsIndexBytes(p, ci, out)
    ensures |out| > 0
  {
  }

  lemma BuiltKeys(p: Platform, ci: ColumnIndex, kind: Kind, cells: seq<Cell>)
    requires SoundIndex(p, ci, kind, cells) && ColumnOk(kind, cells)
    ensures ci.inverted.Some? ==>
              && |ci.inverted.value.rows| == |ValuesOf(cells)|
              && forall c :: c in ci.inverted.value.rows ==> c != Null && (ci.inverted.value.kind == 0 <==> c.Int?)
  {
    hide MayContain;
    if ci.inverted.Some? {
      var iv := ci.inverted.value;
      assert |iv.rows| == |iv.rows.Keys|;
      forall c | c in iv.rows
        ensures c != Null && (iv.kind == 0 <==> c.Int?)
      {
        assert c in ValuesOf(cells);
        var i :| 0 <= i < |cells| && cells[i] == c;
        assert CellOk(kind, cells[i]);
      }
    }
  }

  lemma LogLimits(u: Setup, l: Log)
    requires LogOk(u, l)
    ensures HEADER_SIZE <= |l.data| <= MAX_INT
  {
  }

  // ----- making a writer, and running it -------------------------------------------------------------

  /** An opaque producer identifier of 16 bytes. */
  type WriterID = id: bytes | |id| == 16 witness NO_ID

  const NO_ID: bytes := [0, 0, 0, 0, 0, 0, 0, 0, 0, 0, 0, 0, 0, 0, 0, 0]

  datatype WriterOptions = WriterOptions(
    compression: byte, segmentRows: int, sourceType: bytes, buildInverted: bool, writerID: WriterID)

  const DEFAULT_OPTIONS: WriterOptions := WriterOptions(ZSTD, 65536, [], false, NO_ID)

  /** The options in force; none given means the defaults. */
  function OptionsFor(opts: Option<WriterOptions>): WriterOptions {
    if opts.Some? then opts.value else DEFAULT_OPTIONS
  }

  /** The segment size actually used. */
  function SegmentRowsFor(asked: int): (n: nat)
    ensures 1 <= n <= MAX_SEGMENT_ROWS
  {
    if asked <= 0 then 65536 else if asked > MAX_SEGMENT_ROWS then MAX_SEGMENT_ROWS else asked
  }

  /** What a writer is set up with: 65536 rows a segment and zstd unless told
      otherwise, and never more rows than a reader accepts. */
  lemma OptionsAre(asked: int, o: WriterOptions)
    ensures OptionsFor(None) == WriterOptions(1, 65536, [], false, seq(16, _ => 0)) && OptionsFor(Some(o)) == o
    ensures SegmentRowsFor(asked) == if asked <= 0 then 65536 else if asked > 0x100_0000 then 0x100_0000 else asked
  {
  }

  /** A writer times its segments by its schema's first timestamp column. */
  lemma TimedBy(w: Writer)
    requires w.Ready()
    ensures if w.tsCol < 0 then forall j :: 0 <= j < |w.schema.columns| ==> w.schema.columns[j].typ != 0
            else && w.tsCol < |w.schema.columns| && w.schema.columns[w.tsCol].typ == 0
                 && forall j :: 0 <= j < w.tsCol ==> w.schema.columns[j].typ != 0
  {
    hide LogOk, Buffer, SetupOk, TotalRows, FileSpan, FirstTs;
    TsColIs(w.schema, 0);
  }

  /** Validates the schema, writes the header behind whatever the sink holds and
      returns a writer ready for records. */
  method NewWriter(p: Platform, sink: Sink, sch: Option<Schema>, opts: Option<WriterOptions>, created: i64)
    returns (r: Result<Writer>)
    requires Lossless(p) && |sink.data| <= MAX_INT
    modifies sink
    ensures sch.None? || !WellFormed(sch.value) ==> r == Err(SchemaError) && sink.data == old(sink.data)
    ensures sch.Some? && WellFormed(sch.value) && !KnownCodec(OptionsFor(opts).compression) ==>
              r == Err(UnknownCompression) && sink.data == old(sink.data)
    ensures sch.Some? && WellFormed(sch.value) && KnownCodec(OptionsFor(opts).compression) ==>
            r.Ok? || r == Err(SinkFailure)
    ensures old(sink.data) <= sink.data
    ensures r.Ok? ==>
              var o := OptionsFor(opts);
              && fresh(r.value) && (forall j :: 0 <= j < |r.value.builders| ==> fresh(r.value.builders[j]))
              && r.value.Ready() && r.value.sink == sink && !r.value.closed
              && r.value.Log() == WriterLog.Log(sink.data[|old(sink.data)|..], [], [], [], [], [])
              && r.value.u == Setup(p, sch.value, FooterFormat.Header(FORMAT_VERSION, 0, created, o.writerID),
                                    o.compression, SegmentRowsFor(o.segmentRows), o.sourceType, o.buildInverted)
  {
    hide HeaderBytes, Buffer, WellFormed, Lossless, LogOk;
    if sch.None? {
      return Err(SchemaError);
    }
    var s := sch.value;
    var v := Validate(s);
    if v.Fail? {
      return Err(v.error);
    }
    var o := OptionsFor(opts);
    if !KnownCodec(o.compression) {
      return Err(UnknownCompression);
    }
    var header := FooterFormat.Header(FORMAT_VERSION, 0, created, o.writerID);
    var builders := NewBuilders(s);
    var image := HeaderBytes(p, header);
    ghost var before := sink.data;
    var n, ok := sink.Write(image);
    if !ok {
      return Err(SinkFailure);
    }
    assert sink.data[|before|..] == image[..n] == image;
    var cfg := Setup(p, s, header, o.compression, SegmentRowsFor(o.segmentRows), o.sourceType, o.buildInverted);
    var w := new Writer(sink, cfg, builders, |before|);
    return Ok(w);
  }

  datatype Op = OpAppend(rec: Record) | OpFlush | OpCheckpoint | OpClose

  /** Any sequence of calls, each of which may fail: the log stays consistent and
      nothing recorded before is lost. */
  method Run(w: Writer, ops: seq<Op>)
    requires w.Ready() && |w.accepted| + |ops| <= MAX_INT
    modifies w, w.sink, w.builders
    ensures w.Ready() && Extends(old(w.Log()), w.Log())
  {
    hide Writer.Ready, Extends;
    ghost var l0 := w.Log();
    LogItself(l0);
    var i := 0;
    while i < |ops|
      invariant 0 <= i <= |ops| && w.Ready() && Extends(l0, w.Log())
      invariant |w.accepted| + (|ops| - i) <= MAX_INT
    {
      ghost var l := w.Log();
      match ops[i] {
        case OpAppend(rec) => var _ := w.Append(rec);
        case OpFlush => var _ := w.Flush();
        case OpCheckpoint => var _ := w.Checkpoint();
        case OpClose => var _ := w.Close();
      }
      ExtendsTransitive(l0, l, w.Log());
      i := i + 1;
    }
  }

  lemma LogItself(l: Log)
    ensures Extends(l, l)
  {
  }
}
