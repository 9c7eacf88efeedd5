/** From the sending client to the emitted clips: fragmentation, reassembly, the sidecar, its
    drain and the clip state machine, composed. */
module EndToEnd {
  import opened Machine
  import opened ClipFsm
  import opened ClipRuns
  import opened ClipLimits
  import opened Segments
  import opened MetaDrain
  import opened Text

  // ---------- sidecar rows as machine inputs ----------

  /** The numbers of a row that the JSON reader lets through. */
  ghost predicate Readable(row: SidecarRow) {
    && 0 <= row.sequence <= SAFE_MAX && row.offset <= SAFE_MAX && row.length <= SAFE_MAX
    && -(SAFE_MAX as int) <= row.tsMs <= SAFE_MAX as int
  }

  /** The record that a sidecar row describes. The server writes no continuity fields and no tags. */
  function RecordOf(row: SidecarRow): Record
    requires row.sequence >= 0
  {
    Record(row.sequence, row.offset, row.length, row.tsMs, false, 0, 0, [], true)
  }

  /** What the machine is fed: the rows that the reader rejects feed nothing. */
  ghost function RecordsOf(meta: seq<SidecarRow>): seq<Record> {
    if meta == [] then []
    else (if Readable(meta[0]) then [RecordOf(meta[0])] else []) + RecordsOf(meta[1..])
  }

  lemma {:induction false} RecordsOfConcat(a: seq<SidecarRow>, b: seq<SidecarRow>)
    ensures RecordsOf(a + b) == RecordsOf(a) + RecordsOf(b)
  {
    hide RecordOf;
    if a == [] {
      assert a + b == b;
    } else {
      assert (a + b)[1..] == a[1..] + b && (a + b)[0] == a[0];
      RecordsOfConcat(a[1..], b);
      var head := if Readable(a[0]) then [RecordOf(a[0])] else [];
      assert head + (RecordsOf(a[1..]) + RecordsOf(b)) == (head + RecordsOf(a[1..])) + RecordsOf(b);
    }
  }

  lemma RecordsOfOne(row: SidecarRow)
    ensures RecordsOf([row]) == if Readable(row) then [RecordOf(row)] else []
    ensures RecordBytes(RecordsOf([row])) == if Readable(row) then Span(row.offset, row.length) else []
  {
    hide Readable;
    assert [row][1..] == [];
    if Readable(row) {
      assert row.sequence >= 0 by { NotNegative(row); }
      RecordBytesOfOne(RecordOf(row));
    }
  }

  lemma NotNegative(row: SidecarRow)
    requires Readable(row)
    ensures row.sequence >= 0
  {
  }

  ghost predicate SequencesIncrease(meta: seq<SidecarRow>) {
    && (forall i :: 0 <= i < |meta| ==> meta[i].sequence >= 0)
    && (forall i, j :: 0 <= i < j < |meta| ==> meta[i].sequence < meta[j].sequence)
  }

  /** The reader lets every row with bytes through. */
  ghost predicate BytesReadable(meta: seq<SidecarRow>) {
    forall i :: 0 <= i < |meta| && meta[i].length > 0 ==> Readable(meta[i])
  }

  /** Every row with bytes can be read and has a larger sequence number than all readable rows
      before it. */
  ghost predicate Ordered(meta: seq<SidecarRow>) {
    forall j :: 0 <= j < |meta| && meta[j].length > 0 ==>
      Readable(meta[j]) && forall i :: 0 <= i < j && Readable(meta[i]) ==> meta[i].sequence < meta[j].sequence
  }

  lemma IncreasingIsOrdered(meta: seq<SidecarRow>)
    requires SequencesIncrease(meta) && forall i :: 0 <= i < |meta| ==> Readable(meta[i])
    ensures Ordered(meta)
  {
  }

  lemma {:induction false} RecordsExceeded(n: nat, meta: seq<SidecarRow>)
    ensures AllValid(RecordsOf(meta))
    ensures Exceeds(n, RecordsOf(meta)) <==> forall i :: 0 <= i < |meta| && Readable(meta[i]) ==> meta[i].sequence < n
  {
    hide Readable;
    if meta != [] {
      var rest := meta[1..];
      RecordsExceeded(n, rest);
      if Readable(meta[0]) {
        NotNegative(meta[0]);
        assert RecordOf(meta[0]) in RecordsOf(meta);
      }
      assert forall r :: r in RecordsOf(rest) ==> r in RecordsOf(meta);
      assert forall i :: 0 <= i < |rest| ==> rest[i] == meta[i + 1];
      assert forall i :: 0 < i < |meta| ==> meta[i] == rest[i - 1];
    }
  }

  /** The row's number is larger than those of all readable rows before it. */
  ghost predicate IsNext(meta: seq<SidecarRow>, row: SidecarRow) {
    forall i :: 0 <= i < |meta| && Readable(meta[i]) ==> meta[i].sequence < row.sequence
  }

  lemma OrderedSnoc(meta: seq<SidecarRow>, row: SidecarRow)
    ensures BytesReadable(meta + [row]) <==> BytesReadable(meta) && (row.length > 0 ==> Readable(row))
    ensures Ordered(meta + [row]) <==> Ordered(meta) && (row.length > 0 ==> Readable(row) && IsNext(meta, row))
  {
    hide Readable;
    var all := meta + [row];
    assert all[|meta|] == row && forall i :: 0 <= i < |meta| ==> all[i] == meta[i];
  }

  lemma {:induction false} OrderedMeansAscending(meta: seq<SidecarRow>)
    ensures AllValid(RecordsOf(meta))
    ensures Ordered(meta) <==> BytesReadable(meta) && BytesAscend(RecordsOf(meta))
  {
    hide Readable, Ordered, BytesReadable, BytesAscend, Exceeds;
    if meta == [] {
      NothingOrdered();
    } else {
      var (front, row) := (meta[..|meta| - 1], meta[|meta| - 1]);
      assert meta == front + [row];
      OrderedMeansAscending(front);
      OrderedSnoc(front, row);
      RecordsOfConcat(front, [row]);
      RecordsOfOne(row);
      if Readable(row) {
        NotNegative(row);
        RecordsExceeded(row.sequence, front);
        AscendSnoc(RecordsOf(front), RecordOf(row));
      } else {
        assert RecordsOf(front) + [] == RecordsOf(front);
      }
    }
  }

  lemma NothingOrdered()
    ensures Ordered([]) && BytesReadable([]) && BytesAscend([])
  {
  }

  lemma {:induction false} RowBytesUpTo(meta: seq<SidecarRow>, bin: seq<byte>, k: nat)
    requires Tiles(meta, bin) && k <= |meta|
    ensures var (end, bytes) := (if k < |meta| then meta[k].offset else |bin|, RecordBytes(RecordsOf(meta[..k])));
      if BytesReadable(meta[..k]) then bytes == Span(0, end) else |bytes| < end
  {
    hide Readable, BytesReadable, Ordered;
    if k == 0 {
      NothingOrdered();
    } else {
      RowBytesUpTo(meta, bin, k - 1);
      assert MeetsNext(meta, |bin|, k - 1);
      assert meta[..k] == meta[..k - 1] + [meta[k - 1]];
      BytesOfOneMore(meta[..k - 1], meta[k - 1]);
    }
  }

  lemma BytesOfOneMore(meta: seq<SidecarRow>, row: SidecarRow)
    requires var bytes := RecordBytes(RecordsOf(meta));
      if BytesReadable(meta) then bytes == Span(0, row.offset) else |bytes| < row.offset
    ensures var (end, bytes) := (row.offset + row.length, RecordBytes(RecordsOf(meta + [row])));
      if BytesReadable(meta + [row]) then bytes == Span(0, end) else |bytes| < end
  {
    hide Readable, BytesReadable, Ordered, RecordsOf, RecordBytes;
    OrderedSnoc(meta, row);
    RecordsOfConcat(meta, [row]);
    RecordsOfOne(row);
    RecordBytesConcat(RecordsOf(meta), RecordsOf([row]));
    SpanSplit(0, row.offset, row.length);
  }

  /** The rows of a tiling sidecar stand for the bytes of the whole file, in order, if the reader
      lets all of them through, and otherwise for fewer bytes. */
  lemma RowsAreTheFile(meta: seq<SidecarRow>, bin: seq<byte>)
    requires Tiles(meta, bin)
    ensures BytesReadable(meta) ==> RecordBytes(RecordsOf(meta)) == Span(0, |bin|)
    ensures !BytesReadable(meta) ==> |RecordBytes(RecordsOf(meta))| < |bin|
  {
    RowBytesUpTo(meta, bin, |meta|);
    assert meta[..|meta|] == meta;
  }

  // ---------- exactly when the clips are the file ----------

  /** The clips of the flushed session are exactly the bytes of the file, in order. */
  ghost predicate ClipsAreTheFile(bin: seq<byte>, ins: seq<Input>, p: Params) {
    ClipBytes(Clips(Idle(), ins + [Finish], p)) == Span(0, |bin|)
  }

  lemma {:induction false} LateBytesConcat(s: State, a: seq<Input>, b: seq<Input>, p: Params)
    ensures LateBytes(s, a + b, p) == LateBytes(s, a, p) + LateBytes(Run(s, a, p), b, p)
    decreases |a|
  {
    hide Step;
    if a == [] {
      assert a + b == b;
    } else {
      assert (a + b)[1..] == a[1..] + b;
      LateBytesConcat(Step(s, a[0], p).0, a[1..], b, p);
    }
  }

  lemma FinishIsNotLate(ins: seq<Input>, p: Params)
    ensures Feeds(ins + [Finish]) == Feeds(ins)
    ensures LateBytes(Idle(), ins + [Finish], p) == LateBytes(Idle(), ins, p)
  {
    FeedsConcat(ins, [Finish]);
    FeedsOfOne(Finish);
    LateBytesConcat(Idle(), ins, [Finish], p);
    assert [Finish][1..] == [];
  }

  lemma LostWhenLateOrUnreadable(meta: seq<SidecarRow>, bin: seq<byte>, ins: seq<Input>, p: Params)
    requires Tiles(meta, bin) && Feeds(ins) == RecordsOf(meta)
    ensures ClipsAreTheFile(bin, ins, p) <==> BytesReadable(meta) && LateBytes(Idle(), ins, p) == 0
  {
    hide BytesReadable;
    FinishIsNotLate(ins, p);
    AcceptedOrLate(Idle(), ins + [Finish], p);
    FlushedRunEmitsEverything(ins, p);
    RowsAreTheFile(meta, bin);
  }

  /** In a run without timeouts the clips are the file if and only if the rows are ordered. */
  lemma QuietRunIsExact(meta: seq<SidecarRow>, bin: seq<byte>, ins: seq<Input>, p: Params)
    requires Tiles(meta, bin) && Feeds(ins) == RecordsOf(meta) && NoReset(Idle(), ins, p)
    ensures ClipsAreTheFile(bin, ins, p) <==> Ordered(meta)
  {
    hide BytesReadable, Ordered, ClipsAreTheFile;
    OrderedMeansAscending(meta);
    LostWhenLateOrUnreadable(meta, bin, ins, p);
    WithoutResetsNothingIsLostExactly(ins, p);
  }

  /** If the rows are ordered, gaps allowed, the clips are the file for any placement of timeouts. */
  lemma IngestorToClips(meta: seq<SidecarRow>, bin: seq<byte>, ins: seq<Input>, p: Params)
    requires Tiles(meta, bin) && Ordered(meta) && Feeds(ins) == RecordsOf(meta)
    ensures ClipsAreTheFile(bin, ins, p)
  {
    hide BytesReadable, Ordered, ClipsAreTheFile, BytesAscend;
    OrderedMeansAscending(meta);
    LostWhenLateOrUnreadable(meta, bin, ins, p);
    AscendingLosesNothing(Idle(), ins, p);
  }

  /** The clips are the file in every run, whatever the timeouts, if and only if every row with
      bytes can be read and has a larger sequence number than all readable rows before it. */
  lemma IngestorToClipsExactly(meta: seq<SidecarRow>, bin: seq<byte>, p: Params)
    requires Tiles(meta, bin)
    ensures (forall ins :: Feeds(ins) == RecordsOf(meta) ==> ClipsAreTheFile(bin, ins, p)) <==> Ordered(meta)
  {
    hide Ordered, ClipsAreTheFile;
    if Ordered(meta) {
      forall ins | Feeds(ins) == RecordsOf(meta)
        ensures ClipsAreTheFile(bin, ins, p)
      {
        IngestorToClips(meta, bin, ins, p);
      }
    } else {
      StraightFeeds(RecordsOf(meta), p);
      QuietRunIsExact(meta, bin, Straight(RecordsOf(meta)), p);
    }
  }

  /** A late row loses its byte: numbers 2 and 1, one byte each. */
  lemma LateRowLosesBytes(p: Params) returns (ins: seq<Input>)
    ensures var meta := [SidecarRow(2, 0, 1, 0, "raw", false), SidecarRow(1, 1, 1, 0, "raw", false)];
      Tiles(meta, [0, 0]) && Feeds(ins) == RecordsOf(meta) && !ClipsAreTheFile([0, 0], ins, p)
  {
    hide ClipsAreTheFile;
    var meta := [SidecarRow(2, 0, 1, 0, "raw", false), SidecarRow(1, 1, 1, 0, "raw", false)];
    assert MeetsNext(meta, 2, 0) && MeetsNext(meta, 2, 1);
    assert Readable(meta[0]) && meta[1].length > 0 && meta[0].sequence > meta[1].sequence;
    assert !Ordered(meta);
    ins := Straight(RecordsOf(meta));
    StraightFeeds(RecordsOf(meta), p);
    QuietRunIsExact(meta, [0, 0], ins, p);
  }

  // ---------- through the sidecar text ----------

  /** json.dumps on the server and the JSON reader of the applet: inverse on readable rows; the
      others are rejected. */
  ghost predicate AgreesWith(env: Env, render: SidecarRow -> string) {
    forall row ::
      && render(row) != "" && '\n' !in render(row)
      && env.parse(render(row)) == if Readable(row) then Row("data", RecordOf(row)) else Malformed
  }

  function SidecarText(meta: seq<SidecarRow>, render: SidecarRow -> string): string {
    if meta == [] then "" else render(meta[0]) + ['\n'] + SidecarText(meta[1..], render)
  }

  /** The data records of a list of lines. */
  ghost function LineRecords(lines: seq<string>, env: Env): seq<Record>
    decreases |lines|
  {
    if lines == [] then []
    else (if DataRow(lines[0], env).Some? then [DataRow(lines[0], env).value] else []) + LineRecords(lines[1..], env)
  }

  lemma {:induction false} LineRecordsConcat(a: seq<string>, b: seq<string>, env: Env)
    ensures LineRecords(a + b, env) == LineRecords(a, env) + LineRecords(b, env)
    decreases |a|
  {
    hide DataRow;
    if a == [] {
      assert a + b == b;
    } else {
      assert (a + b)[1..] == a[1..] + b;
      LineRecordsConcat(a[1..], b, env);
    }
  }

  lemma RenderedRowIsRead(row: SidecarRow, render: SidecarRow -> string, env: Env)
    requires AgreesWith(env, render)
    ensures '\n' !in render(row)
    ensures DataRow(render(row), env) == if Readable(row) then Some(RecordOf(row)) else None
  {
  }

  lemma {:induction false} SidecarLines(meta: seq<SidecarRow>, render: SidecarRow -> string, env: Env)
    requires AgreesWith(env, render)
    ensures LineRecords(Lines(SidecarText(meta, render)), env) == RecordsOf(meta)
    ensures Terminated(SidecarText(meta, render))
    decreases |meta|
  {
    hide AgreesWith, DataRow, Readable, RecordOf;
    if meta == [] {
      assert Lines("") == [];
    } else {
      var (row, rest) := (meta[0], meta[1..]);
      var text := SidecarText(rest, render);
      SidecarLines(rest, render, env);
      RenderedRowIsRead(row, render, env);
      FirstLineOf(render(row), text);
      assert ([render(row)] + Lines(text))[1..] == Lines(text);
    }
  }

  lemma {:induction false} LineInputsFeedRecords(lines: seq<string>, clock: nat -> int, k: nat, env: Env)
    ensures Feeds(LineInputs(lines, clock, k, env)) == LineRecords(lines, env)
    decreases |lines|
  {
    hide DataRow;
    if lines != [] {
      var head := match DataRow(lines[0], env) case None => [] case Some(rec) => [Feed(rec, clock(k))];
      LineInputsFeedRecords(lines[1..], clock, k + 1, env);
      FeedsConcat(head, LineInputs(lines[1..], clock, k + 1, env));
      if head != [] {
        assert head[1..] == [] && Feeds(head) == [head[0].rec] + [];
      }
    }
  }

  /** However a sidecar is read, the machine is fed the data records of its complete lines. */
  lemma {:induction false} ScheduleFeedsRecords(pending: string, ops: seq<Op>, env: Env)
    requires '\n' !in pending
    ensures Feeds(OpInputs(pending, ops, env)) == LineRecords(Lines(pending + BytesRead(ops)), env)
    decreases |ops|
  {
    hide LineRecords, LineInputs, Unfinished;
    if ops == [] {
      assert pending + "" == pending;
      IndexAbsent(pending, '\n');
      assert Lines(pending) == [];
      NoLines(env);
    } else {
      match ops[0]
      case Drain(bytes, clock) =>
        var (text, more) := (pending + bytes, BytesRead(ops[1..]));
        UnfinishedHasNoNewline(text);
        ScheduleFeedsRecords(Unfinished(text), ops[1..], env);
        DrainFeedsRecords(text, more, clock, OpInputs(Unfinished(text), ops[1..], env), env);
        assert pending + (bytes + more) == text + more;
      case IdleCheck(now) =>
        ScheduleFeedsRecords(pending, ops[1..], env);
        FeedsConcat([Tick(now)], OpInputs(pending, ops[1..], env));
        assert [Tick(now)][1..] == [] && Feeds([Tick(now)]) == [];
        assert "" + BytesRead(ops[1..]) == BytesRead(ops[1..]);
    }
  }

  lemma DrainFeedsRecords(text: string, more: string, clock: nat -> int, later: seq<Input>, env: Env)
    requires Feeds(later) == LineRecords(Lines(Unfinished(text) + more), env)
    ensures Feeds(LineInputs(Lines(text), clock, 0, env) + later) == LineRecords(Lines(text + more), env)
  {
    hide Lines, Unfinished, LineRecords, LineInputs, Feeds;
    LineInputsFeedRecords(Lines(text), clock, 0, env);
    FeedsConcat(LineInputs(Lines(text), clock, 0, env), later);
    LinesOfTwoPieces(text, more);
    LineRecordsConcat(Lines(text), Lines(Unfinished(text) + more), env);
  }

  lemma NoLines(env: Env)
    ensures LineRecords([], env) == []
  {
  }

  /** The clips that a session prints are exactly the bytes of the file, in order. */
  ghost predicate SessionIsTheFile(bin: seq<byte>, ops: seq<Op>, env: Env) {
    ClipBytes(ClipsOf(MetaDrain.Session(Reader("", Idle()), ops, env))) == Span(0, |bin|)
  }

  lemma SessionFeedsTheRows(meta: seq<SidecarRow>, bin: seq<byte>, render: SidecarRow -> string, ops: seq<Op>, env: Env)
    requires AgreesWith(env, render) && BytesRead(ops) == SidecarText(meta, render)
    ensures var ins := OpInputs("", ops, env);
      Feeds(ins) == RecordsOf(meta) && (SessionIsTheFile(bin, ops, env) <==> ClipsAreTheFile(bin, ins, env.p))
  {
    hide OpInputs, Lines, BytesRead, AgreesWith;
    SidecarLines(meta, render, env);
    ScheduleFeedsRecords("", ops, env);
    assert "" + BytesRead(ops) == BytesRead(ops);
    SessionIsARun(Reader("", Idle()), ops, env);
  }

  /** Through the text of the sidecar, for any chunking, any clock and any idle timeouts. */
  lemma SidecarToClips(
    meta: seq<SidecarRow>, bin: seq<byte>, render: SidecarRow -> string, ops: seq<Op>, env: Env)
    requires Tiles(meta, bin) && Ordered(meta) && AgreesWith(env, render)
    requires BytesRead(ops) == SidecarText(meta, render)
    ensures SessionIsTheFile(bin, ops, env)
  {
    hide Ordered, SessionIsTheFile, ClipsAreTheFile;
    SessionFeedsTheRows(meta, bin, render, ops, env);
    IngestorToClips(meta, bin, OpInputs("", ops, env), env.p);
  }

  /** Reading the whole sidecar in one drain. */
  lemma OneDrainIsQuiet(text: string, env: Env) returns (ops: seq<Op>)
    ensures BytesRead(ops) == text && NoReset(Idle(), OpInputs("", ops, env), env.p)
  {
    hide LineInputs, Lines, NoReset;
    var clock: nat -> int := n => 0;
    ops := [Drain(text, clock)];
    assert ops[1..] == [] && text + "" == text && "" + text == text;
    var ins := LineInputs(Lines(text), clock, 0, env);
    LinesAreQuiet(Idle(), Lines(text), clock, 0, env);
    assert OpInputs("", ops, env) == ins + [] == ins;
  }

  /** Every session over the sidecar, with any chunking, clock and idle timeouts, prints exactly the
      bytes of the file if and only if the rows are ordered. */
  lemma SidecarToClipsExactly(
    meta: seq<SidecarRow>, bin: seq<byte>, render: SidecarRow -> string, env: Env)
    requires Tiles(meta, bin) && AgreesWith(env, render)
    ensures (forall ops :: BytesRead(ops) == SidecarText(meta, render) ==> SessionIsTheFile(bin, ops, env))
       <==> Ordered(meta)
  {
    hide Ordered, SessionIsTheFile, ClipsAreTheFile, AgreesWith, SidecarText, BytesRead, OpInputs;
    if Ordered(meta) {
      forall ops | BytesRead(ops) == SidecarText(meta, render)
        ensures SessionIsTheFile(bin, ops, env)
      {
        SidecarToClips(meta, bin, render, ops, env);
      }
    } else {
      var ops := OneDrainIsQuiet(SidecarText(meta, render), env);
      SessionFeedsTheRows(meta, bin, render, ops, env);
      QuietRunIsExact(meta, bin, OpInputs("", ops, env), env.p);
    }
  }

  // ---------- from the sending client ----------

  /** send_segment_stream: numbering starts at 1; the gap demo jumps after the first segment. */
  function SequenceNumber(i: nat, gap: bool): nat {
    if gap && i > 1 then i + 3 else i
  }

  /** The numbers start at 1 and go up by one, except that the gap demo leaves out 2 to 4. */
  lemma GapDemoJumpsOnce(i: nat, gap: bool)
    requires i > 0
    ensures SequenceNumber(1, gap) == 1
    ensures SequenceNumber(i + 1, gap) - SequenceNumber(i, gap) == if gap && i == 1 then 4 else 1
  {
  }

  /** The datagrams of the first n segments. */
  function StreamPackets(segments: seq<seq<byte>>, n: nat, size: nat, gap: bool, stepMs: int): seq<Packet>
    requires n <= |segments| && size > 0
  {
    if n == 0 then []
    else
      StreamPackets(segments, n - 1, size, gap, stepMs)
        + SegmentPackets(SequenceNumber(n, gap), (n - 1) * stepMs, segments[n - 1], size)
  }

  /** send_segment_stream: the datagrams sent. It stops at the first segment that cannot be sent. */
  method SendSegmentStream(segments: seq<seq<byte>>, size: int, gap: bool, stepMs: int)
    returns (ok: bool, sent: seq<Packet>)
    ensures ok <==> segments != [] && size > 0 && forall i :: 0 <= i < |segments| ==> segments[i] != []
    ensures ok ==> sent == StreamPackets(segments, |segments|, size, gap, stepMs)
  {
    hide SegmentPackets;
    sent := [];
    if segments == [] {
      return false, [];
    }
    for n := 0 to |segments|
      invariant n > 0 ==> size > 0
      invariant forall i :: 0 <= i < n ==> segments[i] != []
      invariant sent == if n == 0 then [] else StreamPackets(segments, n, size, gap, stepMs)
    {
      var packets := SendSegment(SequenceNumber(n + 1, gap), n * stepMs, segments[n], size);
      if packets.None? {
        return false, sent;
      }
      sent := sent + packets.value;
    }
    return true, sent;
  }

  lemma {:induction false} ReceiveAllConcat(s: Server, a: seq<Packet>, b: seq<Packet>)
    requires AllBounded(s)
    ensures AllBounded(ReceiveAll(s, a))
    ensures ReceiveAll(s, a + b) == ReceiveAll(ReceiveAll(s, a), b)
    decreases |a|
  {
    hide Receive;
    if a == [] {
      assert a + b == b;
    } else {
      ReceiveKeepsBoundedIfAny(s, a);
      assert (a + b)[1..] == a[1..] + b;
      ReceiveAllConcat(Receive(s, a[0]), a[1..], b);
    }
  }

  /** The server without the entry of one key. */
  function Without(s: Server, key: (int, int)): Server {
    s.(segments := s.segments - {key})
  }

  lemma PacketOnlyTouchesItsEntry(s: Server, p: Packet)
    requires Bounded(s.segments) && WellNumbered(p) && EntryFor(s, p).count == p.count
    ensures Completes(s, p) ==>
      Receive(s, p) == WritePayload(Without(s, p.Key()), p.sequence, p.tsMs, Assembled(s, p), "mpegts", true)
    ensures !Completes(s, p) ==> Without(Receive(s, p), p.Key()) == Without(s, p.Key())
  {
    hide Assembled;
    PutTwice(s.segments, p.Key(), WithPart(s, p), WithPart(s, p));
  }

  /** The first k packets of a segment, sent in order, collect the first k fragments. */
  lemma {:induction false} InOrderPrefix(s: Server, sequence: int, tsMs: int, data: seq<byte>, size: nat, k: nat)
    requires AllBounded(s) && size > 0 && data != [] && (sequence, tsMs) !in s.segments
    requires k < FragmentCount(|data|, size)
    ensures var t := ReceiveAll(s, SegmentPackets(sequence, tsMs, data, size)[..k]);
      && AllBounded(t)
      && Collected(t, (sequence, tsMs), data, size, Range(k))
      && Without(t, (sequence, tsMs)) == s
  {
    hide Receive, FragmentCount, Fragment, Collected, Assembled, Range;
    var (key, packets, n) :=
      ((sequence, tsMs), SegmentPackets(sequence, tsMs, data, size), FragmentCount(|data|, size));
    ReceiveAllConcat(s, packets[..k], []);
    if k == 0 {
      NothingCollected(s, key, data, size);
      assert packets[..0] == [];
    } else {
      InOrderPrefix(s, sequence, tsMs, data, size, k - 1);
      var (t, p) := (ReceiveAll(s, packets[..k - 1]), packets[k - 1]);
      assert packets[..k] == packets[..k - 1] + [p];
      ReceiveAllConcat(s, packets[..k - 1], [p]);
      ReceiveOne(t, p);
      InOrderStep(t, p, sequence, tsMs, data, size, k - 1);
    }
  }

  lemma InOrderStep(t: Server, p: Packet, sequence: int, tsMs: int, data: seq<byte>, size: nat, k: nat)
    requires AllBounded(t) && size > 0 && k + 1 < FragmentCount(|data|, size)
    requires Collected(t, (sequence, tsMs), data, size, Range(k))
    requires p == SegmentPacket(sequence, tsMs, data, size, k)
    ensures Collected(Receive(t, p), (sequence, tsMs), data, size, Range(k + 1))
    ensures Without(Receive(t, p), (sequence, tsMs)) == Without(t, (sequence, tsMs))
  {
    hide Receive, FragmentCount, Fragment, Collected, Assembled, Without, Completes, EntryFor, WithPart;
    OwnPacketIsCollected(t, p, sequence, tsMs, data, size, Range(k));
    assert Range(k) + {k} == Range(k + 1);
    PartsSoFarIsMatched(t, p, sequence, tsMs, data, size, Range(k));
    PacketOnlyTouchesItsEntry(t, p);
  }

  lemma PartsSoFarIsMatched(s: Server, p: Packet, sequence: int, tsMs: int, data: seq<byte>, size: nat, seen: set<int>)
    requires size > 0 && Collected(s, (sequence, tsMs), data, size, seen)
    requires 0 <= p.index < FragmentCount(|data|, size)
    requires p == SegmentPacket(sequence, tsMs, data, size, p.index)
    ensures WellNumbered(p) && EntryFor(s, p).count == p.count
  {
    hide FragmentCount, Fragment;
  }

  lemma NothingCollected(s: Server, key: (int, int), data: seq<byte>, size: nat)
    requires size > 0 && data != [] && key !in s.segments
    ensures Collected(s, key, data, size, Range(0)) && Without(s, key) == s
  {
    hide FragmentCount, Fragment;
    CountCovers(|data|, size);
    assert 0 in Range(FragmentCount(|data|, size));
    assert s.segments - {key} == s.segments;
  }

  lemma ReceiveOne(s: Server, p: Packet)
    requires AllBounded(s)
    ensures ReceiveAll(s, [p]) == Receive(s, p)
  {
    hide Receive;
    ReceiveKeepsBoundedIfAny(s, [p]);
    assert [p][1..] == [];
  }

  /** A segment sent in order is written as one payload and leaves nothing behind. */
  lemma InOrderSegment(s: Server, sequence: int, tsMs: int, data: seq<byte>, size: nat)
    requires AllBounded(s) && size > 0 && data != [] && (sequence, tsMs) !in s.segments
    ensures ReceiveAll(s, SegmentPackets(sequence, tsMs, data, size))
         == WritePayload(s, sequence, tsMs, data, "mpegts", true)
  {
    hide Receive, FragmentCount, Fragment, Collected, Assembled, Range;
    var (packets, n) := (SegmentPackets(sequence, tsMs, data, size), FragmentCount(|data|, size));
    CountCovers(|data|, size);
    var k := n - 1;
    InOrderPrefix(s, sequence, tsMs, data, size, k);
    var (t, p) := (ReceiveAll(s, packets[..k]), packets[k]);
    assert packets == packets[..k] + [p];
    ReceiveAllConcat(s, packets[..k], [p]);
    ReceiveOne(t, p);
    assert Range(k) + {k} == Range(n);
    OwnPacketIsCollected(t, p, sequence, tsMs, data, size, Range(k));
    PartsSoFarIsMatched(t, p, sequence, tsMs, data, size, Range(k));
    PacketOnlyTouchesItsEntry(t, p);
  }

  /** What the server holds after a stream sent in order. */
  ghost predicate Delivered(s: Server, segments: seq<seq<byte>>, n: nat, gap: bool, stepMs: int)
    requires n <= |segments|
  {
    && s.segments == map[]
    && s.bin == Flatten(segments[..n])
    && s.offset == |s.bin|
    && Tiles(s.meta, s.bin)
    && |s.meta| == n
    && forall i :: 0 <= i < n ==>
         s.meta[i].sequence == SequenceNumber(i + 1, gap) && s.meta[i].tsMs == i * stepMs
  }

  lemma {:induction false} StreamIsDelivered(
    segments: seq<seq<byte>>, n: nat, size: nat, gap: bool, stepMs: int)
    requires n <= |segments| && size > 0 && forall i :: 0 <= i < |segments| ==> segments[i] != []
    ensures AllBounded(NEW_SERVER)
    ensures Delivered(ReceiveAll(NEW_SERVER, StreamPackets(segments, n, size, gap, stepMs)), segments, n, gap, stepMs)
  {
    hide Receive, SegmentPackets;
    if n == 0 {
      assert segments[..0] == [];
    } else {
      StreamIsDelivered(segments, n - 1, size, gap, stepMs);
      var before := StreamPackets(segments, n - 1, size, gap, stepMs);
      var s := ReceiveAll(NEW_SERVER, before);
      var (sequence, tsMs, data) := (SequenceNumber(n, gap), (n - 1) * stepMs, segments[n - 1]);
      ReceiveAllConcat(NEW_SERVER, before, SegmentPackets(sequence, tsMs, data, size));
      InOrderSegment(s, sequence, tsMs, data, size);
      TilesGrow(s.meta, s.bin, SidecarRow(sequence, s.offset, |data|, tsMs, "mpegts", true), data);
      assert segments[..n] == segments[..n - 1] + [data];
      FlattenSnoc(segments[..n - 1], data);
    }
  }

  lemma RowsStayInsideTheFile(meta: seq<SidecarRow>, bin: seq<byte>, i: nat)
    requires Tiles(meta, bin) && i < |meta|
    ensures meta[i].offset + meta[i].length <= |bin|
    decreases |meta| - i
  {
    assert MeetsNext(meta, |bin|, i);
    if i + 1 < |meta| {
      RowsStayInsideTheFile(meta, bin, i + 1);
    }
  }

  lemma DeliveredIsReadable(s: Server, segments: seq<seq<byte>>, gap: bool, stepMs: nat)
    requires Delivered(s, segments, |segments|, gap, stepMs)
    requires |segments| + 3 <= SAFE_MAX && |Flatten(segments)| <= SAFE_MAX && |segments| * stepMs <= SAFE_MAX
    ensures s.bin == Flatten(segments) && Tiles(s.meta, s.bin) && SequencesIncrease(s.meta)
    ensures forall i :: 0 <= i < |s.meta| ==> Readable(s.meta[i])
  {
    hide Flatten, Tiles;
    var n := |segments|;
    assert segments[..n] == segments;
    forall i | 0 <= i < n
      ensures Readable(s.meta[i])
    {
      RowsStayInsideTheFile(s.meta, s.bin, i);
      assert 0 <= i * stepMs <= n * stepMs;
    }
  }

  /** The whole demo: any list of non-empty segments, fragmented, sent in order, reassembled,
      recorded in the sidecar and read back with any chunking, clock and idle timeouts. The
      file is the segments joined, and the clips are exactly its bytes in order. */
  lemma StreamToClips(
    segments: seq<seq<byte>>, size: nat, gap: bool, stepMs: nat,
    render: SidecarRow -> string, ops: seq<Op>, env: Env)
    requires size > 0 && forall i :: 0 <= i < |segments| ==> segments[i] != []
    requires |segments| + 3 <= SAFE_MAX && |Flatten(segments)| <= SAFE_MAX && |segments| * stepMs <= SAFE_MAX
    requires AgreesWith(env, render)
    requires var s := ReceiveAll(NEW_SERVER, StreamPackets(segments, |segments|, size, gap, stepMs));
      BytesRead(ops) == SidecarText(s.meta, render)
    ensures var s := ReceiveAll(NEW_SERVER, StreamPackets(segments, |segments|, size, gap, stepMs));
      && s.bin == Flatten(segments)
      && ClipBytes(ClipsOf(MetaDrain.Session(Reader("", Idle()), ops, env))) == Span(0, |Flatten(segments)|)
  {
    hide ReceiveAll, StreamPackets, Flatten, Tiles, MetaDrain.Session, AgreesWith, SidecarText, BytesRead,
      ClipBytes, ClipsOf, Delivered, Readable, SequencesIncrease;
    var n := |segments|;
    var s := ReceiveAll(NEW_SERVER, StreamPackets(segments, n, size, gap, stepMs));
    StreamIsDelivered(segments, n, size, gap, stepMs);
    DeliveredIsReadable(s, segments, gap, stepMs);
    IncreasingIsOrdered(s.meta);
    SidecarToClips(s.meta, s.bin, render, ops, env);
  }
}
