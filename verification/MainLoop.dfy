/** stream_merge from its start: the zeroed machine and buffer, the main loop, and what is printed. */
module MainLoop {
  import opened Machine
  import opened ClipFsm
  import opened ClipRuns
  import opened ClipLimits
  import opened ClipWindows
  import opened Sessions
  import opened Segments
  import opened MetaDrain
  import opened StreamMerge
  import opened EndToEnd

  lemma TheFileIsPrinted(
    meta: seq<SidecarRow>, bin: seq<byte>, render: SidecarRow -> string, ops: seq<Op>, env: Env)
    requires Tiles(meta, bin) && Ordered(meta) && AgreesWith(env, render)
    requires BytesRead(ops) == SidecarText(meta, render)
    ensures ClipBytes(ClipsOf(MetaDrain.Session(Reader("", Idle()), ops, env))) == Span(0, |bin|)
  {
    hide Ordered, Tiles, AgreesWith, SidecarText, ClipBytes, ClipsOf, BytesRead, MetaDrain.Session;
    SidecarToClips(meta, bin, render, ops, env);
  }

  /** The part of stream_merge_main that follows the opening of the files. If what the first drain,
      the turns and the last drain find is the text of an ordered sidecar, the printed clips are
      exactly the bytes of the file, in order. */
  method RunStreamMerge(env: Env, first: Batch, turns: seq<Turn>, last: Batch)
    returns (ok: bool, printed: seq<Emission>)
    requires Trusted(env)
    ensures ok ==> printed == MetaDrain.Session(Reader("", Idle()), SessionOps(first, turns, last), env)
    ensures ok ==> forall meta, bin, render ::
      Tiles(meta, bin) && Ordered(meta) && AgreesWith(env, render)
      && SidecarText(meta, render) == first.bytes + TurnBytes(turns) + last.bytes ==>
        ClipBytes(ClipsOf(printed)) == Span(0, |bin|)
    ensures Granted(first) && AllGranted(turns) && Granted(last) ==>
      |first.bytes + TurnBytes(turns) + last.bytes| < SIZE_MAX ==> ok
  {
    hide Trusted, Granted, AllGranted, TurnBytes, SessionOps, MetaDrain.Session, Ordered, Tiles, AgreesWith,
      SidecarText, ClipBytes, ClipsOf, BytesRead;
    SessionReadsEverything(first, turns, last);
    var merger := new Merger(env);
    ok := merger.Serve(first, turns, last);
    printed := merger.printed;
    if ok {
      ghost var ops := SessionOps(first, turns, last);
      ghost var es := MetaDrain.Session(Reader("", Idle()), ops, env);
      assert printed == [] + es == es;
      forall meta, bin, render |
        Tiles(meta, bin) && Ordered(meta) && AgreesWith(env, render)
        && SidecarText(meta, render) == first.bytes + TurnBytes(turns) + last.bytes
        ensures ClipBytes(ClipsOf(printed)) == Span(0, |bin|)
      {
        TheFileIsPrinted(meta, bin, render, ops, env);
        assert ClipBytes(ClipsOf(es)) == Span(0, |bin|);
      }
    }
  }

  // ---------- the times of the printed clips ----------

  /** The clip begins in time and place with one row and ends with another. */
  ghost predicate BetweenRows(c: Clip, meta: seq<SidecarRow>) {
    exists i, j :: 0 <= i < |meta| && 0 <= j < |meta|
      && c.startOffset == meta[i].offset && c.startTsMs == meta[i].tsMs
      && c.startOffset + c.totalLength == meta[j].offset + meta[j].length && c.endTsMs == meta[j].tsMs
  }

  lemma {:induction false} RecordIsOfARow(meta: seq<SidecarRow>, r: Record) returns (i: nat)
    requires r in RecordsOf(meta)
    ensures i < |meta| && r.offset == meta[i].offset && r.length == meta[i].length && r.tsMs == meta[i].tsMs
    ensures r.valid && !r.continuous
  {
    hide Readable;
    if Readable(meta[0]) && r == RecordOf(meta[0]) {
      i := 0;
    } else {
      var k := RecordIsOfARow(meta[1..], r);
      i := k + 1;
    }
  }

  /** Whatever the chunking, the clocks and the timeouts: every printed clip starts at the place and
      time of a sidecar row and ends at the end and time of one. */
  lemma PrintedTimesAreTheRows(
    meta: seq<SidecarRow>, bin: seq<byte>, render: SidecarRow -> string, ops: seq<Op>, env: Env, c: Clip)
    requires AgreesWith(env, render) && BytesRead(ops) == SidecarText(meta, render)
    requires forall i :: 0 <= i < |meta| ==> meta[i].length > 0
    requires c in ClipsOf(MetaDrain.Session(Reader("", Idle()), ops, env))
    ensures BetweenRows(c, meta)
  {
    hide AgreesWith, SidecarText, BytesRead, ClipsOf, MetaDrain.Session, OpInputs, Windows, Accepted, RecordsOf;
    var ins := OpInputs("", ops, env);
    SessionFeedsTheRows(meta, bin, render, ops, env);
    FeedsConcat(ins, [Finish]);
    FeedsOfOne(Finish);
    assert RecordsOf(meta) + [] == RecordsOf(meta);
    forall r | r in Feeds(SessionInputs(ops, env))
      ensures r.valid && !r.continuous && r.length > 0
    {
      var i := RecordIsOfARow(meta, r);
    }
    SessionClipsAreTheirWindows(ops, env);
    SessionWindowsDivideTheRecords(ops, env);
    var ws := Windows(Idle(), [], SessionInputs(ops, env), env.p);
    var k :| 0 <= k < |ws| && ClipsOf(MetaDrain.Session(Reader("", Idle()), ops, env))[k] == c;
    assert IsItsWindow(c, ws[k]);
    FirstAndLast(meta, ops, env, ws, k);
    var i := RecordIsOfARow(meta, ws[k][0]);
    var j := RecordIsOfARow(meta, ws[k][|ws[k]| - 1]);
  }

  lemma FirstAndLast(meta: seq<SidecarRow>, ops: seq<Op>, env: Env, ws: seq<seq<Record>>, k: nat)
    requires k < |ws| && ws[k] != [] && Flatten(ws) == Accepted(Idle(), SessionInputs(ops, env), env.p)
    requires Feeds(SessionInputs(ops, env)) == RecordsOf(meta)
    ensures ws[k][0] in RecordsOf(meta) && ws[k][|ws[k]| - 1] in RecordsOf(meta)
  {
    hide Accepted, Feeds, SessionInputs, RecordsOf;
    PartOfAll(ws, k, ws[k][0]);
    PartOfAll(ws, k, ws[k][|ws[k]| - 1]);
    AcceptedAreFed(Idle(), SessionInputs(ops, env), env.p);
  }

  lemma {:induction false} PartOfAll<T>(ws: seq<seq<T>>, k: nat, r: T)
    requires k < |ws| && r in ws[k]
    ensures r in Flatten(ws)
  {
    if k > 0 {
      PartOfAll(ws[1..], k - 1, r);
    }
  }

  lemma {:induction false} AcceptedAreFed(s: State, ins: seq<Input>, p: Params)
    ensures forall r :: r in Accepted(s, ins, p) ==> r in Feeds(ins)
    decreases |ins|
  {
    hide Step;
    if ins != [] {
      AcceptedAreFed(Step(s, ins[0], p).0, ins[1..], p);
    }
  }
}
