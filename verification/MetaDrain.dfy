/** The sidecar reader of applets/stream_merge/stream_merge.c: splitting the growing metadata
    file into lines, feeding the clip state machine, and the drain / idle / flush loop. */
module MetaDrain {
  import opened Machine
  import opened ClipFsm
  import opened ClipRuns
  import opened ClipLimits
  import opened Text

  /** What the JSON reader makes of a line. */
  datatype Parsed = Malformed | Row(kind: string, rec: Record)

  /** The reader and the two time settings. */
  datatype Env = Env(parse: string -> Parsed, p: Params)

  /** One JSON line written to standard output. */
  datatype Emission = Emission(clip: Clip, complete: bool)

  /** The rows a line contributes: skipped if blank, malformed, invalid or of another kind. */
  function DataRow(line: string, env: Env): Option<Record> {
    if line == "" then None
    else
      match env.parse(line)
      case Malformed => None
      case Row(kind, rec) => if rec.valid && kind == "data" then Some(rec) else None
  }

  /** handle_action: what an outcome prints. */
  function Printed(o: Outcome): seq<Emission> {
    match o
    case EmitComplete(c) => if c.active then [Emission(c, true)] else []
    case EmitPartial(c) => if c.active then [Emission(c, false)] else []
    case _ => []
  }

  function FeedLine(s: State, line: string, nowMs: int, env: Env): (State, seq<Emission>) {
    match DataRow(line, env)
    case None => (s, [])
    case Some(rec) =>
      var (s', o) := Process(s, rec, env.p.clipMs, nowMs);
      (s', Printed(o))
  }

  /** Feed a list of lines; the k-th one is processed at time clock(k). */
  function FeedLines(s: State, lines: seq<string>, clock: nat -> int, k: nat, env: Env)
    : (State, seq<Emission>)
    decreases |lines|
  {
    if lines == [] then (s, [])
    else
      var (s1, e1) := FeedLine(s, lines[0], clock(k), env);
      var (s2, e2) := FeedLines(s1, lines[1..], clock, k + 1, env);
      (s2, e1 + e2)
  }

  /** The reader's state: the unfinished line and the machine. */
  datatype Reader = Reader(pending: string, fsm: State)

  /** Feed every complete line of the pending text and keep the rest. */
  function FeedPending(d: Reader, clock: nat -> int, k: nat, env: Env): (Reader, seq<Emission>) {
    var (s, es) := FeedLines(d.fsm, Lines(d.pending), clock, k, env);
    (Reader(Unfinished(d.pending), s), es)
  }

  /** Feeding the first line and then the rest is feeding everything. */
  lemma FeedFirstOfPending(d: Reader, clock: nat -> int, k: nat, env: Env)
    requires IndexOf(d.pending, '\n') < |d.pending|
    ensures var n := IndexOf(d.pending, '\n');
      var (s1, e1) := FeedLine(d.fsm, d.pending[..n], clock(k), env);
      var (d2, e2) := FeedPending(Reader(d.pending[n + 1..], s1), clock, k + 1, env);
      FeedPending(d, clock, k, env) == (d2, e1 + e2)
  {
    hide FeedLine;
    var n := IndexOf(d.pending, '\n');
    assert ([d.pending[..n]] + Lines(d.pending[n + 1..]))[1..] == Lines(d.pending[n + 1..]);
  }

  lemma FeedingShortens(d: Reader, clock: nat -> int, k: nat, env: Env)
    ensures |FeedPending(d, clock, k, env).0.pending| <= |d.pending|
  {
    hide FeedLines, Lines;
    UnfinishedIsShorter(d.pending);
  }

  lemma FeedNoneOfPending(d: Reader, clock: nat -> int, k: nat, env: Env)
    requires IndexOf(d.pending, '\n') == |d.pending|
    ensures FeedPending(d, clock, k, env) == (d, [])
  {
  }

  /** One event of the main loop: new sidecar bytes, or an idle check. */
  datatype Op = Drain(bytes: string, clock: nat -> int) | IdleCheck(nowMs: int)

  function Do(d: Reader, op: Op, env: Env): (Reader, seq<Emission>) {
    match op
    case Drain(bytes, clock) => FeedPending(d.(pending := d.pending + bytes), clock, 0, env)
    case IdleCheck(now) =>
      var (s, o) := CheckIdle(d.fsm, env.p.idleMs, now);
      (d.(fsm := s), Printed(o))
  }

  function DoAll(d: Reader, ops: seq<Op>, env: Env): (Reader, seq<Emission>)
    decreases |ops|
  {
    if ops == [] then (d, [])
    else
      var (d1, e1) := Do(d, ops[0], env);
      var (d2, e2) := DoAll(d1, ops[1..], env);
      (d2, e1 + e2)
  }

  /** A whole session: the loop's events, then the final flush. */
  function Session(d: Reader, ops: seq<Op>, env: Env): seq<Emission> {
    var (d', es) := DoAll(d, ops, env);
    es + Printed(FlushFinal(d'.fsm).1)
  }

  lemma {:induction false} DoAllConcat(d: Reader, a: seq<Op>, b: seq<Op>, env: Env)
    ensures var ((d1, e1), (d2, e2)) := (DoAll(d, a, env), DoAll(DoAll(d, a, env).0, b, env));
      DoAll(d, a + b, env) == (d2, e1 + e2)
    decreases |a|
  {
    hide Do;
    if a == [] {
      assert a + b == b;
      assert [] + DoAll(d, b, env).1 == DoAll(d, b, env).1;
    } else {
      assert (a + b)[1..] == a[1..] + b;
      var (d1, e1) := Do(d, a[0], env);
      DoAllConcat(d1, a[1..], b, env);
      var (dm, em) := DoAll(d1, a[1..], env);
      assert e1 + (em + DoAll(dm, b, env).1) == (e1 + em) + DoAll(dm, b, env).1;
    }
  }

  /** The sidecar bytes that the drains of a schedule read, in order. */
  function BytesRead(ops: seq<Op>): string
    decreases |ops|
  {
    if ops == [] then ""
    else (if ops[0].Drain? then ops[0].bytes else "") + BytesRead(ops[1..])
  }

  lemma {:induction false} BytesReadConcat(a: seq<Op>, b: seq<Op>)
    ensures BytesRead(a + b) == BytesRead(a) + BytesRead(b)
    decreases |a|
  {
    if a == [] {
      assert a + b == b;
    } else {
      assert (a + b)[1..] == a[1..] + b;
      BytesReadConcat(a[1..], b);
    }
  }

  // ---------- schedule independence ----------

  /** Equal but for the wall clock of the last chunk. */
  ghost predicate SameButClock(s: State, t: State) {
    s.(lastChunkWallMs := 0) == t.(lastChunkWallMs := 0)
  }

  ghost predicate NoTimeout(d: Reader, ops: seq<Op>, env: Env)
    decreases |ops|
  {
    ops == [] ||
    (&& (ops[0].IdleCheck? ==> CheckIdle(d.fsm, env.p.idleMs, ops[0].nowMs).1 == Nothing)
     && NoTimeout(Do(d, ops[0], env).0, ops[1..], env))
  }

  lemma ProcessIgnoresClock(s: State, t: State, r: Record, clipMs: int, now1: int, now2: int)
    requires SameButClock(s, t)
    ensures SameButClock(Process(s, r, clipMs, now1).0, Process(t, r, clipMs, now2).0)
    ensures Process(s, r, clipMs, now1).1 == Process(t, r, clipMs, now2).1
  {
    hide AlignedTarget;
  }

  lemma {:induction false} FeedingIgnoresClock(
    s: State, t: State, lines: seq<string>, c1: nat -> int, c2: nat -> int, k1: nat, k2: nat, env: Env)
    requires SameButClock(s, t)
    ensures var ((s', es), (t', et)) := (FeedLines(s, lines, c1, k1, env), FeedLines(t, lines, c2, k2, env));
      SameButClock(s', t') && es == et
    decreases |lines|
  {
    hide Process;
    if lines != [] {
      var row := DataRow(lines[0], env);
      if row.Some? {
        ProcessIgnoresClock(s, t, row.value, env.p.clipMs, c1(k1), c2(k2));
      }
      FeedingIgnoresClock(FeedLine(s, lines[0], c1(k1), env).0, FeedLine(t, lines[0], c2(k2), env).0,
                          lines[1..], c1, c2, k1 + 1, k2 + 1, env);
    }
  }

  lemma {:induction false} FeedingConcat(
    s: State, a: seq<string>, b: seq<string>, clock: nat -> int, k: nat, env: Env)
    ensures var ((s1, e1), (s2, e2)) :=
      (FeedLines(s, a, clock, k, env), FeedLines(FeedLines(s, a, clock, k, env).0, b, clock, k + |a|, env));
      FeedLines(s, a + b, clock, k, env) == (s2, e1 + e2)
    decreases |a|
  {
    hide FeedLine;
    if a == [] {
      assert a + b == b;
      assert [] + FeedLines(s, b, clock, k, env).1 == FeedLines(s, b, clock, k, env).1;
    } else {
      assert (a + b)[1..] == a[1..] + b;
      var (s1, e1) := FeedLine(s, a[0], clock(k), env);
      FeedingConcat(s1, a[1..], b, clock, k + 1, env);
      var (sm, em) := FeedLines(s1, a[1..], clock, k + 1, env);
      var eb := FeedLines(sm, b, clock, k + |a|, env).1;
      assert e1 + (em + eb) == (e1 + em) + eb;
    }
  }

  /** The reference reading: the whole sidecar in one piece, with a stopped clock. */
  function AtOnce(d: Reader, bytes: string, env: Env): (Reader, seq<Emission>) {
    Do(d, Drain(bytes, n => 0), env)
  }

  lemma DrainThenAtOnce(d: Reader, bytes: string, clock: nat -> int, more: string, env: Env)
    ensures var (d1, e1) := Do(d, Drain(bytes, clock), env);
      var ((d2, e2), (da, ea)) := (AtOnce(d1, more, env), AtOnce(d, bytes + more, env));
      d2.pending == da.pending && SameButClock(d2.fsm, da.fsm) && e1 + e2 == ea
  {
    hide FeedLines, Lines, Unfinished;
    var zero := n => 0;
    var text := d.pending + bytes;
    var (d1, e1) := Do(d, Drain(bytes, clock), env);
    LinesOfTwoPieces(text, more);
    assert d.pending + (bytes + more) == text + more;
    var first, second := Lines(text), Lines(d1.pending + more);
    FeedingConcat(d.fsm, first, second, zero, 0, env);
    FeedingIgnoresClock(d.fsm, d.fsm, first, clock, zero, 0, 0, env);
    var mid := FeedLines(d.fsm, first, zero, 0, env).0;
    FeedingIgnoresClock(d1.fsm, mid, second, zero, zero, 0, |first|, env);
  }

  lemma AtOnceNothing(d: Reader, env: Env)
    requires '\n' !in d.pending
    ensures AtOnce(d, "", env) == (d, [])
  {
    assert d.pending + "" == d.pending;
    IndexAbsent(d.pending, '\n');
  }

  /** Any schedule of drains and silent idle checks amounts to reading its bytes at once. */
  lemma {:induction false} ScheduleIsOneDrain(d: Reader, ops: seq<Op>, env: Env)
    requires '\n' !in d.pending && NoTimeout(d, ops, env)
    ensures var ((d', es), (da, ea)) := (DoAll(d, ops, env), AtOnce(d, BytesRead(ops), env));
      d'.pending == da.pending && SameButClock(d'.fsm, da.fsm) && es == ea
    decreases |ops|
  {
    hide AtOnce, Process, FeedLines;
    if ops == [] {
      AtOnceNothing(d, env);
    } else {
      var (d1, e1) := Do(d, ops[0], env);
      var more := BytesRead(ops[1..]);
      if ops[0].Drain? {
        UnfinishedHasNoNewline(d.pending + ops[0].bytes);
        ScheduleIsOneDrain(d1, ops[1..], env);
        DrainThenAtOnce(d, ops[0].bytes, ops[0].clock, more, env);
      } else {
        assert d1 == d && e1 == [];
        ScheduleIsOneDrain(d, ops[1..], env);
        assert "" + more == more;
      }
    }
  }

  lemma FlushIgnoresClock(s: State, t: State)
    requires SameButClock(s, t)
    ensures FlushFinal(s).1 == FlushFinal(t).1
  {
  }

  /** The emitted clips depend only on the sidecar bytes: not on how they were split into
      reads, when the drains happened, or what the clock said, as long as no idle timeout fires. */
  lemma ScheduleIndependence(d: Reader, ops1: seq<Op>, ops2: seq<Op>, env: Env)
    requires '\n' !in d.pending
    requires BytesRead(ops1) == BytesRead(ops2)
    requires NoTimeout(d, ops1, env) && NoTimeout(d, ops2, env)
    ensures Session(d, ops1, env) == Session(d, ops2, env)
    ensures DoAll(d, ops1, env).0.pending == DoAll(d, ops2, env).0.pending
    ensures SameButClock(DoAll(d, ops1, env).0.fsm, DoAll(d, ops2, env).0.fsm)
  {
    ScheduleIsOneDrain(d, ops1, env);
    ScheduleIsOneDrain(d, ops2, env);
    FlushIgnoresClock(DoAll(d, ops1, env).0.fsm, DoAll(d, ops2, env).0.fsm);
  }

  // ---------- lines that are not data ----------

  /** Blank, malformed, marked invalid, or of another kind. */
  predicate IsNoise(line: string, env: Env) {
    || line == "" || env.parse(line) == Malformed
    || (env.parse(line).Row? && (env.parse(line).kind != "data" || !env.parse(line).rec.valid))
  }

  function WithoutNoise(lines: seq<string>, env: Env): seq<string> {
    if lines == [] then []
    else (if IsNoise(lines[0], env) then [] else [lines[0]]) + WithoutNoise(lines[1..], env)
  }

  lemma NoiseIsSkipped(s: State, line: string, nowMs: int, env: Env)
    ensures IsNoise(line, env) ==> FeedLine(s, line, nowMs, env) == (s, [])
    ensures !IsNoise(line, env) ==> env.parse(line).Row? && DataRow(line, env) == Some(env.parse(line).rec)
  {
  }

  /** Lines that are not data rows have no influence on the clips, wherever they are. */
  lemma {:induction false} NoiseIsIgnored(
    s: State, t: State, lines: seq<string>, c1: nat -> int, c2: nat -> int, k1: nat, k2: nat, env: Env)
    requires SameButClock(s, t)
    ensures var ((s', es), (t', et)) :=
      (FeedLines(s, lines, c1, k1, env), FeedLines(t, WithoutNoise(lines, env), c2, k2, env));
      SameButClock(s', t') && es == et
    decreases |lines|
  {
    hide Process, DataRow, IsNoise;
    if lines != [] {
      var (line, rest) := (lines[0], WithoutNoise(lines[1..], env));
      NoiseIsSkipped(s, line, c1(k1), env);
      if IsNoise(line, env) {
        assert [] + rest == rest;
        NoiseIsIgnored(s, t, lines[1..], c1, c2, k1 + 1, k2, env);
        var et := FeedLines(t, rest, c2, k2, env).1;
        assert [] + et == et;
      } else {
        var rec := env.parse(line).rec;
        ProcessIgnoresClock(s, t, rec, env.p.clipMs, c1(k1), c2(k2));
        assert ([line] + rest)[1..] == rest;
        NoiseIsIgnored(FeedLine(s, line, c1(k1), env).0, FeedLine(t, line, c2(k2), env).0,
                       lines[1..], c1, c2, k1 + 1, k2 + 1, env);
      }
    }
  }

  // ---------- what the machine is fed ----------

  /** The machine inputs of a list of lines. */
  ghost function LineInputs(lines: seq<string>, clock: nat -> int, k: nat, env: Env): seq<Input>
    decreases |lines|
  {
    if lines == [] then []
    else
      (match DataRow(lines[0], env)
       case None => []
       case Some(rec) => [Feed(rec, clock(k))]) + LineInputs(lines[1..], clock, k + 1, env)
  }

  /** The machine inputs of a whole schedule. */
  ghost function OpInputs(pending: string, ops: seq<Op>, env: Env): seq<Input>
    decreases |ops|
  {
    if ops == [] then []
    else
      match ops[0]
      case Drain(bytes, clock) =>
        LineInputs(Lines(pending + bytes), clock, 0, env)
          + OpInputs(Unfinished(pending + bytes), ops[1..], env)
      case IdleCheck(now) => [Tick(now)] + OpInputs(pending, ops[1..], env)
  }

  ghost function ClipsOf(es: seq<Emission>): seq<Clip> {
    seq(|es|, i requires 0 <= i < |es| => es[i].clip)
  }

  lemma PrintedIsEverything(s: State, i: Input, p: Params)
    ensures ClipsOf(Printed(Step(s, i, p).1)) == Step(s, i, p).1.Clips()
  {
    hide AlignedTarget;
  }

  lemma ClipsOfConcat(a: seq<Emission>, b: seq<Emission>)
    ensures ClipsOf(a + b) == ClipsOf(a) + ClipsOf(b)
  {
  }

  lemma {:induction false} FeedingIsARun(s: State, lines: seq<string>, clock: nat -> int, k: nat, env: Env)
    ensures var ((s', es), ins) := (FeedLines(s, lines, clock, k, env), LineInputs(lines, clock, k, env));
      s' == Run(s, ins, env.p) && ClipsOf(es) == Clips(s, ins, env.p)
    decreases |lines|
  {
    hide Process;
    if lines != [] {
      var (s1, e1) := FeedLine(s, lines[0], clock(k), env);
      var rest := LineInputs(lines[1..], clock, k + 1, env);
      FeedingIsARun(s1, lines[1..], clock, k + 1, env);
      ClipsOfConcat(e1, FeedLines(s1, lines[1..], clock, k + 1, env).1);
      var row := DataRow(lines[0], env);
      if row.Some? {
        var i := Feed(row.value, clock(k));
        PrintedIsEverything(s, i, env.p);
        RunOne(s, i, env.p);
        RunConcat(s, [i], rest, env.p);
      } else {
        assert [] + rest == rest;
      }
    }
  }

  /** A schedule, timeouts included, is a run of the machine over the rows of its lines. */
  lemma {:induction false} ScheduleIsARun(d: Reader, ops: seq<Op>, env: Env)
    ensures var ((d', es), ins) := (DoAll(d, ops, env), OpInputs(d.pending, ops, env));
      d'.fsm == Run(d.fsm, ins, env.p) && ClipsOf(es) == Clips(d.fsm, ins, env.p)
    decreases |ops|
  {
    hide Process, FeedLines, LineInputs, CheckIdle;
    if ops != [] {
      var (d1, e1) := Do(d, ops[0], env);
      var rest := OpInputs(d1.pending, ops[1..], env);
      ScheduleIsARun(d1, ops[1..], env);
      ClipsOfConcat(e1, DoAll(d1, ops[1..], env).1);
      match ops[0]
      case Drain(bytes, clock) =>
        var lines := Lines(d.pending + bytes);
        FeedingIsARun(d.fsm, lines, clock, 0, env);
        RunConcat(d.fsm, LineInputs(lines, clock, 0, env), rest, env.p);
      case IdleCheck(now) =>
        PrintedIsEverything(d.fsm, Tick(now), env.p);
        RunOne(d.fsm, Tick(now), env.p);
        RunConcat(d.fsm, [Tick(now)], rest, env.p);
    }
  }

  lemma SessionIsARun(d: Reader, ops: seq<Op>, env: Env)
    ensures ClipsOf(Session(d, ops, env))
         == Clips(d.fsm, OpInputs(d.pending, ops, env) + [Finish], env.p)
  {
    var (d', es) := DoAll(d, ops, env);
    var ins := OpInputs(d.pending, ops, env);
    ScheduleIsARun(d, ops, env);
    ClipsOfConcat(es, Printed(FlushFinal(d'.fsm).1));
    PrintedIsEverything(d'.fsm, Finish, env.p);
    RunOne(d'.fsm, Finish, env.p);
    RunConcat(d.fsm, ins, [Finish], env.p);
  }

  // ---------- fresh data and the idle check ----------

  lemma {:induction false} LinesAreQuiet(s: State, lines: seq<string>, clock: nat -> int, k: nat, env: Env)
    ensures NoReset(s, LineInputs(lines, clock, k, env), env.p)
    decreases |lines|
  {
    hide DataRow, Step;
    if lines != [] {
      var head := match DataRow(lines[0], env) case None => [] case Some(rec) => [Feed(rec, clock(k))];
      var rest := LineInputs(lines[1..], clock, k + 1, env);
      var s' := Run(s, head, env.p);
      LinesAreQuiet(s', lines[1..], clock, k + 1, env);
      NoResetConcat(s, head, rest, env.p);
      assert head != [] ==> head[1..] == [];
    }
  }

  lemma {:induction false} LastFeedIsOnTheClock(
    s: State, lines: seq<string>, clock: nat -> int, k: nat, before: int, env: Env)
    requires Accepted(s, LineInputs(lines, clock, k, env), env.p) != []
    ensures exists j: nat :: LastFeedTime(s, LineInputs(lines, clock, k, env), before, env.p) == clock(j)
    decreases |lines|
  {
    hide DataRow, Step, Taken;
    var row := DataRow(lines[0], env);
    var rest := LineInputs(lines[1..], clock, k + 1, env);
    if row.None? {
      assert [] + rest == rest;
      LastFeedIsOnTheClock(s, lines[1..], clock, k + 1, before, env);
    } else {
      var i := Feed(row.value, clock(k));
      var (s', t) := (Step(s, i, env.p).0, if Taken(s, i) != [] then clock(k) else before);
      var ins := [i] + rest;
      assert ins[0] == i && ins[1..] == rest;
      if Accepted(s', rest, env.p) != [] {
        LastFeedIsOnTheClock(s', lines[1..], clock, k + 1, t, env);
      } else {
        NoFeedNoChange(s', rest, t, env.p);
      }
    }
  }

  lemma {:induction false} NoFeedNoChange(s: State, ins: seq<Input>, before: int, p: Params)
    requires Accepted(s, ins, p) == []
    ensures LastFeedTime(s, ins, before, p) == before
    decreases |ins|
  {
    hide Step, Taken;
    if ins != [] {
      NoFeedNoChange(Step(s, ins[0], p).0, ins[1..], before, p);
    }
  }

  /** The drain accepts a record, and its clock never lies a whole idle time before `nowMs`. */
  ghost predicate FreshData(d: Reader, bytes: string, clock: nat -> int, nowMs: int, env: Env) {
    && Accepted(d.fsm, LineInputs(Lines(d.pending + bytes), clock, 0, env), env.p) != []
    && forall k: nat :: nowMs - clock(k) < env.p.idleMs
  }

  /** An idle check right after a drain with fresh data cuts nothing. */
  lemma FreshDataPreventsTimeout(d: Reader, bytes: string, clock: nat -> int, nowMs: int, env: Env)
    requires FreshData(d, bytes, clock, nowMs, env)
    ensures var d' := Do(d, Drain(bytes, clock), env).0;
      Do(d', IdleCheck(nowMs), env) == (d', [])
  {
    hide LineInputs, FeedLines, Lines, Accepted, Run, NoReset;
    var lines := Lines(d.pending + bytes);
    var ins := LineInputs(lines, clock, 0, env);
    FeedingIsARun(d.fsm, lines, clock, 0, env);
    LinesAreQuiet(d.fsm, lines, clock, 0, env);
    ClockIsTheLastFeed(d.fsm, ins, env.p);
    LastFeedIsOnTheClock(d.fsm, lines, clock, 0, d.fsm.lastChunkWallMs, env);
  }
}
