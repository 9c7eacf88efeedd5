/** What a whole session of stream_merge prints: the mark of each clip, and its times. */
module Sessions {
  import opened Machine
  import opened ClipFsm
  import opened ClipRuns
  import opened ClipLimits
  import opened ClipWindows
  import opened MetaDrain
  import opened Text

  // ---------- the marks ----------

  ghost function MarksOf(es: seq<Emission>): seq<bool> {
    seq(|es|, i requires 0 <= i < |es| => es[i].complete)
  }

  lemma MarksConcat(a: seq<Emission>, b: seq<Emission>)
    ensures MarksOf(a + b) == MarksOf(a) + MarksOf(b)
  {
  }

  lemma PrintedMark(s: State, i: Input, p: Params)
    ensures var o := Step(s, i, p).1;
      MarksOf(Printed(o)) == if o.Clips() == [] then [] else [o.EmitComplete?]
  {
    hide AlignedTarget;
  }

  lemma {:induction false} CompletenessConcat(s: State, a: seq<Input>, b: seq<Input>, p: Params)
    ensures Completeness(s, a + b, p) == Completeness(s, a, p) + Completeness(Run(s, a, p), b, p)
    decreases |a|
  {
    hide Step;
    if a == [] {
      assert a + b == b;
    } else {
      assert (a + b)[1..] == a[1..] + b && (a + b)[0] == a[0];
      CompletenessConcat(Step(s, a[0], p).0, a[1..], b, p);
    }
  }

  lemma CompletenessOfOne(s: State, i: Input, p: Params)
    ensures Completeness(s, [i], p) == if Step(s, i, p).1.Clips() == [] then [] else [Step(s, i, p).1.EmitComplete?]
  {
    hide Step;
    assert [i][1..] == [];
    assert Completeness(Step(s, i, p).0, [], p) == [];
  }

  lemma {:induction false} FeedingMarks(s: State, lines: seq<string>, clock: nat -> int, k: nat, env: Env)
    ensures MarksOf(FeedLines(s, lines, clock, k, env).1)
         == Completeness(s, LineInputs(lines, clock, k, env), env.p)
    decreases |lines|
  {
    hide Process;
    if lines != [] {
      var (s1, e1) := FeedLine(s, lines[0], clock(k), env);
      var rest := LineInputs(lines[1..], clock, k + 1, env);
      FeedingMarks(s1, lines[1..], clock, k + 1, env);
      MarksConcat(e1, FeedLines(s1, lines[1..], clock, k + 1, env).1);
      var row := DataRow(lines[0], env);
      if row.Some? {
        var i := Feed(row.value, clock(k));
        PrintedMark(s, i, env.p);
        RunOne(s, i, env.p);
        CompletenessOfOne(s, i, env.p);
        CompletenessConcat(s, [i], rest, env.p);
      } else {
        assert [] + rest == rest;
      }
    }
  }

  lemma {:induction false} ScheduleMarks(d: Reader, ops: seq<Op>, env: Env)
    ensures MarksOf(DoAll(d, ops, env).1) == Completeness(d.fsm, OpInputs(d.pending, ops, env), env.p)
    decreases |ops|
  {
    hide Process, FeedLines, LineInputs, CheckIdle, Completeness, MarksOf;
    if ops == [] {
      NothingMarked(d.fsm, env.p);
    } else {
      var (d1, e1) := Do(d, ops[0], env);
      var rest := OpInputs(d1.pending, ops[1..], env);
      ScheduleMarks(d1, ops[1..], env);
      MarksConcat(e1, DoAll(d1, ops[1..], env).1);
      match ops[0]
      case Drain(bytes, clock) =>
        var lines := Lines(d.pending + bytes);
        FeedingMarks(d.fsm, lines, clock, 0, env);
        FeedingIsARun(d.fsm, lines, clock, 0, env);
        CompletenessConcat(d.fsm, LineInputs(lines, clock, 0, env), rest, env.p);
      case IdleCheck(now) =>
        PrintedMark(d.fsm, Tick(now), env.p);
        CompletenessOfOne(d.fsm, Tick(now), env.p);
        RunOne(d.fsm, Tick(now), env.p);
        CompletenessConcat(d.fsm, [Tick(now)], rest, env.p);
    }
  }

  lemma NothingMarked(s: State, p: Params)
    ensures Completeness(s, [], p) == [] && MarksOf([]) == []
  {
  }

  /** The inputs of a whole session. */
  ghost function SessionInputs(ops: seq<Op>, env: Env): seq<Input> {
    OpInputs("", ops, env) + [Finish]
  }

  /** In every session the k-th clip is printed as complete if and only if its window was not broken
      off by a gap, an offset jump or an idle timeout. */
  lemma MarksAreUnbroken(ops: seq<Op>, env: Env, last: Record)
    ensures MarksOf(MetaDrain.Session(Reader("", Idle()), ops, env))
         == Unbroken(Idle(), last, SessionInputs(ops, env), env.p)
  {
    hide MarksOf, Completeness, Unbroken, OpInputs, DoAll, Step;
    var (d, ins) := (Reader("", Idle()), OpInputs("", ops, env));
    var (d', es) := DoAll(d, ops, env);
    ScheduleMarks(d, ops, env);
    ScheduleIsARun(d, ops, env);
    FinishPrints(d'.fsm, env.p);
    MarksConcat(es, Printed(FlushFinal(d'.fsm).1));
    CompletenessConcat(Idle(), ins, [Finish], env.p);
    assert EndsWith(Idle(), last);
    CompleteMeansUnbroken(Idle(), last, ins + [Finish], env.p);
  }

  lemma FinishPrints(s: State, p: Params)
    ensures MarksOf(Printed(FlushFinal(s).1)) == Completeness(s, [Finish], p)
  {
    PrintedMark(s, Finish, p);
    CompletenessOfOne(s, Finish, p);
  }

  /** A session without gap, offset jump and timeout prints only complete clips. */
  lemma LinkedSessionIsComplete(ops: seq<Op>, env: Env)
    requires var ins := SessionInputs(ops, env);
      AllValid(Feeds(ins)) && Linked(Feeds(ins)) && NoTickEmits(Idle(), ins, env.p)
    ensures forall e :: e in MetaDrain.Session(Reader("", Idle()), ops, env) ==> e.complete
  {
    hide Unbroken, OpInputs, SessionInputs, MetaDrain.Session, Linked, NoTickEmits;
    var (last, ins, es) := (Record(0, 0, 0, 0, false, 0, 0, [], true), SessionInputs(ops, env),
                            MetaDrain.Session(Reader("", Idle()), ops, env));
    MarksAreUnbroken(ops, env, last);
    assert [] + Feeds(ins) == Feeds(ins);
    assert EndsWith(Idle(), last);
    LinkedRunsAreUnbroken(Idle(), last, ins, env.p);
    forall k | 0 <= k < |es|
      ensures es[k].complete
    {
      assert MarksOf(es)[k] == es[k].complete && MarksOf(es)[k] in MarksOf(es);
    }
  }

  // ---------- the times ----------

  /** Without continuous records, the clips of a session are exactly the records folded into them,
      in time and place. */
  lemma SessionClipsAreTheirWindows(ops: seq<Op>, env: Env)
    requires forall r :: r in Feeds(SessionInputs(ops, env)) ==> !r.continuous
    ensures AreTheirWindows(ClipsOf(MetaDrain.Session(Reader("", Idle()), ops, env)),
                            Windows(Idle(), [], SessionInputs(ops, env), env.p))
  {
    hide AreTheirWindows, Windows, ClipsOf, OpInputs, MetaDrain.Session, Clips;
    SessionIsARun(Reader("", Idle()), ops, env);
    assert Holds(Idle(), []);
    ClipsAreTheirWindows(Idle(), [], SessionInputs(ops, env), env.p);
  }

  /** For records with bytes as well, these windows divide the accepted records of the session. */
  lemma SessionWindowsDivideTheRecords(ops: seq<Op>, env: Env)
    requires forall r :: r in Feeds(SessionInputs(ops, env)) && r.valid ==> r.length > 0 && !r.continuous
    ensures Flatten(Windows(Idle(), [], SessionInputs(ops, env), env.p))
         == Accepted(Idle(), SessionInputs(ops, env), env.p)
  {
    hide Windows, OpInputs, Accepted, Step, Feeds, StillOpen;
    var (ins, p) := (OpInputs("", ops, env), env.p);
    assert NothingOpenIsLost(Idle(), []);
    WindowsDivideTheRecords(Idle(), [], ins + [Finish], p);
    FinishLeavesNothingOpen(ins, p);
    var ws := Flatten(Windows(Idle(), [], ins + [Finish], p));
    assert ws + [] == ws;
    assert [] + Accepted(Idle(), ins + [Finish], p) == Accepted(Idle(), ins + [Finish], p);
  }

  lemma FinishLeavesNothingOpen(ins: seq<Input>, p: Params)
    requires forall r :: r in Feeds(ins + [Finish]) && r.valid ==> r.length > 0 && !r.continuous
    ensures StillOpen(Idle(), [], ins + [Finish], p) == []
  {
    StillOpenSnoc(Idle(), [], ins, p);
    assert forall r :: r in Feeds(ins) ==> r in Feeds(ins + [Finish]) by { FeedsConcat(ins, [Finish]); }
  }

  lemma {:induction false} StillOpenSnoc(s: State, open: seq<Record>, ins: seq<Input>, p: Params)
    requires NothingOpenIsLost(s, open)
    requires forall r :: r in Feeds(ins + [Finish]) && r.valid ==> r.length > 0 && !r.continuous
    ensures StillOpen(s, open, ins + [Finish], p) == []
    decreases |ins|
  {
    hide Step, Fold, NothingOpenIsLost;
    var all := ins + [Finish];
    StepDividesFirst(s, open, all, p);
    if ins == [] {
      assert all[1..] == [];
      FinishCloses(s, open, p);
    } else {
      assert all[1..] == ins[1..] + [Finish];
      FeedsFront(all);
      StillOpenSnoc(Step(s, ins[0], p).0, Fold(s, open, ins[0], p).1, ins[1..], p);
    }
  }

  lemma StepDividesFirst(s: State, open: seq<Record>, all: seq<Input>, p: Params)
    requires all != [] && NothingOpenIsLost(s, open)
    requires forall r :: r in Feeds(all) && r.valid ==> r.length > 0 && !r.continuous
    ensures NothingOpenIsLost(Step(s, all[0], p).0, Fold(s, open, all[0], p).1)
  {
    hide Step, Fold, NothingOpenIsLost;
    FeedsFront(all);
    StepDivides(s, open, all[0], p);
  }

  lemma FinishCloses(s: State, open: seq<Record>, p: Params)
    requires NothingOpenIsLost(s, open)
    ensures Fold(s, open, Finish, p).1 == []
  {
  }
}
