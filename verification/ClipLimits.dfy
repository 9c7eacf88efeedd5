/** How far the guarantees of the clip state machine go: which records a run accepts, and for which
    inputs every run keeps its bytes, its order and its clips non-empty. */
module ClipLimits {
  import opened Machine
  import opened ClipFsm
  import opened ClipRuns

  /** The records fed by a run, rejected or not. */
  ghost function Feeds(ins: seq<Input>): seq<Record>
    decreases |ins|
  {
    if ins == [] then [] else (if ins[0].Feed? then [ins[0].rec] else []) + Feeds(ins[1..])
  }

  ghost predicate AllValid(rs: seq<Record>) {
    forall r :: r in rs ==> r.valid
  }

  lemma {:induction false} FeedsConcat(a: seq<Input>, b: seq<Input>)
    ensures Feeds(a + b) == Feeds(a) + Feeds(b)
    decreases |a|
  {
    if a == [] {
      assert a + b == b;
    } else {
      assert (a + b)[1..] == a[1..] + b && (a + b)[0] == a[0];
      FeedsConcat(a[1..], b);
      var head := if a[0].Feed? then [a[0].rec] else [];
      assert head + (Feeds(a[1..]) + Feeds(b)) == (head + Feeds(a[1..])) + Feeds(b);
    }
  }

  lemma StepMovesOn(s: State, i: Input, p: Params)
    ensures var s' := Step(s, i, p).0;
      && (Taken(s, i) != [] ==> s'.active && s'.expectedSeq == i.rec.sequence + 1)
      && (Taken(s, i) == [] && s'.active ==> s' == s)
  {
    hide AlignedTarget;
  }

  /** Strictly increasing sequence numbers are never late, wherever timeouts and flushes fall. */
  lemma {:induction false} IncreasingFeedsAreAccepted(s: State, ins: seq<Input>, p: Params)
    requires AllValid(Feeds(ins)) && Increasing(Feeds(ins))
    requires s.active ==> forall r :: r in Feeds(ins) ==> r.sequence >= s.expectedSeq
    ensures Accepted(s, ins, p) == Feeds(ins)
    decreases |ins|
  {
    hide Step, Increasing;
    if ins != [] {
      var (s', rest) := (Step(s, ins[0], p).0, Feeds(ins[1..]));
      StepMovesOn(s, ins[0], p);
      if ins[0].Feed? {
        assert Feeds(ins) == [ins[0].rec] + rest;
        IncreasingTail(ins[0].rec, rest);
      } else {
        assert Feeds(ins) == [] + rest == rest;
      }
      IncreasingFeedsAreAccepted(s', ins[1..], p);
    }
  }

  lemma IncreasingTail(r: Record, rest: seq<Record>)
    requires AllValid([r] + rest) && Increasing([r] + rest)
    ensures r.valid && AllValid(rest) && Increasing(rest)
    ensures forall x :: x in rest ==> x.sequence >= r.sequence + 1
    ensures r in [r] + rest
  {
    var all := [r] + rest;
    assert all[0] == r;
    forall a | 0 <= a < |rest|
      ensures rest[a].sequence >= r.sequence + 1 && rest[a].valid
    {
      assert all[a + 1] == rest[a] && all[a + 1] in all;
    }
    forall a, b | 0 <= a < b < |rest|
      ensures rest[a].sequence < rest[b].sequence
    {
      assert all[a + 1] == rest[a] && all[b + 1] == rest[b];
    }
  }

  /** The bytes of the records that a run rejects as late. */
  ghost function LateBytes(s: State, ins: seq<Input>, p: Params): nat
    decreases |ins|
  {
    if ins == [] then 0
    else
      (if ins[0].Feed? && Taken(s, ins[0]) == [] then ins[0].rec.length else 0)
        + LateBytes(Step(s, ins[0], p).0, ins[1..], p)
  }

  lemma {:induction false} AcceptedOrLate(s: State, ins: seq<Input>, p: Params)
    ensures |RecordBytes(Accepted(s, ins, p))| + LateBytes(s, ins, p) == |RecordBytes(Feeds(ins))|
    ensures LateBytes(s, ins, p) == 0 ==> RecordBytes(Accepted(s, ins, p)) == RecordBytes(Feeds(ins))
    decreases |ins|
  {
    hide Step;
    if ins != [] {
      var s' := Step(s, ins[0], p).0;
      AcceptedOrLate(s', ins[1..], p);
      var head := if ins[0].Feed? then [ins[0].rec] else [];
      RecordBytesConcat(head, Feeds(ins[1..]));
      RecordBytesConcat(Taken(s, ins[0]), Accepted(s', ins[1..], p));
      if ins[0].Feed? {
        RecordBytesOfOne(ins[0].rec);
      }
    }
  }

  lemma RecordBytesOfOne(r: Record)
    ensures RecordBytes([r]) == Span(r.offset, r.length)
  {
    assert [r][1..] == [];
  }

  // ---------- which records are accepted ----------

  /** The inputs without the records that are rejected when their turn comes. */
  ghost function OnTime(s: State, ins: seq<Input>, p: Params): seq<Input>
    decreases |ins|
  {
    if ins == [] then []
    else
      (if ins[0].Feed? && Taken(s, ins[0]) == [] then [] else [ins[0]])
        + OnTime(Step(s, ins[0], p).0, ins[1..], p)
  }

  /** Late, duplicate and invalid records leave no trace: neither the clips nor the state would be
      different without them. */
  lemma {:induction false} RejectedRecordsLeaveNoTrace(s: State, ins: seq<Input>, p: Params)
    ensures Run(s, OnTime(s, ins, p), p) == Run(s, ins, p)
    ensures Clips(s, OnTime(s, ins, p), p) == Clips(s, ins, p)
    ensures Accepted(s, ins, p) == Feeds(OnTime(s, ins, p))
    decreases |ins|
  {
    hide Step;
    if ins != [] {
      var (s', o) := Step(s, ins[0], p);
      var rest := OnTime(s', ins[1..], p);
      RejectedRecordsLeaveNoTrace(s', ins[1..], p);
      RejectedStep(s, ins[0], p);
      if ins[0].Feed? && Taken(s, ins[0]) == [] {
        assert [] + rest == rest && o.Clips() + Clips(s', ins[1..], p) == Clips(s', ins[1..], p);
      } else {
        assert ([ins[0]] + rest)[1..] == rest;
      }
    }
  }

  lemma RejectedStep(s: State, i: Input, p: Params)
    ensures i.Feed? && Taken(s, i) == [] ==> Step(s, i, p).0 == s && Step(s, i, p).1.Clips() == []
  {
    hide AlignedTarget;
  }

  /** The sequence number exceeds those of all valid records. */
  ghost predicate Exceeds(n: nat, rs: seq<Record>) {
    forall r :: r in rs && r.valid ==> r.sequence < n
  }

  /** The valid records whose sequence number exceeds those of all valid records before them. */
  ghost function Maxima(rs: seq<Record>): seq<Record> {
    if rs == [] then []
    else
      var (front, r) := (rs[..|rs| - 1], rs[|rs| - 1]);
      Maxima(front) + (if r.valid && Exceeds(r.sequence, front) then [r] else [])
  }

  lemma {:induction false} NoResetConcat(s: State, a: seq<Input>, b: seq<Input>, p: Params)
    ensures NoReset(s, a + b, p) <==> NoReset(s, a, p) && NoReset(Run(s, a, p), b, p)
    decreases |a|
  {
    hide Step;
    if a == [] {
      assert a + b == b;
    } else {
      assert (a + b)[1..] == a[1..] + b;
      NoResetConcat(Step(s, a[0], p).0, a[1..], b, p);
    }
  }

  /** The expected number is one more than the largest so far. */
  ghost predicate ExpectsNext(s: State, rs: seq<Record>) {
    if s.active then
      Exceeds(s.expectedSeq, rs) && exists r :: r in rs && r.valid && r.sequence + 1 == s.expectedSeq
    else forall r :: r in rs ==> !r.valid
  }

  lemma FeedsOfOne(i: Input)
    ensures Feeds([i]) == if i.Feed? then [i.rec] else []
  {
    assert [i][1..] == [];
  }

  lemma StepExpectsNext(s: State, i: Input, p: Params, rs: seq<Record>)
    requires ExpectsNext(s, rs) && (!i.Feed? ==> Step(s, i, p).1 == Nothing)
    ensures ExpectsNext(Step(s, i, p).0, rs + Feeds([i]))
    ensures i.Feed? ==> (Taken(s, i) != [] <==> i.rec.valid && Exceeds(i.rec.sequence, rs))
  {
    hide Step;
    FeedsOfOne(i);
    StepExpects(s, i, p);
    var s' := Step(s, i, p).0;
    if i.Feed? && Taken(s, i) != [] {
      assert i.rec in rs + [i.rec];
    } else {
      assert s' == s;
      if s.active {
        var r :| r in rs && r.valid && r.sequence + 1 == s.expectedSeq;
        assert r in rs + Feeds([i]);
      }
    }
  }

  /** Between resets the machine accepts exactly the running maxima of what it is fed. */
  lemma {:induction false} AcceptedAreTheRunningMaxima(ins: seq<Input>, p: Params)
    requires NoReset(Idle(), ins, p)
    ensures Accepted(Idle(), ins, p) == Maxima(Feeds(ins))
    ensures ExpectsNext(Run(Idle(), ins, p), Feeds(ins))
  {
    hide Step, ExpectsNext, Exceeds;
    if ins == [] {
      IdleExpectsAnything();
    } else {
      var (front, i) := (ins[..|ins| - 1], ins[|ins| - 1]);
      var s := Run(Idle(), front, p);
      assert ins == front + [i];
      NoResetConcat(Idle(), front, [i], p);
      AcceptedAreTheRunningMaxima(front, p);
      RunConcat(Idle(), front, [i], p);
      RunOne(s, i, p);
      FeedsConcat(front, [i]);
      FeedsOfOne(i);
      assert [i][0] == i;
      StepExpectsNext(s, i, p, Feeds(front));
      var rs := Feeds(front);
      if i.Feed? {
        assert (rs + [i.rec])[..|rs|] == rs;
      } else {
        assert rs + [] == rs && Accepted(Idle(), front, p) + [] == Accepted(Idle(), front, p);
      }
    }
  }

  lemma IdleExpectsAnything()
    ensures ExpectsNext(Idle(), [])
  {
  }

  // ---------- exactly when no byte is lost ----------

  /** Every record with bytes has a larger sequence number than all records before it. */
  ghost predicate BytesAscend(rs: seq<Record>) {
    forall i, j :: 0 <= i < j < |rs| && rs[j].length > 0 ==> rs[i].sequence < rs[j].sequence
  }

  lemma AscendSnoc(rs: seq<Record>, r: Record)
    requires AllValid(rs + [r])
    ensures AllValid(rs)
    ensures BytesAscend(rs + [r]) <==> BytesAscend(rs) && (r.length > 0 ==> Exceeds(r.sequence, rs))
  {
    var all := rs + [r];
    forall i | 0 <= i < |rs|
      ensures rs[i] == all[i] && rs[i] in all
    {
    }
    if BytesAscend(all) {
      forall i, j | 0 <= i < j < |rs| && rs[j].length > 0
        ensures rs[i].sequence < rs[j].sequence
      {
        assert all[i] == rs[i] && all[j] == rs[j];
      }
      if r.length > 0 {
        forall x | x in rs
          ensures x.sequence < r.sequence
        {
          var i :| 0 <= i < |rs| && rs[i] == x;
          assert all[i] == x && all[|rs|] == r;
        }
      }
    }
  }

  lemma {:induction false} BytesOfMaxima(rs: seq<Record>)
    requires AllValid(rs)
    ensures |RecordBytes(Maxima(rs))| <= |RecordBytes(rs)|
    ensures |RecordBytes(Maxima(rs))| == |RecordBytes(rs)| <==> BytesAscend(rs)
  {
    hide BytesAscend, Exceeds;
    if rs == [] {
      NothingAscends();
    } else {
      var (front, r) := (rs[..|rs| - 1], rs[|rs| - 1]);
      assert rs == front + [r] && r in rs;
      AscendSnoc(front, r);
      BytesOfMaxima(front);
      RecordBytesConcat(front, [r]);
      RecordBytesOfOne(r);
      RecordBytesConcat(Maxima(front), [r]);
      assert Maxima(front) + [] == Maxima(front);
    }
  }

  lemma NothingAscends()
    ensures BytesAscend([])
  {
  }

  /** Ascending records lose no byte, wherever timeouts and flushes fall. */
  lemma {:induction false} AscendingLosesNothing(s: State, ins: seq<Input>, p: Params)
    requires AllValid(Feeds(ins)) && BytesAscend(Feeds(ins))
    requires s.active ==> forall r :: r in Feeds(ins) && r.length > 0 ==> r.sequence >= s.expectedSeq
    ensures LateBytes(s, ins, p) == 0
    decreases |ins|
  {
    hide Step, BytesAscend;
    if ins != [] {
      var (s', rest) := (Step(s, ins[0], p).0, Feeds(ins[1..]));
      StepMovesOn(s, ins[0], p);
      if ins[0].Feed? {
        assert Feeds(ins) == [ins[0].rec] + rest;
        AscendTail(ins[0].rec, rest);
      } else {
        assert Feeds(ins) == [] + rest == rest;
      }
      AscendingLosesNothing(s', ins[1..], p);
    }
  }

  lemma AscendTail(r: Record, rest: seq<Record>)
    requires AllValid([r] + rest) && BytesAscend([r] + rest)
    ensures r.valid && AllValid(rest) && BytesAscend(rest)
    ensures forall x :: x in rest && x.length > 0 ==> x.sequence >= r.sequence + 1
    ensures r in [r] + rest && forall x :: x in rest ==> x in [r] + rest
  {
    var all := [r] + rest;
    assert all[0] == r;
    forall a | 0 <= a < |rest|
      ensures rest[a].valid && (rest[a].length > 0 ==> rest[a].sequence >= r.sequence + 1)
    {
      assert all[a + 1] == rest[a] && all[a + 1] in all;
    }
    forall a, b | 0 <= a < b < |rest| && rest[b].length > 0
      ensures rest[a].sequence < rest[b].sequence
    {
      assert all[a + 1] == rest[a] && all[b + 1] == rest[b];
    }
  }

  /** In a run without resets no byte is lost if and only if the records ascend. */
  lemma WithoutResetsNothingIsLostExactly(ins: seq<Input>, p: Params)
    requires AllValid(Feeds(ins)) && NoReset(Idle(), ins, p)
    ensures LateBytes(Idle(), ins, p) == 0 <==> BytesAscend(Feeds(ins))
  {
    AcceptedAreTheRunningMaxima(ins, p);
    AcceptedOrLate(Idle(), ins, p);
    BytesOfMaxima(Feeds(ins));
  }

  /** Records one after the other, with nothing in between. */
  ghost function Straight(rs: seq<Record>): seq<Input> {
    if rs == [] then [] else Straight(rs[..|rs| - 1]) + [Feed(rs[|rs| - 1], 0)]
  }

  lemma {:induction false} StraightFeeds(rs: seq<Record>, p: Params)
    ensures Feeds(Straight(rs)) == rs && NoReset(Idle(), Straight(rs), p)
  {
    hide Step;
    if rs != [] {
      var (front, i) := (rs[..|rs| - 1], Feed(rs[|rs| - 1], 0));
      StraightFeeds(front, p);
      FeedsConcat(Straight(front), [i]);
      FeedsOfOne(i);
      NoResetConcat(Idle(), Straight(front), [i], p);
      assert [i][1..] == [];
      assert rs == front + [i.rec];
    }
  }

  /** Whatever the timeouts and flushes, no run over these records loses a byte: this holds if and
      only if every record with bytes has a larger sequence number than all before it. */
  lemma NoRunLosesBytesExactly(rs: seq<Record>, p: Params)
    requires AllValid(rs)
    ensures (forall ins :: Feeds(ins) == rs ==> LateBytes(Idle(), ins, p) == 0) <==> BytesAscend(rs)
  {
    hide LateBytes, BytesAscend;
    if BytesAscend(rs) {
      forall ins | Feeds(ins) == rs
        ensures LateBytes(Idle(), ins, p) == 0
      {
        AscendingLosesNothing(Idle(), ins, p);
      }
    } else {
      StraightFeeds(rs, p);
      WithoutResetsNothingIsLostExactly(Straight(rs), p);
    }
  }

  // ---------- exactly when no duplicate gets through ----------

  /** Across an idle reset the expected sequence number is forgotten: the same chunk is taken twice. */
  lemma DuplicateIsAcceptedAfterIdleReset(p: Params)
    ensures exists r: Record, ins ::
      ins == [Feed(r, 0), Tick(p.idleMs), Feed(r, 0)] && Accepted(Idle(), ins, p) == [r, r]
  {
    var r := Record(1, 0, 1, 0, false, 0, 0, [], true);
    var ins := [Feed(r, 0), Tick(p.idleMs), Feed(r, 0)];
    var s1 := Step(Idle(), ins[0], p).0;
    assert s1 == StartClip(r, 0);
    assert Step(s1, ins[1], p).0 == Idle();
    RunConcat(Idle(), [ins[0]] + [ins[1]], [ins[2]], p);
    RunConcat(Idle(), [ins[0]], [ins[1]], p);
    RunOne(Idle(), ins[0], p);
    RunOne(s1, ins[1], p);
    RunOne(Idle(), ins[2], p);
    assert ins == [ins[0]] + [ins[1]] + [ins[2]];
  }

  /** Each record followed by a final flush, which resets the machine. */
  ghost function Interrupted(rs: seq<Record>): seq<Input> {
    if rs == [] then [] else Interrupted(rs[..|rs| - 1]) + [Feed(rs[|rs| - 1], 0), Finish]
  }

  /** A window opened by the record keeps bytes after its own first cut, so that a flush resets
      the machine. */
  predicate LeavesBytes(r: Record, p: Params) {
    r.valid && Cut(StartClip(r, 0), p.clipMs).0.totalLength > 0
  }

  ghost predicate LeaveBytes(rs: seq<Record>, p: Params) {
    forall r :: r in rs ==> LeavesBytes(r, p)
  }

  lemma FeedAndFinish(r: Record, p: Params)
    requires LeavesBytes(r, p)
    ensures Run(Idle(), [Feed(r, 0), Finish], p) == Idle()
    ensures Accepted(Idle(), [Feed(r, 0), Finish], p) == [r]
    ensures Feeds([Feed(r, 0), Finish]) == [r]
    ensures !r.continuous ==> Clips(Idle(), [Feed(r, 0), Finish], p) == [Snapshot(StartClip(r, 0))]
  {
    hide AlignedTarget;
    var (a, b) := (Feed(r, 0), Finish);
    var s := Cut(StartClip(r, 0), p.clipMs).0;
    assert Step(Idle(), a, p).0 == s && Step(s, b, p).0 == Idle();
    assert [a, b] == [a] + [b];
    RunConcat(Idle(), [a], [b], p);
    RunOne(Idle(), a, p);
    RunOne(s, b, p);
    FeedsConcat([a], [b]);
    FeedsOfOne(a);
    FeedsOfOne(b);
  }

  lemma {:induction false} InterruptedAcceptsAll(rs: seq<Record>, p: Params)
    requires LeaveBytes(rs, p)
    ensures Feeds(Interrupted(rs)) == rs
    ensures Run(Idle(), Interrupted(rs), p) == Idle()
    ensures Accepted(Idle(), Interrupted(rs), p) == rs
  {
    hide Step, LeavesBytes;
    if rs != [] {
      var (front, r) := (rs[..|rs| - 1], rs[|rs| - 1]);
      assert rs == front + [r] && r in rs;
      InterruptedAcceptsAll(front, p);
      FeedAndFinish(r, p);
      RunConcat(Idle(), Interrupted(front), [Feed(r, 0), Finish], p);
      FeedsConcat(Interrupted(front), [Feed(r, 0), Finish]);
    }
  }

  /** Accepted sequence numbers strictly increase in every run over these records if and only if
      the records' own numbers do: a reset between two others lets the second one through. */
  lemma NoDuplicateExactly(rs: seq<Record>, p: Params)
    requires LeaveBytes(rs, p)
    ensures (forall ins :: Feeds(ins) == rs ==> Increasing(Accepted(Idle(), ins, p))) <==> Increasing(rs)
  {
    hide Increasing, Accepted, AlignedTarget, Cut;
    assert AllValid(rs);
    if Increasing(rs) {
      forall ins | Feeds(ins) == rs
        ensures Increasing(Accepted(Idle(), ins, p))
      {
        IncreasingFeedsAreAccepted(Idle(), ins, p);
      }
    } else {
      InterruptedAcceptsAll(rs, p);
    }
  }

  // ---------- exactly when no clip is empty ----------

  /** What a record looks like apart from its place, its time and its tags. */
  datatype Shape = Shape(length: nat, continuous: bool, byteRate: nat, frameAlign: nat)
  {
    function Align(): nat { if frameAlign == 0 then 1 else frameAlign }
  }

  function ShapeOf(r: Record): Shape {
    Shape(r.length, r.continuous, r.byteRate, r.frameAlign)
  }

  /** Records of the two shapes can share a continuous window. */
  predicate Joinable(a: Shape, b: Shape) {
    a.continuous && b.continuous && a.byteRate == b.byteRate && a.Align() == b.Align()
  }

  /** Records of this shape can leave a window without bytes: they have none, or cutting can
      take all of them. */
  predicate CanDrain(a: Shape, clipMs: int) {
    a.length == 0 || (a.continuous && a.length <= AlignedTarget(clipMs, a.byteRate, a.Align()))
  }

  ghost predicate FromShapes(ins: seq<Input>, shapes: iset<Shape>) {
    forall i :: i in ins && i.Feed? && i.rec.valid ==> ShapeOf(i.rec) in shapes
  }

  ghost predicate NoEmptyClip(cs: seq<Clip>) {
    forall c :: c in cs ==> c.totalLength > 0
  }

  /** A window can be drained and then meet a record that cannot be joined to it. */
  ghost predicate Risky(shapes: iset<Shape>, clipMs: int) {
    exists a, b :: a in shapes && b in shapes && CanDrain(a, clipMs) && !Joinable(a, b)
  }

  predicate Joins(s: State, b: Shape) {
    s.continuous && b.continuous && s.byteRate == b.byteRate && s.frameAlign == b.Align()
  }

  /** The window has bytes, or every record that may come can be joined to it. */
  ghost predicate Filled(s: State, shapes: iset<Shape>) {
    s.active && s.totalLength == 0 ==> forall b :: b in shapes ==> Joins(s, b)
  }

  lemma CutStaysFilled(s: State, clipMs: int, last: Shape, shapes: iset<Shape>)
    requires s.active && !Risky(shapes, clipMs) && last in shapes
    requires Joins(s, last) || (!s.continuous && s.totalLength > 0)
    requires s.totalLength >= last.length
    requires forall b :: b in shapes && !Joins(s, b) ==> s.totalLength > 0
    ensures Filled(Cut(s, clipMs).0, shapes)
    ensures NoEmptyClip(Cut(s, clipMs).1.Clips())
  {
    hide AlignedTarget;
    var s' := Cut(s, clipMs).0;
    forall b | b in shapes && !Joins(s', b)
      ensures s'.totalLength > 0
    {
      if s.continuous {
        assert !Joinable(last, b);
        assert !CanDrain(last, clipMs);
      }
    }
  }

  lemma StartStaysFilled(r: Record, nowMs: int, clipMs: int, shapes: iset<Shape>)
    requires !Risky(shapes, clipMs) && ShapeOf(r) in shapes
    ensures Filled(StartClip(r, nowMs), shapes)
    ensures Filled(Cut(StartClip(r, nowMs), clipMs).0, shapes)
    ensures NoEmptyClip(Cut(StartClip(r, nowMs), clipMs).1.Clips())
  {
    hide AlignedTarget, Cut;
    var (s, a) := (StartClip(r, nowMs), ShapeOf(r));
    forall b | b in shapes && !Joins(s, b)
      ensures s.totalLength > 0
    {
      assert !Joinable(a, b);
      assert !CanDrain(a, clipMs);
    }
    assert !a.continuous ==> !Joins(s, a);
    CutStaysFilled(s, clipMs, a, shapes);
  }

  lemma StepStaysFilled(s: State, i: Input, p: Params, shapes: iset<Shape>)
    requires !Risky(shapes, p.clipMs) && Filled(s, shapes) && FromShapes([i], shapes)
    ensures Filled(Step(s, i, p).0, shapes)
    ensures NoEmptyClip(Step(s, i, p).1.Clips())
  {
    hide AlignedTarget, Cut, Risky;
    assert i in [i];
    if i.Feed? && Taken(s, i) != [] {
      var r := i.rec;
      StartStaysFilled(r, i.nowMs, p.clipMs, shapes);
      if s.active && !IsGap(s, r) && Compatible(s, r) {
        CutStaysFilled(AppendRecord(s, r, i.nowMs), p.clipMs, ShapeOf(r), shapes);
      } else if s.active && !IsGap(s, r) {
        assert !Joins(s, ShapeOf(r));
      }
    }
  }

  lemma {:induction false} RunStaysFilled(s: State, ins: seq<Input>, p: Params, shapes: iset<Shape>)
    requires !Risky(shapes, p.clipMs) && Filled(s, shapes) && FromShapes(ins, shapes)
    ensures NoEmptyClip(Clips(s, ins, p))
    decreases |ins|
  {
    hide Step, Risky, Filled;
    if ins != [] {
      assert ins[0] in ins;
      StepStaysFilled(s, ins[0], p, shapes);
      RunStaysFilled(Step(s, ins[0], p).0, ins[1..], p, shapes);
    }
  }

  // ---------- a run that drains its window ----------

  /** The window is empty, and a record of shape a has just been folded into it. */
  ghost predicate Drained(s: State, a: Shape) {
    && s.active && s.totalLength == 0
    && (s.continuous <==> a.continuous) && s.byteRate == a.byteRate && s.frameAlign == a.Align()
  }

  lemma EmptyBoundary(s: State, a: Shape, b: Shape, p: Params) returns (i: Input)
    requires Drained(s, a) && !Joinable(a, b)
    ensures FromShapes([i], iset{b})
    ensures Step(s, i, p).1.Emits() && Step(s, i, p).1.clip.totalLength == 0
  {
    hide AlignedTarget;
    var ts := s.startTsMs + (if p.clipMs > 0 then p.clipMs else 0);
    var r := Record(s.expectedSeq, s.expectedOffset, b.length, ts, b.continuous, b.byteRate, b.frameAlign, [], true);
    i := Feed(r, 0);
  }

  /** After n pieces no longer than the target, what is left is the rest of n lengths by the target. */
  lemma {:induction false} PiecesLeave(n: nat, a: Shape, p: Params) returns (cuts: nat)
    requires n > 0 && a.continuous && 0 < a.length <= AlignedTarget(p.clipMs, a.byteRate, a.Align())
    ensures var (s, target) := (Run(Idle(), Pieces(n, a.length, a.byteRate, a.frameAlign), p),
                                AlignedTarget(p.clipMs, a.byteRate, a.Align()));
      && s.active && s.continuous && s.byteRate == a.byteRate && s.frameAlign == a.Align()
      && s.expectedSeq == n && s.expectedOffset == n * a.length
      && s.totalLength == n * a.length - cuts * target && s.totalLength < target
  {
    hide AlignedTarget;
    var (before, i) := (Pieces(n - 1, a.length, a.byteRate, a.frameAlign),
                        Piece(n - 1, a.length, a.byteRate, a.frameAlign));
    var (s, target) := (Run(Idle(), before, p), AlignedTarget(p.clipMs, a.byteRate, a.Align()));
    RunConcat(Idle(), before, [i], p);
    RunOne(s, i, p);
    cuts := 0;
    if n > 1 {
      cuts := PiecesLeave(n - 1, a, p);
    }
    OneMore(n - 1, a.length);
    if Step(s, i, p).1.Emits() {
      OneMore(cuts, target);
      cuts := cuts + 1;
    }
  }

  lemma NoRestLeft(target: nat, length: nat, cuts: nat)
    requires 0 <= target * length - cuts * target < target
    ensures target * length - cuts * target == 0
  {
    assert target * length - cuts * target == target * (length - cuts);
    if length > cuts {
      MulMonotone(target, 1, length - cuts);
    }
  }

  lemma {:induction false} PiecesHaveShape(n: nat, a: Shape)
    requires a.continuous
    ensures FromShapes(Pieces(n, a.length, a.byteRate, a.frameAlign), iset{a})
  {
    if n > 0 {
      PiecesHaveShape(n - 1, a);
    }
  }

  lemma DrainingRun(a: Shape, p: Params) returns (ins: seq<Input>)
    requires CanDrain(a, p.clipMs)
    ensures FromShapes(ins, iset{a}) && Drained(Run(Idle(), ins, p), a)
  {
    hide AlignedTarget;
    if a.length == 0 {
      var i := Feed(Record(0, 0, 0, 0, a.continuous, a.byteRate, a.frameAlign, [], true), 0);
      ins := [i];
      RunOne(Idle(), i, p);
    } else {
      var target := AlignedTarget(p.clipMs, a.byteRate, a.Align());
      ins := Pieces(target, a.length, a.byteRate, a.frameAlign);
      PiecesHaveShape(target, a);
      var cuts := PiecesLeave(target, a, p);
      NoRestLeft(target, a.length, cuts);
    }
  }

  lemma EmptyClipRun(a: Shape, b: Shape, p: Params) returns (ins: seq<Input>)
    requires CanDrain(a, p.clipMs) && !Joinable(a, b)
    ensures FromShapes(ins, iset{a, b}) && !NoEmptyClip(Clips(Idle(), ins, p))
  {
    hide Step, CanDrain, Joinable;
    var before := DrainingRun(a, p);
    var s := Run(Idle(), before, p);
    var i := EmptyBoundary(s, a, b, p);
    ins := before + [i];
    RunConcat(Idle(), before, [i], p);
    RunOne(s, i, p);
    assert i in [i];
    assert Step(s, i, p).1.clip in Clips(Idle(), ins, p);
  }

  /** No run over records of the given shapes emits a clip without bytes if and only if no window
      of theirs can be drained and then meet a record that cannot be joined to it. */
  lemma NoEmptyClipExactly(shapes: iset<Shape>, p: Params)
    ensures (forall ins :: FromShapes(ins, shapes) ==> NoEmptyClip(Clips(Idle(), ins, p)))
       <==> !Risky(shapes, p.clipMs)
  {
    hide NoEmptyClip, Clips, CanDrain, Joinable;
    if Risky(shapes, p.clipMs) {
      var a, b :| a in shapes && b in shapes && CanDrain(a, p.clipMs) && !Joinable(a, b);
      var ins := EmptyClipRun(a, b, p);
      assert FromShapes(ins, shapes);
    } else {
      forall ins | FromShapes(ins, shapes)
        ensures NoEmptyClip(Clips(Idle(), ins, p))
      {
        RunStaysFilled(Idle(), ins, p, shapes);
      }
    }
  }

  /** The smallest case: a record without bytes, then one at the time boundary. */
  lemma EmptyClipIsEmitted()
    ensures var (a, b) := (Record(1, 0, 0, 0, false, 0, 0, [], true), Record(2, 0, 1, 10, false, 0, 0, [], true));
      var cs := Clips(Idle(), [Feed(a, 0), Feed(b, 0)], Params(10, 0));
      |cs| == 1 && cs[0].totalLength == 0
  {
    var (a, b) := (Record(1, 0, 0, 0, false, 0, 0, [], true), Record(2, 0, 1, 10, false, 0, 0, [], true));
    var p := Params(10, 0);
    var s := StartClip(a, 0);
    assert Step(Idle(), Feed(a, 0), p) == (s, Nothing);
    assert Step(s, Feed(b, 0), p).1 == EmitComplete(Snapshot(s));
    assert [Feed(a, 0), Feed(b, 0)] == [Feed(a, 0)] + [Feed(b, 0)];
    RunConcat(Idle(), [Feed(a, 0)], [Feed(b, 0)], p);
    RunOne(Idle(), Feed(a, 0), p);
    RunOne(s, Feed(b, 0), p);
    assert Clips(Idle(), [Feed(a, 0), Feed(b, 0)], p) == [Snapshot(s)];
  }
}
