/** What each clip of a run is made of: the records folded into it, their times, their bytes, and
    whether the clip was broken off. */
module ClipWindows {
  import opened Machine
  import opened ClipFsm
  import opened ClipRuns
  import opened ClipLimits

  // ---------- when a clip ends ----------

  function LastTs(w: seq<Record>, startTsMs: int): int {
    if w == [] then startTsMs else w[|w| - 1].tsMs
  }

  /** A clip that is not cut by bytes ends at the time of the last record folded into it. */
  ghost predicate EndsWithItsRecords(c: Clip, w: seq<Record>) {
    c.boundary == Metadata ==> c.endTsMs == LastTs(w, c.startTsMs)
  }

  ghost predicate AllEndWithTheirRecords(cs: seq<Clip>, ws: seq<seq<Record>>) {
    |cs| == |ws| && forall k :: 0 <= k < |cs| ==> EndsWithItsRecords(cs[k], ws[k])
  }

  ghost predicate EndIsCurrent(s: State, open: seq<Record>) {
    s.active ==> s.boundary == Metadata && s.endTsMs == LastTs(open, s.startTsMs)
  }

  lemma StepEnds(s: State, open: seq<Record>, i: Input, p: Params)
    requires EndIsCurrent(s, open)
    ensures var ((s', o), (closed, open')) := (Step(s, i, p), Fold(s, open, i, p));
      EndIsCurrent(s', open') && AllEndWithTheirRecords(o.Clips(), closed)
  {
    hide AlignedTarget;
  }

  /** In every run, continuous records or not, a clip that is not cut by bytes ends at the time of
      the last record folded into it, or at its start if there was none since the last cut. */
  lemma {:induction false} ClipsEndWithTheirRecords(s: State, open: seq<Record>, ins: seq<Input>, p: Params)
    requires EndIsCurrent(s, open)
    ensures AllEndWithTheirRecords(Clips(s, ins, p), Windows(s, open, ins, p))
    decreases |ins|
  {
    hide Step, Fold, EndIsCurrent, EndsWithItsRecords;
    if ins != [] {
      StepEnds(s, open, ins[0], p);
      ClipsEndWithTheirRecords(Step(s, ins[0], p).0, Fold(s, open, ins[0], p).1, ins[1..], p);
    }
  }

  // ---------- without continuous records ----------

  /** The clip is its window: times and bytes from the first record to the last. */
  ghost predicate IsItsWindow(c: Clip, w: seq<Record>) {
    && w != []
    && c.startTsMs == w[0].tsMs && c.endTsMs == w[|w| - 1].tsMs
    && c.startOffset == w[0].offset && c.startOffset + c.totalLength == w[|w| - 1].End()
    && Span(c.startOffset, c.totalLength) == RecordBytes(w)
  }

  ghost predicate AreTheirWindows(cs: seq<Clip>, ws: seq<seq<Record>>) {
    |cs| == |ws| && forall k :: 0 <= k < |cs| ==> IsItsWindow(cs[k], ws[k])
  }

  /** The open window is not continuous and holds exactly the records since its start. */
  ghost predicate Holds(s: State, open: seq<Record>) {
    s.active ==>
      && !s.continuous && s.expectedOffset == s.startOffset + s.totalLength
      && IsItsWindow(Snapshot(s), open)
  }

  lemma WindowOfOne(r: Record, nowMs: int)
    requires !r.continuous
    ensures Holds(StartClip(r, nowMs), [r])
  {
    RecordBytesOfOne(r);
  }

  lemma WindowGrows(s: State, open: seq<Record>, r: Record, nowMs: int)
    requires s.active && Holds(s, open) && r.offset == s.expectedOffset
    ensures Holds(AppendRecord(s, r, nowMs), open + [r])
  {
    RecordBytesConcat(open, [r]);
    RecordBytesOfOne(r);
    SpanSplit(s.startOffset, s.totalLength, r.length);
  }

  lemma StepHolds(s: State, open: seq<Record>, i: Input, p: Params)
    requires Holds(s, open) && (i.Feed? ==> !i.rec.continuous)
    ensures var ((s', o), (closed, open')) := (Step(s, i, p), Fold(s, open, i, p));
      Holds(s', open') && AreTheirWindows(o.Clips(), closed)
  {
    hide AlignedTarget, IsItsWindow;
    if Taken(s, i) != [] {
      if Continues(s, i.rec, p.clipMs) {
        WindowGrows(s, open, i.rec, i.nowMs);
      } else {
        WindowOfOne(i.rec, i.nowMs);
      }
    }
  }

  /** In every run without continuous records each clip is exactly the records folded into it: it
      starts at the time and place of the first and ends at the time and place of the last. */
  lemma {:induction false} ClipsAreTheirWindows(s: State, open: seq<Record>, ins: seq<Input>, p: Params)
    requires Holds(s, open) && forall r :: r in Feeds(ins) ==> !r.continuous
    ensures AreTheirWindows(Clips(s, ins, p), Windows(s, open, ins, p))
    decreases |ins|
  {
    hide Step, Fold, Holds, IsItsWindow;
    if ins != [] {
      FeedsFront(ins);
      StepHolds(s, open, ins[0], p);
      ClipsAreTheirWindows(Step(s, ins[0], p).0, Fold(s, open, ins[0], p).1, ins[1..], p);
    }
  }

  lemma FeedsFront(ins: seq<Input>)
    requires ins != []
    ensures ins[0].Feed? ==> ins[0].rec in Feeds(ins)
    ensures forall r :: r in Feeds(ins[1..]) ==> r in Feeds(ins)
  {
  }

  // ---------- the windows divide the accepted records ----------

  /** The records of the window that is open at the end of a run. */
  ghost function StillOpen(s: State, open: seq<Record>, ins: seq<Input>, p: Params): seq<Record>
    decreases |ins|
  {
    if ins == [] then open
    else StillOpen(Step(s, ins[0], p).0, Fold(s, open, ins[0], p).1, ins[1..], p)
  }

  ghost predicate NothingOpenIsLost(s: State, open: seq<Record>) {
    if s.active then !s.continuous && s.totalLength > 0 else open == []
  }

  lemma StepDivides(s: State, open: seq<Record>, i: Input, p: Params)
    requires NothingOpenIsLost(s, open)
    requires i.Feed? && i.rec.valid ==> i.rec.length > 0 && !i.rec.continuous
    ensures var ((s', _), (closed, open')) := (Step(s, i, p), Fold(s, open, i, p));
      NothingOpenIsLost(s', open') && Flatten(closed) + open' == open + Taken(s, i)
  {
    hide AlignedTarget;
    var closed := Fold(s, open, i, p).0;
    if closed != [] {
      assert closed == [closed[0]] && closed[1..] == [];
      assert Flatten(closed) == closed[0] + Flatten(closed[1..]) == closed[0];
    }
  }

  /** For records with bytes and without continuity fields: the windows of the clips, in order,
      followed by the open one, are exactly the accepted records. */
  lemma {:induction false} WindowsDivideTheRecords(s: State, open: seq<Record>, ins: seq<Input>, p: Params)
    requires NothingOpenIsLost(s, open)
    requires forall r :: r in Feeds(ins) && r.valid ==> r.length > 0 && !r.continuous
    ensures Flatten(Windows(s, open, ins, p)) + StillOpen(s, open, ins, p) == open + Accepted(s, ins, p)
    decreases |ins|
  {
    hide Step, Fold, NothingOpenIsLost, Taken;
    if ins != [] {
      var s' := Step(s, ins[0], p).0;
      var (closed, open') := Fold(s, open, ins[0], p);
      FeedsFront(ins);
      StepDivides(s, open, ins[0], p);
      WindowsDivideTheRecords(s', open', ins[1..], p);
      FlattenConcat(closed, Windows(s', open', ins[1..], p));
      Telescope(open, open', StillOpen(s, open, ins, p), Flatten(closed), Flatten(Windows(s', open', ins[1..], p)),
                Taken(s, ins[0]), Accepted(s', ins[1..], p));
    }
  }

  // ---------- complete and broken-off clips ----------

  /** The record does not follow the one before it without a gap. */
  predicate Jumps(before: Record, r: Record) {
    r.sequence != before.sequence + 1 || r.offset != before.End()
  }

  /** The open window ends with the record `last`. */
  ghost predicate EndsWith(s: State, last: Record) {
    s.active ==> s.expectedSeq == last.sequence + 1 && s.expectedOffset == last.End()
  }

  /** The input breaks off a window that has bytes: an idle check, or a record that jumps. */
  ghost predicate Breaks(s: State, last: Record, i: Input) {
    Pending(s) != [] && (i.Tick? || (i.Feed? && Jumps(last, i.rec)))
  }

  function LastTaken(taken: seq<Record>, last: Record): Record {
    if taken == [] then last else taken[|taken| - 1]
  }

  /** For every clip of a run, whether its window was not broken off. */
  ghost function Unbroken(s: State, last: Record, ins: seq<Input>, p: Params): seq<bool>
    decreases |ins|
  {
    if ins == [] then []
    else
      (if Step(s, ins[0], p).1.Clips() == [] then [] else [!Breaks(s, last, ins[0])])
        + Unbroken(Step(s, ins[0], p).0, LastTaken(Taken(s, ins[0]), last), ins[1..], p)
  }

  /** For every clip of a run, whether the machine calls it complete. */
  ghost function Completeness(s: State, ins: seq<Input>, p: Params): seq<bool>
    decreases |ins|
  {
    if ins == [] then []
    else
      (if Step(s, ins[0], p).1.Clips() == [] then [] else [Step(s, ins[0], p).1.EmitComplete?])
        + Completeness(Step(s, ins[0], p).0, ins[1..], p)
  }

  lemma StepIsComplete(s: State, last: Record, i: Input, p: Params)
    requires EndsWith(s, last)
    ensures EndsWith(Step(s, i, p).0, LastTaken(Taken(s, i), last))
    ensures Step(s, i, p).1.Clips() != [] ==> (Step(s, i, p).1.EmitComplete? <==> !Breaks(s, last, i))
  {
    hide AlignedTarget;
  }

  /** In every run, a clip is called complete if and only if its window was not broken off by a gap,
      an offset jump or an idle timeout. */
  lemma {:induction false} CompleteMeansUnbroken(s: State, last: Record, ins: seq<Input>, p: Params)
    requires EndsWith(s, last)
    ensures Completeness(s, ins, p) == Unbroken(s, last, ins, p)
    decreases |ins|
  {
    hide Step, EndsWith, Breaks;
    if ins != [] {
      StepIsComplete(s, last, ins[0], p);
      CompleteMeansUnbroken(Step(s, ins[0], p).0, LastTaken(Taken(s, ins[0]), last), ins[1..], p);
    }
  }

  /** Without a gap, an offset jump or a timeout nothing is broken off. */
  lemma {:induction false} LinkedRunsAreUnbroken(s: State, last: Record, ins: seq<Input>, p: Params)
    requires EndsWith(s, last) && NoTickEmits(s, ins, p)
    requires AllValid(Feeds(ins)) && Linked((if s.active then [last] else []) + Feeds(ins))
    ensures forall x :: x in Unbroken(s, last, ins, p) ==> x
    decreases |ins|
  {
    hide Step, EndsWith, AllValid;
    if ins != [] {
      var (s', i) := (Step(s, ins[0], p).0, ins[0]);
      StepIsComplete(s, last, i, p);
      FirstIsTaken(s, last, ins, p);
      LinkedRunsAreUnbroken(s', LastTaken(Taken(s, i), last), ins[1..], p);
    }
  }

  /** No idle check of the run cuts a clip. */
  ghost predicate NoTickEmits(s: State, ins: seq<Input>, p: Params)
    decreases |ins|
  {
    ins == [] ||
    ((ins[0].Tick? ==> Step(s, ins[0], p).1.Clips() == []) && NoTickEmits(Step(s, ins[0], p).0, ins[1..], p))
  }

  lemma FirstIsTaken(s: State, last: Record, ins: seq<Input>, p: Params)
    requires ins != [] && EndsWith(s, last) && AllValid(Feeds(ins))
    requires Linked((if s.active then [last] else []) + Feeds(ins))
    ensures var (s', last') := (Step(s, ins[0], p).0, LastTaken(Taken(s, ins[0]), last));
      && AllValid(Feeds(ins[1..])) && Linked((if s'.active then [last'] else []) + Feeds(ins[1..]))
    ensures ins[0].Feed? ==> !Breaks(s, last, ins[0])
  {
    hide Step, EndsWith, Taken, Linked, Breaks;
    var (i, rest) := (ins[0], Feeds(ins[1..]));
    var head := if i.Feed? then [i.rec] else [];
    assert Feeds(ins) == head + rest;
    FedAreValid(head, rest);
    LinkedWithoutFirst(last, head, rest, s.active);
    if i.Feed? {
      FollowerIsTaken(s, last, i, p);
    } else {
      OtherStepsTakeNothing(s, i, p);
    }
  }

  lemma FedAreValid(head: seq<Record>, rest: seq<Record>)
    requires AllValid(head + rest)
    ensures AllValid(head) && AllValid(rest) && (head != [] ==> head[0].valid)
  {
    assert forall r :: r in head || r in rest ==> r in head + rest;
    assert head != [] ==> head[0] in head;
  }

  lemma LinkedWithoutFirst(last: Record, head: seq<Record>, rest: seq<Record>, active: bool)
    requires |head| <= 1 && Linked((if active then [last] else []) + (head + rest))
    ensures Linked(rest) && Linked(head + rest)
    ensures head == [] && active ==> Linked([last] + rest)
    ensures active && head != [] ==> !Jumps(last, head[0])
  {
    hide Linked;
    var fed := head + rest;
    if active {
      var all := [last] + fed;
      LinkedTail(all);
      assert all[1..] == fed;
      assert head != [] ==> all[0] == last && all[1] == head[0];
    } else {
      assert [] + fed == fed;
    }
    if head == [] {
      assert fed == rest;
    } else {
      LinkedTail(fed);
      assert fed[1..] == rest;
    }
  }

  lemma FollowerIsTaken(s: State, last: Record, i: Input, p: Params)
    requires EndsWith(s, last) && i.Feed? && i.rec.valid && (s.active ==> !Jumps(last, i.rec))
    ensures Taken(s, i) == [i.rec] && Step(s, i, p).0.active && !Breaks(s, last, i)
  {
    hide AlignedTarget;
  }

  lemma OtherStepsTakeNothing(s: State, i: Input, p: Params)
    requires !i.Feed?
    ensures Taken(s, i) == [] && (Step(s, i, p).0.active ==> s.active)
  {
  }

  lemma LinkedTail(rs: seq<Record>)
    requires rs != [] && Linked(rs)
    ensures Linked(rs[1..])
    ensures |rs| > 1 ==> rs[1].sequence == rs[0].sequence + 1 && rs[1].offset == rs[0].End()
  {
    forall k {:trigger rs[1..][k]} | 0 < k < |rs[1..]|
      ensures rs[1..][k].sequence == rs[1..][k - 1].sequence + 1 && rs[1..][k].offset == rs[1..][k - 1].End()
    {
      assert rs[1..][k] == rs[k + 1] && rs[1..][k - 1] == rs[k];
    }
    if |rs| > 1 {
      assert rs[1] == rs[1..][0];
    }
  }
}
