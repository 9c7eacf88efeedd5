/** What the clip state machine guarantees over whole runs: any interleaving of records,
    idle checks and final flushes. */
module ClipRuns {
  import opened Machine
  import opened ClipFsm
  import Events

  datatype Input = Feed(rec: Record, nowMs: int) | Tick(nowMs: int) | Finish

  datatype Params = Params(clipMs: int, idleMs: int)

  ghost function Step(s: State, i: Input, p: Params): (State, Outcome) {
    match i
    case Feed(r, now) => Process(s, r, p.clipMs, now)
    case Tick(now) => CheckIdle(s, p.idleMs, now)
    case Finish => FlushFinal(s)
  }

  ghost function Run(s: State, ins: seq<Input>, p: Params): State
    decreases |ins|
  {
    if ins == [] then s else Run(Step(s, ins[0], p).0, ins[1..], p)
  }

  /** The clips a run emits, in order. */
  ghost function Clips(s: State, ins: seq<Input>, p: Params): seq<Clip>
    decreases |ins|
  {
    if ins == [] then []
    else Step(s, ins[0], p).1.Clips() + Clips(Step(s, ins[0], p).0, ins[1..], p)
  }

  /** The record an input contributes: a valid one that is not behind the expected sequence number. */
  ghost function Taken(s: State, i: Input): seq<Record> {
    if i.Feed? && i.rec.valid && !(s.active && i.rec.sequence < s.expectedSeq) then [i.rec] else []
  }

  /** The records of a run that were not rejected, in order. */
  ghost function Accepted(s: State, ins: seq<Input>, p: Params): seq<Record>
    decreases |ins|
  {
    if ins == [] then []
    else Taken(s, ins[0]) + Accepted(Step(s, ins[0], p).0, ins[1..], p)
  }

  lemma {:induction false} RunConcat(s: State, a: seq<Input>, b: seq<Input>, p: Params)
    ensures Run(s, a + b, p) == Run(Run(s, a, p), b, p)
    ensures Clips(s, a + b, p) == Clips(s, a, p) + Clips(Run(s, a, p), b, p)
    ensures Accepted(s, a + b, p) == Accepted(s, a, p) + Accepted(Run(s, a, p), b, p)
    decreases |a|
  {
    if a == [] {
      assert a + b == b;
    } else {
      assert (a + b)[1..] == a[1..] + b;
      RunConcat(Step(s, a[0], p).0, a[1..], b, p);
    }
  }

  lemma RunOne(s: State, i: Input, p: Params)
    ensures Run(s, [i], p) == Step(s, i, p).0
    ensures Clips(s, [i], p) == Step(s, i, p).1.Clips()
    ensures Accepted(s, [i], p) == Taken(s, i)
  {
    var rest := [i][1..];
    assert rest == [];
    var s' := Step(s, i, p).0;
    assert Clips(s', rest, p) == [] && Accepted(s', rest, p) == [] && Run(s', rest, p) == s';
  }

  // ---------- conservation of bytes ----------

  /** An accepted record is appended to the open window instead of starting a new one. */
  ghost predicate Continues(s: State, r: Record, clipMs: int) {
    s.active && !IsGap(s, r) && (Compatible(s, r) || r.tsMs - s.startTsMs < clipMs)
  }

  ghost function ClipBytes(cs: seq<Clip>): seq<nat> {
    if cs == [] then [] else Span(cs[0].startOffset, cs[0].totalLength) + ClipBytes(cs[1..])
  }

  ghost function RecordBytes(rs: seq<Record>): seq<nat> {
    if rs == [] then [] else Span(rs[0].offset, rs[0].length) + RecordBytes(rs[1..])
  }

  /** The bytes held back for the next clip. */
  ghost function Pending(s: State): seq<nat> {
    if s.active then Span(s.startOffset, s.totalLength) else []
  }

  /** The window ends where the next record has to begin. */
  ghost predicate Joined(s: State) {
    s.active ==> s.startOffset + s.totalLength == s.expectedOffset
  }

  lemma {:induction false} ClipBytesConcat(a: seq<Clip>, b: seq<Clip>)
    ensures ClipBytes(a + b) == ClipBytes(a) + ClipBytes(b)
  {
    if a == [] {
      assert a + b == b;
    } else {
      assert (a + b)[1..] == a[1..] + b;
      ClipBytesConcat(a[1..], b);
    }
  }

  lemma {:induction false} RecordBytesConcat(a: seq<Record>, b: seq<Record>)
    ensures RecordBytes(a + b) == RecordBytes(a) + RecordBytes(b)
  {
    if a == [] {
      assert a + b == b;
    } else {
      assert (a + b)[1..] == a[1..] + b;
      RecordBytesConcat(a[1..], b);
    }
  }

  /** The bytes of what one step emits. */
  ghost function OutcomeBytes(o: Outcome): seq<nat> {
    if o.Emits() then Span(o.clip.startOffset, o.clip.totalLength) else []
  }

  lemma OutcomeBytesAreClipBytes(o: Outcome)
    ensures ClipBytes(o.Clips()) == OutcomeBytes(o)
  {
    if o.Emits() {
      assert [o.clip][1..] == [];
    }
  }

  lemma TakenBytes(s: State, i: Input)
    ensures RecordBytes(Taken(s, i)) ==
      if Taken(s, i) == [] then [] else Span(i.rec.offset, i.rec.length)
  {
    if Taken(s, i) != [] {
      assert Taken(s, i)[1..] == [];
    }
  }

  lemma CutConserves(s: State, clipMs: int)
    requires s.active && Joined(s)
    ensures Joined(Cut(s, clipMs).0)
    ensures OutcomeBytes(Cut(s, clipMs).1) + Pending(Cut(s, clipMs).0) == Pending(s)
  {
    hide AlignedTarget;
    var (s', o) := Cut(s, clipMs);
    if o.Emits() {
      SpanSplit(s.startOffset, o.clip.totalLength, s'.totalLength);
    }
  }

  lemma ProcessConserves(s: State, r: Record, clipMs: int, nowMs: int)
    requires Joined(s) && r.valid && !(s.active && r.sequence < s.expectedSeq)
    ensures var (s', o) := Process(s, r, clipMs, nowMs);
      Joined(s') && OutcomeBytes(o) + Pending(s') == Pending(s) + Span(r.offset, r.length)
  {
    hide AlignedTarget, Cut;
    if Continues(s, r, clipMs) {
      var grown := AppendRecord(s, r, nowMs);
      SpanSplit(s.startOffset, s.totalLength, r.length);
      assert Pending(grown) == Pending(s) + Span(r.offset, r.length);
      CutConserves(grown, clipMs);
    } else {
      CutConserves(StartClip(r, nowMs), clipMs);
    }
  }

  lemma StepConserves(s: State, i: Input, p: Params)
    requires Joined(s)
    ensures var (s', o) := Step(s, i, p);
      Joined(s') && ClipBytes(o.Clips()) + Pending(s') == Pending(s) + RecordBytes(Taken(s, i))
  {
    hide AlignedTarget, Cut;
    OutcomeBytesAreClipBytes(Step(s, i, p).1);
    TakenBytes(s, i);
    if Taken(s, i) != [] {
      ProcessConserves(s, i.rec, p.clipMs, i.nowMs);
    }
  }

  /** No accepted byte is lost, duplicated or reordered, whatever the inputs. */
  lemma {:induction false} BytesAreConserved(s: State, ins: seq<Input>, p: Params)
    requires Joined(s)
    ensures Joined(Run(s, ins, p))
    ensures ClipBytes(Clips(s, ins, p)) + Pending(Run(s, ins, p))
         == Pending(s) + RecordBytes(Accepted(s, ins, p))
    decreases |ins|
  {
    if ins != [] {
      var (s', o) := Step(s, ins[0], p);
      StepConserves(s, ins[0], p);
      BytesAreConserved(s', ins[1..], p);
      ClipBytesConcat(o.Clips(), Clips(s', ins[1..], p));
      RecordBytesConcat(Taken(s, ins[0]), Accepted(s', ins[1..], p));
      Telescope(Pending(s), Pending(s'), Pending(Run(s, ins, p)),
                ClipBytes(o.Clips()), ClipBytes(Clips(s', ins[1..], p)),
                RecordBytes(Taken(s, ins[0])), RecordBytes(Accepted(s', ins[1..], p)));
    }
  }

  lemma Telescope<T>(p0: seq<T>, p1: seq<T>, p2: seq<T>, e1: seq<T>, e2: seq<T>, r1: seq<T>, r2: seq<T>)
    requires e1 + p1 == p0 + r1
    requires e2 + p2 == p1 + r2
    ensures (e1 + e2) + p2 == p0 + (r1 + r2)
  {
    calc {
      (e1 + e2) + p2;
      e1 + (e2 + p2);
      (e1 + p1) + r2;
      p0 + (r1 + r2);
    }
  }

  /** After a final flush nothing is pending: the clips are exactly the accepted bytes. */
  lemma FlushedRunEmitsEverything(ins: seq<Input>, p: Params)
    ensures Pending(Run(Idle(), ins + [Finish], p)) == []
    ensures ClipBytes(Clips(Idle(), ins + [Finish], p)) == RecordBytes(Accepted(Idle(), ins + [Finish], p))
  {
    var s := Run(Idle(), ins, p);
    RunConcat(Idle(), ins, [Finish], p);
    RunOne(s, Finish, p);
    BytesAreConserved(Idle(), ins + [Finish], p);
    var end, out := Run(Idle(), ins + [Finish], p), ClipBytes(Clips(Idle(), ins + [Finish], p));
    assert !end.active || end.totalLength == 0;
    assert out == out + Pending(end);
  }

  // ---------- 64-bit arithmetic ----------

  ghost predicate AllFromReader(ins: seq<Input>) {
    forall i :: i in ins && i.Feed? ==> i.rec.FromReader()
  }

  lemma StepKeepsSound(s: State, i: Input, p: Params)
    requires Sound(s) && (i.Feed? ==> i.rec.FromReader())
    ensures Sound(Step(s, i, p).0)
  {
    hide AlignedTarget;
    if i.Feed? {
      ProcessKeepsSound(s, i.rec, p.clipMs, i.nowMs);
    }
  }

  /** Every reachable state keeps its byte and sequence counters inside 64 bits. */
  lemma {:induction false} ReachableStatesAreSound(s: State, ins: seq<Input>, p: Params)
    requires Sound(s) && AllFromReader(ins)
    ensures Sound(Run(s, ins, p))
    decreases |ins|
  {
    if ins != [] {
      assert ins[0] in ins;
      StepKeepsSound(s, ins[0], p);
      ReachableStatesAreSound(Step(s, ins[0], p).0, ins[1..], p);
    }
  }

  // ---------- no clip spans a discontinuity ----------

  ghost predicate Linked(rs: seq<Record>) {
    forall k {:trigger rs[k]} :: 0 < k < |rs| ==>
      rs[k].sequence == rs[k - 1].sequence + 1 && rs[k].offset == rs[k - 1].End()
  }

  /** Clip c lies inside the bytes of the linked records rs[i..j]. */
  ghost predicate Covers(rs: seq<Record>, i: nat, j: nat, c: Clip) {
    && i < j <= |rs|
    && Linked(rs[i..j])
    && rs[i].offset <= c.startOffset
    && c.startOffset + c.totalLength <= rs[j - 1].End()
  }

  ghost predicate InsideOneRun(rs: seq<Record>, c: Clip) {
    exists i: nat, j: nat :: Covers(rs, i, j, c)
  }

  /** The open window starts inside the linked records past[from..] and ends at their end. */
  ghost predicate Anchored(s: State, past: seq<Record>, from: nat) {
    s.active ==>
      && from < |past|
      && Linked(past[from..])
      && past[from].offset <= s.startOffset
      && s.startOffset + s.totalLength == s.expectedOffset == past[|past| - 1].End()
      && s.expectedSeq == past[|past| - 1].sequence + 1
  }

  lemma CoversGrows(rs: seq<Record>, more: seq<Record>, c: Clip)
    requires InsideOneRun(rs, c)
    ensures InsideOneRun(rs + more, c)
  {
    var i: nat, j: nat :| Covers(rs, i, j, c);
    assert (rs + more)[i..j] == rs[i..j];
    assert Covers(rs + more, i, j, c);
  }

  lemma SnapshotIsCovered(s: State, past: seq<Record>, from: nat)
    requires s.active && Anchored(s, past, from)
    ensures InsideOneRun(past, Snapshot(s))
  {
    assert past[from..|past|] == past[from..];
    assert Covers(past, from, |past|, Snapshot(s));
  }

  lemma StartIsAnchored(r: Record, nowMs: int, past: seq<Record>)
    ensures Anchored(StartClip(r, nowMs), past + [r], |past|)
  {
    assert (past + [r])[|past|..] == [r];
  }

  lemma LinkedSnoc(rs: seq<Record>, r: Record)
    requires rs != [] && Linked(rs)
    requires r.sequence == rs[|rs| - 1].sequence + 1 && r.offset == rs[|rs| - 1].End()
    ensures Linked(rs + [r])
  {
    var n := |rs|;
    forall k | 0 < k <= n
      ensures (rs + [r])[k].sequence == (rs + [r])[k - 1].sequence + 1
      ensures (rs + [r])[k].offset == (rs + [r])[k - 1].End()
    {
      if k < n {
        assert rs[k].sequence == rs[k - 1].sequence + 1;
      }
    }
  }

  lemma AppendIsAnchored(s: State, r: Record, nowMs: int, past: seq<Record>, from: nat)
    requires s.active && Anchored(s, past, from) && !IsGap(s, r) && r.sequence >= s.expectedSeq
    ensures Anchored(AppendRecord(s, r, nowMs), past + [r], from)
  {
    var tail := past[from..];
    assert tail[|tail| - 1] == past[|past| - 1];
    LinkedSnoc(tail, r);
    assert (past + [r])[from..] == tail + [r];
  }

  ghost predicate OutcomeInside(rs: seq<Record>, o: Outcome) {
    o.Emits() ==> InsideOneRun(rs, o.clip)
  }

  lemma CutIsAnchored(s: State, clipMs: int, past: seq<Record>, from: nat)
    requires s.active && Anchored(s, past, from)
    ensures Anchored(Cut(s, clipMs).0, past, from)
    ensures OutcomeInside(past, Cut(s, clipMs).1)
  {
    var (s', o) := Cut(s, clipMs);
    if o.Emits() {
      assert past[from..|past|] == past[from..];
      assert Covers(past, from, |past|, o.clip);
    }
  }

  lemma StepIsAnchored(s: State, i: Input, p: Params, past: seq<Record>, from: nat) returns (from': nat)
    requires Anchored(s, past, from)
    ensures Anchored(Step(s, i, p).0, past + Taken(s, i), from')
    ensures OutcomeInside(past + Taken(s, i), Step(s, i, p).1)
  {
    hide AlignedTarget;
    from' := from;
    if s.active {
      SnapshotIsCovered(s, past, from);
    }
    if Taken(s, i) == [] {
      assert past + [] == past;
    } else {
      var r := i.rec;
      if Continues(s, r, p.clipMs) {
        AppendIsAnchored(s, r, i.nowMs, past, from);
        CutIsAnchored(AppendRecord(s, r, i.nowMs), p.clipMs, past + [r], from);
      } else {
        from' := |past|;
        StartIsAnchored(r, i.nowMs, past);
        CutIsAnchored(StartClip(r, i.nowMs), p.clipMs, past + [r], from');
        if s.active {
          CoversGrows(past, [r], Snapshot(s));
        }
      }
    }
  }

  lemma {:induction false} ClipsStayInsideRuns(
    s: State, ins: seq<Input>, p: Params, past: seq<Record>, from: nat)
    requires Anchored(s, past, from)
    ensures forall c :: c in Clips(s, ins, p) ==> InsideOneRun(past + Accepted(s, ins, p), c)
    decreases |ins|
  {
    if ins != [] {
      var s' := Step(s, ins[0], p).0;
      var from' := StepIsAnchored(s, ins[0], p, past, from);
      var past' := past + Taken(s, ins[0]);
      var later := Accepted(s', ins[1..], p);
      ClipsStayInsideRuns(s', ins[1..], p, past', from');
      assert past + Accepted(s, ins, p) == past' + later;
      var o := Step(s, ins[0], p).1;
      if o.Emits() {
        CoversGrows(past', later, o.clip);
      }
    }
  }

  /** Each emitted clip lies inside a run of accepted records without a sequence gap or an offset jump. */
  lemma NoClipSpansADiscontinuity(ins: seq<Input>, p: Params)
    ensures forall c :: c in Clips(Idle(), ins, p) ==> InsideOneRun(Accepted(Idle(), ins, p), c)
  {
    ClipsStayInsideRuns(Idle(), ins, p, [], 0);
    assert [] + Accepted(Idle(), ins, p) == Accepted(Idle(), ins, p);
  }

  // ---------- sequence numbers between resets ----------

  /** No idle timeout and no final flush resets the machine during the run. */
  ghost predicate NoReset(s: State, ins: seq<Input>, p: Params)
    decreases |ins|
  {
    ins == [] ||
    (&& (!ins[0].Feed? ==> Step(s, ins[0], p).1 == Nothing)
     && NoReset(Step(s, ins[0], p).0, ins[1..], p))
  }

  ghost predicate Increasing(rs: seq<Record>) {
    forall a, b :: 0 <= a < b < |rs| ==> rs[a].sequence < rs[b].sequence
  }

  lemma StepExpects(s: State, i: Input, p: Params)
    requires !i.Feed? ==> Step(s, i, p).1 == Nothing
    ensures var s' := Step(s, i, p).0;
      && (Taken(s, i) != [] ==> s'.active && s'.expectedSeq == i.rec.sequence + 1)
      && (Taken(s, i) == [] ==> s' == s)
  {
  }

  lemma {:induction false} AcceptedSequencesIncrease(s: State, ins: seq<Input>, p: Params)
    requires NoReset(s, ins, p)
    ensures Increasing(Accepted(s, ins, p))
    ensures s.active ==> forall r :: r in Accepted(s, ins, p) ==> r.sequence >= s.expectedSeq
    decreases |ins|
  {
    if ins != [] {
      StepExpects(s, ins[0], p);
      AcceptedSequencesIncrease(Step(s, ins[0], p).0, ins[1..], p);
    }
  }

  // ---------- continuous cutting ----------

  /** No input of the run restarts the window: every record is late or appended, no reset fires. */
  ghost predicate OneSegment(s: State, ins: seq<Input>, p: Params)
    decreases |ins|
  {
    ins == [] ||
    (&& s.active
     && (ins[0].Feed? && Taken(s, ins[0]) != [] ==>
           Continues(s, ins[0].rec, p.clipMs))
     && (!ins[0].Feed? ==> Step(s, ins[0], p).1 == Nothing)
     && OneSegment(Step(s, ins[0], p).0, ins[1..], p))
  }

  /** Clip k of a segment that starts at byte `base` and time `baseTs`. */
  ghost predicate IsTile(c: Clip, k: nat, base: nat, baseTs: int, target: nat, clipMs: int) {
    && c.startOffset == base + k * target
    && c.startTsMs == baseTs + k * clipMs
    && c.totalLength == target
    && c.endTsMs == c.startTsMs + clipMs
    && c.boundary == ContinuousByteRange
  }

  ghost predicate AreTiles(cs: seq<Clip>, base: nat, baseTs: int, target: nat, clipMs: int) {
    forall k: nat :: k < |cs| ==> IsTile(cs[k], k, base, baseTs, target, clipMs)
  }

  lemma TilesPrepend(c: Clip, cs: seq<Clip>, base: nat, baseTs: int, target: nat, clipMs: int)
    requires IsTile(c, 0, base, baseTs, target, clipMs)
    requires AreTiles(cs, base + target, baseTs + clipMs, target, clipMs)
    ensures AreTiles([c] + cs, base, baseTs, target, clipMs)
  {
    forall k: nat | k < |[c] + cs|
      ensures IsTile(([c] + cs)[k], k, base, baseTs, target, clipMs)
    {
      if k > 0 {
        assert IsTile(cs[k - 1], k - 1, base + target, baseTs + clipMs, target, clipMs);
        assert target + (k - 1) * target == k * target;
        assert clipMs + (k - 1) * clipMs == k * clipMs;
      }
    }
  }

  lemma OneMore(n: nat, x: int)
    ensures x + n * x == (1 + n) * x
  {
  }

  lemma NoTiles(base: nat, baseTs: int, target: nat, clipMs: int)
    ensures AreTiles([], base, baseTs, target, clipMs)
  {
  }

  lemma SegmentStep(s: State, i: Input, p: Params)
    requires OneSegment(s, [i], p)
    ensures var ((s', o), target) := (Step(s, i, p), AlignedTarget(p.clipMs, s.byteRate, s.frameAlign));
      && s'.active && s'.byteRate == s.byteRate && s'.frameAlign == s.frameAlign
      && s'.startOffset == s.startOffset + (if o.Emits() then target else 0)
      && s'.startTsMs == s.startTsMs + (if o.Emits() then p.clipMs else 0)
      && (o.Emits() ==> IsTile(o.clip, 0, s.startOffset, s.startTsMs, target, p.clipMs))
  {
    hide AlignedTarget;
  }

  /** Within one segment the k-th continuous clip starts k targets after the start and k clip
      lengths after the start time, and the backlog starts where the last one ends. */
  lemma {:induction false} SegmentIsTiled(s: State, ins: seq<Input>, p: Params)
    requires s.active && OneSegment(s, ins, p)
    ensures var target := AlignedTarget(p.clipMs, s.byteRate, s.frameAlign);
      var (s', cs) := (Run(s, ins, p), Clips(s, ins, p));
      && AreTiles(cs, s.startOffset, s.startTsMs, target, p.clipMs)
      && s'.active
      && s'.startOffset == s.startOffset + |cs| * target
      && s'.startTsMs == s.startTsMs + |cs| * p.clipMs
    decreases |ins|
  {
    hide AlignedTarget, IsTile, AreTiles;
    var target := AlignedTarget(p.clipMs, s.byteRate, s.frameAlign);
    NoTiles(s.startOffset, s.startTsMs, target, p.clipMs);
    if ins != [] {
      var (s1, o) := Step(s, ins[0], p);
      assert OneSegment(s, [ins[0]], p);
      SegmentStep(s, ins[0], p);
      SegmentIsTiled(s1, ins[1..], p);
      var later := Clips(s1, ins[1..], p);
      if o.Emits() {
        TilesPrepend(o.clip, later, s.startOffset, s.startTsMs, target, p.clipMs);
        OneMore(|later|, target);
        OneMore(|later|, p.clipMs);
      } else {
        assert o.Clips() + later == later;
      }
    }
  }

  /** The same, from the record that opens the segment: its own first cut counts as clip 0. */
  lemma SegmentFromStartIsTiled(r: Record, nowMs: int, rest: seq<Input>, p: Params)
    requires var (s1, _) := Cut(StartClip(r, nowMs), p.clipMs); OneSegment(s1, rest, p)
    ensures var (s1, o) := Cut(StartClip(r, nowMs), p.clipMs);
      AreTiles(o.Clips() + Clips(s1, rest, p), r.offset, r.tsMs,
               AlignedTarget(p.clipMs, r.byteRate, r.Align()), p.clipMs)
  {
    var target := AlignedTarget(p.clipMs, r.byteRate, r.Align());
    var (s1, o) := Cut(StartClip(r, nowMs), p.clipMs);
    SegmentIsTiled(s1, rest, p);
    if o.Emits() {
      TilesPrepend(o.clip, Clips(s1, rest, p), r.offset, r.tsMs, target, p.clipMs);
    } else {
      assert o.Clips() + Clips(s1, rest, p) == Clips(s1, rest, p);
    }
  }

  lemma DriftArithmetic(k: nat, clipMs: int, byteRate: nat, align: nat, target: nat)
    requires clipMs > 0 && align >= 1 && target >= align
    requires clipMs * byteRate - 1000 * target < 1000 * align
    ensures byteRate * (k * clipMs) <= 2000 * (k * target)
  {
    assert clipMs * byteRate <= 2000 * target;
    MulMonotone(k, clipMs * byteRate, 2000 * target);
    assert k * (clipMs * byteRate) == byteRate * (k * clipMs);
    assert k * (2000 * target) == 2000 * (k * target);
  }

  lemma MulMonotone(k: nat, a: int, b: int)
    requires a <= b
    ensures k * a <= k * b
  {
  }

  /** Media time does not run away from the bytes: within a segment, the time cut off is at most
      twice what the bytes cut off are worth at the byte rate. */
  lemma TimeFollowsBytes(s: State, ins: seq<Input>, p: Params)
    requires s.active && s.frameAlign >= 1 && OneSegment(s, ins, p)
    requires AlignedTarget(p.clipMs, s.byteRate, s.frameAlign) > 0
    ensures var s' := Run(s, ins, p);
      && s.startOffset <= s'.startOffset
      && 0 <= s.byteRate * (s'.startTsMs - s.startTsMs) <= 2000 * (s'.startOffset - s.startOffset)
  {
    hide OneSegment, Run, Clips;
    var (target, cs) := (AlignedTarget(p.clipMs, s.byteRate, s.frameAlign), Clips(s, ins, p));
    SegmentIsTiled(s, ins, p);
    TargetIsTight(p.clipMs, s.byteRate, s.frameAlign);
    MultipleIsAtLeast(target, s.frameAlign);
    DriftArithmetic(|cs|, p.clipMs, s.byteRate, s.frameAlign, target);
    NonNegative(|cs|, target);
    NonNegative(|cs|, p.clipMs);
    NonNegative(s.byteRate, |cs| * p.clipMs);
  }

  lemma NonNegative(a: nat, b: nat)
    ensures a * b >= 0
  {
  }

  lemma MultipleIsAtLeast(x: nat, n: nat)
    requires n >= 1 && x > 0 && x % n == 0
    ensures x >= n
  {
    if x < n {
      RemainderIsUnique(x, n, 0, x);
    }
  }

  /** Every record is continuous with the given rate and frame size and no longer than the target. */
  ghost predicate ShortAndUniform(ins: seq<Input>, byteRate: nat, align: nat, target: nat) {
    forall i :: i in ins && i.Feed? ==>
      i.rec.continuous && i.rec.byteRate == byteRate && i.rec.Align() == align && i.rec.length <= target
  }

  ghost predicate SmallBacklog(s: State, byteRate: nat, align: nat, target: nat) {
    s.active ==>
      s.continuous && s.byteRate == byteRate && s.frameAlign == align && s.totalLength <= target
  }

  /** With uniform records no longer than the target, one cut per record is enough: the
      backlog never exceeds one target, through gaps and resets alike. */
  lemma {:induction false} BacklogIsBounded(s: State, ins: seq<Input>, p: Params, byteRate: nat, align: nat)
    requires AlignedTarget(p.clipMs, byteRate, align) > 0
    requires ShortAndUniform(ins, byteRate, align, AlignedTarget(p.clipMs, byteRate, align))
    requires SmallBacklog(s, byteRate, align, AlignedTarget(p.clipMs, byteRate, align))
    ensures SmallBacklog(Run(s, ins, p), byteRate, align, AlignedTarget(p.clipMs, byteRate, align))
    decreases |ins|
  {
    if ins != [] {
      assert ins[0] in ins;
      BacklogIsBounded(Step(s, ins[0], p).0, ins[1..], p, byteRate, align);
    }
  }

  /** Without the length bound it fails: only one clip is cut per record. */
  lemma LongRecordLeavesBacklog()
    ensures exists r: Record, p: Params ::
      && AlignedTarget(p.clipMs, r.byteRate, r.Align()) > 0
      && Run(Idle(), [Feed(r, 0)], p).totalLength > AlignedTarget(p.clipMs, r.byteRate, r.Align())
  {
    var r := Record(1, 0, 5000, 0, true, 1000, 1, [], true);
    var p := Params(1000, 0);
    assert AlignedTarget(1000, 1000, 1) == 1000;
    var s := StartClip(r, 0);
    assert Cut(s, 1000).0.totalLength == 4000;
    RunOne(Idle(), Feed(r, 0), p);
    assert Run(Idle(), [Feed(r, 0)], p).totalLength == 4000;
  }

  /** Continuous records of one length that follow each other without a gap. */
  function Piece(k: nat, length: nat, byteRate: nat, align: nat): Input {
    Feed(Record(k, k * length, length, 0, true, byteRate, align, [], true), 0)
  }

  ghost function Pieces(n: nat, length: nat, byteRate: nat, align: nat): seq<Input> {
    if n == 0 then [] else Pieces(n - 1, length, byteRate, align) + [Piece(n - 1, length, byteRate, align)]
  }

  lemma {:induction false} PiecesAreUniform(n: nat, length: nat, byteRate: nat, align: nat)
    requires align >= 1
    ensures ShortAndUniform(Pieces(n, length, byteRate, align), byteRate, align, length)
  {
    if n > 0 {
      PiecesAreUniform(n - 1, length, byteRate, align);
    }
  }

  /** Every piece longer than the target leaves its excess behind. */
  lemma {:induction false} ExcessPilesUp(n: nat, length: nat, byteRate: nat, align: nat, p: Params)
    requires n > 0 && align >= 1 && 0 < AlignedTarget(p.clipMs, byteRate, align) < length
    ensures var s := Run(Idle(), Pieces(n, length, byteRate, align), p);
      && s.active && s.continuous && s.byteRate == byteRate && s.frameAlign == align
      && s.expectedSeq == n && s.expectedOffset == n * length
      && s.totalLength == n * (length - AlignedTarget(p.clipMs, byteRate, align))
  {
    hide AlignedTarget;
    var (before, i) := (Pieces(n - 1, length, byteRate, align), Piece(n - 1, length, byteRate, align));
    var excess := length - AlignedTarget(p.clipMs, byteRate, align);
    RunConcat(Idle(), before, [i], p);
    RunOne(Run(Idle(), before, p), i, p);
    assert n * length == (n - 1) * length + length && n * excess == (n - 1) * excess + excess;
    if n > 1 {
      ExcessPilesUp(n - 1, length, byteRate, align, p);
      NonNegative(n - 1, excess);
    }
  }

  /** The length bound is exact: uniform records of at most `length` bytes keep the backlog within
      one target in every run if and only if `length` does not exceed the target. */
  lemma BacklogBoundIsExact(p: Params, byteRate: nat, align: nat, length: nat)
    requires align >= 1 && AlignedTarget(p.clipMs, byteRate, align) > 0
    ensures (forall ins :: ShortAndUniform(ins, byteRate, align, length) ==>
               SmallBacklog(Run(Idle(), ins, p), byteRate, align, AlignedTarget(p.clipMs, byteRate, align)))
       <==> length <= AlignedTarget(p.clipMs, byteRate, align)
  {
    hide AlignedTarget, Run, Pieces;
    var target := AlignedTarget(p.clipMs, byteRate, align);
    if length <= target {
      forall ins | ShortAndUniform(ins, byteRate, align, length)
        ensures SmallBacklog(Run(Idle(), ins, p), byteRate, align, target)
      {
        BacklogIsBounded(Idle(), ins, p, byteRate, align);
      }
    } else {
      var ins := Pieces(target + 1, length, byteRate, align);
      PiecesAreUniform(target + 1, length, byteRate, align);
      ExcessPilesUp(target + 1, length, byteRate, align, p);
      MulMonotone(target + 1, 1, length - target);
      assert !SmallBacklog(Run(Idle(), ins, p), byteRate, align, target);
    }
  }

  // ---------- clip length and silence ----------

  ghost predicate ShortSoFar(s: State, clipMs: int) {
    s.active ==> !s.continuous && s.endTsMs - s.startTsMs < clipMs
  }

  /** Without continuous records, no clip is longer than the clip length: the record that
      reaches it opens the next clip. */
  lemma {:induction false} MetadataClipsAreShort(s: State, ins: seq<Input>, p: Params)
    requires p.clipMs > 0 && ShortSoFar(s, p.clipMs)
    requires forall i :: i in ins && i.Feed? ==> !i.rec.continuous
    ensures forall c :: c in Clips(s, ins, p) ==>
      c.endTsMs - c.startTsMs < p.clipMs && (c.boundary == s.boundary || c.boundary == Metadata)
    decreases |ins|
  {
    if ins != [] {
      assert ins[0] in ins;
      var (s', o) := Step(s, ins[0], p);
      ShortStep(s, ins[0], p);
      MetadataClipsAreShort(s', ins[1..], p);
    }
  }

  lemma ShortStep(s: State, i: Input, p: Params)
    requires p.clipMs > 0 && ShortSoFar(s, p.clipMs) && (i.Feed? ==> !i.rec.continuous)
    ensures var (s', o) := Step(s, i, p);
      && ShortSoFar(s', p.clipMs)
      && (s'.boundary == s.boundary || s'.boundary == Metadata)
      && (o.Emits() ==> o.clip.endTsMs - o.clip.startTsMs < p.clipMs && o.clip.boundary == s.boundary)
  {
    hide AlignedTarget;
  }

  /** When the last accepted record of a run was processed; `before` if there is none. */
  ghost function LastFeedTime(s: State, ins: seq<Input>, before: int, p: Params): int
    decreases |ins|
  {
    if ins == [] then before
    else LastFeedTime(Step(s, ins[0], p).0, ins[1..], if Taken(s, ins[0]) != [] then ins[0].nowMs else before, p)
  }

  lemma {:induction false} ClockIsTheLastFeed(s: State, ins: seq<Input>, p: Params)
    requires NoReset(s, ins, p)
    ensures Run(s, ins, p).lastChunkWallMs == LastFeedTime(s, ins, s.lastChunkWallMs, p)
    decreases |ins|
  {
    hide Step;
    if ins != [] {
      WallStep(s, ins[0], p);
      ClockIsTheLastFeed(Step(s, ins[0], p).0, ins[1..], p);
    }
  }

  lemma WallStep(s: State, i: Input, p: Params)
    requires !i.Feed? ==> Step(s, i, p).1 == Nothing
    ensures Step(s, i, p).0.lastChunkWallMs == if Taken(s, i) != [] then i.nowMs else s.lastChunkWallMs
  {
    hide AlignedTarget;
  }

  /** An idle check cuts a partial clip exactly when bytes are pending and no record has been
      accepted for the whole idle time; rejected records do not count as activity. */
  lemma TimeoutMeansSilence(s: State, ins: seq<Input>, now: int, p: Params)
    requires NoReset(s, ins, p)
    ensures var (s', o) := (Run(s, ins, p), Step(Run(s, ins, p), Tick(now), p).1);
      && (o.Emits() <==> Pending(s') != [] && LastFeedTime(s, ins, s.lastChunkWallMs, p) + p.idleMs <= now)
      && (o.Emits() ==> Span(o.clip.startOffset, o.clip.totalLength) == Pending(s') && o.EmitPartial?)
  {
    ClockIsTheLastFeed(s, ins, p);
    var s' := Run(s, ins, p);
    assert s'.active ==> |Pending(s')| == s'.totalLength;
  }

  // ---------- event tags ----------

  ghost function Tags(rs: seq<Record>): seq<string> {
    if rs == [] then [] else Tags(rs[..|rs| - 1]) + rs[|rs| - 1].events
  }

  ghost function TagSummary(rs: seq<Record>): seq<string> {
    Events.FirstSixteen(Events.Dedup(Tags(rs)))
  }

  /** The records folded into the window since it was started or last cut, after one input,
      and the windows that input closed. `open` is the same list before the input. */
  ghost function Fold(s: State, open: seq<Record>, i: Input, p: Params): (seq<seq<Record>>, seq<Record>) {
    var o := Step(s, i, p).1;
    if Taken(s, i) == [] then
      if o.Emits() then ([open], []) else ([], open)
    else if Continues(s, i.rec, p.clipMs) then
      if o.Emits() then ([open + [i.rec]], []) else ([], open + [i.rec])
    else if s.active && (s.totalLength > 0 || !IsGap(s, i.rec)) then ([open], [i.rec])
    else if o.Emits() then ([[i.rec]], [])
    else ([], [i.rec])
  }

  /** For each emitted clip of a run, the records folded into it. */
  ghost function Windows(s: State, open: seq<Record>, ins: seq<Input>, p: Params): seq<seq<Record>>
    decreases |ins|
  {
    if ins == [] then []
    else
      var (closed, open') := Fold(s, open, ins[0], p);
      closed + Windows(Step(s, ins[0], p).0, open', ins[1..], p)
  }

  ghost predicate Summarised(cs: seq<Clip>, ws: seq<seq<Record>>) {
    |cs| == |ws| && forall k :: 0 <= k < |cs| ==> cs[k].events == TagSummary(ws[k])
  }

  lemma TagsOfOne(r: Record)
    requires Events.WellFormed(r.events)
    ensures TagSummary([r]) == r.events
  {
    assert [r][..0] == [];
    assert Tags([r]) == r.events;
    Events.DedupOfDistinct(r.events);
  }

  lemma NoTags()
    ensures TagSummary([]) == []
  {
  }

  lemma TagsAppend(open: seq<Record>, r: Record)
    requires Events.WellFormed(r.events)
    ensures Events.AddAll(TagSummary(open), r.events) == TagSummary(open + [r])
  {
    assert (open + [r])[..|open|] == open;
    Events.AddAllIsTruncation(Tags(open), r.events);
  }

  lemma StepSummarises(s: State, open: seq<Record>, i: Input, p: Params)
    requires i.Feed? ==> Events.WellFormed(i.rec.events)
    requires s.active ==> s.events == TagSummary(open)
    ensures var ((s', o), (closed, open')) := (Step(s, i, p), Fold(s, open, i, p));
      && Summarised(o.Clips(), closed)
      && (s'.active ==> s'.events == TagSummary(open'))
  {
    hide AlignedTarget, TagSummary;
    NoTags();
    if Taken(s, i) != [] {
      if Continues(s, i.rec, p.clipMs) {
        TagsAppend(open, i.rec);
        assert AppendRecord(s, i.rec, i.nowMs).events == TagSummary(open + [i.rec]);
      } else {
        TagsOfOne(i.rec);
        assert StartClip(i.rec, i.nowMs).events == TagSummary([i.rec]);
      }
    }
  }

  /** Every clip carries the first sixteen distinct tags, in order of first appearance, of the
      records folded in since the last start or continuous cut. */
  lemma {:induction false} ClipEventsAreTheFirstSixteen(
    s: State, open: seq<Record>, ins: seq<Input>, p: Params)
    requires forall i :: i in ins && i.Feed? ==> Events.WellFormed(i.rec.events)
    requires s.active ==> s.events == TagSummary(open)
    ensures Summarised(Clips(s, ins, p), Windows(s, open, ins, p))
    decreases |ins|
  {
    hide AlignedTarget, TagSummary, Process;
    if ins != [] {
      assert ins[0] in ins;
      StepSummarises(s, open, ins[0], p);
      ClipEventsAreTheFirstSixteen(Step(s, ins[0], p).0, Fold(s, open, ins[0], p).1, ins[1..], p);
    }
  }
}
