/** From clips to database keys: the `session_id:ts` keys of one session's clips, and when
    last-write-wins storage keeps every clip. */
module ClipKeys {
  import opened ClipFsm
  import opened Machine
  import opened ClipRuns
  import opened ClipLimits
  import opened RowLog
  import Text

  /** The `ts` of an emitted clip: start_ts_ms / 1000, truncated toward zero as in C. */
  function Seconds(startTsMs: int): (s: int)
    ensures startTsMs >= 0 ==> 1000 * s <= startTsMs < 1000 * (s + 1)
    ensures startTsMs <= 0 ==> 1000 * (s - 1) < startTsMs <= 1000 * s
  {
    if startTsMs >= 0 then startTsMs / 1000 else -(-startTsMs / 1000)
  }

  /** clip_store's key for an ingested clip. */
  function ClipKey(session: string, ts: int): string {
    session + ":" + Text.Decimal(ts)
  }

  /** A key falls apart at its first colon into the session, if that has none, and the number. */
  lemma ClipKeyIsReadBack(session: string, ts: int)
    requires ':' !in session && Text.IsLong(ts)
    ensures var (key, n) := (ClipKey(session, ts), Text.IndexOf(ClipKey(session, ts), ':'));
      n < |key| && key[..n] == session && Text.ParseLong(key[n + 1..]) == Some(ts)
  {
    hide Text.Decimal, Text.ParseLong;
    var digits := Text.Decimal(ts);
    assert ClipKey(session, ts) == session + [':'] + digits;
    Text.IndexAfter(session, ':', digits);
    assert ClipKey(session, ts)[|session| + 1..] == digits;
    Text.DecimalRoundTrip(ts);
  }

  lemma ClipKeyIsInjective(session: string, a: int, b: int)
    requires ClipKey(session, a) == ClipKey(session, b)
    ensures a == b
  {
    var n := |session + ":"|;
    assert ClipKey(session, a)[n..] == Text.Decimal(a);
    assert ClipKey(session, b)[n..] == Text.Decimal(b);
    Text.DecimalIsInjective(a, b);
  }

  /** No record arrives after a gap and no idle timeout fires. */
  ghost predicate Smooth(s: State, ins: seq<Input>, p: Params)
    decreases |ins|
  {
    ins == [] ||
    (&& !ins[0].Finish?
     && (ins[0].Tick? ==> Step(s, ins[0], p).1 == Nothing)
     && (s.active && Taken(s, ins[0]) != [] ==> !IsGap(s, ins[0].rec))
     && Smooth(Step(s, ins[0], p).0, ins[1..], p))
  }

  ghost predicate NoNegativeTimes(ins: seq<Input>) {
    forall i :: i in ins && i.Feed? ==> i.rec.tsMs >= 0
  }

  /** Successive start times differ by at least one clip length. */
  ghost predicate Spaced(cs: seq<Clip>, clipMs: int) {
    forall a, b :: 0 <= a < b < |cs| ==> cs[a].startTsMs + clipMs <= cs[b].startTsMs
  }

  ghost predicate AllFrom(cs: seq<Clip>, ts: int) {
    forall c :: c in cs ==> ts <= c.startTsMs
  }

  lemma SmoothStep(s: State, i: Input, p: Params)
    requires p.clipMs >= 0
    requires !i.Finish? && (i.Tick? ==> Step(s, i, p).1 == Nothing)
    requires s.active && Taken(s, i) != [] ==> !IsGap(s, i.rec)
    ensures var (s', o) := Step(s, i, p);
      && (s.active ==> s'.active && s.startTsMs <= s'.startTsMs)
      && (s.active && o.Emits() ==> o.clip.startTsMs == s.startTsMs)
      && (o.Emits() ==> s'.active && o.clip.startTsMs + p.clipMs <= s'.startTsMs)
  {
    hide AlignedTarget;
  }

  lemma {:induction false} StartTimesAreSpaced(s: State, ins: seq<Input>, p: Params)
    requires p.clipMs >= 0 && Smooth(s, ins, p)
    ensures var (s', cs) := (Run(s, ins, p), Clips(s, ins, p));
      && Spaced(cs, p.clipMs)
      && (s.active ==> AllFrom(cs, s.startTsMs) && s'.active && s.startTsMs <= s'.startTsMs)
      && (s'.active ==> forall c :: c in cs ==> c.startTsMs + p.clipMs <= s'.startTsMs)
      && (cs != [] ==> s'.active)
    decreases |ins|
  {
    hide Step;
    if ins != [] {
      var (s1, o) := Step(s, ins[0], p);
      SmoothStep(s, ins[0], p);
      StartTimesAreSpaced(s1, ins[1..], p);
      var later := Clips(s1, ins[1..], p);
      assert Clips(s, ins, p) == o.Clips() + later;
    }
  }

  lemma TimesStayNonNegative(s: State, i: Input, p: Params)
    requires p.clipMs >= 0 && (i.Feed? ==> i.rec.tsMs >= 0) && s.startTsMs >= 0
    ensures Step(s, i, p).0.startTsMs >= 0
    ensures Step(s, i, p).1.Emits() ==> Step(s, i, p).1.clip.startTsMs >= 0
  {
    hide AlignedTarget;
  }

  lemma {:induction false} StartTimesAreNonNegative(s: State, ins: seq<Input>, p: Params)
    requires p.clipMs >= 0 && NoNegativeTimes(ins) && s.startTsMs >= 0
    ensures AllFrom(Clips(s, ins, p), 0)
    decreases |ins|
  {
    hide Step;
    if ins != [] {
      assert ins[0] in ins;
      TimesStayNonNegative(s, ins[0], p);
      StartTimesAreNonNegative(Step(s, ins[0], p).0, ins[1..], p);
      assert Clips(s, ins, p) == Step(s, ins[0], p).1.Clips() + Clips(Step(s, ins[0], p).0, ins[1..], p);
    }
  }

  lemma SecondsSeparate(a: int, b: int)
    requires a + 1999 <= b || (0 <= a && a + 1000 <= b)
    ensures Seconds(a) < Seconds(b)
  {
  }

  /** The clips of a whole session: the run followed by the final flush. */
  ghost function SessionClips(ins: seq<Input>, p: Params): seq<Clip> {
    Clips(Idle(), ins + [Finish], p)
  }

  ghost predicate SecondsIncrease(cs: seq<Clip>) {
    forall a, b :: 0 <= a < b < |cs| ==> Seconds(cs[a].startTsMs) < Seconds(cs[b].startTsMs)
  }

  lemma LastIsSpaced(s: State, cs: seq<Clip>, p: Params)
    requires Spaced(cs, p.clipMs)
    requires s.active ==> forall c :: c in cs ==> c.startTsMs + p.clipMs <= s.startTsMs
    ensures Spaced(cs + Step(s, Finish, p).1.Clips(), p.clipMs)
  {
    var last := Step(s, Finish, p).1.Clips();
    forall a, b | 0 <= a < b < |cs + last|
      ensures (cs + last)[a].startTsMs + p.clipMs <= (cs + last)[b].startTsMs
    {
      assert (cs + last)[a] == cs[a] && cs[a] in cs;
    }
  }

  lemma SessionIsSpaced(ins: seq<Input>, p: Params)
    requires p.clipMs >= 0 && Smooth(Idle(), ins, p)
    ensures Spaced(SessionClips(ins, p), p.clipMs)
    ensures NoNegativeTimes(ins) ==> AllFrom(SessionClips(ins, p), 0)
  {
    hide AlignedTarget, Process, Smooth;
    var s := Run(Idle(), ins, p);
    RunConcat(Idle(), ins, [Finish], p);
    RunOne(s, Finish, p);
    StartTimesAreSpaced(Idle(), ins, p);
    hide Step, Clips, Run;
    LastIsSpaced(s, Clips(Idle(), ins, p), p);
    if NoNegativeTimes(ins) {
      StartTimesAreNonNegative(Idle(), ins + [Finish], p);
    }
  }

  /** Clip lengths of at least a second give every clip of a smooth session its own second,
      when no timestamp is negative; from 1999 ms on, with any timestamps. */
  lemma ClipSecondsAreDistinct(ins: seq<Input>, p: Params)
    requires Smooth(Idle(), ins, p)
    requires p.clipMs >= 1999 || (p.clipMs >= 1000 && NoNegativeTimes(ins))
    ensures SecondsIncrease(SessionClips(ins, p))
  {
    var cs := SessionClips(ins, p);
    SessionIsSpaced(ins, p);
    forall a, b | 0 <= a < b < |cs|
      ensures Seconds(cs[a].startTsMs) < Seconds(cs[b].startTsMs)
    {
      assert cs[a] in cs;
      SecondsSeparate(cs[a].startTsMs, cs[b].startTsMs);
    }
  }

  /** A record of one byte at a given place and time. */
  function OneByte(sequence: nat, offset: nat, tsMs: int): Record {
    Record(sequence, offset, 1, tsMs, false, 0, 0, [], true)
  }

  /** Two records at times t and u, the second a clip boundary, then the final flush. */
  lemma TwoClipSession(t: int, u: int, p: Params)
    requires u - t >= p.clipMs
    ensures var ins := [Feed(OneByte(1, 0, t), 0), Feed(OneByte(2, 1, u), 0)];
      && Smooth(Idle(), ins, p)
      && |SessionClips(ins, p)| == 2
      && SessionClips(ins, p)[0].startTsMs == t && SessionClips(ins, p)[1].startTsMs == u
  {
    hide AlignedTarget;
    var (a, b) := (Feed(OneByte(1, 0, t), 0), Feed(OneByte(2, 1, u), 0));
    var s1, s2 := StartClip(a.rec, 0), StartClip(b.rec, 0);
    assert Step(Idle(), a, p) == (s1, Nothing);
    assert Step(s1, b, p) == (s2, EmitComplete(Snapshot(s1)));
    assert Step(s2, Finish, p) == (Idle(), EmitComplete(Snapshot(s2)));
    assert [a, b][1..] == [b] && [b][1..] == [];
    assert Smooth(s2, [], p) && Smooth(s1, [b], p);
    assert [a, b] + [Finish] == [a] + ([b] + [Finish]);
    RunConcat(Idle(), [a], [b] + [Finish], p);
    RunConcat(s1, [b], [Finish], p);
    RunOne(Idle(), a, p);
    RunOne(s1, b, p);
    RunOne(s2, Finish, p);
  }

  lemma TwoClipsCollide(t: int, u: int, p: Params) returns (ins: seq<Input>)
    requires u - t >= p.clipMs && Seconds(t) == Seconds(u)
    ensures ins == [Feed(OneByte(1, 0, t), 0), Feed(OneByte(2, 1, u), 0)]
    ensures Smooth(Idle(), ins, p) && !SecondsIncrease(SessionClips(ins, p))
  {
    hide Smooth, SessionClips;
    ins := [Feed(OneByte(1, 0, t), 0), Feed(OneByte(2, 1, u), 0)];
    TwoClipSession(t, u, p);
  }

  /** The bound is exact: a clip length gives every smooth session with non-negative times
      distinct seconds if and only if it is at least 1000 ms. */
  lemma OneSecondIsExact(p: Params)
    ensures (forall ins :: Smooth(Idle(), ins, p) && NoNegativeTimes(ins) ==> SecondsIncrease(SessionClips(ins, p)))
       <==> p.clipMs >= 1000
  {
    hide Smooth, SessionClips, SecondsIncrease;
    if p.clipMs >= 1000 {
      forall ins | Smooth(Idle(), ins, p) && NoNegativeTimes(ins)
        ensures SecondsIncrease(SessionClips(ins, p))
      {
        ClipSecondsAreDistinct(ins, p);
      }
    } else {
      var u := if p.clipMs < 0 then 0 else p.clipMs;
      var ins := TwoClipsCollide(0, u, p);
      assert NoNegativeTimes(ins);
    }
  }

  /** With negative timestamps truncation makes 1999 ms the exact bound. */
  lemma TwoSecondsAreExactForAllTimes(p: Params)
    ensures (forall ins :: Smooth(Idle(), ins, p) ==> SecondsIncrease(SessionClips(ins, p)))
       <==> p.clipMs >= 1999
  {
    hide Smooth, SessionClips, SecondsIncrease;
    if p.clipMs >= 1999 {
      forall ins | Smooth(Idle(), ins, p)
        ensures SecondsIncrease(SessionClips(ins, p))
      {
        ClipSecondsAreDistinct(ins, p);
      }
    } else {
      var ins := TwoClipsCollide(-999, 999, p);
      assert Smooth(Idle(), ins, p);
    }
  }

  /** Without the no-gap condition it fails for every clip length: two windows closed by gaps
      in the same second have the same key. */
  lemma GapPartialsShareAKey(p: Params)
    ensures exists ins :: |SessionClips(ins, p)| == 2 && !SecondsIncrease(SessionClips(ins, p))
  {
    hide AlignedTarget;
    var (a, b) := (Feed(OneByte(1, 0, 0), 0), Feed(OneByte(5, 1, 0), 0));
    var s1, s2 := StartClip(a.rec, 0), StartClip(b.rec, 0);
    assert Step(Idle(), a, p) == (s1, Nothing);
    assert Step(s1, b, p) == (s2, EmitPartial(Snapshot(s1)));
    assert [a, b] + [Finish] == [a] + ([b] + [Finish]);
    RunConcat(Idle(), [a], [b] + [Finish], p);
    RunConcat(s1, [b], [Finish], p);
    RunOne(Idle(), a, p);
    RunOne(s1, b, p);
    RunOne(s2, Finish, p);
    var cs := SessionClips([a, b], p);
    assert cs == [Snapshot(s1)] + [Snapshot(s2)];
    assert Seconds(cs[0].startTsMs) == Seconds(cs[1].startTsMs);
  }

  // ---------- exactly when all clips have different seconds ----------

  /** Valid records with bytes and without continuity fields. */
  ghost predicate PlainRecords(rs: seq<Record>) {
    forall r :: r in rs ==> r.valid && r.length > 0 && !r.continuous
  }

  function RecordSeconds(rs: seq<Record>): seq<int> {
    seq(|rs|, i requires 0 <= i < |rs| => Seconds(rs[i].tsMs))
  }

  function ClipSeconds(cs: seq<Clip>): seq<int> {
    seq(|cs|, i requires 0 <= i < |cs| => Seconds(cs[i].startTsMs))
  }

  ghost predicate AllDifferent(xs: seq<int>) {
    forall a, b :: 0 <= a < b < |xs| ==> xs[a] != xs[b]
  }

  /** The seconds that the clips of a run can have: that of the open window and those of the records. */
  function Available(s: State, rs: seq<Record>): seq<int> {
    (if s.active then [Seconds(s.startTsMs)] else []) + RecordSeconds(rs)
  }

  lemma PlainStep(s: State, i: Input, p: Params)
    requires !s.continuous && (i.Feed? ==> !i.rec.continuous)
    ensures var (s', o) := Step(s, i, p);
      && !s'.continuous
      && (o.Emits() ==> s.active && o.clip.startTsMs == s.startTsMs)
      && (s'.active ==> (s.active && !o.Emits() && s'.startTsMs == s.startTsMs)
                        || (i.Feed? && s'.startTsMs == i.rec.tsMs))
  {
    hide AlignedTarget;
  }

  lemma DifferentPrepend(x: int, xs: seq<int>, ys: seq<int>)
    requires AllDifferent(ys) && (forall y :: y in ys ==> y in xs) && x !in xs
    ensures AllDifferent([x] + ys)
  {
  }

  lemma DifferentTail(xs: seq<int>, k: nat)
    requires AllDifferent(xs) && k <= |xs|
    ensures AllDifferent(xs[k..])
    ensures forall x :: x in xs[..k] ==> x !in xs[k..]
  {
  }

  /** Every clip starts at its own record. */
  lemma {:induction false} ClipsStartAtRecords(s: State, ins: seq<Input>, p: Params)
    requires !s.continuous && (forall r :: r in Feeds(ins) ==> !r.continuous)
    requires AllDifferent(Available(s, Feeds(ins)))
    ensures AllDifferent(ClipSeconds(Clips(s, ins, p)))
    ensures forall x :: x in ClipSeconds(Clips(s, ins, p)) ==> x in Available(s, Feeds(ins))
    decreases |ins|
  {
    hide Step, AllDifferent, Seconds;
    if ins == [] {
      NothingDiffers();
    } else {
      var (s', o) := Step(s, ins[0], p);
      var (rest, head) := (Feeds(ins[1..]), if ins[0].Feed? then [ins[0].rec] else []);
      assert Feeds(ins) == head + rest;
      assert ins[0].Feed? ==> ins[0].rec in Feeds(ins);
      PlainStep(s, ins[0], p);
      var (all, later) := (Available(s, Feeds(ins)), Available(s', rest));
      AvailableAfter(s, s', head, rest, o.Emits());
      ClipsStartAtRecords(s', ins[1..], p);
      var cs := Clips(s', ins[1..], p);
      if o.Emits() {
        DifferentPrepend(Seconds(s.startTsMs), later, ClipSeconds(cs));
        assert ClipSeconds([o.clip] + cs) == [Seconds(s.startTsMs)] + ClipSeconds(cs);
      } else {
        assert o.Clips() + cs == cs;
      }
    }
  }

  lemma NothingDiffers()
    ensures AllDifferent([])
  {
  }

  /** After one step the seconds still available are different, and after a clip its own is not
      among them. */
  lemma AvailableAfter(s: State, s': State, head: seq<Record>, rest: seq<Record>, emits: bool)
    requires |head| <= 1 && AllDifferent(Available(s, head + rest))
    requires emits ==> s.active
    requires s'.active ==> (s.active && !emits && s'.startTsMs == s.startTsMs)
                           || (head != [] && s'.startTsMs == head[0].tsMs)
    ensures AllDifferent(Available(s', rest))
    ensures emits ==> Seconds(s.startTsMs) in Available(s, head + rest)
                      && Seconds(s.startTsMs) !in Available(s', rest)
    ensures forall x :: x in Available(s', rest) ==> x in Available(s, head + rest)
  {
    hide Seconds, AllDifferent, RecordSeconds;
    var (all, tail) := (Available(s, head + rest), RecordSeconds(rest));
    var front := if s.active then [Seconds(s.startTsMs)] else [];
    var own := if head != [] then [Seconds(head[0].tsMs)] else [];
    SecondsOfConcat(head, rest);
    assert all == front + own + tail;
    assert all[|front|..] == own + tail && all[|front| + |own|..] == tail;
    DifferentTail(all, |front|);
    DifferentTail(all, |front| + |own|);
    if s.active && own != [] {
      DropSecond(front[0], own[0], tail);
    }
    assert s.active ==> Seconds(s.startTsMs) in all[..|front|];
    assert [] + tail == tail;
  }

  lemma SecondsOfConcat(head: seq<Record>, rest: seq<Record>)
    requires |head| <= 1
    ensures RecordSeconds(head + rest) == (if head != [] then [Seconds(head[0].tsMs)] else []) + RecordSeconds(rest)
  {
    hide Seconds;
  }

  lemma DropSecond(x: int, y: int, xs: seq<int>)
    requires AllDifferent([x] + [y] + xs)
    ensures AllDifferent([x] + xs)
  {
    var all := [x] + [y] + xs;
    assert all[0] == x && forall i :: 0 <= i < |xs| ==> all[i + 2] == xs[i];
  }

  lemma {:induction false} InterruptedClips(rs: seq<Record>, p: Params)
    requires PlainRecords(rs)
    ensures ClipSeconds(Clips(Idle(), Interrupted(rs), p)) == RecordSeconds(rs)
  {
    hide Step, Seconds, Run, Clips, Accepted, Feeds, AlignedTarget;
    if rs == [] {
      NoClips(p);
    } else {
      var (front, r) := (rs[..|rs| - 1], rs[|rs| - 1]);
      assert rs == front + [r] && r in rs;
      InterruptedClips(front, p);
      PlainLeavesBytes(front, p);
      PlainLeavesBytes([r], p);
      InterruptedAcceptsAll(front, p);
      assert r in [r];
      FeedAndFinish(r, p);
      RunConcat(Idle(), Interrupted(front), [Feed(r, 0), Finish], p);
      SecondsSnoc(Clips(Idle(), Interrupted(front), p), Snapshot(StartClip(r, 0)), front, r);
    }
  }

  lemma NoClips(p: Params)
    ensures Clips(Idle(), Interrupted([]), p) == []
  {
  }

  lemma SecondsSnoc(cs: seq<Clip>, c: Clip, rs: seq<Record>, r: Record)
    requires ClipSeconds(cs) == RecordSeconds(rs) && c.startTsMs == r.tsMs
    ensures ClipSeconds(cs + [c]) == RecordSeconds(rs + [r])
  {
    assert |ClipSeconds(cs)| == |cs| && |RecordSeconds(rs)| == |rs|;
    forall k | 0 <= k < |cs|
      ensures ClipSeconds(cs + [c])[k] == RecordSeconds(rs + [r])[k]
    {
      assert ClipSeconds(cs)[k] == RecordSeconds(rs)[k];
    }
  }

  lemma PlainLeavesBytes(rs: seq<Record>, p: Params)
    requires PlainRecords(rs)
    ensures LeaveBytes(rs, p)
  {
    hide AlignedTarget;
  }

  /** All clips of all runs over plain records, whatever the gaps, timeouts and flushes, have
      different seconds if and only if the records do. */
  lemma DistinctSecondsExactly(rs: seq<Record>, p: Params)
    requires PlainRecords(rs)
    ensures (forall ins :: Feeds(ins) == rs ==> AllDifferent(ClipSeconds(Clips(Idle(), ins, p))))
       <==> AllDifferent(RecordSeconds(rs))
  {
    hide AllDifferent, Clips, ClipSeconds, Seconds;
    if AllDifferent(RecordSeconds(rs)) {
      assert Available(Idle(), rs) == RecordSeconds(rs);
      forall ins | Feeds(ins) == rs
        ensures AllDifferent(ClipSeconds(Clips(Idle(), ins, p)))
      {
        ClipsStartAtRecords(Idle(), ins, p);
      }
    } else {
      PlainLeavesBytes(rs, p);
      InterruptedAcceptsAll(rs, p);
      InterruptedClips(rs, p);
    }
  }

  // ---------- storing the clips ----------

  /** The rows the ingest loop appends: one per clip, keyed by session and second. */
  ghost predicate StoresClips(rows: seq<Row>, cs: seq<Clip>, session: string) {
    |rows| == |cs| &&
    forall i :: 0 <= i < |cs| ==> rows[i].key == ClipKey(session, Seconds(cs[i].startTsMs))
  }

  /** Last-write-wins storage drops no clip of a session whose clips have different seconds. */
  lemma DifferentSecondsAreKept(cs: seq<Clip>, session: string, rows: seq<Row>)
    requires AllDifferent(ClipSeconds(cs)) && StoresClips(rows, cs, session)
    ensures DistinctKeys(rows)
    ensures |Latest(rows)| == |cs|
    ensures forall r :: r in rows ==> r.key in Latest(rows) && Latest(rows)[r.key] == r
  {
    hide ClipKey, Seconds;
    forall i, j | 0 <= i < j < |rows|
      ensures rows[i].key != rows[j].key
    {
      assert ClipSeconds(cs)[i] != ClipSeconds(cs)[j];
      if rows[i].key == rows[j].key {
        ClipKeyIsInjective(session, Seconds(cs[i].startTsMs), Seconds(cs[j].startTsMs));
      }
    }
    LatestOfDistinct(rows);
  }

  /** Last-write-wins storage drops no clip of a smooth session. */
  lemma NoClipIsOverwritten(ins: seq<Input>, p: Params, session: string, rows: seq<Row>)
    requires Smooth(Idle(), ins, p)
    requires p.clipMs >= 1999 || (p.clipMs >= 1000 && NoNegativeTimes(ins))
    requires StoresClips(rows, SessionClips(ins, p), session)
    ensures DistinctKeys(rows)
    ensures |Latest(rows)| == |SessionClips(ins, p)|
    ensures forall r :: r in rows ==> r.key in Latest(rows) && Latest(rows)[r.key] == r
  {
    hide Seconds;
    ClipSecondsAreDistinct(ins, p);
    DifferentSecondsAreKept(SessionClips(ins, p), session, rows);
  }
}
