/** The clip state machine of applets/stream_merge/sm_fsm.c: first its meaning as a step
    function on values, then the class that updates the fields in place. */
module ClipFsm {
  import opened Machine
  import Events

  datatype Boundary = Metadata | ContinuousByteRange

  /** One validated metadata row. */
  datatype Record = Record(
    sequence: nat, offset: nat, length: nat, tsMs: int,
    continuous: bool, byteRate: nat, frameAlign: nat,
    events: seq<string>, valid: bool)
  {
    function Align(): nat { if frameAlign == 0 then 1 else frameAlign }
    function End(): nat { offset + length }

    /** What the reader guarantees of every number and tag it lets through. */
    ghost predicate FromReader() {
      && sequence <= SAFE_MAX && offset <= SAFE_MAX && length <= SAFE_MAX
      && byteRate <= SAFE_MAX && frameAlign <= SAFE_MAX
      && -(SAFE_MAX as int) <= tsMs <= SAFE_MAX as int
      && Events.WellFormed(events)
    }
  }

  datatype Clip = Clip(
    active: bool, startTsMs: int, endTsMs: int,
    startOffset: nat, totalLength: nat, boundary: Boundary, events: seq<string>)

  datatype State = State(
    active: bool, startTsMs: int, endTsMs: int,
    startOffset: nat, totalLength: nat, expectedSeq: nat, expectedOffset: nat,
    lastChunkWallMs: int, continuous: bool, byteRate: nat, frameAlign: nat,
    boundary: Boundary, events: seq<string>)

  datatype Outcome = Nothing | RejectLate | EmitComplete(clip: Clip) | EmitPartial(clip: Clip)
  {
    predicate Emits() { EmitComplete? || EmitPartial? }
    function Clips(): seq<Clip> { if Emits() then [clip] else [] }
  }

  function Idle(): State {
    State(false, 0, 0, 0, 0, 0, 0, 0, false, 0, 0, Metadata, [])
  }

  /** The byte length of one continuous clip: clip_ms worth of bytes, rounded down to whole frames. */
  function AlignedTarget(clipMs: int, byteRate: nat, frameAlign: nat): nat {
    if clipMs <= 0 || byteRate == 0 then 0
    else
      var target := clipMs * byteRate / 1000;
      if frameAlign > 1 then target - target % frameAlign else target
  }

  function Snapshot(s: State): Clip {
    Clip(s.active, s.startTsMs, s.endTsMs, s.startOffset, s.totalLength, s.boundary, s.events)
  }

  function StartClip(r: Record, nowMs: int): State {
    State(true, r.tsMs, r.tsMs, r.offset, r.length, r.sequence + 1, r.End(),
          nowMs, r.continuous, r.byteRate, r.Align(), Metadata, r.events)
  }

  function AppendRecord(s: State, r: Record, nowMs: int): State {
    s.(endTsMs := r.tsMs, totalLength := s.totalLength + r.length,
       expectedSeq := r.sequence + 1, expectedOffset := r.End(),
       lastChunkWallMs := nowMs, boundary := Metadata,
       events := Events.AddAll(s.events, r.events))
  }

  predicate Compatible(s: State, r: Record) {
    s.continuous && r.continuous && s.byteRate == r.byteRate && s.frameAlign == r.Align()
  }

  /** The record does not continue the window: bytes are missing, or the offset jumped. */
  predicate IsGap(s: State, r: Record) {
    r.sequence > s.expectedSeq || r.offset != s.expectedOffset
  }

  /** Cut one continuous clip off the front of the window, if a whole one is there. */
  function Cut(s: State, clipMs: int): (State, Outcome) {
    var target := AlignedTarget(clipMs, s.byteRate, s.frameAlign);
    if !s.continuous || target == 0 || s.totalLength < target then (s, Nothing)
    else
      (s.(startOffset := s.startOffset + target, totalLength := s.totalLength - target,
          startTsMs := s.startTsMs + clipMs, endTsMs := s.startTsMs + clipMs,
          boundary := Metadata, events := []),
       EmitComplete(Snapshot(s).(endTsMs := s.startTsMs + clipMs, totalLength := target,
                                 boundary := ContinuousByteRange)))
  }

  /** sm_fsm_process_record. */
  function Process(s: State, r: Record, clipMs: int, nowMs: int): (State, Outcome) {
    if !r.valid then (s, Nothing)
    else if !s.active then Cut(StartClip(r, nowMs), clipMs)
    else if r.sequence < s.expectedSeq then (s, RejectLate)
    else if IsGap(s, r) then
      if s.totalLength == 0 then Cut(StartClip(r, nowMs), clipMs)
      else (StartClip(r, nowMs), EmitPartial(Snapshot(s)))
    else if Compatible(s, r) then Cut(AppendRecord(s, r, nowMs), clipMs)
    else if r.tsMs - s.startTsMs >= clipMs then (StartClip(r, nowMs), EmitComplete(Snapshot(s)))
    else (AppendRecord(s, r, nowMs), Nothing)
  }

  /** sm_fsm_check_idle. */
  function CheckIdle(s: State, idleMs: int, nowMs: int): (State, Outcome) {
    if !s.active || s.totalLength == 0 || nowMs - s.lastChunkWallMs < idleMs then (s, Nothing)
    else (Idle(), EmitPartial(Snapshot(s)))
  }

  /** sm_fsm_flush_final. */
  function FlushFinal(s: State): (State, Outcome) {
    if !s.active || s.totalLength == 0 then (s, Nothing)
    else (Idle(), EmitComplete(Snapshot(s)))
  }

  /** What every step keeps: the window's bytes end where the next record must begin, and
      every counter stays below 2^55, far from wrapping. */
  ghost predicate Sound(s: State) {
    && s.startOffset + s.totalLength == s.expectedOffset
    && s.expectedOffset <= 2 * SAFE_MAX
    && s.expectedSeq <= SAFE_MAX + 1
    && s.byteRate <= SAFE_MAX && s.frameAlign <= SAFE_MAX
    && (s.active ==> s.frameAlign >= 1)
    && (!s.active ==> s.totalLength == 0)
  }

  /** The source converts clip_ms * byte_rate / 1000 to an integer; the value must fit one. */
  ghost predicate TargetFits(clipMs: int, byteRate: nat) {
    clipMs * byteRate <= 1000 * SIZE_MAX
  }

  lemma StartIsSound(r: Record, nowMs: int)
    requires r.FromReader()
    ensures Sound(StartClip(r, nowMs))
  {
  }

  lemma AppendIsSound(s: State, r: Record, nowMs: int)
    requires Sound(s) && s.active && r.FromReader() && r.offset == s.expectedOffset
    ensures Sound(AppendRecord(s, r, nowMs))
  {
  }

  lemma CutIsSound(s: State, clipMs: int)
    requires Sound(s)
    ensures Sound(Cut(s, clipMs).0)
  {
  }

  /** No arithmetic on offsets, lengths or sequence numbers can wrap, in any reachable state. */
  lemma ProcessKeepsSound(s: State, r: Record, clipMs: int, nowMs: int)
    requires Sound(s) && r.FromReader()
    ensures Sound(Process(s, r, clipMs, nowMs).0)
  {
    StartIsSound(r, nowMs);
    CutIsSound(StartClip(r, nowMs), clipMs);
    if s.active && !IsGap(s, r) {
      AppendIsSound(s, r, nowMs);
      CutIsSound(AppendRecord(s, r, nowMs), clipMs);
    }
  }

  /** The target is the largest multiple of the frame size that does not exceed clip_ms worth of bytes. */
  lemma TargetIsTight(clipMs: int, byteRate: nat, frameAlign: nat)
    requires frameAlign >= 1
    ensures var target := AlignedTarget(clipMs, byteRate, frameAlign);
      if clipMs <= 0 then target == 0
      else target % frameAlign == 0 && 0 <= clipMs * byteRate - 1000 * target < 1000 * frameAlign
  {
    var p := clipMs * byteRate;
    var whole := p / 1000;
    assert 0 <= p - 1000 * whole < 1000;
    if clipMs <= 0 || byteRate == 0 {
      assert byteRate == 0 ==> p == 0;
    } else if frameAlign > 1 {
      var rest := whole % frameAlign;
      var frames := whole / frameAlign;
      assert whole == frameAlign * frames + rest;
      RemainderIsUnique(frameAlign * frames, frameAlign, frames, 0);
    }
  }

  lemma TargetFitsAWord(clipMs: int, byteRate: nat, frameAlign: nat)
    requires TargetFits(clipMs, byteRate)
    ensures AlignedTarget(clipMs, byteRate, frameAlign) <= SIZE_MAX
  {
  }

  /** sm_fsm_t. Byte offsets, byte counts and sequence numbers are 64-bit; the verifier
      refuses any arithmetic on them that could wrap. */
  class Fsm {
    var active: bool
    var startTsMs: int
    var endTsMs: int
    var startOffset: uint64
    var totalLength: uint64
    var expectedSeq: uint64
    var expectedOffset: uint64
    var lastChunkWallMs: int
    var continuous: bool
    var byteRate: uint64
    var frameAlign: uint64
    var boundary: Boundary
    const events: Events.EventSet

    ghost predicate Valid()
      reads this, events, events.items
    {
      events.Valid() && Sound(View())
    }

    ghost function View(): State
      requires events.Valid()
      reads this, events, events.items
    {
      State(active, startTsMs, endTsMs, startOffset as nat, totalLength as nat,
            expectedSeq as nat, expectedOffset as nat, lastChunkWallMs, continuous,
            byteRate as nat, frameAlign as nat, boundary, events.Contents())
    }

    constructor ()
      ensures Valid() && View() == Idle() && fresh(events) && fresh(events.items)
    {
      active, startTsMs, endTsMs, startOffset, totalLength := false, 0, 0, 0, 0;
      expectedSeq, expectedOffset, lastChunkWallMs := 0, 0, 0;
      continuous, byteRate, frameAlign, boundary := false, 0, 0, Metadata;
      events := new Events.EventSet();
    }

    method Reset()
      requires events.Valid()
      modifies this, events, events.items
      ensures Valid() && View() == Idle()
    {
      hide Events.EventSet.Valid, Events.EventSet.Contents;
      ClearWords();
      active, startTsMs, endTsMs, lastChunkWallMs := false, 0, 0, 0;
      continuous, boundary := false, Metadata;
      events.Reset();
    }

    method ClearWords()
      modifies `startOffset, `totalLength, `expectedSeq, `expectedOffset, `byteRate, `frameAlign
      ensures startOffset == totalLength == expectedSeq == expectedOffset == byteRate == frameAlign == 0
    {
      startOffset, totalLength, expectedSeq, expectedOffset := 0, 0, 0, 0;
      byteRate, frameAlign := 0, 0;
    }

    method TakeSnapshot() returns (clip: Clip)
      requires Valid()
      ensures clip == Snapshot(View())
    {
      var tags := events.Snapshot();
      clip := Clip(active, startTsMs, endTsMs, startOffset as nat, totalLength as nat, boundary, tags);
    }

    method Start(r: Record, nowMs: int)
      requires Valid() && r.FromReader()
      modifies this, events, events.items
      ensures Valid() && View() == StartClip(r, nowMs)
    {
      hide Events.EventSet.Contents, Events.EventSet.Valid, Events.WellFormed;
      SetPlace(r);
      SetRate(r);
      active := true;
      startTsMs, endTsMs := r.tsMs, r.tsMs;
      lastChunkWallMs := nowMs;
      boundary := Metadata;
      events.CopyFrom(r.events);
    }

    /** Where the window lies, in 64-bit words. */
    method SetPlace(r: Record)
      requires r.FromReader()
      modifies `startOffset, `totalLength, `expectedSeq, `expectedOffset
      ensures startOffset as nat == r.offset && totalLength as nat == r.length
      ensures expectedSeq as nat == r.sequence + 1 && expectedOffset as nat == r.End()
    {
      hide Events.WellFormed;
      startOffset, totalLength := r.offset as uint64, r.length as uint64;
      expectedSeq := r.sequence as uint64 + 1;
      expectedOffset := r.offset as uint64 + r.length as uint64;
    }

    method SetRate(r: Record)
      requires r.FromReader()
      modifies `continuous, `byteRate, `frameAlign
      ensures continuous == r.continuous && byteRate as nat == r.byteRate && frameAlign as nat == r.Align()
    {
      hide Events.WellFormed;
      continuous, byteRate := r.continuous, r.byteRate as uint64;
      frameAlign := if r.frameAlign == 0 then 1 else r.frameAlign as uint64;
    }

    method Append(r: Record, nowMs: int)
      requires Valid() && r.FromReader()
      requires active && r.offset == expectedOffset as nat
      modifies this, events, events.items
      ensures Valid() && View() == AppendRecord(old(View()), r, nowMs)
    {
      endTsMs := r.tsMs;
      totalLength := totalLength + r.length as uint64;
      expectedSeq := r.sequence as uint64 + 1;
      expectedOffset := r.offset as uint64 + r.length as uint64;
      lastChunkWallMs := nowMs;
      boundary := Metadata;
      var _ := events.AddAllTags(r.events);
    }

    method MaybeCut(clipMs: int) returns (o: Outcome)
      requires Valid() && active && TargetFits(clipMs, byteRate as nat)
      modifies this, events, events.items
      ensures Valid() && (View(), o) == Cut(old(View()), clipMs)
    {
      TargetFitsAWord(clipMs, byteRate as nat, frameAlign as nat);
      var target := AlignedTarget(clipMs, byteRate as nat, frameAlign as nat) as uint64;
      if !continuous || target == 0 || totalLength < target {
        return Nothing;
      }
      var clip := TakeSnapshot();
      o := EmitComplete(clip.(endTsMs := startTsMs + clipMs, totalLength := target as nat,
                              boundary := ContinuousByteRange));
      startOffset := startOffset + target;
      totalLength := totalLength - target;
      startTsMs := startTsMs + clipMs;
      endTsMs := startTsMs;
      boundary := Metadata;
      events.Reset();
    }

    method ProcessRecord(r: Record, clipMs: int, nowMs: int) returns (o: Outcome)
      requires Valid() && r.FromReader()
      requires TargetFits(clipMs, r.byteRate)
      modifies this, events, events.items
      ensures Valid() && (View(), o) == Process(old(View()), r, clipMs, nowMs)
    {
      hide Events.WellFormed, Events.Distinct;
      if !r.valid {
        return Nothing;
      }
      if !active {
        Start(r, nowMs);
        o := MaybeCut(clipMs);
        return;
      }
      if r.sequence < expectedSeq as nat {
        return RejectLate;
      }
      if totalLength == 0 && (r.sequence > expectedSeq as nat || r.offset != expectedOffset as nat) {
        Start(r, nowMs);
        o := MaybeCut(clipMs);
        return;
      }
      if r.sequence > expectedSeq as nat || r.offset != expectedOffset as nat {
        var clip := TakeSnapshot();
        Start(r, nowMs);
        return EmitPartial(clip);
      }
      if continuous && r.continuous && byteRate as nat == r.byteRate && frameAlign as nat == r.Align() {
        Append(r, nowMs);
        o := MaybeCut(clipMs);
        return;
      }
      if r.tsMs - startTsMs >= clipMs {
        var clip := TakeSnapshot();
        Start(r, nowMs);
        return EmitComplete(clip);
      }
      Append(r, nowMs);
      return Nothing;
    }

    method CheckIdleTimeout(idleMs: int, nowMs: int) returns (o: Outcome)
      requires Valid()
      modifies this, events, events.items
      ensures Valid() && (View(), o) == CheckIdle(old(View()), idleMs, nowMs)
    {
      if !active || totalLength == 0 || nowMs - lastChunkWallMs < idleMs {
        return Nothing;
      }
      var clip := TakeSnapshot();
      Reset();
      return EmitPartial(clip);
    }

    method Flush() returns (o: Outcome)
      requires Valid()
      modifies this, events, events.items
      ensures Valid() && (View(), o) == FlushFinal(old(View()))
    {
      if !active || totalLength == 0 {
        return Nothing;
      }
      var clip := TakeSnapshot();
      Reset();
      return EmitComplete(clip);
    }
  }
}
