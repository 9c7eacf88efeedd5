/** The in-place part of applets/stream_merge/stream_merge.c: the read loop, the line loop
    over the metadata buffer, and the main loop. */
module StreamMerge {
  import opened Machine
  import opened ClipFsm
  import opened MetaDrain
  import opened Text
  import DB = DynamicBuffer

  /** The size of the read buffer. */
  const CHUNK: nat := 4096

  /** The bytes waiting in the sidecar when a drain starts, the clock readings of its records
      and the allocator's answers. */
  datatype Batch = Batch(bytes: string, clock: nat -> int, grants: nat -> bool)

  /** One turn of the main loop: the drain, if the sidecar was readable, and the time of the
      idle check. */
  datatype Turn = Turn(batch: Option<Batch>, nowMs: int)

  /** The reader turns every data row into numbers the machine can hold. */
  ghost predicate Trusted(env: Env) {
    forall line: string :: DataRow(line, env).Some? ==>
      DataRow(line, env).value.FromReader() && TargetFits(env.p.clipMs, DataRow(line, env).value.byteRate)
  }

  function TurnOps(t: Turn): seq<Op> {
    (if t.batch.Some? then [Drain(t.batch.value.bytes, t.batch.value.clock)] else []) + [IdleCheck(t.nowMs)]
  }

  function TurnsOps(turns: seq<Turn>): seq<Op> {
    if turns == [] then [] else TurnsOps(turns[..|turns| - 1]) + TurnOps(turns[|turns| - 1])
  }

  /** The events of a whole session: the first drain, the turns of the loop, the last drain. */
  function SessionOps(first: Batch, turns: seq<Turn>, last: Batch): seq<Op> {
    [Drain(first.bytes, first.clock)] + TurnsOps(turns) + [Drain(last.bytes, last.clock)]
  }

  ghost predicate Granted(b: Batch) { forall n: nat :: b.grants(n) }

  ghost predicate AllGranted(turns: seq<Turn>) {
    forall i :: 0 <= i < |turns| && turns[i].batch.Some? ==> Granted(turns[i].batch.value)
  }

  lemma PieceAppended(before: string, bytes: string, pos: nat, got: nat)
    requires pos + got <= |bytes|
    ensures (before + bytes[..pos]) + bytes[pos..pos + got] == before + bytes[..pos + got]
  {
    assert bytes[..pos] + bytes[pos..pos + got] == bytes[..pos + got];
  }

  /** The bytes that the turns find in the sidecar, in order. */
  function TurnBytes(turns: seq<Turn>): string {
    if turns == [] then ""
    else
      TurnBytes(turns[..|turns| - 1])
        + (if turns[|turns| - 1].batch.Some? then turns[|turns| - 1].batch.value.bytes else "")
  }

  lemma {:induction false} TurnsReadTheirBytes(turns: seq<Turn>)
    ensures BytesRead(TurnsOps(turns)) == TurnBytes(turns)
  {
    hide TurnOps;
    if turns == [] {
      NothingRead();
    } else {
      var (front, t) := (turns[..|turns| - 1], turns[|turns| - 1]);
      TurnsReadTheirBytes(front);
      BytesReadConcat(TurnsOps(front), TurnOps(t));
      BytesOfTurn(t);
    }
  }

  lemma NothingRead()
    ensures BytesRead([]) == ""
  {
  }

  /** No byte of the sidecar is left unread: the first drain, the turns and the last drain. */
  lemma SessionReadsEverything(first: Batch, turns: seq<Turn>, last: Batch)
    ensures BytesRead(SessionOps(first, turns, last)) == first.bytes + TurnBytes(turns) + last.bytes
  {
    hide BytesRead, TurnsOps, TurnBytes;
    var (a, b, c) := ([Drain(first.bytes, first.clock)], TurnsOps(turns), [Drain(last.bytes, last.clock)]);
    BytesOfDrain(first.bytes, first.clock);
    BytesOfDrain(last.bytes, last.clock);
    TurnsReadTheirBytes(turns);
    BytesReadConcat(a, b);
    BytesReadConcat(a + b, c);
  }

  class Merger {
    const env: Env
    const fsm: Fsm
    const metaBuf: DB.Buffer
    var printed: seq<Emission>

    ghost predicate Valid()
      reads this, fsm, fsm.events, fsm.events.items, metaBuf, metaBuf.data
    {
      fsm.Valid() && metaBuf.Valid()
    }

    ghost function View(): Reader
      requires Valid()
      reads this, fsm, fsm.events, fsm.events.items, metaBuf, metaBuf.data
    {
      Reader(metaBuf.Contents(), fsm.View())
    }

    constructor (env: Env)
      ensures this.env == env && printed == []
      ensures fresh(fsm) && fresh(fsm.events) && fresh(fsm.events.items) && fresh(metaBuf)
      ensures Valid() && View() == Reader("", Idle()) && metaBuf.data == null && !metaBuf.failed
    {
      this.env := env;
      fsm := new Fsm();
      metaBuf := new DB.Buffer();
      printed := [];
    }

    lemma PendingIsBuffered()
      requires Valid()
      ensures metaBuf.Shape() && metaBuf.Sane() && View().pending == metaBuf.Contents()
    {
    }

    /** handle_action. */
    method Print(o: Outcome)
      modifies `printed
      ensures printed == old(printed) + Printed(o)
    {
      if o.EmitComplete? && o.clip.active {
        printed := printed + [Emission(o.clip, true)];
      }
      if o.EmitPartial? && o.clip.active {
        printed := printed + [Emission(o.clip, false)];
      }
    }

    /** The read loop: append whatever is available, at most CHUNK bytes at a time. */
    method ReadAll(bytes: string, grants: nat -> bool) returns (ok: bool)
      requires metaBuf.Valid()
      modifies metaBuf, metaBuf.data
      ensures metaBuf.Valid() && (metaBuf.data == old(metaBuf.data) || fresh(metaBuf.data))
      ensures ok ==> metaBuf.Contents() == old(metaBuf.Contents()) + bytes
      ensures ok ==> metaBuf.failed == old(metaBuf.failed)
      ensures !ok ==> metaBuf.failed
      ensures (forall n: nat :: grants(n)) && old(metaBuf.CanTake(|bytes|)) ==> ok
    {
      hide Flatten;
      var pos, calls := 0, 0;
      while pos < |bytes|
        invariant 0 <= pos <= |bytes|
        invariant metaBuf.Valid() && (metaBuf.data == old(metaBuf.data) || fresh(metaBuf.data))
        invariant metaBuf.Contents() == old(metaBuf.Contents()) + bytes[..pos]
        invariant metaBuf.failed == old(metaBuf.failed)
      {
        var got: nat :| 1 <= got <= CHUNK && pos + got <= |bytes|;
        var chunk := bytes[pos..pos + got];
        var appended := metaBuf.AppendMem(Some(chunk), got as uint64, grants(calls));
        if !appended {
          return false;
        }
        PieceAppended(old(metaBuf.Contents()), bytes, pos, got);
        pos, calls := pos + got, calls + 1;
      }
      assert bytes[..pos] == bytes;
      return true;
    }

    /** memchr for a newline in the buffered text. */
    method FindNewline() returns (n: nat)
      requires metaBuf.Valid()
      ensures n == IndexOf(metaBuf.Contents(), '\n')
    {
      n := 0;
      while n < metaBuf.len as nat && metaBuf.data[n] != '\n'
        invariant n <= metaBuf.len as nat == |metaBuf.Contents()|
        invariant forall i :: 0 <= i < n ==> metaBuf.Contents()[i] != '\n'
      {
        n := n + 1;
      }
      IndexIsUnique(metaBuf.Contents(), '\n', n);
    }

    /** memmove the rest of the text to the front. */
    method Consume(n: nat)
      requires metaBuf.Valid() && n <= metaBuf.len as nat && metaBuf.data != null
      modifies metaBuf, metaBuf.data
      ensures metaBuf.Valid() && metaBuf.data == old(metaBuf.data)
      ensures metaBuf.Contents() == old(metaBuf.Contents())[n..]
      ensures metaBuf.failed == old(metaBuf.failed)
    {
      var rest := metaBuf.len as nat - n;
      forall i | 0 <= i < rest {
        metaBuf.data[i] := metaBuf.data[i + n];
      }
      metaBuf.len := rest as uint64;
      metaBuf.data[rest] := '\0';
      assert metaBuf.data[..rest] == old(metaBuf.data[..metaBuf.len])[n..];
      metaBuf.appended := [metaBuf.data[..rest]];
      FlattenSnoc([], metaBuf.data[..rest]);
    }

    /** One complete line: parse it and feed it. */
    method Feed(line: string, nowMs: int)
      requires fsm.Valid() && Trusted(env)
      modifies `printed, fsm, fsm.events, fsm.events.items
      ensures fsm.Valid()
      ensures fsm.View() == FeedLine(old(fsm.View()), line, nowMs, env).0
      ensures printed == old(printed) + FeedLine(old(fsm.View()), line, nowMs, env).1
    {
      hide Process;
      var row := DataRow(line, env);
      if row.Some? {
        var o := fsm.ProcessRecord(row.value, env.p.clipMs, nowMs);
        Print(o);
      }
    }

    /** One turn of the line loop: feed and remove the first complete line, if there is one. */
    method FeedFirstLine(nowMs: int) returns (more: bool)
      requires Valid() && Trusted(env)
      modifies `printed, fsm, fsm.events, fsm.events.items, metaBuf, metaBuf.data
      ensures Valid() && metaBuf.data == old(metaBuf.data)
      ensures metaBuf.failed == old(metaBuf.failed)
      ensures var (d, n) := (old(View()), IndexOf(old(View()).pending, '\n'));
        && (more <==> n < |d.pending|)
        && (!more ==> View() == d && printed == old(printed))
        && (more ==> View() == Reader(d.pending[n + 1..], FeedLine(d.fsm, d.pending[..n], nowMs, env).0))
        && (more ==> printed == old(printed) + FeedLine(d.fsm, d.pending[..n], nowMs, env).1)
    {
      hide FeedLine, ClipFsm.Sound, IndexOf, Flatten;
      var n := FindNewline();
      if n == metaBuf.len as nat {
        return false;
      }
      var line := metaBuf.data[..n];
      assert line == metaBuf.Contents()[..n];
      Feed(line, nowMs);
      Consume(n + 1);
      return true;
    }

    /** The line loop of drain_meta. */
    method FeedBufferedLines(clock: nat -> int)
      requires Valid() && Trusted(env)
      modifies `printed, fsm, fsm.events, fsm.events.items, metaBuf, metaBuf.data
      ensures Valid() && metaBuf.data == old(metaBuf.data) && metaBuf.failed == old(metaBuf.failed)
      ensures View() == FeedPending(old(View()), clock, 0, env).0
      ensures |View().pending| <= |old(View()).pending|
      ensures printed == old(printed) + FeedPending(old(View()), clock, 0, env).1
    {
      hide FeedLine, FeedPending, Valid, View;
      ghost var (d', es') := FeedPending(View(), clock, 0, env);
      FeedingShortens(View(), clock, 0, env);
      ghost var es: seq<Emission> := [];
      assert [] + es' == es';
      var fed := 0;
      var more := true;
      while more
        invariant Valid() && metaBuf.data == old(metaBuf.data) && metaBuf.failed == old(metaBuf.failed)
        invariant printed == old(printed) + es
        invariant (d', es') == (FeedPending(View(), clock, fed, env).0, es + FeedPending(View(), clock, fed, env).1)
        invariant !more ==> FeedPending(View(), clock, fed, env) == (View(), [])
        decreases |View().pending|, more
      {
        ghost var d, was := View(), printed;
        more := FeedFirstLine(clock(fed));
        if more {
          FeedFirstOfPending(d, clock, fed, env);
          ghost var e1 := FeedLine(d.fsm, d.pending[..IndexOf(d.pending, '\n')], clock(fed), env).1;
          ghost var rest := FeedPending(View(), clock, fed + 1, env).1;
          assert es + (e1 + rest) == (es + e1) + rest;
          assert (old(printed) + es) + e1 == old(printed) + (es + e1);
          es := es + e1;
          fed := fed + 1;
        } else {
          FeedNoneOfPending(d, clock, fed, env);
        }
      }
      assert es + [] == es;
    }

    /** drain_meta. On an allocation failure nothing is fed and the buffer stays latched. */
    method DrainMeta(b: Batch) returns (ok: bool)
      requires Valid() && Trusted(env)
      modifies `printed, fsm, fsm.events, fsm.events.items, metaBuf, metaBuf.data
      ensures Valid() && (metaBuf.data == old(metaBuf.data) || fresh(metaBuf.data))
      ensures ok ==> View() == Do(old(View()), Drain(b.bytes, b.clock), env).0
      ensures ok ==> printed == old(printed) + Do(old(View()), Drain(b.bytes, b.clock), env).1
      ensures ok ==> metaBuf.failed == old(metaBuf.failed)
      ensures ok ==> |View().pending| <= |old(View()).pending| + |b.bytes|
      ensures !ok ==> fsm.View() == old(fsm.View()) && printed == old(printed) && metaBuf.failed
      ensures Granted(b) && old(metaBuf.CanTake(|b.bytes|)) ==> ok
    {
      hide FeedPending, ClipFsm.Sound;
      ok := ReadAll(b.bytes, b.grants);
      if !ok {
        return false;
      }
      FeedBufferedLines(b.clock);
    }

    /** check_idle. */
    method CheckIdleNow(nowMs: int)
      requires Valid()
      modifies `printed, fsm, fsm.events, fsm.events.items
      ensures Valid()
      ensures View() == Do(old(View()), IdleCheck(nowMs), env).0
      ensures printed == old(printed) + Do(old(View()), IdleCheck(nowMs), env).1
    {
      hide ClipFsm.Sound;
      var o := fsm.CheckIdleTimeout(env.p.idleMs, nowMs);
      Print(o);
    }

    /** One turn of the main loop: drain if the sidecar was readable, then check for a timeout. */
    method TakeTurn(turn: Turn) returns (ok: bool)
      requires Valid() && Trusted(env)
      modifies `printed, fsm, fsm.events, fsm.events.items, metaBuf, metaBuf.data
      ensures Valid() && (metaBuf.data == old(metaBuf.data) || fresh(metaBuf.data))
      ensures ok ==> View() == DoAll(old(View()), TurnOps(turn), env).0
      ensures ok ==> printed == old(printed) + DoAll(old(View()), TurnOps(turn), env).1
      ensures ok ==> metaBuf.failed == old(metaBuf.failed)
      ensures ok ==> |View().pending| <= |old(View()).pending| + |BytesRead(TurnOps(turn))|
      ensures !ok ==> printed == old(printed)
      ensures ok && turn.batch.Some? ==>
        FreshData(old(View()), turn.batch.value.bytes, turn.batch.value.clock, turn.nowMs, env) ==>
          var (d, es) := Do(old(View()), Drain(turn.batch.value.bytes, turn.batch.value.clock), env);
          View() == d && printed == old(printed) + es
      ensures AllGranted([turn]) && old(metaBuf.CanTake(|BytesRead(TurnOps(turn))|)) ==> ok
    {
      hide Do, FreshData, ClipFsm.Sound;
      ghost var start, base := View(), printed;
      BytesOfTurn(turn);
      if turn.batch.Some? {
        assert AllGranted([turn]) ==> Granted([turn][0].batch.value);
        ok := DrainMeta(turn.batch.value);
        if !ok {
          return;
        }
        ghost var op := Drain(turn.batch.value.bytes, turn.batch.value.clock);
        if FreshData(start, turn.batch.value.bytes, turn.batch.value.clock, turn.nowMs, env) {
          FreshDataPreventsTimeout(start, turn.batch.value.bytes, turn.batch.value.clock, turn.nowMs, env);
        }
        Single(start, op, env);
        Extend(start, [op], IdleCheck(turn.nowMs), base, env);
      } else {
        Single(start, IdleCheck(turn.nowMs), env);
      }
      CheckIdleNow(turn.nowMs);
      return true;
    }

    /** The body of stream_merge_main: drain, then the loop until the sentinel is seen, then a
        last drain and the final flush. It ends early only when memory for the unfinished text
        runs out, and has then printed a first part of what the session prints. */
    method Serve(first: Batch, turns: seq<Turn>, last: Batch) returns (ok: bool)
      requires Valid() && Trusted(env)
      modifies `printed, fsm, fsm.events, fsm.events.items, metaBuf, metaBuf.data
      ensures Valid()
      ensures ok ==> printed == old(printed) + Session(old(View()), SessionOps(first, turns, last), env)
      ensures old(printed) <= printed <= old(printed) + Session(old(View()), SessionOps(first, turns, last), env)
      ensures Granted(first) && AllGranted(turns) && Granted(last) ==>
        old(metaBuf.CanTake(|BytesRead(SessionOps(first, turns, last))|)) ==> ok
    {
      hide Do, DoAll, TurnOps, TurnsOps, BytesRead, FreshData, Valid, View, FlushFinal, Printed, Session;
      ghost var start, base, all := View(), printed, SessionOps(first, turns, last);
      ghost var ops := [Drain(first.bytes, first.clock)];
      BytesOfDrain(first.bytes, first.clock);
      PendingIsBuffered();
      PartOfSession(start, ops, all, base, env);
      ok := DrainMeta(first);
      if !ok {
        return;
      }
      Single(start, ops[0], env);
      NoTurns(turns);
      var i := 0;
      while i < |turns|
        invariant 0 <= i <= |turns|
        invariant Valid() && (metaBuf.data == old(metaBuf.data) || fresh(metaBuf.data))
        invariant ops == [Drain(first.bytes, first.clock)] + TurnsOps(turns[..i])
        invariant View() == DoAll(start, ops, env).0
        invariant printed == base + DoAll(start, ops, env).1
        invariant metaBuf.failed == old(metaBuf.failed) && |View().pending| <= |start.pending| + |BytesRead(ops)|
      {
        assert [turns[i]][0] == turns[i];
        TurnOfSession(start, first, turns, last, i, base, env);
        PendingIsBuffered();
        ok := TakeTurn(turns[i]);
        if !ok {
          return;
        }
        ops := ops + TurnOps(turns[i]);
        i := i + 1;
      }
      assert turns[..i] == turns;
      PartOfSession(start, ops, all, base, env);
      BytesReadConcat(ops, [Drain(last.bytes, last.clock)]);
      BytesOfDrain(last.bytes, last.clock);
      PendingIsBuffered();
      ok := DrainMeta(last);
      if !ok {
        return;
      }
      Extend(start, ops, Drain(last.bytes, last.clock), base, env);
      ops := ops + [Drain(last.bytes, last.clock)];
      assert ops == all;
      FlushNow();
      SessionIsAll(start, all, base, env);
    }

    /** The final flush. */
    method FlushNow()
      requires Valid()
      modifies `printed, fsm, fsm.events, fsm.events.items
      ensures Valid() && printed == old(printed) + Printed(FlushFinal(old(View()).fsm).1)
    {
      hide ClipFsm.Sound;
      var o := fsm.Flush();
      Print(o);
    }
  }

  lemma NoTurns(turns: seq<Turn>)
    ensures TurnsOps(turns[..0]) == []
  {
    assert turns[..0] == [];
  }

  lemma NextTurn(turns: seq<Turn>, i: nat)
    requires i < |turns|
    ensures TurnsOps(turns[..i + 1]) == TurnsOps(turns[..i]) + TurnOps(turns[i])
    ensures TurnsOps(turns[..i]) <= TurnsOps(turns[..i + 1]) <= TurnsOps(turns)
  {
    hide TurnOps;
    assert turns[..i + 1][..i] == turns[..i];
    TurnsPrefix(turns, i + 1);
  }

  lemma {:induction false} TurnsPrefix(turns: seq<Turn>, i: nat)
    requires i <= |turns|
    ensures TurnsOps(turns[..i]) <= TurnsOps(turns)
  {
    hide TurnOps;
    if i == |turns| {
      assert turns[..i] == turns;
    } else {
      var n := |turns| - 1;
      TurnsPrefix(turns[..n], i);
      assert turns[..n][..i] == turns[..i];
    }
  }

  lemma BytesOfTurn(t: Turn)
    ensures BytesRead(TurnOps(t)) == if t.batch.Some? then t.batch.value.bytes else ""
  {
    var tick := [IdleCheck(t.nowMs)];
    assert tick[1..] == [] && BytesRead(tick) == "" + BytesRead([]) == "";
    if t.batch.Some? {
      BytesOfDrain(t.batch.value.bytes, t.batch.value.clock);
      BytesReadConcat([Drain(t.batch.value.bytes, t.batch.value.clock)], tick);
      assert t.batch.value.bytes + "" == t.batch.value.bytes;
    } else {
      assert [] + tick == tick;
    }
  }

  lemma BytesOfDrain(bytes: string, clock: nat -> int)
    ensures BytesRead([Drain(bytes, clock)]) == bytes
  {
    assert [Drain(bytes, clock)][1..] == [];
  }

  /** Stopping after a first part of the operations: the bytes read and the clips printed are a
      first part of the session's. */
  lemma PartOfSession(d: Reader, part: seq<Op>, all: seq<Op>, base: seq<Emission>, env: Env)
    requires part <= all
    ensures |BytesRead(part)| <= |BytesRead(all)|
    ensures base <= base + DoAll(d, part, env).1 <= base + Session(d, all, env)
  {
    hide DoAll, BytesRead, Printed, FlushFinal;
    var rest := all[|part|..];
    assert all == part + rest;
    BytesReadConcat(part, rest);
    DoAllConcat(d, part, rest, env);
    var (e1, e2, last) := (DoAll(d, part, env).1, DoAll(DoAll(d, part, env).0, rest, env).1,
      Printed(FlushFinal(DoAll(d, all, env).0.fsm).1));
    assert DoAll(d, all, env).1 == e1 + e2;
    assert Session(d, all, env) == (e1 + e2) + last;
    assert base + ((e1 + e2) + last) == (base + e1) + (e2 + last);
  }

  /** The i-th turn as a part of the session. */
  lemma TurnOfSession(
    d: Reader, first: Batch, turns: seq<Turn>, last: Batch, i: nat, base: seq<Emission>, env: Env)
    requires i < |turns|
    ensures var (ops, turn) := ([Drain(first.bytes, first.clock)] + TurnsOps(turns[..i]), TurnOps(turns[i]));
      var ((d1, e1), all) := (DoAll(d, ops, env), SessionOps(first, turns, last));
      && ops + turn == [Drain(first.bytes, first.clock)] + TurnsOps(turns[..i + 1])
      && |BytesRead(ops)| + |BytesRead(turn)| == |BytesRead(ops + turn)| <= |BytesRead(all)|
      && base <= base + e1 <= base + Session(d, all, env)
      && DoAll(d, ops + turn, env) == (DoAll(d1, turn, env).0, e1 + DoAll(d1, turn, env).1)
      && base + (e1 + DoAll(d1, turn, env).1) == (base + e1) + DoAll(d1, turn, env).1
  {
    hide DoAll, BytesRead, TurnOps, TurnsOps, Session;
    var (ops, turn) := ([Drain(first.bytes, first.clock)] + TurnsOps(turns[..i]), TurnOps(turns[i]));
    var all := SessionOps(first, turns, last);
    NextTurn(turns, i);
    PartOfSession(d, ops, all, base, env);
    BytesReadConcat(ops, turn);
    PartOfSession(d, ops + turn, all, base, env);
    DoAllConcat(d, ops, turn, env);
  }

  lemma SessionIsAll(d: Reader, all: seq<Op>, base: seq<Emission>, env: Env)
    ensures (base + DoAll(d, all, env).1) + Printed(FlushFinal(DoAll(d, all, env).0.fsm).1)
      == base + Session(d, all, env)
  {
    hide DoAll, Printed, FlushFinal;
    var (e, last) := (DoAll(d, all, env).1, Printed(FlushFinal(DoAll(d, all, env).0.fsm).1));
    assert (base + e) + last == base + (e + last);
  }

  lemma Single(d: Reader, op: Op, env: Env)
    ensures DoAll(d, [op], env) == Do(d, op, env)
  {
    var (d1, e1) := Do(d, op, env);
    assert [op][1..] == [] && e1 + [] == e1;
    assert DoAll(d1, [], env) == (d1, []);
  }

  lemma Extend(d: Reader, ops: seq<Op>, op: Op, base: seq<Emission>, env: Env)
    ensures var ((d1, e1), (d2, e2)) := (DoAll(d, ops, env), Do(DoAll(d, ops, env).0, op, env));
      DoAll(d, ops + [op], env) == (d2, e1 + e2) && base + (e1 + e2) == (base + e1) + e2
  {
    hide Do;
    DoAllConcat(d, ops, [op], env);
    Single(DoAll(d, ops, env).0, op, env);
  }
}
