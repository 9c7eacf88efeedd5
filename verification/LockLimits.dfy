/** Exactly when every run of a set of clip_store processes on one database path is sequential. */
module LockLimits {
  import opened Machine
  import opened RowLog
  import opened StoreLock

  /** The effects of all processes that got a lock, in lock order. */
  ghost function LockHistory(w: World): seq<Effect> {
    seq(|w.locks|, i requires 0 <= i < |w.locks| =>
      if w.locks[i] < |w.procs| then w.procs[w.locks[i]].Did() else Block([]))
  }

  ghost predicate NotBefore(jobs: seq<Job>, t: int) {
    forall p :: 0 <= p < |jobs| && jobs[p].Compactor? ==> jobs[p].now <= t
  }

  /** A reader sees the rows of all lockers in lock order, as if nothing had been compacted. */
  ghost predicate IsSequential(w: World, rows: seq<Row>, t: int) {
    w.path < |w.files| && LiveView(w.files[w.path], t) == LiveView(WrittenRows(rows, LockHistory(w)), t)
  }

  /** Whatever the log, the interleaving and the reader's time, not before any compaction. */
  ghost predicate AlwaysSequential(jobs: seq<Job>) {
    forall rows, es, t :: Legal(Initial(rows, |jobs|), jobs, es) && NotBefore(jobs, t) ==>
      IsSequential(Final(Initial(rows, |jobs|), jobs, es), rows, t)
  }

  /** There is a compactor, and a writer with something to write. */
  ghost predicate Mixed(jobs: seq<Job>) {
    exists p, q :: 0 <= p < |jobs| && 0 <= q < |jobs| && jobs[p].Compactor? && jobs[q].Writer? && jobs[q].rows != []
  }

  ghost predicate AreCompactors(jobs: seq<Job>, a: nat, b: nat, c: nat) {
    && a < |jobs| && b < |jobs| && c < |jobs| && a != b && b != c && a != c
    && jobs[a].Compactor? && jobs[b].Compactor? && jobs[c].Compactor?
  }

  ghost predicate ThreeCompactors(jobs: seq<Job>) {
    exists a, b, c :: AreCompactors(jobs, a, b, c)
  }

  // ---------- no stale lock ----------

  lemma {:induction false} NothingStale(w: World, jobs: seq<Job>, es: seq<Event>)
    requires Legal(w, jobs, es) && NoStaleLock(w, jobs, es) && w.locks == w.order
    ensures NoStaleCompactor(w, jobs, es)
    ensures Final(w, jobs, es).locks == Final(w, jobs, es).order
    decreases |es|
  {
    hide IsCompaction;
    if es != [] {
      NothingStale(After(w, jobs, es[0]), jobs, es[1..]);
    }
  }

  /** Without a stale lock a run is sequential. */
  lemma FreshLocksAreSequential(rows: seq<Row>, jobs: seq<Job>, es: seq<Event>, t: int)
    requires Legal(Initial(rows, |jobs|), jobs, es) && NoStaleLock(Initial(rows, |jobs|), jobs, es)
    requires NotBefore(jobs, t)
    ensures IsSequential(Final(Initial(rows, |jobs|), jobs, es), rows, t)
  {
    hide Legal, NoStaleLock, NoStaleCompactor, Final, LiveView, Replay, Faithful;
    NothingStale(Initial(rows, |jobs|), jobs, es);
    FinalViewIsSequential(rows, jobs, es, t);
    var w := Final(Initial(rows, |jobs|), jobs, es);
    assert History(w) == LockHistory(w);
  }

  // ---------- writers only ----------

  /** Nobody can rename: all processes work on the one file. */
  ghost predicate OneFile(w: World) {
    && w.path == 0 && |w.files| == 1
    && forall p :: 0 <= p < |w.procs| ==>
         !w.procs[p].Loaded? && !w.procs[p].Copying? && (w.procs[p].Opened? ==> w.procs[p].ino == 0)
  }

  lemma {:induction false} WithoutCompactors(w: World, jobs: seq<Job>, es: seq<Event>)
    requires Legal(w, jobs, es) && OneFile(w) && forall p :: 0 <= p < |jobs| ==> jobs[p].Writer?
    ensures NoStaleLock(w, jobs, es)
    decreases |es|
  {
    hide IsCompaction;
    if es != [] {
      WithoutCompactors(After(w, jobs, es[0]), jobs, es[1..]);
    }
  }

  // ---------- at most two compactors, nothing to write ----------

  ghost predicate NothingToWrite(jobs: seq<Job>) {
    forall q :: 0 <= q < |jobs| && jobs[q].Writer? ==> jobs[q].rows == []
  }

  ghost predicate SameView(a: seq<Row>, b: seq<Row>, t: int) {
    LiveView(a, t) == LiveView(b, t)
  }

  /** What holds of one process: its file and what it has loaded look like the log the run started
      with, its copy is the temporary file, and it has written nothing. */
  ghost predicate Harmless(w: World, jobs: seq<Job>, p: nat, rows: seq<Row>, t: int)
    requires p < |w.procs| == |jobs|
  {
    var phase := w.procs[p];
    && (phase.HasFile() ==> phase.ino < |w.files| && SameView(w.files[phase.ino], rows, t))
    && (phase.Loaded? || phase.Copying? ==> jobs[p].Compactor? && SameView(phase.c, rows, t))
    && (phase.Copying? ==>
          && w.tmp == Some(phase.target) && phase.target < |w.files|
          && phase.done <= |phase.c| && w.files[phase.target] == phase.c[..phase.done])
    && (phase.Did().Block? ==> phase.Did().rows == [])
    && (phase.Did().Compacted? ==> jobs[p].Compactor?)
    && (phase.Holding? ==> phase.effect.Block?)
  }

  /** Before the first rename every process has the file that the run started with. */
  ghost predicate NobodyRenamed(w: World) {
    forall p :: 0 <= p < |w.procs| && w.procs[p].HasLocked() ==> w.procs[p].Did().Block?
  }

  ghost predicate Quiet(w: World, jobs: seq<Job>, rows: seq<Row>, t: int) {
    && |w.procs| == |jobs| && TmpIsPrivate(w)
    && SameView(w.files[w.path], rows, t)
    && (forall p :: 0 <= p < |jobs| ==> Harmless(w, jobs, p, rows, t))
    && (forall p, q :: 0 <= p < |jobs| && 0 <= q < |jobs| && p != q && w.procs[q].HasFile() ==>
          !(w.procs[p].Locks(w.procs[q].ino) && w.procs[q].Locks(w.procs[q].ino)))
    && (NobodyRenamed(w) ==>
          w.path == 0 && forall p :: 0 <= p < |jobs| && w.procs[p].HasFile() ==> w.procs[p].ino == 0)
  }

  /** Two compactors are never at work at the same time: for their locks to be on different files a
      third one must have renamed. */
  lemma OneCompactorAtWork(w: World, jobs: seq<Job>, rows: seq<Row>, t: int, p: nat, q: nat)
    requires Quiet(w, jobs, rows, t) && !ThreeCompactors(jobs)
    requires p < |jobs| && q < |jobs| && p != q && jobs[p].Compactor? && jobs[q].Compactor?
    ensures !(w.procs[p].Working() && w.procs[q].Working())
  {
    hide SameView;
    if w.procs[p].Working() && w.procs[q].Working() {
      assert Harmless(w, jobs, p, rows, t) && Harmless(w, jobs, q, rows, t);
      forall r | 0 <= r < |w.procs| && w.procs[r].HasLocked()
        ensures w.procs[r].Did().Block?
      {
        assert Harmless(w, jobs, r, rows, t);
        assert !AreCompactors(jobs, p, q, r);
      }
    }
  }

  lemma OthersStayHarmless(w: World, jobs: seq<Job>, e: Event, rows: seq<Row>, t: int, q: nat)
    requires Quiet(w, jobs, rows, t) && NothingToWrite(jobs) && !ThreeCompactors(jobs)
    requires Enabled(w, jobs, e) && q < |jobs| && q != e.p
    ensures Harmless(After(w, jobs, e), jobs, q, rows, t)
  {
    hide SameView, IsCompaction, NobodyRenamed;
    var p := e.p;
    assert Harmless(w, jobs, p, rows, t) && Harmless(w, jobs, q, rows, t);
    if (w.procs[p].Loaded? || w.procs[p].Copying?) && (w.procs[q].Loaded? || w.procs[q].Copying?) {
      OneCompactorAtWork(w, jobs, rows, t, p, q);
    }
  }

  lemma OwnStepIsHarmless(w: World, jobs: seq<Job>, e: Event, rows: seq<Row>, t: int)
    requires Quiet(w, jobs, rows, t) && NothingToWrite(jobs) && NotBefore(jobs, t)
    requires Enabled(w, jobs, e)
    ensures var w' := After(w, jobs, e);
      && Harmless(w', jobs, e.p, rows, t) && TmpIsPrivate(w') && SameView(w'.files[w'.path], rows, t)
  {
    hide SameView, IsCompaction, NobodyRenamed;
    var p := e.p;
    assert Harmless(w, jobs, p, rows, t);
    if e.Load? {
      LoadedLooksTheSame(w.files[w.procs[p].ino], e.c, rows, jobs[p].now, t);
    } else if e.Rename? {
      assert w.procs[p].c[..w.procs[p].done] == w.procs[p].c;
    }
  }

  lemma LoadedLooksTheSame(file: seq<Row>, c: seq<Row>, rows: seq<Row>, now: int, t: int)
    requires IsCompaction(c, file, now) && now <= t && SameView(file, rows, t)
    ensures SameView(c, rows, t)
  {
    CompactionIsTransparent(c, file, [], now, t);
    assert c + [] == c && file + [] == file;
  }

  lemma LocksStayExclusive(w: World, jobs: seq<Job>, e: Event, rows: seq<Row>, t: int)
    requires Quiet(w, jobs, rows, t) && Enabled(w, jobs, e)
    ensures var w' := After(w, jobs, e);
      forall p, q :: 0 <= p < |jobs| && 0 <= q < |jobs| && p != q && w'.procs[q].HasFile() ==>
        !(w'.procs[p].Locks(w'.procs[q].ino) && w'.procs[q].Locks(w'.procs[q].ino))
  {
    hide SameView, IsCompaction, NobodyRenamed, Harmless;
  }

  lemma RenamesAreRemembered(w: World, jobs: seq<Job>, e: Event, rows: seq<Row>, t: int)
    requires Quiet(w, jobs, rows, t) && Enabled(w, jobs, e)
    ensures var w' := After(w, jobs, e);
      NobodyRenamed(w') ==>
        w'.path == 0 && forall p :: 0 <= p < |jobs| && w'.procs[p].HasFile() ==> w'.procs[p].ino == 0
  {
    hide SameView, IsCompaction;
    var w' := After(w, jobs, e);
    assert Harmless(w, jobs, e.p, rows, t);
    if NobodyRenamed(w') {
      assert w'.procs[e.p].HasLocked() ==> w'.procs[e.p].Did().Block?;
      forall p | 0 <= p < |w.procs| && w.procs[p].HasLocked()
        ensures w.procs[p].Did().Block?
      {
        assert w'.procs[p].HasLocked();
      }
      assert NobodyRenamed(w);
    }
  }

  lemma StepStaysQuiet(w: World, jobs: seq<Job>, e: Event, rows: seq<Row>, t: int)
    requires Quiet(w, jobs, rows, t) && NothingToWrite(jobs) && !ThreeCompactors(jobs) && NotBefore(jobs, t)
    requires Enabled(w, jobs, e)
    ensures Quiet(After(w, jobs, e), jobs, rows, t)
  {
    hide SameView, IsCompaction, NobodyRenamed, Harmless, TmpIsPrivate;
    OwnStepIsHarmless(w, jobs, e, rows, t);
    LocksStayExclusive(w, jobs, e, rows, t);
    RenamesAreRemembered(w, jobs, e, rows, t);
    forall q | 0 <= q < |jobs|
      ensures Harmless(After(w, jobs, e), jobs, q, rows, t)
    {
      if q != e.p {
        OthersStayHarmless(w, jobs, e, rows, t, q);
      }
    }
  }

  lemma {:induction false} RunStaysQuiet(w: World, jobs: seq<Job>, es: seq<Event>, rows: seq<Row>, t: int)
    requires Quiet(w, jobs, rows, t) && NothingToWrite(jobs) && !ThreeCompactors(jobs) && NotBefore(jobs, t)
    requires Legal(w, jobs, es)
    ensures Quiet(Final(w, jobs, es), jobs, rows, t)
    decreases |es|
  {
    hide Quiet, NothingToWrite, ThreeCompactors, NotBefore, Enabled, After;
    if es != [] {
      StepStaysQuiet(w, jobs, es[0], rows, t);
      RunStaysQuiet(After(w, jobs, es[0]), jobs, es[1..], rows, t);
    }
  }

  lemma {:induction false} NoRowsWritten(rows: seq<Row>, h: seq<Effect>)
    requires forall i :: 0 <= i < |h| && h[i].Block? ==> h[i].rows == []
    ensures WrittenRows(rows, h) == rows
  {
    if h != [] {
      NoRowsWritten(rows, h[..|h| - 1]);
    }
  }

  lemma QuietIsSequential(w: World, jobs: seq<Job>, rows: seq<Row>, t: int)
    requires Quiet(w, jobs, rows, t)
    ensures IsSequential(w, rows, t)
  {
    hide LiveView, WrittenRows;
    forall p | 0 <= p < |w.procs| && w.procs[p].Did().Block?
      ensures w.procs[p].Did().rows == []
    {
      assert Harmless(w, jobs, p, rows, t);
    }
    NoRowsWritten(rows, LockHistory(w));
  }

  lemma StartIsQuiet(jobs: seq<Job>, rows: seq<Row>, t: int)
    ensures Quiet(Initial(rows, |jobs|), jobs, rows, t)
  {
    hide LiveView;
  }

  // ---------- runs that are not sequential ----------

  lemma NothingMore(w: World, jobs: seq<Job>) returns (es: seq<Event>)
    ensures es == [] && Legal(w, jobs, es) && Final(w, jobs, es) == w
  {
    es := [];
  }

  /** One more event in front. */
  lemma Extend(w: World, jobs: seq<Job>, e: Event, rest: seq<Event>, w': World) returns (es: seq<Event>)
    requires Enabled(w, jobs, e) && After(w, jobs, e) == w' && Legal(w', jobs, rest)
    ensures es == [e] + rest && Legal(w, jobs, es) && Final(w, jobs, es) == Final(w', jobs, rest)
  {
    es := [e] + rest;
    assert es[1..] == rest;
  }

  /** The world after an undisturbed compaction to one row. */
  ghost function Compacted1(w: World, p: nat, now: int, x: Row): World
    requires p < |w.procs|
  {
    w.(files := w.files + [[x]], path := |w.files|, procs := w.procs[p := Closed(Compacted(now, [x]))])
  }

  /** A process that holds a lock compacts its file to the row x and closes. */
  lemma CompactOne(w: World, jobs: seq<Job>, p: nat, x: Row, rest: seq<Event>) returns (es: seq<Event>)
    requires |w.procs| == |jobs| && p < |jobs| && jobs[p].Compactor? && w.path < |w.files| && w.tmp == None
    requires w.procs[p].Holding? && w.procs[p].ino < |w.files|
    requires IsCompaction([x], w.files[w.procs[p].ino], jobs[p].now)
    requires Legal(Compacted1(w, p, jobs[p].now, x), jobs, rest)
    ensures Legal(w, jobs, es)
    ensures Final(w, jobs, es) == Final(Compacted1(w, p, jobs[p].now, x), jobs, rest)
  {
    hide IsCompaction, Legal, Final;
    var (ino, target, now) := (w.procs[p].ino, |w.files|, jobs[p].now);
    var w1 := w.(procs := w.procs[p := Loaded(ino, [x])]);
    var w2 := w1.(procs := w1.procs[p := Copying(ino, [x], target, 0)], files := w.files + [[]], tmp := Some(target));
    var w3 := w2.(procs := w2.procs[p := Copying(ino, [x], target, 1)], files := w.files + [[x]]);
    var w4 := w3.(procs := w3.procs[p := Done(ino, Compacted(now, [x]))], path := target, tmp := None);
    assert [] + [x] == [x] && w2.files[target := [x]] == w3.files;
    es := Extend(w4, jobs, Close(p), rest, Compacted1(w, p, now, x));
    es := Extend(w3, jobs, Rename(p), es, w4);
    es := Extend(w2, jobs, Copy(p), es, w3);
    es := Extend(w1, jobs, Begin(p), es, w2);
    es := Extend(w, jobs, Load(p, [x]), es, w1);
  }

  lemma OneLiveRow(x: Row, now: int)
    requires x.value != "" && x.expireAt == 0
    ensures Latest([x]) == map[x.key := x] && IsCompaction([x], [x], now)
  {
    assert [x][..0] == [];
  }

  lemma TwoEffects(rows: seq<Row>, e: Effect, r: Row)
    requires e.Compacted?
    ensures WrittenRows(rows, [e, Block([r])]) == rows + [r]
  {
    var h := [e, Block([r])];
    assert h[..1] == [e] && [e][..0] == [];
    assert WrittenRows(rows, [e]) == WrittenRows(rows, []) == rows;
  }

  /** After two processes have opened the database, the first one compacts it. */
  lemma FirstCompacts(jobs: seq<Job>, p: nat, q: nat, x: Row, rest: seq<Event>) returns (es: seq<Event>)
    requires p < |jobs| && q < |jobs| && p != q && jobs[p].Compactor?
    requires x.value != "" && x.expireAt == 0
    requires Legal(Raced(jobs, p, q, x), jobs, rest)
    ensures Legal(Initial([x], |jobs|), jobs, es)
    ensures Final(Initial([x], |jobs|), jobs, es) == Final(Raced(jobs, p, q, x), jobs, rest)
  {
    hide IsCompaction, Legal, Final;
    OneLiveRow(x, jobs[p].now);
    var w0 := Initial([x], |jobs|);
    var w1 := w0.(procs := w0.procs[p := Opened(0)]);
    var w2 := w1.(procs := w1.procs[q := Opened(0)]);
    var w3 := w2.(procs := w2.procs[p := Holding(0, Block([]))], locks := [p], order := [p]);
    assert Compacted1(w3, p, jobs[p].now, x) == Raced(jobs, p, q, x);
    es := CompactOne(w3, jobs, p, x, rest);
    es := Extend(w2, jobs, Lock(p), es, w3);
    es := Extend(w1, jobs, Open(q), es, w2);
    es := Extend(w0, jobs, Open(p), es, w1);
  }

  /** p has compacted and closed; q still has the old file open. */
  ghost function Raced(jobs: seq<Job>, p: nat, q: nat, x: Row): World
    requires p < |jobs| && q < |jobs| && p != q && jobs[p].Compactor?
  {
    World([[x], [x]], 1, None,
          seq(|jobs|, i => Ready)[p := Closed(Compacted(jobs[p].now, [x]))][q := Opened(0)], [p], [p])
  }

  /** A stale writer's rows are lost: it opens before a compaction and locks after it, so it writes to
      a file that nobody will open again. */
  lemma StaleLockLosesRows(jobs: seq<Job>, p: nat, q: nat, x: Row) returns (es: seq<Event>)
    requires p < |jobs| && q < |jobs| && jobs[p].Compactor? && jobs[q].Writer? && jobs[q].rows != []
    requires x.value != "" && x.expireAt == 0
    ensures Legal(Initial([x], |jobs|), jobs, es)
    ensures var w := Final(Initial([x], |jobs|), jobs, es);
      && w.path == 1 && w.files == [[x, jobs[q].rows[0]], [x]]
      && WrittenRows([x], LockHistory(w)) == [x, jobs[q].rows[0]]
  {
    hide Legal, Final;
    var r := jobs[q].rows[0];
    var w5 := Raced(jobs, p, q, x);
    var w6 := w5.(procs := w5.procs[q := Holding(0, Block([]))], locks := [p, q]);
    var w7 := w6.(procs := w6.procs[q := Holding(0, Block([r]))], files := [[x, r], [x]]);
    assert [] + [r] == [r] && [x] + [r] == [x, r] && [[x], [x]][0 := [x, r]] == [[x, r], [x]];
    es := NothingMore(w7, jobs);
    es := Extend(w6, jobs, Write(q), es, w7);
    es := Extend(w5, jobs, Lock(q), es, w6);
    es := FirstCompacts(jobs, p, q, x, es);
    assert LockHistory(w7) == [Compacted(jobs[p].now, [x]), Block([r])];
    TwoEffects([x], Compacted(jobs[p].now, [x]), r);
  }

  /** A stale compactor is worse: it replaces the file behind the path by a compaction of an old
      one, and the row of a writer that locked properly is lost. */
  lemma StaleCompactorLosesRows(jobs: seq<Job>, a: nat, b: nat, q: nat, x: Row) returns (es: seq<Event>)
    requires a < |jobs| && b < |jobs| && q < |jobs| && a != b && jobs[a].Compactor? && jobs[b].Compactor?
    requires jobs[q].Writer? && jobs[q].rows != [] && x.value != "" && x.expireAt == 0
    ensures Legal(Initial([x], |jobs|), jobs, es)
    ensures var w := Final(Initial([x], |jobs|), jobs, es);
      && w.path == 2 && w.files == [[x], [x, jobs[q].rows[0]], [x]]
      && |w.procs| == |jobs| && q in w.order && w.procs[q].Did() == Block([jobs[q].rows[0]])
  {
    hide IsCompaction, Legal, Final;
    OneLiveRow(x, jobs[b].now);
    var r := jobs[q].rows[0];
    var w4 := Written(jobs, a, b, q, x);
    var w5 := w4.(procs := w4.procs[b := Holding(0, Block([]))], locks := [a, q, b]);
    var w6 := Compacted1(w5, b, jobs[b].now, x);
    es := NothingMore(w6, jobs);
    es := CompactOne(w5, jobs, b, x, es);
    es := Extend(w4, jobs, Lock(b), es, w5);
    es := NewIsWritten(jobs, a, b, q, x, es);
    assert q == w6.order[1];
  }

  /** a has compacted; q has locked the new file and written to it; b still has the old one open. */
  ghost function Written(jobs: seq<Job>, a: nat, b: nat, q: nat, x: Row): World
    requires a < |jobs| && b < |jobs| && q < |jobs| && a != b && jobs[a].Compactor?
    requires jobs[q].Writer? && jobs[q].rows != []
  {
    var (w, r) := (Raced(jobs, a, b, x), jobs[q].rows[0]);
    w.(procs := w.procs[q := Holding(1, Block([r]))], files := [[x], [x, r]], locks := [a, q], order := [a, q])
  }

  lemma NewIsWritten(jobs: seq<Job>, a: nat, b: nat, q: nat, x: Row, rest: seq<Event>) returns (es: seq<Event>)
    requires a < |jobs| && b < |jobs| && q < |jobs| && a != b && jobs[a].Compactor? && jobs[b].Compactor?
    requires jobs[q].Writer? && jobs[q].rows != [] && x.value != "" && x.expireAt == 0
    requires Legal(Written(jobs, a, b, q, x), jobs, rest)
    ensures Legal(Initial([x], |jobs|), jobs, es)
    ensures Final(Initial([x], |jobs|), jobs, es) == Final(Written(jobs, a, b, q, x), jobs, rest)
  {
    hide Legal, Final;
    var r := jobs[q].rows[0];
    var w1 := Raced(jobs, a, b, x);
    var w2 := w1.(procs := w1.procs[q := Opened(1)]);
    var w3 := w2.(procs := w2.procs[q := Holding(1, Block([]))], locks := [a, q], order := [a, q]);
    var w4 := Written(jobs, a, b, q, x);
    assert [] + [r] == [r] && [x] + [r] == [x, r] && [[x], [x]][1 := [x, r]] == [[x], [x, r]];
    es := rest;
    es := Extend(w3, jobs, Write(q), es, w4);
    es := Extend(w2, jobs, Lock(q), es, w3);
    es := Extend(w1, jobs, Open(q), es, w2);
    es := FirstCompacts(jobs, a, b, x, es);
  }

  /** Two compactors at work: a is done, b holds the old file and has copied it, c holds the new one
      and has just loaded it. */
  ghost function Overlap(jobs: seq<Job>, a: nat, b: nat, c: nat, x: Row): World
    requires AreCompactors(jobs, a, b, c)
  {
    var w := Raced(jobs, a, b, x);
    w.(procs := w.procs[b := Copying(0, [x], 2, 1)][c := Loaded(1, [x])], files := [[x], [x], [x]], tmp := Some(2),
       locks := [a, b, c], order := [a, c])
  }

  lemma OverlapHappens(jobs: seq<Job>, a: nat, b: nat, c: nat, x: Row, rest: seq<Event>) returns (es: seq<Event>)
    requires AreCompactors(jobs, a, b, c) && x.value != "" && x.expireAt == 0
    requires Legal(Overlap(jobs, a, b, c, x), jobs, rest)
    ensures Legal(Initial([x], |jobs|), jobs, es)
    ensures Final(Initial([x], |jobs|), jobs, es) == Final(Overlap(jobs, a, b, c, x), jobs, rest)
  {
    hide IsCompaction, Legal, Final;
    OneLiveRow(x, jobs[c].now);
    var w5 := OldCopied(jobs, a, b, x);
    var w6 := w5.(procs := w5.procs[c := Opened(1)]);
    var w7 := w6.(procs := w6.procs[c := Holding(1, Block([]))], locks := [a, b, c], order := [a, c]);
    var w8 := Overlap(jobs, a, b, c, x);
    es := Extend(w7, jobs, Load(c, [x]), rest, w8);
    es := Extend(w6, jobs, Lock(c), es, w7);
    es := Extend(w5, jobs, Open(c), es, w6);
    es := OldIsCopied(jobs, a, b, x, es);
  }

  /** a has compacted; b has got the lock on the old file and copied it, but not renamed yet. */
  ghost function OldCopied(jobs: seq<Job>, a: nat, b: nat, x: Row): World
    requires a < |jobs| && b < |jobs| && a != b && jobs[a].Compactor?
  {
    var w := Raced(jobs, a, b, x);
    w.(procs := w.procs[b := Copying(0, [x], 2, 1)], files := [[x], [x], [x]], tmp := Some(2), locks := [a, b])
  }

  lemma OldIsCopied(jobs: seq<Job>, a: nat, b: nat, x: Row, rest: seq<Event>) returns (es: seq<Event>)
    requires a < |jobs| && b < |jobs| && a != b && jobs[a].Compactor? && jobs[b].Compactor?
    requires x.value != "" && x.expireAt == 0
    requires Legal(OldCopied(jobs, a, b, x), jobs, rest)
    ensures Legal(Initial([x], |jobs|), jobs, es)
    ensures Final(Initial([x], |jobs|), jobs, es) == Final(OldCopied(jobs, a, b, x), jobs, rest)
  {
    hide IsCompaction, Legal, Final;
    OneLiveRow(x, jobs[b].now);
    var w1 := Raced(jobs, a, b, x);
    var w2 := w1.(procs := w1.procs[b := Holding(0, Block([]))], locks := [a, b]);
    var w3 := w2.(procs := w2.procs[b := Loaded(0, [x])]);
    var w4 := w3.(procs := w3.procs[b := Copying(0, [x], 2, 0)], files := [[x], [x], []], tmp := Some(2));
    var w5 := OldCopied(jobs, a, b, x);
    assert [] + [x] == [x] && [[x], [x]] + [[]] == [[x], [x], []] && [[x], [x], []][2 := [x]] == [[x], [x], [x]];
    es := rest;
    es := Extend(w4, jobs, Copy(b), es, w5);
    es := Extend(w3, jobs, Begin(b), es, w4);
    es := Extend(w2, jobs, Load(b, [x]), es, w3);
    es := Extend(w1, jobs, Lock(b), es, w2);
    es := FirstCompacts(jobs, a, b, x, es);
  }

  /** Three compactors and no writer: one empties the temporary file that another one is about to
      rename, and the database is empty. */
  lemma ThreeCompactorsLoseEverything(jobs: seq<Job>, a: nat, b: nat, c: nat, x: Row) returns (es: seq<Event>)
    requires AreCompactors(jobs, a, b, c) && x.value != "" && x.expireAt == 0
    ensures Legal(Initial([x], |jobs|), jobs, es)
    ensures var w := Final(Initial([x], |jobs|), jobs, es);
      && w.path == 2 && w.files == [[x], [x], []]
      && forall i :: 0 <= i < |LockHistory(w)| && LockHistory(w)[i].Block? ==> LockHistory(w)[i].rows == []
  {
    hide Legal, Final;
    var w1 := Overlap(jobs, a, b, c, x);
    var w2 := w1.(procs := w1.procs[c := Copying(1, [x], 2, 0)], files := [[x], [x], []]);
    var w3 := w2.(procs := w2.procs[b := Done(0, Compacted(jobs[b].now, [x]))], path := 2, tmp := None);
    assert [[x], [x], [x]][2 := []] == [[x], [x], []];
    es := NothingMore(w3, jobs);
    es := Extend(w2, jobs, Rename(b), es, w3);
    es := Extend(w1, jobs, Begin(c), es, w2);
    es := OverlapHappens(jobs, a, b, c, x, es);
  }

  // ---------- the theorem ----------

  lemma {:induction false} LastCompaction(jobs: seq<Job>) returns (t: int)
    ensures NotBefore(jobs, t)
  {
    if jobs == [] {
      t := 0;
    } else {
      var n := |jobs| - 1;
      t := LastCompaction(jobs[..n]);
      if jobs[n].Compactor? && jobs[n].now > t {
        t := jobs[n].now;
      }
    }
  }

  lemma MixedCounterexample(jobs: seq<Job>, p: nat, q: nat) returns (rows: seq<Row>, es: seq<Event>, t: int)
    requires p < |jobs| && q < |jobs| && jobs[p].Compactor? && jobs[q].Writer? && jobs[q].rows != []
    ensures Legal(Initial(rows, |jobs|), jobs, es) && NotBefore(jobs, t)
    ensures !IsSequential(Final(Initial(rows, |jobs|), jobs, es), rows, t)
  {
    hide Legal, Final, WrittenRows, NotBefore;
    var r := jobs[q].rows[0];
    var x := Row(r.key, if r.value == "a" then "b" else "a", 0);
    rows := [x];
    es := StaleLockLosesRows(jobs, p, q, x);
    t := LastCompaction(jobs);
    OneLiveRow(x, t);
    LatestSnoc([x], r);
    assert [x] + [r] == [x, r];
  }

  lemma OverlapCounterexample(jobs: seq<Job>, a: nat, b: nat, c: nat) returns (rows: seq<Row>, es: seq<Event>, t: int)
    requires AreCompactors(jobs, a, b, c)
    ensures Legal(Initial(rows, |jobs|), jobs, es) && NotBefore(jobs, t)
    ensures !IsSequential(Final(Initial(rows, |jobs|), jobs, es), rows, t)
  {
    hide Legal, Final, WrittenRows, NotBefore, LockHistory;
    var x := Row("k", "v", 0);
    rows := [x];
    es := ThreeCompactorsLoseEverything(jobs, a, b, c, x);
    t := LastCompaction(jobs);
    OneLiveRow(x, t);
    var w := Final(Initial(rows, |jobs|), jobs, es);
    NoRowsWritten(rows, LockHistory(w));
    assert "k" in LiveView([x], t) && "k" !in LiveView([], t);
  }

  lemma TameIsSequential(rows: seq<Row>, jobs: seq<Job>, es: seq<Event>, t: int)
    requires Legal(Initial(rows, |jobs|), jobs, es) && NotBefore(jobs, t) && !Mixed(jobs) && !ThreeCompactors(jobs)
    ensures IsSequential(Final(Initial(rows, |jobs|), jobs, es), rows, t)
  {
    hide Legal, Final, NoStaleLock, IsSequential, ThreeCompactors, Quiet;
    if NothingToWrite(jobs) {
      StartIsQuiet(jobs, rows, t);
      RunStaysQuiet(Initial(rows, |jobs|), jobs, es, rows, t);
      QuietIsSequential(Final(Initial(rows, |jobs|), jobs, es), jobs, rows, t);
    } else {
      WithoutCompactors(Initial(rows, |jobs|), jobs, es);
      FreshLocksAreSequential(rows, jobs, es, t);
    }
  }

  /** Every run of the jobs is sequential for every reader not before any compaction if and only
      if they do not mix a compactor with a writer that has something to write, and there are at
      most two compactors. */
  lemma SequentialExactly(jobs: seq<Job>)
    ensures AlwaysSequential(jobs) <==> !Mixed(jobs) && !ThreeCompactors(jobs)
  {
    hide Legal, Final, NoStaleLock, IsSequential, AreCompactors;
    if Mixed(jobs) {
      var p, q :| 0 <= p < |jobs| && 0 <= q < |jobs| && jobs[p].Compactor? && jobs[q].Writer? && jobs[q].rows != [];
      var rows, es, t := MixedCounterexample(jobs, p, q);
      assert !AlwaysSequential(jobs);
    } else if ThreeCompactors(jobs) {
      var a, b, c :| AreCompactors(jobs, a, b, c);
      var rows, es, t := OverlapCounterexample(jobs, a, b, c);
      assert !AlwaysSequential(jobs);
    } else {
      forall rows, es, t | Legal(Initial(rows, |jobs|), jobs, es) && NotBefore(jobs, t)
        ensures IsSequential(Final(Initial(rows, |jobs|), jobs, es), rows, t)
      {
        TameIsSequential(rows, jobs, es, t);
      }
    }
  }
}
