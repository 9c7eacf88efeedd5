/** Many clip_store processes on one database path: open, exclusive lock on the opened file,
    write or compact, close. A compaction goes through one temporary file that all compactors
    share, and replaces the file behind the path; the lock stays on the old one. */
module StoreLock {
  import opened Machine
  import opened RowLog

  /** What a process is run for. */
  datatype Job = Writer(rows: seq<Row>) | Compactor(now: int)

  /** What a process has done to the database so far. */
  datatype Effect = Block(rows: seq<Row>) | Compacted(now: int, c: seq<Row>)

  /** A compactor loads its file, opens the temporary file and copies the live rows into it. */
  datatype Phase =
    | Ready
    | Opened(ino: nat)
    | Holding(ino: nat, effect: Effect)
    | Loaded(ino: nat, c: seq<Row>)
    | Copying(ino: nat, c: seq<Row>, target: nat, done: nat)
    | Done(ino: nat, effect: Effect)
    | Closed(effect: Effect)
  {
    predicate HasFile() { !Ready? && !Closed? }
    predicate HasLocked() { !Ready? && !Opened? }
    predicate Working() { Holding? || Loaded? || Copying? }
    predicate Locks(i: nat) { (Working() || Done?) && ino == i }
    function Did(): Effect { if Holding? || Done? || Closed? then effect else Block([]) }
  }

  /** The files by inode, the inodes behind the path and behind the temporary path, and the
      processes. For the record: all processes that got a lock, in lock order, and those of them
      whose lock was on the file behind the path. The lock of the others is stale, on a file that
      a rename has replaced. */
  datatype World = World(
    files: seq<seq<Row>>, path: nat, tmp: Option<nat>, procs: seq<Phase>, locks: seq<nat>, order: seq<nat>)

  datatype Event =
    | Open(p: nat)
    | Lock(p: nat)
    | Write(p: nat)
    | Load(p: nat, c: seq<Row>)
    | Begin(p: nat)
    | Copy(p: nat)
    | Rename(p: nat)
    | Abandon(p: nat)
    | Close(p: nat)

  ghost predicate Enabled(w: World, jobs: seq<Job>, e: Event) {
    && |w.procs| == |jobs| && e.p < |jobs| && w.path < |w.files|
    && (w.tmp.Some? ==> w.tmp.value < |w.files|)
    && match e
       case Open(p) => w.procs[p].Ready?
       case Lock(p) => w.procs[p].Opened? && forall q :: 0 <= q < |w.procs| ==> !w.procs[q].Locks(w.procs[p].ino)
       case Write(p) =>
         && jobs[p].Writer? && w.procs[p].Holding? && w.procs[p].effect.Block?
         && w.procs[p].ino < |w.files|
         && |w.procs[p].effect.rows| < |jobs[p].rows|
       case Load(p, c) =>
         && jobs[p].Compactor? && w.procs[p].Holding? && w.procs[p].ino < |w.files|
         && IsCompaction(c, w.files[w.procs[p].ino], jobs[p].now)
       case Begin(p) => w.procs[p].Loaded?
       case Copy(p) =>
         w.procs[p].Copying? && w.procs[p].done < |w.procs[p].c| && w.procs[p].target < |w.files|
       case Rename(p) =>
         jobs[p].Compactor? && w.procs[p].Copying? && w.procs[p].done == |w.procs[p].c| && w.tmp.Some?
       case Abandon(p) => w.procs[p].Copying?
       case Close(p) => w.procs[p].HasLocked() && w.procs[p].HasFile()
  }

  /** Begin creates the temporary file or empties the one that is there, whoever else is using it.
      Rename moves whatever is behind the temporary path. Abandon is the way out after a failure,
      of the rename as well: it removes the temporary path. Closing early is a crash. */
  ghost function After(w: World, jobs: seq<Job>, e: Event): World
    requires Enabled(w, jobs, e)
  {
    match e
    case Open(p) => w.(procs := w.procs[p := Opened(w.path)])
    case Lock(p) =>
      w.(procs := w.procs[p := Holding(w.procs[p].ino, Block([]))],
         locks := w.locks + [p],
         order := w.order + (if w.procs[p].ino == w.path then [p] else []))
    case Write(p) =>
      var (i, b) := (w.procs[p].ino, w.procs[p].effect.rows);
      w.(procs := w.procs[p := Holding(i, Block(b + [jobs[p].rows[|b|]]))],
         files := w.files[i := w.files[i] + [jobs[p].rows[|b|]]])
    case Load(p, c) => w.(procs := w.procs[p := Loaded(w.procs[p].ino, c)])
    case Begin(p) =>
      var target := if w.tmp.Some? then w.tmp.value else |w.files|;
      w.(procs := w.procs[p := Copying(w.procs[p].ino, w.procs[p].c, target, 0)],
         files := if w.tmp.Some? then w.files[target := []] else w.files + [[]],
         tmp := Some(target))
    case Copy(p) =>
      var (i, k) := (w.procs[p].target, w.procs[p].done);
      w.(procs := w.procs[p := w.procs[p].(done := k + 1)], files := w.files[i := w.files[i] + [w.procs[p].c[k]]])
    case Rename(p) =>
      w.(procs := w.procs[p := Done(w.procs[p].ino, Compacted(jobs[p].now, w.procs[p].c))],
         path := w.tmp.value, tmp := None)
    case Abandon(p) => w.(procs := w.procs[p := Done(w.procs[p].ino, Block([]))], tmp := None)
    case Close(p) => w.(procs := w.procs[p := Closed(w.procs[p].Did())])
  }

  ghost predicate Legal(w: World, jobs: seq<Job>, es: seq<Event>)
    decreases |es|
  {
    es == [] || (Enabled(w, jobs, es[0]) && Legal(After(w, jobs, es[0]), jobs, es[1..]))
  }

  ghost function Final(w: World, jobs: seq<Job>, es: seq<Event>): World
    requires Legal(w, jobs, es)
    decreases |es|
  {
    if es == [] then w else Final(After(w, jobs, es[0]), jobs, es[1..])
  }

  /** The event is a lock on a file that is no longer behind the path. */
  ghost predicate IsStale(w: World, jobs: seq<Job>, e: Event)
    requires Enabled(w, jobs, e)
  {
    e.Lock? && w.procs[e.p].ino != w.path
  }

  /** No process opens the path before a rename and gets the lock after it. */
  ghost predicate NoStaleLock(w: World, jobs: seq<Job>, es: seq<Event>)
    requires Legal(w, jobs, es)
    decreases |es|
  {
    es == [] || (!IsStale(w, jobs, es[0]) && NoStaleLock(After(w, jobs, es[0]), jobs, es[1..]))
  }

  /** The same for compactors only: writers may lock too late. */
  ghost predicate NoStaleCompactor(w: World, jobs: seq<Job>, es: seq<Event>)
    requires Legal(w, jobs, es)
    decreases |es|
  {
    es == [] ||
    (&& (IsStale(w, jobs, es[0]) ==> jobs[es[0].p].Writer?)
     && NoStaleCompactor(After(w, jobs, es[0]), jobs, es[1..]))
  }

  /** A database with the given rows and n processes that have not started. */
  ghost function Initial(rows: seq<Row>, n: nat): World {
    World([rows], 0, None, seq(n, i => Ready), [], [])
  }

  // ---------- the sequential meaning ----------

  /** The effects of the processes in lock order. */
  ghost function History(w: World): seq<Effect>
    requires forall i :: 0 <= i < |w.order| ==> w.order[i] < |w.procs|
  {
    seq(|w.order|, i requires 0 <= i < |w.order| => w.procs[w.order[i]].Did())
  }

  /** What one effect makes of a database. */
  ghost function Perform(rows: seq<Row>, e: Effect): seq<Row> {
    if e.Block? then rows + e.rows else e.c
  }

  /** Running the effects one after the other. */
  ghost function Replay(rows: seq<Row>, h: seq<Effect>): seq<Row> {
    if h == [] then rows else Perform(Replay(rows, h[..|h| - 1]), h[|h| - 1])
  }

  /** Every compaction in the history compacted what the sequential run had produced so far. */
  ghost predicate Faithful(rows: seq<Row>, h: seq<Effect>) {
    h == [] ||
    (&& Faithful(rows, h[..|h| - 1])
     && (h[|h| - 1].Compacted? ==> IsCompaction(h[|h| - 1].c, Replay(rows, h[..|h| - 1]), h[|h| - 1].now)))
  }

  // ---------- the invariant ----------

  ghost predicate Recorded(w: World) {
    && (forall i :: 0 <= i < |w.order| ==> w.order[i] < |w.procs| && w.procs[w.order[i]].HasLocked())
    && (forall i, j :: 0 <= i < j < |w.order| ==> w.order[i] != w.order[j])
  }

  /** The temporary file is neither behind the path nor opened as a database by anyone. */
  ghost predicate TmpIsPrivate(w: World) {
    && w.path < |w.files|
    && (w.tmp.Some? ==> w.tmp.value < |w.files| && w.tmp.value != w.path)
    && forall p :: 0 <= p < |w.procs| && w.procs[p].HasFile() ==>
         w.procs[p].ino < |w.files| && w.tmp != Some(w.procs[p].ino)
  }

  /** The process that works on the file behind the path is the last one recorded, and no other
      recorded process is still working. */
  ghost predicate FreshIsLast(w: World, p: nat)
    requires p < |w.procs|
  {
    var phase := w.procs[p];
    && (phase.Working() && phase.ino == w.path ==>
          w.order != [] && p == w.order[|w.order| - 1] && phase.Did().Block?)
    && (phase.Working() && p in w.order ==> phase.ino == w.path)
  }

  ghost predicate Inv(w: World, rows: seq<Row>) {
    && Recorded(w) && TmpIsPrivate(w)
    && (forall p :: 0 <= p < |w.procs| ==> FreshIsLast(w, p))
    && w.files[w.path] == Replay(rows, History(w))
    && Faithful(rows, History(w))
  }

  /** What a process may have done: a prefix of its rows, or a compaction at its time. */
  ghost predicate DoesItsJob(job: Job, phase: Phase) {
    && (phase.HasLocked() ==>
          match phase.Did()
          case Block(b) => if job.Writer? then b <= job.rows else b == []
          case Compacted(now, _) => job == Compactor(now))
    && (phase.Loaded? || phase.Copying? ==> job.Compactor?)
  }

  /** What a recorded compactor has loaded is a compaction of the file behind the path, and what
      it has copied is all there is in the temporary file. */
  ghost predicate CompactsThePath(w: World, job: Job, phase: Phase) {
    && (phase.Loaded? || phase.Copying? ==>
          w.path < |w.files| && job.Compactor? && IsCompaction(phase.c, w.files[w.path], job.now))
    && (phase.Copying? ==>
          && w.tmp == Some(phase.target) && phase.target < |w.files|
          && phase.done <= |phase.c| && w.files[phase.target] == phase.c[..phase.done])
  }

  ghost predicate JobsInv(w: World, jobs: seq<Job>) {
    && |w.procs| == |jobs|
    && (forall p :: 0 <= p < |jobs| ==> DoesItsJob(jobs[p], w.procs[p]))
    && (forall p :: 0 <= p < |jobs| && jobs[p].Compactor? && w.procs[p].Working() ==> p in w.order)
    && (forall p :: 0 <= p < |jobs| ==> CompactsThePath(w, jobs[p], w.procs[p]))
  }

  lemma ReplaySnoc(rows: seq<Row>, h: seq<Effect>, e: Effect)
    ensures Replay(rows, h + [e]) == Perform(Replay(rows, h), e)
    ensures Faithful(rows, h + [e])
      <==> Faithful(rows, h) && (e.Compacted? ==> IsCompaction(e.c, Replay(rows, h), e.now))
  {
    hide IsCompaction;
    assert (h + [e])[..|h|] == h;
  }

  /** There is at most one working process among the recorded ones. */
  lemma OneWorker(w: World, rows: seq<Row>, p: nat, q: nat)
    requires Inv(w, rows) && p < |w.procs| && q < |w.procs|
    requires w.procs[p].Working() && w.procs[p].ino == w.path
    requires w.procs[q].Working() && (w.procs[q].ino == w.path || q in w.order)
    ensures p == q
  {
    hide Replay, Faithful, History;
    assert FreshIsLast(w, p) && FreshIsLast(w, q);
  }

  lemma NotRecordedYet(w: World, p: nat)
    requires Recorded(w) && p < |w.procs| && !w.procs[p].HasLocked()
    ensures p !in w.order
  {
  }

  lemma StaleIsNotRecorded(w: World, rows: seq<Row>, p: nat)
    requires Inv(w, rows) && p < |w.procs| && w.procs[p].Working() && w.procs[p].ino != w.path
    ensures p !in w.order
  {
    assert FreshIsLast(w, p);
  }

  lemma NothingDoneYet(w: World, jobs: seq<Job>, rows: seq<Row>, p: nat)
    requires Inv(w, rows) && JobsInv(w, jobs) && p < |jobs| && jobs[p].Compactor? && w.procs[p].Holding?
    ensures w.procs[p].effect == Block([])
  {
    hide IsCompaction;
    assert FreshIsLast(w, p) && DoesItsJob(jobs[p], w.procs[p]);
  }

  /** A step that changes neither what the recorded processes did nor the file behind the path. */
  lemma SameHistory(w: World, w': World, rows: seq<Row>)
    requires Inv(w, rows) && w'.order == w.order && |w'.procs| == |w.procs|
    requires forall q :: 0 <= q < |w.procs| && q in w.order ==>
      w'.procs[q].HasLocked() && w'.procs[q].Did() == w.procs[q].Did()
    requires TmpIsPrivate(w') && w'.files[w'.path] == w.files[w.path]
    requires forall q :: 0 <= q < |w.procs| ==> FreshIsLast(w', q)
    ensures Inv(w', rows)
  {
    hide Faithful, Replay;
    assert History(w') == History(w);
  }

  lemma FreshLockKeepsInv(w: World, jobs: seq<Job>, p: nat, rows: seq<Row>)
    requires Inv(w, rows) && Enabled(w, jobs, Lock(p)) && w.procs[p].ino == w.path
    ensures Inv(After(w, jobs, Lock(p)), rows)
  {
    hide Faithful, Replay;
    var w' := After(w, jobs, Lock(p));
    NotRecordedYet(w, p);
    forall q | 0 <= q < |w'.procs|
      ensures FreshIsLast(w', q)
    {
      assert FreshIsLast(w, q);
    }
    assert History(w') == History(w) + [Block([])];
    ReplaySnoc(rows, History(w), Block([]));
    assert Replay(rows, History(w)) + [] == Replay(rows, History(w));
  }

  /** Steps other than a fresh lock, a fresh write and a rename. */
  lemma QuietStepKeepsInv(w: World, jobs: seq<Job>, e: Event, rows: seq<Row>)
    requires Inv(w, rows) && JobsInv(w, jobs) && Enabled(w, jobs, e)
    requires e.Lock? || e.Write? ==> w.procs[e.p].ino != w.path
    requires !e.Rename?
    ensures Inv(After(w, jobs, e), rows)
  {
    hide Faithful, Replay, History, IsCompaction, FreshIsLast;
    var w' := After(w, jobs, e);
    var p := e.p;
    assert CompactsThePath(w, jobs[p], w.procs[p]);
    if !w.procs[p].HasLocked() {
      NotRecordedYet(w, p);
    } else if e.Write? {
      StaleIsNotRecorded(w, rows, p);
    } else if e.Load? {
      NothingDoneYet(w, jobs, rows, p);
    }
    assert w.order + [] == w.order;
    forall q | 0 <= q < |w'.procs|
      ensures FreshIsLast(w', q)
    {
      QuietStepKeepsFresh(w, jobs, e, rows, q);
    }
    SameHistory(w, w', rows);
  }

  lemma QuietStepKeepsFresh(w: World, jobs: seq<Job>, e: Event, rows: seq<Row>, q: nat)
    requires Inv(w, rows) && Enabled(w, jobs, e) && q < |w.procs|
    requires e.Lock? || e.Write? ==> w.procs[e.p].ino != w.path
    requires !e.Rename?
    ensures FreshIsLast(After(w, jobs, e), q)
  {
    hide Faithful, Replay, History, IsCompaction, TmpIsPrivate;
    assert FreshIsLast(w, q) && w.order + [] == w.order;
    if !w.procs[q].HasLocked() {
      NotRecordedYet(w, q);
    }
  }

  /** The fresh worker is last in the order, so its step only changes the last effect. */
  lemma WorkerChangesLastEffect(w: World, w': World, p: nat, rows: seq<Row>)
    requires Inv(w, rows) && p < |w.procs| && w.procs[p].Working() && w.procs[p].ino == w.path
    requires w'.order == w.order && |w'.procs| == |w.procs|
    requires forall q :: 0 <= q < |w.procs| && q != p ==> w'.procs[q] == w.procs[q]
    ensures forall i :: 0 <= i < |w'.order| ==> w'.order[i] < |w'.procs|
    ensures w.order != []
    ensures History(w) == History(w)[..|w.order| - 1] + [w.procs[p].Did()]
    ensures History(w') == History(w)[..|w.order| - 1] + [w'.procs[p].Did()]
  {
    hide Faithful, Replay;
    var n := |w.order| - 1;
    assert FreshIsLast(w, p);
    assert w.order[n] == p;
    forall i | 0 <= i < n
      ensures w.order[i] != p
    {
    }
  }

  lemma FreshWriteKeepsInv(w: World, jobs: seq<Job>, p: nat, rows: seq<Row>)
    requires Inv(w, rows) && Enabled(w, jobs, Write(p)) && w.procs[p].ino == w.path
    ensures Inv(After(w, jobs, Write(p)), rows)
  {
    hide Faithful, Replay;
    var w' := After(w, jobs, Write(p));
    forall q | 0 <= q < |w'.procs|
      ensures FreshIsLast(w', q)
    {
      assert FreshIsLast(w, q);
    }
    var (b, r) := (w.procs[p].effect.rows, jobs[p].rows[|w.procs[p].effect.rows|]);
    WorkerChangesLastEffect(w, w', p, rows);
    var front := History(w)[..|w.order| - 1];
    ReplaySnoc(rows, front, Block(b));
    ReplaySnoc(rows, front, Block(b + [r]));
    assert Replay(rows, front) + (b + [r]) == (Replay(rows, front) + b) + [r];
  }

  lemma RenameKeepsInv(w: World, jobs: seq<Job>, p: nat, rows: seq<Row>)
    requires Inv(w, rows) && JobsInv(w, jobs) && Enabled(w, jobs, Rename(p))
    ensures Inv(After(w, jobs, Rename(p)), rows)
  {
    hide Faithful, Replay, IsCompaction;
    var w' := After(w, jobs, Rename(p));
    var c := w.procs[p].c;
    assert DoesItsJob(jobs[p], w.procs[p]) && FreshIsLast(w, p) && CompactsThePath(w, jobs[p], w.procs[p]);
    assert c[..|c|] == c;
    forall q | 0 <= q < |w'.procs|
      ensures FreshIsLast(w', q)
    {
      assert FreshIsLast(w, q);
    }
    WorkerChangesLastEffect(w, w', p, rows);
    var front := History(w)[..|w.order| - 1];
    ReplaySnoc(rows, front, Block([]));
    ReplaySnoc(rows, front, Compacted(jobs[p].now, c));
    assert Replay(rows, front) + [] == Replay(rows, front);
  }

  /** While a recorded compactor is loading or copying, no other process touches what it relies on. */
  lemma OthersKeepCompaction(w: World, jobs: seq<Job>, e: Event, rows: seq<Row>, q: nat)
    requires Inv(w, rows) && JobsInv(w, jobs) && Enabled(w, jobs, e)
    requires IsStale(w, jobs, e) ==> jobs[e.p].Writer?
    requires q < |jobs| && q != e.p
    ensures CompactsThePath(After(w, jobs, e), jobs[q], w.procs[q])
  {
    hide Faithful, Replay, History, IsCompaction;
    var p := e.p;
    assert CompactsThePath(w, jobs[q], w.procs[q]) && DoesItsJob(jobs[q], w.procs[q]);
    assert DoesItsJob(jobs[p], w.procs[p]) && FreshIsLast(w, p) && FreshIsLast(w, q);
    if w.procs[q].Loaded? || w.procs[q].Copying? {
      if w.procs[p].Working() && (jobs[p].Compactor? || w.procs[p].ino == w.path) {
        OneWorker(w, rows, q, p);
      }
    }
  }

  lemma OwnCompaction(w: World, jobs: seq<Job>, e: Event, rows: seq<Row>)
    requires Inv(w, rows) && JobsInv(w, jobs) && Enabled(w, jobs, e)
    requires IsStale(w, jobs, e) ==> jobs[e.p].Writer?
    ensures CompactsThePath(After(w, jobs, e), jobs[e.p], After(w, jobs, e).procs[e.p])
    ensures DoesItsJob(jobs[e.p], After(w, jobs, e).procs[e.p])
  {
    hide Faithful, Replay, History, IsCompaction;
    var p := e.p;
    assert DoesItsJob(jobs[p], w.procs[p]) && FreshIsLast(w, p) && CompactsThePath(w, jobs[p], w.procs[p]);
  }

  lemma StepKeepsJobs(w: World, jobs: seq<Job>, e: Event, rows: seq<Row>)
    requires Inv(w, rows) && JobsInv(w, jobs) && Enabled(w, jobs, e)
    requires IsStale(w, jobs, e) ==> jobs[e.p].Writer?
    ensures JobsInv(After(w, jobs, e), jobs)
  {
    hide Inv, DoesItsJob, CompactsThePath;
    var w' := After(w, jobs, e);
    OwnCompaction(w, jobs, e, rows);
    forall q | 0 <= q < |jobs|
      ensures DoesItsJob(jobs[q], w'.procs[q]) && CompactsThePath(w', jobs[q], w'.procs[q])
    {
      if q != e.p {
        OthersKeepCompaction(w, jobs, e, rows, q);
      }
    }
  }

  /** Every step keeps both invariants, unless a compactor gets a stale lock. */
  lemma StepKeepsInv(w: World, jobs: seq<Job>, e: Event, rows: seq<Row>)
    requires Inv(w, rows) && JobsInv(w, jobs) && Enabled(w, jobs, e)
    requires IsStale(w, jobs, e) ==> jobs[e.p].Writer?
    ensures Inv(After(w, jobs, e), rows) && JobsInv(After(w, jobs, e), jobs)
  {
    hide Inv, JobsInv, After;
    StepKeepsJobs(w, jobs, e, rows);
    if e.Rename? {
      RenameKeepsInv(w, jobs, e.p, rows);
    } else if e.Lock? && w.procs[e.p].ino == w.path {
      FreshLockKeepsInv(w, jobs, e.p, rows);
    } else if e.Write? && w.procs[e.p].ino == w.path {
      FreshWriteKeepsInv(w, jobs, e.p, rows);
    } else {
      QuietStepKeepsInv(w, jobs, e, rows);
    }
  }

  lemma {:induction false} RunKeepsInv(w: World, jobs: seq<Job>, es: seq<Event>, rows: seq<Row>)
    requires Inv(w, rows) && JobsInv(w, jobs) && Legal(w, jobs, es) && NoStaleCompactor(w, jobs, es)
    ensures Inv(Final(w, jobs, es), rows) && JobsInv(Final(w, jobs, es), jobs)
    decreases |es|
  {
    hide Inv, JobsInv, Enabled, After;
    if es != [] {
      StepKeepsInv(w, jobs, es[0], rows);
      RunKeepsInv(After(w, jobs, es[0]), jobs, es[1..], rows);
    }
  }

  lemma InitialInv(rows: seq<Row>, jobs: seq<Job>)
    ensures Inv(Initial(rows, |jobs|), rows) && JobsInv(Initial(rows, |jobs|), jobs)
  {
    assert History(Initial(rows, |jobs|)) == [];
  }

  // ---------- the theorems ----------

  /** Unless a compactor locks too late, any interleaving leaves behind the path exactly what the
      recorded processes would leave running one after the other in lock order; each writer's
      rows are one block. */
  lemma Serializable(rows: seq<Row>, jobs: seq<Job>, es: seq<Event>)
    requires Legal(Initial(rows, |jobs|), jobs, es) && NoStaleCompactor(Initial(rows, |jobs|), jobs, es)
    ensures var w := Final(Initial(rows, |jobs|), jobs, es);
      && Inv(w, rows) && JobsInv(w, jobs)
      && w.files[w.path] == Replay(rows, History(w))
      && Faithful(rows, History(w))
  {
    InitialInv(rows, jobs);
    RunKeepsInv(Initial(rows, |jobs|), jobs, es, rows);
  }

  /** All rows of a history in its order, as if nothing had been compacted. */
  ghost function WrittenRows(rows: seq<Row>, h: seq<Effect>): seq<Row> {
    if h == [] then rows
    else if h[|h| - 1].Block? then WrittenRows(rows, h[..|h| - 1]) + h[|h| - 1].rows
    else WrittenRows(rows, h[..|h| - 1])
  }

  ghost predicate NoLaterCompaction(h: seq<Effect>, t: int) {
    forall i :: 0 <= i < |h| && h[i].Compacted? ==> h[i].now <= t
  }

  lemma ViewAfterAppend(a: seq<Row>, b: seq<Row>, more: seq<Row>, t: int)
    requires LiveView(a, t) == LiveView(b, t)
    ensures LiveView(a + more, t) == LiveView(b + more, t)
  {
    hide IsLive, Latest;
    LatestOfConcat(a, more);
    LatestOfConcat(b, more);
    forall k
      ensures k in LiveView(a + more, t) <==> k in LiveView(b + more, t)
      ensures k in LiveView(a + more, t) ==> LiveView(a + more, t)[k] == LiveView(b + more, t)[k]
    {
      assert k in LiveView(a, t) <==> k in LiveView(b, t);
      assert k in LiveView(a, t) ==> LiveView(a, t)[k] == LiveView(b, t)[k];
    }
  }

  lemma {:induction false} CompactionsAreInvisible(rows: seq<Row>, h: seq<Effect>, t: int)
    requires Faithful(rows, h) && NoLaterCompaction(h, t)
    ensures LiveView(Replay(rows, h), t) == LiveView(WrittenRows(rows, h), t)
  {
    hide LiveView, IsCompaction;
    if h != [] {
      var n := |h| - 1;
      CompactionsAreInvisible(rows, h[..n], t);
      match h[n]
      case Block(more) => ViewAfterAppend(Replay(rows, h[..n]), WrittenRows(rows, h[..n]), more, t);
      case Compacted(now, c) =>
        CompactionIsTransparent(c, Replay(rows, h[..n]), [], now, t);
        assert c + [] == c && Replay(rows, h[..n]) + [] == Replay(rows, h[..n]);
    }
  }

  /** What a later reader sees is the last-write-wins view of all written rows in lock order,
      however many compactions ran in between. */
  lemma FinalViewIsSequential(rows: seq<Row>, jobs: seq<Job>, es: seq<Event>, t: int)
    requires Legal(Initial(rows, |jobs|), jobs, es) && NoStaleCompactor(Initial(rows, |jobs|), jobs, es)
    requires forall p :: 0 <= p < |jobs| && jobs[p].Compactor? ==> jobs[p].now <= t
    ensures var w := Final(Initial(rows, |jobs|), jobs, es);
      && Inv(w, rows)
      && LiveView(w.files[w.path], t) == LiveView(WrittenRows(rows, History(w)), t)
  {
    hide Legal, NoStaleCompactor, Final, LiveView, Replay, Faithful;
    Serializable(rows, jobs, es);
    var w := Final(Initial(rows, |jobs|), jobs, es);
    var h := History(w);
    forall i | 0 <= i < |h| && h[i].Compacted?
      ensures h[i].now <= t
    {
      assert DoesItsJob(jobs[w.order[i]], w.procs[w.order[i]]);
    }
    CompactionsAreInvisible(rows, h, t);
  }
}
