/** The demo stream over a network that reorders and repeats datagrams: as long as the segments are
    completed in the order of their numbers, the clips are exactly the stream. */
module Delivery {
  import opened Machine
  import opened Segments
  import opened MetaDrain
  import opened EndToEnd

  /** What send_segment_stream is given. */
  datatype Stream = Stream(segments: seq<seq<byte>>, size: nat, gap: bool, stepMs: int)
  {
    predicate Sendable() { size > 0 && forall i :: 0 <= i < |segments| ==> segments[i] != [] }
    function Sequence(k: nat): int { SequenceNumber(k + 1, gap) }
    function TsMs(k: nat): int { k * stepMs }
    function Key(k: nat): (int, int) { (Sequence(k), TsMs(k)) }
    function Count(k: nat): nat requires size > 0 && k < |segments| { FragmentCount(|segments[k]|, size) }
  }

  /** The position of the last packet of a key, or -1. */
  ghost function LastOf(ps: seq<Packet>, key: (int, int)): int {
    if ps == [] then -1
    else
      var l := LastOf(ps[1..], key);
      if l >= 0 then l + 1 else if ps[0].Key() == key then 0 else -1
  }

  /** All packets belong to the stream and are fragments of its segments. */
  ghost predicate FromStream(ps: seq<Packet>, st: Stream)
    requires st.Sendable()
  {
    && (forall p :: p in ps ==> exists k: nat :: k < |st.segments| && p.Key() == st.Key(k))
    && forall k: nat :: k < |st.segments| ==> Genuine(ps, st.Sequence(k), st.TsMs(k), st.segments[k], st.size)
  }

  /** With what has been seen, the packets complete segment k, and do so with the last one of them. */
  ghost predicate Completing(ps: seq<Packet>, st: Stream, k: nat, seen: set<int>)
    requires st.Sendable() && k < |st.segments|
  {
    var arrivals := Arrivals(ps, st.Key(k));
    && arrivals != []
    && seen + Numbers(arrivals) == Range(st.Count(k))
    && seen + Numbers(arrivals[..|arrivals| - 1]) != Range(st.Count(k))
  }

  /** The datagrams as they arrive, in any order and number of copies: every segment is completed by
      its last packet, and the segments are completed in the order of their numbers. */
  ghost predicate CompletedInOrder(ps: seq<Packet>, st: Stream)
    requires st.Sendable()
  {
    && FromStream(ps, st)
    && (forall k: nat :: k < |st.segments| ==> Completing(ps, st, k, {}))
    && forall a: nat, b: nat :: a < b < |st.segments| ==> LastOf(ps, st.Key(a)) < LastOf(ps, st.Key(b))
  }

  /** The server after j segments: their bytes and rows, and the fragments collected of the others. */
  ghost predicate Progress(s: Server, ps: seq<Packet>, st: Stream, j: nat, seen: seq<set<int>>)
    requires st.Sendable()
  {
    var n := |st.segments|;
    && j <= n == |seen| && AllBounded(s) && FromStream(ps, st)
    && (forall k: nat :: k < j ==> Arrivals(ps, st.Key(k)) == [])
    && (forall k: nat :: j <= k < n ==> Completing(ps, st, k, seen[k]))
    && (forall k: nat :: j <= k < n ==> Collected(s, st.Key(k), st.segments[k], st.size, seen[k]))
    && (forall a: nat, b: nat :: j <= a < b < n ==> LastOf(ps, st.Key(a)) < LastOf(ps, st.Key(b)))
    && (forall key :: key in s.segments ==> exists k: nat :: j <= k < n && key == st.Key(k))
    && Delivered(s.(segments := map[]), st.segments, j, st.gap, st.stepMs)
  }

  lemma KeysDiffer(st: Stream, a: nat, b: nat)
    requires a != b
    ensures st.Key(a) != st.Key(b)
  {
  }

  lemma {:induction false} LastOfArrivals(ps: seq<Packet>, key: (int, int))
    ensures LastOf(ps, key) >= 0 <==> Arrivals(ps, key) != []
  {
    if ps != [] {
      LastOfArrivals(ps[1..], key);
    }
  }

  lemma FirstOfKey(ps: seq<Packet>, key: (int, int))
    requires ps != []
    ensures Arrivals(ps, key) == (if ps[0].Key() == key then [ps[0].index] else []) + Arrivals(ps[1..], key)
    ensures Arrivals(ps[1..], key) != [] ==> LastOf(ps, key) == LastOf(ps[1..], key) + 1
    ensures Arrivals(ps[1..], key) == [] && ps[0].Key() == key ==> LastOf(ps, key) == 0
  {
    LastOfArrivals(ps[1..], key);
  }

  lemma FromStreamTail(ps: seq<Packet>, st: Stream)
    requires ps != [] && st.Sendable() && FromStream(ps, st)
    ensures FromStream(ps[1..], st)
    ensures exists k: nat :: k < |st.segments| && ps[0].Key() == st.Key(k)
  {
    hide Stream.Sendable;
    assert ps[0] in ps && forall p :: p in ps[1..] ==> p in ps;
  }

  lemma DeliverOne(s: Server, st: Stream, j: nat)
    requires j < |st.segments| && Delivered(s, st.segments, j, st.gap, st.stepMs)
    ensures Delivered(WritePayload(s, st.Sequence(j), st.TsMs(j), st.segments[j], "mpegts", true),
                      st.segments, j + 1, st.gap, st.stepMs)
  {
    hide Tiles;
    var data := st.segments[j];
    TilesGrow(s.meta, s.bin, SidecarRow(st.Sequence(j), s.offset, |data|, st.TsMs(j), "mpegts", true), data);
    assert st.segments[..j + 1] == st.segments[..j] + [data];
    FlattenSnoc(st.segments[..j], data);
  }

  /** The packets after the first one complete what is left. */
  lemma StillCompleting(ps: seq<Packet>, st: Stream, k: nat, q: nat, seen: set<int>)
    requires ps != [] && st.Sendable() && k < |st.segments| && q < |st.segments| && ps[0].Key() == st.Key(k)
    requires Completing(ps, st, q, seen)
    ensures q != k ==> Completing(ps[1..], st, q, seen)
    ensures q == k && Arrivals(ps[1..], st.Key(k)) != [] ==>
      Completing(ps[1..], st, k, seen + {ps[0].index}) && |seen + {ps[0].index}| != st.Count(k)
    ensures q == k && Arrivals(ps[1..], st.Key(k)) == [] ==> |seen + {ps[0].index}| == st.Count(k)
  {
    hide Numbers, Range, FragmentCount;
    FirstOfKey(ps, st.Key(q));
    if q != k {
      KeysDiffer(st, k, q);
      assert [] + Arrivals(ps[1..], st.Key(q)) == Arrivals(ps[1..], st.Key(q));
    } else {
      var arrivals := Arrivals(ps, st.Key(k));
      assert arrivals[1..] == Arrivals(ps[1..], st.Key(k));
      FirstArrival(arrivals, seen, st.Count(k));
    }
  }

  /** The order of completion, seen from the second packet on. */
  lemma StillInOrder(ps: seq<Packet>, st: Stream, a: nat, b: nat)
    requires ps != [] && LastOf(ps, st.Key(a)) < LastOf(ps, st.Key(b))
    requires Arrivals(ps[1..], st.Key(a)) != [] && Arrivals(ps[1..], st.Key(b)) != []
    ensures LastOf(ps[1..], st.Key(a)) < LastOf(ps[1..], st.Key(b))
  {
    FirstOfKey(ps, st.Key(a));
    FirstOfKey(ps, st.Key(b));
  }

  /** A completing packet belongs to the next segment in order. */
  lemma LastIsNext(s: Server, ps: seq<Packet>, st: Stream, j: nat, seen: seq<set<int>>, k: nat)
    requires ps != [] && st.Sendable() && Progress(s, ps, st, j, seen)
    requires k < |st.segments| && ps[0].Key() == st.Key(k)
    ensures k >= j
    ensures Arrivals(ps[1..], st.Key(k)) == [] ==> k == j
  {
    hide Stream.Sendable, Numbers, FragmentCount, Collected, Delivered, FromStream;
    FirstOfKey(ps, st.Key(k));
    LastOfArrivals(ps, st.Key(j));
    if k > j {
      assert Completing(ps, st, j, seen[j]);
      assert LastOf(ps, st.Key(j)) < LastOf(ps, st.Key(k));
    }
  }

  lemma GenuinePacket(ps: seq<Packet>, st: Stream, k: nat)
    requires ps != [] && st.Sendable() && FromStream(ps, st)
    requires k < |st.segments| && ps[0].Key() == st.Key(k)
    ensures 0 <= ps[0].index < st.Count(k)
    ensures ps[0] == SegmentPacket(st.Sequence(k), st.TsMs(k), st.segments[k], st.size, ps[0].index)
  {
    hide FragmentCount, Fragment;
    assert Genuine(ps, st.Sequence(k), st.TsMs(k), st.segments[k], st.size) && ps[0] in ps;
  }

  /** One packet: its segment gets one more fragment, or it is the last one and is written. */
  lemma ProgressStep(s: Server, ps: seq<Packet>, st: Stream, j: nat, seen: seq<set<int>>)
    returns (j': nat, seen': seq<set<int>>)
    requires ps != [] && st.Sendable() && Progress(s, ps, st, j, seen)
    ensures AllBounded(s) && Progress(Receive(s, ps[0]), ps[1..], st, j', seen')
  {
    hide Numbers, FragmentCount, Fragment, Collected, Delivered, FromStream, Completing, Completes,
      Assembled, Receive, LastOf, Arrivals;
    var (p, rest, n) := (ps[0], ps[1..], |st.segments|);
    var s' := Receive(s, p);
    FromStreamTail(ps, st);
    var k: nat :| k < n && p.Key() == st.Key(k);
    LastIsNext(s, ps, st, j, seen, k);
    GenuinePacket(ps, st, k);
    ReceiveKeepsBounded(s, p);
    OwnPacketIsCollected(s, p, st.Sequence(k), st.TsMs(k), st.segments[k], st.size, seen[k]);
    var last := Arrivals(rest, st.Key(k)) == [];
    j' := if last then j + 1 else j;
    seen' := if last then seen else seen[k := seen[k] + {p.index}];
    forall q: nat | j <= q < n && (q != k || !last)
      ensures Completing(rest, st, q, seen'[q])
      ensures Collected(s', st.Key(q), st.segments[q], st.size, seen'[q])
    {
      StillCompleting(ps, st, k, q, seen[q]);
      if q == k {
        StillCompleting(ps, st, k, k, seen[k]);
      } else {
        KeysDiffer(st, k, q);
        OthersKeepCollected(s, p, st.Key(q), st.segments[q], st.size, seen[q]);
      }
    }
    StillCompleting(ps, st, k, k, seen[k]);
    RestOfProgress(s, ps, st, j, j', seen, seen', k);
  }

  lemma RestOfProgress(
    s: Server, ps: seq<Packet>, st: Stream, j: nat, j': nat, seen: seq<set<int>>, seen': seq<set<int>>, k: nat)
    requires ps != [] && st.Sendable() && Progress(s, ps, st, j, seen) && FromStream(ps[1..], st)
    requires j <= k < |st.segments| == |seen'| && ps[0].Key() == st.Key(k)
    requires 0 <= ps[0].index < st.Count(k)
    requires ps[0] == SegmentPacket(st.Sequence(k), st.TsMs(k), st.segments[k], st.size, ps[0].index)
    requires Completes(s, ps[0]) <==> Arrivals(ps[1..], st.Key(k)) == []
    requires Completes(s, ps[0]) ==> k == j && Assembled(s, ps[0]) == st.segments[k]
    requires j' == if Completes(s, ps[0]) then j + 1 else j
    requires AllBounded(Receive(s, ps[0]))
    requires forall q: nat :: j' <= q < |st.segments| ==>
      && Completing(ps[1..], st, q, seen'[q])
      && Collected(Receive(s, ps[0]), st.Key(q), st.segments[q], st.size, seen'[q])
    ensures Progress(Receive(s, ps[0]), ps[1..], st, j', seen')
  {
    hide Stream.Sendable, Numbers, FragmentCount, Fragment, Collected, Delivered, FromStream, LastOf, Assembled,
      Receive, Completes;
    var (p, rest, n) := (ps[0], ps[1..], |st.segments|);
    forall q: nat | q < j'
      ensures Arrivals(rest, st.Key(q)) == []
    {
      FirstOfKey(ps, st.Key(q));
    }
    forall a: nat, b: nat | j' <= a < b < n
      ensures LastOf(rest, st.Key(a)) < LastOf(rest, st.Key(b))
    {
      assert Completing(rest, st, a, seen'[a]) && Completing(rest, st, b, seen'[b]);
      StillInOrder(ps, st, a, b);
    }
    EntriesOfStream(s, ps, st, j, seen, k);
    WrittenSoFar(s, ps, st, j, seen, k);
  }

  /** Only keys of unfinished segments have an entry. */
  lemma EntriesOfStream(s: Server, ps: seq<Packet>, st: Stream, j: nat, seen: seq<set<int>>, k: nat)
    requires ps != [] && st.Sendable() && Progress(s, ps, st, j, seen)
    requires j <= k < |st.segments| && ps[0].Key() == st.Key(k)
    requires Completes(s, ps[0]) ==> k == j
    ensures forall key :: key in Receive(s, ps[0]).segments ==>
      exists q: nat :: (if Completes(s, ps[0]) then j + 1 else j) <= q < |st.segments| && key == st.Key(q)
  {
    hide Stream.Sendable, Collected, Delivered, FromStream, Completing, Assembled, LastOf;
    forall key | key in Receive(s, ps[0]).segments
      ensures exists q: nat :: (if Completes(s, ps[0]) then j + 1 else j) <= q < |st.segments| && key == st.Key(q)
    {
      if key == ps[0].Key() {
        assert !Completes(s, ps[0]);
      } else {
        assert key in s.segments;
        var q: nat :| j <= q < |st.segments| && key == st.Key(q);
        assert Completes(s, ps[0]) ==> q != j;
      }
    }
  }

  lemma CompletedWrites(s: Server, p: Packet)
    requires Bounded(s.segments) && Completes(s, p)
    ensures Receive(s, p).(segments := map[])
      == WritePayload(s.(segments := map[]), p.sequence, p.tsMs, Assembled(s, p), "mpegts", true)
  {
    hide Assembled;
  }

  lemma WrittenSoFar(s: Server, ps: seq<Packet>, st: Stream, j: nat, seen: seq<set<int>>, k: nat)
    requires ps != [] && st.Sendable() && Progress(s, ps, st, j, seen)
    requires j <= k < |st.segments|
    requires ps[0].sequence == st.Sequence(k) && ps[0].tsMs == st.TsMs(k)
    requires Completes(s, ps[0]) ==> k == j && Assembled(s, ps[0]) == st.segments[k]
    ensures Delivered(Receive(s, ps[0]).(segments := map[]), st.segments,
                      if Completes(s, ps[0]) then j + 1 else j, st.gap, st.stepMs)
  {
    hide Stream.Sendable, Collected, Delivered, FromStream, Completing, Completes, Assembled, LastOf, Arrivals;
    if Completes(s, ps[0]) {
      DeliverOne(s.(segments := map[]), st, j);
      CompletedWrites(s, ps[0]);
    }
  }

  lemma {:induction false} StreamArrives(s: Server, ps: seq<Packet>, st: Stream, j: nat, seen: seq<set<int>>)
    requires st.Sendable() && Progress(s, ps, st, j, seen)
    ensures Delivered(ReceiveAll(s, ps), st.segments, |st.segments|, st.gap, st.stepMs)
    decreases |ps|
  {
    hide Stream.Sendable, Receive, Collected, Delivered, FromStream;
    ReceiveKeepsBoundedIfAny(s, ps);
    if ps == [] {
      assert j < |st.segments| ==> Completing(ps, st, j, seen[j]);
      assert s.segments == map[];
      assert s.(segments := map[]) == s;
    } else {
      var j', seen' := ProgressStep(s, ps, st, j, seen);
      StreamArrives(Receive(s, ps[0]), ps[1..], st, j', seen');
    }
  }

  lemma NothingYet(st: Stream)
    requires st.Sendable()
    ensures AllBounded(NEW_SERVER) && Delivered(NEW_SERVER, st.segments, 0, st.gap, st.stepMs)
    ensures forall k: nat :: k < |st.segments| ==> Collected(NEW_SERVER, st.Key(k), st.segments[k], st.size, {})
  {
    hide FragmentCount;
    assert st.segments[..0] == [];
    forall k: nat | k < |st.segments|
      ensures Collected(NEW_SERVER, st.Key(k), st.segments[k], st.size, {})
    {
      CountCovers(|st.segments[k]|, st.size);
      assert 0 in Range(st.Count(k));
    }
  }

  /** However the datagrams arrive, if the segments are completed in order the file is the segments
      joined, with one sidecar row for each. */
  lemma AnyArrivalIsDelivered(ps: seq<Packet>, st: Stream)
    requires st.Sendable() && CompletedInOrder(ps, st)
    ensures AllBounded(NEW_SERVER)
    ensures Delivered(ReceiveAll(NEW_SERVER, ps), st.segments, |st.segments|, st.gap, st.stepMs)
  {
    hide Stream.Sendable, Collected, Delivered, FromStream, Completing, AllBounded;
    NothingYet(st);
    var seen := seq(|st.segments|, k => {});
    assert NEW_SERVER.(segments := map[]) == NEW_SERVER;
    StreamArrives(NEW_SERVER, ps, st, 0, seen);
  }

  /** The whole demo over an unreliable order: fragments in any interleaving and with duplicates, as
      long as every segment is completed by its last packet and in the order of the numbers; then
      any chunking, clock and idle timeouts. The clips are exactly the stream. */
  lemma AnyArrivalToClips(
    ps: seq<Packet>, st: Stream, render: SidecarRow -> string, ops: seq<Op>, env: Env)
    requires st.Sendable() && CompletedInOrder(ps, st) && st.stepMs >= 0 && AgreesWith(env, render)
    requires |st.segments| + 3 <= SAFE_MAX && |Flatten(st.segments)| <= SAFE_MAX
    requires |st.segments| * st.stepMs <= SAFE_MAX
    requires AllBounded(NEW_SERVER) && BytesRead(ops) == SidecarText(ReceiveAll(NEW_SERVER, ps).meta, render)
    ensures ReceiveAll(NEW_SERVER, ps).bin == Flatten(st.segments)
    ensures SessionIsTheFile(Flatten(st.segments), ops, env)
  {
    hide ReceiveAll, Stream.Sendable, CompletedInOrder, Flatten, Tiles, SessionIsTheFile, AgreesWith, SidecarText,
      BytesRead, Delivered, Readable, SequencesIncrease;
    AnyArrivalIsDelivered(ps, st);
    var s := ReceiveAll(NEW_SERVER, ps);
    DeliveredIsReadable(s, st.segments, st.gap, st.stepMs);
    IncreasingIsOrdered(s.meta);
    SidecarToClips(s.meta, s.bin, render, ops, env);
  }
}
