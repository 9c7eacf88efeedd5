/** The demo ingestor: fragmentation in scripts/example/full-run/udp_stream_data_client.py and
    reassembly in udp_stream_data_server.py. */
module Segments {
  import opened Machine

  /** A SEGMENT datagram with its payload already decoded from Base64. */
  datatype Packet = Packet(sequence: int, tsMs: int, index: int, count: int, payload: seq<byte>)
  {
    function Key(): (int, int) { (sequence, tsMs) }
  }

  // ---------- the client ----------

  function FragmentCount(n: nat, size: nat): nat
    requires size > 0
  {
    (n + size - 1) / size
  }

  /** data[k*size : (k+1)*size] */
  function Fragment(data: seq<byte>, size: nat, k: nat): seq<byte> {
    var lo := if k * size <= |data| then k * size else |data|;
    var hi := if (k + 1) * size <= |data| then (k + 1) * size else |data|;
    if lo <= hi then data[lo..hi] else []
  }

  function SegmentPacket(sequence: int, tsMs: int, data: seq<byte>, size: nat, k: nat): Packet
    requires size > 0
  {
    Packet(sequence, tsMs, k, FragmentCount(|data|, size), Fragment(data, size, k))
  }

  function SegmentPackets(sequence: int, tsMs: int, data: seq<byte>, size: nat): seq<Packet>
    requires size > 0
  {
    seq(FragmentCount(|data|, size), k requires 0 <= k => SegmentPacket(sequence, tsMs, data, size, k))
  }

  /** send_segment: the datagrams sent, in order. None is the source's exit on bad arguments. */
  method SendSegment(sequence: int, tsMs: int, data: seq<byte>, size: int) returns (sent: Option<seq<Packet>>)
    ensures sent.None? <==> data == [] || size <= 0
    ensures sent.Some? ==> sent.value == SegmentPackets(sequence, tsMs, data, size)
  {
    hide Fragment, FragmentCount;
    if data == [] {
      return None;
    }
    if size <= 0 {
      return None;
    }
    var count := FragmentCount(|data|, size);
    var packets := [];
    for k := 0 to count
      invariant |packets| == k
      invariant forall j :: 0 <= j < k ==> packets[j] == SegmentPacket(sequence, tsMs, data, size, j)
    {
      packets := packets + [Packet(sequence, tsMs, k, count, Fragment(data, size, k))];
    }
    return Some(packets);
  }

  /** All fragments but the last are full, and the last one is not empty. */
  lemma FragmentsAreFull(data: seq<byte>, size: nat, k: nat)
    requires size > 0 && k < FragmentCount(|data|, size)
    ensures if k + 1 < FragmentCount(|data|, size) then |Fragment(data, size, k)| == size
            else 0 < |Fragment(data, size, k)| <= size
  {
    var (n, c) := (|data|, FragmentCount(|data|, size));
    assert n + size - 1 == size * c + (n + size - 1) % size;
    assert size * c <= n + size - 1;
    MoreIsMore(size, k + 1, c);
    assert size * (k + 1) == k * size + size && (k + 1) * size == k * size + size;
    if k + 1 < c {
      MoreIsMore(size, k + 2, c);
      assert size * (k + 2) == k * size + 2 * size;
    }
  }

  lemma MoreIsMore(size: nat, a: nat, b: nat)
    requires a <= b
    ensures size * a <= size * b
  {
  }

  /** The concatenation of the first k fragments. */
  function JoinFragments(data: seq<byte>, size: nat, k: nat): seq<byte> {
    if k == 0 then [] else JoinFragments(data, size, k - 1) + Fragment(data, size, k - 1)
  }

  lemma {:induction false} JoinedPrefix(data: seq<byte>, size: nat, k: nat)
    ensures JoinFragments(data, size, k) == data[..if k * size <= |data| then k * size else |data|]
  {
    if k > 0 {
      hide Fragment;
      JoinedPrefix(data, size, k - 1);
      FragmentExtends(data, size, k - 1);
    } else {
      assert 0 * size == 0;
    }
  }

  lemma FragmentExtends(data: seq<byte>, size: nat, k: nat)
    ensures data[..if k * size <= |data| then k * size else |data|] + Fragment(data, size, k)
         == data[..if (k + 1) * size <= |data| then (k + 1) * size else |data|]
  {
    var (lo, hi) := (k * size, (k + 1) * size);
    assert hi == lo + size;
  }

  lemma CountCovers(n: nat, size: nat)
    requires size > 0
    ensures FragmentCount(n, size) * size >= n
    ensures n > 0 ==> FragmentCount(n, size) > 0
  {
    var c := FragmentCount(n, size);
    assert n + size - 1 == size * c + (n + size - 1) % size;
    assert size * c == c * size;
    assert c == 0 ==> size * c == 0;
  }

  /** The fragments of a segment concatenate to the segment. */
  lemma FragmentsRebuild(data: seq<byte>, size: nat)
    requires size > 0
    ensures JoinFragments(data, size, FragmentCount(|data|, size)) == data
  {
    JoinedPrefix(data, size, FragmentCount(|data|, size));
    CountCovers(|data|, size);
  }

  // ---------- the server ----------

  datatype Entry = Entry(count: int, parts: map<int, seq<byte>>)

  /** One line of the sidecar. */
  datatype SidecarRow = SidecarRow(
    sequence: int, offset: nat, length: nat, tsMs: int, mediaFormat: string, segmentAligned: bool)

  /** The state dictionary of a session, with the two files it writes. */
  datatype Server = Server(
    bin: seq<byte>, meta: seq<SidecarRow>, offset: nat, chunks: nat, bytes: nat,
    segments: map<(int, int), Entry>)

  const NEW_SERVER: Server := Server([], [], 0, 0, 0, map[])

  /** write_payload. */
  function WritePayload(s: Server, sequence: int, tsMs: int, payload: seq<byte>, mediaFormat: string, aligned: bool)
    : Server
  {
    s.(bin := s.bin + payload,
       meta := s.meta + [SidecarRow(sequence, s.offset, |payload|, tsMs, mediaFormat, aligned)],
       offset := s.offset + |payload|, chunks := s.chunks + 1, bytes := s.bytes + |payload|)
  }

  /** `b"".join(parts[idx] for idx in range(n))` */
  function JoinParts(parts: map<int, seq<byte>>, n: nat): seq<byte>
    requires forall i :: 0 <= i < n ==> i in parts
  {
    if n == 0 then [] else JoinParts(parts, n - 1) + parts[n - 1]
  }

  ghost predicate BoundedEntry(e: Entry) {
    e.count > 0 && forall i :: i in e.parts ==> 0 <= i < e.count
  }

  /** Only indices below the announced count are ever stored. */
  ghost predicate Bounded(segments: map<(int, int), Entry>) {
    forall k :: k in segments ==> BoundedEntry(segments[k])
  }

  function Range(n: nat): (r: set<int>)
    ensures forall i :: i in r <==> 0 <= i < n
    ensures |r| == n
  {
    if n == 0 then {} else
      var r := Range(n - 1);
      r + {n - 1}
  }

  lemma FullMapCovers(parts: map<int, seq<byte>>, n: nat)
    requires forall i :: i in parts ==> 0 <= i < n
    ensures |parts| <= n
    ensures |parts| == n ==> forall i :: 0 <= i < n ==> i in parts
  {
    SubsetOfRange(parts.Keys, n);
    assert |parts.Keys| == |parts|;
  }

  lemma SubsetOfRange(s: set<int>, n: nat)
    requires forall i :: i in s ==> 0 <= i < n
    ensures |s| <= n
    ensures |s| == n ==> s == Range(n)
  {
    var r := Range(n);
    var missing := r - s;
    assert r == s + missing && s !! missing;
    assert |r| == |s| + |missing|;
  }

  /** The entry of a packet's key after setdefault. */
  function EntryFor(s: Server, p: Packet): Entry {
    if p.Key() in s.segments then s.segments[p.Key()] else Entry(p.count, map[])
  }

  function WithPart(s: Server, p: Packet): Entry {
    EntryFor(s, p).(parts := EntryFor(s, p).parts[p.index := p.payload])
  }

  predicate WellNumbered(p: Packet) { p.count > 0 && 0 <= p.index < p.count }

  /** The packet completes its segment. */
  predicate Completes(s: Server, p: Packet) {
    WellNumbered(p) && EntryFor(s, p).count == p.count && |WithPart(s, p).parts| == p.count
  }

  /** The segment that a completing packet writes. */
  function Assembled(s: Server, p: Packet): seq<byte>
    requires Bounded(s.segments) && Completes(s, p)
  {
    FullMapCovers(WithPart(s, p).parts, p.count);
    JoinParts(WithPart(s, p).parts, p.count)
  }

  /** write_segment_fragment. */
  function Receive(s: Server, p: Packet): Server
    requires Bounded(s.segments)
  {
    if !WellNumbered(p) then s
    else if EntryFor(s, p).count != p.count then s.(segments := s.segments - {p.Key()})
    else if Completes(s, p) then
      WritePayload(s.(segments := s.segments - {p.Key()}), p.sequence, p.tsMs, Assembled(s, p), "mpegts", true)
    else s.(segments := s.segments[p.Key() := WithPart(s, p)])
  }

  lemma PartsAreBounded(s: Server, p: Packet)
    requires Bounded(s.segments) && WellNumbered(p) && EntryFor(s, p).count == p.count
    ensures BoundedEntry(WithPart(s, p))
  {
  }

  lemma RemovedIsBounded(segments: map<(int, int), Entry>, key: (int, int))
    requires Bounded(segments)
    ensures Bounded(segments - {key})
  {
  }

  lemma PutTwice<K, V>(m: map<K, V>, k: K, v: V, w: V)
    ensures m[k := v][k := w] == m[k := w] && m[k := v] - {k} == m - {k} && m[k := w] - {k} == m - {k}
    ensures m[k := v][k := w] - {k} == m - {k}
  {
  }

  lemma ReceiveKeepsBounded(s: Server, p: Packet)
    requires Bounded(s.segments)
    ensures Bounded(Receive(s, p).segments)
  {
    hide Assembled;
  }

  /** The session object, updated in place packet by packet. */
  class Session {
    var bin: seq<byte>
    var meta: seq<SidecarRow>
    var offset: nat
    var chunks: nat
    var bytes: nat
    var segments: map<(int, int), Entry>

    ghost predicate Valid()
      reads this
    {
      Bounded(segments) && Tiles(meta, bin) && offset == bytes == |bin| && chunks == |meta|
    }

    function View(): Server
      reads this
    {
      Server(bin, meta, offset, chunks, bytes, segments)
    }

    constructor ()
      ensures Valid() && View() == NEW_SERVER
    {
      bin, meta, offset, chunks, bytes, segments := [], [], 0, 0, 0, map[];
    }

    method Write(sequence: int, tsMs: int, payload: seq<byte>, mediaFormat: string, aligned: bool)
      requires Valid()
      modifies this
      ensures Valid() && View() == WritePayload(old(View()), sequence, tsMs, payload, mediaFormat, aligned)
    {
      TilesGrow(meta, bin, SidecarRow(sequence, offset, |payload|, tsMs, mediaFormat, aligned), payload);
      bin := bin + payload;
      meta := meta + [SidecarRow(sequence, offset, |payload|, tsMs, mediaFormat, aligned)];
      offset := offset + |payload|;
      chunks := chunks + 1;
      bytes := bytes + |payload|;
    }

    method WriteSegmentFragment(p: Packet)
      requires Valid()
      modifies this
      ensures Valid() && View() == Receive(old(View()), p)
    {
      hide Tiles, JoinParts, Bounded;
      ghost var s := View();
      ReceiveKeepsBounded(s, p);
      if p.count <= 0 || p.index < 0 || p.index >= p.count {
        return;
      }
      var key := p.Key();
      PutTwice(segments, key, Entry(p.count, map[]), WithPart(s, p));
      if key !in segments {
        segments := segments[key := Entry(p.count, map[])];
      }
      var entry := segments[key];
      assert entry == EntryFor(s, p);
      if entry.count != p.count {
        segments := segments - {key};
        return;
      }
      entry := entry.(parts := entry.parts[p.index := p.payload]);
      assert entry == WithPart(s, p);
      segments := segments[key := entry];
      if |entry.parts| != p.count {
        return;
      }
      PartsAreBounded(s, p);
      FullMapCovers(entry.parts, p.count);
      var segment := JoinAll(entry.parts, p.count);
      segments := segments - {key};
      RemovedIsBounded(s.segments, key);
      Write(p.sequence, p.tsMs, segment, "mpegts", true);
    }

    method JoinAll(parts: map<int, seq<byte>>, n: nat) returns (segment: seq<byte>)
      requires forall i :: 0 <= i < n ==> i in parts
      ensures segment == JoinParts(parts, n)
    {
      segment := [];
      for i := 0 to n
        invariant segment == JoinParts(parts, i)
      {
        segment := segment + parts[i];
      }
    }
  }

  // ---------- the sidecar tiles the file ----------

  /** Row i ends where the next row starts, the last one at the end of the file. */
  ghost predicate MeetsNext(meta: seq<SidecarRow>, size: nat, i: nat)
    requires i < |meta|
  {
    meta[i].offset + meta[i].length == if i + 1 < |meta| then meta[i + 1].offset else size
  }

  /** The rows' ranges follow each other from 0 to the end of the file. */
  ghost predicate Tiles(meta: seq<SidecarRow>, bin: seq<byte>) {
    && (forall i :: 0 <= i < |meta| ==> MeetsNext(meta, |bin|, i))
    && (if meta == [] then bin == [] else meta[0].offset == 0)
  }

  lemma TilesGrow(meta: seq<SidecarRow>, bin: seq<byte>, row: SidecarRow, payload: seq<byte>)
    requires Tiles(meta, bin) && row.offset == |bin| && row.length == |payload|
    ensures Tiles(meta + [row], bin + payload)
  {
    var grown, n := meta + [row], |meta|;
    forall i | 0 <= i <= n
      ensures MeetsNext(grown, |bin + payload|, i)
    {
      assert i < n ==> MeetsNext(meta, |bin|, i);
    }
    assert n > 0 ==> grown[0] == meta[0];
  }

  // ---------- reassembly ----------

  ghost predicate AllBounded(s: Server) { Bounded(s.segments) }

  ghost function ReceiveAll(s: Server, ps: seq<Packet>): Server
    requires AllBounded(s)
    decreases |ps|
  {
    ReceiveKeepsBoundedIfAny(s, ps);
    if ps == [] then s else ReceiveAll(Receive(s, ps[0]), ps[1..])
  }

  lemma ReceiveKeepsBoundedIfAny(s: Server, ps: seq<Packet>)
    requires AllBounded(s)
    ensures ps != [] ==> AllBounded(Receive(s, ps[0]))
  {
    if ps != [] {
      ReceiveKeepsBounded(s, ps[0]);
    }
  }

  /** The payloads written for one key, in order. */
  ghost function WritesFor(s: Server, ps: seq<Packet>, key: (int, int)): seq<seq<byte>>
    requires AllBounded(s)
    decreases |ps|
  {
    ReceiveKeepsBoundedIfAny(s, ps);
    if ps == [] then []
    else
      (if ps[0].Key() == key && Completes(s, ps[0]) then [Assembled(s, ps[0])] else [])
        + WritesFor(Receive(s, ps[0]), ps[1..], key)
  }

  /** Every packet of the key is one of the segment's fragments. */
  ghost predicate Genuine(ps: seq<Packet>, sequence: int, tsMs: int, data: seq<byte>, size: nat)
    requires size > 0
  {
    forall p :: p in ps && p.Key() == (sequence, tsMs) ==>
      0 <= p.index < FragmentCount(|data|, size) && p == SegmentPacket(sequence, tsMs, data, size, p.index)
  }

  /** The fragment numbers of a key's packets, in arrival order. */
  ghost function Arrivals(ps: seq<Packet>, key: (int, int)): seq<int> {
    if ps == [] then []
    else (if ps[0].Key() == key then [ps[0].index] else []) + Arrivals(ps[1..], key)
  }

  /** How often arrivals collect all n numbers, starting over each time; `seen` are collected already. */
  ghost function Rounds(arrivals: seq<int>, seen: set<int>, n: nat): nat
    decreases |arrivals|
  {
    if arrivals == [] then 0
    else if |seen + {arrivals[0]}| == n then 1 + Rounds(arrivals[1..], {}, n)
    else Rounds(arrivals[1..], seen + {arrivals[0]}, n)
  }

  ghost function Repeat<T>(x: T, n: nat): (r: seq<T>)
    ensures |r| == n && forall i :: 0 <= i < n ==> r[i] == x
  {
    if n == 0 then [] else [x] + Repeat(x, n - 1)
  }

  /** The fragments collected so far: exactly those with numbers in `seen`. */
  ghost predicate Collected(s: Server, key: (int, int), data: seq<byte>, size: nat, seen: set<int>)
    requires size > 0
  {
    var n := FragmentCount(|data|, size);
    && seen < Range(n)
    && (if key in s.segments
        then s.segments[key] == Entry(n, map i | i in seen :: if i >= 0 then Fragment(data, size, i) else [])
        else seen == {})
  }

  lemma OtherKeysAreUntouched(s: Server, p: Packet, key: (int, int))
    requires Bounded(s.segments) && p.Key() != key
    ensures key in Receive(s, p).segments <==> key in s.segments
    ensures key in s.segments ==> Receive(s, p).segments[key] == s.segments[key]
  {
    hide Assembled;
  }

  lemma {:induction false} JoinedPartsAreFragments(
    parts: map<int, seq<byte>>, data: seq<byte>, size: nat, n: nat)
    requires forall i :: 0 <= i < n ==> i in parts && parts[i] == Fragment(data, size, i)
    ensures JoinParts(parts, n) == JoinFragments(data, size, n)
  {
    if n > 0 {
      JoinedPartsAreFragments(parts, data, size, n - 1);
    }
  }

  lemma CompletingPacket(
    s: Server, p: Packet, sequence: int, tsMs: int, data: seq<byte>, size: nat, seen: set<int>)
    requires Bounded(s.segments) && size > 0 && Collected(s, (sequence, tsMs), data, size, seen)
    requires 0 <= p.index < FragmentCount(|data|, size)
    requires p == SegmentPacket(sequence, tsMs, data, size, p.index)
    requires Completes(s, p)
    ensures Assembled(s, p) == data
    ensures Collected(Receive(s, p), (sequence, tsMs), data, size, {})
  {
    hide Fragment, FragmentCount, JoinParts, JoinFragments;
    var n := FragmentCount(|data|, size);
    var parts, all := WithPart(s, p).parts, seen + {p.index};
    PartsSoFar(s, p, sequence, tsMs, data, size, seen);
    SubsetOfRange(all, n);
    FullMapCovers(parts, n);
    JoinedPartsAreFragments(parts, data, size, n);
    FragmentsRebuild(data, size);
    assert p.index in Range(n) && {} < Range(n);
  }

  lemma ProperSubset<T>(a: set<T>, b: set<T>)
    requires a <= b && |a| != |b|
    ensures a < b
  {
    assert b <= a ==> a == b;
  }

  lemma StoredPacket(
    s: Server, p: Packet, sequence: int, tsMs: int, data: seq<byte>, size: nat, seen: set<int>)
    requires Bounded(s.segments) && size > 0 && Collected(s, (sequence, tsMs), data, size, seen)
    requires 0 <= p.index < FragmentCount(|data|, size)
    requires p == SegmentPacket(sequence, tsMs, data, size, p.index)
    requires !Completes(s, p)
    ensures Collected(Receive(s, p), (sequence, tsMs), data, size, seen + {p.index})
  {
    hide Fragment, FragmentCount, Assembled, Range;
    var (n, all) := (FragmentCount(|data|, size), seen + {p.index});
    PartsSoFar(s, p, sequence, tsMs, data, size, seen);
    SubsetOfRange(all, n);
    assert |all| != n && all <= Range(n) && |Range(n)| == n;
    ProperSubset(all, Range(n));
    assert Receive(s, p).segments[(sequence, tsMs)] == WithPart(s, p);
  }

  lemma OwnPacketIsCollected(
    s: Server, p: Packet, sequence: int, tsMs: int, data: seq<byte>, size: nat, seen: set<int>)
    requires Bounded(s.segments) && size > 0 && Collected(s, (sequence, tsMs), data, size, seen)
    requires 0 <= p.index < FragmentCount(|data|, size)
    requires p == SegmentPacket(sequence, tsMs, data, size, p.index)
    ensures Completes(s, p) <==> |seen + {p.index}| == FragmentCount(|data|, size)
    ensures Completes(s, p) ==> Assembled(s, p) == data
    ensures Collected(Receive(s, p), (sequence, tsMs), data, size, if Completes(s, p) then {} else seen + {p.index})
  {
    hide Fragment, FragmentCount, Collected, Assembled, Receive;
    PartsSoFar(s, p, sequence, tsMs, data, size, seen);
    if Completes(s, p) {
      CompletingPacket(s, p, sequence, tsMs, data, size, seen);
    } else {
      StoredPacket(s, p, sequence, tsMs, data, size, seen);
    }
  }

  /** The parts after setdefault and the store: the collected fragments and this one. */
  lemma PartsSoFar(
    s: Server, p: Packet, sequence: int, tsMs: int, data: seq<byte>, size: nat, seen: set<int>)
    requires size > 0 && Collected(s, (sequence, tsMs), data, size, seen)
    requires 0 <= p.index < FragmentCount(|data|, size)
    requires p == SegmentPacket(sequence, tsMs, data, size, p.index)
    ensures EntryFor(s, p).count == FragmentCount(|data|, size)
    ensures WithPart(s, p).parts
      == map i | i in seen + {p.index} :: if i >= 0 then Fragment(data, size, i) else []
    ensures |WithPart(s, p).parts| == |seen + {p.index}|
  {
    hide Fragment, FragmentCount;
    var parts := WithPart(s, p).parts;
    assert parts.Keys == seen + {p.index};
    assert |parts| == |parts.Keys|;
  }

  /** Whatever the order, the duplicates and the other traffic: a key's segment is written once
      for every time its fragments have been collected in full, and always as the original bytes. */
  lemma {:induction false} ReassemblyIsExact(
    s: Server, ps: seq<Packet>, sequence: int, tsMs: int, data: seq<byte>, size: nat, seen: set<int>)
    requires AllBounded(s) && size > 0 && data != []
    requires Genuine(ps, sequence, tsMs, data, size)
    requires Collected(s, (sequence, tsMs), data, size, seen)
    ensures WritesFor(s, ps, (sequence, tsMs))
         == Repeat(data, Rounds(Arrivals(ps, (sequence, tsMs)), seen, FragmentCount(|data|, size)))
    decreases |ps|
  {
    hide Assembled, Receive, FragmentCount, Collected, Completes;
    var key, n := (sequence, tsMs), FragmentCount(|data|, size);
    if ps != [] {
      var p := ps[0];
      var s' := Receive(s, p);
      assert p in ps;
      ReceiveKeepsBoundedIfAny(s, ps);
      assert Genuine(ps[1..], sequence, tsMs, data, size);
      if p.Key() == key {
        OwnPacketIsCollected(s, p, sequence, tsMs, data, size, seen);
        var seen' := if Completes(s, p) then {} else seen + {p.index};
        ReassemblyIsExact(s', ps[1..], sequence, tsMs, data, size, seen');
        var later := Arrivals(ps[1..], key);
        assert ([p.index] + later)[1..] == later;
      } else {
        OthersKeepCollected(s, p, key, data, size, seen);
        ReassemblyIsExact(s', ps[1..], sequence, tsMs, data, size, seen);
        assert [] + WritesFor(s', ps[1..], key) == WritesFor(s', ps[1..], key);
        assert [] + Arrivals(ps[1..], key) == Arrivals(ps[1..], key);
      }
    }
  }

  lemma OthersKeepCollected(s: Server, p: Packet, key: (int, int), data: seq<byte>, size: nat, seen: set<int>)
    requires Bounded(s.segments) && size > 0 && Collected(s, key, data, size, seen) && p.Key() != key
    ensures Collected(Receive(s, p), key, data, size, seen)
  {
    hide Receive, FragmentCount, Fragment;
    OtherKeysAreUntouched(s, p, key);
  }

  ghost function Numbers(arrivals: seq<int>): set<int> {
    set i | i in arrivals
  }

  lemma {:induction false} RoundsUntilComplete(arrivals: seq<int>, seen: set<int>, n: nat)
    requires arrivals != [] && n > 0
    requires seen + Numbers(arrivals) == Range(n)
    requires seen + Numbers(arrivals[..|arrivals| - 1]) != Range(n)
    ensures Rounds(arrivals, seen, n) == 1
    decreases |arrivals|
  {
    hide Numbers, Range;
    FirstArrival(arrivals, seen, n);
    if |arrivals| == 1 {
      assert Rounds(arrivals[1..], {}, n) == 0;
    } else {
      RoundsUntilComplete(arrivals[1..], seen + {arrivals[0]}, n);
    }
  }

  /** The first of the arrivals that complete a segment: it is the last one, or more are missing. */
  lemma FirstArrival(arrivals: seq<int>, seen: set<int>, n: nat)
    requires arrivals != []
    requires seen + Numbers(arrivals) == Range(n)
    requires seen + Numbers(arrivals[..|arrivals| - 1]) != Range(n)
    ensures var (rest, seen') := (arrivals[1..], seen + {arrivals[0]});
      if rest == [] then seen' == Range(n) && |seen'| == n
      else
        && |seen'| != n && seen' + Numbers(rest) == Range(n)
        && seen' + Numbers(rest[..|rest| - 1]) != Range(n)
  {
    hide Range;
    var (rest, front) := (arrivals[1..], arrivals[..|arrivals| - 1]);
    var seen' := seen + {arrivals[0]};
    NumbersFromFront(arrivals);
    NumbersOfPart(arrivals, |arrivals| - 1);
    if rest == [] {
      NoNumbers();
    } else {
      assert front[1..] == rest[..|rest| - 1] && front[0] == arrivals[0];
      NumbersFromFront(front);
      assert seen + Numbers(front) == seen' + Numbers(rest[..|rest| - 1]);
      NotYetFull(seen', seen + Numbers(front), n);
    }
  }

  lemma NoNumbers()
    ensures Numbers([]) == {}
  {
  }

  lemma NumbersOfPart(arrivals: seq<int>, k: nat)
    requires k <= |arrivals|
    ensures Numbers(arrivals[..k]) <= Numbers(arrivals)
  {
  }

  lemma NumbersFromFront(arrivals: seq<int>)
    requires arrivals != []
    ensures Numbers(arrivals) == {arrivals[0]} + Numbers(arrivals[1..])
  {
    assert arrivals == [arrivals[0]] + arrivals[1..];
  }

  lemma NotYetFull(part: set<int>, whole: set<int>, n: nat)
    requires part <= whole <= Range(n) && whole != Range(n)
    ensures |part| != n
  {
    SubsetOfRange(part, n);
  }

  /** Every fragment arrives, duplicates only before the last missing one: exactly one write,
      of exactly the original bytes. */
  lemma SegmentIsWrittenOnce(
    s: Server, ps: seq<Packet>, sequence: int, tsMs: int, data: seq<byte>, size: nat)
    requires AllBounded(s) && size > 0 && data != []
    requires (sequence, tsMs) !in s.segments
    requires Genuine(ps, sequence, tsMs, data, size)
    requires var arrivals := Arrivals(ps, (sequence, tsMs));
      && arrivals != []
      && Numbers(arrivals) == Range(FragmentCount(|data|, size))
      && Numbers(arrivals[..|arrivals| - 1]) != Range(FragmentCount(|data|, size))
    ensures WritesFor(s, ps, (sequence, tsMs)) == [data]
  {
    hide FragmentCount, Fragment, Genuine, Numbers, WritesFor;
    var (arrivals, n) := (Arrivals(ps, (sequence, tsMs)), FragmentCount(|data|, size));
    CountCovers(|data|, size);
    assert n > 0;
    assert 0 in Range(n) && {} < Range(n);
    ReassemblyIsExact(s, ps, sequence, tsMs, data, size, {});
    assert {} + Numbers(arrivals) == Numbers(arrivals);
    assert {} + Numbers(arrivals[..|arrivals| - 1]) == Numbers(arrivals[..|arrivals| - 1]);
    RoundsUntilComplete(arrivals, {}, n);
    assert Repeat(data, 1) == [data];
  }

  // ---------- the writes, found in the two files ----------

  /** The rows lie inside the file. */
  ghost predicate InFile(bin: seq<byte>, rows: seq<SidecarRow>) {
    forall i :: 0 <= i < |rows| ==> rows[i].offset + rows[i].length <= |bin|
  }

  /** The parts of the file that the rows of one key name, in order. */
  ghost function PayloadsFor(bin: seq<byte>, rows: seq<SidecarRow>, key: (int, int)): seq<seq<byte>>
    requires InFile(bin, rows)
  {
    if rows == [] then []
    else
      (if (rows[0].sequence, rows[0].tsMs) == key
       then [bin[rows[0].offset..rows[0].offset + rows[0].length]] else [])
        + PayloadsFor(bin, rows[1..], key)
  }

  /** A packet appends its segment to both files, or leaves them alone. */
  lemma ReceiveAppends(s: Server, p: Packet)
    requires Bounded(s.segments)
    ensures var t := Receive(s, p);
      if Completes(s, p) then
        && t.bin == s.bin + Assembled(s, p)
        && t.meta == s.meta + [SidecarRow(p.sequence, s.offset, |Assembled(s, p)|, p.tsMs, "mpegts", true)]
        && t.offset == s.offset + |Assembled(s, p)|
      else t.bin == s.bin && t.meta == s.meta && t.offset == s.offset
  {
    hide Assembled;
  }

  /** What the server has written for a key is what the file holds at the places that the new
      sidecar rows of that key name. */
  lemma {:induction false} FileHoldsTheWrites(s: Server, ps: seq<Packet>, key: (int, int))
    requires AllBounded(s) && s.offset == |s.bin|
    ensures var t := ReceiveAll(s, ps);
      && s.bin <= t.bin && s.meta <= t.meta && t.offset == |t.bin|
      && InFile(t.bin, t.meta[|s.meta|..])
      && PayloadsFor(t.bin, t.meta[|s.meta|..], key) == WritesFor(s, ps, key)
    decreases |ps|
  {
    hide Receive, Completes, Assembled;
    ReceiveKeepsBoundedIfAny(s, ps);
    if ps == [] {
      assert s.meta[|s.meta|..] == [];
    } else {
      var p := ps[0];
      var s1 := Receive(s, p);
      ReceiveAppends(s, p);
      FileHoldsTheWrites(s1, ps[1..], key);
      var t := ReceiveAll(s1, ps[1..]);
      var (rows, later) := (t.meta[|s.meta|..], t.meta[|s1.meta|..]);
      if Completes(s, p) {
        assert rows[1..] == later && rows[0] == s1.meta[|s.meta|];
        assert t.bin[|s.bin|..|s1.bin|] == s1.bin[|s.bin|..];
      } else {
        assert rows == later;
        assert [] + WritesFor(s1, ps[1..], key) == WritesFor(s1, ps[1..], key);
      }
    }
  }

  /** Every fragment arrives, in any order and with duplicates only before the last missing one:
      the new sidecar rows of the key name exactly one part of the file, and it is the segment. */
  lemma SegmentIsInTheFileOnce(
    s: Server, ps: seq<Packet>, sequence: int, tsMs: int, data: seq<byte>, size: nat)
    requires AllBounded(s) && s.offset == |s.bin| && size > 0 && data != []
    requires (sequence, tsMs) !in s.segments
    requires Genuine(ps, sequence, tsMs, data, size)
    requires var arrivals := Arrivals(ps, (sequence, tsMs));
      && arrivals != []
      && Numbers(arrivals) == Range(FragmentCount(|data|, size))
      && Numbers(arrivals[..|arrivals| - 1]) != Range(FragmentCount(|data|, size))
    ensures var t := ReceiveAll(s, ps);
      && s.bin <= t.bin && s.meta <= t.meta && InFile(t.bin, t.meta[|s.meta|..])
      && PayloadsFor(t.bin, t.meta[|s.meta|..], (sequence, tsMs)) == [data]
  {
    hide Genuine, Arrivals, Numbers, Range, FragmentCount, ReceiveAll, WritesFor;
    FileHoldsTheWrites(s, ps, (sequence, tsMs));
    SegmentIsWrittenOnce(s, ps, sequence, tsMs, data, size);
  }

  /** A packet that announces another number of fragments drops what was collected for its key:
      whatever segment that key has, it is collected from the beginning again. */
  lemma ChangedCountStartsOver(s: Server, p: Packet, data: seq<byte>, size: nat)
    requires Bounded(s.segments) && WellNumbered(p) && p.Key() in s.segments && size > 0 && data != []
    requires s.segments[p.Key()].count != p.count
    ensures var t := Receive(s, p);
      && t.bin == s.bin && t.meta == s.meta && p.Key() !in t.segments
      && Collected(t, p.Key(), data, size, {})
  {
    hide FragmentCount, Fragment;
    CountCovers(|data|, size);
    assert 0 in Range(FragmentCount(|data|, size));
  }

  /** A packet with an impossible number changes nothing. */
  lemma BadNumbersAreIgnored(s: Server, p: Packet)
    requires Bounded(s.segments)
    ensures p.count <= 0 || p.index < 0 || p.index >= p.count ==> Receive(s, p) == s
  {
  }

  /** A duplicate after completion starts over: a one-fragment segment sent twice is written twice. */
  lemma DuplicateAfterCompletionIsWrittenAgain(data: seq<byte>)
    requires data != []
    ensures var p := SegmentPacket(1, 0, data, |data|, 0);
      WritesFor(NEW_SERVER, [p, p], (1, 0)) == [data, data]
  {
    hide Fragment, Receive, Assembled;
    var size := |data|;
    var p := SegmentPacket(1, 0, data, size, 0);
    RemainderIsUnique(size + size - 1, size, 1, size - 1);
    assert FragmentCount(|data|, size) == 1;
    assert Range(1) == {0};
    assert [p, p][1..] == [p] && [p][1..] == [];
    assert Arrivals([], (1, 0)) == [];
    assert Arrivals([p], (1, 0)) == [0] + [];
    assert Arrivals([p, p], (1, 0)) == [0] + [0];
    ReassemblyIsExact(NEW_SERVER, [p, p], 1, 0, data, size, {});
    var two := [0, 0];
    assert two[1..] == [0] && [0][1..] == [];
    assert {} + {0} == {0};
    assert Rounds([], {}, 1) == 0;
    assert Rounds([0], {}, 1) == 1;
    assert Rounds(two, {}, 1) == 2;
    assert Repeat(data, 2) == [data, data];
  }
}
