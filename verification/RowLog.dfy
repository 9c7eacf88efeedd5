/** The clip database as a log of rows: what the latest state of a log is, what is live in
    it, and why compaction cannot be seen by any later reader. */
module RowLog {
  datatype Row = Row(key: string, value: string, expireAt: int)

  /** clip_row_is_tombstone. */
  predicate IsTombstone(r: Row) { r.value == "" }

  /** clip_row_is_expired. */
  predicate IsExpired(r: Row, now: int) { r.expireAt != 0 && r.expireAt <= now }

  /** row_is_live. */
  predicate IsLive(r: Row, now: int) { !IsTombstone(r) && !IsExpired(r, now) }

  /** The index after loading a log: later rows replace earlier ones with the same key. */
  function Latest(rows: seq<Row>): map<string, Row> {
    if rows == [] then map[]
    else Latest(rows[..|rows| - 1])[rows[|rows| - 1].key := rows[|rows| - 1]]
  }

  /** A naive scan from the end: the position of the last row for a key, or -1. */
  function LastPosition(rows: seq<Row>, key: string): (i: int)
    ensures -1 <= i < |rows|
    ensures i >= 0 ==> rows[i].key == key
    ensures forall j :: i < j < |rows| ==> rows[j].key != key
  {
    if rows == [] then -1
    else if rows[|rows| - 1].key == key then |rows| - 1
    else LastPosition(rows[..|rows| - 1], key)
  }

  /** The index and the naive scan agree. */
  lemma {:induction false} LatestIsTheLastRow(rows: seq<Row>, key: string)
    ensures key in Latest(rows) <==> LastPosition(rows, key) >= 0
    ensures key in Latest(rows) ==> Latest(rows)[key] == rows[LastPosition(rows, key)]
  {
    if rows != [] {
      LatestIsTheLastRow(rows[..|rows| - 1], key);
    }
  }

  lemma LatestSnoc(rows: seq<Row>, r: Row)
    ensures Latest(rows + [r]) == Latest(rows)[r.key := r]
  {
    assert (rows + [r])[..|rows|] == rows;
  }

  lemma {:induction false} LatestOfConcat(a: seq<Row>, b: seq<Row>)
    ensures Latest(a + b) == Latest(a) + Latest(b)
  {
    if b == [] {
      assert a + b == a;
    } else {
      var n := |b| - 1;
      LatestOfConcat(a, b[..n]);
      assert (a + b)[..|a + b| - 1] == a + b[..n];
    }
  }

  lemma {:induction false} LatestKeepsKeys(rows: seq<Row>)
    ensures forall k :: k in Latest(rows) ==> Latest(rows)[k].key == k && Latest(rows)[k] in rows
  {
    if rows != [] {
      LatestKeepsKeys(rows[..|rows| - 1]);
    }
  }

  /** What a reader at time `now` can see. */
  ghost function LiveView(rows: seq<Row>, now: int): map<string, Row> {
    map k | k in Latest(rows) && IsLive(Latest(rows)[k], now) :: Latest(rows)[k]
  }

  ghost predicate DistinctKeys(rows: seq<Row>) {
    forall i, j :: 0 <= i < j < |rows| ==> rows[i].key != rows[j].key
  }

  /** c holds exactly the rows of a live view, each once, in any order. */
  ghost predicate ListsView(c: seq<Row>, view: map<string, Row>) {
    && DistinctKeys(c)
    && (forall r :: r in c ==> r.key in view && view[r.key] == r)
    && (forall k :: k in view ==> view[k] in c)
  }

  /** c is a compacted form of the log `rows` at time `now`. */
  ghost predicate IsCompaction(c: seq<Row>, rows: seq<Row>, now: int) {
    ListsView(c, LiveView(rows, now))
  }

  lemma {:induction false} LatestAtEachIndex(c: seq<Row>)
    requires DistinctKeys(c)
    ensures forall i :: 0 <= i < |c| ==> c[i].key in Latest(c) && Latest(c)[c[i].key] == c[i]
    ensures |Latest(c)| == |c|
  {
    if c != [] {
      var n := |c| - 1;
      LatestAtEachIndex(c[..n]);
      LatestIsTheLastRow(c[..n], c[n].key);
      assert c[n].key !in Latest(c[..n]);
    }
  }

  lemma LatestOfDistinct(c: seq<Row>)
    requires DistinctKeys(c)
    ensures forall r :: r in c ==> r.key in Latest(c) && Latest(c)[r.key] == r
    ensures |Latest(c)| == |c|
  {
    LatestAtEachIndex(c);
  }

  /** The latest state of a compacted log is the live view it was made from. */
  lemma CompactedLatest(c: seq<Row>, rows: seq<Row>, now: int)
    requires IsCompaction(c, rows, now)
    ensures Latest(c) == LiveView(rows, now)
  {
    LatestOfDistinct(c);
    LatestKeepsKeys(c);
    LatestKeepsKeys(rows);
    var view := LiveView(rows, now);
    forall k | k in view
      ensures k in Latest(c) && Latest(c)[k] == view[k]
    {
      assert view[k] in c && view[k].key == k;
    }
  }

  /** Compaction is invisible: whatever is appended afterwards, every reader at or after the
      compaction time sees the same keys, values and expiry times as without it. */
  lemma CompactionIsTransparent(c: seq<Row>, rows: seq<Row>, more: seq<Row>, now: int, later: int)
    requires IsCompaction(c, rows, now) && now <= later
    ensures LiveView(c + more, later) == LiveView(rows + more, later)
  {
    CompactedLatest(c, rows, now);
    LatestOfConcat(c, more);
    LatestOfConcat(rows, more);
  }

  /** Reading at an earlier time is not covered: a row that expired in between is gone. */
  lemma CompactionIsVisibleEarlier()
    ensures exists c, rows, now: int, earlier: int ::
      earlier < now && IsCompaction(c, rows, now) && LiveView(c, earlier) != LiveView(rows, earlier)
  {
    var r := Row("k", "v", 5);
    LatestSnoc([], r);
    assert [] + [r] == [r];
    assert "k" in LiveView([r], 4) && "k" !in LiveView([], 4);
    assert LiveView([r], 6) == map[];
    assert IsCompaction([], [r], 6);
  }

  /** Every latest row that is live at time t is live at time now, too. */
  ghost predicate LiveAtBoth(rows: seq<Row>, t: int, now: int) {
    forall k :: k in Latest(rows) && IsLive(Latest(rows)[k], t) ==> IsLive(Latest(rows)[k], now)
  }

  lemma InvisibleUnder(c: seq<Row>, rows: seq<Row>, more: seq<Row>, now: int, t: int)
    requires Latest(c) == LiveView(rows, now) && LiveAtBoth(rows, t, now)
    ensures LiveView(c + more, t) == LiveView(rows + more, t)
  {
    hide Latest, IsLive;
    LatestOfConcat(c, more);
    LatestOfConcat(rows, more);
  }

  /** Exactly when a compaction at time now is invisible at time t, whatever is appended: when no
      latest row that is live at t has expired by now. From the compaction time on it always is. */
  lemma CompactionIsTransparentExactly(c: seq<Row>, rows: seq<Row>, now: int, t: int)
    requires IsCompaction(c, rows, now)
    ensures (forall more :: LiveView(c + more, t) == LiveView(rows + more, t)) <==> LiveAtBoth(rows, t, now)
    ensures now <= t ==> LiveAtBoth(rows, t, now)
  {
    CompactedLatest(c, rows, now);
    if LiveAtBoth(rows, t, now) {
      hide IsCompaction, LiveView, LiveAtBoth;
      forall more
        ensures LiveView(c + more, t) == LiveView(rows + more, t)
      {
        InvisibleUnder(c, rows, more, now, t);
      }
    } else {
      var k :| k in Latest(rows) && IsLive(Latest(rows)[k], t) && !IsLive(Latest(rows)[k], now);
      assert c + [] == c && rows + [] == rows;
      assert k in LiveView(rows, t) && k !in LiveView(c, t);
    }
  }

  lemma SizeOfListed(c: seq<Row>, view: map<string, Row>)
    requires ListsView(c, view)
    requires forall k :: k in view ==> view[k].key == k
    ensures |c| == |view|
  {
    LatestOfDistinct(c);
    LatestKeepsKeys(c);
    assert Latest(c).Keys == view.Keys by {
      forall k | k in view
        ensures k in Latest(c)
      {
        assert view[k] in c && view[k].key == k;
      }
    }
    assert |Latest(c).Keys| == |Latest(c)| && |view.Keys| == |view|;
  }

  /** A compacted log has exactly one row per live key. */
  lemma OneRowPerLiveKey(c: seq<Row>, rows: seq<Row>, now: int)
    requires IsCompaction(c, rows, now)
    ensures |c| == |LiveView(rows, now)|
  {
    LatestKeepsKeys(rows);
    SizeOfListed(c, LiveView(rows, now));
  }

  lemma SameRowsSameMultiset(a: seq<Row>, b: seq<Row>)
    requires DistinctKeys(a) && DistinctKeys(b)
    requires forall r :: r in a <==> r in b
    ensures multiset(a) == multiset(b)
  {
    forall r: Row
      ensures multiset(a)[r] == multiset(b)[r]
    {
      CountOfDistinct(a, r);
      CountOfDistinct(b, r);
    }
  }

  lemma {:induction false} CountOfDistinct(a: seq<Row>, r: Row)
    requires DistinctKeys(a)
    ensures multiset(a)[r] == if r in a then 1 else 0
  {
    if a != [] {
      var n := |a| - 1;
      CountOfDistinct(a[..n], r);
      assert a == a[..n] + [a[n]];
    }
  }

  /** Compacting a compacted log again at the same time only permutes its rows. */
  lemma CompactionIsIdempotent(c: seq<Row>, c2: seq<Row>, rows: seq<Row>, now: int)
    requires IsCompaction(c, rows, now) && IsCompaction(c2, c, now)
    ensures multiset(c2) == multiset(c)
  {
    CompactedLatest(c, rows, now);
    LatestKeepsKeys(rows);
    var view := LiveView(rows, now);
    assert LiveView(c, now) == view;
    forall r: Row
      ensures r in c <==> r in c2
    {
      if r in c {
        assert view[r.key] in c2;
      }
      if r in c2 {
        assert view[r.key] in c;
      }
    }
    SameRowsSameMultiset(c2, c);
  }
}
