/** The open-addressing hash index of applets/clip_store/db_query.c. */
module RowIndex {
  import opened Machine
  import opened RowLog
  import opened HashKey

  const INITIAL_BUCKETS: nat := 64
  const NO_ROW: Row := Row("", "", 0)

  // ---------- the table, on values ----------

  /** j lies on the cyclic walk from h up to, but not including, i. */
  predicate OnWalk(h: nat, j: nat, i: nat) {
    if h <= i then h <= j < i else j >= h || j < i
  }

  /** The length of the cyclic walk from a to b. */
  function Distance(a: nat, b: nat, cap: nat): nat
    requires a < cap && b < cap
  {
    if a <= b then b - a else b + cap - a
  }

  /** Every stored key can be reached from its home bucket without meeting an empty one. */
  ghost predicate Chained(rows: seq<Row>, used: seq<bool>) {
    && |rows| == |used| && PowerOfTwo(|used|)
    && forall i, j :: 0 <= i < |used| && 0 <= j < |used| && used[i] && OnWalk(Home(rows[i].key, |used|), j, i)
         ==> used[j]
  }

  /** pos tells the one bucket of each key; a bucket is used exactly when pos points to it. */
  ghost predicate Placed(rows: seq<Row>, used: seq<bool>, pos: map<string, nat>) {
    && |rows| == |used|
    && (forall k :: k in pos ==> pos[k] < |used| && used[pos[k]] && rows[pos[k]].key == k)
    && (forall i :: 0 <= i < |used| && used[i] ==> rows[i].key in pos && pos[rows[i].key] == i)
  }

  function Count(used: seq<bool>): nat {
    if used == [] then 0 else Count(used[..|used| - 1]) + (if used[|used| - 1] then 1 else 0)
  }

  lemma {:induction false} CountSet(used: seq<bool>, i: nat)
    requires i < |used| && !used[i]
    ensures Count(used[i := true]) == Count(used) + 1
  {
    var n := |used| - 1;
    if i == n {
      assert used[i := true][..n] == used[..n];
    } else {
      CountSet(used[..n], i);
      assert used[i := true][..n] == used[..n][i := true];
    }
  }

  lemma {:induction false} CountPrefix(used: seq<bool>, i: nat)
    requires i <= |used|
    ensures Count(used[..i]) <= Count(used) <= Count(used[..i]) + (|used| - i)
  {
    if i == |used| {
      assert used[..i] == used;
    } else {
      var n := |used| - 1;
      CountPrefix(used[..n], i);
      assert used[..n][..i] == used[..i];
    }
  }

  lemma {:induction false} EmptyBucketExists(used: seq<bool>) returns (e: nat)
    requires Count(used) < |used|
    ensures e < |used| && !used[e]
  {
    var n := |used| - 1;
    if !used[n] {
      e := n;
    } else {
      e := EmptyBucketExists(used[..n]);
    }
  }

  lemma {:induction false} CountOfNone(used: seq<bool>)
    requires forall i :: 0 <= i < |used| ==> !used[i]
    ensures Count(used) == 0
  {
    if used != [] {
      CountOfNone(used[..|used| - 1]);
    }
  }

  ghost function ContentsOf(rows: seq<Row>, pos: map<string, nat>): map<string, Row>
    requires forall k :: k in pos ==> pos[k] < |rows|
  {
    map k | k in pos :: rows[pos[k]]
  }

  /** Storing a row in the empty bucket that its own probe reached keeps the table sound. */
  lemma InsertKeepsTable(rows: seq<Row>, used: seq<bool>, pos: map<string, nat>, slot: nat, row: Row)
    requires Chained(rows, used) && Placed(rows, used, pos)
    requires slot < |used| && !used[slot] && row.key !in pos
    requires forall j :: 0 <= j < |used| && OnWalk(Home(row.key, |used|), j, slot) ==> used[j]
    ensures Chained(rows[slot := row], used[slot := true])
    ensures Placed(rows[slot := row], used[slot := true], pos[row.key := slot])
    ensures |pos[row.key := slot]| == |pos| + 1
    ensures ContentsOf(rows[slot := row], pos[row.key := slot]) == ContentsOf(rows, pos)[row.key := row]
  {
    hide Home, PowerOfTwo;
  }

  lemma ReplaceKeepsTable(
    rows: seq<Row>, used: seq<bool>, pos: map<string, nat>, slot: nat, row: Row)
    requires Chained(rows, used) && Placed(rows, used, pos)
    requires slot < |used| && used[slot] && rows[slot].key == row.key
    ensures Chained(rows[slot := row], used) && Placed(rows[slot := row], used, pos)
    ensures ContentsOf(rows[slot := row], pos) == ContentsOf(rows, pos)[row.key := row]
  {
    hide Home, PowerOfTwo;
  }

  /** A walk of used buckets without the key that ends at an empty bucket proves the key absent. */
  lemma WalkProvesAbsence(
    rows: seq<Row>, used: seq<bool>, pos: map<string, nat>, key: string, slot: nat)
    requires Chained(rows, used) && Placed(rows, used, pos)
    requires slot < |used| && !used[slot]
    requires forall j :: 0 <= j < |used| && OnWalk(Home(key, |used|), j, slot) ==> rows[j].key != key
    ensures key !in ContentsOf(rows, pos)
  {
    hide Home, PowerOfTwo;
  }

  lemma FoundInItsPlace(rows: seq<Row>, used: seq<bool>, pos: map<string, nat>, key: string, slot: nat)
    requires Placed(rows, used, pos) && slot < |used| && used[slot] && rows[slot].key == key
    ensures key in ContentsOf(rows, pos) && pos[key] == slot
  {
  }

  /** The rows found in the first i buckets. */
  ghost function FirstRows(rows: seq<Row>, used: seq<bool>, pos: map<string, nat>, i: nat): map<string, Row>
    requires Placed(rows, used, pos)
  {
    map k | k in pos && pos[k] < i :: rows[pos[k]]
  }

  lemma FirstRowsStep(rows: seq<Row>, used: seq<bool>, pos: map<string, nat>, i: nat)
    requires Placed(rows, used, pos) && i < |used|
    ensures used[i] ==> rows[i].key !in FirstRows(rows, used, pos, i)
    ensures FirstRows(rows, used, pos, i + 1)
      == if used[i] then FirstRows(rows, used, pos, i)[rows[i].key := rows[i]] else FirstRows(rows, used, pos, i)
  {
  }

  lemma FirstRowsAreAll(rows: seq<Row>, used: seq<bool>, pos: map<string, nat>)
    requires Placed(rows, used, pos)
    ensures FirstRows(rows, used, pos, 0) == map[]
    ensures FirstRows(rows, used, pos, |used|) == ContentsOf(rows, pos)
  {
  }

  lemma CountStep(used: seq<bool>, i: nat)
    requires i < |used|
    ensures Count(used[..i + 1]) == Count(used[..i]) + (if used[i] then 1 else 0)
    ensures Count(used[..i + 1]) <= Count(used)
  {
    assert used[..i + 1][..i] == used[..i];
    CountPrefix(used, i + 1);
  }

  lemma PowerDoubles(n: nat)
    requires PowerOfTwo(n)
    ensures PowerOfTwo(2 * n)
  {
    assert 2 * n / 2 == n;
  }

  lemma InitialIsPower()
    ensures PowerOfTwo(INITIAL_BUCKETS)
  {
    assert PowerOfTwo(1) && PowerOfTwo(2) && PowerOfTwo(4) && PowerOfTwo(8) && PowerOfTwo(16) && PowerOfTwo(32);
  }

  // ---------- the index ----------

  class Index {
    var rows: array<Row>
    var used: array<bool>
    var len: nat
    var cap: nat
    ghost var pos: map<string, nat>

    ghost predicate Valid()
      reads this, rows, used
    {
      && rows.Length == used.Length == cap
      && (cap == 0 || (cap >= INITIAL_BUCKETS && PowerOfTwo(cap) && Chained(rows[..], used[..])))
      && Placed(rows[..], used[..], pos)
      && len == Count(used[..]) == |pos|
      && (cap > 0 ==> 4 * len < 3 * cap)
    }

    /** The map that the index stands for. */
    ghost function Contents(): map<string, Row>
      requires Valid()
      reads this, rows, used
    {
      ContentsOf(rows[..], pos)
    }

    /** The zeroed structure. */
    constructor ()
      ensures Valid() && Contents() == map[] && cap == 0
      ensures fresh(rows) && fresh(used)
    {
      rows := new Row[0](_ => NO_ROW);
      used := new bool[0](_ => false);
      len, cap, pos := 0, 0, map[];
    }

    /** allocate_buckets of a fresh structure. */
    constructor WithBuckets(n: nat)
      requires n >= INITIAL_BUCKETS && PowerOfTwo(n)
      ensures Valid() && Contents() == map[] && cap == n && len == 0
      ensures fresh(rows) && fresh(used)
    {
      rows := new Row[n](_ => NO_ROW);
      used := new bool[n](_ => false);
      len, cap, pos := 0, n, map[];
      new;
      CountOfNone(used[..]);
    }

    /** find_slot. */
    method FindSlot(key: string) returns (slot: nat, found: bool)
      requires Valid() && cap > 0
      ensures slot < cap && PowerOfTwo(cap)
      ensures found <==> key in Contents()
      ensures found ==> used[slot] && rows[slot].key == key && pos[key] == slot
      ensures !found ==> !used[slot]
      ensures !found ==> forall j :: 0 <= j < cap && OnWalk(Home(key, cap), j, slot) ==> used[j]
    {
      hide Home, PowerOfTwo, Placed, Chained, Count, ContentsOf;
      var home := HomeBucket(key, cap);
      slot := home;
      ghost var e := EmptyBucketExists(used[..]);
      while used[slot]
        invariant slot < cap
        invariant forall j :: 0 <= j < cap && OnWalk(home, j, slot) ==> used[j] && rows[j].key != key
        invariant Distance(home, slot, cap) + Distance(slot, e, cap) == Distance(home, e, cap)
        decreases Distance(slot, e, cap)
      {
        if rows[slot].key == key {
          FoundInItsPlace(rows[..], used[..], pos, key, slot);
          return slot, true;
        }
        slot := NextSlot(slot, cap);
      }
      WalkProvesAbsence(rows[..], used[..], pos, key, slot);
      return slot, false;
    }

    /** Put a row into an empty bucket. */
    method Occupy(slot: nat, row: Row)
      requires Valid() && slot < cap && PowerOfTwo(cap)
      requires !used[slot] && row.key !in Contents()
      requires forall j :: 0 <= j < cap && OnWalk(Home(row.key, cap), j, slot) ==> used[j]
      requires 4 * (len + 1) < 3 * cap
      modifies this, rows, used
      ensures Valid() && Contents() == old(Contents())[row.key := row]
      ensures len == old(len) + 1 && cap == old(cap) && rows == old(rows) && used == old(used)
    {
      hide Home, PowerOfTwo, Placed, Chained, Count;
      InsertKeepsTable(rows[..], used[..], pos, slot, row);
      CountSet(used[..], slot);
      rows[slot] := row;
      used[slot] := true;
      len := len + 1;
      pos := pos[row.key := slot];
      assert rows[..] == old(rows[..])[slot := row] && used[..] == old(used[..])[slot := true];
    }

    /** row_index_grow. `granted` is the allocator's answer. */
    method Grow(nextLen: nat, granted: bool) returns (ok: bool)
      requires Valid() && nextLen == len + 1
      modifies this
      ensures Valid() && Contents() == old(Contents()) && len == old(len)
      ensures (rows == old(rows) && used == old(used)) || (fresh(rows) && fresh(used))
      ensures ok ==> cap > 0 && 4 * nextLen < 3 * cap
      ensures !ok ==> !granted && cap == old(cap) && rows == old(rows) && used == old(used)
    {
      hide Home, PowerOfTwo, Placed, Chained, Count, ContentsOf;
      if cap == 0 {
        InitialIsPower();
      }
      var nextCap := GrownCapacity(if cap == 0 then INITIAL_BUCKETS else cap, nextLen);
      if nextCap == cap {
        return true;
      }
      if !granted {
        return false;
      }
      var grown := new Index.WithBuckets(nextCap);
      Rehash(grown);
      rows, used, cap, pos := grown.rows, grown.used, grown.cap, grown.pos;
      return true;
    }

    /** Move every row into the larger table. */
    method Rehash(grown: Index)
      requires Valid() && grown.Valid() && grown != this
      requires grown.rows != rows && grown.used != used
      requires grown.Contents() == map[] && grown.len == 0
      requires grown.cap > 0 && 4 * (len + 1) < 3 * grown.cap
      modifies grown, grown.rows, grown.used
      ensures grown.Valid() && grown.Contents() == Contents() && grown.len == len
      ensures grown.cap == old(grown.cap) && grown.rows == old(grown.rows) && grown.used == old(grown.used)
    {
      hide Home, PowerOfTwo, Placed, Chained, Count, ContentsOf, FirstRows;
      ghost var (rs, us) := (rows[..], used[..]);
      FirstRowsAreAll(rs, us, pos);
      CountOfNone(us[..0]);
      for i := 0 to cap
        invariant rows[..] == rs && used[..] == us && grown.Valid()
        invariant grown.cap == old(grown.cap) && grown.rows == old(grown.rows) && grown.used == old(grown.used)
        invariant grown.len == Count(us[..i])
        invariant grown.Contents() == FirstRows(rs, us, pos, i)
      {
        FirstRowsStep(rs, us, pos, i);
        CountStep(us, i);
        assert rs[i] == rows[i] && us[i] == used[i];
        if !used[i] {
          continue;
        }
        var slot, _ := grown.FindSlot(rows[i].key);
        grown.Occupy(slot, rows[i]);
      }
      assert us[..cap] == us;
    }

    /** row_index_put. `granted` answers the bucket allocation, `copied` the string copies. */
    method Put(row: Row, granted: bool, copied: bool) returns (ok: bool)
      requires Valid()
      modifies this, rows, used
      ensures Valid()
      ensures (rows == old(rows) && used == old(used)) || (fresh(rows) && fresh(used))
      ensures Contents() == if ok then old(Contents())[row.key := row] else old(Contents())
      ensures granted && copied ==> ok
      ensures ok ==> copied
    {
      hide Home, PowerOfTwo, Placed, Chained;
      ok := Grow(len + 1, granted);
      if !ok {
        return;
      }
      var slot, found := FindSlot(row.key);
      if !copied {
        return false;
      }
      if !found {
        Occupy(slot, row);
      } else {
        Overwrite(slot, row);
      }
      return true;
    }

    /** replace_row on a used bucket. */
    method Overwrite(slot: nat, row: Row)
      requires Valid() && slot < cap && used[slot] && rows[slot].key == row.key && pos[row.key] == slot
      requires row.key in pos
      modifies rows
      ensures Valid() && Contents() == old(Contents())[row.key := row]
    {
      hide Home, PowerOfTwo, Chained, Count, ContentsOf;
      ReplaceKeepsTable(rows[..], used[..], pos, slot, row);
      rows[slot] := row;
      assert rows[..] == old(rows[..])[slot := row];
    }

    /** row_index_get. */
    method Get(key: string) returns (r: Option<Row>)
      requires Valid()
      ensures r == if key in Contents() then Some(Contents()[key]) else None
    {
      if cap == 0 {
        return None;
      }
      var slot, found := FindSlot(key);
      return if found then Some(rows[slot]) else None;
    }
  }

  /** The doubling loop of row_index_grow: the least power-of-two multiple of the capacity that
      keeps the load under three quarters. */
  method GrownCapacity(cap: nat, nextLen: nat) returns (nextCap: nat)
    requires PowerOfTwo(cap)
    ensures PowerOfTwo(nextCap) && nextCap >= cap
    ensures nextLen * 4 < nextCap * 3
    ensures nextCap == cap || nextLen * 4 >= nextCap / 2 * 3
  {
    nextCap := cap;
    while nextLen * 4 >= nextCap * 3
      invariant nextCap >= cap && PowerOfTwo(nextCap)
      invariant nextCap == cap || nextLen * 4 >= nextCap / 2 * 3
      decreases nextLen * 4 - nextCap * 3
    {
      PowerDoubles(nextCap);
      nextCap := 2 * nextCap;
    }
  }

  /** `(idx + 1) & mask` */
  method NextSlot(slot: nat, cap: nat) returns (next: nat)
    requires PowerOfTwo(cap) && slot < cap
    ensures next == if slot + 1 == cap then 0 else slot + 1
  {
    MaskIsRemainder(slot + 1, cap);
    RemainderIsUnique(slot + 1, cap, if slot + 1 == cap then 1 else 0, if slot + 1 == cap then 0 else slot + 1);
    next := And(slot + 1, cap - 1);
  }
}
