/** The bounded tag set of applets/stream_merge/sm_events.c. */
module Events {
  import opened Machine

  const MAX_ITEMS: nat := 16
  const MAX_LEN: nat := 64

  /** A tag the set can hold: not empty, and short enough to leave room for the terminator. */
  predicate Storable(tag: string) {
    0 < |tag| < MAX_LEN
  }

  predicate Distinct(tags: seq<string>) {
    forall i, j :: 0 <= i < j < |tags| ==> tags[i] != tags[j]
  }

  predicate WellFormed(tags: seq<string>) {
    && |tags| <= MAX_ITEMS
    && Distinct(tags)
    && forall t :: t in tags ==> Storable(t)
  }

  /** What one insertion leaves: None is the source's -1. */
  function Add(tags: seq<string>, tag: string): Option<seq<string>> {
    if !Storable(tag) then None
    else if tag in tags then Some(tags)
    else if |tags| >= MAX_ITEMS then None
    else Some(tags + [tag])
  }

  /** Insert every tag of src, giving up at the first one that is refused. */
  function AddAll(dst: seq<string>, src: seq<string>): seq<string>
    decreases |src|
  {
    if src == [] then dst
    else
      match Add(dst, src[0])
      case None => dst
      case Some(next) => AddAll(next, src[1..])
  }

  predicate AllFit(dst: seq<string>, src: seq<string>)
    decreases |src|
  {
    src == [] || (Add(dst, src[0]).Some? && AllFit(Add(dst, src[0]).value, src[1..]))
  }

  // ---------- the independent reading: deduplicate, then truncate ----------

  /** The distinct tags in order of first appearance. */
  function Dedup(tags: seq<string>): (r: seq<string>)
    ensures Distinct(r)
    ensures forall t :: t in r <==> t in tags
  {
    if tags == [] then []
    else
      var n := |tags| - 1;
      var front := Dedup(tags[..n]);
      assert tags == tags[..n] + [tags[n]];
      if tags[n] in front then front else front + [tags[n]]
  }

  function FirstSixteen(tags: seq<string>): seq<string> {
    if |tags| <= MAX_ITEMS then tags else tags[..MAX_ITEMS]
  }

  lemma {:induction false} DedupIsMonotone(h: seq<string>, more: seq<string>)
    ensures Dedup(h) <= Dedup(h + more)
  {
    if more == [] {
      assert h + more == h;
    } else {
      var n := |more| - 1;
      DedupIsMonotone(h, more[..n]);
      assert (h + more)[..|h + more| - 1] == h + more[..n];
    }
  }

  lemma {:induction false} DedupOfDistinct(tags: seq<string>)
    requires Distinct(tags)
    ensures Dedup(tags) == tags
  {
    if tags != [] {
      var n := |tags| - 1;
      DedupOfDistinct(tags[..n]);
      assert tags == tags[..n] + [tags[n]];
      assert tags[n] !in tags[..n];
    }
  }

  lemma DedupSnoc(h: seq<string>, t: string)
    ensures Dedup(h + [t]) == if t in h then Dedup(h) else Dedup(h) + [t]
  {
    assert (h + [t])[..|h|] == h;
  }

  /** Giving up at the first refused tag loses nothing that plain truncation would keep:
      if the set already holds the first sixteen distinct tags of a history h, folding src
      into it leaves exactly the first sixteen distinct tags of h + src. */
  lemma {:induction false} AddAllIsTruncation(h: seq<string>, src: seq<string>)
    requires forall t :: t in src ==> Storable(t)
    ensures AddAll(FirstSixteen(Dedup(h)), src) == FirstSixteen(Dedup(h + src))
    decreases |src|
  {
    if src == [] {
      assert h + src == h;
    } else {
      var t, dst := src[0], FirstSixteen(Dedup(h));
      assert h + src == (h + [t]) + src[1..];
      DedupSnoc(h, t);
      if Add(dst, t).None? {
        DedupIsMonotone(h, src);
        assert dst == FirstSixteen(Dedup(h + src));
      } else {
        assert Add(dst, t).value == FirstSixteen(Dedup(h + [t]));
        AddAllIsTruncation(h + [t], src[1..]);
      }
    }
  }

  lemma {:induction false} AddAllKeepsWellFormed(dst: seq<string>, src: seq<string>)
    requires WellFormed(dst)
    ensures WellFormed(AddAll(dst, src))
    decreases |src|
  {
    if src != [] && Add(dst, src[0]).Some? {
      AddAllKeepsWellFormed(Add(dst, src[0]).value, src[1..]);
    }
  }

  /** sm_event_set_t: a fixed array of slots and a count. */
  class EventSet {
    const items: array<string>
    var count: nat

    ghost predicate Valid()
      reads this, items
    {
      && items.Length == MAX_ITEMS
      && count <= MAX_ITEMS
      && WellFormed(items[..count])
    }

    ghost function Contents(): seq<string>
      requires Valid()
      reads this, items
    {
      items[..count]
    }

    constructor ()
      ensures Valid() && fresh(items) && Contents() == []
    {
      items := new string[MAX_ITEMS](_ => "");
      count := 0;
    }

    method Reset()
      requires Valid()
      modifies this, items
      ensures Valid() && Contents() == []
    {
      forall i | 0 <= i < items.Length {
        items[i] := "";
      }
      count := 0;
    }

    method AddTag(tag: string) returns (ok: bool)
      requires Valid()
      modifies this, items
      ensures Valid()
      ensures ok <==> Add(old(Contents()), tag).Some?
      ensures ok <==> 1 <= |tag| <= 63 && (tag in old(Contents()) || |old(Contents())| < 16)
      ensures Contents() == if ok then Add(old(Contents()), tag).value else old(Contents())
    {
      if |tag| == 0 || |tag| >= MAX_LEN {
        return false;
      }
      for i := 0 to count
        invariant tag !in items[..i]
      {
        if items[i] == tag {
          assert tag in items[..count];
          return true;
        }
      }
      if count >= MAX_ITEMS {
        return false;
      }
      items[count] := tag;
      count := count + 1;
      assert items[..count] == old(items[..count]) + [tag];
      return true;
    }

    method AddAllTags(src: seq<string>) returns (ok: bool)
      requires Valid()
      modifies this, items
      ensures Valid()
      ensures Contents() == AddAll(old(Contents()), src)
      ensures ok <==> AllFit(old(Contents()), src)
    {
      for i := 0 to |src|
        invariant Valid()
        invariant AddAll(old(Contents()), src) == AddAll(Contents(), src[i..])
        invariant AllFit(old(Contents()), src) == AllFit(Contents(), src[i..])
      {
        assert src[i..][1..] == src[i + 1..];
        var added := AddTag(src[i]);
        if !added {
          return false;
        }
      }
      return true;
    }

    /** The struct assignment `fsm->events = rec->events`. */
    method CopyFrom(src: seq<string>)
      requires Valid() && WellFormed(src)
      modifies this, items
      ensures Valid() && Contents() == src
    {
      forall i | 0 <= i < items.Length {
        items[i] := if i < |src| then src[i] else "";
      }
      count := |src|;
      assert items[..count] == src;
    }

    method Snapshot() returns (tags: seq<string>)
      requires Valid()
      ensures tags == Contents()
    {
      tags := items[..count];
    }
  }
}
