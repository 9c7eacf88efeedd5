/** The growable byte buffer of lib/dynamic_buffer.c. */
module DynamicBuffer {
  import opened Machine

  const MAX: uint64 := 0xFFFF_FFFF_FFFF_FFFF
  const FIRST_CAPACITY: uint64 := 128

  class Buffer {
    var data: array?<char>
    var len: uint64
    var cap: uint64
    var failed: bool

    /** The texts appended successfully since the last reset. */
    ghost var appended: seq<string>
    /** The sum of all capacities requested from the allocator since the last free. */
    ghost var requested: nat

    /** What realloc guarantees: cap is the size of the block; without a block there is no text. */
    ghost predicate Shape()
      reads this
    {
      && (data != null ==> data.Length == cap as int)
      && (data == null ==> len == 0)
    }

    /** The source's own sanity checks hold. */
    predicate Sane()
      reads this
    {
      && !(cap > 0 && data == null)
      && !(data != null && len >= cap)
    }

    ghost predicate Valid()
      reads this, data
    {
      && Shape() && Sane()
      && (data != null ==> data[len] == '\0')
      && Contents() == Flatten(appended)
      && (cap <= MAX / 2 ==> requested <= 2 * cap as nat)
    }

    ghost function Contents(): string
      requires Shape() && Sane()
      reads this, data
    {
      if data == null then "" else data[..len]
    }

    /** The text can grow by `extra`: the size with the terminator does not overflow, and the room
        is there or the allocator grants it. */
    predicate HasRoom(extra: nat, granted: bool)
      reads this
    {
      len as int + extra < MAX as int && (len as int + extra < cap as int || granted)
    }

    /** A buffer that has not failed, and whose text can grow by n if the allocator agrees. */
    ghost predicate CanTake(n: nat)
      requires Shape() && Sane()
      reads this, data
    {
      !failed && |Contents()| + n < SIZE_MAX
    }

    constructor ()
      ensures Valid() && Contents() == "" && !failed && data == null
    {
      data, len, cap, failed := null, 0, 0, false;
      appended, requested := [], 0;
    }

    /** dynamic_buffer_free. */
    method Free()
      modifies this
      ensures Valid() && Contents() == "" && !failed && cap == 0
    {
      data, len, cap, failed := null, 0, 0, false;
      appended, requested := [], 0;
    }

    /** dynamic_buffer_reset: the storage is kept, the contents and the failure latch are not. */
    method Reset()
      requires Valid()
      modifies this, data
      ensures Valid() && Contents() == "" && !failed
      ensures data == old(data) && cap == old(cap)
    {
      len := 0;
      failed := false;
      appended := [];
      if data != null {
        data[0] := '\0';
      } else {
        cap := 0;
      }
    }

    /** dynamic_buffer_reserve. `granted` is the allocator's answer, if it is asked. */
    method Reserve(extra: uint64, granted: bool) returns (ok: bool)
      requires Shape()
      modifies this, data
      ensures Shape() && len == old(len)
      ensures data == old(data) || fresh(data)
      ensures ok ==> !failed && data != null && len as int + extra as int < cap as int
      ensures !ok ==> failed && data == old(data) && cap == old(cap)
      ensures !old(Sane()) ==> !ok
      ensures old(Valid()) ==> Valid() && Contents() == old(Contents()) && appended == old(appended)
      ensures old(Valid()) ==> (ok <==> !old(failed) && old(HasRoom(extra as nat, granted)))
    {
      if failed {
        return false;
      }
      if cap > 0 && data == null {
        failed := true;
        return false;
      }
      if data != null && len >= cap {
        failed := true;
        return false;
      }
      if extra > MAX - 1 - len {
        failed := true;
        return false;
      }
      var need := len + extra + 1;
      if need <= cap {
        return true;
      }
      var next := NextCapacity(cap, need);
      if !granted {
        failed := true;
        return false;
      }
      requested := requested + next as nat;
      Reallocate(next);
      return true;
    }

    /** realloc when the block is granted, and the terminator. */
    method Reallocate(next: uint64)
      requires Shape() && Sane() && cap < next && len < next
      modifies `data, `cap
      ensures Shape() && fresh(data) && cap == next && data[len] == '\0'
      ensures data[..len] == old(if data == null then "" else data[..len])
    {
      var block := new char[next as int];
      if data != null {
        forall i | 0 <= i < data.Length {
          block[i] := data[i];
        }
      }
      block[len] := '\0';
      data := block;
      cap := next;
    }

    /** The doubling loop: at least the needed size, and at least twice the old one unless
        doubling would overflow. */
    static method NextCapacity(cap: uint64, need: uint64) returns (next: uint64)
      requires need > cap
      ensures next >= need
      ensures next <= MAX / 2 ==> next as int >= 2 * cap as int
    {
      next := if cap == 0 then FIRST_CAPACITY else cap;
      var start := next;
      while next < need
        invariant start <= next
        invariant next == start || next as int >= 2 * start as int
        decreases if next < need then need as int - next as int else 0
      {
        if next > MAX / 2 {
          next := need;
          break;
        }
        next := next * 2;
      }
    }

    /** dynamic_buffer_append_char. */
    method AppendChar(c: char, granted: bool) returns (ok: bool)
      requires Valid()
      modifies this, data
      ensures Valid() && (data == old(data) || fresh(data))
      ensures Contents() == if ok then old(Contents()) + [c] else old(Contents())
      ensures appended == if ok then old(appended) + [[c]] else old(appended)
      ensures failed == !ok && (ok <==> !old(failed) && old(HasRoom(1, granted)))
    {
      ok := Reserve(1, granted);
      if !ok {
        failed := true;
        return;
      }
      data[len] := c;
      len := len + 1;
      data[len] := '\0';
      appended := appended + [[c]];
      FlattenSnoc(old(appended), [c]);
      assert data[..len] == old(Contents()) + [c];
    }

    /** dynamic_buffer_append_mem. None is a null source pointer. */
    method AppendMem(src: Option<string>, n: uint64, granted: bool) returns (ok: bool)
      requires Valid()
      requires src.Some? ==> |src.value| == n as int
      modifies this, data
      ensures Valid() && (data == old(data) || fresh(data))
      ensures Contents() == if ok && src.Some? then old(Contents()) + src.value else old(Contents())
      ensures failed == !ok
      ensures ok <==> !old(failed) && (src.Some? || n == 0) && old(HasRoom(n as nat, granted))
    {
      if failed {
        return false;
      }
      if src.None? && n > 0 {
        failed := true;
        return false;
      }
      ok := Reserve(n, granted);
      if !ok {
        failed := true;
        return;
      }
      ghost var kept := data[..len];
      if n > 0 {
        CopyIn(src.value);
      }
      data[len] := '\0';
      if src.Some? {
        appended := appended + [src.value];
        FlattenSnoc(old(appended), src.value);
        assert data[..len] == kept + src.value;
      }
    }

    /** memcpy to the end of the text. */
    method CopyIn(src: string)
      requires Shape() && data != null && len as int + |src| < cap as int
      modifies `len, data
      ensures Shape() && len as int == old(len) as int + |src|
      ensures data[..len] == old(data[..len]) + src
    {
      forall i | 0 <= i < |src| {
        data[len as int + i] := src[i];
      }
      len := len + |src| as uint64;
      assert data[..len] == old(data[..len]) + src;
    }

    /** dynamic_buffer_append_str. None is a null string. */
    method AppendStr(s: Option<string>, granted: bool) returns (ok: bool)
      requires Valid()
      requires s.Some? ==> |s.value| <= SIZE_MAX
      modifies this, data
      ensures Valid() && (data == old(data) || fresh(data))
      ensures Contents() == if s.Some? && ok then old(Contents()) + s.value else old(Contents())
      ensures failed == !ok && (ok <==> !old(failed) && s.Some? && old(HasRoom(|s.value|, granted)))
    {
      if failed {
        return false;
      }
      if s.None? {
        failed := true;
        return false;
      }
      ok := AppendMem(s, |s.value| as uint64, granted);
    }
  }
}
