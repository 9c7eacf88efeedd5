/** Machine integers and the small generic helpers that several modules share. */
module Machine {

  /** C's uint64_t and size_t: arithmetic on it that could wrap is refused by the verifier. */
  newtype uint64 = x: int | 0 <= x < 0x1_0000_0000_0000_0000

  newtype byte = x: int | 0 <= x < 0x100

  const SIZE_MAX: nat := 0xFFFF_FFFF_FFFF_FFFF

  /** The largest integer the JSON reader lets through, 2^53 - 1. */
  const SAFE_MAX: nat := 0x1F_FFFF_FFFF_FFFF

  datatype Option<+T> = None | Some(value: T)

  ghost function Flatten<T>(parts: seq<seq<T>>): seq<T> {
    if parts == [] then [] else parts[0] + Flatten(parts[1..])
  }

  lemma FlattenConcat<T>(a: seq<seq<T>>, b: seq<seq<T>>)
    ensures Flatten(a + b) == Flatten(a) + Flatten(b)
  {
    if a == [] {
      assert a + b == b;
    } else {
      assert (a + b)[1..] == a[1..] + b;
      FlattenConcat(a[1..], b);
    }
  }

  lemma FlattenSnoc<T>(a: seq<seq<T>>, x: seq<T>)
    ensures Flatten(a + [x]) == Flatten(a) + x
  {
    FlattenConcat(a, [x]);
    assert Flatten([x]) == x + Flatten([]);
  }

  /** The integers lo, lo + 1, ..., lo + n - 1: the byte positions of a range. */
  ghost function Span(lo: nat, n: nat): (s: seq<nat>)
    ensures |s| == n
    ensures forall i :: 0 <= i < n ==> s[i] == lo + i
  {
    seq(n, i requires 0 <= i < n => lo + i)
  }

  lemma SpanSplit(lo: nat, m: nat, n: nat)
    ensures Span(lo, m) + Span(lo + m, n) == Span(lo, m + n)
  {
  }

  lemma MulAtLeast(n: nat, d: int)
    requires d >= 1
    ensures n * d >= n
  {
  }

  /** Quotient and remainder are unique. */
  lemma RemainderIsUnique(x: nat, n: nat, q: int, r: nat)
    requires r < n && x == n * q + r
    ensures x % n == r && x / n == q
  {
    var d := q - x / n;
    assert x == n * (x / n) + x % n;
    assert n * d == x % n - r;
    assert n * d == -(n * -d);
    if d >= 1 {
      MulAtLeast(n, d);
    } else if d <= -1 {
      MulAtLeast(n, -d);
    }
  }
}
