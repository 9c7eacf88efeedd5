/** The FNV-1a hash of applets/clip_store/db_query.c and its bucket mask. */
module HashKey {
  import opened Machine

  const FNV1A_64_OFFSET_BASIS: nat := 14695981039346656037
  const FNV1A_64_PRIME: nat := 1099511628211
  const WORD: nat := 0x1_0000_0000_0000_0000

  /** Bitwise exclusive or. */
  function Xor(x: nat, y: nat): nat
    decreases x + y
  {
    if x == 0 && y == 0 then 0 else 2 * Xor(x / 2, y / 2) + (x + y) % 2
  }

  /** Bitwise and. */
  function And(x: nat, y: nat): nat {
    if x == 0 || y == 0 then 0 else 2 * And(x / 2, y / 2) + (x % 2) * (y % 2)
  }

  /** hash_key: characters are taken as unsigned bytes, products wrap at 64 bits. */
  function Hash(key: string): (h: nat)
    ensures h < WORD
  {
    if key == "" then FNV1A_64_OFFSET_BASIS
    else
      var n := |key| - 1;
      Xor(Hash(key[..n]), key[n] as nat % 256) * FNV1A_64_PRIME % WORD
  }

  /** The loop of hash_key. */
  method ComputeHash(key: string) returns (h: nat)
    ensures h == Hash(key) && h < WORD
  {
    h := FNV1A_64_OFFSET_BASIS;
    for i := 0 to |key|
      invariant h == Hash(key[..i])
    {
      assert key[..i + 1][..i] == key[..i];
      h := Xor(h, key[i] as nat % 256);
      h := h * FNV1A_64_PRIME % WORD;
    }
    assert key[..|key|] == key;
  }

  lemma HashSnoc(key: string, c: char)
    ensures Hash(key + [c]) == Xor(Hash(key), c as nat % 256) * FNV1A_64_PRIME % WORD
  {
    hide Xor;
    assert (key + [c])[..|key|] == key;
  }

  lemma {:induction false} XorZero(x: nat)
    ensures Xor(x, 0) == x
  {
    if x > 0 {
      XorZero(x / 2);
    }
  }

  /** The lowest bits are combined on their own. */
  lemma XorBit(x: nat, y: nat, a: nat, b: nat)
    requires a < 2 && b < 2
    ensures Xor(2 * x + a, 2 * y + b) == 2 * Xor(x, y) + (a + b) % 2
  {
    assert (2 * x + a) / 2 == x && (2 * y + b) / 2 == y;
  }

  /** The basis with the low seven bits flipped as in 'a'. */
  lemma BasisXorA()
    ensures Xor(0xcbf2_9ce4_8422_2325, 97) == 0xcbf2_9ce4_8422_2344
  {
    hide Xor;
    XorZero(0x197e539c9084446);
    XorBit(0x197e539c9084446, 0, 0, 1);
    XorBit(0x32fca739210888c, 1, 1, 1);
    XorBit(0x65f94e724211119, 3, 0, 0);
    XorBit(0xcbf29ce48422232, 6, 0, 0);
    XorBit(0x197e539c90844464, 12, 1, 0);
    XorBit(0x32fca739210888c9, 24, 0, 0);
    XorBit(0x65f94e7242111192, 48, 1, 1);
  }

  /** Two published test vectors of 64-bit FNV-1a. */
  lemma FnvTestVectors()
    ensures Hash("") == 0xcbf2_9ce4_8422_2325
    ensures Hash("a") == 0xaf63_dc4c_8601_ec8c
  {
    hide Xor;
    HashSnoc("", 'a');
    assert "" + ['a'] == "a";
    BasisXorA();
    assert 'a' as nat % 256 == 97;
    assert 0xcbf2_9ce4_8422_2344 * FNV1A_64_PRIME % WORD == 0xaf63_dc4c_8601_ec8c;
  }

  predicate PowerOfTwo(n: nat) {
    n == 1 || (n > 0 && n % 2 == 0 && PowerOfTwo(n / 2))
  }

  lemma HalveRemainder(x: nat, m: nat)
    requires m >= 1
    ensures x % (2 * m) == 2 * (x / 2 % m) + x % 2
  {
    var q, r := x / 2 / m, x / 2 % m;
    assert x / 2 == m * q + r;
    assert x == 2 * (m * q + r) + x % 2;
    assert 2 * (m * q) == (2 * m) * q;
    RemainderIsUnique(x, 2 * m, q, 2 * r + x % 2);
  }

  /** Masking with a power of two minus one takes the remainder. */
  lemma {:induction false} MaskIsRemainder(x: nat, n: nat)
    requires PowerOfTwo(n)
    ensures And(x, n - 1) == x % n
    decreases n
  {
    if n > 1 {
      var m := n / 2;
      assert n == 2 * m && (n - 1) / 2 == m - 1 && (n - 1) % 2 == 1;
      MaskIsRemainder(x / 2, m);
      HalveRemainder(x, m);
      if x == 0 {
        assert 0 % n == 0;
      }
    }
  }

  /** The first bucket of a key's probe sequence. */
  function Home(key: string, cap: nat): (h: nat)
    requires PowerOfTwo(cap)
    ensures h < cap
  {
    MaskIsRemainder(Hash(key), cap);
    And(Hash(key), cap - 1)
  }

  /** `hash_key(key) & mask` */
  method HomeBucket(key: string, cap: nat) returns (slot: nat)
    requires PowerOfTwo(cap)
    ensures slot == Home(key, cap)
  {
    var h := ComputeHash(key);
    slot := And(h, cap - 1);
  }
}
