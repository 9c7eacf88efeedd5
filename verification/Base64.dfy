/** lib/base64.c. Shifts and masks of the 24-bit groups are written as divisions and remainders
    by the corresponding powers of two. */
module Base64 {
  import opened Machine

  // ---------- the alphabet ----------

  /** b64_table: upper case, lower case, digits, '+' and '/'. */
  function TableChar(i: nat): (c: char)
    requires i < 64
    ensures IndexOfChar(c) == i && c != '='
  {
    if i < 26 then ('A' as int + i) as char
    else if i < 52 then ('a' as int + i - 26) as char
    else if i < 62 then ('0' as int + i - 52) as char
    else if i == 62 then '+'
    else '/'
  }

  /** b64_index: -1 for a character outside the alphabet. */
  function IndexOfChar(c: char): (v: int)
    ensures -1 <= v < 64
  {
    if 'A' <= c <= 'Z' then c as int - 'A' as int
    else if 'a' <= c <= 'z' then c as int - 'a' as int + 26
    else if '0' <= c <= '9' then c as int - '0' as int + 52
    else if c == '+' then 62
    else if c == '/' then 63
    else -1
  }

  predicate InAlphabet(c: char) { IndexOfChar(c) >= 0 }

  // ---------- encoding ----------

  function EncodedLength(n: nat): nat { 4 * ((n + 2) / 3) }

  /** Byte i of the input, zero past its end. */
  function Octet(src: seq<byte>, i: nat): int {
    if i < |src| then src[i] as int else 0
  }

  /** The 24 bits of group g. */
  function Triple(src: seq<byte>, g: nat): (t: nat)
    ensures t < 0x100_0000
  {
    0x1_0000 * Octet(src, 3 * g) + 0x100 * Octet(src, 3 * g + 1) + Octet(src, 3 * g + 2)
  }

  /** The k-th of the four 6-bit pieces of a group. */
  function Sextet(t: nat, k: nat): (v: nat)
    requires t < 0x100_0000 && k < 4
    ensures v < 64
  {
    if k == 0 then t / 0x4_0000
    else if k == 1 then t / 0x1000 % 64
    else if k == 2 then t / 0x40 % 64
    else t % 64
  }

  /** The number of '=' at the end of the encoding of n bytes. */
  function Padding(n: nat): (p: nat)
    ensures p <= 2 && (n + p) % 3 == 0
  {
    (3 - n % 3) % 3
  }

  /** The j-th character before padding. */
  function RawChar(src: seq<byte>, j: nat): char {
    TableChar(Sextet(Triple(src, j / 4), j % 4))
  }

  function EncodedChar(src: seq<byte>, j: nat): char {
    if j + Padding(|src|) >= EncodedLength(|src|) then '=' else RawChar(src, j)
  }

  /** What base64_encode writes, character by character. */
  function Encode(src: seq<byte>): (s: string)
    ensures |s| == EncodedLength(|src|)
  {
    seq(EncodedLength(|src|), j requires 0 <= j => EncodedChar(src, j))
  }

  lemma RawCharAt(src: seq<byte>, g: nat, k: nat)
    requires k < 4
    ensures RawChar(src, 4 * g + k) == TableChar(Sextet(Triple(src, g), k))
  {
    hide Triple, Sextet, TableChar;
    assert (4 * g + k) / 4 == g && (4 * g + k) % 4 == k;
  }

  /** `i < len ? src[i++] : 0` */
  method NextOctet(src: array<byte>, i: nat) returns (v: int, next: nat)
    requires i <= src.Length
    ensures v == Octet(src[..], i)
    ensures next == if i < src.Length then i + 1 else i
  {
    if i < src.Length {
      return src[i] as int, i + 1;
    }
    return 0, i;
  }

  method PutGroup(out: array<char>, j: nat, triple: nat)
    requires triple < 0x100_0000 && j + 4 <= out.Length
    modifies out
    ensures forall k :: j <= k < j + 4 ==> out[k] == TableChar(Sextet(triple, k - j))
    ensures forall k :: 0 <= k < out.Length && !(j <= k < j + 4) ==> out[k] == old(out[k])
  {
    hide Sextet, TableChar;
    out[j] := TableChar(Sextet(triple, 0));
    out[j + 1] := TableChar(Sextet(triple, 1));
    out[j + 2] := TableChar(Sextet(triple, 2));
    out[j + 3] := TableChar(Sextet(triple, 3));
  }

  /** The main loop of base64_encode: four characters per group. */
  method PutGroups(src: array<byte>, out: array<char>)
    requires src as object != out && EncodedLength(src.Length) <= out.Length
    modifies out
    ensures forall k :: 0 <= k < EncodedLength(src.Length) ==> out[k] == RawChar(src[..], k)
    ensures forall k :: EncodedLength(src.Length) <= k < out.Length ==> out[k] == old(out[k])
  {
    hide RawChar, Sextet, TableChar, Octet;
    ghost var text := src[..];
    var i, j := 0, 0;
    ghost var g := 0;
    while i < src.Length
      invariant j == 4 * g && i == (if 3 * g <= src.Length then 3 * g else src.Length)
      invariant 3 * g < src.Length + 3
      invariant forall k :: 0 <= k < j ==> out[k] == RawChar(text, k)
      invariant forall k :: EncodedLength(src.Length) <= k < out.Length ==> out[k] == old(out[k])
    {
      var a, i1 := NextOctet(src, i);
      var b, i2 := NextOctet(src, i1);
      var c, i3 := NextOctet(src, i2);
      OctetsPastTheEnd(text, i1, 3 * g + 1);
      OctetsPastTheEnd(text, i2, 3 * g + 2);
      var triple := 0x1_0000 * a + 0x100 * b + c;
      assert triple == Triple(text, g);
      PutGroup(out, j, triple);
      forall k | j <= k < j + 4
        ensures out[k] == RawChar(text, k)
      {
        RawCharAt(text, g, k - j);
      }
      i, j, g := i3, j + 4, g + 1;
    }
  }

  lemma OctetsPastTheEnd(src: seq<byte>, i: nat, k: nat)
    requires i == (if k <= |src| then k else |src|)
    ensures Octet(src, i) == Octet(src, k)
  {
  }

  lemma PaddingFits(n: nat)
    ensures Padding(n) <= EncodedLength(n)
  {
  }

  /** base64_encode. */
  method EncodeInto(src: array<byte>, out: array<char>) returns (ok: bool)
    requires src as object != out
    modifies out
    ensures ok <==> EncodedLength(src.Length) + 1 <= out.Length
    ensures !ok ==> out[..] == old(out[..])
    ensures ok ==> out[..EncodedLength(src.Length)] == Encode(src[..])
    ensures ok ==> out[EncodedLength(src.Length)] == '\0'
    ensures ok ==> out[EncodedLength(src.Length) + 1..] == old(out[EncodedLength(src.Length) + 1..])
  {
    hide RawChar, EncodedLength, Padding;
    var len := src.Length;
    var outLen := EncodedLength(len);
    PaddingFits(len);
    if out.Length < outLen + 1 {
      return false;
    }
    PutGroups(src, out);
    ghost var text := src[..];
    var pad := 0;
    while pad < Padding(len)
      invariant 0 <= pad <= Padding(len)
      invariant forall k :: 0 <= k < outLen - pad ==> out[k] == RawChar(text, k)
      invariant forall k :: outLen - pad <= k < outLen ==> out[k] == '='
      invariant forall k :: outLen <= k < out.Length ==> out[k] == old(out[k])
    {
      out[outLen - 1 - pad] := '=';
      pad := pad + 1;
    }
    out[outLen] := '\0';
    return true;
  }

  // ---------- decoding ----------

  /** The value the decoder gives a character: '=' counts as zero. */
  function Value(c: char): int {
    if c == '=' then 0 else IndexOfChar(c)
  }

  function DecodedLength(s: string): int {
    var n := |s| / 4 * 3;
    var last := if |s| > 0 && s[|s| - 1] == '=' then 1 else 0;
    var before := if |s| > 1 && s[|s| - 2] == '=' then 1 else 0;
    n - last - before
  }

  predicate AllValues(s: string) {
    forall i :: 0 <= i < |s| ==> Value(s[i]) >= 0
  }

  predicate Decodable(s: string) {
    |s| % 4 == 0 && AllValues(s)
  }

  /** The 24 bits of four decodable characters. */
  function FourValues(a: char, b: char, c: char, d: char): (t: nat)
    requires Value(a) >= 0 && Value(b) >= 0 && Value(c) >= 0 && Value(d) >= 0
    ensures t < 0x100_0000
  {
    0x4_0000 * Value(a) + 0x1000 * Value(b) + 0x40 * Value(c) + Value(d)
  }

  function GroupValue(s: string, g: nat): (t: nat)
    requires 4 * g + 3 < |s| && forall i :: 4 * g <= i < 4 * g + 4 ==> Value(s[i]) >= 0
    ensures t < 0x100_0000
  {
    FourValues(s[4 * g], s[4 * g + 1], s[4 * g + 2], s[4 * g + 3])
  }

  /** The k-th of the three bytes of a group. */
  function GroupByte(t: nat, k: nat): byte
    requires t < 0x100_0000 && k < 3
  {
    if k == 0 then (t / 0x1_0000) as byte
    else if k == 1 then (t / 0x100 % 0x100) as byte
    else (t % 0x100) as byte
  }

  /** What base64_decode writes. */
  function Decode(s: string): (r: Option<seq<byte>>)
    ensures r.Some? <==> Decodable(s)
    ensures r.Some? ==> |r.value| == DecodedLength(s)
  {
    if !Decodable(s) then None
    else
      Some(seq(DecodedLength(s), i requires 0 <= i < DecodedLength(s) =>
        GroupByte(GroupValue(s, i / 3), i % 3)))
  }

  /** `if (j < ol) out[j++] = v` */
  method PutByte(out: array<byte>, j: nat, limit: nat, v: byte) returns (next: nat)
    requires j <= limit <= out.Length
    modifies out
    ensures next == if j < limit then j + 1 else j
    ensures j < limit ==> out[j] == v
    ensures forall k :: 0 <= k < out.Length && k != j ==> out[k] == old(out[k])
    ensures j == limit ==> out[..] == old(out[..])
  {
    next := j;
    if j < limit {
      out[j] := v;
      next := j + 1;
    }
  }

  /** base64_decode of a non-empty text. */
  method DecodeInto(src: array<char>, out: array<byte>) returns (ok: bool, outLen: nat)
    requires src as object != out && src.Length > 0
    modifies out
    ensures ok <==> Decodable(src[..]) && DecodedLength(src[..]) <= out.Length
    ensures ok ==> outLen <= out.Length && Decode(src[..]) == Some(out[..outLen])
  {
    hide GroupValue, FourValues, GroupByte, Value;
    var len := src.Length;
    ghost var text := src[..];
    outLen := 0;
    if len % 4 != 0 {
      return false, 0;
    }
    var ol := len / 4 * 3;
    if src[len - 1] == '=' { ol := ol - 1; }
    if len > 1 && src[len - 2] == '=' { ol := ol - 1; }
    assert ol == DecodedLength(text);
    if out.Length < ol {
      return false, 0;
    }
    ok := GetGroups(src, out, ol);
    if !ok {
      return false, 0;
    }
    assert out[..ol] == Decode(text).value;
    return true, ol;
  }

  lemma ByteOfItsGroup(g: nat, k: nat)
    requires 3 * g <= k < 3 * g + 3
    ensures k / 3 == g && k % 3 == k - 3 * g
  {
  }

  /** The main loop of base64_decode: three bytes per group, cut off at ol. */
  method GetGroups(src: array<char>, out: array<byte>, ol: nat) returns (ok: bool)
    requires src as object != out && src.Length % 4 == 0
    requires ol <= out.Length && ol <= src.Length / 4 * 3
    modifies out
    ensures ok <==> AllValues(src[..])
    ensures ok ==> forall k :: 0 <= k < ol ==>
      k / 3 * 4 + 3 < src.Length && out[k] == GroupByte(GroupValue(src[..], k / 3), k % 3)
  {
    hide FourValues, GroupByte, Value;
    ghost var text := src[..];
    var i, j := 0, 0;
    ghost var g := 0;
    while i < src.Length
      invariant i == 4 * g <= src.Length && j == (if 3 * g <= ol then 3 * g else ol)
      invariant forall k :: 0 <= k < i ==> Value(text[k]) >= 0
      invariant forall k :: 0 <= k < j ==> k / 3 < g && out[k] == GroupByte(GroupValue(text, k / 3), k % 3)
    {
      var a, b, c, d := Value(src[i]), Value(src[i + 1]), Value(src[i + 2]), Value(src[i + 3]);
      assert a == Value(text[i]) && b == Value(text[i + 1]) && c == Value(text[i + 2]) && d == Value(text[i + 3]);
      if a < 0 || b < 0 || c < 0 || d < 0 {
        assert !AllValues(text);
        return false;
      }
      var triple := FourValues(src[i], src[i + 1], src[i + 2], src[i + 3]);
      assert triple == GroupValue(text, g);
      j := PutByte(out, j, ol, GroupByte(triple, 0));
      j := PutByte(out, j, ol, GroupByte(triple, 1));
      j := PutByte(out, j, ol, GroupByte(triple, 2));
      forall k | 3 * g <= k < j
        ensures k / 3 == g && out[k] == GroupByte(triple, k % 3)
      {
        ByteOfItsGroup(g, k);
      }
      i, g := i + 4, g + 1;
    }
    return true;
  }

  // ---------- round trip ----------

  lemma SextetsRebuild(t: nat)
    requires t < 0x100_0000
    ensures 0x4_0000 * Sextet(t, 0) + 0x1000 * Sextet(t, 1) + 0x40 * Sextet(t, 2) + Sextet(t, 3) == t
  {
    var a := t / 0x40;
    var b := a / 0x40;
    assert t == 0x40 * a + t % 0x40 && a == 0x40 * b + a % 0x40;
    assert t / 0x1000 == b && t / 0x4_0000 == b / 0x40;
    assert b == 0x40 * (b / 0x40) + b % 0x40;
  }

  lemma BytesOfTriple(a: nat, b: nat, c: nat)
    requires a < 0x100 && b < 0x100 && c < 0x100
    ensures var t := 0x1_0000 * a + 0x100 * b + c;
      && GroupByte(t, 0) as int == a && GroupByte(t, 1) as int == b && GroupByte(t, 2) as int == c
  {
    var t := 0x1_0000 * a + 0x100 * b + c;
    assert t / 0x1_0000 == a;
    assert t / 0x100 == 0x100 * a + b;
    assert (0x100 * a + b) % 0x100 == b;
    assert t == 0x100 * (0x100 * a + b) + c;
  }

  /** Alphabet characters first, then at most two '='. */
  lemma EncodingIsPadded(src: seq<byte>)
    ensures forall j :: 0 <= j < |Encode(src)| - Padding(|src|) ==> InAlphabet(Encode(src)[j])
    ensures forall j :: |Encode(src)| - Padding(|src|) <= j < |Encode(src)| ==> Encode(src)[j] == '='
    ensures |Encode(src)| == 4 * ((|src| + 2) / 3)
  {
    hide Triple, Sextet;
  }

  lemma EncodingIsDecodable(src: seq<byte>)
    requires src != []
    ensures Decodable(Encode(src)) && DecodedLength(Encode(src)) == |src|
  {
    hide Encode, EncodedLength, Padding, IndexOfChar;
    EncodingIsPadded(src);
    PaddedLength(|src|);
    var s, p := Encode(src), Padding(|src|);
    forall i | 0 <= i < |s|
      ensures Value(s[i]) >= 0
    {
    }
    NoPaddingInAlphabet();
    assert s[|s| - 1] == '=' <==> p >= 1;
    assert s[|s| - 2] == '=' <==> p == 2;
  }

  lemma NoPaddingInAlphabet()
    ensures !InAlphabet('=')
  {
  }

  lemma PaddedLength(n: nat)
    requires n > 0
    ensures EncodedLength(n) % 4 == 0 && EncodedLength(n) >= 4
    ensures EncodedLength(n) / 4 * 3 - Padding(n) == n
  {
  }

  /** A padded position contributes zero either way: the bits there are zero. */
  lemma PaddedSextetIsZero(src: seq<byte>, j: nat)
    requires EncodedLength(|src|) <= j + Padding(|src|) && j < EncodedLength(|src|)
    ensures Sextet(Triple(src, j / 4), j % 4) == 0
  {
    var g, n := j / 4, |src|;
    assert n == 3 * g + 3 - Padding(n);
    var (t, a) := (Triple(src, g), Octet(src, 3 * g));
    if Padding(n) == 1 {
      assert j % 4 == 3 && t == 64 * (0x400 * a + 4 * Octet(src, 3 * g + 1));
    } else {
      assert j % 4 >= 2 && t == 0x1000 * (16 * a);
      assert t / 64 == 64 * (16 * a);
    }
  }

  lemma CharSurvives(src: seq<byte>, g: nat, k: nat)
    requires k < 4 && 4 * g + 3 < EncodedLength(|src|)
    ensures Value(Encode(src)[4 * g + k]) == Sextet(Triple(src, g), k)
  {
    hide Triple, Sextet;
    assert (4 * g + k) / 4 == g && (4 * g + k) % 4 == k;
    if 4 * g + k + Padding(|src|) >= EncodedLength(|src|) {
      PaddedSextetIsZero(src, 4 * g + k);
    }
  }

  lemma GroupSurvives(src: seq<byte>, g: nat)
    requires 4 * g + 3 < EncodedLength(|src|) && Decodable(Encode(src))
    ensures GroupValue(Encode(src), g) == Triple(src, g)
  {
    hide Triple, Sextet, Encode;
    CharSurvives(src, g, 0);
    CharSurvives(src, g, 1);
    CharSurvives(src, g, 2);
    CharSurvives(src, g, 3);
    SextetsRebuild(Triple(src, g));
  }

  lemma ByteOfGroup(src: seq<byte>, i: nat)
    requires i < |src|
    ensures GroupByte(Triple(src, i / 3), i % 3) == src[i]
  {
    hide GroupByte;
    var g := i / 3;
    assert i == 3 * g + i % 3;
    BytesOfTriple(Octet(src, 3 * g), Octet(src, 3 * g + 1), Octet(src, 3 * g + 2));
  }

  /** Decoding inverts encoding on every non-empty byte sequence. */
  lemma DecodeInvertsEncode(src: seq<byte>)
    requires src != []
    ensures Decode(Encode(src)) == Some(src)
  {
    hide GroupByte, Triple, GroupValue, Encode;
    EncodingIsDecodable(src);
    var s := Encode(src);
    var r := Decode(s).value;
    forall i | 0 <= i < |src|
      ensures r[i] == src[i]
    {
      GroupSurvives(src, i / 3);
      ByteOfGroup(src, i);
    }
    assert r == src;
  }

  // ---------- an independent reading: section 4 of RFC 4648 ----------

  /** Table 1: the characters for the values 0 to 63. */
  function RfcChar(v: nat): char
    requires v < 64
  {
    if v < 26 then "ABCDEFGHIJKLMNOPQRSTUVWXYZ"[v]
    else if v < 52 then "abcdefghijklmnopqrstuvwxyz"[v - 26]
    else "0123456789+/"[v - 52]
  }

  lemma TableIsRfc(v: nat)
    requires v < 64
    ensures TableChar(v) == RfcChar(v)
  {
  }

  /** The characters that the decoder accepts besides the padding are those of Table 1, each with
      its own value. */
  lemma AlphabetIsRfc(c: char)
    ensures IndexOfChar(c) >= 0 <==> exists v: nat :: v < 64 && RfcChar(v) == c
    ensures forall v: nat :: v < 64 && RfcChar(v) == c ==> IndexOfChar(c) == v
  {
    hide RfcChar;
    forall v: nat | v < 64
      ensures RfcChar(v) == TableChar(v) && IndexOfChar(RfcChar(v)) == v
    {
      TableIsRfc(v);
    }
    if IndexOfChar(c) >= 0 {
      assert TableChar(IndexOfChar(c)) == c;
    }
  }

  /** Three bytes to four characters; a final quantum of one byte to two characters and "==",
      of two bytes to three characters and "=". */
  function Rfc4648(src: seq<byte>): string
    decreases |src|
  {
    if |src| == 0 then ""
    else if |src| == 1 then RfcOneByte(16 * (src[0] as int))
    else if |src| == 2 then RfcTwoBytes(4 * (0x100 * (src[0] as int) + src[1] as int))
    else
      RfcQuantum(0x1_0000 * (src[0] as int) + 0x100 * (src[1] as int) + src[2] as int) + Rfc4648(src[3..])
  }

  /** Twelve bits, the last four of them zero. */
  function RfcOneByte(n: nat): (q: string)
    requires n < 0x1000
  {
    [RfcChar(n / 64), RfcChar(n % 64), '=', '=']
  }

  /** Eighteen bits, the last two of them zero. */
  function RfcTwoBytes(n: nat): (q: string)
    requires n < 0x4_0000
  {
    [RfcChar(n / 0x1000), RfcChar(n / 64 % 64), RfcChar(n % 64), '=']
  }

  /** A full 24-bit group as four characters. */
  function RfcQuantum(n: nat): (q: string)
    requires n < 0x100_0000
    ensures |q| == 4
  {
    [RfcChar(n / 0x4_0000), RfcChar(n / 0x1000 % 64), RfcChar(n / 64 % 64), RfcChar(n % 64)]
  }

  lemma QuantumIsSextets(n: nat)
    requires n < 0x100_0000
    ensures RfcQuantum(n)
      == [TableChar(Sextet(n, 0)), TableChar(Sextet(n, 1)), TableChar(Sextet(n, 2)), TableChar(Sextet(n, 3))]
  {
    hide TableChar, RfcChar;
    TableIsRfc(Sextet(n, 0));
    TableIsRfc(Sextet(n, 1));
    TableIsRfc(Sextet(n, 2));
    TableIsRfc(Sextet(n, 3));
  }

  lemma LaterGroup(src: seq<byte>, g: nat)
    requires |src| >= 3
    ensures Triple(src[3..], g) == Triple(src, g + 1)
  {
  }

  lemma ShiftOne(a: nat)
    requires a < 0x100
    ensures Sextet(0x1_0000 * a, 0) == 16 * a / 64 && Sextet(0x1_0000 * a, 1) == 16 * a % 64
  {
    assert 0x1_0000 * a / 0x1000 == 16 * a;
  }

  lemma ShiftTwo(a: nat, b: nat)
    requires a < 0x100 && b < 0x100
    ensures var (t, n) := (0x1_0000 * a + 0x100 * b, 4 * (0x100 * a + b));
      Sextet(t, 0) == n / 0x1000 && Sextet(t, 1) == n / 64 % 64 && Sextet(t, 2) == n % 64
  {
    var (t, n) := (0x1_0000 * a + 0x100 * b, 4 * (0x100 * a + b));
    assert t == 64 * n && t / 64 == n;
    assert t / 0x1000 == n / 64;
  }

  /** The two short encodings, spelled out. */
  lemma ShortEncodings(src: seq<byte>)
    ensures |src| == 1 ==> Encode(src) == [RawChar(src, 0), RawChar(src, 1), '=', '=']
    ensures |src| == 2 ==> Encode(src) == [RawChar(src, 0), RawChar(src, 1), RawChar(src, 2), '=']
  {
    hide RawChar;
  }

  lemma OneByteFollowsRfc4648(src: seq<byte>)
    requires |src| == 1
    ensures Encode(src) == Rfc4648(src)
  {
    hide Encode, Sextet, TableChar, RfcChar, Triple, RawChar;
    ShortEncodings(src);
    RawCharAt(src, 0, 0);
    RawCharAt(src, 0, 1);
    TripleOfShort(src);
    ShiftOne(src[0] as int);
    TableIsRfc(Sextet(Triple(src, 0), 0));
    TableIsRfc(Sextet(Triple(src, 0), 1));
  }

  lemma TripleOfShort(src: seq<byte>)
    ensures |src| == 1 ==> Triple(src, 0) == 0x1_0000 * (src[0] as int)
    ensures |src| == 2 ==> Triple(src, 0) == 0x1_0000 * (src[0] as int) + 0x100 * (src[1] as int)
  {
  }

  lemma TwoBytesFollowRfc4648(src: seq<byte>)
    requires |src| == 2
    ensures Encode(src) == Rfc4648(src)
  {
    hide Encode, Sextet, TableChar, RfcChar, Triple, RawChar;
    ShortEncodings(src);
    RawCharAt(src, 0, 0);
    RawCharAt(src, 0, 1);
    RawCharAt(src, 0, 2);
    TripleOfShort(src);
    ShiftTwo(src[0] as int, src[1] as int);
    TableIsRfc(Sextet(Triple(src, 0), 0));
    TableIsRfc(Sextet(Triple(src, 0), 1));
    TableIsRfc(Sextet(Triple(src, 0), 2));
  }

  lemma LaterChar(src: seq<byte>, j: nat)
    requires |src| >= 3
    ensures EncodedChar(src, j + 4) == EncodedChar(src[3..], j)
  {
    hide EncodedLength, Padding, RawChar;
    ThreeFewer(|src|);
    LaterRawChar(src, j);
  }

  lemma LaterRawChar(src: seq<byte>, j: nat)
    requires |src| >= 3
    ensures RawChar(src, j + 4) == RawChar(src[3..], j)
  {
    hide Triple, Sextet, TableChar;
    LaterGroup(src, j / 4);
    assert (j + 4) / 4 == j / 4 + 1 && (j + 4) % 4 == j % 4;
  }

  lemma ThreeFewer(n: nat)
    requires n >= 3
    ensures EncodedLength(n) == EncodedLength(n - 3) + 4 && Padding(n) == Padding(n - 3)
  {
  }

  lemma EncodeSplits(src: seq<byte>)
    requires |src| >= 3
    ensures Encode(src)[4..] == Encode(src[3..])
  {
    hide EncodedChar;
    var s, rest := Encode(src), src[3..];
    assert EncodedLength(|src|) == 4 + EncodedLength(|rest|);
    forall j | 0 <= j < |Encode(rest)|
      ensures s[j + 4] == Encode(rest)[j]
    {
      LaterChar(src, j);
    }
  }

  /** Encode is the encoding of section 4 of RFC 4648. */
  lemma {:induction false} EncodeFollowsRfc4648(src: seq<byte>)
    ensures Encode(src) == Rfc4648(src)
    decreases |src|
  {
    hide Encode, TableChar, RfcChar;
    if |src| == 0 {
      assert |Encode(src)| == 0;
    } else if |src| == 1 {
      OneByteFollowsRfc4648(src);
    } else if |src| == 2 {
      TwoBytesFollowRfc4648(src);
    } else {
      EncodeSplits(src);
      EncodeFollowsRfc4648(src[3..]);
      FullGroupFollowsRfc4648(src);
      RfcStartsWithQuantum(src);
      assert Encode(src) == Encode(src)[..4] + Encode(src)[4..];
    }
  }

  lemma FullGroupFollowsRfc4648(src: seq<byte>)
    requires |src| >= 3
    ensures Encode(src)[..4] == Rfc4648(src)[..4]
  {
    hide TableChar, RfcChar, Sextet, RfcQuantum, Rfc4648, EncodedChar, Triple;
    var s, n := Encode(src), Triple(src, 0);
    QuantumIsSextets(n);
    RfcStartsWithQuantum(src);
    HeadChar(src, 0);
    HeadChar(src, 1);
    HeadChar(src, 2);
    HeadChar(src, 3);
    assert s[..4] == [s[0], s[1], s[2], s[3]];
  }

  lemma HeadChar(src: seq<byte>, k: nat)
    requires |src| >= 3 && k < 4
    ensures EncodedChar(src, k) == TableChar(Sextet(Triple(src, 0), k))
  {
    hide Triple, Sextet, TableChar;
    RawCharAt(src, 0, k);
    assert EncodedLength(|src|) >= 4 && (Padding(|src|) > 0 ==> EncodedLength(|src|) >= 8);
  }

  lemma RfcStartsWithQuantum(src: seq<byte>)
    requires |src| >= 3
    ensures |Rfc4648(src)| >= 4
    ensures Rfc4648(src)[..4] == RfcQuantum(Triple(src, 0)) && Rfc4648(src)[4..] == Rfc4648(src[3..])
  {
    hide RfcQuantum, RfcOneByte, RfcTwoBytes;
  }
}
