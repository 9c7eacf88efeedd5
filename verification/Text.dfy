/** Text the way the C library sees it: searching for a character, NUL-terminated strings,
    lines, and decimal numbers. */
module Text {
  import opened Machine

  // ---------- searching ----------

  /** The position of the first c in s, or |s| if there is none (strchr, memchr). */
  function IndexOf(s: string, c: char): (n: nat)
    ensures n <= |s|
    ensures forall i :: 0 <= i < n ==> s[i] != c
    ensures n < |s| ==> s[n] == c
    decreases |s|
  {
    if s == [] || s[0] == c then 0 else 1 + IndexOf(s[1..], c)
  }

  /** IndexOf is determined by what it promises. */
  lemma IndexIsUnique(s: string, c: char, n: nat)
    requires n <= |s|
    requires forall i :: 0 <= i < n ==> s[i] != c
    requires n == |s| || s[n] == c
    ensures IndexOf(s, c) == n
  {
  }

  lemma IndexAfter(head: string, c: char, tail: string)
    requires c !in head
    ensures IndexOf(head + [c] + tail, c) == |head|
  {
    var s := head + [c] + tail;
    forall i | 0 <= i < |head|
      ensures s[i] != c
    {
      assert s[i] == head[i];
    }
    IndexIsUnique(s, c, |head|);
  }

  lemma IndexAbsent(s: string, c: char)
    requires c !in s
    ensures IndexOf(s, c) == |s|
  {
    IndexIsUnique(s, c, |s|);
  }

  /** What a C string function sees of a buffer: everything before the first NUL. */
  function CString(s: string): (r: string)
    ensures '\0' !in r
  {
    s[..IndexOf(s, '\0')]
  }

  lemma CStringOfClean(s: string)
    requires '\0' !in s
    ensures CString(s) == s
  {
    IndexAbsent(s, '\0');
  }

  // ---------- lines ----------

  /** The complete lines of a text, without their newlines. */
  function Lines(s: string): seq<string>
    decreases |s|
  {
    var n := IndexOf(s, '\n');
    if n == |s| then [] else [s[..n]] + Lines(s[n + 1..])
  }

  /** What follows the last newline. */
  function Unfinished(s: string): string
    decreases |s|
  {
    var n := IndexOf(s, '\n');
    if n == |s| then s else Unfinished(s[n + 1..])
  }

  /** Reading a text in two pieces and keeping the unfinished line gives the same lines. */
  lemma {:induction false} LinesOfTwoPieces(a: string, b: string)
    ensures Lines(a + b) == Lines(a) + Lines(Unfinished(a) + b)
    ensures Unfinished(a + b) == Unfinished(Unfinished(a) + b)
    decreases |a|
  {
    var n := IndexOf(a, '\n');
    if n < |a| {
      assert a + b == a[..n] + ['\n'] + (a[n + 1..] + b);
      IndexAfter(a[..n], '\n', a[n + 1..] + b);
      assert (a + b)[n + 1..] == a[n + 1..] + b && (a + b)[..n] == a[..n];
      LinesOfTwoPieces(a[n + 1..], b);
    }
  }

  lemma {:induction false} UnfinishedHasNoNewline(s: string)
    ensures '\n' !in Unfinished(s)
    decreases |s|
  {
    var n := IndexOf(s, '\n');
    if n < |s| {
      UnfinishedHasNoNewline(s[n + 1..]);
    }
  }

  lemma {:induction false} UnfinishedIsShorter(s: string)
    ensures |Unfinished(s)| <= |s|
    decreases |s|
  {
    var n := IndexOf(s, '\n');
    if n < |s| {
      UnfinishedIsShorter(s[n + 1..]);
    }
  }

  lemma FirstLineOf(line: string, text: string)
    requires '\n' !in line
    ensures Lines(line + ['\n'] + text) == [line] + Lines(text)
    ensures Unfinished(line + ['\n'] + text) == Unfinished(text)
  {
    var s := line + ['\n'] + text;
    IndexAfter(line, '\n', text);
    assert s[|line| + 1..] == text && s[..|line|] == line;
  }

  lemma NoLineYet(s: string)
    requires '\n' !in s
    ensures Lines(s) == [] && Unfinished(s) == s
  {
    IndexAbsent(s, '\n');
  }

  lemma LinesOfOne(body: string)
    requires '\n' !in body
    ensures Lines(body + ['\n']) == [body] && Unfinished(body + ['\n']) == []
  {
    IndexAfter(body, '\n', []);
    var s := body + ['\n'];
    assert s + [] == s && s[|body| + 1..] == [] && s[..|body|] == body;
    assert Lines([]) == [] && Unfinished([]) == [];
  }

  /** A text made only of complete lines. */
  predicate Terminated(s: string) {
    Unfinished(s) == ""
  }

  // ---------- decimal numbers ----------

  predicate IsDigit(c: char) { '0' <= c <= '9' }

  predicate AllDigits(s: string) { forall c :: c in s ==> IsDigit(c) }

  function DigitOf(n: nat): (c: char)
    requires n < 10
    ensures IsDigit(c)
  {
    '0' + n as char
  }

  function ValueOf(c: char): nat
    requires IsDigit(c)
  {
    c as nat - '0' as nat
  }

  /** The value of a digit string, most significant digit first. */
  function Number(s: string): nat
    requires AllDigits(s)
  {
    if s == [] then 0 else 10 * Number(s[..|s| - 1]) + ValueOf(s[|s| - 1])
  }

  function Digits(n: nat): (s: string)
    ensures s != [] && AllDigits(s)
  {
    if n < 10 then [DigitOf(n)] else Digits(n / 10) + [DigitOf(n % 10)]
  }

  /** What `%ld` prints. */
  function Decimal(n: int): string {
    if n < 0 then "-" + Digits(-n) else Digits(n)
  }

  lemma {:induction false} DigitsRoundTrip(n: nat)
    ensures Number(Digits(n)) == n
  {
    if n < 10 {
      var s := [DigitOf(n)];
      assert s[..|s| - 1] == [] && Number(s[..0]) == 0;
    } else {
      DigitsRoundTrip(n / 10);
      var s := Digits(n);
      assert s[..|s| - 1] == Digits(n / 10);
    }
  }

  const LONG_MAX: int := 0x7FFF_FFFF_FFFF_FFFF
  const LONG_MIN: int := -0x8000_0000_0000_0000

  predicate IsLong(n: int) { LONG_MIN <= n <= LONG_MAX }

  predicate IsSpace(c: char) {
    c == ' ' || c == '\t' || c == '\n' || c == '\U{b}' || c == '\U{c}' || c == '\r'
  }

  function SkipSpaces(s: string): string
    decreases |s|
  {
    if s != [] && IsSpace(s[0]) then SkipSpaces(s[1..]) else s
  }

  function Clamp(n: int): int {
    if n > LONG_MAX then LONG_MAX else if n < LONG_MIN then LONG_MIN else n
  }

  /** strtol in base 10 on a whole string: None unless all of it is one number. */
  function ParseLong(s: string): Option<int> {
    var t := SkipSpaces(s);
    var signed := t != [] && (t[0] == '-' || t[0] == '+');
    var digits := if signed then t[1..] else t;
    if digits == [] || !AllDigits(digits) then None
    else Some(Clamp(if signed && t[0] == '-' then -(Number(digits) as int) else Number(digits)))
  }

  function PowerOfTen(k: nat): (p: nat)
    ensures p > 0
  {
    if k == 0 then 1 else 10 * PowerOfTen(k - 1)
  }

  lemma {:induction false} DigitsAreFew(n: nat, k: nat)
    requires k > 0 && n < PowerOfTen(k)
    ensures |Digits(n)| <= k
  {
    if n >= 10 {
      DigitsAreFew(n / 10, k - 1);
    }
  }

  /** A long prints with at most twenty characters. */
  lemma DecimalIsShort(n: int)
    requires IsLong(n)
    ensures |Decimal(n)| <= 20
  {
    hide Digits;
    assert PowerOfTen(5) == 100_000 && PowerOfTen(10) == 10_000_000_000;
    assert PowerOfTen(15) == 1_000_000_000_000_000;
    assert PowerOfTen(19) == 10_000_000_000_000_000_000;
    DigitsAreFew(if n < 0 then -n else n, 19);
  }

  predicate AllSpaces(s: string) { forall c :: c in s ==> IsSpace(c) }

  predicate IsSign(s: string) { s == "" || s == "+" || s == "-" }

  lemma {:induction false} SkipLeadingSpaces(w: string, t: string)
    requires AllSpaces(w) && (t == "" || !IsSpace(t[0]))
    ensures SkipSpaces(w + t) == t
  {
    if w == "" {
      assert w + t == t;
    } else {
      assert w[0] in w && (w + t)[1..] == w[1..] + t;
      SkipLeadingSpaces(w[1..], t);
    }
  }

  /** strtol reads white space, a sign and digits, and keeps the value inside a long. */
  lemma ParseLongReads(w: string, sign: string, digits: string)
    requires AllSpaces(w) && IsSign(sign) && digits != "" && AllDigits(digits)
    ensures var n := if sign == "-" then -(Number(digits) as int) else Number(digits);
      ParseLong(w + sign + digits) == Some(
        if n >= 0x8000_0000_0000_0000 then 0x7fff_ffff_ffff_ffff
        else if n < -0x8000_0000_0000_0000 then -0x8000_0000_0000_0000 else n)
  {
    hide Number, SkipSpaces;
    var t := sign + digits;
    assert digits[0] in digits;
    assert t[0] == if sign == "" then digits[0] else sign[0];
    SkipLeadingSpaces(w, t);
    assert w + sign + digits == w + t;
    assert sign != "" ==> t[1..] == digits;
    assert sign == "" ==> t == digits;
  }

  ghost predicate IsNumberText(s: string) {
    exists w, sign, digits ::
      s == w + sign + digits && AllSpaces(w) && IsSign(sign) && digits != "" && AllDigits(digits)
  }

  lemma {:induction false} SpacesAreSkipped(s: string) returns (w: string)
    ensures s == w + SkipSpaces(s) && AllSpaces(w)
    decreases |s|
  {
    if s != [] && IsSpace(s[0]) {
      var rest := SpacesAreSkipped(s[1..]);
      w := [s[0]] + rest;
    } else {
      w := "";
    }
  }

  /** strtol accepts a whole string if and only if it is white space, a sign and at least one digit. */
  lemma ParseLongExactly(s: string)
    ensures ParseLong(s).Some? <==> IsNumberText(s)
  {
    if IsNumberText(s) {
      var w, sign, digits :|
        s == w + sign + digits && AllSpaces(w) && IsSign(sign) && digits != "" && AllDigits(digits);
      ParseLongReads(w, sign, digits);
    }
    if ParseLong(s).Some? {
      var w := SpacesAreSkipped(s);
      var t := SkipSpaces(s);
      var signed := t[0] == '-' || t[0] == '+';
      var (sign, digits) := if signed then (t[..1], t[1..]) else ("", t);
      assert s == w + sign + digits;
      assert signed ==> sign == [t[0]];
    }
  }

  lemma DecimalSign(n: int)
    ensures Decimal(n) != [] && (Decimal(n)[0] == '-' <==> n < 0)
    ensures n >= 0 ==> IsDigit(Decimal(n)[0])
  {
    var d := Decimal(n);
    assert d[0] in d;
  }

  /** Printing with %ld and reading back with strtol is the identity on every long. */
  lemma DecimalRoundTrip(n: int)
    requires IsLong(n)
    ensures ParseLong(Decimal(n)) == Some(n)
  {
    var d := Decimal(n);
    DecimalSign(n);
    assert SkipSpaces(d) == d;
    if n < 0 {
      DigitsRoundTrip(-n);
      assert d[1..] == Digits(-n);
    } else {
      DigitsRoundTrip(n);
    }
  }

  /** No character of a printed number is a separator of any format here. */
  lemma DecimalIsPlain(n: int)
    ensures forall c :: c in Decimal(n) ==> IsDigit(c) || c == '-'
  {
  }

  lemma DecimalIsInjective(a: int, b: int)
    requires Decimal(a) == Decimal(b)
    ensures a == b
  {
    DecimalSign(a);
    DecimalSign(b);
    if a < 0 {
      assert Decimal(a)[1..] == Digits(-a) && Decimal(b)[1..] == Digits(-b);
      DigitsRoundTrip(-a);
      DigitsRoundTrip(-b);
    } else {
      DigitsRoundTrip(a);
      DigitsRoundTrip(b);
    }
  }
}
