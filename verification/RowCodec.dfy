/** The in-place parser and the appender of applets/clip_store/db_format.c. */
module RowCodec {
  import opened Machine
  import opened Text
  import opened RowLog
  import opened RowFormat
  import Base64

  /** An open file: the text it holds. */
  class File {
    var text: string

    constructor (text: string)
      ensures this.text == text
    {
      this.text := text;
    }

    /** fprintf at the end of the file. On a failure some prefix may have been written. */
    method Print(s: string, diskOk: bool) returns (ok: bool)
      modifies this
      ensures ok == diskOk
      ensures ok ==> text == old(text) + s
      ensures !ok ==> PartlyWritten(old(text), s, text)
    {
      if diskOk {
        text := text + s;
        return true;
      }
      var n: nat :| n <= |s|;
      text := text + s[..n];
      assert text == old(text) + s[..n];
      return false;
    }
  }

  ghost predicate PartlyWritten(before: string, s: string, after: string) {
    exists n: nat :: n <= |s| && after == before + s[..n]
  }

  lemma NothingOfIt(text: string, s: string)
    ensures PartlyWritten(text, s, text)
  {
    assert text == text + s[..0];
  }

  // ---------- parsing in place ----------

  /** The buffer holds a C string. */
  predicate HoldsCString(line: seq<char>) {
    '\0' in line
  }

  /** strchr from a position: the first c, or the terminator. */
  method StrChr(line: array<char>, from: nat, c: char) returns (i: nat)
    requires HoldsCString(line[..]) && from <= IndexOf(line[..], '\0') && c != '\0'
    ensures i == from + IndexOf(CString(line[..])[from..], c)
    ensures i <= IndexOf(line[..], '\0') < line.Length
  {
    ghost var text := line[..];
    ghost var n := IndexOf(text, '\0');
    TerminatorIsInside(text);
    i := from;
    while line[i] != '\0' && line[i] != c
      invariant from <= i <= n
      invariant forall k :: from <= k < i ==> text[k] != c
      decreases n - i
    {
      assert text[i] == line[i];
      i := i + 1;
    }
    assert text[i] == line[i];
    var rest := CString(text)[from..];
    IndexIsUnique(rest, c, i - from);
  }

  lemma TerminatorIsInside(text: seq<char>)
    requires HoldsCString(text)
    ensures IndexOf(text, '\0') < |text|
  {
  }

  /** base64_decode of a text into a fresh buffer one byte longer than the text. */
  method DecodeText(s: string) returns (packed: Option<seq<byte>>)
    ensures packed == Base64.Decode(s)
  {
    if |s| == 0 {
      // The length-0 call reads the ':' before the text, finds no padding and yields nothing.
      return Some([]);
    }
    var src := new char[|s|](i requires 0 <= i < |s| => s[i]);
    var out := new byte[|s| + 1](_ => 0);
    assert src[..] == s;
    var ok, n := Base64.DecodeInto(src, out);
    if !ok {
      return None;
    }
    return Some(out[..n]);
  }

  lemma SlicesAgree<T>(buffer: seq<T>, n: nat, a: nat, b: nat)
    requires a < b < n <= |buffer|
    ensures var (s, m) := (buffer[..n], b - a - 1);
      && buffer[..a] == s[..a]
      && buffer[a + 1..b] == s[a + 1..][..m]
      && s[b + 1..] == s[a + 1..][m + 1..]
  {
  }

  /** The in-place cut: both tabs become terminators, if there are two. */
  method CutAtTabs(line: array<char>) returns (fields: Option<(string, string, string)>)
    requires HoldsCString(line[..])
    modifies line
    ensures fields == SplitAtTabs(CString(old(line[..])))
    ensures forall k :: 0 <= k < line.Length ==>
      line[k] == old(line[k]) || (old(line[k]) == '\t' && line[k] == '\0')
  {
    hide IndexOf;
    ghost var s := CString(line[..]);
    var a := StrChr(line, 0, '\t');
    assert s[0..] == s;
    if line[a] == '\0' {
      return None;
    }
    assert a < |s|;
    ghost var rest := s[a + 1..];
    var b := StrChr(line, a + 1, '\t');
    ghost var m := IndexOf(rest, '\t');
    assert b == a + 1 + m;
    if line[b] == '\0' {
      return None;
    }
    assert b < |s|;
    var key, field, tail := line[..a], line[a + 1..b], StringAt(line, b + 1);
    SlicesAgree(line[..], |s|, a, b);
    line[a] := '\0';
    line[b] := '\0';
    return Some((key, field, tail));
  }

  /** The C string that starts at a position of the buffer. */
  function StringAt(line: array<char>, from: nat): (s: string)
    requires HoldsCString(line[..]) && from <= IndexOf(line[..], '\0')
    reads line
    ensures s == CString(line[..])[from..]
  {
    line[from..IndexOf(line[..], '\0')]
  }

  /** parse_db_row: cuts the line at its first two tabs and reads the three fields. */
  method ParseDbRow(line: array<char>, codec: Codec) returns (row: Option<Row>)
    requires HoldsCString(line[..])
    modifies line
    ensures row == ParseRow(CString(old(line[..])), codec)
    ensures forall k :: 0 <= k < line.Length ==>
      line[k] == old(line[k]) || (old(line[k]) == '\t' && line[k] == '\0')
  {
    var fields := CutAtTabs(line);
    if fields.None? {
      return None;
    }
    var (key, field, tail) := fields.value;
    var number := ParseLong(tail);
    if number.None? {
      return None;
    }
    var value := DecodeField(field, codec);
    if value.None? {
      return None;
    }
    return Some(Row(key, value.value, number.value));
  }

  method DecodeField(field: string, codec: Codec) returns (value: Option<string>)
    ensures value == FieldValue(field, codec)
  {
    if |field| >= 2 && field[0] == 'Z' && field[1] == ':' {
      var packed := DecodeText(field[2..]);
      if packed.None? {
        return None;
      }
      var text := codec.uncompress(packed.value);
      return if text.None? then None else Some(CString(text.value));
    }
    return Some(field);
  }

  // ---------- appending ----------

  /** base64_encode of the compressed value behind "Z:". */
  method EncodeField(packed: seq<byte>) returns (field: string)
    ensures field == "Z:" + Base64.Encode(packed)
  {
    var comp := new byte[|packed|](i requires 0 <= i < |packed| => packed[i]);
    assert comp[..] == packed;
    var b64 := new char[Base64.EncodedLength(|packed|) + 1](_ => '\0');
    var ok := Base64.EncodeInto(comp, b64);
    assert ok;
    field := "Z:" + b64[..Base64.EncodedLength(|packed|)];
  }

  /** append_db_row. `memOk` covers the allocations and the compressor, `diskOk` the write. */
  method AppendDbRow(fp: File, r: Row, codec: Codec, memOk: bool, diskOk: bool) returns (ok: bool)
    modifies fp
    ensures ok ==> fp.text == old(fp.text) + RowLine(r, codec)
    ensures ok && r.value == "" ==> fp.text == old(fp.text) + (r.key + "\t\t" + Decimal(r.expireAt) + "\n")
    ensures ok && r.value != "" ==>
      fp.text == old(fp.text)
        + (r.key + "\tZ:" + Base64.Encode(codec.compress(r.value)) + "\t" + Decimal(r.expireAt) + "\n")
    ensures !ok ==> PartlyWritten(old(fp.text), RowLine(r, codec), fp.text)
    ensures memOk && diskOk ==> ok
  {
    var field := "";
    if r.value != "" {
      if !memOk {
        NothingOfIt(fp.text, RowLine(r, codec));
        return false;
      }
      field := EncodeField(codec.compress(r.value));
    }
    var line := r.key + "\t" + field + "\t" + Decimal(r.expireAt) + "\n";
    assert line == RowLine(r, codec);
    assert r.value == "" ==> line == r.key + "\t\t" + Decimal(r.expireAt) + "\n";
    assert r.value != "" ==>
      line == r.key + "\tZ:" + Base64.Encode(codec.compress(r.value)) + "\t" + Decimal(r.expireAt) + "\n";
    ok := fp.Print(line, diskOk);
  }
}
