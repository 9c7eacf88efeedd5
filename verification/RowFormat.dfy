/** The tab-separated row format of applets/clip_store/db_format.c and the way a database
    file is read back row by row. */
module RowFormat {
  import opened Machine
  import opened Text
  import opened RowLog
  import Base64

  /** The compression library: an unknown pair of functions. */
  datatype Codec = Codec(compress: string -> seq<byte>, uncompress: seq<byte> -> Option<string>)

  /** What is expected of it: every C string except the empty one survives. */
  ghost predicate Lossless(codec: Codec) {
    forall v: string :: v != "" && '\0' !in v ==>
      codec.compress(v) != [] && codec.uncompress(codec.compress(v)) == Some(v)
  }

  predicate CleanKey(key: string) {
    '\0' !in key && '\t' !in key && '\r' !in key && '\n' !in key
  }

  /** A row that the format can carry. */
  predicate Storable(r: Row) {
    CleanKey(r.key) && '\0' !in r.value && IsLong(r.expireAt)
  }

  // ---------- writing ----------

  /** The middle field: empty for a tombstone, otherwise compressed and in Base64. */
  function Field(value: string, codec: Codec): string {
    if value == "" then "" else "Z:" + Base64.Encode(codec.compress(value))
  }

  function RowBody(r: Row, codec: Codec): string {
    r.key + ['\t'] + (Field(r.value, codec) + ['\t'] + Decimal(r.expireAt))
  }

  function RowLine(r: Row, codec: Codec): string {
    RowBody(r, codec) + ['\n']
  }

  function Serialize(rows: seq<Row>, codec: Codec): string {
    if rows == [] then ""
    else Serialize(rows[..|rows| - 1], codec) + RowLine(rows[|rows| - 1], codec)
  }

  // ---------- reading ----------

  /** A value field as parse_db_row returns it: None if it cannot be decoded. */
  function FieldValue(field: string, codec: Codec): Option<string> {
    if |field| >= 2 && field[0] == 'Z' && field[1] == ':' then
      match Base64.Decode(field[2..])
      case None => None
      case Some(packed) =>
        (match codec.uncompress(packed)
         case None => None
         case Some(text) => Some(CString(text)))
    else Some(field)
  }

  /** The three fields around the first two tabs. */
  function SplitAtTabs(line: string): Option<(string, string, string)> {
    var a := IndexOf(line, '\t');
    if a == |line| then None
    else
      var rest := line[a + 1..];
      var b := IndexOf(rest, '\t');
      if b == |rest| then None else Some((line[..a], rest[..b], rest[b + 1..]))
  }

  /** parse_db_row on a C string. */
  function ParseRow(line: string, codec: Codec): Option<Row> {
    match SplitAtTabs(line)
    case None => None
    case Some((key, field, number)) =>
      match ParseLong(number)
      case None => None
      case Some(expireAt) =>
        (match FieldValue(field, codec)
         case None => None
         case Some(value) => Some(Row(key, value, expireAt)))
  }

  /** What getline delivers: the complete lines, then an unfinished last one if there is any. */
  function FileLines(file: string): seq<string> {
    Lines(file) + (if Unfinished(file) == "" then [] else [Unfinished(file)])
  }

  /** The C string left after `line[strcspn(line, "\r\n")] = '\0'`. */
  function TrimEol(line: string): string {
    CString(line[..IndexOf(line, '\r')])
  }

  /** The rows of a list of lines; unparsable ones are skipped. */
  function ParseLines(lines: seq<string>, codec: Codec): seq<Row> {
    if lines == [] then []
    else
      var n := |lines| - 1;
      match ParseRow(TrimEol(lines[n]), codec)
      case None => ParseLines(lines[..n], codec)
      case Some(r) => ParseLines(lines[..n], codec) + [r]
  }

  function LoadRows(file: string, codec: Codec): seq<Row> {
    ParseLines(FileLines(file), codec)
  }

  // ---------- one row survives ----------

  lemma PlainField(value: string, codec: Codec)
    ensures '\t' !in Field(value, codec) && '\r' !in Field(value, codec)
    ensures '\n' !in Field(value, codec) && '\0' !in Field(value, codec)
  {
    if value != "" {
      var packed := codec.compress(value);
      Base64.EncodingIsPadded(packed);
      forall c | c in Base64.Encode(packed)
        ensures c == '=' || Base64.InAlphabet(c)
      {
        var j :| 0 <= j < |Base64.Encode(packed)| && Base64.Encode(packed)[j] == c;
      }
    }
  }

  lemma FieldSurvives(value: string, codec: Codec)
    requires Lossless(codec) && '\0' !in value
    ensures FieldValue(Field(value, codec), codec) == Some(value)
  {
    if value != "" {
      var packed := codec.compress(value);
      var field := Field(value, codec);
      assert packed != [] && codec.uncompress(packed) == Some(value);
      Base64.DecodeInvertsEncode(packed);
      assert field[2..] == Base64.Encode(packed);
      CStringOfClean(value);
    }
  }

  lemma RowSurvives(r: Row, codec: Codec)
    requires Lossless(codec) && Storable(r)
    ensures ParseRow(RowBody(r, codec), codec) == Some(r)
  {
    hide Field, FieldValue, Decimal, ParseLong;
    var field, number := Field(r.value, codec), Decimal(r.expireAt);
    var rest := field + ['\t'] + number;
    var line := r.key + ['\t'] + rest;
    PlainField(r.value, codec);
    FieldSurvives(r.value, codec);
    DecimalRoundTrip(r.expireAt);
    IndexAfter(r.key, '\t', rest);
    IndexAfter(field, '\t', number);
    assert line[|r.key| + 1..] == rest && line[..|r.key|] == r.key;
    assert rest[|field| + 1..] == number && rest[..|field|] == field;
  }

  /** A field without the Z mark is read as it stands. */
  lemma PlainValueIsRead(key: string, value: string, expireAt: int, codec: Codec)
    requires CleanKey(key) && '\t' !in value && IsLong(expireAt)
    requires |value| < 2 || value[..2] != "Z:"
    ensures ParseRow(key + "\t" + value + "\t" + Decimal(expireAt), codec) == Some(Row(key, value, expireAt))
  {
    hide Decimal, ParseLong, Base64.Decode;
    var number := Decimal(expireAt);
    var rest := value + ['\t'] + number;
    var line := key + ['\t'] + rest;
    assert line == key + "\t" + value + "\t" + number;
    DecimalRoundTrip(expireAt);
    IndexAfter(key, '\t', rest);
    IndexAfter(value, '\t', number);
    assert line[|key| + 1..] == rest && line[..|key|] == key;
    assert rest[|value| + 1..] == number && rest[..|value|] == value;
    assert |value| >= 2 ==> value[..2] == [value[0], value[1]];
  }

  lemma BodyIsPlain(r: Row, codec: Codec)
    requires Storable(r)
    ensures '\r' !in RowBody(r, codec) && '\n' !in RowBody(r, codec) && '\0' !in RowBody(r, codec)
  {
    hide Field, Decimal;
    PlainField(r.value, codec);
    DecimalIsPlain(r.expireAt);
  }

  lemma BodyIsRead(r: Row, codec: Codec)
    requires Lossless(codec) && Storable(r)
    ensures ParseRow(TrimEol(RowBody(r, codec)), codec) == Some(r)
  {
    hide RowBody, ParseRow;
    BodyIsPlain(r, codec);
    var body := RowBody(r, codec);
    IndexAbsent(body, '\r');
    assert body[..|body|] == body;
    CStringOfClean(body);
    RowSurvives(r, codec);
  }

  // ---------- a whole file survives ----------

  lemma AppendTerminated(file: string, more: string)
    requires Terminated(file)
    ensures Lines(file + more) == Lines(file) + Lines(more)
    ensures Unfinished(file + more) == Unfinished(more)
  {
    LinesOfTwoPieces(file, more);
    assert "" + more == more;
  }

  lemma {:induction false} ParseLinesConcat(a: seq<string>, b: seq<string>, codec: Codec)
    ensures ParseLines(a + b, codec) == ParseLines(a, codec) + ParseLines(b, codec)
  {
    hide ParseRow, TrimEol;
    if b == [] {
      assert a + b == a;
    } else {
      var n := |b| - 1;
      assert (a + b)[..|a + b| - 1] == a + b[..n];
      ParseLinesConcat(a, b[..n], codec);
    }
  }

  /** Whatever is appended to a file of complete lines is read after what was there. */
  lemma AppendedTextIsRead(file: string, more: string, codec: Codec)
    requires Terminated(file)
    ensures LoadRows(file + more, codec) == LoadRows(file, codec) + LoadRows(more, codec)
  {
    hide Lines, Unfinished, ParseLines;
    AppendTerminated(file, more);
    ParseLinesConcat(Lines(file), FileLines(more), codec);
    assert FileLines(file) == Lines(file);
    assert FileLines(file + more) == Lines(file) + FileLines(more);
  }

  /** Appending a row to a file of complete lines appends exactly that row to what is read. */
  lemma AppendedRowIsRead(file: string, r: Row, codec: Codec)
    requires Lossless(codec) && Terminated(file) && Storable(r)
    ensures Terminated(file + RowLine(r, codec))
    ensures LoadRows(file + RowLine(r, codec), codec) == LoadRows(file, codec) + [r]
  {
    hide RowBody, ParseRow, TrimEol, Storable;
    var body := RowBody(r, codec);
    BodyIsPlain(r, codec);
    LinesOfOne(body);
    AppendTerminated(file, RowLine(r, codec));
    ParseLinesConcat(Lines(file), [body], codec);
    BodyIsRead(r, codec);
    assert [body][..0] == [] && ParseLines([body], codec) == [r];
    assert FileLines(file) == Lines(file);
    assert FileLines(file + RowLine(r, codec)) == Lines(file) + [body];
  }

  /** The complete lines of a file, as text. */
  lemma {:induction false} CompletePart(file: string) returns (head: string)
    ensures file == head + Unfinished(file) && Terminated(head) && Lines(head) == Lines(file)
    decreases |file|
  {
    hide Lines, Unfinished, IndexOf;
    var n := IndexOf(file, '\n');
    if n == |file| {
      head := "";
      NoLineYet(file);
      NoLineYet("");
    } else {
      var (line, later) := (file[..n], file[n + 1..]);
      var rest := CompletePart(later);
      head := line + ['\n'] + rest;
      assert file == line + ['\n'] + later;
      FirstLineOf(line, later);
      FirstLineOf(line, rest);
    }
  }

  lemma LineWithoutTabs(line: string, codec: Codec)
    requires CleanKey(line)
    ensures ParseLines([line], codec) == []
  {
    IndexAbsent(line, '\r');
    IndexAbsent(line, '\t');
    CStringOfClean(line);
    assert line[..|line|] == line && [line][..0] == [];
  }

  /** After a torn write the next row is read under the wrong key: the torn text becomes a part of it. */
  lemma TornLineCapturesNextRow(file: string, r: Row, codec: Codec)
    requires Lossless(codec) && CleanKey(Unfinished(file)) && Storable(r)
    ensures LoadRows(file + RowLine(r, codec), codec)
         == LoadRows(file, codec) + [r.(key := Unfinished(file) + r.key)]
  {
    hide ParseRow, TrimEol, Lines, Unfinished, Field, Decimal, ParseLines;
    var torn := Unfinished(file);
    var r' := r.(key := torn + r.key);
    var head := CompletePart(file);
    assert file + RowLine(r, codec) == head + RowLine(r', codec);
    AppendedRowIsRead(head, r', codec);
    ParseLinesConcat(Lines(head), [torn], codec);
    LineWithoutTabs(torn, codec);
    assert Lines(head) + [] == Lines(head);
  }

  // ---------- after a torn write ----------

  /** A torn text in which trimming stops before anything that is appended to it. */
  predicate EndsEarly(torn: string) {
    '\r' in torn || '\0' in torn
  }

  lemma EndsEarlyAlways(torn: string, more: string)
    requires EndsEarly(torn)
    ensures TrimEol(torn + more) == TrimEol(torn)
  {
    var (line, r) := (torn + more, IndexOf(torn, '\r'));
    forall i | 0 <= i < |torn|
      ensures line[i] == torn[i]
    {
    }
    if r < |torn| {
      IndexIsUnique(line, '\r', r);
      assert line[..r] == torn[..r];
    } else {
      var (n, cut) := (IndexOf(torn, '\0'), line[..IndexOf(line, '\r')]);
      assert torn[..r] == torn;
      IndexIsUnique(cut, '\0', n);
      assert cut[..n] == torn[..n];
    }
  }

  lemma {:induction false} SpacesKeep(s: string, c: char)
    requires c in s && !IsSpace(c)
    ensures c in SkipSpaces(s)
    decreases |s|
  {
    if IsSpace(s[0]) {
      assert c in s[1..];
      SpacesKeep(s[1..], c);
    }
  }

  lemma NoNumberHasZ(s: string)
    requires 'Z' in s
    ensures ParseLong(s) == None
  {
    hide SkipSpaces;
    SpacesKeep(s, 'Z');
    var t := SkipSpaces(s);
    assert t[0] != 'Z' ==> 'Z' in t[1..];
  }

  /** A line with a tab, and later a tab in front of a Z, has the Z in its number field. */
  lemma ZInNumber(line: string, i: nat, z: nat)
    requires i + 1 < z < |line| && line[i] == '\t' && line[z - 1] == '\t' && line[z] == 'Z'
    ensures SplitAtTabs(line).Some? && 'Z' in SplitAtTabs(line).value.2
  {
    hide IndexOf;
    var a := IndexOf(line, '\t');
    var rest := line[a + 1..];
    var b := IndexOf(rest, '\t');
    assert rest[z - 1 - a - 1] == '\t';
    assert rest[b + 1..][z - a - 1 - b - 1] == 'Z';
  }

  /** With a tab in the torn text the value of the next row ends up in the number field. */
  lemma TornTabHidesRow(torn: string, r: Row, codec: Codec)
    requires '\t' in torn && r.value != ""
    ensures ParseRow(torn + RowBody(r, codec), codec) == None
  {
    hide SplitAtTabs, ParseLong, FieldValue, Decimal, Base64.Encode;
    var line := torn + RowBody(r, codec);
    var z := |torn| + |r.key| + 1;
    assert line[z - 1] == '\t' && line[z] == 'Z';
    var i :| 0 <= i < |torn| && torn[i] == '\t';
    assert line[i] == '\t';
    ZInNumber(line, i, z);
    NoNumberHasZ(SplitAtTabs(line).value.2);
  }

  /** What is read from a file after a row is appended to it, whatever it ends with. */
  function RowsAfterAppend(file: string, r: Row, codec: Codec): seq<Row> {
    var torn := Unfinished(file);
    if EndsEarly(torn) then LoadRows(file, codec)
    else if '\t' in torn then ParseLines(Lines(file), codec)
    else LoadRows(file, codec) + [r.(key := torn + r.key)]
  }

  lemma LastLine(file: string, r: Row, codec: Codec)
    requires Storable(r)
    ensures LoadRows(file + RowLine(r, codec), codec)
         == ParseLines(Lines(file), codec) + ParseLines([Unfinished(file) + RowBody(r, codec)], codec)
    ensures LoadRows(file, codec) == ParseLines(Lines(file), codec)
         + (if Terminated(file) then [] else ParseLines([Unfinished(file)], codec))
  {
    hide ParseRow, TrimEol, Lines, Unfinished, RowBody, ParseLines, Storable;
    var (torn, body) := (Unfinished(file), RowBody(r, codec));
    var head := CompletePart(file);
    UnfinishedHasNoNewline(file);
    BodyIsPlain(r, codec);
    LinesOfOne(torn + body);
    assert file + RowLine(r, codec) == head + ((torn + body) + ['\n']);
    AppendTerminated(head, (torn + body) + ['\n']);
    ParseLinesConcat(Lines(head), [torn + body], codec);
    ParseLinesConcat(Lines(head), [torn], codec);
    assert Lines(head) + [] == Lines(head);
    assert ParseLines(Lines(head), codec) + [] == ParseLines(Lines(head), codec);
    assert FileLines(file + RowLine(r, codec)) == Lines(head) + [torn + body];
  }

  lemma ParseOneLine(line: string, codec: Codec)
    ensures ParseLines([line], codec)
      == match ParseRow(TrimEol(line), codec) case None => [] case Some(r) => [r]
  {
    hide ParseRow, TrimEol;
    assert [line][..0] == [];
  }

  lemma TrimClean(line: string)
    requires !EndsEarly(line)
    ensures TrimEol(line) == line
  {
    IndexAbsent(line, '\r');
    assert line[..|line|] == line;
    CStringOfClean(line);
  }

  /** A torn line swallows the next row, renames it, or keeps it from being parsed; only a file of
      complete lines gets exactly that row. */
  lemma AppendedRowIsSwallowed(file: string, r: Row, codec: Codec)
    requires Lossless(codec) && Storable(r) && (r.value != "" || '\t' !in Unfinished(file))
    ensures LoadRows(file + RowLine(r, codec), codec) == RowsAfterAppend(file, r, codec)
  {
    hide ParseRow, TrimEol, Lines, Unfinished, RowBody, ParseLines, Storable, EndsEarly;
    var (torn, body) := (Unfinished(file), RowBody(r, codec));
    if EndsEarly(torn) {
      LastLine(file, r, codec);
      EndsEarlyAlways(torn, body);
      ParseOneLine(torn, codec);
      ParseOneLine(torn + body, codec);
      EmptyDoesNotEndEarly(torn);
    } else if '\t' in torn {
      LastLine(file, r, codec);
      BodyIsPlain(r, codec);
      PlainTogether(torn, body);
      TrimClean(torn + body);
      TornTabHidesRow(torn, r, codec);
      ParseOneLine(torn + body, codec);
      assert ParseLines(Lines(file), codec) + [] == ParseLines(Lines(file), codec);
    } else {
      UnfinishedHasNoNewline(file);
      CleanIfNotEarly(torn);
      TornLineCapturesNextRow(file, r, codec);
    }
  }

  lemma EmptyDoesNotEndEarly(torn: string)
    requires EndsEarly(torn)
    ensures torn != ""
  {
  }

  lemma PlainTogether(torn: string, body: string)
    requires !EndsEarly(torn) && '\r' !in body && '\0' !in body
    ensures !EndsEarly(torn + body)
  {
  }

  lemma CleanIfNotEarly(torn: string)
    requires !EndsEarly(torn) && '\t' !in torn && '\n' !in torn
    ensures CleanKey(torn)
  {
  }

  /** A row with a value is read back as itself if and only if the file ended with a newline,
      whatever is in the file and wherever its last line was torn; a tombstone too, if the torn
      line has no tab. */
  lemma AppendedRowIsReadExactly(file: string, r: Row, codec: Codec)
    requires Lossless(codec) && Storable(r) && (r.value != "" || '\t' !in Unfinished(file))
    ensures LoadRows(file + RowLine(r, codec), codec) == LoadRows(file, codec) + [r] <==> Terminated(file)
  {
    hide LoadRows, RowLine, RowBody, Unfinished, Storable, ParseLines, Lines;
    AppendedRowIsSwallowed(file, r, codec);
    LastLine(file, r, codec);
    var (rows, torn) := (LoadRows(file, codec), Unfinished(file));
    assert |rows + [r]| == |rows| + 1;
    if !EndsEarly(torn) && '\t' !in torn {
      assert (rows + [r.(key := torn + r.key)])[|rows|].key == torn + r.key;
      assert (rows + [r])[|rows|].key == r.key;
      assert |torn + r.key| == |torn| + |r.key|;
      assert torn == "" ==> torn + r.key == r.key;
    }
  }

  lemma OnlyTabs(codec: Codec)
    ensures ParseRow("\t\t\t0", codec) == Some(Row("", "", 0)) && ParseRow("\t", codec) == None
  {
    hide IndexOf, Number, SkipSpaces;
    var (line, rest) := ("\t\t\t0", "\t\t0");
    assert line[0] == '\t' && line[1..] == rest && rest[0] == '\t' && rest[1..] == "\t0";
    IndexIsUnique(line, '\t', 0);
    IndexIsUnique(rest, '\t', 0);
    IndexIsUnique("\t", '\t', 0);
    IndexIsUnique("", '\t', 0);
    TabThenZero();
    assert "\t"[1..] == "" && line[..0] == "" && rest[..0] == "";
  }

  lemma TabThenZero()
    ensures ParseLong("\t0") == Some(0)
  {
    assert "\t0"[1..] == "0" && SkipSpaces("0") == "0" && SkipSpaces("\t0") == "0";
    assert "0"[..0] == "" && Number("0") == 10 * Number("") + 0;
  }

  /** For tombstones after a torn tab it can fail: here one is read back although the line was torn. */
  lemma TornTombstoneCanSurvive(codec: Codec)
    ensures var r := Row("", "", 0);
      !Terminated("\t") && LoadRows("\t" + RowLine(r, codec), codec) == LoadRows("\t", codec) + [r]
  {
    hide ParseRow, TrimEol, LoadRows, RowLine, Lines, ParseLines, EndsEarly;
    var (r, torn) := (Row("", "", 0), "\t");
    NoLineYet(torn);
    LastLine(torn, r, codec);
    assert Decimal(0) == "0";
    assert torn + RowBody(r, codec) == "\t\t\t0";
    NotEarly();
    TrimClean("\t\t\t0");
    TrimClean(torn);
    ParseOneLine("\t\t\t0", codec);
    ParseOneLine(torn, codec);
    OnlyTabs(codec);
    NothingParsed(codec);
  }

  lemma NothingParsed(codec: Codec)
    ensures ParseLines([], codec) == []
  {
  }

  lemma NotEarly()
    ensures !EndsEarly("\t") && !EndsEarly("\t\t\t0")
  {
  }

  /** Appending rows to a file of complete lines appends exactly those rows to what is read. */
  lemma {:induction false} AppendedRowsAreRead(file: string, rows: seq<Row>, codec: Codec)
    requires Lossless(codec) && Terminated(file)
    requires forall i :: 0 <= i < |rows| ==> Storable(rows[i])
    ensures Terminated(file + Serialize(rows, codec))
    ensures LoadRows(file + Serialize(rows, codec), codec) == LoadRows(file, codec) + rows
  {
    hide RowLine, LoadRows, Terminated, Storable;
    if rows == [] {
      assert file + "" == file;
      assert LoadRows(file, codec) + [] == LoadRows(file, codec);
    } else {
      var n := |rows| - 1;
      var (front, last) := (rows[..n], rows[n]);
      AppendedRowsAreRead(file, front, codec);
      AppendedRowIsRead(file + Serialize(front, codec), last, codec);
      assert file + (Serialize(front, codec) + RowLine(last, codec))
          == (file + Serialize(front, codec)) + RowLine(last, codec);
      assert LoadRows(file, codec) + rows == (LoadRows(file, codec) + front) + [last];
    }
  }

  lemma EmptyFile(codec: Codec)
    ensures Terminated("") && LoadRows("", codec) == []
  {
    assert Lines("") == [] && Unfinished("") == "";
  }

  /** A file made by appending rows is read back as exactly those rows, tombstones included. */
  lemma LogRoundTrip(rows: seq<Row>, codec: Codec)
    requires Lossless(codec)
    requires forall i :: 0 <= i < |rows| ==> Storable(rows[i])
    ensures LoadRows(Serialize(rows, codec), codec) == rows
  {
    hide LoadRows, Serialize, Terminated, Storable;
    EmptyFile(codec);
    assert "" + Serialize(rows, codec) == Serialize(rows, codec);
    AppendedRowsAreRead("", rows, codec);
  }

  // ---------- what can be read at all ----------

  lemma TrimmedIsClean(line: string)
    requires '\n' !in line
    ensures '\0' !in TrimEol(line) && '\r' !in TrimEol(line) && '\n' !in TrimEol(line)
  {
  }

  lemma ParsedRowIsStorable(line: string, codec: Codec)
    requires '\0' !in line && '\r' !in line && '\n' !in line
    requires ParseRow(line, codec).Some?
    ensures Storable(ParseRow(line, codec).value)
  {
  }

  lemma {:induction false} LinesHaveNoNewline(s: string)
    ensures forall i :: 0 <= i < |Lines(s)| ==> '\n' !in Lines(s)[i]
    decreases |s|
  {
    var n := IndexOf(s, '\n');
    if n < |s| {
      LinesHaveNoNewline(s[n + 1..]);
    }
  }

  lemma {:induction false} ParsedLinesAreStorable(lines: seq<string>, codec: Codec)
    requires forall i :: 0 <= i < |lines| ==> '\n' !in lines[i]
    ensures forall i :: 0 <= i < |ParseLines(lines, codec)| ==> Storable(ParseLines(lines, codec)[i])
  {
    hide ParseRow, TrimEol, Storable;
    if lines != [] {
      var n := |lines| - 1;
      ParsedLinesAreStorable(lines[..n], codec);
      TrimmedIsClean(lines[n]);
      if ParseRow(TrimEol(lines[n]), codec).Some? {
        ParsedRowIsStorable(TrimEol(lines[n]), codec);
      }
    }
  }

  /** Whatever bytes a file holds, every row read from it can be written back. */
  lemma LoadedRowsAreStorable(file: string, codec: Codec)
    ensures forall i :: 0 <= i < |LoadRows(file, codec)| ==> Storable(LoadRows(file, codec)[i])
  {
    LinesHaveNoNewline(file);
    UnfinishedHasNoNewline(file);
    ParsedLinesAreStorable(FileLines(file), codec);
  }
}
