/** The CSV rows of applets/log_parse/log_output_format.c and a reader for them. */
module CsvOutput {
  import opened Machine
  import opened Text
  import DynamicBuffer

  predicate NeedsQuotes(s: string) {
    ',' in s || '"' in s || '\n' in s || '\r' in s
  }

  function Escaped(c: char): string {
    if c == '"' then ['"', '"'] else [c]
  }

  /** Every double quote doubled. */
  function Doubled(s: string): string {
    if s == "" then "" else Doubled(s[..|s| - 1]) + Escaped(s[|s| - 1])
  }

  function CsvField(s: string): string {
    if NeedsQuotes(s) then ['"'] + Doubled(s) + ['"'] else s
  }

  function Joined(fields: seq<string>): string {
    if fields == [] then ""
    else if |fields| == 1 then CsvField(fields[0])
    else Joined(fields[..|fields| - 1]) + [','] + CsvField(fields[|fields| - 1])
  }

  function CsvRow(fields: seq<string>): string {
    Joined(fields) + ['\n']
  }

  function CsvText(rows: seq<seq<string>>): string {
    if rows == [] then "" else CsvRow(rows[0]) + CsvText(rows[1..])
  }

  /** A field is emitted as it is if and only if it has no comma, quote, CR or LF. */
  lemma VerbatimExactly(s: string)
    ensures CsvField(s) == s <==> forall c :: c in s ==> c != ',' && c != '"' && c != '\r' && c != '\n'
  {
    DoubledIsLonger(s);
    assert NeedsQuotes(s) ==> |CsvField(s)| > |s|;
  }

  lemma {:induction false} DoubledIsLonger(s: string)
    ensures |Doubled(s)| >= |s|
  {
    if s != "" {
      DoubledIsLonger(s[..|s| - 1]);
    }
  }

  // ---------- the emitter ----------

  /** append_csv_field. */
  method AppendCsvField(buf: DynamicBuffer.Buffer, s: string, grants: nat -> bool) returns (ok: bool)
    requires buf.Valid() && |s| <= SIZE_MAX
    modifies buf, buf.data
    ensures buf.Valid() && (buf.data == old(buf.data) || fresh(buf.data))
    ensures ok ==> buf.Contents() == old(buf.Contents()) + CsvField(s)
    ensures buf.failed == !ok && (old(buf.failed) ==> !ok)
    ensures (forall n :: grants(n)) && old(buf.CanTake(|CsvField(s)|)) ==> ok
  {
    hide Flatten, Doubled, NeedsQuotes;
    ghost var before := buf.Contents();
    assert before + (['"'] + Doubled(s) + ['"']) == before + ['"'] + Doubled(s) + ['"'];
    if !NeedsQuotes(s) {
      ok := buf.AppendStr(Some(s), grants(0));
      return;
    }
    ok := buf.AppendChar('"', grants(0));
    if !ok {
      return;
    }
    ok := AppendDoubled(buf, s, grants);
    if !ok {
      return;
    }
    ok := buf.AppendChar('"', grants(2 * |s| + 1));
  }

  /** The character loop of append_csv_field. */
  method AppendDoubled(buf: DynamicBuffer.Buffer, s: string, grants: nat -> bool) returns (ok: bool)
    requires buf.Valid()
    modifies buf, buf.data
    ensures buf.Valid() && (buf.data == old(buf.data) || fresh(buf.data))
    ensures ok ==> buf.Contents() == old(buf.Contents()) + Doubled(s)
    ensures buf.failed == (!ok || old(buf.failed))
    ensures (forall n :: grants(n)) && old(buf.CanTake(|Doubled(s)|)) ==> ok
  {
    hide Flatten, Doubled, Escaped;
    DoubledNothing();
    ghost var before := buf.Contents();
    assert before + Doubled(s[..0]) == before;
    for i := 0 to |s|
      invariant buf.Valid() && (buf.data == old(buf.data) || fresh(buf.data))
      invariant buf.Contents() == before + Doubled(s[..i])
      invariant buf.failed == old(buf.failed)
    {
      DoubledAfter(before, s, i);
      ok := AppendEscaped(buf, s[i], grants(2 * i + 1), grants(2 * i + 2));
      if !ok {
        return;
      }
    }
    assert s[..|s|] == s;
    return true;
  }

  /** The loop body: a quote in front of a quote, then the character. */
  method AppendEscaped(buf: DynamicBuffer.Buffer, c: char, granted1: bool, granted2: bool) returns (ok: bool)
    requires buf.Valid()
    modifies buf, buf.data
    ensures buf.Valid() && (buf.data == old(buf.data) || fresh(buf.data))
    ensures ok ==> buf.Contents() == old(buf.Contents()) + Escaped(c)
    ensures buf.failed == !ok && (old(buf.failed) ==> !ok)
    ensures granted1 && granted2 && old(buf.CanTake(|Escaped(c)|)) ==> ok
  {
    hide Flatten;
    ghost var before := buf.Contents();
    if c == '"' {
      ok := buf.AppendChar('"', granted1);
      if !ok {
        return;
      }
      assert (before + ['"']) + ['"'] == before + ['"', '"'];
    }
    ok := buf.AppendChar(c, granted2);
  }

  lemma DoubledNothing()
    ensures Doubled("") == ""
  {
  }

  lemma DoubledAfter(before: string, s: string, i: nat)
    requires i < |s|
    ensures before + Doubled(s[..i + 1]) == (before + Doubled(s[..i])) + Escaped(s[i])
    ensures |Doubled(s[..i])| + |Escaped(s[i])| == |Doubled(s[..i + 1])| <= |Doubled(s)|
  {
    hide Doubled, Escaped;
    DoubledStep(s, i);
    DoubledGrows(s, i + 1);
  }

  lemma DoubledStep(s: string, i: nat)
    requires i < |s|
    ensures Doubled(s[..i + 1]) == Doubled(s[..i]) + Escaped(s[i])
  {
    assert s[..i + 1][..i] == s[..i];
  }

  lemma {:induction false} DoubledGrows(s: string, i: nat)
    requires i <= |s|
    ensures |Doubled(s[..i])| <= |Doubled(s)|
  {
    hide Escaped;
    if i == |s| {
      assert s[..i] == s;
    } else {
      var n := |s| - 1;
      DoubledGrows(s[..n], i);
      assert s[..n][..i] == s[..i];
    }
  }

  /** log_output_emit_csv: the text handed to fputs. */
  method EmitCsv(fields: seq<string>, grants: (nat, nat) -> bool) returns (ok: bool, text: string)
    requires forall i :: 0 <= i < |fields| ==> |fields[i]| <= SIZE_MAX && '\0' !in fields[i]
    ensures ok ==> text == CsvRow(fields)
    ensures (forall i, n :: grants(i, n)) && |CsvRow(fields)| < SIZE_MAX ==> ok
  {
    hide CsvField, Joined, Flatten;
    text := "";
    var buf := new DynamicBuffer.Buffer();
    NothingJoined(fields);
    for i := 0 to |fields|
      invariant buf.Valid() && (buf.data == null || fresh(buf.data))
      invariant buf.Contents() == Joined(fields[..i]) && !buf.failed
    {
      JoinedStep(fields, i);
      JoinedGrows(fields, i + 1);
      if i > 0 {
        ok := buf.AppendChar(',', grants(i, 0));
        if !ok {
          return;
        }
      }
      ok := AppendCsvField(buf, fields[i], (n: nat) => grants(i, n + 1));
      if !ok {
        return;
      }
    }
    assert fields[..|fields|] == fields;
    ok := buf.AppendChar('\n', grants(|fields|, 0));
    if !ok {
      return;
    }
    RowHasNoTerminator(fields);
    CStringOfClean(CsvRow(fields));
    assert buf.data[..buf.len] == CsvRow(fields);
    text := CString(buf.data[..buf.len]);
  }

  lemma NothingJoined(fields: seq<string>)
    ensures Joined(fields[..0]) == ""
  {
    assert fields[..0] == [];
  }

  lemma JoinedStep(fields: seq<string>, i: nat)
    requires i < |fields|
    ensures Joined(fields[..i + 1]) == Joined(fields[..i]) + (if i > 0 then [','] else []) + CsvField(fields[i])
  {
    hide CsvField;
    assert fields[..i + 1][..i] == fields[..i];
    if i == 0 {
      assert Joined(fields[..0]) + [] + CsvField(fields[0]) == CsvField(fields[0]);
    }
  }

  lemma {:induction false} JoinedGrows(fields: seq<string>, i: nat)
    requires i <= |fields|
    ensures |Joined(fields[..i])| <= |Joined(fields)|
  {
    hide CsvField;
    if i == |fields| {
      assert fields[..i] == fields;
    } else {
      var n := |fields| - 1;
      JoinedGrows(fields[..n], i);
      assert fields[..n][..i] == fields[..i];
    }
  }

  lemma {:induction false} DoubledHasNoTerminator(s: string)
    requires '\0' !in s
    ensures '\0' !in Doubled(s)
  {
    if s != "" {
      assert s[|s| - 1] in s;
      DoubledHasNoTerminator(s[..|s| - 1]);
    }
  }

  lemma FieldHasNoTerminator(s: string)
    requires '\0' !in s
    ensures '\0' !in CsvField(s)
  {
    hide Doubled;
    DoubledHasNoTerminator(s);
  }

  lemma {:induction false} JoinedHasNoTerminator(fields: seq<string>)
    requires forall i :: 0 <= i < |fields| ==> '\0' !in fields[i]
    ensures '\0' !in Joined(fields)
  {
    hide CsvField;
    if fields != [] {
      var n := |fields| - 1;
      FieldHasNoTerminator(fields[n]);
      JoinedHasNoTerminator(fields[..n]);
    }
  }

  lemma RowHasNoTerminator(fields: seq<string>)
    requires forall i :: 0 <= i < |fields| ==> '\0' !in fields[i]
    ensures '\0' !in CsvRow(fields)
  {
    hide Joined;
    JoinedHasNoTerminator(fields);
  }

  // ---------- a reader of quoted fields: section 2 of RFC 4180, with LF line ends ----------

  /** The rest of a quoted field, after its opening quote. */
  function ReadQuoted(t: string): (r: Option<(string, string)>)
    ensures r.Some? ==> |r.value.1| < |t|
    decreases |t|
  {
    if t == "" then None
    else if t[0] == '"' then
      if |t| > 1 && t[1] == '"' then
        match ReadQuoted(t[2..])
        case None => None
        case Some((s, rest)) => Some((['"'] + s, rest))
      else Some(("", t[1..]))
    else
      match ReadQuoted(t[1..])
      case None => None
      case Some((s, rest)) => Some(([t[0]] + s, rest))
  }

  /** An unquoted field: everything up to a comma or the end of the line. */
  function ReadPlain(t: string): (r: (string, string))
    ensures |r.1| <= |t|
    decreases |t|
  {
    if t == "" || t[0] == ',' || t[0] == '\n' then ("", t)
    else
      var (s, rest) := ReadPlain(t[1..]);
      ([t[0]] + s, rest)
  }

  function ReadField(t: string): (r: Option<(string, string)>)
    ensures r.Some? ==> |r.value.1| <= |t|
  {
    if t != "" && t[0] == '"' then ReadQuoted(t[1..]) else Some(ReadPlain(t))
  }

  function ReadRow(t: string): (r: Option<(seq<string>, string)>)
    ensures r.Some? ==> |r.value.1| < |t|
    decreases |t|
  {
    match ReadField(t)
    case None => None
    case Some((field, rest)) =>
      if rest == "" then None
      else if rest[0] == '\n' then Some(([field], rest[1..]))
      else if rest[0] == ',' then
        (match ReadRow(rest[1..])
         case None => None
         case Some((fields, after)) => Some(([field] + fields, after)))
      else None
  }

  function ReadRows(t: string): Option<seq<seq<string>>>
    decreases |t|
  {
    if t == "" then Some([])
    else
      match ReadRow(t)
      case None => None
      case Some((row, rest)) =>
        (match ReadRows(rest)
         case None => None
         case Some(rows) => Some([row] + rows))
  }

  // ---------- round trip ----------

  /** A field is followed by a separator. */
  predicate AtSeparator(t: string) {
    t != "" && (t[0] == ',' || t[0] == '\n')
  }

  lemma {:induction false} DoubledFromFront(s: string)
    requires s != ""
    ensures Doubled(s) == Escaped(s[0]) + Doubled(s[1..])
    decreases |s|
  {
    hide Escaped;
    var n := |s| - 1;
    if n == 0 {
      assert s[..0] == "" && s[1..] == "";
      assert Doubled(s) == "" + Escaped(s[0]) == Escaped(s[0]) + "";
    } else {
      DoubledFromFront(s[..n]);
      var front := s[..n][1..];
      assert front == s[1..][..n - 1] && s[1..][n - 1] == s[n];
      assert (Escaped(s[0]) + Doubled(front)) + Escaped(s[n]) == Escaped(s[0]) + (Doubled(front) + Escaped(s[n]));
    }
  }

  lemma {:induction false} QuotedIsRead(s: string, t: string)
    requires t == "" || t[0] != '"'
    ensures ReadQuoted(Doubled(s) + ['"'] + t) == Some((s, t))
    decreases |s|
  {
    hide Doubled;
    if s == "" {
      DoubledNothing();
      assert "" + ['"'] + t == ['"'] + t;
      assert (['"'] + t)[1..] == t;
    } else {
      var head := Escaped(s[0]);
      var rest := Doubled(s[1..]) + ['"'] + t;
      DoubledFromFront(s);
      QuotedIsRead(s[1..], t);
      assert Doubled(s) + ['"'] + t == head + rest;
      assert (head + rest)[|head|..] == rest;
      assert [s[0]] + s[1..] == s;
    }
  }

  lemma {:induction false} PlainIsRead(s: string, t: string)
    requires !NeedsQuotes(s) && AtSeparator(t)
    ensures ReadPlain(s + t) == (s, t)
    decreases |s|
  {
    if s == "" {
      assert s + t == t;
    } else {
      assert s[0] in s;
      PlainIsRead(s[1..], t);
      assert (s + t)[1..] == s[1..] + t;
      assert [s[0]] + s[1..] == s;
    }
  }

  lemma FieldIsRead(s: string, t: string)
    requires AtSeparator(t)
    ensures ReadField(CsvField(s) + t) == Some((s, t))
  {
    hide Doubled, ReadQuoted, ReadPlain;
    if NeedsQuotes(s) {
      QuotedIsRead(s, t);
      assert (CsvField(s) + t)[1..] == Doubled(s) + ['"'] + t;
    } else {
      PlainIsRead(s, t);
      assert s != "" ==> s[0] in s;
    }
  }

  lemma {:induction false} JoinedFromFront(fields: seq<string>)
    requires |fields| >= 2
    ensures Joined(fields) == CsvField(fields[0]) + [','] + Joined(fields[1..])
    decreases |fields|
  {
    hide CsvField;
    var n := |fields| - 1;
    if n == 1 {
      assert fields[..1] == [fields[0]] && fields[1..] == [fields[1]];
    } else {
      JoinedFromFront(fields[..n]);
      assert fields[..n][1..] == fields[1..][..n - 1];
      assert fields[1..][n - 1] == fields[n];
    }
  }

  /** A row of at least one field is read back as exactly its fields, whatever they contain,
      and the reader stops exactly at its end. */
  lemma {:induction false} RowIsRead(fields: seq<string>, t: string)
    requires fields != []
    ensures ReadRow(CsvRow(fields) + t) == Some((fields, t))
    decreases |fields|
  {
    hide CsvField, ReadField;
    var f := fields[0];
    if |fields| == 1 {
      var after := ['\n'] + t;
      FieldIsRead(f, after);
      assert CsvRow(fields) + t == CsvField(f) + after;
      assert after[1..] == t && [f] == fields;
    } else {
      var rest := CsvRow(fields[1..]) + t;
      var after := [','] + rest;
      JoinedFromFront(fields);
      FieldIsRead(f, after);
      RowIsRead(fields[1..], t);
      assert CsvRow(fields) + t == CsvField(f) + after;
      assert after[1..] == rest;
      assert [f] + fields[1..] == fields;
    }
  }

  /** Concatenated rows split back into the same rows, newlines inside fields included. */
  lemma {:induction false} TextIsRead(rows: seq<seq<string>>)
    requires forall i :: 0 <= i < |rows| ==> rows[i] != []
    ensures ReadRows(CsvText(rows)) == Some(rows)
  {
    hide CsvRow, ReadRow;
    if rows != [] {
      RowIsRead(rows[0], CsvText(rows[1..]));
      TextIsRead(rows[1..]);
      RowIsNotEmpty(rows[0]);
      assert [rows[0]] + rows[1..] == rows;
    }
  }

  lemma RowIsNotEmpty(fields: seq<string>)
    ensures CsvRow(fields) != ""
  {
  }

  /** A list without fields cannot be told from a list with one empty field. */
  lemma NoFieldsLooksLikeOneEmptyField()
    ensures CsvRow([]) == CsvRow([""])
  {
  }

  /** For the rows that the emitter can be given, being recovered is the same as having a field. */
  lemma RecoveredExactlyWhenNonEmpty(fields: seq<string>, t: string)
    ensures ReadRow(CsvRow(fields) + t) == Some((fields, t)) <==> fields != []
  {
    if fields != [] {
      RowIsRead(fields, t);
    } else {
      RowIsRead([""], t);
      NoFieldsLooksLikeOneEmptyField();
    }
  }
}
