/** The default mode of clip_store: reading clip lines from the pipeline and storing each under
    `session_id:ts`; and what is left of a whole session afterwards. */
module ClipIngest {
  import opened Machine
  import opened Text
  import opened RowLog
  import opened RowFormat
  import opened RowCodec
  import opened StoreOps
  import opened ClipKeys
  import ClipFsm
  import ClipRuns
  import DB = DynamicBuffer

  /** The session_id and ts of a JSON line, if both are there. */
  type Extractor = string -> Option<(string, int)>

  /** Without the line terminators at the end. */
  function StripEol(s: string): string {
    if s != "" && (s[|s| - 1] == '\n' || s[|s| - 1] == '\r') then StripEol(s[..|s| - 1]) else s
  }

  /** The text of a line as the ingest loop stores it. */
  function Record(line: string): string { StripEol(CString(line)) }

  /** The row of one line: None if the line is skipped. */
  function IngestRow(line: string, extract: Extractor, ttl: int, now: int): Option<Row> {
    match extract(Record(line))
    case None => None
    case Some((session, ts)) => Some(Row(ClipKey(session, ts), Record(line), ExpireAt(ttl, now)))
  }

  function IngestRows(lines: seq<string>, extract: Extractor, ttl: int, clock: nat -> int): seq<Row> {
    if lines == [] then []
    else
      var n := |lines| - 1;
      match IngestRow(lines[n], extract, ttl, clock(n))
      case None => IngestRows(lines[..n], extract, ttl, clock)
      case Some(r) => IngestRows(lines[..n], extract, ttl, clock) + [r]
  }

  /** The loop ended in line k: the rows of the lines before are there, and at most a part of its own. */
  ghost predicate StoppedIn(
    before: string, after: string, lines: seq<string>, k: nat, extract: Extractor, ttl: int,
    clock: nat -> int, codec: Codec)
    requires k < |lines|
  {
    && IngestRow(lines[k], extract, ttl, clock(k)).Some?
    && PartlyWritten(before + Serialize(IngestRows(lines[..k], extract, ttl, clock), codec),
                     RowLine(IngestRow(lines[k], extract, ttl, clock(k)).value, codec), after)
  }

  lemma IngestOneMore(lines: seq<string>, i: nat, extract: Extractor, ttl: int, clock: nat -> int, codec: Codec)
    requires i < |lines|
    ensures Serialize(IngestRows(lines[..i + 1], extract, ttl, clock), codec)
      == Serialize(IngestRows(lines[..i], extract, ttl, clock), codec)
         + (match IngestRow(lines[i], extract, ttl, clock(i)) case None => "" case Some(r) => RowLine(r, codec))
  {
    hide IngestRow, RowLine;
    assert lines[..i + 1][..i] == lines[..i];
    var rows := IngestRows(lines[..i], extract, ttl, clock);
    var row := IngestRow(lines[i], extract, ttl, clock(i));
    if row.Some? {
      assert (rows + [row.value])[..|rows|] == rows;
    } else {
      assert Serialize(rows, codec) + "" == Serialize(rows, codec);
    }
  }

  /** Every line stands for itself: skipped, or stored as its own row, whatever comes before. */
  lemma LinesAreIngestedOneByOne(
    lines: seq<string>, line: string, extract: Extractor, ttl: int, clock: nat -> int)
    ensures IngestRows(lines + [line], extract, ttl, clock) == IngestRows(lines, extract, ttl, clock)
      + (match extract(Record(line))
         case None => []
         case Some((session, ts)) =>
           [Row(ClipKey(session, ts), Record(line), if ttl == 0 then 0 else clock(|lines|) + ttl)])
  {
    hide Record, ClipKey;
    assert (lines + [line])[..|lines|] == lines;
    var rows := IngestRows(lines, extract, ttl, clock);
    assert rows + [] == rows;
  }

  /** The trimming loop. */
  method StripLine(line: string) returns (s: string)
    ensures s == Record(line)
    ensures IsStripped(CString(line), s)
  {
    s := CString(line);
    while |s| > 0 && (s[|s| - 1] == '\n' || s[|s| - 1] == '\r')
      invariant StripEol(s) == Record(line)
      invariant s <= CString(line) && forall i :: |s| <= i < |CString(line)| ==> IsEol(CString(line)[i])
    {
      s := s[..|s| - 1];
    }
  }

  predicate IsEol(c: char) { c == '\n' || c == '\r' }

  /** The text is s followed by line terminators only, and s does not end in one. */
  predicate IsStripped(text: string, s: string) {
    && s <= text && (forall i :: |s| <= i < |text| ==> IsEol(text[i]))
    && (s != "" ==> !IsEol(s[|s| - 1]))
  }

  lemma {:induction false} StrippedExactly(text: string, s: string)
    requires IsStripped(text, s)
    ensures StripEol(text) == s
  {
    if |s| < |text| {
      var shorter := text[..|text| - 1];
      assert IsStripped(shorter, s);
      StrippedExactly(shorter, s);
    } else {
      assert s == text;
    }
  }

  /** One line of the pipeline: JSON text and LF or CR LF. */
  predicate IsLineOf(line: string, json: string) {
    && json != "" && '\0' !in json && !IsEol(json[|json| - 1])
    && (line == json + "\n" || line == json + "\r\n")
  }

  /** The line is stored as the text in front of its end. */
  lemma LineIsStoredAsItsText(line: string, json: string)
    requires IsLineOf(line, json)
    ensures Record(line) == json
  {
    CStringOfClean(line);
    StrippedExactly(line, json);
  }

  /** What the JSON reader delivers: at most 127 characters and a 64-bit number. */
  predicate IsField(session: string, ts: int) {
    |session| < 128 && IsLong(ts)
  }

  /** The key, built in a dynamic buffer: session, colon, ts. */
  method BuildKey(session: string, ts: int, grants: nat -> bool) returns (ok: bool, key: string)
    requires IsField(session, ts)
    ensures ok ==> key == ClipKey(session, ts)
    ensures (forall n :: grants(n)) ==> ok
  {
    hide Decimal;
    DecimalIsShort(ts);
    key := "";
    var buf := new DB.Buffer();
    ok := buf.AppendStr(Some(session), grants(0));
    if !ok { return; }
    ok := buf.AppendChar(':', grants(1));
    if !ok { return; }
    ok := buf.AppendStr(Some(Decimal(ts)), grants(2));
    if !ok { return; }
    key := buf.data[..buf.len];
    assert "" + session == session;
    assert key == ClipKey(session, ts);
  }

  /** The ingest loop: malformed lines are skipped, the first failure ends it. */
  method Ingest(
    fp: File, lines: seq<string>, extract: Extractor, ttl: int, clock: nat -> int, codec: Codec,
    grants: nat -> (nat -> bool), memOk: nat -> bool, diskOk: nat -> bool) returns (ok: bool)
    requires forall s :: extract(s).Some? ==> IsField(extract(s).value.0, extract(s).value.1)
    modifies fp
    ensures ok ==> fp.text == old(fp.text) + Serialize(IngestRows(lines, extract, ttl, clock), codec)
    ensures !ok ==> exists k: nat ::
      k < |lines| && StoppedIn(old(fp.text), fp.text, lines, k, extract, ttl, clock, codec)
    ensures (forall i :: memOk(i) && diskOk(i) && forall n :: grants(i)(n)) ==> ok
  {
    hide Record, Decimal, RowLine, ClipKey, Serialize, IngestRows;
    ghost var before := fp.text;
    NothingIngested(lines, extract, ttl, clock, codec);
    assert before + "" == before;
    for i := 0 to |lines|
      invariant fp.text == before + Serialize(IngestRows(lines[..i], extract, ttl, clock), codec)
    {
      IngestOneMore(lines, i, extract, ttl, clock, codec);
      var line := StripLine(lines[i]);
      var fields := extract(line);
      if fields.None? {
        ghost var text := Serialize(IngestRows(lines[..i], extract, ttl, clock), codec);
        assert text + "" == text;
        continue;
      }
      var (session, ts) := fields.value;
      var built, key := BuildKey(session, ts, grants(i));
      ghost var next := Row(ClipKey(session, ts), line, ExpireAt(ttl, clock(i)));
      assert IngestRow(lines[i], extract, ttl, clock(i)) == Some(next);
      if !built {
        NothingOfIt(fp.text, RowLine(next, codec));
        assert StoppedIn(before, fp.text, lines, i, extract, ttl, clock, codec);
        return false;
      }
      var expireAt := if ttl == 0 then 0 else clock(i) + ttl;
      ok := AppendDbRow(fp, Row(key, line, expireAt), codec, memOk(i), diskOk(i));
      if !ok {
        assert StoppedIn(before, fp.text, lines, i, extract, ttl, clock, codec);
        return;
      }
    }
    assert lines[..|lines|] == lines;
    return true;
  }

  lemma NothingIngested(lines: seq<string>, extract: Extractor, ttl: int, clock: nat -> int, codec: Codec)
    ensures Serialize(IngestRows(lines[..0], extract, ttl, clock), codec) == ""
  {
    assert lines[..0] == [];
  }

  // ---------- a session's clips after ingestion ----------

  /** The i-th text is the JSON record of the i-th clip, and the i-th line of the pipeline. */
  ghost predicate Describes(
    lines: seq<string>, jsons: seq<string>, cs: seq<ClipFsm.Clip>, session: string, extract: Extractor)
  {
    |lines| == |jsons| == |cs| &&
    forall i :: 0 <= i < |cs| ==>
      IsLineOf(lines[i], jsons[i]) && extract(jsons[i]) == Some((session, Seconds(cs[i].startTsMs)))
  }

  lemma {:induction false} DescribedRows(
    lines: seq<string>, jsons: seq<string>, cs: seq<ClipFsm.Clip>, session: string, extract: Extractor,
    ttl: int, clock: nat -> int)
    requires Describes(lines, jsons, cs, session, extract)
    ensures var rows := IngestRows(lines, extract, ttl, clock);
      && |rows| == |cs|
      && forall i :: 0 <= i < |cs| ==>
           rows[i] == Row(ClipKey(session, Seconds(cs[i].startTsMs)), jsons[i], ExpireAt(ttl, clock(i)))
  {
    hide Record, IsLineOf, ClipKey, Seconds, ExpireAt;
    if lines != [] {
      var n := |lines| - 1;
      DescribedRows(lines[..n], jsons[..n], cs[..n], session, extract, ttl, clock);
      LineIsStoredAsItsText(lines[n], jsons[n]);
    }
  }

  lemma ClipKeyIsClean(session: string, ts: int)
    requires CleanKey(session)
    ensures CleanKey(ClipKey(session, ts))
  {
    hide Decimal;
    DecimalIsPlain(ts);
  }

  /** From records to lookups: in a session without gaps and timeouts, with clips of at least a
      second, the JSON text of every clip, sent as a line, can be read back under its own key after
      ingestion, as long as it lives. */
  lemma EveryClipCanBeFetched(
    ins: seq<ClipRuns.Input>, p: ClipRuns.Params, session: string, lines: seq<string>, jsons: seq<string>,
    extract: Extractor, ttl: int, clock: nat -> int, file: string, codec: Codec, i: nat, later: int)
    requires Smooth(ClipFsm.Idle(), ins, p)
    requires p.clipMs >= 1999 || (p.clipMs >= 1000 && NoNegativeTimes(ins))
    requires Describes(lines, jsons, SessionClips(ins, p), session, extract) && CleanKey(session)
    requires Lossless(codec) && Terminated(file)
    requires ttl >= 0 && forall k: nat :: clock(k) > 0 && IsLong(clock(k) + ttl)
    requires i < |lines|
    ensures Got(file + Serialize(IngestRows(lines, extract, ttl, clock), codec),
                ClipKey(session, Seconds(SessionClips(ins, p)[i].startTsMs)), later, codec)
         == if ttl == 0 || later < clock(i) + ttl then Some(jsons[i]) else None
  {
    hide IsLineOf, ClipKey, Seconds, LoadRows, Serialize, IngestRows, Terminated, Smooth, SessionClips,
      NoNegativeTimes, LiveView, Latest, Storable, Lossless;
    assert IsLong(clock(i) + ttl);
    var cs, rows := SessionClips(ins, p), IngestRows(lines, extract, ttl, clock);
    DescribedRows(lines, jsons, cs, session, extract, ttl, clock);
    NoClipIsOverwritten(ins, p, session, rows);
    DescribedRowsAreStorable(lines, jsons, cs, session, extract, ttl, clock);
    AppendedRowsAreRead(file, rows, codec);
    LookupAfterAppend(LoadRows(file, codec), rows, rows[i], later);
    assert jsons[i] != "" by { LineHasText(lines[i], jsons[i]); }
  }

  lemma LineHasText(line: string, json: string)
    requires IsLineOf(line, json)
    ensures json != "" && '\0' !in json
  {
  }

  lemma DescribedRowsAreStorable(
    lines: seq<string>, jsons: seq<string>, cs: seq<ClipFsm.Clip>, session: string, extract: Extractor,
    ttl: int, clock: nat -> int)
    requires Describes(lines, jsons, cs, session, extract) && CleanKey(session)
    requires ttl >= 0 && forall k: nat :: clock(k) > 0 && IsLong(clock(k) + ttl)
    ensures var rows := IngestRows(lines, extract, ttl, clock);
      forall k :: 0 <= k < |rows| ==> Storable(rows[k])
  {
    hide IsLineOf, ClipKey, Seconds, IngestRows;
    DescribedRows(lines, jsons, cs, session, extract, ttl, clock);
    forall k | 0 <= k < |lines|
      ensures Storable(IngestRows(lines, extract, ttl, clock)[k])
    {
      ClipKeyIsClean(session, Seconds(cs[k].startTsMs));
      LineHasText(lines[k], jsons[k]);
    }
  }

  /** A row that is the latest of the appended ones is what a lookup finds. */
  lemma LookupAfterAppend(log: seq<Row>, rows: seq<Row>, r: Row, t: int)
    requires r.key in Latest(rows) && Latest(rows)[r.key] == r
    ensures r.key in LiveView(log + rows, t) <==> IsLive(r, t)
    ensures IsLive(r, t) ==> LiveView(log + rows, t)[r.key] == r
  {
    LatestOfConcat(log, rows);
  }
}
