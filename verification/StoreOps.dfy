/** The operations of clip_store on a database file: loading, get, list and prefix, set and
    delete, and compaction. */
module StoreOps {
  import opened Machine
  import opened Text
  import opened RowLog
  import opened RowFormat
  import opened RowCodec
  import RowIndex
  import HashKey

  // ---------- loading ----------

  lemma LatestOfMoreRows(rows: seq<Row>, m: map<string, Row>, r: Row)
    ensures m + Latest(rows + [r]) == (m + Latest(rows))[r.key := r]
  {
    LatestSnoc(rows, r);
  }

  lemma NoLinesYet(lines: seq<string>, m: map<string, Row>, codec: Codec)
    ensures m + Latest(ParseLines(lines[..0], codec)) == m
  {
    assert lines[..0] == [];
    assert m + map[] == m;
  }

  lemma ParseOneMore(lines: seq<string>, i: nat, codec: Codec)
    requires i < |lines|
    ensures ParseLines(lines[..i + 1], codec) == ParseLines(lines[..i], codec)
      + (match ParseRow(TrimEol(lines[i]), codec) case None => [] case Some(r) => [r])
  {
    hide ParseRow, TrimEol;
    assert lines[..i + 1][..i] == lines[..i];
  }

  /** `line[strcspn(line, "\r\n")] = '\0'` on a line that getline delivered. */
  method TrimLine(line: string) returns (buffer: array<char>)
    requires '\n' !in line
    ensures fresh(buffer) && HoldsCString(buffer[..]) && CString(buffer[..]) == TrimEol(line)
  {
    buffer := new char[|line| + 1](i requires 0 <= i <= |line| => if i < |line| then line[i] else '\0');
    assert buffer[|line|] in buffer[..];
    var n := 0;
    while n < |line| && line[n] != '\r' && line[n] != '\0'
      invariant 0 <= n <= |line|
      invariant forall k :: 0 <= k < n ==> line[k] != '\r' && line[k] != '\0'
    {
      n := n + 1;
    }
    buffer[n] := '\0';
    assert buffer[n] in buffer[..];
    TrimStops(line, n);
    IndexIsUnique(buffer[..], '\0', n);
    forall k | 0 <= k < n
      ensures buffer[k] == line[k]
    {
    }
    assert CString(buffer[..]) == line[..n];
  }

  lemma TrimStops(line: string, n: nat)
    requires n <= |line| && (forall k :: 0 <= k < n ==> line[k] != '\r' && line[k] != '\0')
    requires n == |line| || line[n] == '\r' || line[n] == '\0'
    ensures TrimEol(line) == line[..n]
  {
    var r := IndexOf(line, '\r');
    IndexIsUnique(line[..r], '\0', n);
  }

  /** load_latest_rows: the index becomes the last-write-wins state of the file's rows. */
  method LoadLatestRows(fp: File, out: RowIndex.Index, codec: Codec, granted: nat -> bool, copied: nat -> bool)
    returns (ok: bool)
    requires out.Valid()
    modifies out, out.rows, out.used
    ensures out.Valid()
    ensures (out.rows == old(out.rows) && out.used == old(out.used)) || (fresh(out.rows) && fresh(out.used))
    ensures ok ==> out.Contents() == old(out.Contents()) + Latest(LoadRows(fp.text, codec))
    ensures (forall i :: granted(i) && copied(i)) ==> ok
  {
    hide ParseRow, TrimEol, Lines, Unfinished, Latest, ParseLines,
      RowIndex.Placed, RowIndex.Chained, RowIndex.Count, RowIndex.ContentsOf, HashKey.PowerOfTwo;
    var lines := FileLines(fp.text);
    LinesHaveNoNewline(fp.text);
    UnfinishedHasNoNewline(fp.text);
    ghost var before := out.Contents();
    NoLinesYet(lines, before, codec);
    for i := 0 to |lines|
      invariant out.Valid()
      invariant (out.rows == old(out.rows) && out.used == old(out.used)) || (fresh(out.rows) && fresh(out.used))
      invariant out.Contents() == before + Latest(ParseLines(lines[..i], codec))
    {
      var buffer := TrimLine(lines[i]);
      ghost var rows := ParseLines(lines[..i], codec);
      ParseOneMore(lines, i, codec);
      var parsed := ParseDbRow(buffer, codec);
      if parsed.None? {
        assert rows + [] == rows;
        continue;
      }
      LatestOfMoreRows(rows, before, parsed.value);
      ok := out.Put(parsed.value, granted(i), copied(i));
      if !ok {
        return;
      }
    }
    assert lines[..|lines|] == lines;
    return true;
  }

  /** What the get command prints. */
  ghost function Got(file: string, key: string, now: int, codec: Codec): Option<string> {
    var view := LiveView(LoadRows(file, codec), now);
    if key in view then Some(view[key].value) else None
  }

  /** The get command: load_latest_row, then the liveness test. */
  method GetValue(fp: File, key: string, now: int, codec: Codec, granted: nat -> bool, copied: nat -> bool)
    returns (ok: bool, printed: Option<string>)
    ensures ok ==> printed == Got(fp.text, key, now, codec)
    ensures (forall i :: granted(i) && copied(i)) ==> ok
  {
    hide LoadRows, RowIndex.Placed, RowIndex.Chained, RowIndex.Count, RowIndex.ContentsOf, HashKey.PowerOfTwo;
    var index := new RowIndex.Index();
    ok := LoadLatestRows(fp, index, codec, granted, copied);
    if !ok {
      return false, None;
    }
    assert map[] + Latest(LoadRows(fp.text, codec)) == Latest(LoadRows(fp.text, codec));
    var row := index.Get(key);
    if row.Some? && IsLive(row.value, now) {
      return true, Some(row.value.value);
    }
    return true, None;
  }

  // ---------- walking the buckets ----------

  /** prefix == None lists everything; otherwise strncmp with the prefix. */
  predicate Matches(key: string, prefix: Option<string>) {
    prefix.None? || prefix.value <= key
  }

  /** The live matching rows of the first i buckets, in bucket order. */
  function BucketRows(rows: seq<Row>, used: seq<bool>, i: nat, prefix: Option<string>, now: int): seq<Row>
    requires i <= |rows| == |used|
  {
    if i == 0 then []
    else
      BucketRows(rows, used, i - 1, prefix, now)
        + (if used[i - 1] && IsLive(rows[i - 1], now) && Matches(rows[i - 1].key, prefix) then [rows[i - 1]] else [])
  }

  /** The part of a view whose keys match. */
  ghost function Matching(view: map<string, Row>, prefix: Option<string>): map<string, Row> {
    map k | k in view && Matches(k, prefix) :: view[k]
  }

  /** c was collected from the first i buckets. */
  ghost predicate FromBuckets(
    c: seq<Row>, rows: seq<Row>, pos: map<string, nat>, i: nat, prefix: Option<string>, now: int)
    requires forall k :: k in pos ==> pos[k] < |rows|
  {
    && (forall a :: 0 <= a < |c| ==>
          c[a].key in pos && pos[c[a].key] < i && rows[pos[c[a].key]] == c[a]
          && IsLive(c[a], now) && Matches(c[a].key, prefix))
    && (forall k :: k in pos && pos[k] < i && IsLive(rows[pos[k]], now) && Matches(k, prefix) ==> rows[pos[k]] in c)
  }

  lemma {:induction false} BucketRowsAreDistinct(
    rows: seq<Row>, used: seq<bool>, pos: map<string, nat>, i: nat, prefix: Option<string>, now: int)
    requires RowIndex.Placed(rows, used, pos) && i <= |rows|
    ensures DistinctKeys(BucketRows(rows, used, i, prefix, now))
    ensures FromBuckets(BucketRows(rows, used, i, prefix, now), rows, pos, i, prefix, now)
  {
    hide IsLive, Matches;
    if i > 0 {
      BucketRowsAreDistinct(rows, used, pos, i - 1, prefix, now);
    }
  }

  /** Walking all buckets meets every live matching key exactly once, with its latest row. */
  lemma BucketsListTheView(
    rows: seq<Row>, used: seq<bool>, pos: map<string, nat>, log: seq<Row>, prefix: Option<string>, now: int)
    requires RowIndex.Placed(rows, used, pos)
    requires RowIndex.ContentsOf(rows, pos) == Latest(log)
    ensures ListsView(BucketRows(rows, used, |rows|, prefix, now), Matching(LiveView(log, now), prefix))
  {
    hide IsLive, Matches, BucketRows, Latest;
    var c, view := BucketRows(rows, used, |rows|, prefix, now), Matching(LiveView(log, now), prefix);
    BucketRowsAreDistinct(rows, used, pos, |rows|, prefix, now);
    forall r | r in c
      ensures r.key in view && view[r.key] == r
    {
      var a :| 0 <= a < |c| && c[a] == r;
      assert Latest(log)[r.key] == rows[pos[r.key]];
    }
    forall k | k in view
      ensures view[k] in c
    {
      assert view[k] == rows[pos[k]];
    }
  }

  function KeyValues(rows: seq<Row>): seq<(string, string)> {
    seq(|rows|, i requires 0 <= i < |rows| => (rows[i].key, rows[i].value))
  }

  lemma NextListed(rows: seq<Row>, used: seq<bool>, i: nat, prefix: Option<string>, now: int)
    requires i < |rows| == |used|
    ensures var (c, r) := (BucketRows(rows, used, i, prefix, now), rows[i]);
      && BucketRows(rows, used, i + 1, prefix, now)
        == (if used[i] && IsLive(r, now) && Matches(r.key, prefix) then c + [r] else c)
      && KeyValues(c + [r]) == KeyValues(c) + [(r.key, r.value)]
  {
    hide IsLive, Matches;
    var c := BucketRows(rows, used, i, prefix, now);
    assert c + [] == c;
  }

  /** The loop of print_rows. */
  method CollectRows(index: RowIndex.Index, prefix: Option<string>, now: int)
    returns (printed: seq<(string, string)>, ghost c: seq<Row>)
    requires index.rows.Length == index.used.Length == index.cap
    ensures c == BucketRows(index.rows[..], index.used[..], index.cap, prefix, now)
    ensures printed == KeyValues(BucketRows(index.rows[..], index.used[..], index.cap, prefix, now))
  {
    hide Matches, IsLive, BucketRows, KeyValues;
    printed, c := [], [];
    ghost var (rows, used) := (index.rows[..], index.used[..]);
    NoRowsYet(rows, used, prefix, now);
    for i := 0 to index.cap
      invariant c == BucketRows(rows, used, i, prefix, now)
      invariant printed == KeyValues(c)
    {
      assert rows[i] == index.rows[i] && used[i] == index.used[i];
      NextListed(rows, used, i, prefix, now);
      AnythingMatchesNone(rows[i].key);
      if !index.used[i] {
        continue;
      }
      if !IsLive(index.rows[i], now) {
        continue;
      }
      if prefix.Some? && !Matches(index.rows[i].key, prefix) {
        continue;
      }
      printed := printed + [(index.rows[i].key, index.rows[i].value)];
      c := c + [rows[i]];
    }
  }

  /** Every printed key is p followed by something and has its value in the view; every key of the
      view of that form is printed; and no key is printed twice. */
  ghost predicate PrintsExactly(printed: seq<(string, string)>, view: map<string, Row>, p: string) {
    && (forall i :: 0 <= i < |printed| ==>
          printed[i].0 in view && printed[i].1 == view[printed[i].0].value && StartsWith(printed[i].0, p))
    && (forall rest: string :: p + rest in view ==> (p + rest, view[p + rest].value) in printed)
    && (forall i, j :: 0 <= i < j < |printed| ==> printed[i].0 != printed[j].0)
  }

  ghost predicate StartsWith(key: string, p: string) {
    exists rest: string :: key == p + rest
  }

  lemma LiveKeysAreTheirOwn(rows: seq<Row>, now: int)
    ensures forall k :: k in LiveView(rows, now) ==> LiveView(rows, now)[k].key == k
  {
    LatestKeepsKeys(rows);
  }

  lemma ListedIsPrinted(c: seq<Row>, view: map<string, Row>, prefix: Option<string>)
    requires ListsView(c, Matching(view, prefix))
    requires forall k :: k in view ==> view[k].key == k
    ensures PrintsExactly(KeyValues(c), view, if prefix.Some? then prefix.value else "")
  {
    var (printed, p) := (KeyValues(c), if prefix.Some? then prefix.value else "");
    forall i | 0 <= i < |printed|
      ensures printed[i].0 in view && printed[i].1 == view[printed[i].0].value && StartsWith(printed[i].0, p)
    {
      assert c[i] in c;
      assert printed[i].0 == p + printed[i].0[|p|..];
    }
    forall rest: string | p + rest in view
      ensures (p + rest, view[p + rest].value) in printed
    {
      var k := p + rest;
      assert k[..|p|] == p;
      assert k in Matching(view, prefix);
      var i :| 0 <= i < |c| && c[i] == view[k];
      assert printed[i] == (k, view[k].value);
    }
  }

  /** print_rows: the list and prefix commands. */
  method PrintRows(
    fp: File, prefix: Option<string>, now: int, codec: Codec, granted: nat -> bool, copied: nat -> bool)
    returns (ok: bool, printed: seq<(string, string)>, ghost c: seq<Row>)
    ensures ok ==> ListsView(c, Matching(LiveView(LoadRows(fp.text, codec), now), prefix))
    ensures ok ==> printed == KeyValues(c)
    ensures ok ==> PrintsExactly(
      printed, LiveView(LoadRows(fp.text, codec), now), if prefix.Some? then prefix.value else "")
    ensures (forall i :: granted(i) && copied(i)) ==> ok
  {
    hide LoadRows, PrintsExactly, Matches, IsLive, ListsView, Matching, Latest, LiveView, BucketRows, KeyValues,
      RowIndex.Placed, RowIndex.Chained, RowIndex.Count, RowIndex.ContentsOf, HashKey.PowerOfTwo;
    printed, c := [], [];
    var index := new RowIndex.Index();
    ok := LoadLatestRows(fp, index, codec, granted, copied);
    if !ok {
      return;
    }
    assert map[] + Latest(LoadRows(fp.text, codec)) == Latest(LoadRows(fp.text, codec));
    BucketsListTheView(index.rows[..], index.used[..], index.pos, LoadRows(fp.text, codec), prefix, now);
    printed, c := CollectRows(index, prefix, now);
    LiveKeysAreTheirOwn(LoadRows(fp.text, codec), now);
    ListedIsPrinted(c, LiveView(LoadRows(fp.text, codec), now), prefix);
  }

  lemma NoRowsYet(rows: seq<Row>, used: seq<bool>, prefix: Option<string>, now: int)
    requires |rows| == |used|
    ensures BucketRows(rows, used, 0, prefix, now) == [] && KeyValues([]) == []
  {
  }

  lemma AnythingMatchesNone(key: string)
    ensures Matches(key, None)
  {
  }

  // ---------- compaction ----------

  /** The directory: the contents behind each path. */
  class FileSystem {
    var files: map<string, string>

    method Rename(from: string, to: string, diskOk: bool) returns (ok: bool)
      requires from in files
      modifies this
      ensures ok == diskOk
      ensures files == if ok then (old(files) - {from})[to := old(files)[from]] else old(files)
    {
      if diskOk {
        files := (files - {from})[to := files[from]];
      }
      return diskOk;
    }
  }

  /** Everything outside the program that can make a compaction fail. */
  datatype Faults = Faults(
    granted: nat -> bool, copied: nat -> bool, openOk: bool, streamOk: bool,
    memOk: nat -> bool, diskOk: nat -> bool, flushOk: bool, renameOk: bool)

  ghost predicate NoFaults(f: Faults) {
    && (forall i :: f.granted(i) && f.copied(i)) && (forall i :: f.memOk(i) && f.diskOk(i))
    && f.openOk && f.streamOk && f.flushOk && f.renameOk
  }

  const PATH_MAX: nat := 4096

  function TempPath(dbPath: string): string { dbPath + ".tmp" }

  /** The live rows of an index in bucket order. */
  function LiveBuckets(index: RowIndex.Index, now: int): seq<Row>
    requires index.rows.Length == index.used.Length == index.cap
    reads index, index.rows, index.used
  {
    BucketRows(index.rows[..], index.used[..], index.cap, None, now)
  }

  lemma NextBucket(rows: seq<Row>, used: seq<bool>, i: nat, now: int, codec: Codec)
    requires i < |rows| == |used|
    ensures Serialize(BucketRows(rows, used, i + 1, None, now), codec)
         == Serialize(BucketRows(rows, used, i, None, now), codec)
            + (if used[i] && IsLive(rows[i], now) then RowLine(rows[i], codec) else "")
  {
    hide RowLine;
    var front := BucketRows(rows, used, i, None, now);
    assert (front + [rows[i]])[..|front|] == front;
    assert front + [] == front;
    assert Serialize(front, codec) + "" == Serialize(front, codec);
  }

  /** The write loop of db_rewrite_compact: the live rows, bucket by bucket. */
  method WriteLiveRows(index: RowIndex.Index, tmp: File, now: int, codec: Codec, f: Faults) returns (ok: bool)
    requires index.Valid() && tmp.text == ""
    modifies tmp
    ensures ok ==> tmp.text == Serialize(LiveBuckets(index, now), codec)
    ensures (forall i :: f.memOk(i) && f.diskOk(i)) ==> ok
  {
    hide RowLine, BucketRows, Serialize,
      RowIndex.Placed, RowIndex.Chained, RowIndex.Count, RowIndex.ContentsOf, HashKey.PowerOfTwo;
    ghost var (rows, used) := (index.rows[..], index.used[..]);
    NoBuckets(rows, used, now, codec);
    for i := 0 to index.cap
      invariant index.rows[..] == rows && index.used[..] == used && index.cap == |rows| == |used|
      invariant tmp.text == Serialize(BucketRows(rows, used, i, None, now), codec)
    {
      assert rows[i] == index.rows[i] && used[i] == index.used[i];
      NextBucket(rows, used, i, now, codec);
      if !index.used[i] {
        continue;
      }
      if !IsLive(index.rows[i], now) {
        continue;
      }
      ok := AppendDbRow(tmp, index.rows[i], codec, f.memOk(i), f.diskOk(i));
      if !ok {
        return;
      }
    }
    return true;
  }

  lemma NoBuckets(rows: seq<Row>, used: seq<bool>, now: int, codec: Codec)
    requires |rows| == |used|
    ensures Serialize(BucketRows(rows, used, 0, None, now), codec) == ""
  {
  }

  lemma DropTemp(files: map<string, string>, tmpPath: string, text: string)
    ensures files[tmpPath := text] - {tmpPath} == files - {tmpPath}
  {
  }

  /** The part of db_rewrite_compact that makes the temporary file, or leaves none behind. */
  method MakeTemp(fs: FileSystem, index: RowIndex.Index, tmpPath: string, now: int, codec: Codec, f: Faults)
    returns (ok: bool)
    requires index.Valid()
    modifies fs
    ensures ok ==> fs.files == old(fs.files)[tmpPath := Serialize(LiveBuckets(index, now), codec)]
    ensures !ok ==> fs.files - {tmpPath} == old(fs.files) - {tmpPath}
    ensures NoFaults(f) ==> ok
  {
    hide RowLine, BucketRows, Serialize, RowIndex.Placed, RowIndex.Chained, RowIndex.Count, RowIndex.ContentsOf,
      HashKey.PowerOfTwo;
    if !f.openOk {
      return false;
    }
    DropTemp(fs.files, tmpPath, "");
    fs.files := fs.files[tmpPath := ""];
    var tmp := new File("");
    if !f.streamOk {
      fs.files := fs.files - {tmpPath};
      return false;
    }
    ok := WriteLiveRows(index, tmp, now, codec, f);
    if !ok || !f.flushOk {
      fs.files := fs.files - {tmpPath};
      return false;
    }
    fs.files := fs.files[tmpPath := tmp.text];
    return true;
  }

  lemma OtherPathIsKept(before: map<string, string>, after: map<string, string>, tmpPath: string, path: string)
    requires after - {tmpPath} == before - {tmpPath} && path != tmpPath
    ensures path in after <==> path in before
    ensures path in after ==> after[path] == before[path]
  {
    assert path in after <==> path in after - {tmpPath};
    assert path in before <==> path in before - {tmpPath};
    if path in after {
      assert (after - {tmpPath})[path] == (before - {tmpPath})[path];
    }
  }

  /** db_rewrite_compact. The ghost result lists the rows of the new file. */
  method RewriteCompact(fs: FileSystem, fp: File, dbPath: string, now: int, codec: Codec, f: Faults)
    returns (ok: bool, ghost c: seq<Row>)
    modifies fs
    ensures !ok ==> fs.files - {TempPath(dbPath)} == old(fs.files) - {TempPath(dbPath)}
    ensures !ok ==> (dbPath in fs.files <==> dbPath in old(fs.files))
    ensures !ok && dbPath in fs.files ==> fs.files[dbPath] == old(fs.files)[dbPath]
    ensures ok ==> IsCompaction(c, LoadRows(fp.text, codec), now)
    ensures ok ==> fs.files == (old(fs.files) - {TempPath(dbPath)})[dbPath := Serialize(c, codec)]
    ensures NoFaults(f) && |dbPath| + 4 < 4096 ==> ok
  {
    hide LoadRows, RowLine, LiveBuckets, Serialize, Latest, IsCompaction, LiveView,
      RowIndex.Placed, RowIndex.Chained, RowIndex.Count, RowIndex.ContentsOf, HashKey.PowerOfTwo;
    c := [];
    var index := new RowIndex.Index();
    ok := LoadLatestRows(fp, index, codec, f.granted, f.copied);
    if !ok {
      return;
    }
    var tmpPath := TempPath(dbPath);
    assert |tmpPath| != |dbPath|;
    if |tmpPath| >= PATH_MAX {
      return false, c;
    }
    ok := MakeTemp(fs, index, tmpPath, now, codec, f);
    if !ok {
      OtherPathIsKept(old(fs.files), fs.files, tmpPath, dbPath);
      return false, c;
    }
    c := LiveBuckets(index, now);
    DropTemp(old(fs.files), tmpPath, Serialize(c, codec));
    IndexListsTheView(index, LoadRows(fp.text, codec), now);
    ok := fs.Rename(tmpPath, dbPath, f.renameOk);
    if !ok {
      fs.files := fs.files - {tmpPath};
      OtherPathIsKept(old(fs.files), fs.files, tmpPath, dbPath);
      return false, c;
    }
    return true, c;
  }

  lemma IndexListsTheView(index: RowIndex.Index, log: seq<Row>, now: int)
    requires index.Valid() && index.Contents() == map[] + Latest(log)
    ensures IsCompaction(LiveBuckets(index, now), log, now)
  {
    hide RowIndex.Placed, RowIndex.Chained, RowIndex.Count, HashKey.PowerOfTwo, BucketRows;
    assert map[] + Latest(log) == Latest(log);
    BucketsListTheView(index.rows[..], index.used[..], index.pos, log, None, now);
    assert Matching(LiveView(log, now), None) == LiveView(log, now);
  }

  /** A reader sees the same in the compacted and in the original file after the same appends. */
  ghost predicate SameView(file: string, c: seq<Row>, more: string, later: int, codec: Codec) {
    LiveView(LoadRows(Serialize(c, codec) + more, codec), later) == LiveView(LoadRows(file + more, codec), later)
  }

  /** On disk: after a compaction, whatever text is appended, torn writes and unclean keys included,
      every reader at or after the compaction time sees what it would have seen without it. */
  lemma CompactedFileIsTransparent(file: string, c: seq<Row>, more: string, now: int, later: int, codec: Codec)
    requires Lossless(codec) && Terminated(file) && now <= later
    requires IsCompaction(c, LoadRows(file, codec), now)
    ensures SameView(file, c, more, later, codec)
  {
    hide LoadRows, Serialize, Storable, Terminated, LiveView;
    CompactedRowsAreStorable(file, c, now, codec);
    SerializedIsTerminated(c, codec);
    LogRoundTrip(c, codec);
    AppendedTextIsRead(Serialize(c, codec), more, codec);
    AppendedTextIsRead(file, more, codec);
    CompactionIsTransparent(c, LoadRows(file, codec), LoadRows(more, codec), now, later);
  }

  /** Exactly when a compaction is invisible to all later appends and readers: when the file did
      not end in an unfinished line. The compacted file is in order, so the next row is read from
      it; the original would have swallowed that row. */
  lemma CompactedFileIsTransparentExactly(file: string, c: seq<Row>, now: int, codec: Codec)
    requires Lossless(codec) && IsCompaction(c, LoadRows(file, codec), now)
    ensures (forall more, later :: now <= later ==> SameView(file, c, more, later, codec)) <==> Terminated(file)
  {
    hide LoadRows, Serialize, SameView, Terminated, LiveView, Lossless, IsCompaction;
    if Terminated(file) {
      forall more, later | now <= later
        ensures SameView(file, c, more, later, codec)
      {
        CompactedFileIsTransparent(file, c, more, now, later, codec);
      }
    } else {
      var r := SwallowedRow(file, c, now, codec);
      assert !SameView(file, c, RowLine(r, codec), now, codec);
    }
  }

  /** What is left for other keys when a row is appended to an unfinished line. */
  function TornLog(file: string, codec: Codec): seq<Row> {
    if !EndsEarly(Unfinished(file)) && '\t' in Unfinished(file) then ParseLines(Lines(file), codec)
    else LoadRows(file, codec)
  }

  lemma SwallowedKey(file: string, r: Row, codec: Codec)
    requires Lossless(codec) && Storable(r) && r.value != "" && !Terminated(file)
    ensures var rows := LoadRows(file + RowLine(r, codec), codec);
      && (r.key in Latest(rows) <==> r.key in Latest(TornLog(file, codec)))
      && (r.key in Latest(rows) ==> Latest(rows)[r.key] == Latest(TornLog(file, codec))[r.key])
  {
    hide LoadRows, RowLine, ParseLines, Lines, Storable, EndsEarly, Latest;
    AppendedRowIsSwallowed(file, r, codec);
    var torn := Unfinished(file);
    assert |torn + r.key| > |r.key|;
    LatestSnoc(LoadRows(file, codec), r.(key := torn + r.key));
  }

  lemma SwallowedRow(file: string, c: seq<Row>, now: int, codec: Codec) returns (r: Row)
    requires Lossless(codec) && IsCompaction(c, LoadRows(file, codec), now) && !Terminated(file)
    ensures !SameView(file, c, RowLine(r, codec), now, codec)
  {
    hide LoadRows, Serialize, Terminated, TornLog, RowLine, IsCompaction, Latest;
    var before := Latest(TornLog(file, codec));
    r := Row("k", if "k" in before && before["k"].value == "a" then "b" else "a", 0);
    SwallowedKey(file, r, codec);
    CompactedRowsAreStorable(file, c, now, codec);
    SerializedIsTerminated(c, codec);
    LogRoundTrip(c, codec);
    AppendedRowIsRead(Serialize(c, codec), r, codec);
    LatestSnoc(c, r);
    assert IsLive(r, now);
    var (kept, lost) := (LoadRows(Serialize(c, codec) + RowLine(r, codec), codec),
                         LoadRows(file + RowLine(r, codec), codec));
    assert LiveView(kept, now)["k"] == r;
    assert "k" in LiveView(lost, now) ==> LiveView(lost, now)["k"] == before["k"];
  }

  lemma SerializedIsTerminated(rows: seq<Row>, codec: Codec)
    requires Lossless(codec) && forall i :: 0 <= i < |rows| ==> Storable(rows[i])
    ensures Terminated(Serialize(rows, codec))
  {
    hide Serialize, Storable;
    EmptyFile(codec);
    AppendedRowsAreRead("", rows, codec);
    assert "" + Serialize(rows, codec) == Serialize(rows, codec);
  }

  lemma CompactedRowsAreStorable(file: string, c: seq<Row>, now: int, codec: Codec)
    requires IsCompaction(c, LoadRows(file, codec), now)
    ensures forall i :: 0 <= i < |c| ==> Storable(c[i])
  {
    hide LoadRows, Storable;
    var rows := LoadRows(file, codec);
    LoadedRowsAreStorable(file, codec);
    LatestKeepsKeys(rows);
    forall i | 0 <= i < |c|
      ensures Storable(c[i])
    {
      assert c[i] in c;
      var j :| 0 <= j < |rows| && rows[j] == c[i];
    }
  }

  // ---------- set and delete ----------

  /** The expiry rule of set and ingest. */
  function ExpireAt(ttl: int, now: int): int {
    if ttl == 0 then 0 else now + ttl
  }

  /** parse_set_expr: cuts the argument in place at its first '='. None is the source's -1. */
  method SplitSetArg(arg: array<char>) returns (parts: Option<(string, string)>)
    requires HoldsCString(arg[..])
    modifies arg
    ensures var s := CString(old(arg[..]));
      && (parts.Some? <==> '=' in s && s[0] != '=')
      && (parts.Some? ==> '=' !in parts.value.0 && parts.value.0 + ['='] + parts.value.1 == s)
    ensures forall k :: 0 <= k < arg.Length ==>
      arg[k] == old(arg[k]) || (old(arg[k]) == '=' && arg[k] == '\0')
  {
    hide IndexOf;
    ghost var s := CString(arg[..]);
    var eq := StrChr(arg, 0, '=');
    assert s[0..] == s;
    if arg[eq] == '\0' || eq == 0 {
      return None;
    }
    assert eq < |s| && s[eq] == '=';
    var key, value := arg[..eq], StringAt(arg, eq + 1);
    assert key == s[..eq];
    arg[eq] := '\0';
    return Some((key, value));
  }

  /** The --set argument is well formed. */
  predicate IsSetExpr(s: string, key: string, value: string) {
    key != "" && value != "" && '=' !in key && s == key + ['='] + value
  }

  /** The set command. */
  method SetCommand(fp: File, arg: array<char>, ttl: int, now: int, codec: Codec, memOk: bool, diskOk: bool)
    returns (ok: bool, ghost key: string, ghost value: string)
    requires HoldsCString(arg[..])
    modifies fp, arg
    ensures ok ==> IsSetExpr(CString(old(arg[..])), key, value)
    ensures ok ==> fp.text == old(fp.text) + RowLine(Row(key, value, ExpireAt(ttl, now)), codec)
    ensures !ok ==> PartlyWritten(old(fp.text), RowLine(Row(key, value, ExpireAt(ttl, now)), codec), fp.text)
    ensures !ok && memOk && diskOk ==>
      fp.text == old(fp.text) && !exists k, v :: IsSetExpr(CString(old(arg[..])), k, v)
  {
    hide RowLine;
    ghost var s := CString(arg[..]);
    key, value := "", "";
    var parts := SplitSetArg(arg);
    if parts.None? || parts.value.0 == "" || parts.value.1 == "" {
      NotASetExpr(s, parts);
      NothingOfIt(fp.text, RowLine(Row("", "", ExpireAt(ttl, now)), codec));
      return false, "", "";
    }
    var expireAt := if ttl == 0 then 0 else now + ttl;
    key, value := parts.value.0, parts.value.1;
    ok := AppendDbRow(fp, Row(parts.value.0, parts.value.1, expireAt), codec, memOk, diskOk);
  }

  lemma NotASetExpr(s: string, parts: Option<(string, string)>)
    requires parts.Some? <==> '=' in s && s[0] != '='
    requires parts.Some? ==> '=' !in parts.value.0 && parts.value.0 + ['='] + parts.value.1 == s
    requires parts.None? || parts.value.0 == "" || parts.value.1 == ""
    ensures !exists k, v :: IsSetExpr(s, k, v)
  {
    if k, v :| IsSetExpr(s, k, v) {
      assert s[0] == k[0] && s[|k|] == '=';
      IndexAfter(k, '=', v);
      IndexAfter(parts.value.0, '=', parts.value.1);
    }
  }

  /** The delete command: a tombstone that never expires, unless the key is empty. */
  method DeleteCommand(fp: File, key: string, codec: Codec, memOk: bool, diskOk: bool) returns (ok: bool)
    modifies fp
    ensures ok ==> key != "" && fp.text == old(fp.text) + RowLine(Row(key, "", 0), codec)
    ensures key != "" && diskOk && memOk ==> ok
    ensures key == "" ==> fp.text == old(fp.text)
    ensures !ok ==> PartlyWritten(old(fp.text), RowLine(Row(key, "", 0), codec), fp.text)
  {
    hide RowLine;
    if key == "" {
      NothingOfIt(fp.text, RowLine(Row(key, "", 0), codec));
      return false;
    }
    ok := AppendDbRow(fp, Row(key, "", 0), codec, memOk, diskOk);
  }

  /** A key with a tab, CR, LF or NUL in it is never read back, from any file. */
  lemma UncleanKeyIsNeverGot(file: string, key: string, now: int, codec: Codec)
    requires !CleanKey(key)
    ensures Got(file, key, now, codec) == None
  {
    hide LoadRows;
    if key in Latest(LoadRows(file, codec)) {
      LoadedKeyIsClean(file, key, codec);
    }
  }

  lemma LoadedKeyIsClean(file: string, key: string, codec: Codec)
    requires key in Latest(LoadRows(file, codec))
    ensures CleanKey(key)
  {
    hide LoadRows;
    var rows := LoadRows(file, codec);
    LoadedRowsAreStorable(file, codec);
    LatestKeepsKeys(rows);
    var j :| 0 <= j < |rows| && rows[j] == Latest(rows)[key];
  }

  lemma GotAfterAppend(file: string, r: Row, other: string, now: int, codec: Codec)
    requires Lossless(codec) && Terminated(file) && Storable(r)
    ensures Got(file + RowLine(r, codec), other, now, codec)
      == if other != r.key then Got(file, other, now, codec)
         else if IsLive(r, now) then Some(r.value) else None
  {
    hide LoadRows, RowLine, Terminated, Storable;
    AppendedRowIsRead(file, r, codec);
    LatestSnoc(LoadRows(file, codec), r);
  }

  /** set then get: the value comes back exactly when the key is clean and the time to live,
      if there is one, has not run out. */
  lemma SetThenGet(file: string, key: string, value: string, ttl: int, now: int, later: int, codec: Codec)
    requires Lossless(codec) && Terminated(file)
    requires '\0' !in value && value != "" && ttl >= 0 && now > 0 && IsLong(now + ttl)
    ensures var r := Row(key, value, ExpireAt(ttl, now));
      Got(file + RowLine(r, codec), key, later, codec) == Some(value)
      <==> CleanKey(key) && (ttl == 0 || later < now + ttl)
  {
    hide LoadRows, RowLine, Terminated, Got;
    var r := Row(key, value, ExpireAt(ttl, now));
    if CleanKey(key) {
      GotAfterAppend(file, r, key, later, codec);
    } else {
      UncleanKeyIsNeverGot(file + RowLine(r, codec), key, later, codec);
    }
  }

  /** set after a torn write is lost: get finds for the key what the complete lines already had. */
  lemma SetAfterTornWriteIsLost(file: string, r: Row, now: int, codec: Codec)
    requires Lossless(codec) && Storable(r) && r.value != "" && !Terminated(file)
    ensures var view := LiveView(TornLog(file, codec), now);
      Got(file + RowLine(r, codec), r.key, now, codec)
        == if r.key in view then Some(view[r.key].value) else None
  {
    hide LoadRows, RowLine, Terminated, Storable, TornLog, Latest;
    SwallowedKey(file, r, codec);
  }

  // ---------- set and delete, and the other keys ----------

  /** delete with a tab in the key makes a value: here the key k, which was not there, gets the value x. */
  lemma DeleteCanSetAnotherKey(now: int, codec: Codec)
    ensures Got(RowLine(Row("k\tx", "", 0), codec), "k", now, codec) == Some("x")
    ensures Got("", "k", now, codec) == None
  {
    hide ParseRow, TrimEol, Lines, Unfinished, ParseLines;
    var line := "k\tx\t\t0";
    assert Decimal(0) == "0";
    assert RowBody(Row("k\tx", "", 0), codec) == line;
    LinesOfOne(line);
    NotEarlyEither(line);
    TrimClean(line);
    ParseOneLine(line, codec);
    ExtraTab(codec);
    assert FileLines(line + ['\n']) == [line];
    assert RowLine(Row("k\tx", "", 0), codec) == line + ['\n'];
    EmptyFile(codec);
    LatestSnoc([], Row("k", "x", 0));
    assert [] + [Row("k", "x", 0)] == [Row("k", "x", 0)];
  }

  lemma NotEarlyEither(line: string)
    requires line == "k\tx\t\t0"
    ensures !EndsEarly(line)
  {
  }

  lemma ExtraTab(codec: Codec)
    ensures ParseRow("k\tx\t\t0", codec) == Some(Row("k", "x", 0))
  {
    hide IndexOf, ParseLong;
    var (line, rest) := ("k\tx\t\t0", "x\t\t0");
    assert line[1] == '\t' && line[2..] == rest && rest[1] == '\t' && rest[2..] == "\t0";
    IndexIsUnique(line, '\t', 1);
    IndexIsUnique(rest, '\t', 1);
    TabThenZero();
    assert line[..1] == "k" && rest[..1] == "x";
  }

  /** set with a line end in the key sets what follows it. */
  lemma SetCanSetAnotherKey(value: string, expireAt: int, now: int, codec: Codec)
    requires Lossless(codec) && '\0' !in value && value != "" && IsLong(expireAt)
    requires !IsExpired(Row("k", value, expireAt), now)
    ensures Got(RowLine(Row("x\nk", value, expireAt), codec), "k", now, codec) == Some(value)
  {
    hide LoadRows, Field, Decimal;
    var r := Row("k", value, expireAt);
    assert RowLine(Row("x\nk", value, expireAt), codec) == "x\n" + RowLine(r, codec);
    LinesOfOne("x");
    assert "x" + ['\n'] == "x\n";
    GotAfterAppend("x\n", r, "k", now, codec);
  }

  /** The line of the row is read as rows of the row's own key only. */
  ghost predicate OnlyOwnKey(r: Row, codec: Codec) {
    forall x :: x in LoadRows(RowLine(r, codec), codec) ==> x.key == r.key
  }

  ghost predicate NoOtherKeyChanges(r: Row, codec: Codec) {
    forall file, other, now :: Terminated(file) && other != r.key ==>
      Got(file + RowLine(r, codec), other, now, codec) == Got(file, other, now, codec)
  }

  /** Exactly when appending a row changes what get prints for no other key, in any file of complete
      lines at any time: when its line is read as rows of its own key only. */
  lemma OtherKeysAreUntouchedExactly(r: Row, codec: Codec)
    requires Lossless(codec)
    ensures NoOtherKeyChanges(r, codec) <==> OnlyOwnKey(r, codec)
  {
    hide LoadRows, RowLine, Terminated, Got, Lossless;
    if OnlyOwnKey(r, codec) {
      forall file, other, now | Terminated(file) && other != r.key
        ensures Got(file + RowLine(r, codec), other, now, codec) == Got(file, other, now, codec)
      {
        OwnKeyOnly(file, r, other, now, codec);
      }
    } else {
      var x :| x in LoadRows(RowLine(r, codec), codec) && x.key != r.key;
      var file, now := AnotherKeyChanges(r, x, codec);
      assert Terminated(file) && Got(file + RowLine(r, codec), x.key, now, codec) != Got(file, x.key, now, codec);
    }
  }

  lemma OwnKeyOnly(file: string, r: Row, other: string, now: int, codec: Codec)
    requires Terminated(file) && OnlyOwnKey(r, codec) && other != r.key
    ensures Got(file + RowLine(r, codec), other, now, codec) == Got(file, other, now, codec)
  {
    hide LoadRows, RowLine, Terminated;
    var (before, added) := (LoadRows(file, codec), LoadRows(RowLine(r, codec), codec));
    AppendedTextIsRead(file, RowLine(r, codec), codec);
    LatestOfConcat(before, added);
    LatestKeepsKeys(added);
    assert other !in Latest(added);
  }

  /** A file that shows the change: empty if the new row is live at some time, otherwise with a
      live row that the new one hides. */
  lemma AnotherKeyChanges(r: Row, x: Row, codec: Codec) returns (file: string, now: int)
    requires Lossless(codec) && x in LoadRows(RowLine(r, codec), codec)
    ensures Terminated(file) && Got(file + RowLine(r, codec), x.key, now, codec) != Got(file, x.key, now, codec)
  {
    hide LoadRows, RowLine, Terminated, Serialize, Storable;
    var rows := LoadRows(RowLine(r, codec), codec);
    LatestIsTheLastRow(rows, x.key);
    LatestKeepsKeys(rows);
    var y := Latest(rows)[x.key];
    now := if y.expireAt == 0 then 0 else y.expireAt - 1;
    if IsLive(y, now) {
      file := "";
      EmptyFile(codec);
      assert "" + RowLine(r, codec) == RowLine(r, codec);
    } else {
      var z := Row(x.key, "v", 0);
      LoadedKeyIsClean(RowLine(r, codec), x.key, codec);
      assert Storable(z) by { CleanIsStorable(z); }
      file := RowLine(z, codec);
      EmptyFile(codec);
      AppendedRowIsRead("", z, codec);
      assert "" + file == file && [] + [z] == [z];
      AppendedTextIsRead(file, RowLine(r, codec), codec);
      LatestOfConcat([z], rows);
      LatestSnoc([], z);
    }
  }

  lemma CleanIsStorable(z: Row)
    requires CleanKey(z.key) && z.value == "v" && z.expireAt == 0
    ensures Storable(z)
  {
  }

  /** set and delete with a clean key touch no other key. */
  lemma OtherKeysAreUntouched(file: string, r: Row, other: string, now: int, codec: Codec)
    requires Lossless(codec) && Terminated(file) && Storable(r) && other != r.key
    ensures Got(file + RowLine(r, codec), other, now, codec) == Got(file, other, now, codec)
  {
    hide LoadRows, RowLine, Got;
    GotAfterAppend(file, r, other, now, codec);
  }

  /** delete then get: nothing is printed, at any time, whatever the key. */
  lemma DeleteThenGet(file: string, key: string, later: int, codec: Codec)
    requires Lossless(codec) && Terminated(file)
    ensures Got(file + RowLine(Row(key, "", 0), codec), key, later, codec) == None
  {
    hide LoadRows, RowLine, Terminated, Got;
    if CleanKey(key) {
      GotAfterAppend(file, Row(key, "", 0), key, later, codec);
    } else {
      UncleanKeyIsNeverGot(file + RowLine(Row(key, "", 0), codec), key, later, codec);
    }
  }
}
