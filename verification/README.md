# A verified model of the stream data pipeline

The pipeline turns a growing byte file and its line-by-line sidecar into clips, and keeps the clip
records in an append-only key/value file. This project models the parts that carry its guarantees and
proves them for every input and every run: a class or a method with loops where the program changes
state in place, tied to functions on values, and lemmas about those functions.

| module | what it models |
|---|---|
| Machine, Text | 64-bit words, byte ranges, C strings, lines, decimal numbers |
| Events, ClipFsm | the tag set and the clip state machine, fields and all |
| ClipRuns, ClipLimits | what the machine guarantees over whole runs, and exactly for which inputs |
| DynamicBuffer | the growable buffer with its failure latch |
| ClipWindows | the records, times and completeness of each clip |
| MetaDrain, StreamMerge | the incremental line reader and the main loop of `stream_merge` |
| Sessions, MainLoop | what a whole session prints, and `stream_merge` from its start |
| ClipKeys, ClipIngest | from clips to database keys, and the ingest loop |
| Base64, RowFormat, RowCodec | the row format of the database, on values and in place |
| RowLog | logs of rows, the latest state, liveness, compaction |
| HashKey, RowIndex | the open-addressing index |
| StoreOps | the commands of `clip_store` |
| StoreLock, LockLimits | many processes on one database and one temporary file, and exactly when they are sequential |
| CsvOutput | CSV rows and a reader for them |
| Segments, EndToEnd, Delivery | the demo ingestor, and the way from the sent stream to the clips |

The main results, each composed from several modules:

* **No byte is lost, duplicated or reordered** (`ClipRuns.BytesAreConserved`,
  `EndToEnd.StreamToClips`, `Delivery.AnyArrivalToClips`): from the segments that the client sends, through fragments in any order, reassembly,
  file, sidecar text, arbitrary reads and idle timeouts, to the emitted clips.
* **Schedule independence** (`MetaDrain.ScheduleIndependence`, refined by the loops of
  `StreamMerge.Merger`); **what is printed** is the file, with the times of its records and the right mark
  (`MainLoop.RunStreamMerge`, `ClipWindows.ClipsAreTheirWindows`, `Sessions.MarksAreUnbroken`).
* **The index is a map** (`RowIndex.Index`), **the log is read back as written**
  (`RowFormat.LogRoundTrip`), **compaction is invisible** (`StoreOps.CompactedFileIsTransparent`) and
  **processes are serialized by the lock** (`StoreLock.Serializable`).
* **Every clip can be fetched** (`ClipIngest.EveryClipCanBeFetched`): from records through cutting,
  keys, row format and index to the answer of a lookup.

Where a natural property is false of the code, there is a lemma with an input that fails and one that
says exactly when it holds, in terms that can be checked before the run:

| property | fails for | holds exactly when |
|---|---|---|
| the clips are the whole file | `EndToEnd.LateRowLosesBytes` | `EndToEnd.IngestorToClipsExactly`, `EndToEnd.SidecarToClipsExactly` |
| no duplicate is accepted | `ClipLimits.DuplicateIsAcceptedAfterIdleReset` | `ClipLimits.NoDuplicateExactly` |
| no clip is empty | `ClipLimits.EmptyClipIsEmitted` | `ClipLimits.NoEmptyClipExactly` |
| the backlog is at most one target | `ClipRuns.LongRecordLeavesBacklog` | `ClipRuns.BacklogBoundIsExact` |
| clips have distinct keys | `ClipKeys.GapPartialsShareAKey` | `ClipKeys.DistinctSecondsExactly`; without gaps and timeouts `ClipKeys.OneSecondIsExact`, `ClipKeys.TwoSecondsAreExactForAllTimes` |
| an appended row is read back | `RowFormat.TornLineCapturesNextRow` | `RowFormat.AppendedRowIsReadExactly` |
| compaction is invisible | `RowLog.CompactionIsVisibleEarlier` | `RowLog.CompactionIsTransparentExactly`, `StoreOps.CompactedFileIsTransparentExactly` |
| concurrent runs are sequential | `LockLimits.StaleLockLosesRows`, `LockLimits.StaleCompactorLosesRows`, `LockLimits.ThreeCompactorsLoseEverything` | `LockLimits.SequentialExactly` |
| set and delete touch one key | `StoreOps.DeleteCanSetAnotherKey`, `StoreOps.SetCanSetAnotherKey` | `StoreOps.OtherKeysAreUntouchedExactly` |
| a set value can be got | `StoreOps.UncleanKeyIsNeverGot` | `StoreOps.SetThenGet` |
| a CSV row is recovered | `CsvOutput.NoFieldsLooksLikeOneEmptyField` | `CsvOutput.RecoveredExactlyWhenNonEmpty` |

Things outside the program are parameters: the JSON reader (`Env.parse`, `Extractor`), the compressor
(`Codec`, assumed lossless only where a lemma says so), the allocator's and the disk's answers
(`granted`, `grants`, `copied`, `memOk`, `diskOk`, `Faults`), the clock readings and the sizes of the
reads. Statements hold for every choice of them.

## Model

| member | source | states |
|---|---|---|
| Events.AddAllIsTruncation | applets/stream_merge/sm_events.c:35-46 | Giving up at the first refused tag keeps exactly the first sixteen distinct tags of everything offered so far, in order of first appearance: nothing that plain truncation would keep is lost. |
| Events.AddAllKeepsWellFormed | applets/stream_merge/sm_events.c:10-46 | Merging any tag list into a set leaves at most 16 tags, pairwise distinct, each non-empty and shorter than 64 characters. |
| Events.Dedup | applets/stream_merge/sm_events.c:20-24 | The reference list of distinct tags has no repetition and the same members as its input. |
| Events.EventSet.Reset | applets/stream_merge/sm_events.c:5-8 | The set is empty afterwards. |
| Events.EventSet.AddTag | applets/stream_merge/sm_events.c:10-33 | Accepts exactly a tag of 1 to 63 characters that is present already or finds fewer than 16 others, appends it only if it is new, and otherwise changes nothing; the array keeps its invariant. |
| Events.EventSet.AddAllTags | applets/stream_merge/sm_events.c:35-46 | The in-place loop leaves the specified merge of the two tag lists, and its result says whether every tag fitted. |
| Events.EventSet.CopyFrom | applets/stream_merge/sm_fsm.c:50 | The structure assignment of a record's tags replaces the contents. |
| Events.EventSet.Snapshot | applets/stream_merge/sm_fsm.c:26 | The tags copied into a clip are the contents of the set. |
| ClipFsm.TargetIsTight | applets/stream_merge/sm_fsm.c:5-15 | For a positive clip length the target is a multiple of the frame size, and 0 <= clip_ms * byte_rate - 1000 * target < 1000 * frame size; otherwise it is 0. |
| ClipFsm.TargetFitsAWord | applets/stream_merge/sm_fsm.c:10 | If clip_ms * byte_rate / 1000 fits 64 bits, so does the aligned target. |
| ClipFsm.ProcessKeepsSound | applets/stream_merge/sm_fsm.c:37-133 | Processing any record the reader lets through keeps the window's end equal to the expected offset and all counters below 2^55, so no 64-bit arithmetic wraps. |
| ClipFsm.Fsm.Start | applets/stream_merge/sm_fsm.c:37-51 | The 64-bit fields become those of a window opened by the record. |
| ClipFsm.Fsm.Append | applets/stream_merge/sm_fsm.c:54-62 | The window grows by the record in 64-bit arithmetic that the verifier shows cannot wrap; the tags are merged with the first-sixteen rule. |
| ClipFsm.Fsm.TakeSnapshot | applets/stream_merge/sm_fsm.c:18-27 | The clip holds the seven fields of the window. |
| ClipFsm.Fsm.MaybeCut | applets/stream_merge/sm_fsm.c:29-34 | Cuts one target off the front exactly when a continuous window holds at least one positive target, otherwise changes nothing. |
| ClipFsm.Fsm.ProcessRecord | applets/stream_merge/sm_fsm.c:93-133 | The in-place machine and its outcome refine the seven-way case split: invalid, start, late, empty restart, gap partial, continuous, boundary, append. |
| ClipFsm.Fsm.CheckIdleTimeout | applets/stream_merge/sm_fsm.c:135-147 | A partial clip and a full reset exactly when bytes are pending and the idle time has passed. |
| ClipFsm.Fsm.Flush | applets/stream_merge/sm_fsm.c:149-157 | A complete clip and a full reset exactly when bytes are pending. |
| ClipFsm.Fsm.Reset | applets/stream_merge/sm_fsm.c:87-91 | Every field is zeroed, tags included. |
| ClipRuns.BytesAreConserved | applets/stream_merge/sm_fsm.c:37-157 | For every sequence of records, idle checks and flushes: the emitted byte ranges followed by the pending range are, in order, the pending range before followed by the ranges of all records not rejected as late. |
| ClipRuns.FlushedRunEmitsEverything | applets/stream_merge/sm_fsm.c:149-157 | After a final flush nothing is pending and the clips are exactly the accepted bytes, in order. |
| ClipRuns.ReachableStatesAreSound | applets/stream_merge/sm_reader.c:55-84 | Every state reachable with records that the reader lets through keeps all counters inside 64 bits. |
| ClipRuns.NoClipSpansADiscontinuity | applets/stream_merge/sm_fsm.c:107-121 | Every clip of every run lies inside a block of accepted records in which each has the next sequence number and starts where the previous one ends. |
| ClipRuns.AcceptedSequencesIncrease | applets/stream_merge/sm_fsm.c:103-105 | Between resets the accepted sequence numbers strictly increase. |
| ClipRuns.SegmentIsTiled | applets/stream_merge/sm_fsm.c:71-85 | Within one segment the k-th continuous clip starts k targets and k clip lengths after the start, spans exactly one target and one clip length, and the backlog begins where the last clip ends. |
| ClipRuns.SegmentFromStartIsTiled | applets/stream_merge/sm_fsm.c:98-101 | The same counted from the record that opens the segment, its own first cut being clip 0. |
| ClipRuns.TimeFollowsBytes | applets/stream_merge/sm_fsm.c:77-81 | Within a segment with a positive target, the media time cut off is at most twice what the bytes cut off are worth at the byte rate. |
| ClipRuns.BacklogIsBounded | applets/stream_merge/sm_fsm.c:119-122 | With uniform continuous records no longer than a positive target the backlog never exceeds one target, through gaps and resets alike. |
| ClipRuns.BacklogBoundIsExact | applets/stream_merge/sm_fsm.c:71-85 | Uniform records of at most a given length keep the backlog within one target in every run if and only if that length does not exceed the target. |
| ClipRuns.ExcessPilesUp | applets/stream_merge/sm_fsm.c:71-85 | Because only one clip is cut per record, n longer records in a row leave exactly n times the excess behind. |
| ClipRuns.LongRecordLeavesBacklog | applets/stream_merge/sm_fsm.c:71-85 | A concrete single record whose backlog after the cut exceeds the target. |
| ClipRuns.MetadataClipsAreShort | applets/stream_merge/sm_fsm.c:124-132 | Without continuous records every clip of every run is shorter than the clip length and of metadata kind. |
| ClipRuns.ClockIsTheLastFeed | applets/stream_merge/sm_fsm.c:45 | Between resets the wall clock field is the time of the last accepted record; rejected ones do not touch it. |
| ClipRuns.TimeoutMeansSilence | applets/stream_merge/sm_fsm.c:135-147 | An idle check cuts a partial clip if and only if bytes are pending and no record was accepted for the idle time; the clip is then the whole pending range. |
| ClipRuns.ClipEventsAreTheFirstSixteen | applets/stream_merge/sm_fsm.c:50-83 | Every clip of every run carries the first sixteen distinct tags, in order of first appearance, of the records folded in since the last start or continuous cut. |
| ClipLimits.RejectedRecordsLeaveNoTrace | applets/stream_merge/sm_fsm.c:94-105 | In every run, dropping the late, duplicate and invalid records changes neither the clips nor the final state. |
| ClipLimits.AcceptedAreTheRunningMaxima | applets/stream_merge/sm_fsm.c:103-121 | Between resets the accepted records are exactly the running maxima: the valid ones whose number exceeds those of all valid ones before them, gaps and cuts notwithstanding. |
| ClipLimits.IncreasingFeedsAreAccepted | applets/stream_merge/sm_fsm.c:98-105 | Records with strictly increasing numbers are never late, wherever timeouts and flushes fall. |
| ClipLimits.WithoutResetsNothingIsLostExactly | applets/stream_merge/sm_fsm.c:103-105 | A run without resets loses no byte if and only if every record with bytes has a larger number than all records before it. |
| ClipLimits.NoRunLosesBytesExactly | applets/stream_merge/sm_fsm.c:93-157 | No run over given records loses a byte, whatever the timeouts and flushes, if and only if they ascend in that sense. |
| ClipLimits.DuplicateIsAcceptedAfterIdleReset | applets/stream_merge/sm_fsm.c:144-146 | Across an idle reset duplicates get through: for every setting, a record, an idle timeout and the same record again are accepted twice. |
| ClipLimits.NoDuplicateExactly | applets/stream_merge/sm_fsm.c:98-105 | Over valid records that leave bytes pending after their own first cut, the accepted numbers strictly increase in every run, whatever the timeouts and flushes, if and only if the numbers of the records themselves do. |
| ClipLimits.EmptyClipIsEmitted | applets/stream_merge/sm_fsm.c:124-128 | A concrete run from the start that emits a clip without bytes. |
| ClipLimits.PiecesLeave | applets/stream_merge/sm_fsm.c:71-85 | After n equal pieces no longer than the target, the window holds what is left of n lengths after whole targets are taken away, less than one target. |
| ClipLimits.NoEmptyClipExactly | applets/stream_merge/sm_fsm.c:71-85 | For any set of record shapes (length, continuity, rate, alignment): no run over them, with any places, times, timeouts and flushes, emits an empty clip if and only if no shape that can drain a window (no bytes, or continuous and no longer than its target) occurs together with one that cannot join it. |
| ClipWindows.ClipsAreTheirWindows | applets/stream_merge/sm_fsm.c:37-61 | In every run without continuous records each clip is exactly the records folded into it: it starts at the time and place of the first, ends at the time and end of the last, and its bytes are theirs in order. |
| ClipWindows.ClipsEndWithTheirRecords | applets/stream_merge/sm_fsm.c:54-61 | In every run, continuous records or not, a clip that is not cut by bytes ends at the time of the last record folded into it, or at its start if there was none since the last cut. |
| ClipWindows.WindowsDivideTheRecords | applets/stream_merge/sm_fsm.c:93-157 | For records with bytes and without continuity fields, the windows of the clips in order, followed by the open one, are exactly the accepted records. |
| ClipWindows.CompleteMeansUnbroken | applets/stream_merge/sm_fsm.c:112-156 | In every run a clip is complete if and only if its window was not broken off: by a record that does not follow the last accepted one without a gap or offset jump, or by an idle check. |
| ClipWindows.LinkedRunsAreUnbroken | applets/stream_merge/sm_fsm.c:107-117 | Records that follow each other without gap and jump, and idle checks that cut nothing, break off no window. |
| MetaDrain.ScheduleIndependence | applets/stream_merge/stream_merge.c:101-149 | Two schedules that read the same sidecar bytes, with any chunking, drain points and clocks, and no timeout firing, print the same clips including the final flush, and leave states that differ at most in the wall clock field. |
| MetaDrain.ScheduleIsOneDrain | applets/stream_merge/stream_merge.c:315-361 | Any schedule of drains and silent idle checks equals reading all its bytes at once with a stopped clock. |
| MetaDrain.FeedingIgnoresClock | applets/stream_merge/sm_fsm.c:45-59 | Feeding the same lines with different clocks prints the same and differs at most in the wall clock field. |
| MetaDrain.FeedFirstOfPending | applets/stream_merge/stream_merge.c:116-147 | Feeding the first complete line and then the rest equals feeding all complete lines. |
| MetaDrain.NoiseIsIgnored | applets/stream_merge/stream_merge.c:125-138 | Blank, malformed and invalid lines and lines of another kind have no influence on the clips, wherever they stand and whatever the clock. |
| MetaDrain.FreshDataPreventsTimeout | applets/stream_merge/stream_merge.c:335-356 | If a drain accepts a record and its clock readings lie less than the idle time back, the idle check after it cuts nothing. |
| MetaDrain.ScheduleIsARun | applets/stream_merge/stream_merge.c:126-139 | Every schedule, timeouts included, is a run of the machine over the data rows of its complete lines, and prints that run's clips. |
| MetaDrain.SessionIsARun | applets/stream_merge/stream_merge.c:359-368 | The same for a whole session with its final flush. |
| MetaDrain.PrintedIsEverything | applets/stream_merge/stream_merge.c:28-96 | No clip that the machine emits is dropped by the printing code's check of the active flag. |
| StreamMerge.Merger.Print | applets/stream_merge/stream_merge.c:85-96 | The clip of an emitting outcome is printed with its mark; a late record prints nothing. What the mark means is `Sessions.MarksAreUnbroken`. |
| StreamMerge.Merger.ReadAll | applets/stream_merge/stream_merge.c:103-114 | Reading in pieces of 1 to 4096 bytes, however they fall, appends exactly the available bytes; it fails and latches the buffer only if memory is refused or the size overflows. |
| StreamMerge.Merger.FindNewline | applets/stream_merge/stream_merge.c:117 | Finds the first newline of the buffered text. |
| StreamMerge.Merger.Consume | applets/stream_merge/stream_merge.c:142-146 | The in-place move removes exactly the consumed prefix and restores the terminator. |
| StreamMerge.Merger.Feed | applets/stream_merge/stream_merge.c:125-139 | A line is parsed, fed and printed as specified; blank, malformed, invalid and other rows change nothing. |
| StreamMerge.Merger.FeedFirstLine | applets/stream_merge/stream_merge.c:116-147 | One turn of the line loop feeds and removes the first complete line, or reports that there is none and changes nothing. |
| StreamMerge.Merger.FeedBufferedLines | applets/stream_merge/stream_merge.c:116-147 | The line loop terminates and feeds every complete line in order, keeping the unfinished one. |
| StreamMerge.Merger.DrainMeta | applets/stream_merge/stream_merge.c:101-149 | A drain equals the specified drain; it succeeds whenever memory is granted and the unfinished text with the new bytes fits, and on failure nothing is fed or printed. |
| StreamMerge.Merger.CheckIdleNow | applets/stream_merge/stream_merge.c:152-160 | The idle check equals the specified one. |
| StreamMerge.Merger.TakeTurn | applets/stream_merge/stream_merge.c:335-356 | One turn of the main loop is the drain, if the sidecar was readable, followed by the idle check: with fresh data in the drain its clips are all that is printed and no window is cut by the check. It fails, printing nothing, only when the drain does. |
| StreamMerge.Merger.Serve | applets/stream_merge/stream_merge.c:307-368 | The whole main loop prints exactly the clips of the specified session and succeeds whenever memory is granted and the sidecar fits; if it ends early it has printed a first part of the session's clips. |
| StreamMerge.SessionReadsEverything | applets/stream_merge/stream_merge.c:311-361 | The loop reads, in order, what the first drain, the turns and the last drain find: no byte of the sidecar is left unread. |
| StreamMerge.Merger.FlushNow | applets/stream_merge/stream_merge.c:362-368 | The final flush prints the specified clip, if there is one. |
| Sessions.MarksAreUnbroken | applets/stream_merge/stream_merge.c:85-96 | In every session the k-th clip is printed as complete if and only if its window was not broken off by a gap, an offset jump or an idle timeout. |
| Sessions.LinkedSessionIsComplete | applets/stream_merge/stream_merge.c:85-96 | A session without gap, offset jump and timeout prints only complete clips. |
| Sessions.SessionClipsAreTheirWindows | applets/stream_merge/stream_merge.c:43-60 | Without continuous records the printed clips are exactly the records folded into them, in time and place. |
| Sessions.SessionWindowsDivideTheRecords | applets/stream_merge/stream_merge.c:311-368 | With bytes in every record, these windows are together exactly the accepted records of the session, in order. |
| MainLoop.RunStreamMerge | applets/stream_merge/stream_merge.c:307-376 | From the zeroed machine and buffer: if what the first drain, the turns and the last drain find is together the text of an ordered sidecar, the clips printed on success are exactly the bytes of the file in order; it succeeds whenever memory is granted and the text fits. |
| MainLoop.PrintedTimesAreTheRows | applets/stream_merge/stream_merge.c:43-60 | Whatever the chunking, clocks and timeouts: every printed clip starts at the place and time of a sidecar row and ends at the end and time of one. |
| ClipKeys.StartTimesAreSpaced | applets/stream_merge/sm_fsm.c:77-84 | Without gaps and timeouts, successive clips of a run start at least one clip length apart. |
| ClipKeys.ClipSecondsAreDistinct | applets/stream_merge/stream_merge.c:33 | In such a session, flush included, all clips have different seconds when the clip length is at least 1000 ms and no timestamp is negative, or at least 1999 ms with any timestamps. |
| ClipKeys.OneSecondIsExact | applets/stream_merge/stream_merge.c:33 | With non-negative timestamps every such session has distinct seconds if and only if the clip length is at least 1000 ms. |
| ClipKeys.TwoSecondsAreExactForAllTimes | applets/stream_merge/stream_merge.c:33 | With any timestamps the exact bound is 1999 ms, because C division truncates toward zero. |
| ClipKeys.GapPartialsShareAKey | applets/stream_merge/stream_merge.c:33 | Without the no-gap condition it fails for every clip length: two windows closed by gaps in one second have the same key. |
| ClipKeys.DistinctSecondsExactly | applets/stream_merge/stream_merge.c:33 | Over non-empty, valid, non-continuous records, all clips of every run, whatever the gaps, timeouts and flushes, have different seconds if and only if the records themselves do. |
| ClipKeys.DifferentSecondsAreKept | applets/clip_store/clip_store.c:267-276 | Last-write-wins storage keeps every clip of any session whose clips have different seconds. |
| ClipKeys.Seconds | applets/stream_merge/stream_merge.c:33 | The whole seconds of a time, toward zero. |
| ClipKeys.ClipKeyIsReadBack | applets/clip_store/clip_store.c:272-275 | A key falls apart at its first colon into the session, if that has none, and the number. |
| ClipKeys.ClipKeyIsInjective | applets/clip_store/clip_store.c:272-275 | For one session, different seconds give different `session_id:ts` keys. |
| ClipKeys.NoClipIsOverwritten | applets/clip_store/clip_store.c:267-276 | In sessions without gaps and timeouts, under the bounds above, last-write-wins storage keeps every clip. |
| Text.LinesOfTwoPieces | applets/stream_merge/stream_merge.c:116-147 | Splitting a text in two pieces and carrying the unfinished line over yields the same lines. |
| Text.DecimalRoundTrip | applets/clip_store/db_format.c:50-54 | Printing with `%ld` and reading with strtol is the identity on every 64-bit value. |
| Text.ParseLongExactly | applets/clip_store/db_format.c:50-54 | A whole string is accepted if and only if it is white space, an optional sign and at least one digit. |
| Text.ParseLongReads | applets/clip_store/db_format.c:50-54 | Its value is that of the digits with the sign, kept inside a 64-bit long. |
| Text.DecimalIsInjective | applets/clip_store/clip_store.c:268 | Different numbers print differently. |
| DynamicBuffer.Buffer.Reserve | lib/dynamic_buffer.c:42-95 | Succeeds exactly when the buffer has not failed, the size does not overflow, and the room is there or granted; keeps the contents; a failure latches and changes neither block nor capacity. |
| DynamicBuffer.Buffer.NextCapacity | lib/dynamic_buffer.c:73-81 | The doubling loop terminates without overflow with at least the needed capacity, at least twice the old one unless it is above half the maximum. |
| DynamicBuffer.Buffer.AppendChar | lib/dynamic_buffer.c:97-106 | Succeeds exactly when the buffer has not failed, the size does not overflow and the room is there or granted, and then appends the character; otherwise latches and leaves the contents. The terminator stays at `len`, and the capacities requested so far stay within twice the current one while it is at most half the maximum. |
| DynamicBuffer.Buffer.AppendMem | lib/dynamic_buffer.c:109-133 | Succeeds exactly as for a character, with a null source an error unless the length is zero, and then appends exactly the given bytes, NUL included; otherwise latches and leaves the contents. |
| DynamicBuffer.Buffer.AppendStr | lib/dynamic_buffer.c:135-148 | Succeeds exactly when there is a string, no earlier failure and room or a grant, and then appends it; otherwise latches and leaves the contents. |
| DynamicBuffer.Buffer.Reset | lib/dynamic_buffer.c:26-36 | Empties the contents and clears the latch, keeping the block. |
| DynamicBuffer.Buffer.Free | lib/dynamic_buffer.c:15-24 | Drops everything. |
| Base64.EncodeInto | lib/base64.c:4-21 | Writes exactly the encoding and a terminator and nothing past it, if and only if there is room; otherwise the output is untouched. No access is out of bounds. |
| Base64.PutGroups | lib/base64.c:8-17 | The group loop writes the alphabet character of every 6-bit piece, reading zero past the end of the input, and nothing past the encoded length. |
| Base64.DecodeInto | lib/base64.c:30-50 | For non-empty text succeeds if and only if the length is a multiple of four, every character has a value and the output fits, and then writes exactly the decoded bytes. |
| Base64.GetGroups | lib/base64.c:36-47 | The group loop fails exactly on a character without a value, and otherwise fills the output up to the cut-off with the bytes of each group, never past it. |
| Base64.EncodingIsPadded | lib/base64.c:4-21 | The encoded length is 4 * ceil(n / 3); the text is alphabet characters followed by the padding alone. |
| Base64.DecodeInvertsEncode | lib/base64.c:4-50 | Decoding inverts encoding on every non-empty byte sequence. |
| Base64.EncodeFollowsRfc4648 | lib/base64.c:4-21 | On every input the encoding equals the recursive definition of section 4 of RFC 4648, with its own alphabet table and its two special final groups. |
| Base64.AlphabetIsRfc | lib/base64.c:22-29 | The decoder accepts, besides the padding, exactly the characters of Table 1 of RFC 4648, each with its own value. |
| RowLog.LatestIsTheLastRow | applets/clip_store/db_query.c:158-183 | The last-write-wins state of a log agrees with a naive backward scan for every key, present or absent. |
| RowLog.CompactionIsTransparent | applets/clip_store/db_compact.c:45-59 | For every log, later appends and reader time not before the compaction, the live view with and without the compaction is the same. |
| RowLog.CompactionIsVisibleEarlier | applets/clip_store/db_format.c:21 | For a reader before the compaction time it fails: a row that expired in between is gone. |
| RowLog.CompactionIsTransparentExactly | applets/clip_store/db_format.c:15-27 | For any reader time: a compaction is invisible under all later appends if and only if no latest row that is live at that time has expired by the compaction; from the compaction on it always is. |
| RowLog.OneRowPerLiveKey | applets/clip_store/db_compact.c:45-59 | A compacted log has exactly one row per live key. |
| RowLog.CompactionIsIdempotent | applets/clip_store/db_compact.c:45-59 | Compacting again at the same time gives a permutation of the same rows. |
| RowLog.LastPosition | applets/clip_store/db_query.c:158-183 | The reference scan returns a row of the key after which no row has that key. |
| HashKey.ComputeHash | applets/clip_store/db_query.c:50-57 | The loop computes the FNV-1a fold of the key, wrapping at 64 bits. |
| HashKey.FnvTestVectors | applets/clip_store/db_query.c:10-11 | The hashes of the empty key and of "a" are the published 64-bit FNV-1a values. |
| HashKey.MaskIsRemainder | applets/clip_store/db_query.c:67-68 | Masking with a power of two minus one is taking the remainder, so every probe stays inside the table. |
| HashKey.HomeBucket | applets/clip_store/db_query.c:67-68 | The first probe is the home bucket of the key. |
| RowIndex.InsertKeepsTable | applets/clip_store/db_query.c:171-180 | Storing a row in the empty bucket where its own probe ended keeps every probe chain unbroken and every key unique, and adds exactly that key to the map. |
| RowIndex.ReplaceKeepsTable | applets/clip_store/db_query.c:182 | Overwriting a bucket of the same key keeps the table sound and updates exactly that key. |
| RowIndex.WalkProvesAbsence | applets/clip_store/db_query.c:69-77 | A walk over used buckets without the key that ends at an empty one proves that the key is nowhere in the table. |
| RowIndex.Index.FindSlot | applets/clip_store/db_query.c:66-78 | The probe loop terminates because the load is under three quarters; it finds the key if and only if the map has it, and otherwise stops at the first empty bucket of its chain. |
| RowIndex.Index.Grow | applets/clip_store/db_query.c:104-133 | Leaves the map and `len` unchanged; on success the load with one more row is under three quarters; on failure nothing changes. |
| RowIndex.GrownCapacity | applets/clip_store/db_query.c:105-108 | The doubling loop terminates at a power of two with the load under three quarters, and no smaller doubling would do. |
| RowIndex.Index.Rehash | applets/clip_store/db_query.c:118-127 | Moving every row into the larger table preserves the map. |
| RowIndex.Index.Occupy | applets/clip_store/db_query.c:173-179 | Filling an empty bucket adds one row to the map and one to `len`. |
| RowIndex.Index.Overwrite | applets/clip_store/db_query.c:141-155 | Replacing a row in place changes the map at its key only. |
| RowIndex.Index.Put | applets/clip_store/db_query.c:166-183 | The index becomes the map with the row under its key, or, when an allocation fails, the map it was. |
| RowIndex.Index.Get | applets/clip_store/db_query.c:185-192 | Returns the row of the key, or nothing exactly when the map has none. |
| RowIndex.NextSlot | applets/clip_store/db_query.c:74 | The next bucket is the following one, cyclically. |
| RowFormat.RowSurvives | applets/clip_store/db_format.c:105-157 | A row with a clean key and a 64-bit expiry time parses back to itself from its written line, tombstones included. |
| RowFormat.PlainValueIsRead | applets/clip_store/db_format.c:56-60 | A value field without the `Z:` mark is read as it stands. |
| RowFormat.AppendedTextIsRead | applets/clip_store/db_query.c:203-215 | Whatever text is appended to a file of complete lines is read after what was there. |
| RowFormat.AppendedRowIsRead | applets/clip_store/db_format.c:105-157 | Appending a row to a file of complete lines, whatever is in it, appends exactly that row to what is read. |
| RowFormat.AppendedRowsAreRead | applets/clip_store/db_query.c:203-215 | The same for any number of rows. |
| RowFormat.TornLineCapturesNextRow | applets/clip_store/db_format.c:109-128 | After a torn write without a tab the next row is read under its key with the torn text in front. |
| RowFormat.AppendedRowIsReadExactly | applets/clip_store/db_format.c:105-157 | For every file: a row with a value is read back as itself if and only if the file ended with a newline, wherever its last line was torn; a tombstone too, if the torn line has no tab. |
| RowFormat.AppendedRowIsSwallowed | applets/clip_store/db_format.c:29-103 | What is read after a row is appended to an unfinished line: nothing new behind a CR or NUL; not even the unfinished row behind a tab; otherwise the row with the torn text in front of its key. |
| RowFormat.TornTombstoneCanSurvive | applets/clip_store/db_format.c:113-118 | A concrete torn line with a tab after which a tombstone is read back as itself. |
| RowFormat.LogRoundTrip | applets/clip_store/db_query.c:203-215 | A file made by appending rows is read back as exactly those rows in order. |
| RowFormat.LoadedRowsAreStorable | applets/clip_store/db_format.c:29-103 | Whatever bytes a file holds, every row read from it has a clean key and can be written back. |
| RowFormat.PlainField | applets/clip_store/db_format.c:120-146 | A written value field has no tab, line end or NUL, whatever the compressor returns. |
| RowCodec.StrChr | applets/clip_store/db_format.c:36-43 | Finds the first occurrence from a position in the C string, or its terminator, inside the buffer. |
| RowCodec.CutAtTabs | applets/clip_store/db_format.c:35-47 | The in-place cut returns the three fields around the first two tabs and changes no other character. |
| RowCodec.ParseDbRow | applets/clip_store/db_format.c:29-103 | Parses the line held in the buffer to the specified row or refuses it, changing only those two tabs. |
| RowCodec.DecodeField | applets/clip_store/db_format.c:60-100 | Decodes a `Z:` field through Base64 and the decompressor, fails if either does, and takes any other field as it is. |
| RowCodec.DecodeText | applets/clip_store/db_format.c:61-69 | Decodes into a buffer one byte longer than the text, which is always large enough. |
| RowCodec.EncodeField | applets/clip_store/db_format.c:130-139 | The buffer of the source is large enough, and the field is `Z:` and the Base64 text. |
| RowCodec.AppendDbRow | applets/clip_store/db_format.c:105-157 | Appends exactly the line of the row: key, tab, nothing or `Z:` and the Base64 text of the compressed value, tab, expiry time, newline; on failure at most a prefix of it was written. |
| RowCodec.File.Print | applets/clip_store/db_format.c:116 | A successful write appends the text, a failed one some prefix of it. |
| StoreOps.TrimLine | applets/clip_store/db_query.c:204 | Cutting at the first CR or LF leaves the specified C string. |
| StoreOps.LoadLatestRows | applets/clip_store/db_query.c:194-219 | The index becomes the last-write-wins state of the file's parsable rows on top of what it held; unparsable lines are skipped; only an allocation failure makes it fail. |
| StoreOps.GetValue | applets/clip_store/clip_store.c:213-222 | Prints the value of the key in the live view of the file, or nothing if it is not there. |
| StoreOps.BucketsListTheView | applets/clip_store/clip_store.c:90-103 | Walking all buckets of an index that stands for a log meets every live matching key exactly once, with its latest row, and nothing else. |
| StoreOps.CollectRows | applets/clip_store/clip_store.c:90-103 | The loop over the buckets prints the key and value of every live matching row in bucket order. |
| StoreOps.PrintRows | applets/clip_store/clip_store.c:83-107 | List and prefix mode print each live matching key once with its latest value, and nothing else: every printed key is the prefix followed by something, and every live key of that form is printed. |
| StoreOps.WriteLiveRows | applets/clip_store/db_compact.c:45-59 | The write loop leaves exactly the lines of the live rows in bucket order. |
| StoreOps.MakeTemp | applets/clip_store/db_compact.c:30-69 | The temporary file holds exactly the lines of the live rows, or is gone after a failure; no other path changes. |
| StoreOps.RewriteCompact | applets/clip_store/db_compact.c:12-79 | On success the path holds a compaction of what was readable and the temporary file is gone; it succeeds whenever nothing outside fails and the temporary path is short enough; on every failure the database, and every path but the temporary one, is unchanged. |
| StoreOps.FileSystem.Rename | applets/clip_store/db_compact.c:73-76 | A rename moves the contents and removes the old name, or changes nothing. |
| StoreOps.CompactedFileIsTransparent | applets/clip_store/db_compact.c:12-79 | At the level of file texts: for a file of complete lines, after a compaction and any appended text, torn writes and unclean keys included, every reader not before it sees what it would have seen without it. |
| StoreOps.CompactedFileIsTransparentExactly | applets/clip_store/db_compact.c:12-79 | For every file: a compaction is invisible under every appended text to all readers not before it if and only if the file ended with a newline; otherwise the next row survives only in the compacted file. |
| StoreOps.SplitSetArg | applets/clip_store/clip_store.c:61-74 | Splits at the first equals sign, refusing a missing or leading one, and changes no other character. |
| StoreOps.SetCommand | applets/clip_store/clip_store.c:223-232 | Appends exactly the row of key, value and expiry time, and if nothing outside fails it refuses exactly the arguments that are not a non-empty key, an equals sign and a non-empty value. |
| StoreOps.DeleteCommand | applets/clip_store/clip_store.c:233-240 | Appends exactly a tombstone that never expires; an empty key is refused and the file left alone. |
| StoreOps.SetThenGet | applets/clip_store/clip_store.c:213-232 | After set, get prints the value if and only if the key is free of tab, CR, LF and NUL and the time to live has not run out. |
| StoreOps.SetAfterTornWriteIsLost | applets/clip_store/clip_store.c:223-232 | After set on a file with an unfinished line, get finds for the key what the complete lines already had: the new value is swallowed. |
| StoreOps.DeleteThenGet | applets/clip_store/clip_store.c:233-240 | After delete, get prints nothing at any time, whatever the key. |
| StoreOps.OtherKeysAreUntouched | applets/clip_store/clip_store.c:213-240 | Set and delete with a clean key change what get prints for no other key, at any time. |
| StoreOps.OtherKeysAreUntouchedExactly | applets/clip_store/clip_store.c:213-240 | For every row, unclean keys included: appending it changes what get prints for no other key, in any file of complete lines and at any time, if and only if its line is read as rows of its own key only. |
| StoreOps.DeleteCanSetAnotherKey | applets/clip_store/clip_store.c:233-240 | A delete whose key has a tab gives another key, which did not exist, a value. |
| StoreOps.SetCanSetAnotherKey | applets/clip_store/clip_store.c:223-232 | A set whose key has a line end sets the key after it. |
| StoreOps.UncleanKeyIsNeverGot | applets/clip_store/db_query.c:221-245 | A key with a tab, CR, LF or NUL is not found in any file. |
| StoreLock.StepKeepsInv | applets/clip_store/clip_store.c:192-287 | Every open, lock, write, load, copy, rename, failure, crash or close step keeps: the file behind the path is the replay of the recorded effects in lock order; its worker is the last recorded process; the shared temporary file belongs to it alone and holds what it has copied; every process has done a prefix of its own job. |
| StoreLock.Serializable | applets/clip_store/clip_store.c:192-287 | For any number of processes sharing one temporary file and any interleaving in which no compactor locks a replaced file, with failures and crashes: the database is what the processes that locked the file behind the path would leave one after the other in lock order, each writer's rows one block. |
| StoreLock.CompactionsAreInvisible | applets/clip_store/db_compact.c:72-76 | A history with faithful compactions has, for readers not before them, the same live view as the one without. |
| StoreLock.FinalViewIsSequential | applets/clip_store/clip_store.c:192-287 | The final live view is the last-write-wins view of all rows of that history in lock order, however many compactions ran in between. |
| LockLimits.FreshLocksAreSequential | applets/clip_store/clip_store.c:192-287 | A run in which every process locks the file behind the path is sequential: every reader not before any compaction sees the last-write-wins view of the rows of all processes that got a lock, in lock order. |
| LockLimits.OneCompactorAtWork | applets/clip_store/db_compact.c:24-76 | With at most two compactors and nothing to write, two compactors are never at work at the same time, so they never share the temporary file. |
| LockLimits.SequentialExactly | applets/clip_store/db_compact.c:24-76 | For given jobs, every run, from every log, with every interleaving, failure, crash, prefix and reader not before any compaction, is sequential in that sense if and only if the jobs do not hold both a compactor and a writer with at least one row, and hold at most two compactors. |
| LockLimits.StaleLockLosesRows | applets/clip_store/clip_store.c:192-198 | For any compactor and any writer with a row there is a run in which the writer locks too late and its first row is missing behind the path. |
| LockLimits.StaleCompactorLosesRows | applets/clip_store/clip_store.c:192-198 | For any two compactors and any writer with a row there is a run in which a compactor that locked too late erases the row of the writer, which did not. |
| LockLimits.ThreeCompactorsLoseEverything | applets/clip_store/db_compact.c:31 | For any three compactors there is a run without a writer in which one of them empties the temporary file that another one then renames: the database of one live row is empty. |
| ClipIngest.StripLine | applets/clip_store/clip_store.c:254-257 | The result is the C string of the line without the CR and LF characters at its end: only such characters are cut, and none is left. |
| ClipIngest.BuildKey | applets/clip_store/clip_store.c:273-275 | Builds `session_id:ts` whenever memory is granted. |
| ClipIngest.Ingest | applets/clip_store/clip_store.c:251-283 | Appends the row of every well-formed line in order and skips the others, and succeeds whenever nothing outside fails; a failure ends it in some line, with all rows of the lines before and at most a part of that row written. |
| ClipIngest.LineIsStoredAsItsText | applets/clip_store/clip_store.c:254-257 | Of a line that ends in LF or CR LF, the text in front is stored. |
| ClipIngest.LinesAreIngestedOneByOne | applets/clip_store/clip_store.c:251-283 | Every line stands for itself: skipped if a field is missing, otherwise stored as its own row, whatever comes before. |
| ClipIngest.EveryClipCanBeFetched | applets/clip_store/clip_store.c:251-283 | From records to lookups: in a session without gaps and timeouts, with clips of at least a second, the JSON text of every clip, sent as a line ending in LF or CR LF, can be read back under its own key as long as it lives, and not afterwards. |
| CsvOutput.AppendCsvField | applets/log_parse/log_output_format.c:42-62 | Appends the field, quoted with doubled quotes exactly when it has a comma, quote, CR or LF; fails and latches the buffer only if memory is refused, the size overflows or it had failed before. |
| CsvOutput.AppendDoubled | applets/log_parse/log_output_format.c:51-56 | The character loop appends the text with every quote doubled, under the same conditions. |
| CsvOutput.AppendEscaped | applets/log_parse/log_output_format.c:52-55 | One turn of the loop appends the character, a quote twice, under the same conditions. |
| CsvOutput.EmitCsv | applets/log_parse/log_output_format.c:64-75 | The text handed to standard output is the whole row: fields, commas, newline; it is produced whenever memory is granted and the row fits. |
| CsvOutput.VerbatimExactly | applets/log_parse/log_output_format.c:43-49 | A field is emitted as it is if and only if it has no comma, quote, CR or LF. |
| CsvOutput.RowIsRead | applets/log_parse/log_output_format.c:42-72 | A reader after section 2 of RFC 4180, with LF line ends, recovers exactly the fields of any non-empty row and stops at its end, whatever follows. |
| CsvOutput.TextIsRead | applets/log_parse/log_output_format.c:42-72 | Concatenated rows split back into the same rows, newlines inside fields included. |
| CsvOutput.RecoveredExactlyWhenNonEmpty | applets/log_parse/log_output_format.c:66-71 | A row is recovered if and only if it has a field. |
| CsvOutput.NoFieldsLooksLikeOneEmptyField | applets/log_parse/log_output_format.c:66-72 | The failing input: no field and one empty field give the same text. |
| Segments.SendSegment | scripts/example/full-run/udp_stream_data_client.py:149-171 | Sends exactly the numbered fragments in order, and refuses exactly an empty segment or a fragment size that is not positive. |
| Segments.FragmentsRebuild | scripts/example/full-run/udp_stream_data_client.py:156-159 | The fragments of a segment concatenate to the segment, for every positive fragment size. |
| Segments.FragmentsAreFull | scripts/example/full-run/udp_stream_data_client.py:156-159 | All fragments but the last have the full size, and the last one is not empty. |
| Segments.Session.Write | scripts/example/full-run/udp_stream_data_server.py:68-86 | The chunk is appended to the file and described by a new sidecar row; the rows keep tiling the file from 0 to its end. |
| Segments.Session.WriteSegmentFragment | scripts/example/full-run/udp_stream_data_server.py:92-109 | The in-place update of the session equals the specified step for every packet, malformed numbers and changed counts included, and keeps the tiling. |
| Segments.Session.JoinAll | scripts/example/full-run/udp_stream_data_server.py:107 | The joined segment is the parts in index order. |
| Segments.TilesGrow | scripts/example/full-run/udp_stream_data_server.py:69-84 | A row at the current end of a tiled file keeps the tiling. |
| Segments.ReceiveKeepsBounded | scripts/example/full-run/udp_stream_data_server.py:92-109 | Only indices below the announced count are ever stored, so the join never misses a part. |
| Segments.ReassemblyIsExact | scripts/example/full-run/udp_stream_data_server.py:92-109 | In any arrival order, with duplicates and other traffic: a key's segment is written once for every time its fragments have been collected in full, always as the original bytes. |
| Segments.SegmentIsWrittenOnce | scripts/example/full-run/udp_stream_data_server.py:92-109 | If all fragments arrive and duplicates come only before the last missing one, there is exactly one write, of the original bytes. |
| Segments.ChangedCountStartsOver | scripts/example/full-run/udp_stream_data_server.py:99-102 | A packet that announces another number of fragments writes nothing and drops what was collected for its key, which is collected from the beginning again. |
| Segments.BadNumbersAreIgnored | scripts/example/full-run/udp_stream_data_server.py:93-95 | A packet with an impossible count or index changes nothing. |
| Segments.FileHoldsTheWrites | scripts/example/full-run/udp_stream_data_server.py:68-109 | For any packets: the writes counted for a key are, in order, the parts of the .bin file that the new sidecar rows of that key name. |
| Segments.SegmentIsInTheFileOnce | scripts/example/full-run/udp_stream_data_server.py:68-109 | If all fragments arrive, in any order and with duplicates only before the last missing one, the new sidecar rows of the key name exactly one part of the file, and it is the segment. |
| Segments.DuplicateAfterCompletionIsWrittenAgain | scripts/example/full-run/udp_stream_data_server.py:98-108 | After completion it fails: a one-fragment segment sent twice is written twice. |
| Segments.OtherKeysAreUntouched | scripts/example/full-run/udp_stream_data_server.py:97-101 | A packet changes the collected fragments of its own key only. |
| EndToEnd.RowsAreTheFile | scripts/example/full-run/udp_stream_data_server.py:68-86 | The rows of a tiling sidecar stand for the bytes 0 to the end of the file, in order, if the reader lets every row with bytes through, and otherwise for fewer bytes. |
| EndToEnd.IngestorToClips | applets/stream_merge/sm_fsm.c:93-157 | If every row with bytes can be read and has a larger number than all readable rows before it, gaps allowed, the clips of the flushed session are exactly the bytes of the file in order, for any placement of idle timeouts. |
| EndToEnd.IngestorToClipsExactly | applets/stream_merge/sm_reader.c:55-84 | For any tiling sidecar, with any numbers: the clips are exactly the file in every run, whatever the timeouts, if and only if the rows are ordered in that sense. |
| EndToEnd.QuietRunIsExact | applets/stream_merge/sm_fsm.c:103-105 | In each single run without timeouts the clips are exactly the file if and only if the rows are ordered. |
| EndToEnd.LateRowLosesBytes | applets/stream_merge/sm_fsm.c:103-105 | A concrete sidecar of two one-byte rows, numbered 2 and 1, that loses a byte for every setting. |
| EndToEnd.ScheduleFeedsRecords | applets/stream_merge/stream_merge.c:101-149 | However the sidecar is read, the machine is fed the data records of its complete lines. |
| EndToEnd.SidecarToClips | applets/stream_merge/stream_merge.c:101-149 | The same end-to-end statement through the text of the sidecar: for ordered rows, with any chunking, clock and idle timeouts, the printed clips are exactly the file. |
| EndToEnd.SidecarToClipsExactly | applets/stream_merge/stream_merge.c:101-149 | For any tiling sidecar: every session over its text prints exactly the bytes of the file if and only if the rows are ordered. |
| EndToEnd.GapDemoJumpsOnce | scripts/example/full-run/udp_stream_data_client.py:257 | The numbers start at 1 and go up by one, except that the gap demo leaves out 2 to 4. |
| EndToEnd.SendSegmentStream | scripts/example/full-run/udp_stream_data_client.py:241-267 | Sends the datagrams of all segments in order, numbered from 1 with the gap demo's jump, and fails exactly on an empty list, an empty segment or a bad fragment size. |
| EndToEnd.InOrderSegment | scripts/example/full-run/udp_stream_data_server.py:92-109 | A segment sent in order is written as one payload and leaves nothing behind. |
| EndToEnd.StreamIsDelivered | scripts/example/full-run/udp_stream_data_server.py:68-109 | After a stream sent in order the file is the segments joined, with one sidecar row per segment in order and no entry left over. |
| EndToEnd.StreamToClips | scripts/example/full-run/udp_stream_data_client.py:241-267 | From the client to the clips: any list of non-empty segments, any fragment size, chunking, clock and idle timeouts; the file is the segments joined and the clips are exactly its bytes. |
| Delivery.AnyArrivalIsDelivered | scripts/example/full-run/udp_stream_data_server.py:92-109 | If the datagrams of a stream arrive in any interleaving and with duplicates, every segment is completed by its last datagram and the segments in the order of their numbers, then the file is the segments joined, with one sidecar row for each in order. |
| Delivery.AnyArrivalToClips | scripts/example/full-run/udp_stream_data_server.py:92-109 | Under the same condition, with any chunking, clock and idle timeouts, the printed clips are exactly the stream. |
| Delivery.LastIsNext | scripts/example/full-run/udp_stream_data_server.py:104-109 | A datagram that completes a segment belongs to the next segment in order. |

## Left out

- ClipFsm.Fsm.MaybeCut: does not model the rounding of the `long double` (applets/stream_merge/sm_fsm.c:10); product and quotient are exact, and it requires the value to fit 64 bits, without which the C conversion is undefined.
- StreamMerge.Merger.Serve: requires the same of every row of the sidecar (`Trusted`), with the bounds that the record reader enforces.
- ClipFsm.Fsm.ProcessRecord: does not model the width of timestamps and wall clock values, which are unbounded integers; overflow of `start_ts_ms + clip_ms` and of `ts_ms - start_ts_ms` is not modelled; byte offsets, lengths and sequence numbers are 64-bit.
- Segments.WritePayload and the sender: the Base64 coding of datagrams and the UDP transport are not modelled; a packet carries its decoded payload.
- The raw mode of the demo ingestor (`DATASEQ`): it goes through the same `Session.Write` with other flags, and a stream theorem for it would repeat the one for segments.
- MetaDrain and StreamMerge: failures to write to standard output, interrupted system calls, read errors, waiting for the files, and inotify and poll; a turn of the loop records only whether a drain happened and when the idle check ran.
- EndToEnd.SidecarToClips: the server's JSON text and the applet's JSON reader are abstract functions that are taken to be inverse on rows whose numbers stay within 2^53 - 1; cJSON is not modelled.
- MetaDrain.ScheduleIndependence: does not model the record reader (applets/stream_merge/sm_reader.c:55-84), whose result is a parameter; what it guarantees of numbers and tags is the predicate `FromReader`.
- Base64.DecodeInto: the length-0 call is not modelled as memory access; the source then reads the character before the text, which in a database row is the colon, and `RowCodec.DecodeText` returns the empty result that follows.
- Base64.DecodeInto: it accepts padding characters inside the text, as the source does; only inverting the encoder is claimed, not validation.
- Base64 and HashKey: shifts and masks are written as division, remainder and bitwise recursion on numbers, signedness of `char` included only as the byte value.
- RowCodec.DecodeField: the decompression buffer, its doubling and the retries (applets/clip_store/db_format.c:71-98) are inside the abstract decompressor.
- RowCodec.AppendDbRow: seeking to the end cannot fail, and a compressor failure counts as an allocation failure; standard stream buffering is not modelled, so a failed close is not either.
- StoreOps.LoadLatestRows: a read error of the stream is not modelled.
- StoreOps.RewriteCompact: the temporary path names no other path's file (no hard links), the descriptor of the old file stays readable until the end, and the string lengths that make `snprintf` fail are those of the path only; other processes that use the temporary file at the same time are modelled in `StoreLock` only.
- StoreOps.SetThenGet: key and value are C strings from a well-formed argument, the file ends with a newline (`RowFormat.AppendedRowIsReadExactly` says what happens otherwise), the clock is positive and the expiry time fits a `long`.
- RowIndex.GrownCapacity: the capacity and the count are unbounded; a table with 2^62 rows, where the `size_t` products would wrap, does not fit memory.
- StoreLock.Serializable: a compactor that opened before a rename and locked after it is excluded, because it erases properly written rows (`LockLimits.StaleCompactorLosesRows`); `LockLimits.SequentialExactly` covers such runs.
- RowFormat.AppendedRowIsReadExactly: for a tombstone after a torn line with a tab only an example is given (`RowFormat.TornTombstoneCanSurvive`), because there the answer depends on what the decompressor makes of the torn value.
- ClipLimits.NoEmptyClipExactly: the run that drains a window may need offsets beyond 2^53 - 1 when target and length are huge.
- ClipLimits.NoDuplicateExactly: is stated for records that leave bytes pending, because an empty window is not reset by a timeout or flush.
- ClipKeys.DistinctSecondsExactly: is stated for records with bytes and without continuity fields; a continuous record can be cut into clips whose start times are not those of any record.
- StoreLock.World: reading commands take the same lock and change nothing, so they are not among the jobs; a crash is an early close, which drops the lock and leaves the temporary file behind; rows are written whole, so a row torn by a crash, which swallows the next writer's first row (`RowFormat.AppendedRowIsReadExactly`), is not modelled there, nor are two compactors that overwrite parts of each other's rows in the shared temporary file.
- ClipIngest.Ingest: reading standard input line by line is given as the list of lines; the JSON fields come from the parameter `extract`.
- CsvOutput.EmitCsv: only the text handed to standard output is modelled; JSON and table output, parsing, filters and aggregation of `log_parse` use floating point and one-branch comparisons and are not part of this model.
- `pipeline_dispatcher`, the logger, path helpers, option parsing, usage text and the shell and benchmark scripts are plumbing and I/O.
- The documentation says that tags are not parsed yet (.docs/applets/stream-merge.md:54) and that merging them is future work (README.md:311); the code parses and merges them, and the model follows the code.
