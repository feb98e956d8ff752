# wal-db in Dafny

A model of `wal-db`, a write-ahead log: records framed with a CRC32C checksum, appended to a
flat byte space without locks, made durable by group commit, recovered by a scan on open, and
stored in memory or striped over fixed-size segment files.

## What is modelled

- **Checksum** (`Crc32c`, `ZeroWord`, `CheckValue`, `Detection`, `ZeroShift`). CRC32C as in section
  12.1 of RFC 3720, bit by bit, what damage it detects, and the repository's operator that carries
  a checksum over any number of zero bytes by repeated squaring of a GF(2) matrix.
- **Framing** (`LittleEndian`, `Record`) and **stores** (`Store`): a flat array with zero-filled
  gaps, and the read side of a store that may have holes or faults.
- **Open and read back** (`Strict`, `Recovery`, `TornWrite`, `Iteration`, `Damage`): the recovery
  scan, the strict-open classifier with its window and prefix marks, torn writes, the iterator, and
  what becomes of a damaged record.
- **Group commit** (`Commit`, `Wal`, `Protocol`): the coordinator's critical sections as methods of
  an object, each equal to a function on its state; `Protocol` builds a labelled transition system
  from those functions. Its steps are reservations, store writes that succeed or tear, recorded
  completions and failures, the checks of `sync_to`, flushes that succeed or fail, wakeups,
  background writeback and suffix truncation; `sync` is a `sync_to` the tail at the call, and
  `append_and_sync` one to the record's own end. A failed flush may drop unflushed bytes and mark
  them clean. `Safety`, `SyncSafety` and `Truncation` prove one invariant over every run;
  `Durability`, `Reopen`, `Watermark`, `Discipline`, `Reading`, `SyncRun`, `FailedTruncation`,
  `Liveness` and `SyncOutcomes` draw the results from it.
- **Segmented store** (`SegmentNames`, `HeadMarker`, `Segments`, `Directory`, `SegmentedStore`,
  `FlushWindow`, `Compaction`): segment files as a map from index to bytes, and their directory as
  names on stable storage plus changes no flush has covered, any of which a crash may keep or
  lose. `SegmentedLog`, `SegmentedCrash` and `Overtaking` run the commit protocol and the segmented
  store side by side.

`Division` holds facts about quotients.

The results meet in `Reopen.SyncedRecordsReopen`: once a sync has returned Ok, then in every later
state of every interleaving without truncation, opening any crash image that keeps the flushed
bytes gives a starting state of the protocol that holds every record below the synced offset, at
the same sequence number and with the same payload.

## Assumptions

- Reserved offsets stay below 2^64. `Wal.Log.Append` shows what the code does when they do not.
- What an open finds on disk is on stable storage already; the coordinator starts `durable` at the
  recovered end without flushing (src/commit.rs:62-77).
- A truncation runs with no append or sync in flight, at a completed record whose end is at or
  below the watermark, and its store calls succeed. `FailedTruncation` says what happens when its
  flush fails. A truncation never goes below the head, so the head stays at or
  below the end (src/segment.rs:403-411 clamps between the two).
- Critical sections and atomic operations are indivisible steps; `usize` is 64 bits wide.

## Where the code falls short of its documentation

- src/segment.rs:76-86 and src/segment.rs:370-393: a flush skips segments below `synced_from`, on
  the ground that they are full and durable. Durability over the segmented store holds as long as
  no write starts below that segment (`SegmentedLog.SegmentedRecordsReopen`), failed writes and
  writes that overtake each other above it included. Conversely, as long as no flush and no lower
  append has failed, a write that does start below it can be followed by a sync that returns Ok
  without it (`Overtaking.GuardIsNeeded`). Writes may complete out of order
  (src/commit.rs:199-214), so this happens: `Overtaking.OvertakingMisleads` is such a run. Writes
  that complete in order never do it (`SegmentedLog.OpenedInOrder`).
- src/wal.rs:549-557 and src/segment.rs:333-368: a truncation is said to be durable before it
  returns. Over segments that holds if and only if two things do (`FlushWindow.CutThenSync`). No
  segment below the cut's own is unflushed: the truncation moves `synced_from` up to the cut, so
  the flush passes those by, and `reset` then counts them as durable
  (`FlushWindow.CutOverUnflushed`, `Overtaking.CutBelowMisleads`). And the cut is not the first
  byte of an existing segment: that one is emptied, but the flush stops one segment short of it
  (`FlushWindow.CutAtBoundary`).
- src/segment.rs:263-286: falling back to offset 0 when the head marker is lost is called always
  safe. The scan from 0 finds the log if and only if no segment below the head's is missing, and
  otherwise stops before the first that is: `Compaction.LostMarkerFindsTheLog`.
- src/wal.rs:589-620: if the flush inside `truncate_after` fails, the store has been cut, but the
  coordinator keeps its old marks and does not remember the failed flush. Later syncs are truthful
  if and only if nothing committed was cut and nothing unflushed was dropped; otherwise one returns
  Ok for bytes that are gone: `FailedTruncation.FailedTruncationMisleads`, and
  `FailedTruncation.AnyFailureIsTruthful` for a condition known before the call.
- src/wal.rs:312-314: a failed append is said to leave a gap at which recovery stops. If all its
  bytes reached the store, recovery returns the record: `Watermark.FailedWriteRun`.
- src/segment.rs:120-139: the length is taken from the highest segment. A write that has overtaken
  an unwritten one and fails once its own, later segment is created leaves that segment empty; the
  log then opens too long (`FlushWindow.OvertakingFailureOverstates`), and a strict open refuses it
  although it is intact (`Compaction.EmptySegmentBlocksStrict`). A failed write at the end of the
  log does no such harm (`FlushWindow.FailureAtTheEnd`).
- src/store.rs:313-317: truncating the in-memory store beyond its end leaves it as it is, though the
  contract says it ends up exactly that long. The model follows the code.

## Model

| member | source | states |
|---|---|---|
| Crc32c.BitStepIsLinear | src/strict.rs:273-304 | advancing a checksum register by one zero bit is linear over exclusive or |
| Crc32c.ShiftIsLinear | src/strict.rs:273-304 | so is advancing it by any number of zero bits |
| Crc32c.ShiftsCompose | src/strict.rs:306-315 | advancing by a sum of bits is advancing twice |
| Crc32c.AbsorbPerturbed | src/strict.rs:273-289 | a difference in the register moves through data as it would through zeros |
| Crc32c.AppendContinues | src/record.rs:90-102 | continuing a checksum over more bytes is the checksum of the concatenation |
| Crc32c.CrcOfConcat | src/strict.rs:222-289 | for all A and B, the checksum of A ++ B is the checksum of A carried over the length of B in zero bytes, xor the checksum of B |
| Crc32c.CrcIsWord | src/record.rs:76-79 | a checksum fits its 32-bit field |
| ZeroWord.CrcOfZeroWord | src/strict.rs:425-431 | the checksum of four zero bytes is not zero, so zeros never look like a record |
| CheckValue.CrcOfDigits | src/record.rs:25-27 | the checksum of the nine ASCII digits 1 to 9 is the check value of CRC32C, 0xE3069283 |
| Detection.AbsorbIsShift | src/strict.rs:273-289 | absorbing a string is one shift of the register xored with the number the string spells, its first byte lowest |
| Detection.CrcDifference | src/strict.rs:273-289 | the checksums of two strings of one length differ by the shifted difference of the strings |
| Detection.BurstIsDetected | src/record.rs:25-27 | two strings of one length that differ only within 32 consecutive bits, wherever, never have the same checksum |
| Detection.WindowIsDetected | src/record.rs:25-27 | changing any of up to four consecutive bytes always changes the checksum |
| ZeroShift.ProductIsShift | src/strict.rs:291-304 | multiplying by a matrix whose rows advance each single bit advances every word |
| ZeroShift.SquareFeedsTwice | src/strict.rs:306-315 | the square of a matrix advances by twice as many bits |
| ZeroShift.OneBitMatrix | src/strict.rs:317-340 | the starting matrix advances by exactly one bit |
| ZeroShift.Gf2Times | src/strict.rs:291-304 | the loop computes the matrix product, so it advances any word by what the matrix stands for |
| ZeroShift.Gf2Square | src/strict.rs:306-315 | the loop computes the square, which stands for twice the bits |
| ZeroShift.OneBitOperator | src/strict.rs:317-340 | builds the one-bit operator |
| ZeroShift.OneByteOperator | src/strict.rs:317-340 | three squarings give the operator of one zero byte |
| ZeroShift.ZeroByteOperators | src/strict.rs:317-340 | entry k of the table stands for exactly 2^k zero bytes, for all 64 entries |
| ZeroShift.ZeroShift | src/strict.rs:273-289 | for every length below 2^64, carries a checksum over that many zero bytes, with the table index staying in range |
| LittleEndian.DecodeEncode | src/record.rs:64-88 | a number that fits its field reads back |
| LittleEndian.EncodeDecode | src/record.rs:64-88 | a field is the encoding of the number it spells |
| LittleEndian.EncodeAt | src/record.rs:12-13 | byte k of a field is digit k of the number in base 256: little-endian |
| Record.FrameLayout | src/record.rs:3-10 | byte by byte: the checksum of everything after it, the length, the payload |
| Record.FrameBuffer.Encode | src/record.rs:52-80 | whatever the buffer held, it ends up as exactly the framed payload, checksum patched in |
| Record.FrameRoundTrip | src/record.rs:64-102 | a framed payload parses to its length, holds the payload and verifies |
| Record.VerifiedIsFrame | src/record.rs:90-102 | header and payload verify if and only if they are the framing of that payload |
| Record.IntactIsFramed | src/record.rs:82-102 | every intact record found at an offset is the framing of its payload |
| Record.FramedIsIntact | src/record.rs:82-102 | wherever a framing lies, an intact record with that payload is found |
| Record.ZeroHeaderIsDamaged | src/strict.rs:425-431 | a header of zeros is never intact |
| Store.MemStore.WriteAt | src/store.rs:279-299 | the flat array with the bytes in place and zeros in any gap, or an error and no change on overflow |
| Store.MemStore.ReadAt | src/store.rs:301-311 | everything the array has from the offset, up to the buffer's size |
| Store.MemStore.Truncate | src/store.rs:313-317 | the array cut to the length, unchanged if it is shorter |
| Strict.Window.Fill | src/strict.rs:176-183 | on success the window mirrors the store from the offset; a short read means a byte there cannot be read |
| Strict.Window.Header | src/strict.rs:185-191 | of a window that mirrors the store, the header at an offset it covers is the store's |
| Strict.Window.Slice | src/strict.rs:193-200 | answers exactly when the window holds the whole range, with the store's bytes |
| Strict.Prefix.Extend | src/strict.rs:256-270 | continues a prefix checksum, or finds a byte that cannot be read |
| Strict.Prefix.UpTo | src/strict.rs:236-254 | the checksum of the prefix up to any offset, growing the marks and keeping every mark exact |
| Strict.Prefix.Span | src/strict.rs:222-234 | the checksum of any range, from two prefix checksums and the zero-shift operator |
| Strict.SpanFromPrefixes | src/strict.rs:222-234 | removing the carried prefix checksum leaves the checksum of the range |
| Strict.ClassifyOversized | src/strict.rs:107-149 | the answer holds for every way the unreadable bytes could be filled in |
| Strict.CheckCandidate | src/strict.rs:84-99 | the window and the prefix-mark branch decide the same predicate: whether the candidate is intact |
| Strict.TryOffset | src/strict.rs:80-102 | decides whether an offset starts an intact record within the limit, or finds the store unreadable |
| Strict.ScanAfter | src/strict.rs:73-104 | finds an intact record after the damage, or rules out every offset, or names the store unreadable |
| Strict.TailMeans | src/strict.rs:58-105 | the naive classification in terms of records: one too long framed at the damage, else one within the limit framed later, else a torn tail |
| Strict.Classify | src/strict.rs:58-105 | on a store readable from the damage on the naive answer, and so which records lie there; on any store, an answer other than Unreadable is the naive one for every completion of the unreadable bytes |
| Recovery.ScanRecords | src/wal.rs:744-781 | stops where the run of intact records from the head ends |
| Recovery.Recover | src/wal.rs:738-813 | cuts exactly what follows and counts it; an error leaves the store unmodified; strict success means no completion of the store has a record framed after the damage or one too long framed at it; if the rest is readable a strict open fails, with Corruption at the damage, exactly when such a record is there |
| Recovery.ScanPassesFrame | src/wal.rs:754-781 | the scan steps over a framed record and returns it |
| Recovery.ScanIsLocal | src/wal.rs:754-781 | a store that agrees on the recovered bytes recovers them too |
| Recovery.ReopenIsClean | src/wal.rs:738-813 | opening again cuts nothing more and returns the same records |
| TornWrite.CutFrameIsDamaged | src/record.rs:19-23 | a framing cut short anywhere is not intact, whatever the checksum |
| TornWrite.TornWriteRecovery | src/wal.rs:744-813 | for every sequence of payloads and every byte cut, the scan returns exactly the records wholly before the cut |
| TornWrite.TornOpen | src/wal.rs:744-813 | and ends after the last of them: one record more would not be whole, and an uncut log keeps all |
| TornWrite.RecoveryIsMaximal | src/wal.rs:744-781 | in any store the scan finds framed records laid end to end from the head, and no further readable record within the limit follows the last |
| Iteration.WalIter.constructor | src/wal.rs:536-547 | starts at the offset clamped between head and watermark, and ends at that watermark |
| Iteration.WalIter.Next | src/wal.rs:976-1012 | the cursor never moves back, and moves past at least a header whenever it goes on |
| Iteration.WalIter.Collect | src/wal.rs:976-1012 | on any bytes the iterator ends, having yielded exactly its items |
| Iteration.StepYieldsFrame | src/wal.rs:928-974 | at a framed record the step reads it and finds its end |
| Iteration.StopIsPrefixOfSkip | src/wal.rs:976-1012 | on any store, stopping yields what skipping yields up to and including the first error, and all of it if there is none |
| Iteration.FaultIsReported | src/wal.rs:1006-1010 | a read that fails is yielded as an error under either policy and ends the iteration |
| Iteration.IteratorMatchesRecovery | src/wal.rs:928-1012 | read to the end of any bytes, the iterator yields the records a recovery finds and then one corruption error, unless a record cut short or nothing follows |
| Iteration.SkippingContainsDamage | src/wal.rs:976-1012 | with headers in place, skipping yields one item per record whatever has become of the payloads |
| Iteration.StoppingReportsDamage | src/wal.rs:996-1001 | with headers in place, stopping reads every record before the first damaged one, reports that one at its offset, and ends |
| Iteration.VerdictsAreFair | src/wal.rs:976-1012 | each damaged payload is reported at its own offset, every intact record is still read, and what is read is framed there |
| Damage.DamageIsDetected | src/record.rs:90-102 | a record changed within four bytes, its length field spared, is intact if and only if nothing in it has changed |
| Damage.DamageStopsRecovery | src/wal.rs:744-781 | a recovery of a log with one record so damaged returns exactly the records before it |
| Damage.DamageIsReported | src/wal.rs:976-1012 | the iterator reports the damage at the record's offset and reads all the others when skipping, those before it when stopping |
| Iteration.IteratorIsStable | src/wal.rs:497-506 | an iterator yields exactly the records up to its end, whatever store each call meets that keeps them |
| Iteration.IterFromBoundary | src/wal.rs:508-547 | starting at a record boundary yields the matching suffix |
| Commit.Commit.constructor | src/commit.rs:62-77 | both watermarks start at the recovered end, with nothing pending |
| Commit.Commit.InsertRegion | src/commit.rs:199-214 | the loop ends and leaves the watermark drained over every contiguous pending region |
| Commit.Commit.MarkWritten | src/commit.rs:86-93 | folds the region in and notifies exactly when somebody waits |
| Commit.Commit.MarkFailed | src/commit.rs:95-103 | keeps the lowest failed offset as the poison |
| Commit.Commit.ResetTo | src/commit.rs:110-129 | resets the watermarks, but after a failed flush the durable mark can only go down |
| Commit.Commit.Check | src/commit.rs:139-194 | the verdict at the top of the loop and the state change that goes with it |
| Commit.Commit.EndFlush | src/commit.rs:169-184 | a successful flush raises the durable mark, a failed one is remembered |
| Commit.Commit.Resume | src/commit.rs:185-194 | a woken thread leaves the waiter count |
| Commit.InsertIntoDrain | src/commit.rs:199-214 | folding in a region commutes with draining the completed set |
| Commit.OrderIndependence | src/commit.rs:199-214 | any completion order of the same regions gives the same watermark and pending regions |
| Commit.DrainIsWatermark | src/commit.rs:37-45 | the watermark is the least uncovered offset and the pending regions are exactly the completed ones above it |
| Wal.Log.Append | src/wal.rs:327-361 | every branch: too large, offset overflow with the wrapped tail, failed write, success with the record framed and recoverable at its offset, every other byte kept and the completion recorded |
| Wal.Log.TruncateAfter | src/wal.rs:589-620 | succeeds exactly on an intact record when cut and flush succeed; an error leaves the log's own state unchanged, and the store too unless only the flush failed |
| Safety.InitHolds | src/wal.rs:744-813 | a freshly opened log satisfies the protocol invariant |
| Safety.WatermarkFacts | src/commit.rs:39-45 | everything below the watermark is recorded as done, it is a record boundary, and the record there is not done |
| Safety.CommittedStopsAtPoison | src/commit.rs:51-53 | the watermark never passes a recorded failure |
| Safety.ReserveKeeps | src/wal.rs:336-349 | reserving a range keeps the invariant |
| Safety.WriteKeeps | src/wal.rs:351-355 | so does writing it, concurrently with any other step |
| Safety.TearKeeps | src/wal.rs:355-360 | so does a failed write that leaves anything in its own range |
| SyncSafety.MarkKeeps | src/commit.rs:86-93 | recording a completion keeps the invariant, with the notify skipped when nobody waits |
| SyncSafety.PoisonKeeps | src/commit.rs:95-103 | so does recording a failure |
| SyncSafety.StartKeeps | src/commit.rs:139-141 | so does a new sync to any offset up to the tail |
| SyncSafety.CheckKeeps | src/commit.rs:141-168 | so does a pass through the loop: return, lead or park |
| SyncSafety.LeadCovers | src/commit.rs:160-167 | a new leader's flush will cover everything below the watermark |
| SyncSafety.FlushOkKeeps | src/commit.rs:167-178 | a successful flush makes everything below the leader's mark stable |
| SyncSafety.FlushErrKeeps | src/commit.rs:54-58 | a failed flush that drops any unflushed bytes keeps the invariant |
| SyncSafety.SettleKeeps | src/commit.rs:169-184 | so does the leader taking the lock again |
| SyncSafety.SettledOk | src/commit.rs:169-178 | a leader whose flush succeeded returns Ok at once, even if a write failed meanwhile |
| SyncSafety.ResumeKeeps | src/commit.rs:185-194 | so does a woken thread that checks again |
| SyncSafety.SpuriousKeeps | src/commit.rs:185-194 | so does a spurious wakeup |
| SyncSafety.WriteBackKeeps | src/commit.rs:54-58 | so does writeback by the operating system at any time |
| Truncation.TruncateKeeps | src/wal.rs:589-620 | truncating a quiesced log, poisoned or not, re-establishes the whole invariant |
| Truncation.StepKeeps | src/commit.rs:61-197 | every step of every thread keeps the invariant |
| Truncation.RunKeeps | src/commit.rs:61-197 | it holds in every reachable state |
| Durability.RegionsAreTiled | src/wal.rs:336-361 | regions written in place are the framings of their payloads laid end to end |
| Durability.CrashRecovers | src/commit.rs:139-196 | every crash image of a reachable state recovers to the durable mark at least, with all records below it first, in order |
| Durability.RunPersists | src/wal.rs:327-430 | without truncation no run takes back a record, a completed region or a returned sync |
| Durability.SyncedRecordsSurvive | src/wal.rs:363-430 | once a sync to an offset returned Ok, every crash image of every later state recovers to that offset or further and returns every record below it |
| Reopen.ReopenedIsInit | src/wal.rs:744-813 | whatever bytes are found, opening them is a starting state of the protocol |
| Reopen.SyncedRecordsReopen | src/wal.rs:363-430 | the log opened on any crash image holds every record below a synced offset |
| Watermark.RunStaysBlank | src/store.rs:293-297 | in every reachable state a range still being written holds nothing but zeros |
| Watermark.UntouchedIsDamaged | src/strict.rs:425-431 | no record starts at an untouched range nor at the tail |
| Watermark.WatermarkEqualsRecovery | src/commit.rs:7-12 | if the region at the watermark is wholly written or untouched, recovery of the live store stops exactly at the watermark, with exactly the committed records, if and only if the record there is not in place without being recorded; regions above may hold anything |
| Watermark.FailedWriteMayRecover | src/wal.rs:354-360 | a record whose append returned an error is recovered if all its bytes are in place at the watermark |
| Watermark.FailedWriteRun | src/wal.rs:312-314 | on any log just opened, one append whose write is reported as failed after all its bytes are in place ends so |
| Discipline.LeaderDiscipline | src/commit.rs:139-184 | in every reachable state at most one thread is in the flush, each call has flushed at most once, and a leader whose flush succeeded returns Ok |
| Discipline.MarksInOrder | src/commit.rs:37-53 | head, durable, committed and tail are in order, and committed is at or below any poison |
| Discipline.StepSticks | src/commit.rs:118-129 | no step, truncation included, forgets a failed flush or raises the durable mark after one |
| Discipline.FlushFailureSticks | src/commit.rs:131-184 | so in every run after a failed flush, and every sync that returned Ok covers only stable bytes |
| Liveness.NoLostWakeup | src/commit.rs:87-103 | a parked thread still has to wait, the waiter count is exact, and what it waits for is under way |
| Liveness.SomeThreadMoves | src/commit.rs:139-196 | while a call is unfinished some thread can move, without a store call having to fail |
| Liveness.StepAdvances | src/commit.rs:139-196 | every step of a call under way lowers a bound on the steps left |
| Liveness.RunsAreBounded | src/commit.rs:139-196 | with no new calls and no spurious wakeups every run is bounded, and one that cannot go on has finished every append and returned from every sync |
| Liveness.CallsCanFinish | src/commit.rs:139-196 | from every reachable state some run finishes all calls |
| SyncOutcomes.CheckOutcome | src/commit.rs:139-194 | a pass through the loop in any reachable state: a corruption error exactly for the lowest failed append, if below the target; Ok exactly if the target is durable; an I/O error exactly if neither and a flush has failed; a flush of all that is written exactly if the target is written and nobody flushes; else it parks |
| SyncOutcomes.ErrorsHaveCauses | src/commit.rs:131-138 | over every run a sync fails only with a cause: a failed append below its target, at the offset it names, or a failed flush |
| SyncOutcomes.NoFaultNoError | src/commit.rs:131-194 | in a run in which no store call fails every sync that has returned has returned Ok |
| SyncOutcomes.AllCallsSucceed | src/commit.rs:139-194 | and once such a run cannot go on, every sync has returned Ok, every append is recorded and the watermark is the tail |
| Reading.IteratorSeesCommitted | src/wal.rs:471-547 | an iterator taken in any reachable state yields exactly the records committed then, whatever later state each call meets |
| Reading.TruncationKeepsThePrefix | src/wal.rs:549-620 | truncating after a committed record leaves exactly the records through it, at the same sequence numbers, and the next append lands at its end; the durable mark moves there too, but after a failed flush only down |
| FailedTruncation.LoneSync | src/commit.rs:139-184 | the whole run of a sync that has to flush, from any state, and the state it ends in |
| FailedTruncation.HarmlessCut | src/wal.rs:615-619 | if a failed truncation lost nothing, the protocol invariant holds as if it had not been tried |
| FailedTruncation.HaltedRun | src/commit.rs:131-159 | after an earlier failed flush every sync that returns Ok covers only stable bytes, whatever was cut above the durable mark |
| FailedTruncation.LossMisleads | src/wal.rs:615-619 | if something was lost, a later sync in some run returns Ok for a byte that is not stable |
| FailedTruncation.FailedTruncationMisleads | src/wal.rs:589-620 | after a truncation whose flush failed in any reachable state, every later sync is truthful if and only if nothing committed was cut and nothing unflushed was dropped (with an earlier failed flush: nothing durable was cut) |
| FailedTruncation.AnyFailureIsTruthful | src/wal.rs:589-620 | they are truthful however the flush fails if and only if nothing committed lies past the cut and nothing below it is unflushed (with an earlier failed flush: nothing durable lies past the cut) |
| SegmentNames.NamesRoundTrip | src/segment.rs:443-458 | a name parses to an index if and only if it is the printed form of that u64 index |
| SegmentNames.NameLayout | src/segment.rs:443-446 | twenty decimal digits, the most significant first, and the extension |
| SegmentNames.NamesInOrder | src/segment.rs:36-38 | lexical order of names is numeric order of indices |
| HeadMarker.MarkerRoundTrip | src/segment.rs:234-286 | a marker is trusted for an offset if and only if it begins with exactly what is written for it |
| HeadMarker.MarkerLayout | src/segment.rs:239-243 | byte by byte: the offset in eight bytes and their checksum in four, little-endian |
| HeadMarker.HeadIsMarked | src/segment.rs:263-286 | the head of an open is the offset whose marker the file begins with, and 0 if there is no file or no such marker |
| Segments.WriteAllAt | src/segment.rs:289-308 | splitting a write at the boundaries gives every position what one write would |
| Segments.CutAt | src/segment.rs:333-368 | what a truncation leaves at every position |
| Segments.WriteMirrors | src/segment.rs:289-308 | a write to the segments is the write to the flat array, for every segment size |
| Segments.WriteGapless | src/segment.rs:289-308 | a write at or before the end leaves a gap-free log gap-free |
| Segments.CutMirrors | src/segment.rs:333-368 | a truncation within the length is the truncation of the flat array |
| Segments.WritesMirror | src/segment.rs:289-308 | after any writes in any order the segments still agree with the flat array |
| Segments.SegmentsRefineFlat | src/segment.rs:310-331 | and a read of a fully written range returns its bytes |
| Segments.GaplessRead | src/segment.rs:310-331 | in a gap-free log a read is the flat read, short reads included |
| Segments.ReadIsView | src/segment.rs:310-331 | a segmented read is a read of a store with holes, so the open scan and the strict classifier apply |
| Segments.HighestEndsTheLog | src/segment.rs:120-139 | in a gap-free log the length recomputed on open is never too short, and is the flat length if and only if the highest segment is not an empty one past the end |
| Directory.NamesSurvive | src/segment.rs:196-201 | with no file creation pending, no crash loses the name of a file |
| Directory.DropsCrash | src/segment.rs:414-434 | with only removals of dropped segments pending, a crash keeps the marker and every other file |
| SegmentedStore.RenameIsSafe | src/segment.rs:250-259 | after the rename of a flushed marker a crash finds the old directory or the same files with the new marker |
| SegmentedStore.DropsAreSafe | src/segment.rs:414-434 | once the directory flush has made the new marker stable, a crash during the deletions is safe |
| SegmentedStore.UnflushedDropIsUnsafe | src/segment.rs:257-260 | without that flush it is not: a crash may keep a deletion and lose the new marker |
| SegmentedStore.TouchedRange | src/segment.rs:289-308 | a split write touches exactly the segments that hold a byte of its range |
| SegmentedStore.SegmentedStore.Open | src/segment.rs:109-156 | refuses a zero segment size; otherwise the length comes from the highest segment and the head from the marker, clamped |
| SegmentedStore.SegmentedStore.WriteHeadFile | src/segment.rs:234-260 | for each step that may fail, what has changed; on success the new marker and every name are on stable storage |
| SegmentedStore.SegmentedStore.SegmentForWrite | src/segment.rs:180-205 | creates a missing file and marks the directory for every handle newly opened |
| SegmentedStore.SegmentedStore.WriteAt | src/segment.rs:289-308 | the loop writes every chunk, opens exactly the segments of the range, flags the directory exactly if one is newly opened, and raises the length, saturating; one that fails, in a write or in making a segment, leaves its first bytes and the length as it was |
| SegmentedStore.SegmentedStore.ReadAt | src/segment.rs:310-331 | the bytes from the offset up to the first position that is missing, and no further |
| SegmentedStore.SegmentedStore.Truncate | src/segment.rs:333-368 | in whatever order the directory is listed, later segments go and the straddling one is resized; it fails exactly when the listing or an entry it must change fails, and then only some entries have been dealt with; the directory is flagged exactly if a file is gone or a handle is new |
| SegmentedStore.SegmentedStore.FlushDirIfDirty | src/store.rs:399-412 | flushes only if needed, and the flag stays set if the flush fails |
| SegmentedStore.SegmentedStore.Sync | src/segment.rs:370-393 | flushes exactly the open segments of the window, and no crash after it loses a file; on a failure the window does not move and what failed stays unflushed |
| SegmentedStore.SegmentedStore.TruncateBefore | src/segment.rs:403-440 | the clamped head; on success exactly the segments wholly below it are gone, save that of the last byte and later ones; it fails exactly when a step or one of those deletions does, and what that leaves; and at every point on the way whatever a crash leaves is the directory as it was or one with the new marker and some dropped segments gone |
| FlushWindow.WriteIsSound | src/segment.rs:302-306 | a write keeps everything below the window flushed if and only if it does not start below it |
| FlushWindow.CutIsSound | src/segment.rs:365-366 | a truncation does if and only if no unflushed segment lies below the cut |
| FlushWindow.SyncLeaves | src/segment.rs:377-393 | a flush in a sound state leaves at most an empty segment just past the end unflushed |
| FlushWindow.WindowIsSound | src/segment.rs:370-393 | in every run that keeps to these conditions, flushing only the window makes every written byte stable |
| FlushWindow.CarefulRunsAreFlushed | src/segment.rs:302-393 | so in every run whose writes start at or above the length the last flush saw and whose truncations are into or below the window or right after a flush |
| FlushWindow.CutsAllowed | src/segment.rs:365-366 | a truncation into or below the window, and any right after a flush, keeps to them |
| FlushWindow.AboveTheFlushedLength | src/segment.rs:382-393 | so does a write at or above the length the last flush saw |
| FlushWindow.WriteThenSync | src/segment.rs:289-308 | from a flushed state, a write and a flush leave everything stable if and only if the write does not start below the window |
| FlushWindow.CutThenSync | src/segment.rs:333-393 | a truncation and a flush leave everything stable if and only if no unflushed segment lies below the cut and the cut is not the first byte of an existing segment |
| FlushWindow.CutOverUnflushed | src/segment.rs:365-366 | for every segment size, an unflushed append over two segments cut inside the second leaves the first unflushed |
| FlushWindow.CutAtBoundary | src/segment.rs:376-393 | and a flushed one cut at the boundary leaves the second unflushed; if its old content survives a crash the log opens longer than it was cut |
| FlushWindow.OvertakingFailureOverstates | src/segment.rs:120-139 | a failed write into a later segment of an empty log makes it open with a length although it holds no byte |
| FlushWindow.FailureAtTheEnd | src/segment.rs:120-139 | a failed write at the end of a gap-free log leaves its length right |
| Compaction.HoldsOnTheWay | src/segment.rs:403-440 | on the way, the old or the new head, the same length and every byte from that head on; an old head means no name is missing |
| Compaction.CrashSafeCompaction | src/segment.rs:403-440 | if whatever a crash could have left before the call holds the log, so does whatever a crash leaves at any point of it, with the same records from the head it reopens with |
| Compaction.SegmentsRecoverFlat | src/segment.rs:310-331 | recovery over the segments is recovery over the flat log, from any head they hold |
| Compaction.CrashHolds | src/segment.rs:370-376 | what the compaction result assumes of crashes before the call follows from the live directory, after a sync that flushed it or an earlier compaction |
| Recovery.HoleMayHide | src/wal.rs:783-812 | nine unreadable bytes where the scan stops have a completion that holds a record, so a strict open does not succeed |
| Compaction.EmptySegmentBlocksStrict | src/wal.rs:783-812 | an intact log with an empty segment past its end is still found whole by the scan, but the unreadable rest could hide a record, so a strict open refuses it |
| Compaction.ScanFromZero | src/wal.rs:744-781 | over any subset of the segments the scan from 0 finds the whole flat log if and only if every segment it lies in is there, and never gets past a missing one |
| Compaction.LostMarkerFindsTheLog | src/segment.rs:263-286 | with the marker lost, at any point of a compaction and however often compacted before, the open scan finds the log if and only if no segment below the head is missing |
| SegmentedLog.FlushCoversAll | src/segment.rs:370-393 | whenever all unflushed bytes lie in the window, a flush covers them all: the store honours its contract |
| SegmentedLog.CutCoversAll | src/segment.rs:333-393 | so does the flush of a truncation that leaves nothing unflushed in a lower segment |
| SegmentedLog.CarefulRunsComply | src/segment.rs:370-393 | every run over the segmented store whose writes start no lower than the window, failed and overtaking writes and such truncations included, is a run of the protocol |
| SegmentedLog.SegmentedRecordsReopen | src/wal.rs:363-430 | after such a run the log reopened on any crash image holds every record below a synced offset |
| SegmentedLog.OpenedInOrder | src/segment.rs:84-86 | runs of an opened log whose writes complete in order are such runs |
| SegmentedCrash.SegCrashRecovers | src/wal.rs:744-781 | recovery over whatever segment files a crash leaves, missing, short or with junk, returns every durable record first |
| SegmentedCrash.SyncedRecordsReopenFromSegments | src/wal.rs:363-430 | and so, opening those files after such a run, every record below a synced offset |
| Overtaking.SegSync | src/commit.rs:139-184 | the whole run of a sync that has to flush over the segmented store, and the state it ends in |
| Overtaking.WriteBelowMisleads | src/segment.rs:377-393 | from any state in which no flush and no lower append has failed, a write below the window has a continuation in which a sync returns Ok for a byte that is not stable |
| Overtaking.CutBelowMisleads | src/segment.rs:365-366 | so has a truncation over unflushed lower segments |
| Overtaking.GuardIsNeeded | src/segment.rs:377-393 | so the guard is exact: after any careful run of an opened log, in such a state, a write that breaks it has such a continuation |
| Overtaking.OvertakingMisleads | src/segment.rs:84-86 | for every segment size and any three records of which the last ends in a later segment than the middle one starts in, overtaking breaks the guard and a sync returns Ok for a byte that is not stable |

## Left out

- Operating-system calls and platform variants: the store contract with written, dirty and stable bytes stands for them.
- The hardware paths of the `crc32c` crate: the bitwise reference stands for them.
- Typed records, error display, `error-forge` integration, `WalConfig` builders and the `Lsn` newtype: thin wrappers that would only add easy members.
- Mutex poisoning, weak memory orderings, thread-local buffers and cache alignment: critical sections and atomics are indivisible steps.
- The scheduler and fairness: a run with spurious wakeups without end is not excluded; the termination result leaves them out.
- `sync_to` as one method: it gives up the lock in the middle, so its critical sections are methods and their interleaving is the transition system.
- Bounds on memory use and the claim that any damage whatever is detected, which no 32-bit checksum can promise; `Detection` says what is.
- Single-file store and `parent_dirty`, the flag for the log directory's own name: the same flag protocol as `dir_dirty`.
- SegmentedCrash.SyncedRecordsReopenFromSegments: that a flushed byte also keeps the name of its file is taken from the flush of the directory (`SegmentedStore.SegmentedStore.Sync`), not part of the joint run.
- SegmentedLog.SegmentedRecordsReopen: the flush of the segments is one step, at the moment it reads how much is written.
- SegmentNames.NamesRoundTrip: names are sequences of characters; a file name that is not valid Unicode, which the code ignores, is not represented.
- Iteration.SkippingContainsDamage: a payload damaged beyond what `Detection` rules out may still verify and is then yielded as it is.
- SegmentedStore.SegmentedStore.Open: a failure to create or list the directory or to read the marker, which the code passes on, is not a case of its own.
