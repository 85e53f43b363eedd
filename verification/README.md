# A model of datawal-core

datawal is a crash-recoverable, append-only record log with a key-value store on top of it. These
files model its storage engine over bytes, file offsets and unbounded runs, and prove that the
pieces together do what the repository is for: what was forced to disk is found again, what is found
was appended, and the live index always agrees with a replay of the bytes.

`dafny verify dfyconfig.toml` checks everything.

## The parts

| files | what they model |
|---|---|
| `Bytes`, `Crc32c`, `Vectors`, `Format`, `Burst` | the frame codec: printer, strict parser, CRC-32C trailer |
| `Segment`, `Listing` | segment names, the sorted listing of a directory, id allocation |
| `Recovery`, `Scan`, `ScanFacts` | the eager recovery scan of a directory |
| `RecordIter`, `IterFacts` | the lazy iterator, and its agreement with the eager scan |
| `Writer`, `WriterInv`, `CrashSafety`, `Promises`, `Txids`, `Growth` | the writer as a state machine over system calls, and what all its runs keep |
| `Entries`, `Gap` | exactly when two guarantees fail: directory entries not yet durable, and torn tails |
| `Operations`, `RecordLog` | open, append, fsync, rotate and scan, in place, each tied to a run of that machine |
| `Reader` | the lock-free reader interleaved with a live writer |
| `FdPool` | the LRU of open segment files |
| `Keydir`, `KvRuns`, `StoreRuns`, `DataWal` | the offset keydir and the key-value store, refining a map of bytes to bytes, with power loss |
| `Compaction` | what `compact_to` writes |

## The environment

A directory is a sequence of segment files in ascending id, and a list of other entries, which its listing
ignores because they are not files or for their names. Each segment has its bytes, a synced length, and a flag that says whether its directory entry is
durable. The outcome of a system call is a parameter of the operation or step that makes it; a failed write
leaves any prefix of the frame in the file. A power loss (`Writer.CrashTo`) keeps, per segment, any prefix at
least as long as the synced length, and may drop any segment whose entry is not durable. There is one writer.

`Writer.Apply` takes one step: one system call, or one piece of bookkeeping between two. An append is
begun, written byte range by byte range, and finished or failed; an fsync is two steps; a rotate is the
sync of the old segment, the creation of the new one, the directory sync and the switch. A power loss may
come between any two. A restart opens any directory without a torn tail: what a power loss left, or the
directory as it is, for instance after a poisoned handle was dropped. Nothing is assumed of directory entries.
The methods of the class `RecordLog.RecordLog` are proved to be runs of these steps, so what is proved of
runs holds of them.

`acked` is the list of records recovered at open followed by those whose append returned. `durable` is
the part of it that the last completed sync covers. Both are ghost fields of the handle;
`Promises.ForcedRecordsSurvive` states durability without the second.

## Where the code and its documentation differ

The model follows the code. Each of these is a lemma.

- `open` syncs the directory only when it creates the first segment. After an interrupted `open` or `rotate`,
  reopening in place may leave a handle on a segment whose entry is not durable. The log still opens after
  every power loss, with everything forced to disk (`CrashSafety.RunSurvivesPowerLoss`,
  `Promises.ForcedRecordsSurvive`). But what is found need not be a prefix of what was appended. For one handle,
  from its open until it is dropped, it is a prefix after every run if and only if every segment before the last
  that holds records has a durable entry when it opens (`Entries.PrefixIff`); through restarts the same is true
  as long as each restart meets that condition. An open and then a rotate that both fail to sync the directory, each
  followed by a reopen in place, lead to a directory where it fails (`Entries.RotateLeavesHole`). There one append
  and a power loss leave the second record without the first (`Entries.HoleLosesFirst`;
  `Entries.HoledRunLosesFirst` is the whole run).
- A handle opened over a torn tail appends behind the torn bytes, while it reports refs as if the tail
  were gone (`Gap.AppendKeepsGap`). The durability promise then fails: it holds of every run exactly if
  the scan at open discarded nothing (`Gap.DurabilityIff`), a condition a caller can read off the
  recovery report. One stray byte breaks it (`Gap.TornExampleBreaks`). An appended record is found on reopen
  if and only if torn bytes and frame together happen to start with that frame again, followed by nothing
  worse than a tail (`Gap.AppendFoundIff`); every other one is lost even after an fsync and without any power
  loss (`Gap.ForcedIsLost`). `Gap.AppendOpensIff` says when an append leaves a log that opens at all: with one to
  seven, 16 or 20 torn bytes it never does (`Gap.TornTailBricks`), and a rotate seals the torn segment, which no
  later open accepts (`Gap.RotateTornIff`). Every put that can come next is read back by a get if and only if the
  scan at open discarded nothing (`Gap.PutsComeBackIff`); over a torn tail only values of one single length can
  come back at all (`Gap.BackSameLength`).
- Capacity 0 of the file pool does not disable it: the first miss is kept, and the hit path runs before
  the capacity check. Capacity 0 is capacity 1 (`FdPool.MissIsLru` with `FdPool.Slots`), so the pool keeps
  within its capacity if and only if that is not 0, or nothing was ever read (`FdPool.KeptWithinCapacityIff`).
- The reader's snapshot is of segment ids, so records appended after it was taken may be yielded, against the
  invariant `ReaderBoundedByOpen` of the TLA+ model of the reader. `Reader.LateRecordIsYielded` is a run in which
  one is. An iteration stays within the records of its snapshot if and only if no whole frame reached the last
  snapshot segment between the snapshot and its load (`Reader.StaysInSnapshotIff`); `Reader.ReaderIsSafe` gives
  the two bounds that always hold.
- The next txid after `u64::MAX` is 1, so a reopened store hands out fresh txids exactly if the largest
  one on disk is below `u64::MAX` (`Txids.FreshTxidIff`; `Txids.TxidWraps` is a log where it is not).
- Ids of nine digits are printed but not listed (`Segment.ParseOfName`). Statements about runs carry the
  hypothesis that rotates stay below 100,000,000.

## Model

| member | source | states |
|---|---|---|
| Format.EncodeRecord | crates/datawal-core/src/format.rs:89-134 | rejects a key over 65,536 bytes first, then a payload over 67,108,864 bytes, and otherwise emits exactly the frame of the fields, built field by field |
| Format.FrameLayout | crates/datawal-core/src/format.rs:54-134 | the frame in numbers: magic 44 57 41 4C, version 1, type byte 0, 1 or 2 for raw, put or delete, flags 0, txid and both lengths lowest byte first, key from byte 24 on, payload right behind it, checksum of all that last |
| Format.DecodedLayout | crates/datawal-core/src/format.rs:224-310 | wherever a record is decoded, byte 6 is that number, and key and payload are the bytes at those places |
| Format.DecodeVerdict | crates/datawal-core/src/format.rs:224-310 | the verdict on any bytes at any offset, in numbers: fewer than 24 bytes are Truncated whatever they are; then the checks in their order, each with its error, the length needed and the checksum |
| Format.DecodedIff | crates/datawal-core/src/format.rs:224-310 | at any offset of any buffer, the parser returns a record if and only if the frame of that record stands there |
| Format.FrameDecodes | crates/datawal-core/src/format.rs:224-310 | round trip: an encoded frame inside any larger buffer decodes to its fields and size |
| Format.DecodedIsFrame | crates/datawal-core/src/format.rs:224-310 | converse round trip: the bytes consumed by a successful decode are the encoding of the fields returned |
| Format.TornFrameIsTruncated | crates/datawal-core/src/format.rs:224-283 | a frame cut anywhere decodes to Truncated with the exact have and need counts, never to an error |
| Format.HeaderParses | crates/datawal-core/src/format.rs:232-283 | a printed header passes every structural check and yields its fields |
| Format.ParsedHeader | crates/datawal-core/src/format.rs:232-283 | a header that passes every structural check is the printed form of fields within the caps |
| Format.DecodeIsLocal | crates/datawal-core/src/format.rs:224-310 | the verdict depends only on the bytes from the offset on |
| Format.DecodeIsStable | crates/datawal-core/src/format.rs:224-310 | bytes that arrive later change no verdict but Truncated |
| Vectors.CrcOnWords | crates/datawal-core/src/format.rs:129-131 | on every message the bit-serial checksum equals one computed on 32-bit words |
| Vectors.KnownVectors | crates/datawal-core/src/format.rs:322-330 | the checksums of the empty message, of "123456789" and of 32 zero bytes are 0, 0xE3069283 and 0x8A9136AA, in little-endian form |
| Crc32c.AbsorbInjective | crates/datawal-core/src/format.rs:285-301 | absorbing the same bits from different registers gives different registers |
| Crc32c.Backtrack | crates/datawal-core/src/format.rs:285-301 | the difference of two messages of at most 32 bits can be read off the difference of the registers |
| Burst.BurstIsDetected | crates/datawal-core/src/format.rs:285-301 | a frame changed within any 32 consecutive bits outside its length fields is never decoded, and from the ninth byte on the verdict is CrcMismatch with the frame's own size |
| Burst.BurstInBuffer | crates/datawal-core/src/format.rs:224-301 | the same for a frame at any offset of any larger buffer |
| Burst.BytesAreBits | crates/datawal-core/src/format.rs:285-301 | any change within four consecutive bytes is such a burst of bits |
| Burst.ByteBurstIsDetected | crates/datawal-core/src/format.rs:285-301 | so a frame changed within any four consecutive bytes outside its length fields is never decoded |
| Burst.CodewordBurst | crates/datawal-core/src/format.rs:285-301 | two messages followed by their checksums that differ within 32 consecutive bits, trailer included, are equal |
| Segment.ParseOfName | crates/datawal-core/src/segment.rs:29-54 | a printed name parses to its id, exactly for ids below 10^8 |
| Segment.NameOfParse | crates/datawal-core/src/segment.rs:42-54 | whatever parses is a printed name of an id below 10^8 |
| Segment.NameSpellsId | crates/datawal-core/src/segment.rs:29-36 | the name of every id spells it out in decimal, padded to eight digits or as long as it needs, and ends in ".dwal" |
| Segment.NamesOnDisk | crates/datawal-core/src/segment.rs:29-36 | two names as characters |
| Segment.NamesParsed | crates/datawal-core/src/segment.rs:116-129 | two names that parse and four that do not |
| Segment.NameOrderIsIdOrder | crates/datawal-core/src/segment.rs:29-54 | lexicographic order of names is numeric order of ids |
| Segment.ListSegmentIds | crates/datawal-core/src/segment.rs:57-77 | the loop skips what is not a file; the listing is strictly ascending and holds exactly the ids whose names are files in the directory |
| Segment.AscendingUnique | crates/datawal-core/src/segment.rs:57-77 | there is only one such listing |
| Listing.ListingGivesIds | crates/datawal-core/src/segment.rs:57-77 | the listing of a directory gives the ids of its segment files, whatever else it holds, subdirectories with a segment's name included |
| RecordIter.Directory.List | crates/datawal-core/src/segment.rs:57-77 | listing a directory: entries, filter and sort together |
| Segment.NextIdIsFresh | crates/datawal-core/src/segment.rs:85-93 | on a sorted listing the next id is 1 if there is none, otherwise above every listed one and one above some; the overflow error comes only at the largest id |
| CrashSafety.NextIdOf | crates/datawal-core/src/segment.rs:80-93 | on an ordered directory below the limit, the next id is one above the active one |
| Recovery.CleanIff | crates/datawal-core/src/record_log.rs:542-630 | a segment decodes to its end if and only if it is a concatenation of frames |
| Recovery.DecompositionUnique | crates/datawal-core/src/record_log.rs:542-630 | and it is so in one way only |
| Recovery.ParsedAreFrames | crates/datawal-core/src/record_log.rs:542-630 | the bytes before the stopping point are the frames of the records returned, on any bytes |
| Recovery.LongestValidPrefix | crates/datawal-core/src/record_log.rs:542-630 | from frames cut at any byte, exactly the whole frames before the cut are recovered and the rest is a torn tail, never a CRC or structural error |
| Recovery.WholeIff | crates/datawal-core/src/record_log.rs:542-630 | the records recovered are those whose frames end at or before the cut |
| Scan.ScanSegment | crates/datawal-core/src/record_log.rs:542-630 | the decoding loop over one segment, its counters and its four ways to stop, equals the recursive reading of the bytes |
| Scan.ScanAll | crates/datawal-core/src/record_log.rs:635-655 | the loop over the segments stops at the first failure with the records so far |
| ScanFacts.ScanSucceedsIff | crates/datawal-core/src/record_log.rs:542-655 | a scan succeeds if and only if every sealed segment is a concatenation of frames and the last one stops without a structural error |
| ScanFacts.ScanGives | crates/datawal-core/src/record_log.rs:542-655 | all that a successful scan returns: records, counts, largest txid, tail verdict and logical end |
| ScanFacts.FirstDamage | crates/datawal-core/src/record_log.rs:542-655 | which error, segment and offset a scan gives at the first bytes that are no frame: structural anywhere, torn or checksum in a sealed segment; in the last segment those are discarded and counted, and all frames before them found |
| ScanFacts.ListedIff | crates/datawal-core/src/segment.rs:57-77 | a listing keeps, in order, exactly the segments with ids below 10^8 |
| ScanFacts.ScanAccounts | crates/datawal-core/src/record_log.rs:542-655 | lengths of the records plus discarded bytes are the bytes on disk; at most one tail is truncated, and one is exactly if bytes were discarded |
| ScanFacts.DirRecordsTiled | crates/datawal-core/src/record_log.rs:542-655 | records tile each segment from offset 0 and segments come in ascending order |
| ScanFacts.AllPlaced | crates/datawal-core/src/record_log.rs:542-655 | every record's frame stands where its segment, offset and length say |
| ScanFacts.RecordsMatchRecs | crates/datawal-core/src/record_log.rs:635-655 | the scan returns the records of the segments in order |
| RecordIter.RecordIter.constructor | crates/datawal-core/src/record_log.rs:704-725 | a new iterator stands before the first listed segment with an empty report |
| RecordIter.RecordIter.EnsureLoaded | crates/datawal-core/src/record_log.rs:745-761 | loads the current segment once; a failed load changes nothing |
| RecordIter.RecordIter.NextInSegment | crates/datawal-core/src/record_log.rs:767-851 | one decoding step in the loaded segment, with its effect on cursor and report |
| RecordIter.RecordIter.Next | crates/datawal-core/src/record_log.rs:857-889 | the loop inside next, against its specification function |
| RecordIter.MissingEndsIteration | crates/datawal-core/src/record_log.rs:745-889 | if the file of the next snapshot segment is gone, the iterator yields that error once and then nothing, whatever becomes of the directory |
| IterFacts.TurnKeepsStep | crates/datawal-core/src/record_log.rs:745-890 | every turn of the iterator keeps it in step with the eager scan, for any bytes |
| IterFacts.NextKeepsStep | crates/datawal-core/src/record_log.rs:857-889 | every call to next does, and it makes progress as long as it yields |
| IterFacts.DrainCompletes | crates/datawal-core/src/record_log.rs:745-890 | from any point it can reach, draining the iterator completes the eager scan |
| IterFacts.IteratorEqualsScan | crates/datawal-core/src/record_log.rs:542-890 | on any directory the drained iterator gives the records, report and error of the eager scan, and then None for ever, whatever becomes of the files |
| FdPool.FdPool.constructor | crates/datawal-core/src/fd_pool.rs:49-55 | a new pool is empty |
| FdPool.FdPool.TouchOrOpen | crates/datawal-core/src/fd_pool.rs:64-90 | after any history of accesses the pool is the LRU of the successful ones; a failed open leaves it alone |
| FdPool.FdPool.ReadAt | crates/datawal-core/src/fd_pool.rs:98-135 | what is read is what the file holds at that range, whatever the pool holds; it fails to open exactly if the file is neither in the pool nor can be opened |
| FdPool.ReadFileIff | crates/datawal-core/src/fd_pool.rs:98-135 | a read gives exactly the bytes asked for if the file has them, an error at opening exactly if there is no such file, and a short read otherwise |
| FdPool.RecencyMeans | crates/datawal-core/src/fd_pool.rs:64-90 | the LRU order holds each accessed id once, in order of last access |
| FdPool.HitIsLru | crates/datawal-core/src/fd_pool.rs:66-71 | moving a hit to the back gives the LRU of the longer history |
| FdPool.MissIsLru | crates/datawal-core/src/fd_pool.rs:72-89 | opening a miss, and evicting the front of a full pool, gives the LRU of the longer history, with one slot for capacity 0 |
| FdPool.KeptSize | crates/datawal-core/src/fd_pool.rs:64-90 | the pool holds the most recent ids, as many as were accessed or as its capacity, whichever is less, and one at capacity 0 |
| FdPool.KeptWithinCapacityIff | crates/datawal-core/src/fd_pool.rs:64-90 | the pool keeps within its capacity if and only if the capacity is not 0 or nothing was accessed |
| CrashSafety.PowerLossCan | crates/datawal-core/src/record_log.rs:388-428 | the power losses that runs are proved against: any choice of files with all whose entries are durable, each cut anywhere from its synced length on |
| CrashSafety.PowerLossOnly | crates/datawal-core/src/record_log.rs:388-428 | and no others |
| CrashSafety.StepKeeps | crates/datawal-core/src/record_log.rs:149-489 | every step of append, fsync, rotate and restart, succeeding or failing, keeps the writer's invariant, whatever entries are durable |
| CrashSafety.RunKeeps | crates/datawal-core/src/record_log.rs:149-489 | so does every run |
| CrashSafety.StepLeavesNoHole | crates/datawal-core/src/record_log.rs:149-489 | no step lets a segment with records that may vanish get in front of another, if restarts do not start so |
| WriterInv.CrashRecovers | crates/datawal-core/src/record_log.rs:542-655 | after any power loss the log opens with every guaranteed record at its front, nothing that was guaranteed stops being so, and without holes the records found are a prefix of those there were |
| CrashSafety.RunSurvivesPowerLoss | crates/datawal-core/src/record_log.rs:149-489 | crash safety: after any run on a handle opened without a torn tail, and a power loss anywhere, reopening succeeds with all that was promised at the front; and if no file with records could vanish before another that holds anything, as it cannot while start and restarts are anchored, what is found is a prefix of what was appended |
| Promises.ForcedRecordsSurvive | crates/datawal-core/src/record_log.rs:405-489 | every record acknowledged when an fsync or the directory sync of a rotate completes, or when a rotate's first sync does with all entries durable, is found after any later run and power loss |
| Promises.StepKeepsPromises | crates/datawal-core/src/record_log.rs:288-489 | no step takes a durability promise back |
| Entries.PrefixIff | crates/datawal-core/src/record_log.rs:149-206 | over a directory without a torn tail, every run of one handle recovers a prefix if and only if every segment before the last that holds records has a durable entry; and so do all runs whose restarts meet the same condition |
| Entries.HoleLosesFirst | crates/datawal-core/src/record_log.rs:149-206 | a two-segment directory that opens with nothing discarded, and where a second record survives a power loss without the first |
| Entries.RotateLeavesHole | crates/datawal-core/src/record_log.rs:465-473 | an append after an open that did not sync the directory, and a rotate that does not either, lead there |
| Entries.HoledRunLosesFirst | crates/datawal-core/src/record_log.rs:149-489 | a run from an anchored directory, with one restart in place after an interrupted rotate, after which a power loss leaves the second record alone |
| CrashSafety.PoisonContainment | crates/datawal-core/src/record_log.rs:230-489 | whatever fails after whatever partial write, sealed segments stay whole frames, what is recoverable is the acknowledged records or those and the one pending, and a poisoned handle takes no further step |
| CrashSafety.OpenSettled | crates/datawal-core/src/record_log.rs:149-206 | opening over a clean tail resumes at the physical end, with all records and the next txid |
| CrashSafety.OpenResumes | crates/datawal-core/src/record_log.rs:149-206 | opening any directory that scans resumes at the logical end behind all recovered records, with the next txid and the discarded length |
| CrashSafety.JunkTailOpens | crates/datawal-core/src/record_log.rs:149-206 | sealed segments clean and fewer than 24 bytes of any kind behind the frames of the last one: the log opens, finds all records, and counts those bytes as discarded |
| CrashSafety.FreshKeeps | crates/datawal-core/src/record_log.rs:149-206 | opening an empty directory gives segment 1, no records and next txid 1 |
| Txids.FreshStoreIsNumbered | crates/datawal-core/src/record_log.rs:170-356 | over every run from an empty directory, restarts in place included, whose power losses take records from the end only, the scanned txids are 1, 2, 3, ..., and the handle continues with the next |
| Txids.FreshTxidIff | crates/datawal-core/src/record_log.rs:170-171 | over any directory that opens, the next txid is above all on disk if and only if the largest is below the u64 maximum |
| Txids.TxidWraps | crates/datawal-core/src/record_log.rs:170-171 | a log whose one record carries the u64 maximum hands out 1 |
| Txids.ScanKeepsNextTxid | crates/datawal-core/src/record_log.rs:350-356 | on every unpoisoned handle opened without a torn tail, below the bound, a rescan computes the next txid the handle has |
| Gap.OpenMounted | crates/datawal-core/src/record_log.rs:149-206 | at open, physical length minus active size is the discarded tail, and it is 0 exactly over a clean tail |
| Gap.AppendKeepsGap | crates/datawal-core/src/record_log.rs:302-340 | every append keeps that gap, and the frame stands that much after the offset reported |
| Gap.RotateClosesGap | crates/datawal-core/src/record_log.rs:432-489 | a completed rotate leaves a gap of 0 on a new segment and the torn bytes in the old one |
| Gap.AppendFoundIff | crates/datawal-core/src/record_log.rs:302-340 | an append is found on reopen if and only if torn bytes and frame start with that frame and what follows is discardable |
| Gap.AppendLost | crates/datawal-core/src/record_log.rs:302-340 | over a clean tail every append is found; over a torn one it is lost unless the torn bytes repeat through the frame, never so for another record type |
| Gap.AppendOpensIff | crates/datawal-core/src/record_log.rs:302-340 | exactly when an append over a torn tail of any length leaves a log that opens |
| Gap.LongTornTailParses | crates/datawal-core/src/record_log.rs:302-340 | behind a torn tail that holds a whole header the header still parses |
| Gap.ShortTornTailParsesIff | crates/datawal-core/src/record_log.rs:302-340 | behind 8 to 23 torn bytes, the torn bytes and the first 16 bytes of the frame decide whether the header parses; key and payload do not |
| Gap.TornTailBricks | crates/datawal-core/src/record_log.rs:302-340 | torn tails of one to seven, 16 or 20 bytes make every append fatal |
| Gap.PutThenGet | crates/datawal-core/src/datawal.rs:125-163 | a put over a gap: its ref is read the torn length too early, and which bytes the value then depends on |
| Gap.PutsComeBackIff | crates/datawal-core/src/datawal.rs:125-163 | every put that can come next is read back by a get of its ref if and only if the scan at open discarded nothing |
| Gap.BackSameLength | crates/datawal-core/src/datawal.rs:125-163 | over a torn tail, all puts of one txid that are read back have one payload length |
| Gap.RotateTornIff | crates/datawal-core/src/record_log.rs:432-489 | a rotate that creates its segment leaves a log that opens if and only if the scan at open discarded no tail |
| Gap.ForcedIsLost | crates/datawal-core/src/record_log.rs:302-428 | any record that an append does not place where a reopen finds it is lost though append and fsync succeed and no power is lost |
| Gap.PromiseBroken | crates/datawal-core/src/record_log.rs:173-201 | over every torn tail there is such a record, so the durability promise fails |
| Gap.TornExampleBreaks | crates/datawal-core/src/record_log.rs:173-201 | one stray byte in the first segment is such a tail |
| Gap.DurabilityIff | crates/datawal-core/src/record_log.rs:173-487 | the durability promise holds of every run if and only if the scan at open discarded no tail |
| Operations.AppendIsRun | crates/datawal-core/src/record_log.rs:288-341 | an append is a run of the writer's steps that leads to the stated state |
| Operations.FsyncIsRun | crates/datawal-core/src/record_log.rs:405-428 | so is an fsync |
| Operations.RotateIsRun | crates/datawal-core/src/record_log.rs:432-489 | so is a rotate, for every combination of outcomes |
| RecordLog.RecordLog.Open | crates/datawal-core/src/record_log.rs:149-206 | lists any directory, creates segment 1 if there is none and makes its entry durable, scans, and starts the handle; succeeds if and only if the scan does and those calls do, and otherwise gives the error of the first that does not and leaves no more than an empty segment 1 |
| RecordLog.RecordLog.CheckPoisoned | crates/datawal-core/src/record_log.rs:230-236 | refuses with the stored reason exactly when one is stored |
| RecordLog.RecordLog.AppendRecord | crates/datawal-core/src/record_log.rs:288-341 | oversize input changes nothing and consumes no txid; otherwise the frame is written, counters move and the ref is returned, or the handle is poisoned with the bytes written so far in the file; each result has its exact condition |
| RecordLog.RecordLog.Append | crates/datawal-core/src/record_log.rs:276-278 | appends a raw record with an empty key, with the same results |
| RecordLog.RecordLog.Fsync | crates/datawal-core/src/record_log.rs:405-428 | syncs file, then directory; either failure poisons the handle with its own error |
| RecordLog.RecordLog.Rotate | crates/datawal-core/src/record_log.rs:432-489 | succeeds if and only if no call fails and the next id is above the active one, and then the handle is on an empty segment of that id; each failure gives its own error; all poison the handle but those of listing and id allocation |
| RecordLog.RecordLog.Scan | crates/datawal-core/src/record_log.rs:350-356 | rescans; report and next txid change only on success |
| RecordLog.RecordLog.ScanIter | crates/datawal-core/src/record_log.rs:384-387 | a fresh iterator over the ids listed now |
| Growth.StepGrows | crates/datawal-core/src/record_log.rs:288-489 | no step of the writer changes bytes already written or touches a sealed segment |
| Growth.PlacedGrows | crates/datawal-core/src/record_log.rs:302-340 | so a record in place stays in place |
| Growth.AppendPlaces | crates/datawal-core/src/record_log.rs:302-340 | an append to a clean segment adds exactly its record at the old end of the file |
| Reader.ReaderIsSafe | crates/datawal-core/src/record_log_reader.rs:117-164 | interleaved with any steps of the writer and restarts in place without a torn tail, a reader never yields an error, and a finished iteration extends what was recoverable at its snapshot and is a prefix of the writer's history |
| Reader.FinishedBounds | crates/datawal-core/src/record_log.rs:745-890 | both bounds from the invariant of an iteration in progress |
| Reader.StaysInSnapshotIff | crates/datawal-core/src/record_log_reader.rs:117-164 | a consumed iteration yields the records of its snapshot alone if and only if no whole frame reached the last snapshot segment before that was loaded |
| Reader.LateRecordIsYielded | crates/datawal-core/src/record_log_reader.rs:117-164 | a run in which a record appended after the snapshot is yielded |
| Keydir.LiveIff | crates/datawal-core/src/datawal.rs:300-326 | the rebuilt keydir gives a key the ref of its last put not followed by a delete, and no other key |
| Keydir.PayloadIff | crates/datawal-core/src/datawal.rs:332-394 | the checks of get give v if and only if a put frame of the length in the ref stands at the start of the bytes read, with payload v |
| Keydir.RefusedFrames | crates/datawal-core/src/datawal.rs:332-394 | frames of another length, frames of another type, and pieces of a frame are refused, each with its error |
| Keydir.PlacedReads | crates/datawal-core/src/datawal.rs:332-394 | reading through the ref of a put in place passes every check of get and gives its payload |
| Keydir.ReadValueIff | crates/datawal-core/src/datawal.rs:125-134 | a value is read if and only if a put frame with that payload and the length in the ref stands at the ref in its file |
| Keydir.DamagedIsRefused | crates/datawal-core/src/datawal.rs:332-394 | after a burst of at most 32 bits in the frame of a live key, outside its length fields, reading the key is an error, from the ninth byte on that of the checksum |
| Keydir.KeydirServes | crates/datawal-core/src/datawal.rs:125-134 | get returns the projected value of the very key asked for, although it never compares keys |
| Keydir.DirectoryServes | crates/datawal-core/src/datawal.rs:80-134 | over any directory, every key reads back as the projection of the recovered records |
| Keydir.BlindToSegmentation | crates/datawal-core/src/datawal.rs:300-326 | two directories that split the same records differently serve the same values |
| KvRuns.KvStep | crates/datawal-core/src/datawal.rs:80-174 | put, delete, rotate and reopen keep the keydir equal to a rebuild and act on the values as on a plain map |
| KvRuns.KvRefinesMap | crates/datawal-core/src/datawal.rs:80-174 | after any sequence of them, get agrees with the plain map and the keydir with a rebuild from disk |
| KvRuns.KvStarts | crates/datawal-core/src/datawal.rs:80-88 | an opened store reads every key as the projection of the records recovered, torn tail or not; without one it starts a run |
| StoreRuns.StoreSurvivesPowerLoss | crates/datawal-core/src/datawal.rs:80-179 | after any calls of put, delete, fsync and rotate with any outcomes, one fsync completing, and a power loss, a reopened store is the plain map after a prefix of the writes begun that has all those before that fsync |
| StoreRuns.StoreReopens | crates/datawal-core/src/datawal.rs:80-179 | after any such calls, with or without an fsync, and a power loss, a reopened store is the projection of a prefix of the records recovered at open and those of the writes begun |
| KvRuns.RotateKeepsRecords | crates/datawal-core/src/record_log.rs:432-489 | a rotate keeps every record where it is |
| DataWal.RebuildKeydir | crates/datawal-core/src/datawal.rs:300-326 | the replay loop over the lazy iterator gives the keydir of the eager scan, or its error |
| DataWal.AccessorsAgree | crates/datawal-core/src/datawal.rs:95-114 | len, contains_key and ref_of, which read nothing from disk, agree with the live values of every readable store |
| DataWal.DataWal.Open | crates/datawal-core/src/datawal.rs:80-88 | succeeds if and only if the log opens, with the keydir and values of the recovered records, all readable, torn tail or not, and an empty pool of 16 files; otherwise gives the error of the log |
| DataWal.DataWal.Get | crates/datawal-core/src/datawal.rs:125-134 | None exactly for a key not in the keydir; on any store, readable or not, every value given is the payload of a put frame of the length in the ref that stands there; on every readable store, it is the live value of the key; each error is that of the read, and the file counts as accessed exactly if it was opened or in the pool |
| DataWal.DataWal.Items | crates/datawal-core/src/datawal.rs:145-155 | on every readable store, gives every live pair exactly once; the only errors are those of get |
| DataWal.DataWal.Put | crates/datawal-core/src/datawal.rs:159-163 | updates the values at the key if the append is accepted, and leaves them and the keydir alone if not; the log changes as by one append of a put record; each refusal gives its own error; the store stays readable unless the append was accepted over a gap |
| DataWal.DataWal.Delete | crates/datawal-core/src/datawal.rs:170-174 | removes the key under the same conditions; the log changes as by one append of a delete record, for an absent key too |
| DataWal.DataWal.Fsync | crates/datawal-core/src/datawal.rs:177-179 | forces the log and changes no value: all acknowledged records are durable when both syncs succeed; the result is that of the log |
| DataWal.DataWal.CompactTo | crates/datawal-core/src/datawal.rs:196-235 | refuses a target if and only if it is not empty; otherwise writes the compacted form of the values of any readable store, durably and with exact statistics, and leaves the source alone; succeeds if no call fails and counters have room, and not if the target cannot be created, a write fails or the final sync does; and however it ends, the target opens, also after a power loss, on the first records of a complete compaction |
| DataWal.DataWal.CopyAll | crates/datawal-core/src/datawal.rs:221-230 | on every readable store, the copying loop writes the sorted puts numbered from 1, counts their bytes, and when it stops early has written the first of them |
| Compaction.LessIff | crates/datawal-core/src/datawal.rs:218-219 | the recursive comparison is that order |
| Compaction.SortedKeys | crates/datawal-core/src/datawal.rs:218-219 | lists each key of the set once, in byte order: of any two, the earlier is a proper prefix of the later or has the smaller byte where they first differ |
| Compaction.EnumerationUnique | crates/datawal-core/src/datawal.rs:218-219 | there is one sorted list of a set of keys |
| Compaction.CompactionMeans | crates/datawal-core/src/datawal.rs:196-235 | a compacted segment is clean, projects to the source's values, and holds one put per live key with txids from 1 and nothing else, in byte order of the keys, stated by prefixes and first differing bytes |
| Compaction.StoreFits | crates/datawal-core/src/datawal.rs:221-230 | the counters of a compaction have room for any store of up to 270 billion live keys |
| Compaction.CompactionIsCanonical | crates/datawal-core/src/datawal.rs:196-235 | equal values compact to byte-identical segments |
| Compaction.CompactingTwice | crates/datawal-core/src/datawal.rs:196-235 | compacting a compacted store reproduces it byte for byte |
| Compaction.CompactedServes | crates/datawal-core/src/datawal.rs:196-235 | a store over the output serves the source's values |

## Left out

- The writer lock (`lock.rs`) and the kernel's flock: a single writer is assumed.
- Real file system calls, paths and directory creation: the directory above stands for them. Reads of a scan
  and the opening of an existing active file do not fail, and a read through the pool fails only to open or by reaching the end of the file.
- Segment files whose ids have outgrown the width are among the names a listing ignores. That a rotate may
  create one, which the next open does not list, is outside the runs, which stay below the limit.
- Error texts and contexts: errors are a datatype with the source's distinctions.
- `export_jsonl`: JSON and base64 come from libraries and the atomic write is external; its key order is that
  of compaction.
- The accessors `dir`, `active_segment`, `keys`, `is_empty`, `segments`, `recovery_report` and the no-op `close`.
- The iteration order of the key map: `Items` proves its result for any order.
- The CRC crate's own code: the checksum is defined from section 12.1 of RFC 3720.
- The seek-and-read branch of `read_at` off Unix, performance, and the command-line crate.
- Restarts within a run are onto directories without a torn tail. That reopening after any power loss succeeds,
  torn or not, is `CrashSafety.RunSurvivesPowerLoss`; what a handle does over a torn tail is the subject of `Gap`.
- KvRuns.KvRefinesMap: its operations are those that go through; failing and refused ones, and power loss, are
  in `StoreRuns.StoreSurvivesPowerLoss`.
- DataWal.DataWal.Get: after an append was accepted over a gap, a value it gives is still the payload of a put frame that
  stands at the ref, but not always the last one put; `Gap.PutsComeBackIff` says when the value just put comes back.
- `DataWal.Open` replays the log right after the scan in `RecordLog.Open`; nothing comes between them here, so
  the error branch of the replay is dead.
