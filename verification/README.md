# A verified model of the BunnyMQ core

BunnyMQ keeps each partition of a topic as a log of record batches on disk, replicates the commands
that write it through Raft, and coordinates consumer groups through a replicated metadata state
machine. This project models those parts in Dafny 4.11 and proves what they promise.
`dafny verify dfyconfig.toml` checks everything.

## How the model is laid out

* **Wire format** (`Bytes`, `Varint`, `Batch`, `Framing`): varints, zigzag integers, the 38-byte batch
  header and the records. The checksum is a function parameter, so every result holds for any checksum.
* **Log as a value** (`Scans`, `Sampling`, `LogModel`, `LogReads`, `TimeReads`, `LogTruncation`,
  `LogRuns`, `Retention`): segments, sparse indexes, reading by offset and by time, truncation,
  recovery and retention, all related to one flat list of batches.
* **Log as objects** (`SegmentFiles`, `Segments`, `Storages`): the classes that change files, index
  arrays and the segment list in place. Each method's new state is a function of the value model; the
  contracts of the main ones also say, without that function, what a caller sees. A segment is `Valid` only when its two indexes and its byte counter are exactly what indexing its
  batches one by one gives, so a rebuilt index and an incrementally grown one are the same.
* **Partition** (`PartitionModel`, `Reopening`, `CrashSafety`, `PartitionFsm`, `LongPoll`, `EndToEnd`):
  the state machine across crashes, its class, waiting fetchers, and what a consumer decodes in the end.
* **Metadata** (`Ordering`, `RangeAssign`, `MetadataModel`, `MetadataRuns`, `Rebalance`,
  `MetadataFsm`): topics, shards, leaders and both kinds of consumer group.
* **Groups** (`GroupSafety`, `GroupModel`, `GroupCommits`, `GroupCoordinators`): the coordinator's
  requests, interleaved in any way and uninterrupted.

## Main results

* Crashes are invisible: whatever unsynced bytes they lose, also between the write of a batch and the
  roll to the next segment, and again and again while the node opens, a node's log is that of a node
  that never crashed, and a replayed command gets its old offset (`CrashSafety.CrashesAreInvisible`).
  Two exceptions are stated exactly. A node that crashes when retention has passed its sidecar:
  `CrashSafety.OpenIffReached`, with a failing run in `CrashSafety.RetentionPassesSidecar`. A node that
  crashes before its first sidecar: `CrashSafety.OpenWithoutSidecar`, with a failing run in
  `CrashSafety.FirstBatchStoredTwice`. The retention policy is not durable:
  `PartitionFsm.PolicyIffReplayed` says when a restart loses it.
* A read by time starts at the first batch at or after the time if and only if that batch has an index
  entry that the halving search reaches (`TimeReads.ReadByTimeIff`). The first batch of a segment never
  has one (`TimeReads.FirstOfSegmentIsMissed`).
* Retention keeps every read at or above the new first offset if and only if segments expire in order
  (`Retention.ReadsSurviveIff`); `Retention.MiddleSegmentGoes` is a log in which they do not.
* Every run of appends, rolls, boundary truncations and retention refines one flat list of batches
  (`LogRuns.RunRefinesFlatLog`), and following reads visits each batch once
  (`LogReads.FollowVisitsEverything`).
* What producers send is what consumers decode, across crashes and retention (`EndToEnd.RunsDeliver`). A
  batch with a wrong checksum is neither decoded (`EndToEnd.CorruptionIsReported`) nor recovered
  (`Scans.CorruptionStopsScan`).
* No fetcher sleeps through its data (`LongPoll.NoLostWakeup`); taking the channel after the read
  would lose a wake-up (`LongPoll.ReadFirstLosesWakeup`).
* One group generation names one assignment in every interleaving of handlers
  (`GroupSafety.OneAssignmentPerGeneration`), uninterrupted requests give every counted partition
  exactly one owner (`GroupCommits.GroupsStayConsistent`) that can commit it
  (`GroupCommits.OwnersCanCommit`), and shards are never reused (`MetadataRuns.ShardNamesOnePartition`).

## What the model takes as given

* A batch handed to `Append` is well formed: its length field is its length, its checksum matches and
  it has at least one record and at most one per body byte. Everything the encoder produces is
  (`Framing.EncodedWellFormed`).
* `SegmentMaxBytes` is at most 2^31 and `IndexSampleBytes` at least 1 (`LogModel.ValidConfig`); offsets
  stay below 2^63.
* A crash keeps what was synced and loses any suffix of the rest. Raft delivers one command sequence
  and replays what lies above the index that opening returned. An entry's index is its place in that
  sequence.
* In `LongPoll` and `PartitionFsm` appends are serial, because Raft applies one command at a time.

Where a comment and the code disagree, the model follows the code. A comment on leaving a group says
that empty groups are deleted; the code keeps the group and its offsets. The comment on reading by
time promises the first batch at or after a time; the code looks at sampled batches only. By a batch's
time the storage's comment means its base timestamp; the segment's comment and the code mean its newest.

## Model

| member | source | states |
|---|---|---|
| `Bytes.WrapDeltaRestores` | internal/storage/batch.go:142-143 | a timestamp delta taken and added back with wrapping 64-bit arithmetic restores the timestamp, whatever overflowed |
| `Bytes.PutBytes` | internal/storage/batch.go:51-77 | in a fixed-width field the most significant byte comes first |
| `Varint.UvarintLength` | internal/storage/batch.go:268-274 | a varint takes at most k bytes if and only if its value is below 2^(7k) |
| `Varint.UvarintAtMostTen` | internal/storage/batch.go:268-274 | no 64-bit varint is longer than ten bytes |
| `Varint.UvarintGroups` | internal/storage/batch.go:268-274 | every byte of a varint: seven bits of the value, least significant first, and a top bit on all but the last |
| `Varint.AppendUvarint` | internal/storage/batch.go:268-274 | the loop appends exactly the varint of the value |
| `Varint.DecodeUvarint` | internal/storage/batch.go:288-306 | the decoding loop, with its overflow and end-of-data errors, computes the parse that the round trips are about |
| `Varint.UvarintRoundTrip` | internal/storage/batch.go:268-306 | every 64-bit value is read back, with the position just after its bytes |
| `Varint.EndlessVarint` | internal/storage/batch.go:288-306 | a varint without an end is an overflow after ten bytes and truncated before |
| `Varint.ZigzagBijection` | internal/storage/batch.go:280-286 | zigzag and unzigzag are inverse bijections between int64 and uint64, and zigzag interleaves the signs |
| `Batch.EncodeBatch` | internal/storage/batch.go:51-77 | the encoder refuses an empty list and otherwise produces the batch that the round trip is about |
| `Batch.EncodeRecords` | internal/storage/batch.go:51-77 | the record loop writes every record with its index and the first record's timestamp |
| `Batch.AppendRecord` | internal/storage/batch.go:137-167 | the calls that write one record, varint by varint, produce the bytes that the round trip is about |
| `Batch.AppendHeaders` | internal/storage/batch.go:157-162 | the header loop writes every header in order |
| `Batch.EncodedFields` | internal/storage/batch.go:51-77 | every header field, the length, count, checksum, attributes and timestamps, read back from the encoded bytes |
| `Batch.StampFields` | internal/storage/storage.go:201-202 | overwriting bytes 0 to 8 sets the base offset and leaves every other field and the checksummed bytes alone |
| `Batch.DecodeHeaders` | internal/storage/batch.go:171-266 | the header loop computes the parse of the record headers |
| `Batch.DecodeRecord` | internal/storage/batch.go:171-266 | one record's calls, with every truncation error, compute the parse that the round trip is about |
| `Batch.DecodeRecords` | internal/storage/batch.go:81-118 | the record loop computes the parse of all records |
| `Batch.DecodeBatch` | internal/storage/batch.go:81-118 | too short exactly below 38 bytes, truncated when the length field is out of bounds, a checksum error exactly when the record bytes do not have the checksum in the header; otherwise the header read at its byte positions and the records that the record bytes hold |
| `Batch.TornStringIsRefused` | internal/storage/batch.go:215-221 | a length that runs past the end of the record is refused |
| `Batch.TornRecordIsRefused` | internal/storage/batch.go:171-185 | so is a record that runs past the end of the batch or has no bytes |
| `Batch.NegativeLengthIsNoKey` | internal/storage/batch.go:199-213 | any negative key length is a missing key |
| `Batch.RecordByteForByte` | internal/storage/batch.go:137-167 | a record with key, value and header, byte for byte |
| `Batch.BareRecordByteForByte` | internal/storage/batch.go:137-167 | a record without key, value and headers, byte for byte |
| `Batch.KeyRoundTrip` | internal/storage/batch.go:146-152 | an absent key stays absent and an empty one stays empty |
| `Batch.RecordRoundTrip` | internal/storage/batch.go:137-266 | a record is read back whatever its timestamp delta wraps to |
| `Batch.RecordsRoundTrip` | internal/storage/batch.go:81-266 | all records are read back, in order, and the parse ends at the last byte |
| `Batch.BatchRoundTrip` | internal/storage/batch.go:51-118 | an encoded batch, stamped with any offset and followed by any bytes, decodes to exactly the encoded records and ends just after the batch |
| `Framing.EncodedWellFormed` | internal/storage/batch.go:51-77 | what the encoder produces is a well-formed batch with as many records as were given |
| `Framing.StampWellFormed` | internal/storage/storage.go:200-203 | stamping keeps a batch well formed and its checksum valid |
| `Framing.ScanSeesBatch` | internal/storage/log_segment.go:85-111 | at the start of a batch inside a log, whatever follows, the scan sees exactly that batch |
| `Scans.ScanActiveLog` | internal/storage/recovery.go:140-187 | the recovery loop, with its checksum-error count, computes the scan that the next two rows are about |
| `Scans.ScanStopsAtEnd` | internal/storage/recovery.go:140-187 | after whole batches and bytes that do not start with a valid batch, the scan stops at the end of the last batch with the offset after it |
| `Scans.CorruptionStopsScan` | internal/storage/recovery.go:140-187 | after whole batches, a batch with a wrong checksum stops the recovery scan there with one error, whatever follows |
| `Scans.TornTailStopsScan` | internal/storage/recovery.go:140-187 | the beginning of a batch stops it there without error |
| `Scans.ScanRecoversWholeBatches` | internal/storage/recovery.go:140-187 | for every byte prefix of a well-formed log the scan recovers exactly the whole batches in it |
| `Scans.SkipPreservesRead` | internal/storage/segment_storage.go:207-239 | starting the scan at any batch that begins at or before the offset returns what a full scan returns |
| `Scans.ReadIsWindow` | internal/storage/segment_storage.go:207-239 | a read returns whole consecutive batches, the first one past the offset, at most maxBytes when more than one, and stops only where the next would not fit |
| `Sampling.SamplesAreGood` | internal/storage/segment_storage.go:179-202 | index entries name batch starts, ascend, and lie at least one sample interval apart |
| `Sampling.RebuildFits` | internal/storage/offset_index.go:153-161 | the batches that a truncation or recovery keeps never need more entries than all of them did |
| `Sampling.IndexNeverFull` | internal/storage/offset_index.go:83-93 | as long as every batch starts below the segment limit, both indexes have room for another entry, also for the batch that reaches the limit |
| `Sampling.CapacityIsLeast` | internal/storage/offset_index.go:48-51 | the capacity is the least number of entries that cover the segment limit one sample apart |
| `Sampling.FullIndexExists` | internal/storage/offset_index.go:83-93 | a concrete segment, written to past its limit, whose indexes are full when the next entry is due |
| `Sampling.FloorIsBatchStart` | internal/storage/offset_index.go:98-121 | the floor entry lies at the start of a batch that begins at or before the offset looked up |
| `Sampling.CrossingIsCeiling` | internal/storage/time_index.go:92-122 | while sampled timestamps do not go back, the time search finds the first entry at or after the time |
| `LogModel.LogIsConsecutive` | internal/storage/storage.go:178-223 | the batches of all segments form one run of consecutive offsets from the first base offset to the next offset |
| `LogModel.AppendRefines` | internal/storage/storage.go:191-223 | an append to a segment with index room, rolling or not, adds exactly the stamped batch to the flat list and leaves a valid log |
| `LogModel.WrittenRefines` | internal/storage/storage.go:203-211 | between the write of a batch and the roll, full segment or not, the log holds the batch and is otherwise as before |
| `LogModel.BelowLimitHasRoom` | internal/storage/segment_storage.go:189-199 | a segment no batch of which starts at or past the limit can always index the next one |
| `LogReads.ReadMeaning` | internal/storage/storage.go:253-290 | a read in range returns whole consecutive batches of the flat list, the first of which holds the offset, and the offset after them |
| `LogReads.FollowVisitsEverything` | internal/storage/storage.go:253-290 | following the returned offsets from any batch visits that batch and every later one once, across segments, and ends at the latest offset |
| `LogTruncation.TruncateKeepsPrefix` | internal/storage/storage.go:345-408 | cutting at a batch boundary keeps exactly the batches before it, in any segment or at its base, and leaves a valid log that ends there |
| `LogTruncation.TruncateIffBoundary` | internal/storage/storage.go:345-408 | truncation leaves a log that ends at the offset if and only if a batch begins or the log ends there |
| `LogTruncation.TruncateMakesRoom` | internal/storage/storage.go:345-408 | a log that is cut short has room for the next batch, even if its active segment was over its limit |
| `LogTruncation.RecoverKeepsPrefix` | internal/storage/recovery.go:21-135 | recovery keeps a prefix of the flat list, every batch whose bytes all survived, and leaves a valid log, also from an active segment that had reached its limit |
| `LogTruncation.RetainRefines` | internal/storage/retention.go:16-102 | without its first segments a log is still one and lost exactly their batches |
| `LogTruncation.RetainKeepsReads` | internal/storage/retention.go:16-102 | reads at or above the new first offset do not change |
| `LogRuns.StepRefines` | internal/storage/storage.go:178-408 | one append, boundary truncation or prefix deletion is the same operation on the flat list |
| `LogRuns.RunRefinesFlatLog` | internal/storage/storage.go:178-408 | so is every run of them, and the segments stay a valid log throughout |
| `SegmentFiles.LogSegment.Append` | internal/storage/log_segment.go:57-67 | the bytes go to the end of the file, whose old length is returned; a read-only file is left alone |
| `SegmentFiles.LogSegment.Next` | internal/storage/log_segment.go:85-111 | one step of the scan: the batch at a position, or nothing |
| `SegmentFiles.LogSegment.Truncate` | internal/storage/log_segment.go:114-120 | cuts the file and what of it was synced |
| `SegmentFiles.LogSegment.Sync` | internal/storage/log_segment.go:123-125 | everything in the file is durable |
| `SegmentFiles.OffsetIndex.Append` | internal/storage/offset_index.go:83-93 | adds an entry, or refuses when the mapping is full and changes nothing |
| `SegmentFiles.OffsetIndex.Lookup` | internal/storage/offset_index.go:98-121 | the binary search finds the last entry at or below the offset, or reports that there is none |
| `SegmentFiles.OffsetIndex.Seal` | internal/storage/offset_index.go:125-149 | trims the mapping to the entries and keeps them |
| `SegmentFiles.OffsetIndex.Rebuild` | internal/storage/offset_index.go:153-161 | holds exactly the given entries afterwards |
| `SegmentFiles.TimeIndex.Append` | internal/storage/time_index.go:80-90 | adds an entry, or refuses when the mapping is full and changes nothing |
| `SegmentFiles.TimeIndex.Lookup` | internal/storage/time_index.go:99-122 | for any entries at all, finds one at or after the time whose predecessor is before it, or the last entry is before the time; which one is the search that the next rows are about |
| `TimeReads.SearchIffReached` | internal/storage/time_index.go:99-122 | the search ends on the first entry at or after the time if and only if every probe above it on the way there is at or after the time too |
| `TimeReads.TimesAreSampled` | internal/storage/segment_storage.go:189-199 | the time index lists exactly the sampled batches, in order, each with its own newest timestamp and relative offset |
| `TimeReads.SampledIff` | internal/storage/segment_storage.go:189-199 | a batch has an index entry if and only if the batches since the last one that has make up a sample |
| `TimeReads.FirstIsNotFound` | internal/storage/segment_storage.go:189-199 | the first batch of a segment never gets an index entry, so no search by time finds it |
| `TimeReads.LookupIffFindable` | internal/storage/segment_storage.go:244-251 | what a segment finds by time is never before the time, and it is the first such batch if and only if that batch has an entry the search reaches |
| `TimeReads.FindableInOrder` | internal/storage/time_index.go:92-98 | with timestamps that do not go back, a batch can be found if and only if it has an entry |
| `TimeReads.ReadByTimeIff` | internal/storage/storage.go:292-311 | a read by time returns what is documented, a read from the first batch with a record at or after the time, if and only if that batch has an entry the search reaches or there is no such batch |
| `TimeReads.ReadByTimeAnswers` | internal/storage/storage.go:292-311 | in any case the answer is a read from a batch that is not before the time, or nothing, and then every segment's last sampled batch is before it |
| `TimeReads.FirstOfSegmentIsMissed` | internal/storage/storage.go:292-311 | whenever a read by time should start at the first batch of a segment, it does not |
| `TimeReads.OnlyBatchIsMissed` | internal/storage/storage.go:292-311 | whatever batch is appended to an empty partition, a read by its own timestamp reports that there is none |
| `SegmentFiles.TimeIndex.Seal` | internal/storage/time_index.go:126-150 | trims the mapping to the entries and keeps them |
| `SegmentFiles.TimeIndex.Rebuild` | internal/storage/time_index.go:154-162 | holds exactly the given entries afterwards |
| `Segments.CollectSamples` | internal/storage/recovery.go:213-237 | the rebuild loop collects the entries and the byte counter that appending the batches one by one would have left |
| `Segments.BuildIndexes` | internal/storage/recovery.go:191-239 | new indexes that hold those entries |
| `Segments.Segment.Create` | internal/storage/segment_storage.go:33-61 | a new empty segment |
| `Segments.Segment.OpenSealed` | internal/storage/segment_storage.go:67-112 | a sealed segment is read back as it was |
| `Segments.Segment.Recover` | internal/storage/recovery.go:61-131 | what is left of the active segment after a crash: its whole batches, with indexes and byte counter as if nothing else had been appended |
| `Segments.Segment.Append` | internal/storage/segment_storage.go:179-202 | appends the batch, indexes it when a sample is due, and stays valid; fails if and only if an entry is due and the indexes are full |
| `Segments.Segment.Read` | internal/storage/segment_storage.go:207-239 | a read through the sparse index equals a full scan for every size and every offset down to 2^31 below the base; further down it is a scan from a batch at or below the wrapped distance |
| `Segments.Segment.ReadByTime` | internal/storage/segment_storage.go:244-251 | reads from the batch of the entry that the time search ends on, never emptily, or finds nothing |
| `Segments.Segment.Seal` | internal/storage/segment_storage.go:255-267 | the segment is durable and refuses appends, and holds what it held |
| `Segments.Segment.FindBytePos` | internal/storage/recovery.go:243-265 | the byte position of the batch that begins at the offset, or the end of the log when none does |
| `Segments.Segment.TruncateAt` | internal/storage/storage.go:378-404 | keeps exactly the batches before the cut, reopens the segment for appending and rebuilds its indexes |
| `Segments.Segment.FirstBatchTimestamp` | internal/storage/retention.go:123-129 | the timestamp in the first batch's header, or nothing for an empty segment |
| `Retention.OverLimitIsShortest` | internal/storage/retention.go:30-41 | the byte policy marks the shortest prefix whose removal meets the cap, or all sealed segments |
| `Retention.TotalIsBytes` | internal/storage/retention.go:32-36 | the total that the byte limit is compared with is the length of all batches from a segment on |
| `Retention.RetainedMeaning` | internal/storage/retention.go:30-60 | what retention leaves, in bytes and in times |
| `Retention.BytesOnlyDropsPrefix` | internal/storage/retention.go:30-41 | without a time limit exactly that prefix is deleted |
| `Retention.AscendingExpireInOrder` | internal/storage/retention.go:43-60 | segments expire in order when first-batch timestamps do not go back |
| `Retention.RetainedIsSuffix` | internal/storage/retention.go:16-102 | segments that expire in order leave a suffix of the log |
| `Retention.SuffixIffExpiredInOrder` | internal/storage/retention.go:16-102 | retention leaves a suffix if and only if segments expire in order; otherwise it leaves a hole |
| `Retention.HoleStopsReads` | internal/storage/retention.go:16-102 | when segments do not expire in order, some offset in range then answers every read with nothing and the same offset, though it had data |
| `Retention.ReadsSurviveIff` | internal/storage/retention.go:16-102 | all reads at or above the new first offset are unchanged if and only if segments expire in order |
| `Retention.MiddleSegmentGoes` | internal/storage/retention.go:43-60 | a concrete valid log of four segments of which retention deletes the second |
| `Retention.RetainedKeepsReads` | internal/storage/retention.go:16-102 | then the active segment stays and reads at or above the new first offset are unchanged |
| `Storages.OpenSegments` | internal/storage/recovery.go:21-135 | opens sealed segments and recovers the last one, full or not, whether or not the segments abut; the result is the log that survived the crash |
| `Storages.Storage.Create` | internal/storage/storage.go:116-172 | an empty partition: one segment at offset zero |
| `Storages.Storage.Open` | internal/storage/storage.go:116-172 | opening what a crash left, inside a roll or inside an earlier opening too, gives a storage that holds the recovered log and continues at its end; valid if the log was |
| `Storages.Storage.Append` | internal/storage/storage.go:191-251 | returns the offset it stamps, moves the next offset by the record count, and rolls exactly when the segment limit is reached; fails if and only if an index entry is due and there is no room for it |
| `Storages.Storage.Read` | internal/storage/storage.go:253-290 | out of range exactly below the first offset; empty exactly at or past the end, with the offset asked for; otherwise a scan of the one segment, with a later offset within the log to go on from |
| `Storages.Storage.ReadByTime` | internal/storage/storage.go:292-311 | the loop over the segments returns what the first segment that finds anything returns: a read from a batch that is not before the time |
| `Storages.Storage.FindSegment` | internal/storage/storage.go:273-282 | the binary search finds the segment that holds the offset |
| `Storages.Storage.LatestOffset` | internal/storage/storage.go:322-326 | the first offset plus the number of records held |
| `Storages.Storage.Sync` | internal/storage/storage.go:339-343 | makes the active segment durable and changes nothing else |
| `Storages.Storage.TruncateTo` | internal/storage/storage.go:345-408 | refuses an offset past the end and otherwise cuts there, whether or not the segments abut; a valid storage is valid again if and only if the offset is a batch boundary |
| `Storages.Storage.MarkByBytes` | internal/storage/retention.go:30-41 | marks exactly the segments the byte policy deletes |
| `Storages.Storage.MarkByTime` | internal/storage/retention.go:43-60 | adds exactly the sealed segments past the time limit |
| `Storages.Storage.DeleteMarked` | internal/storage/retention.go:62-89 | the splice loop removes the marked segments and keeps the others in order |
| `Storages.Storage.EnforceRetention` | internal/storage/retention.go:16-102 | deletes a sealed segment if and only if it and what follows take more than the byte limit, or its successor's first batch is older than the retention time; keeps the rest in order, counts the deleted ones, and stays valid whenever segments expire in order |
| `PartitionModel.NextIsExpected` | internal/partition/partition.go:92-124 | the next offset is the number of records a crash-free node would have appended |
| `PartitionModel.InitialInv` | internal/partition/partition.go:63-90 | a new partition satisfies the invariant |
| `CrashSafety.ApplyKeepsInv` | internal/partition/partition.go:92-113 | applying the next command keeps the invariant |
| `CrashSafety.WriteKeepsSound` | internal/storage/storage.go:200-212 | so does the write of its batch alone, but for the room in the segment |
| `CrashSafety.PersistKeepsInv` | internal/partition/partition.go:126-139 | a sidecar written after a sync names a point that survives every crash |
| `CrashSafety.RetainKeepsInv` | internal/storage/retention.go:16-102 | deleting segments from the front keeps the invariant, however far it goes |
| `CrashSafety.DurableSurvives` | internal/storage/recovery.go:140-187 | whatever suffix is lost, every batch before the sidecar's offset is recovered |
| `CrashSafety.SidecarIsBoundary` | internal/partition/partition.go:82-86 | the sidecar's offset is a batch boundary of the recovered log |
| `CrashSafety.OpenKeepsInv` | internal/partition/partition.go:63-90 | opening after a crash, between operations or inside an append, gives exactly the log and the offset of the sidecar's point in the command sequence |
| `CrashSafety.OpenIffReached` | internal/partition/partition.go:82-86 | with a sidecar, opening goes right if and only if retention has not passed the sidecar's offset |
| `CrashSafety.RetentionPassesSidecar` | internal/partition/partition.go:82-86 | a concrete run in which retention passes the sidecar's offset: opening goes wrong, and the next command writes offset one into a segment that begins at two |
| `Reopening.ReopenedIsOpened` | internal/storage/storage.go:367-375 | however often opening crashes while it deletes segments, and whatever unsynced bytes each crash loses, it ends in the log it would have ended in at once |
| `CrashSafety.ReopenKeepsInv` | internal/partition/partition.go:63-90 | so opening keeps the invariant however often it is interrupted |
| `CrashSafety.RunKeepsInv` | internal/partition/partition.go:63-139 | every run of applies, syncs, persists, retention and crashes, those inside an append and inside opening too, keeps the invariant |
| `CrashSafety.CrashesAreInvisible` | internal/partition/partition.go:63-139 | in every such run, crashes inside opening included, the log is the crash-free one less what retention removed, and a command gets the same offset each time it is applied |
| `CrashSafety.OpenWithoutSidecar` | internal/partition/partition.go:68-77 | without a sidecar, opening restores the state at index zero if and only if the log is one segment at offset zero that is empty or whose first batch is torn |
| `CrashSafety.FirstBatchStoredTwice` | internal/partition/partition.go:68-77 | a concrete crash before the first sidecar after which replay stores a batch twice |
| `PartitionFsm.SidecarRoundTrip` | internal/partition/partition.go:207-231 | the sidecar's two numbers, each at its place in the 16 bytes, are read back |
| `PartitionFsm.OpenPartition` | internal/partition/partition.go:63-90 | recovers, cuts back to the sidecar when ahead of it, and returns the index to continue from, with the configured retention policy in force; a malformed sidecar is an error; the machine is ready if and only if retention had not passed the sidecar's offset |
| `PartitionFsm.PolicyIffReplayed` | internal/storage/storage.go:162-163 | after a restart and any number of replayed commands the retention policy is that of a node that never crashed if and only if a replayed command sets one, or none before did, or the last before set the configured one |
| `PartitionFsm.PolicyIsForgotten` | internal/storage/storage.go:162-163 | a policy that was set before the sidecar is not in force after a restart |
| `PartitionFsm.LastPolicyIs` | internal/partition/partition.go:103-108 | the policy in force is that of the last command that sets one |
| `PartitionFsm.ResultIsOffset` | internal/partition/partition.go:96-102 | a proposer is told the first offset of its batch as the log holds it, byte for byte from the length on |
| `PartitionFsm.PartitionFSM.Update` | internal/partition/partition.go:92-124 | applies the delivered commands in order, then persists; every proposer is told the offset its batch has in the log of a node that never crashed, the last policy among the commands is in force, and the invariant is kept |
| `PartitionFsm.PartitionFSM.ApplyOne` | internal/partition/partition.go:94-113 | one entry: append and report the base offset, or set the retention policy |
| `PartitionFsm.PartitionFSM.PersistApplied` | internal/partition/partition.go:126-139 | the log is synced before the new sidecar takes the old one's place |
| `LogReads.EmptyIffAtEnd` | internal/storage/storage.go:253-290 | a read is empty if and only if the offset is not below the end |
| `LogReads.ReadGoesOn` | internal/storage/storage.go:253-290 | a read is out of range exactly below the first offset, never sends the reader back, and with nothing read returns the offset asked for |
| `LongPoll.StepKeepsInv` | internal/coordinator/data/data.go:266-314 | every step of an append and of a fetcher keeps: a waiter with data holds a channel that is closed or about to be |
| `LongPoll.AnsweredByRead` | internal/coordinator/data/data.go:266-314 | a fetcher is answered with what a read found, or gives up with nothing and offset zero |
| `LongPoll.NoLostWakeup` | internal/coordinator/data/data.go:266-314 | in every reachable state, a fetcher that waits below the end is woken by the end of the append under way and then reads its data |
| `LongPoll.ReadFirstLosesWakeup` | internal/coordinator/data/data.go:272-306 | with the channel taken after the read instead, a run ends with a waiter that has data, an open channel and nothing under way |
| `EndToEnd.Decode` | internal/client/batch_decoder.go:27-56 | the loop returns the records of all batches up to the first bad one, and its error |
| `EndToEnd.DecodeRecords` | internal/client/batch_decoder.go:38-52 | each record at the base offset plus its index, of two headers with one key the later |
| `EndToEnd.DecodingStored` | internal/client/batch_decoder.go:27-56 | stored batches decode, without error, to the records that were sent, in order |
| `EndToEnd.CorruptionIsReported` | internal/client/batch_decoder.go:27-56 | after stored batches, one with a wrong checksum ends the decoding with that error and exactly the records before it |
| `EndToEnd.TornBatchIsReported` | internal/client/batch_decoder.go:27-56 | so does one that is cut short, with its error |
| `EndToEnd.NoErrorMeansChecked` | internal/client/batch_decoder.go:27-56 | without an error, the data are batches each of which has its checksum |
| `EndToEnd.RecordsArriveAsSent` | internal/storage/segment_storage.go:207-239 | a read at any offset a node holds decodes to whole sends in order, the first the one that holds the offset, whatever policy commands lie between the sends |
| `EndToEnd.DeliveredAtOffsets` | internal/client/batch_decoder.go:38-44 | the decoded records carry consecutive offsets from the first send's base offset on |
| `EndToEnd.DeliveredAsSent` | internal/client/batch_decoder.go:38-52 | every record arrives once, in the order sent, with its timestamp, key and value |
| `EndToEnd.LastHeaderStays` | internal/client/batch_decoder.go:45-50 | a header key is there if and only if it was sent, with the value sent last |
| `EndToEnd.RunsDeliver` | internal/partition/partition.go:63-139 | the same in every run of a partition with appends, policy commands, syncs, retention and crashes |
| `Ordering.SortSlice` | internal/metadata/metadata.go:440-447 | the result is sorted, has the same elements, and depends only on them |
| `Ordering.SortedElementsUnique` | internal/metadata/metadata.go:400-419 | however a map is iterated, sorting what it yields gives one and the same sequence |
| `Ordering.PlaceIsRank` | internal/metadata/metadata.go:440-447 | an element's place in the sorted sequence is the number of elements before it |
| `Ordering.StringLeMeans` | internal/metadata/metadata.go:440-447 | a string is before those it begins, and otherwise the one that is smaller where they first differ is |
| `RangeAssign.RangesPartition` | internal/coordinator/group/groupcoord.go:521-535 | the ranges begin at zero, end at the partition count, abut, and differ in length by at most one, the longer ones first |
| `RangeAssign.AssignTopic` | internal/coordinator/group/groupcoord.go:520-536 | the cursor loop gives every member exactly its range of the topic |
| `RangeAssign.Assign` | internal/coordinator/group/groupcoord.go:497-540 | the nested loops compute the range assignment, members without partitions included |
| `RangeAssign.AssignedHolds` | internal/coordinator/group/groupcoord.go:497-540 | a member holds a partition if and only if the topic is listed and the number lies in the range of the member's place |
| `RangeAssign.AssignedOnce` | internal/coordinator/group/groupcoord.go:497-540 | every partition of a listed topic has exactly one owner, nothing else is given out, and every member is listed |
| `RangeAssign.AssignedIgnoresOrder` | internal/coordinator/group/groupcoord.go:502-508 | the assignment depends neither on the order of the members nor on that of the topics |
| `MetadataModel.SlicesPartition` | internal/metadata/metadata.go:414-418 | the slices begin at zero, end at the number of partitions, abut, and differ in size by at most one |
| `MetadataRuns.ApplyKeepsInv` | internal/metadata/metadata.go:81-211 | every command keeps partitions numbered, shards distinct and below the counter, and never moves an epoch back |
| `MetadataRuns.PartitionsAreNumbered` | internal/metadata/metadata.go:110-179 | in every reachable state a topic's partitions are exactly the numbers below its partition count |
| `MetadataRuns.ShardNamesOnePartition` | internal/metadata/metadata.go:110-211 | a shard seen in two states of a run belongs to one partition that was there all the while; its epochs never go back, and shard and epoch name one leader |
| `Rebalance.SlicesBalanced` | internal/metadata/metadata.go:414-418 | a member's share is the quotient of partitions and members or one more |
| `Rebalance.OwnedOnce` | internal/metadata/metadata.go:400-419 | no partition has two owners, and only eligible ones are given out |
| `Rebalance.OwnerExists` | internal/metadata/metadata.go:400-419 | every eligible partition has an owner |
| `Rebalance.SliceMeans` | internal/metadata/metadata.go:400-419 | a member owns a partition if and only if it exists, is subscribed to, and its place among those lies between i*n/m and (i+1)*n/m for the member's place i |
| `Rebalance.RebalancedHolds` | internal/metadata/metadata.go:400-419 | balancing moves nothing but what members own |
| `Rebalance.SubscribedTopics` | internal/metadata/metadata.go:421-427 | the topics that some member subscribes to, in whatever order members are visited |
| `Rebalance.CollectEligible` | internal/metadata/metadata.go:421-438 | exactly the partitions of existing topics that are subscribed to |
| `Rebalance.RebalanceGroup` | internal/metadata/metadata.go:400-438 | the balanced group is one value, whatever order the maps are iterated in |
| `MetadataFsm.MetadataFSM.CreateTopic` | internal/metadata/metadata.go:110-139 | refuses an existing name and bad numbers; otherwise adds the topic as given and its partitions, on consecutive shards from the next one, each with its replicas, without a leader |
| `MetadataFsm.MetadataFSM.DeleteTopic` | internal/metadata/metadata.go:141-151 | removes the topic and exactly its partitions; a missing topic is no error |
| `MetadataFsm.MetadataFSM.AlterPartitionCount` | internal/metadata/metadata.go:153-179 | only grows a topic, adding the missing partitions on the next shards with what replicas are given; the others stay as they are |
| `MetadataFsm.MetadataFSM.AlterRetention` | internal/metadata/metadata.go:181-189 | sets the two limits of the topic and nothing else, or reports that it is not there |
| `MetadataFsm.MetadataFSM.RegisterNode` | internal/metadata/metadata.go:191-197 | the node has the address given, every other node its own |
| `MetadataFsm.MetadataFSM.AssignLeader` | internal/metadata/metadata.go:199-211 | the proposed leader and epoch are in force if the epoch is newer, and refused otherwise; replicas and shard stay |
| `MetadataFsm.MetadataFSM.JoinGroup` | internal/metadata/metadata.go:219-260 | adds the member under the id given or one made from host and time, balances the group, begins the next generation and reports the member's share |
| `MetadataFsm.DecimalReadsBack` | internal/metadata/metadata.go:235-238 | the number in a generated id reads back, without leading zeros |
| `MetadataFsm.MetadataFSM.JoinGroupState` | internal/metadata/metadata.go:265-285 | stores the member and, if one is sent along, the assignment, and begins the next generation |
| `MetadataFsm.MetadataFSM.LeaveGroup` | internal/metadata/metadata.go:287-306 | removes a member, by either form of group, rebalancing or storing the assignment sent along, or reports that it is not there |
| `MetadataFsm.MetadataFSM.LeaveGroupState` | internal/metadata/metadata.go:310-334 | stores the new assignment, clears it when nobody is left, and keeps the committed offsets |
| `MetadataFsm.MetadataFSM.Heartbeat` | internal/metadata/metadata.go:336-350 | notes the time of the one member and asks for a rebalance exactly if the generation differs |
| `MetadataFsm.MetadataFSM.CommitOffsets` | internal/metadata/metadata.go:352-365 | of several entries for a partition the last one stands, and without one what was stored |
| `MetadataFsm.MetadataFSM.CommitGroupOffsets` | internal/metadata/metadata.go:368-383 | every partition named has the offset given, every other one the offset it had |
| `MetadataFsm.MetadataFSM.Rebalance` | internal/metadata/metadata.go:385-396 | drops the expired members, balances the rest and begins the next generation |
| `MetadataFsm.MetadataFSM.Update` | internal/metadata/metadata.go:81-108 | every command has the effect and the outcome of the value model |
| `MetadataFsm.MetadataFSM.Replay` | internal/metadata/metadata.go:53-108 | replicas fed the same commands reach the same state, however each iterates its maps |
| `GroupSafety.GenerationsAgree` | internal/metadata/metadata.go:283 | two change counts have the same 32-bit generation if and only if they differ by a multiple of 2^32 |
| `GroupSafety.StepKeepsInv` | internal/coordinator/group/groupcoord.go:105-268 | every lookup, proposal and other command keeps the stored assignment exclusive and the generation in step with the changes |
| `GroupSafety.OneAssignmentPerGeneration` | internal/coordinator/group/groupcoord.go:105-268 | in every interleaving of joins, leaves and evictions one generation names one assignment, and it is exclusive |
| `GroupSafety.AnswersAreDisjoint` | internal/coordinator/group/groupcoord.go:183-203 | two join answers to different members with the same generation share no partition, though each may be read from a replica that is behind |
| `GroupModel.AssignmentForHolds` | internal/coordinator/group/groupcoord.go:497-540 | a member is assigned a partition if and only if the topic is listed and exists and the number lies in the range of as many-th member as come before it |
| `GroupModel.JoinAnswer` | internal/coordinator/group/groupcoord.go:105-181 | what an accepted join leaves: the member added, every member's range of the present counts, the next generation, and nothing else different |
| `GroupModel.LeaveAnswer` | internal/coordinator/group/groupcoord.go:207-258 | the same for a leave |
| `GroupModel.AnswersCover` | internal/coordinator/group/groupcoord.go:199-203 | the answers to all members together hold exactly the partitions that were counted |
| `GroupModel.CommitEffect` | internal/coordinator/group/groupcoord.go:271-311 | a commit is accepted if and only if it comes from a member, in the current generation, for partitions assigned to it; then exactly its offsets change |
| `GroupModel.JoinKeepsConsistent` | internal/coordinator/group/groupcoord.go:105-181 | an uninterrupted join keeps the topics shared, though it compares one member only, and leaves the range assignment for the partitions the topics then have |
| `GroupModel.LeaveKeepsConsistent` | internal/coordinator/group/groupcoord.go:207-258 | so does an uninterrupted leave or eviction, for the topics that still exist |
| `GroupModel.OwnedIffCounted` | internal/coordinator/group/groupcoord.go:497-540 | in a consistent group a partition has an owner, and then only one, if and only if its topic is subscribed to and it was counted |
| `GroupCommits.GroupsStayConsistent` | internal/coordinator/group/groupcoord.go:105-268 | in every run of uninterrupted requests all members subscribe alike, the assignment's keys are the members, and the partitions that have an owner are exactly those counted at the last change |
| `GroupCommits.AnswersHoldEverything` | internal/coordinator/group/groupcoord.go:105-268 | in every reachable state of such a run the answers to all members together hold every counted partition |
| `GroupCommits.OwnersCanCommit` | internal/coordinator/group/groupcoord.go:271-311 | whatever was committed before, the owner's commit in the current generation is stored |
| `GroupCommits.OffsetsWrittenByOwners` | internal/coordinator/group/groupcoord.go:271-311 | every stored offset was last written by the member that owned the partition in the generation then current |
| `GroupCommits.OneWriterPerGeneration` | internal/coordinator/group/groupcoord.go:271-311 | no two members write one partition in one generation, for commits fewer than 2^32 changes apart |
| `GroupCommits.OffsetsSurvive` | internal/metadata/metadata.go:310-334 | offsets survive every join and leave unchanged, that of the last member too |
| `GroupCoordinators.TopicSetsEqual` | internal/coordinator/group/groupcoord.go:477-493 | true if and only if both lists hold the same topics, each as often |
| `GroupCoordinators.Admit` | internal/coordinator/group/groupcoord.go:105-146 | the refusals in order, the last resting on one member; it decides for all when members subscribe alike |
| `GroupCoordinators.GroupCoordinator.JoinGroup` | internal/coordinator/group/groupcoord.go:105-204 | each refusal exactly under its condition; on acceptance the member's id, the new generation and exactly the partitions in the member's range of the topics' present counts, and the member's heartbeat noted and no other; a refusal changes nothing |
| `GroupCoordinators.GroupCoordinator.LeaveGroup` | internal/coordinator/group/groupcoord.go:207-268 | accepted exactly from a member; the others have their ranges of the present counts, the offsets stand, and the member's heartbeat is forgotten and no other |
| `GroupCoordinators.GroupCoordinator.CommitOffset` | internal/coordinator/group/groupcoord.go:271-311 | accepted if and only if the caller is a member, in the current generation, and every partition is assigned to it, each failed condition with its own refusal; then the offsets given are stored and no other changes |
| `GroupCoordinators.GroupCoordinator.Heartbeat` | internal/coordinator/group/groupcoord.go:329-353 | notes a member's heartbeat, and no other, and tells it whether its generation is behind |
| `GroupCoordinators.GroupCoordinator.SweepGroup` | internal/coordinator/group/groupcoord.go:418-472 | evicts exactly the members whose last heartbeat is longer ago than their session timeout, one generation each, and forgets their heartbeats only; offsets and other groups stand; in a group with a range assignment the rest have that for the partitions the topics have now |

## Left out

- Segments.Segment.Recover: how `scanActiveLog`'s result is cut off the file and the checksum errors it logs are not separate states; the segment is described after recovery.
- GroupCoordinators.GroupCoordinator.SweepGroup: one group at a time and without the leader check that skips the sweep on other nodes; the clock is the parameter `now`. Each eviction starts from the group as the one before left it. In the source that rests on aliasing: the query for all groups (internal/metadata/metadata.go:561) copies each group but shares its `Members` map, so the sweep sees members disappear from its own copy. The model looks the group up again instead.
- GroupCoordinators.GroupCoordinator.JoinGroup: the generated id of a member that gives none is a parameter.
- Storages.Storage.Append: not stated for an active segment of 2^31 bytes or more, where an index entry's 32-bit position would wrap; a running node never gets there. After a failed call only the next offset is described: the batch's bytes are in the file by then.
- Segments.Segment.Read: for offsets more than 2^31 below the base it says only where the scan may start; storage never asks a segment for an offset below its base.
- a crash that undoes a truncation: cutting a file is durable at once; the deletion of segments before it may stop after any of them.
- memory mapping, page rounding, file names, directory entries and the byte encoding of index entries: an index is an array of entries, a file a byte sequence with a synced length.
- nil against empty values and header lists: both are the empty sequence; keys keep the distinction.
- malformed record bytes: lengths inside a record that would fail at run time end the parse with an error value, and the round trips are about encoder output.
- readers and the retention loop running at the same time as appends inside one storage: storage methods are not interleaved; `LongPoll` interleaves the steps that hand data over.
- Close and the closed flag, metrics, logging, JSON, gRPC, Raft itself, snapshots of the metadata, replica placement and the client's retries.
- Raft indexes with gaps: entries that Raft keeps to itself are not delivered, so an index is a place in the delivered sequence.
- wrap-around of the 64-bit shard counter: it is a natural number; group generations do wrap at 32 bits.
- Go's string order is by bytes; here it is by characters, and only that it is a total order matters.
- commit fencing and completeness of assignments under interleaved handlers: the state machine does not check again what a coordinator looked up, so these are stated for uninterrupted requests only.
- RebuildHeartbeatTable, FetchCommittedOffsets and the read-only metadata queries: each copies out or fills in state that other members already describe.
