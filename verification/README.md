# Verification of the LevelDB store and the nanopb codec

YumQuest ships two C and C++ libraries: LevelDB, a log-structured merge store, and nanopb,
a protobuf codec for small systems. This project models both in Dafny and proves what they
promise.

The modules fall into these groups.

* **The store** (`InternalKeys`, `SortedLists`, `Versions`, `VersionBuilders`, `Compactions`,
  `CompactionPickers`, `CompactionGaps`, `Stores`, `StoreSteps`, `StoreFlushes`,
  `StoreCompactions`, `StoreRuns`, `StoreInterleavings`, `CompactionHazards`,
  `FlushHazards`, `DBImpls`). The specification is the plain history of writes. The store is
  a state machine over memtable, immutable memtable, level files and snapshots; the class
  `DBImpl` runs the same steps on its fields. Every read in every reachable state agrees with
  the history, as long as each compaction is safe in the sense described below, also when
  writes and flushes go on while its loop runs.
* **Writing** (`GroupCommits`, `WriteBatches`, `LogFormat`, `LogScans`, `LogWriters`,
  `LogReaders`, `LogRecoveries`, `MemTables`). Queued writers, the leader's group, the log,
  its recovery after a crash at any byte, and what is read from a damaged log.
* **Iterators** (`Cursors`, `DBIters`, `MergingIterators`, `TwoLevelIterators`). Each one
  refines a position in a sorted list, in both directions.
* **Files** (`Coding`, `Crc32c`, `Crc32cNumbers`, `FormatNumbers`, `Comparators`,
  `BlockFormat`, `BlockScans`, `BlockBuilders`, `Blocks`, `TableFormat`, `TableIndexes`,
  `TableImages`, `TableBuilders`, `Tables`, `TableIterators`, `TableFiles`, `TableDamages`,
  `BloomFilters`, `FilterBlocks`, `VersionEdits`, `Manifests`). Byte-exact encoders and
  decoders, from one varint up to a lookup in, and a walk through, a whole table file with
  its filter, and lookups in damaged files.
* **Memory** (`SkipLists`, `LruHandles`, `HandleTables`, `LruCaches`, `Randoms`). Linked
  structures with their pointers, reference counts and rings.
* **nanopb** (`NanopbMessages`, `NanopbIterators`, `NanopbEncoding`, `NanopbStreams`,
  `NanopbReadings`, `NanopbDecoding`, `NanopbUnknownFields`, `NanopbRoundTrips`). Encoding
  and decoding over descriptor trees; decoding is given as a function of any bytes.

Some promises are false of the code as it stands. Each is proved with an input and with its
exact condition:

* A compaction can make reads wrong when it splits the files of a level that share a user
  key. This happens in two ways, each shown by a run from the empty store:
  - One of two such files moves down, and a read stops at the older value that stayed above
    it (`SplitKeyBreaksReads`; the code picks exactly this file).
  - A merge drops a deletion marker because no level below the output has its key, while
    the older version stays behind in the output level, and a deleted key comes back
    (`DroppedMarkerBreaksReads`; the levels stay in order).

  The condition is one on the store and the pick before the compaction. A merge keeps the
  invariant if and only if `MergeIsSafe` (`MergeKeepsInvIff`): no file that stays in the
  level has an older version of a key whose version survives, and no marker that readers
  need is dropped while a file left in either level has an older version. A move keeps it
  if and only if `MoveIsSafe` (`MoveKeepsInvIff`). At level 0 the picking code never splits
  a key of level 0 (`LevelZeroNotSplit`), but it may split one of level 1. The methods of
  `DBImpl` assume nothing about this and state the same equivalences; the runs of
  `StoreRuns` have the compactions that are safe.
* A flush of the memtable in the middle of a compaction's loop can put a file between two
  inputs, in the level where the outputs go; the level then overlaps and a key of the file
  is not found (`FlushInGapBreaksReads`, with a manual compaction). Installing keeps the invariant
  if and only if no file that came to the output level meets an output
  (`InstallKeepsInvIff`); that is always so when the inputs leave no gap
  (`GaplessInstalls`), as those picked by size do (`SizePicksAreGapless`).
* `VersionEdit::DecodeFrom` does not clear the compaction pointers of its target
  (`PointersSurviveClear`); decoding is exact if and only if there were none
  (`ExactIffNoPointers`).
* nanopb leaves out a proto3 submessage that passes its zero check, and that check looks
  only at the first item of an array and ignores counts and has_ flags (`NumbersLost`). A
  round trip is exact if and only if the message is `Lossless`: wherever such a submessage
  passes the check, nothing in it is marked present.
* nanopb does not compare the wire type of a key with its field, so the check for required
  fields may be satisfied by bytes inside another field's value (`MistypedKey`). What is
  checked is that every required field was read; its key is there whenever the wire types
  are those of the fields (`RequiredIsThere`).

User keys in the store and in its iterators are real numbers: the engine only compares them
with a total order, and every countable total order embeds in the reals. The file formats
work on bytes and on the bytewise comparator.

## Model

| member | source | states |
|---|---|---|
| StoreRuns.ReachableReadsMatchHistory | YumQuest/Pods/leveldb-library/db/db_impl.cc:1109-1154 | In every state of every run of writes, lost writes, publications, snapshots, memtable switches, flushes and safe compactions, any lookup that decides a read at a live snapshot or at the last sequence returns what the plain history of writes says |
| StoreRuns.SnapshotReadsAreStable | YumQuest/Pods/leveldb-library/db/db_impl.cc:1109-1154 | A read at a snapshot that is live at two moments of a run gives the same answer at both, whatever was written, flushed or compacted in between |
| StoreRuns.StepKeepsInv | YumQuest/Pods/leveldb-library/db/db_impl.cc:1194-1266 | Every step of the store, with compactions that are safe, keeps the invariant: genuine entries, younger levels above older ones, disjoint sorted levels, and every readable version still stored or safely gone |
| Stores.ReadMatchesHistory | YumQuest/Pods/leveldb-library/db/db_impl.cc:1109-1154 | The newest visible stored version of a key answers exactly as the newest write or deletion in the history |
| Stores.LayeredLookup | YumQuest/Pods/leveldb-library/db/db_impl.cc:1124-1143 | Asking the memtable, then the immutable memtable, then the files finds the newest visible version over all three |
| StoreFlushes.FlushKeepsInv | YumQuest/Pods/leveldb-library/db/db_impl.cc:488-565 | A flush to any level the file overlaps nothing at or above keeps the invariant |
| StoreCompactions.CompactKeepsInv | YumQuest/Pods/leveldb-library/db/db_impl.cc:866-885 | Replacing the inputs of a compaction by outputs that preserve reads keeps the invariant, when what stays in the level is younger than the output and no dropped entry uncovers an older version |
| StoreCompactions.LevelZeroNotSplit | YumQuest/Pods/leveldb-library/db/version_set.cc:531-572 | At level 0 the picking code leaves only younger versions of the input keys behind in level 0 |
| StoreCompactions.ReadOrderKeptIff | YumQuest/Pods/leveldb-library/db/version_set.cc:1345-1411 | Replacing inputs by outputs keeps upper levels younger than lower ones if and only if the files that stay in the level of the compaction are younger than the outputs |
| StoreCompactions.MergeKeepsInvIff | YumQuest/Pods/leveldb-library/db/db_impl.cc:887-1010 | After the compaction loop the invariant, from which every read follows, holds if and only if a condition on the store and the pick alone: no file that stays in the level has an older version of a key whose version survives the merge, and no deletion marker that readers still need is dropped while a file left in either level has an older version |
| StoreCompactions.MoveKeepsInvIff | YumQuest/Pods/leveldb-library/db/db_impl.cc:715-737 | After a trivial move the invariant holds if and only if the files that stay in the level have only younger versions of the keys of the moved file |
| StoreCompactions.LeftBehindYoungerIsSafe | YumQuest/Pods/leveldb-library/db/version_set.cc:1345-1411 | Both conditions hold when no file that a pick leaves behind in its two levels has an older version of a key in the files taken |
| CompactionHazards.SplitKeyBreaksReads | YumQuest/Pods/leveldb-library/db/version_set.cc:1299-1332 | A run of writes and flushes from the empty store reaches two files of a level that share a user key; picking by size takes the first of them alone, the move is not safe, and after it a read at the last sequence finds an older value than the history has |
| CompactionHazards.DroppedMarkerBreaksReads | YumQuest/Pods/leveldb-library/db/db_impl.cc:938-948 | A run of writes, flushes and a compaction reaches a store in which a merge keeps the order of levels but drops a deletion marker, because no deeper level has its key, while a file left in the output level holds the version it hid: a deleted key comes back |
| Compactions.DropRulesPreserveReads | YumQuest/Pods/leveldb-library/db/db_impl.cc:900-972 | For every key and every sequence from the smallest snapshot on, the entries the two drop rules keep give the same newest version, or it was an obsolete deletion marker and nothing visible is left |
| Compactions.Compaction.IsBaseLevelForKey | YumQuest/Pods/leveldb-library/db/version_set.cc:1484-1503 | For keys asked in nondecreasing order the advancing level pointers answer exactly whether no deeper file covers the key |
| Compactions.Compaction.DoCompactionWork | YumQuest/Pods/leveldb-library/db/db_impl.cc:900-1010 | The loop writes exactly the kept entries, in order, into valid, disjoint, consecutively numbered files; no file could have been closed sooner by its size, each but the last is closed by its size or by a key at which the grandparent bytes passed since the last cut exceed the limit, and no file goes on past such a key |
| Compactions.Compaction.ShouldStopBefore | YumQuest/Pods/leveldb-library/db/version_set.cc:1505-1531 | It says stop exactly when the bytes of the grandparents passed since the last stop exceed the limit, those before the first key not counted |
| StoreCompactions.DroppingPreservesReads | YumQuest/Pods/leveldb-library/db/db_impl.cc:925-972 | The loop meets the condition under which a compaction keeps every read |
| DBImpls.DBImpl.Get | YumQuest/Pods/leveldb-library/db/db_impl.cc:1109-1154 | A read at the latest sequence or at a live snapshot returns what the history says |
| DBImpls.DBImpl.Write | YumQuest/Pods/leveldb-library/db/db_impl.cc:1194-1266 | The leader adds exactly its batch to the memtable, under consecutive new sequence numbers, and publishes it; a failed append uses up the numbers and adds nothing |
| DBImpls.DBImpl.CompactMemTable | YumQuest/Pods/leveldb-library/db/db_impl.cc:534-565 | One flush step: the immutable memtable becomes a new file of the size of its table, at the one level that the flush rule gives; all else stays, and the invariant is kept |
| DBImpls.DBImpl.WriteLevel0Table | YumQuest/Pods/leveldb-library/db/db_impl.cc:488-532 | The file holds the memtable and goes to level 0 if it overlaps a file there, else as deep as overlap, grandparent bytes and the limit of 2 allow |
| DBImpls.DBImpl.InstallCompactionResults | YumQuest/Pods/leveldb-library/db/db_impl.cc:866-885 | One compaction step: the version has the inputs replaced by the outputs and no other change, whatever was picked |
| DBImpls.DBImpl.DoCompaction | YumQuest/Pods/leveldb-library/db/db_impl.cc:887-1054 | For every valid pick, the inputs are replaced by files that hold exactly what the drop rules keep of the merged input; the state is valid afterwards if and only if the merge was safe |
| DBImpls.DBImpl.BackgroundCompaction | YumQuest/Pods/leveldb-library/db/db_impl.cc:686-769 | For every valid pick: a single file without overlapping parents, and not too many grandparent bytes, moves down as it is, and any other pick is merged by the loop; the state is valid afterwards if and only if the move or the merge was safe |
| DBImpls.InputMembers | YumQuest/Pods/leveldb-library/db/version_set.cc:1258-1289 | The merged input of a compaction is the sorted set of exactly the entries of its input files |
| StoreInterleavings.InstallKeepsInvIff | YumQuest/Pods/leveldb-library/db/db_impl.cc:866-885 | A compaction whose loop ran while writes, snapshots and flushes went on: installing its outputs keeps the invariant if and only if no file that came to the output level in the meantime meets an output |
| StoreInterleavings.BusyStepKeepsInv | YumQuest/Pods/leveldb-library/db/db_impl.cc:915-926 | Every step taken while a compaction is under way, a flush in the middle of its loop included, keeps the invariant, and the store with the outputs in place of the inputs would have it too as long as the way is clear |
| StoreInterleavings.InterleavedReadsMatchHistory | YumQuest/Pods/leveldb-library/db/db_impl.cc:887-1010 | In every state of every run in which compactions take time, start when the merge is safe and are installed when the way is clear, reads at live snapshots and at the last sequence return what the history says |
| StoreInterleavings.GaplessInstalls | YumQuest/Pods/leveldb-library/db/db_impl.cc:915-926 | A compaction whose files have no gap between them may be installed whenever its loop is done, whatever was flushed in the meantime |
| CompactionGaps.SizePicksAreGapless | YumQuest/Pods/leveldb-library/db/version_set.cc:1299-1411 | A compaction picked by size has no gap: every user key between the ends of its files is in the range of one of them, at level 0 and after expansion too |
| FlushHazards.FlushInGapBreaksReads | YumQuest/Pods/leveldb-library/db/db_impl.cc:915-926 | A run in which a manual compaction takes two files with a gap, and a key of the gap is written and flushed, in the middle of the loop, to the output level, where the flush rule puts it: installing makes that level overlap, and the search for the key finds nothing although the history has it |
| Versions.Get | YumQuest/Pods/leveldb-library/db/version_set.cc:332-429 | Searching level 0 newest first and one file per deeper level finds the newest visible version in any file, or shows there is none |
| Versions.LevelLookup | YumQuest/Pods/leveldb-library/db/version_set.cc:381-391 | In a disjoint sorted level the one file that binary search picks decides the read |
| Versions.FindFile | YumQuest/Pods/leveldb-library/db/version_set.cc:86-105 | In a sorted level binary search returns the first file whose largest key is at or after the target; on any list it ends where the recursive search ends |
| Versions.SomeFileOverlapsRange | YumQuest/Pods/leveldb-library/db/version_set.cc:121-156 | The binary-search test and the linear test both answer whether some file meets the range |
| Versions.PickLevelForMemTableOutput | YumQuest/Pods/leveldb-library/db/version_set.cc:502-529 | The level returned is the deepest, at most 2, that the range can sink to without overlap or too many grandparent bytes |
| Versions.GoesToOneLevel | YumQuest/Pods/leveldb-library/db/version_set.cc:502-529 | There is at most one such level |
| Versions.GetOverlappingInputs | YumQuest/Pods/leveldb-library/db/version_set.cc:531-572 | With its restarts at level 0 it terminates, and returns the files that meet the least range that includes the given one and is closed under overlap |
| VersionBuilders.Builder.Apply | YumQuest/Pods/leveldb-library/db/version_set.cc:665-708 | The builder stands for the files left by applying all edits one at a time, when added numbers are fresh |
| VersionBuilders.Builder.SaveTo | YumQuest/Pods/leveldb-library/db/version_set.cc:711-757 | Each level of the saved version is the sorted list of exactly those files |
| VersionBuilders.LogAndApply | YumQuest/Pods/leveldb-library/db/version_set.cc:820-903 | One edit applied to a version deletes and adds exactly what it names, level by level |
| CompactionPickers.SetupOtherInputs | YumQuest/Pods/leveldb-library/db/version_set.cc:1345-1411 | The final inputs include those picked, the parents are all files that meet their range, and at level 0 nothing left behind overlaps; all files that picked files and parents bring in are taken exactly if they are more, fit the size limit and bring in no further parent; the grandparents are the files two levels down that meet all of it |
| CompactionPickers.PickBySize | YumQuest/Pods/leveldb-library/db/version_set.cc:1299-1332 | Size-triggered picking starts from the first file past the compaction pointer, or from the first of all if there is none, and at level 0 from its closure under overlap |
| CompactionPickers.CompactRange | YumQuest/Pods/leveldb-library/db/version_set.cc:1413-1446 | A manual compaction gives none exactly if no file of the level meets the range; otherwise it starts from the shortest front part of these files that reaches the size limit, and at level 0 from the closure of the range |
| GroupCommits.BuildBatchGroup | YumQuest/Pods/leveldb-library/db/db_impl.cc:1267-1314 | The group is the longest prefix of the queue that may join: one writer more is a sync write behind a non-sync leader, has no batch, or is past the size limit; the batch is the concatenation of the members |
| GroupCommits.WriteQueue.Enqueue | YumQuest/Pods/leveldb-library/db/db_impl.cc:1194-1207 | A caller may join at any time, also while the leader is logging |
| GroupCommits.WriteQueue.Commit | YumQuest/Pods/leveldb-library/db/db_impl.cc:1217-1266 | The members of the group are logged, applied and returned together, exactly once and in queue order, and all of them get the leader's status; the queue goes into its error state if and only if the record was appended, a sync was asked for and the sync failed |
| GroupCommits.WriteQueue.AppliedUnlessSyncFailed | YumQuest/Pods/leveldb-library/db/db_impl.cc:1217-1266 | As long as no sync has failed there is no error state, and every group whose record was appended is applied under its sequence numbers and all its members were told so |
| GroupCommits.WriteQueue.NothingAfterError | YumQuest/Pods/leveldb-library/db/db_impl.cc:1225-1240 | After a failed sync no later group is logged, applied or acknowledged |
| GroupCommits.GroupFinished | YumQuest/Pods/leveldb-library/db/db_impl.cc:1217-1266 | Finishing a group keeps the correspondence between arrivals, log records, memtable entries and the last sequence |
| GroupCommits.InsertInto | YumQuest/Pods/leveldb-library/db/write_batch.cc:110-134 | Applying a batch adds its operations with consecutive sequence numbers |
| LogRecoveries.ReplayRebuilds | YumQuest/Pods/leveldb-library/db/db_impl.cc:413-436 | In an error-free run the memtable holds all batches in queue order with consecutive, disjoint sequence ranges, and replaying the log records rebuilds it and the last sequence |
| LogRecoveries.RecoverLogFile | YumQuest/Pods/leveldb-library/db/db_impl.cc:365-475 | From any bytes it replays the records that the reader gives, in order, with the largest sequence number among them; it fails if and only if it is paranoid and the reader reports damage or a record is no batch; every record replayed is put together from parts with agreeing checksums |
| LogRecoveries.DamageCostsItsBlocks | YumQuest/Pods/leveldb-library/db/db_impl.cc:365-475 | Damaged blocks in front of a log cost only what was in them: a recovery that is not paranoid then replays every record of the log |
| LogRecoveries.RecoverAfterCrash | YumQuest/Pods/leveldb-library/db/db_impl.cc:365-475 | After a crash at any byte, recovery rebuilds the writes of the first m groups, numbered as they were, where m is exactly the number of groups whose records lie wholly before the cut: every synced write survives; with the whole file, all of them |
| WriteBatches.BatchRoundTrip | YumQuest/Pods/leveldb-library/db/write_batch.cc:42-80 | Iterating an encoded batch gives back its operations, count and sequence |
| WriteBatches.Iterate | YumQuest/Pods/leveldb-library/db/write_batch.cc:42-80 | Over any bytes the loop gives the operations up to the first malformed one and the right error |
| WriteBatches.WriteBatch.Put | YumQuest/Pods/leveldb-library/db/write_batch.cc:98-103 | The representation stays that of the operations put so far |
| WriteBatches.WriteBatch.Append | YumQuest/Pods/leveldb-library/db/write_batch.cc:141-146 | Appending concatenates the operations |
| LogWriters.Writer.AddRecord | YumQuest/Pods/leveldb-library/db/log_writer.cc:36-82 | The file grows by the fragments of the record, block by block |
| LogWriters.Writer.Resume | YumQuest/Pods/leveldb-library/db/log_writer.cc:28-31 | A writer that resumes at the length of a well-formed log continues it |
| LogFormat.LogPosition | YumQuest/Pods/leveldb-library/db/log_writer.cc:28-31 | The length of a well-formed log gives the block offset its writer had |
| LogFormat.CompleteIsExact | YumQuest/Pods/leveldb-library/db/log_reader.cc:60-182 | The number of records wholly contained in the first n bytes of a log, bounded from both sides by the log's own length |
| LogReaders.Reader.ReadPhysicalRecord | YumQuest/Pods/leveldb-library/db/log_reader.cc:199-281 | From any bytes it returns exactly the next physical record of the file, reports exactly the damage in front of it, and says end of file only when there is neither |
| LogReaders.Reader.Assemble | YumQuest/Pods/leveldb-library/db/log_reader.cc:95-180 | The switch on the record type: which types complete, begin or continue a record, and that exactly the parts out of order are reported |
| LogReaders.Reader.ReadRecord | YumQuest/Pods/leveldb-library/db/log_reader.cc:60-182 | From any bytes the reassembly loop returns the next record that the pieces and the damage ahead make, with exactly the reports up to it, and gives up only when nothing is left of the file |
| LogReaders.ReadAll | YumQuest/Pods/leveldb-library/db/log_reader.cc:60-182 | From any bytes, with checksums or without: exactly the records and the reports that the block-by-block scan of the file gives |
| LogReaders.ReadsPrefix | YumQuest/Pods/leveldb-library/db/log_reader.cc:60-182 | Every byte prefix of a log gives exactly the records wholly in it, in order, and no report |
| LogScans.ReadLog | YumQuest/Pods/leveldb-library/db/log_reader.cc:60-182 | The same for the part of a log that starts at any offset in a block |
| LogScans.Resync | YumQuest/Pods/leveldb-library/db/log_reader.cc:161-167 | Whatever bytes stand in the blocks in front of a log, all its records are read, after whatever those blocks may give |
| LogReaders.WriteCrashRead | YumQuest/Pods/leveldb-library/db/log_writer.cc:36-109 | Write, resume, write more, cut anywhere, read: the records whose bytes all reached the file come back, no more and no fewer |
| DBIters.LiveEntriesAreTheReadableKeys | YumQuest/Pods/leveldb-library/db/db_iter.cc:173-203 | The list a user iterator ranges over has each readable user key once, in order, with its newest visible value and no deletions |
| DBIters.DBIter.Next | YumQuest/Pods/leveldb-library/db/db_iter.cc:146-171 | From either direction it moves one place forward in that list |
| DBIters.DBIter.Prev | YumQuest/Pods/leveldb-library/db/db_iter.cc:205-230 | From either direction it moves one place back, or off the front |
| DBIters.DBIter.Seek | YumQuest/Pods/leveldb-library/db/db_iter.cc:274-286 | It stands on the first live entry at or after the target |
| DBIters.DBIter.SeekToLast | YumQuest/Pods/leveldb-library/db/db_iter.cc:299-304 | It stands on the last live entry, if any |
| DBIters.DBIter.BackStep | YumQuest/Pods/leveldb-library/db/db_iter.cc:232-272 | What one step of the backward scan keeps: whether the saved entry is live is known only when an older user key shows up |
| MergingIterators.MergingIterator.constructor | YumQuest/Pods/leveldb-library/table/merger.cc:15-25 | Over sorted children with distinct keys the iterator ranges over their sorted union |
| MergingIterators.MergingIterator.Next | YumQuest/Pods/leveldb-library/table/merger.cc:59-83 | One place forward in the union, also after a change of direction |
| MergingIterators.MergingIterator.Prev | YumQuest/Pods/leveldb-library/table/merger.cc:85-112 | One place back in the union, also after a change of direction |
| MergingIterators.MergingIterator.Seek | YumQuest/Pods/leveldb-library/table/merger.cc:51-57 | The place of the first entry at or after the target in the union |
| MergingIterators.NextInUnion | YumQuest/Pods/leveldb-library/table/merger.cc:155-168 | When every child is cut at place p of the union, some child stands on the entry of place p |
| TwoLevelIterators.TwoLevelIterator.Seek | YumQuest/Pods/leveldb-library/table/two_level_iterator.cc:91-96 | With separating index keys, the place of the target in the concatenation of all blocks |
| TwoLevelIterators.TwoLevelIterator.Next | YumQuest/Pods/leveldb-library/table/two_level_iterator.cc:112-116 | One place forward in the concatenation, past any number of empty blocks |
| TwoLevelIterators.TwoLevelIterator.Prev | YumQuest/Pods/leveldb-library/table/two_level_iterator.cc:118-123 | One place back in the concatenation, past any number of empty blocks |
| TwoLevelIterators.SeekInBlock | YumQuest/Pods/leveldb-library/table/two_level_iterator.cc:91-96 | The place of a key in the concatenation is its place in the one block the index picks |
| SkipLists.SkipList.FindGreaterOrEqual | YumQuest/Pods/leveldb-library/db/skiplist.h:261-281 | The first node at or after the key, and its predecessor on every level in use |
| SkipLists.SkipList.FindLessThan | YumQuest/Pods/leveldb-library/db/skiplist.h:283-302 | The last node before the key, or the head |
| SkipLists.SkipList.Contains | YumQuest/Pods/leveldb-library/db/skiplist.h:372-380 | True exactly for the keys inserted |
| SkipLists.SkipList.Insert | YumQuest/Pods/leveldb-library/db/skiplist.h:336-370 | Adds the key; the levels before, between and after the link writes are a trace of single links, and each of them stands for the old set or for the old set with the key |
| SkipLists.SkipList.Link | YumQuest/Pods/leveldb-library/db/skiplist.h:362-369 | After the link write of one level the list is valid again |
| SkipLists.SkipList.LinkKeepsReading | YumQuest/Pods/leveldb-library/db/skiplist.h:362-369 | A link write leaves the node that a search has reached on its level |
| SkipLists.SkipList.ReadStep | YumQuest/Pods/leveldb-library/db/skiplist.h:261-281 | One load of a search is a step of such a run, and ends at the right node of the list as it then is |
| SkipLists.SkipList.OldOrNewSet | YumQuest/Pods/leveldb-library/db/skiplist.h:336-370 | Along any trace of link writes of one node the bottom level holds the old set or the old set with the key |
| SkipLists.SkipList.SearchEndsRight | YumQuest/Pods/leveldb-library/db/skiplist.h:261-281 | Whatever link writes are interleaved with the loads of a search, when it ends its result is the first node at or after the target in the bottom level as it then is |
| SkipLists.SkipList.AnswersForNow | YumQuest/Pods/leveldb-library/db/skiplist.h:372-380 | So the answer whether the key is present is right for the set that the list stands for at that moment |
| SkipLists.Iterator.Prev | YumQuest/Pods/leveldb-library/db/skiplist.h:213-222 | Steps back by searching, to the node before in the bottom level |
| HandleTables.HandleTable.Insert | YumQuest/Pods/leveldb-library/util/cache.cc:80-94 | The table stays a finite map: the matching entry is replaced and returned, all others stay; it grows exactly when there are more entries than buckets, to the least power of two from 4 on that is enough |
| HandleTables.HandleTable.Remove | YumQuest/Pods/leveldb-library/util/cache.cc:96-104 | Takes out exactly the matching entry, if there is one |
| HandleTables.HandleTable.Resize | YumQuest/Pods/leveldb-library/util/cache.cc:125-149 | Every entry ends up in the bucket of its hash in a table of the least power of two from 4 on that is at least the number of entries |
| LruHandles.LruRemove | YumQuest/Pods/leveldb-library/util/cache.cc:242-245 | Unlinking a node takes it out of the ring and leaves the rest in order |
| LruHandles.LruAppend | YumQuest/Pods/leveldb-library/util/cache.cc:247-253 | Linking a node before the list head makes it the newest |
| LruCaches.LRUCache.Insert | YumQuest/Pods/leveldb-library/util/cache.cc:269-303 | A new entry with a handle; an entry of the same key goes; the entries evicted are the least recently used ones, no more of them than needed, and none that a client holds; at return the usage fits or nothing is left to evict |
| LruCaches.LRUCache.EvictToCapacity | YumQuest/Pods/leveldb-library/util/cache.cc:293-300 | Evicts a front part of the LRU list, and without its last member the rest would exceed the capacity |
| LruCaches.LRUCache.Lookup | YumQuest/Pods/leveldb-library/util/cache.cc:255-262 | Finds exactly the cached entry of the key and takes a handle on it, which takes it off the LRU list |
| LruCaches.LRUCache.Release | YumQuest/Pods/leveldb-library/util/cache.cc:264-267 | Gives back one handle; with the last one a cached entry becomes the newest of the LRU list |
| LruCaches.LRUCache.Erase | YumQuest/Pods/leveldb-library/util/cache.cc:318-321 | Exactly the entry of the key leaves the cache, and it lives on while clients hold it |
| LruCaches.LRUCache.Prune | YumQuest/Pods/leveldb-library/util/cache.cc:323-333 | Drops every entry that no client holds |
| LruCaches.LRUCache.OnOneList | YumQuest/Pods/leveldb-library/util/cache.cc:221-253 | The table holds exactly the cached entries, each on one list: refs 1 on the LRU list, refs at least 2 on the in-use list; usage is the sum of their charges |
| LruCaches.LRUCache.DeletedOnceAndUnreferenced | YumQuest/Pods/leveldb-library/util/cache.cc:229-240 | A deleter has run once for every entry that neither the cache nor a client refers to, and never for any other |
| LruCaches.LRUCache.AllDeleted | YumQuest/Pods/leveldb-library/util/cache.cc:209-219 | With no handles out and the list pruned, every entry ever inserted has been deleted once |
| Crc32c.Extend | YumQuest/Pods/leveldb-library/util/crc32c.cc:299-347 | For every buffer, length and alignment the four loops equal the bitwise division by the CRC polynomial |
| Crc32c.Step4IsFold | YumQuest/Pods/leveldb-library/util/crc32c.cc:313-320 | Four table lookups equal four byte steps |
| Crc32c.TablesAreShift32 | YumQuest/Pods/leveldb-library/util/crc32c.cc:16-280 | The four tables together are a division by 32 bits |
| Crc32c.CrcConcat | YumQuest/Pods/leveldb-library/util/crc32c.h:14-17 | Extending the checksum of a by b gives the checksum of a followed by b |
| Crc32c.UnmaskMask | YumQuest/Pods/leveldb-library/util/crc32c.h:30-40 | Unmask undoes Mask |
| Crc32c.MaskUnmask | YumQuest/Pods/leveldb-library/util/crc32c.h:30-40 | Mask undoes Unmask |
| Crc32cNumbers.EntriesAt1 | YumQuest/Pods/leveldb-library/util/crc32c.cc:18-280 | The entries of the four tables at 1 are the numbers of the source |
| Crc32cNumbers.EntriesAt2 | YumQuest/Pods/leveldb-library/util/crc32c.cc:18-280 | The same at 2 |
| Crc32cNumbers.EntriesAt4 | YumQuest/Pods/leveldb-library/util/crc32c.cc:18-280 | The same at 4 |
| Crc32cNumbers.EntriesAt8 | YumQuest/Pods/leveldb-library/util/crc32c.cc:18-280 | The same at 8 |
| Crc32cNumbers.EntriesAt16 | YumQuest/Pods/leveldb-library/util/crc32c.cc:18-280 | The same at 16 |
| Crc32cNumbers.EntriesAt32 | YumQuest/Pods/leveldb-library/util/crc32c.cc:18-280 | The same at 32 |
| Crc32cNumbers.EntriesAt64 | YumQuest/Pods/leveldb-library/util/crc32c.cc:18-280 | The same at 64 |
| Crc32cNumbers.EntriesAt128 | YumQuest/Pods/leveldb-library/util/crc32c.cc:18-280 | The same at 128 |
| Crc32cNumbers.TablesLinear | YumQuest/Pods/leveldb-library/util/crc32c.cc:18-280 | The entries at the sum of two indexes without a common bit are the sums of their entries, so those at the powers of two give all 256 |
| Crc32cNumbers.ChecksumOfZero | YumQuest/Pods/leveldb-library/util/crc32c.cc:299-347 | The checksum of one zero byte is 0x527d5351: the register is complemented before and after |
| Crc32cNumbers.ChecksumOfTestBuffer | YumQuest/Pods/leveldb-library/util/crc32c.cc:291-297 | The checksum of the string of the self test is 0xdcbc59fa |
| Crc32cNumbers.Residue | YumQuest/Pods/leveldb-library/util/crc32c.cc:299-347 | Whatever the data, the checksum of the data followed by its checksum, low byte first, is 0x48674bc7 |
| Crc32cNumbers.MaskRotates | YumQuest/Pods/leveldb-library/util/crc32c.h:24-34 | Masking is a rotation right by 15 bits and the addition of 0xa282ead8 |
| Coding.VarintRoundTrip | YumQuest/Pods/leveldb-library/util/coding.cc:47-101 | A varint followed by anything is read back, with its length |
| Coding.GetVarintLoop | YumQuest/Pods/leveldb-library/util/coding.cc:112-170 | The pointer loop reads what the recursive definition says, from any bytes |
| Coding.PutVarint32 | YumQuest/Pods/leveldb-library/util/coding.cc:47-79 | The unrolled encoder gives the minimal seven-bit groups |
| Coding.GetLengthPrefixedOf | YumQuest/Pods/leveldb-library/util/coding.cc:182-192 | A length-prefixed string followed by anything is read back |
| FormatNumbers.FixedLayout | YumQuest/Pods/leveldb-library/util/coding.cc:9-45 | Fixed-width numbers have their low byte first |
| FormatNumbers.VarintLayout | YumQuest/Pods/leveldb-library/util/coding.cc:47-101 | Numbers below 128 take one byte; the next take two, the low seven bits first with the top bit set |
| FormatNumbers.LogRecordLayout | YumQuest/Pods/leveldb-library/db/log_writer.cc:84-109 | Checksum of type and payload at offset 0, length at 4, type 1 to 4 at 6, payload from 7 |
| FormatNumbers.BatchLayout | YumQuest/Pods/leveldb-library/db/write_batch.cc:5-15 | Sequence in 8 bytes, count in 4, then the operations |
| FormatNumbers.OpLayout | YumQuest/Pods/leveldb-library/db/write_batch.cc:98-108 | Type 1 with key and value, type 0 with a key |
| FormatNumbers.InternalKeyLayout | YumQuest/Pods/leveldb-library/db/dbformat.cc:12-21 | Behind the user key the type, then seven bytes of sequence number |
| FormatNumbers.EditTags | YumQuest/Pods/leveldb-library/db/version_edit.cc:14-24 | The tag of each field of an edit |
| FormatNumbers.BlockLayout | YumQuest/Pods/leveldb-library/table/table_builder.cc:174-193 | Behind the contents a zero type byte and the masked checksum of both |
| FormatNumbers.FooterLayout | YumQuest/Pods/leveldb-library/table/format.cc:32-43 | 48 bytes that end in the magic number 0xdb4775248b80fb57 |
| FormatNumbers.KeyLayout | YumQuest/Pods/nanopb/pb_encode.c:553-590 | A key is eight times the tag plus the wire type of each field type |
| FormatNumbers.ZigZagWord | YumQuest/Pods/nanopb/pb_encode.c:516-525 | Twice the number in 64 bits, complemented when it is negative |
| BlockBuilders.BlockBuilder.Add | YumQuest/Pods/leveldb-library/table/block_builder.cc:73-107 | The buffer stays the prefix-compressed form of the entries added, with a restart point every interval entries |
| BlockBuilders.BlockBuilder.Finish | YumQuest/Pods/leveldb-library/table/block_builder.cc:63-71 | The contents are the entries, the restart array and its length |
| Blocks.DecodeEntry | YumQuest/Pods/leveldb-library/table/block.cc:53-74 | On any bytes it gives the three varints and stays in bounds, also on the fast path; on an encoded entry that is its lengths and its bytes |
| Blocks.Iter.ParseNextKey | YumQuest/Pods/leveldb-library/table/block.cc:226-253 | On any bytes it steps to the next whole entry, and says end of block or corruption exactly when there is none; the restart index catches up; on a formed block that entry is the next one, rebuilt from the shared prefix |
| Blocks.Iter.Next | YumQuest/Pods/leveldb-library/table/block.cc:139-142 | One entry forward; on any bytes the next whole entry, or the end, or an error if bytes that are no entry come next |
| Blocks.Iter.Prev | YumQuest/Pods/leveldb-library/table/block.cc:144-163 | One entry back, also at restart points, or invalid before the first; on any bytes the entry found from the last restart point before the current one |
| Blocks.Iter.Seek | YumQuest/Pods/leveldb-library/table/block.cc:165-203 | On sorted entries it stands on the first key not before the target; on any bytes it is where binary search and linear scan of what the bytes hold end, with an error exactly when they meet no entry |
| Blocks.Iter.SeekToLast | YumQuest/Pods/leveldb-library/table/block.cc:210-215 | It stands on the last entry; on any bytes on the last one that the last restart point leads to |
| BlockScans.Source.WalkOfEntries | YumQuest/Pods/leveldb-library/table/block.cc:226-253 | Walking the bytes of a builder from any entry, one meets exactly the entries from there on |
| BlockScans.Source.StartSplits | YumQuest/Pods/leveldb-library/table/block.cc:165-191 | On any bytes the restart point at which the linear scan starts is before the target, and the next one is not |
| BlockScans.SearchIs | YumQuest/Pods/leveldb-library/table/block.cc:165-203 | Searching the bytes that a builder made of sorted entries gives the first entry not before the target, and no error |
| BlockFormat.Layout.RestartPoint | YumQuest/Pods/leveldb-library/table/block_builder.cc:63-71 | Each word of the restart array is the offset of its entry |
| Blocks.NewIterator | YumQuest/Pods/leveldb-library/table/block.cc:23-38 | It refuses exactly the contents whose last word is no possible number of restart points; a block that a builder made is opened with its own |
| Comparators.FindShortestSeparator | YumQuest/Pods/leveldb-library/util/comparator.cc:29-51 | The start itself, or a key no longer than it and strictly between start and limit |
| Comparators.FindShortSuccessor | YumQuest/Pods/leveldb-library/util/comparator.cc:53-65 | The key itself, or a key no longer and larger |
| Comparators.FindShortestInternalSeparator | YumQuest/Pods/leveldb-library/db/dbformat.cc:68-85 | The start, or a key whose user key is strictly between those of start and limit |
| Comparators.SeparatorIsBetween | YumQuest/Pods/leveldb-library/db/dbformat.cc:68-85 | So it is not before the start and is before the limit |
| Comparators.ILessTotal | YumQuest/Pods/leveldb-library/db/dbformat.cc:50-66 | Internal keys are totally ordered: equal only if the same bytes |
| Comparators.PackRoundTrip | YumQuest/Pods/leveldb-library/db/dbformat.cc:12-21 | User key and tag are read back from a packed key |
| TableBuilders.TableBuilder.Add | YumQuest/Pods/leveldb-library/table/table_builder.cc:92-121 | The entry is added after all others; the block is closed exactly when its contents have reached the block size, and the index entry of a closed block is delayed until its successor is known |
| TableBuilders.TableBuilder.Flush | YumQuest/Pods/leveldb-library/table/table_builder.cc:123-137 | The open block goes to the file as it is, and the entries stay the same |
| TableBuilders.TableBuilder.Finish | YumQuest/Pods/leveldb-library/table/table_builder.cc:199-254 | The file is a whole table of exactly the entries added, and its filter block has, range by range, exactly the keys of the blocks that start there; it fails only past 64-bit offsets |
| TableIndexes.IndexKeyBounds | YumQuest/Pods/leveldb-library/table/table_builder.cc:92-115 | Each index key is at or after every key of its block and before every key of later blocks |
| TableIndexes.PointLookup | YumQuest/Pods/leveldb-library/table/table.cc:226-255 | One block is enough: the first entry from k on is in it, or has another user key, or there is none |
| TableIndexes.LaterUserDiffers | YumQuest/Pods/leveldb-library/table/table.cc:226-255 | If the picked block ends before k, its index key is a made-up separator, and later user keys are after that of k |
| Tables.Table.InternalGet | YumQuest/Pods/leveldb-library/table/table.cc:226-255 | On a table file of a builder, with or without a filter, it reports the first entry at or after k whenever that entry has the user key of k; on any bytes the answer, and whether all that was read is good, is that of the search through index, filter and one block |
| Tables.Table.BlockReader | YumQuest/Pods/leveldb-library/table/table.cc:164-218 | On any bytes it opens the block that the handle names, or says that it cannot; an index value of a builder opens its block |
| Tables.Open | YumQuest/Pods/leveldb-library/table/table.cc:38-89 | On any bytes it fails exactly if footer or index block cannot be read, and does without a filter that cannot; a table file of a builder is opened, and its filter is loaded if and only if there is one under the name of the policy |
| TableDamages.ReportedOrSame | YumQuest/Pods/leveldb-library/table/format.cc:65-112 | With checksums on, a lookup in a copy with broken data blocks fails exactly when it looks in a broken one, and else gives what the whole file gives |
| TableDamages.GetFromBoth | YumQuest/Pods/leveldb-library/table/table.cc:226-255 | So from a damaged copy an answer that is not an error is the right one, and an error means that a block is broken |
| TableFiles.BuildTable | YumQuest/Pods/leveldb-library/db/builder.cc:17-65 | Sorted entries become a table file of exactly these entries |
| TableFiles.BuildAndGet | YumQuest/Pods/leveldb-library/db/table_cache.cc:105-119 | Build, open and get, for every block size, restart interval, filter and key |
| TableFiles.BuildAndScan | YumQuest/Pods/leveldb-library/db/builder.cc:17-83 | Build, open and iterate from the first entry to the last: exactly the entries, in order |
| TableIterators.TableIterator.Seek | YumQuest/Pods/leveldb-library/table/table.cc:220-224 | The iterator of a table, over its bytes, stands on the first entry at or after the target, or past the end if there is none |
| TableIterators.TableIterator.SeekToLast | YumQuest/Pods/leveldb-library/table/table.cc:220-224 | It stands on the last entry of the table |
| TableIterators.TableIterator.Next | YumQuest/Pods/leveldb-library/table/two_level_iterator.cc:112-116 | One entry forward in the table, into the next block when one is used up |
| TableIterators.TableIterator.Prev | YumQuest/Pods/leveldb-library/table/two_level_iterator.cc:118-123 | One entry back in the table, into the block before at the first entry of one |
| TableFormat.HandleRoundTrip | YumQuest/Pods/leveldb-library/table/format.cc:15-30 | A block handle followed by anything is read back |
| TableFormat.FooterRoundTrip | YumQuest/Pods/leveldb-library/table/format.cc:32-63 | The 48-byte footer gives back both handles |
| TableFormat.ReadBlock | YumQuest/Pods/leveldb-library/table/format.cc:65-143 | A stored block is read back; from any bytes, a block is returned exactly if it is inside the file, its type is none and, when checksums are checked, its checksum agrees |
| BloomFilters.CreateFilter | YumQuest/Pods/leveldb-library/util/bloom.cc:35-61 | The filter has the size for that many keys, its one bits are exactly the probes of the keys, and its last byte is the number of probes |
| BloomFilters.KeyMayMatch | YumQuest/Pods/leveldb-library/util/bloom.cc:63-87 | It answers whether all probes of the key are one bits, and yes for reserved encodings |
| BloomFilters.NoFalseNegatives | YumQuest/Pods/leveldb-library/util/bloom.cc:35-87 | Every key of a filter may match |
| BloomFilters.ProbePositions | YumQuest/Pods/leveldb-library/util/bloom.cc:35-61 | Probe j is bit (h + j * delta) of 2^32, modulo the number of bits, with h the hash and delta its rotation |
| BloomFilters.RotateMoves | YumQuest/Pods/leveldb-library/util/bloom.cc:53-54 | The rotation moves the low 17 bits up by 15 and the high 15 bits down by 17 |
| FilterBlocks.FilterBlockBuilder.StartBlock | YumQuest/Pods/leveldb-library/table/filter_block.cc:22-28 | Closes exactly the 2 KB ranges before the offset: the pending keys are the first of them, the others are empty; no added key is lost |
| FilterBlocks.FilterBlockBuilder.Finish | YumQuest/Pods/leveldb-library/table/filter_block.cc:36-50 | The contents are the filters of exactly the groups of keys, their offsets and base_lg; every key added under a block offset may match there |
| FilterBlocks.AddedMatches | YumQuest/Pods/leveldb-library/table/filter_block.cc:95-109 | The offset array leads from a block offset to the filter with its keys |
| FilterBlocks.MatchesGroup | YumQuest/Pods/leveldb-library/table/filter_block.cc:95-109 | For a block offset the finished block answers as the filter of the group of its 2 KB range does, with yes past the last group |
| FilterBlocks.FilterBlockReader.KeyMayMatch | YumQuest/Pods/leveldb-library/table/filter_block.cc:95-109 | The reader's answer on any bytes, errors counting as possible matches |
| Tables.Table.NotInFilter | YumQuest/Pods/leveldb-library/db/dbformat.cc:105-119 | A filter that excludes an internal key excludes every entry of the block with its user key |
| VersionEdits.EditRoundTrip | YumQuest/Pods/leveldb-library/db/version_edit.cc:41-210 | Decoding an encoded edit succeeds if and only if all its levels exist, and then gives it back behind the compaction pointers that were there before |
| VersionEdits.ExactIffNoPointers | YumQuest/Pods/leveldb-library/db/version_edit.cc:26-39 | The decoded edit equals the encoded one if and only if the target had no compaction pointers: Clear does not clear them |
| VersionEdits.PointersSurviveClear | YumQuest/Pods/leveldb-library/db/version_edit.cc:26-39 | A concrete edit for which it does not |
| VersionEdits.VersionEdit.EncodeTo | YumQuest/Pods/leveldb-library/db/version_edit.cc:41-86 | Appends the fields in the fixed order, deleted files in set order |
| VersionEdits.VersionEdit.DecodeFrom | YumQuest/Pods/leveldb-library/db/version_edit.cc:109-210 | Over any bytes: the fields up to the first bad one take effect, and it succeeds if there is none |
| VersionEdits.FieldRoundTrip | YumQuest/Pods/leveldb-library/db/version_edit.cc:88-199 | One field followed by anything is read back exactly when its level is below 7 |
| VersionEdits.DecodedLevels | YumQuest/Pods/leveldb-library/db/version_edit.cc:98-107 | Whatever bytes are decoded, no level of 7 or more gets into an edit |
| Manifests.Recover | YumQuest/Pods/leveldb-library/db/version_set.cc:941-1005 | Replaying any records gives, level by level, the files left by applying the decoded edits one at a time, and the last value of each counter; it fails exactly if a record does not decode, a comparator is foreign or a counter is missing |
| Manifests.WrittenRecordsDecode | YumQuest/Pods/leveldb-library/db/version_edit.cc:41-86 | Records that were written from edits all decode, to these edits |
| Randoms.Random.Next | YumQuest/Pods/leveldb-library/util/random.h:25-45 | From a seed in [1, 2^31-2] the next one is 16807 times it modulo 2^31-1, again in that range |
| Randoms.FoldedRange | YumQuest/Pods/leveldb-library/util/random.h:34-43 | The folded product is never M, and one conditional subtraction completes the reduction |
| Randoms.AfterCalls | YumQuest/Pods/leveldb-library/util/random.h:25-45 | After n calls the seed is 16807^n times the first one modulo 2^31-1, and still good |
| Randoms.SuccessorInjective | YumQuest/Pods/leveldb-library/util/random.h:28-33 | Different seeds have different successors, so no two runs merge |
| Randoms.Random.Skewed | YumQuest/Pods/leveldb-library/util/random.h:54-59 | Two steps: the first picks the power of two, the second is taken modulo it |
| MemTables.MemTable.Add | YumQuest/Pods/leveldb-library/db/memtable.cc:82-106 | The encoded entry goes to its place in comparator order |
| MemTables.MemTable.Get | YumQuest/Pods/leveldb-library/db/memtable.cc:108-143 | The newest version of the user key with sequence at most s: its value, its deletion, or none |
| NanopbRoundTrips.RoundTrip | YumQuest/Pods/nanopb/pb_encode.c:451-473 | A successful encoding is decoded, and to an equal message if and only if the zero check hid nothing |
| NanopbRoundTrips.RoundTripPastUnknown | YumQuest/Pods/nanopb/pb_decode.c:870-905 | The same when whole fields that the message type does not have are put in between the fields |
| NanopbRoundTrips.NumbersLost | YumQuest/Pods/nanopb/pb_encode.c:205-300 | A well-formed message whose submessage passes the zero check although it holds a number: it is encoded as nothing |
| NanopbMessages.ZeroIsDefaultIffBare | YumQuest/Pods/nanopb/pb_encode.c:205-300 | A message whose data is all zero equals the default message exactly when it has no presence, count or nonzero default to lose |
| NanopbEncoding.GetEncodedSize | YumQuest/Pods/nanopb/pb_encode.c:480-489 | The sizing pass succeeds exactly when an encoding exists, and gives its length |
| NanopbEncoding.EncodeSubmessage | YumQuest/Pods/nanopb/pb_encode.c:600-648 | The length prefix written from the sizing pass is the length of what follows |
| NanopbEncoding.Encode | YumQuest/Pods/nanopb/pb_encode.c:451-473 | The stream receives the encoding of the message, or fails when it does not fit |
| NanopbEncoding.EncodeArray | YumQuest/Pods/nanopb/pb_encode.c:116-201 | Packed, fixed-width packed and unpacked arrays alike give the encoding of their items |
| NanopbEncoding.EncodeVarint | YumQuest/Pods/nanopb/pb_encode.c:494-514 | The seven-bit groups of a 64-bit number |
| NanopbDecoding.ZigZagRoundTrip | YumQuest/Pods/nanopb/pb_decode.c:1118-1130 | Zigzag decoding undoes zigzag encoding for every 64-bit number |
| NanopbDecoding.Decode | YumQuest/Pods/nanopb/pb_decode.c:955-967 | From any bytes and into any old contents: it succeeds exactly when the defaults can be read over by the bytes with every required field read, and gives that message; an encoded message equals the source exactly when it was encoded without loss |
| NanopbDecoding.DecodeNoInit | YumQuest/Pods/nanopb/pb_decode.c:852-953 | From any bytes: it succeeds exactly when they are a sequence of keys with values that can be read or skipped and every required field is among the fields read, and gives the message that reading them one after another gives |
| NanopbUnknownFields.RequiredIsThere | YumQuest/Pods/nanopb/pb_decode.c:926-950 | Whatever bytes are accepted, every required field was read, and if the wire types are those of the fields its key stands among the top-level keys of the bytes |
| NanopbUnknownFields.NothingIsEnoughIff | YumQuest/Pods/nanopb/pb_decode.c:926-950 | No bytes at all are accepted if and only if no field is required |
| NanopbUnknownFields.UnknownFieldsIgnored | YumQuest/Pods/nanopb/pb_decode.c:870-905 | Whole unknown fields put in anywhere between the fields change nothing, whatever the bytes |
| NanopbUnknownFields.MistypedKey | YumQuest/Pods/nanopb/pb_decode.c:356-434 | Bytes that are accepted although the key of the required field stands only inside the value of another field: wire types are not checked |
| NanopbDecoding.DecodeField | YumQuest/Pods/nanopb/pb_decode.c:356-434 | From any bytes one key and its value become the field they name, packed or not, or it fails, exactly as reading them by field type says |
| NanopbDecoding.CheckRequired | YumQuest/Pods/nanopb/pb_decode.c:926-950 | The word-wise check at the end is the test that every required field was seen |
| NanopbDecoding.SetToDefaults | YumQuest/Pods/nanopb/pb_decode.c:835-848 | The message becomes the default one of its descriptor |
| NanopbStreams.IStream.DecodeVarint | YumQuest/Pods/nanopb/pb_decode.c:209-229 | A varint of at most ten bytes, kept to 64 bits |
| NanopbStreams.IStream.MakeSubstream | YumQuest/Pods/nanopb/pb_decode.c:322-335 | The substream is limited to the length read |
| NanopbStreams.IStream.SkipField | YumQuest/Pods/nanopb/pb_decode.c:231-289 | Leaves what the wire type alone says, or fails |
| NanopbStreams.SkipsWhole | YumQuest/Pods/nanopb/pb_decode.c:231-289 | A value of an unknown field is skipped exactly, for each wire type |
| NanopbIterators.FieldIter.Next | YumQuest/Pods/nanopb/pb_common.c:20-76 | One field on, or back to the start at the end, with the required-field index kept |
| NanopbIterators.FieldIter.Find | YumQuest/Pods/nanopb/pb_common.c:78-98 | Once around from the current field it finds a field of the tag if there is one |

## Left out

- StoreCompactions.CompactKeepsInv: is the direction that the compaction loop needs; the equivalence, for every pick, is `MergeKeepsInvIff`.
- StoreRuns.StepKeepsInv: a compaction step is one that is safe (`MergeIsSafe`, `MoveIsSafe`), since any other breaks the invariant and can make reads wrong (`CompactionHazards`).
- DBImpls.DBImpl.BackgroundCompaction: the loop and the installation are one step of the class; `StoreInterleavings` models on values what goes on in between, with the file numbers of the outputs set aside when the loop starts.
- DBImpls.DBImpl.MergeInputs: merges the inputs by the `Union` function; `MergingIterators` proves that a merging iterator walks exactly this union.
- DBImpls.DBImpl.Write: the log append is a flag that says whether it succeeded, and it takes a whole group; `GroupCommits` models the queue that forms it. The switch to a new log and memtable is not part of the queue model.
- DBImpls.DBImpl.CompactMemTable: the table file is a value with its entries; `TableFiles` shows how such a file is written and searched.
- CompactionPickers.PickBySize: the level to compact is an argument; scores, seek statistics and size limits in floating point are not modelled.
- VersionBuilders.LogAndApply: the manifest record, the counters and the failure of the log write are not part of it; `VersionEdits` and `Manifests` model the record and its replay.
- VersionBuilders.Builder.Apply: requires added file numbers to be new at their level, which NewFileNumber gives.
- Versions.GetOverlappingInputs: file numbers and sizes play no part; the returned range is ghost.
- LogReaders.Reader.ReadRecord: models readers that start at offset 0; SkipToInitialBlock, the resyncing mode after it and LastRecordOffset are left out.
- LogRecoveries.RecoverLogFile: does not flush a memtable that overflows during recovery to level 0, and does not reuse the log.
- GroupCommits.WriteQueue.Commit: the mutex makes the parts before and after logging atomic; condition variables are left out.
- WriteBatches.WriteBatch.Put: requires counts and lengths below 2^32 instead of wrapping around.
- WriteBatches.WriteBatch.Append: requires a combined count below 2^32 instead of wrapping around.
- DBIters.DBIter.Next: models well-formed internal keys only; ParseKey errors and read sampling are left out.
- MergingIterators.MergingIterator.Next: requires distinct keys in the children; the order of equal keys is left out.
- TwoLevelIterators.TwoLevelIterator.Next: the block function returns a block or nothing; error statuses are not accumulated.
- SkipLists.SkipList.Insert: the height comes as an argument, memory order is sequentially consistent, and the writer's steps are those between single link writes.
- SkipLists.SkipList.SearchEndsRight: a run is a sequence of loads of one search and link writes of one writer, one after another; a load sees all earlier writes.
- HandleTables.HandleTable.Insert: a chain is a sequence in an array element; the next_hash pointers inside the entries are left out.
- LruCaches.LRUCache.Insert: models one shard; the choice of the shard by the hash is left out.
- MemTables.MemTable.Add: the table is the sequence of its entries in order; `SkipLists` models the structure that keeps it.
- Crc32c.Extend: models the software path on little-endian words; the accelerated path is left out.
- Blocks.DecodeEntry: the sum of key and value lengths in a malformed entry is unbounded instead of wrapping at 32 bits.
- Tables.Table.InternalGet: requires a file below 4 GB, because restart points and filter offsets have 32 bits; Snappy blocks, the block cache and I/O errors are left out.
- TableIterators.TableIterator.Seek: models tables that a builder made; on damaged files the statuses of a scan are left out, those of a lookup are in `TableDamages`. That a merge over several tables walks their union is `MergingIterators` over list cursors.
- TableBuilders.TableBuilder.Add: the file never fails to take an append; a file past 64-bit offsets is an error only in Finish.
- BloomFilters.CreateFilter: the hash is any function of the key and the number of probes any number from 1 to 30; the factor 0.69 is left out.
- FilterBlocks.FilterBlockReader.KeyMayMatch: the last byte of a malformed filter block is taken as unsigned.
- Manifests.Recover: records are given as a list, and the table that a file record describes is an argument; added file numbers are new at their level. ReuseManifest and the compaction pointers kept by the version set are left out; what MarkFileNumberUsed does to the next file number is overwritten before Recover returns (version_set.cc:1011).
- VersionEdits.VersionEdit.EncodeTo: an optional value stands for a number with its has_ flag.
- Randoms.Random.Next: that the generator runs through all seeds is not proved, only that it is a permutation of them.
- NanopbRoundTrips.RoundTrip: models static fields; extensions, callbacks, malloc pointers and struct offsets are left out, and so are messages with a multiple of 32 required fields, for which the last shift of the check is not defined in C.
- NanopbStreams.IStream.Read: streams are memory buffers; user callbacks that fail are left out.
- Repair, dumping, statistics, histograms, file naming, the environment layer and the C bindings: no property that spans several functions.
- The YumQuest app itself (Swift): user interface and service calls.
