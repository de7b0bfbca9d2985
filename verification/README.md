# LevelDB, DTLS handshake messages and nanopb, modelled and proved in Dafny

The model covers three libraries vendored under `jkbempoffers/ios/Pods`. Source cells below give paths from the repository's root. `dafny verify dfyconfig.toml` checks everything.

**LevelDB.** A whole log-structured store, from the bytes of a record up to what a snapshot reads.

- *Reads and compaction* (`Keys`, `Reads`, `Files`, `VersionGet`, `InputChoice`, `DropRules`, `Compaction`, `CompactionReads`, `VersionSteps`, `FlushPlacement`, `Lifecycle`, `GapFlush`, `Counterexamples`). The specification of a read at snapshot *s* is the entry for the key with the greatest sequence number at most *s*; a tombstone and absence both read as nothing. `Lifecycle` is a state machine over writes, snapshots, memtable switches, flushes (also in the middle of a compaction), trivial moves and compactions, with nondeterministic choices. Compactions start on any inputs the code chooses and memtables are flushed where the code puts them. Two steps can do harm, a flush into a gap of the running compaction and the finish of a compaction that loses a deletion; in every run without them the levels stay valid and every live snapshot reads exactly the history of writes, and for each the exact condition is proved.
- *Log, batches and manifest* (`Coding`, `LogFormat`, `LogAttempts`, `LogWriter`, `LogReader`, `LogReading`, `LogRoundTrip`, `LogFailures`, `LogRecovery`, `Durability`, `LostWrites`, `WriteBatch`, `VersionEdit`, `VersionBuilder`, `Manifest`, `VersionSet`). What a reader returns from any bytes; recovery from any byte prefix of a log, also one to which appends have failed, of the write-ahead log that concurrent writers leave at a crash, and of a MANIFEST; replaying a MANIFEST gives the live version.
- *Iterators* (`Cursor`, `DbIterator`, `MergingIterator`, `TwoLevelIterator`, `BlockIterator`). Each acts as an index that moves in a sorted list, through any mix of moves and changes of direction.
- *Tables* (`BlockFormat`, `BlockIterator`, `Comparator`, `Bloom`, `FilterBlock`, `Table`, `MemTable`). Prefix-compressed blocks, separators, filters without false negatives, and lookups that read one block.
- *Supporting structures* (`Crc32c`, `SkipList`, `HandleTable`, `LruCache`, `CacheRuns`, `CacheOrder`, `WriterQueue`, `RoomRequests`). Striped CRC-32C equals the plain one; a skip list searched while links are being made; the cache, which over any run does what a simple model of least recently used entries does, and its hash table; group commit as a state machine of concurrent writers.

**DTLS** (`DtlsBitmap`, `DtlsReceive`, `DtlsDelivery`, `DtlsSend`; section 4.2.3 of RFC 6347). A sender cuts a flight into fragments for an MTU; a receiver with a bitmap for each message hands out exactly the messages sent, for any order and repetition of fragments.

**nanopb** (`PbScalars`, `PbVarint`, `PbMessages`, `PbEncode`, `PbDecode`, `PbStream`, `PbRoundTrip`, `PbEvolution`, `PbSafety`). Descriptor-driven messages with scalars, packed and unpacked arrays, strings, byte strings, oneofs and nested messages. The sizing pass predicts the writing pass; decoding what was encoded gives the message back, and what another descriptor shares of it; whatever is decoded stays within its variables.

Code that changes state step by step is a class or a method with loops, proved against a function or predicate that says what it computes; lemmas then say what that means.

## What the code does not do

Some properties one might expect are false of the code. Each has a concrete example and an exact condition.

- A compaction can bring a deleted value back when the next level splits a user key between two files and only the first is chosen, since boundary files are added at the input level only (`version_set.cc:1403-1410`). `Counterexamples.DeletionLost` is an example and `Counterexamples.SplitKeyChosen` shows that these inputs are picked. `CompactionReads.CompactionKeepsReadsIff` says exactly when reads are kept, `Lifecycle.FinishKeepsReadIff` the same for a compaction with other steps between its start and its end.
- A memtable flushed in the middle of a manual compaction can land between its inputs in the output level (`db_impl.cc:908-918`), after which two files of the level overlap. `Counterexamples.LandsInGap` is an example, in which `Counterexamples.GapMisread` misses a stored entry, and `Counterexamples.GapChosen` shows that these inputs are picked. `GapFlush.FlushHarmlessIff` says exactly when the flush is harmless. The inputs of an automatic compaction leave no gap (`InputChoice.PickCompaction`), and then it always is (`Lifecycle.ConnectedReachableInv`).
- After a failed append to the write-ahead log, a later write that returns OK, synced or not, may be lost at recovery although all its bytes are in the file. `EmitPhysicalRecord` moves the block offset on whether or not the flush succeeded (`log_writer.cc:106`), and `DBImpl::Write` goes on with the same log; where the reader then begins a block is not where the writer did. `LogFailures.WriteLost` is an example and `LostWrites.SyncedWriteLost` a run of the writer queue that ends so; `LogFailures.FoundIff` and `LogFailures.UndisturbedIff` say exactly when everything is found, and it always is while no append on the log has failed (`LogAttempts.NoneFailedAligned`, `Durability.AllAddedUndisturbed`).
- A request to make room, a null batch, may be absorbed by the group of another write and return OK without having made room. `WriterQueue.RequestAbsorbed` is a run in which it happens; `RoomRequests.RequestMadeRoomIff` says exactly when.
- A DTLS fragment exactly seven messages ahead is not ignored like those further ahead; it raises an internal error. `DtlsDelivery.SevenAheadAlerts` is an example, `DtlsDelivery.AbsorbGenuine` the exact condition.
- The reader of 32-bit varints, for tags and lengths, does not refuse every number that overflows: where more bytes follow it never looks at bits 32 to 34, and the bytes after them may be zero one by one (`pb_decode.c:213-240`). `PbVarint.OverflowAccepted` is an example, `PbVarint.Varint32Iff` the exact condition.
- A string that fills its variable without a terminating zero is encoded by nanopb, and the decoder refuses the result. `PbRoundTrip.FullStringUnreadable` is an example, `PbRoundTrip.RoundTrip` the exact condition.

One remark on a property that holds: for one block to be enough in a table lookup, an index key between the last key of its block and the next key in internal key order would not do (`Tables.OrderIsNotEnough`). It must be the last key itself or have a user key strictly between the two user keys, which is what the comparator makes (`Comparators.ISeparatorBetween`, `Tables.OneBlockIsEnough`).

## Model

| member | source | states |
|---|---|---|
| `Reads.ReadOfStack` | jkbempoffers/ios/Pods/leveldb-library/db/version_set.cc:326-421 | if every entry of one set is newer than every entry of another for the same key, a read of the union is a read of the newer set, and of the older one only when the newer has nothing visible; why searching level by level is right |
| `VersionGet.FindFile` | jkbempoffers/ios/Pods/leveldb-library/db/version_set.cc:88-106 | on any list it ends where the bisection does, and in a sorted level that splits the files exactly at the first one whose largest key is not before the sought key |
| `VersionGet.SortNewestFirst` | jkbempoffers/ios/Pods/leveldb-library/db/version_set.cc:278-300 | the level-0 candidates come out by decreasing number, none lost or added |
| `VersionGet.TableGet` | jkbempoffers/ios/Pods/leveldb-library/db/version_set.cc:263-276 | one table answers with its newest entry for the key at or below the snapshot, and with nothing only if it has none |
| `VersionGet.SearchLevelZero` | jkbempoffers/ios/Pods/leveldb-library/db/version_set.cc:334-358 | in any level 0 whose overlapping files are ordered by number, the first hit, newest file first, is the newest visible entry of the whole level |
| `VersionGet.SearchDeepLevel` | jkbempoffers/ios/Pods/leveldb-library/db/version_set.cc:359-377 | in a sorted, disjoint level at most one file need be read: its answer is the newest visible entry of the whole level |
| `VersionGet.OneFileIsEnough` | jkbempoffers/ios/Pods/leveldb-library/db/version_set.cc:359-377 | a visible entry of the level lies in the file the search lands on, or a newer visible one for the key does |
| `VersionGet.Get` | jkbempoffers/ios/Pods/leveldb-library/db/version_set.cc:326-421 | in every valid version, for every key and snapshot, Version::Get gives exactly the newest entry at or below the snapshot over all files, a tombstone and absence both being None |
| `InputChoice.GetOverlappingInputs` | jkbempoffers/ios/Pods/leveldb-library/db/version_set.cc:519-559 | ends, with exactly the files overlapping the final range; at level 0 that range is the least one containing the given range from which no overlapping file sticks out |
| `InputChoice.FindLargestKey` | jkbempoffers/ios/Pods/leveldb-library/db/version_set.cc:1326-1342 | the greatest largest key of the files, or nothing for no files |
| `InputChoice.FindSmallestBoundaryFile` | jkbempoffers/ios/Pods/leveldb-library/db/version_set.cc:1344-1361 | the first file of the level that starts past the key with the same user key, and nothing exactly when there is none |
| `InputChoice.AddBoundaryInputs` | jkbempoffers/ios/Pods/leveldb-library/db/version_set.cc:1378-1401 | ends; each file appended was the first boundary file of what was chosen so far, and in the end the level holds no boundary file of the choice |
| `InputChoice.RunIsClosed` | jkbempoffers/ios/Pods/leveldb-library/db/version_set.cc:1378-1401 | a run of files of a sorted level with no boundary file left leaves behind only newer entries for each of its user keys |
| `InputChoice.ChoiceCloses` | jkbempoffers/ios/Pods/leveldb-library/db/version_set.cc:1403-1410 | at level 0 and below: the chosen files with their boundary files are closed under older entries of their user keys |
| `InputChoice.SetupOtherInputs` | jkbempoffers/ios/Pods/leveldb-library/db/version_set.cc:1403-1447 | the inputs at the level are closed under older entries, and those of the next level are exactly the files that overlap their range; if the first choice leaves no gap, neither do all inputs.  They are the choice with its boundary files and what overlaps it, and they grow to all files that the whole range asks for if and only if that is more files, stays under 25 times the file size and takes no more files of the next level |
| `InputChoice.StopAtLimit` | jkbempoffers/ios/Pods/leveldb-library/db/version_set.cc:1472-1488 | the shortest non-empty prefix of the files whose sizes reach the limit, or all of them |
| `InputChoice.PickCompaction` | jkbempoffers/ios/Pods/leveldb-library/db/version_set.cc:1289-1318 | starting from any one file, the inputs that come out include it, are closed as above and leave no gap in the key space |
| `InputChoice.CompactRange` | jkbempoffers/ios/Pods/leveldb-library/db/version_set.cc:1464-1495 | for any range the inputs are closed as above, also when the file list is cut at the size limit; all overlapping files are taken, or below level 0 as many as it takes to reach the limit and no more; nothing is chosen exactly when no file overlaps |
| `FlushPlacement.SomeFileOverlapsRange` | jkbempoffers/ios/Pods/leveldb-library/db/version_set.cc:122-156 | true exactly when some file of the level has a user key range that meets the given one |
| `FlushPlacement.PickLevelForMemTableOutput` | jkbempoffers/ios/Pods/leveldb-library/db/version_set.cc:491-516 | exactly: level 0 if level 0 has files in the range; otherwise the first of levels 0 and 1 after which there are files in the range, or too many bytes of them two levels down, and level 2 if there is none; the level and all above it then hold no file in the range |
| `DropRules.DropKeepsReadsIff` | jkbempoffers/ios/Pods/leveldb-library/db/db_impl.cc:925-960 | for any input entries, any set of keys without deeper data and any other entries: dropping changes no read of a key at snapshots from the smallest on, if and only if the newest input entry the smallest snapshot sees is not an obsolete tombstone hiding an older value elsewhere |
| `DropRules.NewestInputKept` | jkbempoffers/ios/Pods/leveldb-library/db/db_impl.cc:925-960 | unless it is an obsolete tombstone, the newest entry the smallest snapshot sees is kept, and so are all entries newer than it |
| `DropRules.DropsAll` | jkbempoffers/ios/Pods/leveldb-library/db/db_impl.cc:925-960 | of two entries for a key, a kept older one means that the smallest snapshot does not see the newer; no obsolete tombstone is kept; nothing is dropped for any other reason |
| `Compaction.LevelCursor.IsBaseLevelForKey` | jkbempoffers/ios/Pods/leveldb-library/db/version_set.cc:1533-1552 | the cursor that only moves forward answers, for keys asked in ascending order, whether any file of any deeper level covers the key |
| `Compaction.DoCompactionWork` | jkbempoffers/ios/Pods/leveldb-library/db/db_impl.cc:890-1010 | for every place where outputs are cut: the outputs are valid files in key order, disjoint, with fresh numbers.  Of each key they hold the newest entry the smallest snapshot sees and the newer ones, and none older; no tombstone the smallest snapshot sees is among them unless a file two or more levels down covers its key; and no other entry is dropped |
| `Compaction.HiddenByPrevious` | jkbempoffers/ios/Pods/leveldb-library/db/db_impl.cc:928-945 | in merged order, the sequence number of the previous entry for the key decides the first drop rule, as a comparison with all inputs would |
| `CompactionReads.ChosenInputsSettled` | jkbempoffers/ios/Pods/leveldb-library/db/version_set.cc:1403-1447 | the inputs every compaction starts from leave behind only newer entries at their level, and every next-level file not chosen lies to one side of them all |
| `CompactionReads.CompactionKeepsReadsIff` | jkbempoffers/ios/Pods/leveldb-library/db/db_impl.cc:860-963 | for every valid version, every choice of inputs that the code makes and every snapshot from the smallest on: replacing the inputs by what the drop loop keeps changes no read, if and only if no next-level boundary file (one starting with the user key the chosen next-level files end with) has, as its first entry, an older value that an obsolete tombstone among the inputs was hiding |
| `Counterexamples.DeletionLost` | jkbempoffers/ios/Pods/leveldb-library/db/version_set.cc:1403-1410 | a valid version and inputs as chosen for which the deleted value is read again after the compaction |
| `Counterexamples.SplitKeyChosen` | jkbempoffers/ios/Pods/leveldb-library/db/version_set.cc:1270-1320 | picking a compaction from the one level-1 file of that version takes exactly those inputs |
| `Counterexamples.GapChosen` | jkbempoffers/ios/Pods/leveldb-library/db/version_set.cc:1464-1495 | a manual compaction of the whole of level 1 of a version takes its two files, which leave a gap |
| `Counterexamples.LandsInGap` | jkbempoffers/ios/Pods/leveldb-library/db/db_impl.cc:908-918 | that version is well stored; a memtable flushed meanwhile may land in the gap, in level 2, and leaves the version well stored; installing the one output that holds all that is kept then gives an invalid version |
| `Counterexamples.GapMisread` | jkbempoffers/ios/Pods/leveldb-library/db/version_set.cc:359-377 | in that version the search of level 2 finds nothing for a key whose entry is there and visible |
| `VersionSteps.ReplacedValid` | jkbempoffers/ios/Pods/leveldb-library/db/db_impl.cc:860-876 | replacing settled inputs by outputs over a subset of their entries keeps levels disjoint and sorted and shallower entries newer |
| `VersionSteps.ReplacedEntries` | jkbempoffers/ios/Pods/leveldb-library/db/db_impl.cc:860-876 | the new version holds the outputs instead of the inputs and every other entry as before |
| `VersionSteps.InstalledIsEdited` | jkbempoffers/ios/Pods/leveldb-library/db/version_set.cc:695-739 | the version that saving one edit builds has, level by level, the old files without the deleted and with the added ones |
| `VersionSteps.FlushedStored` | jkbempoffers/ios/Pods/leveldb-library/db/db_impl.cc:491-533 | a flushed file, newer than all there is and placed as above, keeps the version well stored and adds exactly its entries |
| `VersionSteps.FlushKeepsSettledIff` | jkbempoffers/ios/Pods/leveldb-library/db/db_impl.cc:908-918 | a flush in the middle of a compaction leaves its inputs settled if and only if the file is not put in the output level or lies to one side of what the compaction will write |
| `Lifecycle.NextKeepsInv` | jkbempoffers/ios/Pods/leveldb-library/db/db_impl.cc:688-767 | every step (write, take and release a snapshot, switch memtables, flush, trivial move, start of any compaction the code chooses, finish or abandon it, in any interleaving) except a flush into a gap of the running compaction keeps the invariant: sorted disjoint levels, shallower entries newer, memtables newer still; and every step except that and a finish that loses a deletion keeps the reads exact |
| `Lifecycle.ReachableInv` | jkbempoffers/ios/Pods/leveldb-library/db/db_impl.cc:688-767 | the invariant holds in every state of every run that a flush into a gap has not preceded; nothing is asked of the compactions' inputs |
| `Lifecycle.ConnectedReachableInv` | jkbempoffers/ios/Pods/leveldb-library/db/db_impl.cc:688-767 | it holds in every state of every run whose compactions have inputs without a gap, as those picked automatically, whenever memtables are flushed |
| `Lifecycle.ReadsAreExact` | jkbempoffers/ios/Pods/leveldb-library/db/db_impl.cc:1100-1145 | in every state of a run, if no memtable was flushed into a gap and no compaction that loses a deletion finished, every live snapshot reads, for every key, exactly the newest write at or below it in the whole history of writes |
| `Lifecycle.SnapshotsAreStable` | jkbempoffers/ios/Pods/leveldb-library/db/snapshot.h:39-89 | under the same two conditions a snapshot reads the same at any two points of a run at which it is live |
| `Lifecycle.FinishKeepsInv` | jkbempoffers/ios/Pods/leveldb-library/db/db_impl.cc:878-1048 | finishing a compaction keeps the invariant, whatever next-level files were left out and although memtables were written, switched and flushed while it ran |
| `Lifecycle.FinishKeepsReadIff` | jkbempoffers/ios/Pods/leveldb-library/db/db_impl.cc:878-1048 | in every state with the invariant, finishing a compaction keeps what a key reads at every snapshot from its smallest on, if and only if the levels, when it started, were not in a state in which it loses a deletion of the key |
| `Lifecycle.StartsAtOldest` | jkbempoffers/ios/Pods/leveldb-library/db/db_impl.cc:887-894 | a compaction starts with the oldest live snapshot, or with the last sequence number if there is none |
| `Lifecycle.FinishDrops` | jkbempoffers/ios/Pods/leveldb-library/db/db_impl.cc:925-960 | what it installs holds no entry that a newer one among its inputs hides from that snapshot, and no tombstone that the snapshot sees unless a file further down covers its key |
| `Lifecycle.FlushKeepsInv` | jkbempoffers/ios/Pods/leveldb-library/db/db_impl.cc:535-566 | a memtable flush keeps the invariant, also while a compaction runs, unless it lands in the output level between entries the compaction will write |
| `GapFlush.FlushHarmlessIff` | jkbempoffers/ios/Pods/leveldb-library/db/db_impl.cc:908-918 | in every state with the invariant: after a flush, every way the running compaction can cut and install its outputs gives a valid version, if and only if the flush did not land in the output level between entries the compaction will write |
| `Lifecycle.MoveKeepsInv` | jkbempoffers/ios/Pods/leveldb-library/db/db_impl.cc:713-734 | a trivial move keeps the invariant and every read |
| `Lifecycle.Get` | jkbempoffers/ios/Pods/leveldb-library/db/db_impl.cc:1100-1145 | memtable, immutable memtable and version searched in this order give the read of everything stored |
| `Coding.EncodeVarint32` | jkbempoffers/ios/Pods/leveldb-library/util/coding.cc:47-73 | the branches write the seven-bit digits of every 32-bit number, low ones first |
| `Coding.DecodeVarint` | jkbempoffers/ios/Pods/leveldb-library/util/coding.cc:112-157 | the loop over at most five or ten bytes computes the number cut to 32 or 64 bits and consumes its bytes, or fails exactly when no end is found |
| `Coding.TakeVarintIs` | jkbempoffers/ios/Pods/leveldb-library/util/coding.cc:112-157 | for any bytes: a number ends at the first byte with a clear top bit, if there is one in time, and its digits are the low seven bits of the bytes, low ones first |
| `Coding.Varint32RoundTrip` | jkbempoffers/ios/Pods/leveldb-library/util/coding.cc:47-140 | every 32-bit number is read back, whatever follows it |
| `Coding.Varint64RoundTrip` | jkbempoffers/ios/Pods/leveldb-library/util/coding.cc:81-169 | every 64-bit number is read back, whatever follows it |
| `Coding.LengthPrefixedRoundTrip` | jkbempoffers/ios/Pods/leveldb-library/util/coding.cc:98-192 | a string shorter than 4 GiB is read back, whatever follows it |
| `Coding.Fixed64RoundTrip` | jkbempoffers/ios/Pods/leveldb-library/util/coding.cc:20-33 | eight bytes give the number back |
| `Coding.Fixed64Bytes` | jkbempoffers/ios/Pods/leveldb-library/util/coding.cc:20-33 | byte i is the number divided by the i-th power of 256, the low byte first |
| `Coding.VarintBytes` | jkbempoffers/ios/Pods/leveldb-library/util/coding.cc:47-96 | byte i holds the i-th seven bits, its top bit is set exactly if more follow, and there are as few bytes as can be |
| `Coding.LengthPrefixedCut` | jkbempoffers/ios/Pods/leveldb-library/util/coding.cc:112-192 | a length-prefixed string that is cut off anywhere is refused |
| `LogWriter.Writer.TryAddRecord` | jkbempoffers/ios/Pods/leveldb-library/db/log_writer.cc:34-108 | appends the fragments of the record, block trailers included, up to the one whose flush fails, of which the file keeps any number of bytes; the block offset moves on past that one as well |
| `LogWriter.Writer.AddRecord` | jkbempoffers/ios/Pods/leveldb-library/db/log_writer.cc:34-80 | with no failure, appends exactly the fragments of the record and leaves the block offset after them |
| `LogWriter.WriteLog` | jkbempoffers/ios/Pods/leveldb-library/db/log_writer.cc:34-108 | a list of records written to an empty file gives the bytes of the log format |
| `LogFormat.FragmentsFill` | jkbempoffers/ios/Pods/leveldb-library/db/log_writer.cc:34-80 | every fragment of a record but the last one fills its block to the end |
| `LogWriter.WriteAttempts` | jkbempoffers/ios/Pods/leveldb-library/db/log_writer.cc:34-108 | the file that any appends to an empty file leave, whichever of them fail and wherever |
| `LogReader.Reader.ReadPhysicalRecord` | jkbempoffers/ios/Pods/leveldb-library/db/log_reader.cc:189-271 | reads what the specification function reads, for any bytes: fragment, end of file or bad record, with the same reports |
| `LogReader.Reader.ReadNext` | jkbempoffers/ios/Pods/leveldb-library/db/log_reader.cc:56-174 | the fragment-joining loop returns what the specification function returns, for any bytes, with the same reports; `LogReading.RecordIsFirst` says what that is |
| `LogReading.RecordIsFirst` | jkbempoffers/ios/Pods/leveldb-library/db/log_reader.cc:56-174 | for any bytes, what a call returns is the first record among the physical reads it makes: the payload of one full fragment, or those of a first, any middle ones and a last one read one right after the other, with no bad read and no other kind between; none is returned exactly if there is none before the file ends; every fragment dropped on the way is reported |
| `LogReading.PhysicalIsEncoded` | jkbempoffers/ios/Pods/leveldb-library/db/log_reader.cc:189-271 | a fragment that is returned stands in the file as the writer encodes it, checksum included, and after a bad one nothing of its block is left |
| `LogReading.BadHeaders` | jkbempoffers/ios/Pods/leveldb-library/db/log_reader.cc:210-257 | for any header: cut off by the end of the file, past its block, of type zero and empty, with a checksum that does not match, or returned, and the report in each case |
| `LogRoundTrip.ReadFragment` | jkbempoffers/ios/Pods/leveldb-library/db/log_reader.cc:189-271 | a fragment that is wholly in the file is returned and a torn one ends the log, without a report either way, at every block offset |
| `LogRoundTrip.ReadRecordJoins` | jkbempoffers/ios/Pods/leveldb-library/db/log_reader.cc:56-174 | from any state of the joining, one call joins fragments up to the first that completes a record, or all that the file has, with the reports for those dropped |
| `LogRoundTrip.ReadAll` | jkbempoffers/ios/Pods/leveldb-library/db/log_reader.cc:56-271 | any byte prefix of any fragments in their blocks gives the records that the whole fragments in it join to, and the reports |
| `LogRoundTrip.JoinCut` | jkbempoffers/ios/Pods/leveldb-library/db/log_reader.cc:87-151 | the fragments of one record join to it, whatever was left of an earlier one, which is dropped with a report |
| `LogRoundTrip.RecoverAttempts` | jkbempoffers/ios/Pods/leveldb-library/db/log_reader.cc:56-271 | for appends that may have failed, as long as the log is undisturbed (the reader looks for each fragment where the writer put it): every byte prefix of the file gives exactly the records whose append returned OK and whose bytes lie in it, in order |
| `LogRoundTrip.Recover` | jkbempoffers/ios/Pods/leveldb-library/db/log_reader.cc:56-271 | from every byte prefix of a log without failed appends, exactly the records that end within it are returned, in order, and nothing is reported |
| `LogFailures.FoundIff` | jkbempoffers/ios/Pods/leveldb-library/db/log_reader.cc:189-271 | for any fragments with any filler between them, as writers whose offset is wrong leave them: however many of them the file has, the reader finds them all and reports nothing, if and only if each is where it looks for it (after the trailer of the block of the file, and within that block) |
| `LogFailures.UndisturbedIff` | jkbempoffers/ios/Pods/leveldb-library/db/log_writer.cc:82-108 | the same for the file that appends leave, failed ones among them that keep none of the bytes they fail at |
| `LogFailures.WriteLost` | jkbempoffers/ios/Pods/leveldb-library/db/log_writer.cc:105-107 | an append that fails without a byte in the file, then two that return OK: with the whole file there, the second of them is reported as a bad record length and not returned |
| `LostWrites.SyncedWriteLost` | jkbempoffers/ios/Pods/leveldb-library/db/db_impl.cc:1211-1236 | a run of three writers, the third of which asks for sync and gets OK, and an outcome of their appends (the first fails) whose whole file gives back the second record and not the third |
| `LogAttempts.NoneFailedAligned` | jkbempoffers/ios/Pods/leveldb-library/db/log_writer.cc:34-108 | while no append has failed, the log is undisturbed and the block offset is that of the file |
| `LogRecovery.RecoverLogFile` | jkbempoffers/ios/Pods/leveldb-library/db/db_impl.cc:371-489 | from every byte prefix of an undisturbed log of groups, however numbered: the memtable gets exactly the operations of the groups whose append returned OK and ends within it, numbered as when written, and the last sequence number is the greatest of them |
| `LogRecovery.PrefixRecoversPrefix` | jkbempoffers/ios/Pods/leveldb-library/db/db_impl.cc:371-489 | a shorter prefix recovers a prefix of what a longer one does |
| `Durability.RecoverAfterCrash` | jkbempoffers/ios/Pods/leveldb-library/db/db_impl.cc:1185-1306 | in every reachable state of the writer queue, for every outcome of the appends of its groups that leaves the log undisturbed (for one, if no append failed), with the file cut off at any byte after what reached the disk: recovery inserts what some first added groups wrote, among them all that reached the disk, and the last sequence number is the last of theirs |
| `Durability.AppendedAreLogged` | jkbempoffers/ios/Pods/leveldb-library/db/db_impl.cc:1211-1236 | the appends that return OK are those of the groups that the queue counts as added |
| `Durability.AllAddedUndisturbed` | jkbempoffers/ios/Pods/leveldb-library/db/db_impl.cc:1211-1236 | if no group failed to be added, the log is undisturbed |
| `Durability.SyncedIsLogged` | jkbempoffers/ios/Pods/leveldb-library/db/db_impl.cc:1220-1240 | a sync write that returned OK is in a synced group of that log |
| `Durability.LogsBelow` | jkbempoffers/ios/Pods/leveldb-library/db/db_impl.cc:1211-1236 | the groups in the log are numbered upwards, with numbers left out where a group was not added |
| `WriteBatches.TakeAllEncoded` | jkbempoffers/ios/Pods/leveldb-library/db/write_batch.cc:42-80 | the operations of a batch are read back from its bytes, in order |
| `WriteBatches.OpsCut` | jkbempoffers/ios/Pods/leveldb-library/db/write_batch.cc:42-80 | a batch that ends inside an operation hands over exactly the operations before it, and is an error that names its kind |
| `WriteBatches.UnknownTag` | jkbempoffers/ios/Pods/leveldb-library/db/write_batch.cc:42-80 | so is one with a tag that is neither, whatever follows |
| `WriteBatches.WriteBatch.Append` | jkbempoffers/ios/Pods/leveldb-library/db/write_batch.cc:144-148 | the destination holds its operations and then those of the source, and counts both |
| `WriteBatches.WriteBatch.InsertInto` | jkbempoffers/ios/Pods/leveldb-library/db/write_batch.cc:118-137 | for any bytes: the insertions made, their numbers and the error, as the operations in the bytes determine them |
| `WriteBatches.WriteBatch.InsertsAll` | jkbempoffers/ios/Pods/leveldb-library/db/write_batch.cc:42-137 | a batch built by Put, Delete and Append inserts all its operations, numbered from its sequence number, without error |
| `VersionEdits.EncodeTo` | jkbempoffers/ios/Pods/leveldb-library/db/version_edit.cc:41-85 | the bytes of the fields, in the order of the code |
| `VersionEdits.DecodeFrom` | jkbempoffers/ios/Pods/leveldb-library/db/version_edit.cc:107-205 | for any bytes, the edit or the error that the fields read one by one determine |
| `VersionEdits.EditRoundTrip` | jkbempoffers/ios/Pods/leveldb-library/db/version_edit.cc:41-205 | every edit is read back from its encoding |
| `VersionEdits.CutRefused` | jkbempoffers/ios/Pods/leveldb-library/db/version_edit.cc:107-205 | a record that ends inside a field is refused, whatever fields come before |
| `VersionEdits.UnknownTagRefused` | jkbempoffers/ios/Pods/leveldb-library/db/version_edit.cc:107-205 | a field with an unknown tag refuses the edit, wherever it comes |
| `VersionEdits.LevelRefused` | jkbempoffers/ios/Pods/leveldb-library/db/version_edit.cc:97-105 | so does a level that does not exist |
| `VersionEdits.InsertIs` | jkbempoffers/ios/Pods/leveldb-library/db/version_edit.cc:170-177 | deleted files may come in any order: they are collected as an ordered set |
| `VersionBuilder.SaveIsSaved` | jkbempoffers/ios/Pods/leveldb-library/db/version_set.cc:695-754 | merging base and added files gives a sorted list of exactly the base files not deleted and the added ones |
| `VersionBuilder.ApplyOne` | jkbempoffers/ios/Pods/leveldb-library/db/version_set.cc:650-693 | applying one more edit to a builder saves what applying it to the saved version would |
| `VersionBuilder.ReplayIsChain` | jkbempoffers/ios/Pods/leveldb-library/db/version_set.cc:650-754 | if no number is added twice, one builder over all edits saves the list that the chain of single-edit builders saves |
| `VersionBuilder.SnapshotIsWhole` | jkbempoffers/ios/Pods/leveldb-library/db/version_set.cc:1088-1116 | saving the files of a sorted list over nothing gives the list back |
| `VersionBuilder.Builder.SaveTo` | jkbempoffers/ios/Pods/leveldb-library/db/version_set.cc:695-739 | the merge loop with its binary searches saves, level by level, the list of the specification |
| `Manifest.Replay` | jkbempoffers/ios/Pods/leveldb-library/db/version_set.cc:919-984 | the replay loop gives the files and numbers of all edits applied to one builder, and stops exactly at a comparator that does not match |
| `Manifest.Recover` | jkbempoffers/ios/Pods/leveldb-library/db/version_set.cc:886-1011 | from every byte prefix of a MANIFEST, the edits whose records end within it are recovered |
| `Manifest.RefusedIff` | jkbempoffers/ios/Pods/leveldb-library/db/version_set.cc:930-985 | recovery fails if and only if an edit names another comparator or no edit gives the next file number, the log number or the last sequence |
| `Manifest.LastSetIs` | jkbempoffers/ios/Pods/leveldb-library/db/version_set.cc:930-970 | each number recovered is that of an edit after which no edit gives one |
| `VersionSets.RecoveryIsLive` | jkbempoffers/ios/Pods/leveldb-library/db/version_set.cc:886-1116 | replaying a snapshot record and the edits after it gives, level by level, the files of the chain of single-edit versions, and the numbers and pointers last logged |
| `VersionSets.VersionSet.LogAndApply` | jkbempoffers/ios/Pods/leveldb-library/db/version_set.cc:801-884 | the new version is the current one with the edit applied, and the MANIFEST grows by the completed edit, after a snapshot record if it is new |
| `VersionSets.VersionSet.RecoversLogged` | jkbempoffers/ios/Pods/leveldb-library/db/version_set.cc:801-1011 | recovering the first m records of the MANIFEST gives the version as it was after the edit of the last of them; all records give the current version |
| `VersionSets.Reopen` | jkbempoffers/ios/Pods/leveldb-library/db/version_set.cc:886-1011 | from every byte prefix of the MANIFEST of a version set that has its first edit, a new version set with the version after the last whole record, and the same version, pointers and log numbers if nothing is cut off |
| `DbIterator.ListIsWhatReadsFind` | jkbempoffers/ios/Pods/leveldb-library/db/db_iter.cc:141-299 | the list the iterator walks holds, once each and in order, exactly the user keys a read at its sequence finds, with the values found |
| `DbIterator.DBIter.FindNextUserEntry` | jkbempoffers/ios/Pods/leveldb-library/db/db_iter.cc:168-198 | stops at the first entry shown at or after the place, past the skipped user key, or becomes invalid if there is none |
| `DbIterator.DBIter.FindPrevUserEntry` | jkbempoffers/ios/Pods/leveldb-library/db/db_iter.cc:227-267 | saves the last shown entry before the place and stands before its user key, or becomes invalid if there is none |
| `DbIterator.DBIter.Next` | jkbempoffers/ios/Pods/leveldb-library/db/db_iter.cc:141-166 | moves the index in the list on by one, from either direction |
| `DbIterator.DBIter.Prev` | jkbempoffers/ios/Pods/leveldb-library/db/db_iter.cc:200-225 | moves the index in the list back by one, from either direction, and past the front to invalid |
| `DbIterator.DBIter.Seek` | jkbempoffers/ios/Pods/leveldb-library/db/db_iter.cc:269-281 | the index of the first listed user key at or after the target |
| `DbIterator.DBIter.SeekToFirst` | jkbempoffers/ios/Pods/leveldb-library/db/db_iter.cc:283-292 | the first index of the list |
| `DbIterator.DBIter.SeekToLast` | jkbempoffers/ios/Pods/leveldb-library/db/db_iter.cc:294-299 | the last index of the list |
| `Merging.SmallestAtCut` | jkbempoffers/ios/Pods/leveldb-library/table/merger.cc:148-161 | with every child at or after a place of the union, the smallest child entry is the union entry there |
| `Merging.LargestBehindCut` | jkbempoffers/ios/Pods/leveldb-library/table/merger.cc:163-176 | with every child before a place of the union, the largest child entry is the union entry before it |
| `Merging.MergingIterator.Seek` | jkbempoffers/ios/Pods/leveldb-library/table/merger.cc:47-53 | stands on the first union entry at or after the target |
| `Merging.MergingIterator.Next` | jkbempoffers/ios/Pods/leveldb-library/table/merger.cc:55-79 | moves on by one in the sorted union of the children, from either direction |
| `Merging.MergingIterator.Prev` | jkbempoffers/ios/Pods/leveldb-library/table/merger.cc:81-108 | moves back by one in the sorted union, from either direction |
| `TwoLevel.SeekSplits` | jkbempoffers/ios/Pods/leveldb-library/table/two_level_iterator.cc:82-87 | seeking the index and then the block it names finds the place in the concatenation |
| `TwoLevel.TwoLevelIterator.Seek` | jkbempoffers/ios/Pods/leveldb-library/table/two_level_iterator.cc:82-87 | the first entry of the concatenation at or after the target, past any number of empty blocks |
| `TwoLevel.TwoLevelIterator.Next` | jkbempoffers/ios/Pods/leveldb-library/table/two_level_iterator.cc:103-107 | moves on by one in the concatenation of the blocks, some of which may be empty |
| `TwoLevel.TwoLevelIterator.Prev` | jkbempoffers/ios/Pods/leveldb-library/table/two_level_iterator.cc:109-113 | moves back by one in the concatenation |
| `BlockFormat.BlockBuilder.Add` | jkbempoffers/ios/Pods/leveldb-library/table/block_builder.cc:72-105 | the buffer, restart offsets, counter and last key are those of the list with the entry added, for every restart interval |
| `BlockFormat.SharedIs` | jkbempoffers/ios/Pods/leveldb-library/table/block_builder.cc:72-90 | nothing is shared at a restart point, and elsewhere all that a key has in common with the one before |
| `BlockFormat.BlockBuilder.Finish` | jkbempoffers/ios/Pods/leveldb-library/table/block_builder.cc:62-70 | the buffer followed by the restart array and its length |
| `BlockIterator.DecodeEncoded` | jkbempoffers/ios/Pods/leveldb-library/table/block.cc:54-77 | the three lengths written by the builder are decoded, on the one-byte path and on the varint path |
| `BlockIterator.EntryDecodes` | jkbempoffers/ios/Pods/leveldb-library/table/block.cc:54-77 | at the place of entry i of a built block, decoding finds its shared length, its own key bytes and its value |
| `BlockIterator.RestartAt` | jkbempoffers/ios/Pods/leveldb-library/table/block.cc:99-102 | restart point k is the place of entry k times the interval |
| `BlockIterator.BlockIter.ParseNextKey` | jkbempoffers/ios/Pods/leveldb-library/table/block.cc:224-251 | standing on entry i moves it to entry i + 1 with the whole key, and after the last to the end |
| `BlockIterator.BlockIter.Next` | jkbempoffers/ios/Pods/leveldb-library/table/block.cc:137-140 | moves on by one in the entry list the block was built from |
| `BlockIterator.BlockIter.Prev` | jkbempoffers/ios/Pods/leveldb-library/table/block.cc:142-161 | moves back by one, over restart points; from the first entry to invalid |
| `BlockIterator.BlockIter.SeekToLast` | jkbempoffers/ios/Pods/leveldb-library/table/block.cc:208-213 | the last entry |
| `BlockIterator.BlockIter.FindRestart` | jkbempoffers/ios/Pods/leveldb-library/table/block.cc:165-190 | the binary search ends at a restart point whose key is before the target, or at the first one, and ends |
| `BlockIterator.BlockIter.Seek` | jkbempoffers/ios/Pods/leveldb-library/table/block.cc:163-201 | the first entry whose key is not before the target, for any strict order of keys |
| `Comparators.FindShortestSeparator` | jkbempoffers/ios/Pods/leveldb-library/util/comparator.cc:29-50 | at the first place where start and limit differ: the start up to there with its byte there increased if that is still below the limit's, and the start otherwise |
| `Comparators.SeparatorBetween` | jkbempoffers/ios/Pods/leveldb-library/util/comparator.cc:29-50 | the separator is the start itself or strictly between start and limit |
| `Comparators.SeparatorShortest` | jkbempoffers/ios/Pods/leveldb-library/util/comparator.cc:29-50 | a separator other than the start is as short as anything from the start up to the limit |
| `Comparators.FindShortSuccessor` | jkbempoffers/ios/Pods/leveldb-library/util/comparator.cc:52-63 | the key up to its first byte that is not 0xff with that byte increased; the key itself if there is none |
| `Comparators.SuccessorShortest` | jkbempoffers/ios/Pods/leveldb-library/util/comparator.cc:52-63 | a successor other than the key is as short as anything after the key |
| `Comparators.ISeparatorBetween` | jkbempoffers/ios/Pods/leveldb-library/db/dbformat.cc:69-86 | the internal separator is the start itself or has a user key strictly between the two user keys |
| `Comparators.ISeparatorShorter` | jkbempoffers/ios/Pods/leveldb-library/db/dbformat.cc:69-86 | it is not the start exactly if the user key gets shorter, and then has the greatest tag |
| `Comparators.ISuccessorShorter` | jkbempoffers/ios/Pods/leveldb-library/db/dbformat.cc:88-101 | the same for the successor |
| `Comparators.ISuccessorAfter` | jkbempoffers/ios/Pods/leveldb-library/db/dbformat.cc:88-101 | the internal successor is the key itself or has a greater user key |
| `Comparators.ILessOrder` | jkbempoffers/ios/Pods/leveldb-library/db/dbformat.cc:51-67 | internal keys are strictly and totally ordered, by user key and then by decreasing tag |
| `BloomFilters.CreateFilter` | jkbempoffers/ios/Pods/leveldb-library/util/bloom.cc:28-54 | every key the filter was made for may match it; it has the number of keys times the bits per key rounded up to bytes, at least eight bytes, of which exactly the bits that a key probes are set, and the number of probes |
| `BloomFilters.KeyMayMatch` | jkbempoffers/ios/Pods/leveldb-library/util/bloom.cc:56-80 | the answer of the loop, for any filter bytes |
| `BloomFilters.MayMatchIs` | jkbempoffers/ios/Pods/leveldb-library/util/bloom.cc:56-80 | yes if and only if the number of probes is above 30 or every bit the key probes is set |
| `BloomFilters.ProbeIs` | jkbempoffers/ios/Pods/leveldb-library/util/bloom.cc:44-52 | probe j is the hash plus j times its rotation by 17 bits, in 32 bits |
| `FilterBlocks.FilterBlockBuilder.StartBlock` | jkbempoffers/ios/Pods/leveldb-library/table/filter_block.cc:21-27 | makes the filters due before the offset, the first of the keys collected and the others of no keys, and loses no key assigned to a group |
| `FilterBlocks.FilterBlockBuilder.Finish` | jkbempoffers/ios/Pods/leveldb-library/table/filter_block.cc:35-49 | every key assigned to a block offset is in that offset's group, and the contents are those of the format |
| `FilterBlocks.GroupKeyMatches` | jkbempoffers/ios/Pods/leveldb-library/table/filter_block.cc:77-104 | no false negatives: the reader lets every key of a group match at every block offset of the group |
| `FilterBlocks.GroupDecides` | jkbempoffers/ios/Pods/leveldb-library/table/filter_block.cc:77-104 | for a block offset and any key, the reader answers as the filter of exactly the keys of its group does, no for a group without keys, yes past the last group |
| `FilterBlocks.FilterSays` | jkbempoffers/ios/Pods/leveldb-library/table/filter_block.cc:77-104 | for any bytes, the answer of the reader, errors counting as a possible match |
| `Tables.TableBuilder.Add` | jkbempoffers/ios/Pods/leveldb-library/table/table_builder.cc:94-123 | keeps the builder's invariant (blocks in order, each index entry separating, filter groups complete, one entry held back) and adds exactly the entry; the block ends with it exactly if its size reaches the limit, and the held-back index entry is written with the short separator |
| `Tables.TableBuilder.Flush` | jkbempoffers/ios/Pods/leveldb-library/table/table_builder.cc:125-139 | turns the entries collected, if any, into a block at the current offset and changes nothing of what was added |
| `Tables.TableBuilder.Finish` | jkbempoffers/ios/Pods/leveldb-library/table/table_builder.cc:198-253 | the table holds exactly what was added, the last entries as one more block and the short successor as the last index key; its index separates its blocks, and its filter denies none of its keys, while filter offsets fit 32 bits |
| `Tables.StopsAtNewer` | jkbempoffers/ios/Pods/leveldb-library/table/table.cc:216-244 | if the index search stops before the block of a sought entry, the last entry of the block where it stops is sought too, and newer |
| `Tables.OneBlockIsEnough` | jkbempoffers/ios/Pods/leveldb-library/table/table.cc:216-244 | whenever the table holds an entry for the key at or below the snapshot, the one block the index names holds such an entry that is at least as new |
| `Tables.OrderIsNotEnough` | jkbempoffers/ios/Pods/leveldb-library/table/table.cc:216-244 | an index key after the last key of its block and before the next key, but with the next key's user key, makes the lookup stop at a block without the sought entry |
| `Tables.InternalGet` | jkbempoffers/ios/Pods/leveldb-library/table/table.cc:216-244 | in every table so built, with or without filter: whenever there is an entry for the user key at or below the snapshot, the newest such entry is reported |
| `MemTables.EntryReadBack` | jkbempoffers/ios/Pods/leveldb-library/db/memtable.cc:75-98 | key, tag and value are read back from an encoded entry |
| `MemTables.FirstIsNewest` | jkbempoffers/ios/Pods/leveldb-library/db/memtable.cc:100-134 | the first entry at or after the lookup key is the newest visible one for the user key, if it has that user key; otherwise there is none |
| `MemTables.MemTable.Add` | jkbempoffers/ios/Pods/leveldb-library/db/memtable.cc:75-98 | the table stays sorted by internal key and holds exactly one entry more |
| `MemTables.MemTable.Get` | jkbempoffers/ios/Pods/leveldb-library/db/memtable.cc:100-134 | the value or deletion of the newest entry at or below the snapshot; nothing exactly if there is no such entry |
| `Crc32c.Extend` | jkbempoffers/ios/Pods/leveldb-library/util/crc32c.cc:276-377 | for every start value, length and alignment the striped computation is the byte-at-a-time CRC |
| `Crc32c.ExtendLaw` | jkbempoffers/ios/Pods/leveldb-library/util/crc32c.cc:276-377 | extending over a and then over b is extending over a followed by b |
| `Crc32c.CheckValue` | jkbempoffers/ios/Pods/leveldb-library/util/crc32c.cc:276-377 | the published check value of CRC-32C, over the nine digits |
| `Crc32c.SwathStep` | jkbempoffers/ios/Pods/leveldb-library/util/crc32c.cc:293-347 | taking one word each, the four partial states stand for the plain state sixteen bytes further on |
| `Crc32c.RotateStep` | jkbempoffers/ios/Pods/leveldb-library/util/crc32c.cc:349-358 | taking one word and rotating, the four partial states stand for the plain state four bytes further on |
| `SkipLists.LinkKeepsLevel` | jkbempoffers/ios/Pods/leveldb-library/db/skiplist.h:337-368 | linking a node after its predecessor at a level gives the sorted list with the node in its place |
| `SkipLists.DoKeepsInv` | jkbempoffers/ios/Pods/leveldb-library/db/skiplist.h:262-368 | every step of an insertion (one link at a time) and of a concurrent search keeps all levels sorted and each a sublist of the one below |
| `SkipLists.SearchKeepsInv` | jkbempoffers/ios/Pods/leveldb-library/db/skiplist.h:262-282 | a search step keeps the invariant, and when it stops the answer is exact for the list at that moment |
| `SkipLists.SearchMissesNothing` | jkbempoffers/ios/Pods/leveldb-library/db/skiplist.h:262-282 | in every run, a search interleaved with link steps finds a key at or after its target that is no later than any such key inserted before it began |
| `SkipLists.SkipList.FindGreaterOrEqual` | jkbempoffers/ios/Pods/leveldb-library/db/skiplist.h:262-282 | the first node at or after the key, and at each level the last node before it |
| `SkipLists.SkipList.FindLessThan` | jkbempoffers/ios/Pods/leveldb-library/db/skiplist.h:285-302 | the last node before the key, or the head if there is none |
| `SkipLists.SkipList.FindLast` | jkbempoffers/ios/Pods/leveldb-library/db/skiplist.h:305-322 | the last node, or the head of an empty list |
| `SkipLists.SkipList.Insert` | jkbempoffers/ios/Pods/leveldb-library/db/skiplist.h:337-368 | for every height drawn, the levels stay sorted sublists and the set of keys grows by the key |
| `HandleTables.HandleTable.Lookup` | jkbempoffers/ios/Pods/leveldb-library/util/cache.cc:74-76 | the element with the key, and nothing only if there is none |
| `HandleTables.HandleTable.Insert` | jkbempoffers/ios/Pods/leveldb-library/util/cache.cc:78-92 | the table holds the element instead of the one with its key, which is returned; all others stay, also through a resize |
| `HandleTables.HandleTable.Remove` | jkbempoffers/ios/Pods/leveldb-library/util/cache.cc:94-104 | exactly the element with the key leaves and is returned |
| `HandleTables.HandleTable.Resize` | jkbempoffers/ios/Pods/leveldb-library/util/cache.cc:122-147 | loses and adds nothing, keeps every element in the bucket of its hash, and takes the shortest length (four, doubled any number of times) with a bucket for every element |
| `LruCaches.LRUCache.Lookup` | jkbempoffers/ios/Pods/leveldb-library/util/cache.cc:252-259 | the cached handle of the key with one more client reference, taken off the unused list, or nothing exactly if there is none |
| `LruCaches.WithoutAt` | jkbempoffers/ios/Pods/leveldb-library/util/cache.cc:239-242 | taking a handle off a list leaves the others in their order |
| `LruCaches.LRUCache.Release` | jkbempoffers/ios/Pods/leveldb-library/util/cache.cc:225-264 | one client reference less; the deleter runs exactly if it was the last and the cache has none |
| `LruCaches.LRUCache.Insert` | jkbempoffers/ios/Pods/leveldb-library/util/cache.cc:266-303 | the new handle is cached and held once and the one with its key let go; then unused handles are evicted, oldest first, as long as usage is over capacity and no longer: with the last one evicted it was; clients keep what they hold |
| `LruCaches.LRUCache.Erase` | jkbempoffers/ios/Pods/leveldb-library/util/cache.cc:318-321 | the handle of the key and no other leaves the cache, with its charge; clients keep what they hold |
| `LruCaches.LRUCache.Prune` | jkbempoffers/ios/Pods/leveldb-library/util/cache.cc:323-333 | every unused handle leaves, and no other, with their charges |
| `CacheRuns.Run` | jkbempoffers/ios/Pods/leveldb-library/util/cache.cc:217-333 | over any sequence of operations on a new cache: each answer is that of a model with the entries, an order of last use and a charge, and the cache ends with the entries, order, charge and held handles of the model; each handle made has been given to its deleter exactly once or is still there |
| `CacheOrder.IdleByLastUse` | jkbempoffers/ios/Pods/leveldb-library/util/cache.cc:217-303 | over any sequence of operations: of two unused entries, the one inserted or looked up later stands later |
| `CacheOrder.EvictsOldest` | jkbempoffers/ios/Pods/leveldb-library/util/cache.cc:266-303 | over any sequence of operations: an insert that evicts an entry evicts every unused entry used before it, and evicts only unused entries |
| `CacheOrder.EvictsOnlyIfNeeded` | jkbempoffers/ios/Pods/leveldb-library/util/cache.cc:266-303 | of the entries for other keys, those evicted are exactly the ones that go; with the last of them the charge would be over capacity, and it still is afterwards only if nothing unused is left |
| `CacheRuns.FoundSurvives` | jkbempoffers/ios/Pods/leveldb-library/util/cache.cc:252-333 | over any sequence of operations: what is found for a key is the value last inserted for it, not erased since and not pruned before a client kept its handle |
| `CacheRuns.FitsIsFound` | jkbempoffers/ios/Pods/leveldb-library/util/cache.cc:252-333 | while all inserts together fit the capacity, exactly that is found: a key is missed only if it was never inserted, was erased, or was pruned before a client kept its handle |
| `CacheRuns.KeptStays` | jkbempoffers/ios/Pods/leveldb-library/util/cache.cc:266-333 | an entry whose handle a client keeps is neither evicted nor pruned |
| `WriterQueue.BuildBatchGroup` | jkbempoffers/ios/Pods/leveldb-library/db/db_impl.cc:1260-1306 | the batch of the group's operations, and its length: the sum of the batches of the members that have one is within the cap (the first size and 128 KiB if the first is at most that, 1 MiB otherwise), and the group ends before a writer exactly if that one asks for sync and the leader does not, or has a batch with which the sum is over the cap |
| `WriterQueue.GroupOpsConcat` | jkbempoffers/ios/Pods/leveldb-library/db/db_impl.cc:1287-1302 | the operations of a group are those of its batches one after the other in queue order; null batches add none |
| `WriterQueue.JoinersAreNoMoreSync` | jkbempoffers/ios/Pods/leveldb-library/db/db_impl.cc:1276-1283 | a sync writer joins only the group of a sync writer |
| `WriterQueue.DoKeepsInv` | jkbempoffers/ios/Pods/leveldb-library/db/db_impl.cc:1185-1258 | every step of concurrent writers keeps the invariant, with the mutex released between grouping and logging |
| `WriterQueue.OneLeader` | jkbempoffers/ios/Pods/leveldb-library/db/db_impl.cc:1185-1258 | in every reachable state at most one writer makes room or logs, and it is the front of the queue |
| `WriterQueue.NoLostWakeup` | jkbempoffers/ios/Pods/leveldb-library/db/db_impl.cc:1242-1255 | in every reachable state a sleeping writer is neither done nor the front of the queue |
| `WriterQueue.DoneInOrder` | jkbempoffers/ios/Pods/leveldb-library/db/db_impl.cc:1242-1255 | writers are done in the order they arrived, each by exactly one event |
| `WriterQueue.RangesAscend` | jkbempoffers/ios/Pods/leveldb-library/db/db_impl.cc:1211-1213 | groups get disjoint, increasing ranges of sequence numbers |
| `WriterQueue.MemAscends` | jkbempoffers/ios/Pods/leveldb-library/db/db_impl.cc:1211-1236 | the memtable is numbered without repeats, in order, up to the last sequence number |
| `WriterQueue.OkMeansLogged` | jkbempoffers/ios/Pods/leveldb-library/db/db_impl.cc:1220-1240 | a write that returned OK is in a group that was logged and applied, and if it asked for sync the log was synced |
| `RoomRequests.TakenIff` | jkbempoffers/ios/Pods/leveldb-library/db/db_impl.cc:1260-1306 | when a leader with a batch has room, the writer at an index of the queue is taken into its group if and only if the index is below the length of the group |
| `RoomRequests.RequestMadeRoomIff` | jkbempoffers/ios/Pods/leveldb-library/db/db_impl.cc:1185-1306 | over every run: a request to make room (a null batch) that returned OK made room itself if and only if no leader with a batch, when it had room, found it at an index within its group |
| `WriterQueue.RequestAbsorbed` | jkbempoffers/ios/Pods/leveldb-library/db/db_impl.cc:1260-1306 | a run in which such a request is absorbed by the group of an earlier write |
| `DtlsBitmap.HmFragment.Mark` | jkbempoffers/ios/Pods/BoringSSL-GRPC/src/ssl/d1_both.cc:210-250 | exactly the bytes of the range become marked, and the message counts as complete if and only if every byte is marked |
| `DtlsBitmap.HmFragment.Fill` | jkbempoffers/ios/Pods/BoringSSL-GRPC/src/ssl/d1_both.cc:386-398 | the bytes of the fragment are in place and marked, all others as before |
| `DtlsBitmap.HmFragment.AssembledIsComplete` | jkbempoffers/ios/Pods/BoringSSL-GRPC/src/ssl/d1_both.cc:254-262 | the bitmap is dropped if and only if every byte of the message is there |
| `DtlsReceive.FragmentRoundTrip` | jkbempoffers/ios/Pods/BoringSSL-GRPC/src/ssl/d1_both.cc:454-468 | header and body of a fragment are read back, whatever follows |
| `DtlsReceive.Receiver.GetIncomingMessage` | jkbempoffers/ios/Pods/BoringSSL-GRPC/src/ssl/d1_both.cc:264-294 | the slot of the message, made on its first fragment; an error if type or length differ from the first fragment |
| `DtlsReceive.Receiver.OpenHandshake` | jkbempoffers/ios/Pods/BoringSSL-GRPC/src/ssl/d1_both.cc:296-405 | for any record, every fragment is absorbed as the specification says, or an alert is raised |
| `DtlsReceive.Receiver.GetMessage` | jkbempoffers/ios/Pods/BoringSSL-GRPC/src/ssl/d1_both.cc:407-423 | the message due next, with its header, exactly if it is complete |
| `DtlsReceive.Receiver.NextMessageDone` | jkbempoffers/ios/Pods/BoringSSL-GRPC/src/ssl/d1_both.cc:425-437 | frees the slot and counts on |
| `DtlsDelivery.AbsorbGenuine` | jkbempoffers/ios/Pods/BoringSSL-GRPC/src/ssl/d1_both.cc:351-405 | what a fragment of a sent message does: it is refused if and only if the message is too long, out of turn in the encrypted epoch, or exactly seven messages ahead; otherwise exactly its bytes are added, or none if it is old or further ahead |
| `DtlsDelivery.SevenAheadAlerts` | jkbempoffers/ios/Pods/BoringSSL-GRPC/src/ssl/d1_both.cc:374-385 | a fresh receiver raises an alert for a genuine fragment of the eighth message, and ignores one of the ninth |
| `DtlsDelivery.HandedOutIsSent` | jkbempoffers/ios/Pods/BoringSSL-GRPC/src/ssl/d1_both.cc:296-437 | over every run of genuine fragments, in any order and with any repetition, the messages handed out are the messages sent, from the first on and in order |
| `DtlsDelivery.NextIffHere` | jkbempoffers/ios/Pods/BoringSSL-GRPC/src/ssl/d1_both.cc:407-423 | the next message is handed out if and only if a fragment of it and all its bytes have arrived |
| `DtlsDelivery.FlightArrives` | jkbempoffers/ios/Pods/BoringSSL-GRPC/src/ssl/d1_both.cc:296-437 | a receiver that gets fragments covering a flight within the window (one message in the encrypted epoch), in any order and with any repetition, hands out exactly the flight |
| `DtlsDelivery.RecordsAreFragments` | jkbempoffers/ios/Pods/BoringSSL-GRPC/src/ssl/d1_both.cc:296-405 | opening records one after the other absorbs their fragments, however they are packed into records |
| `DtlsSend.Sender.SealNextPacket` | jkbempoffers/ios/Pods/BoringSSL-GRPC/src/ssl/d1_both.cc:725-766 | a packet within the MTU with the next records of the flight, and the place where the next packet goes on; as much as fits: if anything of the flight is left, there is no room for one more byte of it; no progress is reported exactly when nothing fits |
| `DtlsSend.Sender.SendFlight` | jkbempoffers/ios/Pods/BoringSSL-GRPC/src/ssl/d1_both.cc:768-811 | for every MTU: packets within the MTU whose fragments are genuine and cover the whole flight, or an error when the MTU leaves no room |
| `DtlsSend.FlightReassembled` | jkbempoffers/ios/Pods/BoringSSL-GRPC/src/ssl/d1_both.cc:296-811 | the fragments of a sent flight, delivered in any order and packed into records in any way, with repetitions and fragments of earlier transmissions, hand out exactly the messages of the flight |
| `PbScalars.ZigzagRoundTrip` | jkbempoffers/ios/Pods/nanopb/pb_encode.c:630-639 | shift and complement in 64 bits map every signed number to its zigzag number, and back |
| `PbScalars.Varint32Read` | jkbempoffers/ios/Pods/nanopb/pb_decode.c:187-247 | every 32-bit number written by the encoder is read back by the 32-bit reader, whatever follows |
| `PbVarint.Varint32Iff` | jkbempoffers/ios/Pods/nanopb/pb_decode.c:187-247 | of the numbers with 64 bits, read as 32: accepted if and only if there are 32 bits, or the sign bit of the low 32 and bit 63 are set and each group of seven bits from bit 35 on is all ones or all zeros; then the low 32 bits are read |
| `PbVarint.OverflowAccepted` | jkbempoffers/ios/Pods/nanopb/pb_decode.c:220-240 | a number that has more than 32 bits and extends no sign is read without an error |
| `PbScalars.ScalarRoundTrip` | jkbempoffers/ios/Pods/nanopb/pb_decode.c:1285-1445 | for every scalar type and width, every value the variable can hold is read back from its encoding |
| `PbEncode.OStream.WriteVarint` | jkbempoffers/ios/Pods/nanopb/pb_encode.c:608-628 | the loop that sets every top bit and clears the last writes the varint, if there is room |
| `PbEncode.OStream.WritePacked` | jkbempoffers/ios/Pods/nanopb/pb_encode.c:163-205 | tag, length and items of a packed array; the size computed first is the size written |
| `PbEncode.OStream.EncodeSubmessage` | jkbempoffers/ios/Pods/nanopb/pb_encode.c:717-765 | the size found first is the size written, so the message never fails with a changed size; it succeeds if and only if it can be encoded and fits |
| `PbEncode.OStream.Encode` | jkbempoffers/ios/Pods/nanopb/pb_encode.c:528-550 | for every message and stream: success if and only if every array and byte string is within its bound and there is room; then exactly the bytes of the message are written, and in a sizing stream only counted |
| `PbEncode.GetEncodedSize` | jkbempoffers/ios/Pods/nanopb/pb_encode.c:567-576 | the sizing pass gives the exact length of the bytes, at any nesting depth |
| `PbEncode.EmptyIff` | jkbempoffers/ios/Pods/nanopb/pb_encode.c:240-337 | a message has no bytes if and only if none of its fields is there, at any nesting depth, those whose presence is judged by the value being zero |
| `PbEncode.DocumentedBytes` | jkbempoffers/ios/Pods/nanopb/pb_encode.c:630-715 | the examples of the documentation of the wire format, a number and a text, have the documented bytes |
| `PbStream.IStream.ReadVarint32` | jkbempoffers/ios/Pods/nanopb/pb_decode.c:187-247 | the loop reads what the specification reads, for any bytes |
| `PbStream.IStream.ReadVarint64` | jkbempoffers/ios/Pods/nanopb/pb_decode.c:255-275 | the loop reads at most ten bytes, keeps 64 bits, and fails exactly when no end is found |
| `PbStream.IStream.MakeSubstream` | jkbempoffers/ios/Pods/nanopb/pb_decode.c:372-385 | the substream is the string, and the stream counts the rest; it fails exactly if the string is not all there |
| `PbStream.IStream.ReadPacked` | jkbempoffers/ios/Pods/nanopb/pb_decode.c:425-453 | the items read one by one, failing if the array would be overrun |
| `PbStream.IStream.ReadField` | jkbempoffers/ios/Pods/nanopb/pb_decode.c:406-483 | the new variables of the field and what is left of the stream, for every repetition rule |
| `PbStream.IStream.Decode` | jkbempoffers/ios/Pods/nanopb/pb_decode.c:934-1082 | for any bytes, the message or the failure that the specification gives, with unknown fields skipped and required fields tracked |
| `PbStream.FieldIter.FindTag` | jkbempoffers/ios/Pods/nanopb/pb_common.c:87-104 | wherever the iterator stands, it finds the one field with the tag or comes back to its place, with the count of required fields passed |
| `PbRoundTrip.ValueRoundTrip` | jkbempoffers/ios/Pods/nanopb/pb_decode.c:1447-1570 | a value of any type is read back if its strings fit, and its bytes are refused otherwise |
| `PbRoundTrip.FieldRoundTrip` | jkbempoffers/ios/Pods/nanopb/pb_decode.c:406-483 | the variables of a field, packed, repeated, optional or in a oneof, are read back whatever follows in the stream |
| `PbRoundTrip.MessageRoundTrip` | jkbempoffers/ios/Pods/nanopb/pb_decode.c:934-1096 | decoding an encoded message gives the message with absent fields at their defaults, if and only if every string has room for its terminating zero |
| `PbRoundTrip.RoundTrip` | jkbempoffers/ios/Pods/nanopb/pb_decode.c:934-1096 | the same as a reader of the message sees it: equal presence and equal values of present fields, at every depth |
| `PbRoundTrip.ZeroAgrees` | jkbempoffers/ios/Pods/nanopb/pb_encode.c:240-337 | a value left out because it is zero agrees with what a fresh message holds |
| `PbRoundTrip.FullStringUnreadable` | jkbempoffers/ios/Pods/nanopb/pb_encode.c:873-897 | a string that fills its variable is written, and what is written is refused by the decoder |
| `PbSafety.DecodeMessageSound` | jkbempoffers/ios/Pods/nanopb/pb_decode.c:934-1096 | for every input, a decoded message stays within its variables: arrays and byte strings within bounds, strings terminated, at most one member of a oneof |
| `PbSafety.DecodedReencodes` | jkbempoffers/ios/Pods/nanopb/pb_decode.c:934-1096 | whatever was decoded can be encoded again, and decoding that gives a message that agrees with it |
| `PbEvolution.UnknownSkipped` | jkbempoffers/ios/Pods/nanopb/pb_decode.c:278-332 | a well-formed field of any wire type whose tag the descriptor does not have changes nothing, whatever follows |
| `PbEvolution.UnknownRefused` | jkbempoffers/ios/Pods/nanopb/pb_decode.c:278-332 | one of an undefined wire type, or one that is cut off, is an error |
| `PbEvolution.FieldSkipped` | jkbempoffers/ios/Pods/nanopb/pb_decode.c:934-1037 | whatever the encoder writes for a field that the descriptor does not have is skipped |
| `PbEvolution.OtherDescriptor` | jkbempoffers/ios/Pods/nanopb/pb_decode.c:934-1096 | a message written with one descriptor and read with another that agrees on the tags they share: reading succeeds if and only if the shared strings fit and every tracked required field was written; then shared fields have the values written and all others their defaults |
| `PbEvolution.ValueReplaces` | jkbempoffers/ios/Pods/nanopb/pb_decode.c:406-483 | a value given again replaces the one before, and unsets the other members of its oneof |
| `PbEvolution.MessageMerges` | jkbempoffers/ios/Pods/nanopb/pb_decode.c:406-483 | a nested message given again is read into what is there; another member of the oneof starts from its defaults |
| `PbEvolution.UnpackedItem` | jkbempoffers/ios/Pods/nanopb/pb_decode.c:455-466 | a scalar array that is not packed is read item by item, and one too many is an error |
| `PbEvolution.PackedMore` | jkbempoffers/ios/Pods/nanopb/pb_decode.c:425-453 | a packed array is appended to what is there, and too many items are an error |

## Left out

- User keys in the modules on versions, compactions, iterators over entries and the skip list are real numbers, in which any countable order embeds; tables and the memtable use byte strings and the bytewise order. Checksums in logs are any function of the bytes, hashes in filters and caches any numbers.
- Corrupt internal keys, and the paranoid and status paths of iterators and `Version::Get` that report them.
- Compaction scores, seek charges and the pointer that picks the next file: which level and file is compacted is nondeterministic, and so is where compaction outputs are cut (`ShouldStopBefore`, file size).
- Allocation of file numbers, deletion of obsolete files, the table cache, `GetProperty`, approximate sizes, `repair.cc`, `dumpfile.cc`, `c.cc`.
- I/O errors: appends, syncs and reads succeed, except in the writer queue, where each outcome of logging and syncing is a step, and in the log writer, where any flush may fail.
- Log readers with a starting offset other than zero, and `reuse_logs`.
- Waiting and slowdown in `MakeRoomForWrite`: whether room is made is the outcome of a step.
- Tables: blocks in `Table` are lists of entries whose encoded size is any number; their bytes are in `BlockFormat` and `BlockIterator`. Block handles, the footer, the metaindex, the block cache and snappy are not part of this model, nor are corrupt blocks and blocks of 4 GiB or more.
- Tables.InternalGet: the searches in the index and in the block are scans with the contract that `BlockIterator.BlockIter.Seek` proves of binary search.
- MemTables.MemTable.Get: the search in the skip list is a scan with the contract that `SkipLists.SkipList.FindGreaterOrEqual` proves.
- The LRU lists and hash chains are sequences, not linked nodes; skip list nodes are numbers in an arena; both keep every link or list operation as a step but no pointers.
- The skip list's memory ordering: link steps and reads are sequentially consistent, and concurrent readers use `FindGreaterOrEqual` only. The height of a new node is any height.
- The sharding of the cache, and its destructor.
- Crc32c: the tables are defined by the polynomial; the accelerated path is not modelled; the code's mask is in `LogFormat`.
- DTLS: encryption and record sealing are an envelope of fixed overhead; ChangeCipherSpec and application data are opaque records; timers, retransmission schedules, BIO failures and epochs beyond the encrypted handshake's one message are left out.
- nanopb: callbacks, extensions, pointer and malloc'd fields, fixed-count arrays without a count variable, `PB_WITHOUT_64BIT`, null-terminated and delimited top-level messages, custom stream callbacks and their errors.
- nanopb: the words of seen required fields are a set of indexes; a zero field number in a message type without fields; the eight-bit wrap of the 32-bit varint reader's bit position after 36 bytes; a variable of a message is a value, not memory at an offset.
- PbStream.IStream.Decode: the field iterator's search is the function that `PbStream.FieldIter.FindTag` computes.
- LogFailures.UndisturbedIff: a failed flush that keeps part of a fragment is written (`LogWriter.Writer.TryAddRecord`) but what the reader then makes of the torn fragment depends on the checksum, which is any function here.
- Durability.RecoverAfterCrash: one log since the start; the switch to a new log with a new memtable, and the tables and MANIFEST that make an old log obsolete, are not composed with it.
- CacheRuns.Run: a client keeps a handle or releases it at once; later releases are covered by the contract of each operation.
- LogRecovery.RecoverLogFile: flushing full memtables during recovery is left out, so one memtable takes all insertions.
- The applications' own Swift, Kotlin and Dart code.
