# SaarDB: a verified model of the storage engine and its SQL layer

SaarDB is a small SQL database on a multi-version log-structured store. This project models that store and
the layer above it in Dafny and proves what the code promises, for every input and every run.

**Versions and reads.** A version is a key, a value and the id of the transaction that wrote it. A reader has an
id and the set of ids that were active when it began; one visibility test decides what it may see. `Mvcc` says
what a read must return (the newest visible version over *all* versions); `Memtables`, `SsTables`, `Layers` and
`Select` show that the early-stopping, block-indexed, prefix-skipping code returns exactly that.

**Files.** `SsTableFormat`, `SsTableFiles`, `SsTableScans` and `SsTables` work on real bytes: data blocks, index block,
footer, binary search, scans, the compaction merge and the swap of the parallel lists.

**Log and codecs.** `Wals` has the framed log with its CRC-32 (the CRC of section 8 of RFC 1952), cut at any byte;
`TransactionCodec`, `Catalog` and `Rows` are the payload, schema, index-catalogue and row formats.

**The machine.** `Engine` is a state machine with the steps Begin, Put, Rollback, Log, Apply, Finish, FlushWrite,
FlushClear, CompactStart, CompactFinish and Restart. Commit and flush are cut wherever a crash would leave a
different durable state; compaction is cut between taking the file list and the swap. `EngineInvariant` proves what
every step keeps, `Snapshots` that the machine refines a database with no layers, no log and no versions, and
`Isolation` and `Durability` the theorems over whole runs. `Databases` holds the classes `Transaction` and `Database`, whose methods are
proved to be runs of that machine.

**SQL.** `TableKeys` and `Tables` are rows and index entries in the key space, `Planner` and `Select` the SELECT plans,
`Inserting` the INSERT and `SqlRuns` what runs of such statements leave in every snapshot; `CatalogueRuns` the table
catalogue along runs and what a restart loads from it; `DeclaredTables` what an insert stores into a table as declared; `Tokenisers`, `Parsers` and `Grammar` the SQL front end and exactly which texts it accepts.

## What the code relies on and does not check

These conditions are guards of steps or preconditions, and each has a lemma that shows what happens without it, or
the exact condition under which the code is right.

- *Ordered writers*: a transaction commits a key only while no stored version of it is newer. The lock test does not
  ensure this (`Counterexamples.UnorderedWritersMisread`); a check at Put would (`Isolation.PutGuardSuffices`).
- *Safe horizon*: the value passed to a compaction, the smallest active id, can lose a live reader's version
  (`Counterexamples.MinActiveHorizonLosesReads`). docs/mvcc_compaction_intuition.md:91-93 argues that every version below the
  smallest live id is visible to all live transactions; that is false of the code, because a snapshot keeps ids that
  have since finished. The bound of docs/journal/part_mvcc.md:319 is right (`Isolation.LocalMinimaAreSafe`), and
  `Compaction.HorizonExact` says exactly which horizons are safe for a reader.
- *Restart ids*: ids restart from the log alone (`Counterexamples.RestartHidesFlushedWrites`, `Isolation.RestartIdsExact`).
  What is on disk is complete all the same (`Durability.DiskReadsAsLogged`).
- *A log cut inside a record*: behind a length or a payload such a cut opens without an error, and then every record
  written since is lost (`Wals.LaterCommitsExactly`); only a cut on a record border is harmless
  (`Wals.RecoveredOnlyBehindBorder`).
- *Non-empty values* where Get is concerned (`Layers.EmptyValuesExact` is the exact condition) and non-empty keys (the open-block sentinel
  of sstable/sstable.go:164).
- *Versions of one key in one block*, for point reads through the block index (`SsTableFiles.StraddledKeyIsMissed`;
  `SsTables.LookupsExact` is the exact condition, and `SsTables.StraddlingExactly` reads it off the file).
- *SELECT through an index* treats every condition on a covered column as an equality and, when the index is fully
  covered, drops all other conditions (`Planner.PlanSafeExactly` is the exact condition for one condition per column). With
  two on one covered column it finds nothing (`Planner.RepeatedColumnFindsNothing`, `Planner.LongScanFindsNothing`) or, on a
  partly covered index, differs from the filter on some row (`Planner.RepeatedColumnDisagrees`).
- *INSERT text* with a character that starts no token makes the parser loop for ever (`Grammar.InsertDivergesExactly`).

## Model

| member | source | states |
|---|---|---|
| `Mvcc.LastVisiblePicks` | memtable/memtable.go:45-50 | the last visible version met on a sorted run is the newest visible version of the key, or there is none |
| `Mvcc.SortedUnique` | sstable/utils.go:15-23 | a strictly sorted run is determined by its set of versions, so map and file order cannot show |
| `Bytes.LessExactly` | sstable/sstable.go:482-496 | one key is below another exactly if it is a proper prefix of it or has the smaller byte where they first differ |
| `Bytes.BigEndian32` | sstable/sstable.go:170-174 | the four bytes of a number, weighted from the first to the last, give the number back |
| `Bytes.BigEndian64` | sstable/sstable.go:170 | the eight bytes of an id are those of its upper half and then those of its lower half |
| `Bytes.PastPrefix` | sstable/sstable.go:433-438 | the early exit of a prefix scan is sound: after a key whose head is above the prefix no later key carries it |
| `Bytes.BeforePrefix` | sstable/sstable.go:356-385 | a key that neither carries the prefix nor lies past it is below every key that carries it |
| `Memtables.Memtable.Get` | memtable/memtable.go:37-55 | starting in mid-tree and stopping at the first other key still yields the newest visible version, or nothing if there is none |
| `Memtables.Memtable.Put` | memtable/memtable.go:65-78 | the version takes its (key, id) slot, sorted order is kept, and the size account stays the exact sum of keys and values |
| `Memtables.Memtable.PrefixScan` | memtable/memtable.go:82-98 | exactly the keys with the prefix that have a visible version, each with its newest one |
| `Memtables.Memtable.ShouldFlush` | memtable/memtable.go:100-102 | true exactly from the size limit on |
| `Memtables.UpsertElems` | memtable/memtable.go:65-78 | replacing or inserting changes one slot of the set of versions and nothing else |
| `Memtables.SizeJoin` | memtable/memtable.go:65-78 | the size account counts every key and every value once |
| `Compaction.CompactionPreservesReadsExactly` | sstable/compaction.go:41-91 | a reader picks the same versions before and after exactly if no kept newer version, invisible to it, displaces one it must read |
| `Compaction.HorizonExact` | sstable/compaction.go:72-81 | a horizon is safe for a reader on every content, of ids from one on, exactly if no id visible to it lies below an invisible id up to the horizon |
| `Compaction.SafeHorizon` | docs/journal/part_mvcc.md:315-319 | a horizon below which the reader sees everything costs it nothing |
| `Compaction.CompactionKeeps` | sstable/compaction.go:72-90 | nothing is invented and every version above the horizon survives |
| `Compaction.CompactTwice` | sstable/compaction.go:41-91 | compacting at m1 and then at m2 >= m1 keeps what compacting once at m2 keeps |
| `Compaction.CompactionComposes` | sstable/compaction.go:41-91 | and the sorted outputs are identical, entry for entry |
| `Layers.EarlyReadCorrect` | db/db.go:147-155 | newest layer first with early stop returns the newest visible version over all layers, if the layers are ordered for the key |
| `Layers.EarlyStopExact` | sstable/sstable.go:335-351 | it does so for every reader exactly if the layers are ordered for the key |
| `Layers.StoreGetCorrect` | db/db.go:147-155 | the same for the values the code returns, with an empty string for "not found" |
| `Layers.EmptyValuesExact` | sstable/sstable.go:335-351 | on ordered files, skipping empty answers is harmless to every reader exactly if no file holds an empty version of the key above an older file, without that version, that holds an older non-empty one |
| `Layers.EmptyValueResurrects` | sstable/sstable.go:346-348 | an instance of that: a visible empty value in a newer file is skipped and an older value answers |
| `Layers.StoreGetOnce` | db/db.go:147-155 | for a key with at most one version, in any layers, the lookup returns its value, whatever that is |
| `SsTableFormat.EntriesEncoded` | sstable/sstable.go:387-397 | a byte run of encoded entries scans back to exactly those entries, to its end |
| `SsTableFormat.EntriesAreEncoded` | sstable/sstable.go:407-422 | on any bytes, what a scan reads before it stops is the encoding of what it read |
| `SsTableFormat.EntryLayout` | sstable/sstable.go:167-177 | where each entry lies in the file, and in it its id, key length, key, value length and value |
| `SsTableFormat.IndexLayout` | sstable/sstable.go:213-225 | where each index entry lies behind the data, and in it its key length, key and offset |
| `SsTableFormat.FooterLayout` | sstable/sstable.go:140-145 | the last four bytes say where the index starts |
| `SsTableFormat.BlockSizes` | sstable/sstable.go:178-199 | between two index offsets lie more bytes than the limit, and without the last entry of the block there would not, unless it is the only one |
| `SsTableFiles.WriteDataBlocks` | sstable/sstable.go:152-211 | the data is the entries back to back, and the index has one entry per block: its first key at its byte offset, blocks cut as soon as they exceed the limit |
| `SsTableFiles.WriteIndexBlock` | sstable/sstable.go:213-229 | the index block is the encoding of the index |
| `SsTableFiles.WriteToFile` | sstable/sstable.go:124-150 | the file is data, index and footer; offset and index returned are those in the file |
| `SsTableFiles.BuildIndexFromFile` | sstable/sstable.go:267-327 | on any bytes, the index and offset that footer and index block encode, or an error |
| `SsTableFormat.IndexReadExactly` | sstable/sstable.go:280-327 | an index block is read, as these entries, exactly if it is their encoding |
| `SsTableFiles.FileRoundTrip` | sstable/sstable.go:124-327 | for every entry list and block length, footer, index and entries of the written file read back as written |
| `SsTableFiles.IndexPointsAtEntries` | sstable/sstable.go:165-190 | every index offset is the first byte of an entry whose key is the index key |
| `SsTableFiles.LowerBound` | sstable/sstable.go:482-496 | the last index entry whose key is at most the search key, or -1 if there is none |
| `SsTableFiles.GetFromBlock` | sstable/sstable.go:443-480 | on any bytes, the last visible version up to the first larger key, or an error |
| `SsTableFiles.StopIsHarmless` | sstable/sstable.go:459-475 | stopping at the first larger key loses nothing on a sorted run |
| `SsTableFiles.ChosenBlockHasKey` | sstable/sstable.go:482-496 | the scan from the chosen block meets the key if the file has it, and misses earlier versions only if the block begins with the key |
| `SsTableFiles.IndexedLookupExact` | sstable/sstable.go:443-496 | scanning from an entry on answers every reader like a full scan exactly if no version of the key lies before it only |
| `SsTableFiles.StrictLookupExact` | sstable/sstable.go:443-496 | where each version has its own slot: exactly if no version of the key lies before it |
| `SsTableFiles.StraddledKeyIsMissed` | sstable/sstable.go:482-496 | a key whose versions straddle a block border is reported missing to the reader of the earlier one |
| `SsTables.LookupsExact` | sstable/sstable.go:443-496 | the lookups of a key in a file are exact for every reader exactly if the scan from the chosen block reaches all its versions |
| `SsTables.UnstraddledIsReached` | sstable/sstable.go:482-496 | they do if its versions straddle no border between two blocks |
| `SsTables.StraddlingExactly` | sstable/sstable.go:482-496 | where each version has its own slot, exactly if no border between two blocks runs through its versions |
| `SsTables.OnceIsReached` | sstable/sstable.go:482-496 | and if it has at most one version in the file |
| `SsTableScans.ScanBlocks` | sstable/sstable.go:399-441 | on any bytes, every entry up to the early exit absorbed into the map, or an error |
| `SsTableScans.AbsorbKey` | sstable/sstable.go:424-432 | in whatever order entries and files come, the map ends with the newest visible version of the key |
| `SsTableScans.AbsorbKeeps` | sstable/sstable.go:424-432 | and what it holds for a key stays unless a newer version replaces it |
| `SsTableScans.WindowElems` | sstable/sstable.go:356-385 | starting late and stopping early misses no version of a key with the prefix |
| `SsTableScans.MergeFile` | sstable/compaction.go:45-83 | one file merged: versions above the horizon appended, the newest of the rest kept per key; an error exactly if the bytes are not whole entries |
| `SsTableScans.FileEntriesExactly` | sstable/compaction.go:45-83 | a file merges, as these entries, exactly if the bytes up to the offset in its last four are the entries back to back |
| `SsTableScans.MergedIsCompact` | sstable/compaction.go:41-91 | the merge of all inputs is exactly the set of versions compaction keeps |
| `SsTableScans.SortEntriesIsSorted` | sstable/utils.go:15-23 | the output is a sorted permutation |
| `SsTables.SsTable.Write` | sstable/sstable.go:99-122 | a flush appends one file to files, indexes, offsets and manifest names, and keeps a running compaction's inputs the oldest |
| `SsTables.SsTable.Get` | sstable/sstable.go:329-352 | newest file first with an indexed lookup each; equals the layered read of whole files if each lookup is exact |
| `SsTables.SsTable.PrefixScan` | sstable/sstable.go:356-385 | over files in any id order, precisely the keys with the prefix that have a visible version, each with its newest one; the prefix itself as a key is excepted |
| `SsTables.SsTable.ScanFile` | sstable/sstable.go:358-383 | one file of that scan, with the skip-file test and the late start |
| `SsTables.SsTable.Reopen` | sstable/sstable.go:48-80 | a table reopened from the files of its manifest has the very lists it was written with |
| `SsTables.BuildIndexes` | sstable/sstable.go:253-265 | every index and offset comes back as the writer returned it |
| `SsTables.BuildCompactedEntries` | sstable/compaction.go:41-91 | an error exactly if an input cannot be read; otherwise the kept versions, none written more often than it was read |
| `SsTables.SsTable.FinishCompaction` | sstable/compaction.go:105-157 | after any number of flushes, one file with exactly what compaction keeps, followed by exactly the newer files |
| `SsTables.SsTable.AtomicSwap` | sstable/compaction.go:159-192 | files, index blocks, offsets and manifest names stay aligned position by position |
| `TransactionCodec.PayloadRoundTrip` | db/transaction.go:120-163 | every write list in any order decodes to the same id and list |
| `TransactionCodec.PayloadLayout` | db/transaction.go:120-132 | where the command word, the id, the number of writes and the parts of each write lie in a payload of any size |
| `TransactionCodec.DecodedPayloadIsEncoded` | db/transaction.go:134-163 | every accepted byte string is the encoding of what it decodes to |
| `TransactionCodec.StringReadExactly` | db/db.go:237-248 | a text is read exactly if it stands there behind its length and what is left, counted in 32 bits, is no shorter |
| `TransactionCodec.PrefixFree` | db/transaction.go:120-132 | no payload is a proper prefix of another |
| `TransactionCodec.TruncatedOrTrailingRejected` | db/db.go:219-248 | a payload cut anywhere or followed by anything is rejected |
| `TransactionCodec.SerialiseTransactionCommitPayload` | db/transaction.go:120-132 | in whatever order the map is walked, the payload of one listing of exactly that map |
| `TransactionCodec.DeserialiseTransactionCommand` | db/transaction.go:134-163 | the advancing-offset reader accepts exactly the encodings and returns what they encode |
| `Wals.Wal.WriteEntry` | wal/wal.go:21-36 | the record goes to the end of the file: length, payload, checksum |
| `Wals.Wal.ReadEntry` | wal/wal.go:43-92 | the next record, a clean end or an error; an end of file right after a length or a payload counts as clean |
| `Wals.RecordReadExactly` | wal/wal.go:43-92 | on any bytes: a record is read exactly if it stands there whole, with its length and its checksum, and is not above the limit |
| `Wals.LogLayout` | wal/wal.go:21-36 | where each record lies in the log, and in it length, payload and checksum |
| `Wals.CrcCheckValue` | wal/wal.go:23 | the checksum is CRC-32: its check value on the digits 1 to 9 |
| `Wals.TruncatedLogReads` | wal/wal.go:43-92 | for every byte-level truncation, exactly the records wholly inside the cut, then a clean end or an error |
| `Wals.CrashAtomicity` | db/db.go:273-307 | recovery of a cut log succeeds exactly at a clean end, and then holds all or none of each transaction's writes, for a prefix of the commits |
| `Wals.UncutLogRecoversExactly` | wal/wal.go:59-62 | an uncut log recovers exactly if no payload exceeds the limit that only the reader checks |
| `Wals.CutLogRecoversExactly` | db/db.go:273-307 | a log of any records, cut at any byte, recovers exactly at a clean cut that touches no record above the limit, and then to the records wholly inside the cut |
| `Wals.CommitsAfterBorder` | wal/wal.go:21-36 | records written after opening a log cut on a record border are recovered with those before the cut |
| `Wals.CommitsAfterLengthAreLost` | wal/wal.go:43-92 | records written after opening a log cut behind a length are lost: the next opening fails, or drops them all if together they are just as long as the missing payload |
| `Wals.CommitsAfterPayloadAreLost` | wal/wal.go:43-92 | after a cut behind a payload the next opening fails, whether or not the length of the next record is the missing checksum |
| `Wals.LaterCommitsExactly` | db/db.go:273-307 | for every cut that opens and all records written since, what the next opening recovers |
| `Wals.RecoveredOnlyBehindBorder` | db/db.go:273-307 | records written since, under higher ids, are recovered exactly if the cut fell on a record border and no record is above the limit of the reader |
| `Wals.BuildMemtableFromWal` | db/db.go:273-307 | the replay loop yields the memtable and largest id of the recovered records, and fails exactly when recovery does |
| `EngineInvariant.InvPreserved` | db/transaction.go:171-195 | every allowed step keeps ids, snapshots, layer order, log and memtable agreement, file names, the running compaction's safety and the lock protocol |
| `EngineInvariant.LogKeeps` | db/transaction.go:166-169 | appending the commit record keeps the layers ordered |
| `EngineInvariant.ApplyKeeps` | db/transaction.go:176-179 | applying it adds exactly the transaction's versions |
| `EngineInvariant.FlushWriteKeeps` | db/db.go:157-164 | writing the file and clearing the memtable changes no stored version |
| `EngineInvariant.CompactFinishKeeps` | sstable/compaction.go:159-192 | the swap keeps the invariant however many flushes came in between |
| `EngineInvariant.RestartKeeps` | db/db.go:53-84 | a restart brings back exactly what files and log hold |
| `EngineInvariant.SwapOrder` | sstable/compaction.go:171-184 | layer order survives the swap |
| `Snapshots.SimPreserved` | db/db.go:309-328 | whatever allowed step the engine takes, a database of plain maps takes the same step |
| `Snapshots.RunRefines` | db/db.go:309-328 | and so over every run |
| `Snapshots.GetRefines` | db/transaction.go:68-75 | the layered lookup returns what the plain database returns |
| `Snapshots.CompactAgree` | sstable/compaction.go:93-157 | a finished compaction changes neither any reader's view nor what a restart would bring back |
| `Isolation.SnapshotIsolation` | db/transaction.go:68-75 | after any allowed run a live transaction reads its own writes over the state committed at its Begin |
| `Isolation.RepeatableRead` | db/transaction.go:68-75 | a live transaction that does not write the key gets the same answer at any two points of its life |
| `Isolation.CommitIsRead` | db/transaction.go:171-195 | at any point of any run: who begins after a commit reads what was committed, and every other key as without the commit |
| `Isolation.PutThenGet` | db/transaction.go:53-75 | a write is read back by its transaction unless the key is locked; no other key changes for it |
| `Isolation.VisibleIsFinishedBeforeBegin` | memtable/memtable.go:45-50 | another transaction's stored version is visible exactly if it was stored when the reader began and its writer was not active then |
| `Isolation.CommitsSurviveCrash` | db/db.go:53-84 | what a new transaction sees after recovery at any cut where the largest id of the log reaches every id in the files: exactly the transactions whose record was logged, whole and in log order |
| `Durability.DiskReadsAsLogged` | db/transaction.go:171-195 | at every point of every run, also right after a log was cleared, files and log together read as exactly the transactions whose record was logged |
| `Durability.DiskIsLogged` | db/db.go:157-164 | at every intermediate point of commit and flush, before a compaction has finished, the versions in files and log are exactly those whose record was logged |
| `Durability.MissingIsSuperseded` | sstable/compaction.go:72-90 | with compactions, a logged version that is gone has a newer version of its key in files or log |
| `Durability.AllOrNothing` | db/db.go:309-328 | if a transaction sees one write of another, every version that one ever logged is stored, was at its Begin, and is visible; one that is not stored was removed by a compaction that left a newer version of its key |
| `Isolation.ReplayRebuildsMemtable` | db/db.go:273-307 | outside a commit or flush in progress the replayed memtable equals the live one in entries and size |
| `Isolation.RestartIdsExact` | db/db.go:72-74 | the first reader after a restart sees everything exactly if no file holds an id beyond the log's largest plus one |
| `EngineLemmas.MaxIdIs` | db/db.go:273-307 | the id a restart counts from is the largest of the log, or 0 |
| `EngineLemmas.FirstOpening` | db/db.go:53-84 | opening an empty directory leads to the state in which the runs start |
| `Isolation.LockProtocol` | db/transaction.go:29-115 | over every run, guarded or not: writers are live and hold the key once, live write sets are disjoint, ending leaves no lock, the logged inconsistency never happens |
| `EngineLemmas.WithoutExactly` | db/transaction.go:83-101 | dropping a reader drops all of its entries and keeps the others in order |
| `Isolation.PutGuardSuffices` | db/transaction.go:29-66 | if every Put finds no newer stored version of its key, every commit is ordered |
| `Isolation.LocalMinimaAreSafe` | docs/journal/part_mvcc.md:315-319 | a horizon below every id of every live snapshot is safe for all live and future readers |
| `Counterexamples.MinActiveHorizonLosesReads` | db/db.go:192-203 | the horizon the code passes, the smallest active id, takes a live reader's version away |
| `Counterexamples.UnorderedWritersMisread` | db/transaction.go:29-50 | an older transaction may commit a key over a newer flushed version, and Get then returns the older value |
| `Counterexamples.RestartHidesFlushedWrites` | db/db.go:72-74 | after a flush and a restart the next reader cannot see what was committed |
| `Databases.Transaction.TryAcquireWriteLock` | db/transaction.go:29-51 | refused exactly if another transaction writes the key; a lock already held is not listed twice |
| `Databases.Transaction.Put` | db/transaction.go:53-66 | one Put step of the machine, refused exactly on a lock conflict |
| `Databases.Transaction.Get` | db/transaction.go:68-75 | own writes first, else the memtable over what the indexed lookups reach of each file; equal to the read of the machine if each lookup is exact |
| `Databases.Database.FilesExactExactly` | sstable/sstable.go:329-352 | point reads of a key are exact for every reader exactly if each file's lookup reaches all its versions |
| `Databases.Transaction.ReleaseAllLocks` | db/transaction.go:77-103 | releases exactly the listed locks, and reports the inconsistency exactly when there is one |
| `Databases.Transaction.Rollback` | db/transaction.go:109-115 | one Rollback step; the inconsistency branch is not taken |
| `Databases.Transaction.WriteSingleWalEntryForCommit` | db/transaction.go:165-169 | one log record holds the whole write buffer, and nothing else changes |
| `Databases.Transaction.Commit` | db/transaction.go:171-195 | the run that logs the buffer, applies it, flushes exactly if the memtable has then reached its limit, and finishes; exactly if that flush makes a compaction due, the smallest active id is returned as its horizon |
| `Databases.Database.Begin` | db/db.go:309-328 | one Begin step: a fresh id, and a snapshot of the active ids with its own |
| `Databases.Database.FlushToFile` | db/db.go:181-206 | one FlushWrite step; it reports a compaction as due exactly if the machine could start one then |
| `Databases.Database.Flush` | db/db.go:157-164 | the two flush steps in a row |
| `Databases.Database.MinActive` | db/db.go:194-201 | the smallest active id, or the largest 64-bit number if none is active |
| `Databases.HorizonIs` | db/db.go:194-201 | for ids below the largest 64-bit number that is the smallest active id, or that number if none is active |
| `Databases.Database.FinishCompaction` | sstable/compaction.go:93-157 | one CompactFinish step of the machine |
| `Databases.NewDB` | db/db.go:53-84 | opening on a log cut at any byte: succeeds exactly at a clean cut with no record too large, recovers the records inside the cut, and is one Restart step if the cut is on a record border |
| `Rows.IntSurvivesExactly` | db/db.go:356-361 | an INT text survives storage exactly if it is the plain decimal of a number below 2^32 |
| `Rows.AtoiExactly` | db/db.go:357 | a text is a number exactly if it is an optional sign and digits whose value fits 64 bits |
| `Rows.DigitsAre` | db/db.go:357 | a digit is one of the bytes 48 to 57 |
| `Rows.LeadingZeros` | db/db.go:357 | zeros in front change nothing: "007" is 7 |
| `Rows.DigitsJoin` | db/db.go:357 | digits count in tens from the right |
| `Rows.ValueIsRead` | db/select.go:214-243 | on any bytes: an INT is read as the decimal digits of its four bytes, a STRING as the text behind its length, a BOOL as the binary digits of its byte |
| `Rows.RowSurvivesExactly` | db/select.go:214-243 | over whatever column list, an inserted row reads back as inserted exactly if every text is canonical |
| `Rows.SerialiseRow` | db/db.go:346-379 | the loop writes the row's encoding, or fails on the first text its column type refuses |
| `Rows.DeserialiseRow` | db/select.go:214-243 | the loop returns the row the bytes encode, or fails |
| `Catalog.SchemaSurvivesExactly` | db/create.go:146-196 | a schema reads back as written exactly if its key position and name lengths fit four bytes |
| `Catalog.DecodedSchemaEncodes` | db/create.go:159-196 | every accepted schema text is the encoding of what it decodes to |
| `Catalog.SchemaLayout` | db/create.go:143-157 | where the key position and the kind, name length and name of each column lie in a stored schema |
| `Catalog.UnknownColumnsAreRefusedExactly` | db/create.go:74-83 | the index catalogue is refused exactly if an index names a column that is not there |
| `Catalog.CatalogueRoundTrip` | db/create.go:59-144 | index and column names come back as written, even with repeated column names, whatever follows |
| `Catalog.CatalogueLayout` | db/create.go:53-91 | where each index lies in the stored index catalogue |
| `Catalog.IndexLayout` | db/create.go:63-88 | and in it its name, its number of columns and, for each, the last position of that name |
| `Catalog.DecodedCatalogueEncodes` | db/create.go:93-144 | with distinct column names the bytes that were read are the encoding of what was read |
| `Catalog.SerialiseSchema` | db/create.go:146-157 | the loop writes the schema's encoding |
| `Catalog.DeserialiseSchema` | db/create.go:159-196 | the moving-index reader accepts and returns exactly what the format says |
| `Catalog.SerialiseIndexes` | db/create.go:59-88 | the nested loops write the catalogue's encoding, or fail on an unknown column |
| `Bytes.FindLast` | db/create.go:74-80 | the loop keeps the last element with the property, or -1; PRIMARY KEY uses the same loop (sql_parser/parser.go:163-168) |
| `Catalog.DeserialiseIndexes` | db/create.go:93-144 | the nested loops return exactly the announced indexes, or fail |
| `TableKeys.SplitJoin` | db/select.go:284-294 | splitting a key at colons gives back its parts |
| `TableKeys.JoinInjective` | db/db.go:412-430 | a key is determined by its colon-free parts |
| `TableKeys.KeysSpelled` | db/db.go:19-25 | the reserved words of the key space, byte for byte |
| `TableKeys.PrefixFindsExactly` | db/db.go:412-430 | a prefix scan finds exactly the keys with these leading parts and at least one more |
| `TableKeys.LastPartOfIndexKey` | db/select.go:286-292 | the last part of an index key is the primary key |
| `Tables.IndexKeyMeets` | db/db.go:417-430 | an index scan meets exactly the entries of its own index whose values start with the scanned ones |
| `Tables.InsertByKind` | db/db.go:346-379 | an insert is refused exactly if the number of texts is wrong, a column of kind 0 gets what is no integer or one of kind 2 what is neither 0 nor 1; else it stores, under table, colon and key text, four bytes, length and text, or one byte for each column by its kind |
| `Tables.DroppedExactly` | db/db.go:390-469 | an insert that is not refused is dropped without an error exactly if for some index no entry can be made: it has no columns, the row has more or fewer values under them, or the key text is empty; otherwise behind the row comes one empty entry per index, whose key ends in the key text |
| `Tables.InsertAddsRow` | db/db.go:381-402 | an insert under a fresh primary key adds exactly that row and its index entries |
| `Tables.InsertLeavesOthers` | db/db.go:381-402 | and leaves every other table as it was |
| `Tables.StatementsKeep` | db/create.go:20-51 | every run of CREATE TABLE and INSERT keeps: the key space holds of every table exactly the inserted rows and exactly their index entries, and of a name not created yet nothing |
| `Tables.EveryRunIsDescribed` | db/db.go:381-402 | so it is after any run of statements on the empty database |
| `DeclaredTables.InsertAsDeclared` | sql_parser/parser.go:78-88 | the same by the words INT, STRING and BOOL with which CREATE TABLE declared the columns |
| `CatalogueRuns.RunsKeepCatalogue` | db/create.go:20-51 | after any run the stored schema and index catalogue of every created table read back as its key position, columns and indexes, and the name list holds every table once; later inserts and creates keep that |
| `CatalogueRuns.LastCreateNames` | db/create.go:26-35 | the stored name list is that of the last CREATE of the run |
| `CatalogueRuns.NameList` | db/create.go:26-32 | appending a comma behind each name and cutting the last is joining by commas |
| `CatalogueRuns.RestartLoadsTables` | db/db.go:90-132 | what a restart loads after any run is exactly the created tables, if sizes fit four bytes and names, as parsed ones, are not empty and have no comma |
| `CatalogueRuns.LoadCatalogue` | db/db.go:90-132 | the loading loop returns the tables the stored entries encode, or fails |
| `SqlRuns.LoggedHolds` | db/db.go:381-402 | when every logged commit carries a fresh row with its entries, a catalogue entry or nothing, what is logged holds exactly the inserted rows of every table |
| `SqlRuns.SnapshotsHoldTables` | db/db.go:309-328 | then every live snapshot holds exactly the rows logged up to some point of the run: what SELECT assumes of it |
| `SqlRuns.RowsStoredOnce` | db/db.go:381-402 | and the store has at most one version of each row key: what point reads of rows assume |
| `Planner.FirstFullWins` | db/select.go:39-69 | the first index covered in full is taken |
| `Planner.LastPartialWins` | db/select.go:60-68 | without one, the last index with a covered first column is taken |
| `Planner.NothingCovered` | db/select.go:39-69 | and none if no index has its first column in the query |
| `Planner.FullExactly` | db/select.go:71-73 | a chosen index is covered in full exactly if the query has a condition on each of its columns |
| `Planner.AppliesExactly` | db/select.go:75-91 | each operator, by its bytes, against the order of texts by first difference; any other operator is an error |
| `Planner.OneOfThree` | db/select.go:75-91 | <= is the opposite of >, and >= of <; exactly one of <, = and > holds |
| `Planner.ValuesInOrder` | db/select.go:136-143 | the values for one covered column come in the order of the conditions |
| `Planner.CoveredInOrder` | db/select.go:136-143 | and those of one covered column before those of the next |
| `Planner.PlansAgree` | db/select.go:93-162 | for a safe plan the index path keeps a row exactly if it meets every condition |
| `Planner.PlanSafeExactly` | db/select.go:93-162 | with one condition per column, known names and operators and non-empty values, the index plan agrees with the filter on all rows exactly if it is safe |
| `Planner.StrictComparisonSwapsTheAnswer` | db/select.go:136-143 | a lone < or > on a covered column: no row is in both answers |
| `Planner.RepeatedColumnFindsNothing` | db/select.go:136-143 | two conditions on one column of a fully covered index: the index path returns nothing |
| `Planner.LongScanFindsNothing` | db/select.go:136-143 | more scanned values than index columns: the index path returns nothing |
| `Planner.RepeatedColumnDisagrees` | db/select.go:136-143 | two conditions on one column of a partly covered index: the second value is compared with the next index column, and some row is in one answer only; if they ask for two different values, the index path returns a row that does not meet the query |
| `Planner.FullCoverIgnoresTheRest` | db/select.go:157-159 | a fully covered index drops every condition outside it |
| `Select.ScanIsExact` | db/select.go:245-274 | memtable scan over file scan gives exactly the reader's snapshot, the prefix itself excepted |
| `Select.FullTableScan` | db/select.go:245-274 | every row of the table in the reader's snapshot, once |
| `Select.GetRow` | db/select.go:23-34 | the row of that primary key, or an error if it was never inserted, where each primary key was written once |
| `Select.SecondaryIndexPrefixScan` | db/select.go:277-301 | exactly the primary keys of the rows whose index values start with the scanned ones |
| `Select.FilterQueryConditions` | db/select.go:93-117 | exactly the rows that meet every condition outside the covered columns; an unknown column is an error |
| `Select.SurvivorsExactly` | db/select.go:93-117 | a row is listed exactly if it stands in the order each condition asks for, by first difference of the texts |
| `Select.AtMostKeeps` | db/select.go:81-86 | the rows kept by <= are those kept by < together with those kept by =, and likewise >= |
| `Select.ChooseIndex` | db/select.go:39-69 | the loops choose as specified |
| `Select.CoveredColumnValues` | db/select.go:134-143 | the values of every condition on each covered column, in index order |
| `Select.RunIndexPath` | db/select.go:129-162 | on its own terms, whatever the operators: exactly the rows whose entry starts with the query's values and that pass the filter |
| `Select.KeptIsAnswer` | db/select.go:129-162 | a safe index plan and full scan plus filter have the same answer |
| `Select.UnsafeChangesAnswer` | db/select.go:129-162 | on a table of strings an unsafe index plan answers wrongly for a table of one row that an insert accepts |
| `Select.SelectFromTable` | db/select.go:179-211 | through an index exactly the rows the plan keeps; whichever plan is taken, a safe query lists exactly the rows of the snapshot that meet it, each once; a point query for a missing key is an error |
| `Select.PrimaryKeyAnswer` | db/select.go:14-17 | a query for one primary key asks for that row alone |
| `Inserting.IndexColumnValues` | db/db.go:432-454 | the row's values of the index columns in index order, and its primary key |
| `Inserting.UpdateSecondaryIndexes` | db/db.go:456-469 | one Put per index, given up at the first that cannot be built |
| `Inserting.InsertIntoTable` | db/db.go:381-402 | up to the commit: refused, rolled back without an error, or the buffer holds exactly the insert's writes |
| `Inserting.InsertCommits` | db/db.go:381-402 | when that transaction finishes, the committed state has exactly one row more and every other table is unchanged |
| `Tokenisers.StuckExactly` | sql_parser/tokeniser.go:57-96 | every token moves on, except that an unsupported character yields an empty identifier again and again |
| `Tokenisers.Tokeniser.NextToken` | sql_parser/tokeniser.go:60-96 | on any text: spaces are skipped; a symbol is one character; an operator or a word is the longest stretch of operator characters or of letters and digits; a word is a keyword exactly if it is reserved in upper case |
| `Tokenisers.TokenIsLex` | sql_parser/tokeniser.go:60-96 | no other token can be handed out there: that description fixes token and position |
| `Tokenisers.LayoutIsRead` | sql_parser/tokeniser.go:60-96 | tokens spelled with any spaces between them, needed only between two words or two operators, are read back in order |
| `Tokenisers.ReadExactly` | sql_parser/tokeniser.go:60-96 | and only so: from a text tokens are read, up to one that holds something, exactly if the text spells them in some layout |
| `Tokenisers.PlainLayout` | sql_parser/tokeniser.go:60-96 | one space before every token but symbols is such a layout |
| `Parsers.Parser.Eat` | sql_parser/parser.go:53-76 | moves on exactly if kind and expected text match, and otherwise leaves the parser as it was |
| `Parsers.Parser.ParseSelectFromTable` | sql_parser/parser.go:310-341 | ends on every input with the statement the grammar prescribes, or an error |
| `Parsers.Parser.ParseCreateTable` | sql_parser/parser.go:110-186 | ends on every input with the statement the grammar prescribes, or an error |
| `Parsers.Parser.ParseInsertIntoTable` | sql_parser/parser.go:193-233 | the statement, an error, or the endless loop on an empty identifier |
| `Parsers.StuckRepeats` | sql_parser/parser.go:213-224 | consuming an empty identifier changes nothing, so that loop never ends |
| `Parsers.InsertEnds` | sql_parser/parser.go:193-233 | INSERT parsing ends on every input of spaces, letters, digits, symbols and operators |
| `Grammar.SelectExactly` | sql_parser/parser.go:235-341 | SELECT is accepted, as that statement, exactly if the text begins with it up to its semicolon, in any layout, with one to ten columns, at most eleven conditions and commas between columns or not |
| `Grammar.InsertExactly` | sql_parser/parser.go:193-233 | INSERT is accepted, as that statement, exactly if the text begins with it up to its closing bracket, in any layout, with any number of values and commas or not |
| `Grammar.CreateExactly` | sql_parser/parser.go:110-186 | CREATE TABLE is accepted, as that table, exactly if the text begins with it up to its closing bracket: columns of the three types and primary key clauses in any order; the last clause counts, and the last column of its name; without one the key is the first column |
| `Grammar.InsertDivergesExactly` | sql_parser/parser.go:193-233 | INSERT parsing never ends exactly if the text spells its head and values, with at most one comma in front of each and one behind them, and then, behind spaces, comes a character no token starts with |
| `Grammar.InsertSpins` | sql_parser/tokeniser.go:57-59 | any printed INSERT cut off behind its bracket, a value or a comma and continued with such a character never ends |
| `Grammar.SelectRoundTrip` | sql_parser/parser.go:235-341 | a SELECT of one to ten columns and at most eleven conditions over good names parses back to itself, in any layout |
| `Grammar.AcceptedSelectIsBounded` | sql_parser/parser.go:235-308 | no accepted SELECT exceeds those limits |
| `Grammar.InsertRoundTrip` | sql_parser/parser.go:193-233 | a printed INSERT parses back to itself, with any number of values, in any layout |
| `Grammar.CreateRoundTripExactly` | sql_parser/parser.go:110-186 | a CREATE TABLE printed with the name of its key parses back to itself exactly if its key is the last column of that name |
| `Grammar.CreateWithoutKey` | sql_parser/parser.go:163 | printed without a PRIMARY KEY clause, over any columns, it parses to the table with the first column as key |

## Left out

- File system calls, fsync, the manifest's JSON, file deletion and logging: a file is a byte sequence, the manifest a list of names, and calls that can fail only because of the operating system do not fail.
- The B-tree and the library sort: the memtable is a sorted sequence, the sort an insertion sort whose result is the unique sorted order.
- Mutexes and interleavings inside a step; commits are serial, as the code takes no lock over a commit (db/transaction.go:171-195), and a finished transaction is not used again.
- Transaction ids are unbounded in the engine; the byte formats take them below 2^64. File offsets and lengths are below 2^32 where the formats say so.
- The index reader returns an error where the code would index out of range and panic on a corrupt index; likewise row decoding of a STRING or BOOL cut short.
- A crash between writing a file and saving the manifest (sstable/sstable.go:99-122): the file name is then used again, and as NewFile opens for appending (sstable/sstable.go:82-94), the next flush lands behind the orphan bytes. FlushWrite and CompactFinish take the two as one step.
- In the engine a file is its sorted list of entries; the block index enters in `SsTables` and `Databases`.
- The benchmark mode that skips the index (`linearSearch`, sstable/sstable.go:498-525), and the unused PUT command of the log.
- Inserting.InsertIntoTable: only in runs without lock conflicts; after a conflict the code rolls back and still goes on to index entries and a commit of the finished transaction (db/db.go:390-401).
- Databases.NewDB: without the transaction that loads the schemas at start (db/db.go:90-132), so the code ends one id and one log record further; what it loads is `CatalogueRuns.LoadCatalogue`, over the contents its snapshot holds.
- CREATE TABLE of a name that exists, which the code does not check (db/create.go:21), and the three Puts of createTable as transactions of their own: they are three writes of one statement.
- Tables.InsertByKind: column kinds up to 2, the only ones a parsed CREATE TABLE declares (`DeclaredTables.InsertAsDeclared`); the code writes nothing for another kind.
- Numeric comparison in WHERE: the code compares strings, and so does the model.
- Tables whose columns share a name, index names that repeat, and names with a colon or equal to a reserved prefix: the key space theorems exclude them, CREATE TABLE does not.
- Columns of a SELECT list: the code parses them and returns whole rows, and so does the model.
- Texts of error messages; the REPL, SHOW TABLES, SHOW CREATE TABLE and the benchmarks.
- Select.GetRow: where each primary key was written once, as inserts under fresh keys do (`SqlRuns.RowsStoredOnce`).
- Select.RunIndexPath: where each primary key was written once and no query value contains a colon, which would change what the scanned text means.
- Select.SelectFromTable: the same, and for a transaction that has buffered nothing, as the scans of the code do not look at the buffer.
- Databases.Transaction.Get: equals the machine's read only where no block border separates a key's versions against the reader (`FilesExact`); `SsTables.SsTable.Get` says what is returned otherwise.
- SsTables.SsTable.PrefixScan: exact for every key but the prefix itself, whose versions the binary search may step over; no key of a table equals a scanned prefix.
- Tokenisers.Tokeniser.NextToken: the classification of characters is a parameter; the theorems on layouts and on accepted texts ask of it only what the unicode package guarantees (`Tokenisers.Sane`, and of printed type names that A to Z are letters and their own upper case).
- `Databases.Transaction.Commit` hands a wanted compaction's horizon back instead of starting a goroutine; `Databases.Database.StartCompaction` and `FinishCompaction` are that goroutine's two halves.
