# A verified model of the bitcask store

The store keeps an append-only log of records, split over numbered files `0.db`, `1.db`, ..., of which the highest-numbered one, the active file, is written and the others, the stable files, are only read. An index maps a key to a hint (file id, value offset, value size); a cache holds the values of the active file. A worker takes the queued writes in batches, appends them, rotating to a new file whenever a value starts at or past the size limit, and then publishes the batch: new stable files, cache, index, promises. Opening a database rebuilds index and cache by scanning the files.

The project models this from bytes upwards and proves that it behaves as a plain map, through rotations in mid-batch, restarts, crashes and concurrent reads.

| file | contents |
|---|---|
| `Bytes.dfy`, `Codec.dfy`, `Format.dfy` | words, the record format, the scan as functions on byte strings, torn tails; the bytes of a record by position and what its checksum covers |
| `Files.dfy`, `Records.dfy`, `DataFiles.dfy` | disk and streams with cursor and fail state; reading, writing and scanning through them; active and stable files |
| `Layout.dfy` | the meaning of a log, its layout over files, index, cache, and `Get` as a function of what it sees |
| `Recovery.dfy` | the state rebuilt from bytes, whole or cut |
| `Commits.dfy`, `Store.dfy` | the one-write-at-a-time reference; the store class with its loops |
| `Runs.dfy`, `Bounds.dfy` | all sequences of batches and restarts; file sizes and 32-bit limits |
| `Concurrent.dfy`, `Linearizability.dfy`, `Pipeline.dfy`, `Lifecycle.dfy` | the running system as a step relation; reads; the write pipeline and promises; what calls enqueue, shutdown, and that worker and readers get to their end |
| `Sorting.dfy`, `FileNames.dfy`, `SmallStores.dfy` | sorting the directory listing; file names; small layouts for counterexamples |
| `ReplayOrder.dfy`, `HintIds.dfy`, `LockMode.dfy`, `LockModeExact.dfy`, `LockModeRuns.dfy`, `TornTail.dfy` | four places where the code as written departs from its intent |

## How the model reads the code

- The checksum function is a parameter of every definition and nothing is assumed about it, so statements about damaged bytes carry the case of a collision explicitly. The words of the header are stored least significant byte first.
- Sizes and offsets are converted to 32 bits where the code converts them (`Low32`). `Fits` says that a layout loses nothing to that; `RunBounds` derives it from bounds on the limit and on key and value sizes.
- A layout (`Segments`) is the sequence of the logs of the files. It is a ghost field of the store; `Valid` says that disk, stable table, index and cache are exactly those of the layout.
- A callback that is handed the scanned records is modelled by the sequence of its arguments, over which the callers loop. A wait for a promise is modelled in the class by one pass of the worker, and in `Concurrent.dfy` as such.
- In `Concurrent.dfy` the reading of one stable value and each operation on a map is one step, and so is the writing of a batch to the files, none of which is visible before the insertion into the stable table.

Four departures. In each the intent is the main line of the model, and the behaviour as written is characterised exactly:

- The hint of a write carries the id that was active before the batch (`src/BitcaskImpl.cpp:205`), not the one of the file written (`src/BitcaskImpl.cpp:213`). As written the index is right if and only if no write but the last of the batch rotates (`HintIds.HintIdsExact`); otherwise `Get` can answer with another key's value (`HintIds.OtherKeysValue`).
- Stable files are replayed in the string order of their names (`src/BitcaskImpl.cpp:110-115`). That recovers every store if and only if there are at most ten stable files (`ReplayOrder.ReplayOrderExact`).
- The insertion into the stable table takes the lock in shared mode (`src/BitcaskImpl.cpp:224`), so a read can run across it. A read of a key can then go wrong, that is, answer with a value the key has at no instant of the read. Two kinds of states are dangerous (`LockMode.Dangerous`):
  - a batch that rotated is about to be inserted, and the key is cached and exposed: it is present; or it is deleted, and the first record of it that goes to an active file, in this batch or in the next, which is the queue as it stands, brings it back with a value new to it;
  - a write of a cached key is in the cache but not yet in the index, the value before it does not come back in the batch, and the next batch rotates: a reader that gets the old hint reads the old value after that rotation.

  In any run, with any number of batches and readers, every read that goes wrong comes across a dangerous state of its key, at its start or at an insertion (`LockMode.MisreadNeedsDanger`); from every dangerous state some read that begins there goes wrong (`LockModeExact.DangerMisreads`). So a read can go wrong if and only if such a state can be reached (`LockModeExact.SharedInsertExact`). Each way occurs, the last one in a run in which no insertion finds an exposed key (`LockModeRuns`). In particular, publishing one batch can make a read miss a key that is present all the while if and only if the batch rotates and a present key is cached (`LockModeExact.SharedMissExact`).
- Reopening does not cut off a torn tail (`src/ActiveFile.cpp:37-41`). The session that follows reads as what was recovered, and its own writes on top (`TornTail.SessionReads`). The first record it wrote is found again where it was written if and only if the crash left no torn tail (`TornTail.TornTailExact`). Without a tail nothing is lost (`TornTail.CleanCutKeeps`); with one, and unless the bytes behind the surviving log happen to pass as a record, everything the session wrote to that file is (`TornTail.TornTailLoses`).

The repository's `README.md` (line 156) and `.github/copilot-instructions.md` (lines 61-63) say that `Delete` is not implemented; the code implements it, and the model follows the code. The latter file (line 47) also says that `CommitWrite` takes the lock exclusively, which is the intent in the third item above.

## Model

| member | source | states |
|---|---|---|
| Files.FStream.Read | src/File.cpp:15-20 | a read gives all its bytes, or fails the stream for good |
| Files.ReadValueFromFile | src/File.cpp:22-28 | a short read gives nothing and not a part; afterwards the stream has failed |
| Files.ReadFile | src/File.cpp:30-41 | on a failed stream the seek is ignored and the read gives nothing |
| Files.WriteFile | src/File.cpp:43-46 | bytes go to the end of the file and the position returned is the new end; on a failed stream nothing happens and it is -1 |
| Records.GetCRC32 | src/Record.cpp:98-107 | the accumulated checksum is that of the size words, the key and the value, in this order |
| Records.FillHeader | src/Record.cpp:108-114 | the header filled in is the one the record format prescribes for the key and value |
| Records.WriteRecord | src/Record.cpp:26-42 | the file grows by exactly the record's encoding; the positions returned are those the scan will report |
| Records.ReadRecord | src/Record.cpp:44-66 | cursor, fail state and outcome of reading one record agree with the record format at every position of any file |
| Records.ReadAllRecordFromFile | src/Record.cpp:68-94 | the scan loop ends and reports what the format says, in order |
| Codec.ReadEncoded | src/Record.cpp:44-66 | an encoded record is read back whole, with its key, value and positions |
| Codec.EncodeRead | src/Record.cpp:44-66 | conversely, bytes accepted as a whole record are the encoding of what is reported |
| Codec.ScanRoundTrip | src/Record.cpp:26-94 | scanning what was written reports the same records, in order, at the same positions, and nothing more |
| Codec.ScanReencodes | src/Record.cpp:44-94 | on arbitrary bytes the records reported are contiguous from 0 and re-encode to the bytes consumed; only a final record whose checksum collides can be short |
| Codec.ReadTorn | src/Record.cpp:47-64 | a record cut short is rejected unless one of the two possible collisions occurs; a colliding one loses its value |
| Codec.ScanTorn | src/Record.cpp:44-84 | on any prefix of a log the scan reports the records wholly inside it, and one more exactly if the torn one collides |
| Codec.ShortFileAddressable | src/Record.cpp:55-58 | in a file shorter than 2^32 bytes no position wraps around, whatever it holds |
| Codec.EncodedAddressable | src/Record.cpp:55-58 | nor in a log, cut anywhere, whose value offsets are representable |
| Format.EncodeLayout | src/Record.cpp:9-42 | a record on disk is four bytes each of checksum, key size and value size, the sizes least significant byte first, then the key and the value |
| Format.FoundPositions | src/Record.cpp:31-39 | the size and the two positions reported for a record are its length and where key and value start |
| Format.EncodeChecksum | src/Record.cpp:98-113 | for a checksum that can be extended piece by piece, the stored one is that of all bytes of the record behind it |
| Format.AcceptsWhole | src/Record.cpp:47-64 | on any bytes, a record that is all there is accepted exactly if its first four bytes are the checksum of the rest of it |
| Format.AcceptsShort | src/Record.cpp:47-64 | one whose body comes up short, exactly if they are the checksum of the sizes, with the key if that is all there |
| Format.AcceptsDamaged | src/Record.cpp:47-64 | one whose key or value bytes were overwritten, exactly if the checksum, continued from the sizes, agrees on old and new contents |
| Layout.MeaningLast | src/BitcaskImpl.cpp:149-174 | the plain map of a log holds exactly the value a key was last written, or nothing if that is the tombstone |
| Layout.TombstoneText | include/bitcask/Define.hpp:15 | the tombstone is the text the code defines |
| Layout.CacheAt | src/BitcaskImpl.cpp:228-236 | the cache holds exactly the keys last written in the active file, with their last values |
| Layout.LookupMeaning | src/BitcaskImpl.cpp:149-174 | with index and cache at different points of publication, a key with an active hint reads as of the cache and any other as of the index |
| Layout.LookupRefines | src/BitcaskImpl.cpp:149-174 | on the state of every layout, `Get` is the plain map of the log |
| Layout.IndexAgreesWithDisk | src/BitcaskImpl.cpp:157-169 | every hint addresses exactly its key's latest value bytes in an existing file; active hints have equal cache entries, all others are in the stable table |
| Layout.EntriesPlace | src/BitcaskImpl.cpp:204-221 | one write adds one entry, with the id of the file it went to, whether or not it rotates |
| Layout.PlaceAllKeepsStable | src/BitcaskImpl.cpp:211-221 | files below the active one are never written again |
| Recovery.RecoverExact | src/BitcaskImpl.cpp:55-128 | recovering the files of a layout rebuilds exactly the live index, cache, stable table and active id |
| Recovery.CrashState | src/BitcaskImpl.cpp:55-128 | the state recovered after a cut at any byte of the newest file, collision or not |
| Recovery.CrashRecovery | src/BitcaskImpl.cpp:76-87 | after a cut at any byte of the newest file every key reads as in the plain map of a prefix of the log holding every record left whole, but for the key of a torn record that collides, which reads as the empty value |
| Recovery.CrashExact | src/BitcaskImpl.cpp:76-87 | the index recovered is that of the surviving prefix if and only if the torn record does not collide |
| Recovery.FilesAddressable | src/BitcaskImpl.cpp:117-126 | the files a store leaves, cut or not, can be scanned without a position wrapping around |
| Commits.CommitOneIsPlace | src/BitcaskImpl.cpp:193-240 | committing one write keeps the state that of a layout |
| Commits.CommitAllIsPlaceAll | src/BitcaskImpl.cpp:193-240 | so does committing any number of writes, one at a time |
| DataFiles.ActiveFile.Restore | src/ActiveFile.cpp:17-49 | the records of the file are reported and it is open for appending |
| DataFiles.ActiveFile.Create | src/ActiveFile.cpp:54-63 | the file exists, empty, and is open |
| DataFiles.ActiveFile.Write | src/ActiveFile.cpp:65-67 | appends the record; returns the offset of its value, cut to 32 bits |
| DataFiles.ActiveFile.Rotate | src/ActiveFile.cpp:69-75 | the old stream is closed and handed back, an unopened one takes its place |
| DataFiles.StableFile.Restore | src/StableFile.cpp:16-31 | the records of the file are reported and its stream stays open |
| DataFiles.StableFile.Read | src/StableFile.cpp:36-41 | whatever state a scan left the stream in, the addressed bytes are read |
| Store.ActiveInDir | src/BitcaskImpl.cpp:20-36 | the largest id in the directory, 0 if there is none |
| Store.CountStable | src/BitcaskImpl.cpp:63-74 | the number of files other than the active one |
| Store.ActiveOfListing | src/BitcaskImpl.cpp:20-74 | in a directory of files 0 to n, listed in any order, both give n |
| Store.BitcaskImpl.constructor | src/BitcaskImpl.cpp:130-136 | opening gives the state recovered from the bytes, oldest file first, however the directory is enumerated; on the files of a clean shutdown that is a valid store with the same log |
| Store.BitcaskImpl.RestoreStableMap | src/BitcaskImpl.cpp:95-128 | from a directory listing in any order, the index after replaying the stable files oldest first, and an open stream for each |
| Store.CollectStable | src/BitcaskImpl.cpp:100-108 | the files other than the active one |
| Sorting.SortIsOldestFirst | src/BitcaskImpl.cpp:110-115 | sorting any listing of the files 0 to n-1 by id, which is what is meant, puts the oldest first |
| Store.BitcaskImpl.ReplayInOrder | src/BitcaskImpl.cpp:117-126 | the index after replaying files in a given order |
| Store.BitcaskImpl.RestoreActiveMap | src/BitcaskImpl.cpp:55-93 | the complete recovered state, whether the active file exists or is created |
| Store.BitcaskImpl.ReplayStable | src/BitcaskImpl.cpp:119-123 | each record of a stable scan moves its key's hint |
| Store.BitcaskImpl.ReplayActive | src/BitcaskImpl.cpp:77-83 | each record of the active scan moves its key's hint and its cache entry |
| Store.BitcaskImpl.Put | src/BitcaskImpl.cpp:143-147 | the write joins the end of the queue |
| Store.BitcaskImpl.Get | src/BitcaskImpl.cpp:149-174 | on a valid store, the value the key was last written, none for the tombstone or a key never written; nothing but stream positions changes |
| Store.BitcaskImpl.Delete | src/BitcaskImpl.cpp:176-189 | false, and no change, exactly if the key has no committed record; otherwise queue and tombstone are committed and the key is gone |
| Store.BitcaskImpl.RotateActive | src/BitcaskImpl.cpp:211-221 | the active file becomes stable file `fd`, and file `fd + 1` is active and empty |
| Store.BitcaskImpl.AppendWrite | src/BitcaskImpl.cpp:204-221 | record, hint and rotation of one write |
| Store.BitcaskImpl.AppendBatch | src/BitcaskImpl.cpp:197-222 | after the first loop the files are those of the layout and the publication data describe its last entries |
| Store.BitcaskImpl.InsertStable | src/BitcaskImpl.cpp:223-226 | the stable ids are 0 to n-1 and the active file is n |
| Store.BitcaskImpl.Publish | src/BitcaskImpl.cpp:231-238 | after the second loop index and cache are those of all entries |
| Store.BitcaskImpl.PublishMaps | src/BitcaskImpl.cpp:228-238 | the same, with the cache cleared first exactly if there was a rotation |
| Store.BitcaskImpl.CommitWrite | src/BitcaskImpl.cpp:193-240 | a valid store stays valid; the batched commit leaves the state of committing the writes one at a time, and the log grows by the batch |
| Store.BitcaskImpl.CommitPending | src/BitcaskImpl.cpp:243-250 | one pass of the worker commits the queue, in order, and empties it |
| Store.BitcaskImpl.CommitWorker | src/BitcaskImpl.cpp:241-257 | batch-split independence of the batched commit: however the writes fall into batches, files, stable table, index and cache are those of committing all of them one at a time, in order of arrival |
| Runs.RunKeepsLayout | src/BitcaskImpl.cpp:55-240 | in every run of batches and restarts the state is that of the log laid out over the files |
| Runs.RunRefines | src/BitcaskImpl.cpp:149-240 | after every run, `Get` is the value the key was last committed with, none for a tombstone or a key never written |
| Runs.RestartForgets | src/BitcaskImpl.cpp:55-136 | a restart goes by the files alone |
| Runs.BatchSplit | src/BitcaskImpl.cpp:193-240 | the one-at-a-time reference, which CommitWrite is proved equal to, does not depend on where a batch is split |
| Runs.DeletesLast | src/BitcaskImpl.cpp:176-189 | a committed deletion lasts through later commits and restarts until the key is written again; other keys read as if it had not happened |
| Runs.RunCrashes | src/BitcaskImpl.cpp:55-128 | the same for the files of any run; the prefix lacks only the records not left whole |
| Runs.FileIds | src/BitcaskImpl.cpp:191-221 | stable ids are 0 to n-1, files 0 to n exist, no hint points past n |
| Bounds.RunRotates | src/BitcaskImpl.cpp:204-222 | under one limit, in every file all values but a stable file's last start below it, and that one at or past it |
| Bounds.RunBounds | src/BitcaskImpl.cpp:204-222 | the resulting bounds on offsets and file lengths, and the condition under which nothing wraps around |
| Bounds.BoundedRunRefines | src/BitcaskImpl.cpp:149-240 | under such bounds every run refines the plain map |
| Concurrent.StepView | src/BitcaskImpl.cpp:193-257 | every step of callers, worker and readers keeps index, cache, table and files at their publication points |
| Concurrent.SettledView | src/BitcaskImpl.cpp:241-257 | between batches the state is that of the layout of everything written |
| Concurrent.WriteFilesDetermined | src/BitcaskImpl.cpp:197-222 | every batch that fits can be written, in exactly one way |
| Linearizability.AtomicGet | src/BitcaskImpl.cpp:223-238 | at every publication step there is one point of the log, the published prefix or one write more, of which the atomic `Get`s of all keys together are the plain map |
| Linearizability.PointMonotone | src/BitcaskImpl.cpp:223-238 | no step moves that point back and none skips a write |
| Linearizability.SeenExact | src/BitcaskImpl.cpp:223-238 | over any stretch of a run the values a key has are exactly those of the log at the points between its ends |
| Linearizability.LockFixesTable | src/BitcaskImpl.cpp:149-174 | exclusive insertion keeps the stable table fixed during every read |
| Linearizability.ReadsLinearize | src/BitcaskImpl.cpp:149-174 | every `Get` answers with the value of its key at some instant of its interval, a point of the log between those of its start and its end |
| Linearizability.ReadsInOrder | src/BitcaskImpl.cpp:149-174 | of two successive reads, of one key or of two, the later one does not go back in the log |
| Linearizability.StableKeysAreSafe | src/BitcaskImpl.cpp:165-173 | under any lock mode, a key found in a stable file is answered with the value of that instant |
| Pipeline.Conservation | src/BitcaskImpl.cpp:143-257 | committed, in flight and queued writes are the submitted ones in order; promises are set in order and once |
| Pipeline.PromisedIsVisible | src/BitcaskImpl.cpp:231-238 | a promise is set only after its write is visible to every read |
| Pipeline.ReadYourWrites | src/BitcaskImpl.cpp:143-174 | a `Get` begun after a submission's promise was set returns its value, none for a deletion, or that of a later submission of the same key |
| Pipeline.RefusedDelete | src/BitcaskImpl.cpp:176-183 | whenever no reader holds the lock, a deletion is enqueued if the key has a published record, and refused without effect if it has none |
| Pipeline.ExitLeaves | src/BitcaskImpl.cpp:138-141 | promises unset when the worker exits are those of the writes enqueued after its last take |
| Lifecycle.SubmittedIsAsked | src/BitcaskImpl.cpp:143-188 | what is submitted is what the calls ask for, in order; a deletion asks for the tombstone |
| Lifecycle.DeletedReadsNone | src/BitcaskImpl.cpp:149-189 | once the promise of a deletion is set every `Get` of the key answers none, until it is submitted again |
| Lifecycle.WrittenReadsValue | src/BitcaskImpl.cpp:143-174 | once the promise of a write is set every `Get` of the key answers its value, until it is submitted again |
| Lifecycle.ExitExact | src/BitcaskImpl.cpp:138-141 | at the end of a pass the worker exits if and only if there was a shutdown before |
| Lifecycle.ExitIsFinal | src/BitcaskImpl.cpp:241-257 | after that nothing is written, published or promised any more |
| Lifecycle.PassEnds | src/BitcaskImpl.cpp:193-257 | from every state the worker, once the readers in flight have returned, commits what it works on, or what is queued, and then exits or is ready again |
| Lifecycle.ExitReached | src/BitcaskImpl.cpp:138-257 | on every store there is a run that ends in an exit with a write left in the queue |
| Lifecycle.ReaderReturns | src/BitcaskImpl.cpp:149-174 | every reader in flight answers and releases the lock within three steps of its own, which change nothing else |
| Lifecycle.ReturnedIsGone | src/BitcaskImpl.cpp:149-174 | a reader that has returned holds the lock no more |
| FileNames.ParseFileName | src/BitcaskImpl.cpp:28-36 | parsing a file's name gives back its id; behind the number it ends in `.db` |
| FileNames.NameOrder | src/BitcaskImpl.cpp:110-115 | names of ids with equally many digits compare like the ids |
| FileNames.LessExact | src/BitcaskImpl.cpp:110-115 | the order of names is decided by their first difference, or by length if one begins with the other |
| FileNames.SortSortsNames | src/BitcaskImpl.cpp:110-115 | sorting a listing by name gives a name-sorted order of the same files |
| FileNames.NameSortIsOldestFirst | src/BitcaskImpl.cpp:110-118 | that order is oldest first if and only if there are at most ten files |
| ReplayOrder.OldValueReturns | src/BitcaskImpl.cpp:110-126 | for every number of files from eleven on, a reachable store in which reopening brings an overwritten value back |
| ReplayOrder.ReplayOrderExact | src/BitcaskImpl.cpp:110-126 | the order as written recovers all stores of n stable files if and only if n is at most ten |
| HintIds.HintIdsExact | src/BitcaskImpl.cpp:205-213 | the index as written is right if and only if no write but the last of the batch rotates |
| HintIds.OtherKeysValue | src/BitcaskImpl.cpp:205-213 | otherwise a `Get` can answer with another key's value |
| LockMode.CacheAhead | src/BitcaskImpl.cpp:231-237 | the cache differs from what a key reads as only between the cache put and the index put of its first write in the new active file |
| LockMode.HintedValue | src/BitcaskImpl.cpp:169 | the bytes a hint addresses are, for good, the value its key had at the point the index was at |
| LockMode.LaterRun | src/BitcaskImpl.cpp:143-257 | while a reader is in flight nothing is enqueued, so after the batch in flight the worker takes the queue as it stands, and then nothing |
| LockMode.MisreadNeedsDanger | src/BitcaskImpl.cpp:149-257 | in every run, under either lock mode, every read that goes wrong comes across a dangerous state of its key |
| LockModeExact.DangerMisreads | src/BitcaskImpl.cpp:149-257 | from every dangerous state of a key, with any readers in flight, a read of it that begins there can go wrong |
| LockModeExact.SharedInsertExact | src/BitcaskImpl.cpp:149-257 | with the insertion as written, a run can go on to a read that goes wrong if and only if it can go on to a dangerous state |
| LockModeExact.MissNeedsLive | src/BitcaskImpl.cpp:149-257 | in every run a read that misses a key present all the while runs across an insertion after a rotation that finds the key present in the cache |
| LockModeExact.SharedMissExact | src/BitcaskImpl.cpp:149-229 | publishing a batch can make a read miss such a key if and only if the batch rotates and a present key is cached |
| LockModeRuns.WrittenReached | src/BitcaskImpl.cpp:193-222 | on every store, every batch that fits can be about to be published, with any queue behind it |
| LockModeRuns.MissReached | src/BitcaskImpl.cpp:149-229 | a run of one small batch to a state from which a present key is missed |
| LockModeRuns.EarlyReached | src/BitcaskImpl.cpp:149-236 | one from which no key is missed, but a value is read before it is published |
| LockModeRuns.LaterReached | src/BitcaskImpl.cpp:149-257 | one from which that takes the next batch |
| LockModeRuns.StaleAlone | src/BitcaskImpl.cpp:157-257 | a run with a read that goes wrong by an overtaken hint, in which no insertion finds an exposed key |
| TornTail.SessionFiles | src/ActiveFile.cpp:37-49 | after a crash, a reopening and any commits, the session's records stand behind the torn tail, and from its first rotation on in files of their own |
| TornTail.SessionReads | src/BitcaskImpl.cpp:149-174 | in that session `Get` is the plain map of what was recovered, the surviving log and, on a collision, the torn key with the empty value, followed by the session's writes |
| TornTail.CleanCutKeeps | src/ActiveFile.cpp:37-49 | if the crash cut between two records, the next opening reads as both |
| TornTail.TornTailLoses | src/ActiveFile.cpp:37-49 | otherwise, unless the bytes behind the surviving log pass as a record, it reads as if nothing the session wrote to the torn file had been written |
| TornTail.TornTailExact | src/ActiveFile.cpp:37-49 | the session's first record is reported where it was written if and only if the crash left no torn tail |

## Left out

- The file system: opening succeeds, the directory holds only `<n>.db` files numbered without gaps, appends reach the end of the file, and what one stream wrote another sees after the close. Files are identified by their numbers; `ParseFileName` is the link to names.
- Flushing and power loss, except as a cut of the newest file at any byte.
- The CRC32C algorithm (section 12.1 of RFC 3720), which is a parameter.
- libcuckoo, `src/ActiveMap.cpp` and `src/RecordMap.cpp`: maps with atomic operations.
- Data races at the level of the memory model, and the shared seek position of one stable stream under parallel readers: one stable read is one step.
- Allocation failure while reading a record with huge size words, and numbers in file names too large for `std::stoul`.
- CommitWrite: requires that the layout of the batch fits 32-bit offsets; `RunBounds` says when that is so. What a store does once offsets have wrapped around is not described.
- ReadAllRecordFromFile: requires that no position of the scan wraps around; what the scan does beyond that is not described.
- ReadRecord: requires, like the scan, the positions of the record to be representable; so do the two `Restore` methods.
- ReadsLinearize: for the lock mode as written it needs a stable table that does not change during the read; `MisreadNeedsDanger` and `SharedInsertExact` say what holds without.
- TornTailExact: one crash and one session after it, with files shorter than 2^32 bytes at its end; `Runs.dfy` has clean restarts only.
- TornTailLoses: what is recovered when the bytes behind the surviving log do pass as a record is not described, beyond `TornTailExact`.
- Logging, settings, the public wrapper, compaction (which is empty in the source) and the benchmarks.
