# A verified model of hamane-db

hamane-db is a vector store: a write-ahead log, memtables and immutable segments under one
mutex, one maintenance thread that flushes and compacts, an HNSW index, product and scalar
quantisation, and replicas that follow the log over HTTP. This project models its most stateful
parts in Dafny and proves what they are for. `dafny verify dfyconfig.toml` verifies every file.

**The store.** `Stores.dfy`, `Opening.dfy` and `Flushing.dfy` hold the mutable store, method by
method, each proved against a function of the state. `Machine.dfy` is the store as a state machine:
public calls logged frame by frame, `rotate`, the three phases of flush and compaction with writes
in between, every durable sub-step, crash and recovery. Its specification is a plain map from
collection to id to record plus a name directory (`Image.dfy`). `Runs.dfy` has the theorems about
all runs: refinement, reads, caches, progress, crash recovery; `Bounds.dfy` says that work once begun
ends. `MachineInv`, `Maintenance`, `MachineSteps`, `FlushSteps`, `CompactSteps` and `CrashSteps` hold
the invariant and its preservation, `Recovery`, `Window`, `WindowNames` and `LogBehind` the meaning of
a checkpoint with a log behind it.

**Log, group commit, replicas.** `Bytes`, `Wire`, `WalCodec` and `WalFile` are the codec and its
torn-tail rule, `ManifestFormat` the manifest bytes, `Decoding` what the decoders
accept, `GroupCommit` the leader/follower fsync over a mutex and a condition variable, `Replicas` the
follower that applies a stream cut anywhere and `Polling` what depends on the cuts. `Meanings` says what a record on the wire means to the store,
`Following` joins bytes and store: catching up with the primary, restarting, a log cut at any byte;
`Skipping` is about moving on to a newer log.

**HNSW.** `SearchLayers`, `HnswGraphs`, `HnswSelection` and `HnswBuilding` are Algorithms 2, 4, 5 and
the insertion of Malkov and Yashunin's paper as the repository has them, `HnswParallel` the
lock-per-node parallel build, `HnswFormat` the serialised form; `IvfFormat` does the same for the
inverted lists.

**Queries.** `Query`, `Search` and `PendingSearch` are top-k, the merge over shadowed sources and its
threshold, `Scans` the cursor walk, `Bulk` the loops that delete and update by filter.

**Kernels.** `Inversion` (with `Matrices` and `FlatIndex`) is Gauss-Jordan inversion over the reals,
`ProductQuantization` the 4-bit and 8-bit codes and their tables, `ScalarQuantization` the SIMD
kernels with wrapping lanes.

Where the code does less than its comments say, the model follows the code and states the exact
condition:

- A flush writes present names and collections but the log number of `rotate`, so reopening applies
  the window's directory records twice. At every later crash point, whatever the window and the
  records after it held: the log is rejected if and only if a collection older than the window was used and
  later dropped in it; otherwise all records are right, and the directory is under an exact condition
  on the logged records. Without swaps in the window it always is; one swap is undone
  (`Runs.RecordsSurvive`, `LogBehind.BehindIff`, `WindowNames.WindowReplayIff`, `Window.SwapAppliedTwice`).
- A waiting memtable is cut to its top k before the liveness test; the answer is exact if and only
  if no live row is displaced by shadowed ones (`PendingSearch.PendingExactIff`).
- A follower that moves on to a newer log skips the unfetched rest of the old one. The new log is
  rejected if and only if it needs a collection that the rest created; for data records follower and
  primary end equal if and only if the new log makes the same of every entry with and without the
  rest (`Skipping.SkippedRejectsIff`, `Skipping.SkippedDataIff`).
- A poll that meets a rejected frame keeps the frames before it applied but stores none, and the next
  poll applies them again. How the bytes were cut matters, unless every frame is accepted or the
  first one is rejected (`Polling.CutsAgreeIff`, `Polling.RetriedSwap`).
- A scan with limit zero has no limit (`Scans.Walk`).
- The promised length of the 8-bit kernels, 66051, is not tight: they are exact below 66080 bytes,
  and from there on not for every input (`ScalarQuantization.LongIsWrong`).
- `invert` refuses by an absolute threshold. It refuses every matrix without an inverse, and an
  invertible one if and only if some pivot is nonzero but below the threshold
  (`Inversion.RefusedInvertibleIff`, `Inversion.RefusedThoughInvertible`).

## Model

| member | source | states |
|---|---|---|
| Runs.Keep | crates/hamane-storage/src/store.rs:1534-1829 | Every step of writers, flush, compaction, clean-up, crash and recovery keeps the store invariant: the durable checkpoint is that of the last flush, the durable log its window and all that came since, caches are right, work in progress is consistent. |
| Runs.StepRefines | crates/hamane-storage/src/store.rs:772-871 | A step is visible to callers only through the records it makes part of the store; rotate, all flush and compaction phases and all deletions change nothing visible. |
| Runs.RunRefines | crates/hamane-storage/src/store.rs:1534-1829 | Over any interleaving, whatever the flush windows held, the layered state at the end is the replay, in order, of the effective records on plain maps, and each of those records was legal when it took effect. |
| Runs.ReachableStates | crates/hamane-storage/src/store.rs:568-610 | The same from an empty directory, for every reachable state. |
| Runs.ReadsAgree | crates/hamane-storage/src/store.rs:245-373 | In every reachable state a lookup through active, waiting and segment layers is a lookup in the map that the callers wrote. |
| Runs.CachesAgree | crates/hamane-storage/src/store.rs:187-223 | In every reachable state, also after reopening: `live_len` counts the live records, every live record's string id maps to it, and the next assigned id belongs to no live record. |
| Runs.RecordsSurvive | crates/hamane-storage/src/store.rs:636-705 | A crash at any point of any run, whatever rotations, flushes and compactions came before: the log is rejected exactly when the last flush's window used a collection older than itself and dropped it later; otherwise all acknowledged records and surviving frames come back, and the whole image if and only if the directory returns. |
| Runs.NothingAcknowledgedIsLost | crates/hamane-storage/src/store.rs:636-705 | When the last flush of the run had an exact window, the load after a crash shows exactly all acknowledged calls plus the surviving frames of the interrupted one. |
| Runs.WriterProgress | crates/hamane-storage/src/store.rs:878-893 | A writer that holds the lock can always append its next frame or commit. |
| Runs.MaintenanceProgress | crates/hamane-storage/src/store.rs:1566-1829 | The maintenance thread always has its next phase available once no writer holds the lock. |
| Bounds.BoundedWork | crates/hamane-storage/src/store.rs:1534-1829 | No run makes more finishing steps than what it began amounts to: every call, flush and compaction ends after so many frames, segments and phases, and the clean-up runs out of files. |
| Bounds.StepPays | crates/hamane-storage/src/store.rs:1534-1829 | Every finishing step, deletion of a file included, brings the end one nearer. |
| Bounds.StartsWork | crates/hamane-storage/src/store.rs:1566-1720 | Starting a flush takes on every waiting memtable; starting a compaction takes on the newest segments asked for, and remembers whether older ones remain. |
| Runs.SwitchRecoverIff | crates/hamane-storage/src/store.rs:1618-1655 | Right after CURRENT names a flushed manifest, for every window: reopening is rejected exactly when a collection older than the window was used and later dropped in it, shows the right records otherwise, and shows the acknowledged state if and only if in addition every name returns. |
| CrashSteps.EveryReopening | crates/hamane-storage/src/manifest.rs:146-194 | The same from the invariant alone: CURRENT names a complete manifest at every crash point, and what reopening gives is decided as above, with right caches whenever it gives anything. |
| CrashSteps.EveryCrashRecovers | crates/hamane-storage/src/manifest.rs:146-194 | With an exact window, at every crash point `load_state` succeeds and shows exactly the acknowledged calls plus a frame prefix of the call in flight. |
| CrashSteps.KeepCrash | crates/hamane-storage/src/store.rs:636-705 | After a crash whose reopening shows the acknowledged calls and the surviving frames, the store satisfies the full invariant again, so runs may contain any number of crashes. |
| CrashSteps.SurvivorsGood | crates/hamane-storage/src/store.rs:878-893 | Any frame prefix of an interrupted call is itself a legal log. |
| MachineSteps.KeepCommit | crates/hamane-storage/src/store.rs:878-893 | Committing a call in any phase of maintenance keeps the invariant, including what flush and compaction still plan to write. |
| MachineSteps.KeepRotate | crates/hamane-storage/src/store.rs:1534-1563 | Setting the memtables aside under a new log keeps the disk recoverable and starts an empty window. |
| FlushSteps.KeepFlushSwitch | crates/hamane-storage/src/store.rs:1618-1655 | Renaming CURRENT to the flushed manifest keeps the invariant, whatever the window held. |
| FlushSteps.KeepFlushInstall | crates/hamane-storage/src/store.rs:1655-1673 | Moving the written segments into the lists keeps the invariant. |
| FlushSteps.KeepDeleteWal | crates/hamane-storage/src/store.rs:1655-1673 | Deleting log files covered by CURRENT's manifest loses nothing. |
| FlushSteps.KeepDeleteSeg | crates/hamane-storage/src/store.rs:485-515 | Deleting a segment directory that CURRENT's manifest does not list loses nothing. |
| CompactSteps.KeepCompactStart | crates/hamane-storage/src/store.rs:1683-1720 | Starting a compaction of a run of newest segments keeps the invariant. |
| CompactSteps.KeepCompactSwitch | crates/hamane-storage/src/store.rs:1780-1829 | Renaming CURRENT to the compacted manifest keeps recovery exact although writes went on meanwhile. |
| CompactSteps.KeepCompactInstall | crates/hamane-storage/src/store.rs:1780-1829 | Replacing the run by its merge keeps the invariant, for whatever flushes and writes happened in between. |
| Maintenance.InstallFlushInvisible | crates/hamane-storage/src/store.rs:1618-1673 | Phase 3 of a flush changes no collection's contents, caches or name. |
| Maintenance.InstallCompactInvisible | crates/hamane-storage/src/store.rs:1780-1829 | Phase 3 of a compaction changes no collection's contents, caches or name. |
| Maintenance.FlushedBase | crates/hamane-storage/src/store.rs:1618-1655 | The flushed manifest stands for the records of the rotate moment under the names and collections of the flush moment. |
| Maintenance.CompactedBase | crates/hamane-storage/src/store.rs:1697-1829 | The compacted manifest stands for the same image as the manifest before it. |
| Window.WindowReplay | crates/hamane-storage/src/store.rs:774-840 | Swap-free windows: replaying the records logged since rotate on the flushed checkpoint gives the live state if and only if none used a collection that the window later drops; intermediate names may differ. |
| Window.RejectedIffUsedThenDropped | crates/hamane-storage/src/store.rs:797-859 | The replay is rejected exactly for a collection used and then dropped in the window; this needs no guard on swaps. |
| WindowNames.WindowReplayIff | crates/hamane-storage/src/store.rs:774-859 | Every window: the replay is rejected exactly for a collection used and then dropped, keeps all collections and records otherwise, and ends in the live state if and only if in addition every name returns. |
| WindowNames.NamesReturnIff | crates/hamane-storage/src/store.rs:797-840 | On a checkpoint under final names, replay ends in the live state exactly when every collection gets its own name back and no other stood under that name at its last naming; both are read off the window's records. |
| WindowNames.SwapFreeNamesReturn | crates/hamane-storage/src/store.rs:797-840 | Without swaps every name returns. |
| WindowNames.RenamedAfterSwap | crates/hamane-storage/src/store.rs:797-840 | A swap followed by renames of both collections: each has its own name, yet reopening loses a directory entry. |
| LogBehind.BehindIff | crates/hamane-storage/src/store.rs:774-859 | A window and any further records replayed on the flushed checkpoint: rejected exactly for a collection used and then dropped in the window, all records right otherwise, and all of it right if and only if the directory returns. |
| LogBehind.RightIff | crates/hamane-storage/src/store.rs:797-840 | The directory returns exactly when every collection has its name from a record or from a collection called the same before the window and at the checkpoint, no record takes a collection's entry after its last naming, and no name of the checkpoint stays behind unused; all read off the records. |
| LogBehind.DroppedAnyway | crates/hamane-storage/src/store.rs:797-840 | An inexact window can come right: it swapped the names of two collections that are dropped later. |
| Window.SwapWindowReplay | crates/hamane-storage/src/store.rs:819-840 | The special case of swaps and data records: right if and only if the swaps cancel out. |
| Window.SwapAppliedTwice | crates/hamane-storage/src/store.rs:1616-1655 | One swap in the window: after reopening, the two names are exchanged back. |
| Layers.LiveSomewhere | crates/hamane-storage/src/store.rs:325-373 | A lookup finds a row exactly when that row passes the liveness test of its rank, and then returns that row. |
| Layers.Get | crates/hamane-storage/src/store.rs:352-373 | The early-return loop over the layers computes the newest-wins lookup. |
| Layers.IsLive | crates/hamane-storage/src/store.rs:334-350 | The rank test is true exactly when no newer layer has the id, as row or as tombstone. |
| Layers.MergeDecides | crates/hamane-storage/src/store.rs:1697-1756 | A run decides an id exactly when its merge has a row or a marker for it. |
| Layers.PartialMergePreserves | crates/hamane-storage/src/store.rs:1697-1756 | Merging the newest run with carried tombstones gives the same lookups over any older suffix. |
| Layers.FullMergePreserves | crates/hamane-storage/src/store.rs:1697-1756 | A full merge may drop every tombstone, and its rows are exactly the live ids. |
| Layers.DroppingMarkersResurrects | crates/hamane-storage/src/store.rs:1740-1756 | Dropping tombstones while older segments remain would bring a deleted record back. |
| Segments.WrittenRoundTrip | crates/hamane-storage/src/segment.rs:149-268 | A segment written from a memtable has its columns ascending and shows the same rows and tombstones. |
| Segments.WriteSegment | crates/hamane-storage/src/segment.rs:149-268 | The writer's id and tombstone columns are ascending and, with the records, show the memtable they came from. |
| Segments.Search | crates/hamane-storage/src/segment.rs:1357-1428 | The binary search finds a row of the id, or proves there is none. |
| Segments.Probe | crates/hamane-storage/src/store.rs:248-275 | One segment decides an id exactly when it has a row or tombstone for it, with that row. |
| Segments.MergeRun | crates/hamane-storage/src/store.rs:1697-1756 | The merge loops over rows, seen and deleted ids compute the merge of the run; rows and carried tombstones are disjoint. |
| Memtables.Memtable.Upsert | crates/hamane-storage/src/memtable.rs:51-58 | The new value, disjointness of rows and deletes, and the byte count as the sum over the rows held. |
| Memtables.Memtable.Delete | crates/hamane-storage/src/memtable.rs:61-66 | The new value, disjointness of rows and deletes, and the byte count as the sum over the rows held. |
| StoreState.ApplyRefines | crates/hamane-storage/src/store.rs:772-871 | Applying a record to the layered state succeeds exactly when the plain maps accept it, ends in the same image, and keeps every cache right. |
| StoreState.ApplyAllRefines | crates/hamane-storage/src/store.rs:636-705 | Log replay on a freshly loaded state ends in the replayed image with right caches. |
| StoreState.FreshExtIdIsFree | crates/hamane-storage/src/store.rs:984-1018 | The id handed out next names no live record and no other string id. |
| StoreState.TrackedExt | crates/hamane-storage/src/store.rs:187-194 | A record's string id is tracked, and the next id to assign moves just past it if it has to. |
| Image.LegalKeepsConsistent | crates/hamane-storage/src/store.rs:896-1227 | Every legal call keeps names and collections in bijection. |
| Image.GoodLogReplayable | crates/hamane-storage/src/store.rs:774-791 | A log of legal calls is never rejected on replay. |
| Recovery.ReopenedIs | crates/hamane-storage/src/store.rs:636-705 | Reopening a disk shows the log replayed on the image of its checkpoint, or rejects it with it, whatever the log holds. |
| Recovery.LoadRefines | crates/hamane-storage/src/store.rs:636-705 | With unique string ids along the log the caches are right as well. |
| Recovery.BaseMemOk | crates/hamane-storage/src/store.rs:196-223 | Collections opened from segments have right caches. |
| Stores.Store.CurrentRecord | crates/hamane-storage/src/store.rs:248-275 | The newest-wins lookup of the collection, or nothing for an unknown collection. |
| Stores.Store.IsIdLive | crates/hamane-storage/src/store.rs:281-311 | True exactly for the ids the collection shows. |
| Stores.Store.Put | crates/hamane-storage/src/store.rs:792-818 | When the flag says whether the id was live, the collection shows the new record in place of the old one and its counters and dictionary stay right. |
| Stores.Store.ApplyRecord | crates/hamane-storage/src/store.rs:772-871 | Computes the specified state change, or rejects and changes nothing, for all seven record types. |
| Stores.Store.UpsertBatch | crates/hamane-storage/src/store.rs:1044-1079 | Logs exactly the batch and ends in its replay; an unknown collection changes nothing. |
| Stores.Store.DeleteBatch | crates/hamane-storage/src/store.rs:1230-1272 | Logs exactly the ids, ends in their replay, and returns by how much the collection shrank. |
| Stores.Store.LiveTargets | crates/hamane-storage/src/store.rs:1112-1165 | Exactly the updates whose record is live when its turn comes. |
| Stores.Store.UpdateMetadataBatch | crates/hamane-storage/src/store.rs:1112-1165 | Logs only updates of live records, ends in their replay and returns their number. |
| Stores.Store.CreateCollection | crates/hamane-storage/src/store.rs:896-928 | A taken name is refused without a trace; otherwise one record is logged and applied: the collection is empty, reachable under its name, with the dimension and metric asked for, and the others are untouched. |
| Stores.Store.DropCollection | crates/hamane-storage/src/store.rs:930-948 | An unknown name is refused without a trace; the collection goes, also from the waiting flush, and the others stay. |
| Stores.Store.RenameCollection | crates/hamane-storage/src/store.rs:1169-1198 | The two error cases and the no-op change nothing; otherwise one record is logged and only that collection has the new name. |
| Stores.Store.SwapCollectionNames | crates/hamane-storage/src/store.rs:1201-1227 | Unknown names are refused, a name swapped with itself logs nothing, otherwise one record is logged and exactly the two names are exchanged. |
| Stores.Store.Rotate | crates/hamane-storage/src/store.rs:1534-1563 | Rotates exactly when nothing waits and some memtable is not empty; rows move, none is lost. |
| Stores.Store.ReserveId | crates/hamane-storage/src/store.rs:984-1018 | A known string id keeps its id, a new one gets the next free id. |
| Stores.Store.ResolveRecords | crates/hamane-storage/src/store.rs:984-1018 | What is handed to the log is a call the state machine admits, and nothing visible changes. |
| Opening.ScanSegments | crates/hamane-storage/src/store.rs:196-223 | The scan counts the live records and rebuilds dictionary and next id from them. |
| Opening.LoadBase | crates/hamane-storage/src/store.rs:640-690 | The loaded collections and names are those of the manifest. |
| Opening.ReplayFile | crates/hamane-storage/src/store.rs:690-705 | Replays one file, stopping exactly at a record the state rejects. |
| Opening.LoadState | crates/hamane-storage/src/store.rs:636-705 | The whole recovery computes the specified one, for whatever log files are left over from before the manifest, and reports the greatest log number. |
| Flushing.PartialRun | crates/hamane-storage/src/store.rs:1697-1720 | The run picked is the longest whose segments are small enough to join, and at least the threshold long. |
| Flushing.FlushWork | crates/hamane-storage/src/store.rs:1566-1600 | The work list of phase 1 is numbered in ascending collection order. |
| Flushing.InstallSegments | crates/hamane-storage/src/store.rs:1655-1673 | Phase 3 of a flush on the mutable store is the specified state change. |
| Flushing.InstallMerged | crates/hamane-storage/src/store.rs:1780-1829 | Phase 3 of a compaction on the mutable store leaves everything that callers see as it was, with right caches. |
| Bytes.LeRoundTrip | crates/hamane-storage/src/format.rs:30-48 | Little-endian numbers read back. |
| Bytes.Reader.Take | crates/hamane-storage/src/format.rs:84-94 | Reads the next bytes and advances past them, or fails and reads nothing. |
| Wire.InsertUpdates | crates/hamane-storage/src/format.rs:241-258 | An insertion keeps every other entry and puts the new value under its key, which then occurs once. |
| Wire.DecodedOrdered | crates/hamane-storage/src/format.rs:241-258 | Decoded metadata is in key order, whatever order the bytes had. |
| Wire.ReadsMetadata | crates/hamane-storage/src/format.rs:205-258 | Encoded metadata reads back with every value and its end position. |
| Wire.RecordRoundTrip | crates/hamane-storage/src/wal.rs:76-189 | Decoding an encoded log record of any of the seven types gives it back, floats as bit patterns, for any UTF-8 test. |
| WalCodec.Encode | crates/hamane-storage/src/wal.rs:76-136 | The appending encoder writes the specified bytes. |
| WalCodec.DecodeRecord | crates/hamane-storage/src/wal.rs:140-189 | The cursor-driven decoder reads what the specification reads, and rejects trailing bytes. |
| Decoding.DecodedIs | crates/hamane-storage/src/wal.rs:140-189 | A body that decodes is the encoding of its record, apart from the order and repetition of metadata keys, the last of which counts: unknown tags, bad texts, booleans above one and trailing bytes are refused. |
| Decoding.PlainBody | crates/hamane-storage/src/wal.rs:140-189 | Each of the five records without metadata has exactly one body. |
| WalFile.CutFrameIsTorn | crates/hamane-storage/src/format.rs:156-176 | A frame cut short is never taken for a whole one, whatever the checksum function. |
| WalFile.DamagedTail | crates/hamane-storage/src/wal.rs:367-383 | All records before the first damaged frame are read, and `valid_len` is where it starts. |
| WalFile.DamagedFrame | crates/hamane-storage/src/wal.rs:367-383 | Overwrite the body of any frame by bytes with another checksum, or its checksum by another: exactly the frames before it are read, and `valid_len` is where it starts. |
| WalFile.ZeroTail | crates/hamane-storage/src/format.rs:156-176 | Zeros behind the last frame are not read as a frame, whatever the checksum function. |
| WalFile.TornTail | crates/hamane-storage/src/wal.rs:367-383 | For a cut at any byte after the magic, exactly the records whose frames end by the cut are read, and `valid_len` is the last such boundary. |
| WalFile.ReadAllFrames | crates/hamane-storage/src/wal.rs:367-383 | The reading loop computes the specified result, including its two error cases. |
| ManifestFormat.Encode | crates/hamane-storage/src/manifest.rs:57-80 | The appending encoder writes the specified bytes. |
| ManifestFormat.DecodeManifest | crates/hamane-storage/src/manifest.rs:83-140 | The cursor-driven decoder reads what the specification reads, for both format versions. |
| ManifestFormat.RoundTrip | crates/hamane-storage/src/manifest.rs:57-140 | Decoding an encoded manifest gives it back, for any checksum function. |
| Decoding.ManifestDecodesIff | crates/hamane-storage/src/manifest.rs:57-140 | A file of the current version decodes to a manifest if and only if it is the encoding of that manifest and its numbers fit. |
| Decoding.ManifestIs | crates/hamane-storage/src/manifest.rs:83-140 | A file of either version that decodes is magic, fields and their checksum; in version 1 segment numbers ascend. |
| ManifestFormat.BadChecksum | crates/hamane-storage/src/manifest.rs:83-95 | A manifest with a wrong checksum is never accepted. |
| GroupCommit.Keep | crates/hamane-storage/src/wal.rs:231-348 | Every step of every thread keeps: synced is durable, synced is appended, at most one leader, blocked only while a leader is at work. |
| GroupCommit.AcknowledgedIsDurable | crates/hamane-storage/src/wal.rs:260-290 | In every reachable state a thread whose wait returned has its record in the fsynced prefix. |
| GroupCommit.SomeoneCanStep | crates/hamane-storage/src/wal.rs:260-290 | While a thread waits some step is possible, and a blocked thread implies another thread that will notify it: no wakeup is lost. |
| GroupCommit.BoundedWaiting | crates/hamane-storage/src/wal.rs:260-290 | No run of n threads takes more than n(5n+1) + 5n steps inside `wait`, plus three for each spurious wakeup, however often fsync fails. |
| GroupCommit.SettledMeansReleased | crates/hamane-storage/src/wal.rs:260-290 | When nobody inside `wait` can step any more, nobody is left inside; if every fsync succeeded, everyone who came in was acknowledged. |
| GroupCommit.RoundReleases | crates/hamane-storage/src/wal.rs:270-290 | When a leader finishes a successful fsync, it and everyone it covered are acknowledged at their next look. |
| GroupCommit.LeaderCovers | crates/hamane-storage/src/wal.rs:265-280 | A record counted before the leader looked is covered by its fsync. |
| GroupCommit.RunCounts | crates/hamane-storage/src/wal.rs:313-318 | The counters are the numbers of records written and counted in the run. |
| Replicas.FramesOutcome | crates/hamane-storage/src/store.rs:725-745 | On the frames of any records: every record up to the first rejected one is applied, and the call succeeds, with the length of all frames, exactly if none is. |
| Replicas.BadFrameStops | crates/hamane-storage/src/store.rs:725-745 | A frame that does not decode, or whose record the state rejects, is an error; the frames before it stay applied. |
| Replicas.DamageStopsApplying | crates/hamane-storage/src/store.rs:725-745 | The same damage among fetched frames: the frames before it are applied as usual and nothing behind it is. |
| Replicas.Replica.ApplyWalFrames | crates/hamane-storage/src/store.rs:725-745 | On any bytes: applies the whole frames one by one and reports how far it came, or fails at the first bad frame. |
| Replicas.Replica.Follow | crates/hamane-server/src/replica.rs:215-226 | Another WAL number drops the pending bytes and resumes at the length of the local file. |
| Replicas.Replica.TailSync | crates/hamane-server/src/replica.rs:215-256 | On any bytes: a new file begins with the magic or is refused; frames before a rejected one are applied, and frames are stored only if none is rejected. On the primary's bytes, whether it goes on with a file or changes to another one, file and pending bytes stay aligned with those fetched, and it succeeds exactly if the store accepts every frame not stored yet. |
| Replicas.Replica.KeepsFollowing | crates/hamane-server/src/replica.rs:215-256 | While every frame is accepted, exactly the whole frames fetched are stored and applied after each poll. |
| Replicas.Replica.RestartReads | crates/hamane-storage/src/wal.rs:367-383 | Reading the local file back gives exactly the frames stored and its length, and nothing a failed poll applied beyond them. |
| Replicas.Replica.FullFetch | crates/hamane-server/src/replica.rs:215-256 | After the whole file was fetched the local file equals it, nothing is pending, and the state is its fold. |
| Polling.CutsAgreeIff | crates/hamane-server/src/replica.rs:215-256 | File and picture do not depend on how the bytes were cut into polls if and only if the store accepts every whole frame or rejects the very first one not stored yet. |
| Polling.AllAcceptedPolls | crates/hamane-server/src/replica.rs:215-256 | With every frame accepted, any cutting ends with all whole frames stored and applied. |
| Polling.RetriedSwap | crates/hamane-server/src/replica.rs:244-254 | A swap in front of a record of an unknown collection: applied once or twice, depending on the cuts, and never stored. |
| Meanings.FoldPrefix | crates/hamane-storage/src/store.rs:725-745 | Records the primary accepted are accepted by the follower up to any point. |
| Meanings.MeaningKeeps | crates/hamane-storage/src/wal.rs:140-189 | A record on the wire means the same call to the store: kind, collections, ids, numbers, dimension and metric are kept; only texts and metadata are read. |
| Meanings.MetaMeans | crates/hamane-storage/src/format.rs:241-258 | The metadata map holds exactly the entries of the record. |
| Following.FollowerOutcome | crates/hamane-server/src/replica.rs:126-141 | When the active log is the only one newer than the manifest, applying it to the copied checkpoint is rejected exactly if the last window used a collection and dropped it, gives the primary's records otherwise, and its picture if and only if the directory returns. |
| Following.CaughtUp | crates/hamane-server/src/replica.rs:126-141 | A follower that fetched all of it has the primary's file, collections and records, and the primary's picture if and only if the directory returns. |
| Following.RestartShows | crates/hamane-storage/src/store.rs:636-705 | A restart of the follower through `load_state` shows the frames stored locally on top of what its older logs lead to. |
| Following.RestartLoads | crates/hamane-storage/src/store.rs:636-705 | A follower that stored all it applied shows the same picture after a restart, with any older logs beside the one it follows. |
| Following.RestartAfterMove | crates/hamane-storage/src/store.rs:636-705 | In particular after moving on, with part of the old log and part of the new one in its directory. |
| Following.TornLogRecovers | crates/hamane-storage/src/wal.rs:367-383 | A crash that cuts the active log at any byte behind its fsynced part: `read_all` keeps the fsynced records and whole later ones, and reopening is that of a crash with so many frames surviving. |
| Following.MovesOn | crates/hamane-server/src/replica.rs:215-226 | A follower that moves on to a newer log keeps the picture of the part of the old log it had fetched. |
| Following.SkippedCreateStops | crates/hamane-server/src/replica.rs:244-254 | A new log that needs a collection the follower lacks makes its polls fail. |
| Skipping.SkippedRejectsIff | crates/hamane-server/src/replica.rs:126-141 | After moving on, the new log is rejected if and only if it needs a collection that the primary has by then and the follower has not, which is one the skipped part created. |
| Skipping.SameCollectionsIff | crates/hamane-server/src/replica.rs:126-141 | If it is accepted, both end with the same collections if and only if the new log creates or drops every one in which they differed. |
| Skipping.SkippedDataIff | crates/hamane-server/src/replica.rs:126-141 | For logs of all three data records: equal to the primary if and only if, for every id, the new log makes the same of the follower's entry as of the one the skipped part leaves. |
| Skipping.SkippedWritesIff | crates/hamane-server/src/replica.rs:126-141 | For writes and deletes: if and only if every id that the skipped part leaves changed is written again. |
| Skipping.SkippedTailIff | crates/hamane-server/src/replica.rs:126-141 | With nothing skipped follower and primary are always equal; otherwise exactly if the skipped records make no difference under the new log. |
| Skipping.SkippedRecord | crates/hamane-server/src/replica.rs:126-141 | A skipped write of a new id is lost; a skipped delete of an id that is not live is not missed. |
| SearchLayers.Visited.Insert | crates/hamane-index/src/hnsw.rs:129-146 | True exactly for the first visit; no other node changes. |
| SearchLayers.SearchLayer | crates/hamane-index/src/hnsw.rs:190-242 | Terminates; results are distinct, accepted, reachable, sorted, at most max(ef, entry points); fewer than ef means nothing reachable is missing; otherwise no accepted neighbour of a result is nearer than the furthest result. It is the run that keeps meeting the neighbours of the nearest open candidate until that one is further than the furthest of ef results. |
| SearchLayers.SearchUnique | crates/hamane-index/src/hnsw.rs:190-242 | There is only one such run. |
| SearchLayers.ClosedHoldsReach | crates/hamane-index/src/hnsw.rs:190-242 | A set that holds the entry points and is closed under neighbours holds everything reachable. |
| HnswGraphs.Search | crates/hamane-index/src/hnsw.rs:311-336 | The k nearest of the answer on the bottom level, whose starts come down level by level: the entry point on top, and on every other level the answer of the search above it, eight nodes wide; nothing for an empty graph. |
| HnswGraphs.DescentEnds | crates/hamane-index/src/hnsw.rs:325-331 | The descent ends at a node without a nearer neighbour on level 1, and with everything reachable there if that is no more than eight nodes. |
| HnswGraphs.SearchExact | crates/hamane-index/src/hnsw.rs:311-336 | If the bottom search is as wide as there is something to find, the answer is the k nearest accepted nodes that can be reached. |
| HnswGraphs.ValidCaps | crates/hamane-index/src/hnsw.rs:415-421 | No list of a valid graph is longer than m0 on the bottom level and m above it. |
| HnswGraphs.AnswerBest | crates/hamane-index/src/hnsw.rs:190-242 | A layer search never ends further away than an accepted entry point. |
| HnswSelection.Select | crates/hamane-index/src/hnsw.rs:151-181 | The two early-stopping passes compute the specified selection. |
| HnswSelection.SelectionFacts | crates/hamane-index/src/hnsw.rs:151-181 | Distinct candidates, exactly m of them unless there are fewer, the nearest always among them. |
| HnswSelection.SelectionPicked | crates/hamane-index/src/hnsw.rs:151-181 | The selection said without its passes: a first part in order and diverse, everyone else blocked by a nearer chosen node or too late for room, then the nearest of the rest in order. |
| HnswSelection.PickedUnique | crates/hamane-index/src/hnsw.rs:151-181 | The candidates and their distances determine that selection. |
| HnswSelection.PickedNearest | crates/hamane-index/src/hnsw.rs:151-181 | The nearest candidate comes first. |
| HnswSelection.GreedyDiverse | crates/hamane-index/src/hnsw.rs:151-181 | A chosen node is nearer to the query than to every node chosen before it. |
| HnswSelection.GreedyBlocked | crates/hamane-index/src/hnsw.rs:151-181 | A node passed over while there was room is at least as near to a chosen node as to the query. |
| HnswSelection.Extend | crates/hamane-index/src/hnsw.rs:490-512 | The candidates and their neighbours, each once, sorted. |
| HnswSelection.GreedyDescend | crates/hamane-index/src/hnsw.rs:261-292 | Terminates. On each level, from the highest down, it moves to the first of the nearest neighbours while that is nearer, and goes down from the local minimum where it stops; it never ends further away than the start. |
| HnswBuilding.PruneList | crates/hamane-index/src/hnsw.rs:514-532 | A list that grew too long becomes the pick of the heuristic from its nodes, by distance from its owner. |
| HnswBuilding.Builder.LinkLevel | crates/hamane-index/src/hnsw.rs:455-487 | The new node gets exactly the selected neighbours; each of them gains it at the end of its list, or by the heuristic pick if the list was full; nothing else changes. |
| HnswBuilding.Builder.Insert | crates/hamane-index/src/hnsw.rs:423-487 | The graph stays valid. By distance from the new node: above its level the start comes down to a local minimum; on every shared level its neighbours are the pick from the answer of a search in the level as it was, extended if so configured, starting from the answer above; only those neighbours gain it. |
| HnswBuilding.NearestLinked | crates/hamane-index/src/hnsw.rs:439-469 | If a level offers no more than the construction width, the first neighbour is the reachable node nearest to the new one. |
| HnswBuilding.LinkedNoFurther | crates/hamane-index/src/hnsw.rs:439-469 | On every level the first neighbour is no further from the new node than the start of the descent, nor than the entry point. |
| HnswBuilding.NearNodeKept | crates/hamane-index/src/hnsw.rs:469-478 | A new node that is nearer to a neighbour than its whole list stands in that list afterwards, however full it was. |
| HnswParallel.PruneIsCut | crates/hamane-index/src/hnsw.rs:848-862 | What a lock holder makes of a list that grew too long is the heuristic pick from it. |
| HnswParallel.NearBackLinkKept | crates/hamane-index/src/hnsw.rs:737-750 | Under the lock of the other end, a node nearer to it than its whole list is in the list when the lock is released. |
| HnswParallel.Keep | crates/hamane-index/src/hnsw.rs:684-862 | Every lock release of every interleaving keeps the list invariants. |
| HnswParallel.RunInv | crates/hamane-index/src/hnsw.rs:684-862 | The same over whole runs, which never change a level. |
| HnswParallel.BuildResult | crates/hamane-index/src/hnsw.rs:618-682 | A finished parallel build is a valid graph for the drawn levels, its entry point on the greatest level. |
| HnswParallel.EveryRowLinked | crates/hamane-index/src/hnsw.rs:684-800 | When all threads have finished, every row has had its own list written on every level it shares with the first row. |
| HnswParallel.BoundedBuild | crates/hamane-index/src/hnsw.rs:618-862 | Apart from reads inside searches, no run of any number of threads makes more than (levels)(cap + 4) + 3 steps for each row, and one for each thread. |
| HnswParallel.NeverStuck | crates/hamane-index/src/hnsw.rs:684-862 | A thread that is not done always has a step other than reading, so all threads finish. |
| HnswFormat.Serialize | crates/hamane-index/src/hnsw.rs:535-575 | The writing loops produce the specified layout. |
| HnswFormat.Open | crates/hamane-index/src/hnsw.rs:902-951 | The reader accepts exactly what the specification accepts. |
| HnswFormat.RoundTrip | crates/hamane-index/src/hnsw.rs:535-951 | Opening serialised bytes gives the same node count, entry, levels and lists, through padding and prefix sums. |
| HnswFormat.Neighbors | crates/hamane-index/src/hnsw.rs:965-980 | Binary search and offset slice return the graph's neighbour list, also for a node not on the level. |
| IvfFormat.WriteIvf | crates/hamane-storage/src/segment.rs:404-428 | The grouping and writing loops produce the specified layout. |
| IvfFormat.Partition | crates/hamane-storage/src/segment.rs:404-408 | The lists hold every row exactly once. |
| IvfFormat.OffsetsCut | crates/hamane-storage/src/segment.rs:416-426 | Two neighbouring offsets cut exactly one list out of the flat entries. |
| IvfFormat.RoundTrip | crates/hamane-storage/src/segment.rs:885-927 | Opening the written file passes every check and shows the same offsets and entries. |
| IvfFormat.OpenedIs | crates/hamane-storage/src/segment.rs:885-927 | What opens has the segment's dimension and row count in its header, at least one list, the right size, and the row count as last offset. |
| IvfFormat.WellFormedOpens | crates/hamane-storage/src/segment.rs:885-927 | Such a file opens, with offsets and entries where they stand. |
| IvfFormat.CandidateRows | crates/hamane-storage/src/segment.rs:749-765 | Exactly the rows of the probed lists, each once; probing all lists gives every row once; no list left out is nearer than a probed one. |
| Query.SearchFlat | crates/hamane-index/src/flat.rs:41-78 | The k smallest accepted candidates by (key, id). |
| Query.TopKUnique | crates/hamane-index/src/flat.rs:13-38 | A set has only one answer of that kind. |
| Query.MergeTopK | crates/hamane/src/collection.rs:701-737 | Cutting every source to its own top k first does not change the top k of the union. |
| Search.LiveHitsAreRows | crates/hamane-storage/src/store.rs:334-373 | Every live record is a live row of one source, with the same contents. |
| Search.SearchMemtable | crates/hamane/src/collection.rs:680-698 | A memtable contributes its own top k, of which the dead are dropped afterwards. |
| Search.SearchSegment | crates/hamane/src/collection.rs:814-838 | A flat segment contributes the top k of its live matching rows. |
| Search.RunSequential | crates/hamane/src/collection.rs:701-711 | The candidates are the union of the sources' contributions, without duplicates. |
| Search.Finalize | crates/hamane/src/collection.rs:714-737 | The top k of the candidates within the threshold. |
| Search.ThresholdMeaning | crates/hamane/src/collection.rs:714-737 | The test means distance at most, or score at least, the threshold, including negative L2 thresholds. |
| Search.NegativeThresholdNeedsItsCase | crates/hamane/src/collection.rs:714-737 | Without its sign test a negative L2 threshold would accept records. |
| Search.ThresholdCommutes | crates/hamane/src/collection.rs:714-737 | Filtering by threshold after the cut is filtering before it. |
| Search.LivePartsExact | crates/hamane/src/collection.rs:701-737 | Merging live top-k lists is exact on the filtered logical map. |
| Search.ExactWithoutPending | crates/hamane/src/collection.rs:680-737 | Without a waiting memtable a result is the merged answer if and only if it is the exact one. |
| Search.RunSearch | crates/hamane/src/collection.rs:519-536 | The whole search over flat sources computes the merged answer, exact when nothing waits. |
| PendingSearch.PendingExactIff | crates/hamane/src/collection.rs:680-698 | With a waiting memtable the answer is exact if and only if no live matching row of it is pushed out by rows that newer writes shadow. |
| PendingSearch.ExactWhenNothingShadowed | crates/hamane/src/collection.rs:680-698 | In particular it is exact when the active memtable shadows no waiting row. |
| PendingSearch.DisplacementHappens | crates/hamane/src/collection.rs:680-698 | A store in which the nearest live record is missed. |
| Scans.Walk | crates/hamane/src/collection.rs:410-492 | The k-way merge emits one page of the ascending list of live matching records above the cursor; a limit of zero is no limit. |
| Scans.PagesConcatenate | crates/hamane/src/collection.rs:1157-1180 | Pages of any positive size concatenate to the full scan. |
| Bulk.Scan | crates/hamane/src/collection.rs:1157-1180 | The page of live matching records of the collection, with their contents. |
| Bulk.ResolvesBack | crates/hamane/src/collection.rs:1023-1040 | The id reported for a live record resolves to that record. |
| Bulk.DeleteByFilter | crates/hamane/src/collection.rs:388-405 | Terminates, removes exactly the records that matched at the start, returns their number, touches no other collection. |
| Bulk.UpdateByFilter | crates/hamane/src/collection.rs:1062-1119 | Terminates and patches each record that matched at the start exactly once, even when it keeps matching: set keys have the new values, other removed keys are gone, all other keys, vectors and records are as before; refuses the reserved key. |
| Inversion.Invert | crates/hamane-core/src/opq.rs:276-327 | Returns a two-sided inverse, and refuses if and only if some column, when its turn comes, has no entry at or below the diagonal that reaches the threshold. |
| Inversion.PivotIsLargest | crates/hamane-core/src/opq.rs:288-297 | The pivot is the first row at or below the column with the greatest absolute entry. |
| Inversion.SwapProgress | crates/hamane-core/src/opq.rs:301-306 | Swapping rows keeps m = inv * A, and the reduction stays invertible. |
| Inversion.ScaleReduced | crates/hamane-core/src/opq.rs:308-312 | Dividing the pivot row keeps the finished columns and makes the pivot one. |
| Inversion.SubCleared | crates/hamane-core/src/opq.rs:314-325 | Eliminating a row clears its entry and keeps the finished columns. |
| Inversion.StateProgress | crates/hamane-core/src/opq.rs:287-326 | After any number of columns without a zero pivot the finished columns are those of the identity and the product laws hold. |
| Inversion.ZeroColumnKernel | crates/hamane-core/src/opq.rs:298-300 | A refusal at an exactly zero column gives a nonzero vector that the matrix maps to zero. |
| Inversion.InverseNoKernel | crates/hamane-core/src/opq.rs:276-327 | A matrix with a left inverse annihilates only the zero vector. |
| Inversion.InvertibleIff | crates/hamane-core/src/opq.rs:276-327 | A matrix has an inverse if and only if elimination never meets a zero column. |
| Inversion.RefusedInvertibleIff | crates/hamane-core/src/opq.rs:298-300 | A matrix without an inverse is always refused; an invertible one is refused if and only if the largest entry of some pivot column is nonzero but below the threshold. |
| Inversion.RefusedThoughInvertible | crates/hamane-core/src/opq.rs:298-300 | In every dimension there are invertible matrices that are refused. |
| Matrices.SubKeeps | crates/hamane-core/src/opq.rs:321-324 | A row subtraction on both sides keeps the product law. |
| Matrices.SubBack | crates/hamane-core/src/opq.rs:321-324 | The matching column addition undoes it. |
| ProductQuantization.Nearest | crates/hamane-core/src/pq.rs:433-443 | The first of the nearest centroids. |
| ProductQuantization.Encode | crates/hamane-core/src/pq.rs:428-458 | Every packed sub-code is the first nearest centroid, for even and odd counts, and the last half byte is zero. |
| ProductQuantization.DecodeInto | crates/hamane-core/src/pq.rs:461-468 | The output is overwritten with the named centroids in order. |
| ProductQuantization.DecodeEncode | crates/hamane-core/src/pq.rs:428-468 | Encoding a decoded code gives it back if and only if it is zero-padded and names the first of equal centroids. |
| ProductQuantization.EncodeDecodeEncode | crates/hamane-core/src/pq.rs:428-468 | What encoding wrote survives decoding and encoding again. |
| ProductQuantization.SameCode | crates/hamane-core/src/pq.rs:412-424 | Two zero-padded codes with equal sub-codes are the same bytes. |
| ProductQuantization.BuildSubTable | crates/hamane-core/src/pq.rs:505-527 | One entry for each sub-vector and centroid: its distance to the query part. |
| ProductQuantization.BuildTable | crates/hamane-core/src/pq.rs:480-502 | With 4 bits every byte value has the sum of the entries of its two nibbles; the odd last sub-vector has its own sixteen. |
| ProductQuantization.SumIsDistance | crates/hamane-core/src/pq.rs:461-551 | Table entries of a code add up to the distance to the decoded vector, for L2 and for dot products. |
| ProductQuantization.DistanceKey | crates/hamane-core/src/pq.rs:530-551 | The look-up sum, fused or not, is the per-sub-vector sum and the exact distance to the decoded vector. |
| ScalarQuantization.AbsDiffValue | crates/hamane-core/src/sq8.rs:180-182 | The two saturating differences combined are the absolute difference. |
| ScalarQuantization.HorizontalTotal | crates/hamane-core/src/sq8.rs:146-153 | The shuffled wrapping additions give the total of the lanes modulo the lane. |
| ScalarQuantization.MaddTotal | crates/hamane-core/src/sq8.rs:183-187 | The two unpacked halves together hold the product sum of the chunk. |
| ScalarQuantization.L2Scalar | crates/hamane-core/src/sq8.rs:110-117 | The sum of squared differences. |
| ScalarQuantization.DotScalar | crates/hamane-core/src/sq8.rs:121-129 | The sum of products and the sum of b. |
| ScalarQuantization.L2Avx2 | crates/hamane-core/src/sq8.rs:168-191 | Chunks modulo 32 bits, tail in full. |
| ScalarQuantization.DotAvx2 | crates/hamane-core/src/sq8.rs:195-219 | Products modulo 32 bits, the sum of b modulo 64 bits, tails in full. |
| ScalarQuantization.L2Neon | crates/hamane-core/src/sq8.rs:229-253 | Four accumulators of four lanes agree with two of eight. |
| ScalarQuantization.DotNeon | crates/hamane-core/src/sq8.rs:257-288 | The same for products, and for b in 32-bit lanes. |
| ScalarQuantization.ExactIff | crates/hamane-core/src/sq8.rs:60-64 | A kernel equals the plain loop if and only if the chunks together fit one lane. |
| ScalarQuantization.ShortIsExact | crates/hamane-core/src/sq8.rs:60-69 | Below 2065 chunks of 32 bytes, which covers the promised 66051 bytes, the chunks always fit. |
| ScalarQuantization.LongIsWrong | crates/hamane-core/src/sq8.rs:60-69 | From 2065 chunks on, the greatest difference everywhere is summed wrongly. |
| ScalarQuantization.L2Accum | crates/hamane-core/src/sq8.rs:66-84 | On every processor the plain sum of squares up to the promised length, and beyond it exactly when the chunks fit. |
| ScalarQuantization.DotAccum | crates/hamane-core/src/sq8.rs:89-107 | On every processor the plain sums up to the promised length. |

## Left out

- Runs.RunRefines: a run goes on after a crash only when reopening showed the acknowledged calls and the surviving frames; what reopening gives otherwise is stated at every crash point (`Runs.RecordsSurvive`), but no calls follow it: names and collections need not be in bijection then, which every call relies on.
- Runs.NothingAcknowledgedIsLost: `SyncPolicy::Always` only, because `rotate` does not fsync the old log and `EveryN` acknowledges before the fsync; creating a log file is one atomic step, since a file shorter than its magic is refused.
- Segments.WrittenRoundTrip: the columns as values; their byte files and the directory rename are not modelled, the rename's atomicity is a step of the state machine.
- Segments.WriteSegment: the id, tombstone and record columns as values; index and quantised files, their bytes and the directory rename are not modelled.
- Replicas.Replica.TailSync: the fetch returns the bytes of the primary's file from an offset; HTTP, I/O errors, `snapshot_sync` with its file copying, and `switch_generation` are not modelled.
- Skipping.SkippedTailIff: when directory records were skipped and the new log is accepted all the same, it is decided which collections differ (`Skipping.SameCollectionsIff`) but not, record by record, which names do.
- Following.CaughtUp: the manifest is the one the follower has copied and the active log the only one newer than it; how a reader turns UTF-8 bytes and float bit patterns into values is left open; manifests are joined to the store as values, not as bytes.
- Stores.Store.UpsertBatch: the log of the mutable store is a list of records and appending is one step; frames, fsync and crashes are in the state machine, bytes in the codec modules. Collections are values in a map that the methods reassign, not objects shared by reference.
- Stores.Store.ResolveRecords: numeric ids from callers are below the assigned range and carry no `_ext_id`; the store itself does not check this.
- HnswParallel.Keep: what a thread's unlocked search sees is left open, so which nodes it considers is not known; its pick from them, and every list cut under a lock, is that of the heuristic.
- HnswBuilding.Builder.Insert: levels are drawn by the caller; the random source is a parameter.
- SearchLayers.Visited.Insert: words are lists of 64 booleans; shifts and masks are not modelled.
- Query.SearchFlat: heaps are their ordered contents; the heap's own array layout and the library sorts are not modelled.
- WalFile.TornTail: CRC32C is any 32-bit function and UTF-8 any predicate.
- Inversion.Invert: arithmetic over the reals; conversions between widths and rounding are exact.
- ProductQuantization.DistanceKey: sums over the reals; the order of additions and rounding do not matter there.
- ScalarQuantization.L2Accum: 64-bit totals do not wrap for inputs below 2^47 bytes, so they are unbounded here; alignment and feature detection are a parameter.
- IvfFormat.CandidateRows: centroid distances and their sort are inputs; k-means and the choice of list count are not modelled.
- I/O errors, `maint_error`, backpressure, retries, in-memory mode, file locking, mmap and directory fsync: crashes are modelled, failing calls are not.
- Distances are keys of a total order (reals): NaN and floating-point rounding are not modelled; key and score convert exactly.
- Filters are arbitrary predicates on metadata; metric dispatch and option validation are left to the callers.
- Parallel and batched searches, SQ8 and IVF-PQ search with rerank: they return approximate answers with no exact claim.
- k-means, OPQ training, Jacobi and polar iterations: numerically approximate, no exact claim.
- Backup, CLI, Python bindings, HTTP handlers, authentication: wrappers.
