# Queel, verified

A Dafny model of the queel database (`api/queel`) and of the worker that closes scheduled rounds
(`api/scheduled_close.go`), with proofs of what they promise. `dafny verify dfyconfig.toml` checks all of it.

## What is modelled

**Storage engine** (`Bytes`, `Sorting`, `Memtable`, `Binary`, `SSTable`, `Wal`, `EngineModel`, `EngineRuns`,
`EngineNumbering`, `EngineCompaction`, `EngineTorn`, `Engine`). A skip-list memtable on the heap, a write-ahead log and sorted runs as bytes, a
full compaction. `EngineModel` is the engine as a state machine over byte contents, with a fault at every point a
write can fail or crash at; `Engine` is the object with its loops, each method proved to make the model's step.
The main result is that the engine shows one plain map through any history of writes, flushes, crashes, restarts
and compactions, under an exact condition on file numbers. `EngineNumbering`, `EngineCompaction` and `EngineTorn`
say exactly which flushes, compactions, interrupted compactions and torn writes survive, with concrete histories of
those that do not.

**Replication** (`Ring`, `RingStability`, `Replication`, `QuorumHistory`, `Coordinator`, `Decommission`). The
consistent-hash ring, majority writes and reads, read repair, batches, scans and the handoff of a departing node.
`Replication` and `QuorumHistory` give every operation as a function of which calls arrive and which are
acknowledged; `Coordinator` and `Decommission` have the loops. The main results are that acknowledged writes are
seen by every later successful read, and that a node that completed its handoff may leave without losing any.

**Anti-entropy** (`Merkle`, `AntiEntropy`). Merkle trees, their comparison, and the exchange that makes two
replicas agree.

**Gossip** (`Membership`). Views as a join semilattice, the exchange of views, verdicts, the worker's leader.

**Voting** (`Splicing`, `SpliceLaws`, `Deliberation`, `DeliberationSteps`, `DeliberationRuns`, `DeliberationLaws`,
`Outcomes`, `Versions`, `Labels`, `Scans`, `Repository`, `ScheduledClose`). Texts, rounds, slots, fragments, votes, labels and
subscriptions. `Deliberation` has the store, what each operation writes and the invariant; `DeliberationSteps`
and `DeliberationRuns` prove that every operation keeps it; `Outcomes` says what each call adds, changes and removes as
its caller sees it; `Scans` and `Repository` have the loops.

## How it is modelled

- Keys, node names and ids are byte strings, compared as `bytes.Compare` does; a text's content is its sequence of
  runes. Timestamps, incarnations and creation times are unbounded integers.
- `sort.Slice` promises a sorted permutation and nothing about ties; a map is iterated in any order.
- Instants, ids, random levels and hashes are parameters. Hash assumptions are named where they are used:
  `DistinctHashes` for ring points, `NoCollision` and `Distinguishes` for trees.
- A call to a peer is acknowledged, lost, or applied without being acknowledged; a batch fails with a prefix of it
  applied. Operations of the coordinator do not overlap in time, and their timestamps rise.
- The log and the runs are byte sequences. In the engine's steps a write of either happens whole or not at all;
  `EngineTorn` says what a write cut short leaves. Record fields are big-endian 32-bit lengths; what does not fit is
  part of the exact round-trip conditions.
- The repository's key families are separate maps, which is what keys with a fixed prefix and ids free of `/`
  amount to; labels are not free of it, so the label index is scanned by prefix. A write batch is one step. `issued`
  collects the ids handed out, so that a new one is new. Nobody has the user id `seed`.
- In a loop that collects a batch, the reads see the store as it was and the batch is built up beside it.
- A failing store call in the repository writes nothing; only a proposal makes more than one write, and may stop after
  any of them.

## Where code and comments differ

The model follows the code.

- `api/queel/cluster/antientropy.go:115-121` says tombstones are not reconciled. Replicated deletes are ordinary
  engine values with a flag set, so they are scanned, compared and exchanged like any other entry.
- `api/queel/engine.go:54` numbers the next run by the count of files found. After a compaction the one file left
  has a higher number than that; `ReopenAfterCompactLosesWrite` is a history in which a restart then shows an older
  value, and `FlushSurvivesExactlyWhen` and `FreshExactlyWhenDense` say exactly when numbering is safe. From an empty
  directory it is exactly as long as nothing is reopened after a compaction that merged runs (`DenseReopensExactly`).
- `api/queel/compaction.go:25-45` writes the merged run under the next number and then removes the old files by path.
  When the count has given it a number in use, it truncates that run and removes its own output:
  `SecondCompactLosesEverything` is a history after which nothing is left, and `MergedRunSurvivesExactlyWhen` and
  `CompactionSafeExactlyWhen` say exactly when a compaction is safe.
- `api/queel/compaction.go:9-12` says a tombstone has nothing left to shadow after a compaction. The old runs are
  removed newest first, so one that stops part way can leave a value whose tombstone is gone;
  `InterruptionRevivesDeleted` shows it, `InterruptionSafeExactlyWhen` says exactly when that cannot happen, and
  `OldestFirstIsSafe` that it never could in the opposite order.
- `api/queel/repository.go:855-861` promises the texts carrying all labels, the listing of recent texts narrowed. A
  label may contain `/` (`api/queel/tags.go:74-76`), and the scan for `a` then also meets the entries of `a/b`: a text
  is listed that does not carry `a`, or twice (`ListsTaggedExactly`, `ExtendedLabelIsListed`).
- `api/queel/cluster/membership.go:30-33` says a restarted node's claim to be alive always outranks what peers held.
  It does exactly when its new incarnation is higher than theirs (`RestartBelievedExactly`).
- `api/queel/cluster/antientropy.go:107-113` promises that the newer of two entries wins. Two different entries
  under one timestamp are left as they are on both sides; `Reconcile` ends in agreement exactly without such a tie.

## Model

| member | source | states |
|---|---|---|
| `Bytes.LessTrichotomy` | api/queel/memtable.go:114-120 | The byte-string order keys are sorted by is a strict total order: exactly one of less, equal, greater. |
| `Bytes.LessExactly` | api/queel/memtable.go:114-120 | It is the lexicographic order: a key comes before another exactly if it is a proper prefix of it or has the smaller byte where they first differ. |
| `Bytes.ListingUnique` | api/queel/memtable.go:106-120 | A set of bindings has one listing in strictly ascending key order, so what a listing is does not depend on how it was sorted. |
| `Sorting.SortSlice` | api/queel/sstable.go:29-31 | What the callers of `sort.Slice` may rely on: sorted by a strict weak order, and a permutation of the input; nothing about ties. |
| `SkipList.InsertLinked` | api/queel/memtable.go:61-82 | Linking a tower of any height in after its predecessors keeps every level a sorted sublist of the one below: each link leads to the next position tall enough for its level. |
| `SkipList.Memtable.constructor` | api/queel/memtable.go:28-33 | A new memtable is well formed and holds nothing. |
| `SkipList.Memtable.Walk` | api/queel/memtable.go:46-53 | Descending from the top level finds, on every level, the last tower before the key, and the key's place in the bottom list. |
| `SkipList.Memtable.Put` | api/queel/memtable.go:45-83 | For every choice of the new tower's height the contents become the old map with the key bound, all levels stay linked and sorted, and `size` stays the sum of key and value lengths. |
| `SkipList.Memtable.Get` | api/queel/memtable.go:87-99 | The multi-level search returns exactly the map lookup: the value and its tombstone flag, or absence. |
| `SkipList.Memtable.Entries` | api/queel/memtable.go:114-120 | Walking the bottom level yields the one ascending listing of the map the memtable holds. |
| `SkipList.Memtable.RandomLevel` | api/queel/memtable.go:35-41 | Whatever the coin tosses, a tower is between one and the maximal number of levels high. |
| `Binary.ReadBack` | api/queel/wal.go:28-51 | The four bytes written for a length read back as that length, whatever follows, for every length below 2^32. |
| `Binary.WriteBack` | api/queel/wal.go:75-111 | Four bytes read as a length are the bytes written for it: the encoding loses nothing in either direction. |
| `Binary.BigEndian` | api/queel/wal.go:28-51 | The most significant byte comes first: the order of encoded lengths as byte strings is that of the numbers. |
| `SortedRuns.RoundTripExactly` | api/queel/sstable.go:29-79 | A file of records decodes to exactly the rows written if and only if every key length fits 32 bits and every value length is below the tombstone marker (a tombstone carrying no value). |
| `SortedRuns.FileParsed` | api/queel/sstable.go:126-165 | Whatever a file decodes to, encoding that again gives the file: no two files hold the same rows. |
| `SortedRuns.TornFileExactly` | api/queel/sstable.go:83-122 | A run file cut short anywhere opens exactly if the cut is between two records. |
| `SortedRuns.WriteSSTable` | api/queel/sstable.go:29-79 | Sorts the entries, writes the file of their one listing and returns the index holding each row's key and byte offset. |
| `SortedRuns.OpenSSTable` | api/queel/sstable.go:83-122 | Reads back the very index writing returned for the rows in the file; fails exactly on a file that does not decode. |
| `SortedRuns.Entries` | api/queel/sstable.go:126-165 | The sequential reader returns the decoded rows and fails on exactly the files the decoder rejects. |
| `SortedRuns.SearchIndex` | api/queel/sstable.go:170-174 | Binary search finds the first index entry whose key is not less than the one sought. |
| `SortedRuns.Get` | api/queel/sstable.go:169-205 | Searching the index and reading at the offset agrees with looking the key up in the map of all rows of the file. |
| `WriteAheadLog.ParseAppended` | api/queel/wal.go:28-51 | Appending a record to any readable log appends exactly that operation to what replay reads. |
| `WriteAheadLog.TornAppendExactly` | api/queel/wal.go:75-111 | A log whose last append was cut short replays exactly if none or all of the record is there; otherwise replay fails. |
| `WriteAheadLog.Append` | api/queel/wal.go:28-51 | The log grows by the encoded record and nothing else changes in it. |
| `WriteAheadLog.ReplayWAL` | api/queel/wal.go:75-111 | Replay applies the decoded operations in order, later ones winning, and fails exactly on a log that does not decode. |
| `EngineModel.ReplayTwice` | api/queel/engine.go:216-230 | Replaying a log over a run that already holds the same writes shows the same values: a crash between writing the run and resetting the log loses nothing and repeats nothing. |
| `EngineModel.WrittenRun` | api/queel/engine.go:216-230 | A flushed memtable reads back from its file as exactly the map it was. |
| `EngineModel.AppendKeeps` | api/queel/engine.go:102-124 | Logging and holding a write shows the plain map with that write, and a crash right after logging would recover the same. |
| `EngineModel.RunKeeps` | api/queel/engine.go:216-230 | Writing the memtable as a run under a number above all others, with the log reset or not, changes nothing that is shown. |
| `EngineModel.RunSound` | api/queel/engine.go:216-230 | While the engine runs, a flush under any number not in use, also one below others, changes nothing that is shown. |
| `EngineModel.ReopenKeeps` | api/queel/engine.go:32-71 | Opening the directory again recovers exactly what was shown before. |
| `EngineRuns.CompactionInvisible` | api/queel/compaction.go:53-74 | Dropping every tombstone of a stack of runs changes nothing that is shown under any memtable laid over it. |
| `EngineRuns.CompactKeeps` | api/queel/compaction.go:15-48 | A completed compaction whose run gets a number not in use shows the same map, and so does a restart after it: no `Get` or `Scan` changes. |
| `EngineRuns.CompactSound` | api/queel/compaction.go:15-48 | The same of an engine that need not be recoverable as it is: what the running engine shows does not change. |
| `EngineRuns.WriteKeeps` | api/queel/engine.go:102-124 | A put or delete, failing or crashing at any point between logging and resetting the log, leaves the map with that write, or without it exactly if the log append failed; an append happens whole or not at all here (see `EngineTorn.FailedSyncShows` and `EngineTorn.TornAppendExactly`). |
| `EngineRuns.WriteSound` | api/queel/engine.go:102-124 | While the engine runs, a put or delete shows the plain map with that write even if its flush goes below other runs, as long as the number is not in use. |
| `EngineRuns.HistoryRefinesMap` | api/queel/engine.go:102-230 | Through any history of writes, flushes, crashes, restarts and compactions in which every flush gets a number above all files and every compaction one not in use, the engine shows the plain map built from the same events. |
| `EngineRuns.FreshExactlyWhenDense` | api/queel/engine.go:54-54 | The file count taken on opening is above all file numbers if and only if the files are numbered 0..n-1. |
| `EngineRuns.DenseHistoryRefinesMap` | api/queel/engine.go:32-71 | If each opening finds densely numbered files, any history with crashes and compactions shows the plain map. |
| `EngineRuns.DenseReopensExactly` | api/queel/engine.go:32-71 | From an empty directory every opening finds densely numbered files if and only if none comes after a compaction that merged runs. |
| `EngineRuns.HistoryFromNewRefinesMap` | api/queel/engine.go:32-230 | From an empty directory, with no opening after a compaction that merged runs, every history of encodable writes shows the plain map. |
| `EngineRuns.FlushOnlyHistoryRefinesMap` | api/queel/engine.go:216-230 | Without compactions every history of encodable writes from an empty directory shows the plain map, wherever it crashes or restarts. |
| `EngineNumbering.FlushSurvivesExactlyWhen` | api/queel/engine.go:216-230 | A flush under a given number is still what a restart shows, for every memtable, if and only if no file numbered above it binds any key and a file it would replace shows nothing that the others do not. |
| `EngineNumbering.ReopenAfterCompactLosesWrite` | api/queel/engine.go:54-54 | A concrete history in which numbering by file count fails: after a compaction and a restart, a newer write goes into a file numbered below the compacted one and the next restart shows the older value. |
| `EngineNumbering.MergedRunSurvivesExactlyWhen` | api/queel/compaction.go:25-45 | The merged run survives the removal of the old ones if and only if its number was not in use; if it was, no file is left, and only the memtable, or after a restart the log, is shown. |
| `EngineNumbering.CompactionSafeExactlyWhen` | api/queel/compaction.go:25-45 | A compaction changes nothing that is shown, for every memtable, if and only if its number is not in use or the runs show nothing. |
| `EngineNumbering.SecondCompactLosesEverything` | api/queel/compaction.go:25-45 | The same history with one more compaction ends with an empty directory and shows nothing, where the plain map has two keys. |
| `EngineCompaction.InterruptionSafeExactlyWhen` | api/queel/compaction.go:40-45 | A compaction that stops when some of the old files are removed, newest first, is invisible to a restart whatever is logged, if and only if no key the stack holds deleted has a value in the files that are left. |
| `EngineCompaction.OldestFirstIsSafe` | api/queel/compaction.go:40-45 | Removing the old files oldest first would be invisible to a restart wherever it stopped. |
| `EngineCompaction.InterruptionRevivesDeleted` | api/queel/compaction.go:40-45 | A value in one run, its deletion in the next: stopping between the two removals, a restart shows the value again. |
| `EngineTorn.TornAppendExactly` | api/queel/wal.go:28-51 | After a crash in the middle of an append the engine opens again if and only if none or all of the record is there, and shows the map without or with the write. |
| `EngineTorn.TornFlushExactly` | api/queel/engine.go:216-230 | After a crash in the middle of writing a run the engine opens again if and only if the cut is between two records, and then shows what it showed: the log still has it all. |
| `EngineTorn.FailedSyncShows` | api/queel/wal.go:47-50 | A write that failed only on syncing is not shown by the running engine but is after a restart; the two agree exactly if the write changes nothing. |
| `StorageEngine.Engine.Open` | api/queel/engine.go:32-71 | Loads the runs newest first and replays the log into a fresh memtable: the state the model prescribes, or an error exactly when some file or the log does not decode. |
| `StorageEngine.ExistingSSTables` | api/queel/engine.go:73-99 | The files found, each once, in ascending order of their numbers. |
| `StorageEngine.Engine.Put` | api/queel/engine.go:102-111 | Logs, holds and possibly flushes the write, ending in the state the model gives for it, faults included; if the format holds its lengths and a due flush hits no file in use, the map shown is the old one with the key bound to the value. It returns an error exactly if the append fails, or a flush that is due. |
| `StorageEngine.Engine.Delete` | api/queel/engine.go:115-124 | The same for a tombstone: the map shown is the old one without the key. |
| `StorageEngine.Engine.MaybeFlush` | api/queel/engine.go:216-230 | Flushes exactly when the held bytes reach the limit, and returns an error exactly if that flush fails; the log is reset only after the run is written. Unless it hits a file in use every run stays loaded with its index. |
| `StorageEngine.Engine.Get` | api/queel/engine.go:146-171 | Memtable first, then runs newest first, stopping at the first that knows the key: exactly the lookup in the map shown. |
| `StorageEngine.Engine.Scan` | api/queel/engine.go:186-214 | The ascending listing of the shown map restricted to the prefix, tombstoned and shadowed values excluded. |
| `StorageEngine.SearchRuns` | api/queel/engine.go:154-169 | Searching the runs from the newest decides as the overlay of all of them does. |
| `StorageEngine.MergeSSTables` | api/queel/compaction.go:53-74 | Overwriting oldest to newest and dropping tombstones yields the merged map, sorted, each key once. |
| `StorageEngine.Engine.Compact` | api/queel/compaction.go:15-48 | Two or more runs become one under the next number and the old files are removed by number; fewer are left alone. Under a number not in use the map shown stays the same, and the one file left holds no tombstone. |
| `HashRing.NewRing` | api/queel/cluster/ring.go:39-60 | A hundred points per distinct node, exactly theirs, in order of their hashes, and the factor capped at the number of nodes; strictly rising, and so the one such ring, where no two points are tied. |
| `HashRing.ReplicasFor` | api/queel/cluster/ring.go:65-84 | The walk from the first point at or after the key's hash, wrapping around, collects exactly the first distinct nodes in that order, up to the replication factor. |
| `RingStability.OrderCovers` | api/queel/cluster/ring.go:65-84 | Every key induces an order of all nodes, each exactly once, also where point hashes are tied. |
| `RingStability.ReplicasAreFirst` | api/queel/cluster/ring.go:65-84 | The replicas of a key are the first min(factor, n) nodes of its order, all different. |
| `RingStability.OrderIsClockwise` | api/queel/cluster/ring.go:65-84 | A key prefers one node to another only if the first has a point that comes before all of the second, going up from the key's hash and round past the highest point. |
| `RingStability.OrderWithout` | api/queel/cluster/ring.go:39-84 | Where no two points are tied, removing a node from the ring removes it from each key's order and moves nothing else. |
| `RingStability.ReplicasWithout` | api/queel/cluster/ring.go:39-84 | After a node leaves, every surviving replica of a key remains one, in the same order, and at most one new replica appears; keys it did not hold keep their replicas. |
| `Coordination.Replica.HandlePut` | api/queel/server/internal.go:35-53 | A replica stores an entry over whatever it held without comparing timestamps: it ends with something older than it held, under any key, exactly if it held something newer under this one. |
| `Coordination.Replica.HandlePutBatch` | api/queel/server/internal.go:59-79 | A replica stores a batch item by item; a failing batch leaves a prefix of it stored. |
| `Coordination.CoveredExactly` | api/queel/cluster/coordinator.go:309-347 | The answers to a scan include, for whatever timestamp a quorum holds under a key, that one or a later one, in every state of the cluster, if and only if fewer than a quorum of the key's replicas are silent. |
| `Replication.BestIsNewest` | api/queel/cluster/coordinator.go:217-271 | The winning answer of a read is one of the answers and none of them is newer. |
| `Replication.BestInAnyOrder` | api/queel/cluster/coordinator.go:217-271 | If equal timestamps mean the same write, the winner does not depend on the order in which answers arrive. |
| `Coordination.Coordinator.SetMembers` | api/queel/cluster/coordinator.go:38-57 | The ring is rebuilt for the new nodes and each node keeps the client it had; tied points or not. |
| `Coordination.Coordinator.Write` | api/queel/cluster/coordinator.go:82-118 | Success exactly when more than half of the replicas acknowledged; what it stores is `WriteOutcome`; an error tells no replicas from no quorum. |
| `Coordination.WriteOutcome` | api/queel/cluster/coordinator.go:82-118 | Every replica whose put was not lost stores the entry under its key, and nothing else changes anywhere. |
| `Coordination.Coordinator.Get` | api/queel/cluster/coordinator.go:217-271 | Succeeds exactly when more than half of the replicas answer; then it shows the value of a newest entry among their answers, nothing if that is a tombstone or there is none, and leaves that entry with each of them that answered with an older one or none, if its put arrives; otherwise it changes nothing. |
| `Coordination.HeldIsRead` | api/queel/cluster/coordinator.go:217-271 | What a successful read shows is the value, or the deletion, of an attempted write at least as new as anything a quorum holds. |
| `Coordination.EstablishedIsRead` | api/queel/cluster/coordinator.go:72-289 | After an acknowledged write or a fully repaired read, what every later successful read shows is that write or a later attempted one. |
| `Coordination.LatestIsRead` | api/queel/cluster/coordinator.go:72-289 | If the latest attempt on a key was acknowledged by a quorum, every later successful read shows its value, or nothing if it was a delete. |
| `Coordination.Coordinator.ReadRepair` | api/queel/cluster/coordinator.go:277-289 | The winner is pushed to exactly the replicas that answered with something older or nothing. |
| `Coordination.Coordinator.WriteBatch` | api/queel/cluster/coordinator.go:126-192 | Items are grouped by replica and sent once per node; success exactly when every key was stored by a quorum of its replicas. |
| `Coordination.BatchReachedIs` | api/queel/cluster/coordinator.go:160-192 | A key of a batch counts as written exactly if more than half of its replicas acknowledged their request. |
| `Coordination.BatchOutcome` | api/queel/cluster/coordinator.go:126-160 | A node that acknowledged its request holds the last item of each key it is responsible for, and has the rest as it was. |
| `Coordination.Coordinator.Scan` | api/queel/cluster/coordinator.go:309-347 | Merges the answering nodes' entries by newest timestamp and shows those that are not tombstones; an error only when nobody answers. |
| `Coordination.ScanSees` | api/queel/cluster/coordinator.go:309-347 | With fewer than a quorum of a key's replicas silent, what a scan decides on for the key, shown or hidden as deleted, is at least as new as anything a quorum holds. |
| `Coordination.EstablishedIsScanned` | api/queel/cluster/coordinator.go:72-347 | After a write acknowledged by a quorum, and any run of operations, such a scan decides on that write or a later one. |
| `QuorumHistory.StepClimbs` | api/queel/cluster/coordinator.go:82-289 | With rising timestamps no operation makes any replica's entry older, and what replicas hold is always some attempted write. |
| `QuorumHistory.QuorumIsLeast` | api/queel/cluster/ring.go:91-96 | The quorum is the least number at which any two groups of that many replicas share one. |
| `QuorumHistory.PutClimbsExactly` | api/queel/server/internal.go:35-53 | A put makes no replica fall behind if and only if it reaches none that holds something newer under the key. |
| `QuorumHistory.StepEstablishes` | api/queel/cluster/coordinator.go:82-289 | A write, batch or fully repaired read that succeeds leaves a quorum holding its timestamp or a later one. |
| `QuorumHistory.HeldThroughRun` | api/queel/cluster/coordinator.go:82-289 | What a quorum holds it keeps holding, that timestamp or later, through any run of non-overlapping operations. |
| `QuorumHistory.ReadSees` | api/queel/cluster/coordinator.go:217-271 | A successful read returns an attempted write at least as new as anything a quorum holds. |
| `QuorumHistory.EstablishedIsSeen` | api/queel/cluster/coordinator.go:72-289 | After an acknowledged write or a fully repaired read, every later successful read returns that write or a later attempted one, whichever replicas answer in whatever order. |
| `QuorumHistory.LatestIsReturned` | api/queel/cluster/coordinator.go:72-289 | If the latest attempt on a key was acknowledged by a quorum, it is the entry every later successful read chooses. |
| `Leaving.Decommission` | api/queel/cluster/decommission.go:30-77 | Scans the leaver's store and offers each entry to its future replicas. It succeeds if and only if another node is alive and, for each entry, every future replica answers and acknowledges the entry wherever it has none as new; then the handoff is complete and counted. Tied points or not. |
| `Leaving.Offer` | api/queel/cluster/decommission.go:55-72 | An entry is pushed exactly to a replica that answers and lacks it or holds an older one; a failure exactly if the replica does not answer, or does not acknowledge an entry it was to take. |
| `Leaving.HandOffKey` | api/queel/cluster/decommission.go:47-74 | One entry to all its replicas on the ring without the leaver, stopping at the first failure, counting what was pushed; no failure exactly if each replica answers and acknowledges what it was to take. |
| `Leaving.CompleteIsHandedOff` | api/queel/cluster/decommission.go:30-77 | A completed handoff leaves every future replica of every key of the leaver with that entry or a newer one, and nothing anywhere older. |
| `Leaving.LeavingKeepsHeld` | api/queel/cluster/decommission.go:30-77 | Whatever a quorum held on the old ring, a quorum of the ring without the leaver holds after the handoff, for any cluster size and replication factor. |
| `Leaving.LeavingSafely` | api/queel/cluster/decommission.go:30-77 | Leaving safely: once the node is gone from the ring, and after any further run there, every successful read still sees each write that had reached its quorum, or a later one. |
| `Merkle.BitTest` | api/queel/merkle/tree.go:56-58 | The bit test for a power of two recognises exactly the powers of two among positive counts. |
| `Merkle.Build` | api/queel/merkle/tree.go:52-71 | Succeeds exactly on a power-of-two number of leaves, with every inner hash that of its two children, ending in one root. |
| `Merkle.DiffNode` | api/queel/merkle/tree.go:114-124 | Appends, in ascending order, exactly the leaves below the node all of whose ancestors up to it differ; at most 1 + 2 d l calls for d leaves found l levels down. |
| `Merkle.ReachedExactlyWithoutCollision` | api/queel/merkle/tree.go:101-124 | The leaves reached through differing nodes are all the leaves that differ if and only if no two different pairs of children in the same place share a hash. |
| `Merkle.InjectiveHasNoCollision` | api/queel/merkle/tree.go:33-38 | An injective pair hash has no such collision. |
| `Merkle.Diff` | api/queel/merkle/tree.go:101-112 | Fails exactly on different leaf counts; otherwise reports only leaves that differ, ascending, all of them exactly when nothing collides, none exactly when the roots agree, within 1 + 2 d log2(n) node visits. |
| `AntiEntropy.LeafHash` | api/queel/cluster/antientropy.go:80-105 | A bucket's hash is that of the one sorted listing of what is in it, whatever order its entries were met in; the empty bucket included. |
| `AntiEntropy.BuildTree` | api/queel/cluster/antientropy.go:46-72 | Partitions the listing into buckets, each key in the bucket of its hash exactly once, and builds the tree over the bucket hashes; fails exactly when the bucket count is not a power of two. |
| `AntiEntropy.ReconcileKey` | api/queel/cluster/antientropy.go:160-195 | The newer entry of one key goes to the side that lacks it, counted when it arrived; equal timestamps and lost transfers change nothing. |
| `AntiEntropy.FindDivergent` | api/queel/cluster/antientropy.go:122-141 | Reports only buckets whose hashes differ, and every bucket in which the stores differ when the hashes tell them apart. |
| `AntiEntropy.Reconcile` | api/queel/cluster/antientropy.go:122-199 | Whatever fails, each side only takes the other's newer entries. With nothing failing and hashes that tell the stores apart, both end with the newest entry of every key, tombstones included, the count is the number of differing keys that do not tie, and both agree if and only if nothing ties; equal stores repair nothing. |
| `AntiEntropy.Converged` | api/queel/cluster/antientropy.go:160-195 | Comparing all differing keys with every transfer delivered makes both stores the pointwise newest, equal if and only if no two different entries share a timestamp. |
| `AntiEntropy.NewestOfBoth` | api/queel/cluster/antientropy.go:160-195 | The pointwise newest of two stores has every key of either, with an entry of one of them that neither has newer. |
| `AntiEntropy.SecondRoundRepairsNothing` | api/queel/cluster/antientropy.go:122-199 | A repeated round on the outcome repairs nothing and changes nothing, ties included. |
| `AntiEntropy.InjectiveDistinguishes` | api/queel/cluster/antientropy.go:80-105 | Injective leaf and pair hashes tell any two stores apart. |
| `Gossip.JoinCommutes` | api/queel/cluster/membership.go:137-156 | Merging two views gives the same whichever is merged into which. |
| `Gossip.JoinAssociates` | api/queel/cluster/membership.go:137-156 | Merging three views gives the same in any grouping. |
| `Gossip.JoinIsLeastUpperBound` | api/queel/cluster/membership.go:137-156 | The merge of two views is their least upper bound in the order of knowing something newer. |
| `Gossip.OrderAndDuplicationDoNotMatter` | api/queel/cluster/membership.go:137-146 | A node that received the same entries ends with the same view, however they were split into messages, ordered or repeated. |
| `Gossip.ViewsOnlyClimb` | api/queel/cluster/membership.go:86-167 | Under every interleaving of snapshots, deliveries (late, lost or repeated) and verdicts each entry of each view only climbs, and no message knows more than some view. |
| `Gossip.PushPullReachesJoin` | api/queel/cluster/membership.go:86-125 | A push-pull exchange ends with both sides at the join of their views, and above it if this side learned more meanwhile. |
| `Gossip.RestartBelievedExactly` | api/queel/cluster/membership.go:30-33 | A restarted node is believed alive exactly where neither a later incarnation nor a verdict on this one is known. |
| `Gossip.VerdictBelievedExactly` | api/queel/cluster/membership.go:137-167 | A verdict is believed wherever it arrives, exactly unless the node is known alive there in a later incarnation. |
| `Gossip.OwnDeathIsBelieved` | api/queel/cluster/membership.go:137-146 | A node takes a verdict on itself like any other news: it need not see itself alive. |
| `Gossip.Membership.Merge` | api/queel/cluster/membership.go:137-146 | The view becomes its join with what the message says. |
| `Gossip.Membership.Snapshot` | api/queel/cluster/membership.go:127-135 | The message says exactly the view, in whatever order it lists it. |
| `Gossip.Membership.HandleGossip` | api/queel/cluster/membership.go:122-125 | Merges, and answers with a message saying the merged view. |
| `Gossip.Membership.MarkDead` | api/queel/cluster/membership.go:158-167 | The node is dead, one incarnation later than known or as of now, and all others are as they were; no entry of the view is lost or becomes older. |
| `Gossip.Membership.GossipWith` | api/queel/cluster/membership.go:86-117 | Completed, both sides hold the join of their views; refused, the peer is held dead; illegible, this side learns nothing. Neither view ever loses anything. |
| `Gossip.Membership.AliveNodes` | api/queel/cluster/membership.go:186-197 | Exactly the nodes believed alive, each once, in ascending order. |
| `Gossip.IsScheduledCloseLeader` | api/scheduled_close.go:28-31 | True exactly on the least of the nodes believed alive. |
| `Gossip.AtMostOneLeader` | api/scheduled_close.go:28-31 | Nodes holding equal views elect at most one leader. |
| `Gossip.SomeLeader` | api/scheduled_close.go:28-31 | As long as anyone is believed alive somebody leads. |
| `Splicing.SplicedLaws` | api/queel/repository.go:1526-1546 | The new content has the old length plus the sum of each winner's length minus its slot's width, and is the old content where every seed wins. |
| `Splicing.SplicedOutside` | api/queel/repository.go:1526-1546 | Every rune outside the slots is copied unchanged, moved by the growth of the slots before it, and no two of them change order. |
| `Splicing.SplicedUndone` | api/queel/repository.go:1526-1546 | With no winner empty, splicing the original contents into the ranges the winners came to occupy gives the old text back, and those ranges again fit the new text. |
| `Splicing.SplicedPermuted` | api/queel/repository.go:1531-1534 | Permuting the slots changes nothing. |
| `Splicing.SpliceContent` | api/queel/repository.go:1531-1546 | Sorting the slots and walking them computes that content, for any order of the slots given. |
| `SpliceLaws.ReplacesExactly` | api/queel/repository.go:1526-1546 | The new content is the one text in which each winner stands where the growth of the slots before its own has moved its range, every other rune is the old one at its moved place, and nothing else is. |
| `Deliberation.BetterIsStrictTotalOrder` | api/queel/repository.go:1486-1494 | More votes, then earlier, then the smaller id is better: a strict total order on fragments of different ids. |
| `Deliberation.BestIsUnique` | api/queel/repository.go:1486-1494 | A set of fragments has at most one best. |
| `Deliberation.BestExists` | api/queel/repository.go:1486-1494 | A non-empty set of fragments has a best. |
| `Deliberation.WinsExactly` | api/queel/repository.go:1486-1494 | A slot's winner is the one fragment proposed for it such that none has more votes, of those with as many none is earlier, and of those as early none has a smaller id. |
| `Deliberation.ResolvesExactly` | api/queel/repository.go:675-689 | On slots that fit, a range resolves to a slot exactly if it is one's own range, and to a new slot exactly if it overlaps none, whatever order they are tried in. |
| `DeliberationRuns.CreateKeeps` | api/queel/repository.go:230-273 | Creating a text keeps the invariant of the store: open round, empty slots, mirrored subscription, indexed labels. |
| `DeliberationRuns.NeverReopens` | api/queel/repository.go:648-668 | On a text that exists and is not superseded a proposal never opens a round; on a superseded one it is refused naming the successor. |
| `DeliberationRuns.ProposalKeeps` | api/queel/repository.go:726-788 | A proposal keeps the invariant whether all its batches are stored or only the first: slots stay disjoint, non-empty and in bounds, and each has its seed. |
| `DeliberationSteps.NewSlotSeeds` | api/queel/repository.go:746-785 | A new slot comes with a seed fragment holding the runes of its range, and no other slot loses its own. |
| `DeliberationSteps.VoteKeeps` | api/queel/repository.go:827-853 | Voting keeps votes and choices in step: a vote is recorded exactly when it is the user's choice for the fragment's slot. |
| `DeliberationSteps.WithoutVoterKeeps` | api/queel/repository.go:1170-1197 | Removing a user's votes keeps them in step. |
| `DeliberationSteps.WithoutFragmentsKeeps` | api/queel/repository.go:1210-1257 | Removing fragments with their votes and the choices aimed at them keeps them in step. |
| `DeliberationSteps.WithoutBallotsKeeps` | api/queel/repository.go:1334-1368 | Removing what competed on deleted texts keeps votes, choices and the fragment index in step. |
| `DeliberationRuns.DeleteUserFragmentsKeeps` | api/queel/repository.go:1199-1257 | No departing user takes a slot's seed away; the whole invariant is kept. |
| `DeliberationRuns.DeleteUserTextsKeeps` | api/queel/repository.go:1282-1374 | Deleting all texts a user created keeps the invariant. |
| `DeliberationRuns.DeleteTextKeeps` | api/queel/repository.go:1385-1475 | Deleting one text, anywhere in a chain of versions, keeps the invariant. |
| `DeliberationRuns.ScheduleKeeps` | api/queel/repository.go:370-396 | Scheduling a close keeps the invariant: only a round with slots ever has a date. |
| `DeliberationRuns.CloseKeeps` | api/queel/repository.go:1563-1686 | Closing keeps the invariant: the old text is superseded and has no open round, the fork has the next one, links, labels and subscriptions agree. |
| `DeliberationRuns.CloseProgress` | api/queel/repository.go:1563-1600 | On a text that exists and is not superseded closing succeeds if and only if the round has a slot and otherwise fails as empty; elsewhere there is no open round. It never misses a text or a winner. |
| `DeliberationRuns.StepKeeps` | api/queel/repository.go:230-1686 | Every call, failing or not, keeps the invariant. |
| `DeliberationRuns.ReachableStores` | api/queel/repository.go:230-1686 | Every store reachable from an empty one satisfies the invariant. |
| `DeliberationSteps.MovedAre` | api/queel/repository.go:1650-1679 | Closing moves exactly the old text's subscribers to the fork, leaves it none, and touches nobody else's subscriptions. |
| `DeliberationSteps.ForkedTags` | api/queel/repository.go:1641-1648 | After closing, the label index lists the fork under exactly the old text's labels and the old text under none. |
| `DeliberationLaws.VotesSumToChoosers` | api/queel/repository.go:827-853 | The vote counts of a slot's fragments add up to the number of users who chose in the slot. |
| `DeliberationLaws.SettledFromSets` | api/queel/repository.go:1581-1603 | What closing settles on depends only on the text, the set of slots and what competes in each with which votes. |
| `DeliberationLaws.SameWinner` | api/queel/repository.go:1499-1524 | The winner of a slot depends only on its fragments and who voted for each. |
| `DeliberationLaws.SilentRoundKeepsText` | api/queel/repository.go:1486-1546 | Closing a round in which nobody voted, its seeds being the oldest fragments, forks the text with its wording unchanged. |
| `Versions.LinksAreInverse` | api/queel/repository.go:1102-1145 | Backward and forward links between surviving versions are inverse, and the round count rises by one along them. |
| `Versions.CountsRise` | api/queel/repository.go:1102-1145 | Along a chain round counts rise by one per link, so no version occurs twice. |
| `Versions.OneChain` | api/queel/repository.go:1102-1145 | A surviving version belongs to one maximal run of linked survivors only. |
| `Versions.TextChain` | api/queel/repository.go:1102-1145 | Terminates and returns that run, the same from any version in it, deletions included; an error exactly for a missing text. |
| `Labels.ByTagsIsNarrowing` | api/queel/repository.go:871-920 | For texts created at different times, the listing by labels is the listing of recent texts narrowed to those carrying them all, if and only if every entry the scan kept is of the first label itself. |
| `Labels.LabelOrderIsImmaterial` | api/queel/repository.go:871-920 | The order and repetition of the labels asked for does not change which texts carry them all. |
| `Labels.OneListing` | api/queel/repository.go:299-333 | Texts created at different times have one listing newest first. |
| `Labels.RecentTexts` | api/queel/repository.go:299-333 | Every text no round has superseded, each once, newest first, cut to the offset and limit where these are positive. |
| `Labels.PagesTile` | api/queel/repository.go:323-331 | Pages at consecutive offsets show the listing from its start without gap or overlap. |
| `Labels.ResolveTag` | api/queel/repository.go:933-954 | A label the scan finds anything for stands for itself; any other for the first label in key order that folds to the same, or else for itself. |
| `Labels.ResolvesOnce` | api/queel/repository.go:933-954 | There is one label a label resolves to. |
| `Labels.UnderExactly` | api/queel/repository.go:198-204 | The scan for a label meets the entries of the label and of those that extend it by a slash, and no others. |
| `Labels.ScanByTags` | api/queel/repository.go:893-919 | Scanning only the first label's index and checking the rest on each text lists each current text once for every entry met; entries of deleted texts are skipped. |
| `Labels.ListsTaggedExactly` | api/queel/repository.go:888-916 | That is the current texts carrying all labels, each once, if and only if no entry kept is of a label extending the first by a slash. |
| `Labels.ExtendedLabelIsListed` | api/queel/repository.go:888-916 | A text labelled only `a/b` is listed under `a`. |
| `Labels.TextsByTags` | api/queel/repository.go:871-920 | The same after resolving each label; nothing for no label. |
| `Scans.WinningFragment` | api/queel/repository.go:1499-1524 | Whatever order the scan delivers, the loop finds the fragment of the slot with the most votes, the earlier and then the smaller id deciding between equals; not found exactly when the slot has no fragment. |
| `Scans.FindWinners` | api/queel/repository.go:1581-1599 | Resolves every slot to the fragment that wins it and that fragment's vote count. |
| `Scans.DropFragmentsBy` | api/queel/repository.go:1210-1257 | The loops over fragments and their voters remove exactly the user's fragments, their index entries, the votes for them and the choices still aimed at them. |
| `Scans.DropBallotsOn` | api/queel/repository.go:1334-1368 | The loops over the index remove exactly the fragments of the deleted texts, the votes for them and the choices made on those texts. |
| `Scans.DropTexts` | api/queel/repository.go:1288-1332 | Exactly the deleted texts, their pointers and their rounds with index entries are removed. |
| `Scans.MoveFollowers` | api/queel/repository.go:1650-1679 | The loop replaces each subscription pair of the old text by one of the fork and touches no other. |
| `Scans.MoveTags` | api/queel/repository.go:1641-1648 | Exactly the text's label entries move from the old id to the new. |
| `Scans.ResolveSlotIn` | api/queel/repository.go:675-689 | The loop over the open slots resolves a range as the recursive definition does, first match or first overlap deciding. |
| `VotingRepository.Repository.CreateText` | api/queel/repository.go:230-273 | Stores a text with the given title, content, labels and creator, with its first round open and empty, its author following it and its labels listed, and changes nothing else. |
| `VotingRepository.Repository.ProposeEdit` | api/queel/repository.go:726-788 | Refused exactly for a missing text, a bad range, a superseded text or a clash with an open slot, changing nothing. Otherwise returns a new fragment with the given content and author in the open slot with just this range, opened and seeded if need be; no older fragment, vote, text or label changes. |
| `Outcomes.RefusesExactly` | api/queel/repository.go:675-689 | A range clashes with the open slots exactly if it is none of theirs and has a rune of one. |
| `VotingRepository.Repository.CastVote` | api/queel/repository.go:827-853 | Records the vote and withdraws the user's votes for rivals in the slot, leaving every other vote as it was; refused exactly for an unknown fragment. |
| `VotingRepository.Repository.ScheduleRoundClose` | api/queel/repository.go:370-396 | Sets the date and the user of the open round and nothing else; refused exactly without an open round, or with no slot in it. |
| `VotingRepository.Repository.CloseRound` | api/queel/repository.go:1563-1686 | Forks the text: each slot's range holds the content of the fragment that wins it, everything else of the text, its labels, title and creator stay; the fork supersedes the text, opens the next round, and takes over labels and subscribers. Reports each slot's winner and votes. The only errors are no open round and an empty one. |
| `VotingRepository.Repository.Subscribe` | api/queel/repository.go:463-480 | Adds exactly this subscription and its mirror; refused exactly for a missing text. |
| `VotingRepository.Repository.Unsubscribe` | api/queel/repository.go:491-496 | Removes both, whether or not they or the text exist. |
| `VotingRepository.Repository.DeleteUserSubscriptions` | api/queel/repository.go:550-568 | Removes exactly the user's subscriptions, with their mirrors. |
| `VotingRepository.Repository.DeleteUserVotes` | api/queel/repository.go:1170-1197 | Removes exactly the user's votes and choices. |
| `VotingRepository.Repository.DeleteUserFragments` | api/queel/repository.go:1210-1257 | Removes exactly the fragments the user proposed, the votes for them and the choices of them, and keeps the invariant. |
| `VotingRepository.Repository.DeleteUserTexts` | api/queel/repository.go:1282-1374 | Removes exactly the texts the user created, with their rounds, fragments, votes and choices, and returns which; labels and subscriptions are left. |
| `VotingRepository.Repository.DeleteText` | api/queel/repository.go:1385-1475 | Removes exactly this text with its rounds, fragments, votes, choices, labels and subscriptions; refused exactly for a missing one. |
| `VotingRepository.Repository.SubscriptionsForUser` | api/queel/repository.go:508-518 | A user's listing has exactly the texts among whose subscribers the user is. |
| `VotingRepository.Repository.SubscribersForText` | api/queel/repository.go:527-542 | A text's listing has exactly the users whose own listing has the text. |
| `VotingRepository.Repository.TextsByTags` | api/queel/repository.go:871-920 | In every reachable store, for labels in use and different creation times, listing by labels is the listing of recent texts narrowed to them, exactly if the scan kept no entry of a label extending the first. |
| `ScheduledClose.DueScheduledRounds` | api/queel/repository.go:408-425 | The text of every open round whose date is now or past, each once, and no other. |
| `ScheduledClose.DueIsClosable` | api/scheduled_close.go:63-71 | A due round can always be closed: only rounds with slots are ever dated. |
| `ScheduledClose.Tick` | api/scheduled_close.go:50-88 | A node that does not lead does nothing. One that does supersedes every text whose round was due by the version that round settles on; nothing is due afterwards, no other text is superseded, and no text or vote is lost. |

## Left out

- HTTP handlers and clients, JSON, bootstrap, signal handling, mail, push, search indexing and the front ends: plumbing around these components.
- SQL stores, tokens and permission masks: foreign systems and finite tables.
- Overlapping coordinator operations, and ring changes without a handoff: replicas overwrite without comparing timestamps, so the quorum results are not what the code gives there.
- Failing to open, seek or close a file.
- Torn files and failed syncs as steps of a history: what each leaves is stated of one such event after any consistent state (`EngineTorn`).
- `Engine.WriteBatch`: a loop of `Put` and `Delete`, each modelled.
- A compaction interrupted while it removes old files as a step of a history: what it leaves is stated of one such event under a number above all others (`EngineCompaction`).
- A negative replication factor, on which the ring panics: the factor is a natural number.
- The parsing of file names into numbers: files are keyed by their number.
- A restart inside a run of gossip: it replaces the node's view by a new one, so nothing climbs across it; what peers make of it is `RestartBelievedExactly`.
- 64-bit overflow of incarnations and timestamps.
- The layout of the repository's keys other than those of the label index, and ids containing `/`: ids are drawn as hexadecimal digits.
- `Tags`, `UserVotes`, `RoundsForText` and `TextWithSlots`: filters over what is modelled.
- Any claim that a closed round's votes no longer change: `CastVote` does not check that the round is open.
- Notifying subscribers and indexing the new text after a scheduled close.
- StorageEngine.Engine.Put: where a due flush hits a file in use, its contract gives the engine's fields only; reads through the stale index of the run that was truncated are not modelled. What a restart then shows is `FlushSurvivesExactlyWhen`.
- StorageEngine.Engine.Delete: the same.
- StorageEngine.Engine.Compact: under a number in use, its contract gives the fields only; reads of the file it has removed fail and are not modelled. What is left is `MergedRunSurvivesExactlyWhen`.
- EngineRuns.WriteKeeps: an append that fails leaves no trace; one that fails on syncing, after its record reached the file, is `EngineTorn.FailedSyncShows`.
- Leaving.Decommission: on a failure the code also returns how many entries it had pushed by then; the model gives the error only.
