# A verified model of the distributed key-value store

This project models the core of the key-value server in Dafny and proves what its components guarantee,
for every input, every run and every interleaving. `dafny verify dfyconfig.toml` checks all of it.

| file | models |
|---|---|
| `Store.dfy` | the in-memory map with its size limits, and mutations as data |
| `WordBits.dfy`, `Division.dfy`, `Crc32.dfy` | the CRC-32 of log entries, down to polynomial division on bits |
| `Wal.dfy`, `Snapshot.dfy` | the two file formats, byte for byte, with their writers and readers |
| `Durability.dfy` | the standalone server as a machine: handlers, crashes, recovery, shutdown |
| `Crashes.dfy` | crashes inside a log append or a snapshot save |
| `Server.dfy` | the standalone server as an object: startup, handler, shutdown |
| `Fnv.dfy`, `Ring.dfy`, `HashRing.dfy` | FNV-1a, the consistent hash ring and its clockwise walk |
| `Cluster.dfy` | membership, replica selection and the failure detector |
| `Replication.dfy`, `Forwarding.dfy` | quorum writes and reads, with forwarding to any depth |
| `ThreadPool.dfy` | the worker pool as interleaved steps |
| `Protocol.dfy` | message bodies, and frames over arbitrarily chunked I/O |
| `Bytes.dfy`, `Optional.dfy` | byte strings, length fields, concatenated encodings, optional values |

Objects that the program updates in place are classes, and loops are loops; each method is proved against
a function, and the properties are proved of the function. Concurrent code (the thread pool, handlers in
flight) is a step system whose runs are arbitrary sequences of steps.

## Main results

- **Durability.** Runs interleave store writes, log appends, crashes, restarts and shutdowns; while shutdown
  copies the store, saves the copy and truncates the log, handlers go on serving. A crash here falls between
  two file writes. The bytes on disk rebuild the live store up to the mutations still between their store
  write and their append (`Durability.RunsAreDurable`), provided that no two of those share a key, that
  fewer than 2^32 keys are saved, and that when the log is truncated every change since the copy is still
  pending.
- **Durability without provisos on the handlers.** In any run of those steps, on a key with no handler in
  flight, the disk holds the writes before the copy and the appends after the truncation, or all appends if
  the log has not been truncated. Given fewer than 2^32 saved keys, a key is rebuilt if and only if its last write
  there agrees with its last store write, or there is none there and its last store write since startup, if
  any, left the value it had at startup (`Durability.RecoversExactly`).
- **Crashes inside a write.** After a crash inside an append and a restart, everything acknowledged later
  is recovered, whatever it is, if and only if the crash fell between two entries
  (`Crashes.TornTailExact`). In any run, after a crash at any byte of a snapshot being saved, a key with
  nothing in flight is right if and only if the log's last write of it is the live one or, where the log
  does not mention it, it is absent, in a whole item before the cut, or in the torn item with its missing
  value bytes all NUL (`Crashes.MidSaveCrashLoses`).
- **Damage and cuts.** A log cut at any byte replays exactly its whole entries. A burst of at most 32
  bits anywhere in the payload and checksum of an entry, aligned or not, stops replay exactly there.
- **Routing.** Removing a node deletes it from every preference list and moves nothing else, collisions
  included. Adding a node and removing it again restores the ring if and only if the node was new and
  its points were free. The order in which nodes are added is irrelevant if and only if no two of them
  share a point.
- **Replication.** An OK answer means that a quorum of distinct homes of the key holds the mutation, at
  any forwarding depth and under any failures, if the mutation is within the size limits or no home has
  quorum 0; that condition is exact (`Replication.CountableExact`). Any two majority writes share a node.
- **Replication, the other half.** A peer handles a forwarded write by replicating it again, so the
  innermost handler of any run that ends can count only itself. A node can answer a write with OK if and
  only if it belongs to no set of nodes each of which needs more than its own write and every home outside
  the set (`Replication.OkPossible`). With one quorum for all nodes that means a quorum of at most 1
  (`Replication.OkPossibleUniform`): the default majority of two or more replicas is never met, although
  every home that is reached stores the mutation (`Replication.ReachingAllHomes`). The quorum theorems
  above are stated for a quorum per node, where they are not vacuous.
- **Replication, run by run.** A handler counts a peer if and only if the peer was reached, its own run
  ended with OK and its answer was not lost (`Forwarding.CountsExactly`), and a run changes exactly the
  homes it visits (`Forwarding.WritesExactly`).
- **Reads.** With every home reachable, the primary of a key finds it if and only if it has it, any other
  node if and only if some home has it (`Replication.ReadFinds`). Where every forward is answered the value
  is that of the first home, in preference order, that has the key (`Forwarding.ReadReturnsFirstHolder`);
  for the first two homes it is enough that they are heard themselves (`ReadReturnsPrimary`,
  `ReadReturnsSecond`).
- **Requests that cannot end.** Peers forward forwarded requests. While every forward arrives and nobody is
  taken for down, a write ends if and only if its key has at most one home (`Forwarding.WriteEndsExactly`).
  A read at another node than the primary whose every forward is answered ends if and only if the key has at
  most two homes or one of the first two has it (`Forwarding.ReadEndsExactly`).
- **Thread pool.** In every interleaving accepted work is queued, running or finished, starts in order and
  runs at most once. A submit is turned away if and only if it tests the flag after a shutdown has set it. A
  completed shutdown has drained the queue if and only if the pool has a worker, and no reachable state
  keeps a shutdown from completing (`ThreadPool.ShutdownCanComplete`).
- **Protocol.** Parsing yields a request exactly on the strings that begin with its encoding. Frames
  survive any chunking, and a stream cut anywhere yields exactly the frames before the cut.

## Where the code and its documentation differ

The model follows the code.

- `docs/architecture.md` says that corrupted log entries are skipped; replay stops at the first one, which
  gives the same store exactly when the entries behind it change nothing (`DamageLosesLater`).
- `docs/architecture.md` says that a write is acknowledged when the quorum is met; see `OkPossible` and
  `WriteEndsExactly`.
- `docs/architecture.md` says that a read falls back to replicas; the primary of a key does not, and can
  miss a key that another home has exactly when there is another home (`PrimaryMisses`).
- The log is called write-ahead; the handler writes the store first and the log second.
- "No committed data lost across crashes" fails in four ways. Each has its exact condition, and a run from
  an empty disk in which data is lost:
  - appends that cross (`RecoversExactly`, `CrossedAppends`, `CrossedExample`);
  - requests served while the server shuts down, with no crash at all (`RecoversExactly`,
    `OverlapExample`);
  - a torn entry, which startup leaves in the file (`TornTailExact`, `TornTailExample`);
  - a crash during a save, which truncates the old snapshot first (`MidSaveCrashLoses`,
    `MidSaveExample`).

## Model

| member | source | states |
|---|---|---|
| `Store.KvStore.Put` | src/storage/kv_store.cpp:5-14 | the pair is stored exactly when both sizes are within limits, and the whole answer |
| `Store.PutLimits` | include/common/types.h:14-15 | keys of 256 and values of 65536 bytes are the largest taken; the key is measured first |
| `Store.KvStore.Get` | src/storage/kv_store.cpp:16-22 | OK with the stored value if the key is present, else NOT_FOUND with an empty one |
| `Store.KvStore.Del` | src/storage/kv_store.cpp:24-29 | the key is gone; OK exactly when it was there |
| `Store.KvStore.LoadData` | src/storage/concurrent_kv_store.cpp:30-34 | the loaded map replaces everything |
| `Store.LastWriterWins` | src/persistence/wal.cpp:99-105 | after any list of mutations each key holds its last accepted write, or its old value if none |
| `Store.ApplyAllIdempotent` | src/server/server_main.cpp:158-161 | applying a list of mutations again to its own result changes nothing |
| `Store.ApplyAllWithinLimits` | src/storage/kv_store.cpp:5-14 | no run of mutations stores anything oversized |
| `Bytes.LittleEndianBytes` | src/persistence/wal.cpp:49-49 | the four bytes of a length as it lies in memory |
| `Bytes.BigEndianBytes` | src/protocol/protocol.cpp:17-19 | the four bytes of a length on the wire |
| `Bytes.FlattenCut` | src/persistence/wal.cpp:63-77 | a cut anywhere in concatenated entries leaves the whole ones before it and a proper prefix of the next |
| `Crc32.Compute` | src/persistence/wal.cpp:18-28 | the nested loops compute the checksum function |
| `Crc32.KnownAnswers` | src/persistence/wal.cpp:18-28 | the published CRC-32 of the empty string and of "a" |
| `Crc32.UpdateDivides` | src/persistence/wal.cpp:20-26 | the coded register is the bit-serial polynomial division of the whole message |
| `Division.StepLinear` | src/persistence/wal.cpp:24 | the division step is linear over exclusive or |
| `Division.StepInjective` | src/persistence/wal.cpp:24 | the division step is a bijection |
| `Division.DivideBlock` | src/persistence/wal.cpp:21-26 | up to 32 message bits may be added at once and then stepped over |
| `Division.BurstChangesRegister` | src/persistence/wal.cpp:18-28 | two messages that differ only within 32 consecutive bits leave different registers |
| `Crc32.FieldRoundTrip` | src/persistence/wal.cpp:51-51 | the stored four bytes give back the checksum |
| `Crc32.AcceptsResidue` | src/persistence/wal.cpp:79-83 | payload and stored checksum match exactly when together they leave one fixed residue |
| `Crc32.BurstRejected` | src/persistence/wal.cpp:79-83 | a burst of at most 32 bits across payload and checksum is always rejected |
| `Crc32.FourByteDamageRejected` | src/persistence/wal.cpp:79-83 | so is any damage within four consecutive bytes |
| `Crc32.ChecksumSeparates` | src/persistence/wal.cpp:18-28 | buffers that differ only within four consecutive bytes have different checksums |
| `Wal.BuildBuffer` | src/persistence/wal.cpp:33-45 | the payload and its length field, with both lengths passed through 32 bits |
| `Wal.PayloadShape` | src/persistence/wal.cpp:41-45 | where command, lengths, key and value lie in a payload, and its length |
| `Wal.EntryLayout` | src/persistence/wal.cpp:49-51 | where length, payload and checksum lie in an entry |
| `Wal.ScanFramed` | src/persistence/wal.cpp:64-83 | any payload behind its length and before four bytes is taken exactly if they are its checksum |
| `Wal.ScanPayloadExact` | src/persistence/wal.cpp:85-97 | the walk along the buffer yields a command, key and value exactly if the buffer begins with them, and leaves the buffer otherwise |
| `Wal.WriteAheadLog.Append` | src/persistence/wal.cpp:30-55 | the file grows by exactly one encoded entry |
| `Wal.ReadEntry` | src/persistence/wal.cpp:64-97 | one turn's reads and checks compute the scan of the rest of the file |
| `Wal.Turn` | src/persistence/wal.cpp:63-106 | one turn of the loop advances past one entry and applies it, or ends replay |
| `Wal.WriteAheadLog.ReplayInto` | src/persistence/wal.cpp:57-108 | the loop computes the replay function: count, store, and whether a read left its buffer |
| `Wal.WriteAheadLog.Truncate` | src/persistence/wal.cpp:110-115 | the file is empty |
| `Wal.ScanEntryOf` | src/persistence/wal.cpp:30-55 | an appended entry is read back whole, whatever follows |
| `Wal.ReplayLogThen` | src/persistence/wal.cpp:57-108 | replay of logged mutations followed by any bytes is their fold, then replay of the rest |
| `Wal.ReplayOtherCommand` | src/persistence/wal.cpp:99-105 | an entry with any other command is counted and changes nothing |
| `Wal.ReplayTorn` | src/persistence/wal.cpp:64-77 | a torn last entry replays as if it had not begun, by length alone |
| `Wal.ReplayCut` | src/persistence/wal.cpp:57-108 | a log cut at any byte replays exactly the entries that end before the cut, and counts them |
| `Wal.ReplayIdempotent` | src/persistence/wal.cpp:99-105 | replaying the whole log over its own result changes nothing |
| `Wal.ReplayForgetsBase` | src/persistence/wal.cpp:99-105 | on every key the log mentions the result is its last write, over any base map |
| `Wal.ReplayStopsAtDamage` | src/persistence/wal.cpp:79-83 | damage within four bytes of an entry leaves exactly the entries before it |
| `Wal.ReplayStopsAtBurst` | src/persistence/wal.cpp:79-83 | the same for any burst of at most 32 bits |
| `Wal.DamageLosesLater` | src/persistence/wal.cpp:80-83 | with entries behind the damage, replay gives what skipping the damaged one would give exactly when they change nothing |
| `Wal.DamageExample` | src/persistence/wal.cpp:80-83 | behind any damage, for any key, there is a put that replay loses |
| `Wal.ReplayNuls` | src/persistence/wal.cpp:64-97 | eight NUL bytes behind any log pass the checksum and make replay read outside its buffer; the log alone never does |
| `Wal.TornTailLoses` | src/persistence/wal.cpp:57-83 | after every nonempty torn entry, whatever its length, some accepted put that changes the store is not replayed |
| `Wal.TornTailExact` | src/persistence/wal.cpp:57-83 | everything appended behind a torn entry is replayed, for all later mutations, exactly when the torn entry is empty |
| `Snapshot.Save` | src/persistence/snapshot.cpp:21-38 | for any iteration order the file is the count followed by every pair once |
| `Snapshot.ItemLayout` | src/persistence/snapshot.cpp:29-37 | where both lengths, the key and the value lie in one pair |
| `Snapshot.FileLayout` | src/persistence/snapshot.cpp:26-37 | a file is the little-endian count and then the pairs one after another |
| `Snapshot.InputStream.Read` | src/persistence/snapshot.cpp:53-59 | a short read keeps what it got, pads with NULs and fails every later read |
| `Snapshot.ReadOne` | src/persistence/snapshot.cpp:51-61 | one turn reads a whole pair, a padded pair, or nothing |
| `Snapshot.LoadFile` | src/persistence/snapshot.cpp:40-64 | the loop computes the load function |
| `Snapshot.LoadInvertsSave` | src/persistence/snapshot.cpp:21-64 | load inverts save, for every map and every order, exactly when the map has fewer than 2^32 keys |
| `Snapshot.LoadOfFile` | src/persistence/snapshot.cpp:40-64 | a whole file loads as many of its items as the 32-bit count says |
| `Snapshot.FillLastWins` | src/persistence/snapshot.cpp:61-61 | where a file repeats a key, the last pair counts |
| `Snapshot.LoadCut` | src/persistence/snapshot.cpp:40-64 | any prefix of a saved file loads as the whole entries it counts plus at most one with a NUL-padded true prefix of its value |
| `Snapshot.CutKeeps` | src/persistence/snapshot.cpp:40-64 | a prefix gives back an item exactly if the count covers it and it is whole, or is torn in its value and the missing bytes were NUL |
| `Snapshot.CutInvents` | src/persistence/snapshot.cpp:40-64 | no prefix of a saved file loads a key that was not saved |
| `Durability.RecoveryIsFold` | src/server/server_main.cpp:65-74 | recovery applies every logged mutation to the snapshot and rejects none |
| `Durability.StepKeeps` | src/server/server_main.cpp:112-161 | every step of handlers and shutdown keeps the durability invariant, unless a store write takes effect on a pending key, the saved keys overflow 32 bits, or the log is truncated with a change since the copy no longer pending |
| `Durability.RunsAreDurable` | src/server/server_main.cpp:112-161 | in every such run, shutdowns with handlers in flight included, the disk rebuilds the live store, except that each pending key is exactly its one mutation behind |
| `Durability.QuiescentRecovery` | src/server/server_main.cpp:65-74 | with no handler in flight recovery gives exactly the live store |
| `Durability.TornAppendRecovers` | src/persistence/wal.cpp:49-53 | a crash inside an append recovers the state before it |
| `Durability.TruncateExact` | src/server/server_main.cpp:158-161 | the guard of the truncation step: from a settled state it keeps the disk up to date exactly when every change to the store since the copy is still pending |
| `Durability.SpansShutdown` | src/server/server_main.cpp:156-161 | a mutation stored before the copy and logged after the truncation outlives the shutdown, whatever else is in flight |
| `Durability.RecoversExactly` | src/server/server_main.cpp:112-161 | in any run of the machine's steps, a key with nothing in flight is rebuilt exactly if the kept writes end with its last store write, or do not mention it and its last store write is what the last start had |
| `Durability.RecoversUntruncated` | src/server/server_main.cpp:112-131 | until the log is truncated, that is exactly when the key's last store write and last append agree |
| `Durability.OverlapExample` | src/server/server_main.cpp:156-161 | from an empty disk, a put stored and logged during a shutdown is gone after it, although its writes and appends agree |
| `Crashes.TornTailExact` | src/server/server_main.cpp:65-74 | after a crash inside an append and a restart, the disk keeps rebuilding the store through every later list of requests exactly when the append left no bytes |
| `Crashes.TornTailExample` | src/server/server_main.cpp:65-74 | from an empty disk, a first put torn anywhere makes a later acknowledged put vanish |
| `Durability.CrossedAppends` | src/server/server_main.cpp:114-125 | in any state with a whole log, two overlapping handlers whose appends cross leave the disk right on their keys exactly when the keys differ or the mutations are equal, and touch no other key |
| `Durability.CrossedExample` | src/server/server_main.cpp:114-118 | from an empty disk, two puts of one key can leave the store with one value and the disk with the other |
| `Crashes.MidSaveCrash` | src/persistence/snapshot.cpp:25-37 | in any run, after a crash while saving, every logged key is recovered as before the save and every other key as the partial file holds it |
| `Crashes.MidSaveCrashLoses` | src/persistence/snapshot.cpp:21-64 | in any run, after a crash at any byte of a save and with any handlers in flight, a key that is not pending is recovered right exactly when the log's last write of it is the live one or, if the log does not mention it, it is absent, whole before the cut or rightly padded |
| `Crashes.MidSaveCrashSettled` | src/persistence/snapshot.cpp:21-64 | from a settled state the log is right about the keys it mentions, so only the others are at stake |
| `Crashes.MidSaveCrossedExample` | src/persistence/snapshot.cpp:21-38 | a run with crossed appends after which a save cut anywhere recovers the wrong value of a logged key |
| `Crashes.MidSaveExample` | src/persistence/snapshot.cpp:25-27 | put, shut down, start, and crash as the next save begins: nothing is recovered |
| `Server.StandaloneServer.constructor` | src/server/server_main.cpp:60-74 | on any disk startup is the recovery step of the machine; on a whole log it leaves a settled state |
| `Server.StandaloneServer.Handle` | src/server/server_main.cpp:112-131 | for each command the whole answer, the new store and the bytes appended to the log; from a settled state the disk rebuilds the store |
| `Server.StandaloneServer.Shutdown` | src/server/server_main.cpp:158-161 | with nothing in flight it is copy, save and truncation; from a settled state the snapshot alone rebuilds the store exactly when it has fewer than 2^32 keys |
| `Fnv.Compute` | src/cluster/consistent_hash.cpp:9-16 | the loop computes FNV-1a, for signed and unsigned `char` |
| `Fnv.WidenIs` | src/cluster/consistent_hash.cpp:12-12 | the number that a byte is widened to, for signed and unsigned `char` |
| `Fnv.KnownAnswers` | src/cluster/consistent_hash.cpp:9-16 | the published FNV-1a of the empty string, "a" and "foo" |
| `Fnv.RewindHash` | src/cluster/consistent_hash.cpp:9-16 | hashing a fixed string is invertible on 64-bit states |
| `Fnv.CommonSuffix` | src/cluster/consistent_hash.cpp:9-16 | a common suffix preserves equality and inequality of hashes |
| `Fnv.OneByteNeverCollides` | src/cluster/consistent_hash.cpp:9-16 | strings of one length that differ in exactly one byte never collide |
| `Ring.LowerBound` | src/cluster/consistent_hash.cpp:45-45 | the first entry at or after a point |
| `Ring.ClockwiseOrder` | src/cluster/consistent_hash.cpp:63-73 | the walk meets every entry once: points at or after the hash ascending, then the others ascending |
| `Ring.PrimaryIs` | src/cluster/consistent_hash.cpp:41-50 | the primary is the owner of the one entry that nothing precedes clockwise |
| `Ring.AssignAllIs` | src/cluster/consistent_hash.cpp:23-26 | adding a node leaves a sorted ring with its points overwritten and every other entry kept |
| `Ring.ClockwiseWithout` | src/cluster/consistent_hash.cpp:29-39 | removing a node deletes its entries from every clockwise walk, in place |
| `Ring.RemovalErases` | src/cluster/consistent_hash.cpp:29-75 | after a removal each preference list, at any length, is the old one with the node deleted, collisions included |
| `Ring.AddRemoveRestores` | src/cluster/consistent_hash.cpp:18-39 | adding then removing a node restores the ring exactly when it was new and hit no taken point |
| `Ring.AddRemoveIs` | src/cluster/consistent_hash.cpp:18-39 | adding then removing a node leaves exactly the entries of other nodes on none of its points |
| `Ring.AdditionInserts` | src/cluster/consistent_hash.cpp:18-27 | deleting the new node from each preference list gives the list of the entries it did not displace, which is the old list if it was new and hit no taken point |
| `Ring.AdditionMovesToNewNode` | src/cluster/consistent_hash.cpp:18-50 | adding a node sends each key to its old owner or to the new node, collisions included |
| `Ring.InsertionOrderIrrelevant` | src/cluster/consistent_hash.cpp:18-27 | without collisions the ring depends only on which nodes were added |
| `Ring.InsertionOrderExact` | src/cluster/consistent_hash.cpp:23-26 | for any distinct nodes, all orders of adding them build one ring exactly when no two of them share a point |
| `HashRing.ConsistentHashRing.AddNode` | src/cluster/consistent_hash.cpp:18-27 | the ring gains all the node's points, the list the node once, and the invariant holds |
| `HashRing.DecimalIs` | src/cluster/consistent_hash.cpp:24-24 | the index is written in digits that spell it in base ten, without a leading zero |
| `HashRing.VnodeKeyLayout` | src/cluster/consistent_hash.cpp:24-24 | the hashed string is the id, a `#` and the index in decimal |
| `HashRing.VnodeKeyInjective` | src/cluster/consistent_hash.cpp:24-24 | different ids or indices give different strings, whatever bytes the ids hold |
| `HashRing.AddedPoints` | src/cluster/consistent_hash.cpp:23-26 | besides what it had, a node added owns exactly the hashes of its virtual nodes' strings |
| `HashRing.ConsistentHashRing.RemoveNode` | src/cluster/consistent_hash.cpp:29-39 | ring and list lose exactly the node, and the invariant holds |
| `HashRing.ConsistentHashRing.GetNode` | src/cluster/consistent_hash.cpp:41-50 | the owner of the first point clockwise, or the empty string |
| `HashRing.Walk` | src/cluster/consistent_hash.cpp:63-73 | the loop ends by the wrap at the latest, with the distinct owners of the part it walked |
| `HashRing.WalkStops` | src/cluster/consistent_hash.cpp:64-73 | each way out of the loop leaves the first `count` distinct owners of the whole walk |
| `HashRing.DedupPrefix` | src/cluster/consistent_hash.cpp:64-68 | the owners found on a shorter walk come first in the list, in the same order |
| `HashRing.ConsistentHashRing.GetNodes` | src/cluster/consistent_hash.cpp:52-75 | the first `count` first occurrences of owners, points at or after the hash before the others |
| `HashRing.PreferenceIs` | src/cluster/consistent_hash.cpp:52-75 | distinct owners, exactly those on the ring, headed by `getNode` |
| `HashRing.TakeIs` | src/cluster/consistent_hash.cpp:52-75 | min(count, owners) entries, and a prefix of the list for any larger count |
| `HashRing.RemovalKeepsOtherKeys` | src/cluster/consistent_hash.cpp:29-50 | a key not owned by the removed node keeps its owner |
| `HashRing.SimilarIdsNeverCollide` | src/cluster/consistent_hash.cpp:23-26 | ids of one length that differ in one byte never collide on virtual nodes with the same index |
| `Cluster.LoadConfig` | src/cluster/cluster_manager.cpp:14-31 | every configured line is listed UP and each id indexed at its last line, which is a one-to-one index exactly when no id repeats |
| `Cluster.Initialize` | src/cluster/cluster_manager.cpp:33-37 | the ring is the configured nodes added in order, its list their first occurrences |
| `Cluster.ClusterManager.GetNode` | src/cluster/cluster_manager.cpp:102-109 | the entry with that id, if there is one |
| `Cluster.ClusterManager.SetNodeStatus` | src/cluster/cluster_manager.cpp:94-100 | only that node's status changes |
| `Cluster.ClusterManager.IsLocalKey` | src/cluster/cluster_manager.cpp:58-60 | exactly when this node is the key's primary |
| `Cluster.ClusterManager.GetReplicaNodes` | src/cluster/cluster_manager.cpp:46-56 | the first `count` preference nodes that are not DOWN, in order, with none substituted |
| `Cluster.HealthMonitor.Round` | src/cluster/health_monitor.cpp:33-52 | one round moves every peer by its own ping and leaves the node itself alone |
| `Cluster.HealthMonitor.MonitorLoop` | src/cluster/health_monitor.cpp:31-55 | after any ping history a peer is UP, SUSPECT or DOWN exactly with 0, 1 or at least 2 trailing failures, and self is UP |
| `Cluster.TrailingFailuresIs` | src/cluster/health_monitor.cpp:37-51 | the trailing failures of a history are all failures and the ping before them is not |
| `Cluster.ReplicasAfterPings` | src/cluster/cluster_manager.cpp:46-56 | replica selection drops exactly the peers with two or more trailing failures |
| `Replication.Majority` | src/cluster/replication_manager.cpp:6-10 | the default quorum is the least positive number two of which exceed the replication factor |
| `Replication.ReplicasAreHomes` | src/cluster/cluster_manager.cpp:46-56 | DOWN filtering only shrinks a duplicate-free list and never drops the node itself |
| `Replication.HomesCount` | src/cluster/cluster_manager.cpp:48-48 | a key has min(replication factor, owners on the ring) homes, the first of its preference list |
| `Replication.FilterAppend` | src/cluster/cluster_manager.cpp:49-54 | filtering looks at one node at a time and keeps their order |
| `Replication.FilterIsLive` | src/cluster/cluster_manager.cpp:46-56 | the replicas of the model are what replica selection returns for the node's health view |
| `Forwarding.SelectReplicas` | src/cluster/cluster_manager.cpp:46-56 | for a cluster manager with the model's ring, replica selection returns exactly the replicas that the handlers work on |
| `Replication.Nodes.HandlePut` | src/cluster/replication_manager.cpp:12-41 | local write, forwards and count compute the write function and its answer |
| `Replication.Nodes.HandleDelete` | src/cluster/replication_manager.cpp:64-91 | the same for deletes, where an absent key counts |
| `Replication.Nodes.ReplicateToNodes` | src/cluster/replication_manager.cpp:101-112 | every replica but self is asked once, and OK answers are counted |
| `Replication.Nodes.ForwardRequest` | src/cluster/cluster_manager.cpp:62-84 | the peer runs its own handler; a lost reply looks like an unreachable peer |
| `Replication.Nodes.HandleGet` | src/cluster/replication_manager.cpp:43-62 | the read function: own store at the primary, else replicas in order |
| `Replication.WriteSound` | src/cluster/replication_manager.cpp:12-41 | counted nodes are distinct homes that hold the mutation, and stores change only by it, at any forwarding depth |
| `Replication.CountableExact` | src/cluster/replication_manager.cpp:93-112 | every counted node holds the mutation in every run exactly when the mutation is within limits or no home has quorum 0 |
| `Replication.OkMeansQuorum` | src/cluster/replication_manager.cpp:36-40 | an OK answer leaves at least a quorum of distinct homes with the mutation |
| `Replication.OnlyHomesChange` | src/cluster/replication_manager.cpp:12-41 | whatever the answer, only homes change, only on that key, only to that mutation's effect |
| `Forwarding.CountsExactly` | src/cluster/replication_manager.cpp:12-112 | the handler counts itself exactly if it is a home and its store takes the write, and a peer exactly if it was reached, its own run ended with OK and its answer was not lost |
| `Forwarding.WritesExactly` | src/cluster/replication_manager.cpp:12-112 | a run applies the mutation to exactly the homes on which some handler ran, at any forwarding depth |
| `Replication.SurvivesLoss` | src/cluster/replication_manager.cpp:36-40 | losing fewer nodes than the quorum leaves one that holds the mutation |
| `Replication.QuorumsIntersect` | src/cluster/replication_manager.cpp:6-10 | any two majority OK writes to a key share an acknowledging node, for any coordinators and health views |
| `Replication.AcksAtMostOne` | src/cluster/replication_manager.cpp:101-112 | if every home's quorum is at least 2, no handler in any run counts more than its own write |
| `Replication.BlockedFails` | src/cluster/replication_manager.cpp:36-40 | no node of a blocked set answers OK in any run: it counts itself and unblocked homes at most |
| `Replication.OkPossible` | src/cluster/replication_manager.cpp:12-41 | for quorums that differ by node, a node has a run that it answers with OK exactly if no blocked set contains it |
| `Replication.OkPossibleUniform` | src/cluster/replication_manager.cpp:12-41 | with one quorum for all, some run is answered OK exactly when the quorum is 0, or is 1 and some home takes the write |
| `Replication.MajorityNeverMet` | src/cluster/replication_manager.cpp:6-10 | with the default quorum and two or more replicas every run is answered ERROR |
| `Forwarding.WriteEndsExactly` | src/cluster/replication_manager.cpp:101-112 | while every forward arrives and nobody is taken for down, a write ends exactly if its key has at most one home |
| `Replication.ReachedHomesHold` | src/cluster/replication_manager.cpp:101-112 | every home that is reached holds the mutation, whatever it forwards, believes or fails to report |
| `Replication.ReachingAllHomes` | src/cluster/replication_manager.cpp:12-41 | a write that reaches every home is held by all of them; if all are heard and need at most their own write, all are counted |
| `Replication.ReadSound` | src/cluster/replication_manager.cpp:43-62 | an OK read returns a value that a home or the primary stores, at any forwarding depth, and any other is NOT_FOUND with an empty value |
| `Replication.ReadFinds` | src/cluster/replication_manager.cpp:43-62 | with every home reachable, the primary finds a key exactly if it has it, any other node exactly if some home has it |
| `Forwarding.ReadReturnsPrimary` | src/cluster/replication_manager.cpp:43-60 | if the primary has the key and is asked or heard, its value is the answer, whatever other homes hold |
| `Forwarding.ReadReturnsSecond` | src/cluster/replication_manager.cpp:48-60 | if the primary lacks the key and the second home has it and is asked or heard, the second home's value is the answer |
| `Forwarding.ReadUnheard` | src/cluster/replication_manager.cpp:43-61 | a node that hears nobody answers from its own store if it is a home or the primary, and finds nothing else |
| `Forwarding.ReadReturnsFirstHolder` | src/cluster/replication_manager.cpp:48-61 | where every forward is answered at every depth, the value is that of the first home in order that has the key |
| `Forwarding.ReadEndsExactly` | src/cluster/replication_manager.cpp:48-60 | where every forward is answered, a read off the primary ends exactly if the key has at most two homes or one of the first two has it |
| `Replication.PrimaryMisses` | src/cluster/replication_manager.cpp:43-47 | the primary can answer NOT_FOUND for a key that a home has exactly when there are two or more homes |
| `Replication.TwoNodePreference` | include/cluster/consistent_hash.h:14-14 | with 1 to 254 virtual nodes, for each one-byte id there is another such that both are in every key's preference list |
| `Replication.MissesSecond` | src/cluster/replication_manager.cpp:12-47 | in every cluster with two homes, a put at the second home that reaches nobody is not found by the primary |
| `Replication.PrimaryMissesExample` | src/cluster/replication_manager.cpp:12-47 | such a cluster: the ring built from a configuration of two nodes with the default 150 virtual nodes or any number from 1 to 254, for every key and value within limits |
| `ThreadPool.StepKeeps` | src/networking/thread_pool.cpp:15-54 | every step of every thread keeps the pool invariant |
| `ThreadPool.TasksConserved` | src/networking/thread_pool.cpp:15-54 | accepted work is queued, running or finished; it starts in order, each item at most once |
| `ThreadPool.AcceptedInOrder` | src/networking/thread_pool.cpp:19-19 | tasks are accepted, hence started, in the order of the pushes |
| `ThreadPool.RejectedExactly` | src/networking/thread_pool.cpp:15-20 | a submit is turned away exactly if it tests the flag after a shutdown call has set it |
| `ThreadPool.AcceptsAll` | src/networking/thread_pool.cpp:15-20 | without a shutdown call every submit that has returned was accepted |
| `ThreadPool.PassRuns` | src/networking/thread_pool.cpp:43-52 | an idle worker that gets the lock runs the oldest task, with or without a shutdown, and exits if there is none and the flag is set |
| `ThreadPool.PassWaits` | src/networking/thread_pool.cpp:45-45 | with an empty queue and no shutdown it goes back to waiting |
| `ThreadPool.NeverPopsEmpty` | src/networking/thread_pool.cpp:45-50 | no worker takes from an empty queue although the flag is set outside the lock |
| `ThreadPool.EmptyAfterExit` | src/networking/thread_pool.cpp:17-19 | once a worker has exited the queue stays empty and nothing more is accepted, in every continuation |
| `ThreadPool.AllRun` | src/networking/thread_pool.cpp:46-48 | when all of at least one worker have exited, everything accepted has run |
| `ThreadPool.ShutdownDrains` | src/networking/thread_pool.cpp:24-34 | a completed shutdown implies that everything accepted has run, exactly when the pool has a worker |
| `ThreadPool.ShutdownCanComplete` | src/networking/thread_pool.cpp:24-54 | from every reachable state in which a shutdown is joining, some continuation makes all workers exit and the call return |
| `ThreadPool.LoserReturnsEarly` | src/networking/thread_pool.cpp:26-33 | with any number of workers, a shutdown call that loses the exchange can return with accepted work not yet run |
| `Protocol.SerializeRequest` | src/protocol/protocol.cpp:10-30 | the encoding of the request |
| `Protocol.RequestLayout` | src/protocol/protocol.cpp:15-27 | where command, big-endian lengths, key and value lie in a request |
| `Protocol.DeserializeRequest` | src/protocol/protocol.cpp:32-60 | the offset walk yields a request exactly if the data begins with that request's encoding, and nothing otherwise |
| `Protocol.SerializeResponse` | src/protocol/protocol.cpp:62-75 | the encoding of the response |
| `Protocol.ResponseLayout` | src/protocol/protocol.cpp:66-72 | where status, big-endian length and value lie in a response |
| `Protocol.DeserializeResponse` | src/protocol/protocol.cpp:77-94 | the same for responses |
| `Protocol.RequestParses` | src/protocol/protocol.cpp:10-60 | a string parses to a request exactly when it begins with that request's encoding |
| `Protocol.RequestPrefixRejected` | src/protocol/protocol.cpp:32-60 | no proper prefix of an encoding parses |
| `Protocol.ResponseParses` | src/protocol/protocol.cpp:62-94 | a string parses to a response exactly when it begins with that response's encoding |
| `Protocol.ResponsePrefixRejected` | src/protocol/protocol.cpp:77-94 | no proper prefix of an encoding parses |
| `Protocol.ReadFrame` | src/protocol/protocol.cpp:96-116 | for any chunking the next frame of the stream, and false exactly if it is incomplete or a read failed |
| `Protocol.WriteFrame` | src/protocol/protocol.cpp:118-132 | for any chunking the whole frame, or a proper prefix of it and false |
| `Protocol.FrameLayout` | src/protocol/protocol.cpp:119-122 | a frame is the big-endian length and then the payload |
| `Protocol.ReadAll` | src/protocol/protocol.cpp:96-116 | repeated reads return the frames of the stream |
| `Protocol.WriteAll` | src/protocol/protocol.cpp:118-132 | repeated writes leave the concatenated frames, or a prefix of them on failure |
| `Protocol.FramesCut` | src/protocol/protocol.cpp:96-132 | a stream of frames cut at any byte yields exactly the payloads of the frames before the cut |
| `Protocol.FramesRoundTrip` | src/protocol/protocol.cpp:96-132 | the whole stream yields every payload |
| `Protocol.RequestDelivered` | src/cluster/cluster_manager.cpp:69-72 | a request that is encoded and framed is the request the other side parses |

## Left out

- Sockets, `poll`, name resolution, `TcpServer` and `TcpConnection`: only the byte stream they carry is modelled.
- The command-line client, the benchmarks, argument parsing and the text of the configuration file; the configuration is a list of ids. The failure detector and replica selection are followed for configurations that repeat no id.
- `ConcurrentKVStore` locking: each call is one atomic step.
- `fsync` and the operating system's caches: bytes are durable once appended.
- Durability in cluster mode: its log append is commented out in the source, so there is nothing between snapshots.
- What happens in runs of cluster forwarding that never end: a `Fate` tree is finite, so the replication results speak of every run in which the request is answered; `WriteEndsExactly` and `ReadEndsExactly` say when there is one.
- Wake-ups in the thread pool: one can be missed, so termination of shutdown is not claimed; a waiting worker may take the lock at any step.
- Different replication factors or configurations on different nodes: one ring and one factor are assumed; quorums and health views may differ.
- The cluster handler's dispatch by command byte: it only selects the handler.
- Concurrent writes to one key in cluster mode: each replicated write is followed alone.
- `entryCount` as a property: it counts appends by one object, not entries of a reopened file.
- What handlers do after `main` has returned, when the store and the log they refer to have been destroyed: a run ends with the process.
- The balance of keys over virtual nodes, which is statistical.
- Replay of a checksummed entry whose inner lengths leave its buffer: the code reads out of bounds there, and the model only records that it would; what it reads is not modelled.
