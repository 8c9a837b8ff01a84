# RangeVecKV, modelled and verified in Dafny

RangeVecKV is a versioned key/value store with a write-ahead log, consistent-hash routing,
background migration between nodes and an outbox that feeds a vector index. This project models
the parts whose correctness depends on several functions working together and proves what they
keep over whole runs. `dafny verify dfyconfig.toml` checks everything.

| modules | what they are about |
|---|---|
| `ByteStrings`, `Documents`, `Decimals`, `Mutations`, `PutLaws` | bytewise order, composite keys, numbers as text, the version and mutation-id rule every put follows, and what puts, batches and deletes of both stores do, said without that rule |
| `PersistenceCodec`, `WalLog`, `WalStore`, `WalDurability`, `TornRuns`, `TextLogs`, `BrokenFiles`, `BatchPuts` | the framed byte format, the write-ahead store over it, what recovery rebuilds, the older text files, and files that are missing, cut or unreadable |
| `RangeScan` | range scans over the ordered map and the paging loops built on them |
| `StripedStore` | the RocksDB-backed store: get, validate and write under striped locks, as interleaved steps |
| `DistinctWalk`, `ClusterRouting`, `RoutingLaws` | the hash ring, the replica walk, and what a decision depends on |
| `DataMigration`, `MigrationProtocol`, `MigrationRuns`, `RingChanges` | the migration manager of one node, the protocol between the nodes, the manager's loops as runs of it, and rings that change |
| `VectorOutbox`, `GatewayServer`, `GatewayLaws`, `IndexAgreement`, `MigrationAtGateway` | the outbox, the document operations, what each leaves key by key, the agreement of store, outbox and index, and how migrated records arrive and leave there |
| `ThreadPool` | the worker pool as a state machine of submitters, workers and a shutdown |
| `RateLimiter`, `EtcdPrefix` | the fixed-window limiter and the etcd prefix range |

Objects that the program updates in place are classes here; their methods are proved against
specification functions, and the theorems are about those functions and about state machines whose
steps use the same functions. Hashes are arbitrary functions, clocks are non-decreasing integers,
byte strings are sequences of 0..255.

## Main results

- Recovery: for every run of puts, batches, deletes, flushes and restarts, recovery rebuilds exactly
  the map in memory although the log is never truncated (`WalDurability.RunRefines`); a torn last
  append can only fail or lose a suffix of that append, and it is known which cuts do which
  (`WalDurability.TornAppend`); runs that go on after such crashes stay recoverable exactly when no
  delete of a live record meets a torn header (`TornRuns.TornRunExactly`), which no run of a store
  that started without files does (`NewStoreIsAlwaysDurable`).
- A put is refused exactly when it comes too late without repeating the stored mutation id, and
  otherwise, unless it repeats that id, leaves its own record; both stores, the gateway and batches
  do the same (`PutLaws.PutExactly`, `WalBatchExactly`, `StripedBatchExactly`), and versioned
  deliveries without shared ids leave the last of the newest (`LastOfNewestWins`).
- Linearizability, freedom from deadlock and termination of the striped-lock store
  (`StripedStore.EveryInterleavingIsSerial`, `RealTimeOrder`, `NoDeadlock`, `EveryRunFinishes`).
- Under one ring migration never lowers the highest version held for a key anywhere in the cluster
  (`MigrationProtocol.HighestVersionNeverDecreases`), the manager's loops are runs of that protocol and
  keep their meaning among the steps of others (`MigrationRuns.EveryInterleavedPass`), and under
  changing rings a run loses nothing exactly when no delete removes a copy newer than all others
  (`RingChanges.RunKeepsExactly`). The gateway stores a posted record as the protocol asks of a
  target (`MigrationAtGateway.ArrivesAsPosted`).
- Routing depends on neither node order nor more than the appended node
  (`ClusterRouting.OrderDoesNotMatter`, `AppendMovesLittle`), and its walk ends exactly when one lap
  holds enough owners (`WalkEndsExactly`); two keys share every slot exactly when their texts are
  equal, and otherwise some ring tells them apart (`RoutingLaws.SharedSlotExactly`,
  `KeyDecidesPrimary`).
- Store, outbox and index agree throughout a run exactly when no upsert repeats a stored mutation id
  with other content (`IndexAgreement.RunAgreesExactly`).
- The pool runs every accepted task exactly once, in order, loses no wake-up and shuts down
  (`ThreadPool.EveryRunIsFair`, `QuietMeansDone`, `EveryShutdownFinishes`).

## Where the code does less than one might expect

Each of these is a lemma with the exact condition, a concrete input, or both.

- A log in the older text format is replaced by puts of the live records, without deletions
  (src/core/kv_store.cpp:774-783, 844-853). This keeps the store recoverable exactly when every
  snapshot key is still live (`WalDurability.LegacyRewriteExactly`). A log holding only part of its
  first header counts as such a log. If that happens under a snapshot that holds a record, which
  takes a log that was missing, empty or in the text format when the snapshot was there, a delete of
  the record is followed by a recovery that brings it back (`TornHeaderResurrects`). A store that
  started without files never gets there (`TornRuns.NewStoreIsAlwaysDurable`).
- A collection name containing byte 0x1f can cut off another collection's range scans
  (`RangeScan.SeparatorCutsOff`, `RangeExactly`), and with them a reindex or a migration scan
  (`VisitedExactly`). A limit of zero returns one record.
- The gateway tells the records of a batch apart with a newline between collection and key, so a
  newline in a collection name can make it refuse a batch of different records
  (`GatewayServer.NewlineConfusesExactly`).
- A task key joins collection and key with a zero byte, so a zero byte in a collection name can make the
  scan pass over a record while another one is pending (`DataMigration.TaskKeysMeetExactly`).
- A node id listed twice leaves the ring short of owners, and a walk for as many replicas as there are
  list entries then never ends (`ClusterRouting.RepeatedIdStarves`, `WalkEndsExactly`,
  `EveryFactorExactly`). `Route` has the enough-owners condition as its
  precondition for that reason only.
- A delayed delete goes by key alone; if the ring changes while it waits it can remove the newest
  version from the whole cluster (`RingChanges.RingChangeLosesNewest`). Comparing the local version
  with the migrated one would suffice only while another node covers the migrated record
  (`DeleteIsSafeExactly`): two nodes that hand a record to each other pass that comparison and both
  delete (`CrossingDeletesLoseAll`). Finding the local version at the target would suffice
  (`GuardedRunKeeps`).
- A post that the owner ignores as repeated is acknowledged also when the owner's version is older, and
  the newer copy is then deleted (`RingChanges.SharedIdLosesNewest`,
  `MigrationProtocol.AckCoversExactly`).
- The delayed delete leaves a pending record in the outbox, so the next drain indexes a document that the
  store no longer has (`IndexAgreement.MigrationDeleteExactly`, `DeletedDocumentReturns`; for a whole pass
  `MigrationAtGateway.PassAgreesExactly`).
- An upsert that repeats a stored mutation id is ignored by the store and still enqueued for the
  index, so a retry with other content splits the two (`IndexAgreement.RetriedIdDiverges`,
  `UpsertAgreesExactly`).
- Twice the limit can pass the rate limiter within one second (`RateLimiter.TwiceIsReached`), and a span
  measured from a call inside a window can allow more than max * (floor(T) + 1)
  (`SpanBoundExactly`).

## Premises

- File writes succeed or are torn by a crash, a failed recovery ends the run, and the written payloads
  are shorter than 2^32 bytes.
- Protobuf and JSON parsing undo serialising; the record and entry formats are parameters
  (`WalLog.Formats`), and so is the parser of the older text lines.
- Migration: no tasks from an earlier ring, no client deletes and non-zero versions; one ring shared by
  all nodes and mutation ids that name a version where a result says so.
- Index agreement: drains are serial with the other operations on a key.

## Model

| member | source | states |
|---|---|---|
| `Mutations.StaleAndRepeatedChangeNothing` | src/core/kv_store.cpp:109-121 | a stale record and a record with the stored mutation id leave the slot alone, and so does delivering any record twice in a row |
| `Mutations.VersionsNeverDecrease` | src/core/kv_store.cpp:533-548 | over any sequence of puts with non-zero versions the stored version never goes down |
| `Mutations.ConvergenceExactly` | src/core/kv_store.cpp:109-121 | every order and repetition of a set of non-zero-version puts ends with t stored if and only if t is newer than every other record of the set and shares its mutation id with none |
| `Mutations.ConsistentConverges` | src/core/kv_store.cpp:533-548 | if equal versions or equal mutation ids mean equal records, every delivery of the set ends with the highest-version record |
| `Mutations.PreparedIsVersioned` | src/gateway/server.cpp:59-72 | a prepared record has a non-zero version and a mutation id, keeps its key and content, and preparing it again changes nothing |
| `Mutations.PreparedKeepsGiven` | src/gateway/server.cpp:59-72 | a given time, version or mutation id is kept, as are key and content; a missing time becomes now, a missing version the record's time as an unsigned number, a missing id the one generated |
| `Mutations.GeneratedIdsUnique` | src/gateway/server.cpp:68-71 | two generated mutation ids are equal exactly when node, time and counter are |
| `Decimals.DecimalReadsBack` | src/infra/cluster_routing.cpp:68 | the decimal text of a number stands for it and has no needless zero in front |
| `PutLaws.PutExactly` | src/core/kv_store.cpp:109-121 | a put is rejected exactly when both versions are given, the stored one is later and the stored id is not repeated; otherwise, unless it repeats that id, its own record is stored, at equal versions and without versions too |
| `PutLaws.WalPutExactly` | src/core/kv_store.cpp:533-548 | for Put of the write-ahead store: that status, that record under the key, its entry appended, and every other key as before; a refused or repeated put changes neither map nor files |
| `PutLaws.StripedPutExactly` | src/core/kv_store.cpp:238-266 | the same status and the same map for Put of the striped store |
| `PutLaws.DeletesExactly` | src/core/kv_store.cpp:310-321 | a delete of either store takes its key and no other; the write-ahead store (lines 589-593) logs it in any case |
| `PutLaws.WalBatchExactly` | src/core/kv_store.cpp:550-587 | the first record of a batch that repeats a key or would be refused alone decides the answer, and nothing changes; without one each batch key holds what its own put leaves and every other key its record |
| `PutLaws.StripedBatchExactly` | src/core/kv_store.cpp:268-308 | a batch succeeds exactly when no key repeats and no record alone would be refused, a repeated key being reported first; then each batch key holds what its own put leaves, otherwise nothing changes; other keys always stay |
| `PutLaws.LastOfNewestWins` | src/core/kv_store.cpp:533-548 | versioned deliveries without shared mutation ids leave the last of the newest: later versions win, and the later delivery among equal ones |
| `Documents.JoinCollision` | src/core/document.cpp:5-7 | two joins by a separator byte are equal exactly when the parts are, or when the longer collection is the shorter one, a separator and a middle part that the shorter one's key begins with; composite, batch and task keys are such joins |
| `Documents.CompositeInjective` | src/core/document.cpp:5-7 | with separator-free collections the composite key determines collection and key |
| `Documents.CompositeOrder` | src/core/document.cpp:5-7 | within one collection composite keys are ordered as the keys are |
| `PersistenceCodec.EncodeFrame` | src/core/persistence_codec.cpp:125-133 | the shift loop writes the length modulo 2^32 as four little-endian bytes in front of the payload |
| `PersistenceCodec.ReadLength` | src/core/persistence_codec.cpp:145-148 | the shift-and-or loop reads the little-endian number that LengthRoundTrip and BytesRoundTrip invert |
| `PersistenceCodec.DecodeFrames` | src/core/persistence_codec.cpp:135-156 | the offset loop computes the recursive parse of the bytes behind the header, with its three error cases |
| `PersistenceCodec.LengthRoundTrip` | src/core/persistence_codec.cpp:127-130 | the four length bytes read back as the length |
| `PersistenceCodec.BytesRoundTrip` | src/core/persistence_codec.cpp:145-148 | any four bytes are the length bytes of the length they read as |
| `PersistenceCodec.RoundTripExactly` | src/core/persistence_codec.cpp:125-156 | header plus frames decode to the payloads if and only if every payload is shorter than 2^32 bytes |
| `PersistenceCodec.AcceptedIsCanonical` | src/core/persistence_codec.cpp:135-156 | a byte string decodes to a list of payloads if and only if it is the header plus their encoding and all are short |
| `PersistenceCodec.CutStream` | src/core/persistence_codec.cpp:140-154 | a stream of frames cut after m bytes decodes exactly when m is a frame boundary, and then to the frames before it |
| `PersistenceCodec.ParseConcatenated` | src/core/persistence_codec.cpp:140-154 | frames followed by any bytes parse to those frames in front of what the rest parses to |
| `PersistenceCodec.FrameIsLittleEndian` | src/core/persistence_codec.cpp:125-133 | byte i of a frame is the i-th digit of the payload length in base 256, and the payload follows |
| `PersistenceCodec.ParseExactly` | src/core/persistence_codec.cpp:135-156 | any bytes are whole frames and a rest, and the rest alone decides between success and the two truncation errors |
| `RangeScan.Walk` | src/core/kv_store.cpp:628-639 | the iterator loop returns the recursive scan from its start position: stop behind the end, at a foreign collection, or when full after a push |
| `RangeScan.HitExactly` | src/core/kv_store.cpp:622-625 | the span runs from the first to the last key, both included, and to the one-byte key 0x7f if no last key is given |
| `RangeScan.RangeMeetsExpectation` | src/core/kv_store.cpp:619-640 | if no foreign record sits in the collection's key block, Range returns the first records of exactly that collection between both keys, in order; limit 0 returns one |
| `RangeScan.RangeExactly` | src/core/kv_store.cpp:619-640 | Range is right for all bounds and limits if and only if no record of another collection sits inside the collection's key block in front of one of its records |
| `RangeScan.PlainNeverIntruded` | src/core/kv_store.cpp:629-631 | with separator-free collection names the collection-mismatch break never cuts off a match |
| `RangeScan.PlainRange` | src/core/kv_store.cpp:619-640 | with separator-free collection names Range is right for every collection, bounds and limit |
| `RangeScan.SeparatorCutsOff` | src/core/kv_store.cpp:629-631 | a concrete store in which a separator inside a collection name makes Range lose a record |
| `RangeScan.PageHits` | src/core/kv_store.cpp:619-640 | for every store a page holds hits of the collection, each once, in ascending order |
| `RangeScan.PageAscends` | src/core/kv_store.cpp:619-640 | a page's keys ascend, lie in the span and belong to the collection, whatever collection names there are |
| `RangeScan.PageCompletes` | src/core/kv_store.cpp:619-640 | where nothing foreign intrudes, an in-span key a page leaves out lies behind its last key, and the page is full |
| `RangeScan.PagingExactlyOnce` | src/gateway/data_migration.cpp:224-270 | whatever happens to the store between pages, visited keys ascend strictly; and if nothing foreign ever intruded, a finished scan has visited every in-span key present throughout |
| `RangeScan.PageShrinks` | src/gateway/server.cpp:487-488 | continuing behind a page's last key leaves strictly fewer keys |
| `RangeScan.ScannedAreVisited` | src/gateway/data_migration.cpp:224-270 | a scan meets one record for each key it visits, in the same order |
| `RangeScan.PagingTerminates` | src/gateway/server.cpp:460-489 | on a fixed store, of any collection names, paging ends after at most one page per in-span key and one more |
| `RangeScan.VisitedExactly` | src/gateway/server.cpp:460-489 | paging over a fixed store visits exactly the in-span keys in front of which no foreign record lies inside the collection's key block |
| `RangeScan.PlainVisitsAll` | src/gateway/server.cpp:460-489 | with separator-free collection names it visits every in-span key |
| `WalLog.WalEntryRoundTrip` | src/core/persistence_codec.cpp:75-102 | a decoded entry keeps operation, record of a put and key of a delete, and replays as the entry written |
| `WalLog.LastWriterWins` | src/core/kv_store.cpp:719-729 | after replay each key holds what the last entry about it says, or what it held before |
| `WalLog.ReplayIdempotent` | src/core/kv_store.cpp:521-531 | replaying a log over its own result changes nothing |
| `WalStore.WriteAheadKvStore.constructor` | src/core/kv_store.cpp:514-515 | a new store holds nothing in memory and leaves both files as they are |
| `WalStore.WriteAheadKvStore.Recover` | src/core/kv_store.cpp:521-531 | map and status are those of the snapshot followed by the whole log, up to the first failure |
| `WalStore.WriteAheadKvStore.ReplaySnapshot` | src/core/kv_store.cpp:674-706 | the records of a framed or text snapshot are laid over the map up to the first unreadable one |
| `WalStore.WriteAheadKvStore.ReplayWal` | src/core/kv_store.cpp:708-756 | the entries of a framed or text log are applied to the map up to the first unreadable one |
| `WalStore.WriteAheadKvStore.Put` | src/core/kv_store.cpp:533-548 | rejected and ignored puts leave map and files alone; an accepted one changes the map and appends its entry |
| `WalStore.WriteAheadKvStore.BatchPut` | src/core/kv_store.cpp:550-587 | the staged batch is logged and installed as a whole, or nothing changes |
| `WalStore.WriteAheadKvStore.Delete` | src/core/kv_store.cpp:589-593 | the key is erased and a delete entry logged, also when the key was absent |
| `WalStore.WriteAheadKvStore.Get` | src/core/kv_store.cpp:595-602 | the record under the composite key, if any |
| `WalStore.WriteAheadKvStore.Range` | src/core/kv_store.cpp:619-640 | the scan that RangeScan states the meaning of |
| `WalStore.WriteAheadKvStore.FlushSnapshot` | src/core/kv_store.cpp:654-672 | the snapshot file becomes header plus all records in key order; map and log are unchanged |
| `WalStore.WriteAheadKvStore.Append` | src/core/kv_store.cpp:758-860 | the log gets its header if new and one frame per entry, or is replaced by puts of the live records if it was in the text format |
| `WalDurability.AppendContent` | src/core/kv_store.cpp:791-826 | an append adds exactly the new entries to what the log file means |
| `WalDurability.SnapshotReadsBack` | src/core/kv_store.cpp:654-706 | a snapshot reads back as the map it was taken of |
| `WalDurability.FlushIsDurable` | src/core/kv_store.cpp:654-672 | a snapshot under the untruncated log still recovers to the map in memory, and so does the snapshot alone; neither map nor log changes |
| `WalDurability.StepRefines` | src/core/kv_store.cpp:521-593 | each operation acts on the map as on a plain map and keeps the files recoverable to it; flush and restart are invisible |
| `WalDurability.RunRefines` | src/core/kv_store.cpp:521-672 | for every run of puts, batches, deletes, flushes and restarts the map in memory is the plain map of the run and recovery rebuilds exactly it |
| `WalDurability.FreshStoreIsGood` | src/core/kv_store.cpp:674-712 | a store without files satisfies the invariant the runs start from |
| `WalDurability.TornAppend` | src/core/kv_store.cpp:708-738 | a log cut at any byte of its last append recovers without an error if and only if the cut is inside a header this append wrote, and then without the append, or falls behind one of its entries, and then with the entries up to there |
| `WalDurability.TornHeaderIsEmpty` | src/core/kv_store.cpp:733-738 | a log that is part of the first header reads as empty, without an error |
| `WalDurability.LegacyRewriteExactly` | src/core/kv_store.cpp:774-783 | rewriting a text-format log keeps the store recoverable if and only if every snapshot key is still live |
| `WalDurability.TornHeaderResurrects` | src/core/kv_store.cpp:834-853 | a log that holds part of a header, under a snapshot that holds a record, then a delete of it: recovery brings the record back |
| `TextLogs.LinesReadBack` | src/core/kv_store.cpp:733-735 | lines written with a newline behind each are read as they were, the last one also without it |
| `TextLogs.TextLogReads` | src/core/kv_store.cpp:733-753 | a log of P and D lines means the puts and deletes its lines say |
| `TextLogs.TextSnapshotReads` | src/core/kv_store.cpp:694-703 | a text snapshot reads as the records of its lines |
| `TextLogs.TextLogRecovers` | src/core/kv_store.cpp:708-756 | recovery from it is the replay of those entries over the snapshot |
| `TextLogs.OtherLines` | src/core/kv_store.cpp:735-746 | a line of neither kind is passed over, and a put line that cannot be read ends the log with an error |
| `TextLogs.OperationExactly` | src/core/persistence_codec.cpp:52-100 | a framed entry is a delete exactly when it says so; an unspecified operation is a put |
| `BrokenFiles.RecordsUpTo` | src/core/kv_store.cpp:685-691 | of framed records those in front of the first unreadable one count, and that one is an error |
| `BrokenFiles.EntriesUpTo` | src/core/kv_store.cpp:719-729 | the same for log entries |
| `BrokenFiles.LogAndSnapshotExactly` | src/core/kv_store.cpp:674-730 | a missing log or snapshot is empty without an error; one cut inside a frame gives nothing and the error of that cut; otherwise it gives what its frames say |
| `BrokenFiles.RecoverExactly` | src/core/kv_store.cpp:521-531 | a failing snapshot ends the recovery with its error; otherwise the log gives the status; the map holds for each key what the last entry read about it says |
| `BrokenFiles.OutboxExactly` | src/gateway/vector_index_outbox.cpp:61-86 | the outbox file: nothing if missing or empty, an error of its own without the header or when cut inside a frame, otherwise the records of its frames |
| `TornRuns.StepExactly` | src/core/kv_store.cpp:521-593 | one operation, completed or torn by a crash at any byte of its append and recovered: the map is that of the operation, or lies key by key between before and after, and the files recover to it unless a delete of a live record met a torn header |
| `TornRuns.CrashStep` | src/core/kv_store.cpp:708-860 | a crash during an append or during the rewrite of a torn header leaves each key as before the operation or as after it |
| `TornRuns.TornRunExactly` | src/core/kv_store.cpp:521-860 | over runs that go on after such crashes the files recover to the map after every event if and only if no delete of a live record meets a log that holds a part of its header only |
| `TornRuns.NewStoreIsAlwaysDurable` | src/core/kv_store.cpp:514-860 | a store that starts without files stays recoverable to its map through every run with such crashes, and the map moves as the plain map allows |
| `TornRuns.FreshIsSane` | src/core/kv_store.cpp:674-712 | a store without files is a place where such runs can start |
| `BatchPuts.BatchSucceedsExactly` | src/core/kv_store.cpp:550-587 | a batch succeeds if and only if its keys are distinct and each record alone would be accepted; otherwise map and log are unchanged |
| `BatchPuts.BatchIsFoldOfPuts` | src/core/kv_store.cpp:550-587 | an accepted batch leaves the map and the log bytes its puts leave one by one |
| `BatchPuts.BatchOrderIrrelevant` | src/core/kv_store.cpp:557-575 | reordering a batch changes neither its success nor the map |
| `BatchPuts.StagePutsEach` | src/core/kv_store.cpp:557-575 | batch keys hold what their own put leaves and other keys keep theirs |
| `StripedStore.RocksDbKvStore.LockRecordStripes` | src/core/kv_store.cpp:455-467 | the stripes of the records are locked in ascending order, each once |
| `StripedStore.SharedStripeExactly` | src/core/kv_store.cpp:448-453 | two keys share a stripe under every hash exactly when their composite keys are equal, and the stripes reached are exactly those below 4096 |
| `StripedStore.RocksDbKvStore.Put` | src/core/kv_store.cpp:238-266 | alone, get-validate-write under the stripe is the atomic put that PutLaws.StripedPutExactly states, and the lock is released |
| `StripedStore.RocksDbKvStore.BatchPut` | src/core/kv_store.cpp:268-308 | alone, the loop under the stripes is the atomic batch that PutLaws.StripedBatchExactly states: duplicate keys refuse first, a rejected record refuses all |
| `StripedStore.RocksDbKvStore.Delete` | src/core/kv_store.cpp:310-321 | alone, a delete removes its key |
| `StripedStore.ReadersUndisturbed` | src/core/kv_store.cpp:242-264 | what a client has validated does not change while it holds its stripes |
| `StripedStore.StepKeepsInv` | src/core/kv_store.cpp:238-321 | every lock, get, write and unlock step of every client keeps lock ownership, validated reads and serial history consistent |
| `StripedStore.EveryInterleavingIsSerial` | src/core/kv_store.cpp:238-321 | in every interleaving the store and every result are those of running the operations one at a time in one order that names each finished client once |
| `StripedStore.RealTimeOrder` | src/core/kv_store.cpp:238-321 | an operation finished before another starts comes first in that order |
| `StripedStore.SomeoneCanStep` | src/core/kv_store.cpp:455-467 | a blocked client leads to one that can step, because stripes are taken in ascending order |
| `StripedStore.NoDeadlock` | src/core/kv_store.cpp:448-467 | no reachable state with unfinished clients is stuck |
| `StripedStore.EveryRunFinishes` | src/core/kv_store.cpp:238-321 | every run has a bounded number of steps and stops only with all operations finished |
| `ClusterRouting.ConsistentHashRouter.constructor` | src/infra/cluster_routing.cpp:57-60 | virtual nodes and slots are at least one and the ring is empty |
| `ClusterRouting.ConsistentHashRouter.Rebuild` | src/infra/cluster_routing.cpp:62-71 | the nested loops leave the first-wins ring of the node list |
| `ClusterRouting.ConsistentHashRouter.SelectReplicas` | src/infra/cluster_routing.cpp:81-97 | if the ring has enough distinct owners the replica walk ends within one lap with the first distinct owners clockwise from the point |
| `ClusterRouting.ConsistentHashRouter.Route` | src/infra/cluster_routing.cpp:73-106 | primary, locality and replicas of a key are those of the distinct owners clockwise from its slot |
| `ClusterRouting.WalkEndsExactly` | src/infra/cluster_routing.cpp:88-97 | the walk can collect the desired owners after some number of steps if and only if one lap holds them, and then within one lap |
| `ClusterRouting.LapMeetsAll` | src/infra/cluster_routing.cpp:88-97 | the distinct owners met on a lap from any point are the owners of the ring |
| `ClusterRouting.EnoughExactly` | src/infra/cluster_routing.cpp:87-97 | a ring serves a replication factor if and only if it has at least as many owners as are desired |
| `ClusterRouting.EveryFactorExactly` | src/infra/cluster_routing.cpp:87-97 | every factor is served if and only if every entry of the node list owns a ring point |
| `ClusterRouting.RepeatedIdOwnsNothing` | src/infra/cluster_routing.cpp:66-70 | an entry whose id stands earlier in the node list owns no ring point |
| `ClusterRouting.RepeatedIdStarves` | src/infra/cluster_routing.cpp:87-97 | with a repeated id anywhere in the list a walk for as many replicas as there are entries never ends |
| `ClusterRouting.AddNodeFacts` | src/infra/cluster_routing.cpp:67-69 | adding a node keeps every earlier point's owner and adds exactly its own free points |
| `ClusterRouting.LapVisitsOnce` | src/infra/cluster_routing.cpp:92-96 | one lap visits every ring point exactly once |
| `ClusterRouting.MoreReplicasExtend` | src/infra/cluster_routing.cpp:87-97 | the replica list for a factor is a prefix of the list for the next factor |
| `ClusterRouting.LapAfterAppend` | src/infra/cluster_routing.cpp:62-71 | the lap after appending a node, with that node removed, is the lap before |
| `ClusterRouting.AppendMovesLittle` | src/infra/cluster_routing.cpp:62-105 | after appending a node each replica list without it is a prefix of the old list, and the primary is the old one or the new node |
| `ClusterRouting.PrimaryMovesOnlyToNewNode` | src/infra/cluster_routing.cpp:62-105 | the primary half holds for any hash function |
| `ClusterRouting.LabelInjective` | src/infra/cluster_routing.cpp:68 | the labels id#index of two points are equal only for the same node id and index |
| `ClusterRouting.EveryNodeOwns` | src/infra/cluster_routing.cpp:66-70 | with distinct ids and no label collisions every node owns all its points |
| `ClusterRouting.CollisionFreeHasEnough` | src/infra/cluster_routing.cpp:87-97 | then the ring has enough owners for every replication factor |
| `ClusterRouting.OrderDoesNotMatter` | src/infra/cluster_routing.cpp:62-123 | then any order of the same nodes gives the same decision for every key |
| `RoutingLaws.SharedSlotExactly` | src/infra/cluster_routing.cpp:121-123 | with at least two slots, two pairs share their slot under every hash if and only if collection, colon and key read the same |
| `RoutingLaws.SlotFollowsHash` | src/infra/cluster_routing.cpp:121-123 | the slot is below the slot count and 2^32, and up to 2^32 slots it is what the hash of that text leaves over |
| `RoutingLaws.SlotsReached` | src/infra/cluster_routing.cpp:121-123 | the slots reached are exactly those below the slot count that fit 32 bits |
| `RoutingLaws.SlotsStartApart` | src/infra/cluster_routing.cpp:81 | two slots start at the same ring position under every hash only if they are equal |
| `RoutingLaws.ClockwiseOrder` | src/infra/cluster_routing.cpp:81-103 | the walk meets the points from the start upwards, then those below it upwards |
| `RoutingLaws.PrimaryOwnsSuccessor` | src/infra/cluster_routing.cpp:81-100 | the primary owns the first point at or above the slot's position, or the lowest if there is none |
| `RoutingLaws.ChosenInLapOrder` | src/infra/cluster_routing.cpp:86-97 | the replicas are the owners in the order in which the walk first meets them |
| `RoutingLaws.DecisionMeans` | src/infra/cluster_routing.cpp:73-106 | no route exactly without nodes; otherwise the primary is the first replica, as many distinct list entries as asked for serve, at least one and at most all, and the decision is local exactly for the router's own id |
| `RoutingLaws.KeyDecidesPrimary` | src/infra/cluster_routing.cpp:73-123 | for any two pairs with different texts there are a hash and a node list that give them different primaries |
| `DataMigration.DataMigrationManager.constructor` | src/gateway/data_migration.cpp:125-137 | a new manager has no tasks |
| `DataMigration.DataMigrationManager.RecoverTasks` | src/gateway/data_migration.cpp:393-455 | pending tasks and delayed deletes become those of the array elements that are objects and name their record; a missing file is no error, and a file that is no JSON array is one and leaves the tasks alone |
| `DataMigration.DataMigrationManager.PersistTasks` | src/gateway/data_migration.cpp:457-502 | the log becomes the pending tasks in key order followed by the delayed deletes |
| `DataMigration.DataMigrationManager.ScanCollection` | src/gateway/data_migration.cpp:224-270 | the paging loop over a store that changes between pages leaves every pending task alone, gives each record that RangeScan.Scanned meets and another node owns a task if it has none, aimed at the owner with no attempts, adds no other task, and tells whether the scan has ended |
| `DataMigration.DataMigrationManager.CollectTasks` | src/gateway/data_migration.cpp:236-262 | records of a page owned elsewhere and not yet pending become tasks for their owner, the log being persisted after each |
| `DataMigration.EnqueuePageKeeps` | src/gateway/data_migration.cpp:236-262 | collecting leaves every pending task as it is, leaves no record of another owner without a task, writes the log exactly when a task is new, and changes nothing else |
| `DataMigration.EnqueuePageAdds` | src/gateway/data_migration.cpp:236-262 | a new task is that of the first record of its key that another node owns, aimed at that owner |
| `DataMigration.ScanEnqueuesExactly` | src/gateway/data_migration.cpp:236-262 | over the records a scan meets: old tasks stay, records owned elsewhere have a task, and a new task is of such a record, aimed at its owner, without attempts, and semantic by title, default collection or image (lines 504-517) |
| `DataMigration.DataMigrationManager.PostPending` | src/gateway/data_migration.cpp:280-334 | each pending task is posted once: accepted ones become delayed deletes, others count an attempt or are given up; the counters grow by as many as became delayed and as were given up |
| `DataMigration.DataMigrationManager.FinishTask` | src/gateway/data_migration.cpp:302-333 | one answer: success moves the task to the delayed deletes, failure counts an attempt or gives up, and the log is persisted |
| `DataMigration.DataMigrationManager.ProcessDueDeletes` | src/gateway/data_migration.cpp:339-369 | due deletes leave the list in order and remove local copies, and index entries of semantic records, where the route still points elsewhere |
| `DataMigration.DataMigrationManager.DeleteLocalIfStillRemote` | src/gateway/data_migration.cpp:378-391 | the copy under the key goes, with its index entry if semantic, unless the route now points here |
| `DataMigration.DueSplit` | src/gateway/data_migration.cpp:339-352 | the delayed deletes split by their time into due and later ones, none lost or doubled |
| `DataMigration.DueInOrder` | src/gateway/data_migration.cpp:339-352 | both parts keep the order |
| `DataMigration.DeletesExactly` | src/gateway/data_migration.cpp:339-391 | a pass takes from the store exactly the keys of due tasks whose owner is another node, whatever their version, and keeps the later tasks; the log is written exactly when a task was due |
| `DataMigration.UnindexExactly` | src/gateway/data_migration.cpp:378-391 | the index loses exactly the composite keys of semantic tasks whose record another node owns |
| `DataMigration.ObjectsConcat` | src/gateway/data_migration.cpp:404-412 | reading the elements of the file passes over those that are no objects and keeps the order of the others |
| `DataMigration.TaskLogReadsBack` | src/gateway/data_migration.cpp:393-502 | the persisted log gives back the delayed deletes, and the pending tasks if and only if all of them have a collection and a key |
| `DataMigration.RecoveredConcat` | src/gateway/data_migration.cpp:407-455 | recovering a log of two parts: later tasks of a key replace earlier ones and the delayed deletes follow in order |
| `DataMigration.RecoveredOne` | src/gateway/data_migration.cpp:407-455 | one element is a pending task, a delayed delete, or nothing if it lacks collection or key |
| `DataMigration.TaskKeysMeetExactly` | src/gateway/data_migration.cpp:519-521 | two different records share a task key if and only if a zero byte in the longer collection continues the shorter one; while one is pending the other gets no task |
| `DataMigration.PostAllAccounts` | src/gateway/data_migration.cpp:290-334 | a pass accounts for every pending task: delivered and waiting for its delete, pending with one more attempt, or given up at the limit |
| `DataMigration.PostAllDelays` | src/gateway/data_migration.cpp:290-334 | a pass puts behind the delayed deletes exactly the delivered tasks, each once, in the order of their keys |
| `MigrationRuns.CollectIsRun` | src/gateway/data_migration.cpp:236-262 | collecting a page is a run of the cluster protocol |
| `MigrationRuns.PostOneIsRun` | src/gateway/data_migration.cpp:290-333 | one post, lost or arriving at the target with or without an answer, followed by the bookkeeping, is a run of the protocol; the manager records a success exactly if the target did not refuse and the answer came back |
| `MigrationRuns.PostAllIsRun` | src/gateway/data_migration.cpp:290-334 | so is the whole pass, whatever becomes of each post |
| `MigrationRuns.ReachablePassIsRun` | src/gateway/data_migration.cpp:290-334 | in every state reached from fresh task lists a pass of any node continues the run |
| `MigrationRuns.OwnStepsDecide` | src/gateway/data_migration.cpp:200-334 | in every run the memory and the task log of a node are what its own steps make of them, whatever other nodes, clients and messages do in between |
| `MigrationRuns.EveryInterleavedPass` | src/gateway/data_migration.cpp:290-334 | so a pass ends with the pending tasks, delayed deletes and log that the pass alone would leave, in every interleaving |
| `MigrationRuns.RunKeepsOrder` | src/gateway/data_migration.cpp:236-255 | every run keeps each pending task under the key of its record and on its way to the owner, another node |
| `MigrationRuns.DeletesAreRun` | src/gateway/data_migration.cpp:339-369 | processing the due deletes is a run of the cluster protocol |
| `MigrationProtocol.FreshIsInv` | src/gateway/data_migration.cpp:125-137 | any stores without tasks satisfy the invariant |
| `MigrationProtocol.AckCoversExactly` | src/core/kv_store.cpp:533-548 | a put that is not rejected, and so acknowledged, leaves its version or a later one if and only if it is not ignored over an older version |
| `MigrationProtocol.StepKeeps` | src/gateway/data_migration.cpp:216-391 | every step of every node that acknowledges no such ignored post keeps the invariant: tasks point at the owner, local copies still equal the migrated record, and a waiting delete is covered by the owner's copy |
| `MigrationProtocol.OnlyDeletesRemove` | src/gateway/data_migration.cpp:378-391 | only a delete whose route was resolved elsewhere removes a copy, and the owner then holds that version or a later one |
| `MigrationProtocol.VersionsStayWithoutShortAcks` | src/gateway/data_migration.cpp:216-502 | between any two points of any run under one ring, with lost acks, late and repeated arrivals, retries, give-ups, crashes and restarts with the task log kept or torn, the highest version held for a key anywhere does not decrease, if no post is ignored over an older version |
| `MigrationProtocol.FixedIdsAckFully` | src/core/kv_store.cpp:109-121 | where each mutation id goes with one version no post is ignored over an older version |
| `MigrationProtocol.HighestVersionNeverDecreases` | src/gateway/data_migration.cpp:216-502 | so with mutation ids that name a version the highest version held for a key anywhere never decreases under one ring |
| `RingChanges.StepKeepsExactly` | src/gateway/data_migration.cpp:378-391 | under any ring, and any mutation ids, a step keeps every held version if and only if it is not a delete of a copy newer than all others |
| `RingChanges.RunKeepsExactly` | src/gateway/data_migration.cpp:216-391 | in a run whose ring may change at every step, also between resolving the route and deleting, no step loses a held version if and only if no step is such a delete |
| `RingChanges.GuardedRunKeeps` | src/gateway/data_migration.cpp:378-391 | a guard a node could check: if every delete that fires finds its target, another node, holding at least the local version, no step loses a held version under any rings |
| `RingChanges.DeleteIsSafeExactly` | src/gateway/data_migration.cpp:378-383 | as long as another node covers the migrated record, a delayed delete is safe if and only if the node has no copy or its copy is not newer than that record |
| `RingChanges.CrossingDeletesLoseAll` | src/gateway/data_migration.cpp:378-383 | a run without client writes in which two nodes hand a record to each other, both deletes pass that comparison, and no node is left with the key |
| `RingChanges.SharedIdLosesNewest` | src/gateway/server.cpp:415-422 | a run under one ring in which the owner ignores a newer record as repeated over an older one, acknowledges it, and the newer copy is deleted everywhere |
| `RingChanges.RingChangeLosesNewest` | src/gateway/data_migration.cpp:378-383 | a run from fresh task lists in which the ring moves a key back and forth and the waiting delete removes the newest version from the whole cluster |
| `MigrationAtGateway.ArrivesAsPosted` | src/gateway/server.cpp:402-435 | what the gateway stores for a versioned record with a collection has its key, version, id and content, so it meets what the protocol asks of a target if and only if the id it ends with names no other version |
| `MigrationAtGateway.TracedKeeps` | src/gateway/server.cpp:424-427 | a trace id joins the metadata under its own name; key, version, id, content and all other metadata stay |
| `MigrationAtGateway.FilledKeeps` | src/gateway/server.cpp:402-412 | a record with a collection keeps it, one without gets the default collection, and nothing else changes |
| `MigrationAtGateway.PutsAgree` | src/core/kv_store.cpp:533-548 | with separator-free collections the gateway's put by composite key and the protocol's by collection and key decide alike and leave the same records |
| `MigrationAtGateway.DeletesAgree` | src/core/kv_store.cpp:589-593 | so do their deletes |
| `MigrationAtGateway.PassIsSitePass` | src/gateway/data_migration.cpp:339-369 | the manager's pass over store and index is the pass of IndexAgreement's delayed deletes over the site |
| `MigrationAtGateway.SiteAfterExactly` | src/gateway/data_migration.cpp:339-391 | that pass takes from store and index exactly the keys of the tasks whose record another node owns, the index keys only for semantic ones, and leaves pending records and outbox file |
| `MigrationAtGateway.PassAgreesExactly` | src/gateway/data_migration.cpp:339-391 | it keeps store, outbox and index in agreement if and only if no key it deletes is pending and every stored one also leaves the index |
| `VectorOutbox.VectorIndex.Upsert` | src/search/vector_index.cpp:489-497 | a computed vector replaces the entry under the record's key; without one nothing changes |
| `VectorOutbox.VectorIndex.Remove` | src/search/vector_index.cpp:499-503 | the entry under the key is gone and the others stay |
| `VectorOutbox.VectorIndexOutbox.constructor` | src/gateway/vector_index_outbox.cpp:52-55 | a new outbox has nothing pending and leaves its file alone |
| `VectorOutbox.VectorIndexOutbox.Recover` | src/gateway/vector_index_outbox.cpp:61-86 | pending becomes what the file's frames say, up to the first unreadable one |
| `VectorOutbox.VectorIndexOutbox.Enqueue` | src/gateway/vector_index_outbox.cpp:115-129 | the record replaces the pending one of its key and the file follows |
| `VectorOutbox.VectorIndexOutbox.Remove` | src/gateway/vector_index_outbox.cpp:131-136 | the key is no longer pending and the file follows |
| `VectorOutbox.VectorIndexOutbox.Rewrite` | src/gateway/vector_index_outbox.cpp:206-222 | the file becomes header plus the pending records in key order |
| `VectorOutbox.VectorIndexOutbox.DrainOnce` | src/gateway/vector_index_outbox.cpp:138-182 | after one pass exactly the records that embed are in the index and no longer pending, the rest is untouched, and the counters account for all |
| `VectorOutbox.RewriteHolds` | src/gateway/vector_index_outbox.cpp:206-222 | whatever was pending when the file was written comes back on recovery |
| `GatewayServer.InProcessGatewayServer.constructor` | src/gateway/server.cpp:76-80 | a server that is not started, over the given store, index and outbox file |
| `GatewayServer.InProcessGatewayServer.Start` | src/gateway/server.cpp:82-110 | the first start recovers the outbox and fails as it does; a second start changes nothing; the server is ready for every operation afterwards |
| `GatewayServer.InProcessGatewayServer.Stop` | src/gateway/server.cpp:167-196 | a stop drains the outbox once and flushes both snapshots; after a failed flush the server counts as started |
| `GatewayServer.InProcessGatewayServer.Prepare` | src/gateway/server.cpp:59-72 | the record is completed and the counter advances only when an id was generated |
| `GatewayServer.InProcessGatewayServer.PutRecord` | src/core/kv_store.cpp:533-548 | the store's decision on the record and the map it leaves |
| `GatewayServer.InProcessGatewayServer.PutAndIndex` | src/gateway/server.cpp:241-254 | store, then enqueue even when the store ignored the record, then drain; a stale record changes nothing |
| `GatewayServer.InProcessGatewayServer.PutKvRecord` | src/gateway/server.cpp:288-308 | a record of another owner or without a key is refused unchanged; otherwise the prepared record is put |
| `GatewayServer.InProcessGatewayServer.PutKvRecords` | src/gateway/server.cpp:310-347 | a batch is refused as a whole for its first objection; otherwise all records are prepared and given to the store as one batch |
| `GatewayServer.InProcessGatewayServer.CheckRecords` | src/gateway/server.cpp:326-341 | the checking loop reports the first objection in record order: no key, repeated key, other owner |
| `GatewayServer.InProcessGatewayServer.PrepareRecords` | src/gateway/server.cpp:343-345 | every record is prepared in order, generated ids counting up |
| `GatewayServer.BatchPassesExactly` | src/gateway/server.cpp:326-341 | a batch passes the checks if and only if every record has a key and belongs here and no two read the same with a newline between collection and key |
| `GatewayServer.NewlineConfusesExactly` | src/gateway/server.cpp:332-335 | two different records count as duplicates if and only if a newline in the longer collection continues the shorter one |
| `GatewayServer.PassedBatchSucceedsExactly` | src/gateway/server.cpp:310-347 | with separator-free collections a batch that passed the checks succeeds if and only if the store would accept each record alone |
| `GatewayServer.InProcessGatewayServer.UpsertDocument` | src/gateway/server.cpp:223-255 | the checks in order, each leaving everything as it was; otherwise the prepared record is put and indexed |
| `GatewayServer.InProcessGatewayServer.ApplyMigratedRecord` | src/gateway/server.cpp:402-435 | a migrated record is put without an ownership check, and indexed if semantic |
| `GatewayServer.InProcessGatewayServer.DeleteDocument` | src/gateway/server.cpp:257-286 | the key leaves outbox, store and index |
| `GatewayLaws.GuardExactly` | src/gateway/server.cpp:223-239 | an upsert, put or delete goes on if and only if the server runs, may write, the key is not empty and the key under its filled-in collection belongs here; the first that fails is the answer |
| `GatewayLaws.BatchGuardExactly` | src/gateway/server.cpp:310-341 | a batch goes on if and only if the server runs, may write, the batch is neither empty nor too large and no record is objected to; each size refusal has its own condition |
| `GatewayLaws.FirstObjectionDecides` | src/gateway/server.cpp:326-341 | the first record without a key, with an earlier record's text, or of another owner decides the answer |
| `GatewayLaws.MadeIdsDiffer` | src/gateway/server.cpp:343-345 | no two generated ids of a batch are equal, each takes a counter of its own, and given ids stay |
| `GatewayLaws.BatchKeepsGiven` | src/gateway/server.cpp:59-72 | every record of a batch reaches the store with the client's key and content, its collection, time, version and id kept where given |
| `GatewayLaws.BatchReplyExactly` | src/gateway/server.cpp:347 | the store's answer to the first troubled record of a batch reaches the client, and nothing is stored |
| `GatewayLaws.GatewayPutExactly` | src/gateway/server.cpp:305-307 | a prepared put is stale exactly when it comes too late without repeating the stored id; it is stored if it neither comes too late nor repeats, and no other key changes |
| `GatewayLaws.DrainExactly` | src/gateway/vector_index_outbox.cpp:138-182 | key by key, exactly the pending records that embed move to the index, and the file is written exactly when one did |
| `GatewayLaws.UpsertExactly` | src/gateway/server.cpp:241-254 | key by key, what an upsert leaves: its record in the index if it embeds and pending otherwise, also when the store ignored it, and every record pending before is tried as well |
| `GatewayLaws.DeleteExactly` | src/gateway/server.cpp:275-285 | the key leaves store, outbox and index, and every other key stays in all three |
| `GatewayLaws.ReindexExactly` | src/gateway/server.cpp:469-482 | a reindexed key holds what the store holds, whatever the index held, and other keys stay |
| `GatewayServer.InProcessGatewayServer.ReindexDocuments` | src/gateway/server.cpp:451-497 | refused before start; otherwise it indexes every visited record once exactly when all embed, and then reports the flush of the index; after an embedding failure it has indexed as many as it counted |
| `GatewayServer.InProcessGatewayServer.ReindexPages` | src/gateway/server.cpp:457-489 | the paging loop, for any collection names, over exactly the keys that RangeScan.VisitedExactly characterises |
| `GatewayServer.InProcessGatewayServer.IndexPage` | src/gateway/server.cpp:469-482 | the records of a page are indexed in order up to the first failure |
| `GatewayServer.AfterPage` | src/gateway/server.cpp:469-488 | after a page the records indexed so far are visited ones, counted once each, and what is left is what the next page starts with |
| `IndexAgreement.UpsertAgreesExactly` | src/gateway/server.cpp:241-254 | an upsert keeps store, outbox and index in agreement if and only if it is not a repeated mutation id with different content |
| `IndexAgreement.RetriedIdDiverges` | src/gateway/server.cpp:241-254 | retrying a mutation id with other content leaves the store with the first and the index or outbox with the second |
| `IndexAgreement.DrainAgrees` | src/gateway/vector_index_outbox.cpp:138-182 | a drain keeps the agreement whatever embeds and whatever fails |
| `IndexAgreement.CleanDrainSyncs` | src/gateway/vector_index_outbox.cpp:138-182 | a drain leaves nothing pending exactly when every pending record embeds, and store and index then hold the same documents |
| `IndexAgreement.DeleteAgrees` | src/gateway/server.cpp:275-285 | a document delete keeps the agreement |
| `IndexAgreement.ReindexAgrees` | src/gateway/server.cpp:469-482 | reindexing any part of the store keeps the agreement, also when it stopped half way |
| `IndexAgreement.RestartIsDrain` | src/gateway/server.cpp:167-196 | a clean stop and start together do what a drain does: the outbox file gives back exactly what was pending |
| `IndexAgreement.RunAgreesExactly` | src/gateway/server.cpp:167-286 | store, outbox and index agree after every prefix of a run if and only if no upsert of it meets a store that ignores it as repeated although its content is new |
| `IndexAgreement.EveryRunAgrees` | src/gateway/server.cpp:167-286 | the same from an empty server: after every step each stored document's content is its pending task's, or its index entry's if none is pending, and absent keys are in neither |
| `IndexAgreement.MigrationDeleteExactly` | src/gateway/data_migration.cpp:378-391 | the migration's delete of a semantic record keeps the agreement if and only if the key is not pending |
| `IndexAgreement.PlainMigrationDeleteExactly` | src/gateway/data_migration.cpp:383-390 | for a record taken as not semantic it does if and only if the key is not stored |
| `IndexAgreement.DeletedDocumentReturns` | src/gateway/vector_index_outbox.cpp:158-164 | a drain after such a delete indexes the pending document again although the store no longer has it |
| `IndexAgreement.EveryRunCanSync` | src/gateway/vector_index_outbox.cpp:138-182 | after any such run a drain or restart in which every embedding works leaves store and index with the same documents |
| `ThreadPool.FallbackThreadPoolBackend.constructor` | src/infra/thread_pool.cpp:21-38 | one worker if none is asked for, 1024 places for each worker if no capacity is given, nothing queued |
| `ThreadPool.FallbackThreadPoolBackend.SubmitTask` | src/infra/thread_pool.cpp:44-58 | a stopped or full pool refuses without a change; otherwise the task is appended and counted |
| `ThreadPool.FallbackThreadPoolBackend.BeginShutdown` | src/infra/thread_pool.cpp:64-71 | the pool is stopping, and only the first caller is told to go on |
| `ThreadPool.FallbackThreadPoolBackend.TakeTask` | src/infra/thread_pool.cpp:107-117 | a worker sleeps, leaves, or takes the oldest task, as queue and stop flag say |
| `ThreadPool.FallbackThreadPoolBackend.CountCompleted` | src/infra/thread_pool.cpp:125 | one more completed task and nothing else |
| `ThreadPool.InitialIsInv` | src/infra/thread_pool.cpp:31-38 | a new pool satisfies the invariant |
| `ThreadPool.SizesExactly` | src/infra/thread_pool.cpp:9-38 | a pool has at least one worker and, unless told otherwise, room for 1024 tasks for each |
| `ThreadPool.SubmitExactly` | src/infra/thread_pool.cpp:44-58 | a submission is accepted if and only if the pool is not stopping and its queue is below its capacity; then it stands last and is notified, otherwise nothing changes |
| `ThreadPool.StepKeepsBalance` | src/infra/thread_pool.cpp:44-127 | every step keeps: taken then queued is what was accepted, counters account for every task, the queue fits its capacity |
| `ThreadPool.StepKeepsWakeups` | src/infra/thread_pool.cpp:60-73 | every step keeps: while a worker sleeps each queued task has a notification on its way or a worker awake for it, and no worker leaves before the queue is empty |
| `ThreadPool.StepKeepsOnce` | src/infra/thread_pool.cpp:115-125 | every step keeps: each taken task has run once or is held by one worker, and no other has |
| `ThreadPool.EveryRunIsFair` | src/infra/thread_pool.cpp:44-127 | in every interleaving tasks start in submission order, none runs twice, submitted = queued + held + completed, and the queue stays within its capacity |
| `ThreadPool.StepUsesWork` | src/infra/thread_pool.cpp:103-127 | every step of the pool's own uses up work, so it makes boundedly many without new submissions |
| `ThreadPool.QuietMeansDone` | src/infra/thread_pool.cpp:103-127 | the pool is quiet only with every accepted task run and counted, and all workers asleep, or gone if it is stopping |
| `ThreadPool.DrainsWithinBound` | src/infra/thread_pool.cpp:103-127 | left alone the pool stops moving within a bound, with everything accepted completed |
| `ThreadPool.AfterShutdownOnlyInternal` | src/infra/thread_pool.cpp:64-82 | after a shutdown submissions change nothing, so only the pool's own steps remain |
| `ThreadPool.EveryShutdownFinishes` | src/infra/thread_pool.cpp:64-82 | every run from a stopping state, with refused submissions anywhere in it, makes boundedly many other steps and is stuck only with every worker gone and everything accepted completed |
| `ThreadPool.ShutdownFinishes` | src/infra/thread_pool.cpp:64-82 | and some run indeed gets there |
| `RateLimiter.FixedWindowRateLimiter.constructor` | src/gateway/interceptors.cpp:11-12 | the first window opens at construction and is empty |
| `RateLimiter.FixedWindowRateLimiter.Allow` | src/gateway/interceptors.cpp:14-28 | the answer and the next window follow from the current window and the time |
| `RateLimiter.AnySecondAllowsTwice` | src/gateway/interceptors.cpp:14-28 | for non-decreasing call times any half-open second contains at most twice the limit of allowed calls |
| `RateLimiter.TwiceIsReached` | src/gateway/interceptors.cpp:14-28 | that bound is reached for every limit |
| `RateLimiter.SpanFromConstruction` | src/gateway/interceptors.cpp:14-28 | up to T after construction at most max * (floor(T) + 1) calls are allowed |
| `RateLimiter.SpanFromWindow` | src/gateway/interceptors.cpp:14-28 | up to T after a window opened at most max * (floor(T) + 1) less the calls already counted are allowed |
| `RateLimiter.SpanBoundExactly` | src/gateway/interceptors.cpp:14-28 | measured from the first call the same bound holds for every run if and only if that call opens a window, falls on the opening tick, or finds the window used up |
| `RateLimiter.WindowIsUsedUp` | src/gateway/interceptors.cpp:14-28 | within one window the first calls up to the limit are allowed, and no other |
| `RateLimiter.RefusedExactly` | src/gateway/interceptors.cpp:14-28 | a call is refused if and only if the limit is zero or its window is not over and used up; a call after the end of a window opens the next one |
| `EtcdPrefix.PrefixRangeEnd` | src/infra/etcd_discovery.cpp:41-56 | the reverse loop computes the prefix without its trailing 0xff bytes and with its last byte raised |
| `EtcdPrefix.RangeCoversPrefix` | src/infra/etcd_discovery.cpp:41-56 | a key starts with the prefix if and only if it is at or behind the prefix and the prefix is all 0xff or the key is in front of the end key |

## Left out

- HTTP, BRPC, JSON, configuration, logging, metrics, health reports and authentication: plumbing.
- File system failures: a write succeeds or, for the log, is torn by a crash; torn snapshots and failing writes are not modelled, so the order of memory change and append in Put and BatchPut is not observable here.
- JSON text of the task log: a file is missing, not JSON, no array, or an array of elements, and the fields of an object are taken as given.
- Protobuf bytes: records and entries are arbitrary payloads; strings that Protobuf would refuse as invalid UTF-8 are not modelled.
- WAL-store Collections and MultiGet, RocksDB Get and Range: short lookups over the same map that would add only easy members.
- RocksDB internals and column-family creation failures: the database is an atomic map from collection and key to record.
- The TBB backend of the worker pool and packaged-task futures; the task body is one step that ends.
- 64-bit wrap-around of counters and of the default queue capacity (workers * 1024).
- Node health, weight and zone: Route ignores them.
- Crash durability of the vector index: it is saved only by a flush while outbox tasks are erased at once, so the outbox runs have clean restarts only.
- Pure key/value writes and deletes on document keys, and migrated records that are not semantic: they bypass the index by design, so runs of the agreement theorem do not contain them.
- A drain that overlaps an upsert or delete of the same key: it erases by key after indexing a copy.
- Migration liveness: a copy older than the owner's is rejected and retried again and again.
- Etcd registration, leases and watches; only the prefix range is modelled.
- Vectors, scores, search and index ids: the index is a map from composite key to record.
- DataMigration.DataMigrationManager.ScanCollection: scans one collection; the list of collections and reads that fail are not part of this model, and the route of a record is an owner function.
- GatewayServer.InProcessGatewayServer.PutRecord: the store behind the server is the plain map that WalDurability.RunRefines shows the write-ahead store to be.
- GatewayServer.InProcessGatewayServer.Stop: stopping discovery and migration is not part of this model.
- GatewayServer.InProcessGatewayServer.Start: creating store, embedding service and index, routing, discovery, migration and demo seeding, and their failures, are not part of this model.
