# Verification model of NacosSync

NacosSync is a cluster of workers that copy service registrations between Nacos, Eureka and ZooKeeper. This project
models the parts of the worker where correctness is hard to see from any one method, and proves properties of them
with Dafny 4.11. `dafny verify dfyconfig.toml` checks everything.

| file | models |
|---|---|
| `Common.dfy`, `Text.dfy`, `Bits.dfy` | Java's ints and bytes, string order, printing, splitting, and bits of numbers |
| `Ring.dfy` | the sharding ring of virtual nodes; MD5 is an arbitrary function to 16 bytes, the rest is 32-bit arithmetic |
| `Membership.dfy` | the view of live workers that watch events maintain, and the sharding decisions on it |
| `Tasks.dfy`, `Dispatch.dfy` | tasks; the query and clean-up timers of all workers, and their convergence |
| `Protocol.dfy` | operation ids over whole runs of concurrent requests, timers, listeners and cleaners |
| `Balance.dfy` | the balance counters |
| `TaskCache.dfy` | the cached task list and the watch that invalidates it |
| `Registry.dfy` | instances, provenance tags, and the registries as maps |
| `NacosToNacos.dfy`, `NacosToEureka.dfy`, `EurekaToNacos.dfy`, `NacosToZookeeper.dfy` | one pass of each sync service |
| `Cyclic.dfy` | Nacos-to-Nacos tasks on any graph, cycles included |
| `Murmur2.dfy`, `BitField.dfy`, `Utf8.dfy`, `Address.dfy`, `Paging.dfy` | self-contained algorithms |
| `Regex.dfy` | backtracking matching with Java's order of preference |
| `UrlCode.dfy`, `KeyValues.dfy`, `IpPort.dfy`, `DubboUrl.dfy` | percent-encoding, and Dubbo provider paths printed and parsed |
| `ZookeeperPaths.dfy` | the ZooKeeper service with that printer |

Objects the worker updates in place are classes whose methods are proved against a specification function; the
properties are then proved of that function, or of a state machine whose steps are those functions.

The main results:

- **Sharding.** For any hash, with colliding positions and last-writer-wins, inserting a node moves keys only to it
  (`Ring.MinimalDisruption`); registered workers see the live set and agree on owner and head (`Membership.WorkersAgree`).
- **Dispatch.** Any interleaving of one tick per timer and worker settles every finished map (`Dispatch.TicksSettle`),
  which gives convergence of SYNC and DELETE tasks; over every run an operation id means one task and one status, and is
  dispatched at most once until it fails, is cleaned or is lost in a restart (`Protocol.OneTaskOneStatus`, `Protocol.DispatchedAtMostOnce`).
- **Reconciliation.** What a pass of each service leaves, that it is idempotent and that it loses nothing on the way. For
  Nacos to Nacos and Nacos to Eureka these are exactly the copies of the eligible instances, field by field; for Eureka to Nacos they are
  if and only if no stale copy is still up (`EurekaToNacos.PassReconcilesIff`); for ZooKeeper the diff is compared with a
  full recompute, and every node is one segment below its service path and encodes its instance's URL. On any graph of Nacos-to-Nacos tasks copies never echo (`Cyclic.NoEcho`).
- **Cache.** When a cached list can differ from the store, and that it cannot once all watch events are delivered.
- **Algorithms.** murmur2 cannot collide on inputs that differ in one block; bit fields and addresses round trip, with
  the exact conditions; what comes back from a Dubbo path, with the exact conditions on the protocol, the port and the
  entries as long as nothing else in it looks like an address; UTF-8 lengths and pages are right up to 32-bit overflow.

Where the code does not do what one would expect, the exact condition is proved for all inputs, with an input that
fails: replica labels collide (`Ring.LabelsCollideIff`, `Ring.LabelsCollide`); the clean-up timer casts every service of a
Nacos source to the Eureka implementation, so a Nacos-to-Nacos task is never cleaned up (`Dispatch.SyncConverges`,
`Dispatch.NacosToNacosStaysHeld`); the membership snapshot precedes the watch (`Membership.LostChanges`,
`Membership.LostLeaveStays`); so can a load of the task list (`TaskCache.WatchKeepsCoherent`,
`TaskCache.LateWatchGoesStale`); an Eureka instance tagged by another cluster keeps a stale copy alive
(`EurekaToNacos.PassReconcilesIff`, `EurekaToNacos.LeftoverSurvives`); a ZooKeeper pass can drop a path somebody else
created (`NacosToZookeeper.DiffIsRecomputeIff`, `NacosToZookeeper.ForeignNodeDropped`); members equal ignoring case count
tasks twice (`Balance.BalanceConserved`, `Balance.TwinsCountTwice`); page arithmetic overflows (`Paging.PageRightIff`,
`Paging.OverflowRepeatsFirstPage`). "Finished" means that the handler ran without throwing: the listener ignores whether
the sync succeeded.

## Model

| member | source | states |
|---|---|---|
| `Ring.FoldDigest` | register-sync-ext/nacossync-worker/src/main/java/com/alibaba/nacossync/extension/ha/ConsistentHash.java:71-76 | the loop of shifts and ors folds the first four signed digest bytes, most significant first, into one unsigned word |
| `Ring.FirstWordBytes` | register-sync-ext/nacossync-worker/src/main/java/com/alibaba/nacossync/extension/ha/ConsistentHash.java:71-76 | the word is determined by its four bytes, read back from it most significant first |
| `Ring.PositionOf` | register-sync-ext/nacossync-worker/src/main/java/com/alibaba/nacossync/extension/ha/ConsistentHash.java:34 | the low 32 bits as a signed int, without its sign unless it is the smallest int |
| `Ring.ShiftOrAdds` | register-sync-ext/nacossync-worker/src/main/java/com/alibaba/nacossync/extension/ha/ConsistentHash.java:73-74 | shifting by a byte and or-ing the next one in adds them, bit for bit; the fold is proved with it |
| `Ring.PositionCollisions` | register-sync-ext/nacossync-worker/src/main/java/com/alibaba/nacossync/extension/ha/ConsistentHash.java:34 | two digests take the same ring position if and only if their first words are equal or add up to 2^32; the one negative position is the smallest int, which is its own absolute value |
| `Ring.LabelsCollide` | register-sync-ext/nacossync-worker/src/main/java/com/alibaba/nacossync/extension/ha/ConsistentHash.java:32 | a pair of addresses whose replica labels coincide, so that positions collide whatever the hash is |
| `Ring.LabelsCollideIff` | register-sync-ext/nacossync-worker/src/main/java/com/alibaba/nacossync/extension/ha/ConsistentHash.java:30-32 | replica labels of two different nodes coincide if and only if one address is the other followed by a number whose tenfold is still a replica number |
| `Ring.BuildAt` | register-sync-ext/nacossync-worker/src/main/java/com/alibaba/nacossync/extension/ha/ConsistentHash.java:29-40 | the last node added takes every position it writes and leaves all others as they were |
| `Ring.ConsistentHash.constructor` | register-sync-ext/nacossync-worker/src/main/java/com/alibaba/nacossync/extension/ha/ConsistentHash.java:21-27 | adding the nodes in iteration order builds exactly the ring of the specification |
| `Ring.ConsistentHash.Add` | register-sync-ext/nacossync-worker/src/main/java/com/alibaba/nacossync/extension/ha/ConsistentHash.java:29-40 | the ring after the loop, position by position; none for a replica number below one |
| `Ring.ConsistentHash.GetNode` | register-sync-ext/nacossync-worker/src/main/java/com/alibaba/nacossync/extension/ha/ConsistentHash.java:114-124 | the node at the first position clockwise from the key, wrapping around; nothing exactly for an empty ring |
| `Ring.FirstClockwiseUnique` | register-sync-ext/nacossync-worker/src/main/java/com/alibaba/nacossync/extension/ha/ConsistentHash.java:119-122 | there is only one first position clockwise |
| `Ring.ConsistentHash.GetHeadNode` | register-sync-ext/nacossync-worker/src/main/java/com/alibaba/nacossync/extension/ha/ConsistentHash.java:126-130 | the node at the least of all occupied positions; nothing exactly for an empty ring |
| `Ring.MinimalDisruption` | register-sync-ext/nacossync-worker/src/main/java/com/alibaba/nacossync/extension/ha/ConsistentHash.java:21-40 | a node added anywhere in the iteration order, for any hash and with colliding positions: every lookup answers as before or moves to that node; read backwards, dropping a node moves only its own keys |
| `Text.AscendingSorted` | register-sync-ext/nacossync-worker/src/main/java/com/alibaba/nacossync/extension/ha/AbstractSyncShardingEtcdProxy.java:41 | the set of nodes iterates in strictly ascending string order, which decides who wins a colliding position |
| `Text.BeforeIff` | register-sync-ext/nacossync-worker/src/main/java/com/alibaba/nacossync/extension/ha/AbstractSyncShardingEtcdProxy.java:41 | that order is decided at the first character in which two strings differ, and puts a proper prefix first |
| `Text.EqualsIgnoreCaseIff` | register-sync-ext/nacossync-worker/src/main/java/com/alibaba/nacossync/extension/ha/ConsistentHashSyncShardingEtcdProxy.java:38 | equal in length and, character by character, equal up to the case of a letter from A to Z |
| `Ring.RingOfAt` | register-sync-ext/nacossync-worker/src/main/java/com/alibaba/nacossync/extension/ha/ConsistentHashSyncShardingEtcdProxy.java:57-59 | rings rebuilt from a membership set: a position is occupied exactly when some member writes it, and the greatest such member in the set's order holds it |
| `Ring.KeysMoveOnlyWithMembers` | register-sync-ext/nacossync-worker/src/main/java/com/alibaba/nacossync/extension/ha/ConsistentHashSyncShardingEtcdProxy.java:54-61 | between any two memberships a key changes owner only if its old owner left or its new owner joined |
| `Ring.OwnerIsMember` | register-sync-ext/nacossync-worker/src/main/java/com/alibaba/nacossync/extension/ha/ConsistentHashSyncShardingEtcdProxy.java:26-29 | a lookup answers exactly when the set is non-empty and replicas are positive, and then with a member |
| `Ring.OwnerByDigest` | register-sync-ext/nacossync-worker/src/main/java/com/alibaba/nacossync/extension/ha/ConsistentHash.java:34-37 | with MD5 as any function to 16 bytes: the owner of a key has a replica first clockwise from it among all replicas of all members, and of the members whose digest words are equal or negatives there it is the greatest |
| `Ring.HeadByDigest` | register-sync-ext/nacossync-worker/src/main/java/com/alibaba/nacossync/extension/ha/ConsistentHash.java:126-130 | the head has a replica at the least position among all replicas of all members, and is the greatest member with one there |
| `Ring.BuildHolder` | register-sync-ext/nacossync-worker/src/main/java/com/alibaba/nacossync/extension/ha/ConsistentHash.java:21-40 | in a ring built from any list, repetitions included, a position is held by the last element of the list that writes it, and is occupied only if one does |
| `Text.SplitGlues` | register-sync-ext/nacossync-worker/src/main/java/com/alibaba/nacossync/util/StringUtils.java:50 | splitting at a character: the parts, none containing it, give the string back with one between any two, but for trailing ones; the last part is not empty |
| `Text.DecimalCanonical` | register-sync-ext/nacossync-worker/src/main/java/com/alibaba/nacossync/extension/ha/ConsistentHash.java:32 | a number is printed without leading zeros, with a minus sign exactly if it is negative |
| `Membership.SegmentOfWorkerKey` | register-sync-ext/nacossync-worker/src/main/java/com/alibaba/nacossync/extension/ha/AbstractSyncShardingEtcdProxy.java:75-82 | the fourth path segment of a worker's key is the registered address, if and only if the address is non-empty and has no slash |
| `Membership.WorkerKeyIs` | register-sync-ext/nacossync-worker/src/main/java/com/alibaba/nacossync/extension/ha/AbstractSyncShardingEtcdProxy.java:118 | workers register under /nacos_sync/worker_ips/ and their address |
| `Membership.NeverDropsItself` | register-sync-ext/nacossync-worker/src/main/java/com/alibaba/nacossync/extension/ha/AbstractSyncShardingEtcdProxy.java:81-82 | whatever a response holds, an address equal to the worker's own ignoring case stays in its view |
| `Membership.MalformedKeyStops` | register-sync-ext/nacossync-worker/src/main/java/com/alibaba/nacossync/extension/ha/AbstractSyncShardingEtcdProxy.java:75-82 | the delete event of a key with fewer than four segments throws, and drops nothing and the rest of the response |
| `Membership.NodeCache.InitData` | register-sync-ext/nacossync-worker/src/main/java/com/alibaba/nacossync/extension/ha/AbstractSyncShardingEtcdProxy.java:102-111 | the view becomes exactly the snapshot's values |
| `Membership.NodeCache.OnResponse` | register-sync-ext/nacossync-worker/src/main/java/com/alibaba/nacossync/extension/ha/AbstractSyncShardingEtcdProxy.java:70-98 | the view after one watch response is the replay of its events, including the events left out when a malformed key throws |
| `Membership.ReplaySplits` | register-sync-ext/nacossync-worker/src/main/java/com/alibaba/nacossync/extension/ha/AbstractSyncShardingEtcdProxy.java:69-70 | how the watch groups events into responses makes no difference |
| `Membership.ViewTracksLive` | register-sync-ext/nacossync-worker/src/main/java/com/alibaba/nacossync/extension/ha/AbstractSyncShardingEtcdProxy.java:70-98 | replaying any watch sequence misses nobody alive, and lists beyond the live workers at most the worker's own address |
| `Membership.RegisteredViewIsLive` | register-sync-ext/nacossync-worker/src/main/java/com/alibaba/nacossync/extension/ha/AbstractSyncShardingEtcdProxy.java:67-121 | while a worker is registered, its view is the live set |
| `Membership.LostChanges` | register-sync-ext/nacossync-worker/src/main/java/com/alibaba/nacossync/extension/ha/AbstractSyncShardingEtcdProxy.java:67-69 | with changes lost between the snapshot and the start of the watch, the view is right if and only if every worker they altered shows up again in the watch |
| `Membership.LostLeaveStays` | register-sync-ext/nacossync-worker/src/main/java/com/alibaba/nacossync/extension/ha/AbstractSyncShardingEtcdProxy.java:67-69 | a worker that leaves between snapshot and watch stays in the view |
| `Membership.HeadIsMember` | register-sync-ext/nacossync-worker/src/main/java/com/alibaba/nacossync/extension/ha/ConsistentHashSyncShardingEtcdProxy.java:31-34 | the head node is a member, and exists exactly for a non-empty view and positive replicas |
| `Membership.ExactlyOneLeader` | register-sync-ext/nacossync-worker/src/main/java/com/alibaba/nacossync/extension/ha/ConsistentHashSyncShardingEtcdProxy.java:45-52 | of the workers sharing a non-empty view distinct ignoring case, exactly one takes itself for the leader, and it is the head of the ring |
| `Membership.ExactlyOneProcessNode` | register-sync-ext/nacossync-worker/src/main/java/com/alibaba/nacossync/extension/ha/ConsistentHashSyncShardingEtcdProxy.java:36-43 | of the workers sharing a non-empty view distinct ignoring case, exactly one takes itself for a service's process node, and it is the ring owner |
| `Membership.WorkersAgree` | register-sync-ext/nacossync-worker/src/main/java/com/alibaba/nacossync/extension/ha/ConsistentHashSyncShardingEtcdProxy.java:26-61 | workers whose histories end in the same live set have equal views and compute the same owner and head node, whatever order things happened in |
| `Membership.ConfiguredDecide` | register-sync-ext/nacossync-worker/src/main/java/com/alibaba/nacossync/extension/ha/ConsistentHashSyncShardingEtcdProxy.java:54-61 | with an empty view, owner and head are the last of the configured addresses with a replica first clockwise, or at the least position, among all of theirs |
| `Tasks.FindsFirst` | register-sync-ext/nacossync-worker/src/main/java/com/alibaba/nacossync/dao/TaskAccessService.java:62-66 | the first task of the list with the operation id, or nothing exactly if no task has it |
| `Tasks.FindByServiceNameIs` | register-sync-ext/nacossync-worker/src/main/java/com/alibaba/nacossync/dao/TaskAccessService.java:56-60 | exactly the tasks with the name, in the order of the list and as often as they are there |
| `Dispatch.Worker.AddFinishedTask` | register-sync-ext/nacossync-worker/src/main/java/com/alibaba/nacossync/cache/SkyWalkerCacheServices.java:78-86 | the operation is added to the finished map and nothing else changes |
| `Dispatch.Worker.GetFinishedTask` | register-sync-ext/nacossync-worker/src/main/java/com/alibaba/nacossync/cache/SkyWalkerCacheServices.java:88-97 | an entry exactly for a non-empty operation id in the map |
| `Dispatch.Worker.QueryTick` | register-sync-ext/nacossync-worker/src/main/java/com/alibaba/nacossync/timer/QuerySyncTaskTimer.java:85-117 | unless the switch is missing or false, one tick adds exactly the operations of the DELETE tasks and of the SYNC tasks the worker owns, as far as their handlers do not throw; else nothing changes |
| `Dispatch.Worker.CleanTick` | register-sync-ext/nacossync-worker/src/main/java/com/alibaba/nacossync/timer/CleanUnBelongTaskTimer.java:73-129 | unless the switch is missing or false, one tick takes out the finished operation of every SYNC task the worker does not own, but for tasks from Nacos to anything else than Eureka and from Eureka to anything else than Nacos; operations without a task stay and nothing is added |
| `Dispatch.QueryTickIsRun` | register-sync-ext/nacossync-worker/src/main/java/com/alibaba/nacossync/timer/QuerySyncTaskTimer.java:95-112 | what the method computes for one tick is a run of one check per task, with the end of the handler as a step of its own for each dispatched one |
| `Dispatch.CleanTickIsRun` | register-sync-ext/nacossync-worker/src/main/java/com/alibaba/nacossync/timer/CleanUnBelongTaskTimer.java:80-125 | what the method computes for one tick is a run that scans every finished entry and then removes the collected ones |
| `Dispatch.TicksSettle` | register-sync-ext/nacossync-worker/src/main/java/com/alibaba/nacossync/timer/CleanUnBelongTaskTimer.java:80-125 | in any interleaving of one query tick and one clean-up tick of every worker, with handlers ending at any time after their dispatch, each finished map ends up with exactly the operations that ownership, status, failures and the types of the two clusters decide |
| `Dispatch.TicksExist` | register-sync-ext/nacossync-worker/src/main/java/com/alibaba/nacossync/timer/QuerySyncTaskTimer.java:95-112 | from every state at rest there is such a run |
| `Dispatch.SyncConverges` | register-sync-ext/nacossync-worker/src/main/java/com/alibaba/nacossync/timer/CleanUnBelongTaskTimer.java:80-125 | a SYNC task's operation ends up with its ring owner, and with the owner alone if and only if nobody else held it before, or neither the task leads from Nacos to anything else than Eureka nor from Eureka to anything else than Nacos |
| `Dispatch.NacosToNacosStaysHeld` | register-sync-ext/nacossync-worker/src/main/java/com/alibaba/nacossync/timer/CleanUnBelongTaskTimer.java:108-120 | for any two workers and any hash: a Nacos-to-Nacos task that one of them holds without owning it is still held after a full tick of every timer |
| `Dispatch.DeleteConverges` | register-sync-ext/nacossync-worker/src/main/java/com/alibaba/nacossync/timer/QuerySyncTaskTimer.java:93-112 | a DELETE task's operation ends up in every worker's map |
| `Dispatch.ConvergedIsFixpoint` | register-sync-ext/nacossync-worker/src/main/java/com/alibaba/nacossync/timer/QuerySyncTaskTimer.java:93-112 | after that a query step changes nothing and no clean-up timer has anything to remove |
| `Dispatch.NoIdAlwaysPosted` | register-sync-ext/nacossync-worker/src/main/java/com/alibaba/nacossync/cache/SkyWalkerCacheServices.java:88-92 | a task without an operation id is posted again by every query step of a worker that should run it |
| `Protocol.Cluster.Update` | register-sync-ext/nacossync-worker/src/main/java/com/alibaba/nacossync/template/processor/TaskUpdateProcessor.java:67-121 | code SYNC stores status SYNC, DELETE stores DELETE, any other is the error; the operation id is the new one exactly when the status was another, all else of the record is kept; a DELETE ends up in the finished maps of the worker, of its reachable peers unless it came from one, and nowhere that the handler throws |
| `Protocol.Cluster.Add` | register-sync-ext/nacossync-worker/src/main/java/com/alibaba/nacossync/template/processor/TaskAddProcessor.java:53-97 | a new task is the request and a resumed one the stored record, with status SYNC and the new operation id; one that runs is left alone; the errors for unknown clusters and unsupported pairs |
| `Protocol.InvOverRuns` | register-sync-ext/nacossync-worker/src/main/java/com/alibaba/nacossync/template/processor/TaskUpdateProcessor.java:69-87 | all invariants hold over every run of interleaved request reads and writes, imports, deletions, timers, listeners, cleaners and restarts |
| `Protocol.OneTaskOneStatus` | register-sync-ext/nacossync-worker/src/main/java/com/alibaba/nacossync/template/processor/TaskUpdateProcessor.java:82-87 | over every run an operation id is only ever attached to one task and one status |
| `Protocol.StoredIdsDistinct` | register-sync-ext/nacossync-worker/src/main/java/com/alibaba/nacossync/template/processor/TaskAddProcessor.java:72-94 | in every reachable state stored tasks have distinct, non-empty operation ids |
| `Protocol.FinishedMeansRun` | register-sync-ext/nacossync-worker/src/main/java/com/alibaba/nacossync/cache/SkyWalkerCacheServices.java:78-97 | a finished entry that suppresses a task stands for an event of that task with that status which the worker has run, and which has not been cleaned or lost in a restart since |
| `Protocol.StatusChangeNotSuppressed` | register-sync-ext/nacossync-worker/src/main/java/com/alibaba/nacossync/template/processor/TaskUpdateProcessor.java:82-87 | when a write stores a new status, its operation id is in no worker's finished map |
| `Protocol.MintsExactlyOnChange` | register-sync-ext/nacossync-worker/src/main/java/com/alibaba/nacossync/template/processor/TaskAddProcessor.java:89-96 | a request stores a record and mints an id if and only if the task it read does not have the requested status |
| `Protocol.UpdateStoresRequest` | register-sync-ext/nacossync-worker/src/main/java/com/alibaba/nacossync/template/processor/TaskUpdateProcessor.java:69-93 | in every state, the write of an update stores the record read with the requested status and the new operation id when the status read is another, and goes on to post what is then the record exactly for DELETE |
| `Protocol.AddStoresRequest` | register-sync-ext/nacossync-worker/src/main/java/com/alibaba/nacossync/template/processor/TaskAddProcessor.java:72-96 | in every state, the write of an add stores the request, or the record read, as running under the new operation id, unless the record read runs already |
| `Protocol.ImportStoresTask` | register-sync-ext/nacossync-worker/src/main/java/com/alibaba/nacossync/service/factory/NacosDataSync.java:81-97 | an import stores its task as running under the new operation id |
| `Protocol.EventsRun` | register-sync-ext/nacossync-worker/src/main/java/com/alibaba/nacossync/event/listener/EventListener.java:72-103 | a posted event is logged, and recorded as finished on its worker alone unless the handler throws |
| `Protocol.CheckDispatches` | register-sync-ext/nacossync-worker/src/main/java/com/alibaba/nacossync/timer/QuerySyncTaskTimer.java:95-112 | a check dispatches the task unless it is a SYNC task of another worker or its non-empty operation id is in the finished map |
| `Protocol.RestartForgets` | register-sync-ext/nacossync-worker/src/main/java/com/alibaba/nacossync/cache/SkyWalkerCacheServices.java:78-97 | a restart loses the finished map, the requests and the dispatched task of one worker and nothing else |
| `Protocol.DispatchedAtMostOnce` | register-sync-ext/nacossync-worker/src/main/java/com/alibaba/nacossync/timer/QuerySyncTaskTimer.java:101-111 | between two dispatches of one operation by one worker's timer, the first one threw, a cleaner removed it or the worker restarted |
| `TaskCache.ListOfMembers` | register-sync-ext/nacossync-worker/src/main/java/com/alibaba/nacossync/dao/TaskAccessService.java:100-110 | the list read holds exactly the stored tasks |
| `TaskCache.ListIsDescending` | register-sync-ext/nacossync-worker/src/main/java/com/alibaba/nacossync/dao/TaskAccessService.java:105-108 | every stored task is in the list once, in descending order of the keys |
| `TaskCache.FindInStore` | register-sync-ext/nacossync-worker/src/main/java/com/alibaba/nacossync/dao/TaskAccessService.java:62-66 | with distinct operation ids the lookup over the list finds the stored task |
| `TaskCache.TaskAccessService.BuildTaskCaffeineCache` | register-sync-ext/nacossync-worker/src/main/java/com/alibaba/nacossync/dao/TaskAccessService.java:100-110 | a cached list is returned as it is, a read is cached, and a failed read answers an empty list and caches nothing |
| `TaskCache.TaskAccessService.OnWatchResponse` | register-sync-ext/nacossync-worker/src/main/java/com/alibaba/nacossync/extension/watcher/EtcdWatchService.java:61-73 | a response invalidates the task list exactly when it holds a put or delete event, and no other key |
| `TaskCache.TaskAccessService.DeleteTaskInBatch` | register-sync-ext/nacossync-worker/src/main/java/com/alibaba/nacossync/dao/TaskAccessService.java:74-77 | all ids are deleted; true if and only if every id was stored and none is repeated |
| `TaskCache.CoherentStep` | register-sync-ext/nacossync-worker/src/main/java/com/alibaba/nacossync/extension/watcher/EtcdWatchService.java:61-73 | every step keeps it that a cached or half-loaded list differing from the store implies an undelivered watch event |
| `TaskCache.StepEffects` | register-sync-ext/nacossync-worker/src/main/java/com/alibaba/nacossync/extension/watcher/EtcdWatchService.java:61-73 | every change of the store under an established watch becomes one event and nothing else does; only deliveries, loads and evictions touch the copy |
| `TaskCache.WatchKeepsCoherent` | register-sync-ext/nacossync-worker/src/main/java/com/alibaba/nacossync/extension/watcher/EtcdWatchService.java:61-73 | a watch keeps all later states coherent if and only if no stale copy is cached or being loaded when it is established |
| `TaskCache.DeliveredMeansExact` | register-sync-ext/nacossync-worker/src/main/java/com/alibaba/nacossync/dao/TaskAccessService.java:56-66 | with the watch before the first load and everything delivered, every lookup over the cache is the lookup over the store |
| `TaskCache.CachedWasStored` | register-sync-ext/nacossync-worker/src/main/java/com/alibaba/nacossync/util/CaffeineUtil.java:27-29 | whatever is cached was the stored list at some point of the run, so failed loads are never cached |
| `TaskCache.LateWatchGoesStale` | register-sync-ext/nacossync-worker/src/main/java/com/alibaba/nacossync/extension/watcher/EtcdWatchService.java:61-73 | a load that precedes the watch can leave a stale copy that stays stale through all further deliveries and loads |
| `Registry.ComposeInstanceKeyInjective` | register-sync-ext/nacossync-worker/src/main/java/com/alibaba/nacossync/extension/impl/NacosSyncToNacosServiceImpl.java:124-126 | ip:port keys of different addresses differ, colons in the ip included |
| `Registry.Tagged` | register-sync-ext/nacossync-worker/src/main/java/com/alibaba/nacossync/extension/impl/NacosSyncToNacosServiceImpl.java:142-148 | the three provenance keys are those of the task, all other metadata is kept; the copy is deletable by its task and not copied on unless the source id is blank |
| `Registry.ProvenanceIs` | register-sync-ext/nacossync-worker/src/main/java/com/alibaba/nacossync/extension/SyncService.java:50-78 | an instance is copied unless its source id holds something else than white space, by code points, and deleted if that id is the task's |
| `Registry.NamingService.GetAllInstances` | register-sync-ext/nacossync-worker/src/main/java/com/alibaba/nacossync/extension/impl/NacosSyncToNacosServiceImpl.java:89 | the list holds exactly the registered instances |
| `Registry.EurekaNamingService.GetApplications` | register-sync-ext/nacossync-worker/src/main/java/com/alibaba/nacossync/extension/eureka/EurekaNamingService.java:54-61 | the list holds exactly the registered instances, and is missing when the response is not successful |
| `NacosToNacos.NacosSyncToNacos.OnNamingEvent` | register-sync-ext/nacossync-worker/src/main/java/com/alibaba/nacossync/extension/impl/NacosSyncToNacosServiceImpl.java:86-113 | the destination after the register loop and the deregister loop is the reconcile result, and at every intermediate state nothing is missing that was there and is still wanted, nor is a foreign entry altered |
| `NacosToNacos.NacosSyncToNacos.DeleteTask` | register-sync-ext/nacossync-worker/src/main/java/com/alibaba/nacossync/extension/impl/NacosSyncToNacosServiceImpl.java:64-69 | exactly the task's copies go |
| `NacosToNacos.PassMirrorsSource` | register-sync-ext/nacossync-worker/src/main/java/com/alibaba/nacossync/extension/impl/NacosSyncToNacosServiceImpl.java:88-148 | after a pass the keys tagged with the task's source are exactly the untagged source keys, each with the source instance field by field but for the three provenance tags, and every other entry is as it was |
| `NacosToNacos.PassIdempotent` | register-sync-ext/nacossync-worker/src/main/java/com/alibaba/nacossync/extension/impl/NacosSyncToNacosServiceImpl.java:88-107 | a second pass over an unchanged source changes nothing |
| `NacosToNacos.DeleteUndoesPass` | register-sync-ext/nacossync-worker/src/main/java/com/alibaba/nacossync/extension/impl/NacosSyncToNacosServiceImpl.java:54-76 | deleting removes exactly the entries with the task's source id; after a pass it leaves everything except what the pass made or overwrote |
| `NacosToNacos.PassesCommute` | register-sync-ext/nacossync-worker/src/main/java/com/alibaba/nacossync/extension/impl/NacosSyncToNacosServiceImpl.java:88-107 | tasks from different sources copying different addresses into one cluster give the same result in either order |
| `NacosToEureka.InstanceIdInjective` | register-sync-ext/nacossync-worker/src/main/java/com/alibaba/nacossync/extension/impl/NacosSyncToEurekaServiceImpl.java:174 | under one service name, different addresses get different Eureka ids |
| `NacosToEureka.NacosSyncToEureka.OnNamingEvent` | register-sync-ext/nacossync-worker/src/main/java/com/alibaba/nacossync/extension/impl/NacosSyncToEurekaServiceImpl.java:95-121 | the destination after both loops is the reconcile result, only registrations if the application list cannot be read, and at every intermediate state nothing is missing but orphan copies and nothing is altered but what is copied over |
| `NacosToEureka.NacosSyncToEureka.DeleteTask` | register-sync-ext/nacossync-worker/src/main/java/com/alibaba/nacossync/extension/impl/NacosSyncToEurekaServiceImpl.java:70-77 | exactly the task's copies go, or nothing when the list cannot be read |
| `NacosToEureka.PassMirrorsSource` | register-sync-ext/nacossync-worker/src/main/java/com/alibaba/nacossync/extension/impl/NacosSyncToEurekaServiceImpl.java:97-192 | after a pass the addresses tagged with the task's source are exactly the healthy untagged source addresses, each with a copy under ip, service name and port, up, with the service's name and the instance's metadata but for the three provenance tags |
| `NacosToEureka.PassWithoutResponse` | register-sync-ext/nacossync-worker/src/main/java/com/alibaba/nacossync/extension/impl/NacosSyncToEurekaServiceImpl.java:97-110 | when the application list cannot be read, a pass registers the copies and removes nothing, and a deletion does nothing |
| `NacosToEureka.PassSparesForeign` | register-sync-ext/nacossync-worker/src/main/java/com/alibaba/nacossync/extension/impl/NacosSyncToEurekaServiceImpl.java:97-116 | an entry that is neither the task's nor overwritten is as it was |
| `NacosToEureka.PassIdempotent` | register-sync-ext/nacossync-worker/src/main/java/com/alibaba/nacossync/extension/impl/NacosSyncToEurekaServiceImpl.java:97-116 | a second pass changes nothing, whether or not the list can be read |
| `NacosToEureka.DeleteUndoesPass` | register-sync-ext/nacossync-worker/src/main/java/com/alibaba/nacossync/extension/impl/NacosSyncToEurekaServiceImpl.java:61-84 | deleting after a pass leaves exactly the entries that were there without the task's source id and that no copy was written over |
| `EurekaToNacos.EurekaSyncToNacos.Sync` | register-sync-ext/nacossync-worker/src/main/java/com/alibaba/nacossync/extension/impl/EurekaSyncToNacosServiceImpl.java:89-113 | the destination after either branch is the pass of the specification over what Eureka answered, and at every intermediate state nothing is missing but copies no longer up and nothing is altered but what is copied over |
| `EurekaToNacos.EurekaSyncToNacos.RemoveInvalidInstance` | register-sync-ext/nacossync-worker/src/main/java/com/alibaba/nacossync/extension/impl/EurekaSyncToNacosServiceImpl.java:144-159 | exactly the task's copies whose address is not up in Eureka go |
| `EurekaToNacos.EurekaSyncToNacos.AddValidInstance` | register-sync-ext/nacossync-worker/src/main/java/com/alibaba/nacossync/extension/impl/EurekaSyncToNacosServiceImpl.java:131-142 | every untagged instance that is up is registered, the last of several at one address staying |
| `EurekaToNacos.EurekaSyncToNacos.DeleteAllInstance` | register-sync-ext/nacossync-worker/src/main/java/com/alibaba/nacossync/extension/impl/EurekaSyncToNacosServiceImpl.java:161-169 | exactly the task's copies go |
| `EurekaToNacos.PassBounds` | register-sync-ext/nacossync-worker/src/main/java/com/alibaba/nacossync/extension/impl/EurekaSyncToNacosServiceImpl.java:89-113 | the task's keys after a pass are the untagged keys that are up, plus exactly those previous copies that are still up in Eureka |
| `EurekaToNacos.PassCopies` | register-sync-ext/nacossync-worker/src/main/java/com/alibaba/nacossync/extension/impl/EurekaSyncToNacosServiceImpl.java:131-142 | an eligible address holds a copy of the last eligible instance there: its application's name as service, enabled, healthy, of weight one, with its metadata but for the three provenance tags |
| `EurekaToNacos.AddressesAre` | register-sync-ext/nacossync-worker/src/main/java/com/alibaba/nacossync/extension/impl/EurekaSyncToNacosServiceImpl.java:131-169 | which addresses are up, eligible, tagged and deleted, instance by instance |
| `EurekaToNacos.PassReconcilesIff` | register-sync-ext/nacossync-worker/src/main/java/com/alibaba/nacossync/extension/impl/EurekaSyncToNacosServiceImpl.java:89-113 | they equal the plain reconcile result if and only if every previous copy still up is an untagged instance; then the whole content does |
| `EurekaToNacos.LeftoverSurvives` | register-sync-ext/nacossync-worker/src/main/java/com/alibaba/nacossync/extension/impl/EurekaSyncToNacosServiceImpl.java:155-159 | a tagged instance that is up in Eureka keeps a stale copy alive |
| `EurekaToNacos.PassSparesForeign` | register-sync-ext/nacossync-worker/src/main/java/com/alibaba/nacossync/extension/impl/EurekaSyncToNacosServiceImpl.java:131-153 | an instance the task did not make stays unless an eligible one takes its address |
| `EurekaToNacos.PassIdempotent` | register-sync-ext/nacossync-worker/src/main/java/com/alibaba/nacossync/extension/impl/EurekaSyncToNacosServiceImpl.java:89-113 | a second pass changes nothing |
| `EurekaToNacos.EmptySourceAgrees` | register-sync-ext/nacossync-worker/src/main/java/com/alibaba/nacossync/extension/impl/EurekaSyncToNacosServiceImpl.java:96-98 | the branch for an empty source is the same specification |
| `Cyclic.InvOverRuns` | register-sync-ext/nacossync-worker/src/main/java/com/alibaba/nacossync/extension/impl/NacosSyncToNacosServiceImpl.java:85-113 | over any interleaving of original registrations, passes and single steps of passes on any task graph, an entry away from home is a copy tagged with its home that some task from there made, and an entry at home is an untagged original |
| `Cyclic.TagsNameHome` | register-sync-ext/nacossync-worker/src/main/java/com/alibaba/nacossync/extension/SyncService.java:50-52 | the same for every reachable state, entry by entry |
| `Cyclic.PassSparesOriginals` | register-sync-ext/nacossync-worker/src/main/java/com/alibaba/nacossync/extension/impl/NacosSyncToNacosServiceImpl.java:85-113 | no pass alters an original, and whatever it puts down was copied from an untagged entry at its home |
| `Cyclic.StepSparesOriginals` | register-sync-ext/nacossync-worker/src/main/java/com/alibaba/nacossync/extension/impl/NacosSyncToNacosServiceImpl.java:88-107 | no single register or deregister step does either, however out of date the lists are that its pass acts on |
| `Cyclic.StepEffects` | register-sync-ext/nacossync-worker/src/main/java/com/alibaba/nacossync/extension/impl/NacosSyncToNacosServiceImpl.java:85-148 | what each step does to each entry of each cluster: originals come and go at home, a task changes its destination only |
| `Cyclic.HeldIsListed` | register-sync-ext/nacossync-worker/src/main/java/com/alibaba/nacossync/extension/impl/NacosSyncToNacosServiceImpl.java:89-99 | everything a cluster holds or has held can be acted on by a pass in progress |
| `Cyclic.OnePassEachSettles` | register-sync-ext/nacossync-worker/src/main/java/com/alibaba/nacossync/extension/impl/NacosSyncToNacosServiceImpl.java:85-148 | with the originals standing still, one pass of every task in any order leaves at each cluster exactly its originals, as they were, and its direct sources' originals, field by field but for the provenance tags |
| `Cyclic.NoEcho` | register-sync-ext/nacossync-worker/src/main/java/com/alibaba/nacossync/extension/impl/NacosSyncToNacosServiceImpl.java:85-113 | once all originals are gone, one pass of each task in any order empties every cluster, cycles included |
| `NacosToZookeeper.NacosSyncToZookeeper.OnNamingEvent` | register-sync-ext/nacossync-worker/src/main/java/com/alibaba/nacossync/extension/impl/NacosSyncToZookeeperServiceImpl.java:132-141 | nodes, backup and service path after one event are those of the specification, and at every intermediate state nothing is missing but the backup's unwanted paths and nothing is new but wanted ones |
| `NacosToZookeeper.NacosSyncToZookeeper.GetWaitingToAddInstance` | register-sync-ext/nacossync-worker/src/main/java/com/alibaba/nacossync/extension/impl/NacosSyncToZookeeperServiceImpl.java:196-224 | the returned paths are those of the untagged instances, the missing nodes are created and no other, and the service path is fixed once |
| `NacosToZookeeper.NacosSyncToZookeeper.DeleteInvalidInstances` | register-sync-ext/nacossync-worker/src/main/java/com/alibaba/nacossync/extension/impl/NacosSyncToZookeeperServiceImpl.java:184-194 | exactly the backup's paths that are not wanted any more go |
| `NacosToZookeeper.NacosSyncToZookeeper.DeleteTask` | register-sync-ext/nacossync-worker/src/main/java/com/alibaba/nacossync/extension/impl/NacosSyncToZookeeperServiceImpl.java:103-123 | exactly the backup's paths go; it fails, changing nothing, for a task without a backup |
| `NacosToZookeeper.BackedOverRuns` | register-sync-ext/nacossync-worker/src/main/java/com/alibaba/nacossync/extension/impl/NacosSyncToZookeeperServiceImpl.java:132-141 | over any run of passes, deletions and other clients' creations and losses, every existing node a task created is in its current backup |
| `NacosToZookeeper.PassMirrorsSource` | register-sync-ext/nacossync-worker/src/main/java/com/alibaba/nacossync/extension/impl/NacosSyncToZookeeperServiceImpl.java:134-140 | after a pass the backup is the path set of the untagged instances, all of it exists, created by the task where it was missing; the task owns no other node, what only the old backup named is gone, and all other paths are untouched |
| `NacosToZookeeper.NewUrlsArePrinted` | register-sync-ext/nacossync-worker/src/main/java/com/alibaba/nacossync/extension/impl/NacosSyncToZookeeperServiceImpl.java:196-224 | the wanted paths are exactly those printed for the untagged instances, under one service path that never changes |
| `NacosToZookeeper.ServicePathOverRuns` | register-sync-ext/nacossync-worker/src/main/java/com/alibaba/nacossync/extension/impl/NacosSyncToZookeeperServiceImpl.java:220-221 | over any run a task's service path is printed from the first untagged instance that its passes have seen, and there is none before |
| `ZookeeperPaths.PathsPlaced` | register-sync-ext/nacossync-worker/src/main/java/com/alibaba/nacossync/extension/impl/NacosSyncToZookeeperServiceImpl.java:196-224 | with the Dubbo printer and any iteration order of the metadata: after any run, a pass leaves for every untagged instance a node one segment below the providers' node of the interface of the first untagged instance the task has seen; the segment decodes to the instance's own URL with protocol, ip, port and interface |
| `ZookeeperPaths.PathsReadBack` | register-sync-ext/nacossync-worker/src/main/java/com/alibaba/nacossync/extension/impl/NacosSyncToZookeeperServiceImpl.java:196-224 | from that node's path the instance's protocol, ip, port and tagged metadata are read back, if and only if protocol, port and metadata are of a form that can be |
| `ZookeeperPaths.PrintedIs` | register-sync-ext/nacossync-worker/src/main/java/com/alibaba/nacossync/extension/impl/NacosSyncToZookeeperServiceImpl.java:213-218 | what is printed is the instance's metadata, with the task's values for the three provenance keys and no others |
| `ZookeeperPaths.ServicePathText` | register-sync-ext/nacossync-worker/src/main/java/com/alibaba/nacossync/util/StringUtils.java:116-118 | the providers' node of an instance: /dubbo/, the interface its metadata names, /providers |
| `ZookeeperPaths.OrderExists` | register-sync-ext/nacossync-worker/src/main/java/com/alibaba/nacossync/util/StringUtils.java:124 | iteration orders exist, over every metadata map |
| `NacosToZookeeper.DiffIsRecomputeIff` | register-sync-ext/nacossync-worker/src/main/java/com/alibaba/nacossync/extension/impl/NacosSyncToZookeeperServiceImpl.java:184-210 | the diff against the backup equals a full recompute if and only if it drops no path that somebody else had created |
| `NacosToZookeeper.ForeignNodeDropped` | register-sync-ext/nacossync-worker/src/main/java/com/alibaba/nacossync/extension/impl/NacosSyncToZookeeperServiceImpl.java:184-210 | a path that somebody else created and the task then took for its own is dropped with the instance |
| `NacosToZookeeper.PassIdempotent` | register-sync-ext/nacossync-worker/src/main/java/com/alibaba/nacossync/extension/impl/NacosSyncToZookeeperServiceImpl.java:134-140 | a pass over an unchanged source changes nothing |
| `NacosToZookeeper.DeleteLeavesNone` | register-sync-ext/nacossync-worker/src/main/java/com/alibaba/nacossync/extension/impl/NacosSyncToZookeeperServiceImpl.java:112-116 | after any run, deleting leaves none of the task's nodes and touches nothing outside its backup |
| `Murmur2.Murmur2` | register-sync-ext/nacossync-worker/src/main/java/com/alibaba/nacossync/util/Utils.java:379-417 | the loop, the fall-through switch and the final mixing compute the hash that is defined block by block |
| `Murmur2.FoldTail` | register-sync-ext/nacossync-worker/src/main/java/com/alibaba/nacossync/util/Utils.java:402-410 | the switch mixes in the word that the last one to three bytes form |
| `Murmur2.StartBits` | register-sync-ext/nacossync-worker/src/main/java/com/alibaba/nacossync/util/Utils.java:381-389 | the state starts from the seed with the bits of the length flipped |
| `Murmur2.BlockBits` | register-sync-ext/nacossync-worker/src/main/java/com/alibaba/nacossync/util/Utils.java:391-399 | a block's word is little-endian, multiplied, xored with its bits from 24 places up, multiplied, and xored into the multiplied state, bit by bit |
| `Murmur2.TailBits` | register-sync-ext/nacossync-worker/src/main/java/com/alibaba/nacossync/util/Utils.java:402-410 | the last bytes' word is little-endian, xored in bit by bit, and multiplied; nothing happens without such bytes |
| `Murmur2.FinishBits` | register-sync-ext/nacossync-worker/src/main/java/com/alibaba/nacossync/util/Utils.java:412-414 | the final state is xored with its bits from 13 places up, multiplied, and xored with those from 15 up |
| `Murmur2.TimesMInverts` | register-sync-ext/nacossync-worker/src/main/java/com/alibaba/nacossync/util/Utils.java:384 | multiplying by the odd constant is undone by its inverse modulo 2^32 |
| `Murmur2.StepInjective` | register-sync-ext/nacossync-worker/src/main/java/com/alibaba/nacossync/util/Utils.java:394-398 | equal results of one step have equal states exactly when they have equal words |
| `Murmur2.AfterTailInjective` | register-sync-ext/nacossync-worker/src/main/java/com/alibaba/nacossync/util/Utils.java:402-410 | the tail step loses neither the state nor any byte |
| `Murmur2.FinishInjective` | register-sync-ext/nacossync-worker/src/main/java/com/alibaba/nacossync/util/Utils.java:412-414 | the final mixing is injective |
| `Murmur2.OneBlockNeverCollides` | register-sync-ext/nacossync-worker/src/main/java/com/alibaba/nacossync/util/Utils.java:379-417 | two inputs of equal length that differ at most in one aligned four-byte block hash alike if and only if they are equal |
| `Murmur2.TailNeverCollides` | register-sync-ext/nacossync-worker/src/main/java/com/alibaba/nacossync/util/Utils.java:379-417 | the same for inputs that differ at most in the one to three bytes after the last block |
| `Bits.XorShiftInjective` | register-sync-ext/nacossync-worker/src/main/java/com/alibaba/nacossync/util/Utils.java:412 | `x ^ (x >>> k)` determines x, for any shift |
| `BitField.To32BitField` | register-sync-ext/nacossync-worker/src/main/java/com/alibaba/nacossync/util/Utils.java:1051-1064 | whatever the iteration order: the int with exactly the set's bits, or an error naming a byte out of range |
| `BitField.From32BitField` | register-sync-ext/nacossync-worker/src/main/java/com/alibaba/nacossync/util/Utils.java:1066-1074 | the set of the bits of any int, negative ones included, within 32 steps |
| `BitField.FieldBits` | register-sync-ext/nacossync-worker/src/main/java/com/alibaba/nacossync/util/Utils.java:1051-1056 | bit i of the packed int is set exactly when i is below 32 and in the set |
| `BitField.UnpackPacked` | register-sync-ext/nacossync-worker/src/main/java/com/alibaba/nacossync/util/Utils.java:1051-1074 | unpacking a packed set gives it back if and only if packing accepts it |
| `BitField.PackUnpacked` | register-sync-ext/nacossync-worker/src/main/java/com/alibaba/nacossync/util/Utils.java:1051-1074 | packing an unpacked int gives it back, for every int |
| `Utf8.Utf8Length` | register-sync-ext/nacossync-worker/src/main/java/com/alibaba/nacossync/util/Utils.java:195-211 | for well-formed UTF-16 the count is the length of the encoding modulo 2^32, hence the length itself if and only if that is below 2^31; for any other string what the loop counts, or an index error exactly when the longest possible string ends in an unpaired high surrogate |
| `Utf8.CountIsEncodedLength` | register-sync-ext/nacossync-worker/src/main/java/com/alibaba/nacossync/util/Utils.java:195-211 | what the loop counts is the number of octets of the encoding of RFC 3629, section 3 |
| `Utf8.CountIs` | register-sync-ext/nacossync-worker/src/main/java/com/alibaba/nacossync/util/Utils.java:195-211 | the count of any string, surrogates paired or not: a high surrogate counts four and hides what follows it, a low one reached by the loop counts three |
| `Utf8.OctetsShape` | register-sync-ext/nacossync-worker/src/main/java/com/alibaba/nacossync/util/Utils.java:195-211 | the octets of every character have the lengths and ranges of RFC 3629, section 3 |
| `Utf8.DecodeEncoded` | register-sync-ext/nacossync-worker/src/main/java/com/alibaba/nacossync/util/Utils.java:195-211 | that encoding is read back, so it keeps every character |
| `Address.HostRoundTrip` | register-sync-ext/nacossync-worker/src/main/java/com/alibaba/nacossync/util/Utils.java:425-463 | getHost of formatAddress gives the host back if and only if it consists of valid host characters, IPv6 and empty included, and the port is a non-negative int |
| `Address.PortRoundTrip` | register-sync-ext/nacossync-worker/src/main/java/com/alibaba/nacossync/util/Utils.java:436-463 | for such a host getPort gives the port back, or nothing for a negative or missing port |
| `Address.FormatIs` | register-sync-ext/nacossync-worker/src/main/java/com/alibaba/nacossync/util/Utils.java:459-463 | brackets exactly around a host with a colon; a missing port is printed as null |
| `Address.GroupsInOrder` | register-sync-ext/nacossync-worker/src/main/java/com/alibaba/nacossync/util/Utils.java:58 | whatever address matches: the host group is of valid characters and the port group of digits to the end |
| `Address.ValidHostPatternIs` | register-sync-ext/nacossync-worker/src/main/java/com/alibaba/nacossync/util/Utils.java:447-449 | the pattern accepts exactly the strings of valid host characters |
| `UrlCode.DecodeInverts` | register-sync-ext/nacossync-worker/src/main/java/com/alibaba/nacossync/util/StringUtils.java:129 | every string comes back from its percent-encoding, whatever follows it |
| `UrlCode.EncodeOne` | register-sync-ext/nacossync-worker/src/main/java/com/alibaba/nacossync/util/StringUtils.java:129 | letters, digits and four marks stay, a space becomes a plus sign, any other character a percent sign and two upper-case hexadecimal digits for each of its UTF-8 octets |
| `UrlCode.EncodeConcat` | register-sync-ext/nacossync-worker/src/main/java/com/alibaba/nacossync/util/StringUtils.java:129 | a string is encoded character by character |
| `UrlCode.EncodeIsPlain` | register-sync-ext/nacossync-worker/src/main/java/com/alibaba/nacossync/util/StringUtils.java:129 | an encoding holds only ASCII letters, digits, the four marks, plus signs, and percent signs each followed by two upper-case hexadecimal digits; in particular no slash |
| `DubboUrl.FullPathIs` | register-sync-ext/nacossync-worker/src/main/java/com/alibaba/nacossync/util/StringUtils.java:120-136 | a full path is the providers' path, a slash, and one segment without a slash that decodes to protocol, ip, port, interface and parameters in their places |
| `DubboUrl.UrlParamIs` | register-sync-ext/nacossync-worker/src/main/java/com/alibaba/nacossync/util/StringUtils.java:124 | the parameters are key=value in order with an ampersand between any two |
| `KeyValues.ParseKeyValuePair` | register-sync-ext/nacossync-worker/src/main/java/com/alibaba/nacossync/util/StringUtils.java:49-60 | each key gets the value of the last item that is the text of a well-formed entry with that key, and no other key is in the map |
| `DubboUrl.ParseQueryString` | register-sync-ext/nacossync-worker/src/main/java/com/alibaba/nacossync/util/StringUtils.java:68-80 | the decoder's error, or the map that gives each key the value of the last item of the decoded text that is a well-formed entry with that key, and nothing else |
| `DubboUrl.ParseIpAndPortString` | register-sync-ext/nacossync-worker/src/main/java/com/alibaba/nacossync/util/StringUtils.java:92-114 | the decoder's error; or an address that occurs in the decoded path, with dotted ip, digits for a port and a protocol on one line without a slash; or nothing, and then no address occurs there |
| `DubboUrl.EndpointRoundTrip` | register-sync-ext/nacossync-worker/src/main/java/com/alibaba/nacossync/util/StringUtils.java:92-136 | from the path printed for an instance, with nothing else in it that looks like an address, the protocol, the dotted ip and the port come back if and only if the protocol is on one line without a slash and the port is not negative; for a negative port nothing comes back |
| `DubboUrl.QueryRoundTrip` | register-sync-ext/nacossync-worker/src/main/java/com/alibaba/nacossync/util/StringUtils.java:49-136 | from the same path, if what is printed first is not split, the metadata entries without the first come back if and only if each has a well-formed key and a value on one line without a separator; the first one stays glued to the path |
| `IpPort.PatternFinds` | register-sync-ext/nacossync-worker/src/main/java/com/alibaba/nacossync/util/StringUtils.java:39-40 | the greedy pattern takes the one address of a text, whatever line it is on, with the protocol from the last slash before it, or finds nothing |
| `IpPort.FoundIsProper` | register-sync-ext/nacossync-worker/src/main/java/com/alibaba/nacossync/util/StringUtils.java:39-40 | for any text: what is found occurs in it as slash, protocol, separator, dotted ip and port, and the protocol has no slash |
| `IpPort.NothingMissed` | register-sync-ext/nacossync-worker/src/main/java/com/alibaba/nacossync/util/StringUtils.java:96-107 | wherever such a text occurs, something is found |
| `KeyValues.KeyValueIff` | register-sync-ext/nacossync-worker/src/main/java/com/alibaba/nacossync/util/StringUtils.java:37-38 | an item matches with a key and a value if and only if it is that entry printed, with a well-formed key and a value on one line |
| `Balance.TestBalance` | register-sync-ext/nacossync-worker/src/main/java/com/alibaba/nacossync/timer/QuerySyncTaskTimer.java:120-133 | a counter for every member, counting each task once for every member that its owner equals ignoring case |
| `Balance.ShareIsMultiple` | register-sync-ext/nacossync-worker/src/main/java/com/alibaba/nacossync/timer/QuerySyncTaskTimer.java:127-133 | before it wraps around, a counter is the number of tasks its member owns times the number of members equal to it ignoring case |
| `Balance.SharesAddUp` | register-sync-ext/nacossync-worker/src/main/java/com/alibaba/nacossync/timer/QuerySyncTaskTimer.java:120-133 | every task is owned by exactly one member of a non-empty view: the shares add up to the number of tasks |
| `Balance.BalanceConserved` | register-sync-ext/nacossync-worker/src/main/java/com/alibaba/nacossync/timer/QuerySyncTaskTimer.java:120-133 | the counters add up to the number of tasks if and only if no member that owns a task equals another ignoring case, and then each counter is what its member owns |
| `Balance.TwinsCountTwice` | register-sync-ext/nacossync-worker/src/main/java/com/alibaba/nacossync/timer/QuerySyncTaskTimer.java:127-133 | with two members equal ignoring case, one task counts twice, whatever the hash |
| `Paging.Page` | register-sync-ext/nacossync-worker/src/main/java/com/alibaba/nacossync/util/RamPageUtil.java:29-53 | the page, totals and exceptions for every list, page number and size, missing ones included |
| `Paging.Pagination.BuildTotalPage` | register-sync-ext/nacossync-worker/src/main/java/com/alibaba/nacossync/pojo/page/Pagination.java:45-49 | for a positive size below 2^31 and a positive page size the total is the ceiling of the quotient, and for size zero it is one |
| `Paging.PageRightIff` | register-sync-ext/nacossync-worker/src/main/java/com/alibaba/nacossync/util/RamPageUtil.java:41-51 | a page is the right slice if and only if its last index fits in an int, or it lies beyond the list and its two ends wrap to a non-negative, not increasing pair |
| `Paging.OverflowRepeatsFirstPage` | register-sync-ext/nacossync-worker/src/main/java/com/alibaba/nacossync/util/RamPageUtil.java:44-45 | page 65537 of size 65536 shows the first page again |
| `Paging.PageFailsIff` | register-sync-ext/nacossync-worker/src/main/java/com/alibaba/nacossync/util/RamPageUtil.java:41-51 | for every list, page number and size: a division by zero exactly for size zero, and an index error exactly when one of the two wrapped ends is negative |
| `Paging.BelowOneIsFirst` | register-sync-ext/nacossync-worker/src/main/java/com/alibaba/nacossync/util/RamPageUtil.java:41-43 | every page number below one shows the first page |
| `Paging.FittingPageFailsIff` | register-sync-ext/nacossync-worker/src/main/java/com/alibaba/nacossync/util/RamPageUtil.java:41-51 | while the product fits, a page of a non-empty list raises exactly for sizes below one |
| `Paging.TotalPageIsCeiling` | register-sync-ext/nacossync-worker/src/main/java/com/alibaba/nacossync/pojo/page/Pagination.java:45-49 | the number of pages is the ceiling of size over page size |
| `Paging.DivisionTruncates` | register-sync-ext/nacossync-worker/src/main/java/com/alibaba/nacossync/pojo/page/Pagination.java:45-49 | Java's quotient and remainder, negative operands included |
| `Paging.PagesPartition` | register-sync-ext/nacossync-worker/src/main/java/com/alibaba/nacossync/util/RamPageUtil.java:29-53 | pages 1 to the total, one after the other, give back the list in order, and every later page whose product fits is empty |

## Left out

- The React console, REST controllers, request and result classes, Spring wiring, metrics, logging and ip discovery: plumbing.
- The etcd, Nacos, Eureka, Consul and Curator clients, HTTP, leases and heartbeats: a registry is a map keyed by ip and port (by id in Eureka, by path in ZooKeeper), etcd a map with a watch queue; the cluster name an instance carries plays no part in its key. Of an instance only what the services copy is kept: not a Nacos instance's id or ephemeral flag, nor the URLs, the data centre and the lease of a Eureka instance.
- Exceptions from the registries in the middle of a pass, and the listener of `tryToCompensate`: a pass is modelled without them, and the backup invariant assumes their absence.
- Which listener is subscribed for which task (`nacosListenerMap`, the event bus, path caches): a pass is what the listener does when it is called.
- `Cyclic`: a step of a pass whose task has been removed in between is not taken; with it, a copy could outlive its task. Removing a task removes all tasks with the same two ends.
- `Protocol`: generated operation ids are fresh, as UUIDs are taken to be; the etcd keys that count services per worker are not part of the state, nor is their clean-up by a prefix without a trailing slash.
- `Dispatch`: the task list, the view and the failing handlers stay fixed during the ticks, and no worker restarts; the null task that the clean-up timer would hit if a task vanished between its two lookups cannot occur then.
- `TaskCache`: the cache computes and invalidates one key atomically, as Caffeine specifies; eviction and expiry happen at any time.
- `ConsistentHash.remove`, `getHash`, `getSize` and the printing `testBalance` of the ring: the proxies rebuild rings instead, and `remove` hashes differently from `add`.
- Consul sync and its metadata splitting, ZooKeeper to Nacos sync, the ZooKeeper sharding proxies and `CpLock`: other services of the same shape, or code that is disabled.
- `DubboConstants.createServiceName`: its version comparison is decimal, so its documented rule does not hold.
- `Text.FoldCase` and string order: case is ignored for ASCII letters only, and strings are ordered by character, which differs from Java's order by UTF-16 unit beyond the basic plane.
- `UrlCode`: decoding reads escapes of whole, valid characters; what the JDK substitutes for malformed ones is an error here.
- `DubboUrl`: paths in which something else looks like an address, so that a wrong one may be found, have no round trip theorem, only `IpPort.FoundIsProper` and `IpPort.NothingMissed`; null metadata values, on which printing fails, are not modelled.
