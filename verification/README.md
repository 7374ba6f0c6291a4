# FastRegistry, modelled and proved in Dafny

FastRegistry is a content-addressed image registry written in Go. This project models
the parts of it in which state, interleaving or byte layout make correctness hard, and
proves what the code does there. `dafny verify dfyconfig.toml` checks all of it.

All parts share one base: blobs are files named by their digest (`Digests`, `Blobs`), and
metadata is one string-keyed map with ordered prefix scans (`Metadata`), proved to behave
as five separate relations (`Relations`, `TypedMetadata`, `MetadataRuns`).

| Part | Modules |
|---|---|
| Consistent-hash ring | `Ring` (the class), `RingTheorems` |
| Mesh on top of the ring | `Mesh` |
| Mark-and-sweep collection | `Gc` (the class), `GcTheorems` |
| Cloning and mirroring releases | `Barrier` (layer goroutines), `Clone` (one image), `WorkerPool` (all components), `ImageRefs`, `Mirror` (the gate), `Pipeline` (the states of a release) |
| LRU cache | `Lru` (what it does, as functions), `LruCache` (linked list and map) |
| Manifest handlers and their cache | `ManifestCache`, `Registry` |
| Uploads | `Uploads` |
| ISO patching, CPIO, percent-encoding | `Iso`, `Cpio`, `DataUrl` |
| Events and counters | `Events`, `Sums` |
| Sequences, key order, numbers | `Seqs`, `Lex`, `Numbers` |

How it is built. What the source updates in place is a class whose methods are proved
against functions of the old state; the theorems are lemmas about those functions and about
whole runs of them. Concurrent code is a state machine whose steps are the channel operations
and the accesses to shared stores, so a run is any interleaving. Outside code is a parameter
about which nothing is assumed unless a lemma says so: SHA-256 and CRC32, the JSON decoder,
gzip, `strings.EqualFold`, clocks, upstream answers, file-system faults. The map walks of Go
happen in an order that is a parameter or chosen arbitrarily.

What is proved of every run has a partner that gives a run: what upstream can serve is cloned,
mirrored and passes the gate from every store, by steps of the program alone (`Barrier.CanSucceed`,
`Clone.SomeRunFinishes`, `WorkerPool.SomeRunMirrors`, `Pipeline.SomePassageSucceeds`).

Where collision-freeness of SHA-256 matters, it is assumed of single manifests only
(`Mirror.NoCollision`); that the digest graph has no cycles is assumed as a rank on digests
(`Gc.Ranked`), because `markManifest` remembers no visited digests.

## What the code does that its comments or callers do not expect

- Ring: if virtual nodes collide, a member can lose all its points. `GetN` then never returns
  when asked for more members than own points (`RingTheorems.WalkReaches`), and `Remove` can panic
  on a negative capacity (`RingTheorems.CollisionPanics`). The virtual-node keys of one member differ
  up to 0xD801 of them and no further (`RingTheorems.KeysDifferExactly`).
- Collection: if listing the repositories fails, every blob is unreferenced and goes
  (`GcTheorems.Exactness`). Dropping a tag takes the digest record along, so a kept tag with the
  same digest no longer resolves (`GcTheorems.KeptTagResolves`), and a second run deletes what only such
  tags reach (`GcTheorems.SecondRunDeletes`). An image pushed between marking and sweeping loses every
  blob that was not reachable before (`GcTheorems.UploadsDuringRun`). Manifests put over HTTP have no
  creation time, so among them "newest" is arbitrary; the proofs hold for any order of ties.
- Mirroring: a comment in `CloneRelease` says that the state `cloned` implies a self-contained
  release. With a cancelled context `MirrorComponents` returns nil with components missing, for any
  number of workers (`WorkerPool.CancelledMirrorReturnsNil`, `Pipeline.CancelledIsCloned`,
  `Pipeline.ClonedButIncomplete`), and `ResetState` calls any release in work cloned
  (`Pipeline.StateMeans`). `ReExtract` makes a release ready without the gate
  (`Pipeline.ReExtractSkipsTheGate`). Failed saves can leave a release in work for good
  (`Pipeline.StuckExactly`).
- `PullComponentImage` registers a component before its config and layers are there; exactly when
  that shows is `Clone.RegisteredIsComplete`. It skips a config whose digest is invalid, after which
  the gate can never pass (`Mirror.InvalidConfigNeverPasses`); nothing else keeps an undisturbed
  pipeline from passing it (`Pipeline.GateExactly`). The gate counts a component manifest before
  decoding it (`Mirror.GarbledPasses`); its report of missing components makes up for that
  (`Mirror.CompleteIsSelfContained`).
- Manifest cache: DELETE by one reference leaves other cached references of the same digest
  behind (`ManifestCache.DeleteCoherence`), and manifests put by clones or syncs, and deleted
  repositories, do not reach the cache (`ManifestCache.BackgroundPutCoherence`,
  `ManifestCache.DeleteRepoCoherence`). A GET reads metadata and fills the cache in two steps, so a PUT
  in between leaves a stale entry that never expires (`ManifestCache.CoherentThroughout`,
  `ManifestCache.PutInsideGet`).
- Deleting a blob ignores the error of the scan for other repositories, and a failed scan counts
  as none (`Registry.Handler.HandleDeleteBlob`). Deleting a repository leaves the links from blobs
  behind, so its blobs keep looking referenced (`MetadataRuns.DeleteRepoSplitsLinks`).
- Uploads: `Write` goes to the cursor and adds to the announced size, so after positioned writes
  that end elsewhere the announced size is wrong (`Uploads.WriteKeepsSize`).
- Listing tags: if the last tag of a page is deleted, the next page starts over
  (`Registry.RepeatsExactly`).
- Mesh: a put through a node that does not know the primary stays local and is invisible to other
  nodes (`Mesh.FallbackIsLocal`, `Mesh.PutIsDelivered`); if the primary is known and does not answer,
  the put fails instead.
- Counters: merging by maxima loses totals unless one instance has seen all that the other has
  (`Events.ImportKeepsTotals`), though never more than the sums show (`Events.TotalsAreCovered`).

## Model

| member | source | states |
|---|---|---|
| `Ring.ConsistentHash.constructor` | internal/mesh/hash.go:20-29 | A ring starts empty; fewer than one virtual node per member means 150. |
| `Ring.ConsistentHash.Add` | internal/mesh/hash.go:32-53 | Joining appends the points of the member, sorts the ring and gives every point, colliding ones included, to the newcomer; a member joins only once. |
| `Ring.ConsistentHash.Remove` | internal/mesh/hash.go:56-80 | Leaving drops the owners of the member's points and rebuilds the ring from the points that still have an owner; it panics exactly if the ring is shorter than one member's share. |
| `Ring.ConsistentHash.Search` | internal/mesh/hash.go:94-96 | Binary search returns the boundary between points below the hash and the others. |
| `Ring.ConsistentHash.Get` | internal/mesh/hash.go:83-104 | The owner of the least point at or above the hash, else of the least point of all; the empty name on an empty ring. |
| `Ring.ConsistentHash.GetN` | internal/mesh/hash.go:107-144 | The first min(n, members) different owners met clockwise from the key; requires that the walk meets that many, which is when the loop ends. |
| `Ring.ConsistentHash.Collect` | internal/mesh/hash.go:131-141 | The cyclic loop with its `seen` set yields the first n different owners of the walk and stops. |
| `RingTheorems.AnyRun` | internal/mesh/hash.go:32-80 | Over any joins and leaves, collisions allowed: ring sorted, its points exactly those that have an owner, owners current members, members those who joined and did not leave. |
| `RingTheorems.CleanRun` | internal/mesh/hash.go:32-80 | Over any joins and leaves without collisions: no panic, and the ring has exactly replicas times members points, all of them the members' own. |
| `RingTheorems.HistoryIndependence` | internal/mesh/hash.go:32-80 | Without collisions two histories with the same members end in the same ring and owner map. |
| `RingTheorems.CollisionPanics` | internal/mesh/hash.go:63-74 | With a collision, two members can be left with one point, and removing both panics on a negative capacity. |
| `RingTheorems.WalkReaches` | internal/mesh/hash.go:131-141 | The loop of `GetN` finds n members after some number of turns if and only if n owners have a point; otherwise it turns forever. |
| `RingTheorems.GetNTerminates` | internal/mesh/hash.go:115-141 | Every size up to the member count can be asked for if and only if every member still owns a point. |
| `RingTheorems.ReplicasExact` | internal/mesh/hash.go:107-144 | Without collisions `GetN` returns exactly min(n, members) different members, the owner of the key first. |
| `RingTheorems.JoinDisplacesOnlyForItself` | internal/mesh/hash.go:32-53 | After a join, every replica list without the newcomer is a prefix of the old list, for every key and n. |
| `RingTheorems.LeaveKeepsOwners` | internal/mesh/hash.go:56-80 | A leave does not change the owner of any key that the leaving member did not own. |
| `RingTheorems.LeaveKeepsReplicas` | internal/mesh/hash.go:56-80 | A leave takes from every replica list only the leaving member's own place. |
| `RingTheorems.KeysDifferExactly` | internal/mesh/hash.go:171-173 | The virtual-node keys of one member are pairwise different if and only if there are at most 0xD801 of them. |
| `RingTheorems.VirtualNodeKeysDiffer` | internal/mesh/hash.go:171-173 | Virtual-node keys of different members, or with different numbers up to 0xD800, are different. |
| `RingTheorems.TooManyReplicasCollide` | internal/mesh/hash.go:171-173 | A ring with more than 0xD801 virtual nodes per member collides with itself under every hash. |
| `RingTheorems.CollisionFreeExactly` | internal/mesh/hash.go:171-173 | Points are free of collisions if and only if the hash separates the keys and there are at most 0xD801 virtual nodes per member. |
| `Gc.MarkedIffReachable` | internal/gc/collector.go:219-265 | The set marked from a digest is what is reachable from it: nested manifests, then their configs and layers. |
| `Gc.Collector.MarkManifest` | internal/gc/collector.go:219-265 | Adds exactly the marked set of the digest to `referenced`, and comes back although it remembers no visited digest, because nested digests rank lower. |
| `Gc.Collector.MarkLeaves` | internal/gc/collector.go:251-259 | Marked are in addition exactly the config, if there is one, and every layer of the manifest. |
| `Gc.Collector.MarkRepo` | internal/gc/collector.go:164-216 | Marks from the kept tags, deletes the dropped ones with their digest records unless it is a dry run, and counts both. |
| `Gc.Collector.CollectInfos` | internal/gc/collector.go:179-191 | The tags that resolve, in listing order. |
| `Gc.Collector.DeleteDropped` | internal/gc/collector.go:210-216 | Deleting tag by tag removes exactly the dropped tags and the records of their digests; none of the deletions fails. |
| `Gc.Collector.MarkPhase` | internal/gc/collector.go:147-161 | Marks of all repositories from the state at the start; nothing at all if listing the repositories fails. |
| `Gc.Collector.SweepPhase` | internal/gc/collector.go:268-306 | Removes the unmarked files with 64-character names that can be read and removed, in any order; scanned, deleted and freed are count and sum of what was met and removed. |
| `Gc.Collector.Run` | internal/gc/collector.go:107-144 | A whole run: marks, metadata, files and all five numbers as functions of the state before; a run that finds another one going does nothing. |
| `GcTheorems.MarksAreLive` | internal/gc/collector.go:147-265 | What a run marks is exactly what some kept tag reaches. |
| `GcTheorems.FollowedExactly` | internal/gc/collector.go:219-265 | Marking reads as manifests exactly the digests of kept tags and what such manifests list. |
| `GcTheorems.LiveExactly` | internal/gc/collector.go:219-265 | Live are exactly those manifests, and the config and every layer that one of them names. |
| `GcTheorems.ImageStays` | internal/gc/collector.go:219-306 | Of a manifest that marking reads, its blob, its config, every layer and every listed manifest that was on disk is on disk after the run. |
| `GcTheorems.LayerIsNotRead` | internal/gc/collector.go:256-259 | A layer that happens to decode as a manifest is kept, but what it names is not live because of it. |
| `GcTheorems.Exactness` | internal/gc/collector.go:147-306 | A file is left if and only if it is no blob file, or is reachable from a kept tag, or could not be removed; when listing fails every removable blob goes. |
| `GcTheorems.KeptAreNewest` | internal/gc/collector.go:193-207 | Kept and dropped tags are together the resolvable ones, no kept tag is older than a dropped one, and as many are kept as the policy says. |
| `GcTheorems.KeptTagResolves` | internal/gc/collector.go:210-216 | A kept tag resolves as before if and only if no dropped tag of its repository names the same digest. |
| `GcTheorems.ReachableIntact` | internal/gc/collector.go:268-306 | What a kept tag reaches and the disk held, the disk still holds, with the same content. |
| `GcTheorems.UploadsDuringRun` | internal/gc/collector.go:107-306 | An image pushed between marking and sweeping survives if and only if every blob of it was reachable from a kept tag when marking began. |
| `GcTheorems.SecondRunDropsNoTag` | internal/gc/collector.go:107-306 | An immediate second run drops no tag and leaves metadata as it is. |
| `GcTheorems.SecondRunDeletes` | internal/gc/collector.go:107-306 | It deletes exactly the blobs that no kept tag with a digest unshared by dropped ones reaches, hence nothing if and only if such tags reach all that the kept tags reach. |
| `GcTheorems.SecondRunDeletesNothing` | internal/gc/collector.go:107-306 | If no dropped tag shares a digest with a kept one, a second run deletes no blob. |
| `GcTheorems.DryRunReportsTheSame` | internal/gc/collector.go:268-306 | A dry run changes nothing and reports the numbers of a real run exactly if no unreferenced blob that the walk can read resists removal; deleted and freed are the difference in files and bytes. |
| `Barrier.NextInv` | internal/releases/cloner.go:177-216 | Every step keeps the invariant: tokens are the goroutines in flight plus the slots main has filled, errors are the failed layers once each, success means the layer is stored. |
| `Barrier.AllDone` | internal/releases/cloner.go:207-210 | Once all slots are filled, every layer goroutine has released. |
| `Barrier.SendNeverBlocks` | internal/releases/cloner.go:178-193 | The error channel has room whenever a goroutine has an error to send. |
| `Barrier.NoDeadlock` | internal/releases/cloner.go:177-216 | Until main has returned, main or some goroutine can take a step. |
| `Barrier.EveryStepCounts` | internal/releases/cloner.go:177-216 | Every step of the program's own lowers a measure. |
| `Barrier.EveryRunReturns` | internal/releases/cloner.go:177-216 | Over every interleaving with other activity the own steps are bounded in number, and when none is left the barrier has returned. |
| `Barrier.BarrierOutcome` | internal/releases/cloner.go:177-216 | Over every interleaving, a positive result means every layer has a valid digest and is stored; a negative one means some goroutine failed. |
| `Barrier.CanSucceed` | internal/releases/cloner.go:177-216 | Left to itself, from any content-addressed store, the barrier can report success if and only if every layer has a valid digest that some data has. |
| `Barrier.AtMostConfigured` | internal/releases/cloner.go:169-183 | Never more goroutines are in flight than configured, ten by default. |
| `Barrier.ConfiguredAtOnce` | internal/releases/cloner.go:169-183 | As many can be in flight at once, if there are as many layers. |
| `Clone.VisibleImpliesComplete` | internal/releases/cloner.go:96-252 | Over every interleaving without deletion, other publications of a complete image included: whenever the release tag resolves to the digest `Clone` pulls, its manifest, config and all layers are in the store. |
| `Clone.FinishedImpliesComplete` | internal/releases/cloner.go:96-662 | A nil error from `Clone` or `PullComponentImage` means manifest, config (unless skipped) and all layers are stored. |
| `Clone.FinishedImpliesPublished` | internal/releases/cloner.go:218-252 | A nil error from `Clone` means that its tag was published on the way, at a moment when the image was complete. |
| `Clone.SilentUntilPublished` | internal/releases/cloner.go:96-237 | `Clone` changes metadata only in its last two phases. |
| `Clone.NextInv` | internal/releases/cloner.go:96-662 | Each of the six phases, in the order of either function, keeps what the earlier ones established. |
| `Clone.NoDeadlock` | internal/releases/cloner.go:96-662 | A job that is not finished or stopped can always take a step. |
| `Clone.SomeRunFinishes` | internal/releases/cloner.go:96-662 | If upstream serves a manifest that decodes and bytes that verify for all it names, there is a run of the own steps alone, from any such store, that finishes: the image is complete, recorded with its digest, size and layers, and linked, and a release shows its tag. |
| `Clone.CanFinishExactly` | internal/releases/cloner.go:96-662 | Such a run exists if and only if upstream can serve all that, up to a component config that is skipped. |
| `Clone.RegisteredIsComplete` | internal/releases/cloner.go:559-652 | The image of a component is complete from its registration on, in every run from a store, if and only if it is complete with nothing but its manifest added to that store. |
| `Clone.ComponentsAreVisibleEarly` | internal/releases/cloner.go:559-652 | Otherwise there is a run in which the digest is registered while config or a layer is missing or has an invalid digest. |
| `WorkerPool.NextInv` | internal/releases/cloner.go:671-745 | Every step keeps each job in exactly one place, every failure in the error channel, and every mirrored component complete, where a pull is any finished run of `PullComponentImage`. |
| `WorkerPool.PullIsStep` | internal/releases/cloner.go:507-662 | Every run of `PullComponentImage` from the pool's store, finished or stopped, is a step of its worker. |
| `WorkerPool.Conservation` | internal/releases/cloner.go:692-742 | queued + in flight + mirrored + failed + dropped = total, with every failure in the error channel. |
| `WorkerPool.ErrorsFit` | internal/releases/cloner.go:700-742 | The default of the error select is never taken: no error is lost and no worker blocks. |
| `WorkerPool.NoDeadlock` | internal/releases/cloner.go:692-742 | Until `MirrorComponents` has returned, some worker or the waiting caller can take a step. |
| `WorkerPool.EveryRunReturns` | internal/releases/cloner.go:692-742 | The pool takes a bounded number of steps, and when none is left it has returned. |
| `WorkerPool.MirrorOutcome` | internal/releases/cloner.go:671-745 | The result is nil if and only if no pull failed; every component was pulled exactly once if and only if no pull failed and no worker saw the cancellation. |
| `WorkerPool.MirroredImpliesComplete` | internal/releases/cloner.go:671-745 | A nil result without cancellation means every component image is complete in the store. |
| `WorkerPool.SomeRunMirrors` | internal/releases/cloner.go:671-745 | If upstream can serve every component, there is a run of the own steps alone, never cancelled, that returns nil with every component mirrored exactly once. |
| `WorkerPool.CanMirrorExactly` | internal/releases/cloner.go:671-745 | Such a run exists if and only if every reference can be pulled and upstream can serve what it leads to. |
| `WorkerPool.CancelledMirrorReturnsNil` | internal/releases/cloner.go:700-742 | Over every run with a context cancelled from the start, with any number of workers, nothing is mirrored, no error is sent, and any result is nil. |
| `WorkerPool.CancelledRun` | internal/releases/cloner.go:700-742 | From every store there is such a run that returns nil and leaves the store as it was. |
| `ImageRefs.DigestReference` | internal/releases/cloner.go:802-824 | A reference by digest keeps its digest, colon included. |
| `ImageRefs.RegistryParsed` | internal/releases/cloner.go:802-824 | A first part with a dot or a port is the registry; repository and digest or tag are recovered exactly. |
| `ImageRefs.RepositoryParsed` | internal/releases/cloner.go:802-824 | Any other first part belongs to the repository. |
| `Mirror.CheckDigests` | internal/releases/manager.go:470-480 | The counting loop over digests equals the fold `CheckAll`. |
| `Mirror.CheckAllExact` | internal/releases/manager.go:470-480 | Expected and present agree if and only if every digest is valid and present. |
| `Mirror.CheckAllReports` | internal/releases/manager.go:470-480 | Reported blobs are valid digests missing from the store, all of them while the report has room for 50. |
| `Mirror.CheckAllCounts` | internal/releases/manager.go:462-480 | Every digest is expected once, and counted as present once for each time it is there. |
| `Mirror.CountAllExact` | internal/releases/manager.go:489-525 | Manifest and blob counters reach their expectations if and only if every manifest is found and, where it decodes, all its digests are valid and present. |
| `Mirror.CountsFound` | internal/releases/manager.go:489-498 | The manifest counter is the number of components whose manifest is found, decoded or not. |
| `Mirror.ReportsNames` | internal/releases/manager.go:489-507 | Reported as missing, in order, are the names of the components not found or not decoded. |
| `Mirror.CountComponents` | internal/releases/manager.go:489-525 | The component loop equals the fold `CountAll` up to where the context is found cancelled. |
| `Mirror.VerifyMirror` | internal/releases/manager.go:441-532 | Which error is returned when; otherwise `Complete` if and only if the config and every layer of the release are there and every component is served, with the counters of the two folds. |
| `Mirror.ReportedComponents` | internal/releases/manager.go:489-507 | No component is reported missing if and only if every component manifest is found and decodes. |
| `Mirror.CompleteIsSelfContained` | internal/releases/manager.go:489-531 | Every manifest found, decoded and fully present if and only if the verdict is `Complete` and no component is reported missing; `Complete` alone is not enough. |
| `Mirror.GarbledPasses` | internal/releases/manager.go:489-531 | For any release and any list, a mirror that is not self-contained is `Complete` if and only if some component manifest is found and does not decode, and everything else is there. |
| `Mirror.ShipsExactly` | internal/releases/manager.go:489-525 | With an honest upstream a component ships if and only if its image is complete in the sense of the cloner and its config digest, if any, is valid; once its manifest is stored and decodes, the gate serves it exactly then. |
| `Mirror.ReleaseExactly` | internal/releases/manager.go:441-480 | Under its tag a release is complete in the sense of the cloner if and only if the gate finds its manifest, decodes it, and finds its config and every layer. |
| `Mirror.PipelineIsComplete` | internal/releases/manager.go:222-333 | If `Clone` and then `MirrorComponents` return nil without cancellation, nothing is deleted and upstream is honest, the mirror is complete, and self-contained, if and only if every component config is absent or has a valid digest. |
| `Mirror.InvalidConfigNeverPasses` | internal/releases/cloner.go:606-614 | With a component whose config digest is invalid anywhere in the list, pulled without error, the gate never passes. |
| `Pipeline.Release.CloneRelease` | internal/releases/manager.go:222-422 | Registration, refusal of a release in work, and the states saved in order for every outcome of the phases, whichever saves fail. |
| `Pipeline.Release.Process` | internal/releases/manager.go:247-422 | Which states the goroutine saves, from runs of `Clone` and of the worker pool and from the gate. |
| `Pipeline.Release.ReExtract` | internal/releases/manager.go:557-603 | Extracting, then ready or cloned, without a gate. |
| `Pipeline.Release.ResetState` | internal/releases/manager.go:542-554 | A release in work is called cloned, any other is left alone. |
| `Pipeline.StateMeans` | internal/releases/manager.go:222-603 | Over every history of operations: ready means that the last saving operation was a passage whose gate passed, or a re-extraction; cloned, that its clone and mirror phases returned nil, or a failed re-extraction, or a reset. |
| `Pipeline.ReExtractSkipsTheGate` | internal/releases/manager.go:557-603 | After any history, a re-extraction makes a release ready whatever the stores hold. |
| `Pipeline.StuckExactly` | internal/releases/manager.go:237-422 | A passage leaves the record in work if and only if its last save fails while `cloning` or `extracting` is what is stored. |
| `Pipeline.GateExactly` | internal/releases/manager.go:350-402 | With real runs of the phases that succeed, an honest upstream and nothing deleted or cancelled in between, the gate passes, and the mirror is self-contained, if and only if all component configs are valid. |
| `Pipeline.ReadyExactly` | internal/releases/manager.go:222-422 | The record in the end: ready if and only if all phases succeed and all component configs are valid; then the mirror is self-contained. |
| `Pipeline.SomePassageSucceeds` | internal/releases/manager.go:222-422 | The phases that `ReadyExactly` speaks of exist: what upstream can serve is cloned and mirrored by the own steps alone, from any store, and the gate passes if and only if all component configs are valid. |
| `Pipeline.AcceptedExactly` | internal/releases/manager.go:222-245 | A release is accepted if and only if it is not in work, is or can be registered, and its first saves work. |
| `Pipeline.OthersExactly` | internal/releases/manager.go:542-603 | A re-extraction is accepted for every known release not in work, a reset changes only one that is; what either saves. |
| `Pipeline.InterruptedGateFails` | internal/releases/manager.go:350-402 | A gate that is interrupted or cannot read the references never passes, and the release fails. |
| `Pipeline.CancelledIsCloned` | internal/releases/manager.go:271-311 | Whenever the context is cancelled before the mirror phase, the release is saved as cloned with nothing mirrored. |
| `Pipeline.ClonedButIncomplete` | internal/releases/manager.go:271-311 | `cloned` does not imply self-contained: any list of components with any one of them missing can be saved as cloned, with any number of workers. |
| `LruCache.LRUCache.Get` | internal/storage/cache.go:33-52 | On the linked list and the map: the entry moves to the front, or goes if expired; result and contents are those of the specification. |
| `LruCache.LRUCache.SetWithTTL` | internal/storage/cache.go:60-90 | Replaces in place and moves to the front, or pushes to the front and evicts from the back until the capacity is met; the eviction loop ends. |
| `LruCache.LRUCache.Delete` | internal/storage/cache.go:93-101 | Removes the entry of the key from list and map, and nothing else. |
| `LruCache.LRUCache.EvictOldest` | internal/storage/cache.go:104-111 | Exactly the last entry goes, from list and map. |
| `LruCache.LRUCache.Clear` | internal/storage/cache.go:121-127 | An empty map and a new empty list. |
| `LruCache.List.MoveToFront` | internal/storage/cache.go:47-48 | Relinking four neighbours moves one element to the front and keeps the order of the others. |
| `LruCache.List.Unlink` | internal/storage/cache.go:104-111 | Relinking the neighbours takes one element out of the circle and keeps the order of the others. |
| `Lru.RunFits` | internal/storage/cache.go:33-127 | Over every trace, at most `capacity` entries and one per key. |
| `Lru.StackInclusion` | internal/storage/cache.go:33-127 | Over every trace at the same times, a cache is a same-order part of any larger one with a size gap of at most the capacity gap, and hits only where the larger one hits, with the same value. |
| `Lru.EntriesAreLastSet` | internal/storage/cache.go:33-127 | Every entry in the cache is the one last set for its key and not deleted or cleared since. |
| `Lru.LastSetExactly` | internal/storage/cache.go:60-127 | Last set for a key is the entry of an operation that sets it with no later one that sets, deletes or clears it. |
| `Lru.HitsAreLastSet` | internal/storage/cache.go:33-52 | A hit returns the last value set, unexpired. |
| `Lru.Survives` | internal/storage/cache.go:60-111 | A value stays until replaced, deleted, cleared or found expired, as long as fewer than `capacity` other keys were used since. |
| `Lru.GetAfterSet` | internal/storage/cache.go:33-111 | Under the same condition a lookup returns exactly the value set, or nothing once it has expired. |
| `Metadata.MetadataStore.PutManifest` | internal/storage/metadata.go:89-131 | Manifest record, tag unless the reference is a digest, and repository record with its first creation time kept. |
| `Metadata.MetadataStore.GetManifest` | internal/storage/metadata.go:134-178 | Tag to digest to record, with the two ways of not being found. |
| `Metadata.MetadataStore.DeleteManifest` | internal/storage/metadata.go:181-214 | By tag drops the tag and the record of its digest, by digest the record; an unknown tag changes nothing. |
| `Metadata.MetadataStore.ScanSuffixes` | internal/storage/metadata.go:249-268 | A seek and a walk over ordered keys return all and only the suffixes of keys with the prefix, in order. |
| `Metadata.MetadataStore.DeleteRepository` | internal/storage/metadata.go:217-246 | Three prefix scans and single deletions remove exactly the keys under the three prefixes and the repository record. |
| `Metadata.MetadataStore.LinkBlobToRepo` | internal/storage/metadata.go:315-326 | Both link keys are set. |
| `Metadata.MetadataStore.UnlinkBlobFromRepo` | internal/storage/metadata.go:329-338 | Both link keys are deleted. |
| `TypedMetadata.KeysInjective` | internal/storage/metadata.go:20-26 | Keys written for colon-free repositories and whole digests determine what they were made of. |
| `TypedMetadata.PutRefines` | internal/storage/metadata.go:89-131 | On the flat map, putting a manifest is putting it into three separate relations. |
| `TypedMetadata.PutThenGet` | internal/storage/metadata.go:89-178 | On the flat map: a manifest that was put is found by its digest, and by its reference if that is a tag; the repository is listed with the time it was first seen. |
| `TypedMetadata.DigestRefs` | internal/storage/metadata.go:100-104 | A reference counts as a digest by its first seven characters alone, which every valid digest has. |
| `TypedMetadata.GetRefines` | internal/storage/metadata.go:134-178 | On the flat map, getting a manifest is the lookup in two relations. |
| `TypedMetadata.DeleteRefines` | internal/storage/metadata.go:181-214 | On the flat map, deleting a manifest changes those two relations only. |
| `TypedMetadata.DeleteRepoRefines` | internal/storage/metadata.go:217-246 | Deleting a repository removes that repository's entries of four relations and nothing of any other repository; links from blobs stay. |
| `TypedMetadata.DoomedIff` | internal/storage/metadata.go:217-246 | A key is collected for deletion if and only if it belongs to the repository. |
| `TypedMetadata.ColonNamesCollide` | internal/storage/metadata.go:20-26 | With a colon in a repository name, deleting the part before it takes the longer name's manifests along. |
| `TypedMetadata.TagListing` | internal/storage/metadata.go:249-268 | The tag scan lists exactly the tags of the repository. |
| `TypedMetadata.RepoListing` | internal/storage/metadata.go:271-290 | The repository scan lists exactly the repositories. |
| `TypedMetadata.BlobRepoListing` | internal/storage/metadata.go:341-360 | The back-link scan lists exactly the repositories of the blob. |
| `TypedMetadata.RepoBlobListing` | internal/storage/metadata.go:363-382 | The link scan lists exactly the blobs of the repository. |
| `MetadataRuns.RunRefines` | internal/storage/metadata.go:89-400 | Over every run of operations the flat map behaves as five separate relations. |
| `MetadataRuns.RunInvariants` | internal/storage/metadata.go:89-338 | Over every run: records sit under their own digest, tags do not look like digests, every listed blob points back; both indexes agree if no repository was deleted. |
| `MetadataRuns.DeleteRepoSplitsLinks` | internal/storage/metadata.go:217-246 | Deleting a repository keeps the two indexes equal if and only if it listed no blob. |
| `ManifestCache.Handler.HandleGetManifest` | internal/api/v2/handlers.go:164-226 | From the cache, else from metadata and into the cache, else from the proxy, which fills metadata and not the cache; each way of failing, and the bytes that are served. |
| `ManifestCache.GetAfterPut` | internal/api/v2/handlers.go:164-319 | Right after a PUT, a GET by the tag or by the digest serves the record and, if the blob was new, the body that was put. |
| `ManifestCache.PutRecords` | internal/api/v2/handlers.go:270-310 | Over the fields of the manifest: its record under digest and tag, and the links of body, config and every layer. |
| `ManifestCache.GetFindsExactly` | internal/api/v2/handlers.go:164-204 | With readable metadata a GET finds the manifest if and only if metadata resolves the reference, and answers that there is none if and only if the proxy has none either. |
| `ManifestCache.ServedAgain` | internal/api/v2/handlers.go:164-204 | What was served once is served again from the cache when metadata cannot be read. |
| `ManifestCache.FetchedIsKept` | internal/mirror/proxy.go:140-167 | What the proxy brought is served, and is in metadata afterwards exactly as far as its writes worked. |
| `ManifestCache.RespondExactly` | internal/api/v2/handlers.go:191-226 | Which answers become the stored bytes, which become the two failures. |
| `ManifestCache.Handler.HandlePutManifest` | internal/api/v2/handlers.go:228-319 | Refused unless it decodes and every blob it names exists; then blob, record, links, and two cache entries forgotten; a failure changes neither metadata nor cache. |
| `ManifestCache.Handler.HandleDeleteManifest` | internal/api/v2/handlers.go:322-335 | Deletes in metadata and forgets one cache entry, or reports that there is none. |
| `ManifestCache.DeleteExactly` | internal/api/v2/handlers.go:322-335 | A DELETE works for every digest and every known tag; afterwards exactly the references of the repository with the deleted digest no longer resolve. |
| `ManifestCache.GetAfterDelete` | internal/api/v2/handlers.go:164-335 | After it a GET finds the reference neither in the cache nor in metadata, and all other cache entries are as before. |
| `ManifestCache.CacheKeyInjective` | internal/api/v2/handlers.go:166 | Cache keys of colon-free repositories determine repository and reference. |
| `ManifestCache.AlwaysCoherent` | internal/api/v2/handlers.go:164-319 | Over any run of GET, proxy fill and PUT, one after the other, every cached reference has the digest metadata would resolve it to. |
| `ManifestCache.CoherentThroughout` | internal/api/v2/handlers.go:164-319 | Over any run in which the two halves of a GET are apart, the cache is coherent at every moment if and only if every record is cached while its reference still resolves to it. |
| `ManifestCache.PutInsideGet` | internal/api/v2/handlers.go:173-319 | A PUT between the two halves of a GET leaves the replaced record in the cache without expiry, which is incoherent if and only if the reference is a tag and the digest a new one. |
| `ManifestCache.GetServesResolved` | internal/api/v2/handlers.go:164-226 | The bytes served from the store hash to the digest that metadata resolves the reference to. |
| `ManifestCache.GetKeepsCoherence` | internal/api/v2/handlers.go:164-204 | A GET serves the digest that metadata resolves, from wherever it comes, and keeps coherence. |
| `ManifestCache.FillKeepsCoherence` | internal/mirror/proxy.go:140-167 | The proxy's own write to metadata keeps coherence, because the reference did not resolve and hence was not cached. |
| `ManifestCache.DeleteCoherence` | internal/api/v2/handlers.go:322-335 | DELETE keeps coherence if and only if no other cached reference of the repository resolves to the deleted digest. |
| `ManifestCache.BackgroundPutCoherence` | internal/releases/cloner.go:234-236 | A manifest put behind the cache's back keeps coherence if and only if the reference is a digest, not cached, or cached with that digest. |
| `ManifestCache.DeleteRepoCoherence` | internal/storage/metadata.go:217-246 | Deleting a repository keeps coherence if and only if nothing of it is cached. |
| `Registry.Handler.HandleDeleteBlob` | internal/api/v2/handlers.go:455-476 | On the flat map: the blob goes if and only if the scan finds no repository or fails; if the scan works, it goes only when no repository's link index lists it. |
| `Registry.ListPage` | internal/api/v2/handlers.go:660-694 | One page: what follows the first occurrence of `last`, at most n tags, with a link if more are left. |
| `Registry.AllPages` | internal/api/v2/handlers.go:660-694 | Following the links from the first page returns every tag exactly once, in order. |
| `Registry.NextPageGoesOn` | internal/api/v2/handlers.go:660-694 | Whatever else has changed, the page after a tag that is still there holds the least of the greater tags and repeats none. |
| `Registry.RepeatsExactly` | internal/api/v2/handlers.go:671-694 | The page after `last` repeats listed tags if and only if `last` is gone and one of the tags the listing starts over with was listed; if none came in, if and only if a tag not greater than `last` is left. |
| `Registry.NoLimit` | internal/api/v2/handlers.go:660-694 | Without `n` the answer is one page of all tags, or of all that follow `last`. |
| `Registry.LinkExactly` | internal/api/v2/handlers.go:681-688 | There is a link if and only if tags are left, and it asks for what follows the last tag of the page. |
| `Registry.Handler.HandleCatalog` | internal/api/v2/handlers.go:152-161 | All repositories, in key order. |
| `Registry.Handler.HandleListTags` | internal/api/v2/handlers.go:660-694 | A page of the tags of the repository, read from the flat map. |
| `Blobs.BlobStore.Put` | internal/storage/blob.go:142-214 | Deduplicates by size, stores exactly verified data under its digest, and leaves the store unchanged on every failure; the preallocated padding never gets in. |
| `Blobs.BlobStore.Delete` | internal/storage/blob.go:217-229 | Removes one blob and says whether it was there. |
| `Blobs.AlwaysContentAddressed` | internal/storage/blob.go:142-229 | Over every run of `Put`, `Finish` and `Delete` each blob hashes to its name. |
| `Blobs.BlobPathInjective` | internal/storage/blob.go:46-50 | Different valid digests have different files. |
| `Digests.ValidShape` | pkg/digest/digest.go:16-47 | The valid digests are exactly the strings of 71 characters that start with `sha256:`. |
| `Uploads.Upload.Write` | internal/storage/upload.go:96-104 | Writes at the cursor whatever the reader delivers, also before an error, and adds it to the announced size. |
| `Uploads.Upload.WriteAt` | internal/storage/upload.go:107-123 | Seeks and writes; a negative offset fails and changes nothing; the announced size becomes the end of the chunk if that is larger. |
| `Uploads.AnyOrder` | internal/storage/upload.go:107-123 | Pieces of a blob that cover it assemble to it in any order, overlapping or not; what is not covered can only be zeros. |
| `Uploads.InOrderConcatenates` | internal/storage/upload.go:96-123 | Any mix of `Write` and of `WriteAt` at the announced size keeps cursor, size and file length equal and concatenates. |
| `Uploads.WriteKeepsSize` | internal/storage/upload.go:96-104 | A `Write` after positioned writes keeps the announced size right if and only if the cursor was at the end of the file. |
| `Uploads.WriteAtKeepsSize` | internal/storage/upload.go:107-123 | A positioned write keeps the announced size right if and only if it writes something or starts inside the file. |
| `Uploads.UploadManager.Finish` | internal/storage/upload.go:126-187 | The session ends whatever happens; the store gains the content only if it hashes to the announced digest, and is unchanged on every failure. |
| `Uploads.UploadManager.Cancel` | internal/storage/upload.go:190-205 | The session ends and its file is closed. |
| `Mesh.Mesh.GetBlob` | internal/mesh/router.go:41-68 | Here, else from the primary node, else not found or unreachable. |
| `Mesh.Mesh.HasBlob` | internal/mesh/router.go:98-123 | True if and only if `GetBlob` at the same node would deliver. |
| `Mesh.Mesh.PutBlob` | internal/mesh/router.go:71-95 | Without a target the put fails and stores nothing; else only the store of the target changes, by at most one verified blob, and success means that the target has it. |
| `Mesh.PrimaryIsOwner` | internal/mesh/gossip.go:200-212 | The primary of a digest is the owner of the ring point that follows its checksum. |
| `Mesh.ReplicasAreFirst` | internal/mesh/gossip.go:205-207 | Without collisions the replicas are min(factor, members) different members, the primary first. |
| `Mesh.OthersAre` | internal/mesh/replication.go:66-80 | The targets of a job are all replicas but the node itself. |
| `Mesh.GetExactly` | internal/mesh/router.go:41-68 | A node delivers what it has or what the primary has and it reaches, and blames the network if and only if another node is primary and cannot be reached. |
| `Mesh.PutExactly` | internal/mesh/router.go:71-95 | A put goes nowhere if and only if the primary is another member that does not answer, and stays if and only if the node is primary, there is none, or it is no member. |
| `Mesh.Mesh.Replicate` | internal/mesh/replication.go:66-89 | Queues a job for the other replicas; nothing to do, or a full queue, leaves the queue as it is. |
| `Mesh.Mesh.ProcessJob` | internal/mesh/replication.go:114-141 | Every target that answers receives the blob, failures of others notwithstanding. |
| `Mesh.PushDelivers` | internal/mesh/replication.go:114-141 | After a job every answering target has the blob, with the data if it was new there, and no other store has changed. |
| `Mesh.Mesh.Repair` | internal/mesh/replication.go:260-291 | A blob this node should hold and lacks is taken from the first answering replica that has it. |
| `Mesh.Mesh.Sync` | internal/mesh/replication.go:241-290 | A round over all repositories and digests repairs them one after the other. |
| `Mesh.DeliveredEverywhere` | internal/mesh/router.go:41-68 | With all nodes known and answering, every node delivers a blob if and only if the primary has it or every node has it. |
| `Mesh.RunGrows` | internal/mesh/replication.go:66-320 | Over every run stores only grow, and what they hold hashes to its name. |
| `Mesh.ReadYourWrites` | internal/mesh/router.go:41-123 | After a put that reached its target with the primary known, every node that reaches the primary delivers bytes that hash to the digest, whatever outages there are in between. |
| `Mesh.ReplicasConverge` | internal/mesh/replication.go:241-290 | Once every replica node has had a round over a digest that an answering replica holds, all replicas hold it, whatever jobs were dropped or failed. |
| `Mesh.RoundConverges` | internal/mesh/replication.go:241-290 | The same for a single node: after its round it holds the blob from then on. |
| `Mesh.PutIsDelivered` | internal/mesh/router.go:41-123 | After a put that reached a node, and with all nodes answering later, every node delivers the blob if and only if it went to the primary, or the primary had it, or all other nodes had it. |
| `Mesh.FallbackIsLocal` | internal/mesh/router.go:84-92 | A put through a node that does not know the primary stays there, and other nodes that lack the blob miss it once the primary is back. |
| `Iso.FindDirEntry` | internal/releases/iso.go:169-211 | The walk stays in bounds, advances in every round, and equals the recursive reading of the directory. |
| `Iso.FindsFirst` | internal/releases/iso.go:169-211 | On every directory laid out per sections 6.8.1 and 9.1 of ECMA-119 the walk returns extent and size of the first record with the name, or that there is none. |
| `Iso.ReadErrorExactly` | internal/releases/iso.go:171-175 | Reading fails if and only if the directory reaches beyond the end of the image. |
| `Iso.NamedIsFirst` | internal/releases/iso.go:197-206 | A file recorded as `name` or `name;1`, before any other that matches, is the one that is found. |
| `Iso.RootExactly` | internal/releases/iso.go:137-149 | There is a root directory if and only if the image reaches byte 34816 and byte 32768 starts a primary volume descriptor. |
| `Iso.StandardRoute` | internal/releases/iso.go:135-165 | In an image with a volume descriptor and directories laid out per ECMA-119, the image is found through the first IMAGES in the root directory and the first IGNITION.IMG in that, and through nothing else. |
| `Iso.IsoFile.FindIgnitionImg` | internal/releases/iso.go:135-165 | Volume descriptor, root, IMAGES, IGNITION.IMG, or failure at the first that is missing. |
| `Iso.IsoFile.EmbedIgnition` | internal/releases/iso.go:101-131 | Patches the slot if the image is found and the initrd fits, otherwise changes nothing. |
| `Iso.OnlyTheSlot` | internal/releases/iso.go:119-128 | Only the slot changes: it holds the bytes of the initrd, then zeros. |
| `Iso.RouteUnchanged` | internal/releases/iso.go:135-165 | Patching does not move the image if its extent overlaps neither the descriptor nor the directories. |
| `Iso.ReEmbed` | internal/releases/iso.go:101-131 | Under that condition embedding twice is embedding the last. |
| `Cpio.WriteCPIOEntry` | internal/releases/iso.go:232-277 | Appends exactly one entry to the writer. |
| `Cpio.FieldRoundTrip` | internal/releases/iso.go:239-253 | A header field reads back as its number, and has eight digits if and only if the number is below 2^32. |
| `Cpio.HeaderFields` | internal/releases/iso.go:239-268 | Read field by field, a header is that of a regular file with one link, the two sizes, and zeros. |
| `Cpio.EntryRoundTrip` | internal/releases/iso.go:232-277 | A newc reader recovers name, data and what follows from a written entry, for sizes below 2^32. |
| `Cpio.EntryAligned` | internal/releases/iso.go:232-277 | Every entry ends at a multiple of four. |
| `Cpio.ArchiveRoundTrip` | internal/releases/iso.go:214-229 | The archive reads back as one file `config.ign` with the given content, then the trailer. |
| `Cpio.InitrdRoundTrip` | internal/releases/iso.go:214-229 | The same through any compressor that can be undone. |
| `DataUrl.UrlEncode` | internal/releases/ignition.go:247-260 | The appending loop computes the percent-encoding. |
| `DataUrl.EncodedByte` | internal/releases/ignition.go:247-272 | Letters, digits and four punctuation characters stand for themselves, any other byte is a percent sign and its two upper-case digits. |
| `DataUrl.RoundTrip` | internal/releases/ignition.go:247-272 | A decoder for section 2.1 of RFC 3986 recovers every content. |
| `DataUrl.OnlySafe` | internal/releases/ignition.go:262-265 | The text has only unreserved characters of section 2.3 of RFC 3986 and percent signs. |
| `Events.ReverseOrder` | internal/events/store.go:33-35 | Keys have 19 characters and sort in the reverse order of time. |
| `Events.Store.ListEvents` | internal/events/store.go:58-79 | The events of the listed IDs, one by one. |
| `Events.ListedIsFirst` | internal/events/store.go:58-79 | The list is in key order and matches the filter; a matching event is left out only when the limit is reached, and comes after all listed ones. |
| `Events.ListedUnlessFull` | internal/events/store.go:58-79 | A stored event of the kind asked for is listed unless the limit is reached before it, and one of another kind never is. |
| `Events.NewestFirst` | internal/events/store.go:33-79 | Of two matching events the newer is listed before the older, and is listed whenever the older is. |
| `Events.Store.ImportEvent` | internal/events/store.go:193-204 | An ID that is already there is left alone. |
| `Events.CounterStore.RecordDownload` | internal/events/store.go:117-136 | A record under the key of the moment, and all five parts of the counter advanced by one download. |
| `Events.VersionsAreCounted` | internal/events/store.go:125-136 | Without imports the count of a version is the number of its downloads. |
| `Events.ArtifactsAreCounted` | internal/events/store.go:125-136 | The same for artifacts. |
| `Events.BytesAreSummed` | internal/events/store.go:125-136 | Without imports bytes are the sum of all sizes and the last time is that of the last download. |
| `Events.CounterStore.MergeInto` | internal/events/store.go:246-255 | The walk over the imported counts, in any order, takes the maximum for each key. |
| `Events.CounterStore.ImportDownloadStats` | internal/events/store.go:225-258 | The merge of current and imported counters; nothing for nil. |
| `Events.MergeIsLeast` | internal/events/store.go:225-258 | Merging is the least upper bound: above both, below whatever is above both. |
| `Events.MergeLaws` | internal/events/store.go:225-258 | Merging is commutative, associative and idempotent on counters with positive counts. |
| `Events.TotalsAreCovered` | internal/events/store.go:117-258 | Over any mix of downloads and imports the total is at most the sum over versions and over artifacts; without imports all three equal the number of downloads. |
| `Events.ImportKeepsTotals` | internal/events/store.go:225-258 | An import keeps the total equal to the sum over versions if and only if one of the two instances has, per version, at least what the other has; likewise for artifacts. |
| `Events.ImportLosesTotals` | internal/events/store.go:232-243 | Two instances with one download each, of different versions, lose one in the total. |

## Left out

- Clone.NextInv: the existence check of a blob and the end of its verified store are the only two moments at which a pull meets the store, and they are one step each of which either may happen, whatever others do in between; the links that a component's layer goroutines write count as other activity.
- Clone.FinishedImpliesPublished: the links to the repository are made in one step, any part of them, since their errors are ignored.
- WorkerPool.NextInv: a pull is a run of `PullComponentImage` that takes effect on the pool's store when it ends, with all other activity inside it; progress counters are not modelled.
- Mirror.PipelineIsComplete: the decoders of the cloner and of the gate are one function, and the component references are the same in both phases.
- Mirror.VerifyMirror: the texts of the messages about missing components are reduced to the component names.
- Gc.Collector.Run: time stamps of the run are not modelled; nothing else changes metadata or blobs during a run, except as `GcTheorems.UploadsDuringRun` says.
- Pipeline.Release.CloneRelease: operations on one release follow each other; the goroutine of one has ended when the next begins.
- Ring.ConsistentHash.Add: `Members` and `Size` are not modelled; they only copy.
- LruCache.LRUCache.SetWithTTL: capacity is a natural number, because the eviction loop does not end for a negative one.
- Metadata.MetadataStore.PutManifest: transactions that fail as a whole are not modelled here; where callers react to such a failure, it is a parameter of the caller.
- Metadata.MetadataStore.GetManifest: a stored value is a typed value instead of JSON text; a value of the wrong kind stands for text that does not decode.
- ManifestCache.CoherentThroughout: GETs are split in two, PUTs are not; DELETE, clones and deleted repositories are treated one step at a time in the lemmas about them.
- Blobs.BlobStore.Put: a digest with another algorithm has a directory of its own; the path cleaning that would make an algorithm such as `..` meet another directory is not modelled.
- Uploads.UploadManager.Finish: upload identifiers are assumed new at `Start`, since they are 128 random bits; stale sessions are not cleaned up.
- Mesh.Mesh.PutBlob: HTTP is reduced to whether a node answers and to what its handler does.
- Mesh.Mesh.Sync: metadata links are valid digests, as the HTTP routes let through.
- Mesh.RoundConverges: the ring is stable while nodes come to be known and to answer or not from event to event, and a node that answers a pull delivers the whole blob.
- Iso.FindsFirst: a record is compared by its name with a version suffix removed, as the code does; whether it is a file or a directory is not looked at.
- Cpio.EntryRoundTrip: for 2^32 bytes and more the size field has nine digits and the entry is no newc entry.
- Events.Store.RecordEvent: times are between 1970 and 2262, where the subtraction does not overflow; two events in one nanosecond share a key.
- Events.CounterStore.RecordDownload: counters are unbounded integers, not 64-bit ones; the JSON text in which they are stored is not modelled.
- HTTP clients, tokens, retries, TLS, headers, JSON and YAML decoding, SHA-256, CRC32, gzip, tar, Badger, memberlist and mmap: parameters or maps, or not part of this model.
- `ImportRelease`, release discovery, schedulers, Quay sync, signing, certificates, auth, OpenShift administration, user interface: not part of this model.
- Clone progress and event history: they are written out of order by design, so there is nothing to prove about their order.
- Range requests, single-request uploads and cross-repository mounts: thin callers of the blob store.
