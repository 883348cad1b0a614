# Verified model of the VFS server's stateful cores

The repository serves each user a virtual file system: data points under
`/points/<name>` and backup repositories under `/repos/<name>`, each with a byte
quota. This project models the parts of it that are hard to get right by reading
one function at a time, and proves what they are for:

- **Quota engine** (`QuotaCounters`, `QuotaMachine`, `QuotaConservation`,
  `QuotaLimit`, `QuotaDurability`, `QuotaOutcomes`). One quota id as a step system: any number of
  writes, copies and deletes in flight, one step per atomic action (chunk, stat,
  counter load, compare-and-swap, dirty store, rename, fallback removal, rollback,
  delete, credit), interleaved with lazy loading, resets, the background sync task
  and crashes. The counter itself is a class whose exchange loop runs against any
  schedule of interference; the machine's exchange step is one turn of that loop
  (`QuotaMachine.ExchangeIsOneTurn`).
- **Space retention** (`Fifo`, `SpaceReclaim`, `RetentionRun`). The candidate list,
  the batch, the loop of rounds with its doubling, its circuit breaker and its
  round limit, and a whole run over a repository that is changed in place.
- **Server protocols** (`KeyRotation`, `EventPipeline`, `Transfer`,
  `WriteHandles`). Two-phase password rotation with faults and crashes at every
  step, among jobs that create missing repositories with a password they read
  earlier; the bounded event pipeline; copying and moving trees with every
  intermediate state of the storage recorded; write handles against a zero-filling
  reference image.
- **Naming and routing** (`PathText`, `Naming`, `Mounts`, `Routing`,
  `VirtualTree`). Unique renaming of points, the two independent path parsers, and
  the directories derived from the mount table.

`Prelude` holds the shared option and result types and the 64-bit arithmetic.

## Reading the quota model

`Drift` is how far the counter is above `Live` (sizes of existing objects) plus
`SumPend` (for every operation in flight, what it has counted but not yet done).
`DriftOfRun` says that the drift after any run whatsoever is the drift before plus
the `Leak` of each step; a leak is written down for every step that has one. From
that follow exact conservation when nothing fails (`Conservation`), a counter that
is never too low as long as copy sources can be sized and no growing rename is
rolled back after it took effect (`NeverTooLow`), and exactly which steps lower it
against the truth (`LeakNegativeIff`).

These statements take the total of every exchange to fit in 64 bits (`Fits`). Below
the largest limit that can only fail in a rollback that gives back more than it
takes (`FitsUnlessRegrowing`).

## Where the code differs from what one would claim of it

- `SpaceReclaim.LogarithmicReclaim` and `BoundIsAttained`: the bound
  floor(log2 n) + 1 on the rounds is exact for every power of two up to 2^63, where
  a run ends at the 64-round stop; fewer candidates never reach it. A usage that
  starts above the quota costs one more round for every target it is above.
- `QuotaDurability.Accounted`: the persisted value equals the counter only while
  the sync task is idle; between reading and storing it the task holds the value,
  and after a failed store it is about to set the flag again. The invariant names
  these cases.
- `QuotaConservation.LeakNegativeIff`: apart from resets and crashes, two kinds of
  step lower the counter against the truth. One renames into place a copy whose
  non-empty source could not be sized at close and was counted as empty
  (`UnsizedCopyUndercounts`). The other rolls back a growing rename that took effect
  but was reported as failed, when the fallback has not removed the object
  (`LostRenameUndercounts`): any error of a rename is taken to mean that nothing was
  renamed.
- `KeyRotation.RotationSafeIff`: exactly two kinds of step lock a point out. One is
  storing the new configuration after a repository that phase 1 passed over as
  absent has been created (`CommitSafeIff`; `CreationRaceLocksOut` is such a run).
  The other is creating a repository with a password that is not the stored one
  (`CreateSafeIff`): a backup or a mount under construction uses the password it
  read at its start, so it can lock a point out even after the whole request has
  ended well (`LateCreationLocksOut`).
- `Transfer.AdmittedIsDisjointIff` and `RunTransfer`: the check against transferring
  a directory into itself is made within one point only. When the root of one local
  point lies in that of another, a move can go into its own source; then it
  succeeds and the files are lost at both ends (`MoveIntoItself`). A move keeps its
  files exactly when the destination is not inside the source on disk.
- `WriteHandles.InvAfterIff`: the check of `SetLength` saturates where that of
  `WriteAt` refuses, so with a quota of 2^64 - 1 a resize whose total overflows is
  let through (`OverflowHappens`); this is the only way to break the invariant. As
  operating systems refuse lengths of 2^63 and more, it takes other files of more
  than 2^63 bytes. `LengthExactIff`: an empty write beyond the end moves the recorded
  length but not the file (`EmptyStretchHappens`).
- `Naming.FirstHoldersKeepIff` and `FirstHolderCanLoseItsName`: the first point to
  ask for a name loses it when an earlier point that repeats a name will be called
  just that. The condition speaks of the given names only; it is exact for up to
  ten million points of which those sharing a name differ in the first eight digits
  of their identifiers. `UnmatchedNamesStay` and `ThreatenedLoses` need no such
  condition and give one direction each.
- `Routing.TrimmedRouteIff` and `TrimmingPartsTheParsers`: behind a storage library
  that trims white space around paths, the mount table still serves what the
  permission parser found exactly when the path is asked for as a directory or does
  not end in white space. Point names may end so, and then the two parsers can choose
  different points. `ParsersAgree` speaks of the paths as the server hands them over.
- `VirtualTree.ReachableIff`: a mount lying below another is not found by listing.
  The server's own mounts never nest (`Routing.TableIsCanonical`).

## Assumptions

They are conditions of the model that the code does not establish: operations in
flight on one quota id touch pairwise distinct paths; a delete batch names a path
once; all layers on one id share one limit; configuration changes do not overlap;
no two repository points share one storage target; creating a repository fails when
there is one already; snapshots and groups are listed in the same order in every
round, or else the times of the snapshots differ, and then any order will do
(`RetentionRun.AnyListingWillDo`); the source of a transfer is not changed by others
while it runs, and its listing is true.

## Model

| member | source | states |
|---|---|---|
| `QuotaCounters.DeltaExactIff` | crates/opendal-vfs/src/layers/quota.rs:183-209 | the saturating update is the exact difference precisely when the old size fits in the counter and the sum in 64 bits |
| `QuotaCounters.DeltaClamped` | crates/opendal-vfs/src/layers/quota.rs:183-192 | and otherwise: an old size beyond the counter leaves nothing of it, and a sum beyond 64 bits stops at their end |
| `QuotaCounters.QuotaCounter.ApplyDelta` | crates/opendal-vfs/src/layers/quota.rs:183-209 | under any spurious failures and any stores by other threads: success moves the counter in one step from the value it then held and sets the flag; rejection stores nothing and reports the value it was judged against |
| `QuotaCounters.QuotaCounter.Reset` | crates/opendal-vfs/src/layers/quota.rs:174-177 | the counter is zero and marked for persisting |
| `QuotaMachine.ExchangeIsOneTurn` | crates/opendal-vfs/src/layers/quota.rs:183-209 | what the machine does in one exchange step to the operation and the counter is what one turn of the loop does with the same arguments |
| `QuotaConservation.InvStep` | crates/opendal-vfs/src/layers/quota.rs:639-1034 | every step of every operation, with any answer of the backend, keeps the captured sizes true and the operations apart |
| `QuotaConservation.DriftStep` | crates/opendal-vfs/src/layers/quota.rs:639-1034 | each atomic step changes counter minus live bytes minus pending bytes by its named leak, and by nothing else |
| `QuotaConservation.DriftOfRun` | crates/opendal-vfs/src/layers/quota.rs:174-1034 | over any run, with crashes, resets, failures and lost answers, the error of the counter is the sum of the leaks of its steps |
| `QuotaConservation.NoSaturation` | crates/opendal-vfs/src/layers/quota.rs:183-192 | with the counter not too low, what any exchange loop is about to subtract is contained in it, so the saturating subtraction never saturates |
| `QuotaConservation.LeakNeverNegative` | crates/opendal-vfs/src/layers/quota.rs:639-661 | a failed rename after the fallback removed the target, a rename onto an object, an uncredited delete and failed target stats only ever leave the counter too high |
| `QuotaConservation.LeakNegativeIff` | crates/opendal-vfs/src/layers/quota.rs:639-661 | with nothing assumed of any answer: of all steps but resets and crashes, exactly these lower the counter against the truth: renames that put more bytes in place than were counted, which are copies of non-empty sources counted as empty, and rollbacks of growing renames that took effect and left the object in place |
| `QuotaConservation.UndercountFollowsUnsizedSource` | crates/opendal-vfs/src/layers/quota.rs:996-1012 | such a step never comes in a run in which every copy source could be sized |
| `QuotaConservation.RollbackFollowsUnheardRename` | crates/opendal-vfs/src/layers/quota.rs:870-891 | a step of the second kind never comes in a run in which no rename takes effect and reports failure |
| `QuotaConservation.CleanStepsDoNotLeak` | crates/opendal-vfs/src/layers/quota.rs:860-896 | without those failures no step leaks |
| `QuotaConservation.NeverTooLow` | crates/opendal-vfs/src/layers/quota.rs:860-953 | with copy sources sized and no such rollback, in every state of every interleaving the counter covers the live objects and all pending changes |
| `QuotaConservation.NeverTooLowUnlessLowered` | crates/opendal-vfs/src/layers/quota.rs:639-1020 | over any run with any answers, only a step of the two kinds takes the counter below the truth |
| `QuotaConservation.FitsUnlessRegrowing` | crates/opendal-vfs/src/layers/quota.rs:183-192 | below the largest limit the total of an exchange fits in 64 bits unless a rollback gives back more than it takes |
| `QuotaConservation.StaysWordSized` | crates/opendal-vfs/src/layers/quota.rs:183-192 | counter, persisted and held values stay 64-bit numbers |
| `QuotaConservation.Conservation` | crates/opendal-vfs/src/layers/quota.rs:860-953 | with no failure of the named kinds it equals them, in every state of every interleaving |
| `QuotaConservation.QuiescentCounterIsLiveSize` | crates/opendal-vfs/src/layers/quota.rs:386-410 | from an accurate start, once everything in flight is over, the counter is the total size of what exists |
| `QuotaConservation.UnsizedCopyUndercounts` | crates/opendal-vfs/src/layers/quota.rs:996-1020 | a concrete run in which a copy of n bytes with a failed source stat leaves the counter n bytes too low |
| `QuotaConservation.LostRenameUndercounts` | crates/opendal-vfs/src/layers/quota.rs:870-891 | a concrete run of a plain write, all stats true, whose rename takes effect but reports failure, and whose rollback leaves n bytes that the counter does not know |
| `QuotaLimit.BoundedStep` | crates/opendal-vfs/src/layers/quota.rs:386-410 | no step lifts the counter above the larger of loaded value and limit plus the shrink undone by rollbacks |
| `QuotaLimit.LimitHolds` | crates/opendal-vfs/src/layers/quota.rs:183-209 | that bound holds over every run with any threads, spurious failures, resets and crashes |
| `QuotaLimit.LimitFromStart` | crates/opendal-vfs/src/layers/quota.rs:183-209 | so from any start of a server, in every state it reaches |
| `QuotaLimit.LimitNeverExceeded` | crates/opendal-vfs/src/layers/quota.rs:866-891 | without a rollback that gives back more than it takes, the counter never exceeds the larger of loaded value and limit |
| `QuotaLimit.RejectedWritesLeaveNoTrace` | crates/opendal-vfs/src/layers/quota.rs:851-906 | a write or copy that ends rejected or aborted moved the counter in none of its steps and reached none that touches a real path, whatever ran in between |
| `QuotaLimit.StagingPathsDiffer` | crates/opendal-vfs/src/layers/quota.rs:623-634 | no two operations of a process stage at one path, and none at its own target |
| `QuotaDurability.AccountedStep` | crates/opendal-vfs/src/layers/quota.rs:439-472 | no step of commits, resets or the sync task, failures included, makes the current value forgotten |
| `QuotaDurability.NoLostUpdate` | crates/opendal-vfs/src/layers/quota.rs:439-472 | in every reachable state the current value is persisted, held by the sync task, or on its way to being noticed |
| `QuotaDurability.TickFlushes` | crates/opendal-vfs/src/layers/quota.rs:439-472 | one undisturbed successful tick makes the persisted value equal to the counter |
| `QuotaDurability.FailedTick` | crates/opendal-vfs/src/layers/quota.rs:439-472 | a tick whose store fails, with or without effect, leaves the counter as it is and dirty for the next tick |
| `QuotaDurability.DurableValuesFollowHistory` | crates/opendal-vfs/src/layers/quota.rs:439-472 | what the tracker holds is a value the counter had, and syncs only move forward in the counter's history, across restarts |
| `QuotaDurability.DurableFromStart` | crates/opendal-vfs/src/layers/quota.rs:439-472 | both hold in every state reached from any start of a server |
| `QuotaDurability.RecordedStep` | crates/opendal-vfs/src/layers/quota.rs:358-380 | the first touch after a restart loads exactly the persisted value of the past |
| `QuotaDurability.LoadedAtMostOnce` | crates/opendal-vfs/src/layers/quota.rs:358-380 | without a restart an id is loaded at most once, and never again once it has a bucket |
| `QuotaDurability.TrackerOnlyBySync` | crates/opendal-vfs/src/layers/quota.rs:439-472 | over any run, nothing but the sync task changes what the tracker holds |
| `QuotaOutcomes.StagedIsHanded` | crates/opendal-vfs/src/layers/quota.rs:851-858 | over any run: a write has staged, and asks the quota for, the sum of the chunks it was handed |
| `QuotaOutcomes.WrittenArrives` | crates/opendal-vfs/src/layers/quota.rs:639-661 | when its rename takes effect, reported or not, the object at its path has exactly those bytes |
| `QuotaOutcomes.StagedIsSource` | crates/opendal-vfs/src/layers/quota.rs:996-1001 | over any run: a copy has staged what its source held when it was closed |
| `QuotaOutcomes.OthersStay` | crates/opendal-vfs/src/layers/quota.rs:639-661 | no step touches a path but those of the write, copy or delete of that path and a user's rename |
| `QuotaOutcomes.RenameMoves` | crates/opendal-vfs/src/layers/quota.rs:765-776 | a user's rename moves the object and leaves the counter alone |
| `QuotaOutcomes.OverIsOver` | crates/opendal-vfs/src/layers/quota.rs:860-906 | an operation that is over stays as it ended, over any run |
| `QuotaOutcomes.CreditFollowsBatch` | crates/opendal-vfs/src/layers/quota.rs:943-953 | over any run, size is credited only once the delete batch has been closed |
| `QuotaOutcomes.CreditWaitsForBatch` | crates/opendal-vfs/src/layers/quota.rs:931-953 | from any start: while a size of a batch is credited, no other object of that batch still waits for its deletion |
| `QuotaOutcomes.WriteAlone` | crates/opendal-vfs/src/layers/quota.rs:851-896 | a write in any chunks with nothing in between: accepted exactly when the new total is within the limit; then the object holds all the bytes and the counter the new total, else neither has changed |
| `QuotaOutcomes.CopyAlone` | crates/opendal-vfs/src/layers/quota.rs:996-1026 | likewise for a copy |
| `QuotaOutcomes.DeleteAlone` | crates/opendal-vfs/src/layers/quota.rs:931-953 | a deletion with nothing in between: the object is gone and its size off the counter |
| `QuotaOutcomes.PlaceAlone` | crates/opendal-vfs/src/layers/quota.rs:639-661 | whether the first rename works or the fallback and the second, the object is in place |
| `QuotaOutcomes.RollbackAlone` | crates/opendal-vfs/src/layers/quota.rs:870-891 | when neither works and nothing was removed, objects and counter are as before the commit |
| `QuotaOutcomes.UnloadedAlone` | crates/opendal-vfs/src/layers/quota.rs:866-875 | a write whose id cannot be loaded is rejected and changes nothing |
| `QuotaOutcomes.LoadAlone` | crates/opendal-vfs/src/layers/quota.rs:358-384 | the first touch loads what the tracker holds, or leaves the id untouched |
| `QuotaOutcomes.ResetAlone` | crates/opendal-vfs/src/layers/quota.rs:319-346 | a reset ends at zero and due for the tracker, and touches no object |
| `QuotaOutcomes.ResetsAlone` | crates/opendal-vfs/src/layers/quota.rs:319-346 | two resets in flight at once set the mark once each and end as one does |
| `QuotaOutcomes.CrashLosesMemory` | crates/opendal-vfs/src/layers/quota.rs:216-252 | a crash loses counter and operations, and no object or persisted value |
| `SpaceReclaim.TargetFacts` | crates/ipc/src/retention.rs:101-106 | free space is enough exactly when it is half of the quota, or covers both the reserve in bytes and the percentage |
| `SpaceReclaim.TargetWraps` | crates/ipc/src/retention.rs:101-106 | for any percentage: the 64 low bits of its share take the place of the share |
| `Fifo.FifoCandidates` | crates/ipc/src/retention.rs:190-202 | the sorting and popping loop yields the list `Candidates` that the lemmas are about |
| `Fifo.CandidateFacts` | crates/ipc/src/retention.rs:188-202 | the candidates are oldest first, without repeats, and are exactly the unprotected snapshots that are not the newest of their group |
| `Fifo.NewestOfGroup` | crates/ipc/src/retention.rs:193-195 | what the pop spares is a member of the group that no member is newer than |
| `Fifo.CandidatesAfterDeletion` | crates/ipc/src/retention.rs:410-433 | the candidates of what survives the deletion of a prefix are the rest of the same list |
| `Fifo.CandidatesOfAnyListing` | crates/ipc/src/retention.rs:190-202 | when times tell the snapshots apart, the candidates do not depend on the order in which snapshots or groups are listed |
| `Fifo.SurvivorsOfReclaim` | crates/ipc/src/retention.rs:188-202 | protected snapshots and the newest of every group outlive the deletion of any candidates |
| `SpaceReclaim.BatchIsShortest` | crates/ipc/src/retention.rs:425-433 | a batch meets deficit and minimum or is everything, and no shorter non-empty prefix does |
| `SpaceReclaim.BatchInBytes` | crates/ipc/src/retention.rs:425-433 | the same in bytes: the batch is recorded to have added at least the deficit, and every shorter one less, or is short of the minimum |
| `SpaceReclaim.TakeBatch` | crates/ipc/src/retention.rs:425-433 | the loop with its saturating estimate takes that prefix |
| `SpaceReclaim.ShortRound` | crates/ipc/src/retention.rs:385-504 | in an undisturbed run every round but the last deletes at least the minimum batch and leaves candidates; it misses its deficit, unless it began above the quota and gave back a whole target |
| `SpaceReclaim.LogarithmicReclaim` | crates/ipc/src/retention.rs:376-406 | from any usage: at most floor(log2 n) + 1 rounds of deletion and pruning on n candidates, plus one for every target by which the usage starts above the quota |
| `SpaceReclaim.CapNeedsManyCandidates` | crates/ipc/src/retention.rs:385-513 | started within the quota, the round limit is out of reach below 2^63 candidates |
| `SpaceReclaim.BoundIsAttained` | crates/ipc/src/retention.rs:501-513 | for every k up to 64 there are undisturbed runs on 2^(k-1) candidates that need exactly k rounds; for k = 64 the run ends at the round limit |
| `SpaceReclaim.FreedTelescopes` | crates/ipc/src/retention.rs:466-471 | the bytes credited over all rounds are the usage before minus the usage after |
| `SpaceReclaim.BreakerMeansTwoEmptyRounds` | crates/ipc/src/retention.rs:482-500 | the breaker stops only after two rounds in a row that freed nothing |
| `SpaceReclaim.EmptyRoundsStop` | crates/ipc/src/retention.rs:482-500 | two such rounds are always the last ones |
| `SpaceReclaim.RoundsWalkTheList` | crates/ipc/src/retention.rs:385-504 | round j stands exactly before the candidates that the batches of the earlier rounds left |
| `SpaceReclaim.CapRunsEveryRound` | crates/ipc/src/retention.rs:385-513 | the run stops at the round limit only after that many rounds of deletion |
| `SpaceReclaim.ExitMeans` | crates/ipc/src/retention.rs:385-513 | every logged round was undisturbed and short of space; a run ends at the limit, with the breaker, or in a further round for exactly what that round answered: cancelled, target met, no candidates, dry run, or a failure |
| `SpaceReclaim.RoundMeans` | crates/ipc/src/retention.rs:393-471 | each logged round names what was missing, the shortest batch for it from what was left, and what pruning gave back |
| `RetentionRun.SpaceStep` | crates/ipc/src/retention.rs:370-514 | recomputing the candidates from a new listing every round, the deleted snapshots are a prefix of the one initial list; the rounds, exit and report are those of the control flow the bounds are proved of; a failed deletion stays within its batch |
| `RetentionRun.ReportMeans` | crates/ipc/src/retention.rs:430-471 | a dry run reports the planned batch and nothing freed; otherwise what was deleted, and in an undisturbed run the usage before minus the usage after |
| `RetentionRun.AnyListingWillDo` | crates/ipc/src/retention.rs:410-413 | listings in any order, another in each round, give those candidates when times tell the snapshots apart |
| `RetentionRun.DeleteNext` | crates/ipc/src/retention.rs:461-464 | deleting any part of the next candidates keeps the walk down the initial list |
| `RetentionRun.TimeStep` | crates/ipc/src/retention.rs:285-366 | whether it ends well or not, what the keep rules keep or protection covers is still there; after a completed step exactly that is left; the usage difference is credited, and errors come exactly on the named failures |
| `RetentionRun.Run` | crates/ipc/src/retention.rs:263-283 | time rules first, and exactly what they keep or protection covers reaches the space rule; the two reports are added up; no protected snapshot is lost, every group keeps its newest in a run of the space rule alone, and a dry run deletes nothing |
| `EventPipeline.CriticalEventsSurvive` | crates/ipc/src/server.rs:977-1027 | in every state of every run the critical events delivered, buffered, in hand and queued are exactly those accepted, in order; what is delivered and buffered is a subsequence of all accepted; the buffer stays bounded |
| `EventPipeline.DrainedMeansDelivered` | crates/ipc/src/server.rs:2339-2347 | once the pipeline is empty every critical event has been delivered once, in order |
| `EventPipeline.NothingLostBelowCapacity` | crates/ipc/src/server.rs:986-991 | while the buffer never fills, nothing accepted is lost, telemetry included |
| `EventPipeline.PollUnblocks` | crates/ipc/src/server.rs:1014-1027 | an event is held back exactly when it and the whole full buffer are critical, and one poll lets it in |
| `EventPipeline.OldestTelemetryGoes` | crates/ipc/src/server.rs:991-1007 | a full buffer gives up its oldest telemetry, and only that, for whatever comes in |
| `EventPipeline.SaturatedDropsTelemetry` | crates/ipc/src/server.rs:1014-1018 | telemetry that meets a buffer full of critical events is dropped |
| `EventPipeline.CriticalKinds` | crates/ipc/src/event_bus.rs:8-15 | ends of jobs and states of points are critical, messages and log lines from the error priority on, progress never |
| `EventPipeline.Drains` | crates/ipc/src/server.rs:977-1027 | backpressure never deadlocks: from every state the bridge and polling clients can empty the pipeline |
| `EventPipeline.EverythingCanBeDelivered` | crates/ipc/src/server.rs:2339-2347 | and then every critical event accepted has been delivered once, in order |
| `EventPipeline.EventBridge.Send` | crates/ipc/src/event_bus.rs:20-28 | a critical event is always accepted, telemetry exactly when there is room, and the pipeline invariant holds |
| `EventPipeline.EventBridge.Offer` | crates/ipc/src/server.rs:982-1027 | one turn of the bridge's loop drops at most the oldest telemetry and keeps the invariant |
| `EventPipeline.EventBridge.Poll` | crates/ipc/src/server.rs:2339-2347 | hands out the oldest buffered events, nothing lost or repeated, and is empty only when the buffer is |
| `KeyRotation.AddKeyFacts` | crates/ipc/src/store.rs:333-370 | adding a key never removes one; success means that an existing repository opens with the new password; without faults it succeeds exactly when it can |
| `KeyRotation.RemoveKeyFacts` | crates/ipc/src/store.rs:371-409 | removing the old key never takes the new one |
| `KeyRotation.KeyStore.AddRepoKey` | crates/ipc/src/store.rs:333-369 | the locked sequence of probes and early returns does that |
| `KeyRotation.KeyStore.RemoveOldRepoKey` | crates/ipc/src/store.rs:371-409 | likewise for phase 2 |
| `KeyRotation.CreateSafeIff` | crates/ipc/src/store.rs:412-432 | creating a missing repository is safe exactly when the password read earlier is still the stored one of the point on that target, or that point is not under the promise |
| `KeyRotation.JobsAtLargeIff` | crates/ipc/src/server.rs:1606-1720 | over any run: the jobs that may still create a repository are exactly those that read the configuration of their time and that no crash has ended |
| `KeyRotation.JobsComeAndGo` | crates/ipc/src/store.rs:412-432 | a job may read a writable point at any stage of a request, and create its repository as long as there is none |
| `KeyRotation.UsableStepIff` | crates/ipc/src/server.rs:2367-2527 | of all steps of a configuration change, with any fault or crash, and of jobs, exactly the two named kinds lock a point out |
| `KeyRotation.RotationSafeIff` | crates/ipc/src/server.rs:2367-2527 | over any number of changes, crashes and creations: the stored password of every point that kept its id and target opens its repository in every state, or there is none, exactly when no such step occurs |
| `KeyRotation.RotationIsCrashSafe` | crates/ipc/src/server.rs:2367-2527 | the same from what jobs do alone: it suffices that none creates a repository with an outdated password, nor one that a running request has passed over |
| `KeyRotation.PhaseOneIsHarmless` | crates/ipc/src/server.rs:2412-2430 | until the new configuration is stored, the old one and every old key are intact |
| `KeyRotation.StoredIsRequested` | crates/ipc/src/server.rs:2482-2484 | over any run of one request: the stored configuration is the requested one, whole, exactly if the store succeeded, and the old one otherwise |
| `KeyRotation.CrashEndsRequest` | crates/ipc/src/server.rs:2412-2484 | after a crash at any stage the next request can begin at once, and without one nothing more is stored and no key is lost |
| `KeyRotation.CanBeRequested` | crates/ipc/src/server.rs:2367-2410 | every configuration without shared targets can be requested of an idle server |
| `KeyRotation.TrackedStays` | crates/ipc/src/server.rs:2367-2410 | a point stays under the promise as long as every stored configuration keeps it on its target |
| `KeyRotation.ReadOnlyIsUntouched` | crates/ipc/src/store.rs:358-403 | a repository whose points are and stay read-only is never written to, over any run |
| `KeyRotation.CommitSafeIff` | crates/ipc/src/server.rs:2482-2484 | storing the new configuration is safe exactly when no repository found absent has come into being |
| `KeyRotation.CreationRaceLocksOut` | crates/ipc/src/store.rs:345-348 | a concrete run in which a job creates the repository in between and the stored password no longer opens it |
| `KeyRotation.LateCreationLocksOut` | crates/ipc/src/server.rs:1606-1720 | a concrete run in which a backup that read the old password creates the repository after the request has ended well, and the stored password does not open it |
| `KeyRotation.SmoothRequestRotates` | crates/ipc/src/server.rs:2512-2527 | a request that gets to its end without a fault leaves every repository it was to change opening with the new password and no longer with the old one |
| `KeyRotation.RequestGoesThrough` | crates/ipc/src/server.rs:2415-2527 | every request whose repositories are absent, or open and writable, can be carried through, and the server is then ready for the next |
| `Transfer.PlanTransfer` | crates/ipc/src/server.rs:3046-3205 | the checks of a request in their order: accepted exactly with the rights, a source, no destination, and not into itself within one point; the plan is then the one the job's theorems require, with the announced total |
| `Transfer.KindAtIs` | crates/ipc/src/server.rs:241-265 | a file is a file, a directory is what is stored as one or has something below it, and nothing else is there |
| `Transfer.AdmittedIsDisjointIff` | crates/ipc/src/server.rs:3100-3152 | the checks before a job make the destination free; source and destination are disjoint exactly when the latter is not inside the former, which holds within one point and between points whose roots do not lie one in the other |
| `Transfer.RebaseKeepsRest` | crates/ipc/src/server.rs:720-740 | rebasing keeps the path below the directory |
| `Transfer.StreamCopy` | crates/ipc/src/server.rs:625-680 | with any pattern of short reads it ends, and on success the destination holds the source's bytes and the progress their number; success means that every answer was one, the last to closing the destination; at no moment is anything else touched |
| `Transfer.CopyChunk` | crates/ipc/src/server.rs:642-672 | before every chunk the job asks whether it is cancelled, and then nothing more is written |
| `Transfer.CopyOne` | crates/ipc/src/server.rs:683-701 | the same for the native copy, which is one request and never asks about a cancellation; a streamed one opens, reads, writes and closes |
| `Transfer.CopyTree` | crates/ipc/src/server.rs:704-770 | on success the destination is the source rebased, with empty directories, equal contents and nothing else, and the progress is the announced total; at no moment is anything outside the destination touched |
| `Transfer.DeleteTree` | crates/ipc/src/server.rs:848-856 | removes only nodes of the tree, in any order; it ends well exactly when no removal was refused, and then all are gone |
| `Transfer.MovedIsSafe` | crates/ipc/src/server.rs:816-828 | a rename leaves the complete destination, no source, and everything else unchanged |
| `Transfer.RunTransfer` | crates/ipc/src/server.rs:773-865 | at every moment of a copy, and of a move whose destination is not inside its source, under cancellation and any failure, the whole source or the whole destination is in place; unrelated paths are unchanged; a failed or cancelled copy leaves all as it was unless a removal was refused; a move cancelled after its copy keeps both ends; a successful move leaves no source, and a complete destination exactly under that condition; no success after a cancellation was heard; progress ends at the announced total, for empty sources and renames too; over quota nothing happens; within it a job fails only after a failed or empty answer, a refused removal, a cancellation or a broken rename, and succeeds only if every answer to its reads and writes did |
| `Transfer.AcceptedKeepsLimit` | crates/ipc/src/server.rs:170-195 | accepted exactly when the point stays within its limit with the target's bytes replaced, or does not grow |
| `Transfer.GoneWithTheSource` | crates/ipc/src/server.rs:840-857 | when the destination was inside the source, deleting the source leaves nothing of either |
| `Transfer.MoveIntoItself` | crates/ipc/src/server.rs:3140-3152 | a concrete move between nested local points that is admitted, succeeds and leaves no file |
| `Transfer.SafeIsRecoverable` | crates/ipc/src/server.rs:840-857 | in every such state each source file is intact at the source or complete at the destination |
| `WriteHandles.OverwriteDraws` | crates/ipc/src/server.rs:2797-2814 | seeking and writing shows the data on a zero-filling image |
| `WriteHandles.InvAfterIff` | crates/ipc/src/server.rs:2779-2820 | a call keeps file length <= recorded length and the quota exactly when it does not overflow through the saturating check |
| `WriteHandles.OverflowHappens` | crates/ipc/src/server.rs:2904-2911 | a concrete resize that the saturating check lets through |
| `WriteHandles.LengthExactIff` | crates/ipc/src/server.rs:2779-2820 | the recorded length stays the file's exactly when the call is not an empty write beyond the end |
| `WriteHandles.EmptyStretchHappens` | crates/ipc/src/server.rs:2788-2820 | a concrete empty write that moves the recorded length only |
| `WriteHandles.HandleCorrect` | crates/ipc/src/server.rs:2779-2917 | over any sequence of calls the invariant holds and the file shows exactly the accepted calls; refused ones leave no trace |
| `WriteHandles.LengthIsFileLength` | crates/ipc/src/server.rs:2779-2917 | over any sequence without such empty writes the lengths agree |
| `WriteHandles.FittingWriteIsAccepted` | crates/ipc/src/server.rs:2788-2814 | a write is accepted exactly when its end is a 64-bit number and the point, with the file as long as the longer of length and end, keeps within the quota |
| `WriteHandles.FittingResizeIsAccepted` | crates/ipc/src/server.rs:2904-2911 | a resize exactly when the point keeps within the quota, or that is the largest number there is |
| `WriteHandles.WriteHandle.Open` | crates/ipc/src/server.rs:2686-2750 | a handle is opened exactly within the quota and starts in the invariant |
| `WriteHandles.WriteHandle.WriteAt` | crates/ipc/src/server.rs:2755-2823 | accepted exactly when the handle is live, nothing overflows and the quota holds; then one reference write, else no change |
| `WriteHandles.WriteHandle.SetLength` | crates/ipc/src/server.rs:2893-2917 | accepted exactly when the handle is live and the saturating check passes; then one reference resize, else no change |
| `Naming.BlockedCandidates` | crates/ipc/src/server.rs:447-465 | pigeonhole: n candidates in a row can only be taken if n names are |
| `Naming.AssignName` | crates/ipc/src/server.rs:438-473 | the open-ended search ends within one step more than names are taken, at the first free candidate |
| `Naming.CandidatesAre` | crates/ipc/src/server.rs:444-465 | the candidates are the name with 8, 12, 16, 20, 24 and all 32 digits, then with a number from 2 on |
| `Naming.RenamedIsUnique` | crates/ipc/src/server.rs:405-477 | "first free name, in order" leaves no choice |
| `Naming.RenamingIsInjective` | crates/ipc/src/server.rs:405-477 | names end up unique per kind |
| `Naming.KeepsNameIff` | crates/ipc/src/server.rs:438-442 | a point keeps its name exactly when no earlier point of its kind ended up with it |
| `Naming.FirstHoldersKeepIff` | crates/ipc/src/server.rs:438-473 | read off the given names alone: where identifiers tell repeating points apart, all first holders keep their names exactly when none is the first candidate, not given before, of an earlier repeating point |
| `Naming.ThreatenedLoses` | crates/ipc/src/server.rs:447-473 | such a match costs some first holder its name, whatever the identifiers |
| `Naming.UnmatchedNamesStay` | crates/ipc/src/server.rs:438-473 | names that are no candidate at all of an earlier repeating point are kept, whatever the identifiers |
| `Naming.RenamingIsIdempotent` | crates/ipc/src/server.rs:405-477 | names that are unique stay, so a second pass is the identity |
| `Naming.FirstHolderCanLoseItsName` | crates/ipc/src/server.rs:447-455 | three points of which the first holder of a name loses it |
| `Naming.RenamingStaysLegal` | crates/ipc/src/server.rs:426-436 | a new name passes the same checks as the old one |
| `Naming.AcceptedIff` | crates/ipc/src/server.rs:389-436 | accepted exactly when ids are set and globally unique, usernames legal and unique, and every point legal |
| `Naming.LegalPointIff` | crates/ipc/src/server.rs:406-436 | a point is legal exactly with a non-empty plain name and, for a repository, a non-empty password |
| `Naming.PointProblemIs` | crates/ipc/src/server.rs:406-436 | which problem is reported of an illegal point: an empty name before the password, the password before the name's characters |
| `Naming.ValidatePointIds` | crates/ipc/src/core.rs:122-143 | reports the first identifier that is nil or repeated across all users |
| `Naming.NormalizeVfsUsers` | crates/ipc/src/server.rs:389-481 | ends on every input, reports the first problem or renames every user's points in place and changes nothing else |
| `PathText.PrefixIff` | crates/opendal-vfs/src/lib.rs:33-35 | comparing path texts with a closing slash is comparing segments |
| `PathText.TextThenSplit` | crates/opendal-vfs/src/lib.rs:13-20 | splitting undoes joining |
| `PathText.SegmentsOfText` | crates/opendal-vfs/src/lib.rs:13-20 | surrounding slashes do not change the segments of a path |
| `PathText.TrimTakesSlashes` | crates/opendal-vfs/src/lib.rs:13-20 | normalising takes slashes off both ends of a path and nothing else |
| `Mounts.VfsBuilder.Build` | crates/opendal-vfs/src/layers/vfs.rs:78-116 | succeeds exactly when no mount is on the root or repeated, and the table then holds each mount under its normalised path |
| `Mounts.OwnsIff` | crates/opendal-vfs/src/lib.rs:33-35 | a mount owns a path exactly when its segments start the path's |
| `Mounts.NoRouteIff` | crates/opendal-vfs/src/lib.rs:26-50 | there is no route exactly when no mount's segments start the path |
| `Mounts.RouteIs` | crates/opendal-vfs/src/lib.rs:26-50 | the route is the longest matching mount with the remaining segments and the path's closing slash |
| `Mounts.RouteIsLongest` | crates/opendal-vfs/src/lib.rs:36 | the chosen mount matches and has the most segments of all that do |
| `Routing.ValidateRelativePointPath` | crates/ipc/src/utils.rs:106-124 | the buffer built component by component is the joined kept components, and `..` is refused |
| `Routing.ComponentsAreClean` | crates/ipc/src/utils.rs:106-124 | an accepted path has no empty, dot, parent or backslash component |
| `Routing.CleanIsFixed` | crates/ipc/src/utils.rs:106-124 | cleaning a clean path is the identity |
| `Routing.NormalizedIsAccepted` | crates/ipc/src/server.rs:405-477 | what the renaming leaves is what routing relies on |
| `Routing.ComposeVfs` | crates/ipc/src/store.rs:595-617 | for an accepted configuration the builder never fails, whichever points could be opened, and mounts exactly those |
| `Routing.TableIsCanonical` | crates/ipc/src/utils.rs:195-202 | the server's mounts have two segments each, so none lies below another |
| `Routing.AcceptedShape` | crates/ipc/src/server.rs:490-519 | every accepted client path is the text of clean segments |
| `Routing.RefusedPathIff` | crates/ipc/src/server.rs:490-519 | a client's path is refused exactly when it is blank, has a parent component, or its identifier finds no point |
| `Routing.FindPointIdIs` | crates/ipc/src/utils.rs:237-251 | an identifier finds the one point that has it; none, or two, are errors |
| `Routing.PointOfSegments` | crates/ipc/src/utils.rs:532-557 | what the permission parser makes of them, error by error |
| `Routing.ParsersAgree` | crates/ipc/src/server.rs:1313-1323 | for every accepted path, virtual or indexed, as file or directory: the mount table serves it exactly when the permission parser finds a point and that is mounted; then it is that point's storage, read-only for a repository, with the same path below |
| `Routing.UntrimmedIff` | crates/ipc/src/utils.rs:154-166 | trimming white space leaves an accepted path alone exactly when it is asked for as a directory or does not end in white space |
| `Routing.TrimmedRouteIff` | crates/ipc/src/server.rs:1313-1323 | for a path whose point is found and mounted, the trimmed path gets the same route exactly when it is asked for as a directory or does not end in white space |
| `Routing.TrimmingPartsTheParsers` | crates/ipc/src/server.rs:426-436 | two accepted point names for which trimming makes the two parsers choose different points |
| `Routing.IndexedParsesBack` | crates/ipc/src/server.rs:505-517 | an indexed path parses back to the point with that id and the cleaned relative path |
| `Routing.VirtualIsIndexed` | crates/ipc/src/utils.rs:254-260 | a virtual path that names a point is printed again by that point's indexed path |
| `VirtualTree.VirtualChildren` | crates/opendal-vfs/src/layers/vfs.rs:178-210 | the loop collects exactly the next segments of the mounts below the path, for every path text; none below means no directory, except for the root |
| `VirtualTree.StripFinds` | crates/opendal-vfs/src/layers/vfs.rs:191-202 | stripping the prefix and cutting at a slash finds the next segment, never an empty one |
| `VirtualTree.DirectoryIff` | crates/opendal-vfs/src/layers/vfs.rs:230-246 | stat reports a directory of the tree exactly for mount paths, and for the root and paths above mounts that no mount owns |
| `VirtualTree.FoundIff` | crates/opendal-vfs/src/layers/vfs.rs:230-380 | stat and list find exactly the root and the paths above, at or below a mount |
| `VirtualTree.BelowMountIsAsked` | crates/opendal-vfs/src/layers/vfs.rs:230-353 | below a mount both ask its storage about the remaining segments, with the path's closing slash |
| `VirtualTree.ListedChildIsDirectory` | crates/opendal-vfs/src/layers/vfs.rs:355-373 | every entry of a synthetic listing is itself a directory of the tree |
| `VirtualTree.EntriesLookLikeDirectories` | crates/opendal-vfs/src/layers/vfs.rs:355-373 | synthetic entries end in a slash and do not start with one |
| `VirtualTree.ReachableIff` | crates/opendal-vfs/src/layers/vfs.rs:346-380 | a mount is found by repeated listing from the root exactly when no other mount lies above it |
| `VirtualTree.ShownEntryRoutesBack` | crates/opendal-vfs/src/lister.rs:45-69 | an entry shown from inside a mount is routed back to that mount and to the entry's own path |

## Left out

- QuotaOutcomes.WriteAlone: takes the counter to hold at least the size of the object replaced, as `NoSaturation` gives it.
- QuotaMachine: does not model several operations on one path at once, a batch that repeats a path, or layers with different limits on one id; the accounting is not meant to be exact there.
- QuotaMachine: does not model a reset that races a first load still in flight, because that reset may be skipped; resets happen on loaded or untouched ids.
- QuotaMachine: does not model an operation dropped between its commit and its rename without a crash of the server; the temp object is a field of the operation, and failed clean-ups of it are not followed.
- QuotaMachine: follows one id; the sync task's walk over all ids is the same tick for each.
- QuotaConservation.NeverTooLow: does not cover resets and restarts, which set the counter to a value of their own; `DriftOfRun` gives their effect exactly.
- SpaceReclaim.LogarithmicReclaim: does not cover other writers, under whom the usage after a prune says nothing of the next round.
- RetentionRun.SpaceStep: takes the delete protection as fixed for the run; time zones and the evaluation of keep rules are inputs.
- Prune: its planning and repacking are an answer of the environment that reports the usage afterwards.
- KeyRotation: keys are passwords by id; key derivation, caches, job cancellation and quota clean-up after a change are not part of this model, nor are overlapping changes and shared storage targets.
- QuotaLimit.RejectedWritesLeaveNoTrace: the temp object is a field of its operation; of temp paths only `StagingPathsDiffer` is proved, and a user's own object named like one is not excluded.
- EventPipeline: does not model disconnection at shutdown or the waiting time of the bridge.
- Transfer.PlanTransfer: takes permissions as answers, and paths without a slash at the end; the comparison of two virtual paths before anything is looked up is not part of this model.
- Transfer: does not model parent directories that a backend creates on its own, aliases of paths other than nested roots, a failure to measure the point's usage, which ends the job before it begins, a write that reports failure after part of its bytes, a source that others change meanwhile, or the exact error texts; progress bars and job bookkeeping are not part of this model.
- WriteHandles: does not model I/O failures, other writers of the same point, the expiry of handles or the resize without a handle.
- WriteHandles.InvAfterIff: recorded lengths are unbounded where a point has no quota, as the resize is not checked there.
- Naming.NormalizeVfsUsers: says nothing of the list after a rejection, which the caller drops; the numeric suffix is not bounded by 64 bits.
- Mounts.ResolvePath: the further path normalisation of the storage library is not part of this model; of its trimming only what `Routing.UntrimmedIff` and `TrimmingPartsTheParsers` say.
- Routing: does not model path prefixes of other operating systems, symbolic links, or the spellings of an identifier; the parsed identifier is an input.
- VirtualTree.VirtualChildren: returns a set; the order of the entries is not modelled.
- gRPC, storage of users and quotas on disk, logging, the read cache, remote repositories and backup jobs are not part of this model.
