# A verified model of the beamline configuration, queue and direct-control services

This project models the parts of the repository whose correctness is an argument over many
functions, many steps or many threads, and proves what those parts are for. All paths below are
relative to the repository root.

- **The configuration service** keeps a registry of devices with an index from each PV to one
  owning device (`Registry.dfy`), a table of device locks with leases (`Locks.dfy`; `LockRuns.dfy`
  is about runs of lock calls, `LockAnswers.dfy` about what one call answers), and a database
  table with an append-only audit log (`Store.dfy`). The classes `DeviceRegistry`,
  `DeviceLockManager` and `DeviceRegistryStore` have the fields and the loops of their Python
  namesakes; each method is proved equal to a function on values, and the theorems are about those
  functions.
- **The protocol around them.** The HTTP handlers check, await the database and then mutate
  memory. `Protocol.dfy` splits each handler at its awaits and interleaves it with lock calls,
  time, database failures, unlocked standalone-PV updates and crashes. `Operations.dfy` says what
  each operation does from its request to its publication, and `Holds.dfy` what a held lock
  protects a device from. `Recovery.dfy` says which steps lose agreement between memory and the
  database and which restore it, `Restarts.dfy` what a restart recovers and when it fails.
  `Availability.dfy` says what a client asking for a PV's status is told in the reachable states.
- **The change feed**: `ChangeFeed.dfy` is about the log, the deltas and one copy of the active
  specs; `FeedClients.dfy` puts a client beside the service, polling in several SELECTs while the
  service steps between them and refetching from memory; `FeedAnswers.dfy` says what one answer
  contains and what one poll leaves; `FeedGaps.dfy` has the runs in which a client never hears of
  a change.
- **The two class walks** (`ClassGraph.dfy`): the loader's enumeration of a device class and the
  resolver's walk of one dotted path, over any finite class graph, cyclic ones included.
- **BITS files** (`Bits.dfy`): exporting the table, loading the file, and when that is the
  identity.
- **Concurrency kernels**: the pipe JSON-RPC client and server (`JsonRpc.dfy`, `PipeRpc.dfy`,
  `PipeCalls.dfy`), the double-checked device cache (`OphydCache.dfy`), the live-device manager
  (`DeviceManager.dfy`).
- **The bounded console buffer** polled with cursors (`Console.dfy`).

`Models.dfy` holds the shared values.

## Where the code does not keep what it seems to promise

Each of these is a lemma giving the exact condition under which the code does keep the promise, or
a concrete run in which it does not, or both.

- Adding a device under a registered name without releasing it first leaves stale index entries
  exactly when the old version owned a PV the new one does not list
  (`DeviceRegistries.AddKeepsIndexIff`).
- A reset or clear is two transactions. A database failure after the first leaves the table out of
  step with memory unless what had been written happens to equal memory
  (`Recovery.FailureAfterWipeIff`, `Recovery.ResetCanLoseAgreement`). The next completed reset, or a
  restart that loads the table, restores agreement (`Recovery.MendsRestore`). A restart that has to
  seed instead fails if and only if a device of the profile has been saved in between, and leaves
  every other device saved in between out of memory (`Restarts.NextStartupIff`, with runs from the
  first start in `Restarts.StartupCanFail` and `Restarts.LossOutlivesRestart`). A crash between the two
  transactions of a clear is the one crash that is not atomic (`Restarts.CrashIsAtomic`,
  `Restarts.InterruptedClearIff`, `Restarts.InterruptedClearCanRestore`).
- The description of the clear endpoint says that the next restart seeds again from the profile.
  The code marks the database as seeded, so the restart loads an empty registry
  (`Restarts.ClearThenRestart`); the model follows the code.
- A standalone-PV update does not take the registry lock and can write back a row that was deleted
  since it read it (`Recovery.UnlockedWriteIff`, `Recovery.UpdateCanResurrect`).
- `"*"` is an accepted device name but the feed query excludes it, so such a device never reaches a
  polling client (`ChangeFeed.StarMustAlreadyAgree`, `ChangeFeed.StarIsMissed`).
- A client refetches from an endpoint that serves memory, which a handler publishes after its
  commit. `FeedClients.RefetchFreshIff` says exactly, for each point of each handler, when such a
  refetch is right, and `FeedClients.PollExactIff` when a whole poll is;
  `FeedGaps.ClearCanBeMissed` and `FeedGaps.DeleteCanBeMissed` are runs in which it is wrong for
  good.
- A client prefetches its copy before it counts the log, and counts the log again after every
  update without refetching. Such a sync is right if and only if every device reported after the
  base of the copy already is what the table says (`FeedClients.SyncRightIff`); for the opening of an
  environment that means that each device reported since the prefetch has the spec it was prefetched
  with (`FeedClients.OpeningIff`). Anything else that is committed in the window is never reported
  (`FeedGaps.CreateCanBeMissed`, `FeedGaps.UpdateCanMiss`). Counting before prefetching would always
  be right (`FeedClients.CountThenPrefetchIsRight`).
- The endpoint that resolves addresses derives a device's prefix again instead of keeping the one
  the loader walked with. It answers a recorded key with its PV if and only if it derives a prefix at
  all, and that is the walked one or the path is absolute (`ClassGraph.RecordedAddressIff`; the two
  ways to fail are `ClassGraph.OneLeafResolvesTwice` and `ClassGraph.NothingSharedIsRefused`).
- Device names may contain a dot, but an address is split at its first dot, so such a device cannot
  be addressed by path (`ClassGraph.AddressSplitsIff`).
- An import that raises something other than `ImportError` is not cached, so a key can be built
  again (`OphydCache.RaisingBuildIsRepeated`); `OphydCache.BuiltAtMostOnce` counts those builds.
- A batch with a scalar element loses the replies of calls that already ran
  (`JsonRpc.ScalarLosesReplies`).
- A console client that polls before the first message gets a cursor that never matches, and one
  that is exactly the buffer size behind gets nothing (`Console.EarlyCursorReceivesNothing`,
  `Console.PollCompleteIff`).
- The BITS schema can represent some specs only: `Bits.Representable` is the condition, and
  `Bits.RoundTripsIff` and `Bits.FileRoundTripsIff` show that it is exact. One part of it is about
  validation: the pattern that checks PV names accepts one final newline, which a motor's derived
  readback name does not survive.

## Model

| member | source | states |
|---|---|---|
| DeviceRegistries.DeviceRegistry.AddDevice | backend/configuration_service/src/configuration_service/models.py:381-417 | the new registry is `Added`: metadata and spec stored, every listed PV credited to the device under the component listed last |
| DeviceRegistries.DeviceRegistry.AddStandalonePv | backend/configuration_service/src/configuration_service/models.py:419-435 | the name becomes standalone; an existing index entry keeps its owner |
| DeviceRegistries.DeviceRegistry.RemoveStandalonePv | backend/configuration_service/src/configuration_service/models.py:437-446 | the name stops being standalone; only an unowned index entry is dropped |
| DeviceRegistries.DeviceRegistry.FindOtherOwner | backend/configuration_service/src/configuration_service/models.py:460-469 | finds the first other device, in insertion order, that lists the PV, and its first component for it |
| DeviceRegistries.DeviceRegistry.ReleasePvOwnership | backend/configuration_service/src/configuration_service/models.py:448-477 | every entry of the device goes to its heir: the first other lister, else unowned if standalone, else gone; no other entry changes |
| DeviceRegistries.DeviceRegistry.RemoveDevice | backend/configuration_service/src/configuration_service/models.py:479-500 | release, then removal of device and spec; an unknown name changes nothing |
| DeviceRegistries.DeviceRegistry.UpdateDevice | backend/configuration_service/src/configuration_service/models.py:502-525 | release, then add; an unknown name changes nothing |
| DeviceRegistries.FirstListerIsFirst | backend/configuration_service/src/configuration_service/models.py:460-469 | the other device found lists the PV, and no device before it in insertion order does |
| DeviceRegistries.ReleasedMatchesRest | backend/configuration_service/src/configuration_service/models.py:448-477 | after a release the index agrees with the remaining devices and the standalone names |
| DeviceRegistries.ClaimedMatches | backend/configuration_service/src/configuration_service/models.py:400-417 | claiming a device's PVs in an index that agrees with the other devices gives one that agrees with all |
| DeviceRegistries.AddKeepsIndexIff | backend/configuration_service/src/configuration_service/models.py:381-417 | registering keeps the registry well-formed if and only if every PV already credited to that name is listed again |
| DeviceRegistries.UpdateKeeps | backend/configuration_service/src/configuration_service/models.py:502-525 | update keeps the registry well-formed |
| DeviceRegistries.RemoveKeeps | backend/configuration_service/src/configuration_service/models.py:479-500 | removal keeps the registry well-formed |
| DeviceRegistries.StandaloneKeeps | backend/configuration_service/src/configuration_service/models.py:419-446 | adding or removing a standalone name keeps the registry well-formed |
| DeviceRegistries.EveryRunKeepsIndex | backend/configuration_service/src/configuration_service/models.py:381-525 | after any sequence of operations that registers fresh names only, the index agrees with devices and standalone names: same keys, owned iff listed, owner exists and maps the recorded component to the PV |
| DeviceRegistries.RemoveUndoesRegister | backend/configuration_service/src/configuration_service/models.py:381-500 | removing a device just registered restores all but owners of shared PVs, and the whole registry iff each shared PV was credited to its heir |
| DeviceRegistries.ApplyStandalonePvs | backend/configuration_service/src/configuration_service/main.py:283-299 | all stored standalone PVs are added |
| DeviceRegistries.LoadAllContents | backend/configuration_service/src/configuration_service/device_registry_store.py:121-138 | loading the stored rows in any order gives a well-formed registry with exactly those devices and specs |
| DeviceRegistries.SameContentsSameView | backend/configuration_service/src/configuration_service/models.py:381-525 | devices, specs and standalone names determine the indexed and the owned PVs; only the owner of a PV that several devices list may differ |
| DeviceRegistries.RebuildAgrees | backend/configuration_service/src/configuration_service/device_registry_store.py:121-138 | rebuilding a registry from its own contents, in any order, gives back the same view |
| DeviceRegistries.ReleasedOwner | backend/configuration_service/src/configuration_service/models.py:448-477 | a released PV goes to the first other device in insertion order that lists it, under that device's first component for it |
| DeviceRegistries.ClaimedOwner | backend/configuration_service/src/configuration_service/models.py:400-417 | a registered PV is credited to the device under its last component for it |
| DeviceRegistries.OrderSays | backend/configuration_service/src/configuration_service/models.py:381-525 | a new name comes last, an update keeps the order, a removal takes out its name alone |
| Locks.DeviceLockManager.CollectConflicts | backend/configuration_service/src/configuration_service/lock_manager.py:245-283 | the conflicts of all names, in order, before anything is written |
| Locks.DeviceLockManager.AcquireLocks | backend/configuration_service/src/configuration_service/lock_manager.py:227-336 | all names are locked with the lease and stamps read, or nothing changes and every conflict is reported |
| Locks.DeviceLockManager.RenewLocks | backend/configuration_service/src/configuration_service/lock_manager.py:338-389 | the owner's live locks get the new expiry; each name is reported as renewed, lost or in conflict |
| Locks.DeviceLockManager.ReleaseLocks | backend/configuration_service/src/configuration_service/lock_manager.py:391-427 | refused without effect if a named lock is live and another's; else the named locks go |
| Locks.DeviceLockManager.ForceUnlock | backend/configuration_service/src/configuration_service/lock_manager.py:429-470 | refused without effect if a name is neither registered nor locked; else the named locks go |
| Locks.DeviceLockManager.ClearAll | backend/configuration_service/src/configuration_service/lock_manager.py:472-486 | all locks go; the version moves iff there was one |
| Locks.DeviceLockManager.SetLockAll | backend/configuration_service/src/configuration_service/lock_manager.py:505-510 | the policy is set; the version moves iff it changed |
| Locks.DeviceLockManager.GlobalLockHolder | backend/configuration_service/src/configuration_service/lock_manager.py:512-525 | the first of the earliest live locks in the iteration order of the dictionary, or none when none is live |
| Locks.DeviceLockManager.EffectiveLock | backend/configuration_service/src/configuration_service/lock_manager.py:527-541 | the device's own live lock, else under `lock_all` the first of the earliest live locks; none exactly when the device is available |
| LockRuns.AcquireAllOrNothing | backend/configuration_service/src/configuration_service/lock_manager.py:227-336 | refused iff a name is unknown, without a spec, disabled or live-locked, and then the table is unchanged; else exactly the named devices get one lock id and owner and the others keep theirs |
| LockRuns.RefusalReports | backend/configuration_service/src/configuration_service/lock_manager.py:245-300 | a refusal lists exactly the obstacles met; its code is 500, 404, 422 or 409 exactly by the worst kind among them |
| LockRuns.ReleaseOwnerChecked | backend/configuration_service/src/configuration_service/lock_manager.py:391-427 | fails iff another item holds a live named lock, leaving the table unchanged; else exactly the named locks are gone |
| LockRuns.ForceUnlockAllOrNothing | backend/configuration_service/src/configuration_service/lock_manager.py:429-470 | unlocks all the names, or reports the unknown ones and changes nothing |
| LockRuns.RenewPartitions | backend/configuration_service/src/configuration_service/lock_manager.py:338-389 | renewed, lost and conflicting names partition the request; success iff all are renewed, iff all are live and the caller's |
| LockRuns.RunKeepsLeases | backend/configuration_service/src/configuration_service/lock_manager.py:212-216 | in any run with non-decreasing time every stored expiry is at most now plus the lease time |
| LockRuns.RenewNeverShortens | backend/configuration_service/src/configuration_service/lock_manager.py:338-389 | a renewal never shortens a lease and changes nothing else of a lock |
| LockRuns.OtherwiseKept | backend/configuration_service/src/configuration_service/lock_manager.py:227-486 | a call that does not grant the name keeps its lock, drops it, or renews the caller's own live lock |
| LockRuns.LapsedStaysLapsed | backend/configuration_service/src/configuration_service/lock_manager.py:218-225 | a lapsed or missing lock never becomes live again except through an acquire |
| LockRuns.SilentHolderLapses | backend/configuration_service/src/configuration_service/lock_manager.py:87-91 | a holder that does not renew blocks a device no longer than the lease time, whatever others call |
| LockRuns.HoldIsExclusive | backend/configuration_service/src/configuration_service/lock_manager.py:227-486 | while the lease lives and neither the owner releases nor anyone forces or clears, no call changes the device's lock id or owner |
| LockRuns.VersionIsSound | backend/configuration_service/src/configuration_service/lock_manager.py:198-201 | the version never decreases, and states of one run with equal versions have the same device-to-lock-id table and policy |
| LockRuns.HolderIsStable | backend/configuration_service/src/configuration_service/lock_manager.py:512-525 | with increasing stamps the earliest live lock stays the only earliest one until it is released, cleared or lapses |
| LockAnswers.RenewalSays | backend/configuration_service/src/configuration_service/lock_manager.py:338-389 | each requested name is reported in request order, and as often as requested, as renewed if live and the caller's, in conflict if live and another item's, lost if not live; the expiry reported is the lease of every renewed lock |
| LockAnswers.RenewedUntil | backend/configuration_service/src/configuration_service/lock_manager.py:87-91 | a renewed lock is live for exactly the lease time from the renewal, or for good without leases |
| LockAnswers.GrantSays | backend/configuration_service/src/configuration_service/lock_manager.py:302-336 | a grant reports the id, the requested names and the lease; each lock carries plan, item, service, id, lease and the stamp of its name's last place |
| LockAnswers.GrantedPvsIff | backend/configuration_service/src/configuration_service/lock_manager.py:543-554 | the PVs reported are exactly those a requested device lists |
| LockAnswers.GrantedUntil | backend/configuration_service/src/configuration_service/lock_manager.py:87-91 | a granted lock is live for exactly the lease time after the lease was computed |
| LockAnswers.ObstacleSays | backend/configuration_service/src/configuration_service/lock_manager.py:245-283 | the kind of each conflict: unknown, without spec, disabled, or live-locked, naming the plan and the stamp of the lock in the way |
| LockAnswers.ConflictsInOrder | backend/configuration_service/src/configuration_service/lock_manager.py:245-283 | one conflict for each obstructed place of the request, in its order |
| LockAnswers.ReleaseSays | backend/configuration_service/src/configuration_service/lock_manager.py:391-427 | each dropped lock is reported once, in request order; the version moves iff one was dropped |
| LockAnswers.ForceUnlockSays | backend/configuration_service/src/configuration_service/lock_manager.py:429-470 | the names, or the unknown ones, are reported once each, in request order; the version moves iff anything was unlocked |
| LockAnswers.ClearAndPolicySay | backend/configuration_service/src/configuration_service/lock_manager.py:472-510 | a clear leaves no lock and the policy as it was; setting the policy sets it and touches no lock |
| LockAnswers.LockedAfterIff | backend/configuration_service/src/configuration_service/lock_manager.py:227-510 | for every call: exactly which devices are locked at any time after it |
| Stores.DeviceRegistryStore.SaveDevice | backend/configuration_service/src/configuration_service/device_registry_store.py:140-186 | upsert of the row and one audit entry, together |
| Stores.DeviceRegistryStore.DeleteDevice | backend/configuration_service/src/configuration_service/device_registry_store.py:188-208 | row removed and audit entry written iff the row exists |
| Stores.DeviceRegistryStore.SeedFromRegistry | backend/configuration_service/src/configuration_service/device_registry_store.py:83-119 | all rows and audit entries inserted and the epoch set, or nothing if a row already exists |
| Stores.DeviceRegistryStore.ClearAndReseed | backend/configuration_service/src/configuration_service/device_registry_store.py:260-277 | a wipe, then a seed of the empty table |
| Stores.DeviceRegistryStore.LogLockEvent | backend/configuration_service/src/configuration_service/device_registry_store.py:416-433 | one entry per name, outside the feed |
| Stores.DeviceRegistryStore.LoadAllDevices | backend/configuration_service/src/configuration_service/device_registry_store.py:121-138 | the registry of the stored rows |
| Stores.DeviceRegistryStore.GetChangesSince | backend/configuration_service/src/configuration_service/device_registry_store.py:445-547 | the newest id, the epoch, whether a reset lies after the cursor, and the last feed entry of each device after it with its current row |
| ChangeFeed.ChangesAreAnnounced | backend/configuration_service/src/configuration_service/device_registry_store.py:92-204 | every transaction that changes a device's row appends a feed entry for it or a reset |
| ChangeFeed.DeltasApplied | backend/configuration_service/src/configuration_service/device_registry_store.py:488-547 | deltas set exactly the devices they report, to their current rows |
| ChangeFeed.DeltasKeepFresh | backend/configuration_service/src/configuration_service/device_registry_store.py:488-547 | rows read later than the cursor bring an older copy up to date for the cursor as well |
| ChangeFeed.StarMustAlreadyAgree | backend/configuration_service/src/configuration_service/device_registry_store.py:488-500 | deltas make the copy equal to the table iff it was already right about the name `*` |
| ChangeFeed.StarIsMissed | backend/configuration_service/src/configuration_service/device_registry_store.py:488-500 | an active device named `*` is saved and no delta reports it |
| FeedAnswers.AnswerSays | backend/configuration_service/src/configuration_service/device_registry_store.py:445-547 | for every store and cursor: the newest id; the seeded epoch or "unseeded"; a reset iff one lies after the cursor; and, by ascending id, exactly the last change of each device with news |
| FeedAnswers.ChangeSays | backend/configuration_service/src/configuration_service/device_registry_store.py:501-540 | a change names its device and id, and is a removal iff the device has no row, else carries the current row |
| FeedAnswers.ResetIsTold | backend/configuration_service/src/configuration_service/device_registry_store.py:260-277 | after a wipe and any further commits, every cursor from before it is told of a reset |
| FeedAnswers.LockEventsAreSilent | backend/configuration_service/src/configuration_service/device_registry_store.py:416-433 | lock events append one entry of their kind per device and change nothing a poll is told but the newest id |
| FeedAnswers.PollIsAnswer | backend/configuration_service/src/configuration_service/device_registry_store.py:461-547 | the SELECTs of an undisturbed poll give the answer of the query |
| FeedAnswers.PollLeavesClient | backend/queueserver_service/queueserver_service/manager/config_service.py:637-707 | the client after an undisturbed poll: what memory lists if there is a reset or another epoch, else its copy with the deltas, at the head of the log; as it was without changes or without a plan |
| FeedAnswers.SecondPollIsQuiet | backend/queueserver_service/queueserver_service/manager/config_service.py:637-707 | a second poll refetches nothing and is told nothing, unless the first one gave up |
| FeedAnswers.OpeningLeavesClient | backend/queueserver_service/queueserver_service/manager/config_service_coordinator.py:185-262 | an undisturbed prefetch and sync leave what memory lists, at the head of the log and under its epoch, so a poll is told nothing |
| FeedAnswers.UnheardIsToldAgain | backend/queueserver_service/queueserver_service/manager/config_service_coordinator.py:265-317 | an update applied without an acknowledged answer gives the same copy and leaves the cursor, so the next poll is told the same |
| FeedClients.ServiceKeepsCopy | backend/configuration_service/src/configuration_service/device_registry_store.py:461-547 | no step of the service, failures and restarts included, makes a copy wrong for its cursor |
| FeedClients.PollKeepsCopy | backend/configuration_service/src/configuration_service/device_registry_store.py:461-547 | nor does any step of the client but a prefetch, a refetch and a sync, an update applied without an answer included |
| FeedClients.RefetchFreshIff | backend/queueserver_service/queueserver_service/manager/config_service.py:694-707 | a copy served from memory is right for a head, counted earlier or now, iff the handler under way allows it: the head was counted before the unpublished commit, or memory already lists what the table says about the devices the feed will not report again |
| FeedClients.FailedResetRefetchIff | backend/queueserver_service/queueserver_service/manager/config_service.py:694-707 | after a reset that fails past its wipe the same condition decides, for every head counted before or after the failure, until something is committed or published again |
| FeedClients.SyncRightIff | backend/queueserver_service/queueserver_service/manager/config_service_coordinator.py:208-262 | a sync is right iff every device reported after the base of the copy already is what the table says; without such a report it is always right |
| FeedClients.OpeningIff | backend/queueserver_service/queueserver_service/manager/config_service_coordinator.py:185-262 | whatever the service does between a prefetch and the first sync, the sync is right iff each device reported in between has the spec it was prefetched with |
| FeedClients.CountThenPrefetchIsRight | backend/queueserver_service/queueserver_service/manager/config_service_coordinator.py:185-262 | in the other order, the head counted before the prefetch, the copy is always right if no handler is between commit and publication |
| FeedClients.CopyAlwaysFresh | backend/configuration_service/src/configuration_service/device_registry_store.py:445-547 | in every run whose prefetches, refetches and syncs are made where they are right, with the device rows in step, the copy agrees with the table on every device with no feed entry and no reset after its base, whatever commits between the SELECTs and whatever happens to standalone PVs |
| FeedClients.StartHolds | backend/queueserver_service/queueserver_service/manager/config_service_coordinator.py:185-262 | the first start, without a copy, satisfies the invariant of that theorem |
| FeedClients.PollExactIff | backend/configuration_service/src/configuration_service/device_registry_store.py:445-547 | at any point of any handler, tables in step or not: a poll during which the service does not step leaves an exact copy iff it does not refetch and every change has its spec, or it refetches while memory lists what the table says, or it gives up with a copy that was exact already |
| FeedClients.PollExactByHandlerIff | backend/configuration_service/src/configuration_service/device_registry_store.py:445-547 | with the device rows in step, a refetching poll is exact iff the handler under way allows a refetch at the head of the log |
| FeedClients.UndisturbedPollIsExact | backend/configuration_service/src/configuration_service/device_registry_store.py:461-547 | in particular, with the registry lock free and the device rows in step, polls during which the service does not step leave an exact copy of table and memory, up to the name `*`, unless a change lacks its spec |
| FeedClients.CarefulPollIff | backend/configuration_service/src/configuration_service/device_registry_store.py:445-547 | the same condition decides after every careful run from the first start at whose end the device rows are in step |
| FeedClients.CarefulPollIsExact | backend/configuration_service/src/configuration_service/device_registry_store.py:445-547 | so polls with the registry lock free are exact after every such run |
| FeedGaps.CreateCanBeMissed | backend/queueserver_service/queueserver_service/manager/config_service_coordinator.py:185-262 | from the first start: a device created between the prefetch and the first count is never reported |
| FeedGaps.UpdateCanMiss | backend/queueserver_service/queueserver_service/manager/config_service_coordinator.py:265-317 | from the first start: a device created between the reading of an answer and the sync that follows its acceptance is never reported |
| FeedGaps.ClearCanBeMissed | backend/configuration_service/src/configuration_service/main.py:1918-1932 | from the first start: a poll between the commits of a clear and its publication keeps every active device for good |
| FeedGaps.DeleteCanBeMissed | backend/configuration_service/src/configuration_service/main.py:1792-1828 | from the first start: a poll that has a reset to hear of, between the commit of a delete and its publication, keeps the deleted device for good |
| ChangeFeed.PlanNoneIff | backend/queueserver_service/queueserver_service/manager/config_service.py:657-670 | a plan fails iff an upsert has no spec |
| ChangeFeed.PlanFollowsRows | backend/queueserver_service/queueserver_service/manager/config_service.py:637-691 | the incremental plan gives the copy a full refresh would give |
| Protocol.NextKeepsSafe | backend/configuration_service/src/configuration_service/main.py:1579-1932 | every step of every handler, lock call, update, failure and crash keeps: index right, live locks backed by registered devices with specs, the handler's checks still true |
| Protocol.AlwaysSafe | backend/configuration_service/src/configuration_service/main.py:1579-1932 | so does every behaviour |
| Protocol.BootIsSafe | backend/configuration_service/src/configuration_service/main.py:370-382 | a first startup is such a state |
| Protocol.LockCallKeepsSafe | backend/configuration_service/src/configuration_service/main.py:878-957 | an acquire under the registry lock locks only devices that are published with a spec; a release, renewal or force-unlock keeps that at any point of a handler |
| Protocol.NoMutationUnderLock | backend/configuration_service/src/configuration_service/main.py:1684-1828 | the memory step of an update or delete never meets a live lock on its device, in any interleaving |
| Holds.HoldProtects | backend/configuration_service/src/configuration_service/main.py:1648-1846 | from any reachable state in which a device is locked, through any interleaving that neither ends the hold nor outlasts its lease: same hold, same metadata, same spec but for the enabled flag, and every update and delete refused |
| Holds.GrantBeginsHold | backend/configuration_service/src/configuration_service/main.py:878-957 | a granted request begins such a hold on each of its devices, for exactly the lease time |
| Operations.CreateTakesEffect | backend/configuration_service/src/configuration_service/main.py:1579-1646 | a create stores, logs and publishes the device and spec it was sent, last in order, and nothing else |
| Operations.CreateRefusedIff | backend/configuration_service/src/configuration_service/main.py:1579-1646 | it is refused, without effect, exactly for a registered name |
| Operations.UpdateTakesEffect | backend/configuration_service/src/configuration_service/main.py:1648-1777 | an update stores, logs and publishes the metadata and spec it was sent; without one the old spec stays; nothing else changes |
| Operations.UpdateRefusedIff | backend/configuration_service/src/configuration_service/main.py:1648-1777 | it is refused, without effect, exactly when the name is unknown or live-locked |
| Operations.SetActiveTakesEffect | backend/configuration_service/src/configuration_service/main.py:1350-1484 | enabling and disabling set the flag of the spec, log it, and change nothing else |
| Operations.SetActiveIdleIff | backend/configuration_service/src/configuration_service/main.py:1350-1484 | there is nothing to do exactly when the device has no spec or the flag is as asked for |
| Operations.DeleteTakesEffect | backend/configuration_service/src/configuration_service/main.py:1779-1846 | a delete removes row, device and spec, logs it, and changes nothing else |
| Operations.DeleteRefusedIff | backend/configuration_service/src/configuration_service/main.py:1779-1846 | it is refused, without effect, exactly when the name is unknown or live-locked |
| Operations.CreatePvTakesEffect | backend/configuration_service/src/configuration_service/main.py:2005-2066 | the PV is stored and indexed without an owner, and nothing else changes |
| Operations.CreatePvRefusedIff | backend/configuration_service/src/configuration_service/main.py:2005-2066 | refused, without effect, exactly when the PV is indexed or stored |
| Operations.DeletePvTakesEffect | backend/configuration_service/src/configuration_service/main.py:2149-2195 | the PV is neither stored nor standalone any more, and stays indexed iff a device lists it |
| Operations.DeletePvRefusedIff | backend/configuration_service/src/configuration_service/main.py:2149-2195 | refused, without effect, exactly when the PV is not stored |
| Operations.ResetTakesEffect | backend/configuration_service/src/configuration_service/main.py:1848-1903 | a reset publishes the profile with the stored standalone PVs, stores its rows under a new epoch after a logged wipe, and drops every lock |
| Operations.ClearTakesEffect | backend/configuration_service/src/configuration_service/main.py:1905-1932 | a clear does the same with an empty registry |
| Operations.FirstFailureChangesNothing | backend/configuration_service/src/configuration_service/main.py:1579-2195 | an operation whose first await fails has changed nothing |
| Operations.RestartBeginsAnew | backend/configuration_service/src/configuration_service/main.py:370-382 | after a restart nothing is locked, policy and lease time are the configured ones, and no handler is under way |
| Recovery.NextInStepIff | backend/configuration_service/src/configuration_service/main.py:1579-2195 | a step from agreement between rows, standalone table and memory keeps it, up to what the handler has already written, iff it is none of the three kinds that break it |
| Recovery.NextRowsIff | backend/configuration_service/src/configuration_service/main.py:1579-2195 | as far as the device rows go, whatever the standalone PVs: a step keeps them in step iff it is no reset failing between its transactions, or after them with other devices in memory |
| Recovery.RestartInStepIff | backend/configuration_service/src/configuration_service/main.py:370-382 | a restart agrees iff it loads a seeded table or finds an empty one |
| Recovery.MendsRestore | backend/configuration_service/src/configuration_service/device_registry_store.py:260-277 | the wipe of a reset and a restart that loads lead back to agreement from any state |
| Recovery.MendedInStep | backend/configuration_service/src/configuration_service/main.py:1579-2195 | a run from any safe state agrees at its end if nothing broke agreement after the last step that restores it |
| Recovery.FreeMeansAgreement | backend/configuration_service/src/configuration_service/main.py:1363-1930 | in a run from the first start in which nothing broke agreement after the last step that restores it, whenever the registry lock is free rows equal the devices and specs in memory and the standalone tables agree |
| Recovery.FailureAfterWipeIff | backend/configuration_service/src/configuration_service/device_registry_store.py:260-277 | a reset that fails after its first transaction leaves rows equal to memory iff what it had written says what memory says |
| Recovery.ResetCanLoseAgreement | backend/configuration_service/src/configuration_service/main.py:1861-1883 | reset, wipe, failed seed: an empty table beside a non-empty memory, from any configured profile |
| Recovery.UnlockedWriteIff | backend/configuration_service/src/configuration_service/main.py:2103-2131 | at any point of any handler, an unlocked standalone-PV update keeps the tables in step iff its row is still there or a reset has yet to read the table |
| Recovery.UpdateCanResurrect | backend/configuration_service/src/configuration_service/main.py:2103-2190 | an update around a delete brings the row back in the table only |
| Restarts.ProceedKeepsOutcome | backend/configuration_service/src/configuration_service/main.py:1579-1932 | each successful step keeps the registry the operation will publish, and the last one publishes it |
| Restarts.CrashIsAtomic | backend/configuration_service/src/configuration_service/main.py:370-382 | a crash at any point and a restart give the view from before the operation or the one it would have published, except in a clear between its transactions, where the profile is loaded |
| Restarts.UnderWayKeeps | backend/configuration_service/src/configuration_service/main.py:1579-2195 | until it publishes, an operation leaves memory alone and what it will publish stays the same, under any interleaving without a resurrecting standalone write |
| Restarts.OperationIsAtomic | backend/configuration_service/src/configuration_service/main.py:370-382 | an operation that crashes anywhere, after any interleaving without a resurrecting standalone write, restarts with the view from before it began or the one it would have published, unless it is a clear between its transactions |
| Restarts.DevicesAreAtomic | backend/configuration_service/src/configuration_service/main.py:370-382 | with resurrecting writes too, the restarted registry is well-formed, has the devices and specs from before or the ones to be published, and exactly the standalone PVs stored at the crash, with the same exception |
| Restarts.RestartSucceeds | backend/configuration_service/src/configuration_service/main.py:370-382 | a restart from any state in step succeeds |
| Restarts.RestartFailsIff | backend/configuration_service/src/configuration_service/main.py:370-382 | a startup fails iff it has to seed and a stored row bears a name of the profile |
| Restarts.NextStartupIff | backend/configuration_service/src/configuration_service/main.py:370-382 | in every run from the first start, the next startup fails iff the last wipe is unseeded and a device of the profile was saved after it and not deleted since; when it succeeds, memory and table agree iff nothing was left unseeded in the table |
| Restarts.StartupCanFail | backend/configuration_service/src/configuration_service/main.py:370-382 | from the first start: a failed reset, an update of a device of the profile, and no startup succeeds |
| Restarts.LossOutlivesRestart | backend/configuration_service/src/configuration_service/main.py:370-382 | from the first start: a failed reset, a new device, and a restart that succeeds without it although its row is stored |
| Restarts.InterruptedClearIff | backend/configuration_service/src/configuration_service/main.py:1918-1932 | an interrupted clear gives the intended view iff the profile is empty, and the view before it iff memory held the profile and the stored standalone PVs |
| Restarts.InterruptedClearCanRestore | backend/configuration_service/src/configuration_service/main.py:1918-1932 | from the first start: a delete, half a clear and a restart bring back the profile, which is neither the state before nor the one intended |
| Restarts.ClearThenRestart | backend/configuration_service/src/configuration_service/main.py:1918-1932 | a completed clear followed by a restart gives an empty registry with the standalone PVs |
| Availability.LockedListersMakeUnavailable | backend/configuration_service/src/configuration_service/main.py:2322-2367 | in every reachable state a PV whose listing devices all hold live locks is reported unavailable, whoever the index credits |
| Availability.LockAllMakesUnavailable | backend/configuration_service/src/configuration_service/main.py:2322-2367 | in every reachable state, under `lock_all` with any live lock, no device-owned PV is available |
| Availability.StandaloneAlwaysAvailable | backend/configuration_service/src/configuration_service/main.py:2329-2342 | in every reachable state a PV is reported standalone, hence available, iff it is registered standalone and no device lists it |
| Availability.IdleServiceIsAvailable | backend/configuration_service/src/configuration_service/main.py:2322-2367 | with no live lock every indexed PV of active devices is available |
| Availability.GetPvStatus | backend/configuration_service/src/configuration_service/main.py:2322-2367 | the status is that of the model, with the lock manager asked for the effective lock |
| Availability.StatusSays | backend/configuration_service/src/configuration_service/main.py:2322-2367 | unknown iff not indexed, standalone iff indexed without owner; else the owner, its active flag, whether it or, under `lock_all`, any device is live-locked, and available iff enabled and not locked |
| Availability.MayCommandIff | backend/configuration_service/src/configuration_service/main.py:2322-2367 | in every reachable state a PV may be commanded exactly when it is indexed without an owner, or its owner is active and no lock governs it |
| Availability.DisabledListersMayNot | backend/configuration_service/src/configuration_service/main.py:2322-2367 | in every reachable state a PV whose listing devices are all disabled may not be commanded |
| ClassGraph.WalkClassForPvs | backend/configuration_service/src/configuration_service/loader.py:282-335 | raises iff a chain of descents re-enters an ancestor class; else holds exactly the emitted PVs, nothing for a class that is no device |
| ClassGraph.Walk | backend/configuration_service/src/configuration_service/loader.py:282-332 | terminates on any finite graph, records exactly the PVs emitted below the class, and fails iff a descent re-enters a class above |
| ClassGraph.WalkComponent | backend/configuration_service/src/configuration_service/loader.py:305-332 | one component: descend, record a leaf, or skip |
| ClassGraph.Follow | backend/configuration_service/src/configuration_service/path_resolver.py:186-253 | the loop over the segments computes the outcome of the recursive definition |
| ClassGraph.WalksAgree | backend/configuration_service/src/configuration_service/path_resolver.py:186-253 | a path and PV are emitted iff the path leads through declared components to a leaf and the resolver resolves it to that PV |
| ClassGraph.FollowsIff | backend/configuration_service/src/configuration_service/path_resolver.py:186-253 | a path resolves exactly when every segment is a component, dynamic or with a static suffix, and the last one is not dynamic; to the prefix, unless the path is absolute, and its suffixes |
| ClassGraph.EmittedIs | backend/configuration_service/src/configuration_service/loader.py:282-332 | a PV is emitted exactly at declared leaves with static suffixes: the walked prefix, unless the path is absolute, then the suffixes in order |
| ClassGraph.FailureSays | backend/configuration_service/src/configuration_service/path_resolver.py:186-253 | a walk that does not resolve names the first segment that is missing, no component or without static suffix, with the segments before it, and asks for enrichment exactly for a placeholder |
| ClassGraph.RankedNeverReenters | backend/configuration_service/src/configuration_service/loader.py:288-303 | classes that only descend in some ranking never raise the cycle error, however often siblings repeat |
| ClassGraph.SplitJoin | backend/configuration_service/src/configuration_service/loader.py:332 | splitting a dotted key gives back its segments |
| ClassGraph.AddressSplitsIff | backend/configuration_service/src/configuration_service/path_resolver.py:85-92 | the device name is read back from an address iff it has no dot |
| ClassGraph.RecordedKeyResolves | backend/configuration_service/src/configuration_service/path_resolver.py:383-416 | with the walked prefix, a recorded dotted key resolves, as an address of its device, to the recorded PV |
| ClassGraph.GetDevicePrefix | backend/configuration_service/src/configuration_service/main.py:147-179 | the prefix the endpoint derives again: the PV named `prefix`, a first argument with a colon, or what the PVs share |
| ClassGraph.NoPrefixIff | backend/configuration_service/src/configuration_service/main.py:147-179 | no prefix is derived exactly when no PV is named `prefix`, no first argument has a colon, and there is no PV or several without a common first letter |
| ClassGraph.NamedPrefixWins | backend/configuration_service/src/configuration_service/main.py:147-179 | the first PV named `prefix` is taken before anything else |
| ClassGraph.SharedPrefixSays | backend/configuration_service/src/configuration_service/main.py:147-179 | without one, and without an argument with a colon, it is the longest common start of the PVs, if there is one |
| ClassGraph.BareNameResolves | backend/configuration_service/src/configuration_service/path_resolver.py:85-92 | an address that is a device name alone, or ends at its dot, resolves to the derived prefix |
| ClassGraph.SharedIsLongest | backend/configuration_service/src/configuration_service/main.py:170-179 | what the PVs share is their longest common start |
| ClassGraph.PrefixMatters | backend/configuration_service/src/configuration_service/path_resolver.py:140-183 | another prefix gives another PV at a path unless the path is absolute |
| ClassGraph.RelativeStartsWith | backend/configuration_service/src/configuration_service/loader.py:282-332 | a PV recorded at a path that is not absolute starts with the walked prefix |
| ClassGraph.RecordedAddressIff | backend/configuration_service/src/configuration_service/main.py:182-237 | the endpoint answers a recorded dotted key with its PV iff it derives a prefix at all, and that is the walked prefix or the path is absolute |
| ClassGraph.NothingSharedIsRefused | backend/configuration_service/src/configuration_service/main.py:182-237 | two recorded absolute PVs that share nothing: the endpoint refuses their addresses |
| ClassGraph.DerivedIsWalked | backend/configuration_service/src/configuration_service/main.py:147-179 | the derived prefix is the walked one if that was a first argument with a colon and no PV is named `prefix`; after a walk with another prefix it is at least that one when no PV is absolute |
| ClassGraph.OneLeafResolvesTwice | backend/configuration_service/src/configuration_service/main.py:170-179 | a class with one leaf walked with its entry's own prefix resolves to the suffix twice |
| Bits.ExportBits | backend/configuration_service/src/configuration_service/device_registry_store.py:326-365 | the exported groups, in row order within each key, or nothing when a row cannot be exported |
| Bits.ExportSays | backend/configuration_service/src/configuration_service/device_registry_store.py:368-414 | what a spec is exported as: name, non-empty text argument and read PV, and the labels of the metadata, else of the spec, a text by its characters; it fails exactly when those cannot be listed |
| Bits.LoadRegistry | backend/configuration_service/src/configuration_service/loader.py:522-563 | loads iff every group is a list and every entry loads, and then holds the entries registered in reading order |
| Bits.LoadEntries | backend/configuration_service/src/configuration_service/loader.py:545-556 | the entries of one group, each registered or counted as a failure |
| Bits.LoadSays | backend/configuration_service/src/configuration_service/loader.py:565-653 | what an entry becomes: name, labels, class path, first argument, keywords, active, without framework |
| Bits.PvsSay | backend/configuration_service/src/configuration_service/loader.py:565-653 | which PVs a loaded entry lists, and under which component each of them |
| Bits.ClassNameSays | backend/configuration_service/src/configuration_service/loader.py:565-600 | the class named: that of the key, else the creator, else the entry's name |
| Bits.PathReturnsIff | backend/configuration_service/src/configuration_service/device_registry_store.py:382-395 | the exported key and creator load as the same class path iff the path is a dotted class or a factory in a module that does not end with a dot |
| Bits.PvsValidIff | backend/configuration_service/src/configuration_service/models.py:47-54 | the derived PVs are accepted iff the prefix is, without a final newline if it is a motor's |
| Bits.RoundTripsIff | backend/configuration_service/src/configuration_service/loader.py:565-653 | a spec comes back from export and load iff it is `Representable`: proper class path, no argument or one accepted text, name and labels keywords only, active, no framework |
| Bits.ReexportIff | backend/configuration_service/src/configuration_service/device_registry_store.py:368-414 | a loaded entry exports as itself iff the class path is proper and no read PV was exported |
| Bits.FlatPermutes | backend/configuration_service/src/configuration_service/device_registry_store.py:352-365 | a rendered export lists every exported entry exactly once, whatever order its keys are in |
| Bits.FileLoads | backend/configuration_service/src/configuration_service/loader.py:522-563 | an exported file loads iff every exported entry does, and each name then holds what its own entry loads as |
| Bits.FileRoundTripsIff | backend/configuration_service/src/configuration_service/loader.py:522-563 | loading an exported file restores exactly the specs of the table iff all are representable |
| Bits.FileReexportsIff | backend/configuration_service/src/configuration_service/device_registry_store.py:326-365 | exporting what was loaded gives the same groups iff every row has a proper class path and no read PV |
| JsonRpc.RequestAnswered | backend/queueserver_service/queueserver_service/common/json_rpc.py:109-169 | a well-formed request is answered under its id: a result iff its handler ran and returned it, code -32000 iff it ran and raised |
| JsonRpc.RefusalsCoded | backend/queueserver_service/queueserver_service/common/json_rpc.py:109-169 | the code of each kind of refusal, exactly; an ill-formed message is answered under a null id and runs nothing |
| JsonRpc.IllFormedAnsweredIff | backend/queueserver_service/queueserver_service/common/json_rpc.py:109-169 | an ill-formed message is answered, under a null id, exactly when it contains "id" as a key, an element or anywhere in a text |
| JsonRpc.HandleAll | backend/queueserver_service/queueserver_service/common/json_rpc.py:209-212 | the batch loop handles messages in order up to the first scalar |
| JsonRpc.Handle | backend/queueserver_service/queueserver_service/common/json_rpc.py:171-230 | one reply per handled request in order, or a single parse error iff some message is a scalar |
| JsonRpc.BatchAnswersRequests | backend/queueserver_service/queueserver_service/common/json_rpc.py:171-230 | exactly the messages with an id are answered, one each, in order |
| JsonRpc.BatchRepliesSay | backend/queueserver_service/queueserver_service/common/json_rpc.py:109-230 | in a batch, each well-formed request is answered under its own id by its result, its handler's failure or the reason it did not run; any other answered message by the code of an invalid request |
| JsonRpc.WrappedKeeps | backend/queueserver_service/queueserver_service/common/json_rpc.py:214-230 | wrapping keeps every response, a batch stays a batch, and nothing is sent when there is none |
| JsonRpc.RepliesAreSent | backend/queueserver_service/queueserver_service/common/json_rpc.py:171-230 | what is sent back for a message keeps the reply of every request, in order |
| JsonRpc.ScalarLosesReplies | backend/queueserver_service/queueserver_service/common/json_rpc.py:171-230 | a call followed by a scalar runs but gets no reply |
| PipeRpc.TokensConserved | backend/queueserver_service/queueserver_service/common/comms.py:404-534 | no step makes a second copy of a request, over buffers, pipe, inbox and handled requests, and one is lost exactly when a full buffer or queue, a failing pipe or the cleanup drops it |
| PipeRpc.RepliesStayGenuine | backend/queueserver_service/queueserver_service/common/comms.py:263-289 | every reply anywhere under way is one the server computed for its own id |
| PipeRpc.HolderStillOwns | backend/queueserver_service/queueserver_service/common/comms.py:404-505 | outside the lock nothing is expected and the send buffer is empty; inside, both belong to the holder |
| PipeRpc.OutcomesStayTrue | backend/queueserver_service/queueserver_service/common/comms.py:462-534 | every outcome told to a caller is backed by a handling of its own request |
| PipeRpc.RpcIsExact | backend/queueserver_service/queueserver_service/common/comms.py:404-534 | over all interleavings: a returned call was handled exactly once by the run that gave that result, a failed one got its own error, any other at most once; the buffer is never found full and is empty when the lock is free |
| PipeCalls.FormatSays | backend/queueserver_service/queueserver_service/common/comms.py:102-120 | a message names the method, carries the parameters or none, and an id unless it is a notification |
| PipeCalls.TimelyReplyEndsCall | backend/queueserver_service/queueserver_service/common/comms.py:462-505 | in every reachable state in which the reply of the waiting call has reached the client, running its callback ends the call with what the reply says |
| PipeCalls.OtherReplyIgnored | backend/queueserver_service/queueserver_service/common/comms.py:507-534 | a reply under another id changes nothing for the call that waits |
| PipeCalls.CallIsAnswered | backend/queueserver_service/queueserver_service/common/comms.py:404-534 | with nothing lost or late a call returns the result of its handler, the server error if it raised, or the code of the refusal |
| PipeCalls.NotificationIsSent | backend/queueserver_service/queueserver_service/common/comms.py:462-505 | a notification ends when it is sent, without waiting for the server |
| PipeCalls.TimeoutIsTold | backend/queueserver_service/queueserver_service/common/comms.py:462-505 | a call that runs out of time is told so, and the next one can begin |
| OphydCache.StepKeepsLocks | backend/direct_control_service/src/direct_control/ophyd_cache.py:75-84 | one lock per key, held by exactly the thread inside it, through every step |
| OphydCache.StepKeepsCounts | backend/direct_control_service/src/direct_control/ophyd_cache.py:84-99 | builds begun are under way, raised or produced the stored entry, and nobody works on a stored key |
| OphydCache.StepKeepsAnswers | backend/direct_control_service/src/direct_control/ophyd_cache.py:62-99 | every answer given is the entry stored for its key |
| OphydCache.BuiltAtMostOnce | backend/direct_control_service/src/direct_control/ophyd_cache.py:62-99 | for unboundedly many threads at most one build of a key produces an entry, a key is begun again only after a build that raised, and all callers get the same entry, cached failures included |
| OphydCache.AnswersAreBuilt | backend/direct_control_service/src/direct_control/ophyd_cache.py:62-99 | over every behaviour, what is stored for a key and what any caller for it is answered is the entry a build of that key returned, and no other entry was ever returned for it |
| OphydCache.AnsweredUnlessRaised | backend/direct_control_service/src/direct_control/ophyd_cache.py:62-99 | over every behaviour, a finished call has an entry iff its own build did not raise |
| OphydCache.HitTakesNoLock | backend/direct_control_service/src/direct_control/ophyd_cache.py:69-74 | a hit on the first look answers at once, whatever locks are held, and takes none |
| OphydCache.RaisingBuildIsRepeated | backend/direct_control_service/src/direct_control/ophyd_cache.py:122-147 | a build that raises is not cached: a concrete run begins the key twice |
| OphydCache.NeverDeadlocked | backend/direct_control_service/src/direct_control/ophyd_cache.py:62-99 | in every reachable state an unfinished call can move or waits for a thread that can |
| DeviceManagers.StepConserves | backend/direct_control_service/src/direct_control/device_manager.py:64-159 | every step keeps: the live devices of a name are exactly the cached one or the one its call is responsible for |
| DeviceManagers.LookDecides | backend/direct_control_service/src/direct_control/device_manager.py:64-102 | a call returns the cached device at once exactly when class, arguments and keywords are those it was built from; it destroys it first exactly when one of them differs |
| DeviceManagers.OutdatedIsRebuilt | backend/direct_control_service/src/direct_control/device_manager.py:64-152 | a call with another fingerprint whose steps succeed returns and caches a new device instead of the old one |
| DeviceManagers.DevicesConserved | backend/direct_control_service/src/direct_control/device_manager.py:64-159 | in any interleaving, with a free lock the live devices of a name are the cached one or none; none is destroyed twice; every returned device was built from a spec with the caller's fingerprint |
| DeviceManagers.ReturnedIsLive | backend/direct_control_service/src/direct_control/device_manager.py:64-102 | a call returns the one live device of its name, now cached with its fingerprint |
| DeviceManagers.FailureNotCached | backend/direct_control_service/src/direct_control/device_manager.py:104-152 | a failed call leaves nothing live and nothing cached |
| Console.CollectPublishedConsoleOutput.AddToMsgBuffer | backend/queueserver_service/queueserver_service/http/console_output.py:125-134 | appends to both lists and drops the oldest beyond the maximum |
| Console.CollectPublishedConsoleOutput.GetNewMsgs | backend/queueserver_service/queueserver_service/http/console_output.py:90-100 | the last uid and what the buffer holds after the cursor; everything for `ALL`, nothing for an unknown uid |
| Console.HoldsTail | backend/queueserver_service/queueserver_service/http/console_output.py:125-134 | the buffer holds exactly the last messages of the stream |
| Console.PollFromMessage | backend/queueserver_service/queueserver_service/http/console_output.py:90-100 | a poll from a message receives exactly the later ones if fewer than the maximum were added since, else nothing |
| Console.PollCompleteIff | backend/queueserver_service/queueserver_service/http/console_output.py:90-100 | so it is complete iff fewer than the maximum were added since |
| Console.ChainIsGapless | backend/queueserver_service/queueserver_service/http/console_output.py:90-134 | a chain of polls that keep up yields the stream with no gap and no duplicate |
| Console.AllThenChain | backend/queueserver_service/queueserver_service/http/console_output.py:90-134 | starting with `ALL` and then chaining yields the stream from the oldest message held at the start, hence all of it iff none had been dropped by then |
| Console.EarlyCursorReceivesNothing | backend/queueserver_service/queueserver_service/http/console_output.py:45-48 | the uid reported before any message matches none |

## Left out

- SQL, connection pools, pydantic, JSON and YAML encoding: tables are maps and logs are sequences, a transaction is atomic and a failed one leaves nothing, serialisation is faithful.
- Clock readings, uuids, acquisition stamps and epochs are parameters; time does not decrease, uuids are fresh, and audit ids follow commit order (PostgreSQL can commit ids out of order).
- EPICS, ophyd, `importlib` and class instantiation: a component is a suffix, a prefix flag and a child class; a build or a connect may succeed, fail or raise. The ophyd-async resolver is not part of this model.
- ZeroMQ, HTTP routing and clients, WebSockets, authentication, CLI, settings, frontend and IOCs; PV health counters, name heuristics, capability flags and HTTP status codes, which one branch each settles.
- happi and mock profiles, and the happi export.
- `enable_device` and `disable_device` do not consult locks, so a held device may be enabled or disabled; Holds.HoldProtects says that nothing else of it changes.
- Handlers, cache, device manager and pipe RPC are step machines on values, one step per critical section or await, because their claims are about interleavings; aliasing between the Python objects of different tasks is not captured beyond the shared fields listed in each state.
- The pipe client drains its send buffer in one step, and stopping and restarting its threads is left out.
- `OphydDeviceCache.evict` and `clear`, `DeviceManager.cleanup` and task cancellation: the theorems are for executions without them.
- Standalone-PV rows are their names: their descriptive fields and the label filter of `get_all_pvs` are left out.
- The iteration order of the dictionary of locks is a parameter of `global_lock_holder` and `effective_lock`; LockRuns.HolderIsStable assumes distinct stamps.
- Restarts.CrashIsAtomic: assumes the profile is the same before and after the crash, and compares registries up to the owner of a PV that several devices list.
- Recovery.FreeMeansAgreement: a run after a break may agree again by coincidence, for example when the resurrected standalone PV is deleted; only the steps that always restore agreement are counted.
- FeedClients.UndisturbedPollIsExact: says nothing about a device named `*`; ChangeFeed.StarMustAlreadyAgree gives the condition.
- FeedClients.CopyAlwaysFresh: one client, whose polls and syncs do not overlap; a poll may go on across a restart of the service, which only adds behaviours. The environment's bootstrap of an empty registry is a run of creates.
- Bits.RoundTripsIff: a labels argument that is neither text nor a list of texts is represented by what `list` gives for it; lists of other values are left out. The character test `isupper`, the motor heuristic and the descriptive fields are parameters.
