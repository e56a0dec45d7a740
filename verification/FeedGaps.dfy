/**
 Devices a client of the change feed never hears of
 (manager/config_service.py, manager/config_service_coordinator.py; main.py of the service).

 Four behaviours from the first start in which a sync or a refetch is made where FeedClients
 says that it is not right, and the copy stays wrong with nothing left to report.
 */
module FeedGaps {
  import opened Models
  import opened DeviceRegistries
  import opened Stores
  import opened ChangeFeed
  import opened FeedClients
  import Protocol
  import Recovery
  import Restarts
  import Operations

  lemma OneStep(cfg: Protocol.Config, s: System, a: Action, rest: seq<Action>)
    requires Protocol.ValidConfig(cfg) && Enabled(cfg, s, a) && Behaviour(cfg, Next(cfg, s, a), rest)
    ensures Behaviour(cfg, s, [a] + rest)
    ensures After(cfg, s, [a] + rest) == After(cfg, Next(cfg, s, a), rest)
  {
    assert ([a] + rest)[0] == a && ([a] + rest)[1..] == rest;
  }

  lemma {:induction false} Joined(cfg: Protocol.Config, s: System, first: seq<Action>, second: seq<Action>)
    requires Protocol.ValidConfig(cfg)
    requires Behaviour(cfg, s, first) && Behaviour(cfg, After(cfg, s, first), second)
    ensures Behaviour(cfg, s, first + second)
    ensures After(cfg, s, first + second) == After(cfg, After(cfg, s, first), second)
    decreases |first|
  {
    if first == [] {
      assert first + second == second;
    } else {
      Joined(cfg, Next(cfg, s, first[0]), first[1..], second);
      FirstOfJoined(first, second);
    }
  }

  function AllServed(steps: seq<Protocol.Action>): seq<Action> {
    seq(|steps|, i requires 0 <= i < |steps| => Served(steps[i]))
  }

  /** A behaviour of the service while the client does nothing. */
  lemma {:induction false} ServiceAlone(cfg: Protocol.Config, s: System, steps: seq<Protocol.Action>)
    requires Protocol.ValidConfig(cfg) && Protocol.Behaviour(cfg, s.service, steps)
    ensures Behaviour(cfg, s, AllServed(steps))
    ensures var after := After(cfg, s, AllServed(steps));
            after.service == Protocol.After(cfg, s.service, steps) && after.client == s.client
    decreases |steps|
  {
    if steps != [] {
      assert AllServed(steps)[1..] == AllServed(steps[1..]);
      ServiceAlone(cfg, Next(cfg, s, Served(steps[0])), steps[1..]);
    }
  }

  /** A synced copy that misses, or still has, a device though nothing after its cursor will say so. */
  ghost predicate Stranded(s: System, name: string) {
    && s.client.synced && s.client.phase.Idle?
    && s.service.handler.Free?
    && Settled(s.service.store.log, s.client.cursor, name)
    && !SameAt(s.client.copy, Overlay(s.service.store.table), name)
  }

  const Sync := [SyncCount, SyncEpoch]

  lemma SyncAlone(cfg: Protocol.Config, s: System)
    requires Protocol.ValidConfig(cfg) && s.client.phase.Idle?
    ensures Behaviour(cfg, s, Sync)
    ensures var after := After(cfg, s, Sync);
      && after.service == s.service && after.client.copy == s.client.copy && after.client.phase.Idle?
      && after.client.synced && after.client.cursor == |s.service.store.log|
      && after.client.epoch == EpochOf(s.service.store)
  {
    OneStep(cfg, Next(cfg, s, SyncCount), SyncEpoch, []);
    OneStep(cfg, s, SyncCount, [SyncEpoch]);
    assert [SyncCount] + [SyncEpoch] == Sync && [SyncEpoch] + [] == [SyncEpoch];
  }

  /**
   From the first start: a device created between the prefetch and the first count is in no
   copy and in no later answer.
   */
  lemma CreateCanBeMissed(cfg: Protocol.Config, now: int, epoch: string, device: Device, spec: Spec)
    requires Protocol.ValidConfig(cfg) && device.name !in cfg.profile.devices && device.name == spec.name && spec.active
    ensures var actions := [Prefetch] + AllServed(Restarts.CreateRun(device, spec, epoch)) + Sync;
      && Behaviour(cfg, Start(cfg, now, epoch), actions)
      && Stranded(After(cfg, Start(cfg, now, epoch), actions), device.name)
  {
    var s0 := Start(cfg, now, epoch);
    OneStep(cfg, s0, Prefetch, []);
    assert [Prefetch] + [] == [Prefetch];
    var s1 := After(cfg, s0, [Prefetch]);
    Restarts.CreateStores(cfg, s1.service, device, spec, epoch);
    var create := AllServed(Restarts.CreateRun(device, spec, epoch));
    ServiceAlone(cfg, s1, Restarts.CreateRun(device, spec, epoch));
    Joined(cfg, s0, [Prefetch], create);
    var s2 := After(cfg, s1, create);
    SyncAlone(cfg, s2);
    Joined(cfg, s0, [Prefetch] + create, Sync);
    assert device.name in Overlay(s2.service.store.table);
  }

  const Poll := [CountIds, ReadEpoch, CheckReset, ReadRows, Accept, Refetch]

  /** A poll that finds a reset after its cursor refetches what memory lists, under the head of the log. */
  lemma PollRefetches(cfg: Protocol.Config, s: System)
    requires Protocol.ValidConfig(cfg) && s.client.phase.Idle? && s.client.synced && ResetSince(s)
    ensures Behaviour(cfg, s, Poll)
    ensures var after := After(cfg, s, Poll);
      && after.service == s.service && after.client.synced && after.client.phase.Idle?
      && after.client.copy == Listed(s.service.mem) && after.client.cursor == |s.service.store.log|
  {
    var s1 := Next(cfg, s, CountIds);
    var s2 := Next(cfg, s1, ReadEpoch);
    var s3 := Next(cfg, s2, CheckReset);
    var s4 := Next(cfg, s3, ReadRows);
    var s5 := Next(cfg, s4, Accept);
    PollUnrolled(cfg, s, s1, s2, s3, s4, s5);
  }

  lemma PollUnrolled(cfg: Protocol.Config, s: System, s1: System, s2: System, s3: System, s4: System, s5: System)
    requires Protocol.ValidConfig(cfg)
    requires Enabled(cfg, s, CountIds) && s1 == Next(cfg, s, CountIds)
    requires Enabled(cfg, s1, ReadEpoch) && s2 == Next(cfg, s1, ReadEpoch)
    requires Enabled(cfg, s2, CheckReset) && s3 == Next(cfg, s2, CheckReset)
    requires Enabled(cfg, s3, ReadRows) && s4 == Next(cfg, s3, ReadRows)
    requires Enabled(cfg, s4, Accept) && s5 == Next(cfg, s4, Accept) && Enabled(cfg, s5, Refetch)
    ensures Behaviour(cfg, s, Poll) && After(cfg, s, Poll) == Next(cfg, s5, Refetch)
  {
    OneStep(cfg, s5, Refetch, []);
    OneStep(cfg, s4, Accept, [Refetch]);
    OneStep(cfg, s3, ReadRows, [Accept, Refetch]);
    OneStep(cfg, s2, CheckReset, [ReadRows, Accept, Refetch]);
    OneStep(cfg, s1, ReadEpoch, [CheckReset, ReadRows, Accept, Refetch]);
    OneStep(cfg, s, CountIds, [ReadEpoch, CheckReset, ReadRows, Accept, Refetch]);
    assert [Refetch] + [] == [Refetch] && [Accept] + [Refetch] == [Accept, Refetch];
    assert [ReadRows] + [Accept, Refetch] == [ReadRows, Accept, Refetch];
    assert [CheckReset] + [ReadRows, Accept, Refetch] == [CheckReset, ReadRows, Accept, Refetch];
    assert [ReadEpoch] + [CheckReset, ReadRows, Accept, Refetch] == [ReadEpoch, CheckReset, ReadRows, Accept, Refetch];
    assert [CountIds] + [ReadEpoch, CheckReset, ReadRows, Accept, Refetch] == Poll;
  }

  const Open := [Prefetch] + Sync

  /** The environment opens at the first start: the copy is exact. */
  lemma OpenAlone(cfg: Protocol.Config, now: int, epoch: string)
    requires Protocol.ValidConfig(cfg)
    ensures Behaviour(cfg, Start(cfg, now, epoch), Open)
    ensures var after := After(cfg, Start(cfg, now, epoch), Open);
      && after.service == Protocol.Boot(cfg, now, epoch) && after.client.phase.Idle? && after.client.synced
      && after.client.cursor == |after.service.store.log| && after.client.epoch == EpochOf(after.service.store)
      && after.client.copy == Listed(cfg.profile)
  {
    var s0 := Start(cfg, now, epoch);
    OneStep(cfg, s0, Prefetch, []);
    assert [Prefetch] + [] == [Prefetch];
    SyncAlone(cfg, After(cfg, s0, [Prefetch]));
    Joined(cfg, s0, [Prefetch], Sync);
  }

  const Read := [CountIds, ReadEpoch, CheckReset, ReadRows]
  const Update := [Accept, SyncCount, SyncEpoch]

  /** A poll up to its answer, with no reset to hear of. */
  lemma PollReads(cfg: Protocol.Config, s: System)
    requires Protocol.ValidConfig(cfg) && s.client.phase.Idle? && s.client.synced
    requires s.client.cursor < |s.service.store.log| && !ResetSince(s)
    ensures Behaviour(cfg, s, Read)
    ensures var after := After(cfg, s, Read);
      && after.service == s.service
      && after.client == s.client.(phase := Answered(Response(
           |s.service.store.log|, EpochOf(s.service.store), false, ChangesSince(s))))
  {
    var s1 := Next(cfg, s, CountIds);
    var s2 := Next(cfg, s1, ReadEpoch);
    var s3 := Next(cfg, s2, CheckReset);
    OneStep(cfg, s3, ReadRows, []);
    OneStep(cfg, s2, CheckReset, [ReadRows]);
    OneStep(cfg, s1, ReadEpoch, [CheckReset, ReadRows]);
    OneStep(cfg, s, CountIds, [ReadEpoch, CheckReset, ReadRows]);
    assert [ReadRows] + [] == [ReadRows] && [CheckReset] + [ReadRows] == [CheckReset, ReadRows];
    assert [ReadEpoch] + [CheckReset, ReadRows] == [ReadEpoch, CheckReset, ReadRows];
    assert [CountIds] + [ReadEpoch, CheckReset, ReadRows] == Read;
  }

  /** An accepted update and the sync that follows it. */
  lemma AcceptsAndSyncs(cfg: Protocol.Config, s: System, copy: map<string, Spec>)
    requires Protocol.ValidConfig(cfg) && s.client.phase.Answered?
    requires var response := s.client.phase.response;
      && !response.reset && response.epoch == s.client.epoch
      && response.changes != [] && Plan(s.client.copy, response.changes) == Some(copy)
    ensures Behaviour(cfg, s, Update)
    ensures var after := After(cfg, s, Update);
      && after.service == s.service && after.client.copy == copy && after.client.phase.Idle?
      && after.client.synced && after.client.cursor == |s.service.store.log|
  {
    SyncAlone(cfg, Next(cfg, s, Accept));
    OneStep(cfg, s, Accept, Sync);
    assert [Accept] + Sync == Update;
  }

  /** What the feed reports when one active device was saved since. */
  lemma OneSavedChange(s: Store, device: Device, spec: Spec)
    requires device.name != "*" && spec.active
    ensures var after := Saved(s, device.name, Row(device, Some(spec)), Operation.Add);
      && !ResetAfter(after.log, |s.log|)
      && ChangesBetween(after.table, after.log, |s.log|, |after.log|) ==
         [Upsert(device.name, |s.log| + 1, Row(device, Some(spec)))]
  {
    var after := Saved(s, device.name, Row(device, Some(spec)), Operation.Add);
    assert after.log[|s.log|] == Entry(device.name, Operation.Add) && IsLatest(after.log, |s.log|);
    assert ChangesBetween(after.table, after.log, |s.log|, |s.log|) == [];
  }

  /** The behaviour of the next lemma up to the answer: one device is created and read. */
  function BeforeUpdate(device: Device, spec: Spec, epoch: string): seq<Action> {
    Open + AllServed(Restarts.CreateRun(device, spec, epoch)) + Read
  }

  lemma BeforeUpdateState(cfg: Protocol.Config, now: int, epoch: string, device: Device, spec: Spec)
    requires Protocol.ValidConfig(cfg) && device.name !in cfg.profile.devices
    requires device.name == spec.name && spec.active && device.name != "*"
    ensures Behaviour(cfg, Start(cfg, now, epoch), BeforeUpdate(device, spec, epoch))
    ensures var s := After(cfg, Start(cfg, now, epoch), BeforeUpdate(device, spec, epoch));
      && s.service.handler.Free? && s.service.mem.devices.Keys == cfg.profile.devices.Keys + {device.name}
      && s.client.copy == Listed(cfg.profile) && s.client.synced
      && s.client.phase.Answered?
      && var response := s.client.phase.response;
         && !response.reset && response.epoch == s.client.epoch
         && exists version :: response.changes == [Upsert(device.name, version, Row(device, Some(spec)))]
  {
    var s0 := Start(cfg, now, epoch);
    OpenAlone(cfg, now, epoch);
    var s1 := After(cfg, s0, Open);
    Restarts.CreateStores(cfg, s1.service, device, spec, epoch);
    ServiceAlone(cfg, s1, Restarts.CreateRun(device, spec, epoch));
    Joined(cfg, s0, Open, AllServed(Restarts.CreateRun(device, spec, epoch)));
    var s2 := After(cfg, s1, AllServed(Restarts.CreateRun(device, spec, epoch)));
    OneSavedChange(s1.service.store, device, spec);
    PollReads(cfg, s2);
    Joined(cfg, s0, Open + AllServed(Restarts.CreateRun(device, spec, epoch)), Read);
  }

  /**
   From the first start: a device created between the reading of an answer and the sync that
   follows its acceptance is in no copy and in no later answer.
   */
  lemma UpdateCanMiss(cfg: Protocol.Config, now: int, epoch: string, device: Device, spec: Spec, missed: Device,
      other: Spec)
    requires Protocol.ValidConfig(cfg) && device.name !in cfg.profile.devices && missed.name !in cfg.profile.devices
    requires device.name == spec.name && spec.active && device.name != "*"
    requires missed.name == other.name && other.active && missed.name != device.name
    ensures var actions :=
        BeforeUpdate(device, spec, epoch) + AllServed(Restarts.CreateRun(missed, other, epoch)) + Update;
      && Behaviour(cfg, Start(cfg, now, epoch), actions)
      && Stranded(After(cfg, Start(cfg, now, epoch), actions), missed.name)
  {
    var s0 := Start(cfg, now, epoch);
    BeforeUpdateState(cfg, now, epoch, device, spec);
    var s1 := After(cfg, s0, BeforeUpdate(device, spec, epoch));
    var create := Restarts.CreateRun(missed, other, epoch);
    Restarts.CreateStores(cfg, s1.service, missed, other, epoch);
    ServiceAlone(cfg, s1, create);
    Joined(cfg, s0, BeforeUpdate(device, spec, epoch), AllServed(create));
    var s2 := After(cfg, s1, AllServed(create));
    var copy := Listed(cfg.profile)[device.name := spec];
    OneUpsertPlan(Listed(cfg.profile), s2.client.phase.response.changes, device, spec);
    AcceptsAndSyncs(cfg, s2, copy);
    Joined(cfg, s0, BeforeUpdate(device, spec, epoch) + AllServed(create), Update);
    assert missed.name in Overlay(s2.service.store.table) && missed.name !in copy;
  }

  lemma OneUpsertPlan(copy: map<string, Spec>, changes: seq<Change>, device: Device, spec: Spec)
    requires spec.active && exists version :: changes == [Upsert(device.name, version, Row(device, Some(spec)))]
    ensures changes != [] && Plan(copy, changes) == Some(copy[device.name := spec])
  {
    assert changes[..0] == [];
  }

  /** The first steps of a clear: asked for, wiped, and seeded with nothing. */
  function ClearCommits(epoch: string): seq<Protocol.Action> {
    [Protocol.Clear, Protocol.Proceed(epoch), Protocol.Proceed(epoch)]
  }

  function RestOfClear(epoch: string): seq<Protocol.Action> {
    [Protocol.Proceed(epoch), Protocol.Proceed(epoch), Protocol.Proceed(epoch)]
  }

  lemma ClearsHalf(cfg: Protocol.Config, s: Protocol.System, epoch: string)
    requires Protocol.ValidConfig(cfg) && s.handler.Free?
    ensures Protocol.Behaviour(cfg, s, ClearCommits(epoch))
    ensures var after := Protocol.After(cfg, s, ClearCommits(epoch));
      && after.handler == Protocol.Reapplying(true) && after.mem == s.mem
      && after.store.table == map[] && after.store.log == s.store.log + [Entry("*", Reset)]
  {
    Recovery.ThreeSteps(cfg, s, Protocol.Clear, Protocol.Proceed(epoch), Protocol.Proceed(epoch));
    assert EntriesFor([], Seed) == [] && RowsFor(Empty, []) == map[];
  }

  lemma ClearsRest(cfg: Protocol.Config, s: Protocol.System, epoch: string)
    requires Protocol.ValidConfig(cfg) && s.handler == Protocol.Reapplying(true)
    ensures Protocol.Behaviour(cfg, s, RestOfClear(epoch))
    ensures var after := Protocol.After(cfg, s, RestOfClear(epoch));
      after.handler.Free? && after.store == s.store && after.mem.devices == map[]
  {
    Recovery.ThreeSteps(cfg, s, Protocol.Proceed(epoch), Protocol.Proceed(epoch), Protocol.Proceed(epoch));
  }

  /** Everything is counted, and the copy has a device the table does not. */
  lemma KeptIsStranded(s: System, name: string)
    requires s.client.synced && s.client.phase.Idle? && s.service.handler.Free?
    requires s.client.cursor == |s.service.store.log|
    requires name in s.client.copy && name !in s.service.store.table
    ensures Stranded(s, name)
  {
  }

  /** The behaviour of the next lemma up to its poll. */
  function BeforeClearPoll(epoch: string): seq<Action> {
    Open + AllServed(ClearCommits(epoch))
  }

  lemma BeforeClearPollState(cfg: Protocol.Config, now: int, epoch: string)
    requires Protocol.ValidConfig(cfg)
    ensures Behaviour(cfg, Start(cfg, now, epoch), BeforeClearPoll(epoch))
    ensures var s := After(cfg, Start(cfg, now, epoch), BeforeClearPoll(epoch));
      && s.client.phase.Idle? && s.client.synced && ResetSince(s)
      && s.service.handler == Protocol.Reapplying(true)
      && s.service.store.table == map[] && s.service.mem == cfg.profile
  {
    var s0 := Start(cfg, now, epoch);
    OpenAlone(cfg, now, epoch);
    var s1 := After(cfg, s0, Open);
    ClearsHalf(cfg, s1.service, epoch);
    ServiceAlone(cfg, s1, ClearCommits(epoch));
    Joined(cfg, s0, Open, AllServed(ClearCommits(epoch)));
    var s2 := After(cfg, s1, AllServed(ClearCommits(epoch)));
    assert s2.service.store.log[|s1.service.store.log|].op.Reset?;
  }

  /**
   From the first start: a client that polls between the commits of a clear and its publication
   keeps every active device of the profile for good.
   */
  lemma ClearCanBeMissed(cfg: Protocol.Config, now: int, epoch: string, name: string)
    requires Protocol.ValidConfig(cfg) && name in Listed(cfg.profile)
    ensures var actions := BeforeClearPoll(epoch) + Poll + AllServed(RestOfClear(epoch));
      && Behaviour(cfg, Start(cfg, now, epoch), actions)
      && var s := After(cfg, Start(cfg, now, epoch), actions);
         Stranded(s, name) && name in s.client.copy && name !in s.service.mem.devices
  {
    var s0 := Start(cfg, now, epoch);
    BeforeClearPollState(cfg, now, epoch);
    var s1 := After(cfg, s0, BeforeClearPoll(epoch));
    PollRefetches(cfg, s1);
    Joined(cfg, s0, BeforeClearPoll(epoch), Poll);
    var s2 := After(cfg, s1, Poll);
    ClearsRest(cfg, s2.service, epoch);
    ServiceAlone(cfg, s2, RestOfClear(epoch));
    Joined(cfg, s0, BeforeClearPoll(epoch) + Poll, AllServed(RestOfClear(epoch)));
    KeptIsStranded(After(cfg, s2, AllServed(RestOfClear(epoch))), name);
  }

  /** A reset that nothing interrupts publishes the profile, and leaves its wipe in the log. */
  lemma ResetCompletes(cfg: Protocol.Config, s: Protocol.System, epoch: string)
    requires Protocol.ValidConfig(cfg) && s.handler.Free?
    ensures Protocol.Behaviour(cfg, s, Operations.FullReset(epoch))
    ensures var after := Protocol.After(cfg, s, Operations.FullReset(epoch));
      && after.handler.Free? && after.locks.locks == map[]
      && after.mem.devices == cfg.profile.devices && after.mem.specs == cfg.profile.specs
      && after.store.table == RowsOf(cfg.profile)
      && |s.store.log| < |after.store.log| && after.store.log[|s.store.log|].op.Reset?
  {
    Operations.ResetTakesEffect(cfg, s, epoch);
  }

  function HalfDelete(name: string, epoch: string): seq<Protocol.Action> {
    [Protocol.Action.Delete(name), Protocol.Proceed(epoch)]
  }

  lemma DeletesHalf(cfg: Protocol.Config, s: Protocol.System, name: string, epoch: string)
    requires Protocol.ValidConfig(cfg) && s.handler.Free? && s.locks.locks == map[]
    requires name in s.mem.devices && name in s.store.table
    ensures Protocol.Behaviour(cfg, s, HalfDelete(name, epoch))
    ensures var after := Protocol.After(cfg, s, HalfDelete(name, epoch));
      && after.handler == Protocol.Dropping(name) && after.mem == s.mem
      && after.store.table == s.store.table - {name}
      && after.store.log == s.store.log + [Entry(name, Operation.Delete)]
  {
    var p := Protocol.Proceed(epoch);
    Recovery.OneStep(cfg, Protocol.Next(cfg, s, Protocol.Action.Delete(name)), p, []);
    Recovery.OneStep(cfg, s, Protocol.Action.Delete(name), [p]);
    assert [Protocol.Action.Delete(name)] + [p] == HalfDelete(name, epoch) && [p] + [] == [p];
  }

  lemma DeletesRest(cfg: Protocol.Config, s: Protocol.System, name: string, epoch: string)
    requires Protocol.ValidConfig(cfg) && s.handler == Protocol.Dropping(name)
    ensures Protocol.Behaviour(cfg, s, [Protocol.Proceed(epoch)])
    ensures var after := Protocol.After(cfg, s, [Protocol.Proceed(epoch)]);
      after.handler.Free? && after.store == s.store && name !in after.mem.devices
  {
    Recovery.OneStep(cfg, s, Protocol.Proceed(epoch), []);
    assert [Protocol.Proceed(epoch)] + [] == [Protocol.Proceed(epoch)];
  }

  /** The behaviour of the next lemma up to its poll. */
  function BeforeDeletePoll(name: string, epoch: string): seq<Action> {
    Open + AllServed(Operations.FullReset(epoch)) + AllServed(HalfDelete(name, epoch))
  }

  lemma BeforeDeletePollState(cfg: Protocol.Config, now: int, epoch: string, name: string)
    requires Protocol.ValidConfig(cfg) && name in Listed(cfg.profile)
    ensures Behaviour(cfg, Start(cfg, now, epoch), BeforeDeletePoll(name, epoch))
    ensures var s := After(cfg, Start(cfg, now, epoch), BeforeDeletePoll(name, epoch));
      && s.client.phase.Idle? && s.client.synced && ResetSince(s)
      && s.service.handler == Protocol.Dropping(name)
      && name !in s.service.store.table && name in Listed(s.service.mem)
  {
    var s0 := Start(cfg, now, epoch);
    OpenAlone(cfg, now, epoch);
    var s1 := After(cfg, s0, Open);
    ResetCompletes(cfg, s1.service, epoch);
    ServiceAlone(cfg, s1, Operations.FullReset(epoch));
    Joined(cfg, s0, Open, AllServed(Operations.FullReset(epoch)));
    var s2 := After(cfg, s1, AllServed(Operations.FullReset(epoch)));
    DeletesHalf(cfg, s2.service, name, epoch);
    ServiceAlone(cfg, s2, HalfDelete(name, epoch));
    Joined(cfg, s0, Open + AllServed(Operations.FullReset(epoch)), AllServed(HalfDelete(name, epoch)));
    var s3 := After(cfg, s2, AllServed(HalfDelete(name, epoch)));
    assert s3.service.store.log[|s1.service.store.log|].op.Reset?;
  }

  /**
   From the first start: a client that has a reset to hear of, and polls between the commit of a
   delete and its publication, keeps the deleted device for good.
   */
  lemma DeleteCanBeMissed(cfg: Protocol.Config, now: int, epoch: string, name: string)
    requires Protocol.ValidConfig(cfg) && name in Listed(cfg.profile)
    ensures var actions := BeforeDeletePoll(name, epoch) + Poll + AllServed([Protocol.Proceed(epoch)]);
      && Behaviour(cfg, Start(cfg, now, epoch), actions)
      && var s := After(cfg, Start(cfg, now, epoch), actions);
         Stranded(s, name) && name in s.client.copy && name !in s.service.mem.devices
  {
    var s0 := Start(cfg, now, epoch);
    BeforeDeletePollState(cfg, now, epoch, name);
    var s1 := After(cfg, s0, BeforeDeletePoll(name, epoch));
    PollRefetches(cfg, s1);
    Joined(cfg, s0, BeforeDeletePoll(name, epoch), Poll);
    var s2 := After(cfg, s1, Poll);
    DeletesRest(cfg, s2.service, name, epoch);
    ServiceAlone(cfg, s2, [Protocol.Proceed(epoch)]);
    Joined(cfg, s0, BeforeDeletePoll(name, epoch) + Poll, AllServed([Protocol.Proceed(epoch)]));
    KeptIsStranded(After(cfg, s2, AllServed([Protocol.Proceed(epoch)])), name);
  }
}
