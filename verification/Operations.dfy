/**
 What each registry operation of the service does from its request to its publication
 (configuration_service/main.py).

 The operation is alone in these behaviours; Protocol and Recovery say what else may happen
 between its steps.
 */
module Operations {
  import opened Models
  import opened DeviceRegistries
  import opened Locks
  import opened Stores
  import opened Protocol
  import opened Recovery

  /** The operation ran to its end: rows and log as given, memory holding the devices and specs given. */
  ghost predicate Finished(s: System, after: System, devices: map<string, Device>, specs: map<string, Spec>) {
    && after.handler.Free? && WellFormed(after.mem)
    && after.mem.devices == devices && after.mem.specs == specs && after.mem.standalone == s.mem.standalone
    && after.pvTable == s.pvTable && after.locks == s.locks && after.now == s.now && after.updates == s.updates
    && after.store.seeded == s.store.seeded
  }

  function Run(a: Action, epoch: string): seq<Action> {
    [a, Proceed(epoch), Proceed(epoch)]
  }

  /** Of a handler that saves, the row is stored and logged, then memory is changed, and nothing else. */
  lemma SavesAndApplies(cfg: Config, s: System, a: Action, device: Device, spec: Option<Spec>, op: Operation,
    epoch: string)
    requires ValidConfig(cfg) && s.handler.Free? && Enabled(cfg, s, a)
    requires Next(cfg, s, a) == s.(handler := Saving(device, spec, op))
    ensures Behaviour(cfg, s, Run(a, epoch))
    ensures After(cfg, s, Run(a, epoch)) ==
            s.(mem := Target(s.mem, device, spec, op), store := Saved(s.store, device.name, Row(device, spec), op))
  {
    ThreeSteps(cfg, s, a, Proceed(epoch), Proceed(epoch));
  }

  // ---------------------------------------------------------------------------
  // Create
  // ---------------------------------------------------------------------------

  /** A create stores, logs and publishes the device and the spec it was sent, after the ones already there. */
  lemma CreateTakesEffect(cfg: Config, s: System, device: Device, spec: Spec, epoch: string)
    requires ValidConfig(cfg) && Safe(s) && s.handler.Free?
    requires device.name == spec.name && device.name !in s.mem.devices
    ensures Behaviour(cfg, s, Run(Create(device, spec), epoch))
    ensures var after := After(cfg, s, Run(Create(device, spec), epoch));
      && Finished(s, after, s.mem.devices[device.name := device], s.mem.specs[device.name := spec])
      && after.mem.order == s.mem.order + [device.name]
      && after.store.table == s.store.table[device.name := Row(device, Some(spec))]
      && after.store.log == s.store.log + [Entry(device.name, Operation.Add)]
  {
    SavesAndApplies(cfg, s, Create(device, spec), device, Some(spec), Operation.Add, epoch);
    AddFreshKeeps(s.mem, device, Some(spec));
  }

  /** It is refused, and then changes nothing, exactly when the name is registered. */
  lemma CreateRefusedIff(cfg: Config, s: System, device: Device, spec: Spec)
    requires ValidConfig(cfg) && s.handler.Free? && device.name == spec.name
    ensures Next(cfg, s, Create(device, spec)) == s <==> device.name in s.mem.devices
    ensures device.name !in s.mem.devices ==> Next(cfg, s, Create(device, spec)).handler.Saving?
  {
  }

  // ---------------------------------------------------------------------------
  // Update
  // ---------------------------------------------------------------------------

  /** The specs after an update: the one sent, if any, takes the place of the old one. */
  function SpecsUpdated(specs: map<string, Spec>, name: string, sent: Option<Spec>): map<string, Spec> {
    match sent
    case Some(spec) => specs[name := spec]
    case None => specs
  }

  /** An update stores, logs and publishes the metadata and the spec it was sent; without one the old spec stays. */
  lemma UpdateTakesEffect(cfg: Config, s: System, device: Device, sent: Option<Spec>, epoch: string)
    requires ValidConfig(cfg) && Safe(s) && s.handler.Free?
    requires device.name in s.mem.devices && !Active(s.locks.locks, device.name, s.now)
    ensures Behaviour(cfg, s, Run(Action.Update(device, sent), epoch))
    ensures var after := After(cfg, s, Run(Action.Update(device, sent), epoch));
      && var specs := SpecsUpdated(s.mem.specs, device.name, sent);
      && Finished(s, after, s.mem.devices[device.name := device], specs)
      && after.mem.order == s.mem.order
      && after.store.table == s.store.table[device.name := Row(device, SpecOf(specs, device.name))]
      && after.store.log == s.store.log + [Entry(device.name, Operation.Update)]
  {
    var spec := if sent.Some? then sent else SpecOf(s.mem.specs, device.name);
    SavesAndApplies(cfg, s, Action.Update(device, sent), device, spec, Operation.Update, epoch);
    UpdatedSays(s.mem, device, sent);
  }

  lemma UpdatedSays(mem: Registry, device: Device, sent: Option<Spec>)
    requires WellFormed(mem) && device.name in mem.devices
    ensures var after := Updated(mem, device, if sent.Some? then sent else SpecOf(mem.specs, device.name));
      && WellFormed(after) && after.order == mem.order && after.standalone == mem.standalone
      && after.devices == mem.devices[device.name := device]
      && after.specs == SpecsUpdated(mem.specs, device.name, sent)
  {
    var spec := if sent.Some? then sent else SpecOf(mem.specs, device.name);
    UpdateKeeps(mem, device, spec);
    TargetContents(mem, device, spec, Operation.Update);
  }

  /** It is refused, and then changes nothing, exactly when the name is unknown or a live lock is on it. */
  lemma UpdateRefusedIff(cfg: Config, s: System, device: Device, sent: Option<Spec>)
    requires ValidConfig(cfg) && s.handler.Free?
    ensures Next(cfg, s, Action.Update(device, sent)) == s <==>
            device.name !in s.mem.devices || Active(s.locks.locks, device.name, s.now)
    ensures Next(cfg, s, Action.Update(device, sent)).handler.Free? <==> Next(cfg, s, Action.Update(device, sent)) == s
  {
  }

  // ---------------------------------------------------------------------------
  // Enable and disable
  // ---------------------------------------------------------------------------

  /** Enabling and disabling set the flag of the spec, and nothing else of it. */
  lemma SetActiveTakesEffect(cfg: Config, s: System, name: string, active: bool, epoch: string)
    requires ValidConfig(cfg) && Safe(s) && s.handler.Free?
    requires name in s.mem.specs && s.mem.specs[name].active != active
    ensures Behaviour(cfg, s, Run(SetActive(name, active), epoch))
    ensures var after := After(cfg, s, Run(SetActive(name, active), epoch));
      && name in after.mem.specs && after.mem.specs[name].active == active
      && after.mem.specs[name] == s.mem.specs[name].(active := active)
      && Finished(s, after, s.mem.devices, s.mem.specs[name := after.mem.specs[name]])
      && after.mem.order == s.mem.order
      && after.store.table == s.store.table[name := Row(s.mem.devices[name], Some(after.mem.specs[name]))]
      && after.store.log == s.store.log + [Entry(name, if active then Enable else Disable)]
  {
    var spec := s.mem.specs[name].(active := active);
    ToggledSays(s.mem, name, spec);
    var op := if active then Enable else Disable;
    SavesAndApplies(cfg, s, SetActive(name, active), s.mem.devices[name], Some(spec), op, epoch);
  }

  lemma ToggledSays(mem: Registry, name: string, spec: Spec)
    requires WellFormed(mem) && name in mem.specs
    ensures name in mem.devices && mem.devices[name].name == name
    ensures var after := Updated(mem, mem.devices[name], Some(spec));
      && WellFormed(after) && after.order == mem.order && after.standalone == mem.standalone
      && after.devices == mem.devices && after.specs == mem.specs[name := spec]
  {
    UpdatedSays(mem, mem.devices[name], Some(spec));
    assert mem.devices[name := mem.devices[name]] == mem.devices;
  }

  /** There is nothing to do exactly when the device or its spec is unknown, or the flag is as asked for. */
  lemma SetActiveIdleIff(cfg: Config, s: System, name: string, active: bool)
    requires ValidConfig(cfg) && Safe(s) && s.handler.Free?
    ensures Next(cfg, s, SetActive(name, active)) == s <==>
            name !in s.mem.specs || s.mem.specs[name].active == active
  {
  }

  // ---------------------------------------------------------------------------
  // Delete
  // ---------------------------------------------------------------------------

  lemma DeleteTakesEffect(cfg: Config, s: System, name: string, epoch: string)
    requires ValidConfig(cfg) && Safe(s) && s.handler.Free?
    requires name in s.mem.devices && name in s.store.table && !Active(s.locks.locks, name, s.now)
    ensures Behaviour(cfg, s, Run(Action.Delete(name), epoch))
    ensures var after := After(cfg, s, Run(Action.Delete(name), epoch));
      && Finished(s, after, s.mem.devices - {name}, s.mem.specs - {name})
      && after.store.table == s.store.table - {name}
      && after.store.log == s.store.log + [Entry(name, Operation.Delete)]
  {
    ThreeSteps(cfg, s, Action.Delete(name), Proceed(epoch), Proceed(epoch));
    RemoveKeeps(s.mem, name);
  }

  lemma DeleteRefusedIff(cfg: Config, s: System, name: string)
    requires ValidConfig(cfg) && s.handler.Free?
    ensures Next(cfg, s, Action.Delete(name)) == s <==>
            name !in s.mem.devices || Active(s.locks.locks, name, s.now)
  {
  }

  // ---------------------------------------------------------------------------
  // Standalone PVs
  // ---------------------------------------------------------------------------

  /** The operation ran to its end: only the standalone PVs and the index of memory changed. */
  ghost predicate PvFinished(s: System, after: System, pvs: set<string>) {
    && after == s.(mem := after.mem, pvTable := pvs)
    && WellFormed(after.mem) && after.mem == s.mem.(standalone := after.mem.standalone, index := after.mem.index)
  }

  function PvRun(a: Action, epoch: string): seq<Action> {
    [a, Proceed(epoch), Proceed(epoch), Proceed(epoch)]
  }

  lemma CreatePvTakesEffect(cfg: Config, s: System, pv: string, epoch: string)
    requires ValidConfig(cfg) && Safe(s) && s.handler.Free? && pv !in s.mem.index && pv !in s.pvTable
    ensures Behaviour(cfg, s, PvRun(CreatePv(pv), epoch))
    ensures var after := After(cfg, s, PvRun(CreatePv(pv), epoch));
      && PvFinished(s, after, s.pvTable + {pv}) && after.mem.standalone == s.mem.standalone + {pv}
      && pv in after.mem.index && after.mem.index[pv].Unowned?
  {
    FourSteps(cfg, s, CreatePv(pv), Proceed(epoch), Proceed(epoch), Proceed(epoch));
    StandaloneKeeps(s.mem, pv);
  }

  /** Refused, without effect, when the PV is indexed or stored; the first is found out before the first await. */
  lemma CreatePvRefusedIff(cfg: Config, s: System, pv: string, epoch: string)
    requires ValidConfig(cfg) && s.handler.Free?
    ensures Next(cfg, s, CreatePv(pv)) == s <==> pv in s.mem.index
    ensures pv !in s.mem.index ==>
            (Proceeded(cfg, Next(cfg, s, CreatePv(pv)), epoch) == s <==> pv in s.pvTable)
  {
  }

  /** A PV that a device lists stays indexed, under its owner. */
  lemma DeletePvTakesEffect(cfg: Config, s: System, pv: string, epoch: string)
    requires ValidConfig(cfg) && Safe(s) && s.handler.Free? && pv in s.pvTable
    ensures Behaviour(cfg, s, PvRun(DeletePv(pv), epoch))
    ensures var after := After(cfg, s, PvRun(DeletePv(pv), epoch));
      && PvFinished(s, after, s.pvTable - {pv}) && after.mem.standalone == s.mem.standalone - {pv}
      && (pv in after.mem.index <==> ListedBySome(s.mem.devices, pv))
  {
    FourSteps(cfg, s, DeletePv(pv), Proceed(epoch), Proceed(epoch), Proceed(epoch));
    DroppedPvSays(s.mem, pv);
  }

  lemma DroppedPvSays(mem: Registry, pv: string)
    requires WellFormed(mem)
    ensures var after := WithoutStandalone(mem, pv);
      && WellFormed(after) && after == mem.(standalone := mem.standalone - {pv}, index := after.index)
      && (pv in after.index <==> ListedBySome(mem.devices, pv))
  {
    StandaloneKeeps(mem, pv);
  }

  lemma DeletePvRefusedIff(cfg: Config, s: System, pv: string, epoch: string)
    requires ValidConfig(cfg) && s.handler.Free?
    ensures Proceeded(cfg, Next(cfg, s, DeletePv(pv)), epoch) == s <==> pv !in s.pvTable
  {
  }

  // ---------------------------------------------------------------------------
  // Reset and restart
  // ---------------------------------------------------------------------------

  function FullReset(epoch: string): seq<Action> {
    [Action.Reset, Proceed(epoch), Proceed(epoch)] + [Proceed(epoch), Proceed(epoch), Proceed(epoch), Proceed(epoch)]
  }

  function FullClear(epoch: string): seq<Action> {
    [Clear, Proceed(epoch), Proceed(epoch)] + [Proceed(epoch), Proceed(epoch), Proceed(epoch)]
  }

  /**
   A reset publishes the profile with the stored standalone PVs, stores its rows under a new
   epoch after a logged wipe, and drops every lock.
   */
  lemma ResetTakesEffect(cfg: Config, s: System, epoch: string)
    requires ValidConfig(cfg) && s.handler.Free?
    ensures Behaviour(cfg, s, FullReset(epoch))
    ensures var after := After(cfg, s, FullReset(epoch));
      && after.handler.Free? && after.locks == Cleared(s.locks)
      && after.mem == WithAllStandalone(cfg.profile, s.pvTable) && after.pvTable == s.pvTable
      && after.store == Store(RowsOf(cfg.profile),
           s.store.log + [Entry("*", Operation.Reset)] + EntriesFor(cfg.profile.order, Seed), Some(epoch))
  {
    var p := Proceed(epoch);
    ThreeSteps(cfg, s, Action.Reset, p, p);
    var wiped := After(cfg, s, [Action.Reset, p, p]);
    assert wiped.handler == Seeding(false) && wiped.store.table == map[];
    assert wiped.store.log == s.store.log + [Entry("*", Operation.Reset)];
    RowsOfSeeded(cfg.profile);
    assert !Collides(wiped.store.table, cfg.profile.order);
    FourSteps(cfg, wiped, p, p, p, p);
    Joined(cfg, s, [Action.Reset, p, p], [p, p, p, p]);
  }

  /** A clear does the same with an empty registry; no rows are stored, but the table counts as seeded. */
  lemma ClearTakesEffect(cfg: Config, s: System, epoch: string)
    requires ValidConfig(cfg) && s.handler.Free?
    ensures Behaviour(cfg, s, FullClear(epoch))
    ensures var after := After(cfg, s, FullClear(epoch));
      && after.handler.Free? && after.locks == Cleared(s.locks)
      && after.mem == WithAllStandalone(Empty, s.pvTable) && after.pvTable == s.pvTable
      && after.store == Store(map[], s.store.log + [Entry("*", Operation.Reset)], Some(epoch))
  {
    var p := Proceed(epoch);
    ThreeSteps(cfg, s, Clear, p, p);
    var seeded := After(cfg, s, [Clear, p, p]);
    assert seeded.store == Store(map[], s.store.log + [Entry("*", Operation.Reset)], Some(epoch));
    ThreeSteps(cfg, seeded, p, p, p);
    Joined(cfg, s, [Clear, p, p], [p, p, p]);
  }

  /** A handler whose first await fails has changed nothing. */
  lemma FirstFailureChangesNothing(cfg: Config, s: System, a: Action)
    requires ValidConfig(cfg) && s.handler.Free? && Enabled(cfg, s, a) && !Next(cfg, s, a).handler.Free?
    ensures Enabled(cfg, Next(cfg, s, a), Fail) && Next(cfg, Next(cfg, s, a), Fail) == s
  {
  }

  /**
   After a restart nothing is locked, the policy and the lease time are the configured ones and
   no handler is under way.
   */
  lemma RestartBeginsAnew(cfg: Config, s: System, names: seq<string>, epoch: string)
    requires ValidConfig(cfg) && Enabled(cfg, s, Crash(names, epoch))
    ensures var after := Next(cfg, s, Crash(names, epoch));
      && after.locks == Table(map[], 0, cfg.lockAll, cfg.leaseTtl)
      && after.handler.Free? && after.updates == {} && after.pvTable == s.pvTable && after.now == s.now
      && (s.store.seeded.Some? ==> after.store == s.store)
      && (s.store.seeded.None? ==> after.store.seeded == Some(epoch) && after.mem.devices == cfg.profile.devices)
  {
  }
}
