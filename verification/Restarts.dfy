/**
 What a crash followed by a restart recovers, and when a restart fails
 (configuration_service/main.py with device_registry_store.py).
 */
module Restarts {
  import opened Models
  import opened DeviceRegistries
  import opened Stores
  import opened Locks
  import opened Protocol
  import opened Recovery

  /** The registry the handler publishes if everything it awaits succeeds. */
  function Outcome(cfg: Config, s: System): Registry {
    match s.handler
    case Free => s.mem
    case Saving(device, spec, op) => Target(s.mem, device, spec, op)
    case Applying(device, spec, op) => Target(s.mem, device, spec, op)
    case DeletingRow(name) => Removed(s.mem, name)
    case Dropping(name) => Removed(s.mem, name)
    case LoadingProfile => WithAllStandalone(cfg.profile, s.pvTable)
    case Wiping(clear) => WithAllStandalone(Base(cfg, clear), s.pvTable)
    case Seeding(clear) => WithAllStandalone(Base(cfg, clear), s.pvTable)
    case Reapplying(clear) => WithAllStandalone(Base(cfg, clear), s.pvTable)
    case ClearingLocks(next) => next
    case Publishing(next) => next
    case PvChecking(pv) => if pv in s.pvTable then s.mem else WithStandalone(s.mem, pv)
    case PvSaving(pv) => WithStandalone(s.mem, pv)
    case PvAdding(pv) => WithStandalone(s.mem, pv)
    case PvFinding(pv) => if pv in s.pvTable then WithoutStandalone(s.mem, pv) else s.mem
    case PvDeleting(pv) => WithoutStandalone(s.mem, pv)
    case PvDropping(pv) => WithoutStandalone(s.mem, pv)
  }

  lemma DeviceStepKeepsOutcome(cfg: Config, s: System, epoch: string)
    requires ValidConfig(cfg)
    requires s.handler.Saving? || s.handler.Applying? || s.handler.DeletingRow? || s.handler.Dropping?
    ensures Outcome(cfg, Proceeded(cfg, s, epoch)) == Outcome(cfg, s)
    ensures Proceeded(cfg, s, epoch).handler.Free? ==> Proceeded(cfg, s, epoch).mem == Outcome(cfg, s)
  {
  }

  lemma PvStepKeepsOutcome(cfg: Config, s: System, epoch: string)
    requires ValidConfig(cfg)
    requires s.handler.PvChecking? || s.handler.PvSaving? || s.handler.PvAdding?
          || s.handler.PvFinding? || s.handler.PvDeleting? || s.handler.PvDropping?
    ensures Outcome(cfg, Proceeded(cfg, s, epoch)) == Outcome(cfg, s)
    ensures Proceeded(cfg, s, epoch).handler.Free? ==> Proceeded(cfg, s, epoch).mem == Outcome(cfg, s)
  {
  }

  lemma ResetStepKeepsOutcome(cfg: Config, s: System, epoch: string)
    requires ValidConfig(cfg) && RowsInStep(cfg, s)
    requires s.handler.LoadingProfile? || s.handler.Wiping? || s.handler.Seeding? || s.handler.Reapplying?
          || s.handler.ClearingLocks? || s.handler.Publishing?
    ensures Outcome(cfg, Proceeded(cfg, s, epoch)) == Outcome(cfg, s)
    ensures Proceeded(cfg, s, epoch).handler.Free? ==> Proceeded(cfg, s, epoch).mem == Outcome(cfg, s)
  {
    if s.handler.Seeding? {
      assert !Collides(s.store.table, Base(cfg, s.handler.clear).order);
    }
  }

  /** Each successful step keeps the outcome, and the last one publishes it. */
  lemma ProceedKeepsOutcome(cfg: Config, s: System, epoch: string)
    requires ValidConfig(cfg) && RowsInStep(cfg, s) && !s.handler.Free?
    ensures Outcome(cfg, Proceeded(cfg, s, epoch)) == Outcome(cfg, s)
    ensures Proceeded(cfg, s, epoch).handler.Free? ==> Proceeded(cfg, s, epoch).mem == Outcome(cfg, s)
  {
    if s.handler.Saving? || s.handler.Applying? || s.handler.DeletingRow? || s.handler.Dropping? {
      DeviceStepKeepsOutcome(cfg, s, epoch);
    } else if s.handler.PvChecking? || s.handler.PvSaving? || s.handler.PvAdding?
              || s.handler.PvFinding? || s.handler.PvDeleting? || s.handler.PvDropping? {
      PvStepKeepsOutcome(cfg, s, epoch);
    } else {
      ResetStepKeepsOutcome(cfg, s, epoch);
    }
  }

  /** The handler's row writes are still ahead of it. */
  predicate NothingWritten(h: Handler) {
    || h.Free? || h.Saving? || h.DeletingRow? || h.LoadingProfile? || h.Wiping?
    || h.PvChecking? || h.PvSaving? || h.PvFinding? || h.PvDeleting?
  }

  lemma OutcomeWellFormed(cfg: Config, s: System)
    requires ValidConfig(cfg) && Safe(s) && InStep(cfg, s)
    requires !NothingWritten(s.handler) && !s.handler.Seeding?
    ensures WellFormed(Outcome(cfg, s))
  {
    match s.handler {
      case Applying(device, spec, op) => TargetKeeps(s.mem, device, spec, op);
      case Dropping(name) => RemoveKeeps(s.mem, name);
      case Reapplying(clear) =>
        BaseWellFormed(cfg, clear);
        AllStandaloneKeeps(Base(cfg, clear), s.pvTable);
      case PvAdding(pv) => StandaloneKeeps(s.mem, pv);
      case PvDropping(pv) => StandaloneKeeps(s.mem, pv);
      case _ =>
    }
  }

  lemma OutcomeStored(cfg: Config, s: System)
    requires ValidConfig(cfg) && Safe(s) && InStep(cfg, s)
    requires !NothingWritten(s.handler) && !s.handler.Seeding?
    ensures s.store.seeded.Some? && s.store.table == RowsOf(Outcome(cfg, s)) && s.pvTable == Outcome(cfg, s).standalone
  {
    RowsAtCrash(cfg, s);
    match s.handler {
      case Reapplying(clear) => BaseWellFormed(cfg, clear);
      case _ =>
    }
  }

  /**
   A crash at any point of any handler, followed by a restart, gives the registry from before
   the operation or the one it would have published, up to the owner of shared PVs. The one
   exception is a clear between its two transactions: the database is then unseeded, and the
   restart loads the profile.
   */
  lemma CrashIsAtomic(cfg: Config, s: System, names: seq<string>, epoch: string)
    requires ValidConfig(cfg) && Safe(s) && InStep(cfg, s) && Enabled(cfg, s, Crash(names, epoch))
    ensures var restarted := Next(cfg, s, Crash(names, epoch)).mem;
      if NothingWritten(s.handler) then SameView(restarted, s.mem)
      else if s.handler == Seeding(true) then restarted == WithAllStandalone(cfg.profile, s.pvTable)
      else SameView(restarted, Outcome(cfg, s))
  {
    if NothingWritten(s.handler) {
      LoadGivesView(s.store, s.pvTable, s.mem, names);
    } else if s.handler.Seeding? {
      AllStandaloneKeeps(cfg.profile, s.pvTable);
      SameContentsSameView(WithAllStandalone(cfg.profile, s.pvTable), WithAllStandalone(cfg.profile, s.pvTable));
    } else {
      OutcomeWellFormed(cfg, s);
      OutcomeStored(cfg, s);
      LoadGivesView(s.store, s.pvTable, Outcome(cfg, s), names);
    }
  }

  /** The handler of `s` is still under way through all of `actions`, and nothing fails or crashes. */
  ghost predicate UnderWay(cfg: Config, s: System, actions: seq<Action>)
    requires ValidConfig(cfg) && Behaviour(cfg, s, actions)
    decreases |actions|
  {
    && !s.handler.Free?
    && (actions == [] ||
        (&& !actions[0].Fail? && !actions[0].Crash? && !Resurrects(s, actions[0])
         && UnderWay(cfg, Next(cfg, s, actions[0]), actions[1..])))
  }

  lemma StepKeepsOutcome(cfg: Config, s: System, a: Action)
    requires ValidConfig(cfg) && InStep(cfg, s) && Enabled(cfg, s, a)
    requires !s.handler.Free? && !Next(cfg, s, a).handler.Free?
    requires !a.Fail? && !a.Crash? && !Resurrects(s, a)
    ensures Next(cfg, s, a).mem == s.mem && Outcome(cfg, Next(cfg, s, a)) == Outcome(cfg, s)
  {
    if a.Proceed? {
      ProceedKeepsOutcome(cfg, s, a.epoch);
    } else if a.WritePv? {
      assert s.pvTable + {a.pv} == s.pvTable;
    }
  }

  /**
   Until it publishes, an operation leaves memory alone, and what it will publish stays the same
   whatever interleaves.
   */
  lemma {:induction false} UnderWayKeeps(cfg: Config, s: System, actions: seq<Action>)
    requires ValidConfig(cfg) && Safe(s) && RowsNamed(s) && InStep(cfg, s)
    requires Behaviour(cfg, s, actions) && UnderWay(cfg, s, actions)
    ensures var after := After(cfg, s, actions);
      && Safe(after) && InStep(cfg, after) && !after.handler.Free?
      && after.mem == s.mem && Outcome(cfg, after) == Outcome(cfg, s)
    decreases |actions|
  {
    if actions != [] {
      NextKeepsSafe(cfg, s, actions[0]);
      NextKeepsRowsNamed(cfg, s, actions[0]);
      NextInStepIff(cfg, s, actions[0]);
      StepKeepsOutcome(cfg, s, actions[0]);
      UnderWayKeeps(cfg, Next(cfg, s, actions[0]), actions[1..]);
    }
  }

  /**
   An operation that began in `s` and crashes later, with lock calls, time and standalone-PV
   updates interleaved, restarts with the registry from before it began or the one it would
   have published, unless it is a clear between its two transactions.
   */
  lemma OperationIsAtomic(cfg: Config, s: System, actions: seq<Action>, names: seq<string>, epoch: string)
    requires ValidConfig(cfg) && Safe(s) && RowsNamed(s) && InStep(cfg, s)
    requires Behaviour(cfg, s, actions) && UnderWay(cfg, s, actions)
    requires Enabled(cfg, After(cfg, s, actions), Crash(names, epoch))
    ensures var crashed := After(cfg, s, actions);
      var restarted := Next(cfg, crashed, Crash(names, epoch)).mem;
      || SameView(restarted, s.mem)
      || SameView(restarted, Outcome(cfg, s))
      || crashed.handler == Seeding(true)
  {
    UnderWayKeeps(cfg, s, actions);
    CrashIsAtomic(cfg, After(cfg, s, actions), names, epoch);
  }

  /** The handler of `s` is still under way through all of `actions`, resurrecting writes included. */
  ghost predicate StillBusy(cfg: Config, s: System, actions: seq<Action>)
    requires ValidConfig(cfg) && Behaviour(cfg, s, actions)
    decreases |actions|
  {
    && !s.handler.Free?
    && (actions == [] ||
        (!actions[0].Fail? && !actions[0].Crash? && StillBusy(cfg, Next(cfg, s, actions[0]), actions[1..])))
  }

  predicate SameDevices(a: Registry, b: Registry) {
    a.devices == b.devices && a.specs == b.specs
  }

  lemma StepKeepsDevices(cfg: Config, s: System, a: Action)
    requires ValidConfig(cfg) && RowsInStep(cfg, s) && Enabled(cfg, s, a)
    requires !s.handler.Free? && !Next(cfg, s, a).handler.Free? && !a.Fail? && !a.Crash?
    ensures Next(cfg, s, a).mem == s.mem && SameDevices(Outcome(cfg, Next(cfg, s, a)), Outcome(cfg, s))
  {
    if a.Proceed? {
      ProceedKeepsOutcome(cfg, s, a.epoch);
    }
  }

  lemma {:induction false} StillBusyKeeps(cfg: Config, s: System, actions: seq<Action>)
    requires ValidConfig(cfg) && Safe(s) && RowsNamed(s) && RowsInStep(cfg, s)
    requires Behaviour(cfg, s, actions) && StillBusy(cfg, s, actions)
    ensures var after := After(cfg, s, actions);
      && Safe(after) && RowsNamed(after) && RowsInStep(cfg, after) && !after.handler.Free?
      && after.mem == s.mem && SameDevices(Outcome(cfg, after), Outcome(cfg, s))
    decreases |actions|
  {
    if actions != [] {
      NextKeepsSafe(cfg, s, actions[0]);
      NextKeepsRowsNamed(cfg, s, actions[0]);
      NextRowsIff(cfg, s, actions[0]);
      StepKeepsDevices(cfg, s, actions[0]);
      StillBusyKeeps(cfg, Next(cfg, s, actions[0]), actions[1..]);
    }
  }

  /** What the rows say at a crash: the devices from before, or the ones to be published. */
  lemma RowsAtCrash(cfg: Config, s: System)
    requires ValidConfig(cfg) && Safe(s) && RowsInStep(cfg, s) && !s.handler.Seeding?
    ensures s.store.seeded.Some?
    ensures s.store.table == RowsOf(if NothingWritten(s.handler) then s.mem else Outcome(cfg, s))
  {
    match s.handler {
      case Applying(device, spec, op) => RowsOfTarget(s.mem, device, spec, op);
      case Dropping(name) => RowsOfRemoved(s.mem, name);
      case Reapplying(clear) => RowsOfSameContents(Base(cfg, clear), Outcome(cfg, s));
      case PvAdding(pv) => RowsOfSameContents(s.mem, WithStandalone(s.mem, pv));
      case PvDropping(pv) => RowsOfSameContents(s.mem, WithoutStandalone(s.mem, pv));
      case _ =>
    }
  }

  lemma SameRowsSameDevices(a: Registry, b: Registry)
    requires a.specs.Keys <= a.devices.Keys && b.specs.Keys <= b.devices.Keys && RowsOf(a) == RowsOf(b)
    ensures SameDevices(a, b)
  {
    assert a.devices.Keys == RowsOf(a).Keys && b.devices.Keys == RowsOf(b).Keys;
    assert forall n :: n in a.devices ==> RowsOf(a)[n] == RowsOf(b)[n];
    assert forall n :: n in a.specs ==> n in a.devices;
    assert forall n :: n in b.specs ==> n in b.devices;
    forall n
      ensures n in a.specs <==> n in b.specs
      ensures n in a.specs ==> a.specs[n] == b.specs[n]
    {
      if n in a.devices {
        assert RowOf(a, n) == RowsOf(a)[n] && RowOf(b, n) == RowsOf(b)[n];
      }
    }
  }

  lemma OutcomeSpecsBacked(cfg: Config, s: System)
    requires ValidConfig(cfg) && Safe(s) && !NothingWritten(s.handler) && !s.handler.Seeding?
    ensures Outcome(cfg, s).specs.Keys <= Outcome(cfg, s).devices.Keys
  {
    match s.handler {
      case Applying(device, spec, op) => TargetKeeps(s.mem, device, spec, op);
      case Dropping(name) => RemoveKeeps(s.mem, name);
      case _ =>
    }
  }

  /**
   With resurrecting standalone writes interleaved as well: the restarted registry is well-formed,
   has the devices and specs from before the operation or the ones it would have published, and
   lists exactly the standalone PVs stored at the crash. The exception is the same.
   */
  lemma DevicesAreAtomic(cfg: Config, s: System, actions: seq<Action>, names: seq<string>, epoch: string)
    requires ValidConfig(cfg) && Safe(s) && RowsNamed(s) && RowsInStep(cfg, s)
    requires Behaviour(cfg, s, actions) && StillBusy(cfg, s, actions)
    requires Enabled(cfg, After(cfg, s, actions), Crash(names, epoch))
    ensures var crashed := After(cfg, s, actions);
      var restarted := Next(cfg, crashed, Crash(names, epoch)).mem;
      && WellFormed(restarted) && restarted.standalone == crashed.pvTable
      && (SameDevices(restarted, s.mem) || SameDevices(restarted, Outcome(cfg, s)) || crashed.handler == Seeding(true))
  {
    StillBusyKeeps(cfg, s, actions);
    RestartedDevices(cfg, After(cfg, s, actions), names, epoch);
  }

  lemma RestartedDevices(cfg: Config, s: System, names: seq<string>, epoch: string)
    requires ValidConfig(cfg) && Safe(s) && RowsNamed(s) && RowsInStep(cfg, s) && Enabled(cfg, s, Crash(names, epoch))
    ensures var restarted := Next(cfg, s, Crash(names, epoch)).mem;
      && WellFormed(restarted) && restarted.standalone == s.pvTable
      && (SameDevices(restarted, s.mem) || SameDevices(restarted, Outcome(cfg, s)) || s.handler == Seeding(true))
  {
    var restarted := Next(cfg, s, Crash(names, epoch)).mem;
    CrashKeepsSafe(cfg, s, names, epoch);
    if s.handler.Seeding? {
      assert restarted == WithAllStandalone(cfg.profile, s.pvTable);
    } else {
      RowsAtCrash(cfg, s);
      LoadedRows(s.store.table, s.pvTable, names);
      if !NothingWritten(s.handler) {
        OutcomeSpecsBacked(cfg, s);
      }
      SameRowsSameDevices(restarted, if NothingWritten(s.handler) then s.mem else Outcome(cfg, s));
    }
  }

  /** A restart never fails from such a state: seeding is needed only when the table is empty. */
  lemma RestartSucceeds(cfg: Config, s: System, names: seq<string>, epoch: string)
    requires ValidConfig(cfg) && RowsInStep(cfg, s) && Enumerates(names, s.store.table)
    ensures Enabled(cfg, s, Crash(names, epoch))
  {
    if s.store.seeded.None? {
      assert !Collides(s.store.table, cfg.profile.order);
    }
  }

  /** A startup fails exactly when it has to seed and a stored row bears a name of the profile. */
  lemma RestartFailsIff(cfg: Config, s: System, names: seq<string>, epoch: string)
    requires ValidConfig(cfg) && Enumerates(names, s.store.table)
    ensures Restarted(cfg, s.store, s.pvTable, names, epoch).None? <==>
            s.store.seeded.None? && exists n :: n in s.store.table && n in cfg.profile.devices
  {
    if n :| n in s.store.table && n in cfg.profile.devices {
      assert n in cfg.profile.order;
    }
  }

  /**
   What a run has left in an unseeded table: whether the last wipe is without a successful seed
   or restart since, and the devices saved after it and not deleted since.
   */
  datatype Ledger = Ledger(unseeded: bool, saved: set<string>)

  function Noted(cfg: Config, s: System, a: Action, l: Ledger): Ledger {
    if a.Crash? then Ledger(false, {})
    else if !a.Proceed? then l
    else match s.handler
      case Wiping(_) => Ledger(true, {})
      case Seeding(_) => Ledger(false, {})
      case Saving(device, _, _) => if l.unseeded then l.(saved := l.saved + {device.name}) else l
      case DeletingRow(name) => l.(saved := l.saved - {name})
      case _ => l
  }

  ghost function LedgerAfter(cfg: Config, s: System, actions: seq<Action>, l: Ledger): Ledger
    requires ValidConfig(cfg) && Behaviour(cfg, s, actions)
    decreases |actions|
  {
    if actions == [] then l
    else LedgerAfter(cfg, Next(cfg, s, actions[0]), actions[1..], Noted(cfg, s, actions[0], l))
  }

  predicate LedgerRight(s: System, l: Ledger) {
    && (l.unseeded <==> s.store.seeded.None?)
    && (l.unseeded ==> l.saved == s.store.table.Keys)
    && (s.handler.Seeding? ==> l == Ledger(true, {}))
  }

  lemma NotedRight(cfg: Config, s: System, a: Action, l: Ledger)
    requires ValidConfig(cfg) && Enabled(cfg, s, a) && LedgerRight(s, l)
    ensures LedgerRight(Next(cfg, s, a), Noted(cfg, s, a, l))
  {
    if a.Proceed? && s.handler.Seeding? {
      assert s.store.table.Keys == {};
      assert !Collides(s.store.table, Base(cfg, s.handler.clear).order);
    }
  }

  lemma {:induction false} LedgerAfterRight(cfg: Config, s: System, actions: seq<Action>, l: Ledger)
    requires ValidConfig(cfg) && Behaviour(cfg, s, actions) && LedgerRight(s, l)
    ensures LedgerRight(After(cfg, s, actions), LedgerAfter(cfg, s, actions, l))
    decreases |actions|
  {
    if actions != [] {
      NotedRight(cfg, s, actions[0], l);
      LedgerAfterRight(cfg, Next(cfg, s, actions[0]), actions[1..], Noted(cfg, s, actions[0], l));
    }
  }

  /**
   In every behaviour from the first start: the next startup fails exactly when the last wipe
   is still unseeded and a device of the profile was saved after it and not deleted since. When
   it succeeds, memory and table agree exactly when nothing unseeded was left in the table.
   */
  lemma NextStartupIff(cfg: Config, now: int, epoch: string, actions: seq<Action>, names: seq<string>, next: string)
    requires ValidConfig(cfg) && Behaviour(cfg, Boot(cfg, now, epoch), actions)
    requires Enumerates(names, After(cfg, Boot(cfg, now, epoch), actions).store.table)
    ensures var s := After(cfg, Boot(cfg, now, epoch), actions);
      var l := LedgerAfter(cfg, Boot(cfg, now, epoch), actions, Ledger(false, {}));
      && (!Enabled(cfg, s, Crash(names, next)) <==>
            l.unseeded && exists n :: n in l.saved && n in cfg.profile.devices)
      && (Enabled(cfg, s, Crash(names, next)) ==>
            (InStep(cfg, Next(cfg, s, Crash(names, next))) <==> !l.unseeded || l.saved == {}))
  {
    var s := After(cfg, Boot(cfg, now, epoch), actions);
    var l := LedgerAfter(cfg, Boot(cfg, now, epoch), actions, Ledger(false, {}));
    BootIsSafe(cfg, now, epoch);
    AlwaysSafe(cfg, Boot(cfg, now, epoch), actions);
    LedgerAfterRight(cfg, Boot(cfg, now, epoch), actions, Ledger(false, {}));
    RestartFailsIff(cfg, s, names, next);
    assert l.unseeded ==> forall n :: n in l.saved <==> n in s.store.table;
    if Enabled(cfg, s, Crash(names, next)) {
      RestartInStepIff(cfg, s, names, next);
      assert s.store.table == map[] <==> s.store.table.Keys == {};
    }
  }

  function UpdateRun(device: Device, epoch: string): seq<Action> {
    [Action.Update(device, None), Proceed(epoch), Proceed(epoch)]
  }

  /** An update of an unlocked device stores its row. */
  lemma UpdateStores(cfg: Config, s: System, device: Device, epoch: string)
    requires ValidConfig(cfg) && s.handler.Free? && device.name in s.mem.devices && s.locks.locks == map[]
    ensures Behaviour(cfg, s, UpdateRun(device, epoch))
    ensures var after := After(cfg, s, UpdateRun(device, epoch));
      after.handler.Free? && device.name in after.store.table && after.store.seeded == s.store.seeded
  {
    ThreeSteps(cfg, s, Action.Update(device, None), Proceed(epoch), Proceed(epoch));
  }

  /** After a failed reset, an update of a device of the profile makes the next startup fail. */
  lemma StartupCanFail(cfg: Config, now: int, epoch: string, name: string)
    requires ValidConfig(cfg) && name in cfg.profile.devices
    ensures var actions := FailedReset(epoch) + UpdateRun(cfg.profile.devices[name], epoch);
      && Behaviour(cfg, Boot(cfg, now, epoch), actions)
      && var s := After(cfg, Boot(cfg, now, epoch), actions);
         s.handler.Free? && forall names, next :: !Enabled(cfg, s, Crash(names, next))
  {
    ResetCanLoseAgreement(cfg, now, epoch);
    var s := After(cfg, Boot(cfg, now, epoch), FailedReset(epoch));
    var device := cfg.profile.devices[name];
    UpdateStores(cfg, s, device, epoch);
    Joined(cfg, Boot(cfg, now, epoch), FailedReset(epoch), UpdateRun(device, epoch));
    NeverRestarts(cfg, After(cfg, s, UpdateRun(device, epoch)), name);
  }

  lemma NeverRestarts(cfg: Config, s: System, name: string)
    requires ValidConfig(cfg) && s.store.seeded.None? && name in s.store.table && name in cfg.profile.devices
    ensures forall names, next :: !Enabled(cfg, s, Crash(names, next))
  {
    forall names, next | Enumerates(names, s.store.table)
      ensures !Enabled(cfg, s, Crash(names, next))
    {
      RestartFailsIff(cfg, s, names, next);
    }
  }

  function CreateRun(device: Device, spec: Spec, epoch: string): seq<Action> {
    [Create(device, spec), Proceed(epoch), Proceed(epoch)]
  }

  lemma CreateStores(cfg: Config, s: System, device: Device, spec: Spec, epoch: string)
    requires ValidConfig(cfg) && s.handler.Free? && device.name !in s.mem.devices && device.name == spec.name
    ensures Behaviour(cfg, s, CreateRun(device, spec, epoch))
    ensures var after := After(cfg, s, CreateRun(device, spec, epoch));
      && after.handler.Free? && after.store == Saved(s.store, device.name, Row(device, Some(spec)), Operation.Add)
      && after.mem.devices.Keys == s.mem.devices.Keys + {device.name}
  {
    ThreeSteps(cfg, s, Create(device, spec), Proceed(epoch), Proceed(epoch));
  }

  /** After a failed reset, a device the profile does not have is lost from memory by a startup that succeeds. */
  lemma LossOutlivesRestart(cfg: Config, now: int, epoch: string, device: Device, spec: Spec)
    requires ValidConfig(cfg) && cfg.profile.devices != map[]
    requires device.name !in cfg.profile.devices && device.name == spec.name
    ensures var actions := FailedReset(epoch) + CreateRun(device, spec, epoch);
      && Behaviour(cfg, Boot(cfg, now, epoch), actions)
      && var s := After(cfg, Boot(cfg, now, epoch), actions);
         && Enabled(cfg, s, Crash([device.name], epoch))
         && var restarted := Next(cfg, s, Crash([device.name], epoch));
            device.name in restarted.store.table && device.name !in restarted.mem.devices
  {
    ResetCanLoseAgreement(cfg, now, epoch);
    var s := After(cfg, Boot(cfg, now, epoch), FailedReset(epoch));
    CreateStores(cfg, s, device, spec, epoch);
    Joined(cfg, Boot(cfg, now, epoch), FailedReset(epoch), CreateRun(device, spec, epoch));
    RestartLeavesOut(cfg, After(cfg, s, CreateRun(device, spec, epoch)), device.name, epoch);
  }

  lemma RestartLeavesOut(cfg: Config, s: System, name: string, epoch: string)
    requires ValidConfig(cfg) && s.store.seeded.None? && s.store.table.Keys == {name} && name !in cfg.profile.devices
    ensures Enabled(cfg, s, Crash([name], epoch))
    ensures var restarted := Next(cfg, s, Crash([name], epoch));
      name in restarted.store.table && name !in restarted.mem.devices
  {
    RestartFailsIff(cfg, s, [name], epoch);
  }

  /** Interrupted there, a clear is atomic too exactly when the profile is empty or is what was loaded. */
  lemma InterruptedClearIff(cfg: Config, s: System, names: seq<string>, epoch: string)
    requires ValidConfig(cfg) && Safe(s) && InStep(cfg, s) && s.handler == Seeding(true)
    requires Enabled(cfg, s, Crash(names, epoch))
    ensures var restarted := Next(cfg, s, Crash(names, epoch)).mem;
      && (SameView(restarted, Outcome(cfg, s)) <==> cfg.profile.devices == map[])
      && (SameView(restarted, s.mem) <==>
            cfg.profile.devices == s.mem.devices && cfg.profile.specs == s.mem.specs && s.pvTable == s.mem.standalone)
  {
    AllStandaloneKeeps(Empty, s.pvTable);
    ProfileViewIff(cfg, s.pvTable, s.mem);
    ProfileViewIff(cfg, s.pvTable, WithAllStandalone(Empty, s.pvTable));
    if cfg.profile.devices == map[] {
      assert cfg.profile.specs == map[];
    }
  }

  /** The profile with the standalone PVs is the view of a registry exactly when the contents agree. */
  lemma ProfileViewIff(cfg: Config, pvs: set<string>, r: Registry)
    requires ValidConfig(cfg) && WellFormed(r)
    ensures SameView(WithAllStandalone(cfg.profile, pvs), r) <==>
            cfg.profile.devices == r.devices && cfg.profile.specs == r.specs && pvs == r.standalone
  {
    var loaded := WithAllStandalone(cfg.profile, pvs);
    AllStandaloneKeeps(cfg.profile, pvs);
    assert loaded.standalone == pvs;
    if cfg.profile.devices == r.devices && cfg.profile.specs == r.specs && pvs == r.standalone {
      SameContentsSameView(loaded, r);
    }
  }

  function DeleteRun(name: string, epoch: string): seq<Action> {
    [Action.Delete(name), Proceed(epoch), Proceed(epoch)]
  }

  lemma DeleteRemoves(cfg: Config, s: System, name: string, epoch: string)
    requires ValidConfig(cfg) && s.handler.Free? && name in s.mem.devices && s.locks.locks == map[]
    ensures Behaviour(cfg, s, DeleteRun(name, epoch))
    ensures var after := After(cfg, s, DeleteRun(name, epoch));
      after.handler.Free? && after.locks.locks == map[] && name !in after.mem.devices
  {
    ThreeSteps(cfg, s, Action.Delete(name), Proceed(epoch), Proceed(epoch));
  }

  function HalfClear(epoch: string): seq<Action> {
    [Clear, Proceed(epoch)]
  }

  lemma HalfClearWipes(cfg: Config, s: System, epoch: string)
    requires ValidConfig(cfg) && s.handler.Free?
    ensures Behaviour(cfg, s, HalfClear(epoch))
    ensures var after := After(cfg, s, HalfClear(epoch));
      after.handler == Seeding(true) && after.store.table == map[] && after.mem == s.mem && InStep(cfg, after)
  {
    OneStep(cfg, Next(cfg, s, Clear), Proceed(epoch), []);
    OneStep(cfg, s, Clear, [Proceed(epoch)]);
    assert [Clear] + [Proceed(epoch)] == [Clear, Proceed(epoch)] && [Proceed(epoch)] + [] == [Proceed(epoch)];
  }

  /** From the first start: a delete, then a clear interrupted between its transactions, brings the profile back. */
  lemma InterruptedClearCanRestore(cfg: Config, now: int, epoch: string, name: string)
    requires ValidConfig(cfg) && name in cfg.profile.devices
    ensures var actions := DeleteRun(name, epoch) + HalfClear(epoch);
      && Behaviour(cfg, Boot(cfg, now, epoch), actions)
      && var s := After(cfg, Boot(cfg, now, epoch), actions);
         && Enabled(cfg, s, Crash([], epoch))
         && var restarted := Next(cfg, s, Crash([], epoch)).mem;
            !SameView(restarted, s.mem) && !SameView(restarted, Outcome(cfg, s))
  {
    var s0 := Boot(cfg, now, epoch);
    DeleteRemoves(cfg, s0, name, epoch);
    var s1 := After(cfg, s0, DeleteRun(name, epoch));
    HalfClearWipes(cfg, s1, epoch);
    Joined(cfg, s0, DeleteRun(name, epoch), HalfClear(epoch));
    BootIsSafe(cfg, now, epoch);
    AlwaysSafe(cfg, s0, DeleteRun(name, epoch) + HalfClear(epoch));
    var s := After(cfg, s1, HalfClear(epoch));
    assert Enumerates([], s.store.table);
    RestartFailsIff(cfg, s, [], epoch);
    InterruptedClearIff(cfg, s, [], epoch);
  }

  /** The state after a clear that ran to its end. */
  ghost function Cleaned(cfg: Config, s: System, epoch: string): System
    requires ValidConfig(cfg) && s.handler.Free?
  {
    var s3 := Proceeded(cfg, Proceeded(cfg, Next(cfg, s, Clear), epoch), epoch);
    Proceeded(cfg, Proceeded(cfg, Proceeded(cfg, s3, epoch), epoch), epoch)
  }

  lemma ClearCompletes(cfg: Config, s: System, epoch: string)
    requires ValidConfig(cfg) && s.handler.Free?
    ensures var after := Cleaned(cfg, s, epoch);
      && after.handler.Free? && after.locks.locks == map[] && after.pvTable == s.pvTable
      && after.mem == WithAllStandalone(Empty, s.pvTable)
      && after.store.table == map[] && after.store.seeded.Some?
  {
    var s2 := Proceeded(cfg, Next(cfg, s, Clear), epoch);
    assert s2.store.table == map[];
    var s3 := Proceeded(cfg, s2, epoch);
    assert s3.store.table == map[] && s3.store.seeded.Some?;
  }

  /** After a clear that ran to its end, the database is seeded, so a restart loads an empty registry. */
  lemma ClearThenRestart(cfg: Config, s: System, epoch: string)
    requires ValidConfig(cfg) && s.handler.Free?
    ensures var after := Cleaned(cfg, s, epoch);
      && after.handler.Free? && after.mem == WithAllStandalone(Empty, s.pvTable) && after.locks.locks == map[]
      && Enabled(cfg, after, Crash([], epoch))
      && Next(cfg, after, Crash([], epoch)).mem == WithAllStandalone(Empty, s.pvTable)
  {
    ClearCompletes(cfg, s, epoch);
    assert DevicesIn(map[]) == map[] && SpecsIn(map[]) == map[];
  }
}
