/**
 The mutation protocol of the configuration service (configuration_service/main.py).

 The registry-mutating handlers are check, then await the database, then mutate memory.
 They run one at a time inside `registry_lock`, so at most one is under way; it is split at
 its awaits. Everything else may happen between two of its steps: lock release, renewal and
 force-unlock, the passing of time, a standalone-PV update, a database failure, a crash.
 */
module Protocol {
  import opened Models
  import opened DeviceRegistries
  import opened Locks
  import LockRuns
  import opened Stores

  /** What a process is started with; the profile does not change while the service is in use. */
  datatype Config = Config(profile: Registry, lockAll: bool, leaseTtl: int)

  ghost predicate ValidConfig(cfg: Config) {
    WellFormed(cfg.profile) && cfg.profile.standalone == {}
  }

  /** The handler inside `registry_lock`, by what it waits for or is about to do. */
  datatype Handler =
    | Free
    | Saving(device: Device, spec: Option<Spec>, op: Operation)      // awaiting save_device
    | Applying(device: Device, spec: Option<Spec>, op: Operation)    // about to mutate memory
    | DeletingRow(name: string)                                      // awaiting delete_device
    | Dropping(name: string)                                         // about to mutate memory
    | LoadingProfile                                                 // awaiting load_registry
    | Wiping(clear: bool)                                            // awaiting the wipe
    | Seeding(clear: bool)                                           // awaiting the seed
    | Reapplying(clear: bool)                                        // awaiting the standalone PVs
    | ClearingLocks(next: Registry)                                  // awaiting clear_all
    | Publishing(next: Registry)                                     // about to publish
    | PvChecking(pv: string)                                         // awaiting get_pv, to create
    | PvSaving(pv: string)                                           // awaiting save_pv
    | PvAdding(pv: string)                                           // about to mutate memory
    | PvFinding(pv: string)                                          // awaiting get_pv, to delete
    | PvDeleting(pv: string)                                         // awaiting delete_pv
    | PvDropping(pv: string)                                         // about to mutate memory

  /** `updates` are the PVs whose update handler has read the row and not yet written it. */
  datatype System = System(
    mem: Registry, store: Store, pvTable: set<string>, locks: Table, now: int,
    handler: Handler, updates: set<string>)

  datatype Action =
    | Create(device: Device, spec: Spec)
    | Update(device: Device, sent: Option<Spec>)
    | SetActive(name: string, active: bool)
    | Delete(name: string)
    | Reset
    | Clear
    | CreatePv(pv: string)
    | DeletePv(pv: string)
    | Proceed(epoch: string)
    | Fail
    | LockCall(c: LockRuns.Call)
    | Tick(time: int)
    | ReadPv(pv: string)
    | WritePv(pv: string)
    | Crash(names: seq<string>, epoch: string)

  /** The registry a reset or clear starts from. */
  function Base(cfg: Config, clear: bool): Registry {
    if clear then Empty else cfg.profile
  }

  /** The registry once the create, update, enable or disable reaches memory. */
  function Target(mem: Registry, device: Device, spec: Option<Spec>, op: Operation): Registry {
    if op.Add? then Added(mem, device, spec) else Updated(mem, device, spec)
  }

  // ---------------------------------------------------------------------------
  // Steps
  // ---------------------------------------------------------------------------

  /** Entering a handler: the checks made before its first await. */
  function Entered(s: System, a: Action): Handler {
    match a
    case Create(device, spec) =>
      if device.name in s.mem.devices then Free else Saving(device, Some(spec), Operation.Add)
    case Update(device, sent) =>
      if device.name !in s.mem.devices || Active(s.locks.locks, device.name, s.now) then Free
      else Saving(device, if sent.Some? then sent else SpecOf(s.mem.specs, device.name), Operation.Update)
    case SetActive(name, active) =>
      if name !in s.mem.devices || name !in s.mem.specs || s.mem.specs[name].active == active then Free
      else Saving(s.mem.devices[name], Some(s.mem.specs[name].(active := active)), if active then Enable else Disable)
    case Delete(name) =>
      if name !in s.mem.devices || Active(s.locks.locks, name, s.now) then Free else DeletingRow(name)
    case Reset => LoadingProfile
    case Clear => Wiping(true)
    case CreatePv(pv) => if pv in s.mem.index then Free else PvChecking(pv)
    case DeletePv(pv) => PvFinding(pv)
    case _ => Free
  }

  /** What the handler awaits succeeds, or its memory step runs. */
  function Proceeded(cfg: Config, s: System, epoch: string): System
    requires forall n :: n in cfg.profile.order ==> n in cfg.profile.devices
  {
    match s.handler
    case Free => s
    case Saving(device, spec, op) =>
      s.(store := Saved(s.store, device.name, Row(device, spec), op), handler := Applying(device, spec, op))
    case Applying(device, spec, op) => s.(mem := Target(s.mem, device, spec, op), handler := Free)
    case DeletingRow(name) => s.(store := Deleted(s.store, name), handler := Dropping(name))
    case Dropping(name) => s.(mem := Removed(s.mem, name), handler := Free)
    case LoadingProfile => s.(handler := Wiping(false))
    case Wiping(clear) => s.(store := Wiped(s.store), handler := Seeding(clear))
    case Seeding(clear) =>
      var seeded := SeededFrom(s.store, Base(cfg, clear), epoch);
      if seeded.None? then s.(handler := Free) else s.(store := seeded.value, handler := Reapplying(clear))
    case Reapplying(clear) => s.(handler := ClearingLocks(WithAllStandalone(Base(cfg, clear), s.pvTable)))
    case ClearingLocks(next) => s.(locks := Cleared(s.locks), handler := Publishing(next))
    case Publishing(next) => s.(mem := next, handler := Free)
    case PvChecking(pv) => s.(handler := if pv in s.pvTable then Free else PvSaving(pv))
    case PvSaving(pv) => s.(pvTable := s.pvTable + {pv}, handler := PvAdding(pv))
    case PvAdding(pv) => s.(mem := WithStandalone(s.mem, pv), handler := Free)
    case PvFinding(pv) => s.(handler := if pv in s.pvTable then PvDeleting(pv) else Free)
    case PvDeleting(pv) => s.(pvTable := s.pvTable - {pv}, handler := PvDropping(pv))
    case PvDropping(pv) => s.(mem := WithoutStandalone(s.mem, pv), handler := Free)
  }

  /** The handler awaits something outside the process, which may fail. */
  predicate CanFail(h: Handler) {
    || h.Saving? || h.DeletingRow? || h.LoadingProfile? || h.Wiping? || h.Seeding? || h.Reapplying?
    || h.PvChecking? || h.PvSaving? || h.PvFinding? || h.PvDeleting?
  }

  /** `names` lists the stored devices, each once. */
  ghost predicate Enumerates(names: seq<string>, table: map<string, Row>) {
    && (forall n :: n in names <==> n in table)
    && (forall i, j :: 0 <= i < j < |names| ==> names[i] != names[j])
  }

  /** Startup: load the stored devices, or seed from the profile; `None` when seeding fails. */
  function Restarted(cfg: Config, store: Store, pvTable: set<string>, names: seq<string>,
      epoch: string): Option<(Store, Registry)>
    requires forall n :: n in names ==> n in store.table
    requires forall n :: n in cfg.profile.order ==> n in cfg.profile.devices
  {
    if store.seeded.Some? then
      Some((store, WithAllStandalone(LoadAll(DevicesIn(store.table), SpecsIn(store.table), names), pvTable)))
    else
      match SeededFrom(store, cfg.profile, epoch)
      case None => None
      case Some(seeded) => Some((seeded, WithAllStandalone(cfg.profile, pvTable)))
  }

  /** A lock call made by a client: only a lock request needs `registry_lock`. */
  predicate ClientCall(s: System, c: LockRuns.Call) {
    && LockRuns.Timed(c) && s.now <= c.begun
    && !c.event.ClearAll?
    && (c.event.Acquire? ==> s.handler.Free? && c.event.registry == s.mem)
  }

  ghost predicate Enabled(cfg: Config, s: System, a: Action)
    requires ValidConfig(cfg)
  {
    match a
    case Create(device, spec) => s.handler.Free? && device.name == spec.name
    case Proceed(_) => !s.handler.Free?
    case Fail => CanFail(s.handler)
    case LockCall(c) => ClientCall(s, c)
    case Tick(time) => s.now <= time
    case ReadPv(pv) => pv in s.pvTable
    case WritePv(pv) => pv in s.updates
    case Crash(names, epoch) =>
      Enumerates(names, s.store.table) && Restarted(cfg, s.store, s.pvTable, names, epoch).Some?
    case _ => s.handler.Free?
  }

  ghost function Next(cfg: Config, s: System, a: Action): System
    requires ValidConfig(cfg) && Enabled(cfg, s, a)
  {
    match a
    case Proceed(epoch) => Proceeded(cfg, s, epoch)
    case Fail => s.(handler := Free)
    case LockCall(c) => s.(locks := LockRuns.Step(s.locks, c), now := c.done)
    case Tick(time) => s.(now := time)
    case ReadPv(pv) => s.(updates := s.updates + {pv})
    case WritePv(pv) => s.(pvTable := s.pvTable + {pv}, updates := s.updates - {pv})
    case Crash(names, epoch) =>
      var (store, mem) := Restarted(cfg, s.store, s.pvTable, names, epoch).value;
      System(mem, store, s.pvTable, Table(map[], 0, cfg.lockAll, cfg.leaseTtl), s.now, Free, {})
    case _ => s.(handler := Entered(s, a))
  }

  ghost predicate Behaviour(cfg: Config, s: System, actions: seq<Action>)
    requires ValidConfig(cfg)
    decreases |actions|
  {
    actions == [] || (Enabled(cfg, s, actions[0]) && Behaviour(cfg, Next(cfg, s, actions[0]), actions[1..]))
  }

  ghost function After(cfg: Config, s: System, actions: seq<Action>): System
    requires ValidConfig(cfg) && Behaviour(cfg, s, actions)
    decreases |actions|
  {
    if actions == [] then s else After(cfg, Next(cfg, s, actions[0]), actions[1..])
  }

  /** The first start on an empty database. */
  function Boot(cfg: Config, now: int, epoch: string): System
    requires forall n :: n in cfg.profile.order ==> n in cfg.profile.devices
  {
    System(
      cfg.profile,
      Store(RowsFor(cfg.profile, cfg.profile.order), EntriesFor(cfg.profile.order, Seed), Some(epoch)),
      {}, Table(map[], 0, cfg.lockAll, cfg.leaseTtl), now, Free, {})
  }

  // ---------------------------------------------------------------------------
  // Locks and registry
  // ---------------------------------------------------------------------------

  /** Every unexpired lock names a registered device that has an instantiation spec. */
  ghost predicate LocksBacked(locks: map<string, Lock>, now: int, mem: Registry) {
    forall n :: Active(locks, n, now) ==> n in mem.devices && n in mem.specs
  }

  /** What the handler found out about memory, still true. */
  predicate ChecksHold(mem: Registry, device: Device, spec: Option<Spec>, op: Operation, locks: map<string, Lock>,
      now: int) {
    && (spec.None? ==> device.name !in mem.specs)
    && (if op.Add? then device.name !in mem.devices else device.name in mem.devices)
    && (op.Update? ==> !Active(locks, device.name, now))
  }

  ghost predicate HandlerSafe(s: System) {
    match s.handler
    case Saving(device, spec, op) => ChecksHold(s.mem, device, spec, op, s.locks.locks, s.now)
    case Applying(device, spec, op) => ChecksHold(s.mem, device, spec, op, s.locks.locks, s.now)
    case DeletingRow(name) => name in s.mem.devices && !Active(s.locks.locks, name, s.now)
    case Dropping(name) => name in s.mem.devices && !Active(s.locks.locks, name, s.now)
    case ClearingLocks(next) => WellFormed(next)
    case Publishing(next) => WellFormed(next) && s.locks.locks == map[]
    case _ => true
  }

  ghost predicate Safe(s: System) {
    WellFormed(s.mem) && LocksBacked(s.locks.locks, s.now, s.mem) && HandlerSafe(s)
  }

  /** A client call locks nothing new while a handler is under way, and only backed devices otherwise. */
  lemma ClientCallLocks(s: System, c: LockRuns.Call, name: string)
    requires ClientCall(s, c) && Active(LockRuns.Step(s.locks, c).locks, name, c.done)
    ensures Active(s.locks.locks, name, s.now) ||
            (s.handler.Free? && name in s.mem.devices && name in s.mem.specs)
  {
    if LockRuns.Grants(s.locks, c, name) {
      LockRuns.AcquireAllOrNothing(s.locks, c.event.registry, c.event.request, c.event.lockId, c.event.readings);
      var i :| 0 <= i < |c.event.request.names| && c.event.request.names[i] == name;
      assert Obstacle(s.locks.locks, s.mem, c.event.request.names[i], c.event.readings[i]).None?;
    } else {
      LockRuns.OtherwiseKept(s.locks, c, name);
    }
  }

  lemma LockCallKeepsSafe(cfg: Config, s: System, c: LockRuns.Call)
    requires ValidConfig(cfg) && Safe(s) && ClientCall(s, c)
    ensures Safe(Next(cfg, s, LockCall(c)))
  {
    var after := Next(cfg, s, LockCall(c));
    forall n | Active(after.locks.locks, n, after.now)
      ensures Active(s.locks.locks, n, s.now) || s.handler.Free?
      ensures n in s.mem.devices && n in s.mem.specs
    {
      ClientCallLocks(s, c, n);
    }
    if s.handler.Publishing? && after.locks.locks != map[] {
      var n :| n in after.locks.locks;
      LockRuns.OtherwiseKept(s.locks, c, n);
    }
  }

  lemma TargetKeeps(mem: Registry, device: Device, spec: Option<Spec>, op: Operation)
    requires WellFormed(mem)
    requires if op.Add? then device.name !in mem.devices else device.name in mem.devices
    ensures WellFormed(Target(mem, device, spec, op))
    ensures Target(mem, device, spec, op).devices.Keys == mem.devices.Keys + {device.name}
    ensures Target(mem, device, spec, op).specs.Keys >= mem.specs.Keys
  {
    if op.Add? {
      AddFreshKeeps(mem, device, spec);
    } else {
      UpdateKeeps(mem, device, spec);
    }
  }

  lemma BaseWellFormed(cfg: Config, clear: bool)
    requires ValidConfig(cfg)
    ensures WellFormed(Base(cfg, clear)) && Base(cfg, clear).standalone == {}
  {
  }

  lemma ApplyKeepsSafe(cfg: Config, s: System, epoch: string)
    requires ValidConfig(cfg) && Safe(s) && s.handler.Applying?
    ensures Safe(Proceeded(cfg, s, epoch))
  {
    TargetKeeps(s.mem, s.handler.device, s.handler.spec, s.handler.op);
  }

  lemma DropKeepsSafe(cfg: Config, s: System, epoch: string)
    requires ValidConfig(cfg) && Safe(s) && s.handler.Dropping?
    ensures Safe(Proceeded(cfg, s, epoch))
  {
    RemoveKeeps(s.mem, s.handler.name);
  }

  lemma PvAddingKeepsSafe(cfg: Config, s: System, epoch: string)
    requires ValidConfig(cfg) && Safe(s) && s.handler.PvAdding?
    ensures Safe(Proceeded(cfg, s, epoch))
  {
    StandaloneKeeps(s.mem, s.handler.pv);
  }

  lemma PvDroppingKeepsSafe(cfg: Config, s: System, epoch: string)
    requires ValidConfig(cfg) && Safe(s) && s.handler.PvDropping?
    ensures Safe(Proceeded(cfg, s, epoch))
  {
    StandaloneKeeps(s.mem, s.handler.pv);
  }

  lemma ReapplyKeepsSafe(cfg: Config, s: System, epoch: string)
    requires ValidConfig(cfg) && Safe(s) && s.handler.Reapplying?
    ensures Safe(Proceeded(cfg, s, epoch))
  {
    BaseWellFormed(cfg, s.handler.clear);
    AllStandaloneKeeps(Base(cfg, s.handler.clear), s.pvTable);
  }

  /** The other steps leave memory alone, or publish what `HandlerSafe` already vouches for. */
  lemma QuietStepKeepsSafe(cfg: Config, s: System, epoch: string)
    requires ValidConfig(cfg) && Safe(s)
    requires !s.handler.Applying? && !s.handler.Dropping? && !s.handler.PvAdding? && !s.handler.PvDropping?
    requires !s.handler.Reapplying?
    ensures Safe(Proceeded(cfg, s, epoch))
  {
    if s.handler.Publishing? {
      assert forall n :: !Active(s.locks.locks, n, s.now);
    } else {
      assert Proceeded(cfg, s, epoch).mem == s.mem;
    }
  }

  lemma ProceedKeepsSafe(cfg: Config, s: System, epoch: string)
    requires ValidConfig(cfg) && Safe(s)
    ensures Safe(Proceeded(cfg, s, epoch))
  {
    match s.handler {
      case Applying(_, _, _) => ApplyKeepsSafe(cfg, s, epoch);
      case Dropping(_) => DropKeepsSafe(cfg, s, epoch);
      case Reapplying(_) => ReapplyKeepsSafe(cfg, s, epoch);
      case PvAdding(_) => PvAddingKeepsSafe(cfg, s, epoch);
      case PvDropping(_) => PvDroppingKeepsSafe(cfg, s, epoch);
      case _ => QuietStepKeepsSafe(cfg, s, epoch);
    }
  }

  lemma CrashKeepsSafe(cfg: Config, s: System, names: seq<string>, epoch: string)
    requires ValidConfig(cfg) && Enabled(cfg, s, Crash(names, epoch))
    requires forall n :: n in s.store.table ==> s.store.table[n].device.name == n
    ensures Safe(Next(cfg, s, Crash(names, epoch)))
  {
    if s.store.seeded.Some? {
      LoadAllContents(DevicesIn(s.store.table), SpecsIn(s.store.table), names);
      AllStandaloneKeeps(LoadAll(DevicesIn(s.store.table), SpecsIn(s.store.table), names), s.pvTable);
    } else {
      AllStandaloneKeeps(cfg.profile, s.pvTable);
    }
  }

  /** Rows are stored under their device's name. */
  ghost predicate RowsNamed(s: System) {
    && (forall n :: n in s.store.table ==> s.store.table[n].device.name == n)
  }

  lemma NextKeepsRowsNamed(cfg: Config, s: System, a: Action)
    requires ValidConfig(cfg) && RowsNamed(s) && Enabled(cfg, s, a)
    ensures RowsNamed(Next(cfg, s, a))
  {
  }

  lemma NextKeepsSafe(cfg: Config, s: System, a: Action)
    requires ValidConfig(cfg) && Safe(s) && RowsNamed(s) && Enabled(cfg, s, a)
    ensures Safe(Next(cfg, s, a))
  {
    match a {
      case Proceed(epoch) => ProceedKeepsSafe(cfg, s, epoch);
      case LockCall(c) => LockCallKeepsSafe(cfg, s, c);
      case Crash(names, epoch) => CrashKeepsSafe(cfg, s, names, epoch);
      case _ =>
    }
  }

  /**
   In every behaviour, whatever fails and whenever the process crashes, the PV index is right
   and every unexpired lock names a registered device with an instantiation spec.
   */
  lemma {:induction false} AlwaysSafe(cfg: Config, s: System, actions: seq<Action>)
    requires ValidConfig(cfg) && Safe(s) && RowsNamed(s) && Behaviour(cfg, s, actions)
    ensures Safe(After(cfg, s, actions)) && RowsNamed(After(cfg, s, actions))
    decreases |actions|
  {
    if actions != [] {
      NextKeepsSafe(cfg, s, actions[0]);
      NextKeepsRowsNamed(cfg, s, actions[0]);
      AlwaysSafe(cfg, Next(cfg, s, actions[0]), actions[1..]);
    }
  }

  lemma BootIsSafe(cfg: Config, now: int, epoch: string)
    requires ValidConfig(cfg)
    ensures Safe(Boot(cfg, now, epoch)) && RowsNamed(Boot(cfg, now, epoch))
  {
  }

  /** The memory step of an update or delete never fires on a device with an unexpired lock. */
  lemma NoMutationUnderLock(cfg: Config, now: int, epoch: string, actions: seq<Action>)
    requires ValidConfig(cfg) && Behaviour(cfg, Boot(cfg, now, epoch), actions)
    ensures var s := After(cfg, Boot(cfg, now, epoch), actions);
      && (s.handler.Applying? && s.handler.op.Update? ==> !Active(s.locks.locks, s.handler.device.name, s.now))
      && (s.handler.Dropping? ==> !Active(s.locks.locks, s.handler.name, s.now))
      && LocksBacked(s.locks.locks, s.now, s.mem)
      && WellFormed(s.mem)
  {
    BootIsSafe(cfg, now, epoch);
    AlwaysSafe(cfg, Boot(cfg, now, epoch), actions);
  }
}
