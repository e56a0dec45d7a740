/**
 Memory against the database: when they agree, which steps lose agreement and which restore it
 (configuration_service/main.py with device_registry_store.py and standalone_pv_store.py).
 */
module Recovery {
  import opened Models
  import opened DeviceRegistries
  import opened Stores
  import opened Locks
  import opened Protocol

  // ---------------------------------------------------------------------------
  // What the database holds at each point of a handler
  // ---------------------------------------------------------------------------

  /** The device rows say what memory says, up to what the handler has already written. */
  ghost predicate RowsInStep(cfg: Config, s: System) {
    match s.handler
    case Applying(device, spec, _) =>
      s.store.seeded.Some? && s.store.table == RowsOf(s.mem)[device.name := Row(device, spec)]
    case Dropping(name) => s.store.seeded.Some? && s.store.table == RowsOf(s.mem) - {name}
    case Seeding(_) => s.store.seeded.None? && s.store.table == map[]
    case Reapplying(clear) => s.store.seeded.Some? && s.store.table == RowsOf(Base(cfg, clear))
    case ClearingLocks(next) => s.store.seeded.Some? && s.store.table == RowsOf(next)
    case Publishing(next) => s.store.seeded.Some? && s.store.table == RowsOf(next)
    case _ => s.store.seeded.Some? && s.store.table == RowsOf(s.mem)
  }

  /**
   The standalone table lists what memory lists, up to what the handler has already written. A
   reset past its wipe replaces memory by a registry built from the table, whatever memory lists.
   */
  predicate PvsInStep(s: System) {
    match s.handler
    case PvAdding(pv) => s.pvTable == s.mem.standalone + {pv}
    case PvDropping(pv) => s.pvTable == s.mem.standalone - {pv}
    case Seeding(_) => true
    case Reapplying(_) => true
    case ClearingLocks(_) => true
    case Publishing(_) => true
    case _ => s.pvTable == s.mem.standalone
  }

  predicate BuiltFrom(cfg: Config, next: Registry, pvs: set<string>) {
    next == WithAllStandalone(cfg.profile, pvs) || next == WithAllStandalone(Empty, pvs)
  }

  /** The registry a reset publishes was built from the profile and the standalone table. */
  ghost predicate NextBuilt(cfg: Config, s: System) {
    match s.handler
    case ClearingLocks(next) => BuiltFrom(cfg, next, s.pvTable)
    case Publishing(next) => BuiltFrom(cfg, next, s.pvTable)
    case _ => true
  }

  ghost predicate InStep(cfg: Config, s: System) {
    RowsInStep(cfg, s) && PvsInStep(s) && NextBuilt(cfg, s)
  }

  /** A reset or clear fails after its first transaction has wiped the table. */
  predicate FailsAfterWipe(s: System, a: Action) {
    a.Fail? && (s.handler.Seeding? || s.handler.Reapplying?)
  }

  /** An update of a standalone PV writes a row that was deleted since it read it. */
  predicate Resurrects(s: System, a: Action) {
    a.WritePv? && a.pv !in s.pvTable
  }

  /** Memory is what a reset that got past its seed has already stored. */
  predicate AlreadyBase(cfg: Config, s: System)
    requires s.handler.Reapplying?
  {
    var base := Base(cfg, s.handler.clear);
    s.mem.devices == base.devices && s.mem.specs == base.specs && s.mem.standalone == s.pvTable
  }

  /**
   The steps that lose agreement: a reset fails between its transactions, or after them unless
   memory already is what it stored; a deleted standalone row is written back, unless a reset
   is yet to read the table.
   */
  predicate Breaks(cfg: Config, s: System, a: Action) {
    || (a.Fail? && s.handler.Seeding?)
    || (a.Fail? && s.handler.Reapplying? && !AlreadyBase(cfg, s))
    || (Resurrects(s, a) && !s.handler.Seeding? && !s.handler.Reapplying?)
  }

  /** The steps that restore agreement whatever was lost: the wipe of a reset, and a restart that loads. */
  predicate Mends(s: System, a: Action) {
    || (a.Proceed? && s.handler.Wiping?)
    || (a.Crash? && (s.store.seeded.Some? || s.store.table == map[]))
  }

  // ---------------------------------------------------------------------------
  // Every step
  // ---------------------------------------------------------------------------

  lemma TargetContents(mem: Registry, device: Device, spec: Option<Spec>, op: Operation)
    requires if op.Add? then device.name !in mem.devices else device.name in mem.devices
    ensures var after := Target(mem, device, spec, op);
      && after.devices == mem.devices[device.name := device]
      && after.specs == if spec.Some? then mem.specs[device.name := spec.value] else mem.specs
  {
  }

  lemma RowsOfTarget(mem: Registry, device: Device, spec: Option<Spec>, op: Operation)
    requires if op.Add? then device.name !in mem.devices else device.name in mem.devices
    requires spec.None? ==> device.name !in mem.specs
    ensures RowsOf(Target(mem, device, spec, op)) == RowsOf(mem)[device.name := Row(device, spec)]
  {
    TargetContents(mem, device, spec, op);
    RowsOfOneMore(mem, Target(mem, device, spec, op), device, spec);
  }

  lemma RowsOfOneMore(mem: Registry, after: Registry, device: Device, spec: Option<Spec>)
    requires after.devices == mem.devices[device.name := device] && (spec.None? ==> device.name !in mem.specs)
    requires after.specs == if spec.Some? then mem.specs[device.name := spec.value] else mem.specs
    ensures RowsOf(after) == RowsOf(mem)[device.name := Row(device, spec)]
  {
  }

  lemma RowsOfRemoved(mem: Registry, name: string)
    requires WellFormed(mem)
    ensures RowsOf(Removed(mem, name)) == RowsOf(mem) - {name}
  {
    if name !in mem.devices {
      assert RowsOf(mem) - {name} == RowsOf(mem);
    }
  }

  lemma RowsOfSeeded(r: Registry)
    requires WellFormed(r)
    ensures map[] + RowsFor(r, r.order) == RowsOf(r)
  {
  }

  lemma RowsOfSameContents(a: Registry, b: Registry)
    requires a.devices == b.devices && a.specs == b.specs
    ensures RowsOf(a) == RowsOf(b)
  {
  }

  lemma DeviceStepInStep(cfg: Config, s: System, epoch: string)
    requires ValidConfig(cfg) && Safe(s) && InStep(cfg, s)
    requires s.handler.Saving? || s.handler.Applying? || s.handler.DeletingRow? || s.handler.Dropping?
    ensures InStep(cfg, Proceeded(cfg, s, epoch))
  {
    match s.handler {
      case Applying(device, spec, op) => RowsOfTarget(s.mem, device, spec, op);
      case DeletingRow(name) => assert name in RowsOf(s.mem);
      case Dropping(name) => RowsOfRemoved(s.mem, name);
      case Saving(_, _, _) =>
    }
  }

  lemma ResetStepInStep(cfg: Config, s: System, epoch: string)
    requires ValidConfig(cfg) && Safe(s) && InStep(cfg, s)
    requires s.handler.LoadingProfile? || s.handler.Wiping? || s.handler.Seeding? || s.handler.Reapplying?
          || s.handler.ClearingLocks? || s.handler.Publishing?
    ensures InStep(cfg, Proceeded(cfg, s, epoch))
  {
    match s.handler {
      case Seeding(clear) =>
        BaseWellFormed(cfg, clear);
        RowsOfSeeded(Base(cfg, clear));
      case Reapplying(clear) => RowsOfSameContents(Base(cfg, clear), WithAllStandalone(Base(cfg, clear), s.pvTable));
      case Publishing(next) =>
        assert cfg.profile.standalone == {};
      case _ =>
    }
  }

  lemma PvStepInStep(cfg: Config, s: System, epoch: string)
    requires ValidConfig(cfg) && Safe(s) && InStep(cfg, s)
    requires s.handler.PvChecking? || s.handler.PvSaving? || s.handler.PvAdding?
          || s.handler.PvFinding? || s.handler.PvDeleting? || s.handler.PvDropping?
    ensures InStep(cfg, Proceeded(cfg, s, epoch))
  {
    match s.handler {
      case PvAdding(pv) => RowsOfSameContents(s.mem, WithStandalone(s.mem, pv));
      case PvDropping(pv) => RowsOfSameContents(s.mem, WithoutStandalone(s.mem, pv));
      case _ =>
    }
  }

  /** The stored rows of a registry are its contents. */
  lemma StoredContents(r: Registry)
    requires WellFormed(r)
    ensures DevicesIn(RowsOf(r)) == r.devices && SpecsIn(RowsOf(r)) == r.specs
  {
  }

  /** Loading the rows and standalone names of `r` gives back the view of `r`. */
  lemma LoadGivesView(store: Store, pvTable: set<string>, r: Registry, names: seq<string>)
    requires WellFormed(r) && store.table == RowsOf(r) && pvTable == r.standalone
    requires Enumerates(names, store.table)
    ensures SameView(WithAllStandalone(LoadAll(DevicesIn(store.table), SpecsIn(store.table), names), pvTable), r)
  {
    StoredContents(r);
    RebuildAgrees(r, names);
  }

  /** Loading rows rebuilds a registry that stores back to the same rows. */
  lemma LoadedRows(table: map<string, Row>, pvTable: set<string>, names: seq<string>)
    requires Enumerates(names, table)
    requires forall n :: n in table ==> table[n].device.name == n
    ensures var r := WithAllStandalone(LoadAll(DevicesIn(table), SpecsIn(table), names), pvTable);
      RowsOf(r) == table && r.standalone == pvTable
  {
    LoadAllContents(DevicesIn(table), SpecsIn(table), names);
    RestrictToAll(DevicesIn(table), names);
    RestrictToAll(SpecsIn(table), names);
    RowsOfContents(table, WithAllStandalone(LoadAll(DevicesIn(table), SpecsIn(table), names), pvTable));
  }

  lemma RowsOfContents(table: map<string, Row>, r: Registry)
    requires r.devices == DevicesIn(table) && r.specs == SpecsIn(table)
    ensures RowsOf(r) == table
  {
  }

  /** A restart agrees exactly when it loaded the rows or found none. */
  lemma RestartInStepIff(cfg: Config, s: System, names: seq<string>, epoch: string)
    requires ValidConfig(cfg) && RowsNamed(s) && Enabled(cfg, s, Crash(names, epoch))
    ensures InStep(cfg, Next(cfg, s, Crash(names, epoch))) <==> Mends(s, Crash(names, epoch))
  {
    if s.store.seeded.Some? {
      LoadedRows(s.store.table, s.pvTable, names);
    } else {
      SeededTableIff(cfg, s.store.table);
      RowsOfSameContents(cfg.profile, WithAllStandalone(cfg.profile, s.pvTable));
    }
  }

  /** Seeding beside rows the profile does not name leaves exactly those out of memory. */
  lemma SeededTableIff(cfg: Config, table: map<string, Row>)
    requires ValidConfig(cfg) && !Collides(table, cfg.profile.order)
    ensures table + RowsFor(cfg.profile, cfg.profile.order) == RowsOf(cfg.profile) <==> table == map[]
  {
    RowsOfSeeded(cfg.profile);
    if table == map[] {
      assert map[] + RowsFor(cfg.profile, cfg.profile.order) == table + RowsFor(cfg.profile, cfg.profile.order);
    } else {
      var n :| n in table;
      assert n !in cfg.profile.order && n !in RowsOf(cfg.profile);
      assert n in table + RowsFor(cfg.profile, cfg.profile.order);
    }
  }

  lemma FailInStepIff(cfg: Config, s: System)
    requires ValidConfig(cfg) && Safe(s) && InStep(cfg, s) && CanFail(s.handler)
    ensures InStep(cfg, Next(cfg, s, Fail)) <==> !Breaks(cfg, s, Fail)
  {
    if s.handler.Reapplying? {
      BaseWellFormed(cfg, s.handler.clear);
      RowsEqualIff(s.mem, Base(cfg, s.handler.clear));
    }
  }

  /** A step from agreement keeps it exactly when it is none of the steps that lose it. */
  lemma NextInStepIff(cfg: Config, s: System, a: Action)
    requires ValidConfig(cfg) && Safe(s) && RowsNamed(s) && InStep(cfg, s) && Enabled(cfg, s, a)
    ensures InStep(cfg, Next(cfg, s, a)) <==> !Breaks(cfg, s, a)
  {
    if a.Proceed? {
      ProceedInStep(cfg, s, a.epoch);
    } else if a.Crash? {
      RestartInStepIff(cfg, s, a.names, a.epoch);
    } else if a.Fail? {
      FailInStepIff(cfg, s);
    } else if a.WritePv? {
      UnlockedWriteIff(cfg, s, a.pv);
    } else {
      OtherStepInStep(cfg, s, a);
    }
  }

  /** Entering a handler, lock calls, time and reading a row change none of the tables. */
  lemma OtherStepInStep(cfg: Config, s: System, a: Action)
    requires ValidConfig(cfg) && InStep(cfg, s) && Enabled(cfg, s, a)
    requires !a.Proceed? && !a.Crash? && !a.Fail? && !a.WritePv?
    ensures InStep(cfg, Next(cfg, s, a))
  {
  }

  lemma ProceedInStep(cfg: Config, s: System, epoch: string)
    requires ValidConfig(cfg) && Safe(s) && InStep(cfg, s) && !s.handler.Free?
    ensures InStep(cfg, Proceeded(cfg, s, epoch))
  {
    if s.handler.PvChecking? || s.handler.PvSaving? || s.handler.PvAdding?
       || s.handler.PvFinding? || s.handler.PvDeleting? || s.handler.PvDropping? {
      PvStepInStep(cfg, s, epoch);
    } else if s.handler.Saving? || s.handler.Applying? || s.handler.DeletingRow? || s.handler.Dropping? {
      DeviceStepInStep(cfg, s, epoch);
    } else {
      ResetStepInStep(cfg, s, epoch);
    }
  }

  /**
   The steps after which the device rows no longer agree, whatever the standalone PVs: a reset
   fails between its transactions, or after them unless memory already has the devices it stored.
   */
  predicate BreaksRows(cfg: Config, s: System, a: Action) {
    || (a.Fail? && s.handler.Seeding?)
    || (a.Fail? && s.handler.Reapplying? && !AlreadyBaseRows(cfg, s))
  }

  predicate AlreadyBaseRows(cfg: Config, s: System)
    requires s.handler.Reapplying?
  {
    var base := Base(cfg, s.handler.clear);
    s.mem.devices == base.devices && s.mem.specs == base.specs
  }

  lemma ProceedKeepsRows(cfg: Config, s: System, epoch: string)
    requires ValidConfig(cfg) && Safe(s) && RowsInStep(cfg, s) && !s.handler.Free?
    ensures RowsInStep(cfg, Proceeded(cfg, s, epoch))
  {
    match s.handler {
      case Applying(device, spec, op) => RowsOfTarget(s.mem, device, spec, op);
      case DeletingRow(name) => assert name in RowsOf(s.mem);
      case Dropping(name) => RowsOfRemoved(s.mem, name);
      case Seeding(clear) =>
        BaseWellFormed(cfg, clear);
        RowsOfSeeded(Base(cfg, clear));
      case Reapplying(clear) => RowsOfSameContents(Base(cfg, clear), WithAllStandalone(Base(cfg, clear), s.pvTable));
      case PvAdding(pv) => RowsOfSameContents(s.mem, WithStandalone(s.mem, pv));
      case PvDropping(pv) => RowsOfSameContents(s.mem, WithoutStandalone(s.mem, pv));
      case _ =>
    }
  }

  /** Failures, restarts and everything else, as far as the device rows go. */
  lemma NextRowsIff(cfg: Config, s: System, a: Action)
    requires ValidConfig(cfg) && Safe(s) && RowsNamed(s) && RowsInStep(cfg, s) && Enabled(cfg, s, a)
    ensures RowsInStep(cfg, Next(cfg, s, a)) <==> !BreaksRows(cfg, s, a)
  {
    if a.Proceed? {
      ProceedKeepsRows(cfg, s, a.epoch);
    } else if a.Crash? {
      RestartInStepIff(cfg, s, a.names, a.epoch);
    } else if a.Fail? {
      FailRowsIff(cfg, s);
    }
  }

  lemma FailRowsIff(cfg: Config, s: System)
    requires ValidConfig(cfg) && Safe(s) && RowsInStep(cfg, s) && CanFail(s.handler)
    ensures RowsInStep(cfg, Next(cfg, s, Fail)) <==> !BreaksRows(cfg, s, Fail)
  {
    if s.handler.Reapplying? {
      BaseWellFormed(cfg, s.handler.clear);
      RowsEqualIff(s.mem, Base(cfg, s.handler.clear));
    }
  }

  /** The wipe of a reset, and a restart that loads, lead back to agreement from any state. */
  lemma MendsRestore(cfg: Config, s: System, a: Action)
    requires ValidConfig(cfg) && RowsNamed(s) && Enabled(cfg, s, a) && Mends(s, a)
    ensures InStep(cfg, Next(cfg, s, a))
  {
    if a.Crash? {
      RestartInStepIff(cfg, s, a.names, a.epoch);
    }
  }

  /** Nothing has lost agreement since the last step that restores it, or since `intact` held at the start. */
  ghost predicate Mended(cfg: Config, s: System, actions: seq<Action>, intact: bool)
    requires ValidConfig(cfg) && Behaviour(cfg, s, actions)
    decreases |actions|
  {
    if actions == [] then intact
    else
      Mended(cfg, Next(cfg, s, actions[0]), actions[1..],
             Mends(s, actions[0]) || (intact && !Breaks(cfg, s, actions[0])))
  }

  lemma {:induction false} MendedInStep(cfg: Config, s: System, actions: seq<Action>, intact: bool)
    requires ValidConfig(cfg) && Safe(s) && RowsNamed(s) && (intact ==> InStep(cfg, s))
    requires Behaviour(cfg, s, actions) && Mended(cfg, s, actions, intact)
    ensures InStep(cfg, After(cfg, s, actions))
    decreases |actions|
  {
    if actions != [] {
      NextKeepsSafe(cfg, s, actions[0]);
      NextKeepsRowsNamed(cfg, s, actions[0]);
      if Mends(s, actions[0]) {
        MendsRestore(cfg, s, actions[0]);
      } else if intact {
        NextInStepIff(cfg, s, actions[0]);
      }
      MendedInStep(cfg, Next(cfg, s, actions[0]), actions[1..],
                   Mends(s, actions[0]) || (intact && !Breaks(cfg, s, actions[0])));
    }
  }

  lemma BootIsInStep(cfg: Config, now: int, epoch: string)
    requires ValidConfig(cfg)
    ensures InStep(cfg, Boot(cfg, now, epoch))
  {
    RowsOfSeeded(cfg.profile);
  }

  /**
   Whenever `registry_lock` is free and nothing has lost agreement since the last step that
   restores it, the database says what memory says.
   */
  lemma FreeMeansAgreement(cfg: Config, now: int, epoch: string, actions: seq<Action>)
    requires ValidConfig(cfg) && Behaviour(cfg, Boot(cfg, now, epoch), actions)
    requires Mended(cfg, Boot(cfg, now, epoch), actions, true)
    ensures var s := After(cfg, Boot(cfg, now, epoch), actions);
      s.handler.Free? ==>
        && DevicesIn(s.store.table) == s.mem.devices && SpecsIn(s.store.table) == s.mem.specs
        && s.pvTable == s.mem.standalone
  {
    BootIsSafe(cfg, now, epoch);
    BootIsInStep(cfg, now, epoch);
    AlwaysSafe(cfg, Boot(cfg, now, epoch), actions);
    MendedInStep(cfg, Boot(cfg, now, epoch), actions, true);
    StoredContents(After(cfg, Boot(cfg, now, epoch), actions).mem);
  }

  // ---------------------------------------------------------------------------
  // The two steps that lose agreement
  // ---------------------------------------------------------------------------

  lemma RowsEqualIff(a: Registry, b: Registry)
    requires WellFormed(a) && WellFormed(b)
    ensures RowsOf(a) == RowsOf(b) <==> a.devices == b.devices && a.specs == b.specs
  {
    StoredContents(a);
    StoredContents(b);
    if a.devices == b.devices && a.specs == b.specs {
      RowsOfSameContents(a, b);
    }
  }

  /** A failed transaction gives up the operation and changes nothing else. */
  lemma FailLeaves(cfg: Config, s: System)
    requires ValidConfig(cfg) && Enabled(cfg, s, Fail)
    ensures Next(cfg, s, Fail) == s.(handler := Free)
  {
  }

  /**
   A reset is two transactions. When it fails after the first, the rows still match memory
   exactly when what was written by then happens to say what memory says.
   */
  lemma FailureAfterWipeIff(cfg: Config, s: System)
    requires ValidConfig(cfg) && Safe(s) && InStep(cfg, s) && FailsAfterWipe(s, Fail)
    ensures Next(cfg, s, Fail).handler.Free?
    ensures var written := if s.handler.Seeding? then Empty else Base(cfg, s.handler.clear);
      Next(cfg, s, Fail).store.table == RowsOf(Next(cfg, s, Fail).mem) <==>
      s.mem.devices == written.devices && s.mem.specs == written.specs
  {
    FailLeaves(cfg, s);
    WrittenByFailure(cfg, s);
    RowsEqualIff(s.mem, if s.handler.Seeding? then Empty else Base(cfg, s.handler.clear));
  }

  lemma WrittenByFailure(cfg: Config, s: System)
    requires ValidConfig(cfg) && InStep(cfg, s) && FailsAfterWipe(s, Fail)
    ensures var written := if s.handler.Seeding? then Empty else Base(cfg, s.handler.clear);
      WellFormed(written) && s.store.table == RowsOf(written)
  {
    if s.handler.Seeding? {
      assert RowsOf(Empty) == map[];
    } else {
      BaseWellFormed(cfg, s.handler.clear);
    }
  }

  /** The first two steps of a reset of an idle service with no locks leave it about to seed an empty table. */
  lemma ResetWipes(cfg: Config, s: System, epoch: string)
    requires ValidConfig(cfg) && Safe(s) && Enabled(cfg, s, Action.Reset) && s.locks.locks == map[]
    ensures var s1 := Next(cfg, s, Action.Reset);
      && Enabled(cfg, s1, Proceed(epoch))
      && var s2 := Next(cfg, s1, Proceed(epoch));
      && Enabled(cfg, s2, Proceed(epoch))
      && var s3 := Next(cfg, s2, Proceed(epoch));
      && Enabled(cfg, s3, Fail) && s3.store.table == map[] && s3.mem == s.mem
  {
  }

  /** Any configured service with a device reaches the failing state: reset, wipe, failed seed. */
  lemma ResetCanLoseAgreement(cfg: Config, now: int, epoch: string)
    requires ValidConfig(cfg) && cfg.profile.devices != map[]
    ensures var actions := FailedReset(epoch);
      && Behaviour(cfg, Boot(cfg, now, epoch), actions)
      && var s := After(cfg, Boot(cfg, now, epoch), actions);
         && s.handler.Free? && s.locks.locks == map[]
         && s.store.table == map[] && s.store.seeded.None? && s.mem == cfg.profile
  {
    var s0 := Boot(cfg, now, epoch);
    BootIsSafe(cfg, now, epoch);
    ResetWipes(cfg, s0, epoch);
    FourSteps(cfg, s0, Action.Reset, Proceed(epoch), Proceed(epoch), Fail);
  }

  function FailedReset(epoch: string): seq<Action> {
    [Action.Reset, Proceed(epoch), Proceed(epoch), Fail]
  }

  lemma FourSteps(cfg: Config, s: System, a: Action, b: Action, c: Action, d: Action)
    requires ValidConfig(cfg) && Enabled(cfg, s, a)
    requires Enabled(cfg, Next(cfg, s, a), b)
    requires Enabled(cfg, Next(cfg, Next(cfg, s, a), b), c)
    requires Enabled(cfg, Next(cfg, Next(cfg, Next(cfg, s, a), b), c), d)
    ensures Behaviour(cfg, s, [a, b, c, d])
    ensures After(cfg, s, [a, b, c, d]) == Next(cfg, Next(cfg, Next(cfg, Next(cfg, s, a), b), c), d)
  {
    ThreeSteps(cfg, Next(cfg, s, a), b, c, d);
    OneStep(cfg, s, a, [b, c, d]);
    assert [a, b, c, d] == [a] + [b, c, d];
  }

  lemma ThreeSteps(cfg: Config, s: System, a: Action, b: Action, c: Action)
    requires ValidConfig(cfg) && Enabled(cfg, s, a)
    requires Enabled(cfg, Next(cfg, s, a), b)
    requires Enabled(cfg, Next(cfg, Next(cfg, s, a), b), c)
    ensures Behaviour(cfg, s, [a, b, c])
    ensures After(cfg, s, [a, b, c]) == Next(cfg, Next(cfg, Next(cfg, s, a), b), c)
  {
    var s1 := Next(cfg, s, a);
    OneStep(cfg, Next(cfg, s1, b), c, []);
    OneStep(cfg, s1, b, [c]);
    OneStep(cfg, s, a, [b, c]);
    assert [a, b, c] == [a] + [b, c] && [b, c] == [b] + [c] && [c] == [c] + [];
  }

  lemma OneStep(cfg: Config, s: System, a: Action, rest: seq<Action>)
    requires ValidConfig(cfg) && Enabled(cfg, s, a) && Behaviour(cfg, Next(cfg, s, a), rest)
    ensures Behaviour(cfg, s, [a] + rest)
    ensures After(cfg, s, [a] + rest) == After(cfg, Next(cfg, s, a), rest)
  {
    assert ([a] + rest)[0] == a && ([a] + rest)[1..] == rest;
  }

  /** One behaviour after another. */
  lemma {:induction false} Joined(cfg: Config, s: System, first: seq<Action>, second: seq<Action>)
    requires ValidConfig(cfg) && Behaviour(cfg, s, first) && Behaviour(cfg, After(cfg, s, first), second)
    ensures Behaviour(cfg, s, first + second)
    ensures After(cfg, s, first + second) == After(cfg, After(cfg, s, first), second)
    decreases |first|
  {
    if first == [] {
      assert first + second == second;
    } else {
      Joined(cfg, Next(cfg, s, first[0]), first[1..], second);
      FirstOfJoined(first, second);
    }
  }

  /**
   The unlocked write of an update keeps the standalone tables in step exactly when its row is
   still there, or a reset is under way that has yet to read the table.
   */
  lemma UnlockedWriteIff(cfg: Config, s: System, pv: string)
    requires ValidConfig(cfg) && Enabled(cfg, s, WritePv(pv)) && InStep(cfg, s)
    ensures InStep(cfg, Next(cfg, s, WritePv(pv))) <==>
            pv in s.pvTable || s.handler.Seeding? || s.handler.Reapplying?
  {
    assert RowsInStep(cfg, Next(cfg, s, WritePv(pv)));
    if pv in s.pvTable {
      assert s.pvTable + {pv} == s.pvTable;
    } else if s.handler.ClearingLocks? || s.handler.Publishing? {
      BuiltFromOther(cfg, s.handler.next, s.pvTable, pv);
    } else {
      assert pv in s.pvTable + {pv};
    }
  }

  lemma BuiltFromOther(cfg: Config, next: Registry, pvs: set<string>, pv: string)
    requires ValidConfig(cfg) && BuiltFrom(cfg, next, pvs) && pv !in pvs
    ensures !BuiltFrom(cfg, next, pvs + {pv})
  {
    assert next.standalone == pvs && pv in pvs + {pv};
  }

  /** An update that read its row before a delete brings the deleted PV back, in the table only. */
  lemma UpdateCanResurrect(cfg: Config, s: System, pv: string, epoch: string)
    requires ValidConfig(cfg) && InStep(cfg, s) && s.handler.Free? && pv in s.pvTable
    ensures var s1 := Next(cfg, s, ReadPv(pv));
      var s2 := Next(cfg, s1, DeletePv(pv));
      var s3 := Proceeded(cfg, Proceeded(cfg, Proceeded(cfg, s2, epoch), epoch), epoch);
      && s3.handler.Free? && InStep(cfg, s3) && Enabled(cfg, s3, WritePv(pv))
      && var s4 := Next(cfg, s3, WritePv(pv));
         s4.handler.Free? && pv in s4.pvTable && pv !in s4.mem.standalone
  {
    RowsOfSameContents(s.mem, WithoutStandalone(s.mem, pv));
  }
}
