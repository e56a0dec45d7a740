/**
 What a device lock protects: as long as a lock is held, nobody changes or removes the device
 (configuration_service/main.py, the lock checks of the update and delete handlers).
 */
module Holds {
  import opened Models
  import opened DeviceRegistries
  import opened Locks
  import opened Stores
  import opened Protocol
  import LockRuns
  import LockAnswers

  /** The step may end the hold: a restart, the lock step of a reset or clear, or a call entitled to. */
  predicate Ends(s: System, a: Action, name: string)
    requires name in s.locks.locks
  {
    || a.Crash?
    || (a.Proceed? && s.handler.ClearingLocks?)
    || (a.LockCall? && LockRuns.MayEnd(a.c.event, name, s.locks.locks[name].item))
  }

  /** No step of the run ends the hold or goes on beyond its lease. */
  ghost predicate HeldThrough(cfg: Config, s: System, actions: seq<Action>, name: string)
    requires ValidConfig(cfg) && Behaviour(cfg, s, actions)
    decreases |actions|
  {
    actions == [] ||
    (&& Active(s.locks.locks, name, Next(cfg, s, actions[0]).now)
     && !Ends(s, actions[0], name)
     && HeldThrough(cfg, Next(cfg, s, actions[0]), actions[1..], name))
  }

  predicate SameButActive(a: Spec, b: Spec) {
    a == b.(active := a.active)
  }

  /** The device and spec are those of memory, up to the flag. */
  predicate FromMemory(mem: Registry, device: Device, spec: Option<Spec>) {
    && device.name in mem.devices && device.name in mem.specs
    && device == mem.devices[device.name]
    && spec.Some? && SameButActive(spec.value, mem.specs[device.name])
  }

  /** A handler that enables or disables a device has its metadata and its spec from memory. */
  predicate TogglesOnly(mem: Registry, h: Handler) {
    (h.Saving? || h.Applying?) && !h.op.Add? && !h.op.Update? ==> FromMemory(mem, h.device, h.spec)
  }

  ghost predicate Sound(s: System) {
    Safe(s) && RowsNamed(s) && TogglesOnly(s.mem, s.handler)
  }

  lemma SoundKept(cfg: Config, s: System, a: Action)
    requires ValidConfig(cfg) && Sound(s) && Enabled(cfg, s, a)
    ensures Sound(Next(cfg, s, a))
  {
    NextKeepsSafe(cfg, s, a);
    NextKeepsRowsNamed(cfg, s, a);
    TogglesKept(cfg, s, a);
  }

  lemma TogglesKept(cfg: Config, s: System, a: Action)
    requires ValidConfig(cfg) && Safe(s) && TogglesOnly(s.mem, s.handler) && Enabled(cfg, s, a)
    ensures TogglesOnly(Next(cfg, s, a).mem, Next(cfg, s, a).handler)
  {
    if a.SetActive? && a.name in s.mem.devices {
      assert s.mem.devices[a.name].name == a.name;
    }
  }

  /** The memory has the device with the same metadata and, up to the flag, the same spec. */
  predicate Untouched(before: Registry, after: Registry, name: string) {
    && name in before.devices && name in before.specs && name in after.devices && name in after.specs
    && after.devices[name] == before.devices[name] && SameButActive(after.specs[name], before.specs[name])
  }

  lemma ApplyingSpares(mem: Registry, device: Device, spec: Option<Spec>, op: Operation, locks: map<string, Lock>,
    now: int, name: string)
    requires ChecksHold(mem, device, spec, op, locks, now) && Active(locks, name, now)
    requires name in mem.devices && name in mem.specs
    requires !op.Add? && !op.Update? ==> FromMemory(mem, device, spec)
    ensures Untouched(mem, Target(mem, device, spec, op), name)
  {
  }

  /** Nobody has touched the device: it is the same hold, the same metadata, and the same spec up to the flag. */
  ghost predicate Protected(before: System, after: System, name: string) {
    && name in before.locks.locks && name in after.locks.locks
    && LockRuns.SameHold(after.locks.locks[name], before.locks.locks[name])
    && Untouched(before.mem, after.mem, name)
  }

  lemma HoldKept(cfg: Config, s: System, a: Action, name: string)
    requires ValidConfig(cfg) && Enabled(cfg, s, a)
    requires Active(s.locks.locks, name, Next(cfg, s, a).now) && !Ends(s, a, name)
    ensures var after := Next(cfg, s, a);
      && Active(after.locks.locks, name, after.now)
      && LockRuns.SameHold(after.locks.locks[name], s.locks.locks[name])
  {
    if a.LockCall? {
      LockRuns.HeldThroughCall(s.locks, a.c, name);
      LockAnswers.LockedAfterIff(s.locks, a.c, name, a.c.done);
    }
  }

  lemma MemoryKept(cfg: Config, s: System, a: Action, name: string)
    requires ValidConfig(cfg) && Enabled(cfg, s, a) && Safe(s) && TogglesOnly(s.mem, s.handler)
    requires Active(s.locks.locks, name, s.now) && !Ends(s, a, name)
    ensures Untouched(s.mem, Next(cfg, s, a).mem, name)
  {
    assert name in s.mem.devices && name in s.mem.specs;
    if a.Proceed? && s.handler.Applying? {
      ApplyingSpares(s.mem, s.handler.device, s.handler.spec, s.handler.op, s.locks.locks, s.now, name);
    }
  }

  lemma {:induction false} HeldRun(cfg: Config, s: System, actions: seq<Action>, name: string)
    requires ValidConfig(cfg) && Sound(s) && Active(s.locks.locks, name, s.now)
    requires Behaviour(cfg, s, actions) && HeldThrough(cfg, s, actions, name)
    ensures Protected(s, After(cfg, s, actions), name)
    ensures Active(After(cfg, s, actions).locks.locks, name, After(cfg, s, actions).now)
    decreases |actions|
  {
    if actions != [] {
      HoldKept(cfg, s, actions[0], name);
      MemoryKept(cfg, s, actions[0], name);
      SoundKept(cfg, s, actions[0]);
      HeldRun(cfg, Next(cfg, s, actions[0]), actions[1..], name);
    }
  }

  lemma {:induction false} SoundAlways(cfg: Config, s: System, actions: seq<Action>)
    requires ValidConfig(cfg) && Sound(s) && Behaviour(cfg, s, actions)
    ensures Sound(After(cfg, s, actions))
    decreases |actions|
  {
    if actions != [] {
      SoundKept(cfg, s, actions[0]);
      SoundAlways(cfg, Next(cfg, s, actions[0]), actions[1..]);
    }
  }

  /**
   From any reachable state in which a device is locked, through every interleaving that neither
   ends the hold nor outlasts its lease, whatever handlers were under way when it began: the
   device keeps its lock, its metadata and, but for the enabled flag, its spec; and at the end
   every update and delete of it is refused.
   */
  lemma HoldProtects(cfg: Config, now: int, epoch: string, before: seq<Action>, actions: seq<Action>, name: string,
    a: Action)
    requires ValidConfig(cfg) && Behaviour(cfg, Boot(cfg, now, epoch), before)
    requires var s := After(cfg, Boot(cfg, now, epoch), before);
      && Active(s.locks.locks, name, s.now)
      && Behaviour(cfg, s, actions) && HeldThrough(cfg, s, actions, name)
    requires a == Action.Delete(name) || (a.Update? && a.device.name == name)
    ensures var s := After(cfg, Boot(cfg, now, epoch), before);
      var after := After(cfg, s, actions);
      && Protected(s, after, name)
      && (after.handler.Free? ==> Next(cfg, after, a) == after)
  {
    BootIsSafe(cfg, now, epoch);
    SoundAlways(cfg, Boot(cfg, now, epoch), before);
    HeldRun(cfg, After(cfg, Boot(cfg, now, epoch), before), actions, name);
  }

  /** A granted request begins such a hold on each of its devices, unless its lease is over before it is answered. */
  lemma GrantBeginsHold(cfg: Config, s: System, c: LockRuns.Call, i: nat)
    requires ValidConfig(cfg) && Enabled(cfg, s, LockCall(c)) && LockRuns.Timed(c) && c.event.Acquire?
    requires i < |c.event.request.names|
    requires Acquired(s.locks, c.event.registry, c.event.request, c.event.lockId, c.event.readings).1.Granted?
    ensures var after := Next(cfg, s, LockCall(c));
      var name := c.event.request.names[i];
      && name in after.locks.locks
      && after.locks.locks[name].lockId == c.event.lockId && after.locks.locks[name].item == c.event.request.item
      && (Active(after.locks.locks, name, after.now) <==>
            s.locks.ttl <= 0 || after.now < c.event.readings[|c.event.request.names|] + s.locks.ttl)
  {
    var e := c.event;
    LockRuns.AcquireAllOrNothing(s.locks, e.registry, e.request, e.lockId, e.readings);
    LockAnswers.GrantedUntil(s.locks, e.registry, e.request, e.lockId, e.readings, i, c.done);
  }
}
