/**
 The availability answers built on the registry and the lock table
 (configuration_service/main.py get_pv_status).
 */
module Availability {
  import opened Models
  import opened DeviceRegistries
  import opened Locks
  import opened Protocol

  datatype PvStatus =
    | PvUnknown                                              // 404
    | StandalonePv                                           // available, no owning device
    | SpecMissing(device: string)                            // 500
    | DevicePv(device: string, available: bool, enabled: bool, locked: bool)

  /** `ownAt` and `globalAt` are the clock readings of `effective_lock`. */
  ghost function PvStatusOf(mem: Registry, locks: Table, pv: string, ownAt: int, globalAt: int): PvStatus {
    if pv !in mem.index then PvUnknown
    else if mem.index[pv].Unowned? then StandalonePv
    else
      var device := mem.index[pv].device;
      if device !in mem.specs then PvStatus.SpecMissing(device)
      else
        var locked := Unavailable(locks, device, ownAt, globalAt);
        DevicePv(device, mem.specs[device].active && !locked, mem.specs[device].active, locked)
  }

  predicate MayCommand(status: PvStatus) {
    status.StandalonePv? || (status.DevicePv? && status.available)
  }

  /** The state after a behaviour of the service from its first startup. */
  ghost function Reached(cfg: Config, now: int, epoch: string, actions: seq<Action>): System
    requires ValidConfig(cfg) && Behaviour(cfg, Boot(cfg, now, epoch), actions)
  {
    After(cfg, Boot(cfg, now, epoch), actions)
  }

  lemma ReachedIsSafe(cfg: Config, now: int, epoch: string, actions: seq<Action>)
    requires ValidConfig(cfg) && Behaviour(cfg, Boot(cfg, now, epoch), actions)
    ensures Safe(Reached(cfg, now, epoch, actions))
  {
    BootIsSafe(cfg, now, epoch);
    AlwaysSafe(cfg, Boot(cfg, now, epoch), actions);
  }

  /**
   In every reachable state, a PV whose listing devices all hold unexpired locks is reported
   unavailable, and never as an inconsistency, whichever of them the index credits it to.
   */
  lemma LockedListersMakeUnavailable(cfg: Config, now: int, epoch: string, actions: seq<Action>, pv: string,
      ownAt: int, globalAt: int)
    requires ValidConfig(cfg) && Behaviour(cfg, Boot(cfg, now, epoch), actions)
    requires var s := Reached(cfg, now, epoch, actions);
      && s.now <= ownAt <= globalAt
      && ListedBySome(s.mem.devices, pv)
      && forall n :: n in s.mem.devices && Lists(s.mem.devices[n], pv) ==> Active(s.locks.locks, n, ownAt)
    ensures var s := Reached(cfg, now, epoch, actions);
      var status := PvStatusOf(s.mem, s.locks, pv, ownAt, globalAt);
      status.DevicePv? && !MayCommand(status)
  {
    ReachedIsSafe(cfg, now, epoch, actions);
    var s := Reached(cfg, now, epoch, actions);
    var owner := s.mem.index[pv];
    OwnerLists(s.mem.devices[owner.device], owner.component, pv);
    assert Active(s.locks.locks, owner.device, s.now);
  }

  /** Under lock_all, one live lock anywhere makes every device-owned PV unavailable in every reachable state. */
  lemma LockAllMakesUnavailable(cfg: Config, now: int, epoch: string, actions: seq<Action>, pv: string,
      holder: string, ownAt: int, globalAt: int)
    requires ValidConfig(cfg) && Behaviour(cfg, Boot(cfg, now, epoch), actions)
    requires var s := Reached(cfg, now, epoch, actions);
      && s.now <= ownAt <= globalAt
      && s.locks.lockAll && Active(s.locks.locks, holder, globalAt)
      && ListedBySome(s.mem.devices, pv)
    ensures var s := Reached(cfg, now, epoch, actions);
      !MayCommand(PvStatusOf(s.mem, s.locks, pv, ownAt, globalAt))
  {
    ReachedIsSafe(cfg, now, epoch, actions);
    assert Reached(cfg, now, epoch, actions).mem.index[pv].Owned?;
  }

  /**
   In every reachable state exactly the standalone PVs that no device lists are reported
   standalone, whatever is locked.
   */
  lemma StandaloneAlwaysAvailable(cfg: Config, now: int, epoch: string, actions: seq<Action>, pv: string,
      ownAt: int, globalAt: int)
    requires ValidConfig(cfg) && Behaviour(cfg, Boot(cfg, now, epoch), actions)
    ensures var s := Reached(cfg, now, epoch, actions);
      pv in s.mem.standalone && !ListedBySome(s.mem.devices, pv) <==>
      PvStatusOf(s.mem, s.locks, pv, ownAt, globalAt) == StandalonePv
  {
    ReachedIsSafe(cfg, now, epoch, actions);
  }

  /** With no lock live and every spec present and active, every indexed PV can be commanded. */
  lemma IdleServiceIsAvailable(s: System, pv: string, ownAt: int, globalAt: int)
    requires Safe(s) && s.now <= ownAt <= globalAt && pv in s.mem.index
    requires forall n :: n in s.mem.devices ==> n in s.mem.specs && s.mem.specs[n].active
    requires forall n :: !Active(s.locks.locks, n, s.now)
    ensures MayCommand(PvStatusOf(s.mem, s.locks, pv, ownAt, globalAt))
  {
    forall n: string
      ensures !Active(s.locks.locks, n, ownAt) && !Active(s.locks.locks, n, globalAt)
    {
      assert !Active(s.locks.locks, n, s.now);
    }
  }

  /** The device has a live lock of its own, or the policy is on and some device has one. */
  ghost predicate Governed(t: Table, name: string, ownAt: int, globalAt: int) {
    || (name in t.locks && !Expired(t.locks[name], ownAt))
    || (t.lockAll && exists n :: n in t.locks && !Expired(t.locks[n], globalAt))
  }

  lemma {:induction false} EarliestExists(locks: map<string, Lock>, names: set<string>, now: int)
      returns (first: string)
    requires names <= locks.Keys && exists n :: n in names && Active(locks, n, now)
    ensures first in names && Active(locks, first, now)
    ensures forall n :: n in names && Active(locks, n, now) ==> locks[first].lockedAt <= locks[n].lockedAt
    decreases |names|
  {
    first :| first in names && Active(locks, first, now);
    var rest := names - {first};
    if exists n :: n in rest && Active(locks, n, now) {
      var other := EarliestExists(locks, rest, now);
      if locks[other].lockedAt < locks[first].lockedAt {
        first := other;
      }
    }
  }

  lemma UnavailableIff(t: Table, name: string, ownAt: int, globalAt: int)
    ensures Unavailable(t, name, ownAt, globalAt) <==> Governed(t, name, ownAt, globalAt)
  {
    if t.lockAll && exists n :: n in t.locks && !Expired(t.locks[n], globalAt) {
      var n :| n in t.locks && !Expired(t.locks[n], globalAt);
      assert Active(t.locks, n, globalAt);
      var first := EarliestExists(t.locks, t.locks.Keys, globalAt);
      assert EarliestAt(t.locks, first, globalAt);
    }
  }

  /**
   What the status of a PV says: unknown iff it is not indexed; standalone iff it is indexed
   without an owner; else its owner, whether that is enabled, and whether a lock governs it. It
   is available iff its owner is enabled and ungoverned.
   */
  lemma StatusSays(mem: Registry, locks: Table, pv: string, ownAt: int, globalAt: int)
    ensures var status := PvStatusOf(mem, locks, pv, ownAt, globalAt);
      && (status.PvUnknown? <==> pv !in mem.index)
      && (status.StandalonePv? <==> pv in mem.index && mem.index[pv].Unowned?)
      && (pv in mem.index && mem.index[pv].Owned? ==>
            var owner := mem.index[pv].device;
            && (status == PvStatus.SpecMissing(owner) <==> owner !in mem.specs)
            && (owner in mem.specs ==>
                  && status.DevicePv? && status.device == owner
                  && (status.enabled <==> mem.specs[owner].active)
                  && (status.locked <==> Governed(locks, owner, ownAt, globalAt))
                  && (status.available <==> mem.specs[owner].active && !Governed(locks, owner, ownAt, globalAt))))
  {
    if pv in mem.index && mem.index[pv].Owned? {
      UnavailableIff(locks, mem.index[pv].device, ownAt, globalAt);
    }
  }

  /**
   In every reachable state, a PV may be commanded exactly when it is indexed without an owner,
   or its owner has an active spec and no lock governs it.
   */
  lemma MayCommandIff(cfg: Config, now: int, epoch: string, actions: seq<Action>, pv: string, ownAt: int,
    globalAt: int)
    requires ValidConfig(cfg) && Behaviour(cfg, Boot(cfg, now, epoch), actions)
    ensures var s := Reached(cfg, now, epoch, actions);
      MayCommand(PvStatusOf(s.mem, s.locks, pv, ownAt, globalAt)) <==>
        && pv in s.mem.index
        && (s.mem.index[pv].Unowned? ||
            (&& s.mem.index[pv].device in s.mem.specs && s.mem.specs[s.mem.index[pv].device].active
             && !Governed(s.locks, s.mem.index[pv].device, ownAt, globalAt)))
  {
    var s := Reached(cfg, now, epoch, actions);
    StatusSays(s.mem, s.locks, pv, ownAt, globalAt);
  }

  /** In every reachable state, a PV whose listing devices are all disabled may not be commanded. */
  lemma DisabledListersMayNot(cfg: Config, now: int, epoch: string, actions: seq<Action>, pv: string, ownAt: int,
    globalAt: int)
    requires ValidConfig(cfg) && Behaviour(cfg, Boot(cfg, now, epoch), actions)
    requires var s := Reached(cfg, now, epoch, actions);
      && ListedBySome(s.mem.devices, pv)
      && forall n :: n in s.mem.devices && Lists(s.mem.devices[n], pv) && n in s.mem.specs ==> !s.mem.specs[n].active
    ensures var s := Reached(cfg, now, epoch, actions);
      !MayCommand(PvStatusOf(s.mem, s.locks, pv, ownAt, globalAt))
  {
    ReachedIsSafe(cfg, now, epoch, actions);
    var s := Reached(cfg, now, epoch, actions);
    OwnerLists(s.mem.devices[s.mem.index[pv].device], s.mem.index[pv].component, pv);
    MayCommandIff(cfg, now, epoch, actions, pv, ownAt, globalAt);
  }

  /** `get_pv_status`, with the lock manager it asks. */
  method GetPvStatus(mem: Registry, manager: DeviceLockManager, pv: string, ownAt: int, globalAt: int,
      order: seq<string>) returns (status: PvStatus)
    requires forall n :: n in order <==> n in manager.locks
    ensures status == PvStatusOf(mem, manager.Model(), pv, ownAt, globalAt)
  {
    if pv !in mem.index {
      return PvUnknown;
    }
    if mem.index[pv].Unowned? {
      return StandalonePv;
    }
    var device := mem.index[pv].device;
    if device !in mem.specs {
      return PvStatus.SpecMissing(device);
    }
    var lock := manager.EffectiveLock(device, ownAt, globalAt, order);
    var enabled := mem.specs[device].active;
    return DevicePv(device, enabled && lock.None?, enabled, lock.Some?);
  }
}
