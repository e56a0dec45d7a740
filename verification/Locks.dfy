/**
 The device lock manager as a timed state machine (configuration_service/lock_manager.py).

 Every reading of the clock is a parameter, one per call the code makes; readings do not
 decrease. A fresh lock id is a parameter too. `locked` is always true on a stored lock, so
 it is not a field here.
 */
module Locks {
  import opened Models
  import opened DeviceRegistries

  /** `DeviceLockState`; `expiresAt` is `None` when leases are disabled. */
  datatype Lock = Lock(
    device: string, plan: string, item: string, service: string,
    lockId: string, lockedAt: int, expiresAt: Option<int>)

  /** The value of a `DeviceLockManager`. */
  datatype Table = Table(locks: map<string, Lock>, version: nat, lockAll: bool, ttl: int)

  datatype Reason = NotFound | SpecMissing | Disabled | AlreadyLocked(plan: string, since: int)

  datatype Conflict = Conflict(device: string, reason: Reason)

  datatype Request = Request(names: seq<string>, item: string, plan: string, service: string)

  datatype AcquireResult =
    | Granted(lockId: string, devices: seq<string>, pvs: set<string>, expiresAt: Option<int>)
    | Refused(conflicts: seq<Conflict>, code: int)

  datatype Standing = Renewable | Lost | HeldByOther

  datatype RenewResult = RenewResult(
    success: bool, renewed: seq<string>, lost: seq<string>, conflicts: seq<string>, expiresAt: Option<int>)

  predicate Expired(lock: Lock, now: int) {
    lock.expiresAt.Some? && now >= lock.expiresAt.value
  }

  predicate Active(locks: map<string, Lock>, name: string, now: int) {
    name in locks && !Expired(locks[name], now)
  }

  function NextExpiry(ttl: int, now: int): Option<int> {
    if ttl <= 0 then None else Some(now + ttl)
  }

  // ---------------------------------------------------------------------------
  // What each operation does to the table
  // ---------------------------------------------------------------------------

  /** Why `name` cannot be locked at `now`, if it cannot. */
  function Obstacle(locks: map<string, Lock>, registry: Registry, name: string, now: int): Option<Reason> {
    if name !in registry.devices then Some(NotFound)
    else if name !in registry.specs then Some(SpecMissing)
    else if !registry.specs[name].active then Some(Disabled)
    else if Active(locks, name, now) then Some(AlreadyLocked(locks[name].plan, locks[name].lockedAt))
    else None
  }

  /** One conflict for each blocked name, in request order; name `i` is checked at `readings[i]`. */
  function Conflicts(locks: map<string, Lock>, registry: Registry, names: seq<string>,
      readings: seq<int>): seq<Conflict>
    requires |names| <= |readings|
  {
    if names == [] then []
    else
      var last := |names| - 1;
      var rest := Conflicts(locks, registry, names[..last], readings);
      match Obstacle(locks, registry, names[last], readings[last])
      case Some(reason) => rest + [Conflict(names[last], reason)]
      case None => rest
  }

  function ErrorCode(conflicts: seq<Conflict>): int {
    if exists c :: c in conflicts && c.reason.SpecMissing? then 500
    else if exists c :: c in conflicts && c.reason.NotFound? then 404
    else if exists c :: c in conflicts && c.reason.Disabled? then 422
    else 409
  }

  /** The lock of the last occurrence of `name`; occurrence `i` is stamped `stamps[i]`. */
  function NewLock(request: Request, names: seq<string>, name: string, lockId: string, expiresAt: Option<int>,
      stamps: seq<int>): Lock
    requires name in names && |names| <= |stamps|
  {
    var last := |names| - 1;
    if names[last] == name then Lock(name, request.plan, request.item, request.service, lockId, stamps[last], expiresAt)
    else NewLock(request, names[..last], name, lockId, expiresAt, stamps)
  }

  function LocksGranted(locks: map<string, Lock>, request: Request, names: seq<string>, lockId: string,
      expiresAt: Option<int>, stamps: seq<int>): map<string, Lock>
    requires |names| <= |stamps|
  {
    map n | n in locks.Keys + Elements(names) ::
      if n in names then NewLock(request, names, n, lockId, expiresAt, stamps) else locks[n]
  }

  function DevicePvs(registry: Registry, names: seq<string>): set<string> {
    set n, b | n in names && n in registry.devices && b in registry.devices[n].pvs :: b.pv
  }

  /**
   All-or-nothing acquisition. The clock is read once per checked name, once for the lease,
   and once per created lock.
   */
  function Acquired(t: Table, registry: Registry, request: Request, lockId: string, readings: seq<int>): (Table,
      AcquireResult)
    requires |readings| == 2 * |request.names| + 1
  {
    var count := |request.names|;
    var conflicts := Conflicts(t.locks, registry, request.names, readings);
    if conflicts != [] then (t, Refused(conflicts, ErrorCode(conflicts)))
    else
      var expiresAt := NextExpiry(t.ttl, readings[count]);
      (t.(locks := LocksGranted(t.locks, request, request.names, lockId, expiresAt, readings[count + 1..]),
          version := t.version + 1),
       Granted(lockId, request.names, DevicePvs(registry, request.names), expiresAt))
  }

  function StandingOf(locks: map<string, Lock>, name: string, item: string, now: int): Standing {
    if !Active(locks, name, now) then Lost
    else if locks[name].item != item then HeldByOther
    else Renewable
  }

  /** The requested names with the given standing, in request order. */
  function WithStanding(locks: map<string, Lock>, names: seq<string>, item: string, now: int,
      standing: Standing): seq<string> {
    if names == [] then []
    else
      var last := |names| - 1;
      WithStanding(locks, names[..last], item, now, standing) +
      if StandingOf(locks, names[last], item, now) == standing then [names[last]] else []
  }

  function LocksRenewed(locks: map<string, Lock>, names: seq<string>, item: string, now: int,
      expiresAt: Option<int>): map<string, Lock> {
    map n | n in locks ::
      if n in names && StandingOf(locks, n, item, now).Renewable? then locks[n].(expiresAt := expiresAt) else locks[n]
  }

  lemma RenewOneMore(locks: map<string, Lock>, names: seq<string>, name: string, item: string, now: int,
      expiresAt: Option<int>)
    ensures var renewed := LocksRenewed(locks, names, item, now, expiresAt);
            LocksRenewed(locks, names + [name], item, now, expiresAt) ==
            if StandingOf(locks, name, item, now).Renewable? && name in locks
            then renewed[name := locks[name].(expiresAt := expiresAt)] else renewed
    ensures forall standing ::
      WithStanding(locks, names + [name], item, now, standing) ==
      WithStanding(locks, names, item, now, standing) +
      if StandingOf(locks, name, item, now) == standing then [name] else []
  {
    assert (names + [name])[..|names|] == names;
    assert forall n :: n in names + [name] <==> n in names || n == name;
  }

  function Renewed(t: Table, names: seq<string>, item: string, now: int): (Table, RenewResult) {
    var expiresAt := NextExpiry(t.ttl, now);
    var lost := WithStanding(t.locks, names, item, now, Lost);
    var others := WithStanding(t.locks, names, item, now, HeldByOther);
    (t.(locks := LocksRenewed(t.locks, names, item, now, expiresAt)),
     RenewResult(lost == [] && others == [],
                 WithStanding(t.locks, names, item, now, Renewable), lost, others, expiresAt))
  }

  predicate BlocksRelease(locks: map<string, Lock>, name: string, item: string, now: int) {
    StandingOf(locks, name, item, now).HeldByOther?
  }

  /** The first occurrences, in order, of the names that are keys of `locks`. */
  function HeldNames(locks: map<string, Lock>, names: seq<string>): seq<string> {
    if names == [] then []
    else
      var last := |names| - 1;
      HeldNames(locks, names[..last]) +
      if names[last] in locks && names[last] !in names[..last] then [names[last]] else []
  }

  function ReleasedBy(t: Table, names: seq<string>, item: string, now: int): (Table, bool, seq<string>) {
    if exists n :: n in names && BlocksRelease(t.locks, n, item, now) then (t, false, [])
    else
      var unlocked := HeldNames(t.locks, names);
      (t.(locks := t.locks - Elements(names), version := if unlocked == [] then t.version else t.version + 1),
       true, unlocked)
  }

  function Distinct(names: seq<string>): seq<string> {
    if names == [] then []
    else
      var last := |names| - 1;
      Distinct(names[..last]) + if names[last] in names[..last] then [] else [names[last]]
  }

  /** The distinct names that are neither registered nor locked. */
  function Unknown(locks: map<string, Lock>, registry: Registry, names: seq<string>): seq<string> {
    if names == [] then []
    else
      var last := |names| - 1;
      Unknown(locks, registry, names[..last]) +
      if names[last] !in registry.devices && names[last] !in locks then [names[last]] else []
  }

  function ForceUnlocked(t: Table, names: seq<string>, registry: Registry): (Table, seq<string>, seq<string>) {
    var unknown := Unknown(t.locks, registry, Distinct(names));
    if unknown != [] then (t, [], unknown)
    else
      (t.(locks := t.locks - Elements(names), version := if names == [] then t.version else t.version + 1),
       Distinct(names), [])
  }

  function Cleared(t: Table): Table {
    t.(locks := map[], version := if t.locks == map[] then t.version else t.version + 1)
  }

  function WithPolicy(t: Table, enabled: bool): Table {
    if enabled != t.lockAll then t.(lockAll := enabled, version := t.version + 1) else t
  }

  // ---------------------------------------------------------------------------
  // The manager object
  // ---------------------------------------------------------------------------

  class DeviceLockManager {
    var locks: map<string, Lock>
    var version: nat
    var lockAllEnabled: bool
    const leaseTtl: int

    function Model(): Table
      reads this
    {
      Table(locks, version, lockAllEnabled, leaseTtl)
    }

    constructor (lockAll: bool, leaseTtl: int)
      ensures Model() == Table(map[], 0, lockAll, leaseTtl)
    {
      this.locks, this.version, this.lockAllEnabled, this.leaseTtl := map[], 0, lockAll, leaseTtl;
    }

    /** The validation loop of `acquire_locks`: no lock is written before every name passed. */
    method CollectConflicts(registry: Registry, names: seq<string>, readings: seq<int>)
        returns (conflicts: seq<Conflict>)
      requires |names| <= |readings|
      ensures conflicts == Conflicts(locks, registry, names, readings)
    {
      conflicts := [];
      for i := 0 to |names|
        invariant conflicts == Conflicts(locks, registry, names[..i], readings)
      {
        assert names[..i + 1][..i] == names[..i];
        var name := names[i];
        if name !in registry.devices {
          conflicts := conflicts + [Conflict(name, NotFound)];
          continue;
        }
        if name !in registry.specs {
          conflicts := conflicts + [Conflict(name, SpecMissing)];
          continue;
        }
        if !registry.specs[name].active {
          conflicts := conflicts + [Conflict(name, Disabled)];
          continue;
        }
        if Active(locks, name, readings[i]) {
          conflicts := conflicts + [Conflict(name, AlreadyLocked(locks[name].plan, locks[name].lockedAt))];
        }
      }
      assert names[..|names|] == names;
    }

    /** The writing loop of `acquire_locks`. */
    method GrantLocks(request: Request, lockId: string, expiresAt: Option<int>, stamps: seq<int>)
      requires |request.names| <= |stamps|
      modifies this`locks
      ensures locks == LocksGranted(old(locks), request, request.names, lockId, expiresAt, stamps)
    {
      var names := request.names;
      for i := 0 to |names|
        invariant locks == LocksGranted(old(locks), request, names[..i], lockId, expiresAt, stamps)
      {
        GrantOneMore(old(locks), request, names[..i], names[i], lockId, expiresAt, stamps);
        assert names[..i + 1] == names[..i] + [names[i]];
        var lock := Lock(names[i], request.plan, request.item, request.service, lockId, stamps[i], expiresAt);
        locks := locks[names[i] := lock];
      }
      assert names[..|names|] == names;
    }

    method AcquireLocks(registry: Registry, request: Request, lockId: string, readings: seq<int>)
        returns (result: AcquireResult)
      requires |readings| == 2 * |request.names| + 1
      modifies this
      ensures (Model(), result) == Acquired(old(Model()), registry, request, lockId, readings)
    {
      var names := request.names;
      var conflicts := CollectConflicts(registry, names, readings);
      if conflicts != [] {
        return Refused(conflicts, ErrorCode(conflicts));
      }
      var expiresAt := NextExpiry(leaseTtl, readings[|names|]);
      var stamps := readings[|names| + 1..];
      GrantLocks(request, lockId, expiresAt, stamps);
      version := version + 1;
      return Granted(lockId, names, DevicePvs(registry, names), expiresAt);
    }

    method RenewLocks(names: seq<string>, item: string, now: int) returns (result: RenewResult)
      modifies this`locks
      ensures (Model(), result) == Renewed(old(Model()), names, item, now)
    {
      var renewed: seq<string>, lost: seq<string>, conflicts: seq<string> := [], [], [];
      var expiresAt := NextExpiry(leaseTtl, now);
      for i := 0 to |names|
        invariant locks == LocksRenewed(old(locks), names[..i], item, now, expiresAt)
        invariant renewed == WithStanding(old(locks), names[..i], item, now, Renewable)
        invariant lost == WithStanding(old(locks), names[..i], item, now, Lost)
        invariant conflicts == WithStanding(old(locks), names[..i], item, now, HeldByOther)
      {
        var name := names[i];
        assert names[..i + 1] == names[..i] + [name];
        RenewOneMore(old(locks), names[..i], name, item, now, expiresAt);
        assert StandingOf(locks, name, item, now) == StandingOf(old(locks), name, item, now);
        if name !in locks || Expired(locks[name], now) {
          lost := lost + [name];
          continue;
        }
        if locks[name].item != item {
          conflicts := conflicts + [name];
          continue;
        }
        locks := locks[name := locks[name].(expiresAt := expiresAt)];
        renewed := renewed + [name];
      }
      assert names[..|names|] == names;
      return RenewResult(lost == [] && conflicts == [], renewed, lost, conflicts, expiresAt);
    }

    method ReleaseLocks(names: seq<string>, item: string, now: int) returns (success: bool, unlocked: seq<string>)
      modifies this
      ensures (Model(), success, unlocked) == ReleasedBy(old(Model()), names, item, now)
    {
      for i := 0 to |names|
        invariant forall k :: 0 <= k < i ==> !BlocksRelease(locks, names[k], item, now)
      {
        if Active(locks, names[i], now) && locks[names[i]].item != item {
          assert BlocksRelease(locks, names[i], item, now);
          return false, [];
        }
      }
      unlocked := [];
      for i := 0 to |names|
        invariant locks == old(locks) - Elements(names[..i])
        invariant unlocked == HeldNames(old(locks), names[..i])
        invariant version == old(version) && lockAllEnabled == old(lockAllEnabled)
      {
        assert names[..i + 1][..i] == names[..i] && names[..i + 1] == names[..i] + [names[i]];
        assert Elements(names[..i + 1]) == Elements(names[..i]) + {names[i]};
        if names[i] in locks {
          locks := locks - {names[i]};
          unlocked := unlocked + [names[i]];
        }
      }
      assert names[..|names|] == names;
      if unlocked != [] {
        version := version + 1;
      }
      return true, unlocked;
    }

    method CollectUnknown(names: seq<string>, registry: Registry) returns (notFound: seq<string>)
      ensures notFound == Unknown(locks, registry, names)
    {
      notFound := [];
      for i := 0 to |names|
        invariant notFound == Unknown(locks, registry, names[..i])
      {
        assert names[..i + 1][..i] == names[..i];
        if names[i] !in registry.devices && names[i] !in locks {
          notFound := notFound + [names[i]];
        }
      }
      assert names[..|names|] == names;
    }

    method DropLocks(names: seq<string>)
      modifies this`locks
      ensures locks == old(locks) - Elements(names)
    {
      for i := 0 to |names|
        invariant locks == old(locks) - Elements(names[..i])
      {
        assert names[..i + 1] == names[..i] + [names[i]];
        assert Elements(names[..i + 1]) == Elements(names[..i]) + {names[i]};
        if names[i] in locks {
          locks := locks - {names[i]};
        }
      }
      assert names[..|names|] == names;
    }

    method ForceUnlock(names: seq<string>, registry: Registry) returns (unlocked: seq<string>, notFound: seq<string>)
      modifies this
      ensures (Model(), unlocked, notFound) == ForceUnlocked(old(Model()), names, registry)
    {
      var distinct := Distinct(names);
      notFound := CollectUnknown(distinct, registry);
      if notFound != [] {
        return [], notFound;
      }
      DropLocks(distinct);
      DistinctSameElements(names);
      unlocked := distinct;
      if unlocked != [] {
        version := version + 1;
      }
    }

    method ClearAll() returns (cleared: set<string>)
      modifies this
      ensures Model() == Cleared(old(Model())) && cleared == old(locks).Keys
    {
      cleared := locks.Keys;
      locks := map[];
      if cleared != {} {
        version := version + 1;
      }
      assert cleared == {} <==> old(locks) == map[];
    }

    method SetLockAll(enabled: bool)
      modifies this
      ensures Model() == WithPolicy(old(Model()), enabled)
    {
      if enabled != lockAllEnabled {
        lockAllEnabled := enabled;
        version := version + 1;
      }
    }

    /** The first of the earliest live locks, in the iteration order of the dictionary. */
    method GlobalLockHolder(now: int, order: seq<string>) returns (holder: Option<Lock>)
      requires forall n :: n in order <==> n in locks
      ensures holder.None? <==> forall n :: !Active(locks, n, now)
      ensures holder.Some? ==> exists i: nat :: FirstEarliest(locks, order, i, now) && locks[order[i]] == holder.value
    {
      holder := None;
      ghost var found := 0;
      for i := 0 to |order|
        invariant holder.None? ==> forall j :: 0 <= j < i ==> !Active(locks, order[j], now)
        invariant holder.Some? ==> found < i && Active(locks, order[found], now) && locks[order[found]] == holder.value
        invariant holder.Some? ==> forall j :: 0 <= j < i && Active(locks, order[j], now) ==>
          holder.value.lockedAt <= locks[order[j]].lockedAt
        invariant holder.Some? ==> forall j :: 0 <= j < found && Active(locks, order[j], now) ==>
          holder.value.lockedAt < locks[order[j]].lockedAt
      {
        var lock := locks[order[i]];
        if Active(locks, order[i], now) && (holder.None? || lock.lockedAt < holder.value.lockedAt) {
          holder := Some(lock);
          found := i;
        }
      }
      if holder.Some? {
        assert FirstEarliest(locks, order, found, now);
      }
    }

    /** The lock governing a device's availability; the clock is read once per lookup. */
    method EffectiveLock(name: string, ownAt: int, globalAt: int, order: seq<string>) returns (lock: Option<Lock>)
      requires forall n :: n in order <==> n in locks
      ensures lock.Some? <==> Unavailable(Model(), name, ownAt, globalAt)
      ensures Active(locks, name, ownAt) ==> lock == Some(locks[name])
      ensures lock.Some? && !Active(locks, name, ownAt) ==>
        exists i: nat :: FirstEarliest(locks, order, i, globalAt) && locks[order[i]] == lock.value
    {
      if Active(locks, name, ownAt) {
        return Some(locks[name]);
      }
      lock := None;
      if lockAllEnabled {
        lock := GlobalLockHolder(globalAt, order);
      }
    }
  }

  /** `name` holds an active lock and no active lock was acquired before it. */
  ghost predicate EarliestAt(locks: map<string, Lock>, name: string, now: int) {
    Active(locks, name, now) && forall n :: Active(locks, n, now) ==> locks[name].lockedAt <= locks[n].lockedAt
  }

  /** Position `i` of the order holds an earliest live lock, and no position before it does. */
  ghost predicate FirstEarliest(locks: map<string, Lock>, order: seq<string>, i: nat, now: int) {
    && i < |order| && EarliestAt(locks, order[i], now)
    && forall j :: 0 <= j < i && Active(locks, order[j], now) ==> locks[order[i]].lockedAt < locks[order[j]].lockedAt
  }

  /** The device has an effective lock: its own, or anyone's under the lock_all policy. */
  ghost predicate Unavailable(t: Table, name: string, ownAt: int, globalAt: int) {
    Active(t.locks, name, ownAt) || (t.lockAll && exists n :: Active(t.locks, n, globalAt))
  }

  lemma GrantOneMore(locks: map<string, Lock>, request: Request, done: seq<string>, next: string, lockId: string,
      expiresAt: Option<int>, stamps: seq<int>)
    requires |done| < |stamps|
    ensures LocksGranted(locks, request, done + [next], lockId, expiresAt, stamps)
         == LocksGranted(locks, request, done, lockId, expiresAt, stamps)
              [next := Lock(next, request.plan, request.item, request.service, lockId, stamps[|done|], expiresAt)]
  {
    var more := done + [next];
    assert more[..|more| - 1] == done && more[|more| - 1] == next;
    assert forall n :: n in more <==> n in done || n == next;
  }

  lemma {:induction false} DistinctSameElements(names: seq<string>)
    ensures Elements(Distinct(names)) == Elements(names)
    ensures Distinct(names) == [] <==> names == []
  {
    if names != [] {
      var init := names[..|names| - 1];
      DistinctSameElements(init);
      assert names == init + [names[|names| - 1]];
      assert forall n :: n in names <==> n in init || n == names[|names| - 1];
      assert forall n :: n in Distinct(init) <==> n in Elements(Distinct(init));
      assert forall n :: n in init <==> n in Elements(init);
    }
  }
}
