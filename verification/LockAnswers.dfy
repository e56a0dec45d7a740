/**
 What the lock manager answers, in terms of the request, the locks and the clock
 (configuration_service/lock_manager.py).
 */
module LockAnswers {
  import opened Models
  import opened DeviceRegistries
  import opened Locks
  import opened LockRuns

  /** The elements with a property, in order and as often as they occur. */
  function Filter(names: seq<string>, keep: string -> bool): seq<string> {
    if names == [] then []
    else Filter(names[..|names| - 1], keep) + if keep(names[|names| - 1]) then [names[|names| - 1]] else []
  }

  // ---------------------------------------------------------------------------
  // Renewal
  // ---------------------------------------------------------------------------

  /** Somebody's live lock. */
  function LiveFor(locks: map<string, Lock>, now: int, holder: string -> bool): string -> bool {
    n => n in locks && !Expired(locks[n], now) && holder(locks[n].item)
  }

  lemma {:induction false} StandingsFiltered(locks: map<string, Lock>, names: seq<string>, item: string, now: int)
    ensures WithStanding(locks, names, item, now, Renewable) == Filter(names, LiveFor(locks, now, i => i == item))
    ensures WithStanding(locks, names, item, now, HeldByOther) == Filter(names, LiveFor(locks, now, i => i != item))
    ensures WithStanding(locks, names, item, now, Lost) == Filter(names, n => !(n in locks && !Expired(locks[n], now)))
  {
    if names != [] {
      StandingsFiltered(locks, names[..|names| - 1], item, now);
    }
  }

  /**
   A renewal reports the requested names, in order and as often as requested, as renewed when
   they are live and the caller's, as in conflict when they are live and another item's, and as
   lost otherwise. The expiry it reports is the lease of every renewed lock.
   */
  lemma RenewalSays(t: Table, names: seq<string>, item: string, now: int)
    ensures var (after, result) := Renewed(t, names, item, now);
      && result.renewed == Filter(names, n => n in t.locks && !Expired(t.locks[n], now) && t.locks[n].item == item)
      && result.conflicts == Filter(names, n => n in t.locks && !Expired(t.locks[n], now) && t.locks[n].item != item)
      && result.lost == Filter(names, n => !(n in t.locks && !Expired(t.locks[n], now)))
      && (forall n :: n in result.renewed ==> n in after.locks && after.locks[n].expiresAt == result.expiresAt)
      && result.expiresAt == (if t.ttl <= 0 then None else Some(now + t.ttl))
  {
    StandingsFiltered(t.locks, names, item, now);
    var mine := (n: string) => n in t.locks && !Expired(t.locks[n], now) && t.locks[n].item == item;
    var others := (n: string) => n in t.locks && !Expired(t.locks[n], now) && t.locks[n].item != item;
    SameFilter(names, LiveFor(t.locks, now, i => i == item), mine);
    SameFilter(names, LiveFor(t.locks, now, i => i != item), others);
    forall n | n in Filter(names, mine)
      ensures n in names && mine(n)
    {
      Filtered(names, mine, n);
    }
  }

  lemma {:induction false} SameFilter(names: seq<string>, a: string -> bool, b: string -> bool)
    requires forall n :: a(n) <==> b(n)
    ensures Filter(names, a) == Filter(names, b)
  {
    if names != [] {
      SameFilter(names[..|names| - 1], a, b);
    }
  }

  lemma {:induction false} Filtered(names: seq<string>, keep: string -> bool, n: string)
    ensures n in Filter(names, keep) <==> n in names && keep(n)
  {
    if names != [] {
      Filtered(names[..|names| - 1], keep, n);
      assert names == names[..|names| - 1] + [names[|names| - 1]];
    }
  }

  /** A renewed lock stays live for exactly the lease time, or for good when leases are disabled. */
  lemma RenewedUntil(t: Table, names: seq<string>, item: string, now: int, name: string, later: int)
    requires name in Renewed(t, names, item, now).1.renewed
    ensures Active(Renewed(t, names, item, now).0.locks, name, later) <==> t.ttl <= 0 || later < now + t.ttl
  {
    RenewalSays(t, names, item, now);
  }

  // ---------------------------------------------------------------------------
  // Acquisition
  // ---------------------------------------------------------------------------

  /** The last place of a name in the request. */
  predicate LastAt(names: seq<string>, i: nat, name: string) {
    i < |names| && names[i] == name && forall j :: i < j < |names| ==> names[j] != name
  }

  lemma {:induction false} NewLockAt(request: Request, names: seq<string>, i: nat, lockId: string,
    expiresAt: Option<int>, stamps: seq<int>)
    requires |names| <= |stamps| && i < |names| && LastAt(names, i, names[i])
    ensures NewLock(request, names, names[i], lockId, expiresAt, stamps) ==
            Lock(names[i], request.plan, request.item, request.service, lockId, stamps[i], expiresAt)
  {
    var last := |names| - 1;
    if i < last {
      assert names[..last][i] == names[i];
      NewLockAt(request, names[..last], i, lockId, expiresAt, stamps);
    }
  }

  /**
   A grant reports its lock id, the requested names, the PVs their devices list and the lease;
   each lock carries the request, the id, the lease and the stamp of the name's last place.
   */
  lemma GrantSays(t: Table, registry: Registry, request: Request, lockId: string, readings: seq<int>, i: nat)
    requires |readings| == 2 * |request.names| + 1
    requires Acquired(t, registry, request, lockId, readings).1.Granted?
    ensures var (after, granted) := Acquired(t, registry, request, lockId, readings);
      var count := |request.names|;
      && granted.lockId == lockId && granted.devices == request.names
      && granted.expiresAt == (if t.ttl <= 0 then None else Some(readings[count] + t.ttl))
      && (i < count && LastAt(request.names, i, request.names[i]) ==>
            && request.names[i] in after.locks
            && after.locks[request.names[i]] == Lock(request.names[i], request.plan, request.item, request.service,
                                                     lockId, readings[count + 1 + i], granted.expiresAt))
  {
    var count := |request.names|;
    if i < count && LastAt(request.names, i, request.names[i]) {
      NewLockAt(request, request.names, i, lockId, NextExpiry(t.ttl, readings[count]), readings[count + 1..]);
      assert readings[count + 1..][i] == readings[count + 1 + i];
    }
  }

  /** The PVs of a grant are exactly those some requested device lists. */
  lemma GrantedPvsIff(t: Table, registry: Registry, request: Request, lockId: string, readings: seq<int>, pv: string)
    requires |readings| == 2 * |request.names| + 1
    requires Acquired(t, registry, request, lockId, readings).1.Granted?
    ensures pv in Acquired(t, registry, request, lockId, readings).1.pvs <==>
            exists n :: n in request.names && n in registry.devices && Lists(registry.devices[n], pv)
  {
    forall n | n in request.names && n in registry.devices
      ensures Lists(registry.devices[n], pv) <==> exists b :: b in registry.devices[n].pvs && b.pv == pv
    {
      if Lists(registry.devices[n], pv) {
        var i :| 0 <= i < |registry.devices[n].pvs| && registry.devices[n].pvs[i].pv == pv;
        assert registry.devices[n].pvs[i] in registry.devices[n].pvs;
      }
      if b :| b in registry.devices[n].pvs && b.pv == pv {
        var i :| 0 <= i < |registry.devices[n].pvs| && registry.devices[n].pvs[i] == b;
        assert registry.devices[n].pvs[i].pv == pv;
      }
    }
  }

  /** A granted lock is live for exactly the lease time after the lease was computed. */
  lemma GrantedUntil(t: Table, registry: Registry, request: Request, lockId: string, readings: seq<int>, i: nat,
    later: int)
    requires |readings| == 2 * |request.names| + 1 && i < |request.names|
    requires Acquired(t, registry, request, lockId, readings).1.Granted?
    ensures Active(Acquired(t, registry, request, lockId, readings).0.locks, request.names[i], later) <==>
            t.ttl <= 0 || later < readings[|request.names|] + t.ttl
  {
    AcquireAllOrNothing(t, registry, request, lockId, readings);
  }

  /** What each kind of conflict says about the device; a lock in the way is named by its plan and its stamp. */
  lemma ObstacleSays(locks: map<string, Lock>, registry: Registry, name: string, now: int)
    ensures var obstacle := Obstacle(locks, registry, name, now);
      var usable := name in registry.specs && registry.specs[name].active;
      && (obstacle == Some(NotFound) <==> name !in registry.devices)
      && (obstacle == Some(Reason.SpecMissing) <==> name in registry.devices && name !in registry.specs)
      && (obstacle == Some(Disabled) <==> name in registry.devices && name in registry.specs && !usable)
      && (obstacle.Some? && obstacle.value.AlreadyLocked? <==>
            name in registry.devices && usable && name in locks && !Expired(locks[name], now))
      && (obstacle.Some? && obstacle.value.AlreadyLocked? ==>
            obstacle.value.plan == locks[name].plan && obstacle.value.since == locks[name].lockedAt)
  {
  }

  /** How many of the first names are obstructed. */
  function Obstructed(locks: map<string, Lock>, registry: Registry, names: seq<string>, readings: seq<int>): nat
    requires |names| <= |readings|
  {
    if names == [] then 0
    else
      var last := |names| - 1;
      Obstructed(locks, registry, names[..last], readings) +
      if Obstacle(locks, registry, names[last], readings[last]).Some? then 1 else 0
  }

  /** The conflict of place `i`, if it has one, comes after those of the places before it. */
  predicate ConflictAt(locks: map<string, Lock>, registry: Registry, names: seq<string>, readings: seq<int>,
    conflicts: seq<Conflict>, i: nat)
    requires |names| <= |readings| && i < |names|
  {
    var obstacle := Obstacle(locks, registry, names[i], readings[i]);
    var before := Obstructed(locks, registry, names[..i], readings);
    obstacle.Some? ==> before < |conflicts| && conflicts[before] == Conflict(names[i], obstacle.value)
  }

  /** Conflicts come in request order, one for each obstructed place. */
  lemma {:induction false} ConflictsInOrder(locks: map<string, Lock>, registry: Registry, names: seq<string>,
    readings: seq<int>)
    requires |names| <= |readings|
    ensures |Conflicts(locks, registry, names, readings)| == Obstructed(locks, registry, names, readings)
    ensures forall i :: 0 <= i < |names| ==>
      ConflictAt(locks, registry, names, readings, Conflicts(locks, registry, names, readings), i)
  {
    if names != [] {
      var last := |names| - 1;
      var init := names[..last];
      ConflictsInOrder(locks, registry, init, readings);
      var conflicts := Conflicts(locks, registry, names, readings);
      forall i | 0 <= i < last
        ensures ConflictAt(locks, registry, names, readings, conflicts, i)
      {
        assert ConflictAt(locks, registry, init, readings, Conflicts(locks, registry, init, readings), i);
        assert init[..i] == names[..i] && init[i] == names[i];
      }
    }
  }

  // ---------------------------------------------------------------------------
  // Release, force-unlock, clear, policy
  // ---------------------------------------------------------------------------

  predicate NoRepeats(names: seq<string>) {
    forall i, j :: 0 <= i < j < |names| ==> names[i] != names[j]
  }

  /** `a` is requested before `b` is for the first time. */
  ghost predicate Earlier(request: seq<string>, a: string, b: string) {
    exists k :: 0 <= k < |request| && request[k] == a && b !in request[..k + 1]
  }

  /** The names come in the order of their first places in the request. */
  ghost predicate InRequestOrder(names: seq<string>, request: seq<string>) {
    forall i, j :: 0 <= i < j < |names| ==> Earlier(request, names[i], names[j])
  }

  lemma {:induction false} HeldNamesOnce(locks: map<string, Lock>, names: seq<string>)
    ensures NoRepeats(HeldNames(locks, names)) && InRequestOrder(HeldNames(locks, names), names)
  {
    if names != [] {
      var init, last := names[..|names| - 1], names[|names| - 1];
      HeldNamesOnce(locks, init);
      HeldNamesIff(locks, init);
      assert names == init + [last];
      OrderExtends(HeldNames(locks, init), init, last);
    }
  }

  lemma {:induction false} DistinctOnce(names: seq<string>)
    ensures NoRepeats(Distinct(names)) && InRequestOrder(Distinct(names), names)
    ensures forall n :: n in Distinct(names) <==> n in names
  {
    if names != [] {
      var init, last := names[..|names| - 1], names[|names| - 1];
      DistinctOnce(init);
      assert names == init + [last];
      OrderExtends(Distinct(init), init, last);
    }
  }

  lemma EarlierExtends(request: seq<string>, last: string, a: string, b: string)
    ensures Earlier(request, a, b) ==> Earlier(request + [last], a, b)
    ensures a in request && last !in request ==> Earlier(request + [last], a, last)
  {
    var more := request + [last];
    assert forall k :: 0 <= k < |request| ==> more[k] == request[k] && more[..k + 1] == request[..k + 1];
  }

  /** A list stays in request order when the request, and perhaps the list, gets one new name more. */
  lemma OrderExtends(names: seq<string>, request: seq<string>, last: string)
    requires NoRepeats(names) && InRequestOrder(names, request) && forall n :: n in names ==> n in request
    ensures InRequestOrder(names, request + [last])
    ensures last !in request ==> InRequestOrder(names + [last], request + [last]) && NoRepeats(names + [last])
  {
    forall i, j | 0 <= i < j < |names|
      ensures Earlier(request + [last], names[i], names[j])
    {
      EarlierExtends(request, last, names[i], names[j]);
    }
    if last !in request {
      forall i | 0 <= i < |names|
        ensures Earlier(request + [last], names[i], last) && names[i] != last
      {
        assert names[i] in request;
        EarlierExtends(request, last, names[i], last);
      }
    }
  }

  /** A release reports each lock it dropped once, in request order, and moves the version iff it dropped any. */
  lemma ReleaseSays(t: Table, names: seq<string>, item: string, now: int)
    ensures var (after, success, unlocked) := ReleasedBy(t, names, item, now);
      && NoRepeats(unlocked) && InRequestOrder(unlocked, names)
      && after.version == t.version + (if unlocked == [] then 0 else 1)
      && after.lockAll == t.lockAll && after.ttl == t.ttl
  {
    HeldNamesOnce(t.locks, names);
  }

  /** A force-unlock reports each requested name once, in request order, or the unknown ones so. */
  lemma ForceUnlockSays(t: Table, names: seq<string>, registry: Registry)
    ensures var (after, unlocked, unknown) := ForceUnlocked(t, names, registry);
      && (unknown == [] ==> NoRepeats(unlocked) && InRequestOrder(unlocked, names))
      && unknown == Filter(Distinct(names), n => n !in registry.devices && n !in t.locks)
      && after.version == t.version + (if unlocked == [] then 0 else 1)
      && after.lockAll == t.lockAll && after.ttl == t.ttl
  {
    DistinctOnce(names);
    UnknownFiltered(t.locks, registry, Distinct(names));
    if names != [] {
      assert names[0] in Distinct(names);
    }
  }

  lemma {:induction false} UnknownFiltered(locks: map<string, Lock>, registry: Registry, names: seq<string>)
    ensures Unknown(locks, registry, names) == Filter(names, n => n !in registry.devices && n !in locks)
  {
    if names != [] {
      UnknownFiltered(locks, registry, names[..|names| - 1]);
    }
  }

  /** Clearing drops every lock; setting the policy sets it; each moves the version iff it changed anything. */
  lemma ClearAndPolicySay(t: Table, enabled: bool)
    ensures Cleared(t) == Table(map[], Cleared(t).version, t.lockAll, t.ttl)
    ensures Cleared(t).version == t.version + (if t.locks == map[] then 0 else 1)
    ensures WithPolicy(t, enabled) == Table(t.locks, WithPolicy(t, enabled).version, enabled, t.ttl)
    ensures WithPolicy(t, enabled).version == t.version + (if t.lockAll == enabled then 0 else 1)
  {
  }

  // ---------------------------------------------------------------------------
  // One call
  // ---------------------------------------------------------------------------

  /** Whether the device is locked at `later`, once the call has been made. */
  ghost predicate LockedAfter(t: Table, c: Call, name: string, later: int)
    requires Timed(c)
  {
    var leased := (from: int) => t.ttl <= 0 || later < from + t.ttl;
    match c.event
    case Acquire(registry, request, _, readings) =>
      if (exists i :: 0 <= i < |request.names| && Obstacle(t.locks, registry, request.names[i], readings[i]).Some?)
         || name !in request.names
      then Active(t.locks, name, later)
      else leased(readings[|request.names|])
    case Renew(names, item) =>
      if name in names && Active(t.locks, name, c.begun) && t.locks[name].item == item then leased(c.begun)
      else Active(t.locks, name, later)
    case Release(names, item) =>
      && Active(t.locks, name, later)
      && (name in names ==> exists n :: n in names && Active(t.locks, n, c.begun) && t.locks[n].item != item)
    case Force(names, registry) =>
      && Active(t.locks, name, later)
      && (name in names ==> exists n :: n in names && n !in registry.devices && n !in t.locks)
    case ClearAll => false
    case SetPolicy(_) => Active(t.locks, name, later)
  }

  /** Exactly which devices are locked after a call, at any time from its end on. */
  lemma LockedAfterIff(t: Table, c: Call, name: string, later: int)
    requires Timed(c) && c.done <= later
    ensures Active(Step(t, c).locks, name, later) <==> LockedAfter(t, c, name, later)
  {
    match c.event
    case Acquire(registry, request, lockId, readings) =>
      AcquireAllOrNothing(t, registry, request, lockId, readings);
    case Renew(names, item) =>
      RenewalSays(t, names, item, c.begun);
      var mine := (n: string) => n in t.locks && !Expired(t.locks[n], c.begun) && t.locks[n].item == item;
      Filtered(names, mine, name);
    case Release(names, item) => ReleaseOwnerChecked(t, names, item, c.begun);
    case Force(names, registry) =>
      ForceUnlockAllOrNothing(t, names, registry);
      var unknown := ForceUnlocked(t, names, registry).2;
      assert unknown != [] ==> unknown[0] in unknown;
    case ClearAll =>
    case SetPolicy(_) =>
  }
}
