/**
 Runs of the lock manager: what holds across every sequence of calls as time passes.
 */
module LockRuns {
  import opened Models
  import opened DeviceRegistries
  import opened Locks

  datatype Event =
    | Acquire(registry: Registry, request: Request, lockId: string, readings: seq<int>)
    | Renew(names: seq<string>, item: string)
    | Release(names: seq<string>, item: string)
    | Force(names: seq<string>, registry: Registry)
    | ClearAll
    | SetPolicy(enabled: bool)

  /** One call: its first clock reading is no earlier than `begun`, its last no later than `done`. */
  datatype Call = Call(event: Event, begun: int, done: int)

  predicate Timed(c: Call) {
    if c.event.Acquire? then
      && |c.event.readings| == 2 * |c.event.request.names| + 1
      && c.begun <= c.done
      && forall i :: 0 <= i < |c.event.readings| ==> c.begun <= c.event.readings[i] <= c.done
    else c.begun == c.done
  }

  function Step(t: Table, c: Call): Table
    requires Timed(c)
  {
    match c.event
    case Acquire(registry, request, lockId, readings) => Acquired(t, registry, request, lockId, readings).0
    case Renew(names, item) => Renewed(t, names, item, c.begun).0
    case Release(names, item) => ReleasedBy(t, names, item, c.begun).0
    case Force(names, registry) => ForceUnlocked(t, names, registry).0
    case ClearAll => Cleared(t)
    case SetPolicy(enabled) => WithPolicy(t, enabled)
  }

  /** Calls one after the other, none beginning before `from`. */
  predicate Ordered(calls: seq<Call>, from: int)
    decreases |calls|
  {
    calls == [] || (from <= calls[0].begun && Timed(calls[0]) && Ordered(calls[1..], calls[0].done))
  }

  function Final(t: Table, calls: seq<Call>, from: int): Table
    requires Ordered(calls, from)
    decreases |calls|
  {
    if calls == [] then t else Final(Step(t, calls[0]), calls[1..], calls[0].done)
  }

  function End(calls: seq<Call>, from: int): int
    decreases |calls|
  {
    if calls == [] then from else End(calls[1..], calls[0].done)
  }

  // ---------------------------------------------------------------------------
  // Single calls
  // ---------------------------------------------------------------------------

  lemma {:induction false} NoConflictsIff(locks: map<string, Lock>, registry: Registry, names: seq<string>,
      readings: seq<int>)
    requires |names| <= |readings|
    ensures Conflicts(locks, registry, names, readings) == [] <==>
            forall i :: 0 <= i < |names| ==> Obstacle(locks, registry, names[i], readings[i]).None?
  {
    if names != [] {
      NoConflictsIff(locks, registry, names[..|names| - 1], readings);
    }
  }

  /** Some occurrence of the device in the request met this obstacle. */
  ghost predicate Met(locks: map<string, Lock>, registry: Registry, names: seq<string>, readings: seq<int>, c: Conflict)
    requires |names| <= |readings|
  {
    exists i :: 0 <= i < |names| && c == Conflict(names[i], c.reason)
             && Obstacle(locks, registry, names[i], readings[i]) == Some(c.reason)
  }

  lemma {:induction false} ConflictsIff(locks: map<string, Lock>, registry: Registry, names: seq<string>,
      readings: seq<int>, c: Conflict)
    requires |names| <= |readings|
    ensures c in Conflicts(locks, registry, names, readings) <==> Met(locks, registry, names, readings, c)
  {
    if names != [] {
      var last := |names| - 1;
      ConflictsIff(locks, registry, names[..last], readings, c);
      assert forall i :: 0 <= i < last ==> names[..last][i] == names[i];
    }
  }

  /**
   A refusal reports exactly the obstacles of the request. Its code names the worst one: a
   registered device without a spec, then an unknown device, then a disabled one; 409 means
   that every obstacle is another live lock.
   */
  lemma RefusalReports(t: Table, registry: Registry, request: Request, lockId: string, readings: seq<int>)
    requires |readings| == 2 * |request.names| + 1
    requires Acquired(t, registry, request, lockId, readings).1.Refused?
    ensures var refused := Acquired(t, registry, request, lockId, readings).1;
      && (forall c :: c in refused.conflicts <==> Met(t.locks, registry, request.names, readings, c))
      && (refused.code == 500 <==> exists n :: n in request.names && n in registry.devices && n !in registry.specs)
      && (refused.code == 404 <==>
            && (forall n :: n in request.names && n in registry.devices ==> n in registry.specs)
            && (exists n :: n in request.names && n !in registry.devices))
      && (refused.code == 422 <==>
            && (forall n :: n in request.names ==> n in registry.devices && n in registry.specs)
            && (exists n :: n in request.names && !registry.specs[n].active))
      && (refused.code == 409 <==> forall n :: n in request.names ==>
            n in registry.devices && n in registry.specs && registry.specs[n].active)
  {
    var names := request.names;
    var conflicts := Conflicts(t.locks, registry, names, readings);
    forall c: Conflict
      ensures c in conflicts <==> Met(t.locks, registry, names, readings, c)
    {
      ConflictsIff(t.locks, registry, names, readings, c);
    }
    forall n | n in names && !(n in registry.devices && n in registry.specs && registry.specs[n].active)
      ensures exists c :: c in conflicts && !c.reason.AlreadyLocked?
      ensures n in registry.devices && n !in registry.specs ==> exists c :: c in conflicts && c.reason.SpecMissing?
      ensures n !in registry.devices ==> exists c :: c in conflicts && c.reason.NotFound?
    {
      var i :| 0 <= i < |names| && names[i] == n;
      var c := Conflict(n, Obstacle(t.locks, registry, n, readings[i]).value);
      assert Met(t.locks, registry, names, readings, c);
      assert c in conflicts;
    }
  }

  lemma {:induction false} NewLockFields(request: Request, names: seq<string>, name: string, lockId: string,
      expiresAt: Option<int>, stamps: seq<int>)
    requires name in names && |names| <= |stamps|
    ensures NewLock(request, names, name, lockId, expiresAt, stamps).lockedAt in stamps
    ensures var lock := NewLock(request, names, name, lockId, expiresAt, stamps);
      lock == Lock(name, request.plan, request.item, request.service, lockId, lock.lockedAt, expiresAt)
  {
    var last := |names| - 1;
    if names[last] != name {
      NewLockFields(request, names[..last], name, lockId, expiresAt, stamps);
    }
  }

  /** All or nothing: refused exactly when some name is blocked when it is checked. */
  lemma AcquireAllOrNothing(t: Table, registry: Registry, request: Request, lockId: string, readings: seq<int>)
    requires |readings| == 2 * |request.names| + 1
    ensures var (after, result) := Acquired(t, registry, request, lockId, readings);
      && (result.Refused? <==>
            exists i :: 0 <= i < |request.names| && Obstacle(t.locks, registry, request.names[i], readings[i]).Some?)
      && (result.Refused? ==> after == t)
      && (result.Granted? ==>
            && after.locks.Keys == t.locks.Keys + Elements(request.names)
            && after.version == t.version + 1 && after.lockAll == t.lockAll
            && (forall n :: n in t.locks && n !in request.names ==> after.locks[n] == t.locks[n])
            && (forall n :: n in request.names ==>
                  && after.locks[n].lockId == lockId && after.locks[n].item == request.item
                  && after.locks[n].plan == request.plan && after.locks[n].device == n
                  && after.locks[n].expiresAt == NextExpiry(t.ttl, readings[|request.names|])
                  && after.locks[n].lockedAt in readings))
  {
    NoConflictsIff(t.locks, registry, request.names, readings);
    var count := |request.names|;
    var stamps := readings[count + 1..];
    var expiresAt := NextExpiry(t.ttl, readings[count]);
    forall n | n in request.names
      ensures NewLock(request, request.names, n, lockId, expiresAt, stamps).lockedAt in readings
      ensures var lock := NewLock(request, request.names, n, lockId, expiresAt, stamps);
        lock == Lock(n, request.plan, request.item, request.service, lockId, lock.lockedAt, expiresAt)
    {
      NewLockFields(request, request.names, n, lockId, expiresAt, stamps);
    }
  }

  /** Release fails exactly when a live lock of another item is named, and then changes nothing. */
  lemma ReleaseOwnerChecked(t: Table, names: seq<string>, item: string, now: int)
    ensures var (after, success, unlocked) := ReleasedBy(t, names, item, now);
      && (!success <==> exists n :: n in names && Active(t.locks, n, now) && t.locks[n].item != item)
      && (!success ==> after == t && unlocked == [])
      && (success ==>
            && (forall n :: n in unlocked <==> n in names && n in t.locks)
            && (forall n :: n in after.locks <==> n in t.locks && n !in names)
            && (forall n :: n in after.locks ==> after.locks[n] == t.locks[n]))
  {
    HeldNamesIff(t.locks, names);
    assert forall n :: n in names && BlocksRelease(t.locks, n, item, now) ==> Active(t.locks, n, now);
    if n :| n in names && Active(t.locks, n, now) && t.locks[n].item != item {
      assert BlocksRelease(t.locks, n, item, now);
    }
  }

  lemma {:induction false} HeldNamesIff(locks: map<string, Lock>, names: seq<string>)
    ensures forall n :: n in HeldNames(locks, names) <==> n in names && n in locks
  {
    if names != [] {
      var init := names[..|names| - 1];
      HeldNamesIff(locks, init);
      assert names == init + [names[|names| - 1]];
    }
  }

  lemma {:induction false} UnknownIff(locks: map<string, Lock>, registry: Registry, names: seq<string>)
    ensures forall n :: n in Unknown(locks, registry, names) <==> n in names && n !in registry.devices && n !in locks
  {
    if names != [] {
      var init := names[..|names| - 1];
      UnknownIff(locks, registry, init);
      assert names == init + [names[|names| - 1]];
    }
  }

  /** Force-unlock fails exactly when some name is neither registered nor locked, changing nothing. */
  lemma ForceUnlockAllOrNothing(t: Table, names: seq<string>, registry: Registry)
    ensures var (after, unlocked, unknown) := ForceUnlocked(t, names, registry);
      && (forall n :: n in unknown <==> n in names && n !in registry.devices && n !in t.locks)
      && (unknown != [] ==> after == t && unlocked == [])
      && (unknown == [] ==>
            && Elements(unlocked) == Elements(names)
            && (forall n :: n in after.locks <==> n in t.locks && n !in names)
            && (forall n :: n in after.locks ==> after.locks[n] == t.locks[n]))
  {
    DistinctSameElements(names);
    UnknownIff(t.locks, registry, Distinct(names));
    assert forall n :: n in Distinct(names) <==> n in Elements(Distinct(names));
    var unknown := Unknown(t.locks, registry, Distinct(names));
    if unknown == [] {
      assert forall n :: n in names && n !in registry.devices && n !in t.locks ==> n in unknown;
    }
  }

  /** How often `name` occurs among the requested names with a standing. */
  lemma {:induction false} StandingCount(locks: map<string, Lock>, names: seq<string>, item: string, now: int,
      standing: Standing, name: string)
    ensures multiset(WithStanding(locks, names, item, now, standing))[name] ==
            if StandingOf(locks, name, item, now) == standing then multiset(names)[name] else 0
  {
    if names != [] {
      var init, last := names[..|names| - 1], names[|names| - 1];
      StandingCount(locks, init, item, now, standing, name);
      assert names == init + [last];
      var before := WithStanding(locks, init, item, now, standing);
      if StandingOf(locks, last, item, now) == standing {
        assert WithStanding(locks, names, item, now, standing) == before + [last];
      } else {
        assert WithStanding(locks, names, item, now, standing) == before;
      }
    }
  }

  lemma StandingsPartition(locks: map<string, Lock>, names: seq<string>, item: string, now: int)
    ensures multiset(WithStanding(locks, names, item, now, Renewable))
          + multiset(WithStanding(locks, names, item, now, Lost))
          + multiset(WithStanding(locks, names, item, now, HeldByOther)) == multiset(names)
  {
    var all := multiset(WithStanding(locks, names, item, now, Renewable))
             + multiset(WithStanding(locks, names, item, now, Lost))
             + multiset(WithStanding(locks, names, item, now, HeldByOther));
    forall name: string
      ensures all[name] == multiset(names)[name]
    {
      StandingCount(locks, names, item, now, Renewable, name);
      StandingCount(locks, names, item, now, Lost, name);
      StandingCount(locks, names, item, now, HeldByOther, name);
    }
  }

  lemma {:induction false} AllRenewableIff(locks: map<string, Lock>, names: seq<string>, item: string, now: int)
    ensures (forall n :: n in names ==> StandingOf(locks, n, item, now).Renewable?) <==>
            && WithStanding(locks, names, item, now, Lost) == []
            && WithStanding(locks, names, item, now, HeldByOther) == []
    ensures (forall n :: n in names ==> StandingOf(locks, n, item, now).Renewable?) ==>
            WithStanding(locks, names, item, now, Renewable) == names
  {
    if names != [] {
      var init := names[..|names| - 1];
      AllRenewableIff(locks, init, item, now);
      assert names == init + [names[|names| - 1]];
      assert forall n :: n in names <==> n in init || n == names[|names| - 1];
    }
  }

  /** Renewal sorts every requested name into exactly one list; success means all were renewed. */
  lemma RenewPartitions(t: Table, names: seq<string>, item: string, now: int)
    ensures var result := Renewed(t, names, item, now).1;
      && multiset(result.renewed) + multiset(result.lost) + multiset(result.conflicts) == multiset(names)
      && (result.success <==> result.renewed == names)
      && (result.success <==> forall n :: n in names ==> Active(t.locks, n, now) && t.locks[n].item == item)
  {
    StandingsPartition(t.locks, names, item, now);
    AllRenewableIff(t.locks, names, item, now);
    var result := Renewed(t, names, item, now).1;
    assert |multiset(result.renewed) + multiset(result.lost) + multiset(result.conflicts)| == |multiset(names)|;
    assert |result.renewed| + |result.lost| + |result.conflicts| == |names|;
    assert forall n :: StandingOf(t.locks, n, item, now).Renewable? <==>
                       Active(t.locks, n, now) && t.locks[n].item == item;
  }

  // ---------------------------------------------------------------------------
  // Leases
  // ---------------------------------------------------------------------------

  /** Leases are off and no lock expires, or every lease ends within one TTL of `now`. */
  predicate Leased(t: Table, now: int) {
    forall n :: n in t.locks ==>
      if t.ttl <= 0 then t.locks[n].expiresAt.None?
      else t.locks[n].expiresAt.Some? && t.locks[n].expiresAt.value <= now + t.ttl
  }

  lemma StepKeepsLeases(t: Table, c: Call)
    requires Timed(c) && Leased(t, c.begun)
    ensures Leased(Step(t, c), c.done) && Step(t, c).ttl == t.ttl
  {
    if c.event.Acquire? {
      var e := c.event;
      AcquireAllOrNothing(t, e.registry, e.request, e.lockId, e.readings);
    }
  }

  lemma {:induction false} RunKeepsLeases(t: Table, calls: seq<Call>, from: int)
    requires Ordered(calls, from) && Leased(t, from)
    ensures Leased(Final(t, calls, from), End(calls, from)) && Final(t, calls, from).ttl == t.ttl
    decreases |calls|
  {
    if calls != [] {
      StepKeepsLeases(t, calls[0]);
      RunKeepsLeases(Step(t, calls[0]), calls[1..], calls[0].done);
    }
  }

  predicate NoShorter(before: Option<int>, after: Option<int>) {
    after.None? || (before.Some? && before.value <= after.value)
  }

  /** A heartbeat never shortens a lease and leaves the lock otherwise alone. */
  lemma RenewNeverShortens(t: Table, names: seq<string>, item: string, now: int)
    requires Leased(t, now)
    ensures var after := Renewed(t, names, item, now).0;
      && after.locks.Keys == t.locks.Keys && after.version == t.version
      && forall n :: n in t.locks ==>
           && SameHold(after.locks[n], t.locks[n])
           && NoShorter(t.locks[n].expiresAt, after.locks[n].expiresAt)
           && (n in names && Active(t.locks, n, now) && t.locks[n].item == item ==>
                 after.locks[n].expiresAt == NextExpiry(t.ttl, now))
  {
  }

  /** The same acquisition: equal in everything but the lease. */
  predicate SameHold(a: Lock, b: Lock) {
    a.(expiresAt := None) == b.(expiresAt := None)
  }

  predicate Grants(t: Table, c: Call, name: string)
    requires Timed(c)
  {
    c.event.Acquire? && name in c.event.request.names &&
    Acquired(t, c.event.registry, c.event.request, c.event.lockId, c.event.readings).1.Granted?
  }

  predicate NeverGranted(t: Table, calls: seq<Call>, from: int, name: string)
    requires Ordered(calls, from)
    decreases |calls|
  {
    calls == [] || (!Grants(t, calls[0], name) && NeverGranted(Step(t, calls[0]), calls[1..], calls[0].done, name))
  }

  /** What a call that does not grant `name` can do to its lock: drop it, renew it, or nothing. */
  lemma OtherwiseKept(t: Table, c: Call, name: string)
    requires Timed(c) && !Grants(t, c, name) && name in Step(t, c).locks
    ensures name in t.locks
    ensures Step(t, c).locks[name] == t.locks[name] ||
            (&& c.event.Renew? && name in c.event.names
             && Active(t.locks, name, c.begun) && t.locks[name].item == c.event.item
             && SameHold(Step(t, c).locks[name], t.locks[name]))
  {
    if c.event.Acquire? {
      var e := c.event;
      AcquireAllOrNothing(t, e.registry, e.request, e.lockId, e.readings);
    }
  }

  /** A lapsed or absent lock never comes back to life except through an acquisition. */
  lemma {:induction false} LapsedStaysLapsed(t: Table, calls: seq<Call>, from: int, name: string)
    requires Ordered(calls, from) && NeverGranted(t, calls, from, name)
    requires !Active(t.locks, name, from)
    ensures !Active(Final(t, calls, from).locks, name, End(calls, from))
    decreases |calls|
  {
    if calls != [] {
      var c := calls[0];
      if name in Step(t, c).locks {
        OtherwiseKept(t, c, name);
      }
      LapsedStaysLapsed(Step(t, c), calls[1..], c.done, name);
    }
  }

  /** A renewal of the name by the item that holds it. */
  predicate Heartbeats(c: Call, name: string, item: string) {
    c.event.Renew? && name in c.event.names && c.event.item == item
  }

  /** No call is a heartbeat of the name's holder. */
  predicate Silent(t: Table, calls: seq<Call>, name: string) {
    name in t.locks ==> forall i :: 0 <= i < |calls| ==> !Heartbeats(calls[i], name, t.locks[name].item)
  }

  /** Without its holder's heartbeats or a new acquisition a lock is kept as it is or dropped. */
  lemma {:induction false} KeptOrDropped(t: Table, calls: seq<Call>, from: int, name: string)
    requires Ordered(calls, from) && NeverGranted(t, calls, from, name)
    requires Silent(t, calls, name)
    ensures name in Final(t, calls, from).locks ==>
            name in t.locks && Final(t, calls, from).locks[name] == t.locks[name]
    decreases |calls|
  {
    if calls != [] {
      var c := calls[0];
      if name in Step(t, c).locks {
        OtherwiseKept(t, c, name);
        assert !Heartbeats(c, name, t.locks[name].item);
        assert Step(t, c).locks[name] == t.locks[name];
      }
      assert forall i :: 0 <= i < |calls[1..]| ==> calls[1..][i] == calls[i + 1];
      KeptOrDropped(Step(t, c), calls[1..], c.done, name);
    }
  }

  /** A holder that falls silent blocks a device for at most one TTL. */
  lemma SilentHolderLapses(t: Table, calls: seq<Call>, from: int, name: string)
    requires t.ttl > 0 && Leased(t, from)
    requires Ordered(calls, from) && NeverGranted(t, calls, from, name)
    requires Silent(t, calls, name)
    requires End(calls, from) >= from + t.ttl
    ensures !Active(Final(t, calls, from).locks, name, End(calls, from))
  {
    KeptOrDropped(t, calls, from, name);
  }

  // ---------------------------------------------------------------------------
  // Exclusivity
  // ---------------------------------------------------------------------------

  /** The calls entitled to end a hold by `item`: its own release, force-unlock, clear-all. */
  predicate MayEnd(event: Event, name: string, item: string) {
    match event
    case Release(names, releaser) => releaser == item && name in names
    case Force(names, _) => name in names
    case ClearAll => true
    case _ => false
  }

  /** `name` stays locked through every call: its lease never lapses and nobody entitled ends it. */
  predicate Undisturbed(t: Table, calls: seq<Call>, from: int, name: string)
    requires Ordered(calls, from)
    decreases |calls|
  {
    calls == [] ||
    (&& Active(t.locks, name, calls[0].done)
     && !MayEnd(calls[0].event, name, t.locks[name].item)
     && Undisturbed(Step(t, calls[0]), calls[1..], calls[0].done, name))
  }

  lemma {:induction false} HeldThroughCall(t: Table, c: Call, name: string)
    requires Timed(c) && Active(t.locks, name, c.done) && !MayEnd(c.event, name, t.locks[name].item)
    ensures name in Step(t, c).locks && SameHold(Step(t, c).locks[name], t.locks[name])
    ensures !Grants(t, c, name)
  {
    match c.event {
      case Acquire(registry, request, lockId, readings) =>
        AcquireAllOrNothing(t, registry, request, lockId, readings);
        if name in request.names {
          var i :| 0 <= i < |request.names| && request.names[i] == name;
          assert Active(t.locks, name, readings[i]);
          assert Obstacle(t.locks, registry, request.names[i], readings[i]).Some?;
        }
      case Release(names, item) =>
        ReleaseOwnerChecked(t, names, item, c.begun);
        if name in names {
          assert BlocksRelease(t.locks, name, item, c.begun);
        }
      case Force(names, registry) =>
        ForceUnlockAllOrNothing(t, names, registry);
      case _ =>
    }
  }

  /** Until then, whatever anyone calls, the device keeps its lock id and owner. */
  lemma {:induction false} HoldIsExclusive(t: Table, calls: seq<Call>, from: int, name: string)
    requires Ordered(calls, from) && name in t.locks && Undisturbed(t, calls, from, name)
    ensures name in Final(t, calls, from).locks
    ensures SameHold(Final(t, calls, from).locks[name], t.locks[name])
    ensures NeverGranted(t, calls, from, name)
    decreases |calls|
  {
    if calls != [] {
      HeldThroughCall(t, calls[0], name);
      HoldIsExclusive(Step(t, calls[0]), calls[1..], calls[0].done, name);
    }
  }

  // ---------------------------------------------------------------------------
  // The version counter
  // ---------------------------------------------------------------------------

  function LockIds(t: Table): map<string, string> {
    map n | n in t.locks :: t.locks[n].lockId
  }

  lemma StepVersion(t: Table, c: Call)
    requires Timed(c)
    ensures Step(t, c).version >= t.version
    ensures Step(t, c).version == t.version ==> LockIds(Step(t, c)) == LockIds(t) && Step(t, c).lockAll == t.lockAll
  {
    match c.event {
      case Release(names, item) =>
        HeldNamesIff(t.locks, names);
        if HeldNames(t.locks, names) == [] {
          assert forall n :: n in names && n in t.locks ==> n in HeldNames(t.locks, names);
          assert t.locks - Elements(names) == t.locks;
        }
      case Force(names, registry) =>
        if names == [] {
          assert t.locks - Elements(names) == t.locks;
        }
      case _ =>
    }
  }

  /** The version never decreases, and equal versions mean the same lock table and policy. */
  lemma {:induction false} VersionIsSound(t: Table, calls: seq<Call>, from: int)
    requires Ordered(calls, from)
    ensures Final(t, calls, from).version >= t.version
    ensures Final(t, calls, from).version == t.version ==>
            LockIds(Final(t, calls, from)) == LockIds(t) && Final(t, calls, from).lockAll == t.lockAll
    decreases |calls|
  {
    if calls != [] {
      StepVersion(t, calls[0]);
      VersionIsSound(Step(t, calls[0]), calls[1..], calls[0].done);
    }
  }

  // ---------------------------------------------------------------------------
  // The lock_all holder
  // ---------------------------------------------------------------------------

  /** `name` holds the one earliest active lock. */
  ghost predicate SoleEarliest(t: Table, name: string, now: int) {
    && Active(t.locks, name, now)
    && forall n :: n != name && Active(t.locks, n, now) ==> t.locks[name].lockedAt < t.locks[n].lockedAt
  }

  /** Acquisition stamps come from a clock that has moved past every stored stamp. */
  predicate LaterStamps(t: Table, c: Call) {
    c.event.Acquire? ==>
      forall n, i :: n in t.locks && 0 <= i < |c.event.readings| ==> t.locks[n].lockedAt < c.event.readings[i]
  }

  predicate AllLaterStamps(t: Table, calls: seq<Call>, from: int)
    requires Ordered(calls, from)
    decreases |calls|
  {
    calls == [] || (LaterStamps(t, calls[0]) && AllLaterStamps(Step(t, calls[0]), calls[1..], calls[0].done))
  }

  lemma StaysEarliest(t: Table, c: Call, name: string, from: int)
    requires Timed(c) && from <= c.begun && SoleEarliest(t, name, from) && LaterStamps(t, c)
    requires Active(t.locks, name, c.done) && !MayEnd(c.event, name, t.locks[name].item)
    requires Active(Step(t, c).locks, name, c.done)
    ensures SoleEarliest(Step(t, c), name, c.done)
  {
    var after := Step(t, c);
    HeldThroughCall(t, c, name);
    forall n | n != name && Active(after.locks, n, c.done)
      ensures after.locks[name].lockedAt < after.locks[n].lockedAt
    {
      if Grants(t, c, n) {
        AcquireAllOrNothing(t, c.event.registry, c.event.request, c.event.lockId, c.event.readings);
      } else {
        OtherwiseKept(t, c, n);
        assert Active(t.locks, n, from);
      }
    }
  }

  /**
   Under lock_all the reported holder does not flap: as long as the earliest lock is live and
   nobody entitled ends it, it is the only lock `global_lock_holder` can report.
   */
  lemma {:induction false} HolderIsStable(t: Table, calls: seq<Call>, from: int, name: string)
    requires Ordered(calls, from) && AllLaterStamps(t, calls, from)
    requires SoleEarliest(t, name, from) && Undisturbed(t, calls, from, name)
    requires Active(Final(t, calls, from).locks, name, End(calls, from))
    ensures forall n :: EarliestAt(Final(t, calls, from).locks, n, End(calls, from)) <==> n == name
    decreases |calls|
  {
    if calls != [] {
      var c := calls[0];
      var after := Step(t, c);
      HeldThroughCall(t, c, name);
      if !Active(after.locks, name, c.done) {
        OtherwiseKept(t, c, name);
      }
      StaysEarliest(t, c, name, from);
      HolderIsStable(after, calls[1..], c.done, name);
    }
  }
}
