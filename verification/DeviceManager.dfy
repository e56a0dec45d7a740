/**
 The live-device manager: build, rebuild and destroy under per-name locks
 (direct_control_service/src/direct_control/device_manager.py get_or_connect).

 All calls run on one event loop and switch at awaits. At most one call per name is inside
 that name's lock; calls waiting for it have no effect. No cleanup and no cancellation.
 */
module DeviceManagers {
  import opened Models

  type Live = nat

  /** `_fingerprint`: class, args and kwargs; the active flag and framework tag are not part of it. */
  datatype Fingerprint = Fingerprint(deviceClass: string, args: seq<Argument>, kwargs: map<string, Argument>)

  function FingerprintOf(spec: Spec): Fingerprint {
    Fingerprint(spec.deviceClass, spec.args, spec.kwargs)
  }

  /** `_Entry` without its driver. */
  datatype Entry = Entry(device: Live, fingerprint: Fingerprint)

  /** The call inside a name's lock. */
  datatype Job =
    | Looking(spec: Spec)
    | Retiring(spec: Spec, entry: Entry)      // awaiting destroy of the outdated device
    | Constructing(spec: Spec)                // import, framework check and constructor
    | Connecting(spec: Spec, device: Live)    // awaiting connect
    | Scrapping(spec: Spec, device: Live)     // awaiting destroy after a failed connect

  datatype Origin = Origin(name: string, fingerprint: Fingerprint)

  datatype Answer = Answer(spec: Spec, device: Live)

  datatype Manager = Manager(
    entries: map<string, Entry>,
    jobs: map<string, Job>,
    made: map<Live, Origin>,     // every device ever constructed
    next: nat,
    destroyed: seq<Live>,        // every call of destroy, in order
    answers: seq<Answer>)        // every device ever returned

  datatype Action =
    | Enter(spec: Spec)
    | Look(name: string)
    | RetireDone(name: string)          // destroy returned or raised
    | ConstructFails(name: string)
    | ConstructDone(name: string)
    | ConnectDone(name: string)
    | ConnectFails(name: string)
    | ScrapDone(name: string)           // destroy returned or raised

  predicate Enabled(m: Manager, a: Action) {
    match a
    case Enter(spec) => spec.active && spec.name !in m.jobs
    case Look(name) => name in m.jobs && m.jobs[name].Looking?
    case RetireDone(name) => name in m.jobs && m.jobs[name].Retiring?
    case ConstructFails(name) => name in m.jobs && m.jobs[name].Constructing?
    case ConstructDone(name) => name in m.jobs && m.jobs[name].Constructing?
    case ConnectDone(name) => name in m.jobs && m.jobs[name].Connecting?
    case ConnectFails(name) => name in m.jobs && m.jobs[name].Connecting?
    case ScrapDone(name) => name in m.jobs && m.jobs[name].Scrapping?
  }

  function Next(m: Manager, a: Action): Manager
    requires Enabled(m, a)
  {
    match a
    case Enter(spec) => m.(jobs := m.jobs[spec.name := Looking(spec)])
    case Look(name) =>
      var spec := m.jobs[name].spec;
      if name !in m.entries then m.(jobs := m.jobs[name := Constructing(spec)])
      else if m.entries[name].fingerprint == FingerprintOf(spec)
      then m.(jobs := m.jobs - {name}, answers := m.answers + [Answer(spec, m.entries[name].device)])
      else
        m.(jobs := m.jobs[name := Retiring(spec, m.entries[name])],
           destroyed := m.destroyed + [m.entries[name].device])
    case RetireDone(name) =>
      m.(entries := m.entries - {name}, jobs := m.jobs[name := Constructing(m.jobs[name].spec)])
    case ConstructFails(name) => m.(jobs := m.jobs - {name})
    case ConstructDone(name) =>
      var spec := m.jobs[name].spec;
      m.(made := m.made[m.next := Origin(name, FingerprintOf(spec))], next := m.next + 1,
         jobs := m.jobs[name := Connecting(spec, m.next)])
    case ConnectDone(name) =>
      var job := m.jobs[name];
      m.(entries := m.entries[name := Entry(job.device, FingerprintOf(job.spec))], jobs := m.jobs - {name},
         answers := m.answers + [Answer(job.spec, job.device)])
    case ConnectFails(name) =>
      var job := m.jobs[name];
      m.(destroyed := m.destroyed + [job.device], jobs := m.jobs[name := Scrapping(job.spec, job.device)])
    case ScrapDone(name) => m.(jobs := m.jobs - {name})
  }

  const Empty := Manager(map[], map[], map[], 0, [], [])

  predicate Behaviour(m: Manager, actions: seq<Action>)
    decreases |actions|
  {
    actions == [] || (Enabled(m, actions[0]) && Behaviour(Next(m, actions[0]), actions[1..]))
  }

  function After(m: Manager, actions: seq<Action>): Manager
    requires Behaviour(m, actions)
    decreases |actions|
  {
    if actions == [] then m else After(Next(m, actions[0]), actions[1..])
  }

  // ---------------------------------------------------------------------------
  // Conservation
  // ---------------------------------------------------------------------------

  /** Constructed for `name` and not yet destroyed. */
  function LiveFor(m: Manager, name: string): set<Live> {
    set d | d in m.made && m.made[d].name == name && d !in m.destroyed
  }

  function Cached(m: Manager, name: string): set<Live> {
    if name in m.entries then {m.entries[name].device} else {}
  }

  /** What the job of `name` is responsible for. */
  function Accounted(m: Manager, name: string): set<Live> {
    if name !in m.jobs || m.jobs[name].Looking? then Cached(m, name)
    else if m.jobs[name].Connecting? then {m.jobs[name].device}
    else {}
  }

  ghost predicate JobsRight(m: Manager) {
    && (forall n :: n in m.jobs ==> m.jobs[n].spec.name == n)
    && (forall n :: n in m.jobs && (m.jobs[n].Constructing? || m.jobs[n].Connecting? || m.jobs[n].Scrapping?) ==>
          n !in m.entries)
    && (forall n :: n in m.jobs && m.jobs[n].Connecting? ==>
          m.jobs[n].device in m.made && m.made[m.jobs[n].device] == Origin(n, FingerprintOf(m.jobs[n].spec)))
  }

  ghost predicate HistoryRight(m: Manager) {
    && (forall d :: d in m.made ==> d < m.next)
    && (forall d :: d in m.destroyed ==> d in m.made)
    && (forall i, j :: 0 <= i < j < |m.destroyed| ==> m.destroyed[i] != m.destroyed[j])
    && (forall n :: n in m.entries ==>
          m.entries[n].device in m.made && m.made[m.entries[n].device] == Origin(n, m.entries[n].fingerprint))
    && (forall i :: 0 <= i < |m.answers| ==>
          && m.answers[i].device in m.made
          && m.made[m.answers[i].device] == Origin(m.answers[i].spec.name, FingerprintOf(m.answers[i].spec)))
  }

  ghost predicate Conserved(m: Manager) {
    forall n :: LiveFor(m, n) == Accounted(m, n)
  }

  ghost predicate Inv(m: Manager) {
    JobsRight(m) && HistoryRight(m) && Conserved(m)
  }

  lemma StepKeepsJobs(m: Manager, a: Action)
    requires Inv(m) && Enabled(m, a)
    ensures JobsRight(Next(m, a))
  {
  }

  lemma StepKeepsHistory(m: Manager, a: Action)
    requires Inv(m) && Enabled(m, a)
    ensures HistoryRight(Next(m, a))
  {
    if a.Look? || a.ConnectFails? {
      assert LiveFor(m, a.name) == Accounted(m, a.name);
    }
  }

  lemma LiveWithout(m: Manager, after: Manager, d: Live, n: string)
    requires after.made == m.made && after.destroyed == m.destroyed + [d]
    ensures LiveFor(after, n) == LiveFor(m, n) - {d}
  {
  }

  /** A device a step destroys was live until then, and is the one its name accounts for. */
  lemma StepConserves(m: Manager, a: Action, n: string)
    requires Inv(m) && Enabled(m, a)
    ensures LiveFor(Next(m, a), n) == Accounted(Next(m, a), n)
  {
    var after := Next(m, a);
    assert LiveFor(m, n) == Accounted(m, n);
    if a.Look? && after.destroyed != m.destroyed {
      LiveWithout(m, after, m.entries[a.name].device, n);
    } else if a.ConnectFails? {
      LiveWithout(m, after, m.jobs[a.name].device, n);
    } else if a.ConstructDone? {
      assert m.next !in m.made && m.next !in m.destroyed;
      assert LiveFor(after, n) == if n == a.name then LiveFor(m, n) + {m.next} else LiveFor(m, n);
    } else {
      assert LiveFor(after, n) == LiveFor(m, n);
    }
  }

  lemma {:induction false} InvAlways(m: Manager, actions: seq<Action>)
    requires Inv(m) && Behaviour(m, actions)
    ensures Inv(After(m, actions))
    decreases |actions|
  {
    if actions != [] {
      StepKeepsJobs(m, actions[0]);
      StepKeepsHistory(m, actions[0]);
      forall n: string
        ensures LiveFor(Next(m, actions[0]), n) == Accounted(Next(m, actions[0]), n)
      {
        StepConserves(m, actions[0], n);
      }
      InvAlways(Next(m, actions[0]), actions[1..]);
    }
  }

  /**
   In any interleaving of calls, across connect failures and spec changes: while a name's lock
   is free, its constructed and not yet destroyed devices are exactly the cached one or none;
   no device is destroyed twice; and every device ever returned was built for the caller's
   name from a spec with the caller's fingerprint.
   */
  lemma DevicesConserved(actions: seq<Action>, name: string)
    requires Behaviour(Empty, actions)
    ensures var m := After(Empty, actions);
      && (name !in m.jobs ==> LiveFor(m, name) == Cached(m, name))
      && (forall i, j :: 0 <= i < j < |m.destroyed| ==> m.destroyed[i] != m.destroyed[j])
      && (forall i :: 0 <= i < |m.answers| ==>
            && m.answers[i].device in m.made
            && m.made[m.answers[i].device] == Origin(m.answers[i].spec.name, FingerprintOf(m.answers[i].spec)))
  {
    assert Inv(Empty) by {
      assert forall n: string :: LiveFor(Empty, n) == {};
    }
    InvAlways(Empty, actions);
    assert Conserved(After(Empty, actions));
    var m := After(Empty, actions);
    assert LiveFor(m, name) == Accounted(m, name);
  }

  /** A call that returns does so with the one live device of its name, now cached. */
  lemma ReturnedIsLive(m: Manager, a: Action)
    requires Inv(m) && Enabled(m, a) && Next(m, a).answers != m.answers
    ensures var after := Next(m, a);
      var answer := after.answers[|m.answers|];
      && after.answers == m.answers + [answer]
      && answer.spec.name !in after.jobs
      && LiveFor(after, answer.spec.name) == {answer.device}
      && answer.spec.name in after.entries
      && after.entries[answer.spec.name] == Entry(answer.device, FingerprintOf(answer.spec))
  {
    StepConserves(m, a, m.jobs[a.name].spec.name);
  }

  /** A call that fails leaves nothing live and nothing cached: the next call builds again. */
  lemma FailureNotCached(m: Manager, a: Action)
    requires Inv(m) && Enabled(m, a) && (a.ConstructFails? || a.ScrapDone?)
    ensures a.name !in Next(m, a).jobs && a.name !in Next(m, a).entries && LiveFor(Next(m, a), a.name) == {}
  {
    StepConserves(m, a, a.name);
  }

  // ---------------------------------------------------------------------------
  // When a device is built again
  // ---------------------------------------------------------------------------

  /**
   A look returns the cached device at once exactly when it was built from a spec with the same
   class, arguments and keywords; it retires the cached device when one of these differs, and
   otherwise begins to build. Nothing is destroyed but a device it retires.
   */
  lemma LookDecides(m: Manager, name: string)
    requires Inv(m) && Enabled(m, Look(name)) && m.jobs[name].spec.name == name
    ensures var spec := m.jobs[name].spec;
      var after := Next(m, Look(name));
      var wanted := Fingerprint(spec.deviceClass, spec.args, spec.kwargs);
      var same := name in m.entries && m.entries[name].fingerprint == wanted;
      && (name !in after.jobs <==> same)
      && (same ==> after == m.(jobs := m.jobs - {name}, answers := m.answers + [Answer(spec, m.entries[name].device)]))
      && (name in m.entries && !same ==>
            && after.jobs == m.jobs[name := Retiring(spec, m.entries[name])]
            && after.destroyed == m.destroyed + [m.entries[name].device])
      && (name !in m.entries ==> after == m.(jobs := m.jobs[name := Constructing(spec)]))
  {
  }

  function Rebuild(name: string): seq<Action> {
    [Look(name), RetireDone(name), ConstructDone(name), ConnectDone(name)]
  }

  /**
   A call with another fingerprint, all of whose steps succeed, returns a new device and caches
   it instead of the old one.
   */
  lemma OutdatedIsRebuilt(m: Manager, name: string)
    requires Inv(m) && Enabled(m, Look(name)) && m.jobs[name].spec.name == name
    requires name in m.entries && m.entries[name].fingerprint != FingerprintOf(m.jobs[name].spec)
    ensures Behaviour(m, Rebuild(name))
    ensures var spec := m.jobs[name].spec;
      var after := After(m, Rebuild(name));
      && after.answers == m.answers + [Answer(spec, m.next)] && m.next !in m.made
      && after.entries == m.entries[name := Entry(m.next, FingerprintOf(spec))]
      && after.destroyed == m.destroyed + [m.entries[name].device] && after.jobs == m.jobs - {name}
  {
    var m1 := Next(m, Look(name));
    var m2 := Next(m1, RetireDone(name));
    var m3 := Next(m2, ConstructDone(name));
    Prefixed(m3, ConnectDone(name), []);
    Prefixed(m2, ConstructDone(name), [ConnectDone(name)]);
    Prefixed(m1, RetireDone(name), [ConstructDone(name), ConnectDone(name)]);
    Prefixed(m, Look(name), [RetireDone(name), ConstructDone(name), ConnectDone(name)]);
    assert [ConnectDone(name)] + [] == [ConnectDone(name)];
    assert [ConstructDone(name)] + [ConnectDone(name)] == [ConstructDone(name), ConnectDone(name)];
    assert [RetireDone(name)] + [ConstructDone(name), ConnectDone(name)] ==
           [RetireDone(name), ConstructDone(name), ConnectDone(name)];
    assert [Look(name)] + [RetireDone(name), ConstructDone(name), ConnectDone(name)] == Rebuild(name);
  }

  lemma Prefixed(m: Manager, a: Action, rest: seq<Action>)
    requires Enabled(m, a) && Behaviour(Next(m, a), rest)
    ensures Behaviour(m, [a] + rest) && After(m, [a] + rest) == After(Next(m, a), rest)
  {
    assert ([a] + rest)[0] == a && ([a] + rest)[1..] == rest;
  }
}
