/**
 The double-checked device cache under unboundedly many threads
 (direct_control_service/src/direct_control/ophyd_cache.py), with no evict or clear.

 Threads interleave at every lock boundary. A block under `_dict_lock` is one dictionary
 operation, so it is one step; a per-key lock is held across several steps. A build captures
 its errors as a failed entry, but an import may also raise something other than
 `ImportError`, which leaves `get_or_instantiate` without caching anything.
 */
module OphydCache {
  import opened Models

  /** `CacheKey`. */
  datatype Key = Key(classPath: string, prefix: string)

  /** `CacheEntry`: a live device or a cached failure. */
  datatype Entry = Live(device: nat) | Broken(error: string)

  type Thread = nat

  /** Where a call of `get_or_instantiate` is. */
  datatype Call =
    | Entering(key: Key)               // before the first look
    | Missed(key: Key)                 // before picking the key lock
    | Waiting(key: Key, lock: nat)     // before acquiring it
    | Holding(key: Key, lock: nat)     // before the second look
    | Building(key: Key, lock: nat)    // missed again: instantiating
    | Storing(key: Key, lock: nat, entry: Entry)
    | Unlocking(key: Key, lock: nat, result: Option<Entry>)   // leaving the `with key_lock` block
    | Finished(key: Key, result: Option<Entry>)               // `None` when the import raised

  datatype Cache = Cache(
    entries: map<Key, Entry>,
    keyLocks: map<Key, nat>,
    held: map<nat, Thread>,
    nextLock: nat,
    calls: map<Thread, Call>,
    started: seq<Key>,      // every build begun
    built: seq<Key>,        // every build that produced an entry
    raised: seq<Key>)       // every build that raised

  datatype Action =
    | Begin(t: Thread, key: Key)
    | Step(t: Thread)
    | BuildReturns(t: Thread, entry: Entry)
    | BuildRaises(t: Thread)

  predicate Enabled(c: Cache, a: Action) {
    match a
    case Begin(t, _) => t !in c.calls
    case Step(t) =>
      && t in c.calls && !c.calls[t].Building? && !c.calls[t].Finished?
      && (c.calls[t].Waiting? ==> c.calls[t].lock !in c.held)
    case BuildReturns(t, _) => t in c.calls && c.calls[t].Building?
    case BuildRaises(t) => t in c.calls && c.calls[t].Building?
  }

  function Moved(c: Cache, t: Thread, call: Call): Cache {
    c.(calls := c.calls[t := call])
  }

  function Stepped(c: Cache, t: Thread): Cache
    requires Enabled(c, Step(t))
  {
    match c.calls[t]
    case Entering(key) =>
      if key in c.entries then Moved(c, t, Finished(key, Some(c.entries[key]))) else Moved(c, t, Missed(key))
    case Missed(key) =>
      if key in c.keyLocks then Moved(c, t, Waiting(key, c.keyLocks[key]))
      else Moved(c, t, Waiting(key, c.nextLock)).(keyLocks := c.keyLocks[key := c.nextLock], nextLock := c.nextLock + 1)
    case Waiting(key, lock) => Moved(c, t, Holding(key, lock)).(held := c.held[lock := t])
    case Holding(key, lock) =>
      if key in c.entries then Moved(c, t, Unlocking(key, lock, Some(c.entries[key])))
      else Moved(c, t, Building(key, lock)).(started := c.started + [key])
    case Storing(key, lock, entry) =>
      Moved(c, t, Unlocking(key, lock, Some(entry))).(entries := c.entries[key := entry])
    case Unlocking(key, lock, result) => Moved(c, t, Finished(key, result)).(held := c.held - {lock})
  }

  function Next(c: Cache, a: Action): Cache
    requires Enabled(c, a)
  {
    match a
    case Begin(t, key) => Moved(c, t, Entering(key))
    case Step(t) => Stepped(c, t)
    case BuildReturns(t, entry) =>
      Moved(c, t, Storing(c.calls[t].key, c.calls[t].lock, entry)).(built := c.built + [c.calls[t].key])
    case BuildRaises(t) =>
      Moved(c, t, Unlocking(c.calls[t].key, c.calls[t].lock, None)).(raised := c.raised + [c.calls[t].key])
  }

  const Empty := Cache(map[], map[], map[], 0, map[], [], [], [])

  predicate Behaviour(c: Cache, actions: seq<Action>)
    decreases |actions|
  {
    actions == [] || (Enabled(c, actions[0]) && Behaviour(Next(c, actions[0]), actions[1..]))
  }

  function After(c: Cache, actions: seq<Action>): Cache
    requires Behaviour(c, actions)
    decreases |actions|
  {
    if actions == [] then c else After(Next(c, actions[0]), actions[1..])
  }

  // ---------------------------------------------------------------------------
  // Locks
  // ---------------------------------------------------------------------------

  predicate InsideLock(call: Call) {
    call.Holding? || call.Building? || call.Storing? || call.Unlocking?
  }

  predicate KnowsLock(call: Call) {
    call.Waiting? || InsideLock(call)
  }

  /** One lock per key, held by exactly the thread inside it. */
  ghost predicate LocksRight(c: Cache) {
    && (forall k :: k in c.keyLocks ==> c.keyLocks[k] < c.nextLock)
    && (forall k, l :: k in c.keyLocks && l in c.keyLocks && c.keyLocks[k] == c.keyLocks[l] ==> k == l)
    && (forall t :: t in c.calls && KnowsLock(c.calls[t]) ==>
          c.calls[t].key in c.keyLocks && c.keyLocks[c.calls[t].key] == c.calls[t].lock)
    && (forall t :: t in c.calls && InsideLock(c.calls[t]) ==>
          c.calls[t].lock in c.held && c.held[c.calls[t].lock] == t)
    && (forall l :: l in c.held ==>
          c.held[l] in c.calls && InsideLock(c.calls[c.held[l]]) && c.calls[c.held[l]].lock == l)
  }

  /** A call that keeps its key and its standing with the lock. */
  predicate SameStanding(before: Call, after: Call) {
    && before.key == after.key
    && KnowsLock(before) == KnowsLock(after) && InsideLock(before) == InsideLock(after)
    && (KnowsLock(before) ==> before.lock == after.lock)
  }

  lemma MoveKeepsLocks(c: Cache, t: Thread, call: Call)
    requires LocksRight(c)
    requires if t in c.calls then SameStanding(c.calls[t], call) else !KnowsLock(call)
    ensures LocksRight(Moved(c, t, call))
  {
  }

  lemma FindKeepsLocks(c: Cache, t: Thread)
    requires LocksRight(c) && Enabled(c, Step(t)) && c.calls[t].Missed? && c.calls[t].key in c.keyLocks
    ensures LocksRight(Stepped(c, t))
  {
  }

  lemma CreateKeepsLocks(c: Cache, t: Thread)
    requires LocksRight(c) && Enabled(c, Step(t)) && c.calls[t].Missed? && c.calls[t].key !in c.keyLocks
    ensures LocksRight(Stepped(c, t))
  {
    var after := Stepped(c, t);
    assert forall k :: k in after.keyLocks ==> k == c.calls[t].key || k in c.keyLocks;
    forall u | u in after.calls && KnowsLock(after.calls[u])
      ensures after.calls[u].key in after.keyLocks && after.keyLocks[after.calls[u].key] == after.calls[u].lock
    {
      if u != t {
        assert after.calls[u] == c.calls[u];
      }
    }
    forall l | l in after.held
      ensures after.held[l] in after.calls
      ensures InsideLock(after.calls[after.held[l]]) && after.calls[after.held[l]].lock == l
    {
      assert after.held[l] != t;
    }
  }

  lemma AcquireKeepsLocks(c: Cache, t: Thread)
    requires LocksRight(c) && Enabled(c, Step(t)) && c.calls[t].Waiting?
    ensures LocksRight(Stepped(c, t))
  {
  }

  lemma ReleaseKeepsLocks(c: Cache, t: Thread)
    requires LocksRight(c) && Enabled(c, Step(t)) && c.calls[t].Unlocking?
    ensures LocksRight(Stepped(c, t))
  {
    var after := Stepped(c, t);
    forall u | u in after.calls && InsideLock(after.calls[u])
      ensures after.calls[u].lock in after.held && after.held[after.calls[u].lock] == u
    {
      assert u != t && after.calls[u] == c.calls[u];
      assert c.held[c.calls[u].lock] == u;
    }
    forall l | l in after.held
      ensures after.held[l] in after.calls && InsideLock(after.calls[after.held[l]])
      ensures after.calls[after.held[l]].lock == l
    {
      assert after.held[l] == c.held[l] && c.held[l] != t;
    }
  }

  /** The remaining steps keep the key of the call and its standing with the lock. */
  lemma StandingKept(c: Cache, a: Action)
    requires LocksRight(c) && Enabled(c, a)
    requires a.Step? ==> !c.calls[a.t].Missed? && !c.calls[a.t].Waiting? && !c.calls[a.t].Unlocking?
    ensures var after := Next(c, a);
            && a.t in after.calls && after.calls == c.calls[a.t := after.calls[a.t]]
            && after.keyLocks == c.keyLocks && after.nextLock == c.nextLock && after.held == c.held
            && if a.t in c.calls then SameStanding(c.calls[a.t], after.calls[a.t]) else !KnowsLock(after.calls[a.t])
  {
  }

  lemma SameLockFields(c: Cache, d: Cache)
    requires LocksRight(c) && c.calls == d.calls
    requires c.keyLocks == d.keyLocks && c.nextLock == d.nextLock && c.held == d.held
    ensures LocksRight(d)
  {
  }

  lemma StepKeepsLocks(c: Cache, a: Action)
    requires LocksRight(c) && Enabled(c, a)
    ensures LocksRight(Next(c, a))
  {
    if a.Step? && c.calls[a.t].Missed? {
      if c.calls[a.t].key in c.keyLocks {
        FindKeepsLocks(c, a.t);
      } else {
        CreateKeepsLocks(c, a.t);
      }
    } else if a.Step? && c.calls[a.t].Waiting? {
      AcquireKeepsLocks(c, a.t);
    } else if a.Step? && c.calls[a.t].Unlocking? {
      ReleaseKeepsLocks(c, a.t);
    } else {
      StandingKept(c, a);
      MoveKeepsLocks(c, a.t, Next(c, a).calls[a.t]);
      SameLockFields(Moved(c, a.t, Next(c, a).calls[a.t]), Next(c, a));
    }
  }

  // ---------------------------------------------------------------------------
  // Builds
  // ---------------------------------------------------------------------------

  function Count(keys: seq<Key>, key: Key): nat {
    if keys == [] then 0 else Count(keys[..|keys| - 1], key) + if keys[|keys| - 1] == key then 1 else 0
  }

  lemma CountPlus(keys: seq<Key>, more: Key, key: Key)
    ensures Count(keys + [more], key) == Count(keys, key) + if more == key then 1 else 0
  {
    assert (keys + [more])[..|keys|] == keys;
  }

  /** Some thread is instantiating, or has instantiated and not yet stored, the key. */
  predicate UnderWay(c: Cache, key: Key) {
    exists t :: t in c.calls && (c.calls[t].Building? || c.calls[t].Storing?) && c.calls[t].key == key
  }

  predicate BeingBuilt(c: Cache, key: Key) {
    exists t :: t in c.calls && c.calls[t].Building? && c.calls[t].key == key
  }

  predicate BeingStored(c: Cache, key: Key) {
    exists t :: t in c.calls && c.calls[t].Storing? && c.calls[t].key == key
  }

  function One(b: bool): nat {
    if b then 1 else 0
  }

  /** Every call that has an answer has the one entry stored for its key. */
  ghost predicate AnswersRight(c: Cache) {
    forall t :: t in c.calls && (c.calls[t].Unlocking? || c.calls[t].Finished?) && c.calls[t].result.Some? ==>
      c.calls[t].key in c.entries && c.entries[c.calls[t].key] == c.calls[t].result.value
  }

  /** Two threads are never inside the lock of one key. */
  lemma InsideIsUnique(c: Cache, t: Thread, u: Thread)
    requires LocksRight(c)
    requires t in c.calls && u in c.calls && InsideLock(c.calls[t]) && InsideLock(c.calls[u])
    requires c.calls[t].key == c.calls[u].key
    ensures t == u
  {
  }

  /** A step of thread `t` changes what is under way only for its own key. */
  lemma OthersUnaffected(c: Cache, t: Thread, call: Call, key: Key)
    requires t in c.calls && c.calls[t].key == call.key && key != call.key
    ensures BeingBuilt(Moved(c, t, call), key) == BeingBuilt(c, key)
    ensures BeingStored(Moved(c, t, call), key) == BeingStored(c, key)
    ensures UnderWay(Moved(c, t, call), key) == UnderWay(c, key)
  {
    var after := Moved(c, t, call);
    assert forall u :: u in c.calls && c.calls[u].key == key ==>
      u != t && u in after.calls && after.calls[u] == c.calls[u];
    assert forall u :: u in after.calls && after.calls[u].key == key ==>
      u != t && u in c.calls && after.calls[u] == c.calls[u];
  }

  /** While `t` is inside the lock of its key, only `t` can be building or storing that key. */
  lemma OnlyInsider(c: Cache, t: Thread)
    requires LocksRight(c) && t in c.calls && InsideLock(c.calls[t])
    ensures BeingBuilt(c, c.calls[t].key) == c.calls[t].Building?
    ensures BeingStored(c, c.calls[t].key) == c.calls[t].Storing?
    ensures UnderWay(c, c.calls[t].key) == (c.calls[t].Building? || c.calls[t].Storing?)
  {
    forall u | u in c.calls && (c.calls[u].Building? || c.calls[u].Storing?) && c.calls[u].key == c.calls[t].key
      ensures u == t
    {
      InsideIsUnique(c, t, u);
    }
  }

  /** A move of `t` that neither leaves nor enters building or storing changes neither. */
  lemma IdleMove(c: Cache, t: Thread, call: Call, key: Key)
    requires t in c.calls ==> !c.calls[t].Building? && !c.calls[t].Storing?
    requires !call.Building? && !call.Storing?
    ensures BeingBuilt(Moved(c, t, call), key) == BeingBuilt(c, key)
    ensures BeingStored(Moved(c, t, call), key) == BeingStored(c, key)
    ensures UnderWay(Moved(c, t, call), key) == UnderWay(c, key)
  {
    var after := Moved(c, t, call);
    assert forall u :: u in c.calls && u != t ==> u in after.calls && after.calls[u] == c.calls[u];
    assert forall u :: u in after.calls && u != t ==> u in c.calls && after.calls[u] == c.calls[u];
  }

  /**
   Every build begun is under way, raised, or produced an entry; a produced entry is about to
   be stored or is stored; and nobody works on a stored key.
   */
  ghost predicate CountsRight(c: Cache, key: Key) {
    && Count(c.started, key) == Count(c.built, key) + Count(c.raised, key) + One(BeingBuilt(c, key))
    && Count(c.built, key) == One(BeingStored(c, key)) + One(key in c.entries)
    && (key in c.entries ==> !UnderWay(c, key))
  }

  /** The thread's own key, when a build begins, returns, raises or is stored. */
  lemma BuildKeepsCounts(c: Cache, a: Action)
    requires LocksRight(c) && Enabled(c, a) && LocksRight(Next(c, a))
    requires !a.Begin? && CountsRight(c, c.calls[a.t].key)
    requires a.Step? ==> c.calls[a.t].Holding? || c.calls[a.t].Storing?
    ensures CountsRight(Next(c, a), c.calls[a.t].key)
  {
    var mine := c.calls[a.t].key;
    CountPlus(c.started, mine, mine);
    CountPlus(c.built, mine, mine);
    CountPlus(c.raised, mine, mine);
    OnlyInsider(c, a.t);
    OnlyInsider(Next(c, a), a.t);
  }

  /** Another key is not touched. */
  lemma OtherKeyKeepsCounts(c: Cache, a: Action, key: Key)
    requires Enabled(c, a) && !a.Begin? && CountsRight(c, key) && c.calls[a.t].key != key
    ensures CountsRight(Next(c, a), key)
  {
    var after := Next(c, a);
    OtherKeyKeepsHistory(c, a, key);
    MovesOneCall(c, a);
    OthersUnaffected(c, a.t, after.calls[a.t], key);
    SameCallsSameWork(Moved(c, a.t, after.calls[a.t]), after, key);
  }

  lemma MovesOneCall(c: Cache, a: Action)
    requires Enabled(c, a) && !a.Begin?
    ensures a.t in Next(c, a).calls && Next(c, a).calls[a.t].key == c.calls[a.t].key
    ensures Next(c, a).calls == c.calls[a.t := Next(c, a).calls[a.t]]
  {
    if a.Step? {
      StepMovesOneCall(c, a.t);
    }
  }

  lemma StepMovesOneCall(c: Cache, t: Thread)
    requires Enabled(c, Step(t))
    ensures t in Stepped(c, t).calls && Stepped(c, t).calls[t].key == c.calls[t].key
    ensures Stepped(c, t).calls == c.calls[t := Stepped(c, t).calls[t]]
  {
    match c.calls[t] {
      case Entering(_) =>
      case Missed(_) =>
      case Holding(_, _) =>
      case _ =>
    }
  }

  lemma OtherKeyKeepsHistory(c: Cache, a: Action, key: Key)
    requires Enabled(c, a) && !a.Begin? && c.calls[a.t].key != key
    ensures Count(Next(c, a).started, key) == Count(c.started, key)
    ensures Count(Next(c, a).built, key) == Count(c.built, key)
    ensures Count(Next(c, a).raised, key) == Count(c.raised, key)
    ensures key in Next(c, a).entries <==> key in c.entries
  {
    var mine := c.calls[a.t].key;
    match a {
      case BuildReturns(_, _) => CountPlus(c.built, mine, key);
      case BuildRaises(_) => CountPlus(c.raised, mine, key);
      case Step(t) => CountPlus(c.started, mine, key);
    }
  }

  /** A step that neither begins nor ends a build. */
  predicate Quiet(c: Cache, a: Action)
    requires Enabled(c, a)
  {
    a.Begin? || (a.Step? && !c.calls[a.t].Holding? && !c.calls[a.t].Storing?)
  }

  lemma QuietStepMoves(c: Cache, a: Action)
    requires Enabled(c, a) && Quiet(c, a)
    ensures var after := Next(c, a);
            && a.t in after.calls && after.calls == c.calls[a.t := after.calls[a.t]]
            && !after.calls[a.t].Building? && !after.calls[a.t].Storing?
            && (a.t in c.calls ==> !c.calls[a.t].Building? && !c.calls[a.t].Storing?)
            && after.started == c.started && after.built == c.built && after.raised == c.raised
            && after.entries == c.entries
  {
    if a.Step? {
      QuietThreadMoves(c, a.t);
    }
  }

  lemma QuietThreadMoves(c: Cache, t: Thread)
    requires Enabled(c, Step(t)) && !c.calls[t].Holding? && !c.calls[t].Storing?
    ensures var after := Stepped(c, t);
            && t in after.calls && after.calls == c.calls[t := after.calls[t]]
            && !after.calls[t].Building? && !after.calls[t].Storing?
            && after.started == c.started && after.built == c.built && after.raised == c.raised
            && after.entries == c.entries
  {
    StepMovesOneCall(c, t);
  }

  lemma QuietStepKeepsCounts(c: Cache, a: Action, key: Key)
    requires Enabled(c, a) && Quiet(c, a) && CountsRight(c, key)
    ensures CountsRight(Next(c, a), key)
  {
    QuietStepMoves(c, a);
    var after := Next(c, a);
    IdleMove(c, a.t, after.calls[a.t], key);
    SameCallsSameWork(Moved(c, a.t, after.calls[a.t]), after, key);
  }

  lemma StepKeepsCounts(c: Cache, a: Action, key: Key)
    requires LocksRight(c) && Enabled(c, a) && CountsRight(c, key)
    ensures CountsRight(Next(c, a), key)
  {
    if Quiet(c, a) {
      QuietStepKeepsCounts(c, a, key);
    } else if c.calls[a.t].key != key {
      OtherKeyKeepsCounts(c, a, key);
    } else {
      StepKeepsLocks(c, a);
      BuildKeepsCounts(c, a);
    }
  }

  lemma SameCallsSameWork(c: Cache, d: Cache, key: Key)
    requires c.calls == d.calls
    ensures BeingBuilt(c, key) == BeingBuilt(d, key)
    ensures BeingStored(c, key) == BeingStored(d, key)
    ensures UnderWay(c, key) == UnderWay(d, key)
  {
  }

  /** The entry about to be stored is the first one of its key. */
  lemma StoringKeepsAnswers(c: Cache, t: Thread)
    requires LocksRight(c) && Enabled(c, Step(t)) && c.calls[t].Storing? && AnswersRight(c)
    requires CountsRight(c, c.calls[t].key)
    ensures AnswersRight(Stepped(c, t))
  {
    OnlyInsider(c, t);
    assert c.calls[t].key !in c.entries;
  }

  lemma StepKeepsAnswers(c: Cache, a: Action)
    requires LocksRight(c) && Enabled(c, a) && AnswersRight(c)
    requires forall key :: CountsRight(c, key)
    ensures AnswersRight(Next(c, a))
  {
    if a.Step? && c.calls[a.t].Storing? {
      StoringKeepsAnswers(c, a.t);
    } else {
      EntriesKept(c, a);
    }
  }

  lemma EntriesKept(c: Cache, a: Action)
    requires Enabled(c, a) && AnswersRight(c) && (a.Step? ==> !c.calls[a.t].Storing?)
    ensures AnswersRight(Next(c, a))
  {
  }

  ghost predicate Inv(c: Cache) {
    LocksRight(c) && AnswersRight(c) && forall key :: CountsRight(c, key)
  }

  lemma InvKept(c: Cache, a: Action)
    requires Inv(c) && Enabled(c, a)
    ensures Inv(Next(c, a))
  {
    StepKeepsLocks(c, a);
    StepKeepsAnswers(c, a);
    forall key
      ensures CountsRight(Next(c, a), key)
    {
      StepKeepsCounts(c, a, key);
    }
  }

  lemma {:induction false} InvAlways(c: Cache, actions: seq<Action>)
    requires Inv(c) && Behaviour(c, actions)
    ensures Inv(After(c, actions))
    decreases |actions|
  {
    if actions != [] {
      InvKept(c, actions[0]);
      InvAlways(Next(c, actions[0]), actions[1..]);
    }
  }

  /** The thread's call for the key returned an entry. */
  predicate Answered(c: Cache, t: Thread, key: Key) {
    t in c.calls && c.calls[t].Finished? && c.calls[t].key == key && c.calls[t].result.Some?
  }

  /**
   However many threads call for a key, at most one build ever produces an entry, every caller
   that gets an answer gets that entry, cached failures included, and a key is built again only
   after a build that raised.
   */
  lemma BuiltAtMostOnce(actions: seq<Action>, key: Key)
    requires Behaviour(Empty, actions)
    ensures var c := After(Empty, actions);
      && Count(c.built, key) <= 1
      && Count(c.started, key) <= 1 + Count(c.raised, key)
      && (Count(c.raised, key) == 0 ==> Count(c.started, key) <= 1)
      && forall t, u :: Answered(c, t, key) && Answered(c, u, key) ==> c.calls[t].result == c.calls[u].result
  {
    assert Inv(Empty);
    InvAlways(Empty, actions);
    var c := After(Empty, actions);
    assert CountsRight(c, key);
    if BeingStored(c, key) {
      var t :| t in c.calls && c.calls[t].Storing? && c.calls[t].key == key;
      OnlyInsider(c, t);
      assert UnderWay(c, key);
    }
    if BeingBuilt(c, key) {
      var t :| t in c.calls && c.calls[t].Building? && c.calls[t].key == key;
      OnlyInsider(c, t);
      assert UnderWay(c, key);
    }
  }

  /** The first thread up to its build. */
  function FirstBuild(key: Key): seq<Action> {
    [Begin(0, key), Step(0), Step(0), Step(0), Step(0)]
  }

  function FirstBuilding(key: Key): Cache {
    Cache(map[], map[key := 0], map[0 := 0], 1, map[0 := Building(key, 0)], [key], [], [])
  }

  lemma FirstBuildBegins(key: Key)
    ensures Behaviour(Empty, FirstBuild(key)) && After(Empty, FirstBuild(key)) == FirstBuilding(key)
  {
    var c1 := Next(Empty, Begin(0, key));
    var c2 := Next(c1, Step(0));
    var c3 := Next(c2, Step(0));
    var c4 := Next(c3, Step(0));
    var c5 := Next(c4, Step(0));
    assert [] + [key] == [key];
    Prefixed(c4, Step(0), []);
    Prefixed(c3, Step(0), [Step(0)]);
    Prefixed(c2, Step(0), [Step(0), Step(0)]);
    Prefixed(c1, Step(0), [Step(0), Step(0), Step(0)]);
    Prefixed(Empty, Begin(0, key), [Step(0), Step(0), Step(0), Step(0)]);
  }

  /** A build that raises is not cached, so a later call for the key begins a second build. */
  lemma RaisingBuildIsRepeated(key: Key)
    ensures var retry := [BuildRaises(0), Step(0), Begin(1, key), Step(1), Step(1), Step(1), Step(1)];
      && Behaviour(Empty, FirstBuild(key)) && After(Empty, FirstBuild(key)) == FirstBuilding(key)
      && Behaviour(FirstBuilding(key), retry)
      && After(FirstBuilding(key), retry).started == [key, key]
  {
    FirstBuildBegins(key);
    var c0 := FirstBuilding(key);
    var c1 := Next(c0, BuildRaises(0));
    var c2 := Next(c1, Step(0));
    var c3 := Next(c2, Begin(1, key));
    var c4 := Next(c3, Step(1));
    var c5 := Next(c4, Step(1));
    var c6 := Next(c5, Step(1));
    var c7 := Next(c6, Step(1));
    Prefixed(c6, Step(1), []);
    Prefixed(c5, Step(1), [Step(1)]);
    Prefixed(c4, Step(1), [Step(1), Step(1)]);
    Prefixed(c3, Step(1), [Step(1), Step(1), Step(1)]);
    Prefixed(c2, Begin(1, key), [Step(1), Step(1), Step(1), Step(1)]);
    Prefixed(c1, Step(0), [Begin(1, key), Step(1), Step(1), Step(1), Step(1)]);
    Prefixed(c0, BuildRaises(0), [Step(0), Begin(1, key), Step(1), Step(1), Step(1), Step(1)]);
    assert c7.started == [key, key];
  }

  lemma Prefixed(c: Cache, a: Action, rest: seq<Action>)
    requires Enabled(c, a) && Behaviour(Next(c, a), rest)
    ensures Behaviour(c, [a] + rest) && After(c, [a] + rest) == After(Next(c, a), rest)
  {
    assert ([a] + rest)[0] == a && ([a] + rest)[1..] == rest;
  }

  // ---------------------------------------------------------------------------
  // No deadlock
  // ---------------------------------------------------------------------------

  /** An unfinished call can move, or waits for a thread that can. */
  lemma NeverDeadlocked(actions: seq<Action>, t: Thread)
    requires Behaviour(Empty, actions)
    requires t in After(Empty, actions).calls && !After(Empty, actions).calls[t].Finished?
    ensures var c := After(Empty, actions);
      || Enabled(c, Step(t)) || Enabled(c, BuildRaises(t))
      || (&& c.calls[t].Waiting? && c.calls[t].lock in c.held
          && var holder := c.held[c.calls[t].lock];
             holder != t && (Enabled(c, Step(holder)) || Enabled(c, BuildRaises(holder))))
  {
    assert Inv(Empty);
    InvAlways(Empty, actions);
  }

  // ---------------------------------------------------------------------------
  // Entries are what builds returned
  // ---------------------------------------------------------------------------

  /** Every key with an entry that a build of that key returned in the run. */
  function Returned(c: Cache, actions: seq<Action>): set<(Key, Entry)>
    requires Behaviour(c, actions)
    decreases |actions|
  {
    if actions == [] then {}
    else ReturnedBy(c, actions[0]) + Returned(Next(c, actions[0]), actions[1..])
  }

  /** A thread that is building a key returns from the constructor. */
  function ReturnedBy(c: Cache, a: Action): set<(Key, Entry)>
    requires Enabled(c, a)
  {
    if a.BuildReturns? then {(c.calls[a.t].key, a.entry)} else {}
  }

  /**
   What is stored, about to be stored or answered for a key was returned for it, and every
   returned entry is one of these.
   */
  ghost predicate FromBuilds(c: Cache, returned: set<(Key, Entry)>) {
    && (forall key :: key in c.entries ==> (key, c.entries[key]) in returned)
    && (forall t :: t in c.calls && c.calls[t].Storing? ==> (c.calls[t].key, c.calls[t].entry) in returned)
    && (forall key, entry :: (key, entry) in returned ==>
          (key in c.entries && c.entries[key] == entry) || StoringNow(c, key, entry))
  }

  ghost predicate StoringNow(c: Cache, key: Key, entry: Entry) {
    exists t :: t in c.calls && c.calls[t].Storing? && c.calls[t].key == key && c.calls[t].entry == entry
  }

  /** Any other call's storing goes on; a thread's own ends only by storing. */
  lemma StoringGoesOn(c: Cache, a: Action, key: Key, entry: Entry)
    requires LocksRight(c) && Enabled(c, a) && StoringNow(c, key, entry)
    ensures StoringNow(Next(c, a), key, entry) ||
            (key in Next(c, a).entries && Next(c, a).entries[key] == entry)
  {
    var t :| t in c.calls && c.calls[t].Storing? && c.calls[t].key == key && c.calls[t].entry == entry;
    if a.t != t {
      assert t in Next(c, a).calls && Next(c, a).calls[t] == c.calls[t];
    }
  }

  /** A key is stored at most once, with what its thread was storing. */
  lemma EntriesGrow(c: Cache, a: Action)
    requires LocksRight(c) && Enabled(c, a) && forall key :: CountsRight(c, key)
    ensures forall key :: key in c.entries ==> key in Next(c, a).entries && Next(c, a).entries[key] == c.entries[key]
    ensures forall key :: key in Next(c, a).entries && key !in c.entries ==>
      StoringNow(c, key, Next(c, a).entries[key])
  {
    if a.Step? && c.calls[a.t].Storing? {
      OnlyInsider(c, a.t);
      assert CountsRight(c, c.calls[a.t].key);
    }
  }

  lemma NewStoring(c: Cache, a: Action, t: Thread)
    requires Enabled(c, a) && t in Next(c, a).calls && Next(c, a).calls[t].Storing?
    ensures t in c.calls
    ensures (c.calls[t].Storing? && Next(c, a).calls[t] == c.calls[t]) ||
            (&& a.BuildReturns? && a.t == t && Next(c, a).calls[t].key == c.calls[t].key
             && Next(c, a).calls[t].entry == a.entry)
  {
    if a.Step? {
      StepMovesOneCall(c, a.t);
      StepNeverStores(c, a.t);
    }
  }

  /** Only the return of a build begins the storing of an entry. */
  lemma StepNeverStores(c: Cache, t: Thread)
    requires Enabled(c, Step(t)) && t in Stepped(c, t).calls
    ensures !Stepped(c, t).calls[t].Storing?
  {
    match c.calls[t] {
      case Entering(_) =>
      case Missed(_) =>
      case Holding(_, _) =>
      case _ =>
    }
  }

  lemma StepKeepsFromBuilds(c: Cache, a: Action, returned: set<(Key, Entry)>)
    requires Inv(c) && Enabled(c, a) && FromBuilds(c, returned)
    ensures FromBuilds(Next(c, a), returned + ReturnedBy(c, a))
  {
    var after := Next(c, a);
    EntriesGrow(c, a);
    forall t | t in after.calls && after.calls[t].Storing?
      ensures (after.calls[t].key, after.calls[t].entry) in returned + ReturnedBy(c, a)
    {
      NewStoring(c, a, t);
    }
    forall key, entry | (key, entry) in returned + ReturnedBy(c, a)
      ensures (key in after.entries && after.entries[key] == entry) || StoringNow(after, key, entry)
    {
      if (key, entry) !in returned {
        assert after.calls[a.t].Storing? && after.calls[a.t].key == key && after.calls[a.t].entry == entry;
      } else if StoringNow(c, key, entry) {
        StoringGoesOn(c, a, key, entry);
      }
    }
  }

  lemma {:induction false} RunKeepsFromBuilds(c: Cache, actions: seq<Action>, returned: set<(Key, Entry)>)
    requires Inv(c) && FromBuilds(c, returned) && Behaviour(c, actions)
    ensures FromBuilds(After(c, actions), returned + Returned(c, actions)) && Inv(After(c, actions))
    decreases |actions|
  {
    if actions == [] {
      assert returned + {} == returned;
    } else {
      InvKept(c, actions[0]);
      StepKeepsFromBuilds(c, actions[0], returned);
      RunKeepsFromBuilds(Next(c, actions[0]), actions[1..], returned + ReturnedBy(c, actions[0]));
      assert returned + Returned(c, actions) ==
             returned + ReturnedBy(c, actions[0]) + Returned(Next(c, actions[0]), actions[1..]);
    }
  }

  /**
   Over every behaviour: what is stored for a key, and what any caller for it is answered, is the
   entry that a build of that key returned, and no other entry was ever returned for it.
   */
  lemma AnswersAreBuilt(actions: seq<Action>, key: Key, t: Thread, entry: Entry)
    requires Behaviour(Empty, actions)
    ensures var c := After(Empty, actions);
      && (key in c.entries ==> (key, c.entries[key]) in Returned(Empty, actions))
      && (Answered(c, t, key) ==> (key, c.calls[t].result.value) in Returned(Empty, actions))
      && (Answered(c, t, key) && (key, entry) in Returned(Empty, actions) ==> c.calls[t].result == Some(entry))
  {
    RunKeepsFromBuilds(Empty, actions, {});
    var c := After(Empty, actions);
    assert {} + Returned(Empty, actions) == Returned(Empty, actions);
    assert CountsRight(c, key);
  }

  /** The threads whose build raised in the run. */
  function Raisers(c: Cache, actions: seq<Action>): set<Thread>
    requires Behaviour(c, actions)
    decreases |actions|
  {
    if actions == [] then {}
    else RaisedBy(actions[0]) + Raisers(Next(c, actions[0]), actions[1..])
  }

  function RaisedBy(a: Action): set<Thread> {
    if a.BuildRaises? then {a.t} else {}
  }

  predicate Leaving(call: Call) {
    call.Unlocking? || call.Finished?
  }

  /** A call leaves without an entry exactly when its own build raised. */
  ghost predicate EmptyHandedRaised(c: Cache, raisers: set<Thread>) {
    && (forall t :: t in raisers ==> t in c.calls && Leaving(c.calls[t]))
    && (forall t :: t in c.calls && Leaving(c.calls[t]) ==> (c.calls[t].result.None? <==> t in raisers))
  }

  /** A call that is leaving keeps its result; one that begins to has one unless its build just raised. */
  lemma LeavesWith(c: Cache, a: Action)
    requires Enabled(c, a)
    ensures a.t in Next(c, a).calls && Next(c, a).calls == c.calls[a.t := Next(c, a).calls[a.t]]
    ensures a.t in c.calls && Leaving(c.calls[a.t]) ==>
      Leaving(Next(c, a).calls[a.t]) && Next(c, a).calls[a.t].result == c.calls[a.t].result
    ensures !(a.t in c.calls && Leaving(c.calls[a.t])) && Leaving(Next(c, a).calls[a.t]) ==>
      (Next(c, a).calls[a.t].result.None? <==> a.BuildRaises?)
    ensures a.BuildRaises? ==> Leaving(Next(c, a).calls[a.t]) && !Leaving(c.calls[a.t])
  {
    if a.Step? {
      match c.calls[a.t] {
        case Entering(_) =>
        case Missed(_) =>
        case Holding(_, _) =>
        case _ =>
      }
    }
  }

  lemma {:induction false} RunKeepsEmptyHanded(c: Cache, actions: seq<Action>, raisers: set<Thread>)
    requires EmptyHandedRaised(c, raisers) && Behaviour(c, actions)
    ensures EmptyHandedRaised(After(c, actions), raisers + Raisers(c, actions))
    decreases |actions|
  {
    if actions == [] {
      assert raisers + {} == raisers;
    } else {
      LeavesWith(c, actions[0]);
      RunKeepsEmptyHanded(Next(c, actions[0]), actions[1..], raisers + RaisedBy(actions[0]));
      assert raisers + Raisers(c, actions) ==
             raisers + RaisedBy(actions[0]) + Raisers(Next(c, actions[0]), actions[1..]);
    }
  }

  /** Over every behaviour, a finished call has an entry unless its own build raised. */
  lemma AnsweredUnlessRaised(actions: seq<Action>, t: Thread)
    requires Behaviour(Empty, actions)
    requires t in After(Empty, actions).calls && After(Empty, actions).calls[t].Finished?
    ensures After(Empty, actions).calls[t].result.Some? <==> t !in Raisers(Empty, actions)
  {
    RunKeepsEmptyHanded(Empty, actions, {});
    assert {} + Raisers(Empty, actions) == Raisers(Empty, actions);
  }

  /** A hit on the first look answers at once with the stored entry, whatever locks are held, and takes none. */
  lemma HitTakesNoLock(c: Cache, t: Thread)
    requires t in c.calls && c.calls[t].Entering? && c.calls[t].key in c.entries
    ensures Enabled(c, Step(t))
    ensures Next(c, Step(t)) == c.(calls := c.calls[t := Finished(c.calls[t].key, Some(c.entries[c.calls[t].key]))])
  {
  }
}
