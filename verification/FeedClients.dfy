/**
 A client of the change feed beside the service it polls
 (device_registry_store.py get_changes_since; manager/config_service.py and
 manager/config_service_coordinator.py are the client).

 One poll is several SELECTs: the newest audit id, the epoch, a reset check and the change
 rows. The service may step between any two of them. Deltas come from the table; a full
 refetch is served from memory, which a handler publishes after its transaction commits.
 A sync counts the ids anew and keeps the copy as it is.
 */
module FeedClients {
  import opened Models
  import opened DeviceRegistries
  import opened Stores
  import opened ChangeFeed
  import Protocol
  import Recovery

  // ---------------------------------------------------------------------------
  // The client
  // ---------------------------------------------------------------------------

  /** Where the client stands; `Idle` between polls and syncs. */
  datatype Phase =
    | Idle
    | Syncing(current: nat)
    | Counted(current: nat)
    | Dated(current: nat, epoch: string)
    | Checked(current: nat, epoch: string, reset: bool)
    | Answered(response: Response)
    | Refetching(current: nat, epoch: string)

  /** `synced` says that the cursor belongs to the copy. */
  datatype Client = Client(copy: map<string, Spec>, cursor: nat, epoch: string, synced: bool, phase: Phase)

  /**
   Positions in the audit log: at which the transactions of the handler under way began, its
   first one and for a reset where its seed began and ended, and at which the client prefetched.
   */
  datatype Marks = Marks(began: nat, seeding: nat, sealed: nat, prefetched: nat)

  datatype System = System(service: Protocol.System, client: Client, marks: Marks)

  datatype Action =
    | Served(a: Protocol.Action)
    | Logged(names: seq<string>, kind: string)   // a lock event reaches the audit log
    | Prefetch                                   // the environment opens with what memory lists
    | SyncCount | SyncEpoch
    | CountIds | ReadEpoch | CheckReset | ReadRows | Accept | Refetch
    | AcceptUnheard | RefetchUnheard             // the worker applies the update, its answer is lost
    | Abandon                                    // a request fails, or the worker rejects the update

  /** `/devices/instantiation`: the active specs in memory. */
  function Listed(mem: Registry): map<string, Spec> {
    map n | n in mem.specs && mem.specs[n].active :: mem.specs[n]
  }

  ghost predicate Enabled(cfg: Protocol.Config, s: System, a: Action)
    requires Protocol.ValidConfig(cfg)
  {
    var phase := s.client.phase;
    match a
    case Served(step) => Protocol.Enabled(cfg, s.service, step)
    case Logged(_, _) => true
    case Prefetch => phase.Idle?
    case SyncCount => phase.Idle?
    case SyncEpoch => phase.Syncing?
    case CountIds => phase.Idle? && s.client.synced
    case ReadEpoch => phase.Counted?
    case CheckReset => phase.Dated?
    case ReadRows => phase.Checked?
    case Accept => phase.Answered?
    case Refetch => phase.Refetching?
    case AcceptUnheard => phase.Answered?
    case RefetchUnheard => phase.Refetching?
    case Abandon => !phase.Idle?
  }

  /** What a client does with an answer; a plan without changes does not move its cursor. */
  function Accepted(c: Client): Client
    requires c.phase.Answered?
  {
    var response := c.phase.response;
    if response.reset || response.epoch != c.epoch then c.(phase := Refetching(response.current, response.epoch))
    else if response.changes == [] then c.(phase := Idle)
    else match Plan(c.copy, response.changes)
      case None => c.(phase := Idle)
      case Some(copy) => Client(copy, response.current, response.epoch, c.synced, Idle)
  }

  function Polled(s: System, a: Action): Client
    requires a.ReadEpoch? ==> s.client.phase.Counted?
    requires a.CheckReset? ==> s.client.phase.Dated?
    requires a.ReadRows? ==> s.client.phase.Checked?
    requires a.Accept? ==> s.client.phase.Answered?
    requires a.Refetch? || a.RefetchUnheard? ==> s.client.phase.Refetching?
    requires a.AcceptUnheard? ==> s.client.phase.Answered?
    requires a.SyncEpoch? ==> s.client.phase.Syncing?
  {
    var c := s.client;
    var store := s.service.store;
    match a
    case Prefetch => c.(copy := Listed(s.service.mem), synced := false)
    case SyncCount => c.(phase := Syncing(|store.log|))
    case SyncEpoch => Client(c.copy, c.phase.current, EpochOf(store), true, Idle)
    case CountIds => c.(phase := Counted(|store.log|))
    case ReadEpoch =>
      if c.cursor >= c.phase.current then c.(phase := Answered(Response(c.phase.current, EpochOf(store), false, [])))
      else c.(phase := Dated(c.phase.current, EpochOf(store)))
    case CheckReset => c.(phase := Checked(c.phase.current, c.phase.epoch, ResetAfter(store.log, c.cursor)))
    case ReadRows =>
      var changes := ChangesBetween(store.table, store.log, c.cursor, |store.log|);
      c.(phase := Answered(Response(c.phase.current, c.phase.epoch, c.phase.reset, changes)))
    case Accept => Accepted(c)
    case Refetch => Client(Listed(s.service.mem), c.phase.current, c.phase.epoch, c.synced, Idle)
    case AcceptUnheard => c.(copy := Accepted(c).copy, phase := Idle)
    case RefetchUnheard => c.(copy := Listed(s.service.mem), phase := Idle)
    case Abandon => c.(phase := Idle)
    case _ => c
  }

  /** The marks after a step of the service that takes the log to `length`. */
  function Marked(m: Marks, s: Protocol.System, a: Protocol.Action, length: nat): Marks {
    if !a.Proceed? then m
    else if s.handler.Saving? || s.handler.DeletingRow? || s.handler.Wiping? then m.(began := |s.store.log|)
    else if s.handler.Seeding? then m.(seeding := |s.store.log|, sealed := length)
    else m
  }

  ghost function Next(cfg: Protocol.Config, s: System, a: Action): System
    requires Protocol.ValidConfig(cfg) && Enabled(cfg, s, a)
  {
    match a
    case Served(step) =>
      var service := Protocol.Next(cfg, s.service, step);
      System(service, s.client, Marked(s.marks, s.service, step, |service.store.log|))
    case Logged(names, kind) => s.(service := s.service.(store := LockEventLogged(s.service.store, names, kind)))
    case Prefetch => s.(client := Polled(s, a), marks := s.marks.(prefetched := |s.service.store.log|))
    case _ => s.(client := Polled(s, a))
  }

  ghost predicate Behaviour(cfg: Protocol.Config, s: System, actions: seq<Action>)
    requires Protocol.ValidConfig(cfg)
    decreases |actions|
  {
    actions == [] || (Enabled(cfg, s, actions[0]) && Behaviour(cfg, Next(cfg, s, actions[0]), actions[1..]))
  }

  ghost function After(cfg: Protocol.Config, s: System, actions: seq<Action>): System
    requires Protocol.ValidConfig(cfg) && Behaviour(cfg, s, actions)
    decreases |actions|
  {
    if actions == [] then s else After(cfg, Next(cfg, s, actions[0]), actions[1..])
  }

  /** The first start of the service, and a client without a copy. */
  function Start(cfg: Protocol.Config, now: int, epoch: string): System
    requires forall n :: n in cfg.profile.order ==> n in cfg.profile.devices
  {
    System(Protocol.Boot(cfg, now, epoch), Client(map[], 0, "", false, Idle), Marks(0, 0, 0, 0))
  }

  // ---------------------------------------------------------------------------
  // What the client may rely on
  // ---------------------------------------------------------------------------

  ghost predicate PhaseHolds(s: System) {
    var c := s.client;
    var store := s.service.store;
    match c.phase
    case Idle => true
    case Syncing(current) => current <= |store.log| && Fresh(c.copy, current, store)
    case Counted(current) => c.synced && c.cursor <= current <= |store.log|
    case Dated(current, _) => c.synced && c.cursor <= current <= |store.log|
    case Checked(current, _, reset) =>
      && c.synced && c.cursor <= current <= |store.log|
      && (!reset ==> !exists i :: c.cursor <= i < current && store.log[i].op.Reset?)
    case Answered(response) =>
      && c.synced && c.cursor <= response.current <= |store.log|
      && (!response.reset && response.changes != [] && Plan(c.copy, response.changes).Some? ==>
            Fresh(Plan(c.copy, response.changes).value, response.current, store))
    case Refetching(current, _) => c.synced && c.cursor <= current <= |store.log|
  }

  /** The position the copy goes back to: its cursor, or the prefetch while it is not synced. */
  function Base(s: System): nat {
    if s.client.synced then s.client.cursor else s.marks.prefetched
  }

  /** The copy is right about every device with no news after its base. */
  ghost predicate CopyHolds(s: System) {
    && s.client.cursor <= |s.service.store.log| && s.marks.prefetched <= |s.service.store.log|
    && DeletionsHold(s.service.store)
    && Fresh(s.client.copy, Base(s), s.service.store)
    && PhaseHolds(s)
  }

  /** A handler that saves does so under an operation of the feed. */
  predicate OpsValid(h: Protocol.Handler) {
    (h.Saving? || h.Applying?) ==> h.op.Add? || h.op.Update? || h.op.Enable? || h.op.Disable?
  }

  /** The transaction a step of the service commits. */
  function WriteOf(cfg: Protocol.Config, s: Protocol.System, a: Protocol.Action): Option<Write> {
    if a.Crash? then
      if s.store.seeded.None? then Some(SeedWith(cfg.profile, a.epoch)) else None
    else if !a.Proceed? then None
    else match s.handler
      case Saving(device, spec, op) => Some(Save(device.name, Row(device, spec), op))
      case DeletingRow(name) => Some(DeleteRow(name))
      case Wiping(_) => Some(Wipe)
      case Seeding(clear) => Some(SeedWith(Protocol.Base(cfg, clear), a.epoch))
      case _ => None
  }

  lemma ServiceCommits(cfg: Protocol.Config, s: Protocol.System, a: Protocol.Action)
    requires Protocol.ValidConfig(cfg) && Protocol.Enabled(cfg, s, a) && OpsValid(s.handler)
    ensures var w := WriteOf(cfg, s, a);
            var after := Protocol.Next(cfg, s, a).store;
            if w.Some? then ValidWrite(w.value) && after == Commit(s.store, w.value) else after == s.store
    ensures OpsValid(Protocol.Next(cfg, s, a).handler)
  {
  }

  lemma CommitKeepsCopy(s: System, service: Protocol.System, marks: Marks, w: Write)
    requires CopyHolds(s) && ValidWrite(w) && service.store == Commit(s.service.store, w)
    requires marks.prefetched == s.marks.prefetched
    ensures CopyHolds(System(service, s.client, marks))
  {
    var c := s.client;
    var store := s.service.store;
    CommitKeepsDeletions(store, w);
    assert Commit(store, w).log == store.log + Appended(store, w);
    CommitKeepsFresh(c.copy, Base(s), store, w);
    match c.phase {
      case Syncing(current) => CommitKeepsFresh(c.copy, current, store, w);
      case Answered(response) =>
        if !response.reset && response.changes != [] && Plan(c.copy, response.changes).Some? {
          CommitKeepsFresh(Plan(c.copy, response.changes).value, response.current, store, w);
        }
      case _ =>
    }
  }

  lemma ServiceKeepsCopy(cfg: Protocol.Config, s: System, a: Protocol.Action)
    requires Protocol.ValidConfig(cfg) && Protocol.Enabled(cfg, s.service, a)
    requires CopyHolds(s) && OpsValid(s.service.handler)
    ensures CopyHolds(Next(cfg, s, Served(a)))
  {
    ServiceCommits(cfg, s.service, a);
    var after := Next(cfg, s, Served(a));
    var w := WriteOf(cfg, s.service, a);
    if w.Some? {
      CommitKeepsCopy(s, after.service, after.marks, w.value);
    }
  }

  /** Prefetch, refetch and sync apart, every step of the client keeps its copy right. */
  lemma PollKeepsCopy(cfg: Protocol.Config, s: System, a: Action)
    requires Protocol.ValidConfig(cfg) && Enabled(cfg, s, a) && CopyHolds(s)
    requires !a.Served? && !a.Logged? && !a.Prefetch? && !a.Refetch? && !a.RefetchUnheard? && !a.SyncCount?
    ensures CopyHolds(Next(cfg, s, a))
  {
    var c := s.client;
    if a.ReadRows? && !c.phase.reset {
      var changes := ChangesBetween(s.service.store.table, s.service.store.log, c.cursor, |s.service.store.log|);
      if Plan(c.copy, changes).Some? {
        DeltasKeepFresh(c.copy, c.cursor, c.phase.current, s.service.store);
      }
    }
    if a.AcceptUnheard? && Accepted(c).copy != c.copy {
      FreshEarlier(Accepted(c).copy, c.cursor, c.phase.response.current, s.service.store);
    }
  }

  /** A copy right for one position is right for an earlier one, after which more is news. */
  lemma FreshEarlier(copy: map<string, Spec>, earlier: nat, later: nat, store: Store)
    requires earlier <= later && Fresh(copy, later, store)
    ensures Fresh(copy, earlier, store)
  {
    forall name | Settled(store.log, earlier, name)
      ensures Settled(store.log, later, name)
    {
    }
  }

  // ---------------------------------------------------------------------------
  // Where the unpublished entries are
  // ---------------------------------------------------------------------------

  /** From `start` up to `end` the log holds lock events only. */
  predicate QuietBetween(log: seq<Entry>, start: nat, end: nat) {
    forall i :: start <= i < end && i < |log| ==> !InFeed(log[i].op) && !log[i].op.Reset?
  }

  predicate EntryAt(log: seq<Entry>, i: nat, e: Entry) {
    i < |log| && log[i] == e
  }

  /** A reset that has seeded: its wipe, its seed of the rows, and nothing else of the feed since. */
  ghost predicate SeedMarked(store: Store, m: Marks) {
    && m.began < m.seeding <= m.sealed <= |store.log|
    && EntryAt(store.log, m.began, Entry("*", Reset))
    && QuietBetween(store.log, m.began + 1, m.seeding)
    && (forall n :: n in store.table ==> exists i :: m.seeding <= i < m.sealed && store.log[i] == Entry(n, Seed))
    && (forall i :: m.seeding <= i < m.sealed ==> store.log[i].op.Seed? && store.log[i].device in store.table)
    && QuietBetween(store.log, m.sealed, |store.log|)
  }

  /** What the marks say about the handler under way. */
  ghost predicate HandlerMarked(h: Protocol.Handler, store: Store, m: Marks) {
    match h
    case Applying(device, _, op) => LastEntry(store.log, m.began, Entry(device.name, op))
    case Dropping(name) => LastEntry(store.log, m.began, Entry(name, Delete))
    case Seeding(_) => LastEntry(store.log, m.began, Entry("*", Reset))
    case _ => AfterSeed(h) ==> SeedMarked(store, m)
  }

  /** The entry is there, and only lock events came after it. */
  predicate LastEntry(log: seq<Entry>, i: nat, e: Entry) {
    EntryAt(log, i, e) && QuietBetween(log, i + 1, |log|)
  }

  predicate AfterSeed(h: Protocol.Handler) {
    h.Reapplying? || h.ClearingLocks? || h.Publishing?
  }

  predicate Unmarked(h: Protocol.Handler) {
    !h.Applying? && !h.Dropping? && !h.Seeding? && !AfterSeed(h)
  }

  ghost predicate MarksRight(s: System) {
    HandlerMarked(s.service.handler, s.service.store, s.marks)
  }

  /** The head of the log a poll has counted; a position of no interest when it has not. */
  function CountOf(phase: Phase): nat {
    match phase
    case Counted(current) => current
    case Dated(current, _) => current
    case Checked(current, _, _) => current
    case Answered(response) => response.current
    case Refetching(current, _) => current
    case _ => 0
  }

  /** A poll counts before or after a seed, never inside it. */
  predicate CountsWhole(s: System) {
    WholeHead(s.service.handler, s.marks, CountOf(s.client.phase))
  }

  ghost predicate Tracked(cfg: Protocol.Config, s: System)
    requires Protocol.ValidConfig(cfg)
  {
    Recovery.RowsInStep(cfg, s.service) && MarksRight(s) && CountsWhole(s)
  }

  lemma QuietMore(log: seq<Entry>, more: seq<Entry>, start: nat)
    requires QuietBetween(log, start, |log|)
    requires forall e :: e in more ==> !InFeed(e.op) && !e.op.Reset?
    ensures QuietBetween(log + more, start, |log + more|)
  {
    forall i | start <= i < |log + more|
      ensures !InFeed((log + more)[i].op) && !(log + more)[i].op.Reset?
    {
      if i >= |log| {
        assert (log + more)[i] in more;
      }
    }
  }

  lemma LogKeepsSeedMarked(store: Store, names: seq<string>, kind: string, m: Marks)
    requires SeedMarked(store, m)
    ensures SeedMarked(LockEventLogged(store, names, kind), m)
  {
    QuietMore(store.log, EntriesFor(names, LockEvent(kind)), m.sealed);
    var log := LockEventLogged(store, names, kind).log;
    assert forall i :: 0 <= i < |store.log| ==> log[i] == store.log[i];
    forall n | n in store.table
      ensures exists i :: m.seeding <= i < m.sealed && log[i] == Entry(n, Seed)
    {
      var i :| m.seeding <= i < m.sealed && store.log[i] == Entry(n, Seed);
      assert log[i] == Entry(n, Seed);
    }
  }

  lemma LogKeepsMarks(h: Protocol.Handler, store: Store, m: Marks, names: seq<string>, kind: string)
    requires HandlerMarked(h, store, m)
    ensures HandlerMarked(h, LockEventLogged(store, names, kind), m)
  {
    if AfterSeed(h) {
      LogKeepsSeedMarked(store, names, kind, m);
    } else if !Unmarked(h) {
      QuietMore(store.log, EntriesFor(names, LockEvent(kind)), m.began + 1);
    }
  }

  lemma LogKeepsCopy(cfg: Protocol.Config, s: System, names: seq<string>, kind: string)
    requires Protocol.ValidConfig(cfg) && CopyHolds(s)
    ensures CopyHolds(Next(cfg, s, Logged(names, kind)))
  {
    var after := Next(cfg, s, Logged(names, kind));
    CommitKeepsCopy(s, after.service, after.marks, LogLock(names, kind));
  }

  /** The seed of a reset, right after its wipe. */
  lemma SeedIsMarked(log: seq<Entry>, names: seq<string>, after: Store, m: Marks)
    requires LastEntry(log, m.began, Entry("*", Reset)) && m.seeding == |log| && m.sealed == |after.log|
    requires after.log == log + EntriesFor(names, Seed)
    requires forall n :: n in after.table <==> n in names
    ensures SeedMarked(after, m)
  {
    assert forall i :: 0 <= i < |names| ==> after.log[|log| + i] == Entry(names[i], Seed);
    forall n | n in after.table
      ensures exists i :: |log| <= i < |after.log| && after.log[i] == Entry(n, Seed)
    {
      var k :| 0 <= k < |names| && names[k] == n;
      assert after.log[|log| + k] == Entry(n, Seed);
    }
    forall i | |log| <= i < |after.log|
      ensures after.log[i].op.Seed? && after.log[i].device in after.table
    {
      assert after.log[i] == Entry(names[i - |log|], Seed);
    }
  }

  lemma SeedStepIsMarked(cfg: Protocol.Config, s: System, epoch: string)
    requires Protocol.ValidConfig(cfg) && Tracked(cfg, s) && s.service.handler.Seeding?
    ensures var after := Next(cfg, s, Served(Protocol.Proceed(epoch)));
            after.service.handler.Reapplying? && SeedMarked(after.service.store, after.marks)
  {
    var base := Protocol.Base(cfg, s.service.handler.clear);
    var after := Next(cfg, s, Served(Protocol.Proceed(epoch)));
    assert !Collides(s.service.store.table, base.order);
    assert forall n :: n in after.service.store.table <==> n in base.order;
    SeedIsMarked(s.service.store.log, base.order, after.service.store, after.marks);
  }

  /** A step that does not lose agreement keeps track, and one that restores it starts to. */
  lemma ServiceKeepsTracked(cfg: Protocol.Config, s: System, a: Protocol.Action)
    requires Protocol.ValidConfig(cfg) && Protocol.Enabled(cfg, s.service, a)
    requires Protocol.Safe(s.service) && Protocol.RowsNamed(s.service)
    requires CountOf(s.client.phase) <= |s.service.store.log|
    requires Recovery.Mends(s.service, a) || (Tracked(cfg, s) && !Recovery.BreaksRows(cfg, s.service, a))
    ensures Tracked(cfg, Next(cfg, s, Served(a)))
  {
    if Recovery.Mends(s.service, a) {
      MendStartsTracking(cfg, s, a);
    } else {
      IntactKeepsTracked(cfg, s, a);
    }
  }

  lemma MendStartsTracking(cfg: Protocol.Config, s: System, a: Protocol.Action)
    requires Protocol.ValidConfig(cfg) && Protocol.Enabled(cfg, s.service, a)
    requires Protocol.RowsNamed(s.service) && Recovery.Mends(s.service, a)
    ensures Tracked(cfg, Next(cfg, s, Served(a)))
  {
    Recovery.MendsRestore(cfg, s.service, a);
  }

  lemma IntactKeepsTracked(cfg: Protocol.Config, s: System, a: Protocol.Action)
    requires Protocol.ValidConfig(cfg) && Protocol.Enabled(cfg, s.service, a)
    requires Protocol.Safe(s.service) && Protocol.RowsNamed(s.service) && Tracked(cfg, s)
    requires CountOf(s.client.phase) <= |s.service.store.log|
    requires !Recovery.Mends(s.service, a) && !Recovery.BreaksRows(cfg, s.service, a)
    ensures Tracked(cfg, Next(cfg, s, Served(a)))
  {
    Recovery.NextRowsIff(cfg, s.service, a);
    if a.Proceed? && s.service.handler.Seeding? {
      SeedStepIsMarked(cfg, s, a.epoch);
    } else {
      StepKeepsMarks(cfg, s, a);
    }
  }

  lemma StepKeepsMarks(cfg: Protocol.Config, s: System, a: Protocol.Action)
    requires Protocol.ValidConfig(cfg) && Protocol.Enabled(cfg, s.service, a)
    requires Protocol.Safe(s.service) && Tracked(cfg, s)
    requires !(a.Proceed? && s.service.handler.Seeding?) && !a.Crash?
    ensures MarksRight(Next(cfg, s, Served(a))) && CountsWhole(Next(cfg, s, Served(a)))
  {
    if a.Proceed? {
      ProceedKeepsMarks(cfg, s, a.epoch);
    } else {
      OtherStepLeaves(cfg, s.service, a);
    }
  }

  /** Only a handler that proceeds, and a restart, commit anything or take a handler further. */
  lemma OtherStepLeaves(cfg: Protocol.Config, s: Protocol.System, a: Protocol.Action)
    requires Protocol.ValidConfig(cfg) && Protocol.Enabled(cfg, s, a) && !a.Proceed? && !a.Crash?
    ensures Protocol.Next(cfg, s, a).store == s.store
    ensures Protocol.Next(cfg, s, a).handler == s.handler || Unmarked(Protocol.Next(cfg, s, a).handler)
  {
  }

  lemma ProceedKeepsMarks(cfg: Protocol.Config, s: System, epoch: string)
    requires Protocol.ValidConfig(cfg) && Protocol.Enabled(cfg, s.service, Protocol.Proceed(epoch))
    requires Protocol.Safe(s.service) && Tracked(cfg, s) && !s.service.handler.Seeding?
    ensures MarksRight(Next(cfg, s, Served(Protocol.Proceed(epoch))))
    ensures CountsWhole(Next(cfg, s, Served(Protocol.Proceed(epoch))))
  {
    var h := s.service.handler;
    if h.Saving? || h.DeletingRow? || h.Wiping? {
      CommitIsMarked(cfg, s, epoch);
    } else {
      QuietProceed(cfg, s.service, epoch);
    }
  }

  lemma NewLastEntry(log: seq<Entry>, e: Entry)
    ensures LastEntry(log + [e], |log|, e)
  {
  }

  lemma CommitIsMarked(cfg: Protocol.Config, s: System, epoch: string)
    requires Protocol.ValidConfig(cfg) && Protocol.Safe(s.service) && Recovery.RowsInStep(cfg, s.service)
    requires s.service.handler.Saving? || s.service.handler.DeletingRow? || s.service.handler.Wiping?
    ensures var after := Next(cfg, s, Served(Protocol.Proceed(epoch)));
            MarksRight(after) && !AfterSeed(after.service.handler)
  {
    var log := s.service.store.log;
    match s.service.handler {
      case Saving(device, _, op) => NewLastEntry(log, Entry(device.name, op));
      case DeletingRow(name) =>
        assert name in RowsOf(s.service.mem);
        NewLastEntry(log, Entry(name, Delete));
      case Wiping(_) => NewLastEntry(log, Entry("*", Reset));
    }
  }

  /** The other steps of a handler commit nothing; after a seed they stay after it or publish. */
  lemma QuietProceed(cfg: Protocol.Config, s: Protocol.System, epoch: string)
    requires Protocol.ValidConfig(cfg) && !s.handler.Saving? && !s.handler.DeletingRow? && !s.handler.Wiping?
    requires !s.handler.Seeding?
    ensures var after := Protocol.Proceeded(cfg, s, epoch);
            after.store == s.store && (Unmarked(after.handler) || (AfterSeed(s.handler) && AfterSeed(after.handler)))
  {
  }

  // ---------------------------------------------------------------------------
  // When a refetch and a sync are right
  // ---------------------------------------------------------------------------

  /** Every device of the copy but "*" is one the table has a row for. */
  predicate CopyWithin(copy: map<string, Spec>, table: map<string, Row>) {
    forall n :: n in copy && n != "*" ==> n in table
  }

  ghost predicate SameButStar(a: map<string, Spec>, b: map<string, Spec>) {
    forall n :: n != "*" ==> SameAt(a, b, n)
  }

  /**
   When a full refetch under a counted head is right, by what the handler has committed and not
   yet published. The head was counted before the commit, or memory lists what the table says:
   about the saved device, about the deleted one (which is then disabled), about nothing at all
   (the wiped table), or, after a seed, about every device the feed does not report again.
   */
  ghost predicate SafeUnder(h: Protocol.Handler, mem: Registry, store: Store, m: Marks, current: nat) {
    match h
    case Applying(device, _, _) =>
      current <= m.began || device.name == "*" || SameAt(Listed(mem), Overlay(store.table), device.name)
    case Dropping(name) => current <= m.began || name == "*" || name !in Listed(mem)
    case Seeding(_) => current <= m.began || CopyWithin(Listed(mem), map[])
    case _ => AfterSeed(h) ==> SeededSafe(mem, store, m, current)
  }

  ghost predicate SeededSafe(mem: Registry, store: Store, m: Marks, current: nat) {
    || current <= m.began
    || (if current <= m.seeding then CopyWithin(Listed(mem), store.table)
        else SameButStar(Listed(mem), Overlay(store.table)))
  }

  ghost predicate RefetchSafe(s: System, current: nat) {
    SafeUnder(s.service.handler, s.service.mem, s.service.store, s.marks, current)
  }

  /** A head is counted before or after a seed, never inside it. */
  predicate WholeHead(h: Protocol.Handler, m: Marks, current: nat) {
    AfterSeed(h) ==> current <= m.seeding || m.sealed <= current
  }

  /** What memory lists is what its rows would. */
  lemma ListedIsOverlay(mem: Registry)
    requires WellFormed(mem)
    ensures Listed(mem) == Overlay(RowsOf(mem))
  {
  }

  lemma QuietSettles(log: seq<Entry>, start: nat, current: nat, name: string)
    requires QuietBetween(log, start, |log|) && start <= current
    ensures Settled(log, current, name)
  {
  }

  /** A handler with one entry: its device has news exactly for heads counted before it. */
  lemma OneEntryNews(log: seq<Entry>, began: nat, e: Entry, current: nat)
    requires LastEntry(log, began, e) && FeedEntry(e)
    ensures Settled(log, current, e.device) ==> current > began
    ensures current > began ==> forall n :: Settled(log, current, n)
  {
    if current > began {
      forall n: string
        ensures Settled(log, current, n)
      {
        QuietSettles(log, began + 1, current, n);
      }
    }
  }

  lemma ResetNews(log: seq<Entry>, began: nat, current: nat, name: string)
    requires EntryAt(log, began, Entry("*", Reset)) && current <= began
    ensures !Settled(log, current, name)
  {
    assert log[began].op.Reset?;
  }

  lemma OneNameFreshIff(copy: map<string, Spec>, store: Store, began: nat, e: Entry, current: nat)
    requires LastEntry(store.log, began, e) && InFeed(e.op)
    requires forall n :: n != e.device ==> SameAt(copy, Overlay(store.table), n)
    ensures Fresh(copy, current, store) <==>
            current <= began || e.device == "*" || SameAt(copy, Overlay(store.table), e.device)
  {
    if e.device != "*" {
      OneEntryNews(store.log, began, e, current);
    }
  }

  lemma SavedRefetchIff(cfg: Protocol.Config, s: System, current: nat)
    requires Protocol.ValidConfig(cfg) && Protocol.Safe(s.service) && Tracked(cfg, s)
    requires s.service.handler.Applying? && OpsValid(s.service.handler)
    ensures Fresh(Listed(s.service.mem), current, s.service.store) <==> RefetchSafe(s, current)
  {
    var store := s.service.store;
    var device := s.service.handler.device;
    ListedIsOverlay(s.service.mem);
    OneRowOverlay(RowsOf(s.service.mem), store.table, device.name);
    var e := Entry(device.name, s.service.handler.op);
    OneNameFreshIff(Listed(s.service.mem), store, s.marks.began, e, current);
  }

  lemma OneRowOverlay(a: map<string, Row>, b: map<string, Row>, name: string)
    requires forall n :: n != name ==> SameAt(a, b, n)
    ensures forall n :: n != name ==> SameAt(Overlay(a), Overlay(b), n)
  {
    forall n | n != name
      ensures SameAt(Overlay(a), Overlay(b), n)
    {
      SameRowSameOverlay(a, b, n);
    }
  }

  lemma DeletedRefetchIff(cfg: Protocol.Config, s: System, current: nat)
    requires Protocol.ValidConfig(cfg) && Protocol.Safe(s.service) && Tracked(cfg, s)
    requires s.service.handler.Dropping?
    ensures Fresh(Listed(s.service.mem), current, s.service.store) <==> RefetchSafe(s, current)
  {
    var store := s.service.store;
    var name := s.service.handler.name;
    ListedIsOverlay(s.service.mem);
    OneRowOverlay(RowsOf(s.service.mem), store.table, name);
    OneNameFreshIff(Listed(s.service.mem), store, s.marks.began, Entry(name, Delete), current);
  }

  lemma WipedRefetchIff(mem: Registry, store: Store, m: Marks, current: nat)
    requires LastEntry(store.log, m.began, Entry("*", Reset)) && store.table == map[]
    ensures Fresh(Listed(mem), current, store) <==> current <= m.began || CopyWithin(Listed(mem), map[])
  {
    forall n
      ensures Settled(store.log, current, n) <==> current > m.began
    {
      if current <= m.began {
        ResetNews(store.log, m.began, current, n);
      } else {
        QuietSettles(store.log, m.began + 1, current, n);
      }
    }
    assert forall n :: SameAt(Listed(mem), Overlay(store.table), n) <==> n !in Listed(mem);
  }

  /** After a seed, by where the head was counted: before the wipe, before the seed, or after it. */
  lemma SeededNews(store: Store, m: Marks, current: nat, name: string)
    requires SeedMarked(store, m) && name != "*"
    ensures current <= m.began ==> !Settled(store.log, current, name)
    ensures m.began < current <= m.seeding ==> (Settled(store.log, current, name) <==> name !in store.table)
    ensures m.sealed <= current && m.began < current ==> Settled(store.log, current, name)
  {
    if current <= m.began {
      ResetNews(store.log, m.began, current, name);
    } else if m.sealed <= current {
      QuietSettles(store.log, m.sealed, current, name);
    } else if current <= m.seeding {
      if name in store.table {
        var i :| m.seeding <= i < m.sealed && store.log[i] == Entry(name, Seed);
        assert TouchedAfter(store.log, current, name);
      } else {
        assert forall i :: current <= i < |store.log| ==>
          !store.log[i].op.Reset? && !(FeedEntry(store.log[i]) && store.log[i].device == name);
      }
    }
  }

  lemma SeededRefetchIff(mem: Registry, store: Store, m: Marks, current: nat)
    requires SeedMarked(store, m) && (current <= m.seeding || m.sealed <= current)
    ensures Fresh(Listed(mem), current, store) <==> SeededSafe(mem, store, m, current)
  {
    forall n | n != "*"
      ensures current <= m.began ==> !Settled(store.log, current, n)
      ensures m.began < current <= m.seeding ==> (Settled(store.log, current, n) <==> n !in store.table)
      ensures m.sealed <= current && m.began < current ==> Settled(store.log, current, n)
    {
      SeededNews(store, m, current, n);
    }
    assert forall n :: n !in store.table ==> (SameAt(Listed(mem), Overlay(store.table), n) <==> n !in Listed(mem));
  }

  /**
   While the tables are in step, what memory lists keeps the promise of a head, counted before
   or now, exactly when the handler under way allows it.
   */
  lemma RefetchFreshIff(cfg: Protocol.Config, s: System, current: nat)
    requires Protocol.ValidConfig(cfg) && Protocol.Safe(s.service) && Tracked(cfg, s)
    requires OpsValid(s.service.handler) && WholeHead(s.service.handler, s.marks, current)
    ensures Fresh(Listed(s.service.mem), current, s.service.store) <==> RefetchSafe(s, current)
  {
    if s.service.handler.Applying? {
      SavedRefetchIff(cfg, s, current);
    } else if s.service.handler.Dropping? {
      DeletedRefetchIff(cfg, s, current);
    } else if s.service.handler.Seeding? {
      WipedRefetchIff(s.service.mem, s.service.store, s.marks, current);
    } else if AfterSeed(s.service.handler) {
      SeededRefetchIff(s.service.mem, s.service.store, s.marks, current);
    } else {
      ListedIsOverlay(s.service.mem);
    }
  }

  /** A step that commits nothing but lock events and publishes nothing. */
  predicate Lingers(a: Action) {
    a.Served? ==> a.a.LockCall? || a.a.Tick? || a.a.ReadPv? || a.a.WritePv?
  }

  lemma LingeringStepKeepsMarks(cfg: Protocol.Config, s: System, h: Protocol.Handler, a: Action)
    requires Protocol.ValidConfig(cfg) && s.service.handler.Free? && HandlerMarked(h, s.service.store, s.marks)
    requires Enabled(cfg, s, a) && Lingers(a)
    ensures Lingered(s, Next(cfg, s, a)) && HandlerMarked(h, Next(cfg, s, a).service.store, Next(cfg, s, a).marks)
  {
    if a.Logged? {
      LogKeepsMarks(h, s.service.store, s.marks, a.names, a.kind);
    } else {
      SameMarks(h, s.service.store, s.marks, Next(cfg, s, a).marks);
    }
  }

  /** No handler under way before or after, and the same table and memory. */
  predicate Lingered(s: System, end: System) {
    && s.service.handler.Free? && end.service.handler.Free?
    && end.service.mem == s.service.mem && end.service.store.table == s.service.store.table
    && end.marks == s.marks.(prefetched := end.marks.prefetched)
  }

  /** While nothing is committed or published, a handler that gave up leaves its marks right. */
  lemma {:induction false} LingeringKeepsMarks(cfg: Protocol.Config, s: System, h: Protocol.Handler,
      actions: seq<Action>)
    requires Protocol.ValidConfig(cfg) && s.service.handler.Free? && HandlerMarked(h, s.service.store, s.marks)
    requires Behaviour(cfg, s, actions) && forall i :: 0 <= i < |actions| ==> Lingers(actions[i])
    ensures Lingered(s, After(cfg, s, actions))
    ensures HandlerMarked(h, After(cfg, s, actions).service.store, After(cfg, s, actions).marks)
    decreases |actions|
  {
    if actions != [] {
      LingeringStepKeepsMarks(cfg, s, h, actions[0]);
      LingeringKeepsMarks(cfg, Next(cfg, s, actions[0]), h, actions[1..]);
    }
  }

  lemma SameMarks(h: Protocol.Handler, store: Store, a: Marks, b: Marks)
    requires HandlerMarked(h, store, a) && b == a.(prefetched := b.prefetched)
    ensures HandlerMarked(h, store, b)
  {
  }

  /**
   A reset that fails after its wipe leaves the same condition behind, for every head counted
   before or after the failure, until something is committed or published again.
   */
  lemma FailedResetRefetchIff(cfg: Protocol.Config, s: System, actions: seq<Action>, current: nat)
    requires Protocol.ValidConfig(cfg) && Tracked(cfg, s) && Recovery.FailsAfterWipe(s.service, Protocol.Fail)
    requires Behaviour(cfg, Next(cfg, s, Served(Protocol.Fail)), actions)
    requires forall i :: 0 <= i < |actions| ==> Lingers(actions[i])
    requires WholeHead(s.service.handler, s.marks, current)
    ensures var end := After(cfg, Next(cfg, s, Served(Protocol.Fail)), actions);
      && end.service.handler.Free?
      && (Fresh(Listed(end.service.mem), current, end.service.store) <==>
            SafeUnder(s.service.handler, end.service.mem, end.service.store, end.marks, current))
  {
    var h := s.service.handler;
    LingeringKeepsMarks(cfg, Next(cfg, s, Served(Protocol.Fail)), h, actions);
    var end := After(cfg, Next(cfg, s, Served(Protocol.Fail)), actions);
    if h.Seeding? {
      WipedRefetchIff(end.service.mem, end.service.store, end.marks, current);
    } else {
      SeededRefetchIff(end.service.mem, end.service.store, end.marks, current);
    }
  }

  /** Every device reported after the base already is what the table says. */
  ghost predicate SyncSafe(s: System) {
    forall n :: n != "*" && !Settled(s.service.store.log, Base(s), n) ==>
      SameAt(s.client.copy, Overlay(s.service.store.table), n)
  }

  /**
   A sync, which moves the cursor to the head and keeps the copy, is right exactly when every
   device reported after the base of the copy already is what the table says: the devices not
   reported are right by the base. Without such a report it is always right.
   */
  lemma SyncRightIff(s: System)
    requires CopyHolds(s)
    ensures Fresh(s.client.copy, |s.service.store.log|, s.service.store) <==> SyncSafe(s)
    ensures QuietBetween(s.service.store.log, Base(s), |s.service.store.log|) ==> SyncSafe(s)
  {
    var store := s.service.store;
    HeadIsExact(s.client.copy, store);
    if QuietBetween(store.log, Base(s), |store.log|) {
      forall n: string
        ensures Settled(store.log, Base(s), n)
      {
        QuietSettles(store.log, Base(s), Base(s), n);
      }
    }
  }

  lemma HeadIsExact(copy: map<string, Spec>, store: Store)
    ensures Fresh(copy, |store.log|, store) <==> SameButStar(copy, Overlay(store.table))
  {
    assert forall n :: Settled(store.log, |store.log|, n);
  }

  /** A copy prefetched after its head was counted is right, if no handler is between commit and publication. */
  lemma CountThenPrefetchIsRight(cfg: Protocol.Config, s: System, current: nat)
    requires Protocol.ValidConfig(cfg) && Inv(cfg, s, true) && Unmarked(s.service.handler)
    requires Enabled(cfg, s, Prefetch)
    ensures Fresh(Next(cfg, s, Prefetch).client.copy, current, s.service.store)
  {
    RefetchFreshIff(cfg, s, current);
  }

  // ---------------------------------------------------------------------------
  // Every behaviour
  // ---------------------------------------------------------------------------

  /**
   Every prefetch, refetch and sync of the behaviour is made where it is right; `intact` says
   that the device rows are in step.
   */
  ghost predicate Careful(cfg: Protocol.Config, s: System, actions: seq<Action>, intact: bool)
    requires Protocol.ValidConfig(cfg) && Behaviour(cfg, s, actions)
    decreases |actions|
  {
    actions == [] ||
    (&& CarefulStep(s, actions[0], intact)
     && Careful(cfg, Next(cfg, s, actions[0]), actions[1..], StillIntact(cfg, s, actions[0], intact)))
  }

  ghost function IntactAfter(cfg: Protocol.Config, s: System, actions: seq<Action>, intact: bool): bool
    requires Protocol.ValidConfig(cfg) && Behaviour(cfg, s, actions)
    decreases |actions|
  {
    if actions == [] then intact
    else IntactAfter(cfg, Next(cfg, s, actions[0]), actions[1..], StillIntact(cfg, s, actions[0], intact))
  }

  predicate StillIntact(cfg: Protocol.Config, s: System, a: Action, intact: bool) {
    if a.Served? then Recovery.Mends(s.service, a.a) || (intact && !Recovery.BreaksRows(cfg, s.service, a.a))
    else intact
  }

  ghost predicate Inv(cfg: Protocol.Config, s: System, intact: bool)
    requires Protocol.ValidConfig(cfg)
  {
    && Protocol.Safe(s.service) && Protocol.RowsNamed(s.service) && OpsValid(s.service.handler)
    && CopyHolds(s)
    && (intact ==> Tracked(cfg, s))
  }

  lemma ServedKeepsInv(cfg: Protocol.Config, s: System, a: Protocol.Action, intact: bool)
    requires Protocol.ValidConfig(cfg) && Protocol.Enabled(cfg, s.service, a) && Inv(cfg, s, intact)
    ensures Inv(cfg, Next(cfg, s, Served(a)), StillIntact(cfg, s, Served(a), intact))
  {
    Protocol.NextKeepsSafe(cfg, s.service, a);
    Protocol.NextKeepsRowsNamed(cfg, s.service, a);
    ServiceCommits(cfg, s.service, a);
    ServiceKeepsCopy(cfg, s, a);
    if StillIntact(cfg, s, Served(a), intact) {
      ServiceKeepsTracked(cfg, s, a);
    }
  }

  lemma LoggedKeepsInv(cfg: Protocol.Config, s: System, names: seq<string>, kind: string, intact: bool)
    requires Protocol.ValidConfig(cfg) && Inv(cfg, s, intact)
    ensures Inv(cfg, Next(cfg, s, Logged(names, kind)), intact)
  {
    LogKeepsCopy(cfg, s, names, kind);
    if intact {
      LogKeepsMarks(s.service.handler, s.service.store, s.marks, names, kind);
    }
  }

  /** The steps of the client leave the service and its marks alone, and count the whole log or nothing. */
  lemma ClientLeavesService(cfg: Protocol.Config, s: System, a: Action)
    requires Protocol.ValidConfig(cfg) && Enabled(cfg, s, a) && !a.Served? && !a.Logged?
    ensures var after := Next(cfg, s, a);
      && after.service == s.service && after.marks == s.marks.(prefetched := after.marks.prefetched)
      && (CountOf(after.client.phase) == CountOf(s.client.phase)
          || CountOf(after.client.phase) == |s.service.store.log| || CountOf(after.client.phase) == 0)
  {
  }

  lemma ClientKeepsTracked(cfg: Protocol.Config, s: System, a: Action)
    requires Protocol.ValidConfig(cfg) && Enabled(cfg, s, a) && !a.Served? && !a.Logged?
    requires Tracked(cfg, s)
    ensures Tracked(cfg, Next(cfg, s, a))
  {
    ClientLeavesService(cfg, s, a);
    SameMarks(s.service.handler, s.service.store, s.marks, Next(cfg, s, a).marks);
  }

  /** A copy taken from memory or kept at a new head, where that is right. */
  lemma CarefulStepKeepsCopy(cfg: Protocol.Config, s: System, a: Action)
    requires Protocol.ValidConfig(cfg) && Protocol.Safe(s.service) && OpsValid(s.service.handler) && CopyHolds(s)
    requires Enabled(cfg, s, a) && CarefulStep(s, a, true)
    requires if a.Prefetch? || a.Refetch? || a.RefetchUnheard? then Tracked(cfg, s) else a.SyncCount?
    ensures CopyHolds(Next(cfg, s, a))
  {
    if a.Prefetch? {
      RefetchFreshIff(cfg, s, |s.service.store.log|);
    } else if a.Refetch? || a.RefetchUnheard? {
      var current := s.client.phase.current;
      RefetchFreshIff(cfg, s, current);
      FreshEarlier(Listed(s.service.mem), s.client.cursor, current, s.service.store);
    } else {
      SyncRightIff(s);
    }
  }

  lemma ClientKeepsInv(cfg: Protocol.Config, s: System, a: Action, intact: bool)
    requires Protocol.ValidConfig(cfg) && Enabled(cfg, s, a) && !a.Served? && !a.Logged? && Inv(cfg, s, intact)
    requires CarefulStep(s, a, intact)
    ensures Inv(cfg, Next(cfg, s, a), intact)
  {
    ClientLeavesService(cfg, s, a);
    if intact {
      ClientKeepsTracked(cfg, s, a);
    }
    if a.Prefetch? || a.Refetch? || a.RefetchUnheard? || a.SyncCount? {
      CarefulStepKeepsCopy(cfg, s, a);
    } else {
      PollKeepsCopy(cfg, s, a);
    }
  }

  /** A prefetch, a refetch and a sync only where it is right. */
  ghost predicate CarefulStep(s: System, a: Action, intact: bool)
    requires a.Refetch? || a.RefetchUnheard? ==> s.client.phase.Refetching?
  {
    && (a.Prefetch? ==> intact && RefetchSafe(s, |s.service.store.log|))
    && (a.Refetch? || a.RefetchUnheard? ==> intact && RefetchSafe(s, s.client.phase.current))
    && (a.SyncCount? ==> SyncSafe(s))
  }

  lemma StepKeepsInv(cfg: Protocol.Config, s: System, a: Action, intact: bool)
    requires Protocol.ValidConfig(cfg) && Enabled(cfg, s, a) && Inv(cfg, s, intact) && CarefulStep(s, a, intact)
    ensures Inv(cfg, Next(cfg, s, a), StillIntact(cfg, s, a, intact))
  {
    if a.Served? {
      ServedKeepsInv(cfg, s, a.a, intact);
    } else if a.Logged? {
      LoggedKeepsInv(cfg, s, a.names, a.kind, intact);
    } else {
      ClientKeepsInv(cfg, s, a, intact);
    }
  }

  /**
   Whatever the service commits, fails or restarts between the SELECTs of a poll: as long as
   every prefetch, refetch and sync is made where it is right, the copy agrees with the table
   about every device with no feed entry, and no reset, after its base.
   */
  lemma {:induction false} CopyAlwaysFresh(cfg: Protocol.Config, s: System, actions: seq<Action>, intact: bool)
    requires Protocol.ValidConfig(cfg) && Inv(cfg, s, intact)
    requires Behaviour(cfg, s, actions) && Careful(cfg, s, actions, intact)
    ensures Inv(cfg, After(cfg, s, actions), IntactAfter(cfg, s, actions, intact))
    decreases |actions|
  {
    if actions != [] {
      StepKeepsInv(cfg, s, actions[0], intact);
      CopyAlwaysFresh(cfg, Next(cfg, s, actions[0]), actions[1..], StillIntact(cfg, s, actions[0], intact));
    }
  }

  lemma StartHolds(cfg: Protocol.Config, now: int, epoch: string)
    requires Protocol.ValidConfig(cfg)
    ensures Inv(cfg, Start(cfg, now, epoch), true)
  {
    Protocol.BootIsSafe(cfg, now, epoch);
    Recovery.BootIsInStep(cfg, now, epoch);
    var store := Protocol.Boot(cfg, now, epoch).store;
    forall name | Settled(store.log, 0, name)
      ensures name !in store.table || name == "*"
    {
      if name in store.table && name != "*" {
        var i :| 0 <= i < |cfg.profile.order| && cfg.profile.order[i] == name;
        assert store.log[i] == Entry(name, Seed) && TouchedAfter(store.log, 0, name);
      }
    }
  }

  // ---------------------------------------------------------------------------
  // Opening an environment
  // ---------------------------------------------------------------------------

  predicate OfService(actions: seq<Action>) {
    forall i :: 0 <= i < |actions| ==> actions[i].Served? || actions[i].Logged?
  }

  lemma ServiceStepKeepsInv(cfg: Protocol.Config, s: System, a: Action, intact: bool)
    requires Protocol.ValidConfig(cfg) && Inv(cfg, s, intact) && Enabled(cfg, s, a) && (a.Served? || a.Logged?)
    ensures Inv(cfg, Next(cfg, s, a), StillIntact(cfg, s, a, intact))
    ensures Next(cfg, s, a).client == s.client && Next(cfg, s, a).marks.prefetched == s.marks.prefetched
  {
    StepKeepsInv(cfg, s, a, intact);
  }

  /** The service on its own keeps the client's promise, and the client. */
  lemma {:induction false} ServiceRunKeepsInv(cfg: Protocol.Config, s: System, actions: seq<Action>, intact: bool)
    requires Protocol.ValidConfig(cfg) && Inv(cfg, s, intact)
    requires Behaviour(cfg, s, actions) && OfService(actions)
    ensures var end := After(cfg, s, actions);
      && Inv(cfg, end, IntactAfter(cfg, s, actions, intact))
      && end.client == s.client && end.marks.prefetched == s.marks.prefetched
    decreases |actions|
  {
    if actions != [] {
      ServiceStepKeepsInv(cfg, s, actions[0], intact);
      assert forall i :: 0 <= i < |actions[1..]| ==> actions[1..][i] == actions[i + 1];
      ServiceRunKeepsInv(cfg, Next(cfg, s, actions[0]), actions[1..], StillIntact(cfg, s, actions[0], intact));
    }
  }

  /** Every device the log reports since `since` has the same active spec in the later table. */
  ghost predicate ReportedAsBefore(before: map<string, Spec>, since: nat, after: Store) {
    forall n :: n != "*" && !Settled(after.log, since, n) ==> SameAt(before, Overlay(after.table), n)
  }

  /**
   Whatever the service does between a prefetch, made where it is right, and the first sync: the
   sync is right exactly when each device reported in between has the spec it was prefetched
   with, which is the one it had in the table if no handler was under way.
   */
  lemma OpeningIff(cfg: Protocol.Config, s: System, actions: seq<Action>)
    requires Protocol.ValidConfig(cfg) && Inv(cfg, s, true) && Enabled(cfg, s, Prefetch)
    requires RefetchSafe(s, |s.service.store.log|)
    requires Behaviour(cfg, Next(cfg, s, Prefetch), actions) && OfService(actions)
    ensures var end := After(cfg, Next(cfg, s, Prefetch), actions);
      && Enabled(cfg, end, SyncCount)
      && (Fresh(end.client.copy, |end.service.store.log|, end.service.store) <==>
            ReportedAsBefore(Listed(s.service.mem), |s.service.store.log|, end.service.store))
    ensures Unmarked(s.service.handler) ==> Listed(s.service.mem) == Overlay(s.service.store.table)
  {
    OpenedKeeps(cfg, s, actions);
    SyncRightIff(After(cfg, Next(cfg, s, Prefetch), actions));
    UnmarkedListsTable(cfg, s);
  }

  lemma UnmarkedListsTable(cfg: Protocol.Config, s: System)
    requires Protocol.ValidConfig(cfg) && Protocol.Safe(s.service) && Recovery.RowsInStep(cfg, s.service)
    ensures Unmarked(s.service.handler) ==> Listed(s.service.mem) == Overlay(s.service.store.table)
  {
    ListedIsOverlay(s.service.mem);
  }

  /** Until the first sync the copy is what was prefetched, and right for the position of the prefetch. */
  lemma OpenedKeeps(cfg: Protocol.Config, s: System, actions: seq<Action>)
    requires Protocol.ValidConfig(cfg) && Inv(cfg, s, true) && Enabled(cfg, s, Prefetch)
    requires RefetchSafe(s, |s.service.store.log|)
    requires Behaviour(cfg, Next(cfg, s, Prefetch), actions) && OfService(actions)
    ensures var end := After(cfg, Next(cfg, s, Prefetch), actions);
      && CopyHolds(end) && end.client.phase.Idle?
      && end.client.copy == Listed(s.service.mem) && Base(end) == |s.service.store.log|
  {
    ClientKeepsInv(cfg, s, Prefetch, true);
    ServiceRunKeepsInv(cfg, Next(cfg, s, Prefetch), actions, true);
  }

  // ---------------------------------------------------------------------------
  // An undisturbed poll
  // ---------------------------------------------------------------------------

  predicate OfPoll(a: Action) {
    a.CountIds? || a.ReadEpoch? || a.CheckReset? || a.ReadRows? || a.Accept? || a.Refetch?
  }

  predicate Undisturbed(actions: seq<Action>) {
    forall i :: 0 <= i < |actions| ==> OfPoll(actions[i])
  }

  function ChangesSince(s: System): seq<Change> {
    ChangesBetween(s.service.store.table, s.service.store.log, s.client.cursor, |s.service.store.log|)
  }

  predicate ResetSince(s: System) {
    ResetAfter(s.service.store.log, s.client.cursor)
  }

  /** A change the poll would report lacks its spec, which makes the client give up. */
  predicate PlanFails(s: System) {
    exists i :: 0 <= i < |ChangesSince(s)| && ChangesSince(s)[i].Upsert? && ChangesSince(s)[i].row.spec.None?
  }

  lemma NoNewsIsExact(s: System)
    requires CopyHolds(s) && s.client.synced && ChangesSince(s) == [] && !ResetSince(s)
    ensures SameButStar(s.client.copy, Overlay(s.service.store.table))
  {
    var store := s.service.store;
    NoChangesNoNews(store.table, store.log, s.client.cursor, |store.log|);
    forall name | name != "*"
      ensures SameAt(s.client.copy, Overlay(store.table), name)
    {
      if TouchedAfter(store.log, s.client.cursor, name) {
        var i := LatestExists(store.log, s.client.cursor, name);
        assert false;
      }
      assert Settled(store.log, s.client.cursor, name);
    }
  }

  /** What makes a poll refetch: a reset after the cursor, or another epoch. */
  predicate Refetches(s: System) {
    ResetSince(s) || EpochOf(s.service.store) != s.client.epoch
  }

  /** How a lone poll begun in `s` will leave the copy. */
  ghost predicate PollRight(s: System) {
    if Refetches(s) then SameButStar(Listed(s.service.mem), Overlay(s.service.store.table))
    else PlanFails(s) ==> SameButStar(s.client.copy, Overlay(s.service.store.table))
  }

  /** A poll begun in `from`, while the service stands still. */
  ghost predicate Follows(from: System, s: System) {
    var c := s.client;
    var head := |from.service.store.log|;
    var epoch := EpochOf(from.service.store);
    && s.service == from.service && s.marks == from.marks && c.synced == from.client.synced
    && (!c.phase.Idle? ==> c == from.client.(phase := c.phase))
    && match c.phase
       case Counted(current) => current == head
       case Dated(current, e) => current == head && e == epoch
       case Checked(current, e, reset) => current == head && e == epoch && reset == ResetSince(from)
       case Answered(response) => response == Response(head, epoch, ResetSince(from), ChangesSince(from))
       case Refetching(current, e) => current == head && e == epoch && Refetches(from)
       case Syncing(_) => false
       case Idle => PollEnded(from, s)
  }

  /** The client at the end of a lone poll begun in `from`. */
  function EndOf(from: System): Client {
    var c := from.client;
    var head := |from.service.store.log|;
    var plan := Plan(c.copy, ChangesSince(from));
    if Refetches(from) then Client(Listed(from.service.mem), head, EpochOf(from.service.store), c.synced, Idle)
    else if ChangesSince(from) == [] || plan.None? then c.(phase := Idle)
    else Client(plan.value, head, c.epoch, c.synced, Idle)
  }

  ghost predicate PollEnded(from: System, s: System) {
    && s.client == EndOf(from)
    && (SameButStar(s.client.copy, Overlay(from.service.store.table)) <==> PollRight(from))
  }

  /** An accepted answer without a reset: no news, deltas, or a change without a spec. */
  lemma AcceptedEnds(cfg: Protocol.Config, from: System, s: System)
    requires Protocol.ValidConfig(cfg) && CopyHolds(from) && from.client.synced
    requires Follows(from, s) && s.client.phase.Answered? && !Refetches(from)
    ensures Follows(from, Next(cfg, s, Accept))
  {
    var store := from.service.store;
    var changes := ChangesSince(from);
    PlanNoneIff(from.client.copy, changes);
    if changes == [] {
      NoNewsIsExact(from);
    } else if Plan(from.client.copy, changes).Some? {
      DeltasKeepFresh(from.client.copy, from.client.cursor, |store.log|, store);
      HeadIsExact(Plan(from.client.copy, changes).value, store);
    }
  }

  lemma PollStepFollows(cfg: Protocol.Config, from: System, s: System, a: Action)
    requires Protocol.ValidConfig(cfg) && CopyHolds(from) && from.client.synced
    requires Follows(from, s) && Enabled(cfg, s, a) && OfPoll(a) && !a.CountIds?
    ensures Follows(from, Next(cfg, s, a))
  {
    if a.Accept? && !Refetches(from) {
      AcceptedEnds(cfg, from, s);
    }
  }

  lemma {:induction false} PollFollows(cfg: Protocol.Config, from: System, s: System, actions: seq<Action>)
    requires Protocol.ValidConfig(cfg) && CopyHolds(from) && from.client.synced && Follows(from, s)
    requires Behaviour(cfg, s, actions) && Undisturbed(actions)
    requires forall i :: 0 <= i < |actions| ==> !actions[i].CountIds?
    ensures Follows(from, After(cfg, s, actions))
    decreases |actions|
  {
    if actions != [] {
      assert OfPoll(actions[0]) && !actions[0].CountIds?;
      PollStepFollows(cfg, from, s, actions[0]);
      assert forall i :: 0 <= i < |actions[1..]| ==> actions[1..][i] == actions[i + 1];
      PollFollows(cfg, from, Next(cfg, s, actions[0]), actions[1..]);
    }
  }

  /** One poll from its count to its end, during which the service does not step. */
  predicate LonePoll(actions: seq<Action>) {
    && actions != [] && actions[0].CountIds? && Undisturbed(actions)
    && forall i :: 0 < i < |actions| ==> !actions[i].CountIds?
  }

  /**
   Where a lone poll leads, at any point of any handler and with the tables in step or not. With
   a reset to hear of, or another epoch, it leaves an exact copy exactly when memory lists what
   the table says. Otherwise it does, unless a change lacks its spec: then the copy is as before.
   */
  lemma PollExactIff(cfg: Protocol.Config, s: System, actions: seq<Action>)
    requires Protocol.ValidConfig(cfg) && CopyHolds(s)
    requires Behaviour(cfg, s, actions) && LonePoll(actions) && After(cfg, s, actions).client.phase.Idle?
    ensures var end := After(cfg, s, actions);
      && end.service == s.service
      && (SameButStar(end.client.copy, Overlay(s.service.store.table)) <==>
            if Refetches(s) then SameButStar(Listed(s.service.mem), Overlay(s.service.store.table))
            else PlanFails(s) ==> SameButStar(s.client.copy, Overlay(s.service.store.table)))
  {
    PollRunFollows(cfg, s, actions);
  }

  lemma PollRunFollows(cfg: Protocol.Config, s: System, actions: seq<Action>)
    requires Protocol.ValidConfig(cfg) && CopyHolds(s)
    requires Behaviour(cfg, s, actions) && LonePoll(actions)
    ensures s.client.synced && s.client.phase.Idle? && Follows(s, After(cfg, s, actions))
  {
    var counted := Next(cfg, s, CountIds);
    assert Follows(s, counted);
    assert forall i :: 0 <= i < |actions[1..]| ==> actions[1..][i] == actions[i + 1];
    PollFollows(cfg, s, counted, actions[1..]);
  }

  /** While the device rows are in step, by what the handler under way allows at the head of the log. */
  lemma PollExactByHandlerIff(cfg: Protocol.Config, s: System, actions: seq<Action>)
    requires Protocol.ValidConfig(cfg) && Inv(cfg, s, true)
    requires Behaviour(cfg, s, actions) && LonePoll(actions) && After(cfg, s, actions).client.phase.Idle?
    ensures SameButStar(After(cfg, s, actions).client.copy, Overlay(s.service.store.table)) <==>
            if Refetches(s) then RefetchSafe(s, |s.service.store.log|)
            else PlanFails(s) ==> SameButStar(s.client.copy, Overlay(s.service.store.table))
  {
    PollExactIff(cfg, s, actions);
    RefetchFreshIff(cfg, s, |s.service.store.log|);
    HeadIsExact(Listed(s.service.mem), s.service.store);
  }

  /** `s` is reached by polls while memory lists what the table says; the last of them began in `from`. */
  ghost predicate Polling(from: System, s: System) {
    && CopyHolds(from) && from.client.synced && !PlanFails(from) && Follows(from, s)
    && Listed(from.service.mem) == Overlay(from.service.store.table)
  }

  lemma PollingEndIsExact(from: System, s: System)
    requires Polling(from, s) && s.client.phase.Idle?
    ensures SameButStar(s.client.copy, Overlay(from.service.store.table))
  {
  }

  /** A poll that follows another begins with an exact copy. */
  lemma NextPollStarts(cfg: Protocol.Config, from: System, s: System)
    requires Protocol.ValidConfig(cfg) && Polling(from, s) && Enabled(cfg, s, CountIds)
    ensures Polling(s, Next(cfg, s, CountIds))
  {
    StillNoPlanFails(from, s);
    PollingEndIsExact(from, s);
  }

  lemma PollingStep(cfg: Protocol.Config, from: System, s: System, a: Action) returns (origin: System)
    requires Protocol.ValidConfig(cfg) && Polling(from, s) && Enabled(cfg, s, a) && OfPoll(a)
    ensures origin.service == from.service && Polling(origin, Next(cfg, s, a))
  {
    if a.CountIds? {
      NextPollStarts(cfg, from, s);
      return s;
    }
    PollStepFollows(cfg, from, s, a);
    return from;
  }

  lemma {:induction false} PollsReachEnd(cfg: Protocol.Config, from: System, s: System, actions: seq<Action>)
    requires Protocol.ValidConfig(cfg) && Polling(from, s)
    requires Behaviour(cfg, s, actions) && Undisturbed(actions) && After(cfg, s, actions).client.phase.Idle?
    ensures After(cfg, s, actions).service == from.service
    ensures SameButStar(After(cfg, s, actions).client.copy, Overlay(from.service.store.table))
    decreases |actions|
  {
    if actions == [] {
      PollingEndIsExact(from, s);
    } else {
      assert OfPoll(actions[0]);
      var origin := PollingStep(cfg, from, s, actions[0]);
      assert forall i :: 0 <= i < |actions[1..]| ==> actions[1..][i] == actions[i + 1];
      PollsReachEnd(cfg, origin, Next(cfg, s, actions[0]), actions[1..]);
    }
  }

  lemma StillNoPlanFails(from: System, s: System)
    requires !PlanFails(from) && s.service == from.service
    requires s.client.cursor == from.client.cursor || s.client.cursor == |from.service.store.log|
    ensures !PlanFails(s)
  {
    if s.client.cursor == from.client.cursor {
      assert ChangesSince(s) == ChangesSince(from);
    } else {
      assert ChangesSince(s) == [];
    }
  }

  /**
   Polls during which the service does not step, with the registry lock free and the device rows
   in step, leave an exact copy of the table and of memory, unless a change lacks its spec.
   */
  lemma UndisturbedPollIsExact(cfg: Protocol.Config, s: System, actions: seq<Action>)
    requires Protocol.ValidConfig(cfg) && Inv(cfg, s, true) && s.service.handler.Free? && !PlanFails(s)
    requires Behaviour(cfg, s, actions) && Undisturbed(actions)
    requires actions != [] && actions[0].CountIds? && After(cfg, s, actions).client.phase.Idle?
    ensures var end := After(cfg, s, actions);
      && SameButStar(end.client.copy, Overlay(end.service.store.table))
      && SameButStar(end.client.copy, Listed(end.service.mem))
  {
    ListedIsOverlay(s.service.mem);
    assert Follows(s, Next(cfg, s, CountIds));
    assert forall i :: 0 <= i < |actions[1..]| ==> actions[1..][i] == actions[i + 1];
    PollsReachEnd(cfg, s, Next(cfg, s, CountIds), actions[1..]);
  }

  /**
   After every careful run from the first start at whose end the device rows are in step, at any
   point of any handler.
   */
  lemma CarefulPollIff(cfg: Protocol.Config, now: int, epoch: string, before: seq<Action>, poll: seq<Action>)
    requires Protocol.ValidConfig(cfg) && Behaviour(cfg, Start(cfg, now, epoch), before)
    requires Careful(cfg, Start(cfg, now, epoch), before, true)
    requires IntactAfter(cfg, Start(cfg, now, epoch), before, true)
    requires var s := After(cfg, Start(cfg, now, epoch), before);
      Behaviour(cfg, s, poll) && LonePoll(poll) && After(cfg, s, poll).client.phase.Idle?
    ensures var s := After(cfg, Start(cfg, now, epoch), before);
      SameButStar(After(cfg, s, poll).client.copy, Overlay(s.service.store.table)) <==>
      if Refetches(s) then RefetchSafe(s, |s.service.store.log|)
      else PlanFails(s) ==> SameButStar(s.client.copy, Overlay(s.service.store.table))
  {
    StartHolds(cfg, now, epoch);
    CopyAlwaysFresh(cfg, Start(cfg, now, epoch), before, true);
    PollExactByHandlerIff(cfg, After(cfg, Start(cfg, now, epoch), before), poll);
  }

  /** With the registry lock free at the end of that run. */
  lemma CarefulPollIsExact(cfg: Protocol.Config, now: int, epoch: string, before: seq<Action>, poll: seq<Action>)
    requires Protocol.ValidConfig(cfg) && Behaviour(cfg, Start(cfg, now, epoch), before)
    requires Careful(cfg, Start(cfg, now, epoch), before, true)
    requires IntactAfter(cfg, Start(cfg, now, epoch), before, true)
    requires var s := After(cfg, Start(cfg, now, epoch), before);
      && s.service.handler.Free? && !PlanFails(s)
      && Behaviour(cfg, s, poll) && Undisturbed(poll)
      && poll != [] && poll[0].CountIds? && After(cfg, s, poll).client.phase.Idle?
    ensures var end := After(cfg, After(cfg, Start(cfg, now, epoch), before), poll);
      && SameButStar(end.client.copy, Overlay(end.service.store.table))
      && SameButStar(end.client.copy, Listed(end.service.mem))
  {
    StartHolds(cfg, now, epoch);
    CopyAlwaysFresh(cfg, Start(cfg, now, epoch), before, true);
    UndisturbedPollIsExact(cfg, After(cfg, Start(cfg, now, epoch), before), poll);
  }
}
