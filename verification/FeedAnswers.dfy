/**
 What the change feed answers (device_registry_store.py get_changes_since), and what a client has
 after one poll (manager/config_service.py).
 */
module FeedAnswers {
  import opened Models
  import opened DeviceRegistries
  import opened Stores
  import opened ChangeFeed
  import opened FeedClients
  import Protocol

  // ---------------------------------------------------------------------------
  // One answer
  // ---------------------------------------------------------------------------

  /** The change tells the last news of a device, if that is at or after the cursor. */
  ghost predicate Reports(s: Store, since: nat, c: Change) {
    exists i :: since <= i < |s.log| && IsLatest(s.log, i) && c == ChangeAt(s.table, s.log, i)
  }

  lemma {:induction false} ChangesExact(table: map<string, Row>, log: seq<Entry>, since: nat, until: nat, c: Change)
    requires until <= |log|
    ensures c in ChangesBetween(table, log, since, until) <==>
            exists i :: since <= i < until && IsLatest(log, i) && c == ChangeAt(table, log, i)
  {
    if until > since {
      ChangesExact(table, log, since, until - 1, c);
      if IsLatest(log, until - 1) {
        assert ChangesBetween(table, log, since, until) ==
               ChangesBetween(table, log, since, until - 1) + [ChangeAt(table, log, until - 1)];
      }
    }
  }

  predicate Ascending(changes: seq<Change>) {
    forall i, j :: 0 <= i < j < |changes| ==> changes[i].version < changes[j].version
  }

  lemma {:induction false} ChangesAscend(table: map<string, Row>, log: seq<Entry>, since: nat, until: nat)
    requires until <= |log|
    ensures var changes := ChangesBetween(table, log, since, until);
      Ascending(changes) && forall i :: 0 <= i < |changes| ==> since < changes[i].version <= until
  {
    if until > since {
      ChangesAscend(table, log, since, until - 1);
      var before := ChangesBetween(table, log, since, until - 1);
      if IsLatest(log, until - 1) {
        assert ChangesBetween(table, log, since, until) == before + [ChangeAt(table, log, until - 1)];
      } else {
        assert ChangesBetween(table, log, since, until) == before;
      }
    }
  }

  /**
   The answer for any cursor: the newest id; the value stored at the last seeding, or "unseeded";
   whether a reset lies at or after the cursor; and, by ascending id, one change for each device
   with news, which is its current row unless it was deleted last or has none.
   */
  lemma AnswerSays(s: Store, since: nat)
    ensures var answer := Answer(s, since);
      && answer.current == |s.log|
      && (s.seeded.Some? ==> answer.epoch == s.seeded.value) && (s.seeded.None? ==> answer.epoch == "unseeded")
      && (answer.reset <==> exists i :: since <= i < |s.log| && s.log[i].op == Reset)
      && (forall c :: c in answer.changes <==> Reports(s, since, c)) && Ascending(answer.changes)
  {
    var answer := Answer(s, since);
    if since < |s.log| {
      forall c: Change
        ensures c in answer.changes <==> Reports(s, since, c)
      {
        ChangesExact(s.table, s.log, since, |s.log|, c);
      }
      ChangesAscend(s.table, s.log, since, |s.log|);
    }
  }

  /** A change names the device and the id of its entry, and carries the current row or says that there is none. */
  lemma ChangeSays(s: Store, i: nat)
    requires i < |s.log| && DeletionsHold(s) && IsLatest(s.log, i)
    ensures var c := ChangeAt(s.table, s.log, i);
      && c.device == s.log[i].device && c.version == i + 1
      && (c.Removal? <==> s.log[i].device !in s.table)
      && (c.Upsert? ==> c.row == s.table[s.log[i].device])
  {
  }

  function CommitAll(s: Store, writes: seq<Write>): Store
    requires forall i :: 0 <= i < |writes| ==> ValidWrite(writes[i])
  {
    if writes == [] then s else Commit(CommitAll(s, writes[..|writes| - 1]), writes[|writes| - 1])
  }

  lemma {:induction false} LogKept(s: Store, writes: seq<Write>)
    requires forall i :: 0 <= i < |writes| ==> ValidWrite(writes[i])
    ensures s.log <= CommitAll(s, writes).log
  {
    if writes != [] {
      var last := |writes| - 1;
      LogKept(s, writes[..last]);
      var before := CommitAll(s, writes[..last]);
      assert Commit(before, writes[last]).log == before.log + Appended(before, writes[last]);
    }
  }

  /** After a wipe and whatever is committed later, every cursor from before the wipe is told of a reset. */
  lemma ResetIsTold(s: Store, writes: seq<Write>, since: nat)
    requires forall i :: 0 <= i < |writes| ==> ValidWrite(writes[i])
    requires since <= |s.log|
    ensures Answer(CommitAll(Wiped(s), writes), since).reset
  {
    LogKept(Wiped(s), writes);
    var log := CommitAll(Wiped(s), writes).log;
    assert Wiped(s).log[|s.log|] == Entry("*", Reset) && log[|s.log|] == Wiped(s).log[|s.log|];
    AnswerSays(CommitAll(Wiped(s), writes), since);
  }

  /** Entries outside the feed change no delta. */
  lemma {:induction false} SilentEntries(table: map<string, Row>, log: seq<Entry>, more: seq<Entry>, since: nat,
    until: nat)
    requires until <= |log| + |more| && forall i :: 0 <= i < |more| ==> !InFeed(more[i].op)
    ensures ChangesBetween(table, log + more, since, until) ==
            ChangesBetween(table, log, since, if until <= |log| then until else |log|)
  {
    if until > since {
      SilentEntries(table, log, more, since, until - 1);
      if until <= |log| {
        assert IsLatest(log + more, until - 1) <==> IsLatest(log, until - 1) by {
          assert forall j :: |log| <= j < |log + more| ==> !FeedEntry((log + more)[j]);
          assert forall j :: 0 <= j < |log| ==> (log + more)[j] == log[j];
        }
      }
    }
  }

  /** Logging a lock event appends an entry of its kind for each device, in order, and no poll is told anything new. */
  lemma LockEventsAreSilent(s: Store, names: seq<string>, kind: string, since: nat)
    ensures var after := LockEventLogged(s, names, kind);
      && |after.log| == |s.log| + |names| && s.log <= after.log
      && (forall i :: |s.log| <= i < |after.log| ==> after.log[i] == Entry(names[i - |s.log|], LockEvent(kind)))
      && after.table == s.table && after.seeded == s.seeded
      && Answer(after, since) == Answer(s, since).(current := |after.log|)
  {
    SilentEntries(s.table, s.log, EntriesFor(names, LockEvent(kind)), since, |s.log| + |names|);
    var after := LockEventLogged(s, names, kind);
    assert forall i :: |s.log| <= i < |after.log| ==> after.log[i].op == LockEvent(kind);
    assert forall i :: 0 <= i < |s.log| ==> after.log[i] == s.log[i];
    assert ResetAfter(after.log, since) <==> ResetAfter(s.log, since);
  }

  // ---------------------------------------------------------------------------
  // One poll
  // ---------------------------------------------------------------------------

  /** The SELECTs of a poll that nothing interrupts give the answer of the query. */
  lemma PollIsAnswer(cfg: Protocol.Config, s: System, actions: seq<Action>)
    requires Protocol.ValidConfig(cfg) && CopyHolds(s)
    requires Behaviour(cfg, s, actions) && LonePoll(actions) && After(cfg, s, actions).client.phase.Answered?
    ensures After(cfg, s, actions).client.phase.response == Answer(s.service.store, s.client.cursor)
  {
    PollRunFollows(cfg, s, actions);
    assert s.client.cursor >= |s.service.store.log| ==> ChangesSince(s) == [] && !ResetSince(s);
  }

  /**
   The client after a poll that nothing interrupts: with a reset to hear of, or another epoch, it
   has what memory lists; with deltas, what they make of its copy; in both cases at the head of
   the log and under the epoch of the store. Without changes, or with one that lacks its spec, it
   is as before.
   */
  lemma PollLeavesClient(cfg: Protocol.Config, s: System, actions: seq<Action>)
    requires Protocol.ValidConfig(cfg) && CopyHolds(s)
    requires Behaviour(cfg, s, actions) && LonePoll(actions) && After(cfg, s, actions).client.phase.Idle?
    ensures var end := After(cfg, s, actions).client;
      var store := s.service.store;
      var answer := Answer(store, s.client.cursor);
      if answer.reset || answer.epoch != s.client.epoch
      then end == Client(Listed(s.service.mem), |store.log|, answer.epoch, true, Idle)
      else if answer.changes == [] || Plan(s.client.copy, answer.changes).None? then end == s.client
      else end == Client(Plan(s.client.copy, answer.changes).value, |store.log|, s.client.epoch, true, Idle)
  {
    PollRunFollows(cfg, s, actions);
    assert s.client.cursor >= |s.service.store.log| ==> ChangesSince(s) == [] && !ResetSince(s);
  }

  /** So a second poll refetches nothing and is told nothing, unless the first one gave up. */
  lemma SecondPollIsQuiet(cfg: Protocol.Config, s: System, actions: seq<Action>)
    requires Protocol.ValidConfig(cfg) && CopyHolds(s)
    requires Behaviour(cfg, s, actions) && LonePoll(actions) && After(cfg, s, actions).client.phase.Idle?
    requires Refetches(s) || !PlanFails(s)
    ensures var end := After(cfg, s, actions);
      !Refetches(end) && Answer(end.service.store, end.client.cursor).changes == []
  {
    PollRunFollows(cfg, s, actions);
    PlanNoneIff(s.client.copy, ChangesSince(s));
    var end := After(cfg, s, actions);
    assert end.client.cursor == |s.service.store.log| ==> !ResetSince(end);
  }

  // ---------------------------------------------------------------------------
  // Opening, and answers applied without being acknowledged
  // ---------------------------------------------------------------------------

  /**
   A prefetch and a sync that nothing interrupts leave what memory lists, at the head of the log
   and under its epoch.
   */
  lemma OpeningLeavesClient(cfg: Protocol.Config, s: System)
    requires Protocol.ValidConfig(cfg) && s.client.phase.Idle?
    ensures Behaviour(cfg, s, [Prefetch, SyncCount, SyncEpoch])
    ensures var end := After(cfg, s, [Prefetch, SyncCount, SyncEpoch]);
      var store := s.service.store;
      && end.service == s.service
      && end.client == Client(Listed(s.service.mem), |store.log|, EpochOf(store), true, Idle)
      && !Refetches(end) && Answer(store, end.client.cursor).changes == []
  {
    var s1 := Next(cfg, s, Prefetch);
    var s2 := Next(cfg, s1, SyncCount);
    var s3 := Next(cfg, s2, SyncEpoch);
    assert Behaviour(cfg, s3, []) && Behaviour(cfg, s2, [SyncEpoch]) && Behaviour(cfg, s1, [SyncCount, SyncEpoch]);
    assert [Prefetch, SyncCount, SyncEpoch][1..] == [SyncCount, SyncEpoch];
    assert [SyncCount, SyncEpoch][1..] == [SyncEpoch] && [SyncEpoch][1..] == [];
  }

  /**
   An update applied without an acknowledged answer, by deltas or by a refetch, gives the same
   copy but leaves cursor and epoch, so the next poll is told the same again.
   */
  lemma UnheardIsToldAgain(cfg: Protocol.Config, s: System, a: Action)
    requires Protocol.ValidConfig(cfg) && Enabled(cfg, s, a) && (a.AcceptUnheard? || a.RefetchUnheard?)
    ensures var end := Next(cfg, s, a);
      var heard := Next(cfg, s, if a.AcceptUnheard? then Accept else Refetch);
      && end.client == s.client.(copy := heard.client.copy, phase := Idle)
      && end.service == s.service
      && Answer(end.service.store, end.client.cursor) == Answer(s.service.store, s.client.cursor)
  {
  }
}
