/**
 The change feed of the audit log and the copy a client keeps by it
 (device_registry_store.py get_changes_since; the client is the queueserver's
 manager/config_service.py).

 The client keeps the specs of the active devices and applies deltas to them. This module is
 about one copy, one cursor and the transactions of the writers; FeedClients has the service
 and the steps of a poll.
 */
module ChangeFeed {
  import opened Models
  import opened DeviceRegistries
  import opened Stores

  // ---------------------------------------------------------------------------
  // Writers
  // ---------------------------------------------------------------------------

  datatype Write =
    | Save(name: string, row: Row, op: Operation)
    | DeleteRow(name: string)
    | Wipe
    | SeedWith(registry: Registry, epoch: string)
    | LogLock(names: seq<string>, kind: string)

  predicate ValidWrite(w: Write) {
    match w
    case Save(_, _, op) => op.Add? || op.Update? || op.Enable? || op.Disable?
    case SeedWith(r, _) => forall n :: n in r.order ==> n in r.devices
    case _ => true
  }

  /** A transaction that fails is rolled back. */
  function Commit(s: Store, w: Write): Store
    requires ValidWrite(w)
  {
    match w
    case Save(name, row, op) => Saved(s, name, row, op)
    case DeleteRow(name) => Deleted(s, name)
    case Wipe => Wiped(s)
    case SeedWith(r, epoch) => if SeededFrom(s, r, epoch).Some? then SeededFrom(s, r, epoch).value else s
    case LogLock(names, kind) => LockEventLogged(s, names, kind)
  }

  // ---------------------------------------------------------------------------
  // The copy
  // ---------------------------------------------------------------------------

  predicate Usable(row: Row) {
    row.spec.Some? && row.spec.value.active
  }

  /** What the queueserver keeps: the specs of the active devices. */
  function Overlay(rows: map<string, Row>): map<string, Spec> {
    map n | n in rows && Usable(rows[n]) :: rows[n].spec.value
  }

  /** `build_staleness_plan` fails on an upsert without a spec; a disabled device is a delete. */
  function PlanChange(overlay: map<string, Spec>, c: Change): Option<map<string, Spec>> {
    match c
    case Upsert(device, _, row) =>
      if row.spec.None? then None
      else if !row.spec.value.active then Some(overlay - {device})
      else Some(overlay[device := row.spec.value])
    case Removal(device, _) => Some(overlay - {device})
  }

  function Plan(overlay: map<string, Spec>, changes: seq<Change>): Option<map<string, Spec>> {
    if changes == [] then Some(overlay)
    else
      match Plan(overlay, changes[..|changes| - 1])
      case None => None
      case Some(sofar) => PlanChange(sofar, changes[|changes| - 1])
  }

  function ApplyChange(cache: map<string, Row>, c: Change): map<string, Row> {
    match c
    case Upsert(device, _, row) => cache[device := row]
    case Removal(device, _) => cache - {device}
  }

  function ApplyChanges(cache: map<string, Row>, changes: seq<Change>): map<string, Row> {
    if changes == [] then cache
    else ApplyChange(ApplyChanges(cache, changes[..|changes| - 1]), changes[|changes| - 1])
  }

  lemma {:induction false} PlanNoneIff(copy: map<string, Spec>, changes: seq<Change>)
    ensures Plan(copy, changes).None? <==>
            exists i :: 0 <= i < |changes| && changes[i].Upsert? && changes[i].row.spec.None?
  {
    if changes != [] {
      var last := |changes| - 1;
      PlanNoneIff(copy, changes[..last]);
      if changes[last].Upsert? && changes[last].row.spec.None? {
        assert Plan(copy, changes).None?;
      }
    }
  }

  /**
   The incremental path agrees with the full refresh: unless an upsert lacks its spec, in
   which case there is no plan, the overlay follows the cached rows.
   */
  lemma {:induction false} PlanFollowsRows(cache: map<string, Row>, changes: seq<Change>)
    ensures Plan(Overlay(cache), changes).None? <==>
            exists i :: 0 <= i < |changes| && changes[i].Upsert? && changes[i].row.spec.None?
    ensures Plan(Overlay(cache), changes).Some? ==>
            Plan(Overlay(cache), changes).value == Overlay(ApplyChanges(cache, changes))
  {
    PlanNoneIff(Overlay(cache), changes);
    if changes != [] {
      PlanFollowsRows(cache, changes[..|changes| - 1]);
    }
  }

  // ---------------------------------------------------------------------------
  // What a cursor promises
  // ---------------------------------------------------------------------------

  predicate SameAt<V(==)>(a: map<string, V>, b: map<string, V>, name: string) {
    (name in a <==> name in b) && (name in a ==> a[name] == b[name])
  }

  predicate TouchedAfter(log: seq<Entry>, since: nat, name: string) {
    exists i :: since <= i < |log| && FeedEntry(log[i]) && log[i].device == name
  }

  /** Nothing after the cursor concerns the device. */
  predicate Settled(log: seq<Entry>, cursor: nat, name: string) {
    !TouchedAfter(log, cursor, name) && !ResetAfter(log, cursor)
  }

  /** The copy is right about every device with no news after the cursor. */
  ghost predicate Fresh(copy: map<string, Spec>, cursor: nat, s: Store) {
    forall name :: name != "*" && Settled(s.log, cursor, name) ==> SameAt(copy, Overlay(s.table), name)
  }

  /** A device whose last feed entry is a deletion has no row. */
  ghost predicate DeletionsHold(s: Store) {
    forall i :: 0 <= i < |s.log| && IsLatest(s.log, i) && s.log[i].op.Delete? ==> s.log[i].device !in s.table
  }

  lemma SettledEarlier(log: seq<Entry>, more: seq<Entry>, cursor: nat, name: string)
    ensures Settled(log + more, cursor, name) ==> Settled(log, cursor, name)
    ensures Settled(log + more, cursor, name) && cursor <= |log| ==> !Announces(more, name)
  {
    var all := log + more;
    if TouchedAfter(log, cursor, name) {
      var i :| cursor <= i < |log| && FeedEntry(log[i]) && log[i].device == name;
      assert all[i] == log[i];
    }
    if ResetAfter(log, cursor) {
      var i :| cursor <= i < |log| && log[i].op.Reset?;
      assert all[i] == log[i];
    }
    if cursor <= |log| && Announces(more, name) {
      var i :| 0 <= i < |more| && ((FeedEntry(more[i]) && more[i].device == name) || more[i].op.Reset?);
      assert all[|log| + i] == more[i];
    }
  }

  /** The entries a transaction appends. */
  function Appended(s: Store, w: Write): seq<Entry>
    requires ValidWrite(w)
  {
    match w
    case Save(name, _, op) => [Entry(name, op)]
    case DeleteRow(name) => if name in s.table then [Entry(name, Delete)] else []
    case Wipe => [Entry("*", Reset)]
    case SeedWith(r, epoch) => if SeededFrom(s, r, epoch).Some? then EntriesFor(r.order, Seed) else []
    case LogLock(names, kind) => EntriesFor(names, LockEvent(kind))
  }

  /** Some entry reports the device, or a reset. */
  predicate Announces(es: seq<Entry>, name: string) {
    exists i :: 0 <= i < |es| && ((FeedEntry(es[i]) && es[i].device == name) || es[i].op.Reset?)
  }

  /** A device that gains a row is reported, and not as deleted. */
  predicate Enlists(es: seq<Entry>, name: string) {
    exists i :: 0 <= i < |es| && FeedEntry(es[i]) && es[i].device == name && !es[i].op.Delete?
  }

  /** Every change a transaction makes to a row is announced by what it appends to the log. */
  lemma ChangesAreAnnounced(s: Store, w: Write, name: string)
    requires ValidWrite(w) && name != "*"
    ensures !SameAt(s.table, Commit(s, w).table, name) ==> Announces(Appended(s, w), name)
    ensures name !in s.table && name in Commit(s, w).table ==> Enlists(Appended(s, w), name)
  {
    var es := Appended(s, w);
    if es != [] {
      match w {
        case Save(n, row, op) => assert es[0] == Entry(n, op);
        case DeleteRow(n) => assert es[0] == Entry(n, Delete);
        case Wipe => assert es[0].op.Reset?;
        case SeedWith(r, epoch) =>
          if name in r.order {
            var i :| 0 <= i < |r.order| && r.order[i] == name;
            assert es[i] == Entry(name, Seed);
          }
        case _ =>
      }
    }
  }

  lemma CommitKeepsFresh(copy: map<string, Spec>, cursor: nat, s: Store, w: Write)
    requires ValidWrite(w) && cursor <= |s.log| && Fresh(copy, cursor, s)
    ensures Fresh(copy, cursor, Commit(s, w)) && |s.log| <= |Commit(s, w).log|
  {
    var es := Appended(s, w);
    assert Commit(s, w).log == s.log + es;
    forall name | name != "*" && Settled(s.log + es, cursor, name)
      ensures SameAt(copy, Overlay(Commit(s, w).table), name)
    {
      SettledEarlier(s.log, es, cursor, name);
      ChangesAreAnnounced(s, w, name);
      SameRowSameOverlay(s.table, Commit(s, w).table, name);
    }
  }

  lemma SameRowSameOverlay(a: map<string, Row>, b: map<string, Row>, name: string)
    requires SameAt(a, b, name)
    ensures SameAt(Overlay(a), Overlay(b), name)
  {
  }

  lemma CommitKeepsDeletions(s: Store, w: Write)
    requires ValidWrite(w) && DeletionsHold(s)
    ensures DeletionsHold(Commit(s, w))
  {
    var es := Appended(s, w);
    var after := Commit(s, w);
    assert after.log == s.log + es;
    forall i | 0 <= i < |after.log| && IsLatest(after.log, i) && after.log[i].op.Delete?
      ensures after.log[i].device !in after.table
    {
      var name := after.log[i].device;
      if i < |s.log| {
        forall j | i < j < |s.log|
          ensures !(FeedEntry(s.log[j]) && s.log[j].device == name)
        {
          assert after.log[j] == s.log[j];
        }
        assert IsLatest(s.log, i);
        ChangesAreAnnounced(s, w, name);
        forall k | 0 <= k < |es|
          ensures !(FeedEntry(es[k]) && es[k].device == name)
        {
          assert after.log[|s.log| + k] == es[k];
        }
      } else {
        assert after.log[i] == es[i - |s.log|];
        assert es[i - |s.log|].op.Delete?;
      }
    }
  }

  // ---------------------------------------------------------------------------
  // What applying the deltas gives
  // ---------------------------------------------------------------------------

  lemma {:induction false} LatestExists(log: seq<Entry>, since: nat, name: string) returns (i: nat)
    requires TouchedAfter(log, since, name)
    ensures since <= i < |log| && IsLatest(log, i) && log[i].device == name
  {
    i :| since <= i < |log| && FeedEntry(log[i]) && log[i].device == name;
    for j := i + 1 to |log|
      invariant since <= i < j
      invariant FeedEntry(log[i]) && log[i].device == name
      invariant forall k :: i < k < j ==> !(FeedEntry(log[k]) && log[k].device == name)
    {
      if FeedEntry(log[j]) && log[j].device == name {
        i := j;
      }
    }
  }

  predicate LatestBetween(log: seq<Entry>, since: nat, until: nat, name: string) {
    exists i :: since <= i < until && IsLatest(log, i) && log[i].device == name
  }

  /** The copy after the changes at positions `since` up to `until`; `None` when one lacks its spec. */
  function Refreshed(copy: map<string, Spec>, s: Store, since: nat, until: nat): Option<map<string, Spec>>
    requires until <= |s.log|
  {
    Plan(copy, ChangesBetween(s.table, s.log, since, until))
  }

  lemma OneMoreChange(copy: map<string, Spec>, s: Store, since: nat, last: nat)
    requires since <= last < |s.log|
    ensures Refreshed(copy, s, since, last + 1) ==
            match Refreshed(copy, s, since, last)
            case None => None
            case Some(sofar) =>
              if IsLatest(s.log, last) then PlanChange(sofar, ChangeAt(s.table, s.log, last)) else Some(sofar)
  {
    var before := ChangesBetween(s.table, s.log, since, last);
    if IsLatest(s.log, last) {
      assert (before + [ChangeAt(s.table, s.log, last)])[..|before|] == before;
    } else {
      assert before + [] == before;
    }
  }

  /** One change sets its own device to what the table says now, and no other. */
  lemma ChangeIsCurrent(copy: map<string, Spec>, s: Store, i: nat, name: string)
    requires IsLatest(s.log, i) && DeletionsHold(s)
    ensures var after := PlanChange(copy, ChangeAt(s.table, s.log, i));
            after.Some? ==> SameAt(after.value, if s.log[i].device == name then Overlay(s.table) else copy, name)
  {
  }

  /** Deltas set exactly the devices whose last entry was read, to what the table says now. */
  lemma {:induction false} DeltasApplied(copy: map<string, Spec>, s: Store, since: nat, until: nat, name: string)
    requires until <= |s.log| && DeletionsHold(s) && Refreshed(copy, s, since, until).Some?
    ensures var after := Refreshed(copy, s, since, until).value;
            SameAt(after, if LatestBetween(s.log, since, until, name) then Overlay(s.table) else copy, name)
  {
    if until > since {
      OneMoreChange(copy, s, since, until - 1);
      DeltasApplied(copy, s, since, until - 1, name);
      OneMoreLatest(s.log, since, until - 1, name);
      if IsLatest(s.log, until - 1) {
        ChangeIsCurrent(Refreshed(copy, s, since, until - 1).value, s, until - 1, name);
      }
    }
  }

  lemma OneMoreLatest(log: seq<Entry>, since: nat, last: nat, name: string)
    requires since <= last < |log|
    ensures LatestBetween(log, since, last + 1, name) <==>
            LatestBetween(log, since, last, name) || (IsLatest(log, last) && log[last].device == name)
  {
  }

  /** Reading the rows at any later moment brings the copy up to date for the older cursor too. */
  lemma DeltasKeepFresh(copy: map<string, Spec>, since: nat, current: nat, s: Store)
    requires Fresh(copy, since, s) && since <= current <= |s.log| && DeletionsHold(s)
    requires Refreshed(copy, s, since, |s.log|).Some?
    requires !exists i :: since <= i < current && s.log[i].op.Reset?
    ensures Fresh(Refreshed(copy, s, since, |s.log|).value, current, s)
  {
    forall name | name != "*" && Settled(s.log, current, name)
      ensures SameAt(Refreshed(copy, s, since, |s.log|).value, Overlay(s.table), name)
    {
      DeltasApplied(copy, s, since, |s.log|, name);
      if TouchedAfter(s.log, since, name) {
        var i := LatestExists(s.log, since, name);
        assert LatestBetween(s.log, since, |s.log|, name);
      } else {
        assert Settled(s.log, since, name);
      }
    }
  }

  /** An answer without changes after which no device was touched. */
  lemma {:induction false} NoChangesNoNews(table: map<string, Row>, log: seq<Entry>, since: nat, until: nat)
    requires until <= |log| && ChangesBetween(table, log, since, until) == []
    ensures forall i :: since <= i < until ==> !IsLatest(log, i)
  {
    if until > since {
      NoChangesNoNews(table, log, since, until - 1);
    }
  }

  // ---------------------------------------------------------------------------
  // The name the feed leaves out
  // ---------------------------------------------------------------------------

  lemma ChangeSkips(copy: map<string, Spec>, c: Change, name: string)
    requires c.device != name && PlanChange(copy, c).Some?
    ensures SameAt(PlanChange(copy, c).value, copy, name)
  {
  }

  lemma {:induction false} DeltasSkipStar(copy: map<string, Spec>, s: Store, since: nat, until: nat)
    requires until <= |s.log| && Refreshed(copy, s, since, until).Some?
    ensures SameAt(Refreshed(copy, s, since, until).value, copy, "*")
  {
    if until > since {
      OneMoreChange(copy, s, since, until - 1);
      DeltasSkipStar(copy, s, since, until - 1);
      if IsLatest(s.log, until - 1) {
        ChangeSkips(Refreshed(copy, s, since, until - 1).value, ChangeAt(s.table, s.log, until - 1), "*");
      }
    }
  }

  /**
   "*" is an allowed device name, but the query leaves it out. After an undisturbed answer the
   updated copy equals the whole table exactly when it was already right about "*".
   */
  lemma StarMustAlreadyAgree(copy: map<string, Spec>, cursor: nat, s: Store)
    requires Fresh(copy, cursor, s) && cursor <= |s.log| && DeletionsHold(s)
    requires !ResetAfter(s.log, cursor) && Plan(copy, Answer(s, cursor).changes).Some?
    ensures Plan(copy, Answer(s, cursor).changes).value == Overlay(s.table) <==>
            SameAt(copy, Overlay(s.table), "*")
  {
    var result := Plan(copy, Answer(s, cursor).changes).value;
    assert Refreshed(copy, s, cursor, |s.log|) == Some(result);
    DeltasKeepFresh(copy, cursor, |s.log|, s);
    DeltasSkipStar(copy, s, cursor, |s.log|);
    forall name | name != "*"
      ensures SameAt(result, Overlay(s.table), name)
    {
      assert Settled(s.log, |s.log|, name);
    }
    if SameAt(copy, Overlay(s.table), "*") {
      SameEverywhere(result, Overlay(s.table));
    }
  }

  lemma SameEverywhere<V>(a: map<string, V>, b: map<string, V>)
    requires forall name :: SameAt(a, b, name)
    ensures a == b
  {
    assert forall name :: name in a ==> SameAt(a, b, name);
    assert forall name :: name in b ==> SameAt(a, b, name);
  }

  /** An active device saved as "*" reaches no client. */
  lemma StarIsMissed(row: Row)
    requires Usable(row)
    ensures var s := Saved(Store(map[], [], None), "*", row, Add);
      && Fresh(map[], 0, s) && DeletionsHold(s)
      && Plan(map[], Answer(s, 0).changes) == Some(map[]) && Overlay(s.table) != map[]
  {
    var s := Saved(Store(map[], [], None), "*", row, Add);
    assert "*" in Overlay(s.table);
    assert !FeedEntry(s.log[0]) && !IsLatest(s.log, 0);
    assert ChangesBetween(s.table, s.log, 0, 0) == [];
  }
}
