/**
 The persistent device table and its append-only audit log
 (configuration_service/device_registry_store.py).

 A transaction is atomic. The id of an audit entry is its position in the log plus one, so
 ids increase in commit order.
 */
module Stores {
  import opened Models
  import opened DeviceRegistries

  datatype Row = Row(device: Device, spec: Option<Spec>)

  datatype Operation =
    | Seed | Add | Update | Delete | Enable | Disable
    | Reset
    | LockEvent(kind: string)

  /** One line of `device_audit_log`. */
  datatype Entry = Entry(device: string, op: Operation)

  /** `device_registry`, `device_audit_log` and the "seeded" key of `registry_metadata`. */
  datatype Store = Store(table: map<string, Row>, log: seq<Entry>, seeded: Option<string>)

  /** One entry of a `/changes` response. */
  datatype Change =
    | Upsert(device: string, version: nat, row: Row)
    | Removal(device: string, version: nat)

  /** `_CHANGE_FEED_OPS`. */
  predicate InFeed(op: Operation) {
    op.Seed? || op.Add? || op.Update? || op.Delete? || op.Enable? || op.Disable?
  }

  // ---------------------------------------------------------------------------
  // Transactions
  // ---------------------------------------------------------------------------

  function Saved(s: Store, name: string, row: Row, op: Operation): Store {
    s.(table := s.table[name := row], log := s.log + [Entry(name, op)])
  }

  function Deleted(s: Store, name: string): Store {
    if name in s.table then s.(table := s.table - {name}, log := s.log + [Entry(name, Delete)]) else s
  }

  /** The first transaction of `clear_and_reseed`. */
  function Wiped(s: Store): Store {
    s.(table := map[], log := s.log + [Entry("*", Reset)], seeded := None)
  }

  function RowOf(r: Registry, name: string): Row
    requires name in r.devices
  {
    Row(r.devices[name], SpecOf(r.specs, name))
  }

  /** The rows that say what a registry says. */
  function RowsOf(r: Registry): map<string, Row> {
    map n | n in r.devices :: RowOf(r, n)
  }

  function RowsFor(r: Registry, names: seq<string>): map<string, Row> {
    map n | n in names && n in r.devices :: RowOf(r, n)
  }

  function EntriesFor(names: seq<string>, op: Operation): seq<Entry> {
    seq(|names|, i requires 0 <= i < |names| => Entry(names[i], op))
  }

  predicate Collides(table: map<string, Row>, names: seq<string>) {
    exists n :: n in names && n in table
  }

  /** Rows are inserted, not upserted: an existing row fails, and rolls back, the transaction. */
  function SeededFrom(s: Store, r: Registry, epoch: string): Option<Store>
    requires forall n :: n in r.order ==> n in r.devices
  {
    if Collides(s.table, r.order) then None
    else Some(Store(s.table + RowsFor(r, r.order), s.log + EntriesFor(r.order, Seed), Some(epoch)))
  }

  function LockEventLogged(s: Store, names: seq<string>, kind: string): Store {
    s.(log := s.log + EntriesFor(names, LockEvent(kind)))
  }

  // ---------------------------------------------------------------------------
  // The change feed query
  // ---------------------------------------------------------------------------

  /** A feed entry about a device; the query leaves out the name "*". */
  predicate FeedEntry(e: Entry) {
    InFeed(e.op) && e.device != "*"
  }

  /** Position `i` holds the last feed entry of its device. */
  predicate IsLatest(log: seq<Entry>, i: nat) {
    i < |log| && FeedEntry(log[i]) &&
    forall j :: i < j < |log| ==> !(FeedEntry(log[j]) && log[j].device == log[i].device)
  }

  function ChangeAt(table: map<string, Row>, log: seq<Entry>, i: nat): Change
    requires i < |log|
  {
    if log[i].op.Delete? || log[i].device !in table then Removal(log[i].device, i + 1)
    else Upsert(log[i].device, i + 1, table[log[i].device])
  }

  /** The changes at positions `since` up to `until`, in log order, one per device. */
  function ChangesBetween(table: map<string, Row>, log: seq<Entry>, since: nat, until: nat): seq<Change>
    requires until <= |log|
  {
    if until <= since then []
    else
      ChangesBetween(table, log, since, until - 1) +
      if IsLatest(log, until - 1) then [ChangeAt(table, log, until - 1)] else []
  }

  predicate ResetAfter(log: seq<Entry>, since: nat) {
    exists i :: since <= i < |log| && log[i].op.Reset?
  }

  datatype Response = Response(current: nat, epoch: string, reset: bool, changes: seq<Change>)

  function EpochOf(s: Store): string {
    if s.seeded.Some? then s.seeded.value else "unseeded"
  }

  // ---------------------------------------------------------------------------
  // The store object
  // ---------------------------------------------------------------------------

  class DeviceRegistryStore {
    var table: map<string, Row>
    var log: seq<Entry>
    var seeded: Option<string>

    function Model(): Store
      reads this
    {
      Store(table, log, seeded)
    }

    constructor ()
      ensures Model() == Store(map[], [], None)
    {
      table, log, seeded := map[], [], None;
    }

    method SaveDevice(name: string, device: Device, spec: Option<Spec>, op: Operation)
      modifies this
      ensures Model() == Saved(old(Model()), name, Row(device, spec), op)
    {
      table := table[name := Row(device, spec)];
      log := log + [Entry(name, op)];
    }

    method DeleteDevice(name: string) returns (deleted: bool)
      modifies this
      ensures deleted == (name in old(table))
      ensures Model() == Deleted(old(Model()), name)
    {
      deleted := name in table;
      if deleted {
        table := table - {name};
        log := log + [Entry(name, Delete)];
      }
    }

    /** One transaction: nothing is written unless every row could be inserted. */
    method SeedFromRegistry(r: Registry, epoch: string) returns (ok: bool)
      requires forall n :: n in r.order ==> n in r.devices
      requires forall i, j :: 0 <= i < j < |r.order| ==> r.order[i] != r.order[j]
      modifies this
      ensures ok == SeededFrom(old(Model()), r, epoch).Some?
      ensures Model() == if ok then SeededFrom(old(Model()), r, epoch).value else old(Model())
    {
      ghost var before := Model();
      var rows, entries := table, log;
      for i := 0 to |r.order|
        invariant Model() == before
        invariant rows == before.table + RowsFor(r, r.order[..i])
        invariant entries == before.log + EntriesFor(r.order[..i], Seed)
        invariant !Collides(before.table, r.order[..i])
      {
        var name := r.order[i];
        assert r.order[..i + 1] == r.order[..i] + [name];
        InsertsFresh(before.table, r, i);
        if name in rows {
          return false;
        }
        RowsForOneMore(before.table, r, r.order[..i], name);
        EntriesForOneMore(r.order[..i], name, Seed);
        rows := rows[name := RowOf(r, name)];
        entries := entries + [Entry(name, Seed)];
      }
      assert r.order[..|r.order|] == r.order;
      table, log, seeded := rows, entries, Some(epoch);
      return true;
    }

    /** Two transactions; the second runs on an empty table, so only an outside failure stops it. */
    method ClearAndReseed(r: Registry, epoch: string)
      requires forall n :: n in r.order ==> n in r.devices
      requires forall i, j :: 0 <= i < j < |r.order| ==> r.order[i] != r.order[j]
      modifies this
      ensures Some(Model()) == SeededFrom(Wiped(old(Model())), r, epoch)
    {
      table, log, seeded := map[], log + [Entry("*", Reset)], None;
      var ok := SeedFromRegistry(r, epoch);
    }

    method LogLockEvent(names: seq<string>, kind: string)
      modifies this
      ensures Model() == LockEventLogged(old(Model()), names, kind)
    {
      for i := 0 to |names|
        invariant log == old(log) + EntriesFor(names[..i], LockEvent(kind))
        invariant table == old(table) && seeded == old(seeded)
      {
        assert names[..i + 1] == names[..i] + [names[i]];
        EntriesForOneMore(names[..i], names[i], LockEvent(kind));
        log := log + [Entry(names[i], LockEvent(kind))];
      }
      assert names[..|names|] == names;
    }

    /** `names` are the keys of the table in the order the query returns its rows. */
    method LoadAllDevices(names: seq<string>) returns (registry: DeviceRegistry)
      requires forall n :: n in names ==> n in table
      ensures fresh(registry)
      ensures registry.Model() == LoadAll(DevicesIn(table), SpecsIn(table), names)
    {
      registry := new DeviceRegistry();
      ghost var devices, specs := DevicesIn(table), SpecsIn(table);
      for i := 0 to |names|
        invariant fresh(registry)
        invariant registry.Model() == LoadAll(devices, specs, names[..i])
      {
        LoadedOneMore(devices, specs, names[..i], names[i]);
        assert names[..i + 1] == names[..i] + [names[i]];
        registry.AddDevice(table[names[i]].device, table[names[i]].spec);
      }
      assert names[..|names|] == names;
    }

    method GetChangesSince(since: nat) returns (response: Response)
      ensures response == Answer(Model(), since)
    {
      var current := |log|;
      if since >= current {
        return Response(current, EpochOf(Model()), false, []);
      }
      var changes: seq<Change> := [];
      for i := since to |log|
        invariant changes == ChangesBetween(table, log, since, i)
      {
        if IsLatest(log, i) {
          changes := changes + [ChangeAt(table, log, i)];
        }
      }
      return Response(current, EpochOf(Model()), ResetAfter(log, since), changes);
    }
  }

  /** The next row collides exactly when it was in the table before. */
  lemma InsertsFresh(table: map<string, Row>, r: Registry, i: nat)
    requires i < |r.order| && forall n :: n in r.order ==> n in r.devices
    requires forall j, k :: 0 <= j < k < |r.order| ==> r.order[j] != r.order[k]
    ensures r.order[i] in table + RowsFor(r, r.order[..i]) <==> r.order[i] in table
    ensures r.order[i] in table ==> Collides(table, r.order)
    ensures Collides(table, r.order[..i + 1]) <==> Collides(table, r.order[..i]) || r.order[i] in table
  {
    assert r.order[i] !in r.order[..i];
    assert forall n :: n in r.order[..i + 1] <==> n in r.order[..i] || n == r.order[i];
  }

  lemma RowsForOneMore(table: map<string, Row>, r: Registry, names: seq<string>, name: string)
    requires name in r.devices
    ensures table + RowsFor(r, names + [name]) == (table + RowsFor(r, names))[name := RowOf(r, name)]
  {
    assert forall n :: n in names + [name] <==> n in names || n == name;
  }

  lemma EntriesForOneMore(names: seq<string>, name: string, op: Operation)
    ensures EntriesFor(names + [name], op) == EntriesFor(names, op) + [Entry(name, op)]
  {
  }

  /** The response when nothing is written between the reads of one poll. */
  function Answer(s: Store, since: nat): Response {
    if since >= |s.log| then Response(|s.log|, EpochOf(s), false, [])
    else Response(|s.log|, EpochOf(s), ResetAfter(s.log, since), ChangesBetween(s.table, s.log, since, |s.log|))
  }

  function DevicesIn(table: map<string, Row>): map<string, Device> {
    map n | n in table :: table[n].device
  }

  function SpecsIn(table: map<string, Row>): map<string, Spec> {
    map n | n in table && table[n].spec.Some? :: table[n].spec.value
  }
}
