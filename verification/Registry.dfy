/**
 The in-memory device registry and its PV index (configuration_service/models.py).

 `pvs` indexes every PV by one owning device and component. It is maintained
 incrementally while devices that may share PVs are registered, rewritten and
 removed; the results below say that it always agrees with what the registered
 devices and the standalone names say.
 */
module DeviceRegistries {
  import opened Models

  /** The value of a `DeviceRegistry`; `order` is the insertion order of `devices`. */
  datatype Registry = Registry(
    devices: map<string, Device>,
    order: seq<string>,
    specs: map<string, Spec>,
    standalone: set<string>,
    index: map<string, Owner>)

  const Empty := Registry(map[], [], map[], {}, map[])

  // ---------------------------------------------------------------------------
  // What each operation does to the value
  // ---------------------------------------------------------------------------

  function Added(r: Registry, device: Device, spec: Option<Spec>): Registry {
    r.(devices := r.devices[device.name := device],
       order := if device.name in r.devices then r.order else r.order + [device.name],
       specs := if spec.Some? then r.specs[device.name := spec.value] else r.specs,
       index := Claimed(r.index, device.name, device.pvs))
  }

  /** Every listed PV belongs to `name`, under the component listed last; the rest is as before. */
  function Claimed(index: map<string, Owner>, name: string, bindings: seq<Binding>): map<string, Owner> {
    map pv | pv in index.Keys + (set b | b in bindings :: b.pv) ::
      if ListsPv(bindings, pv) then Owned(name, LastComponent(bindings, pv)) else index[pv]
  }

  /** The first registered device other than `except` that lists `pv`. */
  function FirstLister(devices: map<string, Device>, order: seq<string>, except: string,
      pv: string): (lister: Option<string>)
    ensures lister.Some? ==>
      lister.value in order && lister.value != except && lister.value in devices && Lists(devices[lister.value], pv)
    ensures lister.None? ==>
      forall n :: n in order && n != except && n in devices ==> !Lists(devices[n], pv)
  {
    if order == [] then None
    else if order[0] != except && order[0] in devices && Lists(devices[order[0]], pv) then Some(order[0])
    else FirstLister(devices, order[1..], except, pv)
  }

  /** The lister found comes first in the insertion order. */
  lemma {:induction false} FirstListerIsFirst(devices: map<string, Device>, order: seq<string>, except: string,
      pv: string)
    requires FirstLister(devices, order, except, pv).Some?
    ensures exists i ::
      && 0 <= i < |order| && order[i] == FirstLister(devices, order, except, pv).value
      && forall j :: 0 <= j < i && order[j] != except && order[j] in devices ==> !Lists(devices[order[j]], pv)
  {
    if order[0] == except || order[0] !in devices || !Lists(devices[order[0]], pv) {
      FirstListerIsFirst(devices, order[1..], except, pv);
      var i :| 0 <= i < |order[1..]| && order[1..][i] == FirstLister(devices, order, except, pv).value
               && forall j :: 0 <= j < i && order[1..][j] != except && order[1..][j] in devices ==>
                    !Lists(devices[order[1..][j]], pv);
      assert forall j :: 0 < j < i + 1 ==> order[j] == order[1..][j - 1];
      assert order[i + 1] == FirstLister(devices, order, except, pv).value;
    }
  }

  /** Who takes over a PV that `name` gives up; `None` when nobody claims it. */
  function Heir(r: Registry, name: string, pv: string): Option<Owner> {
    match FirstLister(r.devices, r.order, name, pv)
    case Some(other) => Some(Owned(other, FirstComponent(r.devices[other].pvs, pv)))
    case None => if pv in r.standalone then Some(Unowned) else None
  }

  function Released(r: Registry, name: string): Registry {
    r.(index := map pv | pv in r.index && (OwnedBy(r.index[pv], name) ==> Heir(r, name, pv).Some?) ::
         if OwnedBy(r.index[pv], name) then Heir(r, name, pv).value else r.index[pv])
  }

  function Without(order: seq<string>, name: string): seq<string> {
    if order == [] then []
    else if order[0] == name then Without(order[1..], name)
    else [order[0]] + Without(order[1..], name)
  }

  function Removed(r: Registry, name: string): Registry {
    if name !in r.devices then r
    else Released(r, name).(devices := r.devices - {name}, order := Without(r.order, name), specs := r.specs - {name})
  }

  function Updated(r: Registry, device: Device, spec: Option<Spec>): Registry {
    if device.name !in r.devices then r else Added(Released(r, device.name), device, spec)
  }

  function WithStandalone(r: Registry, pv: string): Registry {
    r.(standalone := r.standalone + {pv}, index := if pv in r.index then r.index else r.index[pv := Unowned])
  }

  function WithoutStandalone(r: Registry, pv: string): Registry {
    r.(standalone := r.standalone - {pv},
       index := if pv in r.index && r.index[pv].Unowned? then r.index - {pv} else r.index)
  }

  // ---------------------------------------------------------------------------
  // The registry object
  // ---------------------------------------------------------------------------

  /** An entry during a release: the ones `todo` and of other owners as before, the rest at their heirs. */
  predicate EntryReleased(before: Registry, name: string, index: map<string, Owner>, todo: set<string>, pv: string) {
    if pv in before.index && OwnedBy(before.index[pv], name) && pv !in todo then
      && (pv in index <==> Heir(before, name, pv).Some?)
      && (pv in index ==> index[pv] == Heir(before, name, pv).value)
    else
      && (pv in index <==> pv in before.index)
      && (pv in index ==> index[pv] == before.index[pv])
  }

  lemma ReleasedEntries(before: Registry, name: string, index: map<string, Owner>)
    requires forall pv :: EntryReleased(before, name, index, {}, pv)
    ensures index == Released(before, name).index
  {
    var released := Released(before, name).index;
    forall pv
      ensures pv in index <==> pv in released
      ensures pv in index ==> index[pv] == released[pv]
    {
      assert EntryReleased(before, name, index, {}, pv);
    }
  }

  class DeviceRegistry {
    var devices: map<string, Device>
    var order: seq<string>
    var specs: map<string, Spec>
    var standalone: set<string>
    var index: map<string, Owner>

    function Model(): Registry
      reads this
    {
      Registry(devices, order, specs, standalone, index)
    }

    constructor ()
      ensures Model() == Empty
    {
      devices, order, specs, standalone, index := map[], [], map[], {}, map[];
    }

    method AddDevice(device: Device, spec: Option<Spec>)
      modifies this
      ensures Model() == Added(old(Model()), device, spec)
    {
      if device.name !in devices {
        order := order + [device.name];
      }
      devices := devices[device.name := device];
      if spec.Some? {
        specs := specs[device.name := spec.value];
      }
      ClaimPvs(device.name, device.pvs);
    }

    /** The loop over the listed PVs. */
    method ClaimPvs(name: string, bindings: seq<Binding>)
      modifies this`index
      ensures index == Claimed(old(index), name, bindings)
    {
      for i := 0 to |bindings|
        invariant index == Claimed(old(index), name, bindings[..i])
      {
        ClaimedOneMore(old(index), name, bindings[..i], bindings[i]);
        assert bindings[..i + 1] == bindings[..i] + [bindings[i]];
        index := index[bindings[i].pv := Owned(name, bindings[i].component)];
      }
      assert bindings[..|bindings|] == bindings;
    }

    method AddStandalonePv(pv: string)
      modifies this
      ensures Model() == WithStandalone(old(Model()), pv)
    {
      standalone := standalone + {pv};
      if pv !in index {
        index := index[pv := Unowned];
      }
    }

    method RemoveStandalonePv(pv: string)
      modifies this
      ensures Model() == WithoutStandalone(old(Model()), pv)
    {
      standalone := standalone - {pv};
      if pv in index && index[pv].Unowned? {
        index := index - {pv};
      }
    }

    /** The inner search: the first other device, and its first component, listing `pv`. */
    method FindOtherOwner(name: string, pv: string) returns (owner: Option<Owner>)
      requires forall n :: n in order ==> n in devices
      ensures owner == match FirstLister(devices, order, name, pv)
                       case Some(other) => Some(Owned(other, FirstComponent(devices[other].pvs, pv)))
                       case None => None
    {
      owner := None;
      for i := 0 to |order|
        invariant owner.None?
        invariant FirstLister(devices, order, name, pv) == FirstLister(devices, order[i..], name, pv)
      {
        if order[i] == name {
          continue;
        }
        var bindings := devices[order[i]].pvs;
        for j := 0 to |bindings|
          invariant owner.None?
          invariant forall k :: 0 <= k < j ==> bindings[k].pv != pv
        {
          if bindings[j].pv == pv {
            FirstComponentAt(bindings, pv, j);
            owner := Some(Owned(order[i], bindings[j].component));
            break;
          }
        }
        if owner.Some? {
          return;
        }
      }
    }

    method ReleasePvOwnership(name: string)
      requires forall n :: n in order ==> n in devices
      modifies this`index
      ensures Model() == Released(old(Model()), name)
    {
      ghost var before := Model();
      var owned := set pv | pv in index && OwnedBy(index[pv], name);
      var todo := owned;
      while todo != {}
        invariant todo <= owned
        invariant forall pv :: EntryReleased(before, name, index, todo, pv)
      {
        var pv :| pv in todo;
        ghost var was, left := index, todo;
        todo := todo - {pv};
        var newOwner := FindOtherOwner(name, pv);
        if newOwner.Some? {
          index := index[pv := newOwner.value];
        } else if pv in standalone {
          index := index[pv := Unowned];
        } else {
          index := index - {pv};
        }
        forall q
          ensures EntryReleased(before, name, index, todo, q)
        {
          assert EntryReleased(before, name, was, left, q);
        }
      }
      ReleasedEntries(before, name, index);
    }

    method RemoveDevice(name: string) returns (found: bool)
      requires forall n :: n in order ==> n in devices
      modifies this
      ensures found == (name in old(devices))
      ensures Model() == Removed(old(Model()), name)
    {
      if name !in devices {
        return false;
      }
      ReleasePvOwnership(name);
      specs := specs - {name};
      devices := devices - {name};
      order := Without(order, name);
      return true;
    }

    method UpdateDevice(device: Device, spec: Option<Spec>) returns (found: bool)
      requires forall n :: n in order ==> n in devices
      modifies this
      ensures found == (device.name in old(devices))
      ensures Model() == Updated(old(Model()), device, spec)
    {
      if device.name !in devices {
        return false;
      }
      ReleasePvOwnership(device.name);
      AddDevice(device, spec);
      return true;
    }
  }

  lemma ListsOneMore(done: seq<Binding>, next: Binding, pv: string)
    ensures ListsPv(done + [next], pv) <==> ListsPv(done, pv) || pv == next.pv
    ensures pv == next.pv ==> LastComponent(done + [next], pv) == next.component
    ensures pv != next.pv && ListsPv(done, pv) ==> LastComponent(done + [next], pv) == LastComponent(done, pv)
  {
    var more := done + [next];
    assert more[|more| - 1] == next && more[..|more| - 1] == done;
    if ListsPv(done, pv) {
      var i :| 0 <= i < |done| && done[i].pv == pv;
      assert more[i].pv == pv;
    }
  }

  lemma ClaimedOneMore(index: map<string, Owner>, name: string, done: seq<Binding>, next: Binding)
    ensures Claimed(index, name, done + [next]) == Claimed(index, name, done)[next.pv := Owned(name, next.component)]
  {
    var left := Claimed(index, name, done + [next]);
    var right := Claimed(index, name, done)[next.pv := Owned(name, next.component)];
    assert (set b | b in done + [next] :: b.pv) == (set b | b in done :: b.pv) + {next.pv} by {
      assert forall b :: b in done + [next] <==> b in done || b == next;
      assert next in done + [next];
    }
    assert left.Keys == right.Keys;
    forall pv | pv in left
      ensures left[pv] == right[pv]
    {
      ListsOneMore(done, next, pv);
    }
  }

  lemma {:induction false} FirstComponentAt(bindings: seq<Binding>, pv: string, j: nat)
    requires j < |bindings| && bindings[j].pv == pv
    requires forall k :: 0 <= k < j ==> bindings[k].pv != pv
    ensures FirstComponent(bindings, pv) == bindings[j].component
  {
    if j > 0 {
      FirstComponentAt(bindings[1..], pv, j - 1);
    }
  }

  // ---------------------------------------------------------------------------
  // The index invariant
  // ---------------------------------------------------------------------------

  ghost predicate ListedBySome(devices: map<string, Device>, pv: string) {
    exists n :: n in devices && Lists(devices[n], pv)
  }

  /**
   The index agrees with the devices and the standalone names: its keys are exactly the
   standalone names and the listed PVs, an entry has an owner exactly when some device
   lists it, and the recorded owner maps the recorded component to that PV.
   */
  ghost predicate IndexMatches(index: map<string, Owner>, devices: map<string, Device>, standalone: set<string>) {
    && (forall pv :: pv in index <==> pv in standalone || ListedBySome(devices, pv))
    && (forall pv :: pv in index ==> (index[pv].Owned? <==> ListedBySome(devices, pv)))
    && (forall pv :: pv in index && index[pv].Owned? ==>
          && index[pv].device in devices
          && Binding(index[pv].component, pv) in devices[index[pv].device].pvs)
  }

  ghost predicate WellFormed(r: Registry) {
    && (forall n :: n in r.order <==> n in r.devices)
    && (forall i, j :: 0 <= i < j < |r.order| ==> r.order[i] != r.order[j])
    && (forall n :: n in r.devices ==> r.devices[n].name == n)
    && r.specs.Keys <= r.devices.Keys
    && IndexMatches(r.index, r.devices, r.standalone)
  }

  /** Giving up ownership leaves the index right for the registry without that device. */
  lemma ReleasedMatchesRest(r: Registry, name: string)
    requires WellFormed(r)
    ensures IndexMatches(Released(r, name).index, r.devices - {name}, r.standalone)
  {
    var rest := r.devices - {name};
    var index := Released(r, name).index;
    forall pv
      ensures ListedBySome(rest, pv) <==> FirstLister(r.devices, r.order, name, pv).Some?
    {
      var lister := FirstLister(r.devices, r.order, name, pv);
      if lister.Some? {
        assert lister.value in rest && Lists(rest[lister.value], pv);
      }
      if ListedBySome(rest, pv) {
        var n :| n in rest && Lists(rest[n], pv);
        assert n in r.order;
      }
    }
    forall pv
      ensures pv in index <==> pv in r.standalone || ListedBySome(rest, pv)
      ensures pv in index ==> (index[pv].Owned? <==> ListedBySome(rest, pv))
      ensures pv in index && index[pv].Owned? ==>
        index[pv].device in rest && Binding(index[pv].component, pv) in rest[index[pv].device].pvs
    {
      if ListedBySome(rest, pv) {
        var n :| n in rest && Lists(rest[n], pv);
        assert n in r.devices && Lists(r.devices[n], pv);
      }
      if pv in r.index && !OwnedBy(r.index[pv], name) && r.index[pv].Owned? {
        OwnerLists(r.devices[r.index[pv].device], r.index[pv].component, pv);
        assert Lists(rest[r.index[pv].device], pv);
      }
    }
  }

  lemma OwnerLists(device: Device, component: string, pv: string)
    requires Binding(component, pv) in device.pvs
    ensures Lists(device, pv)
  {
    var i :| 0 <= i < |device.pvs| && device.pvs[i] == Binding(component, pv);
  }

  lemma ListsOfBinding(device: Device, pv: string)
    ensures Lists(device, pv) <==> pv in (set b | b in device.pvs :: b.pv)
  {
    if Lists(device, pv) {
      var i :| 0 <= i < |device.pvs| && device.pvs[i].pv == pv;
      assert device.pvs[i] in device.pvs;
    }
  }

  /** Claiming a device's PVs extends an index that was right without that device. */
  lemma ClaimedMatches(index: map<string, Owner>, devices: map<string, Device>, standalone: set<string>, device: Device)
    requires IndexMatches(index, devices - {device.name}, standalone)
    ensures IndexMatches(Claimed(index, device.name, device.pvs), devices[device.name := device], standalone)
  {
    var rest := devices - {device.name};
    var all := devices[device.name := device];
    forall pv
      ensures ListedBySome(all, pv) <==> ListedBySome(rest, pv) || Lists(device, pv)
      ensures Lists(device, pv) <==> pv in (set b | b in device.pvs :: b.pv)
    {
      ListsOfBinding(device, pv);
      if Lists(device, pv) {
        assert device.name in all && Lists(all[device.name], pv);
      }
      if ListedBySome(rest, pv) {
        var n :| n in rest && Lists(rest[n], pv);
        assert n in all && Lists(all[n], pv);
      }
      if ListedBySome(all, pv) && !Lists(device, pv) {
        var n :| n in all && Lists(all[n], pv);
        assert n in rest && Lists(rest[n], pv);
      }
    }
  }

  lemma {:induction false} WithoutKeepsOthers(order: seq<string>, name: string)
    requires forall i, j :: 0 <= i < j < |order| ==> order[i] != order[j]
    ensures forall n :: n in Without(order, name) <==> n in order && n != name
    ensures forall i, j :: 0 <= i < j < |Without(order, name)| ==> Without(order, name)[i] != Without(order, name)[j]
  {
    if order != [] {
      var tail := order[1..];
      WithoutKeepsOthers(tail, name);
      assert forall n :: n in order <==> n == order[0] || n in tail;
      assert order[0] !in tail;
      if order[0] != name {
        var kept := Without(tail, name);
        assert Without(order, name) == [order[0]] + kept;
        assert order[0] !in kept;
        assert forall i :: 0 < i < |kept| + 1 ==> Without(order, name)[i] == kept[i - 1] && kept[i - 1] in kept;
      }
    }
  }

  lemma StaleEntryBreaks(r: Registry, device: Device, spec: Option<Spec>, pv: string)
    requires pv in r.index && OwnedBy(r.index[pv], device.name) && !Lists(device, pv)
    ensures !WellFormed(Added(r, device, spec))
  {
    var after := Added(r, device, spec);
    assert after.index[pv] == r.index[pv];
    assert Binding(after.index[pv].component, pv) !in after.devices[device.name].pvs;
  }

  /** Registering a device keeps everything but the index, which is to be shown right on its own. */
  lemma AddedOtherwiseWellFormed(r: Registry, device: Device, spec: Option<Spec>)
    requires WellFormed(r)
    requires IndexMatches(Claimed(r.index, device.name, device.pvs), r.devices[device.name := device], r.standalone)
    ensures WellFormed(Added(r, device, spec))
  {
  }

  /**
   Registering a device keeps the index right exactly when no entry is left behind: every PV
   the index already credits to that name is listed by the new metadata. A fresh name and a
   name whose ownership was just released always qualify; overwriting a registered device
   without releasing it does not.
   */
  lemma AddKeepsIndexIff(r: Registry, device: Device, spec: Option<Spec>)
    requires WellFormed(r)
    ensures WellFormed(Added(r, device, spec)) <==>
            forall pv :: pv in r.index && OwnedBy(r.index[pv], device.name) ==> Lists(device, pv)
  {
    if pv :| pv in r.index && OwnedBy(r.index[pv], device.name) && !Lists(device, pv) {
      StaleEntryBreaks(r, device, spec, pv);
    } else {
      // Credit the PVs of the old version, all listed again, to the new one first.
      ClaimOverwrites(r, device);
      AddedOtherwiseWellFormed(r, device, spec);
    }
  }

  lemma ClaimOverwrites(r: Registry, device: Device)
    requires WellFormed(r)
    requires forall pv :: pv in r.index && OwnedBy(r.index[pv], device.name) ==> Lists(device, pv)
    ensures IndexMatches(Claimed(r.index, device.name, device.pvs), r.devices[device.name := device], r.standalone)
  {
    ReleasedMatchesRest(r, device.name);
    ClaimedMatches(Released(r, device.name).index, r.devices, r.standalone, device);
    var released := Released(r, device.name).index;
    forall pv
      ensures pv in Claimed(released, device.name, device.pvs) <==> pv in Claimed(r.index, device.name, device.pvs)
      ensures pv in Claimed(released, device.name, device.pvs) ==>
        Claimed(released, device.name, device.pvs)[pv] == Claimed(r.index, device.name, device.pvs)[pv]
    {
      ListsOfBinding(device, pv);
    }
    assert Claimed(released, device.name, device.pvs) == Claimed(r.index, device.name, device.pvs);
  }

  lemma AddFreshKeeps(r: Registry, device: Device, spec: Option<Spec>)
    requires WellFormed(r) && device.name !in r.devices
    ensures WellFormed(Added(r, device, spec))
  {
    AddKeepsIndexIff(r, device, spec);
  }

  lemma UpdateKeeps(r: Registry, device: Device, spec: Option<Spec>)
    requires WellFormed(r)
    ensures WellFormed(Updated(r, device, spec))
  {
    if device.name in r.devices {
      ReleasedMatchesRest(r, device.name);
      ClaimedMatches(Released(r, device.name).index, r.devices, r.standalone, device);
    }
  }

  lemma RemoveKeeps(r: Registry, name: string)
    requires WellFormed(r)
    ensures WellFormed(Removed(r, name))
  {
    ReleasedMatchesRest(r, name);
    WithoutKeepsOthers(r.order, name);
  }

  lemma StandaloneKeeps(r: Registry, pv: string)
    requires WellFormed(r)
    ensures WellFormed(WithStandalone(r, pv)) && WellFormed(WithoutStandalone(r, pv))
  {
  }

  // ---------------------------------------------------------------------------
  // Which component, and which order
  // ---------------------------------------------------------------------------

  /** The device lists the PV at `i`, and at no place before. */
  predicate ListsFirstAt(bindings: seq<Binding>, i: nat, pv: string) {
    i < |bindings| && bindings[i].pv == pv && forall j :: 0 <= j < i ==> bindings[j].pv != pv
  }

  predicate ListsLastAt(bindings: seq<Binding>, i: nat, pv: string) {
    i < |bindings| && bindings[i].pv == pv && forall j :: i < j < |bindings| ==> bindings[j].pv != pv
  }

  /** A released PV goes to the first other lister under that device's first component for it. */
  lemma ReleasedOwner(r: Registry, name: string, pv: string, at: nat, i: nat)
    requires pv in r.index && OwnedBy(r.index[pv], name)
    requires at < |r.order| && r.order[at] != name && r.order[at] in r.devices
    requires ListsFirstAt(r.devices[r.order[at]].pvs, i, pv)
    requires forall j :: 0 <= j < at && r.order[j] != name && r.order[j] in r.devices ==>
      !Lists(r.devices[r.order[j]], pv)
    ensures pv in Released(r, name).index
    ensures Released(r, name).index[pv] == Owned(r.order[at], r.devices[r.order[at]].pvs[i].component)
  {
    FirstListerAt(r.devices, r.order, name, pv, at);
    FirstComponentAt(r.devices[r.order[at]].pvs, pv, i);
  }

  lemma {:induction false} FirstListerAt(devices: map<string, Device>, order: seq<string>, except: string, pv: string,
    at: nat)
    requires at < |order| && order[at] != except && order[at] in devices && Lists(devices[order[at]], pv)
    requires forall j :: 0 <= j < at && order[j] != except && order[j] in devices ==> !Lists(devices[order[j]], pv)
    ensures FirstLister(devices, order, except, pv) == Some(order[at])
  {
    if at > 0 {
      FirstListerAt(devices, order[1..], except, pv, at - 1);
    }
  }

  lemma {:induction false} LastComponentAt(bindings: seq<Binding>, pv: string, i: nat)
    requires ListsLastAt(bindings, i, pv)
    ensures LastComponent(bindings, pv) == bindings[i].component
  {
    var last := |bindings| - 1;
    if i < last {
      assert bindings[..last][i] == bindings[i];
      LastComponentAt(bindings[..last], pv, i);
    }
  }

  /** Registering credits a listed PV to the device under its last component for it. */
  lemma ClaimedOwner(r: Registry, device: Device, spec: Option<Spec>, pv: string, i: nat)
    requires ListsLastAt(device.pvs, i, pv)
    ensures pv in Added(r, device, spec).index
    ensures Added(r, device, spec).index[pv] == Owned(device.name, device.pvs[i].component)
  {
    assert ListsPv(device.pvs, pv) && device.pvs[i] in device.pvs;
    LastComponentAt(device.pvs, pv, i);
  }

  /** A new name comes last, an update keeps the order, and a removal takes out the name alone. */
  lemma OrderSays(r: Registry, device: Device, spec: Option<Spec>, name: string)
    requires WellFormed(r)
    ensures Added(r, device, spec).order == if device.name in r.devices then r.order else r.order + [device.name]
    ensures Updated(r, device, spec).order == r.order
    ensures forall before, after: seq<string> :: r.order == before + [name] + after ==>
      Removed(r, name).order == before + after
  {
    forall before, after: seq<string> | r.order == before + [name] + after
      ensures Removed(r, name).order == before + after
    {
      assert r.order[|before|] == name;
      forall i | 0 <= i < |before|
        ensures before[i] != name
      {
        assert r.order[i] == before[i];
      }
      forall i | 0 <= i < |after|
        ensures after[i] != name
      {
        assert r.order[|before| + 1 + i] == after[i];
      }
      WithoutAt(before, name, after);
    }
  }

  lemma {:induction false} WithoutAt(before: seq<string>, name: string, after: seq<string>)
    requires name !in before && name !in after
    ensures Without(before + [name] + after, name) == before + after
  {
    if before == [] {
      assert before + [name] + after == [name] + after && ([name] + after)[1..] == after;
      WithoutNothing(after, name);
      assert before + after == after;
    } else {
      WithoutAt(before[1..], name, after);
      assert (before + [name] + after)[1..] == before[1..] + [name] + after;
      assert [before[0]] + (before[1..] + after) == before + after;
    }
  }

  lemma {:induction false} WithoutNothing(order: seq<string>, name: string)
    requires name !in order
    ensures Without(order, name) == order
  {
    if order != [] {
      WithoutNothing(order[1..], name);
      assert [order[0]] + order[1..] == order;
    }
  }

  // ---------------------------------------------------------------------------
  // Whole runs
  // ---------------------------------------------------------------------------

  datatype Op =
    | Register(device: Device, spec: Option<Spec>)
    | Rewrite(device: Device, spec: Option<Spec>)
    | Drop(name: string)
    | AddPv(pv: string)
    | DropPv(pv: string)

  function Apply(r: Registry, op: Op): Registry {
    match op
    case Register(device, spec) => Added(r, device, spec)
    case Rewrite(device, spec) => Updated(r, device, spec)
    case Drop(name) => Removed(r, name)
    case AddPv(pv) => WithStandalone(r, pv)
    case DropPv(pv) => WithoutStandalone(r, pv)
  }

  function ApplyAll(r: Registry, ops: seq<Op>): Registry
    decreases |ops|
  {
    if ops == [] then r else ApplyAll(Apply(r, ops[0]), ops[1..])
  }

  /** Every `Register` of the run is for a name not registered at that moment. */
  predicate RegistersFresh(r: Registry, ops: seq<Op>)
    decreases |ops|
  {
    ops == [] ||
    ((ops[0].Register? ==> ops[0].device.name !in r.devices) && RegistersFresh(Apply(r, ops[0]), ops[1..]))
  }

  lemma {:induction false} EveryRunKeepsIndex(r: Registry, ops: seq<Op>)
    requires WellFormed(r) && RegistersFresh(r, ops)
    ensures WellFormed(ApplyAll(r, ops))
    decreases |ops|
  {
    if ops != [] {
      match ops[0] {
        case Register(device, spec) => AddFreshKeeps(r, device, spec);
        case Rewrite(device, spec) => UpdateKeeps(r, device, spec);
        case Drop(name) => RemoveKeeps(r, name);
        case AddPv(pv) => StandaloneKeeps(r, pv);
        case DropPv(pv) => StandaloneKeeps(r, pv);
      }
      EveryRunKeepsIndex(Apply(r, ops[0]), ops[1..]);
    }
  }

  // ---------------------------------------------------------------------------
  // Removing a device undoes registering it
  // ---------------------------------------------------------------------------

  lemma {:induction false} FirstListerIgnores(devices: map<string, Device>, order: seq<string>, device: Device,
      pv: string)
    ensures FirstLister(devices[device.name := device], order + [device.name], device.name, pv)
         == FirstLister(devices, order, device.name, pv)
  {
    if order == [] {
      assert ([] + [device.name])[1..] == [];
    } else {
      FirstListerIgnores(devices, order[1..], device, pv);
      assert (order + [device.name])[1..] == order[1..] + [device.name];
    }
  }

  lemma {:induction false} WithoutLast(order: seq<string>, name: string)
    requires name !in order
    ensures Without(order + [name], name) == order
  {
    if order != [] {
      WithoutLast(order[1..], name);
      assert (order + [name])[1..] == order[1..] + [name];
    }
  }

  lemma IndexedListedPv(r: Registry, name: string, pv: string)
    requires WellFormed(r) && name !in r.devices
    ensures pv in r.index <==> Heir(r, name, pv).Some?
    ensures pv in r.index && r.index[pv].Unowned? ==> Heir(r, name, pv) == Some(Unowned)
    ensures pv in r.index && r.index[pv].Owned? ==> Heir(r, name, pv).value.Owned?
  {
    ReleasedMatchesRest(r, name);
    var lister := FirstLister(r.devices, r.order, name, pv);
    if lister.Some? {
      assert ListedBySome(r.devices, pv);
    }
    if ListedBySome(r.devices, pv) {
      var n :| n in r.devices && Lists(r.devices[n], pv);
      assert n in r.order;
    }
  }

  lemma RemovedRegisteredEntry(r: Registry, device: Device, spec: Option<Spec>, pv: string)
    requires WellFormed(r) && device.name !in r.devices
    ensures var after := Removed(Added(r, device, spec), device.name);
            && (pv in after.index <==> pv in r.index)
            && (pv in r.index ==>
                  Some(after.index[pv]) == if Lists(device, pv) then Heir(r, device.name, pv) else Some(r.index[pv]))
  {
    var added := Added(r, device, spec);
    FirstListerIgnores(r.devices, r.order, device, pv);
    var lister := FirstLister(r.devices, r.order, device.name, pv);
    assert Heir(added, device.name, pv) == Heir(r, device.name, pv);
    ListsOfBinding(device, pv);
    IndexedListedPv(r, device.name, pv);
    assert pv in added.index <==> pv in r.index || Lists(device, pv);
    assert pv in added.index ==> (OwnedBy(added.index[pv], device.name) <==> Lists(device, pv));
    assert Removed(added, device.name).index == Released(added, device.name).index;
  }

  /**
   Removing a device that was just registered restores everything but the owner of a shared
   PV, which falls to the first remaining lister. The registry is restored exactly when every
   PV the device shared was already credited to that heir.
   */
  lemma RemoveUndoesRegister(r: Registry, device: Device, spec: Option<Spec>)
    requires WellFormed(r) && device.name !in r.devices
    ensures var after := Removed(Added(r, device, spec), device.name);
            && after.(index := r.index) == r
            && after.index.Keys == r.index.Keys
            && (forall pv :: pv in r.index ==> (after.index[pv].Owned? <==> r.index[pv].Owned?))
            && (after == r <==> forall pv :: pv in r.index && Lists(device, pv) ==>
                  Heir(r, device.name, pv) == Some(r.index[pv]))
  {
    var after := Removed(Added(r, device, spec), device.name);
    WithoutLast(r.order, device.name);
    assert after.devices == r.devices && after.specs == r.specs;
    forall pv
      ensures EntryAfterUndo(r, after, device, pv)
    {
      RemovedRegisteredEntry(r, device, spec, pv);
      IndexedListedPv(r, device.name, pv);
    }
    UndoneIndex(r, after, device);
  }

  ghost predicate EntryAfterUndo(r: Registry, after: Registry, device: Device, pv: string) {
    && (pv in after.index <==> pv in r.index)
    && (pv in r.index ==>
          Some(after.index[pv]) == if Lists(device, pv) then Heir(r, device.name, pv) else Some(r.index[pv]))
    && (pv in r.index && Lists(device, pv) && Heir(r, device.name, pv).Some? ==>
          (Heir(r, device.name, pv).value.Owned? <==> r.index[pv].Owned?))
  }

  lemma UndoneIndex(r: Registry, after: Registry, device: Device)
    requires forall pv :: EntryAfterUndo(r, after, device, pv)
    ensures after.index.Keys == r.index.Keys
    ensures forall pv :: pv in r.index ==> (after.index[pv].Owned? <==> r.index[pv].Owned?)
    ensures after.index == r.index <==>
            forall pv :: pv in r.index && Lists(device, pv) ==> Heir(r, device.name, pv) == Some(r.index[pv])
  {
    assert after.index.Keys == r.index.Keys by {
      assert forall pv :: EntryAfterUndo(r, after, device, pv) ==> (pv in after.index.Keys <==> pv in r.index.Keys);
    }
    forall pv | pv in r.index
      ensures after.index[pv].Owned? <==> r.index[pv].Owned?
      ensures after.index[pv] == r.index[pv] <==>
              (Lists(device, pv) ==> Heir(r, device.name, pv) == Some(r.index[pv]))
    {
      assert EntryAfterUndo(r, after, device, pv);
    }
  }

  // ---------------------------------------------------------------------------
  // Rebuilding a registry from stored devices
  // ---------------------------------------------------------------------------

  function SpecOf(specs: map<string, Spec>, name: string): Option<Spec> {
    if name in specs then Some(specs[name]) else None
  }

  /** Registering the named devices, in that order, into an empty registry. */
  function LoadAll(devices: map<string, Device>, specs: map<string, Spec>, names: seq<string>): Registry
    requires forall n :: n in names ==> n in devices
  {
    if names == [] then Empty
    else
      var last := names[|names| - 1];
      Added(LoadAll(devices, specs, names[..|names| - 1]), devices[last], SpecOf(specs, last))
  }

  lemma LoadedOneMore(devices: map<string, Device>, specs: map<string, Spec>, names: seq<string>, name: string)
    requires (forall n :: n in names ==> n in devices) && name in devices
    ensures LoadAll(devices, specs, names + [name]) ==
            Added(LoadAll(devices, specs, names), devices[name], SpecOf(specs, name))
  {
    assert (names + [name])[..|names|] == names;
  }

  function Elements(names: seq<string>): set<string> {
    set n | n in names
  }

  /** The items of a dictionary whose key is among `names`. */
  function Restrict<V>(items: map<string, V>, names: seq<string>): map<string, V> {
    map n | n in items && n in names :: items[n]
  }

  function WithAllStandalone(r: Registry, pvs: set<string>): Registry {
    r.(standalone := r.standalone + pvs,
       index := map pv | pv in r.index.Keys + pvs :: if pv in r.index then r.index[pv] else Unowned)
  }

  lemma WithOneMoreStandalone(r: Registry, pvs: set<string>, pv: string)
    ensures WithStandalone(WithAllStandalone(r, pvs), pv) == WithAllStandalone(r, pvs + {pv})
  {
    var left := WithStandalone(WithAllStandalone(r, pvs), pv);
    var right := WithAllStandalone(r, pvs + {pv});
    assert left.standalone == right.standalone;
    assert left.index == right.index;
  }

  /** `_apply_standalone_pvs`: every stored standalone PV is added to a registry. */
  method ApplyStandalonePvs(registry: DeviceRegistry, pvs: seq<string>)
    modifies registry
    ensures registry.Model() == WithAllStandalone(old(registry.Model()), Elements(pvs))
  {
    ghost var before := registry.Model();
    for i := 0 to |pvs|
      invariant registry.Model() == WithAllStandalone(before, Elements(pvs[..i]))
    {
      registry.AddStandalonePv(pvs[i]);
      assert pvs[..i + 1] == pvs[..i] + [pvs[i]];
      assert Elements(pvs[..i + 1]) == Elements(pvs[..i]) + {pvs[i]};
      WithOneMoreStandalone(before, Elements(pvs[..i]), pvs[i]);
    }
    assert pvs[..|pvs|] == pvs;
  }

  lemma AllStandaloneKeeps(r: Registry, pvs: set<string>)
    requires WellFormed(r)
    ensures WellFormed(WithAllStandalone(r, pvs))
  {
  }

  lemma RestrictOneMore<V>(items: map<string, V>, names: seq<string>, name: string)
    ensures Restrict(items, names + [name]) ==
            if name in items then Restrict(items, names)[name := items[name]] else Restrict(items, names)
  {
    assert forall n :: n in names + [name] <==> n in names || n == name;
  }

  lemma {:induction false} LoadAllContents(devices: map<string, Device>, specs: map<string, Spec>, names: seq<string>)
    requires forall n :: n in names ==> n in devices
    requires forall i, j :: 0 <= i < j < |names| ==> names[i] != names[j]
    requires forall n :: n in devices ==> devices[n].name == n
    ensures var r := LoadAll(devices, specs, names);
            && WellFormed(r)
            && r.devices == Restrict(devices, names)
            && r.specs == Restrict(specs, names)
            && r.standalone == {}
  {
    if names != [] {
      var init, last := names[..|names| - 1], names[|names| - 1];
      LoadAllContents(devices, specs, init);
      assert names == init + [last] && last !in init;
      LoadOneMore(devices, specs, init, last, LoadAll(devices, specs, init));
    }
  }

  lemma LoadOneMore(devices: map<string, Device>, specs: map<string, Spec>, names: seq<string>, name: string,
      r: Registry)
    requires name in devices && devices[name].name == name && name !in names
    requires WellFormed(r) && r.standalone == {}
    requires r.devices == Restrict(devices, names) && r.specs == Restrict(specs, names)
    ensures var after := Added(r, devices[name], SpecOf(specs, name));
            && WellFormed(after) && after.standalone == {}
            && after.devices == Restrict(devices, names + [name]) && after.specs == Restrict(specs, names + [name])
  {
    AddFreshKeeps(r, devices[name], SpecOf(specs, name));
    RestrictOneMore(devices, names, name);
    RestrictOneMore(specs, names, name);
  }

  lemma RestrictToAll<V>(items: map<string, V>, names: seq<string>)
    requires forall n :: n in items ==> n in names
    ensures Restrict(items, names) == items
  {
  }

  /**
   The same devices, specs and standalone names, the same indexed PVs and the same owned PVs:
   at most the owner of a PV that several devices list differs.
   */
  ghost predicate SameView(a: Registry, b: Registry) {
    && a.devices == b.devices && a.specs == b.specs && a.standalone == b.standalone
    && a.index.Keys == b.index.Keys
    && forall pv :: pv in a.index ==> SameOrShared(a.devices, a.index[pv], b.index[pv], pv)
  }

  /** Both unowned, or owned by devices that both list the PV. */
  predicate SameOrShared(devices: map<string, Device>, a: Owner, b: Owner, pv: string) {
    || (a.Unowned? && b.Unowned?)
    || (&& a.Owned? && b.Owned?
        && a.device in devices && Lists(devices[a.device], pv)
        && b.device in devices && Lists(devices[b.device], pv))
  }

  /** The devices and standalone names determine which PVs are indexed and which are owned. */
  lemma SameContentsSameView(a: Registry, b: Registry)
    requires WellFormed(a) && WellFormed(b)
    requires a.devices == b.devices && a.specs == b.specs && a.standalone == b.standalone
    ensures SameView(a, b)
  {
    assert forall pv :: pv in a.index <==> pv in b.index;
    forall pv | pv in a.index && a.index[pv].Owned?
      ensures SameOrShared(a.devices, a.index[pv], b.index[pv], pv)
    {
      OwnerLists(a.devices[a.index[pv].device], a.index[pv].component, pv);
      OwnerLists(b.devices[b.index[pv].device], b.index[pv].component, pv);
    }
  }

  lemma StandaloneCompletesView(loaded: Registry, r: Registry)
    requires WellFormed(loaded) && WellFormed(r)
    requires loaded.devices == r.devices && loaded.specs == r.specs && loaded.standalone == {}
    ensures WellFormed(WithAllStandalone(loaded, r.standalone))
    ensures SameView(WithAllStandalone(loaded, r.standalone), r)
  {
    AllStandaloneKeeps(loaded, r.standalone);
    SameContentsSameView(WithAllStandalone(loaded, r.standalone), r);
  }

  /**
   Rebuilding a well-formed registry from its own devices, specs and standalone names gives
   back the same view, whatever the order the devices are read in.
   */
  lemma RebuildAgrees(r: Registry, names: seq<string>)
    requires WellFormed(r)
    requires forall i, j :: 0 <= i < j < |names| ==> names[i] != names[j]
    requires forall n :: n in names <==> n in r.devices
    ensures WellFormed(WithAllStandalone(LoadAll(r.devices, r.specs, names), r.standalone))
    ensures SameView(WithAllStandalone(LoadAll(r.devices, r.specs, names), r.standalone), r)
  {
    LoadAllContents(r.devices, r.specs, names);
    RestrictToAll(r.devices, names);
    RestrictToAll(r.specs, names);
    StandaloneCompletesView(LoadAll(r.devices, r.specs, names), r);
  }
}
