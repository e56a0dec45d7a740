/**
 Exporting the device table in BITS form and loading it back
 (configuration_service/device_registry_store.py export_bits, configuration_service/loader.py
 BitsProfileLoader).

 An export maps a key, a class path or the module of a factory, to a list of entries; a file
 lists the same groups in an order of its own.
 */
module Bits {
  import opened Models
  import opened DeviceRegistries
  import Stores

  /** One entry of `devices.yml`; an empty label list is an absent one. */
  datatype Entry = Entry(
    name: string,
    creator: Option<string>,
    prefix: Option<string>,
    readPv: Option<string>,
    labels: seq<string>)

  datatype Item = Item(key: string, entry: Entry)

  /** A group of a file; `None` stands for a value that is not a list. */
  datatype Group = Group(key: string, entries: Option<seq<Entry>>)

  datatype Loaded = Loaded(device: Device, spec: Spec)

  /**
   What the two directions take from elsewhere: `str.isupper` of one character, whether a class
   name and labels make a motor, the descriptive fields, and what `list` gives for a labels
   argument that is neither text nor a list of texts (`None` when it raises).
   */
  datatype Host = Host(
    upper: char -> bool,
    motor: (string, seq<string>) -> bool,
    describe: (string, string, seq<string>) -> string,
    listing: string -> Option<seq<string>>)

  // ---------------------------------------------------------------------------
  // Dotted paths and validated names
  // ---------------------------------------------------------------------------

  function LastDot(s: string): (dot: Option<nat>)
    ensures dot.Some? ==> dot.value < |s| && s[dot.value] == '.' && '.' !in s[dot.value + 1..]
    ensures dot.None? ==> '.' !in s
  {
    if s == [] then None
    else if s[|s| - 1] == '.' then Some(|s| - 1)
    else
      var dot := LastDot(s[..|s| - 1]);
      assert s == s[..|s| - 1] + [s[|s| - 1]];
      assert dot.Some? ==> s[dot.value + 1..] == s[..|s| - 1][dot.value + 1..] + [s[|s| - 1]];
      dot
  }

  predicate StartsUpper(host: Host, s: string) {
    s != [] && host.upper(s[0])
  }

  predicate Printable(s: string) {
    s != [] && forall i :: 0 <= i < |s| ==> '!' <= s[i] <= '~'
  }

  /** The pattern's `$` also matches before one final newline. */
  predicate ValidPv(s: string) {
    Printable(s) || (s != [] && s[|s| - 1] == '\n' && Printable(s[..|s| - 1]))
  }

  predicate ValidName(s: string) {
    ValidPv(s) && '/' !in s
  }

  // ---------------------------------------------------------------------------
  // Export
  // ---------------------------------------------------------------------------

  function Singles(text: string): seq<string> {
    seq(|text|, i requires 0 <= i < |text| => [text[i]])
  }

  /** The metadata's labels, else the spec's. */
  function LabelsOf(host: Host, device: Device, spec: Spec): Option<seq<string>> {
    if device.labels != [] then Some(device.labels)
    else if "labels" !in spec.kwargs then Some([])
    else match spec.kwargs["labels"]
      case Text(text) => Some(Singles(text))
      case Texts(texts) => Some(texts)
      case Other(repr) => host.listing(repr)
  }

  /** A text argument that is not empty. */
  function TextOf(argument: Argument): Option<string> {
    if argument.Text? && argument.text != "" then Some(argument.text) else None
  }

  function KeyOf(host: Host, path: string): (key: (string, Option<string>)) {
    var dot := LastDot(path);
    if dot.Some? && dot.value > 0 && !StartsUpper(host, path[dot.value + 1..])
    then (path[..dot.value], Some(path[dot.value + 1..]))
    else (path, None)
  }

  /** `_bits_entry_from_spec`; `None` when it raises. */
  function Exported(host: Host, device: Device, spec: Spec): Option<Item> {
    var labels := LabelsOf(host, device, spec);
    if labels.None? then None
    else
      var key := KeyOf(host, spec.deviceClass);
      Some(Item(key.0, Entry(
        spec.name,
        key.1,
        if spec.args != [] then TextOf(spec.args[0]) else None,
        if "read_pv" in spec.kwargs then TextOf(spec.kwargs["read_pv"]) else None,
        labels.value)))
  }

  function ExportedRow(host: Host, row: Stores.Row): Option<Item> {
    if row.spec.None? then None else Exported(host, row.device, row.spec.value)
  }

  function Exporter(host: Host): Stores.Row -> Option<Item> {
    row => ExportedRow(host, row)
  }

  predicate Exports(exporter: Stores.Row -> Option<Item>, rows: seq<Stores.Row>) {
    forall i :: 0 <= i < |rows| ==> exporter(rows[i]).Some?
  }

  function ItemsOf(exporter: Stores.Row -> Option<Item>, rows: seq<Stores.Row>): seq<Item>
    requires Exports(exporter, rows)
  {
    seq(|rows|, i requires 0 <= i < |rows| => exporter(rows[i]).value)
  }

  /** The entries filed under a key, in order. */
  function EntriesUnder(items: seq<Item>, key: string): seq<Entry> {
    if items == [] then []
    else
      var last := items[|items| - 1];
      EntriesUnder(items[..|items| - 1], key) + if last.key == key then [last.entry] else []
  }

  /** Every key with its entries. */
  function Grouped(items: seq<Item>): map<string, seq<Entry>> {
    map key | key in (set item | item in items :: item.key) :: EntriesUnder(items, key)
  }

  lemma GroupedOneMore(items: seq<Item>, item: Item)
    ensures Grouped(items + [item]) ==
            var grouped := Grouped(items);
            grouped[item.key := (if item.key in grouped then grouped[item.key] else []) + [item.entry]]
  {
    var more := items + [item];
    assert more[..|more| - 1] == items;
    assert forall x :: x in more <==> x in items || x == item;
    var grouped := Grouped(items);
    var next := grouped[item.key := (if item.key in grouped then grouped[item.key] else []) + [item.entry]];
    assert Grouped(more).Keys == next.Keys;
    forall key | key in next
      ensures Grouped(more)[key] == next[key]
    {
      if key !in grouped {
        NothingUnder(items, key);
      }
    }
  }

  lemma {:induction false} NothingUnder(items: seq<Item>, key: string)
    requires forall item :: item in items ==> item.key != key
    ensures EntriesUnder(items, key) == []
  {
    if items != [] {
      NothingUnder(items[..|items| - 1], key);
    }
  }

  function Groups(host: Host, rows: seq<Stores.Row>): Option<map<string, seq<Entry>>> {
    if Exports(Exporter(host), rows) then Some(Grouped(ItemsOf(Exporter(host), rows))) else None
  }

  /** `export_bits`, over the rows in the order of their names; `None` when it raises. */
  method ExportBits(host: Host, rows: seq<Stores.Row>) returns (groups: Option<map<string, seq<Entry>>>)
    ensures groups == Groups(host, rows)
  {
    groups := GroupRows(Exporter(host), rows);
  }

  method GroupRows(exporter: Stores.Row -> Option<Item>, rows: seq<Stores.Row>)
    returns (groups: Option<map<string, seq<Entry>>>)
    ensures groups.Some? <==> Exports(exporter, rows)
    ensures groups.Some? ==> groups.value == Grouped(ItemsOf(exporter, rows))
  {
    var yml: map<string, seq<Entry>> := map[];
    ghost var done: seq<Item> := [];
    for i := 0 to |rows|
      invariant |done| == i
      invariant forall k :: 0 <= k < i ==> exporter(rows[k]) == Some(done[k])
      invariant yml == Grouped(done)
    {
      var item := exporter(rows[i]);
      if item.None? {
        return None;
      }
      var key := item.value.key;
      GroupedOneMore(done, item.value);
      var entries := if key in yml then yml[key] else [];
      yml := yml[key := entries + [item.value.entry]];
      done := done + [item.value];
    }
    assert done == ItemsOf(exporter, rows);
    return Some(yml);
  }

  // ---------------------------------------------------------------------------
  // Load
  // ---------------------------------------------------------------------------

  /** Whether a key names a class; `None` when its last segment is empty and indexing it raises. */
  function NamesClass(host: Host, key: string): Option<bool> {
    var dot := LastDot(key);
    if dot.None? then Some(false)
    else if dot.value + 1 == |key| then None
    else Some(host.upper(key[dot.value + 1]))
  }

  function ClassName(host: Host, key: string, creator: string): string {
    var dot := LastDot(key);
    if dot.Some? && NamesClass(host, key) == Some(true) then key[dot.value + 1..] else creator
  }

  function PvsOf(motor: bool, prefix: Option<string>, readPv: Option<string>): seq<Binding> {
    (if prefix.None? then []
     else [Binding("prefix", prefix.value)] +
          if motor
          then [Binding("user_setpoint", prefix.value), Binding("user_readback", prefix.value + ".RBV")]
          else []) +
    if readPv.None? then [] else [Binding("readback", readPv.value)]
  }

  predicate ValidPvs(pvs: seq<Binding>) {
    forall i :: 0 <= i < |pvs| ==> ValidPv(pvs[i].pv)
  }

  /** An empty value counts as an absent one. */
  function Given(value: Option<string>): Option<string> {
    if value == Some("") then None else value
  }

  function CreatorOf(entry: Entry): string {
    if entry.creator.Some? then entry.creator.value else entry.name
  }

  function KwargsOf(name: string, labels: seq<string>): map<string, Argument> {
    if labels != [] then map["name" := Text(name), "labels" := Texts(labels)] else map["name" := Text(name)]
  }

  function PathOf(host: Host, item: Item): string {
    if NamesClass(host, item.key) == Some(true) && item.entry.creator.None?
    then item.key
    else item.key + "." + CreatorOf(item.entry)
  }

  function PvsFrom(host: Host, item: Item): seq<Binding> {
    var entry := item.entry;
    var motor := host.motor(ClassName(host, item.key, CreatorOf(entry)), entry.labels);
    PvsOf(motor, Given(entry.prefix), Given(entry.readPv))
  }

  /** What `_process_entry` registers; `None` when it raises. */
  function Load(host: Host, item: Item): Option<Loaded> {
    var entry := item.entry;
    var className := ClassName(host, item.key, CreatorOf(entry));
    var prefix := Given(entry.prefix);
    if NamesClass(host, item.key).None? || !ValidName(entry.name) || !ValidPvs(PvsFrom(host, item)) then None
    else Some(Loaded(
      Device(entry.name, PvsFrom(host, item), entry.labels, host.describe(className, item.key, entry.labels)),
      Spec(entry.name, PathOf(host, item), if prefix.Some? then [Text(prefix.value)] else [],
           KwargsOf(entry.name, entry.labels), true, None)))
  }

  /** `_process_entry` for one profile. */
  function Loader(host: Host): Item -> Option<Loaded> {
    item => Load(host, item)
  }

  predicate AllLoad(load: Item -> Option<Loaded>, items: seq<Item>) {
    forall i :: 0 <= i < |items| ==> load(items[i]).Some?
  }

  function RegisteredWith(load: Item -> Option<Loaded>, before: Registry, item: Item): Registry {
    var loaded := load(item);
    if loaded.Some? then Added(before, loaded.value.device, Some(loaded.value.spec)) else before
  }

  /** A registry after the items that load have been registered in order. */
  function Registered(load: Item -> Option<Loaded>, before: Registry, items: seq<Item>): Registry {
    if items == [] then before
    else RegisteredWith(load, Registered(load, before, items[..|items| - 1]), items[|items| - 1])
  }

  function Tagged(key: string, entries: seq<Entry>): seq<Item> {
    seq(|entries|, i requires 0 <= i < |entries| => Item(key, entries[i]))
  }

  function GroupItems(group: Group): seq<Item> {
    if group.entries.Some? then Tagged(group.key, group.entries.value) else []
  }

  /** The items of a file in reading order. */
  function Flat(file: seq<Group>): seq<Item> {
    if file == [] then []
    else Flat(file[..|file| - 1]) + GroupItems(file[|file| - 1])
  }

  predicate WellShaped(file: seq<Group>) {
    forall i :: 0 <= i < |file| ==> file[i].entries.Some?
  }

  lemma RegisteredOneMore(load: Item -> Option<Loaded>, before: Registry, items: seq<Item>, item: Item)
    ensures Registered(load, before, items + [item]) == RegisteredWith(load, Registered(load, before, items), item)
    ensures AllLoad(load, items + [item]) <==> AllLoad(load, items) && load(item).Some?
  {
    var more := items + [item];
    assert more[..|more| - 1] == items && more[|more| - 1] == item;
    assert forall i :: 0 <= i < |items| ==> more[i] == items[i];
  }

  lemma {:induction false} RegisteredJoin(load: Item -> Option<Loaded>, before: Registry, a: seq<Item>, b: seq<Item>)
    ensures Registered(load, before, a + b) == Registered(load, Registered(load, before, a), b)
    ensures AllLoad(load, a + b) <==> AllLoad(load, a) && AllLoad(load, b)
  {
    if b == [] {
      assert a + b == a;
    } else {
      var init, last := b[..|b| - 1], b[|b| - 1];
      RegisteredJoin(load, before, a, init);
      RegisteredOneMore(load, before, a + init, last);
      RegisteredOneMore(load, Registered(load, before, a), init, last);
      assert a + b == a + init + [last] && b == init + [last];
    }
  }

  /** `_process_entry`. */
  method ProcessEntry(load: Item -> Option<Loaded>, registry: DeviceRegistry, item: Item) returns (ok: bool)
    modifies registry
    ensures ok == load(item).Some?
    ensures registry.Model() == RegisteredWith(load, old(registry.Model()), item)
  {
    var loaded := load(item);
    if loaded.Some? {
      registry.AddDevice(loaded.value.device, Some(loaded.value.spec));
    }
    return loaded.Some?;
  }

  /** The entries of one group. */
  method LoadEntries(load: Item -> Option<Loaded>, registry: DeviceRegistry, key: string, entries: seq<Entry>)
    returns (failures: nat)
    modifies registry
    ensures registry.Model() == Registered(load, old(registry.Model()), Tagged(key, entries))
    ensures failures == 0 <==> AllLoad(load, Tagged(key, entries))
  {
    ghost var items: seq<Item> := [];
    failures := 0;
    for j := 0 to |entries|
      invariant items == Tagged(key, entries)[..j]
      invariant registry.Model() == Registered(load, old(registry.Model()), items)
      invariant failures == 0 <==> AllLoad(load, items)
    {
      var item := Item(key, entries[j]);
      RegisteredOneMore(load, old(registry.Model()), items, item);
      items := items + [item];
      var ok := ProcessEntry(load, registry, item);
      failures := failures + if ok then 0 else 1;
    }
    assert items == Tagged(key, entries);
  }

  lemma FlatOneMore(file: seq<Group>, i: nat)
    requires i < |file|
    ensures Flat(file[..i + 1]) == Flat(file[..i]) + GroupItems(file[i])
    ensures WellShaped(file[..i + 1]) <==> WellShaped(file[..i]) && file[i].entries.Some?
  {
    var done := file[..i + 1];
    assert done[..i] == file[..i] && done[i] == file[i];
  }

  /** `load_registry`: one failing entry refuses the whole file. */
  method LoadRegistry(host: Host, file: seq<Group>) returns (loaded: Option<DeviceRegistry>)
    ensures loaded.Some? <==> WellShaped(file) && AllLoad(Loader(host), Flat(file))
    ensures loaded.Some? ==> fresh(loaded.value) && loaded.value.Model() == Registered(Loader(host), Empty, Flat(file))
  {
    var registry := new DeviceRegistry();
    var load := Loader(host);
    var failures := 0;
    ghost var items: seq<Item> := [];
    for i := 0 to |file|
      invariant items == Flat(file[..i])
      invariant fresh(registry) && registry.Model() == Registered(load, Empty, items)
      invariant failures >= 0
      invariant failures == 0 <==> WellShaped(file[..i]) && AllLoad(load, items)
    {
      var group := file[i];
      if group.entries.None? {
        failures := failures + 1;
      } else {
        var failed := LoadEntries(load, registry, group.key, group.entries.value);
        failures := failures + failed;
      }
      RegisteredJoin(load, Empty, items, GroupItems(group));
      FlatOneMore(file, i);
      items := items + GroupItems(group);
    }
    assert file[..|file|] == file;
    return if failures == 0 then Some(registry) else None;
  }

  /**
   The PVs a loaded device lists: its prefix, for a motor also the setpoint under the prefix and the
   readback under the prefix with its suffix, and the read PV; empty values count as absent.
   */
  lemma PvsSay(host: Host, item: Item, b: Binding)
    requires Load(host, item).Some?
    ensures var entry := item.entry;
      var hasPrefix := entry.prefix.Some? && entry.prefix.value != "";
      var motor := host.motor(ClassName(host, item.key, CreatorOf(entry)), entry.labels);
      b in Load(host, item).value.device.pvs <==>
        || (hasPrefix && b == Binding("prefix", entry.prefix.value))
        || (hasPrefix && motor && b == Binding("user_setpoint", entry.prefix.value))
        || (hasPrefix && motor && b == Binding("user_readback", entry.prefix.value + ".RBV"))
        || (entry.readPv.Some? && entry.readPv.value != "" && b == Binding("readback", entry.readPv.value))
  {
  }

  /** The class named for a device: that of its key, or its creator, which is its name if none is given. */
  lemma ClassNameSays(host: Host, front: string, last: string, entry: Entry)
    requires '.' !in last && last != ""
    ensures ClassName(host, front + "." + last, CreatorOf(entry)) ==
            if host.upper(last[0]) then last
            else if entry.creator.Some? then entry.creator.value else entry.name
  {
    LastDotOf(front, last);
    var key := front + "." + last;
    assert key[|front| + 1..] == last && key[|front| + 1] == last[0];
  }

  lemma {:induction false} LastDotOf(front: string, last: string)
    requires '.' !in last
    ensures LastDot(front + "." + last) == Some(|front|)
  {
    var s := front + "." + last;
    if last != "" {
      LastDotOf(front, last[..|last| - 1]);
      assert s[..|s| - 1] == front + "." + last[..|last| - 1];
    }
  }

  /** What a load makes of an entry besides its PVs. */
  lemma LoadSays(host: Host, item: Item)
    requires Load(host, item).Some?
    ensures var entry := item.entry;
      var loaded := Load(host, item).value;
      && loaded.device.name == entry.name && loaded.device.labels == entry.labels && loaded.spec.name == entry.name
      && loaded.spec.args == (if entry.prefix.Some? && entry.prefix.value != "" then [Text(entry.prefix.value)] else [])
      && loaded.spec.kwargs.Keys == (if entry.labels == [] then {"name"} else {"name", "labels"})
      && loaded.spec.kwargs["name"] == Text(entry.name)
      && (entry.labels != [] ==> loaded.spec.kwargs["labels"] == Texts(entry.labels))
      && loaded.spec.active && loaded.spec.framework.None?
      && loaded.spec.deviceClass == (if NamesClass(host, item.key).value && entry.creator.None? then item.key
                                     else item.key + "." + CreatorOf(entry))
      && loaded.device.details ==
         host.describe(ClassName(host, item.key, CreatorOf(entry)), item.key, entry.labels)
  {
  }

  /**
   What an export makes of a spec: its name; its first argument and its read PV where they are
   texts that are not empty; and the metadata's labels, else the spec's, a text being taken apart
   into its characters. It fails exactly when those labels cannot be listed.
   */
  lemma ExportSays(host: Host, device: Device, spec: Spec)
    ensures var exported := Exported(host, device, spec);
      var own := device.labels == [] && "labels" in spec.kwargs;
      && (exported.None? <==>
            own && spec.kwargs["labels"].Other? && host.listing(spec.kwargs["labels"].repr).None?)
      && (exported.Some? ==>
            var entry := exported.value.entry;
            && entry.name == spec.name
            && (forall text :: entry.prefix == Some(text) <==>
                  spec.args != [] && spec.args[0] == Text(text) && text != "")
            && (forall text :: entry.readPv == Some(text) <==>
                  "read_pv" in spec.kwargs && spec.kwargs["read_pv"] == Text(text) && text != "")
            && (!own ==> entry.labels == device.labels)
            && (own && spec.kwargs["labels"].Texts? ==> entry.labels == spec.kwargs["labels"].texts)
            && (own && spec.kwargs["labels"].Other? ==> Some(entry.labels) == host.listing(spec.kwargs["labels"].repr))
            && (own && spec.kwargs["labels"].Text? ==>
                  && |entry.labels| == |spec.kwargs["labels"].text|
                  && forall i :: 0 <= i < |entry.labels| ==> entry.labels[i] == [spec.kwargs["labels"].text[i]]))
  {
  }

  // ---------------------------------------------------------------------------
  // One spec there and back
  // ---------------------------------------------------------------------------

  /** A class path the two directions read alike: a class, or a factory in a module. */
  predicate ProperClass(host: Host, path: string) {
    var dot := LastDot(path);
    dot.Some? && (StartsUpper(host, path[dot.value + 1..]) || (dot.value > 0 && path[dot.value - 1] != '.'))
  }

  /** The key and the creator exported for a class path load as that class path exactly when it is proper. */
  lemma PathReturnsIff(host: Host, path: string, entry: Entry)
    requires entry.name != "" && entry.creator == KeyOf(host, path).1
    ensures var item := Item(KeyOf(host, path).0, entry);
            (NamesClass(host, item.key).Some? && PathOf(host, item) == path) <==> ProperClass(host, path)
  {
    var dot := LastDot(path);
    var item := Item(KeyOf(host, path).0, entry);
    if entry.creator.Some? {
      var module_ := path[..dot.value];
      assert path == module_ + "." + path[dot.value + 1..];
      EndsInDot(module_);
    } else if dot.Some? && dot.value + 1 < |path| {
      assert path[dot.value + 1..][0] == path[dot.value + 1];
    }
    assert |path + "." + entry.name| > |path|;
  }

  lemma EndsInDot(s: string)
    requires s != ""
    ensures (LastDot(s).Some? && LastDot(s).value + 1 == |s|) <==> s[|s| - 1] == '.'
  {
  }

  /** A readback name derived from a prefix is valid exactly when the prefix has no final newline. */
  lemma ReadbackValidIff(prefix: string)
    requires prefix != ""
    ensures ValidPv(prefix + ".RBV") <==> Printable(prefix)
  {
    var readback := prefix + ".RBV";
    assert forall i :: 0 <= i < |prefix| ==> readback[i] == prefix[i];
    assert readback[|prefix|..] == ".RBV";
    assert forall i :: |prefix| <= i < |readback| ==> '!' <= readback[i] <= '~';
  }

  /** The prefix is accepted; a motor's must also be accepted with the readback suffix. */
  predicate PrefixLoads(motor: bool, prefix: string) {
    Printable(prefix) || (ValidPv(prefix) && !motor)
  }

  lemma PvsValidIff(motor: bool, prefix: Option<string>)
    requires prefix != Some("")
    ensures ValidPvs(PvsOf(motor, prefix, None)) <==> (prefix.Some? ==> PrefixLoads(motor, prefix.value))
  {
    var pvs := PvsOf(motor, prefix, None);
    if prefix.Some? {
      ReadbackValidIff(prefix.value);
      assert pvs[0].pv == prefix.value;
      if motor {
        assert pvs[1].pv == prefix.value && pvs[2].pv == prefix.value + ".RBV";
      }
    }
  }

  function LastSegment(path: string): string {
    var dot := LastDot(path);
    if dot.Some? then path[dot.value + 1..] else path
  }

  /** What the BITS schema can say about a spec. */
  predicate Representable(host: Host, device: Device, spec: Spec) {
    var labels := LabelsOf(host, device, spec);
    && labels.Some?
    && ProperClass(host, spec.deviceClass)
    && spec.kwargs == KwargsOf(spec.name, labels.value)
    && spec.active && spec.framework.None?
    && (spec.args == [] ||
        (&& |spec.args| == 1 && TextOf(spec.args[0]).Some?
         && PrefixLoads(LoadsAsMotor(host, spec.deviceClass, labels.value), spec.args[0].text)))
  }

  predicate LoadsAsMotor(host: Host, path: string, labels: seq<string>) {
    host.motor(ClassName(host, KeyOf(host, path).0, LastSegment(path)), labels)
  }

  predicate RoundTrips(host: Host, device: Device, spec: Spec) {
    var item := Exported(host, device, spec);
    item.Some? && Load(host, item.value).Some? && Load(host, item.value).value.spec == spec
  }

  /** A spec comes back from an export and a load exactly when the schema can represent it. */
  lemma RoundTripsIff(host: Host, device: Device, spec: Spec)
    requires ValidName(spec.name)
    ensures RoundTrips(host, device, spec) <==> Representable(host, device, spec)
  {
    var exported := Exported(host, device, spec);
    if exported.Some? {
      var item := exported.value;
      PathReturnsIff(host, spec.deviceClass, item.entry);
      if ProperClass(host, spec.deviceClass) && item.entry.readPv.None? {
        SameClassName(host, spec.deviceClass, item.entry);
        PvsValidIff(LoadsAsMotor(host, spec.deviceClass, item.entry.labels), item.entry.prefix);
      }
      NoReadPv(spec.name, item.entry.labels);
    }
  }

  lemma NoReadPv(name: string, labels: seq<string>)
    ensures "read_pv" !in KwargsOf(name, labels)
  {
  }

  lemma SameClassName(host: Host, path: string, entry: Entry)
    requires ProperClass(host, path) && entry.creator == KeyOf(host, path).1
    ensures ClassName(host, KeyOf(host, path).0, CreatorOf(entry)) ==
            ClassName(host, KeyOf(host, path).0, LastSegment(path))
  {
  }

  /**
   What was loaded from an export is exported again as the same item exactly when the class
   path is proper and no read PV was exported.
   */
  lemma ReexportIff(host: Host, device: Device, spec: Spec, item: Item)
    requires Exported(host, device, spec) == Some(item) && Load(host, item).Some?
    ensures var loaded := Load(host, item).value;
            Exported(host, loaded.device, loaded.spec) == Some(item) <==>
            ProperClass(host, spec.deviceClass) && item.entry.readPv.None?
  {
    var loaded := Load(host, item).value;
    PathReturnsIff(host, spec.deviceClass, item.entry);
    NoReadPv(spec.name, item.entry.labels);
    LabelsReturn(host, loaded.device, loaded.spec, item.entry.labels);
    if !ProperClass(host, spec.deviceClass) {
      ImproperPathGrows(host, spec.deviceClass, item);
    }
  }

  lemma LabelsReturn(host: Host, device: Device, spec: Spec, labels: seq<string>)
    requires device.labels == labels && spec.kwargs == KwargsOf(spec.name, labels)
    ensures LabelsOf(host, device, spec) == Some(labels)
  {
  }

  /** An improper path that loads became a key on its own and comes back with the name appended. */
  lemma ImproperPathGrows(host: Host, path: string, item: Item)
    requires !ProperClass(host, path) && NamesClass(host, item.key).Some?
    requires item.entry.name != "" && item.key == KeyOf(host, path).0 && item.entry.creator == KeyOf(host, path).1
    ensures KeyOf(host, PathOf(host, item)) != (item.key, item.entry.creator)
  {
    assert item.entry.creator.None? by {
      ProperWithCreator(host, path, item.key);
    }
    assert PathOf(host, item) == path + "." + item.entry.name;
    var grown := LastDot(PathOf(host, item));
    assert PathOf(host, item)[|path|] == '.';
  }

  lemma ProperWithCreator(host: Host, path: string, key: string)
    requires key == KeyOf(host, path).0 && NamesClass(host, key).Some?
    ensures KeyOf(host, path).1.Some? ==> ProperClass(host, path)
  {
    if KeyOf(host, path).1.Some? {
      EndsInDot(key);
    }
  }

  // ---------------------------------------------------------------------------
  // Whole files
  // ---------------------------------------------------------------------------

  predicate DistinctNames(items: seq<Item>) {
    forall i, j :: 0 <= i < j < |items| ==> items[i].entry.name != items[j].entry.name
  }

  /** A file that lists the groups, each once, in some order. */
  ghost predicate Renders(file: seq<Group>, groups: map<string, seq<Entry>>) {
    && (forall i, j :: 0 <= i < j < |file| ==> file[i].key != file[j].key)
    && (forall i :: 0 <= i < |file| ==> file[i].key in groups && file[i].entries == Some(groups[file[i].key]))
    && (forall key :: key in groups ==> exists i :: 0 <= i < |file| && file[i].key == key)
  }

  lemma {:induction false} UnderHas(items: seq<Item>, key: string, entry: Entry)
    ensures entry in EntriesUnder(items, key) <==> Item(key, entry) in items
  {
    if items != [] {
      var init, last := items[..|items| - 1], items[|items| - 1];
      UnderHas(init, key, entry);
      assert items == init + [last];
    }
  }

  lemma {:induction false} UnderDistinct(items: seq<Item>, key: string)
    requires DistinctNames(items)
    ensures DistinctNames(Tagged(key, EntriesUnder(items, key)))
  {
    if items != [] {
      var init, last := items[..|items| - 1], items[|items| - 1];
      UnderDistinct(init, key);
      var under := EntriesUnder(init, key);
      forall i | 0 <= i < |under|
        ensures under[i].name != last.entry.name
      {
        UnderHas(init, key, under[i]);
        var k :| 0 <= k < |init| && init[k] == Item(key, under[i]);
        assert items[k] == init[k] && items[|items| - 1] == last;
      }
      assert forall i :: 0 <= i < |under| ==> Tagged(key, under)[i].entry == under[i];
    }
  }

  lemma SameName(items: seq<Item>, a: Item, b: Item)
    requires DistinctNames(items) && a in items && b in items && a.entry.name == b.entry.name
    ensures a == b
  {
    var i :| 0 <= i < |items| && items[i] == a;
    var j :| 0 <= j < |items| && items[j] == b;
    assert i == j;
  }

  /** The keys of a file are distinct and each lists the items filed under it. */
  predicate ListsItems(file: seq<Group>, items: seq<Item>) {
    && (forall i, j :: 0 <= i < j < |file| ==> file[i].key != file[j].key)
    && (forall i :: 0 <= i < |file| ==> file[i].entries == Some(EntriesUnder(items, file[i].key)))
  }

  predicate HasKey(file: seq<Group>, key: string) {
    exists i :: 0 <= i < |file| && file[i].key == key
  }

  lemma TaggedHas(items: seq<Item>, key: string, item: Item)
    ensures item in Tagged(key, EntriesUnder(items, key)) <==> item.key == key && item in items
  {
    var under := EntriesUnder(items, key);
    UnderHas(items, key, item.entry);
    if item.key == key && item in items {
      var k :| 0 <= k < |under| && under[k] == item.entry;
      assert Tagged(key, under)[k] == item;
    }
  }

  lemma {:induction false} FlatHas(file: seq<Group>, items: seq<Item>, item: Item)
    requires ListsItems(file, items)
    ensures item in Flat(file) <==> HasKey(file, item.key) && item in items
  {
    if file != [] {
      var init, last := file[..|file| - 1], file[|file| - 1];
      FlatHas(init, items, item);
      TaggedHas(items, last.key, item);
      assert HasKey(file, item.key) <==> HasKey(init, item.key) || last.key == item.key by {
        assert file == init + [last];
        assert file[|file| - 1].key == last.key;
      }
    }
  }

  lemma {:induction false} FlatDistinct(file: seq<Group>, items: seq<Item>)
    requires ListsItems(file, items) && DistinctNames(items)
    ensures DistinctNames(Flat(file))
  {
    if file != [] {
      var init, last := file[..|file| - 1], file[|file| - 1];
      var front, back := Flat(init), Tagged(last.key, EntriesUnder(items, last.key));
      FlatDistinct(init, items);
      UnderDistinct(items, last.key);
      forall i, j | 0 <= i < |front| && 0 <= j < |back|
        ensures front[i].entry.name != back[j].entry.name
      {
        FlatHas(init, items, front[i]);
        TaggedHas(items, last.key, back[j]);
        if front[i].entry.name == back[j].entry.name {
          SameName(items, front[i], back[j]);
        }
      }
    }
  }

  /** A rendered export lists every exported item exactly once. */
  lemma FlatPermutes(file: seq<Group>, items: seq<Item>)
    requires DistinctNames(items) && Renders(file, Grouped(items))
    ensures WellShaped(file) && DistinctNames(Flat(file))
    ensures forall item :: item in Flat(file) <==> item in items
  {
    FlatDistinct(file, items);
    forall item
      ensures item in Flat(file) <==> item in items
    {
      FlatHas(file, items, item);
      if item in items {
        assert item.key in Grouped(items);
      }
    }
  }

  /** What loading puts under each name. */
  ghost predicate Holds(load: Item -> Option<Loaded>, r: Registry, items: seq<Item>) {
    && r.devices.Keys == r.specs.Keys
    && (forall n :: n in r.devices ==> exists i :: 0 <= i < |items| && items[i].entry.name == n)
    && forall i :: 0 <= i < |items| ==>
         && items[i].entry.name in r.devices
         && load(items[i]) == Some(Loaded(r.devices[items[i].entry.name], r.specs[items[i].entry.name]))
  }

  lemma AddedHolds(load: Item -> Option<Loaded>, r: Registry, items: seq<Item>, item: Item)
    requires Holds(load, r, items) && item.entry.name !in r.devices
    requires load(item).Some? && load(item).value.device.name == item.entry.name
    ensures Holds(load, RegisteredWith(load, r, item), items + [item])
  {
    var next := RegisteredWith(load, r, item);
    var more := items + [item];
    forall i | 0 <= i < |more|
      ensures more[i].entry.name in next.devices
      ensures load(more[i]) == Some(Loaded(next.devices[more[i].entry.name], next.specs[more[i].entry.name]))
    {
    }
    forall n | n in next.devices
      ensures exists i :: 0 <= i < |more| && more[i].entry.name == n
    {
      if n == item.entry.name {
        assert more[|items|].entry.name == n;
      } else {
        var i :| 0 <= i < |items| && items[i].entry.name == n;
        assert more[i].entry.name == n;
      }
    }
  }

  ghost predicate HoldsWell(load: Item -> Option<Loaded>, r: Registry, items: seq<Item>) {
    WellFormed(r) && Holds(load, r, items)
  }

  lemma AddedHoldsWell(load: Item -> Option<Loaded>, r: Registry, items: seq<Item>, item: Item)
    requires HoldsWell(load, r, items)
    requires forall i :: 0 <= i < |items| ==> items[i].entry.name != item.entry.name
    requires load(item).Some? && load(item).value.device.name == item.entry.name
    ensures HoldsWell(load, RegisteredWith(load, r, item), items + [item])
  {
    assert item.entry.name !in r.devices;
    AddFreshKeeps(r, load(item).value.device, Some(load(item).value.spec));
    AddedHolds(load, r, items, item);
  }

  predicate LoadsByName(load: Item -> Option<Loaded>, items: seq<Item>) {
    forall i :: 0 <= i < |items| ==> load(items[i]).Some? && load(items[i]).value.device.name == items[i].entry.name
  }

  lemma EmptyHolds(load: Item -> Option<Loaded>)
    ensures HoldsWell(load, Empty, [])
  {
  }

  lemma InitLoads(load: Item -> Option<Loaded>, items: seq<Item>)
    requires LoadsByName(load, items) && DistinctNames(items) && items != []
    ensures var init, last := items[..|items| - 1], items[|items| - 1];
            && LoadsByName(load, init) && DistinctNames(init)
            && load(last).Some? && load(last).value.device.name == last.entry.name
            && forall i :: 0 <= i < |init| ==> init[i].entry.name != last.entry.name
  {
  }

  lemma LastHolds(load: Item -> Option<Loaded>, init: seq<Item>, last: Item, items: seq<Item>)
    requires items == init + [last]
    requires HoldsWell(load, Registered(load, Empty, init), init)
    requires forall i :: 0 <= i < |init| ==> init[i].entry.name != last.entry.name
    requires load(last).Some? && load(last).value.device.name == last.entry.name
    ensures HoldsWell(load, Registered(load, Empty, items), items)
  {
    AddedHoldsWell(load, Registered(load, Empty, init), init, last);
    RegisteredOneMore(load, Empty, init, last);
  }

  lemma {:induction false} RegisteredHolds(load: Item -> Option<Loaded>, items: seq<Item>)
    requires LoadsByName(load, items) && DistinctNames(items)
    ensures HoldsWell(load, Registered(load, Empty, items), items)
  {
    if items == [] {
      EmptyHolds(load);
    } else {
      var init, last := items[..|items| - 1], items[|items| - 1];
      InitLoads(load, items);
      RegisteredHolds(load, init);
      assert items == init + [last];
      LastHolds(load, init, last, items);
    }
  }

  /** The device table: distinct names, each with a spec of that name. */
  predicate Table(rows: seq<Stores.Row>) {
    && (forall i, j :: 0 <= i < j < |rows| ==> rows[i].device.name != rows[j].device.name)
    && (forall i :: 0 <= i < |rows| ==>
          rows[i].spec.Some? && rows[i].spec.value.name == rows[i].device.name && ValidName(rows[i].device.name))
  }

  /** A file rendered from the export of the table. */
  ghost predicate RenderedFrom(host: Host, rows: seq<Stores.Row>, file: seq<Group>) {
    Groups(host, rows).Some? && Renders(file, Groups(host, rows).value)
  }

  function LoadedFrom(host: Host, file: seq<Group>): Registry {
    Registered(Loader(host), Empty, Flat(file))
  }

  predicate Loads(host: Host, file: seq<Group>) {
    WellShaped(file) && AllLoad(Loader(host), Flat(file))
  }

  /**
   An exported file loads exactly when each exported entry does, and then each row's name holds
   what its entry loads as.
   */
  lemma FileLoads(host: Host, rows: seq<Stores.Row>, file: seq<Group>)
    requires Table(rows) && RenderedFrom(host, rows, file)
    ensures Loads(host, file) <==> AllLoad(Loader(host), ItemsOf(Exporter(host), rows))
    ensures Loads(host, file) ==>
      && WellFormed(LoadedFrom(host, file))
      && Holds(Loader(host), LoadedFrom(host, file), ItemsOf(Exporter(host), rows))
  {
    var items := ItemsOf(Exporter(host), rows);
    var flat := Flat(file);
    NamesExported(host, rows);
    FlatPermutes(file, items);
    SameMembersLoad(Loader(host), flat, items);
    if Loads(host, file) {
      LoadsKeepName(host, flat);
      RegisteredHolds(Loader(host), flat);
      SameMembersHold(Loader(host), LoadedFrom(host, file), flat, items);
    }
  }

  lemma NamesExported(host: Host, rows: seq<Stores.Row>)
    requires Table(rows) && Exports(Exporter(host), rows)
    ensures forall i :: 0 <= i < |rows| ==> ItemsOf(Exporter(host), rows)[i].entry.name == rows[i].device.name
    ensures DistinctNames(ItemsOf(Exporter(host), rows))
  {
  }

  lemma LoadsKeepName(host: Host, items: seq<Item>)
    requires AllLoad(Loader(host), items)
    ensures LoadsByName(Loader(host), items)
  {
  }

  lemma SameMembersLoad(load: Item -> Option<Loaded>, a: seq<Item>, b: seq<Item>)
    requires forall item :: item in a <==> item in b
    ensures AllLoad(load, a) <==> AllLoad(load, b)
  {
    assert forall i :: 0 <= i < |a| ==> a[i] in b;
    assert forall i :: 0 <= i < |b| ==> b[i] in a;
  }

  lemma SameMembersHold(load: Item -> Option<Loaded>, r: Registry, a: seq<Item>, b: seq<Item>)
    requires (forall item :: item in a <==> item in b) && Holds(load, r, a)
    ensures Holds(load, r, b)
  {
    forall i | 0 <= i < |b|
      ensures exists k :: 0 <= k < |a| && a[k] == b[i]
    {
      assert b[i] in a;
    }
    forall n | n in r.devices
      ensures exists i :: 0 <= i < |b| && b[i].entry.name == n
    {
      var k :| 0 <= k < |a| && a[k].entry.name == n;
      assert a[k] in b;
    }
  }

  /** The registry has exactly the specs of the table. */
  ghost predicate Restores(r: Registry, rows: seq<Stores.Row>) {
    && (forall n :: n in r.specs ==> exists i :: 0 <= i < |rows| && rows[i].device.name == n)
    && (forall i :: 0 <= i < |rows| ==>
          rows[i].device.name in r.specs && Some(r.specs[rows[i].device.name]) == rows[i].spec)
  }

  predicate AllRepresentable(host: Host, rows: seq<Stores.Row>)
    requires Table(rows)
  {
    forall i :: 0 <= i < |rows| ==> Representable(host, rows[i].device, rows[i].spec.value)
  }

  /**
   Loading an exported file, its groups in any order, gives back every spec of the table and
   no other exactly when the schema can represent all of them.
   */
  lemma FileRoundTripsIff(host: Host, rows: seq<Stores.Row>, file: seq<Group>)
    requires Table(rows) && RenderedFrom(host, rows, file)
    ensures Loads(host, file) && Restores(LoadedFrom(host, file), rows) <==> AllRepresentable(host, rows)
  {
    var items := ItemsOf(Exporter(host), rows);
    FileLoads(host, rows, file);
    NamesExported(host, rows);
    forall i | 0 <= i < |rows|
      ensures Returns(Loader(host), items[i], rows[i]) <==> Representable(host, rows[i].device, rows[i].spec.value)
    {
      assert Exported(host, rows[i].device, rows[i].spec.value) == Some(items[i]);
      RoundTripsIff(host, rows[i].device, rows[i].spec.value);
    }
    RestoresIff(Loader(host), rows, items, LoadedFrom(host, file), Loads(host, file));
  }

  predicate Returns(load: Item -> Option<Loaded>, item: Item, row: Stores.Row) {
    load(item).Some? && Some(load(item).value.spec) == row.spec
  }

  lemma RestoresIff(load: Item -> Option<Loaded>, rows: seq<Stores.Row>, items: seq<Item>, r: Registry, loads: bool)
    requires |items| == |rows| && forall i :: 0 <= i < |rows| ==> items[i].entry.name == rows[i].device.name
    requires loads <==> AllLoad(load, items)
    requires loads ==> Holds(load, r, items)
    ensures loads && Restores(r, rows) <==> forall i :: 0 <= i < |rows| ==> Returns(load, items[i], rows[i])
  {
    if forall i :: 0 <= i < |rows| ==> Returns(load, items[i], rows[i]) {
      forall n | n in r.specs
        ensures exists i :: 0 <= i < |rows| && rows[i].device.name == n
      {
        var i :| 0 <= i < |items| && items[i].entry.name == n;
        assert rows[i].device.name == n;
      }
    }
  }

  predicate HoldsNames(r: Registry, rows: seq<Stores.Row>) {
    forall i :: 0 <= i < |rows| ==> rows[i].device.name in r.devices
  }

  /** The table a loaded registry is seeded into, read in the order of the same names. */
  function Reseeded(r: Registry, rows: seq<Stores.Row>): seq<Stores.Row>
    requires HoldsNames(r, rows)
  {
    seq(|rows|, i requires 0 <= i < |rows| => Stores.RowOf(r, rows[i].device.name))
  }

  /** A row whose entry is the same after a load. */
  predicate Stable(host: Host, row: Stores.Row) {
    && row.spec.Some? && ProperClass(host, row.spec.value.deviceClass)
    && ("read_pv" in row.spec.value.kwargs ==> TextOf(row.spec.value.kwargs["read_pv"]).None?)
  }

  predicate AllStable(host: Host, rows: seq<Stores.Row>) {
    forall i :: 0 <= i < |rows| ==> Stable(host, rows[i])
  }

  /**
   Exporting what was loaded gives the same groups exactly when every row is stable.
   */
  lemma FileReexportsIff(host: Host, rows: seq<Stores.Row>, file: seq<Group>)
    requires Table(rows) && RenderedFrom(host, rows, file) && Loads(host, file)
    ensures HoldsNames(LoadedFrom(host, file), rows)
    ensures Groups(host, Reseeded(LoadedFrom(host, file), rows)) == Groups(host, rows) <==> AllStable(host, rows)
  {
    FileLoads(host, rows, file);
    TableExportedAs(host, rows);
    ReseededIff(host, rows, ItemsOf(Exporter(host), rows), LoadedFrom(host, file));
  }

  /** The rows export as the items, under distinct names. */
  predicate ExportedAs(exporter: Stores.Row -> Option<Item>, rows: seq<Stores.Row>, items: seq<Item>) {
    && |items| == |rows| && DistinctNames(items)
    && forall i :: 0 <= i < |rows| ==> exporter(rows[i]) == Some(items[i]) && items[i].entry.name == rows[i].device.name
  }

  lemma TableExportedAs(host: Host, rows: seq<Stores.Row>)
    requires Table(rows) && Exports(Exporter(host), rows)
    ensures ExportedAs(Exporter(host), rows, ItemsOf(Exporter(host), rows))
  {
    NamesExported(host, rows);
  }

  lemma ReseededIff(host: Host, rows: seq<Stores.Row>, items: seq<Item>, r: Registry)
    requires ExportedAs(Exporter(host), rows, items) && Holds(Loader(host), r, items)
    ensures HoldsNames(r, rows)
    ensures Groups(host, Reseeded(r, rows)) == Some(Grouped(items)) <==> AllStable(host, rows)
  {
    ReseededLoads(Loader(host), rows, items, r);
    RowsReexport(host, rows, Reseeded(r, rows), items);
    SameGroupsIff(Exporter(host), Reseeded(r, rows), items);
  }

  lemma ReseededLoads(load: Item -> Option<Loaded>, rows: seq<Stores.Row>, items: seq<Item>, r: Registry)
    requires |items| == |rows| && Holds(load, r, items)
    requires forall i :: 0 <= i < |rows| ==> items[i].entry.name == rows[i].device.name
    ensures HoldsNames(r, rows)
    ensures AllSeededAs(load, items, Reseeded(r, rows))
  {
    assert forall i :: 0 <= i < |rows| ==> items[i].entry.name in r.devices;
  }

  predicate SeededAs(load: Item -> Option<Loaded>, item: Item, row: Stores.Row) {
    row.spec.Some? && load(item) == Some(Loaded(row.device, row.spec.value))
  }

  predicate AllSeededAs(load: Item -> Option<Loaded>, items: seq<Item>, rows: seq<Stores.Row>) {
    |rows| == |items| && forall i :: 0 <= i < |items| ==> SeededAs(load, items[i], rows[i])
  }

  lemma RowsReexport(host: Host, rows: seq<Stores.Row>, again: seq<Stores.Row>, items: seq<Item>)
    requires |items| == |rows| == |again|
    requires forall i :: 0 <= i < |rows| ==> Exporter(host)(rows[i]) == Some(items[i])
    requires AllSeededAs(Loader(host), items, again)
    ensures SameNames(Exporter(host), again, items)
    ensures ExportExactly(Exporter(host), again, items) <==> AllStable(host, rows)
  {
    forall i | 0 <= i < |rows|
      ensures Exporter(host)(again[i]) == Some(items[i]) <==> Stable(host, rows[i])
      ensures Exporter(host)(again[i]).Some?
      ensures Exporter(host)(again[i]).value.entry.name == items[i].entry.name
    {
      assert SeededAs(Loader(host), items[i], again[i]);
      RowReexportsIff(host, rows[i], again[i], items[i]);
    }
  }

  predicate SameNames(exporter: Stores.Row -> Option<Item>, rows: seq<Stores.Row>, items: seq<Item>) {
    && |items| == |rows|
    && forall i :: 0 <= i < |rows| ==>
         exporter(rows[i]).Some? && exporter(rows[i]).value.entry.name == items[i].entry.name
  }

  predicate ExportExactly(exporter: Stores.Row -> Option<Item>, rows: seq<Stores.Row>, items: seq<Item>) {
    |items| == |rows| && forall i :: 0 <= i < |rows| ==> exporter(rows[i]) == Some(items[i])
  }

  lemma RowReexportsIff(host: Host, row: Stores.Row, again: Stores.Row, item: Item)
    requires ExportedRow(host, row) == Some(item) && again.spec.Some?
    requires Load(host, item) == Some(Loaded(again.device, again.spec.value))
    ensures ExportedRow(host, again) == Some(item) <==> Stable(host, row)
    ensures ExportedRow(host, again).Some? && ExportedRow(host, again).value.entry.name == item.entry.name
  {
    ReexportIff(host, row.device, row.spec.value, item);
    LabelsReturn(host, again.device, again.spec.value, item.entry.labels);
  }

  /** Groups of the same names in the same order agree exactly when every item does. */
  lemma SameGroupsIff(exporter: Stores.Row -> Option<Item>, rows: seq<Stores.Row>, items: seq<Item>)
    requires SameNames(exporter, rows, items) && DistinctNames(items)
    ensures Exports(exporter, rows)
    ensures Grouped(ItemsOf(exporter, rows)) == Grouped(items) <==> ExportExactly(exporter, rows, items)
  {
    var other := ItemsOf(exporter, rows);
    if Grouped(other) == Grouped(items) {
      forall i | 0 <= i < |rows|
        ensures exporter(rows[i]) == Some(items[i])
      {
        var item := items[i];
        assert item.key in Grouped(items);
        UnderHas(items, item.key, item.entry);
        UnderHas(other, item.key, item.entry);
        assert other[i].entry.name == item.entry.name;
        assert DistinctNames(other);
        SameName(other, other[i], item);
      }
    }
    if ExportExactly(exporter, rows, items) {
      assert other == items;
    }
  }
}
