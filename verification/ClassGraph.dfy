/**
 Two walks over the same classes: the loader enumerates every leaf PV of a device class
 (configuration_service/loader.py _walk_class_for_pvs), the resolver follows one dotted path
 (configuration_service/path_resolver.py _walk_class). They are meant to agree.

 Classes form a finite graph that may be cyclic. A component's suffix is missing, contains
 a format placeholder, or is a text (for a formatted component, with its braces unescaped).
 */
module ClassGraph {
  import opened Models

  type ClassId = nat

  datatype Suffix = NoSuffix | Placeholder | Fixed(text: string)

  /** What `getattr` finds on a class: a dynamic component, a component, or something else. */
  datatype Attribute =
    | Dynamic(cls: ClassId)
    | Component(suffix: Suffix, addsPrefix: bool, cls: ClassId)
    | NotComponent

  datatype Class = Class(isDevice: bool, attributes: map<string, Attribute>, componentNames: seq<string>)

  type Graph = map<ClassId, Class>

  ghost predicate Closed(g: Graph) {
    forall c, name :: c in g && name in g[c].attributes && !g[c].attributes[name].NotComponent? ==>
      g[c].attributes[name].cls in g
  }

  datatype Outcome =
    | Resolved(pv: string)
    | NeedsEnrichment(at: seq<string>)
    | NoSuchAttr(at: seq<string>, bad: string)

  /** `_resolve_component_pv`: the absolute PV of a component under a parent prefix. */
  function ComponentPv(suffix: Suffix, addsPrefix: bool, prefix: string): Option<string> {
    if !suffix.Fixed? then None
    else if addsPrefix then Some(prefix + suffix.text)
    else Some(suffix.text)
  }

  // ---------------------------------------------------------------------------
  // The enumeration
  // ---------------------------------------------------------------------------

  /** The PV the enumeration emits at `path` below class `c`, if it emits one. */
  function Emitted(g: Graph, c: ClassId, prefix: string, path: seq<string>): Option<string>
    decreases |path|
  {
    if path == [] || c !in g || path[0] !in g[c].componentNames || path[0] !in g[c].attributes then None
    else
      match g[c].attributes[path[0]]
      case NotComponent => None
      case Dynamic(k) => Emitted(g, k, prefix, path[1..])
      case Component(suffix, addsPrefix, k) =>
        var full := ComponentPv(suffix, addsPrefix, prefix);
        if full.None? then None
        else if k in g && g[k].isDevice then Emitted(g, k, full.value, path[1..])
        else if |path| == 1 then full
        else None
  }

  /** The class the enumeration descends into at component `name`, if it descends. */
  function Descends(g: Graph, c: ClassId, name: string): Option<ClassId> {
    if c !in g || name !in g[c].componentNames || name !in g[c].attributes then None
    else
      match g[c].attributes[name]
      case NotComponent => None
      case Dynamic(k) => Some(k)
      case Component(suffix, _, k) => if suffix.Fixed? && k in g && g[k].isDevice then Some(k) else None
  }

  /** Descending along `path` from `c` re-enters one of the classes above. */
  predicate Reenters(g: Graph, c: ClassId, path: seq<string>, above: set<ClassId>)
    decreases |path|
  {
    c in above ||
    (&& path != [] && Descends(g, c, path[0]).Some?
     && Reenters(g, Descends(g, c, path[0]).value, path[1..], above + {c}))
  }

  function Lookup(pvs: map<seq<string>, string>, key: seq<string>): Option<string> {
    if key in pvs then Some(pvs[key]) else None
  }

  predicate StartsWith(key: seq<string>, path: seq<string>) {
    |path| <= |key| && key[..|path|] == path
  }

  /** The dictionary `pvs` after everything below `c` is recorded under `path`. */
  ghost predicate Recorded(g: Graph, c: ClassId, prefix: string, path: seq<string>, names: seq<string>,
                           pvs: map<seq<string>, string>, after: map<seq<string>, string>) {
    forall key :: Lookup(after, key) ==
      if StartsWith(key, path) && |key| > |path| && key[|path|] in names && Emitted(g, c, prefix, key[|path|..]).Some?
      then Emitted(g, c, prefix, key[|path|..])
      else Lookup(pvs, key)
  }

  /** The recursive walk; `ok` is false when the cycle error is raised. */
  method Walk(g: Graph, c: ClassId, path: seq<string>, prefix: string, visited: set<ClassId>, pvs: map<seq<string>,
      string>)
    returns (ok: bool, after: map<seq<string>, string>)
    requires Closed(g) && c in g && visited <= g.Keys
    ensures ok ==> Recorded(g, c, prefix, path, g[c].componentNames, pvs, after)
    ensures ok ==> forall p :: !Reenters(g, c, p, visited)
    ensures !ok ==> exists p :: Reenters(g, c, p, visited)
    decreases g.Keys - visited, 1
  {
    after := pvs;
    if c in visited {
      assert Reenters(g, c, [], visited);
      return false, after;
    }
    var names := g[c].componentNames;
    for i := 0 to |names|
      invariant Recorded(g, c, prefix, path, names[..i], pvs, after)
      invariant forall p :: p != [] && p[0] in names[..i] ==> !Reenters(g, c, p, visited)
    {
      assert names[..i + 1] == names[..i] + [names[i]];
      ghost var before := after;
      ok, after := WalkComponent(g, c, names[i], path, prefix, visited, after);
      if !ok {
        return false, after;
      }
      RecordedThen(g, c, prefix, path, names[..i], [names[i]], pvs, before, after);
    }
    assert names[..|names|] == names;
    ok := true;
    forall p
      ensures !Reenters(g, c, p, visited)
    {
      if p != [] && p[0] !in names {
        assert Descends(g, c, p[0]).None?;
      }
    }
  }

  /** One turn of its loop: descend, record a leaf, or skip. */
  method WalkComponent(g: Graph, c: ClassId, name: string, path: seq<string>, prefix: string, visited: set<ClassId>,
      pvs: map<seq<string>, string>)
    returns (ok: bool, after: map<seq<string>, string>)
    requires Closed(g) && c in g && name in g[c].componentNames && visited <= g.Keys && c !in visited
    ensures ok ==> Recorded(g, c, prefix, path, [name], pvs, after)
    ensures ok ==> forall p :: p != [] && p[0] == name ==> !Reenters(g, c, p, visited)
    ensures !ok ==> exists p :: Reenters(g, c, p, visited)
    decreases g.Keys - visited, 0
  {
    ok, after := true, pvs;
    var down := Descends(g, c, name);
    if down.Some? {
      var cpt := g[c].attributes[name];
      var below := if cpt.Dynamic? then prefix else ComponentPv(cpt.suffix, cpt.addsPrefix, prefix).value;
      ok, after := Walk(g, down.value, path + [name], below, visited + {c}, pvs);
      if ok {
        NoReentryBelow(g, c, name, visited);
        DescentRecorded(g, c, prefix, path, name, below, pvs, after);
      } else {
        ghost var p :| Reenters(g, down.value, p, visited + {c});
        ReentersBelow(g, c, name, p, visited);
      }
    } else {
      if name in g[c].attributes && g[c].attributes[name].Component? {
        var cpt := g[c].attributes[name];
        var full := ComponentPv(cpt.suffix, cpt.addsPrefix, prefix);
        if full.Some? {
          after := pvs[path + [name] := full.value];
        }
      }
      LeafRecorded(g, c, prefix, path, name, pvs, after);
    }
  }

  lemma RecordedThen(g: Graph, c: ClassId, prefix: string, path: seq<string>, done: seq<string>, more: seq<string>,
                     pvs: map<seq<string>, string>, before: map<seq<string>, string>, after: map<seq<string>, string>)
    requires Recorded(g, c, prefix, path, done, pvs, before) && Recorded(g, c, prefix, path, more, before, after)
    ensures Recorded(g, c, prefix, path, done + more, pvs, after)
  {
  }

  lemma StartsWithMore(key: seq<string>, path: seq<string>, name: string)
    ensures StartsWith(key, path + [name]) <==> StartsWith(key, path) && |key| > |path| && key[|path|] == name
    ensures StartsWith(path + [name], path + [name])
  {
    var longer := path + [name];
    if |key| > |path| {
      assert key[..|longer|] == key[..|path|] + [key[|path|]];
      if key[..|longer|] == longer {
        assert key[..|path|] == longer[..|path|];
        assert key[|path|] == longer[|path|];
      }
    }
  }

  lemma ReentersBelow(g: Graph, c: ClassId, name: string, p: seq<string>, visited: set<ClassId>)
    requires Descends(g, c, name).Some? && Reenters(g, Descends(g, c, name).value, p, visited + {c})
    ensures Reenters(g, c, [name] + p, visited)
  {
    assert ([name] + p)[1..] == p;
  }

  lemma NoReentryBelow(g: Graph, c: ClassId, name: string, visited: set<ClassId>)
    requires Descends(g, c, name).Some? && c !in visited
    requires forall p :: !Reenters(g, Descends(g, c, name).value, p, visited + {c})
    ensures forall p :: p != [] && p[0] == name ==> !Reenters(g, c, p, visited)
  {
  }

  lemma EmittedBelow(g: Graph, c: ClassId, prefix: string, name: string, rest: seq<string>, below: string)
    requires Descends(g, c, name).Some?
    requires var cpt := g[c].attributes[name];
      below == if cpt.Dynamic? then prefix else ComponentPv(cpt.suffix, cpt.addsPrefix, prefix).value
    ensures Emitted(g, c, prefix, [name] + rest) == Emitted(g, Descends(g, c, name).value, below, rest)
  {
    assert ([name] + rest)[1..] == rest;
  }

  lemma EmittedNeedsComponent(g: Graph, c: ClassId, prefix: string, p: seq<string>)
    requires Emitted(g, c, prefix, p).Some?
    ensures p != [] && c in g && p[0] in g[c].componentNames
  {
  }

  lemma DescentRecorded(g: Graph, c: ClassId, prefix: string, path: seq<string>, name: string, below: string,
                        pvs: map<seq<string>, string>, after: map<seq<string>, string>)
    requires Descends(g, c, name).Some? && Descends(g, c, name).value in g
    requires var cpt := g[c].attributes[name];
      below == if cpt.Dynamic? then prefix else ComponentPv(cpt.suffix, cpt.addsPrefix, prefix).value
    requires var k := Descends(g, c, name).value;
      Recorded(g, k, below, path + [name], g[k].componentNames, pvs, after)
    ensures Recorded(g, c, prefix, path, [name], pvs, after)
  {
    var k := Descends(g, c, name).value;
    forall key: seq<string>
      ensures Lookup(after, key) ==
        if StartsWith(key, path) && |key| > |path| && key[|path|] in [name]
           && Emitted(g, c, prefix, key[|path|..]).Some?
        then Emitted(g, c, prefix, key[|path|..])
        else Lookup(pvs, key)
    {
      StartsWithMore(key, path, name);
      if StartsWith(key, path + [name]) {
        var rest := key[|path| + 1..];
        assert key[|path|..] == [name] + rest && key[|path + [name]|..] == rest;
        EmittedBelow(g, c, prefix, name, rest, below);
        if Emitted(g, k, below, rest).Some? {
          EmittedNeedsComponent(g, k, below, rest);
        }
      }
    }
  }

  lemma LeafRecorded(g: Graph, c: ClassId, prefix: string, path: seq<string>, name: string,
                     pvs: map<seq<string>, string>, after: map<seq<string>, string>)
    requires Closed(g) && c in g && name in g[c].componentNames && Descends(g, c, name).None?
    requires var emitted := Emitted(g, c, prefix, [name]);
      after == if emitted.Some? then pvs[path + [name] := emitted.value] else pvs
    ensures Recorded(g, c, prefix, path, [name], pvs, after)
  {
    forall key: seq<string>
      ensures Lookup(after, key) ==
        if StartsWith(key, path) && |key| > |path| && key[|path|] in [name]
           && Emitted(g, c, prefix, key[|path|..]).Some?
        then Emitted(g, c, prefix, key[|path|..])
        else Lookup(pvs, key)
    {
      StartsWithMore(key, path, name);
      if StartsWith(key, path + [name]) {
        var rest := key[|path|..];
        assert rest[0] == name;
        if |rest| == 1 {
          assert rest == [name] && key == path + [name];
        } else {
          assert Emitted(g, c, prefix, rest).None?;
        }
      }
    }
  }

  // ---------------------------------------------------------------------------
  // Following one path
  // ---------------------------------------------------------------------------

  /** The rest of the walk from segment `i`; `leaf` says the last segment resolved to a PV. */
  function Followed(g: Graph, c: ClassId, parts: seq<string>, i: nat, prefix: string, leaf: bool): Outcome
    requires i <= |parts|
    decreases |parts| - i
  {
    if i == |parts| then
      if leaf || parts == [] then Resolved(prefix) else NoSuchAttr(parts[..i - 1], parts[i - 1])
    else if c !in g || parts[i] !in g[c].attributes then NoSuchAttr(parts[..i], parts[i])
    else
      match g[c].attributes[parts[i]]
      case NotComponent => NoSuchAttr(parts[..i], parts[i])
      case Dynamic(k) => Followed(g, k, parts, i + 1, prefix, false)
      case Component(suffix, addsPrefix, k) =>
        match suffix
        case Placeholder => NeedsEnrichment(parts[..i + 1])
        case NoSuffix => NoSuchAttr(parts[..i], parts[i])
        case Fixed(_) => Followed(g, k, parts, i + 1, ComponentPv(suffix, addsPrefix, prefix).value, true)
  }

  method Follow(g: Graph, cls: ClassId, parts: seq<string>, prefix: string) returns (outcome: Outcome)
    requires Closed(g) && cls in g
    ensures outcome == Followed(g, cls, parts, 0, prefix, true)
  {
    var current, currentPrefix, leafResolved := cls, prefix, true;
    for i := 0 to |parts|
      invariant current in g && (parts == [] ==> leafResolved)
      invariant Followed(g, cls, parts, 0, prefix, true) == Followed(g, current, parts, i, currentPrefix, leafResolved)
    {
      if parts[i] !in g[current].attributes {
        return NoSuchAttr(parts[..i], parts[i]);
      }
      var cpt := g[current].attributes[parts[i]];
      if cpt.Dynamic? {
        current := cpt.cls;
        leafResolved := false;
        continue;
      }
      if cpt.NotComponent? {
        return NoSuchAttr(parts[..i], parts[i]);
      }
      if cpt.suffix.Placeholder? {
        return NeedsEnrichment(parts[..i + 1]);
      }
      if cpt.suffix.NoSuffix? {
        return NoSuchAttr(parts[..i], parts[i]);
      }
      currentPrefix := ComponentPv(cpt.suffix, cpt.addsPrefix, currentPrefix).value;
      current := cpt.cls;
      leafResolved := true;
    }
    if !leafResolved {
      return NoSuchAttr(parts[..|parts| - 1], parts[|parts| - 1]);
    }
    return Resolved(currentPrefix);
  }

  // ---------------------------------------------------------------------------
  // The two agree
  // ---------------------------------------------------------------------------

  /** Declared components, through sub-devices and dynamic components, down to a non-device leaf. */
  predicate DeclaredLeaf(g: Graph, c: ClassId, path: seq<string>)
    decreases |path|
  {
    && path != [] && c in g && path[0] in g[c].componentNames && path[0] in g[c].attributes
    && match g[c].attributes[path[0]]
       case NotComponent => false
       case Dynamic(k) => DeclaredLeaf(g, k, path[1..])
       case Component(_, _, k) => if k in g && g[k].isDevice then DeclaredLeaf(g, k, path[1..]) else |path| == 1
  }

  /**
   The enumeration emits a PV at a path exactly when the path leads through declared
   components to a leaf and the resolver resolves it, and then to that same PV.
   */
  lemma {:induction false} WalksAgreeFrom(g: Graph, c: ClassId, parts: seq<string>, i: nat, prefix: string,
      leaf: bool, pv: string)
    requires i < |parts|
    ensures Emitted(g, c, prefix, parts[i..]) == Some(pv) <==>
            DeclaredLeaf(g, c, parts[i..]) && Followed(g, c, parts, i, prefix, leaf) == Resolved(pv)
    decreases |parts| - i
  {
    var path := parts[i..];
    assert path[0] == parts[i] && path[1..] == parts[i + 1..];
    if c in g && path[0] in g[c].attributes && i + 1 < |parts| {
      match g[c].attributes[path[0]] {
        case NotComponent =>
        case Dynamic(k) => WalksAgreeFrom(g, k, parts, i + 1, prefix, false, pv);
        case Component(suffix, addsPrefix, k) =>
          if suffix.Fixed? {
            WalksAgreeFrom(g, k, parts, i + 1, ComponentPv(suffix, addsPrefix, prefix).value, true, pv);
          }
      }
    }
  }

  lemma WalksAgree(g: Graph, c: ClassId, path: seq<string>, prefix: string, pv: string)
    requires path != []
    ensures Emitted(g, c, prefix, path) == Some(pv) <==>
            DeclaredLeaf(g, c, path) && Followed(g, c, path, 0, prefix, true) == Resolved(pv)
  {
    assert path[0..] == path;
    WalksAgreeFrom(g, c, path, 0, prefix, true, pv);
  }

  /**
   When every descent goes down in some ranking of the classes, the walk never raises,
   however often a class repeats among siblings or cousins.
   */
  lemma {:induction false} RankedNeverReenters(g: Graph, rank: map<ClassId, nat>, c: ClassId, path: seq<string>,
      above: set<ClassId>)
    requires c in rank
    requires forall k, name :: k in rank && Descends(g, k, name).Some? ==>
      Descends(g, k, name).value in rank && rank[Descends(g, k, name).value] < rank[k]
    requires forall k :: k in above ==> k in rank && rank[k] > rank[c]
    ensures !Reenters(g, c, path, above)
    decreases |path|
  {
    if path != [] && Descends(g, c, path[0]).Some? {
      RankedNeverReenters(g, rank, Descends(g, c, path[0]).value, path[1..], above + {c});
    }
  }

  // ---------------------------------------------------------------------------
  // Dotted keys and addresses
  // ---------------------------------------------------------------------------

  function Join(parts: seq<string>): string {
    if parts == [] then ""
    else if |parts| == 1 then parts[0]
    else parts[0] + "." + Join(parts[1..])
  }

  /** `str.partition(".")`: the text before and after the first dot. */
  function Partition(s: string): (string, string, bool) {
    if s == "" then ("", "", false)
    else if s[0] == '.' then ("", s[1..], true)
    else
      var (head, tail, found) := Partition(s[1..]);
      ([s[0]] + head, tail, found)
  }

  lemma {:induction false} PartitionShorter(s: string)
    ensures Partition(s).2 ==> |Partition(s).1| < |s|
  {
    if s != "" && s[0] != '.' {
      PartitionShorter(s[1..]);
    }
  }

  /** `str.split(".")`. */
  function Split(s: string): seq<string>
    decreases |s|
  {
    PartitionShorter(s);
    var (head, tail, found) := Partition(s);
    if found then [head] + Split(tail) else [head]
  }

  lemma {:induction false} PartitionAt(head: string, tail: string)
    requires '.' !in head
    ensures Partition(head + "." + tail) == (head, tail, true)
  {
    var s := head + "." + tail;
    if head == "" {
      assert s[1..] == tail;
    } else {
      assert s[1..] == head[1..] + "." + tail;
      PartitionAt(head[1..], tail);
      assert [head[0]] + head[1..] == head;
    }
  }

  lemma {:induction false} PartitionNone(s: string)
    requires '.' !in s
    ensures Partition(s) == (s, "", false)
  {
    if s != "" {
      PartitionNone(s[1..]);
      assert [s[0]] + s[1..] == s;
    }
  }

  /** Splitting a dotted key gives back its segments. */
  lemma {:induction false} SplitJoin(parts: seq<string>)
    requires parts != [] && forall i :: 0 <= i < |parts| ==> '.' !in parts[i]
    ensures Split(Join(parts)) == parts
    decreases |parts|
  {
    if |parts| == 1 {
      PartitionNone(parts[0]);
    } else {
      PartitionAt(parts[0], Join(parts[1..]));
      SplitJoin(parts[1..]);
    }
  }

  lemma {:induction false} PartitionHead(s: string)
    ensures '.' !in Partition(s).0
  {
    if s != "" && s[0] != '.' {
      PartitionHead(s[1..]);
    }
  }

  /** `resolve` for a classic-ophyd class: the sub-path after the first dot is followed. */
  function ResolveAddress(g: Graph, root: ClassId, prefix: string, address: string): Outcome {
    var tail := Partition(address).1;
    if tail == "" then Resolved(prefix) else Followed(g, root, Split(tail), 0, prefix, true)
  }

  /** The device name is read back from an address exactly when it contains no dot. */
  lemma AddressSplitsIff(device: string, tail: string)
    ensures Partition(device + "." + tail).0 == device <==> '.' !in device
    ensures '.' !in device ==> Partition(device + "." + tail).1 == tail
  {
    PartitionHead(device + "." + tail);
    if '.' !in device {
      PartitionAt(device, tail);
    }
  }

  /**
   End to end: a dotted key the loader records resolves, as an address of its device, to the
   PV it was recorded with.
   */
  lemma RecordedKeyResolves(g: Graph, root: ClassId, prefix: string, device: string, path: seq<string>, pv: string)
    requires '.' !in device
    requires forall i :: 0 <= i < |path| ==> '.' !in path[i] && path[i] != ""
    requires Emitted(g, root, prefix, path) == Some(pv)
    ensures ResolveAddress(g, root, prefix, device + "." + Join(path)) == Resolved(pv)
  {
    AddressSplitsIff(device, Join(path));
    SplitJoin(path);
    WalksAgree(g, root, path, prefix, pv);
    assert Join(path) != "" by { assert path[0] != ""; }
  }

  // ---------------------------------------------------------------------------
  // The prefix an address is resolved with
  // ---------------------------------------------------------------------------

  /** Some component on the path takes no parent prefix: its PV is the same wherever the walk begins. */
  predicate Absolute(g: Graph, c: ClassId, path: seq<string>)
    decreases |path|
  {
    && path != [] && c in g && path[0] in g[c].attributes
    && match g[c].attributes[path[0]]
       case NotComponent => false
       case Dynamic(k) => Absolute(g, k, path[1..])
       case Component(_, addsPrefix, k) => !addsPrefix || Absolute(g, k, path[1..])
  }

  /** Another prefix gives another PV, unless the path is absolute. */
  lemma {:induction false} PrefixMatters(g: Graph, c: ClassId, walked: string, derived: string, path: seq<string>)
    requires Emitted(g, c, walked, path).Some?
    ensures Emitted(g, c, derived, path).Some?
    ensures Emitted(g, c, derived, path) == Emitted(g, c, walked, path) <==> derived == walked || Absolute(g, c, path)
    decreases |path|
  {
    match g[c].attributes[path[0]] {
      case Dynamic(k) => PrefixMatters(g, k, walked, derived, path[1..]);
      case Component(suffix, addsPrefix, k) =>
        SameStart(walked, derived, suffix.text);
        if k in g && g[k].isDevice {
          var below := ComponentPv(suffix, addsPrefix, walked).value;
          PrefixMatters(g, k, below, ComponentPv(suffix, addsPrefix, derived).value, path[1..]);
        }
    }
  }

  lemma SameStart(a: string, b: string, tail: string)
    ensures a + tail == b + tail <==> a == b
  {
    if a + tail == b + tail {
      assert |a| == |b|;
      assert a == (a + tail)[..|a|] && b == (b + tail)[..|b|];
    }
  }

  /** The longest start of `a` that is also a start of `b`. */
  function Shared(a: string, b: string): string
    decreases |a|
  {
    if a <= b then a else Shared(a[..|a| - 1], b)
  }

  function SharedByAll(first: string, rest: seq<string>): string {
    if rest == [] then first else Shared(SharedByAll(first, rest[..|rest| - 1]), rest[|rest| - 1])
  }

  /** The registry's prefix for a device: its "prefix" PV, a first argument with a colon, or what its PVs share. */
  function DerivedPrefix(pvs: seq<Binding>, arg: Option<string>): Option<string> {
    if NamesPrefix(pvs) then Some(PrefixPv(pvs))
    else if arg.Some? && ':' in arg.value then arg
    else if pvs == [] then None
    else
      var shared := SharedByAll(pvs[0].pv, PvsAfterFirst(pvs));
      if shared == "" && |pvs| > 1 then None else Some(shared)
  }

  predicate NamesPrefix(pvs: seq<Binding>) {
    exists i :: 0 <= i < |pvs| && pvs[i].component == "prefix"
  }

  function PrefixPv(pvs: seq<Binding>): string
    requires NamesPrefix(pvs)
  {
    if pvs[0].component == "prefix" then pvs[0].pv else PrefixPv(pvs[1..])
  }

  function PvsAfterFirst(pvs: seq<Binding>): seq<string>
    requires pvs != []
  {
    seq(|pvs| - 1, i requires 0 <= i < |pvs| - 1 => pvs[i + 1].pv)
  }

  /** `_get_device_prefix`. */
  method GetDevicePrefix(pvs: seq<Binding>, arg: Option<string>) returns (prefix: Option<string>)
    ensures prefix == DerivedPrefix(pvs, arg)
  {
    if NamesPrefix(pvs) {
      return Some(PrefixPv(pvs));
    }
    if arg.Some? && ':' in arg.value {
      return arg;
    }
    if pvs == [] {
      return None;
    }
    var rest := PvsAfterFirst(pvs);
    var shared := pvs[0].pv;
    for i := 0 to |rest|
      invariant shared == SharedByAll(pvs[0].pv, rest[..i])
    {
      assert rest[..i + 1][..i] == rest[..i];
      while !(shared <= rest[i])
        invariant Shared(shared, rest[i]) == SharedByAll(pvs[0].pv, rest[..i + 1])
        decreases |shared|
      {
        shared := shared[..|shared| - 1];
        if shared == "" {
          SharedByEmpty(pvs[0].pv, rest, i + 1);
          return None;
        }
      }
    }
    assert rest[..|rest|] == rest;
    return if shared == "" && |pvs| > 1 then None else Some(shared);
  }

  /** Once nothing is shared, nothing is shared by more. */
  lemma {:induction false} SharedByEmpty(first: string, rest: seq<string>, done: nat)
    requires done <= |rest| && SharedByAll(first, rest[..done]) == ""
    ensures SharedByAll(first, rest) == ""
    decreases |rest|
  {
    if done == |rest| {
      assert rest[..done] == rest;
    } else {
      assert rest[..|rest| - 1][..done] == rest[..done];
      SharedByEmpty(first, rest[..|rest| - 1], done);
    }
  }

  /** What is shared is the longest common start. */
  lemma {:induction false} SharedIsLongest(first: string, rest: seq<string>, start: string)
    ensures start <= SharedByAll(first, rest) <==> start <= first && forall i :: 0 <= i < |rest| ==> start <= rest[i]
  {
    if rest != [] {
      var init, last := rest[..|rest| - 1], rest[|rest| - 1];
      SharedIsLongest(first, init, start);
      SharedOfTwo(SharedByAll(first, init), last, start);
      assert forall i :: 0 <= i < |init| ==> rest[i] == init[i];
    }
  }

  lemma {:induction false} SharedOfTwo(a: string, b: string, start: string)
    ensures start <= Shared(a, b) <==> start <= a && start <= b
    decreases |a|
  {
    if !(a <= b) {
      SharedOfTwo(a[..|a| - 1], b, start);
    }
  }

  /**
   A recorded key resolves to its PV under another prefix exactly when that is the walked one or
   the path is absolute.
   */
  lemma OtherPrefixIff(g: Graph, root: ClassId, walked: string, device: string, path: seq<string>, pv: string,
    other: string)
    requires '.' !in device
    requires forall i :: 0 <= i < |path| ==> '.' !in path[i] && path[i] != ""
    requires Emitted(g, root, walked, path) == Some(pv)
    ensures ResolveAddress(g, root, other, device + "." + Join(path)) == Resolved(pv) <==>
            other == walked || Absolute(g, root, path)
  {
    PrefixMatters(g, root, walked, other, path);
    RecordedKeyResolves(g, root, other, device, path, Emitted(g, root, other, path).value);
  }

  /** The endpoint for a registered device with a spec; without a derivable prefix it refuses the address. */
  function Answered(g: Graph, root: ClassId, pvs: seq<Binding>, arg: Option<string>, address: string): Option<Outcome> {
    match DerivedPrefix(pvs, arg)
    case None => None
    case Some(prefix) => Some(ResolveAddress(g, root, prefix, address))
  }

  /**
   End to end: the endpoint answers a recorded key with its PV exactly when it derives a prefix
   at all, and that is the one the loader walked with or the path is absolute.
   */
  lemma RecordedAddressIff(g: Graph, root: ClassId, walked: string, device: string, path: seq<string>, pv: string,
    pvs: seq<Binding>, arg: Option<string>)
    requires '.' !in device
    requires forall i :: 0 <= i < |path| ==> '.' !in path[i] && path[i] != ""
    requires Emitted(g, root, walked, path) == Some(pv)
    ensures Answered(g, root, pvs, arg, device + "." + Join(path)) == Some(Resolved(pv)) <==>
            && DerivedPrefix(pvs, arg).Some?
            && (DerivedPrefix(pvs, arg).value == walked || Absolute(g, root, path))
  {
    if DerivedPrefix(pvs, arg).Some? {
      OtherPrefixIff(g, root, walked, device, path, pv, DerivedPrefix(pvs, arg).value);
    }
  }

  /** A PV recorded at a path that is not absolute starts with the walked prefix. */
  lemma {:induction false} RelativeStartsWith(g: Graph, c: ClassId, walked: string, path: seq<string>)
    requires Emitted(g, c, walked, path).Some? && !Absolute(g, c, path)
    ensures walked <= Emitted(g, c, walked, path).value
    decreases |path|
  {
    match g[c].attributes[path[0]] {
      case Dynamic(k) => RelativeStartsWith(g, k, walked, path[1..]);
      case Component(suffix, addsPrefix, k) =>
        if k in g && g[k].isDevice {
          RelativeStartsWith(g, k, walked + suffix.text, path[1..]);
        }
    }
  }

  /**
   The derived prefix is the walked one when that was a first argument with a colon and no PV is
   recorded under the name "prefix". When the walk took a first argument without a colon, or the
   entry's own prefix, it is what the recorded PVs share, which is at least the walked prefix if
   none of the recorded paths is absolute.
   */
  lemma DerivedIsWalked(g: Graph, root: ClassId, walked: string, paths: seq<seq<string>>, pvs: seq<Binding>,
    arg: Option<string>)
    requires !NamesPrefix(pvs) && |paths| == |pvs|
    requires forall i :: 0 <= i < |pvs| ==> Emitted(g, root, walked, paths[i]) == Some(pvs[i].pv)
    ensures arg == Some(walked) && ':' in walked ==> DerivedPrefix(pvs, arg) == Some(walked)
    ensures !(arg.Some? && ':' in arg.value) && pvs != [] && walked != "" ==>
            (forall i :: 0 <= i < |paths| ==> !Absolute(g, root, paths[i])) ==>
            DerivedPrefix(pvs, arg).Some? && walked <= DerivedPrefix(pvs, arg).value
  {
    if pvs != [] && forall i :: 0 <= i < |paths| ==> !Absolute(g, root, paths[i]) {
      forall i | 0 <= i < |pvs|
        ensures walked <= pvs[i].pv
      {
        RelativeStartsWith(g, root, walked, paths[i]);
      }
      SharedIsLongest(pvs[0].pv, PvsAfterFirst(pvs), walked);
    }
  }

  /** Two absolute PVs that share nothing: both are recorded, and the endpoint refuses their addresses. */
  lemma NothingSharedIsRefused(walked: string, device: string)
    requires '.' !in device && ':' !in walked
    ensures var x, y := Component(Fixed("X"), false, 1), Component(Fixed("Y"), false, 1);
            var g := map[0 := Class(true, map["a" := x, "b" := y], ["a", "b"]),
                         1 := Class(false, map[], [])];
            var pvs := [Binding("a", "X"), Binding("b", "Y")];
            && Emitted(g, 0, walked, ["a"]) == Some("X") && Emitted(g, 0, walked, ["b"]) == Some("Y")
            && Absolute(g, 0, ["a"])
            && Answered(g, 0, pvs, Some(walked), device + "." + Join(["a"])) == None
  {
    var pvs := [Binding("a", "X"), Binding("b", "Y")];
    assert PvsAfterFirst(pvs) == ["Y"] && ["Y"][..0] == [];
    var x, y := "X", "Y";
    assert x[0] != y[0] && !(x <= y);
    assert x[..0] == "" && Shared(x, y) == Shared(x[..0], y);
    assert SharedByAll(x, [y]) == Shared(SharedByAll(x, []), y);
  }

  /** A class with one leaf, walked with the prefix of its entry: the address resolves to the suffix twice. */
  lemma OneLeafResolvesTwice(walked: string, suffix: string, device: string)
    requires '.' !in device && walked != "" && suffix != ""
    ensures var g := map[0 := Class(true, map["value" := Component(Fixed(suffix), true, 1)], ["value"]),
                         1 := Class(false, map[], [])];
            && Emitted(g, 0, walked, ["value"]) == Some(walked + suffix)
            && DerivedPrefix([Binding("value", walked + suffix)], None) == Some(walked + suffix)
            && ResolveAddress(g, 0, walked + suffix, device + "." + Join(["value"])) != Resolved(walked + suffix)
  {
    var g := map[0 := Class(true, map["value" := Component(Fixed(suffix), true, 1)], ["value"]),
                 1 := Class(false, map[], [])];
    OtherPrefixIff(g, 0, walked, device, ["value"], walked + suffix, walked + suffix);
    assert |walked + suffix| > |walked|;
  }

  /** `_walk_class_for_pvs` once the class is imported: nothing for a class that is no device. */
  method WalkClassForPvs(g: Graph, root: ClassId, prefix: string) returns (pvs: Option<map<seq<string>, string>>)
    requires Closed(g) && root in g
    ensures pvs.None? <==> g[root].isDevice && exists p :: Reenters(g, root, p, {})
    ensures pvs.Some? && !g[root].isDevice ==> pvs.value == map[]
    ensures pvs.Some? && g[root].isDevice ==> forall path :: Lookup(pvs.value, path) == Emitted(g, root, prefix, path)
  {
    if !g[root].isDevice {
      return Some(map[]);
    }
    var ok, all := Walk(g, root, [], prefix, {}, map[]);
    if !ok {
      return None;
    }
    forall path: seq<string>
      ensures Lookup(all, path) == Emitted(g, root, prefix, path)
    {
      assert StartsWith(path, []) && path[0..] == path;
      if Emitted(g, root, prefix, path).Some? {
        EmittedNeedsComponent(g, root, prefix, path);
      }
    }
    return Some(all);
  }

  // ---------------------------------------------------------------------------
  // What a path says
  // ---------------------------------------------------------------------------

  /** Every component on the path but dynamic ones has a suffix known without an instance. */
  predicate StaticPath(g: Graph, c: ClassId, path: seq<string>)
    decreases |path|
  {
    path == [] ||
    (&& c in g && path[0] in g[c].attributes
     && match g[c].attributes[path[0]]
        case NotComponent => false
        case Dynamic(k) => StaticPath(g, k, path[1..])
        case Component(suffix, _, k) => suffix.Fixed? && StaticPath(g, k, path[1..]))
  }

  /** The suffixes of the path, from the last component that takes no parent prefix on. */
  function Suffixes(g: Graph, c: ClassId, path: seq<string>): string
    requires StaticPath(g, c, path)
    decreases |path|
  {
    if path == [] then ""
    else match g[c].attributes[path[0]]
      case Dynamic(k) => Suffixes(g, k, path[1..])
      case Component(suffix, _, k) =>
        if Absolute(g, k, path[1..]) then Suffixes(g, k, path[1..]) else suffix.text + Suffixes(g, k, path[1..])
  }

  /**
   The enumeration emits a PV exactly at the declared leaves whose components all have static
   suffixes: the walked prefix, unless the path is absolute, followed by those suffixes in order.
   */
  lemma {:induction false} EmittedIs(g: Graph, c: ClassId, walked: string, path: seq<string>)
    requires path != []
    ensures Emitted(g, c, walked, path).Some? <==> DeclaredLeaf(g, c, path) && StaticPath(g, c, path)
    ensures Emitted(g, c, walked, path).Some? ==>
      Emitted(g, c, walked, path).value == (if Absolute(g, c, path) then "" else walked) + Suffixes(g, c, path)
    decreases |path|
  {
    if |path| > 1 && c in g && path[0] in g[c].componentNames && path[0] in g[c].attributes {
      match g[c].attributes[path[0]] {
        case Dynamic(k) => EmittedIs(g, k, walked, path[1..]);
        case Component(suffix, addsPrefix, k) =>
          if suffix.Fixed? {
            EmittedIs(g, k, ComponentPv(suffix, addsPrefix, walked).value, path[1..]);
          }
        case NotComponent =>
      }
    }
  }

  /** The component at which a walk of the first `i` segments stands, if every one of them is a component. */
  function ReachedClass(g: Graph, c: ClassId, parts: seq<string>, i: nat): Option<ClassId>
    requires i <= |parts|
    decreases i
  {
    if i == 0 then Some(c)
    else match ReachedClass(g, c, parts, i - 1)
      case None => None
      case Some(k) =>
        if k !in g || parts[i - 1] !in g[k].attributes then None
        else match g[k].attributes[parts[i - 1]]
          case NotComponent => None
          case Dynamic(next) => Some(next)
          case Component(suffix, _, next) => if suffix.Fixed? then Some(next) else None
  }

  /** Where the walk stops and why: at the first segment that is no resolvable component. */
  predicate StopsAt(g: Graph, k: ClassId, segment: string, outcome: Outcome, at: seq<string>) {
    if k !in g || segment !in g[k].attributes || g[k].attributes[segment].NotComponent?
    then outcome == NoSuchAttr(at, segment)
    else g[k].attributes[segment].Component? && match g[k].attributes[segment].suffix
      case NoSuffix => outcome == NoSuchAttr(at, segment)
      case Placeholder => outcome == NeedsEnrichment(at + [segment])
      case Fixed(_) => false
  }

  /**
   A walk that does not resolve stops at the first segment that is missing, no component or
   without a static suffix, names the segments before it, and asks for enrichment exactly for a
   format placeholder; or it runs through and ends at a dynamic component, which it names.
   */
  lemma {:induction false} FailureSays(g: Graph, c: ClassId, parts: seq<string>, i: nat, k: ClassId, prefix: string,
    leaf: bool)
    requires i <= |parts| && ReachedClass(g, c, parts, i) == Some(k) && (i == 0 ==> leaf)
    requires !Followed(g, k, parts, i, prefix, leaf).Resolved?
    ensures var outcome := Followed(g, k, parts, i, prefix, leaf);
      || (exists j, stop :: i <= j < |parts| && ReachedClass(g, c, parts, j) == Some(stop)
                         && StopsAt(g, stop, parts[j], outcome, parts[..j]))
      || (&& |parts| > 0 && ReachedClass(g, c, parts, |parts|).Some?
          && outcome == NoSuchAttr(parts[..|parts| - 1], parts[|parts| - 1]))
    decreases |parts| - i
  {
    if i < |parts| {
      if k in g && parts[i] in g[k].attributes && g[k].attributes[parts[i]].Dynamic? {
        FailureSays(g, c, parts, i + 1, g[k].attributes[parts[i]].cls, prefix, false);
      } else if k in g && parts[i] in g[k].attributes && g[k].attributes[parts[i]].Component?
                && g[k].attributes[parts[i]].suffix.Fixed? {
        var cpt := g[k].attributes[parts[i]];
        FailureSays(g, c, parts, i + 1, cpt.cls, ComponentPv(cpt.suffix, cpt.addsPrefix, prefix).value, true);
      } else {
        assert StopsAt(g, k, parts[i], Followed(g, k, parts, i, prefix, leaf), parts[..i]);
      }
    }
  }

  /** A PV named "prefix" is taken before anything else, and the first of that name counts. */
  lemma {:induction false} NamedPrefixWins(pvs: seq<Binding>, i: nat, arg: Option<string>)
    requires i < |pvs| && pvs[i].component == "prefix" && forall j :: 0 <= j < i ==> pvs[j].component != "prefix"
    ensures DerivedPrefix(pvs, arg) == Some(pvs[i].pv)
  {
    if i > 0 {
      assert forall j :: 0 <= j < i - 1 ==> pvs[1..][j] == pvs[j + 1];
      assert pvs[1..][i - 1] == pvs[i];
      NamedPrefixWins(pvs[1..], i - 1, arg);
    }
  }

  /** Without a PV of that name or an argument with a colon, it is the longest common start, if there is one. */
  lemma SharedPrefixSays(pvs: seq<Binding>, arg: Option<string>, start: string)
    requires pvs != [] && (forall i :: 0 <= i < |pvs| ==> pvs[i].component != "prefix")
    requires arg.Some? ==> ':' !in arg.value
    requires start != ""
    ensures (DerivedPrefix(pvs, arg).Some? && start <= DerivedPrefix(pvs, arg).value) <==>
            forall i :: 0 <= i < |pvs| ==> start <= pvs[i].pv
  {
    SharedIsLongest(pvs[0].pv, PvsAfterFirst(pvs), start);
    assert forall i :: 0 < i < |pvs| ==> pvs[i].pv == PvsAfterFirst(pvs)[i - 1];
  }

  /** An address that is a device's name alone, or ends at its dot, resolves to the prefix. */
  lemma BareNameResolves(g: Graph, root: ClassId, pvs: seq<Binding>, arg: Option<string>, device: string)
    requires '.' !in device && DerivedPrefix(pvs, arg).Some?
    ensures Answered(g, root, pvs, arg, device) == Some(Resolved(DerivedPrefix(pvs, arg).value))
    ensures Answered(g, root, pvs, arg, device + ".") == Some(Resolved(DerivedPrefix(pvs, arg).value))
  {
    PartitionNone(device);
    PartitionAt(device, "");
    assert device + "." + "" == device + ".";
  }

  /** Components all the way, each with a static suffix or dynamic, and the last one not dynamic. */
  predicate LeadsToPv(g: Graph, c: ClassId, path: seq<string>) {
    && StaticPath(g, c, path)
    && (path != [] ==>
          var last := ReachedClass(g, c, path, |path| - 1);
          last.Some? && last.value in g && path[|path| - 1] in g[last.value].attributes
          && g[last.value].attributes[path[|path| - 1]].Component?)
  }

  /** A walk resolves exactly on such a path, to the prefix, unless the path is absolute, and its suffixes. */
  lemma FollowsIff(g: Graph, c: ClassId, path: seq<string>, prefix: string)
    ensures var outcome := Followed(g, c, path, 0, prefix, true);
      && (outcome.Resolved? <==> LeadsToPv(g, c, path))
      && (outcome.Resolved? ==>
            outcome == Resolved((if Absolute(g, c, path) then "" else prefix) + Suffixes(g, c, path)))
  {
    FollowsFrom(g, c, c, path, 0, prefix, true);
    assert path[0..] == path;
  }

  lemma {:induction false} FollowsFrom(g: Graph, root: ClassId, c: ClassId, parts: seq<string>, i: nat, prefix: string,
    leaf: bool)
    requires i <= |parts| && ReachedClass(g, root, parts, i) == Some(c)
    requires i > 0 ==>
      var above := ReachedClass(g, root, parts, i - 1);
      above.Some? && above.value in g && parts[i - 1] in g[above.value].attributes
      && (leaf <==> g[above.value].attributes[parts[i - 1]].Component?)
    requires i == 0 ==> leaf
    ensures var outcome := Followed(g, c, parts, i, prefix, leaf);
      && (outcome.Resolved? <==>
            StaticPath(g, c, parts[i..]) && (parts != [] ==>
              var last := ReachedClass(g, root, parts, |parts| - 1);
              last.Some? && last.value in g && parts[|parts| - 1] in g[last.value].attributes
              && g[last.value].attributes[parts[|parts| - 1]].Component?))
      && (outcome.Resolved? ==>
            outcome == Resolved((if Absolute(g, c, parts[i..]) then "" else prefix) + Suffixes(g, c, parts[i..])))
    decreases |parts| - i
  {
    if i < |parts| && c in g && parts[i] in g[c].attributes {
      assert parts[i..][1..] == parts[i + 1..];
      match g[c].attributes[parts[i]] {
        case NotComponent =>
        case Dynamic(k) => FollowsFrom(g, root, k, parts, i + 1, prefix, false);
        case Component(suffix, addsPrefix, k) =>
          if suffix.Fixed? {
            FollowsFrom(g, root, k, parts, i + 1, ComponentPv(suffix, addsPrefix, prefix).value, true);
          }
      }
    }
  }

  /** No prefix is derived exactly when nothing names one and there is no PV, or several that share no first letter. */
  lemma NoPrefixIff(pvs: seq<Binding>, arg: Option<string>)
    ensures DerivedPrefix(pvs, arg).None? <==>
            && (forall i :: 0 <= i < |pvs| ==> pvs[i].component != "prefix")
            && (arg.Some? ==> ':' !in arg.value)
            && (pvs == [] ||
                (|pvs| > 1 && forall letter: char :: exists i :: 0 <= i < |pvs| && !([letter] <= pvs[i].pv)))
  {
    if pvs != [] {
      var rest := PvsAfterFirst(pvs);
      var shared := SharedByAll(pvs[0].pv, rest);
      forall letter: char
        ensures [letter] <= shared <==> forall i :: 0 <= i < |pvs| ==> [letter] <= pvs[i].pv
      {
        SharedIsLongest(pvs[0].pv, rest, [letter]);
        assert forall i :: 0 < i < |pvs| ==> pvs[i].pv == rest[i - 1];
      }
      assert shared != "" ==> [shared[0]] <= shared;
    }
  }
}
