/**
 Values shared by the configuration service and its clients: device metadata,
 instantiation specs and PV ownership.

 A Python dictionary whose iteration order the code depends on is modelled by the
 list of its items in insertion order; any other dictionary is a `map`.
 */
module Models {

  datatype Option<+T> = None | Some(value: T)

  /** One item of `DeviceMetadata.pvs`: a component name and the PV it maps to. */
  datatype Binding = Binding(component: string, pv: string)

  /** `DeviceMetadata`; `details` stands for the descriptive fields nothing here reads. */
  datatype Device = Device(name: string, pvs: seq<Binding>, labels: seq<string>, details: string)

  /** A constructor argument: text, a list of texts, or any other value by its representation. */
  datatype Argument = Text(text: string) | Texts(texts: seq<string>) | Other(repr: string)

  /** `DeviceInstantiationSpec`. */
  datatype Spec = Spec(
    name: string,
    deviceClass: string,
    args: seq<Argument>,
    kwargs: map<string, Argument>,
    active: bool,
    framework: Option<string>)

  /** The ownership half of `PVMetadata`: `device_name` and `component_name`. */
  datatype Owner = Unowned | Owned(device: string, component: string)

  predicate OwnedBy(owner: Owner, name: string) {
    owner.Owned? && owner.device == name
  }

  predicate ListsPv(bindings: seq<Binding>, pv: string) {
    exists i :: 0 <= i < |bindings| && bindings[i].pv == pv
  }

  predicate Lists(device: Device, pv: string) {
    ListsPv(device.pvs, pv)
  }

  /** The component listed first for `pv`. */
  function FirstComponent(bindings: seq<Binding>, pv: string): (component: string)
    requires ListsPv(bindings, pv)
    ensures Binding(component, pv) in bindings
  {
    if bindings[0].pv == pv then bindings[0].component else FirstComponent(bindings[1..], pv)
  }

  /** The component listed last for `pv`. */
  function LastComponent(bindings: seq<Binding>, pv: string): (component: string)
    requires ListsPv(bindings, pv)
    ensures Binding(component, pv) in bindings
  {
    var last := |bindings| - 1;
    if bindings[last].pv == pv then bindings[last].component else LastComponent(bindings[..last], pv)
  }

  /** Taking the first element off one sequence before another. */
  lemma FirstOfJoined<T>(first: seq<T>, second: seq<T>)
    requires first != []
    ensures (first + second)[0] == first[0] && (first + second)[1..] == first[1..] + second
  {
  }
}
