/**
 * The device/tag registry of app/routes.py as values: the records kept in the
 * global `devices` list, the `next(...)` lookups, and the pure state
 * transformers that the handlers' loops are proved against.
 */
module Registry {
  import opened Values

  /** The only protocol `add_device` accepts. */
  const Modbus := "modbus"

  /** What app/modbus/client.py keeps of a device: where to connect. */
  datatype ModbusClient = ModbusClient(host: string, port: int)

  datatype Tag = Tag(name: string, value: Value)

  /**
   * A device record. `tags` is `None` while the record has no 'tags' key: the
   * key is created by the first tag added to the device.
   */
  datatype Device = Device(
    name: string,
    protocol: string,
    ip: string,
    port: int,
    tags: Option<seq<Tag>>,
    client: ModbusClient)

  /** One entry of the `list_devices` answer. */
  datatype DeviceSummary = DeviceSummary(name: string, protocol: string)

  /** `device.get('tags', [])` */
  function TagsOf(d: Device): seq<Tag>
  {
    if d.tags.Some? then d.tags.value else []
  }

  function TagNames(tags: seq<Tag>): seq<string>
  {
    seq(|tags|, i requires 0 <= i < |tags| => tags[i].name)
  }

  function DeviceNames(devices: seq<Device>): seq<string>
  {
    seq(|devices|, i requires 0 <= i < |devices| => devices[i].name)
  }

  predicate Distinct(names: seq<string>)
  {
    forall i, j :: 0 <= i < j < |names| ==> names[i] != names[j]
  }

  /** What every record the handlers create looks like. */
  predicate DeviceWellFormed(d: Device)
  {
    && d.protocol == Modbus
    && (d.tags.Some? ==> d.tags.value != [] && Distinct(TagNames(d.tags.value)))
  }

  /**
   * The registry invariant: unique device names, and every device a modbus one
   * whose tag list, when present, is non-empty with unique names.
   */
  predicate WellFormed(devices: seq<Device>)
  {
    && Distinct(DeviceNames(devices))
    && forall i :: 0 <= i < |devices| ==> DeviceWellFormed(devices[i])
  }

  /** The position of the first occurrence of `key`, searching from the front. */
  function IndexOf(names: seq<string>, key: string): (r: Option<nat>)
    ensures r.None? <==> key !in names
    ensures r.Some? ==> r.value < |names| && names[r.value] == key && key !in names[..r.value]
  {
    if names == [] then None
    else if names[0] == key then Some(0)
    else match IndexOf(names[1..], key)
      case None => None
      case Some(i) =>
        assert names[..i + 1] == [names[0]] + names[1..][..i];
        Some(i + 1)
  }

  /** In a list without repetitions the first occurrence is the only one. */
  lemma IndexOfDistinct(names: seq<string>, i: nat)
    requires Distinct(names) && i < |names|
    ensures IndexOf(names, names[i]) == Some(i)
  {
  }

  /** If `key` first occurs at `j`, the search from the front finds `j`. */
  lemma IndexOfFirst(names: seq<string>, key: string, j: nat)
    requires j < |names| && names[j] == key && key !in names[..j]
    ensures IndexOf(names, key) == Some(j)
  {
  }

  lemma AppendAssoc<T>(a: seq<T>, b: seq<T>, c: seq<T>)
    ensures (a + b) + c == a + (b + c)
  {
  }

  /** `next((d for d in devices if d['name'] == name), None)`: the first device so named, in registration order. */
  function FindDevice(devices: seq<Device>, name: string): (r: Option<nat>)
    ensures r.None? <==> forall k :: 0 <= k < |devices| ==> devices[k].name != name
    ensures r.Some? ==> r.value < |devices| && devices[r.value].name == name
    ensures r.Some? ==> forall k :: 0 <= k < r.value ==> devices[k].name != name
  {
    var r := IndexOf(DeviceNames(devices), name);
    assert r.Some? ==> forall k :: 0 <= k < r.value ==> DeviceNames(devices)[..r.value][k] == devices[k].name;
    assert forall k :: 0 <= k < |devices| ==> DeviceNames(devices)[k] == devices[k].name;
    r
  }

  /** Under the registry invariant a name designates exactly one device. */
  lemma FindDeviceUnique(devices: seq<Device>, i: nat)
    requires WellFormed(devices) && i < |devices|
    ensures FindDevice(devices, devices[i].name) == Some(i)
  {
    IndexOfDistinct(DeviceNames(devices), i);
  }

  /** The `{name, protocol}` projection returned by `list_devices`. */
  function ListDevices(devices: seq<Device>): (r: seq<DeviceSummary>)
    ensures |r| == |devices|
    ensures forall i :: 0 <= i < |r| ==> r[i].name == devices[i].name && r[i].protocol == devices[i].protocol
  {
    seq(|devices|, i requires 0 <= i < |devices| => DeviceSummary(devices[i].name, devices[i].protocol))
  }

  /** The listing names every device once, in registration order, so its names are distinct too. */
  lemma ListDevicesNames(devices: seq<Device>)
    requires WellFormed(devices)
    ensures forall i, j :: 0 <= i < j < |devices| ==> ListDevices(devices)[i].name != ListDevices(devices)[j].name
    ensures forall i :: 0 <= i < |devices| ==> ListDevices(devices)[i] == DeviceSummary(devices[i].name, Modbus)
  {
    forall i, j | 0 <= i < j < |devices|
      ensures ListDevices(devices)[i].name != ListDevices(devices)[j].name
    {
      assert DeviceNames(devices)[i] != DeviceNames(devices)[j];
    }
  }

  /** The record `add_device` appends (no 'tags' key yet). */
  function NewDevice(name: string, protocol: string, ip: string, port: int): Device
  {
    Device(name, protocol, ip, port, None, ModbusClient(ip, port))
  }

  /** Appending a modbus device under a fresh name keeps the registry invariant. */
  lemma AddDeviceKeepsWellFormed(devices: seq<Device>, name: string, ip: string, port: int)
    requires WellFormed(devices)
    requires name !in DeviceNames(devices)
    ensures DeviceNames(devices + [NewDevice(name, Modbus, ip, port)]) == DeviceNames(devices) + [name]
    ensures WellFormed(devices + [NewDevice(name, Modbus, ip, port)])
  {
    var ds := devices + [NewDevice(name, Modbus, ip, port)];
    assert DeviceNames(ds) == DeviceNames(devices) + [name];
    forall i, j | 0 <= i < j < |ds| ensures DeviceNames(ds)[i] != DeviceNames(ds)[j] {
      if j == |devices| {
        assert DeviceNames(devices)[i] == DeviceNames(ds)[i];
      }
    }
  }

  /** `device['tags'].append(tag)`, creating the list when the key is missing. */
  function AddTagTo(d: Device, t: Tag): Device
  {
    d.(tags := Some(TagsOf(d) + [t]))
  }

  /** Appending a tag under a fresh name keeps the invariant and leaves the other devices alone. */
  lemma AddTagKeepsWellFormed(devices: seq<Device>, i: nat, t: Tag)
    requires WellFormed(devices) && i < |devices|
    requires t.name !in TagNames(TagsOf(devices[i]))
    ensures DeviceNames(devices[i := AddTagTo(devices[i], t)]) == DeviceNames(devices)
    ensures WellFormed(devices[i := AddTagTo(devices[i], t)])
    ensures TagNames(TagsOf(AddTagTo(devices[i], t))) == TagNames(TagsOf(devices[i])) + [t.name]
  {
    var tags := TagsOf(devices[i]);
    var tags' := tags + [t];
    assert TagNames(tags') == TagNames(tags) + [t.name];
    forall a, b | 0 <= a < b < |tags'| ensures TagNames(tags')[a] != TagNames(tags')[b] {
      if b == |tags| {
        assert TagNames(tags)[a] == TagNames(tags')[a];
      } else {
        assert devices[i].tags.Some?;
      }
    }
    var ds := devices[i := AddTagTo(devices[i], t)];
    assert DeviceNames(ds) == DeviceNames(devices);
  }

  /**
   * The POST branch of `edit_tags` on one device: the first tag named `name`
   * gets the new value; otherwise a truthy name is appended; otherwise nothing.
   */
  function Upsert(d: Device, name: Option<string>, value: Value): Device
  {
    match name
    case None => d
    case Some(n) =>
      match IndexOf(TagNames(TagsOf(d)), n)
      case Some(j) => d.(tags := Some(TagsOf(d)[j := TagsOf(d)[j].(value := value)]))
      case None => if n != "" then AddTagTo(d, Tag(n, value)) else d
  }

  /** The three outcomes of the upsert, stated through tag names and values. */
  lemma UpsertCases(d: Device, name: Option<string>, value: Value)
    ensures Upsert(d, name, value).name == d.name && Upsert(d, name, value).protocol == d.protocol
    ensures name.None? ==> Upsert(d, name, value) == d
    ensures name.Some? && name.value in TagNames(TagsOf(d)) ==>
      var j := IndexOf(TagNames(TagsOf(d)), name.value).value;
      && TagNames(TagsOf(Upsert(d, name, value))) == TagNames(TagsOf(d))
      && TagsOf(Upsert(d, name, value))[j] == Tag(name.value, value)
      && forall k :: 0 <= k < |TagsOf(d)| && k != j ==> TagsOf(Upsert(d, name, value))[k] == TagsOf(d)[k]
    ensures name.Some? && name.value !in TagNames(TagsOf(d)) && name.value != "" ==>
      TagsOf(Upsert(d, name, value)) == TagsOf(d) + [Tag(name.value, value)]
    ensures name.Some? && name.value !in TagNames(TagsOf(d)) && name.value == "" ==>
      Upsert(d, name, value) == d
  {
    if name.Some? && name.value in TagNames(TagsOf(d)) {
      var tags := TagsOf(d);
      var j := IndexOf(TagNames(tags), name.value).value;
      var tags' := tags[j := tags[j].(value := value)];
      assert TagNames(tags') == TagNames(tags);
    }
  }

  /** Repeating the same POST leaves the state it produced the first time. */
  lemma {:induction false} UpsertIdempotent(d: Device, name: Option<string>, value: Value)
    ensures Upsert(Upsert(d, name, value), name, value) == Upsert(d, name, value)
  {
    UpsertCases(d, name, value);
    var d' := Upsert(d, name, value);
    if name.Some? {
      var n := name.value;
      var names := TagNames(TagsOf(d));
      if n in names {
        var j := IndexOf(names, n).value;
        assert IndexOf(TagNames(TagsOf(d')), n) == Some(j);
        UpsertCases(d', name, value);
        assert TagsOf(Upsert(d', name, value)) == TagsOf(d');
      } else if n != "" {
        assert TagNames(TagsOf(d')) == names + [n];
        var j := |names|;
        assert TagNames(TagsOf(d'))[..j] == names;
        assert IndexOf(TagNames(TagsOf(d')), n) == Some(j);
        UpsertCases(d', name, value);
        assert TagsOf(Upsert(d', name, value)) == TagsOf(d');
      }
    }
  }

  /** The upsert never creates a second tag of the same name, nor an empty tag list. */
  lemma UpsertKeepsWellFormed(devices: seq<Device>, i: nat, name: Option<string>, value: Value)
    requires WellFormed(devices) && i < |devices|
    ensures DeviceNames(devices[i := Upsert(devices[i], name, value)]) == DeviceNames(devices)
    ensures WellFormed(devices[i := Upsert(devices[i], name, value)])
  {
    var d := devices[i];
    UpsertCases(d, name, value);
    if name.Some? && name.value !in TagNames(TagsOf(d)) && name.value != "" {
      AddTagKeepsWellFormed(devices, i, Tag(name.value, value));
    }
    var ds := devices[i := Upsert(d, name, value)];
    assert DeviceNames(ds) == DeviceNames(devices);
  }

  /** `'tags' in device` and one of them is named `name`. */
  predicate HasTag(d: Device, name: string)
  {
    name in TagNames(TagsOf(d))
  }

  /**
   * The search of `put_tag_value`: the position of the first device, in
   * registration order, whose tag list holds `name`, and of the first such
   * tag in that list.
   */
  function LocateTag(devices: seq<Device>, name: string): (r: Option<(nat, nat)>)
    ensures r.Some? ==> r.value.0 < |devices| && r.value.1 < |TagsOf(devices[r.value.0])|
    decreases |devices|
  {
    if devices == [] then None
    else match IndexOf(TagNames(TagsOf(devices[0])), name)
      case Some(j) => Some((0, j))
      case None =>
        match LocateTag(devices[1..], name)
        case None => None
        case Some(loc) => Some((loc.0 + 1, loc.1))
  }

  /**
   * The search finds nothing exactly when no device holds the name, and
   * otherwise finds the first holder and, in it, the first tag so named.
   */
  lemma {:induction false} LocateTagFirst(devices: seq<Device>, name: string)
    ensures LocateTag(devices, name).None? <==> forall k :: 0 <= k < |devices| ==> !HasTag(devices[k], name)
    ensures LocateTag(devices, name).Some? ==>
      var (i, j) := LocateTag(devices, name).value;
      && i < |devices|
      && devices[i].tags.Some?
      && IndexOf(TagNames(TagsOf(devices[i])), name) == Some(j)
      && forall k :: 0 <= k < i ==> !HasTag(devices[k], name)
    decreases |devices|
  {
    if devices != [] {
      LocateTagFirst(devices[1..], name);
      forall k | 1 <= k < |devices| ensures devices[1..][k - 1] == devices[k] {
      }
    }
  }

  /** Conversely, a holder preceded by no other holder is what the search finds. */
  lemma {:induction false} LocateTagAt(devices: seq<Device>, name: string, i: nat, j: nat)
    requires i < |devices| && devices[i].tags.Some?
    requires IndexOf(TagNames(devices[i].tags.value), name) == Some(j)
    requires forall k :: 0 <= k < i ==> !HasTag(devices[k], name)
    ensures LocateTag(devices, name) == Some((i, j))
    decreases i
  {
    if i > 0 {
      assert !HasTag(devices[0], name);
      forall k | 0 <= k < i - 1 ensures !HasTag(devices[1..][k], name) {
        assert devices[1..][k] == devices[k + 1];
      }
      LocateTagAt(devices[1..], name, i - 1, j);
    }
  }

  /** `tag['value'] = value` on tag `j` of device `i`. */
  function SetTagValue(devices: seq<Device>, i: nat, j: nat, value: Value): seq<Device>
    requires i < |devices| && j < |TagsOf(devices[i])|
  {
    var tags := TagsOf(devices[i]);
    devices[i := devices[i].(tags := Some(tags[j := tags[j].(value := value)]))]
  }

  /**
   * A value write lands on the first match only: same-named tags of later
   * devices, and every other tag, keep their values; names and the registry
   * invariant are unchanged.
   */
  lemma {:induction false} SetFirstTagOnly(devices: seq<Device>, name: string, value: Value)
    requires WellFormed(devices)
    requires LocateTag(devices, name).Some?
    ensures var (i, j) := LocateTag(devices, name).value;
      var ds := SetTagValue(devices, i, j, value);
      && |ds| == |devices|
      && DeviceNames(ds) == DeviceNames(devices)
      && WellFormed(ds)
      && (forall k :: 0 <= k < |devices| && k != i ==> ds[k] == devices[k])
      && TagNames(TagsOf(ds[i])) == TagNames(TagsOf(devices[i]))
      && TagsOf(ds[i])[j] == Tag(name, value)
      && (forall m :: 0 <= m < |TagsOf(devices[i])| && m != j ==> TagsOf(ds[i])[m] == TagsOf(devices[i])[m])
  {
    LocateTagFirst(devices, name);
    var (i, j) := LocateTag(devices, name).value;
    var tags := TagsOf(devices[i]);
    var tags' := tags[j := tags[j].(value := value)];
    assert TagNames(tags') == TagNames(tags);
    var ds := SetTagValue(devices, i, j, value);
    assert DeviceNames(ds) == DeviceNames(devices);
    assert DeviceWellFormed(ds[i]);
  }
}
