/**
 * The Flask handlers of app/routes.py as methods on one object holding the
 * module's globals: the `devices` list, the `server_running` flag and the
 * `opcua_server` instance. Handlers take already-parsed request fields and
 * return the reply the handler builds.
 */
module Routes {
  import opened Values
  import opened Registry
  import opened Sync
  import OpcuaServer

  /** The JSON body (or page) a handler answers with. */
  datatype Reply =
    | Success                                        // {"status": "success"}
    | SuccessMessage(message: string)                // {"status": "success", "message": ...}
    | DeviceList(entries: seq<DeviceSummary>)
    | TagValue(tagName: string, value: Value)        // answer of get_tag_value
    | NewValue(tagName: string, newValue: Value)     // answer of put_tag_value
    | RedirectToEditTags(deviceName: string)
    | EditTagsPage(device: Device)
    | Error(code: nat, message: string)              // {"status": "error", "message": ...}
  {
    /** The HTTP status code Flask sends with the reply. */
    function Code(): nat
    {
      match this
      case Error(code, _) => code
      case RedirectToEditTags(_) => 302
      case _ => 200
    }
  }

  /** The fields of the `edit_tags` form; a missing field is `None`. */
  datatype TagForm = TagForm(newTagName: Option<string>, newTagValue: Value)

  const NotRunning := "OPC UA Server is not running"

  class Gateway {
    var devices: seq<Device>
    var serverRunning: bool
    const opcua: OpcuaServer.Server

    /**
     * The registry invariant, and the fact that no handler ever enters a name
     * into the facade's `variables` dictionary.
     */
    ghost predicate Valid()
      reads this, opcua
    {
      WellFormed(devices) && opcua.variables == map[]
    }

    /** The state at import time: no devices, server stopped, a fresh facade built with the defaults. */
    constructor (namespaceIndex: nat)
      ensures Valid() && fresh(opcua)
      ensures devices == [] && !serverRunning
      ensures opcua.endpoint == OpcuaServer.Endpoint && opcua.serverName == OpcuaServer.ServerName
    {
      devices := [];
      serverRunning := false;
      opcua := new OpcuaServer.Server(OpcuaServer.Endpoint, OpcuaServer.ServerName, namespaceIndex);
    }

    /** POST /add_device: duplicate names are refused before the protocol is looked at. */
    method AddDevice(deviceName: string, protocol: string, ip: string, port: int) returns (reply: Reply)
      requires Valid()
      modifies this
      ensures Valid()
      ensures serverRunning == old(serverRunning)
      ensures deviceName in old(DeviceNames(devices)) ==>
        reply == Error(400, "Device name already exists") && devices == old(devices)
      ensures deviceName !in old(DeviceNames(devices)) && protocol != Modbus ==>
        reply == Error(400, "Invalid protocol") && devices == old(devices)
      ensures deviceName !in old(DeviceNames(devices)) && protocol == Modbus ==>
        reply == Success && devices == old(devices) + [NewDevice(deviceName, protocol, ip, port)]
    {
      var i := 0;
      while i < |devices|
        invariant 0 <= i <= |devices|
        invariant deviceName !in DeviceNames(devices)[..i]
      {
        if devices[i].name == deviceName {
          assert DeviceNames(devices)[i] == deviceName;
          return Error(400, "Device name already exists");
        }
        assert DeviceNames(devices)[..i + 1] == DeviceNames(devices)[..i] + [devices[i].name];
        i := i + 1;
      }
      assert DeviceNames(devices)[..i] == DeviceNames(devices);
      if protocol == Modbus {
        var client := ModbusClient(ip, port);
        var node := opcua.AddObject(deviceName);
        AddDeviceKeepsWellFormed(devices, deviceName, ip, port);
        devices := devices + [Device(deviceName, protocol, ip, port, None, client)];
        reply := Success;
      } else {
        reply := Error(400, "Invalid protocol");
      }
    }

    /** GET /list_devices: one `{name, protocol}` per device, in registration order. */
    method ListDevices() returns (reply: Reply)
      requires Valid()
      ensures reply.DeviceList? && |reply.entries| == |devices|
      ensures forall i :: 0 <= i < |devices| ==> reply.entries[i] == DeviceSummary(devices[i].name, devices[i].protocol)
    {
      reply := DeviceList(Registry.ListDevices(devices));
    }

    /** POST /add_device/<device_name>/add_tag */
    method AddTag(deviceName: string, tagName: string, tagValue: Value) returns (reply: Reply)
      requires Valid()
      modifies this
      ensures Valid()
      ensures serverRunning == old(serverRunning)
      ensures FindDevice(old(devices), deviceName).None? ==>
        reply == Error(404, "Device " + deviceName + " not found") && devices == old(devices)
      ensures FindDevice(old(devices), deviceName).Some? ==>
        var i := FindDevice(old(devices), deviceName).value;
        if tagName in TagNames(TagsOf(old(devices)[i])) then
          && reply == Error(400, "Tag " + tagName + " already exists for this device")
          && devices == old(devices)
        else
          && reply == SuccessMessage("Tag " + tagName + " added to device " + deviceName)
          && devices == old(devices)[i := AddTagTo(old(devices)[i], Tag(tagName, tagValue))]
    {
      var found := FindDevice(devices, deviceName);
      if found.None? {
        return Error(404, "Device " + deviceName + " not found");
      }
      var i := found.value;
      if devices[i].tags.None? {
        devices := devices[i := devices[i].(tags := Some([]))];
      }
      var tags := devices[i].tags.value;
      assert old(devices)[i].tags.None? ==> tags == [];
      assert old(devices)[i].tags.Some? ==> devices == old(devices);
      assert TagsOf(old(devices)[i]) == tags;
      var j := 0;
      while j < |tags|
        invariant 0 <= j <= |tags|
        invariant tagName !in TagNames(tags)[..j]
        invariant old(devices)[i].tags.None? ==> tags == []
        invariant old(devices)[i].tags.Some? ==> devices == old(devices)
      {
        if tags[j].name == tagName {
          assert TagNames(tags)[j] == tagName;
          return Error(400, "Tag " + tagName + " already exists for this device");
        }
        assert TagNames(tags)[..j + 1] == TagNames(tags)[..j] + [tags[j].name];
        j := j + 1;
      }
      assert TagNames(tags)[..j] == TagNames(tags);
      AddTagKeepsWellFormed(old(devices), i, Tag(tagName, tagValue));
      devices := devices[i := devices[i].(tags := Some(tags + [Tag(tagName, tagValue)]))];
      assert devices == old(devices)[i := AddTagTo(old(devices)[i], Tag(tagName, tagValue))];
      // The facade has no `add_variable` (app/routes.py:80), so nothing enters `variables`.
      reply := SuccessMessage("Tag " + tagName + " added to device " + deviceName);
    }

    /** POST /opcua/start: only a stopped server starts. */
    method StartOpcuaServer() returns (reply: Reply)
      requires Valid()
      modifies this
      ensures Valid()
      ensures devices == old(devices)
      ensures serverRunning
      ensures !old(serverRunning) ==> reply == SuccessMessage("OPC UA Server started and Modbus tags updating")
      ensures old(serverRunning) ==> reply == Error(400, "OPC UA Server is already running")
    {
      if !serverRunning {
        serverRunning := true;
        reply := SuccessMessage("OPC UA Server started and Modbus tags updating");
      } else {
        reply := Error(400, "OPC UA Server is already running");
      }
    }

    /** POST /opcua/stop: only a running server stops. */
    method StopOpcuaServer() returns (reply: Reply)
      requires Valid()
      modifies this
      ensures Valid()
      ensures devices == old(devices)
      ensures !serverRunning
      ensures old(serverRunning) ==> reply == SuccessMessage("OPC UA Server stopped")
      ensures !old(serverRunning) ==> reply == Error(400, NotRunning)
    {
      if serverRunning {
        serverRunning := false;
        reply := SuccessMessage("OPC UA Server stopped");
      } else {
        reply := Error(400, NotRunning);
      }
    }

    /**
     * GET /opcua/get_tag_value/<tag_name>: `read_value` never raises, so the
     * 404 branch is never taken; and since no name is ever registered in
     * `variables`, the value reported is always `None`.
     */
    method GetTagValue(tagName: string) returns (reply: Reply)
      requires Valid()
      ensures !serverRunning ==> reply == Error(400, NotRunning)
      ensures serverRunning ==> reply == TagValue(tagName, OpcuaServer.Read(opcua.variables, tagName))
      ensures serverRunning ==> reply == TagValue(tagName, Null)
      ensures reply.Code() != 404
    {
      if !serverRunning {
        return Error(400, NotRunning);
      }
      var value := opcua.ReadValue(tagName);
      reply := TagValue(tagName, value);
    }

    /**
     * PUT /opcua/write_tag_value/<tag_name>: the first tag of that name, in
     * the first device holding one, takes the value; its device's register 0
     * is written through the device's client, and then the value is passed to
     * `write_value`.
     */
    method PutTagValue(tagName: string, value: Value) returns (reply: Reply, calls: seq<Event>)
      requires Valid()
      modifies this, opcua
      ensures Valid()
      ensures serverRunning == old(serverRunning)
      ensures !old(serverRunning) ==>
        reply == Error(400, NotRunning) && devices == old(devices) && calls == []
      ensures old(serverRunning) && value == Null ==>
        reply == Error(400, "No value provided") && devices == old(devices) && calls == []
      ensures old(serverRunning) && value != Null && LocateTag(old(devices), tagName).None? ==>
        && reply == Error(404, "Tag " + tagName + " not found in any device")
        && devices == old(devices) && calls == []
      ensures old(serverRunning) && value != Null && LocateTag(old(devices), tagName).Some? ==>
        var (i, j) := LocateTag(old(devices), tagName).value;
        var name := old(devices)[i].name;
        && reply == NewValue(tagName, value)
        && devices == SetTagValue(old(devices), i, j, value)
        && calls == (if old(devices)[i].protocol == Modbus
                     then [Connect(name), WriteRegister(name, 0, value), Close(name)] else [])
                    + [WriteValue(tagName, value)]
      ensures reply.NewValue? ==> opcua.variables == OpcuaServer.Write(old(opcua.variables), tagName, value)
      ensures !reply.NewValue? ==> opcua.variables == old(opcua.variables)
    {
      calls := [];
      if !serverRunning {
        return Error(400, NotRunning), calls;
      }
      if value == Null {
        return Error(400, "No value provided"), calls;
      }
      var i := 0;
      while i < |devices|
        invariant 0 <= i <= |devices|
        invariant devices == old(devices) && opcua.variables == old(opcua.variables)
        invariant forall k :: 0 <= k < i ==> !HasTag(devices[k], tagName)
      {
        var device := devices[i];
        if device.tags.Some? {
          var found := IndexOf(TagNames(device.tags.value), tagName);
          if found.Some? {
            var j := found.value;
            LocateTagAt(devices, tagName, i, j);
            if device.protocol == Modbus {
              calls := [Connect(device.name), WriteRegister(device.name, 0, value), Close(device.name)];
            }
            opcua.WriteValue(tagName, value);
            calls := calls + [WriteValue(tagName, value)];
            SetFirstTagOnly(devices, tagName, value);
            devices := SetTagValue(devices, i, j, value);
            return NewValue(tagName, value), calls;
          }
        }
        i := i + 1;
      }
      LocateTagFirst(devices, tagName);
      reply := Error(404, "Tag " + tagName + " not found in any device");
    }

    /**
     * GET and POST /device/<device_name>/edit_tags; `form` is `None` for a GET.
     * A POST overwrites the first tag of the given name, or appends a new tag
     * when the name is non-empty.
     */
    method EditTags(deviceName: string, form: Option<TagForm>) returns (reply: Reply)
      requires Valid()
      modifies this
      ensures Valid()
      ensures serverRunning == old(serverRunning)
      ensures FindDevice(old(devices), deviceName).None? ==>
        reply == Error(404, "Device " + deviceName + " not found") && devices == old(devices)
      ensures FindDevice(old(devices), deviceName).Some? && form.None? ==>
        reply == EditTagsPage(old(devices)[FindDevice(old(devices), deviceName).value]) && devices == old(devices)
      ensures FindDevice(old(devices), deviceName).Some? && form.Some? ==>
        var i := FindDevice(old(devices), deviceName).value;
        && reply == RedirectToEditTags(deviceName)
        && devices == old(devices)[i := Upsert(old(devices)[i], form.value.newTagName, form.value.newTagValue)]
    {
      var found := FindDevice(devices, deviceName);
      if found.None? {
        return Error(404, "Device " + deviceName + " not found");
      }
      var i := found.value;
      if form.None? {
        return EditTagsPage(devices[i]);
      }
      var name, value := form.value.newTagName, form.value.newTagValue;
      UpsertKeepsWellFormed(devices, i, name, value);
      var device := devices[i];
      var tags := TagsOf(device);
      var j := 0;
      while j < |tags|
        invariant 0 <= j <= |tags|
        invariant devices == old(devices)
        invariant name.Some? ==> name.value !in TagNames(tags)[..j]
      {
        if name.Some? && tags[j].name == name.value {
          IndexOfFirst(TagNames(tags), name.value, j);
          devices := devices[i := device.(tags := Some(tags[j := tags[j].(value := value)]))];
          return RedirectToEditTags(deviceName);
        }
        assert TagNames(tags)[..j + 1] == TagNames(tags)[..j] + [tags[j].name];
        j := j + 1;
      }
      assert TagNames(tags)[..j] == TagNames(tags);
      if name.Some? && name.value != "" {
        devices := devices[i := device.(tags := Some(tags + [Tag(name.value, value)]))];
      }
      reply := RedirectToEditTags(deviceName);
    }

    /**
     * One pass of the body of `update_tag_values`: if the loop's condition
     * holds, every polled device is visited in registration order.
     * `reading(k)` is the answer of the k-th register read of the cycle.
     */
    method UpdateTagValuesCycle(reading: nat -> Value) returns (ran: bool, calls: seq<Event>)
      requires Valid()
      modifies opcua
      ensures Valid()
      ensures ran == serverRunning
      ensures calls == if ran then CycleTrace(devices, 0, reading) else []
      ensures opcua.variables == OpcuaServer.WriteAll(old(opcua.variables), Forwarded(calls))
    {
      calls := [];
      ran := serverRunning;
      if !ran {
        return;
      }
      ghost var whole := CycleTrace(devices, 0, reading);
      var i: nat, k: nat := 0, 0;
      while i < |devices|
        invariant i <= |devices|
        invariant calls + CycleTrace(devices[i..], k, reading) == whole
        invariant opcua.variables == OpcuaServer.WriteAll(old(opcua.variables), Forwarded(calls))
      {
        var device := devices[i];
        CycleTraceStep(devices, i, k, reading);
        if device.protocol == Modbus && device.tags.Some? {
          var deviceCalls := PollDevice(device, k, reading);
          ForwardedAppend(calls, deviceCalls);
          OpcuaServer.WriteAllAppend(old(opcua.variables), Forwarded(calls), Forwarded(deviceCalls));
          ghost var rest := CycleTrace(devices[i + 1..], k + |device.tags.value|, reading);
          AppendAssoc(calls, deviceCalls, rest);
          calls := calls + deviceCalls;
          k := k + |device.tags.value|;
        }
        i := i + 1;
      }
      assert devices[i..] == [];
      assert calls == whole;
      CycleKeepsVariableNames(old(opcua.variables), devices, 0, reading);
    }

    /**
     * The body of the poll loop for one device: connect, then for each tag in
     * order one read of one register at address 0 whose answer is forwarded
     * to `write_value` under the tag's name, then close.
     */
    method PollDevice(device: Device, k: nat, reading: nat -> Value) returns (calls: seq<Event>)
      modifies opcua
      ensures calls == DeviceCycle(device, k, reading)
      ensures opcua.variables == OpcuaServer.WriteAll(old(opcua.variables), Forwarded(calls))
    {
      var tags := TagsOf(device);
      var tagCalls: seq<Event> := [];
      var j := 0;
      while j < |tags|
        invariant 0 <= j <= |tags|
        invariant tagCalls == TagReads(device.name, tags[..j], k, reading)
        invariant opcua.variables == OpcuaServer.WriteAll(old(opcua.variables), Forwarded(tagCalls))
      {
        var value := reading(k + j);
        opcua.WriteValue(tags[j].name, value);
        TagReadsExtend(device.name, tags, j, k, reading);
        ForwardedReadThenWrite(tagCalls, device.name, tags[j].name, value);
        OpcuaServer.WriteAllSnoc(old(opcua.variables), Forwarded(tagCalls), (tags[j].name, value));
        tagCalls := tagCalls + [ReadHoldingRegisters(device.name, 0, 1, value), WriteValue(tags[j].name, value)];
        j := j + 1;
      }
      assert tags[..j] == tags;
      calls := [Connect(device.name)] + tagCalls + [Close(device.name)];
      ForwardedDeviceCycle(device.name, tagCalls);
    }
  }
}
