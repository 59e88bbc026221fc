# Modbus-to-OPC UA gateway: registry, lifecycle and poll cycle

This project models the core of a small industrial gateway written as a Flask
application. The gateway keeps an in-memory registry of Modbus devices and
their tags. It starts and stops an OPC UA server. While the server runs, a
poller reads one holding register per tag and forwards each value to the OPC UA
server's `variables` dictionary.

- `values.dfy`: `Option`, and `Value`, the dynamically typed payload (`Null` is Python's `None`).
- `opcua_server.dfy` (module `OpcuaServer`): the `variables` dictionary of
  `OPCUAServer`. It has `read_value` and `write_value` as the functions `Read` and
  `Write`, and the class `Server` with `add_object`, `add_variable_to_object`,
  `write_value` and `read_value`.
- `registry.dfy` (module `Registry`): the device and tag records and the pure
  part of `app/routes.py`. This covers the `next(...)` lookups, the
  `list_devices` projection, the `edit_tags` upsert, the `put_tag_value` search,
  and the registry invariant. The invariant says device names are unique, every
  device's protocol is "modbus", tag names are unique within a device, and a
  'tags' list is never empty.
- `sync.dfy` (module `Sync`): one cycle of `update_tag_values`, written as the
  trace of calls the gateway makes. The calls are connect, a register read,
  `write_value` and close.
- `routes.dfy` (module `Routes`): class `Gateway`, which holds the module
  globals `devices`, `server_running` and `opcua_server`. Each Flask handler is a
  method that takes parsed request fields and returns a `Reply` (the JSON body;
  `Code()` gives the HTTP status). Each method states its whole new state.
  `Valid()` is preserved: the registry invariant holds, and `variables` stays
  empty.

Behaviour of the code worth knowing:

- Nothing ever inserts into `variables`. The dictionary is created empty,
  `add_variable_to_object` returns a node without recording it, and the
  `add_variable` call in `add_tag` names a method `OPCUAServer` does not define.
  As a consequence:
  - every `write_value` is a no-op, in the poll cycle and in `put_tag_value`;
  - `get_tag_value` reports `None` for every tag while the server runs;
  - its 404 branch is never taken.
- `put_tag_value` searches all devices by tag name alone. The first device in
  registration order that holds the name wins, and within it the first tag of
  that name.
- Every register read and write uses address 0 with count 1, whatever the tag.
- The poller visits modbus devices that have a 'tags' key (app/routes.py:18).
  Such a list is never empty, so these are exactly the devices with at least
  one tag.
- `edit_tags` tests the name's truthiness only before appending. An empty name
  still overwrites an existing tag whose name is the empty string.

## Model

| member | source | states |
|---|---|---|
| `OpcuaServer.Read` | app/opcua_main/opcua_server.py:31-38 | definition of `read_value`'s answer: the stored value, or `None` for an unknown name; its properties are `ReadAfterWrite`, `WriteFrame` and `EmptyStaysEmpty` |
| `OpcuaServer.Write` | app/opcua_main/opcua_server.py:24-29 | definition of what `write_value` leaves: a known name takes the value, an unknown one is only logged; its properties are `WriteKeepsNames` and `WriteFrame` |
| `OpcuaServer.Server.constructor` | app/opcua_main/opcua_server.py:5-14 | keeps the endpoint and server name given, registers `NamespaceUri`, and `variables` starts empty |
| `OpcuaServer.Server.AddObject` | app/opcua_main/opcua_server.py:16-17 | returns an object node in the server's namespace; `variables` unchanged |
| `OpcuaServer.Server.AddVariableToObject` | app/opcua_main/opcua_server.py:19-22 | returns a writable node under the object with the initial value; `variables` unchanged |
| `OpcuaServer.Server.WriteValue` | app/opcua_main/opcua_server.py:24-29 | a known name gets the new value and nothing else changes; an unknown name leaves the dictionary unchanged; the set of names never changes |
| `OpcuaServer.Server.ReadValue` | app/opcua_main/opcua_server.py:31-38 | returns the stored value for a known name, and `None` for an unknown one, never failing |
| `OpcuaServer.ReadAfterWrite` | app/opcua_main/opcua_server.py:24-35 | after writing `v` under a known name, reading that name gives `v` |
| `OpcuaServer.WriteFrame` | app/opcua_main/opcua_server.py:25-26 | a write changes no other entry and no other name's membership |
| `OpcuaServer.WriteKeepsNames` | app/opcua_main/opcua_server.py:24-29 | a write never adds a name; on an unknown name it is the identity |
| `OpcuaServer.WriteAllKeepsNames` | app/opcua_main/opcua_server.py:12-29 | any sequence of writes keeps the set of names |
| `OpcuaServer.EmptyStaysEmpty` | app/opcua_main/opcua_server.py:12-38 | from the empty dictionary, any writes leave it empty and every read gives `None` |
| `Registry.WellFormed` | app/routes.py:30-82 | definition of the registry invariant that `add_device` and `add_tag` establish: unique device names, modbus protocol, non-empty tag lists with unique names |
| `Registry.NewDevice` | app/routes.py:43-45 | definition of the record `add_device` appends: name, protocol, ip, port, a client for ip and port, and no 'tags' key |
| `Registry.AddTagTo` | app/routes.py:68-77 | definition of appending a tag, creating the 'tags' list when the key is missing |
| `Registry.Upsert` | app/routes.py:170-177 | definition of the `edit_tags` POST on one device; its meaning is `UpsertCases` |
| `Registry.SetTagValue` | app/routes.py:150 | definition of `tag['value'] = new_value` at a found position; its meaning is `SetFirstTagOnly` |
| `Registry.IndexOf` | app/routes.py:135 | finds the first position holding the key; `None` exactly when the key is absent |
| `Registry.IndexOfDistinct` | app/routes.py:72-74 | in a list without repeated names, the first match is the only one |
| `Registry.FindDevice` | app/routes.py:63 | the first device with the name, in registration order; `None` exactly when no device has it |
| `Registry.FindDeviceUnique` | app/routes.py:161 | with unique names, the lookup returns that device's own position |
| `Registry.ListDevices` | app/routes.py:54 | one `{name, protocol}` per device, same order, same length |
| `Registry.ListDevicesNames` | app/routes.py:51-55 | the listed names are pairwise distinct and every protocol is "modbus" |
| `Registry.AddDeviceKeepsWellFormed` | app/routes.py:37-45 | appending a modbus device under a fresh name appends exactly its name and keeps names unique |
| `Registry.AddTagKeepsWellFormed` | app/routes.py:68-77 | appending a tag under a fresh name appends exactly that name to one device, keeping tag names unique |
| `Registry.UpsertCases` | app/routes.py:166-177 | an existing name has its first tag's value overwritten in place, with names and length kept; a new non-empty name is appended; an absent name, or an empty one that matches nothing, changes nothing |
| `Registry.UpsertIdempotent` | app/routes.py:170-177 | applying the same upsert twice gives the same device as applying it once |
| `Registry.UpsertKeepsWellFormed` | app/routes.py:170-177 | the upsert keeps device names and the uniqueness of tag names |
| `Registry.LocateTag` | app/routes.py:133-136 | a found position is in range |
| `Registry.LocateTagFirst` | app/routes.py:133-136 | nothing is found exactly when no device holds the tag; otherwise it finds the first holder in registration order, and the first tag so named within it |
| `Registry.LocateTagAt` | app/routes.py:133-136 | a holder preceded by no other holder is the one found |
| `Registry.SetFirstTagOnly` | app/routes.py:133-150 | writing a value changes only the first match; every other device, including later same-named tags, and every other tag is unchanged, and the invariant holds |
| `Sync.Polled` | app/routes.py:18 | definition of the poller's device filter: modbus protocol and a 'tags' key |
| `Sync.TagReads` | app/routes.py:20-22 | definition of the inner loop's calls; its meaning is `TagReadsShape` |
| `Sync.DeviceCycle` | app/routes.py:19-23 | definition of one polled device's calls: connect, the tag reads, close |
| `Sync.CycleTrace` | app/routes.py:17-23 | definition of one pass over the registry, skipping devices that are not polled; its meaning is `CycleForwardsPolledTags`, `CycleForwardsWhatItReads` and `CycleReadsAddressZero` |
| `Sync.TagReadsShape` | app/routes.py:20-22 | per tag, in tag order: one read of one register at address 0, then that answer forwarded under the tag's name |
| `Sync.TagReadsSnoc` | app/routes.py:20-22 | one more tag adds exactly one read and one forward at the end |
| `Sync.CycleReadsAddressZero` | app/routes.py:16-23 | every register read of a cycle is at address 0 with count 1 |
| `Sync.CycleForwardsPolledTags` | app/routes.py:17-22 | a cycle forwards exactly the tags of modbus devices with a tags list, in registration order and tag order |
| `Sync.TagReadsForwardNames` | app/routes.py:20-22 | a device's forwards name its tags in order and carry the values just read |
| `Sync.CycleForwardsWhatItReads` | app/routes.py:20-22 | the forwarded values are the read answers in order, one read per visited tag |
| `Sync.CycleKeepsVariableNames` | app/routes.py:15-23 | the forwards of a cycle never add a name to `variables`; from empty they leave it empty |
| `Routes.Gateway.constructor` | app/routes.py:8-13 | no devices, server not running, a fresh facade with the default endpoint and server name and empty `variables` |
| `Routes.Gateway.AddDevice` | app/routes.py:30-49 | a duplicate name gives 400 "Device name already exists" before the protocol is checked; a non-modbus protocol gives 400 "Invalid protocol"; otherwise exactly one record is appended; a refusal leaves the registry unchanged |
| `Routes.Gateway.ListDevices` | app/routes.py:51-55 | answers one summary per device in registration order and changes nothing |
| `Routes.Gateway.AddTag` | app/routes.py:57-82 | an unknown device gives 404; a duplicate tag gives 400 and no change; otherwise the tag is appended to that device only; the invariant is kept |
| `Routes.Gateway.StartOpcuaServer` | app/routes.py:84-98 | when stopped it sets the flag and answers 200; when running it answers 400 and changes nothing; the registry is untouched |
| `Routes.Gateway.StopOpcuaServer` | app/routes.py:100-108 | when running it clears the flag; otherwise 400 "OPC UA Server is not running" and no change |
| `Routes.Gateway.GetTagValue` | app/routes.py:110-120 | 400 when stopped; otherwise the facade's answer, which is `None` for every tag; never 404 |
| `Routes.Gateway.PutTagValue` | app/routes.py:122-157 | 400 when stopped, before the value is examined; 400 for a missing value; 404 and no change when no device holds the tag; otherwise the first match takes the value, its device's register 0 is written between connect and close, and then `write_value` is called with the tag name and value |
| `Routes.Gateway.EditTags` | app/routes.py:159-181 | unknown device gives 404; GET renders the device; POST applies the upsert to that device only and redirects |
| `Routes.Gateway.UpdateTagValuesCycle` | app/routes.py:15-24 | when the loop condition holds, the calls are exactly the cycle trace over the registry and `variables` receives exactly its forwards; otherwise nothing happens |
| `Routes.Gateway.PollDevice` | app/routes.py:18-23 | connect, then per tag a read at address 0 with its answer forwarded under the tag's name, then close |

## Left out

- The background thread, its daemon flag and `time.sleep(5)` (app/routes.py:24, 92-94). One pass of the `while server_running` loop is `UpdateTagValuesCycle`; the loop is repeated passes. Interleavings with the handlers are not modelled. Neither is the case where a stop and a restart inside one sleep leave two pollers running.
- Flask plumbing (`request.json`, `request.form`, `jsonify`, `render_template`, `redirect`, `url_for`). Handlers take parsed fields and return a `Reply`. The `index` page (app/routes.py:26-28) only renders the device list and is not modelled.
- Malformed requests. Missing `config` keys and JSON that is not an object raise in Python and are not modelled. Device names, tag names, protocols and IPs are strings. The port is an opaque field that only reaches the client and never enters a decision; it is an integer in the model, though the browser form sends it as a string (app/static/js/scripts.js:76).
- Routes.Gateway.AddTag: the `add_variable` call at app/routes.py:80 names a method `OPCUAServer` does not have. In Python the tag is appended first and the request then fails with a framework error. The model treats the call as an opaque external call with no effect on `variables` and answers with the reply of app/routes.py:82.
- app/modbus/client.py is not part of this model beyond its host and port. Connect, read and write are recorded as calls in a trace, and a read answers an arbitrary value (`reading(k)` for the k-th read of a cycle). `connect` swallows every exception, including its own "Unable to connect" (app/modbus/client.py:12-20), and has set the client by then. A Modbus error during a read is caught and the read answers `None` (app/modbus/client.py:31-33). So a failed connection or read appears as a read answering `None`, which `reading` covers with `Null`. Exceptions other than Modbus errors raised inside a read or write are not modelled; they would end the poller thread or fail the request.
- Routes.Gateway.PutTagValue: the `except KeyError` branch (app/routes.py:154-155) is not modelled as a path. `write_value` never raises, and every record has a client.
- The OPC UA library itself: `Server()`, the endpoint and name settings, namespace registration (its index is a constructor parameter), `start`/`stop` with their swallowed errors, `is_running`, `set_value`/`get_value` and logging (app/opcua_main/opcua_server.py:6-14, 40-55). A variable node is represented by its value.
- Floating-point tag values. `Value` has null, booleans, integers, strings and register lists.
- app/static/js/scripts.js: browser UI code.
