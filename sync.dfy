/**
 * One cycle of the `update_tag_values` poll loop of app/routes.py, described
 * as the sequence of calls it makes on the Modbus clients and on the OPC UA
 * facade.
 */
module Sync {
  import opened Values
  import opened Registry
  import OpcuaServer

  /** A call the gateway makes on a device's Modbus client or on the OPC UA facade. */
  datatype Event =
    | Connect(device: string)
    | ReadHoldingRegisters(device: string, address: nat, count: nat, result: Value)
    | WriteRegister(device: string, address: nat, value: Value)
    | Close(device: string)
    | WriteValue(name: string, value: Value)

  /** The filter of the poll loop: a modbus device that has a 'tags' key. */
  predicate Polled(d: Device)
  {
    d.protocol == Modbus && d.tags.Some?
  }

  /**
   * The reads of one device: for each tag in order, one read of one register
   * at address 0, whose answer is forwarded under the tag's name. The k-th read
   * of the cycle answers `reading(k)`.
   */
  function TagReads(device: string, tags: seq<Tag>, k: nat, reading: nat -> Value): seq<Event>
    decreases |tags|
  {
    if tags == [] then []
    else [ReadHoldingRegisters(device, 0, 1, reading(k)), WriteValue(tags[0].name, reading(k))]
         + TagReads(device, tags[1..], k + 1, reading)
  }

  /** The shape of one device's reads: a read at register 0 then a forward, per tag, in tag order. */
  lemma {:induction false} TagReadsShape(device: string, tags: seq<Tag>, k: nat, reading: nat -> Value)
    ensures |TagReads(device, tags, k, reading)| == 2 * |tags|
    ensures forall i :: 0 <= i < |tags| ==>
      && TagReads(device, tags, k, reading)[2 * i] == ReadHoldingRegisters(device, 0, 1, reading(k + i))
      && TagReads(device, tags, k, reading)[2 * i + 1] == WriteValue(tags[i].name, reading(k + i))
    decreases |tags|
  {
    if tags != [] {
      var r := TagReads(device, tags, k, reading);
      var rest := TagReads(device, tags[1..], k + 1, reading);
      TagReadsShape(device, tags[1..], k + 1, reading);
      forall i | 0 <= i < |tags|
        ensures r[2 * i] == ReadHoldingRegisters(device, 0, 1, reading(k + i))
        ensures r[2 * i + 1] == WriteValue(tags[i].name, reading(k + i))
      {
        if i > 0 {
          assert r[2 * i] == rest[2 * (i - 1)];
          assert r[2 * i + 1] == rest[2 * (i - 1) + 1];
          assert tags[1..][i - 1] == tags[i];
        }
      }
    }
  }

  /** Reading one more tag extends a device's reads at the end. */
  lemma {:induction false} TagReadsSnoc(device: string, tags: seq<Tag>, t: Tag, k: nat, reading: nat -> Value)
    ensures TagReads(device, tags + [t], k, reading)
         == TagReads(device, tags, k, reading)
            + [ReadHoldingRegisters(device, 0, 1, reading(k + |tags|)), WriteValue(t.name, reading(k + |tags|))]
    decreases |tags|
  {
    if tags == [] {
      assert [] + [t] == [t];
      assert [t][1..] == [];
    } else {
      assert (tags + [t])[1..] == tags[1..] + [t];
      TagReadsSnoc(device, tags[1..], t, k + 1, reading);
    }
  }

  /** The reads of the first `j + 1` tags are those of the first `j` followed by one read and one forward. */
  lemma TagReadsExtend(device: string, tags: seq<Tag>, j: nat, k: nat, reading: nat -> Value)
    requires j < |tags|
    ensures TagReads(device, tags[..j + 1], k, reading)
         == TagReads(device, tags[..j], k, reading)
            + [ReadHoldingRegisters(device, 0, 1, reading(k + j)), WriteValue(tags[j].name, reading(k + j))]
  {
    assert tags[..j + 1] == tags[..j] + [tags[j]];
    TagReadsSnoc(device, tags[..j], tags[j], k, reading);
  }

  /** What two traces forward, one after the other. */
  lemma ForwardedAppend(a: seq<Event>, b: seq<Event>)
    ensures Forwarded(a + b) == Forwarded(a) + Forwarded(b)
  {
    SelectAppend(a, b, ForwardOf);
  }

  /** A read followed by a forward adds exactly that forward to what a trace forwards. */
  lemma ForwardedReadThenWrite(events: seq<Event>, device: string, name: string, value: Value)
    ensures Forwarded(events + [ReadHoldingRegisters(device, 0, 1, value), WriteValue(name, value)])
         == Forwarded(events) + [(name, value)]
  {
    var pair := [ReadHoldingRegisters(device, 0, 1, value), WriteValue(name, value)];
    SelectAppend(events, pair, ForwardOf);
    assert pair[1..] == [WriteValue(name, value)];
    assert pair[1..][1..] == [];
    assert Select(pair[1..], ForwardOf) == [(name, value)];
    assert Select(pair, ForwardOf) == [(name, value)];
  }

  /** Connecting and closing add nothing to what a trace forwards. */
  lemma ForwardedDeviceCycle(device: string, tagCalls: seq<Event>)
    ensures Forwarded([Connect(device)] + tagCalls + [Close(device)]) == Forwarded(tagCalls)
  {
    assert [Connect(device)][1..] == [] && [Close(device)][1..] == [];
    SelectAppend([Connect(device)], tagCalls, ForwardOf);
    SelectAppend([Connect(device)] + tagCalls, [Close(device)], ForwardOf);
  }

  /** A polled device: connect, its reads, close. */
  function DeviceCycle(d: Device, k: nat, reading: nat -> Value): seq<Event>
  {
    [Connect(d.name)] + TagReads(d.name, TagsOf(d), k, reading) + [Close(d.name)]
  }

  /** The calls of one cycle over `devices`, in registration order, the first read numbered `k`. */
  function CycleTrace(devices: seq<Device>, k: nat, reading: nat -> Value): seq<Event>
    decreases |devices|
  {
    if devices == [] then []
    else if Polled(devices[0]) then
      DeviceCycle(devices[0], k, reading) + CycleTrace(devices[1..], k + |TagsOf(devices[0])|, reading)
    else CycleTrace(devices[1..], k, reading)
  }

  /** Visiting device `i` of the remaining devices: its calls if it is polled, then the rest. */
  lemma CycleTraceStep(devices: seq<Device>, i: nat, k: nat, reading: nat -> Value)
    requires i < |devices|
    ensures CycleTrace(devices[i..], k, reading)
         == if Polled(devices[i])
            then DeviceCycle(devices[i], k, reading) + CycleTrace(devices[i + 1..], k + |TagsOf(devices[i])|, reading)
            else CycleTrace(devices[i + 1..], k, reading)
  {
    assert devices[i..][1..] == devices[i + 1..];
  }

  /** The names of the tags a cycle visits, device by device. */
  function PolledTagNames(devices: seq<Device>): seq<string>
    decreases |devices|
  {
    if devices == [] then []
    else (if Polled(devices[0]) then TagNames(TagsOf(devices[0])) else []) + PolledTagNames(devices[1..])
  }

  /** Keeps, in order, what `pick` extracts from each event. */
  function Select<X>(events: seq<Event>, pick: Event -> Option<X>): seq<X>
    decreases |events|
  {
    if events == [] then []
    else (match pick(events[0]) case Some(x) => [x] case None => []) + Select(events[1..], pick)
  }

  function ForwardOf(e: Event): Option<(string, Value)>
  {
    if e.WriteValue? then Some((e.name, e.value)) else None
  }

  function ReadOf(e: Event): Option<Value>
  {
    if e.ReadHoldingRegisters? then Some(e.result) else None
  }

  /** The `write_value` calls of a trace, in order. */
  function Forwarded(events: seq<Event>): seq<(string, Value)>
  {
    Select(events, ForwardOf)
  }

  function ForwardedNames(events: seq<Event>): seq<string>
  {
    Select(events, (e: Event) => if e.WriteValue? then Some(e.name) else None)
  }

  function ForwardedValues(events: seq<Event>): seq<Value>
  {
    Select(events, (e: Event) => if e.WriteValue? then Some(e.value) else None)
  }

  /** The answers of the register reads of a trace, in order. */
  function ReadResults(events: seq<Event>): seq<Value>
  {
    Select(events, ReadOf)
  }

  lemma {:induction false} SelectAppend<X>(a: seq<Event>, b: seq<Event>, pick: Event -> Option<X>)
    ensures Select(a + b, pick) == Select(a, pick) + Select(b, pick)
    decreases |a|
  {
    if a == [] {
      assert a + b == b;
    } else {
      assert (a + b)[0] == a[0];
      assert (a + b)[1..] == a[1..] + b;
      SelectAppend(a[1..], b, pick);
    }
  }

  /** Every register read of a cycle is a one-register read at address 0. */
  lemma {:induction false} CycleReadsAddressZero(devices: seq<Device>, k: nat, reading: nat -> Value)
    ensures forall e :: e in CycleTrace(devices, k, reading) && e.ReadHoldingRegisters? ==>
      e.address == 0 && e.count == 1
    decreases |devices|
  {
    if devices != [] {
      var d := devices[0];
      var k' := if Polled(d) then k + |TagsOf(d)| else k;
      CycleReadsAddressZero(devices[1..], k', reading);
      if Polled(d) {
        var tagCalls := TagReads(d.name, TagsOf(d), k, reading);
        TagReadsShape(d.name, TagsOf(d), k, reading);
        forall e | e in tagCalls && e.ReadHoldingRegisters? ensures e.address == 0 && e.count == 1 {
          var p :| 0 <= p < |tagCalls| && tagCalls[p] == e;
          var i := p / 2;
          assert p == 2 * i || p == 2 * i + 1;
          assert TagsOf(d)[i].name == TagsOf(d)[i].name;
        }
      }
    }
  }

  /**
   * A cycle forwards to `write_value` exactly the tags of the polled devices,
   * in registration order and, within a device, in tag order; devices that are
   * not polled contribute nothing.
   */
  lemma {:induction false} CycleForwardsPolledTags(devices: seq<Device>, k: nat, reading: nat -> Value)
    ensures ForwardedNames(CycleTrace(devices, k, reading)) == PolledTagNames(devices)
    decreases |devices|
  {
    if devices != [] {
      var d := devices[0];
      var k' := if Polled(d) then k + |TagsOf(d)| else k;
      CycleForwardsPolledTags(devices[1..], k', reading);
      if Polled(d) {
        var pick := (e: Event) => if e.WriteValue? then Some(e.name) else None;
        var tagCalls := TagReads(d.name, TagsOf(d), k, reading);
        TagReadsForwardNames(d.name, TagsOf(d), k, reading);
        SelectAppend([Connect(d.name)] + tagCalls, [Close(d.name)], pick);
        SelectAppend([Connect(d.name)], tagCalls, pick);
        SelectAppend(DeviceCycle(d, k, reading), CycleTrace(devices[1..], k', reading), pick);
      }
    }
  }

  lemma {:induction false} TagReadsForwardNames(device: string, tags: seq<Tag>, k: nat, reading: nat -> Value)
    ensures ForwardedNames(TagReads(device, tags, k, reading)) == TagNames(tags)
    ensures ForwardedValues(TagReads(device, tags, k, reading)) == ReadResults(TagReads(device, tags, k, reading))
    decreases |tags|
  {
    if tags != [] {
      var rest := TagReads(device, tags[1..], k + 1, reading);
      TagReadsForwardNames(device, tags[1..], k + 1, reading);
      var head := [ReadHoldingRegisters(device, 0, 1, reading(k)), WriteValue(tags[0].name, reading(k))];
      SelectAppend(head, rest, (e: Event) => if e.WriteValue? then Some(e.name) else None);
      SelectAppend(head, rest, (e: Event) => if e.WriteValue? then Some(e.value) else None);
      SelectAppend(head, rest, ReadOf);
      assert TagNames(tags) == [tags[0].name] + TagNames(tags[1..]);
    }
  }

  /** Each forwarded value is the answer of the read just made, in the same order. */
  lemma {:induction false} CycleForwardsWhatItReads(devices: seq<Device>, k: nat, reading: nat -> Value)
    ensures ForwardedValues(CycleTrace(devices, k, reading)) == ReadResults(CycleTrace(devices, k, reading))
    ensures |ReadResults(CycleTrace(devices, k, reading))| == |PolledTagNames(devices)|
    decreases |devices|
  {
    if devices != [] {
      var d := devices[0];
      var k' := if Polled(d) then k + |TagsOf(d)| else k;
      CycleForwardsWhatItReads(devices[1..], k', reading);
      CycleForwardsPolledTags(devices, k, reading);
      CycleForwardsPolledTags(devices[1..], k', reading);
      if Polled(d) {
        var values := (e: Event) => if e.WriteValue? then Some(e.value) else None;
        var tagCalls := TagReads(d.name, TagsOf(d), k, reading);
        var rest := CycleTrace(devices[1..], k', reading);
        TagReadsForwardNames(d.name, TagsOf(d), k, reading);
        SelectAppend([Connect(d.name)] + tagCalls, [Close(d.name)], values);
        SelectAppend([Connect(d.name)], tagCalls, values);
        SelectAppend(DeviceCycle(d, k, reading), rest, values);
        SelectAppend([Connect(d.name)] + tagCalls, [Close(d.name)], ReadOf);
        SelectAppend([Connect(d.name)], tagCalls, ReadOf);
        SelectAppend(DeviceCycle(d, k, reading), rest, ReadOf);
        TagReadsCount(d.name, TagsOf(d), k, reading);
      }
    }
  }

  lemma {:induction false} TagReadsCount(device: string, tags: seq<Tag>, k: nat, reading: nat -> Value)
    ensures |ReadResults(TagReads(device, tags, k, reading))| == |tags|
    decreases |tags|
  {
    if tags != [] {
      var rest := TagReads(device, tags[1..], k + 1, reading);
      TagReadsCount(device, tags[1..], k + 1, reading);
      var head := [ReadHoldingRegisters(device, 0, 1, reading(k)), WriteValue(tags[0].name, reading(k))];
      SelectAppend(head, rest, ReadOf);
    }
  }

  /** The forwarded writes of a cycle never register a variable; from an empty dictionary they change nothing. */
  lemma CycleKeepsVariableNames(vars: OpcuaServer.Variables, devices: seq<Device>, k: nat, reading: nat -> Value)
    ensures OpcuaServer.WriteAll(vars, Forwarded(CycleTrace(devices, k, reading))).Keys == vars.Keys
    ensures vars == map[] ==> OpcuaServer.WriteAll(vars, Forwarded(CycleTrace(devices, k, reading))) == map[]
  {
    OpcuaServer.WriteAllKeepsNames(vars, Forwarded(CycleTrace(devices, k, reading)));
  }
}
