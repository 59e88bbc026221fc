/**
 * The OPC UA facade of app/opcua_main/opcua_server.py, reduced to the part the
 * handlers can observe: the `variables` dictionary from a tag name to its
 * variable node, a node being represented by the value it holds.
 */
module OpcuaServer {
  import opened Values

  type Variables = map<string, Value>

  /** The defaults of the constructor's keyword arguments, and the namespace it registers. */
  const Endpoint := "opc.tcp://0.0.0.0:4840"
  const ServerName := "OPCUA Server"
  const NamespaceUri := "http://examples.freeopcua.github.io"

  /** What `read_value` answers: the stored value, or `None` for an unknown name. */
  function Read(vars: Variables, name: string): Value
  {
    if name in vars then vars[name] else Null
  }

  /** What `write_value` leaves behind: unknown names are only logged. */
  function Write(vars: Variables, name: string, value: Value): Variables
  {
    if name in vars then vars[name := value] else vars
  }

  /** A write to a registered name is seen by the next read of that name. */
  lemma ReadAfterWrite(vars: Variables, name: string, value: Value)
    requires name in vars
    ensures Read(Write(vars, name, value), name) == value
  {
  }

  /** A write changes the entry it names and no other. */
  lemma WriteFrame(vars: Variables, name: string, value: Value, other: string)
    requires other != name
    ensures other in Write(vars, name, value) <==> other in vars
    ensures Read(Write(vars, name, value), other) == Read(vars, other)
  {
  }

  /** A write never registers a name: the key set is unchanged, and an unknown name is a no-op. */
  lemma WriteKeepsNames(vars: Variables, name: string, value: Value)
    ensures Write(vars, name, value).Keys == vars.Keys
    ensures name !in vars ==> Write(vars, name, value) == vars
  {
  }

  /** Applies a sequence of `write_value` calls in order. */
  function WriteAll(vars: Variables, writes: seq<(string, Value)>): Variables
    decreases |writes|
  {
    if writes == [] then vars
    else WriteAll(Write(vars, writes[0].0, writes[0].1), writes[1..])
  }

  /** Applying one more write after a batch is the same as appending it to the batch. */
  lemma {:induction false} WriteAllSnoc(vars: Variables, writes: seq<(string, Value)>, w: (string, Value))
    ensures WriteAll(vars, writes + [w]) == Write(WriteAll(vars, writes), w.0, w.1)
    decreases |writes|
  {
    if writes != [] {
      assert (writes + [w])[1..] == writes[1..] + [w];
      WriteAllSnoc(Write(vars, writes[0].0, writes[0].1), writes[1..], w);
    }
  }

  /** Two batches of writes in a row are one batch. */
  lemma {:induction false} WriteAllAppend(vars: Variables, a: seq<(string, Value)>, b: seq<(string, Value)>)
    ensures WriteAll(vars, a + b) == WriteAll(WriteAll(vars, a), b)
    decreases |a|
  {
    if a == [] {
      assert a + b == b;
    } else {
      assert (a + b)[0] == a[0];
      assert (a + b)[1..] == a[1..] + b;
      WriteAllAppend(Write(vars, a[0].0, a[0].1), a[1..], b);
    }
  }

  /** However many writes arrive, no name is ever added to or removed from `variables`. */
  lemma {:induction false} WriteAllKeepsNames(vars: Variables, writes: seq<(string, Value)>)
    ensures WriteAll(vars, writes).Keys == vars.Keys
    decreases |writes|
  {
    if writes != [] {
      WriteKeepsNames(vars, writes[0].0, writes[0].1);
      WriteAllKeepsNames(Write(vars, writes[0].0, writes[0].1), writes[1..]);
    }
  }

  /** Starting from the empty dictionary of the constructor, every read answers `None`. */
  lemma {:induction false} EmptyStaysEmpty(writes: seq<(string, Value)>, name: string)
    ensures WriteAll(map[], writes) == map[]
    ensures Read(WriteAll(map[], writes), name) == Null
  {
    WriteAllKeepsNames(map[], writes);
  }

  /** An object node created by `add_object` in the server's namespace. */
  datatype ObjectNode = ObjectNode(namespace: nat, name: string)

  /** A variable node created by `add_variable_to_object`. */
  datatype VariableNode = VariableNode(parent: ObjectNode, name: string, value: Value, writable: bool)

  class Server {
    const endpoint: string
    const serverName: string
    const namespaceUri: string
    /** The namespace index that registering `namespaceUri` produced. */
    const idx: nat
    var variables: Variables

    /**
     * `endpoint` and `serverName` are the keyword arguments, whose defaults are
     * `Endpoint` and `ServerName`; the namespace index is assigned by the OPC UA
     * library, so it is a parameter here.
     */
    constructor (endpoint: string, serverName: string, namespaceIndex: nat)
      ensures this.endpoint == endpoint && this.serverName == serverName
      ensures namespaceUri == NamespaceUri && idx == namespaceIndex
      ensures variables == map[]
    {
      this.endpoint := endpoint;
      this.serverName := serverName;
      namespaceUri := NamespaceUri;
      idx := namespaceIndex;
      variables := map[];
    }

    /** Creates an object node; `variables` is not touched (no modifies clause). */
    method AddObject(objectName: string) returns (obj: ObjectNode)
      ensures obj.namespace == idx && obj.name == objectName
      ensures variables == old(variables)
    {
      obj := ObjectNode(idx, objectName);
    }

    /** Creates a writable variable node under `obj`; the node is NOT entered in `variables`. */
    method AddVariableToObject(obj: ObjectNode, varName: string, initialValue: Value)
      returns (node: VariableNode)
      ensures node.parent == obj && node.name == varName
      ensures node.value == initialValue && node.writable
      ensures variables == old(variables)
    {
      node := VariableNode(obj, varName, initialValue, true);
    }

    method WriteValue(varName: string, value: Value)
      modifies this
      ensures variables.Keys == old(variables).Keys
      ensures varName in old(variables) ==> variables == old(variables)[varName := value]
      ensures varName !in old(variables) ==> variables == old(variables)
      ensures variables == Write(old(variables), varName, value)
    {
      if varName in variables {
        variables := variables[varName := value];
      }
    }

    method ReadValue(varName: string) returns (value: Value)
      ensures varName in variables ==> value == variables[varName]
      ensures varName !in variables ==> value == Null
      ensures value == Read(variables, varName)
    {
      if varName in variables {
        value := variables[varName];
      } else {
        value := Null;
      }
    }
  }
}
