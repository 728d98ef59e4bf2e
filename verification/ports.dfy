/** Named input and output ports of a node (core/src/parameter/dynamic_port.rs): two
    tables keyed by port id, each filled by inserts where a later port replaces an earlier
    one with the same id. */
module Ports {
  import opened Wrappers
  import opened LastWins
  import DataTypes

  datatype Port = Port(id: string, dataType: DataTypes.DataType, multiple: bool)

  /** Each port was inserted under its own id. */
  ghost predicate UnderOwnId(added: seq<(string, Port)>) {
    forall i | 0 <= i < |added| :: added[i].0 == added[i].1.id
  }

  /** The ghost logs record every port added, in order. */
  class DynamicPorts {
    var inputs: map<string, Port>
    var outputs: map<string, Port>
    ghost var addedInputs: seq<(string, Port)>
    ghost var addedOutputs: seq<(string, Port)>

    /** Each table is what its log of inserts leaves. */
    ghost predicate Valid()
      reads this
    {
      && inputs == Fold(addedInputs) && UnderOwnId(addedInputs)
      && outputs == Fold(addedOutputs) && UnderOwnId(addedOutputs)
    }

    /** `new`: no input and no output ports. */
    constructor()
      ensures Valid() && inputs == map[] && outputs == map[]
      ensures addedInputs == [] && addedOutputs == []
    {
      inputs, outputs := map[], map[];
      addedInputs, addedOutputs := [], [];
    }

    /** `add_input`: stores the port under its id; the outputs are untouched. */
    method AddInput(port: Port)
      requires Valid()
      modifies this
      ensures Valid()
      ensures inputs == old(inputs)[port.id := port] && outputs == old(outputs)
      ensures addedInputs == old(addedInputs) + [(port.id, port)] && addedOutputs == old(addedOutputs)
    {
      FoldAppend(addedInputs, (port.id, port));
      inputs := inputs[port.id := port];
      addedInputs := addedInputs + [(port.id, port)];
    }

    /** `add_output`: stores the port under its id; the inputs are untouched. */
    method AddOutput(port: Port)
      requires Valid()
      modifies this
      ensures Valid()
      ensures outputs == old(outputs)[port.id := port] && inputs == old(inputs)
      ensures addedOutputs == old(addedOutputs) + [(port.id, port)] && addedInputs == old(addedInputs)
    {
      FoldAppend(addedOutputs, (port.id, port));
      outputs := outputs[port.id := port];
      addedOutputs := addedOutputs + [(port.id, port)];
    }

    /** `get_input`: the last input port added with that id, None when there was none. */
    function GetInput(id: string): (r: Option<Port>)
      requires Valid()
      reads this
      ensures r.Some? <==> exists i | 0 <= i < |addedInputs| :: addedInputs[i].0 == id
      ensures r.Some? ==> r.value.id == id && exists i :: LastUnder(addedInputs, i, id) && r.value == addedInputs[i].1
    {
      FoldLookup(addedInputs, id);
      if id in inputs then Some(inputs[id]) else None
    }

    /** `get_output`: the last output port added with that id, None when there was none. */
    function GetOutput(id: string): (r: Option<Port>)
      requires Valid()
      reads this
      ensures r.Some? <==> exists i | 0 <= i < |addedOutputs| :: addedOutputs[i].0 == id
      ensures r.Some? ==> r.value.id == id && exists i :: LastUnder(addedOutputs, i, id) && r.value == addedOutputs[i].1
    {
      FoldLookup(addedOutputs, id);
      if id in outputs then Some(outputs[id]) else None
    }
  }

  /** Adding a second port with the same id replaces the first, and an input port is not
      an output port. */
  method ReplacePort() returns (input: Option<Port>, output: Option<Port>)
    ensures input == Some(Port("x", DataTypes.Number, true))
    ensures output == None
  {
    var ports := new DynamicPorts();
    ports.AddInput(Port("x", DataTypes.Text, false));
    ports.AddInput(Port("x", DataTypes.Number, true));
    input := ports.GetInput("x");
    output := ports.GetOutput("x");
  }
}
