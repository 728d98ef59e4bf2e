/** The workflow document (core/src/workflow/serialization.rs): nodes with a free-form JSON
    payload, edges between node ids, and the lookup of a node by id. */
module Serialization {
  import opened Wrappers
  import opened JsonValues
  import DataValues

  /** A canvas position; the coordinates are IEEE doubles, kept as their bit patterns. */
  datatype Position = Position(x: DataValues.F64, y: DataValues.F64)

  datatype NodeData = NodeData(
    id: string,
    nodeType: string,
    position: Position,
    data: Json,
    config: Option<Json>,
    defaultInputs: Option<Json>,
    inputTypes: Option<Json>)

  datatype EdgeData = EdgeData(id: string, source: string, target: string, animated: bool)

  datatype WorkflowData = WorkflowData(version: string, nodes: seq<NodeData>, edges: seq<EdgeData>)
  {
    /** `get_node`. */
    function GetNode(nodeId: string): Option<NodeData> {
      FindNode(nodes, nodeId)
    }
  }

  /** `nodes.iter().find(|node| node.id == node_id)`: the first node carrying the id, None
      when no node carries it. */
  function FindNode(nodes: seq<NodeData>, nodeId: string): (r: Option<NodeData>)
    ensures r.None? <==> forall i | 0 <= i < |nodes| :: nodes[i].id != nodeId
    ensures r.Some? ==> exists i | 0 <= i < |nodes| :: nodes[i] == r.value
                          && nodes[i].id == nodeId && forall j | 0 <= j < i :: nodes[j].id != nodeId
  {
    if |nodes| == 0 then None
    else if nodes[0].id == nodeId then Some(nodes[0])
    else
      var r := FindNode(nodes[1..], nodeId);
      assert forall j | 1 <= j < |nodes| :: nodes[j] == nodes[1..][j - 1];
      r
  }

  /** The ids of the declared nodes. */
  function NodeIds(nodes: seq<NodeData>): set<string> {
    set n | n in nodes :: n.id
  }

  /** The edges as (source, target) pairs, in order. */
  function Links(edges: seq<EdgeData>): seq<(string, string)> {
    seq(|edges|, i requires 0 <= i < |edges| => (edges[i].source, edges[i].target))
  }

  /** A lookup succeeds exactly for a declared id. */
  lemma FoundIffDeclared(nodes: seq<NodeData>, nodeId: string)
    ensures FindNode(nodes, nodeId).Some? <==> nodeId in NodeIds(nodes)
  {
    if nodeId in NodeIds(nodes) {
      var n :| n in nodes && n.id == nodeId;
    }
  }
}
