/** The wiring between node ports (core/src/parameter/connection.rs): every connection in
    the order it was made, and for each target port the source it was last connected
    from. */
module Connections {
  import opened Wrappers
  import opened LastWins

  datatype Connection = Connection(fromNode: string, fromPort: string, toNode: string, toPort: string)

  /** The entry a connection makes in the incoming table: its target port, keyed to its
      source port. */
  function Route(c: Connection): ((string, string), (string, string)) {
    ((c.toNode, c.toPort), (c.fromNode, c.fromPort))
  }

  function Routes(cs: seq<Connection>): seq<((string, string), (string, string))> {
    seq(|cs|, i requires 0 <= i < |cs| => Route(cs[i]))
  }

  class ConnectionGraph {
    var connections: seq<Connection>
    var incoming: map<(string, string), (string, string)>

    /** The incoming table is what the connections, made in order, leave. */
    ghost predicate Valid()
      reads this
    {
      incoming == Fold(Routes(connections))
    }

    /** `new`: no connections. */
    constructor()
      ensures Valid() && connections == [] && incoming == map[]
    {
      connections, incoming := [], map[];
    }

    /** `connect`: records the source of the target port, replacing an earlier one, and
        appends the connection. */
    method Connect(conn: Connection)
      requires Valid()
      modifies this
      ensures Valid()
      ensures connections == old(connections) + [conn]
      ensures incoming == old(incoming)[(conn.toNode, conn.toPort) := (conn.fromNode, conn.fromPort)]
    {
      assert Routes(connections + [conn]) == Routes(connections) + [Route(conn)];
      FoldAppend(Routes(connections), Route(conn));
      incoming := incoming[(conn.toNode, conn.toPort) := (conn.fromNode, conn.fromPort)];
      connections := connections + [conn];
    }

    /** `get_source`: the source of the last connection made into the port, None when no
        connection goes into it. */
    function GetSource(node: string, port: string): (r: Option<(string, string)>)
      requires Valid()
      reads this
      ensures r.Some? <==> exists i | 0 <= i < |connections| :: connections[i].toNode == node && connections[i].toPort == port
      ensures r.Some? ==> exists i :: LastUnder(Routes(connections), i, (node, port))
                                      && r.value == Route(connections[i]).1
    {
      FoldLookup(Routes(connections), (node, port));
      assert forall i | 0 <= i < |connections| :: Routes(connections)[i] == Route(connections[i]);
      if (node, port) in incoming then Some(incoming[(node, port)]) else None
    }
  }

  /** Two connections into the same port: both are kept, and the second one is the port's
      source. */
  method Rewire() returns (count: nat, source: Option<(string, string)>)
    ensures count == 2 && source == Some(("b", "out"))
  {
    var graph := new ConnectionGraph();
    graph.Connect(Connection("a", "out", "c", "in"));
    graph.Connect(Connection("b", "out", "c", "in"));
    count := |graph.connections|;
    source := graph.GetSource("c", "in");
  }
}
