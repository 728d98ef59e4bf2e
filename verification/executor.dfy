/** Workflow execution (core/src/workflow/executor.rs): Kahn's topological sort over the
    workflow's nodes and edges, then one pass over the order that runs each node by its
    type and stores its outputs in the run's context. */
module Executor {
  import opened Wrappers
  import opened Graphs
  import opened JsonValues
  import opened DataValues
  import opened Serialization
  import Context

  datatype WorkflowError =
    | UnknownNodeType(nodeType: string)
    | MissingConfig
    | MissingInput
    | CycleDetected
    | NodeNotFound(nodeId: string)

  // ---------------------------------------------------------------------------------------
  // What the sort's loop leaves behind.

  /** Every predecessor of a node of `order` appears before it. */
  ghost predicate Forward(edges: seq<(string, string)>, order: seq<string>) {
    forall i, u | 0 <= i < |order| && Linked(edges, u, order[i]) :: u in order[..i]
  }

  /** Every tracked node missing from `order` has a predecessor that is missing too. */
  ghost predicate Stuck(edges: seq<(string, string)>, keys: set<string>, order: seq<string>) {
    forall v | v in keys && v !in order :: exists u :: Linked(edges, u, v) && u !in order
  }

  /** The emitted order of Kahn's algorithm over the tracked nodes `keys`: no repeats, only
      tracked nodes, each after all its predecessors, and whatever was not emitted waits
      on something else that was not emitted. */
  ghost predicate KahnOutcome(edges: seq<(string, string)>, keys: set<string>, order: seq<string>) {
    Distinct(order) && Elems(order) <= keys && Forward(edges, order) && Stuck(edges, keys, order)
  }

  /** The loop state of the sort: `inDegree` counts, for every tracked node, the edges into
      it from nodes not yet emitted, plus `extra` (the successors of the node just emitted
      that are still to be worked off); the queue holds, once each, exactly the tracked
      nodes not yet emitted whose count is zero. */
  ghost predicate Tables(edges: seq<(string, string)>, keys: set<string>, inDegree: map<string, nat>,
                         queue: seq<string>, order: seq<string>, extra: multiset<string>)
  {
    && inDegree.Keys == keys
    && Targets(edges) <= keys
    && (forall v | v in keys :: inDegree[v] == Pending(edges, Elems(order))[v] + extra[v])
    && Distinct(order) && Elems(order) <= keys && Forward(edges, order)
    && Distinct(queue)
    && Elems(queue) == set v | v in keys && v !in Elems(order) && inDegree[v] == 0
  }

  /** The tables as they stand before the loop. */
  lemma StartTables(edges: seq<(string, string)>, inDegree: map<string, nat>, queue: seq<string>)
    requires Targets(edges) <= inDegree.Keys
    requires forall v | v in inDegree :: inDegree[v] == InDegree(edges, v)
    requires Distinct(queue) && Elems(queue) == set v | v in inDegree && inDegree[v] == 0
    ensures Tables(edges, inDegree.Keys, inDegree, queue, [], multiset{})
  {
    assert Elems<string>([]) == {};
  }

  /** A successor of the last emitted node has not been emitted. */
  lemma NotEmitted(edges: seq<(string, string)>, order: seq<string>, w: string)
    requires Distinct(order) && Forward(edges, order) && |order| > 0
    requires Linked(edges, order[|order| - 1], w)
    ensures w !in order
  {
  }

  /** Emitting a node whose predecessors were all emitted keeps the order forward. */
  lemma EmitForward(edges: seq<(string, string)>, order: seq<string>, u: string)
    requires Forward(edges, order)
    requires forall x | Linked(edges, x, u) :: x in order
    ensures Forward(edges, order + [u])
  {
    var order' := order + [u];
    forall i, x | 0 <= i < |order'| && Linked(edges, x, order'[i])
      ensures x in order'[..i]
    {
      if i < |order| {
        assert order'[..i] == order[..i] && order'[i] == order[i];
      } else {
        assert order'[..i] == order;
      }
    }
  }

  /** Popping the head of the queue: it is a tracked node not yet emitted, all its
      predecessors were emitted, and its successors are what remains to be worked off. */
  lemma EmitNode(edges: seq<(string, string)>, keys: set<string>, inDegree: map<string, nat>,
                 queue: seq<string>, order: seq<string>)
    requires Tables(edges, keys, inDegree, queue, order, multiset{}) && queue != []
    ensures queue[0] in keys && queue[0] !in order
    ensures Tables(edges, keys, inDegree, queue[1..], order + [queue[0]],
                   multiset(Succ(Adjacency(edges), queue[0])))
  {
    var u := queue[0];
    var done := Elems(order);
    assert u in Elems(queue);
    PendingPredecessors(edges, done, u);
    PendingStep(edges, done, u);
    EmitForward(edges, order, u);
    DistinctAppend(order, u);
    DistinctTail(queue);
  }

  /** The successors of a node are linked from it. */
  lemma SuccessorsLinked(edges: seq<(string, string)>, u: string)
    ensures forall w | w in Succ(Adjacency(edges), u) :: Linked(edges, u, w)
  {
    forall w | w in Succ(Adjacency(edges), u)
      ensures Linked(edges, u, w)
    {
      SuccIsLinked(edges, u, w);
    }
  }

  /** Working off one successor `w` of the last emitted node: its count is positive, and
      after the decrement it joins the queue exactly when the count reaches zero. */
  lemma DecrementSuccessor(edges: seq<(string, string)>, keys: set<string>, inDegree: map<string, nat>,
                           queue: seq<string>, order: seq<string>, rest: seq<string>)
    requires Tables(edges, keys, inDegree, queue, order, multiset(rest))
    requires rest != [] && |order| > 0 && Linked(edges, order[|order| - 1], rest[0])
    ensures rest[0] in inDegree && inDegree[rest[0]] >= 1
    ensures var w := rest[0];
            var d := inDegree[w] - 1;
            Tables(edges, keys, inDegree[w := d], if d == 0 then queue + [w] else queue, order,
                   multiset(rest[1..]))
  {
    var w := rest[0];
    assert (order[|order| - 1], w) in edges;
    assert w in Targets(edges);
    NotEmitted(edges, order, w);
    DecrementCount(edges, keys, inDegree, order, rest);
    DecrementQueue(keys, inDegree, queue, Elems(order), w);
  }

  /** Taking one successor off the pending list takes one off its count. */
  lemma DecrementCount(edges: seq<(string, string)>, keys: set<string>, inDegree: map<string, nat>,
                       order: seq<string>, rest: seq<string>)
    requires inDegree.Keys == keys && rest != [] && rest[0] in keys
    requires forall v | v in keys :: inDegree[v] == Pending(edges, Elems(order))[v] + multiset(rest)[v]
    ensures inDegree[rest[0]] >= 1
    ensures var w := rest[0];
            forall v | v in keys ::
              inDegree[w := inDegree[w] - 1][v] == Pending(edges, Elems(order))[v] + multiset(rest[1..])[v]
  {
    assert rest == [rest[0]] + rest[1..];
  }

  /** A count that drops to zero puts its node, not yet emitted, at the back of the queue. */
  lemma DecrementQueue(keys: set<string>, inDegree: map<string, nat>, queue: seq<string>,
                       emitted: set<string>, w: string)
    requires inDegree.Keys == keys && w in keys && w !in emitted && inDegree[w] >= 1
    requires Distinct(queue) && Elems(queue) == set v | v in keys && v !in emitted && inDegree[v] == 0
    ensures var d := inDegree[w] - 1;
            var queue' := if d == 0 then queue + [w] else queue;
            && Distinct(queue')
            && Elems(queue') == set v | v in keys && v !in emitted && inDegree[w := d][v] == 0
  {
    if inDegree[w] == 1 {
      assert w !in Elems(queue);
      DistinctAppend(queue, w);
    }
  }

  /** With the queue empty, every tracked node that was not emitted waits on a
      predecessor that was not emitted either. */
  lemma QueueEmpty(edges: seq<(string, string)>, keys: set<string>, inDegree: map<string, nat>,
                   order: seq<string>)
    requires Tables(edges, keys, inDegree, [], order, multiset{})
    ensures KahnOutcome(edges, keys, order)
  {
    forall v | v in keys && v !in order
      ensures exists u :: Linked(edges, u, v) && u !in order
    {
      assert v !in Elems([]);
      PendingPredecessors(edges, Elems(order), v);
    }
  }

  // ---------------------------------------------------------------------------------------
  // The sort.

  /** One more edge adds one to its target's in-degree and leaves the rest alone. */
  lemma InDegreeStep(edges: seq<(string, string)>, i: nat)
    requires i < |edges|
    ensures Adjacency(edges[..i + 1]) == AddEdge(Adjacency(edges[..i]), edges[i])
    ensures forall v :: InDegree(edges[..i + 1], v) == InDegree(edges[..i], v) + (if v == edges[i].1 then 1 else 0)
  {
    assert edges[..i + 1][..i] == edges[..i];
  }

  /** A node that no edge targets has in-degree zero. */
  lemma {:induction false} InDegreeOutsideTargets(edges: seq<(string, string)>, v: string)
    requires v !in Targets(edges)
    ensures InDegree(edges, v) == 0
  {
    if |edges| > 0 {
      var rest := edges[..|edges| - 1];
      assert Targets(rest) <= Targets(edges);
      InDegreeOutsideTargets(rest, v);
    }
  }

  /** Lines 86-103: the adjacency lists and the in-degree table. */
  method BuildTables(nodes: seq<NodeData>, edges: seq<(string, string)>)
    returns (adjacency: map<string, seq<string>>, inDegree: map<string, nat>)
    ensures adjacency == Adjacency(edges)
    ensures inDegree.Keys == NodeIds(nodes) + Targets(edges)
    ensures forall v | v in inDegree :: inDegree[v] == InDegree(edges, v)
  {
    var declared := DeclareNodes(nodes);
    adjacency, inDegree := AddEdges(declared, edges);
  }

  /** Lines 91-94: every declared node gets a count of zero. */
  method DeclareNodes(nodes: seq<NodeData>) returns (inDegree: map<string, nat>)
    ensures inDegree.Keys == NodeIds(nodes)
    ensures forall v | v in inDegree :: inDegree[v] == 0
  {
    inDegree := map[];
    for i := 0 to |nodes|
      invariant inDegree.Keys == NodeIds(nodes[..i])
      invariant forall v | v in inDegree :: inDegree[v] == 0
    {
      if nodes[i].id !in inDegree {
        inDegree := inDegree[nodes[i].id := 0];
      }
      assert nodes[..i + 1] == nodes[..i] + [nodes[i]];
    }
    assert nodes[..|nodes|] == nodes;
  }

  /** The tables after the first `i` edges. */
  ghost predicate EdgeTables(declared: map<string, nat>, edges: seq<(string, string)>, i: nat,
                             adjacency: map<string, seq<string>>, inDegree: map<string, nat>)
    requires i <= |edges|
  {
    && adjacency == Adjacency(edges[..i])
    && inDegree.Keys == declared.Keys + Targets(edges[..i])
    && forall v | v in inDegree :: inDegree[v] == InDegree(edges[..i], v)
  }

  /** Adding edge `i` to the tables. */
  lemma AddEdgeStep(declared: map<string, nat>, edges: seq<(string, string)>, i: nat,
                    adjacency: map<string, seq<string>>, inDegree: map<string, nat>)
    requires i < |edges| && EdgeTables(declared, edges, i, adjacency, inDegree)
    ensures var (source, target) := edges[i];
            EdgeTables(declared, edges, i + 1,
                       adjacency[source := (if source in adjacency then adjacency[source] else []) + [target]],
                       inDegree[target := (if target in inDegree then inDegree[target] else 0) + 1])
  {
    InDegreeStep(edges, i);
    DegreeStep(declared, edges, i, inDegree);
  }

  /** Adding edge `i` to the in-degree table. */
  lemma DegreeStep(declared: map<string, nat>, edges: seq<(string, string)>, i: nat, inDegree: map<string, nat>)
    requires i < |edges|
    requires inDegree.Keys == declared.Keys + Targets(edges[..i])
    requires forall v | v in inDegree :: inDegree[v] == InDegree(edges[..i], v)
    ensures var target := edges[i].1;
            var next := inDegree[target := (if target in inDegree then inDegree[target] else 0) + 1];
            && next.Keys == declared.Keys + Targets(edges[..i + 1])
            && forall v | v in next :: next[v] == InDegree(edges[..i + 1], v)
  {
    var target := edges[i].1;
    var next := inDegree[target := (if target in inDegree then inDegree[target] else 0) + 1];
    TargetsStep(edges, i);
    if target !in inDegree {
      InDegreeOutsideTargets(edges[..i], target);
    }
    InDegreeStep(edges, i);
    forall v | v in next
      ensures next[v] == InDegree(edges[..i + 1], v)
    {
      if v != target {
        assert next[v] == inDegree[v];
      }
    }
  }

  /** One more edge adds its target to the targets. */
  lemma TargetsStep(edges: seq<(string, string)>, i: nat)
    requires i < |edges|
    ensures Targets(edges[..i + 1]) == Targets(edges[..i]) + {edges[i].1}
  {
    assert edges[..i + 1] == edges[..i] + [edges[i]];
  }

  /** Lines 97-103: every edge is appended to its source's list and adds one to its
      target's count. */
  method AddEdges(declared: map<string, nat>, edges: seq<(string, string)>)
    returns (adjacency: map<string, seq<string>>, inDegree: map<string, nat>)
    requires forall v | v in declared :: declared[v] == 0
    ensures adjacency == Adjacency(edges)
    ensures inDegree.Keys == declared.Keys + Targets(edges)
    ensures forall v | v in inDegree :: inDegree[v] == InDegree(edges, v)
  {
    adjacency, inDegree := map[], declared;
    assert edges[..0] == [];
    for i := 0 to |edges|
      invariant EdgeTables(declared, edges, i, adjacency, inDegree)
    {
      AddEdgeStep(declared, edges, i, adjacency, inDegree);
      var (source, target) := edges[i];
      var list := if source in adjacency then adjacency[source] else [];
      adjacency := adjacency[source := list + [target]];
      var degree := if target in inDegree then inDegree[target] else 0;
      inDegree := inDegree[target := degree + 1];
    }
    assert edges[..|edges|] == edges;
  }

  /** Lines 106-111: every node whose count is zero, once each, in the table's iteration
      order (left open). */
  method InitialQueue(inDegree: map<string, nat>) returns (queue: seq<string>)
    ensures Distinct(queue)
    ensures Elems(queue) == set v | v in inDegree && inDegree[v] == 0
  {
    queue := [];
    var unseen := inDegree.Keys;
    while unseen != {}
      invariant unseen <= inDegree.Keys
      invariant Distinct(queue)
      invariant Elems(queue) == set v | v in inDegree && v !in unseen && inDegree[v] == 0
      decreases unseen
    {
      var node :| node in unseen;
      if inDegree[node] == 0 {
        assert node !in Elems(queue);
        DistinctAppend(queue, node);
        queue := queue + [node];
      }
      unseen := unseen - {node};
    }
  }

  /** Lines 113-126: pop a node, emit it, and work off its successors. */
  method Drain(edges: seq<(string, string)>, adjacency: map<string, seq<string>>,
               inDegree0: map<string, nat>, queue0: seq<string>, ghost keys: set<string>)
    returns (order: seq<string>)
    requires adjacency == Adjacency(edges)
    requires Tables(edges, keys, inDegree0, queue0, [], multiset{})
    ensures KahnOutcome(edges, keys, order)
  {
    var inDegree, queue := inDegree0, queue0;
    order := [];
    while queue != []
      invariant Tables(edges, keys, inDegree, queue, order, multiset{})
      decreases keys - Elems(order)
    {
      var node := queue[0];
      EmitNode(edges, keys, inDegree, queue, order);
      SuccessorsLinked(edges, node);
      ghost var left := keys - Elems(order);
      assert Elems(order + [node]) == Elems(order) + {node};
      order := order + [node];
      assert keys - Elems(order) == left - {node} && node in left;
      var neighbors := if node in adjacency then adjacency[node] else [];
      inDegree, queue := WorkOff(edges, keys, inDegree, queue[1..], order, neighbors);
    }
    QueueEmpty(edges, keys, inDegree, order);
  }

  /** Lines 117-125: decrement the count of each successor of the node just emitted, in
      list order, queueing each one whose count reaches zero. */
  method WorkOff(edges: seq<(string, string)>, ghost keys: set<string>, inDegree0: map<string, nat>,
                 queue0: seq<string>, ghost order: seq<string>, neighbors: seq<string>)
    returns (inDegree: map<string, nat>, queue: seq<string>)
    requires Tables(edges, keys, inDegree0, queue0, order, multiset(neighbors))
    requires |order| > 0 && forall i | 0 <= i < |neighbors| :: Linked(edges, order[|order| - 1], neighbors[i])
    ensures Tables(edges, keys, inDegree, queue, order, multiset{})
  {
    inDegree, queue := inDegree0, queue0;
    for k := 0 to |neighbors|
      invariant Tables(edges, keys, inDegree, queue, order, multiset(neighbors[k..]))
    {
      DecrementSuccessor(edges, keys, inDegree, queue, order, neighbors[k..]);
      var neighbor := neighbors[k];
      assert neighbors[k..][1..] == neighbors[k + 1..];
      inDegree := inDegree[neighbor := inDegree[neighbor] - 1];
      if inDegree[neighbor] == 0 {
        queue := queue + [neighbor];
      }
    }
  }

  /** Lines 86-126: the emitted order, and the size of the in-degree table (the declared
      nodes and every edge target). */
  method Kahn(nodes: seq<NodeData>, edges: seq<(string, string)>) returns (order: seq<string>, tracked: nat)
    ensures KahnOutcome(edges, NodeIds(nodes) + Targets(edges), order)
    ensures tracked == |NodeIds(nodes) + Targets(edges)|
  {
    var adjacency, inDegree := BuildTables(nodes, edges);
    var queue := InitialQueue(inDegree);
    StartTables(edges, inDegree, queue);
    order := Drain(edges, adjacency, inDegree, queue, inDegree.Keys);
    tracked := |inDegree|;
  }

  /** The nodes the sort tracks: the declared ones and every edge target. */
  function Tracked(workflow: WorkflowData): set<string> {
    NodeIds(workflow.nodes) + Targets(Links(workflow.edges))
  }

  // ---------------------------------------------------------------------------------------
  // What the outcome means.

  /** The position of the first occurrence of `x`. */
  function IndexIn(s: seq<string>, x: string): (i: nat)
    requires x in s
    ensures i < |s| && s[i] == x
  {
    if s[0] == x then 0 else 1 + IndexIn(s[1..], x)
  }

  /** An order that holds every edge target, each after its predecessors, leaves no room
      for a cycle. */
  lemma ForwardAcyclic(edges: seq<(string, string)>, order: seq<string>)
    requires Distinct(order) && Forward(edges, order) && Targets(edges) <= Elems(order)
    ensures !Cyclic(edges)
  {
    var rank := map x | x in Elems(order) :: |order| - IndexIn(order, x);
    forall u, v | Linked(edges, u, v)
      ensures u in rank && v in rank && rank[v] < rank[u]
    {
      assert v in Targets(edges);
      var j := IndexIn(order, v);
      assert u in order[..j];
      var i :| 0 <= i < j && order[i] == u;
      assert IndexIn(order, u) == i;
    }
    RankedAcyclic(edges, rank);
  }

  /** A sort that emitted fewer nodes than it tracks left a cycle, or an edge whose source
      it does not track. */
  lemma ShortOrder(edges: seq<(string, string)>, keys: set<string>, order: seq<string>)
    requires KahnOutcome(edges, keys, order) && Elems(order) != keys
    requires Sources(edges) <= keys
    ensures Cyclic(edges)
  {
    var s := keys - Elems(order);
    assert s != {} by {
      var v :| v in keys && v !in Elems(order);
      assert v in s;
    }
    forall v | v in s
      ensures HasPredIn(edges, s, v)
    {
      var u :| Linked(edges, u, v) && u !in order;
      assert u in Sources(edges);
    }
    StalledSetHasCycle(edges, s);
  }

  /** The emitted count equals the tracked count exactly when the edges have no cycle
      and every edge source is tracked; in that case every tracked node was emitted. */
  lemma CountMeansAcyclic(edges: seq<(string, string)>, keys: set<string>, order: seq<string>)
    requires KahnOutcome(edges, keys, order) && Targets(edges) <= keys
    ensures |order| == |keys| <==> !Cyclic(edges) && Sources(edges) <= keys
    ensures |order| == |keys| ==> Elems(order) == keys
  {
    DistinctCard(order);
    SubsetCard(Elems(order), keys);
    if |order| == |keys| {
      ForwardAcyclic(edges, order);
      forall e | e in edges
        ensures e.0 in keys
      {
        assert e.1 in Targets(edges);
        var j := IndexIn(order, e.1);
        assert Linked(edges, e.0, order[j]);
      }
    } else if Sources(edges) <= keys {
      ShortOrder(edges, keys, order);
    }
  }

  /** Every node one Kahn outcome emits, any other emits too: a node missing from the
      second waits on a missing predecessor, which the first emitted before it. */
  lemma {:induction false} EmittedByBoth(edges: seq<(string, string)>, keys: set<string>,
                                         first: seq<string>, second: seq<string>, i: nat)
    requires Elems(first) <= keys && Forward(edges, first) && Stuck(edges, keys, second)
    requires i < |first|
    ensures first[i] in second
    decreases i
  {
    var v := first[i];
    if v !in second {
      assert v in keys by {
        assert v in Elems(first);
      }
      var u :| Linked(edges, u, v) && u !in second;
      assert u in first[..i];
      var j := IndexIn(first[..i], u);
      EmittedByBoth(edges, keys, first, second, j);
      assert false;
    }
  }

  /** The loop emits the same nodes, and so the same number of them, whatever order the
      tables are iterated in: the verdict of the count comparison is determined. */
  lemma KahnOutcomeUnique(edges: seq<(string, string)>, keys: set<string>,
                          first: seq<string>, second: seq<string>)
    requires KahnOutcome(edges, keys, first) && KahnOutcome(edges, keys, second)
    ensures Elems(first) == Elems(second) && |first| == |second|
  {
    forall v | v in Elems(first)
      ensures v in Elems(second)
    {
      var i :| 0 <= i < |first| && first[i] == v;
      EmittedByBoth(edges, keys, first, second, i);
    }
    forall v | v in Elems(second)
      ensures v in Elems(first)
    {
      var i :| 0 <= i < |second| && second[i] == v;
      EmittedByBoth(edges, keys, second, first, i);
    }
    DistinctCard(first);
    DistinctCard(second);
  }

  /** `topological_sort` as written: it compares the emitted count with the number of
      distinct declared ids, while the loop also tracks edge targets that no node declares.
      When every edge joins declared nodes, it succeeds exactly on acyclic edges and then
      lists every declared node once, each after its predecessors. */
  method TopologicalSortAsWritten(workflow: WorkflowData) returns (r: Result<seq<string>, WorkflowError>)
    ensures r.Err? ==> r.error == CycleDetected
    ensures r.Ok? ==> KahnOutcome(Links(workflow.edges), Tracked(workflow), r.value)
                      && |r.value| == |NodeIds(workflow.nodes)|
    ensures r.Err? ==> exists order :: KahnOutcome(Links(workflow.edges), Tracked(workflow), order)
                                      && |order| != |NodeIds(workflow.nodes)|
    ensures Endpoints(Links(workflow.edges)) <= NodeIds(workflow.nodes) ==>
              && (r.Ok? <==> !Cyclic(Links(workflow.edges)))
              && (r.Ok? ==> Elems(r.value) == NodeIds(workflow.nodes))
  {
    var edges := Links(workflow.edges);
    var order, tracked := Kahn(workflow.nodes, edges);
    var allNodes := NodeIds(workflow.nodes);
    if Endpoints(edges) <= allNodes {
      assert Tracked(workflow) == allNodes;
      CountMeansAcyclic(edges, allNodes, order);
    }
    if |order| != |allNodes| {
      return Err(CycleDetected);
    }
    return Ok(order);
  }

  /** `topological_sort` with the count compared against every node the loop tracks: it
      fails exactly when the edges have a cycle or an edge leaves a node that is neither
      declared nor an edge target; otherwise it lists every tracked node once, each after
      all its predecessors. */
  method TopologicalSort(workflow: WorkflowData) returns (r: Result<seq<string>, WorkflowError>)
    ensures r.Err? ==> r.error == CycleDetected
    ensures r.Err? <==> Cyclic(Links(workflow.edges)) || !(Sources(Links(workflow.edges)) <= Tracked(workflow))
    ensures r.Ok? ==> && Distinct(r.value) && Elems(r.value) == Tracked(workflow)
                      && Forward(Links(workflow.edges), r.value)
  {
    var edges := Links(workflow.edges);
    var order, tracked := Kahn(workflow.nodes, edges);
    CountMeansAcyclic(edges, Tracked(workflow), order);
    if |order| != tracked {
      return Err(CycleDetected);
    }
    return Ok(order);
  }

  // ---------------------------------------------------------------------------------------
  // A cycle the count comparison misses.

  /** A node with an empty payload. */
  function PlainNode(id: string, nodeType: string): NodeData {
    NodeData(id, nodeType, Position(0, 0), JObject(map[]), None, None, None)
  }

  /** Declared nodes "A" and "B"; "A" feeds "X", which no node declares, and "B" feeds
      itself. */
  function MaskedCycle(): WorkflowData {
    WorkflowData("1.0", [PlainNode("A", "input"), PlainNode("B", "output")],
                 [EdgeData("e1", "A", "X", false), EdgeData("e2", "B", "B", false)])
  }

  /** On that workflow the loop emits "A" then "X", whatever the iteration order: "B"
      waits on itself for ever. */
  lemma MaskedCycleOrder(order: seq<string>)
    requires KahnOutcome(Links(MaskedCycle().edges), Tracked(MaskedCycle()), order)
    ensures order == ["A", "X"]
  {
    var edges := Links(MaskedCycle().edges);
    assert edges == [("A", "X"), ("B", "B")];
    assert NodeIds(MaskedCycle().nodes) == {"A", "B"} by {
      assert MaskedCycle().nodes[0].id == "A" && MaskedCycle().nodes[1].id == "B";
    }
    assert Targets(edges) == {"X", "B"} by {
      assert edges[0].1 == "X" && edges[1].1 == "B";
    }
    assert "B" !in order by {
      if "B" in order {
        var i :| 0 <= i < |order| && order[i] == "B";
        assert Linked(edges, "B", order[i]);
      }
    }
    assert "A" in order;
    assert "X" in order;
    assert Elems(order) == {"A", "X"};
    DistinctCard(order);
    assert order[0] != "X" by {
      assert Linked(edges, "A", "X");
    }
    assert order[0] in Elems(order) && order[1] in Elems(order);
  }

  /** The masked-cycle workflow declares two ids, its edges are "A" -> "X" and
      "B" -> "B", and the second one closes a cycle. */
  lemma MaskedCycleShape()
    ensures Links(MaskedCycle().edges) == [("A", "X"), ("B", "B")]
    ensures |NodeIds(MaskedCycle().nodes)| == 2
    ensures Cyclic(Links(MaskedCycle().edges))
  {
    assert NodeIds(MaskedCycle().nodes) == {"A", "B"} by {
      assert MaskedCycle().nodes[0].id == "A" && MaskedCycle().nodes[1].id == "B";
    }
    var edges := Links(MaskedCycle().edges);
    assert edges[1] == ("B", "B");
    SelfLoopIsCycle(edges, "B");
  }

  /** `topological_sort` as written accepts that workflow, although "B" -> "B" is a cycle,
      and hands "X" on to be run. */
  method MaskedCycleAsWritten() returns (r: Result<seq<string>, WorkflowError>)
    ensures Cyclic(Links(MaskedCycle().edges))
    ensures r == Ok(["A", "X"])
  {
    MaskedCycleShape();
    r := TopologicalSortAsWritten(MaskedCycle());
    if r.Err? {
      ghost var order :| KahnOutcome(Links(MaskedCycle().edges), Tracked(MaskedCycle()), order)
                         && |order| != |NodeIds(MaskedCycle().nodes)|;
      MaskedCycleOrder(order);
    } else {
      MaskedCycleOrder(r.value);
    }
  }

  /** The corrected sort reports the cycle. */
  method MaskedCycleCorrected() returns (r: Result<seq<string>, WorkflowError>)
    ensures r == Err(CycleDetected)
  {
    MaskedCycleShape();
    r := TopologicalSort(MaskedCycle());
  }

  // ---------------------------------------------------------------------------------------
  // Running the nodes.

  /** `data.get("label").and_then(as_str).unwrap_or("")`: the label when it is a string,
      "" otherwise. */
  function Label(data: Json): (text: string)
    ensures (Get(data, "label").Some? && Get(data, "label").value.JString?) ==> text == Get(data, "label").value.s
    ensures !(Get(data, "label").Some? && Get(data, "label").value.JString?) ==> text == ""
  {
    match Get(data, "label")
    case Some(JString(s)) => s
    case _ => ""
  }

  /** `collect_inputs`: this version gathers nothing from the context. */
  function CollectInputs(node: NodeData, context: Context.ExecutionContext): (inputs: Context.Outputs)
    ensures inputs.Keys == {}
  {
    map[]
  }

  /** `execute_input_node`. */
  function ExecuteInputNode(node: NodeData, inputs: Context.Outputs): (r: Result<Context.Outputs, WorkflowError>)
    ensures r.Ok? && r.value.Keys == {"text"} && r.value["text"] == Text(Label(node.data))
  {
    Ok(map["text" := Text(Label(node.data))])
  }

  /** `execute_llm_node`; `show` is `DataValue`'s `to_string`. */
  function ExecuteLlmNode(node: NodeData, inputs: Context.Outputs, show: DataValue -> string)
    : (r: Result<Context.Outputs, WorkflowError>)
    ensures r.Ok? && r.value.Keys == {"result"} && r.value["result"].Text?
    ensures "AI回复: 收到 '" <= r.value["result"].s
    ensures "text" !in inputs ==> r.value["result"] == Text("AI回复: 收到 ''")
  {
    var prompt := if "text" in inputs then show(inputs["text"]) else "";
    Ok(map["result" := Text("AI回复: 收到 '" + prompt + "'")])
  }

  /** `execute_output_node`. */
  function ExecuteOutputNode(node: NodeData, inputs: Context.Outputs, show: DataValue -> string)
    : (r: Result<Context.Outputs, WorkflowError>)
    ensures r.Ok? && r.value.Keys == {"output"}
    ensures "result" in inputs ==> r.value["output"] == Text(show(inputs["result"]))
    ensures "result" !in inputs ==> r.value["output"] == Text("")
  {
    var result := if "result" in inputs then show(inputs["result"]) else "";
    Ok(map["output" := Text(result)])
  }

  const KNOWN_TYPES: set<string> := {"input", "llm", "output"}

  /** The `match node.r#type.as_str()` dispatch: a known type runs its handler, any other
      type fails naming the type. */
  function RunNode(node: NodeData, inputs: Context.Outputs, show: DataValue -> string)
    : (r: Result<Context.Outputs, WorkflowError>)
    ensures r.Err? <==> node.nodeType !in KNOWN_TYPES
    ensures r.Err? ==> r.error == UnknownNodeType(node.nodeType)
  {
    match node.nodeType
    case "input" => ExecuteInputNode(node, inputs)
    case "llm" => ExecuteLlmNode(node, inputs, show)
    case "output" => ExecuteOutputNode(node, inputs, show)
    case _ => Err(UnknownNodeType(node.nodeType))
  }

  /** With the empty inputs `collect_inputs` gathers, every node of a known type produces
      one fixed output: an input node its label, an llm node the reply to the empty
      prompt, an output node the empty text. */
  lemma RunWithoutInputs(node: NodeData, show: DataValue -> string)
    ensures node.nodeType == "input" ==> RunNode(node, map[], show) == Ok(map["text" := Text(Label(node.data))])
    ensures node.nodeType == "llm" ==> RunNode(node, map[], show) == Ok(map["result" := Text("AI回复: 收到 ''")])
    ensures node.nodeType == "output" ==> RunNode(node, map[], show) == Ok(map["output" := Text("")])
  {
    assert "AI回复: 收到 '" + "" + "'" == "AI回复: 收到 ''";
  }

  /** The node a run finds for the id, and whether it is of a known type. */
  ghost predicate Runnable(workflow: WorkflowData, id: string) {
    workflow.GetNode(id).Some? && workflow.GetNode(id).value.nodeType in KNOWN_TYPES
  }

  /** What a run stores for the runnable nodes among `ids`. */
  ghost function Stored(workflow: WorkflowData, show: DataValue -> string, ids: set<string>)
    : map<string, Context.Outputs>
  {
    map id | id in ids && Runnable(workflow, id) :: RunNode(workflow.GetNode(id).value, map[], show).value
  }

  /** Storing one more runnable node. */
  lemma StoredStep(workflow: WorkflowData, show: DataValue -> string, ids: set<string>, id: string)
    requires Runnable(workflow, id)
    ensures Stored(workflow, show, ids + {id})
            == Stored(workflow, show, ids)[id := RunNode(workflow.GetNode(id).value, map[], show).value]
  {
  }

  /** `execute_workflow`: sort, then run every node in order, storing its outputs under
      its id, and merge everything stored. It fails when the sort fails, when an id in the
      order names no node, or when a node's type is unknown; it succeeds exactly when
      none of these happens, with the merge of what every tracked node produced. */
  method ExecuteWorkflow(workflow: WorkflowData, show: DataValue -> string)
    returns (r: Result<Context.Outputs, WorkflowError>)
    ensures r.Err? ==> r.error.CycleDetected? || r.error.NodeNotFound? || r.error.UnknownNodeType?
    ensures (r.Err? && r.error.CycleDetected?)
            <==> Cyclic(Links(workflow.edges)) || !(Sources(Links(workflow.edges)) <= Tracked(workflow))
    ensures r.Err? && r.error.NodeNotFound? ==>
              r.error.nodeId in Tracked(workflow) && workflow.GetNode(r.error.nodeId).None?
    ensures r.Err? && r.error.UnknownNodeType? ==>
              r.error.nodeType !in KNOWN_TYPES
              && exists id | id in Tracked(workflow) :: workflow.GetNode(id) != None
                                                         && workflow.GetNode(id).value.nodeType == r.error.nodeType
    ensures r.Ok? <==> && !Cyclic(Links(workflow.edges)) && Sources(Links(workflow.edges)) <= Tracked(workflow)
                       && forall id | id in Tracked(workflow) :: Runnable(workflow, id)
    ensures r.Ok? ==> && r.value.Keys == Context.AllKeys(Stored(workflow, show, Tracked(workflow)))
                      && Context.Provenant(r.value, Stored(workflow, show, Tracked(workflow)))
    ensures r.Ok? ==> exists visit ::
                        && Distinct(visit) && Elems(visit) == Stored(workflow, show, Tracked(workflow)).Keys
                        && r.value == Context.MergeAll(Stored(workflow, show, Tracked(workflow)), visit)
  {
    var sorted := TopologicalSort(workflow);
    if sorted.Err? {
      return Err(sorted.error);
    }
    r := RunInOrder(workflow, sorted.value, show);
  }

  /** `execute_workflow` as written, over the sort as written: `CycleDetected`, with no
      node run, exactly when the loop emits a number of nodes other than the number of
      declared ids; otherwise the emitted nodes run in order, and the run fails at the
      first one that names no node or has an unknown type. */
  method ExecuteWorkflowAsWritten(workflow: WorkflowData, show: DataValue -> string)
    returns (r: Result<Context.Outputs, WorkflowError>, ghost order: seq<string>)
    ensures KahnOutcome(Links(workflow.edges), Tracked(workflow), order)
    ensures r.Err? ==> r.error.CycleDetected? || r.error.NodeNotFound? || r.error.UnknownNodeType?
    ensures (r.Err? && r.error.CycleDetected?) <==> |order| != |NodeIds(workflow.nodes)|
    ensures r.Ok? <==> |order| == |NodeIds(workflow.nodes)| && forall id | id in Elems(order) :: Runnable(workflow, id)
    ensures r.Ok? ==> && r.value.Keys == Context.AllKeys(Stored(workflow, show, Elems(order)))
                      && Context.Provenant(r.value, Stored(workflow, show, Elems(order)))
    ensures r.Ok? ==> exists visit ::
                        && Distinct(visit) && Elems(visit) == Stored(workflow, show, Elems(order)).Keys
                        && r.value == Context.MergeAll(Stored(workflow, show, Elems(order)), visit)
    ensures r.Err? && r.error.NodeNotFound? ==>
              r.error.nodeId in Elems(order) && workflow.GetNode(r.error.nodeId).None?
    ensures r.Err? && r.error.UnknownNodeType? ==>
              r.error.nodeType !in KNOWN_TYPES
              && exists id | id in Elems(order) :: workflow.GetNode(id) != None
                                                   && workflow.GetNode(id).value.nodeType == r.error.nodeType
    ensures Endpoints(Links(workflow.edges)) <= NodeIds(workflow.nodes) ==>
              ((r.Err? && r.error.CycleDetected?) <==> Cyclic(Links(workflow.edges)))
  {
    var sorted := TopologicalSortAsWritten(workflow);
    if sorted.Err? {
      order :| KahnOutcome(Links(workflow.edges), Tracked(workflow), order)
               && |order| != |NodeIds(workflow.nodes)|;
      return Err(sorted.error), order;
    }
    order := sorted.value;
    r := RunInOrder(workflow, sorted.value, show);
  }

  /** Lines 38-71 after the sort: run the nodes of `order` one after the other. The run
      stops at the first id that names no node or whose node has an unknown type; it
      succeeds exactly when every node in `order` can run, with the merge of what each
      stored. */
  method RunInOrder(workflow: WorkflowData, order: seq<string>, show: DataValue -> string)
    returns (r: Result<Context.Outputs, WorkflowError>)
    ensures r.Err? ==> r.error.NodeNotFound? || r.error.UnknownNodeType?
    ensures r.Err? && r.error.NodeNotFound? ==>
              r.error.nodeId in Elems(order) && workflow.GetNode(r.error.nodeId).None?
    ensures r.Err? && r.error.UnknownNodeType? ==>
              r.error.nodeType !in KNOWN_TYPES
              && exists id | id in Elems(order) :: workflow.GetNode(id) != None
                                                   && workflow.GetNode(id).value.nodeType == r.error.nodeType
    ensures r.Ok? <==> forall id | id in Elems(order) :: Runnable(workflow, id)
    ensures r.Ok? ==> && r.value.Keys == Context.AllKeys(Stored(workflow, show, Elems(order)))
                      && Context.Provenant(r.value, Stored(workflow, show, Elems(order)))
    ensures r.Ok? ==> exists visit ::
                        && Distinct(visit) && Elems(visit) == Stored(workflow, show, Elems(order)).Keys
                        && r.value == Context.MergeAll(Stored(workflow, show, Elems(order)), visit)
  {
    var context := new Context.ExecutionContext();
    for i := 0 to |order|
      invariant context.outputs == Stored(workflow, show, Elems(order[..i]))
      invariant forall j | 0 <= j < i :: Runnable(workflow, order[j])
    {
      var nodeId := order[i];
      var node := workflow.GetNode(nodeId);
      if node.None? {
        assert nodeId in Elems(order);
        return Err(NodeNotFound(nodeId));
      }
      var inputs := CollectInputs(node.value, context);
      var outputs := RunNode(node.value, inputs, show);
      if outputs.Err? {
        assert nodeId in Elems(order);
        return Err(outputs.error);
      }
      StoredStep(workflow, show, Elems(order[..i]), nodeId);
      ElemsPrefix(order, i);
      context.SetOutputs(nodeId, outputs.value);
    }
    assert order[..|order|] == order;
    ghost var visit;
    var final;
    final, visit := context.GetFinalOutputs();
    return Ok(final);
  }

  /** The nodes of the masked-cycle workflow: "A" and "B" are declared with known types,
      "X" is only an edge target. */
  lemma MaskedCycleNodes()
    ensures Tracked(MaskedCycle()) == {"A", "B", "X"}
    ensures MaskedCycle().GetNode("A") == Some(PlainNode("A", "input"))
    ensures MaskedCycle().GetNode("B") == Some(PlainNode("B", "output"))
    ensures MaskedCycle().GetNode("X") == None
  {
    var w := MaskedCycle();
    assert w.nodes[0].id == "A" && w.nodes[1].id == "B";
    assert Links(w.edges) == [("A", "X"), ("B", "B")];
    assert Targets(Links(w.edges)) == {"X", "B"};
    assert NodeIds(w.nodes) == {"A", "B"};
  }

  /** The masked cycle at the level of the whole run: `execute_workflow` as written gets
      past the sort, runs "A", and fails on "X" with `NodeNotFound("X")`. */
  method MaskedCycleRunAsWritten(show: DataValue -> string) returns (r: Result<Context.Outputs, WorkflowError>)
    ensures Cyclic(Links(MaskedCycle().edges))
    ensures r == Err(NodeNotFound("X"))
  {
    MaskedCycleShape();
    ghost var order;
    r, order := ExecuteWorkflowAsWritten(MaskedCycle(), show);
    MaskedCycleOrder(order);
    MaskedCycleVerdict(r, order);
  }

  /** Which of the run's possible answers the masked cycle gets: the count check passes
      and "A" runs, so the only failure left is the missing "X". */
  lemma MaskedCycleVerdict(r: Result<Context.Outputs, WorkflowError>, order: seq<string>)
    requires order == ["A", "X"]
    requires r.Err? ==> r.error.CycleDetected? || r.error.NodeNotFound? || r.error.UnknownNodeType?
    requires (r.Err? && r.error.CycleDetected?) <==> |order| != |NodeIds(MaskedCycle().nodes)|
    requires r.Ok? ==> forall id | id in Elems(order) :: Runnable(MaskedCycle(), id)
    requires r.Err? && r.error.NodeNotFound? ==>
               r.error.nodeId in Elems(order) && MaskedCycle().GetNode(r.error.nodeId).None?
    requires r.Err? && r.error.UnknownNodeType? ==>
               r.error.nodeType !in KNOWN_TYPES
               && exists id | id in Elems(order) :: MaskedCycle().GetNode(id) != None
                                                    && MaskedCycle().GetNode(id).value.nodeType == r.error.nodeType
    ensures r == Err(NodeNotFound("X"))
  {
    MaskedCycleShape();
    MaskedCycleNodes();
    assert Elems(order) == {"A", "X"};
  }

  /** The corrected run reports the cycle before running anything. */
  method MaskedCycleRunCorrected(show: DataValue -> string) returns (r: Result<Context.Outputs, WorkflowError>)
    ensures r == Err(CycleDetected)
  {
    MaskedCycleShape();
    r := ExecuteWorkflow(MaskedCycle(), show);
  }
}
