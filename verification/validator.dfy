/** Workflow validation (core/src/workflow/validator.rs): depth-first cycle detection over
    an edge list, and the allow-list of node-type pairs an edge may join. */
module Validator {
  import opened Wrappers
  import opened Graphs

  const CYCLE_MESSAGE: string := "工作流中存在循环依赖"

  /** Consecutive nodes of the stack are linked. */
  ghost predicate Chain(edges: seq<(string, string)>, stack: seq<string>) {
    forall i | 0 <= i < |stack| - 1 :: Linked(edges, stack[i], stack[i + 1])
  }

  /** Pushing a node linked from the top keeps the stack a chain. */
  lemma ChainPush(edges: seq<(string, string)>, stack: seq<string>, node: string)
    requires Chain(edges, stack)
    requires |stack| > 0 ==> Linked(edges, stack[|stack| - 1], node)
    ensures Chain(edges, stack + [node])
  {
    var s := stack + [node];
    forall i | 0 <= i < |s| - 1
      ensures Linked(edges, s[i], s[i + 1])
    {
      if i < |stack| - 1 {
        assert s[i] == stack[i] && s[i + 1] == stack[i + 1];
      }
    }
  }

  /** A node reached from the top of a chain that is already on it closes a cycle. */
  lemma CycleOnStack(edges: seq<(string, string)>, stack: seq<string>, node: string)
    requires Chain(edges, stack) && |stack| > 0 && Linked(edges, stack[|stack| - 1], node)
    requires node in stack
    ensures Cyclic(edges)
  {
    var i :| 0 <= i < |stack| && stack[i] == node;
    var c := stack[i..];
    forall m | 0 <= m < |c| - 1
      ensures Linked(edges, c[m], c[m + 1])
    {
      assert c[m] == stack[i + m] && c[m + 1] == stack[i + m + 1];
    }
    assert IsCycle(edges, c);
  }

  /** The depth-first search invariant: `path` stays inside `visited`, the finished nodes
      (visited, off the path) are ranked below `next`, and a finished node's successors
      all finished before it. */
  ghost predicate Searched(edges: seq<(string, string)>, nodes: set<string>, visited: set<string>,
                           path: set<string>, rank: map<string, nat>, next: nat)
  {
    && path <= visited <= nodes
    && rank.Keys == visited - path
    && forall u | u in rank ::
         rank[u] < next && forall v | Linked(edges, u, v) :: v in rank && rank[v] < rank[u]
  }

  /** Taking a node off the path once all its successors have finished gives it the next
      rank and keeps the invariant. */
  lemma FinishNode(edges: seq<(string, string)>, nodes: set<string>, visited: set<string>,
                   path: set<string>, rank: map<string, nat>, next: nat, node: string)
    requires Searched(edges, nodes, visited, path, rank, next) && node in path
    requires forall v | Linked(edges, node, v) :: v in rank
    ensures Searched(edges, nodes, visited, path - {node}, rank[node := next], next + 1)
  {
  }

  /** The search state of `detect_cycles`: the `visited` and `path` sets that `has_cycle`
      updates through its mutable references. The ghost `rank` numbers the finished nodes
      (visited and off the path) in the order they finished. */
  class CycleSearch {
    const adjacency: map<string, seq<string>>
    const edges: seq<(string, string)>
    ghost const nodes: set<string>
    var visited: set<string>
    var path: set<string>
    ghost var rank: map<string, nat>
    ghost var nextRank: nat

    /** The adjacency lists hold exactly the edges, and `nodes` every node an edge
        names. */
    ghost predicate Graph() {
      && (forall u, v | v in Succ(adjacency, u) :: Linked(edges, u, v))
      && (forall u, v | Linked(edges, u, v) :: v in Succ(adjacency, u) && u in nodes && v in nodes)
    }

    /** `path` stays inside `visited`; a finished node's successors all finished before
        it. */
    ghost predicate Valid()
      reads this
    {
      Searched(edges, nodes, visited, path, rank, nextRank)
    }

    constructor(edges: seq<(string, string)>, adjacency: map<string, seq<string>>)
      requires adjacency == Adjacency(edges)
      ensures Graph() && Valid() && this.edges == edges && visited == {} && path == {}
    {
      this.adjacency := adjacency;
      this.edges := edges;
      nodes := Endpoints(edges);
      visited := {};
      path := {};
      rank := map[];
      nextRank := 0;
      forall u, v
        ensures v in Succ(adjacency, u) <==> Linked(edges, u, v)
      {
        SuccIsLinked(edges, u, v);
      }
    }

    /** `has_cycle`: true when the search from `node` runs into a node on the current
        path, which closes a cycle. A false answer leaves `node` finished, with `path` as
        it was. `stack` is the current path in the order it was entered. */
    method HasCycle(node: string, ghost stack: seq<string>) returns (found: bool)
      requires Graph() && Valid() && node in nodes
      requires path == Elems(stack) && Chain(edges, stack)
      requires |stack| > 0 ==> Linked(edges, stack[|stack| - 1], node)
      modifies this
      decreases nodes - visited, 0
      ensures old(visited) <= visited
      ensures found ==> Cyclic(edges)
      ensures !found ==> Valid() && path == old(path) && node in rank && old(rank).Keys <= rank.Keys
    {
      if node in path {
        CycleOnStack(edges, stack, node);
        return true;
      }
      if node in visited {
        return false;
      }
      visited := visited + {node};
      path := path + {node};
      ghost var stack' := stack + [node];
      ChainPush(edges, stack, node);
      assert Elems(stack') == path;
      var neighbors := if node in adjacency then adjacency[node] else [];
      found := VisitNeighbors(neighbors, stack');
      if found {
        return;
      }
      forall v | Linked(edges, node, v)
        ensures v in rank
      {
        assert v in Elems(neighbors);
      }
      FinishNode(edges, nodes, visited, path, rank, nextRank, node);
      path := path - {node};
      rank := rank[node := nextRank];
      nextRank := nextRank + 1;
    }

    /** The `for neighbor in neighbors` loop of `has_cycle`, for the node on top of
        `stack`: stops at the first neighbor whose search finds a cycle; otherwise every
        neighbor ends up finished. */
    method VisitNeighbors(neighbors: seq<string>, ghost stack: seq<string>) returns (found: bool)
      requires Graph() && Valid()
      requires |stack| > 0 && path == Elems(stack) && Chain(edges, stack)
      requires neighbors == Succ(adjacency, stack[|stack| - 1])
      modifies this
      decreases nodes - visited, 1
      ensures old(visited) <= visited
      ensures found ==> Cyclic(edges)
      ensures !found ==> Valid() && path == old(path) && old(rank).Keys <= rank.Keys
      ensures !found ==> Elems(neighbors) <= rank.Keys
    {
      assert forall v | v in neighbors :: Linked(edges, stack[|stack| - 1], v);
      for k := 0 to |neighbors|
        invariant Valid() && path == old(path)
        invariant old(visited) <= visited && old(rank).Keys <= rank.Keys
        invariant Elems(neighbors[..k]) <= rank.Keys
      {
        var f := HasCycle(neighbors[k], stack);
        if f {
          return true;
        }
        ElemsPrefix(neighbors, k);
      }
      assert neighbors[..|neighbors|] == neighbors;
      found := false;
    }

    /** The `for (from, _) in edges` loop of `detect_cycles`: a search from every edge
        source not yet visited, stopping at the first cycle. Without a cycle every source
        ends up finished. */
    method SearchAll() returns (found: bool)
      requires Graph() && Valid() && path == {}
      modifies this
      ensures found ==> Cyclic(edges)
      ensures !found ==> Valid() && path == {} && Sources(edges) <= rank.Keys
    {
      for i := 0 to |edges|
        invariant Valid() && path == {}
        invariant forall j | 0 <= j < i :: edges[j].0 in visited
      {
        var from := edges[i].0;
        if from !in visited {
          assert Linked(edges, from, edges[i].1);
          found := HasCycle(from, []);
          if found {
            return;
          }
        }
      }
      found := false;
    }
  }

  /** The adjacency lists `detect_cycles` builds, one push per edge in edge order. */
  method BuildAdjacency(edges: seq<(string, string)>) returns (adjacency: map<string, seq<string>>)
    ensures adjacency == Adjacency(edges)
  {
    adjacency := map[];
    for i := 0 to |edges|
      invariant adjacency == Adjacency(edges[..i])
    {
      var (from, to) := edges[i];
      var list := if from in adjacency then adjacency[from] else [];
      assert edges[..i + 1][..i] == edges[..i];
      adjacency := adjacency[from := list + [to]];
    }
    assert edges[..|edges|] == edges;
  }

  /** `detect_cycles`: an error exactly when the edges contain a directed cycle. */
  method DetectCycles(edges: seq<(string, string)>) returns (r: Result<(), string>)
    ensures r.Err? <==> Cyclic(edges)
    ensures r.Err? ==> r.error == CYCLE_MESSAGE
    ensures |edges| == 0 ==> r.Ok?
  {
    var adjacency := BuildAdjacency(edges);
    var search := new CycleSearch(edges, adjacency);
    var found := search.SearchAll();
    if found {
      return Err(CYCLE_MESSAGE);
    }
    forall u, v | Linked(edges, u, v)
      ensures u in search.rank
    {
      assert u in Sources(edges);
    }
    RankedAcyclic(edges, search.rank);
    r := Ok(());
  }

  /** The node-type pairs an edge may join. */
  const VALID_MATCHES: seq<(string, string)> := [("input", "llm"), ("llm", "output"), ("input", "output"), ("llm", "llm")]

  /** `validate_type_match`: an allowed pair is accepted; any other is rejected with a
      message naming both types. */
  function ValidateTypeMatch(from: string, to: string): (r: Result<(), string>)
    ensures r.Ok? <==> || (from == "input" && (to == "llm" || to == "output"))
                       || (from == "llm" && (to == "output" || to == "llm"))
    ensures r.Err? ==> r.error == "类型不匹配: " + from + " 不能连接到 " + to
  {
    if (from, to) in VALID_MATCHES then Ok(())
    else Err("类型不匹配: " + from + " 不能连接到 " + to)
  }
}
