/** Directed graphs given as edge lists of node ids, as the workflow validator and the
    executor both build them: cycles, adjacency lists in edge order, and the in-degree
    bookkeeping of Kahn's algorithm. */
module Graphs {

  /** There is an edge from `u` to `v`. */
  ghost predicate Linked(edges: seq<(string, string)>, u: string, v: string) {
    (u, v) in edges
  }

  /** `c` is a closed walk: each node links to the next and the last links to the first. */
  ghost predicate IsCycle(edges: seq<(string, string)>, c: seq<string>) {
    && |c| > 0
    && (forall i | 0 <= i < |c| - 1 :: Linked(edges, c[i], c[i + 1]))
    && Linked(edges, c[|c| - 1], c[0])
  }

  ghost predicate Cyclic(edges: seq<(string, string)>) {
    exists c :: IsCycle(edges, c)
  }

  /** Every node named by an edge. */
  function Endpoints(edges: seq<(string, string)>): (r: set<string>)
    ensures forall u, v | (u, v) in edges :: u in r && v in r
  {
    (set e | e in edges :: e.0) + (set e | e in edges :: e.1)
  }

  /** The sources of the edges. */
  function Sources(edges: seq<(string, string)>): set<string> {
    set e | e in edges :: e.0
  }

  /** The targets of the edges. */
  function Targets(edges: seq<(string, string)>): set<string> {
    set e | e in edges :: e.1
  }

  /** The elements of a sequence, as a set. */
  function Elems<T>(s: seq<T>): set<T> {
    set x | x in s
  }

  /** One more element of a prefix adds that element to its set. */
  lemma ElemsPrefix<T>(s: seq<T>, k: nat)
    requires k < |s|
    ensures Elems(s[..k + 1]) == Elems(s[..k]) + {s[k]}
  {
    assert s[..k + 1] == s[..k] + [s[k]];
  }

  /** No element occurs twice. */
  predicate Distinct<T(==)>(s: seq<T>) {
    forall i, j | 0 <= i < j < |s| :: s[i] != s[j]
  }

  /** Appending a new element keeps a sequence free of repeats. */
  lemma DistinctAppend<T>(s: seq<T>, x: T)
    requires Distinct(s) && x !in s
    ensures Distinct(s + [x]) && Elems(s + [x]) == Elems(s) + {x}
  {
  }

  /** Dropping the head of a sequence without repeats drops exactly that element. */
  lemma DistinctTail<T>(s: seq<T>)
    requires Distinct(s) && |s| > 0
    ensures Distinct(s[1..]) && Elems(s[1..]) == Elems(s) - {s[0]}
  {
    assert s == [s[0]] + s[1..];
  }

  /** A sequence without repeats has as many elements as its set. */
  lemma {:induction false} DistinctCard<T>(s: seq<T>)
    requires Distinct(s)
    ensures |Elems(s)| == |s|
  {
    if |s| > 0 {
      var rest := s[..|s| - 1];
      DistinctCard(rest);
      assert Elems(s) == Elems(rest) + {s[|s| - 1]};
    }
  }

  /** A subset is no larger, and a subset of the same size is the whole set. */
  lemma {:induction false} SubsetCard(a: set<string>, b: set<string>)
    requires a <= b
    ensures |a| <= |b|
    ensures |a| == |b| ==> a == b
    decreases b
  {
    if b != {} {
      var x :| x in b;
      if x in a {
        SubsetCard(a - {x}, b - {x});
        assert a == (a - {x}) + {x} && b == (b - {x}) + {x};
      } else {
        SubsetCard(a, b - {x});
      }
    }
  }

  /** An edge from a node to itself is a cycle of length one. */
  lemma SelfLoopIsCycle(edges: seq<(string, string)>, a: string)
    requires (a, a) in edges
    ensures Cyclic(edges)
  {
    assert IsCycle(edges, [a]);
  }

  /** Along the first `i` steps of a cycle, a rank that drops across every edge drops by at
      least `i`. */
  lemma {:induction false} RankDropsAlong(edges: seq<(string, string)>, rank: map<string, nat>, c: seq<string>, i: nat)
    requires IsCycle(edges, c) && i < |c|
    requires forall u, v | Linked(edges, u, v) :: u in rank && v in rank && rank[v] < rank[u]
    ensures c[i] in rank && c[0] in rank && rank[c[i]] + i <= rank[c[0]]
  {
    if i == 0 {
      assert Linked(edges, c[|c| - 1], c[0]);
    } else {
      RankDropsAlong(edges, rank, c, i - 1);
      assert Linked(edges, c[i - 1], c[i]);
    }
  }

  /** A graph whose every edge goes from a higher rank to a lower one has no cycle. */
  lemma RankedAcyclic(edges: seq<(string, string)>, rank: map<string, nat>)
    requires forall u, v | Linked(edges, u, v) :: u in rank && v in rank && rank[v] < rank[u]
    ensures !Cyclic(edges)
  {
    if c :| IsCycle(edges, c) {
      RankDropsAlong(edges, rank, c, |c| - 1);
    }
  }

  /** `v` has a predecessor inside `s`. */
  ghost predicate HasPredIn(edges: seq<(string, string)>, s: set<string>, v: string) {
    exists u :: u in s && Linked(edges, u, v)
  }

  /** A backward walk of `n` steps from `x` inside `s`, when every node of `s` has a
      predecessor in `s`. */
  lemma {:induction false} BackWalk(edges: seq<(string, string)>, s: set<string>, x: string, n: nat) returns (w: seq<string>)
    requires x in s
    requires forall v | v in s :: HasPredIn(edges, s, v)
    ensures |w| == n + 1 && w[0] == x
    ensures forall k | 0 <= k < |w| :: w[k] in s
    ensures forall k | 0 <= k < n :: Linked(edges, w[k + 1], w[k])
    decreases n
  {
    if n == 0 {
      w := [x];
    } else {
      assert HasPredIn(edges, s, x);
      var u :| u in s && Linked(edges, u, x);
      var rest := BackWalk(edges, s, u, n - 1);
      w := [x] + rest;
      WalkInside(s, x, rest);
      WalkLinked(edges, x, rest);
    }
  }

  /** Putting a node of `s` in front of a walk inside `s`. */
  lemma WalkInside(s: set<string>, x: string, rest: seq<string>)
    requires x in s && forall k | 0 <= k < |rest| :: rest[k] in s
    ensures forall k | 0 <= k < |[x] + rest| :: ([x] + rest)[k] in s
  {
    var w := [x] + rest;
    forall k | 0 <= k < |w|
      ensures w[k] in s
    {
      if k > 0 {
        assert w[k] == rest[k - 1];
      }
    }
  }

  /** Putting a successor of a walk's first node in front of the walk. */
  lemma WalkLinked(edges: seq<(string, string)>, x: string, rest: seq<string>)
    requires |rest| > 0 && Linked(edges, rest[0], x)
    requires forall k | 0 <= k < |rest| - 1 :: Linked(edges, rest[k + 1], rest[k])
    ensures forall k | 0 <= k < |rest| :: Linked(edges, ([x] + rest)[k + 1], ([x] + rest)[k])
  {
    var w := [x] + rest;
    forall k | 0 <= k < |rest|
      ensures Linked(edges, w[k + 1], w[k])
    {
      if k > 0 {
        assert w[k + 1] == rest[k] && w[k] == rest[k - 1];
      }
    }
  }

  /** A sequence longer than the set it draws from repeats an element. */
  lemma {:induction false} Pigeonhole(w: seq<string>, s: set<string>) returns (i: nat, j: nat)
    requires |w| > |s|
    requires forall k | 0 <= k < |w| :: w[k] in s
    ensures i < j < |w| && w[i] == w[j]
  {
    if w[0] in w[1..] {
      var k :| 0 <= k < |w[1..]| && w[1..][k] == w[0];
      i, j := 0, k + 1;
    } else {
      var i', j' := Pigeonhole(w[1..], s - {w[0]});
      i, j := i' + 1, j' + 1;
    }
  }

  /** A backward walk that revisits a node closes a cycle. */
  lemma RepeatGivesCycle(edges: seq<(string, string)>, w: seq<string>, i: nat, j: nat)
    requires i < j < |w| && w[i] == w[j]
    requires forall k | 0 <= k < |w| - 1 :: Linked(edges, w[k + 1], w[k])
    ensures Cyclic(edges)
  {
    var c := seq(j - i, m requires 0 <= m < j - i => w[j - m]);
    forall m | 0 <= m < |c| - 1
      ensures Linked(edges, c[m], c[m + 1])
    {
      var k := j - m - 1;
      assert c[m] == w[k + 1] && c[m + 1] == w[k];
    }
    assert c[|c| - 1] == w[i + 1] && c[0] == w[i];
    assert IsCycle(edges, c);
  }

  /** A non-empty set in which every node has a predecessor inside the set contains a
      cycle (this is what Kahn's algorithm is left with when it stalls). */
  lemma StalledSetHasCycle(edges: seq<(string, string)>, s: set<string>)
    requires s != {}
    requires forall v | v in s :: HasPredIn(edges, s, v)
    ensures Cyclic(edges)
  {
    var x :| x in s;
    var w := BackWalk(edges, s, x, |s|);
    var i, j := Pigeonhole(w, s);
    RepeatGivesCycle(edges, w, i, j);
  }

  // ---------------------------------------------------------------------------------------
  // Adjacency lists, built as `adjacency.entry(source).or_default().push(target)`.

  /** The successors of `u`, in edge order; none when `u` has no list. */
  function Succ(adj: map<string, seq<string>>, u: string): seq<string> {
    if u in adj then adj[u] else []
  }

  /** One edge appended to the adjacency lists. */
  function AddEdge(adj: map<string, seq<string>>, e: (string, string)): map<string, seq<string>> {
    adj[e.0 := Succ(adj, e.0) + [e.1]]
  }

  /** The adjacency lists of an edge list. */
  function Adjacency(edges: seq<(string, string)>): map<string, seq<string>> {
    if |edges| == 0 then map[]
    else AddEdge(Adjacency(edges[..|edges| - 1]), edges[|edges| - 1])
  }

  /** The successors of `u` are exactly the targets of the edges leaving `u`. */
  lemma {:induction false} SuccIsLinked(edges: seq<(string, string)>, u: string, v: string)
    ensures v in Succ(Adjacency(edges), u) <==> Linked(edges, u, v)
  {
    if |edges| > 0 {
      var e := edges[|edges| - 1];
      var rest := edges[..|edges| - 1];
      SuccIsLinked(rest, u, v);
      assert Linked(edges, u, v) <==> Linked(rest, u, v) || e == (u, v);
    }
  }

  /** The targets of the edges whose source is not in `done`, with multiplicity: the
      in-degrees Kahn's algorithm has not yet worked off. */
  function Pending(edges: seq<(string, string)>, done: set<string>): multiset<string> {
    if |edges| == 0 then multiset{}
    else
      var e := edges[|edges| - 1];
      Pending(edges[..|edges| - 1], done) + (if e.0 in done then multiset{} else multiset{e.1})
  }

  /** Finishing one more node works off exactly its successor list. */
  lemma {:induction false} PendingStep(edges: seq<(string, string)>, done: set<string>, u: string)
    requires u !in done
    ensures Pending(edges, done) == Pending(edges, done + {u}) + multiset(Succ(Adjacency(edges), u))
  {
    if |edges| > 0 {
      var e := edges[|edges| - 1];
      var rest := edges[..|edges| - 1];
      PendingStep(rest, done, u);
      if e.0 == u {
        assert Succ(Adjacency(edges), u) == Succ(Adjacency(rest), u) + [e.1];
      } else {
        assert Succ(Adjacency(edges), u) == Succ(Adjacency(rest), u);
      }
    }
  }

  /** A node with nothing pending has all its predecessors done; a node with something
      pending has a predecessor that is not done. */
  lemma {:induction false} PendingPredecessors(edges: seq<(string, string)>, done: set<string>, v: string)
    ensures Pending(edges, done)[v] == 0 <==> forall u | Linked(edges, u, v) :: u in done
  {
    if |edges| > 0 {
      var e := edges[|edges| - 1];
      var rest := edges[..|edges| - 1];
      PendingPredecessors(rest, done, v);
      assert forall u :: Linked(edges, u, v) <==> Linked(rest, u, v) || e == (u, v);
    }
  }

  /** With no finished node, the pending count of `v` is its in-degree. */
  function InDegree(edges: seq<(string, string)>, v: string): nat {
    Pending(edges, {})[v]
  }
}
