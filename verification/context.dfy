/** The per-run output table (core/src/workflow/context.rs): the outputs each node produced,
    keyed by node id, and their merge into one map of final outputs. */
module Context {
  import opened Wrappers
  import opened DataValues
  import opened Graphs

  type Outputs = map<string, DataValue>

  /** Every output name some stored node produced. */
  ghost function AllKeys(table: map<string, Outputs>): set<string> {
    set id, k | id in table && k in table[id] :: k
  }

  /** Each value of `final` is the value some stored node produced under that name. */
  ghost predicate Provenant(final: Outputs, table: map<string, Outputs>) {
    forall k | k in final :: exists id :: id in table && k in table[id] && table[id][k] == final[k]
  }

  /** Overriding a traceable map with one node's outputs keeps it traceable. */
  lemma OverrideProvenant(final: Outputs, table: map<string, Outputs>, id: string)
    requires id in table && Provenant(final, table)
    ensures Provenant(final + table[id], table)
  {
  }

  /** Adding one more node's outputs adds exactly its names. */
  lemma AllKeysStep(table: map<string, Outputs>, pending: set<string>, id: string)
    requires id in pending && id in table
    ensures AllKeys(table - (pending - {id})) == AllKeys(table - pending) + table[id].Keys
  {
    var before, after := table - pending, table - (pending - {id});
    forall k | k in AllKeys(after)
      ensures k in AllKeys(before) + table[id].Keys
    {
      var i :| i in after && k in after[i];
      if i != id {
        assert i in before && k in before[i];
      }
    }
    forall k | k in AllKeys(before)
      ensures k in AllKeys(after)
    {
      var i :| i in before && k in before[i];
      assert i in after && k in after[i];
    }
    forall k | k in table[id]
      ensures k in AllKeys(after)
    {
      assert id in after && k in after[id];
    }
  }

  /** The map `get_final_outputs` builds when it visits the stored nodes in `order`: each
      node's outputs are inserted over what the nodes before it left. */
  function MergeAll(table: map<string, Outputs>, order: seq<string>): Outputs {
    if |order| == 0 then map[]
    else
      var last := order[|order| - 1];
      MergeAll(table, order[..|order| - 1]) + (if last in table then table[last] else map[])
  }

  /** Node `order[i]` is the last node of the visit that produced the name `k`. */
  ghost predicate LastWith(table: map<string, Outputs>, order: seq<string>, i: int, k: string) {
    && 0 <= i < |order| && order[i] in table && k in table[order[i]]
    && forall j | i < j < |order| :: !(order[j] in table && k in table[order[j]])
  }

  /** A name is in the merge exactly when some visited node produced it, and then it holds
      the value of the last visited node that did: within one visit order no name mixes
      values from different orders. */
  lemma {:induction false} MergeAllLookup(table: map<string, Outputs>, order: seq<string>, k: string)
    ensures k in MergeAll(table, order) <==>
              exists i | 0 <= i < |order| :: order[i] in table && k in table[order[i]]
    ensures k in MergeAll(table, order) ==>
              exists i :: LastWith(table, order, i, k) && MergeAll(table, order)[k] == table[order[i]][k]
  {
    if |order| > 0 {
      var n := |order| - 1;
      var rest := order[..n];
      var m := MergeAll(table, rest);
      var hit := order[n] in table && k in table[order[n]];
      assert k in MergeAll(table, order) <==> k in m || hit;
      MergeAllLookup(table, rest, k);
      assert forall i | 0 <= i < n :: rest[i] == order[i];
      if hit {
        assert MergeAll(table, order)[k] == table[order[n]][k];
        assert LastWith(table, order, n, k);
      } else if k in m {
        assert MergeAll(table, order)[k] == m[k];
        var i :| LastWith(table, rest, i, k) && m[k] == table[rest[i]][k];
        assert LastWith(table, order, i, k);
      }
    }
  }

  /** The shared model-residency pool and `get_model` are not part of this class. */
  class ExecutionContext {
    var outputs: map<string, Outputs>

    /** `new`: no node has stored anything. */
    constructor()
      ensures outputs == map[]
    {
      outputs := map[];
    }

    /** `set_outputs`: stores the map under the node id, replacing an earlier one. */
    method SetOutputs(nodeId: string, nodeOutputs: Outputs)
      modifies this
      ensures outputs == old(outputs)[nodeId := nodeOutputs]
    {
      outputs := outputs[nodeId := nodeOutputs];
    }

    /** `set_node_outputs`, an alias of `set_outputs`. */
    method SetNodeOutputs(nodeId: string, nodeOutputs: Outputs)
      modifies this
      ensures outputs == old(outputs)[nodeId := nodeOutputs]
    {
      SetOutputs(nodeId, nodeOutputs);
    }

    /** `get_outputs`: the map stored for the id, None when none was stored. */
    function GetOutputs(nodeId: string): (r: Option<Outputs>)
      reads this
      ensures r.Some? <==> nodeId in outputs
      ensures r.Some? ==> r.value == outputs[nodeId]
    {
      if nodeId in outputs then Some(outputs[nodeId]) else None
    }

    /** `get_node_outputs`, an alias of `get_outputs`. */
    function GetNodeOutputs(nodeId: string): (r: Option<Outputs>)
      reads this
      ensures r == GetOutputs(nodeId)
    {
      GetOutputs(nodeId)
    }

    /** `get_final_outputs`: every stored map merged into one, visiting the nodes in the
        table's iteration order (`order`, which the model leaves open) and letting a later
        node's value replace an earlier one under the same name. */
    method GetFinalOutputs() returns (final: Outputs, ghost order: seq<string>)
      ensures Distinct(order) && Elems(order) == outputs.Keys
      ensures final == MergeAll(outputs, order)
      ensures final.Keys == AllKeys(outputs)
      ensures Provenant(final, outputs)
    {
      final, order := map[], [];
      var pending := outputs.Keys;
      while pending != {}
        invariant pending <= outputs.Keys
        invariant Distinct(order) && Elems(order) == outputs.Keys - pending
        invariant final == MergeAll(outputs, order)
        invariant final.Keys == AllKeys(outputs - pending)
        invariant Provenant(final, outputs)
        decreases pending
      {
        var id :| id in pending;
        final := Merge(final, id);
        AllKeysStep(outputs, pending, id);
        DistinctAppend(order, id);
        assert (order + [id])[..|order|] == order;
        order := order + [id];
        pending := pending - {id};
      }
      assert outputs - {} == outputs;
    }

    /** The inner `for (key, value) in outputs` loop: one node's outputs inserted into
        `final`, each name overwriting what was there. */
    method Merge(final0: Outputs, id: string) returns (final: Outputs)
      requires id in outputs && Provenant(final0, outputs)
      ensures final == final0 + outputs[id]
      ensures Provenant(final, outputs)
    {
      final := final0;
      var node := outputs[id];
      var rest := node.Keys;
      while rest != {}
        invariant rest <= node.Keys
        invariant final.Keys == final0.Keys + (node.Keys - rest)
        invariant forall k | k in final :: final[k] == if k in node.Keys - rest then node[k] else final0[k]
        decreases rest
      {
        var k :| k in rest;
        final := final[k := node[k]];
        rest := rest - {k};
      }
      assert final == final0 + node;
      OverrideProvenant(final0, outputs, id);
    }
  }
}
