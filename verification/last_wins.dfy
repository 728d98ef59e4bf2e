/** Maps filled by a sequence of inserts, where a later insert under a key replaces an
    earlier one: the port tables of a node and the incoming-edge table of a connection
    graph are built this way. */
module LastWins {

  /** The map left by inserting the entries in order. */
  function Fold<K(==), V>(entries: seq<(K, V)>): map<K, V> {
    if |entries| == 0 then map[]
    else Fold(entries[..|entries| - 1])[entries[|entries| - 1].0 := entries[|entries| - 1].1]
  }

  /** Entry `i` is the last one under its key. */
  ghost predicate LastUnder<K, V>(entries: seq<(K, V)>, i: int, k: K) {
    0 <= i < |entries| && entries[i].0 == k && forall j | i < j < |entries| :: entries[j].0 != k
  }

  /** A key is present exactly when some entry was inserted under it, and then it holds
      the value of the last such entry. */
  lemma {:induction false} FoldLookup<K, V>(entries: seq<(K, V)>, k: K)
    ensures k in Fold(entries) <==> exists i | 0 <= i < |entries| :: entries[i].0 == k
    ensures k in Fold(entries) ==> exists i :: LastUnder(entries, i, k) && Fold(entries)[k] == entries[i].1
  {
    if |entries| > 0 {
      var n := |entries| - 1;
      var rest := entries[..n];
      FoldLookup(rest, k);
      if entries[n].0 == k {
        assert LastUnder(entries, n, k);
      } else if k in Fold(rest) {
        var i :| LastUnder(rest, i, k) && Fold(rest)[k] == rest[i].1;
        assert LastUnder(entries, i, k);
      } else {
        assert forall i | 0 <= i < n :: rest[i] == entries[i];
      }
    }
  }

  /** One more insert. */
  lemma FoldAppend<K, V>(entries: seq<(K, V)>, e: (K, V))
    ensures Fold(entries + [e]) == Fold(entries)[e.0 := e.1]
  {
    assert (entries + [e])[..|entries|] == entries;
  }
}
