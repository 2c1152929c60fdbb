/** The termination measure shared by the writer's object stack and the
    super-type walk's visited list. */
module Visited {
  /** The keys of `m` not listed in `vis`. */
  function Unvisited<K, V>(m: map<K, V>, vis: seq<K>): set<K> {
    m.Keys - (set x | x in vis)
  }

  /** Pushing a key of `m` that is not yet listed strictly shrinks the
      unvisited keys, so a recursion that pushes before it descends ends. */
  lemma PushShrinks<K, V>(m: map<K, V>, vis: seq<K>, x: K)
    requires x in m && x !in vis
    ensures Unvisited(m, vis + [x]) < Unvisited(m, vis)
  {
    assert x in Unvisited(m, vis) && x !in Unvisited(m, vis + [x]);
  }
}
