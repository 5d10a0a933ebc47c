/** Equality of maps. */
module Maps {

  lemma SameMap<K, V>(g: map<K, V>, h: map<K, V>)
    requires forall p :: p in g ==> p in h && g[p] == h[p]
    requires forall p :: p in h ==> p in g
    ensures g == h
  {
  }
}
