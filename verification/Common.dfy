/** Small shared definitions. */
module Common {

  datatype Option<+T> = None | Some(value: T)

  /** Lookup in a Go map with the two-value form. */
  function Lookup<K, V>(m: map<K, V>, k: K): Option<V> {
    if k in m then Some(m[k]) else None
  }

  function Min(a: int, b: int): int {
    if a <= b then a else b
  }

  function Max(a: int, b: int): int {
    if a <= b then b else a
  }

  /** Two maps with the same lookups are the same map. */
  lemma SameLookups<K(!new), V>(a: map<K, V>, b: map<K, V>)
    requires forall k: K :: Lookup(a, k) == Lookup(b, k)
    ensures a == b
  {
    forall k: K
      ensures k in a <==> k in b
      ensures k in a ==> a[k] == b[k]
    {
      assert Lookup(a, k) == Lookup(b, k);
    }
  }
}
