/** Small notions about collections that several modules share. */
module Collections {
  import opened Bytes

  function Min(a: nat, b: nat): (m: nat) {
    if a < b then a else b
  }

  /** The value under a key, if there is one. */
  function Lookup<K, V>(m: map<K, V>, k: K): (v: Option<V>) {
    if k in m then Some(m[k]) else None
  }

  /** No element occurs twice. */
  predicate Distinct<T(==)>(s: seq<T>) {
    forall i, j | 0 <= i < j < |s| :: s[i] != s[j]
  }
}
