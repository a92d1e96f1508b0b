/** Small lookup helpers for the maps the pipeline threads between stages. */
module Collections {

  /** The set stored under `k`, or the empty set when `k` is absent (a Java `getOrDefault(k, empty)`). */
  function Lookup<K>(m: map<K, set<nat>>, k: K): set<nat>
  {
    if k in m then m[k] else {}
  }

  /** The counter stored under `k`, or 0 when `k` is absent. */
  function Count<K>(m: map<K, nat>, k: K): nat
  {
    if k in m then m[k] else 0
  }

  /** A set holding two distinct elements has at least two elements. */
  lemma AtLeastTwo(s: set<nat>, a: nat, b: nat)
    requires a in s && b in s && a != b
    ensures |s| >= 2
  {
    var rest := s - {a};
    assert b in rest;
    assert |rest| >= 1;
    assert s == rest + {a};
  }
}
