/** Totals over finite maps. */
module Sums {

  ghost function Sum<K(!new)>(m: map<K, nat>): nat
    decreases |m|
  {
    if m == map[] then 0
    else
      var k :| k in m;
      assert |(m - {k}).Keys| == |m.Keys - {k}|;
      m[k] + Sum(m - {k})
  }

  lemma {:induction false} SumRemove<K(!new)>(m: map<K, nat>, k: K)
    requires k in m
    ensures Sum(m) == m[k] + Sum(m - {k})
    decreases |m|
  {
    var x :| x in m && Sum(m) == m[x] + Sum(m - {x});
    if x != k {
      assert |(m - {x}).Keys| == |m.Keys - {x}|;
      SumRemove(m - {x}, k);
      assert |(m - {k}).Keys| == |m.Keys - {k}|;
      SumRemove(m - {k}, x);
      assert m - {x} - {k} == m - {k} - {x};
    }
  }

  // Adding a new key adds its value.
  lemma SumAdd<K(!new)>(m: map<K, nat>, k: K, v: nat)
    requires k !in m
    ensures Sum(m[k := v]) == Sum(m) + v
  {
    SumRemove(m[k := v], k);
    assert m[k := v] - {k} == m;
  }

  // A total splits along any division of the keys.
  lemma {:induction false} SumSplit<K(!new)>(m: map<K, nat>, keys: set<K>)
    requires keys <= m.Keys
    ensures Sum(m) == Sum(m - (m.Keys - keys)) + Sum(m - keys)
    decreases |keys|
  {
    if keys == {} {
      assert m - (m.Keys - keys) == map[] && m - keys == m;
    } else {
      var k :| k in keys;
      SumRemove(m, k);
      SumSplit(m - {k}, keys - {k});
      var part := m - (m.Keys - keys);
      SumRemove(part, k);
      assert part - {k} == m - {k} - ((m - {k}).Keys - (keys - {k}));
      assert m - {k} - (keys - {k}) == m - keys;
    }
  }
}
