/** Sizes of finite sets and maps. */
module Sizes {
  lemma SubsetSize<K>(a: set<K>, b: set<K>)
    requires a <= b
    ensures |a| <= |b|
  {
    assert b == a + (b - a);
  }

  lemma InjectiveSize<K, V>(m: map<K, V>)
    requires forall a, b :: a in m && b in m && m[a] == m[b] ==> a == b
    ensures |m.Values| == |m.Keys|
  {
    if m != map[] {
      var k :| k in m;
      var rest := m - {k};
      InjectiveSize(rest);
      assert m.Values == rest.Values + {m[k]};
      assert m.Keys == rest.Keys + {k};
    }
  }

  /** An injection from one set into another. */
  lemma InjectionSize<K, V>(m: map<K, V>, t: set<V>)
    requires forall a, b :: a in m && b in m && m[a] == m[b] ==> a == b
    requires m.Values <= t
    ensures |m.Keys| <= |t|
  {
    InjectiveSize(m);
    SubsetSize(m.Values, t);
  }
}
