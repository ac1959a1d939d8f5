/** The sum of the values of a finite map, used to count the entries of the
    per-key lists that the route adjacency map and the corridor map hold. */
module MapSums {

  ghost function Total<K>(m: map<K, nat>): nat
    decreases |m|
  {
    if |m| == 0 then 0
    else
      var k := Pick(m);
      RemoveOne(m, k);
      m[k] + Total(m - {k})
  }

  /** Some key of a non-empty map. */
  ghost function Pick<K>(m: map<K, nat>): (k: K)
    requires |m| > 0
    ensures k in m
  {
    var k :| k in m;
    k
  }

  lemma RemoveOne<K, V>(m: map<K, V>, k: K)
    requires k in m
    ensures |m - {k}| == |m| - 1
  {
    assert (m - {k}).Keys == m.Keys - {k};
    assert m.Keys == (m.Keys - {k}) + {k};
  }

  /** Whichever key is taken out first, the sum is the same. */
  lemma {:induction false} TotalRemove<K>(m: map<K, nat>, k: K)
    requires k in m
    ensures Total(m) == m[k] + Total(m - {k})
    decreases |m|
  {
    RemoveOne(m, k);
    var c := Pick(m);
    assert Total(m) == m[c] + Total(m - {c});
    if c != k {
      var mc, mk := m - {c}, m - {k};
      RemoveOne(m, c);
      assert k in mc && c in mk;
      assert mc[k] == m[k] && mk[c] == m[c];
      TotalRemove(mc, k);
      TotalRemove(mk, c);
      assert mc - {k} == mk - {c};
    }
  }

  /** Setting one key's value changes the sum by the difference. */
  lemma TotalUpdate<K>(m: map<K, nat>, k: K, v: nat)
    ensures k in m ==> Total(m[k := v]) + m[k] == Total(m) + v
    ensures k !in m ==> Total(m[k := v]) == Total(m) + v
  {
    var m' := m[k := v];
    assert k in m' && m'[k] == v;
    TotalRemove(m', k);
    assert m' - {k} == m - {k};
    if k in m {
      TotalRemove(m, k);
    } else {
      assert m - {k} == m;
    }
  }
}
