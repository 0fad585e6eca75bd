/** Finite sums over maps, independent of the order in which the keys are visited. */
module Sums {

  ghost function Pick<K(!new), V(!new)>(m: map<K, V>): (k: K)
    requires |m| > 0
    ensures k in m
  {
    assert m.Keys != {};
    var k :| k in m.Keys;
    k
  }

  /** The sum of `weight` over all values of `m`. */
  ghost function Sum<K(!new), V(!new)>(m: map<K, V>, weight: V -> nat): (total: nat)
    decreases |m|
  {
    if |m| == 0 then 0
    else
      var k := Pick(m);
      weight(m[k]) + Sum(m - {k}, weight)
  }

  lemma {:induction false} SumRemove<K(!new), V(!new)>(m: map<K, V>, weight: V -> nat, k: K)
    requires k in m
    ensures Sum(m, weight) == weight(m[k]) + Sum(m - {k}, weight)
    decreases |m|
  {
    var j := Pick(m);
    if j != k {
      var mj, mk := m - {j}, m - {k};
      SumRemove(mj, weight, k);
      SumRemove(mk, weight, j);
      assert mj - {k} == mk - {j};
    }
  }

  /** Writing `v` at `k` replaces the old contribution of `k`, if there was one. */
  lemma SumUpdate<K(!new), V(!new)>(m: map<K, V>, weight: V -> nat, k: K, v: V)
    ensures Sum(m[k := v], weight) ==
            Sum(m, weight) - (if k in m then weight(m[k]) else 0) + weight(v)
  {
    SumRemove(m[k := v], weight, k);
    assert m[k := v] - {k} == m - {k};
    if k in m {
      SumRemove(m, weight, k);
    } else {
      assert m - {k} == m;
    }
  }

  lemma SumErase<K(!new), V(!new)>(m: map<K, V>, weight: V -> nat, k: K)
    ensures Sum(m - {k}, weight) == Sum(m, weight) - (if k in m then weight(m[k]) else 0)
  {
    if k in m {
      SumRemove(m, weight, k);
    } else {
      assert m - {k} == m;
    }
  }

  /** Values may change as long as no weight does. */
  lemma {:induction false} SumPointwise<K(!new), V(!new)>(m: map<K, V>, n: map<K, V>, weight: V -> nat)
    requires m.Keys == n.Keys && forall k :: k in m ==> weight(m[k]) == weight(n[k])
    ensures Sum(m, weight) == Sum(n, weight)
    decreases |m|
  {
    if |m| == 0 {
      assert |n.Keys| == |m.Keys|;
    } else {
      var k := Pick(m);
      SumRemove(n, weight, k);
      SumPointwise(m - {k}, n - {k}, weight);
    }
  }

  /** A positive sum has a positive term. */
  lemma {:induction false} SumPositive<K(!new), V(!new)>(m: map<K, V>, weight: V -> nat) returns (k: K)
    requires Sum(m, weight) > 0
    ensures k in m && weight(m[k]) > 0
    decreases |m|
  {
    k := Pick(m);
    if weight(m[k]) == 0 {
      k := SumPositive(m - {k}, weight);
    }
  }

  lemma {:induction false} SumZero<K(!new), V(!new)>(m: map<K, V>, weight: V -> nat)
    requires forall k :: k in m ==> weight(m[k]) == 0
    ensures Sum(m, weight) == 0
    decreases |m|
  {
    if |m| > 0 { SumZero(m - {Pick(m)}, weight); }
  }

  /** Equal weights give equal sums, whatever the values. */
  lemma {:induction false} SumReweigh<K(!new), V(!new), W(!new)>(m: map<K, V>, n: map<K, W>, v: V -> nat, w: W -> nat)
    requires m.Keys == n.Keys && forall k :: k in m ==> v(m[k]) == w(n[k])
    ensures Sum(m, v) == Sum(n, w)
    decreases |m|
  {
    if |m| == 0 {
      assert |n.Keys| == |m.Keys|;
    } else {
      var k := Pick(m);
      SumRemove(n, w, k);
      SumReweigh(m - {k}, n - {k}, v, w);
    }
  }

  /** A map extended has no smaller sum. */
  lemma {:induction false} SumExtended<K(!new), V(!new)>(m: map<K, V>, n: map<K, V>, weight: V -> nat)
    requires m.Keys <= n.Keys && forall k :: k in m ==> m[k] == n[k]
    ensures Sum(m, weight) <= Sum(n, weight)
    decreases |m|
  {
    if |m| > 0 {
      var k := Pick(m);
      SumRemove(n, weight, k);
      SumExtended(m - {k}, n - {k}, weight);
    }
  }
}
