/** Finite sums over the values of a map, used for the byte ledgers of the protocol. */
module Sums {

  /** The sum of `f` over the values of `m`. */
  ghost function MapSum<K, V>(m: map<K, V>, f: V -> nat): nat
    decreases |m|
  {
    if m == map[] then 0
    else
      var k :| k in m;
      assert (m - {k}).Keys == m.Keys - {k};
      f(m[k]) + MapSum(m - {k}, f)
  }

  /** The sum does not depend on the key that is taken out first. */
  lemma {:induction false} SumRemove<K, V>(m: map<K, V>, k: K, f: V -> nat)
    requires k in m
    ensures MapSum(m, f) == f(m[k]) + MapSum(m - {k}, f)
    decreases |m|
  {
    var j :| j in m && MapSum(m, f) == f(m[j]) + MapSum(m - {j}, f);
    if j != k {
      assert (m - {j}).Keys == m.Keys - {j};
      SumRemove(m - {j}, k, f);
      assert (m - {k}).Keys == m.Keys - {k};
      SumRemove(m - {k}, j, f);
      assert m - {j} - {k} == m - {k} - {j};
    }
  }

  /** What storing `v` under `k` does to the sum, whether or not `k` was bound before. */
  lemma SumSet<K, V>(m: map<K, V>, k: K, v: V, f: V -> nat)
    ensures MapSum(m[k := v], f) == MapSum(m - {k}, f) + f(v)
    ensures MapSum(m, f) == MapSum(m - {k}, f) + (if k in m then f(m[k]) else 0)
  {
    SumRemove(m[k := v], k, f);
    assert m[k := v] - {k} == m - {k};
    if k in m {
      SumRemove(m, k, f);
    } else {
      assert m - {k} == m;
    }
  }

  /** One value is never larger than the sum. */
  lemma SumMember<K, V>(m: map<K, V>, k: K, f: V -> nat)
    requires k in m
    ensures f(m[k]) <= MapSum(m, f)
  {
    SumRemove(m, k, f);
  }

  /** A pointwise bound, with a constant factor on the right, bounds the sums. */
  lemma {:induction false} SumBound<K, V>(m: map<K, V>, f: V -> nat, g: V -> nat, h: V -> nat, factor: nat)
    requires forall k :: k in m ==> f(m[k]) <= g(m[k]) + h(m[k]) * factor
    ensures MapSum(m, f) <= MapSum(m, g) + MapSum(m, h) * factor
    decreases |m|
  {
    if m != map[] {
      var k :| k in m;
      assert (m - {k}).Keys == m.Keys - {k};
      SumBound(m - {k}, f, g, h, factor);
      SumRemove(m, k, f);
      SumRemove(m, k, g);
      SumRemove(m, k, h);
      assert (h(m[k]) + MapSum(m - {k}, h)) * factor == h(m[k]) * factor + MapSum(m - {k}, h) * factor;
    }
  }

  /** A pointwise bound, with a constant factor on the left, bounds the sums. */
  lemma {:induction false} SumScaled<K, V>(m: map<K, V>, f: V -> nat, factor: nat, g: V -> nat)
    requires forall k :: k in m ==> f(m[k]) * factor <= g(m[k])
    ensures MapSum(m, f) * factor <= MapSum(m, g)
    decreases |m|
  {
    if m != map[] {
      var k :| k in m;
      assert (m - {k}).Keys == m.Keys - {k};
      SumScaled(m - {k}, f, factor, g);
      SumRemove(m, k, f);
      SumRemove(m, k, g);
      assert (f(m[k]) + MapSum(m - {k}, f)) * factor == f(m[k]) * factor + MapSum(m - {k}, f) * factor;
    }
  }

  /** If one measure is the sum of two others on every value, so are the sums. */
  lemma {:induction false} SumSplit<K, V>(m: map<K, V>, f: V -> nat, g: V -> nat, h: V -> nat)
    requires forall k :: k in m ==> f(m[k]) == g(m[k]) + h(m[k])
    ensures MapSum(m, f) == MapSum(m, g) + MapSum(m, h)
    decreases |m|
  {
    if m != map[] {
      var k :| k in m;
      assert (m - {k}).Keys == m.Keys - {k};
      SumSplit(m - {k}, f, g, h);
      SumRemove(m, k, f);
      SumRemove(m, k, g);
      SumRemove(m, k, h);
    }
  }
}
