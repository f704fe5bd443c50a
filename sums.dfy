/** Sums of the values of a finite map, the `sum(d.values())` of the source.
    A map has no order, so the sum takes its keys in an arbitrary order; the
    lemmas below show the order does not matter. */
module Sums {

  /** Sum of the (natural) values of `m`. */
  ghost function Total<K>(m: map<K, nat>): nat
    decreases |m|
  {
    if m == map[] then 0
    else
      var k :| k in m;
      assert |m - {k}| < |m| by { assert (m - {k}).Keys == m.Keys - {k}; }
      m[k] + Total(m - {k})
  }

  /** Sum of the (real) values of `m`. */
  ghost function RealTotal<K>(m: map<K, real>): real
    decreases |m|
  {
    if m == map[] then 0.0
    else
      var k :| k in m;
      assert |m - {k}| < |m| by { assert (m - {k}).Keys == m.Keys - {k}; }
      m[k] + RealTotal(m - {k})
  }

  /** Any key may be taken out first: the sum does not depend on the order. */
  lemma {:induction false} TotalRemove<K>(m: map<K, nat>, k: K)
    requires k in m
    ensures Total(m) == m[k] + Total(m - {k})
    decreases |m|
  {
    var j :| j in m && Total(m) == m[j] + Total(m - {j});
    if j != k {
      assert (m - {j}).Keys == m.Keys - {j};
      assert (m - {k}).Keys == m.Keys - {k};
      TotalRemove(m - {j}, k);
      TotalRemove(m - {k}, j);
      assert m - {j} - {k} == m - {k} - {j};
    }
  }

  lemma {:induction false} RealTotalRemove<K>(m: map<K, real>, k: K)
    requires k in m
    ensures RealTotal(m) == m[k] + RealTotal(m - {k})
    decreases |m|
  {
    var j :| j in m && RealTotal(m) == m[j] + RealTotal(m - {j});
    if j != k {
      assert (m - {j}).Keys == m.Keys - {j};
      assert (m - {k}).Keys == m.Keys - {k};
      RealTotalRemove(m - {j}, k);
      RealTotalRemove(m - {k}, j);
      assert m - {j} - {k} == m - {k} - {j};
    }
  }

  /** `d.get(k, 0)` for a map of counts. */
  function Get<K>(m: map<K, nat>, k: K): nat
  {
    if k in m then m[k] else 0
  }

  /** `d[k] = d.get(k, 0) + 1`. */
  function Bump<K>(m: map<K, nat>, k: K): map<K, nat>
  {
    m[k := Get(m, k) + 1]
  }

  /** Incrementing one entry (or creating it at 1) raises the sum by one. */
  lemma {:induction false} TotalBump<K>(m: map<K, nat>, k: K)
    ensures Total(Bump(m, k)) == Total(m) + 1
  {
    var b := Bump(m, k);
    TotalRemove(b, k);
    if k in m {
      TotalRemove(m, k);
      assert b - {k} == m - {k};
    } else {
      assert b - {k} == m;
    }
  }

  /** Every value is bounded by the sum. */
  lemma {:induction false} TotalBound<K>(m: map<K, nat>, k: K)
    requires k in m
    ensures m[k] <= Total(m)
  {
    TotalRemove(m, k);
  }

  /** Each count divided by `d`: the value comprehension `count / d`. */
  function Normalize<K>(m: map<K, nat>, d: nat): map<K, real>
    requires d > 0
  {
    map k | k in m :: m[k] as real / d as real
  }

  /** Dividing every value by `d` divides the sum by `d`. */
  lemma {:induction false} NormalizeTotal<K>(m: map<K, nat>, d: nat)
    requires d > 0
    ensures RealTotal(Normalize(m, d)) == Total(m) as real / d as real
    decreases |m|
  {
    var n := Normalize(m, d);
    if m == map[] {
      assert n == map[];
    } else {
      var k :| k in m;
      TotalRemove(m, k);
      RealTotalRemove(n, k);
      assert (m - {k}).Keys == m.Keys - {k};
      assert n - {k} == Normalize(m - {k}, d);
      NormalizeTotal(m - {k}, d);
      var a, b, q := m[k] as real, Total(m - {k}) as real, d as real;
      DivAdd(a, b, q);
    }
  }

  lemma DivAdd(a: real, b: real, q: real)
    requires q > 0.0
    ensures a / q + b / q == (a + b) / q
  {
    assert (a / q) * q == a;
    assert (b / q) * q == b;
    assert ((a + b) / q) * q == a + b;
    assert (a / q + b / q) * q == a + b;
  }

  lemma DivSelf(q: real)
    requires q > 0.0
    ensures q / q == 1.0
  {
  }

  lemma DivMonotone(a: real, b: real, q: real)
    requires q > 0.0 && 0.0 < a <= b
    ensures 0.0 < a / q <= b / q
  {
    assert (a / q) * q == a;
    assert (b / q) * q == b;
  }

  /** Dividing counts by their own sum gives values that sum to exactly one. */
  lemma NormalizeSumsToOne<K>(m: map<K, nat>)
    requires Total(m) > 0
    ensures RealTotal(Normalize(m, Total(m))) == 1.0
  {
    NormalizeTotal(m, Total(m));
    DivSelf(Total(m) as real);
  }

  /** Dividing positive counts by a bound on each of them lands in (0, 1]. */
  lemma NormalizeInUnitInterval<K>(m: map<K, nat>, d: nat)
    requires d > 0
    requires forall k :: k in m ==> 0 < m[k] <= d
    ensures forall k :: k in Normalize(m, d) ==> 0.0 < Normalize(m, d)[k] <= 1.0
  {
    forall k | k in m
      ensures 0.0 < Normalize(m, d)[k] <= 1.0
    {
      var a, q := m[k] as real, d as real;
      DivMonotone(a, q, q);
      DivSelf(q);
    }
  }

  /** A single count divided by itself is the certain outcome. */
  lemma NormalizeSingleton<K>(k: K, n: nat)
    requires n > 0
    ensures Normalize(map[k := n], n) == map[k := 1.0]
  {
    DivSelf(n as real);
  }
}
