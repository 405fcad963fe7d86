/** Sums over the values of a finite map, and how one update changes them. */
module MapSum {

  ghost function Pick<K>(s: set<K>): (k: K)
    requires s != {}
    ensures k in s
  {
    var k :| k in s; k
  }

  ghost function SumInt<K, V>(m: map<K, V>, f: V -> int): int
    decreases |m|
  {
    if m.Keys == {} then 0 else
      var k := Pick(m.Keys);
      f(m[k]) + SumInt(m - {k}, f)
  }

  ghost function SumReal<K, V>(m: map<K, V>, f: V -> real): real
    decreases |m|
  {
    if m.Keys == {} then 0.0 else
      var k := Pick(m.Keys);
      f(m[k]) + SumReal(m - {k}, f)
  }

  lemma RemoveInEitherOrder<K, V>(m: map<K, V>, j: K, k: K)
    ensures (m - {j}) - {k} == (m - {k}) - {j}
  {
  }

  lemma {:induction false} SumIntRemove<K, V>(m: map<K, V>, k: K, f: V -> int)
    requires k in m
    ensures SumInt(m, f) == f(m[k]) + SumInt(m - {k}, f)
    decreases |m|
  {
    var j := Pick(m.Keys);
    if j != k {
      SumIntRemove(m - {j}, k, f);
      SumIntRemove(m - {k}, j, f);
      assert (m - {j})[k] == m[k] && (m - {k})[j] == m[j];
      RemoveInEitherOrder(m, j, k);
    }
  }

  lemma {:induction false} SumRealRemove<K, V>(m: map<K, V>, k: K, f: V -> real)
    requires k in m
    ensures SumReal(m, f) == f(m[k]) + SumReal(m - {k}, f)
    decreases |m|
  {
    var j := Pick(m.Keys);
    if j != k {
      SumRealRemove(m - {j}, k, f);
      SumRealRemove(m - {k}, j, f);
      assert (m - {j})[k] == m[k] && (m - {k})[j] == m[j];
      RemoveInEitherOrder(m, j, k);
    }
  }

  /** Writing one key moves the sum by the new value's weight less the old one's. */
  lemma SumIntUpdate<K, V>(m: map<K, V>, k: K, v: V, f: V -> int)
    ensures SumInt(m[k := v], f) == SumInt(m, f) - (if k in m then f(m[k]) else 0) + f(v)
  {
    SumIntRemove(m[k := v], k, f);
    if k in m {
      SumIntRemove(m, k, f);
      assert m[k := v] - {k} == m - {k};
    } else {
      assert m[k := v] - {k} == m;
    }
  }

  lemma SumRealUpdate<K, V>(m: map<K, V>, k: K, v: V, f: V -> real)
    ensures SumReal(m[k := v], f) == SumReal(m, f) - (if k in m then f(m[k]) else 0.0) + f(v)
  {
    SumRealRemove(m[k := v], k, f);
    if k in m {
      SumRealRemove(m, k, f);
      assert m[k := v] - {k} == m - {k};
    } else {
      assert m[k := v] - {k} == m;
    }
  }

  /** Rewriting values without touching their weights leaves the sum alone. */
  lemma {:induction false} SumIntSame<K, V>(m: map<K, V>, m': map<K, V>, f: V -> int)
    requires m.Keys == m'.Keys && forall k :: k in m ==> f(m[k]) == f(m'[k])
    ensures SumInt(m, f) == SumInt(m', f)
    decreases |m|
  {
    if m.Keys != {} {
      var k := Pick(m.Keys);
      SumIntSame(m - {k}, m' - {k}, f);
    }
  }
}
