/** Adding up the values of a map. */
module Sums {

  ghost function Sum<K>(m: map<K, int>): int {
    if m == map[] then 0
    else
      var k :| k in m;
      m[k] + Sum(m - {k})
  }

  /** Any key may be taken out first. */
  lemma {:induction false} SumOut<K>(m: map<K, int>, k: K)
    requires k in m
    ensures Sum(m) == m[k] + Sum(m - {k})
  {
    var j :| j in m && Sum(m) == m[j] + Sum(m - {j});
    if j != k {
      SumOut(m - {j}, k);
      assert m - {j} - {k} == m - {k} - {j};
      SumOut(m - {k}, j);
    }
  }

  lemma SumSet<K>(m: map<K, int>, k: K, v: int)
    ensures Sum(m[k := v]) == Sum(m) + v - if k in m then m[k] else 0
  {
    SumOut(m[k := v], k);
    assert m[k := v] - {k} == m - {k};
    if k in m {
      SumOut(m, k);
    } else {
      assert m - {k} == m;
    }
  }

  lemma {:induction false} SumMonotone<K>(a: map<K, int>, b: map<K, int>)
    requires forall k :: k in a ==> k in b && a[k] <= b[k]
    requires forall k :: k in b && k !in a ==> 0 <= b[k]
    ensures Sum(a) <= Sum(b)
    decreases |b|
  {
    if b != map[] {
      var k :| k in b;
      SumOut(b, k);
      if k in a {
        SumOut(a, k);
      } else {
        assert a - {k} == a;
      }
      SumMonotone(a - {k}, b - {k});
    }
  }

  /** Equal sums of such maps mean equal maps. */
  lemma {:induction false} SumStrict<K>(a: map<K, int>, b: map<K, int>)
    requires forall k :: k in a ==> k in b && a[k] <= b[k]
    requires forall k :: k in b && k !in a ==> 0 < b[k]
    requires Sum(a) == Sum(b)
    ensures a == b
    decreases |b|
  {
    if b != map[] {
      var k :| k in b;
      SumOut(b, k);
      assert k !in a ==> a - {k} == a;
      SumMonotone(a - {k}, b - {k});
      if k in a {
        SumOut(a, k);
        SumStrict(a - {k}, b - {k});
        assert forall j :: j in b && j != k ==> j in b - {k} && (b - {k})[j] == b[j];
        assert forall j :: j in a && j != k ==> j in a - {k} && (a - {k})[j] == a[j];
      }
    }
  }
}
