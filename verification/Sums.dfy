/** Sums of the values of a finite map, and sizes of finite sets. */
module Sums {

  ghost function Sum<K>(m: map<K, int>): int {
    if m == map[] then 0 else
      var k :| k in m;
      m[k] + Sum(m - {k})
  }

  function Get<K(==)>(m: map<K, int>, k: K): int {
    if k in m then m[k] else 0
  }

  lemma {:induction false} SumRemove<K>(m: map<K, int>, k: K)
    requires k in m
    ensures Sum(m) == m[k] + Sum(m - {k})
    decreases |m|
  {
    var j :| j in m && Sum(m) == m[j] + Sum(m - {j});
    if j != k {
      SumRemove(m - {j}, k);
      SumRemove(m - {k}, j);
      assert m - {j} - {k} == m - {k} - {j};
    }
  }

  lemma SumEmpty<K>()
    ensures Sum<K>(map[]) == 0
  {
  }

  lemma SumSet<K>(m: map<K, int>, k: K, v: int)
    ensures Sum(m[k := v]) == Sum(m) - Get(m, k) + v
  {
    var m' := m[k := v];
    SumRemove(m', k);
    assert m' - {k} == m - {k};
    if k in m {
      SumRemove(m, k);
    } else {
      assert m - {k} == m;
    }
  }

  lemma {:induction false} SumNonNegative<K>(m: map<K, int>)
    requires forall k :: k in m ==> m[k] >= 0
    ensures Sum(m) >= 0
    ensures forall k :: k in m ==> m[k] <= Sum(m)
    decreases |m|
  {
    if m != map[] {
      forall k | k in m
        ensures 0 <= m[k] <= Sum(m)
      {
        SumRemove(m, k);
        SumNonNegative(m - {k});
      }
      var k :| k in m;
    }
  }

  lemma {:induction false} SubsetSize<T>(a: set<T>, b: set<T>)
    ensures a <= b ==> |a| <= |b|
    decreases a
  {
    if a <= b && a != {} {
      var x :| x in a;
      SubsetSize(a - {x}, b - {x});
    }
  }
}
