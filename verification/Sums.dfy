/** Totals over the values of a map. */
module Sums {
  ghost function SumOver<K>(m: map<K, int>): int {
    if m == map[] then 0
    else
      var k :| k in m;
      m[k] + SumOver(m - {k})
  }

  /** Any entry may be taken out first. */
  lemma {:induction false} SumWithout<K>(m: map<K, int>, k: K)
    requires k in m
    ensures SumOver(m) == m[k] + SumOver(m - {k})
  {
    var j :| j in m && SumOver(m) == m[j] + SumOver(m - {j});
    if j != k {
      SumWithout(m - {j}, k);
      SumWithout(m - {k}, j);
      assert m - {j} - {k} == m - {k} - {j};
    }
  }

  lemma OneMore<K>(m: map<K, int>, k: K, n: int)
    ensures k !in m ==> SumOver(m[k := n]) == SumOver(m) + n
  {
    SumWithout(m[k := n], k);
    assert k !in m ==> m[k := n] - {k} == m;
  }

  method Total<K(==)>(m: map<K, int>) returns (total: int)
    ensures total == SumOver(m)
  {
    total := 0;
    var rest := m;
    while rest != map[]
      invariant total + SumOver(rest) == SumOver(m)
      decreases |rest|
    {
      var k :| k in rest;
      SumWithout(rest, k);
      total := total + rest[k];
      rest := rest - {k};
    }
  }
}
