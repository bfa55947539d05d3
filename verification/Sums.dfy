/** Sums over the values of a map. */
module Sums {

  ghost function Sum(counters: map<string, int>): int {
    if counters == map[] then 0
    else var k :| k in counters; counters[k] + Sum(counters - {k})
  }

  lemma {:induction false} SumRemove(counters: map<string, int>, k: string)
    requires k in counters
    ensures Sum(counters) == counters[k] + Sum(counters - {k})
    decreases |counters|
  {
    var k0 :| k0 in counters && Sum(counters) == counters[k0] + Sum(counters - {k0});
    if k0 != k {
      SumRemove(counters - {k0}, k);
      SumRemove(counters - {k}, k0);
      assert counters - {k0} - {k} == counters - {k} - {k0};
    }
  }

  lemma SumUpdate(counters: map<string, int>, k: string, v: int)
    ensures Sum(counters[k := v]) == Sum(counters - {k}) + v
  {
    SumRemove(counters[k := v], k);
    assert counters[k := v] - {k} == counters - {k};
  }
}
