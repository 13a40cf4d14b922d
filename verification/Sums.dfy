/** Totals of finite maps into the naturals, and how they change with one entry. */
module Sums {

  ghost function Total<K>(m: map<K, nat>): nat {
    if m == map[] then 0
    else
      var k :| k in m;
      m[k] + Total(m - {k})
  }

  /** Any key may be taken out first. */
  lemma {:induction false} TotalRemove<K>(m: map<K, nat>, k: K)
    requires k in m
    ensures Total(m) == m[k] + Total(m - {k})
    decreases |m|
  {
    var j :| j in m && Total(m) == m[j] + Total(m - {j});
    if j != k {
      TotalRemove(m - {j}, k);
      TotalRemove(m - {k}, j);
      assert m - {j} - {k} == m - {k} - {j};
    }
  }

  lemma TotalInsert<K>(m: map<K, nat>, k: K, v: nat)
    requires k !in m
    ensures Total(m[k := v]) == Total(m) + v
  {
    TotalRemove(m[k := v], k);
    assert m[k := v] - {k} == m;
  }

  lemma TotalUpdate<K>(m: map<K, nat>, k: K, v: nat)
    requires k in m
    ensures Total(m[k := v]) + m[k] == Total(m) + v
  {
    TotalRemove(m, k);
    TotalRemove(m[k := v], k);
    assert m[k := v] - {k} == m - {k};
  }

  /** Moving an amount from one entry to another (or to itself) keeps the total. */
  lemma TotalTransfer<K>(m: map<K, nat>, mid: map<K, nat>, last: map<K, nat>, from: K, to: K, amount: nat)
    requires from in m && to in m && m[from] >= amount
    requires mid == m[from := m[from] - amount] && last == mid[to := mid[to] + amount]
    ensures Total(last) == Total(m)
  {
    TotalUpdate(m, from, m[from] - amount);
    TotalUpdate(mid, to, mid[to] + amount);
  }
}
