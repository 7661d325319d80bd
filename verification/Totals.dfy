/** Sums over maps: what the values add up to, whatever the order in which they are met. */
module Totals {
  import opened Ordering
  import opened Bodies

  ghost function Total<K(!new)>(m: map<K, nat>): nat
    decreases |m|
  {
    if m == map[] then 0
    else
      var k :| k in m;
      m[k] + Total(m - {k})
  }

  lemma TotalOfNothing<K(!new)>()
    ensures Total<K>(map[]) == 0
  {}

  /** The choice of the key does not matter. */
  lemma {:induction false} TotalRemove<K(!new)>(m: map<K, nat>, k: K)
    requires k in m
    ensures Total(m) == m[k] + Total(m - {k})
    decreases |m|
  {
    var c :| c in m && Total(m) == m[c] + Total(m - {c});
    if c != k {
      TotalRemove(m - {c}, k);
      TotalRemove(m - {k}, c);
      assert m - {c} - {k} == m - {k} - {c};
    }
  }

  lemma {:induction false} TotalPut<K(!new)>(m: map<K, nat>, k: K, n: nat)
    ensures Total(m[k := n]) + (if k in m then m[k] else 0) == Total(m) + n
  {
    hide Total;
    TotalRemove(m[k := n], k);
    if k in m {
      TotalRemove(m, k);
      assert m[k := n] - {k} == m - {k};
    } else {
      assert m[k := n] - {k} == m;
    }
  }

  function ValuesAt<K>(m: map<K, nat>, order: seq<K>): (values: seq<nat>)
    requires forall i :: 0 <= i < |order| ==> order[i] in m
    ensures |values| == |order|
    ensures forall i :: 0 <= i < |order| ==> values[i] == m[order[i]]
  {
    seq(|order|, i requires 0 <= i < |order| => m[order[i]])
  }

  lemma EnumeratesButLast<K(!new), V>(order: seq<K>, m: map<K, V>)
    requires Enumerates(order, m) && order != []
    ensures var init, k := order[..|order| - 1], order[|order| - 1];
            k in m && Enumerates(init, m - {k}) && forall i :: 0 <= i < |init| ==> init[i] in m - {k}
  {
    var init, k := order[..|order| - 1], order[|order| - 1];
    assert order == init + [k] && k in order;
    assert forall i :: 0 <= i < |init| ==> init[i] != k && init[i] in order;
  }

  /** Adding up the values in any order of the keys gives the total. */
  lemma {:induction false} TotalInOrder<K(!new)>(m: map<K, nat>, order: seq<K>)
    requires Enumerates(order, m) && forall i :: 0 <= i < |order| ==> order[i] in m
    ensures Sum(ValuesAt(m, order)) == Total(m)
  {
    if order == [] {
      assert m == map[];
      TotalOfNothing<K>();
    } else {
      hide Total, Enumerates;
      var init, k := order[..|order| - 1], order[|order| - 1];
      EnumeratesButLast(order, m);
      TotalInOrder(m - {k}, init);
      TotalRemove(m, k);
      assert ValuesAt(m, order)[..|init|] == ValuesAt(m - {k}, init);
    }
  }

  /** Parts put together are as long as they are together. */
  lemma {:induction false} ConcatLength(parts: seq<seq<bv8>>)
    ensures |Concat(parts)| == Sum(Lengths(parts))
  {
    ConcatPrefix(parts, |parts|);
    assert parts[..|parts|] == parts && Lengths(parts)[..|parts|] == Lengths(parts);
  }
}
