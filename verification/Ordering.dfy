/** Orders and sorting: Go's byte-wise string order and `slices.SortFunc`. */
module Ordering {

  /** Go's `<` on strings. */
  predicate StrLess(a: string, b: string) {
    if b == "" then false
    else if a == "" then true
    else if a[0] != b[0] then a[0] < b[0]
    else StrLess(a[1..], b[1..])
  }

  /** A proper prefix comes first, and else the first difference decides. */
  lemma {:induction false} StrLessIff(a: string, b: string)
    ensures StrLess(a, b) <==> a < b || exists i :: 0 <= i < |a| && i < |b| && a[..i] == b[..i] && a[i] < b[i]
  {
    if a == "" || b == "" {
    } else if a[0] != b[0] {
      assert a[..0] == b[..0];
    } else {
      StrLessIff(a[1..], b[1..]);
      assert a == [a[0]] + a[1..] && b == [b[0]] + b[1..];
      if i :| 0 <= i < |a[1..]| && i < |b[1..]| && a[1..][..i] == b[1..][..i] && a[1..][i] < b[1..][i] {
        assert a[..i + 1] == [a[0]] + a[1..][..i] && b[..i + 1] == [b[0]] + b[1..][..i];
      }
      if i :| 0 <= i < |a| && i < |b| && a[..i] == b[..i] && a[i] < b[i] {
        assert a[1..][..i - 1] == a[..i][1..] && b[1..][..i - 1] == b[..i][1..];
        assert a[1..][i - 1] < b[1..][i - 1];
      }
    }
  }

  lemma {:induction false} StrIrreflexive(a: string)
    ensures !StrLess(a, a)
  {
    if a != "" { StrIrreflexive(a[1..]); }
  }

  lemma {:induction false} StrTransitive(a: string, b: string, c: string)
    requires StrLess(a, b) && StrLess(b, c)
    ensures StrLess(a, c)
  {
    if a != "" && a[0] == b[0] == c[0] { StrTransitive(a[1..], b[1..], c[1..]); }
  }

  lemma {:induction false} StrConnected(a: string, b: string)
    ensures a == b || StrLess(a, b) || StrLess(b, a)
  {
    if a != "" && b != "" && a[0] == b[0] {
      StrConnected(a[1..], b[1..]);
      assert a == [a[0]] + a[1..] && b == [b[0]] + b[1..];
    }
  }

  ghost predicate Irreflexive<T(!new)>(less: (T, T) -> bool) {
    forall a :: !less(a, a)
  }

  ghost predicate Transitive<T(!new)>(less: (T, T) -> bool) {
    forall a, b, c :: less(a, b) && less(b, c) ==> less(a, c)
  }

  ghost predicate NegTransitive<T(!new)>(less: (T, T) -> bool) {
    forall a, b, c :: !less(a, b) && !less(b, c) ==> !less(a, c)
  }

  /** What `slices.SortFunc` demands of its comparison. */
  ghost predicate WeakOrder<T(!new)>(less: (T, T) -> bool) {
    Irreflexive(less) && Transitive(less) && NegTransitive(less)
  }

  lemma StrLessIsWeakOrder()
    ensures WeakOrder(StrLess)
  {
    forall a: string { StrIrreflexive(a); }
    forall a, b, c | StrLess(a, b) && StrLess(b, c) ensures StrLess(a, c) { StrTransitive(a, b, c); }
    forall a, b, c | !StrLess(a, b) && !StrLess(b, c) ensures !StrLess(a, c) {
      if StrLess(a, c) {
        StrConnected(a, b);
        StrConnected(b, c);
        if a != b {
          StrTransitive(b, a, c);
        }
      }
    }
  }

  ghost predicate Sorted<T>(xs: seq<T>, less: (T, T) -> bool) {
    forall i, j :: 0 <= i < j < |xs| ==> !less(xs[j], xs[i])
  }

  ghost predicate StrictSorted<T>(xs: seq<T>, less: (T, T) -> bool) {
    forall i, j :: 0 <= i < j < |xs| ==> less(xs[i], xs[j])
  }

  /** Strictly sorted sequences with the same elements are the same sequence. */
  lemma {:induction false} StrictSortedUnique<T(!new)>(xs: seq<T>, ys: seq<T>, less: (T, T) -> bool)
    requires Irreflexive(less) && Transitive(less)
    requires StrictSorted(xs, less) && StrictSorted(ys, less)
    requires forall x :: x in xs <==> x in ys
    ensures xs == ys
  {
    assert ys != [] ==> ys[0] in ys;
    if xs == [] {
      assert ys == [];
    } else {
      assert xs[0] in xs && xs[0] in ys;
      assert ys[0] in ys && ys[0] in xs;
      assert forall k :: 0 <= k < |xs| ==> xs[k] == xs[0] || less(xs[0], xs[k]);
      assert forall k :: 0 <= k < |ys| ==> ys[k] == ys[0] || less(ys[0], ys[k]);
      assert xs[0] == ys[0];
      forall x ensures x in xs[1..] <==> x in ys[1..] {
        assert x in xs[1..] ==> x in xs && less(xs[0], x);
        assert x in ys[1..] ==> x in ys && less(ys[0], x);
        assert xs == [xs[0]] + xs[1..] && ys == [ys[0]] + ys[1..];
      }
      StrictSortedUnique(xs[1..], ys[1..], less);
    }
  }

  function Insert<T>(x: T, xs: seq<T>, less: (T, T) -> bool): seq<T> {
    if xs == [] then [x]
    else if less(xs[0], x) then [xs[0]] + Insert(x, xs[1..], less)
    else [x] + xs
  }

  function Sort<T>(xs: seq<T>, less: (T, T) -> bool): seq<T> {
    if xs == [] then [] else Insert(xs[0], Sort(xs[1..], less), less)
  }

  lemma {:induction false} InsertElements<T>(x: T, xs: seq<T>, less: (T, T) -> bool)
    ensures multiset(Insert(x, xs, less)) == multiset(xs) + multiset{x}
  {
    if xs != [] {
      assert xs == [xs[0]] + xs[1..];
      if less(xs[0], x) { InsertElements(x, xs[1..], less); }
    }
  }

  lemma {:induction false} SortElements<T>(xs: seq<T>, less: (T, T) -> bool)
    ensures multiset(Sort(xs, less)) == multiset(xs)
    ensures |Sort(xs, less)| == |xs|
  {
    if xs != [] {
      assert xs == [xs[0]] + xs[1..];
      SortElements(xs[1..], less);
      InsertElements(xs[0], Sort(xs[1..], less), less);
    }
    assert |multiset(Sort(xs, less))| == |multiset(xs)|;
  }

  lemma {:induction false} SortMembers<T>(xs: seq<T>, less: (T, T) -> bool)
    ensures forall x :: x in Sort(xs, less) <==> x in xs
  {
    SortElements(xs, less);
    forall x ensures x in Sort(xs, less) <==> x in xs {
      assert x in Sort(xs, less) <==> x in multiset(Sort(xs, less));
      assert x in xs <==> x in multiset(xs);
    }
  }

  lemma {:induction false} InsertSorted<T(!new)>(x: T, xs: seq<T>, less: (T, T) -> bool)
    requires WeakOrder(less) && Sorted(xs, less)
    ensures Sorted(Insert(x, xs, less), less)
  {
    if xs != [] {
      if less(xs[0], x) {
        InsertSorted(x, xs[1..], less);
        var r := Insert(x, xs[1..], less);
        InsertElements(x, xs[1..], less);
        forall j | 0 <= j < |r| ensures !less(r[j], xs[0]) {
          assert r[j] in multiset(r);
          assert r[j] in xs[1..] || r[j] == x;
        }
      } else {
        forall j | 0 <= j < |xs| ensures !less(xs[j], x) {
          assert j == 0 || !less(xs[j], xs[0]);
        }
      }
    }
  }

  lemma {:induction false} SortSorted<T(!new)>(xs: seq<T>, less: (T, T) -> bool)
    requires WeakOrder(less)
    ensures Sorted(Sort(xs, less), less)
  {
    if xs != [] {
      SortSorted(xs[1..], less);
      InsertSorted(xs[0], Sort(xs[1..], less), less);
    }
  }

  /** Different elements taken from a sequence are no more than it has. */
  lemma {:induction false} NoMoreThan<T(!new)>(xs: seq<T>, ys: seq<T>)
    requires (forall i, j :: 0 <= i < j < |xs| ==> xs[i] != xs[j]) && forall x :: x in xs ==> x in ys
    ensures |xs| <= |ys|
  {
    if xs != [] {
      var init, x := xs[..|xs| - 1], xs[|xs| - 1];
      assert x in xs && x in ys;
      var p :| 0 <= p < |ys| && ys[p] == x;
      forall y | y in init ensures y in ys[..p] + ys[p + 1..] {
        assert y in xs && y in ys && y != x;
        assert ys == ys[..p] + [ys[p]] + ys[p + 1..];
      }
      NoMoreThan(init, ys[..p] + ys[p + 1..]);
    }
  }

  /** No two positions hold elements that compare equal. */
  ghost predicate Distinct<T>(xs: seq<T>, less: (T, T) -> bool) {
    forall i, j :: 0 <= i < j < |xs| ==> less(xs[i], xs[j]) || less(xs[j], xs[i])
  }

  lemma {:induction false} NoDuplicates<T>(xs: seq<T>)
    requires forall i, j :: 0 <= i < j < |xs| ==> xs[i] != xs[j]
    ensures forall a :: multiset(xs)[a] <= 1
  {
    if xs != [] {
      NoDuplicates(xs[1..]);
      assert xs == [xs[0]] + xs[1..];
      assert xs[0] !in xs[1..];
    }
  }

  lemma SingleOccurrence<T>(xs: seq<T>, i: nat, j: nat)
    requires i < j < |xs| && multiset(xs)[xs[j]] <= 1
    ensures xs[i] != xs[j]
  {
    assert xs == xs[..j] + xs[j..];
    assert xs[i] in xs[..j] && xs[j] in xs[j..];
    assert xs[i] in multiset(xs[..j]) && xs[j] in multiset(xs[j..]);
  }

  /** Distinctness does not depend on the order of the elements. */
  lemma DistinctPermutation<T(!new)>(xs: seq<T>, ys: seq<T>, less: (T, T) -> bool)
    requires Irreflexive(less)
    requires Distinct(xs, less) && multiset(xs) == multiset(ys)
    ensures Distinct(ys, less)
  {
    NoDuplicates(xs);
    forall i, j | 0 <= i < j < |ys| ensures less(ys[i], ys[j]) || less(ys[j], ys[i]) {
      SingleOccurrence(ys, i, j);
      assert ys[i] in multiset(ys) && ys[j] in multiset(ys);
      assert ys[i] in xs && ys[j] in xs;
    }
  }

  /**
   * `slices.SortFunc` sorts in place and does not promise stability, so only
   * the multiset and the order of the result are known.
   */
  method SortFunc<T(!new)>(xs: seq<T>, less: (T, T) -> bool) returns (ys: seq<T>)
    requires WeakOrder(less)
    ensures Sorted(ys, less)
    ensures multiset(ys) == multiset(xs)
  {
    ys := Sort(xs, less);
    SortSorted(xs, less);
    SortElements(xs, less);
  }

  /** On elements with distinct keys every correct sort gives the same result. */
  lemma {:induction false} SortUnique<T(!new)>(xs: seq<T>, ys: seq<T>, less: (T, T) -> bool)
    requires WeakOrder(less) && Distinct(xs, less)
    requires Sorted(ys, less) && multiset(ys) == multiset(xs)
    ensures ys == Sort(xs, less)
    ensures StrictSorted(ys, less)
  {
    var zs := Sort(xs, less);
    SortSorted(xs, less);
    SortElements(xs, less);
    DistinctPermutation(xs, ys, less);
    DistinctPermutation(xs, zs, less);
    forall x ensures x in ys <==> x in zs {
      assert x in ys <==> x in multiset(ys);
      assert x in zs <==> x in multiset(zs);
    }
    StrictSortedUnique(ys, zs, less);
  }

  // ---- sets of strings in sorted order --------------------------------------

  ghost predicate IsSortedKeys(keys: set<string>, ks: seq<string>) {
    StrictSorted(ks, StrLess) && forall k :: k in ks <==> k in keys
  }

  lemma {:induction false} SortedKeysExist(keys: set<string>)
    ensures exists ks :: IsSortedKeys(keys, ks)
  {
    if keys == {} {
      assert IsSortedKeys(keys, []);
    } else {
      var k :| k in keys;
      SortedKeysExist(keys - {k});
      var ks :| IsSortedKeys(keys - {k}, ks);
      StrLessIsWeakOrder();
      var xs := ks + [k];
      forall i, j | 0 <= i < j < |xs| ensures StrLess(xs[i], xs[j]) || StrLess(xs[j], xs[i]) {
        if j == |ks| {
          assert xs[i] in ks;
          StrConnected(xs[i], k);
        }
      }
      SortSorted(xs, StrLess);
      SortElements(xs, StrLess);
      SortUnique(xs, Sort(xs, StrLess), StrLess);
      SortMembers(xs, StrLess);
      assert IsSortedKeys(keys, Sort(xs, StrLess));
    }
  }

  /** The members of a set of names in Go's string order. */
  ghost function SortedKeys(keys: set<string>): (ks: seq<string>)
    ensures IsSortedKeys(keys, ks)
  {
    SortedKeysExist(keys);
    var ks :| IsSortedKeys(keys, ks);
    ks
  }

  lemma SortedKeysUnique(keys: set<string>, ks: seq<string>)
    requires IsSortedKeys(keys, ks)
    ensures ks == SortedKeys(keys)
  {
    StrLessIsWeakOrder();
    StrictSortedUnique(ks, SortedKeys(keys), StrLess);
  }

  /** Collects the keys of a Go map in whatever order the range yields and sorts them. */
  method CollectSorted(keys: set<string>) returns (ks: seq<string>)
    ensures ks == SortedKeys(keys)
  {
    StrLessIsWeakOrder();
    var rest, got := keys, [];
    while rest != {}
      invariant rest <= keys
      invariant forall k :: k in got <==> k in keys - rest
      invariant Distinct(got, StrLess)
    {
      var k :| k in rest;
      forall i | 0 <= i < |got| ensures StrLess(got[i], k) || StrLess(k, got[i]) {
        assert got[i] in got;
        StrConnected(got[i], k);
      }
      got := got + [k];
      rest := rest - {k};
    }
    ks := SortFunc(got, StrLess);
    SortUnique(got, ks, StrLess);
    SortMembers(got, StrLess);
    SortedKeysUnique(keys, ks);
  }

  // ---- ranging over a map ---------------------------------------------------

  /** `order` is one of the orders in which a Go range may visit the keys of a map. */
  ghost predicate Enumerates<K(!new), V>(order: seq<K>, m: map<K, V>) {
    (forall i, j :: 0 <= i < j < |order| ==> order[i] != order[j]) && forall k :: k in order <==> k in m
  }

  /** Every map can be ranged over. */
  lemma {:induction false} EnumerationExists<K(!new), V>(m: map<K, V>)
    ensures exists order :: Enumerates(order, m)
    decreases |m|
  {
    if m == map[] {
      assert Enumerates([], m);
    } else {
      var k :| k in m;
      EnumerationExists(m - {k});
      var order :| Enumerates(order, m - {k});
      var more := order + [k];
      assert k !in order;
      forall j ensures j in more <==> j in m { assert j in more <==> j in order || j == k; }
      forall i, j | 0 <= i < j < |more| ensures more[i] != more[j] { assert more[i] in order; }
      assert Enumerates(more, m);
    }
  }

  lemma EnumeratedIn<K(!new), V>(order: seq<K>, m: map<K, V>)
    requires Enumerates(order, m)
    ensures forall i :: 0 <= i < |order| ==> order[i] in m
  {
    assert forall i :: 0 <= i < |order| ==> order[i] in order;
  }
}
