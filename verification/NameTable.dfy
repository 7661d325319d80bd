/**
 * The growing name tables of the v2 encoder: entry names and label names are
 * numbered in order of first use (record_batch.go: entryIndexLookup/entries and
 * labelIndex/labelNames with the closure ensureLabel).
 */
module NameTable {
  import opened Ordering

  ghost predicate NoDup(names: seq<string>) {
    forall i, j :: 0 <= i < j < |names| ==> names[i] != names[j]
  }

  /** A table without duplicates is no longer than the set its names come from. */
  lemma {:induction false} NoDupFits(names: seq<string>, all: set<string>)
    requires NoDup(names) && forall i :: 0 <= i < |names| ==> names[i] in all
    ensures |names| <= |all|
  {
    if names != [] {
      NoDupFits(names[..|names| - 1], all - {names[|names| - 1]});
    }
  }

  function TotalLength(names: seq<string>): nat {
    if names == [] then 0 else TotalLength(names[..|names| - 1]) + |names[|names| - 1]|
  }

  lemma {:induction false} TotalLengthWithout(names: seq<string>, i: nat)
    requires i < |names|
    ensures TotalLength(names) == TotalLength(names[..i] + names[i + 1..]) + |names[i]|
  {
    var n := |names| - 1;
    if i == n {
      assert names[..i] + names[i + 1..] == names[..n];
    } else {
      TotalLengthWithout(names[..n], i);
      assert (names[..i] + names[i + 1..])[..n - 1] == names[..n][..i] + names[..n][i + 1..];
    }
  }

  /** A list that is no longer than a table and has all its names is a rearrangement of it. */
  lemma {:induction false} CoverKeepsLength(table: seq<string>, names: seq<string>)
    requires NoDup(table) && |names| <= |table| && forall i :: 0 <= i < |table| ==> table[i] in names
    ensures TotalLength(names) == TotalLength(table)
    decreases |table|
  {
    if table != [] {
      var init, last := table[..|table| - 1], table[|table| - 1];
      var j :| 0 <= j < |names| && names[j] == last;
      var rest := names[..j] + names[j + 1..];
      forall i | 0 <= i < |init| ensures init[i] in rest {
        var k :| 0 <= k < |names| && names[k] == table[i];
        assert rest[if k < j then k else k - 1] == table[i];
      }
      CoverKeepsLength(init, rest);
      TotalLengthWithout(names, j);
    }
  }

  lemma {:induction false} ShorterInTotal(names: seq<string>, others: seq<string>, k: nat)
    requires |names| == |others| && forall i :: 0 <= i < |names| ==> |names[i]| <= |others[i]|
    requires k < |names| && |names[k]| < |others[k]|
    ensures TotalLength(names) < TotalLength(others)
  {
    var n := |names| - 1;
    if k < n {
      ShorterInTotal(names[..n], others[..n], k);
    } else {
      NotLongerInTotal(names[..n], others[..n]);
    }
  }

  lemma {:induction false} NotLongerInTotal(names: seq<string>, others: seq<string>)
    requires |names| == |others| && forall i :: 0 <= i < |names| ==> |names[i]| <= |others[i]|
    ensures TotalLength(names) <= TotalLength(others)
  {
    if names != [] {
      NotLongerInTotal(names[..|names| - 1], others[..|names| - 1]);
    }
  }

  /** The table after `name` has been looked up. */
  function Intern(names: seq<string>, name: string): seq<string> {
    if name in names then names else names + [name]
  }

  function InternAll(names: seq<string>, uses: seq<string>): seq<string> {
    if uses == [] then names
    else Intern(InternAll(names, uses[..|uses| - 1]), uses[|uses| - 1])
  }

  /** The number of a name: where it first stands. */
  function Position(names: seq<string>, name: string): (i: nat)
    requires name in names
    ensures i < |names| && names[i] == name
  {
    if names[0] == name then 0 else
    assert names == [names[0]] + names[1..];
    1 + Position(names[1..], name)
  }

  lemma {:induction false} PositionUnique(names: seq<string>, i: nat)
    requires NoDup(names) && i < |names|
    ensures Position(names, names[i]) == i
  {}

  /** A table that only grows by appending keeps every number already given out. */
  lemma {:induction false} PositionStable(names: seq<string>, longer: seq<string>, name: string)
    requires name in names && names <= longer
    ensures name in longer && Position(longer, name) == Position(names, name)
  {
    assert longer[0] == names[0];
    var p := Position(names, name);
    assert longer[p] == name;
    if names[0] != name {
      assert names == [names[0]] + names[1..];
      PositionStable(names[1..], longer[1..], name);
    }
  }

  lemma {:induction false} InternAllGrows(names: seq<string>, uses: seq<string>)
    ensures names <= InternAll(names, uses)
    ensures NoDup(names) ==> NoDup(InternAll(names, uses))
  {
    if uses != [] { InternAllGrows(names, uses[..|uses| - 1]); }
  }

  lemma {:induction false} InternAllLength(names: seq<string>, uses: seq<string>)
    ensures |InternAll(names, uses)| <= |names| + |uses|
  {
    if uses != [] { InternAllLength(names, uses[..|uses| - 1]); }
  }

  lemma {:induction false} InternAllMembers(names: seq<string>, uses: seq<string>, name: string)
    ensures name in InternAll(names, uses) <==> name in names || name in uses
  {
    if uses != [] {
      assert uses == uses[..|uses| - 1] + [uses[|uses| - 1]];
      InternAllMembers(names, uses[..|uses| - 1], name);
    }
  }

  /** Names first used in sorted order are numbered in sorted order. */
  lemma {:induction false} InternSortedUses(uses: seq<string>)
    requires Sorted(uses, StrLess)
    ensures StrictSorted(InternAll([], uses), StrLess)
  {
    if uses != [] {
      var init, last := uses[..|uses| - 1], uses[|uses| - 1];
      InternSortedUses(init);
      var names := InternAll([], init);
      forall i | 0 <= i < |names| ensures last in names || StrLess(names[i], last) {
        InternAllMembers([], init, names[i]);
        assert names[i] in init;
        var k :| 0 <= k < |init| && init[k] == names[i];
        assert uses[k] == init[k] && !StrLess(last, uses[k]);
        StrConnected(names[i], last);
      }
    }
  }

  lemma {:induction false} SortedPositions(names: seq<string>, a: string, b: string)
    requires StrictSorted(names, StrLess) && a in names && b in names
    ensures StrLess(a, b) <==> Position(names, a) < Position(names, b)
    ensures NoDup(names)
  {
    hide StrLess;
    var i, j := Position(names, a), Position(names, b);
    StrIrreflexive(a);
    if j < i && StrLess(a, b) {
      StrTransitive(a, b, a);
    }
    forall p, q | 0 <= p < q < |names| ensures names[p] != names[q] {
      StrIrreflexive(names[p]);
    }
  }

  /** A lookup map and the list of names it numbers, updated together. */
  class Table {
    var index: map<string, nat>
    var names: seq<string>

    /** `index` and `names` are mutually inverse, so `names` has no duplicates. */
    ghost predicate Valid()
      reads this
    {
      && (forall i :: 0 <= i < |names| ==> names[i] in index && index[names[i]] == i)
      && (forall k :: k in index ==> index[k] < |names| && names[index[k]] == k)
    }

    constructor ()
      ensures Valid() && names == []
    {
      index := map[];
      names := [];
    }

    /** ensureLabel. */
    method Ensure(name: string) returns (idx: nat)
      requires Valid()
      modifies this
      ensures Valid()
      ensures names == Intern(old(names), name)
      ensures name in names && idx == Position(names, name)
      ensures old(names) <= names && NoDup(names)
    {
      if name in index {
        PositionUnique(names, index[name]);
        return index[name];
      }
      idx := |names|;
      index := index[name := idx];
      names := names + [name];
      PositionUnique(names, idx);
    }
  }
}
