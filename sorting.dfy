/** The stable sort by dependency name that `filter_dependencies` applies to both
    partitions (`sort_by` on `name().cmp(...)`), done in place on an array. */
module Sorting {
  import opened Semver
  import opened Dependencies
  import Text

  /** A dependency paired with the published version it was classified against. */
  datatype Entry = Entry(dep: Dependency, version: Version)

  predicate SortedByName(s: seq<Entry>)
  {
    forall i, j :: 0 <= i < j < |s| ==> Text.LessEq(s[i].dep.name, s[j].dep.name)
  }

  /** The entries named `n`, in their order in `s`. */
  function WithName(s: seq<Entry>, n: string): seq<Entry>
  {
    if s == [] then []
    else WithName(s[..|s| - 1], n) + (if s[|s| - 1].dep.name == n then [s[|s| - 1]] else [])
  }

  /** Insert `x` after every entry whose name is not greater than its own. */
  function Insert(s: seq<Entry>, x: Entry): seq<Entry>
  {
    if s == [] then [x]
    else if Text.Less(x.dep.name, s[|s| - 1].dep.name) then Insert(s[..|s| - 1], x) + [s[|s| - 1]]
    else s + [x]
  }

  /** Insertion sort: the reference definition of a stable sort by name. */
  function InsertionSort(s: seq<Entry>): seq<Entry>
  {
    if s == [] then [] else Insert(InsertionSort(s[..|s| - 1]), s[|s| - 1])
  }

  lemma WithNameSnoc(s: seq<Entry>, x: Entry, n: string)
    ensures WithName(s + [x], n) == WithName(s, n) + (if x.dep.name == n then [x] else [])
  {
    assert (s + [x])[..|s|] == s;
  }

  lemma {:induction false} InsertMultiset(s: seq<Entry>, x: Entry)
    ensures multiset(Insert(s, x)) == multiset(s) + multiset{x}
  {
    if s != [] {
      var init, last := s[..|s| - 1], s[|s| - 1];
      assert s == init + [last];
      if Text.Less(x.dep.name, last.dep.name) {
        InsertMultiset(init, x);
      }
    }
  }

  lemma {:induction false} InsertSorted(s: seq<Entry>, x: Entry)
    requires SortedByName(s)
    ensures SortedByName(Insert(s, x))
  {
    if s != [] {
      var init, last := s[..|s| - 1], s[|s| - 1];
      if Text.Less(x.dep.name, last.dep.name) {
        InsertSorted(init, x);
        InsertMultiset(init, x);
        var r := Insert(init, x);
        forall i | 0 <= i < |r| ensures Text.LessEq(r[i].dep.name, last.dep.name) {
          assert r[i] in multiset(r);
          if r[i] != x {
            assert r[i] in multiset(init);
            var k :| 0 <= k < |init| && init[k] == r[i];
            assert s[k] == r[i];
          }
        }
      } else {
        Text.LessTotal(x.dep.name, last.dep.name);
        forall i | 0 <= i < |s| ensures Text.LessEq(s[i].dep.name, x.dep.name) {
          Text.LessEqTransitive(s[i].dep.name, last.dep.name, x.dep.name);
        }
      }
    }
  }

  lemma {:induction false} InsertStable(s: seq<Entry>, x: Entry, n: string)
    ensures WithName(Insert(s, x), n) == WithName(s, n) + (if x.dep.name == n then [x] else [])
  {
    if s == [] {
      WithNameSnoc([], x, n);
    } else {
      var init, last := s[..|s| - 1], s[|s| - 1];
      if Text.Less(x.dep.name, last.dep.name) {
        InsertStable(init, x, n);
        WithNameSnoc(Insert(init, x), last, n);
        if x.dep.name == n && last.dep.name == n {
          Text.LessIrreflexive(n);
        }
      } else {
        WithNameSnoc(s, x, n);
      }
    }
  }

  /** Insertion sort sorts by name, permutes its input, and keeps the relative order of
      entries with equal names. */
  lemma {:induction false} InsertionSortCorrect(s: seq<Entry>)
    ensures SortedByName(InsertionSort(s))
    ensures multiset(InsertionSort(s)) == multiset(s)
    ensures forall n :: WithName(InsertionSort(s), n) == WithName(s, n)
  {
    if s != [] {
      var init, last := s[..|s| - 1], s[|s| - 1];
      assert s == init + [last];
      InsertionSortCorrect(init);
      InsertSorted(InsertionSort(init), last);
      InsertMultiset(InsertionSort(init), last);
      forall n ensures WithName(InsertionSort(s), n) == WithName(s, n) {
        InsertStable(InsertionSort(init), last, n);
        WithNameSnoc(init, last, n);
      }
    }
  }

  /** A sorted sequence is determined by its entries of each name: so every stable sort,
      `sort_by` included, returns what insertion sort returns. */
  lemma {:induction false} StableSortUnique(r: seq<Entry>, t: seq<Entry>)
    requires SortedByName(r) && SortedByName(t)
    requires forall n :: WithName(r, n) == WithName(t, n)
    ensures r == t
    decreases |r| + |t|
  {
    if r == [] && t == [] {
    } else if t == [] {
      WithNameNonEmpty(r, r[|r| - 1]);
      assert false;
    } else if r == [] {
      WithNameNonEmpty(t, t[|t| - 1]);
      assert false;
    } else {
      var ri, rl := r[..|r| - 1], r[|r| - 1];
      var ti, tl := t[..|t| - 1], t[|t| - 1];
      assert r == ri + [rl] && t == ti + [tl];
      // the last names agree: each occurs in the other sequence, which is sorted
      WithNameSnoc(ri, rl, rl.dep.name);
      WithNameSnoc(ti, tl, tl.dep.name);
      WithNameMember(t, rl.dep.name, WithName(t, rl.dep.name)[|WithName(t, rl.dep.name)| - 1]);
      WithNameMember(r, tl.dep.name, WithName(r, tl.dep.name)[|WithName(r, tl.dep.name)| - 1]);
      Text.LessEqAntisymmetric(rl.dep.name, tl.dep.name);
      assert rl == tl;
      forall n ensures WithName(ri, n) == WithName(ti, n) {
        WithNameSnoc(ri, rl, n);
        WithNameSnoc(ti, tl, n);
        if rl.dep.name == n {
          assert WithName(ri, n) == WithName(r, n)[..|WithName(r, n)| - 1];
          assert WithName(ti, n) == WithName(t, n)[..|WithName(t, n)| - 1];
        } else {
          assert WithName(ri, n) == WithName(r, n);
          assert WithName(ti, n) == WithName(t, n);
        }
      }
      StableSortUnique(ri, ti);
    }
  }

  lemma WithNameNonEmpty(s: seq<Entry>, x: Entry)
    requires s != [] && x == s[|s| - 1]
    ensures WithName(s, x.dep.name) != []
  {
  }

  /** An entry listed under a name occurs in the sequence, with that name. */
  lemma {:induction false} WithNameMember(s: seq<Entry>, n: string, e: Entry)
    requires e in WithName(s, n)
    ensures e in s && e.dep.name == n
  {
    if s != [] {
      var init := s[..|s| - 1];
      if e in WithName(init, n) {
        WithNameMember(init, n, e);
        assert s == init + [s[|s| - 1]];
      }
    }
  }

  /** `Insert` puts `x` right after the last entry whose name is not greater than its own. */
  lemma {:induction false} InsertAt(s: seq<Entry>, x: Entry, j: nat)
    requires j <= |s|
    requires j == 0 || !Text.Less(x.dep.name, s[j - 1].dep.name)
    requires forall k :: j <= k < |s| ==> Text.Less(x.dep.name, s[k].dep.name)
    ensures Insert(s, x) == s[..j] + [x] + s[j..]
  {
    if j < |s| {
      var init := s[..|s| - 1];
      assert init[..j] == s[..j];
      InsertAt(init, x, j);
      assert s[j..] == init[j..] + [s[|s| - 1]];
    }
  }

  /** The loop of one sort step: shifts the entries before `a[i]` whose names are greater
      than `x`'s one place right, and returns the gap left behind. */
  method ShiftGreater(a: array<Entry>, i: nat, x: Entry) returns (j: nat)
    requires i < a.Length
    modifies a
    ensures j <= i
    ensures forall k :: 0 <= k < j ==> a[k] == old(a[k])
    ensures forall k :: j < k <= i ==> a[k] == old(a[k - 1])
    ensures forall k :: i < k < a.Length ==> a[k] == old(a[k])
    ensures j == 0 || !Text.Less(x.dep.name, old(a[j - 1]).dep.name)
    ensures forall k :: j <= k < i ==> Text.Less(x.dep.name, old(a[k]).dep.name)
  {
    j := i;
    while j > 0 && Text.Less(x.dep.name, a[j - 1].dep.name)
      invariant j <= i
      invariant forall k :: 0 <= k < j ==> a[k] == old(a[k])
      invariant forall k :: j < k <= i ==> a[k] == old(a[k - 1])
      invariant forall k :: i < k < a.Length ==> a[k] == old(a[k])
      invariant forall k :: j <= k < i ==> Text.Less(x.dep.name, old(a[k]).dep.name)
    {
      a[j] := a[j - 1];
      j := j - 1;
    }
  }

  /** One step of the sort: moves `a[i]` left past the greater names before it. */
  method InsertStep(a: array<Entry>, i: nat)
    requires i < a.Length
    modifies a
    ensures a[..i + 1] == Insert(old(a[..i]), old(a[i]))
    ensures a[i + 1..] == old(a[i + 1..])
  {
    var x := a[i];
    ghost var s := a[..i];
    ghost var rest := a[i + 1..];
    var j := ShiftGreater(a, i, x);
    InsertAt(s, x, j);
    a[j] := x;
    assert a[..i + 1] == s[..j] + [x] + s[j..];
    assert a[i + 1..] == rest;
  }

  /** `sort_by` on the array, done as an in-place insertion sort. */
  method SortByName(a: array<Entry>)
    modifies a
    ensures a[..] == InsertionSort(old(a[..]))
  {
    ghost var input := a[..];
    var i := 0;
    while i < a.Length
      invariant 0 <= i <= a.Length
      invariant a[..i] == InsertionSort(input[..i])
      invariant a[i..] == input[i..]
    {
      ghost var before := a[..];
      InsertStep(a, i);
      assert before[i + 1..] == before[i..][1..] == input[i..][1..] == input[i + 1..];
      assert input[..i + 1][..i] == input[..i];
      i := i + 1;
    }
    assert input[..a.Length] == input;
  }
}
