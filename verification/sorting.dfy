/** The insertion sort that the snapshots, the coverage table and the set hash
    share, and what it guarantees. */
module Sorting {
  import opened Seqs

  /** `v` goes behind the last element it does not come before. */
  function Insert<T>(s: seq<T>, v: T, before: (T, T) -> bool): (r: seq<T>)
    ensures |r| == |s| + 1
  {
    if s == [] || !before(v, s[|s| - 1]) then s + [v]
    else Insert(s[..|s| - 1], v, before) + [s[|s| - 1]]
  }

  function Sort<T>(s: seq<T>, before: (T, T) -> bool): (r: seq<T>)
    ensures |r| == |s|
  {
    if s == [] then [] else Insert(Sort(s[..|s| - 1], before), s[|s| - 1], before)
  }

  /** Strict weak order: ties are allowed, and tying is transitive. */
  ghost predicate StrictWeak<T(!new)>(before: (T, T) -> bool) {
    && (forall a, b :: before(a, b) ==> !before(b, a))
    && (forall a, b, c :: !before(a, b) && !before(b, c) ==> !before(a, c))
  }

  ghost predicate Trichotomous<T(!new)>(before: (T, T) -> bool) {
    forall a, b :: !before(a, b) && !before(b, a) ==> a == b
  }

  ghost predicate Sorted<T>(s: seq<T>, before: (T, T) -> bool) {
    forall i, j :: 0 <= i < j < |s| ==> !before(s[j], s[i])
  }

  lemma {:induction false} InsertMultiset<T>(s: seq<T>, v: T, before: (T, T) -> bool)
    ensures multiset(Insert(s, v, before)) == multiset(s) + multiset{v}
  {
    if s != [] && before(v, s[|s| - 1]) {
      InsertMultiset(s[..|s| - 1], v, before);
      assert s == s[..|s| - 1] + [s[|s| - 1]];
    }
  }

  lemma {:induction false} SortMultiset<T>(s: seq<T>, before: (T, T) -> bool)
    ensures multiset(Sort(s, before)) == multiset(s)
  {
    if s == [] {
    } else {
      SortMultiset(s[..|s| - 1], before);
      InsertMultiset(Sort(s[..|s| - 1], before), s[|s| - 1], before);
      assert s == s[..|s| - 1] + [s[|s| - 1]];
    }
  }

  lemma {:induction false} InsertSorted<T(!new)>(s: seq<T>, v: T, before: (T, T) -> bool)
    requires StrictWeak(before) && Sorted(s, before)
    ensures Sorted(Insert(s, v, before), before)
  {
    if s == [] {
    } else {
      var (f, x) := (s[..|s| - 1], s[|s| - 1]);
      if before(v, x) {
        InsertSorted(f, v, before);
        InsertMultiset(f, v, before);
        var r := Insert(f, v, before);
        forall i | 0 <= i < |r| ensures !before(x, r[i]) {
          assert r[i] in multiset(r);
          assert r[i] == v || r[i] in f;
        }
      }
    }
  }

  lemma {:induction false} SortSorted<T(!new)>(s: seq<T>, before: (T, T) -> bool)
    requires StrictWeak(before)
    ensures Sorted(Sort(s, before), before)
  {
    if s == [] {
    } else {
      SortSorted(s[..|s| - 1], before);
      InsertSorted(Sort(s[..|s| - 1], before), s[|s| - 1], before);
    }
  }

  lemma {:induction false} InsertStable<T>(s: seq<T>, v: T, before: (T, T) -> bool, p: T -> bool)
    requires p(v) ==> forall x :: x in s && p(x) ==> !before(v, x)
    ensures Filter(Insert(s, v, before), p) == Filter(s, p) + (if p(v) then [v] else [])
  {
    if s == [] || !before(v, s[|s| - 1]) {
      FilterPush(s, v, p);
    } else {
      var (f, x) := (s[..|s| - 1], s[|s| - 1]);
      InsertStable(f, v, before, p);
      FilterPush(Insert(f, v, before), x, p);
    }
  }

  /** Elements that tie keep their relative order. */
  lemma {:induction false} SortStable<T>(s: seq<T>, before: (T, T) -> bool, p: T -> bool)
    requires forall x, y :: x in s && y in s && p(x) && p(y) ==> !before(x, y)
    ensures Filter(Sort(s, before), p) == Filter(s, p)
  {
    if s == [] {
    } else {
      var (f, x) := (s[..|s| - 1], s[|s| - 1]);
      SortStable(f, before, p);
      SortMultiset(f, before);
      forall y | y in Sort(f, before) ensures y in f {
        assert y in multiset(Sort(f, before));
      }
      InsertStable(Sort(f, before), x, before, p);
    }
  }

  lemma SameSize<T>(x: seq<T>, y: seq<T>)
    requires multiset(x) == multiset(y)
    ensures |x| == |y|
  {
    assert |x| == |multiset(x)| == |multiset(y)| == |y|;
  }

  lemma TailMultiset<T>(x: seq<T>)
    requires x != []
    ensures x == [x[0]] + x[1..] && multiset(x[1..]) == multiset(x) - multiset{x[0]}
  {
    assert x == [x[0]] + x[1..];
  }

  lemma HeadsTie<T(!new)>(x: seq<T>, y: seq<T>, before: (T, T) -> bool)
    requires Trichotomous(before) && Sorted(x, before) && Sorted(y, before)
    requires forall a :: !before(a, a)
    requires multiset(x) == multiset(y) && x != [] && y != []
    ensures x[0] == y[0]
  {
    assert x[0] in multiset(y) && y[0] in multiset(x);
    var j :| 0 <= j < |y| && y[j] == x[0];
    var i :| 0 <= i < |x| && x[i] == y[0];
  }

  /** A multiset has one sorted arrangement. */
  lemma {:induction false} SortedUnique<T(!new)>(x: seq<T>, y: seq<T>, before: (T, T) -> bool)
    requires Trichotomous(before) && Sorted(x, before) && Sorted(y, before)
    requires forall a :: !before(a, a)
    requires multiset(x) == multiset(y)
    ensures x == y
  {
    SameSize(x, y);
    if x == [] {
    } else {
      HeadsTie(x, y, before);
      TailMultiset(x);
      TailMultiset(y);
      SortedUnique(x[1..], y[1..], before);
    }
  }

  /** The arrangement does not depend on the order the elements came in. */
  lemma SortCanonical<T(!new)>(s: seq<T>, t: seq<T>, before: (T, T) -> bool)
    requires StrictWeak(before) && Trichotomous(before)
    requires multiset(s) == multiset(t)
    ensures Sort(s, before) == Sort(t, before)
  {
    SortSorted(s, before);
    SortSorted(t, before);
    SortMultiset(s, before);
    SortMultiset(t, before);
    SortedUnique(Sort(s, before), Sort(t, before), before);
  }

  lemma {:induction false} InsertMap<T(!new), U>(s: seq<T>, v: T, f: T -> U, before: (T, T) -> bool, img: (U, U) -> bool)
    requires forall a, b :: before(a, b) == img(f(a), f(b))
    ensures Map(Insert(s, v, before), f) == Insert(Map(s, f), f(v), img)
  {
    if s == [] {
    } else {
      assert Map(s, f)[..|s| - 1] == Map(s[..|s| - 1], f);
      if before(v, s[|s| - 1]) {
        InsertMap(s[..|s| - 1], v, f, before, img);
      }
    }
  }

  /** Sorting sees only what the comparison sees. */
  lemma {:induction false} SortMap<T(!new), U>(s: seq<T>, f: T -> U, before: (T, T) -> bool, img: (U, U) -> bool)
    requires forall a, b :: before(a, b) == img(f(a), f(b))
    ensures Map(Sort(s, before), f) == Sort(Map(s, f), img)
  {
    if s == [] {
    } else {
      assert Map(s, f)[..|s| - 1] == Map(s[..|s| - 1], f);
      SortMap(s[..|s| - 1], f, before, img);
      InsertMap(Sort(s[..|s| - 1], before), s[|s| - 1], f, before, img);
    }
  }

  /** Shifts the elements of a[..i] that `v` goes before up by one, over a[i]. */
  method ShiftUp<T>(a: array<T>, i: nat, v: T, before: (T, T) -> bool) returns (gap: nat)
    requires i < a.Length
    modifies a
    ensures gap <= i
    ensures gap == 0 || !before(v, old(a[gap - 1]))
    ensures forall k :: gap <= k < i ==> before(v, old(a[k]))
    ensures forall k {:trigger a[k]} :: gap < k <= i ==> a[k] == old(a[k - 1])
    ensures forall k {:trigger a[k]} :: (0 <= k < gap || i < k < a.Length) ==> a[k] == old(a[k])
  {
    var j := i - 1;
    while j >= 0 && before(v, a[j])
      invariant -1 <= j < i
      invariant forall k :: j < k < i ==> before(v, old(a[k]))
      invariant forall k {:trigger a[k]} :: j + 1 < k <= i ==> a[k] == old(a[k - 1])
      invariant forall k {:trigger a[k]} :: (0 <= k <= j || i < k < a.Length) ==> a[k] == old(a[k])
    {
      a[j + 1] := a[j];
      j := j - 1;
    }
    gap := j + 1;
  }

  lemma {:induction false} InsertGap<T>(s: seq<T>, v: T, before: (T, T) -> bool, gap: nat)
    requires gap <= |s| && (gap == 0 || !before(v, s[gap - 1]))
    requires forall k :: gap <= k < |s| ==> before(v, s[k])
    ensures Insert(s, v, before) == s[..gap] + [v] + s[gap..]
  {
    if gap == |s| {
      assert s[..gap] == s;
    } else {
      var f := s[..|s| - 1];
      InsertGap(f, v, before, gap);
      assert f[..gap] == s[..gap] && s[gap..] == f[gap..] + [s[|s| - 1]];
    }
  }

  /** One round: a[i] is lifted out and dropped into the gap the shift leaves. */
  method InsertAt<T>(a: array<T>, i: nat, before: (T, T) -> bool, ghost done: seq<T>)
    requires i < a.Length && |done| == i
    requires forall k :: 0 <= k < i ==> a[k] == done[k]
    modifies a
    ensures forall k :: 0 <= k <= i ==> a[k] == Insert(done, old(a[i]), before)[k]
    ensures forall k :: i < k < a.Length ==> a[k] == old(a[k])
  {
    hide Insert;
    var v := a[i];
    var gap := ShiftUp(a, i, v, before);
    a[gap] := v;
    InsertGap(done, v, before, gap);
  }

  lemma SortNext<T>(s: seq<T>, i: nat, before: (T, T) -> bool)
    requires i < |s|
    ensures Sort(s[..i + 1], before) == Insert(Sort(s[..i], before), s[i], before)
  {
    assert s[..i + 1][..i] == s[..i];
  }

  lemma SortFew<T>(s: seq<T>, before: (T, T) -> bool)
    requires |s| <= 1
    ensures Sort(s, before) == s
  {
    if |s| == 1 { assert s[..0] == []; }
  }

  /** The shifting sort that appears four times in the sources. */
  method InsertionSort<T>(a: array<T>, n: nat, before: (T, T) -> bool)
    requires n <= a.Length
    modifies a
    ensures a[..n] == Sort(old(a[..n]), before)
    ensures forall k :: n <= k < a.Length ==> a[k] == old(a[k])
  {
    hide Sort, Insert;
    ghost var was := a[..];
    var i := 1;
    SortFew(was[..0], before);
    if n > 0 { SortFew(was[..1], before); }
    while i < n
      invariant 1 <= i && (n > 0 ==> i <= n)
      invariant forall k :: 0 <= k < Min(i, n) ==> a[k] == Sort(was[..Min(i, n)], before)[k]
      invariant forall k :: Min(i, n) <= k < a.Length ==> a[k] == was[k]
    {
      InsertAt(a, i, before, Sort(was[..i], before));
      SortNext(was, i, before);
      i := i + 1;
    }
    assert was[..n] == old(a[..n]);
  }
}
