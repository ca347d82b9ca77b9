/** Sequences, filters and suffixes: the vocabulary in which every bounded
    structure of the project is compared with the unbounded log it stands for. */
module Seqs {

  function Min(a: int, b: int): int { if a < b then a else b }

  /** The newest `n` elements of `s`. */
  function Last<T>(s: seq<T>, n: nat): seq<T> { if |s| <= n then s else s[|s| - n..] }

  function Filter<T>(s: seq<T>, p: T -> bool): (r: seq<T>)
    ensures |r| <= |s|
  {
    if s == [] then []
    else Filter(s[..|s| - 1], p) + (if p(s[|s| - 1]) then [s[|s| - 1]] else [])
  }

  function Count<T>(s: seq<T>, p: T -> bool): nat { |Filter(s, p)| }

  function Map<T, U>(s: seq<T>, f: T -> U): (r: seq<U>)
    ensures |r| == |s|
  {
    seq(|s|, i requires 0 <= i < |s| => f(s[i]))
  }

  function Reverse<T>(s: seq<T>): (r: seq<T>)
    ensures |r| == |s|
    ensures forall i :: 0 <= i < |s| ==> r[i] == s[|s| - 1 - i]
  {
    seq(|s|, i requires 0 <= i < |s| => s[|s| - 1 - i])
  }

  /** Once `p` holds of an element it holds of every later one. */
  ghost predicate Rises<T>(s: seq<T>, p: T -> bool) {
    forall i, j :: 0 <= i < j < |s| && p(s[i]) ==> p(s[j])
  }

  lemma {:induction false} FilterConcat<T>(a: seq<T>, b: seq<T>, p: T -> bool)
    ensures Filter(a + b, p) == Filter(a, p) + Filter(b, p)
  {
    if b == [] {
      assert a + b == a;
    } else {
      FilterConcat(a, b[..|b| - 1], p);
      assert (a + b)[..|a + b| - 1] == a + b[..|b| - 1];
    }
  }

  lemma FilterPush<T>(s: seq<T>, x: T, p: T -> bool)
    ensures Filter(s + [x], p) == Filter(s, p) + (if p(x) then [x] else [])
  {
    assert (s + [x])[..|s|] == s;
  }

  /** Widening a prefix by one element. */
  lemma FilterNext<T>(s: seq<T>, i: nat, p: T -> bool)
    requires i < |s|
    ensures Filter(s[..i + 1], p) == Filter(s[..i], p) + (if p(s[i]) then [s[i]] else [])
  {
    assert s[..i + 1] == s[..i] + [s[i]];
    FilterPush(s[..i], s[i], p);
  }

  lemma {:induction false} FilterNone<T>(s: seq<T>, p: T -> bool)
    requires forall i :: 0 <= i < |s| ==> !p(s[i])
    ensures Filter(s, p) == []
  {
    if s == [] {
    } else {
      FilterNone(s[..|s| - 1], p);
    }
  }

  lemma {:induction false} FilterAll<T>(s: seq<T>, p: T -> bool)
    requires forall i :: 0 <= i < |s| ==> p(s[i])
    ensures Filter(s, p) == s
  {
    if s == [] {
    } else {
      FilterAll(s[..|s| - 1], p);
    }
  }

  lemma {:induction false} FilterMember<T>(s: seq<T>, p: T -> bool, x: T)
    ensures x in Filter(s, p) <==> x in s && p(x)
  {
    if s == [] {
    } else {
      FilterMember(s[..|s| - 1], p, x);
      assert s == s[..|s| - 1] + [s[|s| - 1]];
    }
  }

  /** Filtering twice is filtering by the conjunction. */
  lemma {:induction false} FilterTwice<T>(s: seq<T>, p: T -> bool, q: T -> bool, both: T -> bool)
    requires forall i :: 0 <= i < |s| ==> both(s[i]) == (p(s[i]) && q(s[i]))
    ensures Filter(Filter(s, p), q) == Filter(s, both)
  {
    if s == [] {
    } else {
      var (f, x) := (s[..|s| - 1], s[|s| - 1]);
      FilterTwice(f, p, q, both);
      if p(x) {
        FilterPush(Filter(f, p), x, q);
      } else {
        assert Filter(s, p) == Filter(f, p);
      }
    }
  }

  lemma {:induction false} FilterMap<T, U>(s: seq<T>, f: T -> U, p: U -> bool, q: T -> bool)
    requires forall i :: 0 <= i < |s| ==> p(f(s[i])) == q(s[i])
    ensures Filter(Map(s, f), p) == Map(Filter(s, q), f)
  {
    if s == [] {
    } else {
      FilterMap(s[..|s| - 1], f, p, q);
      assert Map(s, f)[..|s| - 1] == Map(s[..|s| - 1], f);
    }
  }

  lemma LastSplit<T>(s: seq<T>, n: nat) returns (older: seq<T>)
    ensures s == older + Last(s, n)
    ensures |s| <= n ==> older == []
    ensures |s| > n ==> |Last(s, n)| == n && |older| == |s| - n
  {
    older := s[..|s| - |Last(s, n)|];
  }

  /** Losing the oldest elements never adds a match. */
  lemma LastCountsLess<T>(s: seq<T>, n: nat, p: T -> bool)
    ensures Count(Last(s, n), p) <= Count(s, p)
  {
    var older := LastSplit(s, n);
    FilterConcat(older, Last(s, n), p);
  }

  /** For a property that, once true, stays true down the log, keeping the
      newest n elements and selecting commute. */
  lemma LastRising<T>(s: seq<T>, n: nat, p: T -> bool)
    requires Rises(s, p)
    ensures Filter(Last(s, n), p) == Last(Filter(s, p), n)
  {
    var older := LastSplit(s, n);
    var l := Last(s, n);
    FilterConcat(older, l, p);
    if i :| 0 <= i < |older| && p(older[i]) {
      assert p(s[i]);
      forall j | 0 <= j < |l| ensures p(l[j]) {
        assert l[j] == s[|older| + j];
      }
      FilterAll(l, p);
    } else {
      FilterNone(older, p);
    }
  }

  /** When at most n elements satisfy a rising property, the newest n elements
      answer every narrower question exactly. */
  lemma LastCovers<T>(s: seq<T>, n: nat, win: T -> bool, p: T -> bool)
    requires Rises(s, win) && Count(s, win) <= n
    requires forall i :: 0 <= i < |s| && p(s[i]) ==> win(s[i])
    ensures Filter(Last(s, n), p) == Filter(s, p)
  {
    var older := LastSplit(s, n);
    var l := Last(s, n);
    FilterConcat(older, l, p);
    FilterConcat(older, l, win);
    if i :| 0 <= i < |older| && win(older[i]) {
      assert win(s[i]);
      forall j | 0 <= j < |l| ensures win(l[j]) {
        assert l[j] == s[|older| + j];
      }
      FilterAll(l, win);
      FilterMember(older, win, older[i]);
      assert false;
    }
    forall i | 0 <= i < |older| ensures !p(older[i]) {
      assert older[i] == s[i];
    }
    FilterNone(older, p);
  }
}
