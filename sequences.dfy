/** Order-preserving filtering of sequences, shared by the blacklist lookup
    (terms that occur in a text) and the pattern filter (characters a profile
    admits). */
module Sequences {

  /** a is b with some elements left out: the last element of b is either
      matched with the last element of a or dropped. */
  ghost predicate IsSubsequence<T>(a: seq<T>, b: seq<T>)
    decreases |b|
  {
    a == [] ||
    (b != [] &&
     ((a[|a| - 1] == b[|b| - 1] && IsSubsequence(a[..|a| - 1], b[..|b| - 1])) ||
      IsSubsequence(a, b[..|b| - 1])))
  }

  /** The elements of s that satisfy keep, in their order in s. */
  function Filter<T>(s: seq<T>, keep: T -> bool): seq<T>
    decreases |s|
  {
    if s == [] then []
    else
      var last := s[|s| - 1];
      Filter(s[..|s| - 1], keep) + (if keep(last) then [last] else [])
  }

  /** Filtering keeps the order: the result is a subsequence. */
  lemma {:induction false} FilterOrdered<T>(s: seq<T>, keep: T -> bool)
    ensures IsSubsequence(Filter(s, keep), s)
    decreases |s|
  {
    if s != [] {
      var init, last := s[..|s| - 1], s[|s| - 1];
      FilterOrdered(init, keep);
      var f := Filter(s, keep);
      if keep(last) {
        assert f == Filter(init, keep) + [last];
        assert f[..|f| - 1] == Filter(init, keep);
      } else {
        assert f == Filter(init, keep);
      }
    }
  }

  /** Every element of the result satisfies keep. */
  lemma {:induction false} FilterKept<T>(s: seq<T>, keep: T -> bool)
    ensures forall i :: 0 <= i < |Filter(s, keep)| ==> keep(Filter(s, keep)[i])
    decreases |s|
  {
    if s != [] {
      FilterKept(s[..|s| - 1], keep);
    }
  }

  /** An element that satisfies keep appears in the result as often as in s, and
      any other element not at all. */
  lemma {:induction false} FilterCounts<T>(s: seq<T>, keep: T -> bool)
    ensures forall x :: multiset(Filter(s, keep))[x] == if keep(x) then multiset(s)[x] else 0
    decreases |s|
  {
    if s != [] {
      var init, last := s[..|s| - 1], s[|s| - 1];
      assert s == init + [last];
      FilterCounts(init, keep);
    }
  }

  /** The result is non-empty exactly when some element satisfies keep. */
  lemma {:induction false} FilterNonEmpty<T>(s: seq<T>, keep: T -> bool)
    ensures Filter(s, keep) != [] <==> exists i :: 0 <= i < |s| && keep(s[i])
    decreases |s|
  {
    if s != [] {
      var init := s[..|s| - 1];
      FilterNonEmpty(init, keep);
      if exists i :: 0 <= i < |s| && keep(s[i]) {
        var i :| 0 <= i < |s| && keep(s[i]);
        if i < |init| {
          assert init[i] == s[i];
        }
      }
      if exists i :: 0 <= i < |init| && keep(init[i]) {
        var i :| 0 <= i < |init| && keep(init[i]);
        assert s[i] == init[i];
      }
    }
  }

  /** When every element satisfies keep, nothing is removed. */
  lemma {:induction false} FilterAllKept<T>(s: seq<T>, keep: T -> bool)
    requires forall i :: 0 <= i < |s| ==> keep(s[i])
    ensures Filter(s, keep) == s
    decreases |s|
  {
    if s != [] {
      FilterAllKept(s[..|s| - 1], keep);
    }
  }

  /** Filtering a concatenation filters each part. */
  lemma {:induction false} FilterAppend<T>(a: seq<T>, b: seq<T>, keep: T -> bool)
    ensures Filter(a + b, keep) == Filter(a, keep) + Filter(b, keep)
    decreases |b|
  {
    if b != [] {
      assert (a + b)[..|a + b| - 1] == a + b[..|b| - 1];
      FilterAppend(a, b[..|b| - 1], keep);
    } else {
      assert a + b == a;
    }
  }
}
