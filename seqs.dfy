/** Generic sequence combinators: a list flattened from per-element pieces
    (what a loop that appends 0 or more items per element builds), and a
    filter (what a list comprehension with a condition builds). */
module Seqs {

  /** The pieces `f(x)` of the elements x of xs, concatenated in order. */
  function FlatMap<T, U>(f: T -> seq<U>, xs: seq<T>): seq<U> {
    if |xs| == 0 then [] else FlatMap(f, xs[..|xs| - 1]) + f(xs[|xs| - 1])
  }

  /** The pieces of a concatenation are the pieces of its parts. */
  lemma {:induction false} FlatMapAppend<T, U>(f: T -> seq<U>, a: seq<T>, b: seq<T>)
    ensures FlatMap(f, a + b) == FlatMap(f, a) + FlatMap(f, b)
    decreases |b|
  {
    if |b| == 0 {
      assert a + b == a;
    } else {
      var n := |b| - 1;
      assert (a + b)[..|a + b| - 1] == a + b[..n];
      FlatMapAppend(f, a, b[..n]);
    }
  }

  /** The elements of xs that satisfy p, in order. */
  function Filter<T>(p: T -> bool, xs: seq<T>): (r: seq<T>)
    ensures |r| <= |xs|
  {
    if |xs| == 0 then []
    else Filter(p, xs[..|xs| - 1]) + (if p(xs[|xs| - 1]) then [xs[|xs| - 1]] else [])
  }

  lemma {:induction false} FilterAppend<T>(p: T -> bool, a: seq<T>, b: seq<T>)
    ensures Filter(p, a + b) == Filter(p, a) + Filter(p, b)
    decreases |b|
  {
    if |b| == 0 {
      assert a + b == a;
    } else {
      var n := |b| - 1;
      assert (a + b)[..|a + b| - 1] == a + b[..n];
      FilterAppend(p, a, b[..n]);
    }
  }

  /** The filter keeps every copy of the elements that satisfy p and no
      copy of the others. */
  lemma {:induction false} FilterCounts<T>(p: T -> bool, xs: seq<T>, x: T)
    ensures multiset(Filter(p, xs))[x] == if p(x) then multiset(xs)[x] else 0
    decreases |xs|
  {
    if |xs| > 0 {
      var n := |xs| - 1;
      assert xs == xs[..n] + [xs[n]];
      FilterCounts(p, xs[..n], x);
    }
  }

  /** x is kept exactly when it is an element of xs that satisfies p. */
  lemma FilterMembers<T>(p: T -> bool, xs: seq<T>, x: T)
    ensures x in Filter(p, xs) <==> x in xs && p(x)
  {
    FilterCounts(p, xs, x);
  }

  /** R holds of every pair of elements in the order they appear. */
  predicate Pairwise<T>(R: (T, T) -> bool, xs: seq<T>) {
    forall i, j :: 0 <= i < j < |xs| ==> R(xs[i], xs[j])
  }

  /** Filtering keeps what is left in its order. */
  lemma {:induction false} FilterPairwise<T>(R: (T, T) -> bool, p: T -> bool, xs: seq<T>)
    requires Pairwise(R, xs)
    ensures Pairwise(R, Filter(p, xs))
    decreases |xs|
  {
    if |xs| > 0 {
      var n := |xs| - 1;
      var init := xs[..n];
      assert forall i :: 0 <= i < n ==> init[i] == xs[i];
      FilterPairwise(R, p, init);
      var f := Filter(p, init);
      if p(xs[n]) {
        forall k | 0 <= k < |f|
          ensures R(f[k], xs[n])
        {
          FilterMembers(p, init, f[k]);
          var i :| 0 <= i < n && init[i] == f[k];
        }
      }
    }
  }

  /** Two ordered lists, each element of the first before each of the
      second, make an ordered concatenation. */
  lemma PairwiseAppend<T>(R: (T, T) -> bool, a: seq<T>, b: seq<T>)
    requires Pairwise(R, a) && Pairwise(R, b)
    requires forall i, j :: 0 <= i < |a| && 0 <= j < |b| ==> R(a[i], b[j])
    ensures Pairwise(R, a + b)
  {
    forall i, j | 0 <= i < j < |a + b|
      ensures R((a + b)[i], (a + b)[j])
    {
      if j < |a| {
        assert (a + b)[i] == a[i] && (a + b)[j] == a[j];
      } else if i < |a| {
        assert (a + b)[i] == a[i] && (a + b)[j] == b[j - |a|];
      } else {
        assert (a + b)[i] == b[i - |a|] && (a + b)[j] == b[j - |a|];
      }
    }
  }
}
