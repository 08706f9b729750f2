/** The pieces shared by the two content grids of the page (case studies and
    blog posts): `Array.prototype.filter`, `slice(0, n)`, and the rendered
    grid, which is either the "nothing found" placeholder or a run of cards. */
module Listing {

  /** `a` is obtained from `b` by deleting elements: the items of `a` occur
      in `b` in the same order. */
  predicate IsSubsequence<T(==)>(a: seq<T>, b: seq<T>)
    decreases |b|
  {
    if |b| == 0 then |a| == 0
    else (|a| > 0 && a[0] == b[0] && IsSubsequence(a[1..], b[1..]))
         || IsSubsequence(a, b[1..])
  }

  /** `xs.filter(p)`: the elements that satisfy `p`, in their original order. */
  function Filter<T(==)>(p: T -> bool, xs: seq<T>): (r: seq<T>)
    ensures |r| <= |xs|
    ensures forall k | 0 <= k < |r| :: r[k] in xs && p(r[k])
    ensures forall k | 0 <= k < |xs| :: p(xs[k]) ==> xs[k] in r
    ensures IsSubsequence(r, xs)
  {
    if |xs| == 0 then []
    else
      var rest := Filter(p, xs[1..]);
      assert xs == [xs[0]] + xs[1..];
      if p(xs[0]) then
        var r := [xs[0]] + rest;
        assert r[1..] == rest;
        r
      else rest
  }

  /** One step of the filter: the head is kept exactly when it passes. */
  lemma FilterCons<T>(p: T -> bool, xs: seq<T>)
    requires |xs| > 0
    ensures Filter(p, xs) == (if p(xs[0]) then [xs[0]] else []) + Filter(p, xs[1..])
  {
  }

  /** The filter keeps every copy of a passing element and no copy of any
      other: with `IsSubsequence`, this fixes the result completely. */
  lemma {:induction false} FilterKeepsEveryCopy<T>(p: T -> bool, xs: seq<T>)
    ensures forall x | x in multiset(xs) ::
      multiset(Filter(p, xs))[x] == if p(x) then multiset(xs)[x] else 0
    decreases |xs|
  {
    if |xs| > 0 {
      var tail := xs[1..];
      var rest := Filter(p, tail);
      FilterCons(p, xs);
      FilterKeepsEveryCopy(p, tail);
      assert xs == [xs[0]] + tail;
      forall x | x in multiset(xs)
        ensures multiset(Filter(p, xs))[x] == if p(x) then multiset(xs)[x] else 0
      {
        if x !in multiset(tail) {
          assert x !in rest;
        }
      }
    }
  }

  /** Filtering distributes over concatenation, so the relative order of the
      source list is kept. */
  lemma {:induction false} FilterAppend<T>(p: T -> bool, a: seq<T>, b: seq<T>)
    ensures Filter(p, a + b) == Filter(p, a) + Filter(p, b)
    decreases |a|
  {
    if |a| == 0 {
      assert a + b == b;
    } else {
      assert (a + b)[1..] == a[1..] + b;
      FilterAppend(p, a[1..], b);
    }
  }

  /** When every element passes, the filter returns the whole list. */
  lemma {:induction false} FilterAll<T>(p: T -> bool, xs: seq<T>)
    requires forall k | 0 <= k < |xs| :: p(xs[k])
    ensures Filter(p, xs) == xs
    decreases |xs|
  {
    if |xs| > 0 {
      FilterAll(p, xs[1..]);
    }
  }

  /** When no element passes, the filter returns nothing. */
  lemma {:induction false} FilterNone<T>(p: T -> bool, xs: seq<T>)
    requires forall k | 0 <= k < |xs| :: !p(xs[k])
    ensures Filter(p, xs) == []
    decreases |xs|
  {
    if |xs| > 0 {
      FilterNone(p, xs[1..]);
    }
  }

  /** `xs.slice(0, n)` for a non-negative `n`: the first `n` elements, or all
      of them when there are fewer. */
  function Take<T>(xs: seq<T>, n: nat): (r: seq<T>)
    ensures |r| == if n < |xs| then n else |xs|
    ensures r <= xs
  {
    if n < |xs| then xs[..n] else xs
  }

  /** Taking more never loses what a smaller prefix had. */
  lemma TakeMonotone<T>(xs: seq<T>, m: nat, n: nat)
    requires m <= n
    ensures Take(xs, m) <= Take(xs, n)
  {
  }

  /** The filter value both grids treat as "every category". */
  const All: string := "all"

  /** A rendered grid: the single placeholder paragraph, or one card per item. */
  datatype Grid<T> = NoResults | Cards(items: seq<T>)

  /** The grid a render writes for `items`: the placeholder exactly when there
      is nothing to show. */
  function Show<T>(items: seq<T>): (g: Grid<T>)
    ensures g.NoResults? <==> |items| == 0
    ensures g.Cards? ==> g.items == items && |g.items| > 0
  {
    if |items| == 0 then NoResults else Cards(items)
  }
}
