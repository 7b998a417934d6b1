/** Order-preserving filtering and de-duplication of sequences, the two
    array operations (`Array.prototype.filter`, `Array.from(new Set(..))`)
    the pages use. */
module Sequences {

  /** The elements of `xs` that satisfy `p`, in their original order. */
  function Keep<T>(xs: seq<T>, p: T -> bool): (r: seq<T>)
    ensures |r| <= |xs|
    ensures forall x :: x in r ==> x in xs && p(x)
    ensures forall x :: x in xs && p(x) ==> x in r
  {
    if |xs| == 0 then []
    else if p(xs[0]) then [xs[0]] + Keep(xs[1..], p)
    else Keep(xs[1..], p)
  }

  /** `xs` can be obtained from `ys` by deleting elements. */
  ghost predicate IsSubsequence<T>(xs: seq<T>, ys: seq<T>)
    decreases |ys|
  {
    |xs| == 0 ||
    (|ys| != 0 &&
     ((xs[0] == ys[0] && IsSubsequence(xs[1..], ys[1..])) || IsSubsequence(xs, ys[1..])))
  }

  predicate NoDuplicates<T(==)>(xs: seq<T>)
  {
    forall i, j :: 0 <= i < j < |xs| ==> xs[i] != xs[j]
  }

  /** Filtering keeps the survivors in the order they had. */
  lemma {:induction false} KeepIsSubsequence<T>(xs: seq<T>, p: T -> bool)
    ensures IsSubsequence(Keep(xs, p), xs)
  {
    if |xs| != 0 {
      KeepIsSubsequence(xs[1..], p);
      if p(xs[0]) {
        assert Keep(xs, p)[0] == xs[0];
        assert Keep(xs, p)[1..] == Keep(xs[1..], p);
      }
    }
  }

  /** Filtering keeps every surviving element as often as it occurred. */
  lemma {:induction false} KeepCount<T>(xs: seq<T>, p: T -> bool)
    ensures forall x :: multiset(Keep(xs, p))[x] == if p(x) then multiset(xs)[x] else 0
  {
    if |xs| != 0 {
      KeepCount(xs[1..], p);
      assert xs == [xs[0]] + xs[1..];
    }
  }

  /** Filtering by a predicate and by its negation splits a sequence in two. */
  lemma {:induction false} KeepSplits<T>(xs: seq<T>, p: T -> bool, q: T -> bool)
    requires forall x :: q(x) == !p(x)
    ensures multiset(Keep(xs, p)) + multiset(Keep(xs, q)) == multiset(xs)
    ensures |Keep(xs, p)| + |Keep(xs, q)| == |xs|
  {
    if |xs| != 0 {
      KeepSplits(xs[1..], p, q);
      assert xs == [xs[0]] + xs[1..];
    }
  }

  /** The distinct elements of `xs`, each at its first occurrence. */
  function Unique<T(==)>(xs: seq<T>): (r: seq<T>)
    ensures NoDuplicates(r)
    ensures forall x :: x in r ==> x in xs
    ensures forall x :: x in xs ==> x in r
    decreases |xs|
  {
    if |xs| == 0 then []
    else
      var x := xs[0];
      var rest := Unique(Keep(xs[1..], y => y != x));
      assert forall j :: 0 <= j < |rest| ==> rest[j] in Keep(xs[1..], y => y != x);
      [x] + rest
  }
}
