/** Sequence combinators behind JavaScript's `Array.prototype.filter`. */
module Seqs {

  /** `xs.filter(p)`: the elements of xs satisfying p, in their original order. */
  function Filter<T(!new)>(xs: seq<T>, p: T -> bool): (r: seq<T>)
    ensures |r| <= |xs|
    ensures forall x :: x in r <==> x in xs && p(x)
  {
    if xs == [] then []
    else if p(xs[0]) then [xs[0]] + Filter(xs[1..], p)
    else Filter(xs[1..], p)
  }

  /** sub can be obtained from s by deleting some elements. */
  predicate IsSubsequence<T(==)>(sub: seq<T>, s: seq<T>)
  {
    if sub == [] then true
    else if s == [] then false
    else if sub[0] == s[0] then IsSubsequence(sub[1..], s[1..])
    else IsSubsequence(sub, s[1..])
  }

  /** Filtering distributes over concatenation: the order of xs is kept. */
  lemma {:induction false} FilterAppend<T(!new)>(xs: seq<T>, ys: seq<T>, p: T -> bool)
    ensures Filter(xs + ys, p) == Filter(xs, p) + Filter(ys, p)
  {
    if xs == [] {
      assert xs + ys == ys;
    } else {
      assert (xs + ys)[1..] == xs[1..] + ys;
      FilterAppend(xs[1..], ys, p);
    }
  }

  /** The filtered sequence is a subsequence of the input. */
  lemma {:induction false} FilterIsSubsequence<T(!new)>(xs: seq<T>, p: T -> bool)
    ensures IsSubsequence(Filter(xs, p), xs)
  {
    if xs != [] {
      FilterIsSubsequence(xs[1..], p);
      if !p(xs[0]) {
        SubsequenceOfCons(Filter(xs[1..], p), xs[0], xs[1..]);
        assert xs == [xs[0]] + xs[1..];
      }
    }
  }

  /** Putting an element in front keeps a subsequence a subsequence. */
  lemma {:induction false} SubsequenceOfCons<T>(sub: seq<T>, a: T, t: seq<T>)
    requires IsSubsequence(sub, t)
    ensures IsSubsequence(sub, [a] + t)
    decreases |t|, 1
  {
    assert ([a] + t)[1..] == t;
    if sub != [] && sub[0] == a {
      SubsequenceOfTail(sub, t);
    }
  }

  lemma {:induction false} SubsequenceOfTail<T>(sub: seq<T>, t: seq<T>)
    requires sub != [] && IsSubsequence(sub, t)
    ensures IsSubsequence(sub[1..], t)
    decreases |t|, 0
  {
    assert t == [t[0]] + t[1..];
    if sub[0] == t[0] {
      SubsequenceOfCons(sub[1..], t[0], t[1..]);
    } else {
      SubsequenceOfTail(sub, t[1..]);
      SubsequenceOfCons(sub[1..], t[0], t[1..]);
    }
  }

  /** Each element is kept with its full multiplicity when p holds of it and dropped entirely otherwise. */
  lemma {:induction false} FilterMultiplicity<T(!new)>(xs: seq<T>, p: T -> bool, x: T)
    ensures multiset(Filter(xs, p))[x] == if p(x) then multiset(xs)[x] else 0
  {
    if xs != [] {
      FilterMultiplicity(xs[1..], p, x);
      assert xs == [xs[0]] + xs[1..];
    }
  }

  /** Filtering with a predicate that holds everywhere on xs changes nothing. */
  lemma {:induction false} FilterAllKept<T(!new)>(xs: seq<T>, p: T -> bool)
    requires forall k :: 0 <= k < |xs| ==> p(xs[k])
    ensures Filter(xs, p) == xs
  {
    if xs != [] {
      FilterAllKept(xs[1..], p);
    }
  }

  /** Filtering with a predicate that fails everywhere on xs leaves nothing. */
  lemma {:induction false} FilterNoneKept<T(!new)>(xs: seq<T>, p: T -> bool)
    requires forall k :: 0 <= k < |xs| ==> !p(xs[k])
    ensures Filter(xs, p) == []
  {
    if xs != [] {
      FilterNoneKept(xs[1..], p);
    }
  }
}
