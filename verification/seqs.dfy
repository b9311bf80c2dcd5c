/** Sequence operations shared by the model: `Array.prototype.filter`,
    `Array.prototype.slice(0, n)` and the subsequence relation used to
    state that a filter keeps order and invents nothing. */
module Seqs {

  function Min(a: int, b: int): int {
    if a <= b then a else b
  }

  /** `xs.slice(0, n)`: the first `n` elements, or all of them if there are fewer. */
  function Take<T>(xs: seq<T>, n: nat): (r: seq<T>)
    ensures |r| == Min(n, |xs|)
    ensures r <= xs
  {
    xs[..Min(n, |xs|)]
  }

  /** `xs.filter(p)`: the elements of `xs` that satisfy `p`, in their original order. */
  function Filter<T(!new)>(p: T -> bool, xs: seq<T>): (r: seq<T>)
    ensures |r| <= |xs|
    ensures forall i :: 0 <= i < |r| ==> p(r[i])
  {
    if |xs| == 0 then []
    else if p(xs[0]) then [xs[0]] + Filter(p, xs[1..]) else Filter(p, xs[1..])
  }

  /** `a` can be obtained from `b` by deleting elements (greedy matching). */
  predicate IsSubsequence<T(==)>(a: seq<T>, b: seq<T>)
    decreases |b|
  {
    if |a| == 0 then true
    else if |b| == 0 then false
    else if a[0] == b[0] then IsSubsequence(a[1..], b[1..])
    else IsSubsequence(a, b[1..])
  }

  lemma {:induction false} SubsequenceOfTail<T>(a: seq<T>, b: seq<T>)
    requires |b| > 0 && IsSubsequence(a, b[1..])
    ensures IsSubsequence(a, b)
    decreases |b|, 0
  {
    if |a| > 0 && a[0] == b[0] {
      SubsequenceDropHead(a, b[1..]);
    }
  }

  lemma {:induction false} SubsequenceDropHead<T>(a: seq<T>, b: seq<T>)
    requires |a| > 0 && IsSubsequence(a, b)
    ensures IsSubsequence(a[1..], b)
    decreases |b|, 1
  {
    if a[0] == b[0] {
      SubsequenceOfTail(a[1..], b);
    } else {
      SubsequenceDropHead(a, b[1..]);
      SubsequenceOfTail(a[1..], b);
    }
  }

  /** A prefix of a subsequence is again a subsequence. */
  lemma {:induction false} PrefixOfSubsequence<T>(a: seq<T>, b: seq<T>, n: nat)
    requires IsSubsequence(a, b) && n <= |a|
    ensures IsSubsequence(a[..n], b)
    decreases |b|
  {
    if n > 0 {
      if a[0] == b[0] {
        assert a[..n][1..] == a[1..][..n - 1];
        PrefixOfSubsequence(a[1..], b[1..], n - 1);
      } else {
        PrefixOfSubsequence(a, b[1..], n);
      }
    }
  }

  /** An element is kept exactly when it occurs in the input and satisfies `p`. */
  lemma {:induction false} FilterMembership<T(!new)>(p: T -> bool, xs: seq<T>, x: T)
    ensures x in Filter(p, xs) <==> x in xs && p(x)
    decreases |xs|
  {
    if |xs| > 0 {
      FilterMembership(p, xs[1..], x);
      assert x in xs <==> x == xs[0] || x in xs[1..];
    }
  }

  /** Each element that satisfies `p` is kept as often as it occurs; no other
      element is kept. */
  lemma {:induction false} FilterCount<T(!new)>(p: T -> bool, xs: seq<T>, x: T)
    ensures multiset(Filter(p, xs))[x] == if p(x) then multiset(xs)[x] else 0
    decreases |xs|
  {
    if |xs| > 0 {
      FilterCount(p, xs[1..], x);
      assert xs == [xs[0]] + xs[1..];
      assert multiset(xs) == multiset([xs[0]]) + multiset(xs[1..]);
    }
  }

  /** The filter keeps order and adds nothing: it is a subsequence of its input. */
  lemma {:induction false} FilterIsSubsequence<T(!new)>(p: T -> bool, xs: seq<T>)
    ensures IsSubsequence(Filter(p, xs), xs)
    decreases |xs|
  {
    if |xs| > 0 {
      FilterIsSubsequence(p, xs[1..]);
      if !p(xs[0]) {
        SubsequenceOfTail(Filter(p, xs), xs);
      }
    }
  }

  /** No subsequence whose elements all satisfy `p` is longer than the filter. */
  lemma {:induction false} FilterIsLongest<T(!new)>(p: T -> bool, xs: seq<T>, ys: seq<T>)
    requires IsSubsequence(ys, xs)
    requires forall i :: 0 <= i < |ys| ==> p(ys[i])
    ensures |ys| <= |Filter(p, xs)|
    decreases |xs|
  {
    if |ys| > 0 {
      if ys[0] == xs[0] {
        FilterIsLongest(p, xs[1..], ys[1..]);
      } else {
        FilterIsLongest(p, xs[1..], ys);
      }
    }
  }

  /** The filter is the only longest subsequence of `xs` whose elements all
      satisfy `p`: an independent characterisation of `Filter`. */
  lemma {:induction false} FilterUnique<T(!new)>(p: T -> bool, xs: seq<T>, ys: seq<T>)
    requires IsSubsequence(ys, xs)
    requires forall i :: 0 <= i < |ys| ==> p(ys[i])
    requires |ys| >= |Filter(p, xs)|
    ensures ys == Filter(p, xs)
    decreases |xs|
  {
    if |xs| > 0 {
      if !p(xs[0]) {
        // ys[0] satisfies p, so it cannot be matched with xs[0]
        assert |ys| == 0 || ys[0] != xs[0];
        FilterUnique(p, xs[1..], ys);
      } else if |ys| > 0 && ys[0] == xs[0] {
        FilterUnique(p, xs[1..], ys[1..]);
      } else {
        FilterIsLongest(p, xs[1..], ys);
        assert false;
      }
    }
  }

  /** When every element passes, the filter returns its input. */
  lemma {:induction false} FilterKeepsAll<T(!new)>(p: T -> bool, xs: seq<T>)
    requires forall i :: 0 <= i < |xs| ==> p(xs[i])
    ensures Filter(p, xs) == xs
    decreases |xs|
  {
    if |xs| > 0 {
      FilterKeepsAll(p, xs[1..]);
    }
  }

  /** When some element fails, the filter is strictly shorter than its input. */
  lemma {:induction false} FilterDropsFailing<T(!new)>(p: T -> bool, xs: seq<T>, k: nat)
    requires k < |xs| && !p(xs[k])
    ensures |Filter(p, xs)| < |xs|
    decreases |xs|
  {
    if k > 0 {
      FilterDropsFailing(p, xs[1..], k - 1);
    }
  }
}
