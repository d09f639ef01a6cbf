/** Sequence helpers used by every screen: `Array.prototype.filter`,
    duplicate-freedom and counting. */
module SeqUtil {

  function Min(a: int, b: int): (r: int)
    ensures r <= a && r <= b && (r == a || r == b)
  {
    if a <= b then a else b
  }

  /** `xs.filter(p)`: the elements satisfying `p`, in their original order. */
  function Filter<T(!new)>(xs: seq<T>, p: T -> bool): (r: seq<T>)
    ensures |r| <= |xs|
    ensures forall x :: x in r <==> x in xs && p(x)
  {
    if |xs| == 0 then []
    else (if p(xs[0]) then [xs[0]] else []) + Filter(xs[1..], p)
  }

  lemma {:induction false} FilterConcat<T(!new)>(xs: seq<T>, ys: seq<T>, p: T -> bool)
    ensures Filter(xs + ys, p) == Filter(xs, p) + Filter(ys, p)
  {
    if |xs| == 0 {
      assert xs + ys == ys;
    } else {
      assert (xs + ys)[1..] == xs[1..] + ys;
      FilterConcat(xs[1..], ys, p);
    }
  }

  /** `r` is `xs` with some elements dropped, the rest kept in order. */
  predicate IsSubsequence<T(==)>(r: seq<T>, xs: seq<T>)
    decreases |xs|
  {
    |r| == 0 ||
    (|xs| > 0 && ((r[0] == xs[0] && IsSubsequence(r[1..], xs[1..])) || IsSubsequence(r, xs[1..])))
  }

  /** The filter keeps every occurrence of an accepted element and no
      occurrence of a rejected one, and keeps the original order. Together
      the two facts determine the filtered sequence. */
  lemma {:induction false} FilterExact<T(!new)>(xs: seq<T>, p: T -> bool)
    ensures forall x :: multiset(Filter(xs, p))[x] == (if p(x) then multiset(xs)[x] else 0)
    ensures IsSubsequence(Filter(xs, p), xs)
  {
    if |xs| > 0 {
      FilterExact(xs[1..], p);
      assert xs == [xs[0]] + xs[1..];
      assert multiset(xs) == multiset([xs[0]]) + multiset(xs[1..]);
      var rest := Filter(xs[1..], p);
      if p(xs[0]) {
        assert Filter(xs, p) == [xs[0]] + rest;
        assert Filter(xs, p)[1..] == rest;
      } else {
        assert Filter(xs, p) == rest;
      }
    }
  }

  /** Filtering by `p` and then by `q` is filtering once by their
      conjunction `both`. */
  lemma {:induction false} FilterFilter<T(!new)>(xs: seq<T>, p: T -> bool, q: T -> bool, both: T -> bool)
    requires forall x :: both(x) == (p(x) && q(x))
    ensures Filter(Filter(xs, p), q) == Filter(xs, both)
  {
    if |xs| > 0 {
      FilterFilter(xs[1..], p, q, both);
      var fp := Filter(xs, p);
      if p(xs[0]) {
        assert fp == [xs[0]] + Filter(xs[1..], p);
        assert fp[0] == xs[0] && fp[1..] == Filter(xs[1..], p);
        assert Filter(fp, q) == (if q(xs[0]) then [xs[0]] else []) + Filter(Filter(xs[1..], p), q);
      } else {
        assert fp == Filter(xs[1..], p);
      }
    }
  }

  /** Filtering by a weaker predicate keeps at least as many elements. */
  lemma {:induction false} FilterMonotone<T(!new)>(xs: seq<T>, p: T -> bool, p': T -> bool)
    requires forall x :: x in xs && p(x) ==> p'(x)
    ensures |Filter(xs, p)| <= |Filter(xs, p')|
  {
    if |xs| > 0 {
      assert forall x :: x in xs[1..] ==> x in xs;
      FilterMonotone(xs[1..], p, p');
    }
  }

  /** Predicates that agree on the elements give the same filter. */
  lemma {:induction false} FilterCongruent<T(!new)>(xs: seq<T>, p: T -> bool, p': T -> bool)
    requires forall x :: x in xs ==> p(x) == p'(x)
    ensures Filter(xs, p) == Filter(xs, p')
  {
    if |xs| > 0 {
      assert forall x :: x in xs[1..] ==> x in xs;
      FilterCongruent(xs[1..], p, p');
    }
  }

  predicate NoDup<T(==)>(xs: seq<T>)
  {
    forall i, j :: 0 <= i < j < |xs| ==> xs[i] != xs[j]
  }

  function CountTrue(bs: seq<bool>): (r: nat)
    ensures r <= |bs|
  {
    if |bs| == 0 then 0 else (if bs[0] then 1 else 0) + CountTrue(bs[1..])
  }

  lemma {:induction false} CountTrueNone(bs: seq<bool>)
    requires forall i :: 0 <= i < |bs| ==> !bs[i]
    ensures CountTrue(bs) == 0
  {
    if |bs| > 0 {
      CountTrueNone(bs[1..]);
    }
  }

  /** A flag set at exactly one position is counted once. */
  lemma {:induction false} CountTrueExactlyOne(bs: seq<bool>, k: int)
    requires 0 <= k < |bs|
    requires forall i :: 0 <= i < |bs| ==> (bs[i] <==> i == k)
    ensures CountTrue(bs) == 1
  {
    if k == 0 {
      CountTrueNone(bs[1..]);
    } else {
      CountTrueExactlyOne(bs[1..], k - 1);
    }
  }

  /** A flag set at no more than one position is counted at most once. */
  lemma {:induction false} CountTrueAtMostOne(bs: seq<bool>)
    requires forall i, j :: 0 <= i < |bs| && 0 <= j < |bs| && bs[i] && bs[j] ==> i == j
    ensures CountTrue(bs) <= 1
  {
    if exists k :: 0 <= k < |bs| && bs[k] {
      var k :| 0 <= k < |bs| && bs[k];
      CountTrueExactlyOne(bs, k);
    } else {
      CountTrueNone(bs);
    }
  }
}
