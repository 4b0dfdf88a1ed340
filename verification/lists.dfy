/** Python's list vocabulary over sequences: `range`, `filter`, `all`, `sum`
    and `functools.reduce`, each defined by recursion on the last element so
    that appending one element unfolds one step. */
module Lists {

  /** `range(lo, hi)`: the integers lo, lo+1, ..., hi-1. */
  function Range(lo: int, hi: int): (r: seq<int>)
    ensures |r| == if lo <= hi then hi - lo else 0
    ensures forall k :: 0 <= k < |r| ==> r[k] == lo + k
  {
    if lo >= hi then [] else seq(hi - lo, k => lo + k)
  }

  lemma RangeSnoc(lo: int, hi: int)
    requires lo <= hi
    ensures Range(lo, hi + 1) == Range(lo, hi) + [hi]
  {
  }

  lemma RangeMembers(lo: int, hi: int, x: int)
    ensures x in Range(lo, hi) <==> lo <= x < hi
  {
    if lo <= x < hi {
      assert Range(lo, hi)[x - lo] == x;
    }
  }

  /** `list(filter(p, s))`: the elements of `s` satisfying `p`, in order. */
  function Filter<T>(s: seq<T>, p: T -> bool): seq<T>
  {
    if s == [] then [] else Filter(s[..|s| - 1], p) + (if p(s[|s| - 1]) then [s[|s| - 1]] else [])
  }

  lemma FilterSnoc<T>(s: seq<T>, x: T, p: T -> bool)
    ensures Filter(s + [x], p) == Filter(s, p) + (if p(x) then [x] else [])
  {
    assert (s + [x])[..|s + [x]| - 1] == s;
  }

  lemma {:induction false} FilterMembers<T>(s: seq<T>, p: T -> bool, x: T)
    ensures x in Filter(s, p) <==> x in s && p(x)
  {
    if s != [] {
      var init := s[..|s| - 1];
      assert s == init + [s[|s| - 1]];
      FilterMembers(init, p, x);
    }
  }

  lemma {:induction false} FilterLength<T>(s: seq<T>, p: T -> bool)
    ensures |Filter(s, p)| <= |s|
  {
    if s != [] {
      FilterLength(s[..|s| - 1], p);
    }
  }

  /** Two predicates that agree on every element of `s` keep the same elements. */
  lemma {:induction false} FilterCongruent<T>(s: seq<T>, p: T -> bool, q: T -> bool)
    requires forall k :: 0 <= k < |s| ==> p(s[k]) == q(s[k])
    ensures Filter(s, p) == Filter(s, q)
  {
    if s != [] {
      FilterCongruent(s[..|s| - 1], p, q);
    }
  }

  /** A predicate that holds everywhere in `s` keeps all of it. */
  lemma {:induction false} FilterKeepsAll<T>(s: seq<T>, p: T -> bool)
    requires forall k :: 0 <= k < |s| ==> p(s[k])
    ensures Filter(s, p) == s
  {
    if s != [] {
      FilterKeepsAll(s[..|s| - 1], p);
    }
  }

  /** A predicate that holds nowhere in `s` keeps none of it. */
  lemma {:induction false} FilterKeepsNone<T>(s: seq<T>, p: T -> bool)
    requires forall k :: 0 <= k < |s| ==> !p(s[k])
    ensures Filter(s, p) == []
  {
    if s != [] {
      FilterKeepsNone(s[..|s| - 1], p);
    }
  }

  /** When `q` holds on an element of `s` exactly when `p` does not, what `p`
      keeps and what `q` keeps together make up `s`. */
  lemma {:induction false} FilterSplit<T>(s: seq<T>, p: T -> bool, q: T -> bool)
    requires forall k :: 0 <= k < |s| ==> q(s[k]) == !p(s[k])
    ensures multiset(Filter(s, p)) + multiset(Filter(s, q)) == multiset(s)
  {
    if s != [] {
      var init := s[..|s| - 1];
      assert s == init + [s[|s| - 1]];
      assert forall k :: 0 <= k < |init| ==> init[k] == s[k];
      FilterSplit(init, p, q);
    }
  }

  ghost predicate StrictlyIncreasing(s: seq<int>) {
    forall i, j :: 0 <= i < j < |s| ==> s[i] < s[j]
  }

  /** Filtering an increasing list keeps it increasing. */
  lemma {:induction false} FilterIncreasing(s: seq<int>, p: int -> bool)
    requires StrictlyIncreasing(s)
    ensures StrictlyIncreasing(Filter(s, p))
  {
    if s != [] {
      var init := s[..|s| - 1];
      var last := s[|s| - 1];
      assert StrictlyIncreasing(init) by {
        assert forall k :: 0 <= k < |init| ==> init[k] == s[k];
      }
      FilterIncreasing(init, p);
      var fi := Filter(init, p);
      forall k | 0 <= k < |fi|
        ensures fi[k] < last
      {
        FilterMembers(init, p, fi[k]);
        var m :| 0 <= m < |init| && init[m] == fi[k];
        assert s[m] == fi[k];
      }
      assert Filter(s, p) == fi + (if p(last) then [last] else []);
    }
  }

  /** `all(p(x) for x in s)`. */
  function All<T>(s: seq<T>, p: T -> bool): bool
  {
    if s == [] then true else All(s[..|s| - 1], p) && p(s[|s| - 1])
  }

  lemma {:induction false} AllMeans<T>(s: seq<T>, p: T -> bool)
    ensures All(s, p) <==> forall k :: 0 <= k < |s| ==> p(s[k])
  {
    if s != [] {
      var init := s[..|s| - 1];
      AllMeans(init, p);
      assert forall k :: 0 <= k < |init| ==> init[k] == s[k];
    }
  }

  /** `sum(s)`. */
  function Sum(s: seq<int>): int
  {
    if s == [] then 0 else Sum(s[..|s| - 1]) + s[|s| - 1]
  }

  lemma SumSnoc(s: seq<int>, x: int)
    ensures Sum(s + [x]) == Sum(s) + x
  {
    assert (s + [x])[..|s + [x]| - 1] == s;
  }

  /** `functools.reduce(f, xs, init)`: a left fold. */
  function FoldLeft<A, T>(f: (A, T) -> A, init: A, xs: seq<T>): A
  {
    if xs == [] then init else f(FoldLeft(f, init, xs[..|xs| - 1]), xs[|xs| - 1])
  }

  lemma FoldLeftSnoc<A, T>(f: (A, T) -> A, init: A, xs: seq<T>, x: T)
    ensures FoldLeft(f, init, xs + [x]) == f(FoldLeft(f, init, xs), x)
  {
    assert (xs + [x])[..|xs + [x]| - 1] == xs;
  }

  /** `[f(x) for x in s]`. */
  function Map<T, U>(s: seq<T>, f: T -> U): (r: seq<U>)
    ensures |r| == |s| && forall k :: 0 <= k < |s| ==> r[k] == f(s[k])
  {
    seq(|s|, k requires 0 <= k < |s| => f(s[k]))
  }

  lemma MapSnoc<T, U>(s: seq<T>, x: T, f: T -> U)
    ensures Map(s + [x], f) == Map(s, f) + [f(x)]
  {
  }

  /** When every element kept by `p` is kept by exactly one of `q` and `r`,
      and by nothing else, the sum of the kept elements splits. */
  lemma {:induction false} FilterSumSplit(s: seq<int>, p: int -> bool, q: int -> bool, r: int -> bool)
    requires forall k :: 0 <= k < |s| ==> (p(s[k]) <==> q(s[k]) || r(s[k])) && !(q(s[k]) && r(s[k]))
    ensures Sum(Filter(s, p)) == Sum(Filter(s, q)) + Sum(Filter(s, r))
  {
    if s != [] {
      var init, last := s[..|s| - 1], s[|s| - 1];
      assert forall k :: 0 <= k < |init| ==> init[k] == s[k];
      FilterSumSplit(init, p, q, r);
      SumSnoc(Filter(init, p), last);
      SumSnoc(Filter(init, q), last);
      SumSnoc(Filter(init, r), last);
      assert Filter(s, p) == Filter(init, p) + (if p(last) then [last] else []);
      assert Filter(s, q) == Filter(init, q) + (if q(last) then [last] else []);
      assert Filter(s, r) == Filter(init, r) + (if r(last) then [last] else []);
      assert (p(last) <==> q(last) || r(last)) && !(q(last) && r(last));
      if q(last) {
        assert Filter(s, r) == Filter(init, r);
      } else if r(last) {
        assert Filter(s, q) == Filter(init, q);
      } else {
        assert Filter(s, p) == Filter(init, p);
        assert Filter(s, q) == Filter(init, q);
        assert Filter(s, r) == Filter(init, r);
      }
    }
  }

  /** When `p` holds in [lo, hi) at `a` and `b` only, the kept elements sum to
      `a + b`, or to `a` alone when the two points coincide. */
  lemma {:induction false} SumOfTwoPoints(lo: int, hi: int, p: int -> bool, a: int, b: int)
    requires lo <= a <= b < hi
    requires forall x :: lo <= x < hi ==> (p(x) <==> x == a || x == b)
    ensures Sum(Filter(Range(lo, hi), p)) == a + (if b != a then b else 0)
  {
    PartialTwoPoints(lo, hi, p, a, b);
  }

  lemma {:induction false} PartialTwoPoints(lo: int, hi: int, p: int -> bool, a: int, b: int)
    requires lo <= hi && a <= b
    requires forall x :: lo <= x < hi ==> (p(x) <==> x == a || x == b)
    ensures Sum(Filter(Range(lo, hi), p)) ==
              (if lo <= a < hi then a else 0) + (if lo <= b < hi && b != a then b else 0)
    decreases hi - lo
  {
    if lo < hi {
      var r := Range(lo, hi - 1);
      PartialTwoPoints(lo, hi - 1, p, a, b);
      RangeSnoc(lo, hi - 1);
      FilterSnoc(r, hi - 1, p);
      SumSnoc(Filter(r, p), hi - 1);
      assert Filter(Range(lo, hi), p) == Filter(r, p) + (if p(hi - 1) then [hi - 1] else []);
      if p(hi - 1) {
        assert hi - 1 == a || hi - 1 == b;
      } else {
        assert hi - 1 != a && hi - 1 != b;
        assert Filter(Range(lo, hi), p) == Filter(r, p);
      }
    }
  }

  /** Starting a range at 2 instead of 1 changes no filter that rejects 1,
      as long as the two tests agree from 2 on. */
  lemma {:induction false} FilterFromTwo(n: int, test: int -> bool, ref: int -> bool)
    requires !ref(1) && forall i :: i >= 2 ==> test(i) == ref(i)
    ensures Filter(Range(2, n + 1), test) == Filter(Range(1, n + 1), ref)
    decreases n
  {
    if n >= 2 {
      FilterFromTwo(n - 1, test, ref);
      RangeSnoc(2, n);
      RangeSnoc(1, n);
      FilterSnoc(Range(2, n), n, test);
      FilterSnoc(Range(1, n), n, ref);
    } else {
      assert Range(2, n + 1) == [];
      if n == 1 {
        assert Range(1, n + 1) == [] + [1];
        FilterSnoc([], 1, ref);
      }
    }
  }

  /** `', '.join(parts)`: the parts separated by a comma and a space. */
  function JoinComma(parts: seq<string>): string {
    if parts == [] then ""
    else if |parts| == 1 then parts[0]
    else parts[0] + ", " + JoinComma(parts[1..])
  }

  /** Joining one more part appends it after a separator, unless it is the
      only part. */
  lemma {:induction false} JoinCommaSnoc(parts: seq<string>, x: string)
    ensures JoinComma(parts + [x]) == if parts == [] then x else JoinComma(parts) + ", " + x
    decreases |parts|
  {
    if |parts| >= 1 {
      assert (parts + [x])[1..] == parts[1..] + [x];
      JoinCommaSnoc(parts[1..], x);
    }
  }
}
