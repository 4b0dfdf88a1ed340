/** The three perfect-number listings. Each tests the candidates 2..n with a
    divisor sum that starts at 1 and tries only `k` in [2, int(i ** 0.5)],
    adding `k` and its cofactor `i // k` unless the two coincide. */
module PerfectNumbers {
  import opened Lists
  import opened Divisibility

  /** The proper divisors of `i`: `[k for k in range(1, i) if i % k == 0]`. */
  function ProperDivisors(i: int): seq<int> {
    Filter(Range(1, i), k => Divides(k, i))
  }

  function ProperDivisorSum(i: int): int {
    Sum(ProperDivisors(i))
  }

  /** `i` equals the sum of its proper divisors. */
  predicate IsPerfect(i: int) {
    i == ProperDivisorSum(i)
  }

  /** The reference listing, without the square-root optimisation: the
      perfect numbers among 1..n, ascending. */
  function PerfectsUpTo(n: int): seq<int> {
    Filter(Range(1, n + 1), IsPerfect)
  }

  /** `k + (i // k if i // k != k else 0)`: a divisor and its cofactor, the
      two counted once when they coincide. Only positive `k` are tried; a
      non-positive one contributes nothing. */
  function Contribution(i: int, k: int): int {
    if k <= 0 then 0 else k + (if i / k != k then i / k else 0)
  }

  /** `1 + sum(...)` over the divisors tried below `m`: the accumulator of
      the imperative listing when its inner loop reaches `m`. */
  function OptSumBelow(i: int, m: int): int {
    1 + Sum(Map(Filter(Range(2, m), k => Divides(k, i)), k => Contribution(i, k)))
  }

  /** The optimised divisor sum of `perfect_lcomp`: the list of contributions
      of the divisors in [2, int(i ** 0.5)], summed, plus 1. */
  function OptDivisorSum(i: int): int {
    1 + Sum(Map(SmallDivisors(i), k => Contribution(i, k)))
  }

  /** The generator of `perfect_functional`, summed term by term: each `k` in
      [2, int(i ** 0.5)] adds its contribution when it divides `i`. */
  function OptDivisorSumFolded(i: int): int {
    1 + FoldLeft((acc: int, k: int) => acc + (if Divides(k, i) then Contribution(i, k) else 0),
                 0, Range(2, Isqrt(i) + 1))
  }

  /** The divisors `d` of `i` below `i` that the optimised sum has accounted
      for once all `k <= m` are tried: `d` itself or its cofactor is at most `m`. */
  predicate CoveredBy(i: int, m: int, d: int) {
    Divides(d, i) && (d <= m || i / d <= m)
  }

  function CoveredSum(i: int, m: int): int {
    Sum(Filter(Range(1, i), d => CoveredBy(i, m, d)))
  }

  lemma OptSumBelowStep(i: int, m: int)
    requires m >= 2
    ensures OptSumBelow(i, m + 1) == OptSumBelow(i, m) + (if Divides(m, i) then Contribution(i, m) else 0)
  {
    var ks := Filter(Range(2, m), k => Divides(k, i));
    RangeSnoc(2, m);
    FilterSnoc(Range(2, m), m, k => Divides(k, i));
    MapSnoc(ks, m, k => Contribution(i, k));
    SumSnoc(Map(ks, k => Contribution(i, k)), Contribution(i, m));
    if !Divides(m, i) {
      assert Filter(Range(2, m + 1), k => Divides(k, i)) == ks;
    }
  }

  /** Trying only `k = 1` accounts for the divisor 1 alone. */
  lemma CoveredByOne(i: int)
    requires i >= 2
    ensures CoveredSum(i, 1) == 1
  {
    forall d | 1 <= d < i
      ensures CoveredBy(i, 1, d) <==> d == 1
    {
      if d > 1 && Divides(d, i) && i / d <= 1 {
        Cofactor(i, d);
        MulMonotone(i / d, 1, d);
      }
    }
    SumOfTwoPoints(1, i, d => CoveredBy(i, 1, d), 1, 1);
  }

  /** The divisors first accounted for when `m` is tried. */
  predicate AddedAt(i: int, m: int, d: int) {
    CoveredBy(i, m, d) && !CoveredBy(i, m - 1, d)
  }

  /** Trying a `k` in [2, Isqrt(i)] accounts for `k` and `i / k` when `k`
      divides `i`, and for nothing when it does not. */
  lemma AddedAtMeans(i: int, m: int, d: int)
    requires i >= 2 && 2 <= m <= Isqrt(i) && 1 <= d < i
    ensures AddedAt(i, m, d) <==> Divides(m, i) && (d == m || d == i / m)
  {
    if AddedAt(i, m, d) {
      var c := i / d;
      Cofactor(i, d);
      if d != m {
        assert c == m;
        ProductCofactor(i, d, m);
      }
    }
    if Divides(m, i) {
      CofactorBounds(i, m);
      var c := i / m;
      Cofactor(i, m);
      ProductCofactor(i, m, c);
      assert AddedAt(i, m, m);
      assert AddedAt(i, m, c);
    }
  }

  lemma CoveredStep(i: int, m: int)
    requires i >= 2 && 2 <= m <= Isqrt(i)
    ensures CoveredSum(i, m) == CoveredSum(i, m - 1) + (if Divides(m, i) then Contribution(i, m) else 0)
  {
    var s := Range(1, i);
    FilterSumSplit(s, d => CoveredBy(i, m, d), d => CoveredBy(i, m - 1, d), d => AddedAt(i, m, d));
    forall d | 1 <= d < i
      ensures AddedAt(i, m, d) <==> Divides(m, i) && (d == m || d == i / m)
    {
      AddedAtMeans(i, m, d);
    }
    if Divides(m, i) {
      CofactorBounds(i, m);
      SumOfTwoPoints(1, i, d => AddedAt(i, m, d), m, i / m);
    } else {
      var none := Filter(s, d => AddedAt(i, m, d));
      if none != [] {
        FilterMembers(s, d => AddedAt(i, m, d), none[0]);
        RangeMembers(1, i, none[0]);
      }
      assert none == [];
    }
  }

  /** A divisor `m` in [2, Isqrt(i)] has its cofactor in [m, i). */
  lemma CofactorBounds(i: int, m: int)
    requires i >= 2 && 2 <= m <= Isqrt(i) && Divides(m, i)
    ensures m <= i / m < i
  {
    var c := i / m;
    var r := Isqrt(i);
    Cofactor(i, m);
    assert i == m * c && c > 0;
    MulMonotone(m, r, m);
    MulMonotone(m, r, r);
    assert m * m <= i;
    if c < m {
      MulMonotone(c + 1, m, m);
      assert false;
    }
    MulMonotone(2, m, c);
    assert i >= 2 * c;
  }

  /** Once every `k <= Isqrt(i)` is tried, every proper divisor is accounted for. */
  lemma CoveredAtRoot(i: int)
    requires i >= 2
    ensures CoveredSum(i, Isqrt(i)) == ProperDivisorSum(i)
  {
    var r := Isqrt(i);
    var s := Range(1, i);
    AboveRoot(i, r + 1);
    forall k | 0 <= k < |s|
      ensures CoveredBy(i, r, s[k]) == Divides(s[k], i)
    {
      var d := s[k];
      if Divides(d, i) && d > r && i / d > r {
        Cofactor(i, d);
        AboveRoot(i, d);
        MulMonotone(r + 1, i / d, d);
        MulMonotone(r + 1, d, r + 1);
      }
    }
    FilterCongruent(s, d => CoveredBy(i, r, d), k => Divides(k, i));
  }

  lemma {:induction false} OptSumCovers(i: int, m: int)
    requires i >= 2 && 1 <= m <= Isqrt(i)
    ensures OptSumBelow(i, m + 1) == CoveredSum(i, m)
  {
    if m == 1 {
      CoveredByOne(i);
      assert Filter(Range(2, 2), k => Divides(k, i)) == [];
    } else {
      OptSumCovers(i, m - 1);
      OptSumBelowStep(i, m);
      CoveredStep(i, m);
    }
  }

  /** For `i >= 2` the optimised sum is the sum of all proper divisors. */
  lemma OptimisedSumIsProperDivisorSum(i: int)
    requires i >= 2
    ensures OptDivisorSum(i) == ProperDivisorSum(i)
  {
    OptSumCovers(i, Isqrt(i));
    CoveredAtRoot(i);
  }

  /** Summing the generator term by term gives the same value as summing the
      list of contributions. */
  lemma {:induction false} FoldedPartial(i: int, m: int)
    requires m >= 1
    ensures 1 + FoldLeft((acc: int, k: int) => acc + (if Divides(k, i) then Contribution(i, k) else 0),
                         0, Range(2, m)) == OptSumBelow(i, m)
  {
    if m > 2 {
      FoldedPartial(i, m - 1);
      RangeSnoc(2, m - 1);
      FoldLeftSnoc((acc: int, k: int) => acc + (if Divides(k, i) then Contribution(i, k) else 0),
                   0, Range(2, m - 1), m - 1);
      OptSumBelowStep(i, m - 1);
    } else {
      assert Filter(Range(2, m), k => Divides(k, i)) == [];
    }
  }

  lemma FoldedIsOptimised(i: int)
    ensures OptDivisorSumFolded(i) == OptDivisorSum(i)
  {
    FoldedPartial(i, Isqrt(i) + 1);
  }

  /** 1 is the edge case the listings skip: the optimised test would accept
      it, though it is not perfect. */
  lemma OneIsTheEdgeCase()
    ensures OptDivisorSum(1) == 1 && !IsPerfect(1)
  {
    assert Isqrt(1) == 1;
    assert Range(1, 1) == [];
    assert Filter(Range(2, 2), k => Divides(k, 1)) == [];
  }

  /** `perfect_lcomp`. */
  function PerfectLcomp(n: int): seq<int> {
    Filter(Range(2, n + 1), i => i == OptDivisorSum(i))
  }

  /** `perfect_functional`. */
  function PerfectFunctional(n: int): seq<int> {
    Filter(Range(2, n + 1), i => i == OptDivisorSumFolded(i))
  }

  /** Starting the candidates at 2 loses nothing, and each optimised test
      accepts exactly the perfect numbers. */
  lemma FromTwoIsReference(n: int, test: int -> bool)
    requires forall i :: i >= 2 ==> (test(i) <==> IsPerfect(i))
    ensures Filter(Range(2, n + 1), test) == PerfectsUpTo(n)
  {
    OneIsTheEdgeCase();
    FilterFromTwo(n, test, IsPerfect);
  }

  /** The list comprehension and the `filter` variant both list exactly the
      perfect numbers up to n. */
  lemma ListingsAgree(n: int)
    ensures PerfectLcomp(n) == PerfectFunctional(n) == PerfectsUpTo(n)
  {
    forall i | i >= 2
      ensures (i == OptDivisorSum(i)) <==> IsPerfect(i)
    {
      OptimisedSumIsProperDivisorSum(i);
    }
    forall i | i >= 2
      ensures (i == OptDivisorSumFolded(i)) <==> IsPerfect(i)
    {
      OptimisedSumIsProperDivisorSum(i);
      FoldedIsOptimised(i);
    }
    FromTwoIsReference(n, i => i == OptDivisorSum(i));
    FromTwoIsReference(n, i => i == OptDivisorSumFolded(i));
  }

  /** The reference listing holds exactly the perfect numbers in [1, n],
      never 1, in ascending order. */
  lemma PerfectsUpToMeans(n: int, x: int)
    ensures x in PerfectsUpTo(n) <==> 1 <= x <= n && IsPerfect(x)
    ensures 1 !in PerfectsUpTo(n)
    ensures StrictlyIncreasing(PerfectsUpTo(n))
  {
    FilterMembers(Range(1, n + 1), IsPerfect, x);
    RangeMembers(1, n + 1, x);
    FilterMembers(Range(1, n + 1), IsPerfect, 1);
    OneIsTheEdgeCase();
    FilterIncreasing(Range(1, n + 1), IsPerfect);
  }

  /** The inner loop of `perfect_imperative`: start at 1 and, for each `k`
      in [2, int(i ** 0.5)] dividing `i`, add `k` and, unless it equals `k`,
      `i // k`. */
  method OptimisedSum(i: int) returns (s: int)
    ensures s == OptDivisorSum(i)
  {
    s := 1;
    var k := 2;
    var root := Isqrt(i);
    while k < root + 1
      invariant 2 <= k <= root + 1 || (root == 0 && k == 2)
      invariant s == OptSumBelow(i, k)
    {
      if i % k == 0 {
        s := s + k + (if i / k != k then i / k else 0);
      }
      OptSumBelowStep(i, k);
      k := k + 1;
    }
    if root == 0 {
      assert Filter(Range(2, 1), k => Divides(k, i)) == [];
      assert Filter(Range(2, 2), k => Divides(k, i)) == [];
    }
  }

  lemma CandidateStep(i: int)
    requires i >= 2
    ensures Filter(Range(2, i + 1), IsPerfect) == Filter(Range(2, i), IsPerfect) + (if IsPerfect(i) then [i] else [])
  {
    RangeSnoc(2, i);
    FilterSnoc(Range(2, i), i, IsPerfect);
  }

  /** `perfect_imperative`: keep each candidate 2..n whose optimised divisor
      sum equals it. */
  method PerfectImperative(n: int) returns (perfects: seq<int>)
    ensures perfects == PerfectsUpTo(n)
  {
    perfects := [];
    var i := 2;
    while i < n + 1
      invariant 2 <= i && (i <= n + 1 || i == 2)
      invariant perfects == Filter(Range(2, i), IsPerfect)
    {
      var s := OptimisedSum(i);
      OptimisedSumIsProperDivisorSum(i);
      CandidateStep(i);
      if s == i {
        perfects := perfects + [i];
      }
      i := i + 1;
    }
    if n >= 1 {
      assert i == n + 1;
    } else {
      assert Range(2, i) == Range(2, n + 1) == [];
    }
    FromTwoIsReference(n, IsPerfect);
  }

  /** 6 is perfect: 1 + (2 + 3). */
  lemma SixIsPerfect()
    ensures IsPerfect(6) && 6 in PerfectsUpTo(6)
  {
    OptimisedSumIsProperDivisorSum(6);
    assert Isqrt(6) == 2 by {
      RootIs(6, 2);
    }
    assert OptSumBelow(6, 2) == 1 by {
      assert Range(2, 2) == [];
    }
    OptSumBelowStep(6, 2);
    assert Divides(2, 6) && Contribution(6, 2) == 5;
    PerfectsUpToMeans(6, 6);
  }

  /** 28 is perfect: 1 + (2 + 14) + (4 + 7). */
  lemma TwentyEightIsPerfect()
    ensures IsPerfect(28)
  {
    OptimisedSumIsProperDivisorSum(28);
    OptimisedSumOfTwentyEight();
  }

  lemma OptimisedSumOfTwentyEight()
    ensures OptDivisorSum(28) == 28
  {
    RootIs(28, 5);
    assert OptDivisorSum(28) == OptSumBelow(28, Isqrt(28) + 1);
    TwentyEightUpToFour();
    TwentyEightFromFour();
  }

  /** The accumulator for 28 after trying 2 and 3: 1 + (2 + 14). */
  lemma TwentyEightUpToFour()
    ensures OptSumBelow(28, 4) == 17
  {
    assert OptSumBelow(28, 2) == 1 by {
      assert Range(2, 2) == [];
    }
    assert OptSumBelow(28, 3) == 17 by {
      OptSumBelowStep(28, 2);
      assert Divides(2, 28) && Contribution(28, 2) == 16;
    }
    OptSumBelowStep(28, 3);
    assert !Divides(3, 28);
  }

  /** The accumulator for 28 after trying 4 and 5: 17 + (4 + 7). */
  lemma TwentyEightFromFour()
    ensures OptSumBelow(28, 4) == 17 ==> OptSumBelow(28, 6) == 28
  {
    OptSumBelowStep(28, 4);
    assert Divides(4, 28) && Contribution(28, 4) == 11;
    OptSumBelowStep(28, 5);
    assert !Divides(5, 28);
  }

  lemma RootIs(n: nat, r: nat)
    requires r * r <= n < (r + 1) * (r + 1)
    ensures Isqrt(n) == r
  {
    var s := Isqrt(n);
    if s < r {
      MulMonotone(s + 1, r, s + 1);
      MulMonotone(s + 1, r, r);
    } else if s > r {
      MulMonotone(r + 1, s, r + 1);
      MulMonotone(r + 1, s, s);
    }
  }
}
