/** The four prime listings: a Sieve of Eratosthenes over a boolean array,
    trial division up to the square root written with a list comprehension
    and with `filter`/`all`, and a left fold that tests each candidate
    against the primes kept so far. */
module Primes {
  import opened Lists
  import opened Divisibility

  /** The reference listing: the primes in [2, n], ascending. */
  function PrimesUpTo(n: int): seq<int> {
    Filter(Range(2, n + 1), IsPrime)
  }

  lemma PrimesUpToMembers(n: int, x: int)
    ensures x in PrimesUpTo(n) <==> 2 <= x <= n && IsPrime(x)
  {
    FilterMembers(Range(2, n + 1), IsPrime, x);
    RangeMembers(2, n + 1, x);
  }

  lemma PrimesUpToIncreasing(n: int)
    ensures StrictlyIncreasing(PrimesUpTo(n))
  {
    FilterIncreasing(Range(2, n + 1), IsPrime);
  }

  /** Raising the bound by one appends the new bound when it is prime. */
  lemma PrimesUpToSnoc(n: int)
    ensures PrimesUpTo(n + 1) == PrimesUpTo(n) + (if IsPrime(n + 1) then [n + 1] else [])
  {
    if n >= 1 {
      RangeSnoc(2, n + 1);
      FilterSnoc(Range(2, n + 1), n + 1, IsPrime);
    }
  }

  /** An even number above 2 is not prime, so it leaves the listing as it is. */
  lemma EvenBoundAddsNothing(n: int)
    requires n >= 3 && (n + 1) % 2 == 0
    ensures PrimesUpTo(n + 1) == PrimesUpTo(n)
  {
    PrimesUpToSnoc(n);
  }

  /** What the sieve has established before sieving with the odd number `i`:
      `j` is at least 2 and has no divisor in [2, i) below itself. */
  ghost predicate Sieved(j: int, i: int) {
    j >= 2 && forall d :: 2 <= d < i && d < j ==> j % d != 0
  }

  /** The cells the inner loop has cleared while sieving with `i`, up to `k`. */
  ghost predicate MarkedBy(j: int, i: int, k: int) {
    3 * i <= j < k && Divides(i, j) && j % 2 == 1
  }

  /** Sieving with a prime `i` removes exactly its odd multiples from 3i on;
      sieving with a composite `i` removes nothing new; and the even number
      `i + 1` never removes anything. */
  lemma SieveStep(j: int, i: int)
    requires i >= 3 && i % 2 == 1
    ensures Sieved(j, i + 2) ==
              if IsPrime(i) then Sieved(j, i) && !(3 * i <= j && Divides(i, j) && j % 2 == 1)
              else Sieved(j, i)
  {
    if Sieved(j, i) {
      assert j % 2 != 0 || j == 2;
      if i + 1 < j && j % (i + 1) == 0 {
        DividesTrans(2, i + 1, j);
        assert false;
      }
      if IsPrime(i) {
        if i < j && j % i == 0 {
          Cofactor(j, i);
          var q := j / i;
          if q <= 1 {
            MulMonotone(q, 1, i);
            assert false;
          }
          MulMonotone(3, q, i);
        }
      } else {
        var d :| 2 <= d < i && i % d == 0;
        if i < j && j % i == 0 {
          DividesTrans(d, i, j);
          assert false;
        }
      }
    }
  }

  /** The first phase of `primes_imperative`: 1 and every even number but 2
      are cleared. */
  method ClearEvens(isprime: array<bool>)
    requires isprime.Length >= 3
    requires forall j :: 0 <= j < isprime.Length ==> isprime[j]
    modifies isprime
    ensures forall j :: 0 <= j < isprime.Length ==> isprime[j] == Sieved(j, 3)
  {
    isprime[1] := false;
    var i := 0;
    while i < isprime.Length
      invariant 0 <= i <= isprime.Length + 1 && i % 2 == 0
      invariant forall j :: 0 <= j < isprime.Length ==> isprime[j] == (j != 1 && !(j < i && j % 2 == 0))
    {
      isprime[i] := false;
      i := i + 2;
    }
    isprime[2] := true;
  }

  /** The inner loop of `primes_imperative`: clear 3i, 5i, 7i, ... within
      the array, stepping by 2i so that only odd multiples are visited. */
  method ClearOddMultiples(isprime: array<bool>, i: int)
    requires i >= 3 && i % 2 == 1
    modifies isprime
    ensures forall j :: 0 <= j < isprime.Length ==>
              isprime[j] == (old(isprime[j]) && !(3 * i <= j && Divides(i, j) && j % 2 == 1))
  {
    var k := 3 * i;
    MultipleStep(i, 0, 3);
    while k < isprime.Length
      invariant 3 * i <= k && k % i == 0 && k % 2 == 1
      invariant forall j :: 0 <= j < isprime.Length ==>
                  isprime[j] == (old(isprime[j]) && !MarkedBy(j, i, k))
    {
      isprime[k] := false;
      MarkStep(i, k);
      k := k + 2 * i;
    }
  }

  /** Stepping the inner loop from the odd multiple `k` to `k + 2i` marks
      `k` and nothing else: the one multiple in between is even. */
  lemma MarkStep(i: int, k: int)
    requires i >= 3 && i % 2 == 1 && 3 * i <= k && k % i == 0 && k % 2 == 1
    ensures (k + 2 * i) % i == 0 && (k + 2 * i) % 2 == 1
    ensures forall j :: MarkedBy(j, i, k + 2 * i) == (MarkedBy(j, i, k) || j == k)
  {
    MultipleStep(i, k, 2);
    assert (k + 2 * i) % 2 == 1;
    forall j
      ensures MarkedBy(j, i, k + 2 * i) == (MarkedBy(j, i, k) || j == k)
    {
      MarkStepAt(i, k, j);
    }
  }

  /** The same, for one candidate `j`. */
  lemma MarkStepAt(i: int, k: int, j: int)
    requires i >= 3 && i % 2 == 1 && 3 * i <= k && k % i == 0 && k % 2 == 1
    ensures MarkedBy(j, i, k + 2 * i) == (MarkedBy(j, i, k) || j == k)
  {
    if k < j < k + 2 * i && j % i == 0 {
      NextMultiple(i, k, j);
      OddSum(k, i);
      assert !MarkedBy(j, i, k + 2 * i);
    }
  }

  /** The sum of two odd numbers is even. */
  lemma OddSum(a: int, b: int)
    requires a % 2 == 1 && b % 2 == 1
    ensures (a + b) % 2 == 0
  {
    assert a == 2 * (a / 2) + 1 && b == 2 * (b / 2) + 1;
    assert a + b == 2 * (a / 2 + b / 2 + 1);
  }

  /** One round of the outer loop for the odd `i`: read `isprime[i]`, and
      when it is set clear the odd multiples of `i`. The cell read is set
      exactly when `i` is prime, and afterwards the array is sieved up to
      `i + 2`. */
  method SieveRound(isprime: array<bool>, i: int) returns (prime: bool)
    requires 3 <= i < isprime.Length && i % 2 == 1
    requires forall j :: 0 <= j < isprime.Length ==> isprime[j] == Sieved(j, i)
    modifies isprime
    ensures prime == IsPrime(i)
    ensures forall j :: 0 <= j < isprime.Length ==> isprime[j] == Sieved(j, i + 2)
  {
    prime := isprime[i];
    assert Sieved(i, i) == IsPrime(i);
    if prime {
      ClearOddMultiples(isprime, i);
    }
    forall j | 0 <= j < isprime.Length
      ensures isprime[j] == Sieved(j, i + 2)
    {
      SieveStep(j, i);
    }
  }

  /** `primes_imperative`: the Sieve of Eratosthenes over `isprime[0..n]`.
      Even numbers are cleared first; then each odd `i` still marked when the
      loop reaches it is a prime, is appended, and clears its odd multiples. */
  method PrimesImperative(n: int) returns (result: seq<int>)
    ensures result == PrimesUpTo(n)
  {
    result := [];
    if n < 2 {
      SmallBounds(n);
      return;
    }
    var isprime := NewSieve(n);
    result := result + [2];
    SmallBounds(2);
    var i := 3;
    while i < n + 1
      invariant 3 <= i <= n + 2 && i % 2 == 1
      invariant forall j :: 0 <= j < isprime.Length ==> isprime[j] == Sieved(j, i)
      invariant result == PrimesUpTo(i - 1)
    {
      i, result := SieveAndCollect(isprime, i, result);
    }
    LoopExit(n, i);
  }

  /** The outer loop stops at `n + 1`, or at `n + 2` when `n` is odd, and
      `n + 1` is then even. */
  lemma LoopExit(n: int, i: int)
    requires n >= 2 && 3 <= i <= n + 2 && i % 2 == 1 && i >= n + 1
    ensures PrimesUpTo(i - 1) == PrimesUpTo(n)
  {
    if i == n + 2 {
      EvenBoundAddsNothing(n);
    }
  }

  /** One turn of the outer loop: sieve with the odd `i` and append it to
      the result when its cell was still set. */
  method SieveAndCollect(isprime: array<bool>, i: int, result: seq<int>) returns (i': int, result': seq<int>)
    requires 3 <= i < isprime.Length && i % 2 == 1
    requires forall j :: 0 <= j < isprime.Length ==> isprime[j] == Sieved(j, i)
    requires result == PrimesUpTo(i - 1)
    modifies isprime
    ensures i' == i + 2 && result' == PrimesUpTo(i' - 1)
    ensures forall j :: 0 <= j < isprime.Length ==> isprime[j] == Sieved(j, i')
  {
    var prime := SieveRound(isprime, i);
    OddStep(i);
    result' := result + (if prime then [i] else []);
    i' := i + 2;
  }

  /** `isprime = [True] * (n + 1)` followed by the first phase. */
  method NewSieve(n: int) returns (isprime: array<bool>)
    requires n >= 2
    ensures fresh(isprime) && isprime.Length == n + 1
    ensures forall j :: 0 <= j < isprime.Length ==> isprime[j] == Sieved(j, 3)
  {
    isprime := new bool[n + 1](_ => true);
    ClearEvens(isprime);
  }

  /** Below 2 there is no prime, and 2 is the only one up to 2. */
  lemma SmallBounds(n: int)
    requires n <= 2
    ensures PrimesUpTo(n) == if n == 2 then [2] else []
  {
    if n == 2 {
      PrimesUpToSnoc(1);
    }
  }

  /** The outer loop's step from the odd `i` to `i + 2` appends `i` exactly
      when it is prime. */
  lemma OddStep(i: int)
    requires i >= 3 && i % 2 == 1
    ensures PrimesUpTo(i + 1) == PrimesUpTo(i - 1) + (if IsPrime(i) then [i] else [])
  {
    PrimesUpToSnoc(i - 1);
    EvenBoundAddsNothing(i);
  }

  /** `all(i % k for k in range(2, int(i ** 0.5) + 1))`. */
  predicate NoRemainderlessDivisor(i: int) {
    All(Range(2, Isqrt(i) + 1), k => !Divides(k, i))
  }

  /** `primes_lcomp`: keep `i` when the list of its divisors in
      [2, int(i ** 0.5)] is empty. */
  function PrimesLcomp(n: int): seq<int> {
    Filter(Range(2, n + 1), i => SmallDivisors(i) == [])
  }

  /** `primes_functional1`: keep `i` when every `k` in [2, int(i ** 0.5)]
      leaves a non-zero remainder. */
  function PrimesFunctional1(n: int): seq<int> {
    Filter(Range(2, n + 1), NoRemainderlessDivisor)
  }

  /** One step of the fold: append `i` when no prime kept so far divides it. */
  function KeepIfCoprime(primes: seq<int>, i: int): seq<int> {
    primes + (if All(primes, p => !Divides(p, i)) then [i] else [])
  }

  /** `primes_functional2`: a left fold of `KeepIfCoprime` over [2, n]. */
  function PrimesFunctional2(n: int): seq<int> {
    FoldLeft(KeepIfCoprime, [], Range(2, n + 1))
  }

  /** Both trial-division variants keep `i` exactly when no `k` in
      [2, Isqrt(i)] divides it. */
  lemma TrialDivisionKeeps(n: int, i: int)
    ensures i in PrimesLcomp(n) <==> 2 <= i <= n && forall k :: 2 <= k <= Isqrt(i) ==> i % k != 0
    ensures i in PrimesFunctional1(n) <==> 2 <= i <= n && forall k :: 2 <= k <= Isqrt(i) ==> i % k != 0
  {
    RangeMembers(2, n + 1, i);
    FilterMembers(Range(2, n + 1), i => SmallDivisors(i) == [], i);
    FilterMembers(Range(2, n + 1), NoRemainderlessDivisor, i);
    NoSmallDivisor(i);
  }

  /** The two spellings of the trial-division test mean: no `k` in
      [2, Isqrt(i)] divides `i`. */
  lemma NoSmallDivisor(i: int)
    ensures SmallDivisors(i) == [] <==> forall k :: 2 <= k <= Isqrt(i) ==> i % k != 0
    ensures NoRemainderlessDivisor(i) <==> forall k :: 2 <= k <= Isqrt(i) ==> i % k != 0
  {
    EmptySmallDivisors(i);
    var ks := Range(2, Isqrt(i) + 1);
    AllMeans(ks, k => !Divides(k, i));
    if !NoRemainderlessDivisor(i) {
      var j :| 0 <= j < |ks| && Divides(ks[j], i);
      assert 2 <= ks[j] <= Isqrt(i) && i % ks[j] == 0;
    } else {
      forall k | 2 <= k <= Isqrt(i)
        ensures i % k != 0
      {
        assert ks[k - 2] == k;
      }
    }
  }

  lemma EmptySmallDivisors(i: int)
    ensures SmallDivisors(i) == [] <==> forall k :: 2 <= k <= Isqrt(i) ==> i % k != 0
  {
    var ks := Range(2, Isqrt(i) + 1);
    var found := SmallDivisors(i);
    if found != [] {
      FilterMembers(ks, k => Divides(k, i), found[0]);
      RangeMembers(2, Isqrt(i) + 1, found[0]);
      assert 2 <= found[0] <= Isqrt(i) && i % found[0] == 0;
    } else {
      forall k | 2 <= k <= Isqrt(i)
        ensures i % k != 0
      {
        RangeMembers(2, Isqrt(i) + 1, k);
        FilterMembers(ks, k => Divides(k, i), k);
      }
    }
  }

  /** A number at least 2 is prime exactly when no prime below it divides it:
      the test the fold applies. */
  lemma NoKeptDivisorIffPrime(i: int)
    requires i >= 2
    ensures All(PrimesUpTo(i - 1), p => !Divides(p, i)) <==> IsPrime(i)
  {
    var below := PrimesUpTo(i - 1);
    AllMeans(below, p => !Divides(p, i));
    if IsPrime(i) {
      forall k | 0 <= k < |below|
        ensures !Divides(below[k], i)
      {
        PrimesUpToMembers(i - 1, below[k]);
      }
    } else {
      var d :| 2 <= d < i && i % d == 0;
      var p := PrimeDivisor(i, d);
      PrimesUpToMembers(i - 1, p);
      var k :| 0 <= k < |below| && below[k] == p;
    }
  }

  /** `primes_lcomp` lists exactly the primes in [2, n], ascending. */
  lemma LcompIsReference(n: int)
    ensures PrimesLcomp(n) == PrimesUpTo(n)
  {
    var s := Range(2, n + 1);
    forall k | 0 <= k < |s|
      ensures (SmallDivisors(s[k]) == []) == IsPrime(s[k])
    {
      NoSmallDivisor(s[k]);
      PrimeIffNoSmallDivisor(s[k]);
    }
    FilterCongruent(s, i => SmallDivisors(i) == [], IsPrime);
  }

  /** `primes_functional1` lists exactly the primes in [2, n], ascending. */
  lemma Functional1IsReference(n: int)
    ensures PrimesFunctional1(n) == PrimesUpTo(n)
  {
    var s := Range(2, n + 1);
    forall k | 0 <= k < |s|
      ensures NoRemainderlessDivisor(s[k]) == IsPrime(s[k])
    {
      NoSmallDivisor(s[k]);
      PrimeIffNoSmallDivisor(s[k]);
    }
    FilterCongruent(s, NoRemainderlessDivisor, IsPrime);
  }

  /** `primes_functional2` lists exactly the primes in [2, n], ascending. */
  lemma {:induction false} Functional2IsReference(n: int)
    ensures PrimesFunctional2(n) == PrimesUpTo(n)
  {
    if n >= 2 {
      Functional2IsReference(n - 1);
      RangeSnoc(2, n);
      FoldLeftSnoc(KeepIfCoprime, [], Range(2, n), n);
      NoKeptDivisorIffPrime(n);
      PrimesUpToSnoc(n - 1);
    }
  }

  /** All four listings agree for every `n`; below 2 they are all empty, and
      the common result is strictly increasing. */
  lemma ListingsAgree(n: int)
    ensures PrimesLcomp(n) == PrimesFunctional1(n) == PrimesFunctional2(n) == PrimesUpTo(n)
    ensures n < 2 ==> PrimesUpTo(n) == []
    ensures StrictlyIncreasing(PrimesUpTo(n))
  {
    LcompIsReference(n);
    Functional1IsReference(n);
    Functional2IsReference(n);
    PrimesUpToIncreasing(n);
  }
}
