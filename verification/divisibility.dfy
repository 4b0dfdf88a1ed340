/** Integer square root and the divisibility facts shared by the prime and
    perfect-number listings. Divisibility is written `i % k == 0`, as the
    listings test it. */
module Divisibility {
  import opened Lists

  /** `int(n ** 0.5)`, taken as the exact integer square root. The listings
      never take the root of a negative number; 0 stands in for that case. */
  function Isqrt(n: int): (r: nat)
    ensures n >= 0 ==> r * r <= n < (r + 1) * (r + 1)
  {
    if n < 0 then 0 else IsqrtFrom(n, 0)
  }

  /** Linear search upwards from a root candidate `r`. */
  function IsqrtFrom(n: nat, r: nat): (s: nat)
    requires r * r <= n
    ensures r <= s && s * s <= n < (s + 1) * (s + 1)
    decreases n - r
  {
    if (r + 1) * (r + 1) <= n then
      assert r + 1 <= (r + 1) * (r + 1);
      IsqrtFrom(n, r + 1)
    else r
  }

  /** A number that is at least `r + 1` has a square above `n`. */
  lemma AboveRoot(n: nat, e: int)
    requires e > Isqrt(n)
    ensures e * e > n
  {
    var r := Isqrt(n);
    MulMonotone(r + 1, e, r + 1);
    MulMonotone(e, e, r + 1);
  }

  lemma MulMonotone(a: int, b: int, c: int)
    requires 0 <= a <= b && c >= 0
    ensures a * c <= b * c && c * a <= c * b
  {
    assert b * c == a * c + (b - a) * c;
  }

  /** A multiple leaves no remainder, and division undoes multiplication. */
  lemma MulMod(a: int, b: int)
    requires a > 0
    ensures (a * b) % a == 0 && (a * b) / a == b
  {
    var q, m := (a * b) / a, (a * b) % a;
    assert a * b == a * q + m && 0 <= m < a;
    assert a * (b - q) == m;
    MulSign(a, b - q);
  }

  lemma MulSign(a: int, t: int)
    requires a > 0
    ensures t >= 1 ==> a * t >= a
    ensures t <= -1 ==> a * t <= -a
  {
    assert a * t == a + a * (t - 1) == -a + a * (t + 1);
    if t >= 1 {
      MulMonotone(0, t - 1, a);
    } else if t <= -1 {
      MulMonotone(0, -(t + 1), a);
    }
  }

  /** A divisor `d` of `i` and its cofactor `i / d`. */
  lemma Cofactor(i: int, d: int)
    requires d > 0 && i % d == 0
    ensures i == d * (i / d) && (i > 0 ==> i / d > 0 && i % (i / d) == 0 && i / (i / d) == d)
  {
    if i > 0 {
      var q := i / d;
      if q <= 0 {
        MulMonotone(0, d, -q);
      }
      MulMod(q, d);
      assert q * d == i;
    }
  }

  /** `i` is the product `d * m` exactly when `d` divides it with cofactor `m`. */
  lemma ProductCofactor(i: int, d: int, m: int)
    requires d > 0 && m > 0 && i == d * m
    ensures i % d == 0 && i / d == m && i % m == 0 && i / m == d
  {
    MulMod(d, m);
    MulMod(m, d);
  }

  /** Divisibility is transitive. */
  lemma DividesTrans(a: int, b: int, c: int)
    requires a > 0 && b > 0 && b % a == 0 && c % b == 0
    ensures c % a == 0
  {
    Cofactor(b, a);
    Cofactor(c, b);
    assert c == a * ((b / a) * (c / b));
    MulMod(a, (b / a) * (c / b));
  }

  /** A proper divisor of `i` that is at least 2, or its cofactor, is at most
      the square root of `i`. */
  lemma SmallFactor(i: int, d: int) returns (e: int)
    requires 2 <= d < i && i % d == 0
    ensures 2 <= e <= Isqrt(i) && i % e == 0
  {
    Cofactor(i, d);
    var q := i / d;
    if q <= 1 {
      MulMonotone(q, 1, d);
      assert false;
    }
    e := if d <= q then d else q;
    assert e * e <= i by {
      MulMonotone(e, d, e);
      MulMonotone(e, q, d);
    }
    if e > Isqrt(i) {
      AboveRoot(i, e);
    }
  }

  /** `i % k == 0`, for the positive `k` the listings divide by. */
  predicate Divides(k: int, i: int) {
    k > 0 && i % k == 0
  }

  /** `[k for k in range(2, int(i ** 0.5) + 1) if i % k == 0]`: the divisors
      both listings try. */
  function SmallDivisors(i: int): seq<int> {
    Filter(Range(2, Isqrt(i) + 1), k => Divides(k, i))
  }

  /** `p` has no divisor in [2, p). */
  predicate IsPrime(p: int) {
    p >= 2 && forall d :: 2 <= d < p ==> p % d != 0
  }

  /** Every `i >= 2` divisible by `d >= 2` has a prime divisor no larger than `d`. */
  lemma {:induction false} PrimeDivisor(i: int, d: int) returns (p: int)
    requires 2 <= d && i % d == 0
    ensures 2 <= p <= d && IsPrime(p) && i % p == 0
    decreases d
  {
    if IsPrime(d) {
      p := d;
    } else {
      var e :| 2 <= e < d && d % e == 0;
      DividesTrans(e, d, i);
      p := PrimeDivisor(i, e);
    }
  }

  /** A number is prime exactly when no integer in [2, Isqrt(i)] divides it. */
  lemma PrimeIffNoSmallDivisor(i: int)
    requires i >= 2
    ensures IsPrime(i) <==> forall k :: 2 <= k <= Isqrt(i) ==> i % k != 0
  {
    if !IsPrime(i) {
      var d :| 2 <= d < i && i % d == 0;
      var e := SmallFactor(i, d);
    } else {
      forall k | 2 <= k <= Isqrt(i)
        ensures i % k != 0
      {
        if k >= i {
          var r := Isqrt(i);
          MulMonotone(k, r, k);
          MulMonotone(k, r, r);
          MulMonotone(2, k, k);
        }
      }
    }
  }

  /** Between two consecutive odd multiples `k` and `k + 2 * i` of `i` lies
      exactly one multiple of `i`. */
  lemma NextMultiple(i: int, k: int, j: int)
    requires i > 0 && k % i == 0 && j % i == 0 && k < j < k + 2 * i
    ensures j == k + i
  {
    var a, b := k / i, j / i;
    Quotient(k, i);
    Quotient(j, i);
    MulCancelLess(i, a, b);
    Distribute(i, a, 2);
    MulCancelLess(i, b, a + 2);
    Distribute(i, a, 1);
  }

  /** Division without remainder undoes itself. */
  lemma Quotient(k: int, i: int)
    requires i > 0 && k % i == 0
    ensures k == i * (k / i)
  {
  }

  lemma Distribute(i: int, a: int, c: int)
    ensures i * (a + c) == i * a + c * i
  {
  }

  /** Multiplying by a positive number keeps a strict order. */
  lemma MulCancelLess(i: int, x: int, y: int)
    requires i > 0 && i * x < i * y
    ensures x < y
  {
    assert i * y - i * x == i * (y - x);
    MulSign(i, y - x);
  }

  /** The multiples of `i` step by `i`. */
  lemma MultipleStep(i: int, k: int, m: int)
    requires i > 0 && k % i == 0
    ensures (k + m * i) % i == 0
  {
    Cofactor(k, i);
    assert k + m * i == i * (k / i + m);
    MulMod(i, k / i + m);
  }
}
