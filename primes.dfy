// is_prime of Tread_pool.C: trial division by 2 and by the odd numbers up to
// the square root, proved equal to the mathematical definition of a prime.

module Primes {

  /** n is prime: at least 2, and no number strictly between 1 and n divides it. */
  ghost predicate IsPrime(n: int)
  {
    n >= 2 && forall d :: 2 <= d < n ==> n % d != 0
  }

  /** The criterion trial division checks: at least 2, and no divisor d >= 2
      with d * d <= n. */
  ghost predicate NoDivisorUpToRoot(n: int)
  {
    n >= 2 && forall d :: 2 <= d && d * d <= n ==> n % d != 0
  }

  /** Multiplying by a non-negative number keeps order. */
  lemma MulMonotone(a: int, b: int, c: int)
    requires a >= 0 && b <= c
    ensures a * b <= a * c
  {
  }

  /** Euclidean division leaves no remainder on an exact multiple. */
  lemma MultipleHasZeroRemainder(q: int, e: int)
    requires e > 0
    ensures (q * e) % e == 0
  {
    var n := q * e;
    var r, p := n % e, n / e;
    assert n == p * e + r && 0 <= r < e;
    assert (q - p) * e == r;
    assert q - p >= 1 ==> (q - p) * e >= e;
    assert q - p <= -1 ==> (q - p) * e <= -e;
  }

  /** A divisor d of n with 1 < d < n has a cofactor e with 1 < e < n. */
  lemma Cofactor(n: int, d: int) returns (e: int)
    requires 2 <= d < n && n % d == 0
    ensures 2 <= e < n && d * e == n && n % e == 0
  {
    e := n / d;
    assert n == d * e;
    if e <= 1 {
      MulMonotone(d, e, 1);
    }
    MulMonotone(e, 2, d);
    MultipleHasZeroRemainder(d, e);
  }

  /** A composite n has a divisor no larger than its square root. */
  lemma DivisorUpToRoot(n: int, d: int) returns (f: int)
    requires 2 <= d < n && n % d == 0
    ensures 2 <= f && f * f <= n && n % f == 0
  {
    var e := Cofactor(n, d);
    if d * d <= n {
      f := d;
    } else {
      if d <= e {
        MulMonotone(d, d, e);
      }
      MulMonotone(e, e, d);
      f := e;
    }
  }

  /** Trial division up to the square root decides primality. */
  lemma PrimeIffNoDivisorUpToRoot(n: int)
    ensures IsPrime(n) <==> NoDivisorUpToRoot(n)
  {
    if IsPrime(n) {
      forall d | 2 <= d && d * d <= n
        ensures n % d != 0
      {
        MulMonotone(d, 2, d);
      }
    }
    if NoDivisorUpToRoot(n) {
      forall d | 2 <= d < n
        ensures n % d != 0
      {
        if n % d == 0 {
          var f := DivisorUpToRoot(n, d);
        }
      }
    }
  }

  /** No number in [2, i) divides n. */
  ghost predicate NoDivisorBelow(n: int, i: int)
  {
    forall d :: 2 <= d < i ==> n % d != 0
  }

  /** For odd n, once i fails to divide n, so does everything below i + 2:
      the one number skipped, i + 1, is even. */
  lemma NextOddCandidate(n: int, i: int)
    requires n % 2 == 1 && i >= 3 && i % 2 == 1
    requires NoDivisorBelow(n, i) && n % i != 0
    ensures NoDivisorBelow(n, i + 2)
  {
    OddHasNoEvenDivisor(n, i + 1);
  }

  /** Once every candidate below i has failed and i * i exceeds n, n is prime. */
  lemma NoDivisorBelowRoot(n: int, i: int)
    requires n >= 2 && i >= 2 && i * i > n
    requires NoDivisorBelow(n, i)
    ensures IsPrime(n)
  {
    forall d | 2 <= d && d * d <= n
      ensures n % d != 0
    {
      if d >= i {
        MulMonotone(i, i, d);
        MulMonotone(d, i, d);
      }
    }
    PrimeIffNoDivisorUpToRoot(n);
  }

  /** An odd number has no even divisor. */
  lemma OddHasNoEvenDivisor(n: int, d: int)
    requires n % 2 == 1 && d >= 2 && d % 2 == 0
    ensures n % d != 0
  {
    var q, h := n / d, d / 2;
    assert d == 2 * h;
    assert n == d * q + n % d;
    MultipleHasZeroRemainder(h * q, 2);
    assert d * q == (h * q) * 2;
  }

  /** is_prime(n): rejects n < 2, accepts 2, rejects the other even numbers,
      then tries the odd candidates 3, 5, 7, ... while i * i <= n. */
  method IsPrimeTrial(n: int) returns (b: bool)
    ensures b <==> IsPrime(n)
  {
    if n < 2 {
      return false;
    }
    if n == 2 {
      return true;
    }
    if n % 2 == 0 {
      return false;
    }
    var i := 3;
    while i * i <= n
      invariant 3 <= i && i % 2 == 1
      invariant NoDivisorBelow(n, i)
      decreases n - i
    {
      MulMonotone(i, 3, i);
      if n % i == 0 {
        return false;
      }
      NextOddCandidate(n, i);
      i := i + 2;
    }
    NoDivisorBelowRoot(n, i);
    return true;
  }
}
