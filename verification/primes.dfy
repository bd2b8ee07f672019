/** Divisibility and primality: the mathematical meaning every tester in
    the sandbox is proved against. */
module Primes {
  import opened Modular

  /** d is a positive divisor of n. */
  predicate Divides(d: int, n: int)
  {
    d > 0 && n % d == 0
  }

  /** n is prime: at least 2, with no divisor in [2, n). */
  ghost predicate IsPrime(n: int)
  {
    n >= 2 && forall d :: 2 <= d < n ==> !Divides(d, n)
  }

  /** A divisor strictly between 1 and n witnesses that n is not prime. */
  lemma DivisorMeansComposite(d: int, n: int)
    requires 2 <= d < n && Divides(d, n)
    ensures !IsPrime(n)
  {
  }

  lemma DividesTransitive(a: int, b: int, c: int)
    requires Divides(a, b) && Divides(b, c)
    ensures Divides(a, c)
  {
    var k, l := b / a, c / b;
    assert b == k * a;
    assert c == l * b;
    assert c == (l * k) * a;
    ModOfMultiple(l * k, a);
  }

  /** A prime is an integer of at least 2 whose only positive divisors are 1 and itself. */
  lemma PrimeIffOnlyTrivialDivisors(n: int)
    ensures IsPrime(n) <==> n >= 2 && forall d :: Divides(d, n) ==> d == 1 || d == n
  {
    if n >= 2 && forall d :: Divides(d, n) ==> d == 1 || d == n {
      forall d | 2 <= d < n
        ensures !Divides(d, n)
      {
      }
    }
    if IsPrime(n) {
      forall d | Divides(d, n)
        ensures d == 1 || d == n
      {
        if d > n {
          ModSmall(n, d);
        }
      }
    }
  }

  /** A divisor d of n with d * d >= b * b > n leaves a cofactor n / d that
      divides n and lies in [2, b). */
  lemma CofactorBelow(n: int, d: int, b: int)
    requires 2 <= d < n && Divides(d, n)
    requires 0 <= b <= d && b * b > n
    ensures 2 <= n / d < b && Divides(n / d, n)
  {
    var e := n / d;
    assert n == e * d;
    MulMonotone(b, d, b);
    assert e * d < b * d;
    MulCancelLess(e, b, d);
    MulCancelLess(1, e, d);
    ModOfMultiple(d, e);
  }

  /** Trial division may stop at the square root: once no divisor lies in
      [2, b) and b * b > n, n is prime. */
  lemma NoSmallDivisorMeansPrime(n: int, b: int)
    requires n >= 2 && b >= 0 && b * b > n
    requires forall d :: 2 <= d < b ==> !Divides(d, n)
    ensures IsPrime(n)
  {
    forall d | 2 <= d < n
      ensures !Divides(d, n)
    {
      if b <= d && Divides(d, n) {
        CofactorBelow(n, d, b);
      }
    }
  }

  /** One stride of the 6m ± 1 scan: when n is prime to 2 and 3, i = 6m + 5,
      and neither i nor i + 2 divides n, no divisor is left below i + 6,
      because i + 1, i + 3, i + 5 are even and i + 4 is a multiple of 3. */
  lemma SixKStride(n: int, i: int)
    requires n % 2 != 0 && n % 3 != 0 && 5 <= i && i % 6 == 5
    requires forall d :: 2 <= d < i ==> !Divides(d, n)
    requires !Divides(i, n) && !Divides(i + 2, n)
    ensures forall d :: 2 <= d < i + 6 ==> !Divides(d, n)
  {
    var q := i / 6;
    assert i == 6 * q + 5;
    assert i + 1 == (3 * q + 3) * 2;
    assert i + 3 == (3 * q + 4) * 2;
    assert i + 5 == (3 * q + 5) * 2;
    assert i + 4 == (2 * q + 3) * 3;
    MultipleNotDivisor(n, 3 * q + 3, 2);
    MultipleNotDivisor(n, 3 * q + 4, 2);
    MultipleNotDivisor(n, 3 * q + 5, 2);
    MultipleNotDivisor(n, 2 * q + 3, 3);
  }

  /** A multiple of f cannot divide n when f itself does not. */
  lemma MultipleNotDivisor(n: int, k: int, f: int)
    requires k > 0 && f > 0 && n % f != 0
    ensures !Divides(k * f, n)
  {
    if Divides(k * f, n) {
      ModOfMultiple(k, f);
      DividesTransitive(f, k * f, n);
    }
  }

  /** One step of the 6m ± 1 scan, as the loop body needs it: a candidate
      i or i + 2 that divides n proves n composite, and when neither does,
      no divisor is left below i + 6, which is again 5 modulo 6. */
  lemma SixKCandidates(n: int, i: int)
    requires n % 2 != 0 && n % 3 != 0 && 5 <= i && i % 6 == 5 && i * i <= n
    requires forall d :: 2 <= d < i ==> !Divides(d, n)
    ensures i + 2 < n
    ensures n % i == 0 || n % (i + 2) == 0 ==> !IsPrime(n)
    ensures n % i != 0 && n % (i + 2) != 0 ==>
      (i + 6) % 6 == 5 && forall d :: 2 <= d < i + 6 ==> !Divides(d, n)
  {
    CandidateBelow(n, i);
    if n % i == 0 {
      DivisorMeansComposite(i, n);
    } else if n % (i + 2) == 0 {
      DivisorMeansComposite(i + 2, n);
    } else {
      SixKStride(n, i);
      ModAddMultiple(i, 1, 6);
    }
  }

  /** One step of the odd-only scan: an odd candidate i that divides n proves
      n composite, and when it does not, no divisor is left below i + 2,
      which is again odd. */
  lemma OddCandidate(n: int, i: int)
    requires n % 2 != 0 && 3 <= i && i % 2 == 1 && i * i <= n
    requires forall d :: 2 <= d < i ==> !Divides(d, n)
    ensures i + 2 < n
    ensures n % i == 0 ==> !IsPrime(n)
    ensures n % i != 0 ==> (i + 2) % 2 == 1 && forall d :: 2 <= d < i + 2 ==> !Divides(d, n)
  {
    CandidateBelow(n, i);
    if n % i == 0 {
      DivisorMeansComposite(i, n);
    } else {
      OddStride(n, i);
      ModAddMultiple(i, 1, 2);
    }
  }

  /** One stride of the odd-only scan: when n is odd and the odd i does not
      divide n, no divisor is left below i + 2. */
  lemma OddStride(n: int, i: int)
    requires n % 2 != 0 && 3 <= i && i % 2 == 1
    requires forall d :: 2 <= d < i ==> !Divides(d, n)
    requires !Divides(i, n)
    ensures forall d :: 2 <= d < i + 2 ==> !Divides(d, n)
  {
    if Divides(i + 1, n) {
      DividesTransitive(2, i + 1, n);
    }
  }

  /** No 6m ± 1 candidate i, i + 2, i + 6, i + 8, ... below hi divides n.
      The verifier evaluates it on literal arguments, a few strides per step. */
  predicate NoSixKDivisor(n: nat, i: nat, hi: nat)
    requires i >= 1
    decreases hi - i
  {
    i >= hi || (n % i != 0 && n % (i + 2) != 0 && NoSixKDivisor(n, i + 6, hi))
  }

  /** A primality certificate: n is prime to 2 and 3 and no 6m ± 1 candidate
      from i up to some hi with hi * hi > n divides it. */
  lemma {:induction false} SixKCertificate(n: nat, i: nat, hi: nat)
    requires n >= 2 && n % 2 != 0 && n % 3 != 0 && 5 <= i && i % 6 == 5 && hi * hi > n
    requires forall d :: 2 <= d < i ==> !Divides(d, n)
    requires NoSixKDivisor(n, i, hi)
    ensures IsPrime(n)
    decreases hi - i
  {
    if i >= hi {
      MulMonotone(hi, i, hi);
      MulMonotone(hi, i, i);
      NoSmallDivisorMeansPrime(n, i);
    } else {
      SixKStride(n, i);
      SixKCertificate(n, i + 6, hi);
    }
  }

  /** The certificate started where the 6m ± 1 scan starts, at i = 5. */
  lemma SixKCertificateFrom5(n: nat, hi: nat)
    requires n >= 5 && n % 2 != 0 && n % 3 != 0 && hi * hi > n
    requires NoSixKDivisor(n, 5, hi)
    ensures IsPrime(n)
  {
    NoDivisorBelowFive(n);
    SixKCertificate(n, 5, hi);
  }

  /** Where the 6m ± 1 scan starts: a number prime to 2 and 3 has no divisor in [2, 5). */
  lemma NoDivisorBelowFive(n: int)
    requires n % 2 != 0 && n % 3 != 0
    ensures forall d :: 2 <= d < 5 ==> !Divides(d, n)
  {
    if Divides(4, n) {
      DividesTransitive(2, 4, n);
    }
  }

  /** A number above 3 divisible by 2 or 3 is not prime. */
  lemma SmallFactorMeansComposite(n: int)
    requires n > 3 && (n % 2 == 0 || n % 3 == 0)
    ensures !IsPrime(n)
  {
    if n % 2 == 0 {
      DivisorMeansComposite(2, n);
    } else {
      DivisorMeansComposite(3, n);
    }
  }

  /** Comparing i with the floor square root r of n is comparing i * i with n. */
  lemma FloorSqrtCompare(n: int, r: int, i: int)
    requires 0 <= r && r * r <= n < (r + 1) * (r + 1) && 0 <= i
    ensures i <= r <==> i * i <= n
  {
    if i <= r {
      MulMonotone(i, r, i);
      MulMonotone(i, r, r);
    } else {
      MulMonotone(r + 1, i, r + 1);
      MulMonotone(r + 1, i, i);
    }
  }

  /** A candidate i >= 3 with i * i <= n lies, with i + 2, strictly below n. */
  lemma CandidateBelow(n: int, i: int)
    requires 3 <= i && i * i <= n
    ensures i + 2 < n
  {
    MulMonotone(3, i, i);
  }

  /** The floor of the square root of n: the integer that `int(math.sqrt(n))` stands for. */
  function FloorSqrt(n: nat): (r: nat)
    ensures r * r <= n < (r + 1) * (r + 1)
    decreases n
  {
    if n < 4 then (if n == 0 then 0 else 1)
    else
      var r0 := FloorSqrt(n / 4);
      FloorSqrtDouble(n, r0);
      if (2 * r0 + 1) * (2 * r0 + 1) <= n then 2 * r0 + 1 else 2 * r0
  }

  /** Doubling the floor square root of n / 4 brackets the root of n within 1. */
  lemma FloorSqrtDouble(n: int, r0: int)
    requires n >= 4 && r0 >= 0 && r0 * r0 <= n / 4 < (r0 + 1) * (r0 + 1)
    ensures (2 * r0) * (2 * r0) <= n < (2 * r0 + 2) * (2 * r0 + 2)
  {
    var m := n / 4;
    assert (2 * r0) * (2 * r0) == 4 * (r0 * r0);
    assert (2 * r0 + 2) * (2 * r0 + 2) == 4 * ((r0 + 1) * (r0 + 1));
    assert n < 4 * m + 4;
  }
}
