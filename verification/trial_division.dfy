/** The deterministic trial-division testers of the sandbox. Each returns
    exactly whether its argument is prime. */
module TrialDivision {
  import opened Modular
  import opened Primes

  /** The 6m ± 1 scan shared by `is_prime_basic` (code_3.py) and `is_prime`
      (code_2.py, code_4.py, code_5.py): reject n <= 1, accept 2 and 3,
      reject multiples of 2 and 3, then test i and i + 2 for i = 5, 11, 17, ...
      while i * i <= n. */
  method IsPrimeSixK(n: int) returns (prime: bool)
    ensures prime == IsPrime(n)
    ensures n <= 1 ==> !prime
    ensures n == 2 || n == 3 ==> prime
    ensures n > 3 && (n % 2 == 0 || n % 3 == 0) ==> !prime
  {
    if n <= 1 {
      return false;
    }
    if n <= 3 {
      return true;
    }
    if n % 2 == 0 || n % 3 == 0 {
      SmallFactorMeansComposite(n);
      return false;
    }
    NoDivisorBelowFive(n);
    var i := 5;
    while i * i <= n
      invariant 5 <= i && i % 6 == 5
      invariant forall d :: 2 <= d < i ==> !Divides(d, n)
      decreases n - i
    {
      SixKCandidates(n, i);
      if n % i == 0 || n % (i + 2) == 0 {
        return false;
      }
      i := i + 6;
    }
    NoSmallDivisorMeansPrime(n, i);
    return true;
  }

  /** `is_prime_optimized` of code_4.py: the same guards, then a `for` loop
      over range(5, int(math.sqrt(n)) + 1, 6), with the square root taken as
      the integer floor square root. */
  method IsPrimeSixKBounded(n: int) returns (prime: bool)
    ensures prime == IsPrime(n)
    ensures n <= 1 ==> !prime
    ensures n == 2 || n == 3 ==> prime
    ensures n > 3 && (n % 2 == 0 || n % 3 == 0) ==> !prime
  {
    if n <= 1 {
      return false;
    }
    if n <= 3 {
      return true;
    }
    if n % 2 == 0 || n % 3 == 0 {
      SmallFactorMeansComposite(n);
      return false;
    }
    NoDivisorBelowFive(n);
    var root := FloorSqrt(n);
    var limit: int := root + 1;
    var i := 5;
    while i < limit
      invariant 5 <= i && i % 6 == 5
      invariant forall d :: 2 <= d < i ==> !Divides(d, n)
      decreases limit - i
    {
      FloorSqrtCompare(n, root, i);
      SixKCandidates(n, i);
      if n % i == 0 || n % (i + 2) == 0 {
        return false;
      }
      i := i + 6;
    }
    FloorSqrtCompare(n, root, i);
    NoSmallDivisorMeansPrime(n, i);
    return true;
  }

  /** `is_prime_basic` of code_1.py: every i in [2, n) is tried as a divisor. */
  method IsPrimeNaive(n: int) returns (prime: bool)
    ensures prime == IsPrime(n)
  {
    if n <= 1 {
      return false;
    }
    for i := 2 to n
      invariant forall d :: 2 <= d < i ==> !Divides(d, n)
    {
      if n % i == 0 {
        assert Divides(i, n);
        return false;
      }
    }
    return true;
  }

  /** `is_prime_optimized` of code_1.py: reject n <= 1, accept 2, reject even
      n, then try the odd i in range(3, int(math.sqrt(n)) + 1, 2), with the
      square root taken as the integer floor square root. */
  method IsPrimeOddDivisors(n: int) returns (prime: bool)
    ensures prime == IsPrime(n)
    ensures n <= 1 ==> !prime
    ensures n == 2 ==> prime
    ensures n > 2 && n % 2 == 0 ==> !prime
  {
    if n <= 1 {
      return false;
    }
    if n == 2 {
      return true;
    }
    if n % 2 == 0 {
      assert Divides(2, n);
      return false;
    }
    var root := FloorSqrt(n);
    var limit: int := root + 1;
    var i := 3;
    while i < limit
      invariant 3 <= i && i % 2 == 1
      invariant forall d :: 2 <= d < i ==> !Divides(d, n)
      decreases limit - i
    {
      FloorSqrtCompare(n, root, i);
      OddCandidate(n, i);
      if n % i == 0 {
        return false;
      }
      i := i + 2;
    }
    FloorSqrtCompare(n, root, i);
    NoSmallDivisorMeansPrime(n, i);
    return true;
  }

  /** The 6m ± 1 certificate for 1000003 up to its square-root bound 1001,
      checked in strides of 24 from the top down. */
  lemma MillionThreeFrom869()
    ensures NoSixKDivisor(1000003, 869, 1001)
  {
    assert NoSixKDivisor(1000003, 989, 1001);
    assert NoSixKDivisor(1000003, 965, 1001);
    assert NoSixKDivisor(1000003, 941, 1001);
    assert NoSixKDivisor(1000003, 917, 1001);
    assert NoSixKDivisor(1000003, 893, 1001);
    assert NoSixKDivisor(1000003, 869, 1001);
  }

  lemma MillionThreeFrom725()
    ensures NoSixKDivisor(1000003, 725, 1001)
  {
    MillionThreeFrom869();
    assert NoSixKDivisor(1000003, 845, 1001);
    assert NoSixKDivisor(1000003, 821, 1001);
    assert NoSixKDivisor(1000003, 797, 1001);
    assert NoSixKDivisor(1000003, 773, 1001);
    assert NoSixKDivisor(1000003, 749, 1001);
    assert NoSixKDivisor(1000003, 725, 1001);
  }

  lemma MillionThreeFrom581()
    ensures NoSixKDivisor(1000003, 581, 1001)
  {
    MillionThreeFrom725();
    assert NoSixKDivisor(1000003, 701, 1001);
    assert NoSixKDivisor(1000003, 677, 1001);
    assert NoSixKDivisor(1000003, 653, 1001);
    assert NoSixKDivisor(1000003, 629, 1001);
    assert NoSixKDivisor(1000003, 605, 1001);
    assert NoSixKDivisor(1000003, 581, 1001);
  }

  lemma MillionThreeFrom437()
    ensures NoSixKDivisor(1000003, 437, 1001)
  {
    MillionThreeFrom581();
    assert NoSixKDivisor(1000003, 557, 1001);
    assert NoSixKDivisor(1000003, 533, 1001);
    assert NoSixKDivisor(1000003, 509, 1001);
    assert NoSixKDivisor(1000003, 485, 1001);
    assert NoSixKDivisor(1000003, 461, 1001);
    assert NoSixKDivisor(1000003, 437, 1001);
  }

  lemma MillionThreeFrom293()
    ensures NoSixKDivisor(1000003, 293, 1001)
  {
    MillionThreeFrom437();
    assert NoSixKDivisor(1000003, 413, 1001);
    assert NoSixKDivisor(1000003, 389, 1001);
    assert NoSixKDivisor(1000003, 365, 1001);
    assert NoSixKDivisor(1000003, 341, 1001);
    assert NoSixKDivisor(1000003, 317, 1001);
    assert NoSixKDivisor(1000003, 293, 1001);
  }

  lemma MillionThreeFrom149()
    ensures NoSixKDivisor(1000003, 149, 1001)
  {
    MillionThreeFrom293();
    assert NoSixKDivisor(1000003, 269, 1001);
    assert NoSixKDivisor(1000003, 245, 1001);
    assert NoSixKDivisor(1000003, 221, 1001);
    assert NoSixKDivisor(1000003, 197, 1001);
    assert NoSixKDivisor(1000003, 173, 1001);
    assert NoSixKDivisor(1000003, 149, 1001);
  }

  lemma MillionThreeFrom5()
    ensures NoSixKDivisor(1000003, 5, 1001)
  {
    MillionThreeFrom149();
    assert NoSixKDivisor(1000003, 125, 1001);
    assert NoSixKDivisor(1000003, 101, 1001);
    assert NoSixKDivisor(1000003, 77, 1001);
    assert NoSixKDivisor(1000003, 53, 1001);
    assert NoSixKDivisor(1000003, 29, 1001);
    assert NoSixKDivisor(1000003, 5, 1001);
  }

  /** The values printed by the examples of code_5.py: 1000003, 2 and 3 are
      prime; 1000004, 1 and 4 are not. */
  lemma ExamplesCode5()
    ensures IsPrime(1000003) && IsPrime(2) && IsPrime(3)
    ensures !IsPrime(1000004) && !IsPrime(1) && !IsPrime(4)
  {
    MillionThreeFrom5();
    SixKCertificateFrom5(1000003, 1001);
    DivisorMeansComposite(2, 1000004);
    DivisorMeansComposite(2, 4);
  }

  /** The values printed by the examples of code_2.py: 2 and 97 are prime,
      10 is not. */
  lemma ExamplesCode2()
    ensures IsPrime(2) && !IsPrime(10) && IsPrime(97)
  {
    SixKCertificateFrom5(97, 10);
    DivisorMeansComposite(2, 10);
  }

  /** The two numbers tried in code_3.py: 17 is prime, 20 is not. */
  lemma ExamplesCode3()
    ensures IsPrime(17) && !IsPrime(20)
  {
    SixKCertificateFrom5(17, 5);
    DivisorMeansComposite(2, 20);
  }

  /** The values printed by the examples of code_1.py: 2 and 97 are prime,
      15 is not. */
  lemma ExamplesCode1()
    ensures IsPrime(2) && !IsPrime(15) && IsPrime(97)
  {
    SixKCertificateFrom5(97, 10);
    DivisorMeansComposite(3, 15);
  }
}
