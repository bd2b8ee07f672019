/** The number theory behind the Miller–Rabin guarantee: Euclid's lemma,
    the binomial theorem, Fermat's little theorem, and the fact that modulo
    a prime the only square roots of 1 are 1 and -1. */
module Fermat {
  import opened Modular
  import opened Primes

  /** If a prime p divides x * b for some x in (0, p), then p divides b;
      by strong induction on x, replacing x with p mod x. */
  lemma {:induction false} EuclidStep(p: int, x: int, b: int)
    requires IsPrime(p) && 0 < x < p && (x * b) % p == 0
    ensures b % p == 0
    decreases x
  {
    if x > 1 {
      var t, q := p / x, p % x;
      assert !Divides(x, p);
      assert p == t * x + q && 0 < q < x;
      var c := (x * b) / p;
      assert x * b == c * p;
      calc {
        q * b;
        (p - t * x) * b;
        p * b - t * (x * b);
        p * b - t * (c * p);
        (b - t * c) * p;
      }
      ModOfMultiple(b - t * c, p);
      EuclidStep(p, q, b);
    }
  }

  /** Euclid's lemma: a prime dividing a product divides one of its factors. */
  lemma EuclidLemma(p: int, a: int, b: int)
    requires IsPrime(p) && (a * b) % p == 0
    ensures a % p == 0 || b % p == 0
  {
    if a % p != 0 {
      ModMulLeft(a, b, p);
      EuclidStep(p, a % p, b);
    }
  }

  /** Binomial coefficients by Pascal's rule. */
  ghost function Binom(n: nat, k: nat): nat
  {
    if k == 0 then 1 else if n == 0 then 0 else Binom(n - 1, k - 1) + Binom(n - 1, k)
  }

  lemma {:induction false} BinomAbove(n: nat, k: nat)
    requires k > n
    ensures Binom(n, k) == 0
    decreases n
  {
    if n > 0 {
      BinomAbove(n - 1, k - 1);
      BinomAbove(n - 1, k);
    }
  }

  lemma {:induction false} BinomDiagonal(n: nat)
    ensures Binom(n, n) == 1
    decreases n
  {
    if n > 0 {
      BinomDiagonal(n - 1);
      BinomAbove(n - 1, n);
    }
  }

  lemma {:induction false} BinomOne(n: nat)
    ensures Binom(n, 1) == n
    decreases n
  {
    if n > 0 {
      BinomOne(n - 1);
    }
  }

  /** The absorption identity k * C(n, k) == n * C(n - 1, k - 1). */
  lemma {:induction false} BinomAbsorb(n: nat, k: nat)
    requires n >= 1 && k >= 1
    ensures k * Binom(n, k) == n * Binom(n - 1, k - 1)
    decreases n
  {
    if k == 1 {
      BinomOne(n);
    } else if n == 1 {
      BinomAbove(0, k - 1);
      BinomAbove(0, k);
    } else {
      BinomAbsorb(n - 1, k);
      BinomAbsorb(n - 1, k - 1);
      var a, b := Binom(n - 1, k - 1), Binom(n - 1, k);
      var c, d := Binom(n - 2, k - 2), Binom(n - 2, k - 1);
      assert Binom(n, k) == a + b && a == c + d;
      AbsorbAlgebra(n, k, a, b, c, d);
    }
  }

  lemma AbsorbAlgebra(n: int, k: int, a: int, b: int, c: int, d: int)
    requires a == c + d && k * b == (n - 1) * d && (k - 1) * a == (n - 1) * c
    ensures k * (a + b) == n * a
  {
    calc {
      k * (a + b);
      a + (k - 1) * a + k * b;
      a + (n - 1) * c + (n - 1) * d;
      a + (n - 1) * (c + d);
      n * a;
    }
  }

  /** A prime p divides every C(p, k) with 0 < k < p. */
  lemma PrimeDividesBinom(p: nat, k: nat)
    requires IsPrime(p) && 0 < k < p
    ensures Binom(p, k) % p == 0
  {
    BinomAbsorb(p, k);
    assert k * Binom(p, k) == Binom(p - 1, k - 1) * p;
    ModOfMultiple(Binom(p - 1, k - 1), p);
    ModSmall(k, p);
    EuclidLemma(p, k, Binom(p, k));
  }

  /** The partial binomial sum C(n, 0) + C(n, 1) x + ... + C(n, j) x^j. */
  ghost function BinomSum(n: nat, x: int, j: nat): int
    decreases j
  {
    if j == 0 then 1 else BinomSum(n, x, j - 1) + Binom(n, j) * Pow(x, j)
  }

  lemma {:induction false} BinomSumPascal(n: nat, x: int, j: nat)
    requires n >= 1 && j >= 1
    ensures BinomSum(n, x, j) == BinomSum(n - 1, x, j) + x * BinomSum(n - 1, x, j - 1)
    decreases j
  {
    if j == 1 {
      BinomSumPascalFirst(n, x);
    } else {
      BinomSumPascal(n, x, j - 1);
      var s1, s2 := BinomSum(n - 1, x, j - 1), BinomSum(n - 1, x, j - 2);
      var c1, c2 := Binom(n - 1, j - 1), Binom(n - 1, j);
      var y, y1 := Pow(x, j), Pow(x, j - 1);
      assert y == x * y1;
      assert Binom(n, j) == c1 + c2;
      assert BinomSum(n, x, j) == s1 + x * s2 + (c1 + c2) * y;
      assert BinomSum(n - 1, x, j) == s1 + c2 * y;
      assert BinomSum(n - 1, x, j - 1) == s2 + c1 * y1;
      PascalAlgebra(x, s1, s2, c1, c2, y, y1);
    }
  }

  lemma BinomSumPascalFirst(n: nat, x: int)
    requires n >= 1
    ensures BinomSum(n, x, 1) == BinomSum(n - 1, x, 1) + x * BinomSum(n - 1, x, 0)
  {
    calc {
      BinomSum(n, x, 1);
      1 + Binom(n, 1) * x;
      { BinomOne(n); BinomOne(n - 1); }
      1 + Binom(n - 1, 1) * x + x;
    }
  }

  lemma PascalAlgebra(x: int, s1: int, s2: int, c1: int, c2: int, y: int, y1: int)
    requires y == x * y1
    ensures s1 + x * s2 + (c1 + c2) * y == (s1 + c2 * y) + x * (s2 + c1 * y1)
  {
    calc {
      s1 + x * s2 + (c1 + c2) * y;
      s1 + c2 * y + x * s2 + c1 * (x * y1);
      (s1 + c2 * y) + x * (s2 + c1 * y1);
    }
  }

  /** The binomial theorem for (x + 1)^n. */
  lemma {:induction false} BinomialTheorem(n: nat, x: int)
    ensures Pow(x + 1, n) == BinomSum(n, x, n)
    decreases n
  {
    if n > 0 {
      BinomialTheorem(n - 1, x);
      BinomSumPascal(n, x, n);
      var t := BinomSum(n - 1, x, n - 1);
      assert BinomSum(n - 1, x, n) == t by {
        BinomAbove(n - 1, n);
        assert Binom(n - 1, n) * Pow(x, n) == 0;
      }
      assert Pow(x + 1, n) == (x + 1) * t;
      assert (x + 1) * t == t + x * t;
    }
  }

  lemma {:induction false} MiddleTermsVanish(p: nat, x: int, j: nat)
    requires IsPrime(p) && j < p
    ensures BinomSum(p, x, j) % p == 1
    decreases j
  {
    if j == 0 {
      ModSmall(1, p);
    } else {
      MiddleTermsVanish(p, x, j - 1);
      PrimeDividesBinom(p, j);
      var c := Binom(p, j) / p;
      assert Binom(p, j) * Pow(x, j) == (c * Pow(x, j)) * p;
      ModAddMultiple(BinomSum(p, x, j - 1), c * Pow(x, j), p);
    }
  }

  /** Modulo a prime p, (x + 1)^p and x^p + 1 agree. */
  lemma FreshmansDream(p: nat, x: int)
    requires IsPrime(p)
    ensures Pow(x + 1, p) % p == (Pow(x, p) + 1) % p
  {
    BinomialTheorem(p, x);
    BinomDiagonal(p);
    MiddleTermsVanish(p, x, p - 1);
    var s := BinomSum(p, x, p - 1);
    assert Pow(x + 1, p) == s + Pow(x, p);
    assert s == 1 + (s / p) * p;
    ModAddMultiple(Pow(x, p) + 1, s / p, p);
  }

  /** a^p and a agree modulo a prime p, for every a >= 0. */
  lemma {:induction false} FermatPower(p: nat, a: nat)
    requires IsPrime(p)
    ensures Pow(a, p) % p == a % p
    decreases a
  {
    if a == 0 {
      assert Pow(0, p) == 0 * Pow(0, p - 1);
    } else {
      FermatPower(p, a - 1);
      FreshmansDream(p, a - 1);
      CongruenceSuccessor(Pow(a, p), Pow(a - 1, p), a, p);
    }
  }

  /** From B ≡ a - 1 and A ≡ B + 1 modulo m follows A ≡ a. */
  lemma CongruenceSuccessor(A: int, B: int, a: int, m: int)
    requires m > 0 && B % m == (a - 1) % m && A % m == (B + 1) % m
    ensures A % m == a % m
  {
    ModSuccessor(B, a - 1, m);
  }

  /** Congruent numbers have congruent successors. */
  lemma ModSuccessor(x: int, y: int, m: int)
    requires m > 0 && x % m == y % m
    ensures (x + 1) % m == (y + 1) % m
  {
    var r := x % m;
    assert x + 1 == (r + 1) + (x / m) * m;
    assert y + 1 == (r + 1) + (y / m) * m;
    ModAddMultiple(r + 1, x / m, m);
    ModAddMultiple(r + 1, y / m, m);
  }

  /** Fermat's little theorem: a^(p-1) mod p == 1 whenever p is prime and does not divide a. */
  lemma FermatLittle(p: nat, a: nat)
    requires IsPrime(p) && a % p != 0
    ensures Pow(a, p - 1) % p == 1
  {
    FermatPower(p, a);
    assert Pow(a, p) == a * Pow(a, p - 1);
    ModEqualIffDifference(Pow(a, p), a, p);
    assert Pow(a, p) - a == a * (Pow(a, p - 1) - 1);
    EuclidLemma(p, a, Pow(a, p - 1) - 1);
    ModEqualIffDifference(Pow(a, p - 1), 1, p);
    ModSmall(1, p);
  }

  /** Modulo a prime, the only residues whose square is 1 are 1 and p - 1. */
  lemma SquareRootsOfOne(p: nat, x: int)
    requires IsPrime(p) && 0 <= x < p && (x * x) % p == 1
    ensures x == 1 || x == p - 1
  {
    assert x != 0 by {
      ModSmall(0, p);
    }
    ModSmall(1, p);
    ModEqualIffDifference(x * x, 1, p);
    assert x * x - 1 == (x - 1) * (x + 1);
    EuclidLemma(p, x - 1, x + 1);
    ModSmall(x - 1, p);
    if x + 1 < p {
      ModSmall(x + 1, p);
    }
  }
}
