/** Integer powers and remainder arithmetic, and the modular exponentiation
    (Python's three-argument `pow`) shared by every Miller–Rabin variant. */
module Modular {

  /** b raised to the power e, the reference for every power below. */
  function Pow(b: int, e: nat): int
    decreases e
  {
    if e == 0 then 1 else b * Pow(b, e - 1)
  }

  lemma MulAtLeast(k: int, m: int)
    requires k >= 1 && m > 0
    ensures k * m >= m
  {
    assert k * m == (k - 1) * m + m;
  }

  lemma MulMonotone(a: int, b: int, c: int)
    requires a <= b && c >= 0
    ensures a * c <= b * c
  {
    assert b * c == a * c + (b - a) * c;
  }

  lemma MulCancelLess(x: int, y: int, d: int)
    requires d > 0 && x * d < y * d
    ensures x < y
  {
    if y <= x {
      MulMonotone(y, x, d);
    }
  }

  /** Quotient and remainder by a positive modulus are unique. */
  lemma ModUnique(a: int, m: int, q: int, r: int)
    requires m > 0 && a == q * m + r && 0 <= r < m
    ensures a % m == r && a / m == q
  {
    var q0, r0 := a / m, a % m;
    assert a == q0 * m + r0;
    assert (q - q0) * m == r0 - r;
    if q0 < q {
      MulAtLeast(q - q0, m);
    } else if q < q0 {
      MulAtLeast(q0 - q, m);
    }
  }

  lemma ModAddMultiple(a: int, k: int, m: int)
    requires m > 0
    ensures (a + k * m) % m == a % m
  {
    assert a + k * m == (a / m + k) * m + a % m;
    ModUnique(a + k * m, m, a / m + k, a % m);
  }

  lemma ModOfMultiple(k: int, m: int)
    requires m > 0
    ensures (k * m) % m == 0
  {
    ModUnique(k * m, m, k, 0);
  }

  lemma ModSmall(a: int, m: int)
    requires 0 <= a < m
    ensures a % m == a
  {
    ModUnique(a, m, 0, a);
  }

  /** Two numbers have the same remainder exactly when their difference is a multiple. */
  lemma ModEqualIffDifference(x: int, y: int, m: int)
    requires m > 0
    ensures x % m == y % m <==> (x - y) % m == 0
  {
    var qx, rx := x / m, x % m;
    var qy, ry := y / m, y % m;
    if rx == ry {
      assert x - y == (qx - qy) * m + 0;
      ModUnique(x - y, m, qx - qy, 0);
    }
    if (x - y) % m == 0 {
      var c := (x - y) / m;
      assert x == y + c * m;
      ModAddMultiple(y, c, m);
    }
  }

  lemma ModMul(a: int, b: int, m: int)
    requires m > 0
    ensures (a * b) % m == ((a % m) * (b % m)) % m
  {
    var qa, ra := a / m, a % m;
    var qb, rb := b / m, b % m;
    var k := qa * qb * m + qa * rb + ra * qb;
    calc {
      a * b;
      (qa * m + ra) * (qb * m + rb);
      qa * m * (qb * m + rb) + ra * (qb * m + rb);
      qa * m * qb * m + qa * m * rb + ra * qb * m + ra * rb;
      ra * rb + k * m;
    }
    ModAddMultiple(ra * rb, k, m);
  }

  lemma ModMulLeft(a: int, b: int, m: int)
    requires m > 0
    ensures (a * b) % m == ((a % m) * b) % m
  {
    ModMul(a, b, m);
    ModMul(a % m, b, m);
    ModSmall(a % m, m);
  }

  lemma {:induction false} PowAdd(b: int, e1: nat, e2: nat)
    ensures Pow(b, e1 + e2) == Pow(b, e1) * Pow(b, e2)
    decreases e1
  {
    if e1 > 0 {
      PowAdd(b, e1 - 1, e2);
      assert Pow(b, e1 + e2) == b * Pow(b, e1 - 1 + e2);
    }
  }

  lemma {:induction false} PowMul(b: int, e1: nat, e2: nat)
    ensures Pow(b, e1 * e2) == Pow(Pow(b, e1), e2)
    decreases e2
  {
    if e2 > 0 {
      PowMul(b, e1, e2 - 1);
      assert e1 * e2 == e1 + e1 * (e2 - 1);
      PowAdd(b, e1, e1 * (e2 - 1));
    }
  }

  lemma PowSquare(b: int, e: nat)
    ensures Pow(b * b, e) == Pow(b, 2 * e)
    ensures Pow(b, 2 * e) == Pow(b, e) * Pow(b, e)
  {
    PowMul(b, 2, e);
    PowAdd(b, e, e);
  }

  lemma {:induction false} PowPositive(b: int, e: nat)
    requires b > 0
    ensures Pow(b, e) > 0
    decreases e
  {
    if e > 0 {
      PowPositive(b, e - 1);
    }
  }

  /** Reducing the base first does not change the power's remainder. */
  lemma {:induction false} PowMod(b: int, e: nat, m: int)
    requires m > 0
    ensures Pow(b % m, e) % m == Pow(b, e) % m
    decreases e
  {
    if e > 0 {
      PowMod(b, e - 1, m);
      calc {
        Pow(b % m, e) % m;
        ((b % m) * Pow(b % m, e - 1)) % m;
        { ModMul(b % m, Pow(b % m, e - 1), m); ModSmall(b % m, m); }
        ((b % m) * (Pow(b % m, e - 1) % m)) % m;
        ((b % m) * (Pow(b, e - 1) % m)) % m;
        { ModMul(b, Pow(b, e - 1), m); }
        (b * Pow(b, e - 1)) % m;
      }
    }
  }

  lemma ModPowStep(b: int, e: nat, m: int, half: int)
    requires m > 0 && e > 0
    requires half == Pow(b * b % m, e / 2) % m
    ensures (if e % 2 == 0 then half else half * (b % m) % m) == Pow(b, e) % m
  {
    PowMod(b * b, e / 2, m);
    PowSquare(b, e / 2);
    if e % 2 == 1 {
      assert e == 2 * (e / 2) + 1;
      PowAdd(b, 2 * (e / 2), 1);
      ModMul(Pow(b, 2 * (e / 2)), b, m);
      ModSmall(b % m, m);
      ModMul(half, b % m, m);
      ModSmall(half, m);
    }
  }

  /** Square-and-multiply exponentiation (Python's `pow(b, e, m)`): every
      intermediate is reduced modulo m, and the result is b^e mod m. */
  function ModPow(b: int, e: nat, m: int): (r: int)
    requires m > 0
    ensures 0 <= r < m
    ensures r == Pow(b, e) % m
    decreases e
  {
    if e == 0 then 1 % m
    else
      var half := ModPow(b * b % m, e / 2, m);
      ModPowStep(b, e, m, half);
      if e % 2 == 0 then half else half * (b % m) % m
  }
}
