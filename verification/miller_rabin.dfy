/** The Miller–Rabin test of the sandbox (`is_prime_miller_rabin` in
    code_3.py, `miller_rabin` in code_2.py and code_5.py). The random bases
    are drawn by the caller: the test receives them as a sequence, one per
    round, so the number of rounds k is the length of that sequence. */
module MillerRabin {
  import opened Modular
  import opened Primes
  import opened Fermat

  /** m == s * 2^r with s odd: the (r, s) left by halving m while it is even. */
  function Decompose(m: nat): (rs: (nat, nat))
    requires m > 0
    ensures m == rs.1 * Pow(2, rs.0) && rs.1 % 2 == 1
    ensures rs.0 >= 1 <==> m % 2 == 0
    decreases m
  {
    if m % 2 == 1 then (0, m)
    else
      var rs' := Decompose(m / 2);
      (rs'.0 + 1, rs'.1)
  }

  /** The decomposition is unique: any odd s and r with m == s * 2^r are
      the ones Decompose finds. */
  lemma {:induction false} DecomposeUnique(m: nat, r: nat, s: nat)
    requires m > 0 && m == s * Pow(2, r) && s % 2 == 1
    ensures Decompose(m) == (r, s)
    decreases r
  {
    if r > 0 {
      PowPositive(2, r - 1);
      var h := s * Pow(2, r - 1);
      assert m == h * 2;
      ModOfMultiple(h, 2);
      DecomposeUnique(h, r - 1, s);
      assert Decompose(m) == (Decompose(h).0 + 1, Decompose(h).1);
    } else {
      assert m == s;
    }
  }

  /** Every base the caller supplies lies where `random.randrange(2, n - 1)`
      draws it: in [2, n - 2]. */
  predicate ValidWitnesses(n: int, witnesses: seq<int>)
  {
    forall i :: 0 <= i < |witnesses| ==> 2 <= witnesses[i] <= n - 2
  }

  /** a^(s * 2^j) mod n: the value x holds after j squarings in a round. */
  ghost function Chain(n: int, a: int, s: nat, j: nat): int
    requires n > 0
  {
    PowPositive(2, j);
    Pow(a, s * Pow(2, j)) % n
  }

  lemma ChainStep(n: int, a: int, s: nat, j: nat)
    requires n > 0
    ensures Chain(n, a, s, j + 1) == Chain(n, a, s, j) * Chain(n, a, s, j) % n
  {
    PowPositive(2, j);
    var e := s * Pow(2, j);
    assert s * Pow(2, j + 1) == 2 * e;
    PowSquare(a, e);
    ModMul(Pow(a, e), Pow(a, e), n);
  }

  /** a is a strong-probable-prime base for n, where n - 1 == s * 2^r:
      a^s mod n is 1, or a^(s * 2^j) mod n is n - 1 for some j < r. */
  ghost predicate StrongBase(n: int, s: nat, r: nat, a: int)
    requires n > 0
  {
    Chain(n, a, s, 0) == 1 || exists j :: 0 <= j < r && Chain(n, a, s, j) == n - 1
  }

  /** What the test answers for n when its rounds draw the given bases. */
  ghost predicate MillerRabinSpec(n: int, witnesses: seq<int>)
  {
    if n <= 1 then false
    else if n <= 3 then true
    else if n % 2 == 0 then false
    else
      var rs := Decompose(n - 1);
      forall i :: 0 <= i < |witnesses| ==> StrongBase(n, rs.1, rs.0, witnesses[i])
  }

  /** The squarings of a round, read backwards from a 1 at step t: either the
      round started at 1, or the value just before the first 1 is n - 1, since
      modulo a prime the only square roots of 1 are 1 and n - 1. */
  lemma {:induction false} ChainBackFromOne(p: int, a: int, s: nat, t: nat)
    requires IsPrime(p) && Chain(p, a, s, t) == 1
    ensures Chain(p, a, s, 0) == 1 || exists j :: 0 <= j < t && Chain(p, a, s, j) == p - 1
    decreases t
  {
    if t > 0 {
      var y := Chain(p, a, s, t - 1);
      ChainStep(p, a, s, t - 1);
      SquareRootsOfOne(p, y);
      if y != p - 1 {
        ChainBackFromOne(p, a, s, t - 1);
      }
    }
  }

  /** Every base a in [1, p - 1] is a strong-probable-prime base of a prime p. */
  lemma PrimeHasNoStrongWitness(p: int, s: nat, r: nat, a: int)
    requires IsPrime(p) && p - 1 == s * Pow(2, r) && 0 < a < p
    ensures StrongBase(p, s, r, a)
  {
    ModSmall(a, p);
    FermatLittle(p, a);
    ChainBackFromOne(p, a, s, r);
  }

  /** The one-sided guarantee: for a prime n every sequence of bases is
      answered True, so a False answer proves n composite. */
  lemma MillerRabinSound(n: int, witnesses: seq<int>)
    requires n > 3 && n % 2 == 1 ==> ValidWitnesses(n, witnesses)
    ensures IsPrime(n) ==> MillerRabinSpec(n, witnesses)
  {
    if IsPrime(n) && n > 3 && n % 2 == 1 {
      var rs := Decompose(n - 1);
      forall i | 0 <= i < |witnesses|
        ensures StrongBase(n, rs.1, rs.0, witnesses[i])
      {
        PrimeHasNoStrongWitness(n, rs.1, rs.0, witnesses[i]);
      }
    }
    if n > 3 && n % 2 == 0 {
      DivisorMeansComposite(2, n);
    }
  }

  /** Rounds are independent: the answer for two batches of bases is True
      exactly when each batch alone is answered True, so more rounds never
      turn a False into a True. */
  lemma RoundsCompose(n: int, first: seq<int>, second: seq<int>)
    ensures MillerRabinSpec(n, first + second) <==> MillerRabinSpec(n, first) && MillerRabinSpec(n, second)
  {
    if n > 3 && n % 2 == 1 {
      var rs := Decompose(n - 1);
      var all := first + second;
      if MillerRabinSpec(n, first) && MillerRabinSpec(n, second) {
        forall i | 0 <= i < |all|
          ensures StrongBase(n, rs.1, rs.0, all[i])
        {
          if i >= |first| {
            assert all[i] == second[i - |first|];
          }
        }
      }
      if MillerRabinSpec(n, all) {
        forall i | 0 <= i < |first|
          ensures StrongBase(n, rs.1, rs.0, first[i])
        {
          assert first[i] == all[i];
        }
        forall i | 0 <= i < |second|
          ensures StrongBase(n, rs.1, rs.0, second[i])
        {
          assert second[i] == all[|first| + i];
        }
      }
    }
  }

  /** One round for base a: x = pow(a, s, n); 1 or n - 1 passes; otherwise
      square x up to r - 1 times and pass as soon as it reaches n - 1; a
      round that never reaches n - 1 proves n composite. */
  method WitnessRound(n: int, s: nat, r: nat, a: int) returns (passes: bool)
    requires n > 1 && r >= 1
    ensures passes == StrongBase(n, s, r, a)
  {
    var x := ModPow(a, s, n);
    assert x == Chain(n, a, s, 0);
    if x == 1 || x == n - 1 {
      return true;
    }
    var j := 1;
    while j < r
      invariant 1 <= j <= r
      invariant 0 <= x < n && x == Chain(n, a, s, j - 1)
      invariant forall t :: 0 <= t < j ==> Chain(n, a, s, t) != n - 1
    {
      x := ModPow(x, 2, n);
      ChainStep(n, a, s, j - 1);
      if x == n - 1 {
        return true;
      }
      j := j + 1;
    }
    return false;
  }

  /** The whole test: the guards, the halving loop that writes n - 1 as
      s * 2^r, then one round per base, stopping at the first base that
      proves n composite. */
  method IsPrimeMillerRabin(n: int, witnesses: seq<int>) returns (probablyPrime: bool)
    requires n > 3 && n % 2 == 1 ==> ValidWitnesses(n, witnesses)
    ensures probablyPrime == MillerRabinSpec(n, witnesses)
    ensures IsPrime(n) ==> probablyPrime
    ensures n <= 1 ==> !probablyPrime
    ensures n == 2 || n == 3 ==> probablyPrime
    ensures n > 3 && n % 2 == 0 ==> !probablyPrime
    ensures !probablyPrime && n > 3 && n % 2 == 1 ==>
      exists i :: 0 <= i < |witnesses| && !StrongBase(n, Decompose(n - 1).1, Decompose(n - 1).0, witnesses[i])
  {
    MillerRabinSound(n, witnesses);
    if n <= 1 {
      return false;
    }
    if n <= 3 {
      return true;
    }
    if n % 2 == 0 {
      return false;
    }
    var r: nat, s: nat := 0, n - 1;
    while s % 2 == 0
      invariant s > 0
      invariant Decompose(n - 1) == (Decompose(s).0 + r, Decompose(s).1)
      decreases s
    {
      r := r + 1;
      s := s / 2;
    }
    assert (r, s) == Decompose(n - 1);
    for k := 0 to |witnesses|
      invariant forall i :: 0 <= i < k ==> StrongBase(n, s, r, witnesses[i])
    {
      var passes := WitnessRound(n, s, r, witnesses[k]);
      if !passes {
        return false;
      }
    }
    return true;
  }

  /** The answers printed by the Miller–Rabin examples, for any bases the
      rounds may draw: 2 and 97 are probably prime, 10 and 1000000008 are
      composite. */
  lemma ExamplesOfAnswers(witnesses: seq<int>)
    requires ValidWitnesses(97, witnesses)
    ensures MillerRabinSpec(2, witnesses)
    ensures MillerRabinSpec(97, witnesses)
    ensures !MillerRabinSpec(10, witnesses)
    ensures !MillerRabinSpec(1000000008, witnesses)
  {
    assert IsPrime(97) by {
      SixKCertificateFrom5(97, 10);
    }
    MillerRabinSound(97, witnesses);
  }

  /** A round does catch odd composites: for n = 9, n - 1 = 1 * 2^3, and base
      2 runs through 2, 4, 7 without meeting 1 or 8. */
  lemma BaseTwoExposesNine()
    ensures !MillerRabinSpec(9, [2])
  {
    assert Decompose(8) == (3, 1);
    assert Chain(9, 2, 1, 0) == 2;
    assert Chain(9, 2, 1, 1) == 4;
    assert Chain(9, 2, 1, 2) == 7;
    forall j | 0 <= j < 3
      ensures Chain(9, 2, 1, j) != 8
    {
      assert j == 0 || j == 1 || j == 2;
    }
    var rs := Decompose(9 - 1);
    assert !StrongBase(9, rs.1, rs.0, [2][0]);
  }
}
