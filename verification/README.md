# Primality testers and `to_binary` of the backend sandbox

The backend sandbox of this repository holds several small Python programs.
Each one is a code block inside a Markdown answer:

- **6m ± 1 trial division.** `is_prime` in `code_2.py`, `code_4.py` and
  `code_5.py`, and `is_prime_basic` in `code_3.py`. The program rejects
  n <= 1, accepts 2 and 3, and rejects multiples of 2 and 3. It then tries
  i and i + 2 for i = 5, 11, 17, ... while i * i <= n. `is_prime_optimized`
  in `code_4.py` does the same scan with a `for` loop bounded by
  `int(math.sqrt(n)) + 1`.
- **Plain trial division** in `code_1.py`. `is_prime_basic` tries every
  divisor in [2, n). `is_prime_optimized` handles 2 and even numbers first,
  then tries the odd divisors up to the square root.
- **The Miller–Rabin test.** This is `is_prime_miller_rabin` in `code_3.py`
  with k = 5 rounds, and `miller_rabin` in `code_2.py` and `code_5.py` with
  k = 40. It writes n − 1 as s · 2^r with s odd. Each round draws a base `a`
  and computes `pow(a, s, n)`. It then squares up to r − 1 times, looking
  for n − 1.
- **`to_binary`** in `code.py`. A non-negative n becomes `bin(n)[2:]`. A
  negative n becomes the digits of `(1 << n.bit_length()) + n`.

The 6m ± 1 `while` loop appears four times, identically. It is modelled once,
as `TrialDivision.IsPrimeSixK`. The Miller–Rabin body appears three times,
also identically. It is modelled once, as `MillerRabin.IsPrimeMillerRabin`.

## How the model is built

- **The testers are methods with the same loops as the Python.** Each
  trial-division tester is proved to return exactly `Primes.IsPrime(n)`,
  meaning n >= 2 and no d in [2, n) divides n. The Miller–Rabin method is
  proved equal to its own specification, described next, which a composite
  can satisfy for some bases.
- **Random bases become a parameter.** `random.randrange(2, n - 1)` is
  replaced by a sequence of bases supplied by the caller, each in
  [2, n − 2]. The number of rounds k is the length of that sequence.
- **Miller–Rabin is compared with a specification predicate.** The method
  `IsPrimeMillerRabin` is proved equal to `MillerRabinSpec`: every base
  passes the round condition for the decomposition of n − 1.
- **The one-sided guarantee is proved from first principles.** For a prime
  n, every base in [1, n − 1] passes. The proof, in `fermat.dfy`, goes
  through Euclid's lemma, the binomial theorem, Fermat's little theorem and
  the square roots of 1 modulo a prime. So a False answer proves n
  composite.
- **`pow(b, e, m)` is one pure function, `Modular.ModPow`.** All the
  Miller–Rabin copies share it.
- **`int(math.sqrt(n))` is the integer floor square root**
  `Primes.FloorSqrt`.
- **`to_binary` is a function on Dafny integers.** `bin` is modelled as the
  recursive digit function `Binary.Bin`, and `int.bit_length` as
  `Binary.BitLength`.

## Model

| member | source | states |
|---|---|---|
| TrialDivision.IsPrimeSixK | backend/sandbox/code_3.py:8-28 | The 6m ± 1 scan answers exactly whether n is prime. It answers False for n <= 1 and True for 2 and 3. For n > 3 it answers False when 2 or 3 divides n. The loop keeps i ≡ 5 (mod 6) with no divisor of n in [2, i). |
| TrialDivision.IsPrimeSixKBounded | backend/sandbox/code_4.py:41-52 | The `for` form of the scan, bounded by the floor square root plus 1, answers exactly whether n is prime. Its guards are those of the `while` form. |
| TrialDivision.IsPrimeNaive | backend/sandbox/code_1.py:8-15 | Trying every i in [2, n) answers exactly whether n is prime. It answers False for n <= 1. |
| TrialDivision.IsPrimeOddDivisors | backend/sandbox/code_1.py:30-41 | The odd-only scan answers exactly whether n is prime. It answers False for n <= 1, True for 2, and False for even n > 2. The loop keeps i odd with no divisor of n in [2, i). |
| TrialDivision.ExamplesCode5 | backend/sandbox/code_5.py:26-42 | 1000003, 2 and 3 are prime. 1000004, 1 and 4 are not. These are the answers the examples print. |
| TrialDivision.ExamplesCode2 | backend/sandbox/code_2.py:26-28 | 2 and 97 are prime and 10 is not, as the examples print. |
| TrialDivision.ExamplesCode3 | backend/sandbox/code_3.py:31-41 | 17 is prime and 20 is not. |
| TrialDivision.ExamplesCode1 | backend/sandbox/code_1.py:18-20 | 2 and 97 are prime and 15 is not, as the examples print. |
| Agreement.CompareTesters | backend/sandbox/code_1.py:8-41 | On the same n, the naive, odd-only, `while` 6m ± 1 and `for` 6m ± 1 testers give the same answer. Miller–Rabin answers True whenever they do, and its False is never contradicted by them. |
| Primes.PrimeIffOnlyTrivialDivisors | backend/sandbox/code_3.py:14-15 | The primality used throughout is the usual one: n >= 2 and the only positive divisors of n are 1 and n. |
| Primes.NoSmallDivisorMeansPrime | backend/sandbox/code_3.py:24-28 | When the scan stops with i * i > n and no divisor in [2, i), n is prime. A divisor at or above i would leave a cofactor below i. |
| Primes.SixKStride | backend/sandbox/code_3.py:25-27 | Suppose n is prime to 2 and 3, i = 6m + 5, and neither i nor i + 2 divides n. Then no divisor of n lies below i + 6. |
| Primes.OddStride | backend/sandbox/code_1.py:38-40 | Suppose n is odd and the odd i does not divide n. Then no divisor of n lies below i + 2. |
| Primes.SmallFactorMeansComposite | backend/sandbox/code_3.py:21-22 | A number above 3 that 2 or 3 divides is not prime, so the early False is correct. |
| Primes.NoDivisorBelowFive | backend/sandbox/code_3.py:23 | A number prime to 2 and 3 has no divisor in [2, 5), so the scan may start at i = 5. |
| Primes.SixKCandidates | backend/sandbox/code_3.py:24-27 | One pass of the loop body with i * i <= n. Both candidates lie below n. If i or i + 2 divides n, then n is not prime. Otherwise no divisor is left below i + 6, and i + 6 ≡ 5 (mod 6). |
| Primes.OddCandidate | backend/sandbox/code_1.py:38-40 | One pass of the odd-only loop with i * i <= n. If i divides n, then n is not prime. Otherwise no divisor is left below i + 2, and i + 2 is odd. |
| Primes.SixKCertificate | backend/sandbox/code_5.py:18-23 | Suppose no 6m ± 1 candidate from i up to a bound hi with hi * hi > n divides n, and n is prime to 2, 3 and everything below i. Then n is prime. |
| Primes.SixKCertificateFrom5 | backend/sandbox/code_2.py:18-23 | The same certificate started where the scan starts, at i = 5. |
| Primes.FloorSqrt | backend/sandbox/code_4.py:49 | The bound `int(math.sqrt(n))` as an integer r with r * r <= n < (r + 1) * (r + 1). |
| Primes.FloorSqrtCompare | backend/sandbox/code_1.py:38 | For the floor square root r of n, i <= r holds exactly when i * i <= n. So a range bounded by r + 1 visits the same i as `while i * i <= n`. |
| Primes.CandidateBelow | backend/sandbox/code_4.py:50 | A candidate i >= 3 with i * i <= n satisfies i + 2 < n. So both candidates i and i + 2 lie strictly below n. |
| Modular.ModPow | backend/sandbox/code_3.py:76-80 | `pow(b, e, m)` gives a value in [0, m) equal to b^e mod m. |
| MillerRabin.Decompose | backend/sandbox/code_5.py:63-66 | The halving loop's result satisfies m == s · 2^r with s odd. r >= 1 holds exactly when m is even, so r >= 1 for odd n >= 5. |
| MillerRabin.DecomposeUnique | backend/sandbox/code_2.py:50-53 | Any r and odd s with m == s · 2^r are the ones the halving finds. |
| MillerRabin.WitnessRound | backend/sandbox/code_2.py:57-65 | One round passes exactly when a^s mod n is 1, or a^(s·2^j) mod n is n − 1 for some j < r. The loop keeps x in [0, n) and equal to a^(s·2^(j−1)) mod n, with no n − 1 met so far. |
| MillerRabin.IsPrimeMillerRabin | backend/sandbox/code_3.py:52-85 | The test answers exactly MillerRabinSpec. That is False for n <= 1, True for 2 and 3, False for even n > 3, and otherwise True exactly when every base passes its round. A prime n gets True. When it answers False for an odd n > 3, some base failed its round. |
| MillerRabin.MillerRabinSound | backend/sandbox/code_3.py:74-85 | For bases in [2, n − 2], a prime n is answered True by every sequence of bases. A False answer therefore means n is composite. |
| MillerRabin.PrimeHasNoStrongWitness | backend/sandbox/code_5.py:68-76 | For a prime p with p − 1 == s · 2^r, every base a in [1, p − 1] passes the round. |
| MillerRabin.ChainBackFromOne | backend/sandbox/code_3.py:79-82 | Modulo a prime, suppose a squaring sequence reaches 1 at step t. Then either it started at 1, or it held p − 1 at some step before t. |
| MillerRabin.ChainStep | backend/sandbox/code_5.py:73-74 | One `pow(x, 2, n)` turns a^(s·2^j) mod n into a^(s·2^(j+1)) mod n. |
| MillerRabin.RoundsCompose | backend/sandbox/code_5.py:68-78 | Two batches of bases together are answered True exactly when each batch alone is. So once a base fails, no later base can change the answer. |
| MillerRabin.ExamplesOfAnswers | backend/sandbox/code_2.py:70-72 | For every admissible sequence of bases, 2 and 97 are answered True and 10 is answered False. |
| MillerRabin.BaseTwoExposesNine | backend/sandbox/code_2.py:60-65 | A round does reject odd composites. For n = 9 and base 2, the values 2, 4, 7 never meet 1 or 8, so the answer is False. |
| Fermat.FermatLittle | backend/sandbox/code_3.py:76 | For a prime p not dividing a, a^(p−1) mod p == 1. |
| Fermat.SquareRootsOfOne | backend/sandbox/code_3.py:80-81 | Modulo a prime p, the only x in [0, p) with x² mod p == 1 are 1 and p − 1. |
| Binary.ToBinary | backend/sandbox/code.py:1-8 | The output of `to_binary` holds only '0' and '1' and is never empty. It is "0" for 0, and for every other n, negative or not, it starts with '1'. Its value is pinned down by the two lemmas below. |
| Binary.BitLength | backend/sandbox/code.py:7 | `m.bit_length()` is 0 for 0. For m > 0 it is the L >= 1 with 2^(L−1) <= m < 2^L. |
| Binary.Bin | backend/sandbox/code.py:4 | `bin(m)[2:]` is never empty and holds only '0' and '1'. It is "0" for 0. For m > 0 it starts with '1' and has bit-length many digits. |
| Binary.BinRoundTrip | backend/sandbox/code.py:8 | Reading the digits of `bin(m)[2:]` back in base 2 gives m. |
| Binary.NonNegativeRoundTrip | backend/sandbox/code.py:3-4 | For n >= 0 the output is n's binary digits with no "0b" prefix and no leading zero. Reading it back in base 2 gives n. |
| Binary.NegativeTruncatedComplement | backend/sandbox/code.py:5-8 | Let n < 0 and L = bit length of −n. The output is the binary form of a value v in [1, 2^(L−1)] with v ≡ n (mod 2^L). It holds only binary digits, starts with '1' and has at most L digits. |
| Binary.DocumentedValues | backend/sandbox/code.py:11-15 | 10 gives "1010", 0 gives "0", 255 gives "11111111" and −1 gives "1". −10 gives "110", the same as 6, and −1 gives the same as 1. |

## Left out

- The sympy variants are left out, because `sympy.isprime` is a foreign library call (`code_1.py`, `code_4.py`).
- `input()` and every `print` are left out. The printed values appear only as the documented-value lemmas.
- The frontend (`App.jsx`, `TestUI.jsx`, `vite.config.js`) is not part of this model. It is UI and build configuration.
- Randomness is left out. `random.randrange(2, n - 1)` becomes a caller-supplied sequence of bases, and the default k (5 or 40) becomes its length.
- The probability of error and the claim that more rounds improve accuracy are left out. The model proves only the exact one-sided guarantee.
- TrialDivision.IsPrimeSixKBounded: it uses the exact floor square root where `int(math.sqrt(n))` at `code_4.py:49` goes through a float, and its `prime == IsPrime(n)` holds only for that exact root. Two float behaviours are not reproduced:
  - For n beyond 2^52 the float root can be off by one. A root that falls short of p for a composite p² with a prime p leaves p untested, and the source can then answer True.
  - For n from about 2^1024 on the conversion to float fails, and `math.sqrt` raises `OverflowError`. For example, n = 10^400 + 1 passes the guards for 2 and 3, and then the source raises, while the model returns `IsPrime(n)`.
- TrialDivision.IsPrimeOddDivisors: it uses the exact floor square root in place of `int(math.sqrt(n))` at `code_1.py:38`, so the same two float behaviours are not reproduced. An undershooting root can make the source answer True for a composite p², and n from about 2^1024 on raises `OverflowError` after the guard for even n. The model's `prime == IsPrime(n)` holds for the exact root only.
- The testers work on unbounded integers, as Python's do. Python's errors for non-integer arguments are outside the model.
- Modular.ModPow: it requires m > 0, where Python raises an error for modulus 0. Every call in the Miller–Rabin test passes n >= 5.
- 1000000007 is not certified prime, so the examples that print True for it are not proved. These are at `code_1.py:47`, `code_2.py:29` and `code_2.py:73`, `code_3.py:89` and `code_5.py:82`. Its certificate would need about 5270 strides, which is beyond the stride-by-stride evaluation used for 1000003. `MillerRabinSound` still gives True for it under every admissible sequence of bases, provided it is prime.
- The comment at `code_2.py:74` calls 1000000009 composite, but 10^9 + 9 is prime. The code would therefore answer True. The comment is not encoded.
- The comment at `code.py:12` shows a 32-bit string for −10. The code computes `(1 << 4) − 10 = 6` and prints "110", which is what the model states.
- `is_prime` in `code_4.py:8-21` is the same `while` loop as `code_3.py:8-28`. It is modelled by `IsPrimeSixK`, and so are the copies in `code_2.py:10-23` and `code_5.py:10-23`.
