/** The sandbox offers several testers for the same question; run on the
    same n they agree, and Miller–Rabin errs only towards "probably prime". */
module Agreement {
  import opened Primes
  import opened TrialDivision
  import opened MillerRabin

  /** All four deterministic testers give the same answer, Miller–Rabin
      answers True whenever they do, whatever bases it draws, and a False
      from Miller–Rabin is matched by a False from each of them. */
  method CompareTesters(n: int, witnesses: seq<int>)
      returns (naive: bool, oddOnly: bool, sixK: bool, sixKBounded: bool, millerRabin: bool)
    requires n > 3 && n % 2 == 1 ==> ValidWitnesses(n, witnesses)
    ensures naive == oddOnly && oddOnly == sixK && sixK == sixKBounded
    ensures sixK ==> millerRabin
    ensures !millerRabin ==> !naive && !oddOnly && !sixKBounded
  {
    naive := IsPrimeNaive(n);
    oddOnly := IsPrimeOddDivisors(n);
    sixK := IsPrimeSixK(n);
    sixKBounded := IsPrimeSixKBounded(n);
    millerRabin := IsPrimeMillerRabin(n, witnesses);
  }
}
