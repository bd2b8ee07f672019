/** `to_binary` of code.py: an integer as a string of binary digits, a
    negative one through the positive value (1 << n.bit_length()) + n. */
module Binary {
  import opened Modular

  /** Python's `int.bit_length` on a non-negative integer: the number of
      binary digits of m, and 0 for m == 0. A positive m has L digits
      exactly when 2^(L-1) <= m < 2^L. */
  function BitLength(m: nat): (L: nat)
    ensures m == 0 ==> L == 0
    ensures m > 0 ==> L >= 1 && Pow(2, L - 1) <= m < Pow(2, L)
    decreases m
  {
    if m == 0 then 0 else 1 + BitLength(m / 2)
  }

  function DigitChar(b: nat): char
    requires b < 2
  {
    if b == 0 then '0' else '1'
  }

  predicate IsBinaryDigits(s: string)
  {
    forall i :: 0 <= i < |s| ==> s[i] == '0' || s[i] == '1'
  }

  /** `bin(m)[2:]`: the binary digits of m, most significant first. They are
      "0" for 0, and otherwise start with 1 and number the bit length of m. */
  function Bin(m: nat): (s: string)
    ensures |s| >= 1 && IsBinaryDigits(s)
    ensures m == 0 ==> s == "0"
    ensures m > 0 ==> s[0] == '1' && |s| == BitLength(m)
    decreases m
  {
    if m < 2 then [DigitChar(m)] else Bin(m / 2) + [DigitChar(m % 2)]
  }

  /** Reading a string of binary digits back as a number (`int(s, 2)`). */
  function FromBinary(s: string): nat
    decreases |s|
  {
    if s == [] then 0
    else 2 * FromBinary(s[..|s| - 1]) + (if s[|s| - 1] == '1' then 1 else 0)
  }

  /** `to_binary`: the digits of n itself when n >= 0, and of
      (1 << n.bit_length()) + n when n < 0. The output is always binary
      digits: "0" for 0, and a string starting with 1 otherwise. */
  function ToBinary(n: int): (s: string)
    ensures |s| >= 1 && IsBinaryDigits(s)
    ensures n == 0 ==> s == "0"
    ensures n != 0 ==> s[0] == '1'
  {
    if n >= 0 then Bin(n)
    else Bin(Pow(2, BitLength(-n)) + n)
  }

  /** Reading the digits back gives m. */
  lemma {:induction false} BinRoundTrip(m: nat)
    ensures FromBinary(Bin(m)) == m
    decreases m
  {
    if m >= 2 {
      BinRoundTrip(m / 2);
      var s := Bin(m / 2) + [DigitChar(m % 2)];
      assert s[..|s| - 1] == Bin(m / 2);
    }
  }

  /** For n >= 0 the output is n's binary digits without the "0b" prefix,
      with no leading zero, and reading it back gives n. */
  lemma NonNegativeRoundTrip(n: int)
    requires n >= 0
    ensures IsBinaryDigits(ToBinary(n))
    ensures FromBinary(ToBinary(n)) == n
    ensures n > 0 ==> ToBinary(n)[0] == '1'
    ensures n == 0 ==> ToBinary(n) == "0"
  {
    BinRoundTrip(n);
  }

  /** For n < 0, with L the bit length of -n, the output is the binary form
      of a value v in [1, 2^(L-1)] that agrees with n modulo 2^L; it has at
      most L digits and starts with 1. */
  lemma NegativeTruncatedComplement(n: int)
    requires n < 0
    ensures var L := BitLength(-n); var v := FromBinary(ToBinary(n));
      L >= 1 && 1 <= v <= Pow(2, L - 1) && (v - n) % Pow(2, L) == 0
      && IsBinaryDigits(ToBinary(n)) && ToBinary(n)[0] == '1' && |ToBinary(n)| <= L
  {
    var L := BitLength(-n);
    var p, h := Pow(2, L), Pow(2, L - 1);
    assert p == 2 * h;
    var v := p + n;
    assert 1 <= v <= h;
    var out := ToBinary(n);
    assert out == Bin(v);
    BinRoundTrip(v);
    assert FromBinary(out) == v;
    BitLengthBelow(v, L);
    assert |out| <= L;
    assert v - n == 1 * p;
    ModOfMultiple(1, p);
    assert (v - n) % p == 0;
  }

  /** A value below 2^L has at most L binary digits. */
  lemma {:induction false} BitLengthBelow(v: nat, L: nat)
    requires v < Pow(2, L)
    ensures BitLength(v) <= L
    decreases v
  {
    if v > 0 {
      assert L >= 1;
      BitLengthBelow(v / 2, L - 1);
    }
  }

  /** The outputs documented next to the calls in code.py, except that -10
      gives "110": the 32-bit string in the comment is not what the code
      computes. -10 and 6 share that output, as do -1 and 1. */
  lemma DocumentedValues()
    ensures ToBinary(10) == "1010"
    ensures ToBinary(0) == "0"
    ensures ToBinary(255) == "11111111"
    ensures ToBinary(-1) == "1"
    ensures ToBinary(-10) == "110" == ToBinary(6)
    ensures ToBinary(-1) == ToBinary(1)
  {
    assert Bin(3) == "11";
    assert Bin(7) == "111";
    assert Bin(15) == "1111";
    assert Bin(31) == "11111";
    assert Bin(63) == "111111";
    assert Bin(127) == "1111111";
    assert Bin(255) == "11111111";
    assert Bin(5) == "101";
    assert Bin(10) == "1010";
    assert Bin(6) == "110";
  }
}
