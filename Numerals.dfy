/**
 * Digit strings: Python's `str(n)` and `'{:b}'.format(n)` for non-negative
 * integers, the values of digit strings, and the `,` thousands grouping of
 * the format mini-language.
 */
module Numerals {
  import opened DigitalChannels

  predicate IsDigit(c: char)
  {
    '0' <= c <= '9'
  }

  function DigitValue(c: char): nat
    requires IsDigit(c)
  {
    c as int - '0' as int
  }

  function DigitChar(d: nat): (c: char)
    requires d < 10
    ensures IsDigit(c) && DigitValue(c) == d
  {
    ('0' as int + d) as char
  }

  predicate AllDigits(s: string)
  {
    forall i :: 0 <= i < |s| ==> IsDigit(s[i])
  }

  /** The value of a decimal digit string, read most significant digit first. */
  function DigitsValue(s: string): nat
    requires AllDigits(s)
    decreases |s|
  {
    if s == [] then 0 else 10 * DigitsValue(s[..|s| - 1]) + DigitValue(s[|s| - 1])
  }

  function Zeros(n: nat): (z: string)
    ensures |z| == n && AllDigits(z)
  {
    seq(n, _ => '0')
  }

  /** `str(n)` for `n >= 0`. */
  function Decimal(n: nat): (r: string)
    ensures |r| >= 1 && AllDigits(r)
  {
    if n < 10 then [DigitChar(n)] else Decimal(n / 10) + [DigitChar(n % 10)]
  }

  function Pow10(k: nat): nat
  {
    if k == 0 then 1 else 10 * Pow10(k - 1)
  }

  lemma {:induction false} DecimalValue(n: nat)
    ensures DigitsValue(Decimal(n)) == n
  {
    if n >= 10 {
      DecimalValue(n / 10);
      assert Decimal(n)[..|Decimal(n)| - 1] == Decimal(n / 10);
    }
  }

  /** `str(n)` has no leading zero except for zero itself. */
  lemma {:induction false} DecimalNoLeadingZero(n: nat)
    ensures (Decimal(n)[0] == '0') == (n == 0)
  {
    if n >= 10 {
      DecimalNoLeadingZero(n / 10);
    }
  }

  /** `str(n)` has at most `k` digits exactly when `n < 10^k`. */
  lemma {:induction false} DecimalLength(n: nat, k: nat)
    requires k >= 1
    ensures |Decimal(n)| <= k <==> n < Pow10(k)
    decreases k
  {
    if k > 1 {
      if n >= 10 {
        DecimalLength(n / 10, k - 1);
      } else {
        Pow10Positive(k - 1);
      }
    }
  }

  lemma {:induction false} Pow10Positive(k: nat)
    ensures Pow10(k) >= 1
  {
    if k > 0 {
      Pow10Positive(k - 1);
    }
  }

  lemma {:induction false} AppendDigit(s: string, c: char)
    requires AllDigits(s) && IsDigit(c)
    ensures AllDigits(s + [c]) && DigitsValue(s + [c]) == 10 * DigitsValue(s) + DigitValue(c)
  {
    assert (s + [c])[..|s|] == s;
  }

  /** Leading zeros do not change the value of a digit string. */
  lemma {:induction false} LeadingZerosValue(z: nat, s: string)
    requires AllDigits(s)
    ensures AllDigits(Zeros(z) + s) && DigitsValue(Zeros(z) + s) == DigitsValue(s)
    decreases |s| + z
  {
    if s == [] {
      assert Zeros(z) + s == Zeros(z);
      if z > 0 {
        assert Zeros(z)[..z - 1] == Zeros(z - 1);
        LeadingZerosValue(z - 1, []);
        assert Zeros(z - 1) + [] == Zeros(z - 1);
      }
    } else {
      var init := s[..|s| - 1];
      LeadingZerosValue(z, init);
      assert (Zeros(z) + s)[..|Zeros(z) + s| - 1] == Zeros(z) + init;
    }
  }

  /** The `,` option: a separator between groups of three digits, from the right. */
  function Grouped(s: string): (r: string)
    ensures |s| <= 3 ==> r == s
    ensures |s| > 3 ==> ',' in r
    decreases |s|
  {
    if |s| <= 3 then s else Grouped(s[..|s| - 3]) + "," + s[|s| - 3..]
  }

  predicate AllBinary(s: string)
  {
    forall i :: 0 <= i < |s| ==> s[i] == '0' || s[i] == '1'
  }

  /** `'{:b}'.format(n)` for `n >= 0`: binary, most significant bit first. */
  function Binary(n: nat): (r: string)
    ensures |r| >= 1 && AllBinary(r)
  {
    if n < 2 then [if n == 1 then '1' else '0']
    else Binary(n / 2) + [if n % 2 == 1 then '1' else '0']
  }

  function BinaryValue(s: string): nat
    requires AllBinary(s)
    decreases |s|
  {
    if s == [] then 0 else 2 * BinaryValue(s[..|s| - 1]) + (if s[|s| - 1] == '1' then 1 else 0)
  }

  lemma {:induction false} BinaryRoundTrip(n: nat)
    ensures BinaryValue(Binary(n)) == n
  {
    if n >= 2 {
      BinaryRoundTrip(n / 2);
      assert Binary(n)[..|Binary(n)| - 1] == Binary(n / 2);
    }
  }

  /**
   * The binary text lists the bits of `n`: the character `i` places from the
   * right is bit `i`, and every bit above the text is zero.
   */
  lemma {:induction false} BinaryDigitsAreBits(n: nat, i: nat)
    ensures i < |Binary(n)| ==> Binary(n)[|Binary(n)| - 1 - i] == (if Bit(n, i) then '1' else '0')
    ensures i >= |Binary(n)| ==> !Bit(n, i)
    decreases i
  {
    if n < 2 {
      if i > 0 {
        BitOfZero(i - 1);
      }
    } else if i > 0 {
      BinaryDigitsAreBits(n / 2, i - 1);
    }
  }

  /** No leading zeros: the text starts with `1` unless `n` is zero, which prints `0`. */
  lemma {:induction false} BinaryNoLeadingZero(n: nat)
    ensures Binary(n)[0] == '1' || (n == 0 && Binary(n) == "0")
  {
    if n >= 2 {
      BinaryNoLeadingZero(n / 2);
    }
  }

  /** A mask in 0..0xFF prints as at most eight binary digits. */
  lemma {:induction false} BinaryOfByte(n: nat, k: nat)
    requires k >= 1 && n < Pow2(k)
    ensures |Binary(n)| <= k
    decreases k
  {
    if n >= 2 {
      BinaryOfByte(n / 2, k - 1);
    }
  }
}
