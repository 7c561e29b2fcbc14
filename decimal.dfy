/** Decimal rendering of natural numbers, as Python's `str(n)` and
    `"%04d" % n` produce it, and the parse that inverts it. Frame file
    names and collision-free output names are built from these. */
module Decimal {

  predicate IsDigit(c: char) {
    '0' <= c <= '9'
  }

  predicate AllDigits(s: string) {
    forall i :: 0 <= i < |s| ==> IsDigit(s[i])
  }

  function DigitChar(d: nat): (c: char)
    requires d < 10
    ensures IsDigit(c) && c as int - '0' as int == d
  {
    ('0' as int + d) as char
  }

  function DigitValue(c: char): (d: nat)
    requires IsDigit(c)
    ensures d < 10 && DigitChar(d) == c
  {
    c as int - '0' as int
  }

  /** `str(n)` for a non-negative int: the shortest decimal numeral, no leading zero. */
  function Digits(n: nat): (s: string)
    ensures |s| >= 1 && AllDigits(s)
    ensures |s| > 1 ==> s[0] != '0'
  {
    if n < 10 then [DigitChar(n)] else Digits(n / 10) + [DigitChar(n % 10)]
  }

  /** The value of a numeral; leading zeros contribute nothing. */
  function Parse(s: string): nat
    requires AllDigits(s)
  {
    if s == [] then 0 else Parse(s[..|s| - 1]) * 10 + DigitValue(s[|s| - 1])
  }

  function Zeros(k: nat): (z: string)
    ensures |z| == k && AllDigits(z)
  {
    seq(k, _ => '0')
  }

  /** `"%0*d" % (width, n)`: the numeral of `n`, left-padded with zeros to `width` characters. */
  function ZeroPadded(n: nat, width: nat): (s: string)
    ensures AllDigits(s)
    ensures |s| == if |Digits(n)| < width then width else |Digits(n)|
    ensures s[|s| - |Digits(n)|..] == Digits(n)
    ensures forall i :: 0 <= i < |s| - |Digits(n)| ==> s[i] == '0'
  {
    var d := Digits(n);
    if |d| < width then Zeros(width - |d|) + d else d
  }

  lemma {:induction false} ParseDigits(n: nat)
    ensures Parse(Digits(n)) == n
  {
    if n >= 10 {
      var s := Digits(n);
      assert s[..|s| - 1] == Digits(n / 10);
      ParseDigits(n / 10);
    }
  }

  lemma {:induction false} ParseLeadingZero(s: string)
    requires AllDigits(s)
    ensures Parse(['0'] + s) == Parse(s)
  {
    if s != [] {
      var t := ['0'] + s;
      assert t[..|t| - 1] == ['0'] + s[..|s| - 1];
      ParseLeadingZero(s[..|s| - 1]);
    }
  }

  lemma {:induction false} ParseZeros(k: nat, s: string)
    requires AllDigits(s)
    ensures Parse(Zeros(k) + s) == Parse(s)
  {
    if k > 0 {
      assert Zeros(k) + s == ['0'] + (Zeros(k - 1) + s);
      ParseZeros(k - 1, s);
      ParseLeadingZero(Zeros(k - 1) + s);
    } else {
      assert Zeros(k) + s == s;
    }
  }

  /** Padding never changes the number a numeral denotes. */
  lemma ParseZeroPadded(n: nat, width: nat)
    ensures Parse(ZeroPadded(n, width)) == n
  {
    var d := Digits(n);
    if |d| < width {
      ParseZeros(width - |d|, d);
    }
    ParseDigits(n);
  }

  /** The numeral of a three-digit number, digit by digit. */
  lemma DigitsOfThree(n: nat)
    requires 100 <= n < 1000
    ensures Digits(n) == [DigitChar(n / 100), DigitChar(n / 10 % 10), DigitChar(n % 10)]
  {
    assert n / 10 / 10 == n / 100;
    assert Digits(n / 10) == [DigitChar(n / 100)] + [DigitChar(n / 10 % 10)];
    assert Digits(n) == Digits(n / 10) + [DigitChar(n % 10)];
  }

  /** The numeral of a four-digit number, digit by digit. */
  lemma DigitsOfFour(n: nat)
    requires 1000 <= n < 10000
    ensures Digits(n) == [DigitChar(n / 1000), DigitChar(n / 100 % 10), DigitChar(n / 10 % 10), DigitChar(n % 10)]
  {
    DigitsOfThree(n / 10);
    assert n / 10 / 100 == n / 1000;
    assert n / 10 / 10 % 10 == n / 100 % 10;
    assert Digits(n) == Digits(n / 10) + [DigitChar(n % 10)];
  }

  lemma DigitsInjective(a: nat, b: nat)
    requires Digits(a) == Digits(b)
    ensures a == b
  {
    ParseDigits(a);
    ParseDigits(b);
  }
}
