/**
 * Python's `f"{i:04d}"` for a non-negative index: the decimal digits of
 * `i`, with leading zeros up to a width of four characters; an index of
 * five or more digits is written in full.
 */
module DecimalFormat {

  predicate IsDigit(c: char) {
    '0' <= c <= '9'
  }

  predicate AllDigits(s: string) {
    forall k :: 0 <= k < |s| ==> IsDigit(s[k])
  }

  function DigitChar(d: nat): (c: char)
    requires d < 10
    ensures IsDigit(c)
  {
    ('0' as int + d) as char
  }

  function DigitValue(c: char): (d: nat)
    requires IsDigit(c)
    ensures d < 10 && DigitChar(d) == c
  {
    c as int - '0' as int
  }

  function Pow10(k: nat): (p: nat)
    ensures p >= 1
  {
    if k == 0 then 1 else 10 * Pow10(k - 1)
  }

  function Repeat(c: char, k: nat): (s: string)
    ensures |s| == k
    ensures forall j :: 0 <= j < k ==> s[j] == c
  {
    if k == 0 then [] else [c] + Repeat(c, k - 1)
  }

  /** The shortest decimal representation of `n` (`str(n)`). */
  function Decimal(n: nat): (s: string)
    ensures |s| >= 1
    ensures AllDigits(s)
    decreases n
  {
    if n < 10 then [DigitChar(n)] else Decimal(n / 10) + [DigitChar(n % 10)]
  }

  /** Left-pads `s` with `'0'` to at least `width` characters. */
  function ZeroPad(s: string, width: nat): string {
    if |s| >= width then s else Repeat('0', width - |s|) + s
  }

  /** `f"{n:04d}"`. */
  function Pad4(n: nat): string {
    ZeroPad(Decimal(n), 4)
  }

  /** The number a string of decimal digits denotes (`int(s)`), read left to right. */
  function Value(s: string): nat
    requires AllDigits(s)
  {
    if s == [] then 0 else Value(s[..|s| - 1]) * 10 + DigitValue(s[|s| - 1])
  }

  /** Reading back the decimal representation gives the number. */
  lemma {:induction false} ValueOfDecimal(n: nat)
    ensures Value(Decimal(n)) == n
    decreases n
  {
    if n >= 10 {
      ValueOfDecimal(n / 10);
      var s := Decimal(n);
      assert s[..|s| - 1] == Decimal(n / 10);
    }
  }

  /** Leading zeros do not change the value. */
  lemma {:induction false} ValueLeadingZeros(k: nat, s: string)
    requires AllDigits(s)
    ensures AllDigits(Repeat('0', k) + s)
    ensures Value(Repeat('0', k) + s) == Value(s)
    decreases |s|
  {
    var z := Repeat('0', k) + s;
    assert AllDigits(z) by {
      forall j | 0 <= j < |z| ensures IsDigit(z[j]) {
        if j < k { assert z[j] == '0'; } else { assert z[j] == s[j - k]; }
      }
    }
    if s == [] {
      assert z == Repeat('0', k);
      ValueOfZeros(k);
    } else {
      var init := s[..|s| - 1];
      assert z[..|z| - 1] == Repeat('0', k) + init;
      ValueLeadingZeros(k, init);
    }
  }

  lemma {:induction false} ValueOfZeros(k: nat)
    ensures AllDigits(Repeat('0', k))
    ensures Value(Repeat('0', k)) == 0
  {
    if k > 0 {
      var z := Repeat('0', k);
      assert z[..k - 1] == Repeat('0', k - 1);
      ValueOfZeros(k - 1);
    }
  }

  /** `n` digits denote a number below `10^n`. */
  lemma {:induction false} ValueBelowPow10(s: string)
    requires AllDigits(s)
    ensures Value(s) < Pow10(|s|)
  {
    if s != [] {
      ValueBelowPow10(s[..|s| - 1]);
    }
  }

  /**
   * The padded index is made of digits only, has at least four of them, and
   * denotes the index: `int(f"{n:04d}") == n`.
   */
  lemma Pad4Digits(n: nat)
    ensures AllDigits(Pad4(n))
    ensures |Pad4(n)| >= 4
    ensures Value(Pad4(n)) == n
  {
    ValueOfDecimal(n);
    var d := Decimal(n);
    if |d| < 4 {
      ValueLeadingZeros(4 - |d|, d);
    }
  }

  lemma DecimalTwoDigits(n: nat)
    requires 10 <= n < 100
    ensures Decimal(n) == [DigitChar(n / 10), DigitChar(n % 10)]
  {
  }

  lemma DecimalThreeDigits(n: nat)
    requires 100 <= n < 1000
    ensures Decimal(n) == [DigitChar(n / 100), DigitChar(n / 10 % 10), DigitChar(n % 10)]
  {
    DecimalTwoDigits(n / 10);
    assert n / 10 / 10 == n / 100;
  }

  lemma DecimalFourDigits(n: nat)
    requires 1000 <= n < 10000
    ensures Decimal(n) == [DigitChar(n / 1000), DigitChar(n / 100 % 10), DigitChar(n / 10 % 10), DigitChar(n % 10)]
  {
    DecimalThreeDigits(n / 10);
    assert n / 10 / 100 == n / 1000;
    assert n / 10 / 10 % 10 == n / 100 % 10;
  }

  /** The four digits of `n`, thousands first. */
  function FourDigits(n: nat): string
    requires n < 10000
  {
    [DigitChar(n / 1000), DigitChar(n / 100 % 10), DigitChar(n / 10 % 10), DigitChar(n % 10)]
  }

  /**
   * Below 10000 the padded index is exactly the four decimal digits of `n`
   * (thousands, hundreds, tens, units).
   */
  lemma Pad4Small(n: nat)
    requires n < 10000
    ensures Pad4(n) == FourDigits(n)
  {
    var d := Decimal(n);
    var zero := DigitChar(0);
    if n < 10 {
      assert Repeat('0', 3) == [zero, zero, zero];
      assert Pad4(n) == [zero, zero, zero] + [DigitChar(n)];
    } else if n < 100 {
      DecimalTwoDigits(n);
      assert Repeat('0', 2) == [zero, zero];
      assert Pad4(n) == [zero, zero] + d;
    } else if n < 1000 {
      DecimalThreeDigits(n);
      assert Repeat('0', 1) == [zero];
      assert Pad4(n) == [zero] + d;
    } else {
      DecimalFourDigits(n);
    }
  }

  /** The padded index is exactly four characters wide if and only if `n < 10000`. */
  lemma Pad4Width(n: nat)
    ensures |Pad4(n)| == 4 <==> n < 10000
  {
    Pad4Digits(n);
    if n < 10000 {
      Pad4Small(n);
    } else {
      ValueBelowPow10(Pad4(n));
      assert Pow10(4) == 10000;
    }
  }
}
