/**
 * Decimal digits as the helpers use them: str.isdigit() on ASCII digits,
 * int() of a digit string, str(n), and the zero-padded f"{n:03d}".
 */
module Digits {

  predicate IsDigit(c: char)
  {
    '0' <= c <= '9'
  }

  predicate AllDigits(s: string)
  {
    forall i | 0 <= i < |s| :: IsDigit(s[i])
  }

  /** str.isdigit(): non-empty and digits only. */
  predicate IsDigits(s: string)
  {
    s != [] && AllDigits(s)
  }

  function DigitValue(c: char): nat
    requires IsDigit(c)
  {
    (c as int - '0' as int) as nat
  }

  function DigitChar(d: nat): (c: char)
    requires d < 10
    ensures IsDigit(c) && DigitValue(c) == d
  {
    ('0' as int + d) as char
  }

  /** int(s) for a string of digits. */
  function ValueOf(s: string): nat
    requires AllDigits(s)
  {
    if s == [] then 0 else 10 * ValueOf(s[..|s| - 1]) + DigitValue(s[|s| - 1])
  }

  /** str(n) for n >= 0. */
  function Decimal(n: nat): string
  {
    if n < 10 then [DigitChar(n)] else Decimal(n / 10) + [DigitChar(n % 10)]
  }

  /** str(n) is a digit string that int() reads back as n, without a leading zero. */
  lemma {:induction false} DecimalValue(n: nat)
    ensures IsDigits(Decimal(n)) && ValueOf(Decimal(n)) == n
    ensures Decimal(n)[0] == '0' ==> n == 0
  {
    if n >= 10 {
      DecimalValue(n / 10);
      var d := Decimal(n);
      assert d[..|d| - 1] == Decimal(n / 10);
      assert d[0] == Decimal(n / 10)[0];
    }
  }

  /** Numbers below 1000 have at most three digits. */
  lemma {:induction false} DecimalShort(n: nat)
    requires n < 1000
    ensures |Decimal(n)| <= 3
    ensures n < 100 ==> |Decimal(n)| <= 2
  {
    if n >= 10 {
      DecimalShort(n / 10);
    }
  }

  function Zeros(k: nat): (z: string)
    ensures |z| == k && AllDigits(z)
  {
    if k == 0 then [] else Zeros(k - 1) + ['0']
  }

  /** f"{n:03d}": str(n), padded on the left with zeros to three characters. */
  function Pad3(n: nat): string
  {
    var d := Decimal(n);
    (if |d| < 3 then Zeros(3 - |d|) else []) + d
  }

  lemma {:induction false} ZerosValue(k: nat)
    ensures ValueOf(Zeros(k)) == 0
  {
    if k > 0 {
      ZerosValue(k - 1);
      assert Zeros(k)[..k - 1] == Zeros(k - 1);
    }
  }

  /** Leading zeros do not change the value. */
  lemma {:induction false} LeadingZeros(k: nat, s: string)
    requires AllDigits(s)
    ensures AllDigits(Zeros(k) + s) && ValueOf(Zeros(k) + s) == ValueOf(s)
  {
    var z := Zeros(k);
    if s == [] {
      assert z + s == z;
      ZerosValue(k);
    } else {
      var n := |s| - 1;
      LeadingZeros(k, s[..n]);
      assert (z + s)[..|z + s| - 1] == z + s[..n];
    }
  }

  /** The padded number has at least three digits, exactly three below 1000, and reads back as n. */
  lemma Pad3Value(n: nat)
    ensures IsDigits(Pad3(n)) && ValueOf(Pad3(n)) == n
    ensures |Pad3(n)| >= 3 && (n < 1000 ==> |Pad3(n)| == 3)
  {
    DecimalValue(n);
    var d := Decimal(n);
    if |d| < 3 {
      LeadingZeros(3 - |d|, d);
    } else {
      assert Pad3(n) == d;
    }
    if n < 1000 {
      DecimalShort(n);
    }
  }

  /** Different numbers pad to different strings. */
  lemma Pad3Injective(i: nat, j: nat)
    requires Pad3(i) == Pad3(j)
    ensures i == j
  {
    Pad3Value(i);
    Pad3Value(j);
  }
}
