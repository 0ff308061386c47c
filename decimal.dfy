/** Decimal digit strings: the value of a run of ASCII digits (what Go's time
    parser and atoi compute), the decimal rendering of an integer (fmt's "%d"),
    and the zero-padded rendering Go's time formatter uses for fixed-width fields. */
module Decimal {
  import opened Wrappers

  predicate IsDigit(c: char) {
    '0' <= c <= '9'
  }

  function DigitValue(c: char): (d: nat)
    requires IsDigit(c)
    ensures d < 10
  {
    c as int - '0' as int
  }

  function DigitChar(d: nat): (c: char)
    requires d < 10
    ensures IsDigit(c) && DigitValue(c) == d
  {
    ('0' as int + d) as char
  }

  predicate AllDigits(s: string) {
    forall i :: 0 <= i < |s| ==> IsDigit(s[i])
  }

  function Pow10(k: nat): (p: nat)
    ensures p >= 1
  {
    if k == 0 then 1 else 10 * Pow10(k - 1)
  }

  /** The value of a string of digits, most significant first. */
  function Num(s: string): nat
    requires AllDigits(s)
  {
    if s == [] then 0 else 10 * Num(s[..|s| - 1]) + DigitValue(s[|s| - 1])
  }

  /** A string of k digits denotes a number below 10^k. */
  lemma {:induction false} NumBound(s: string)
    requires AllDigits(s)
    ensures Num(s) < Pow10(|s|)
  {
    if s != [] {
      NumBound(s[..|s| - 1]);
    }
  }

  /** The shortest decimal digits of n (no leading zero unless n is 0). */
  function Digits(n: nat): (s: string)
    ensures |s| >= 1 && AllDigits(s)
    ensures |s| > 1 ==> s[0] != '0'
  {
    if n < 10 then [DigitChar(n)] else Digits(n / 10) + [DigitChar(n % 10)]
  }

  lemma {:induction false} NumDigits(n: nat)
    ensures Num(Digits(n)) == n
  {
    if n >= 10 {
      var s := Digits(n);
      assert s[..|s| - 1] == Digits(n / 10);
      NumDigits(n / 10);
    }
  }

  /** fmt.Sprintf("%d", n): an optional minus sign, then the digits of |n|. */
  function FormatDecimal(n: int): string {
    if n < 0 then "-" + Digits(-n) else Digits(n)
  }

  /** The inverse of FormatDecimal on the strings it produces. */
  function ParseDecimal(s: string): Option<int> {
    if |s| >= 2 && s[0] == '-' && AllDigits(s[1..]) then Some(0 - (Num(s[1..]) as int))
    else if |s| >= 1 && AllDigits(s) then Some(Num(s))
    else None
  }

  lemma DecimalRoundTrip(n: int)
    ensures ParseDecimal(FormatDecimal(n)) == Some(n)
  {
    var s := FormatDecimal(n);
    if n < 0 {
      var d := Digits(-n);
      assert s == "-" + d;
      assert s[1..] == d;
      NumDigits(-n);
    } else {
      assert s[0] != '-';
      NumDigits(n);
    }
  }

  /** Decimal renderings of different integers differ. */
  lemma DecimalInjective(a: int, b: int)
    ensures FormatDecimal(a) == FormatDecimal(b) <==> a == b
  {
    if FormatDecimal(a) == FormatDecimal(b) {
      DecimalRoundTrip(a);
      DecimalRoundTrip(b);
    }
  }

  function Zeros(k: nat): (s: string)
    ensures |s| == k && AllDigits(s)
  {
    seq(k, _ => '0')
  }

  /** The digits of u zero-padded to at least width characters, as Go's time
      formatter writes a field (with its fast paths for two and four digits). */
  function PadNat(u: nat, width: nat): string {
    if width == 2 && u < 100 then
      [DigitChar(u / 10), DigitChar(u % 10)]
    else if width == 4 && u < 10000 then
      [DigitChar(u / 1000), DigitChar(u / 100 % 10), DigitChar(u / 10 % 10), DigitChar(u % 10)]
    else
      var d := Digits(u);
      (if |d| < width then Zeros(width - |d|) else []) + d
  }

  /** Go's appendInt(b, x, width) in the time package: a minus sign for a
      negative x, then the zero-padded digits of |x|. */
  function AppendInt(x: int, width: nat): string {
    if x < 0 then "-" + PadNat(-x, width) else PadNat(x, width)
  }

  /** The value of two and of four digits, written out. */
  lemma Num2(s: string)
    requires |s| == 2 && AllDigits(s)
    ensures Num(s) == 10 * DigitValue(s[0]) + DigitValue(s[1])
  {
    var h := s[..1];
    assert h[..0] == [] && h[0] == s[0];
    assert Num(h) == DigitValue(s[0]);
  }

  lemma Num3(s: string)
    requires |s| == 3 && AllDigits(s)
    ensures Num(s) == 100 * DigitValue(s[0]) + 10 * DigitValue(s[1]) + DigitValue(s[2])
  {
    Num2(s[..2]);
    assert s[..2][0] == s[0] && s[..2][1] == s[1];
  }

  lemma Num4(s: string)
    requires |s| == 4 && AllDigits(s)
    ensures Num(s) == 1000 * DigitValue(s[0]) + 100 * DigitValue(s[1]) + 10 * DigitValue(s[2]) + DigitValue(s[3])
  {
    Num2(s[..2]);
    assert s[..3][..2] == s[..2];
    assert s[..2][0] == s[0] && s[..2][1] == s[1];
  }

  lemma Pad2Digits(u: nat)
    requires u < 100
    ensures |PadNat(u, 2)| == 2 && AllDigits(PadNat(u, 2)) && Num(PadNat(u, 2)) == u
  {
    Num2(PadNat(u, 2));
  }

  /** The four decimal places of a number below 10000. */
  lemma Split4(u: nat)
    requires u < 10000
    ensures u / 1000 < 10
    ensures u == 1000 * (u / 1000) + 100 * (u / 100 % 10) + 10 * (u / 10 % 10) + u % 10
  {
    assert u / 100 == 10 * (u / 1000) + u / 100 % 10;
    assert u / 10 == 10 * (u / 100) + u / 10 % 10;
  }

  lemma Pad4Digits(u: nat)
    requires u < 10000
    ensures |PadNat(u, 4)| == 4 && AllDigits(PadNat(u, 4)) && Num(PadNat(u, 4)) == u
  {
    Split4(u);
    Num4(PadNat(u, 4));
  }
}
