/** Decimal digit strings: the printing of `%d` and `%09d`, and the values that the parsers read. */
module Decimal {

  predicate IsDigit(c: char) {
    '0' <= c <= '9'
  }

  predicate AllDigits(s: string) {
    forall i :: 0 <= i < |s| ==> IsDigit(s[i])
  }

  function Digit(d: nat): (c: char)
    requires d < 10
    ensures IsDigit(c) && DigitValue(c) == d
  {
    '0' + d as char
  }

  function DigitValue(c: char): (d: nat)
    requires IsDigit(c)
    ensures d < 10
  {
    c as int - '0' as int
  }

  /** What `%d` prints for a number that is not negative. */
  function Digits(n: nat): (s: string)
    ensures s != "" && AllDigits(s)
  {
    if n < 10 then [Digit(n)] else Digits(n / 10) + [Digit(n % 10)]
  }

  /** What a zero-padded `%d` prints for a number that fits in the width. */
  function Fixed(n: nat, width: nat): (s: string)
    ensures |s| == width && AllDigits(s)
  {
    if width == 0 then "" else Fixed(n / 10, width - 1) + [Digit(n % 10)]
  }

  /** The number that a digit string denotes. */
  function Value(s: string): nat
    requires AllDigits(s)
  {
    if s == "" then 0 else 10 * Value(s[..|s| - 1]) + DigitValue(s[|s| - 1])
  }

  function Power10(k: nat): (p: nat)
    ensures p > 0
  {
    if k == 0 then 1 else 10 * Power10(k - 1)
  }

  /** The number that `whole.fraction` denotes. */
  function DecimalValue(whole: string, fraction: string): (x: real)
    requires AllDigits(whole) && AllDigits(fraction)
    ensures x >= 0.0
  {
    Value(whole) as real + Value(fraction) as real / Power10(|fraction|) as real
  }

  /** `strings.TrimRight(s, "0")`. */
  function TrimZeros(s: string): (t: string)
    ensures t <= s
    ensures t != "" ==> t[|t| - 1] != '0'
    ensures forall i :: |t| <= i < |s| ==> s[i] == '0'
  {
    if s != "" && s[|s| - 1] == '0' then TrimZeros(s[..|s| - 1]) else s
  }

  lemma {:induction false} ValueDigits(n: nat)
    ensures Value(Digits(n)) == n
  {
    if n >= 10 {
      ValueDigits(n / 10);
      assert Digits(n)[..|Digits(n)| - 1] == Digits(n / 10);
    }
  }

  lemma {:induction false} ValueFixed(n: nat, width: nat)
    requires n < Power10(width)
    ensures Value(Fixed(n, width)) == n
  {
    if width > 0 {
      ValueFixed(n / 10, width - 1);
      assert Fixed(n, width)[..width - 1] == Fixed(n / 10, width - 1);
    }
  }

  /** Trailing zeros of a fraction do not change its value, and a fraction of value zero is all zeros. */
  lemma {:induction false} TrimKeepsFraction(s: string)
    requires AllDigits(s)
    ensures AllDigits(TrimZeros(s))
    ensures Value(TrimZeros(s)) as real / Power10(|TrimZeros(s)|) as real == Value(s) as real / Power10(|s|) as real
    ensures TrimZeros(s) == "" ==> Value(s) == 0
  {
    if s != "" && s[|s| - 1] == '0' {
      var t := s[..|s| - 1];
      TrimKeepsFraction(t);
      Shift(Value(t) as real, Power10(|t|) as real);
      assert Value(s) == 10 * Value(t) && Power10(|s|) == 10 * Power10(|t|);
    }
  }

  lemma Shift(a: real, p: real)
    requires p > 0.0
    ensures a / p == (10.0 * a) / (10.0 * p)
  {
    var q := a / p;
    assert q * p == a;
    assert q * (10.0 * p) == 10.0 * a;
  }

  /** Trimming a literal stops at a character that is not a zero. */
  lemma {:induction false} TrimAfter(c: char, s: string)
    requires c != '0'
    ensures TrimZeros([c] + s) == [c] + TrimZeros(s)
  {
    if s != "" && s[|s| - 1] == '0' {
      TrimAfter(c, s[..|s| - 1]);
      assert ([c] + s)[..|s|] == [c] + s[..|s| - 1];
    }
  }
}
