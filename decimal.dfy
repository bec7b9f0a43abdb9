/** Decimal digit strings: how PHP reads a run of digits as an integer and
    how it prints an integer back as a string. */
module Decimal {

  predicate IsDigit(c: char) {
    '0' <= c <= '9'
  }

  predicate AllDigits(s: string) {
    forall i | 0 <= i < |s| :: IsDigit(s[i])
  }

  function DigitValue(c: char): nat
    requires IsDigit(c)
  {
    c as int - '0' as int
  }

  function DigitChar(d: nat): (c: char)
    requires d < 10
    ensures IsDigit(c) && DigitValue(c) == d
  {
    ('0' as int + d) as char
  }

  /** The end of the maximal run of digits that starts at index `k`. */
  function DigitRunEnd(s: string, k: nat): (e: nat)
    requires k <= |s|
    ensures k <= e <= |s|
    ensures AllDigits(s[k..e])
    ensures e == |s| || !IsDigit(s[e])
    decreases |s| - k
  {
    if k < |s| && IsDigit(s[k]) then DigitRunEnd(s, k + 1) else k
  }

  /** The value of a run of digits, leading zeros allowed, as PHP's `(int)`
      cast reads it. */
  function DigitsValue(s: string): nat
    requires AllDigits(s)
    decreases |s|
  {
    if s == [] then 0 else DigitsValue(s[..|s| - 1]) * 10 + DigitValue(s[|s| - 1])
  }

  /** The value of the digits a string starts with (0 when it starts with none). */
  function LeadingNumber(s: string): (n: nat)
    ensures AllDigits(s) ==> n == DigitsValue(s)
  {
    var e := DigitRunEnd(s, 0);
    assert AllDigits(s) ==> e == |s| && s[..e] == s;
    DigitsValue(s[..e])
  }

  /** A non-empty digit string without a superfluous leading zero. */
  predicate Canonical(s: string) {
    |s| >= 1 && AllDigits(s) && (|s| > 1 ==> s[0] != '0')
  }

  /** The decimal form of `n`, as PHP prints a non-negative integer. */
  function NatToString(n: nat): (s: string)
    ensures Canonical(s)
    ensures (s[0] == '0') == (n == 0)
  {
    if n < 10 then [DigitChar(n)] else NatToString(n / 10) + [DigitChar(n % 10)]
  }

  /** Reading back a printed number gives the number. */
  lemma {:induction false} NatToStringRoundTrip(n: nat)
    ensures DigitsValue(NatToString(n)) == n
  {
    if n >= 10 {
      var p := NatToString(n / 10);
      var s := NatToString(n);
      assert s[..|s| - 1] == p;
      NatToStringRoundTrip(n / 10);
    }
  }

  /** A digit string whose first digit is not zero is a positive number. */
  lemma {:induction false} LeadingNonZeroPositive(s: string)
    requires |s| >= 1 && AllDigits(s) && s[0] != '0'
    ensures DigitsValue(s) >= 1
  {
    if |s| > 1 {
      var p := s[..|s| - 1];
      assert p[0] == s[0];
      LeadingNonZeroPositive(p);
    }
  }

  /** Printing the value of a canonical digit string gives the string back. */
  lemma {:induction false} CanonicalRoundTrip(s: string)
    requires Canonical(s)
    ensures NatToString(DigitsValue(s)) == s
  {
    var n := DigitsValue(s);
    var last := s[|s| - 1];
    if |s| == 1 {
      assert DigitsValue(s[..0]) == 0;
      assert [DigitChar(DigitValue(last))] == s;
    } else {
      var p := s[..|s| - 1];
      assert p[0] == s[0];
      LeadingNonZeroPositive(p);
      CanonicalRoundTrip(p);
      assert n / 10 == DigitsValue(p) && n % 10 == DigitValue(last);
      assert DigitChar(DigitValue(last)) == last;
      assert p + [last] == s;
    }
  }

  /** A string PHP treats as an integer when it is used as an array key:
      "0", or an optional minus sign followed by a canonical non-zero number. */
  predicate IsIntegerString(s: string) {
    Canonical(s) || (|s| >= 2 && s[0] == '-' && Canonical(s[1..]) && s[1] != '0')
  }

  function ParseInteger(s: string): int
    requires IsIntegerString(s)
  {
    if s[0] == '-' then -(DigitsValue(s[1..]) as int) else DigitsValue(s)
  }

  /** The decimal form of an integer, as PHP's string conversion prints it. */
  function IntToString(i: int): (s: string)
    ensures IsIntegerString(s)
  {
    if i < 0 then "-" + NatToString(-i) else NatToString(i)
  }

  /** An integer string is exactly the printed form of its value. */
  lemma IntegerStringRoundTrip(s: string)
    requires IsIntegerString(s)
    ensures IntToString(ParseInteger(s)) == s
  {
    if s[0] == '-' {
      CanonicalRoundTrip(s[1..]);
      LeadingNonZeroPositive(s[1..]);
      assert "-" + s[1..] == s;
    } else {
      CanonicalRoundTrip(s);
    }
  }
}
