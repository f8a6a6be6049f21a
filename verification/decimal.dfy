/** Signed decimal integer literals, the subset of Python's `int(str)` that the
    measurement table uses: an optional `+` or `-` followed by ASCII digits. */
module Decimal {
  import opened Wrappers

  predicate IsDigit(c: char) {
    '0' <= c <= '9'
  }

  predicate AllDigits(s: string) {
    forall k :: 0 <= k < |s| ==> IsDigit(s[k])
  }

  /** A well-formed literal: optional sign, then at least one digit. */
  predicate IsLiteral(s: string) {
    if |s| > 0 && (s[0] == '-' || s[0] == '+') then |s| > 1 && AllDigits(s[1..])
    else |s| > 0 && AllDigits(s)
  }

  function DigitValue(c: char): (d: nat)
    requires IsDigit(c)
    ensures d < 10
  {
    (c as int - '0' as int) as nat
  }

  function DigitChar(d: nat): (c: char)
    requires d < 10
    ensures IsDigit(c) && DigitValue(c) == d
  {
    ('0' as int + d) as char
  }

  /** Value of a digit string read most-significant digit first. */
  function DigitsValue(s: string): nat
    requires AllDigits(s)
  {
    if s == [] then 0 else DigitsValue(s[..|s| - 1]) * 10 + DigitValue(s[|s| - 1])
  }

  /** Parses a literal; `None` stands for the `ValueError` Python's `int` raises. */
  function ParseInt(s: string): (r: Option<int>)
    ensures r.Some? <==> IsLiteral(s)
  {
    if |s| > 1 && s[0] == '-' && AllDigits(s[1..]) then Some(-(DigitsValue(s[1..]) as int))
    else if |s| > 1 && s[0] == '+' && AllDigits(s[1..]) then Some(DigitsValue(s[1..]))
    else if |s| > 0 && AllDigits(s) then Some(DigitsValue(s))
    else None
  }

  /** Shortest decimal digits of `n`. */
  function ShowNat(n: nat): (s: string)
    ensures |s| > 0 && AllDigits(s)
    ensures s[0] != '0' || n == 0
  {
    if n < 10 then [DigitChar(n)] else ShowNat(n / 10) + [DigitChar(n % 10)]
  }

  /** Canonical literal of `n`, with a leading `-` only for negatives. */
  function ShowInt(n: int): (s: string)
    ensures IsLiteral(s)
  {
    if n < 0 then "-" + ShowNat(-n) else ShowNat(n)
  }

  lemma {:induction false} ShowNatValue(n: nat)
    ensures DigitsValue(ShowNat(n)) == n
  {
    if n >= 10 {
      var s := ShowNat(n);
      ShowNatValue(n / 10);
      assert s[..|s| - 1] == ShowNat(n / 10);
    }
  }

  /** Parsing the canonical literal of any integer gives the integer back. */
  lemma ParseShow(n: int)
    ensures ParseInt(ShowInt(n)) == Some(n)
  {
    if n < 0 {
      ShowNatValue(-n);
      assert ShowInt(n)[1..] == ShowNat(-n);
    } else {
      ShowNatValue(n);
    }
  }

  /** A leading zero does not change the value of a digit string. */
  lemma {:induction false} DigitsLeadingZero(d: string)
    requires AllDigits(d)
    ensures AllDigits("0" + d) && DigitsValue("0" + d) == DigitsValue(d)
  {
    if d != [] {
      var s := "0" + d;
      assert s[..|s| - 1] == "0" + d[..|d| - 1];
      DigitsLeadingZero(d[..|d| - 1]);
    }
  }

  /** A `+` sign in front of digits leaves the value unchanged, as in
      `int("+7") == 7`; a lone `+` is rejected like the empty string. */
  lemma ParsePlus(d: string)
    requires AllDigits(d)
    ensures ParseInt("+" + d) == ParseInt(d)
  {
  }

  /** Leading zeros are accepted and ignored, as in `int("007") == 7`. */
  lemma ParseLeadingZero(d: string)
    requires |d| > 0 && AllDigits(d)
    ensures ParseInt("0" + d) == ParseInt(d)
  {
    DigitsLeadingZero(d);
  }

  /** A `-` sign in front of digits negates their value, so `int("-0") == 0`. */
  lemma ParseMinus(d: string)
    requires |d| > 0 && AllDigits(d)
    ensures ParseInt(d).Some? && ParseInt("-" + d) == Some(-ParseInt(d).value)
  {
  }

  /** A digit string with a leading non-zero digit has a positive value. */
  lemma {:induction false} LeadingDigitPositive(d: string)
    requires |d| > 0 && AllDigits(d) && d[0] != '0'
    ensures DigitsValue(d) > 0
  {
    if |d| > 1 {
      LeadingDigitPositive(d[..|d| - 1]);
    }
  }

  /** Every digit string without a leading zero is the canonical form of its
      own value. With `ParseShow`, `ParsePlus`, `ParseLeadingZero` and
      `ParseMinus` this fixes the value of every literal. */
  lemma {:induction false} ShowDigits(d: string)
    requires |d| > 0 && AllDigits(d) && (d[0] != '0' || |d| == 1)
    ensures ShowNat(DigitsValue(d)) == d
  {
    var last := d[|d| - 1];
    assert DigitChar(DigitValue(last)) == last;
    if |d| > 1 {
      var p := d[..|d| - 1];
      LeadingDigitPositive(p);
      ShowDigits(p);
      var n := DigitsValue(d);
      assert n / 10 == DigitsValue(p) && n % 10 == DigitValue(last);
      assert d == p + [last];
    }
  }
}
