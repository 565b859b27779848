/** Python's `"%d" % n`, which is also `repr(n)` for a Python 2 `int` `n`
    (not for a `long`, whose `repr` ends in `L`). */
module Decimal {
  import opened Wrappers

  predicate IsDigit(ch: char)
  {
    '0' <= ch <= '9'
  }

  predicate AllDigits(s: string)
  {
    forall i :: 0 <= i < |s| ==> IsDigit(s[i])
  }

  function DigitChar(d: int): (ch: char)
    requires 0 <= d < 10
    ensures IsDigit(ch) && ch as int - '0' as int == d
  {
    ('0' as int + d) as char
  }

  /** The decimal digits of `n`, most significant first, without leading zeros. */
  function Digits(n: nat): (s: string)
    ensures |s| >= 1 && AllDigits(s)
    ensures |s| > 1 ==> s[0] != '0'
  {
    if n < 10 then [DigitChar(n)] else Digits(n / 10) + [DigitChar(n % 10)]
  }

  /** `"%d" % n`: a minus sign for negative numbers, then the digits. */
  function Format(n: int): (r: string)
    ensures |r| >= 1 && (r[0] == '-' <==> n < 0)
    ensures n < 0 ==> |r| >= 2 && AllDigits(r[1..])
    ensures n >= 0 ==> AllDigits(r)
  {
    if n < 0 then "-" + Digits(-n) else Digits(n)
  }

  /** The number a non-empty string of decimal digits denotes. */
  function DigitsValue(s: string): nat
    requires |s| >= 1 && AllDigits(s)
  {
    assert IsDigit(s[|s| - 1]);
    if |s| == 1 then s[0] as int - '0' as int
    else DigitsValue(s[..|s| - 1]) * 10 + (s[|s| - 1] as int - '0' as int)
  }

  /** Reads back what `Format` writes: an optional minus sign, then digits. */
  function Parse(s: string): Option<int>
  {
    if |s| >= 1 && AllDigits(s) then Some(DigitsValue(s))
    else if |s| >= 2 && s[0] == '-' && AllDigits(s[1..]) then Some(-(DigitsValue(s[1..]) as int))
    else None
  }

  lemma {:induction false} DigitsRoundTrip(n: nat)
    ensures DigitsValue(Digits(n)) == n
  {
    if n >= 10 {
      DigitsRoundTrip(n / 10);
      var s := Digits(n);
      assert s[..|s| - 1] == Digits(n / 10);
    }
  }

  /** A minus sign before digits reads back as the negated value. */
  lemma ParseNegative(ds: string)
    requires |ds| >= 1 && AllDigits(ds)
    ensures Parse("-" + ds) == Some(-(DigitsValue(ds) as int))
  {
    var s := "-" + ds;
    assert s[1..] == ds;
    assert !IsDigit(s[0]);
  }

  /** Formatting loses nothing: the text reads back as the same number. */
  lemma FormatRoundTrip(n: int)
    ensures Parse(Format(n)) == Some(n)
  {
    if n < 0 {
      var ds := Digits(-n);
      assert Format(n) == "-" + ds;
      ParseNegative(ds);
      DigitsRoundTrip(-n);
    } else {
      var ds := Digits(n);
      assert Format(n) == ds;
      assert Parse(ds) == Some(DigitsValue(ds) as int);
      DigitsRoundTrip(n);
    }
  }
}
