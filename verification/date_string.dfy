/**
 The `yyyymmdd` date string used to name the log file: the year as Python's
 `str` prints it, then the month and the day, each zero-padded to two digits
 when below 10. The clock that supplies the date is a parameter here.
 */
module DateString {
  import opened Wrappers

  predicate IsDigit(c: char) {
    '0' <= c <= '9'
  }

  predicate AllDigits(s: string) {
    forall i :: 0 <= i < |s| ==> IsDigit(s[i])
  }

  function DigitChar(d: nat): (c: char)
    requires d < 10
    ensures IsDigit(c) && c as int - '0' as int == d
  {
    ('0' as int + d) as char
  }

  /** Decimal text of a natural number, as `str(n)` writes it: no sign, no
      leading zero except for 0 itself. */
  function NatToString(n: nat): (s: string)
    ensures |s| >= 1 && AllDigits(s)
    ensures n < 10 <==> |s| == 1
    ensures |s| > 1 ==> s[0] != '0'
    decreases n
  {
    if n < 10 then [DigitChar(n)] else NatToString(n / 10) + [DigitChar(n % 10)]
  }

  /** Reads a string of decimal digits back as a number. */
  function DigitsValue(s: string): nat
    requires AllDigits(s)
    decreases |s|
  {
    if |s| == 0 then 0
    else DigitsValue(s[..|s| - 1]) * 10 + (s[|s| - 1] as int - '0' as int)
  }

  /** Reading the decimal text of n gives n back. */
  lemma {:induction false} NatToStringRoundTrip(n: nat)
    ensures DigitsValue(NatToString(n)) == n
    decreases n
  {
    if n >= 10 {
      NatToStringRoundTrip(n / 10);
      var s := NatToString(n);
      assert s[..|s| - 1] == NatToString(n / 10);
    }
  }

  /** The text of a number with exactly two digits has length two. */
  lemma NatToStringTwoDigits(n: nat)
    requires 10 <= n < 100
    ensures |NatToString(n)| == 2
  {
  }

  /** The text of a number with exactly four digits has length four. */
  lemma {:induction false} NatToStringFourDigits(n: nat)
    requires 1000 <= n < 10000
    ensures |NatToString(n)| == 4
  {
    var m := n / 10;
    assert NatToString(n) == NatToString(m) + [DigitChar(n % 10)];
    assert NatToString(m) == NatToString(m / 10) + [DigitChar(m % 10)];
    NatToStringTwoDigits(m / 10);
  }

  /** `_m + m` and `_d + d`: a leading "0" when the value is below 10. */
  function ZeroPad(v: nat): (s: string)
    ensures AllDigits(s)
    ensures |s| >= 2 && (v < 10 ==> s[0] == '0')
  {
    (if v < 10 then "0" else "") + NatToString(v)
  }

  /** A value below 100 is padded to exactly two digits that read back as it. */
  lemma ZeroPadTwoDigits(v: nat)
    requires v < 100
    ensures |ZeroPad(v)| == 2 && DigitsValue(ZeroPad(v)) == v
  {
    NatToStringRoundTrip(v);
    if v >= 10 {
      NatToStringTwoDigits(v);
    } else {
      var s := ZeroPad(v);
      assert s[..1] == "0";
    }
  }

  /** `get_date_string`: year, padded month and padded day, concatenated. */
  function GetDateString(year: nat, month: nat, day: nat): (r: string)
    ensures AllDigits(r)
    ensures |r| >= 5
  {
    NatToString(year) + ZeroPad(month) + ZeroPad(day)
  }

  /** For a four-digit year and a month and day below 100 the date string is
      eight digits: the year, then the month, then the day. */
  lemma GetDateStringLayout(year: nat, month: nat, day: nat)
    requires 1000 <= year < 10000 && month < 100 && day < 100
    ensures var r := GetDateString(year, month, day);
      && |r| == 8
      && r[..4] == NatToString(year)
      && DigitsValue(r[..4]) == year
      && DigitsValue(r[4..6]) == month
      && DigitsValue(r[6..]) == day
  {
    var r := GetDateString(year, month, day);
    NatToStringFourDigits(year);
    NatToStringRoundTrip(year);
    ZeroPadTwoDigits(month);
    ZeroPadTwoDigits(day);
    assert r[..4] == NatToString(year);
    assert r[4..6] == ZeroPad(month);
    assert r[6..] == ZeroPad(day);
  }

  /** Splits an eight-digit `yyyymmdd` string back into its fields. */
  function ParseDateString(s: string): (r: Option<(nat, nat, nat)>)
    ensures r.Some? <==> |s| == 8 && AllDigits(s)
  {
    if |s| == 8 && AllDigits(s) then
      Some((DigitsValue(s[..4]), DigitsValue(s[4..6]), DigitsValue(s[6..])))
    else
      None
  }

  /** Parsing a generated date string recovers the date. */
  lemma DateStringRoundTrip(year: nat, month: nat, day: nat)
    requires 1000 <= year < 10000 && month < 100 && day < 100
    ensures ParseDateString(GetDateString(year, month, day)) == Some((year, month, day))
  {
    GetDateStringLayout(year, month, day);
  }

  /** Two different dates never produce the same file-name stem. */
  lemma DateStringInjective(y1: nat, m1: nat, d1: nat, y2: nat, m2: nat, d2: nat)
    requires 1000 <= y1 < 10000 && m1 < 100 && d1 < 100
    requires 1000 <= y2 < 10000 && m2 < 100 && d2 < 100
    requires GetDateString(y1, m1, d1) == GetDateString(y2, m2, d2)
    ensures y1 == y2 && m1 == m2 && d1 == d2
  {
    DateStringRoundTrip(y1, m1, d1);
    DateStringRoundTrip(y2, m2, d2);
  }

}
