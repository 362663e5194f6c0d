/**
 * `_date_converter`: a release date written `YYYY/MM/DD` becomes the
 * canonical `YYYY-MM-DD` before it is stored in the date table.
 */
module Dates {
  import opened Wrappers

  predicate IsDigit(c: char) { '0' <= c <= '9' }

  function DigitValue(c: char): nat
    requires IsDigit(c)
  {
    (c as int) - ('0' as int)
  }

  /** The year, month and day written at their fixed positions of a `YYYY?MM?DD` date. */
  function Year(s: string): nat
    requires HasDigitFields(s)
  {
    1000 * DigitValue(s[0]) + 100 * DigitValue(s[1]) + 10 * DigitValue(s[2]) + DigitValue(s[3])
  }

  function Month(s: string): nat
    requires HasDigitFields(s)
  {
    10 * DigitValue(s[5]) + DigitValue(s[6])
  }

  function Day(s: string): nat
    requires HasDigitFields(s)
  {
    10 * DigitValue(s[8]) + DigitValue(s[9])
  }

  predicate IsLeapYear(y: nat) {
    y % 4 == 0 && (y % 100 != 0 || y % 400 == 0)
  }

  function DaysInMonth(y: nat, m: nat): nat
    requires 1 <= m <= 12
  {
    if m == 2 then (if IsLeapYear(y) then 29 else 28)
    else if m == 4 || m == 6 || m == 9 || m == 11 then 30
    else 31
  }

  /** The positions of the two separators in a `YYYY?MM?DD` date. */
  predicate IsSeparatorPosition(i: int) { i == 4 || i == 7 }

  /** Ten characters, digits everywhere except at the separator positions. */
  predicate HasDigitFields(s: string) {
    && |s| == 10
    && (forall i :: 0 <= i < 10 && !IsSeparatorPosition(i) ==> IsDigit(s[i]))
  }

  /** `s` has the shape `DDDD c DD c DD` with separator `c == sep`. */
  predicate HasDateShape(s: string, sep: char) {
    HasDigitFields(s) && s[4] == sep && s[7] == sep
  }

  /**
   * A zero-padded `%Y/%m/%d` date naming a real calendar day: year from 1,
   * month 1 to 12, day within that month of that year.
   */
  predicate IsSourceDate(s: string) {
    && HasDateShape(s, '/')
    && Year(s) >= 1
    && 1 <= Month(s) <= 12
    && 1 <= Day(s) <= DaysInMonth(Year(s), Month(s))
  }

  /** The date with both separators replaced by `sep`. */
  function WithSeparator(s: string, sep: char): (r: string)
    requires |s| == 10
    ensures |r| == 10 && r[4] == sep && r[7] == sep
    ensures forall i :: 0 <= i < 10 && !IsSeparatorPosition(i) ==> r[i] == s[i]
  {
    s[..4] + [sep] + s[5..7] + [sep] + s[8..]
  }

  /**
   * `_date_converter(date_str)`: parse with `%Y/%m/%d`, print with
   * `%Y-%m-%d`; a string that does not parse (the default `""` among them)
   * is a `ValueError`, here `None`.
   */
  function DateConverter(s: string): (r: Option<string>)
    ensures r.Some? <==> IsSourceDate(s)
    ensures r.Some? ==> HasDateShape(r.value, '-')
    ensures r.Some? ==> forall i :: 0 <= i < 10 && !IsSeparatorPosition(i) ==> r.value[i] == s[i]
  {
    if IsSourceDate(s) then Some(WithSeparator(s, '-')) else None
  }

  /** Putting the slashes back gives the input: nothing but the separators changes. */
  lemma DateConverterRoundTrip(s: string)
    requires IsSourceDate(s)
    ensures WithSeparator(DateConverter(s).value, '/') == s
  {
    var r := DateConverter(s).value;
    var back := WithSeparator(r, '/');
    forall i | 0 <= i < 10
      ensures back[i] == s[i]
    {
      if !IsSeparatorPosition(i) {
        assert back[i] == r[i];
      }
    }
  }

  /** Two source dates that normalise alike were the same date. */
  lemma DateConverterInjective(s: string, t: string)
    requires IsSourceDate(s) && IsSourceDate(t)
    requires DateConverter(s) == DateConverter(t)
    ensures s == t
  {
    DateConverterRoundTrip(s);
    DateConverterRoundTrip(t);
  }

  /** Converting a canonical date a second time fails: the converter is not idempotent. */
  lemma DateConverterNotIdempotent(s: string)
    requires IsSourceDate(s)
    ensures DateConverter(DateConverter(s).value) == None
  {
    assert DateConverter(s).value[4] == '-';
  }

  /** The missing-key default `""` is rejected. */
  lemma DateConverterRejectsEmpty()
    ensures DateConverter("") == None
  {
  }

  lemma DateConverterExample()
    ensures DateConverter("2023/03/17") == Some("2023-03-17")
  {
    assert WithSeparator("2023/03/17", '-') == "2023-03-17";
  }

  /** A February 29 date converts exactly when its year is a leap year. */
  lemma DateConverterLeapDayGeneral(s: string)
    requires HasDateShape(s, '/') && Year(s) >= 1 && Month(s) == 2 && Day(s) == 29
    ensures DateConverter(s).Some? <==> IsLeapYear(Year(s))
  {
    assert DaysInMonth(Year(s), 2) == (if IsLeapYear(Year(s)) then 29 else 28);
  }

  /** February 29 is rejected in 2023 and accepted in 2024. */
  lemma DateConverterLeapDay()
    ensures DateConverter("2023/02/29") == None
    ensures DateConverter("2024/02/29").Some?
  {
  }
}
