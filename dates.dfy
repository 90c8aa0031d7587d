/** Calendar days and their `YYYY-MM-DD` text form: the format test of the
    date-check endpoint and the conversion of a request's date string to
    the calendar day the database compares (`DATE(date)`). */
module Dates {
  import opened Common

  /** A calendar day with time of day already truncated. Month and day
      ranges are not constrained, just as the format test does not check them. */
  datatype Date = Date(year: nat, month: nat, day: nat)

  predicate IsDigit(c: char)
  {
    '0' <= c <= '9'
  }

  predicate AllDigits(s: string)
  {
    forall i :: 0 <= i < |s| ==> IsDigit(s[i])
  }

  /** The test `/^\d{4}-\d{2}-\d{2}$/`: four digits, '-', two digits, '-',
      two digits and nothing else (`$` in a JavaScript regex without the
      `m` flag anchors at the very end). */
  predicate IsDateFormat(s: string)
  {
    && |s| == 10
    && AllDigits(s[..4]) && s[4] == '-'
    && AllDigits(s[5..7]) && s[7] == '-'
    && AllDigits(s[8..])
  }

  function Pow10(n: nat): (r: nat)
    ensures r >= 1
  {
    if n == 0 then 1 else 10 * Pow10(n - 1)
  }

  /** The number a string of decimal digits denotes. */
  function DigitsValue(s: string): (r: nat)
    requires AllDigits(s)
    ensures r < Pow10(|s|)
  {
    if |s| == 0 then 0
    else
      var d := s[|s| - 1] as int - '0' as int;
      var hi := DigitsValue(s[..|s| - 1]);
      assert hi * 10 + d <= (Pow10(|s| - 1) - 1) * 10 + 9;
      hi * 10 + d
  }

  /** `n` written in exactly `width` decimal digits, zero-padded on the
      left (higher digits beyond the width are dropped). */
  function Pad(n: nat, width: nat): (s: string)
    ensures |s| == width && AllDigits(s)
  {
    if width == 0 then "" else Pad(n / 10, width - 1) + [('0' as int + n % 10) as char]
  }

  lemma {:induction false} PadThenRead(n: nat, width: nat)
    requires n < Pow10(width)
    ensures DigitsValue(Pad(n, width)) == n
  {
    if width > 0 {
      PadThenRead(n / 10, width - 1);
      var s := Pad(n, width);
      assert s[..|s| - 1] == Pad(n / 10, width - 1);
    }
  }

  lemma {:induction false} ReadThenPad(s: string)
    requires AllDigits(s)
    ensures Pad(DigitsValue(s), |s|) == s
  {
    if |s| > 0 {
      var init := s[..|s| - 1];
      ReadThenPad(init);
      var d := s[|s| - 1] as int - '0' as int;
      var v := DigitsValue(s);
      assert v == DigitsValue(init) * 10 + d;
      assert v / 10 == DigitsValue(init) && v % 10 == d;
      assert s == init + [s[|s| - 1]];
    }
  }

  /** The day a well-formed `YYYY-MM-DD` string names. */
  function ParseDate(s: string): Date
    requires IsDateFormat(s)
  {
    Date(DigitsValue(s[..4]), DigitsValue(s[5..7]), DigitsValue(s[8..]))
  }

  /** A day that fits the four/two/two digit layout. */
  predicate Writable(d: Date)
  {
    d.year < 10000 && d.month < 100 && d.day < 100
  }

  function FormatDate(d: Date): (s: string)
    requires Writable(d)
    ensures |s| == 10
  {
    Pad(d.year, 4) + "-" + Pad(d.month, 2) + "-" + Pad(d.day, 2)
  }

  /** Every writable day formats to a string the format test accepts, and
      reading that string back gives the same day. */
  lemma FormatThenParse(d: Date)
    requires Writable(d)
    ensures IsDateFormat(FormatDate(d))
    ensures ParseDate(FormatDate(d)) == d
  {
    var s := FormatDate(d);
    assert s[..4] == Pad(d.year, 4);
    assert s[5..7] == Pad(d.month, 2);
    assert s[8..] == Pad(d.day, 2);
    PadThenRead(d.year, 4);
    PadThenRead(d.month, 2);
    PadThenRead(d.day, 2);
  }

  /** Conversely, every string the format test accepts is the format of
      exactly the day it parses to: the test accepts exactly the formats of
      writable days. */
  lemma ParseThenFormat(s: string)
    requires IsDateFormat(s)
    ensures Writable(ParseDate(s))
    ensures FormatDate(ParseDate(s)) == s
  {
    ReadThenPad(s[..4]);
    ReadThenPad(s[5..7]);
    ReadThenPad(s[8..]);
    assert s == s[..4] + "-" + s[5..7] + "-" + s[8..];
  }

  /** The calendar day the database takes from a stored date value
      (`DATE(date)` on the column): the leading `YYYY-MM-DD` of a string,
      so that a time-of-day suffix is truncated; no day for anything else. */
  function DayOf(v: Value): (r: Option<Date>)
    ensures r.Some? ==> v.Text? && |v.s| >= 10 && IsDateFormat(v.s[..10]) && Writable(r.value)
  {
    if v.Text? && |v.s| >= 10 && IsDateFormat(v.s[..10]) then
      ParseThenFormat(v.s[..10]);
      Some(ParseDate(v.s[..10]))
    else None
  }

  /** A well-formed stored date names its own day, and any suffix after
      it (a time of day, a zone) leaves that day unchanged: stored as
      "2024-01-05" or "2024-01-05T23:59:59Z", the column's day is the same. */
  lemma SameDayWithSuffix(s: string, suffix: string)
    requires IsDateFormat(s)
    ensures DayOf(Text(s)) == Some(ParseDate(s))
    ensures DayOf(Text(s + suffix)) == DayOf(Text(s))
  {
    assert s[..10] == s;
    assert (s + suffix)[..10] == s;
  }
}
