/**
 * `java.time.LocalDate` as the dispatcher uses it: `LocalDate.parse` with the
 * ISO-8601 extended local-date format YYYY-MM-DD, and the same format when a
 * record is written back to the client.
 */
module Dates {
  import opened Optional
  import opened Text

  datatype Date = Date(year: int, month: int, day: int)

  /** The proleptic Gregorian leap-year rule. */
  predicate IsLeapYear(y: int)
  {
    y % 4 == 0 && (y % 100 != 0 || y % 400 == 0)
  }

  function DaysInMonth(y: int, m: int): int
  {
    if m == 2 then (if IsLeapYear(y) then 29 else 28)
    else if m == 4 || m == 6 || m == 9 || m == 11 then 30
    else 31
  }

  /** A date the strict ISO resolver accepts: a real month and a day that month has. */
  predicate IsCalendarDate(d: Date)
  {
    1 <= d.month <= 12 && 1 <= d.day <= DaysInMonth(d.year, d.month)
  }

  /** A calendar date whose year has the plain four-digit form. */
  predicate IsIsoDate(d: Date)
  {
    IsCalendarDate(d) && 0 <= d.year <= 9999
  }

  predicate IsDigit(c: char)
  {
    '0' <= c <= '9'
  }

  function DigitValue(c: char): int
  {
    c as int - '0' as int
  }

  /** Two decimal digits of a number below 100. */
  function Pad2(n: int): string
    requires 0 <= n <= 99
  {
    [DigitChar(n / 10), DigitChar(n % 10)]
  }

  /** Four decimal digits of a number below 10000. */
  function Pad4(n: int): string
    requires 0 <= n <= 9999
  {
    Pad2(n / 100) + Pad2(n % 100)
  }

  /** The number two decimal digit characters spell. */
  function TwoDigits(a: char, b: char): int
  {
    10 * DigitValue(a) + DigitValue(b)
  }

  /** `LocalDate.toString` for the year: four digits, a sign outside 0..9999. */
  function YearText(y: int): string
  {
    if 0 <= y <= 9999 then Pad4(y)
    else if -999 <= y < 0 then "-" + Pad4(-y)
    else if 9999 < y then "+" + NatText(y)
    else "-" + NatText(-y)
  }

  /** Month and day: two digits. */
  function FieldText(n: int): string
  {
    if 0 <= n <= 99 then Pad2(n) else DecimalText(n)
  }

  /** `LocalDate.toString`, which is also how the JSON mapper writes a `dob`. */
  function FormatIsoDate(d: Date): (r: string)
    ensures |r| >= 6
    ensures 0 <= d.year <= 9999 && 0 <= d.month <= 99 && 0 <= d.day <= 99 ==> |r| == 10 && r[4] == '-' && r[7] == '-'
    ensures d.year < 0 ==> r[0] == '-'
    ensures d.year > 9999 ==> r[0] == '+'
  {
    YearText(d.year) + "-" + FieldText(d.month) + "-" + FieldText(d.day)
  }

  predicate DigitsAt(s: string)
    requires |s| == 10
  {
    IsDigit(s[0]) && IsDigit(s[1]) && IsDigit(s[2]) && IsDigit(s[3]) &&
    IsDigit(s[5]) && IsDigit(s[6]) && IsDigit(s[8]) && IsDigit(s[9])
  }

  /**
   * `LocalDate.parse(s)`: None where Java throws DateTimeParseException.
   * Whatever it accepts is a calendar date that prints back as `s`.
   */
  function ParseIsoDate(s: string): (r: Option<Date>)
    ensures r.Some? ==> IsIsoDate(r.value) && FormatIsoDate(r.value) == s
  {
    if |s| == 10 && s[4] == '-' && s[7] == '-' && DigitsAt(s) then
      var d := Date(100 * TwoDigits(s[0], s[1]) + TwoDigits(s[2], s[3]),
                    TwoDigits(s[5], s[6]),
                    TwoDigits(s[8], s[9]));
      if IsCalendarDate(d) then
        FormatOfDigits(s, d);
        Some(d)
      else None
    else None
  }

  lemma DigitRoundTrip(c: char)
    requires IsDigit(c)
    ensures 0 <= DigitValue(c) <= 9 && DigitChar(DigitValue(c)) == c
  {
  }

  /** Division by 10 of a number written as tens and units. */
  lemma DivMod10(q: int, r: int)
    requires 0 <= r < 10
    ensures (10 * q + r) / 10 == q && (10 * q + r) % 10 == r
  {
  }

  /** Division by 100 of a number written as hundreds and a remainder. */
  lemma DivMod100(q: int, r: int)
    requires 0 <= r < 100
    ensures (100 * q + r) / 100 == q && (100 * q + r) % 100 == r
  {
  }

  lemma Pad2OfDigits(a: char, b: char)
    requires IsDigit(a) && IsDigit(b)
    ensures 0 <= TwoDigits(a, b) <= 99 && Pad2(TwoDigits(a, b)) == [a, b]
  {
    DigitRoundTrip(a);
    DigitRoundTrip(b);
    DivMod10(DigitValue(a), DigitValue(b));
  }

  lemma Pad4OfPairs(p: int, q: int)
    requires 0 <= p <= 99 && 0 <= q <= 99
    ensures Pad4(100 * p + q) == Pad2(p) + Pad2(q)
  {
    DivMod100(p, q);
  }

  lemma FormatOfDigits(s: string, d: Date)
    requires |s| == 10 && s[4] == '-' && s[7] == '-' && DigitsAt(s)
    requires d.year == 100 * TwoDigits(s[0], s[1]) + TwoDigits(s[2], s[3])
    requires d.month == TwoDigits(s[5], s[6])
    requires d.day == TwoDigits(s[8], s[9])
    ensures FormatIsoDate(d) == s
  {
    Pad2OfDigits(s[0], s[1]);
    Pad2OfDigits(s[2], s[3]);
    Pad2OfDigits(s[5], s[6]);
    Pad2OfDigits(s[8], s[9]);
    Pad4OfPairs(TwoDigits(s[0], s[1]), TwoDigits(s[2], s[3]));
    assert s == [s[0], s[1]] + [s[2], s[3]] + "-" + [s[5], s[6]] + "-" + [s[8], s[9]];
  }

  /** The digit characters of Pad2(n) spell n again. */
  lemma Pad2Digits(n: int)
    requires 0 <= n <= 99
    ensures var t := Pad2(n); IsDigit(t[0]) && IsDigit(t[1]) && TwoDigits(t[0], t[1]) == n
  {
  }

  /** The text of a four-digit-year date: digit pairs for the century, the year in it, the month and the day. */
  lemma FormatShape(d: Date)
    requires IsIsoDate(d)
    ensures var s := FormatIsoDate(d);
      && |s| == 10 && s[4] == '-' && s[7] == '-' && DigitsAt(s)
      && TwoDigits(s[0], s[1]) == d.year / 100 && TwoDigits(s[2], s[3]) == d.year % 100
      && TwoDigits(s[5], s[6]) == d.month && TwoDigits(s[8], s[9]) == d.day
  {
    var p1, p2, p3, p4 := Pad2(d.year / 100), Pad2(d.year % 100), Pad2(d.month), Pad2(d.day);
    var s := FormatIsoDate(d);
    assert s == p1 + p2 + "-" + p3 + "-" + p4;
    Pad2Digits(d.year / 100);
    Pad2Digits(d.year % 100);
    Pad2Digits(d.month);
    Pad2Digits(d.day);
    assert s[0] == p1[0] && s[1] == p1[1] && s[2] == p2[0] && s[3] == p2[1];
    assert s[5] == p3[0] && s[6] == p3[1] && s[8] == p4[0] && s[9] == p4[1];
  }

  /** Writing a date and parsing it back gives the same date. */
  lemma ParseFormat(d: Date)
    requires IsIsoDate(d)
    ensures ParseIsoDate(FormatIsoDate(d)) == Some(d)
  {
    FormatShape(d);
  }

  /** `LocalDate.parse` accepts exactly the texts of four-digit-year calendar dates, each as its own date. */
  lemma ParseIsoDateExact(s: string, d: Date)
    ensures ParseIsoDate(s) == Some(d) <==> IsIsoDate(d) && FormatIsoDate(d) == s
  {
    if IsIsoDate(d) && FormatIsoDate(d) == s {
      ParseFormat(d);
    }
  }
}
