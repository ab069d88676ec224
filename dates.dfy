/**
  The calendar arithmetic behind day links: parsing `[year].[month].[day]`,
  validating a proleptic Gregorian date, computing its weekday, and formatting
  `[weekday repr:short], [month repr:short] [day padding:none] '[year padding:none repr:last_two]`.
*/
module Dates {
  import opened Wrappers
  import Patterns

  datatype Date = Date(year: nat, month: nat, day: nat)

  predicate IsLeapYear(y: nat) {
    y % 4 == 0 && (y % 100 != 0 || y % 400 == 0)
  }

  function DaysInYear(y: nat): nat {
    if IsLeapYear(y) then 366 else 365
  }

  function DaysInMonth(y: nat, m: nat): nat
    requires 1 <= m <= 12
  {
    if m == 2 then (if IsLeapYear(y) then 29 else 28)
    else if m in {4, 6, 9, 11} then 30
    else 31
  }

  predicate IsValidDate(d: Date) {
    1 <= d.month <= 12 && 1 <= d.day <= DaysInMonth(d.year, d.month)
  }

  /** Days from 0000-01-01 to the first day of year `y`: 365 a year plus one per leap year before `y`. */
  function DaysBeforeYear(y: nat): nat {
    365 * y + (y + 3) / 4 - (y + 99) / 100 + (y + 399) / 400
  }

  /** Days from the first of January to the first day of month `m` (13 stands for the next year). */
  function DaysBeforeMonth(y: nat, m: nat): nat
    requires 1 <= m <= 13
  {
    var common := match m
      case 1 => 0 case 2 => 31 case 3 => 59 case 4 => 90 case 5 => 120 case 6 => 151
      case 7 => 181 case 8 => 212 case 9 => 243 case 10 => 273 case 11 => 304 case 12 => 334
      case _ => 365;
    common + (if m > 2 && IsLeapYear(y) then 1 else 0)
  }

  /** The number of days from 0000-01-01 to `d`. */
  function DayNumber(d: Date): nat
    requires IsValidDate(d)
  {
    DaysBeforeYear(d.year) + DaysBeforeMonth(d.year, d.month) + d.day - 1
  }

  /** 0 is Monday, 6 is Sunday; 0000-01-01 of the proleptic Gregorian calendar was a Saturday. */
  function Weekday(d: Date): (w: nat)
    requires IsValidDate(d)
    ensures w < 7
  {
    WeekdayOfNumber(DayNumber(d))
  }

  /** The weekday of day number `n`. */
  function WeekdayOfNumber(n: nat): (w: nat)
    ensures w < 7
  {
    (n + 5) % 7
  }

  /** The calendar successor of a date. */
  function NextDay(d: Date): Date
    requires IsValidDate(d)
  {
    if d.day < DaysInMonth(d.year, d.month) then Date(d.year, d.month, d.day + 1)
    else if d.month < 12 then Date(d.year, d.month + 1, 1)
    else Date(d.year + 1, 1, 1)
  }

  function ShortWeekday(w: nat): string
    requires w < 7
  {
    ["Mon", "Tue", "Wed", "Thu", "Fri", "Sat", "Sun"][w]
  }

  function ShortMonth(m: nat): string
    requires 1 <= m <= 12
  {
    ["Jan", "Feb", "Mar", "Apr", "May", "Jun", "Jul", "Aug", "Sep", "Oct", "Nov", "Dec"][m - 1]
  }

  // ---------------------------------------------------------------------------
  // Decimal digits

  function DigitValue(c: char): nat
    requires Patterns.IsAsciiDigit(c)
  {
    (c as int - '0' as int) as nat
  }

  predicate AllDigits(s: string) {
    forall k :: 0 <= k < |s| ==> Patterns.IsAsciiDigit(s[k])
  }

  /** The value of a string of decimal digits, most significant first. */
  function DigitsValue(s: string): nat
    requires AllDigits(s)
    decreases |s|
  {
    if |s| == 0 then 0 else DigitsValue(s[..|s| - 1]) * 10 + DigitValue(s[|s| - 1])
  }

  /** A natural number in decimal without padding. */
  function NatToString(n: nat): (r: string)
    ensures AllDigits(r) && |r| > 0
    decreases n
  {
    var c := ('0' as int + n % 10) as char;
    if n < 10 then [c] else NatToString(n / 10) + [c]
  }

  /** `Date::parse(text, "[year].[month].[day]")` on text of the shape `\d{4}\.\d{2}\.\d{2}`. */
  function ParseDate(text: string): (r: Option<Date>)
    requires Patterns.IsDateText(text)
    ensures r.Some? ==> IsValidDate(r.value)
  {
    var d := Date(DigitsValue(text[..4]), DigitsValue(text[5..7]), DigitsValue(text[8..10]));
    if IsValidDate(d) then Some(d) else None
  }

  /** The short form written in place of a day link. */
  function FormatShort(d: Date): string
    requires IsValidDate(d)
  {
    ShortWeekday(Weekday(d)) + ", " + ShortMonth(d.month) + " " + NatToString(d.day)
      + " '" + NatToString(d.year % 100)
  }

  // ---------------------------------------------------------------------------
  // Lemmas

  /** Printing a number and reading the digits back gives the number. */
  lemma {:induction false} DigitsOfNatToString(n: nat)
    ensures DigitsValue(NatToString(n)) == n
    decreases n
  {
    var s := NatToString(n);
    if n >= 10 {
      DigitsOfNatToString(n / 10);
      assert s[..|s| - 1] == NatToString(n / 10);
    } else {
      assert s[..0] == "";
    }
  }

  /** The day and the year are written without zero padding: a leading zero only for zero itself. */
  lemma {:induction false} NatToStringUnpadded(n: nat)
    ensures NatToString(n)[0] == '0' <==> n == 0
    ensures |NatToString(n)| == (if n < 10 then 1 else if n < 100 then 2 else |NatToString(n)|)
    decreases n
  {
    if n >= 10 {
      NatToStringUnpadded(n / 10);
      assert NatToString(n)[0] == NatToString(n / 10)[0];
    }
  }

  /** The closed form counts one year at a time. */
  lemma DaysBeforeNextYear(y: nat)
    ensures DaysBeforeYear(y + 1) == DaysBeforeYear(y) + DaysInYear(y)
  {
    var b4 := if y % 4 == 0 then 1 else 0;
    var b100 := if y % 100 == 0 then 1 else 0;
    var b400 := if y % 400 == 0 then 1 else 0;
    assert (y + 4) / 4 == (y + 3) / 4 + b4;
    assert (y + 100) / 100 == (y + 99) / 100 + b100;
    assert (y + 400) / 400 == (y + 399) / 400 + b400;
    assert DaysInYear(y) == 365 + b4 - b100 + b400 by { LeapCount(y); }
    assert DaysBeforeYear(y + 1) == 365 * y + 365 + (y + 4) / 4 - (y + 100) / 100 + (y + 400) / 400;
  }

  lemma LeapCount(y: nat)
    ensures DaysInYear(y) == 365 + (if y % 4 == 0 then 1 else 0) - (if y % 100 == 0 then 1 else 0)
      + (if y % 400 == 0 then 1 else 0)
  {
    if y % 100 == 0 { assert y % 4 == 0; }
    if y % 400 == 0 { assert y % 100 == 0; }
  }

  /** Consecutive dates have consecutive day numbers, so the count is an honest calendar. */
  lemma NextDayNumber(d: Date)
    requires IsValidDate(d)
    ensures IsValidDate(NextDay(d)) && DayNumber(NextDay(d)) == DayNumber(d) + 1
  {
    if d.day == DaysInMonth(d.year, d.month) && d.month == 12 {
      DaysBeforeNextYear(d.year);
    }
  }

  /** Each next day is the next weekday. */
  lemma WeekdayOfNextDay(d: Date)
    requires IsValidDate(d)
    ensures Weekday(NextDay(d)) == (Weekday(d) + 1) % 7
  {
    NextDayNumber(d);
    NextWeekday(DayNumber(d));
  }

  /** The day after day number `n` falls on the next weekday, Sunday wrapping round to Monday. */
  lemma NextWeekday(n: nat)
    ensures WeekdayOfNumber(n + 1) == (WeekdayOfNumber(n) + 1) % 7
  {
  }

  /** Anchors of the weekday count. */
  lemma KnownWeekdays()
    ensures Weekday(Date(2000, 1, 1)) == 5   // Saturday
    ensures Weekday(Date(2023, 12, 3)) == 6  // Sunday
    ensures Weekday(Date(2024, 2, 29)) == 3  // Thursday
  {
  }

  /** The decimal digit of a value below ten. */
  function Digit(n: nat): (c: char)
    requires n < 10
    ensures Patterns.IsAsciiDigit(c) && DigitValue(c) == n
  {
    ('0' as int + n) as char
  }

  /** A valid date written `yyyy.mm.dd`, zero padded, as the day links of an export carry it. */
  function PaddedDate(d: Date): (r: string)
    requires d.year < 10000 && IsValidDate(d)
    ensures Patterns.IsDateText(r)
  {
    [Digit(d.year / 10 / 10 / 10), Digit(d.year / 10 / 10 % 10), Digit(d.year / 10 % 10), Digit(d.year % 10), '.',
     Digit(d.month / 10), Digit(d.month % 10), '.', Digit(d.day / 10), Digit(d.day % 10)]
  }

  /** The fields of a `yyyy.mm.dd` text, digit by digit. */
  lemma FieldValues(text: string)
    requires Patterns.IsDateText(text)
    ensures DigitsValue(text[..4]) ==
      DigitValue(text[0]) * 1000 + DigitValue(text[1]) * 100 + DigitValue(text[2]) * 10 + DigitValue(text[3])
    ensures DigitsValue(text[5..7]) == DigitValue(text[5]) * 10 + DigitValue(text[6])
    ensures DigitsValue(text[8..10]) == DigitValue(text[8]) * 10 + DigitValue(text[9])
  {
    var y := text[..4];
    assert y[..3][..2] == y[..2] && y[..2][..1] == y[..1] && y[..1][..0] == [];
    assert DigitsValue(y[..1]) == DigitValue(text[0]);
    assert DigitsValue(y[..2]) == DigitValue(text[0]) * 10 + DigitValue(text[1]);
    assert DigitsValue(y[..3]) == DigitValue(text[0]) * 100 + DigitValue(text[1]) * 10 + DigitValue(text[2]);
    var m := text[5..7];
    assert m[..1][..0] == [] && m[..1] == [text[5]];
    assert DigitsValue(m[..1]) == DigitValue(text[5]);
    var dd := text[8..10];
    assert dd[..1][..0] == [] && dd[..1] == [text[8]];
    assert DigitsValue(dd[..1]) == DigitValue(text[8]);
  }

  lemma SplitFour(n: nat)
    requires n < 10000
    ensures n / 10 / 10 / 10 < 10
    ensures n / 10 / 10 / 10 * 1000 + n / 10 / 10 % 10 * 100 + n / 10 % 10 * 10 + n % 10 == n
  {
    var q1 := n / 10;
    var q2 := q1 / 10;
    var q3 := q2 / 10;
    assert n == q1 * 10 + n % 10;
    assert q1 == q2 * 10 + q1 % 10;
    assert q2 == q3 * 10 + q2 % 10;
  }

  /** Reading back a padded date gives the date: `ParseDate` inverts `PaddedDate`. */
  lemma ParsePadded(d: Date)
    requires d.year < 10000 && IsValidDate(d)
    ensures ParseDate(PaddedDate(d)) == Some(d)
  {
    var t := PaddedDate(d);
    FieldValues(t);
    SplitFour(d.year);
    assert DigitsValue(t[..4]) == d.year;
    assert DigitsValue(t[5..7]) == d.month;
    assert DigitsValue(t[8..10]) == d.day;
  }

  /** 3 December 2023, padded and in short form. */
  lemma FormatExample()
    ensures PaddedDate(Date(2023, 12, 3)) == "2023.12.03"
    ensures FormatShort(Date(2023, 12, 3)) == "Sun, Dec 3 '23"
  {
    KnownWeekdays();
    assert NatToString(3) == "3";
    assert NatToString(23) == NatToString(2) + "3" == "23";
  }

  /** Day and year are not padded: the 13th of January 2005 is written with the year `'5`. */
  lemma FormatUnpadded()
    ensures Weekday(Date(2005, 1, 13)) == 3  // Thursday
    ensures FormatShort(Date(2005, 1, 13)) == "Thu, Jan 13 '5"
  {
    assert NatToString(5) == "5";
    assert NatToString(13) == NatToString(1) + "3" == "13";
  }

  /**
    The short form read field by field: the weekday and month names, then the
    day and the last two digits of the year, each in digits that read back as
    that number.
  */
  lemma FormatShortFields(d: Date)
    requires IsValidDate(d)
    ensures var r := FormatShort(d);
      var day := NatToString(d.day);
      var yy := NatToString(d.year % 100);
      && r == ShortWeekday(Weekday(d)) + ", " + ShortMonth(d.month) + " " + day + " '" + yy
      && |ShortWeekday(Weekday(d))| == 3 && |ShortMonth(d.month)| == 3
      && DigitsValue(day) == d.day && 1 <= |day| <= 2 && day[0] != '0'
      && DigitsValue(yy) == d.year % 100 && 1 <= |yy| <= 2
  {
    DigitsOfNatToString(d.day);
    DigitsOfNatToString(d.year % 100);
    NatToStringUnpadded(d.day);
    NatToStringUnpadded(d.year % 100);
  }

  /** The date of the comments beside the format: the 3rd of January 2023 was a Tuesday. */
  lemma CommentDate()
    ensures Weekday(Date(2023, 1, 3)) == 1  // Tuesday
    ensures FormatShort(Date(2023, 1, 3)) == "Tue, Jan 3 '23"
  {
    assert NatToString(3) == "3";
    assert NatToString(23) == NatToString(2) + "3" == "23";
  }
}
