/** Assembly of the date prefix `String(year) + pad(week, 2) + day` from the
    integer year, ISO week and ISO weekday. The Date-library arithmetic that
    produces those integers is not part of this model; the weekday mapping
    and the week formula are given over integers. */
module CalendarPrefix {
  import opened Decimal

  /** The integers calculateDatePrefix derives from the current instant. */
  datatype CalendarDate = CalendarDate(year: nat, isoWeek: nat, isoWeekday: nat)

  /** `getUTCDay() || 7`: JavaScript numbers Sunday 0 and Monday..Saturday
      1..6; the ISO weekday keeps Monday..Saturday and makes Sunday 7. */
  function IsoWeekday(utcDay: nat): (d: nat)
    requires utcDay < 7
    ensures 1 <= d <= 7 && d % 7 == utcDay
  {
    if utcDay == 0 then 7 else utcDay
  }

  /** `Math.ceil((days + 1) / 7)` where days counts from 1 January to the
      Thursday of the date's week, taken here as a whole number of days. */
  function WeekOfThursday(days: nat): (w: nat)
    ensures 1 <= w && 7 * (w - 1) < days + 1 <= 7 * w
    ensures days < 366 ==> w <= 53
  {
    (days + 1 + 6) / 7
  }

  /** The year number emitted: all of it for format "4", otherwise the year
      modulo 100 (`year % 100`). Any format other than "4" is the 2-digit one. */
  function YearField(year: nat, yearFormat: string): (y: nat)
    ensures y <= year
    ensures yearFormat != "4" ==> y < 100
  {
    if yearFormat == "4" then year else year % 100
  }

  /** The prefix exactly as the action builds it: the 2-digit year is written
      with `String(...)`, so years whose last two digits are 00..09 come out
      as a single digit. */
  function DatePrefixAsWritten(date: CalendarDate, yearFormat: string): (p: string)
    ensures AllDigits(p)
  {
    DecimalString(YearField(date.year, yearFormat)) + Pad(date.isoWeek, 2) + DecimalString(date.isoWeekday)
  }

  /** The year as the corrected prefix writes it: all digits for format "4",
      otherwise the last two digits, padded to two characters. */
  function YearText(year: nat, yearFormat: string): string
  {
    if yearFormat == "4" then DecimalString(year) else Pad(year % 100, 2)
  }

  /** The prefix with the 2-digit year padded to two digits, so that every
      prefix of a 4-digit year is five or seven digits long. */
  function DatePrefix(date: CalendarDate, yearFormat: string): (p: string)
    ensures AllDigits(p)
  {
    YearText(date.year, yearFormat) + Pad(date.isoWeek, 2) + DecimalString(date.isoWeekday)
  }

  lemma SmallPowers()
    ensures Pow10(0) == 1 && Pow10(1) == 10 && Pow10(2) == 100 && Pow10(3) == 1000 && Pow10(4) == 10000
  {
  }

  /** A number below 100 padded to width 2 is two digits that read back as it. */
  lemma TwoDigitField(n: nat)
    requires n < 100
    ensures |Pad(n, 2)| == 2 && DigitsValue(Pad(n, 2)) == n
  {
    SmallPowers();
    if n < 10 {
      DecimalStringLength(n, 1);
    } else {
      DecimalStringLength(n, 2);
    }
    PadValue(n, 2);
  }

  /** A number below 10 is written as one digit that reads back as it. */
  lemma OneDigitField(n: nat)
    requires n < 10
    ensures |DecimalString(n)| == 1 && DigitsValue(DecimalString(n)) == n
  {
    SmallPowers();
    DecimalStringLength(n, 1);
    DecimalStringValue(n);
  }

  lemma YearTextShape(year: nat, yearFormat: string)
    requires yearFormat == "4" ==> 1000 <= year <= 9999
    ensures |YearText(year, yearFormat)| == (if yearFormat == "4" then 4 else 2)
    ensures DigitsValue(YearText(year, yearFormat)) == YearField(year, yearFormat)
  {
    if yearFormat == "4" {
      SmallPowers();
      DecimalStringLength(year, 4);
      DecimalStringValue(year);
    } else {
      TwoDigitField(year % 100);
    }
  }

  /** For a week 1..53, a weekday 1..7 and (in format "4") a four-digit year,
      the prefix is 5 digits (format "2") or 7 digits (format "4") and its
      year, week and weekday fields read back as the numbers put in. */
  lemma DatePrefixShape(date: CalendarDate, yearFormat: string)
    requires 1 <= date.isoWeek <= 53 && 1 <= date.isoWeekday <= 7
    requires yearFormat == "4" ==> 1000 <= date.year <= 9999
    ensures |DatePrefix(date, yearFormat)| == (if yearFormat == "4" then 7 else 5)
    ensures var p := DatePrefix(date, yearFormat); |p| >= 3 && AllDigits(p[..|p| - 3]) && DigitsValue(p[..|p| - 3]) == YearField(date.year, yearFormat)
    ensures var p := DatePrefix(date, yearFormat); |p| >= 3 && AllDigits(p[|p| - 3..|p| - 1]) && DigitsValue(p[|p| - 3..|p| - 1]) == date.isoWeek
    ensures var p := DatePrefix(date, yearFormat); |p| >= 3 && AllDigits(p[|p| - 1..]) && DigitsValue(p[|p| - 1..]) == date.isoWeekday
  {
    var yearText, weekText, dayText := YearText(date.year, yearFormat), Pad(date.isoWeek, 2), DecimalString(date.isoWeekday);
    YearTextShape(date.year, yearFormat);
    TwoDigitField(date.isoWeek);
    OneDigitField(date.isoWeekday);
    ThreeFields(DatePrefix(date, yearFormat), yearText, weekText, dayText);
  }

  lemma ThreeFields(p: string, a: string, b: string, c: string)
    requires p == a + b + c && AllDigits(p) && |b| == 2 && |c| == 1
    ensures |p| == |a| + 3
    ensures AllDigits(a) && AllDigits(b) && AllDigits(c)
    ensures p[..|p| - 3] == a && p[|p| - 3..|p| - 1] == b && p[|p| - 1..] == c
  {
    assert p[..|a|] == a && p[|a|..|a| + 2] == b && p[|a| + 2..] == c;
  }

  /** Spelled out digit by digit: a 2-digit-format prefix whose year, week
      and weekday numbers are all single digits. */
  lemma SingleDigitFieldsPrefix(date: CalendarDate, yearFormat: string)
    requires yearFormat != "4" && date.year % 100 < 10 && date.isoWeek < 10 && date.isoWeekday < 10
    ensures DatePrefix(date, yearFormat) == ['0', DigitChar(date.year % 100), '0', DigitChar(date.isoWeek), DigitChar(date.isoWeekday)]
  {
    PadOneDigit(date.year % 100);
    PadOneDigit(date.isoWeek);
    PadOneDigit(date.isoWeekday);
  }

  /** The same for a year whose last two digits are 10..99. */
  lemma TwoDigitYearPrefix(date: CalendarDate, yearFormat: string)
    requires yearFormat != "4" && 10 <= date.year % 100 && date.isoWeek < 10 && date.isoWeekday < 10
    ensures var y := date.year % 100;
      DatePrefix(date, yearFormat) == [DigitChar(y / 10), DigitChar(y % 10), '0', DigitChar(date.isoWeek), DigitChar(date.isoWeekday)]
  {
    PadTwoDigits(date.year % 100);
    PadOneDigit(date.isoWeek);
    PadOneDigit(date.isoWeekday);
  }

  /** The padded year changes nothing for format "4" or when the last two
      digits of the year are 10..99. */
  lemma DatePrefixAgreesWithAsWritten(date: CalendarDate, yearFormat: string)
    requires yearFormat == "4" || date.year % 100 >= 10
    ensures DatePrefixAsWritten(date, yearFormat) == DatePrefix(date, yearFormat)
  {
    if yearFormat != "4" {
      SmallPowers();
      DecimalStringLength(date.year % 100, 2);
    }
  }
}
