/**
 * strToDate: the page shows the expiration day as "DD.MM.YYYY"; the checker
 * rearranges it by slicing into an RFC 3339 timestamp at midnight UTC and hands
 * that to time.Parse.  Only the one timestamp shape that strToDate produces is
 * modelled for time.Parse: four-digit year, two-digit month and day of a real
 * Gregorian calendar day, then "T00:00:00.000Z".
 */
module Dates {
  import opened Wrappers
  import opened Bytes

  datatype Date = Date(year: nat, month: nat, day: nat)

  predicate IsLeapYear(y: nat) {
    y % 4 == 0 && (y % 100 != 0 || y % 400 == 0)
  }

  function DaysInMonth(month: nat, year: nat): nat
    requires 1 <= month <= 12
  {
    if month == 2 then (if IsLeapYear(year) then 29 else 28)
    else if month in {4, 6, 9, 11} then 30
    else 31
  }

  /** A day of the calendar that a four-digit year can name. */
  predicate ValidDate(d: Date) {
    d.year < 10000 && 1 <= d.month <= 12 && 1 <= d.day <= DaysInMonth(d.month, d.year)
  }

  const MidnightUTC: Text := "T00:00:00.000Z"

  /** The format string of strToDate filled with date[6:], date[3:5] and date[0:2]. */
  function Rfc3339Text(date: Text): (s: Text)
    requires |date| >= 6
    ensures |s| == |date| - 6 + 20
  {
    date[6..] + "-" + date[3..5] + "-" + date[0..2] + MidnightUTC
  }

  /** time.Parse(time.RFC3339, s) for the midnight-UTC timestamps strToDate builds. */
  function ParseRfc3339(s: Text): (r: Option<Date>)
    ensures r.Some? ==> ValidDate(r.value)
  {
    if |s| == 24 && AllDigits(s[0..4]) && s[4] == '-' && AllDigits(s[5..7]) && s[7] == '-'
       && AllDigits(s[8..10]) && s[10..] == MidnightUTC
    then
      var d := Date(Atoi(s[0..4]), Atoi(s[5..7]), Atoi(s[8..10]));
      DigitsAtoi(s[0..4]);
      if ValidDate(d) then Some(d) else None
    else None
  }

  /** strToDate: None stands for the error time.Parse returns. */
  function StrToDate(date: Text): (r: Option<Date>)
    requires |date| >= 6
    ensures r.Some? ==> ValidDate(r.value)
    ensures |date| != 10 ==> r == None
  {
    ParseRfc3339(Rfc3339Text(date))
  }

  /** How the registry page prints a day: "DD.MM.YYYY". */
  function DayMonthYear(d: Date): (s: Text)
    ensures |s| == 10
  {
    Digits(d.day, 2) + "." + Digits(d.month, 2) + "." + Digits(d.year, 4)
  }

  /** The RFC 3339 timestamp of midnight UTC on `d`: "YYYY-MM-DDT00:00:00.000Z". */
  function Rfc3339Midnight(d: Date): (s: Text)
    ensures |s| == 24
  {
    Digits(d.year, 4) + "-" + Digits(d.month, 2) + "-" + Digits(d.day, 2) + MidnightUTC
  }

  /** The separators at offsets 2 and 5 of a ten-byte date are never read. */
  lemma SeparatorsIgnored(a: Text, b: Text)
    requires |a| == 10 && |b| == 10
    requires forall i | 0 <= i < 10 && i != 2 && i != 5 :: a[i] == b[i]
    ensures Rfc3339Text(a) == Rfc3339Text(b)
  {
    assert a[6..] == b[6..];
    assert a[3..5] == b[3..5];
    assert a[0..2] == b[0..2];
  }

  /** Slicing "DD.MM.YYYY" as strToDate does yields "YYYY-MM-DDT00:00:00.000Z" with the same fields. */
  lemma ReassembleDayMonthYear(d: Date)
    ensures Rfc3339Text(DayMonthYear(d)) == Rfc3339Midnight(d)
  {
    var s := DayMonthYear(d);
    assert s[6..] == Digits(d.year, 4);
    assert s[3..5] == Digits(d.month, 2);
    assert s[0..2] == Digits(d.day, 2);
  }

  /** time.Parse reads back the fields of a valid day's timestamp. */
  lemma ParseRfc3339Midnight(d: Date)
    requires ValidDate(d)
    ensures ParseRfc3339(Rfc3339Midnight(d)) == Some(d)
  {
    var s := Rfc3339Midnight(d);
    assert s[0..4] == Digits(d.year, 4);
    assert s[5..7] == Digits(d.month, 2);
    assert s[8..10] == Digits(d.day, 2);
    assert s[10..] == MidnightUTC;
    AtoiDigits(d.year, 4);
    AtoiDigits(d.month, 2);
    AtoiDigits(d.day, 2);
  }

  /** Round trip: a valid day printed as "DD.MM.YYYY" comes back from strToDate unchanged. */
  lemma StrToDateRoundTrip(d: Date)
    requires ValidDate(d)
    ensures StrToDate(DayMonthYear(d)) == Some(d)
  {
    ReassembleDayMonthYear(d);
    ParseRfc3339Midnight(d);
  }

  /**
   * Conversely, when strToDate accepts ten bytes, they are the day, month
   * and year of the result in "DD?MM?YYYY" form, whatever the separators.
   */
  lemma StrToDateFields(s: Text)
    requires |s| == 10 && StrToDate(s).Some?
    ensures s[0..2] == Digits(StrToDate(s).value.day, 2)
    ensures s[3..5] == Digits(StrToDate(s).value.month, 2)
    ensures s[6..10] == Digits(StrToDate(s).value.year, 4)
  {
    var t := Rfc3339Text(s);
    assert t[0..4] == s[6..10];
    assert t[5..7] == s[3..5];
    assert t[8..10] == s[0..2];
    DigitsAtoi(s[6..10]);
    DigitsAtoi(s[3..5]);
    DigitsAtoi(s[0..2]);
  }

  /** Each of the ten bytes of a date other than the two separators decides the result. */
  lemma StrToDateRejectsNonDigit(s: Text, i: nat)
    requires |s| == 10 && i < 10 && i != 2 && i != 5 && !IsDigit(s[i])
    ensures StrToDate(s) == None
  {
    var t := Rfc3339Text(s);
    if i < 2 {
      assert t[8..10] == s[0..2];
      assert t[8..10][i] == s[i];
    } else if i < 5 {
      assert t[5..7] == s[3..5];
      assert t[5..7][i - 3] == s[i];
    } else {
      assert t[0..4] == s[6..10];
      assert t[0..4][i - 6] == s[i];
    }
  }

  /** Example: "01.02.2030" is the first of February 2030. */
  lemma ExampleDate()
    ensures StrToDate("01.02.2030") == Some(Date(2030, 2, 1))
  {
    var d := Date(2030, 2, 1);
    StrToDateRoundTrip(d);
    ExampleDayMonthYear();
  }

  lemma ExampleDayMonthYear()
    ensures DayMonthYear(Date(2030, 2, 1)) == "01.02.2030"
  {
    assert Digits(1, 2) == "01";
    assert Digits(2, 2) == "02";
    assert Digits(2030, 4) == "2030";
  }

  /** Example: a date with letters in the day field is refused. */
  lemma ExampleBadDate()
    ensures StrToDate("XX.02.2030") == None
  {
    StrToDateRejectsNonDigit("XX.02.2030", 0);
  }
}
