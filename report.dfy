/**
 * reportDay and report: the one line printed for a checked domain.  The day
 * count is an input here; how report derives it from the clock is modelled
 * only as the truncating division `TruncatedDays`.
 */
module Report {
  import opened Bytes
  import opened Parse

  function Abs(n: int): nat {
    if n < 0 then -n else n
  }

  /** What reportDay returns for `n`: its magnitude in words. */
  function DayText(n: int): (t: Text)
    ensures '\n' !in t && '\t' !in t
  {
    var k := Abs(n);
    if k == 0 then "today" else if k == 1 then "1 day" else Itoa(k) + " days"
  }

  /** reportDay, which first overwrites a negative count with its magnitude. */
  method ReportDay(expiration: int) returns (t: Text)
    ensures t == DayText(expiration)
  {
    var e := expiration;
    if e < 0 {
      e := -e;
    }
    if e == 0 {
      return "today";
    } else if e == 1 {
      return "1 day";
    } else {
      return Itoa(e) + " days";
    }
  }

  /** The text report prints after the host for a result with this freedom and day count. */
  function ReportText(isFree: bool, days: int): (t: Text)
    ensures '\n' !in t && '\t' !in t
    ensures t == "Free" <==> isFree
  {
    if isFree then "Free"
    else if days == 0 then "Expires " + DayText(days)
    else if days < 0 then "Expired " + DayText(days) + " ago"
    else "Expires in " + DayText(days)
  }

  /** The line report logs: host, a tab, then the text; it breaks only where the host does. */
  function ReportLine(result: CheckResult, days: int): (line: Text)
    ensures '\n' in line <==> '\n' in result.url
  {
    result.url + "\t" + ReportText(result.isFree, days)
  }

  /** For a host without a tab, the first tab of the line splits it back into host and text. */
  lemma ReportLineFields(result: CheckResult, days: int)
    requires '\t' !in result.url
    ensures var line := ReportLine(result, days);
            var i := Index(line, "\t");
            i == |result.url| && line[..i] == result.url && line[i + 1..] == ReportText(result.isFree, days)
  {
    var line := ReportLine(result, days);
    var n := |result.url|;
    assert line[n..n + 1] == "\t";
    forall j | 0 <= j < n
      ensures !OccursAt(line, "\t", j)
    {
      assert line[j..j + 1][0] == result.url[j];
    }
    assert OccursAt(line, "\t", n);
    IndexFindsFirst(line, "\t");
    assert Index(line, "\t") != -1;
    FirstOccurrenceUnique(line, "\t", Index(line, "\t"), n);
    assert line[..n] == result.url;
    assert line[n + 1..] == ReportText(result.isFree, days);
  }

  /** A registered domain's line determines its day count. */
  lemma ReportLineInjective(result: CheckResult, a: int, b: int)
    requires !result.isFree && ReportLine(result, a) == ReportLine(result, b)
    ensures a == b
  {
    var head := result.url + "\t";
    assert ReportLine(result, a) == head + ReportText(false, a);
    assert ReportLine(result, b) == head + ReportText(false, b);
    DropPrefix(head, ReportText(false, a), ReportText(false, b));
    ReportTextInjective(a, b);
  }

  /** reportDay only looks at the magnitude. */
  lemma DayTextSymmetric(n: int)
    ensures DayText(n) == DayText(-n)
  {
  }

  lemma DropSuffix(a: Text, b: Text, t: Text)
    requires a + t == b + t
    ensures a == b
  {
    assert a == (a + t)[..|a + t| - |t|];
    assert b == (b + t)[..|b + t| - |t|];
  }

  lemma DropPrefix(t: Text, a: Text, b: Text)
    requires t + a == t + b
    ensures a == b
  {
    assert a == (t + a)[|t|..];
    assert b == (t + b)[|t|..];
  }

  /** The first byte is a digit unless the count is zero; the last is 's' only for two or more days. */
  lemma DayTextClass(n: int)
    ensures |DayText(n)| >= 5
    ensures IsDigit(DayText(n)[0]) <==> Abs(n) != 0
    ensures DayText(n)[|DayText(n)| - 1] == 's' <==> Abs(n) >= 2
  {
    if Abs(n) >= 2 {
      var t := DayText(n);
      assert t[0] == Itoa(Abs(n))[0];
    }
  }

  /** Two day counts read the same exactly when they have the same magnitude. */
  lemma DayTextInjective(m: int, n: int)
    ensures DayText(m) == DayText(n) <==> Abs(m) == Abs(n)
  {
    if DayText(m) == DayText(n) {
      DayTextClass(m);
      DayTextClass(n);
      if Abs(m) >= 2 {
        DropSuffix(Itoa(Abs(m)), Itoa(Abs(n)), " days");
        ItoaInjective(Abs(m), Abs(n));
      }
    }
  }

  /** A free result always reads "Free", and no day count of a registered domain does. */
  lemma FreeTextDistinct(days: int, d: int)
    ensures ReportText(true, days) == "Free"
    ensures ReportText(false, d) != "Free"
  {
    var t := ReportText(false, d);
    assert t[0] == 'E';
  }

  /** Byte 6 tells an expired domain; byte 8 tells one that expires today. */
  lemma ReportTextClass(days: int)
    ensures var t := ReportText(false, days);
            |t| > 8 && (t[6] == 'd' <==> days < 0) && (days >= 0 ==> (t[8] == 't' <==> days == 0))
  {
    DayTextClass(days);
  }

  /** The text of a registered domain determines its day count. */
  lemma ReportTextInjective(a: int, b: int)
    requires ReportText(false, a) == ReportText(false, b)
    ensures a == b
  {
    ReportTextClass(a);
    ReportTextClass(b);
    if a < 0 {
      DropSuffix("Expired " + DayText(a), "Expired " + DayText(b), " ago");
      DropPrefix("Expired ", DayText(a), DayText(b));
      DayTextInjective(a, b);
    } else {
      if a > 0 {
        DropPrefix("Expires in ", DayText(a), DayText(b));
        DayTextInjective(a, b);
      }
    }
  }

  /** The day texts the figures of the registry page produce. */
  lemma ExampleTexts()
    ensures ReportText(false, 0) == "Expires today"
    ensures ReportText(false, 1) == "Expires in 1 day"
    ensures ReportText(false, -1) == "Expired 1 day ago"
    ensures ReportText(false, -5) == "Expired 5 days ago"
    ensures ReportText(false, 12) == "Expires in 12 days"
  {
    ExampleItoa();
  }

  lemma ExampleItoa()
    ensures Itoa(5) == "5" && Itoa(12) == "12"
  {
    assert Itoa(1) == "1";
  }

  const SecondsPerDay: nat := 86400

  /**
   * report's int(hours / 24) for a time difference of `seconds`: Go's
   * conversion to int truncates toward zero.
   */
  function TruncatedDays(seconds: int): (days: int)
    ensures Abs(days) * SecondsPerDay <= Abs(seconds) < (Abs(days) + 1) * SecondsPerDay
    ensures days < 0 ==> seconds < 0
    ensures days > 0 ==> seconds > 0
  {
    if seconds < 0 then -((-seconds) / SecondsPerDay) else seconds / SecondsPerDay
  }

  /** Truncation is symmetric: a past difference gives the negated count of the same future one. */
  lemma TruncatedDaysSymmetric(seconds: int)
    ensures TruncatedDays(-seconds) == -TruncatedDays(seconds)
  {
  }

  /**
   * An expiration 12 hours ahead is reported as today, and one five and a
   * half days past as five days ago: the count truncates toward zero.
   */
  lemma ExampleTruncation()
    ensures ReportText(false, TruncatedDays(12 * 3600)) == "Expires today"
    ensures ReportText(false, TruncatedDays(-(5 * SecondsPerDay + 12 * 3600))) == "Expired 5 days ago"
  {
    ExampleTexts();
  }
}
