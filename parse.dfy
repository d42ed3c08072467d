/**
 * processURLResult: classify a results page.  A page that mentions the
 * "free" marker anywhere is a free domain; otherwise the expiration day is
 * the ten bytes found a fixed 72 bytes after the first "Datum expirace".
 */
module Parse {
  import opened Wrappers
  import opened Bytes
  import opened Errors
  import opened Dates

  /** "not found": the registry has no record, so the domain is free. */
  const HaystackFree: Text := "nebyla nalezena"
  /** Label of the expiration row of a registered domain. */
  const HaystackExpiration: Text := "Datum expirace"
  /** From the start of the label to the start of the date, in bytes. */
  const ExpirationOffset: nat := 72
  /** Length of "DD.MM.YYYY". */
  const ExpirationLength: nat := 10

  /** The outcome of one check; `expiration` is None for a free domain. */
  datatype CheckResult = CheckResult(url: Text, isFree: bool, expiration: Option<Date>)

  /**
   * The date slice taken relative to the marker index `index` (which may be
   * -1, the "not found" of strings.Index), then parsed by strToDate.  A slice
   * past the end of the page, where Go panics, is ContentTooShort.
   */
  function ExpirationAt(url: Text, content: Text, index: int): (r: Result<CheckResult, Error>)
    requires index >= -1
  {
    var lo := index + ExpirationOffset;
    if lo + ExpirationLength > |content| then Failure(ContentTooShort)
    else match StrToDate(content[lo..lo + ExpirationLength])
      case None => Failure(DateParse)
      case Some(d) => Success(CheckResult(url, false, Some(d)))
  }

  /**
   * processURLResult exactly as written: when the expiration marker is
   * absent, strings.Index gives -1 and the slice starts at byte 71.
   */
  function ParsedResultAsWritten(url: Text, content: Text): (r: Result<CheckResult, Error>)
    ensures r != Failure(MarkerNotFound)
    ensures r.Success? ==> r.value.url == url && (r.value.isFree <==> Contains(content, HaystackFree))
  {
    if Contains(content, HaystackFree) then Success(CheckResult(url, true, None))
    else ExpirationAt(url, content, Index(content, HaystackExpiration))
  }

  /** processURLResult with the missing marker reported as MarkerNotFound. */
  function ParsedResult(url: Text, content: Text): Result<CheckResult, Error> {
    if Contains(content, HaystackFree) then Success(CheckResult(url, true, None))
    else
      var index := Index(content, HaystackExpiration);
      if index < 0 then Failure(MarkerNotFound) else ExpirationAt(url, content, index)
  }

  /** processURLResult, filling the result record one field at a time. */
  method ProcessURLResult(url: Text, content: Text) returns (r: Result<CheckResult, Error>)
    ensures r == ParsedResult(url, content)
  {
    var ret := CheckResult([], false, None);
    ret := ret.(url := url);
    ret := ret.(isFree := Contains(content, HaystackFree));
    if ret.isFree {
      return Success(ret);
    }
    var index := Index(content, HaystackExpiration);
    if index < 0 {
      return Failure(MarkerNotFound);
    }
    var lo := index + ExpirationOffset;
    if lo + ExpirationLength > |content| {
      return Failure(ContentTooShort);
    }
    var sub := content[lo..lo + ExpirationLength];
    var expiration := StrToDate(sub);
    if expiration.None? {
      return Failure(DateParse);
    }
    ret := ret.(expiration := expiration);
    return Success(ret);
  }

  /**
   * The free marker decides on its own: any two pages that contain it give
   * the same free result for the given host, whatever else they hold.
   */
  lemma FreeMarkerDecides(url: Text, c1: Text, c2: Text)
    requires Contains(c1, HaystackFree) && Contains(c2, HaystackFree)
    ensures ParsedResult(url, c1) == ParsedResult(url, c2)
    ensures ParsedResult(url, c1) == Success(CheckResult(url, true, None))
  {
  }

  /** A successful result carries the host it was asked about, and is free exactly when the page says so. */
  lemma ResultShape(url: Text, content: Text)
    requires ParsedResult(url, content).Success?
    ensures ParsedResult(url, content).value.url == url
    ensures ParsedResult(url, content).value.isFree <==> Contains(content, HaystackFree)
    ensures ParsedResult(url, content).value.isFree <==> ParsedResult(url, content).value.expiration.None?
  {
  }

  /**
   * A date is read from exactly ten bytes starting 72 bytes after the first
   * occurrence of the marker: the page is parsed as its label, 58 bytes of
   * markup, and the day printed as "DD.MM.YYYY".
   */
  lemma ReadsPrintedDate(url: Text, before: Text, markup: Text, d: Date, after: Text)
    requires |markup| == ExpirationOffset - |HaystackExpiration|
    requires ValidDate(d)
    requires !Contains(before + HaystackExpiration + markup + DayMonthYear(d) + after, HaystackFree)
    requires FirstOccurrence(before + HaystackExpiration + markup + DayMonthYear(d) + after, HaystackExpiration, |before|)
    ensures ParsedResult(url, before + HaystackExpiration + markup + DayMonthYear(d) + after)
            == Success(CheckResult(url, false, Some(d)))
  {
    var content := before + HaystackExpiration + markup + DayMonthYear(d) + after;
    var i := |before|;
    IndexFindsFirst(content, HaystackExpiration);
    FirstOccurrenceUnique(content, HaystackExpiration, Index(content, HaystackExpiration), i);
    assert content[i + ExpirationOffset..i + ExpirationOffset + ExpirationLength] == DayMonthYear(d);
    StrToDateRoundTrip(d);
  }

  /** Without either marker the page is MarkerNotFound; with the label too close to the end it is ContentTooShort. */
  lemma ErrorCases(url: Text, content: Text)
    requires !Contains(content, HaystackFree)
    ensures ParsedResult(url, content) == Failure(MarkerNotFound) <==> !Contains(content, HaystackExpiration)
    ensures Contains(content, HaystackExpiration) ==>
              (ParsedResult(url, content) == Failure(ContentTooShort) <==>
               Index(content, HaystackExpiration) + ExpirationOffset + ExpirationLength > |content|)
  {
  }

  /**
   * As written, a page with neither marker that is at least 81 bytes long is
   * not an error: its bytes 71 to 80 are parsed as the expiration date.
   */
  lemma AsWrittenReadsOffset71(url: Text, content: Text)
    requires !Contains(content, HaystackFree) && !Contains(content, HaystackExpiration)
    requires |content| >= ExpirationOffset + ExpirationLength - 1
    ensures ParsedResultAsWritten(url, content) == ExpirationAt(url, content, -1)
    ensures ParsedResult(url, content) == Failure(MarkerNotFound)
  {
  }

  /** The two definitions agree on every page that has the free marker or the expiration marker. */
  lemma AsWrittenAgreesWithMarker(url: Text, content: Text)
    requires Contains(content, HaystackFree) || Contains(content, HaystackExpiration)
    ensures ParsedResultAsWritten(url, content) == ParsedResult(url, content)
  {
  }

  /**
   * A page with no marker at all, 71 filler bytes and then a printed date:
   * as written the domain is reported as registered until that date;
   * corrected, it is an error.
   */
  lemma AsWrittenInventsDate(url: Text, d: Date)
    requires ValidDate(d)
    ensures var page := seq(71, _ => 'x') + DayMonthYear(d);
            ParsedResultAsWritten(url, page) == Success(CheckResult(url, false, Some(d)))
            && ParsedResult(url, page) == Failure(MarkerNotFound)
  {
    var page := seq(71, _ => 'x') + DayMonthYear(d);
    FillerPage(d);
    assert Index(page, HaystackExpiration) == -1;
    StrToDateRoundTrip(d);
    assert StrToDate(page[71..81]) == Some(d);
  }

  /** For instance 71 filler bytes and "01.02.2030" read as 1 February 2030. */
  lemma AsWrittenExample(url: Text)
    ensures var page := seq(71, _ => 'x') + "01.02.2030";
            ParsedResultAsWritten(url, page) == Success(CheckResult(url, false, Some(Date(2030, 2, 1))))
            && ParsedResult(url, page) == Failure(MarkerNotFound)
  {
    AsWrittenInventsDate(url, Date(2030, 2, 1));
    ExampleDayMonthYear();
  }

  /** 71 filler bytes and a printed date hold neither marker; the date sits at offset 71. */
  lemma FillerPage(d: Date)
    ensures var page := seq(71, _ => 'x') + DayMonthYear(d);
            !Contains(page, HaystackFree) && !Contains(page, HaystackExpiration)
            && page[71..81] == DayMonthYear(d)
  {
    var page := seq(71, _ => 'x') + DayMonthYear(d);
    assert Avoids(page, {'n', 'D'}) by {
      forall i | 0 <= i < |page|
        ensures page[i] !in {'n', 'D'}
      {
        if i >= 71 {
          assert page[i] == DayMonthYear(d)[i - 71];
          assert IsDigit(page[i]) || page[i] == '.';
        }
      }
    }
    AvoidsFirstByte(page, HaystackFree);
    AvoidsFirstByte(page, HaystackExpiration);
    assert page[71..81] == DayMonthYear(d);
  }
}
