# czdomain checker, modelled in Dafny

czdomain is a command-line tool. It asks the whois pages of the .cz
registry whether a second-level domain is free and, if it is not, when its
registration expires. This project models the checker's core from
`cznic-checker.go`:

- **Normalisation** (`normalizeCzURL`). A user's input becomes a host: add
  `http://` and `.cz` when they are missing, take the host part the way
  `url.Parse` does, and reject hosts with more than one dot.
- **Date reading** (`strToDate`). A `DD.MM.YYYY` date is rearranged into an
  RFC 3339 midnight-UTC timestamp and parsed.
- **Page classification** (`processURLResult`). A page that contains
  `nebyla nalezena` is a free domain. Otherwise the ten bytes 72 bytes after
  the first `Datum expirace` are the expiration date.
- **Reporting** (`reportDay` and the text selection of `report`). This gives
  "Free", "Expires today", "Expires in N days" or "Expired N days ago".
- **The check loop** (`CheckURL`). Normalise, then fetch the registry page
  again after every page that shows the captcha, then classify the first
  page that does not.
- **The batch driver** (`processURL`, `startArgLoop`). Each domain is
  checked in turn. A result is logged as one line. The first error ends the
  run (`log.Fatalf`).

Go strings are byte strings, so text is `seq<Byte>`, with `Byte` the
characters below 256. The captcha marker "Kontrolní kód" appears as its
UTF-8 bytes.

Each imperative Go function is modelled twice:

- a method that takes the same steps in the same order;
- a specification function.

The method's postcondition ties its result to the specification function,
and the lemmas are proved about that function.

The network is a parameter: `CheckURL` takes the sequence of outcomes that
its successive `getPageContent` calls return. The user who solves a captcha
and presses enter is simply the next element of that sequence. If every
fetch in the sequence shows the captcha, the check is still waiting for the
user (`AwaitingCaptcha`). The day count that `report` derives from the
clock is an input.

Modules:

- `Wrappers`: Option and Result.
- `Errors`: the error kinds.
- `Bytes`: `strings.Index`/`Contains`/`Count`, `strconv.Itoa`, and decimal
  digits.
- `Normalize`, `Dates`, `Parse`, `Report`, `Driver`: the Go functions named
  above.

Two behaviours of the code differ from what one might assume of a URL
normaliser and a day counter; the model follows the code:

- **Normalisation is not idempotent.** `"foo/bar"` normalises to `"foo"`,
  because `.cz` is appended to the path and the path is then cut away. `"foo"`
  normalises to `"foo.cz"`. A result is a fixed point exactly when it ends in
  `.cz`; otherwise normalising it again appends `.cz` or refuses the name
  (`Normalize.IdempotentExactlyOnCz`, `Normalize.NormalizeAgainAppendsCz`,
  `Normalize.PathDefeatsSuffix`).
- **Day count truncation.** `int(hours / 24)` truncates toward zero. An
  expiry twelve hours away is therefore "Expires today", not "in 1 day"
  (`Report.ExampleTruncation`).

## Model

| member | source | states |
|---|---|---|
| Normalize.NormalizeCzURL | cznic-checker.go:135-155 | Adds "http://" when the prefix is missing, then ".cz" when the suffix is missing; parses the host and fails when it has more than one dot. The result equals NormalizedHost. |
| Normalize.BeforeFragmentIsPrefix | cznic-checker.go:144 | The part url.Parse checks for control bytes is the longest prefix of the address without '#'; the byte after it, if any, is '#'. |
| Normalize.BeforeFragmentAppend | cznic-checker.go:144 | A prefix without '#' lies wholly before the fragment. |
| Normalize.HostBeforeFragment | cznic-checker.go:144 | The host url.Parse returns lies wholly before the fragment, so every byte of it is checked for control bytes. |
| Normalize.ParseHostCuts | cznic-checker.go:144 | A clean host followed by nothing or a path, query or fragment parses to exactly that host, whatever control bytes the fragment holds. |
| Normalize.FragmentNotChecked | cznic-checker.go:144 | "foo#\x01" normalises to "foo": a control byte in the fragment is not an error. |
| Normalize.HostPartIsLongestPrefix | cznic-checker.go:144 | The host url.Parse takes after "http://" is the longest prefix with no '/', '?' or '#'; the byte after it, if any, is one of those. |
| Normalize.HostPartStopsAtDelimiter | cznic-checker.go:144 | A delimiter-free host followed by a path, query or fragment parses to exactly that host. |
| Normalize.NormalizedIsSecondLevel | cznic-checker.go:150-154 | A returned host has at most one dot, no URL delimiter and no control byte. |
| Normalize.SecondLevelRule | cznic-checker.go:150-152 | Normalisation fails as "not second-level" exactly when the parsed host has two or more dots. |
| Normalize.NoSlashNoScheme | cznic-checker.go:136-138 | Text with no '/' never already starts with "http://", so the prefix is always added to it. |
| Normalize.HostParsesToItself | cznic-checker.go:136-148 | A clean host ending in ".cz" parses to itself, written with or without "http://". |
| Normalize.NormalizeIdempotentOnCz | cznic-checker.go:135-155 | A normalised host that ends in ".cz" normalises to itself again. |
| Normalize.ParseAppendedHost | cznic-checker.go:136-144 | A clean host without ".cz" gets "http://" and ".cz" added and parses to host + ".cz". |
| Normalize.NormalizeAgainAppendsCz | cznic-checker.go:135-155 | A normalised host that does not end in ".cz" normalises again to host + ".cz", or is refused as not second-level. |
| Normalize.IdempotentExactlyOnCz | cznic-checker.go:135-155 | A normalised host normalises to itself exactly when it ends in ".cz". |
| Normalize.BareNameFixedPoint | cznic-checker.go:135-155 | A bare name without dots, delimiters or control bytes becomes name + ".cz", which is a fixed point. |
| Normalize.ExampleBareNames | cznic-checker.go:135-155 | "example" and "example.cz" both normalise to "example.cz". |
| Normalize.ExampleWithScheme | cznic-checker.go:136-138 | "http://example.cz" normalises to "example.cz". |
| Normalize.ExampleThirdLevel | cznic-checker.go:150-152 | "sub.example.cz" is refused as not second-level. |
| Normalize.PathDefeatsSuffix | cznic-checker.go:140-154 | "foo/bar" normalises to "foo" while "foo" normalises to "foo.cz": normalisation is not idempotent. |
| Bytes.IndexFindsFirst | cznic-checker.go:122 | strings.Index returns the first occurrence, and -1 exactly when there is none. |
| Bytes.ContainsIffOccurs | cznic-checker.go:116 | strings.Contains holds exactly when the pattern occurs somewhere. |
| Bytes.CountIsMultiplicity | cznic-checker.go:150 | strings.Count of one byte is its multiplicity in the text. |
| Bytes.AtoiItoa | cznic-checker.go:86 | strconv.Itoa's digits read back as the number. |
| Bytes.ItoaInjective | cznic-checker.go:86 | Different numbers have different decimal texts. |
| Dates.StrToDate | cznic-checker.go:70-73 | An accepted date is a valid calendar day; any input that is not ten bytes long is refused. |
| Dates.SeparatorsIgnored | cznic-checker.go:70-71 | Bytes 2 and 5 of the date never reach time.Parse. |
| Dates.StrToDateRoundTrip | cznic-checker.go:70-73 | A valid calendar day printed as DD.MM.YYYY comes back from strToDate as that day. |
| Dates.StrToDateFields | cznic-checker.go:70-73 | When strToDate accepts ten bytes, they are the zero-padded day, month and year of the result. |
| Dates.StrToDateRejectsNonDigit | cznic-checker.go:70-73 | A non-digit in any of the eight field bytes makes strToDate fail. |
| Dates.ExampleDate | cznic-checker.go:70-73 | "01.02.2030" is 1 February 2030. |
| Dates.ExampleBadDate | cznic-checker.go:70-73 | "XX.02.2030" is an error. |
| Parse.ProcessURLResult | cznic-checker.go:113-133 | Sets the URL, then the free flag, then returns early when free, or else reads the date. The result equals ParsedResult. |
| Parse.FreeMarkerDecides | cznic-checker.go:116-120 | Any page with the free marker gives the free result for the host, whatever else it holds. |
| Parse.ResultShape | cznic-checker.go:113-133 | A success carries the host asked about; it is free exactly when the page has the free marker, and then it has no expiration. |
| Parse.ReadsPrintedDate | cznic-checker.go:122-132 | Label, 58 bytes of markup, then DD.MM.YYYY of a valid day: the result is that day, not free. |
| Parse.ErrorCases | cznic-checker.go:122-130 | Without the free marker: MarkerNotFound exactly when the label is missing; ContentTooShort exactly when the slice would run past the page end. |
| Parse.ParsedResultAsWritten | cznic-checker.go:113-133 | As written, processURLResult never reports a missing expiration marker; a success carries the host and is free exactly when the page has the free marker. |
| Parse.AsWrittenReadsOffset71 | cznic-checker.go:122-123 | As written, a page with neither marker has its bytes 71..80 parsed as a date. |
| Parse.AsWrittenAgreesWithMarker | cznic-checker.go:116-123 | The as-written and corrected readings agree whenever either marker is present. |
| Parse.AsWrittenInventsDate | cznic-checker.go:122-126 | A marker-less page of 71 filler bytes and a date: as written gives a registered domain with that expiration; corrected gives MarkerNotFound. |
| Parse.AsWrittenExample | cznic-checker.go:122-126 | The same with "01.02.2030" concretely. |
| Report.ReportDay | cznic-checker.go:75-88 | Takes the magnitude, then gives "today", "1 day" or "N days". The result equals DayText. |
| Report.DayTextSymmetric | cznic-checker.go:76-78 | reportDay(n) equals reportDay(-n). |
| Report.DayTextInjective | cznic-checker.go:75-88 | Two counts give the same day text exactly when their magnitudes are equal. |
| Report.ReportText | cznic-checker.go:91-107 | The text holds no line break and no tab, and it is "Free" exactly when the domain is free. |
| Report.ReportLine | cznic-checker.go:110 | The logged line has a line break exactly when the host has one. |
| Report.ReportLineFields | cznic-checker.go:110 | For a host without a tab, the first tab of the line sits right after the host, and what follows it is the report text. |
| Report.ReportLineInjective | cznic-checker.go:94-110 | A registered domain's logged line determines its day count. |
| Report.FreeTextDistinct | cznic-checker.go:92-93 | A free domain reads "Free", and no registered domain's text does. |
| Report.ReportTextClass | cznic-checker.go:98-107 | Byte 6 of a registered domain's text tells expired from not; byte 8 tells "today". |
| Report.ReportTextInjective | cznic-checker.go:94-107 | A registered domain's text determines its signed day count. |
| Report.ExampleTexts | cznic-checker.go:75-107 | Texts for 0, 1, -1, -5 and 12 days. |
| Report.TruncatedDays | cznic-checker.go:95 | The count is the whole days in the difference, truncated toward zero, and never has the opposite sign of the difference. |
| Report.TruncatedDaysSymmetric | cznic-checker.go:95 | A past difference gives the negated count of the same future difference. |
| Report.ExampleTruncation | cznic-checker.go:95-107 | 12 hours ahead reads "Expires today"; five and a half days past reads "Expired 5 days ago". |
| Driver.CheckURL | cznic-checker.go:158-184 | Normalises, then fetches until a page without the captcha; returns the outcome Checked, after FetchesMade queries, each to BaseURL + host. |
| Driver.LoopEndsAt | cznic-checker.go:166-183 | The loop ends at the first fetch without a captcha: a failed fetch is the error, and a page is parsed. If there is none, the check is still waiting. |
| Driver.NormalizeErrorFirst | cznic-checker.go:160-164 | A normalisation error is returned before any fetch. |
| Driver.FirstFetchWithoutCaptchaDecides | cznic-checker.go:166-183 | If fetch k is the first without the captcha, there are exactly k + 1 fetches and it decides the result. |
| Driver.FinishedCheckSource | cznic-checker.go:166-183 | A finished check after normalising came from the last fetch, every earlier fetch showed the captcha, and a parsed body has no captcha. |
| Driver.HostOfFinishedCheck | cznic-checker.go:158-184 | A check that ends in a result reports the normalised host, not the text the user typed. |
| Driver.AwaitingIffAllCaptcha | cznic-checker.go:166-181 | The check is still waiting exactly when every fetch showed the captcha. |
| Driver.ProcessURL | cznic-checker.go:186-195 | An error halts, naming the domain as given; otherwise it reports one line. The step equals ProcessStep. |
| Driver.ReportedLineStandsAlone | cznic-checker.go:186-195 | A reported domain logs exactly one line: no line break, and its first tab splits it into the normalised host and the report text. |
| Driver.FetchFailureIsFatal | cznic-checker.go:168-172 | A domain whose first fetch fails ends the run with that network error. |
| Driver.StartArgLoop | cznic-checker.go:204-210 | Processes the domains in order and stops at the first that does not report. The lines and halt reason equal Batch. |
| Driver.RunStopsAtFirstHalt | cznic-checker.go:207-209 | The run logs the reporting steps in order; it completes exactly when all reported, and otherwise halts at the first step that did not. |
| Driver.BatchStopsAtFirstFailure | cznic-checker.go:204-210 | The same for startArgLoop: one line per domain, up to the first failing domain, which ends the run. |
| Driver.RunAppend | cznic-checker.go:207-209 | Running two lists in turn is running their concatenation, unless the first already halted. |
| Driver.SecondDomainNetworkFailure | cznic-checker.go:186-210 | A reported domain, then one whose fetch fails: one line is logged, then the run dies naming the second domain. |

## Left out

- getPageContent: the HTTP request is not modelled. Its outcomes are an input, and a non-200 status is an error value that carries the code.
- waitForUser, getUserURL, startInteractiveLoop and main: console input and the endless interactive loop are not modelled.
- Flag parsing, printUsage, and the text of log and fmt output are not modelled. The fatal exit is modelled as the run stopping with the error.
- time.Sleep(Politeness) between domains is not modelled (timing only).
- Report.TruncatedDays: the clock and Go's float arithmetic are not modelled, so the count is a truncating division of whole seconds. Float rounding of the hours is not captured, nor is time.Sub saturating at about 292 years either way, since a time.Duration is an int64 count of nanoseconds.
- Normalize.ParseHost: only the parts of url.Parse the checker relies on are modelled: a control byte before the first '#' is rejected (the fragment is cut off before that test), and the host runs to the first '/', '?' or '#'. User info ('@'), port validation, IPv6 brackets, percent-escapes and other url.Parse errors are not modelled.
- Dates.StrToDate: requires at least six bytes, since Go's slices would panic on less; its only caller passes ten.
- Dates.ParseRfc3339: time.Parse is modelled only for the one shape strToDate produces, which is four-digit year, two-digit month, two-digit day, then "T00:00:00.000Z".
- Parse.CheckResult: the expiration is None for a free domain, where Go leaves the zero time.Time.
- Driver.StartArgLoop: each domain comes with its own sequence of fetch outcomes and its own day count. The interleaving of one shared network and clock is not modelled.
- Driver.CheckURL: an unbounded wait for captchas becomes AwaitingCaptcha once the given fetch outcomes are used up.
- Go's panic on a slice past the end of the page is modelled as the error ContentTooShort.

## Findings

| source | as written | input that shows it | evidently intended | confidence | as-written member | corrected member |
|---|---|---|---|---|---|---|
| cznic-checker.go:122-123 | The result of strings.Index is used without checking for -1, so a page with neither marker has bytes 71..80 sliced and parsed as the expiration date. | A page of 71 filler bytes followed by "01.02.2030" is reported as registered until 1 February 2030. | A page without "Datum expirace" is an error. | not executed | Parse.AsWrittenInventsDate | Parse.ParsedResult |
