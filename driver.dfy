/**
 * CheckURL, processURL and startArgLoop.  The network is replaced by the
 * sequence of outcomes that successive getPageContent calls return, and the
 * user who solves a captcha by the next element of that sequence; a check
 * that has used up its outcomes while every page still showed the captcha
 * is one that is still waiting for the user.
 */
module Driver {
  import opened Wrappers
  import opened Bytes
  import opened Errors
  import opened Normalize
  import opened Parse
  import opened Report

  const BaseURL: Text := "https://www.nic.cz/whois/domain/"
  /** "Kontrolní kód" (check code), in UTF-8: the page shows a captcha. */
  const HaystackCaptcha: Text := "Kontroln\U{C3}\U{AD} k\U{C3}\U{B3}d"

  /** The address queried for a normalised host. */
  function Query(host: Text): Text {
    BaseURL + host
  }

  /** What one getPageContent call returned. */
  datatype Fetch = Page(body: Text) | Failed(cause: FetchError)

  /** A fetch after which the loop asks the user to solve the captcha and fetches again. */
  predicate ShowsCaptcha(f: Fetch) {
    f.Page? && Contains(f.body, HaystackCaptcha)
  }

  /** How CheckURL ends: with its return values, or still waiting on a captcha. */
  datatype Outcome = Finished(result: Result<CheckResult, Error>) | AwaitingCaptcha

  /** The position of the first fetch the captcha loop does not repeat after, or |fetches|. */
  function GateIndex(fetches: seq<Fetch>): (k: nat)
    ensures k <= |fetches|
    ensures forall i | 0 <= i < k :: ShowsCaptcha(fetches[i])
    ensures k < |fetches| ==> !ShowsCaptcha(fetches[k])
  {
    if fetches == [] || !ShowsCaptcha(fetches[0]) then 0
    else 1 + GateIndex(fetches[1..])
  }

  /** What the captcha loop and processURLResult give for a normalised host. */
  function CheckedHost(host: Text, fetches: seq<Fetch>): Outcome {
    var k := GateIndex(fetches);
    if k == |fetches| then AwaitingCaptcha
    else match fetches[k]
      case Failed(cause) => Finished(Failure(Network(cause)))
      case Page(body) => Finished(ParsedResult(host, body))
  }

  /** How many fetches the captcha loop makes. */
  function LoopFetches(fetches: seq<Fetch>): (n: nat)
    ensures n <= |fetches|
  {
    if GateIndex(fetches) == |fetches| then |fetches| else GateIndex(fetches) + 1
  }

  /** What CheckURL returns for `url` when the fetches return `fetches` in turn. */
  function Checked(url: Text, fetches: seq<Fetch>): Outcome {
    match NormalizedHost(url)
    case Failure(e) => Finished(Failure(e))
    case Success(host) => CheckedHost(host, fetches)
  }

  /** How many fetches CheckURL makes. */
  function FetchesMade(url: Text, fetches: seq<Fetch>): (n: nat)
    ensures n <= |fetches|
  {
    if NormalizedHost(url).Failure? then 0 else LoopFetches(fetches)
  }

  /**
   * CheckURL: normalise, then fetch the same address until a page without
   * the captcha marker arrives and parse that page.  `queries` lists the
   * address of every fetch made.
   */
  method CheckURL(url: Text, fetches: seq<Fetch>) returns (outcome: Outcome, queries: seq<Text>)
    ensures outcome == Checked(url, fetches)
    ensures |queries| == FetchesMade(url, fetches)
    ensures forall i | 0 <= i < |queries| :: queries[i] == Query(NormalizedHost(url).value)
  {
    var content: Text := [];
    var normalized := NormalizeCzURL(url);
    if normalized.Failure? {
      return Finished(Failure(normalized.error)), [];
    }
    var host := normalized.value;
    assert Checked(url, fetches) == CheckedHost(host, fetches);
    assert FetchesMade(url, fetches) == LoopFetches(fetches);
    queries := [];
    var i := 0;
    while true
      invariant 0 <= i <= |fetches|
      invariant |queries| == i
      invariant forall j | 0 <= j < i :: queries[j] == Query(host)
      invariant forall j | 0 <= j < i :: ShowsCaptcha(fetches[j])
      decreases |fetches| - i
    {
      if i == |fetches| {
        LoopEndsAt(host, fetches, i);
        return AwaitingCaptcha, queries;
      }
      var query := BaseURL + host;
      queries := queries + [query];
      var page := fetches[i];
      if page.Failed? {
        LoopEndsAt(host, fetches, i);
        return Finished(Failure(Network(page.cause))), queries;
      }
      if Contains(page.body, HaystackCaptcha) {
        // CheckURL prints the query and waits for the user here.
        assert ShowsCaptcha(fetches[i]);
        i := i + 1;
      } else {
        content := page.body;
        LoopEndsAt(host, fetches, i);
        break;
      }
    }
    var result := ProcessURLResult(host, content);
    return Finished(result), queries;
  }

  lemma GateIndexAt(fetches: seq<Fetch>, k: nat)
    requires k <= |fetches|
    requires forall i | 0 <= i < k :: ShowsCaptcha(fetches[i])
    requires k < |fetches| ==> !ShowsCaptcha(fetches[k])
    ensures GateIndex(fetches) == k
  {
  }

  /** The captcha loop ends at the k-th fetch when it is the first without a captcha, or waits after all of them. */
  lemma LoopEndsAt(host: Text, fetches: seq<Fetch>, k: nat)
    requires k <= |fetches|
    requires forall i | 0 <= i < k :: ShowsCaptcha(fetches[i])
    requires k < |fetches| ==> !ShowsCaptcha(fetches[k])
    ensures LoopFetches(fetches) == if k == |fetches| then k else k + 1
    ensures k == |fetches| ==> CheckedHost(host, fetches) == AwaitingCaptcha
    ensures k < |fetches| && fetches[k].Failed? ==>
              CheckedHost(host, fetches) == Finished(Failure(Network(fetches[k].cause)))
    ensures k < |fetches| && fetches[k].Page? ==>
              CheckedHost(host, fetches) == Finished(ParsedResult(host, fetches[k].body))
  {
    GateIndexAt(fetches, k);
  }

  /** A normalisation error is returned at once: no fetch is made. */
  lemma NormalizeErrorFirst(url: Text, fetches: seq<Fetch>)
    requires NormalizedHost(url).Failure?
    ensures Checked(url, fetches) == Finished(Failure(NormalizedHost(url).error))
    ensures FetchesMade(url, fetches) == 0
  {
  }

  /**
   * When the first fetch without a captcha is the k-th, it ends the check:
   * its error is returned as a network error, or its body is the one parsed,
   * after exactly k + 1 fetches.
   */
  lemma FirstFetchWithoutCaptchaDecides(url: Text, fetches: seq<Fetch>, k: nat)
    requires NormalizedHost(url).Success?
    requires k < |fetches| && !ShowsCaptcha(fetches[k])
    requires forall i | 0 <= i < k :: ShowsCaptcha(fetches[i])
    ensures FetchesMade(url, fetches) == k + 1
    ensures fetches[k].Failed? ==> Checked(url, fetches) == Finished(Failure(Network(fetches[k].cause)))
    ensures fetches[k].Page? ==>
              Checked(url, fetches) == Finished(ParsedResult(NormalizedHost(url).value, fetches[k].body))
  {
    LoopEndsAt(NormalizedHost(url).value, fetches, k);
  }

  /**
   * Conversely, a check that finished after normalising parsed a body without
   * the captcha marker that came after nothing but captcha pages, or returned
   * the error of the last fetch.
   */
  lemma FinishedCheckSource(url: Text, fetches: seq<Fetch>)
    requires NormalizedHost(url).Success? && Checked(url, fetches).Finished?
    ensures 0 < FetchesMade(url, fetches) <= |fetches|
    ensures var k := FetchesMade(url, fetches) - 1;
            (forall i | 0 <= i < k :: ShowsCaptcha(fetches[i]))
            && (fetches[k].Failed? ==> Checked(url, fetches).result == Failure(Network(fetches[k].cause)))
            && (fetches[k].Page? ==>
                  !Contains(fetches[k].body, HaystackCaptcha)
                  && Checked(url, fetches).result == ParsedResult(NormalizedHost(url).value, fetches[k].body))
  {
    var host := NormalizedHost(url).value;
    assert Checked(url, fetches) == CheckedHost(host, fetches);
    assert FetchesMade(url, fetches) == LoopFetches(fetches);
    LoopEndsAt(host, fetches, GateIndex(fetches));
  }

  /** The check is still waiting exactly when every fetch so far showed the captcha. */
  lemma AwaitingIffAllCaptcha(url: Text, fetches: seq<Fetch>)
    requires NormalizedHost(url).Success?
    ensures Checked(url, fetches) == AwaitingCaptcha <==>
            forall i | 0 <= i < |fetches| :: ShowsCaptcha(fetches[i])
  {
  }

  /** Why a run ends before the last domain: log.Fatalf after an error, or a captcha still unsolved. */
  datatype Halt = Died(url: Text, error: Error) | Blocked(url: Text)

  /** What processURL does with one domain. */
  datatype Step = Reported(line: Text) | Halted(halt: Halt)

  /**
   * processURL on `url`: a result is reported as one line; an error ends the
   * run (log.Fatalf) naming the domain as given; a pending captcha blocks.
   * `days` is the day count report computes for the expiration.
   */
  function ProcessStep(url: Text, fetches: seq<Fetch>, days: int): Step {
    match Checked(url, fetches)
    case Finished(Success(r)) => Reported(ReportLine(r, days))
    case Finished(Failure(e)) => Halted(Died(url, e))
    case AwaitingCaptcha => Halted(Blocked(url))
  }

  method ProcessURL(url: Text, fetches: seq<Fetch>, days: int) returns (step: Step)
    ensures step == ProcessStep(url, fetches, days)
  {
    var outcome, _ := CheckURL(url, fetches);
    if outcome.AwaitingCaptcha? {
      return Halted(Blocked(url));
    }
    if outcome.result.Failure? {
      return Halted(Died(url, outcome.result.error));
    }
    var line := ReportLine(outcome.result.value, days);
    return Reported(line);
  }

  /** The lines a run logs, and why it ended early if it did (None: every domain was reported). */
  datatype Run = Run(lines: seq<Text>, halt: Option<Halt>)

  /** Domains are given with their own fetch outcomes and day counts. */
  predicate Aligned(urls: seq<Text>, fetches: seq<seq<Fetch>>, days: seq<int>) {
    |fetches| == |urls| && |days| == |urls|
  }

  /** The run made of processURL steps taken in order, stopping at the first that does not report. */
  function RunOf(steps: seq<Step>): Run {
    if steps == [] then Run([], None)
    else match steps[0]
      case Halted(h) => Run([], Some(h))
      case Reported(line) =>
        var rest := RunOf(steps[1..]);
        Run([line] + rest.lines, rest.halt)
  }

  /** The processURL step of each domain, in the order given. */
  function Steps(urls: seq<Text>, fetches: seq<seq<Fetch>>, days: seq<int>): (steps: seq<Step>)
    requires Aligned(urls, fetches, days)
    ensures |steps| == |urls|
    ensures forall i | 0 <= i < |urls| :: steps[i] == ProcessStep(urls[i], fetches[i], days[i])
  {
    seq(|urls|, i requires 0 <= i < |urls| => ProcessStep(urls[i], fetches[i], days[i]))
  }

  /** startArgLoop over `urls`. */
  function Batch(urls: seq<Text>, fetches: seq<seq<Fetch>>, days: seq<int>): Run
    requires Aligned(urls, fetches, days)
  {
    RunOf(Steps(urls, fetches, days))
  }

  /** startArgLoop: call processURL on each domain in turn. */
  method StartArgLoop(urls: seq<Text>, fetches: seq<seq<Fetch>>, days: seq<int>)
    returns (lines: seq<Text>, halt: Option<Halt>)
    requires Aligned(urls, fetches, days)
    ensures Run(lines, halt) == Batch(urls, fetches, days)
  {
    ghost var steps := Steps(urls, fetches, days);
    lines := [];
    var i := 0;
    while i < |urls|
      invariant 0 <= i <= |urls|
      invariant RunSoFar(steps, i, lines)
    {
      var step := ProcessURL(urls[i], fetches[i], days[i]);
      assert step == steps[i];
      if step.Halted? {
        HaltedStep(steps, i, lines);
        return lines, Some(step.halt);
      }
      ReportedStep(steps, i, lines);
      lines := lines + [step.line];
      i := i + 1;
    }
    FinishedSteps(steps, lines);
    return lines, None;
  }

  /** The run over `steps` is `lines` followed by the run from the i-th step on. */
  predicate RunSoFar(steps: seq<Step>, i: nat, lines: seq<Text>)
    requires i <= |steps|
  {
    RunOf(steps) == Run(lines + RunOf(steps[i..]).lines, RunOf(steps[i..]).halt)
  }

  lemma ReportedStep(steps: seq<Step>, i: nat, lines: seq<Text>)
    requires i < |steps| && steps[i].Reported? && RunSoFar(steps, i, lines)
    ensures RunSoFar(steps, i + 1, lines + [steps[i].line])
  {
    RunOfFrom(steps, i);
  }

  lemma HaltedStep(steps: seq<Step>, i: nat, lines: seq<Text>)
    requires i < |steps| && steps[i].Halted? && RunSoFar(steps, i, lines)
    ensures RunOf(steps) == Run(lines, Some(steps[i].halt))
  {
    RunOfFrom(steps, i);
  }

  lemma FinishedSteps(steps: seq<Step>, lines: seq<Text>)
    requires RunSoFar(steps, |steps|, lines)
    ensures RunOf(steps) == Run(lines, None)
  {
    assert steps[|steps|..] == [];
  }

  lemma RunOfFrom(steps: seq<Step>, i: nat)
    requires i < |steps|
    ensures RunOf(steps[i..]) == match steps[i]
      case Halted(h) => Run([], Some(h))
      case Reported(line) => Run([line] + RunOf(steps[i + 1..]).lines, RunOf(steps[i + 1..]).halt)
  {
    assert steps[i..][0] == steps[i];
    assert steps[i..][1..] == steps[i + 1..];
  }

  lemma {:induction false} RunStopsAtFirstHalt(steps: seq<Step>)
    ensures var run := RunOf(steps);
            |run.lines| <= |steps|
            && (forall i | 0 <= i < |run.lines| :: steps[i] == Reported(run.lines[i]))
            && (run.halt.None? <==> |run.lines| == |steps|)
            && (run.halt.Some? ==> steps[|run.lines|] == Halted(run.halt.value))
  {
    if steps != [] {
      RunStopsAtFirstHalt(steps[1..]);
    }
  }

  /**
   * One line per domain reported, in order; the run completes exactly when
   * every domain reported, and otherwise stops at the first domain that did
   * not, with nothing logged for it or after it.
   */
  lemma BatchStopsAtFirstFailure(urls: seq<Text>, fetches: seq<seq<Fetch>>, days: seq<int>)
    requires Aligned(urls, fetches, days)
    ensures var run := Batch(urls, fetches, days);
            |run.lines| <= |urls|
            && (forall i | 0 <= i < |run.lines| :: ProcessStep(urls[i], fetches[i], days[i]) == Reported(run.lines[i]))
            && (run.halt.None? <==> |run.lines| == |urls|)
            && (run.halt.Some? ==>
                  ProcessStep(urls[|run.lines|], fetches[|run.lines|], days[|run.lines|]) == Halted(run.halt.value))
  {
    RunStopsAtFirstHalt(Steps(urls, fetches, days));
  }

  /**
   * Processing one list of domains and then another is processing their
   * concatenation, unless the first list already stopped the run.
   */
  lemma {:induction false} RunAppend(s1: seq<Step>, s2: seq<Step>)
    ensures var first := RunOf(s1);
            if first.halt.None?
            then RunOf(s1 + s2) == Run(first.lines + RunOf(s2).lines, RunOf(s2).halt)
            else RunOf(s1 + s2) == first
  {
    if s1 == [] {
      assert s1 + s2 == s2;
    } else {
      assert (s1 + s2)[0] == s1[0];
      assert (s1 + s2)[1..] == s1[1..] + s2;
      RunAppend(s1[1..], s2);
    }
  }

  /**
   * A reported domain logs exactly one line (a normalised host holds no
   * control byte, so no line break), and its first tab splits it into the
   * normalised host and the report text of the result.
   */
  lemma ReportedLineStandsAlone(url: Text, fetches: seq<Fetch>, days: int)
    requires ProcessStep(url, fetches, days).Reported?
    ensures NormalizedHost(url).Success? && Checked(url, fetches).Finished?
            && Checked(url, fetches).result.Success?
    ensures var line := ProcessStep(url, fetches, days).line;
            var i := Index(line, "\t");
            '\n' !in line && i == |NormalizedHost(url).value| && line[..i] == NormalizedHost(url).value
            && line[i + 1..] == ReportText(Checked(url, fetches).result.value.isFree, days)
  {
    var r := Checked(url, fetches).result.value;
    HostOfFinishedCheck(url, fetches);
    var host := NormalizedHost(url).value;
    NormalizedIsSecondLevel(url);
    NoControlNoBreak(host);
    ReportLineFields(r, days);
  }

  /** A successful check reports the normalised host. */
  lemma HostOfFinishedCheck(url: Text, fetches: seq<Fetch>)
    requires Checked(url, fetches).Finished? && Checked(url, fetches).result.Success?
    ensures NormalizedHost(url).Success?
    ensures Checked(url, fetches).result.value.url == NormalizedHost(url).value
  {
    var host := NormalizedHost(url).value;
    assert Checked(url, fetches) == CheckedHost(host, fetches);
    HostOfCheckedHost(host, fetches);
  }

  /** The same, once the host is known: the parsed page names the host it was fetched for. */
  lemma HostOfCheckedHost(host: Text, fetches: seq<Fetch>)
    requires CheckedHost(host, fetches).Finished? && CheckedHost(host, fetches).result.Success?
    ensures CheckedHost(host, fetches).result.value.url == host
  {
    var k := GateIndex(fetches);
    ResultShape(host, fetches[k].body);
  }

  /** A domain whose first fetch fails ends the run naming that domain. */
  lemma FetchFailureIsFatal(url: Text, cause: FetchError, days: int)
    requires NormalizedHost(url).Success?
    ensures ProcessStep(url, [Failed(cause)], days) == Halted(Died(url, Network(cause)))
  {
    LoopEndsAt(NormalizedHost(url).value, [Failed(cause)], 0);
  }

  /**
   * Two domains where the first is reported and the second's fetch fails:
   * one line is logged, then the run dies naming the second domain.
   */
  lemma SecondDomainNetworkFailure(u1: Text, f1: seq<Fetch>, d1: int, u2: Text, d2: int)
    requires ProcessStep(u1, f1, d1).Reported?
    requires NormalizedHost(u2).Success?
    ensures Batch([u1, u2], [f1, [Failed(Transport)]], [d1, d2])
            == Run([ProcessStep(u1, f1, d1).line], Some(Died(u2, Network(Transport))))
  {
    FetchFailureIsFatal(u2, Transport, d2);
    ReportThenHalt(Steps([u1, u2], [f1, [Failed(Transport)]], [d1, d2]));
  }

  lemma ReportThenHalt(steps: seq<Step>)
    requires |steps| == 2 && steps[0].Reported? && steps[1].Halted?
    ensures RunOf(steps) == Run([steps[0].line], Some(steps[1].halt))
  {
    assert steps[1..][0] == steps[1];
  }
}
