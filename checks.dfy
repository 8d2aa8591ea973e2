/**
 * The outcome of checking one website (`monitor_website_threaded` and
 * `_create_error_result` in webmonitor/services/monitoring_service.py) as a
 * function of what the browser session, the HTTP probe and the page load
 * reported. The probes themselves (network, browser, clock) are inputs.
 */
module Checks {
  import opened Wrappers
  import opened Models
  import Strings

  /** What `requests.get` did: answered, raised a RequestException, or raised anything else. */
  datatype HttpProbe =
    | Responded(code: int, elapsed: real)
    | RequestFailed
    | ProbeCrashed(detail: string)

  /**
   * What loading the page in the browser did: it loaded (with the time taken,
   * including the settle sleep, and the page's title and current URL), it hit
   * the 30-second page-load timeout, it raised, or it loaded and reading the
   * title or URL afterwards raised.
   */
  datatype RenderProbe =
    | Rendered(elapsed: real, title: string, currentUrl: string)
    | RenderTimeout
    | RenderFailed(detail: string)
    | PageReadFailed(elapsed: real, detail: string)

  /**
   * Everything one check observes: whether a browser session could be
   * created, whether the first attempt to insert the result row raised (and
   * with what), and the two probes.
   */
  datatype Probes = Probes(
    driverAvailable: bool,
    insertFault: Option<string>,
    http: HttpProbe,
    render: RenderProbe)

  /** The page-load timeout configured on every session, in seconds. */
  const PageLoadTimeout: real := 30.0

  const TimeoutMessage: string := "Page load timeout (30 seconds)"
  const NoDriverMessage: string := "WebDriver not available"

  /** The page counts as up: no "error" in its lower-cased title, and a current URL. */
  predicate PageHealthy(title: string, currentUrl: string) {
    !Strings.Contains(Strings.Lower(title), "error") && currentUrl != ""
  }

  /** `_create_error_result`: a connection-error row with only a message and a timestamp. */
  function ConnectionErrorRecord(url: string, message: string, now: int): CheckResult {
    CheckResult(url, None, None, None, ConnectionError, Some(message), now)
  }

  /** The row a check that ran both probes creates. */
  function ProbedRecord(url: string, http: HttpProbe, render: RenderProbe, now: int): CheckResult {
    match http
    case ProbeCrashed(detail) =>
      CheckResult(url, None, Some(0.0), Some(0.0), Error, Some("Error: " + detail), now)
    case _ =>
      var code := if http.Responded? then Some(http.code) else None;
      var response := if http.Responded? then http.elapsed else 0.0;
      match render
      case Rendered(elapsed, title, currentUrl) =>
        if PageHealthy(title, currentUrl)
        then CheckResult(url, code, Some(response), Some(elapsed), Success, None, now)
        else CheckResult(url, code, Some(response), Some(elapsed), Error,
                         Some("Page load error: " + title), now)
      case RenderTimeout =>
        CheckResult(url, code, Some(response), Some(PageLoadTimeout), Timeout, Some(TimeoutMessage), now)
      case RenderFailed(detail) =>
        CheckResult(url, code, Some(response), Some(0.0), Error, Some("Error: " + detail), now)
      case PageReadFailed(elapsed, detail) =>
        CheckResult(url, code, Some(response), Some(elapsed), Error, Some("Error: " + detail), now)
  }

  /**
   * The row `monitor_website_threaded` leaves behind for `url`. A failed
   * first insert is caught by the outer handler, which records a
   * connection error instead; a missing browser session records one directly.
   */
  function CheckOutcome(url: string, probes: Probes, now: int): (r: CheckResult)
    ensures r.url == url && r.timestamp == now
  {
    if probes.insertFault.Some? then
      ConnectionErrorRecord(url, "Thread error: " + probes.insertFault.value, now)
    else if !probes.driverAvailable then
      ConnectionErrorRecord(url, NoDriverMessage, now)
    else
      ProbedRecord(url, probes.http, probes.render, now)
  }

  /** The check actually ran both probes and stored their row. */
  predicate ProbesRan(probes: Probes) {
    probes.driverAvailable && probes.insertFault.None?
  }

  // ---------------------------------------------------------------------
  // Properties of the classification
  // ---------------------------------------------------------------------

  /**
   * Every outcome has one of the four statuses, belongs to the website and
   * time it was made for, and a success always carries both timings.
   */
  lemma OutcomeWellFormed(url: string, probes: Probes, now: int)
    ensures var r := CheckOutcome(url, probes, now);
      && WellFormed(r) && r.url == url && r.timestamp == now
  {
  }

  /**
   * `connection_error` is reserved for checks that could not run (no
   * session, or the row could not be inserted); a check that ran is
   * `success`, `error` or `timeout`.
   */
  lemma ConnectionErrorIffNotRun(url: string, probes: Probes, now: int)
    ensures CheckOutcome(url, probes, now).status == ConnectionError <==> !ProbesRan(probes)
  {
  }

  /**
   * A loaded page is `success` exactly when it looks healthy; otherwise it is
   * `error` with the title in the message. Only a success has no message.
   */
  lemma RenderedClassification(url: string, probes: Probes, now: int)
    requires ProbesRan(probes) && !probes.http.ProbeCrashed? && probes.render.Rendered?
    ensures var r := CheckOutcome(url, probes, now);
      && (r.status == Success <==> PageHealthy(probes.render.title, probes.render.currentUrl))
      && (r.status == Success ==> r.errorMessage.None?)
      && (r.status != Success ==>
            r.status == Error && r.errorMessage == Some("Page load error: " + probes.render.title))
      && r.loadTime == Some(probes.render.elapsed)
  {
  }

  /** A page-load timeout is `timeout`, with the fixed message and the 30-second ceiling as load time. */
  lemma TimeoutClassification(url: string, probes: Probes, now: int)
    requires ProbesRan(probes) && !probes.http.ProbeCrashed? && probes.render.RenderTimeout?
    ensures var r := CheckOutcome(url, probes, now);
      r.status == Timeout && r.errorMessage == Some(TimeoutMessage) && r.loadTime == Some(30.0)
  {
  }

  /** Any other failure while loading or reading the page is `error` with the failure's text. */
  lemma RenderFailureClassification(url: string, probes: Probes, now: int)
    requires ProbesRan(probes) && !probes.http.ProbeCrashed?
    requires probes.render.RenderFailed? || probes.render.PageReadFailed?
    ensures var r := CheckOutcome(url, probes, now);
      r.status == Error && r.errorMessage == Some("Error: " + probes.render.detail)
  {
  }

  /**
   * A failed HTTP request leaves no status code and a zero response time,
   * and otherwise changes nothing: status, message and load time are those
   * the same page load gives with any HTTP answer.
   */
  lemma HttpFailureDoesNotClassify(url: string, probes: Probes, code: int, elapsed: real, now: int)
    requires ProbesRan(probes) && probes.http.RequestFailed?
    ensures var failed := CheckOutcome(url, probes, now);
      var answered := CheckOutcome(url, probes.(http := Responded(code, elapsed)), now);
      && failed.statusCode.None? && failed.responseTime == Some(0.0)
      && answered.statusCode == Some(code) && answered.responseTime == Some(elapsed)
      && failed.status == answered.status
      && failed.errorMessage == answered.errorMessage
      && failed.loadTime == answered.loadTime
  {
  }

  /** An HTTP probe that raises something other than a request error ends the check as `error`, before the page load. */
  lemma HttpCrashClassification(url: string, probes: Probes, now: int)
    requires ProbesRan(probes) && probes.http.ProbeCrashed?
    ensures var r := CheckOutcome(url, probes, now);
      && r.status == Error && r.errorMessage == Some("Error: " + probes.http.detail)
      && r.statusCode.None? && r.responseTime == Some(0.0) && r.loadTime == Some(0.0)
  {
  }

  /** Without a browser session the row is a connection error with no status code and no timings. */
  lemma NoDriverClassification(url: string, probes: Probes, now: int)
    requires !probes.driverAvailable && probes.insertFault.None?
    ensures var r := CheckOutcome(url, probes, now);
      && r.status == ConnectionError && r.errorMessage == Some(NoDriverMessage)
      && r.statusCode.None? && r.responseTime.None? && r.loadTime.None?
  {
  }

  /** "error" appears in `t` at position `i` in some mix of upper and lower case. */
  predicate ErrorAtIgnoringCase(t: string, i: int) {
    0 <= i <= |t| - 5 && forall j :: 0 <= j < 5 ==> t[i + j] == "error"[j] || t[i + j] == "ERROR"[j]
  }

  /** At one position, the lower-cased title shows "error" exactly when the title shows it in any case. */
  lemma ErrorAtLowered(t: string, i: int)
    requires 0 <= i <= |t| - 5
    ensures Strings.OccursAt(Strings.Lower(t), "error", i) <==> ErrorAtIgnoringCase(t, i)
  {
    var low := Strings.Lower(t);
    forall j | 0 <= j < 5
      ensures low[i..i + 5][j] == Strings.LowerChar(t[i + j])
      ensures Strings.LowerChar(t[i + j]) == "error"[j] <==> t[i + j] == "error"[j] || t[i + j] == "ERROR"[j]
    {
    }
    if ErrorAtIgnoringCase(t, i) {
      assert low[i..i + 5] == "error";
    }
  }

  /**
   * `"error" not in title.lower()` is a case-insensitive test: the lower-cased
   * title contains "error" exactly when the title contains it in some mix of
   * cases.
   */
  lemma LowerContainsErrorIgnoringCase(t: string)
    ensures Strings.Contains(Strings.Lower(t), "error") <==> exists i :: ErrorAtIgnoringCase(t, i)
  {
    var low := Strings.Lower(t);
    if Strings.Contains(low, "error") {
      var i :| 0 <= i <= |low| && Strings.OccursAt(low, "error", i);
      ErrorAtLowered(t, i);
    }
    if exists i :: ErrorAtIgnoringCase(t, i) {
      var i :| ErrorAtIgnoringCase(t, i);
      ErrorAtLowered(t, i);
    }
  }

  /**
   * A connection-error row counts as a failed check and, having no timings,
   * never reaches the averages: as a website's only result it saves one
   * failed check, zero uptime, its time as last check and the old averages.
   */
  lemma ConnectionErrorCountsAsFailure(url: string, message: string, now: int, row: StatsRow)
    ensures var r := ConnectionErrorRecord(url, message, now);
      && WellFormed(r) && IsFailure(r.status)
      && Recompute(row, [r]) == Saved(row.(totalChecks := 1, successfulChecks := 0, failedChecks := 1,
                                           uptimePercentage := 0.0, lastCheck := Some(now)))
  {
    var r := ConnectionErrorRecord(url, message, now);
    assert Window([r]) == [r];
    assert Successful([r]) == [];
  }

  /** A title with no 'r' or 'R' never contains "error" once lower-cased. */
  lemma {:induction false} TitleWithoutR(title: string)
    requires forall k :: 0 <= k < |title| ==> title[k] != 'r' && title[k] != 'R'
    ensures !Strings.Contains(Strings.Lower(title), "error")
  {
    var low := Strings.Lower(title);
    forall i | 0 <= i <= |low| ensures !Strings.OccursAt(low, "error", i) {
      if i + 5 <= |low| {
        assert low[i..i + 5][1] == low[i + 1] != 'r';
      }
    }
  }

  /** Scenario: HTTP 200 and a normal title within a second is a success with status code 200 and both timings. */
  lemma ScenarioHealthySite()
    ensures var r := CheckOutcome("http://a.example/",
      Probes(true, None, Responded(200, 0.3), Rendered(1.0, "Example Domain", "http://a.example/")), 7);
      && r.status == Success && r.statusCode == Some(200)
      && r.responseTime == Some(0.3) && r.loadTime == Some(1.0) && r.errorMessage.None?
  {
    TitleWithoutR("Example Domain");
  }

  /**
   * Scenario: a title reading "404 Not Found - ERROR" makes the check an
   * error, whatever the HTTP request did short of crashing.
   */
  lemma ScenarioErrorTitle(http: HttpProbe)
    requires !http.ProbeCrashed?
    ensures var r := CheckOutcome("http://e.example/",
      Probes(true, None, http, Rendered(2.5, "404 Not Found - ERROR", "http://e.example/")), 7);
      r.status == Error && r.errorMessage == Some("Page load error: 404 Not Found - ERROR")
  {
    var low := Strings.Lower("404 Not Found - ERROR");
    assert low[16..21] == "error";
    assert Strings.OccursAt(low, "error", 16);
    assert "Page load error: " + "404 Not Found - ERROR" == "Page load error: 404 Not Found - ERROR";
  }

  /** Scenario: an unreachable site (both probes fail) is an error without a status code. */
  lemma ScenarioUnreachableSite()
    ensures var r := CheckOutcome("http://c.example/",
      Probes(true, None, RequestFailed, RenderFailed("DNS failure")), 7);
      r.status == Error && r.statusCode.None? && r.errorMessage == Some("Error: DNS failure")
  {
    assert "Error: " + "DNS failure" == "Error: DNS failure";
  }
}
