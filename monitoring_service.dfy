/**
 * The monitoring service of webmonitor/services/monitoring_service.py: the
 * tables it writes (websites and statistics keyed by URL, and the
 * append-only list of results), one check, the error record, the
 * statistics refresh after every new result, the monitoring cycle over all
 * active websites, and the bulk import.
 */
module MonitoringService {
  import opened Wrappers
  import opened Models
  import opened Checks
  import opened Import

  /** The cap on concurrent checks. */
  const MaxPoolSize: nat := 5

  /** What the thread pool raises when asked for no workers. */
  const PoolSizeMessage: string := "max_workers must be greater than 0"

  /** `min(len(websites), 5)`: the number of workers a cycle asks for. */
  function MaxWorkers(n: nat): (k: nat)
    ensures k <= MaxPoolSize && k <= n
    ensures k == n || k == MaxPoolSize
    ensures k == 0 <==> n == 0
  {
    if n < MaxPoolSize then n else MaxPoolSize
  }

  /** How one worker of a cycle ended: it ran the check, or the worker itself raised. */
  datatype WorkerRun = Ran(probes: Probes) | Faulted(detail: string)

  /** A cycle returns its results in completion order, or raises when the pool cannot be built. */
  datatype CycleOutcome = Completed(results: seq<CheckResult>) | PoolRejected(message: string)

  /** The result a cycle collects for one website. */
  function CycleRecord(url: string, run: WorkerRun, now: int): (r: CheckResult)
    ensures r.url == url && r.timestamp == now
    ensures WellFormed(r)
  {
    match run
    case Ran(probes) => CheckOutcome(url, probes, now)
    case Faulted(detail) => ConnectionErrorRecord(url, "Thread execution error: " + detail, now)
  }

  /** The results a cycle collects, in completion order. */
  function CycleRecords(completion: seq<string>, runs: map<string, WorkerRun>, times: seq<int>): (rs: seq<CheckResult>)
    requires |times| == |completion|
    requires forall k :: 0 <= k < |completion| ==> completion[k] in runs
  {
    seq(|completion|, k requires 0 <= k < |completion| => CycleRecord(completion[k], runs[completion[k]], times[k]))
  }

  /**
   * `website.monitoring_results.all()`: the website's results, newest
   * first. Newest is taken as most recently stored (see
   * `ResultsForNewestFirst` for when this is the timestamp order).
   */
  function ResultsFor(log: seq<CheckResult>, url: string): (rs: seq<CheckResult>)
    ensures |rs| <= |log|
    ensures forall k :: 0 <= k < |rs| ==> rs[k].url == url && rs[k] in log
  {
    if |log| == 0 then []
    else
      var rest := ResultsFor(log[..|log| - 1], url);
      if log[|log| - 1].url == url then [log[|log| - 1]] + rest else rest
  }

  /** The stored statistics row, or the one `get_or_create` creates. */
  function StoredOrDefault(stats: map<string, StatsRow>, url: string): StatsRow {
    if url in stats then stats[url] else DefaultStats()
  }

  /** The row stored after `update_stats`: the recomputed one if it was saved, else the loaded one. */
  function Refreshed(row: StatsRow, results: seq<CheckResult>): StatsRow {
    match Recompute(row, results)
    case Saved(updated) => updated
    case _ => row
  }

  /** `_update_website_stats(website)` on the statistics table, given all stored results. */
  function StatsAfterCheck(stats: map<string, StatsRow>, url: string, log: seq<CheckResult>): map<string, StatsRow> {
    stats[url := Refreshed(StoredOrDefault(stats, url), ResultsFor(log, url))]
  }

  /**
   * The tables agree: websites are keyed by URL, every statistics row and
   * every result belongs to a stored website, and every result is one the
   * service creates.
   */
  predicate Consistent(websites: map<string, Website>, stats: map<string, StatsRow>, results: seq<CheckResult>) {
    && KeyedByUrl(websites)
    && stats.Keys <= websites.Keys
    && forall k :: 0 <= k < |results| ==> results[k].url in websites && WellFormed(results[k])
  }

  /** `Website.objects.filter(is_active=True)`, by URL. */
  function ActiveUrls(websites: map<string, Website>): set<string> {
    set u | u in websites && websites[u].isActive
  }

  /** `completion` lists every active website exactly once: an order in which the workers may finish. */
  predicate IsCompletionOrder(websites: map<string, Website>, completion: seq<string>) {
    && (forall u :: u in completion ==> u in ActiveUrls(websites))
    && (forall u :: u in ActiveUrls(websites) ==> u in completion)
    && Distinct(completion)
  }

  class WebMonitoringService {
    /** The Website table, keyed by its unique URL. */
    var websites: map<string, Website>
    /** The MonitoringStats table, one row per website, keyed by URL. */
    var stats: map<string, StatsRow>
    /** The MonitoringResult table, in the order rows were created. */
    var results: seq<CheckResult>

    ghost predicate Valid()
      reads this
    {
      Consistent(websites, stats, results)
    }

    /** A service over the given database contents. */
    constructor (websites: map<string, Website>, stats: map<string, StatsRow>, results: seq<CheckResult>)
      requires Consistent(websites, stats, results)
      ensures Valid()
      ensures this.websites == websites && this.stats == stats && this.results == results
    {
      this.websites := websites;
      this.stats := stats;
      this.results := results;
    }

    /**
     * `_update_website_stats`: get or create the website's row, recompute it
     * from the website's results, and store it if `update_stats` saved. A
     * recomputation that raises is swallowed; results are never touched.
     */
    method UpdateWebsiteStats(url: string)
      requires Valid() && url in websites
      modifies this
      ensures Valid()
      ensures websites == old(websites) && results == old(results)
      ensures stats == StatsAfterCheck(old(stats), url, results)
    {
      var row := StoredOrDefault(stats, url);
      stats := stats[url := row];
      var mine := ResultsFor(results, url);
      var record := new MonitoringStats(row);
      var effect := record.UpdateStats(mine);
      RefreshedByEffect(row, mine, record.Row(), effect);
      if effect == SaveCalled {
        stats := stats[url := record.Row()];
      }
      assert stats == old(stats)[url := Refreshed(row, mine)];
    }

    /** `_create_error_result`: store a connection-error row and refresh the website's statistics. */
    method CreateErrorResult(website: Website, message: string, now: int) returns (result: CheckResult)
      requires Valid() && website.url in websites
      modifies this
      ensures Valid() && websites == old(websites)
      ensures result == ConnectionErrorRecord(website.url, message, now)
      ensures results == old(results) + [result]
      ensures stats == StatsAfterCheck(old(stats), website.url, results)
    {
      result := CheckResult(website.url, None, None, None, ConnectionError, Some(message), now);
      results := results + [result];
      UpdateWebsiteStats(website.url);
    }

    /**
     * `monitor_website_threaded`: run the probes, classify, store exactly one
     * row for the website and refresh its statistics.
     */
    method MonitorWebsiteThreaded(website: Website, probes: Probes, now: int) returns (result: CheckResult)
      requires Valid() && website.url in websites
      modifies this
      ensures Valid() && websites == old(websites)
      ensures result == CheckOutcome(website.url, probes, now)
      ensures results == old(results) + [result]
      ensures stats == StatsAfterCheck(old(stats), website.url, results)
    {
      if !probes.driverAvailable {
        if probes.insertFault.Some? {
          result := CreateErrorResult(website, "Thread error: " + probes.insertFault.value, now);
        } else {
          result := CreateErrorResult(website, NoDriverMessage, now);
        }
        return;
      }
      var responseTime: real := 0.0;
      var loadTime: real := 0.0;
      var statusCode: Option<int> := None;
      var status := Error;
      var errorMessage: Option<string> := None;
      var navigate := true;
      match probes.http {
        case Responded(code, elapsed) =>
          statusCode := Some(code);
          responseTime := elapsed;
        case RequestFailed =>
          // logged and ignored: the page load decides
        case ProbeCrashed(detail) =>
          status := Error;
          errorMessage := Some("Error: " + detail);
          navigate := false;
      }
      if navigate {
        match probes.render {
          case Rendered(elapsed, title, currentUrl) =>
            loadTime := elapsed;
            if PageHealthy(title, currentUrl) {
              status := Success;
            } else {
              status := Error;
              errorMessage := Some("Page load error: " + title);
            }
          case RenderTimeout =>
            status := Timeout;
            errorMessage := Some(TimeoutMessage);
            loadTime := PageLoadTimeout;
          case RenderFailed(detail) =>
            status := Error;
            errorMessage := Some("Error: " + detail);
          case PageReadFailed(elapsed, detail) =>
            loadTime := elapsed;
            status := Error;
            errorMessage := Some("Error: " + detail);
        }
      }
      if probes.insertFault.Some? {
        result := CreateErrorResult(website, "Thread error: " + probes.insertFault.value, now);
        return;
      }
      result := CheckResult(website.url, statusCode, Some(responseTime), Some(loadTime), status, errorMessage, now);
      assert result == CheckOutcome(website.url, probes, now);
      OutcomeWellFormed(website.url, probes, now);
      results := results + [result];
      UpdateWebsiteStats(website.url);
    }

    /** One website of a cycle: its worker's check, or the error row replacing a worker that raised. */
    method CollectOne(url: string, run: WorkerRun, now: int) returns (record: CheckResult)
      requires Valid() && url in websites
      modifies this
      ensures Valid() && websites == old(websites)
      ensures record == CycleRecord(url, run, now)
      ensures results == old(results) + [record]
      ensures stats == StatsAfterCheck(old(stats), url, results)
    {
      match run {
        case Ran(probes) =>
          record := MonitorWebsiteThreaded(websites[url], probes, now);
        case Faulted(detail) =>
          record := CreateErrorResult(websites[url], "Thread execution error: " + detail, now);
      }
    }

    /** The `i`-th website to finish in a cycle: collect it, keeping the cycle's statistics invariant. */
    method CollectNext(completion: seq<string>, runs: map<string, WorkerRun>, times: seq<int>,
                       i: nat, ghost initial: map<string, StatsRow>) returns (record: CheckResult)
      requires Valid()
      requires i < |completion| == |times| && Distinct(completion)
      requires completion[i] in websites && completion[i] in runs
      requires CycleStats(initial, stats, completion, i, results)
      modifies this
      ensures Valid() && websites == old(websites)
      ensures record == CycleRecord(completion[i], runs[completion[i]], times[i])
      ensures results == old(results) + [record]
      ensures CycleStats(initial, stats, completion, i + 1, results)
    {
      DistinctNotBefore(completion, i);
      record := CollectOne(completion[i], runs[completion[i]], times[i]);
      CycleStatsStep(initial, old(stats), completion, i, old(results), record);
    }

    /**
     * `monitor_all_websites`: check every active website, collecting results
     * in the order the workers finish (`completion`); a worker that raised
     * is replaced by a connection-error row. With no active website the pool
     * is asked for zero workers and raises.
     */
    method MonitorAllWebsites(completion: seq<string>, runs: map<string, WorkerRun>, times: seq<int>)
      returns (outcome: CycleOutcome)
      requires Valid()
      requires IsCompletionOrder(websites, completion)
      requires forall k :: 0 <= k < |completion| ==> completion[k] in runs
      requires |times| == |completion|
      modifies this
      ensures Valid() && websites == old(websites)
      ensures |completion| == 0 ==>
        outcome == PoolRejected(PoolSizeMessage) && results == old(results) && stats == old(stats)
      ensures |completion| > 0 ==>
        && outcome == Completed(CycleRecords(completion, runs, times))
        && results == old(results) + outcome.results
      ensures CycleStats(old(stats), stats, completion, |completion|, results)
    {
      if MaxWorkers(|completion|) == 0 {
        return PoolRejected(PoolSizeMessage);
      }
      var collected: seq<CheckResult> := [];
      var i := 0;
      CompletionOrderStored(websites, completion);
      while i < |completion|
        invariant 0 <= i <= |completion|
        invariant forall k :: 0 <= k < |completion| ==> completion[k] in websites
        invariant Valid() && websites == old(websites)
        invariant |collected| == i
        invariant forall k :: 0 <= k < i ==> collected[k] == CycleRecord(completion[k], runs[completion[k]], times[k])
        invariant results == old(results) + collected
        invariant CycleStats(old(stats), stats, completion, i, results)
      {
        var record := CollectNext(completion, runs, times, i, old(stats));
        collected := collected + [record];
        i := i + 1;
      }
      assert collected == CycleRecords(completion, runs, times);
      outcome := Completed(collected);
    }

    /**
     * `load_websites_from_json`: create a website and a fresh statistics row
     * for each URL not yet stored, and return how many were created, or 0 if
     * anything raised (websites created before that stay).
     */
    method LoadWebsitesFromJson(doc: ImportDoc) returns (count: nat)
      requires Valid()
      modifies this
      ensures Valid() && results == old(results)
      ensures var run := ImportDocument(old(websites), old(stats), doc);
        websites == run.websites && stats == run.stats && count == ReturnedCount(run)
    {
      if doc.Unreadable? {
        return 0;
      }
      var items := doc.items;
      var createdCount: nat := 0;
      var i := 0;
      while i < |items|
        invariant 0 <= i <= |items|
        invariant Valid() && results == old(results)
        invariant ImportAll(websites, stats, createdCount, items[i..]) == ImportAll(old(websites), old(stats), 0, items)
      {
        var item := items[i];
        assert items[i..][0] == item && items[i..][1..] == items[i + 1..];
        if item.NonText? {
          return 0;
        }
        var url := item.s;
        var name := DisplayName(url);
        if name.None? {
          return 0;
        }
        if url !in websites {
          DisplayNameDefined(url);
          websites := websites[url := Website(url, name.value, true)];
          createdCount := createdCount + 1;
          stats := stats[url := DefaultStats()];
        }
        i := i + 1;
      }
      return createdCount;
    }
  }

  // ---------------------------------------------------------------------
  // Properties of the service
  // ---------------------------------------------------------------------

  /** The row `_update_website_stats` leaves stored is the refreshed one, whatever `update_stats` did. */
  lemma RefreshedByEffect(row: StatsRow, results: seq<CheckResult>, after: StatsRow, effect: UpdateEffect)
    requires after == RowAfter(row, Recompute(row, results))
    requires effect == match Recompute(row, results)
      case NothingToDo => NotSaved
      case Saved(_) => SaveCalled
      case Raised(_) => RaisedBeforeSave
    ensures Refreshed(row, results) == if effect == SaveCalled then after else row
  {
  }

  /** Every stored row of the website is among its results: `.all()` misses none. */
  lemma {:induction false} ResultsForComplete(log: seq<CheckResult>, url: string)
    ensures forall k :: 0 <= k < |log| && log[k].url == url ==> log[k] in ResultsFor(log, url)
  {
    if |log| > 0 {
      var init := log[..|log| - 1];
      ResultsForComplete(init, url);
      forall k | 0 <= k < |log| - 1 && log[k].url == url ensures log[k] in ResultsFor(log, url) {
        assert log[k] == init[k];
      }
    }
  }

  /** Storing a result puts it at the front of its own website's results and leaves the others' alone. */
  lemma ResultsForAppend(log: seq<CheckResult>, r: CheckResult, url: string)
    ensures ResultsFor(log + [r], url) ==
      if r.url == url then [r] + ResultsFor(log, url) else ResultsFor(log, url)
  {
    assert (log + [r])[..|log|] == log;
  }

  /** When stored timestamps never decrease, the newest-first results are in `-timestamp` order. */
  lemma {:induction false} ResultsForNewestFirst(log: seq<CheckResult>, url: string)
    requires forall i, j :: 0 <= i < j < |log| ==> log[i].timestamp <= log[j].timestamp
    ensures NewestFirst(ResultsFor(log, url))
  {
    if |log| > 0 {
      var init := log[..|log| - 1];
      ResultsForNewestFirst(init, url);
      var rest := ResultsFor(init, url);
      forall k | 0 <= k < |rest| ensures rest[k].timestamp <= log[|log| - 1].timestamp {
        var j :| 0 <= j < |init| && init[j] == rest[k];
      }
    }
  }

  /**
   * After a result is stored for a website of a consistent database, its
   * statistics are recomputed and saved (the recomputation cannot raise on
   * rows the service creates): at least one check, and the new result's
   * timestamp as last check.
   */
  lemma CheckRefreshesStats(log: seq<CheckResult>, r: CheckResult, row: StatsRow)
    requires forall k :: 0 <= k < |log| ==> WellFormed(log[k])
    requires WellFormed(r)
    ensures var rs := ResultsFor(log + [r], r.url);
      && Recompute(row, rs).Saved?
      && Refreshed(row, rs).totalChecks >= 1
      && Refreshed(row, rs).lastCheck == Some(r.timestamp)
  {
    var rs := ResultsFor(log + [r], r.url);
    ResultsForAppend(log, r, r.url);
    assert rs[0] == r;
    RecomputeRaisesIff(row, rs);
    RecomputeNothingIffEmpty(row, rs);
    forall k | 0 <= k < |Window(rs)| ensures WellFormed(Window(rs)[k]) {
      assert Window(rs)[k] == rs[k];
      assert rs[k] in log + [r];
    }
    RecomputeSavedFields(row, rs);
  }

  /** The result a worker that raised is replaced by: a connection error naming the thread failure. */
  lemma WorkerFaultRecord(url: string, detail: string, now: int)
    ensures var r := CycleRecord(url, Faulted(detail), now);
      && r.status == ConnectionError && r.url == url
      && r.errorMessage.Some?
      && r.errorMessage.value[..|"Thread execution error: "|] == "Thread execution error: "
      && r.statusCode.None? && r.responseTime.None? && r.loadTime.None?
  {
  }

  /** No entry occurs twice. */
  predicate Distinct(s: seq<string>) {
    forall i, j :: 0 <= i < j < |s| ==> s[i] != s[j]
  }

  /**
   * The statistics table after the first `i` websites of a cycle: rows of
   * the other websites as they were, and each of the first `i` refreshed
   * from its results.
   */
  ghost predicate CycleStats(initial: map<string, StatsRow>, stats: map<string, StatsRow>,
                             completion: seq<string>, i: nat, log: seq<CheckResult>)
    requires i <= |completion|
  {
    && CycleKeys(initial, stats, completion[..i])
    && CycleUntouched(initial, stats, completion[..i])
    && CycleRefreshed(initial, stats, completion[..i], log)
  }

  /** A row exists for the websites that had one and for those already checked. */
  ghost predicate CycleKeys(initial: map<string, StatsRow>, stats: map<string, StatsRow>, done: seq<string>) {
    forall u :: u in stats <==> u in initial || u in done
  }

  /** The rows of websites not yet checked are as they were. */
  ghost predicate CycleUntouched(initial: map<string, StatsRow>, stats: map<string, StatsRow>, done: seq<string>) {
    forall u :: u in initial && u !in done ==> u in stats && stats[u] == initial[u]
  }

  /** The row of each checked website is refreshed from its results in `log`. */
  ghost predicate CycleRefreshed(initial: map<string, StatsRow>, stats: map<string, StatsRow>,
                                 done: seq<string>, log: seq<CheckResult>) {
    forall k :: 0 <= k < |done| ==>
      done[k] in stats &&
      stats[done[k]] == Refreshed(StoredOrDefault(initial, done[k]), ResultsFor(log, done[k]))
  }

  /** Checking the next website of a cycle keeps `CycleStats`. */
  lemma CycleStatsStep(initial: map<string, StatsRow>, stats: map<string, StatsRow>,
                       completion: seq<string>, i: nat, log: seq<CheckResult>, r: CheckResult)
    requires i < |completion| && completion[i] !in completion[..i]
    requires r.url == completion[i]
    requires CycleStats(initial, stats, completion, i, log)
    ensures CycleStats(initial, StatsAfterCheck(stats, completion[i], log + [r]), completion, i + 1, log + [r])
  {
    var after := StatsAfterCheck(stats, r.url, log + [r]);
    CycleKeysNext(initial, stats, after, completion, i);
    CycleUntouchedNext(initial, stats, after, completion, i);
    CycleRefreshedNext(initial, stats, completion, i, log, r);
  }

  lemma CycleKeysNext(initial: map<string, StatsRow>, stats: map<string, StatsRow>,
                      after: map<string, StatsRow>, completion: seq<string>, i: nat)
    requires i < |completion|
    requires CycleKeys(initial, stats, completion[..i])
    requires after.Keys == stats.Keys + {completion[i]}
    ensures CycleKeys(initial, after, completion[..i + 1])
  {
    assert completion[..i + 1] == completion[..i] + [completion[i]];
    CycleKeysStep(initial, stats, after, completion[..i], completion[i]);
  }

  lemma CycleUntouchedNext(initial: map<string, StatsRow>, stats: map<string, StatsRow>,
                           after: map<string, StatsRow>, completion: seq<string>, i: nat)
    requires i < |completion|
    requires CycleUntouched(initial, stats, completion[..i])
    requires after.Keys == stats.Keys + {completion[i]}
    requires forall u :: u in stats && u != completion[i] ==> after[u] == stats[u]
    ensures CycleUntouched(initial, after, completion[..i + 1])
  {
    assert completion[..i + 1] == completion[..i] + [completion[i]];
    CycleUntouchedStep(initial, stats, after, completion[..i], completion[i]);
  }

  lemma CycleRefreshedNext(initial: map<string, StatsRow>, stats: map<string, StatsRow>,
                           completion: seq<string>, i: nat, log: seq<CheckResult>, r: CheckResult)
    requires i < |completion| && completion[i] !in completion[..i]
    requires r.url == completion[i]
    requires CycleKeys(initial, stats, completion[..i]) && CycleUntouched(initial, stats, completion[..i])
    requires CycleRefreshed(initial, stats, completion[..i], log)
    ensures CycleRefreshed(initial, StatsAfterCheck(stats, r.url, log + [r]), completion[..i + 1], log + [r])
  {
    var done := completion[..i];
    var next := completion[..i + 1];
    assert next == done + [r.url];
    CycleRefreshedStep(initial, stats, done, next, log, r);
  }

  lemma CycleKeysStep(initial: map<string, StatsRow>, stats: map<string, StatsRow>,
                      after: map<string, StatsRow>, done: seq<string>, url: string)
    requires CycleKeys(initial, stats, done)
    requires after.Keys == stats.Keys + {url}
    ensures CycleKeys(initial, after, done + [url])
  {
    forall u
      ensures u in after <==> u in initial || u in done + [url]
    {
      assert u in done + [url] <==> u in done || u == url;
    }
  }

  lemma CycleUntouchedStep(initial: map<string, StatsRow>, stats: map<string, StatsRow>,
                           after: map<string, StatsRow>, done: seq<string>, url: string)
    requires CycleUntouched(initial, stats, done)
    requires after.Keys == stats.Keys + {url}
    requires forall u :: u in stats && u != url ==> after[u] == stats[u]
    ensures CycleUntouched(initial, after, done + [url])
  {
    forall u | u in initial && u !in done + [url]
      ensures u in after && after[u] == initial[u]
    {
      assert u !in done && u != url;
    }
  }

  lemma CycleRefreshedStep(initial: map<string, StatsRow>, stats: map<string, StatsRow>,
                           done: seq<string>, done': seq<string>, log: seq<CheckResult>, r: CheckResult)
    requires r.url !in done && done' == done + [r.url]
    requires CycleKeys(initial, stats, done) && CycleUntouched(initial, stats, done)
    requires CycleRefreshed(initial, stats, done, log)
    ensures CycleRefreshed(initial, StatsAfterCheck(stats, r.url, log + [r]), done', log + [r])
  {
    var url := r.url;
    var after := StatsAfterCheck(stats, url, log + [r]);
    assert StoredOrDefault(stats, url) == StoredOrDefault(initial, url);
    forall k | 0 <= k < |done'|
      ensures done'[k] in after
      ensures after[done'[k]] == Refreshed(StoredOrDefault(initial, done'[k]), ResultsFor(log + [r], done'[k]))
    {
      if k < |done| {
        assert done'[k] == done[k] != url;
        ResultsForAppend(log, r, done[k]);
      }
    }
  }

  /** A completion order lists stored websites only, each once. */
  lemma CompletionOrderStored(websites: map<string, Website>, completion: seq<string>)
    requires IsCompletionOrder(websites, completion)
    ensures Distinct(completion)
    ensures forall k :: 0 <= k < |completion| ==> completion[k] in websites
  {
    forall k | 0 <= k < |completion| ensures completion[k] in websites {
      assert completion[k] in ActiveUrls(websites);
    }
  }

  /** In a list without repetitions no entry occurs before its own position. */
  lemma DistinctNotBefore(s: seq<string>, i: nat)
    requires Distinct(s) && i < |s|
    ensures s[i] !in s[..i]
  {
    forall k | 0 <= k < i ensures s[..i][k] != s[i] {
      assert s[..i][k] == s[k];
    }
  }

  /** A list without repetitions has as many distinct elements as entries. */
  lemma {:induction false} DistinctCardinality(s: seq<string>)
    requires Distinct(s)
    ensures |set u | u in s| == |s|
  {
    if |s| > 0 {
      var init := s[..|s| - 1];
      DistinctCardinality(init);
      assert (set u | u in s) == (set u | u in init) + {s[|s| - 1]};
    }
  }

  /**
   * A cycle yields exactly one result per active website: as many results as
   * active websites, each for a different one, and every active website
   * among them.
   */
  lemma OneResultPerActiveWebsite(websites: map<string, Website>, completion: seq<string>,
                                  runs: map<string, WorkerRun>, times: seq<int>)
    requires IsCompletionOrder(websites, completion)
    requires forall k :: 0 <= k < |completion| ==> completion[k] in runs
    requires |times| == |completion|
    ensures var rs := CycleRecords(completion, runs, times);
      && |rs| == |ActiveUrls(websites)|
      && (forall i, j :: 0 <= i < j < |rs| ==> rs[i].url != rs[j].url)
      && (forall u :: u in ActiveUrls(websites) <==> exists k :: 0 <= k < |rs| && rs[k].url == u)
  {
    var rs := CycleRecords(completion, runs, times);
    forall k | 0 <= k < |rs| ensures rs[k].url == completion[k] {
      match runs[completion[k]] {
        case Ran(probes) => OutcomeWellFormed(completion[k], probes, times[k]);
        case Faulted(_) =>
      }
    }
    DistinctCardinality(completion);
    assert (set u | u in completion) == ActiveUrls(websites);
    forall u | u in ActiveUrls(websites) ensures exists k :: 0 <= k < |rs| && rs[k].url == u {
      var k :| 0 <= k < |completion| && completion[k] == u;
      assert rs[k].url == u;
    }
  }

  /** Every result a cycle collects is well formed and belongs to the website it was collected for. */
  lemma CycleRecordsWellFormed(completion: seq<string>, runs: map<string, WorkerRun>, times: seq<int>)
    requires |times| == |completion|
    requires forall k :: 0 <= k < |completion| ==> completion[k] in runs
    ensures var rs := CycleRecords(completion, runs, times);
      forall k :: 0 <= k < |rs| ==> WellFormed(rs[k]) && rs[k].url == completion[k] && rs[k].timestamp == times[k]
  {
    var rs := CycleRecords(completion, runs, times);
    forall k | 0 <= k < |rs| ensures WellFormed(rs[k]) && rs[k].url == completion[k] && rs[k].timestamp == times[k] {
      match runs[completion[k]] {
        case Ran(probes) => OutcomeWellFormed(completion[k], probes, times[k]);
        case Faulted(_) =>
      }
    }
  }
}
