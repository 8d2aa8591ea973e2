/**
 * The records of the monitor (webmonitor/models.py): websites, check
 * results, and the per-website statistics row with its recomputation
 * `update_stats`.
 */
module Models {
  import opened Wrappers

  /**
   * A result's status. The first four are STATUS_CHOICES; the column is a
   * plain character field that does not enforce its choices, so any other
   * label is representable and is counted neither as success nor as failure.
   */
  datatype Status = Success | Error | Timeout | ConnectionError | Other(text: string)

  predicate InChoices(s: Status) {
    !s.Other?
  }

  /** The statuses `update_stats` counts as failed checks. */
  predicate IsFailure(s: Status) {
    s == Error || s == Timeout || s == ConnectionError
  }

  /** A result as the service creates it: a status from the choices, and both timings on a success. */
  predicate WellFormed(r: CheckResult) {
    InChoices(r.status) && (r.status == Success ==> r.responseTime.Some? && r.loadTime.Some?)
  }

  /** A monitored website; the URL is its unique key. */
  datatype Website = Website(url: string, name: string, isActive: bool)

  /**
   * One monitoring result. Timings are absent when the row was created
   * without them (the connection-error record); the status code is absent
   * when the HTTP probe did not answer.
   */
  datatype CheckResult = CheckResult(
    url: string,
    statusCode: Option<int>,
    responseTime: Option<real>,
    loadTime: Option<real>,
    status: Status,
    errorMessage: Option<string>,
    timestamp: int)

  /** The persisted columns of a statistics row. */
  datatype StatsRow = StatsRow(
    totalChecks: int,
    successfulChecks: int,
    failedChecks: int,
    averageResponseTime: real,
    averageLoadTime: real,
    lastCheck: Option<int>,
    uptimePercentage: real)

  /** A freshly created statistics row: every column at its default. */
  function DefaultStats(): StatsRow {
    StatsRow(0, 0, 0, 0.0, 0.0, None, 0.0)
  }

  /** How many of the newest results the statistics look at. */
  const WindowSize: nat := 100

  /** Results are delivered newest first (the `-timestamp` ordering). */
  predicate NewestFirst(results: seq<CheckResult>) {
    forall i, j :: 0 <= i < j < |results| ==> results[i].timestamp >= results[j].timestamp
  }

  /** `results[:100]`. */
  function Window(results: seq<CheckResult>): (w: seq<CheckResult>)
    ensures |w| <= WindowSize
    ensures |w| <= |results|
    ensures |w| == |results| || |w| == WindowSize
    ensures w == results[..|w|]
  {
    if |results| <= WindowSize then results else results[..WindowSize]
  }

  /** Number of results whose status is `success`. */
  function CountSuccessful(w: seq<CheckResult>): (n: nat)
    ensures n <= |w|
  {
    if |w| == 0 then 0
    else (if w[0].status == Success then 1 else 0) + CountSuccessful(w[1..])
  }

  /** Number of results whose status is `error`, `timeout` or `connection_error`. */
  function CountFailed(w: seq<CheckResult>): (n: nat)
    ensures n <= |w|
  {
    if |w| == 0 then 0
    else (if IsFailure(w[0].status) then 1 else 0) + CountFailed(w[1..])
  }

  /** The successful results, in their original order. */
  function Successful(w: seq<CheckResult>): (s: seq<CheckResult>)
    ensures |s| <= |w|
    ensures forall k :: 0 <= k < |s| ==> s[k].status == Success && s[k] in w
  {
    if |w| == 0 then []
    else if w[0].status == Success then [w[0]] + Successful(w[1..])
    else Successful(w[1..])
  }

  /** Which timing column an average is taken over. */
  datatype Timing = ResponseTime | LoadTime

  function TimeOf(r: CheckResult, t: Timing): Option<real> {
    match t
    case ResponseTime => r.responseTime
    case LoadTime => r.loadTime
  }

  /**
   * The timing column of every result, or None when some result lacks it
   * (summing such a column raises a type error in the source).
   */
  function TimesOf(rs: seq<CheckResult>, t: Timing): (ts: Option<seq<real>>)
    ensures ts.Some? <==> forall k :: 0 <= k < |rs| ==> TimeOf(rs[k], t).Some?
    ensures ts.Some? ==> |ts.value| == |rs|
    ensures ts.Some? ==> forall k :: 0 <= k < |rs| ==> ts.value[k] == TimeOf(rs[k], t).value
  {
    if |rs| == 0 then Some([])
    else
      match TimeOf(rs[0], t)
      case None => None
      case Some(x) =>
        match TimesOf(rs[1..], t)
        case None => None
        case Some(rest) => Some([x] + rest)
  }

  function Sum(xs: seq<real>): real {
    if |xs| == 0 then 0.0 else xs[0] + Sum(xs[1..])
  }

  /** The arithmetic mean. */
  function Mean(xs: seq<real>): real
    requires |xs| > 0
  {
    Sum(xs) / (|xs| as real)
  }

  /** What one call of `update_stats` does to the row it is called on. */
  datatype Recomputation =
    | NothingToDo              // empty window: no field changes, no save
    | Saved(row: StatsRow)     // all fields recomputed and saved
    | Raised(partial: StatsRow) // a sum hit a missing timing: fields assigned so far, no save

  /** `part / whole * 100` in real arithmetic. */
  function Percent(part: int, whole: int): real
    requires whole > 0
  {
    (part as real) / (whole as real) * 100.0
  }

  /** Uptime and last check, the last two fields `update_stats` assigns. */
  function Finish(row: StatsRow, w: seq<CheckResult>): StatsRow
    requires |w| > 0
  {
    row.(uptimePercentage := Percent(CountSuccessful(w), |w|),
         lastCheck := Some(w[0].timestamp))
  }

  /**
   * `MonitoringStats.update_stats` on a row whose website has `results`
   * (newest first): the counts, the averages over successful results (kept
   * when there are none), the uptime and the last check, all from the
   * newest `WindowSize` results.
   */
  function Recompute(current: StatsRow, results: seq<CheckResult>): Recomputation {
    var w := Window(results);
    if |w| == 0 then NothingToDo
    else
      var counted := current.(totalChecks := |w|,
                              successfulChecks := CountSuccessful(w),
                              failedChecks := CountFailed(w));
      var successes := Successful(w);
      if |successes| == 0 then Saved(Finish(counted, w))
      else
        match TimesOf(successes, ResponseTime)
        case None => Raised(counted)
        case Some(responses) =>
          var averaged := counted.(averageResponseTime := Mean(responses));
          match TimesOf(successes, LoadTime)
          case None => Raised(averaged)
          case Some(loads) => Saved(Finish(averaged.(averageLoadTime := Mean(loads)), w))
  }

  /** The row held in memory after the recomputation. */
  function RowAfter(current: StatsRow, r: Recomputation): StatsRow {
    match r
    case NothingToDo => current
    case Saved(row) => row
    case Raised(partial) => partial
  }

  /** Whether `update_stats` reached its `save()`. */
  datatype UpdateEffect = NotSaved | SaveCalled | RaisedBeforeSave

  /** The statistics row of one website, updated in place by `UpdateStats`. */
  class MonitoringStats {
    var totalChecks: int
    var successfulChecks: int
    var failedChecks: int
    var averageResponseTime: real
    var averageLoadTime: real
    var lastCheck: Option<int>
    var uptimePercentage: real

    /** The row's columns as a value. */
    function Row(): StatsRow
      reads this
    {
      StatsRow(totalChecks, successfulChecks, failedChecks,
               averageResponseTime, averageLoadTime, lastCheck, uptimePercentage)
    }

    /** Loads a stored row. */
    constructor (row: StatsRow)
      ensures Row() == row
    {
      totalChecks := row.totalChecks;
      successfulChecks := row.successfulChecks;
      failedChecks := row.failedChecks;
      averageResponseTime := row.averageResponseTime;
      averageLoadTime := row.averageLoadTime;
      lastCheck := row.lastCheck;
      uptimePercentage := row.uptimePercentage;
    }

    /**
     * `update_stats`: `results` is the website's results, newest first.
     * Overwrites the fields in the order the source assigns them.
     */
    method UpdateStats(results: seq<CheckResult>) returns (effect: UpdateEffect)
      modifies this
      ensures Row() == RowAfter(old(Row()), Recompute(old(Row()), results))
      ensures effect == match Recompute(old(Row()), results)
        case NothingToDo => NotSaved
        case Saved(_) => SaveCalled
        case Raised(_) => RaisedBeforeSave
    {
      var window := Window(results);
      if |window| == 0 {
        return NotSaved;
      }
      totalChecks := |window|;
      successfulChecks := CountSuccessful(window);
      failedChecks := CountFailed(window);
      var successes := Successful(window);
      if |successes| > 0 {
        var responses := TimesOf(successes, ResponseTime);
        if responses.None? {
          return RaisedBeforeSave;
        }
        averageResponseTime := Mean(responses.value);
        var loads := TimesOf(successes, LoadTime);
        if loads.None? {
          return RaisedBeforeSave;
        }
        averageLoadTime := Mean(loads.value);
      }
      uptimePercentage := if totalChecks > 0
        then Percent(successfulChecks, totalChecks)
        else 0.0;
      lastCheck := Some(window[0].timestamp);
      effect := SaveCalled;
    }
  }

  // ---------------------------------------------------------------------
  // Properties of the recomputation
  // ---------------------------------------------------------------------

  /** Successes and failures never overlap, and cover the window when every status is a choice. */
  lemma {:induction false} CountsPartition(w: seq<CheckResult>)
    ensures CountSuccessful(w) + CountFailed(w) <= |w|
    ensures (forall k :: 0 <= k < |w| ==> InChoices(w[k].status))
            ==> CountSuccessful(w) + CountFailed(w) == |w|
  {
    if |w| > 0 {
      CountsPartition(w[1..]);
      if forall k :: 0 <= k < |w| ==> InChoices(w[k].status) {
        assert forall k :: 0 <= k < |w[1..]| ==> InChoices(w[1..][k].status) by {
          forall k | 0 <= k < |w[1..]| ensures InChoices(w[1..][k].status) {
            assert w[1..][k] == w[k + 1];
          }
        }
      }
    }
  }

  /** The successful results are exactly as many as the success count. */
  lemma {:induction false} SuccessfulCount(w: seq<CheckResult>)
    ensures |Successful(w)| == CountSuccessful(w)
  {
    if |w| > 0 {
      SuccessfulCount(w[1..]);
    }
  }

  /** A sum of values in [lo, hi] lies between |xs| * lo and |xs| * hi. */
  lemma {:induction false} SumBounds(xs: seq<real>, lo: real, hi: real)
    requires forall k :: 0 <= k < |xs| ==> lo <= xs[k] <= hi
    ensures (|xs| as real) * lo <= Sum(xs) <= (|xs| as real) * hi
  {
    if |xs| > 0 {
      SumBounds(xs[1..], lo, hi);
    }
  }

  /** The mean of values in [lo, hi] lies in [lo, hi]. */
  lemma MeanBounds(xs: seq<real>, lo: real, hi: real)
    requires |xs| > 0
    requires forall k :: 0 <= k < |xs| ==> lo <= xs[k] <= hi
    ensures lo <= Mean(xs) <= hi
  {
    SumBounds(xs, lo, hi);
    var n := |xs| as real;
    assert Sum(xs) / n >= lo by {
      assert Sum(xs) >= n * lo;
    }
    assert Sum(xs) / n <= hi by {
      assert Sum(xs) <= n * hi;
    }
  }

  /** An empty window is the only case in which nothing happens. */
  lemma RecomputeNothingIffEmpty(current: StatsRow, results: seq<CheckResult>)
    ensures Recompute(current, results).NothingToDo? <==> |results| == 0
  {
  }

  /** The recomputation raises exactly when a successful result in the window lacks a timing. */
  lemma RecomputeRaisesIff(current: StatsRow, results: seq<CheckResult>)
    ensures Recompute(current, results).Raised? <==>
      exists k :: 0 <= k < |Window(results)| && Window(results)[k].status == Success &&
        (Window(results)[k].responseTime.None? || Window(results)[k].loadTime.None?)
  {
    var w := Window(results);
    var s := Successful(w);
    if exists k :: 0 <= k < |w| && w[k].status == Success && (w[k].responseTime.None? || w[k].loadTime.None?) {
      var k :| 0 <= k < |w| && w[k].status == Success && (w[k].responseTime.None? || w[k].loadTime.None?);
      SuccessfulContains(w, k);
      var j :| 0 <= j < |s| && s[j] == w[k];
      assert TimeOf(s[j], ResponseTime).None? || TimeOf(s[j], LoadTime).None?;
    }
  }

  /** Every successful result of `w` appears among `Successful(w)`. */
  lemma {:induction false} SuccessfulContains(w: seq<CheckResult>, k: int)
    requires 0 <= k < |w| && w[k].status == Success
    ensures exists j :: 0 <= j < |Successful(w)| && Successful(w)[j] == w[k]
  {
    if k == 0 {
      assert Successful(w)[0] == w[0];
    } else {
      SuccessfulContains(w[1..], k - 1);
      var j :| 0 <= j < |Successful(w[1..])| && Successful(w[1..])[j] == w[1..][k - 1];
      if w[0].status == Success {
        assert Successful(w)[j + 1] == w[k];
      } else {
        assert Successful(w)[j] == w[k];
      }
    }
  }

  /**
   * A recomputed row counts the newest min(|results|, 100) results; success
   * and failure counts never exceed the total and add up to it when every
   * status is one of the choices.
   */
  lemma RecomputeCounts(current: StatsRow, results: seq<CheckResult>)
    requires !Recompute(current, results).NothingToDo?
    ensures var row := RowAfter(current, Recompute(current, results));
      && row.totalChecks == (if |results| < WindowSize then |results| else WindowSize)
      && 0 < row.totalChecks <= WindowSize
      && row.successfulChecks == CountSuccessful(Window(results))
      && row.failedChecks == CountFailed(Window(results))
      && 0 <= row.successfulChecks && 0 <= row.failedChecks
      && row.successfulChecks + row.failedChecks <= row.totalChecks
      && ((forall k :: 0 <= k < |results| ==> InChoices(results[k].status))
          ==> row.successfulChecks + row.failedChecks == row.totalChecks)
  {
    var w := Window(results);
    CountsPartition(w);
    if forall k :: 0 <= k < |results| ==> InChoices(results[k].status) {
      assert forall k :: 0 <= k < |w| ==> InChoices(w[k].status) by {
        forall k | 0 <= k < |w| ensures InChoices(w[k].status) {
          assert w[k] == results[k];
        }
      }
    }
  }

  /** The uptime is successful/total*100, and so lies in [0, 100]. */
  lemma RecomputeUptime(current: StatsRow, results: seq<CheckResult>)
    requires Recompute(current, results).Saved?
    ensures var row := Recompute(current, results).row;
      && row.totalChecks > 0
      && row.uptimePercentage == Percent(row.successfulChecks, row.totalChecks)
      && 0.0 <= row.uptimePercentage <= 100.0
  {
    RecomputeSavedFields(current, results);
    var w := Window(results);
    PercentBounds(CountSuccessful(w), |w|);
  }

  /** The fields a saved recomputation sets independently of the averages. */
  lemma RecomputeSavedFields(current: StatsRow, results: seq<CheckResult>)
    requires Recompute(current, results).Saved?
    ensures var w := Window(results); var row := Recompute(current, results).row;
      && |w| > 0
      && row.totalChecks == |w|
      && row.successfulChecks == CountSuccessful(w)
      && row.failedChecks == CountFailed(w)
      && row.uptimePercentage == Percent(CountSuccessful(w), |w|)
      && row.lastCheck == Some(w[0].timestamp)
  {
  }

  /** A percentage of a part no larger than the whole lies in [0, 100] and multiplies back. */
  lemma PercentBounds(part: int, whole: int)
    requires 0 <= part <= whole && whole > 0
    ensures Percent(part, whole) * (whole as real) == (part as real) * 100.0
    ensures 0.0 <= Percent(part, whole) <= 100.0
  {
    var q := (part as real) / (whole as real);
    assert q * (whole as real) == part as real;
    assert 0.0 <= q <= 1.0;
  }

  /**
   * The averages are the arithmetic means over the successful results of
   * the window only, and so lie between the smallest and largest timing
   * among them; with no success in the window they keep their previous
   * values.
   */
  lemma RecomputeAverages(current: StatsRow, results: seq<CheckResult>, lo: real, hi: real)
    requires Recompute(current, results).Saved?
    requires forall k :: 0 <= k < |results| && results[k].status == Success ==>
      (results[k].responseTime.Some? ==> lo <= results[k].responseTime.value <= hi) &&
      (results[k].loadTime.Some? ==> lo <= results[k].loadTime.value <= hi)
    ensures var row := Recompute(current, results).row; var s := Successful(Window(results));
      if |s| == 0 then
        row.averageResponseTime == current.averageResponseTime &&
        row.averageLoadTime == current.averageLoadTime
      else
        && TimesOf(s, ResponseTime).Some? && TimesOf(s, LoadTime).Some?
        && row.averageResponseTime == Mean(TimesOf(s, ResponseTime).value)
        && row.averageLoadTime == Mean(TimesOf(s, LoadTime).value)
        && lo <= row.averageResponseTime <= hi && lo <= row.averageLoadTime <= hi
  {
    var w := Window(results);
    var s := Successful(w);
    SuccessfulCount(w);
    if |s| > 0 {
      forall k | 0 <= k < |s|
        ensures s[k].status == Success
        ensures s[k].responseTime.Some? ==> lo <= s[k].responseTime.value <= hi
        ensures s[k].loadTime.Some? ==> lo <= s[k].loadTime.value <= hi
      {
        var i :| 0 <= i < |w| && w[i] == s[k];
        assert w[i] == results[i];
      }
      var responses := TimesOf(s, ResponseTime).value;
      var loads := TimesOf(s, LoadTime).value;
      MeanBounds(responses, lo, hi);
      MeanBounds(loads, lo, hi);
    }
  }

  /** When every result is a success, the successful results are all of them. */
  lemma {:induction false} AllSuccessful(w: seq<CheckResult>)
    requires forall k :: 0 <= k < |w| ==> w[k].status == Success
    ensures Successful(w) == w
  {
    if |w| > 0 {
      AllSuccessful(w[1..]);
    }
  }

  /** A window of only successes averages each timing over the whole window. */
  lemma RecomputeAllSuccessAverages(current: StatsRow, results: seq<CheckResult>)
    requires Recompute(current, results).Saved?
    requires forall k :: 0 <= k < |Window(results)| ==> Window(results)[k].status == Success
    ensures var row := Recompute(current, results).row; var w := Window(results);
      && TimesOf(w, ResponseTime).Some? && TimesOf(w, LoadTime).Some?
      && row.averageResponseTime == Mean(TimesOf(w, ResponseTime).value)
      && row.averageLoadTime == Mean(TimesOf(w, LoadTime).value)
  {
    AllSuccessful(Window(results));
  }

  /** The last check is the timestamp of the newest result, and the window holds the newest results. */
  lemma RecomputeLastCheck(current: StatsRow, results: seq<CheckResult>)
    requires NewestFirst(results)
    requires Recompute(current, results).Saved?
    ensures Recompute(current, results).row.lastCheck.Some?
    ensures forall k :: 0 <= k < |results| ==>
      results[k].timestamp <= Recompute(current, results).row.lastCheck.value
    ensures forall i, j :: 0 <= i < |Window(results)| <= j < |results| ==>
      Window(results)[i].timestamp >= results[j].timestamp
  {
  }

  /** Recomputing again with no new results changes nothing. */
  lemma RecomputeIdempotent(current: StatsRow, results: seq<CheckResult>)
    requires Recompute(current, results).Saved?
    ensures Recompute(Recompute(current, results).row, results) == Recompute(current, results)
  {
  }
}
