# Web monitor core in Dafny

This project models the core of the Django "webmonitor" application. That
core is two files:

- `webmonitor/services/monitoring_service.py`:
  - the check of one website (an HTTP request, then a page load in a private
    browser session, classified as `success`, `error`, `timeout` or
    `connection_error`);
  - the error record;
  - the statistics refresh after every stored result;
  - the monitoring cycle over all active websites;
  - the bulk import of URLs from a JSON document.
- `webmonitor/models.py`:
  - the three tables (websites, monitoring results and per-website
    statistics);
  - the status choices;
  - the newest-first result order;
  - the statistics recomputation `MonitoringStats.update_stats`.

The modules are:

- `Wrappers` (`wrappers.dfy`): `Option`.
- `Strings` (`strings.dfy`): ASCII `lower`, substring containment, and
  `str.split`/`join` on one character. It proves that joining a split gives
  back the string.
- `Models` (`models.dfy`):
  - the entities as datatypes;
  - the recomputation `update_stats` performs, as the function `Recompute`;
  - the statistics row as the class `MonitoringStats`, whose method
    `UpdateStats` assigns the fields in the order the source does and is
    proved to produce `Recompute`'s row;
  - lemmas about the counts, the averages, the uptime, the last check and
    idempotence.
- `Checks` (`checks.dfy`): the classification of one check, as a function
  `CheckOutcome` of what the browser session, the HTTP probe and the page
  load did. It proves the lemmas that relate each branch to its status,
  message and timings.
- `Import` (`import.dfy`): the import loop as a function `ImportAll` over
  the tables. It proves lemmas for the display-name rule, only-adds,
  stats-per-new-website, the count returned, the raise condition and
  idempotence.
- `MonitoringService` (`monitoring_service.dfy`):
  - the service as a class that holds the three tables:
    - websites and statistics rows in maps keyed by URL;
    - results in an append-only sequence in creation order;
  - its methods are `MonitorWebsiteThreaded`, `CreateErrorResult`,
    `UpdateWebsiteStats`, `MonitorAllWebsites` (a loop over an arbitrary
    completion order) and `LoadWebsitesFromJson` (a loop);
  - each method is proved against the pure functions above, and keeps the
    table invariant `Valid()`.

The inputs of a check are parameters: whether a browser session could be
created, what the HTTP request and the page load did, how long they took,
what title and URL the page had, and the current time. These are the
probes, the clock and the worker outcomes.

## Model

| member | source | states |
|---|---|---|
| Models.Window | webmonitor/models.py:59-60 | the results considered are the first `min(n, 100)` of the website's results, in order |
| Models.CountsPartition | webmonitor/models.py:18-23 | successful and failed counts never overlap; when every status is one of the four choices they add up to the number of results |
| Models.SuccessfulCount | webmonitor/models.py:64-67 | the successful-results list has exactly as many entries as the successful count |
| Models.SumBounds | webmonitor/models.py:69-70 | a sum of `n` values each in `[lo, hi]` lies in `[n*lo, n*hi]` |
| Models.MeanBounds | webmonitor/models.py:69-70 | an average of values in `[lo, hi]` lies in `[lo, hi]` |
| Models.PercentBounds | webmonitor/models.py:72 | `part / whole * 100` lies in `[0, 100]` when `0 <= part <= whole` |
| Models.MonitoringStats.UpdateStats | webmonitor/models.py:57-74 | the row becomes the recomputed one, or the partially assigned one when a sum raises, or stays as it was when there are no results; `save()` is reached exactly when the recomputation completes |
| Models.RecomputeNothingIffEmpty | webmonitor/models.py:62 | nothing is assigned or saved exactly when the website has no results |
| Models.RecomputeRaisesIff | webmonitor/models.py:67-70 | the recomputation raises exactly when some successful result in the window lacks a response or load time |
| Models.RecomputeCounts | webmonitor/models.py:63-65 | total is the window size (at most 100), successful and failed count their statuses, and together they make up the total when all statuses are choices |
| Models.RecomputeUptime | webmonitor/models.py:72 | uptime is successful/total*100 and lies between 0 and 100 |
| Models.RecomputeSavedFields | webmonitor/models.py:63-73 | a saved row holds the window's size, counts, uptime and newest timestamp |
| Models.RecomputeAverages | webmonitor/models.py:67-70 | the averages are the means of the successful results' timings and lie within their bounds; with no success they keep their old values |
| Models.AllSuccessful | webmonitor/models.py:67 | when every result is a success, the successful results are all of them |
| Models.RecomputeAllSuccessAverages | webmonitor/models.py:67-70 | with only successes in the window, the averages are the means over the whole window |
| Models.RecomputeLastCheck | webmonitor/models.py:38 | with newest-first results, the last check is set and no result is later than it, and the 100 kept results are the newest ones |
| Models.RecomputeIdempotent | webmonitor/models.py:57-74 | recomputing a saved row from the same results gives the same row |
| Strings.SplitPartsHaveNoSeparator | webmonitor/services/monitoring_service.py:216 | no part of `url.split("/")` contains "/" |
| Strings.JoinSplit | webmonitor/services/monitoring_service.py:216 | joining the parts of a split with the separator gives back the string |
| Strings.LastPartIsSuffix | webmonitor/services/monitoring_service.py:216 | the last part of a split is a suffix of the string, either all of it or preceded by the separator |
| Strings.TrailingSeparatorSplit | webmonitor/services/monitoring_service.py:216 | a string ending in the separator splits into its prefix's parts plus an empty last part |
| Strings.SplitSingleEmpty | webmonitor/services/monitoring_service.py:216 | the split is a single empty part exactly for the empty string |
| Checks.ConnectionErrorCountsAsFailure | webmonitor/services/monitoring_service.py:188-194 | the error row is well formed and a failure; as a website's only result it saves one failed check, zero uptime, its time as last check and the old averages |
| Checks.CheckOutcome | webmonitor/services/monitoring_service.py:90-151 | the row of a check belongs to its website and carries the time of the check |
| Checks.OutcomeWellFormed | webmonitor/services/monitoring_service.py:99-144 | every row has one of the four statuses, and a success carries both timings |
| Checks.ConnectionErrorIffNotRun | webmonitor/services/monitoring_service.py:96-151 | `connection_error` exactly when there was no browser session (lines 96-97) or the row could not be inserted (line 136, caught at lines 149-151) |
| Checks.RenderedClassification | webmonitor/services/monitoring_service.py:116-125 | a loaded page is `success` exactly when its lower-cased title has no "error" and it has a current URL; otherwise `error` with "Page load error: " and the title |
| Checks.TimeoutClassification | webmonitor/services/monitoring_service.py:127-130 | a page-load timeout is `timeout` with the fixed message and a load time of 30 seconds |
| Checks.RenderFailureClassification | webmonitor/services/monitoring_service.py:131-133 | any other failure of the page load is `error` with "Error: " and its text |
| Checks.HttpFailureDoesNotClassify | webmonitor/services/monitoring_service.py:108-113 | a failed HTTP request leaves no status code and a zero response time, and the status, message and load time are what the page load decides |
| Checks.HttpCrashClassification | webmonitor/services/monitoring_service.py:106-133 | an HTTP probe raising something other than a request error ends the check as `error` before the page load, with zero timings |
| Checks.NoDriverClassification | webmonitor/services/monitoring_service.py:95-97 | without a browser session the row is `connection_error` "WebDriver not available" with no status code or timings |
| Checks.LowerContainsErrorIgnoringCase | webmonitor/services/monitoring_service.py:121 | the lower-cased title contains "error" exactly when the title contains it in some mix of upper and lower case |
| Checks.ErrorAtLowered | webmonitor/services/monitoring_service.py:121 | at each position, the lower-cased title shows "error" exactly when the title shows it in any case |
| Checks.TitleWithoutR | webmonitor/services/monitoring_service.py:121 | a title with no 'r' or 'R' never contains "error" once lower-cased |
| Checks.ScenarioHealthySite | webmonitor/services/monitoring_service.py:106-147 | HTTP 200 and a normal title is `success` with code 200, both timings and no message |
| Checks.ScenarioErrorTitle | webmonitor/services/monitoring_service.py:106-125 | a title "404 Not Found - ERROR" is `error` with "Page load error: " and the title, for any HTTP answer or request failure |
| Checks.ScenarioUnreachableSite | webmonitor/services/monitoring_service.py:108-133 | an unreachable site is `error` with no status code |
| Import.DisplayNameDefined | webmonitor/services/monitoring_service.py:216 | a display name exists for every URL except the empty one, whose name raises |
| Import.DisplayNameLastSegment | webmonitor/services/monitoring_service.py:216 | for a URL not ending in "/", the name is its non-empty last segment |
| Import.DisplayNameTrailingSlash | webmonitor/services/monitoring_service.py:216 | for a URL ending in "/", the name is the segment before the final "/" |
| Import.DisplayNameHasNoSlash | webmonitor/services/monitoring_service.py:216 | a display name never contains "/" |
| Import.ImportOnlyAdds | webmonitor/services/monitoring_service.py:213-220 | existing websites and rows are kept, and every new website is keyed by its non-empty URL, named and active |
| Import.ImportCountsAdded | webmonitor/services/monitoring_service.py:218-219 | the count grows by exactly the number of websites added |
| Import.ImportCreatesStats | webmonitor/services/monitoring_service.py:218-220 | each new website gets exactly one default statistics row, and nothing else gets one |
| Import.ImportFailsIffBadEntry | webmonitor/services/monitoring_service.py:213-227 | the import raises exactly when some entry is not a string or is empty |
| Import.ImportStoresEveryUrl | webmonitor/services/monitoring_service.py:213-217 | an import that does not raise stores exactly the old URLs plus the listed ones |
| Import.ImportCountsNewUrls | webmonitor/services/monitoring_service.py:211-223 | the count returned is the number of distinct listed URLs not stored before |
| Import.ImportIdempotent | webmonitor/services/monitoring_service.py:213-220 | importing the same list again changes no table and counts nothing |
| Import.UnreadableImportsNothing | webmonitor/services/monitoring_service.py:206-208 | an unreadable document returns 0 and changes nothing |
| Import.PartialImportReturnsZero | webmonitor/services/monitoring_service.py:213-227 | when some entry raises, the import fails and returns 0, and every URL listed before the first such entry stays stored |
| Import.ImportKeysGrow | webmonitor/services/monitoring_service.py:213-217 | the stored URLs only grow, whether or not the import raises |
| Import.ScenarioDuplicateUrl | webmonitor/services/monitoring_service.py:213-220 | a URL listed twice creates one website, named after its last segment, and returns 1 |
| MonitoringService.MaxWorkers | webmonitor/services/monitoring_service.py:165 | the pool size is `min(n, 5)`, and zero exactly when there are no active websites |
| MonitoringService.CycleRecord | webmonitor/services/monitoring_service.py:175-184 | every collected row is well formed and belongs to its website and time |
| MonitoringService.ResultsFor | webmonitor/models.py:25 | a website's results are rows of the log that belong to it |
| MonitoringService.ResultsForComplete | webmonitor/models.py:59 | every stored row of the website is among its results |
| MonitoringService.WebMonitoringService.UpdateWebsiteStats | webmonitor/services/monitoring_service.py:198-203 | the website's row is created if missing, then replaced by the recomputed one only if it was saved; websites and results are unchanged |
| MonitoringService.WebMonitoringService.CreateErrorResult | webmonitor/services/monitoring_service.py:188-196 | one connection-error row is appended and the website's statistics are refreshed |
| MonitoringService.WebMonitoringService.MonitorWebsiteThreaded | webmonitor/services/monitoring_service.py:90-151 | exactly one row, the classified outcome, is appended, and the website's statistics are refreshed |
| MonitoringService.WebMonitoringService.CollectOne | webmonitor/services/monitoring_service.py:176-184 | a worker's row, or the "Thread execution error: " row when the worker raised, is appended and stats refreshed |
| MonitoringService.WebMonitoringService.CollectNext | webmonitor/services/monitoring_service.py:175-184 | collecting the next finished website appends its row and keeps every checked website's statistics refreshed and every other row as it was |
| MonitoringService.WebMonitoringService.MonitorAllWebsites | webmonitor/services/monitoring_service.py:159-186 | with no active website the pool raises and nothing changes; otherwise the returned rows, one per active website in completion order, are appended and every checked website's statistics are refreshed from its results |
| MonitoringService.WebMonitoringService.LoadWebsitesFromJson | webmonitor/services/monitoring_service.py:205-227 | the tables and the returned count are those of the import function, and results are untouched |
| MonitoringService.ResultsForAppend | webmonitor/models.py:38 | a newly stored row comes first among its own website's results, and other websites' results are unchanged |
| MonitoringService.ResultsForNewestFirst | webmonitor/models.py:38 | when stored timestamps never decrease, each website's results are in `-timestamp` order |
| MonitoringService.CheckRefreshesStats | webmonitor/services/monitoring_service.py:146 | after a row is stored, its website's statistics are recomputed and saved without raising, with at least one check and the row's timestamp as last check |
| MonitoringService.WorkerFaultRecord | webmonitor/services/monitoring_service.py:181-184 | a worker that raised is replaced by a `connection_error` row whose message starts with "Thread execution error: " |
| MonitoringService.CycleStatsStep | webmonitor/services/monitoring_service.py:175-184 | refreshing the next website's row keeps every earlier website's refreshed row |
| MonitoringService.OneResultPerActiveWebsite | webmonitor/services/monitoring_service.py:161-186 | a cycle yields exactly one row per active website: as many rows as active websites, each for a different one |
| MonitoringService.CycleRecordsWellFormed | webmonitor/services/monitoring_service.py:175-184 | every row a cycle returns is well formed and belongs to the website and time it was collected for |

## Left out

- Creating the browser session (`_create_private_driver`, lines 22-88 of
  `monitoring_service.py`) and its options: only whether a session exists
  is an input.
- The HTTP request, the page load, `time.sleep`, `time.time` and
  `timezone.now`: their outcomes and durations are inputs to each check.
- Thread-pool concurrency: the cycle runs the checks one after another in a
  completion order given as input. Interleavings of two workers' statistics
  updates are not modelled; each website is checked once per cycle.
- The database: tables are maps and a sequence. Column constraints are not
  enforced. These include field lengths and the NOT NULL timing columns,
  which in the real database would refuse the connection-error row that
  has no timings. The model stores that row as written.
- `_create_error_result` raising inside the cycle's own exception handler
  (line 183): its insert is taken to succeed.
- Newest-first is reverse insertion order; the order among equal timestamps
  is unspecified in the source. `MonitoringService.ResultsForNewestFirst`
  relates this to `-timestamp` order when the clock never goes back.
- `driver.quit()`, `cleanup()` and all logging.
- JSON parsing: a document is either unreadable or a list of entries, and
  each entry is a string or some other value. A `"urls"` value that is not
  a list is not modelled.
- Floating point: the averages and the uptime are exact reals.
- `str.lower()` covers ASCII letters only.
- `Models.RecomputeAverages`: a recomputation that raises leaves a
  partially assigned row in memory. Only whether the call raised is stated
  about it.
- `Import.ImportIdempotent`: stated for tables in which every statistics
  row belongs to a website, which the service's invariant guarantees.
- `Import.ImportOnlyAdds`: stated under the same condition.
- Columns the core never reads: `created_at`, `updated_at`,
  `screenshot_path`, and the website `ordering`. The cycle's completion
  order is arbitrary anyway.
- Views, consumers, tasks, admin, the management command and the
  screenshot scripts are outside the core.
