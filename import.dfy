/**
 * The bulk import `load_websites_from_json` of
 * webmonitor/services/monitoring_service.py as a function of the stored
 * websites and statistics and the parsed document: a display name derived
 * from each URL, one website and one statistics row per new URL, and a
 * count of the websites created.
 */
module Import {
  import opened Wrappers
  import opened Models
  import Strings

  /** One entry of the document's "urls" list: a string, or any other JSON value. */
  datatype JsonUrl = Text(s: string) | NonText

  /**
   * The parsed document: unreadable (the file cannot be opened or parsed, or
   * is not an object), or its "urls" list (empty when the key is missing).
   */
  datatype ImportDoc = Unreadable | UrlList(items: seq<JsonUrl>)

  /**
   * `url.split("/")[-1] or url.split("/")[-2]`: the last path segment, or the
   * one before it when the URL ends in "/". None where that raises: only the
   * empty string splits into a single empty segment.
   */
  function DisplayName(url: string): Option<string> {
    var parts := Strings.Split(url, '/');
    if parts[|parts| - 1] != "" then Some(parts[|parts| - 1])
    else if |parts| >= 2 then Some(parts[|parts| - 2])
    else None
  }

  /** Processing this entry raises before the database is touched. */
  predicate Bad(item: JsonUrl) {
    item.NonText? || DisplayName(item.s).None?
  }

  /** The website a new URL is stored as: its display name, active. */
  function NewWebsite(url: string): Website
    requires url != ""
  {
    Website(url, DisplayNameOf(url), true)
  }

  function DisplayNameOf(url: string): string
    requires url != ""
  {
    DisplayNameDefined(url);
    DisplayName(url).value
  }

  /** The stored tables after the loop stops, the count so far, and whether it stopped by raising. */
  datatype ImportRun = ImportRun(
    websites: map<string, Website>,
    stats: map<string, StatsRow>,
    created: nat,
    failed: bool)

  /**
   * The import loop from the current tables and count: for each entry, the
   * display name is computed first (raising for a non-string or an empty
   * URL); a URL not yet stored becomes a website with a fresh statistics row
   * and is counted; a stored one is skipped.
   */
  function ImportAll(websites: map<string, Website>, stats: map<string, StatsRow>,
                     created: nat, items: seq<JsonUrl>): ImportRun
    decreases |items|
  {
    if |items| == 0 then ImportRun(websites, stats, created, false)
    else if Bad(items[0]) then ImportRun(websites, stats, created, true)
    else
      var url := items[0].s;
      if url in websites then ImportAll(websites, stats, created, items[1..])
      else
        ImportAll(websites[url := NewWebsite(url)], stats[url := DefaultStats()],
                  created + 1, items[1..])
  }

  /** The whole call on a document. */
  function ImportDocument(websites: map<string, Website>, stats: map<string, StatsRow>,
                          doc: ImportDoc): ImportRun {
    match doc
    case Unreadable => ImportRun(websites, stats, 0, true)
    case UrlList(items) => ImportAll(websites, stats, 0, items)
  }

  /** What the call returns: the number created, or 0 when it raised. */
  function ReturnedCount(run: ImportRun): nat {
    if run.failed then 0 else run.created
  }

  /** The URLs an entry list names. */
  function UrlsOf(items: seq<JsonUrl>): set<string> {
    set k | 0 <= k < |items| && items[k].Text? :: items[k].s
  }

  /** The websites table is keyed by URL. */
  predicate KeyedByUrl(websites: map<string, Website>) {
    forall u :: u in websites ==> websites[u].url == u
  }

  // ---------------------------------------------------------------------
  // Display names
  // ---------------------------------------------------------------------

  /** The name is defined for every URL except the empty string. */
  lemma DisplayNameDefined(url: string)
    ensures DisplayName(url).None? <==> url == ""
  {
    Strings.SplitSingleEmpty(url, '/');
  }

  /**
   * For a URL not ending in "/", the name is its last segment: non-empty, free
   * of "/", a suffix of the URL, and either the whole URL or preceded by "/".
   */
  lemma DisplayNameLastSegment(url: string)
    requires url != "" && url[|url| - 1] != '/'
    ensures DisplayName(url).Some?
    ensures var n := DisplayName(url).value;
      && n != "" && '/' !in n && |n| <= |url| && url[|url| - |n|..] == n
      && (|n| == |url| || url[|url| - |n| - 1] == '/')
  {
    var parts := Strings.Split(url, '/');
    Strings.LastPartIsSuffix(url, '/');
    Strings.SplitPartsHaveNoSeparator(url, '/');
  }

  /**
   * For a URL ending in "/", the name is the segment before that slash: free
   * of "/", and the URL is some prefix, then the name, then "/", where the
   * prefix is empty or ends in "/".
   */
  lemma DisplayNameTrailingSlash(url: string)
    requires url != "" && url[|url| - 1] == '/'
    ensures DisplayName(url).Some?
    ensures var n := DisplayName(url).value; var body := url[..|url| - 1];
      && '/' !in n && |n| <= |body| && body[|body| - |n|..] == n
      && (|n| == |body| || body[|body| - |n| - 1] == '/')
  {
    var body := url[..|url| - 1];
    Strings.TrailingSeparatorSplit(url, '/');
    Strings.LastPartIsSuffix(body, '/');
    Strings.SplitPartsHaveNoSeparator(body, '/');
  }

  /** The name never contains "/". */
  lemma DisplayNameHasNoSlash(url: string)
    requires url != ""
    ensures '/' !in DisplayName(url).value
  {
    if url[|url| - 1] == '/' {
      DisplayNameTrailingSlash(url);
    } else {
      DisplayNameLastSegment(url);
    }
  }

  // ---------------------------------------------------------------------
  // Properties of the import
  // ---------------------------------------------------------------------

  /**
   * The import only adds: stored websites and statistics rows are kept as
   * they were, and each website it adds is keyed by its URL, named and
   * active.
   */
  lemma {:induction false} ImportOnlyAdds(websites: map<string, Website>, stats: map<string, StatsRow>,
                                          created: nat, items: seq<JsonUrl>)
    requires stats.Keys <= websites.Keys
    ensures var run := ImportAll(websites, stats, created, items);
      && websites.Keys <= run.websites.Keys
      && (forall u :: u in websites ==> run.websites[u] == websites[u])
      && (forall u :: u in stats ==> u in run.stats && run.stats[u] == stats[u])
      && (forall u :: u in run.websites && u !in websites ==>
            u != "" && run.websites[u] == NewWebsite(u))
    decreases |items|
  {
    if |items| > 0 && !Bad(items[0]) {
      var url := items[0].s;
      if url in websites {
        ImportOnlyAdds(websites, stats, created, items[1..]);
      } else {
        DisplayNameDefined(url);
        ImportOnlyAdds(websites[url := NewWebsite(url)], stats[url := DefaultStats()], created + 1, items[1..]);
      }
    }
  }

  /** The count grows by exactly the number of websites the import adds. */
  lemma {:induction false} ImportCountsAdded(websites: map<string, Website>, stats: map<string, StatsRow>,
                                             created: nat, items: seq<JsonUrl>)
    ensures var run := ImportAll(websites, stats, created, items);
      && run.created >= created
      && |run.websites| + created == |websites| + run.created
    decreases |items|
  {
    if |items| > 0 && !Bad(items[0]) {
      var url := items[0].s;
      if url in websites {
        ImportCountsAdded(websites, stats, created, items[1..]);
      } else {
        DisplayNameDefined(url);
        var w' := websites[url := NewWebsite(url)];
        assert |w'| == |websites| + 1;
        ImportCountsAdded(w', stats[url := DefaultStats()], created + 1, items[1..]);
      }
    }
  }

  /**
   * Each website the import adds gets exactly one fresh statistics row, and
   * no row is created for anything else.
   */
  lemma {:induction false} ImportCreatesStats(websites: map<string, Website>, stats: map<string, StatsRow>,
                                              created: nat, items: seq<JsonUrl>)
    requires stats.Keys <= websites.Keys
    ensures var run := ImportAll(websites, stats, created, items);
      && (forall u :: u in run.stats <==> u in stats || (u in run.websites && u !in websites))
      && (forall u :: u in run.websites && u !in websites ==> run.stats[u] == DefaultStats())
    decreases |items|
  {
    if |items| > 0 && !Bad(items[0]) {
      var url := items[0].s;
      if url in websites {
        ImportCreatesStats(websites, stats, created, items[1..]);
      } else {
        DisplayNameDefined(url);
        var w' := websites[url := NewWebsite(url)];
        var s' := stats[url := DefaultStats()];
        ImportCreatesStats(w', s', created + 1, items[1..]);
        ImportOnlyAdds(w', s', created + 1, items[1..]);
      }
    }
  }

  /** The import raises exactly when some entry is not a string or is the empty string. */
  lemma {:induction false} ImportFailsIffBadEntry(websites: map<string, Website>, stats: map<string, StatsRow>,
                                                  created: nat, items: seq<JsonUrl>)
    ensures ImportAll(websites, stats, created, items).failed <==> exists k :: 0 <= k < |items| && Bad(items[k])
    decreases |items|
  {
    if |items| > 0 && !Bad(items[0]) {
      var url := items[0].s;
      var w' := if url in websites then websites else websites[url := NewWebsite(url)];
      var s' := if url in websites then stats else stats[url := DefaultStats()];
      var c' := if url in websites then created else created + 1;
      ImportFailsIffBadEntry(w', s', c', items[1..]);
      assert forall k :: 1 <= k < |items| ==> items[k] == items[1..][k - 1];
      if exists k :: 0 <= k < |items| && Bad(items[k]) {
        var k :| 0 <= k < |items| && Bad(items[k]);
        assert Bad(items[1..][k - 1]);
      }
    }
  }

  /** An import that does not raise stores every URL it names, and nothing else new. */
  lemma {:induction false} ImportStoresEveryUrl(websites: map<string, Website>, stats: map<string, StatsRow>,
                                                created: nat, items: seq<JsonUrl>)
    requires !ImportAll(websites, stats, created, items).failed
    ensures ImportAll(websites, stats, created, items).websites.Keys == websites.Keys + UrlsOf(items)
    decreases |items|
  {
    if |items| > 0 {
      var url := items[0].s;
      var w' := if url in websites then websites else websites[url := NewWebsite(url)];
      var s' := if url in websites then stats else stats[url := DefaultStats()];
      var c' := if url in websites then created else created + 1;
      ImportStoresEveryUrl(w', s', c', items[1..]);
      assert UrlsOf(items) == {url} + UrlsOf(items[1..]) by {
        forall u | u in UrlsOf(items) ensures u in {url} + UrlsOf(items[1..]) {
          var k :| 0 <= k < |items| && items[k].Text? && items[k].s == u;
          if k > 0 {
            assert items[1..][k - 1] == items[k];
          }
        }
        forall u | u in UrlsOf(items[1..]) ensures u in UrlsOf(items) {
          var k :| 0 <= k < |items[1..]| && items[1..][k].Text? && items[1..][k].s == u;
          assert items[k + 1] == items[1..][k];
        }
      }
    }
  }

  /**
   * The count returned equals the number of websites that did not exist
   * before: URLs repeated in the list or already stored are not counted.
   */
  lemma ImportCountsNewUrls(websites: map<string, Website>, stats: map<string, StatsRow>, items: seq<JsonUrl>)
    requires !ImportAll(websites, stats, 0, items).failed
    ensures ReturnedCount(ImportAll(websites, stats, 0, items)) == |UrlsOf(items) - websites.Keys|
  {
    var run := ImportAll(websites, stats, 0, items);
    ImportCountsAdded(websites, stats, 0, items);
    ImportStoresEveryUrl(websites, stats, 0, items);
    AddedCardinality(websites.Keys, UrlsOf(items));
    assert |run.websites| == |run.websites.Keys| && |websites| == |websites.Keys|;
  }

  /** Adding a set of keys grows the key set by the number of keys not already there. */
  lemma AddedCardinality(before: set<string>, listed: set<string>)
    ensures |before + listed| == |before| + |listed - before|
  {
    assert before + listed == before + (listed - before);
    assert before * (listed - before) == {};
  }

  /**
   * Importing the same list again changes nothing and counts nothing: it
   * stops at the same entry, if any, with the same tables.
   */
  lemma {:induction false} ImportIdempotent(websites: map<string, Website>, stats: map<string, StatsRow>,
                                            created: nat, items: seq<JsonUrl>, again: nat)
    requires stats.Keys <= websites.Keys
    ensures var run := ImportAll(websites, stats, created, items);
      ImportAll(run.websites, run.stats, again, items) == ImportRun(run.websites, run.stats, again, run.failed)
    decreases |items|
  {
    if |items| > 0 && !Bad(items[0]) {
      var url := items[0].s;
      var w' := if url in websites then websites else websites[url := NewWebsite(url)];
      var s' := if url in websites then stats else stats[url := DefaultStats()];
      var c' := if url in websites then created else created + 1;
      ImportIdempotent(w', s', c', items[1..], again);
      ImportOnlyAdds(w', s', c', items[1..]);
    }
  }

  /** An unreadable document returns 0 and changes nothing. */
  lemma UnreadableImportsNothing(websites: map<string, Website>, stats: map<string, StatsRow>)
    ensures var run := ImportDocument(websites, stats, Unreadable);
      ReturnedCount(run) == 0 && run.websites == websites && run.stats == stats
  {
  }

  /** The stored URLs only grow, whatever the list holds. */
  lemma {:induction false} ImportKeysGrow(websites: map<string, Website>, stats: map<string, StatsRow>,
                                          created: nat, items: seq<JsonUrl>)
    ensures websites.Keys <= ImportAll(websites, stats, created, items).websites.Keys
    decreases |items|
  {
    if |items| > 0 && !Bad(items[0]) {
      var url := items[0].s;
      if url in websites {
        ImportKeysGrow(websites, stats, created, items[1..]);
      } else {
        DisplayNameDefined(url);
        ImportKeysGrow(websites[url := NewWebsite(url)], stats[url := DefaultStats()], created + 1, items[1..]);
      }
    }
  }

  /**
   * A raise part-way returns 0 even though websites were already created:
   * when entry `j` is the first that raises, the import fails and every URL
   * listed before it is stored.
   */
  lemma {:induction false} PartialImportReturnsZero(websites: map<string, Website>, stats: map<string, StatsRow>,
                                                    created: nat, items: seq<JsonUrl>, j: nat)
    requires j < |items| && Bad(items[j])
    requires forall k :: 0 <= k < j ==> !Bad(items[k])
    ensures var run := ImportAll(websites, stats, created, items);
      && run.failed && ReturnedCount(run) == 0
      && forall k :: 0 <= k < j ==> items[k].Text? && items[k].s in run.websites
    decreases j
  {
    if j > 0 {
      var url := items[0].s;
      var w' := if url in websites then websites else websites[url := NewWebsite(url)];
      var s' := if url in websites then stats else stats[url := DefaultStats()];
      var c' := if url in websites then created else created + 1;
      var rest := items[1..];
      forall k | 0 <= k < j - 1 ensures !Bad(rest[k]) {
        assert rest[k] == items[k + 1];
      }
      assert rest[j - 1] == items[j];
      PartialImportReturnsZero(w', s', c', rest, j - 1);
      ImportKeysGrow(w', s', c', rest);
      forall k | 0 <= k < j ensures items[k].Text? && items[k].s in ImportAll(websites, stats, created, items).websites {
        if k > 0 {
          assert items[k] == rest[k - 1];
        }
      }
    }
  }

  /** Scenario: the same URL twice creates one website, named after its last segment, with a fresh row. */
  lemma ScenarioDuplicateUrl(websites: map<string, Website>, stats: map<string, StatsRow>)
    requires "http://x" !in websites
    ensures var run := ImportAll(websites, stats, 0, [Text("http://x"), Text("http://x")]);
      && ReturnedCount(run) == 1
      && run.websites["http://x"] == Website("http://x", "x", true)
      && run.stats["http://x"] == DefaultStats()
  {
    DisplayNameDefined("http://x");
    DisplayNameLastSegment("http://x");
    var n := DisplayName("http://x").value;
    assert "http://x"[7] == 'x' && "http://x"[6] == '/';
  }
}
