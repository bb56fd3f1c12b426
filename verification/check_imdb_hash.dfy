/**
  check-imdb-hash.py: the search, list and watchlist pages are scanned in that
  order, each with its own fourth filter term, and each page's token is
  written to that page's file only when one was extracted. A shape mismatch
  raises out of `scan_for_hash` and ends the script, so the pages after it are
  never scanned.
 */
module CheckImdbHash {
  import opened Wrappers
  import opened PercentDecoding
  import opened HashPattern
  import opened Extractor
  import opened OutputFiles

  const DefaultKeyword: string := "Shrek"

  /** The keyword option, falling back to the default when it is absent or empty. */
  function EffectiveKeyword(arg: Option<string>): (k: string)
    ensures |k| > 0
    ensures arg.Some? && |arg.value| > 0 ==> k == arg.value
    ensures !(arg.Some? && |arg.value| > 0) ==> k == DefaultKeyword
  {
    if arg.Some? && |arg.value| > 0 then arg.value else DefaultKeyword
  }

  /** One call of `scan_for_hash`: the name used in log lines, the fourth filter term, the output file. */
  datatype Page = Page(hashType: string, term: string, filename: string)

  function SearchPage(keyword: string): Page { Page("Search", keyword, "HASH") }
  const ListPage: Page := Page("List", "operationName=TitleListMainPage", "LIST_HASH")
  const WatchlistPage: Page := Page("Watchlist", "operationName=WatchListPageRefiner", "WATCHLIST_HASH")

  /** The closing log line of one page: the extracted hash, or the failure notice. */
  datatype Report = Extracted(hashType: string, token: string) | FailedToRetrieve(hashType: string)

  /** State threaded through the script: files, closing log lines so far, and whether an exception escaped. */
  datatype Run = Run(files: Files, reports: seq<Report>, crashed: bool)

  /**
    The end of `scan_for_hash` once the scan has an outcome. `sha256hash`
    starts as `None` and is set only by a successful extraction. A shape
    mismatch has already raised. The file is written when `sha256hash` is
    truthy, and the failure line is logged otherwise. After an earlier
    exception the call never happens.
   */
  function Conclude(run: Run, page: Page, outcome: Outcome): (r: Run)
    ensures run.crashed ==> r == run
    ensures !run.crashed ==> (r.crashed <==> outcome.ShapeMismatch?)
    ensures forall name :: name != page.filename ==> Lookup(r.files, name) == Lookup(run.files, name)
    ensures Lookup(r.files, page.filename) != Lookup(run.files, page.filename) ==>
              !run.crashed && outcome.Found? && |outcome.token| > 0
    ensures !run.crashed && outcome.Found? && |outcome.token| > 0 ==>
              Lookup(r.files, page.filename) == Some(outcome.token)
    ensures !r.crashed && outcome.Found? && |outcome.token| > 0 ==>
              r.reports == run.reports + [Extracted(page.hashType, outcome.token)]
    ensures !r.crashed && !(outcome.Found? && |outcome.token| > 0) ==>
              r.reports == run.reports + [FailedToRetrieve(page.hashType)]
    ensures r.crashed ==> r.reports == run.reports
  {
    if run.crashed then run
    else if outcome.ShapeMismatch? then Run(run.files, run.reports, true)
    else
      var sha256hash := if outcome.Found? then Some(outcome.token) else None;
      if sha256hash.Some? && |sha256hash.value| > 0 then
        Run(run.files[page.filename := sha256hash.value], run.reports + [Extracted(page.hashType, sha256hash.value)], false)
      else
        Run(run.files, run.reports + [FailedToRetrieve(page.hashType)], false)
  }

  /** The closing log line of a page whose scan did not raise: the hash when one was extracted, the failure notice otherwise. */
  function ReportOf(page: Page, outcome: Outcome): (r: Report)
    ensures r.hashType == page.hashType
    ensures r.Extracted? <==> outcome.Found? && |outcome.token| > 0
    ensures r.Extracted? ==> r.token == outcome.token
  {
    if outcome.Found? && |outcome.token| > 0 then Extracted(page.hashType, outcome.token)
    else FailedToRetrieve(page.hashType)
  }

  /** One `scan_for_hash` call: the shared scan with the page's term, then its conclusion. */
  function ScanPage(run: Run, page: Page, reqs: seq<string>): (r: Run)
    ensures run.crashed ==> r == run
    ensures !run.crashed && (forall j :: 0 <= j < |reqs| ==> !Accepted(reqs[j], page.term)) ==>
              r == Run(run.files, run.reports + [FailedToRetrieve(page.hashType)], false)
    ensures forall name :: name != page.filename ==> Lookup(r.files, name) == Lookup(run.files, name)
    ensures Lookup(r.files, page.filename) != Lookup(run.files, page.filename) ==>
              page.filename in r.files &&
              exists i :: IsFirstAccepted(reqs, page.term, i) && IsGroup(Decode(reqs[i]), r.files[page.filename])
  {
    Conclude(run, page, ScanForHash(reqs, page.term))
  }

  /** The script body from the first scan on: search, list, watchlist. */
  function CheckImdbHash(keywordArg: Option<string>, files: Files,
                         searchReqs: seq<string>, listReqs: seq<string>, watchlistReqs: seq<string>): (r: Run)
    ensures forall name :: name !in {"HASH", "LIST_HASH", "WATCHLIST_HASH"} ==>
              Lookup(r.files, name) == Lookup(files, name)
    ensures |r.reports| <= 3
    ensures !r.crashed ==> |r.reports| == 3
    ensures r.crashed ==> |r.reports| < 3
  {
    var keyword := EffectiveKeyword(keywordArg);
    var afterSearch := ScanPage(Run(files, [], false), SearchPage(keyword), searchReqs);
    var afterList := ScanPage(afterSearch, ListPage, listReqs);
    ScanPageSteps(Run(files, [], false), SearchPage(keyword), searchReqs);
    ScanPageSteps(afterSearch, ListPage, listReqs);
    ScanPageSteps(afterList, WatchlistPage, watchlistReqs);
    ScanPage(afterList, WatchlistPage, watchlistReqs)
  }

  /** A page adds one closing line unless it raises, and changes no file but its own. */
  lemma ScanPageSteps(run: Run, page: Page, reqs: seq<string>)
    ensures var r := ScanPage(run, page, reqs);
            && (!run.crashed && !r.crashed ==> |r.reports| == |run.reports| + 1)
            && (r.crashed ==> |r.reports| == |run.reports|)
            && (run.crashed ==> r.crashed)
            && (forall name :: name != page.filename ==> Lookup(r.files, name) == Lookup(run.files, name))
  {
  }

  /**
    What one run does to the files and the log. Each page's file ends up with
    that page's token when its scan found one and no earlier page raised, and
    keeps its previous content (or absence) otherwise; no other file changes.
    The run ends in an exception exactly when some page had a shape mismatch,
    and when none did, every page gets its closing log line in order.
   */
  lemma RunEffects(keywordArg: Option<string>, files: Files,
                   searchReqs: seq<string>, listReqs: seq<string>, watchlistReqs: seq<string>)
    ensures var r := CheckImdbHash(keywordArg, files, searchReqs, listReqs, watchlistReqs);
            var keyword := EffectiveKeyword(keywordArg);
            var search := ScanForHash(searchReqs, keyword);
            var list := ScanForHash(listReqs, ListPage.term);
            var watchlist := ScanForHash(watchlistReqs, WatchlistPage.term);
            && (r.crashed <==> search.ShapeMismatch? || list.ShapeMismatch? || watchlist.ShapeMismatch?)
            && Lookup(r.files, "HASH") == (if search.Found? then Some(search.token) else Lookup(files, "HASH"))
            && Lookup(r.files, "LIST_HASH") ==
                 (if !search.ShapeMismatch? && list.Found? then Some(list.token) else Lookup(files, "LIST_HASH"))
            && Lookup(r.files, "WATCHLIST_HASH") ==
                 (if !search.ShapeMismatch? && !list.ShapeMismatch? && watchlist.Found?
                  then Some(watchlist.token) else Lookup(files, "WATCHLIST_HASH"))
            && (forall name :: name !in {"HASH", "LIST_HASH", "WATCHLIST_HASH"} ==>
                  Lookup(r.files, name) == Lookup(files, name))
            && (!r.crashed ==> r.reports == [ReportOf(SearchPage(keyword), search),
                                             ReportOf(ListPage, list),
                                             ReportOf(WatchlistPage, watchlist)])
  {
    var keyword := EffectiveKeyword(keywordArg);
    var search := ScanForHash(searchReqs, keyword);
    var list := ScanForHash(listReqs, ListPage.term);
    var watchlist := ScanForHash(watchlistReqs, WatchlistPage.term);
    ConcludeThreePages(files, keyword, search, list, watchlist);
  }

  /** The three conclusions in a row, for any outcomes whose found tokens are non-empty. */
  lemma ConcludeThreePages(files: Files, keyword: string, search: Outcome, list: Outcome, watchlist: Outcome)
    requires search.Found? ==> |search.token| > 0
    requires list.Found? ==> |list.token| > 0
    requires watchlist.Found? ==> |watchlist.token| > 0
    ensures var r := Conclude(Conclude(Conclude(Run(files, [], false), SearchPage(keyword), search),
                                       ListPage, list), WatchlistPage, watchlist);
            && (r.crashed <==> search.ShapeMismatch? || list.ShapeMismatch? || watchlist.ShapeMismatch?)
            && Lookup(r.files, "HASH") == (if search.Found? then Some(search.token) else Lookup(files, "HASH"))
            && Lookup(r.files, "LIST_HASH") ==
                 (if !search.ShapeMismatch? && list.Found? then Some(list.token) else Lookup(files, "LIST_HASH"))
            && Lookup(r.files, "WATCHLIST_HASH") ==
                 (if !search.ShapeMismatch? && !list.ShapeMismatch? && watchlist.Found?
                  then Some(watchlist.token) else Lookup(files, "WATCHLIST_HASH"))
            && (forall name :: name !in {"HASH", "LIST_HASH", "WATCHLIST_HASH"} ==>
                  Lookup(r.files, name) == Lookup(files, name))
            && (!r.crashed ==> r.reports == [ReportOf(SearchPage(keyword), search),
                                             ReportOf(ListPage, list),
                                             ReportOf(WatchlistPage, watchlist)])
  {
  }

  /**
    A mixed run: search and watchlist yield tokens, the list page finds no
    accepted request. Both tokens are written, the list file keeps whatever
    it held before, and each page closes with its own log line.
   */
  lemma MixedRunScenario(keywordArg: Option<string>, files: Files,
                         searchReqs: seq<string>, listReqs: seq<string>, watchlistReqs: seq<string>)
    requires ScanForHash(searchReqs, EffectiveKeyword(keywordArg)) == Found("aaa111")
    requires ScanForHash(listReqs, ListPage.term) == NotFound
    requires ScanForHash(watchlistReqs, WatchlistPage.term) == Found("bbb222")
    ensures var r := CheckImdbHash(keywordArg, files, searchReqs, listReqs, watchlistReqs);
            && !r.crashed
            && Lookup(r.files, "HASH") == Some("aaa111")
            && Lookup(r.files, "LIST_HASH") == Lookup(files, "LIST_HASH")
            && Lookup(r.files, "WATCHLIST_HASH") == Some("bbb222")
            && r.reports == [Extracted("Search", "aaa111"), FailedToRetrieve("List"), Extracted("Watchlist", "bbb222")]
  {
    RunEffects(keywordArg, files, searchReqs, listReqs, watchlistReqs);
  }
}
