/** The package's command-line front end `src/google_image_scraper/cli/main.py`.
    Its `parse_resolution` and headless expression are the flat front end's
    (module `Cli`); its `scrape_single_term` calls `find_image_urls` on a dry
    run and `scrape` (find, then save with counters) otherwise. */
module CliMain {
  import opened Wrappers
  import opened Text
  import Cli
  import Scraper

  // ---------------------------------------------------------------------
  // parse_resolution (the headless expression is Cli.Headless)

  /** A text without an `x` (one part, such as `"1920"`) is refused. */
  lemma ParseResolutionNoX(s: string)
    requires 'x' !in s
    ensures Cli.ParseResolution(s).Err?
  {
    SplitInTwo(s, 'x');
    assert multiset(s)['x'] == 0;
  }

  /** Two parts of which one is not an integer are refused. */
  lemma ParseResolutionNotNumbers(a: string, b: string)
    requires 'x' !in a && 'x' !in b
    requires ParseInt(a).None? || ParseInt(b).None?
    ensures Cli.ParseResolution(a + ['x'] + b).Err?
  {
    SplitJoin(a, 'x', b);
  }

  /** A text with two `x` (three parts) is refused. */
  lemma ParseResolutionTwoX(s: string)
    requires multiset(s)['x'] >= 2
    ensures Cli.ParseResolution(s).Err?
  {
    SplitInTwo(s, 'x');
  }

  // ---------------------------------------------------------------------
  // scrape_single_term

  /** One term: on a dry run `found` is what `find_image_urls` returned or
      raised; otherwise `scraped` is what `scrape` returned (the URLs and the
      downloaded count) or raised. */
  function ScrapeSingleTerm(searchTerm: string, dryRun: bool, found: Result<seq<string>, string>,
                            scraped: Result<(seq<string>, int), string>): (r: Cli.TermResult)
    ensures r.searchTerm == searchTerm
    ensures r.success <==> (if dryRun then found.Ok? else scraped.Ok?)
    ensures r.success ==> r.error.None?
    ensures r.success && dryRun ==> r.urlsFound == |found.value| && r.imagesDownloaded == 0 && r.failedDownloads == 0
    ensures r.success && !dryRun ==> r.urlsFound == |scraped.value.0| && r.imagesDownloaded == scraped.value.1
    ensures !dryRun ==> r.imagesDownloaded + r.failedDownloads == r.urlsFound
    ensures !r.success ==> r == Cli.ErrorRecord(searchTerm, if dryRun then found.error else scraped.error)
  {
    if dryRun then
      match found
      case Err(e) => Cli.ErrorRecord(searchTerm, e)
      case Ok(imageUrls) => Cli.TermResult(searchTerm, |imageUrls|, 0, 0, true, None)
    else
      match scraped
      case Err(e) => Cli.ErrorRecord(searchTerm, e)
      case Ok((imageUrls, downloadedCount)) =>
        var failedCount := |imageUrls| - downloadedCount;
        Cli.TermResult(searchTerm, |imageUrls|, downloadedCount, failedCount, true, None)
  }

  /** `scrape`: `found` is what `find_image_urls` returned or raised, and
      `makedirsError` what `os.makedirs` raised when `save_images` had to
      create the term's directory; the failures inside the save loop are
      caught there. Either exception is re-raised unchanged; otherwise the
      URLs come back with the number of files written. */
  function Scrape(searchTerm: string, found: Result<seq<string>, string>, makedirsError: Option<string>,
                  fetches: seq<Scraper.Fetch>, saveFormat: string,
                  minRes: (int, int), maxRes: (int, int)): (r: Result<(seq<string>, int), string>)
    ensures r.Ok? <==> found.Ok? && makedirsError.None?
    ensures found.Err? ==> r == Err(found.error)
    ensures found.Ok? && makedirsError.Some? ==> r == Err(makedirsError.value)
    ensures r.Ok? ==> r.value.0 == found.value
    ensures r.Ok? ==> r.value.1 == |Scraper.SavedNames(fetches, searchTerm, saveFormat, minRes, maxRes)|
    ensures r.Ok? ==> 0 <= r.value.1 <= |fetches|
  {
    match found
    case Err(e) => Err(e)
    case Ok(imageUrls) =>
      if makedirsError.Some? then Err(makedirsError.value)
      else
        Scraper.SaveImagesBounds(fetches, searchTerm, saveFormat, minRes, maxRes);
        Ok((imageUrls, |Scraper.SavedNames(fetches, searchTerm, saveFormat, minRes, maxRes)|))
  }

  /** A full run reports the files written as downloaded and the rest as
      failed, never a negative count. */
  lemma FullRunRecord(searchTerm: string, imageUrls: seq<string>, fetches: seq<Scraper.Fetch>, saveFormat: string,
                      minRes: (int, int), maxRes: (int, int))
    requires |fetches| == |imageUrls|
    ensures var r := ScrapeSingleTerm(searchTerm, false, Err(""),
                                      Scrape(searchTerm, Ok(imageUrls), None, fetches, saveFormat, minRes, maxRes));
      r.success && r.urlsFound == |imageUrls| &&
      r.imagesDownloaded == |Scraper.SavedNames(fetches, searchTerm, saveFormat, minRes, maxRes)| &&
      0 <= r.failedDownloads <= r.urlsFound
  {
  }

  /** A failed search or directory creation reaches the record: the term is
      reported as failed with that exception's message. */
  lemma RaisedRunRecord(searchTerm: string, found: Result<seq<string>, string>, makedirsError: Option<string>,
                        fetches: seq<Scraper.Fetch>, saveFormat: string, minRes: (int, int), maxRes: (int, int))
    requires found.Err? || makedirsError.Some?
    ensures ScrapeSingleTerm(searchTerm, false, found,
                             Scrape(searchTerm, found, makedirsError, fetches, saveFormat, minRes, maxRes)) ==
      Cli.ErrorRecord(searchTerm, if found.Err? then found.error else makedirsError.value)
  {
  }

  // ---------------------------------------------------------------------
  // main: the loop over the terms and the summary

  /** What the scraper did for one term. */
  datatype TermOutcome = TermOutcome(found: Result<seq<string>, string>, scraped: Result<(seq<string>, int), string>)

  /** The loop of `main`: one record per term, in argument order. */
  method ScrapeTerms(searchTerms: seq<string>, outcomes: seq<TermOutcome>, dryRun: bool)
    returns (results: seq<Cli.TermResult>)
    requires |outcomes| == |searchTerms|
    ensures |results| == |searchTerms|
    ensures forall i :: 0 <= i < |searchTerms| ==>
      results[i] == ScrapeSingleTerm(searchTerms[i], dryRun, outcomes[i].found, outcomes[i].scraped)
  {
    results := [];
    for i := 0 to |searchTerms|
      invariant |results| == i
      invariant forall k :: 0 <= k < i ==>
        results[k] == ScrapeSingleTerm(searchTerms[k], dryRun, outcomes[k].found, outcomes[k].scraped)
    {
      var result := ScrapeSingleTerm(searchTerms[i], dryRun, outcomes[i].found, outcomes[i].scraped);
      results := results + [result];
    }
  }

  /** Totals of records each of whose downloaded and failed counts add up to
      its URL count add up the same way. */
  lemma {:induction false} SumsBalance(results: seq<Cli.TermResult>)
    requires forall i :: 0 <= i < |results| ==>
      results[i].imagesDownloaded + results[i].failedDownloads == results[i].urlsFound
    ensures Cli.Summarize(results).totalDownloaded + Cli.Summarize(results).totalFailed == Cli.Summarize(results).totalUrls
    decreases |results|
  {
    if results != [] {
      SumsBalance(results[..|results| - 1]);
    }
  }

  /** In a full run the failed total is the URL total less the downloaded
      total; in a dry run both are 0. */
  lemma RunTotals(searchTerms: seq<string>, outcomes: seq<TermOutcome>, dryRun: bool, results: seq<Cli.TermResult>)
    requires |outcomes| == |searchTerms| == |results|
    requires forall i :: 0 <= i < |searchTerms| ==>
      results[i] == ScrapeSingleTerm(searchTerms[i], dryRun, outcomes[i].found, outcomes[i].scraped)
    ensures !dryRun ==> Cli.Summarize(results).totalFailed == Cli.Summarize(results).totalUrls - Cli.Summarize(results).totalDownloaded
    ensures dryRun ==> Cli.Summarize(results).totalDownloaded == 0 && Cli.Summarize(results).totalFailed == 0
    ensures 0 <= Cli.Summarize(results).successfulTerms <= |searchTerms|
  {
    Cli.SuccessfulTermsCount(results);
    if !dryRun {
      SumsBalance(results);
    } else {
      Cli.SumOfZero(results, Cli.ImagesDownloaded);
      Cli.SumOfZero(results, Cli.FailedDownloads);
    }
  }
}
