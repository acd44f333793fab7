/** The flat command-line front end `cli.py`: the `WxH` argument parser, the
    headless flag, the record `scrape_single_term` returns for one search
    term, the sequential loop over the terms and the summary totals. What
    the scraper and the downloads do for a term is given as that term's
    outcome. */
module Cli {
  import opened Wrappers
  import opened Text
  import opened Lists
  import Validation
  import Scraper
  import FlatScraper
  import Helpers

  // ---------------------------------------------------------------------
  // parse_resolution

  /** `parse_resolution`: split on `x`, unpack exactly two parts, `int` each;
      any failure is an `ArgumentTypeError` with this message. */
  function ParseResolution(resolutionStr: string): (r: Result<(int, int), string>)
    ensures r.Err? ==> r.error == "Invalid resolution format: " + resolutionStr + ". Use format: WIDTHxHEIGHT"
  {
    match Validation.ParseResolutionText(resolutionStr)
    case Some(p) => Ok(p)
    case None => Err("Invalid resolution format: " + resolutionStr + ". Use format: WIDTHxHEIGHT")
  }

  /** Accepted exactly when the text is two integers joined by the only `x`. */
  lemma ParseResolutionSpec(s: string, w: int, h: int)
    ensures ParseResolution(s) == Ok((w, h)) <==>
      (exists a, b :: s == a + ['x'] + b && 'x' !in a && 'x' !in b && ParseInt(a) == Some(w) && ParseInt(b) == Some(h))
  {
    if ParseResolution(s) == Ok((w, h)) {
      var parts := ParseResolutionParts(s, w, h);
      assert s == parts[0] + ['x'] + parts[1];
    }
    if exists a, b :: s == a + ['x'] + b && 'x' !in a && 'x' !in b && ParseInt(a) == Some(w) && ParseInt(b) == Some(h) {
      var a, b :| s == a + ['x'] + b && 'x' !in a && 'x' !in b && ParseInt(a) == Some(w) && ParseInt(b) == Some(h);
      ParseResolutionOfParts(a, b, w, h);
    }
  }

  lemma ParseResolutionParts(s: string, w: int, h: int) returns (parts: seq<string>)
    requires ParseResolution(s) == Ok((w, h))
    ensures |parts| == 2 && s == parts[0] + ['x'] + parts[1] && 'x' !in parts[0] && 'x' !in parts[1]
    ensures ParseInt(parts[0]) == Some(w) && ParseInt(parts[1]) == Some(h)
  {
    parts := Split(s, 'x');
    SplitInTwo(s, 'x');
  }

  lemma ParseResolutionOfParts(a: string, b: string, w: int, h: int)
    requires 'x' !in a && 'x' !in b && ParseInt(a) == Some(w) && ParseInt(b) == Some(h)
    ensures ParseResolution(a + ['x'] + b) == Ok((w, h))
  {
    SplitJoin(a, 'x', b);
  }

  /** An accepted text holds exactly one `x`. */
  lemma ParseResolutionOneX(s: string)
    requires ParseResolution(s).Ok?
    ensures multiset(s)['x'] == 1
  {
    SplitInTwo(s, 'x');
  }

  /** A part of more than `MaxStrDigits` digits is refused with the usual
      message. */
  lemma ParseResolutionTooManyDigits(a: string, b: string)
    requires AllDigits(a) && |a| > MaxStrDigits && 'x' !in b
    ensures ParseResolution(a + ['x'] + b) ==
      Err("Invalid resolution format: " + (a + ['x'] + b) + ". Use format: WIDTHxHEIGHT")
  {
    Validation.ResolutionTextTooManyDigits(a, b);
  }

  /** A separator character (U+001C to U+001F) anywhere in the text is
      refused with the format message: `"800x600\x1f"` is not a size. */
  lemma ParseResolutionSeparator(s: string, k: nat)
    requires k < |s| && 0x1c <= s[k] as int <= 0x1f
    ensures ParseResolution(s) == Err("Invalid resolution format: " + s + ". Use format: WIDTHxHEIGHT")
  {
    Validation.ResolutionTextSeparator(s, k);
  }

  /** Printing a size as `WxH` and parsing it gives the size back, for sizes
      of at most `MaxStrDigits` digits. */
  lemma ParseResolutionRoundTrip(w: nat, h: nat)
    requires |NatToString(w)| <= MaxStrDigits && |NatToString(h)| <= MaxStrDigits
    ensures ParseResolution(NatToString(w) + "x" + NatToString(h)) == Ok((w, h))
  {
    Validation.ParseResolutionTextOf(w, h);
  }

  // ---------------------------------------------------------------------
  // The headless flag

  /** `not args.show_browser if args.show_browser else True`: headless exactly
      when `--show-browser` is absent, whatever `--headless` says. */
  function Headless(showBrowser: bool, headlessFlag: bool): (headless: bool)
    ensures headless <==> !showBrowser
  {
    if showBrowser then !showBrowser else true
  }

  // ---------------------------------------------------------------------
  // scrape_single_term

  /** The dict `scrape_single_term` returns; `error` is present only on the
      exception path. */
  datatype TermResult = TermResult(searchTerm: string, urlsFound: int, imagesDownloaded: int,
                                   failedDownloads: int, success: bool, error: Option<string>)

  /** The record of the `except Exception` branch. */
  function ErrorRecord(searchTerm: string, message: string): TermResult {
    TermResult(searchTerm, 0, 0, 0, false, Some(message))
  }

  /** What `await save_images(...)` gave back: `None` (the flat `save_images`
      has no `return`), or a pair of counts. */
  datatype SaveReturn = ReturnedNone | ReturnedCounts(downloaded: int, failed: int)

  /** The `TypeError` text of `downloaded, failed = None`. */
  const UnpackNoneMessage := "cannot unpack non-iterable NoneType object"

  /** One term: `found` is what `find_image_urls` returned or the message it
      raised, `saved` what `save_images` returned or the message it raised. */
  function ScrapeSingleTerm(searchTerm: string, found: Result<seq<string>, string>, dryRun: bool,
                            saved: Result<SaveReturn, string>): (r: TermResult)
    ensures r.searchTerm == searchTerm
    ensures r.success <==> found.Ok? && (dryRun || found.value == [] || (saved.Ok? && saved.value.ReturnedCounts?))
    ensures r.success ==> r.urlsFound == |found.value| && r.error.None?
    ensures r.success && (dryRun || found.value == []) ==> r.imagesDownloaded == 0 && r.failedDownloads == 0
    ensures !r.success ==> r.urlsFound == 0 && r.imagesDownloaded == 0 && r.failedDownloads == 0 && r.error.Some?
    ensures found.Err? ==> r == ErrorRecord(searchTerm, found.error)
    ensures found.Ok? && !dryRun && found.value != [] && saved.Err? ==> r == ErrorRecord(searchTerm, saved.error)
    ensures found.Ok? && !dryRun && found.value != [] && saved == Ok(ReturnedNone) ==>
      r == ErrorRecord(searchTerm, UnpackNoneMessage)
    ensures found.Ok? && !dryRun && found.value != [] && saved.Ok? && saved.value.ReturnedCounts? ==>
      r.imagesDownloaded == saved.value.downloaded && r.failedDownloads == saved.value.failed
  {
    match found
    case Err(e) => ErrorRecord(searchTerm, e)
    case Ok(imageUrls) =>
      var result := TermResult(searchTerm, |imageUrls|, 0, 0, true, None);
      if dryRun || imageUrls == [] then result
      else
        match saved
        case Err(e) => ErrorRecord(searchTerm, e)
        case Ok(ReturnedNone) => ErrorRecord(searchTerm, UnpackNoneMessage)
        case Ok(ReturnedCounts(downloaded, failed)) => result.(imagesDownloaded := downloaded, failedDownloads := failed)
  }

  /** A dry run reports the URL count, no downloads, and success. */
  lemma DryRunRecord(searchTerm: string, imageUrls: seq<string>, saved: Result<SaveReturn, string>)
    ensures ScrapeSingleTerm(searchTerm, Ok(imageUrls), true, saved) == TermResult(searchTerm, |imageUrls|, 0, 0, true, None)
  {
  }

  /** As written, every real run that found a URL ends in the error record:
      the flat `save_images` returns `None` and unpacking it raises, after the
      images were already written. */
  lemma FlatRunAlwaysFails(searchTerm: string, imageUrls: seq<string>)
    requires imageUrls != []
    ensures ScrapeSingleTerm(searchTerm, Ok(imageUrls), false, Ok(ReturnedNone)) == ErrorRecord(searchTerm, UnpackNoneMessage)
  {
  }

  /** The counts a `save_images` that reports its work would return for a
      term: the files written under the cleaned term, and the URLs that wrote
      none. */
  function CountedSave(searchTerm: string, fetches: seq<Scraper.Fetch>, saveFormat: Option<string>,
                       minRes: (int, int), maxRes: (int, int)): Result<SaveReturn, string>
  {
    var downloaded := |WrittenFiles(searchTerm, fetches, saveFormat, minRes, maxRes)|;
    Ok(ReturnedCounts(downloaded, |fetches| - downloaded))
  }

  /** The files the flat `save_images` writes for a term, prefixed with
      `clean_search_key(search_term)`. */
  function WrittenFiles(searchTerm: string, fetches: seq<Scraper.Fetch>, saveFormat: Option<string>,
                        minRes: (int, int), maxRes: (int, int)): seq<string>
  {
    FlatScraper.FlatSavedNames(fetches, Helpers.CleanSearchKey(searchTerm), saveFormat, minRes, maxRes)
  }

  /** As written, the record of a real run says nothing was downloaded even
      when the save loop wrote files. */
  lemma FlatRunHidesWrittenFiles(searchTerm: string, imageUrls: seq<string>, fetches: seq<Scraper.Fetch>,
                                 saveFormat: Option<string>, minRes: (int, int), maxRes: (int, int))
    requires imageUrls != [] && |fetches| == |imageUrls|
    ensures ScrapeSingleTerm(searchTerm, Ok(imageUrls), false, Ok(ReturnedNone)).imagesDownloaded == 0
    ensures !ScrapeSingleTerm(searchTerm, Ok(imageUrls), false, Ok(ReturnedNone)).success
  {
    FlatRunAlwaysFails(searchTerm, imageUrls);
  }

  /** With counts returned, a real run succeeds and accounts for every URL:
      downloaded plus failed is the number found, and downloaded is the
      number of files written. */
  lemma CountedRunRecord(searchTerm: string, imageUrls: seq<string>, fetches: seq<Scraper.Fetch>,
                         saveFormat: Option<string>, minRes: (int, int), maxRes: (int, int))
    requires imageUrls != [] && |fetches| == |imageUrls|
    ensures var r := ScrapeSingleTerm(searchTerm, Ok(imageUrls), false, CountedSave(searchTerm, fetches, saveFormat, minRes, maxRes));
      r.success && r.urlsFound == |imageUrls| &&
      r.imagesDownloaded == |WrittenFiles(searchTerm, fetches, saveFormat, minRes, maxRes)| &&
      r.failedDownloads >= 0 && r.imagesDownloaded + r.failedDownloads == r.urlsFound
  {
    FlatScraper.FlatSavedNamesIndexed(fetches, Helpers.CleanSearchKey(searchTerm), saveFormat, minRes, maxRes);
  }

  // ---------------------------------------------------------------------
  // main: the loop over the terms and the summary

  /** What the scraper and the downloads did for one term. */
  datatype TermOutcome = TermOutcome(found: Result<seq<string>, string>, saved: Result<SaveReturn, string>)

  /** The loop of `main`: the terms one after another, one record each, in
      argument order. */
  method ScrapeTerms(searchTerms: seq<string>, outcomes: seq<TermOutcome>, dryRun: bool)
    returns (results: seq<TermResult>)
    requires |outcomes| == |searchTerms|
    ensures |results| == |searchTerms|
    ensures forall i :: 0 <= i < |searchTerms| ==>
      results[i] == ScrapeSingleTerm(searchTerms[i], outcomes[i].found, dryRun, outcomes[i].saved)
  {
    results := [];
    for i := 0 to |searchTerms|
      invariant |results| == i
      invariant forall k :: 0 <= k < i ==>
        results[k] == ScrapeSingleTerm(searchTerms[k], outcomes[k].found, dryRun, outcomes[k].saved)
    {
      var result := ScrapeSingleTerm(searchTerms[i], outcomes[i].found, dryRun, outcomes[i].saved);
      results := results + [result];
    }
  }

  /** `sum(f(r) for r in results)`. */
  function SumOf(results: seq<TermResult>, f: TermResult -> int): int {
    if results == [] then 0 else SumOf(results[..|results| - 1], f) + f(results[|results| - 1])
  }

  /** 1 for a successful record, 0 otherwise. */
  function SuccessCount(r: TermResult): int { if r.success then 1 else 0 }

  function UrlsFound(r: TermResult): int { r.urlsFound }
  function ImagesDownloaded(r: TermResult): int { r.imagesDownloaded }
  function FailedDownloads(r: TermResult): int { r.failedDownloads }

  /** The four totals of the summary. */
  datatype Summary = Summary(totalUrls: int, totalDownloaded: int, totalFailed: int, successfulTerms: int)

  function Summarize(results: seq<TermResult>): Summary {
    Summary(SumOf(results, UrlsFound), SumOf(results, ImagesDownloaded),
            SumOf(results, FailedDownloads), SumOf(results, SuccessCount))
  }

  lemma {:induction false} SumOfAppend(a: seq<TermResult>, b: seq<TermResult>, f: TermResult -> int)
    ensures SumOf(a + b, f) == SumOf(a, f) + SumOf(b, f)
    decreases |b|
  {
    if b == [] {
      assert a + b == a;
    } else {
      var last := |b| - 1;
      assert (a + b)[..|a + b| - 1] == a + b[..last];
      SumOfAppend(a, b[..last], f);
    }
  }

  /** A total over records that all contribute nothing is 0. */
  lemma {:induction false} SumOfZero(results: seq<TermResult>, f: TermResult -> int)
    requires forall i :: 0 <= i < |results| ==> f(results[i]) == 0
    ensures SumOf(results, f) == 0
    decreases |results|
  {
    if results != [] {
      SumOfZero(results[..|results| - 1], f);
    }
  }

  /** `successful_terms` counts the successful records, in `[0, #terms]`. */
  lemma {:induction false} SuccessfulTermsCount(results: seq<TermResult>)
    ensures Summarize(results).successfulTerms == |Filter(results, (r: TermResult) => r.success)|
    ensures 0 <= Summarize(results).successfulTerms <= |results|
    decreases |results|
  {
    if results != [] {
      var init := results[..|results| - 1];
      var last := results[|results| - 1];
      SuccessfulTermsCount(init);
      assert results == init + [last];
      FilterConcat(init, [last], (r: TermResult) => r.success);
    }
  }

  /** In a dry run nothing is downloaded or failed, and the successful terms
      are those whose URL search returned. */
  lemma DryRunTotals(searchTerms: seq<string>, outcomes: seq<TermOutcome>, results: seq<TermResult>)
    requires |outcomes| == |searchTerms| == |results|
    requires forall i :: 0 <= i < |searchTerms| ==>
      results[i] == ScrapeSingleTerm(searchTerms[i], outcomes[i].found, true, outcomes[i].saved)
    ensures Summarize(results).totalDownloaded == 0 && Summarize(results).totalFailed == 0
    ensures forall i :: 0 <= i < |results| ==> (results[i].success <==> outcomes[i].found.Ok?)
  {
    SumOfZero(results, ImagesDownloaded);
    SumOfZero(results, FailedDownloads);
  }

  /** As written, a real run never reports a download: every term either
      found no URL or failed at the unpack. */
  lemma FlatRunTotals(searchTerms: seq<string>, outcomes: seq<TermOutcome>, results: seq<TermResult>)
    requires |outcomes| == |searchTerms| == |results|
    requires forall i :: 0 <= i < |searchTerms| ==> outcomes[i].saved == Ok(ReturnedNone)
    requires forall i :: 0 <= i < |searchTerms| ==>
      results[i] == ScrapeSingleTerm(searchTerms[i], outcomes[i].found, false, outcomes[i].saved)
    ensures Summarize(results).totalDownloaded == 0 && Summarize(results).totalFailed == 0
    ensures forall i :: 0 <= i < |results| ==> (results[i].success <==> outcomes[i].found == Ok([]))
  {
    SumOfZero(results, ImagesDownloaded);
    SumOfZero(results, FailedDownloads);
  }
}
