/** The `GoogleImageScraper` class of `core/scraper.py`: the search URL, the
    URL pipeline of `find_image_urls` (text scan, click fallback, merge,
    truncation, decoding) and the download loop of `save_images`. The
    browser and the network are replaced by their outcomes: the page the
    text scan reads, one outcome per clickable container, and one fetch
    result per URL. */
module Scraper {
  import opened Wrappers
  import opened Text
  import opened Lists
  import opened UrlCodec
  import opened UrlParse
  import opened Helpers
  import opened TextScan
  import opened Clicking
  import opened Config

  // ---------------------------------------------------------------------
  // The search URL

  const SearchPrefix: string := "https://www.google.com/search?q="
  /** The parameters after `q`, each introduced by `&`. */
  const SearchParams: string :=
    "source=lnms&tbm=isch&sa=X&ved=2ahUKEwie44_AnqLpAhUhBWMBHUFGD90Q_AUoAXoECBUQAw&biw=1920&bih=947"
  const SearchSuffix: string := "&" + SearchParams

  /** `_generate_search_url` (and `google_images_url` of the flat script):
      the percent-encoded key as the `q` parameter. */
  function GenerateSearchUrl(searchKey: string): (url: string)
    ensures StartsWith(url, SearchPrefix)
  {
    SearchPrefix + Quote(searchKey) + SearchSuffix
  }

  /** The value of `q`: what follows the prefix, up to the first `&`. */
  function QueryValue(url: string): string
    requires StartsWith(url, SearchPrefix)
  {
    SplitOff(url[|SearchPrefix|..], '&').0
  }

  /** The key is recovered from the URL by reading `q` and unquoting it. */
  lemma SearchUrlRoundTrip(searchKey: string)
    ensures QueryValue(GenerateSearchUrl(searchKey)) == Quote(searchKey)
    ensures Unquote(QueryValue(GenerateSearchUrl(searchKey))) == searchKey
  {
    var q := Quote(searchKey);
    var url := GenerateSearchUrl(searchKey);
    assert url[|SearchPrefix|..] == q + SearchSuffix;
    QuoteAlphabet(searchKey);
    assert '&' !in q;
    SuffixStartsWithAmpersand(SearchSuffix);
    SplitOffFirst(q, SearchSuffix);
    UnquoteQuote(searchKey);
  }

  lemma SplitOffFirst(q: string, suffix: string)
    requires '&' !in q && suffix != [] && suffix[0] == '&'
    ensures SplitOff(q + suffix, '&').0 == q
  {
    var u := q + suffix;
    assert u[|q|] == '&';
    assert forall j :: 0 <= j < |q| ==> u[j] == q[j];
    var i := IndexOf(u, '&');
    if i < |q| {
      assert false;
    }
    assert u[..|q|] == q;
  }

  lemma SuffixStartsWithAmpersand(suffix: string)
    requires suffix == SearchSuffix
    ensures suffix != [] && suffix[0] == '&'
  {
  }

  /** Different keys give different search URLs. */
  lemma SearchUrlInjective(a: string, b: string)
    requires GenerateSearchUrl(a) == GenerateSearchUrl(b)
    ensures a == b
  {
    SearchUrlRoundTrip(a);
    SearchUrlRoundTrip(b);
  }

  // ---------------------------------------------------------------------
  // find_image_urls

  /** The click fallback runs only when the text scan found fewer than
      `number_of_images` URLs; its URLs are appended and duplicates removed. */
  function MergedUrls(primary: seq<string>, clicked: seq<string>, numberOfImages: int): seq<string> {
    if |primary| < numberOfImages then Dedup(primary + clicked) else primary
  }

  /** What `find_image_urls` returns for this page and these container
      outcomes: the first `number_of_images` merged URLs, each decoded. */
  function FoundUrls(page: Page, containers: seq<ContainerOutcome>, numberOfImages: int): seq<string> {
    var merged := MergedUrls(Extracted(page), ClickedUrls(containers, numberOfImages), numberOfImages);
    var imageUrls := SliceTo(merged, numberOfImages);
    seq(|imageUrls|, i requires 0 <= i < |imageUrls| => DecodeUrl(imageUrls[i]))
  }

  /** The body of `find_image_urls` once the page is loaded. */
  method FindImageUrls(config: ScrapingConfig, page: Page, containers: seq<ContainerOutcome>)
    returns (cleanedImageUrls: seq<string>)
    ensures cleanedImageUrls == FoundUrls(page, containers, config.numberOfImages)
  {
    var fullResUrls := ExtractUrlsFromPageData(page);
    if |fullResUrls| < config.numberOfImages {
      var clickedUrls := ExtractUrlsByClicking(containers, config.numberOfImages);
      fullResUrls := Dedup(fullResUrls + clickedUrls);
    }
    var imageUrls := SliceTo(fullResUrls, config.numberOfImages);
    cleanedImageUrls := seq(|imageUrls|, i requires 0 <= i < |imageUrls| => DecodeUrl(imageUrls[i]));
  }

  /** Merging keeps every primary URL first, in order, and then adds the
      clicked URLs not seen before, each at its first occurrence. */
  lemma MergedKeepsPrimaryFirst(primary: seq<string>, clicked: seq<string>, n: int)
    requires NoDup(primary) && |primary| < n
    ensures MergedUrls(primary, clicked, n) == primary + DedupFrom(clicked, set u | u in primary)
  {
    DedupAfterPrefix(primary, clicked, {});
    assert {} + (set u | u in primary) == set u | u in primary;
  }

  /** The merged list has no duplicates and holds exactly the URLs found by
      either method (the clicked ones only when the fallback ran). */
  lemma MergedMembers(primary: seq<string>, clicked: seq<string>, n: int, u: string)
    requires NoDup(primary)
    ensures NoDup(MergedUrls(primary, clicked, n))
    ensures u in MergedUrls(primary, clicked, n) <==> u in primary || (|primary| < n && u in clicked)
  {
    if |primary| < n {
      DedupNoDup(primary + clicked);
      DedupMembers(primary + clicked, u);
    }
  }

  /** The result has at most `number_of_images` entries, and entry `i` is the
      decoding of merged URL `i`. */
  lemma FoundUrlsShape(page: Page, containers: seq<ContainerOutcome>, n: int)
    ensures var merged := MergedUrls(Extracted(page), ClickedUrls(containers, n), n);
      var r := FoundUrls(page, containers, n);
      (n >= 0 ==> |r| <= n) && |r| <= |merged| &&
      forall i :: 0 <= i < |r| ==> r[i] == DecodeUrl(merged[i])
  {
  }

  /** When the text scan already found enough, the containers do not matter. */
  lemma FoundUrlsWithoutClicking(page: Page, c1: seq<ContainerOutcome>, c2: seq<ContainerOutcome>, n: int)
    requires |Extracted(page)| >= n
    ensures FoundUrls(page, c1, n) == FoundUrls(page, c2, n)
  {
  }

  /** Duplicates are removed before decoding, so the returned list can repeat
      a URL: `a%20b` and `a b` are different but decode alike. */
  lemma DecodedMayRepeat(a: string, b: string)
    requires AsciiPlain(a) && AsciiPlain(b)
    ensures var raw := [a + "%20" + b, a + " " + b];
      NoDup(raw) && DecodeUrl(raw[0]) == DecodeUrl(raw[1])
  {
    var u1 := a + "%20" + b;
    var u2 := a + " " + b;
    assert u1[|a|] == '%' && u2[|a|] == ' ';
    DecodeUrlSpace(a, b);
    assert AsciiPlain(u2) by {
      SpacedIsPlain(a, b);
    }
    DecodeUrlIdentity(u2);
  }

  lemma SpacedIsPlain(a: string, b: string)
    requires AsciiPlain(a) && AsciiPlain(b)
    ensures AsciiPlain(a + " " + b)
  {
    var u := a + " " + b;
    forall i | 0 <= i < |u| ensures IsAscii(u[i]) && u[i] != '\\' && u[i] != '%' {
      if i < |a| { assert u[i] == a[i]; }
      else if i > |a| { assert u[i] == b[i - |a| - 1]; }
    }
  }

  /** `_save_urls_to_json` decodes the already decoded URLs once more. */
  function JsonImageUrls(cleanedUrls: seq<string>): (r: seq<string>)
    ensures |r| == |cleanedUrls|
    ensures forall i :: 0 <= i < |r| ==> r[i] == DecodeUrl(cleanedUrls[i])
  {
    seq(|cleanedUrls|, i requires 0 <= i < |cleanedUrls| => DecodeUrl(cleanedUrls[i]))
  }

  /** So the JSON file need not hold the returned list: the raw URL `%2541` is
      returned as `%41` but written as `A`. */
  lemma JsonMayDifferFromReturned(raw: string)
    requires raw == "%2541"
    ensures JsonImageUrls([DecodeUrl(raw)]) != [DecodeUrl(raw)]
  {
    DecodeUrlNotIdempotent(raw);
    assert JsonImageUrls([DecodeUrl(raw)])[0] == "A";
  }

  // ---------------------------------------------------------------------
  // Downloads and save_images

  /** What PIL made of a downloaded body: not an image, or an image with its
      size, its format (`image.format`, possibly `None`) and whether writing
      it to disk succeeded. */
  datatype ImageData = Undecodable | Picture(width: int, height: int, format: Option<string>, saveOk: bool)

  /** What `client.get(url)` did: timed out, raised another error, or answered. */
  datatype Fetch = TimedOut | RequestFailed | Responded(status: int, body: ImageData)

  /** `_download_image` (and `download_image` of the flat script): the response
      exactly when the status is 200, `None` otherwise. */
  function DownloadImage(f: Fetch): (r: Option<ImageData>)
    ensures r.Some? <==> f.Responded? && f.status == 200
    ensures r.Some? ==> r.value == f.body
  {
    if f.Responded? && f.status == 200 then Some(f.body) else None
  }

  /** `_validate_image_resolution`: the configured window, both ends included. */
  predicate ValidateImageResolution(config: ScrapingConfig, width: int, height: int)
    reads config
  {
    ValidateResolution(width, height, config.minResolution, config.maxResolution)
  }

  /** `{search_key}-{index}.{image_save_format}`. */
  function ImageName(key: string, index: nat, format: string): (name: string)
    ensures StartsWith(name, key + "-")
  {
    key + "-" + NatToString(index) + "." + format
  }

  /** Whether index `i` of the loop ends in `downloaded_count += 1`. */
  predicate Saves(f: Fetch, minRes: (int, int), maxRes: (int, int)) {
    match DownloadImage(f)
    case None => false
    case Some(d) => d.Picture? && ValidateResolution(d.width, d.height, minRes, maxRes) && d.saveOk
  }

  /** The files written for the first `|fs|` URLs, in index order. */
  function SavedNames(fs: seq<Fetch>, key: string, format: string, minRes: (int, int), maxRes: (int, int)): seq<string> {
    if fs == [] then []
    else
      var last := |fs| - 1;
      SavedNames(fs[..last], key, format, minRes, maxRes) +
        (if Saves(fs[last], minRes, maxRes) then [ImageName(key, last, format)] else [])
  }

  /** The loop of `save_images`: for each URL, a failed download, an image that
      does not decode, a size outside the window or a failed write counts as
      failed, anything else as downloaded. */
  method SaveImages(config: ScrapingConfig, fetches: seq<Fetch>, searchKey: string)
    returns (downloadedCount: int, failedCount: int, savedNames: seq<string>)
    ensures downloadedCount + failedCount == |fetches|
    ensures downloadedCount == |savedNames|
    ensures savedNames == SavedNames(fetches, searchKey, config.imageSaveFormat, config.minResolution, config.maxResolution)
  {
    downloadedCount, failedCount, savedNames := 0, 0, [];
    var fmt, minRes, maxRes := config.imageSaveFormat, config.minResolution, config.maxResolution;
    for index := 0 to |fetches|
      invariant downloadedCount + failedCount == index
      invariant downloadedCount == |savedNames|
      invariant savedNames == SavedNames(fetches[..index], searchKey, fmt, minRes, maxRes)
    {
      assert fetches[..index + 1][..index] == fetches[..index];
      var imageResp := DownloadImage(fetches[index]);
      if imageResp.None? {
        failedCount := failedCount + 1;
        continue;
      }
      match imageResp.value {
        case Undecodable =>
          failedCount := failedCount + 1;
        case Picture(width, height, _, saveOk) =>
          if !ValidateResolution(width, height, minRes, maxRes) {
            failedCount := failedCount + 1;
          } else if !saveOk {
            failedCount := failedCount + 1;
          } else {
            savedNames := savedNames + [ImageName(searchKey, index, fmt)];
            downloadedCount := downloadedCount + 1;
          }
      }
    }
    assert fetches[..|fetches|] == fetches;
  }

  // ---------------------------------------------------------------------
  // Properties of the save loop

  /** The index can be read back from a file name. */
  lemma ImageNameInjective(key: string, i: nat, j: nat, f1: string, f2: string)
    requires ImageName(key, i, f1) == ImageName(key, j, f2)
    ensures i == j && f1 == f2
  {
    var a, b := NatToString(i), NatToString(j);
    var k := |key| + 1;
    var x, y := ImageName(key, i, f1), ImageName(key, j, f2);
    assert x[k..] == a + "." + f1;
    assert y[k..] == b + "." + f2;
    DigitsThenDot(a, b, f1, f2);
    NatToStringInjective(i, j);
  }

  lemma DigitsThenDot(a: string, b: string, f1: string, f2: string)
    requires AllDigits(a) && AllDigits(b) && a + "." + f1 == b + "." + f2
    ensures a == b && f1 == f2
  {
    var x := a + "." + f1;
    if |a| < |b| {
      DotBeforeDigits(a, b, f1, f2);
      assert false;
    } else if |b| < |a| {
      DotBeforeDigits(b, a, f2, f1);
      assert false;
    }
    assert a == x[..|a|] == b;
    assert f1 == x[|a| + 1..] == f2;
  }

  lemma DotBeforeDigits(a: string, b: string, f1: string, f2: string)
    requires AllDigits(b) && |a| < |b|
    ensures a + "." + f1 != b + "." + f2
  {
    assert (a + "." + f1)[|a|] == '.';
    assert (b + "." + f2)[|a|] == b[|a|];
  }

  /** A name is written exactly for the indices that were saved. */
  lemma {:induction false} SavedNamesExactly(fs: seq<Fetch>, key: string, format: string,
                                             minRes: (int, int), maxRes: (int, int), i: nat)
    requires i < |fs|
    ensures ImageName(key, i, format) in SavedNames(fs, key, format, minRes, maxRes) <==> Saves(fs[i], minRes, maxRes)
    decreases |fs|
  {
    var last := |fs| - 1;
    var init := SavedNames(fs[..last], key, format, minRes, maxRes);
    NamesBelow(fs[..last], key, format, minRes, maxRes);
    if i < last {
      SavedNamesExactly(fs[..last], key, format, minRes, maxRes, i);
      if Saves(fs[last], minRes, maxRes) && ImageName(key, i, format) == ImageName(key, last, format) {
        ImageNameInjective(key, i, last, format, format);
      }
    } else {
      if ImageName(key, i, format) in init {
        var k :| 0 <= k < |init| && init[k] == ImageName(key, i, format);
        var j :| 0 <= j < last && init[k] == ImageName(key, j, format);
        ImageNameInjective(key, i, j, format, format);
      }
    }
  }

  /** Every name written for the first `|fs|` URLs carries an index below `|fs|`;
      the names are distinct. */
  lemma {:induction false} NamesBelow(fs: seq<Fetch>, key: string, format: string, minRes: (int, int), maxRes: (int, int))
    ensures var names := SavedNames(fs, key, format, minRes, maxRes);
      (forall k :: 0 <= k < |names| ==> exists j :: 0 <= j < |fs| && names[k] == ImageName(key, j, format)) &&
      NoDup(names) && |names| <= |fs|
    decreases |fs|
  {
    if fs != [] {
      var last := |fs| - 1;
      var init := SavedNames(fs[..last], key, format, minRes, maxRes);
      NamesBelow(fs[..last], key, format, minRes, maxRes);
      if Saves(fs[last], minRes, maxRes) {
        var names := init + [ImageName(key, last, format)];
        forall k | 0 <= k < |init| ensures init[k] != ImageName(key, last, format) {
          var j :| 0 <= j < last && init[k] == ImageName(key, j, format);
          if init[k] == ImageName(key, last, format) {
            ImageNameInjective(key, j, last, format, format);
          }
        }
        assert forall k :: 0 <= k < |init| ==> names[k] == init[k];
      }
    }
  }

  /** `save_images` never reports more downloads than URLs, and the names it
      writes are pairwise different. */
  lemma SaveImagesBounds(fs: seq<Fetch>, key: string, format: string, minRes: (int, int), maxRes: (int, int))
    ensures |SavedNames(fs, key, format, minRes, maxRes)| <= |fs|
    ensures NoDup(SavedNames(fs, key, format, minRes, maxRes))
  {
    NamesBelow(fs, key, format, minRes, maxRes);
  }
}
