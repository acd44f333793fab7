/** The flat script `GoogleImageScraper.py`: the same URL pipeline as the
    package (its inline text scan and click loop are the package's, and the
    decoding loop is written out), the scroll count, and a `save_images`
    without counters whose `save_image` picks the file extension itself. */
module FlatScraper {
  import opened Wrappers
  import opened Text
  import opened Lists
  import opened Helpers
  import opened TextScan
  import opened Clicking
  import opened Scraper

  /** `max(3, number_of_images // 10 + 1)`; for a positive divisor Python's
      floor division is Dafny's `/`. */
  function ScrollAttempts(numberOfImages: int): (r: int)
    ensures r >= 3 && r >= numberOfImages / 10 + 1
    ensures numberOfImages < 20 ==> r == 3
    ensures numberOfImages >= 20 ==> r == numberOfImages / 10 + 1
  {
    if numberOfImages / 10 + 1 > 3 then numberOfImages / 10 + 1 else 3
  }

  /** The cleaning loop: one entry per URL, in order, each decoded (or the
      original where decoding raises). */
  method CleanUrls(imageUrls: seq<string>) returns (cleanedImageUrls: seq<string>)
    ensures |cleanedImageUrls| == |imageUrls|
    ensures forall i :: 0 <= i < |imageUrls| ==> cleanedImageUrls[i] == DecodeUrl(imageUrls[i])
  {
    cleanedImageUrls := [];
    for i := 0 to |imageUrls|
      invariant |cleanedImageUrls| == i
      invariant forall k :: 0 <= k < i ==> cleanedImageUrls[k] == DecodeUrl(imageUrls[k])
    {
      cleanedImageUrls := cleanedImageUrls + [DecodeUrl(imageUrls[i])];
    }
  }

  /** `find_image_urls` once the page is loaded: it returns what the package
      version returns. */
  method FindImageUrls(page: Page, containers: seq<ContainerOutcome>, numberOfImages: int)
    returns (cleanedImageUrls: seq<string>)
    ensures cleanedImageUrls == FoundUrls(page, containers, numberOfImages)
  {
    var fullResUrls := ExtractUrlsFromPageData(page);
    if |fullResUrls| < numberOfImages {
      var clickedUrls := ExtractUrlsByClicking(containers, numberOfImages);
      fullResUrls := Dedup(fullResUrls + clickedUrls);
    }
    var imageUrls := SliceTo(fullResUrls, numberOfImages);
    cleanedImageUrls := CleanUrls(imageUrls);
  }

  /** `check_if_image_resolution_valid`: the size tuple is never empty, so this
      is the inclusive window test. */
  predicate CheckIfImageResolutionValid(size: (int, int), minRes: (int, int), maxRes: (int, int)) {
    var imageResolution := size;
    imageResolution.0 >= minRes.0 && imageResolution.0 <= maxRes.0 &&
    imageResolution.1 >= minRes.1 && imageResolution.1 <= maxRes.1
  }

  /** It agrees with `validate_resolution` of the helpers. */
  lemma CheckIfImageResolutionValidAgrees(size: (int, int), minRes: (int, int), maxRes: (int, int))
    ensures CheckIfImageResolutionValid(size, minRes, maxRes) == ValidateResolution(size.0, size.1, minRes, maxRes)
  {
  }

  /** The formats `save_image` keeps as given. */
  const KeptFormats: seq<string> := ["jpg", "png", "jpeg"]

  /** The extension `save_image` writes: `save_format` when it is one of
      jpg/png/jpeg, otherwise the image's own format in lower case. */
  function ChooseSaveFormat(saveFormat: Option<string>, originalFormat: string): (r: string)
    ensures saveFormat.Some? && saveFormat.value in KeptFormats ==> r == saveFormat.value
    ensures !(saveFormat.Some? && saveFormat.value in KeptFormats) ==> r == Lower(originalFormat)
  {
    var imageOriginalFormat := Lower(originalFormat);
    if saveFormat.None? || saveFormat.value == [] || saveFormat.value !in KeptFormats then imageOriginalFormat
    else saveFormat.value
  }

  /** The file written for index `i`, if any: the download must answer 200, the
      body decode, the size lie in the window and `image.format` be present
      (`None.lower()` raises); the write itself must succeed. */
  function FlatSavedName(f: Fetch, prefix: string, index: nat, saveFormat: Option<string>,
                         minRes: (int, int), maxRes: (int, int)): (r: seq<string>)
    ensures |r| <= 1
  {
    match DownloadImage(f)
    case None => []
    case Some(d) =>
      if d.Undecodable? then []
      else if !CheckIfImageResolutionValid((d.width, d.height), minRes, maxRes) then []
      else if d.format.None? then []
      else if !d.saveOk then []
      else [ImageName(prefix, index, ChooseSaveFormat(saveFormat, d.format.value))]
  }

  function FlatSavedNames(fs: seq<Fetch>, prefix: string, saveFormat: Option<string>,
                          minRes: (int, int), maxRes: (int, int)): seq<string> {
    if fs == [] then []
    else
      var last := |fs| - 1;
      FlatSavedNames(fs[..last], prefix, saveFormat, minRes, maxRes) +
        FlatSavedName(fs[last], prefix, last, saveFormat, minRes, maxRes)
  }

  /** The loop of the flat `save_images`; it returns nothing, and the files it
      writes are the result here. */
  method SaveImages(fetches: seq<Fetch>, imageSaveFormat: Option<string>, imageFilePrefix: string,
                    minRes: (int, int), maxRes: (int, int))
    returns (savedNames: seq<string>)
    ensures savedNames == FlatSavedNames(fetches, imageFilePrefix, imageSaveFormat, minRes, maxRes)
  {
    savedNames := [];
    for index := 0 to |fetches|
      invariant savedNames == FlatSavedNames(fetches[..index], imageFilePrefix, imageSaveFormat, minRes, maxRes)
    {
      assert fetches[..index + 1][..index] == fetches[..index];
      var imageResp := DownloadImage(fetches[index]);
      if imageResp.None? {
        continue;
      }
      var image := imageResp.value;
      if image.Undecodable? {
        continue;
      }
      if !CheckIfImageResolutionValid((image.width, image.height), minRes, maxRes) {
        continue;
      }
      if image.format.None? {
        continue;
      }
      var imageName := ImageName(imageFilePrefix, index, ChooseSaveFormat(imageSaveFormat, image.format.value));
      if image.saveOk {
        savedNames := savedNames + [imageName];
      }
    }
    assert fetches[..|fetches|] == fetches;
  }

  /** Every written name is `{prefix}-{index}.{format}` for an index of the
      input, and no index is written twice. */
  lemma {:induction false} FlatSavedNamesIndexed(fs: seq<Fetch>, prefix: string, saveFormat: Option<string>,
                                                 minRes: (int, int), maxRes: (int, int))
    ensures var names := FlatSavedNames(fs, prefix, saveFormat, minRes, maxRes);
      |names| <= |fs| && NoDup(names) &&
      forall k :: 0 <= k < |names| ==> exists j, f :: 0 <= j < |fs| && names[k] == ImageName(prefix, j, f)
    decreases |fs|
  {
    if fs != [] {
      var last := |fs| - 1;
      var init := FlatSavedNames(fs[..last], prefix, saveFormat, minRes, maxRes);
      FlatSavedNamesIndexed(fs[..last], prefix, saveFormat, minRes, maxRes);
      var step := FlatSavedName(fs[last], prefix, last, saveFormat, minRes, maxRes);
      if step != [] {
        var fmt :| step[0] == ImageName(prefix, last, fmt);
        forall k | 0 <= k < |init| ensures init[k] != step[0] {
          var j, f :| 0 <= j < last && init[k] == ImageName(prefix, j, f);
          if init[k] == step[0] {
            ImageNameInjective(prefix, j, last, f, fmt);
          }
        }
        var names := init + step;
        assert forall k :: 0 <= k < |init| ==> names[k] == init[k];
        assert names[|init|] == step[0];
      }
    }
  }

  /** With `save_format` one of jpg/png/jpeg, every file written carries that
      extension, whatever format the images came in. */
  lemma {:induction false} FlatSavedNamesFormat(fs: seq<Fetch>, prefix: string, saveFormat: Option<string>,
                                                minRes: (int, int), maxRes: (int, int))
    requires saveFormat.Some? && saveFormat.value in KeptFormats
    ensures forall name :: name in FlatSavedNames(fs, prefix, saveFormat, minRes, maxRes) ==>
      EndsWith(name, "." + saveFormat.value)
    decreases |fs|
  {
    if fs != [] {
      var last := |fs| - 1;
      FlatSavedNamesFormat(fs[..last], prefix, saveFormat, minRes, maxRes);
      var step := FlatSavedName(fs[last], prefix, last, saveFormat, minRes, maxRes);
      if step != [] {
        ImageNameEnds(prefix, last, saveFormat.value);
      }
    }
  }

  /** `{prefix}-{index}.{format}` ends in `.{format}`. */
  lemma ImageNameEnds(prefix: string, index: nat, format: string)
    ensures EndsWith(ImageName(prefix, index, format), "." + format)
  {
    var name := ImageName(prefix, index, format);
    assert name == (prefix + "-" + NatToString(index)) + ("." + format);
  }

  /** A URL whose download does not answer 200 writes nothing. */
  lemma NoResponseNoFile(fs: seq<Fetch>, f: Fetch, prefix: string, saveFormat: Option<string>,
                         minRes: (int, int), maxRes: (int, int))
    requires DownloadImage(f).None?
    ensures FlatSavedNames(fs + [f], prefix, saveFormat, minRes, maxRes) == FlatSavedNames(fs, prefix, saveFormat, minRes, maxRes)
  {
    assert (fs + [f])[..|fs|] == fs;
  }
}
