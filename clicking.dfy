/** The click fallback (`_extract_urls_by_clicking` of `core/scraper.py`
    and the inline loop of `find_image_urls` in `GoogleImageScraper.py`):
    click image containers one after another and, in each, take the first
    selector whose image source looks like a full-size URL. What the browser
    does is given as one outcome per container. */
module Clicking {
  import opened Wrappers
  import opened Text
  import opened Lists

  /** One of the four selectors tried after a click: it failed (the wait
      timed out or the locator raised), or it found an element whose `src`
      and `data-src` attributes were read. */
  datatype SelectorOutcome = SelectorFailed | Found(src: Option<string>, dataSrc: Option<string>)

  /** One container: the click (or the wait after it) raised, or it succeeded
      and the selectors produced these outcomes, in order. */
  datatype ContainerOutcome = ClickFailed | Clicked(selectors: seq<SelectorOutcome>)

  /** `get_attribute('src') or get_attribute('data-src')`: the `src` unless it
      is missing or empty. */
  function ImageSource(o: SelectorOutcome): Option<string> {
    match o
    case SelectorFailed => None
    case Found(src, dataSrc) => if src.Some? && src.value != [] then src else dataSrc
  }

  /** The acceptance test on an image source. */
  predicate Accept(u: string) {
    u != [] && Contains(u, "http") && !Contains(u, "encrypted-tbn") && |u| > 50
  }

  predicate Accepted(o: SelectorOutcome) {
    ImageSource(o).Some? && Accept(ImageSource(o).value)
  }

  /** The first accepted source among `sels[j..]`. */
  function FirstAccepted(sels: seq<SelectorOutcome>, j: nat): (r: Option<string>)
    requires j <= |sels|
    ensures r.Some? ==> Accept(r.value)
    decreases |sels| - j
  {
    if j == |sels| then None
    else if Accepted(sels[j]) then ImageSource(sels[j])
    else FirstAccepted(sels, j + 1)
  }

  /** What one container contributes: at most one URL. */
  function ContainerUrl(c: ContainerOutcome): (r: seq<string>)
    ensures |r| <= 1
    ensures forall u :: u in r ==> Accept(u)
  {
    match c
    case ClickFailed => []
    case Clicked(sels) => match FirstAccepted(sels, 0) case Some(u) => [u] case None => []
  }

  /** The containers tried: `image_containers[:min(len, 2 * number_of_images)]`. */
  function Attempted(containers: seq<ContainerOutcome>, numberOfImages: int): seq<ContainerOutcome> {
    SliceTo(containers, if |containers| < 2 * numberOfImages then |containers| else 2 * numberOfImages)
  }

  /** The loop from `cs` on, with `acc` collected so far: stop once
      `number_of_images` URLs are in. */
  function ClickFrom(cs: seq<ContainerOutcome>, numberOfImages: int, acc: seq<string>): seq<string>
    decreases |cs|
  {
    if cs == [] || |acc| >= numberOfImages then acc
    else ClickFrom(cs[1..], numberOfImages, acc + ContainerUrl(cs[0]))
  }

  /** `clicked_urls` at the end of the loop. */
  function ClickedUrls(containers: seq<ContainerOutcome>, numberOfImages: int): seq<string> {
    ClickFrom(Attempted(containers, numberOfImages), numberOfImages, [])
  }

  /** The loop as it runs. */
  method ExtractUrlsByClicking(containers: seq<ContainerOutcome>, numberOfImages: int)
    returns (clickedUrls: seq<string>)
    ensures clickedUrls == ClickedUrls(containers, numberOfImages)
  {
    clickedUrls := [];
    var attempts := Attempted(containers, numberOfImages);
    var i := 0;
    while i < |attempts|
      invariant 0 <= i <= |attempts|
      invariant ClickFrom(attempts[i..], numberOfImages, clickedUrls) == ClickedUrls(containers, numberOfImages)
    {
      if |clickedUrls| >= numberOfImages {
        break;
      }
      ghost var before := clickedUrls;
      match attempts[i] {
        case ClickFailed =>
        case Clicked(sels) =>
          var picked := PickSource(sels);
          if picked.Some? {
            clickedUrls := clickedUrls + [picked.value];
          }
      }
      assert clickedUrls == before + ContainerUrl(attempts[i]);
      assert attempts[i..][0] == attempts[i] && attempts[i..][1..] == attempts[i + 1..];
      i := i + 1;
    }
  }

  /** The inner loop over the selectors, left at the first accepted source. */
  method PickSource(sels: seq<SelectorOutcome>) returns (picked: Option<string>)
    ensures picked == FirstAccepted(sels, 0)
  {
    picked := None;
    var j := 0;
    while j < |sels|
      invariant 0 <= j <= |sels|
      invariant FirstAccepted(sels, j) == FirstAccepted(sels, 0)
    {
      var imgSrc := ImageSource(sels[j]);
      if imgSrc.Some? && Accept(imgSrc.value) {
        picked := imgSrc;
        return;
      }
      j := j + 1;
    }
  }

  // ---------------------------------------------------------------------
  // Properties

  /** The URLs every tried container would contribute, in order. */
  function Candidates(cs: seq<ContainerOutcome>): seq<string> {
    if cs == [] then [] else ContainerUrl(cs[0]) + Candidates(cs[1..])
  }

  function Min(a: int, b: int): int { if a < b then a else b }

  /** The loop collects the first candidates until it has enough. */
  lemma {:induction false} ClickFromTakes(cs: seq<ContainerOutcome>, n: int, acc: seq<string>)
    requires |acc| <= n
    ensures ClickFrom(cs, n, acc) == acc + Candidates(cs)[..Min(n - |acc|, |Candidates(cs)|)]
    decreases |cs|
  {
    if cs == [] {
    } else if |acc| == n {
      assert Candidates(cs)[..0] == [];
    } else {
      var u := ContainerUrl(cs[0]);
      var rest := Candidates(cs[1..]);
      ClickFromTakes(cs[1..], n, acc + u);
      assert Candidates(cs) == u + rest;
      TakeAppend(acc, u, rest, n - |acc|);
    }
  }

  lemma TakeAppend(acc: seq<string>, u: seq<string>, rest: seq<string>, k: int)
    requires |u| <= 1 && 1 <= k
    ensures acc + u + rest[..Min(k - |u|, |rest|)] == acc + (u + rest)[..Min(k, |u + rest|)]
  {
    if u == [] {
      assert u + rest == rest;
    } else {
      assert (u + rest)[..Min(k, |u + rest|)] == u + rest[..Min(k - 1, |rest|)];
    }
  }

  /** `clicked_urls` is exactly the first `number_of_images` candidates (all of
      them if there are fewer). */
  lemma ClickedUrlsArePrefix(containers: seq<ContainerOutcome>, n: int)
    requires n >= 0
    ensures var cands := Candidates(Attempted(containers, n));
      ClickedUrls(containers, n) == cands[..Min(n, |cands|)]
  {
    ClickFromTakes(Attempted(containers, n), n, []);
  }

  /** Each tried container contributes at most one URL. */
  lemma {:induction false} CandidatesBound(cs: seq<ContainerOutcome>)
    ensures |Candidates(cs)| <= |cs|
    ensures forall u :: u in Candidates(cs) ==> Accept(u)
  {
    if cs != [] {
      CandidatesBound(cs[1..]);
    }
  }

  /** At most `number_of_images` URLs, at most one per tried container, and at
      most `min(#containers, 2 * number_of_images)` containers tried; every URL
      passed the acceptance test. */
  lemma ClickedUrlsBounds(containers: seq<ContainerOutcome>, n: int)
    ensures |ClickedUrls(containers, n)| <= (if n > 0 then n else 0)
    ensures |ClickedUrls(containers, n)| <= |Attempted(containers, n)|
    ensures n > 0 ==> |Attempted(containers, n)| == Min(|containers|, 2 * n)
    ensures forall u :: u in ClickedUrls(containers, n) ==> Accept(u)
  {
    if n > 0 {
      ClickedUrlsArePrefix(containers, n);
      CandidatesBound(Attempted(containers, n));
    }
  }

  /** Containers past the cap are never looked at. */
  lemma ClickedUrlsIgnoreExtra(containers: seq<ContainerOutcome>, extra: seq<ContainerOutcome>, n: int)
    requires |containers| >= 2 * n
    ensures ClickedUrls(containers + extra, n) == ClickedUrls(containers, n)
  {
    if n > 0 {
      assert Attempted(containers + extra, n) == Attempted(containers, n);
    }
  }

  /** A container whose click failed is skipped, and the loop goes on. */
  lemma ClickFailedSkipped(cs: seq<ContainerOutcome>, n: int, acc: seq<string>)
    requires |acc| < n
    ensures ClickFrom([ClickFailed] + cs, n, acc) == ClickFrom(cs, n, acc)
  {
    assert ([ClickFailed] + cs)[1..] == cs;
    assert acc + [] == acc;
  }
}
