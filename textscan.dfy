/** The text-scan extractor: the JavaScript function the scraper evaluates in
    the results page (`_extract_urls_from_page_data` of `core/scraper.py`
    and its inline copy in `GoogleImageScraper.py`). It runs three scans
    over the page (script texts, meta `content` attributes, the whole
    document markup), drops thumbnail-looking matches, removes duplicates
    keeping the first occurrence (a `Set`) and sorts by length, longest
    first. `Array.prototype.sort` is stable (section 22.1.3.27 of ECMA-262,
    2019 edition), so URLs of equal length keep their collected order. */
module TextScan {
  import opened Wrappers
  import opened Text
  import opened Lists

  // ---------------------------------------------------------------------
  // The page, as the scans see it

  datatype Script = Script(textContent: string, innerHTML: string)

  /** The scripts, the `content` attribute of each meta tag (`None` where it
      is absent) and `document.documentElement.innerHTML`. */
  datatype Page = Page(scripts: seq<Script>, metaContents: seq<Option<string>>, html: string)

  /** `script.textContent || script.innerHTML`. */
  function ScriptText(s: Script): string {
    if s.textContent != [] then s.textContent else s.innerHTML
  }

  // ---------------------------------------------------------------------
  // The three regular expressions
  //
  //   script: /https?:\/\/[^\s"',\]]+\.(jpg|jpeg|png|webp|gif)([?&][^\s"',\]]*)?/gi
  //   meta:   /https?:\/\/[^\s"']+\.(jpg|jpeg|png|webp|gif)/i
  //   page:   /https?:\/\/[^\s"',\](){}]+\.(jpg|jpeg|png|webp|gif)([?&][^\s"',\](){}]*)?/gi
  //
  // differ in the excluded characters and in the optional query tail. The
  // matcher below is what the backtracking engine computes for them: after
  // the scheme, the greedy run of allowed characters gives back characters
  // until a `.` followed by an extension is found, so the match ends at the
  // LAST such dot of the run; the query tail, when `?` or `&` follows,
  // extends to the end of the run. Case is ignored for ASCII letters only,
  // which is what `i` does without the `u` flag for these patterns.

  predicate IsScriptDelim(c: char) { IsJsSpace(c) || c == '"' || c == '\'' || c == ',' || c == ']' }
  predicate IsMetaDelim(c: char) { IsJsSpace(c) || c == '"' || c == '\'' }
  predicate IsPageDelim(c: char) { IsScriptDelim(c) || c == '(' || c == ')' || c == '{' || c == '}' }

  /** `pat` (lower case) occurs at `p`, ignoring ASCII case. */
  predicate MatchesAt(s: string, p: nat, pat: string) {
    p + |pat| <= |s| && Lower(s[p..p + |pat|]) == pat
  }

  /** The alternatives of `https?:\/\/`, in the order the engine tries them. */
  const Schemes: seq<string> := ["https://", "http://"]

  /** The alternatives of `(jpg|jpeg|png|webp|gif)`, in the order written. */
  const Extensions: seq<string> := ["jpg", "jpeg", "png", "webp", "gif"]

  /** The first of `alts[k..]` that matches at `i`. */
  function FirstAlternative(s: string, i: nat, alts: seq<string>, k: nat): (r: Option<nat>)
    requires k <= |alts|
    ensures r.Some? ==> k <= r.value < |alts| && MatchesAt(s, i, alts[r.value])
    ensures r.Some? ==> forall j :: k <= j < r.value ==> !MatchesAt(s, i, alts[j])
    ensures r.None? ==> forall j :: k <= j < |alts| ==> !MatchesAt(s, i, alts[j])
    decreases |alts| - k
  {
    if k == |alts| then None
    else if MatchesAt(s, i, alts[k]) then Some(k)
    else FirstAlternative(s, i, alts, k + 1)
  }

  /** Length of the alternative that matches at `i`, or 0. */
  function AlternativeLength(s: string, i: nat, alts: seq<string>): nat {
    match FirstAlternative(s, i, alts, 0)
    case Some(k) => |alts[k]|
    case None => 0
  }

  /** Length of `https://` or `http://` at `p`, or 0. */
  function SchemeLength(s: string, p: nat): nat {
    AlternativeLength(s, p, Schemes)
  }

  /** Length of the first extension at `i`, or 0. */
  function ExtensionLength(s: string, i: nat): nat {
    AlternativeLength(s, i, Extensions)
  }

  predicate IsExtensionDot(s: string, d: nat) {
    IsAlternativeDot(s, d, Extensions)
  }

  /** A dot followed by one of `alts`. */
  predicate IsAlternativeDot(s: string, d: nat, alts: seq<string>) {
    d < |s| && s[d] == '.' && AlternativeLength(s, d + 1, alts) > 0
  }

  /** End of the run of characters outside `delim` that starts at `i`. */
  function RunEnd(s: string, i: nat, delim: char -> bool): (e: nat)
    requires i <= |s|
    ensures i <= e <= |s|
    ensures forall k :: i <= k < e ==> !delim(s[k])
    ensures e < |s| ==> delim(s[e])
    decreases |s| - i
  {
    if i == |s| || delim(s[i]) then i else RunEnd(s, i + 1, delim)
  }

  /** The last extension dot in `[lo, hi)`. */
  function LastExtensionDot(s: string, lo: nat, hi: nat): (r: Option<nat>)
    requires hi <= |s|
    ensures r.Some? ==> lo <= r.value < hi && IsExtensionDot(s, r.value)
    ensures r.Some? ==> forall d :: r.value < d < hi ==> !IsExtensionDot(s, d)
    ensures r.None? ==> forall d :: lo <= d < hi ==> !IsExtensionDot(s, d)
  {
    LastAlternativeDot(s, lo, hi, Extensions)
  }

  /** The last dot in `[lo, hi)` followed by one of `alts`, found from the right. */
  function LastAlternativeDot(s: string, lo: nat, hi: nat, alts: seq<string>): (r: Option<nat>)
    requires hi <= |s|
    ensures r.Some? ==> lo <= r.value < hi && IsAlternativeDot(s, r.value, alts)
    ensures r.Some? ==> forall d :: r.value < d < hi ==> !IsAlternativeDot(s, d, alts)
    ensures r.None? ==> forall d :: lo <= d < hi ==> !IsAlternativeDot(s, d, alts)
    decreases hi
  {
    if hi <= lo then None
    else if IsAlternativeDot(s, hi - 1, alts) then Some(hi - 1)
    else LastAlternativeDot(s, lo, hi - 1, alts)
  }

  /** Where `[^…]+\.(jpg|…)` ends when the run starts at `q`: just after the
      extension that follows the last extension dot of the run. */
  function ExtensionEnd(s: string, q: nat, delim: char -> bool): (r: Option<nat>)
    requires q <= |s|
    ensures r.Some? ==> q < r.value <= |s|
  {
    match LastExtensionDot(s, q + 1, RunEnd(s, q, delim))
    case None => None
    case Some(d) => Some(AfterExtension(s, d))
  }

  /** Just after the extension that follows the dot at `d`. */
  function AfterExtension(s: string, d: nat): (x: nat)
    requires IsExtensionDot(s, d)
    ensures d + 1 < x <= |s|
  {
    d + 1 + ExtensionLength(s, d + 1)
  }

  /** Where the optional `([?&][^…]*)?` ends when it is tried at `x`. */
  function QueryTailEnd(s: string, x: nat, delim: char -> bool, queryTail: bool): (e: nat)
    requires x <= |s|
    ensures x <= e <= |s|
  {
    if queryTail && x < |s| && (s[x] == '?' || s[x] == '&') then RunEnd(s, x + 1, delim) else x
  }

  /** Where a match starting at `p` ends, if one starts there. */
  function MatchEnd(s: string, p: nat, delim: char -> bool, queryTail: bool): (r: Option<nat>)
    requires p <= |s|
    ensures r.Some? ==> p < r.value <= |s|
  {
    var n := SchemeLength(s, p);
    if n == 0 then None
    else
      match ExtensionEnd(s, p + n, delim)
      case None => None
      case Some(x) => Some(QueryTailEnd(s, x, delim, queryTail))
  }

  /** `s.match(re)` for a global `re`: the matches from left to right, the
      search resuming where the previous match ended. */
  function AllMatches(s: string, p: nat, delim: char -> bool, queryTail: bool): (r: seq<string>)
    requires p <= |s|
    decreases |s| - p
  {
    if p == |s| then []
    else
      match MatchEnd(s, p, delim, queryTail)
      case Some(e) => [s[p..e]] + AllMatches(s, e, delim, queryTail)
      case None => AllMatches(s, p + 1, delim, queryTail)
  }

  /** `s.match(re)[0]` for a non-global `re`. */
  function FirstMatch(s: string, p: nat, delim: char -> bool): (r: Option<string>)
    requires p <= |s|
    decreases |s| - p
  {
    if p == |s| then None
    else
      match MatchEnd(s, p, delim, false)
      case Some(e) => Some(s[p..e])
      case None => FirstMatch(s, p + 1, delim)
  }

  // ---------------------------------------------------------------------
  // The three scans

  /** The nine patterns the script scan rejects (none of them is searched
      ignoring case). */
  const ScriptBlocklist: seq<string> :=
    ["encrypted-tbn", "logo", "favicon", "/s90/", "/s100/", "/s150/", "=s64", "=s90", "=s100"]

  predicate KeepScriptMatch(u: string) { !ContainsAny(u, ScriptBlocklist) }

  /** The page scan keeps matches longer than 50 UTF-16 code units that
      contain neither of three patterns. */
  predicate KeepPageMatch(u: string) {
    !Contains(u, "encrypted-tbn") && !Contains(u, "logo") && !Contains(u, "favicon") && JsLength(u) > 50
  }

  /** Only scripts mentioning both `["` and `http` are searched. */
  predicate IsDataScript(text: string) { Contains(text, "[\"") && Contains(text, "http") }

  function ScriptUrls(text: string): seq<string> {
    if IsDataScript(text) then Filter(AllMatches(text, 0, IsScriptDelim, true), KeepScriptMatch) else []
  }

  function ScriptScan(scripts: seq<Script>): seq<string> {
    if scripts == [] then []
    else ScriptScan(scripts[..|scripts| - 1]) + ScriptUrls(ScriptText(scripts[|scripts| - 1]))
  }

  /** Only contents mentioning `http` and `.jpg` or `.png` are searched. */
  predicate IsImageMeta(content: string) {
    Contains(content, "http") && (Contains(content, ".jpg") || Contains(content, ".png"))
  }

  /** At most one URL per meta tag: its first match, unless that match
      contains `encrypted-tbn`. */
  function MetaUrl(attribute: Option<string>): (r: seq<string>)
    ensures |r| <= 1
  {
    var content := attribute.GetOr([]);
    if !IsImageMeta(content) then []
    else
      match FirstMatch(content, 0, IsMetaDelim)
      case Some(u) => if Contains(u, "encrypted-tbn") then [] else [u]
      case None => []
  }

  function MetaScan(metas: seq<Option<string>>): seq<string> {
    if metas == [] then [] else MetaScan(metas[..|metas| - 1]) + MetaUrl(metas[|metas| - 1])
  }

  function PageScan(html: string): seq<string> {
    Filter(AllMatches(html, 0, IsPageDelim, true), KeepPageMatch)
  }

  /** `fullResUrls` after the three scans. */
  function Collected(page: Page): seq<string> {
    ScriptScan(page.scripts) + MetaScan(page.metaContents) + PageScan(page.html)
  }

  /** `[...new Set(fullResUrls)].sort((a, b) => b.length - a.length)`. */
  function Extracted(page: Page): seq<string> {
    SortDesc(Dedup(Collected(page)), JsLength)
  }

  // ---------------------------------------------------------------------
  // The extractor as it runs

  /** The body of the evaluated function: three loops pushing into
      `fullResUrls`, then the `Set` and the sort. */
  method ExtractUrlsFromPageData(page: Page) returns (urls: seq<string>)
    ensures urls == Extracted(page)
  {
    var fromScripts := CollectScriptUrls(page.scripts);
    var fromMetas := CollectMetaUrls(page.metaContents);
    var fromPage := CollectPageUrls(page.html);
    var fullResUrls := fromScripts + fromMetas + fromPage;
    urls := SortDesc(Dedup(fullResUrls), JsLength);
  }

  /** The loop over the scripts. */
  method CollectScriptUrls(scripts: seq<Script>) returns (found: seq<string>)
    ensures found == ScriptScan(scripts)
  {
    found := [];
    for i := 0 to |scripts|
      invariant found == ScriptScan(scripts[..i])
    {
      var content := ScriptText(scripts[i]);
      var kept: seq<string> := [];
      if IsDataScript(content) {
        kept := KeepMatches(AllMatches(content, 0, IsScriptDelim, true), KeepScriptMatch);
      }
      ScriptScanSnoc(scripts, i);
      found := found + kept;
    }
    assert scripts[..|scripts|] == scripts;
  }

  /** `for (const m of matches) if (keep(m)) push(m)`. */
  method KeepMatches(urlMatches: seq<string>, keep: string -> bool) returns (kept: seq<string>)
    ensures kept == Filter(urlMatches, keep)
  {
    kept := [];
    for j := 0 to |urlMatches|
      invariant kept == Filter(urlMatches[..j], keep)
    {
      FilterSnoc(urlMatches, j, keep);
      if keep(urlMatches[j]) {
        kept := kept + [urlMatches[j]];
      }
    }
    assert urlMatches[..|urlMatches|] == urlMatches;
  }

  /** The loop over the meta tags. */
  method CollectMetaUrls(metas: seq<Option<string>>) returns (found: seq<string>)
    ensures found == MetaScan(metas)
  {
    found := [];
    for i := 0 to |metas|
      invariant found == MetaScan(metas[..i])
    {
      MetaScanSnoc(metas, i);
      var content := metas[i].GetOr([]);
      var url: seq<string> := [];
      if IsImageMeta(content) {
        var urlMatch := FirstMatch(content, 0, IsMetaDelim);
        if urlMatch.Some? && !Contains(urlMatch.value, "encrypted-tbn") {
          url := [urlMatch.value];
        }
      }
      assert url == MetaUrl(metas[i]);
      found := found + url;
    }
    assert metas[..|metas|] == metas;
  }

  /** The loop over the matches in the whole markup. */
  method CollectPageUrls(html: string) returns (found: seq<string>)
    ensures found == PageScan(html)
  {
    found := KeepMatches(AllMatches(html, 0, IsPageDelim, true), KeepPageMatch);
  }

  lemma ScriptScanSnoc(scripts: seq<Script>, i: nat)
    requires i < |scripts|
    ensures ScriptScan(scripts[..i + 1]) == ScriptScan(scripts[..i]) + ScriptUrls(ScriptText(scripts[i]))
  {
    assert scripts[..i + 1][..i] == scripts[..i];
  }

  lemma MetaScanSnoc(metas: seq<Option<string>>, i: nat)
    requires i < |metas|
    ensures MetaScan(metas[..i + 1]) == MetaScan(metas[..i]) + MetaUrl(metas[i])
  {
    assert metas[..i + 1][..i] == metas[..i];
  }

  lemma FilterSnoc<T>(s: seq<T>, j: nat, p: T -> bool)
    requires j < |s|
    ensures Filter(s[..j + 1], p) == Filter(s[..j], p) + (if p(s[j]) then [s[j]] else [])
  {
    assert s[..j + 1] == s[..j] + [s[j]];
    FilterConcat(s[..j], [s[j]], p);
    assert Filter([s[j]], p) == (if p(s[j]) then [s[j]] else []) + Filter([], p);
  }

  // ---------------------------------------------------------------------
  // What a match looks like

  /** Begins with `http://` or `https://`, ignoring ASCII case. */
  predicate HasHttpScheme(u: string) {
    StartsWith(Lower(u), "http://") || StartsWith(Lower(u), "https://")
  }

  predicate NoDelim(u: string, delim: char -> bool) {
    forall k :: 0 <= k < |u| ==> !delim(u[k])
  }

  /** The classes the patterns exclude contain no letter, `.`, `?`, `&`, `:` or `/`. */
  predicate IsDelimClass(delim: char -> bool) {
    forall c :: delim(c) ==> !IsAsciiLetter(c) && c != '.' && c != '?' && c != '&' && c != ':' && c != '/'
  }

  lemma DelimClasses()
    ensures IsDelimClass(IsScriptDelim) && IsDelimClass(IsMetaDelim) && IsDelimClass(IsPageDelim)
  {
  }

  lemma LowerPrefix(u: string, n: nat)
    requires n <= |u|
    ensures Lower(u)[..n] == Lower(u[..n])
  {
  }

  predicate NoDelimIn(s: string, lo: nat, hi: nat, delim: char -> bool)
    requires lo <= hi <= |s|
  {
    forall k :: lo <= k < hi ==> !delim(s[k])
  }

  /** A match starts with the scheme and contains no excluded character. */
  lemma MatchShape(s: string, p: nat, delim: char -> bool, queryTail: bool)
    requires p <= |s| && IsDelimClass(delim)
    requires MatchEnd(s, p, delim, queryTail).Some?
    ensures var u := s[p..MatchEnd(s, p, delim, queryTail).value];
      HasHttpScheme(u) && NoDelim(u, delim)
  {
    var end := MatchEnd(s, p, delim, queryTail).value;
    MatchNoDelim(s, p, delim, queryTail);
    SliceNoDelim(s, p, end, delim);
    SchemePrefix(s, p, end);
  }

  lemma SliceNoDelim(s: string, lo: nat, hi: nat, delim: char -> bool)
    requires lo <= hi <= |s| && NoDelimIn(s, lo, hi, delim)
    ensures NoDelim(s[lo..hi], delim)
  {
    var u := s[lo..hi];
    forall k | 0 <= k < |u| ensures !delim(u[k]) {
      assert u[k] == s[lo + k];
    }
  }

  /** The characters the alternatives are spelt with. */
  predicate IsPatternChar(c: char) { 'a' <= c <= 'z' || c == ':' || c == '/' }

  predicate IsPattern(pat: string) { forall j :: 0 <= j < |pat| ==> IsPatternChar(pat[j]) }

  lemma AlternativesArePatterns()
    ensures forall k :: 0 <= k < |Schemes| ==> IsPattern(Schemes[k])
    ensures forall k :: 0 <= k < |Extensions| ==> IsPattern(Extensions[k])
  {
    forall k | 0 <= k < |Schemes| ensures IsPattern(Schemes[k]) {
      var pat := Schemes[k];
      forall j | 0 <= j < |pat| ensures IsPatternChar(pat[j]) { }
    }
    forall k | 0 <= k < |Extensions| ensures IsPattern(Extensions[k]) {
      var pat := Extensions[k];
      forall j | 0 <= j < |pat| ensures IsPatternChar(pat[j]) { }
    }
  }

  /** Text matching a pattern, ignoring case, holds no excluded character. */
  lemma PatternNoDelim(s: string, p: nat, pat: string, delim: char -> bool)
    requires IsDelimClass(delim) && IsPattern(pat) && MatchesAt(s, p, pat)
    ensures NoDelimIn(s, p, p + |pat|, delim)
  {
    var w := s[p..p + |pat|];
    forall k | p <= k < p + |pat| ensures !delim(s[k]) {
      assert w[k - p] == s[k];
      assert LowerChar(s[k]) == pat[k - p];
      assert IsAsciiLetter(s[k]) || s[k] == ':' || s[k] == '/';
    }
  }

  lemma AlternativeNoDelim(s: string, i: nat, alts: seq<string>, delim: char -> bool)
    requires i <= |s| && IsDelimClass(delim)
    requires forall k :: 0 <= k < |alts| ==> IsPattern(alts[k])
    ensures i + AlternativeLength(s, i, alts) <= |s|
    ensures NoDelimIn(s, i, i + AlternativeLength(s, i, alts), delim)
  {
    match FirstAlternative(s, i, alts, 0) {
      case Some(k) => PatternNoDelim(s, i, alts[k], delim);
      case None =>
    }
  }

  lemma SchemePrefix(s: string, p: nat, end: nat)
    requires SchemeLength(s, p) > 0 && p + SchemeLength(s, p) <= end <= |s|
    ensures HasHttpScheme(s[p..end])
  {
    var k := FirstAlternative(s, p, Schemes, 0).value;
    var pat := Schemes[k];
    assert pat == "https://" || pat == "http://";
    var u := s[p..end];
    LowerPrefix(u, |pat|);
    assert u[..|pat|] == s[p..p + |pat|];
  }

  lemma MatchNoDelim(s: string, p: nat, delim: char -> bool, queryTail: bool)
    requires p <= |s| && IsDelimClass(delim)
    requires MatchEnd(s, p, delim, queryTail).Some?
    ensures NoDelimIn(s, p, MatchEnd(s, p, delim, queryTail).value, delim)
  {
    MatchEndParts(s, p, delim, queryTail);
    var n := SchemeLength(s, p);
    var x := ExtensionEnd(s, p + n, delim).value;
    SchemeNoDelim(s, p, delim);
    ExtensionEndNoDelim(s, p + n, delim);
    QueryTailNoDelim(s, x, delim, queryTail);
    NoDelimInThree(s, p, p + n, x, QueryTailEnd(s, x, delim, queryTail), delim);
  }

  lemma NoDelimInThree(s: string, a: nat, b: nat, c: nat, d: nat, delim: char -> bool)
    requires a <= b <= c <= d <= |s|
    requires NoDelimIn(s, a, b, delim) && NoDelimIn(s, b, c, delim) && NoDelimIn(s, c, d, delim)
    ensures NoDelimIn(s, a, d, delim)
  {
  }

  /** A match is the scheme, the run up to the extension, and the query tail. */
  lemma MatchEndParts(s: string, p: nat, delim: char -> bool, queryTail: bool)
    requires p <= |s| && MatchEnd(s, p, delim, queryTail).Some?
    ensures SchemeLength(s, p) > 0
    ensures ExtensionEnd(s, p + SchemeLength(s, p), delim).Some?
    ensures MatchEnd(s, p, delim, queryTail).value ==
      QueryTailEnd(s, ExtensionEnd(s, p + SchemeLength(s, p), delim).value, delim, queryTail)
  {
  }

  lemma SchemeNoDelim(s: string, p: nat, delim: char -> bool)
    requires p <= |s| && IsDelimClass(delim)
    ensures p + SchemeLength(s, p) <= |s|
    ensures NoDelimIn(s, p, p + SchemeLength(s, p), delim)
  {
    AlternativesArePatterns();
    AlternativeNoDelim(s, p, Schemes, delim);
  }

  lemma ExtensionEndNoDelim(s: string, q: nat, delim: char -> bool)
    requires q <= |s| && IsDelimClass(delim) && ExtensionEnd(s, q, delim).Some?
    ensures NoDelimIn(s, q, ExtensionEnd(s, q, delim).value, delim)
  {
    var e := RunEnd(s, q, delim);
    var d := LastExtensionDot(s, q + 1, e).value;
    var x := AfterExtension(s, d);
    assert ExtensionEnd(s, q, delim) == Some(x);
    AfterExtensionNoDelim(s, d, delim);
    RunPieces(s, q, e, d, x, delim);
  }

  lemma AfterExtensionNoDelim(s: string, d: nat, delim: char -> bool)
    requires IsDelimClass(delim) && IsExtensionDot(s, d)
    ensures !delim(s[d]) && NoDelimIn(s, d + 1, AfterExtension(s, d), delim)
  {
    AlternativesArePatterns();
    AlternativeNoDelim(s, d + 1, Extensions, delim);
  }

  /** The run up to the extension dot and the extension hold no excluded
      character, and the extension ends inside the run. */
  lemma RunPieces(s: string, q: nat, e: nat, d: nat, x: nat, delim: char -> bool)
    requires q <= d < e <= |s| && d < x <= |s| && !delim(s[d])
    requires NoDelimIn(s, q, e, delim) && NoDelimIn(s, d + 1, x, delim)
    requires e < |s| ==> delim(s[e])
    ensures x <= e && NoDelimIn(s, q, x, delim)
  {
    if x > e {
      assert false;
    }
  }

  lemma QueryTailNoDelim(s: string, x: nat, delim: char -> bool, queryTail: bool)
    requires x <= |s| && IsDelimClass(delim)
    ensures NoDelimIn(s, x, QueryTailEnd(s, x, delim, queryTail), delim)
  {
  }

  /** Every global match has the scheme and no excluded character. */
  lemma {:induction false} AllMatchesShape(s: string, p: nat, delim: char -> bool, queryTail: bool)
    requires p <= |s| && IsDelimClass(delim)
    ensures forall u :: u in AllMatches(s, p, delim, queryTail) ==> HasHttpScheme(u) && NoDelim(u, delim)
    decreases |s| - p
  {
    if p < |s| {
      match MatchEnd(s, p, delim, queryTail) {
        case Some(e) =>
          MatchShape(s, p, delim, queryTail);
          AllMatchesShape(s, e, delim, queryTail);
        case None =>
          AllMatchesShape(s, p + 1, delim, queryTail);
      }
    }
  }

  lemma {:induction false} FirstMatchShape(s: string, p: nat, delim: char -> bool)
    requires p <= |s| && IsDelimClass(delim)
    requires FirstMatch(s, p, delim).Some?
    ensures HasHttpScheme(FirstMatch(s, p, delim).value) && NoDelim(FirstMatch(s, p, delim).value, delim)
    decreases |s| - p
  {
    match MatchEnd(s, p, delim, false) {
      case Some(e) => MatchShape(s, p, delim, false);
      case None => FirstMatchShape(s, p + 1, delim);
    }
  }

  // ---------------------------------------------------------------------
  // Properties of the scans

  /** What each scan lets through. */
  predicate ScriptShaped(u: string) { HasHttpScheme(u) && KeepScriptMatch(u) }
  predicate MetaShaped(u: string) { HasHttpScheme(u) && !Contains(u, "encrypted-tbn") }
  predicate PageShaped(u: string) { HasHttpScheme(u) && KeepPageMatch(u) }

  lemma ScriptUrlsShape(text: string)
    ensures forall u :: u in ScriptUrls(text) ==> ScriptShaped(u)
  {
    if IsDataScript(text) {
      DelimClasses();
      AllMatchesShape(text, 0, IsScriptDelim, true);
    }
  }

  /** Script-scan URLs carry the scheme and none of the nine patterns. */
  lemma {:induction false} ScriptScanShape(scripts: seq<Script>)
    ensures forall u :: u in ScriptScan(scripts) ==> ScriptShaped(u)
  {
    if scripts != [] {
      ScriptScanShape(scripts[..|scripts| - 1]);
      ScriptUrlsShape(ScriptText(scripts[|scripts| - 1]));
    }
  }

  /** A script that lacks `["` or `http` contributes nothing. */
  lemma ScriptScanSkips(scripts: seq<Script>, s: Script)
    requires !IsDataScript(ScriptText(s))
    ensures ScriptScan(scripts + [s]) == ScriptScan(scripts)
  {
    assert (scripts + [s])[..|scripts|] == scripts;
  }

  lemma MetaUrlShape(attribute: Option<string>)
    ensures forall u :: u in MetaUrl(attribute) ==> MetaShaped(u)
  {
    var content := attribute.GetOr([]);
    if IsImageMeta(content) && FirstMatch(content, 0, IsMetaDelim).Some? {
      DelimClasses();
      FirstMatchShape(content, 0, IsMetaDelim);
    }
  }

  /** Meta-scan URLs carry the scheme and lack `encrypted-tbn`, and there is at
      most one per meta tag. */
  lemma {:induction false} MetaScanShape(metas: seq<Option<string>>)
    ensures forall u :: u in MetaScan(metas) ==> MetaShaped(u)
    ensures |MetaScan(metas)| <= |metas|
  {
    if metas != [] {
      MetaScanShape(metas[..|metas| - 1]);
      MetaUrlShape(metas[|metas| - 1]);
    }
  }

  /** Page-scan URLs carry the scheme, are longer than 50 and lack the three
      patterns. */
  lemma PageScanShape(html: string)
    ensures forall u :: u in PageScan(html) ==> PageShaped(u)
  {
    DelimClasses();
    AllMatchesShape(html, 0, IsPageDelim, true);
  }

  /** The page scan is the matches it keeps, in document order. */
  lemma PageScanMembers(html: string, u: string)
    ensures u in PageScan(html) <==> u in AllMatches(html, 0, IsPageDelim, true) && KeepPageMatch(u)
  {
    FilterMembers(AllMatches(html, 0, IsPageDelim, true), KeepPageMatch, u);
  }

  /** Every collected URL satisfies the filter of the scan it came from. */
  lemma CollectedShape(page: Page, u: string)
    requires u in Collected(page)
    ensures ScriptShaped(u) || MetaShaped(u) || PageShaped(u)
  {
    ScriptScanShape(page.scripts);
    MetaScanShape(page.metaContents);
    PageScanShape(page.html);
  }

  // ---------------------------------------------------------------------
  // Properties of the result

  /** The result holds exactly the collected URLs. */
  lemma ExtractedMembers(page: Page, u: string)
    ensures u in Extracted(page) <==> u in Collected(page)
  {
    SortDescMembers(Dedup(Collected(page)), JsLength, u);
    DedupMembers(Collected(page), u);
  }

  /** No URL appears twice. */
  lemma ExtractedNoDup(page: Page)
    ensures NoDup(Extracted(page))
  {
    DedupNoDup(Collected(page));
    SortDescNoDup(Dedup(Collected(page)), JsLength);
  }

  /** Longest first. */
  lemma ExtractedSorted(page: Page)
    ensures SortedDesc(Extracted(page), JsLength)
  {
    SortDescSorted(Dedup(Collected(page)), JsLength);
  }

  /** URLs of one length appear in the order they were first collected. */
  lemma ExtractedStable(page: Page, k: nat)
    ensures WithKey(Extracted(page), JsLength, k) == WithKey(Dedup(Collected(page)), JsLength, k)
  {
    SortDescStable(Dedup(Collected(page)), JsLength, k);
  }

  /** Every result begins with `http://` or `https://` (any case) and lacks
      `encrypted-tbn`. */
  lemma ExtractedShape(page: Page, u: string)
    requires u in Extracted(page)
    ensures HasHttpScheme(u) && !Contains(u, "encrypted-tbn")
  {
    ExtractedMembers(page, u);
    CollectedShape(page, u);
    if ScriptShaped(u) {
      assert Contains(u, ScriptBlocklist[0]) ==> ContainsAny(u, ScriptBlocklist);
    }
  }
}
