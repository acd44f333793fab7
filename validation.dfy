/** The validators of `validation.py`. Python values arrive untyped, so the
    inputs are `PyValue`s, and every `ConfigurationError` the module raises is
    an `Err` naming its cause. */
module Validation {
  import opened Wrappers
  import opened Text
  import opened Lists
  import opened UrlParse

  /** The Python values the validators look at; `PyObject` is anything else
      (a dict, a `Path`, ...). A `bool` is an `int` for `isinstance`. */
  datatype PyValue =
    | PyNone
    | PyBool(b: bool)
    | PyInt(i: int)
    | PyFloat(f: real)
    | PyStr(s: string)
    | PyList(items: seq<PyValue>)
    | PyTuple(items: seq<PyValue>)
    | PyObject

  /** `isinstance(v, int)`. */
  predicate IsInt(v: PyValue) { v.PyInt? || v.PyBool? }

  function IntValue(v: PyValue): int
    requires IsInt(v)
  {
    if v.PyBool? then (if v.b then 1 else 0) else v.i
  }

  /** The reasons a `ConfigurationError` is raised. */
  datatype ConfigError =
    | SearchTermNotString
    | SearchTermEmpty
    | SearchTermTooLong
    | SearchTermInvalidChars
    | NotInteger(param: string)
    | OutOfRange(param: string, minVal: int, maxVal: int, got: PyValue)
    | ResolutionFormat(text: string)
    | ResolutionNotPair
    | ResolutionNotIntegers
    | ResolutionNegative
    | ResolutionTooLarge
    | FormatNotString
    | UnsupportedFormat(format: string)
    | UrlsNotList
    | TooManyUrls(count: nat, maxCount: int)
    | UrlNotString(index: nat)
    | MissingSchemeOrNetloc(index: nat, url: string)
    | NotHttp(index: nat, url: string)
    | UrlParseFailed(message: string)
    | InvalidUrl(index: nat, cause: ConfigError)
    | PathInvalid(reason: string)
    | TimeoutNotPositive
    | FloatOverflow
    | NotBoolean(field: string)

  // ---------------------------------------------------------------------
  // validate_search_term

  const MaxSearchTermLength := 200

  /** `re.sub(r'\s+', ' ', term.strip())`. */
  function NormalizeSpaces(s: string): string {
    CollapseRuns(Strip(s, IsPySpace), IsPySpace, ' ')
  }

  predicate IsDangerous(c: char) {
    c == '<' || c == '>' || c == '"' || c == '|' || c == '\0' || c == '\n' || c == '\r' || c == '\t'
  }

  predicate HasDangerous(s: string) {
    exists i :: 0 <= i < |s| && IsDangerous(s[i])
  }

  /** The characters that can actually cause a rejection: the dangerous ones
      that are not whitespace. */
  predicate IsRejectedChar(c: char) {
    c == '<' || c == '>' || c == '"' || c == '|' || c == '\0'
  }

  /** Trimmed, every whitespace character a plain space, no two spaces in a row. */
  predicate WellSpaced(s: string) {
    (s == [] || (!IsPySpace(s[0]) && !IsPySpace(s[|s| - 1]))) &&
    (forall i :: 0 <= i < |s| ==> IsPySpace(s[i]) ==> s[i] == ' ') &&
    NoAdjacentRuns(s, IsPySpace)
  }

  function ValidateSearchTerm(searchTerm: PyValue): (r: Result<string, ConfigError>)
    ensures r.Ok? ==> 1 <= |r.value| <= MaxSearchTermLength && !HasDangerous(r.value)
    ensures r.Ok? ==> searchTerm.PyStr? && r.value == NormalizeSpaces(searchTerm.s)
  {
    if !(searchTerm.PyStr? && searchTerm.s != []) then Err(SearchTermNotString)
    else
      var cleaned := NormalizeSpaces(searchTerm.s);
      if |cleaned| == 0 then Err(SearchTermEmpty)
      else if |cleaned| > MaxSearchTermLength then Err(SearchTermTooLong)
      else if HasDangerous(cleaned) then Err(SearchTermInvalidChars)
      else Ok(cleaned)
  }

  /** The normalised term is trimmed and single-spaced. */
  lemma NormalizeSpacesWellSpaced(s: string)
    ensures WellSpaced(NormalizeSpaces(s))
  {
    var t := Strip(s, IsPySpace);
    var r := CollapseRuns(t, IsPySpace, ' ');
    CollapseRunsSeparated(t, IsPySpace, ' ');
    CollapseRunsChars(t, IsPySpace, ' ');
    if t != [] {
      CollapseRunsEnds(t, IsPySpace, ' ');
    }
  }

  /** A trimmed, single-spaced term is its own normalisation. */
  lemma NormalizeSpacesIdentity(s: string)
    requires WellSpaced(s)
    ensures NormalizeSpaces(s) == s
  {
    WellSpacedStrip(s);
    WellSpacedCollapse(s);
  }

  lemma WellSpacedStrip(s: string)
    requires WellSpaced(s)
    ensures Strip(s, IsPySpace) == s
  {
    StripIdentity(s, IsPySpace);
  }

  lemma WellSpacedCollapse(s: string)
    requires WellSpaced(s)
    ensures CollapseRuns(s, IsPySpace, ' ') == s
  {
    CollapseRunsIdentity(s, IsPySpace, ' ');
  }

  /** An accepted term is trimmed and single-spaced, and validating it again
      returns it unchanged. */
  lemma ValidateSearchTermIdempotent(searchTerm: PyValue)
    requires ValidateSearchTerm(searchTerm).Ok?
    ensures WellSpaced(ValidateSearchTerm(searchTerm).value)
    ensures ValidateSearchTerm(PyStr(ValidateSearchTerm(searchTerm).value)) == ValidateSearchTerm(searchTerm)
  {
    var r := ValidateSearchTerm(searchTerm).value;
    NormalizeSpacesWellSpaced(searchTerm.s);
    NormalizeSpacesIdentity(r);
  }

  /** Every character of the normalised term is a space or a non-space
      character of the input. */
  lemma NormalizeSpacesChars(s: string)
    ensures forall i :: 0 <= i < |NormalizeSpaces(s)| ==>
      NormalizeSpaces(s)[i] == ' ' || (NormalizeSpaces(s)[i] in s && !IsPySpace(NormalizeSpaces(s)[i]))
  {
    var t := Strip(s, IsPySpace);
    CollapseRunsChars(t, IsPySpace, ' ');
    assert forall c :: c in t ==> c in s;
    var r := CollapseRuns(t, IsPySpace, ' ');
    assert r == NormalizeSpaces(s);
    forall i | 0 <= i < |r|
      ensures r[i] == ' ' || (r[i] in s && !IsPySpace(r[i]))
    {
      assert r[i] == ' ' || (r[i] in t && !IsPySpace(r[i]));
    }
  }

  /** Tab, newline and carriage return are whitespace and are gone before the
      character check: a rejection for invalid characters always points at
      one of `<`, `>`, `"`, `|` or NUL in the input. */
  lemma InvalidCharsComeFromInput(searchTerm: PyValue)
    requires ValidateSearchTerm(searchTerm) == Err(SearchTermInvalidChars)
    ensures searchTerm.PyStr?
    ensures exists i :: 0 <= i < |searchTerm.s| && IsRejectedChar(searchTerm.s[i])
  {
    InvalidCharsDangerous(searchTerm);
    DangerousFromInput(searchTerm.s);
  }

  lemma InvalidCharsDangerous(searchTerm: PyValue)
    requires ValidateSearchTerm(searchTerm) == Err(SearchTermInvalidChars)
    ensures searchTerm.PyStr? && HasDangerous(NormalizeSpaces(searchTerm.s))
  {
  }

  lemma DangerousFromInput(s: string)
    requires HasDangerous(NormalizeSpaces(s))
    ensures exists i :: 0 <= i < |s| && IsRejectedChar(s[i])
  {
    var cleaned := NormalizeSpaces(s);
    var i :| 0 <= i < |cleaned| && IsDangerous(cleaned[i]);
    NormalizeSpacesChars(s);
    var c := cleaned[i];
    assert c in s && !IsPySpace(c);
    var j :| 0 <= j < |s| && s[j] == c;
    assert IsRejectedChar(s[j]);
  }

  /** Whitespace around and between two words becomes one space. */
  lemma SearchTermTwoWords(sp0: string, w1: string, sp1: string, w2: string, sp2: string)
    requires forall i :: 0 <= i < |sp0| ==> IsPySpace(sp0[i])
    requires forall i :: 0 <= i < |sp1| ==> IsPySpace(sp1[i])
    requires forall i :: 0 <= i < |sp2| ==> IsPySpace(sp2[i])
    requires sp1 != [] && w1 != [] && w2 != []
    requires forall i :: 0 <= i < |w1| ==> !IsPySpace(w1[i]) && !IsDangerous(w1[i])
    requires forall i :: 0 <= i < |w2| ==> !IsPySpace(w2[i]) && !IsDangerous(w2[i])
    requires |w1| + |w2| < MaxSearchTermLength
    ensures ValidateSearchTerm(PyStr(sp0 + w1 + sp1 + w2 + sp2)) == Ok(w1 + " " + w2)
  {
    var x := sp0 + w1 + sp1 + w2 + sp2;
    var r := w1 + " " + w2;
    NormalizeTwoWords(sp0, w1, sp1, w2, sp2);
    JoinedNotDangerous(w1, w2);
    AcceptedTerm(x, r);
  }

  lemma AcceptedTerm(x: string, r: string)
    requires x != [] && NormalizeSpaces(x) == r
    requires 1 <= |r| <= MaxSearchTermLength && !HasDangerous(r)
    ensures ValidateSearchTerm(PyStr(x)) == Ok(r)
  {
  }

  lemma NormalizeTwoWords(sp0: string, w1: string, sp1: string, w2: string, sp2: string)
    requires forall i :: 0 <= i < |sp0| ==> IsPySpace(sp0[i])
    requires forall i :: 0 <= i < |sp1| ==> IsPySpace(sp1[i])
    requires forall i :: 0 <= i < |sp2| ==> IsPySpace(sp2[i])
    requires sp1 != [] && w1 != [] && w2 != []
    requires forall i :: 0 <= i < |w1| ==> !IsPySpace(w1[i])
    requires forall i :: 0 <= i < |w2| ==> !IsPySpace(w2[i])
    ensures NormalizeSpaces(sp0 + w1 + sp1 + w2 + sp2) == w1 + " " + w2
  {
    StripAroundWords(sp0, w1, sp1, w2, sp2);
    CollapseWordsJoined(w1, sp1, w2, IsPySpace, ' ');
  }

  lemma StripAroundWords(sp0: string, w1: string, sp1: string, w2: string, sp2: string)
    requires forall i :: 0 <= i < |sp0| ==> IsPySpace(sp0[i])
    requires forall i :: 0 <= i < |sp2| ==> IsPySpace(sp2[i])
    requires w1 != [] && w2 != [] && !IsPySpace(w1[0]) && !IsPySpace(w2[|w2| - 1])
    ensures Strip(sp0 + w1 + sp1 + w2 + sp2, IsPySpace) == w1 + sp1 + w2
  {
    var x := w1 + sp1 + w2;
    assert sp0 + w1 + sp1 + w2 + sp2 == sp0 + x + sp2;
    assert x[0] == w1[0] && x[|x| - 1] == w2[|w2| - 1];
    StripPadded(sp0, x, sp2, IsPySpace);
  }

  lemma JoinedNotDangerous(w1: string, w2: string)
    requires forall i :: 0 <= i < |w1| ==> !IsDangerous(w1[i])
    requires forall i :: 0 <= i < |w2| ==> !IsDangerous(w2[i])
    ensures !HasDangerous(w1 + " " + w2)
  {
    var r := w1 + " " + w2;
    forall i | 0 <= i < |r| ensures !IsDangerous(r[i]) {
      if i < |w1| {
        assert r[i] == w1[i];
      } else if i > |w1| {
        assert r[i] == w2[i - |w1| - 1];
      }
    }
  }

  // ---------------------------------------------------------------------
  // validate_number_range

  /** The value comes back unchanged exactly when it is an integer (a bool
      counts) inside the closed range. */
  function ValidateNumberRange(value: PyValue, minVal: int, maxVal: int, paramName: string): (r: Result<PyValue, ConfigError>)
    ensures r.Ok? <==> IsInt(value) && minVal <= IntValue(value) <= maxVal
    ensures r.Ok? ==> r.value == value
    ensures !IsInt(value) ==> r == Err(NotInteger(paramName))
    ensures IsInt(value) && !r.Ok? ==> r == Err(OutOfRange(paramName, minVal, maxVal, value))
  {
    if !IsInt(value) then Err(NotInteger(paramName))
    else if IntValue(value) < minVal || IntValue(value) > maxVal then
      Err(OutOfRange(paramName, minVal, maxVal, value))
    else Ok(value)
  }

  // ---------------------------------------------------------------------
  // validate_resolution

  const MaxResolutionValue := 10000

  /** `width, height = s.split('x')` followed by two `int()` calls. */
  function ParseResolutionText(s: string): (r: Option<(int, int)>)
    ensures r.Some? <==> |Split(s, 'x')| == 2 && ParseInt(Split(s, 'x')[0]).Some? && ParseInt(Split(s, 'x')[1]).Some?
    ensures r.Some? ==> r.value == (ParseInt(Split(s, 'x')[0]).value, ParseInt(Split(s, 'x')[1]).value)
  {
    var parts := Split(s, 'x');
    if |parts| != 2 then None
    else match (ParseInt(parts[0]), ParseInt(parts[1]))
      case (Some(w), Some(h)) => Some((w, h))
      case _ => None
  }

  /** The checks on the (width, height) pair, lines 93-106. */
  function CheckResolutionPair(res: PyValue): (r: Result<(int, int), ConfigError>)
    ensures r.Ok? <==> ((res.PyTuple? || res.PyList?) && |res.items| == 2 &&
                        IsInt(res.items[0]) && IsInt(res.items[1]) &&
                        0 <= IntValue(res.items[0]) <= MaxResolutionValue &&
                        0 <= IntValue(res.items[1]) <= MaxResolutionValue)
    ensures r.Ok? ==> r.value == (IntValue(res.items[0]), IntValue(res.items[1]))
  {
    if !(res.PyTuple? || res.PyList?) || |res.items| != 2 then Err(ResolutionNotPair)
    else if !IsInt(res.items[0]) || !IsInt(res.items[1]) then Err(ResolutionNotIntegers)
    else
      var width := IntValue(res.items[0]);
      var height := IntValue(res.items[1]);
      if width < 0 || height < 0 then Err(ResolutionNegative)
      else if width > MaxResolutionValue || height > MaxResolutionValue then Err(ResolutionTooLarge)
      else Ok((width, height))
  }

  function ValidateResolution(resolution: PyValue): (r: Result<(int, int), ConfigError>)
    ensures r.Ok? ==> 0 <= r.value.0 <= MaxResolutionValue && 0 <= r.value.1 <= MaxResolutionValue
    ensures resolution.PyStr? && r.Ok? ==> ParseResolutionText(resolution.s) == Some(r.value)
  {
    if resolution.PyStr? then
      var parsed := ParseResolutionText(resolution.s);
      if parsed.None? then Err(ResolutionFormat(resolution.s))
      else CheckResolutionPair(PyTuple([PyInt(parsed.value.0), PyInt(parsed.value.1)]))
    else CheckResolutionPair(resolution)
  }

  /** What `validate_resolution` returns: a string becomes a pair of ints; a
      tuple or list comes back as the pair it holds, its components as given
      (so `True` stays a bool). */
  function ResolutionValue(resolution: PyValue): (r: Result<PyValue, ConfigError>)
    ensures r.Ok? <==> ValidateResolution(resolution).Ok?
    ensures r.Err? ==> r.error == ValidateResolution(resolution).error
    ensures r.Ok? ==> r.value.PyTuple? && |r.value.items| == 2 && IsInt(r.value.items[0]) && IsInt(r.value.items[1])
    ensures r.Ok? ==> (IntValue(r.value.items[0]), IntValue(r.value.items[1])) == ValidateResolution(resolution).value
    ensures r.Ok? && resolution.PyStr? ==> r.value.items[0].PyInt? && r.value.items[1].PyInt?
    ensures r.Ok? && !resolution.PyStr? ==> r.value.items == resolution.items
  {
    match ValidateResolution(resolution)
    case Err(e) => Err(e)
    case Ok(p) =>
      if resolution.PyStr? then Ok(PyTuple([PyInt(p.0), PyInt(p.1)])) else Ok(PyTuple(resolution.items))
  }

  /** A string is accepted only with exactly one `x`. */
  lemma ResolutionTextOneX(s: string)
    requires ValidateResolution(PyStr(s)).Ok?
    ensures multiset(s)['x'] == 1
  {
    SplitInTwo(s, 'x');
  }

  /** `"{w}x{h}"` reads back as `(w, h)` inside the bounds. */
  lemma ValidateResolutionText(w: nat, h: nat)
    requires w <= MaxResolutionValue && h <= MaxResolutionValue
    ensures ValidateResolution(PyStr(NatToString(w) + "x" + NatToString(h))) == Ok((w, h))
  {
    var s := NatToString(w) + "x" + NatToString(h);
    assert Pow10(5) == 100000;
    NatToStringLength(w, 5);
    NatToStringLength(h, 5);
    ParseResolutionTextOf(w, h);
    assert ParseResolutionText(s) == Some((w, h));
    ResolutionFromText(s, w, h);
  }

  lemma ResolutionFromText(s: string, w: int, h: int)
    requires ParseResolutionText(s) == Some((w, h))
    requires 0 <= w <= MaxResolutionValue && 0 <= h <= MaxResolutionValue
    ensures ValidateResolution(PyStr(s)) == Ok((w, h))
  {
    assert ValidateResolution(PyStr(s)) == CheckResolutionPair(PyTuple([PyInt(w), PyInt(h)]));
    assert CheckResolutionPair(PyTuple([PyInt(w), PyInt(h)])) == Ok((w, h));
  }

  /** `"{w}x{h}"` parses back as `(w, h)` when neither has more digits than
      `int()` reads. */
  lemma ParseResolutionTextOf(w: nat, h: nat)
    requires |NatToString(w)| <= MaxStrDigits && |NatToString(h)| <= MaxStrDigits
    ensures ParseResolutionText(NatToString(w) + "x" + NatToString(h)) == Some((w, h))
  {
    var a := NatToString(w);
    var b := NatToString(h);
    NoXInDigits(a);
    NoXInDigits(b);
    assert a + "x" + b == a + ['x'] + b;
    SplitJoin(a, 'x', b);
    ParseIntOfNatToString(w);
    ParseIntOfNatToString(h);
  }

  /** A width of more than `MaxStrDigits` digits is refused, even one that
      denotes a small number after its leading zeros. */
  lemma ResolutionTextTooManyDigits(a: string, b: string)
    requires AllDigits(a) && |a| > MaxStrDigits && 'x' !in b
    ensures ParseResolutionText(a + ['x'] + b).None?
    ensures ValidateResolution(PyStr(a + ['x'] + b)).Err?
  {
    NoXInDigits(a);
    SplitJoin(a, 'x', b);
    ParseIntTooManyDigits(a);
  }

  /** A separator character (U+001C to U+001F) anywhere in the string makes
      one `int()` call raise, so `"\x1c800x600"` is refused, although
      `str.strip` counts that character as whitespace. */
  lemma ResolutionTextSeparator(s: string, k: nat)
    requires k < |s| && 0x1c <= s[k] as int <= 0x1f
    ensures ParseResolutionText(s).None?
    ensures ValidateResolution(PyStr(s)).Err?
  {
    SplitInTwo(s, 'x');
    var parts := Split(s, 'x');
    if |parts| == 2 {
      if k < |parts[0]| {
        assert parts[0][k] == s[k];
        ParseIntRefusesSeparators(parts[0], k);
      } else {
        assert k != |parts[0]| by { assert s[|parts[0]|] == 'x'; }
        assert parts[1][k - |parts[0]| - 1] == s[k];
        ParseIntRefusesSeparators(parts[1], k - |parts[0]| - 1);
      }
    }
  }

  lemma NoXInDigits(a: string)
    requires AllDigits(a)
    ensures 'x' !in a
  {
    assert forall i :: 0 <= i < |a| ==> a[i] != 'x';
  }

  /** A pair of integers is accepted exactly inside `[0, 10000]` on both axes,
      and comes back as it is. */
  lemma ValidateResolutionPair(w: int, h: int)
    ensures ValidateResolution(PyTuple([PyInt(w), PyInt(h)])).Ok? <==>
      0 <= w <= MaxResolutionValue && 0 <= h <= MaxResolutionValue
    ensures ValidateResolution(PyTuple([PyInt(w), PyInt(h)])).Ok? ==>
      ValidateResolution(PyTuple([PyInt(w), PyInt(h)])).value == (w, h)
  {
  }

  // ---------------------------------------------------------------------
  // validate_image_format

  const SupportedFormats: set<string> := {"jpg", "jpeg", "png", "webp", "gif", "bmp"}

  /** `format_str.lower().strip()`. */
  function NormalizeFormat(s: string): string {
    Strip(Lower(s), IsPySpace)
  }

  function ValidateImageFormat(formatStr: PyValue): (r: Result<string, ConfigError>)
    ensures r.Ok? <==> formatStr.PyStr? && formatStr.s != [] && NormalizeFormat(formatStr.s) in SupportedFormats
    ensures r.Ok? ==> r.value in SupportedFormats && r.value == NormalizeFormat(formatStr.s)
  {
    if !(formatStr.PyStr? && formatStr.s != []) then Err(FormatNotString)
    else
      var f := NormalizeFormat(formatStr.s);
      if f !in SupportedFormats then Err(UnsupportedFormat(f)) else Ok(f)
  }

  /** Normalising twice is normalising once. */
  lemma NormalizeFormatIdempotent(s: string)
    ensures NormalizeFormat(NormalizeFormat(s)) == NormalizeFormat(s)
  {
    var t := NormalizeFormat(s);
    LowerOfStripLower(s, IsPySpace);
    assert Lower(t) == t;
    StripIdentity(t, IsPySpace);
  }

  /** An accepted format validates to itself. */
  lemma ValidateImageFormatIdempotent(formatStr: PyValue)
    requires ValidateImageFormat(formatStr).Ok?
    ensures ValidateImageFormat(PyStr(ValidateImageFormat(formatStr).value)) == ValidateImageFormat(formatStr)
  {
    NormalizeFormatIdempotent(formatStr.s);
  }

  // ---------------------------------------------------------------------
  // validate_url_list

  const DefaultMaxUrlCount := 1000

  /** What the loop accepts: an http or https URL with a network location. */
  predicate IsWebUrl(url: string, lib: Library) {
    Parse(url, lib).Ok? && (Parse(url, lib).value.scheme == "http" || Parse(url, lib).value.scheme == "https") &&
    Parse(url, lib).value.netloc != []
  }

  /** An entry the loop lets through: a string that strips to nothing (it is
      skipped) or to a web URL. */
  predicate AcceptableEntry(item: PyValue, lib: Library) {
    item.PyStr? && (Strip(item.s, IsPySpace) == [] || IsWebUrl(Strip(item.s, IsPySpace), lib))
  }

  /** One pass of the loop body for the entry at index `i`: `None` when the
      entry is skipped, the stripped URL when it is kept. Every failure inside
      the `try` is re-raised as an invalid URL at that index. */
  function CheckUrlEntry(item: PyValue, i: nat, lib: Library): (r: Result<Option<string>, ConfigError>)
    ensures r.Ok? <==> AcceptableEntry(item, lib)
    ensures r.Ok? ==> r.value == (if Strip(item.s, IsPySpace) == [] then None else Some(Strip(item.s, IsPySpace)))
    ensures r.Err? && item.PyStr? ==> r.error.InvalidUrl? && r.error.index == i
  {
    if !item.PyStr? then Err(UrlNotString(i))
    else CheckStrippedUrl(Strip(item.s, IsPySpace), i, lib)
  }

  /** The loop body once the entry is a string and has been stripped. */
  function CheckStrippedUrl(url: string, i: nat, lib: Library): (r: Result<Option<string>, ConfigError>)
    ensures r.Ok? <==> url == [] || IsWebUrl(url, lib)
    ensures r.Ok? ==> r.value == (if url == [] then None else Some(url))
    ensures r.Err? ==> r.error.InvalidUrl? && r.error.index == i
  {
    if url == [] then Ok(None)
    else match Parse(url, lib)
      case Err(message) => Err(InvalidUrl(i, UrlParseFailed(message)))
      case Ok(parsed) => CheckParsedUrl(parsed, i, url)
  }

  /** The checks on a URL that parsed: a scheme and a network location, then
      an http or https scheme. */
  function CheckParsedUrl(parsed: Parsed, i: nat, url: string): (r: Result<Option<string>, ConfigError>)
    ensures r.Ok? <==> (parsed.scheme == "http" || parsed.scheme == "https") && parsed.netloc != []
    ensures r.Ok? ==> r.value == Some(url)
    ensures r.Err? ==> r.error.InvalidUrl? && r.error.index == i
  {
    if parsed.scheme == [] || parsed.netloc == [] then Err(InvalidUrl(i, MissingSchemeOrNetloc(i, url)))
    else if parsed.scheme != "http" && parsed.scheme != "https" then Err(InvalidUrl(i, NotHttp(i, url)))
    else Ok(Some(url))
  }

  /** The loop from index `i` on, given each entry's outcome, with `acc`
      validated so far: the first failure ends it. */
  function FoldEntries(rs: seq<Result<Option<string>, ConfigError>>, i: nat, acc: seq<string>): Result<seq<string>, ConfigError>
    requires i <= |rs|
    decreases |rs| - i
  {
    if i == |rs| then Ok(acc)
    else if rs[i].Err? then Err(rs[i].error)
    else FoldEntries(rs, i + 1, if rs[i].value.Some? then acc + [rs[i].value.value] else acc)
  }

  /** The outcome of the loop body for every entry. */
  function EntryChecks(items: seq<PyValue>, lib: Library): (rs: seq<Result<Option<string>, ConfigError>>)
    ensures |rs| == |items|
    ensures forall j :: 0 <= j < |items| ==> rs[j] == CheckUrlEntry(items[j], j, lib)
  {
    seq(|items|, j requires 0 <= j < |items| => CheckUrlEntry(items[j], j, lib))
  }

  /** The result of `validate_url_list(urls, max_count)`. */
  function ValidatedUrlList(urls: PyValue, maxCount: int, lib: Library): Result<seq<string>, ConfigError> {
    if !urls.PyList? then Err(UrlsNotList)
    else if |urls.items| > maxCount then Err(TooManyUrls(|urls.items|, maxCount))
    else FoldEntries(EntryChecks(urls.items, lib), 0, [])
  }

  /** The function as written: one pass over the list, appending. */
  method ValidateUrlList(urls: PyValue, maxCount: int, lib: Library) returns (r: Result<seq<string>, ConfigError>)
    ensures r == ValidatedUrlList(urls, maxCount, lib)
  {
    if !urls.PyList? {
      return Err(UrlsNotList);
    }
    if |urls.items| > maxCount {
      return Err(TooManyUrls(|urls.items|, maxCount));
    }
    ghost var rs := EntryChecks(urls.items, lib);
    var validatedUrls: seq<string> := [];
    for i := 0 to |urls.items|
      invariant FoldEntries(rs, i, validatedUrls) == ValidatedUrlList(urls, maxCount, lib)
    {
      var item := urls.items[i];
      assert rs[i] == CheckUrlEntry(item, i, lib);
      if !item.PyStr? {
        return Err(UrlNotString(i));
      }
      var url := Strip(item.s, IsPySpace);
      if url == [] {
        continue;
      }
      var parsed := Parse(url, lib);
      if parsed.Err? {
        return Err(InvalidUrl(i, UrlParseFailed(parsed.error)));
      }
      if parsed.value.scheme == [] || parsed.value.netloc == [] {
        return Err(InvalidUrl(i, MissingSchemeOrNetloc(i, url)));
      }
      if parsed.value.scheme != "http" && parsed.value.scheme != "https" {
        return Err(InvalidUrl(i, NotHttp(i, url)));
      }
      validatedUrls := validatedUrls + [url];
    }
    return Ok(validatedUrls);
  }

  /** The URLs a run of outcomes contributes. */
  function KeptFrom(rs: seq<Result<Option<string>, ConfigError>>, i: nat): seq<string>
    requires i <= |rs|
    decreases |rs| - i
  {
    if i == |rs| then []
    else (if rs[i].Ok? && rs[i].value.Some? then [rs[i].value.value] else []) + KeptFrom(rs, i + 1)
  }

  lemma {:induction false} FoldEntriesOk(rs: seq<Result<Option<string>, ConfigError>>, i: nat, acc: seq<string>)
    requires i <= |rs|
    ensures FoldEntries(rs, i, acc).Ok? <==> forall j :: i <= j < |rs| ==> rs[j].Ok?
    ensures FoldEntries(rs, i, acc).Ok? ==> FoldEntries(rs, i, acc).value == acc + KeptFrom(rs, i)
    decreases |rs| - i
  {
    if i < |rs| && rs[i].Ok? {
      var next := if rs[i].value.Some? then acc + [rs[i].value.value] else acc;
      FoldEntriesOk(rs, i + 1, next);
      if rs[i].value.Some? {
        assert next + KeptFrom(rs, i + 1) == acc + ([rs[i].value.value] + KeptFrom(rs, i + 1));
      } else {
        assert KeptFrom(rs, i) == [] + KeptFrom(rs, i + 1);
      }
    }
  }

  lemma {:induction false} FoldEntriesError(rs: seq<Result<Option<string>, ConfigError>>, i: nat, acc: seq<string>)
    requires i <= |rs|
    requires FoldEntries(rs, i, acc).Err?
    ensures exists j :: (i <= j < |rs| && rs[j].Err? && (forall k :: i <= k < j ==> rs[k].Ok?) &&
                         FoldEntries(rs, i, acc).error == rs[j].error)
    decreases |rs| - i
  {
    if rs[i].Ok? {
      var next := if rs[i].value.Some? then acc + [rs[i].value.value] else acc;
      FoldEntriesError(rs, i + 1, next);
    }
  }

  /** What one entry contributes, read off the input alone: a string entry,
      stripped, unless that leaves nothing. */
  function EntryUrl(item: PyValue): seq<string> {
    if item.PyStr? && Strip(item.s, IsPySpace) != [] then [Strip(item.s, IsPySpace)] else []
  }

  /** The concatenation of `ss[i..]`. */
  function ConcatFrom(ss: seq<seq<string>>, i: nat): seq<string>
    requires i <= |ss|
    decreases |ss| - i
  {
    if i == |ss| then [] else ss[i] + ConcatFrom(ss, i + 1)
  }

  /** The entries a successful run returns: every string entry, stripped,
      that is not empty, in input order. */
  function StrippedEntries(items: seq<PyValue>): seq<string> {
    ConcatFrom(EntryUrls(items), 0)
  }

  /** What each entry contributes, entry by entry. */
  function EntryUrls(items: seq<PyValue>): (ss: seq<seq<string>>)
    ensures |ss| == |items|
    ensures forall j :: 0 <= j < |items| ==> ss[j] == EntryUrl(items[j])
  {
    seq(|items|, j requires 0 <= j < |items| => EntryUrl(items[j]))
  }

  lemma KeptStripped(items: seq<PyValue>, i: nat, lib: Library)
    requires i <= |items|
    requires forall j :: i <= j < |items| ==> AcceptableEntry(items[j], lib)
    ensures KeptFrom(EntryChecks(items, lib), i) ==
            ConcatFrom(EntryUrls(items), i)
  {
    var rs := EntryChecks(items, lib);
    var ss := EntryUrls(items);
    forall j | i <= j < |items|
      ensures (if rs[j].Ok? && rs[j].value.Some? then [rs[j].value.value] else []) == ss[j]
    {
      EntryKept(rs[j], items[j], j, lib);
    }
    KeptFromConcat(rs, ss, i);
  }

  /** Keeping the values of the checks is concatenating the entries' parts
      when each check keeps its entry's part. */
  lemma {:induction false} KeptFromConcat(rs: seq<Result<Option<string>, ConfigError>>, ss: seq<seq<string>>, i: nat)
    requires i <= |rs| == |ss|
    requires forall j :: i <= j < |rs| ==>
      (if rs[j].Ok? && rs[j].value.Some? then [rs[j].value.value] else []) == ss[j]
    ensures KeptFrom(rs, i) == ConcatFrom(ss, i)
    decreases |rs| - i
  {
    if i < |rs| {
      KeptFromConcat(rs, ss, i + 1);
    }
  }

  /** An acceptable entry's check keeps exactly what `EntryUrl` reads off it. */
  lemma EntryKept(r: Result<Option<string>, ConfigError>, item: PyValue, i: nat, lib: Library)
    requires AcceptableEntry(item, lib) && r == CheckUrlEntry(item, i, lib)
    ensures (if r.Ok? && r.value.Some? then [r.value.value] else []) == EntryUrl(item)
  {
  }

  /** A URL as the validator hands it on: not empty, no surrounding
      whitespace, and a web URL. */
  predicate CleanWebUrl(u: string, lib: Library) {
    u != [] && !IsPySpace(u[0]) && !IsPySpace(u[|u| - 1]) && IsWebUrl(u, lib)
  }

  lemma EntryUrlClean(item: PyValue, lib: Library)
    requires AcceptableEntry(item, lib)
    ensures forall u :: u in EntryUrl(item) ==> CleanWebUrl(u, lib)
  {
  }

  lemma {:induction false} ConcatFromAll(ss: seq<seq<string>>, i: nat, ok: string -> bool)
    requires i <= |ss|
    requires forall j, u :: i <= j < |ss| && u in ss[j] ==> ok(u)
    ensures forall u :: u in ConcatFrom(ss, i) ==> ok(u)
    decreases |ss| - i
  {
    if i < |ss| {
      ConcatFromAll(ss, i + 1, ok);
    }
  }

  /** The list is accepted exactly when it is a list no longer than
      `max_count` whose every entry is a string that strips to nothing or to a
      web URL; a longer list is refused before any entry is looked at. */
  lemma ValidatedUrlListAccepts(urls: PyValue, maxCount: int, lib: Library)
    ensures ValidatedUrlList(urls, maxCount, lib).Ok? <==>
      urls.PyList? && |urls.items| <= maxCount && forall j :: 0 <= j < |urls.items| ==> AcceptableEntry(urls.items[j], lib)
    ensures urls.PyList? && |urls.items| > maxCount ==> ValidatedUrlList(urls, maxCount, lib) == Err(TooManyUrls(|urls.items|, maxCount))
  {
    if urls.PyList? && |urls.items| <= maxCount {
      var rs := EntryChecks(urls.items, lib);
      FoldEntriesOk(rs, 0, []);
      assert FoldEntries(rs, 0, []).Ok? <==> forall j :: 0 <= j < |rs| ==> rs[j].Ok?;
      assert forall j :: 0 <= j < |rs| ==> (rs[j].Ok? <==> AcceptableEntry(urls.items[j], lib));
    }
  }

  /** An accepted list comes back as its stripped non-empty entries, in input
      order, each a web URL with no surrounding whitespace. */
  lemma ValidatedUrlListValue(urls: PyValue, maxCount: int, lib: Library)
    requires ValidatedUrlList(urls, maxCount, lib).Ok?
    ensures ValidatedUrlList(urls, maxCount, lib).value == StrippedEntries(urls.items)
    ensures forall u :: u in ValidatedUrlList(urls, maxCount, lib).value ==> CleanWebUrl(u, lib)
  {
    ValidatedUrlListAccepts(urls, maxCount, lib);
    var rs := EntryChecks(urls.items, lib);
    FoldEntriesOk(rs, 0, []);
    KeptStripped(urls.items, 0, lib);
    assert ValidatedUrlList(urls, maxCount, lib) == FoldEntries(rs, 0, []);
    assert FoldEntries(rs, 0, []).value == [] + KeptFrom(rs, 0);
    var ss := EntryUrls(urls.items);
    forall j | 0 <= j < |ss| {
      EntryUrlClean(urls.items[j], lib);
    }
    ConcatFromAll(ss, 0, u => CleanWebUrl(u, lib));
  }

  /** A failure is the one of the first entry that is not acceptable, at its
      own index. */
  lemma ValidatedUrlListFirstError(urls: PyValue, maxCount: int, lib: Library)
    requires urls.PyList? && |urls.items| <= maxCount
    requires ValidatedUrlList(urls, maxCount, lib).Err?
    ensures exists j :: (0 <= j < |urls.items| && !AcceptableEntry(urls.items[j], lib) &&
                         (forall k :: 0 <= k < j ==> AcceptableEntry(urls.items[k], lib)) &&
                         ValidatedUrlList(urls, maxCount, lib).error == CheckUrlEntry(urls.items[j], j, lib).error)
  {
    var rs := EntryChecks(urls.items, lib);
    FoldEntriesError(rs, 0, []);
    var j :| 0 <= j < |rs| && rs[j].Err? && (forall k :: 0 <= k < j ==> rs[k].Ok?) &&
             FoldEntries(rs, 0, []).error == rs[j].error;
    assert rs[j] == CheckUrlEntry(urls.items[j], j, lib);
    assert !AcceptableEntry(urls.items[j], lib);
    forall k | 0 <= k < j
      ensures AcceptableEntry(urls.items[k], lib)
    {
      assert rs[k] == CheckUrlEntry(urls.items[k], k, lib);
    }
    assert ValidatedUrlList(urls, maxCount, lib) == FoldEntries(rs, 0, []);
  }

  /** A URL whose host a check of `urlsplit` rejects is refused at its index,
      with the parser's own message. */
  lemma RejectedHostRefused(scheme: string, host: string, path: string, i: nat, lib: Library)
    requires IsLetters(scheme) && IsHostText(host) && IsPlainPath(path)
    requires NetlocError(host, lib).Some?
    ensures CheckStrippedUrl(scheme + "://" + host + path, i, lib) ==
            Err(InvalidUrl(i, UrlParseFailed(NetlocError(host, lib).value)))
  {
    ParseParts(scheme, host, path, lib);
  }

  /** `http://a[::1]/x.jpg` is refused at its index: text before the `[`. */
  lemma TextBeforeBracketRefused(scheme: string, before: string, rest: string, path: string, i: nat, lib: Library)
    requires IsLetters(scheme) && IsPlainPath(path) && IsHostText(before) && IsHostText(rest)
    requires before != [] && '[' !in before && '@' !in before && '@' !in rest && ']' in rest
    ensures CheckStrippedUrl(scheme + "://" + (before + ['['] + rest) + path, i, lib) ==
            Err(InvalidUrl(i, UrlParseFailed("Invalid IPv6 URL")))
  {
    TextBeforeBracket(before, rest, lib);
    BracketJoinHostText(before, rest);
    RejectedHostRefused(scheme, before + ['['] + rest, path, i, lib);
  }

  /** `http://a\U{2100}b/x.jpg` is refused when U+2100 normalises to `a/c`. */
  lemma NfkcHostRefused(scheme: string, host: string, path: string, i: nat, lib: Library)
    requires scheme == "http" && host == "a\U{2100}b" && path == "/x.jpg"
    requires lib.nfkc(host) == "aa/cb"
    ensures CheckStrippedUrl(scheme + "://" + host + path, i, lib).Err?
    ensures !IsWebUrl(scheme + "://" + host + path, lib)
  {
    NfkcHostRejected(host, lib);
    HttpPathParts(scheme, path);
    RejectedHostRefused(scheme, host, path, i, lib);
  }

  // ---------------------------------------------------------------------
  // sanitize_filename

  /** `sanitize_filename`'s fallback name and default length. */
  const Unnamed := "unnamed"
  const DefaultMaxFilenameLength := 200

  /** The class `[<>:"/\\|?*\0]`, replaced by `_`. */
  predicate IsForbiddenFileChar(c: char) {
    c == '<' || c == '>' || c == ':' || c == '"' || c == '/' || c == '\\' || c == '|' ||
    c == '?' || c == '*' || c == '\0'
  }

  /** The class `[\x00-\x1f\x7f-\x9f]`, removed. */
  predicate IsControlChar(c: char) {
    c as int <= 0x1f || (0x7f <= c as int <= 0x9f)
  }

  /** The class `[_\s]`, whose runs collapse to one `_`. */
  predicate IsUnderscoreOrSpace(c: char) {
    c == '_' || IsPySpace(c)
  }

  /** The characters `strip('_. ')` and `rstrip('_. ')` take off. */
  predicate IsEdgeChar(c: char) {
    c == '_' || c == '.' || c == ' '
  }

  /** The four rewriting steps before the length cap, in order. */
  function CleanFilename(filename: string): string {
    var replaced := ReplaceClass(filename, IsForbiddenFileChar, '_');
    var visible := RemoveClass(replaced, IsControlChar);
    var collapsed := CollapseRuns(visible, IsUnderscoreOrSpace, '_');
    Strip(collapsed, IsEdgeChar)
  }

  /** `sanitize_filename(filename, max_length)`; the slice `[:max_length]`
      follows Python for a negative bound too. */
  function SanitizeFilename(filename: string, maxLength: int): string {
    if filename == [] then Unnamed else CapFilename(CleanFilename(filename), maxLength)
  }

  /** The length cap and the fallback for a name that ends up empty. */
  function CapFilename(sanitized: string, maxLength: int): string {
    var capped := if |sanitized| > maxLength then StripRight(SliceTo(sanitized, maxLength), IsEdgeChar) else sanitized;
    if capped == [] then Unnamed else capped
  }

  /** A character a sanitized name may hold. */
  predicate SafeFileChar(c: char) {
    !IsForbiddenFileChar(c) && !IsControlChar(c) && !IsPySpace(c)
  }

  /** Only safe characters and no `__`: what every substring keeps. */
  predicate CleanRun(s: string) {
    (forall i :: 0 <= i < |s| ==> SafeFileChar(s[i])) &&
    (forall i :: 0 <= i < |s| - 1 ==> !(s[i] == '_' && s[i + 1] == '_'))
  }

  /** What `sanitize_filename` promises: a non-empty name of safe characters,
      with no `__`, that neither starts nor ends with `_`, `.` or a space. */
  predicate SafeFilename(s: string) {
    s != [] && CleanRun(s) && !IsEdgeChar(s[0]) && !IsEdgeChar(s[|s| - 1])
  }

  lemma CleanRunSlice(s: string, i: nat, j: nat)
    requires CleanRun(s) && i <= j <= |s|
    ensures CleanRun(s[i..j])
  {
    var t := s[i..j];
    assert forall k :: 0 <= k < |t| ==> t[k] == s[i + k];
  }

  /** `strip` leaves a contiguous piece of its input. */
  lemma StripIsSlice(s: string, cls: char -> bool) returns (k: nat)
    ensures k + |Strip(s, cls)| <= |s| && Strip(s, cls) == s[k..k + |Strip(s, cls)|]
  {
    var l := StripLeft(s, cls);
    k := |s| - |l|;
    var r := StripRight(l, cls);
    assert r == Strip(s, cls);
    assert l == s[k..];
    SlicePrefix(s, k, |r|);
  }

  lemma SlicePrefix(s: string, k: nat, n: nat)
    requires k + n <= |s|
    ensures s[k..][..n] == s[k..k + n]
  {
  }

  /** The first two steps leave neither forbidden nor control characters. */
  lemma VisibleChars(filename: string)
    ensures var v := RemoveClass(ReplaceClass(filename, IsForbiddenFileChar, '_'), IsControlChar);
      forall i :: 0 <= i < |v| ==> !IsForbiddenFileChar(v[i]) && !IsControlChar(v[i])
  {
  }

  /** Collapsing `[_\s]+` then removes whitespace and `__`. */
  lemma CollapsedClean(v: string)
    requires forall i :: 0 <= i < |v| ==> !IsForbiddenFileChar(v[i]) && !IsControlChar(v[i])
    ensures CleanRun(CollapseRuns(v, IsUnderscoreOrSpace, '_'))
  {
    var collapsed := CollapseRuns(v, IsUnderscoreOrSpace, '_');
    CollapseRunsSeparated(v, IsUnderscoreOrSpace, '_');
    CollapseRunsChars(v, IsUnderscoreOrSpace, '_');
    forall i | 0 <= i < |collapsed|
      ensures SafeFileChar(collapsed[i])
    {
      if collapsed[i] != '_' {
        assert collapsed[i] in v && !IsUnderscoreOrSpace(collapsed[i]);
      }
    }
    forall i | 0 <= i < |collapsed| - 1
      ensures !(collapsed[i] == '_' && collapsed[i + 1] == '_')
    {
      assert !(IsUnderscoreOrSpace(collapsed[i]) && IsUnderscoreOrSpace(collapsed[i + 1]));
    }
  }

  /** Stripping keeps a clean run clean and clears its ends. */
  lemma StrippedClean(c: string)
    requires CleanRun(c)
    ensures CleanRun(Strip(c, IsEdgeChar))
    ensures Strip(c, IsEdgeChar) == [] || (!IsEdgeChar(Strip(c, IsEdgeChar)[0]) && !IsEdgeChar(Strip(c, IsEdgeChar)[|Strip(c, IsEdgeChar)| - 1]))
  {
    var k := StripIsSlice(c, IsEdgeChar);
    CleanRunSlice(c, k, k + |Strip(c, IsEdgeChar)|);
  }

  /** The rewriting steps leave a clean run. */
  lemma CleanFilenameClean(filename: string)
    ensures CleanRun(CleanFilename(filename))
    ensures CleanFilename(filename) == [] ||
            (!IsEdgeChar(CleanFilename(filename)[0]) && !IsEdgeChar(CleanFilename(filename)[|CleanFilename(filename)| - 1]))
  {
    var v := RemoveClass(ReplaceClass(filename, IsForbiddenFileChar, '_'), IsControlChar);
    VisibleChars(filename);
    CollapsedClean(v);
    StrippedClean(CollapseRuns(v, IsUnderscoreOrSpace, '_'));
  }

  /** The capped name is safe, and within the bound unless it is the
      fallback. */
  lemma CapFilenameSafe(s: string, maxLength: int)
    requires CleanRun(s) && (s == [] || (!IsEdgeChar(s[0]) && !IsEdgeChar(s[|s| - 1])))
    ensures SafeFilename(CapFilename(s, maxLength))
    ensures maxLength >= 0 ==> |CapFilename(s, maxLength)| <= maxLength || CapFilename(s, maxLength) == Unnamed
  {
    UnnamedSafe();
    if |s| > maxLength {
      var p := SliceTo(s, maxLength);
      CleanRunSlice(s, 0, |p|);
      var c := StripRight(p, IsEdgeChar);
      CleanRunSlice(p, 0, |c|);
      assert c == p[..|c|];
    }
  }

  lemma UnnamedSafe()
    ensures SafeFilename(Unnamed) && |Unnamed| == 7
  {
    assert Unnamed == ['u', 'n', 'n', 'a', 'm', 'e', 'd'];
  }

  /** The result is always a safe name, and it is no longer than `max_length`
      unless it is the fallback `"unnamed"`. */
  lemma SanitizeFilenameSafe(filename: string, maxLength: int)
    ensures SafeFilename(SanitizeFilename(filename, maxLength))
    ensures maxLength >= 0 ==> |SanitizeFilename(filename, maxLength)| <= maxLength || SanitizeFilename(filename, maxLength) == Unnamed
  {
    UnnamedSafe();
    if filename != [] {
      CleanFilenameClean(filename);
      CapFilenameSafe(CleanFilename(filename), maxLength);
    }
  }

  /** Each rewriting step leaves a safe name as it is. */
  lemma CleanFilenameKeepsSafe(s: string)
    requires SafeFilename(s)
    ensures CleanFilename(s) == s
  {
    var replaced := ReplaceClass(s, IsForbiddenFileChar, '_');
    assert replaced == s;
    var visible := RemoveClass(replaced, IsControlChar);
    assert visible == s;
    assert NoAdjacentRuns(s, IsUnderscoreOrSpace);
    CollapseRunsIdentity(s, IsUnderscoreOrSpace, '_');
    StripIdentity(s, IsEdgeChar);
  }

  /** A safe name that fits is returned unchanged. */
  lemma SanitizeFilenameKeepsSafe(s: string, maxLength: int)
    requires SafeFilename(s) && |s| <= maxLength
    ensures SanitizeFilename(s, maxLength) == s
  {
    CleanFilenameKeepsSafe(s);
  }

  /** Sanitizing twice is sanitizing once, once the fallback fits. */
  lemma SanitizeFilenameIdempotent(filename: string, maxLength: int)
    requires maxLength >= 7
    ensures SanitizeFilename(SanitizeFilename(filename, maxLength), maxLength) == SanitizeFilename(filename, maxLength)
  {
    SanitizeFilenameSafe(filename, maxLength);
    UnnamedSafe();
    SanitizeFilenameKeepsSafe(SanitizeFilename(filename, maxLength), maxLength);
  }

  // ---------------------------------------------------------------------
  // ConfigValidator.validate_scraping_config

  /** The keys the validator recognises. */
  datatype Field =
    | NumberOfImages | MaxMissed | MinResolution | MaxResolution | PhotosDir | JsonDir
    | ImageSaveFormat | TimeoutSeconds | Headless | KeepFilenames

  function FieldName(f: Field): string {
    match f
    case NumberOfImages => "number_of_images"
    case MaxMissed => "max_missed"
    case MinResolution => "min_resolution"
    case MaxResolution => "max_resolution"
    case PhotosDir => "photos_dir"
    case JsonDir => "json_dir"
    case ImageSaveFormat => "image_save_format"
    case TimeoutSeconds => "timeout_seconds"
    case Headless => "headless"
    case KeepFilenames => "keep_filenames"
  }

  /** The order in which the fields are checked; `bool_fields` are the last two. */
  const FieldOrder: seq<Field> :=
    [NumberOfImages, MaxMissed, MinResolution, MaxResolution, PhotosDir, JsonDir,
     ImageSaveFormat, TimeoutSeconds, Headless, KeepFilenames]
  const BoolFields: seq<string> := ["headless", "keep_filenames"]

  function FieldNames(): (names: seq<string>)
    ensures |names| == |FieldOrder|
    ensures forall j :: 0 <= j < |FieldOrder| ==> names[j] == FieldName(FieldOrder[j])
  {
    seq(|FieldOrder|, j requires 0 <= j < |FieldOrder| => FieldName(FieldOrder[j]))
  }

  lemma FieldNameInjective(f: Field, g: Field)
    requires FieldName(f) == FieldName(g)
    ensures f == g
  {
    // the names differ in length or in their first four characters
    var a, b := FieldName(f), FieldName(g);
    assert |a| == |b| && a[..4] == b[..4];
  }

  lemma FieldOrderComplete(f: Field)
    ensures f in FieldOrder
  {
  }

  lemma FieldNamesDistinct()
    ensures forall j, k :: 0 <= j < k < |FieldOrder| ==> FieldNames()[j] != FieldNames()[k]
  {
    forall j, k | 0 <= j < k < |FieldOrder|
      ensures FieldNames()[j] != FieldNames()[k]
    {
      if FieldNames()[j] == FieldNames()[k] {
        FieldNameInjective(FieldOrder[j], FieldOrder[k]);
      }
    }
  }

  /** The least integer `float()` refuses: 2^1024 - 2^970, halfway between the
      largest double, (2^53 - 1) * 2^971, and 2^1024, which rounds up. From it
      on, `float(n)` raises `OverflowError`. */
  const FloatIntLimit: int :=
    0xFFFF_FFFF_FFFF_FC00_0000_0000_0000_0000_0000_0000_0000_0000_0000_0000_0000_0000_0000_0000_0000_0000_0000_0000_0000_0000_0000_0000_0000_0000_0000_0000_0000_0000_0000_0000_0000_0000_0000_0000_0000_0000_0000_0000_0000_0000_0000_0000_0000_0000_0000_0000_0000_0000_0000_0000_0000_0000_0000_0000_0000_0000_0000_0000_0000_0000

  /** `isinstance(v, (int, float))` and the number it stands for. */
  predicate IsNumber(v: PyValue) { IsInt(v) || v.PyFloat? }

  function NumberValue(v: PyValue): real
    requires IsNumber(v)
  {
    if v.PyFloat? then v.f else IntValue(v) as real
  }

  /** What the validator stores for one present key, or why it raises;
      `validate_file_path` is the parameter `validatePath`. The `OverflowError`
      of `float(timeout)` for a huge integer is not caught either. */
  function ValidateField(f: Field, value: PyValue, validatePath: PyValue -> Result<PyValue, ConfigError>): Result<PyValue, ConfigError>
  {
    match f
    case NumberOfImages => ValidateNumberRange(value, 1, 1000, "number_of_images")
    case MaxMissed => ValidateNumberRange(value, 1, 100, "max_missed")
    case MinResolution | MaxResolution => ResolutionValue(value)
    case PhotosDir | JsonDir => validatePath(value)
    case ImageSaveFormat =>
      (match ValidateImageFormat(value)
       case Ok(s) => Ok(PyStr(s))
       case Err(e) => Err(e))
    case TimeoutSeconds =>
      if !IsNumber(value) || NumberValue(value) <= 0.0 then Err(TimeoutNotPositive)
      else if IsInt(value) && IntValue(value) >= FloatIntLimit then Err(FloatOverflow)
      else Ok(PyFloat(NumberValue(value)))
    case Headless | KeepFilenames =>
      if !value.PyBool? then Err(NotBoolean(FieldName(f))) else Ok(value)
  }

  /** What each field accepts and what it stores: the counts must be
      integers in range and are kept as given, resolutions become in-range
      integer pairs, the paths are what `validate_file_path` returns, the
      format is a supported name, the timeout a positive number (stored as a
      float), and the two flags must be bools. */
  lemma ValidateFieldSpec(f: Field, value: PyValue, validatePath: PyValue -> Result<PyValue, ConfigError>)
    ensures var r := ValidateField(f, value, validatePath);
      f == NumberOfImages ==> (r.Ok? <==> IsInt(value) && 1 <= IntValue(value) <= 1000)
    ensures var r := ValidateField(f, value, validatePath);
      f == MaxMissed ==> (r.Ok? <==> IsInt(value) && 1 <= IntValue(value) <= 100)
    ensures var r := ValidateField(f, value, validatePath);
      (f == NumberOfImages || f == MaxMissed || f == Headless || f == KeepFilenames) && r.Ok? ==> r.value == value
    ensures var r := ValidateField(f, value, validatePath);
      (f == MinResolution || f == MaxResolution) && r.Ok? ==>
        (r.value.PyTuple? && |r.value.items| == 2 && IsInt(r.value.items[0]) && IsInt(r.value.items[1]) &&
         0 <= IntValue(r.value.items[0]) <= MaxResolutionValue && 0 <= IntValue(r.value.items[1]) <= MaxResolutionValue)
    ensures var r := ValidateField(f, value, validatePath);
      (f == MinResolution || f == MaxResolution) && r.Ok? && !value.PyStr? ==> r.value.items == value.items
    ensures var r := ValidateField(f, value, validatePath);
      (f == PhotosDir || f == JsonDir) ==> r == validatePath(value)
    ensures var r := ValidateField(f, value, validatePath);
      f == ImageSaveFormat && r.Ok? ==> r.value.PyStr? && r.value.s in SupportedFormats
    ensures var r := ValidateField(f, value, validatePath);
      f == TimeoutSeconds ==>
        (r.Ok? <==> IsNumber(value) && NumberValue(value) > 0.0 && !(IsInt(value) && IntValue(value) >= FloatIntLimit))
    ensures var r := ValidateField(f, value, validatePath);
      f == TimeoutSeconds && r.Ok? ==> r == Ok(PyFloat(NumberValue(value)))
    ensures var r := ValidateField(f, value, validatePath);
      f == TimeoutSeconds && IsNumber(value) && NumberValue(value) > 0.0 && !r.Ok? ==> r == Err(FloatOverflow)
    ensures var r := ValidateField(f, value, validatePath);
      f == TimeoutSeconds && !(IsNumber(value) && NumberValue(value) > 0.0) ==> r == Err(TimeoutNotPositive)
    ensures var r := ValidateField(f, value, validatePath);
      (f == Headless || f == KeepFilenames) ==> r == if value.PyBool? then Ok(value) else Err(NotBoolean(FieldName(f)))
  {
  }

  /** A pair within bounds is stored as the tuple it was, components
      untouched: a `True` width stays `True`. */
  lemma ResolutionKeepsComponents(w: PyValue, h: PyValue, validatePath: PyValue -> Result<PyValue, ConfigError>)
    requires IsInt(w) && IsInt(h)
    requires 0 <= IntValue(w) <= MaxResolutionValue && 0 <= IntValue(h) <= MaxResolutionValue
    ensures ValidateField(MinResolution, PyTuple([w, h]), validatePath) == Ok(PyTuple([w, h]))
    ensures ValidateField(MaxResolution, PyList([w, h]), validatePath) == Ok(PyTuple([w, h]))
  {
  }

  /** The timeout overflows exactly from `FloatIntLimit` on: one less is
      stored, the limit itself raises. */
  lemma TimeoutOverflowBoundary(validatePath: PyValue -> Result<PyValue, ConfigError>)
    ensures ValidateField(TimeoutSeconds, PyInt(FloatIntLimit - 1), validatePath) == Ok(PyFloat((FloatIntLimit - 1) as real))
    ensures ValidateField(TimeoutSeconds, PyInt(FloatIntLimit), validatePath) == Err(FloatOverflow)
  {
  }

  /** The outcome for each field in order: `None` for a key not present. */
  function ConfigOutcomes(config: map<string, PyValue>, validatePath: PyValue -> Result<PyValue, ConfigError>)
    : (outs: seq<Option<Result<PyValue, ConfigError>>>)
    ensures |outs| == |FieldOrder|
  {
    seq(|FieldOrder|, j requires 0 <= j < |FieldOrder| =>
      if FieldName(FieldOrder[j]) in config
      then Some(ValidateField(FieldOrder[j], config[FieldName(FieldOrder[j])], validatePath))
      else None)
  }

  lemma OutcomeAt(config: map<string, PyValue>, validatePath: PyValue -> Result<PyValue, ConfigError>, j: nat)
    requires j < |FieldOrder|
    ensures ConfigOutcomes(config, validatePath)[j] ==
      if FieldName(FieldOrder[j]) in config
      then Some(ValidateField(FieldOrder[j], config[FieldName(FieldOrder[j])], validatePath))
      else None
  {
  }

  /** One `if key in config_dict:` block: an absent key leaves `validated`
      alone, a failing validator stops everything, a passing one stores its
      result under the key. */
  function StoreField(name: string, out: Option<Result<PyValue, ConfigError>>, validated: map<string, PyValue>)
    : Result<map<string, PyValue>, ConfigError>
  {
    match out
    case None => Ok(validated)
    case Some(Err(e)) => Err(e)
    case Some(Ok(v)) => Ok(validated[name := v])
  }

  /** Filling `validated` from field `i` on: the first failure ends it. */
  function FoldFields(names: seq<string>, outs: seq<Option<Result<PyValue, ConfigError>>>, i: nat,
                      validated: map<string, PyValue>): Result<map<string, PyValue>, ConfigError>
    requires |names| == |outs| && i <= |outs|
    decreases |outs| - i
  {
    if i == |outs| then Ok(validated)
    else
      match StoreField(names[i], outs[i], validated)
      case Err(e) => Err(e)
      case Ok(m) => FoldFields(names, outs, i + 1, m)
  }

  /** The result of `validate_scraping_config(config_dict)`. */
  function ValidatedConfig(config: map<string, PyValue>, validatePath: PyValue -> Result<PyValue, ConfigError>)
    : Result<map<string, PyValue>, ConfigError>
  {
    FoldFields(FieldNames(), ConfigOutcomes(config, validatePath), 0, map[])
  }

  /** The outcome of field `f` for this configuration. */
  function FieldOutcome(config: map<string, PyValue>, validatePath: PyValue -> Result<PyValue, ConfigError>, f: Field)
    : Option<Result<PyValue, ConfigError>>
  {
    if FieldName(f) in config then Some(ValidateField(f, config[FieldName(f)], validatePath)) else None
  }

  lemma ConfigStep(config: map<string, PyValue>, validatePath: PyValue -> Result<PyValue, ConfigError>, i: nat,
                   validated: map<string, PyValue>)
    requires i < |FieldOrder|
    ensures FoldFields(FieldNames(), ConfigOutcomes(config, validatePath), i, validated) ==
      match StoreField(FieldName(FieldOrder[i]), FieldOutcome(config, validatePath, FieldOrder[i]), validated)
      case Err(e) => Err(e)
      case Ok(m) => FoldFields(FieldNames(), ConfigOutcomes(config, validatePath), i + 1, m)
  {
    OutcomeAt(config, validatePath, i);
  }

  /** The check inside the block for key `f`: what its validator returns
      for the value found under the key. */
  method CheckValue(f: Field, value: PyValue, validatePath: PyValue -> Result<PyValue, ConfigError>)
    returns (v: Result<PyValue, ConfigError>)
    ensures v == ValidateField(f, value, validatePath)
  {
    match f {
      case NumberOfImages =>
        v := ValidateNumberRange(value, 1, 1000, "number_of_images");
        assert v == ValidateField(NumberOfImages, value, validatePath);
      case MaxMissed =>
        v := ValidateNumberRange(value, 1, 100, "max_missed");
        assert v == ValidateField(MaxMissed, value, validatePath);
      case MinResolution =>
        v := ResolutionValue(value);
        assert v == ValidateField(MinResolution, value, validatePath);
      case MaxResolution =>
        v := ResolutionValue(value);
        assert v == ValidateField(MaxResolution, value, validatePath);
      case PhotosDir =>
        v := validatePath(value);
        assert v == ValidateField(PhotosDir, value, validatePath);
      case JsonDir =>
        v := validatePath(value);
        assert v == ValidateField(JsonDir, value, validatePath);
      case ImageSaveFormat =>
        var fmt := ValidateImageFormat(value);
        v := if fmt.Err? then Err(fmt.error) else Ok(PyStr(fmt.value));
        assert v == ValidateField(ImageSaveFormat, value, validatePath);
      case TimeoutSeconds =>
        v := if !IsNumber(value) || NumberValue(value) <= 0.0 then Err(TimeoutNotPositive)
             else if IsInt(value) && IntValue(value) >= FloatIntLimit then Err(FloatOverflow)
             else Ok(PyFloat(NumberValue(value)));
        assert v == ValidateField(TimeoutSeconds, value, validatePath);
      case Headless =>
        v := if !value.PyBool? then Err(NotBoolean(FieldName(f))) else Ok(value);
        assert v == ValidateField(Headless, value, validatePath);
      case KeepFilenames =>
        v := if !value.PyBool? then Err(NotBoolean(FieldName(f))) else Ok(value);
        assert v == ValidateField(KeepFilenames, value, validatePath);
    }
  }

  /** The block for one key: store what its validator returns under the key,
      or stop with the validator's error. */
  method ValidateKey(configDict: map<string, PyValue>, validatePath: PyValue -> Result<PyValue, ConfigError>,
                     f: Field, validated: map<string, PyValue>)
    returns (r: Result<map<string, PyValue>, ConfigError>)
    ensures r == StoreField(FieldName(f), FieldOutcome(configDict, validatePath, f), validated)
  {
    var key := FieldName(f);
    if key !in configDict {
      return Ok(validated);
    }
    var v := CheckValue(f, configDict[key], validatePath);
    if v.Err? {
      return Err(v.error);
    }
    return Ok(validated[key := v.value]);
  }

  /** The function as written: the block of each of the first eight keys in
      order, then the loop over `bool_fields`. */
  method ValidateScrapingConfig(configDict: map<string, PyValue>, validatePath: PyValue -> Result<PyValue, ConfigError>)
    returns (r: Result<map<string, PyValue>, ConfigError>)
    ensures r == ValidatedConfig(configDict, validatePath)
  {
    ghost var names := FieldNames();
    ghost var outs := ConfigOutcomes(configDict, validatePath);
    var validated: map<string, PyValue> := map[];
    // the eight blocks before `bool_fields`, one key each, in source order
    for k := 0 to 8
      invariant FoldFields(names, outs, k, validated) == ValidatedConfig(configDict, validatePath)
    {
      ConfigStep(configDict, validatePath, k, validated);
      r := ValidateKey(configDict, validatePath, FieldOrder[k], validated);
      if r.Err? {
        return;
      }
      validated := r.value;
    }
    for j := 0 to |BoolFields|
      invariant FoldFields(names, outs, 8 + j, validated) == ValidatedConfig(configDict, validatePath)
    {
      var field := BoolFields[j];
      ConfigStep(configDict, validatePath, 8 + j, validated);
      assert FieldName(FieldOrder[8 + j]) == field;
      if field in configDict {
        if !configDict[field].PyBool? {
          return Err(NotBoolean(field));
        }
        validated := validated[field := configDict[field]];
      }
    }
    return Ok(validated);
  }

  /** The keys filled from field `i` on. */
  function PresentNames(names: seq<string>, outs: seq<Option<Result<PyValue, ConfigError>>>, i: nat): set<string>
    requires |names| == |outs|
  {
    set j | i <= j < |outs| && outs[j].Some? :: names[j]
  }

  lemma {:induction false} FoldFieldsOk(names: seq<string>, outs: seq<Option<Result<PyValue, ConfigError>>>, i: nat,
                                        acc: map<string, PyValue>)
    requires |names| == |outs| && i <= |outs|
    ensures FoldFields(names, outs, i, acc).Ok? <==> forall j :: i <= j < |outs| && outs[j].Some? ==> outs[j].value.Ok?
    decreases |outs| - i
  {
    if i < |outs| {
      match outs[i]
      case None => FoldFieldsOk(names, outs, i + 1, acc);
      case Some(Err(_)) =>
      case Some(Ok(v)) => FoldFieldsOk(names, outs, i + 1, acc[names[i] := v]);
    }
  }

  lemma {:induction false} FoldFieldsValue(names: seq<string>, outs: seq<Option<Result<PyValue, ConfigError>>>, i: nat,
                                           acc: map<string, PyValue>)
    requires |names| == |outs| && i <= |outs|
    requires forall j, k :: i <= j < k < |outs| ==> names[j] != names[k]
    requires FoldFields(names, outs, i, acc).Ok?
    ensures FoldFields(names, outs, i, acc).value.Keys == acc.Keys + PresentNames(names, outs, i)
    ensures forall j :: i <= j < |outs| && outs[j].Some? && outs[j].value.Ok? ==>
      FoldFields(names, outs, i, acc).value[names[j]] == outs[j].value.value
    ensures forall k :: k in acc && k !in PresentNames(names, outs, i) ==> FoldFields(names, outs, i, acc).value[k] == acc[k]
    decreases |outs| - i
  {
    if i == |outs| {
      assert PresentNames(names, outs, i) == {};
    } else {
      match outs[i]
      case None =>
        FoldFieldsValue(names, outs, i + 1, acc);
        assert PresentNames(names, outs, i) == PresentNames(names, outs, i + 1);
      case Some(Ok(v)) =>
        var next := acc[names[i] := v];
        FoldFieldsValue(names, outs, i + 1, next);
        assert PresentNames(names, outs, i) == PresentNames(names, outs, i + 1) + {names[i]};
        assert names[i] !in PresentNames(names, outs, i + 1);
    }
  }

  lemma {:induction false} FoldFieldsError(names: seq<string>, outs: seq<Option<Result<PyValue, ConfigError>>>, i: nat,
                                           acc: map<string, PyValue>)
    requires |names| == |outs| && i <= |outs|
    requires FoldFields(names, outs, i, acc).Err?
    ensures exists j :: (i <= j < |outs| && outs[j].Some? && outs[j].value.Err? &&
                         (forall k :: i <= k < j && outs[k].Some? ==> outs[k].value.Ok?) &&
                         FoldFields(names, outs, i, acc).error == outs[j].value.error)
    decreases |outs| - i
  {
    match outs[i]
    case None => FoldFieldsError(names, outs, i + 1, acc);
    case Some(Err(_)) =>
    case Some(Ok(v)) => FoldFieldsError(names, outs, i + 1, acc[names[i] := v]);
  }

  lemma FieldIndex(f: Field) returns (j: nat)
    ensures j < |FieldOrder| && FieldOrder[j] == f
  {
    FieldOrderComplete(f);
    j :| 0 <= j < |FieldOrder| && FieldOrder[j] == f;
  }

  /** The configuration is accepted exactly when every recognised key present
      passes its own validator. */
  lemma ValidatedConfigAccepts(config: map<string, PyValue>, validatePath: PyValue -> Result<PyValue, ConfigError>)
    ensures ValidatedConfig(config, validatePath).Ok? <==>
      forall f: Field :: FieldName(f) in config ==> ValidateField(f, config[FieldName(f)], validatePath).Ok?
  {
    var names, outs := FieldNames(), ConfigOutcomes(config, validatePath);
    FoldFieldsOk(names, outs, 0, map[]);
    forall j | 0 <= j < |FieldOrder| {
      OutcomeAt(config, validatePath, j);
    }
    if ValidatedConfig(config, validatePath).Ok? {
      forall f: Field | FieldName(f) in config
        ensures ValidateField(f, config[FieldName(f)], validatePath).Ok?
      {
        var j := FieldIndex(f);
      }
    }
  }

  /** An accepted configuration keeps exactly the recognised keys present,
      each holding what its validator returned; anything else is dropped. */
  lemma ValidatedConfigValue(config: map<string, PyValue>, validatePath: PyValue -> Result<PyValue, ConfigError>)
    requires ValidatedConfig(config, validatePath).Ok?
    ensures forall k :: k in ValidatedConfig(config, validatePath).value <==> k in config && k in FieldNames()
    ensures forall f: Field :: FieldName(f) in config ==>
      FieldName(f) in ValidatedConfig(config, validatePath).value &&
      ValidateField(f, config[FieldName(f)], validatePath) == Ok(ValidatedConfig(config, validatePath).value[FieldName(f)])
  {
    var names, outs := FieldNames(), ConfigOutcomes(config, validatePath);
    var m := ValidatedConfig(config, validatePath).value;
    FieldNamesDistinct();
    FoldFieldsOk(names, outs, 0, map[]);
    FoldFieldsValue(names, outs, 0, map[]);
    forall j | 0 <= j < |FieldOrder| {
      OutcomeAt(config, validatePath, j);
    }
    forall k ensures k in m <==> k in config && k in names {
      if k in config && k in names {
        var j :| 0 <= j < |names| && names[j] == k;
        assert k in PresentNames(names, outs, 0);
      }
    }
    forall f: Field | FieldName(f) in config
      ensures FieldName(f) in m && ValidateField(f, config[FieldName(f)], validatePath) == Ok(m[FieldName(f)])
    {
      var j := FieldIndex(f);
    }
  }

  /** A rejection is the error of the first present key, in source order,
      whose validator fails. */
  lemma ValidatedConfigFirstError(config: map<string, PyValue>, validatePath: PyValue -> Result<PyValue, ConfigError>)
    requires ValidatedConfig(config, validatePath).Err?
    ensures exists j :: (0 <= j < |FieldOrder| && FieldName(FieldOrder[j]) in config &&
                         ValidateField(FieldOrder[j], config[FieldName(FieldOrder[j])], validatePath) ==
                           Err(ValidatedConfig(config, validatePath).error) &&
                         forall k :: 0 <= k < j && FieldName(FieldOrder[k]) in config ==>
                           ValidateField(FieldOrder[k], config[FieldName(FieldOrder[k])], validatePath).Ok?)
  {
    var names, outs := FieldNames(), ConfigOutcomes(config, validatePath);
    FoldFieldsError(names, outs, 0, map[]);
    forall j | 0 <= j < |FieldOrder| {
      OutcomeAt(config, validatePath, j);
    }
    var j :| 0 <= j < |outs| && outs[j].Some? && outs[j].value.Err? &&
             (forall k :: 0 <= k < j && outs[k].Some? ==> outs[k].value.Ok?) &&
             FoldFields(names, outs, 0, map[]).error == outs[j].value.error;
  }

  /** What the result says about one field. */
  lemma ValidatedConfigField(config: map<string, PyValue>, validatePath: PyValue -> Result<PyValue, ConfigError>, f: Field)
    requires FieldName(f) in config
    ensures ValidateField(f, config[FieldName(f)], validatePath).Err? ==> ValidatedConfig(config, validatePath).Err?
    ensures ValidatedConfig(config, validatePath).Ok? ==>
      FieldName(f) in ValidatedConfig(config, validatePath).value &&
      ValidateField(f, config[FieldName(f)], validatePath) == Ok(ValidatedConfig(config, validatePath).value[FieldName(f)])
  {
    ValidatedConfigAccepts(config, validatePath);
    if ValidatedConfig(config, validatePath).Ok? {
      ValidatedConfigValue(config, validatePath);
    }
  }

  /** The two counts must be integers in range, and are kept as given. */
  lemma ValidatedConfigCounts(config: map<string, PyValue>, validatePath: PyValue -> Result<PyValue, ConfigError>)
    requires ValidatedConfig(config, validatePath).Ok?
    ensures var m := ValidatedConfig(config, validatePath).value;
      "number_of_images" in config ==>
        IsInt(config["number_of_images"]) && 1 <= IntValue(config["number_of_images"]) <= 1000 &&
        "number_of_images" in m && m["number_of_images"] == config["number_of_images"]
    ensures var m := ValidatedConfig(config, validatePath).value;
      "max_missed" in config ==>
        IsInt(config["max_missed"]) && 1 <= IntValue(config["max_missed"]) <= 100 &&
        "max_missed" in m && m["max_missed"] == config["max_missed"]
  {
    if "number_of_images" in config {
      ValidatedConfigField(config, validatePath, NumberOfImages);
      ValidateFieldSpec(NumberOfImages, config["number_of_images"], validatePath);
    }
    if "max_missed" in config {
      ValidatedConfigField(config, validatePath, MaxMissed);
      ValidateFieldSpec(MaxMissed, config["max_missed"], validatePath);
    }
  }

  /** The timeout must be a positive number that `float` can hold, and is
      stored as a float. */
  lemma ValidatedConfigTimeout(config: map<string, PyValue>, validatePath: PyValue -> Result<PyValue, ConfigError>)
    requires ValidatedConfig(config, validatePath).Ok? && "timeout_seconds" in config
    ensures IsNumber(config["timeout_seconds"]) && NumberValue(config["timeout_seconds"]) > 0.0
    ensures IsInt(config["timeout_seconds"]) ==> IntValue(config["timeout_seconds"]) < FloatIntLimit
    ensures var m := ValidatedConfig(config, validatePath).value;
      "timeout_seconds" in m && m["timeout_seconds"] == PyFloat(NumberValue(config["timeout_seconds"]))
  {
    ValidatedConfigField(config, validatePath, TimeoutSeconds);
    ValidateFieldSpec(TimeoutSeconds, config["timeout_seconds"], validatePath);
  }

  /** A flag that is not a bool is rejected. */
  lemma ValidatedConfigFlags(config: map<string, PyValue>, validatePath: PyValue -> Result<PyValue, ConfigError>)
    ensures "headless" in config && !config["headless"].PyBool? ==> ValidatedConfig(config, validatePath).Err?
    ensures "keep_filenames" in config && !config["keep_filenames"].PyBool? ==> ValidatedConfig(config, validatePath).Err?
  {
    if "headless" in config {
      ValidatedConfigField(config, validatePath, Headless);
      ValidateFieldSpec(Headless, config["headless"], validatePath);
    }
    if "keep_filenames" in config {
      ValidatedConfigField(config, validatePath, KeepFilenames);
      ValidateFieldSpec(KeepFilenames, config["keep_filenames"], validatePath);
    }
  }
}
