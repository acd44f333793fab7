/** The string helpers of `utils/helpers.py` (and its copy `utils.py`):
    image-URL recognition, search-key cleaning, URL decoding, thumbnail
    filtering and the resolution window. */
module Helpers {
  import opened Wrappers
  import opened Text
  import opened Lists
  import opened Utf8
  import opened UrlCodec
  import opened UrlParse

  // ---------------------------------------------------------------------
  // is_valid_image_url

  const ImageExtensions: seq<string> := [".jpg", ".jpeg", ".png", ".webp", ".gif", ".bmp"]

  predicate HasImageExtension(path: string) {
    exists k :: 0 <= k < |ImageExtensions| && EndsWith(path, ImageExtensions[k])
  }

  /** `is_valid_image_url(url)`. `None` stands for an argument that is not a
      string; `mimeIsImage(u)` for `mimetypes.guess_type(u)` naming an
      `image/` type; `lib` for the library calls of `urlparse`. A parse error
      counts as invalid. */
  function IsValidImageUrl(url: Option<string>, lib: Library, mimeIsImage: string -> bool): (ok: bool)
    ensures ok ==> (url.Some? && url.value != [] && Parse(url.value, lib).Ok? &&
                    Parse(url.value, lib).value.scheme != [] && Parse(url.value, lib).value.netloc != [])
  {
    match url
    case None => false
    case Some(u) =>
      if u == [] then false
      else
        match Parse(u, lib)
        case Err(_) => false
        case Ok(p) =>
          if p.scheme == [] || p.netloc == [] then false
          else HasImageExtension(Lower(p.path)) || mimeIsImage(u)
  }

  /** Validity read off the parse: a URL the parser refuses is invalid, and
      one it accepts is valid exactly with a scheme, a host and an image path
      or MIME guess. */
  lemma ValidFromParse(u: string, lib: Library, mimeIsImage: string -> bool)
    requires u != []
    ensures Parse(u, lib).Err? ==> !IsValidImageUrl(Some(u), lib, mimeIsImage)
    ensures Parse(u, lib).Ok? ==> (IsValidImageUrl(Some(u), lib, mimeIsImage) <==>
      Parse(u, lib).value.scheme != [] && Parse(u, lib).value.netloc != [] &&
      (HasImageExtension(Lower(Parse(u, lib).value.path)) || mimeIsImage(u)))
  {
  }

  /** Any letter scheme is accepted: with a plain host and an image path the
      URL is valid whatever the scheme and whatever the MIME guess. */
  lemma SchemeNotChecked(scheme: string, host: string, path: string, lib: Library, mimeIsImage: string -> bool)
    requires IsLetters(scheme) && |host| >= 1 && IsPlainHost(host) && IsPlainPath(path)
    requires HasImageExtension(Lower(path))
    ensures IsValidImageUrl(Some(scheme + "://" + host + path), lib, mimeIsImage)
  {
    ParseSimple(scheme, host, path, lib);
    ValidFromParse(scheme + "://" + host + path, lib, mimeIsImage);
  }

  /** A host that a check of `urlsplit` rejects (a bracket problem, or a
      character whose NFKC form holds a delimiter) makes the URL invalid,
      whatever its path. */
  lemma RejectedHostInvalid(scheme: string, host: string, path: string, lib: Library, mimeIsImage: string -> bool)
    requires IsLetters(scheme) && IsHostText(host) && IsPlainPath(path)
    requires NetlocError(host, lib).Some?
    ensures !IsValidImageUrl(Some(scheme + "://" + host + path), lib, mimeIsImage)
  {
    ParseParts(scheme, host, path, lib);
    ValidFromParse(scheme + "://" + host + path, lib, mimeIsImage);
  }

  /** `http://a\U{2100}b/x.jpg` is invalid: U+2100 normalises to `a/c`, so
      `urlsplit` raises and the error is caught. */
  lemma NfkcHostInvalid(scheme: string, host: string, path: string, lib: Library, mimeIsImage: string -> bool)
    requires scheme == "http" && host == "a\U{2100}b" && path == "/x.jpg"
    requires lib.nfkc(host) == "aa/cb"
    ensures !IsValidImageUrl(Some(scheme + "://" + host + path), lib, mimeIsImage)
  {
    NfkcHostRejected(host, lib);
    HttpPathParts(scheme, path);
    RejectedHostInvalid(scheme, host, path, lib, mimeIsImage);
  }

  /** A bracketed host that `_check_bracketed_host` refuses makes the URL
      invalid, with or without a `:port` after it: `http://[zz]/a.jpg` when
      `zz` is not an address, `http://[1.2.3.4]/a.jpg` because an IPv4
      address may not be bracketed. */
  lemma BracketHostInvalid(scheme: string, hostname: string, port: string, path: string, lib: Library,
                           mimeIsImage: string -> bool)
    requires IsLetters(scheme) && IsPlainPath(path) && IsHostText(hostname) && IsHostText(port)
    requires ']' !in hostname && '@' !in hostname && '@' !in port && (port == [] || port[0] == ':')
    requires BracketedHostError(hostname, lib).Some?
    ensures !IsValidImageUrl(Some(scheme + "://" + (['['] + hostname + [']'] + port) + path), lib, mimeIsImage)
  {
    BracketedNetloc(hostname, port, lib);
    BracketedHostText(hostname, port);
    RejectedHostInvalid(scheme, ['['] + hostname + [']'] + port, path, lib, mimeIsImage);
  }

  /** Text before the `[` of a host makes the URL invalid whatever the
      brackets hold: `http://a[::1]/x.jpg` is refused although `::1` is an
      IPv6 address. */
  lemma TextBeforeBracketInvalid(scheme: string, before: string, rest: string, path: string, lib: Library,
                                 mimeIsImage: string -> bool)
    requires IsLetters(scheme) && IsPlainPath(path) && IsHostText(before) && IsHostText(rest)
    requires before != [] && '[' !in before && '@' !in before && '@' !in rest && ']' in rest
    ensures !IsValidImageUrl(Some(scheme + "://" + (before + ['['] + rest) + path), lib, mimeIsImage)
  {
    TextBeforeBracket(before, rest, lib);
    BracketJoinHostText(before, rest);
    RejectedHostInvalid(scheme, before + ['['] + rest, path, lib, mimeIsImage);
  }

  /** Without a network location the URL is invalid. */
  lemma MissingHostInvalid(scheme: string, path: string, lib: Library, mimeIsImage: string -> bool)
    requires IsLetters(scheme) && IsPlainPath(path)
    ensures !IsValidImageUrl(Some(scheme + "://" + path), lib, mimeIsImage)
  {
    ParseNoHost(scheme, path, lib);
    ValidFromParse(scheme + "://" + path, lib, mimeIsImage);
  }

  lemma ParseNoHost(scheme: string, path: string, lib: Library)
    requires IsLetters(scheme) && IsPlainPath(path)
    ensures Parse(scheme + "://" + path, lib) == Ok(Parsed(Lower(scheme), [], path, [], [], []))
  {
    var u := scheme + "://" + path;
    assert IsPlainHost([]);
    assert u == scheme + "://" + [] + path;
    ParseSimple(scheme, [], path, lib);
  }

  /** Without a colon there is no scheme, so the URL is invalid. */
  lemma NoSchemeInvalid(url: string, lib: Library, mimeIsImage: string -> bool)
    requires ':' !in url
    ensures !IsValidImageUrl(Some(url), lib, mimeIsImage)
  {
    NoColonNoScheme(url, lib);
  }

  /** `ftp://example.com/image.jpg` is accepted. */
  lemma FtpAccepted(scheme: string, host: string, path: string, lib: Library, mimeIsImage: string -> bool)
    requires scheme == "ftp" && host == "example.com" && path == "/image.jpg"
    ensures IsValidImageUrl(Some(scheme + "://" + host + path), lib, mimeIsImage)
  {
    FtpParts(scheme, host, path);
    SchemeNotChecked(scheme, host, path, lib, mimeIsImage);
  }

  lemma FtpParts(scheme: string, host: string, path: string)
    requires scheme == "ftp" && host == "example.com" && path == "/image.jpg"
    ensures IsLetters(scheme) && |host| >= 1 && IsPlainHost(host) && IsPlainPath(path)
    ensures HasImageExtension(Lower(path))
  {
    assert Lower(path) == path;
    assert EndsWith(path, ImageExtensions[0]);
  }

  // ---------------------------------------------------------------------
  // clean_search_key

  predicate IsFilenameForbidden(c: char) {
    c == '<' || c == '>' || c == ':' || c == '"' || c == '/' || c == '\\' || c == '|' || c == '?' || c == '*'
  }

  predicate IsSpaceChar(c: char) { c == ' ' }

  function ReplaceForbidden(s: string): (r: string)
    ensures |r| == |s|
    ensures forall i :: 0 <= i < |r| ==> !IsFilenameForbidden(r[i])
    ensures forall i :: 0 <= i < |r| ==> (IsPySpace(r[i]) <==> IsPySpace(s[i]))
  {
    ReplaceClass(s, IsFilenameForbidden, '_')
  }

  /** `clean_search_key(k)`: each forbidden file-name character becomes `_`,
      whitespace runs become one space, the ends are trimmed and spaces
      become `_`. */
  function CleanSearchKey(k: string): (r: string)
    ensures forall i :: 0 <= i < |r| ==> !IsPySpace(r[i]) && !IsFilenameForbidden(r[i])
  {
    var replaced := ReplaceForbidden(k);
    var trimmed := Strip(CollapseRuns(replaced, IsPySpace, ' '), IsPySpace);
    CleanChars(replaced, trimmed);
    UnderscoreSpaces(trimmed);
    ReplaceClass(trimmed, IsSpaceChar, '_')
  }

  /** Turning the plain spaces of a text whose only whitespace is plain
      spaces into `_` leaves no whitespace and adds no forbidden character. */
  lemma UnderscoreSpaces(t: string)
    requires forall i :: 0 <= i < |t| ==> !IsFilenameForbidden(t[i])
    requires forall i :: 0 <= i < |t| ==> t[i] == ' ' || !IsPySpace(t[i])
    ensures var r := ReplaceClass(t, IsSpaceChar, '_');
      forall i :: 0 <= i < |r| ==> !IsPySpace(r[i]) && !IsFilenameForbidden(r[i])
  {
    var r := ReplaceClass(t, IsSpaceChar, '_');
    assert !IsPySpace('_') && !IsFilenameForbidden('_');
    forall i | 0 <= i < |r|
      ensures !IsPySpace(r[i]) && !IsFilenameForbidden(r[i])
    {
      assert r[i] == (if IsSpaceChar(t[i]) then '_' else t[i]);
    }
  }

  lemma CleanChars(replaced: string, trimmed: string)
    requires forall i :: 0 <= i < |replaced| ==> !IsFilenameForbidden(replaced[i])
    requires trimmed == Strip(CollapseRuns(replaced, IsPySpace, ' '), IsPySpace)
    ensures forall i :: 0 <= i < |trimmed| ==> !IsFilenameForbidden(trimmed[i])
    ensures forall i :: 0 <= i < |trimmed| ==> trimmed[i] == ' ' || !IsPySpace(trimmed[i])
  {
    CollapseStripChars(replaced, IsPySpace, ' ');
    forall i | 0 <= i < |trimmed| ensures !IsFilenameForbidden(trimmed[i]) {
      NotForbiddenMember(replaced, trimmed[i]);
    }
  }

  lemma NotForbiddenMember(s: string, c: char)
    requires forall i :: 0 <= i < |s| ==> !IsFilenameForbidden(s[i])
    requires c == ' ' || c in s
    ensures !IsFilenameForbidden(c)
  {
  }

  /** A key without whitespace: exactly one `_` per forbidden character,
      nothing collapsed. */
  lemma CleanSearchKeyNoSpace(k: string)
    requires forall i :: 0 <= i < |k| ==> !IsPySpace(k[i])
    ensures CleanSearchKey(k) == ReplaceClass(k, IsFilenameForbidden, '_')
  {
    var replaced := ReplaceForbidden(k);
    CollapseStripNone(replaced, IsPySpace, ' ');
    NoSpaceUnchanged(replaced);
  }

  /** Two words with whitespace around and between them are joined by one `_`. */
  lemma CleanSearchKeyTwoWords(sp0: string, w1: string, sp1: string, w2: string, sp2: string)
    requires forall i :: 0 <= i < |sp0| ==> IsPySpace(sp0[i])
    requires forall i :: 0 <= i < |sp1| ==> IsPySpace(sp1[i])
    requires forall i :: 0 <= i < |sp2| ==> IsPySpace(sp2[i])
    requires sp1 != [] && w1 != [] && w2 != []
    requires forall i :: 0 <= i < |w1| ==> !IsPySpace(w1[i])
    requires forall i :: 0 <= i < |w2| ==> !IsPySpace(w2[i])
    ensures CleanSearchKey(sp0 + w1 + sp1 + w2 + sp2) == ReplaceForbidden(w1) + "_" + ReplaceForbidden(w2)
  {
    var f1, f2 := ReplaceForbidden(w1), ReplaceForbidden(w2);
    ReplaceFive(sp0, w1, sp1, w2, sp2);
    CollapseStripTwoWords(sp0, f1, sp1, f2, sp2, IsPySpace, ' ');
    JoinWithUnderscore(f1, f2);
  }

  lemma JoinWithUnderscore(f1: string, f2: string)
    requires forall i :: 0 <= i < |f1| ==> !IsPySpace(f1[i])
    requires forall i :: 0 <= i < |f2| ==> !IsPySpace(f2[i])
    ensures ReplaceClass(f1 + " " + f2, IsSpaceChar, '_') == f1 + "_" + f2
  {
    NoSpaceUnchanged(f1);
    NoSpaceUnchanged(f2);
  }

  lemma NoSpaceUnchanged(s: string)
    requires forall i :: 0 <= i < |s| ==> !IsPySpace(s[i])
    ensures ReplaceClass(s, IsSpaceChar, '_') == s
  {
    forall i | 0 <= i < |s| ensures !IsSpaceChar(s[i]) {
      assert !IsPySpace(s[i]);
    }
  }

  /** Forbidden characters are replaced piecewise; whitespace is kept. */
  lemma ReplaceFive(sp0: string, w1: string, sp1: string, w2: string, sp2: string)
    requires forall i :: 0 <= i < |sp0| ==> IsPySpace(sp0[i])
    requires forall i :: 0 <= i < |sp1| ==> IsPySpace(sp1[i])
    requires forall i :: 0 <= i < |sp2| ==> IsPySpace(sp2[i])
    ensures ReplaceForbidden(sp0 + w1 + sp1 + w2 + sp2) ==
      sp0 + ReplaceForbidden(w1) + sp1 + ReplaceForbidden(w2) + sp2
  {
    ReplaceSpaces(sp0);
    ReplaceSpaces(sp1);
    ReplaceSpaces(sp2);
    ReplaceClassConcat5(sp0, w1, sp1, w2, sp2);
  }

  lemma ReplaceSpaces(sp: string)
    requires forall i :: 0 <= i < |sp| ==> IsPySpace(sp[i])
    ensures ReplaceForbidden(sp) == sp
  {
  }

  lemma ReplaceClassConcat5(a: string, b: string, c: string, d: string, e: string)
    ensures ReplaceForbidden(a + b + c + d + e) ==
      ReplaceForbidden(a) + ReplaceForbidden(b) + ReplaceForbidden(c) + ReplaceForbidden(d) + ReplaceForbidden(e)
  {
  }

  /** Cleaning a cleaned key changes nothing. */
  lemma CleanSearchKeyIdempotent(k: string)
    ensures CleanSearchKey(CleanSearchKey(k)) == CleanSearchKey(k)
  {
    var r := CleanSearchKey(k);
    CleanSearchKeyNoSpace(r);
    assert ReplaceClass(r, IsFilenameForbidden, '_') == r;
  }

  /** `clean_search_key("special<>chars") == "special__chars"`. */
  lemma CleanSearchKeyExample(k: string)
    requires k == "special<>chars"
    ensures CleanSearchKey(k) == "special__chars"
  {
    ExampleIsPrintable(k);
    PrintableNotSpace(k);
    CleanSearchKeyNoSpace(k);
    ExampleReplaced(k);
  }

  lemma ExampleReplaced(k: string)
    requires k == "special<>chars"
    ensures ReplaceClass(k, IsFilenameForbidden, '_') == "special__chars"
  {
  }

  lemma ExampleIsPrintable(k: string)
    requires k == "special<>chars"
    ensures forall i :: 0 <= i < |k| ==> 0x21 <= k[i] as int <= 0x7e
  {
  }

  lemma PrintableNotSpace(k: string)
    requires forall i :: 0 <= i < |k| ==> 0x21 <= k[i] as int <= 0x7e
    ensures forall i :: 0 <= i < |k| ==> !IsPySpace(k[i])
  {
  }

  // ---------------------------------------------------------------------
  // decode_url

  /** `decode_url(url)`: the UTF-8 bytes of `url` read with the
      `unicode_escape` codec, then percent-decoded; on a decoding error the
      input comes back unchanged. */
  function DecodeUrl(url: string): string {
    match UnicodeEscape(Encode(url))
    case None => url
    case Some(t) => Unquote(t)
  }

  lemma Latin1Ascii(s: string)
    requires AllAscii(s)
    ensures Latin1(Encode(s)) == s
  {
    EncodeAscii(s);
  }

  /** ASCII text without a backslash passes the escape decoder unchanged. */
  lemma UnicodeEscapeAscii(s: string)
    requires AllAscii(s) && '\\' !in s
    ensures UnicodeEscape(Encode(s)) == Some(s)
  {
    EncodeAbsentAscii(s, '\\');
    UnicodeEscapePlain(Encode(s), []);
    assert Encode(s) + [] == Encode(s);
    Latin1Ascii(s);
    assert s + [] == s;
  }

  /** With no backslash and no `%`, each byte of the UTF-8 encoding comes back
      as one character (Latin-1). */
  lemma DecodeUrlPlain(url: string)
    requires '\\' !in url && '%' !in url
    ensures DecodeUrl(url) == Latin1(Encode(url))
  {
    var e := Encode(url);
    EncodeAbsentAscii(url, '\\');
    EncodeAbsentAscii(url, '%');
    UnicodeEscapePlain(e, []);
    assert e + [] == e;
    var t := Latin1(e);
    assert t + [] == t;
    assert '%' !in t;
  }

  /** ... so such a URL is returned unchanged exactly when it is ASCII; a
      non-ASCII character turns into its UTF-8 bytes read as Latin-1. */
  lemma DecodeUrlIdentity(url: string)
    requires '\\' !in url && '%' !in url
    ensures DecodeUrl(url) == url <==> AllAscii(url)
  {
    DecodeUrlPlain(url);
    EncodeLength(url);
    if AllAscii(url) {
      Latin1Ascii(url);
    }
  }

  /** `decode_url("é")` is `"Ã©"`. */
  lemma DecodeUrlMojibake()
    ensures DecodeUrl([0xE9 as char]) == [0xC3 as char, 0xA9 as char]
  {
    var url := [0xE9 as char];
    DecodeUrlPlain(url);
    assert EncodeChar(url[0]) == [0xC3, 0xA9];
    assert Encode(url) == EncodeChar(url[0]) + Encode([]);
  }

  /** The codec's view of a text made of a plain part, an escape and the rest:
      the plain part decodes as Latin-1 and the rest on its own. */
  lemma EscapeAfterPlain(a: string, esc: string, b: string, eb: seq<byte>)
    requires '\\' !in a && AllAscii(esc)
    requires eb == Encode(esc) + Encode(b)
    ensures UnicodeEscape(Encode(a + esc + b)) == Prepend(Latin1(Encode(a)), UnicodeEscape(eb))
  {
    EncodeThree(a, esc, b);
    EncodeAbsentAscii(a, '\\');
    UnicodeEscapePlain(Encode(a), eb);
  }

  lemma EncodeThree(a: string, esc: string, b: string)
    ensures Encode(a + esc + b) == Encode(a) + (Encode(esc) + Encode(b))
  {
    var ae := a + esc;
    EncodeConcat(ae, b);
    EncodeConcat(a, esc);
    var ea, ee, e2 := Encode(a), Encode(esc), Encode(b);
    assert Encode(ae + b) == (ea + ee) + e2;
    BytesAssoc(ea, ee, e2);
  }

  lemma BytesAssoc(x: seq<byte>, y: seq<byte>, z: seq<byte>)
    ensures (x + y) + z == x + (y + z)
  {
  }

  lemma EncodeTwo(c: char, d: char)
    requires IsAscii(c) && IsAscii(d)
    ensures Encode([c, d]) == [c as int as byte, d as int as byte]
  {
    assert Encode([c, d]) == EncodeChar(c) + Encode([d]);
    assert Encode([d]) == EncodeChar(d) + Encode([]);
  }

  /** A `\x`, `\u` or `\U` escape not followed by a hex digit makes the
      codec fail, and the URL is returned as it is. */
  lemma DecodeUrlMalformed(a: string, c: char, b: string)
    requires '\\' !in a
    requires c == 'x' || c == 'u' || c == 'U'
    requires b == [] || !IsHexDigit(b[0])
    ensures DecodeUrl(a + ['\\', c] + b) == a + ['\\', c] + b
  {
    var esc := ['\\', c];
    EncodeTwo('\\', c);
    var rest := Encode(esc) + Encode(b);
    EscapeAfterPlain(a, esc, b, rest);
    TruncatedHexEscape(c, b, rest);
  }

  lemma TruncatedHexEscape(c: char, b: string, rest: seq<byte>)
    requires c == 'x' || c == 'u' || c == 'U'
    requires b == [] || !IsHexDigit(b[0])
    requires rest == [92 as byte, c as int as byte] + Encode(b)
    ensures UnicodeEscape(rest) == None
  {
    assert rest[0] == 92 as byte && rest[1] == c as int as byte;
    assert SimpleEscape(rest[1]).None? && !IsOctalByte(rest[1]);
    if b != [] {
      assert Encode(b) == EncodeChar(b[0]) + Encode(b[1..]);
      assert rest[2] == EncodeChar(b[0])[0];
      assert !IsHexByte(rest[2]);
    }
  }

  /** A backslash at the very end makes the codec fail too. */
  lemma DecodeUrlTrailingBackslash(a: string)
    requires '\\' !in a
    ensures DecodeUrl(a + ['\\']) == a + ['\\']
  {
    assert Encode(['\\']) == EncodeChar('\\') + Encode([]);
    var e: string := [];
    assert a + ['\\'] + e == a + ['\\'];
    EscapeAfterPlain(a, ['\\'], e, [92 as byte]);
    assert UnicodeEscape([92 as byte]) == None;
  }

  predicate AsciiPlain(s: string) { AllAscii(s) && '\\' !in s && '%' !in s }

  function Hex4Value(h: string): (v: nat)
    requires |h| == 4 && forall i :: 0 <= i < 4 ==> IsHexDigit(h[i])
  {
    HexValue(h[0]) * 4096 + HexValue(h[1]) * 256 + HexValue(h[2]) * 16 + HexValue(h[3])
  }

  /** `\uXXXX` becomes the character it names (here one that is neither a
      surrogate nor `%`, which unquote would go on to read). */
  lemma DecodeUrlUnicodeEscape(a: string, h: string, b: string)
    requires AsciiPlain(a) && AsciiPlain(b)
    requires |h| == 4 && forall i :: 0 <= i < 4 ==> IsHexDigit(h[i])
    requires !(0xD800 <= Hex4Value(h) < 0xE000) && Hex4Value(h) != '%' as int
    ensures DecodeUrl(a + "\\u" + h + b) == a + [Hex4Value(h) as char] + b
  {
    var v := Hex4Value(h);
    var esc := "\\u" + h;
    assert AllAscii(esc);
    var eb := Encode(esc) + Encode(b);
    assert a + esc + b == a + "\\u" + h + b;
    EscapeAfterPlain(a, esc, b, eb);
    UnicodeEscapeU4(h, b, eb);
    Latin1Ascii(a);
    NoPercentAround(a, v as char, b);
  }

  lemma NoPercentAround(a: string, c: char, b: string)
    requires '%' !in a && '%' !in b && c != '%'
    ensures '%' !in a + ([c] + b) && a + ([c] + b) == a + [c] + b
  {
  }

  /** The escape decoder on `\u`, four hex digits and plain ASCII. */
  lemma UnicodeEscapeU4(h: string, b: string, eb: seq<byte>)
    requires AsciiPlain(b)
    requires |h| == 4 && forall i :: 0 <= i < 4 ==> IsHexDigit(h[i])
    requires !(0xD800 <= Hex4Value(h) < 0xE000)
    requires eb == Encode("\\u" + h) + Encode(b)
    ensures UnicodeEscape(eb) == Some([Hex4Value(h) as char] + b)
  {
    var esc := "\\u" + h;
    assert AllAscii(esc);
    EncodeAscii(esc);
    assert eb[0] == 92 as byte && eb[1] == 'u' as int as byte;
    var d := eb[2..6];
    assert forall i :: 0 <= i < 4 ==> d[i] as int == h[i] as int;
    HexDigits4(d, h);
    assert eb[6..] == Encode(b);
    UnicodeEscapeAscii(b);
  }

  lemma HexDigits4(d: seq<byte>, h: string)
    requires |h| == 4 && forall i :: 0 <= i < 4 ==> IsHexDigit(h[i])
    requires |d| == 4 && forall i :: 0 <= i < 4 ==> d[i] as int == h[i] as int
    ensures forall i :: 0 <= i < 4 ==> IsHexByte(d[i])
    ensures HexDigitsValue(d) == Hex4Value(h)
  {
    assert forall i :: 0 <= i < 4 ==> d[i] as int as char == h[i];
    var d1, d2, d3 := d[..1], d[..2], d[..3];
    assert d1[..0] == [] && d2[..1] == d1 && d3[..2] == d2 && d[..3] == d3;
    assert HexDigitsValue(d1) == HexValue(h[0]);
    assert HexDigitsValue(d2) == HexValue(h[0]) * 16 + HexValue(h[1]);
    assert HexDigitsValue(d3) == HexDigitsValue(d2) * 16 + HexValue(h[2]);
  }

  /** `=` is `=`. */
  lemma DecodeUrlEqualsSign(a: string, b: string)
    requires AsciiPlain(a) && AsciiPlain(b)
    ensures DecodeUrl(a + "\\u003d" + b) == a + "=" + b
  {
    var h := "003d";
    assert Hex4Value(h) == 0x3d;
    assert a + "\\u" + h + b == a + "\\u003d" + b;
    DecodeUrlUnicodeEscape(a, h, b);
  }

  /** ASCII text with no backslash: unchanged without `%`, otherwise the
      percent-decoded bytes read as UTF-8. */
  lemma DecodeUrlAscii(t: string)
    requires AllAscii(t) && '\\' !in t
    ensures DecodeUrl(t) == (if '%' in t then Decode(PercentToBytes(t)) else t)
  {
    UnicodeEscapeAscii(t);
    UnquoteAscii(t);
  }

  /** Percent-decoding, multi-byte characters included: a well-formed escaped
      form `q` of the text `m`, between plain ASCII `a` and `b`, decodes to `m`. */
  lemma DecodeUrlPercent(a: string, q: string, m: string, b: string)
    requires AsciiPlain(a) && AsciiPlain(b)
    requires AllAscii(q) && '\\' !in q && WellEscaped(q)
    requires PercentToBytes(q) == Encode(m)
    ensures DecodeUrl(a + q + b) == a + m + b
  {
    var t := a + q + b;
    assert AllAscii(t) && '\\' !in t;
    DecodeUrlAscii(t);
    if '%' in t {
      PercentToBytesThree(a, q, m, b);
      DecodeEncode(a + m + b);
    } else {
      assert '%' !in q;
      PlainBytes(q);
      DecodeEncode(m);
      DecodeEncode(q);
    }
  }

  lemma PercentToBytesThree(a: string, q: string, m: string, b: string)
    requires AsciiPlain(a) && AsciiPlain(b)
    requires AllAscii(q) && WellEscaped(q)
    requires PercentToBytes(q) == Encode(m)
    ensures AllAscii(a + q + b)
    ensures PercentToBytes(a + q + b) == Encode(a + m + b)
  {
    PlainBytes(a);
    PlainBytes(b);
    assert WellEscaped(a);
    PercentToBytesConcat(a, q);
    WellEscapedConcat(a, q);
    PercentToBytesConcat(a + q, b);
    EncodeConcat(a, m);
    EncodeConcat(a + m, b);
  }

  /** Percent-decoding text without `%` gives its UTF-8 (here: ASCII) bytes. */
  lemma PlainBytes(s: string)
    requires AllAscii(s) && '%' !in s
    ensures PercentToBytes(s) == Encode(s)
  {
    PercentToBytesPlain(s);
    EncodeAscii(s);
  }

  /** `decode_url` inverts `quote` inside plain ASCII text. */
  lemma DecodeUrlQuoted(a: string, m: string, b: string)
    requires AsciiPlain(a) && AsciiPlain(b)
    ensures DecodeUrl(a + Quote(m) + b) == a + m + b
  {
    QuoteDecodes(m);
    DecodeUrlPercent(a, Quote(m), m, b);
  }

  lemma EscapedSpace(q: string)
    requires q == "%20"
    ensures AllAscii(q) && '\\' !in q && WellEscaped(q) && PercentToBytes(q) == Encode(" ")
  {
    assert PercentToBytes(q) == [0x20] + PercentToBytes([]);
    assert Encode(" ") == EncodeChar(' ') + Encode([]);
  }

  lemma EscapedEAcute(q: string)
    requires q == "%C3%A9"
    ensures AllAscii(q) && '\\' !in q && WellEscaped(q) && PercentToBytes(q) == Encode([0xE9 as char])
  {
    assert q[3..] == "%A9" && q[3..][3..] == [];
    assert PercentToBytes(q) == [0xC3] + PercentToBytes("%A9");
    assert PercentToBytes("%A9") == [0xA9] + PercentToBytes([]);
    var e := [0xE9 as char];
    assert Encode(e) == EncodeChar(e[0]) + Encode([]);
    assert EncodeChar(e[0]) == [0xC3, 0xA9];
  }

  /** `%20` is a space. */
  lemma DecodeUrlSpace(a: string, b: string)
    requires AsciiPlain(a) && AsciiPlain(b)
    ensures DecodeUrl(a + "%20" + b) == a + " " + b
  {
    EscapedSpace("%20");
    DecodeUrlPercent(a, "%20", " ", b);
  }

  /** `%C3%A9` is the two UTF-8 bytes of `é`, which decode to that one character. */
  lemma DecodeUrlEAcute(a: string, b: string)
    requires AsciiPlain(a) && AsciiPlain(b)
    ensures DecodeUrl(a + "%C3%A9" + b) == a + [0xE9 as char] + b
  {
    EscapedEAcute("%C3%A9");
    DecodeUrlPercent(a, "%C3%A9", [0xE9 as char], b);
  }

  lemma EscapedPercent41(q: string)
    requires q == "%2541"
    ensures AllAscii(q) && '\\' !in q && WellEscaped(q) && PercentToBytes(q) == Encode("%41")
  {
    assert q[3..] == "41" && "41"[1..] == "1" && "1"[1..] == [];
    assert PercentToBytes(q) == [0x25] + PercentToBytes("41");
    assert PercentToBytes("41") == [0x34] + PercentToBytes("1");
    assert PercentToBytes("1") == [0x31] + PercentToBytes([]);
    assert Encode("%41") == EncodeChar('%') + Encode("41");
    assert Encode("41") == EncodeChar('4') + Encode("1");
    assert Encode("1") == EncodeChar('1') + Encode([]);
  }

  lemma EscapedA(q: string)
    requires q == "%41"
    ensures AllAscii(q) && '\\' !in q && WellEscaped(q) && PercentToBytes(q) == Encode("A")
  {
    assert PercentToBytes(q) == [0x41] + PercentToBytes([]);
    assert Encode("A") == EncodeChar('A') + Encode([]);
  }

  /** Decoding is not idempotent: `%2541` decodes to `%41`, which decodes to `A`. */
  lemma DecodeUrlNotIdempotent(u: string)
    requires u == "%2541"
    ensures DecodeUrl(u) == "%41"
    ensures DecodeUrl(DecodeUrl(u)) == "A"
  {
    var e: string := [];
    assert AsciiPlain(e);
    EscapedPercent41(u);
    assert e + u + e == u;
    DecodeUrlPercent(e, u, "%41", e);
    assert e + "%41" + e == "%41";
    EscapedA("%41");
    DecodeUrlPercent(e, "%41", "A", e);
    assert e + "A" + e == "A";
  }

  // ---------------------------------------------------------------------
  // filter_thumbnail_urls

  /** The test `filter_thumbnail_urls` applies to each URL: no pattern in its
      (ASCII) lower-cased form and more than 50 characters. */
  predicate KeepUrl(patterns: seq<string>, url: string) {
    !ContainsAny(Lower(url), patterns) && |url| > 50
  }

  method FilterThumbnailUrls(urls: seq<string>, patterns: seq<string>) returns (filtered: seq<string>)
    ensures filtered == Filter(urls, u => KeepUrl(patterns, u))
  {
    var keep := u => KeepUrl(patterns, u);
    filtered := [];
    var i := 0;
    while i < |urls|
      invariant 0 <= i <= |urls|
      invariant filtered == Filter(urls[..i], keep)
    {
      var url := urls[i];
      FilterConcat(urls[..i], [url], keep);
      assert urls[..i + 1] == urls[..i] + [url];
      assert Filter([url], keep) == (if keep(url) then [url] else []) + Filter([], keep);
      if KeepUrl(patterns, url) {
        filtered := filtered + [url];
      }
      i := i + 1;
    }
    assert urls[..i] == urls;
  }

  /** A URL is kept exactly when it is one of the inputs and passes the test;
      the kept URLs are in input order. */
  lemma FilterThumbnailMembers(urls: seq<string>, patterns: seq<string>, x: string)
    ensures x in Filter(urls, u => KeepUrl(patterns, u)) <==> x in urls && KeepUrl(patterns, x)
    ensures IsSubsequence(Filter(urls, u => KeepUrl(patterns, u)), urls)
  {
    FilterMembers(urls, u => KeepUrl(patterns, u), x);
    FilterIsSubsequence(urls, u => KeepUrl(patterns, u));
  }

  /** `https://example.com/full-resolution.jpg` has 39 characters, so it is
      dropped whatever the patterns. */
  lemma ShortUrlDropped(urls: seq<string>, patterns: seq<string>)
    ensures "https://example.com/full-resolution.jpg" !in Filter(urls, u => KeepUrl(patterns, u))
  {
    assert |"https://example.com/full-resolution.jpg"| == 39;
    FilterMembers(urls, u => KeepUrl(patterns, u), "https://example.com/full-resolution.jpg");
  }

  // ---------------------------------------------------------------------
  // validate_resolution

  /** `validate_resolution(width, height, min_resolution, max_resolution)`. */
  predicate ValidateResolution(width: int, height: int, minRes: (int, int), maxRes: (int, int)) {
    minRes.0 <= width <= maxRes.0 && minRes.1 <= height <= maxRes.1
  }

  /** Both ends of the window are accepted on both axes, and one step
      outside either end is not. */
  lemma ValidateResolutionInclusive(minRes: (int, int), maxRes: (int, int))
    requires minRes.0 <= maxRes.0 && minRes.1 <= maxRes.1
    ensures ValidateResolution(minRes.0, minRes.1, minRes, maxRes)
    ensures ValidateResolution(maxRes.0, maxRes.1, minRes, maxRes)
    ensures ValidateResolution(minRes.0, maxRes.1, minRes, maxRes)
    ensures !ValidateResolution(minRes.0 - 1, minRes.1, minRes, maxRes)
    ensures !ValidateResolution(maxRes.0 + 1, maxRes.1, minRes, maxRes)
    ensures !ValidateResolution(minRes.0, minRes.1 - 1, minRes, maxRes)
    ensures !ValidateResolution(maxRes.0, maxRes.1 + 1, minRes, maxRes)
  {
  }
}
