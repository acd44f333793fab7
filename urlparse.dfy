/** `urllib.parse.urlparse`: the split of a URL string into scheme, network
    location, path, parameters, query and fragment (the generic syntax of
    section 3 of RFC 3986 as Python's parser approximates it). */
module UrlParse {
  import opened Wrappers
  import opened Text

  datatype Parsed = Parsed(scheme: string, netloc: string, path: string,
                           params: string, query: string, fragment: string)

  /** Characters removed from the front before parsing: C0 controls and space. */
  predicate IsC0OrSpace(c: char) { c as int <= 0x20 }

  /** Tab, CR and LF are deleted wherever they occur. */
  predicate IsUnsafeByte(c: char) { c == '\t' || c == '\r' || c == '\n' }

  predicate IsSchemeChar(c: char) {
    IsAsciiLetter(c) || IsAsciiDigit(c) || c == '+' || c == '-' || c == '.'
  }

  /** Index of the first character satisfying `p`, or `|s|`. */
  function IndexWhere(s: string, p: char -> bool): (i: nat)
    ensures i <= |s|
    ensures i < |s| ==> p(s[i])
    ensures forall j :: 0 <= j < i ==> !p(s[j])
  {
    if s == [] then 0 else if p(s[0]) then 0 else 1 + IndexWhere(s[1..], p)
  }

  /** Index of the last occurrence of `c`, or -1 (str.rfind). */
  function LastIndexOf(s: string, c: char): (i: int)
    ensures -1 <= i < |s|
    ensures i >= 0 ==> s[i] == c
    ensures forall j :: i < j < |s| ==> s[j] != c
  {
    if s == [] then -1 else if s[|s| - 1] == c then |s| - 1 else LastIndexOf(s[..|s| - 1], c)
  }

  /** The schemes whose paths carry `;params`. */
  const UsesParams: seq<string> := ["", "ftp", "hdl", "prospero", "http", "imap", "https",
    "shttp", "rtsp", "rtsps", "rtspu", "sip", "sips", "mms", "sftp", "tel"]

  /** `scheme:` prefix: a letter, then scheme characters, up to the first colon;
      the scheme is lower-cased. Anything else leaves the scheme empty. */
  function SplitScheme(u: string): (r: (string, string))
    ensures r.0 == [] ==> r.1 == u
    ensures r.0 != [] ==> exists i :: 0 < i < |u| && u[i] == ':' && r.0 == Lower(u[..i]) && r.1 == u[i + 1..]
  {
    var i := IndexOf(u, ':');
    if 0 < i < |u| && IsAsciiLetter(u[0]) && (forall j :: 0 <= j < i ==> IsSchemeChar(u[j])) then
      (Lower(u[..i]), u[i + 1..])
    else ([], u)
  }

  predicate IsNetlocEnd(c: char) { c == '/' || c == '?' || c == '#' }

  /** `//authority` up to the first `/`, `?` or `#`. */
  function SplitNetloc(u: string): (r: (string, string))
    ensures !StartsWith(u, "//") ==> r == ([], u)
    ensures StartsWith(u, "//") ==> u == "//" + r.0 + r.1
    ensures forall i :: 0 <= i < |r.0| ==> !IsNetlocEnd(r.0[i])
  {
    if !StartsWith(u, "//") then ([], u)
    else
      var rest := u[2..];
      var j := IndexWhere(rest, IsNetlocEnd);
      assert u == "//" + rest[..j] + rest[j..];
      (rest[..j], rest[j..])
  }

  /** `url.split(c, 1)` when `c` occurs, else `(url, "")`. */
  function SplitOff(u: string, c: char): (r: (string, string))
    ensures c !in r.0
    ensures c in u ==> u == r.0 + [c] + r.1
    ensures c !in u ==> r == (u, [])
  {
    var i := IndexOf(u, c);
    if i == |u| then
      assert c !in u;
      (u, [])
    else
      assert u == u[..i] + [c] + u[i + 1..];
      (u[..i], u[i + 1..])
  }

  /** `;params` after the last path segment. */
  function SplitParams(u: string): (r: (string, string))
  {
    var last := LastIndexOf(u, '/');
    var i := if last >= 0 then last + 1 + IndexOf(u[last + 1..], ';') else IndexOf(u, ';');
    if i >= |u| then (u, []) else (u[..i], u[i + 1..])
  }

  /** The two library calls `urlsplit` makes on a network location that this
      model does not define: `unicodedata.normalize('NFKC', s)`, and
      `ipaddress.ip_address(s)`, given as the version of the address it
      builds or the message of the ValueError it raises. */
  datatype IpVersion = IPv4 | IPv6
  datatype Library = Library(nfkc: string -> string, ipAddress: string -> Result<IpVersion, string>)

  /** `urlparse(url)` (Python 3.12, from 3.12.9 on); `Err` carries the
      message of the ValueError `urlsplit` raises for the network location. */
  function Parse(url: string, lib: Library): Result<Parsed, string>
  {
    var u := RemoveClass(StripLeft(url, IsC0OrSpace), IsUnsafeByte);
    var (scheme, afterScheme) := SplitScheme(u);
    var (netloc, afterNetloc) := SplitNetloc(afterScheme);
    match NetlocError(netloc, lib)
    case Some(message) => Err(message)
    case None => Ok(SplitPath(scheme, netloc, afterNetloc))
  }

  /** What follows the network location: fragment, query, and the `;params`
      of the schemes that use them. */
  function SplitPath(scheme: string, netloc: string, afterNetloc: string): Parsed {
    var (beforeFragment, fragment) := SplitOff(afterNetloc, '#');
    var (beforeQuery, query) := SplitOff(beforeFragment, '?');
    var (path, params) :=
      if scheme in UsesParams && ';' in beforeQuery then SplitParams(beforeQuery) else (beforeQuery, []);
    Parsed(scheme, netloc, path, params, query, fragment)
  }

  /** The ValueError `urlsplit` raises for a network location, in the order of
      its checks: an unpaired bracket, then `_check_bracketed_netloc`, then
      the NFKC check of `_checknetloc`. An ASCII location without brackets
      passes. */
  function NetlocError(netloc: string, lib: Library): (e: Option<string>)
    ensures AllAscii(netloc) && '[' !in netloc && ']' !in netloc ==> e.None?
    ensures ('[' in netloc) != (']' in netloc) ==> e == Some("Invalid IPv6 URL")
    ensures '[' in netloc && ']' in netloc && BracketedNetlocError(netloc, lib).Some? ==>
      e == BracketedNetlocError(netloc, lib)
  {
    var bracket :=
      if ('[' in netloc) != (']' in netloc) then Some("Invalid IPv6 URL")
      else if '[' in netloc then BracketedNetlocError(netloc, lib)
      else None;
    if bracket.Some? then bracket else NfkcError(netloc, lib)
  }

  /** `netloc.rpartition('@')[2]`: the host and port, after the last `@`. */
  function HostAndPort(netloc: string): (hp: string)
    ensures '@' !in hp
    ensures '@' !in netloc ==> hp == netloc
  {
    var i := LastIndexOf(netloc, '@');
    assert '@' !in netloc ==> i == -1;
    netloc[i + 1..]
  }

  /** `_check_bracketed_netloc`: with a `[` in the host and port, nothing may
      come before it, and what follows the `]` must be empty or start with
      `:`; the text between them is the host. Without one, the host is the
      text before the first `:`. The host then goes to `_check_bracketed_host`. */
  function BracketedNetlocError(netloc: string, lib: Library): (e: Option<string>)
    ensures '[' in HostAndPort(netloc) && SplitOff(HostAndPort(netloc), '[').0 != [] ==>
      e == Some("Invalid IPv6 URL")
  {
    var hostAndPort := HostAndPort(netloc);
    if '[' in hostAndPort then
      var (beforeBracket, bracketed) := SplitOff(hostAndPort, '[');
      var (hostname, port) := SplitOff(bracketed, ']');
      if beforeBracket != [] then Some("Invalid IPv6 URL")
      else if port != [] && port[0] != ':' then Some("Invalid IPv6 URL")
      else BracketedHostError(hostname, lib)
    else BracketedHostError(SplitOff(hostAndPort, ':').0, lib)
  }

  /** `re.match(r"\Av[a-fA-F0-9]+\..+\Z", host)`: a `v`, hex digits, a dot,
      and at least one more character, none of them a newline. */
  predicate IsIpvFuture(host: string) {
    |host| >= 1 && host[0] == 'v' &&
    exists k :: 2 <= k < |host| - 1 && host[k] == '.' &&
      (forall j :: 1 <= j < k ==> IsHexDigit(host[j])) &&
      (forall j :: k < j < |host| ==> host[j] != '\n')
  }

  /** `_check_bracketed_host`: an IPvFuture form after `v`; otherwise an
      address, which must not be IPv4. */
  function BracketedHostError(host: string, lib: Library): (e: Option<string>)
    ensures e.None? <==> if |host| >= 1 && host[0] == 'v' then IsIpvFuture(host) else lib.ipAddress(host) == Ok(IPv6)
  {
    if |host| >= 1 && host[0] == 'v' then
      if IsIpvFuture(host) then None else Some("IPvFuture address is invalid")
    else
      match lib.ipAddress(host)
      case Err(message) => Some(message)
      case Ok(IPv4) => Some("An IPv4 address cannot be in brackets")
      case Ok(IPv6) => None
  }

  /** The characters `_checknetloc` deletes before normalising. */
  predicate IsNfkcIgnored(c: char) { c == '@' || c == ':' || c == '#' || c == '?' }

  /** `_checknetloc`: a non-ASCII location whose NFKC form, once `@`, `:`,
      `#` and `?` are deleted, changes and then holds one of `/?#@:`. */
  function NfkcError(netloc: string, lib: Library): (e: Option<string>)
    ensures e.Some? <==> (!AllAscii(netloc) &&
                          lib.nfkc(RemoveClass(netloc, IsNfkcIgnored)) != RemoveClass(netloc, IsNfkcIgnored) &&
                          ContainsDelimiter(lib.nfkc(RemoveClass(netloc, IsNfkcIgnored))))
    ensures e.Some? ==> e.value == "netloc '" + netloc + "' contains invalid characters under NFKC normalization"
  {
    if netloc == [] || AllAscii(netloc) then None
    else
      var n := RemoveClass(netloc, IsNfkcIgnored);
      var normalized := lib.nfkc(n);
      if n == normalized then None
      else if ContainsDelimiter(normalized) then
        Some("netloc '" + netloc + "' contains invalid characters under NFKC normalization")
      else None
  }

  /** One of `/?#@:` occurs. */
  predicate ContainsDelimiter(s: string) {
    '/' in s || '?' in s || '#' in s || '@' in s || ':' in s
  }

  // ---------------------------------------------------------------------
  // Properties

  /** Without a colon there is no scheme. */
  lemma NoColonNoScheme(url: string, lib: Library)
    requires ':' !in url
    ensures Parse(url, lib).Ok? ==> Parse(url, lib).value.scheme == []
  {
    var u := RemoveClass(StripLeft(url, IsC0OrSpace), IsUnsafeByte);
    assert ':' !in u;
  }

  /** A scheme of letters only. */
  predicate IsLetters(s: string) {
    |s| >= 1 && forall i :: 0 <= i < |s| ==> IsAsciiLetter(s[i])
  }

  /** A host that `//host/path` splits off whole: no space, control or
      delimiter character. */
  predicate IsHostText(h: string) {
    forall i :: 0 <= i < |h| ==> h[i] as int > 0x20 && !IsNetlocEnd(h[i])
  }

  /** Such a host in ASCII and without brackets, which no check rejects. */
  predicate IsPlainHost(h: string) {
    IsHostText(h) && AllAscii(h) && '[' !in h && ']' !in h
  }

  /** An absolute path with no space, control, query, fragment or parameter. */
  predicate IsPlainPath(p: string) {
    |p| >= 1 && p[0] == '/' &&
    forall i :: 0 <= i < |p| ==> p[i] as int > 0x20 && p[i] != '?' && p[i] != '#' && p[i] != ';'
  }

  /** The parse of `scheme://host/path` with nothing unusual in the scheme
      and the path: the host is the network location, and the parse fails
      exactly when a check on it raises. */
  lemma ParseParts(scheme: string, host: string, path: string, lib: Library)
    requires IsLetters(scheme) && IsHostText(host) && IsPlainPath(path)
    ensures NetlocError(host, lib).Some? ==> Parse(scheme + "://" + host + path, lib) == Err(NetlocError(host, lib).value)
    ensures NetlocError(host, lib).None? ==>
      Parse(scheme + "://" + host + path, lib) == Ok(Parsed(Lower(scheme), host, path, [], [], []))
  {
    var url := scheme + ":" + ("//" + host + path);
    assert url == scheme + "://" + host + path;
    Above20(scheme, host, path);
    PrepareIdentity(url);
    SchemeOf(scheme, "//" + host + path);
    NetlocOf(host, path);
    PlainPathSplit(Lower(scheme), host, path);
  }

  lemma PlainPathSplit(scheme: string, host: string, path: string)
    requires IsPlainPath(path)
    ensures SplitPath(scheme, host, path) == Parsed(scheme, host, path, [], [], [])
  {
    assert '#' !in path && '?' !in path && ';' !in path;
    assert SplitOff(path, '#') == (path, []);
    assert SplitOff(path, '?') == (path, []);
  }

  /** `a\U{2100}b` is refused when U+2100 normalises to `a/c`. */
  lemma NfkcHostRejected(host: string, lib: Library)
    requires host == "a\U{2100}b" && lib.nfkc(host) == "aa/cb"
    ensures IsHostText(host) && NetlocError(host, lib).Some?
  {
    assert host == ['a', '\U{2100}', 'b'];
    assert !IsAscii(host[1]);
    assert '[' !in host && ']' !in host;
    assert RemoveClass(host, IsNfkcIgnored) == host;
    assert ("aa/cb")[2] == '/';
  }

  /** `partition(c)` at the first `c`. */
  lemma SplitOffAt(a: string, c: char, b: string)
    requires c !in a
    ensures SplitOff(a + [c] + b, c) == (a, b)
  {
    var u := a + [c] + b;
    assert u[|a|] == c;
    assert forall j :: 0 <= j < |a| ==> u[j] == a[j];
    assert IndexOf(u, c) == |a|;
    assert u[..|a|] == a && u[|a| + 1..] == b;
  }

  /** A network location with text before its `[` is refused, whatever the
      brackets hold. */
  lemma TextBeforeBracket(before: string, rest: string, lib: Library)
    requires before != [] && '[' !in before && '@' !in before && '@' !in rest && ']' in rest
    ensures NetlocError(before + ['['] + rest, lib) == Some("Invalid IPv6 URL")
  {
    var netloc := before + ['['] + rest;
    assert netloc[|before|] == '[';
    assert '@' !in netloc;
    assert ']' in netloc by {
      var k :| 0 <= k < |rest| && rest[k] == ']';
      assert netloc[|before| + 1 + k] == ']';
    }
    assert HostAndPort(netloc) == netloc;
    SplitOffAt(before, '[', rest);
  }

  /** `[host]` followed by nothing or by `:port` is refused exactly when
      `_check_bracketed_host` refuses the host; otherwise the NFKC check
      decides. */
  lemma BracketedNetloc(hostname: string, port: string, lib: Library)
    requires ']' !in hostname && '@' !in hostname && '@' !in port && (port == [] || port[0] == ':')
    ensures BracketedNetlocError(['['] + hostname + [']'] + port, lib) == BracketedHostError(hostname, lib)
    ensures NetlocError(['['] + hostname + [']'] + port, lib) ==
      if BracketedHostError(hostname, lib).Some? then BracketedHostError(hostname, lib)
      else NfkcError(['['] + hostname + [']'] + port, lib)
  {
    var netloc := ['['] + hostname + [']'] + port;
    assert netloc[0] == '[' && netloc[|hostname| + 1] == ']';
    assert '@' !in netloc;
    assert HostAndPort(netloc) == netloc;
    SplitOffAt([], '[', hostname + [']'] + port);
    assert netloc == [] + ['['] + (hostname + [']'] + port);
    SplitOffAt(hostname, ']', port);
  }

  /** Host texts join into a host text. */
  lemma HostTextAppend(a: string, b: string)
    requires IsHostText(a) && IsHostText(b)
    ensures IsHostText(a + b)
  {
    forall i | 0 <= i < |a + b| ensures (a + b)[i] as int > 0x20 && !IsNetlocEnd((a + b)[i]) {
      if i >= |a| { assert (a + b)[i] == b[i - |a|]; }
    }
  }

  /** `before[rest` is a host text when its parts are. */
  lemma BracketJoinHostText(before: string, rest: string)
    requires IsHostText(before) && IsHostText(rest)
    ensures IsHostText(before + ['['] + rest)
  {
    HostTextAppend(before, ['[']);
    HostTextAppend(before + ['['], rest);
  }

  /** `[hostname]port` is a host text when its parts are. */
  lemma BracketedHostText(hostname: string, port: string)
    requires IsHostText(hostname) && IsHostText(port)
    ensures IsHostText(['['] + hostname + [']'] + port)
  {
    HostTextAppend(['['], hostname);
    HostTextAppend(['['] + hostname, [']']);
    HostTextAppend(['['] + hostname + [']'], port);
  }

  /** The scheme and paths of the examples above. */
  lemma HttpPathParts(scheme: string, path: string)
    requires scheme == "http" && (path == "/x.jpg" || path == "/a.jpg")
    ensures IsLetters(scheme) && IsPlainPath(path)
  {
  }

  /** With a plain host as well, the parse succeeds. */
  lemma ParseSimple(scheme: string, host: string, path: string, lib: Library)
    requires IsLetters(scheme) && IsPlainHost(host) && IsPlainPath(path)
    ensures Parse(scheme + "://" + host + path, lib) == Ok(Parsed(Lower(scheme), host, path, [], [], []))
  {
    ParseParts(scheme, host, path, lib);
  }

  lemma PrepareIdentity(url: string)
    requires forall i :: 0 <= i < |url| ==> url[i] as int > 0x20
    ensures RemoveClass(StripLeft(url, IsC0OrSpace), IsUnsafeByte) == url
  {
    assert url == [] || !IsC0OrSpace(url[0]);
    assert StripLeft(url, IsC0OrSpace) == url;
    assert forall i :: 0 <= i < |url| ==> !IsUnsafeByte(url[i]);
  }

  lemma Above20(scheme: string, host: string, path: string)
    requires forall i :: 0 <= i < |scheme| ==> IsAsciiLetter(scheme[i])
    requires forall i :: 0 <= i < |host| ==> host[i] as int > 0x20
    requires forall i :: 0 <= i < |path| ==> path[i] as int > 0x20
    ensures forall i :: 0 <= i < |scheme + "://" + host + path| ==> (scheme + "://" + host + path)[i] as int > 0x20
  {
    var url := scheme + "://" + host + path;
    forall i | 0 <= i < |url| ensures url[i] as int > 0x20 {
      if i < |scheme| { assert url[i] == scheme[i]; }
      else if i < |scheme| + 3 { }
      else if i < |scheme| + 3 + |host| { assert url[i] == host[i - |scheme| - 3]; }
      else { assert url[i] == path[i - |scheme| - 3 - |host|]; }
    }
  }

  lemma SchemeOf(scheme: string, rest: string)
    requires |scheme| >= 1 && forall i :: 0 <= i < |scheme| ==> IsAsciiLetter(scheme[i])
    ensures SplitScheme(scheme + ":" + rest) == (Lower(scheme), rest)
  {
    var u := scheme + ":" + rest;
    assert forall i :: 0 <= i < |scheme| ==> u[i] == scheme[i];
    assert u[|scheme|] == ':';
    assert IndexOf(u, ':') == |scheme|;
    assert u[..|scheme|] == scheme && u[|scheme| + 1..] == rest;
  }

  lemma NetlocOf(host: string, path: string)
    requires forall i :: 0 <= i < |host| ==> !IsNetlocEnd(host[i])
    requires |path| >= 1 && path[0] == '/'
    ensures SplitNetloc("//" + host + path) == (host, path)
  {
    var u := "//" + host + path;
    assert u[..2] == "//";
    var rest := u[2..];
    assert rest == host + path;
    assert forall j :: 0 <= j < |host| ==> rest[j] == host[j];
    assert rest[|host|] == '/';
    assert IndexWhere(rest, IsNetlocEnd) == |host|;
    assert rest[..|host|] == host && rest[|host|..] == path;
  }
}
