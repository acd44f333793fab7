/** The three codecs `decode_url` and the search-URL builder chain together:
    Python's `unicode_escape` decoder over bytes, `urllib.parse.unquote`
    (percent-decoding as in section 2.1 of RFC 3986, with the decoded bytes
    read as UTF-8) and `urllib.parse.quote` with its default safe set `/`. */
module UrlCodec {
  import opened Wrappers
  import opened Text
  import opened Utf8

  // ---------------------------------------------------------------------
  // Bytes as text

  /** Bytes read as Latin-1: each byte becomes the code point of its value. */
  function Latin1(b: seq<byte>): (s: string)
    ensures |s| == |b|
    ensures forall i :: 0 <= i < |b| ==> s[i] as int == b[i] as int
  {
    seq(|b|, i requires 0 <= i < |b| => b[i] as int as char)
  }

  predicate IsHexByte(b: byte) { IsHexDigit(b as int as char) }

  function HexDigitsValue(b: seq<byte>): (v: nat)
    requires forall i :: 0 <= i < |b| ==> IsHexByte(b[i])
  {
    if b == [] then 0
    else
      assert IsHexByte(b[|b| - 1]);
      HexDigitsValue(b[..|b| - 1]) * 16 + HexValue(b[|b| - 1] as int as char)
  }

  predicate IsOctalByte(b: byte) { '0' as byte <= b <= '7' as byte }

  /** One, two or three octal digits at the start of `b`. */
  function OctalLen(b: seq<byte>): (n: nat)
    requires |b| >= 1 && IsOctalByte(b[0])
    ensures 1 <= n <= 3 && n <= |b|
    ensures forall i :: 0 <= i < n ==> IsOctalByte(b[i])
  {
    if |b| >= 2 && IsOctalByte(b[1]) then
      (if |b| >= 3 && IsOctalByte(b[2]) then 3 else 2)
    else 1
  }

  function OctalValue(b: seq<byte>): (v: nat)
    requires forall i :: 0 <= i < |b| ==> IsOctalByte(b[i])
    ensures v < Pow8(|b|)
  {
    if b == [] then 0
    else
      assert IsOctalByte(b[|b| - 1]);
      OctalValue(b[..|b| - 1]) * 8 + (b[|b| - 1] as int - '0' as int)
  }

  function Pow8(n: nat): nat {
    if n == 0 then 1 else 8 * Pow8(n - 1)
  }

  function Prepend(p: string, o: Option<string>): Option<string> {
    match o
    case Some(t) => Some(p + t)
    case None => None
  }

  // ---------------------------------------------------------------------
  // bytes.decode('unicode_escape')

  /** The character a one-letter escape stands for, if it is one. */
  function SimpleEscape(c: byte): Option<char> {
    if c == '\\' as byte then Some('\\')
    else if c == '\'' as byte then Some('\'')
    else if c == '"' as byte then Some('"')
    else if c == 'a' as byte then Some(7 as char)
    else if c == 'b' as byte then Some(8 as char)
    else if c == 't' as byte then Some(9 as char)
    else if c == 'n' as byte then Some(10 as char)
    else if c == 'v' as byte then Some(11 as char)
    else if c == 'f' as byte then Some(12 as char)
    else if c == 'r' as byte then Some(13 as char)
    else None
  }

  /** How many hex digits `\x`, `\u` and `\U` take; 0 for other letters. */
  function HexEscapeLen(c: byte): nat {
    if c == 'x' as byte then 2 else if c == 'u' as byte then 4 else if c == 'U' as byte then 8 else 0
  }

  /** `b.decode('unicode_escape')`: `None` where Python raises
      UnicodeDecodeError (a trailing backslash, too few hex digits, a value
      above U+10FFFF, a malformed or unknown `\N{...}`), and also where the
      escape names a surrogate code point, which a Dafny string cannot hold. */
  function UnicodeEscape(b: seq<byte>): (r: Option<string>)
    decreases |b|
  {
    if b == [] then Some([])
    else if b[0] != '\\' as byte then Prepend([b[0] as int as char], UnicodeEscape(b[1..]))
    else if |b| == 1 then None
    else
      var c := b[1];
      if c == '\n' as byte then UnicodeEscape(b[2..])
      else if SimpleEscape(c).Some? then Prepend([SimpleEscape(c).value], UnicodeEscape(b[2..]))
      else if IsOctalByte(c) then
        var n := OctalLen(b[1..]);
        var v := OctalValue(b[1..1 + n]);
        assert v < 512 by { assert Pow8(n) <= 512; }
        Prepend([v as char], UnicodeEscape(b[1 + n..]))
      else if HexEscapeLen(c) > 0 then
        var n := HexEscapeLen(c);
        if |b| < 2 + n || exists i :: 2 <= i < 2 + n && !IsHexByte(b[i]) then None
        else
          var v := HexDigitsValue(b[2..2 + n]);
          if v >= 0x110000 || 0xD800 <= v < 0xE000 then None
          else Prepend([v as char], UnicodeEscape(b[2 + n..]))
      else if c == 'N' as byte then None
      else Prepend(['\\', c as int as char], UnicodeEscape(b[2..]))
  }

  /** Bytes with no backslash decode as Latin-1 and leave what follows to be
      decoded on its own. */
  lemma {:induction false} UnicodeEscapePlain(x: seq<byte>, y: seq<byte>)
    requires forall i :: 0 <= i < |x| ==> x[i] != '\\' as byte
    ensures UnicodeEscape(x + y) == Prepend(Latin1(x), UnicodeEscape(y))
  {
    if x == [] {
      assert x + y == y;
      assert Latin1(x) == [];
      match UnicodeEscape(y) {
        case Some(t) => assert [] + t == t;
        case None =>
      }
    } else {
      assert (x + y)[0] == x[0] && (x + y)[1..] == x[1..] + y;
      UnicodeEscapePlain(x[1..], y);
      assert Latin1(x) == [x[0] as int as char] + Latin1(x[1..]);
      match UnicodeEscape(y) {
        case Some(t) =>
          assert [x[0] as int as char] + (Latin1(x[1..]) + t) == Latin1(x) + t;
        case None =>
      }
    }
  }

  // ---------------------------------------------------------------------
  // urllib.parse.unquote

  /** Every `%` begins a complete escape of two hex digits. */
  predicate WellEscaped(s: string) {
    forall i :: 0 <= i < |s| && s[i] == '%' ==> i + 2 < |s| && IsHexDigit(s[i + 1]) && IsHexDigit(s[i + 2])
  }

  /** `unquote_to_bytes` on an ASCII run: `%` and two hex digits of either
      case become one byte; every other character, a stray `%` included,
      stands for its own byte. */
  function PercentToBytes(s: string): (b: seq<byte>)
    requires AllAscii(s)
    ensures |b| <= |s|
  {
    if s == [] then []
    else if s[0] == '%' && |s| >= 3 && IsHexDigit(s[1]) && IsHexDigit(s[2]) then
      [(HexValue(s[1]) * 16 + HexValue(s[2])) as byte] + PercentToBytes(s[3..])
    else [s[0] as int as byte] + PercentToBytes(s[1..])
  }

  /** Length of the leading run of ASCII characters. */
  function AsciiRun(s: string): (n: nat)
    ensures n <= |s|
    ensures forall i :: 0 <= i < n ==> IsAscii(s[i])
    ensures n < |s| ==> !IsAscii(s[n])
  {
    if s == [] || !IsAscii(s[0]) then 0 else 1 + AsciiRun(s[1..])
  }

  /** Each maximal ASCII run percent-decoded and read as UTF-8 with
      replacement; other characters copied. */
  function UnquoteRuns(s: string): string
    decreases |s|
  {
    if s == [] then []
    else if !IsAscii(s[0]) then [s[0]] + UnquoteRuns(s[1..])
    else
      var n := AsciiRun(s);
      Decode(PercentToBytes(s[..n])) + UnquoteRuns(s[n..])
  }

  /** `urllib.parse.unquote(s)`: a string without `%` is returned as it is. */
  function Unquote(s: string): string {
    if '%' !in s then s else UnquoteRuns(s)
  }

  // ---------------------------------------------------------------------
  // urllib.parse.quote(s, safe='/')

  /** Bytes `quote` never escapes: letters, digits, `_.-~` and the safe `/`. */
  predicate IsQuoteSafe(b: byte) {
    var c := b as int as char;
    IsAsciiLetter(c) || IsAsciiDigit(c) || c == '_' || c == '.' || c == '-' || c == '~' || c == '/'
  }

  function UpperHex(v: nat): (c: char)
    requires v < 16
    ensures IsHexDigit(c) && HexValue(c) == v
  {
    if v < 10 then ('0' as int + v) as char else ('A' as int + v - 10) as char
  }

  function QuoteBytes(b: seq<byte>): (s: string)
    ensures AllAscii(s)
  {
    if b == [] then []
    else
      QuoteByte(b[0]) + QuoteBytes(b[1..])
  }

  /** `urllib.parse.quote(s)`. */
  function Quote(s: string): (q: string)
    ensures AllAscii(q)
  {
    QuoteBytes(Encode(s))
  }

  // ---------------------------------------------------------------------
  // Properties

  /** Percent-decoding splits at any point that is not inside an escape. */
  lemma {:induction false} PercentToBytesConcat(x: string, y: string)
    requires AllAscii(x) && AllAscii(y) && WellEscaped(x)
    ensures AllAscii(x + y)
    ensures PercentToBytes(x + y) == PercentToBytes(x) + PercentToBytes(y)
    decreases |x|
  {
    var s := x + y;
    assert AllAscii(s) by {
      forall i | 0 <= i < |s| ensures IsAscii(s[i]) {
        if i < |x| { assert s[i] == x[i]; } else { assert s[i] == y[i - |x|]; }
      }
    }
    if x == [] {
      assert s == y;
    } else if x[0] == '%' {
      assert IsHexDigit(x[1]) && IsHexDigit(x[2]);
      assert s[0] == '%' && s[1] == x[1] && s[2] == x[2];
      assert s[3..] == x[3..] + y;
      assert WellEscaped(x[3..]) by {
        forall i | 0 <= i < |x[3..]| && x[3..][i] == '%'
          ensures i + 2 < |x[3..]| && IsHexDigit(x[3..][i + 1]) && IsHexDigit(x[3..][i + 2])
        {
          assert x[i + 3] == '%';
        }
      }
      PercentToBytesConcat(x[3..], y);
    } else {
      assert s[0] == x[0];
      assert s[1..] == x[1..] + y;
      assert WellEscaped(x[1..]) by {
        forall i | 0 <= i < |x[1..]| && x[1..][i] == '%'
          ensures i + 2 < |x[1..]| && IsHexDigit(x[1..][i + 1]) && IsHexDigit(x[1..][i + 2])
        {
          assert x[i + 1] == '%';
        }
      }
      PercentToBytesConcat(x[1..], y);
    }
  }

  /** Text with no `%` stands for its own bytes. */
  lemma {:induction false} PercentToBytesPlain(s: string)
    requires AllAscii(s) && '%' !in s
    ensures |PercentToBytes(s)| == |s|
    ensures forall i :: 0 <= i < |s| ==> PercentToBytes(s)[i] as int == s[i] as int
  {
    if s != [] {
      assert '%' !in s[1..];
      PercentToBytesPlain(s[1..]);
      assert PercentToBytes(s) == [s[0] as int as byte] + PercentToBytes(s[1..]);
    }
  }

  /** ASCII bytes decode (as UTF-8) to their own characters. */
  lemma {:induction false} DecodeAsciiBytes(b: seq<byte>, s: string)
    requires |b| == |s| && forall i :: 0 <= i < |s| ==> IsAscii(s[i]) && b[i] as int == s[i] as int
    ensures Decode(b) == s
  {
    if b != [] {
      DecodeAsciiBytes(b[1..], s[1..]);
      assert DecodeStep(b) == (s[0], 1);
      assert s == [s[0]] + s[1..];
    }
  }

  /** On an all-ASCII string, unquote is one percent-decoding of the whole. */
  lemma UnquoteRunsAscii(s: string)
    requires AllAscii(s) && s != []
    ensures UnquoteRuns(s) == Decode(PercentToBytes(s))
  {
    assert AsciiRun(s) == |s| by { AsciiRunAll(s); }
    assert s[..|s|] == s;
    assert s[|s|..] == [];
  }

  lemma {:induction false} AsciiRunAll(s: string)
    requires AllAscii(s)
    ensures AsciiRun(s) == |s|
  {
    if s != [] {
      assert AllAscii(s[1..]) by {
        forall i | 0 <= i < |s[1..]| ensures IsAscii(s[1..][i]) { assert s[1..][i] == s[i + 1]; }
      }
      AsciiRunAll(s[1..]);
    }
  }

  /** unquote on ASCII text: unchanged without `%`, otherwise the UTF-8
      reading of the percent-decoded bytes. */
  lemma UnquoteAscii(s: string)
    requires AllAscii(s)
    ensures Unquote(s) == (if '%' in s then Decode(PercentToBytes(s)) else s)
  {
    if '%' in s {
      UnquoteRunsAscii(s);
    }
  }

  /** What quote emits for one byte. */
  function QuoteByte(b: byte): (s: string)
    ensures AllAscii(s) && WellEscaped(s) && '\\' !in s
    ensures PercentToBytes(s) == [b]
  {
    if IsQuoteSafe(b) then
      var s := [b as int as char];
      assert PercentToBytes(s) == [s[0] as int as byte] + PercentToBytes([]);
      s
    else
      var s := ['%', UpperHex(b as int / 16), UpperHex(b as int % 16)];
      assert PercentToBytes(s) == [(HexValue(s[1]) * 16 + HexValue(s[2])) as byte] + PercentToBytes([]);
      s
  }

  lemma {:induction false} QuoteBytesDecodes(b: seq<byte>)
    ensures PercentToBytes(QuoteBytes(b)) == b
    ensures WellEscaped(QuoteBytes(b)) && '\\' !in QuoteBytes(b)
  {
    if b != [] {
      var head := QuoteByte(b[0]);
      var tail := QuoteBytes(b[1..]);
      QuoteBytesDecodes(b[1..]);
      assert QuoteBytes(b) == head + tail;
      PercentToBytesConcat(head, tail);
      WellEscapedConcat(head, tail);
      assert b == [b[0]] + b[1..];
    }
  }

  lemma WellEscapedConcat(x: string, y: string)
    requires WellEscaped(x) && WellEscaped(y)
    ensures WellEscaped(x + y)
  {
    var s := x + y;
    forall i | 0 <= i < |s| && s[i] == '%' ensures i + 2 < |s| && IsHexDigit(s[i + 1]) && IsHexDigit(s[i + 2]) {
      if i < |x| {
        assert x[i] == '%';
        assert s[i + 1] == x[i + 1] && s[i + 2] == x[i + 2];
      } else {
        assert y[i - |x|] == '%';
        assert s[i + 1] == y[i - |x| + 1] && s[i + 2] == y[i - |x| + 2];
      }
    }
  }

  /** Percent-decoding recovers the UTF-8 bytes that quote escaped. */
  lemma QuoteDecodes(s: string)
    ensures PercentToBytes(Quote(s)) == Encode(s)
    ensures WellEscaped(Quote(s)) && '\\' !in Quote(s)
  {
    QuoteBytesDecodes(Encode(s));
  }

  /** unquote undoes quote. */
  lemma UnquoteQuote(s: string)
    ensures Unquote(Quote(s)) == s
  {
    var q := Quote(s);
    QuoteDecodes(s);
    DecodeEncode(s);
    if '%' in q {
      UnquoteAscii(q);
    } else {
      PercentToBytesPlain(q);
      DecodeAsciiBytes(PercentToBytes(q), q);
    }
  }

  /** What quote emits: unreserved characters, `/`, and `%` escapes. */
  lemma {:induction false} QuoteBytesAlphabet(b: seq<byte>)
    ensures forall i :: 0 <= i < |QuoteBytes(b)| ==>
      var c := QuoteBytes(b)[i];
      IsAsciiLetter(c) || IsAsciiDigit(c) || c == '_' || c == '.' || c == '-' || c == '~' || c == '/' || c == '%'
  {
    if b != [] {
      QuoteBytesAlphabet(b[1..]);
    }
  }

  lemma QuoteAlphabet(s: string)
    ensures forall i :: 0 <= i < |Quote(s)| ==>
      var c := Quote(s)[i];
      IsAsciiLetter(c) || IsAsciiDigit(c) || c == '_' || c == '.' || c == '-' || c == '~' || c == '/' || c == '%'
  {
    QuoteBytesAlphabet(Encode(s));
  }
}
