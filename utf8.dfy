/** UTF-8 as Python uses it: `str.encode('utf-8')`, and `bytes.decode('utf-8',
    'replace')`, which replaces each maximal ill-formed subpart by U+FFFD
    (the practice recommended in section 3.9 of the Unicode Standard). */
module Utf8 {

  newtype byte = x: int | 0 <= x < 256

  const Replacement: char := 0xFFFD as char

  predicate IsCont(b: byte) { 0x80 <= b <= 0xBF }

  function EncodeChar(c: char): (r: seq<byte>)
    ensures 1 <= |r| <= 4
    ensures (c as int < 0x80) <==> |r| == 1
    ensures |r| == 1 ==> r[0] as int == c as int
    ensures forall i :: 1 <= i < |r| ==> IsCont(r[i])
    ensures |r| > 1 ==> r[0] >= 0xC2
  {
    var n := c as int;
    if n < 0x80 then [n as byte]
    else if n < 0x800 then [(0xC0 + n / 64) as byte, (0x80 + n % 64) as byte]
    else if n < 0x10000 then
      [(0xE0 + n / 4096) as byte, (0x80 + (n / 64) % 64) as byte, (0x80 + n % 64) as byte]
    else
      [(0xF0 + n / 262144) as byte, (0x80 + (n / 4096) % 64) as byte,
       (0x80 + (n / 64) % 64) as byte, (0x80 + n % 64) as byte]
  }

  /** `s.encode('utf-8')`. */
  function Encode(s: string): (r: seq<byte>)
    ensures |r| >= |s|
  {
    if s == [] then [] else EncodeChar(s[0]) + Encode(s[1..])
  }

  /** Second-byte range of a multi-byte sequence, which excludes overlong
      forms, surrogates and values above U+10FFFF. */
  function SecondLow(b0: byte): byte {
    if b0 == 0xE0 then 0xA0 else if b0 == 0xF0 then 0x90 else 0x80
  }

  function SecondHigh(b0: byte): byte {
    if b0 == 0xED then 0x9F else if b0 == 0xF4 then 0x8F else 0xBF
  }

  /** Number of bytes a lead byte announces; 0 for a byte that cannot start
      a character. */
  function SeqLen(b0: byte): nat {
    if b0 < 0x80 then 1
    else if 0xC2 <= b0 <= 0xDF then 2
    else if 0xE0 <= b0 <= 0xEF then 3
    else if 0xF0 <= b0 <= 0xF4 then 4
    else 0
  }

  /** How many bytes at the start of `b` form the longest prefix of a
      well-formed sequence (at least one: a bad byte is a subpart by itself). */
  function ValidPrefix(b: seq<byte>): (k: nat)
    requires |b| >= 1
    ensures 1 <= k <= |b| && k <= 4
  {
    var n := SeqLen(b[0]);
    if n <= 1 then 1
    else if |b| < 2 || !(SecondLow(b[0]) <= b[1] <= SecondHigh(b[0])) then 1
    else if n == 2 then 2
    else if |b| < 3 || !IsCont(b[2]) then 2
    else if n == 3 then 3
    else if |b| < 4 || !IsCont(b[3]) then 3
    else 4
  }

  /** The character the first bytes of `b` decode to, and how many bytes it
      consumes. */
  function DecodeStep(b: seq<byte>): (r: (char, nat))
    requires |b| >= 1
    ensures 1 <= r.1 <= |b|
  {
    var n := SeqLen(b[0]);
    var k := ValidPrefix(b);
    if n == 1 then (b[0] as int as char, 1)
    else if n == 0 || k < n then (Replacement, k)
    else if n == 2 then
      ((((b[0] as int) - 0xC0) * 64 + ((b[1] as int) - 0x80)) as char, 2)
    else if n == 3 then
      var v := ((b[0] as int) - 0xE0) * 4096 + ((b[1] as int) - 0x80) * 64 + ((b[2] as int) - 0x80);
      assert 0x800 <= v < 0x10000;
      assert b[0] == 0xED ==> v < 0xD800;
      assert b[0] != 0xED ==> (v < 0xD000 || v >= 0xE000);
      (v as char, 3)
    else
      var v := ((b[0] as int) - 0xF0) * 262144 + ((b[1] as int) - 0x80) * 4096 +
               ((b[2] as int) - 0x80) * 64 + ((b[3] as int) - 0x80);
      assert 0x10000 <= v < 0x110000;
      (v as char, 4)
  }

  /** `b.decode('utf-8', 'replace')`. */
  function Decode(b: seq<byte>): (s: string)
    ensures |s| <= |b|
    decreases |b|
  {
    if b == [] then []
    else
      var (c, n) := DecodeStep(b);
      [c] + Decode(b[n..])
  }

  /** A character's encoding decodes back to it, whatever follows. */
  lemma DecodeStepEncodeChar(c: char, rest: seq<byte>)
    ensures DecodeStep(EncodeChar(c) + rest) == (c, |EncodeChar(c)|)
  {
    var e := EncodeChar(c);
    var b := e + rest;
    var n := c as int;
    assert b[..|e|] == e;
    if n < 0x80 {
    } else if n < 0x800 {
      DecodeStepTwo(c, b);
    } else if n < 0x10000 {
      DecodeStepThree(c, b);
    } else {
      DecodeStepFour(c, b);
    }
  }

  lemma DecodeStepTwo(c: char, b: seq<byte>)
    requires 0x80 <= c as int < 0x800
    requires |b| >= 2 && b[..2] == EncodeChar(c)
    ensures DecodeStep(b) == (c, 2)
  {
    var n := c as int;
    assert b[0] == EncodeChar(c)[0] && b[1] == EncodeChar(c)[1];
    assert n == (n / 64) * 64 + n % 64;
  }

  lemma DecodeStepThree(c: char, b: seq<byte>)
    requires 0x800 <= c as int < 0x10000
    requires |b| >= 3 && b[..3] == EncodeChar(c)
    ensures DecodeStep(b) == (c, 3)
  {
    var n := c as int;
    assert b[0] == EncodeChar(c)[0] && b[1] == EncodeChar(c)[1] && b[2] == EncodeChar(c)[2];
    assert n / 64 == (n / 4096) * 64 + (n / 64) % 64;
    assert n == (n / 64) * 64 + n % 64;
  }

  lemma DecodeStepFour(c: char, b: seq<byte>)
    requires 0x10000 <= c as int
    requires |b| >= 4 && b[..4] == EncodeChar(c)
    ensures DecodeStep(b) == (c, 4)
  {
    var n := c as int;
    assert b[0] == EncodeChar(c)[0] && b[1] == EncodeChar(c)[1] && b[2] == EncodeChar(c)[2] && b[3] == EncodeChar(c)[3];
    assert n / 4096 == (n / 262144) * 64 + (n / 4096) % 64;
    assert n / 64 == (n / 4096) * 64 + (n / 64) % 64;
    assert n == (n / 64) * 64 + n % 64;
  }

  lemma DecodeEncodeCharThen(c: char, t: seq<byte>)
    ensures Decode(EncodeChar(c) + t) == [c] + Decode(t)
  {
    var e := EncodeChar(c);
    var b := e + t;
    DecodeStepEncodeChar(c, t);
    assert b[|e|..] == t;
  }

  /** Decoding a valid encoding followed by anything yields the text and then
      the decoding of the rest. */
  lemma {:induction false} DecodeEncodeThen(s: string, rest: seq<byte>)
    ensures Decode(Encode(s) + rest) == s + Decode(rest)
  {
    if s == [] {
      assert Encode(s) + rest == rest;
    } else {
      DecodeEncodeCons(s, rest);
      DecodeEncodeThen(s[1..], rest);
      Reassociate(s, Decode(Encode(s) + rest), Decode(Encode(s[1..]) + rest), Decode(rest));
    }
  }

  lemma DecodeEncodeCons(s: string, rest: seq<byte>)
    requires s != []
    ensures Decode(Encode(s) + rest) == [s[0]] + Decode(Encode(s[1..]) + rest)
  {
    assert Encode(s) + rest == EncodeChar(s[0]) + (Encode(s[1..]) + rest);
    DecodeEncodeCharThen(s[0], Encode(s[1..]) + rest);
  }

  lemma Reassociate(s: string, x: string, y: string, r: string)
    requires s != [] && x == [s[0]] + y && y == s[1..] + r
    ensures x == s + r
  {
    assert s == [s[0]] + s[1..];
  }

  /** Decoding undoes encoding. */
  lemma DecodeEncode(s: string)
    ensures Decode(Encode(s)) == s
  {
    DecodeEncodeThen(s, []);
    assert Encode(s) + [] == Encode(s);
  }

  lemma {:induction false} EncodeConcat(a: string, b: string)
    ensures Encode(a + b) == Encode(a) + Encode(b)
  {
    if a != [] {
      assert (a + b)[0] == a[0] && (a + b)[1..] == a[1..] + b;
      EncodeConcat(a[1..], b);
    } else {
      assert a + b == b;
    }
  }

  /** An ASCII text encodes to its own code points, one byte each. */
  lemma {:induction false} EncodeAscii(s: string)
    requires forall i :: 0 <= i < |s| ==> s[i] as int < 0x80
    ensures |Encode(s)| == |s|
    ensures forall i :: 0 <= i < |s| ==> Encode(s)[i] as int == s[i] as int
  {
    if s != [] {
      EncodeAscii(s[1..]);
      assert Encode(s) == [s[0] as int as byte] + Encode(s[1..]);
    }
  }

  /** Lead and continuation bytes: an encoding has a byte of 0x80 or more
      exactly where the text has a character outside ASCII. */
  lemma {:induction false} EncodeAsciiBytes(s: string)
    ensures (forall i :: 0 <= i < |Encode(s)| ==> Encode(s)[i] < 0x80) <==>
            (forall i :: 0 <= i < |s| ==> s[i] as int < 0x80)
  {
    if s != [] {
      EncodeAsciiBytes(s[1..]);
      var e := EncodeChar(s[0]);
      var t := Encode(s[1..]);
      assert Encode(s) == e + t;
      assert (forall i :: 0 <= i < |e + t| ==> (e + t)[i] < 0x80) <==>
        ((forall i :: 0 <= i < |e| ==> e[i] < 0x80) && (forall i :: 0 <= i < |t| ==> t[i] < 0x80)) by {
        assert forall i :: 0 <= i < |e| ==> (e + t)[i] == e[i];
        assert forall i :: 0 <= i < |t| ==> (e + t)[|e| + i] == t[i];
      }
      assert (forall i :: 0 <= i < |s| ==> s[i] as int < 0x80) <==>
        (s[0] as int < 0x80 && forall i :: 0 <= i < |s[1..]| ==> s[1..][i] as int < 0x80) by {
        assert forall i :: 1 <= i < |s| ==> s[i] == s[1..][i - 1];
      }
    }
  }

  /** An ASCII character absent from the text is absent from its encoding:
      every byte of a multi-byte encoding is 0x80 or more. */
  lemma {:induction false} EncodeAbsentAscii(s: string, c: char)
    requires c as int < 0x80 && c !in s
    ensures forall i :: 0 <= i < |Encode(s)| ==> Encode(s)[i] as int != c as int
  {
    if s != [] {
      assert c !in s[1..];
      EncodeAbsentAscii(s[1..], c);
      var e := EncodeChar(s[0]);
      var t := Encode(s[1..]);
      assert Encode(s) == e + t;
      assert forall i :: 0 <= i < |e| ==> e[i] as int != c as int;
      assert forall i :: 0 <= i < |e + t| ==> (e + t)[i] == (if i < |e| then e[i] else t[i - |e|]);
    }
  }

  /** The encoding is as long as the text exactly when the text is ASCII. */
  lemma {:induction false} EncodeLength(s: string)
    ensures |Encode(s)| == |s| <==> forall i :: 0 <= i < |s| ==> s[i] as int < 0x80
  {
    if s != [] {
      EncodeLength(s[1..]);
      assert |Encode(s)| == |EncodeChar(s[0])| + |Encode(s[1..])|;
      assert (forall i :: 0 <= i < |s| ==> s[i] as int < 0x80) <==>
        (s[0] as int < 0x80 && forall i :: 0 <= i < |s[1..]| ==> s[1..][i] as int < 0x80) by {
        assert forall i :: 1 <= i < |s| ==> s[i] == s[1..][i - 1];
      }
    }
  }
}
