/** Character classes and string operations of Python and JavaScript that the
    scraping code relies on: substring search, stripping, regular-expression
    substitutions over one character class, str.split on one character,
    int() on decimal text and the formatting of a non-negative integer. */
module Text {
  import opened Wrappers

  // ---------------------------------------------------------------------
  // Character classes

  /** Python's str.isspace, which is also what `\s` and str.strip() use. */
  predicate IsPySpace(c: char) {
    var n := c as int;
    (9 <= n <= 13) || (0x1c <= n <= 0x20) || n == 0x85 || n == 0xa0 || n == 0x1680 ||
    (0x2000 <= n <= 0x200a) || n == 0x2028 || n == 0x2029 || n == 0x202f ||
    n == 0x205f || n == 0x3000
  }

  /** JavaScript's `\s`: WhiteSpace and LineTerminator of ECMA-262. */
  predicate IsJsSpace(c: char) {
    var n := c as int;
    (9 <= n <= 13) || n == 0x20 || n == 0xa0 || n == 0x1680 ||
    (0x2000 <= n <= 0x200a) || n == 0x2028 || n == 0x2029 || n == 0x202f ||
    n == 0x205f || n == 0x3000 || n == 0xfeff
  }

  predicate IsAscii(c: char) { c as int < 128 }
  predicate IsAsciiDigit(c: char) { '0' <= c <= '9' }
  predicate IsAsciiLetter(c: char) { ('a' <= c <= 'z') || ('A' <= c <= 'Z') }
  predicate IsHexDigit(c: char) { IsAsciiDigit(c) || ('a' <= c <= 'f') || ('A' <= c <= 'F') }

  function HexValue(c: char): (v: nat)
    requires IsHexDigit(c)
    ensures v < 16
  {
    if IsAsciiDigit(c) then c as int - '0' as int
    else if 'a' <= c <= 'f' then c as int - 'a' as int + 10
    else c as int - 'A' as int + 10
  }

  predicate AllAscii(s: string) { forall i :: 0 <= i < |s| ==> IsAscii(s[i]) }

  // ---------------------------------------------------------------------
  // Case mapping (ASCII letters only)

  function LowerChar(c: char): (r: char)
    ensures IsAscii(c) <==> IsAscii(r)
    ensures !('A' <= r <= 'Z')
    ensures !('A' <= c <= 'Z') ==> r == c
  {
    if 'A' <= c <= 'Z' then (c as int + 32) as char else c
  }

  function Lower(s: string): (r: string)
    ensures |r| == |s|
    ensures forall i :: 0 <= i < |s| ==> r[i] == LowerChar(s[i])
  {
    seq(|s|, i requires 0 <= i < |s| => LowerChar(s[i]))
  }

  lemma LowerOfLower(s: string)
    ensures Lower(Lower(s)) == Lower(s)
  {
  }

  lemma LowerConcat(a: string, b: string)
    ensures Lower(a + b) == Lower(a) + Lower(b)
  {
  }

  // ---------------------------------------------------------------------
  // Prefixes, suffixes and substrings

  predicate StartsWith(s: string, p: string) { |p| <= |s| && s[..|p|] == p }
  predicate EndsWith(s: string, p: string) { |p| <= |s| && s[|s| - |p|..] == p }

  /** Python's `p in s` and JavaScript's `s.includes(p)` on strings. */
  predicate Contains(s: string, p: string) {
    exists i | 0 <= i <= |s| - |p| :: OccursAt(s, p, i)
  }

  predicate OccursAt(s: string, p: string, i: int) {
    0 <= i <= |s| - |p| && s[i..i + |p|] == p
  }

  /** Some entry of `pats` is a substring of `s` (Python's any(p in s for p in pats)). */
  predicate ContainsAny(s: string, pats: seq<string>) {
    exists k :: 0 <= k < |pats| && Contains(s, pats[k])
  }

  lemma ContainsAt(s: string, p: string, i: int)
    requires OccursAt(s, p, i)
    ensures Contains(s, p)
  {
  }

  lemma ContainsInfix(a: string, b: string, c: string, p: string)
    requires Contains(b, p)
    ensures Contains(a + b + c, p)
  {
    var i :| 0 <= i <= |b| - |p| && OccursAt(b, p, i);
    assert (a + b + c)[|a| + i..|a| + i + |p|] == b[i..i + |p|];
    assert OccursAt(a + b + c, p, |a| + i);
  }

  /** A substring of a string that lacks character `c` lacks it too. */
  lemma ContainsChar(s: string, p: string, c: char)
    requires Contains(s, p) && c in p
    ensures c in s
  {
    var i :| 0 <= i <= |s| - |p| && OccursAt(s, p, i);
    var j :| 0 <= j < |p| && p[j] == c;
    assert s[i..i + |p|][j] == c;
    assert s[i + j] == c;
  }

  // ---------------------------------------------------------------------
  // Character-wise rewriting

  /** Replace every character of class `cls` by `sub`: a one-character-class
      re.sub, and str.replace with one-character arguments. */
  function ReplaceClass(s: string, cls: char -> bool, sub: char): (r: string)
    ensures |r| == |s|
    ensures forall i :: 0 <= i < |s| ==> r[i] == (if cls(s[i]) then sub else s[i])
  {
    seq(|s|, i requires 0 <= i < |s| => if cls(s[i]) then sub else s[i])
  }

  /** Delete every character of class `cls` (re.sub with an empty replacement). */
  function RemoveClass(s: string, cls: char -> bool): (r: string)
    ensures forall i :: 0 <= i < |r| ==> !cls(r[i]) && r[i] in s
    ensures (forall i :: 0 <= i < |s| ==> !cls(s[i])) ==> r == s
  {
    if s == [] then []
    else if cls(s[0]) then RemoveClass(s[1..], cls)
    else [s[0]] + RemoveClass(s[1..], cls)
  }

  // ---------------------------------------------------------------------
  // Stripping (str.strip, str.lstrip, str.rstrip)

  function StripLeft(s: string, cls: char -> bool): (r: string)
    ensures |r| <= |s| && r == s[|s| - |r|..]
    ensures r == [] || !cls(r[0])
    ensures forall i :: 0 <= i < |s| - |r| ==> cls(s[i])
  {
    if s != [] && cls(s[0]) then StripLeft(s[1..], cls) else s
  }

  function StripRight(s: string, cls: char -> bool): (r: string)
    ensures |r| <= |s| && r == s[..|r|]
    ensures r == [] || !cls(r[|r| - 1])
    ensures forall i :: |r| <= i < |s| ==> cls(s[i])
  {
    if s != [] && cls(s[|s| - 1]) then StripRight(s[..|s| - 1], cls) else s
  }

  function Strip(s: string, cls: char -> bool): (r: string)
    ensures r == [] || (!cls(r[0]) && !cls(r[|r| - 1]))
    ensures |r| <= |s|
  {
    StripRight(StripLeft(s, cls), cls)
  }

  lemma StripIdentity(s: string, cls: char -> bool)
    requires s == [] || (!cls(s[0]) && !cls(s[|s| - 1]))
    ensures Strip(s, cls) == s
  {
  }

  /** Stripping a lower-cased string leaves it lower-cased. */
  lemma LowerOfStripLower(s: string, cls: char -> bool)
    ensures Lower(Strip(Lower(s), cls)) == Strip(Lower(s), cls)
  {
    var l := Lower(s);
    var u := StripLeft(l, cls);
    var t := StripRight(u, cls);
    forall i | 0 <= i < |t|
      ensures LowerChar(t[i]) == t[i]
    {
      var j := |l| - |u| + i;
      assert t[i] == u[i] == l[j];
      assert l[j] == LowerChar(s[j]);
    }
  }

  /** A string with no character of the class at either end is unchanged by
      stripping, and one with no character of the class at all is too. */
  /** What `Strip` keeps is a slice, and all it removes is in the class. */
  lemma StripBounds(s: string, cls: char -> bool) returns (a: nat, b: nat)
    ensures a <= b <= |s| && Strip(s, cls) == s[a..b]
    ensures forall i :: 0 <= i < a ==> cls(s[i])
    ensures forall i :: b <= i < |s| ==> cls(s[i])
  {
    a := StripLeftBound(s, cls);
    var l := s[a..];
    var n := StripRightBound(l, cls);
    b := a + n;
    SliceOfSuffix(s, a, n);
    forall i | b <= i < |s| ensures cls(s[i]) {
      assert s[i] == l[i - a];
    }
  }

  lemma StripLeftBound(s: string, cls: char -> bool) returns (a: nat)
    ensures a <= |s| && StripLeft(s, cls) == s[a..]
    ensures forall i :: 0 <= i < a ==> cls(s[i])
  {
    a := |s| - |StripLeft(s, cls)|;
  }

  lemma StripRightBound(l: string, cls: char -> bool) returns (n: nat)
    ensures n <= |l| && StripRight(l, cls) == l[..n]
    ensures forall i :: n <= i < |l| ==> cls(l[i])
  {
    n := |StripRight(l, cls)|;
  }

  lemma SliceOfSuffix(s: string, a: nat, n: nat)
    requires a + n <= |s|
    ensures s[a..][..n] == s[a..a + n]
  {
  }

  lemma StripIdentityIfNone(s: string, cls: char -> bool)
    requires forall i :: 0 <= i < |s| ==> !cls(s[i])
    ensures Strip(s, cls) == s
  {
    StripIdentity(s, cls);
  }

  /** An all-whitespace string strips to the empty string, and only those do. */
  lemma StripEmpty(s: string, cls: char -> bool)
    ensures Strip(s, cls) == [] <==> forall i :: 0 <= i < |s| ==> cls(s[i])
  {
  }

  // ---------------------------------------------------------------------
  // Collapsing runs of a character class (re.sub(r'[cls]+', rep, s))

  /** Drop the leading run of class `cls`. */
  function DropRun(s: string, cls: char -> bool): (r: string)
    ensures |r| <= |s| && r == s[|s| - |r|..]
    ensures r == [] || !cls(r[0])
    ensures s != [] && cls(s[0]) ==> |r| < |s|
  {
    if s != [] && cls(s[0]) then DropRun(s[1..], cls) else s
  }

  /** Each maximal run of characters of class `cls` becomes one `rep`. */
  function CollapseRuns(s: string, cls: char -> bool, rep: char): (r: string)
    ensures s == [] <==> r == []
    decreases |s|
  {
    if s == [] then []
    else if cls(s[0]) then [rep] + CollapseRuns(DropRun(s, cls), cls, rep)
    else [s[0]] + CollapseRuns(s[1..], cls, rep)
  }

  /** Every output character is `rep` or an input character outside the class. */
  lemma {:induction false} CollapseRunsChars(s: string, cls: char -> bool, rep: char)
    ensures forall i :: 0 <= i < |CollapseRuns(s, cls, rep)| ==>
      CollapseRuns(s, cls, rep)[i] == rep || (CollapseRuns(s, cls, rep)[i] in s && !cls(CollapseRuns(s, cls, rep)[i]))
    decreases |s|
  {
    if s != [] {
      if cls(s[0]) {
        var d := DropRun(s, cls);
        CollapseRunsChars(d, cls, rep);
        var r := CollapseRuns(s, cls, rep);
        forall i | 0 <= i < |r|
          ensures r[i] == rep || (r[i] in s && !cls(r[i]))
        {
          if i > 0 {
            assert r[i] == CollapseRuns(d, cls, rep)[i - 1];
            assert forall x :: x in d ==> x in s;
          }
        }
      } else {
        CollapseRunsChars(s[1..], cls, rep);
        var r := CollapseRuns(s, cls, rep);
        forall i | 0 <= i < |r|
          ensures r[i] == rep || (r[i] in s && !cls(r[i]))
        {
          if i > 0 {
            assert r[i] == CollapseRuns(s[1..], cls, rep)[i - 1];
            assert forall x :: x in s[1..] ==> x in s;
          }
        }
      }
    }
  }

  /** The output's run boundaries: if `rep` is itself in the class, every
      class character of the output is `rep` and no two of them are adjacent. */
  predicate NoAdjacentRuns(r: string, cls: char -> bool) {
    forall i :: 0 <= i < |r| - 1 ==> !(cls(r[i]) && cls(r[i + 1]))
  }

  lemma {:induction false} CollapseRunsSeparated(s: string, cls: char -> bool, rep: char)
    requires cls(rep)
    ensures NoAdjacentRuns(CollapseRuns(s, cls, rep), cls)
    decreases |s|
  {
    if s == [] {
    } else if cls(s[0]) {
      var d := DropRun(s, cls);
      CollapseRunsSeparated(d, cls, rep);
      if d != [] {
        // the rest starts with a non-class character, which is copied
        assert CollapseRuns(d, cls, rep)[0] == d[0];
      }
    } else {
      var t := CollapseRuns(s[1..], cls, rep);
      CollapseRunsSeparated(s[1..], cls, rep);
      assert CollapseRuns(s, cls, rep) == [s[0]] + t;
    }
  }

  /** A string whose class characters are all `rep`, never adjacent, is
      unchanged by collapsing. */
  lemma {:induction false} CollapseRunsIdentity(s: string, cls: char -> bool, rep: char)
    requires forall i :: 0 <= i < |s| ==> cls(s[i]) ==> s[i] == rep
    requires NoAdjacentRuns(s, cls)
    ensures CollapseRuns(s, cls, rep) == s
    decreases |s|
  {
    if s == [] {
    } else if cls(s[0]) {
      assert DropRun(s, cls) == s[1..] by {
        if |s| > 1 {
          assert !cls(s[1]);
        }
      }
      CollapseRunsIdentity(s[1..], cls, rep);
    } else {
      CollapseRunsIdentity(s[1..], cls, rep);
    }
  }

  /** After collapsing and stripping, a character is either `rep` or a
      character of the input outside the class. */
  lemma CollapseStripChars(s: string, cls: char -> bool, rep: char)
    ensures var t := Strip(CollapseRuns(s, cls, rep), cls);
      forall i :: 0 <= i < |t| ==> t[i] == rep || (t[i] in s && !cls(t[i]))
  {
    var c := CollapseRuns(s, cls, rep);
    CollapseRunsChars(s, cls, rep);
    var t := Strip(c, cls);
    forall i | 0 <= i < |t| ensures t[i] == rep || (t[i] in s && !cls(t[i])) {
      assert t[i] in c;
    }
  }

  /** Text without class characters is left alone by collapsing and stripping. */
  lemma CollapseStripNone(s: string, cls: char -> bool, rep: char)
    requires forall i :: 0 <= i < |s| ==> !cls(s[i])
    ensures Strip(CollapseRuns(s, cls, rep), cls) == s
  {
    CollapseRunsIdentity(s, cls, rep);
    StripIdentityIfNone(s, cls);
  }

  /** Collapsing keeps a first and a last character outside the class. */
  lemma CollapseRunsEnds(s: string, cls: char -> bool, rep: char)
    requires s != []
    ensures !cls(s[0]) ==> CollapseRuns(s, cls, rep)[0] == s[0]
    ensures !cls(s[|s| - 1]) ==> CollapseRuns(s, cls, rep)[|CollapseRuns(s, cls, rep)| - 1] == s[|s| - 1]
  {
    if !cls(s[|s| - 1]) {
      CollapseRunsLast(s, cls, rep);
    }
  }

  lemma {:induction false} CollapseRunsLast(s: string, cls: char -> bool, rep: char)
    requires s != [] && !cls(s[|s| - 1])
    ensures CollapseRuns(s, cls, rep)[|CollapseRuns(s, cls, rep)| - 1] == s[|s| - 1]
    decreases |s|
  {
    if cls(s[0]) {
      var d := DropRun(s, cls);
      DropRunKeepsLast(s, cls);
      CollapseRunsLast(d, cls, rep);
      assert CollapseRuns(s, cls, rep) == [rep] + CollapseRuns(d, cls, rep);
    } else if |s| > 1 {
      var t := s[1..];
      assert t[|t| - 1] == s[|s| - 1];
      CollapseRunsLast(t, cls, rep);
      assert CollapseRuns(s, cls, rep) == [s[0]] + CollapseRuns(t, cls, rep);
    }
  }

  lemma {:induction false} DropRunKeepsLast(s: string, cls: char -> bool)
    requires s != [] && !cls(s[|s| - 1])
    ensures var d := DropRun(s, cls); d != [] && d[|d| - 1] == s[|s| - 1]
    decreases |s|
  {
    if cls(s[0]) {
      DropRunKeepsLast(s[1..], cls);
    }
  }

  /** Two words with class characters around and between them: collapsing and
      stripping leaves the words joined by one `rep`. */
  lemma CollapseStripTwoWords(sp0: string, w1: string, sp1: string, w2: string, sp2: string,
                              cls: char -> bool, rep: char)
    requires forall i :: 0 <= i < |sp0| ==> cls(sp0[i])
    requires forall i :: 0 <= i < |sp1| ==> cls(sp1[i])
    requires forall i :: 0 <= i < |sp2| ==> cls(sp2[i])
    requires cls(rep) && sp1 != [] && w1 != [] && w2 != []
    requires forall i :: 0 <= i < |w1| ==> !cls(w1[i])
    requires forall i :: 0 <= i < |w2| ==> !cls(w2[i])
    ensures Strip(CollapseRuns(sp0 + w1 + sp1 + w2 + sp2, cls, rep), cls) == w1 + [rep] + w2
  {
    CollapseTwoWords(sp0, w1, sp1, w2, sp2, cls, rep);
    StripJoinedWords(if sp0 == [] then [] else [rep], w1, w2, if sp2 == [] then [] else [rep], cls, rep);
  }

  /** Stripping the class padding off two words joined by `rep`. */
  lemma StripJoinedWords(c0: string, w1: string, w2: string, c2: string, cls: char -> bool, rep: char)
    requires forall i :: 0 <= i < |c0| ==> cls(c0[i])
    requires forall i :: 0 <= i < |c2| ==> cls(c2[i])
    requires w1 != [] && w2 != [] && !cls(w1[0]) && !cls(w2[|w2| - 1])
    ensures Strip(c0 + (w1 + [rep] + w2) + c2, cls) == w1 + [rep] + w2
  {
    var mid := w1 + [rep] + w2;
    assert mid[0] == w1[0] && mid[|mid| - 1] == w2[|w2| - 1];
    StripPadded(c0, mid, c2, cls);
  }

  lemma CollapseTwoWords(sp0: string, w1: string, sp1: string, w2: string, sp2: string,
                         cls: char -> bool, rep: char)
    requires forall i :: 0 <= i < |sp0| ==> cls(sp0[i])
    requires forall i :: 0 <= i < |sp1| ==> cls(sp1[i])
    requires forall i :: 0 <= i < |sp2| ==> cls(sp2[i])
    requires sp1 != [] && w1 != [] && w2 != []
    requires forall i :: 0 <= i < |w1| ==> !cls(w1[i])
    requires forall i :: 0 <= i < |w2| ==> !cls(w2[i])
    ensures CollapseRuns(sp0 + w1 + sp1 + w2 + sp2, cls, rep) ==
      (if sp0 == [] then [] else [rep]) + (w1 + [rep] + w2) + (if sp2 == [] then [] else [rep])
  {
    var tail := CollapseRuns(sp2, cls, rep);
    CollapseRunsTail(sp2, cls, rep);
    var x0 := w1 + (sp1 + (w2 + sp2));
    CollapseRunsWord(w2, sp2, cls, rep);
    assert (w2 + sp2)[0] == w2[0];
    CollapseRunsRun(sp1, w2 + sp2, cls, rep);
    CollapseRunsWord(w1, sp1 + (w2 + sp2), cls, rep);
    assert CollapseRuns(x0, cls, rep) == w1 + ([rep] + (w2 + tail));
    Reassociate5(sp0, w1, sp1, w2, sp2);
    Reassociate4(w1, [rep], w2, tail);
    var mid := w1 + [rep] + w2;
    assert CollapseRuns(x0, cls, rep) == mid + tail;
    if sp0 != [] {
      assert x0[0] == w1[0];
      CollapseRunsRun(sp0, x0, cls, rep);
      assert CollapseRuns(sp0 + x0, cls, rep) == [rep] + (mid + tail);
      assert [rep] + (mid + tail) == [rep] + mid + tail;
    } else {
      assert sp0 + x0 == x0;
      assert mid + tail == [] + mid + tail;
    }
  }

  /** Two words with a run between them: the run becomes one `rep`. */
  lemma CollapseWordsJoined(w1: string, sp1: string, w2: string, cls: char -> bool, rep: char)
    requires forall i :: 0 <= i < |sp1| ==> cls(sp1[i])
    requires sp1 != [] && w1 != [] && w2 != []
    requires forall i :: 0 <= i < |w1| ==> !cls(w1[i])
    requires forall i :: 0 <= i < |w2| ==> !cls(w2[i])
    ensures CollapseRuns(w1 + sp1 + w2, cls, rep) == w1 + [rep] + w2
  {
    var e: string := [];
    CollapseRunsWord(w2, e, cls, rep);
    assert w2 + e == w2;
    CollapseRunsRun(sp1, w2, cls, rep);
    CollapseRunsWord(w1, sp1 + w2, cls, rep);
    assert w1 + sp1 + w2 == w1 + (sp1 + w2);
  }

  lemma CollapseRunsTail(sp: string, cls: char -> bool, rep: char)
    requires forall i :: 0 <= i < |sp| ==> cls(sp[i])
    ensures CollapseRuns(sp, cls, rep) == if sp == [] then [] else [rep]
  {
    if sp != [] {
      CollapseRunsRun(sp, [], cls, rep);
      assert sp + [] == sp;
    }
  }

  lemma Reassociate5(a: string, b: string, c: string, d: string, e: string)
    ensures a + b + c + d + e == a + (b + (c + (d + e)))
  {
  }

  lemma Reassociate4(a: string, b: string, c: string, d: string)
    ensures a + (b + (c + d)) == a + b + c + d
  {
  }

  /** A stretch without class characters is copied as it is. */
  lemma {:induction false} CollapseRunsWord(w: string, t: string, cls: char -> bool, rep: char)
    requires forall i :: 0 <= i < |w| ==> !cls(w[i])
    ensures CollapseRuns(w + t, cls, rep) == w + CollapseRuns(t, cls, rep)
  {
    if w == [] {
      assert w + t == t;
    } else {
      var u := w[1..] + t;
      CollapseRunsWord(w[1..], t, cls, rep);
      CollapseRunsCons(w[0], u, cls, rep);
      AssocCons(w, t);
      AssocCons(w, CollapseRuns(t, cls, rep));
    }
  }

  /** A character outside the class is copied. */
  lemma CollapseRunsCons(c: char, t: string, cls: char -> bool, rep: char)
    requires !cls(c)
    ensures CollapseRuns([c] + t, cls, rep) == [c] + CollapseRuns(t, cls, rep)
  {
    assert ([c] + t)[1..] == t;
  }

  lemma AssocCons(w: string, t: string)
    requires w != []
    ensures [w[0]] + (w[1..] + t) == w + t
  {
    assert w == [w[0]] + w[1..];
  }

  /** A whole run followed by a non-class character becomes one `rep`. */
  lemma CollapseRunsRun(sp: string, t: string, cls: char -> bool, rep: char)
    requires sp != [] && forall i :: 0 <= i < |sp| ==> cls(sp[i])
    requires t == [] || !cls(t[0])
    ensures CollapseRuns(sp + t, cls, rep) == [rep] + CollapseRuns(t, cls, rep)
  {
    assert (sp + t)[0] == sp[0];
    DropRunAll(sp, t, cls);
  }

  lemma {:induction false} DropRunAll(sp: string, t: string, cls: char -> bool)
    requires forall i :: 0 <= i < |sp| ==> cls(sp[i])
    requires t == [] || !cls(t[0])
    ensures DropRun(sp + t, cls) == t
  {
    if sp == [] {
      assert sp + t == t;
    } else {
      assert (sp + t)[0] == sp[0] && (sp + t)[1..] == sp[1..] + t;
      DropRunAll(sp[1..], t, cls);
    }
  }

  /** Stripping removes exactly the class characters padding a text whose
      ends are outside the class. */
  lemma StripPadded(p: string, x: string, q: string, cls: char -> bool)
    requires forall i :: 0 <= i < |p| ==> cls(p[i])
    requires forall i :: 0 <= i < |q| ==> cls(q[i])
    requires x != [] && !cls(x[0]) && !cls(x[|x| - 1])
    ensures Strip(p + x + q, cls) == x
  {
    var y := x + q;
    assert p + x + q == p + y;
    assert y[0] == x[0];
    StripLeftPadded(p, y, cls);
    StripRightPadded(x, q, cls);
  }

  lemma {:induction false} StripLeftPadded(p: string, y: string, cls: char -> bool)
    requires forall i :: 0 <= i < |p| ==> cls(p[i])
    requires y != [] && !cls(y[0])
    ensures StripLeft(p + y, cls) == y
  {
    if p == [] {
      assert p + y == y;
    } else {
      assert (p + y)[0] == p[0] && (p + y)[1..] == p[1..] + y;
      StripLeftPadded(p[1..], y, cls);
    }
  }

  lemma {:induction false} StripRightPadded(x: string, q: string, cls: char -> bool)
    requires forall i :: 0 <= i < |q| ==> cls(q[i])
    requires x != [] && !cls(x[|x| - 1])
    ensures StripRight(x + q, cls) == x
    decreases |q|
  {
    if q == [] {
      assert x + q == x;
    } else {
      var s := x + q;
      assert s[|s| - 1] == q[|q| - 1];
      assert s[..|s| - 1] == x + q[..|q| - 1];
      StripRightPadded(x, q[..|q| - 1], cls);
    }
  }

  // ---------------------------------------------------------------------
  // str.split with a one-character separator

  function IndexOf(s: string, c: char): (i: nat)
    ensures i <= |s|
    ensures i < |s| ==> s[i] == c
    ensures forall j :: 0 <= j < i ==> s[j] != c
  {
    if s == [] then 0 else if s[0] == c then 0 else 1 + IndexOf(s[1..], c)
  }

  function Split(s: string, sep: char): (r: seq<string>)
    ensures |r| >= 1
    decreases |s|
  {
    var i := IndexOf(s, sep);
    if i == |s| then [s] else [s[..i]] + Split(s[i + 1..], sep)
  }

  /** `a, b = s.split(sep)` succeeds exactly when `s` has one separator,
      and then `a` and `b` are the text around it. */
  lemma SplitInTwo(s: string, sep: char)
    ensures |Split(s, sep)| == 2 <==> multiset(s)[sep] == 1
    ensures |Split(s, sep)| == 2 ==>
      var r := Split(s, sep);
      s == r[0] + [sep] + r[1] && sep !in r[0] && sep !in r[1]
  {
    var i := IndexOf(s, sep);
    if i == |s| {
      assert sep !in s;
      assert multiset(s)[sep] == 0;
    } else {
      var rest := s[i + 1..];
      assert s == s[..i] + [sep] + rest;
      assert sep !in s[..i];
      assert multiset(s)[sep] == 1 + multiset(rest)[sep] by {
        assert multiset(s) == multiset(s[..i]) + multiset{sep} + multiset(rest);
      }
      if IndexOf(rest, sep) == |rest| {
        assert sep !in rest;
        assert Split(rest, sep) == [rest];
      } else {
        assert sep in rest;
        assert |Split(rest, sep)| >= 2;
      }
    }
  }

  lemma SplitJoin(a: string, sep: char, b: string)
    requires sep !in a && sep !in b
    ensures Split(a + [sep] + b, sep) == [a, b]
  {
    var s := a + [sep] + b;
    assert forall j :: 0 <= j < |a| ==> s[j] == a[j];
    assert s[|a|] == sep;
    var i := IndexOf(s, sep);
    assert i == |a|;
    assert s[..i] == a && s[i + 1..] == b;
    assert IndexOf(b, sep) == |b| by {
      assert forall j :: 0 <= j < |b| ==> b[j] in b;
    }
  }

  // ---------------------------------------------------------------------
  // Decimal numbers

  function DigitValue(c: char): (v: nat)
    requires IsAsciiDigit(c)
    ensures v < 10
  {
    c as int - '0' as int
  }

  function DigitChar(v: nat): (c: char)
    requires v < 10
    ensures IsAsciiDigit(c) && DigitValue(c) == v
  {
    ('0' as int + v) as char
  }

  predicate AllDigits(s: string) { forall i :: 0 <= i < |s| ==> IsAsciiDigit(s[i]) }

  function DecimalValue(s: string): (v: nat)
    requires AllDigits(s)
  {
    if s == [] then 0 else DecimalValue(s[..|s| - 1]) * 10 + DigitValue(s[|s| - 1])
  }

  /** f'{n}' for a non-negative integer. */
  function NatToString(n: nat): (s: string)
    ensures |s| >= 1 && AllDigits(s)
  {
    if n < 10 then [DigitChar(n)] else NatToString(n / 10) + [DigitChar(n % 10)]
  }

  lemma {:induction false} NatToStringValue(n: nat)
    ensures DecimalValue(NatToString(n)) == n
  {
    if n >= 10 {
      NatToStringValue(n / 10);
      var s := NatToString(n);
      assert s[..|s| - 1] == NatToString(n / 10);
    }
  }

  lemma NatToStringInjective(m: nat, n: nat)
    requires NatToString(m) == NatToString(n)
    ensures m == n
  {
    NatToStringValue(m);
    NatToStringValue(n);
  }

  /** The digit string of int(): ASCII digits, with single underscores allowed
      between two digits. */
  predicate IsDigitGroup(s: string) {
    |s| >= 1 && IsAsciiDigit(s[0]) && IsAsciiDigit(s[|s| - 1]) &&
    (forall i :: 0 <= i < |s| ==> IsAsciiDigit(s[i]) || s[i] == '_') &&
    (forall i :: 0 <= i < |s| - 1 ==> !(s[i] == '_' && s[i + 1] == '_'))
  }

  /** The digits of a digit group, underscores dropped. */
  function GroupDigits(s: string): (d: string)
    requires forall i :: 0 <= i < |s| ==> IsAsciiDigit(s[i]) || s[i] == '_'
    ensures AllDigits(d)
    ensures AllDigits(s) ==> d == s
  {
    if s == [] then []
    else if s[0] == '_' then GroupDigits(s[1..])
    else [s[0]] + GroupDigits(s[1..])
  }

  /** The default of `sys.get_int_max_str_digits()`: `int()` of a string
      raises `ValueError` when it holds more digits than this (Python 3.11 on,
      and the 3.8.14, 3.9.14 and 3.10.7 releases). Leading zeros count;
      underscores, the sign and surrounding whitespace do not. */
  const MaxStrDigits := 4300

  /** The whitespace `int()` strips around a number: C `isspace` below 127
      (tab to carriage return, and space), and every non-ASCII character that
      `str.isspace` admits (mapped to a space first). U+001C to U+001F are
      `str.isspace` but are not stripped. */
  predicate IsIntSpace(c: char) {
    (9 <= c as int <= 13) || c == ' ' || (c as int > 0x7f && IsPySpace(c))
  }

  /** The sign-free digit group `int(s)` reads, once whitespace is stripped. */
  function IntBody(s: string): string {
    var t := Strip(s, IsIntSpace);
    if |t| >= 1 && (t[0] == '+' || t[0] == '-') then t[1..] else t
  }

  /** int(s) for base 10 on the text the model admits: surrounding whitespace,
      an optional sign and a digit group of at most `MaxStrDigits` digits. */
  function ParseInt(s: string): (r: Option<int>)
    ensures r.Some? ==> IsDigitGroup(IntBody(s)) && |GroupDigits(IntBody(s))| <= MaxStrDigits
  {
    var t := Strip(s, IsIntSpace);
    var hasSign := |t| >= 1 && (t[0] == '+' || t[0] == '-');
    var body := if hasSign then t[1..] else t;
    if !IsDigitGroup(body) || |GroupDigits(body)| > MaxStrDigits then None
    else
      var v: int := DecimalValue(GroupDigits(body));
      Some(if hasSign && t[0] == '-' then -v else v)
  }

  lemma DigitsAreGroup(s: string)
    requires |s| >= 1 && AllDigits(s)
    ensures IsDigitGroup(s)
    ensures forall i :: 0 <= i < |s| ==> !IsIntSpace(s[i])
    ensures s[0] != '+' && s[0] != '-'
  {
    assert IsAsciiDigit(s[0]) && IsAsciiDigit(s[|s| - 1]);
    forall i | 0 <= i < |s| ensures !IsIntSpace(s[i]) {
      assert IsAsciiDigit(s[i]);
    }
  }

  /** int() reads back what f'{n}' writes, up to the digit limit. */
  lemma ParseIntOfNatToString(n: nat)
    requires |NatToString(n)| <= MaxStrDigits
    ensures ParseInt(NatToString(n)) == Some(n)
  {
    ParseIntOfDigits(NatToString(n));
    NatToStringValue(n);
  }

  /** int() of a plain digit string within the limit is its decimal value. */
  lemma ParseIntOfDigits(s: string)
    requires 1 <= |s| <= MaxStrDigits && AllDigits(s)
    ensures ParseInt(s) == Some(DecimalValue(s) as int)
  {
    DigitsAreGroup(s);
    StripIdentityIfNone(s, IsIntSpace);
    var t := Strip(s, IsIntSpace);
    assert t == s;
    var hasSign := |t| >= 1 && (t[0] == '+' || t[0] == '-');
    assert !hasSign;
  }

  /** A file, group, record or unit separator (U+001C to U+001F) anywhere in
      the text makes `int()` raise, although `str.strip` would remove it:
      `int("\x1c800")` and `int("600\x1f")` raise. */
  lemma ParseIntRefusesSeparators(s: string, k: nat)
    requires k < |s| && 0x1c <= s[k] as int <= 0x1f
    ensures ParseInt(s).None?
  {
    SeparatorNotIntSpace(s[k]);
    var j := IntBodyKeeps(s, k);
    assert !IsDigitGroup(IntBody(s)) by {
      assert !IsAsciiDigit(IntBody(s)[j]) && IntBody(s)[j] != '_';
    }
  }

  /** A character that is neither stripped nor a sign stays in the digit
      group `int()` reads. */
  lemma IntBodyKeeps(s: string, k: nat) returns (j: nat)
    requires k < |s| && !IsIntSpace(s[k]) && s[k] != '+' && s[k] != '-'
    ensures j < |IntBody(s)| && IntBody(s)[j] == s[k]
  {
    var a, b := StripBounds(s, IsIntSpace);
    var t := Strip(s, IsIntSpace);
    assert a <= k < b;
    assert t[k - a] == s[k];
    var sign := if |t| >= 1 && (t[0] == '+' || t[0] == '-') then 1 else 0;
    assert IntBody(s) == t[sign..];
    j := k - a - sign;
  }

  lemma SeparatorNotIntSpace(c: char)
    requires 0x1c <= c as int <= 0x1f
    ensures !IsIntSpace(c) && !IsAsciiDigit(c) && c != '_' && c != '+' && c != '-'
  {
  }

  /** A plain digit string longer than the limit is refused, whatever its
      value: `"0" * 4300 + "1"` is refused although it denotes 1. */
  lemma ParseIntTooManyDigits(s: string)
    requires AllDigits(s) && |s| > MaxStrDigits
    ensures ParseInt(s).None?
  {
    DigitsAreGroup(s);
    StripIdentityIfNone(s, IsIntSpace);
    assert IntBody(s) == s;
    assert GroupDigits(s) == s;
  }

  /** The number of digits of `n` is at most `k` when `n < 10^k`. */
  lemma {:induction false} NatToStringLength(n: nat, k: nat)
    requires k >= 1 && n < Pow10(k)
    ensures |NatToString(n)| <= k
  {
    if n >= 10 {
      NatToStringLength(n / 10, k - 1);
    }
  }

  function Pow10(k: nat): (p: nat)
    ensures p >= 1
  {
    if k == 0 then 1 else 10 * Pow10(k - 1)
  }

  lemma ParseIntDigits(s: string)
    requires ParseInt(s).Some?
    ensures exists i :: 0 <= i < |s| && IsAsciiDigit(s[i])
  {
    var a, b := StripBounds(s, IsIntSpace);
    var t := Strip(s, IsIntSpace);
    var body := IntBody(s);
    var j := if |t| >= 1 && (t[0] == '+' || t[0] == '-') then 1 else 0;
    assert body == t[j..];
    assert IsAsciiDigit(body[0]);
    assert s[a + j] == body[0];
  }

  // ---------------------------------------------------------------------
  // JavaScript string length: UTF-16 code units

  function JsLength(s: string): (n: nat)
    ensures |s| <= n <= 2 * |s|
  {
    if s == [] then 0
    else JsLength(s[..|s| - 1]) + (if s[|s| - 1] as int >= 0x10000 then 2 else 1)
  }
}
