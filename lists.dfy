/** Sequence operations the scraper borrows from Python and JavaScript:
    filtering, duplicate removal that keeps first occurrences (a JavaScript
    `Set` spread back into an array, Python's `dict.fromkeys`), the stable
    sort of ECMAScript's `Array.prototype.sort` with a descending key, and
    Python's `s[:k]` slice. */
module Lists {

  // ---------------------------------------------------------------------
  // Filtering

  /** The order-preserving subsequence of the elements that satisfy `p`. */
  function Filter<T>(s: seq<T>, p: T -> bool): (r: seq<T>)
    ensures |r| <= |s|
    ensures forall i :: 0 <= i < |r| ==> p(r[i]) && r[i] in s
  {
    if s == [] then [] else (if p(s[0]) then [s[0]] else []) + Filter(s[1..], p)
  }

  lemma {:induction false} FilterConcat<T>(a: seq<T>, b: seq<T>, p: T -> bool)
    ensures Filter(a + b, p) == Filter(a, p) + Filter(b, p)
  {
    if a == [] {
      assert a + b == b;
    } else {
      assert (a + b)[0] == a[0];
      assert (a + b)[1..] == a[1..] + b;
      FilterConcat(a[1..], b, p);
    }
  }

  /** An element is kept exactly when it occurs and satisfies `p`. */
  lemma {:induction false} FilterMembers<T>(s: seq<T>, p: T -> bool, x: T)
    ensures x in Filter(s, p) <==> x in s && p(x)
  {
    if s != [] {
      FilterMembers(s[1..], p, x);
      assert x in s <==> x == s[0] || x in s[1..];
    }
  }

  /** `sub` is `s` with some elements left out, the rest kept in order. */
  predicate IsSubsequence<T(==)>(sub: seq<T>, s: seq<T>)
    decreases |s|
  {
    if sub == [] then true
    else if s == [] then false
    else if sub[0] == s[0] then IsSubsequence(sub[1..], s[1..])
    else IsSubsequence(sub, s[1..])
  }

  lemma {:induction false} FilterIsSubsequence<T>(s: seq<T>, p: T -> bool)
    ensures IsSubsequence(Filter(s, p), s)
  {
    if s != [] {
      FilterIsSubsequence(s[1..], p);
      if p(s[0]) {
        assert Filter(s, p) == [s[0]] + Filter(s[1..], p);
        assert Filter(s, p)[1..] == Filter(s[1..], p);
      } else {
        assert Filter(s, p) == Filter(s[1..], p);
      }
    }
  }

  // ---------------------------------------------------------------------
  // Duplicate removal keeping first occurrences

  predicate NoDup<T(==)>(s: seq<T>) {
    forall i, j :: 0 <= i < j < |s| ==> s[i] != s[j]
  }

  /** Elements of `s` not in `seen`, each at its first occurrence. */
  function DedupFrom<T(==)>(s: seq<T>, seen: set<T>): (r: seq<T>)
    ensures forall i :: 0 <= i < |r| ==> r[i] !in seen
  {
    if s == [] then []
    else if s[0] in seen then DedupFrom(s[1..], seen)
    else [s[0]] + DedupFrom(s[1..], seen + {s[0]})
  }

  /** `[...new Set(s)]` in JavaScript and `list(dict.fromkeys(s))` in Python. */
  function Dedup<T(==)>(s: seq<T>): seq<T> {
    DedupFrom(s, {})
  }

  lemma {:induction false} DedupFromMembers<T>(s: seq<T>, seen: set<T>, x: T)
    ensures x in DedupFrom(s, seen) <==> x in s && x !in seen
  {
    if s != [] {
      assert x in s <==> x == s[0] || x in s[1..];
      if s[0] in seen {
        DedupFromMembers(s[1..], seen, x);
      } else {
        DedupFromMembers(s[1..], seen + {s[0]}, x);
      }
    }
  }

  lemma {:induction false} DedupFromNoDup<T>(s: seq<T>, seen: set<T>)
    ensures NoDup(DedupFrom(s, seen))
  {
    if s != [] {
      if s[0] in seen {
        DedupFromNoDup(s[1..], seen);
      } else {
        var rest := DedupFrom(s[1..], seen + {s[0]});
        DedupFromNoDup(s[1..], seen + {s[0]});
        assert forall i :: 0 <= i < |rest| ==> rest[i] != s[0];
        assert DedupFrom(s, seen) == [s[0]] + rest;
      }
    }
  }

  lemma {:induction false} DedupFromSubsequence<T>(s: seq<T>, seen: set<T>)
    ensures IsSubsequence(DedupFrom(s, seen), s)
  {
    if s != [] {
      if s[0] in seen {
        DedupFromSubsequence(s[1..], seen);
        SubsequenceSkip(DedupFrom(s[1..], seen), s);
      } else {
        DedupFromSubsequence(s[1..], seen + {s[0]});
        assert DedupFrom(s, seen)[1..] == DedupFrom(s[1..], seen + {s[0]});
      }
    }
  }

  lemma SubsequenceSkip<T>(sub: seq<T>, s: seq<T>)
    requires s != [] && IsSubsequence(sub, s[1..])
    ensures IsSubsequence(sub, s)
    decreases |s|, 0
  {
    if sub != [] && sub[0] == s[0] {
      SubsequenceDrop(sub, s[1..]);
    }
  }

  lemma SubsequenceDrop<T>(sub: seq<T>, t: seq<T>)
    requires sub != [] && IsSubsequence(sub, t)
    ensures IsSubsequence(sub[1..], t)
    decreases |t|, 1
  {
    if sub[0] == t[0] {
      SubsequenceSkip(sub[1..], t);
    } else {
      SubsequenceDrop(sub, t[1..]);
      SubsequenceSkip(sub[1..], t);
    }
  }

  /** Position of the first occurrence of `x` in `s`. */
  function FirstIndex<T(==)>(s: seq<T>, x: T): (i: nat)
    requires x in s
    ensures i < |s| && s[i] == x
    ensures forall j :: 0 <= j < i ==> s[j] != x
  {
    if s[0] == x then 0 else 1 + FirstIndex(s[1..], x)
  }

  /** The output lists the distinct elements in the order of their first
      occurrence in the input. */
  lemma {:induction false} DedupFromOrder<T>(s: seq<T>, seen: set<T>, i: int, j: int)
    requires 0 <= i < j < |DedupFrom(s, seen)|
    ensures DedupFrom(s, seen)[i] in s && DedupFrom(s, seen)[j] in s
    ensures FirstIndex(s, DedupFrom(s, seen)[i]) < FirstIndex(s, DedupFrom(s, seen)[j])
  {
    if s[0] in seen {
      var r := DedupFrom(s, seen);
      DedupFromOrder(s[1..], seen, i, j);
      assert r == DedupFrom(s[1..], seen);
      FirstIndexTail(s, r[i]);
      FirstIndexTail(s, r[j]);
    } else if i > 0 {
      DedupFromOrder(s[1..], seen + {s[0]}, i - 1, j - 1);
      DedupFromOrderFresh(s, seen, i, j);
    } else {
      DedupFromOrderFresh(s, seen, i, j);
    }
  }

  /** The step of `DedupFromOrder` when the head is new: it comes first, and
      the order of the rest is that of the tail. */
  lemma DedupFromOrderFresh<T>(s: seq<T>, seen: set<T>, i: int, j: int)
    requires s != [] && s[0] !in seen
    requires 0 <= i < j < |DedupFrom(s, seen)|
    requires i > 0 ==> DedupFrom(s[1..], seen + {s[0]})[i - 1] in s[1..]
    requires i > 0 ==> DedupFrom(s[1..], seen + {s[0]})[j - 1] in s[1..]
    requires i > 0 ==> FirstIndex(s[1..], DedupFrom(s[1..], seen + {s[0]})[i - 1])
                         < FirstIndex(s[1..], DedupFrom(s[1..], seen + {s[0]})[j - 1])
    ensures DedupFrom(s, seen)[i] in s && DedupFrom(s, seen)[j] in s
    ensures FirstIndex(s, DedupFrom(s, seen)[i]) < FirstIndex(s, DedupFrom(s, seen)[j])
  {
    var r := DedupFrom(s, seen);
    var rest := DedupFrom(s[1..], seen + {s[0]});
    assert r == [s[0]] + rest;
    ConsIndex(s[0], rest, j);
    DedupFromMembers(s[1..], seen + {s[0]}, r[j]);
    FirstIndexTail(s, r[j]);
    if i == 0 {
      assert FirstIndex(s, r[i]) == 0;
    } else {
      ConsIndex(s[0], rest, i);
      DedupFromMembers(s[1..], seen + {s[0]}, r[i]);
      FirstIndexTail(s, r[i]);
    }
  }

  lemma ConsIndex<T>(a: T, t: seq<T>, k: int)
    requires 0 < k <= |t|
    ensures ([a] + t)[k] == t[k - 1]
  {
  }

  lemma FirstIndexTail<T>(s: seq<T>, x: T)
    requires x in s && x != s[0]
    ensures x in s[1..] && FirstIndex(s, x) == 1 + FirstIndex(s[1..], x)
  {
  }

  lemma DedupMembers<T>(s: seq<T>, x: T)
    ensures x in Dedup(s) <==> x in s
  {
    DedupFromMembers(s, {}, x);
  }

  lemma DedupNoDup<T>(s: seq<T>)
    ensures NoDup(Dedup(s))
  {
    DedupFromNoDup(s, {});
  }

  /** Nothing is dropped from a list that has no duplicates. */
  lemma {:induction false} DedupFromIdentity<T>(s: seq<T>, seen: set<T>)
    requires NoDup(s) && forall i :: 0 <= i < |s| ==> s[i] !in seen
    ensures DedupFrom(s, seen) == s
  {
    if s != [] {
      assert forall i :: 0 <= i < |s[1..]| ==> s[1..][i] == s[i + 1] && s[i + 1] != s[0];
      DedupFromIdentity(s[1..], seen + {s[0]});
    }
  }

  /** Appending to a duplicate-free list and removing duplicates keeps the
      list as a prefix and adds only new elements after it. */
  lemma {:induction false} DedupAfterPrefix<T>(p: seq<T>, c: seq<T>, seen: set<T>)
    requires NoDup(p) && forall i :: 0 <= i < |p| ==> p[i] !in seen
    ensures DedupFrom(p + c, seen) == p + DedupFrom(c, seen + set x | x in p)
  {
    if p == [] {
      assert p + c == c;
      assert (set x | x in p) == {};
      assert seen + {} == seen;
    } else {
      assert (p + c)[1..] == p[1..] + c;
      assert forall i :: 0 <= i < |p[1..]| ==> p[1..][i] == p[i + 1] && p[i + 1] != p[0];
      DedupAfterPrefix(p[1..], c, seen + {p[0]});
      assert (seen + {p[0]}) + (set x | x in p[1..]) == seen + (set x | x in p);
    }
  }

  // ---------------------------------------------------------------------
  // Stable sort by a key, largest key first

  predicate SortedDesc<T>(s: seq<T>, key: T -> nat) {
    forall i, j :: 0 <= i < j < |s| ==> key(s[i]) >= key(s[j])
  }

  /** Place `x` after every element with a strictly larger key and before the
      rest: where a stable sort puts the first of the remaining elements. */
  function InsertDesc<T>(x: T, s: seq<T>, key: T -> nat): (r: seq<T>)
    ensures |r| == |s| + 1
    ensures multiset(r) == multiset(s) + multiset{x}
  {
    if s == [] then [x]
    else if key(s[0]) > key(x) then
      assert s == [s[0]] + s[1..];
      [s[0]] + InsertDesc(x, s[1..], key)
    else [x] + s
  }

  /** `s.sort((a, b) => key(b) - key(a))` under ECMAScript's stable sort. */
  function SortDesc<T>(s: seq<T>, key: T -> nat): (r: seq<T>)
    ensures |r| == |s|
    ensures multiset(r) == multiset(s)
  {
    if s == [] then []
    else
      assert s == [s[0]] + s[1..];
      InsertDesc(s[0], SortDesc(s[1..], key), key)
  }

  lemma {:induction false} InsertDescSorted<T>(x: T, s: seq<T>, key: T -> nat)
    requires SortedDesc(s, key)
    ensures SortedDesc(InsertDesc(x, s, key), key)
  {
    if s != [] && key(s[0]) > key(x) {
      InsertDescSorted(x, s[1..], key);
      var t := InsertDesc(x, s[1..], key);
      assert forall k :: 0 <= k < |t| ==> key(t[k]) <= key(s[0]) by {
        forall k | 0 <= k < |t| ensures key(t[k]) <= key(s[0]) {
          assert t[k] in multiset(t);
          assert t[k] == x || t[k] in multiset(s[1..]);
          if t[k] != x {
            var m :| 0 <= m < |s[1..]| && s[1..][m] == t[k];
            assert s[m + 1] == t[k];
          }
        }
      }
      assert InsertDesc(x, s, key) == [s[0]] + t;
    }
  }

  lemma {:induction false} SortDescSorted<T>(s: seq<T>, key: T -> nat)
    ensures SortedDesc(SortDesc(s, key), key)
  {
    if s != [] {
      SortDescSorted(s[1..], key);
      InsertDescSorted(s[0], SortDesc(s[1..], key), key);
    }
  }

  /** Elements whose key is `k`, in order. */
  function WithKey<T>(s: seq<T>, key: T -> nat, k: nat): (r: seq<T>)
    ensures forall i :: 0 <= i < |r| ==> key(r[i]) == k
  {
    if s == [] then [] else (if key(s[0]) == k then [s[0]] else []) + WithKey(s[1..], key, k)
  }

  lemma {:induction false} InsertDescStable<T>(x: T, s: seq<T>, key: T -> nat, k: nat)
    ensures WithKey(InsertDesc(x, s, key), key, k) == (if key(x) == k then [x] else []) + WithKey(s, key, k)
  {
    if s != [] && key(s[0]) > key(x) {
      InsertDescStable(x, s[1..], key, k);
      InsertDescStableStep(x, s, key, k);
    } else if s != [] {
      WithKeyCons(x, s, key, k);
    }
  }

  /** The step of the induction: `x` goes past `s[0]`, whose key is larger. */
  lemma InsertDescStableStep<T>(x: T, s: seq<T>, key: T -> nat, k: nat)
    requires s != [] && key(s[0]) > key(x)
    requires WithKey(InsertDesc(x, s[1..], key), key, k) == (if key(x) == k then [x] else []) + WithKey(s[1..], key, k)
    ensures WithKey(InsertDesc(x, s, key), key, k) == (if key(x) == k then [x] else []) + WithKey(s, key, k)
  {
    var fx := if key(x) == k then [x] else [];
    var fs0 := if key(s[0]) == k then [s[0]] else [];
    var w1 := WithKey(s[1..], key, k);
    WithKeyCons(s[0], InsertDesc(x, s[1..], key), key, k);
    WithKeyCons(s[0], s[1..], key, k);
    assert [s[0]] + s[1..] == s;
    assert fx == [] || fs0 == [];
    assert fs0 + (fx + w1) == fx + (fs0 + w1);
  }

  lemma WithKeyCons<T>(a: T, t: seq<T>, key: T -> nat, k: nat)
    ensures WithKey([a] + t, key, k) == (if key(a) == k then [a] else []) + WithKey(t, key, k)
  {
    assert ([a] + t)[0] == a && ([a] + t)[1..] == t;
  }

  /** Stability: elements with equal keys keep their relative order. */
  lemma {:induction false} SortDescStable<T>(s: seq<T>, key: T -> nat, k: nat)
    ensures WithKey(SortDesc(s, key), key, k) == WithKey(s, key, k)
  {
    if s != [] {
      SortDescStable(s[1..], key, k);
      InsertDescStable(s[0], SortDesc(s[1..], key), key, k);
    }
  }

  lemma SortDescMembers<T>(s: seq<T>, key: T -> nat, x: T)
    ensures x in SortDesc(s, key) <==> x in s
  {
    var r := SortDesc(s, key);
    assert x in r <==> x in multiset(r);
    assert x in s <==> x in multiset(s);
  }

  lemma {:induction false} InsertDescNoDup<T>(x: T, s: seq<T>, key: T -> nat)
    requires NoDup(s) && x !in s
    ensures NoDup(InsertDesc(x, s, key))
  {
    if s != [] && key(s[0]) > key(x) {
      var t := InsertDesc(x, s[1..], key);
      assert NoDup(s[1..]) && x !in s[1..];
      InsertDescNoDup(x, s[1..], key);
      assert s[0] !in t by {
        assert s[0] !in multiset(s[1..]) + multiset{x};
        assert multiset(t) == multiset(s[1..]) + multiset{x};
      }
      assert InsertDesc(x, s, key) == [s[0]] + t;
    }
  }

  lemma {:induction false} SortDescNoDup<T>(s: seq<T>, key: T -> nat)
    requires NoDup(s)
    ensures NoDup(SortDesc(s, key))
  {
    if s != [] {
      var r := SortDesc(s[1..], key);
      assert NoDup(s[1..]);
      SortDescNoDup(s[1..], key);
      assert s[0] !in r by {
        assert s[0] !in multiset(s[1..]);
        assert multiset(r) == multiset(s[1..]);
      }
      InsertDescNoDup(s[0], r, key);
    }
  }

  // ---------------------------------------------------------------------
  // Python's s[:k]

  /** `s[:k]` for any integer `k`: a negative `k` drops `-k` elements from
      the end. */
  function SliceTo<T>(s: seq<T>, k: int): (r: seq<T>)
    ensures |r| == (if k >= 0 then (if k < |s| then k else |s|)
                    else (if |s| + k > 0 then |s| + k else 0))
    ensures r == s[..|r|]
  {
    if k >= 0 then (if k < |s| then s[..k] else s)
    else if |s| + k > 0 then s[..|s| + k] else []
  }
}
