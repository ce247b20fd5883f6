/**
 * The parts of Go's `strings`, `unicode` and `sort` packages that the core relies on,
 * on strings as sequences of Unicode scalar values. Go compares strings byte-wise;
 * for UTF-8 text that is the same order as comparing code points, which is what `Less`
 * does here.
 */
module Strings {

  /** `unicode.IsSpace`: the Latin-1 spaces and the other White_Space code points. */
  predicate IsSpace(c: char)
  {
    || ('\t' <= c <= '\r') || c == ' ' || c == '\U{85}' || c == '\U{A0}' || c == '\U{1680}'
    || ('\U{2000}' <= c <= '\U{200A}') || c == '\U{2028}' || c == '\U{2029}' || c == '\U{202F}'
    || c == '\U{205F}' || c == '\U{3000}'
  }

  predicate AllSpace(t: string)
  {
    forall i :: 0 <= i < |t| ==> IsSpace(t[i])
  }

  function TrimLeft(s: string): string
    decreases |s|
  {
    if |s| > 0 && IsSpace(s[0]) then TrimLeft(s[1..]) else s
  }

  function TrimRight(s: string): string
    decreases |s|
  {
    if |s| > 0 && IsSpace(s[|s| - 1]) then TrimRight(s[..|s| - 1]) else s
  }

  /** `TrimLeft` leaves a suffix of `s` that starts with something other than a space. */
  lemma {:induction false} TrimLeftSuffix(s: string)
    ensures |TrimLeft(s)| <= |s| && TrimLeft(s) == s[|s| - |TrimLeft(s)|..]
    ensures TrimLeft(s) == [] || !IsSpace(TrimLeft(s)[0])
    decreases |s|
  {
    if |s| > 0 && IsSpace(s[0]) {
      TrimLeftSuffix(s[1..]);
    }
  }

  /** What `TrimLeft` cuts off is spaces only. */
  lemma {:induction false} TrimLeftSpaces(s: string)
    ensures |TrimLeft(s)| <= |s| && AllSpace(s[..|s| - |TrimLeft(s)|])
    decreases |s|
  {
    if |s| > 0 && IsSpace(s[0]) {
      var t := s[1..];
      var k := |s| - |TrimLeft(t)|;
      assert TrimLeft(s) == TrimLeft(t);
      TrimLeftSpaces(t);
      forall i | 0 <= i < k ensures IsSpace(s[..k][i]) {
        if i > 0 {
          assert s[..k][i] == t[..k - 1][i - 1];
        }
      }
    }
  }

  /** `TrimRight` leaves a prefix of `s` that ends with something other than a space. */
  lemma {:induction false} TrimRightPrefix(s: string)
    ensures |TrimRight(s)| <= |s| && TrimRight(s) == s[..|TrimRight(s)|]
    ensures TrimRight(s) == [] || !IsSpace(TrimRight(s)[|TrimRight(s)| - 1])
    decreases |s|
  {
    if |s| > 0 && IsSpace(s[|s| - 1]) {
      TrimRightPrefix(s[..|s| - 1]);
    }
  }

  /** What `TrimRight` cuts off is spaces only. */
  lemma {:induction false} TrimRightSpaces(s: string)
    ensures |TrimRight(s)| <= |s| && AllSpace(s[|TrimRight(s)|..])
    decreases |s|
  {
    if |s| > 0 && IsSpace(s[|s| - 1]) {
      var t := s[..|s| - 1];
      var k := |TrimRight(t)|;
      assert TrimRight(s) == TrimRight(t);
      TrimRightSpaces(t);
      forall j | 0 <= j < |s| - k ensures IsSpace(s[k..][j]) {
        if j < |s| - 1 - k {
          assert s[k..][j] == t[k..][j];
        }
      }
    } else {
      assert s[|s|..] == [];
    }
  }

  /** How many spaces `TrimSpace` cuts off the front of `s`. */
  function LeadingSpaces(s: string): nat
  {
    TrimLeftSuffix(s);
    |s| - |TrimLeft(s)|
  }

  /**
   * `strings.TrimSpace`: the part of `s` after its leading spaces, with only spaces cut
   * off either end.
   */
  function TrimSpace(s: string): (r: string)
    ensures Trimmed(r)
    ensures LeadingSpaces(s) + |r| <= |s| && r == s[LeadingSpaces(s)..LeadingSpaces(s) + |r|]
    ensures AllSpace(s[..LeadingSpaces(s)]) && AllSpace(s[LeadingSpaces(s) + |r|..])
  {
    var t := TrimLeft(s);
    TrimLeftSuffix(s);
    TrimLeftSpaces(s);
    TrimRightPrefix(t);
    TrimRightSpaces(t);
    TrimBothEnds(s, t, TrimRight(t));
    TrimRight(t)
  }

  /** Cutting spaces off the front of `s`, giving `t`, and then off the back of `t`, giving `r`. */
  lemma TrimBothEnds(s: string, t: string, r: string)
    requires |t| <= |s| && t == s[|s| - |t|..] && AllSpace(s[..|s| - |t|]) && (t == [] || !IsSpace(t[0]))
    requires |r| <= |t| && r == t[..|r|] && AllSpace(t[|r|..]) && (r == [] || !IsSpace(r[|r| - 1]))
    ensures Trimmed(r)
    ensures |s| - |t| + |r| <= |s| && r == s[|s| - |t|..|s| - |t| + |r|]
    ensures AllSpace(s[|s| - |t| + |r|..])
  {
    SliceOfSuffix(s, |s| - |t|, t, r);
    assert r != [] ==> r[0] == t[0];
  }

  /** A prefix `r` of the suffix `t` of `s` from `a` sits at `a` in `s`. */
  lemma SliceOfSuffix(s: string, a: nat, t: string, r: string)
    requires a <= |s| && t == s[a..] && |r| <= |t| && r == t[..|r|]
    ensures s[a..a + |r|] == r && s[a + |r|..] == t[|r|..]
  {
  }

  /** A string that `TrimSpace` leaves alone. */
  predicate Trimmed(s: string)
  {
    |s| == 0 || (!IsSpace(s[0]) && !IsSpace(s[|s| - 1]))
  }

  lemma TrimSpaceOfTrimmed(v: string)
    requires Trimmed(v)
    ensures TrimSpace(v) == v
    ensures TrimSpace(" " + v) == v
  {
    assert (" " + v)[1..] == v;
  }

  /** `strings.TrimRight(s, cutset)` with a one-character cutset. */
  function TrimRightChar(s: string, c: char): (r: string)
    ensures |r| <= |s| && r == s[..|r|]
    ensures forall i :: |r| <= i < |s| ==> s[i] == c
    ensures |r| == 0 || r[|r| - 1] != c
    decreases |s|
  {
    if |s| > 0 && s[|s| - 1] == c then TrimRightChar(s[..|s| - 1], c) else s
  }

  function LowerChar(c: char): char
  {
    if 'A' <= c <= 'Z' then (c as int + 32) as char else c
  }

  /** `strings.ToLower`, for the ASCII letters: no capital is left, and only capitals change. */
  function Lower(s: string): (r: string)
    ensures |r| == |s|
    ensures forall i :: 0 <= i < |r| ==> !('A' <= r[i] <= 'Z')
    ensures forall i :: 0 <= i < |s| ==> (r[i] == s[i] <==> !('A' <= s[i] <= 'Z'))
  {
    seq(|s|, i requires 0 <= i < |s| => LowerChar(s[i]))
  }

  /** Lower-casing twice is lower-casing once. */
  lemma LowerIdempotent(s: string)
    ensures Lower(Lower(s)) == Lower(s)
  {
    var t := Lower(s);
    assert forall i :: 0 <= i < |t| ==> Lower(t)[i] == t[i];
  }

  /** Concatenation is associative. */
  lemma Assoc(a: string, b: string, c: string)
    ensures a + (b + c) == a + b + c
  {
  }

  /** A character missing from `s` is missing from both halves of any cut of `s`. */
  lemma Absent(s: string, n: nat, c: char)
    requires c !in s && n <= |s|
    ensures c !in s[..n] && c !in s[n..] && s[..n] + s[n..] == s
  {
    assert forall j :: 0 <= j < n ==> s[..n][j] == s[j];
    assert forall j :: 0 <= j < |s| - n ==> s[n..][j] == s[n + j];
  }

  /** Index of the first `c` in `s`, or `|s|` when there is none: where `SplitN` cuts a line. */
  function IndexOf(s: string, c: char): (i: nat)
    ensures i <= |s|
    ensures forall j :: 0 <= j < i ==> s[j] != c
    ensures i < |s| ==> s[i] == c
  {
    if |s| == 0 then 0
    else if s[0] == c then 0
    else 1 + IndexOf(s[1..], c)
  }

  /** Index of the last `c` in `s`, or -1 (`strings.LastIndex` with a one-character needle). */
  function LastIndexOf(s: string, c: char): (i: int)
    ensures -1 <= i < |s|
    ensures i >= 0 ==> s[i] == c
    ensures forall j :: i < j < |s| ==> s[j] != c
  {
    if |s| == 0 then -1
    else if s[|s| - 1] == c then |s| - 1
    else LastIndexOf(s[..|s| - 1], c)
  }

  /** `strings.Split(s, sep)` for a one-character separator. */
  function Split(s: string, sep: char): (parts: seq<string>)
    ensures |parts| >= 1
    decreases |s|
  {
    var i := LastIndexOf(s, sep);
    if i < 0 then [s] else Split(s[..i], sep) + [s[i + 1..]]
  }

  /** No part `Split` returns holds the separator. */
  lemma {:induction false} SplitNoSep(s: string, sep: char)
    ensures forall k :: 0 <= k < |Split(s, sep)| ==> sep !in Split(s, sep)[k]
    decreases |s|
  {
    var i := LastIndexOf(s, sep);
    if i >= 0 {
      SplitNoSep(s[..i], sep);
      var tail := s[i + 1..];
      assert forall j :: 0 <= j < |tail| ==> tail[j] == s[i + 1 + j];
    }
  }

  /** `strings.Join(parts, sep)` for a one-character separator. */
  function Join(parts: seq<string>, sep: char): string
    requires |parts| >= 1
  {
    if |parts| == 1 then parts[0]
    else Join(parts[..|parts| - 1], sep) + [sep] + parts[|parts| - 1]
  }

  /** Joining the parts `Split` returns with the same separator gives back the input. */
  lemma {:induction false} JoinSplit(s: string, sep: char)
    ensures Join(Split(s, sep), sep) == s
    decreases |s|
  {
    var i := LastIndexOf(s, sep);
    if i >= 0 {
      var init := Split(s[..i], sep);
      JoinSplit(s[..i], sep);
      assert (init + [s[i + 1..]])[..|init|] == init;
      assert s == s[..i] + [sep] + s[i + 1..];
    }
  }

  /** `strings.HasPrefix` */
  predicate HasPrefix(s: string, prefix: string)
  {
    |prefix| <= |s| && s[..|prefix|] == prefix
  }

  /** A string starts with `prefix` exactly when it is `prefix` followed by something. */
  lemma HasPrefixSplits(s: string, prefix: string)
    ensures HasPrefix(s, prefix) <==> |prefix| <= |s| && s == prefix + s[|prefix|..]
    ensures HasPrefix(prefix + s, prefix)
  {
    if |prefix| <= |s| && s == prefix + s[|prefix|..] {
      assert s[..|prefix|] == prefix;
    }
    assert (prefix + s)[..|prefix|] == prefix;
  }

  // ---------------------------------------------------------------------------------
  // Lexicographic order and sorting (`sort.Strings`).

  predicate Less(a: string, b: string)
    decreases |a|
  {
    |b| > 0 && (|a| == 0 || a[0] < b[0] || (a[0] == b[0] && Less(a[1..], b[1..])))
  }

  predicate LessEq(a: string, b: string)
  {
    a == b || Less(a, b)
  }

  lemma {:induction false} LessIrreflexive(a: string)
    ensures !Less(a, a)
    decreases |a|
  {
    if |a| > 0 {
      LessIrreflexive(a[1..]);
    }
  }

  lemma {:induction false} LessTransitive(a: string, b: string, c: string)
    requires Less(a, b) && Less(b, c)
    ensures Less(a, c)
    decreases |a|
  {
    if |a| > 0 && a[0] == b[0] && b[0] == c[0] {
      LessTransitive(a[1..], b[1..], c[1..]);
    }
  }

  lemma {:induction false} LessTotal(a: string, b: string)
    requires a != b
    ensures Less(a, b) || Less(b, a)
    decreases |a|
  {
    if |a| > 0 && |b| > 0 && a[0] == b[0] {
      assert a == [a[0]] + a[1..] && b == [b[0]] + b[1..];
      LessTotal(a[1..], b[1..]);
    }
  }

  lemma {:induction false} LessAsymmetric(a: string, b: string)
    ensures Less(a, b) ==> !Less(b, a)
    decreases |a|
  {
    if |a| > 0 && |b| > 0 && a[0] == b[0] {
      LessAsymmetric(a[1..], b[1..]);
    }
  }

  lemma LessEqAntisymmetric(a: string, b: string)
    requires LessEq(a, b) && LessEq(b, a)
    ensures a == b
  {
    LessAsymmetric(a, b);
  }

  lemma LessEqTransitive(a: string, b: string, c: string)
    requires LessEq(a, b) && LessEq(b, c)
    ensures LessEq(a, c)
  {
    if a != b && b != c {
      LessTransitive(a, b, c);
    }
  }

  predicate Sorted(s: seq<string>)
  {
    forall i, j :: 0 <= i < j < |s| ==> LessEq(s[i], s[j])
  }

  predicate StrictlySorted(s: seq<string>)
  {
    forall i, j :: 0 <= i < j < |s| ==> Less(s[i], s[j])
  }

  function Elems(s: seq<string>): set<string>
  {
    set x | x in s
  }

  /** Insertion of one string into a sorted sequence. */
  function Insert(x: string, s: seq<string>): seq<string>
  {
    if |s| == 0 then [x]
    else if LessEq(x, s[0]) then [x] + s
    else [s[0]] + Insert(x, s[1..])
  }

  /** The sort behind `sort.Strings`: any sorting algorithm gives the same result. */
  function SortStrings(s: seq<string>): seq<string>
  {
    if |s| == 0 then [] else Insert(s[|s| - 1], SortStrings(s[..|s| - 1]))
  }

  /** `y` is at most every element of `s`. */
  predicate Below(y: string, s: seq<string>)
  {
    forall k :: 0 <= k < |s| ==> LessEq(y, s[k])
  }

  lemma ConsSorted(y: string, t: seq<string>)
    requires Below(y, t) && Sorted(t)
    ensures Sorted([y] + t)
  {
    var r := [y] + t;
    forall i, j | 0 <= i < j < |r| ensures LessEq(r[i], r[j]) {
      if i == 0 {
        assert r[j] == t[j - 1];
      } else {
        assert r[i] == t[i - 1] && r[j] == t[j - 1];
      }
    }
  }

  lemma {:induction false} InsertMultiset(x: string, s: seq<string>)
    ensures multiset(Insert(x, s)) == multiset(s) + multiset{x}
    decreases |s|
  {
    if |s| > 0 && !LessEq(x, s[0]) {
      InsertMultiset(x, s[1..]);
      assert s == [s[0]] + s[1..];
    }
  }

  lemma {:induction false} InsertSorted(x: string, s: seq<string>)
    requires Sorted(s)
    ensures Sorted(Insert(x, s))
    decreases |s|
  {
    if |s| == 0 {
    } else if LessEq(x, s[0]) {
      forall k | 0 <= k < |s| ensures LessEq(x, s[k]) {
        LessEqTransitive(x, s[0], s[k]);
      }
      ConsSorted(x, s);
    } else {
      var t := Insert(x, s[1..]);
      InsertSorted(x, s[1..]);
      InsertMultiset(x, s[1..]);
      LessTotal(x, s[0]);
      forall k | 0 <= k < |t| ensures LessEq(s[0], t[k]) {
        assert t[k] in multiset(t);
        if t[k] != x {
          assert t[k] in multiset(s[1..]);
          var m :| 0 <= m < |s[1..]| && s[1..][m] == t[k];
          assert s[m + 1] == t[k];
        }
      }
      ConsSorted(s[0], t);
    }
  }

  lemma {:induction false} SortStringsSorted(s: seq<string>)
    ensures Sorted(SortStrings(s))
    ensures multiset(SortStrings(s)) == multiset(s)
    decreases |s|
  {
    if |s| > 0 {
      var init := s[..|s| - 1];
      SortStringsSorted(init);
      InsertSorted(s[|s| - 1], SortStrings(init));
      InsertMultiset(s[|s| - 1], SortStrings(init));
      assert s == init + [s[|s| - 1]];
    }
  }

  /** An element at two distinct positions occurs at least twice. */
  lemma TwoPositions(r: seq<string>, i: nat, j: nat)
    requires i < j < |r| && r[i] == r[j]
    ensures multiset(r)[r[i]] >= 2
  {
    assert r == r[..i] + [r[i]] + r[i + 1..j] + [r[j]] + r[j + 1..];
  }

  /** A sorted sequence without repeated elements is strictly sorted. */
  lemma SortedDistinctIsStrict(r: seq<string>)
    requires Sorted(r)
    requires forall x :: multiset(r)[x] <= 1
    ensures StrictlySorted(r)
  {
    forall i, j | 0 <= i < j < |r| ensures Less(r[i], r[j]) {
      if r[i] == r[j] {
        TwoPositions(r, i, j);
      }
    }
  }

  lemma {:induction false} MinExists(s: set<string>)
    requires s != {}
    ensures exists m :: m in s && forall x :: x in s ==> LessEq(m, x)
    decreases s
  {
    var y :| y in s;
    if s != {y} {
      MinExists(s - {y});
      var m :| m in s - {y} && forall x :: x in s - {y} ==> LessEq(m, x);
      if LessEq(m, y) {
        assert m in s && forall x :: x in s ==> LessEq(m, x);
      } else {
        LessTotal(m, y);
        forall x | x in s ensures LessEq(y, x) {
          if x != y {
            LessEqTransitive(y, m, x);
          }
        }
      }
    }
  }

  /** The least element of a non-empty set of strings. */
  ghost function MinOf(s: set<string>): (m: string)
    requires s != {}
    ensures m in s && forall x :: x in s ==> LessEq(m, x)
  {
    MinExists(s);
    var m :| m in s && forall x :: x in s ==> LessEq(m, x);
    m
  }

  /** The elements of a set, ascending: the one strictly sorted sequence with exactly those elements. */
  ghost function SortedElems(s: set<string>): (r: seq<string>)
    ensures StrictlySorted(r) && Elems(r) == s
    decreases s
  {
    if s == {} then []
    else
      var m := MinOf(s);
      var rest := SortedElems(s - {m});
      assert forall j :: 0 <= j < |rest| ==> rest[j] in Elems(rest);
      assert Elems([m] + rest) == {m} + Elems(rest);
      [m] + rest
  }

  lemma ElemsNonEmpty(b: seq<string>)
    ensures |b| > 0 ==> Elems(b) != {}
  {
    if |b| > 0 {
      assert b[0] in Elems(b);
    }
  }

  /** Two strictly sorted sequences with the same elements are equal. */
  lemma {:induction false} StrictlySortedUnique(a: seq<string>, b: seq<string>)
    requires StrictlySorted(a) && StrictlySorted(b) && Elems(a) == Elems(b)
    ensures a == b
    decreases |a|
  {
    if |a| > 0 {
      assert a[0] in Elems(b) && b[0] in Elems(b);
      var k :| 0 <= k < |a| && a[k] == b[0];
      var l :| 0 <= l < |b| && b[l] == a[0];
      assert LessEq(a[0], a[k]) && LessEq(b[0], b[l]);
      LessEqAntisymmetric(a[0], b[0]);
      forall j | 0 < j < |a| ensures a[j] != a[0] {
        LessIrreflexive(a[0]);
      }
      forall j | 0 < j < |b| ensures b[j] != b[0] {
        LessIrreflexive(b[0]);
      }
      assert Elems(a[1..]) == Elems(a) - {a[0]};
      assert Elems(b[1..]) == Elems(b) - {b[0]};
      StrictlySortedUnique(a[1..], b[1..]);
      assert a == [a[0]] + a[1..] && b == [b[0]] + b[1..];
    } else {
      ElemsNonEmpty(b);
    }
  }

  /** Sorting a sequence without repeats gives the ascending list of its elements. */
  lemma SortDistinct(s: seq<string>)
    requires forall x :: multiset(s)[x] <= 1
    ensures SortStrings(s) == SortedElems(Elems(s))
  {
    var r := SortStrings(s);
    SortStringsSorted(s);
    SortedDistinctIsStrict(r);
    assert Elems(r) == Elems(s) by {
      forall x ensures x in r <==> x in s {
        assert x in r <==> x in multiset(r);
        assert x in s <==> x in multiset(s);
      }
    }
    StrictlySortedUnique(r, SortedElems(Elems(s)));
  }

  /**
   * A set's elements collected into a slice in whatever order the set is walked (Go's
   * range over a map), then put in order by `sort.Strings`.
   */
  method SortedSlice(s: set<string>) returns (r: seq<string>)
    ensures r == SortedElems(s)
    ensures StrictlySorted(r) && Elems(r) == s
  {
    var collected: seq<string> := [];
    var rest := s;
    while rest != {}
      invariant rest <= s
      invariant forall x :: multiset(collected)[x] == if x in s - rest then 1 else 0
      decreases |rest|
    {
      var x :| x in rest;
      collected := collected + [x];
      rest := rest - {x};
    }
    assert Elems(collected) == s by {
      forall x ensures x in collected <==> x in s {
        assert x in collected <==> x in multiset(collected);
      }
    }
    SortDistinct(collected);
    r := SortStrings(collected);
  }

  // ---------------------------------------------------------------------------------
  // Byte lengths: Go's `len` of a string or byte slice counts the bytes of its UTF-8 form.

  predicate Ascii(s: string)
  {
    forall i :: 0 <= i < |s| ==> s[i] < '\U{80}'
  }

  /** The number of bytes UTF-8 takes for `c`: one for ASCII, up to four. */
  function RuneLen(c: char): (n: nat)
    ensures 1 <= n <= 4
    ensures n == 1 <==> c < '\U{80}'
  {
    if c < '\U{80}' then 1 else if c < '\U{800}' then 2 else if c < '\U{10000}' then 3 else 4
  }

  /** `len([]byte(s))` */
  function Utf8Len(s: string): nat
  {
    if s == [] then 0 else RuneLen(s[0]) + Utf8Len(s[1..])
  }

  lemma {:induction false} Utf8LenConcat(a: string, b: string)
    ensures Utf8Len(a + b) == Utf8Len(a) + Utf8Len(b)
  {
    if a != [] {
      assert (a + b)[1..] == a[1..] + b;
      Utf8LenConcat(a[1..], b);
    } else {
      assert a + b == b;
    }
  }

  /** Every character takes one to four bytes, and exactly one each when the text is ASCII. */
  lemma {:induction false} Utf8LenBounds(s: string)
    ensures |s| <= Utf8Len(s) <= 4 * |s|
    ensures Utf8Len(s) == |s| <==> Ascii(s)
  {
    if s != [] {
      Utf8LenBounds(s[1..]);
      if Ascii(s) {
        assert Ascii(s[1..]) by {
          forall i | 0 <= i < |s[1..]| ensures s[1..][i] < '\U{80}' {
            assert s[1..][i] == s[i + 1];
          }
        }
      }
      if Utf8Len(s) == |s| {
        forall i | 0 <= i < |s| ensures s[i] < '\U{80}' {
          if i > 0 {
            assert s[i] == s[1..][i - 1];
          }
        }
      }
    }
  }

  // ---------------------------------------------------------------------------------
  // Go's `path` package on slash-separated names.

  /**
   * `path.Base`: the last element after trailing slashes are removed; "." for the empty
   * name and "/" for a name made of slashes only.
   */
  function PathBase(p: string): (r: string)
    ensures p != "" ==> '/' !in r || r == "/"
    ensures r != ""
  {
    if p == "" then "."
    else
      var t := TrimRightChar(p, '/');
      if t == "" then "/"
      else
        var tail := t[LastIndexOf(t, '/') + 1..];
        assert tail[|tail| - 1] == t[|t| - 1];
        tail
  }

  /**
   * A relative name whose elements are all non-empty and neither "." nor "..": the names
   * `path.Clean` leaves as they are.
   */
  predicate CleanRelative(p: string)
  {
    forall e :: e in Split(p, '/') ==> e != "" && e != "." && e != ".."
  }

  /** A rooted name whose elements are clean: "/" followed by a clean relative name. */
  predicate CleanRooted(p: string)
  {
    |p| > 1 && p[0] == '/' && CleanRelative(p[1..])
  }

  /**
   * `path.Dir` on a clean name: everything before the last slash, "/" when that slash is
   * the leading one, and "." when there is none.
   */
  function PathDir(p: string): (r: string)
    ensures '/' !in p ==> r == "."
    ensures '/' in p ==>
              || (r == "/" && p[0] == '/' && '/' !in p[1..])
              || (0 < |r| < |p| && p[..|r|] == r && p[|r|] == '/' && '/' !in p[|r| + 1..])
  {
    var i := LastIndexOf(p, '/');
    if i < 0 then "." else if i == 0 then "/" else p[..i]
  }

  /** The last `c` of a string, seen from its tail after the first character. */
  lemma {:induction false} LastIndexAfterFirst(s: string, c: char)
    requires |s| > 0
    ensures LastIndexOf(s[1..], c) >= 0 ==> LastIndexOf(s, c) == 1 + LastIndexOf(s[1..], c)
    ensures LastIndexOf(s[1..], c) < 0 ==> LastIndexOf(s, c) == if s[0] == c then 0 else -1
    decreases |s|
  {
    if |s| > 1 && s[|s| - 1] != c {
      var init := s[..|s| - 1];
      LastIndexAfterFirst(init, c);
      assert init[1..] == s[1..][..|s| - 2];
    }
  }

  /** A name that starts with the separator splits into a leading empty element. */
  lemma {:induction false} SplitRooted(s: string, sep: char)
    ensures |s| > 0 && s[0] == sep ==> "" in Split(s, sep)
    decreases |s|
  {
    if |s| > 0 && s[0] == sep {
      var i := LastIndexOf(s, sep);
      if i == 0 {
        assert Split(s[..0], sep) == [""];
      } else {
        SplitRooted(s[..i], sep);
      }
    }
  }
}
