/** Lists of strings used as sets (the stringSet operations of internal/codesearch/index/regexp.go). */
module StringSets {
  import opened Bytes

  ghost predicate SameElements(s: seq<Str>, t: seq<Str>) {
    forall x :: x in s <==> x in t
  }

  // --------------------------------------------------------------- ordering

  /** The order of byPrefix, or of bySuffix when isSuffix holds. */
  predicate Before(s: Str, t: Str, isSuffix: bool) {
    if isSuffix then Less(Reverse(s), Reverse(t)) else Less(s, t)
  }

  lemma BeforeIsStrict(s: Str, isSuffix: bool)
    ensures !Before(s, s, isSuffix)
  {
    LessIrreflexive(s);
    LessIrreflexive(Reverse(s));
  }

  lemma BeforeTransitive(s: Str, t: Str, u: Str, isSuffix: bool)
    requires Before(s, t, isSuffix) && Before(t, u, isSuffix)
    ensures Before(s, u, isSuffix)
  {
    if isSuffix {
      LessTransitive(Reverse(s), Reverse(t), Reverse(u));
    } else {
      LessTransitive(s, t, u);
    }
  }

  lemma BeforeTotal(s: Str, t: Str, isSuffix: bool)
    ensures Before(s, t, isSuffix) || s == t || Before(t, s, isSuffix)
  {
    if isSuffix {
      LessTotal(Reverse(s), Reverse(t));
      if Reverse(s) == Reverse(t) {
        ReverseInjective(s, t);
      }
    } else {
      LessTotal(s, t);
    }
  }

  /** bySuffix.Less compares from the last byte backwards. */
  method BySuffixLess(s: Str, t: Str) returns (b: bool)
    ensures b == Before(s, t, true)
  {
    ghost var rs, rt := Reverse(s), Reverse(t);
    var i := 1;
    while i <= |s| && i <= |t|
      invariant 1 <= i <= |s| + 1 && i <= |t| + 1
      invariant rs[..i - 1] == rt[..i - 1]
    {
      var si, ti := s[|s| - i], t[|t| - i];
      ReverseAt(s, i - 1);
      ReverseAt(t, i - 1);
      if si != ti {
        LessAt(rs, rt, i - 1);
      }
      if si < ti {
        return true;
      }
      if si > ti {
        return false;
      }
      assert rs[..i] == rs[..i - 1] + [si] && rt[..i] == rt[..i - 1] + [ti];
      i := i + 1;
    }
    LessPrefix(rs, rt, i - 1);
    return |s| < |t|;
  }

  // ---------------------------------------------------------------- sorting

  ghost predicate Sorted(s: seq<Str>, isSuffix: bool) {
    forall i, j :: 0 <= i < j < |s| ==> !Before(s[j], s[i], isSuffix)
  }

  ghost predicate StrictlySorted(s: seq<Str>, isSuffix: bool) {
    forall i, j :: 0 <= i < j < |s| ==> Before(s[i], s[j], isSuffix)
  }

  /** The two-pointer scan of isSubsetOf from position j of t. */
  predicate SubsetFrom(s: seq<Str>, t: seq<Str>, j: nat)
    requires j <= |t|
    decreases |s| + |t| - j
  {
    if s == [] then true
    else if j < |t| && Less(t[j], s[0]) then SubsetFrom(s, t, j + 1)
    else j < |t| && t[j] == s[0] && SubsetFrom(s[1..], t, j)
  }

  /** isSubsetOf: a positive answer is right for all lists, and for sorted ones, which it assumes, every answer. */
  method IsSubsetOf(s: seq<Str>, t: seq<Str>) returns (b: bool)
    ensures b == SubsetFrom(s, t, 0)
    ensures b ==> forall x :: x in s ==> x in t
    ensures StrictlySorted(s, false) && StrictlySorted(t, false) ==> (b <==> forall x :: x in s ==> x in t)
  {
    b := SubsetScan(s, t);
    if b {
      SubsetSound(s, t, 0);
    }
    if StrictlySorted(s, false) && StrictlySorted(t, false) && forall x :: x in s ==> x in t {
      assert t[0..] == t;
      SubsetComplete(s, t, 0);
    }
  }

  method SubsetScan(s: seq<Str>, t: seq<Str>) returns (b: bool)
    ensures b == SubsetFrom(s, t, 0)
  {
    var j := 0;
    var i := 0;
    while i < |s|
      invariant 0 <= i <= |s| && 0 <= j <= |t|
      invariant SubsetFrom(s, t, 0) == SubsetFrom(s[i..], t, j)
    {
      while j < |t| && Less(t[j], s[i])
        invariant 0 <= j <= |t|
        invariant SubsetFrom(s, t, 0) == SubsetFrom(s[i..], t, j)
      {
        j := j + 1;
      }
      if j >= |t| || t[j] != s[i] {
        return false;
      }
      assert s[i..][1..] == s[i + 1..];
      i := i + 1;
    }
    return true;
  }

  /** A positive answer is right for all lists, sorted or not. */
  lemma {:induction false} SubsetSound(s: seq<Str>, t: seq<Str>, j: nat)
    requires j <= |t| && SubsetFrom(s, t, j)
    ensures forall x :: x in s ==> x in t
    decreases |s| + |t| - j
  {
    if s != [] {
      if Less(t[j], s[0]) {
        SubsetSound(s, t, j + 1);
      } else {
        SubsetSound(s[1..], t, j);
      }
    }
  }


  /** On sorted lists, which isSubsetOf assumes, a negative answer is right too. */
  lemma {:induction false} SubsetComplete(s: seq<Str>, t: seq<Str>, j: nat)
    requires j <= |t| && StrictlySorted(s, false) && StrictlySorted(t, false)
    requires forall x :: x in s ==> x in t[j..]
    ensures SubsetFrom(s, t, j)
    decreases |s| + |t| - j
  {
    if s != [] {
      assert s[0] in t[j..];
      var k :| j <= k < |t| && t[k] == s[0];
      if Less(t[j], s[0]) {
        forall x | x in s
          ensures x in t[j + 1..]
        {
          var a :| 0 <= a < |s| && s[a] == x;
          var b :| j <= b < |t| && t[b] == x;
          if b == j {
            LessIrreflexive(s[0]);
            LessTransitive(s[0], s[a], s[0]);
          }
          assert t[b] in t[j + 1..];
        }
        SubsetComplete(s, t, j + 1);
      } else {
        assert k == j;
        LessIrreflexive(s[0]);
        SubsetComplete(s[1..], t, j);
      }
    }
  }


  function Insert(x: Str, s: seq<Str>, isSuffix: bool): (t: seq<Str>)
    ensures |t| == |s| + 1
  {
    if s == [] || !Before(s[0], x, isSuffix) then [x] + s else [s[0]] + Insert(x, s[1..], isSuffix)
  }

  /** What sort.Sort leaves in the slice: any sorting algorithm gives the same list, as the order is total. */
  function SortStrings(s: seq<Str>, isSuffix: bool): (t: seq<Str>)
    ensures |t| == |s|
  {
    if s == [] then [] else Insert(s[0], SortStrings(s[1..], isSuffix), isSuffix)
  }

  lemma {:induction false} InsertKeepsSorted(x: Str, s: seq<Str>, isSuffix: bool)
    requires Sorted(s, isSuffix)
    ensures Sorted(Insert(x, s, isSuffix), isSuffix)
    ensures multiset(Insert(x, s, isSuffix)) == multiset(s) + multiset{x}
  {
    if s == [] {
    } else if !Before(s[0], x, isSuffix) {
      forall k | 0 <= k < |s|
        ensures !Before(s[k], x, isSuffix)
      {
        if Before(s[k], x, isSuffix) {
          BeforeTotal(s[0], s[k], isSuffix);
          if Before(s[0], s[k], isSuffix) {
            BeforeTransitive(s[0], s[k], x, isSuffix);
          }
        }
      }
    } else {
      var rest := s[1..];
      assert s == [s[0]] + rest;
      InsertKeepsSorted(x, rest, isSuffix);
      var r := Insert(x, rest, isSuffix);
      forall k | 0 <= k < |r|
        ensures !Before(r[k], s[0], isSuffix)
      {
        assert r[k] in multiset(r);
        if r[k] == x {
          if Before(x, s[0], isSuffix) {
            BeforeTransitive(x, s[0], x, isSuffix);
            BeforeIsStrict(x, isSuffix);
          }
        } else {
          assert r[k] in rest;
        }
      }
    }
  }

  lemma {:induction false} SortStringsSorts(s: seq<Str>, isSuffix: bool)
    ensures Sorted(SortStrings(s, isSuffix), isSuffix)
    ensures multiset(SortStrings(s, isSuffix)) == multiset(s)
  {
    if s != [] {
      SortStringsSorts(s[1..], isSuffix);
      InsertKeepsSorted(s[0], SortStrings(s[1..], isSuffix), isSuffix);
      assert s == [s[0]] + s[1..];
    }
  }

  // ------------------------------------------------- passing over a list, keeping some

  /** What is left of a list after a loop that changes each string and skips it when it looks at the string that
      was kept last: the shape of the loops of clean and simplifySet. */
  function Squeezed(s: seq<Str>, change: Str -> Str, skip: (Str, Str) -> bool): (k: seq<Str>)
    ensures |k| <= |s| && (s != [] ==> k != [])
  {
    if s == [] then []
    else
      var k := Squeezed(s[..|s| - 1], change, skip);
      var x := change(s[|s| - 1]);
      if k == [] || !skip(k[|k| - 1], x) then k + [x] else k
  }

  function Same(x: Str): Str {
    x
  }

  predicate Equal(x: Str, y: Str) {
    x == y
  }

  /** All that is kept comes from the list. */
  lemma {:induction false} SqueezedFrom(s: seq<Str>, change: Str -> Str, skip: (Str, Str) -> bool, z: Str) returns (i: nat)
    requires z in Squeezed(s, change, skip)
    ensures i < |s| && z == change(s[i])
  {
    var n := |s| - 1;
    if z in Squeezed(s[..n], change, skip) {
      i := SqueezedFrom(s[..n], change, skip, z);
    } else {
      i := n;
    }
  }

  /** Every string of the list is kept or skipped at the sight of one that is kept. */
  lemma {:induction false} SqueezedKeeps(s: seq<Str>, change: Str -> Str, skip: (Str, Str) -> bool, i: nat)
    requires i < |s|
    ensures exists z :: z in Squeezed(s, change, skip) && (z == change(s[i]) || skip(z, change(s[i])))
  {
    var n := |s| - 1;
    var k := Squeezed(s[..n], change, skip);
    var x := change(s[n]);
    if i < n {
      SqueezedKeeps(s[..n], change, skip, i);
      var z :| z in k && (z == change(s[..n][i]) || skip(z, change(s[..n][i])));
      assert z in Squeezed(s, change, skip);
    } else if k == [] || !skip(k[|k| - 1], x) {
      assert x in Squeezed(s, change, skip);
    } else {
      assert k[|k| - 1] in Squeezed(s, change, skip);
    }
  }

  /** Nothing is skipped if no string looks like one before it. */
  lemma {:induction false} SqueezedNothing(s: seq<Str>, skip: (Str, Str) -> bool)
    requires forall i :: 0 <= i < |s| - 1 ==> !skip(s[i], s[i + 1])
    ensures Squeezed(s, Same, skip) == s
  {
    if s != [] {
      var n := |s| - 1;
      SqueezedNothing(s[..n], skip);
      assert s == s[..n] + [s[n]];
    }
  }

  /** clean sorts the set and keeps one of each run of equal strings. */
  function Cleaned(s: seq<Str>, isSuffix: bool): (t: seq<Str>)
    ensures |t| <= |s| && (s != [] ==> t != [])
  {
    Squeezed(SortStrings(s, isSuffix), Same, Equal)
  }

  lemma {:induction false} SqueezedSorted(u: seq<Str>, isSuffix: bool)
    requires Sorted(u, isSuffix)
    ensures var t := Squeezed(u, Same, Equal);
            StrictlySorted(t, isSuffix) && (u != [] ==> t[|t| - 1] == u[|u| - 1])
  {
    hide Before;
    if u != [] {
      var n := |u| - 1;
      SqueezedSorted(u[..n], isSuffix);
      var t := Squeezed(u[..n], Same, Equal);
      if t != [] && t[|t| - 1] != u[n] {
        var last := t[|t| - 1];
        assert last == u[n - 1] && !Before(u[n], last, isSuffix);
        BeforeTotal(u[n], last, isSuffix);
        forall k | 0 <= k < |t|
          ensures Before(t[k], u[n], isSuffix)
        {
          if k < |t| - 1 {
            BeforeTransitive(t[k], last, u[n], isSuffix);
          }
        }
      }
    }
  }

  lemma CleanedMeans(s: seq<Str>, isSuffix: bool)
    ensures SameElements(Cleaned(s, isSuffix), s) && StrictlySorted(Cleaned(s, isSuffix), isSuffix)
  {
    var u := SortStrings(s, isSuffix);
    SortStringsSorts(s, isSuffix);
    SqueezedSorted(u, isSuffix);
    hide Sorted, StrictlySorted, SortStrings;
    var t := Squeezed(u, Same, Equal);
    forall x
      ensures x in t <==> x in s
    {
      assert x in u <==> x in multiset(u);
      assert x in s <==> x in multiset(s);
      if x in t {
        var i := SqueezedFrom(u, Same, Equal, x);
      }
      if x in u {
        var i :| 0 <= i < |u| && u[i] == x;
        SqueezedKeeps(u, Same, Equal, i);
      }
    }
  }

  /** A list that is clean stays as it is. */
  lemma {:induction false} SortedStays(s: seq<Str>, isSuffix: bool)
    requires StrictlySorted(s, isSuffix)
    ensures SortStrings(s, isSuffix) == s
  {
    if s != [] {
      SortedStays(s[1..], isSuffix);
      if |s| > 1 {
        assert Before(s[0], s[1], isSuffix);
        if Before(s[1], s[0], isSuffix) {
          BeforeTransitive(s[0], s[1], s[0], isSuffix);
          BeforeIsStrict(s[0], isSuffix);
        }
      }
    }
  }

  lemma CleanStays(s: seq<Str>, isSuffix: bool)
    requires StrictlySorted(s, isSuffix)
    ensures SortStrings(s, isSuffix) == s == Cleaned(s, isSuffix)
  {
    SortedStays(s, isSuffix);
    forall i | 0 <= i < |s| - 1
      ensures !Equal(s[i], s[i + 1])
    {
      BeforeIsStrict(s[i], isSuffix);
      assert Before(s[i], s[i + 1], isSuffix);
    }
    SqueezedNothing(s, Equal);
  }

  method Clean(s: seq<Str>, isSuffix: bool) returns (t: seq<Str>)
    ensures t == Cleaned(s, isSuffix) && SameElements(t, s) && StrictlySorted(t, isSuffix) && |t| <= |s|
  {
    hide StrictlySorted, SortStrings, SameElements;
    var u := SortStrings(s, isSuffix);
    t := [];
    for i := 0 to |u|
      invariant t == Squeezed(u[..i], Same, Equal)
    {
      assert u[..i + 1][..i] == u[..i];
      if t == [] || t[|t| - 1] != u[i] {
        t := t + [u[i]];
      }
    }
    assert u[..|u|] == u;
    CleanedMeans(s, isSuffix);
  }

  /** Two strictly sorted lists of the same strings are the same list, so clean is a normal form. */
  lemma {:induction false} StrictlySortedUnique(s: seq<Str>, t: seq<Str>, isSuffix: bool)
    requires StrictlySorted(s, isSuffix) && StrictlySorted(t, isSuffix) && SameElements(s, t)
    ensures s == t
  {
    assert (s == [] || s[0] in t) && (t == [] || t[0] in s);
    if s != [] && t != [] {

      if s[0] != t[0] {
        BeforeTransitive(s[0], t[0], s[0], isSuffix);
        BeforeIsStrict(s[0], isSuffix);
      }
      forall x
        ensures x in s[1..] <==> x in t[1..]
      {
        BeforeIsStrict(s[0], isSuffix);
        assert x in s[1..] <==> x in s && x != s[0];
        assert x in t[1..] <==> x in t && x != t[0];
      }
      StrictlySortedUnique(s[1..], t[1..], isSuffix);
      assert s == [s[0]] + s[1..] && t == [t[0]] + t[1..];
    }
  }

  method Union(s: seq<Str>, t: seq<Str>, isSuffix: bool) returns (u: seq<Str>)
    ensures u == Cleaned(s + t, isSuffix) && SameElements(u, s + t) && StrictlySorted(u, isSuffix) && |u| <= |s| + |t|
  {
    u := Clean(s + t, isSuffix);
  }

  /** The concatenations of a with each string of t. */
  function JoinEach(a: Str, t: seq<Str>): (p: seq<Str>)
    ensures |p| == |t|
  {
    seq(|t|, j requires 0 <= j < |t| => a + t[j])
  }

  /** All concatenations of a string of s and one of t, in the order of cross. */
  function Joined(s: seq<Str>, t: seq<Str>): (p: seq<Str>)
    ensures |p| == |s| * |t|
  {
    if s == [] then [] else Joined(s[..|s| - 1], t) + JoinEach(s[|s| - 1], t)
  }

  ghost predicate IsJoin(w: Str, s: seq<Str>, t: seq<Str>) {
    exists a, b :: a in s && b in t && w == a + b
  }

  lemma JoinEachMeans(a: Str, t: seq<Str>, w: Str)
    ensures w in JoinEach(a, t) <==> exists b :: b in t && w == a + b
  {
    if w in JoinEach(a, t) {
      var j :| 0 <= j < |t| && JoinEach(a, t)[j] == w;
      assert t[j] in t;
    }
    if b :| b in t && w == a + b {
      var j :| 0 <= j < |t| && t[j] == b;
      assert JoinEach(a, t)[j] == w;
    }
  }

  lemma {:induction false} JoinedMeans(s: seq<Str>, t: seq<Str>, w: Str)
    ensures w in Joined(s, t) <==> IsJoin(w, s, t)
  {
    if s != [] {
      var n := |s| - 1;
      JoinedMeans(s[..n], t, w);
      JoinEachMeans(s[n], t, w);
      assert s == s[..n] + [s[n]];
      if a, b :| a in s && b in t && w == a + b {
        assert a in s[..n] || a == s[n];
      }
    }
  }

  method Cross(s: seq<Str>, t: seq<Str>, isSuffix: bool) returns (p: seq<Str>)
    ensures p == Cleaned(Joined(s, t), isSuffix)
    ensures forall x :: x in p <==> IsJoin(x, s, t)
    ensures StrictlySorted(p, isSuffix)
  {
    p := [];
    for i := 0 to |s|
      invariant p == Joined(s[..i], t)
    {
      for j := 0 to |t|
        invariant p == Joined(s[..i], t) + JoinEach(s[i], t)[..j]
      {
        p := p + [s[i] + t[j]];
      }
      assert s[..i + 1][..i] == s[..i];
    }
    assert s[..|s|] == s;
    p := Clean(p, isSuffix);
    forall x
      ensures x in p <==> IsJoin(x, s, t)
    {
      JoinedMeans(s, t, x);
    }
  }

  /** The length of the shortest string, 0 for the empty set. */
  function MinLength(s: seq<Str>): nat {
    if s == [] then 0
    else
      var n := |s| - 1;
      if n > 0 && MinLength(s[..n]) <= |s[n]| then MinLength(s[..n]) else |s[n]|
  }

  method MinLen(s: seq<Str>) returns (m: nat)
    ensures m == MinLength(s)
    ensures s == [] ==> m == 0
    ensures s != [] ==> (exists x :: x in s && |x| == m) && forall x :: x in s ==> m <= |x|
  {
    if s == [] {
      return 0;
    }
    m := |s[0]|;
    for i := 0 to |s|
      invariant m == if i == 0 then |s[0]| else MinLength(s[..i])
      invariant exists x :: x in s && |x| == m
      invariant forall x :: x in s[..i] ==> m <= |x|
    {
      assert s[..i + 1] == s[..i] + [s[i]] && s[..i + 1][..i] == s[..i];
      if m > |s[i]| {
        m := |s[i]|;
      }
    }
    assert s[..|s|] == s;
  }

  // ----------------------------------------------------------------------- counting

  ghost function Elems(t: seq<Str>): set<Str> {
    set w | w in t
  }

  lemma {:induction false} DistinctCount(t: seq<Str>, isSuffix: bool)
    requires StrictlySorted(t, isSuffix)
    ensures |Elems(t)| == |t|
  {
    hide Before;
    if t != [] {
      var n := |t| - 1;
      DistinctCount(t[..n], isSuffix);
      BeforeIsStrict(t[n], isSuffix);
      assert t == t[..n] + [t[n]];
      assert Elems(t) == Elems(t[..n]) + {t[n]};
      assert t[n] !in t[..n];
    }
  }

  lemma Subset(A: set<Str>, B: set<Str>)
    requires A <= B
    ensures |A| <= |B|
  {
    assert B == A + (B - A);
  }
}
