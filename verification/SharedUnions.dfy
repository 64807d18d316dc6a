/** Two unions on slices that may share their array, as alternate calls them (internal/codesearch/index/regexp.go):
    what the two results read as when both are done and when both have been simplified, and which strings they
    keep, by the number of strings that sort before them. */
module SharedUnions {
  import opened Bytes
  import opened StringSets
  import opened Queries
  import opened Analysis
  import opened StorageReuse

  datatype Ends = Ends(prefix: seq<Str>, suffix: seq<Str>)

  // ---------------------------------------------------------------- what is in the array

  /** The prefixes are the front of h and the suffixes the first q strings of its array; both get new strings. */
  predicate Two(h: Held, q: nat) {
    Whole(h) && q <= |h.all|
  }

  predicate RoomForBoth(h: Held, q: nat, prefixes: seq<Str>, suffixes: seq<Str>) {
    HasRoom(h, |prefixes|) && q + |suffixes| <= |h.all|
  }

  /** The suffixes after the union of the prefixes, which is in the front of the array. */
  function AfterFirst(h: Held, q: nat, prefixes: seq<Str>): (g: Held)
    requires Two(h, q) && HasRoom(h, |prefixes|)
    ensures Whole(g) && |g.all| == |h.all| && g.len == q
  {
    Held(UnionIn(h, prefixes, false).all, q)
  }

  /** The array after both unions, with the second as its front. */
  function AfterBoth(h: Held, q: nat, prefixes: seq<Str>, suffixes: seq<Str>): (g: Held)
    requires Two(h, q) && RoomForBoth(h, q, prefixes, suffixes)
    ensures Whole(g) && |g.all| == |h.all|
    ensures Front(g) == Cleaned(Front(AfterFirst(h, q, prefixes)) + suffixes, true)
  {
    UnionIn(AfterFirst(h, q, prefixes), suffixes, true)
  }

  /** The same array, with the first union as its front. */
  function FirstInBoth(h: Held, q: nat, prefixes: seq<Str>, suffixes: seq<Str>): (g: Held)
    requires Two(h, q) && RoomForBoth(h, q, prefixes, suffixes)
    ensures Whole(g) && |g.all| == |h.all|
  {
    Held(AfterBoth(h, q, prefixes, suffixes).all, UnionIn(h, prefixes, false).len)
  }

  /** What the two unions read as when both are done. */
  function UnionEnds(h: Held, q: nat, prefixes: seq<Str>, suffixes: seq<Str>): Ends
    requires Two(h, q)
  {
    if !HasRoom(h, |prefixes|) then Ends(Cleaned(Front(h) + prefixes, false), Cleaned(h.all[..q] + suffixes, true))
    else if !RoomForBoth(h, q, prefixes, suffixes) then
      Ends(Cleaned(Front(h) + prefixes, false), Cleaned(Front(AfterFirst(h, q, prefixes)) + suffixes, true))
    else Ends(Front(FirstInBoth(h, q, prefixes, suffixes)), Front(AfterBoth(h, q, prefixes, suffixes)))
  }

  /** The array after the prefix set was simplified in it. */
  function PrefixSimplified(h: Held, q: nat, prefixes: seq<Str>, suffixes: seq<Str>): (g: Held)
    requires Two(h, q) && RoomForBoth(h, q, prefixes, suffixes)
    ensures Whole(g) && |g.all| == |h.all|
  {
    SimplifiedIn(FirstInBoth(h, q, prefixes, suffixes), false)
  }

  /** What the suffix set reads as before it is simplified. */
  function SuffixThen(h: Held, q: nat, prefixes: seq<Str>, suffixes: seq<Str>): (g: Held)
    requires Two(h, q) && RoomForBoth(h, q, prefixes, suffixes)
    ensures Whole(g) && |g.all| == |h.all|
  {
    Held(PrefixSimplified(h, q, prefixes, suffixes).all, AfterBoth(h, q, prefixes, suffixes).len)
  }

  /** The array in the end, with the suffix set as its front. */
  function FinalArray(h: Held, q: nat, prefixes: seq<Str>, suffixes: seq<Str>): (g: Held)
    requires Two(h, q) && RoomForBoth(h, q, prefixes, suffixes)
    ensures Whole(g) && |g.all| == |h.all|
  {
    SimplifiedIn(SuffixThen(h, q, prefixes, suffixes), true)
  }

  /** The two sets that alternate ends with. */
  function FinalEnds(h: Held, q: nat, prefixes: seq<Str>, suffixes: seq<Str>): Ends
    requires Two(h, q)
  {
    if RoomForBoth(h, q, prefixes, suffixes) then
      var g := FinalArray(h, q, prefixes, suffixes);
      Ends(g.all[..PrefixSimplified(h, q, prefixes, suffixes).len], Front(g))
    else
      var e := UnionEnds(h, q, prefixes, suffixes);
      Ends(SimplifiedSet(e.prefix, false), SimplifiedSet(e.suffix, true))
  }

  // ------------------------------------------------------------------------- the methods

  /** The two unions of alternate. */
  method UnionBoth(x: Slice, z: Slice, prefixes: seq<Str>, suffixes: seq<Str>, grow: Growth) returns (prefix: Slice, suffix: Slice)
    requires Ok(x) && Ok(z)
    modifies x.arr, z.arr
    ensures Ok(prefix) && (prefix.arr == x.arr || fresh(prefix.arr))
    ensures Ok(suffix) && (suffix.arr == z.arr || fresh(suffix.arr))
    ensures x.arr != z.arr ==>
              && prefix.arr != suffix.arr
              && Items(prefix) == Cleaned(old(Items(x)) + prefixes, false)
              && Items(suffix) == Cleaned(old(Items(z)) + suffixes, true)
    ensures x.arr == z.arr ==>
              var h, q, e := old(Memory(x)), z.len, UnionEnds(old(Memory(x)), z.len, prefixes, suffixes);
              && Items(prefix) == e.prefix && Items(suffix) == e.suffix
              && (if RoomForBoth(h, q, prefixes, suffixes)
                  then prefix.arr == suffix.arr == x.arr && Memory(prefix) == FirstInBoth(h, q, prefixes, suffixes) &&
                       Memory(suffix) == AfterBoth(h, q, prefixes, suffixes)
                  else prefix.arr != suffix.arr)
    ensures x.arr == z.arr && !Fits(x, |prefixes|) ==> fresh(prefix.arr)
    ensures x.arr == z.arr && !Fits(x, |prefixes|) ==>
              x.arr[..] == if Fits(z, |suffixes|) then old(UnionIn(Held(x.arr[..], z.len), suffixes, true)).all else old(x.arr[..])
    ensures x.arr == z.arr && Fits(x, |prefixes|) ==>
              x.arr[..] == if Fits(z, |suffixes|) then AfterBoth(old(Memory(x)), z.len, prefixes, suffixes).all
                           else AfterFirst(old(Memory(x)), z.len, prefixes).all
  {
    hide UnionIn, Cleaned;
    ghost var h := Memory(x);
    prefix := UnionInPlace(x, prefixes, false, grow);
    ghost var first := Items(prefix);
    assert x.arr == z.arr && HasRoom(h, |prefixes|) ==> Memory(z) == AfterFirst(h, z.len, prefixes);
    assert x.arr == z.arr && !HasRoom(h, |prefixes|) ==> Memory(z) == Held(h.all, z.len);
    suffix := UnionInPlace(z, suffixes, true, grow);
    assert prefix.arr != suffix.arr && prefix.arr != z.arr ==> Items(prefix) == first;
  }

  /** simplify on the two sets: in one array, the second finds what the first left. */
  method SimplifyBoth(q: Query, prefix: Slice, suffix: Slice) returns (out: Query, p: Slice, s: Slice)
    requires Ok(prefix) && Ok(suffix) && WellFormed(q)
    modifies prefix.arr, suffix.arr
    ensures Ok(p) && Ok(s) && WellFormed(out) && (Solid(q) ==> Solid(out)) && p.arr == prefix.arr && s.arr == suffix.arr
    ensures prefix.arr != suffix.arr ==>
              && Items(p) == SimplifiedSet(old(Items(prefix)), false) && Items(s) == SimplifiedSet(old(Items(suffix)), true)
              && forall T :: Eval(out, T) <==> Eval(q, T) && Required(old(Items(prefix)), T) && Required(old(Items(suffix)), T)
    ensures prefix.arr == suffix.arr ==>
              var g := SimplifiedIn(old(Memory(prefix)), false);
              var t := Held(g.all, suffix.len);
              var r := SimplifiedIn(t, true);
              && Items(p) == r.all[..g.len] && Memory(s) == r && p.len == g.len
              && forall T :: Eval(out, T) <==> Eval(q, T) && Required(old(Items(prefix)), T) && Required(Front(t), T)
  {
    hide Required, SimplifiedSet, WellFormed, Solid, Eval;
    out, p := SimplifySetInPlace(q, prefix, false);
    assert Memory(p) == SimplifiedIn(old(Memory(prefix)), false);
    assert prefix.arr != suffix.arr ==> Items(suffix) == old(Items(suffix));
    ghost var kept := Items(p);
    out, s := SimplifySetInPlace(out, suffix, true);
    assert prefix.arr != suffix.arr ==> Items(p) == kept;
  }

  // ----------------------------------------------------------------------- counting

  lemma SubsetOfSize(A: set<Str>, B: set<Str>)
    requires A <= B && |A| >= |B|
    ensures A == B
  {
    assert B == A + (B - A);
  }

  lemma ElemsOfUnion(u: seq<Str>, s: seq<Str>)
    requires SameElements(u, s)
    ensures Elems(u) == Elems(s)
  {
    forall z
      ensures z in Elems(u) <==> z in Elems(s)
    {
      assert z in u <==> z in s;
    }
  }

  /** The strings of a set that sort before w. */
  ghost function Earlier(w: Str, S: set<Str>, isSuffix: bool): set<Str> {
    set z | z in S && Before(z, w, isSuffix)
  }

  lemma EarlierAt(u: seq<Str>, k: nat, isSuffix: bool)
    requires StrictlySorted(u, isSuffix) && k < |u|
    ensures |Earlier(u[k], Elems(u), isSuffix)| == k
  {
    hide Before;
    var front := u[..k];
    DistinctCount(front, isSuffix);
    forall z
      ensures z in Earlier(u[k], Elems(u), isSuffix) <==> z in Elems(front)
    {
      if z in front {
        var j :| 0 <= j < k && u[j] == z;
      }
      if z in u && Before(z, u[k], isSuffix) {
        var j :| 0 <= j < |u| && u[j] == z;
        BeforeIsStrict(u[k], isSuffix);
        if j > k {
          BeforeTransitive(u[k], u[j], u[k], isSuffix);
        }
        assert front[j] == z;
      }
    }
    assert Earlier(u[k], Elems(u), isSuffix) == Elems(front);
  }

  /** A string of a clean list is among the first n exactly if fewer than n sort before it. */
  lemma AmongFirst(u: seq<Str>, w: Str, n: nat, isSuffix: bool)
    requires StrictlySorted(u, isSuffix) && w in u && n <= |u|
    ensures w in u[..n] <==> |Earlier(w, Elems(u), isSuffix)| < n
    ensures w in u[n..] <==> |Earlier(w, Elems(u), isSuffix)| >= n
  {
    var k :| 0 <= k < |u| && u[k] == w;
    EarlierAt(u, k, isSuffix);
    if k < n {
      assert u[..n][k] == w;
    } else {
      assert u[n..][k - n] == w;
    }
    if j :| 0 <= j < |u| && j != k && u[j] == w {
      BeforeIsStrict(w, isSuffix);
    }
  }

  lemma RankBelow(u: seq<Str>, w: Str, isSuffix: bool)
    requires StrictlySorted(u, isSuffix) && w in u
    ensures |Earlier(w, Elems(u), isSuffix)| < |u|
  {
    var k :| 0 <= k < |u| && u[k] == w;
    EarlierAt(u, k, isSuffix);
  }

  lemma InParts(u: seq<Str>, k: nat, z: Str)
    requires z in u && k <= |u|
    ensures z in u[..k] || z in u[k..]
  {
    assert u == u[..k] + u[k..];
  }

  lemma FrontOfSorted(v: seq<Str>, k: nat, isSuffix: bool)
    requires StrictlySorted(v, isSuffix) && k <= |v|
    ensures StrictlySorted(v[..k], isSuffix) && forall z :: z in v[..k] ==> z in v
  {
  }

  // ------------------------------------------------------------- where strings are

  /** Behind the strings that a union sorts, the array stays as it is. */
  lemma UnionBehind(h: Held, t: seq<Str>, isSuffix: bool, k: nat)
    requires Whole(h) && HasRoom(h, |t|) && h.len + |t| <= k < |h.all|
    ensures UnionIn(h, t, isSuffix).all[k] == h.all[k]
  {
  }

  lemma UnionFront(h: Held, t: seq<Str>, isSuffix: bool, k: nat)
    requires Whole(h) && HasRoom(h, |t|) && k <= |Cleaned(Front(h) + t, isSuffix)|
    ensures UnionIn(h, t, isSuffix).all[..k] == Cleaned(Front(h) + t, isSuffix)[..k]
  {
    var u := UnionIn(h, t, isSuffix);
    assert Front(u)[..k] == u.all[..k];
  }

  /** Up to there it holds strings of the union. */
  lemma UnionBetween(h: Held, t: seq<Str>, isSuffix: bool, k: nat)
    requires Whole(h) && HasRoom(h, |t|) && k < h.len + |t|
    ensures UnionIn(h, t, isSuffix).all[k] in Cleaned(Front(h) + t, isSuffix)
    ensures k < |Cleaned(Front(h) + t, isSuffix)| ==> UnionIn(h, t, isSuffix).all[k] == Cleaned(Front(h) + t, isSuffix)[k]
  {
    var s := Front(h) + t;
    var u := Cleaned(s, isSuffix);
    CleanedMeans(s, isSuffix);
    SortStringsSorts(s, isSuffix);
    if k < |u| {
      assert UnionIn(h, t, isSuffix).all[k] == u[k];
    } else {
      var z := SortStrings(s, isSuffix)[k];
      assert UnionIn(h, t, isSuffix).all[k] == z;
      assert z in multiset(SortStrings(s, isSuffix));
      assert z in multiset(s);
    }
  }

  /** The first n strings of an array that begins with a union: those of the union with fewer than n strings before
      them, and what is behind it. */
  lemma FirstOfUnion(all: seq<Str>, u: seq<Str>, m: nat, n: nat, isSuffix: bool, w: Str)
    requires StrictlySorted(u, isSuffix) && |u| <= m <= |all| && n <= |all| && u <= all
    requires forall k :: 0 <= k < m ==> all[k] in u
    ensures w in all[..n] <==>
            (w in u && |Earlier(w, Elems(u), isSuffix)| < n) || (m < n && w in all[m..n])
  {
    hide Earlier, Elems;
    if w in all[..n] {
      var k :| 0 <= k < n && all[k] == w;
      if k < |u| {
        EarlierAt(u, k, isSuffix);
      } else if k < m {
        RankBelow(u, w, isSuffix);
      } else {
        assert all[m..n][k - m] == w;
      }
    }
    if w in u && |Earlier(w, Elems(u), isSuffix)| < n {
      var k :| 0 <= k < |u| && u[k] == w;
      EarlierAt(u, k, isSuffix);
      assert all[..n][k] == w;
    }
    if m < n && w in all[m..n] {
      var k :| m <= k < n && all[k] == w;
      assert all[..n][k] == w;
    }
  }

  // -------------------------------------------------------------- which strings are kept

  ghost function United(h: Held, prefixes: seq<Str>): set<Str>
    requires Whole(h)
  {
    Elems(Front(h) + prefixes)
  }

  /** The suffix slice still reads w after the first union: fewer strings of the union sort before it than the
      slice has, or it is so far behind in the array that the union does not get there. */
  ghost predicate StillRead(w: Str, h: Held, q: nat, prefixes: seq<Str>)
    requires Two(h, q)
  {
    || (w in United(h, prefixes) && |Earlier(w, United(h, prefixes), false)| < q)
    || (h.len + |prefixes| < q && w in h.all[h.len + |prefixes|..q])
  }

  /** The strings of the second union. */
  ghost function Second(h: Held, q: nat, prefixes: seq<Str>, suffixes: seq<Str>): set<Str>
    requires Two(h, q)
  {
    (set w | w in h.all[..q] + Front(h) + prefixes && StillRead(w, h, q, prefixes)) + Elems(suffixes)
  }

  /** w stays in the prefix set although both unions are in one array: it is among the first strings of the
      second union, or so far back in the first that the second does not get there. */
  ghost predicate Stays(w: Str, h: Held, q: nat, prefixes: seq<Str>, suffixes: seq<Str>)
    requires Two(h, q)
  {
    var second := Second(h, q, prefixes, suffixes);
    || (w in second && |Earlier(w, second, true)| < |United(h, prefixes)|)
    || (w in United(h, prefixes) && |Earlier(w, United(h, prefixes), false)| >= q + |suffixes|)
  }

  lemma ReadAfterFirst(h: Held, q: nat, prefixes: seq<Str>, w: Str)
    requires Two(h, q) && HasRoom(h, |prefixes|)
    ensures w in Front(AfterFirst(h, q, prefixes)) <==> StillRead(w, h, q, prefixes)
  {
    var u, m := Cleaned(Front(h) + prefixes, false), h.len + |prefixes|;
    var all := UnionIn(h, prefixes, false).all;
    CleanedMeans(Front(h) + prefixes, false);
    ElemsOfUnion(u, Front(h) + prefixes);
    assert all[..|u|] == u by {
      UnionFront(h, prefixes, false, |u|);
    }
    forall k | 0 <= k < m
      ensures all[k] in u
    {
      UnionBetween(h, prefixes, false, k);
    }
    if m < q {
      assert all[m..q] == h.all[m..q] by {
        forall k | m <= k < q
          ensures all[k] == h.all[k]
        {
          UnionBehind(h, prefixes, false, k);
        }
      }
    }
    assert w in u <==> w in Front(h) + prefixes;
    assert Front(AfterFirst(h, q, prefixes)) == all[..q];
    assert u <= all;
    hide Cleaned, UnionIn, Earlier, Elems, SameElements, AfterFirst, Front, StrictlySorted;
    FirstOfUnion(all, u, m, q, false, w);
    MemberOfElems(Front(h) + prefixes, w);
  }

  lemma MemberOfElems(t: seq<Str>, w: Str)
    ensures w in Elems(t) <==> w in t
  {
  }

  lemma SecondIs(h: Held, q: nat, prefixes: seq<Str>, suffixes: seq<Str>)
    requires Two(h, q) && HasRoom(h, |prefixes|)
    ensures Elems(Front(AfterFirst(h, q, prefixes)) + suffixes) == Second(h, q, prefixes, suffixes)
  {
    var f := Front(AfterFirst(h, q, prefixes));
    forall w
      ensures w in f + suffixes <==> w in Second(h, q, prefixes, suffixes)
    {
      ReadAfterFirst(h, q, prefixes, w);
      StillReadFrom(h, q, prefixes, w);
      MemberOfElems(suffixes, w);
      hide StillRead, AfterFirst;
    }
  }

  lemma StillReadFrom(h: Held, q: nat, prefixes: seq<Str>, w: Str)
    requires Two(h, q)
    ensures StillRead(w, h, q, prefixes) ==> w in h.all[..q] + Front(h) + prefixes
  {
    if h.len + |prefixes| < q && w in h.all[h.len + |prefixes|..q] {
      var k :| h.len + |prefixes| <= k < q && h.all[k] == w;
      assert h.all[..q][k] == w;
    }
  }

  /** The strings of the prefix set, when both unions are in one array. */
  lemma ReadAfterBoth(h: Held, q: nat, prefixes: seq<Str>, suffixes: seq<Str>, w: Str)
    requires Two(h, q) && RoomForBoth(h, q, prefixes, suffixes)
    ensures w in Front(FirstInBoth(h, q, prefixes, suffixes)) <==> Stays(w, h, q, prefixes, suffixes)
  {
    var g := AfterFirst(h, q, prefixes);
    var s := Front(g) + suffixes;
    var u, v := Cleaned(Front(h) + prefixes, false), Cleaned(s, true);
    var all, n := UnionIn(g, suffixes, true).all, q + |suffixes|;
    CleanedMeans(Front(h) + prefixes, false);
    CleanedMeans(s, true);
    ElemsOfUnion(u, Front(h) + prefixes);
    ElemsOfUnion(v, s);
    SecondIs(h, q, prefixes, suffixes);
    DistinctCount(u, false);
    assert all[..|v|] == v by {
      UnionFront(g, suffixes, true, |v|);
    }
    forall k | 0 <= k < n
      ensures all[k] in v
    {
      UnionBetween(g, suffixes, true, k);
    }
    BehindSecond(h, q, prefixes, suffixes);
    MemberOfElems(u, w);
    MemberOfElems(v, w);
    assert Front(FirstInBoth(h, q, prefixes, suffixes)) == all[..|u|];
    hide Cleaned, UnionIn, Earlier, Elems, AfterFirst, FirstInBoth, Second, Front;
    FirstOfUnion(all, v, n, |u|, true, w);
    if w in u && n <= |u| {
      AmongFirst(u, w, n, false);
    }
    if w in u {
      RankBelow(u, w, false);
    }
    assert n < |u| ==> (w in all[n..|u|] ==> w in u) by {
      if n < |u| && w in all[n..|u|] {
        assert w in u[n..];
      }
    }
  }

  /** Behind the second union, the array holds what the first left there. */
  lemma BehindSecond(h: Held, q: nat, prefixes: seq<Str>, suffixes: seq<Str>)
    requires Two(h, q) && RoomForBoth(h, q, prefixes, suffixes)
    ensures var n, u := q + |suffixes|, Cleaned(Front(h) + prefixes, false);
            n <= |u| ==> UnionIn(AfterFirst(h, q, prefixes), suffixes, true).all[n..|u|] == u[n..]
  {
    var n, u := q + |suffixes|, Cleaned(Front(h) + prefixes, false);
    var all := UnionIn(AfterFirst(h, q, prefixes), suffixes, true).all;
    if n <= |u| {
      forall k | n <= k < |u|
        ensures all[k] == u[k]
      {
        UnionBehind(AfterFirst(h, q, prefixes), suffixes, true, k);
        UnionBetween(h, prefixes, false, k);
      }
      assert all[n..|u|] == u[n..];
    }
  }

  /** The suffix set has all it should have exactly if there is no room for the prefixes, or every string of the
      slice is still read after the first union or is new as well. */
  lemma SuffixesKept(h: Held, q: nat, prefixes: seq<Str>, suffixes: seq<Str>)
    requires Two(h, q)
    ensures (forall w :: w in h.all[..q] + suffixes ==> w in UnionEnds(h, q, prefixes, suffixes).suffix) <==>
            (HasRoom(h, |prefixes|) ==> forall w :: w in h.all[..q] ==> StillRead(w, h, q, prefixes) || w in suffixes)
  {
    if HasRoom(h, |prefixes|) {
      var f := Front(AfterFirst(h, q, prefixes));
      CleanedMeans(f + suffixes, true);
      assert UnionEnds(h, q, prefixes, suffixes).suffix == Cleaned(f + suffixes, true);
      var suffix := UnionEnds(h, q, prefixes, suffixes).suffix;
      hide Cleaned, AfterFirst, StillRead, UnionEnds;
      forall w
        ensures w in suffix <==> StillRead(w, h, q, prefixes) || w in suffixes
      {
        ReadAfterFirst(h, q, prefixes, w);
        assert w in suffix <==> w in f + suffixes;
      }
      assert forall w :: w in h.all[..q] + suffixes <==> w in h.all[..q] || w in suffixes;
    } else {
      CleanedMeans(h.all[..q] + suffixes, true);
    }
  }

  /** The prefix set has all it should have exactly if the unions are in different arrays or all its strings stay. */
  lemma PrefixesKept(h: Held, q: nat, prefixes: seq<Str>, suffixes: seq<Str>)
    requires Two(h, q)
    ensures (forall w :: w in Front(h) + prefixes ==> w in UnionEnds(h, q, prefixes, suffixes).prefix) <==>
            (RoomForBoth(h, q, prefixes, suffixes) ==>
               forall w :: w in Front(h) + prefixes ==> Stays(w, h, q, prefixes, suffixes))
  {
    if RoomForBoth(h, q, prefixes, suffixes) {
      forall w
        ensures w in UnionEnds(h, q, prefixes, suffixes).prefix <==> Stays(w, h, q, prefixes, suffixes)
      {
        ReadAfterBoth(h, q, prefixes, suffixes, w);
      }
    } else {
      CleanedMeans(Front(h) + prefixes, false);
    }
  }

  // ------------------------------------------------------- what a simplified set covers

  /** The strings cut to at most n bytes. */
  ghost function CutSet(S: set<Str>, n: nat, isSuffix: bool): set<Str> {
    set z | z in S :: CutTo(z, n, isSuffix)
  }

  /** To how many bytes simplifySet cuts a set: two, or fewer if there would be too many strings. */
  ghost function Depth(S: set<Str>, isSuffix: bool): nat {
    if |CutSet(S, 2, isSuffix)| <= MaxSet then 2 else if |CutSet(S, 1, isSuffix)| <= MaxSet then 1 else 0
  }

  /** w begins or ends as some string of the set does, as far as simplifySet keeps it. */
  ghost predicate EndsLike(S: set<Str>, w: Str, isSuffix: bool) {
    exists z :: z in S && IsAffix(CutTo(z, Depth(S, isSuffix), isSuffix), w, isSuffix)
  }

  lemma ShortenedElems(t: seq<Str>, n: nat, isSuffix: bool)
    requires n > 0
    ensures var u, cut := Shortened(t, n, isSuffix), CutSet(Elems(t), n - 1, isSuffix);
            Elems(u) == cut && |u| == |cut| && StrictlySorted(u, isSuffix)
  {
    var k := Squeezed(t, Cutter(n - 1, isSuffix), Equal);
    var u := Shortened(t, n, isSuffix);
    CleanedMeans(k, isSuffix);
    DistinctCount(u, isSuffix);
    forall p
      ensures p in u <==> p in CutSet(Elems(t), n - 1, isSuffix)
    {
      hide Cleaned, Shortened;
      assert p in u <==> p in k;
      if p in k {
        var i := SqueezedFrom(t, Cutter(n - 1, isSuffix), Equal, p);
        assert t[i] in Elems(t) && p == CutTo(t[i], n - 1, isSuffix);
      }
      if p in CutSet(Elems(t), n - 1, isSuffix) {
        var z :| z in t && p == CutTo(z, n - 1, isSuffix);
        var i :| 0 <= i < |t| && t[i] == z;
        SqueezedKeeps(t, Cutter(n - 1, isSuffix), Equal, i);
      }
    }
  }

  lemma CutTwice(z: Str, m: nat, n: nat, isSuffix: bool)
    requires n <= m
    ensures CutTo(CutTo(z, m, isSuffix), n, isSuffix) == CutTo(z, n, isSuffix)
  {
  }

  lemma InCutSet(S: set<Str>, z: Str, n: nat, isSuffix: bool)
    requires z in S
    ensures CutTo(z, n, isSuffix) in CutSet(S, n, isSuffix)
  {
  }

  lemma FromCutSet(S: set<Str>, p: Str, n: nat, isSuffix: bool) returns (z: Str)
    requires p in CutSet(S, n, isSuffix)
    ensures z in S && p == CutTo(z, n, isSuffix)
  {
    z :| z in S && p == CutTo(z, n, isSuffix);
  }

  /** Cutting what has been cut already is cutting to fewer bytes. */
  lemma CutSetAgain(S: set<Str>, m: nat, n: nat, isSuffix: bool)
    requires n <= m
    ensures CutSet(CutSet(S, m, isSuffix), n, isSuffix) == CutSet(S, n, isSuffix)
  {
    var cut := CutSet(S, m, isSuffix);
    hide CutTo, CutSet;
    forall p
      ensures p in CutSet(cut, n, isSuffix) <==> p in CutSet(S, n, isSuffix)
    {
      if p in CutSet(cut, n, isSuffix) {
        var y := FromCutSet(cut, p, n, isSuffix);
        var z := FromCutSet(S, y, m, isSuffix);
        CutTwice(z, m, n, isSuffix);
        InCutSet(S, z, n, isSuffix);
      }
      if p in CutSet(S, n, isSuffix) {
        var z := FromCutSet(S, p, n, isSuffix);
        CutTwice(z, m, n, isSuffix);
        InCutSet(S, z, m, isSuffix);
        InCutSet(cut, CutTo(z, m, isSuffix), n, isSuffix);
      }
    }
  }

  lemma ThreeRounds(t: seq<Str>, isSuffix: bool)
    ensures var u2 := Shortened(t, 3, isSuffix);
            var u1 := Shortened(u2, 2, isSuffix);
            Rounds(t, 3, isSuffix) ==
            if |u2| <= MaxSet then u2 else if |u1| <= MaxSet then u1 else Shortened(u1, 1, isSuffix)
  {
    var u2 := Shortened(t, 3, isSuffix);
    var u1 := Shortened(u2, 2, isSuffix);
    hide Shortened, Rounds;
    RoundsAre(t, 3, isSuffix);
    RoundsAre(u2, 2, isSuffix);
    RoundsAre(u1, 1, isSuffix);
    RoundsAre(Shortened(u1, 1, isSuffix), 0, isSuffix);
  }

  lemma RoundsElems(t: seq<Str>, isSuffix: bool)
    ensures Elems(Rounds(Cleaned(t, isSuffix), 3, isSuffix)) == CutSet(Elems(t), Depth(Elems(t), isSuffix), isSuffix)
  {
    hide *;
    var a := Cleaned(t, isSuffix);
    var u2 := Shortened(a, 3, isSuffix);
    var u1 := Shortened(u2, 2, isSuffix);
    CleanedMeans(t, isSuffix);
    ElemsOfUnion(a, t);
    ShortenedElems(a, 3, isSuffix);
    ShortenedElems(u2, 2, isSuffix);
    ShortenedElems(u1, 1, isSuffix);
    CutSetAgain(Elems(t), 2, 1, isSuffix);
    CutSetAgain(Elems(t), 1, 0, isSuffix);
    ThreeRounds(a, isSuffix);
    DepthIs(Elems(t), isSuffix);
  }

  lemma DepthIs(S: set<Str>, isSuffix: bool)
    ensures Depth(S, isSuffix) ==
            if |CutSet(S, 2, isSuffix)| <= MaxSet then 2 else if |CutSet(S, 1, isSuffix)| <= MaxSet then 1 else 0
  {
  }

  /** What begins or ends with a string of the simplified set: what begins or ends as some string of the set does. */
  lemma CoveredBySimplified(t: seq<Str>, w: Str, isSuffix: bool)
    ensures HasAffix(SimplifiedSet(t, isSuffix), w, isSuffix) <==> EndsLike(Elems(t), w, isSuffix)
  {
    var S, r := Elems(t), Rounds(Cleaned(t, isSuffix), 3, isSuffix);
    RoundsElems(t, isSuffix);
    DroppedMeans(r, isSuffix);
    assert SimplifiedSet(t, isSuffix) == Dropped(r, isSuffix);
    hide Cleaned, Rounds, Dropped, SimplifiedSet, Depth, CutSet, CutTo, Elems, IsAffix, Shortens;
    if HasAffix(r, w, isSuffix) {
      ShortenedStillCovers(r, Dropped(r, isSuffix), w, isSuffix);
      var p :| p in r && IsAffix(p, w, isSuffix);
      MemberOfElems(r, p);
      var z := FromCutSet(S, p, Depth(S, isSuffix), isSuffix);
    }
    if EndsLike(S, w, isSuffix) {
      var z :| z in S && IsAffix(CutTo(z, Depth(S, isSuffix), isSuffix), w, isSuffix);
      InCutSet(S, z, Depth(S, isSuffix), isSuffix);
      MemberOfElems(r, CutTo(z, Depth(S, isSuffix), isSuffix));
    }
    if HasAffix(Dropped(r, isSuffix), w, isSuffix) {
      var p :| p in Dropped(r, isSuffix) && IsAffix(p, w, isSuffix);
      assert p in r;
    }
  }
}
