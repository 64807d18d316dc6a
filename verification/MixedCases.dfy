/** Cases of alternations whose sets share an array: which strings are lost where only one side is exact, single
    characters, and a side that matches nothing. */
module MixedCases {
  import opened Bytes
  import opened StringSets
  import opened Queries
  import opened Analysis
  import opened StorageReuse
  import opened SharedUnions
  import opened MixedAlternate

  // ------------------------------------------------------- which strings are pushed out

  /** Where only one side is exact, the suffix set has all its strings exactly if there is no room for the prefixes
      or y has as suffixes all strings that are pushed out. */
  lemma SuffixComplete(h: Held, yPrefix: seq<Str>, ySuffix: seq<Str>)
    requires Whole(h)
    ensures (forall w :: w in Front(h) || w in ySuffix ==> w in UnionEnds(h, h.len, yPrefix, ySuffix).suffix) <==>
            (HasRoom(h, |yPrefix|) ==> forall w :: PushedOut(w, h, yPrefix) ==> w in ySuffix)
  {
    SuffixesKept(h, h.len, yPrefix, ySuffix);
    hide UnionEnds, StillRead, PushedOut;
    forall w
      ensures PushedOut(w, h, yPrefix) <==> w in Front(h) && !StillRead(w, h, h.len, yPrefix)
    {
      if w in Front(h) {
        PushedOutIs(h, yPrefix, w);
      } else if PushedOut(w, h, yPrefix) {
        PushedOutFrom(h, yPrefix, w);
      }
    }
    assert forall w :: w in h.all[..h.len] + ySuffix <==> w in Front(h) || w in ySuffix;
  }

  // -------------------------------------------------------------------- single bytes

  ghost predicate OneByte(t: seq<Str>) {
    forall w :: w in t ==> |w| == 1
  }

  lemma OneByteOrder(a: Str, b: Str)
    requires |a| == |b| == 1
    ensures Before(a, b, false) <==> a[0] < b[0]
    ensures Before(a, b, true) <==> a[0] < b[0]
  {
    assert a == [a[0]] && b == [b[0]];
    assert Reverse(a) == a && Reverse(b) == b;
    if a[0] == b[0] {
      LessIrreflexive(a);
    } else {
      LessAt(a, b, 0);
    }
  }

  lemma OneByteSorted(t: seq<Str>)
    requires OneByte(t)
    ensures StrictlySorted(t, false) <==> StrictlySorted(t, true)
  {
    forall i, j | 0 <= i < j < |t|
      ensures Before(t[i], t[j], false) <==> Before(t[i], t[j], true)
    {
      assert t[i] in t && t[j] in t;
      OneByteOrder(t[i], t[j]);
    }
  }

  lemma {:induction false} SqueezedAlike(s: seq<Str>, f: Str -> Str, g: Str -> Str, skip: (Str, Str) -> bool)
    requires forall x :: x in s ==> f(x) == g(x)
    ensures Squeezed(s, f, skip) == Squeezed(s, g, skip)
  {
    if s != [] {
      SqueezedAlike(s[..|s| - 1], f, g, skip);
      assert s[|s| - 1] in s;
    }
  }

  lemma OneByteApart(a: Str, b: Str, isSuffix: bool)
    requires |a| == |b| == 1 && Before(a, b, isSuffix)
    ensures a != b && !IsAffix(a, b, isSuffix)
  {
    OneByteOrder(a, b);
    assert b[..1] == b == b[0..];
  }

  /** Cutting to two bytes and looking for duplicates changes nothing. */
  lemma OneByteStays(t: seq<Str>, isSuffix: bool)
    requires OneByte(t) && StrictlySorted(t, isSuffix)
    ensures SortStrings(t, isSuffix) == t == Cleaned(t, isSuffix)
    ensures Squeezed(t, Cutter(2, isSuffix), Equal) == t && Dropped(t, isSuffix) == t
  {
    CleanStays(t, isSuffix);
    forall i | 0 <= i < |t| - 1
      ensures !Equal(t[i], t[i + 1]) && !Extends(isSuffix)(t[i], t[i + 1])
    {
      assert t[i] in t && t[i + 1] in t;
      assert Before(t[i], t[i + 1], isSuffix);
      OneByteApart(t[i], t[i + 1], isSuffix);
    }
    hide Before, SortStrings, Cleaned, Squeezed;
    SqueezedAlike(t, Cutter(2, isSuffix), Same, Equal);
    SqueezedNothing(t, Equal);
    SqueezedNothing(t, Extends(isSuffix));
  }

  /** A small clean set of single bytes is simplified already. */
  lemma SimplifiedStays(h: Held, isSuffix: bool)
    requires Whole(h) && OneByte(Front(h)) && StrictlySorted(Front(h), isSuffix) && h.len <= MaxSet
    ensures SimplifiedIn(h, isSuffix) == h && DroppedIn(RoundsIn(h, 3, isSuffix), isSuffix) == h
  {
    OneByteStays(Front(h), isSuffix);
    hide Cleaned, SortStrings, Squeezed, Dropped;
    assert Replaced(h, Front(h)) == h;
    assert CleanedIn(h, isSuffix) == h;
    assert ShortenedIn(h, 3, isSuffix) == h;
    hide ShortenedIn, CleanedIn, Replaced;
    RoundsInAre(h, 3, isSuffix);
    RoundsInAre(h, 2, isSuffix);
  }

  /** The simplified prefix set of single bytes is the clean one. */
  lemma CleanIsSimple(h: Held)
    requires Whole(h) && OneByte(Front(h)) && |Cleaned(Front(h), false)| <= MaxSet
    ensures SimplifiedIn(h, false) == CleanedIn(h, false) && OneByte(Cleaned(Front(h), false))
  {
    var c := Cleaned(Front(h), false);
    CleanedMeans(Front(h), false);
    assert OneByte(c) by {
      assert forall w :: w in c <==> w in Front(h);
    }
    SimplifiedStays(CleanedIn(h, false), false);
  }

  ghost predicate AllOneByte(h: Held, q: nat, prefixes: seq<Str>, suffixes: seq<Str>)
    requires Two(h, q)
  {
    OneByte(Front(h)) && OneByte(h.all[..q]) && OneByte(prefixes) && OneByte(suffixes)
  }

  /** The two unions of single bytes are single bytes. */
  lemma UnionsOneByte(h: Held, q: nat, prefixes: seq<Str>, suffixes: seq<Str>)
    requires Two(h, q) && RoomForBoth(h, q, prefixes, suffixes) && AllOneByte(h, q, prefixes, suffixes)
    ensures OneByte(Front(FirstInBoth(h, q, prefixes, suffixes))) && OneByte(Front(AfterBoth(h, q, prefixes, suffixes)))
    ensures StrictlySorted(Front(AfterBoth(h, q, prefixes, suffixes)), true)
  {
    var f := Front(AfterFirst(h, q, prefixes));
    var v := Front(AfterBoth(h, q, prefixes, suffixes));
    CleanedMeans(f + suffixes, true);
    forall w | w in f
      ensures |w| == 1
    {
      ReadAfterFirst(h, q, prefixes, w);
      StillReadFrom(h, q, prefixes, w);
    }
    assert forall w :: w in v <==> w in f + suffixes;
    hide Cleaned, AfterFirst, AfterBoth;
    forall w | w in Front(FirstInBoth(h, q, prefixes, suffixes))
      ensures |w| == 1
    {
      FirstFrom(h, q, prefixes, suffixes, w);
    }
  }

  /** What stays in the prefix set is a string of one of the unions. */
  lemma FirstFrom(h: Held, q: nat, prefixes: seq<Str>, suffixes: seq<Str>, w: Str)
    requires Two(h, q) && RoomForBoth(h, q, prefixes, suffixes) && w in Front(FirstInBoth(h, q, prefixes, suffixes))
    ensures w in Front(AfterBoth(h, q, prefixes, suffixes)) || w in Front(h) + prefixes
  {
    ReadAfterBoth(h, q, prefixes, suffixes, w);
    SecondIs(h, q, prefixes, suffixes);
    var f := Front(AfterFirst(h, q, prefixes));
    CleanedMeans(f + suffixes, true);
    MemberOfElems(f + suffixes, w);
    MemberOfElems(Front(h) + prefixes, w);
    hide Cleaned, AfterFirst, FirstInBoth, Second, Earlier, Elems;
  }

  /** What two sets of single bytes in one array end as. With no more strings in the first union than in the second,
      the prefixes are the first strings of the second union and the suffixes are all of it; else the prefixes are
      all that stays, and the suffixes the first of these. */
  lemma OneByteEnds(h: Held, q: nat, prefixes: seq<Str>, suffixes: seq<Str>)
    requires Two(h, q) && RoomForBoth(h, q, prefixes, suffixes) && AllOneByte(h, q, prefixes, suffixes)
    requires |Cleaned(Front(FirstInBoth(h, q, prefixes, suffixes)), false)| <= MaxSet
    requires |Front(AfterBoth(h, q, prefixes, suffixes))| <= MaxSet
    ensures var u, v := Cleaned(Front(h) + prefixes, false), Front(AfterBoth(h, q, prefixes, suffixes));
            var c := Cleaned(Front(FirstInBoth(h, q, prefixes, suffixes)), false);
            if |u| <= |v| then FinalEnds(h, q, prefixes, suffixes) == Ends(v[..|u|], v) && c == v[..|u|]
            else |v| <= |c| && FinalEnds(h, q, prefixes, suffixes) == Ends(c, c[..|v|])
  {
    var u, v := Cleaned(Front(h) + prefixes, false), Front(AfterBoth(h, q, prefixes, suffixes));
    var first := FirstInBoth(h, q, prefixes, suffixes);
    var c := Cleaned(Front(first), false);
    UnionsOneByte(h, q, prefixes, suffixes);
    CleanIsSimple(first);
    CleanedMeans(Front(first), false);
    FirstAndSecond(h, q, prefixes, suffixes);
    hide Cleaned, AfterFirst, AfterBoth, FirstInBoth, SimplifiedIn, CleanedIn;
    if |u| <= |v| {
      OneByteShorter(first, AfterBoth(h, q, prefixes, suffixes));
    } else {
      OneByteLonger(first, v, c);
    }
    EndsInBoth(h, q, prefixes, suffixes);
  }

  lemma EndsInBoth(h: Held, q: nat, prefixes: seq<Str>, suffixes: seq<Str>)
    requires Two(h, q) && RoomForBoth(h, q, prefixes, suffixes)
    ensures var g := SimplifiedIn(FirstInBoth(h, q, prefixes, suffixes), false);
            var r := SimplifiedIn(Held(g.all, AfterBoth(h, q, prefixes, suffixes).len), true);
            FinalEnds(h, q, prefixes, suffixes) == Ends(r.all[..g.len], Front(r)) && FinalArray(h, q, prefixes, suffixes) == r
  {
    hide SimplifiedIn, AfterBoth, FirstInBoth;
  }

  /** The first union reads as the front of the second, or begins with it. */
  lemma FirstAndSecond(h: Held, q: nat, prefixes: seq<Str>, suffixes: seq<Str>)
    requires Two(h, q) && RoomForBoth(h, q, prefixes, suffixes)
    ensures var u, v := Cleaned(Front(h) + prefixes, false), Front(AfterBoth(h, q, prefixes, suffixes));
            var prefix := Front(FirstInBoth(h, q, prefixes, suffixes));
            && |prefix| == |u| && FirstInBoth(h, q, prefixes, suffixes).all == AfterBoth(h, q, prefixes, suffixes).all
            && (|u| <= |v| ==> prefix == v[..|u|])
            && (|u| > |v| ==> v <= prefix)
  {
    var u, v := Cleaned(Front(h) + prefixes, false), Front(AfterBoth(h, q, prefixes, suffixes));
    var g := AfterBoth(h, q, prefixes, suffixes);
    var prefix := Front(FirstInBoth(h, q, prefixes, suffixes));
    assert g.all[..|v|] == v;
    if |u| <= |v| {
      assert prefix == g.all[..|v|][..|u|];
    } else {
      assert prefix[..|v|] == g.all[..|v|];
    }
  }

  lemma OneByteShorter(first: Held, second: Held)
    requires Whole(first) && Whole(second) && first.all == second.all && first.len <= second.len <= MaxSet
    requires OneByte(Front(second)) && StrictlySorted(Front(second), true) && Front(first) == Front(second)[..first.len]
    ensures var g := SimplifiedIn(first, false);
            var r := SimplifiedIn(Held(g.all, second.len), true);
            g == first && r == second && r.all[..g.len] == Front(second)[..first.len] && Cleaned(Front(first), false) == Front(first)
  {
    FrontOfSorted(Front(second), first.len, true);
    OneByteSorted(Front(first));
    SimplifiedStays(first, false);
    SimplifiedStays(second, true);
    CleanStays(Front(first), false);
  }

  lemma OneByteLonger(first: Held, v: seq<Str>, c: seq<Str>)
    requires Whole(first) && v <= Front(first) && OneByte(c) && StrictlySorted(c, false) && SameElements(c, Front(first)) && |c| <= MaxSet
    requires StrictlySorted(v, true) && c == Cleaned(Front(first), false) && SimplifiedIn(first, false) == CleanedIn(first, false)
    ensures |v| <= |c|
    ensures var g := SimplifiedIn(first, false);
            var r := SimplifiedIn(Held(g.all, |v|), true);
            r.all[..g.len] == c && Front(r) == c[..|v|] && r.all == g.all
  {
    DistinctCount(v, true);
    DistinctCount(c, false);
    assert Elems(v) <= Elems(c) by {
      assert forall w :: w in v ==> w in Front(first);
    }
    Subset(Elems(v), Elems(c));
    assert Front(CleanedIn(first, false)) == c;
    hide Cleaned, CleanedIn, SimplifiedIn, SameElements, StrictlySorted;
    OneByteFront(CleanedIn(first, false), c, |v|);
  }

  /** The first of some single bytes in order are simplified already. */
  lemma OneByteFront(g: Held, c: seq<Str>, n: nat)
    requires Whole(g) && Front(g) == c && OneByte(c) && StrictlySorted(c, false) && n <= |c| <= MaxSet
    ensures SimplifiedIn(Held(g.all, n), true) == Held(g.all, n) && g.all[..n] == c[..n] && g.all[..g.len] == c
  {
    var t := Held(g.all, n);
    assert Front(t) == Front(g)[..n];
    FrontOfSorted(c, n, false);
    hide StrictlySorted, SimplifiedIn;
    OneByteSorted(c[..n]);
    SimplifiedStays(t, true);
  }

  lemma OneByteAffix(ends: seq<Str>, w: Str, isSuffix: bool)
    requires OneByte(ends) && |w| == 1
    ensures HasAffix(ends, w, isSuffix) <==> w in ends
  {
    if HasAffix(ends, w, isSuffix) {
      var p :| p in ends && IsAffix(p, w, isSuffix);
      assert w[..1] == w == w[0..];
    }
    if w in ends {
      SelfAffix(ends, w, isSuffix);
    }
  }

  lemma OneByteAffixes(t: seq<Str>, ends: seq<Str>, isSuffix: bool)
    requires OneByte(ends) && OneByte(t)
    ensures AllHaveAffix(t, ends, isSuffix) <==> forall w :: w in t ==> w in ends
  {
    forall w | w in t
      ensures HasAffix(ends, w, isSuffix) <==> w in ends
    {
      OneByteAffix(ends, w, isSuffix);
    }
  }

  /** All that stays in the prefix set. */
  ghost function Staying(h: Held, q: nat, prefixes: seq<Str>, suffixes: seq<Str>): set<Str>
    requires Two(h, q)
  {
    set w | w in h.all[..q] + Front(h) + prefixes + suffixes && Stays(w, h, q, prefixes, suffixes)
  }

  /** w is in the suffix set in the end: it is in the second union, or, if the first one is longer, among the first
      of those that stay. */
  ghost predicate StaysSuffix(w: Str, h: Held, q: nat, prefixes: seq<Str>, suffixes: seq<Str>)
    requires Two(h, q)
  {
    var second, staying := Second(h, q, prefixes, suffixes), Staying(h, q, prefixes, suffixes);
    if |United(h, prefixes)| <= |second| then w in second else w in staying && |Earlier(w, staying, false)| < |second|
  }

  lemma StayingIs(h: Held, q: nat, prefixes: seq<Str>, suffixes: seq<Str>)
    requires Two(h, q) && RoomForBoth(h, q, prefixes, suffixes)
    ensures Elems(Cleaned(Front(FirstInBoth(h, q, prefixes, suffixes)), false)) == Staying(h, q, prefixes, suffixes)
  {
    var prefix := Front(FirstInBoth(h, q, prefixes, suffixes));
    var c := Cleaned(prefix, false);
    CleanedMeans(prefix, false);
    ElemsOfUnion(c, prefix);
    hide Cleaned, Stays, FirstInBoth;
    forall w
      ensures w in prefix <==> w in Staying(h, q, prefixes, suffixes)
    {
      ReadAfterBoth(h, q, prefixes, suffixes, w);
      if w in prefix {
        StaysFrom(h, q, prefixes, suffixes, w);
      }
    }
  }

  lemma StaysFrom(h: Held, q: nat, prefixes: seq<Str>, suffixes: seq<Str>, w: Str)
    requires Two(h, q) && Stays(w, h, q, prefixes, suffixes)
    ensures w in h.all[..q] + Front(h) + prefixes + suffixes
  {
    MemberOfElems(Front(h) + prefixes, w);
    MemberOfElems(suffixes, w);
    hide Earlier, StillRead, Elems;
  }

  /** Where only one side is exact and all strings are single bytes, at most 20 in each set: the result is right
      exactly if its prefixes stay in the first set and its suffixes in the second. */
  lemma OneByteCondition(h: Held, y: Info)
    requires Whole(h) && Sides(Front(h), y) && Live(y) && RoomForBoth(h, h.len, y.prefix, y.suffix)
    requires OneByte(Front(h)) && OneByte(y.prefix) && OneByte(y.suffix)
    requires |Second(h, h.len, y.prefix, y.suffix)| <= MaxSet && |Staying(h, h.len, y.prefix, y.suffix)| <= MaxSet
    ensures Enclosed(Front(h), y, FinalEnds(h, h.len, y.prefix, y.suffix)) <==>
            && (forall w :: w in Front(h) || w in y.prefix ==> Stays(w, h, h.len, y.prefix, y.suffix))
            && (forall w :: w in Front(h) || w in y.suffix ==> StaysSuffix(w, h, h.len, y.prefix, y.suffix))
  {
    var e := FinalEnds(h, h.len, y.prefix, y.suffix);
    OneByteSets(h, h.len, y.prefix, y.suffix);
    hide FinalEnds, Stays, StaysSuffix, HasAffix, Second, Staying;
    OneByteAffixes(Front(h), e.prefix, false);
    OneByteAffixes(Front(h), e.suffix, true);
    OneByteAffixes(y.prefix, e.prefix, false);
    OneByteAffixes(y.suffix, e.suffix, true);
  }

  /** The final sets of single bytes, by order. */
  lemma OneByteSets(h: Held, q: nat, prefixes: seq<Str>, suffixes: seq<Str>)
    requires Two(h, q) && RoomForBoth(h, q, prefixes, suffixes) && AllOneByte(h, q, prefixes, suffixes)
    requires |Second(h, q, prefixes, suffixes)| <= MaxSet && |Staying(h, q, prefixes, suffixes)| <= MaxSet
    ensures var e := FinalEnds(h, q, prefixes, suffixes);
            && OneByte(e.prefix) && OneByte(e.suffix)
            && (forall w :: w in e.prefix <==> Stays(w, h, q, prefixes, suffixes))
            && (forall w :: w in e.suffix <==> StaysSuffix(w, h, q, prefixes, suffixes))
  {
    var u, v := Cleaned(Front(h) + prefixes, false), Front(AfterBoth(h, q, prefixes, suffixes));
    var prefix := Front(FirstInBoth(h, q, prefixes, suffixes));
    var c := Cleaned(prefix, false);
    var e := FinalEnds(h, q, prefixes, suffixes);
    hide *;
    SetsAreCounted(h, q, prefixes, suffixes);
    UnionsOneByte(h, q, prefixes, suffixes);
    CleanedMeans(prefix, false);
    OneByteEnds(h, q, prefixes, suffixes);
    SuffixIs(u, v, c, e);
    SameOneByte(c, prefix, v, e);
    forall w
      ensures w in e.prefix <==> Stays(w, h, q, prefixes, suffixes)
      ensures w in e.suffix <==> StaysSuffix(w, h, q, prefixes, suffixes)
    {
      ReadAfterBoth(h, q, prefixes, suffixes, w);
      SameMember(c, prefix, w);
      SuffixMember(u, v, c, e, w);
      StaysSuffixIs(w, h, q, prefixes, suffixes);
    }
  }

  lemma SameMember(c: seq<Str>, t: seq<Str>, w: Str)
    requires SameElements(c, t)
    ensures w in c <==> w in t
  {
  }

  lemma SuffixIs(u: seq<Str>, v: seq<Str>, c: seq<Str>, e: Ends)
    requires if |u| <= |v| then e == Ends(v[..|u|], v) && c == v[..|u|] else |v| <= |c| && e == Ends(c, c[..|v|])
    ensures e.prefix == c && e.suffix == if |u| <= |v| then v else c[..|v|]
  {
  }

  lemma SameOneByte(c: seq<Str>, prefix: seq<Str>, v: seq<Str>, e: Ends)
    requires SameElements(c, prefix) && OneByte(prefix) && OneByte(v) && e.prefix == c
    requires e.suffix == v || (|v| <= |c| && e.suffix == c[..|v|])
    ensures OneByte(e.prefix) && OneByte(e.suffix)
  {
    assert forall w :: w in c <==> w in prefix;
    assert forall w :: w in e.suffix ==> w in v || w in c;
  }

  lemma SuffixMember(u: seq<Str>, v: seq<Str>, c: seq<Str>, e: Ends, w: Str)
    requires |u| > |v| ==> |v| <= |c|
    requires StrictlySorted(c, false) && e.suffix == if |u| <= |v| then v else c[..|v|]
    ensures w in e.suffix <==> if |u| <= |v| then w in Elems(v) else w in Elems(c) && |Earlier(w, Elems(c), false)| < |v|
  {
    MemberOfElems(v, w);
    MemberOfElems(c, w);
    if |u| > |v| && w in c {
      AmongFirst(c, w, |v|, false);
    }
    hide Earlier;
  }

  lemma StaysSuffixIs(w: Str, h: Held, q: nat, prefixes: seq<Str>, suffixes: seq<Str>)
    requires Two(h, q)
    ensures var second, staying := Second(h, q, prefixes, suffixes), Staying(h, q, prefixes, suffixes);
            StaysSuffix(w, h, q, prefixes, suffixes) <==>
            if |United(h, prefixes)| <= |second| then w in second else w in staying && |Earlier(w, staying, false)| < |second|
  {
    hide Second, Staying, United, Earlier;
  }

  lemma SetsAreCounted(h: Held, q: nat, prefixes: seq<Str>, suffixes: seq<Str>)
    requires Two(h, q) && RoomForBoth(h, q, prefixes, suffixes)
    ensures var u, v := Cleaned(Front(h) + prefixes, false), Front(AfterBoth(h, q, prefixes, suffixes));
            var c := Cleaned(Front(FirstInBoth(h, q, prefixes, suffixes)), false);
            && Elems(v) == Second(h, q, prefixes, suffixes) && |v| == |Second(h, q, prefixes, suffixes)|
            && Elems(c) == Staying(h, q, prefixes, suffixes) && |c| == |Staying(h, q, prefixes, suffixes)|
            && |u| == |United(h, prefixes)|
  {
    var u, v := Cleaned(Front(h) + prefixes, false), Front(AfterBoth(h, q, prefixes, suffixes));
    var f := Front(AfterFirst(h, q, prefixes));
    var prefix := Front(FirstInBoth(h, q, prefixes, suffixes));
    var c := Cleaned(prefix, false);
    CleanedMeans(Front(h) + prefixes, false);
    CleanedMeans(f + suffixes, true);
    CleanedMeans(prefix, false);
    ElemsOfUnion(u, Front(h) + prefixes);
    ElemsOfUnion(v, f + suffixes);
    DistinctCount(u, false);
    DistinctCount(v, true);
    DistinctCount(c, false);
    SecondIs(h, q, prefixes, suffixes);
    StayingIs(h, q, prefixes, suffixes);
    hide *;
  }

  // ----------------------------------------------------------------- a side that matches nothing

  lemma OneStringCleaned(w: Str, isSuffix: bool)
    ensures Cleaned([w], isSuffix) == [w]
  {
    CleanStays([w], isSuffix);
  }

  lemma OneStringSqueezed(w: Str, change: Str -> Str, skip: (Str, Str) -> bool)
    ensures Squeezed([w], change, skip) == [change(w)]
  {
    assert [w][..0] == [];
  }

  lemma OneStringSimplified(w: Str, isSuffix: bool)
    ensures SimplifiedSet([w], isSuffix) == [CutTo(w, 2, isSuffix)]
  {
    var c := CutTo(w, 2, isSuffix);
    OneStringCleaned(w, isSuffix);
    OneStringCleaned(c, isSuffix);
    OneStringSqueezed(w, Cutter(2, isSuffix), Equal);
    OneStringSqueezed(c, Same, Extends(isSuffix));
    assert Shortened([w], 3, isSuffix) == [c];
    hide Cleaned, Squeezed, Shortened;
    RoundsAre([w], 3, isSuffix);
    RoundsAre([c], 2, isSuffix);
  }

  lemma OneStringEnclosed(w: Str, c: Str, y: Info)
    requires IsAffix(c, w, false) && y.prefix == y.suffix == []
    ensures Enclosed([w], y, Ends([c], [c])) <==> IsSuffix(c, w)
  {
    assert forall z :: z in [c] <==> z == c;
    assert w in [w];
    if IsSuffix(c, w) {
      assert IsAffix(c, w, true) && c in [c];
    }
  }

  lemma CutEndsMatch(w: Str)
    ensures IsAffix(CutTo(w, 2, false), w, false)
    ensures IsSuffix(CutTo(w, 2, false), w) <==> |w| <= 2 || w[..2] == w[|w| - 2..]
  {
    assert w[0..] == w;
  }

  lemma CutEndsTwice(w: Str)
    ensures CutTo(CutTo(w, 2, false), 2, true) == CutTo(w, 2, false)
  {
  }

  /** A single string in alternation with an expression that matches nothing: both sets are in one array,
      whatever its size, and the suffix set is what simplifying made of the prefix. The result is right
      exactly if the string is short or ends as it begins. */
  lemma OneStringOrNothing(h: Held, w: Str, y: Info)
    requires Whole(h) && h.len == 1 && Front(h) == [w] && y.prefix == y.suffix == []
    ensures Enclosed(Front(h), y, FinalEnds(h, h.len, y.prefix, y.suffix)) <==> |w| <= 2 || w[..2] == w[|w| - 2..]
  {
    hide *;
    var c := CutTo(w, 2, false);
    OneStringFinal(h, w);
    CutEndsMatch(w);
    OneStringEnclosed(w, c, y);
  }

  lemma OneStringUnions(h: Held, w: Str)
    requires Whole(h) && h.len == 1 && Front(h) == [w]
    ensures Front(FirstInBoth(h, h.len, [], [])) == [w] && Front(AfterBoth(h, h.len, [], [])) == [w]
  {
    OneStringCleaned(w, false);
    OneStringCleaned(w, true);
    assert [w] + [] == [w];
    FirstBelowSecond(h, [], []);
    FrontAfterFirst(h, []);
    assert Front(AfterFirst(h, h.len, [])) == [w];
  }

  lemma OneStringFinal(h: Held, w: Str)
    requires Whole(h) && h.len == 1 && Front(h) == [w]
    ensures FinalEnds(h, h.len, [], []) == Ends([CutTo(w, 2, false)], [CutTo(w, 2, false)])
  {
    var c := CutTo(w, 2, false);
    OneStringUnions(h, w);
    OneStringSimplified(w, false);
    OneStringSimplified(c, true);
    CutEndsTwice(w);
    hide AfterFirst, AfterBoth, UnionIn, SimplifiedSet, CutTo;
    var g := PrefixSimplified(h, h.len, [], []);
    assert Front(g) == [c] && g.len == 1;
    var t := SuffixThen(h, h.len, [], []);
    assert t.len == |Front(AfterBoth(h, h.len, [], []))| == 1;
    assert Front(t) == t.all[..1] == g.all[..1] == [c];
    var r := SimplifiedIn(t, true);
    assert Front(r) == [c] && r.len == 1;
    assert r.all[..1] == [c];
  }
}
