/** alternate of internal/codesearch/index/regexp.go where only its first argument has an exact set: both unions
    are called on that set, whose storage they reuse, and so may end up in one array. When the result still
    covers the texts of both sides, whatever the array holds. */
module MixedAlternate {
  import opened Bytes
  import opened StringSets
  import opened Queries
  import opened Analysis
  import opened StorageReuse
  import opened SharedUnions
  import opened SliceInfos

  /** What the exact set reads as then. */
  function ReadBack(h: Held, yPrefix: seq<Str>, ySuffix: seq<Str>): (t: seq<Str>)
    requires Whole(h)
    ensures |t| == h.len
  {
    if RoomForBoth(h, h.len, yPrefix, ySuffix) then AfterBoth(h, h.len, yPrefix, ySuffix).all[..h.len]
    else if HasRoom(h, |yPrefix|) then Front(AfterFirst(h, h.len, yPrefix))
    else if HasRoom(h, |ySuffix|) then UnionIn(h, ySuffix, true).all[..h.len]
    else Front(h)
  }

  // -------------------------------------------------------------------- the condition

  /** Some text has what y says. */
  ghost predicate Live(y: Info) {
    y.prefix != [] && y.suffix != [] && exists T :: Eval(y.query, T)
  }

  ghost predicate AllHaveAffix(t: seq<Str>, ends: seq<Str>, isSuffix: bool) {
    forall w :: w in t ==> HasAffix(ends, w, isSuffix)
  }

  /** Every string of x, and every prefix and suffix of y, begins and ends with one of the strings. */
  ghost predicate Enclosed(x: seq<Str>, y: Info, e: Ends) {
    && AllHaveAffix(x, e.prefix, false) && AllHaveAffix(x, e.suffix, true)
    && (Live(y) ==> AllHaveAffix(y.prefix, e.prefix, false) && AllHaveAffix(y.suffix, e.suffix, true))
  }

  ghost predicate CoversBoth(x: Info, y: Info, out: Info) {
    forall w, T :: Covers(x, w, T) || Covers(y, w, T) ==> Covers(out, w, T)
  }

  ghost predicate Short(t: seq<Str>) {
    forall w :: w in t ==> |w| <= 2
  }

  /** What simplify and the analysis before it ensure of an exact set and of a side without one. */
  ghost predicate Sides(x: seq<Str>, y: Info) {
    StrictlySorted(x, false) && y.exact.None? && Short(y.prefix) && Short(y.suffix) && Valid(y)
  }

  ghost function ExactInfo(x: seq<Str>, canEmpty: bool, q: Query): Info {
    Info(canEmpty, Some(x), [], [], q)
  }

  // ----------------------------------------------------------------------- counting

  /** A clean list at least as long as x, of strings of x and of short strings, that has only long ones is x. */
  lemma LongOnesAreX(t: seq<Str>, x: seq<Str>, isSuffix: bool)
    requires StrictlySorted(t, isSuffix) && StrictlySorted(x, false) && |t| >= |x|
    requires forall z :: z in t ==> z in x || |z| <= 2
    ensures AllLong(t) ==> SameElements(t, x) && |t| == |x|
  {
    if AllLong(t) {
      DistinctCount(t, isSuffix);
      DistinctCount(x, false);
      SubsetOfSize(Elems(t), Elems(x));
      forall z
        ensures z in t <==> z in x
      {
        assert z in t <==> z in Elems(t);
        assert z in x <==> z in Elems(x);
      }
    }
  }

  // ------------------------------------------------------------- the array after both unions

  /** A union is at least as long as each of its parts that is clean. */
  lemma UnionLonger(x: seq<Str>, t: seq<Str>, isSuffix: bool)
    requires StrictlySorted(x, false)
    ensures |x| <= |Cleaned(x + t, isSuffix)|
  {
    var u := Cleaned(x + t, isSuffix);
    CleanedMeans(x + t, isSuffix);
    DistinctCount(x, false);
    DistinctCount(u, isSuffix);
    assert Elems(x) <= Elems(u) by {
      assert forall w :: w in x ==> w in x + t;
    }
    Subset(Elems(x), Elems(u));
  }

  /** The exact set after the first union: as many strings of the union as it has, from the first on. */
  lemma FrontAfterFirst(h: Held, yPrefix: seq<Str>)
    requires Whole(h) && HasRoom(h, |yPrefix|) && StrictlySorted(Front(h), false)
    ensures h.len <= |Cleaned(Front(h) + yPrefix, false)|
    ensures Front(AfterFirst(h, h.len, yPrefix)) == Cleaned(Front(h) + yPrefix, false)[..h.len]
    ensures StrictlySorted(Front(AfterFirst(h, h.len, yPrefix)), false)
  {
    UnionLonger(Front(h), yPrefix, false);
    UnionFront(h, yPrefix, false, h.len);
    CleanedMeans(Front(h) + yPrefix, false);
  }

  lemma AfterFirstFrom(h: Held, yPrefix: seq<Str>, z: Str)
    requires Whole(h) && HasRoom(h, |yPrefix|) && StrictlySorted(Front(h), false)
    ensures z in Front(AfterFirst(h, h.len, yPrefix)) ==> z in Front(h) || z in yPrefix
  {
    FrontAfterFirst(h, yPrefix);
    CleanedMeans(Front(h) + yPrefix, false);
    var u := Cleaned(Front(h) + yPrefix, false);
    assert z in u[..h.len] ==> z in u;
  }

  /** The strings of the suffix set: what is left of x, and the suffixes of y. */
  lemma SecondUnion(h: Held, yPrefix: seq<Str>, ySuffix: seq<Str>)
    requires Whole(h) && HasRoom(h, |yPrefix|) && StrictlySorted(Front(h), false)
    ensures var v := Cleaned(Front(AfterFirst(h, h.len, yPrefix)) + ySuffix, true);
            && SameElements(v, Front(AfterFirst(h, h.len, yPrefix)) + ySuffix) && StrictlySorted(v, true)
            && h.len <= |v| <= h.len + |ySuffix|
            && forall z :: z in v ==> z in Front(h) || z in yPrefix || z in ySuffix
  {
    var f := Front(AfterFirst(h, h.len, yPrefix));
    var v := Cleaned(f + ySuffix, true);
    CleanedMeans(f + ySuffix, true);
    FrontAfterFirst(h, yPrefix);
    UnionLonger(f, ySuffix, true);
    forall z | z in v
      ensures z in Front(h) || z in yPrefix || z in ySuffix
    {
      AfterFirstFrom(h, yPrefix, z);
      assert z in f + ySuffix;
    }
  }

  /** The prefix set when both unions are in one array: the front of the suffix set, and what the first union
      left behind the second. */
  lemma FirstBelowSecond(h: Held, yPrefix: seq<Str>, ySuffix: seq<Str>)
    requires Whole(h) && RoomForBoth(h, h.len, yPrefix, ySuffix) && StrictlySorted(Front(h), false)
    ensures var u, v := Cleaned(Front(h) + yPrefix, false), Cleaned(Front(AfterFirst(h, h.len, yPrefix)) + ySuffix, true);
            var prefix := Front(FirstInBoth(h, h.len, yPrefix, ySuffix));
            && |prefix| == |u|
            && (|u| <= |v| ==> prefix == v[..|u|])
            && (|u| > |v| ==> v <= prefix)
            && (h.len + |ySuffix| <= |u| ==> prefix[h.len + |ySuffix|..] == u[h.len + |ySuffix|..])
  {
    var u, v := Cleaned(Front(h) + yPrefix, false), Cleaned(Front(AfterFirst(h, h.len, yPrefix)) + ySuffix, true);
    var g := AfterBoth(h, h.len, yPrefix, ySuffix);
    var prefix := Front(FirstInBoth(h, h.len, yPrefix, ySuffix));
    var n := h.len + |ySuffix|;
    assert g.all[..|v|] == v;
    if |u| <= |v| {
      assert prefix == g.all[..|v|][..|u|];
    } else {
      assert prefix[..|v|] == g.all[..|v|];
    }
    if n <= |u| {
      BehindSecond(h, h.len, yPrefix, ySuffix);
    }
  }

  // ------------------------------------------------- why the query is right for any contents

  lemma NotAllLong(t: seq<Str>, z: Str)
    requires z in t && |z| <= 2
    ensures !AllLong(t)
  {
  }

  /** If the prefix set has long strings only, it is x and y has no prefixes: it never asks a text for a string
      that it does not begin with. */
  lemma LongPrefixes(h: Held, yPrefix: seq<Str>, ySuffix: seq<Str>)
    requires Whole(h) && RoomForBoth(h, h.len, yPrefix, ySuffix) && StrictlySorted(Front(h), false) && Short(yPrefix) && Short(ySuffix)
    ensures var prefix := Front(FirstInBoth(h, h.len, yPrefix, ySuffix));
            AllLong(prefix) ==> yPrefix == [] && SameElements(prefix, Front(h))
  {
    var x := Front(h);
    var u, v := Cleaned(x + yPrefix, false), Cleaned(Front(AfterFirst(h, h.len, yPrefix)) + ySuffix, true);
    var prefix := Front(FirstInBoth(h, h.len, yPrefix, ySuffix));
    FirstBelowSecond(h, yPrefix, ySuffix);
    SecondUnion(h, yPrefix, ySuffix);
    FrontAfterFirst(h, yPrefix);
    hide *;
    if |u| <= |v| {
      LongFront(x, yPrefix, ySuffix, u, v);
    } else {
      ShortBelow(x, yPrefix, ySuffix, u, v, prefix);
    }
  }

  lemma LongFront(x: seq<Str>, yPrefix: seq<Str>, ySuffix: seq<Str>, u: seq<Str>, v: seq<Str>)
    requires StrictlySorted(x, false) && StrictlySorted(v, true) && Short(yPrefix) && Short(ySuffix)
    requires u == Cleaned(x + yPrefix, false) && |x| <= |u| <= |v|
    requires forall z :: z in v ==> z in x || z in yPrefix || z in ySuffix
    ensures AllLong(v[..|u|]) ==> yPrefix == [] && SameElements(v[..|u|], x)
  {
    var prefix := v[..|u|];
    NothingAdded(x, yPrefix);
    hide Cleaned;
    FrontOfSorted(v, |u|, true);
    LongOnesAreX(prefix, x, true);
    if yPrefix != [] && yPrefix[0] in prefix {
      NotAllLong(prefix, yPrefix[0]);
    }
  }

  /** A union that is not longer than x adds nothing to it. */
  lemma NothingAdded(x: seq<Str>, t: seq<Str>)
    requires StrictlySorted(x, false)
    ensures |Cleaned(x + t, false)| == |x| ==> forall z :: z in t ==> z in x
  {
    var u := Cleaned(x + t, false);
    CleanedMeans(x + t, false);
    hide Cleaned;
    DistinctCount(x, false);
    DistinctCount(u, false);
    assert forall w :: w in x ==> w in x + t;
    if |u| == |x| {
      SubsetOfSize(Elems(x), Elems(u));
      forall z | z in t
        ensures z in x
      {
        assert z in x + t;
        assert z in Elems(u);
      }
    }
  }

  lemma SomethingAdded(x: seq<Str>, t: seq<Str>)
    requires StrictlySorted(x, false)
    ensures |Cleaned(x + t, false)| > |x| ==> t != []
  {
    if t == [] {
      assert x + t == x;
      CleanStays(x, false);
    }
  }

  /** When the prefix set is longer than the suffix set below it, it has a short string. */
  lemma ShortBelow(x: seq<Str>, yPrefix: seq<Str>, ySuffix: seq<Str>, u: seq<Str>, v: seq<Str>, prefix: seq<Str>)
    requires StrictlySorted(x, false) && StrictlySorted(v, true) && Short(yPrefix) && Short(ySuffix)
    requires u == Cleaned(x + yPrefix, false) && |x| <= |u| && SameElements(v, u[..|x|] + ySuffix)
    requires |x| <= |v| <= |x| + |ySuffix| && |v| < |u| == |prefix| && v <= prefix
    requires |x| + |ySuffix| <= |u| ==> prefix[|x| + |ySuffix|..] == u[|x| + |ySuffix|..]
    ensures !AllLong(prefix)
  {
    assert forall z :: z in v ==> z in prefix;
    if ySuffix != [] {
      var z := ySuffix[0];
      assert z in u[..|x|] + ySuffix;
      NotAllLong(prefix, z);
    } else {
      SomethingAdded(x, yPrefix);
      var z := yPrefix[0];
      CleanedMeans(x + yPrefix, false);
      assert z in x + yPrefix;
      InParts(u, |x|, z);
      assert z in u[..|x|] ==> z in u[..|x|] + ySuffix;
      assert z in u[|x|..] ==> z in prefix[|x|..];
      NotAllLong(prefix, z);
    }
  }

  /** If what the exact set reads as afterwards has long strings only, it is the exact set. */
  lemma LongReadBack(h: Held, yPrefix: seq<Str>, ySuffix: seq<Str>)
    requires Whole(h) && StrictlySorted(Front(h), false) && Short(yPrefix) && Short(ySuffix)
    ensures AllLong(ReadBack(h, yPrefix, ySuffix)) ==> SameElements(ReadBack(h, yPrefix, ySuffix), Front(h))
  {
    var x, t := Front(h), ReadBack(h, yPrefix, ySuffix);
    if RoomForBoth(h, h.len, yPrefix, ySuffix) {
      SecondUnion(h, yPrefix, ySuffix);
      UnionFront(AfterFirst(h, h.len, yPrefix), ySuffix, true, h.len);
      FrontOfSorted(Front(AfterBoth(h, h.len, yPrefix, ySuffix)), h.len, true);
      hide Cleaned, AfterFirst;
      LongOnesAreX(t, x, true);
    } else if HasRoom(h, |yPrefix|) {
      FrontAfterFirst(h, yPrefix);
      forall z | z in t
        ensures z in x || |z| <= 2
      {
        AfterFirstFrom(h, yPrefix, z);
      }
      LongOnesAreX(t, x, false);
    } else if HasRoom(h, |ySuffix|) {
      var v := Cleaned(x + ySuffix, true);
      CleanedMeans(x + ySuffix, true);
      UnionLonger(x, ySuffix, true);
      UnionFront(h, ySuffix, true, h.len);
      FrontOfSorted(v, h.len, true);
      LongOnesAreX(t, x, true);
    }
  }

  /** The suffix set has a short string when its turn comes: the first one that simplifying the prefix set left
      in the array. */
  lemma LongSuffixes(h: Held, yPrefix: seq<Str>, ySuffix: seq<Str>)
    requires Whole(h) && RoomForBoth(h, h.len, yPrefix, ySuffix) && StrictlySorted(Front(h), false)
    ensures AllLong(Front(SuffixThen(h, h.len, yPrefix, ySuffix))) ==> Front(h) == [] && yPrefix == []
  {
    var u := Cleaned(Front(h) + yPrefix, false);
    var p := Front(FirstInBoth(h, h.len, yPrefix, ySuffix));
    var t := Front(SuffixThen(h, h.len, yPrefix, ySuffix));
    FirstBelowSecond(h, yPrefix, ySuffix);
    if u != [] && t != [] {
      var g := PrefixSimplified(h, h.len, yPrefix, ySuffix);
      SimplifiedMeans(p, false);
      var z := SimplifiedSet(p, false)[0];
      assert z == Front(g)[0] == g.all[0] == t[0];
      NotAllLong(t, z);
    }
  }

  // --------------------------------------------------------------------- the query

  /** What a text of either side has the first set ask for, it has. */
  lemma PrefixesRequired(h: Held, xi: Info, y: Info, w: Str, T: set<Str>)
    requires Whole(h) && Sides(Front(h), y) && xi.exact == Some(Front(h)) && (Covers(xi, w, T) || Covers(y, w, T))
    ensures Required(UnionEnds(h, h.len, y.prefix, y.suffix).prefix, T)
  {
    var x := Front(h);
    var prefix := UnionEnds(h, h.len, y.prefix, y.suffix).prefix;
    if RoomForBoth(h, h.len, y.prefix, y.suffix) {
      LongPrefixes(h, y.prefix, y.suffix);
    } else {
      CleanedMeans(x + y.prefix, false);
      hide Cleaned;
      TextRequires(x, y.prefix, prefix, xi, y, w, T, false);
    }
  }

  /** A set of all the strings of both sides asks for nothing that their texts do not have. */
  lemma TextRequires(x: seq<Str>, t: seq<Str>, u: seq<Str>, xi: Info, y: Info, w: Str, T: set<Str>, isSuffix: bool)
    requires SameElements(u, x + t) && xi.exact == Some(x) && y.exact.None? && t == (if isSuffix then y.suffix else y.prefix)
    requires Covers(xi, w, T) || Covers(y, w, T)
    ensures HasAffix(u, w, isSuffix) && Required(u, T)
  {
    if Covers(xi, w, T) {
      SelfAffix(x, w, isSuffix);
      MoreAffixes(x, u, w, isSuffix);
    } else {
      MoreAffixes(t, u, w, isSuffix);
    }
    AffixIsRequired(u, w, isSuffix, T);
  }

  /** The strings that the suffix set is simplified with. */
  function SuffixesThen(h: Held, y: Info): seq<Str>
    requires Whole(h)
  {
    if RoomForBoth(h, h.len, y.prefix, y.suffix) then Front(SuffixThen(h, h.len, y.prefix, y.suffix)) else UnionEnds(h, h.len, y.prefix, y.suffix).suffix
  }

  lemma SuffixesRequired(h: Held, xi: Info, y: Info, w: Str, T: set<Str>)
    requires Whole(h) && Sides(Front(h), y) && xi.exact == Some(Front(h)) && (Covers(xi, w, T) || Covers(y, w, T))
    ensures Required(SuffixesThen(h, y), T)
  {
    if RoomForBoth(h, h.len, y.prefix, y.suffix) {
      LongSuffixes(h, y.prefix, y.suffix);
    } else if HasRoom(h, |y.prefix|) {
      var v := UnionEnds(h, h.len, y.prefix, y.suffix).suffix;
      CleanedMeans(Front(AfterFirst(h, h.len, y.prefix)) + y.suffix, true);
      assert y.suffix[0] in Front(AfterFirst(h, h.len, y.prefix)) + y.suffix;
      NotAllLong(v, y.suffix[0]);
    } else {
      CleanedMeans(Front(h) + y.suffix, true);
      hide Cleaned;
      TextRequires(Front(h), y.suffix, SuffixesThen(h, y), xi, y, w, T, true);
    }
  }

  /** The meaning of the query that alternate ends with. */
  ghost predicate FinalQuery(h: Held, xq: Query, y: Info, T: set<Str>)
    requires Whole(h)
  {
    && ((Eval(xq, T) && Required(ReadBack(h, y.prefix, y.suffix), T)) || Eval(y.query, T))
    && Required(UnionEnds(h, h.len, y.prefix, y.suffix).prefix, T) && Required(SuffixesThen(h, y), T)
  }

  /** Whatever has become of the sets, the query holds on the texts of both sides. */
  lemma QueryHolds(h: Held, xi: Info, y: Info, w: Str, T: set<Str>)
    requires Whole(h) && Sides(Front(h), y) && xi.exact == Some(Front(h)) && (Covers(xi, w, T) || Covers(y, w, T))
    ensures FinalQuery(h, xi.query, y, T)
  {
    PrefixesRequired(h, xi, y, w, T);
    SuffixesRequired(h, xi, y, w, T);
    LongReadBack(h, y.prefix, y.suffix);
    hide ReadBack, UnionEnds, SuffixesThen;
    if Covers(xi, w, T) && AllLong(ReadBack(h, y.prefix, y.suffix)) {
      assert w in ReadBack(h, y.prefix, y.suffix);
    }
  }

  // ----------------------------------------------------------- texts that avoid a set

  function Below(n: nat): (s: set<int>)
    ensures forall b :: b in s <==> 0 <= b < n
  {
    if n == 0 then {} else Below(n - 1) + {n - 1}
  }

  lemma {:induction false} CountBelow(n: nat)
    ensures |Below(n)| == n
  {
    if n > 0 {
      CountBelow(n - 1);
    }
  }

  ghost function Values(t: seq<int>): set<int> {
    set b | b in t
  }

  lemma {:induction false} CountValues(t: seq<int>)
    ensures |Values(t)| <= |t|
  {
    if t != [] {
      CountValues(t[1..]);
      assert Values(t) == Values(t[1..]) + {t[0]};
    }
  }

  /** Fewer than 256 bytes leave one out. */
  lemma FreshByte(t: seq<int>) returns (c: Byte)
    requires |t| < 256
    ensures c !in t
  {
    CountBelow(256);
    CountValues(t);
    if Below(256) <= Values(t) {
      Smaller(Below(256), Values(t));
      assert false;
    }
    var b :| b in Below(256) && b !in Values(t);
    c := b;
  }

  lemma Smaller(A: set<int>, B: set<int>)
    requires A <= B
    ensures |A| <= |B|
  {
    assert B == A + (B - A);
  }

  /** The bytes of the strings behind their first n, or -1. */
  function BytesAt(t: seq<Str>, n: nat): (u: seq<int>)
    ensures |u| == |t|
  {
    seq(|t|, i requires 0 <= i < |t| => if |t[i]| > n then t[i][n] as int else -1)
  }

  function BytesBefore(t: seq<Str>, n: nat): (u: seq<int>)
    ensures |u| == |t|
  {
    seq(|t|, i requires 0 <= i < |t| => if |t[i]| > n then t[i][|t[i]| - 1 - n] as int else -1)
  }

  lemma SameByte(z: Str, w: Str, n: nat)
    requires IsPrefix(z, w)
    ensures n < |z| ==> z[n] == w[n]
  {
  }

  lemma SameByteBefore(z: Str, w: Str, n: nat)
    requires IsSuffix(z, w)
    ensures n < |z| ==> z[|z| - 1 - n] == w[|w| - 1 - n]
  {
    assert z == w[|w| - |z|..];
  }

  lemma OnlyBegins(t: seq<Str>, p: Str, c: Byte, rest: Str)
    requires c !in BytesAt(t, |p|) && HasAffix(t, p + [c] + rest, false)
    ensures HasAffix(t, p, false)
  {
    var w := p + [c] + rest;
    var z :| z in t && IsAffix(z, w, false);
    assert |z| <= |w| && w[..|z|] == z;
    var i :| 0 <= i < |t| && t[i] == z;
    assert BytesAt(t, |p|)[i] in BytesAt(t, |p|);
    SameByte(z, w, |p|);
    assert z == w[..|z|] == p[..|z|];
    assert IsAffix(z, p, false);
  }

  lemma OnlyEnds(t: seq<Str>, s: Str, c: Byte, rest: Str)
    requires c !in BytesBefore(t, |s|) && HasAffix(t, rest + [c] + s, true)
    ensures HasAffix(t, s, true)
  {
    var w := rest + [c] + s;
    var z :| z in t && IsAffix(z, w, true);
    assert |z| <= |w| && w[|w| - |z|..] == z;
    var i :| 0 <= i < |t| && t[i] == z;
    assert BytesBefore(t, |s|)[i] in BytesBefore(t, |s|);
    SameByteBefore(z, w, |s|);
    assert z == w[|w| - |z|..] == s[|s| - |z|..];
    assert IsAffix(z, s, true);
  }

  /** A text that begins with p and ends with s, but begins and ends with strings of small sets only if p and s do. */
  lemma TextBetween(e: Ends, p: Str, s: Str) returns (w: Str)
    requires |e.prefix| < 256 && |e.suffix| < 256
    ensures IsAffix(p, w, false) && IsAffix(s, w, true)
    ensures HasAffix(e.prefix, w, false) ==> HasAffix(e.prefix, p, false)
    ensures HasAffix(e.suffix, w, true) ==> HasAffix(e.suffix, s, true)
  {
    var c := FreshByte(BytesAt(e.prefix, |p|));
    var d := FreshByte(BytesBefore(e.suffix, |s|));
    w := p + [c] + ([d] + s);
    assert w == (p + [c]) + [d] + s;
    if HasAffix(e.prefix, w, false) {
      OnlyBegins(e.prefix, p, c, [d] + s);
    }
    if HasAffix(e.suffix, w, true) {
      OnlyEnds(e.suffix, s, d, p + [c]);
    }
  }

  // ------------------------------------------------------------------ the equivalence

  lemma LiveText(y: Info, e: Ends, p: Str, s: Str) returns (w: Str, T: set<Str>)
    requires |e.prefix| < 256 && |e.suffix| < 256 && y.exact.None? && WellFormed(y.query) && Live(y)
    requires p in y.prefix && s in y.suffix
    ensures Covers(y, w, T)
    ensures HasAffix(e.prefix, w, false) ==> HasAffix(e.prefix, p, false)
    ensures HasAffix(e.suffix, w, true) ==> HasAffix(e.suffix, s, true)
  {
    w := TextBetween(e, p, s);
    var T0 :| Eval(y.query, T0);
    T := T0 + Trigrams(w);
    EvalMonotone(y.query, T0, T);
  }

  lemma CoveredIfEnclosed(x: seq<Str>, xi: Info, y: Info, out: Info, w: Str, T: set<Str>)
    requires xi.exact == Some(x) && y.exact.None? && out.exact.None? && Enclosed(x, y, Ends(out.prefix, out.suffix))
    requires (Covers(xi, w, T) || Covers(y, w, T)) && Eval(out.query, T)
    ensures Covers(out, w, T)
  {
    if !Covers(xi, w, T) {
      var p :| p in y.prefix && IsAffix(p, w, false);
      var s :| s in y.suffix && IsAffix(s, w, true);
      HasAffixThrough(out.prefix, p, w, false);
      HasAffixThrough(out.suffix, s, w, true);
    }
  }

  lemma EnclosedIfCovered(x: seq<Str>, xi: Info, y: Info, out: Info)
    requires xi.exact == Some(x) && AlwaysTrue(xi.query) && y.exact.None? && WellFormed(y.query) && out.exact.None?
    requires |out.prefix| < 256 && |out.suffix| < 256 && CoversBoth(xi, y, out)
    ensures Enclosed(x, y, Ends(out.prefix, out.suffix))
  {
    var e := Ends(out.prefix, out.suffix);
    forall w | w in x
      ensures HasAffix(e.prefix, w, false) && HasAffix(e.suffix, w, true)
    {
      assert Covers(xi, w, Trigrams(w));
    }
    if Live(y) {
      forall p | p in y.prefix
        ensures HasAffix(e.prefix, p, false)
      {
        var w, T := LiveText(y, e, p, y.suffix[0]);
        assert Covers(out, w, T);
      }
      forall s | s in y.suffix
        ensures HasAffix(e.suffix, s, true)
      {
        var w, T := LiveText(y, e, y.prefix[0], s);
        assert Covers(out, w, T);
      }
    }
  }

  // ------------------------------------------------------------------------ alternate

  // ------------------------------------------------------------ by room in the array

  lemma SimplifiedHasAll(s: seq<Str>, isSuffix: bool)
    ensures AllHaveAffix(s, SimplifiedSet(Cleaned(s, isSuffix), isSuffix), isSuffix)
  {
    var t := Cleaned(s, isSuffix);
    CleanedMeans(s, isSuffix);
    SimplifiedMeans(t, isSuffix);
    hide Cleaned, SimplifiedSet;
    assert forall w :: w in s <==> w in t;
  }

  lemma HaveAffixes(s: seq<Str>, t: seq<Str>, ends: seq<Str>, isSuffix: bool)
    ensures AllHaveAffix(s + t, ends, isSuffix) <==> AllHaveAffix(s, ends, isSuffix) && AllHaveAffix(t, ends, isSuffix)
  {
    assert forall w :: w in s + t <==> w in s || w in t;
  }

  /** Without room for the prefixes of y behind x, nothing is lost. */
  lemma NoRoomIsRight(h: Held, y: Info)
    requires Whole(h) && Sides(Front(h), y) && !HasRoom(h, |y.prefix|)
    ensures Enclosed(Front(h), y, FinalEnds(h, h.len, y.prefix, y.suffix))
  {
    var x, e := Front(h), FinalEnds(h, h.len, y.prefix, y.suffix);
    assert e == Ends(SimplifiedSet(Cleaned(x + y.prefix, false), false), SimplifiedSet(Cleaned(x + y.suffix, true), true));
    hide FinalEnds, Cleaned, SimplifiedSet, AllHaveAffix;
    SimplifiedHasAll(x + y.prefix, false);
    SimplifiedHasAll(x + y.suffix, true);
    HaveAffixes(x, y.prefix, e.prefix, false);
    HaveAffixes(x, y.suffix, e.suffix, true);
  }

  /** The first union puts other strings in the place of w. */
  ghost predicate PushedOut(w: Str, h: Held, yPrefix: seq<Str>)
    requires Whole(h)
  {
    w in Front(h) && |Earlier(w, United(h, yPrefix), false)| >= h.len
  }

  /** Each string that is pushed out ends as some string does that is left or is a suffix of y. */
  ghost predicate OthersEndLike(h: Held, yPrefix: seq<Str>, ySuffix: seq<Str>)
    requires Whole(h)
  {
    forall w :: PushedOut(w, h, yPrefix) ==> EndsLike(Second(h, h.len, yPrefix, ySuffix), w, true)
  }

  lemma PushedOutIs(h: Held, yPrefix: seq<Str>, w: Str)
    requires Whole(h) && w in Front(h)
    ensures PushedOut(w, h, yPrefix) <==> !StillRead(w, h, h.len, yPrefix)
  {
    MemberOfElems(Front(h) + yPrefix, w);
    hide Earlier;
  }

  lemma SuffixCovers(h: Held, yPrefix: seq<Str>, ySuffix: seq<Str>, w: Str)
    requires Whole(h) && HasRoom(h, |yPrefix|)
    ensures var f := Front(AfterFirst(h, h.len, yPrefix));
            HasAffix(SimplifiedSet(Cleaned(f + ySuffix, true), true), w, true) <==>
            EndsLike(Second(h, h.len, yPrefix, ySuffix), w, true)
  {
    hide Cleaned, SimplifiedSet, AfterFirst, Second, EndsLike, HasAffix, Elems;
    var f := Front(AfterFirst(h, h.len, yPrefix));
    var v := Cleaned(f + ySuffix, true);
    CoveredBySimplified(v, w, true);
    CleanedMeans(f + ySuffix, true);
    ElemsOfUnion(v, f + ySuffix);
    SecondIs(h, h.len, yPrefix, ySuffix);
  }

  /** With room for the prefixes but not for the suffixes, the result is right exactly if each string that is
      pushed out ends as another string or a suffix of y does. */
  lemma RoomForPrefixes(h: Held, y: Info)
    requires Whole(h) && Sides(Front(h), y) && HasRoom(h, |y.prefix|) && !HasRoom(h, |y.suffix|)
    ensures Enclosed(Front(h), y, FinalEnds(h, h.len, y.prefix, y.suffix)) <==> OthersEndLike(h, y.prefix, y.suffix)
  {
    var x, e := Front(h), FinalEnds(h, h.len, y.prefix, y.suffix);
    var f := Front(AfterFirst(h, h.len, y.prefix));
    assert e == Ends(SimplifiedSet(Cleaned(x + y.prefix, false), false), SimplifiedSet(Cleaned(f + y.suffix, true), true));
    hide FinalEnds, Cleaned, SimplifiedSet, AfterFirst, Earlier, Front, EndsLike, PushedOut, Second, StillRead;
    SimplifiedHasAll(x + y.prefix, false);
    SimplifiedHasAll(f + y.suffix, true);
    HaveAffixes(x, y.prefix, e.prefix, false);
    HaveAffixes(f, y.suffix, e.suffix, true);
    forall w | w in x
      ensures HasAffix(e.suffix, w, true) <==> (PushedOut(w, h, y.prefix) ==> EndsLike(Second(h, h.len, y.prefix, y.suffix), w, true))
    {
      PushedOutIs(h, y.prefix, w);
      ReadAfterFirst(h, h.len, y.prefix, w);
      SuffixCovers(h, y.prefix, y.suffix, w);
    }
    assert forall w :: PushedOut(w, h, y.prefix) ==> w in x by {
      forall w | PushedOut(w, h, y.prefix)
        ensures w in x
      {
        PushedOutFrom(h, y.prefix, w);
      }
    }
  }

  lemma PushedOutFrom(h: Held, yPrefix: seq<Str>, w: Str)
    requires Whole(h) && PushedOut(w, h, yPrefix)
    ensures w in Front(h)
  {
  }

  /** When the two sets of the alternation cover the texts of both sides and are in arrays of their own: without room for
      the prefixes of y, or with room for these but not for its suffixes if each string that is pushed out ends as
      another one does. */
  ghost predicate KeepsBoth(h: Held, y: Info)
    requires Whole(h)
  {
    HasRoom(h, |y.prefix|) ==> !HasRoom(h, |y.suffix|) && OthersEndLike(h, y.prefix, y.suffix)
  }

  lemma KeepsBothIs(h: Held, y: Info)
    requires Whole(h) && Sides(Front(h), y)
    ensures Enclosed(Front(h), y, FinalEnds(h, h.len, y.prefix, y.suffix)) && !RoomForBoth(h, h.len, y.prefix, y.suffix) <==>
            KeepsBoth(h, y)
  {
    hide Enclosed, FinalEnds, OthersEndLike, Sides;
    if !HasRoom(h, |y.prefix|) {
      NoRoomIsRight(h, y);
    } else if !HasRoom(h, |y.suffix|) {
      RoomForPrefixes(h, y);
    }
  }

  lemma FinalSizes(h: Held, yPrefix: seq<Str>, ySuffix: seq<Str>)
    requires Whole(h)
    ensures |FinalEnds(h, h.len, yPrefix, ySuffix).prefix| <= MaxSet && |FinalEnds(h, h.len, yPrefix, ySuffix).suffix| <= MaxSet
  {
    if RoomForBoth(h, h.len, yPrefix, ySuffix) {
      SimplifiedMeans(Front(FirstInBoth(h, h.len, yPrefix, ySuffix)), false);
      SimplifiedMeans(Front(SuffixThen(h, h.len, yPrefix, ySuffix)), true);
    } else {
      SimplifiedMeans(UnionEnds(h, h.len, yPrefix, ySuffix).prefix, false);
      SimplifiedMeans(UnionEnds(h, h.len, yPrefix, ySuffix).suffix, true);
    }
  }

  lemma MixedIsExact(h: Held, xi: Info, y: Info, out: Info)
    requires Whole(h) && Sides(Front(h), y) && xi.exact == Some(Front(h)) && AlwaysTrue(xi.query) && out.exact.None?
    requires Ends(out.prefix, out.suffix) == FinalEnds(h, h.len, y.prefix, y.suffix)
    requires forall T :: Eval(out.query, T) <==> FinalQuery(h, xi.query, y, T)
    ensures CoversBoth(xi, y, out) <==> Enclosed(Front(h), y, FinalEnds(h, h.len, y.prefix, y.suffix))
  {
    FinalSizes(h, y.prefix, y.suffix);
    hide FinalEnds, FinalQuery, Covers, Enclosed;
    if CoversBoth(xi, y, out) {
      EnclosedIfCovered(Front(h), xi, y, out);
    }
    if Enclosed(Front(h), y, FinalEnds(h, h.len, y.prefix, y.suffix)) {
      forall w, T | Covers(xi, w, T) || Covers(y, w, T)
        ensures Covers(out, w, T)
      {
        QueryHolds(h, xi, y, w, T);
        CoveredIfEnclosed(Front(h), xi, y, out, w, T);
      }
    }
  }

  /** alternate where x is exact and y is not: both unions on the storage of x, the query of x with what the
      exact set reads as by then, and simplify. The result covers the texts of both sides and has its sets in arrays of
      their own exactly if KeepsBoth holds before the call. Whether the sets share an array or not, it covers the
      texts exactly if what is left encloses the strings of x and the prefixes and suffixes of y. */
  method AlternateMixed(x: Slice, xEmpty: bool, xq: Query, y: Info, grow: Growth) returns (out: SliceInfo)
    requires Ok(x) && y.exact.None? && WellFormed(xq) && Solid(xq) && WellFormed(y.query) && Solid(y.query)
    modifies x.arr
    ensures Proper(out) && (forall a :: a in Arrays(out) ==> a in {x.arr} || fresh(a)) && out.exact.None? && out.canEmpty == (xEmpty || y.canEmpty)
    ensures Sides(old(Items(x)), y) && Valid(ExactInfo(old(Items(x)), xEmpty, xq)) ==>
              (Apart(out) && CoversBoth(ExactInfo(old(Items(x)), xEmpty, xq), y, Value(out)) <==> KeepsBoth(old(Memory(x)), y))
    ensures Sides(old(Items(x)), y) && Valid(ExactInfo(old(Items(x)), xEmpty, xq)) ==>
              (CoversBoth(ExactInfo(old(Items(x)), xEmpty, xq), y, Value(out)) <==>
               Enclosed(old(Items(x)), y, FinalEnds(old(Memory(x)), x.len, y.prefix, y.suffix)))
    ensures Ends(Items(out.prefix), Items(out.suffix)) == FinalEnds(old(Memory(x)), x.len, y.prefix, y.suffix)
    ensures if RoomForBoth(old(Memory(x)), x.len, y.prefix, y.suffix)
            then out.prefix.arr == out.suffix.arr && Memory(out.suffix) == FinalArray(old(Memory(x)), x.len, y.prefix, y.suffix)
            else Apart(out)
    ensures forall T :: Eval(out.query, T) <==> FinalQuery(old(Memory(x)), xq, y, T)
  {
    hide UnionIn, SimplifiedIn, UnionEnds, ReadBack, Cleaned, CoversBoth, Enclosed, KeepsBoth, FinalEnds, FinalQuery, Eval, Required,
         Sides, Valid, FirstInBoth, AfterBoth, AfterFirst, PrefixSimplified, SuffixThen, FinalArray, SimplifiedSet, WellFormed, Solid;
    ghost var h, xi := Memory(x), ExactInfo(Items(x), xEmpty, xq);
    ghost var sides := Sides(Items(x), y) && Valid(xi);
    var prefix, suffix := UnionBoth(x, x, y.prefix, y.suffix, grow);
    ReadBackIs(x, h, y.prefix, y.suffix);
    var q0 := AddReadBack(x, xq, y.query);
    var q, p, s := SimplifyBoth(q0, prefix, suffix);
    out := MixedInfo(xEmpty || y.canEmpty, p, s, q);
    FinalIs(h, xq, y, q0, Value(out));
    if RoomForBoth(h, h.len, y.prefix, y.suffix) {
      FinalArrayIs(h, y.prefix, y.suffix);
    }
    if sides {
      SidesQueries(Front(h), xi, y);
      MixedIsExact(h, xi, y, Value(out));
      KeepsBothIs(h, y);
    }
  }

  lemma FinalArrayIs(h: Held, yPrefix: seq<Str>, ySuffix: seq<Str>)
    requires Whole(h) && RoomForBoth(h, h.len, yPrefix, ySuffix)
    ensures var g := SimplifiedIn(FirstInBoth(h, h.len, yPrefix, ySuffix), false);
            FinalArray(h, h.len, yPrefix, ySuffix) == SimplifiedIn(Held(g.all, AfterBoth(h, h.len, yPrefix, ySuffix).len), true)
  {
  }

  method MixedInfo(canEmpty: bool, p: Slice, s: Slice, q: Query) returns (out: SliceInfo)
    requires Ok(p) && Ok(s) && WellFormed(q) && Solid(q)
    ensures out == SliceInfo(canEmpty, None, p, s, q) && Proper(out) && Arrays(out) == {p.arr, s.arr}
    ensures Value(out) == Info(canEmpty, None, Items(p), Items(s), q) && (Apart(out) <==> p.arr != s.arr)
  {
    out := SliceInfo(canEmpty, None, p, s, q);
  }

  /** What the unions have left of the exact set. */
  lemma ReadBackIs(x: Slice, h: Held, yPrefix: seq<Str>, ySuffix: seq<Str>)
    requires Ok(x) && Whole(h) && h.len == x.len && |h.all| == x.arr.Length
    requires x.arr[..] == if HasRoom(h, |yPrefix|) then
                            if HasRoom(h, |ySuffix|) then AfterBoth(h, h.len, yPrefix, ySuffix).all else AfterFirst(h, h.len, yPrefix).all
                          else if HasRoom(h, |ySuffix|) then UnionIn(h, ySuffix, true).all else h.all
    ensures Items(x) == ReadBack(h, yPrefix, ySuffix)
  {
    assert Items(x) == x.arr[..][..x.len];
    hide AfterBoth, AfterFirst, UnionIn;
  }

  lemma SidesQueries(x: seq<Str>, xi: Info, y: Info)
    requires Sides(x, y) && Valid(xi) && xi.exact.Some?
    ensures WellFormed(xi.query) && Solid(xi.query) && AlwaysTrue(xi.query) && WellFormed(y.query) && Solid(y.query) && y.exact.None?
  {
  }

  /** From what the steps did to what alternate ends with. */
  lemma FinalIs(h: Held, xq: Query, y: Info, q0: Query, out: Info)
    requires Whole(h) && out.exact.None? && WellFormed(out.query) && Solid(out.query)
    requires forall T :: Eval(q0, T) <==> (Eval(xq, T) && Required(ReadBack(h, y.prefix, y.suffix), T)) || Eval(y.query, T)
    requires RoomForBoth(h, h.len, y.prefix, y.suffix) ==>
               var g := SimplifiedIn(FirstInBoth(h, h.len, y.prefix, y.suffix), false);
               var t := Held(g.all, AfterBoth(h, h.len, y.prefix, y.suffix).len);
               var r := SimplifiedIn(t, true);
               && out.prefix == r.all[..g.len] && out.suffix == Front(r)
               && forall T :: Eval(out.query, T) <==>
                    Eval(q0, T) && Required(Front(FirstInBoth(h, h.len, y.prefix, y.suffix)), T) && Required(Front(t), T)
    requires !RoomForBoth(h, h.len, y.prefix, y.suffix) ==>
               var e := UnionEnds(h, h.len, y.prefix, y.suffix);
               && out.prefix == SimplifiedSet(e.prefix, false) && out.suffix == SimplifiedSet(e.suffix, true)
               && forall T :: Eval(out.query, T) <==> Eval(q0, T) && Required(e.prefix, T) && Required(e.suffix, T)
    ensures Valid(out) && Ends(out.prefix, out.suffix) == FinalEnds(h, h.len, y.prefix, y.suffix)
    ensures forall T :: Eval(out.query, T) <==> FinalQuery(h, xq, y, T)
  {
    hide Eval, Required, ReadBack, SimplifiedIn, SimplifiedSet, AfterBoth, FirstInBoth, Cleaned, AfterFirst;
  }

  /** addExact on the exact set as it reads by then, and the disjunction of both queries. */
  method AddReadBack(x: Slice, xq: Query, yq: Query) returns (q: Query)
    requires Ok(x) && WellFormed(xq) && WellFormed(yq)
    ensures WellFormed(q) && (Solid(xq) && Solid(yq) ==> Solid(q))
    ensures forall T :: Eval(q, T) <==> (Eval(xq, T) && Required(Items(x), T)) || Eval(yq, T)
  {
    var qx := AndTrigrams(xq, x.arr[..x.len]);
    q := AndOr(qx, yq, QOr);
  }
}
