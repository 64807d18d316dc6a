/** alternate of internal/codesearch/index/regexp.go where only its first argument has an exact set: addExact comes
    after the unions, which may have been written over that set. When the query still asks for it. */
module MixedQueries {
  import opened Bytes
  import opened StringSets
  import opened Queries
  import opened Analysis
  import opened StorageReuse
  import opened SharedUnions
  import opened MixedAlternate

  /** No suffix of y takes the place of a string of x: there is no room for them behind x, or the strings of x come
      first in the order of suffixes. It does not matter if x has a short string. */
  ghost predicate Untouched(x: seq<Str>, room: bool, ySuffix: seq<Str>) {
    AllLong(x) && room ==> forall w | w in x :: |Earlier(w, Elems(x + ySuffix), true)| < |x|
  }

  /** Without room for the prefixes, what is left of the exact set is the front of the second union. */
  lemma FrontOfSuffixes(h: Held, yPrefix: seq<Str>, ySuffix: seq<Str>, w: Str)
    requires Whole(h) && StrictlySorted(Front(h), false) && !HasRoom(h, |yPrefix|) && HasRoom(h, |ySuffix|) && w in Front(h)
    ensures w in ReadBack(h, yPrefix, ySuffix) <==> |Earlier(w, Elems(Front(h) + ySuffix), true)| < h.len
  {
    var x, u := Front(h), Cleaned(Front(h) + ySuffix, true);
    UnionLonger(x, ySuffix, true);
    UnionFront(h, ySuffix, true, h.len);
    CleanedMeans(x + ySuffix, true);
    ElemsOfUnion(u, x + ySuffix);
    assert w in x + ySuffix;
    AmongFirst(u, w, h.len, true);
  }

  lemma AllThere(t: seq<Str>, x: seq<Str>, isSuffix: bool)
    requires StrictlySorted(t, isSuffix) && StrictlySorted(x, false) && |t| == |x| && forall w :: w in x ==> w in t
    ensures SameElements(t, x)
  {
    DistinctCount(t, isSuffix);
    DistinctCount(x, false);
    SubsetOfSize(Elems(x), Elems(t));
    forall w
      ensures w in t <==> w in x
    {
      assert w in t <==> w in Elems(t);
      assert w in x <==> w in Elems(x);
    }
  }

  /** What is left of the exact set has the same strings as before. */
  lemma LeftAlone(h: Held, yPrefix: seq<Str>, ySuffix: seq<Str>)
    requires Whole(h) && StrictlySorted(Front(h), false) && !HasRoom(h, |yPrefix|)
    requires Untouched(Front(h), HasRoom(h, |ySuffix|), ySuffix) && AllLong(Front(h))
    ensures SameElements(ReadBack(h, yPrefix, ySuffix), Front(h))
  {
    var x, t := Front(h), ReadBack(h, yPrefix, ySuffix);
    if HasRoom(h, |ySuffix|) {
      forall w | w in x
        ensures w in t
      {
        FrontOfSuffixes(h, yPrefix, ySuffix, w);
      }
      UnionLonger(x, ySuffix, true);
      UnionFront(h, ySuffix, true, h.len);
      CleanedMeans(x + ySuffix, true);
      FrontOfSorted(Cleaned(x + ySuffix, true), h.len, true);
      AllThere(t, x, true);
    }
  }

  lemma LongSame(t: seq<Str>, x: seq<Str>)
    requires SameElements(t, x)
    ensures AllLong(t) <==> AllLong(x)
  {
    CleanKeepsMeaning(x, t, false);
  }

  /** A string of x that has to go leaves a short one in its place. */
  lemma ShortInPlace(h: Held, yPrefix: seq<Str>, ySuffix: seq<Str>)
    requires Whole(h) && StrictlySorted(Front(h), false) && !HasRoom(h, |yPrefix|) && Short(yPrefix) && Short(ySuffix)
    requires !Untouched(Front(h), HasRoom(h, |ySuffix|), ySuffix)
    ensures AllLong(Front(h)) && !AllLong(ReadBack(h, yPrefix, ySuffix)) && ySuffix != []
  {
    var x, t := Front(h), ReadBack(h, yPrefix, ySuffix);
    var w :| w in x && |Earlier(w, Elems(x + ySuffix), true)| >= |x|;
    FrontOfSuffixes(h, yPrefix, ySuffix, w);
    LongReadBack(h, yPrefix, ySuffix);
    if ySuffix == [] {
      assert x + ySuffix == x;
      NothingPushes(x, w);
    }
  }

  lemma NothingPushes(x: seq<Str>, w: Str)
    requires StrictlySorted(x, false) && w in x
    ensures |Earlier(w, Elems(x), true)| < |x|
  {
    var u := Cleaned(x, true);
    CleanedMeans(x, true);
    ElemsOfUnion(u, x);
    RankBelow(u, w, true);
    DistinctCount(u, true);
    DistinctCount(x, false);
  }

  /** What addExact requires is what the exact set requires exactly if it is untouched. */
  lemma RequiredReadBack(h: Held, yPrefix: seq<Str>, ySuffix: seq<Str>)
    requires Whole(h) && StrictlySorted(Front(h), false) && !HasRoom(h, |yPrefix|) && Short(yPrefix) && Short(ySuffix)
    ensures (forall T :: Required(ReadBack(h, yPrefix, ySuffix), T) <==> Required(Front(h), T)) <==>
            Untouched(Front(h), HasRoom(h, |ySuffix|), ySuffix)
  {
    var x, t := Front(h), ReadBack(h, yPrefix, ySuffix);
    if Untouched(x, HasRoom(h, |ySuffix|), ySuffix) {
      LongReadBack(h, yPrefix, ySuffix);
      if AllLong(x) {
        LeftAlone(h, yPrefix, ySuffix);
      }
      if AllLong(t) {
        LongSame(t, x);
      }
      forall T
        ensures Required(t, T) <==> Required(x, T)
      {
        if AllLong(x) {
          SameRequired(t, x, T);
        }
      }
    } else {
      ShortInPlace(h, yPrefix, ySuffix);
      NothingMet(x);
      assert Required(t, {});
    }
  }

  /** A set of long strings requires something. */
  lemma NothingMet(x: seq<Str>)
    requires AllLong(x)
    ensures !Required(x, {})
  {
    forall w | w in x
      ensures !(Trigrams(w) <= {})
    {
      assert Window(w, 0) in Trigrams(w);
    }
  }

  /** What both queries have in common: the sets of both ends are required. */
  ghost predicate BothEnds(x: Info, y: Info, T: set<Str>)
    requires x.exact.Some?
  {
    Required(x.exact.value + y.prefix, T) && Required(x.exact.value + y.suffix, T)
  }

  lemma FinalQueryIs(h: Held, x: Info, y: Info, T: set<Str>)
    requires Whole(h) && !HasRoom(h, |y.prefix|) && x.exact == Some(Front(h))
    ensures FinalQuery(h, x.query, y, T) <==>
            ((Eval(x.query, T) && Required(ReadBack(h, y.prefix, y.suffix), T)) || Eval(y.query, T)) && BothEnds(x, y, T)
  {
    var p, s := Cleaned(Front(h) + y.prefix, false), Cleaned(Front(h) + y.suffix, true);
    CleanedMeans(Front(h) + y.prefix, false);
    CleanedMeans(Front(h) + y.suffix, true);
    hide Cleaned, Required, Eval, ReadBack;
    SameRequired(p, Front(h) + y.prefix, T);
    SameRequired(s, Front(h) + y.suffix, T);
  }

  lemma AlternateQueryIs(x: Info, y: Info, out: Info, T: set<Str>)
    requires x.exact.Some? && y.exact.None? && out.exact.None?
    ensures (SideRequired(x, y, T) || SideRequired(y, x, T)) && AlternateEndsRequired(x, y, out, T) <==>
            ((Eval(x.query, T) && Required(x.exact.value, T)) || Eval(y.query, T)) && BothEnds(x, y, T)
  {
    hide Required, Eval;
  }

  /** The query of the alternation of values. */
  ghost predicate AsksBoth(x: Info, y: Info, out: Info) {
    forall T :: Eval(out.query, T) <==>
                  (SideRequired(x, y, T) || SideRequired(y, x, T)) && AlternateEndsRequired(x, y, out, T)
  }

  lemma AlternatesIfAsks(x: Info, y: Info, out: Info)
    requires Valid(x) && Valid(y) && Unites(x, y, out)
    ensures Alternates(x, y, out) <==> AsksBoth(x, y, out)
  {
    hide Unites, Valid, SideRequired, AlternateEndsRequired, Eval;
  }

  lemma EmptyMeets(h: Held, x: Info, y: Info)
    requires Whole(h) && Sides(Front(h), y) && !HasRoom(h, |y.prefix|) && x.exact == Some(Front(h)) && Valid(x)
    requires !Untouched(Front(h), HasRoom(h, |y.suffix|), y.suffix)
    ensures FinalQuery(h, x.query, y, {}) && !Required(Front(h), {})
  {
    ShortInPlace(h, y.prefix, y.suffix);
    FinalQueryIs(h, x, y, {});
    NothingMet(Front(h));
    hide FinalQuery, ReadBack, Untouched;
    NotAllLong(Front(h) + y.prefix, y.prefix[0]);
    NotAllLong(Front(h) + y.suffix, y.suffix[0]);
  }

  /** Without room for its prefixes, an alternation on slices has the query of the one on values exactly if the exact
      set is untouched, or the other side asks for nothing anyway. */
  lemma QueryKept(h: Held, x: Info, y: Info, out: Info)
    requires Whole(h) && Sides(Front(h), y) && !HasRoom(h, |y.prefix|) && x.exact == Some(Front(h)) && Valid(x)
    requires out.exact.None? && Unites(x, y, out) && forall T :: Eval(out.query, T) <==> FinalQuery(h, x.query, y, T)
    ensures Alternates(x, y, out) <==> Untouched(Front(h), HasRoom(h, |y.suffix|), y.suffix) || Eval(y.query, {})
  {
    SidesAre(h, y);
    AlternatesIfAsks(x, y, out);
    RequiredReadBack(h, y.prefix, y.suffix);
    if Untouched(Front(h), HasRoom(h, |y.suffix|), y.suffix) || Eval(y.query, {}) {
      hide FinalQuery, Untouched, SideRequired, AlternateEndsRequired, Sides, Unites, Valid, Eval, Required, ReadBack, BothEnds;
      forall T
        ensures Eval(out.query, T) <==>
                (SideRequired(x, y, T) || SideRequired(y, x, T)) && AlternateEndsRequired(x, y, out, T)
      {
        FinalQueryIs(h, x, y, T);
        AlternateQueryIs(x, y, out, T);
        if Eval(y.query, {}) {
          EvalMonotone(y.query, {}, T);
        }
      }
    } else {
      EmptyMeets(h, x, y);
      AlternateQueryIs(x, y, out, {});
      hide FinalQuery, Untouched, SideRequired, AlternateEndsRequired, Sides, Unites, Valid, Eval, Required, ReadBack, BothEnds;
    }
  }

  lemma SidesAre(h: Held, y: Info)
    requires Whole(h) && Sides(Front(h), y)
    ensures StrictlySorted(Front(h), false) && Short(y.prefix) && Short(y.suffix) && Valid(y) && WellFormed(y.query) && y.exact.None?
  {
  }
}
