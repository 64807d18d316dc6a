/** The analysis of regexps on slices that reuse their storage (analyze, concat and alternate of
    internal/codesearch/index/regexp.go). As long as no alternation finds room behind an exact set for the prefixes
    of its other side, it gives the sets of the analysis on values. */
module SliceAnalysis {
  import opened Bytes
  import opened Utf8
  import opened StringSets
  import opened Queries
  import opened Demands
  import opened Analysis
  import opened StorageReuse
  import opened SharedUnions
  import opened SliceInfos
  import opened MixedAlternate
  import opened MixedQueries
  import R = RegexpSyntax

  /** The sets are in arrays of their own, and are such as simplification leaves them. */
  ghost predicate Regular(i: SliceInfo)
    requires Proper(i)
    reads Arrays(i)
  {
    Apart(i) && Valid(Value(i)) && Tidy(SetsOf(Value(i)))
  }

  /** The capacity after n times add to a set without storage. */
  function AddedCap(n: nat, grow: Growth): (cap: nat)
    ensures n <= cap
  {
    if n == 0 then 0 else Capacity(AddedCap(n - 1, grow), n - 1, 1, grow)
  }

  // -------------------------------------------------------------------------- new sets

  /** add */
  method Add(s: Slice, w: Str, grow: Growth) returns (u: Slice)
    requires Ok(s) && s.arr.Length == AddedCap(s.len, grow)
    modifies s.arr
    ensures Ok(u) && (u.arr == s.arr || fresh(u.arr))
    ensures Items(u) == old(Items(s)) + [w] && u.len == s.len + 1 && u.arr.Length == AddedCap(u.len, grow)
  {
    hide Appended;
    u := Append(s, [w], grow);
    assert |Items(u)| == s.len + 1;
  }

  /** cross */
  method CrossSlice(s: seq<Str>, t: seq<Str>, isSuffix: bool, grow: Growth) returns (p: Slice)
    ensures Ok(p) && fresh(p.arr) && Items(p) == Cleaned(Joined(s, t), isSuffix)
    ensures p.arr.Length == AddedCap(|s| * |t|, grow)
  {
    hide Cleaned, AddedCap;
    p := NoStorage(grow);
    for i := 0 to |s|
      invariant Ok(p) && fresh(p.arr) && p.arr.Length == AddedCap(p.len, grow)
      invariant Items(p) == Joined(s[..i], t)
    {
      for j := 0 to |t|
        invariant Ok(p) && fresh(p.arr) && p.arr.Length == AddedCap(p.len, grow)
        invariant Items(p) == Joined(s[..i], t) + JoinEach(s[i], t)[..j]
      {
        p := Add(p, s[i] + t[j], grow);
      }
      assert s[..i + 1][..i] == s[..i];
    }
    assert s[..|s|] == s;
    assert p.len == |Items(p)| == |s| * |t|;
    p := CleanInPlace(p, isSuffix);
  }

  method NoStorage(grow: Growth) returns (s: Slice)
    ensures Ok(s) && fresh(s.arr) && s.len == 0 && Items(s) == [] && s.arr.Length == AddedCap(0, grow)
  {
    var arr := new Str[0];
    s := Slice(arr, 0);
  }

  // -------------------------------------------------------------------------- alternate

  lemma EitherThenSimple(x: Info, y: Info, xy: Info, out: Info)
    requires IsEither(x, y, xy) && IsSimple(xy, false, out) && Valid(x) && Valid(y)
    ensures Alternates(x, y, out) && SetsOf(out) == AlternateSets(SetsOf(x), SetsOf(y)) && Valid(out) && Tidy(SetsOf(out))
  {
    EitherSetsOf(x, y, xy, out);
    hide *;
    SimpleIsSimplified(xy, false, out);
    AlternateIs(x, y, xy, out);
    AlternatesValid(x, y, out);
  }

  lemma EitherSetsOf(x: Info, y: Info, xy: Info, out: Info)
    requires IsEither(x, y, xy) && IsSimple(xy, false, out)
    ensures SetsOf(out) == AlternateSets(SetsOf(x), SetsOf(y))
  {
    hide SimpleSets, EitherSets, SimpleQuery, WellFormed, Solid, SideRequired;
  }

  lemma AlternatesValid(x: Info, y: Info, out: Info)
    requires Alternates(x, y, out) && Valid(x) && Valid(y)
    ensures Unites(x, y, out) && Valid(out)
  {
  }

  /** The end of an alternation whose sets are in arrays of their own. */
  method SimplifyEither(xy: SliceInfo, grow: Growth, ghost x: Info, ghost y: Info, ghost regular: bool) returns (out: SliceInfo)
    requires Proper(xy) && (regular ==> Apart(xy) && Valid(x) && Valid(y) && IsEither(x, y, Value(xy)))
    modifies Arrays(xy)
    ensures Proper(out) && (forall a :: a in Arrays(out) ==> a in Arrays(xy) || fresh(a))
    ensures regular ==> Regular(out) && Alternates(x, y, Value(out)) && SetsOf(Value(out)) == AlternateSets(SetsOf(x), SetsOf(y))
    ensures out.exact.Some? ==> xy.exact.Some? && out.exact.value.arr == xy.exact.value.arr
  {
    hide Alternates, AlternateSets, IsSimple, IsEither, Valid, Tidy, WellFormed, Solid, Eval;
    ghost var v := Value(xy);
    out := SimplifyInPlace(xy, false, grow);
    if regular {
      EitherThenSimple(x, y, v, Value(out));
    }
  }

  /** The end of a concatenation whose sets are in arrays of their own. */
  method SimplifyJoined(xy: SliceInfo, grow: Growth, ghost x: Info, ghost y: Info, ghost regular: bool) returns (out: SliceInfo)
    requires Proper(xy) && (regular ==> Apart(xy) && Valid(x) && Valid(y) && IsJoined(x, y, Value(xy)))
    modifies Arrays(xy)
    ensures Proper(out) && (forall a :: a in Arrays(out) ==> a in Arrays(xy) || fresh(a))
    ensures regular ==> Regular(out) && Concatenates(x, y, Value(out)) && SetsOf(Value(out)) == ConcatSets(SetsOf(x), SetsOf(y))
    ensures out.exact.Some? ==> xy.exact.Some? && out.exact.value.arr == xy.exact.value.arr
  {
    hide Concatenates, ConcatSets, IsSimple, IsJoined, Valid, Tidy, WellFormed, Solid, Eval;
    ghost var v := Value(xy);
    out := SimplifyInPlace(xy, false, grow);
    if regular {
      JoinedThenSimple(x, y, v, Value(out));
    }
  }

  /** An exact set alone. */
  method ExactOnly(canEmpty: bool, exact: Slice, q: Query) returns (xy: SliceInfo)
    requires Ok(exact) && WellFormed(q) && Solid(q)
    ensures Proper(xy) && Apart(xy) && (forall a :: a in Arrays(xy) ==> a == exact.arr || fresh(a))
    ensures xy.exact == Some(exact) && Value(xy) == Info(canEmpty, Some(Items(exact)), [], [], q)
  {
    hide WellFormed, Solid;
    var none := NilSlice();
    var none' := NilSlice();
    xy := SliceInfo(canEmpty, Some(exact), none, none', q);
  }

  /** Both sides are exact. */
  method AlternateExact(x: SliceInfo, y: SliceInfo, grow: Growth) returns (out: SliceInfo)
    requires Proper(x) && Proper(y) && x.exact.Some? && y.exact.Some?
    modifies Arrays(x)
    ensures Proper(out) && (forall a :: a in Arrays(out) ==> a in Arrays(x) || fresh(a))
    ensures old(Regular(x) && Regular(y)) ==>
              && Regular(out) && Alternates(old(Value(x)), old(Value(y)), Value(out))
              && SetsOf(Value(out)) == AlternateSets(SetsOf(old(Value(x))), SetsOf(old(Value(y))))
    ensures out.exact.Some? ==>
              out.exact.value.arr.Length == Capacity(x.exact.value.arr.Length, x.exact.value.len, y.exact.value.len, grow)
  {
    hide Cleaned, Alternates, AlternateSets, IsEither, Valid, Tidy, WellFormed, Solid, Eval, UnionIn, Memory;
    ghost var xv, yv := Value(x), Value(y);
    ghost var regular := Regular(x) && Regular(y);
    var strings := y.exact.value.arr[..y.exact.value.len];
    var exact := UnionInPlace(x.exact.value, strings, false, grow);
    var q := AndOr(x.query, y.query, QOr);
    var xy := ExactOnly(x.canEmpty || y.canEmpty, exact, q);
    ExactIsEither(xv, yv, Value(xy));
    out := SimplifyEither(xy, grow, xv, yv, regular);
  }

  lemma ExactIsEither(x: Info, y: Info, xy: Info)
    requires x.exact.Some? && y.exact.Some? && WellFormed(xy.query) && Solid(xy.query)
    requires xy == Info(x.canEmpty || y.canEmpty, Some(Cleaned(x.exact.value + y.exact.value, false)), [], [], xy.query)
    requires forall T :: Eval(xy.query, T) <==> Eval(x.query, T) || Eval(y.query, T)
    ensures IsEither(x, y, xy)
  {
    hide Cleaned, WellFormed, Solid, Eval;
  }

  /** What the two ends of a set of slices read as. */
  ghost function EndsOf(i: SliceInfo): Ends
    requires Proper(i)
    reads Arrays(i)
  {
    Ends(Items(i.prefix), Items(i.suffix))
  }

  method StringsOf(i: SliceInfo, isSuffix: bool) returns (t: seq<Str>)
    requires Proper(i)
    ensures t == EndOf(SetsOf(Value(i)), isSuffix)
  {
    var s := if i.exact.Some? then i.exact.value else if isSuffix then i.suffix else i.prefix;
    t := s.arr[..s.len];
  }

  /** The query of a side, with what its exact set requires when that is given up. */
  method SideQuery(q: Query, exact: Option<seq<Str>>) returns (out: Query)
    requires WellFormed(q) && Solid(q)
    ensures WellFormed(out) && Solid(out)
    ensures forall T :: Eval(out, T) <==> Eval(q, T) && (exact.Some? ==> Required(exact.value, T))
  {
    out := q;
    if exact.Some? {
      out := AndTrigrams(q, exact.value);
    }
  }

  /** The query of x or y. */
  method QueryOfSides(xq: Query, y: SliceInfo) returns (q: Query)
    requires Proper(y) && WellFormed(xq) && Solid(xq)
    ensures WellFormed(q) && Solid(q)
    ensures forall T :: Eval(q, T) <==> Eval(xq, T) || (Eval(y.query, T) && (Value(y).exact.Some? ==> Required(Value(y).exact.value, T)))
  {
    hide Eval, Required, WellFormed, Solid;
    var exact := if y.exact.Some? then Some(y.exact.value.arr[..y.exact.value.len]) else None;
    var qy := SideQuery(y.query, exact);
    q := AndOr(xq, qy, QOr);
  }

  /** The first side is not exact. When its two sets share an array, the result is what the two unions and
      simplification leave in it. */
  method AlternateEnds(x: SliceInfo, y: SliceInfo, grow: Growth) returns (out: SliceInfo)
    requires Proper(x) && Proper(y) && x.exact.None? && Arrays(x) !! Arrays(y)
    modifies Arrays(x)
    ensures Proper(out) && (forall a :: a in Arrays(out) ==> a in Arrays(x) || fresh(a)) && out.exact.None?
    ensures old(Regular(x) && Regular(y)) ==>
              && Regular(out) && Alternates(old(Value(x)), old(Value(y)), Value(out))
              && SetsOf(Value(out)) == AlternateSets(SetsOf(old(Value(x))), SetsOf(old(Value(y))))
    ensures !Apart(x) ==>
              EndsOf(out) == FinalEnds(old(Memory(x.prefix)), x.suffix.len, EndOf(SetsOf(old(Value(y))), false), EndOf(SetsOf(old(Value(y))), true))
  {
    hide Cleaned, Alternates, AlternateSets, IsSimple, Valid, Tidy, WellFormed, Solid, Eval, UnionIn, Required, SimplifiedIn, SimplifiedSet,
         UnionEnds, FirstInBoth, AfterBoth, AfterFirst, FinalEnds, PrefixSimplified, SuffixThen, FinalArray, EndOf;
    ghost var xv, yv := Value(x), Value(y);
    ghost var regular, h := Regular(x) && Regular(y), Memory(x.prefix);
    var prefixes := StringsOf(y, false);
    var suffixes := StringsOf(y, true);
    var prefix, suffix := UnionBoth(x.prefix, x.suffix, prefixes, suffixes, grow);
    ghost var pre, suf := Items(prefix), Items(suffix);
    assert Value(y) == yv;
    var q := QueryOfSides(x.query, y);
    var p, s;
    ghost var before := Info(x.canEmpty || y.canEmpty, None, pre, suf, q);
    q, p, s := SimplifyBoth(q, prefix, suffix);
    out := MixedInfo(x.canEmpty || y.canEmpty, p, s, q);
    if regular {
      RegularEnds(xv, yv, before, Value(out));
    }
    if !Apart(x) {
      SharedEndsAre(h, x.suffix.len, prefixes, suffixes, EndsOf(out));
    }
  }

  lemma RegularEnds(x: Info, y: Info, xy: Info, out: Info)
    requires x.exact.None? && xy.exact.None? && xy.canEmpty == (x.canEmpty || y.canEmpty) && WellFormed(xy.query) && Solid(xy.query)
    requires xy.prefix == Cleaned(x.prefix + EndOf(SetsOf(y), false), false) && xy.suffix == Cleaned(x.suffix + EndOf(SetsOf(y), true), true)
    requires forall T :: Eval(xy.query, T) <==> Eval(x.query, T) || (Eval(y.query, T) && (y.exact.Some? ==> Required(y.exact.value, T)))
    requires WellFormed(out.query) && Solid(out.query) && out.exact.None? && out.canEmpty == xy.canEmpty && Valid(x) && Valid(y)
    requires out.prefix == SimplifiedSet(xy.prefix, false) && out.suffix == SimplifiedSet(xy.suffix, true)
    requires forall T :: Eval(out.query, T) <==> Eval(xy.query, T) && Required(xy.prefix, T) && Required(xy.suffix, T)
    ensures Alternates(x, y, out) && SetsOf(out) == AlternateSets(SetsOf(x), SetsOf(y)) && Valid(out) && Tidy(SetsOf(out))
  {
    hide *;
    EndsAreEither(x, y, xy);
    EndsAreSimple(xy, false, out);
    EitherThenSimple(x, y, xy, out);
  }

  lemma EndsAreEither(x: Info, y: Info, xy: Info)
    requires x.exact.None? && xy.exact.None? && xy.canEmpty == (x.canEmpty || y.canEmpty) && WellFormed(xy.query) && Solid(xy.query)
    requires xy.prefix == Cleaned(x.prefix + EndOf(SetsOf(y), false), false) && xy.suffix == Cleaned(x.suffix + EndOf(SetsOf(y), true), true)
    requires forall T :: Eval(xy.query, T) <==> Eval(x.query, T) || (Eval(y.query, T) && (y.exact.Some? ==> Required(y.exact.value, T)))
    ensures IsEither(x, y, xy)
  {
    hide Cleaned, WellFormed, Solid, Eval, Required;
  }

  /** From what the steps did in a shared array to what alternate ends with. */
  lemma SharedEndsAre(h: Held, q: nat, prefixes: seq<Str>, suffixes: seq<Str>, e: Ends)
    requires Two(h, q)
    requires RoomForBoth(h, q, prefixes, suffixes) ==>
               var g := SimplifiedIn(FirstInBoth(h, q, prefixes, suffixes), false);
               var r := SimplifiedIn(Held(g.all, AfterBoth(h, q, prefixes, suffixes).len), true);
               e == Ends(r.all[..g.len], Front(r))
    requires !RoomForBoth(h, q, prefixes, suffixes) ==>
               var u := UnionEnds(h, q, prefixes, suffixes);
               e == Ends(SimplifiedSet(u.prefix, false), SimplifiedSet(u.suffix, true))
    ensures e == FinalEnds(h, q, prefixes, suffixes)
  {
    hide SimplifiedIn, SimplifiedSet, UnionEnds, FirstInBoth, AfterBoth;
  }

  // ------------------------------------------------------------------- one exact side

  method ValueOf(i: SliceInfo) returns (v: Info)
    requires Proper(i)
    ensures v == Value(i)
  {
    var exact := if i.exact.Some? then Some(i.exact.value.arr[..i.exact.value.len]) else None;
    v := Info(i.canEmpty, exact, i.prefix.arr[..i.prefix.len], i.suffix.arr[..i.suffix.len], i.query);
  }

  /** Without room for the prefixes of y, the sets are those of the analysis on values. */
  lemma NoRoomSets(h: Held, x: Info, y: Info, out: Info)
    requires Whole(h) && !HasRoom(h, |y.prefix|) && x.exact == Some(Front(h)) && y.exact.None? && out.exact.None?
    requires out.canEmpty == (x.canEmpty || y.canEmpty) && Ends(out.prefix, out.suffix) == FinalEnds(h, h.len, y.prefix, y.suffix)
    ensures SetsOf(out) == AlternateSets(SetsOf(x), SetsOf(y)) && Tidy(SetsOf(out))
  {
    SimpleIsTidy(EitherSets(SetsOf(x), SetsOf(y)), false);
    hide SimplifiedSet, Cleaned, Tidy;
  }

  /** Only the first side is exact: the texts of both sides are covered by sets in arrays of their own exactly if
      KeepsBoth holds before the call. Without room for the prefixes they are the sets of the analysis on values,
      and so is the query exactly if the second union takes the place of no string of the exact set, or the other side asks
      for nothing anyway. */
  method AlternateOneExact(x: SliceInfo, y: SliceInfo, grow: Growth) returns (out: SliceInfo)
    requires Proper(x) && Proper(y) && x.exact.Some? && y.exact.None? && Arrays(x) !! Arrays(y)
    modifies Arrays(x)
    ensures Proper(out) && (forall a :: a in Arrays(out) ==> a in Arrays(x) || fresh(a)) && out.exact.None?
    ensures old(Regular(x) && Regular(y)) ==>
              (Apart(out) && CoversBoth(old(Value(x)), old(Value(y)), Value(out)) <==>
               KeepsBoth(old(Memory(x.exact.value)), old(Value(y))))
    ensures old(Regular(x) && Regular(y)) && !Fits(x.exact.value, y.prefix.len) ==>
              && Regular(out) && Unites(old(Value(x)), old(Value(y)), Value(out))
              && SetsOf(Value(out)) == AlternateSets(SetsOf(old(Value(x))), SetsOf(old(Value(y))))
              && (Alternates(old(Value(x)), old(Value(y)), Value(out)) <==>
                  Untouched(old(Items(x.exact.value)), Fits(x.exact.value, y.suffix.len), old(Items(y.suffix))) || Eval(y.query, {}))
    ensures EndsOf(out) == FinalEnds(old(Memory(x.exact.value)), x.exact.value.len, old(Items(y.prefix)), old(Items(y.suffix)))
  {
    hide Cleaned, AlternateSets, IsSimple, WellFormed, Solid, Eval, Required, FinalEnds, FinalQuery, KeepsBoth, Enclosed,
         CoversBoth, FinalArray, Tidy, Sides, Alternates, Untouched;
    ghost var xv, yv := Value(x), Value(y);
    ghost var regular, h := Regular(x) && Regular(y), Memory(x.exact.value);
    var v := ValueOf(y);
    out := AlternateMixed(x.exact.value, x.canEmpty, x.query, v, grow);
    if regular {
      SidesOf(h, xv, yv);
      if !Fits(x.exact.value, y.prefix.len) {
        NoRoomSets(h, xv, yv, Value(out));
        NoRoomKeeps(h, yv);
        NotExact(xv, yv, Value(out));
        ExactIsValid(xv);
        QueryKept(h, xv, yv, Value(out));
      }
    }
  }

  lemma SidesOf(h: Held, x: Info, y: Info)
    requires Whole(h) && x.exact == Some(Front(h)) && y.exact.None? && Valid(x) && Valid(y) && Tidy(SetsOf(x)) && Tidy(SetsOf(y))
    ensures Sides(Front(h), y) && x == ExactInfo(Front(h), x.canEmpty, x.query)
  {
  }

  lemma ExactIsValid(x: Info)
    ensures Valid(x) && x.exact.Some? ==> x == ExactInfo(x.exact.value, x.canEmpty, x.query)
  {
  }

  lemma NoRoomKeeps(h: Held, y: Info)
    requires Whole(h) && !HasRoom(h, |y.prefix|)
    ensures KeepsBoth(h, y)
  {
  }

  lemma NotExact(x: Info, y: Info, out: Info)
    requires out.exact.None? && CoversBoth(x, y, out) && WellFormed(out.query) && Solid(out.query)
    ensures Unites(x, y, out) && Valid(out)
  {
  }

  /** alternate */
  method AlternateInPlace(x: SliceInfo, y: SliceInfo, grow: Growth) returns (out: SliceInfo)
    requires Proper(x) && Proper(y) && Arrays(x) !! Arrays(y)
    modifies Arrays(x)
    ensures Proper(out) && (forall a :: a in Arrays(out) ==> a in Arrays(x) || fresh(a))
    ensures old(Regular(x) && Regular(y)) && (x.exact.Some? && y.exact.None? ==> !Fits(x.exact.value, y.prefix.len)) ==>
              && Regular(out) && Unites(old(Value(x)), old(Value(y)), Value(out))
              && SetsOf(Value(out)) == AlternateSets(SetsOf(old(Value(x))), SetsOf(old(Value(y))))
              && (x.exact.None? || y.exact.Some? ||
                  Untouched(old(Items(x.exact.value)), Fits(x.exact.value, y.suffix.len), old(Items(y.suffix))) ==>
                    Alternates(old(Value(x)), old(Value(y)), Value(out)))
    ensures out.exact.Some? ==>
              x.exact.Some? && y.exact.Some? &&
              out.exact.value.arr.Length == Capacity(x.exact.value.arr.Length, x.exact.value.len, y.exact.value.len, grow)
    ensures x.exact.Some? && y.exact.None? && old(Regular(x) && Regular(y)) ==>
              (Apart(out) && CoversBoth(old(Value(x)), old(Value(y)), Value(out)) <==>
               KeepsBoth(old(Memory(x.exact.value)), old(Value(y))))
    ensures x.exact.None? && !Apart(x) ==>
              EndsOf(out) == FinalEnds(old(Memory(x.prefix)), x.suffix.len, EndOf(SetsOf(old(Value(y))), false), EndOf(SetsOf(old(Value(y))), true))
  {
    hide Regular, AlternateSets, KeepsBoth, CoversBoth, FinalEnds, EndOf, Unites, Valid, Alternates, Untouched;
    ghost var xv, yv := Value(x), Value(y);
    if x.exact.Some? && y.exact.Some? {
      out := AlternateExact(x, y, grow);
    } else if x.exact.Some? {
      out := AlternateOneExact(x, y, grow);
    } else {
      out := AlternateEnds(x, y, grow);
    }
    AlternatesUnite(xv, yv, Value(out));
  }

  lemma AlternatesUnite(x: Info, y: Info, out: Info)
    ensures Alternates(x, y, out) ==> Unites(x, y, out)
  {
  }

  // ----------------------------------------------------------------------------- concat

  lemma JoinedThenSimple(x: Info, y: Info, xy: Info, out: Info)
    requires IsJoined(x, y, xy) && IsSimple(xy, false, out) && Valid(x) && Valid(y)
    ensures Concatenates(x, y, out) && SetsOf(out) == ConcatSets(SetsOf(x), SetsOf(y)) && Valid(out) && Tidy(SetsOf(out))
  {
    JoinedSetsOf(x, y, xy, out);
    hide *;
    SimpleIsSimplified(xy, false, out);
    ConcatIs(x, y, xy, out);
    ConcatenatesValid(x, y, out);
  }

  lemma JoinedSetsOf(x: Info, y: Info, xy: Info, out: Info)
    requires IsJoined(x, y, xy) && IsSimple(xy, false, out)
    ensures SetsOf(out) == ConcatSets(SetsOf(x), SetsOf(y))
  {
    hide SimpleSets, JoinedSets, SimpleQuery, WellFormed, Solid, SeamRequired;
  }

  lemma ConcatenatesValid(x: Info, y: Info, out: Info)
    requires Concatenates(x, y, out) && Valid(x) && Valid(y)
    ensures Valid(out)
  {
  }

  method ConcatExact(x: SliceInfo, y: SliceInfo, grow: Growth) returns (out: SliceInfo)
    requires Proper(x) && Proper(y) && x.exact.Some? && y.exact.Some?
    ensures Proper(out) && fresh(Arrays(out))
    ensures Regular(x) && Regular(y) ==>
              && Regular(out) && Concatenates(Value(x), Value(y), Value(out))
              && SetsOf(Value(out)) == ConcatSets(SetsOf(Value(x)), SetsOf(Value(y)))
    ensures out.exact.Some? ==> out.exact.value.arr.Length == AddedCap(x.exact.value.len * y.exact.value.len, grow)
  {
    hide Cleaned, Joined, Concatenates, ConcatSets, IsJoined, Valid, Tidy, WellFormed, Solid, Eval;
    ghost var xv, yv := Value(x), Value(y);
    ghost var regular := Regular(x) && Regular(y);
    var s := x.exact.value.arr[..x.exact.value.len];
    var t := y.exact.value.arr[..y.exact.value.len];
    var exact := CrossSlice(s, t, false, grow);
    var q := AndOr(x.query, y.query, QAnd);
    var xy := ExactOnly(false, exact, q);
    ExactIsJoined(xv, yv, Value(xy));
    out := SimplifyJoined(xy, grow, xv, yv, regular);
  }

  lemma ExactIsJoined(x: Info, y: Info, xy: Info)
    requires x.exact.Some? && y.exact.Some? && WellFormed(xy.query) && Solid(xy.query)
    requires xy == Info(false, Some(Cleaned(Joined(x.exact.value, y.exact.value), false)), [], [], xy.query)
    requires forall T :: Eval(xy.query, T) <==> Eval(x.query, T) && Eval(y.query, T)
    ensures IsJoined(x, y, xy)
  {
    NoSeam(x, y);
    hide Cleaned, Joined, WellFormed, Solid, Eval, SeamRequired;
  }

  /** The prefixes of a concatenation: in new storage, or in that of the prefixes of its first part. */
  method JoinPrefixes(x: SliceInfo, y: SliceInfo, grow: Growth) returns (prefix: Slice)
    requires Proper(x) && Proper(y) && !(x.exact.Some? && y.exact.Some?)
    modifies x.prefix.arr
    ensures Ok(prefix) && (prefix.arr == x.prefix.arr || fresh(prefix.arr))
    ensures Items(prefix) == old(JoinedSets(SetsOf(Value(x)), SetsOf(Value(y))).prefix)
  {
    hide Cleaned, Joined, UnionIn, Memory;
    var t := y.prefix.arr[..y.prefix.len];
    if x.exact.Some? {
      prefix := CrossSlice(x.exact.value.arr[..x.exact.value.len], t, false, grow);
    } else if x.canEmpty {
      prefix := UnionInPlace(x.prefix, t, false, grow);
    } else {
      prefix := x.prefix;
    }
  }

  method JoinSuffixes(x: SliceInfo, y: SliceInfo, grow: Growth) returns (suffix: Slice)
    requires Proper(x) && Proper(y) && !(x.exact.Some? && y.exact.Some?)
    modifies y.suffix.arr
    ensures Ok(suffix) && (suffix.arr == y.suffix.arr || fresh(suffix.arr))
    ensures Items(suffix) == old(JoinedSets(SetsOf(Value(x)), SetsOf(Value(y))).suffix)
  {
    hide Cleaned, Joined, UnionIn, Memory;
    var t := x.suffix.arr[..x.suffix.len];
    if y.exact.Some? {
      suffix := CrossSlice(t, y.exact.value.arr[..y.exact.value.len], true, grow);
    } else if y.canEmpty {
      suffix := UnionInPlace(y.suffix, t, true, grow);
    } else {
      suffix := y.suffix;
    }
  }

  /** The conjunct for the strings across the seam, from what the sets read as by then. */
  method SeamInPlace(q: Query, x: SliceInfo, y: SliceInfo) returns (out: Query)
    requires Proper(x) && Proper(y) && WellFormed(q) && Solid(q)
    ensures WellFormed(out) && Solid(out)
    ensures forall T :: Eval(out, T) <==> Eval(q, T) && SeamRequired(Value(x), Value(y), T)
  {
    hide SeamRequired, Eval, WellFormed, Solid;
    var xv := ValueOf(x);
    var yv := ValueOf(y);
    if x.exact.None? && y.exact.None? {
      out := Analysis.SeamQuery(q, xv, yv);
    } else {
      NoSeam(xv, yv);
      out := q;
    }
  }

  lemma SameSeam(x: Info, y: Info, x': Info, y': Info)
    requires x.exact == x'.exact && y.exact == y'.exact && x.suffix == x'.suffix && y.prefix == y'.prefix
    ensures forall T :: SeamRequired(x, y, T) <==> SeamRequired(x', y', T)
  {
  }

  /** The sets of a concatenation; what the seam is made of stays as it is. */
  method JoinInPlace(x: SliceInfo, y: SliceInfo, grow: Growth) returns (prefix: Slice, suffix: Slice)
    requires Proper(x) && Proper(y) && !(x.exact.Some? && y.exact.Some?) && Arrays(x) !! Arrays(y)
    modifies x.prefix.arr, y.suffix.arr
    ensures Ok(prefix) && (prefix.arr == x.prefix.arr || fresh(prefix.arr))
    ensures Ok(suffix) && (suffix.arr == y.suffix.arr || fresh(suffix.arr))
    ensures prefix.arr != suffix.arr
    ensures Apart(x) && Apart(y) ==>
              && Sets(false, None, Items(prefix), Items(suffix)) == old(JoinedSets(SetsOf(Value(x)), SetsOf(Value(y))))
              && Value(x).exact == old(Value(x)).exact && Value(x).suffix == old(Value(x)).suffix
              && Value(y).exact == old(Value(y)).exact && Value(y).prefix == old(Value(y)).prefix
  {
    hide JoinedSets;
    ghost var xv, yv := Value(x), Value(y);
    prefix := JoinPrefixes(x, y, grow);
    ghost var pre, xv' := Items(prefix), Value(x);
    assert Value(y) == yv;
    suffix := JoinSuffixes(x, y, grow);
    if Apart(x) && Apart(y) {
      assert xv'.exact == xv.exact && xv'.suffix == xv.suffix;
      SamePrefixes(SetsOf(xv), SetsOf(xv'), SetsOf(yv));
      JoinedIsOpen(SetsOf(xv), SetsOf(yv));
      assert Items(prefix) == pre;
    }
  }

  lemma JoinedIsOpen(x: Sets, y: Sets)
    requires !(x.exact.Some? && y.exact.Some?)
    ensures JoinedSets(x, y).exact.None? && !JoinedSets(x, y).canEmpty
  {
  }

  /** Not both parts are exact. */
  method ConcatEndsInPlace(x: SliceInfo, y: SliceInfo, grow: Growth) returns (out: SliceInfo)
    requires Proper(x) && Proper(y) && !(x.exact.Some? && y.exact.Some?) && Arrays(x) !! Arrays(y)
    modifies Arrays(x), Arrays(y)
    ensures Proper(out) && (forall a :: a in Arrays(out) ==> a in Arrays(x) + Arrays(y) || fresh(a)) && out.exact.None?
    ensures old(Regular(x) && Regular(y)) ==>
              && Regular(out) && Concatenates(old(Value(x)), old(Value(y)), Value(out))
              && SetsOf(Value(out)) == ConcatSets(SetsOf(old(Value(x))), SetsOf(old(Value(y))))
  {
    hide JoinedSets, Concatenates, ConcatSets, IsJoined, Valid, Tidy, WellFormed, Solid, Eval, SeamRequired, SimpleSets;
    ghost var xv, yv := Value(x), Value(y);
    ghost var regular := Regular(x) && Regular(y);
    var q0 := AndOr(x.query, y.query, QAnd);
    var prefix, suffix := JoinInPlace(x, y, grow);
    ghost var xv', yv' := Value(x), Value(y);
    var q := SeamInPlace(q0, x, y);
    var xy := SliceInfo(false, None, prefix, suffix, q);
    if regular {
      SameSeam(xv, yv, xv', yv');
      EndsAreJoined(xv, yv, Value(xy));
    }
    out := SimplifyJoined(xy, grow, xv, yv, regular);
  }

  /** The suffixes of a concatenation do not depend on the prefixes of its first part. */
  lemma SamePrefixes(x: Sets, x': Sets, y: Sets)
    requires x.exact == x'.exact && x.suffix == x'.suffix
    ensures JoinedSets(x, y).suffix == JoinedSets(x', y).suffix
  {
  }

  lemma EndsAreJoined(x: Info, y: Info, xy: Info)
    requires WellFormed(xy.query) && Solid(xy.query) && SetsOf(xy) == JoinedSets(SetsOf(x), SetsOf(y))
    requires forall T :: Eval(xy.query, T) <==> Eval(x.query, T) && Eval(y.query, T) && SeamRequired(x, y, T)
    ensures IsJoined(x, y, xy)
  {
    hide JoinedSets, WellFormed, Solid, Eval, SeamRequired;
  }

  /** concat */
  method ConcatInPlace(x: SliceInfo, y: SliceInfo, grow: Growth) returns (out: SliceInfo)
    requires Proper(x) && Proper(y) && Arrays(x) !! Arrays(y)
    modifies Arrays(x), Arrays(y)
    ensures Proper(out) && (forall a :: a in Arrays(out) ==> a in Arrays(x) + Arrays(y) || fresh(a))
    ensures old(Regular(x) && Regular(y)) ==>
              && Regular(out) && Concatenates(old(Value(x)), old(Value(y)), Value(out))
              && SetsOf(Value(out)) == ConcatSets(SetsOf(old(Value(x))), SetsOf(old(Value(y))))
    ensures out.exact.Some? ==>
              x.exact.Some? && y.exact.Some? && out.exact.value.arr.Length == AddedCap(x.exact.value.len * y.exact.value.len, grow)
  {
    hide Regular, Concatenates, ConcatSets;
    if x.exact.Some? && y.exact.Some? {
      out := ConcatExact(x, y, grow);
    } else {
      out := ConcatEndsInPlace(x, y, grow);
    }
  }

  // ---------------------------------------------------- which regexps leave no room

  /** The capacity of the exact set of a concatenation of exact sets. */
  function JoinedCap(x: Sets, y: Sets, grow: Growth): nat {
    if x.exact.Some? && y.exact.Some? then AddedCap(|x.exact.value| * |y.exact.value|, grow) else 0
  }

  /** The capacity of the exact set of an alternation, which is united in the storage of the first. */
  function EitherCap(cap: nat, x: Sets, y: Sets, grow: Growth): nat {
    if x.exact.Some? && y.exact.Some? then Capacity(cap, |x.exact.value|, |y.exact.value|, grow) else 0
  }

  function CapOfClass(ranges: seq<int>, grow: Growth): nat
    requires |ranges| == 1 || R.Pairs(ranges)
  {
    if |ranges| == 1 then 1 else AddedCap(|ClassList(ranges)|, grow)
  }

  function CapOfRunes(runes: seq<int>, orbit: R.Orbit, grow: Growth): nat {
    if runes == [] then 1
    else
      var n := |runes| - 1;
      JoinedCap(SetsOfRunes(runes[..n], orbit), SetsOfClass(R.FoldClass(runes[n], orbit)), grow)
  }

  function CapOfFolded(runes: seq<int>, orbit: R.Orbit, grow: Growth): nat {
    if |runes| == 1 then CapOfClass(R.FoldClass(runes[0], orbit), grow) else CapOfRunes(runes, orbit, grow)
  }

  /** The capacity of the array of the exact set that analyze gives, if it gives one. */
  ghost function CapFor(re: R.Regexp, orbit: R.Orbit, grow: Growth): nat
    requires R.WellFormed(re)
    decreases re, 0
  {
    match re
    case EmptyMatch => 1
    case Assert(_) => 1
    case Literal(runes, fold) => if fold then CapOfFolded(runes, orbit, grow) else 1
    case CharClass(ranges) => CapOfClass(ranges, grow)
    case Capture(sub) => CapFor(sub, orbit, grow)
    case Concat(subs) => CapForAll(subs, orbit, grow)
    case Alternate(subs) => CapForSome(subs, orbit, grow)
    case Quest(sub) => EitherCap(CapFor(sub, orbit, grow), SetsFor(sub, orbit), SetsOf(EmptyString), grow)
    case _ => 0
  }

  ghost function CapForAll(subs: seq<R.Regexp>, orbit: R.Orbit, grow: Growth): nat
    requires forall s | s in subs :: R.WellFormed(s)
    decreases subs, 0
  {
    if subs == [] then 1
    else
      var n := |subs| - 1;
      if n == 0 then CapFor(subs[0], orbit, grow) else JoinedCap(SetsForAll(subs[..n], orbit), SetsFor(subs[n], orbit), grow)
  }

  ghost function CapForSome(subs: seq<R.Regexp>, orbit: R.Orbit, grow: Growth): nat
    requires forall s | s in subs :: R.WellFormed(s)
    decreases subs, 0
  {
    if subs == [] then 0
    else
      var n := |subs| - 1;
      if n == 0 then CapFor(subs[0], orbit, grow)
      else EitherCap(CapForSome(subs[..n], orbit, grow), SetsForSome(subs[..n], orbit), SetsFor(subs[n], orbit), grow)
  }

  /** If only x is exact, there is no room behind it for the prefixes of y, and if it is meant strictly, no suffix of
      y takes the place of a string of x. */
  ghost predicate NoRoom(cap: nat, x: Sets, y: Sets, strict: bool) {
    x.exact.Some? && y.exact.None? ==>
      && |x.exact.value| + |y.prefix| > cap
      && (strict ==> Untouched(x.exact.value, |x.exact.value| + |y.suffix| <= cap, y.suffix))
  }

  /** No alternation that analyze comes to has such room: a condition on the regexp and on how append grows. */
  ghost predicate RoomFree(re: R.Regexp, orbit: R.Orbit, grow: Growth, strict: bool)
    requires R.WellFormed(re)
    decreases re, 0
  {
    match re
    case Capture(sub) => RoomFree(sub, orbit, grow, strict)
    case Concat(subs) => forall s | s in subs :: RoomFree(s, orbit, grow, strict)
    case Alternate(subs) => RoomFreeSome(subs, orbit, grow, strict)
    case Quest(sub) => RoomFree(sub, orbit, grow, strict)
    case Plus(sub) => RoomFree(sub, orbit, grow, strict)
    case Repeat(sub, min, _) => min > 0 ==> RoomFree(sub, orbit, grow, strict)
    case _ => true
  }

  ghost predicate RoomFreeSome(subs: seq<R.Regexp>, orbit: R.Orbit, grow: Growth, strict: bool)
    requires forall s | s in subs :: R.WellFormed(s)
    decreases subs, 0
  {
    && (forall s | s in subs :: RoomFree(s, orbit, grow, strict))
    && forall n :: 0 < n < |subs| ==>
         NoRoom(CapForSome(subs[..n], orbit, grow), SetsForSome(subs[..n], orbit), SetsFor(subs[n], orbit), strict)
  }

  lemma {:induction false} StrictIsFree(re: R.Regexp, orbit: R.Orbit, grow: Growth)
    requires R.WellFormed(re) && RoomFree(re, orbit, grow, true)
    ensures RoomFree(re, orbit, grow, false)
  {
    match re
    case Capture(sub) => StrictIsFree(sub, orbit, grow);
    case Quest(sub) => StrictIsFree(sub, orbit, grow);
    case Plus(sub) => StrictIsFree(sub, orbit, grow);
    case Repeat(sub, min, _) =>
      if min > 0 {
        StrictIsFree(sub, orbit, grow);
      }
    case Concat(subs) =>
      forall s | s in subs
        ensures RoomFree(s, orbit, grow, false)
      {
        StrictIsFree(s, orbit, grow);
      }
    case Alternate(subs) =>
      forall s | s in subs
        ensures RoomFree(s, orbit, grow, false)
      {
        StrictIsFree(s, orbit, grow);
      }
    case _ =>
  }

  /** A regexp without alternation leaves no room. */
  ghost predicate NoAlternation(re: R.Regexp) {
    match re
    case Capture(sub) => NoAlternation(sub)
    case Concat(subs) => forall s | s in subs :: NoAlternation(s)
    case Alternate(subs) => |subs| <= 1 && forall s | s in subs :: NoAlternation(s)
    case Quest(sub) => NoAlternation(sub)
    case Plus(sub) => NoAlternation(sub)
    case Repeat(sub, min, _) => NoAlternation(sub)
    case _ => true
  }

  lemma {:induction false} NoAlternationNoRoom(re: R.Regexp, orbit: R.Orbit, grow: Growth, strict: bool)
    requires R.WellFormed(re) && NoAlternation(re)
    ensures RoomFree(re, orbit, grow, strict)
  {
    match re
    case Capture(sub) => NoAlternationNoRoom(sub, orbit, grow, strict);
    case Quest(sub) => NoAlternationNoRoom(sub, orbit, grow, strict);
    case Plus(sub) => NoAlternationNoRoom(sub, orbit, grow, strict);
    case Repeat(sub, _, _) => NoAlternationNoRoom(sub, orbit, grow, strict);
    case Concat(subs) =>
      forall s | s in subs
        ensures RoomFree(s, orbit, grow, strict)
      {
        NoAlternationNoRoom(s, orbit, grow, strict);
      }
    case Alternate(subs) =>
      forall s | s in subs
        ensures RoomFree(s, orbit, grow, strict)
      {
        NoAlternationNoRoom(s, orbit, grow, strict);
      }
    case _ =>
  }

  // ------------------------------------------------------------------------- constants

  /** The information as composite literals hold it. */
  method SlicesOf(v: Info) returns (out: SliceInfo)
    requires WellFormed(v.query) && Solid(v.query)
    ensures Proper(out) && fresh(Arrays(out)) && Apart(out) && Value(out) == v
    ensures Valid(v) && Tidy(SetsOf(v)) ==> Regular(out)
    ensures out.exact.Some? ==> out.exact.value.arr.Length == |v.exact.value|
  {
    hide Valid, Tidy, WellFormed, Solid;
    var prefix := SliceOf(v.prefix);
    var suffix := SliceOf(v.suffix);
    if v.exact.Some? {
      var exact := SliceOf(v.exact.value);
      out := SliceInfo(v.canEmpty, Some(exact), prefix, suffix, v.query);
    } else {
      out := SliceInfo(v.canEmpty, None, prefix, suffix, v.query);
    }
  }

  lemma ConstantsAreRight()
    ensures Valid(AnyMatch) && Valid(AnyCharInfo) && Valid(NoMatchInfo) && Valid(EmptyString)
    ensures Tidy(SetsOf(AnyMatch)) && Tidy(SetsOf(AnyCharInfo)) && Tidy(SetsOf(NoMatchInfo)) && Tidy(SetsOf(EmptyString))
  {
  }

  // --------------------------------------------------------------------------- classes

  /** What is so of the information for a class, in new storage. */
  ghost predicate ClassSlices(info: SliceInfo, ranges: seq<int>, grow: Growth)
    requires |ranges| == 1 || R.Pairs(ranges)
    reads if Proper(info) then Arrays(info) else {}
  {
    && Proper(info) && Regular(info) && RightForClass(Value(info), ranges) && SetsOf(Value(info)) == SetsOfClass(ranges)
    && Enforces(Value(info), ClassDemand(ranges))
    && (info.exact.Some? ==> info.exact.value.arr.Length == CapOfClass(ranges, grow))
  }

  lemma ClassListAt(ranges: seq<int>, i: nat, done: seq<Str>)
    requires i <= |ranges| && R.Pairs(ranges[i..])
    ensures i == |ranges| ==> done + ClassList(ranges[i..]) == done
    ensures i < |ranges| ==>
              && i + 2 <= |ranges| && R.Pairs(ranges[i + 2..])
              && done + ClassList(ranges[i..]) == (done + RuneList(ranges[i], ranges[i + 1])) + ClassList(ranges[i + 2..])
  {
    if i < |ranges| {
      assert ranges[i..][2..] == ranges[i + 2..];
      hide RuneList, EncodeRune;
    } else {
      assert ranges[i..] == [];
    }
  }

  /** The strings of a class, one after another. */
  method ClassSlice(ranges: seq<int>, grow: Growth) returns (s: Slice)
    requires R.Pairs(ranges)
    ensures Ok(s) && fresh(s.arr) && Items(s) == ClassList(ranges) && s.arr.Length == AddedCap(|ClassList(ranges)|, grow)
  {
    hide AddedCap, EncodeRune, Width, Memory, RuneList, ClassList, R.Pairs;
    s := NoStorage(grow);
    var i := 0;
    assert ranges[0..] == ranges && [] + ClassList(ranges) == ClassList(ranges);
    while i < |ranges|
      invariant 0 <= i <= |ranges| && R.Pairs(ranges[i..])
      invariant Ok(s) && fresh(s.arr) && s.arr.Length == AddedCap(s.len, grow)
      invariant Items(s) + ClassList(ranges[i..]) == ClassList(ranges)
    {
      ClassListAt(ranges, i, Items(s));
      s := AddRange(s, ranges[i], ranges[i + 1], grow);
      i := i + 2;
    }
    ClassListAt(ranges, i, Items(s));
    assert |Items(s)| == s.len;
  }

  method AddRange(s0: Slice, lo: int, hi: int, grow: Growth) returns (s: Slice)
    requires Ok(s0) && s0.arr.Length == AddedCap(s0.len, grow)
    modifies s0.arr
    ensures Ok(s) && (s.arr == s0.arr || fresh(s.arr)) && s.arr.Length == AddedCap(s.len, grow)
    ensures Items(s) == old(Items(s0)) + RuneList(lo, hi)
  {
    hide AddedCap, EncodeRune;
    s := s0;
    var rr := lo;
    assert RuneList(lo, lo - 1) == [] && (lo > hi ==> RuneList(lo, hi) == []);
    while rr <= hi
      invariant lo <= rr && (if lo <= hi then rr <= hi + 1 else rr == lo)
      invariant Ok(s) && (s.arr == s0.arr || fresh(s.arr)) && s.arr.Length == AddedCap(s.len, grow)
      invariant Items(s) == old(Items(s0)) + RuneList(lo, rr - 1)
    {
      s := Add(s, EncodeRune(rr), grow);
      rr := rr + 1;
    }
  }

  lemma ExactIsClass(ranges: seq<int>, exact: seq<Str>, out: Info)
    requires (|ranges| == 1 && exact == [EncodeRune(ranges[0])]) ||
             (|ranges| > 1 && R.Pairs(ranges) && Width(ranges) <= 100 && exact == ClassList(ranges))
    requires IsSimple(Info(false, Some(exact), [], [], AllQuery), false, out)
    ensures RightForClass(out, ranges) && SetsOf(out) == SetsOfClass(ranges) && Valid(out) && Tidy(SetsOf(out))
    ensures Enforces(out, ClassDemand(ranges))
  {
    var info := Info(false, Some(exact), [], [], AllQuery);
    assert SetsOf(info) == ExactSets(exact);
    forall w
      ensures w in exact <==> R.InClass(ranges, w)
    {
      if |ranges| > 1 {
        ClassListMeans(ranges, w);
      }
    }
    assert SetsOf(out) == SetsOfClass(ranges) by {
      hide SimpleSets;
    }
    assert exact != [] by {
      if |ranges| > 1 {
        ClassHasStrings(ranges);
      }
    }
    SimpleSetsAre(info, false, out);
    hide *;
    SimpleIsSimplified(info, false, out);
    ClassIs(ranges, exact, out);
    ClassIsValid(out, ranges);
    ClassEnforces(ranges, exact, out);
  }

  lemma SimpleSetsAre(info: Info, force: bool, out: Info)
    requires IsSimple(info, force, out)
    ensures SetsOf(out) == SimpleSets(SetsOf(info), force)
  {
  }

  lemma ClassIsValid(info: Info, ranges: seq<int>)
    requires (|ranges| == 1 || R.Pairs(ranges)) && RightForClass(info, ranges)
    ensures Valid(info)
  {
  }

  method ClassInPlace(ranges: seq<int>, grow: Growth) returns (info: SliceInfo)
    requires |ranges| == 1 || R.Pairs(ranges)
    ensures ClassSlices(info, ranges, grow) && fresh(Arrays(info))
  {
    hide RightForClass, IsSimple, R.InPairs, Eval, Cleaned, Tidy, Valid, SetsOfClass, CapOfClass, WellFormed, Solid, ClassList, AddedCap,
         Enforces, ClassDemand;
    ConstantsAreRight();
    QueriesAreRight();
    if |ranges| == 0 {
      info := SlicesOf(NoMatchInfo);
      NoneOfClass(ranges, grow);
      return;
    }
    var exact: Slice;
    if |ranges| == 1 {
      exact := SliceOf([EncodeRune(ranges[0])]);
    } else {
      var n := ClassWidth(ranges);
      if n > 100 {
        info := SlicesOf(AnyCharInfo);
        AnyOfClass(ranges, grow);
        return;
      }
      exact := ClassSlice(ranges, grow);
    }
    info := ExactInPlace(exact, grow);
    ExactIsClass(ranges, if |ranges| == 1 then [EncodeRune(ranges[0])] else ClassList(ranges), Value(info));
    CapIs(ranges, grow);
  }

  lemma QueriesAreRight()
    ensures WellFormed(AllQuery) && Solid(AllQuery) && WellFormed(NoneQuery) && Solid(NoneQuery)
  {
  }

  lemma CapIs(ranges: seq<int>, grow: Growth)
    requires |ranges| == 1 || R.Pairs(ranges)
    ensures CapOfClass(ranges, grow) == if |ranges| == 1 then 1 else AddedCap(|ClassList(ranges)|, grow)
  {
  }

  lemma NoneOfClass(ranges: seq<int>, grow: Growth)
    requires |ranges| == 0
    ensures RightForClass(NoMatchInfo, ranges) && SetsOf(NoMatchInfo) == SetsOfClass(ranges)
    ensures Enforces(NoMatchInfo, ClassDemand(ranges))
  {
    RightForNothing(ranges);
  }

  lemma AnyOfClass(ranges: seq<int>, grow: Growth)
    requires |ranges| > 1 && R.Pairs(ranges) && Width(ranges) > 100
    ensures RightForClass(AnyCharInfo, ranges) && SetsOf(AnyCharInfo) == SetsOfClass(ranges)
    ensures Enforces(AnyCharInfo, ClassDemand(ranges))
  {
    ClassIsAny(ranges);
  }

  /** An exact set, simplified. */
  method ExactInPlace(exact: Slice, grow: Growth) returns (info: SliceInfo)
    requires Ok(exact)
    modifies exact.arr
    ensures Proper(info) && (forall a :: a in Arrays(info) ==> a in {exact.arr} || fresh(a)) && Apart(info)
    ensures IsSimple(Info(false, Some(old(Items(exact))), [], [], AllQuery), false, Value(info))
    ensures info.exact.Some? ==> info.exact.value.arr == exact.arr
  {
    hide IsSimple;
    QueriesAreRight();
    var none := NilSlice();
    var none' := NilSlice();
    var whole := SliceInfo(false, Some(exact), none, none', AllQuery);
    info := SimplifyInPlace(whole, false, grow);
  }

  // --------------------------------------------------------------- case-folded literals

  ghost predicate FoldedSlices(info: SliceInfo, runes: seq<int>, orbit: R.Orbit, sets: Sets, cap: nat)
    reads if Proper(info) then Arrays(info) else {}
  {
    && Proper(info) && Regular(info) && RightForFolded(Value(info), runes, orbit) && SetsOf(Value(info)) == sets
    && Enforces(Value(info), Demand(R.Literal(runes, true), orbit))
    && (info.exact.Some? ==> info.exact.value.arr.Length == cap)
  }

  method FoldedInPlace(runes: seq<int>, orbit: R.Orbit, grow: Growth) returns (info: SliceInfo)
    ensures fresh(Arrays(info))
    ensures FoldedSlices(info, runes, orbit, SetsOfFolded(runes, orbit), CapOfFolded(runes, orbit, grow))
  {
    hide FoldedSlices, ClassSlices, SetsOfRunes, CapOfRunes, SetsOfFolded, CapOfFolded, ConcatSets, JoinedCap, SetsOfClass, R.FoldClass;
    if |runes| == 1 {
      info := ClassInPlace(R.FoldClass(runes[0], orbit), grow);
      OneFoldedSlice(info, runes, orbit, grow);
      return;
    }
    info := NothingFolded(orbit, grow);
    ghost var sets, cap := SetsOfRunes([], orbit), CapOfRunes([], orbit, grow);
    assert runes[..0] == [];
    for i := 0 to |runes|
      invariant fresh(Arrays(info))
      invariant FoldedSlices(info, runes[..i], orbit, sets, cap)
      invariant sets == SetsOfRunes(runes[..i], orbit) && cap == CapOfRunes(runes[..i], orbit, grow)
    {
      var y := ClassInPlace(R.FoldClass(runes[i], orbit), grow);
      info := FoldedNext(info, y, runes, i, orbit, grow, sets, cap);
      RunesNext(runes, i, orbit, grow);
      cap := JoinedCap(sets, SetsOfClass(R.FoldClass(runes[i], orbit)), grow);
      sets := ConcatSets(sets, SetsOfClass(R.FoldClass(runes[i], orbit)));
    }
    assert runes[..|runes|] == runes;
    ManyFolded(runes, orbit, grow);
  }

  lemma ManyFolded(runes: seq<int>, orbit: R.Orbit, grow: Growth)
    requires |runes| != 1
    ensures SetsOfFolded(runes, orbit) == SetsOfRunes(runes, orbit) && CapOfFolded(runes, orbit, grow) == CapOfRunes(runes, orbit, grow)
  {
  }

  lemma OneFoldedSlice(info: SliceInfo, runes: seq<int>, orbit: R.Orbit, grow: Growth)
    requires |runes| == 1 && ClassSlices(info, R.FoldClass(runes[0], orbit), grow)
    ensures FoldedSlices(info, runes, orbit, SetsOfFolded(runes, orbit), CapOfFolded(runes, orbit, grow))
  {
    hide RightForClass, RightForFolded, Regular, R.FoldClass, SetsOfClass, CapOfClass, Enforces, ClassDemand, Demand;
    OneFolded(Value(info), runes[0], orbit);
    AnyDemand(Value(info), ClassDemand(R.FoldClass(runes[0], orbit)), runes, orbit);
    assert runes == [runes[0]];
  }

  method NothingFolded(orbit: R.Orbit, grow: Growth) returns (info: SliceInfo)
    ensures fresh(Arrays(info)) && FoldedSlices(info, [], orbit, SetsOfRunes([], orbit), CapOfRunes([], orbit, grow))
  {
    hide RightForFolded, Regular, Valid, Tidy, WellFormed, Solid, Enforces, Demand;
    ConstantsAreRight();
    QueriesAreRight();
    NoneFolded(orbit);
    info := SlicesOf(EmptyString);
  }

  method FoldedNext(x: SliceInfo, y: SliceInfo, runes: seq<int>, i: nat, ghost orbit: R.Orbit, grow: Growth, ghost sets: Sets, ghost cap: nat)
    returns (info: SliceInfo)
    requires i < |runes| && FoldedSlices(x, runes[..i], orbit, sets, cap) && sets == SetsOfRunes(runes[..i], orbit)
    requires ClassSlices(y, R.FoldClass(runes[i], orbit), grow) && Arrays(x) !! Arrays(y)
    modifies Arrays(x), Arrays(y)
    ensures Proper(info) && (forall a :: a in Arrays(info) ==> a in Arrays(x) + Arrays(y) || fresh(a))
    ensures var of := SetsOfClass(R.FoldClass(runes[i], orbit));
            FoldedSlices(info, runes[..i + 1], orbit, ConcatSets(sets, of), JoinedCap(sets, of, grow))
  {
    hide RightForFolded, RightForClass, Concatenates, Regular, SetsOfClass, ConcatSets, R.FoldClass, CapOfClass, AddedCap, Enforces,
         ClassDemand, Demand, SetsOfRunes;
    ghost var xv, yv := Value(x), Value(y);
    info := ConcatInPlace(x, y, grow);
    FoldedStep(xv, runes[..i], yv, runes[i], Value(info), orbit);
    FoldedEnforces(xv, runes[..i], yv, runes[i], Value(info), orbit);
    assert runes[..i] + [runes[i]] == runes[..i + 1];
  }

  lemma RunesNext(runes: seq<int>, i: nat, orbit: R.Orbit, grow: Growth)
    requires i < |runes|
    ensures var x, y := SetsOfRunes(runes[..i], orbit), SetsOfClass(R.FoldClass(runes[i], orbit));
            && SetsOfRunes(runes[..i + 1], orbit) == ConcatSets(x, y)
            && CapOfRunes(runes[..i + 1], orbit, grow) == JoinedCap(x, y, grow)
  {
    assert runes[..i + 1][..i] == runes[..i];
    hide ConcatSets, SetsOfClass, R.FoldClass, JoinedCap;
  }

  // ------------------------------------------------------------------------- analyze

  /** The information is right for the regexp, and its sets are those of the analysis on values. If it is meant strictly, it
      also enforces what the regexp demands. */
  ghost predicate RightSlices(info: SliceInfo, re: R.Regexp, orbit: R.Orbit, sets: Sets, cap: nat, strict: bool)
    requires R.WellFormed(re)
    reads if Proper(info) then Arrays(info) else {}
  {
    && Proper(info) && Regular(info) && Right(Value(info), re, orbit) && SetsOf(Value(info)) == sets
    && (info.exact.Some? ==> info.exact.value.arr.Length == cap)
    && (strict ==> Enforces(Value(info), Demand(re, orbit)))
  }

  method ConstantInPlace(v: Info, ghost re: R.Regexp, ghost orbit: R.Orbit, ghost cap: nat, ghost strict: bool) returns (info: SliceInfo)
    requires v in {AnyMatch, AnyCharInfo, NoMatchInfo, EmptyString} && R.WellFormed(re) && Right(v, re, orbit)
    requires Enforces(v, Demand(re, orbit)) && (v.exact.Some? ==> cap == 1)
    ensures Proper(info) && fresh(Arrays(info)) && RightSlices(info, re, orbit, SetsOf(v), cap, strict)
  {
    hide Right, Valid, Tidy, WellFormed, Solid, Enforces, Demand;
    ConstantsAreRight();
    QueriesAreRight();
    info := SlicesOf(v);
  }

  method LiteralInPlace(runes: seq<int>, ghost orbit: R.Orbit, grow: Growth, ghost strict: bool) returns (info: SliceInfo)
    ensures Proper(info) && fresh(Arrays(info))
    ensures RightSlices(info, R.Literal(runes, false), orbit, SimpleSets(ExactSets([EncodeAll(runes)]), false), 1, strict)
  {
    hide EncodeAll, Right, IsSimple, Valid, Tidy, SimpleSets, Enforces, Demand;
    var exact := SliceOf([EncodeAll(runes)]);
    info := ExactInPlace(exact, grow);
    LiteralIsRight(Value(info), runes, orbit);
  }

  lemma LiteralIsRight(out: Info, runes: seq<int>, orbit: R.Orbit)
    requires IsSimple(Info(false, Some([EncodeAll(runes)]), [], [], AllQuery), false, out)
    ensures Right(out, R.Literal(runes, false), orbit) && SetsOf(out) == SimpleSets(ExactSets([EncodeAll(runes)]), false)
    ensures Valid(out) && Tidy(SetsOf(out)) && Enforces(out, Demand(R.Literal(runes, false), orbit))
  {
    var literal := Info(false, Some([EncodeAll(runes)]), [], [], AllQuery);
    assert SetsOf(literal) == ExactSets([EncodeAll(runes)]);
    SimpleSetsAre(literal, false, out);
    hide *;
    SimpleIsSimplified(literal, false, out);
    RightForLiteral(literal, out, runes, orbit);
    LiteralEnforces(literal, out, runes, orbit);
    RightIsValid(out, R.Literal(runes, false), orbit);
  }

  /** OpPlus: the prefixes take the storage of the exact set, the suffixes a copy. */
  method LooseInPlace(info: SliceInfo, grow: Growth) returns (out: SliceInfo)
    requires Proper(info)
    modifies Arrays(info)
    ensures Proper(out) && (forall a :: a in Arrays(out) ==> a in Arrays(info) || fresh(a)) && out.exact.None?
    ensures old(Regular(info)) ==>
              && Regular(out) && Simplified(Loosen(old(Value(info))), Value(out))
              && SetsOf(Value(out)) == SimpleSets(LooseSets(SetsOf(old(Value(info)))), false)
  {
    hide IsSimple, Tidy, SimpleSets, WellFormed, Solid, Simplified, Valid, LooseSets;
    ghost var v, regular := Value(info), Regular(info);
    var loose := LooseSlices(info, grow);
    ghost var lv := Value(loose);
    out := SimplifyInPlace(loose, false, grow);
    if regular {
      LooseIsSimple(v, lv, Value(out));
    }
  }

  method LooseSlices(info: SliceInfo, grow: Growth) returns (loose: SliceInfo)
    requires Proper(info)
    ensures Proper(loose) && loose.exact.None? && (forall a :: a in Arrays(loose) ==> a in Arrays(info) || fresh(a))
    ensures Value(loose) == Loosen(Value(info)) && (Apart(info) ==> Apart(loose))
  {
    hide WellFormed, Solid, Appended, Memory;
    loose := info;
    if info.exact.Some? {
      var none := NilSlice();
      var copy := Append(none, info.exact.value.arr[..info.exact.value.len], grow);
      loose := SliceInfo(info.canEmpty, None, info.exact.value, copy, info.query);
    }
  }

  lemma LooseIsSimple(v: Info, lv: Info, out: Info)
    requires lv == Loosen(v) && IsSimple(lv, false, out) && Valid(v)
    ensures Simplified(lv, out) && SetsOf(out) == SimpleSets(LooseSets(SetsOf(v)), false) && Valid(out) && Tidy(SetsOf(out))
  {
    assert SetsOf(lv) == LooseSets(SetsOf(v));
    assert SetsOf(out) == SimpleSets(LooseSets(SetsOf(v)), false) by {
      hide SimpleSets;
    }
    assert Valid(lv);
    hide *;
    SimpleIsSimplified(lv, false, out);
    SimpleKeepsValid(lv, false, out);
  }

  lemma LooseSetsAre(v: Info)
    ensures SetsOf(Loosen(v)) == LooseSets(SetsOf(v))
  {
  }

  method AllInPlace(subs: seq<R.Regexp>, orbit: R.Orbit, grow: Growth, ghost strict: bool) returns (info: SliceInfo)
    requires R.WellFormed(R.Concat(subs))
    ensures Proper(info) && fresh(Arrays(info))
    ensures RoomFree(R.Concat(subs), orbit, grow, strict) ==>
              RightSlices(info, R.Concat(subs), orbit, SetsFor(R.Concat(subs), orbit), CapFor(R.Concat(subs), orbit, grow), strict)
    decreases subs, 0
  {
    hide RightSlices, SetsFor, SetsForAll, SetsForSome, CapFor, CapForAll, CapForSome, RoomFree, RoomFreeSome, Right, R.WellFormed, Proper,
         ConcatSets, AlternateSets, JoinedCap, EitherCap, NoRoom;
    AllWellFormed(subs);
    if |subs| == 0 {
      NothingAnalyzed(subs, orbit);
      NothingHeld(subs, orbit, grow);
      info := ConstantInPlace(EmptyString, R.Concat(subs), orbit, 1, strict);
      return;
    }
    AllOfThem(subs, orbit, grow, strict);
    info := AnalyzeInPlace(subs[0], orbit, grow, strict);
    FirstOfAll(info, subs, orbit, grow, strict);
    for i := 1 to |subs|
      invariant Proper(info) && fresh(Arrays(info))
      invariant RoomFree(R.Concat(subs), orbit, grow, strict) ==>
                  RightSlices(info, R.Concat(subs[..i]), orbit, SetsForAll(subs[..i], orbit), CapForAll(subs[..i], orbit, grow), strict)
    {
      var y := AnalyzeInPlace(subs[i], orbit, grow, strict);
      SetsForAllNext(subs, i, orbit);
      CapForAllNext(subs, i, orbit, grow);
      assert subs[i] in subs;
      info := NextOfAll(info, y, subs, i, orbit, grow, RoomFree(R.Concat(subs), orbit, grow, strict), SetsForAll(subs[..i], orbit),
                        CapForAll(subs[..i], orbit, grow), SetsFor(subs[i], orbit), CapFor(subs[i], orbit, grow), strict);
    }
    assert subs[..|subs|] == subs;
  }

  lemma NothingHeld(subs: seq<R.Regexp>, orbit: R.Orbit, grow: Growth)
    requires |subs| == 0
    ensures R.WellFormed(R.Concat(subs)) && SetsFor(R.Concat(subs), orbit) == SetsOf(EmptyString) && CapFor(R.Concat(subs), orbit, grow) == 1
    ensures R.WellFormed(R.Alternate(subs)) && SetsFor(R.Alternate(subs), orbit) == SetsOf(NoMatchInfo)
  {
  }

  lemma AllOfThem(subs: seq<R.Regexp>, orbit: R.Orbit, grow: Growth, strict: bool)
    requires (forall s | s in subs :: R.WellFormed(s)) && R.WellFormed(R.Concat(subs))
    ensures SetsFor(R.Concat(subs), orbit) == SetsForAll(subs, orbit) && CapFor(R.Concat(subs), orbit, grow) == CapForAll(subs, orbit, grow)
    ensures RoomFree(R.Concat(subs), orbit, grow, strict) ==> forall s | s in subs :: RoomFree(s, orbit, grow, strict)
  {
    hide SetsForAll, CapForAll, SetsForSome, CapForSome;
  }

  lemma SomeOfThem(subs: seq<R.Regexp>, orbit: R.Orbit, grow: Growth, strict: bool)
    requires (forall s | s in subs :: R.WellFormed(s)) && R.WellFormed(R.Alternate(subs))
    ensures SetsFor(R.Alternate(subs), orbit) == SetsForSome(subs, orbit) && CapFor(R.Alternate(subs), orbit, grow) == CapForSome(subs, orbit, grow)
    ensures RoomFree(R.Alternate(subs), orbit, grow, strict) ==> RoomFreeSome(subs, orbit, grow, strict)
  {
    hide SetsForSome, CapForSome, SetsForAll, CapForAll, RoomFreeSome;
  }

  lemma NoRoomAt(subs: seq<R.Regexp>, n: nat, orbit: R.Orbit, grow: Growth, strict: bool)
    requires (forall s | s in subs :: R.WellFormed(s)) && n < |subs| && RoomFreeSome(subs, orbit, grow, strict)
    ensures RoomFree(subs[n], orbit, grow, strict)
    ensures n > 0 ==> NoRoom(CapForSome(subs[..n], orbit, grow), SetsForSome(subs[..n], orbit), SetsFor(subs[n], orbit), strict)
  {
    hide SetsForSome, CapForSome, RoomFree, SetsFor, NoRoom;
    assert subs[n] in subs;
  }

  lemma FirstOfAll(info: SliceInfo, subs: seq<R.Regexp>, orbit: R.Orbit, grow: Growth, strict: bool)
    requires |subs| > 0 && R.WellFormed(subs[0]) && R.WellFormed(R.Concat(subs)) && R.WellFormed(R.Concat(subs[..1]))
    requires RoomFree(subs[0], orbit, grow, strict) ==> RightSlices(info, subs[0], orbit, SetsFor(subs[0], orbit), CapFor(subs[0], orbit, grow), strict)
    ensures RoomFree(R.Concat(subs), orbit, grow, strict) ==>
              RightSlices(info, R.Concat(subs[..1]), orbit, SetsForAll(subs[..1], orbit), CapForAll(subs[..1], orbit, grow), strict)
  {
    AllWellFormed(subs);
    AllOfThem(subs, orbit, grow, strict);
    assert subs[0] in subs && subs[..1] == [subs[0]];
    if RoomFree(subs[0], orbit, grow, strict) {
      hide SetsFor, CapFor, RoomFree, Right, Regular, R.WellFormed, Enforces, Demand;
      RightForOne(Value(info), subs[0], orbit);
      if strict {
        EnforcesOne(Value(info), subs[0], orbit);
      }
    }
  }

  method NextOfAll(x: SliceInfo, y: SliceInfo, ghost subs: seq<R.Regexp>, ghost i: nat, ghost orbit: R.Orbit, grow: Growth, ghost free: bool,
                   ghost s: Sets, ghost cap: nat, ghost t: Sets, ghost cap': nat, ghost strict: bool) returns (info: SliceInfo)
    requires 0 < i < |subs| && R.WellFormed(R.Concat(subs)) && R.WellFormed(R.Concat(subs[..i])) && R.WellFormed(R.Concat(subs[..i + 1]))
    requires R.WellFormed(subs[i]) && Proper(x) && Proper(y) && Arrays(x) !! Arrays(y)
    requires free ==> RightSlices(x, R.Concat(subs[..i]), orbit, s, cap, strict) && RightSlices(y, subs[i], orbit, t, cap', strict)
    modifies Arrays(x), Arrays(y)
    ensures Proper(info) && (forall a :: a in Arrays(info) ==> a in Arrays(x) + Arrays(y) || fresh(a))
    ensures free ==> RightSlices(info, R.Concat(subs[..i + 1]), orbit, ConcatSets(s, t), JoinedCap(s, t, grow), strict)
  {
    ghost var xv, yv := Value(x), Value(y);
    if free {
      RightSlicesAre(x, R.Concat(subs[..i]), orbit, s, cap, strict);
      RightSlicesAre(y, subs[i], orbit, t, cap', strict);
    }
    hide Right, Regular, R.WellFormed, Concatenates, ConcatSets, AddedCap, RightSlices, Apart, Value, Enforces, Demand;
    info := ConcatInPlace(x, y, grow);
    if free {
      ConcatMore(xv, subs, i, yv, Value(info), orbit);
      if strict {
        EnforcesAll(xv, subs, i, yv, Value(info), orbit);
      }
      assert info.exact.Some? ==> info.exact.value.arr.Length == JoinedCap(s, t, grow);
      RightSlicesIs(info, R.Concat(subs[..i + 1]), orbit, ConcatSets(s, t), JoinedCap(s, t, grow), strict);
    }
  }

  lemma CapForAllNext(subs: seq<R.Regexp>, i: nat, orbit: R.Orbit, grow: Growth)
    requires 0 < i < |subs| && forall s | s in subs :: R.WellFormed(s)
    ensures CapForAll(subs[..i + 1], orbit, grow) == JoinedCap(SetsForAll(subs[..i], orbit), SetsFor(subs[i], orbit), grow)
  {
    hide SetsFor, SetsForAll, JoinedCap, CapFor, CapForSome;
    assert subs[..i + 1][..i] == subs[..i];
  }

  lemma CapForSomeNext(subs: seq<R.Regexp>, i: nat, orbit: R.Orbit, grow: Growth)
    requires 0 < i < |subs| && forall s | s in subs :: R.WellFormed(s)
    ensures CapForSome(subs[..i + 1], orbit, grow) ==
            EitherCap(CapForSome(subs[..i], orbit, grow), SetsForSome(subs[..i], orbit), SetsFor(subs[i], orbit), grow)
  {
    hide SetsFor, SetsForSome, EitherCap, CapFor, CapForAll;
    assert subs[..i + 1][..i] == subs[..i];
  }

  method SomeInPlace(subs: seq<R.Regexp>, orbit: R.Orbit, grow: Growth, ghost strict: bool) returns (info: SliceInfo)
    requires R.WellFormed(R.Alternate(subs))
    ensures Proper(info) && fresh(Arrays(info))
    ensures RoomFree(R.Alternate(subs), orbit, grow, strict) ==>
              RightSlices(info, R.Alternate(subs), orbit, SetsFor(R.Alternate(subs), orbit), CapFor(R.Alternate(subs), orbit, grow), strict)
    decreases subs, 0
  {
    hide RightSlices, SetsFor, SetsForAll, SetsForSome, CapFor, CapForAll, CapForSome, RoomFree, RoomFreeSome, Right, R.WellFormed, Proper,
         ConcatSets, AlternateSets, JoinedCap, EitherCap, NoRoom;
    AllWellFormed(subs);
    if |subs| == 0 {
      NothingAnalyzed(subs, orbit);
      NothingHeld(subs, orbit, grow);
      info := ConstantInPlace(NoMatchInfo, R.Alternate(subs), orbit, CapFor(R.Alternate(subs), orbit, grow), strict);
      return;
    }
    SomeOfThem(subs, orbit, grow, strict);
    info := AnalyzeInPlace(subs[0], orbit, grow, strict);
    FirstOfSome(info, subs, orbit, grow, strict);
    for i := 1 to |subs|
      invariant Proper(info) && fresh(Arrays(info))
      invariant RoomFreeSome(subs, orbit, grow, strict) ==>
                  RightSlices(info, R.Alternate(subs[..i]), orbit, SetsForSome(subs[..i], orbit), CapForSome(subs[..i], orbit, grow), strict)
    {
      var y := AnalyzeInPlace(subs[i], orbit, grow, strict);
      SetsForSomeNext(subs, i, orbit);
      CapForSomeNext(subs, i, orbit, grow);
      if RoomFreeSome(subs, orbit, grow, strict) {
        NoRoomAt(subs, i, orbit, grow, strict);
      }
      info := NextOfSome(info, y, subs, i, orbit, grow, RoomFreeSome(subs, orbit, grow, strict), SetsForSome(subs[..i], orbit),
                         CapForSome(subs[..i], orbit, grow), SetsFor(subs[i], orbit), CapFor(subs[i], orbit, grow), strict);
    }
    assert subs[..|subs|] == subs;
  }

  lemma FirstOfSome(info: SliceInfo, subs: seq<R.Regexp>, orbit: R.Orbit, grow: Growth, strict: bool)
    requires |subs| > 0 && R.WellFormed(subs[0]) && R.WellFormed(R.Alternate(subs)) && R.WellFormed(R.Alternate(subs[..1]))
    requires RoomFree(subs[0], orbit, grow, strict) ==> RightSlices(info, subs[0], orbit, SetsFor(subs[0], orbit), CapFor(subs[0], orbit, grow), strict)
    ensures RoomFreeSome(subs, orbit, grow, strict) ==>
              RightSlices(info, R.Alternate(subs[..1]), orbit, SetsForSome(subs[..1], orbit), CapForSome(subs[..1], orbit, grow), strict)
  {
    assert subs[0] in subs && subs[..1] == [subs[0]];
    if RoomFreeSome(subs, orbit, grow, strict) {
      NoRoomAt(subs, 0, orbit, grow, strict);
      hide SetsFor, CapFor, RoomFree, Right, Regular, R.WellFormed, RoomFreeSome, Enforces, Demand;
      RightForOne(Value(info), subs[0], orbit);
      if strict {
        EnforcesOne(Value(info), subs[0], orbit);
      }
    }
  }

  /** Without room the next alternative takes the exact set to new storage. */
  lemma NextHasNoRoom(x: SliceInfo, y: SliceInfo, a: R.Regexp, b: R.Regexp, orbit: R.Orbit, s: Sets, t: Sets, cap: nat, cap': nat, strict: bool)
    requires R.WellFormed(a) && R.WellFormed(b) && RightSlices(x, a, orbit, s, cap, strict) && RightSlices(y, b, orbit, t, cap', strict) && NoRoom(cap, s, t, strict)
    ensures Proper(x) && Proper(y) && Regular(x) && Regular(y) && Right(Value(x), a, orbit) && Right(Value(y), b, orbit)
    ensures SetsOf(Value(x)) == s && SetsOf(Value(y)) == t
    ensures x.exact.Some? && y.exact.None? ==>
              && !Fits(x.exact.value, y.prefix.len)
              && (strict ==> Untouched(Items(x.exact.value), Fits(x.exact.value, y.suffix.len), Items(y.suffix)))
    ensures strict ==> Enforces(Value(x), Demand(a, orbit)) && Enforces(Value(y), Demand(b, orbit))
    ensures x.exact.Some? ==> x.exact.value.arr.Length == cap && s.exact.Some? && |s.exact.value| == x.exact.value.len
    ensures y.exact.Some? ==> t.exact.Some? && |t.exact.value| == y.exact.value.len
  {
    hide Right, Regular, R.WellFormed, Enforces, Demand, Untouched;
  }

  lemma RightSlicesIs(info: SliceInfo, re: R.Regexp, orbit: R.Orbit, sets: Sets, cap: nat, strict: bool)
    requires R.WellFormed(re) && Proper(info) && Regular(info) && Right(Value(info), re, orbit) && SetsOf(Value(info)) == sets
    requires info.exact.Some? ==> info.exact.value.arr.Length == cap
    requires strict ==> Enforces(Value(info), Demand(re, orbit))
    ensures RightSlices(info, re, orbit, sets, cap, strict)
  {
  }

  method NextOfSome(x: SliceInfo, y: SliceInfo, ghost subs: seq<R.Regexp>, ghost i: nat, ghost orbit: R.Orbit, grow: Growth, ghost free: bool,
                    ghost s: Sets, ghost cap: nat, ghost t: Sets, ghost cap': nat, ghost strict: bool) returns (info: SliceInfo)
    requires 0 < i < |subs| && R.WellFormed(R.Alternate(subs)) && R.WellFormed(R.Alternate(subs[..i])) && R.WellFormed(R.Alternate(subs[..i + 1]))
    requires R.WellFormed(subs[i]) && Proper(x) && Proper(y) && Arrays(x) !! Arrays(y)
    requires free ==> RightSlices(x, R.Alternate(subs[..i]), orbit, s, cap, strict) && RightSlices(y, subs[i], orbit, t, cap', strict) && NoRoom(cap, s, t, strict)
    modifies Arrays(x), Arrays(y)
    ensures Proper(info) && (forall a :: a in Arrays(info) ==> a in Arrays(x) + Arrays(y) || fresh(a))
    ensures free ==> RightSlices(info, R.Alternate(subs[..i + 1]), orbit, AlternateSets(s, t), EitherCap(cap, s, t, grow), strict)
  {
    ghost var xv, yv := Value(x), Value(y);
    if free {
      NextHasNoRoom(x, y, R.Alternate(subs[..i]), subs[i], orbit, s, t, cap, cap', strict);
    }
    hide Right, Regular, R.WellFormed, Unites, AlternateSets, KeepsBoth, CoversBoth, FinalEnds, RightSlices, NoRoom, EndOf, Fits, Proper,
         Capacity, Value, FinalArray, Memory, Enforces, Demand, Untouched, Alternates;
    info := AlternateInPlace(x, y, grow);
    if free {
      AlternateMore(xv, subs, i, yv, Value(info), orbit);
      if strict {
        EnforcesSome(xv, subs, i, yv, Value(info), orbit);
      }
      assert info.exact.Some? ==> info.exact.value.arr.Length == EitherCap(cap, s, t, grow);
      RightSlicesIs(info, R.Alternate(subs[..i + 1]), orbit, AlternateSets(s, t), EitherCap(cap, s, t, grow), strict);
    }
  }

  method AnalyzeInPlace(re: R.Regexp, orbit: R.Orbit, grow: Growth, ghost strict: bool) returns (info: SliceInfo)
    requires R.WellFormed(re)
    ensures Proper(info) && fresh(Arrays(info))
    ensures RoomFree(re, orbit, grow, strict) ==> RightSlices(info, re, orbit, SetsFor(re, orbit), CapFor(re, orbit, grow), strict)
    decreases re, 1
  {
    hide RightSlices, Right, Enforces, Demand, R.Matches, Valid, RightForClass, RightForFolded, SimpleSets, AlternateSets, AddedCap, AllQuery;
    match re {
      case NoMatch =>
        RightNoMatch(re, orbit);
        EnforcesNothing(NoMatchInfo, re, orbit);
        info := ConstantInPlace(NoMatchInfo, re, orbit, CapFor(re, orbit, grow), strict);
      case EmptyMatch =>
        RightEmpty(re, orbit);
        EnforcesNothing(EmptyString, re, orbit);
        info := ConstantInPlace(EmptyString, re, orbit, 1, strict);
      case Assert(_) =>
        RightEmpty(re, orbit);
        EnforcesNothing(EmptyString, re, orbit);
        info := ConstantInPlace(EmptyString, re, orbit, 1, strict);
      case Literal(runes, fold) =>
        if fold {
          info := FoldedInPlace(runes, orbit, grow);
          FoldedIsRight(info, runes, orbit, grow, strict);
        } else {
          info := LiteralInPlace(runes, orbit, grow, strict);
        }
      case CharClass(ranges) =>
        info := ClassInPlace(ranges, grow);
        ClassIsRight(info, ranges, orbit, grow, strict);
      case AnyCharNotNL =>
        RightAny(re, orbit);
        EnforcesNothing(AnyCharInfo, re, orbit);
        info := ConstantInPlace(AnyCharInfo, re, orbit, CapFor(re, orbit, grow), strict);
      case AnyChar =>
        RightAny(re, orbit);
        EnforcesNothing(AnyCharInfo, re, orbit);
        info := ConstantInPlace(AnyCharInfo, re, orbit, CapFor(re, orbit, grow), strict);
      case Capture(sub) =>
        info := AnalyzeInPlace(sub, orbit, grow, strict);
        if RoomFree(re, orbit, grow, strict) {
          CaptureIsRight(info, sub, orbit, grow, strict);
        }
      case Concat(subs) =>
        info := AllInPlace(subs, orbit, grow, strict);
      case Alternate(subs) =>
        info := SomeInPlace(subs, orbit, grow, strict);
      case Quest(sub) =>
        var x := AnalyzeInPlace(sub, orbit, grow, strict);
        QuestIs(sub, orbit, grow, strict);
        info := QuestInPlace(x, sub, grow, orbit, RoomFree(sub, orbit, grow, strict), SetsFor(sub, orbit), CapFor(sub, orbit, grow), strict);
      case Star(_) =>
        RightAny(re, orbit);
        EnforcesNothing(AnyMatch, re, orbit);
        info := ConstantInPlace(AnyMatch, re, orbit, CapFor(re, orbit, grow), strict);
      case Plus(sub) =>
        var x := AnalyzeInPlace(sub, orbit, grow, strict);
        info := RepeatInPlace(x, sub, re, orbit, grow, strict);
      case Repeat(sub, min, _) =>
        if min == 0 {
          RightAny(re, orbit);
          EnforcesNothing(AnyMatch, re, orbit);
          info := ConstantInPlace(AnyMatch, re, orbit, CapFor(re, orbit, grow), strict);
        } else {
          var x := AnalyzeInPlace(sub, orbit, grow, strict);
          info := RepeatInPlace(x, sub, re, orbit, grow, strict);
        }
    }
  }

  lemma FoldedIsRight(info: SliceInfo, runes: seq<int>, orbit: R.Orbit, grow: Growth, strict: bool)
    requires FoldedSlices(info, runes, orbit, SetsOfFolded(runes, orbit), CapOfFolded(runes, orbit, grow))
    ensures var re := R.Literal(runes, true); RightSlices(info, re, orbit, SetsFor(re, orbit), CapFor(re, orbit, grow), strict)
  {
    hide RightForFolded, SetsOfFolded, CapOfFolded, Regular, Right, Enforces, Demand;
    RightFromFolded(Value(info), runes, orbit);
  }

  lemma ClassIsRight(info: SliceInfo, ranges: seq<int>, orbit: R.Orbit, grow: Growth, strict: bool)
    requires R.WellFormed(R.CharClass(ranges)) && ClassSlices(info, ranges, grow)
    ensures var re := R.CharClass(ranges); RightSlices(info, re, orbit, SetsFor(re, orbit), CapFor(re, orbit, grow), strict)
  {
    hide RightForClass, SetsOfClass, CapOfClass, Regular, Right, Enforces, ClassDemand, Demand;
    RightFromClass(Value(info), ranges, orbit);
    ClassDemandIs(Value(info), ranges, orbit);
  }

  lemma CaptureIsRight(info: SliceInfo, sub: R.Regexp, orbit: R.Orbit, grow: Growth, strict: bool)
    requires R.WellFormed(sub) && RightSlices(info, sub, orbit, SetsFor(sub, orbit), CapFor(sub, orbit, grow), strict)
    ensures var re := R.Capture(sub); RightSlices(info, re, orbit, SetsFor(re, orbit), CapFor(re, orbit, grow), strict)
  {
    hide Regular, Right, Enforces, Demand;
    RightIfSame(Value(info), sub, R.Capture(sub), orbit);
    if strict {
      CaptureEnforces(Value(info), sub, orbit);
    }
  }

  method QuestInPlace(x: SliceInfo, sub: R.Regexp, grow: Growth, ghost orbit: R.Orbit, ghost free: bool, ghost sets: Sets, ghost cap: nat, ghost strict: bool)
    returns (info: SliceInfo)
    requires R.WellFormed(sub) && R.WellFormed(R.Quest(sub)) && Proper(x) && (free ==> RightSlices(x, sub, orbit, sets, cap, strict))
    modifies Arrays(x)
    ensures Proper(info) && forall a :: a in Arrays(info) ==> a in Arrays(x) || fresh(a)
    ensures free ==>
              var empty := SetsOf(EmptyString);
              RightSlices(info, R.Quest(sub), orbit, AlternateSets(sets, empty), EitherCap(cap, sets, empty, grow), strict)
  {
    hide Right, R.WellFormed, Unites, AlternateSets, KeepsBoth, CoversBoth, FinalEnds, NoRoom, EndOf, Capacity, Valid, Tidy, WellFormed, Solid,
         FinalArray;
    ConstantsAreRight();
    QueriesAreRight();
    ghost var xv := Value(x);
    var y := SlicesOf(EmptyString);
    if free {
      RightSlicesAre(x, sub, orbit, sets, cap, strict);
    }
    hide Regular, RightSlices, Enforces, Demand, Alternates, Untouched;
    info := AlternateInPlace(x, y, grow);
    if free {
      QuestIsRight(xv, sub, Value(info), orbit);
      if strict {
        QuestEnforces(xv, sub, Value(info), orbit);
      }
      RightSlicesIs(info, R.Quest(sub), orbit, AlternateSets(sets, SetsOf(EmptyString)), EitherCap(cap, sets, SetsOf(EmptyString), grow), strict);
    }
  }

  lemma QuestIs(sub: R.Regexp, orbit: R.Orbit, grow: Growth, strict: bool)
    requires R.WellFormed(sub)
    ensures var re, empty := R.Quest(sub), SetsOf(EmptyString);
            && R.WellFormed(re) && (RoomFree(re, orbit, grow, strict) <==> RoomFree(sub, orbit, grow, strict))
            && SetsFor(re, orbit) == AlternateSets(SetsFor(sub, orbit), empty)
            && CapFor(re, orbit, grow) == EitherCap(CapFor(sub, orbit, grow), SetsFor(sub, orbit), empty, grow)
  {
    hide AlternateSets, EitherCap;
  }

  lemma QuestIsRight(x: Info, sub: R.Regexp, out: Info, orbit: R.Orbit)
    requires R.WellFormed(sub) && Right(x, sub, orbit) && Unites(x, EmptyString, out)
    ensures Right(out, R.Quest(sub), orbit)
  {
    RightEmpty(R.EmptyMatch, orbit);
    hide Right, Unites;
    AlternateStep(x, sub, EmptyString, R.EmptyMatch, out, R.Quest(sub), orbit);
  }

  method RepeatInPlace(x: SliceInfo, sub: R.Regexp, re: R.Regexp, ghost orbit: R.Orbit, grow: Growth, ghost strict: bool) returns (info: SliceInfo)
    requires R.WellFormed(re) && R.WellFormed(sub) && Proper(x)
    requires re == R.Plus(sub) || (re.Repeat? && re.sub == sub && re.min > 0)
    requires RoomFree(sub, orbit, grow, strict) ==> RightSlices(x, sub, orbit, SetsFor(sub, orbit), CapFor(sub, orbit, grow), strict)
    modifies Arrays(x)
    ensures Proper(info) && forall a :: a in Arrays(info) ==> a in Arrays(x) || fresh(a)
    ensures RoomFree(re, orbit, grow, strict) ==> RightSlices(info, re, orbit, SetsFor(re, orbit), CapFor(re, orbit, grow), strict)
  {
    ghost var xv := Value(x);
    if RoomFree(sub, orbit, grow, strict) {
      RightSlicesAre(x, sub, orbit, SetsFor(sub, orbit), CapFor(sub, orbit, grow), strict);
    }
    hide Right, Regular, SimpleSets, Simplified, Loosen, LooseSets, Enforces, Demand;
    info := LooseInPlace(x, grow);
    if RoomFree(sub, orbit, grow, strict) {
      RightForRepeat(xv, sub, re, Value(info), orbit);
      if strict {
        LooseSetsAre(xv);
        RepeatEnforces(xv, sub, re, Value(info), orbit);
      }
    }
  }

  // ---------------------------------------------------------------------- RegexpQuery

  /** RegexpQuery on slices: without room for the prefixes of its alternations, the query of a regexp holds on every text
      that contains a match, and the sets it is made of are those of the analysis on values. If also no suffixes take the
      place of exact strings, it asks for the trigrams that each match has. */
  method RegexpQueryInPlace(re: R.Regexp, orbit: R.Orbit, grow: Growth) returns (q: Query)
    requires R.WellFormed(re)
    ensures WellFormed(q) && Solid(q)
    ensures RoomFree(re, orbit, grow, false) ==> forall text, i: nat, j: nat | i <= j <= |text| ::
              R.Matches(re, text, i, j, orbit) ==> Eval(q, Trigrams(text))
    ensures RoomFree(re, orbit, grow, false) && SetsFor(re, orbit).exact.Some? ==>
              forall T :: Eval(q, T) <==> Required(SetsFor(re, orbit).exact.value, T)
    ensures RoomFree(re, orbit, grow, true) ==> AsksEnough(q, re, orbit)
  {
    ghost var strict := RoomFree(re, orbit, grow, true);
    ghost var free := RoomFree(re, orbit, grow, strict);
    FreeIs(re, orbit, grow);
    hide RightSlices, SetsFor, CapFor, RoomFree, Right, R.WellFormed, R.Matches, IsSimple, Eval, Required, WellFormed, Solid, Enforces,
         Demand, AsksEnough;
    var info := AnalyzeInPlace(re, orbit, grow, strict);
    ghost var v := Value(info);
    if free {
      RightSlicesAre(info, re, orbit, SetsFor(re, orbit), CapFor(re, orbit, grow), strict);
    }
    ghost var simple;
    q, simple := QueryOfSlices(info, grow);
    if free {
      QuerySettled(v, re, orbit, strict, simple, q);
    }
  }

  /** The end of RegexpQuery */
  method QueryOfSlices(info: SliceInfo, grow: Growth) returns (q: Query, ghost simple: Info)
    requires Proper(info)
    modifies Arrays(info)
    ensures WellFormed(q) && Solid(q) && (Apart(info) ==> IsSimple(old(Value(info)), true, simple))
    ensures forall T :: Eval(q, T) <==> Eval(simple.query, T) && (simple.exact.Some? ==> Required(simple.exact.value, T))
  {
    hide IsSimple, Eval, Required, WellFormed, Solid;
    var s := SimplifyInPlace(info, true, grow);
    simple := Value(s);
    q := FinishInPlace(s);
  }

  lemma QuerySettled(v: Info, re: R.Regexp, orbit: R.Orbit, strict: bool, simple: Info, q: Query)
    requires R.WellFormed(re) && Right(v, re, orbit) && IsSimple(v, true, simple) && WellFormed(q)
    requires strict ==> Valid(v) && Enforces(v, Demand(re, orbit))
    requires forall T :: Eval(q, T) <==> Eval(simple.query, T) && (simple.exact.Some? ==> Required(simple.exact.value, T))
    ensures forall text, i: nat, j: nat | i <= j <= |text| :: R.Matches(re, text, i, j, orbit) ==> Eval(q, Trigrams(text))
    ensures v.exact.Some? ==> forall T :: Eval(q, T) <==> Required(v.exact.value, T)
    ensures strict ==> AsksEnough(q, re, orbit)
  {
    hide *;
    QueryIsRight(v, re, orbit, simple, q);
    if strict {
      QueryAsksEnough(v, re, orbit, simple, q);
      if re.Literal? && !re.fold {
        LiteralQuery(q, re.runes, orbit);
      }
      AsksEnoughIs(q, re, orbit);
    }
  }

  /** The query asks for the trigrams that each match has, and for a literal for exactly these. */
  ghost predicate AsksEnough(q: Query, re: R.Regexp, orbit: R.Orbit)
    requires R.WellFormed(re)
  {
    && (forall T :: Eval(q, T) ==> Satisfies(re, orbit, T) && Needs(re) <= T)
    && (re.Literal? && !re.fold ==> forall T :: Eval(q, T) <==> Trigrams(EncodeAll(re.runes)) <= T)
  }

  lemma AsksEnoughIs(q: Query, re: R.Regexp, orbit: R.Orbit)
    requires R.WellFormed(re) && forall T :: Eval(q, T) ==> Satisfies(re, orbit, T) && Needs(re) <= T
    requires re.Literal? && !re.fold ==> forall T :: Eval(q, T) <==> Trigrams(EncodeAll(re.runes)) <= T
    ensures AsksEnough(q, re, orbit)
  {
  }

  lemma FreeIs(re: R.Regexp, orbit: R.Orbit, grow: Growth)
    requires R.WellFormed(re)
    ensures RoomFree(re, orbit, grow, true) ==> RoomFree(re, orbit, grow, false)
    ensures re.Literal? ==> RoomFree(re, orbit, grow, true)
  {
    if RoomFree(re, orbit, grow, true) {
      StrictIsFree(re, orbit, grow);
    }
  }

  lemma QueryAsksEnough(v: Info, re: R.Regexp, orbit: R.Orbit, simple: Info, q: Query)
    requires R.WellFormed(re) && Valid(v) && Enforces(v, Demand(re, orbit)) && IsSimple(v, true, simple)
    requires forall T :: Eval(q, T) <==> Eval(simple.query, T) && (simple.exact.Some? ==> Required(simple.exact.value, T))
    ensures forall T :: Eval(q, T) ==> Satisfies(re, orbit, T) && Needs(re) <= T
  {
    var final := simple.(query := q);
    assert Final(simple, final);
    hide *;
    SimpleIsSimplified(v, true, simple);
    forall T | Eval(q, T)
      ensures Satisfies(re, orbit, T) && Needs(re) <= T
    {
      FinalMeets(v, simple, final, Demand(re, orbit), T);
      DemandIs(re, orbit, T);
      DemandsNeeds(re, orbit, T);
    }
  }

  lemma RightSlicesAre(info: SliceInfo, re: R.Regexp, orbit: R.Orbit, sets: Sets, cap: nat, strict: bool)
    requires R.WellFormed(re) && RightSlices(info, re, orbit, sets, cap, strict)
    ensures Proper(info) && Apart(info) && Regular(info) && Right(Value(info), re, orbit) && Valid(Value(info))
    ensures SetsOf(Value(info)) == sets && Value(info).exact == sets.exact
    ensures strict ==> Enforces(Value(info), Demand(re, orbit))
    ensures info.exact.Some? ==> info.exact.value.arr.Length == cap && |Value(info).exact.value| == info.exact.value.len
  {
  }

  /** addExact, at the end of RegexpQuery */
  method FinishInPlace(info: SliceInfo) returns (q: Query)
    requires Proper(info)
    ensures WellFormed(q) && Solid(q)
    ensures forall T :: Eval(q, T) <==>
                        Eval(Value(info).query, T) && (Value(info).exact.Some? ==> Required(Value(info).exact.value, T))
  {
    hide Eval, Required, WellFormed, Solid;
    q := info.query;
    if info.exact.Some? {
      q := AndTrigrams(q, info.exact.value.arr[..info.exact.value.len]);
    }
  }

  lemma QueryIsRight(v: Info, re: R.Regexp, orbit: R.Orbit, simple: Info, q: Query)
    requires R.WellFormed(re) && Right(v, re, orbit) && IsSimple(v, true, simple)
    requires forall T :: Eval(q, T) <==> Eval(simple.query, T) && (simple.exact.Some? ==> Required(simple.exact.value, T))
    ensures forall text, i: nat, j: nat | i <= j <= |text| :: R.Matches(re, text, i, j, orbit) ==> Eval(q, Trigrams(text))
    ensures v.exact.Some? ==> forall T :: Eval(q, T) <==> Required(v.exact.value, T)
  {
    var final := simple.(query := q);
    assert Final(simple, final);
    hide *;
    SimpleIsSimplified(v, true, simple);
    RightQuery(v, re, orbit, simple, final);
    if v.exact.Some? {
      QueryIsExact(v, re, orbit, simple, final);
    }
  }
}