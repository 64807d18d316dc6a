/** A regexp whose query on slices asks for nothing although all its matches have a trigram in common, because the
    exact set of an alternation is written over before it is asked for (internal/codesearch/index/regexp.go). */
module LostDemands {
  import opened Bytes
  import opened Utf8
  import opened StringSets
  import opened Queries
  import opened Demands
  import opened Analysis
  import opened StorageReuse
  import opened SharedUnions
  import opened SliceInfos
  import opened MixedAlternate
  import opened MixedQueries
  import opened SliceAnalysis
  import opened LostFiles
  import R = RegexpSyntax

  const Xyz: Str := [120, 121, 122]
  const Wxyz: Str := [119, 120, 121, 122]
  const Vxyz: Str := [118, 120, 121, 122]
  const Axyz: Str := [97, 120, 121, 122]
  const Bxyz: Str := [98, 120, 121, 122]

  const AbXyz := R.Concat([R.CharClass([97, 98]), R.Literal([120, 121, 122], false)])

  /** xyz|wxyz|vxyz|[ab]xyz */
  const XyzRe := R.Alternate([R.Literal([120, 121, 122], false), R.Literal([119, 120, 121, 122], false),
                              R.Literal([118, 120, 121, 122], false), AbXyz])

  const Literals: seq<Str> := [Vxyz, Wxyz, Xyz]

  // ------------------------------------------------------------------- what is needed

  lemma EncodeThree(a: Byte, b: Byte, c: Byte)
    requires a < 0x80 && b < 0x80 && c < 0x80
    ensures EncodeAll([a, b, c]) == [a, b, c]
  {
    var rs: seq<int> := [a, b, c];
    EncodeTwo(b, c);
    assert rs[1..] == [b, c];
  }

  lemma EncodeFour(a: Byte, b: Byte, c: Byte, d: Byte)
    requires a < 0x80 && b < 0x80 && c < 0x80 && d < 0x80
    ensures EncodeAll([a, b, c, d]) == [a, b, c, d]
  {
    var rs: seq<int> := [a, b, c, d];
    EncodeThree(b, c, d);
    assert rs[1..] == [b, c, d];
  }

  lemma FourTrigrams(a: Byte, b: Byte, c: Byte, d: Byte)
    ensures Trigrams([a, b, c, d]) == {[a, b, c], [b, c, d]}
  {
    var w: Str := [a, b, c, d];
    assert Window(w, 0) == [a, b, c] && Window(w, 1) == [b, c, d];
    forall t | t in Trigrams(w)
      ensures t in {[a, b, c], [b, c, d]}
    {
      var i :| 0 <= i <= |w| - 3 && t == Window(w, i);
      assert i == 0 || i == 1;
    }
  }

  lemma XyzIsWellFormed()
    ensures R.WellFormed(XyzRe) && R.WellFormed(AbXyz)
  {
    assert [97, 98][2..] == [];
  }

  /** Each match has the trigram xyz. */
  lemma XyzIsNeeded()
    ensures Needs(XyzRe) == {Xyz}
  {
    var x, w, v := R.Literal([120, 121, 122], false), R.Literal([119, 120, 121, 122], false), R.Literal([118, 120, 121, 122], false);
    EncodeThree(120, 121, 122);
    EncodeFour(119, 120, 121, 122);
    EncodeFour(118, 120, 121, 122);
    OneTrigram(120, 121, 122);
    FourTrigrams(119, 120, 121, 122);
    FourTrigrams(118, 120, 121, 122);
    assert Needs(x) == {Xyz};
    assert Needs(AbXyz) == {Xyz} by {
      var class_ := R.CharClass([97, 98]);
      assert Needs(class_) == {};
      assert x in [class_, x];
    }
    hide EncodeAll, Trigrams;
    var subs := [x, w, v, AbXyz];
    forall s | s in subs
      ensures Xyz in Needs(s)
    {
    }
  }

  lemma NothingSatisfies(orbit: R.Orbit)
    ensures R.WellFormed(XyzRe) && !Satisfies(XyzRe, orbit, {})
  {
    XyzIsWellFormed();
    XyzIsNeeded();
    if Satisfies(XyzRe, orbit, {}) {
      DemandsNeeds(XyzRe, orbit, {});
    }
  }

  // ---------------------------------------------------------------- what is written over

  /** The suffix yz sorts first, and three strings sort before wxyz. */
  lemma SuffixOrder()
    ensures Before([121, 122], Xyz, true) && Before(Xyz, Vxyz, true) && Before(Vxyz, Wxyz, true)
  {
    assert Reverse([122]) == [122] && Reverse([121, 122]) == [122, 121] && Reverse([120, 121, 122]) == [122, 121, 120];
    assert Vxyz[1..] == Xyz && Wxyz[1..] == Xyz && Xyz[1..] == [121, 122] && [121, 122][1..] == [122] && [122][1..] == [];
    var r, x, v, w := Reverse([121, 122]), Reverse(Xyz), Reverse(Vxyz), Reverse(Wxyz);
    assert v == x + [118] && w == x + [119];
    LessPrefix(r, x, 2);
    LessPrefix(x, v, 3);
    LessAt(v, w, 3);
  }

  lemma PrefixOrder()
    ensures StrictlySorted(Literals, false)
  {
    assert Literals[0] == Vxyz && Literals[1] == Wxyz && Literals[2] == Xyz;
  }

  lemma ThreeBefore()
    ensures |Earlier(Wxyz, Elems(Literals + [[121, 122]]), true)| >= 3
  {
    var S := Elems(Literals + [[121, 122]]);
    SuffixOrder();
    BeforeTransitive(Xyz, Vxyz, Wxyz, true);
    BeforeTransitive([121, 122], Xyz, Wxyz, true);
    assert (Literals + [[121, 122]])[3] == [121, 122];
    assert Literals[0] == Vxyz && Literals[2] == Xyz;
    hide Before;
    var three: set<Str> := {[121, 122], Xyz, Vxyz};
    assert three <= Earlier(Wxyz, S, true);
    Subset(three, Earlier(Wxyz, S, true));
  }

  /** The literals, with room for one more string. */
  method LiteralsSlice() returns (x: Slice)
    ensures Ok(x) && fresh(x.arr) && x.len == 3 && x.arr.Length == 4 && Items(x) == Literals
  {
    var arr := new Str[4](i => []);
    arr[0], arr[1], arr[2] := Vxyz, Wxyz, Xyz;
    x := Slice(arr, 3);
  }

  /** The information for [ab]xyz. */
  function AbInfo(q: Query): Info {
    Info(false, None, [[97, 120], [98, 120]], [[121, 122]], q)
  }

  lemma AbStrings(w: Str)
    requires R.WellFormed(R.CharClass([97, 98])) && R.InClass([97, 98], w)
    ensures w in {[97], [98]}
  {
    var ranges: seq<int> := [97, 98];
    assert ranges[2..] == [];
    RangeStrings(97, 98, w);
    assert EncodeRune(97) == [97] && EncodeRune(98) == [98];
    assert R.InPairs([], w) == false;
    hide EncodeRune, R.InRange;
    assert R.InRange(97, 98, w);
    var r :| 97 <= r <= 98 && w == EncodeRune(r);
  }

  lemma AbMatches(text: Str, i: nat, j: nat, orbit: R.Orbit)
    requires R.WellFormed(AbXyz) && i <= j <= |text| && R.Matches(AbXyz, text, i, j, orbit)
    ensures text[i..j] in {Axyz, Bxyz}
  {
    var class_, lit := R.CharClass([97, 98]), R.Literal([120, 121, 122], false);
    AbParts();
    EncodeThree(120, 121, 122);
    assert R.MatchesAll([class_, lit], text, i, j, orbit);
    assert [class_, lit] == [class_] + [lit] && [lit] == [lit] + [];
    hide *;
    var k := HeadMatches(class_, [lit], text, i, j, orbit);
    var m := HeadMatches(lit, [], text, k, j, orbit);
    AbAt(text, i, k, m, j, orbit);
  }

  lemma AbParts()
    ensures R.WellFormed(R.CharClass([97, 98])) && R.WellFormed(R.Literal([120, 121, 122], false))
  {
    assert [97, 98][2..] == [];
  }

  lemma AbAt(text: Str, i: nat, k: nat, m: nat, j: nat, orbit: R.Orbit)
    requires R.WellFormed(R.CharClass([97, 98])) && i <= k <= m <= j <= |text| && R.MatchesAll([], text, m, j, orbit)
    requires R.Matches(R.CharClass([97, 98]), text, i, k, orbit) && R.Matches(R.Literal([120, 121, 122], false), text, k, m, orbit)
    requires EncodeAll([120, 121, 122]) == Xyz
    ensures text[i..j] in {Axyz, Bxyz}
  {
    AbStrings(text[i..k]);
    hide R.InClass, EncodeAll;
    assert text[k..m] == EncodeAll([120, 121, 122]);
    assert m == j && text[i..j] == text[i..k] + text[k..j];
    assert [97] + Xyz == Axyz && [98] + Xyz == Bxyz;
  }

  lemma AbCovers(q: Query, w: Str, T: set<Str>)
    requires (forall T :: Eval(q, T) <==> Required([Axyz, Bxyz], T)) && w in {Axyz, Bxyz} && Trigrams(w) <= T
    ensures Covers(AbInfo(q), w, T)
  {
    var t: seq<Str> := [Axyz, Bxyz];
    assert t[0] in t && t[1] in t;
    var info := AbInfo(q);
    assert info.prefix[0] in info.prefix && info.prefix[1] in info.prefix && info.suffix[0] in info.suffix;
    assert w[..2] == [w[0], 120] && w[2..] == [121, 122];
    assert IsAffix([w[0], 120], w, false) && IsAffix([121, 122], w, true);
  }

  /** The information for [ab]xyz is right. */
  lemma AbRight(q: Query, orbit: R.Orbit)
    requires WellFormed(q) && Solid(q) && forall T :: Eval(q, T) <==> Required([Axyz, Bxyz], T)
    ensures R.WellFormed(AbXyz) && Right(AbInfo(q), AbXyz, orbit)
  {
    XyzIsWellFormed();
    forall text, i: nat, j: nat, T
      ensures SoundAt(AbInfo(q), AbXyz, text, i, j, T, orbit)
    {
      hide R.Matches, R.WellFormed, Covers, Required;
      if i <= j <= |text| && R.Matches(AbXyz, text, i, j, orbit) && Trigrams(text[i..j]) <= T {
        AbMatches(text, i, j, orbit);
        AbCovers(q, text[i..j], T);
      }
    }
  }

  lemma LiteralMeans(a: seq<int>, text: Str, i: nat, j: nat, orbit: R.Orbit)
    requires i <= j <= |text|
    ensures R.WellFormed(R.Literal(a, false)) && (R.Matches(R.Literal(a, false), text, i, j, orbit) <==> text[i..j] == EncodeAll(a))
  {
    hide EncodeAll;
  }

  lemma EitherOf(subs: seq<R.Regexp>, text: Str, i: nat, j: nat, orbit: R.Orbit)
    requires (forall s | s in subs :: R.WellFormed(s)) && i <= j <= |text|
    ensures R.WellFormed(R.Alternate(subs))
    ensures R.Matches(R.Alternate(subs), text, i, j, orbit) <==> exists s | s in subs :: R.Matches(s, text, i, j, orbit)
  {
  }

  lemma OneOfThree(a: seq<int>, b: seq<int>, c: seq<int>, text: Str, i: nat, j: nat, orbit: R.Orbit)
    requires i <= j <= |text|
    ensures var re := R.Alternate([R.Literal(a, false), R.Literal(b, false), R.Literal(c, false)]);
            R.WellFormed(re) &&
            (R.Matches(re, text, i, j, orbit) <==> text[i..j] == EncodeAll(a) || text[i..j] == EncodeAll(b) || text[i..j] == EncodeAll(c))
  {
    var subs := [R.Literal(a, false), R.Literal(b, false), R.Literal(c, false)];
    hide R.WellFormed, R.Matches, EncodeAll;
    assert subs[0] in subs && subs[1] in subs && subs[2] in subs;
    LiteralMeans(a, text, i, j, orbit);
    LiteralMeans(b, text, i, j, orbit);
    LiteralMeans(c, text, i, j, orbit);
    EitherOf(subs, text, i, j, orbit);
  }

  const ThreeLiterals := R.Alternate([R.Literal([120, 121, 122], false), R.Literal([119, 120, 121, 122], false),
                                      R.Literal([118, 120, 121, 122], false)])

  /** The information for the three literals is right. */
  lemma LiteralsRight(orbit: R.Orbit)
    ensures R.WellFormed(ThreeLiterals) && Right(ExactInfo(Literals, false, AllQuery), ThreeLiterals, orbit)
  {
    var info := ExactInfo(Literals, false, AllQuery);
    EncodeThree(120, 121, 122);
    EncodeFour(119, 120, 121, 122);
    EncodeFour(118, 120, 121, 122);
    assert Literals[0] == Vxyz && Literals[1] == Wxyz && Literals[2] == Xyz;
    forall text, i: nat, j: nat | i <= j <= |text|
      ensures R.Matches(ThreeLiterals, text, i, j, orbit) <==> text[i..j] in Literals
    {
      hide EncodeAll;
      OneOfThree([120, 121, 122], [119, 120, 121, 122], [118, 120, 121, 122], text, i, j, orbit);
    }
    hide R.Matches, EncodeAll, R.WellFormed;
    ThreeAreRight(orbit);
  }

  lemma ThreeAreRight(orbit: R.Orbit)
    requires R.WellFormed(ThreeLiterals)
    requires forall text, i: nat, j: nat | i <= j <= |text| :: R.Matches(ThreeLiterals, text, i, j, orbit) <==> text[i..j] in Literals
    ensures Right(ExactInfo(Literals, false, AllQuery), ThreeLiterals, orbit)
  {
    hide R.Matches, R.WellFormed;
    var info := ExactInfo(Literals, false, AllQuery);
    forall text, i: nat, j: nat, T
      ensures SoundAt(info, ThreeLiterals, text, i, j, T, orbit)
    {
    }
    forall text, i: nat, j: nat
      ensures ExactAt(info, ThreeLiterals, text, i, j, orbit)
    {
    }
  }

  lemma LiteralsPushed(h: Held, q: Query)
    requires Whole(h) && Front(h) == Literals && |h.all| == 4 && WellFormed(q) && Solid(q)
    ensures Sides(Front(h), AbInfo(q)) && !HasRoom(h, 2) && HasRoom(h, 1) && Valid(ExactInfo(Literals, false, AllQuery))
    ensures !Untouched(Front(h), HasRoom(h, 1), [[121, 122]])
  {
    PrefixOrder();
    ThreeBefore();
    assert Literals[1] == Wxyz;
    assert AllLong(Literals);
  }

  /** The end of RegexpQuery asks for nothing more when the sets have short strings. */
  method FinishShort(info: Info, ghost T: set<Str>) returns (q: Query)
    requires Valid(info) && info.exact.None? && !AllLong(info.prefix) && !AllLong(info.suffix) && Eval(info.query, T)
    ensures Eval(q, T)
  {
    hide SimpleSets, Tidy;
    var simple := Simplify(info, true);
    var final := AddExact(simple);
    q := final.query;
  }

  lemma ShortEnds(h: Held, yPrefix: seq<Str>, ySuffix: seq<Str>)
    requires Whole(h) && !HasRoom(h, |yPrefix|)
    ensures var e := FinalEnds(h, h.len, yPrefix, ySuffix); !AllLong(e.prefix) && !AllLong(e.suffix)
  {
    var u := UnionEnds(h, h.len, yPrefix, ySuffix);
    SimplifiedMeans(u.prefix, false);
    SimplifiedMeans(u.suffix, true);
    hide SimplifiedSet, UnionEnds, Shortens;
    var e := FinalEnds(h, h.len, yPrefix, ySuffix);
    assert e.prefix != [] ==> e.prefix[0] in e.prefix;
    assert e.suffix != [] ==> e.suffix[0] in e.suffix;
  }

  /** What is known before the alternation. */
  lemma BeforeLoss(h: Held, q: Query)
    requires Whole(h) && Front(h) == Literals && |h.all| == 4 && WellFormed(q) && Solid(q)
    ensures FinalQuery(h, AllQuery, AbInfo(q), {})
    ensures var e := FinalEnds(h, h.len, AbInfo(q).prefix, AbInfo(q).suffix); !AllLong(e.prefix) && !AllLong(e.suffix)
  {
    LiteralsPushed(h, q);
    var x, y := ExactInfo(Literals, false, AllQuery), AbInfo(q);
    assert |y.prefix| == 2 && |y.suffix| == 1;
    hide FinalQuery, Untouched, Sides, Valid, FinalEnds, AllLong;
    EmptyMeets(h, x, y);
    ShortEnds(h, y.prefix, y.suffix);
  }

  /** xyz|wxyz|vxyz|[ab]xyz: the second union is written over the exact set, which then has the short string yz, so
      that nothing is asked of its side. The query holds without any trigram, although each match has xyz. */
  method LoseDemand(orbit: R.Orbit, grow: Growth) returns (q: Query)
    ensures R.WellFormed(XyzRe) && Needs(XyzRe) == {Xyz} && !Satisfies(XyzRe, orbit, {}) && Eval(q, {})
  {
    hide FinalEnds, FinalQuery, Enclosed, CoversBoth, KeepsBoth, FinalArray, Valid, WellFormed, Solid, Sides, Eval, Needs, Satisfies,
         R.WellFormed, AllLong, Required;
    NothingSatisfies(orbit);
    XyzIsNeeded();
    QueriesAreRight();
    var x := LiteralsSlice();
    var yq := AndTrigrams(AllQuery, [Axyz, Bxyz]);
    BeforeLoss(Memory(x), yq);
    var slices := AlternateMixed(x, false, AllQuery, AbInfo(yq), grow);
    var out := ValueOf(slices);
    OpenIsValid(slices, out);
    q := FinishShort(out, {});
  }
}
