/** Four regexps whose query rules out a text that they match, because alternate puts both unions into one array
    (internal/codesearch/index/regexp.go). */
module LostFiles {
  import opened Bytes
  import opened Utf8
  import opened StringSets
  import opened Queries
  import opened Demands
  import opened Analysis
  import opened StorageReuse
  import opened SharedUnions
  import opened SliceInfos
  import opened MixedAlternate
  import opened MixedCases
  import opened SliceAnalysis
  import R = RegexpSyntax

  /** The end of RegexpQuery does not make a query true that is false. */
  method Finish(info: Info, ghost T: set<Str>) returns (q: Query)
    requires Valid(info) && !Eval(info.query, T)
    ensures !Eval(q, T)
  {
    hide SimpleSets, SimpleQuery, Tidy, IsSimple;
    var simple := Simplify(info, true);
    var final := AddExact(simple);
    q := final.query;
  }

  function LiteralInfo(lit: Str): Info {
    Info(false, Some([lit]), [], [], AllQuery)
  }

  lemma LiteralIsValid(lit: Str)
    ensures Valid(LiteralInfo(lit)) && WellFormed(LiteralInfo(lit).query)
  {
  }

  lemma ValidIsWellFormed(info: Info)
    requires Valid(info)
    ensures WellFormed(info.query)
  {
  }

  lemma JoinFails(x: Info, y: Info, out: Info, T: set<Str>)
    requires Concatenates(x, y, out) && Valid(x) && Valid(y) && !(x.exact.Some? && y.exact.Some?)
    requires (y.exact.Some? && !JoinsRequired(x.suffix, y.exact.value, T)) || (x.exact.Some? && !JoinsRequired(x.exact.value, y.prefix, T))
    ensures Valid(out) && !Eval(out.query, T)
  {
    hide CoversJoins, Valid, Eval, JoinsRequired, SeamRequired, JoinsOnly;
  }

  /** The query of an alternation followed by an ASCII literal asks for a suffix in front of the literal. */
  method InFrontOf(info: Info, lit: Str, ghost T: set<Str>) returns (q: Query)
    requires Valid(info) && info.exact.None? && !JoinsRequired(info.suffix, [lit], T)
    ensures !Eval(q, T)
  {
    hide Valid, Concatenates, JoinsRequired, Tidy, SimpleSets, JoinedSets, Eval, WellFormed;
    LiteralIsValid(lit);
    ValidIsWellFormed(info);
    var joined := Concat(info, LiteralInfo(lit));
    JoinFails(info, LiteralInfo(lit), joined, T);
    q := Finish(joined, T);
  }

  /** The query of a literal followed by an alternation asks for a prefix behind the literal. */
  method Behind(lit: Str, info: Info, ghost T: set<Str>) returns (q: Query)
    requires Valid(info) && info.exact.None? && !JoinsRequired([lit], info.prefix, T)
    ensures !Eval(q, T)
  {
    hide Valid, Concatenates, JoinsRequired, Tidy, SimpleSets, JoinedSets, Eval, WellFormed;
    LiteralIsValid(lit);
    ValidIsWellFormed(info);
    var joined := Concat(LiteralInfo(lit), info);
    JoinFails(LiteralInfo(lit), info, joined, T);
    q := Finish(joined, T);
  }

  // ------------------------------------------------------------------------ the regexps

  /** The letters a, b and d. */
  const Letters := R.CharClass([97, 98, 100, 100])
  const LettersInfo := Info(false, Some([[97], [98], [100]]), [], [], AllQuery)

  lemma LetterStrings(w: Str, orbit: R.Orbit)
    ensures R.WellFormed(Letters) && (R.InClass([97, 98, 100, 100], w) <==> w in LettersInfo.exact.value)
  {
    var ranges: seq<int> := [97, 98, 100, 100];
    assert ranges[2..] == [100, 100] && ranges[2..][2..] == [];
    RangeStrings(97, 98, w);
    RangeStrings(100, 100, w);
    assert forall r :: 97 <= r <= 100 ==> EncodeRune(r) == [r];
    hide R.InRange, EncodeRune;
    assert R.InPairs([], w) == false;
    assert R.InPairs(ranges[2..], w) <==> R.InRange(100, 100, w);
    assert R.InPairs(ranges, w) <==> R.InRange(97, 98, w) || R.InPairs(ranges[2..], w);
    assert R.InRange(97, 98, w) <==> w == [97] || w == [98] by {
      assert EncodeRune(97) == [97] && EncodeRune(98) == [98];
    }
    assert R.InRange(100, 100, w) <==> w == [100] by {
      assert EncodeRune(100) == [100];
    }
  }

  lemma LettersRight(orbit: R.Orbit)
    ensures R.WellFormed(Letters) && Right(LettersInfo, Letters, orbit)
  {
    forall w
      ensures R.WellFormed(Letters) && (R.InClass([97, 98, 100, 100], w) <==> w in LettersInfo.exact.value)
    {
      LetterStrings(w, orbit);
    }
    hide R.InClass, R.Pairs, Right;
    ExactClassRight([97, 98, 100, 100], [[97], [98], [100]], orbit);
  }

  /** An ASCII character, anything, and another one. */
  function Around(a: Byte, b: Byte): R.Regexp {
    R.Concat([R.Literal([a], false), R.Star(R.AnyCharNotNL), R.Literal([b], false)])
  }

  function AroundInfo(a: Byte, b: Byte): Info {
    Info(false, None, [[a]], [[b]], AllQuery)
  }

  lemma EncodeAscii(a: Byte)
    requires a < 0x80
    ensures EncodeAll([a]) == [a]
  {
    var rs: seq<int> := [a];
    assert EncodeAll(rs) == EncodeRune(a) + EncodeAll(rs[1..]);
  }

  lemma HeadMatches(s: R.Regexp, rest: seq<R.Regexp>, text: Str, i: nat, j: nat, orbit: R.Orbit) returns (k: nat)
    requires i <= j <= |text| && R.WellFormed(s) && forall t | t in rest :: R.WellFormed(t)
    requires R.MatchesAll([s] + rest, text, i, j, orbit)
    ensures i <= k <= j && R.Matches(s, text, i, k, orbit) && R.MatchesAll(rest, text, k, j, orbit)
  {
    assert ([s] + rest)[0] == s && ([s] + rest)[1..] == rest;
    k :| i <= k <= j && R.Matches(s, text, i, k, orbit) && R.MatchesAll(rest, text, k, j, orbit);
  }

  lemma AroundEnds(a: Byte, b: Byte, text: Str, i: nat, j: nat, orbit: R.Orbit)
    requires a < 0x80 && b < 0x80 && i <= j <= |text| && R.WellFormed(Around(a, b))
    requires R.Matches(Around(a, b), text, i, j, orbit)
    ensures i < j && text[i] == a && text[j - 1] == b
  {
    var la, any, lb := R.Literal([a], false), R.Star(R.AnyCharNotNL), R.Literal([b], false);
    assert R.WellFormed(la) && R.WellFormed(any) && R.WellFormed(lb) && R.MatchesAll([la, any, lb], text, i, j, orbit);
    hide *;
    assert [la, any, lb] == [la] + [any, lb] && [la, any, lb] == [la, any] + [lb];
    var k := HeadMatches(la, [any, lb], text, i, j, orbit);
    var m := R.MatchesAllSplit([la, any], lb, text, i, j, orbit);
    AsciiAt(a, text, i, k, orbit);
    AsciiAt(b, text, m, j, orbit);
  }

  lemma AsciiAt(a: Byte, text: Str, i: nat, j: nat, orbit: R.Orbit)
    requires a < 0x80 && i <= j <= |text| && R.Matches(R.Literal([a], false), text, i, j, orbit)
    ensures j == i + 1 && text[i] == a
  {
    EncodeAscii(a);
    assert text[i..j] == [a];
    assert text[i..j][0] == text[i];
  }

  lemma AsciiMatches(a: Byte, text: Str, i: nat, orbit: R.Orbit)
    requires a < 0x80 && i < |text| && text[i] == a
    ensures R.Matches(R.Literal([a], false), text, i, i + 1, orbit)
  {
    EncodeAscii(a);
    assert text[i..i + 1] == [a];
  }

  lemma AroundPair(a: Byte, b: Byte, text: Str, i: nat, orbit: R.Orbit)
    requires a < 0x80 && b < 0x80 && i + 2 <= |text| && text[i] == a && text[i + 1] == b
    ensures R.WellFormed(Around(a, b)) && R.Matches(Around(a, b), text, i, i + 2, orbit)
  {
    var la, any, lb := R.Literal([a], false), R.Star(R.AnyCharNotNL), R.Literal([b], false);
    AsciiMatches(a, text, i, orbit);
    AsciiMatches(b, text, i + 1, orbit);
    assert R.Matches(any, text, i + 1, i + 1, orbit);
    assert R.MatchesAll([], text, i, i, orbit);
    assert [] + [la] == [la] && [la] + [any] == [la, any] && [la, any] + [lb] == [la, any, lb];
    hide R.MatchesAll, R.MatchesRepeat;
    R.MatchesAllAppend([], la, text, i, i, i + 1, orbit);
    R.MatchesAllAppend([la], any, text, i, i + 1, i + 1, orbit);
    R.MatchesAllAppend([la, any], lb, text, i, i + 1, i + 2, orbit);
  }

  lemma AroundRight(a: Byte, b: Byte, orbit: R.Orbit)
    requires a < 0x80 && b < 0x80
    ensures R.WellFormed(Around(a, b)) && Right(AroundInfo(a, b), Around(a, b), orbit)
  {
    var info := AroundInfo(a, b);
    forall text, i: nat, j: nat, T
      ensures SoundAt(info, Around(a, b), text, i, j, T, orbit)
    {
      hide R.Matches, R.WellFormed, Covers, Around;
      if i <= j <= |text| && R.Matches(Around(a, b), text, i, j, orbit) && Trigrams(text[i..j]) <= T {
        AroundEnds(a, b, text, i, j, orbit);
        AroundCovers(a, b, text, i, j, T);
      }
    }
  }

  lemma AroundCovers(a: Byte, b: Byte, text: Str, i: nat, j: nat, T: set<Str>)
    requires i < j <= |text| && text[i] == a && text[j - 1] == b && Trigrams(text[i..j]) <= T
    ensures Covers(AroundInfo(a, b), text[i..j], T)
  {
    var info, w := AroundInfo(a, b), text[i..j];
    assert w[0] == a && w[|w| - 1] == b;
    assert w[..1] == [a] && w[|w| - 1..] == [b];
    assert [a] in info.prefix && [b] in info.suffix;
    assert IsAffix([a], w, false) && IsAffix([b], w, true);
  }

  lemma PairMatches(s: R.Regexp, t: R.Regexp, text: Str, k: nat, orbit: R.Orbit)
    requires R.WellFormed(s) && R.WellFormed(t) && k <= |text|
    requires R.Matches(s, text, 0, k, orbit) && R.Matches(t, text, k, |text|, orbit)
    ensures R.WellFormed(R.Concat([s, t])) && R.Matches(R.Concat([s, t]), text, 0, |text|, orbit)
  {
    assert [s, t][1..] == [t] && [t][1..] == [];
    assert R.MatchesAll([], text, |text|, |text|, orbit);
    assert R.MatchesAll([t], text, k, |text|, orbit);
    assert R.MatchesAll([s, t], text, 0, |text|, orbit);
  }

  lemma EitherMatches(s: R.Regexp, t: R.Regexp, text: Str, i: nat, j: nat, orbit: R.Orbit)
    requires R.WellFormed(s) && R.WellFormed(t) && i <= j <= |text|
    requires R.Matches(s, text, i, j, orbit) || R.Matches(t, text, i, j, orbit)
    ensures R.WellFormed(R.Alternate([s, t])) && R.Matches(R.Alternate([s, t]), text, i, j, orbit)
  {
    assert s in [s, t] && t in [s, t];
  }

  // -------------------------------------------------------------------------- the runs

  /** The unions of single bytes u and v, when the first is not longer than the second. */
  lemma OneByteRun(h: Held, yPrefix: seq<Str>, ySuffix: seq<Str>, u: seq<Str>, v: seq<Str>)
    requires Whole(h) && RoomForBoth(h, h.len, yPrefix, ySuffix)
    requires OneByte(Front(h)) && OneByte(yPrefix) && OneByte(ySuffix) && h.len <= |u| <= |v| <= MaxSet
    requires SameElements(u, Front(h) + yPrefix) && StrictlySorted(u, false)
    requires SameElements(v, u[..h.len] + ySuffix) && StrictlySorted(v, true)
    ensures FinalEnds(h, h.len, yPrefix, ySuffix) == Ends(v[..|u|], v)
    ensures FinalArray(h, h.len, yPrefix, ySuffix) == AfterBoth(h, h.len, yPrefix, ySuffix)
    ensures Front(AfterBoth(h, h.len, yPrefix, ySuffix)) == v
  {
    CleanedMeans(Front(h) + yPrefix, false);
    StrictlySortedUnique(Cleaned(Front(h) + yPrefix, false), u, false);
    UnionFront(h, yPrefix, false, h.len);
    CleanedMeans(u[..h.len] + ySuffix, true);
    StrictlySortedUnique(Cleaned(u[..h.len] + ySuffix, true), v, true);
    FirstAndSecond(h, h.len, yPrefix, ySuffix);
    UnionsOneByte(h, h.len, yPrefix, ySuffix);
    hide Cleaned, UnionIn, SimplifiedIn;
    OneByteShorter(FirstInBoth(h, h.len, yPrefix, ySuffix), AfterBoth(h, h.len, yPrefix, ySuffix));
    EndsInBoth(h, h.len, yPrefix, ySuffix);
  }

  lemma Ascending4(a: Byte, b: Byte, c: Byte, d: Byte, isSuffix: bool)
    requires a < b < c < d
    ensures StrictlySorted([[a], [b], [c], [d]], isSuffix)
  {
    var t: seq<Str> := [[a], [b], [c], [d]];
    forall i, j | 0 <= i < j < 4
      ensures Before(t[i], t[j], isSuffix)
    {
      OneByteOrder(t[i], t[j]);
    }
  }

  /** A text of three bytes has one trigram. */
  lemma OneTrigram(a: Byte, b: Byte, c: Byte)
    ensures Trigrams([a, b, c]) == {[a, b, c]}
  {
    var w: Str := [a, b, c];
    assert Window(w, 0) == w;
  }

  ghost predicate Loses(q: Query, re: R.Regexp, text: Str, orbit: R.Orbit) {
    R.WellFormed(re) && R.Matches(re, text, 0, |text|, orbit) && !Eval(q, Trigrams(text))
  }

  /** The set of the letters, with room for one more string. */
  method LettersSlice() returns (x: Slice)
    ensures Ok(x) && fresh(x.arr) && x.len == 3 && x.arr.Length == 4 && Items(x) == [[97], [98], [100]]
    ensures StrictlySorted(Items(x), false) && OneByte(Items(x))
  {
    var arr := new Str[4](i => []);
    arr[0], arr[1], arr[2] := [97], [98], [100];
    x := Slice(arr, 3);
    Ascending4(97, 98, 100, 101, false);
    var t: seq<Str> := [[97], [98], [100], [101]];
    assert Items(x) == t[..3];
    FrontOfSorted(t, 3, false);
  }

  /** What the letters in alternation with a side of single bytes u and v stand for. */
  ghost predicate LettersUnions(y: Info, u: seq<Str>, v: seq<Str>) {
    && y.exact.None? && Valid(y) && OneByte(y.prefix) && OneByte(y.suffix) && |y.prefix| == |y.suffix| == 1
    && 3 <= |u| <= |v| <= MaxSet
    && SameElements(u, [[97], [98], [100]] + y.prefix) && StrictlySorted(u, false)
    && SameElements(v, u[..3] + y.suffix) && StrictlySorted(v, true)
  }

  /** alternate of the letters and another side, in an array with room for one more string. */
  method LettersOr(y: Info, ghost u: seq<Str>, ghost v: seq<Str>) returns (out: Info)
    requires LettersUnions(y, u, v)
    ensures Valid(out) && out.exact.None? && out.prefix == v[..|u|] && out.suffix == v
  {
    hide *;
    var x := LettersSlice();
    LettersSides(x, y, u, v);
    SolidQueries(y);
    out := Alternated(x, y, (cap, len) => 0, v[..|u|], v);
  }

  /** alternate with one exact side, and what its sets read as. */
  method Alternated(x: Slice, y: Info, grow: Growth, ghost prefix: seq<Str>, ghost suffix: seq<Str>) returns (out: Info)
    requires Ok(x) && y.exact.None? && WellFormed(y.query) && Solid(y.query)
    requires FinalEnds(Memory(x), x.len, y.prefix, y.suffix) == Ends(prefix, suffix)
    modifies x.arr
    ensures Valid(out) && out.exact.None? && out.prefix == prefix && out.suffix == suffix
  {
    hide FinalEnds, FinalQuery, Enclosed, CoversBoth, KeepsBoth, FinalArray, Valid, WellFormed, Solid, Sides, Eval;
    QueriesAreRight();
    var slices := AlternateMixed(x, false, AllQuery, y, grow);
    out := ValueOf(slices);
    OpenIsValid(slices, out);
  }

  lemma SolidQueries(y: Info)
    requires Valid(y)
    ensures WellFormed(y.query) && Solid(y.query) && WellFormed(AllQuery) && Solid(AllQuery)
  {
  }

  lemma OpenIsValid(slices: SliceInfo, info: Info)
    requires Proper(slices) && slices.exact.None? && info == Value(slices)
    ensures Valid(info) && info.exact.None? && Ends(info.prefix, info.suffix) == Ends(Items(slices.prefix), Items(slices.suffix))
  {
  }

  lemma LettersSides(x: Slice, y: Info, u: seq<Str>, v: seq<Str>)
    requires Ok(x) && x.len == 3 && x.arr.Length == 4 && Items(x) == [[97], [98], [100]] && LettersUnions(y, u, v)
    ensures y.exact.None? && Valid(y) && FinalEnds(Memory(x), x.len, y.prefix, y.suffix) == Ends(v[..|u|], v) && |u| <= |v|
  {
    var h := Memory(x);
    assert OneByte(Front(h));
    hide FinalEnds, StrictlySorted, FinalArray, AfterBoth, Valid;
    OneByteRun(h, y.prefix, y.suffix, u, v);
  }

  const DefRe := R.Concat([R.Alternate([Letters, Around(99, 122)]), R.Literal([101, 102], false)])
  const DefText: Str := [100, 101, 102]

  /** ([abd]|c.*z)ef on "def": "d" is pushed out of the storage of the letters, and no suffix is left for it. */
  method LoseSuffix(orbit: R.Orbit) returns (q: Query)
    ensures Loses(q, DefRe, DefText, orbit)
  {
    ghost var u: seq<Str>, v: seq<Str> := [[97], [98], [99], [100]], [[97], [98], [99], [122]];
    DefUnions();
    DefMatches(orbit);
    NoSuffixForDef();
    hide R.Matches, R.WellFormed, JoinsRequired, Trigrams, LettersUnions, Valid;
    var out := LettersOr(AroundInfo(99, 122), u, v);
    q := InFrontOf(out, [101, 102], Trigrams(DefText));
  }

  lemma DefUnions()
    ensures LettersUnions(AroundInfo(99, 122), [[97], [98], [99], [100]], [[97], [98], [99], [122]])
  {
    var u: seq<Str>, v: seq<Str> := [[97], [98], [99], [100]], [[97], [98], [99], [122]];
    Ascending4(97, 98, 99, 100, false);
    Ascending4(97, 98, 99, 122, true);
    hide StrictlySorted;
    assert u[..3] == [[97], [98], [99]];
  }

  lemma NoSuffixForDef()
    ensures !JoinsRequired([[97], [98], [99], [122]], [[101, 102]], Trigrams([100, 101, 102]))
  {
    var v: seq<Str>, lit: Str := [[97], [98], [99], [122]], [101, 102];
    OneTrigram(100, 101, 102);
    forall a, b | a in v && b in [lit]
      ensures |a| + |b| >= 3 && !(Trigrams(a + b) <= Trigrams([100, 101, 102]))
    {
      OneTrigram(a[0], 101, 102);
      assert a + b == [a[0], 101, 102];
      assert [a[0], 101, 102] in Trigrams(a + b);
    }
  }

  lemma EncodeTwo(a: Byte, b: Byte)
    requires a < 0x80 && b < 0x80
    ensures EncodeAll([a, b]) == [a, b]
  {
    var rs: seq<int> := [a, b];
    EncodeAscii(b);
    assert rs[1..] == [b];
  }

  lemma DefMatches(orbit: R.Orbit)
    ensures R.WellFormed(DefRe) && R.Matches(DefRe, DefText, 0, |DefText|, orbit)
  {
    var text: Str := [100, 101, 102];
    var ef := R.Literal([101, 102], false);
    LetterStrings([100], orbit);
    AroundPair(99, 122, [99, 122], 0, orbit);
    EncodeTwo(101, 102);
    assert text[0..1] == [100] && text[1..3] == [101, 102];
    assert R.Matches(Letters, text, 0, 1, orbit) && R.Matches(ef, text, 1, 3, orbit);
    EitherMatches(Letters, Around(99, 122), text, 0, 1, orbit);
    PairMatches(R.Alternate([Letters, Around(99, 122)]), ef, text, 1, orbit);
  }

  const AbezRe := R.Concat([R.Literal([97, 98], false), R.Alternate([Letters, Around(101, 122)])])
  const AbezText: Str := [97, 98, 101, 122]

  /** ab([abd]|e.*z) on "abez": nothing is pushed out, but the second union is written over the "e" of the first. */
  method LosePrefix(orbit: R.Orbit) returns (q: Query)
    ensures Loses(q, AbezRe, AbezText, orbit)
  {
    ghost var u: seq<Str>, v: seq<Str> := [[97], [98], [100], [101]], [[97], [98], [100], [122]];
    AbezUnions();
    AbezMatches(orbit);
    NoPrefixForAbez();
    hide R.Matches, R.WellFormed, JoinsRequired, Trigrams, LettersUnions, Valid;
    var out := LettersOr(AroundInfo(101, 122), u, v);
    assert v[..4] == v;
    q := Behind([97, 98], out, Trigrams(AbezText));
  }

  lemma AbezUnions()
    ensures LettersUnions(AroundInfo(101, 122), [[97], [98], [100], [101]], [[97], [98], [100], [122]])
  {
    var u: seq<Str>, v: seq<Str> := [[97], [98], [100], [101]], [[97], [98], [100], [122]];
    Ascending4(97, 98, 100, 101, false);
    Ascending4(97, 98, 100, 122, true);
    hide StrictlySorted;
    assert u[..3] == [[97], [98], [100]];
  }

  lemma NoPrefixForAbez()
    ensures !JoinsRequired([[97, 98]], [[97], [98], [100], [122]], Trigrams([97, 98, 101, 122]))
  {
    var v: seq<Str>, lit: Str, text: Str := [[97], [98], [100], [122]], [97, 98], [97, 98, 101, 122];
    forall t | t in Trigrams(text)
      ensures t == [97, 98, 101] || t == [98, 101, 122]
    {
      var i :| 0 <= i <= 1 && t == Window(text, i);
    }
    forall a, b | a in [lit] && b in v
      ensures |a| + |b| >= 3 && !(Trigrams(a + b) <= Trigrams(text))
    {
      OneTrigram(97, 98, b[0]);
      assert a + b == [97, 98, b[0]];
      assert [97, 98, b[0]] in Trigrams(a + b);
    }
  }

  lemma AbezMatches(orbit: R.Orbit)
    ensures R.WellFormed(AbezRe) && R.Matches(AbezRe, AbezText, 0, |AbezText|, orbit)
  {
    var text: Str := [97, 98, 101, 122];
    var ab := R.Literal([97, 98], false);
    LettersRight(orbit);
    AroundPair(101, 122, text, 2, orbit);
    EncodeTwo(97, 98);
    assert text[0..2] == [97, 98];
    assert R.Matches(ab, text, 0, 2, orbit);
    EitherMatches(Letters, Around(101, 122), text, 2, 4, orbit);
    PairMatches(ab, R.Alternate([Letters, Around(101, 122)]), text, 2, orbit);
  }

  const AbcdRe := R.Concat([R.Alternate([R.Literal([97, 98, 99], false), R.NoMatch]), R.Literal([100], false)])
  const AbcdText: Str := [97, 98, 99, 100]

  /** (?:abc|[^\x00-\x{10FFFF}])d on "abcd": the second alternative matches nothing, so both sets are in the storage
      of "abc" without any spare room, and the suffix set becomes the "ab" of the simplified prefix set. */
  method LoseShared(orbit: R.Orbit) returns (q: Query)
    ensures Loses(q, AbcdRe, AbcdText, orbit)
  {
    AbcdMatches(orbit);
    NoSuffixForAbcd();
    hide R.Matches, R.WellFormed, JoinsRequired, Trigrams;
    var out := AbcOrNothing();
    q := InFrontOf(out, [100], Trigrams(AbcdText));
  }

  method AbcOrNothing() returns (out: Info)
    ensures Valid(out) && out.exact.None? && out.suffix == [[97, 98]]
  {
    hide *;
    var x := SliceOf([[97, 98, 99]]);
    OneLong(x);
    AbcSides(x);
    out := Alternated(x, NoMatchInfo, (cap, len) => 0, [[97, 98]], [[97, 98]]);
  }

  lemma OneLong(x: Slice)
    requires Ok(x) && Items(x) == [[97, 98, 99]]
    ensures x.len == 1
  {
  }

  lemma AbcSides(x: Slice)
    requires Ok(x) && x.len == 1 && Items(x) == [[97, 98, 99]]
    ensures FinalEnds(Memory(x), x.len, NoMatchInfo.prefix, NoMatchInfo.suffix) == Ends([[97, 98]], [[97, 98]])
    ensures NoMatchInfo.exact.None? && WellFormed(NoMatchInfo.query) && Solid(NoMatchInfo.query)
  {
    var w: Str := [97, 98, 99];
    assert CutTo(w, 2, false) == [97, 98];
    hide FinalEnds, CutTo;
    OneStringFinal(Memory(x), w);
  }

  lemma NoSuffixForAbcd()
    ensures !JoinsRequired([[97, 98]], [[100]], Trigrams([97, 98, 99, 100]))
  {
    var text: Str := [97, 98, 99, 100];
    forall t | t in Trigrams(text)
      ensures t != [97, 98, 100]
    {
      var i :| 0 <= i <= 1 && t == Window(text, i);
      assert t[2] == text[i + 2];
      assert t[0] == text[i];
    }
    var a: Str, b: Str := [97, 98], [100];
    OneTrigram(97, 98, 100);
    assert a + b == [97, 98, 100];
    assert [97, 98, 100] in Trigrams(a + b);
    assert forall c, d :: c in [a] && d in [b] ==> c == a && d == b;
  }

  lemma AbcdMatches(orbit: R.Orbit)
    ensures R.WellFormed(AbcdRe) && R.Matches(AbcdRe, AbcdText, 0, |AbcdText|, orbit)
  {
    var text: Str := [97, 98, 99, 100];
    var abc, d := R.Literal([97, 98, 99], false), R.Literal([100], false);
    var rs: seq<int> := [97, 98, 99];
    EncodeTwo(98, 99);
    assert rs[1..] == [98, 99];
    assert EncodeAll(rs) == [97, 98, 99];
    assert text[0..3] == [97, 98, 99];
    AsciiMatches(100, text, 3, orbit);
    assert R.Matches(abc, text, 0, 3, orbit);
    EitherMatches(abc, R.NoMatch, text, 0, 3, orbit);
    PairMatches(R.Alternate([abc, R.NoMatch]), d, text, 3, orbit);
  }

  // ------------------------------------------------------------- a second alternation

  /** The letters b, d, f, h and j. */
  const Others := R.CharClass([98, 98, 100, 100, 102, 102, 104, 104, 106, 106])
  const OthersInfo := Info(false, Some([[98], [100], [102], [104], [106]]), [], [], AllQuery)

  const NnefRe := R.Concat([R.Alternate([Others, Around(110, 110), R.Literal([99], false)]), R.Literal([101, 102], false)])
  const NnefText: Str := [110, 110, 101, 102]

  ghost const FirstUnion: seq<Str> := [[98], [100], [102], [104], [106], [110]]
  ghost const LaterUnion: seq<Str> := [[98], [99], [100], [102], [104], [106], [110]]
  ghost const LaterSuffixes: seq<Str> := [[98], [99], [100], [102], [104], [106]]

  /** Single bytes in ascending order. */
  ghost predicate Rising(t: seq<Str>) {
    (forall i :: 0 <= i < |t| ==> |t[i]| == 1) && forall i :: 0 <= i < |t| - 1 ==> t[i][0] < t[i + 1][0]
  }

  lemma {:induction false} RisingApart(t: seq<Str>, i: nat, j: nat)
    requires Rising(t) && i < j < |t|
    ensures t[i][0] < t[j][0]
    decreases j
  {
    if i < j - 1 {
      RisingApart(t, i, j - 1);
    }
  }

  lemma RisingSorted(t: seq<Str>, isSuffix: bool)
    requires Rising(t)
    ensures StrictlySorted(t, isSuffix) && OneByte(t)
  {
    forall i, j | 0 <= i < j < |t|
      ensures Before(t[i], t[j], isSuffix)
    {
      RisingApart(t, i, j);
      OneByteOrder(t[i], t[j]);
    }
  }

  lemma RisingUnions()
    ensures Rising(FirstUnion) && Rising(LaterUnion) && Rising(LaterSuffixes)
  {
  }

  /** The set of the other letters, in an array of eight as append leaves it. */
  method OthersSlice() returns (x: Slice)
    ensures Ok(x) && fresh(x.arr) && x.len == 5 && x.arr.Length == 8
    ensures Items(x) == [[98], [100], [102], [104], [106]]
  {
    var arr := new Str[8](i => []);
    arr[0], arr[1], arr[2], arr[3], arr[4] := [98], [100], [102], [104], [106];
    x := Slice(arr, 5);
  }

  /** n.*n finds room behind the letters, and nothing is lost yet. */
  lemma FirstRun(x: Slice)
    requires Ok(x) && x.len == 5 && x.arr.Length == 8 && Items(x) == [[98], [100], [102], [104], [106]]
    ensures var h := Memory(x);
            && RoomForBoth(h, 5, [[110]], [[110]]) && FinalEnds(h, 5, [[110]], [[110]]) == Ends(FirstUnion, FirstUnion)
            && Front(FinalArray(h, 5, [[110]], [[110]])) == FirstUnion && |FinalArray(h, 5, [[110]], [[110]]).all| == 8
  {
    var h, u := Memory(x), FirstUnion;
    RisingUnions();
    RisingSorted(u, false);
    RisingSorted(u, true);
    hide FinalEnds, FinalArray, AfterBoth, StrictlySorted, Rising;
    assert u[..5] == Front(h) && u[..6] == u && u == Front(h) + [[110]];
    assert OneByte(Front(h)) && OneByte([[110]]);
    OneByteRun(h, [[110]], [[110]], u, u);
  }

  /** The first union of c, and what the suffixes read as after it. */
  lemma SecondFirst(h: Held)
    requires Whole(h) && h.len == 6 && |h.all| == 8 && Front(h) == FirstUnion
    ensures Cleaned(Front(h) + [[99]], false) == LaterUnion && Front(AfterFirst(h, 6, [[99]])) == LaterSuffixes
  {
    var u, t: seq<Str> := LaterUnion, Front(h) + [[99]];
    RisingUnions();
    RisingSorted(u, false);
    CleanedMeans(t, false);
    assert t == [[98], [100], [102], [104], [106], [110], [99]];
    assert SameElements(u, t);
    hide Cleaned, StrictlySorted, Rising;
    StrictlySortedUnique(Cleaned(t, false), u, false);
    UnionFront(h, [[99]], false, 6);
    assert u[..6] == LaterSuffixes;
  }

  lemma SecondSecond(h: Held)
    requires Whole(h) && h.len == 6 && |h.all| == 8 && Front(h) == FirstUnion
    ensures Front(AfterBoth(h, 6, [[99]], [[99]])) == LaterSuffixes
    ensures Cleaned(Front(AfterFirst(h, 6, [[99]])) + [[99]], true) == LaterSuffixes
  {
    SecondFirst(h);
    var v, t: seq<Str> := LaterSuffixes, Front(AfterFirst(h, 6, [[99]])) + [[99]];
    RisingUnions();
    RisingSorted(v, true);
    CleanedMeans(t, true);
    assert t == [[98], [99], [100], [102], [104], [106], [99]];
    assert SameElements(v, t);
    hide Cleaned, StrictlySorted, Rising, AfterFirst;
    StrictlySortedUnique(Cleaned(t, true), v, true);
  }

  /** All strings of the shared array up to the end of the prefixes are suffixes of then. */
  lemma SecondPrefixes(h: Held)
    requires Whole(h) && h.len == 6 && |h.all| == 8 && Front(h) == FirstUnion
    ensures var prefix := Front(FirstInBoth(h, 6, [[99]], [[99]]));
            |prefix| == 7 && Cleaned(prefix, false) == LaterSuffixes
  {
    var v, g := LaterSuffixes, AfterFirst(h, 6, [[99]]);
    var prefix := Front(FirstInBoth(h, 6, [[99]], [[99]]));
    SecondFirst(h);
    SecondSecond(h);
    FirstAndSecond(h, 6, [[99]], [[99]]);
    UnionBetween(g, [[99]], true, 6);
    assert prefix[6] in v;
    assert prefix == v + [prefix[6]];
    RisingUnions();
    RisingSorted(v, false);
    CleanedMeans(prefix, false);
    hide Cleaned, StrictlySorted, Rising, AfterFirst, FirstInBoth;
    assert SameElements(v, prefix);
    StrictlySortedUnique(Cleaned(prefix, false), v, false);
  }

  /** Then c is written into the same array twice, and the suffixes no longer have n. */
  lemma SecondRun(h: Held)
    requires Whole(h) && h.len == 6 && |h.all| == 8 && Front(h) == FirstUnion
    ensures FinalEnds(h, 6, [[99]], [[99]]).suffix == LaterSuffixes
  {
    SecondFirst(h);
    SecondSecond(h);
    SecondPrefixes(h);
    RisingUnions();
    RisingSorted(FirstUnion, false);
    assert Front(h) == h.all[..6] && OneByte([[99]]);
    hide Cleaned, FinalEnds, FirstInBoth, AfterBoth, Rising, OneByte;
    OneByteEnds(h, 6, [[99]], [[99]]);
    assert LaterSuffixes[..6] == LaterSuffixes;
  }

  /** The two alternations, on slices. */
  method OthersOr(grow: Growth) returns (out: Info)
    ensures Valid(out) && out.exact.None? && out.suffix == LaterSuffixes
  {
    hide FinalEnds, FinalQuery, Enclosed, CoversBoth, KeepsBoth, FinalArray, Valid, WellFormed, Solid, Sides, Eval, Regular, Unites,
         AlternateSets, EndOf, AroundInfo, Rising;
    var x := OthersSlice();
    FirstRun(x);
    AroundIs(110, 110);
    QueriesAreRight();
    var two := AlternateMixed(x, false, AllQuery, AroundInfo(110, 110), grow);
    SharedPrefixes(two, FirstUnion, FirstUnion);
    SecondRun(Memory(two.prefix));
    var c := LiteralC();
    LiteralEnds();
    var three := AlternateInPlace(two, c, grow);
    out := ValueOf(three);
    OpenIsValid(three, out);
    EndsAre(three);
  }

  lemma EndsAre(i: SliceInfo)
    requires Proper(i)
    ensures EndsOf(i) == Ends(Items(i.prefix), Items(i.suffix))
  {
  }

  lemma AroundIs(a: Byte, b: Byte)
    ensures var y := AroundInfo(a, b);
            y.exact.None? && y.prefix == [[a]] && y.suffix == [[b]] && WellFormed(y.query) && Solid(y.query)
  {
  }

  /** Two sets in one array. */
  lemma SharedPrefixes(i: SliceInfo, prefix: seq<Str>, suffix: seq<Str>)
    requires Proper(i) && i.prefix.arr == i.suffix.arr && Ends(Items(i.prefix), Items(i.suffix)) == Ends(prefix, suffix)
    ensures !Apart(i) && Whole(Memory(i.prefix)) && Front(Memory(i.prefix)) == prefix && Memory(i.prefix).len == |prefix|
    ensures |Memory(i.prefix).all| == |Memory(i.suffix).all| && i.suffix.len == |suffix|
  {
  }

  method LiteralC() returns (c: SliceInfo)
    ensures Proper(c) && fresh(Arrays(c)) && Value(c) == LiteralInfo([99])
  {
    QueriesAreRight();
    c := SlicesOf(LiteralInfo([99]));
  }

  lemma LiteralEnds()
    ensures EndOf(SetsOf(LiteralInfo([99])), false) == [[99]] == EndOf(SetsOf(LiteralInfo([99])), true)
  {
  }

  /** (?:[bdfhj]|n.*n|c)ef on "nnef": the first alternation loses nothing, but leaves both sets in one array with room for two
      more strings; the second one pushes "n" out of the suffixes. */
  method LoseLater(orbit: R.Orbit, grow: Growth) returns (q: Query)
    ensures Loses(q, NnefRe, NnefText, orbit)
  {
    NnefMatches(orbit);
    NoSuffixForNnef();
    hide R.Matches, R.WellFormed, JoinsRequired, Trigrams, Valid;
    var out := OthersOr(grow);
    q := InFrontOf(out, [101, 102], Trigrams(NnefText));
  }

  lemma NoSuffixForNnef()
    ensures !JoinsRequired(LaterSuffixes, [[101, 102]], Trigrams(NnefText))
  {
    var v := LaterSuffixes;
    forall t | t in Trigrams(NnefText)
      ensures t[0] == 110
    {
      var i :| 0 <= i <= 1 && t == Window(NnefText, i);
    }
    assert forall w :: w in v ==> |w| == 1 && w[0] != 110;
    forall a, b | a in v && b in [[101, 102]]
      ensures |a| + |b| >= 3 && !(Trigrams(a + b) <= Trigrams(NnefText))
    {
      OneTrigram(a[0], 101, 102);
      assert a + b == [a[0], 101, 102];
      assert [a[0], 101, 102] in Trigrams(a + b);
    }
  }

  lemma NnefMatches(orbit: R.Orbit)
    ensures R.WellFormed(NnefRe) && R.Matches(NnefRe, NnefText, 0, |NnefText|, orbit)
  {
    var some := R.Alternate([Others, Around(110, 110), R.Literal([99], false)]);
    var ef := R.Literal([101, 102], false);
    NnMatches(orbit);
    EfMatches(orbit);
    hide R.Matches, R.WellFormed;
    PairMatches(some, ef, NnefText, 2, orbit);
  }

  lemma EfMatches(orbit: R.Orbit)
    ensures R.WellFormed(R.Literal([101, 102], false)) && R.Matches(R.Literal([101, 102], false), NnefText, 2, 4, orbit)
  {
    EncodeTwo(101, 102);
    assert NnefText[2..4] == [101, 102];
  }

  lemma NnMatches(orbit: R.Orbit)
    ensures var some := R.Alternate([Others, Around(110, 110), R.Literal([99], false)]);
            R.WellFormed(some) && R.Matches(some, NnefText, 0, 2, orbit)
  {
    OtherStrings([]);
    AroundPair(110, 110, NnefText, 0, orbit);
    hide Around, R.Pairs;
    ThreeMatch(Others, Around(110, 110), R.Literal([99], false), NnefText, 0, 2, orbit);
  }

  lemma ThreeMatch(s: R.Regexp, t: R.Regexp, u: R.Regexp, text: Str, i: nat, j: nat, orbit: R.Orbit)
    requires R.WellFormed(s) && R.WellFormed(t) && R.WellFormed(u) && i <= j <= |text| && R.Matches(t, text, i, j, orbit)
    ensures R.WellFormed(R.Alternate([s, t, u])) && R.Matches(R.Alternate([s, t, u]), text, i, j, orbit)
  {
    assert t in [s, t, u];
  }

  lemma OtherStrings(w: Str)
    ensures R.WellFormed(Others) && (R.InClass(Others.ranges, w) <==> w in OthersInfo.exact.value)
  {
    var t1: seq<int>, t2: seq<int>, t3: seq<int> := [106, 106], [104, 104, 106, 106], [102, 102, 104, 104, 106, 106];
    var t4: seq<int> := [100, 100, 102, 102, 104, 104, 106, 106];
    OneMore(106, []);
    OneMore(104, t1);
    OneMore(102, t2);
    OneMore(100, t3);
    OneMore(98, t4);
    assert [106, 106] + [] == t1 && [104, 104] + t1 == t2 && [102, 102] + t2 == t3 && [100, 100] + t3 == t4;
    assert [98, 98] + t4 == Others.ranges;
    hide ClassList, R.InPairs;
    ClassListMeans(Others.ranges, w);
  }

  lemma OneMore(r: int, rest: seq<int>)
    requires 0 <= r < 0x80 && R.Pairs(rest)
    ensures var t := [r, r] + rest;
            R.Pairs(t) && ClassList(t) == [[r]] + ClassList(rest) && Width(t) == Width(rest) && (rest == [] ==> ClassList(rest) == [] && Width(rest) == 0)
  {
    var t := [r, r] + rest;
    assert t[2..] == rest;
    OneOfList(r);
  }

  lemma OneOfList(r: int)
    requires 0 <= r < 0x80
    ensures RuneList(r, r) == [[r]]
  {
    assert RuneList(r, r - 1) == [];
  }

  /** The information for the other letters is right. */
  lemma OthersRight(orbit: R.Orbit)
    ensures R.WellFormed(Others) && Right(OthersInfo, Others, orbit)
  {
    forall w
      ensures R.WellFormed(Others) && (R.InClass(Others.ranges, w) <==> w in OthersInfo.exact.value)
    {
      OtherStrings(w);
    }
    hide R.InClass, R.Pairs, Right;
    ExactClassRight(Others.ranges, [[98], [100], [102], [104], [106]], orbit);
  }

  lemma ExactClassRight(ranges: seq<int>, exact: seq<Str>, orbit: R.Orbit)
    requires R.WellFormed(R.CharClass(ranges)) && forall w :: R.InClass(ranges, w) <==> w in exact
    ensures Right(Info(false, Some(exact), [], [], AllQuery), R.CharClass(ranges), orbit)
  {
    var info := Info(false, Some(exact), [], [], AllQuery);
    assert RightForClass(info, ranges) by {
      hide R.InClass;
    }
    hide RightForClass, Right;
    RightFromClass(info, ranges, orbit);
  }
}
