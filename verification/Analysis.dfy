/** From regular expressions to trigram queries (analyze and its helpers, internal/codesearch/index/regexp.go). */
module Analysis {
  import opened Bytes
  import opened Utf8
  import opened RuneRanges
  import opened StringSets
  import opened Queries
  import opened Demands
  import R = RegexpSyntax

  /** What the analysis knows about a regexp; exact is None where the source holds a nil set. */
  datatype Info = Info(canEmpty: bool, exact: Option<seq<Str>>, prefix: seq<Str>, suffix: seq<Str>, query: Query)

  const MaxExact := 7
  const MaxSet := 20

  const AnyMatch := Info(true, None, [[]], [[]], AllQuery)
  const AnyCharInfo := Info(false, None, [[]], [[]], AllQuery)
  const NoMatchInfo := Info(false, None, [], [], NoneQuery)
  const EmptyString := Info(true, Some([[]]), [], [], AllQuery)

  // -------------------------------------------------------------- meanings

  predicate IsAffix(p: Str, w: Str, isSuffix: bool) {
    if isSuffix then IsSuffix(p, w) else IsPrefix(p, w)
  }

  ghost predicate HasAffix(set_: seq<Str>, w: Str, isSuffix: bool) {
    exists p :: p in set_ && IsAffix(p, w, isSuffix)
  }

  /** The text w, all of whose trigrams are in T, agrees with everything the information says. */
  ghost predicate Covers(info: Info, w: Str, T: set<Str>) {
    && Trigrams(w) <= T
    && Eval(info.query, T)
    && match info.exact
       case Some(set_) => w in set_
       case None => HasAffix(info.prefix, w, false) && HasAffix(info.suffix, w, true)
  }

  ghost predicate AlwaysTrue(q: Query) {
    forall T :: Eval(q, T)
  }

  /** The query is usable by the index, and says nothing as long as the exact set says it all. */
  ghost predicate Valid(info: Info) {
    && WellFormed(info.query)
    && Solid(info.query)
    && (info.exact.Some? ==> AlwaysTrue(info.query) && info.prefix == [] && info.suffix == [])
  }

  /** Every string has a trigram, so some trigrams must be present. */
  ghost predicate AllLong(t: seq<Str>) {
    t != [] && forall w :: w in t ==> |w| >= 3
  }

  /** All trigrams of one of the strings are present. */
  ghost predicate SomePresent(t: seq<Str>, T: set<Str>) {
    exists w :: w in t && Trigrams(w) <= T
  }

  // ----------------------------------------------------------- andTrigrams

  method TrigramsOf(w: Str) returns (trig: seq<Str>)
    requires |w| >= 3
    ensures trig != [] && forall x :: x in trig <==> x in Trigrams(w)
  {
    trig := [];
    var i := 0;
    while i + 3 <= |w|
      invariant 0 <= i <= |w| - 2
      invariant i > 0 ==> trig != []
      invariant forall x :: x in trig <==> exists k :: 0 <= k < i && x == Window(w, k)
    {
      assert w[i..i + 3] == Window(w, i);
      trig := trig + [w[i..i + 3]];
      i := i + 1;
    }
    ghost var all := trig;
    trig := Clean(trig, false);
    assert all[0] in trig;
  }

  method AndTrigrams(q: Query, t: seq<Str>) returns (out: Query)
    requires WellFormed(q)
    ensures WellFormed(out) && (Solid(q) ==> Solid(out))
    ensures forall T :: Eval(out, T) <==> Eval(q, T) && Required(t, T)
  {
    var m := MinLen(t);
    if m < 3 {
      return q;
    }
    var or := NoneQuery;
    for i := 0 to |t|
      invariant WellFormed(or) && Solid(or)
      invariant forall T :: Eval(or, T) <==> SomePresent(t[..i], T)
    {
      var trig := TrigramsOf(t[i]);
      assert t[..i + 1] == t[..i] + [t[i]];
      var all := Query(QAnd, trig, []);
      assert forall x | x in trig :: |x| == 3;
      assert forall T :: Eval(all, T) <==> Trigrams(t[i]) <= T;
      or := AndOr(or, all, QOr);
    }
    assert t[..|t|] == t;
    out := AndOr(q, or, QAnd);
  }

  // ------------------------------------------------------------ simplifySet

  /** Each string is cut down to an affix of itself, and the cut strings are all there are. */
  ghost predicate Shortens(u: seq<Str>, t: seq<Str>, isSuffix: bool) {
    && (forall w :: w in t ==> HasAffix(u, w, isSuffix))
    && (forall p :: p in u ==> IsCut(p, t, isSuffix))
  }

  ghost predicate IsCut(p: Str, t: seq<Str>, isSuffix: bool) {
    exists w :: w in t && IsAffix(p, w, isSuffix)
  }

  lemma AffixTransitive(p: Str, q: Str, w: Str, isSuffix: bool)
    requires IsAffix(p, q, isSuffix) && IsAffix(q, w, isSuffix)
    ensures IsAffix(p, w, isSuffix)
  {
    if isSuffix {
      assert w[|w| - |p|..] == w[|w| - |q|..][|q| - |p|..];
    } else {
      assert w[..|p|] == w[..|q|][..|p|];
    }
  }

  lemma HasAffixThrough(a: seq<Str>, q: Str, w: Str, isSuffix: bool)
    requires HasAffix(a, q, isSuffix) && IsAffix(q, w, isSuffix)
    ensures HasAffix(a, w, isSuffix)
  {
    var p :| p in a && IsAffix(p, q, isSuffix);
    AffixTransitive(p, q, w, isSuffix);
  }

  lemma IsCutThrough(p: Str, q: Str, c: seq<Str>, isSuffix: bool)
    requires IsAffix(p, q, isSuffix) && IsCut(q, c, isSuffix)
    ensures IsCut(p, c, isSuffix)
  {
    var w :| w in c && IsAffix(q, w, isSuffix);
    AffixTransitive(p, q, w, isSuffix);
  }

  lemma ShortensTransitive(a: seq<Str>, b: seq<Str>, c: seq<Str>, isSuffix: bool)
    requires Shortens(a, b, isSuffix) && Shortens(b, c, isSuffix)
    ensures Shortens(a, c, isSuffix)
  {
    forall w | w in c
      ensures HasAffix(a, w, isSuffix)
    {
      assert HasAffix(b, w, isSuffix);
      var q :| q in b && IsAffix(q, w, isSuffix);
      HasAffixThrough(a, q, w, isSuffix);
    }
    forall p | p in a
      ensures IsCut(p, c, isSuffix)
    {
      assert IsCut(p, b, isSuffix);
      var q :| q in b && IsAffix(p, q, isSuffix);
      IsCutThrough(p, q, c, isSuffix);
    }
  }

  function CutTo(str: Str, n: nat, isSuffix: bool): (p: Str)
    ensures |p| <= n && IsAffix(p, str, isSuffix)
  {
    if |str| <= n then str else if isSuffix then str[|str| - n..] else str[..n]
  }

  function Cutter(n: nat, isSuffix: bool): Str -> Str {
    (x: Str) => CutTo(x, n, isSuffix)
  }

  function Extends(isSuffix: bool): (Str, Str) -> bool {
    (p: Str, x: Str) => IsAffix(p, x, isSuffix)
  }

  /** One round of simplifySet: every string cut to at most n - 1 bytes. */
  function Shortened(t: seq<Str>, n: nat, isSuffix: bool): (u: seq<Str>)
    requires n > 0
    ensures t != [] ==> u != []
  {
    Cleaned(Squeezed(t, Cutter(n - 1, isSuffix), Equal), isSuffix)
  }

  /** The last step of simplifySet: a string that extends its kept neighbour is dropped. */
  function Dropped(t: seq<Str>, isSuffix: bool): (u: seq<Str>)
    ensures |u| <= |t| && (t != [] ==> u != [])
  {
    Squeezed(t, Same, Extends(isSuffix))
  }

  /** The rounds of simplifySet, with strings of at most n bytes. */
  function Rounds(t: seq<Str>, n: nat, isSuffix: bool): (u: seq<Str>)
    ensures t != [] ==> u != []
    decreases n
  {
    if n > 0 && (n == 3 || |t| > MaxSet) then Rounds(Shortened(t, n, isSuffix), n - 1, isSuffix) else t
  }

  function SimplifiedSet(s: seq<Str>, isSuffix: bool): (u: seq<Str>)
    ensures s != [] ==> u != []
  {
    Dropped(Rounds(Cleaned(s, isSuffix), 3, isSuffix), isSuffix)
  }

  lemma RoundsAre(t: seq<Str>, n: nat, isSuffix: bool)
    ensures Rounds(t, n, isSuffix) ==
            if n > 0 && (n == 3 || |t| > MaxSet) then Rounds(Shortened(t, n, isSuffix), n - 1, isSuffix) else t
  {
  }

  lemma ShortenedMeans(t: seq<Str>, n: nat, isSuffix: bool)
    requires n > 0
    ensures var u := Shortened(t, n, isSuffix);
            Shortens(u, t, isSuffix) && StrictlySorted(u, isSuffix) && forall p :: p in u ==> |p| <= n - 1
  {
    var k := Squeezed(t, Cutter(n - 1, isSuffix), Equal);
    var u := Shortened(t, n, isSuffix);
    CleanedMeans(k, isSuffix);
    hide Squeezed, Cleaned, Shortened;
    forall w | w in t
      ensures HasAffix(u, w, isSuffix)
    {
      var i :| 0 <= i < |t| && w == t[i];
      SqueezedKeeps(t, Cutter(n - 1, isSuffix), Equal, i);
      assert CutTo(w, n - 1, isSuffix) in u;
    }
    forall p | p in u
      ensures IsCut(p, t, isSuffix) && |p| <= n - 1
    {
      var i := SqueezedFrom(t, Cutter(n - 1, isSuffix), Equal, p);
      assert p == CutTo(t[i], n - 1, isSuffix) && t[i] in t;
    }
  }

  lemma DroppedMeans(t: seq<Str>, isSuffix: bool)
    ensures var u := Dropped(t, isSuffix);
            Shortens(u, t, isSuffix) && forall p :: p in u ==> p in t
  {
    var u := Dropped(t, isSuffix);
    assert forall p :: IsAffix(p, p, isSuffix);
    forall w | w in t
      ensures HasAffix(u, w, isSuffix)
    {
      var i :| 0 <= i < |t| && w == t[i];
      SqueezedKeeps(t, Same, Extends(isSuffix), i);
    }
    forall p | p in u
      ensures p in t
    {
      var i := SqueezedFrom(t, Same, Extends(isSuffix), p);
    }
  }

  lemma {:induction false} RoundsMean(t: seq<Str>, n: nat, isSuffix: bool)
    requires StrictlySorted(t, isSuffix) && n <= 3 && (n < 3 ==> forall p :: p in t ==> |p| <= n)
    ensures var u := Rounds(t, n, isSuffix);
            Shortens(u, t, isSuffix) && |u| <= MaxSet && forall p :: p in u ==> |p| <= 2
    decreases n
  {
    hide Shortened, Shortens;
    if n > 0 && (n == 3 || |t| > MaxSet) {
      ShortenedMeans(t, n, isSuffix);
      RoundsMean(Shortened(t, n, isSuffix), n - 1, isSuffix);
      ShortensTransitive(Rounds(t, n, isSuffix), Shortened(t, n, isSuffix), t, isSuffix);
    } else {
      ShortensItself(t, isSuffix);
      if n == 0 {
        OneEmptyString(t, isSuffix);
      }
    }
  }

  lemma ShortensItself(t: seq<Str>, isSuffix: bool)
    ensures Shortens(t, t, isSuffix)
  {
    assert forall p :: IsAffix(p, p, isSuffix);
  }

  /** What simplifySet makes of a set. */
  lemma SimplifiedMeans(s: seq<Str>, isSuffix: bool)
    ensures var u := SimplifiedSet(s, isSuffix);
            Shortens(u, s, isSuffix) && |u| <= MaxSet && forall p :: p in u ==> |p| <= 2
  {
    var t := Cleaned(s, isSuffix);
    var r := Rounds(t, 3, isSuffix);
    CleanedMeans(s, isSuffix);
    CleanKeepsMeaning(s, t, isSuffix);
    RoundsMean(t, 3, isSuffix);
    DroppedMeans(r, isSuffix);
    hide Cleaned, Rounds, Dropped, Shortens;
    ShortensTransitive(r, t, s, isSuffix);
    ShortensTransitive(Dropped(r, isSuffix), r, s, isSuffix);
  }

  method Shorten(t: seq<Str>, n: nat, isSuffix: bool) returns (u: seq<Str>)
    requires n > 0
    ensures u == Shortened(t, n, isSuffix)
  {
    u := [];
    for i := 0 to |t|
      invariant u == Squeezed(t[..i], Cutter(n - 1, isSuffix), Equal)
    {
      var str := CutTo(t[i], n - 1, isSuffix);
      assert t[..i + 1][..i] == t[..i];
      if |u| == 0 || u[|u| - 1] != str {
        u := u + [str];
      }
    }
    assert t[..|t|] == t;
    u := Clean(u, isSuffix);
  }

  method DropExtensions(t: seq<Str>, isSuffix: bool) returns (u: seq<Str>)
    ensures u == Dropped(t, isSuffix)
  {
    u := [];
    for i := 0 to |t|
      invariant u == Squeezed(t[..i], Same, Extends(isSuffix))
    {
      assert t[..i + 1][..i] == t[..i];
      if |u| == 0 || !IsAffix(u[|u| - 1], t[i], isSuffix) {
        u := u + [t[i]];
      }
    }
    assert t[..|t|] == t;
  }

  lemma CleanKeepsMeaning(s: seq<Str>, t: seq<Str>, isSuffix: bool)
    requires SameElements(t, s)
    ensures AllLong(t) <==> AllLong(s)
    ensures forall T :: SomePresent(t, T) <==> SomePresent(s, T)
    ensures Shortens(t, s, isSuffix)
  {
    assert (t == [] || t[0] in s) && (s == [] || s[0] in t);
    assert forall p :: IsAffix(p, p, isSuffix);
  }

  /** Moves what a prefix or suffix set says into the query and cuts the set down. */
  method SimplifySet(q: Query, s: seq<Str>, isSuffix: bool) returns (out: Query, u: seq<Str>)
    requires WellFormed(q)
    ensures WellFormed(out) && (Solid(q) ==> Solid(out))
    ensures forall T :: Eval(out, T) <==> Eval(q, T) && Required(s, T)
    ensures u == SimplifiedSet(s, isSuffix) && Shortens(u, s, isSuffix)
    ensures |u| <= MaxSet && forall p :: p in u ==> |p| <= 2
  {
    var t := Clean(s, isSuffix);
    out := AndTrigrams(q, t);
    CleanKeepsMeaning(s, t, isSuffix);
    u := CutDown(t, isSuffix);
    SimplifiedMeans(s, isSuffix);
  }

  /** The loops of simplifySet on a clean set. */
  method CutDown(t0: seq<Str>, isSuffix: bool) returns (u: seq<Str>)
    requires StrictlySorted(t0, isSuffix)
    ensures u == Dropped(Rounds(t0, 3, isSuffix), isSuffix)
  {
    hide Shortened, Rounds, Dropped, StrictlySorted, Shortens;
    var t, n := t0, 3;
    while n == 3 || |t| > MaxSet
      invariant 0 <= n <= 3 && StrictlySorted(t, isSuffix) && (n < 3 ==> forall p :: p in t ==> |p| <= n)
      invariant Rounds(t, n, isSuffix) == Rounds(t0, 3, isSuffix)
      decreases n
    {
      if n == 0 {
        OneEmptyString(t, isSuffix);
        assert false;
      }
      RoundsAre(t, n, isSuffix);
      ShortenedMeans(t, n, isSuffix);
      t := Shorten(t, n, isSuffix);
      n := n - 1;
    }
    RoundsAre(t, n, isSuffix);
    u := DropExtensions(t, isSuffix);
  }

  lemma OneEmptyString(t: seq<Str>, isSuffix: bool)
    requires StrictlySorted(t, isSuffix) && forall p :: p in t ==> |p| <= 0
    ensures |t| <= 1
  {
    assert |t| <= 1 || Before(t[0], t[1], isSuffix);
    assert forall k :: 0 <= k < |t| ==> t[k] in t;
    assert forall k :: 0 <= k < |t| ==> t[k] == [];
    BeforeIsStrict([], isSuffix);
  }

  // --------------------------------------------------------------- simplify

  /** The sets that the analysis of a regexp ends with, and whether the regexp is said to match the empty string. */
  datatype Sets = Sets(canEmpty: bool, exact: Option<seq<Str>>, prefix: seq<Str>, suffix: seq<Str>)

  function SetsOf(info: Info): Sets {
    Sets(info.canEmpty, info.exact, info.prefix, info.suffix)
  }

  /** An exact set that is given up. */
  predicate TooMuch(exact: seq<Str>, force: bool) {
    |exact| > MaxExact || (MinLength(exact) >= 3 && force) || MinLength(exact) >= 4
  }

  /** The sets after simplification. */
  function SimpleSets(s: Sets, force: bool): Sets {
    match s.exact
    case None => Sets(s.canEmpty, None, SimplifiedSet(s.prefix, false), SimplifiedSet(s.suffix, true))
    case Some(exact) =>
      var clean := Cleaned(exact, false);
      if TooMuch(clean, force) then
        Sets(s.canEmpty, None, SimplifiedSet(s.prefix + CutAll(clean, 2, false), false),
             SimplifiedSet(s.suffix + CutAll(clean, 2, true), true))
      else Sets(s.canEmpty, Some(clean), s.prefix, s.suffix)
  }

  /** A small clean exact set, or small sets of short strings. */
  ghost predicate Tidy(s: Sets) {
    match s.exact
    case Some(exact) => StrictlySorted(exact, false) && |exact| <= MaxExact
    case None => Small(s.prefix) && Small(s.suffix)
  }

  ghost predicate Small(t: seq<Str>) {
    |t| <= MaxSet && forall p :: p in t ==> |p| <= 2
  }

  lemma SimpleIsTidy(s: Sets, force: bool)
    ensures Tidy(SimpleSets(s, force))
  {
    match s.exact
    case None =>
      SimplifiedMeans(s.prefix, false);
      SimplifiedMeans(s.suffix, true);
    case Some(exact) =>
      var clean := Cleaned(exact, false);
      CleanedMeans(exact, false);
      SimplifiedMeans(s.prefix + CutAll(clean, 2, false), false);
      SimplifiedMeans(s.suffix + CutAll(clean, 2, true), true);
  }

  /** The meaning of the query after simplification. */
  ghost predicate SimpleQuery(info: Info, force: bool, T: set<Str>) {
    && Eval(info.query, T)
    && match info.exact
       case None => Required(info.prefix, T) && Required(info.suffix, T)
       case Some(exact) =>
         var clean := Cleaned(exact, false);
         TooMuch(clean, force) ==>
           && Required(clean, T) && Required(info.prefix + CutAll(clean, 2, false), T)
           && Required(info.suffix + CutAll(clean, 2, true), T)
  }

  /** What simplify gives. */
  ghost predicate IsSimple(info: Info, force: bool, out: Info) {
    && WellFormed(out.query) && (Solid(info.query) ==> Solid(out.query))
    && SetsOf(out) == SimpleSets(SetsOf(info), force)
    && (out.exact.Some? ==> out.query == info.query)
    && forall T :: Eval(out.query, T) <==> SimpleQuery(info, force, T)
  }

  /** What the prefix and suffix sets become when an exact set is given up. */
  method SpillExact(exact: seq<Str>, prefix0: seq<Str>, suffix0: seq<Str>) returns (prefix: seq<Str>, suffix: seq<Str>)
    ensures prefix == prefix0 + CutAll(exact, 2, false) && suffix == suffix0 + CutAll(exact, 2, true)
    ensures forall w :: w in exact ==> HasAffix(prefix, w, false) && HasAffix(suffix, w, true)
  {
    prefix, suffix := prefix0, suffix0;
    for i := 0 to |exact|
      invariant prefix == prefix0 + CutAll(exact[..i], 2, false) && suffix == suffix0 + CutAll(exact[..i], 2, true)
    {
      var s := exact[i];
      var n := |s|;
      assert exact[..i + 1] == exact[..i] + [s];
      prefix := prefix + [if n < 3 then s else s[..2]];
      suffix := suffix + [if n < 3 then s else s[n - 2..]];
    }
    assert exact[..|exact|] == exact;
    CutAllCovers(prefix0, exact, 2, false);
    CutAllCovers(suffix0, exact, 2, true);
  }

  /** Every string cut to an affix of at most n bytes. */
  function CutAll(t: seq<Str>, n: nat, isSuffix: bool): (u: seq<Str>)
    ensures |u| == |t|
  {
    seq(|t|, i requires 0 <= i < |t| => CutTo(t[i], n, isSuffix))
  }

  lemma CutAllCovers(t0: seq<Str>, t: seq<Str>, n: nat, isSuffix: bool)
    ensures forall w :: w in t ==> HasAffix(t0 + CutAll(t, n, isSuffix), w, isSuffix)
    ensures forall p :: p in CutAll(t, n, isSuffix) ==> |p| <= n
  {
    var u := CutAll(t, n, isSuffix);
    forall w | w in t
      ensures HasAffix(t0 + u, w, isSuffix)
    {
      var k :| 0 <= k < |t| && t[k] == w;
      assert u[k] in t0 + u && IsAffix(u[k], w, isSuffix);
    }
  }

  method AddExact(info: Info) returns (out: Info)
    requires WellFormed(info.query)
    ensures out == info.(query := out.query)
    ensures WellFormed(out.query) && (Solid(info.query) ==> Solid(out.query))
    ensures info.exact.None? ==> out == info
    ensures info.exact.Some? ==>
              forall T :: Eval(out.query, T) <==> Eval(info.query, T) && Required(info.exact.value, T)
  {
    out := info;
    if info.exact.Some? {
      var q := AndTrigrams(info.query, info.exact.value);
      out := info.(query := q);
    }
  }

  /** What a query can ask of a text that contains one of the strings. */
  ghost predicate Required(t: seq<Str>, T: set<Str>) {
    AllLong(t) ==> SomePresent(t, T)
  }

  lemma AffixIsRequired(t: seq<Str>, w: Str, isSuffix: bool, T: set<Str>)
    requires HasAffix(t, w, isSuffix) && Trigrams(w) <= T
    ensures Required(t, T)
  {
    var p :| p in t && IsAffix(p, w, isSuffix);
    if isSuffix {
      TrigramsSlice(w, |w| - |p|, |w|);
      assert w[|w| - |p|..|w|] == p;
    } else {
      TrigramsSlice(w, 0, |p|);
    }
    assert Trigrams(p) <= T;
  }

  lemma ShortenedStillCovers(t: seq<Str>, u: seq<Str>, w: Str, isSuffix: bool)
    requires Shortens(u, t, isSuffix) && HasAffix(t, w, isSuffix)
    ensures HasAffix(u, w, isSuffix)
  {
    var p :| p in t && IsAffix(p, w, isSuffix);
    HasAffixThrough(u, p, w, isSuffix);
  }

  ghost predicate SmallSets(info: Info) {
    match info.exact
    case Some(set_) => |set_| <= MaxExact
    case None =>
      && |info.prefix| <= MaxSet && (forall p :: p in info.prefix ==> |p| <= 2)
      && |info.suffix| <= MaxSet && (forall p :: p in info.suffix ==> |p| <= 2)
  }

  /** Simplifying keeps an exact set as it is, or says in the query all that its strings require. */
  ghost predicate Simplified(info: Info, out: Info) {
    && (Valid(info) ==> Valid(out))
    && WellFormed(out.query)
    && SmallSets(out)
    && out.canEmpty == info.canEmpty
    && (out.exact.Some? ==> info.exact.Some? && SameElements(out.exact.value, info.exact.value) && out.query == info.query)
    && (Valid(info) ==> forall T :: Eval(out.query, T) <==> Eval(info.query, T) && EndsRequired(info, out, T))
    && (forall w, T :: Covers(info, w, T) ==> Covers(out, w, T))
  }

  /** What simplifying adds to the query: the trigrams of the sets it cuts down. */
  ghost predicate EndsRequired(info: Info, out: Info, T: set<Str>) {
    if out.exact.Some? then true
    else if info.exact.Some? then Required(info.exact.value, T)
    else Required(info.prefix, T) && Required(info.suffix, T)
  }

  /** The texts that agree with the ends of a set agree with those of the simplified set, and its query asks for
      nothing that they do not have. */
  lemma EndKept(t: seq<Str>, w: Str, T: set<Str>, isSuffix: bool)
    requires HasAffix(t, w, isSuffix) && Trigrams(w) <= T
    ensures HasAffix(SimplifiedSet(t, isSuffix), w, isSuffix) && Required(t, T)
  {
    SimplifiedMeans(t, isSuffix);
    hide SimplifiedSet;
    ShortenedStillCovers(t, SimplifiedSet(t, isSuffix), w, isSuffix);
    AffixIsRequired(t, w, isSuffix, T);
  }

  lemma SimpleCovers(info: Info, force: bool, out: Info, w: Str, T: set<Str>)
    requires IsSimple(info, force, out) && Covers(info, w, T)
    ensures Covers(out, w, T)
  {
    match info.exact
    case None =>
      EndKept(info.prefix, w, T, false);
      EndKept(info.suffix, w, T, true);
    case Some(exact) =>
      var clean := Cleaned(exact, false);
      CleanedMeans(exact, false);
      hide Cleaned, SimplifiedSet;
      assert w in clean;
      if TooMuch(clean, force) {
        CutAllCovers(info.prefix, clean, 2, false);
        CutAllCovers(info.suffix, clean, 2, true);
        EndKept(info.prefix + CutAll(clean, 2, false), w, T, false);
        EndKept(info.suffix + CutAll(clean, 2, true), w, T, true);
        assert SomePresent(clean, T);
      }
  }

  /** The ends that an exact set leaves ask for nothing. */
  lemma CutEndsAreShort(t: seq<Str>, isSuffix: bool)
    ensures !AllLong([] + CutAll(t, 2, isSuffix))
  {
    var u := CutAll(t, 2, isSuffix);
    CutAllCovers([], t, 2, isSuffix);
    assert [] + u == u;
    assert u != [] ==> u[0] in u;
  }

  lemma SimpleQueryEnds(info: Info, force: bool, out: Info, T: set<Str>)
    requires IsSimple(info, force, out) && Valid(info)
    ensures Eval(out.query, T) <==> Eval(info.query, T) && EndsRequired(info, out, T)
  {
    match info.exact
    case None =>
    case Some(exact) =>
      var clean := Cleaned(exact, false);
      CleanedMeans(exact, false);
      SameRequired(clean, exact, T);
      CutEndsAreShort(clean, false);
      CutEndsAreShort(clean, true);
      hide Cleaned, SimplifiedSet, CutAll;
  }

  lemma SimpleKeepsValid(info: Info, force: bool, out: Info)
    requires IsSimple(info, force, out) && Valid(info)
    ensures Valid(out)
  {
    hide Cleaned, SimplifiedSet, CutAll, TooMuch, SimpleQuery;
  }

  lemma SimpleParts(info: Info, force: bool, out: Info)
    requires IsSimple(info, force, out)
    ensures SmallSets(out) && Tidy(SetsOf(out)) && out.canEmpty == info.canEmpty && WellFormed(out.query)
    ensures out.exact.Some? ==> info.exact.Some? && SameElements(out.exact.value, info.exact.value) && out.query == info.query
    ensures force && out.exact.Some? ==> !AllLong(out.exact.value)
  {
    SimpleIsTidy(SetsOf(info), force);
    if info.exact.Some? {
      CleanedMeans(info.exact.value, false);
      KeptIsShort(Cleaned(info.exact.value, false), force);
    }
    hide Cleaned, SimplifiedSet, CutAll, SimpleQuery, WellFormed, SameElements, StrictlySorted, TooMuch, AllLong, Solid, Eval;
  }

  lemma KeptIsShort(t: seq<Str>, force: bool)
    ensures |t| <= MaxExact || TooMuch(t, force)
    ensures force && !TooMuch(t, force) ==> !AllLong(t)
  {
    ShortestIsShort(t);
    hide MinLength;
  }

  lemma SimpleIsSimplified(info: Info, force: bool, out: Info)
    requires IsSimple(info, force, out)
    ensures Simplified(info, out) && Tidy(SetsOf(out))
    ensures force && out.exact.Some? ==> !AllLong(out.exact.value)
  {
    hide IsSimple, Covers, Eval, EndsRequired, Valid, SmallSets, Tidy, SetsOf, AllLong, SameElements, WellFormed;
    SimpleParts(info, force, out);
    forall w, T | Covers(info, w, T)
      ensures Covers(out, w, T)
    {
      SimpleCovers(info, force, out, w, T);
    }
    if Valid(info) {
      SimpleKeepsValid(info, force, out);
      forall T
        ensures Eval(out.query, T) <==> Eval(info.query, T) && EndsRequired(info, out, T)
      {
        SimpleQueryEnds(info, force, out, T);
      }
    }
  }

  lemma {:induction false} ShortestIsShort(t: seq<Str>)
    ensures t == [] ==> MinLength(t) == 0
    ensures t != [] ==> (exists x :: x in t && |x| == MinLength(t)) && forall x :: x in t ==> MinLength(t) <= |x|
  {
    if t != [] {
      var n := |t| - 1;
      ShortestIsShort(t[..n]);
      assert t == t[..n] + [t[n]];
      assert t[n] in t;
    }
  }

  method Simplify(info: Info, force: bool) returns (out: Info)
    requires WellFormed(info.query)
    ensures IsSimple(info, force, out) && Simplified(info, out) && Tidy(SetsOf(out))
    ensures force && out.exact.Some? ==> !AllLong(out.exact.value)
  {
    hide SimplifiedSet, CutAll, MinLength, Cleaned, Eval, Required, WellFormed, Solid, Simplified, Tidy, AllLong, HasAffix,
         StrictlySorted, SameElements;
    if info.exact.None? {
      var q, prefix, suffix := SimplifyEnds(info.query, info.prefix, info.suffix);
      out := Info(info.canEmpty, None, prefix, suffix, q);
    } else {
      var exact := Clean(info.exact.value, false);
      var m := MinLen(exact);
      if |exact| > MaxExact || (m >= 3 && force) || m >= 4 {
        var q := AndTrigrams(info.query, exact);
        var prefix, suffix := SpillExact(exact, info.prefix, info.suffix);
        q, prefix, suffix := SimplifyEnds(q, prefix, suffix);
        out := Info(info.canEmpty, None, prefix, suffix, q);
      } else {
        out := info.(exact := Some(exact));
      }
    }
    SimpleIsSimplified(info, force, out);
  }

  method SimplifyEnds(q: Query, prefix: seq<Str>, suffix: seq<Str>) returns (out: Query, p: seq<Str>, s: seq<Str>)
    requires WellFormed(q)
    ensures WellFormed(out) && (Solid(q) ==> Solid(out))
    ensures forall T :: Eval(out, T) <==> Eval(q, T) && Required(prefix, T) && Required(suffix, T)
    ensures p == SimplifiedSet(prefix, false) && s == SimplifiedSet(suffix, true)
  {
    hide *;
    out, p := SimplifySet(q, prefix, false);
    out, s := SimplifySet(out, suffix, true);
  }

  // ----------------------------------------------------------------- concat

  lemma CrossPrefix(s: seq<Str>, p: seq<Str>, c: seq<Str>, u: Str, v: Str)
    requires forall x :: x in c <==> IsJoin(x, s, p)
    requires u in s && HasAffix(p, v, false)
    ensures HasAffix(c, u + v, false)
  {
    var b :| b in p && IsAffix(b, v, false);
    assert IsJoin(u + b, s, p);
    assert (u + v)[..|u + b|] == u + v[..|b|];
    assert u + b in c && IsAffix(u + b, u + v, false);
  }

  lemma CrossSuffix(s: seq<Str>, p: seq<Str>, c: seq<Str>, u: Str, v: Str)
    requires forall x :: x in c <==> IsJoin(x, s, p)
    requires HasAffix(s, u, true) && v in p
    ensures HasAffix(c, u + v, true)
  {
    var a :| a in s && IsAffix(a, u, true);
    assert IsJoin(a + v, s, p);
    assert (u + v)[|u + v| - |a + v|..] == u[|u| - |a|..] + v;
    assert a + v in c && IsAffix(a + v, u + v, true);
  }

  lemma AffixExtends(t: seq<Str>, u: seq<Str>, a: Str, w: Str, isSuffix: bool)
    requires HasAffix(t, a, isSuffix) && IsAffix(a, w, isSuffix) && forall p :: p in t ==> p in u
    ensures HasAffix(u, w, isSuffix)
  {
    var p :| p in t && IsAffix(p, a, isSuffix);
    AffixTransitive(p, a, w, isSuffix);
  }

  lemma PartsAreAffixes(u: Str, v: Str)
    ensures IsAffix(u, u + v, false) && IsAffix(v, u + v, true)
  {
  }

  /** What a text must hold that contains one string of s followed by one of t. */
  ghost predicate JoinsRequired(s: seq<Str>, t: seq<Str>, T: set<Str>) {
    s != [] && t != [] && (forall a, b :: a in s && b in t ==> |a| + |b| >= 3) ==>
      exists a, b :: a in s && b in t && Trigrams(a + b) <= T
  }

  lemma RequiredOfJoins(c: seq<Str>, s: seq<Str>, t: seq<Str>, T: set<Str>)
    requires forall x :: x in c <==> IsJoin(x, s, t)
    ensures Required(c, T) <==> JoinsRequired(s, t, T)
  {
    if s != [] && t != [] {
      assert IsJoin(s[0] + t[0], s, t);
      forall a, b | a in s && b in t
        ensures a + b in c && |a + b| == |a| + |b|
      {
        assert IsJoin(a + b, s, t);
      }
    }
    if c != [] {
      assert IsJoin(c[0], s, t);
    }
  }

  /** What the query of a concatenation adds for the strings that straddle the seam. */
  ghost predicate SeamRequired(x: Info, y: Info, T: set<Str>) {
    x.exact.None? && y.exact.None? && |x.suffix| <= MaxSet && |y.prefix| <= MaxSet ==> JoinsRequired(x.suffix, y.prefix, T)
  }

  /** What the query of a concatenation adds when its own sets are cut down. */
  ghost predicate JoinEndsRequired(x: Info, y: Info, out: Info, T: set<Str>) {
    if out.exact.Some? then true
    else if x.exact.Some? && y.exact.Some? then JoinsRequired(x.exact.value, y.exact.value, T)
    else
      && (if x.exact.Some? then JoinsRequired(x.exact.value, y.prefix, T)
          else Required(if x.canEmpty then x.prefix + y.prefix else x.prefix, T))
      && (if y.exact.Some? then JoinsRequired(x.suffix, y.exact.value, T)
          else Required(if y.canEmpty then y.suffix + x.suffix else y.suffix, T))
  }

  ghost predicate JoinsOnly(w: Str, x: Info, y: Info) {
    x.exact.Some? && y.exact.Some? && IsJoin(w, x.exact.value, y.exact.value)
  }

  ghost predicate CoversJoins(x: Info, y: Info, out: Info) {
    forall u, v, T :: Covers(x, u, T) && Covers(y, v, T) && Trigrams(u + v) <= T ==> Covers(out, u + v, T)
  }

  ghost predicate Concatenates(x: Info, y: Info, out: Info) {
    && (out.exact.Some? ==> x.exact.Some? && y.exact.Some?)
    && (out.exact.Some? ==> forall w :: w in out.exact.value ==> JoinsOnly(w, x, y))
    && CoversJoins(x, y, out)
    && (Valid(x) && Valid(y) ==> Valid(out) && forall T ::
          Eval(out.query, T) <==>
            Eval(x.query, T) && Eval(y.query, T) && SeamRequired(x, y, T) && JoinEndsRequired(x, y, out, T))
  }

  /** The sets of a concatenation, before simplification. */
  function JoinedSets(x: Sets, y: Sets): Sets {
    if x.exact.Some? && y.exact.Some? then Sets(false, Some(Cleaned(Joined(x.exact.value, y.exact.value), false)), [], [])
    else
      Sets(false, None,
           if x.exact.Some? then Cleaned(Joined(x.exact.value, y.prefix), false)
           else if x.canEmpty then Cleaned(x.prefix + y.prefix, false) else x.prefix,
           if y.exact.Some? then Cleaned(Joined(x.suffix, y.exact.value), true)
           else if y.canEmpty then Cleaned(y.suffix + x.suffix, true) else y.suffix)
  }

  /** What is known of a concatenation before simplification. */
  ghost predicate IsJoined(x: Info, y: Info, xy: Info) {
    && WellFormed(xy.query) && (Solid(x.query) && Solid(y.query) ==> Solid(xy.query))
    && SetsOf(xy) == JoinedSets(SetsOf(x), SetsOf(y))
    && forall T :: Eval(xy.query, T) <==> Eval(x.query, T) && Eval(y.query, T) && SeamRequired(x, y, T)
  }

  /** The sets of a concatenation, by their elements. */
  ghost predicate JoinsEnds(x: Info, y: Info, xy: Info) {
    && (xy.exact.Some? <==> x.exact.Some? && y.exact.Some?)
    && (xy.exact.Some? ==> forall w :: w in xy.exact.value <==> IsJoin(w, x.exact.value, y.exact.value))
    && (xy.exact.None? && x.exact.Some? ==> forall w :: w in xy.prefix <==> IsJoin(w, x.exact.value, y.prefix))
    && (xy.exact.None? && y.exact.Some? ==> forall w :: w in xy.suffix <==> IsJoin(w, x.suffix, y.exact.value))
    && (xy.exact.None? && x.exact.None? ==> SameElements(xy.prefix, if x.canEmpty then x.prefix + y.prefix else x.prefix))
    && (xy.exact.None? && y.exact.None? ==> SameElements(xy.suffix, if y.canEmpty then y.suffix + x.suffix else y.suffix))
  }

  lemma CrossMeans(s: seq<Str>, t: seq<Str>, isSuffix: bool)
    ensures forall w :: w in Cleaned(Joined(s, t), isSuffix) <==> IsJoin(w, s, t)
  {
    CleanedMeans(Joined(s, t), isSuffix);
    hide Cleaned, Joined, IsJoin;
    forall w
      ensures w in Cleaned(Joined(s, t), isSuffix) <==> IsJoin(w, s, t)
    {
      JoinedMeans(s, t, w);
    }
  }

  lemma JoinedSetsMean(x: Info, y: Info, xy: Info)
    requires SetsOf(xy) == JoinedSets(SetsOf(x), SetsOf(y))
    ensures JoinsEnds(x, y, xy)
  {
    if x.exact.Some? && y.exact.Some? {
      CrossMeans(x.exact.value, y.exact.value, false);
    } else {
      if x.exact.Some? {
        CrossMeans(x.exact.value, y.prefix, false);
      } else {
        CleanedMeans(x.prefix + y.prefix, false);
      }
      if y.exact.Some? {
        CrossMeans(x.suffix, y.exact.value, true);
      } else {
        CleanedMeans(y.suffix + x.suffix, true);
      }
    }
    hide Cleaned, Joined, IsJoin;
  }

  lemma JoinedEnds(x: Info, y: Info, xy: Info, u: Str, v: Str, T: set<Str>)
    requires JoinsEnds(x, y, xy) && Covers(x, u, T) && Covers(y, v, T) && xy.exact.None?
    ensures HasAffix(xy.prefix, u + v, false) && HasAffix(xy.suffix, u + v, true)
  {
    PartsAreAffixes(u, v);
    hide IsJoin, HasAffix, IsAffix;
    if x.exact.Some? {
      CrossPrefix(x.exact.value, y.prefix, xy.prefix, u, v);
    } else {
      AffixExtends(x.prefix, xy.prefix, u, u + v, false);
    }
    if y.exact.Some? {
      CrossSuffix(x.suffix, y.exact.value, xy.suffix, u, v);
    } else {
      AffixExtends(y.suffix, xy.suffix, v, u + v, true);
    }
  }

  lemma JoinedCovers(x: Info, y: Info, xy: Info, u: Str, v: Str, T: set<Str>)
    requires IsJoined(x, y, xy) && Covers(x, u, T) && Covers(y, v, T) && Trigrams(u + v) <= T
    ensures Covers(xy, u + v, T)
  {
    SeamIsPresent(x, y, u, v, T);
    JoinedSetsMean(x, y, xy);
    hide JoinedSets, SeamRequired, HasAffix, Trigrams, WellFormed, Solid;
    if xy.exact.None? {
      JoinedEnds(x, y, xy, u, v, T);
    } else {
      assert IsJoin(u + v, x.exact.value, y.exact.value);
    }
  }

  /** Simplification of the concatenated sets gives the information for the concatenation. */
  lemma ConcatIs(x: Info, y: Info, xy: Info, out: Info)
    requires IsJoined(x, y, xy) && Simplified(xy, out)
    ensures Concatenates(x, y, out)
  {
    ConcatExact(x, y, xy, out);
    hide JoinedSets, SeamRequired, Covers, IsJoin, WellFormed, Solid, SmallSets, EndsRequired, JoinEndsRequired, JoinsOnly, Valid, IsJoined, Simplified;
    forall u, v, T | Covers(x, u, T) && Covers(y, v, T) && Trigrams(u + v) <= T
      ensures Covers(out, u + v, T)
    {
      JoinedCovers(x, y, xy, u, v, T);
      SimplifiedCovers(xy, out, u + v, T);
    }
    if Valid(x) && Valid(y) {
      forall T
        ensures Eval(out.query, T) <==>
                Eval(x.query, T) && Eval(y.query, T) && SeamRequired(x, y, T) && JoinEndsRequired(x, y, out, T)
      {
        ConcatQuery(x, y, xy, out, T);
      }
    }
  }

  lemma SimplifiedCovers(info: Info, out: Info, w: Str, T: set<Str>)
    requires Simplified(info, out) && Covers(info, w, T)
    ensures Covers(out, w, T)
  {
  }

  lemma ConcatExact(x: Info, y: Info, xy: Info, out: Info)
    requires IsJoined(x, y, xy) && Simplified(xy, out)
    ensures out.exact.Some? ==> x.exact.Some? && y.exact.Some? && forall w :: w in out.exact.value ==> JoinsOnly(w, x, y)
    ensures Valid(x) && Valid(y) ==> Valid(out)
  {
    JoinedSetsMean(x, y, xy);
    if Valid(x) && Valid(y) {
      JoinedIsValid(x, y, xy);
    }
    hide JoinedSets, SeamRequired, Covers, IsJoin, WellFormed, Solid, EndsRequired, Valid, SmallSets;
  }

  lemma JoinedIsValid(x: Info, y: Info, xy: Info)
    requires IsJoined(x, y, xy) && Valid(x) && Valid(y)
    ensures Valid(xy)
  {
    hide WellFormed, Solid;
  }

  lemma ConcatQuery(x: Info, y: Info, xy: Info, out: Info, T: set<Str>)
    requires IsJoined(x, y, xy) && Simplified(xy, out) && Valid(x) && Valid(y)
    ensures Eval(out.query, T) <==>
            Eval(x.query, T) && Eval(y.query, T) && SeamRequired(x, y, T) && JoinEndsRequired(x, y, out, T)
  {
    JoinedSetsMean(x, y, xy);
    JoinedIsValid(x, y, xy);
    hide JoinedSets, SeamRequired, Covers, WellFormed, Solid, JoinEndsRequired, EndsRequired, Valid, SmallSets, JoinsEnds;
    ConcatEnds(x, y, xy, out, T);
  }

  method JoinSets(x: Info, y: Info) returns (exact: Option<seq<Str>>, prefix: seq<Str>, suffix: seq<Str>)
    ensures Sets(false, exact, prefix, suffix) == JoinedSets(SetsOf(x), SetsOf(y))
  {
    exact, prefix, suffix := None, [], [];
    if x.exact.Some? && y.exact.Some? {
      var both := Cross(x.exact.value, y.exact.value, false);
      exact := Some(both);
      return;
    }
    if x.exact.Some? {
      prefix := Cross(x.exact.value, y.prefix, false);
    } else {
      prefix := x.prefix;
      if x.canEmpty {
        prefix := Union(prefix, y.prefix, false);
      }
    }
    if y.exact.Some? {
      suffix := Cross(x.suffix, y.exact.value, true);
    } else {
      suffix := y.suffix;
      if y.canEmpty {
        suffix := Union(suffix, x.suffix, true);
      }
    }
  }

  lemma LongSeam(s: seq<Str>, t: seq<Str>, m: nat, n: nat)
    requires s != [] && t != []
    requires (exists a :: a in s && |a| == m) && forall a :: a in s ==> m <= |a|
    requires (exists b :: b in t && |b| == n) && forall b :: b in t ==> n <= |b|
    ensures m + n >= 3 <==> forall a, b :: a in s && b in t ==> |a| + |b| >= 3
  {
    var a :| a in s && |a| == m;
    var b :| b in t && |b| == n;
    assert |a| + |b| == m + n;
  }

  /** The conjunct that the strings across the seam add to the query. */
  method SeamQuery(q: Query, x: Info, y: Info) returns (out: Query)
    requires WellFormed(q) && x.exact.None? && y.exact.None?
    ensures WellFormed(out) && (Solid(q) ==> Solid(out))
    ensures forall T :: Eval(out, T) <==> Eval(q, T) && SeamRequired(x, y, T)
  {
    out := q;
    var m := MinLen(x.suffix);
    var n := MinLen(y.prefix);
    if x.suffix != [] && y.prefix != [] {
      LongSeam(x.suffix, y.prefix, m, n);
    }
    if |x.suffix| <= MaxSet && |y.prefix| <= MaxSet && m + n >= 3 {
      var seam := Cross(x.suffix, y.prefix, false);
      out := AndTrigrams(q, seam);
      forall T
        ensures Eval(out, T) <==> Eval(q, T) && JoinsRequired(x.suffix, y.prefix, T)
      {
        RequiredOfJoins(seam, x.suffix, y.prefix, T);
      }
    }
  }

  lemma SeamIsPresent(x: Info, y: Info, u: Str, v: Str, T: set<Str>)
    requires Covers(x, u, T) && Covers(y, v, T) && Trigrams(u + v) <= T
    ensures SeamRequired(x, y, T)
  {
    if x.exact.None? && y.exact.None? {
      var a :| a in x.suffix && IsAffix(a, u, true);
      var b :| b in y.prefix && IsAffix(b, v, false);
      assert u + v == u[..|u| - |a|] + (a + b) + v[|b|..];
      TrigramsInfix(u[..|u| - |a|], a + b, v[|b|..]);
    }
  }

  lemma SameRequired(c: seq<Str>, s: seq<Str>, T: set<Str>)
    requires SameElements(c, s)
    ensures Required(c, T) <==> Required(s, T)
  {
    CleanKeepsMeaning(s, c, false);
  }

  lemma ConcatEnds(x: Info, y: Info, xy: Info, out: Info, T: set<Str>)
    requires JoinsEnds(x, y, xy) && (out.exact.Some? ==> xy.exact.Some?)
    ensures EndsRequired(xy, out, T) <==> JoinEndsRequired(x, y, out, T)
  {
    if xy.exact.Some? {
      RequiredOfJoins(xy.exact.value, x.exact.value, y.exact.value, T);
    } else {
      if x.exact.Some? {
        RequiredOfJoins(xy.prefix, x.exact.value, y.prefix, T);
      } else {
        SameRequired(xy.prefix, if x.canEmpty then x.prefix + y.prefix else x.prefix, T);
      }
      if y.exact.Some? {
        RequiredOfJoins(xy.suffix, x.suffix, y.exact.value, T);
      } else {
        SameRequired(xy.suffix, if y.canEmpty then y.suffix + x.suffix else y.suffix, T);
      }
    }
  }

  /** The information for xy, given that for x and y. */
  method Concat(x: Info, y: Info) returns (out: Info)
    requires WellFormed(x.query) && WellFormed(y.query)
    ensures Concatenates(x, y, out) && WellFormed(out.query)
    ensures SetsOf(out) == SimpleSets(JoinedSets(SetsOf(x), SetsOf(y)), false) && Tidy(SetsOf(out))
  {
    hide JoinedSets, SimpleSets, SeamRequired, Concatenates, Simplified, SimpleQuery, Tidy;
    var q := AndOr(x.query, y.query, QAnd);
    var exact, prefix, suffix := JoinSets(x, y);
    if x.exact.None? && y.exact.None? {
      q := SeamQuery(q, x, y);
    } else {
      NoSeam(x, y);
    }
    var xy := Info(false, exact, prefix, suffix, q);
    out := Simplify(xy, false);
    ConcatIs(x, y, xy, out);
  }

  lemma NoSeam(x: Info, y: Info)
    requires x.exact.Some? || y.exact.Some?
    ensures forall T :: SeamRequired(x, y, T)
  {
  }

  // -------------------------------------------------------------- alternate

  /** What the query of an alternation says of one side: an exact set that is dropped is required instead. */
  ghost predicate SideRequired(x: Info, other: Info, T: set<Str>) {
    Eval(x.query, T) && (x.exact.Some? && other.exact.None? ==> Required(x.exact.value, T))
  }

  ghost predicate AlternateEndsRequired(x: Info, y: Info, out: Info, T: set<Str>) {
    if out.exact.Some? then true
    else Required(EndSet(x, false) + EndSet(y, false), T) && Required(EndSet(x, true) + EndSet(y, true), T)
  }

  ghost predicate InEither(w: Str, x: Info, y: Info) {
    x.exact.Some? && y.exact.Some? && (w in x.exact.value || w in y.exact.value)
  }

  /** Every text of either side is covered, and exact strings are strings of both exact sets. */
  ghost predicate Unites(x: Info, y: Info, out: Info) {
    && (out.exact.Some? ==> x.exact.Some? && y.exact.Some?)
    && (out.exact.Some? ==> forall w :: w in out.exact.value ==> InEither(w, x, y))
    && (forall w, T :: Covers(x, w, T) || Covers(y, w, T) ==> Covers(out, w, T))
    && (Valid(x) && Valid(y) ==> Valid(out))
  }

  ghost predicate Alternates(x: Info, y: Info, out: Info) {
    && Unites(x, y, out)
    && (Valid(x) && Valid(y) ==> forall T ::
          Eval(out.query, T) <==>
            (SideRequired(x, y, T) || SideRequired(y, x, T)) && AlternateEndsRequired(x, y, out, T))
  }

  /** The sets of an alternation, before simplification. */
  function EitherSets(x: Sets, y: Sets): Sets {
    var canEmpty := x.canEmpty || y.canEmpty;
    if x.exact.Some? && y.exact.Some? then Sets(canEmpty, Some(Cleaned(x.exact.value + y.exact.value, false)), [], [])
    else
      Sets(canEmpty, None, Cleaned(EndOf(x, false) + EndOf(y, false), false), Cleaned(EndOf(x, true) + EndOf(y, true), true))
  }

  /** What is known of an alternation before simplification. */
  ghost predicate IsEither(x: Info, y: Info, xy: Info) {
    && WellFormed(xy.query) && (Solid(x.query) && Solid(y.query) ==> Solid(xy.query))
    && SetsOf(xy) == EitherSets(SetsOf(x), SetsOf(y))
    && forall T :: Eval(xy.query, T) <==> SideRequired(x, y, T) || SideRequired(y, x, T)
  }

  lemma SelfAffix(t: seq<Str>, w: Str, isSuffix: bool)
    requires w in t
    ensures HasAffix(t, w, isSuffix)
  {
    assert IsAffix(w, w, isSuffix);
  }

  lemma MoreAffixes(t: seq<Str>, u: seq<Str>, w: Str, isSuffix: bool)
    requires HasAffix(t, w, isSuffix) && forall p :: p in t ==> p in u
    ensures HasAffix(u, w, isSuffix)
  {
  }

  /** The strings that stand for a side of an alternation at one end: its exact set if it has one. */
  function EndOf(x: Sets, isSuffix: bool): seq<Str> {
    if x.exact.Some? then x.exact.value else if isSuffix then x.suffix else x.prefix
  }

  function EndSet(x: Info, isSuffix: bool): seq<Str> {
    EndOf(SetsOf(x), isSuffix)
  }

  lemma EndSetCovers(x: Info, w: Str, T: set<Str>, isSuffix: bool)
    requires Covers(x, w, T)
    ensures HasAffix(EndSet(x, isSuffix), w, isSuffix)
  {
    if x.exact.Some? {
      SelfAffix(x.exact.value, w, isSuffix);
    }
  }

  lemma SideHolds(x: Info, other: Info, w: Str, T: set<Str>)
    requires Covers(x, w, T)
    ensures SideRequired(x, other, T)
  {
    if x.exact.Some? {
      assert SomePresent(x.exact.value, T);
    }
  }

  lemma EitherMeans(x: Info, y: Info, xy: Info)
    requires SetsOf(xy) == EitherSets(SetsOf(x), SetsOf(y))
    ensures xy.exact.Some? <==> x.exact.Some? && y.exact.Some?
    ensures xy.exact.Some? ==> SameElements(xy.exact.value, x.exact.value + y.exact.value)
    ensures xy.exact.None? ==> SameElements(xy.prefix, EndSet(x, false) + EndSet(y, false))
    ensures xy.exact.None? ==> SameElements(xy.suffix, EndSet(x, true) + EndSet(y, true))
  {
    if x.exact.Some? && y.exact.Some? {
      CleanedMeans(x.exact.value + y.exact.value, false);
    } else {
      CleanedMeans(EndSet(x, false) + EndSet(y, false), false);
      CleanedMeans(EndSet(x, true) + EndSet(y, true), true);
    }
    hide Cleaned;
  }

  lemma SideCovered(x: Info, xy: Info, w: Str, T: set<Str>, other: Info)
    requires xy.exact.None? && Covers(x, w, T) && Eval(xy.query, T)
    requires forall z :: z in EndSet(x, false) ==> z in xy.prefix
    requires forall z :: z in EndSet(x, true) ==> z in xy.suffix
    ensures Covers(xy, w, T)
  {
    EndSetCovers(x, w, T, false);
    EndSetCovers(x, w, T, true);
    hide HasAffix, EndSet;
    MoreAffixes(EndSet(x, false), xy.prefix, w, false);
    MoreAffixes(EndSet(x, true), xy.suffix, w, true);
  }

  lemma EitherCovers(x: Info, y: Info, xy: Info, w: Str, T: set<Str>)
    requires IsEither(x, y, xy) && (Covers(x, w, T) || Covers(y, w, T))
    ensures Covers(xy, w, T)
  {
    EitherMeans(x, y, xy);
    hide EitherSets, EndSet, HasAffix, SideRequired, Solid, WellFormed;
    if Covers(x, w, T) {
      SideHolds(x, y, w, T);
      if xy.exact.None? {
        SideCovered(x, xy, w, T, y);
      }
    } else {
      SideHolds(y, x, w, T);
      if xy.exact.None? {
        SideCovered(y, xy, w, T, x);
      }
    }
  }

  lemma EitherIsValid(x: Info, y: Info, xy: Info)
    requires IsEither(x, y, xy) && Valid(x) && Valid(y)
    ensures Valid(xy)
  {
    hide WellFormed, Solid;
  }

  lemma EitherExact(x: Info, y: Info, xy: Info, out: Info)
    requires IsEither(x, y, xy) && Simplified(xy, out)
    ensures out.exact.Some? ==> x.exact.Some? && y.exact.Some? && forall w :: w in out.exact.value ==> InEither(w, x, y)
    ensures Valid(x) && Valid(y) ==> Valid(out)
  {
    EitherMeans(x, y, xy);
    if Valid(x) && Valid(y) {
      EitherIsValid(x, y, xy);
    }
    hide EitherSets, Covers, WellFormed, Solid, EndsRequired, Valid, SmallSets, SideRequired, EndSet;
  }

  lemma EitherQuery(x: Info, y: Info, xy: Info, out: Info, T: set<Str>)
    requires IsEither(x, y, xy) && Simplified(xy, out) && Valid(x) && Valid(y)
    ensures Eval(out.query, T) <==> (SideRequired(x, y, T) || SideRequired(y, x, T)) && AlternateEndsRequired(x, y, out, T)
  {
    EitherMeans(x, y, xy);
    EitherIsValid(x, y, xy);
    hide EitherSets, Covers, WellFormed, Solid, Valid, SmallSets, SideRequired, EndSet, Required;
    if xy.exact.Some? {
      SameRequired(xy.exact.value, x.exact.value + y.exact.value, T);
    } else {
      SameRequired(xy.prefix, EndSet(x, false) + EndSet(y, false), T);
      SameRequired(xy.suffix, EndSet(x, true) + EndSet(y, true), T);
    }
    ExactEnds(x, y);
  }

  lemma ExactEnds(x: Info, y: Info)
    ensures x.exact.Some? ==> EndSet(x, false) == x.exact.value == EndSet(x, true)
    ensures y.exact.Some? ==> EndSet(y, false) == y.exact.value == EndSet(y, true)
  {
  }

  /** Simplification of the united sets gives the information for the alternation. */
  lemma AlternateIs(x: Info, y: Info, xy: Info, out: Info)
    requires IsEither(x, y, xy) && Simplified(xy, out)
    ensures Alternates(x, y, out)
  {
    EitherExact(x, y, xy, out);
    hide IsEither, Simplified, Covers, SideRequired, AlternateEndsRequired, Valid, InEither;
    forall w, T | Covers(x, w, T) || Covers(y, w, T)
      ensures Covers(out, w, T)
    {
      EitherCovers(x, y, xy, w, T);
      SimplifiedCovers(xy, out, w, T);
    }
    if Valid(x) && Valid(y) {
      forall T
        ensures Eval(out.query, T) <==> (SideRequired(x, y, T) || SideRequired(y, x, T)) && AlternateEndsRequired(x, y, out, T)
      {
        EitherQuery(x, y, xy, out, T);
      }
    }
  }

  method UniteSets(x: Info, y: Info) returns (exact: Option<seq<Str>>, prefix: seq<Str>, suffix: seq<Str>)
    ensures Sets(x.canEmpty || y.canEmpty, exact, prefix, suffix) == EitherSets(SetsOf(x), SetsOf(y))
  {
    exact, prefix, suffix := None, [], [];
    if x.exact.Some? && y.exact.Some? {
      var both := Union(x.exact.value, y.exact.value, false);
      exact := Some(both);
    } else if x.exact.Some? {
      prefix := Union(x.exact.value, y.prefix, false);
      suffix := Union(x.exact.value, y.suffix, true);
    } else if y.exact.Some? {
      prefix := Union(x.prefix, y.exact.value, false);
      suffix := Union(x.suffix, y.exact.value, true);
    } else {
      prefix := Union(x.prefix, y.prefix, false);
      suffix := Union(x.suffix, y.suffix, true);
    }
  }

  /** The information for x|y, given that for x and y. */
  method Alternate(x: Info, y: Info) returns (out: Info)
    requires WellFormed(x.query) && WellFormed(y.query)
    ensures Alternates(x, y, out) && WellFormed(out.query)
    ensures SetsOf(out) == SimpleSets(EitherSets(SetsOf(x), SetsOf(y)), false) && Tidy(SetsOf(out))
  {
    hide EitherSets, SimpleSets, Alternates, Simplified, SimpleQuery, Required, Tidy;
    var exact, prefix, suffix := UniteSets(x, y);
    var qx, qy := x, y;
    if y.exact.None? {
      qx := AddExact(x);
    }
    if x.exact.None? {
      qy := AddExact(y);
    }
    var q := AndOr(qx.query, qy.query, QOr);
    var xy := Info(x.canEmpty || y.canEmpty, exact, prefix, suffix, q);
    out := Simplify(xy, false);
    AlternateIs(x, y, xy, out);
  }

  // ---------------------------------------------------------------- analyze

  ghost predicate SoundAt(info: Info, re: R.Regexp, text: Str, i: nat, j: nat, T: set<Str>, orbit: R.Orbit)
    requires R.WellFormed(re)
  {
    i <= j <= |text| && R.Matches(re, text, i, j, orbit) && Trigrams(text[i..j]) <= T ==> Covers(info, text[i..j], T)
  }

  /** Whatever span of whatever text the regexp matches, the information covers it. */
  ghost predicate Sound(info: Info, re: R.Regexp, orbit: R.Orbit)
    requires R.WellFormed(re)
  {
    forall text, i, j, T :: SoundAt(info, re, text, i, j, T, orbit)
  }

  ghost predicate ExactAt(info: Info, re: R.Regexp, text: Str, i: nat, j: nat, orbit: R.Orbit)
    requires R.WellFormed(re) && info.exact.Some?
  {
    i <= j <= |text| && text[i..j] in info.exact.value ==> R.Matches(re, text, i, j, orbit)
  }

  /** An exact set holds nothing but matches, if no assertion asks about the surroundings. */
  ghost predicate Exact(info: Info, re: R.Regexp, orbit: R.Orbit)
    requires R.WellFormed(re)
  {
    R.Plain(re) && info.exact.Some? ==> forall text, i, j :: ExactAt(info, re, text, i, j, orbit)
  }

  ghost predicate Right(info: Info, re: R.Regexp, orbit: R.Orbit)
    requires R.WellFormed(re)
  {
    Valid(info) && Sound(info, re, orbit) && Exact(info, re, orbit)
  }

  lemma AnyCharCovers(w: Str, T: set<Str>)
    requires Trigrams(w) <= T
    ensures Covers(AnyCharInfo, w, T) && Covers(AnyMatch, w, T)
  {
    assert IsAffix([], w, false) && IsAffix([], w, true);
    assert [] in AnyMatch.prefix && [] in AnyMatch.suffix;
  }

  lemma RightAny(re: R.Regexp, orbit: R.Orbit)
    requires R.WellFormed(re)
    ensures Right(AnyCharInfo, re, orbit) && Right(AnyMatch, re, orbit)
  {
    forall text, i: nat, j: nat, T
      ensures SoundAt(AnyCharInfo, re, text, i, j, T, orbit) && SoundAt(AnyMatch, re, text, i, j, T, orbit)
    {
      if 0 <= i <= j <= |text| && Trigrams(text[i..j]) <= T {
        AnyCharCovers(text[i..j], T);
      }
    }
  }

  lemma EmptyStringCovers(T: set<Str>)
    ensures Covers(EmptyString, [], T) && Valid(EmptyString)
  {
  }

  lemma RightEmpty(re: R.Regexp, orbit: R.Orbit)
    requires re.EmptyMatch? || re.Assert? || re == R.Concat([])
    ensures Right(EmptyString, re, orbit)
  {
    forall text, i: nat, j: nat, T
      ensures SoundAt(EmptyString, re, text, i, j, T, orbit)
    {
      EmptyStringCovers(T);
    }
  }

  lemma RightNoMatch(re: R.Regexp, orbit: R.Orbit)
    requires re.NoMatch? || re == R.Alternate([])
    ensures Right(NoMatchInfo, re, orbit)
  {
  }

  /** The information covers exactly the members of a character class. */
  ghost predicate RightForClass(info: Info, ranges: seq<int>)
    requires |ranges| == 1 || R.Pairs(ranges)
  {
    && Valid(info)
    && (forall w, T :: R.InClass(ranges, w) && Trigrams(w) <= T ==> Covers(info, w, T))
    && (info.exact.Some? ==> forall w :: w in info.exact.value ==> R.InClass(ranges, w))
  }

  /** A range of at most 100 runes has the encodings of its runes. */
  lemma RangeStrings(lo: int, hi: int, w: Str)
    requires hi - lo <= 100
    ensures R.InRange(lo, hi, w) <==> exists r :: lo <= r <= hi && w == EncodeRune(r)
  {
    if 0 <= lo && hi <= MaxRune && lo <= hi {
      LangOfSmall(lo, hi, w);
    }
  }

  /** The strings of a range, as string(rune) gives them. */
  function RuneList(lo: int, hi: int): seq<Str>
    decreases hi - lo + 1
  {
    if lo > hi then [] else RuneList(lo, hi - 1) + [EncodeRune(hi)]
  }

  /** The strings of a class, in the order of analyze. */
  function ClassList(ranges: seq<int>): seq<Str>
    requires R.Pairs(ranges)
  {
    if ranges == [] then [] else RuneList(ranges[0], ranges[1]) + ClassList(ranges[2..])
  }

  lemma {:induction false} RuneListMeans(lo: int, hi: int, w: Str)
    ensures w in RuneList(lo, hi) <==> exists r :: lo <= r <= hi && w == EncodeRune(r)
    decreases hi - lo + 1
  {
    if lo <= hi {
      RuneListMeans(lo, hi - 1, w);
      hide EncodeRune;
      if w == EncodeRune(hi) {
        assert w in RuneList(lo, hi);
      }
    }
  }

  lemma {:induction false} ClassListMeans(ranges: seq<int>, w: Str)
    requires R.Pairs(ranges) && Width(ranges) <= 100
    ensures w in ClassList(ranges) <==> R.InPairs(ranges, w)
  {
    if ranges != [] {
      RangeStrings(ranges[0], ranges[1], w);
      RuneListMeans(ranges[0], ranges[1], w);
      hide R.InRange;
      ClassListMeans(ranges[2..], w);
    }
  }

  method ClassStrings(ranges: seq<int>) returns (exact: seq<Str>)
    requires R.Pairs(ranges) && Width(ranges) <= 100
    ensures exact == ClassList(ranges)
    ensures forall w :: w in exact <==> R.InPairs(ranges, w)
  {
    exact := [];
    var i := 0;
    assert ranges[0..] == ranges;
    while i < |ranges|
      invariant 0 <= i <= |ranges| && R.Pairs(ranges[i..])
      invariant exact + ClassList(ranges[i..]) == ClassList(ranges)
    {
      var strings := RangeStringsFrom(ranges[i], ranges[i + 1]);
      assert ranges[i..][2..] == ranges[i + 2..];
      assert ClassList(ranges[i..]) == strings + ClassList(ranges[i + 2..]);
      hide RuneList, ClassList;
      assert exact + (strings + ClassList(ranges[i + 2..])) == (exact + strings) + ClassList(ranges[i + 2..]);
      exact := exact + strings;
      i := i + 2;
    }
    assert ranges[i..] == [];
    forall w
      ensures w in exact <==> R.InPairs(ranges, w)
    {
      ClassListMeans(ranges, w);
    }
  }

  method RangeStringsFrom(lo: int, hi: int) returns (strings: seq<Str>)
    requires lo <= hi
    ensures strings == RuneList(lo, hi)
  {
    strings := [];
    var rr := lo;
    while rr <= hi
      invariant lo <= rr <= hi + 1 && strings == RuneList(lo, rr - 1)
    {
      strings := strings + [EncodeRune(rr)];
      rr := rr + 1;
    }
  }

  // --------------------------------------------------------- the sets of a regexp

  const AnySets := SetsOf(AnyCharInfo)

  function ExactSets(exact: seq<Str>): Sets {
    Sets(false, Some(exact), [], [])
  }

  function SetsOfClass(ranges: seq<int>): Sets
    requires |ranges| == 1 || R.Pairs(ranges)
  {
    if |ranges| == 0 then SetsOf(NoMatchInfo)
    else if |ranges| == 1 then SimpleSets(ExactSets([EncodeRune(ranges[0])]), false)
    else if Width(ranges) > 100 then AnySets
    else SimpleSets(ExactSets(ClassList(ranges)), false)
  }

  function ConcatSets(x: Sets, y: Sets): Sets {
    SimpleSets(JoinedSets(x, y), false)
  }

  function AlternateSets(x: Sets, y: Sets): Sets {
    SimpleSets(EitherSets(x, y), false)
  }

  /** The sets of the first n runes of a case-folded literal, one by one. */
  function SetsOfRunes(runes: seq<int>, orbit: R.Orbit): Sets {
    if runes == [] then SetsOf(EmptyString)
    else
      var n := |runes| - 1;
      ConcatSets(SetsOfRunes(runes[..n], orbit), SetsOfClass(R.FoldClass(runes[n], orbit)))
  }

  function SetsOfFolded(runes: seq<int>, orbit: R.Orbit): Sets {
    if |runes| == 1 then SetsOfClass(R.FoldClass(runes[0], orbit)) else SetsOfRunes(runes, orbit)
  }

  /** An exact set turned into prefixes and suffixes. */
  function LooseSets(s: Sets): Sets {
    if s.exact.Some? then Sets(s.canEmpty, None, s.exact.value, s.exact.value) else s
  }

  /** The sets that analyze gives, as a function of the regexp. */
  ghost function SetsFor(re: R.Regexp, orbit: R.Orbit): Sets
    requires R.WellFormed(re)
    decreases re, 0
  {
    match re
    case NoMatch => SetsOf(NoMatchInfo)
    case EmptyMatch => SetsOf(EmptyString)
    case Assert(_) => SetsOf(EmptyString)
    case Literal(runes, fold) =>
      if fold then SetsOfFolded(runes, orbit) else SimpleSets(ExactSets([EncodeAll(runes)]), false)
    case CharClass(ranges) => SetsOfClass(ranges)
    case AnyCharNotNL => AnySets
    case AnyChar => AnySets
    case Capture(sub) => SetsFor(sub, orbit)
    case Concat(subs) => SetsForAll(subs, orbit)
    case Alternate(subs) => SetsForSome(subs, orbit)
    case Quest(sub) => AlternateSets(SetsFor(sub, orbit), SetsOf(EmptyString))
    case Star(_) => SetsOf(AnyMatch)
    case Plus(sub) => SimpleSets(LooseSets(SetsFor(sub, orbit)), false)
    case Repeat(sub, min, _) =>
      if min == 0 then SetsOf(AnyMatch) else SimpleSets(LooseSets(SetsFor(sub, orbit)), false)
  }

  /** The sets of a concatenation of expressions, from the left. */
  ghost function SetsForAll(subs: seq<R.Regexp>, orbit: R.Orbit): Sets
    requires forall s | s in subs :: R.WellFormed(s)
    decreases subs, 0
  {
    if subs == [] then SetsOf(EmptyString)
    else
      var n := |subs| - 1;
      if n == 0 then SetsFor(subs[0], orbit) else ConcatSets(SetsForAll(subs[..n], orbit), SetsFor(subs[n], orbit))
  }

  ghost function SetsForSome(subs: seq<R.Regexp>, orbit: R.Orbit): Sets
    requires forall s | s in subs :: R.WellFormed(s)
    decreases subs, 0
  {
    if subs == [] then SetsOf(NoMatchInfo)
    else
      var n := |subs| - 1;
      if n == 0 then SetsFor(subs[0], orbit) else AlternateSets(SetsForSome(subs[..n], orbit), SetsFor(subs[n], orbit))
  }

  lemma ClassIs(ranges: seq<int>, exact: seq<Str>, out: Info)
    requires (|ranges| == 1 || R.Pairs(ranges)) && Simplified(Info(false, Some(exact), [], [], AllQuery), out)
    requires forall w :: w in exact <==> R.InClass(ranges, w)
    ensures RightForClass(out, ranges)
  {
    var info := Info(false, Some(exact), [], [], AllQuery);
    assert Valid(info);
    hide R.InClass, EndsRequired, WellFormed, SmallSets;
    forall w, T | R.InClass(ranges, w) && Trigrams(w) <= T
      ensures Covers(out, w, T)
    {
      assert Covers(info, w, T);
      SimplifiedCovers(info, out, w, T);
    }
  }

  lemma ClassIsAny(ranges: seq<int>)
    requires |ranges| == 1 || R.Pairs(ranges)
    ensures RightForClass(AnyCharInfo, ranges) && (Wide(ranges) ==> Enforces(AnyCharInfo, ClassDemand(ranges)))
  {
    forall w, T | Trigrams(w) <= T
      ensures Covers(AnyCharInfo, w, T)
    {
      AnyCharCovers(w, T);
    }
  }

  /** The span of a class, as analyze adds it up. */
  method ClassWidth(ranges: seq<int>) returns (n: int)
    requires R.Pairs(ranges)
    ensures n == Width(ranges)
  {
    n := 0;
    var i := 0;
    assert ranges[0..] == ranges;
    while i < |ranges|
      invariant 0 <= i <= |ranges| && i % 2 == 0 && R.Pairs(ranges[i..]) && n + Width(ranges[i..]) == Width(ranges)
    {
      assert ranges[i..][2..] == ranges[i + 2..];
      n := n + (ranges[i + 1] - ranges[i]);
      i := i + 2;
    }
    assert ranges[i..] == [];
  }

  method AnalyzeClass(ranges: seq<int>) returns (info: Info)
    requires |ranges| == 1 || R.Pairs(ranges)
    ensures RightForClass(info, ranges) && SetsOf(info) == SetsOfClass(ranges)
    ensures Enforces(info, ClassDemand(ranges))
  {
    hide RightForClass, Simplified, SimpleSets, SimpleQuery, R.InPairs, Eval, Cleaned, Tidy, Enforces, ClassDemand, ClassList;
    if |ranges| == 0 {
      RightForNothing(ranges);
      return NoMatchInfo;
    }
    var exact: seq<Str>;
    if |ranges| == 1 {
      exact := [EncodeRune(ranges[0])];
    } else {
      var n := ClassWidth(ranges);
      if n > 100 {
        ClassIsAny(ranges);
        return AnyCharInfo;
      }
      exact := ClassStrings(ranges);
      ClassHasStrings(ranges);
    }
    info := Simplify(Info(false, Some(exact), [], [], AllQuery), false);
    ClassIs(ranges, exact, info);
    ClassEnforces(ranges, exact, info);
  }

  /** A class demands the trigrams of one of its strings, as far as they are listed. */
  ghost function ClassDemand(ranges: seq<int>): set<Str> -> bool
    requires |ranges| == 1 || R.Pairs(ranges)
  {
    (T: set<Str>) => Wide(ranges) || exists w :: R.InClass(ranges, w) && Trigrams(w) <= T
  }

  lemma ClassHasStrings(ranges: seq<int>)
    requires R.Pairs(ranges) && ranges != []
    ensures ClassList(ranges) != []
  {
    hide EncodeRune;
    assert RuneList(ranges[0], ranges[1]) != [];
  }

  lemma ClassEnforces(ranges: seq<int>, exact: seq<Str>, out: Info)
    requires (|ranges| == 1 || R.Pairs(ranges)) && exact != []
    requires forall w :: w in exact <==> R.InClass(ranges, w)
    requires var info := Info(false, Some(exact), [], [], AllQuery);
             Simplified(info, out) && SetsOf(out) == SimpleSets(SetsOf(info), false)
    ensures Enforces(out, ClassDemand(ranges))
  {
    var info := Info(false, Some(exact), [], [], AllQuery);
    hide R.InClass, Simplified, SimpleSets;
    assert ExactMeets(exact, ClassDemand(ranges));
    SimplifiedEnforces(info, out, false, ClassDemand(ranges));
  }

  lemma RightForNothing(ranges: seq<int>)
    requires ranges == []
    ensures RightForClass(NoMatchInfo, ranges) && Enforces(NoMatchInfo, ClassDemand(ranges))
  {
  }

  /** The information covers exactly the strings of a case-folded literal. */
  ghost predicate RightForFolded(info: Info, runes: seq<int>, orbit: R.Orbit) {
    && Valid(info)
    && (forall w, T :: R.InFolded(runes, w, orbit) && Trigrams(w) <= T ==> Covers(info, w, T))
    && (info.exact.Some? ==> forall w :: w in info.exact.value ==> R.InFolded(runes, w, orbit))
  }

  lemma JoinIsCovered(x: Info, y: Info, out: Info, u: Str, v: Str, T: set<Str>)
    requires CoversJoins(x, y, out) && Trigrams(u + v) <= T
    requires Trigrams(u) <= T ==> Covers(x, u, T)
    requires Trigrams(v) <= T ==> Covers(y, v, T)
    ensures Covers(out, u + v, T)
  {
    TrigramsInfix([], u, v);
    TrigramsInfix(u, v, []);
    assert [] + u + v == u + v && u + v + [] == u + v;
  }

  lemma FoldedCovers(x: Info, a: seq<int>, u: Str, T: set<Str>, orbit: R.Orbit)
    requires RightForFolded(x, a, orbit) && R.InFolded(a, u, orbit)
    ensures Trigrams(u) <= T ==> Covers(x, u, T)
  {
  }

  lemma ClassCovers(y: Info, ranges: seq<int>, v: Str, T: set<Str>)
    requires (|ranges| == 1 || R.Pairs(ranges)) && RightForClass(y, ranges) && R.InClass(ranges, v)
    ensures Trigrams(v) <= T ==> Covers(y, v, T)
  {
  }

  lemma FoldedStepCovers(x: Info, a: seq<int>, y: Info, r: int, out: Info, w: Str, T: set<Str>, orbit: R.Orbit)
    requires RightForFolded(x, a, orbit) && RightForClass(y, R.FoldClass(r, orbit)) && CoversJoins(x, y, out)
    requires R.InFolded(a + [r], w, orbit) && Trigrams(w) <= T
    ensures Covers(out, w, T)
  {
    var k := R.InFoldedSplit(a, r, w, orbit);
    var u, v := w[..k], w[k..];
    hide *;
    assert w == u + v;
    FoldedCovers(x, a, u, T, orbit);
    ClassCovers(y, R.FoldClass(r, orbit), v, T);
    JoinIsCovered(x, y, out, u, v, T);
  }

  lemma FoldedStepExact(x: Info, a: seq<int>, y: Info, r: int, out: Info, w: Str, orbit: R.Orbit)
    requires RightForFolded(x, a, orbit) && RightForClass(y, R.FoldClass(r, orbit)) && Concatenates(x, y, out)
    requires out.exact.Some? && w in out.exact.value
    ensures R.InFolded(a + [r], w, orbit)
  {
    assert JoinsOnly(w, x, y);
    var u, v :| u in x.exact.value && v in y.exact.value && w == u + v;
    assert w[..|u|] == u && w[|u|..] == v;
    R.InFoldedAppend(a, r, w, |u|, orbit);
  }

  lemma FoldedStep(x: Info, a: seq<int>, y: Info, r: int, out: Info, orbit: R.Orbit)
    requires RightForFolded(x, a, orbit) && RightForClass(y, R.FoldClass(r, orbit)) && Concatenates(x, y, out)
    ensures RightForFolded(out, a + [r], orbit)
  {
    forall w, T | R.InFolded(a + [r], w, orbit) && Trigrams(w) <= T
      ensures Covers(out, w, T)
    {
      FoldedStepCovers(x, a, y, r, out, w, T, orbit);
    }
    if out.exact.Some? {
      forall w | w in out.exact.value
        ensures R.InFolded(a + [r], w, orbit)
      {
        FoldedStepExact(x, a, y, r, out, w, orbit);
      }
    }
  }

  method AnalyzeFolded(runes: seq<int>, orbit: R.Orbit) returns (info: Info)
    ensures RightForFolded(info, runes, orbit) && SetsOf(info) == SetsOfFolded(runes, orbit)
    ensures Enforces(info, Demand(R.Literal(runes, true), orbit))
  {
    hide Enforces, Demand, Valid, RightForFolded, RightForClass, Concatenates, ConcatSets, R.FoldClass, SetsOfClass, SimpleSets, JoinedSets, Tidy;
    if |runes| == 1 {
      info := AnalyzeClass(R.FoldClass(runes[0], orbit));
      OneFolded(info, runes[0], orbit);
      assert runes == [runes[0]];
      AnyDemand(info, ClassDemand(R.FoldClass(runes[0], orbit)), runes, orbit);
      return;
    }
    info := EmptyString;
    NoneFolded(orbit);
    for i := 0 to |runes|
      invariant RightForFolded(info, runes[..i], orbit) && SetsOf(info) == SetsOfRunes(runes[..i], orbit)
      invariant Enforces(info, Demand(R.Literal(runes[..i], true), orbit))
    {
      var y := AnalyzeClass(R.FoldClass(runes[i], orbit));
      FoldedIsWellFormed(info, runes[..i], y, R.FoldClass(runes[i], orbit), orbit);
      var xy := Concat(info, y);
      ConcatSetsAre(info, y, xy);
      FoldedStep(info, runes[..i], y, runes[i], xy, orbit);
      FoldedEnforces(info, runes[..i], y, runes[i], xy, orbit);
      assert runes[..i + 1] == runes[..i] + [runes[i]] && runes[..i + 1][..i] == runes[..i];
      info := xy;
    }
    assert runes[..|runes|] == runes;
  }

  lemma ConcatSetsAre(x: Info, y: Info, out: Info)
    requires SetsOf(out) == SimpleSets(JoinedSets(SetsOf(x), SetsOf(y)), false)
    ensures SetsOf(out) == ConcatSets(SetsOf(x), SetsOf(y))
  {
  }

  lemma AlternateSetsAre(x: Info, y: Info, out: Info)
    requires SetsOf(out) == SimpleSets(EitherSets(SetsOf(x), SetsOf(y)), false)
    ensures SetsOf(out) == AlternateSets(SetsOf(x), SetsOf(y))
  {
  }

  lemma NoneFolded(orbit: R.Orbit)
    ensures RightForFolded(EmptyString, [], orbit) && Enforces(EmptyString, Demand(R.Literal([], true), orbit))
  {
  }

  lemma AnyDemand(info: Info, D: set<Str> -> bool, runes: seq<int>, orbit: R.Orbit)
    requires Enforces(info, D) && (|runes| < 3 || !TwoCases(runes, orbit))
    ensures Enforces(info, Demand(R.Literal(runes, true), orbit))
  {
  }

  /** One more rune of a case-folded literal. */
  lemma FoldedEnforces(x: Info, a: seq<int>, y: Info, r: int, out: Info, orbit: R.Orbit)
    requires RightForFolded(x, a, orbit) && RightForClass(y, R.FoldClass(r, orbit)) && Concatenates(x, y, out)
    requires SetsOf(x) == SetsOfRunes(a, orbit) && SetsOf(y) == SetsOfClass(R.FoldClass(r, orbit))
    requires SetsOf(out) == ConcatSets(SetsOf(x), SetsOf(y))
    requires Enforces(x, Demand(R.Literal(a, true), orbit)) && Enforces(y, ClassDemand(R.FoldClass(r, orbit)))
    ensures Enforces(out, Demand(R.Literal(a + [r], true), orbit))
  {
    hide *;
    FoldedAreValid(x, a, y, r, orbit);
    LiteralIsWellFormed(a);
    LiteralIsWellFormed(a + [r]);
    Trivially(orbit);
    EnforcesLess(x, Demand(R.Literal(a, true), orbit), Anything());
    EnforcesLess(y, ClassDemand(R.FoldClass(r, orbit)), Anything());
    ConcatEnforces(x, y, out, Anything(), Anything(), Anything());
    if |a| < 2 || !TwoCases(a + [r], orbit) {
      AnyDemand(out, Anything(), a + [r], orbit);
    } else {
      SpellingsEnforced(x, a, y, r, out, orbit);
    }
  }

  ghost function Anything(): set<Str> -> bool {
    (T: set<Str>) => true
  }

  lemma LiteralIsWellFormed(runes: seq<int>)
    ensures R.WellFormed(R.Literal(runes, true))
  {
  }

  lemma Trivially(orbit: R.Orbit)
    ensures forall T :: Anything()(T)
  {
  }

  lemma FoldedAreValid(x: Info, a: seq<int>, y: Info, r: int, orbit: R.Orbit)
    requires RightForFolded(x, a, orbit) && RightForClass(y, R.FoldClass(r, orbit))
    ensures Valid(x) && Valid(y)
  {
  }

  lemma FoldedIsWellFormed(x: Info, a: seq<int>, y: Info, ranges: seq<int>, orbit: R.Orbit)
    requires RightForFolded(x, a, orbit) && (|ranges| == 1 || R.Pairs(ranges)) && RightForClass(y, ranges)
    ensures WellFormed(x.query) && WellFormed(y.query)
  {
  }

  lemma OneFolded(info: Info, r: int, orbit: R.Orbit)
    requires RightForClass(info, R.FoldClass(r, orbit))
    ensures RightForFolded(info, [r], orbit)
  {
    forall w
      ensures R.InFolded([r], w, orbit) <==> R.InClass(R.FoldClass(r, orbit), w)
    {
      assert [r][1..] == [] && w[..|w|] == w;
      if R.InClass(R.FoldClass(r, orbit), w) {
        assert R.InFolded([], w[|w|..], orbit);
      }
      if R.InFolded([r], w, orbit) {
        var k :| 0 <= k <= |w| && R.InClass(R.FoldClass(r, orbit), w[..k]) && R.InFolded([], w[k..], orbit);
        assert w[..k] == w;
      }
    }
  }

  // ------------------------------------------------------ the inductive cases

  lemma {:induction false} RightIfSame(info: Info, re: R.Regexp, re': R.Regexp, orbit: R.Orbit)
    requires R.WellFormed(re) && R.WellFormed(re') && Right(info, re, orbit)
    requires R.Plain(re') ==> R.Plain(re)
    requires forall text, i: nat, j: nat | i <= j <= |text| ::
               R.Matches(re, text, i, j, orbit) <==> R.Matches(re', text, i, j, orbit)
    ensures Right(info, re', orbit)
  {
    forall text, i: nat, j: nat, T
      ensures SoundAt(info, re', text, i, j, T, orbit)
    {
      assert SoundAt(info, re, text, i, j, T, orbit);
    }
    if R.Plain(re') && info.exact.Some? {
      forall text, i: nat, j: nat
        ensures ExactAt(info, re', text, i, j, orbit)
      {
        assert ExactAt(info, re, text, i, j, orbit);
      }
    }
  }

  lemma ConcatStepSound(x: Info, a: seq<R.Regexp>, y: Info, b: R.Regexp, out: Info,
                        text: Str, i: nat, j: nat, T: set<Str>, orbit: R.Orbit)
    requires R.WellFormed(b) && R.WellFormed(R.Concat(a)) && R.WellFormed(R.Concat(a + [b]))
    requires Sound(x, R.Concat(a), orbit) && Sound(y, b, orbit) && Concatenates(x, y, out)
    ensures SoundAt(out, R.Concat(a + [b]), text, i, j, T, orbit)
  {
    if i <= j <= |text| && R.Matches(R.Concat(a + [b]), text, i, j, orbit) && Trigrams(text[i..j]) <= T {
      var k := R.MatchesAllSplit(a, b, text, i, j, orbit);
      assert R.Matches(R.Concat(a), text, i, k, orbit);
      hide R.Matches, R.MatchesAll, R.WellFormed, Covers, Sound, Concatenates;
      SpanParts(text, i, k, j, T);
      SoundCovers(x, R.Concat(a), text, i, k, T, orbit);
      SoundCovers(y, b, text, k, j, T, orbit);
      JoinCovered(x, y, out, text[i..k], text[k..j], T);
    }
  }

  lemma SpanParts(text: Str, i: nat, k: nat, j: nat, T: set<Str>)
    requires i <= k <= j <= |text| && Trigrams(text[i..j]) <= T
    ensures text[i..j] == text[i..k] + text[k..j] && Trigrams(text[i..k]) <= T && Trigrams(text[k..j]) <= T
  {
    FirstCopy(text, i, k, j);
    LastCopy(text, i, k, j);
  }

  lemma SoundCovers(info: Info, re: R.Regexp, text: Str, i: nat, j: nat, T: set<Str>, orbit: R.Orbit)
    requires R.WellFormed(re) && Sound(info, re, orbit)
    requires i <= j <= |text| && R.Matches(re, text, i, j, orbit) && Trigrams(text[i..j]) <= T
    ensures Covers(info, text[i..j], T)
  {
    hide R.Matches, R.WellFormed, Covers;
    assert SoundAt(info, re, text, i, j, T, orbit);
  }

  lemma JoinCovered(x: Info, y: Info, out: Info, u: Str, v: Str, T: set<Str>)
    requires Concatenates(x, y, out) && Covers(x, u, T) && Covers(y, v, T) && Trigrams(u + v) <= T
    ensures Covers(out, u + v, T)
  {
    hide Covers, Trigrams, JoinsOnly, JoinEndsRequired, SeamRequired;
  }

  lemma ConcatStepExact(x: Info, a: seq<R.Regexp>, y: Info, b: R.Regexp, out: Info, text: Str, i: nat, j: nat, orbit: R.Orbit)
    requires R.WellFormed(b) && R.WellFormed(R.Concat(a)) && R.WellFormed(R.Concat(a + [b]))
    requires R.Plain(R.Concat(a)) && R.Plain(b) && out.exact.Some?
    requires Exact(x, R.Concat(a), orbit) && Exact(y, b, orbit) && Concatenates(x, y, out)
    ensures ExactAt(out, R.Concat(a + [b]), text, i, j, orbit)
  {
    if i <= j <= |text| && text[i..j] in out.exact.value {
      var w := text[i..j];
      assert JoinsOnly(w, x, y);
      var u, v :| u in x.exact.value && v in y.exact.value && w == u + v;
      var k := i + |u|;
      assert text[i..k] == w[..|u|] == u && text[k..j] == w[|u|..] == v;
      assert ExactAt(x, R.Concat(a), text, i, k, orbit) && ExactAt(y, b, text, k, j, orbit);
      R.MatchesAllAppend(a, b, text, i, k, j, orbit);
    }
  }

  lemma ConcatStep(x: Info, a: seq<R.Regexp>, y: Info, b: R.Regexp, out: Info, orbit: R.Orbit)
    requires R.WellFormed(b) && R.WellFormed(R.Concat(a)) && R.WellFormed(R.Concat(a + [b]))
    requires Right(x, R.Concat(a), orbit) && Right(y, b, orbit) && Concatenates(x, y, out)
    ensures Right(out, R.Concat(a + [b]), orbit)
  {
    forall text, i: nat, j: nat, T
      ensures SoundAt(out, R.Concat(a + [b]), text, i, j, T, orbit)
    {
      ConcatStepSound(x, a, y, b, out, text, i, j, T, orbit);
    }
    if R.Plain(R.Concat(a + [b])) && out.exact.Some? {
      assert forall s | s in a :: s in a + [b];
      assert b in a + [b];
      forall text, i: nat, j: nat
        ensures ExactAt(out, R.Concat(a + [b]), text, i, j, orbit)
      {
        ConcatStepExact(x, a, y, b, out, text, i, j, orbit);
      }
    }
  }

  /** One more alternative; a and b together are the alternatives of c. */
  lemma AlternateStep(x: Info, a: R.Regexp, y: Info, b: R.Regexp, out: Info, c: R.Regexp, orbit: R.Orbit)
    requires R.WellFormed(a) && R.WellFormed(b) && R.WellFormed(c)
    requires Right(x, a, orbit) && Right(y, b, orbit) && Unites(x, y, out)
    requires R.Plain(c) ==> R.Plain(a) && R.Plain(b)
    requires forall text, i: nat, j: nat | i <= j <= |text| ::
               R.Matches(c, text, i, j, orbit) <==> R.Matches(a, text, i, j, orbit) || R.Matches(b, text, i, j, orbit)
    ensures Right(out, c, orbit)
  {
    forall text, i: nat, j: nat, T
      ensures SoundAt(out, c, text, i, j, T, orbit)
    {
      assert SoundAt(x, a, text, i, j, T, orbit) && SoundAt(y, b, text, i, j, T, orbit);
    }
    if R.Plain(c) && out.exact.Some? {
      forall text, i: nat, j: nat
        ensures ExactAt(out, c, text, i, j, orbit)
      {
        if i <= j <= |text| && text[i..j] in out.exact.value {
          assert InEither(text[i..j], x, y);
          assert ExactAt(x, a, text, i, j, orbit) && ExactAt(y, b, text, i, j, orbit);
        }
      }
    }
  }

  lemma AlternateMatches(a: seq<R.Regexp>, b: R.Regexp, orbit: R.Orbit)
    requires R.WellFormed(b) && R.WellFormed(R.Alternate(a)) && R.WellFormed(R.Alternate(a + [b]))
    ensures R.Plain(R.Alternate(a + [b])) ==> R.Plain(R.Alternate(a)) && R.Plain(b)
    ensures forall text, i: nat, j: nat | i <= j <= |text| ::
              R.Matches(R.Alternate(a + [b]), text, i, j, orbit) <==>
              R.Matches(R.Alternate(a), text, i, j, orbit) || R.Matches(b, text, i, j, orbit)
  {
    assert forall s :: s in a + [b] <==> s in a || s == b;
  }

  /** An exact set turned into prefixes and suffixes, for an operand that occurs at least once. */
  function Loosen(info: Info): Info {
    if info.exact.Some? then info.(prefix := info.exact.value, suffix := info.exact.value, exact := None) else info
  }

  lemma LoosenCovers(info: Info, w: Str, T: set<Str>)
    requires Covers(info, w, T)
    ensures Covers(Loosen(info), w, T)
  {
    if info.exact.Some? {
      SelfAffix(info.exact.value, w, false);
      SelfAffix(info.exact.value, w, true);
    }
  }

  /** The first copy of a repetition is a part of it, and a prefix. */
  lemma FirstCopy(text: Str, i: nat, k: nat, j: nat)
    requires i <= k <= j <= |text|
    ensures IsAffix(text[i..k], text[i..j], false) && Trigrams(text[i..k]) <= Trigrams(text[i..j])
  {
    var w := text[i..j];
    assert w[..k - i] == text[i..k];
    TrigramsSlice(w, 0, k - i);
  }

  /** The last copy is a suffix. */
  lemma LastCopy(text: Str, i: nat, k: nat, j: nat)
    requires i <= k <= j <= |text|
    ensures IsAffix(text[k..j], text[i..j], true) && Trigrams(text[k..j]) <= Trigrams(text[i..j])
  {
    var w := text[i..j];
    assert w[k - i..|w|] == text[k..j];
    TrigramsSlice(w, k - i, |w|);
  }

  lemma SpanCovered(info: Info, sub: R.Regexp, text: Str, i: nat, j: nat, T: set<Str>, orbit: R.Orbit)
    requires R.WellFormed(sub) && Sound(info, sub, orbit)
    requires i <= j <= |text| && R.Matches(sub, text, i, j, orbit) && Trigrams(text[i..j]) <= T
    ensures Covers(Loosen(info), text[i..j], T)
  {
    hide R.Matches, R.WellFormed, Covers, Loosen;
    assert SoundAt(info, sub, text, i, j, T, orbit);
    LoosenCovers(info, text[i..j], T);
  }

  lemma RepeatSound(info: Info, sub: R.Regexp, min: nat, max: int, text: Str, i: nat, j: nat, T: set<Str>, orbit: R.Orbit)
    requires R.WellFormed(sub) && Sound(info, sub, orbit) && min > 0
    requires i <= j <= |text| && R.MatchesRepeat(sub, min, max, text, i, j, orbit) && Trigrams(text[i..j]) <= T
    ensures Covers(Loosen(info), text[i..j], T)
  {
    hide R.Matches, R.MatchesRepeat, R.WellFormed, Sound, IsAffix, HasAffix, Trigrams;
    R.RepeatEnds(sub, min, max, text, i, j, orbit);
    var k :| i <= k <= j && R.Matches(sub, text, i, k, orbit);
    var m :| i <= m <= j && R.Matches(sub, text, m, j, orbit);
    FirstCopy(text, i, k, j);
    LastCopy(text, i, m, j);
    SpanCovered(info, sub, text, i, k, T, orbit);
    SpanCovered(info, sub, text, m, j, T, orbit);
    var loose := Loosen(info);
    AffixExtends(loose.prefix, loose.prefix, text[i..k], text[i..j], false);
    AffixExtends(loose.suffix, loose.suffix, text[m..j], text[i..j], true);
  }

  // -------------------------------------------------- what the information enforces

  /** Something is left of each set. */
  predicate Filled(s: Sets) {
    if s.exact.Some? then s.exact.value != [] else s.prefix != [] && s.suffix != []
  }

  /** The exact set, if there is one, has only strings whose trigrams meet the demand. */
  ghost predicate ExactMeets(exact: seq<Str>, D: set<Str> -> bool) {
    forall w, T :: w in exact && Trigrams(w) <= T ==> D(T)
  }

  /** Only trigrams that meet the demand D agree with the information. */
  ghost predicate Enforces(info: Info, D: set<Str> -> bool) {
    && (Filled(SetsOf(info)) || (info.exact.None? && forall T :: !Eval(info.query, T)))
    && match info.exact
       case Some(exact) => ExactMeets(exact, D)
       case None => forall T :: Eval(info.query, T) ==> D(T)
  }

  /** The same for information whose sets may still be cut down, which moves what they require into the query. */
  ghost predicate EnforcesEnds(info: Info, D: set<Str> -> bool) {
    && (Filled(SetsOf(info)) || (info.exact.None? && forall T :: !Eval(info.query, T)))
    && match info.exact
       case Some(exact) => ExactMeets(exact, D)
       case None => forall T :: Eval(info.query, T) && Required(info.prefix, T) && Required(info.suffix, T) ==> D(T)
  }

  /** A set that meets the demand still does when it is required instead: a string without trigrams
      would have met it with none. */
  lemma RequiredMeets(t: seq<Str>, D: set<Str> -> bool, T: set<Str>)
    requires t != [] && ExactMeets(t, D) && Required(t, T)
    ensures D(T)
  {
    if !AllLong(t) {
      var w :| w in t && |w| < 3;
      assert Trigrams(w) == {};
    }
  }

  lemma EnforcesLess(info: Info, D: set<Str> -> bool, E: set<Str> -> bool)
    requires Enforces(info, D) && forall T :: D(T) ==> E(T)
    ensures Enforces(info, E)
  {
  }

  lemma SimpleIsFilled(s: Sets, force: bool)
    requires Filled(s)
    ensures Filled(SimpleSets(s, force))
  {
    if s.exact.Some? {
      CleanedMeans(s.exact.value, false);
      assert s.exact.value[0] in Cleaned(s.exact.value, false);
    }
    hide Cleaned, SimplifiedSet, TooMuch;
  }

  /** Simplification gives nothing up. */
  lemma SimplifiedEnforces(info: Info, out: Info, force: bool, D: set<Str> -> bool)
    requires Valid(info) && Simplified(info, out) && SetsOf(out) == SimpleSets(SetsOf(info), force)
    requires EnforcesEnds(info, D)
    ensures Enforces(out, D)
  {
    if Filled(SetsOf(info)) {
      SimpleIsFilled(SetsOf(info), force);
    }
    hide SimpleSets, Covers, Valid, Filled, Required, SmallSets, WellFormed;
    if out.exact.None? && info.exact.Some? {
      forall T | Eval(out.query, T)
        ensures D(T)
      {
        RequiredMeets(info.exact.value, D, T);
      }
    }
  }

  lemma LoosenEnforces(info: Info, D: set<Str> -> bool)
    requires Enforces(info, D)
    ensures EnforcesEnds(Loosen(info), D)
  {
    if info.exact.Some? {
      forall T | Required(info.exact.value, T)
        ensures D(T)
      {
        RequiredMeets(info.exact.value, D, T);
      }
    }
  }

  lemma JoinIsFilled(x: Sets, y: Sets)
    requires Filled(x) && Filled(y)
    ensures Filled(ConcatSets(x, y))
  {
    var a, b := Info(x.canEmpty, x.exact, x.prefix, x.suffix, AllQuery), Info(y.canEmpty, y.exact, y.prefix, y.suffix, AllQuery);
    var xy := JoinedSets(x, y);
    JoinedSetsMean(a, b, Info(xy.canEmpty, xy.exact, xy.prefix, xy.suffix, AllQuery));
    hide JoinedSets, SimpleSets;
    JoinEndsFilled(a, b, Info(xy.canEmpty, xy.exact, xy.prefix, xy.suffix, AllQuery));
    SimpleIsFilled(xy, false);
  }

  lemma JoinIsIn(s: seq<Str>, t: seq<Str>)
    requires s != [] && t != []
    ensures exists w :: IsJoin(w, s, t)
  {
    assert IsJoin(s[0] + t[0], s, t);
  }

  lemma JoinEndsFilled(x: Info, y: Info, xy: Info)
    requires JoinsEnds(x, y, xy) && Filled(SetsOf(x)) && Filled(SetsOf(y))
    ensures Filled(SetsOf(xy))
  {
    hide IsJoin;
    if x.exact.Some? && y.exact.Some? {
      JoinIsIn(x.exact.value, y.exact.value);
    } else {
      if x.exact.Some? {
        JoinIsIn(x.exact.value, y.prefix);
      } else {
        assert x.prefix[0] in xy.prefix;
      }
      if y.exact.Some? {
        JoinIsIn(x.suffix, y.exact.value);
      } else {
        assert y.suffix[0] in xy.suffix;
      }
    }
  }

  /** A concatenation enforces what both parts enforce. */
  lemma ConcatEnforces(x: Info, y: Info, out: Info, D: set<Str> -> bool, E: set<Str> -> bool, F: set<Str> -> bool)
    requires Valid(x) && Valid(y) && Concatenates(x, y, out) && SetsOf(out) == ConcatSets(SetsOf(x), SetsOf(y))
    requires Enforces(x, D) && Enforces(y, E) && forall T :: D(T) && E(T) ==> F(T)
    ensures Enforces(out, F)
  {
    if Filled(SetsOf(x)) && Filled(SetsOf(y)) {
      JoinIsFilled(SetsOf(x), SetsOf(y));
    }
    hide ConcatSets, Valid, CoversJoins, Filled;
    if out.exact.Some? {
      forall w, T | w in out.exact.value && Trigrams(w) <= T
        ensures F(T)
      {
        JoinMeets(x, y, w, D, E, T);
      }
    } else {
      forall T | Eval(out.query, T)
        ensures F(T)
      {
        PartsMeet(x, y, out, D, E, T);
      }
    }
  }

  lemma JoinMeets(x: Info, y: Info, w: Str, D: set<Str> -> bool, E: set<Str> -> bool, T: set<Str>)
    requires JoinsOnly(w, x, y) && ExactMeets(x.exact.value, D) && ExactMeets(y.exact.value, E) && Trigrams(w) <= T
    ensures D(T) && E(T)
  {
    var u, v :| u in x.exact.value && v in y.exact.value && w == u + v;
    PartsArePresent(u, v);
  }

  lemma PartsArePresent(u: Str, v: Str)
    ensures Trigrams(u) <= Trigrams(u + v) && Trigrams(v) <= Trigrams(u + v)
  {
    TrigramsInfix([], u, v);
    TrigramsInfix(u, v, []);
    assert [] + u + v == u + v && u + v + [] == u + v;
  }

  /** What the seam of two sets requires has the trigrams of a string of each, or needs none of one that is short. */
  lemma JoinsMeet(s: seq<Str>, t: seq<Str>, D: set<Str> -> bool, T: set<Str>)
    requires s != [] && t != [] && JoinsRequired(s, t, T)
    ensures ExactMeets(s, D) ==> D(T)
    ensures ExactMeets(t, D) ==> D(T)
  {
    if forall a, b :: a in s && b in t ==> |a| + |b| >= 3 {
      var a, b :| a in s && b in t && Trigrams(a + b) <= T;
      PartsArePresent(a, b);
    } else {
      var a, b :| a in s && b in t && |a| + |b| < 3;
      assert Trigrams(a) == {} && Trigrams(b) == {};
    }
  }

  lemma PartsMeet(x: Info, y: Info, out: Info, D: set<Str> -> bool, E: set<Str> -> bool, T: set<Str>)
    requires Valid(x) && Valid(y) && Enforces(x, D) && Enforces(y, E) && out.exact.None? && Filled(SetsOf(x)) && Filled(SetsOf(y))
    requires Eval(x.query, T) && Eval(y.query, T) && JoinEndsRequired(x, y, out, T)
    ensures D(T) && E(T)
  {
    hide Valid, JoinsRequired, Required, ExactMeets;
    if x.exact.Some? && y.exact.Some? {
      JoinsMeet(x.exact.value, y.exact.value, D, T);
      JoinsMeet(x.exact.value, y.exact.value, E, T);
    } else {
      if x.exact.Some? {
        JoinsMeet(x.exact.value, y.prefix, D, T);
      }
      if y.exact.Some? {
        JoinsMeet(x.suffix, y.exact.value, E, T);
      }
    }
  }

  lemma EitherIsFilled(x: Sets, y: Sets)
    requires Filled(x) || Filled(y)
    requires (Filled(x) || x.exact.None?) && (Filled(y) || y.exact.None?)
    ensures Filled(AlternateSets(x, y))
  {
    var xy := EitherSets(x, y);
    if x.exact.Some? && y.exact.Some? {
      CleanedMeans(x.exact.value + y.exact.value, false);
      assert x.exact.value[0] in xy.exact.value;
    } else {
      SomeEnd(x, y, false);
      SomeEnd(x, y, true);
    }
    hide EitherSets, SimpleSets;
    SimpleIsFilled(xy, false);
  }

  lemma SomeEnd(x: Sets, y: Sets, isSuffix: bool)
    requires Filled(x) || Filled(y)
    ensures Cleaned(EndOf(x, isSuffix) + EndOf(y, isSuffix), isSuffix) != []
  {
    var ends := EndOf(x, isSuffix) + EndOf(y, isSuffix);
    CleanedMeans(ends, isSuffix);
    assert ends[0] in ends;
  }

  /** An alternation enforces what its sides enforce, one or the other. */
  lemma AlternateEnforces(x: Info, y: Info, out: Info, D: set<Str> -> bool, E: set<Str> -> bool, F: set<Str> -> bool)
    requires Valid(x) && Valid(y) && Alternates(x, y, out) && SetsOf(out) == AlternateSets(SetsOf(x), SetsOf(y))
    requires Enforces(x, D) && Enforces(y, E) && forall T :: D(T) || E(T) ==> F(T)
    ensures Enforces(out, F)
  {
    if Filled(SetsOf(x)) || Filled(SetsOf(y)) {
      EitherIsFilled(SetsOf(x), SetsOf(y));
    }
    hide AlternateSets, Valid, Covers, Filled, Required;
    if x.exact.Some? && y.exact.Some? {
      EitherMeets(x.exact.value, y.exact.value, D, E, F);
    }
    if out.exact.None? {
      forall T | Eval(out.query, T)
        ensures F(T)
      {
        if x.exact.Some? && y.exact.Some? {
          RequiredMeets(x.exact.value + y.exact.value, F, T);
        } else if SideRequired(x, y, T) {
          SideMeets(x, y, D, T);
        } else {
          SideMeets(y, x, E, T);
        }
      }
    }
  }

  lemma EitherMeets(s: seq<Str>, t: seq<Str>, D: set<Str> -> bool, E: set<Str> -> bool, F: set<Str> -> bool)
    requires ExactMeets(s, D) && ExactMeets(t, E) && forall T :: D(T) || E(T) ==> F(T)
    ensures ExactMeets(s + t, F)
  {
  }

  lemma SideMeets(x: Info, other: Info, D: set<Str> -> bool, T: set<Str>)
    requires Enforces(x, D) && (x.exact.None? || other.exact.None?) && SideRequired(x, other, T)
    ensures D(T)
  {
    if x.exact.Some? {
      RequiredMeets(x.exact.value, D, T);
    }
  }

  // ------------------------------------------------------ regexps that stay exact

  /** The sets are exact, at most n strings, one of them of at most m bytes. */
  ghost predicate Keeps(s: Sets, n: nat, m: nat) {
    s.exact.Some? && |s.exact.value| <= n && HasShort(s.exact.value, m)
  }

  ghost predicate HasShort(t: seq<Str>, m: nat) {
    exists w :: w in t && |w| <= m
  }

  lemma SimpleKeeps(s: Sets, n: nat, m: nat)
    requires Keeps(s, n, m) && n <= 7 && m <= 3
    ensures Keeps(SimpleSets(s, false), n, m)
  {
    var t := s.exact.value;
    var w :| w in t && |w| <= m;
    CleanedMeans(t, false);
    ShortestIsShort(Cleaned(t, false));
    hide Cleaned, MinLength;
    assert w in Cleaned(t, false);
  }

  lemma ProductBound(a: nat, b: nat, m: nat, n: nat)
    requires a <= m && b <= n
    ensures Times(a, b) <= Times(m, n)
  {
    assert m * n == a * b + a * (n - b) + (m - a) * n;
  }

  lemma JoinedFew(s: seq<Str>, t: seq<Str>, n: nat, n': nat)
    requires |s| <= n && |t| <= n'
    ensures |Cleaned(Joined(s, t), false)| <= Times(n, n')
  {
    JoinedSize(s, t);
    hide *;
    ProductBound(|s|, |t|, n, n');
  }

  lemma JoinedSize(s: seq<Str>, t: seq<Str>)
    ensures |Cleaned(Joined(s, t), false)| <= Times(|s|, |t|)
  {
    hide Cleaned, Joined;
  }

  lemma JoinedShort(s: seq<Str>, t: seq<Str>, m: nat, m': nat)
    requires HasShort(s, m) && HasShort(t, m')
    ensures HasShort(Cleaned(Joined(s, t), false), m + m')
  {
    var u :| u in s && |u| <= m;
    var v :| v in t && |v| <= m';
    CrossMeans(s, t, false);
    hide Cleaned, Joined;
    assert IsJoin(u + v, s, t);
    assert u + v in Cleaned(Joined(s, t), false) && |u + v| <= m + m';
  }

  lemma JoinKeeps(x: Sets, y: Sets, n: nat, m: nat, n': nat, m': nat)
    requires Keeps(x, n, m) && Keeps(y, n', m') && Times(n, n') <= 7 && m + m' <= 3
    ensures Keeps(ConcatSets(x, y), Times(n, n'), m + m')
  {
    JoinedFew(x.exact.value, y.exact.value, n, n');
    JoinedShort(x.exact.value, y.exact.value, m, m');
    hide Cleaned, Joined, SimpleSets, HasShort, Times;
    SimpleKeeps(JoinedSets(x, y), Times(n, n'), m + m');
  }

  lemma EitherKeeps(x: Sets, y: Sets, n: nat, m: nat, n': nat)
    requires Keeps(x, n, m) && y.exact.Some? && |y.exact.value| <= n' && n + n' <= 7 && m <= 3
    ensures Keeps(AlternateSets(x, y), n + n', m)
  {
    var s, t := x.exact.value, y.exact.value;
    var w :| w in s && |w| <= m;
    CleanedMeans(s + t, false);
    assert w in s + t;
    hide Cleaned, SimpleSets;
    assert HasShort(Cleaned(s + t, false), m);
    SimpleKeeps(EitherSets(x, y), n + n', m);
  }

  lemma {:induction false} ClassListLength(ranges: seq<int>)
    requires R.Pairs(ranges)
    ensures |ClassList(ranges)| == Width(ranges) + |ranges| / 2 && |ranges| % 2 == 0
    ensures ranges != [] ==> EncodeRune(ranges[0]) in ClassList(ranges)
  {
    if ranges != [] {
      hide EncodeRune;
      RuneListLength(ranges[0], ranges[1]);
      ClassListLength(ranges[2..]);
    }
  }

  lemma {:induction false} RuneListLength(lo: int, hi: int)
    requires lo <= hi
    ensures |RuneList(lo, hi)| == hi - lo + 1 && EncodeRune(lo) in RuneList(lo, hi)
    decreases hi - lo
  {
    hide EncodeRune;
    if lo < hi {
      RuneListLength(lo, hi - 1);
    } else {
      assert RuneList(lo, lo) == [] + [EncodeRune(lo)];
    }
  }

  lemma ClassKeeps(ranges: seq<int>)
    requires (|ranges| == 1 || R.Pairs(ranges)) && FewInClass(ranges)
    ensures Keeps(SetsOfClass(ranges), Runes(ranges), |EncodeRune(ranges[0])|)
  {
    var exact := if |ranges| == 1 then [EncodeRune(ranges[0])] else ClassList(ranges);
    if |ranges| > 1 {
      ClassListLength(ranges);
    }
    hide EncodeRune, SimpleSets, ClassList;
    assert EncodeRune(ranges[0]) in exact;
    SimpleKeeps(ExactSets(exact), Runes(ranges), |EncodeRune(ranges[0])|);
  }

  lemma {:induction false} DoubledRunes(rs: seq<int>)
    ensures Width(R.Doubled(rs)) == 0 && |R.Doubled(rs)| == 2 * |rs|
  {
    if rs != [] {
      DoubledRunes(rs[1..]);
      assert R.Doubled(rs)[2..] == R.Doubled(rs[1..]);
    }
  }

  lemma FoldClassRunes(r: int, orbit: R.Orbit)
    ensures Runes(R.FoldClass(r, orbit)) == 1 + |orbit(r)| && R.FoldClass(r, orbit)[0] == r
  {
    DoubledRunes(orbit(r));
    assert R.FoldClass(r, orbit)[2..] == R.Doubled(orbit(r));
  }

  lemma FoldClassKeeps(r: int, orbit: R.Orbit)
    requires 1 + |orbit(r)| <= 7 && |EncodeRune(r)| <= 3
    ensures Keeps(SetsOfClass(R.FoldClass(r, orbit)), 1 + |orbit(r)|, |EncodeRune(r)|)
  {
    FoldClassRunes(r, orbit);
    ClassKeeps(R.FoldClass(r, orbit));
  }

  lemma RunesButLast(runes: seq<int>, orbit: R.Orbit)
    requires runes != [] && FewFolded(runes, orbit)
    ensures var n := |runes| - 1;
            && FewFolded(runes[..n], orbit)
            && FoldedCount(runes, orbit) == Times(FoldedCount(runes[..n], orbit), 1 + |orbit(runes[n])|) <= 7
            && FoldedLength(runes) == FoldedLength(runes[..n]) + |EncodeRune(runes[n])| <= 3
            && SetsOfRunes(runes, orbit) == ConcatSets(SetsOfRunes(runes[..n], orbit), SetsOfClass(R.FoldClass(runes[n], orbit)))
  {
    hide ConcatSets, SetsOfClass, R.FoldClass, EncodeRune;
  }

  lemma NoRunes(orbit: R.Orbit)
    ensures SetsOfRunes([], orbit) == SetsOf(EmptyString) && FoldedCount([], orbit) == 1 && FoldedLength([]) == 0
  {
  }

  lemma {:induction false} RunesKeep(runes: seq<int>, orbit: R.Orbit)
    requires FewFolded(runes, orbit)
    ensures Keeps(SetsOfRunes(runes, orbit), FoldedCount(runes, orbit), FoldedLength(runes)) && FoldedCount(runes, orbit) >= 1
  {
    hide *;
    if runes == [] {
      NoRunes(orbit);
      EmptyKeeps();
    } else {
      var n := |runes| - 1;
      var a, b := FoldedCount(runes[..n], orbit), 1 + |orbit(runes[n])|;
      RunesButLast(runes, orbit);
      RunesKeep(runes[..n], orbit);
      ProductBound(1, b, a, b);
      OneTimes(b);
      FoldClassKeeps(runes[n], orbit);
      JoinKeeps(SetsOfRunes(runes[..n], orbit), SetsOfClass(R.FoldClass(runes[n], orbit)),
                a, FoldedLength(runes[..n]), b, |EncodeRune(runes[n])|);
    }
  }

  lemma FoldedIs(runes: seq<int>, orbit: R.Orbit)
    ensures |runes| == 1 ==> SetsOfFolded(runes, orbit) == SetsOfClass(R.FoldClass(runes[0], orbit))
    ensures |runes| != 1 ==> SetsOfFolded(runes, orbit) == SetsOfRunes(runes, orbit)
  {
    hide SetsOfClass, R.FoldClass, SetsOfRunes;
  }

  lemma FoldedKeeps(runes: seq<int>, orbit: R.Orbit)
    requires FewFolded(runes, orbit)
    ensures Keeps(SetsOfFolded(runes, orbit), FoldedCount(runes, orbit), FoldedLength(runes))
  {
    hide *;
    FoldedIs(runes, orbit);
    if |runes| == 1 {
      RunesButLast(runes, orbit);
      assert runes[..0] == [];
      NoRunes(orbit);
      OneTimes(1 + |orbit(runes[0])|);
      FoldClassKeeps(runes[0], orbit);
    } else {
      RunesKeep(runes, orbit);
    }
  }

  /** A regexp with few strings keeps its exact set. */
  lemma {:induction false} KeepsExact(re: R.Regexp, orbit: R.Orbit)
    requires R.WellFormed(re) && Few(re, orbit)
    ensures Keeps(SetsFor(re, orbit), StringCount(re, orbit), Length(re)) && StringCount(re, orbit) <= 7 && Length(re) <= 3
    decreases re, 1
  {
    match re
    case EmptyMatch => EmptyKeeps();
    case Assert(_) => EmptyKeeps();
    case Literal(runes, fold) =>
      if fold {
        FoldedKeeps(runes, orbit);
      } else {
        LiteralKeeps(runes);
      }
    case CharClass(ranges) => ClassKeeps(ranges);
    case Capture(sub) => KeepsExact(sub, orbit);
    case Quest(sub) =>
      KeepsExact(sub, orbit);
      QuestKeeps(SetsFor(sub, orbit), StringCount(sub, orbit));
    case Concat(subs) => KeepsAll(subs, orbit);
    case Alternate(subs) => KeepsSome(subs, orbit);
  }

  lemma EmptyKeeps()
    ensures Keeps(SetsOf(EmptyString), 1, 0)
  {
    var t := EmptyString.exact.value;
    assert t[0] in t;
  }

  lemma LiteralKeeps(runes: seq<int>)
    requires |EncodeAll(runes)| <= 3
    ensures Keeps(SimpleSets(ExactSets([EncodeAll(runes)]), false), 1, |EncodeAll(runes)|)
  {
    hide EncodeAll, SimpleSets;
    assert EncodeAll(runes) in [EncodeAll(runes)];
    SimpleKeeps(ExactSets([EncodeAll(runes)]), 1, |EncodeAll(runes)|);
  }

  lemma QuestKeeps(s: Sets, n: nat)
    requires s.exact.Some? && |s.exact.value| <= n && n + 1 <= 7
    ensures Keeps(AlternateSets(s, SetsOf(EmptyString)), n + 1, 0)
  {
    var t := s.exact.value + [[]];
    CleanedMeans(t, false);
    assert t[|t| - 1] == [];
    hide Cleaned, SimpleSets;
    assert HasShort(Cleaned(t, false), 0);
    SimpleKeeps(EitherSets(s, SetsOf(EmptyString)), n + 1, 0);
  }

  /** The last of several expressions. */
  lemma AllButLast(subs: seq<R.Regexp>, orbit: R.Orbit)
    requires (forall s | s in subs :: R.WellFormed(s)) && subs != [] && FewInAll(subs, orbit)
    ensures var n := |subs| - 1;
            && FewInAll(subs[..n], orbit) && Few(subs[n], orbit)
            && Product(subs, orbit) == Times(Product(subs[..n], orbit), StringCount(subs[n], orbit)) <= 7
            && LengthOfAll(subs) == LengthOfAll(subs[..n]) + Length(subs[n]) <= 3
            && (n == 0 ==> SetsForAll(subs, orbit) == SetsFor(subs[0], orbit))
            && (n > 0 ==> SetsForAll(subs, orbit) == ConcatSets(SetsForAll(subs[..n], orbit), SetsFor(subs[n], orbit)))
            && (n == 0 ==> Product(subs[..n], orbit) == 1 && LengthOfAll(subs[..n]) == 0)
  {
    hide ConcatSets, Few, StringCount, Length, SetsFor;
  }

  lemma OneTimes(n: nat)
    ensures Times(1, n) == n
  {
  }

  lemma {:induction false} KeepsAll(subs: seq<R.Regexp>, orbit: R.Orbit)
    requires (forall s | s in subs :: R.WellFormed(s)) && FewInAll(subs, orbit)
    ensures Keeps(SetsForAll(subs, orbit), Product(subs, orbit), LengthOfAll(subs)) && Product(subs, orbit) <= 7 && LengthOfAll(subs) <= 3
    decreases subs, 0
  {
    if subs == [] {
      EmptyKeeps();
    } else {
      hide *;
      var n := |subs| - 1;
      AllButLast(subs, orbit);
      KeepsExact(subs[n], orbit);
      if n > 0 {
        KeepsAll(subs[..n], orbit);
        JoinKeeps(SetsForAll(subs[..n], orbit), SetsFor(subs[n], orbit),
                  Product(subs[..n], orbit), LengthOfAll(subs[..n]), StringCount(subs[n], orbit), Length(subs[n]));
      } else {
        OneTimes(StringCount(subs[n], orbit));
      }
    }
  }

  lemma {:induction false} KeepsSome(subs: seq<R.Regexp>, orbit: R.Orbit)
    requires (forall s | s in subs :: R.WellFormed(s)) && subs != [] && FewInSome(subs, orbit)
    ensures Keeps(SetsForSome(subs, orbit), Sum(subs, orbit), Length(subs[0])) && Sum(subs, orbit) <= 7 && Length(subs[0]) <= 3
    decreases subs, 0
  {
    var n := |subs| - 1;
    KeepsExact(subs[n], orbit);
    if n > 0 {
      KeepsSome(subs[..n], orbit);
      hide AlternateSets, Few, StringCount, Length;
      EitherKeeps(SetsForSome(subs[..n], orbit), SetsFor(subs[n], orbit), Sum(subs[..n], orbit), Length(subs[0]), StringCount(subs[n], orbit));
    } else {
      assert subs[..n] == [];
    }
  }

  // ----------------------------------------------------- spellings of folded literals

  ghost predicate AllSpell(t: seq<Str>, runes: seq<int>, orbit: R.Orbit) {
    forall w :: w in t ==> Spells(w, runes, orbit)
  }

  /** A literal without its first n runes. */
  function Tail(runes: seq<int>, n: nat): (t: seq<int>)
    requires n <= |runes|
  {
    runes[|runes| - n..]
  }

  /** What the sets of a case-folded literal hold: spellings, and of their last two runes when they are no longer exact. */
  ghost predicate SpelledSets(s: Sets, runes: seq<int>, orbit: R.Orbit) {
    match s.exact
    case Some(exact) => AllSpell(exact, runes, orbit)
    case None => |runes| >= 3 && AllSpell(s.suffix, Tail(runes, 2), orbit)
  }

  lemma AsciiRune(r: int)
    requires 0 <= r < 0x80
    ensures EncodeRune(r) == [r]
  {
  }

  lemma {:induction false} DoubledMeans(rs: seq<int>, w: Str)
    requires R.InPairs(R.Doubled(rs), w)
    ensures exists x :: x in rs && w == EncodeRune(x)
  {
    if rs != [] {
      var rest := R.Doubled(rs[1..]);
      assert ([rs[0], rs[0]] + rest)[2..] == rest;
      RangeStrings(rs[0], rs[0], w);
      hide EncodeRune, R.InRange;
      if R.InPairs(rest, w) {
        DoubledMeans(rs[1..], w);
      }
    }
  }

  /** The strings of the class of a rune with two cases are its spellings. */
  lemma FoldClassSpells(r: int, orbit: R.Orbit, w: Str)
    requires TwoCases([r], orbit) && R.InClass(R.FoldClass(r, orbit), w)
    ensures Spells(w, [r], orbit)
  {
    var rest := R.Doubled(orbit(r));
    assert r in [r];
    assert ([r, r] + rest)[2..] == rest;
    RangeStrings(r, r, w);
    AsciiRune(r);
    hide EncodeRune, R.InRange;
    if R.InPairs(rest, w) {
      DoubledMeans(orbit(r), w);
      var x :| x in orbit(r) && w == EncodeRune(x);
      AsciiRune(x);
    }
  }

  /** The class of such a rune has an exact set of its spellings. */
  lemma FoldClassExact(r: int, orbit: R.Orbit)
    requires TwoCases([r], orbit)
    ensures var s := SetsOfClass(R.FoldClass(r, orbit));
            s.exact.Some? && s.exact.value != [] && AllSpell(s.exact.value, [r], orbit)
  {
    assert r in [r];
    AsciiRune(r);
    FoldClassKeeps(r, orbit);
    FoldClassStrings(r, orbit);
  }

  lemma FoldClassStrings(r: int, orbit: R.Orbit)
    requires TwoCases([r], orbit)
    ensures var s := SetsOfClass(R.FoldClass(r, orbit)); s.exact.Some? ==> AllSpell(s.exact.value, [r], orbit)
  {
    var ranges, s := R.FoldClass(r, orbit), SetsOfClass(R.FoldClass(r, orbit));
    FoldClassRunes(r, orbit);
    if s.exact.Some? {
      CleanedMeans(ClassList(ranges), false);
      hide Cleaned, TooMuch, R.FoldClass;
      forall w | w in s.exact.value
        ensures Spells(w, [r], orbit)
      {
        ClassListMeans(ranges, w);
        FoldClassSpells(r, orbit, w);
      }
    }
  }

  lemma SpellsJoined(u: Str, a: seq<int>, v: Str, b: seq<int>, orbit: R.Orbit)
    requires Spells(u, a, orbit) && Spells(v, b, orbit)
    ensures Spells(u + v, a + b, orbit)
  {
  }

  lemma JoinedSpell(s: seq<Str>, a: seq<int>, t: seq<Str>, b: seq<int>, isSuffix: bool, orbit: R.Orbit)
    requires AllSpell(s, a, orbit) && AllSpell(t, b, orbit)
    ensures AllSpell(Cleaned(Joined(s, t), isSuffix), a + b, orbit)
  {
    CrossMeans(s, t, isSuffix);
    forall w | w in Cleaned(Joined(s, t), isSuffix)
      ensures Spells(w, a + b, orbit)
    {
      assert IsJoin(w, s, t);
      var u, v :| u in s && v in t && w == u + v;
      SpellsJoined(u, a, v, b, orbit);
    }
  }

  lemma SpellsPart(w: Str, runes: seq<int>, orbit: R.Orbit, i: nat, j: nat)
    requires Spells(w, runes, orbit) && i <= j <= |w|
    ensures Spells(w[i..j], runes[i..j], orbit)
  {
  }

  /** Two runes have at most four spellings. */
  lemma SpellingsOfTwo(t: seq<Str>, runes: seq<int>, isSuffix: bool, orbit: R.Orbit)
    requires |runes| == 2 && TwoCases(runes, orbit) && AllSpell(t, runes, orbit) && StrictlySorted(t, isSuffix)
    ensures |t| <= 4
  {
    assert runes[0] in runes && runes[1] in runes;
    var a: Byte, b: Byte := runes[0], runes[1];
    assert orbit(a) != [] ==> orbit(a)[0] in orbit(a);
    assert orbit(b) != [] ==> orbit(b)[0] in orbit(b);
    var a': Byte := if orbit(a) == [] then a else orbit(a)[0];
    var b': Byte := if orbit(b) == [] then b else orbit(b)[0];
    var S: set<Str> := {[a, b]} + {[a, b']} + {[a', b]} + {[a', b']};
    FourAtMost([a, b], [a, b'], [a', b], [a', b']);
    DistinctCount(t, isSuffix);
    forall w | w in t
      ensures w in S
    {
      assert w == [w[0], w[1]];
    }
    Subset(Elems(t), S);
  }

  lemma FourAtMost(a: Str, b: Str, c: Str, d: Str)
    ensures |{a} + {b} + {c} + {d}| <= 4
  {
    var s := {a} + {b};
    var t := s + {c};
  }

  lemma CutSpells(t: seq<Str>, runes: seq<int>, orbit: R.Orbit)
    requires |runes| >= 2 && AllSpell(t, runes, orbit)
    ensures forall w :: w in t ==> Spells(CutTo(w, 2, true), Tail(runes, 2), orbit)
  {
    forall w | w in t
      ensures Spells(CutTo(w, 2, true), Tail(runes, 2), orbit)
    {
      SpellsPart(w, runes, orbit, |w| - 2, |w|);
      assert CutTo(w, 2, true) == w[|w| - 2..|w|] && Tail(runes, 2) == runes[|runes| - 2..|runes|];
    }
  }

  lemma ShortenedSpells(t: seq<Str>, runes: seq<int>, orbit: R.Orbit)
    requires |runes| >= 2 && AllSpell(t, runes, orbit)
    ensures AllSpell(Shortened(t, 3, true), Tail(runes, 2), orbit)
  {
    var k := Squeezed(t, Cutter(2, true), Equal);
    CleanedMeans(k, true);
    CutSpells(t, runes, orbit);
    hide Squeezed, Cleaned, Spells;
    forall p | p in Shortened(t, 3, true)
      ensures Spells(p, Tail(runes, 2), orbit)
    {
      var i := SqueezedFrom(t, Cutter(2, true), Equal, p);
      assert p == CutTo(t[i], 2, true) && t[i] in t;
    }
  }

  lemma CleanSpells(t: seq<Str>, isSuffix: bool, runes: seq<int>, orbit: R.Orbit)
    requires AllSpell(t, runes, orbit)
    ensures AllSpell(Cleaned(t, isSuffix), runes, orbit)
  {
    CleanedMeans(t, isSuffix);
    hide Cleaned, Spells;
  }

  lemma TwoCasesPart(runes: seq<int>, orbit: R.Orbit, i: nat, j: nat)
    requires TwoCases(runes, orbit) && i <= j <= |runes|
    ensures TwoCases(runes[i..j], orbit)
  {
  }

  /** Cut down, spellings of a literal are spellings of its last two runes. */
  lemma LastTwo(s: seq<Str>, runes: seq<int>, orbit: R.Orbit)
    requires |runes| >= 2 && TwoCases(runes, orbit) && AllSpell(s, runes, orbit)
    ensures AllSpell(SimplifiedSet(s, true), Tail(runes, 2), orbit)
  {
    var t := Cleaned(s, true);
    var u := Shortened(t, 3, true);
    CleanSpells(s, true, runes, orbit);
    ShortenedSpells(t, runes, orbit);
    ShortenedMeans(t, 3, true);
    TwoCasesPart(runes, orbit, |runes| - 2, |runes|);
    assert Tail(runes, 2) == runes[|runes| - 2..|runes|];
    SpellingsOfTwo(u, Tail(runes, 2), true, orbit);
    RoundsAre(t, 3, true);
    RoundsAre(u, 2, true);
    DroppedMeans(u, true);
    hide Cleaned, Shortened, Rounds, Dropped, Spells;
    assert SimplifiedSet(s, true) == Dropped(u, true);
  }

  lemma OneIsFew(a: seq<int>, r: int, orbit: R.Orbit)
    requires FewFolded(a, orbit) && FoldedCount(a, orbit) <= 2 && FoldedLength(a) <= 1 && TwoCases([r], orbit)
    ensures FewFolded(a + [r], orbit) && FoldedCount(a + [r], orbit) <= 2 * FoldedCount(a, orbit) && FoldedLength(a + [r]) == FoldedLength(a) + 1
  {
    var runes := a + [r];
    assert runes[..|runes| - 1] == a && r in [r];
    AsciiRune(r);
    hide EncodeRune;
    ProductBound(FoldedCount(a, orbit), 1 + |orbit(r)|, FoldedCount(a, orbit), 2);
  }

  lemma FewIfShort(runes: seq<int>, orbit: R.Orbit)
    requires |runes| <= 2 && TwoCases(runes, orbit)
    ensures SetsOfRunes(runes, orbit).exact.Some?
  {
    hide SetsOfRunes, EncodeRune;
    if |runes| >= 1 {
      TwoCasesPart(runes, orbit, 0, 1);
      assert runes[0..1] == [runes[0]] && [] + [runes[0]] == [runes[0]];
      OneIsFew([], runes[0], orbit);
    }
    if |runes| == 2 {
      TwoCasesPart(runes, orbit, 1, 2);
      assert runes[1..2] == [runes[1]] && [runes[0]] + [runes[1]] == runes;
      OneIsFew([runes[0]], runes[1], orbit);
    }
    assert |runes| == 1 ==> runes == [runes[0]];
    assert FewFolded(runes, orbit);
    RunesKeep(runes, orbit);
  }

  lemma {:induction false} FoldedSets(runes: seq<int>, orbit: R.Orbit)
    requires TwoCases(runes, orbit)
    ensures SpelledSets(SetsOfRunes(runes, orbit), runes, orbit)
  {
    if runes == [] {
      NoRunes(orbit);
    } else {
      var n := |runes| - 1;
      var a, r := runes[..n], runes[n];
      TwoCasesPart(runes, orbit, 0, n);
      TwoCasesPart(runes, orbit, n, n + 1);
      assert runes[0..n] == a && runes[n..n + 1] == [r] && a + [r] == runes;
      FoldedSets(a, orbit);
      FoldClassExact(r, orbit);
      if n <= 1 {
        FewIfShort(runes, orbit);
      }
      LastRune(runes, orbit);
      OneMoreSpelled(SetsOfRunes(a, orbit), a, SetsOfClass(R.FoldClass(r, orbit)), r, orbit);
    }
  }

  lemma LastRune(runes: seq<int>, orbit: R.Orbit)
    requires runes != []
    ensures var n := |runes| - 1;
            SetsOfRunes(runes, orbit) == ConcatSets(SetsOfRunes(runes[..n], orbit), SetsOfClass(R.FoldClass(runes[n], orbit)))
  {
    hide ConcatSets, SetsOfClass, R.FoldClass;
  }

  lemma OneMoreSpelled(x: Sets, a: seq<int>, y: Sets, r: int, orbit: R.Orbit)
    requires TwoCases(a + [r], orbit) && SpelledSets(x, a, orbit) && y.exact.Some? && AllSpell(y.exact.value, [r], orbit)
    requires |a| >= 2 || ConcatSets(x, y).exact.Some?
    ensures SpelledSets(ConcatSets(x, y), a + [r], orbit)
  {
    var runes := a + [r];
    if x.exact.Some? {
      var c := Cleaned(Joined(x.exact.value, y.exact.value), false);
      var clean := Cleaned(c, false);
      JoinedSpell(x.exact.value, a, y.exact.value, [r], false, orbit);
      CleanSpells(c, false, runes, orbit);
      hide Cleaned, Joined, SimplifiedSet, TooMuch, TwoCases, Spells;
      if TooMuch(clean, false) {
        SpilledSuffixes(clean, runes, orbit);
      }
    } else {
      var b := Tail(a, 2) + [r];
      JoinedSpell(x.suffix, Tail(a, 2), y.exact.value, [r], true, orbit);
      assert b == runes[|runes| - 3..|runes|] && Tail(b, 2) == Tail(runes, 2);
      TwoCasesPart(runes, orbit, |runes| - 3, |runes|);
      LastTwo(Cleaned(Joined(x.suffix, y.exact.value), true), b, orbit);
      hide Cleaned, Joined, SimplifiedSet, TwoCases, Spells;
    }
  }

  lemma SpilledSuffixes(clean: seq<Str>, runes: seq<int>, orbit: R.Orbit)
    requires |runes| >= 2 && TwoCases(runes, orbit) && AllSpell(clean, runes, orbit)
    ensures AllSpell(SimplifiedSet([] + CutAll(clean, 2, true), true), Tail(runes, 2), orbit)
  {
    var cut, b := [] + CutAll(clean, 2, true), Tail(runes, 2);
    CutSpells(clean, runes, orbit);
    forall p | p in cut
      ensures Spells(p, b, orbit)
    {
      var i :| 0 <= i < |cut| && cut[i] == p;
      assert p == CutTo(clean[i], 2, true) && clean[i] in clean;
    }
    TwoCasesPart(runes, orbit, |runes| - 2, |runes|);
    assert b == runes[|runes| - 2..|runes|] && Tail(b, 2) == b;
    LastTwo(cut, b, orbit);
  }

  // -------------------------------------------------- what folded literals enforce

  /** A spelling of the whole literal spells each three of its runes. */
  lemma WholeSpells(w: Str, runes: seq<int>, orbit: R.Orbit, T: set<Str>)
    requires Spells(w, runes, orbit) && Trigrams(w) <= T
    ensures SpelledIn(runes, orbit, T)
  {
    forall i | 0 <= i <= |runes| - 3
      ensures SpelledAt(runes, i, orbit, T)
    {
      SpellsPart(w, runes, orbit, i, i + 3);
      assert Window(w, i) in Trigrams(w);
    }
  }

  /** With the last three runes spelled, and those before, the longer literal is. */
  lemma LastThree(w: Str, a: seq<int>, r: int, orbit: R.Orbit, T: set<Str>)
    requires |a| >= 2 && TwoCases(a, orbit) && SpelledIn(a, orbit, T) && Spells(w, Tail(a, 2) + [r], orbit) && Trigrams(w) <= T
    ensures SpelledIn(a + [r], orbit, T)
  {
    var runes := a + [r];
    assert |w| == 3 && Window(w, 0) == w;
    assert w in Trigrams(w);
    forall i | 0 <= i <= |runes| - 3
      ensures SpelledAt(runes, i, orbit, T)
    {
      if i <= |a| - 3 {
        assert SpelledAt(a, i, orbit, T);
        assert runes[i..i + 3] == a[i..i + 3];
      } else {
        assert runes[i..i + 3] == Tail(a, 2) + [r];
      }
    }
  }

  /** What joins of spellings require is spelled. */
  lemma JoinSpelled(s: seq<Str>, a: seq<int>, t: seq<Str>, b: seq<int>, orbit: R.Orbit, T: set<Str>) returns (w: Str)
    requires s != [] && t != [] && AllSpell(s, a, orbit) && AllSpell(t, b, orbit) && |a| + |b| >= 3 && JoinsRequired(s, t, T)
    ensures Spells(w, a + b, orbit) && Trigrams(w) <= T
  {
    forall u, v | u in s && v in t
      ensures |u| + |v| >= 3
    {
      assert Spells(u, a, orbit) && Spells(v, b, orbit);
    }
    var u, v :| u in s && v in t && Trigrams(u + v) <= T;
    SpellsJoined(u, a, v, b, orbit);
    w := u + v;
  }

  lemma SpelledHere(x: Info, a: seq<int>, y: Info, r: int, out: Info, orbit: R.Orbit, T: set<Str>)
    requires |a| >= 2 && TwoCases(a, orbit) && SpelledSets(SetsOf(x), a, orbit) && y.exact.Some? && y.exact.value != []
    requires AllSpell(y.exact.value, [r], orbit) && Enforces(x, Demand(R.Literal(a, true), orbit))
    requires out.exact.None? && Eval(x.query, T) && JoinEndsRequired(x, y, out, T)
    ensures SpelledIn(a + [r], orbit, T)
  {
    hide JoinsRequired, Spells, SpelledIn, AllSpell, TwoCases;
    if x.exact.Some? {
      var w := JoinSpelled(x.exact.value, a, y.exact.value, [r], orbit, T);
      WholeSpells(w, a + [r], orbit, T);
    } else {
      var w := JoinSpelled(x.suffix, Tail(a, 2), y.exact.value, [r], orbit, T);
      assert Demand(R.Literal(a, true), orbit)(T);
      LastThree(w, a, r, orbit, T);
    }
  }

  lemma SpellingsEnforced(x: Info, a: seq<int>, y: Info, r: int, out: Info, orbit: R.Orbit)
    requires |a| >= 2 && TwoCases(a + [r], orbit) && Valid(x) && Valid(y) && Concatenates(x, y, out)
    requires SetsOf(x) == SetsOfRunes(a, orbit) && SetsOf(y) == SetsOfClass(R.FoldClass(r, orbit))
    requires SetsOf(out) == ConcatSets(SetsOf(x), SetsOf(y))
    requires Enforces(x, Demand(R.Literal(a, true), orbit)) && Enforces(out, Anything())
    ensures Enforces(out, Demand(R.Literal(a + [r], true), orbit))
  {
    hide *;
    TwoCasesPart(a + [r], orbit, 0, |a|);
    TwoCasesPart(a + [r], orbit, |a|, |a| + 1);
    assert (a + [r])[0..|a|] == a && (a + [r])[|a|..|a| + 1] == [r];
    FoldedSets(a, orbit);
    FoldClassExact(r, orbit);
    OneMoreSpelled(SetsOf(x), a, SetsOf(y), r, orbit);
    SpelledParts(x, a, y, r, out, orbit);
    forall T | out.exact.None? && Eval(out.query, T)
      ensures SpelledIn(a + [r], orbit, T)
    {
      PartsAsked(x, y, out, T);
      SpelledHere(x, a, y, r, out, orbit, T);
    }
    SpellsAll(out, a + [r], orbit);
  }

  lemma SpelledParts(x: Info, a: seq<int>, y: Info, r: int, out: Info, orbit: R.Orbit)
    requires SpelledSets(SetsOf(out), a + [r], orbit) && SetsOf(y).exact.Some? && SetsOf(y).exact.value != []
    requires AllSpell(SetsOf(y).exact.value, [r], orbit)
    ensures y.exact.Some? && y.exact.value != [] && AllSpell(y.exact.value, [r], orbit)
    ensures out.exact.Some? ==> AllSpell(out.exact.value, a + [r], orbit)
  {
    hide AllSpell;
  }

  lemma PartsAsked(x: Info, y: Info, out: Info, T: set<Str>)
    requires Concatenates(x, y, out) && Valid(x) && Valid(y) && out.exact.None? && Eval(out.query, T)
    ensures Eval(x.query, T) && JoinEndsRequired(x, y, out, T)
  {
    hide JoinEndsRequired, Valid, CoversJoins;
  }

  lemma SpellsAll(out: Info, runes: seq<int>, orbit: R.Orbit)
    requires Enforces(out, Anything()) && (out.exact.Some? ==> AllSpell(out.exact.value, runes, orbit))
    requires out.exact.None? ==> forall T :: Eval(out.query, T) ==> SpelledIn(runes, orbit, T)
    ensures Enforces(out, Demand(R.Literal(runes, true), orbit))
  {
    if out.exact.Some? {
      forall w, T | w in out.exact.value && Trigrams(w) <= T
        ensures SpelledIn(runes, orbit, T)
      {
        WholeSpells(w, runes, orbit, T);
      }
    }
    hide SpelledIn, Spells;
  }

  // ------------------------------------------------------------- the analysis

  lemma RightIsWellFormed(info: Info, re: R.Regexp, orbit: R.Orbit)
    requires R.WellFormed(re) && Right(info, re, orbit)
    ensures WellFormed(info.query)
  {
  }

  /** A concatenation or an alternation of one expression. */
  lemma RightForOne(info: Info, re: R.Regexp, orbit: R.Orbit)
    requires R.WellFormed(re) && Right(info, re, orbit)
    ensures R.WellFormed(R.Concat([re])) && Right(info, R.Concat([re]), orbit)
    ensures R.WellFormed(R.Alternate([re])) && Right(info, R.Alternate([re]), orbit)
  {
    assert re in [re];
    forall text, i: nat, j: nat | i <= j <= |text|
      ensures R.Matches(re, text, i, j, orbit) <==> R.Matches(R.Concat([re]), text, i, j, orbit)
    {
      R.SingleConcat(re, text, i, j, orbit);
    }
    RightIfSame(info, re, R.Concat([re]), orbit);
    RightIfSame(info, re, R.Alternate([re]), orbit);
  }

  lemma ConcatMore(x: Info, subs: seq<R.Regexp>, i: nat, y: Info, out: Info, orbit: R.Orbit)
    requires i < |subs| && R.WellFormed(R.Concat(subs)) && R.WellFormed(R.Concat(subs[..i]))
    requires Right(x, R.Concat(subs[..i]), orbit) && Right(y, subs[i], orbit) && Concatenates(x, y, out)
    ensures R.WellFormed(R.Concat(subs[..i + 1])) && Right(out, R.Concat(subs[..i + 1]), orbit)
  {
    assert subs[..i + 1] == subs[..i] + [subs[i]];
    hide Right, Concatenates, R.Matches, R.MatchesAll;
    ConcatStep(x, subs[..i], y, subs[i], out, orbit);
  }

  lemma AlternateMore(x: Info, subs: seq<R.Regexp>, i: nat, y: Info, out: Info, orbit: R.Orbit)
    requires i < |subs| && R.WellFormed(R.Alternate(subs)) && R.WellFormed(R.Alternate(subs[..i]))
    requires Right(x, R.Alternate(subs[..i]), orbit) && Right(y, subs[i], orbit) && Unites(x, y, out)
    ensures R.WellFormed(R.Alternate(subs[..i + 1])) && Right(out, R.Alternate(subs[..i + 1]), orbit)
  {
    assert subs[..i + 1] == subs[..i] + [subs[i]];
    hide Right, Unites, R.Matches;
    AlternateMatches(subs[..i], subs[i], orbit);
    AlternateStep(x, R.Alternate(subs[..i]), y, subs[i], out, R.Alternate(subs[..i + 1]), orbit);
  }

  lemma SetsForAllNext(subs: seq<R.Regexp>, i: nat, orbit: R.Orbit)
    requires i < |subs| && forall s | s in subs :: R.WellFormed(s)
    ensures i == 0 ==> SetsForAll(subs[..i + 1], orbit) == SetsFor(subs[i], orbit)
    ensures i > 0 ==> SetsForAll(subs[..i + 1], orbit) == ConcatSets(SetsForAll(subs[..i], orbit), SetsFor(subs[i], orbit))
  {
    hide SetsFor, ConcatSets;
    assert subs[..i + 1][..i] == subs[..i];
  }

  lemma SetsForSomeNext(subs: seq<R.Regexp>, i: nat, orbit: R.Orbit)
    requires i < |subs| && forall s | s in subs :: R.WellFormed(s)
    ensures i == 0 ==> SetsForSome(subs[..i + 1], orbit) == SetsFor(subs[i], orbit)
    ensures i > 0 ==> SetsForSome(subs[..i + 1], orbit) == AlternateSets(SetsForSome(subs[..i], orbit), SetsFor(subs[i], orbit))
  {
    hide SetsFor, AlternateSets;
    assert subs[..i + 1][..i] == subs[..i];
  }

  lemma AllWellFormed(subs: seq<R.Regexp>)
    requires R.WellFormed(R.Concat(subs)) || R.WellFormed(R.Alternate(subs))
    ensures forall s | s in subs :: R.WellFormed(s)
    ensures forall i :: 0 <= i <= |subs| ==> R.WellFormed(R.Concat(subs[..i])) && R.WellFormed(R.Alternate(subs[..i]))
  {
    assert forall i :: 0 <= i <= |subs| ==> forall s :: s in subs[..i] ==> s in subs;
  }

  lemma NothingAnalyzed(subs: seq<R.Regexp>, orbit: R.Orbit)
    requires |subs| == 0
    ensures R.WellFormed(R.Concat(subs)) && Right(EmptyString, R.Concat(subs), orbit) && SetsOf(EmptyString) == SetsForAll(subs, orbit)
    ensures R.WellFormed(R.Alternate(subs)) && Right(NoMatchInfo, R.Alternate(subs), orbit)
    ensures SetsOf(NoMatchInfo) == SetsForSome(subs, orbit)
    ensures Enforces(EmptyString, Demand(R.Concat(subs), orbit)) && Enforces(NoMatchInfo, Demand(R.Alternate(subs), orbit))
  {
    assert subs == [];
    RightEmpty(R.Concat([]), orbit);
    RightNoMatch(R.Alternate([]), orbit);
    hide R.Matches, Sound, Exact, Valid, AlternateSets, ConcatSets;
  }

  lemma EnforcesOne(info: Info, re: R.Regexp, orbit: R.Orbit)
    requires R.WellFormed(re) && Enforces(info, Demand(re, orbit))
    ensures R.WellFormed(R.Concat([re])) && Enforces(info, Demand(R.Concat([re]), orbit))
    ensures R.WellFormed(R.Alternate([re])) && Enforces(info, Demand(R.Alternate([re]), orbit))
  {
    hide *;
    DemandsOne(re, orbit);
    EnforcesLess(info, Demand(re, orbit), Demand(R.Concat([re]), orbit));
    EnforcesLess(info, Demand(re, orbit), Demand(R.Alternate([re]), orbit));
  }

  lemma EnforcesAll(x: Info, subs: seq<R.Regexp>, i: nat, y: Info, out: Info, orbit: R.Orbit)
    requires i < |subs| && R.WellFormed(R.Concat(subs)) && R.WellFormed(R.Concat(subs[..i])) && R.WellFormed(subs[i])
    requires Right(x, R.Concat(subs[..i]), orbit) && Right(y, subs[i], orbit) && Concatenates(x, y, out)
    requires SetsOf(out) == ConcatSets(SetsOf(x), SetsOf(y))
    requires Enforces(x, Demand(R.Concat(subs[..i]), orbit)) && Enforces(y, Demand(subs[i], orbit))
    ensures R.WellFormed(R.Concat(subs[..i + 1])) && Enforces(out, Demand(R.Concat(subs[..i + 1]), orbit))
  {
    hide *;
    AllWellFormed(subs);
    assert subs[..i + 1] == subs[..i] + [subs[i]];
    RightIsValid(x, R.Concat(subs[..i]), orbit);
    RightIsValid(y, subs[i], orbit);
    DemandsMore(subs[..i], subs[i], orbit);
    ConcatEnforces(x, y, out, Demand(R.Concat(subs[..i]), orbit), Demand(subs[i], orbit), Demand(R.Concat(subs[..i + 1]), orbit));
  }

  lemma EnforcesSome(x: Info, subs: seq<R.Regexp>, i: nat, y: Info, out: Info, orbit: R.Orbit)
    requires i < |subs| && R.WellFormed(R.Alternate(subs)) && R.WellFormed(R.Alternate(subs[..i])) && R.WellFormed(subs[i])
    requires Right(x, R.Alternate(subs[..i]), orbit) && Right(y, subs[i], orbit) && Alternates(x, y, out)
    requires SetsOf(out) == AlternateSets(SetsOf(x), SetsOf(y))
    requires Enforces(x, Demand(R.Alternate(subs[..i]), orbit)) && Enforces(y, Demand(subs[i], orbit))
    ensures R.WellFormed(R.Alternate(subs[..i + 1])) && Enforces(out, Demand(R.Alternate(subs[..i + 1]), orbit))
  {
    hide *;
    AllWellFormed(subs);
    assert subs[..i + 1] == subs[..i] + [subs[i]];
    RightIsValid(x, R.Alternate(subs[..i]), orbit);
    RightIsValid(y, subs[i], orbit);
    DemandsMore(subs[..i], subs[i], orbit);
    AlternateEnforces(x, y, out, Demand(R.Alternate(subs[..i]), orbit), Demand(subs[i], orbit),
                      Demand(R.Alternate(subs[..i + 1]), orbit));
  }

  lemma RightIsValid(info: Info, re: R.Regexp, orbit: R.Orbit)
    requires R.WellFormed(re) && Right(info, re, orbit)
    ensures Valid(info)
  {
  }

  /** Where nothing is demanded it is enough that the sets are not empty. */
  lemma EnforcesNothing(info: Info, re: R.Regexp, orbit: R.Orbit)
    requires R.WellFormed(re)
    requires || (re.NoMatch? && info == NoMatchInfo)
             || ((re.EmptyMatch? || re.Assert?) && info == EmptyString)
             || ((re.AnyChar? || re.AnyCharNotNL?) && info == AnyCharInfo)
             || ((re.Star? || (re.Repeat? && re.min == 0)) && info == AnyMatch)
    ensures Enforces(info, Demand(re, orbit))
  {
  }

  lemma LiteralEnforces(info: Info, out: Info, runes: seq<int>, orbit: R.Orbit)
    requires info == Info(false, Some([EncodeAll(runes)]), [], [], AllQuery)
    requires Simplified(info, out) && SetsOf(out) == SimpleSets(SetsOf(info), false)
    ensures Enforces(out, Demand(R.Literal(runes, false), orbit))
  {
    hide Simplified, SimpleSets, EncodeAll;
    SimplifiedEnforces(info, out, false, Demand(R.Literal(runes, false), orbit));
  }

  lemma RepeatEnforces(info: Info, sub: R.Regexp, re: R.Regexp, out: Info, orbit: R.Orbit)
    requires R.WellFormed(re) && R.WellFormed(sub) && Valid(info) && Enforces(info, Demand(sub, orbit))
    requires re == R.Plus(sub) || (re.Repeat? && re.sub == sub && re.min > 0)
    requires Simplified(Loosen(info), out) && SetsOf(out) == SimpleSets(SetsOf(Loosen(info)), false)
    ensures Enforces(out, Demand(re, orbit))
  {
    hide *;
    LooseIsValid(info);
    LoosenEnforces(info, Demand(sub, orbit));
    SimplifiedEnforces(Loosen(info), out, false, Demand(sub, orbit));
    RepeatDemands(sub, re, orbit);
    EnforcesLess(out, Demand(sub, orbit), Demand(re, orbit));
  }

  lemma LooseIsValid(info: Info)
    requires Valid(info)
    ensures Valid(Loosen(info))
  {
  }

  lemma RepeatDemands(sub: R.Regexp, re: R.Regexp, orbit: R.Orbit)
    requires R.WellFormed(re) && R.WellFormed(sub) && (re == R.Plus(sub) || (re.Repeat? && re.sub == sub && re.min > 0))
    ensures forall T :: Demand(sub, orbit)(T) ==> Demand(re, orbit)(T)
  {
  }

  lemma QuestEnforces(x: Info, sub: R.Regexp, out: Info, orbit: R.Orbit)
    requires R.WellFormed(R.Quest(sub)) && R.WellFormed(sub) && Valid(x) && Enforces(x, Demand(sub, orbit))
    requires Alternates(x, EmptyString, out) && SetsOf(out) == AlternateSets(SetsOf(x), SetsOf(EmptyString))
    ensures Enforces(out, Demand(R.Quest(sub), orbit))
  {
    hide *;
    QuestDemands(sub, orbit);
    AlternateEnforces(x, EmptyString, out, Demand(sub, orbit), Demand(R.Quest(sub), orbit), Demand(R.Quest(sub), orbit));
  }

  lemma QuestDemands(sub: R.Regexp, orbit: R.Orbit)
    requires R.WellFormed(R.Quest(sub))
    ensures Valid(EmptyString) && Enforces(EmptyString, Demand(R.Quest(sub), orbit))
    ensures forall T :: Demand(R.Quest(sub), orbit)(T)
  {
  }

  lemma ClassDemandIs(info: Info, ranges: seq<int>, orbit: R.Orbit)
    requires R.WellFormed(R.CharClass(ranges)) && Enforces(info, ClassDemand(ranges))
    ensures Enforces(info, Demand(R.CharClass(ranges), orbit))
  {
    hide Enforces, R.InClass;
    EnforcesLess(info, ClassDemand(ranges), Demand(R.CharClass(ranges), orbit));
  }

  lemma CaptureEnforces(info: Info, sub: R.Regexp, orbit: R.Orbit)
    requires R.WellFormed(R.Capture(sub)) && R.WellFormed(sub) && Enforces(info, Demand(sub, orbit))
    ensures Enforces(info, Demand(R.Capture(sub), orbit))
  {
    hide Enforces;
    EnforcesLess(info, Demand(sub, orbit), Demand(R.Capture(sub), orbit));
  }

  method AnalyzeConcat(subs: seq<R.Regexp>, orbit: R.Orbit) returns (info: Info)
    requires R.WellFormed(R.Concat(subs))
    ensures Right(info, R.Concat(subs), orbit) && SetsOf(info) == SetsForAll(subs, orbit)
    ensures Enforces(info, Demand(R.Concat(subs), orbit))
    decreases subs, 0
  {
    hide *;
    AllWellFormed(subs);
    if |subs| == 0 {
      NothingAnalyzed(subs, orbit);
      return EmptyString;
    }
    info := Analyze(subs[0], orbit);
    assert subs[..1] == [subs[0]];
    RightForOne(info, subs[0], orbit);
    EnforcesOne(info, subs[0], orbit);
    SetsForAllNext(subs, 0, orbit);
    for i := 1 to |subs|
      invariant Right(info, R.Concat(subs[..i]), orbit) && SetsOf(info) == SetsForAll(subs[..i], orbit)
      invariant Enforces(info, Demand(R.Concat(subs[..i]), orbit))
    {
      var y := Analyze(subs[i], orbit);
      RightIsWellFormed(info, R.Concat(subs[..i]), orbit);
      RightIsWellFormed(y, subs[i], orbit);
      var xy := Concat(info, y);
      ConcatMore(info, subs, i, y, xy, orbit);
      ConcatSetsAre(info, y, xy);
      EnforcesAll(info, subs, i, y, xy, orbit);
      SetsForAllNext(subs, i, orbit);
      info := xy;
    }
    assert subs[..|subs|] == subs;
  }

  method AnalyzeAlternate(subs: seq<R.Regexp>, orbit: R.Orbit) returns (info: Info)
    requires R.WellFormed(R.Alternate(subs))
    ensures Right(info, R.Alternate(subs), orbit) && SetsOf(info) == SetsForSome(subs, orbit)
    ensures Enforces(info, Demand(R.Alternate(subs), orbit))
    decreases subs, 0
  {
    hide *;
    AllWellFormed(subs);
    if |subs| == 0 {
      NothingAnalyzed(subs, orbit);
      return NoMatchInfo;
    }
    info := Analyze(subs[0], orbit);
    assert subs[..1] == [subs[0]];
    RightForOne(info, subs[0], orbit);
    EnforcesOne(info, subs[0], orbit);
    SetsForSomeNext(subs, 0, orbit);
    for i := 1 to |subs|
      invariant Right(info, R.Alternate(subs[..i]), orbit) && SetsOf(info) == SetsForSome(subs[..i], orbit)
      invariant Enforces(info, Demand(R.Alternate(subs[..i]), orbit))
    {
      var y := Analyze(subs[i], orbit);
      RightIsWellFormed(info, R.Alternate(subs[..i]), orbit);
      RightIsWellFormed(y, subs[i], orbit);
      var xy := Alternate(info, y);
      AlternatesUnites(info, y, xy);
      AlternateMore(info, subs, i, y, xy, orbit);
      AlternateSetsAre(info, y, xy);
      EnforcesSome(info, subs, i, y, xy, orbit);
      SetsForSomeNext(subs, i, orbit);
      info := xy;
    }
    assert subs[..|subs|] == subs;
  }

  lemma AlternatesUnites(x: Info, y: Info, out: Info)
    requires Alternates(x, y, out)
    ensures Unites(x, y, out)
  {
  }

  lemma RightForLiteral(info: Info, out: Info, runes: seq<int>, orbit: R.Orbit)
    requires info == Info(false, Some([EncodeAll(runes)]), [], [], AllQuery) && Simplified(info, out)
    ensures Right(out, R.Literal(runes, false), orbit)
  {
    assert forall w, T :: w == EncodeAll(runes) && Trigrams(w) <= T ==> Covers(info, w, T);
  }

  lemma RightFromFolded(info: Info, runes: seq<int>, orbit: R.Orbit)
    requires RightForFolded(info, runes, orbit)
    ensures Right(info, R.Literal(runes, true), orbit)
  {
  }

  lemma RightFromClass(info: Info, ranges: seq<int>, orbit: R.Orbit)
    requires R.WellFormed(R.CharClass(ranges)) && RightForClass(info, ranges)
    ensures Right(info, R.CharClass(ranges), orbit)
  {
  }

  lemma RightForRepeat(info: Info, sub: R.Regexp, re: R.Regexp, out: Info, orbit: R.Orbit)
    requires R.WellFormed(re) && R.WellFormed(sub) && Right(info, sub, orbit)
    requires re == R.Plus(sub) || (re.Repeat? && re.sub == sub && re.min > 0)
    requires Simplified(Loosen(info), out)
    ensures Right(out, re, orbit)
  {
    var min, max := if re.Plus? then 1 else re.min, if re.Plus? then -1 else re.max;
    forall text, i: nat, j: nat, T
      ensures SoundAt(out, re, text, i, j, T, orbit)
    {
      if i <= j <= |text| && R.Matches(re, text, i, j, orbit) && Trigrams(text[i..j]) <= T {
        RepeatSound(info, sub, min, max, text, i, j, T, orbit);
      }
    }
  }

  /** analyze: the information for a regexp is right for it. */
  method Analyze(re: R.Regexp, orbit: R.Orbit) returns (info: Info)
    requires R.WellFormed(re)
    ensures Right(info, re, orbit) && SetsOf(info) == SetsFor(re, orbit)
    ensures Enforces(info, Demand(re, orbit))
    decreases re, 1
  {
    hide Enforces, Demand;
    match re {
      case NoMatch =>
        RightNoMatch(re, orbit);
        EnforcesNothing(NoMatchInfo, re, orbit);
        info := NoMatchInfo;
      case EmptyMatch =>
        RightEmpty(re, orbit);
        EnforcesNothing(EmptyString, re, orbit);
        info := EmptyString;
      case Assert(_) =>
        RightEmpty(re, orbit);
        EnforcesNothing(EmptyString, re, orbit);
        info := EmptyString;
      case Literal(runes, fold) =>
        if fold {
          info := AnalyzeFolded(runes, orbit);
          RightFromFolded(info, runes, orbit);
        } else {
          var literal := Info(false, Some([EncodeAll(runes)]), [], [], AllQuery);
          info := Simplify(literal, false);
          RightForLiteral(literal, info, runes, orbit);
          LiteralEnforces(literal, info, runes, orbit);
        }
      case CharClass(ranges) =>
        info := AnalyzeClass(ranges);
        RightFromClass(info, ranges, orbit);
        ClassDemandIs(info, ranges, orbit);
      case AnyCharNotNL =>
        RightAny(re, orbit);
        EnforcesNothing(AnyCharInfo, re, orbit);
        info := AnyCharInfo;
      case AnyChar =>
        RightAny(re, orbit);
        EnforcesNothing(AnyCharInfo, re, orbit);
        info := AnyCharInfo;
      case Capture(sub) =>
        info := Analyze(sub, orbit);
        RightIfSame(info, sub, re, orbit);
        CaptureEnforces(info, sub, orbit);
      case Concat(subs) =>
        info := AnalyzeConcat(subs, orbit);
      case Alternate(subs) =>
        info := AnalyzeAlternate(subs, orbit);
      case Quest(sub) =>
        var x := Analyze(sub, orbit);
        info := Alternate(x, EmptyString);
        RightEmpty(R.EmptyMatch, orbit);
        AlternateStep(x, sub, EmptyString, R.EmptyMatch, info, re, orbit);
        QuestEnforces(x, sub, info, orbit);
      case Star(_) =>
        RightAny(re, orbit);
        EnforcesNothing(AnyMatch, re, orbit);
        info := AnyMatch;
      case Plus(sub) =>
        var x := Analyze(sub, orbit);
        info := Simplify(Loosen(x), false);
        RightForRepeat(x, sub, re, info, orbit);
        RepeatEnforces(x, sub, re, info, orbit);
      case Repeat(sub, min, _) =>
        if min == 0 {
          RightAny(re, orbit);
          EnforcesNothing(AnyMatch, re, orbit);
          info := AnyMatch;
        } else {
          var x := Analyze(sub, orbit);
          info := Simplify(Loosen(x), false);
          RightForRepeat(x, sub, re, info, orbit);
        RepeatEnforces(x, sub, re, info, orbit);
        }
    }
  }

  // ------------------------------------------------------------- RegexpQuery

  /** RegexpQuery: the query holds on every text that contains a match, and asks for the trigrams that each match has.
      While the analysis keeps an exact set, as it does for few strings, the query is the strongest one: it holds exactly
      when all trigrams of one of the strings are present, or when some string has no trigram. */
  method RegexpQuery(re: R.Regexp, orbit: R.Orbit) returns (q: Query, ghost exact: Option<seq<Str>>)
    requires R.WellFormed(re)
    ensures WellFormed(q) && Solid(q)
    ensures forall text, i: nat, j: nat | i <= j <= |text| ::
              R.Matches(re, text, i, j, orbit) ==> Eval(q, Trigrams(text))
    ensures forall T :: Eval(q, T) ==> Satisfies(re, orbit, T) && Needs(re) <= T
    ensures re.Literal? && !re.fold ==> forall T :: Eval(q, T) <==> Trigrams(EncodeAll(re.runes)) <= T
    ensures Few(re, orbit) ==> exact.Some?
    ensures exact.Some? ==> forall T :: Eval(q, T) <==> Required(exact.value, T)
    ensures exact.Some? ==> forall text, i: nat, j: nat | i <= j <= |text| ::
              R.Matches(re, text, i, j, orbit) ==> text[i..j] in exact.value
    ensures exact.Some? && R.Plain(re) ==> forall text, i: nat, j: nat | i <= j <= |text| ::
              text[i..j] in exact.value ==> R.Matches(re, text, i, j, orbit)
  {
    var info := Analyze(re, orbit);
    exact := info.exact;
    RightIsWellFormed(info, re, orbit);
    RightIsSolid(info, re, orbit);
    if Few(re, orbit) {
      KeepsExact(re, orbit);
    }
    hide *;
    ghost var simple, final;
    q, simple, final := QueryOf(info);
    RightQuery(info, re, orbit, simple, final);
    RightIsValid(info, re, orbit);
    forall T | Eval(q, T)
      ensures Satisfies(re, orbit, T) && Needs(re) <= T
    {
      FinalMeets(info, simple, final, Demand(re, orbit), T);
      DemandIs(re, orbit, T);
      DemandsNeeds(re, orbit, T);
    }
    if re.Literal? && !re.fold {
      LiteralQuery(q, re.runes, orbit);
    }
    if exact.Some? {
      QueryIsExact(info, re, orbit, simple, final);
    }
  }

  lemma DemandIs(re: R.Regexp, orbit: R.Orbit, T: set<Str>)
    requires R.WellFormed(re)
    ensures Demand(re, orbit)(T) <==> Satisfies(re, orbit, T)
  {
  }

  /** The query asks at least for what the information enforces. */
  lemma FinalMeets(info: Info, simple: Info, final: Info, D: set<Str> -> bool, T: set<Str>)
    requires Valid(info) && Enforces(info, D) && Simplified(info, simple) && Final(simple, final) && Eval(final.query, T)
    ensures D(T)
  {
    hide Covers, Required, SmallSets, WellFormed;
    if info.exact.Some? {
      if simple.exact.Some? {
        SameRequired(simple.exact.value, info.exact.value, T);
      }
      RequiredMeets(info.exact.value, D, T);
    }
  }

  /** The query for a literal asks for its trigrams and for nothing else. */
  lemma LiteralQuery(q: Query, runes: seq<int>, orbit: R.Orbit)
    requires WellFormed(q)
    requires forall text, i: nat, j: nat | i <= j <= |text| ::
               R.Matches(R.Literal(runes, false), text, i, j, orbit) ==> Eval(q, Trigrams(text))
    requires forall T :: Eval(q, T) ==> Satisfies(R.Literal(runes, false), orbit, T)
    ensures forall T :: Eval(q, T) <==> Trigrams(EncodeAll(runes)) <= T
  {
    var w := EncodeAll(runes);
    assert w[0..|w|] == w;
    assert R.Matches(R.Literal(runes, false), w, 0, |w|, orbit);
    forall T | Trigrams(w) <= T
      ensures Eval(q, T)
    {
      EvalMonotone(q, Trigrams(w), T);
    }
  }

  lemma RightIsSolid(info: Info, re: R.Regexp, orbit: R.Orbit)
    requires R.WellFormed(re) && Right(info, re, orbit)
    ensures Solid(info.query)
  {
  }

  /** The end of RegexpQuery. */
  method QueryOf(info: Info) returns (q: Query, ghost simple: Info, ghost final: Info)
    requires WellFormed(info.query)
    ensures q == final.query && WellFormed(q) && Simplified(info, simple) && (Solid(info.query) ==> Solid(q))
    ensures (simple.exact.Some? ==> !AllLong(simple.exact.value)) && Final(simple, final)
  {
    hide SimpleQuery, SimpleSets, Eval, Required, Tidy, Simplified;
    var s := Simplify(info, true);
    var f := AddExact(s);
    q, simple, final := f.query, s, f;
  }

  /** addExact adds what the exact set requires. */
  ghost predicate Final(simple: Info, final: Info) {
    forall T :: Eval(final.query, T) <==> Eval(simple.query, T) && (simple.exact.Some? ==> Required(simple.exact.value, T))
  }

  /** The query of right information holds on every text with a match. */
  lemma RightQuery(info: Info, re: R.Regexp, orbit: R.Orbit, simple: Info, final: Info)
    requires R.WellFormed(re) && Right(info, re, orbit) && Simplified(info, simple) && Final(simple, final)
    ensures forall text, i: nat, j: nat | i <= j <= |text| ::
              R.Matches(re, text, i, j, orbit) ==>
                Eval(final.query, Trigrams(text)) && (info.exact.Some? ==> text[i..j] in info.exact.value)
  {
    hide R.Matches, Simplified, Final, R.WellFormed;
    forall text, i: nat, j: nat | i <= j <= |text| && R.Matches(re, text, i, j, orbit)
      ensures Eval(final.query, Trigrams(text)) && (info.exact.Some? ==> text[i..j] in info.exact.value)
    {
      TrigramsSlice(text, i, j);
      assert SoundAt(info, re, text, i, j, Trigrams(text), orbit);
      SimplifiedCovers(info, simple, text[i..j], Trigrams(text));
      FinalHolds(simple, final, text[i..j], Trigrams(text));
    }
  }

  lemma FinalHolds(simple: Info, final: Info, w: Str, T: set<Str>)
    requires Final(simple, final) && Covers(simple, w, T)
    ensures Eval(final.query, T)
  {
    if simple.exact.Some? {
      assert SomePresent(simple.exact.value, T);
    }
  }

  /** With an exact set the query says all that the set requires and no more. */
  lemma QueryIsExact(info: Info, re: R.Regexp, orbit: R.Orbit, simple: Info, final: Info)
    requires R.WellFormed(re) && Right(info, re, orbit) && Simplified(info, simple) && Final(simple, final) && info.exact.Some?
    ensures forall T :: Eval(final.query, T) <==> Required(info.exact.value, T)
    ensures R.Plain(re) ==> forall text, i: nat, j: nat | i <= j <= |text| ::
              text[i..j] in info.exact.value ==> R.Matches(re, text, i, j, orbit)
  {
    hide R.Matches, R.WellFormed, SameElements, Required, Covers, SmallSets;
    forall T
      ensures Eval(final.query, T) <==> Required(info.exact.value, T)
    {
      if simple.exact.Some? {
        SameRequired(simple.exact.value, info.exact.value, T);
      }
    }
    if R.Plain(re) {
      forall text, i: nat, j: nat | i <= j <= |text| && text[i..j] in info.exact.value
        ensures R.Matches(re, text, i, j, orbit)
      {
        assert ExactAt(info, re, text, i, j, orbit);
      }
    }
  }
}
