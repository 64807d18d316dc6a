/** What the query for a regexp has to ask for at least: trigrams that each match has, told by the regexp alone
    (what internal/codesearch/index/regexp.go:334-360 promises of literals, concatenation and alternation). */
module Demands {
  import opened Bytes
  import opened Utf8
  import opened RegexpSyntax

  /** A set of trigrams that can be those of a text with a match, as far as its literals and small classes say. */
  ghost predicate Satisfies(re: Regexp, orbit: Orbit, T: set<Str>)
    requires WellFormed(re)
  {
    match re
    case NoMatch => false
    case Literal(runes, fold) => if fold then SpelledIn(runes, orbit, T) else Trigrams(EncodeAll(runes)) <= T
    case CharClass(ranges) => Wide(ranges) || exists w :: InClass(ranges, w) && Trigrams(w) <= T
    case Capture(sub) => Satisfies(sub, orbit, T)
    case Plus(sub) => Satisfies(sub, orbit, T)
    case Repeat(sub, min, _) => min == 0 || Satisfies(sub, orbit, T)
    case Concat(subs) => forall s | s in subs :: Satisfies(s, orbit, T)
    case Alternate(subs) => exists s | s in subs :: Satisfies(s, orbit, T)
    case _ => true
  }

  /** Each rune is ASCII and has at most one other case, also ASCII. */
  ghost predicate TwoCases(runes: seq<int>, orbit: Orbit) {
    forall r | r in runes ::
      0 <= r < 0x80 && |orbit(r)| <= 1 && forall x :: x in orbit(r) ==> 0 <= x < 0x80
  }

  /** The string is the literal, each rune in one of its cases. */
  ghost predicate Spells(w: Str, runes: seq<int>, orbit: Orbit) {
    |w| == |runes| && forall k :: 0 <= k < |w| ==> w[k] as int == runes[k] || w[k] as int in orbit(runes[k])
  }

  /** Of each three runes in a row some spelling is there. */
  ghost predicate SpelledIn(runes: seq<int>, orbit: Orbit, T: set<Str>) {
    TwoCases(runes, orbit) ==> forall i | 0 <= i <= |runes| - 3 :: SpelledAt(runes, i, orbit, T)
  }

  ghost predicate SpelledAt(runes: seq<int>, i: nat, orbit: Orbit, T: set<Str>)
    requires i <= |runes| - 3
  {
    exists w :: w in T && Spells(w, runes[i..i + 3], orbit)
  }

  /** The ranges of the class span more than 100 runes. */
  predicate Wide(ranges: seq<int>)
    requires |ranges| == 1 || Pairs(ranges)
  {
    |ranges| != 1 && Width(ranges) > 100
  }

  function Width(ranges: seq<int>): (n: nat)
    requires Pairs(ranges)
  {
    if ranges == [] then 0 else ranges[1] - ranges[0] + Width(ranges[2..])
  }

  ghost function Demand(re: Regexp, orbit: Orbit): set<Str> -> bool
    requires WellFormed(re)
  {
    (T: set<Str>) => Satisfies(re, orbit, T)
  }

  /** Trigrams that each match has: those of a literal, those of all parts of a concatenation, and those that all
      alternatives have. */
  ghost function Needs(re: Regexp): set<Str> {
    match re
    case Literal(runes, fold) => if fold then {} else Trigrams(EncodeAll(runes))
    case Capture(sub) => Needs(sub)
    case Plus(sub) => Needs(sub)
    case Repeat(sub, min, _) => if min == 0 then {} else Needs(sub)
    case Concat(subs) => set s, t | s in subs && t in Needs(s) :: t
    case Alternate(subs) => if subs == [] then {} else set t | t in Needs(subs[0]) && forall s | s in subs :: t in Needs(s)
    case _ => {}
  }

  lemma {:induction false} DemandsNeeds(re: Regexp, orbit: Orbit, T: set<Str>)
    requires WellFormed(re) && Satisfies(re, orbit, T)
    ensures Needs(re) <= T
  {
    match re
    case Capture(sub) => DemandsNeeds(sub, orbit, T);
    case Plus(sub) => DemandsNeeds(sub, orbit, T);
    case Repeat(sub, min, _) =>
      if min > 0 {
        DemandsNeeds(sub, orbit, T);
      }
    case Concat(subs) =>
      forall s | s in subs
        ensures Needs(s) <= T
      {
        DemandsNeeds(s, orbit, T);
      }
    case Alternate(subs) =>
      var s :| s in subs && Satisfies(s, orbit, T);
      DemandsNeeds(s, orbit, T);
    case _ =>
  }

  /** A concatenation demands what its parts demand, and an alternation what one of its sides does. */
  lemma DemandsMore(a: seq<Regexp>, b: Regexp, orbit: Orbit)
    requires WellFormed(b) && WellFormed(Concat(a)) && WellFormed(Concat(a + [b]))
    ensures WellFormed(Alternate(a)) && WellFormed(Alternate(a + [b]))
    ensures forall T :: Demand(Concat(a), orbit)(T) && Demand(b, orbit)(T) <==> Demand(Concat(a + [b]), orbit)(T)
    ensures forall T :: Demand(Alternate(a), orbit)(T) || Demand(b, orbit)(T) <==> Demand(Alternate(a + [b]), orbit)(T)
  {
    assert forall s :: s in a + [b] <==> s in a || s == b;
  }

  lemma DemandsOne(re: Regexp, orbit: Orbit)
    requires WellFormed(re)
    ensures WellFormed(Concat([re])) && WellFormed(Alternate([re]))
    ensures forall T :: Demand(re, orbit)(T) <==> Demand(Concat([re]), orbit)(T)
    ensures forall T :: Demand(re, orbit)(T) <==> Demand(Alternate([re]), orbit)(T)
  {
    assert re in [re];
  }

  // ------------------------------------------------------------- regexps that stay exact

  /** How many runes a class has, each range counted for itself. */
  function Runes(ranges: seq<int>): nat
    requires |ranges| == 1 || Pairs(ranges)
  {
    if |ranges| == 1 then 1 else Width(ranges) + |ranges| / 2
  }

  predicate FewInClass(ranges: seq<int>)
    requires |ranges| == 1 || Pairs(ranges)
  {
    ranges != [] && Runes(ranges) <= 7 && |EncodeRune(ranges[0])| <= 3
  }

  function Times(m: nat, n: nat): nat {
    m * n
  }

  /** How many strings a case-folded literal has, and how long the literal itself is. */
  function FoldedCount(runes: seq<int>, orbit: Orbit): nat {
    if runes == [] then 1 else Times(FoldedCount(runes[..|runes| - 1], orbit), 1 + |orbit(runes[|runes| - 1])|)
  }

  function FoldedLength(runes: seq<int>): nat {
    if runes == [] then 0 else FoldedLength(runes[..|runes| - 1]) + |EncodeRune(runes[|runes| - 1])|
  }

  /** How many strings the regexp has at most: a sum over alternatives, and a product over what is concatenated. */
  function StringCount(re: Regexp, orbit: Orbit): nat
    requires WellFormed(re)
    decreases re, 1
  {
    match re
    case Literal(runes, fold) => if fold then FoldedCount(runes, orbit) else 1
    case CharClass(ranges) => Runes(ranges)
    case Capture(sub) => StringCount(sub, orbit)
    case Quest(sub) => StringCount(sub, orbit) + 1
    case Concat(subs) => Product(subs, orbit)
    case Alternate(subs) => Sum(subs, orbit)
    case _ => 1
  }

  function Product(subs: seq<Regexp>, orbit: Orbit): nat
    requires forall s | s in subs :: WellFormed(s)
    decreases subs, 0
  {
    if subs == [] then 1 else Times(Product(subs[..|subs| - 1], orbit), StringCount(subs[|subs| - 1], orbit))
  }

  function Sum(subs: seq<Regexp>, orbit: Orbit): nat
    requires forall s | s in subs :: WellFormed(s)
    decreases subs, 0
  {
    if subs == [] then 0 else Sum(subs[..|subs| - 1], orbit) + StringCount(subs[|subs| - 1], orbit)
  }

  /** How long one of its strings is, which is the first one for a class or an alternation. */
  function Length(re: Regexp): nat
    requires WellFormed(re)
    decreases re, 1
  {
    match re
    case Literal(runes, fold) => if fold then FoldedLength(runes) else |EncodeAll(runes)|
    case CharClass(ranges) => if ranges == [] then 0 else |EncodeRune(ranges[0])|
    case Capture(sub) => Length(sub)
    case Concat(subs) => LengthOfAll(subs)
    case Alternate(subs) => if subs == [] then 0 else Length(subs[0])
    case _ => 0
  }

  function LengthOfAll(subs: seq<Regexp>): nat
    requires forall s | s in subs :: WellFormed(s)
    decreases subs, 0
  {
    if subs == [] then 0 else LengthOfAll(subs[..|subs| - 1]) + Length(subs[|subs| - 1])
  }

  /** The regexp and each part of it, read from the left, has at most seven strings, and one of at most three bytes. */
  ghost predicate Few(re: Regexp, orbit: Orbit)
    requires WellFormed(re)
    decreases re, 1
  {
    match re
    case EmptyMatch => true
    case Assert(_) => true
    case Literal(runes, fold) => if fold then FewFolded(runes, orbit) else |EncodeAll(runes)| <= 3
    case CharClass(ranges) => FewInClass(ranges)
    case Capture(sub) => Few(sub, orbit)
    case Quest(sub) => Few(sub, orbit) && StringCount(re, orbit) <= 7
    case Concat(subs) => FewInAll(subs, orbit)
    case Alternate(subs) => subs != [] && FewInSome(subs, orbit)
    case _ => false
  }

  ghost predicate FewFolded(runes: seq<int>, orbit: Orbit) {
    runes == [] ||
    (FewFolded(runes[..|runes| - 1], orbit) && FoldedCount(runes, orbit) <= 7 && FoldedLength(runes) <= 3)
  }

  ghost predicate FewInAll(subs: seq<Regexp>, orbit: Orbit)
    requires forall s | s in subs :: WellFormed(s)
    decreases subs, 0
  {
    subs == [] ||
    (FewInAll(subs[..|subs| - 1], orbit) && Few(subs[|subs| - 1], orbit) && Product(subs, orbit) <= 7 && LengthOfAll(subs) <= 3)
  }

  ghost predicate FewInSome(subs: seq<Regexp>, orbit: Orbit)
    requires forall s | s in subs :: WellFormed(s)
    decreases subs, 0
  {
    subs == [] || (FewInSome(subs[..|subs| - 1], orbit) && Few(subs[|subs| - 1], orbit) && Sum(subs, orbit) <= 7)
  }
}
