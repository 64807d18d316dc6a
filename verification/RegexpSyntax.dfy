/** Regular expressions after parsing, and which spans of a text they match. */
module RegexpSyntax {
  import opened Bytes
  import opened Utf8
  import opened RuneRanges

  datatype Assertion = BeginLine | EndLine | BeginText | EndText | WordBoundary | NoWordBoundary

  datatype Regexp =
    | NoMatch
    | EmptyMatch
    | Assert(kind: Assertion)
    | Literal(runes: seq<int>, fold: bool)
    | CharClass(ranges: seq<int>)
    | AnyCharNotNL
    | AnyChar
    | Capture(sub: Regexp)
    | Star(sub: Regexp)
    | Plus(sub: Regexp)
    | Quest(sub: Regexp)
    | Repeat(sub: Regexp, min: nat, max: int)
    | Concat(subs: seq<Regexp>)
    | Alternate(subs: seq<Regexp>)

  /** The case-folding orbit of a rune, the rune itself left out (unicode.SimpleFold repeated). */
  type Orbit = int -> seq<int>

  predicate IsWordByte(c: int) {
    || 'A' as int <= c <= 'Z' as int
    || 'a' as int <= c <= 'z' as int
    || '0' as int <= c <= '9' as int
    || c == '_' as int
  }

  const Newline: Byte := 10

  /** Whether the byte just before position i is a word byte. */
  predicate WordBefore(text: Str, i: nat)
    requires i <= |text|
  {
    i > 0 && IsWordByte(text[i - 1])
  }

  predicate WordAfter(text: Str, i: nat)
    requires i <= |text|
  {
    i < |text| && IsWordByte(text[i])
  }

  /** The assertions that hold between the bytes before and after position i. */
  predicate Holds(a: Assertion, text: Str, i: nat)
    requires i <= |text|
  {
    match a
    case BeginLine => i == 0 || text[i - 1] == Newline
    case EndLine => i == |text| || text[i] == Newline
    case BeginText => i == 0
    case EndText => i == |text|
    case WordBoundary => WordBefore(text, i) != WordAfter(text, i)
    case NoWordBoundary => WordBefore(text, i) == WordAfter(text, i)
  }

  /** A list of lo-hi pairs. */
  predicate Pairs(ranges: seq<int>) {
    ranges == [] || (|ranges| >= 2 && ranges[0] <= ranges[1] && Pairs(ranges[2..]))
  }

  /** Character classes are a single rune or a list of lo-hi pairs. */
  ghost predicate WellFormed(re: Regexp) {
    match re
    case CharClass(ranges) => |ranges| == 1 || Pairs(ranges)
    case Capture(sub) => WellFormed(sub)
    case Star(sub) => WellFormed(sub)
    case Plus(sub) => WellFormed(sub)
    case Quest(sub) => WellFormed(sub)
    case Repeat(sub, _, _) => WellFormed(sub)
    case Concat(subs) => forall s | s in subs :: WellFormed(s)
    case Alternate(subs) => forall s | s in subs :: WellFormed(s)
    case _ => true
  }

  /** The byte strings that the program takes for lo to hi. They are the encodings of the runes, but where
      surrogates are in between; what is no code point counts as U+FFFD. */
  ghost predicate InRange(lo: int, hi: int, w: Str) {
    if 0 <= lo <= hi <= MaxRune then Lang(lo, hi, w) else exists r :: lo <= r <= hi && w == EncodeRune(r)
  }

  ghost predicate InClass(ranges: seq<int>, w: Str)
    requires |ranges| == 1 || Pairs(ranges)
  {
    if |ranges| == 1 then w == EncodeRune(ranges[0]) else InPairs(ranges, w)
  }

  ghost predicate InPairs(ranges: seq<int>, w: Str)
    requires Pairs(ranges)
  {
    ranges != [] && (InRange(ranges[0], ranges[1], w) || InPairs(ranges[2..], w))
  }

  function FoldClass(r: int, orbit: Orbit): (ds: seq<int>)
    ensures Pairs(ds)
  {
    var rest := Doubled(orbit(r));
    assert ([r, r] + rest)[2..] == rest;
    [r, r] + rest
  }

  function Doubled(rs: seq<int>): (ds: seq<int>)
    ensures Pairs(ds)
  {
    if rs == [] then []
    else
      var rest := Doubled(rs[1..]);
      assert ([rs[0], rs[0]] + rest)[2..] == rest;
      [rs[0], rs[0]] + rest
  }

  /** A case-folded literal: one string of each rune's class, in order. */
  ghost predicate InFolded(runes: seq<int>, w: Str, orbit: Orbit) {
    if runes == [] then w == []
    else exists k | 0 <= k <= |w| :: InClass(FoldClass(runes[0], orbit), w[..k]) && InFolded(runes[1..], w[k..], orbit)
  }

  /** re matches the bytes of text between positions i and j. */
  ghost predicate Matches(re: Regexp, text: Str, i: nat, j: nat, orbit: Orbit)
    requires i <= j <= |text| && WellFormed(re)
    decreases re, 0, 0
  {
    match re
    case NoMatch => false
    case EmptyMatch => i == j
    case Assert(kind) => i == j && Holds(kind, text, i)
    case Literal(runes, fold) => if fold then InFolded(runes, text[i..j], orbit) else text[i..j] == EncodeAll(runes)
    case CharClass(ranges) => InClass(ranges, text[i..j])
    case AnyCharNotNL => exists r: nat :: r <= MaxRune && r != 10 && text[i..j] == BitPattern(r)
    case AnyChar => InRunes(0, MaxRune, text[i..j])
    case Capture(sub) => Matches(sub, text, i, j, orbit)
    case Star(sub) => MatchesRepeat(sub, 0, -1, text, i, j, orbit)
    case Plus(sub) => MatchesRepeat(sub, 1, -1, text, i, j, orbit)
    case Quest(sub) => i == j || Matches(sub, text, i, j, orbit)
    case Repeat(sub, min, max) => MatchesRepeat(sub, min, max, text, i, j, orbit)
    case Concat(subs) => MatchesAll(subs, text, i, j, orbit)
    case Alternate(subs) => exists s | s in subs :: Matches(s, text, i, j, orbit)
  }

  /** The expressions match one after another. */
  ghost predicate MatchesAll(res: seq<Regexp>, text: Str, i: nat, j: nat, orbit: Orbit)
    requires i <= j <= |text| && forall s | s in res :: WellFormed(s)
    decreases res, 0, 0
  {
    if res == [] then i == j
    else exists k | i <= k <= j :: Matches(res[0], text, i, k, orbit) && MatchesAll(res[1..], text, k, j, orbit)
  }

  /** At least min and at most max (no limit when negative) copies; a copy past the first min consumes something. */
  ghost predicate MatchesRepeat(re: Regexp, min: nat, max: int, text: Str, i: nat, j: nat, orbit: Orbit)
    requires i <= j <= |text| && WellFormed(re)
    decreases re, 1, min + j - i
  {
    if min > 0 then
      max != 0 && exists k | i <= k <= j ::
        Matches(re, text, i, k, orbit) && MatchesRepeat(re, min - 1, if max < 0 then max else max - 1, text, k, j, orbit)
    else
      i == j || (max != 0 && exists k | i < k <= j ::
        Matches(re, text, i, k, orbit) && MatchesRepeat(re, 0, if max < 0 then max else max - 1, text, k, j, orbit))
  }

  /** No assertion about the surroundings occurs, so only the matched bytes matter. */
  ghost predicate Plain(re: Regexp) {
    match re
    case Assert(_) => false
    case Capture(sub) => Plain(sub)
    case Star(sub) => Plain(sub)
    case Plus(sub) => Plain(sub)
    case Quest(sub) => Plain(sub)
    case Repeat(sub, _, _) => Plain(sub)
    case Concat(subs) => forall s | s in subs :: Plain(s)
    case Alternate(subs) => forall s | s in subs :: Plain(s)
    case _ => true
  }

  // ------------------------------------------------- reading sequences from the right

  lemma {:induction false} MatchesAllSplit(a: seq<Regexp>, b: Regexp, text: Str, i: nat, j: nat, orbit: Orbit)
    returns (k: nat)
    requires i <= j <= |text| && WellFormed(b) && forall s | s in a :: WellFormed(s)
    requires MatchesAll(a + [b], text, i, j, orbit)
    ensures i <= k <= j && MatchesAll(a, text, i, k, orbit) && Matches(b, text, k, j, orbit)
  {
    if a == [] {
      assert (a + [b])[1..] == [];
      k := i;
    } else {
      assert (a + [b])[1..] == a[1..] + [b];
      var m :| i <= m <= j && Matches(a[0], text, i, m, orbit) && MatchesAll(a[1..] + [b], text, m, j, orbit);
      k := MatchesAllSplit(a[1..], b, text, m, j, orbit);
    }
  }

  lemma {:induction false} MatchesAllAppend(a: seq<Regexp>, b: Regexp, text: Str, i: nat, k: nat, j: nat, orbit: Orbit)
    requires i <= k <= j <= |text| && WellFormed(b) && forall s | s in a :: WellFormed(s)
    requires MatchesAll(a, text, i, k, orbit) && Matches(b, text, k, j, orbit)
    ensures MatchesAll(a + [b], text, i, j, orbit)
  {
    if a == [] {
      assert (a + [b])[1..] == [];
      assert MatchesAll([], text, j, j, orbit);
    } else {
      assert (a + [b])[1..] == a[1..] + [b];
      var m :| i <= m <= k && Matches(a[0], text, i, m, orbit) && MatchesAll(a[1..], text, m, k, orbit);
      MatchesAllAppend(a[1..], b, text, m, k, j, orbit);
    }
  }

  lemma {:induction false} InFoldedSplit(a: seq<int>, r: int, w: Str, orbit: Orbit) returns (k: nat)
    requires InFolded(a + [r], w, orbit)
    ensures k <= |w| && InFolded(a, w[..k], orbit) && InClass(FoldClass(r, orbit), w[k..])
  {
    if a == [] {
      var m :| 0 <= m <= |w| && InClass(FoldClass(r, orbit), w[..m]) && InFolded((a + [r])[1..], w[m..], orbit);
      assert w[..m] == w && w[0..] == w && w[..0] == [];
      k := 0;
    } else {
      assert (a + [r])[1..] == a[1..] + [r];
      var m :| 0 <= m <= |w| && InClass(FoldClass(a[0], orbit), w[..m]) && InFolded(a[1..] + [r], w[m..], orbit);
      var n := InFoldedSplit(a[1..], r, w[m..], orbit);
      k := m + n;
      assert w[..k][m..] == w[m..][..n] && w[..k][..m] == w[..m] && w[m..][n..] == w[k..];
      assert InFolded(a, w[..k], orbit);
    }
  }

  lemma {:induction false} InFoldedAppend(a: seq<int>, r: int, w: Str, k: nat, orbit: Orbit)
    requires k <= |w| && InFolded(a, w[..k], orbit) && InClass(FoldClass(r, orbit), w[k..])
    ensures InFolded(a + [r], w, orbit)
  {
    if a == [] {
      assert k == 0 && w[0..] == w;
      assert (a + [r])[1..] == [] && w[..|w|] == w;
      assert InFolded([], w[|w|..], orbit);
    } else {
      assert (a + [r])[1..] == a[1..] + [r];
      var v := w[..k];
      var m :| 0 <= m <= |v| && InClass(FoldClass(a[0], orbit), v[..m]) && InFolded(a[1..], v[m..], orbit);
      assert v[..m] == w[..m] && v[m..] == w[m..][..k - m] && w[m..][k - m..] == w[k..];
      InFoldedAppend(a[1..], r, w[m..], k - m, orbit);
    }
  }

  /** A repetition that asks for one copy starts with a copy and ends with a copy. */
  lemma {:induction false} RepeatEnds(re: Regexp, min: nat, max: int, text: Str, i: nat, j: nat, orbit: Orbit)
    requires i <= j <= |text| && WellFormed(re) && (min > 0 || i < j)
    requires MatchesRepeat(re, min, max, text, i, j, orbit)
    ensures exists k | i <= k <= j :: Matches(re, text, i, k, orbit)
    ensures exists k | i <= k <= j :: Matches(re, text, k, j, orbit)
    decreases min + j - i
  {
    var max' := if max < 0 then max else max - 1;
    var min' := if min > 0 then min - 1 else 0;
    var k :| i <= k <= j && (min > 0 || i < k) && Matches(re, text, i, k, orbit) && MatchesRepeat(re, min', max', text, k, j, orbit);
    if min' > 0 || k < j {
      RepeatEnds(re, min', max', text, k, j, orbit);
    }
  }

  lemma SingleConcat(re: Regexp, text: Str, i: nat, j: nat, orbit: Orbit)
    requires WellFormed(re) && WellFormed(Concat([re])) && i <= j <= |text|
    ensures Matches(Concat([re]), text, i, j, orbit) <==> Matches(re, text, i, j, orbit)
  {
    if Matches(re, text, i, j, orbit) {
      MatchesAllAppend([], re, text, i, i, j, orbit);
      assert [] + [re] == [re];
    }
    if Matches(Concat([re]), text, i, j, orbit) {
      assert [] + [re] == [re];
      var k := MatchesAllSplit([], re, text, i, j, orbit);
    }
  }
}
