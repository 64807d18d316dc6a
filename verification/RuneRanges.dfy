/** Which byte strings a range of runes stands for when it is split for byte automata (addRange of
    internal/codesearch/regexp/utf.go). */
module RuneRanges {
  import opened Bytes
  import opened Utf8

  // ------------------------------------------------------------------ the arithmetic

  /** 64 to the power i: the low i bytes of a UTF-8 sequence hold a number below it. */
  function Span(i: nat): nat
    requires i <= 3
  {
    if i == 0 then 1 else if i == 1 then 64 else if i == 2 then 4096 else 262144
  }

  /** The largest rune that n bytes can hold. */
  function MaxRuneOf(n: nat): nat
    requires 1 <= n <= 3
  {
    if n == 1 then 0x7F else if n == 2 then 0x7FF else 0xFFFF
  }

  /** lo to hi agree on all but the last i bytes, or go through all values of the last i bytes. */
  predicate Even(lo: nat, hi: nat, i: nat)
    requires i <= 3
  {
    lo / Span(i) == hi / Span(i) || (lo % Span(i) == 0 && hi % Span(i) == Span(i) - 1)
  }

  /** No more splitting is needed. */
  predicate Leaf(lo: nat, hi: nat) {
    && lo <= hi <= MaxRune && EncodedLen(lo) == EncodedLen(hi)
    && (hi >= 0x80 ==> Even(lo, hi, 1) && Even(lo, hi, 2) && Even(lo, hi, 3))
  }

  /** Byte k of w is between byte k of the first and of the last pattern. */
  predicate Between(w: Str, lo: Str, hi: Str) {
    |w| == |lo| == |hi| && forall k :: 0 <= k < |w| ==> lo[k] <= w[k] <= hi[k]
  }

  lemma EvenStep(lo: nat, hi: nat, r: nat)
    requires Even(lo, hi, 1)
    ensures lo <= r <= hi <==> lo / 64 <= r / 64 <= hi / 64 && lo % 64 <= r % 64 <= hi % 64
  {
  }

  /** A condition on two bytes of a number is one on the last byte of its quotient. */
  lemma EvenAbove(lo: nat, hi: nat, i: nat)
    requires 1 <= i <= 3 && Even(lo, hi, i)
    ensures Even(lo / 64, hi / 64, i - 1)
  {
    SpanSplit(lo, i);
    SpanSplit(hi, i);
  }

  lemma SpanSplit(x: nat, i: nat)
    requires 1 <= i <= 3
    ensures x / 64 / Span(i - 1) == x / Span(i) && x % Span(i) == 64 * (x / 64 % Span(i - 1)) + x % 64
  {
  }

  predicate DigitsBetween(lo: nat, r: nat, hi: nat) {
    && lo % 64 <= r % 64 <= hi % 64 && lo / 64 % 64 <= r / 64 % 64 <= hi / 64 % 64
    && lo / 4096 % 64 <= r / 4096 % 64 <= hi / 4096 % 64 && lo / 262144 <= r / 262144 <= hi / 262144
  }

  lemma LeafDigits(lo: nat, hi: nat, r: nat)
    requires Even(lo, hi, 1) && Even(lo, hi, 2) && Even(lo, hi, 3)
    ensures lo <= r <= hi <==> DigitsBetween(lo, r, hi)
  {
    EvenParts(lo, hi);
    Quotients(lo);
    Quotients(hi);
    Quotients(r);
    hide Even;
    EvenStep(lo, hi, r);
    EvenStep(lo / 64, hi / 64, r / 64);
    EvenStep(lo / 4096, hi / 4096, r / 4096);
  }

  /** Without their last byte, and without their last two bytes, the ends of a leaf are such ends again. */
  lemma EvenParts(lo: nat, hi: nat)
    requires Even(lo, hi, 2) && Even(lo, hi, 3)
    ensures Even(lo / 64, hi / 64, 1) && Even(lo / 4096, hi / 4096, 1)
  {
    Quotients(lo);
    Quotients(hi);
    hide Even;
    EvenAbove(lo, hi, 2);
    EvenAbove(lo, hi, 3);
    EvenAbove(lo / 64, hi / 64, 2);
  }

  lemma Quotients(x: nat)
    ensures x / 64 / 64 == x / 4096 && x / 4096 / 64 == x / 262144
  {
  }

  /** The bytes of a pattern, by its length. */
  lemma PatternBytes(r: nat)
    requires 0x80 <= r <= MaxRune
    ensures var w := BitPattern(r);
            && (|w| == 2 ==> w == [0xC0 + r / 64 % 64, 0x80 + r % 64] && r / 4096 == 0 && r / 262144 == 0)
            && (|w| == 3 ==> w == [0xE0 + r / 4096 % 64, 0x80 + r / 64 % 64, 0x80 + r % 64] && r / 262144 == 0 && r / 4096 % 64 < 16)
            && (|w| == 4 ==> w == [0xF0 + r / 262144, 0x80 + r / 4096 % 64, 0x80 + r / 64 % 64, 0x80 + r % 64])
  {
  }

  /** In a leaf, the patterns of the runes are exactly the byte strings between the first and the last one. */
  lemma LeafPatterns(lo: nat, hi: nat, r: nat)
    requires Leaf(lo, hi) && r <= MaxRune && EncodedLen(r) == EncodedLen(lo)
    ensures lo <= r <= hi <==> Between(BitPattern(r), BitPattern(lo), BitPattern(hi))
  {
    if hi < 0x80 {
      assert BitPattern(r) == [r] && BitPattern(lo) == [lo] && BitPattern(hi) == [hi];
      assert Between([r], [lo], [hi]) <==> [lo][0] <= [r][0] <= [hi][0];
    } else {
      LeafDigits(lo, hi, r);
      PatternsBetween(lo, r, hi);
    }
  }

  lemma PatternsBetween(lo: nat, r: nat, hi: nat)
    requires 0x80 <= lo <= MaxRune && 0x80 <= hi <= MaxRune && 0x80 <= r <= MaxRune
    requires EncodedLen(lo) == EncodedLen(hi) == EncodedLen(r)
    ensures Between(BitPattern(r), BitPattern(lo), BitPattern(hi)) <==> DigitsBetween(lo, r, hi)
  {
    PatternBytes(lo);
    PatternBytes(hi);
    PatternBytes(r);
    hide BitPattern, Between, EncodedLen;
    BetweenBytes(BitPattern(r), BitPattern(lo), BitPattern(hi));
  }

  lemma BetweenBytes(w: Str, a: Str, b: Str)
    requires |w| == |a| == |b| && 2 <= |w| <= 4
    ensures |w| == 2 ==> (Between(w, a, b) <==> a[0] <= w[0] <= b[0] && a[1] <= w[1] <= b[1])
    ensures |w| == 3 ==> (Between(w, a, b) <==> a[0] <= w[0] <= b[0] && a[1] <= w[1] <= b[1] && a[2] <= w[2] <= b[2])
    ensures |w| == 4 ==>
              (Between(w, a, b) <==>
               a[0] <= w[0] <= b[0] && a[1] <= w[1] <= b[1] && a[2] <= w[2] <= b[2] && a[3] <= w[3] <= b[3])
  {
  }

  function FromDigits(a: int, b: int, c: int, d: int): int {
    a * 262144 + b * 4096 + c * 64 + d
  }

  lemma Digit64(q: nat, d: nat)
    requires d < 64
    ensures (64 * q + d) / 64 == q && (64 * q + d) % 64 == d
  {
  }

  lemma DigitsBack(a: nat, b: nat, c: nat, d: nat)
    requires b < 64 && c < 64 && d < 64
    ensures var r := FromDigits(a, b, c, d); r >= 0 && r % 64 == d && r / 64 % 64 == c && r / 4096 % 64 == b && r / 262144 == a
  {
    var q1, q2 := a * 4096 + b * 64 + c, a * 64 + b;
    Digit64(q1, d);
    Digit64(q2, c);
    Digit64(a, b);
    Quotients(FromDigits(a, b, c, d));
  }

  /** The number that a multi-byte pattern stands for. */
  function Decoded(w: Str): int
    requires 2 <= |w| <= 4
  {
    if |w| == 2 then FromDigits(0, 0, w[0] as int - 0xC0, w[1] as int - 0x80)
    else if |w| == 3 then FromDigits(0, w[0] as int - 0xE0, w[1] as int - 0x80, w[2] as int - 0x80)
    else FromDigits(w[0] as int - 0xF0, w[1] as int - 0x80, w[2] as int - 0x80, w[3] as int - 0x80)
  }

  lemma DecodedDigits(w: Str, lo: nat, hi: nat)
    requires 0x80 <= lo <= hi <= MaxRune && EncodedLen(lo) == EncodedLen(hi) && Between(w, BitPattern(lo), BitPattern(hi))
    ensures 2 <= |w| <= 4 && Decoded(w) >= 0 && DigitsBetween(lo, Decoded(w), hi) && IsPatternOf(w, Decoded(w))
  {
    PatternBytes(lo);
    PatternBytes(hi);
    BetweenBytes(w, BitPattern(lo), BitPattern(hi));
    hide BitPattern, Between, FromDigits, DigitsBetween, IsPatternOf;
    if |w| == 2 {
      Digits2(w, lo, hi);
    } else if |w| == 3 {
      Digits3(w, lo, hi);
    } else {
      Digits4(w, lo, hi);
    }
  }

  predicate IsPatternOf(w: Str, r: nat) {
    || (|w| == 2 && w == [0xC0 + r / 64 % 64, 0x80 + r % 64])
    || (|w| == 3 && w == [0xE0 + r / 4096 % 64 % 16, 0x80 + r / 64 % 64, 0x80 + r % 64] && r / 4096 % 64 < 16)
    || (|w| == 4 && r / 262144 < 16 && w == [0xF0 + r / 262144, 0x80 + r / 4096 % 64, 0x80 + r / 64 % 64, 0x80 + r % 64])
  }

  lemma Digits2(w: Str, lo: nat, hi: nat)
    requires |w| == 2 && lo / 4096 == hi / 4096 == 0 && lo / 262144 == hi / 262144 == 0
    requires 0xC0 + lo / 64 % 64 <= w[0] <= 0xC0 + hi / 64 % 64 && 0x80 + lo % 64 <= w[1] <= 0x80 + hi % 64
    ensures Decoded(w) >= 0 && DigitsBetween(lo, Decoded(w), hi) && IsPatternOf(w, Decoded(w))
  {
    hide FromDigits;
    DigitsBack(0, 0, w[0] as int - 0xC0, w[1] as int - 0x80);
  }

  lemma Digits3(w: Str, lo: nat, hi: nat)
    requires |w| == 3 && lo / 262144 == hi / 262144 == 0 && hi / 4096 % 64 < 16
    requires 0xE0 + lo / 4096 % 64 <= w[0] <= 0xE0 + hi / 4096 % 64
    requires 0x80 + lo / 64 % 64 <= w[1] <= 0x80 + hi / 64 % 64 && 0x80 + lo % 64 <= w[2] <= 0x80 + hi % 64
    ensures Decoded(w) >= 0 && DigitsBetween(lo, Decoded(w), hi) && IsPatternOf(w, Decoded(w))
  {
    hide FromDigits;
    DigitsBack(0, w[0] as int - 0xE0, w[1] as int - 0x80, w[2] as int - 0x80);
  }

  lemma Digits4(w: Str, lo: nat, hi: nat)
    requires |w| == 4 && hi / 262144 < 16
    requires 0xF0 + lo / 262144 <= w[0] <= 0xF0 + hi / 262144 && 0x80 + lo / 4096 % 64 <= w[1] <= 0x80 + hi / 4096 % 64
    requires 0x80 + lo / 64 % 64 <= w[2] <= 0x80 + hi / 64 % 64 && 0x80 + lo % 64 <= w[3] <= 0x80 + hi % 64
    ensures Decoded(w) >= 0 && DigitsBetween(lo, Decoded(w), hi) && IsPatternOf(w, Decoded(w))
  {
    hide FromDigits;
    DigitsBack(w[0] as int - 0xF0, w[1] as int - 0x80, w[2] as int - 0x80, w[3] as int - 0x80);
  }

  /** A byte string between the first and the last pattern of a leaf is a pattern itself. */
  lemma BetweenIsPattern(lo: nat, hi: nat, w: Str) returns (r: nat)
    requires Leaf(lo, hi) && Between(w, BitPattern(lo), BitPattern(hi))
    ensures lo <= r <= hi && w == BitPattern(r)
  {
    if hi < 0x80 {
      r := w[0];
      assert BitPattern(lo) == [lo] && BitPattern(hi) == [hi];
    } else {
      hide Decoded, DigitsBetween, Even, Between, BitPattern, IsPatternOf;
      DecodedDigits(w, lo, hi);
      r := Decoded(w);
      LeafDigits(lo, hi, r);
      PatternBytes(lo);
      PatternIs(w, r);
    }
  }

  lemma PatternIs(w: Str, r: nat)
    requires 0x80 <= r <= MaxRune && IsPatternOf(w, r) && |w| == EncodedLen(r)
    ensures w == BitPattern(r)
  {
    PatternBytes(r);
    hide BitPattern;
  }

  // ------------------------------------------------------------------ splitting a range

  /** Where lo to hi is split because its runes have different lengths: before the first that is longer. */
  function LengthSplit(lo: nat, hi: nat): Option<nat> {
    if lo <= 0x7F < hi then Some(0x7F) else if lo <= 0x7FF < hi then Some(0x7FF) else if lo <= 0xFFFF < hi then Some(0xFFFF)
    else None
  }

  /** Where it is split because the last i bytes are neither free nor do the bytes before them agree. */
  function TailSplit(lo: nat, hi: nat, i: nat): Option<nat>
    requires 1 <= i <= 3
  {
    var p := Span(i);
    if lo / p == hi / p then None
    else if lo % p != 0 then Some(lo - lo % p + (p - 1))
    else if hi % p != p - 1 && hi >= p then Some(hi - hi % p - 1)
    else None
  }

  function Split(lo: nat, hi: nat): Option<nat> {
    if LengthSplit(lo, hi).Some? then LengthSplit(lo, hi)
    else if hi < 0x80 then None
    else if TailSplit(lo, hi, 1).Some? then TailSplit(lo, hi, 1)
    else if TailSplit(lo, hi, 2).Some? then TailSplit(lo, hi, 2)
    else TailSplit(lo, hi, 3)
  }

  lemma TailSplitInside(lo: nat, hi: nat, i: nat)
    requires 1 <= i <= 3 && lo <= hi
    ensures TailSplit(lo, hi, i).Some? ==> lo <= TailSplit(lo, hi, i).value < hi
    ensures TailSplit(lo, hi, i).None? ==> Even(lo, hi, i)
  {
    var p := Span(i);
    assert lo == p * (lo / p) + lo % p && hi == p * (hi / p) + hi % p;
    if lo / p != hi / p {
      assert lo / p + 1 <= hi / p;
      assert p * (lo / p + 1) <= p * (hi / p);
    }
  }

  /** Both parts of a split are smaller, and what is not split is a leaf. */
  lemma SplitInside(lo: nat, hi: nat)
    requires lo <= hi <= MaxRune
    ensures Split(lo, hi).Some? ==> lo <= Split(lo, hi).value < hi
    ensures Split(lo, hi).None? ==> Leaf(lo, hi)
  {
    TailSplitInside(lo, hi, 1);
    TailSplitInside(lo, hi, 2);
    TailSplitInside(lo, hi, 3);
    hide Even, TailSplit;
  }

  /** What is accepted for a range: in each leaf, the strings between the encodings of its ends. */
  ghost predicate Lang(lo: nat, hi: nat, w: Str)
    requires hi <= MaxRune
    decreases if lo <= hi then hi - lo + 1 else 0
  {
    lo <= hi &&
    (SplitInside(lo, hi);
     match Split(lo, hi)
     case Some(s) => Lang(lo, s, w) || Lang(s + 1, hi, w)
     case None => Between(w, EncodeRune(lo), EncodeRune(hi)))
  }

  // ---------------------------------------------------------- when a range is right

  /** The pattern of some rune from lo to hi. */
  ghost predicate InRunes(lo: nat, hi: nat, w: Str) {
    exists r: nat :: lo <= r <= hi <= MaxRune && w == BitPattern(r)
  }

  /** The range has no surrogate, or it goes over the whole blocks of runes that surround the surrogates. */
  predicate Good(lo: nat, hi: nat) {
    hi < 0xD800 || lo > 0xDFFF || (lo <= 0xD000 && hi >= 0xEFFF)
  }

  lemma GoodParts(lo: nat, hi: nat)
    requires lo <= hi <= MaxRune && Good(lo, hi) && Split(lo, hi).Some?
    ensures Good(lo, Split(lo, hi).value) && Good(Split(lo, hi).value + 1, hi)
  {
    hide TailSplit;
    if LengthSplit(lo, hi).None? {
      GoodTails(lo, hi, 1);
      GoodTails(lo, hi, 2);
      GoodTails(lo, hi, 3);
    }
  }

  lemma GoodTails(lo: nat, hi: nat, i: nat)
    requires 1 <= i <= 3 && lo <= hi && Good(lo, hi) && LengthSplit(lo, hi).None?
    ensures TailSplit(lo, hi, i).Some? ==> Good(lo, TailSplit(lo, hi, i).value) && Good(TailSplit(lo, hi, i).value + 1, hi)
  {
  }

  /** A rune of the leaf's length is in the leaf if its pattern is between those of the ends. */
  lemma LeafMeans(lo: nat, hi: nat, w: Str)
    requires Leaf(lo, hi)
    ensures Between(w, BitPattern(lo), BitPattern(hi)) <==> InRunes(lo, hi, w)
  {
    if Between(w, BitPattern(lo), BitPattern(hi)) {
      var r := BetweenIsPattern(lo, hi, w);
    }
    if InRunes(lo, hi, w) {
      var r: nat :| lo <= r <= hi && w == BitPattern(r);
      LeafPatterns(lo, hi, r);
    }
  }

  lemma RunesSplit(lo: nat, s: nat, hi: nat, w: Str)
    requires lo <= s < hi <= MaxRune
    ensures InRunes(lo, hi, w) <==> InRunes(lo, s, w) || InRunes(s + 1, hi, w)
  {
    if r: nat :| lo <= r <= hi && w == BitPattern(r) {
      assert r <= s ==> InRunes(lo, s, w);
      assert r > s ==> InRunes(s + 1, hi, w);
    }
  }

  /** For a good range exactly the patterns of its runes are accepted. */
  lemma {:induction false} LangOfGood(lo: nat, hi: nat, w: Str)
    requires hi <= MaxRune && Good(lo, hi)
    ensures Lang(lo, hi, w) <==> InRunes(lo, hi, w)
    decreases if lo <= hi then hi - lo + 1 else 0
  {
    hide Split, Leaf, Between, BitPattern;
    if lo <= hi {
      SplitInside(lo, hi);
      match Split(lo, hi)
      case Some(s) =>
        GoodParts(lo, hi);
        LangOfGood(lo, s, w);
        LangOfGood(s + 1, hi, w);
        RunesSplit(lo, s, hi, w);
      case None =>
        LeafMeans(lo, hi, w);
    }
  }

  lemma SurrogatePattern(r: nat)
    requires IsSurrogate(r)
    ensures BitPattern(r) == [0xED, 0x80 + r / 64 % 64, 0x80 + r % 64] && EncodeRune(r) == [0xEF, 0xBF, 0xBD]
  {
  }

  /** A leaf with surrogates inside but not at its ends is a good range. */
  lemma LeafAround(lo: nat, hi: nat)
    requires Leaf(lo, hi) && lo <= 0xD7FF && hi >= 0xE000
    ensures Good(lo, hi)
  {
    assert Even(lo, hi, 2);
  }

  /** In a leaf, what is accepted of the surrogates' patterns. */
  lemma LeafSurrogate(lo: nat, hi: nat, r: nat)
    requires Leaf(lo, hi) && IsSurrogate(r)
    ensures Between(BitPattern(r), EncodeRune(lo), EncodeRune(hi)) ==>
              (lo < 0xD800 && IsSurrogate(hi) && r % 64 != 63 && hi % 64 == 63) || (lo <= 0xD7FF && hi >= 0xE000)
  {
    SurrogatePattern(r);
    if |EncodeRune(lo)| == 3 && |EncodeRune(hi)| == 3 {
      BetweenBytes(BitPattern(r), EncodeRune(lo), EncodeRune(hi));
    }
    if IsSurrogate(lo) {
      SurrogatePattern(lo);
    } else if IsSurrogate(hi) {
      SurrogatePattern(hi);
      assert Even(lo, hi, 1);
    } else if Between(BitPattern(r), BitPattern(lo), BitPattern(hi)) {
      LeafPatterns(lo, hi, r);
    }
  }

  /** The last surrogate of a block of 64 is not accepted for a range that is not good. */
  lemma {:induction false} BlockEndMissed(lo: nat, hi: nat, r: nat)
    requires hi <= MaxRune && IsSurrogate(r) && r % 64 == 63 && (lo <= r <= hi ==> !Good(lo, hi))
    ensures !Lang(lo, hi, BitPattern(r))
    decreases if lo <= hi then hi - lo + 1 else 0
  {
    hide Split, Leaf, Between, BitPattern, EncodeRune;
    if lo <= hi {
      SplitInside(lo, hi);
      match Split(lo, hi)
      case Some(s) =>
        BlockEndMissed(lo, s, r);
        BlockEndMissed(s + 1, hi, r);
      case None =>
        LeafSurrogate(lo, hi, r);
        if lo <= 0xD7FF && hi >= 0xE000 {
          LeafAround(lo, hi);
        }
    }
  }

  /** In a range without the end of a block of surrogates, no surrogate is accepted. */
  lemma {:induction false} AllMissed(lo: nat, hi: nat, r: nat)
    requires hi <= MaxRune && IsSurrogate(r) && forall x :: lo <= x <= hi && IsSurrogate(x) ==> x % 64 != 63
    ensures !Lang(lo, hi, BitPattern(r))
    decreases if lo <= hi then hi - lo + 1 else 0
  {
    hide Split, Leaf, Between, BitPattern, EncodeRune;
    if lo <= hi {
      SplitInside(lo, hi);
      match Split(lo, hi)
      case Some(s) =>
        AllMissed(lo, s, r);
        AllMissed(s + 1, hi, r);
      case None =>
        LeafSurrogate(lo, hi, r);
        assert IsSurrogate(0xDFFF) && 0xDFFF % 64 == 63;
    }
  }

  /** Exactly the good ranges accept exactly the patterns of their runes. */
  lemma RangeExact(lo: nat, hi: nat)
    requires lo <= hi <= MaxRune
    ensures Good(lo, hi) <==> forall w :: Lang(lo, hi, w) <==> InRunes(lo, hi, w)
  {
    if Good(lo, hi) {
      forall w
        ensures Lang(lo, hi, w) <==> InRunes(lo, hi, w)
      {
        LangOfGood(lo, hi, w);
      }
    } else {
      var r := if lo < 0xD800 then 0xD800 else lo;
      if x: nat :| lo <= x <= hi && IsSurrogate(x) && x % 64 == 63 {
        r := x;
        BlockEndMissed(lo, hi, r);
      } else {
        AllMissed(lo, hi, r);
      }
      assert InRunes(lo, hi, BitPattern(r)) && !Lang(lo, hi, BitPattern(r));
    }
  }

  /** Without surrogates these are the UTF-8 encodings of the runes. */
  lemma RunesAreEncoded(lo: nat, hi: nat, w: Str)
    requires hi <= MaxRune && (hi < 0xD800 || lo > 0xDFFF)
    ensures InRunes(lo, hi, w) <==> exists r: nat :: lo <= r <= hi && w == EncodeRune(r)
  {
    if InRunes(lo, hi, w) {
      var r: nat :| lo <= r <= hi && w == BitPattern(r);
      assert w == EncodeRune(r);
    }
    if r: nat :| lo <= r <= hi && w == EncodeRune(r) {
      assert w == BitPattern(r);
    }
  }

  /** A single surrogate: the automaton accepts the encoding of U+FFFD instead of its pattern. */
  lemma OneSurrogate(w: Str)
    ensures Lang(0xD800, 0xD800, w) <==> w == [0xEF, 0xBF, 0xBD]
  {
    SurrogatePattern(0xD800);
    if w == [0xEF, 0xBF, 0xBD] {
      assert Between(w, w, w);
    }
    if Between(w, [0xEF, 0xBF, 0xBD], [0xEF, 0xBF, 0xBD]) {
      assert w == [w[0], w[1], w[2]];
    }
  }

  // --------------------------------------------------------------------- small ranges

  /** A leaf of at most 100 runes does not go over an end of the surrogates. */
  lemma SmallLeaf(lo: nat, hi: nat)
    requires Leaf(lo, hi) && hi - lo <= 100
    ensures hi < 0xD800 || lo > 0xDFFF || (IsSurrogate(lo) && IsSurrogate(hi))
  {
    assert hi >= 0x80 ==> Even(lo, hi, 1);
  }

  lemma SmallLeafMeans(lo: nat, hi: nat, w: Str)
    requires Leaf(lo, hi) && hi - lo <= 100
    ensures Between(w, EncodeRune(lo), EncodeRune(hi)) <==> exists r: nat :: lo <= r <= hi && w == EncodeRune(r)
  {
    SmallLeaf(lo, hi);
    if hi < 0xD800 || lo > 0xDFFF {
      LeafMeans(lo, hi, w);
      RunesAreEncoded(lo, hi, w);
    } else {
      OneSurrogateRange(lo, hi, w);
    }
  }

  /** Whatever surrogates are its ends, a leaf is taken for U+FFFD. */
  lemma OneSurrogateRange(lo: nat, hi: nat, w: Str)
    requires IsSurrogate(lo) && IsSurrogate(hi) && lo <= hi
    ensures Between(w, EncodeRune(lo), EncodeRune(hi)) <==> exists r: nat :: lo <= r <= hi && w == EncodeRune(r)
  {
    assert EncodeRune(lo) == EncodeRune(hi) == EncodeRune(RuneError);
    BetweenSame(w, EncodeRune(RuneError));
    if r: nat :| lo <= r <= hi && w == EncodeRune(r) {
      assert IsSurrogate(r);
    }
  }

  lemma BetweenSame(w: Str, v: Str)
    ensures Between(w, v, v) <==> w == v
  {
    if Between(w, v, v) {
      assert forall k :: 0 <= k < |w| ==> w[k] == v[k];
    }
  }

  /** For a range of at most 100 runes the encodings of its runes are accepted, with U+FFFD for a surrogate. */
  lemma {:induction false} LangOfSmall(lo: nat, hi: nat, w: Str)
    requires hi <= MaxRune && hi - lo <= 100
    ensures Lang(lo, hi, w) <==> exists r: nat :: lo <= r <= hi && w == EncodeRune(r)
    decreases if lo <= hi then hi - lo + 1 else 0
  {
    hide Split, Leaf, Between, EncodeRune;
    if lo <= hi {
      SplitInside(lo, hi);
      match Split(lo, hi)
      case Some(s) =>
        LangOfSmall(lo, s, w);
        LangOfSmall(s + 1, hi, w);
      case None =>
        SmallLeafMeans(lo, hi, w);
    }
  }
}
