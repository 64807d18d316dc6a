/** Rune instructions that one byte range can stand for (oneByteRange and asciiFold of
    internal/codesearch/regexp/utf.go). */
module FoldedBytes {
  import opened Bytes
  import opened Utf8
  import opened ByteProgram
  import opened ProgramLaws

  /** An instruction for the rune r, or for the runes of a list: a single rune or lo-hi pairs. */
  datatype RuneInst = Rune1(r: nat) | Runes(runes: seq<nat>, fold: bool)

  /** unicode.SimpleFold: the next rune of the orbit of a rune under case folding. */
  type Folding = nat -> nat

  /** What Unicode's case folding says of the runes below 0x80: the letters K and S have a third form above, each other letter has
      two forms, and everything else stands alone. */
  ghost predicate Unicode(next: Folding) {
    && (forall r: nat | r < 0x80 && !IsUpper(r) && !IsLower(r) :: next(r) == r)
    && (forall r: nat | IsUpper(r) :: next(r) == r + 32)
    && (forall r: nat | IsLower(r) && r !in {'k' as int, 's' as int} :: next(r) == r - 32)
    && next('k' as int) == 0x212A && next(0x212A) == 'K' as int
    && next('s' as int) == 0x17F && next(0x17F) == 'S' as int
    && (forall r: nat | r >= 0x80 && r !in {0x212A, 0x17F} :: next(r) >= 0x80)
  }

  function AsciiFold(r: nat, next: Folding): bool {
    r < 0x80 && next(r) < 0x80 && (next(r) == r || next(next(r)) == r)
  }

  /** x is what n foldings make of r. */
  predicate FoldsTo(r: nat, x: nat, n: nat, next: Folding)
    decreases n
  {
    if n == 0 then x == r else FoldsTo(next(r), x, n - 1, next)
  }

  ghost predicate SameFold(r: nat, x: nat, next: Folding) {
    exists n: nat :: FoldsTo(r, x, n, next)
  }

  predicate WellFormed(i: RuneInst) {
    match i
    case Rune1(r) => r <= 0x10FFFF
    case Runes(runes, fold) =>
      && (|runes| == 1 || |runes| % 2 == 0)
      && (forall k :: 0 <= k < |runes| ==> runes[k] <= 0x10FFFF)
      && (forall j, k :: 0 <= j < k < |runes| ==> runes[j] <= runes[k])
      && (forall k {:trigger runes[2 * k]} :: 0 < k < |runes| / 2 ==> runes[2 * k - 1] < runes[2 * k])
  }

  ghost predicate InPairs(runes: seq<nat>, x: nat)
    requires |runes| == 1 || |runes| % 2 == 0
  {
    if |runes| == 1 then x == runes[0]
    else runes != [] && (runes[0] <= x <= runes[1] || InPairs(runes[2..], x))
  }

  /** The runes that the instruction takes. */
  ghost predicate Takes(i: RuneInst, x: nat, next: Folding)
    requires WellFormed(i)
  {
    match i
    case Rune1(r) => x == r
    case Runes(runes, fold) => if fold then exists r: nat :: InPairs(runes, r) && SameFold(r, x, next) else InPairs(runes, x)
  }

  datatype Range = Range(lo: Byte, hi: Byte, fold: bool)

  /** The byte range for an instruction, if oneByteRange finds one. Conversion to a byte drops all but the low 8 bits. */
  method OneByteRange(i: RuneInst, next: Folding) returns (range: Option<Range>)
    requires WellFormed(i)
    ensures range == RangeOf(i, next)
  {
    if i.Rune1? {
      if i.r < 0x80 {
        return Some(Range(i.r % 0x100, i.r % 0x100, false));
      }
      return None;
    }
    var runes, fold := i.runes, i.fold;
    if |runes| == 1 || (|runes| == 2 && runes[0] == runes[1]) {
      var r := runes[0];
      if r >= 0x80 {
        return None;
      }
      if fold && !AsciiFold(r, next) {
        return None;
      }
      return Some(Range(r % 0x100, r % 0x100, fold));
    }
    if |runes| == 2 && runes[1] < 0x80 {
      if fold {
        var r := runes[0];
        while r <= runes[1]
          invariant runes[0] <= r <= runes[1] + 1
          invariant forall x: nat :: runes[0] <= x < r ==> !AsciiFold(x, next)
        {
          if AsciiFold(r, next) {
            return None;
          }
          r := r + 1;
        }
      }
      return Some(Range(runes[0] % 0x100, runes[1] % 0x100, fold));
    }
    if |runes| == 4 && runes[0] == runes[1] && runes[2] == runes[3] && next(runes[0]) == runes[2] && next(runes[2]) == runes[0] {
      return Some(Range(runes[0] % 0x100, runes[0] % 0x100, true));
    }
    return None;
  }

  /** The instructions that get one byte range: a byte, a byte whose case folding stays among the bytes, a range of
      bytes, or two runes that fold to each other. */
  ghost predicate OneByte(i: RuneInst, next: Folding)
    requires WellFormed(i)
  {
    match i
    case Rune1(r) => r < 0x80
    case Runes(runes, fold) =>
      || (Single(runes) && runes[0] < 0x80 && (fold ==> AsciiFold(runes[0], next)))
      || (|runes| == 2 && !Single(runes) && runes[1] < 0x80 &&
          (fold ==> forall x: nat :: runes[0] <= x <= runes[1] ==> !AsciiFold(x, next)))
      || (|runes| == 4 && runes[0] == runes[1] && runes[2] == runes[3] && next(runes[0]) == runes[2] && next(runes[2]) == runes[0])
  }

  predicate Single(runes: seq<nat>) {
    |runes| == 1 || (|runes| == 2 && runes[0] == runes[1])
  }

  ghost function RangeOf(i: RuneInst, next: Folding): Option<Range>
    requires WellFormed(i)
  {
    if !OneByte(i, next) then None
    else
      match i
      case Rune1(r) => Some(Range(r, r, false))
      case Runes(runes, fold) =>
        Some(Range(runes[0] % 0x100, if |runes| == 2 then runes[1] % 0x100 else runes[0] % 0x100, fold || |runes| == 4))
  }

  // ------------------------------------------------------- what the byte range takes

  /** One byte that the range accepts is the encoding of a rune of the instruction, and each rune of the instruction
      is encoded by such a byte. */
  ghost predicate StandsFor(range: Range, i: RuneInst, next: Folding)
    requires WellFormed(i)
  {
    && (forall c: Byte :: Accepts(ByteRange(range.lo, range.hi, range.fold, 0), c) ==> Encoded(i, [c], next))
    && (forall w :: Encoded(i, w, next) ==> |w| == 1 && Accepts(ByteRange(range.lo, range.hi, range.fold, 0), w[0]))
  }

  ghost predicate Encoded(i: RuneInst, w: Str, next: Folding)
    requires WellFormed(i)
  {
    exists x: nat :: Takes(i, x, next) && w == EncodeRune(x)
  }

  /** The smallest rune is a byte, and no lower-case letter if the instruction folds. */
  predicate Small(i: RuneInst)
    requires WellFormed(i)
  {
    i.Runes? && i.runes != [] ==> i.runes[0] < 0x80 && (i.fold ==> !IsLower(i.runes[0]))
  }

  lemma {:induction false} TwoForms(r: nat, x: nat, n: nat, next: Folding)
    requires next(next(r)) == r && FoldsTo(r, x, n, next)
    ensures x in {r, next(r)}
    decreases n
  {
    if n > 0 {
      TwoForms(next(r), x, n - 1, next);
    }
  }

  lemma SameFoldIs(r: nat, x: nat, next: Folding)
    requires next(next(r)) == r
    ensures SameFold(r, x, next) <==> x in {r, next(r)}
  {
    if n: nat :| FoldsTo(r, x, n, next) {
      TwoForms(r, x, n, next);
    }
    assert FoldsTo(r, r, 0, next);
    assert FoldsTo(next(r), next(r), 0, next);
    assert FoldsTo(r, next(r), 1, next);
  }

  lemma PairOrSingle(runes: seq<nat>, x: nat)
    requires Single(runes) || |runes| == 2 || (|runes| == 4 && runes[0] == runes[1] && runes[2] == runes[3])
    ensures Single(runes) ==> (InPairs(runes, x) <==> x == runes[0])
    ensures |runes| == 2 && runes[0] <= runes[1] ==> (InPairs(runes, x) <==> runes[0] <= x <= runes[1])
    ensures |runes| == 4 ==> (InPairs(runes, x) <==> x in {runes[0], runes[2]})
  {
    if |runes| == 2 {
      assert runes[2..] == [];
    } else if |runes| == 4 {
      assert runes[2..] == [runes[2], runes[3]];
      assert runes[2..][2..] == [];
    }
  }

  /** Of two bytes that follow each other one folds to bytes only, so a longer range that folds is left to the
      general case. */
  lemma NoFoldedRange(lo: nat, hi: nat, next: Folding)
    requires lo < hi < 0x80 && Unicode(next)
    ensures exists x: nat :: lo <= x <= hi && AsciiFold(x, next)
  {
    assert AsciiFold(lo, next) || AsciiFold(lo + 1, next);
  }

  /** The runes of an instruction with one byte range. */
  lemma TakesWhat(i: RuneInst, x: nat, next: Folding)
    requires WellFormed(i) && Unicode(next) && OneByte(i, next)
    ensures i.Rune1? ==> (Takes(i, x, next) <==> x == i.r)
    ensures i.Runes? && Single(i.runes) && !i.fold ==> (Takes(i, x, next) <==> x == i.runes[0])
    ensures i.Runes? && Single(i.runes) && i.fold ==> (Takes(i, x, next) <==> x in {i.runes[0], next(i.runes[0])})
    ensures i.Runes? && |i.runes| == 2 && !Single(i.runes) ==> !i.fold && (Takes(i, x, next) <==> i.runes[0] <= x <= i.runes[1])
    ensures i.Runes? && |i.runes| == 4 ==> (Takes(i, x, next) <==> x in {i.runes[0], i.runes[2]})
  {
    if i.Runes? {
      var runes := i.runes;
      forall r: nat
        ensures Single(runes) ==> (InPairs(runes, r) <==> r == runes[0])
        ensures |runes| == 2 ==> (InPairs(runes, r) <==> runes[0] <= r <= runes[1])
        ensures |runes| == 4 ==> (InPairs(runes, r) <==> r in {runes[0], runes[2]})
      {
        PairOrSingle(runes, r);
      }
      if |runes| == 2 && !Single(runes) && runes[1] < 0x80 {
        NoFoldedRange(runes[0], runes[1], next);
      }
      if i.fold && (Single(runes) || |runes| == 4) {
        SameFoldIs(runes[0], x, next);
        SameFoldIs(next(runes[0]), x, next);
      }
    }
  }

  lemma AsciiEncoding(x: nat)
    ensures x < 0x80 ==> EncodeRune(x) == [x]
    ensures x >= 0x80 ==> |EncodeRune(x)| > 1
  {
  }

  /** The byte range stands for the instruction exactly if the smallest rune is small: the case of two runes that
      fold to each other does not look at their size, and a lower-case letter is never compared. */
  lemma RangeStands(i: RuneInst, next: Folding)
    requires WellFormed(i) && Unicode(next) && OneByte(i, next)
    ensures StandsFor(RangeOf(i, next).value, i, next) <==> Small(i)
  {
    var range := RangeOf(i, next).value;
    if Small(i) {
      forall x: nat
        ensures Takes(i, x, next) <==> x < 0x80 && Accepts(ByteRange(range.lo, range.hi, range.fold, 0), x)
      {
        TakesWhat(i, x, next);
      }
      AcceptedIsEncoded(range, i, next);
    } else {
      var r := i.runes[0];
      TakesWhat(i, r, next);
      AsciiEncoding(r);
      assert Encoded(i, EncodeRune(r), next);
    }
  }

  lemma AcceptedIsEncoded(range: Range, i: RuneInst, next: Folding)
    requires WellFormed(i)
    requires forall x: nat :: Takes(i, x, next) <==> x < 0x80 && Accepts(ByteRange(range.lo, range.hi, range.fold, 0), x)
    requires range.lo <= range.hi < 0x80
    ensures StandsFor(range, i, next)
  {
    hide Takes, WellFormed;
    forall c: Byte | Accepts(ByteRange(range.lo, range.hi, range.fold, 0), c)
      ensures Encoded(i, [c], next)
    {
      AsciiEncoding(c);
      assert Takes(i, c, next);
    }
    forall w | Encoded(i, w, next)
      ensures |w| == 1 && Accepts(ByteRange(range.lo, range.hi, range.fold, 0), w[0])
    {
      var x: nat :| Takes(i, x, next) && w == EncodeRune(x);
      AsciiEncoding(x);
    }
  }

  /** The class of the runes U+0141 and U+0142 becomes a range for the letters A and a. */
  method LostStroke(next: Folding) returns (range: Option<Range>)
    requires Unicode(next) && next(0x141) == 0x142 && next(0x142) == 0x141
    ensures range.Some?
    ensures forall c: Byte :: Accepts(ByteRange(range.value.lo, range.value.hi, range.value.fold, 0), c) <==> c in {'A' as int, 'a' as int}
    ensures forall x: nat :: Takes(Runes([0x141, 0x141, 0x142, 0x142], false), x, next) <==> x in {0x141, 0x142}
  {
    var i := Runes([0x141, 0x141, 0x142, 0x142], false);
    range := OneByteRange(i, next);
    forall x: nat
      ensures Takes(i, x, next) <==> x in {0x141, 0x142}
    {
      TakesWhat(i, x, next);
    }
  }
}
