/** What the instructions of byte programs mean for the lines that a program matches (stepByte and addq of
    internal/codesearch/regexp/match.go). */
module ProgramLaws {
  import opened Bytes
  import opened RegexpSyntax
  import opened ByteProgram
  import opened Lines

  predicate IsUpper(c: int) {
    'A' as int <= c <= 'Z' as int
  }

  predicate IsLower(c: int) {
    'a' as int <= c <= 'z' as int
  }

  /** The upper-case form of a letter, and everything else as it is. */
  function Upper(c: int): int {
    if IsLower(c) then c - 'a' as int + 'A' as int else c
  }

  /** A folding range of upper-case letters accepts exactly these letters in both cases; a range that does not fold
      accepts exactly its bytes. */
  lemma RangeAccepts(lo: Byte, hi: Byte, fold: bool, out: nat, c: Byte)
    ensures !fold ==> (Accepts(ByteRange(lo, hi, fold, out), c) <==> lo <= c <= hi)
    ensures fold && IsUpper(lo) && IsUpper(hi) ==>
              (Accepts(ByteRange(lo, hi, fold, out), c) <==> lo <= c <= hi || lo + 32 <= c <= hi + 32)
    ensures fold ==> (Accepts(ByteRange(lo, hi, fold, out), c) <==> lo <= Upper(c) <= hi)
  {
  }

  // -------------------------------------------------------------- alike programs

  /** The programs move alike on the two lines. */
  ghost predicate Alike(p: Prog, q: Prog, a: Line, b: Line) {
    && p.start == q.start && |p.inst| == |q.inst| && |a.bytes| == |b.bytes|
    && forall pc | 0 <= pc < |p.inst| :: AlikeAt(p.inst[pc], q.inst[pc], a, b)
  }

  ghost predicate AlikeAt(i: Inst, j: Inst, a: Line, b: Line)
    requires |a.bytes| == |b.bytes|
  {
    && (i.Match? <==> j.Match?)
    && (forall k: nat | k <= |a.bytes| :: Successors(i, FlagsAt(a, k)) == Successors(j, FlagsAt(b, k)))
    && (forall k: nat | k < |a.bytes| :: Accepts(i, a.bytes[k]) <==> Accepts(j, b.bytes[k]))
    && (i.ByteRange? && j.ByteRange? ==> i.out == j.out)
  }

  lemma AlikeStep(p: Prog, q: Prog, a: Line, b: Line, from: Thread, to: Thread)
    requires Alike(p, q, a, b) && Step(p, a, from, to)
    ensures Step(q, b, from, to)
  {
    assert AlikeAt(p.inst[from.pc], q.inst[from.pc], a, b);
  }

  lemma {:induction false} AlikePath(p: Prog, q: Prog, a: Line, b: Line, from: Thread, to: Thread, n: nat)
    requires Alike(p, q, a, b) && Path(p, a, from, to, n)
    ensures Path(q, b, from, to, n)
    decreases n
  {
    if n > 0 {
      var m :| Step(p, a, from, m) && Path(p, a, m, to, n - 1);
      AlikeStep(p, q, a, b, from, m);
      AlikePath(p, q, a, b, m, to, n - 1);
    }
  }

  lemma AlikeMatches(p: Prog, q: Prog, a: Line, b: Line)
    requires Alike(p, q, a, b) && LineMatches(p, a)
    ensures LineMatches(q, b)
  {
    hide AlikeAt, Path;
    var s: nat, to: Thread :| s <= |a.bytes| && Reaches(p, a, s, to) && to.pc < |p.inst| && p.inst[to.pc].Match?;
    var n :| Path(p, a, Thread(p.start, s), to, n);
    AlikePath(p, q, a, b, Thread(p.start, s), to, n);
    assert Reaches(q, b, s, to);
    assert q.inst[to.pc].Match? by {
      assert AlikeAt(p.inst[to.pc], q.inst[to.pc], a, b);
      AlikeMatch(p.inst[to.pc], q.inst[to.pc], a, b);
    }
  }

  lemma AlikeMatch(i: Inst, j: Inst, a: Line, b: Line)
    requires |a.bytes| == |b.bytes| && AlikeAt(i, j, a, b)
    ensures i.Match? <==> j.Match?
  {
  }

  // ----------------------------------------------------------------------- case

  /** Every range of the program that has a letter in it folds. */
  ghost predicate CaseBlind(prog: Prog) {
    forall pc | 0 <= pc < |prog.inst| && prog.inst[pc].ByteRange? && !prog.inst[pc].fold ::
      forall c | IsUpper(c) || IsLower(c) :: !(prog.inst[pc].lo <= c <= prog.inst[pc].hi)
  }

  ghost predicate SameButCase(a: Line, b: Line) {
    && |a.bytes| == |b.bytes| && a.first == b.first && a.last == b.last
    && forall k | 0 <= k < |a.bytes| :: Upper(a.bytes[k]) == Upper(b.bytes[k])
  }

  lemma SameFlags(a: Line, b: Line, k: nat)
    requires SameButCase(a, b) && k <= |a.bytes|
    ensures FlagsAt(a, k) == FlagsAt(b, k)
  {
    assert k > 0 ==> Upper(a.bytes[k - 1]) == Upper(b.bytes[k - 1]);
    assert k < |a.bytes| ==> Upper(a.bytes[k]) == Upper(b.bytes[k]);
  }

  /** A program whose ranges with letters fold does not tell lines apart that differ only in the case of letters. */
  lemma CaseDoesNotMatter(prog: Prog, a: Line, b: Line)
    requires CaseBlind(prog) && SameButCase(a, b)
    ensures LineMatches(prog, a) <==> LineMatches(prog, b)
  {
    hide LineMatches;
    CaseAlike(prog, a, b);
    CaseAlike(prog, b, a);
    if LineMatches(prog, a) {
      AlikeMatches(prog, prog, a, b);
    }
    if LineMatches(prog, b) {
      AlikeMatches(prog, prog, b, a);
    }
  }

  lemma CaseAlike(prog: Prog, a: Line, b: Line)
    requires CaseBlind(prog) && SameButCase(a, b)
    ensures Alike(prog, prog, a, b)
  {
    forall pc | 0 <= pc < |prog.inst|
      ensures AlikeAt(prog.inst[pc], prog.inst[pc], a, b)
    {
      var i := prog.inst[pc];
      forall k: nat | k <= |a.bytes|
        ensures Successors(i, FlagsAt(a, k)) == Successors(i, FlagsAt(b, k))
      {
        SameFlags(a, b, k);
      }
      forall k: nat | k < |a.bytes|
        ensures Accepts(i, a.bytes[k]) <==> Accepts(i, b.bytes[k])
      {
        if i.ByteRange? {
          RangeAccepts(i.lo, i.hi, i.fold, i.out, a.bytes[k]);
          RangeAccepts(i.lo, i.hi, i.fold, i.out, b.bytes[k]);
        }
      }
    }
  }

  // ----------------------------------------------------- instructions that read nothing

  /** The plain form of an instruction that reads nothing: captures do nothing, an alternative that may match at once
      is an alternative, and an assertion of nothing does nothing. */
  function Plain(i: Inst): Inst {
    match i
    case Capture(out) => Nop(out)
    case AltMatch(out, arg) => Alt(out, arg)
    case EmptyWidth(ops, out) => if ops == {} then Nop(out) else i
    case _ => i
  }

  lemma PlainMatches(prog: Prog, line: Line)
    ensures LineMatches(prog, line) <==> LineMatches(Prog(seq(|prog.inst|, k requires 0 <= k < |prog.inst| => Plain(prog.inst[k])), prog.start), line)
  {
    hide LineMatches;
    var plain := Prog(seq(|prog.inst|, k requires 0 <= k < |prog.inst| => Plain(prog.inst[k])), prog.start);
    assert Alike(prog, plain, line, line) && Alike(plain, prog, line, line) by {
      forall pc | 0 <= pc < |prog.inst|
        ensures AlikeAt(prog.inst[pc], plain.inst[pc], line, line) && AlikeAt(plain.inst[pc], prog.inst[pc], line, line)
      {
        PlainAlike(prog.inst[pc], line);
      }
    }
    if LineMatches(prog, line) {
      AlikeMatches(prog, plain, line, line);
    }
    if LineMatches(plain, line) {
      AlikeMatches(plain, prog, line, line);
    }
  }

  lemma PlainAlike(i: Inst, line: Line)
    ensures AlikeAt(i, Plain(i), line, line) && AlikeAt(Plain(i), i, line, line)
  {
  }

  /** What a line says about the assertions at a position is what they mean in the text that the line is part of. */
  lemma FlagsHold(a: Assertion, text: Str, ls: nat, le: nat, k: nat)
    requires IsLine(text, ls, le) && k <= le - ls
    ensures a in FlagsAt(LineAt(text, ls, le, true, true), k) <==> Holds(a, text, ls + k)
    ensures Holds(WordBoundary, text, ls + k) <==>
            (ls + k > 0 && IsWordByte(text[ls + k - 1])) != (ls + k < |text| && IsWordByte(text[ls + k]))
  {
    var bytes := text[ls..le];
    assert k > 0 ==> bytes[k - 1] == text[ls + k - 1];
    assert k < |bytes| ==> bytes[k] == text[ls + k];
    assert !IsWordByte(Newline);
  }

  ghost predicate AllHold(ops: set<Assertion>, text: Str, i: nat)
    requires i <= |text|
  {
    forall a | a in ops :: Holds(a, text, i)
  }

  lemma AllFlags(ops: set<Assertion>, text: Str, ls: nat, le: nat, k: nat)
    requires IsLine(text, ls, le) && k <= le - ls
    ensures ops <= FlagsAt(LineAt(text, ls, le, true, true), k) <==> AllHold(ops, text, ls + k)
  {
    hide Holds, FlagsAt;
    forall a: Assertion
      ensures a in FlagsAt(LineAt(text, ls, le, true, true), k) <==> Holds(a, text, ls + k)
    {
      FlagsHold(a, text, ls, le, k);
    }
  }

  /** An assertion alone matches the lines in which all it asks for holds at one position. */
  lemma AssertionMatches(ops: set<Assertion>, text: Str, ls: nat, le: nat)
    requires IsLine(text, ls, le)
    ensures LineMatches(Prog([EmptyWidth(ops, 1), Match], 0), LineAt(text, ls, le, true, true)) <==>
            exists p: nat :: ls <= p <= le && AllHold(ops, text, p)
  {
    hide AllHold, FlagsAt, LineMatches;
    var prog, line := Prog([EmptyWidth(ops, 1), Match], 0), LineAt(text, ls, le, true, true);
    if LineMatches(prog, line) {
      var s := AssertionHeld(ops, line);
      AllFlags(ops, text, ls, le, s);
    }
    if p: nat :| ls <= p <= le && AllHold(ops, text, p) {
      AllFlags(ops, text, ls, le, p - ls);
      HeldMatches(ops, line, p - ls);
    }
  }

  lemma AssertionHeld(ops: set<Assertion>, line: Line) returns (s: nat)
    requires LineMatches(Prog([EmptyWidth(ops, 1), Match], 0), line)
    ensures s <= |line.bytes| && ops <= FlagsAt(line, s)
  {
    hide FlagsAt;
    var prog := Prog([EmptyWidth(ops, 1), Match], 0);
    var to: Thread;
    s, to :| s <= |line.bytes| && Reaches(prog, line, s, to) && to.pc < |prog.inst| && prog.inst[to.pc].Match?;
    var n: nat :| Path(prog, line, Thread(0, s), to, n);
    assert n > 0;
    var m :| Step(prog, line, Thread(0, s), m) && Path(prog, line, m, to, n - 1);
    assert prog.inst[0] == EmptyWidth(ops, 1);
  }

  lemma HeldMatches(ops: set<Assertion>, line: Line, k: nat)
    requires k <= |line.bytes| && ops <= FlagsAt(line, k)
    ensures LineMatches(Prog([EmptyWidth(ops, 1), Match], 0), line)
  {
    hide FlagsAt;
    var prog := Prog([EmptyWidth(ops, 1), Match], 0);
    assert prog.inst[0] == EmptyWidth(ops, 1);
    assert Step(prog, line, Thread(0, k), Thread(1, k));
    assert Path(prog, line, Thread(0, k), Thread(0, k), 0);
    PathExtend(prog, line, Thread(0, k), Thread(0, k), Thread(1, k), 0);
    assert Reaches(prog, line, k, Thread(1, k));
  }
}
