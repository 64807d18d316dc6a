/** Programs for regexps that are one character class (toByteProg of internal/codesearch/regexp/utf.go), and
    that they may be searched for through the index. */
module ClassPrograms {
  import opened Bytes
  import opened Utf8
  import opened RuneRanges
  import opened ByteProgram
  import opened Lines
  import opened UtfRanges
  import opened IndexedSearch
  import R = RegexpSyntax

  /** Some bytes of the line stand for a rune of the class. */
  ghost predicate HasOne(ranges: seq<(nat, nat)>, line: Line)
    requires Ranges(ranges)
  {
    exists i: nat, j: nat :: i <= j <= |line.bytes| && InLangs(ranges, line.bytes[i..j])
  }

  /** The program of a rune instruction between the start and a match, in the form that the compiler gives it:
      it matches exactly the lines with a rune of the class. */
  method CompileClass(ranges: seq<(nat, nat)>) returns (prog: Prog)
    requires Ranges(ranges)
    ensures forall line :: LineMatches(prog, line) <==> HasOne(ranges, line)
  {
    var b := BuildClass([Fail, Fail, Match], 1, 2, ranges);
    prog := Prog(b.inst, 1);
    forall line
      ensures LineMatches(prog, line) <==> HasOne(ranges, line)
    {
      if LineMatches(prog, line) {
        MatchHasOne(b, ranges, prog, line);
      }
      if i: nat, j: nat :| i <= j <= |line.bytes| && InLangs(ranges, line.bytes[i..j]) {
        OneIsMatch(b, ranges, prog, line, i, j);
      }
    }
  }

  ghost predicate ClassProgram(b: RuneBuilder, ranges: seq<(nat, nat)>, prog: Prog)
    reads b
  {
    && Ranges(ranges) && b.Valid() && b.entry == 1 && b.out == 2 && b.program == [Fail, Fail, Match] && prog == Prog(b.inst, 1)
    && forall w :: Accepted(b.inst, 1, 2, w) <==> InLangs(ranges, w)
  }

  lemma OnlyMatch(b: RuneBuilder, ranges: seq<(nat, nat)>, prog: Prog)
    requires ClassProgram(b, ranges, prog)
    ensures b.first == 3 <= |prog.inst|
    ensures forall pc :: 0 <= pc < |prog.inst| ==> (prog.inst[pc].Match? <==> pc == 2)
  {
    EntryKind(b.inst, b.begin, b.entry, b.first, b.chain, b.branches);
    var program := b.program;
    assert b.inst[0] == program[0] && b.inst[2] == program[2];
    forall pc | 0 <= pc < |b.inst|
      ensures b.inst[pc].Match? <==> pc == 2
    {
      if pc >= 3 {
        assert b.inst[pc].Alt? || b.inst[pc].ByteRange?;
      }
    }
  }

  lemma MatchHasOne(b: RuneBuilder, ranges: seq<(nat, nat)>, prog: Prog, line: Line)
    requires ClassProgram(b, ranges, prog) && LineMatches(prog, line)
    ensures HasOne(ranges, line)
  {
    OnlyMatch(b, ranges, prog);
    hide RuneBuilder.Valid, InLangs, Accepted;
    var s: nat, to: Thread :| s <= |line.bytes| && Reaches(prog, line, s, to) && to.pc < |prog.inst| && prog.inst[to.pc].Match?;
    var n :| Path(prog, line, Thread(prog.start, s), to, n);
    var k, m := ExitIsAccepted(b, prog, line, s, to, n);
    assert InLangs(ranges, line.bytes[s..k]);
  }

  lemma OneIsMatch(b: RuneBuilder, ranges: seq<(nat, nat)>, prog: Prog, line: Line, i: nat, j: nat)
    requires ClassProgram(b, ranges, prog) && i <= j <= |line.bytes| && InLangs(ranges, line.bytes[i..j])
    ensures LineMatches(prog, line)
  {
    OnlyMatch(b, ranges, prog);
    hide RuneBuilder.Valid, InLangs, Accepted;
    AcceptedIsPath(prog, line, 1, 2, i, j);
    assert Reaches(prog, line, i, Thread(2, j));
  }

  // ------------------------------------------------------------------ the regexps

  /** A program that only matches lines with a rune of the class is one for a regexp that matches such runes,
      other than newlines. */
  lemma CompiledFromClass(prog: Prog, ranges: seq<(nat, nat)>, re: R.Regexp, orbit: R.Orbit)
    requires Ranges(ranges) && R.WellFormed(re) && forall line :: LineMatches(prog, line) ==> HasOne(ranges, line)
    requires forall text, i: nat, j: nat | i <= j <= |text| ::
               InLangs(ranges, text[i..j]) && R.Newline !in text[i..j] ==> R.Matches(re, text, i, j, orbit)
    ensures Compiled(prog, re, orbit)
  {
    forall buf, ls: nat, le: nat | Selected(Accepting(prog), buf, ls, le, true, true)
      ensures ContainsMatch(re, orbit, buf)
    {
      assert LineMatches(prog, LineAt(buf, ls, le, true, true));
      hide LineMatches, R.Matches, R.WellFormed, InLangs;
      LineHasMatch(ranges, re, orbit, buf, ls, le);
    }
  }

  lemma SliceOfSlice(buf: Str, ls: nat, le: nat, i: nat, j: nat)
    requires ls <= le <= |buf| && i <= j <= le - ls
    ensures buf[ls..le][i..j] == buf[ls + i..ls + j]
  {
    var a, b := buf[ls..le][i..j], buf[ls + i..ls + j];
    forall k | 0 <= k < |a|
      ensures a[k] == b[k]
    {
      assert a[k] == buf[ls..le][i + k];
    }
  }

  lemma LineHasMatch(ranges: seq<(nat, nat)>, re: R.Regexp, orbit: R.Orbit, buf: Str, ls: nat, le: nat)
    requires Ranges(ranges) && R.WellFormed(re) && IsLine(buf, ls, le) && HasOne(ranges, LineAt(buf, ls, le, true, true))
    requires forall text, i: nat, j: nat | i <= j <= |text| ::
               InLangs(ranges, text[i..j]) && R.Newline !in text[i..j] ==> R.Matches(re, text, i, j, orbit)
    ensures ContainsMatch(re, orbit, buf)
  {
    hide R.Matches, R.WellFormed, InLangs;
    var bytes := buf[ls..le];
    var i: nat, j: nat :| i <= j <= |bytes| && InLangs(ranges, bytes[i..j]);
    SliceOfSlice(buf, ls, le, i, j);
    assert R.Matches(re, buf, ls + i, ls + j, orbit);
  }

  /** The program for a dot, with or without newlines, and the regexps it is the program of. */
  method CompileAny(orbit: R.Orbit) returns (prog: Prog)
    ensures Compiled(prog, R.AnyChar, orbit) && Compiled(prog, R.AnyCharNotNL, orbit)
    ensures forall line: Line, r: nat :: r <= MaxRune && line.bytes == BitPattern(r) ==> LineMatches(prog, line)
  {
    var ranges: seq<(nat, nat)> := [(0, MaxRune)];
    prog := CompileClass(ranges);
    forall w
      ensures InLangs(ranges, w) <==> InRunes(0, MaxRune, w)
    {
      AllRunes(w);
    }
    hide LineMatches, InLangs, BitPattern;
    forall text: Str, i: nat, j: nat | i <= j <= |text| && InLangs(ranges, text[i..j]) && R.Newline !in text[i..j]
      ensures R.Matches(R.AnyChar, text, i, j, orbit) && R.Matches(R.AnyCharNotNL, text, i, j, orbit)
    {
      var r: nat :| r <= MaxRune && text[i..j] == BitPattern(r);
      NewlinePattern();
    }
    CompiledFromClass(prog, ranges, R.AnyChar, orbit);
    CompiledFromClass(prog, ranges, R.AnyCharNotNL, orbit);
    forall line: Line, r: nat | r <= MaxRune && line.bytes == BitPattern(r)
      ensures LineMatches(prog, line)
    {
      var n := |line.bytes|;
      assert line.bytes[0..n] == BitPattern(r);
      assert HasOne(ranges, line);
    }
  }

  lemma NewlinePattern()
    ensures BitPattern(10) == [R.Newline]
  {
  }

  lemma AllRunes(w: Str)
    ensures InLangs([(0, MaxRune)], w) <==> InRunes(0, MaxRune, w)
  {
    var ranges: seq<(nat, nat)> := [(0, MaxRune)];
    LangOfGood(0, MaxRune, w);
    hide Lang, InRunes;
    assert ranges[0] == (0, MaxRune);
  }

  /** The pairs of a class, as a flat list. */
  function Flat(ranges: seq<(nat, nat)>): seq<int> {
    if ranges == [] then [] else [ranges[0].0, ranges[0].1] + Flat(ranges[1..])
  }

  lemma {:induction false} FlatClass(ranges: seq<(nat, nat)>, w: Str)
    requires Ranges(ranges)
    ensures R.Pairs(Flat(ranges)) && (R.InPairs(Flat(ranges), w) <==> InLangs(ranges, w))
  {
    if ranges != [] {
      FlatClass(ranges[1..], w);
      hide Lang;
      assert Flat(ranges)[2..] == Flat(ranges[1..]);
      if j :| 0 <= j < |ranges| && Lang(ranges[j].0, ranges[j].1, w) {
        assert j > 0 ==> ranges[1..][j - 1] == ranges[j];
      }
      if j :| 0 <= j < |ranges[1..]| && Lang(ranges[1..][j].0, ranges[1..][j].1, w) {
        assert ranges[1..][j] == ranges[j + 1];
      }
    }
  }

  /** The program for any other class, surrogates or not. */
  method CompileRanges(ranges: seq<(nat, nat)>, orbit: R.Orbit) returns (prog: Prog, ghost re: R.Regexp)
    requires Ranges(ranges)
    ensures re == R.CharClass(Flat(ranges)) && R.WellFormed(re) && Compiled(prog, re, orbit)
  {
    prog := CompileClass(ranges);
    re := R.CharClass(Flat(ranges));
    FlatClass(ranges, []);
    forall text: Str, i: nat, j: nat | i <= j <= |text| && InLangs(ranges, text[i..j])
      ensures R.Matches(re, text, i, j, orbit)
    {
      FlatClass(ranges, text[i..j]);
    }
    CompiledFromClass(prog, ranges, re, orbit);
  }
}
