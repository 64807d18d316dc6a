/** Byte-level regexp programs, and the lines they accept by following paths through them. */
module ByteProgram {
  import opened Bytes
  import opened RegexpSyntax

  datatype Inst =
    | Match
    | Fail
    | Nop(out: nat)
    | Capture(out: nat)
    | Alt(out: nat, arg: nat)
    | AltMatch(out: nat, arg: nat)
    | EmptyWidth(ops: set<Assertion>, out: nat)
    | ByteRange(lo: Byte, hi: Byte, fold: bool, out: nat)

  datatype Prog = Prog(inst: seq<Inst>, start: nat)

  ghost predicate Closed(prog: Prog) {
    && prog.start < |prog.inst|
    && forall pc :: 0 <= pc < |prog.inst| ==> TargetsBelow(prog.inst[pc], |prog.inst|)
  }

  predicate TargetsBelow(i: Inst, n: nat) {
    && (i.Nop? || i.Capture? || i.Alt? || i.AltMatch? || i.EmptyWidth? || i.ByteRange? ==> i.out < n)
    && (i.Alt? || i.AltMatch? ==> i.arg < n)
  }

  function UpTo(n: nat): (s: set<nat>)
    ensures forall x: nat :: x in s <==> x < n
  {
    if n == 0 then {} else UpTo(n - 1) + {n - 1}
  }

  function Pcs(prog: Prog): set<nat> {
    UpTo(|prog.inst|)
  }

  /** Where an instruction leads without reading a byte, when the assertions in F hold. */
  function Successors(i: Inst, F: set<Assertion>): set<nat> {
    match i
    case Nop(out) => {out}
    case Capture(out) => {out}
    case Alt(out, arg) => {out, arg}
    case AltMatch(out, arg) => {out, arg}
    case EmptyWidth(ops, out) => if ops <= F then {out} else {}
    case _ => {}
  }

  /** A folding range compares the upper-case form of a lower-case letter. */
  predicate Accepts(i: Inst, c: int) {
    && i.ByteRange?
    && var ch := if i.fold && 'a' as int <= c <= 'z' as int then c - 32 else c;
       i.lo <= ch <= i.hi
  }

  // ------------------------------------------------------------ lines and paths

  /** A line without its newline; first and last say that it begins or ends the text. */
  datatype Line = Line(bytes: Str, first: bool, last: bool)

  /** The assertions that hold at position k of a line. */
  function FlagsAt(line: Line, k: nat): set<Assertion>
    requires k <= |line.bytes|
  {
    (if k == 0 then {BeginLine} else {}) +
    (if k == 0 && line.first then {BeginText} else {}) +
    (if k == |line.bytes| then {EndLine} else {}) +
    (if k == |line.bytes| && line.last then {EndText} else {}) +
    (if WordBefore(line.bytes, k) != WordAfter(line.bytes, k) then {WordBoundary} else {NoWordBoundary})
  }

  /** A thread of the program: an instruction and a position in the line. */
  datatype Thread = Thread(pc: nat, pos: nat)

  ghost predicate Step(prog: Prog, line: Line, a: Thread, b: Thread) {
    && a.pc < |prog.inst| && a.pos <= |line.bytes|
    && (|| (b.pos == a.pos && b.pc in Successors(prog.inst[a.pc], FlagsAt(line, a.pos)))
        || (a.pos < |line.bytes| && Accepts(prog.inst[a.pc], line.bytes[a.pos]) &&
            b == Thread(prog.inst[a.pc].out, a.pos + 1)))
  }

  ghost predicate Path(prog: Prog, line: Line, a: Thread, b: Thread, n: nat)
    decreases n
  {
    if n == 0 then a == b else exists m :: Step(prog, line, a, m) && Path(prog, line, m, b, n - 1)
  }

  ghost predicate Reaches(prog: Prog, line: Line, s: nat, b: Thread) {
    exists n :: Path(prog, line, Thread(prog.start, s), b, n)
  }

  /** Some path from the start, begun anywhere in the line, ends in a Match instruction. */
  ghost predicate LineMatches(prog: Prog, line: Line) {
    exists s: nat, b: Thread ::
      s <= |line.bytes| && Reaches(prog, line, s, b) && b.pc < |prog.inst| && prog.inst[b.pc].Match?
  }

  lemma {:induction false} PathExtend(prog: Prog, line: Line, a: Thread, b: Thread, c: Thread, n: nat)
    requires Path(prog, line, a, b, n) && Step(prog, line, b, c)
    ensures Path(prog, line, a, c, n + 1)
    decreases n
  {
    if n == 0 {
      assert Path(prog, line, c, c, 0);
    } else {
      var m :| Step(prog, line, a, m) && Path(prog, line, m, b, n - 1);
      PathExtend(prog, line, m, b, c, n - 1);
    }
  }

  // ------------------------------------------------------------------- closures

  /** b can be reached from a by n moves that read nothing. */
  ghost predicate Silent(prog: Prog, F: set<Assertion>, a: nat, b: nat, n: nat)
    decreases n
  {
    if n == 0 then a == b
    else a < |prog.inst| && exists m :: m in Successors(prog.inst[a], F) && Silent(prog, F, m, b, n - 1)
  }

  ghost predicate SilentFrom(prog: Prog, F: set<Assertion>, S: set<nat>, b: nat) {
    exists a, n :: a in S && Silent(prog, F, a, b, n)
  }

  /** All instructions reachable from S without reading a byte. */
  ghost function Closure(prog: Prog, S: set<nat>, F: set<Assertion>): set<nat> {
    set pc | pc in Pcs(prog) && SilentFrom(prog, F, S, pc)
  }

  ghost predicate ClosedUnder(prog: Prog, F: set<Assertion>, X: set<nat>) {
    forall x :: x in X ==> x < |prog.inst| && Successors(prog.inst[x], F) <= X
  }

  lemma {:induction false} SilentStays(prog: Prog, F: set<Assertion>, X: set<nat>, a: nat, b: nat, n: nat)
    requires ClosedUnder(prog, F, X) && a in X && Silent(prog, F, a, b, n)
    ensures b in X
    decreases n
  {
    if n > 0 {
      var m :| m in Successors(prog.inst[a], F) && Silent(prog, F, m, b, n - 1);
      SilentStays(prog, F, X, m, b, n - 1);
    }
  }

  lemma {:induction false} SilentExtend(prog: Prog, F: set<Assertion>, a: nat, b: nat, c: nat, n: nat)
    requires Silent(prog, F, a, b, n) && b < |prog.inst| && c in Successors(prog.inst[b], F)
    ensures Silent(prog, F, a, c, n + 1)
    decreases n
  {
    if n == 0 {
      assert Silent(prog, F, c, c, 0);
    } else {
      var m :| m in Successors(prog.inst[a], F) && Silent(prog, F, m, b, n - 1);
      SilentExtend(prog, F, m, b, c, n - 1);
    }
  }

  /** The closure is the least set that contains S and is closed. */
  lemma ClosureUnique(prog: Prog, S: set<nat>, F: set<Assertion>, X: set<nat>)
    requires S <= X && ClosedUnder(prog, F, X)
    requires forall x :: x in X ==> SilentFrom(prog, F, S, x)
    ensures X == Closure(prog, S, F)
  {
    forall b | b in Closure(prog, S, F)
      ensures b in X
    {
      var a, n :| a in S && Silent(prog, F, a, b, n);
      SilentStays(prog, F, X, a, b, n);
    }
  }

  lemma InClosure(prog: Prog, S: set<nat>, F: set<Assertion>, a: nat, b: nat, n: nat)
    requires a in S && Silent(prog, F, a, b, n) && b < |prog.inst|
    ensures b in Closure(prog, S, F)
  {
    assert SilentFrom(prog, F, S, b);
  }

  lemma ClosureSource(prog: Prog, S: set<nat>, F: set<Assertion>, b: nat) returns (a: nat, n: nat)
    requires b in Closure(prog, S, F)
    ensures a in S && Silent(prog, F, a, b, n)
  {
    a, n :| a in S && Silent(prog, F, a, b, n);
  }

  lemma ClosureIsClosed(prog: Prog, S: set<nat>, F: set<Assertion>)
    requires Closed(prog) && S <= Pcs(prog)
    ensures S <= Closure(prog, S, F) && ClosedUnder(prog, F, Closure(prog, S, F))
  {
    forall x | x in S
      ensures x in Closure(prog, S, F)
    {
      InClosure(prog, S, F, x, x, 0);
    }
    forall x, y | x in Closure(prog, S, F) && y in Successors(prog.inst[x], F)
      ensures y in Closure(prog, S, F)
    {
      var a, n := ClosureSource(prog, S, F, x);
      SilentExtend(prog, F, a, x, y, n);
      assert TargetsBelow(prog.inst[x], |prog.inst|);
      InClosure(prog, S, F, a, y, n + 1);
    }
  }

  lemma {:induction false} SilentMoreFlags(prog: Prog, F: set<Assertion>, G: set<Assertion>, a: nat, b: nat, n: nat)
    requires F <= G && Silent(prog, F, a, b, n)
    ensures Silent(prog, G, a, b, n)
    decreases n
  {
    if n > 0 {
      var m :| m in Successors(prog.inst[a], F) && Silent(prog, F, m, b, n - 1);
      assert m in Successors(prog.inst[a], G);
      SilentMoreFlags(prog, F, G, m, b, n - 1);
    }
  }

  lemma ClosureInside(prog: Prog, S: set<nat>, F: set<Assertion>, X: set<nat>)
    requires ClosedUnder(prog, F, X) && S <= X
    ensures Closure(prog, S, F) <= X
  {
    forall b | b in Closure(prog, S, F)
      ensures b in X
    {
      var a, n :| a in S && Silent(prog, F, a, b, n);
      SilentStays(prog, F, X, a, b, n);
    }
  }

  lemma MoreSeeds(prog: Prog, S: set<nat>, S': set<nat>, F: set<Assertion>)
    requires S <= S'
    ensures Closure(prog, S, F) <= Closure(prog, S', F)
  {
    forall b | b in Closure(prog, S, F)
      ensures b in Closure(prog, S', F)
    {
      var a, n :| a in S && Silent(prog, F, a, b, n);
    }
  }

  /** Expanding early, with only part of what holds, and again with all of it loses nothing and adds nothing. */
  lemma ClosureTwice(prog: Prog, S: set<nat>, F: set<Assertion>, G: set<Assertion>)
    requires Closed(prog) && S <= Pcs(prog) && F <= G
    ensures Closure(prog, Closure(prog, S, F), G) == Closure(prog, S, G)
  {
    var early := Closure(prog, S, F);
    ClosureIsClosed(prog, S, G);
    ClosureIsClosed(prog, S, F);
    ClosureMonotone(prog, S, F, G);
    ClosureInside(prog, early, G, Closure(prog, S, G));
    MoreSeeds(prog, S, early, G);
  }

  lemma ClosureMonotone(prog: Prog, S: set<nat>, F: set<Assertion>, G: set<Assertion>)
    requires F <= G
    ensures Closure(prog, S, F) <= Closure(prog, S, G)
  {
    forall x | x in Closure(prog, S, F)
      ensures x in Closure(prog, S, G)
    {
      var a, n :| a in S && Silent(prog, F, a, x, n);
      SilentMoreFlags(prog, F, G, a, x, n);
    }
  }

  // -------------------------------------------------- threads, position by position

  /** The instructions that the threads of X reach by reading c. */
  function Reading(prog: Prog, X: set<nat>, c: int): set<nat>
    requires X <= Pcs(prog)
  {
    set pc | pc in X && Accepts(prog.inst[pc], c) :: prog.inst[pc].out
  }

  /** The instructions of all threads alive at position k. */
  ghost function Alive(prog: Prog, line: Line, k: nat): set<nat>
    requires k <= |line.bytes|
  {
    Closure(prog, Seeds(prog, line, k), FlagsAt(line, k))
  }

  ghost function Seeds(prog: Prog, line: Line, k: nat): set<nat>
    requires k <= |line.bytes|
    decreases k, 0
  {
    if k == 0 then {prog.start}
    else {prog.start} + Reading(prog, Closure(prog, Seeds(prog, line, k - 1), FlagsAt(line, k - 1)), line.bytes[k - 1])
  }

  lemma SeedsInside(prog: Prog, line: Line, k: nat)
    requires Closed(prog) && k <= |line.bytes|
    ensures Seeds(prog, line, k) <= Pcs(prog)
  {
    if k > 0 {
      forall pc | pc in Alive(prog, line, k - 1) && Accepts(prog.inst[pc], line.bytes[k - 1])
        ensures prog.inst[pc].out < |prog.inst|
      {
        assert TargetsBelow(prog.inst[pc], |prog.inst|);
      }
    }
  }

  lemma AliveSteps(prog: Prog, line: Line, a: Thread, b: Thread)
    requires Closed(prog) && a.pos <= |line.bytes| && a.pc in Alive(prog, line, a.pos) && Step(prog, line, a, b)
    ensures b.pos <= |line.bytes| && b.pc in Alive(prog, line, b.pos)
  {
    SeedsInside(prog, line, a.pos);
    ClosureIsClosed(prog, Seeds(prog, line, a.pos), FlagsAt(line, a.pos));
    if b.pos != a.pos {
      SeedsInside(prog, line, b.pos);
      assert b.pc in Reading(prog, Alive(prog, line, a.pos), line.bytes[a.pos]);
      ClosureIsClosed(prog, Seeds(prog, line, b.pos), FlagsAt(line, b.pos));
    }
  }

  lemma {:induction false} PathsAreAlive(prog: Prog, line: Line, a: Thread, b: Thread, n: nat)
    requires Closed(prog) && a.pos <= |line.bytes| && a.pc in Alive(prog, line, a.pos) && Path(prog, line, a, b, n)
    ensures b.pos <= |line.bytes| && b.pc in Alive(prog, line, b.pos)
    decreases n
  {
    if n > 0 {
      var m :| Step(prog, line, a, m) && Path(prog, line, m, b, n - 1);
      AliveSteps(prog, line, a, m);
      PathsAreAlive(prog, line, m, b, n - 1);
    }
  }

  lemma {:induction false} SilentIsPath(prog: Prog, line: Line, s: nat, k: nat, a: nat, b: nat, n: nat)
    requires k <= |line.bytes| && Silent(prog, FlagsAt(line, k), a, b, n) && Reaches(prog, line, s, Thread(a, k))
    ensures Reaches(prog, line, s, Thread(b, k))
    decreases n
  {
    if n > 0 {
      var m :| m in Successors(prog.inst[a], FlagsAt(line, k)) && Silent(prog, FlagsAt(line, k), m, b, n - 1);
      var l :| Path(prog, line, Thread(prog.start, s), Thread(a, k), l);
      PathExtend(prog, line, Thread(prog.start, s), Thread(a, k), Thread(m, k), l);
      SilentIsPath(prog, line, s, k, m, b, n - 1);
    }
  }

  ghost predicate ReachedFromSomewhere(prog: Prog, line: Line, b: Thread) {
    exists s: nat :: s <= |line.bytes| && Reaches(prog, line, s, b)
  }

  lemma SilentFromReached(prog: Prog, line: Line, k: nat, a: nat, b: nat, n: nat)
    requires k <= |line.bytes| && Silent(prog, FlagsAt(line, k), a, b, n)
    requires ReachedFromSomewhere(prog, line, Thread(a, k))
    ensures ReachedFromSomewhere(prog, line, Thread(b, k))
  {
    var s: nat :| s <= |line.bytes| && Reaches(prog, line, s, Thread(a, k));
    SilentIsPath(prog, line, s, k, a, b, n);
  }

  lemma ReadFromReached(prog: Prog, line: Line, k: nat, p: nat)
    requires k < |line.bytes| && p < |prog.inst| && Accepts(prog.inst[p], line.bytes[k])
    requires ReachedFromSomewhere(prog, line, Thread(p, k))
    ensures ReachedFromSomewhere(prog, line, Thread(prog.inst[p].out, k + 1))
  {
    var s: nat :| s <= |line.bytes| && Reaches(prog, line, s, Thread(p, k));
    var l :| Path(prog, line, Thread(prog.start, s), Thread(p, k), l);
    PathExtend(prog, line, Thread(prog.start, s), Thread(p, k), Thread(prog.inst[p].out, k + 1), l);
    assert Reaches(prog, line, s, Thread(prog.inst[p].out, k + 1));
  }

  lemma StartIsReached(prog: Prog, line: Line, k: nat)
    requires k <= |line.bytes|
    ensures ReachedFromSomewhere(prog, line, Thread(prog.start, k))
  {
    assert Path(prog, line, Thread(prog.start, k), Thread(prog.start, k), 0);
    assert Reaches(prog, line, k, Thread(prog.start, k));
  }

  lemma ReadingSource(prog: Prog, X: set<nat>, c: int, a: nat) returns (p: nat)
    requires X <= Pcs(prog) && a in Reading(prog, X, c)
    ensures p in X && Accepts(prog.inst[p], c) && prog.inst[p].out == a
  {
    p :| p in X && Accepts(prog.inst[p], c) && prog.inst[p].out == a;
  }

  lemma {:induction false} AliveIsReached(prog: Prog, line: Line, k: nat, pc: nat)
    requires Closed(prog) && k <= |line.bytes| && pc in Alive(prog, line, k)
    ensures ReachedFromSomewhere(prog, line, Thread(pc, k))
    decreases k, 1
  {
    var a, n := ClosureSource(prog, Seeds(prog, line, k), FlagsAt(line, k), pc);
    SeedIsReached(prog, line, k, a);
    SilentFromReached(prog, line, k, a, pc, n);
  }

  lemma {:induction false} SeedIsReached(prog: Prog, line: Line, k: nat, a: nat)
    requires Closed(prog) && k <= |line.bytes| && a in Seeds(prog, line, k)
    ensures ReachedFromSomewhere(prog, line, Thread(a, k))
    decreases k, 0
  {
    if a == prog.start {
      StartIsReached(prog, line, k);
    } else {
      var p := ReadingSource(prog, Alive(prog, line, k - 1), line.bytes[k - 1], a);
      AliveIsReached(prog, line, k - 1, p);
      ReadFromReached(prog, line, k - 1, p);
    }
  }

  ghost predicate HasMatch(prog: Prog, X: set<nat>) {
    exists pc :: pc in X && pc < |prog.inst| && prog.inst[pc].Match?
  }

  /** A line matches when, at some position, a Match instruction is alive. */
  lemma LineMatchesIffAlive(prog: Prog, line: Line)
    requires Closed(prog)
    ensures LineMatches(prog, line) <==> exists k: nat :: k <= |line.bytes| && HasMatch(prog, Alive(prog, line, k))
  {
    if LineMatches(prog, line) {
      var s: nat, b: Thread :| s <= |line.bytes| && Reaches(prog, line, s, b) && b.pc < |prog.inst| && prog.inst[b.pc].Match?;
      var n :| Path(prog, line, Thread(prog.start, s), b, n);
      SeedsInside(prog, line, s);
      ClosureIsClosed(prog, Seeds(prog, line, s), FlagsAt(line, s));
      assert prog.start in Alive(prog, line, s);
      PathsAreAlive(prog, line, Thread(prog.start, s), b, n);
      assert HasMatch(prog, Alive(prog, line, b.pos));
    }
    if k: nat :| k <= |line.bytes| && HasMatch(prog, Alive(prog, line, k)) {
      var pc :| pc in Alive(prog, line, k) && pc < |prog.inst| && prog.inst[pc].Match?;
      AliveIsReached(prog, line, k, pc);
      var s: nat :| s <= |line.bytes| && Reaches(prog, line, s, Thread(pc, k));
    }
  }
}
