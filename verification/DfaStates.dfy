/** The states of the lazy automaton as values, their encoding, and what a run of them means
    (internal/codesearch/regexp/match.go). */
module DfaStates {
  import opened Bytes
  import opened Varint
  import opened RegexpSyntax
  import opened ByteProgram

  const EndOfText := -1

  /** A queue of instructions, already expanded with what was known before the next byte. */
  datatype State = State(q: set<nat>, bol: bool, bot: bool, word: bool)

  /** The assertions in effect before reading c. */
  function Before(a: State, c: int): set<Assertion> {
    (if a.bol then {BeginLine} else {}) +
    (if a.bot then {BeginText} else {}) +
    (if a.word != IsWordByte(c) then {WordBoundary} else {NoWordBoundary}) +
    (if c == Newline || c == EndOfText then {EndLine} else {}) +
    (if c == EndOfText then {EndText} else {})
  }

  /** The assertions already known to hold after reading c. */
  function After(c: int): set<Assertion> {
    if c == Newline then {BeginLine} else {}
  }

  ghost function Expanded(prog: Prog, a: State, c: int): set<nat> {
    Closure(prog, a.q, Before(a, c))
  }

  /** A match ends just before c. */
  ghost predicate Stops(prog: Prog, a: State, c: int) {
    HasMatch(prog, Expanded(prog, a, c))
  }

  ghost function Advance(prog: Prog, a: State, c: int): State {
    State(Closure(prog, {prog.start} + Reading(prog, Expanded(prog, a, c), c), After(c)), c == Newline, false, IsWordByte(c))
  }

  /** The state after c, or None when a match ends before c. */
  ghost function Next(prog: Prog, a: State, c: int): Option<State> {
    if Stops(prog, a, c) then None else Some(Advance(prog, a, c))
  }

  function InitialFlags(first: bool): set<Assertion> {
    if first then {BeginLine, BeginText} else {BeginLine}
  }

  ghost function Initial(prog: Prog, first: bool): State {
    State(Closure(prog, {prog.start}, InitialFlags(first)), true, first, false)
  }

  /** The automaton over the bytes of a line; None from the first position at which a match ends. */
  ghost function Run(prog: Prog, first: bool, w: Str): Option<State> {
    if w == [] then Some(Initial(prog, first))
    else
      match Run(prog, first, w[..|w| - 1])
      case None => None
      case Some(a) => Next(prog, a, w[|w| - 1])
  }

  lemma RunStep(prog: Prog, first: bool, w: Str, c: Byte)
    ensures Run(prog, first, w + [c]) ==
            match Run(prog, first, w) case None => None case Some(a) => Next(prog, a, c)
  {
    assert (w + [c])[..|w|] == w;
  }

  ghost predicate Fits(prog: Prog, a: State) {
    a.q <= Pcs(prog)
  }

  lemma NextFits(prog: Prog, a: State, c: int)
    requires Closed(prog) && Fits(prog, a)
    ensures Fits(prog, Advance(prog, a, c))
  {
  }

  // ------------------------------------------------- what a run knows of its line

  /** The byte that follows position k, or the mark that stands for the end. */
  function Following(line: Line, k: nat): int
    requires k <= |line.bytes|
  {
    if k < |line.bytes| then line.bytes[k] else if line.last then EndOfText else Newline
  }

  /** What is known of the assertions at position k before the next byte is seen. */
  function KnownEarly(line: Line, k: nat): set<Assertion> {
    if k == 0 then InitialFlags(line.first) else {}
  }

  ghost predicate Tracks(prog: Prog, line: Line, k: nat, a: State)
    requires k <= |line.bytes|
  {
    && a.q == Closure(prog, Seeds(prog, line, k), KnownEarly(line, k))
    && a.bol == (k == 0) && a.bot == (k == 0 && line.first) && a.word == WordBefore(line.bytes, k)
  }

  ghost predicate NoNewline(w: Str) {
    forall c :: c in w ==> c != Newline
  }

  lemma TracksExpands(prog: Prog, line: Line, k: nat, a: State)
    requires Closed(prog) && k <= |line.bytes| && NoNewline(line.bytes) && Tracks(prog, line, k, a)
    ensures Expanded(prog, a, Following(line, k)) == Alive(prog, line, k)
  {
    SeedsInside(prog, line, k);
    assert k < |line.bytes| ==> line.bytes[k] in line.bytes;
    assert Before(a, Following(line, k)) == FlagsAt(line, k);
    ClosureTwice(prog, Seeds(prog, line, k), KnownEarly(line, k), FlagsAt(line, k));
  }

  ghost predicate MatchBefore(prog: Prog, line: Line, k: nat)
    requires k <= |line.bytes|
  {
    exists j: nat :: j < k && HasMatch(prog, Alive(prog, line, j))
  }

  lemma TracksNext(prog: Prog, line: Line, k: nat, a: State)
    requires Closed(prog) && k < |line.bytes| && NoNewline(line.bytes) && Tracks(prog, line, k, a)
    ensures Stops(prog, a, line.bytes[k]) <==> HasMatch(prog, Alive(prog, line, k))
    ensures Tracks(prog, line, k + 1, Advance(prog, a, line.bytes[k]))
  {
    TracksExpands(prog, line, k, a);
    assert line.bytes[k] in line.bytes;
  }

  ghost predicate RunIsRight(prog: Prog, line: Line, k: nat, r: Option<State>)
    requires k <= |line.bytes|
  {
    if MatchBefore(prog, line, k) then r == None else r.Some? && Tracks(prog, line, k, r.value)
  }

  lemma MatchBeforeNext(prog: Prog, line: Line, k: nat)
    requires k < |line.bytes|
    ensures MatchBefore(prog, line, k + 1) <==> MatchBefore(prog, line, k) || HasMatch(prog, Alive(prog, line, k))
  {
  }

  lemma RunStaysRight(prog: Prog, line: Line, k: nat, r: Option<State>, r': Option<State>)
    requires Closed(prog) && k < |line.bytes| && NoNewline(line.bytes) && RunIsRight(prog, line, k, r)
    requires r' == match r case None => None case Some(a) => Next(prog, a, line.bytes[k])
    ensures RunIsRight(prog, line, k + 1, r')
  {
    MatchBeforeNext(prog, line, k);
    if r.Some? {
      TracksNext(prog, line, k, r.value);
    }
  }

  lemma {:induction false} RunTracks(prog: Prog, line: Line, k: nat)
    requires Closed(prog) && k <= |line.bytes| && NoNewline(line.bytes)
    ensures RunIsRight(prog, line, k, Run(prog, line.first, line.bytes[..k]))
    decreases k
  {
    if k == 0 {
      assert !MatchBefore(prog, line, 0);
    } else {
      RunTracks(prog, line, k - 1);
      var w := line.bytes[..k - 1];
      assert line.bytes[..k] == w + [line.bytes[k - 1]];
      RunStep(prog, line.first, w, line.bytes[k - 1]);
      RunStaysRight(prog, line, k - 1, Run(prog, line.first, w), Run(prog, line.first, line.bytes[..k]));
    }
  }

  /** The run over a whole line decides whether the line matches. */
  lemma RunDecides(prog: Prog, line: Line)
    requires Closed(prog) && NoNewline(line.bytes)
    ensures var r := Run(prog, line.first, line.bytes);
            LineMatches(prog, line) <==> r == None || Stops(prog, r.value, if line.last then EndOfText else Newline)
  {
    var n := |line.bytes|;
    assert line.bytes[..n] == line.bytes;
    RunTracks(prog, line, n);
    LineMatchesIffAlive(prog, line);
    var r := Run(prog, line.first, line.bytes);
    if r.Some? {
      TracksExpands(prog, line, n, r.value);
    }
  }

  /** Whatever stops at a newline also stops at the end of the text. */
  lemma NewlineStopsAtEnd(prog: Prog, a: State)
    requires Stops(prog, a, Newline)
    ensures Stops(prog, a, EndOfText)
  {
    ClosureMonotone(prog, a.q, Before(a, Newline), Before(a, EndOfText));
  }

  // -------------------------------------------------------------------- encoding

  const FlagBOL := 1
  const FlagBOT := 4
  const FlagWord := 16
  const Word32 := 0x1_0000_0000

  function Bits(a: State): nat {
    (if a.bol then FlagBOL else 0) + (if a.bot then FlagBOT else 0) + (if a.word then FlagWord else 0)
  }

  predicate HasBit(flag: nat, bit: nat)
    requires bit > 0
  {
    flag / bit % 2 == 1
  }

  predicate Ascending(s: seq<nat>) {
    forall i, j :: 0 <= i < j < |s| ==> s[i] < s[j]
  }

  /** Sorted instruction numbers as differences modulo 2^32, the first one from 2^32 - 1. */
  function EncodeIds(ids: seq<nat>, last: nat): Str {
    if ids == [] then [] else PutUvarint((ids[0] - last) % Word32) + EncodeIds(ids[1..], ids[0])
  }

  ghost predicate Lists(ids: seq<nat>, q: set<nat>) {
    Ascending(ids) && forall x: nat :: x in ids <==> x in q
  }

  ghost predicate IsKey(enc: Str, a: State) {
    exists ids :: Lists(ids, a.q) && enc == PutUvarint(0) + PutUvarint(Bits(a)) + EncodeIds(ids, Word32 - 1)
  }

  lemma {:induction false} ListsUnique(s: seq<nat>, t: seq<nat>, q: set<nat>)
    requires Lists(s, q) && Lists(t, q)
    ensures s == t
  {
    assert (s == [] || s[0] in q) && (t == [] || t[0] in q);
    if s != [] && t != [] {
      assert s[0] in t && t[0] in s;
      assert s[0] == t[0];
      forall x: nat
        ensures x in s[1..] <==> x in q - {s[0]}
        ensures x in t[1..] <==> x in q - {s[0]}
      {
        assert x in s[1..] <==> x in s && x != s[0];
        assert x in t[1..] <==> x in t && x != t[0];
      }
      ListsUnique(s[1..], t[1..], q - {s[0]});
      assert s == [s[0]] + s[1..] && t == [t[0]] + t[1..];
    }
  }

  lemma PutUvarintPrefixFree(x: nat, y: nat, r: Str, s: Str)
    requires x < 0x1_0000_0000_0000_0000 && y < 0x1_0000_0000_0000_0000
    requires PutUvarint(x) + r == PutUvarint(y) + s
    ensures x == y && r == s
  {
    RoundTrip(x, r);
    RoundTrip(y, s);
    assert r == (PutUvarint(x) + r)[|PutUvarint(x)|..];
    assert s == (PutUvarint(y) + s)[|PutUvarint(y)|..];
  }

  lemma {:induction false} EncodeIdsInjective(s: seq<nat>, t: seq<nat>, last: nat)
    requires forall x :: x in s || x in t ==> x < Word32
    requires last < Word32 && EncodeIds(s, last) == EncodeIds(t, last)
    ensures s == t
  {
    if s != [] && t != [] {
      assert s[0] in s && t[0] in t;
      PutUvarintPrefixFree((s[0] - last) % Word32, (t[0] - last) % Word32, EncodeIds(s[1..], s[0]), EncodeIds(t[1..], t[0]));
      assert s[0] == t[0];
      assert forall x :: x in s[1..] ==> x in s;
      assert forall x :: x in t[1..] ==> x in t;
      EncodeIdsInjective(s[1..], t[1..], s[0]);
      assert s == [s[0]] + s[1..] && t == [t[0]] + t[1..];
    }
  }

  lemma Associates(a: Str, b: Str, c: Str)
    ensures a + b + c == a + (b + c)
  {
  }

  /** Equal encodings come from equal states. */
  lemma KeysDiffer(prog: Prog, enc: Str, a: State, b: State)
    requires |prog.inst| <= Word32 && Fits(prog, a) && Fits(prog, b) && IsKey(enc, a) && IsKey(enc, b)
    ensures a == b
  {
    var s :| Lists(s, a.q) && enc == PutUvarint(0) + PutUvarint(Bits(a)) + EncodeIds(s, Word32 - 1);
    var t :| Lists(t, b.q) && enc == PutUvarint(0) + PutUvarint(Bits(b)) + EncodeIds(t, Word32 - 1);
    hide PutUvarint, EncodeIds, Lists;
    var r1, r2 := PutUvarint(Bits(a)) + EncodeIds(s, Word32 - 1), PutUvarint(Bits(b)) + EncodeIds(t, Word32 - 1);
    Associates(PutUvarint(0), PutUvarint(Bits(a)), EncodeIds(s, Word32 - 1));
    Associates(PutUvarint(0), PutUvarint(Bits(b)), EncodeIds(t, Word32 - 1));
    PutUvarintPrefixFree(0, 0, r1, r2);
    PutUvarintPrefixFree(Bits(a), Bits(b), EncodeIds(s, Word32 - 1), EncodeIds(t, Word32 - 1));
    EncodeIdsInjective(s, t, Word32 - 1);
    assert a.q == b.q;
  }

  /** A state has one encoding only. */
  lemma KeyUnique(a: State, enc: Str, enc': Str)
    requires IsKey(enc, a) && IsKey(enc', a)
    ensures enc == enc'
  {
    var s :| Lists(s, a.q) && enc == PutUvarint(0) + PutUvarint(Bits(a)) + EncodeIds(s, Word32 - 1);
    var t :| Lists(t, a.q) && enc' == PutUvarint(0) + PutUvarint(Bits(a)) + EncodeIds(t, Word32 - 1);
    ListsUnique(s, t, a.q);
  }

  ghost function AllStates(prog: Prog): set<State> {
    set q, bol, bot, word | q <= Pcs(prog) :: State(q, bol, bot, word)
  }

  /** Reading one difference back. */
  lemma DecodeStep(ids: seq<nat>, k: nat, last: nat)
    requires k < |ids| && ids[k] < Word32 && last < Word32
    ensures var b := EncodeIds(ids[k..], last);
            var r := Uvarint(b);
            b != [] && 0 < r.1 <= |b| && b[r.1..] == EncodeIds(ids[k + 1..], ids[k]) && (last + r.0 % Word32) % Word32 == ids[k]
  {
    assert ids[k..][1..] == ids[k + 1..];
    var delta := (ids[k] - last) % Word32;
    var rest := EncodeIds(ids[k + 1..], ids[k]);
    RoundTrip(delta, rest);
    assert (PutUvarint(delta) + rest)[|PutUvarint(delta)|..] == rest;
  }
}
