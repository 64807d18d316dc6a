/** Finding the matching lines of a file (grepData and countNL of internal/index/index.go). */
module Grep {
  import opened Bytes
  import opened RegexpSyntax
  import opened ByteProgram
  import opened Lines
  import opened LazyDfa

  /** A reported line, trimmed at its end, and its number counted from 1. */
  datatype FileLine = FileLine(line: Str, lineNumber: nat)

  const CarriageReturn: Byte := 13

  /** bytes.TrimRight(w, "\r\n"). */
  function TrimRight(w: Str): Str {
    if w != [] && (w[|w| - 1] == Newline || w[|w| - 1] == CarriageReturn) then TrimRight(w[..|w| - 1]) else w
  }

  /** What is reported of the text w: w without the newlines and carriage returns at its end. */
  ghost predicate IsTrimmed(w: Str, line: Str) {
    && |line| <= |w| && line == w[..|line|]
    && (forall k :: |line| <= k < |w| ==> w[k] in {10, 13})
    && (line != [] ==> line[|line| - 1] !in {10, 13})
  }

  lemma {:induction false} TrimRightMeans(w: Str)
    ensures IsTrimmed(w, TrimRight(w))
  {
    if w != [] && w[|w| - 1] in {10, 13} {
      TrimRightMeans(w[..|w| - 1]);
    }
  }

  function NewlinesIn(b: Str): nat {
    if b == [] then 0 else NewlinesIn(b[..|b| - 1]) + if b[|b| - 1] == Newline then 1 else 0
  }

  lemma {:induction false} NewlinesAppend(a: Str, b: Str)
    ensures NewlinesIn(a + b) == NewlinesIn(a) + NewlinesIn(b)
  {
    if b == [] {
      assert a + b == a;
    } else {
      assert (a + b)[..|a + b| - 1] == a + b[..|b| - 1];
      NewlinesAppend(a, b[..|b| - 1]);
    }
  }

  lemma {:induction false} NoNewlines(b: Str)
    requires forall k :: 0 <= k < |b| ==> b[k] != Newline
    ensures NewlinesIn(b) == 0
  {
    if b != [] {
      NoNewlines(b[..|b| - 1]);
    }
  }

  /** Where the newlines between two positions are. */
  ghost function NewlinePlaces(buf: Str, lo: nat, hi: nat): set<int>
    requires hi <= |buf|
  {
    set k | lo <= k < hi && buf[k] == 10
  }

  lemma {:induction false} NewlinesArePlaces(buf: Str, lo: nat, hi: nat)
    requires lo <= hi <= |buf|
    ensures NewlinesIn(buf[lo..hi]) == |NewlinePlaces(buf, lo, hi)|
    decreases hi
  {
    if lo < hi {
      NewlinesArePlaces(buf, lo, hi - 1);
      assert buf[lo..hi][..hi - 1 - lo] == buf[lo..hi - 1];
      assert NewlinePlaces(buf, lo, hi) ==
             NewlinePlaces(buf, lo, hi - 1) + if buf[hi - 1] == 10 then {hi - 1} else {};
    }
  }

  /** bytes.IndexByte for the newline. */
  method IndexNewline(b: Str) returns (i: int)
    ensures -1 <= i < |b|
    ensures i >= 0 ==> b[i] == Newline
    ensures forall k :: 0 <= k < (if i < 0 then |b| else i) ==> b[k] != Newline
  {
    for k := 0 to |b|
      invariant forall j :: 0 <= j < k ==> b[j] != Newline
    {
      if b[k] == Newline {
        return k;
      }
    }
    return -1;
  }

  /** bytes.LastIndex for the newline. */
  method LastNewline(b: Str) returns (i: int)
    ensures -1 <= i < |b|
    ensures i >= 0 ==> b[i] == Newline
    ensures forall k :: i < k < |b| ==> b[k] != Newline
  {
    i := |b| - 1;
    while i >= 0 && b[i] != Newline
      invariant -1 <= i < |b|
      invariant forall k :: i < k < |b| ==> b[k] != Newline
    {
      i := i - 1;
    }
  }

  method CountNL(b0: Str) returns (n: nat)
    ensures n == NewlinesIn(b0) == |NewlinePlaces(b0, 0, |b0|)|
  {
    assert b0[0..|b0|] == b0;
    NewlinesArePlaces(b0, 0, |b0|);
    var b := b0;
    n := 0;
    while true
      invariant n + NewlinesIn(b) == NewlinesIn(b0)
      decreases |b|
    {
      var i := IndexNewline(b);
      if i < 0 {
        NoNewlines(b);
        break;
      }
      n := n + 1;
      assert b == b[..i] + [Newline] + b[i + 1..];
      NewlinesAppend(b[..i] + [Newline], b[i + 1..]);
      NewlinesAppend(b[..i], [Newline]);
      NoNewlines(b[..i]);
      assert [Newline][..0] == [];
      b := b[i + 1..];
    }
  }

  // ---------------------------------------------------------------- the reference

  /** Where the line that starts at pos ends. */
  function LineEnd(buf: Str, pos: nat): (le: nat)
    requires pos <= |buf|
    ensures pos <= le <= |buf| && (le < |buf| ==> buf[le] == Newline)
    decreases |buf| - pos
  {
    if pos == |buf| || buf[pos] == Newline then pos else LineEnd(buf, pos + 1)
  }

  lemma {:induction false} LineEndIsFirst(buf: Str, pos: nat)
    requires pos <= |buf|
    ensures forall k :: pos <= k < LineEnd(buf, pos) ==> buf[k] != Newline
    decreases |buf| - pos
  {
    if pos < |buf| && buf[pos] != Newline {
      LineEndIsFirst(buf, pos + 1);
    }
  }

  /** Which lines of a file, named by where they start, are accepted. */
  ghost function Selector(accept: Line -> bool, buf: Str): nat -> bool {
    (ls: nat) => ls <= |buf| && accept(LineAt(buf, ls, LineEnd(buf, ls), true, true))
  }

  function NextLine(buf: Str, ls: nat): (next: nat)
    requires ls <= |buf|
    ensures ls <= next <= |buf| && (ls < |buf| ==> ls < next)
  {
    var le := LineEnd(buf, ls);
    if le < |buf| then le + 1 else |buf|
  }

  function Reported(buf: Str, ls: nat, lineno: nat): FileLine
    requires ls <= |buf|
  {
    FileLine(TrimRight(buf[ls..NextLine(buf, ls)]), lineno)
  }

  /** Looks at one line after the other. The empty line behind a final newline is looked at only
      when the line before it was not reported. */
  ghost function GrepLines(sel: nat -> bool, buf: Str, pos: nat, lineno: nat, max: nat): seq<FileLine>
    requires pos <= |buf|
    decreases |buf| - pos
  {
    if pos == |buf| || max == 0 then []
    else
      var next := NextLine(buf, pos);
      if sel(pos) then [Reported(buf, pos, lineno)] + GrepLines(sel, buf, next, lineno + 1, max - 1)
      else if next < |buf| then GrepLines(sel, buf, next, lineno + 1, max)
      else if LineEnd(buf, pos) < |buf| && sel(|buf|) then [Reported(buf, |buf|, lineno + 1)]
      else []
  }

  predicate StartsLine(buf: Str, pos: nat) {
    pos <= |buf| && (pos == 0 || buf[pos - 1] == Newline)
  }

  lemma LineEndIsLine(buf: Str, ls: nat, le: nat)
    requires StartsLine(buf, ls)
    ensures IsLine(buf, ls, LineEnd(buf, ls))
    ensures IsLine(buf, ls, le) ==> le == LineEnd(buf, ls)
  {
    LineEndIsFirst(buf, ls);
    if IsLine(buf, ls, le) {
      LineUnique(buf, ls, le, ls, LineEnd(buf, ls));
    }
  }

  // ------------------------------------------------------------------- grepData

  /** A line of a suffix that starts at a line start is a line of the whole. */
  lemma SuffixLine(accept: Line -> bool, buf: Str, pos: nat, ls: nat, le: nat)
    requires StartsLine(buf, pos) && ls <= le <= |buf| - pos
    ensures Selected(accept, buf[pos..], ls, le, pos == 0, true) <==> Selected(accept, buf, pos + ls, pos + le, true, true)
  {
    var b := buf[pos..];
    assert forall k :: 0 <= k < |b| ==> b[k] == buf[pos + k];
    assert IsLine(b, ls, le) <==> IsLine(buf, pos + ls, pos + le) by {
      assert forall k :: pos + ls <= k < pos + le ==> buf[k] == b[k - pos];
    }
    if IsLine(b, ls, le) {
      assert b[ls..le] == buf[pos + ls..pos + le];
    }
  }

  lemma SelectedIsSel(accept: Line -> bool, buf: Str, ls: nat, le: nat)
    requires StartsLine(buf, ls)
    ensures Selected(accept, buf, ls, le, true, true) <==> Selector(accept, buf)(ls) && le == LineEnd(buf, ls)
  {
    LineEndIsLine(buf, ls, le);
  }

  /** One line of the reference that does not match. */
  lemma SkipLine(sel: nat -> bool, buf: Str, pos: nat, lineno: nat, max: nat)
    requires StartsLine(buf, pos) && pos < |buf| && max > 0 && !sel(pos)
    ensures NextLine(buf, pos) < |buf| ==>
              GrepLines(sel, buf, pos, lineno, max) == GrepLines(sel, buf, NextLine(buf, pos), lineno + 1, max)
    ensures NextLine(buf, pos) == |buf| && LineEnd(buf, pos) < |buf| && sel(|buf|) ==>
              GrepLines(sel, buf, pos, lineno, max) == [Reported(buf, |buf|, lineno + 1)]
  {
  }

  /** No line starts strictly between a line start and the next line. */
  lemma NextStart(buf: Str, pos: nat, ls: nat)
    requires pos < ls && StartsLine(buf, ls)
    ensures NextLine(buf, pos) <= ls && StartsLine(buf, NextLine(buf, pos)) && LineEnd(buf, pos) < |buf|
  {
    LineEndIsFirst(buf, pos);
    assert buf[ls - 1] == Newline;
  }

  lemma TakeLine(sel: nat -> bool, buf: Str, pos: nat, lineno: nat, max: nat)
    requires pos < |buf| && max > 0 && sel(pos)
    ensures GrepLines(sel, buf, pos, lineno, max) ==
            [Reported(buf, pos, lineno)] + GrepLines(sel, buf, NextLine(buf, pos), lineno + 1, max - 1)
  {
  }

  lemma NewlinesAfterLine(buf: Str, pos: nat, ls: nat)
    requires pos < ls && StartsLine(buf, ls)
    ensures pos < |buf| && NextLine(buf, pos) <= ls
    ensures NewlinesIn(buf[pos..ls]) == 1 + NewlinesIn(buf[NextLine(buf, pos)..ls])
  {
    NextStart(buf, pos, ls);
    var next := NextLine(buf, pos);
    OneLine(buf, pos);
    assert buf[pos..ls] == buf[pos..next] + buf[next..ls];
    NewlinesAppend(buf[pos..next], buf[next..ls]);
  }

  /** The reference skips the lines before the first selected one; lines is how many there are. */
  lemma {:induction false} SkipToMatch(sel: nat -> bool, buf: Str, pos: nat, lineno: nat, max: nat, ls: nat, lines: nat)
    requires StartsLine(buf, pos) && pos < |buf| && max > 0 && FirstSelected(sel, buf, pos, ls)
    requires lines == NewlinesIn(buf[pos..ls])
    ensures GrepLines(sel, buf, pos, lineno, max) ==
            [Reported(buf, ls, lineno + lines)] + GrepLines(sel, buf, NextLine(buf, ls), lineno + lines + 1, max - 1)
    decreases |buf| - pos
  {
    if pos == ls {
      assert buf[pos..ls] == [];
      TakeLine(sel, buf, pos, lineno, max);
    } else {
      var next := NextLine(buf, pos);
      NextStart(buf, pos, ls);
      NewlinesAfterLine(buf, pos, ls);
      SkipLine(sel, buf, pos, lineno, max);
      if next < |buf| {
        SkipToMatch(sel, buf, next, lineno + 1, max, ls, lines - 1);
      } else {
        assert buf[next..ls] == [];
      }
    }
  }

  lemma OneLine(buf: Str, pos: nat)
    requires pos < |buf|
    ensures NewlinesIn(buf[pos..NextLine(buf, pos)]) == if LineEnd(buf, pos) < |buf| then 1 else 0
  {
    var le := LineEnd(buf, pos);
    LineEndIsFirst(buf, pos);
    NoNewlines(buf[pos..le]);
    if le < |buf| {
      assert buf[pos..le + 1] == buf[pos..le] + [Newline];
      NewlinesAppend(buf[pos..le], [Newline]);
      assert [Newline][..0] == [];
    }
  }

  lemma {:induction false} NothingSelected(sel: nat -> bool, buf: Str, pos: nat, lineno: nat, max: nat)
    requires StartsLine(buf, pos) && pos < |buf|
    requires forall s: nat :: pos <= s && StartsLine(buf, s) ==> !sel(s)
    ensures GrepLines(sel, buf, pos, lineno, max) == []
    decreases |buf| - pos
  {
    var next := NextLine(buf, pos);
    if max > 0 && next < |buf| {
      NothingSelected(sel, buf, next, lineno + 1, max);
    }
  }

  /** ls is the first line from pos on that matches. */
  ghost predicate FirstSelected(sel: nat -> bool, buf: Str, pos: nat, ls: nat) {
    && pos <= ls && StartsLine(buf, ls) && sel(ls)
    && forall s: nat :: pos <= s < ls && StartsLine(buf, s) ==> !sel(s)
  }

  /** What the matcher's answer on the rest of the file says about the lines of the file. */
  lemma FirstMatchInSuffix(accept: Line -> bool, buf: Str, pos: nat, end: int, sel: nat -> bool)
    requires StartsLine(buf, pos) && FirstMatch(accept, buf[pos..], pos == 0, true, end) && sel == Selector(accept, buf)
    ensures end < 0 ==> forall s: nat :: pos <= s && StartsLine(buf, s) ==> !sel(s)
    ensures end >= 0 ==> exists ls: nat :: FirstSelected(sel, buf, pos, ls) && LineEnd(buf, ls) == pos + end
  {
    forall s: nat | pos <= s && StartsLine(buf, s) && sel(s)
      ensures end >= 0 && LineEnd(buf, s) - pos >= end
    {
      SelectedInSuffix(accept, buf, pos, s);
    }
    if end >= 0 {
      var l: nat :| Selected(accept, buf[pos..], l, end, pos == 0, true);
      SuffixLine(accept, buf, pos, l, end);
      SelectedIsSel(accept, buf, pos + l, pos + end);
      forall s: nat | pos <= s < pos + l && StartsLine(buf, s)
        ensures !sel(s)
      {
        EarlierLineEndsEarlier(buf, s, pos + l);
      }
      assert FirstSelected(sel, buf, pos, pos + l);
    }
  }

  lemma SelectedInSuffix(accept: Line -> bool, buf: Str, pos: nat, s: nat)
    requires StartsLine(buf, pos) && StartsLine(buf, s) && pos <= s && Selector(accept, buf)(s)
    ensures Selected(accept, buf[pos..], s - pos, LineEnd(buf, s) - pos, pos == 0, true)
  {
    SelectedIsSel(accept, buf, s, LineEnd(buf, s));
    SuffixLine(accept, buf, pos, s - pos, LineEnd(buf, s) - pos);
  }

  lemma EarlierLineEndsEarlier(buf: Str, s: nat, ls: nat)
    requires s < ls && StartsLine(buf, ls)
    ensures LineEnd(buf, s) < ls
  {
    LineEndIsFirst(buf, s);
    assert buf[ls - 1] == Newline;
  }

  /** The last newline before the match position is where the matching line starts. */
  lemma StartOfLine(buf: Str, pos: nat, m: nat, lineStart: nat, ls: nat)
    requires StartsLine(buf, pos) && pos <= lineStart <= m <= |buf|
    requires lineStart > pos ==> buf[lineStart - 1] == Newline
    requires forall k :: lineStart <= k < m ==> buf[k] != Newline
    requires pos <= ls && StartsLine(buf, ls) && LineEnd(buf, ls) == m
    ensures ls == lineStart
  {
    LineEndIsLine(buf, ls, m);
    assert IsLine(buf, lineStart, m);
    LineUnique(buf, ls, m, lineStart, m);
  }

  /** One round of grepData reports the first matching line of the rest of the file. */
  method GrepStep(buf: Str, chunkStart: nat, m: nat, lineno0: nat, ghost sel: nat -> bool, ghost max: nat)
    returns (found: FileLine, lineno: nat, lineEnd: nat)
    requires StartsLine(buf, chunkStart) && chunkStart < |buf| && chunkStart <= m <= |buf| && max > 0
    requires exists ls: nat :: FirstSelected(sel, buf, chunkStart, ls) && LineEnd(buf, ls) == m
    ensures chunkStart < lineEnd <= |buf| && (StartsLine(buf, lineEnd) || lineEnd == |buf|)
    ensures GrepLines(sel, buf, chunkStart, lineno0, max) == [found] + GrepLines(sel, buf, lineEnd, lineno, max - 1)
  {
    hide GrepLines, NewlinesIn, TrimRight;
    var end := |buf|;
    var nl := LastNewline(buf[chunkStart..m]);
    var lineStart := nl + 1 + chunkStart;
    lineEnd := if m + 1 < end then m + 1 else end;
    assert forall k :: lineStart <= k < m ==> buf[k] == buf[chunkStart..m][k - chunkStart];
    ghost var ls: nat :| FirstSelected(sel, buf, chunkStart, ls) && LineEnd(buf, ls) == m;
    StartOfLine(buf, chunkStart, m, lineStart, ls);
    var n := CountNL(buf[chunkStart..lineStart]);
    SkipToMatch(sel, buf, chunkStart, lineno0, max, ls, n);
    lineno := lineno0 + n;
    found := FileLine(TrimRight(buf[lineStart..lineEnd]), lineno);
    lineno := lineno + 1;
  }

  /** One round of grepData: the next matching line of the rest of the file, if there is one. */
  method GrepRound(buf: Str, re: Matcher, chunkStart: nat, beginText: bool, lineno0: nat, ghost sel: nat -> bool, ghost max: nat)
    returns (done: bool, found: FileLine, lineno: nat, lineEnd: nat)
    requires re.Valid() && StartsLine(buf, chunkStart) && chunkStart < |buf| && max > 0
    requires beginText == (chunkStart == 0) && sel == Selector(Accepting(re.prog), buf)
    modifies re`dstate, re.z1, re.z1.q, re.z1.q.sparse, re.z2, re.z2.q, re.z2.q.sparse, re.dstate.Values`next
    ensures re.Valid() && re.Grown()
    ensures done ==> GrepLines(sel, buf, chunkStart, lineno0, max) == []
    ensures !done ==> chunkStart < lineEnd <= |buf| && (StartsLine(buf, lineEnd) || lineEnd == |buf|) &&
                      GrepLines(sel, buf, chunkStart, lineno0, max) == [found] + GrepLines(sel, buf, lineEnd, lineno, max - 1)
  {
    hide Matcher.Valid;
    var answer := re.Match(buf[chunkStart..], beginText, true);
    FirstMatchInSuffix(Accepting(re.prog), buf, chunkStart, answer, sel);
    var m := answer + chunkStart;
    if m < chunkStart {
      NothingSelected(sel, buf, chunkStart, lineno0, max);
      done, found, lineno, lineEnd := true, FileLine([], 0), lineno0, chunkStart;
    } else {
      done := false;
      found, lineno, lineEnd := GrepStep(buf, chunkStart, m, lineno0, sel, max);
    }
  }

  /** grepData jumps from match to match and finds what the line-by-line reference finds. */
  method GrepData(buf: Str, re: Matcher, maxMatches: int) returns (matches: seq<FileLine>)
    requires re.Valid()
    modifies re`dstate, re.z1, re.z1.q, re.z1.q.sparse, re.z2, re.z2.q, re.z2.q.sparse, re.dstate.Values`next
    ensures re.Valid() && re.Grown()
    ensures Greps(Accepting(re.prog), buf, maxMatches, matches)
  {
    hide Matcher.Valid, GrepLines, StartsLine, Greps;
    matches := [];
    assert |buf| > 0 ==> StartsLine(buf, 0) by {
      FirstLine(buf);
    }
    var chunkStart, end, beginText, lineno: nat := 0, |buf|, true, 1;
    ghost var sel := Selector(Accepting(re.prog), buf);
    ghost var max := if maxMatches < 0 then 0 else maxMatches;
    ghost var all := GrepLines(sel, buf, 0, 1, max);
    while chunkStart < end && |matches| < maxMatches
      invariant re.Valid() && re.Grown()
      invariant chunkStart <= end && (StartsLine(buf, chunkStart) || chunkStart == end) && |matches| <= max
      invariant beginText == (chunkStart == 0)
      invariant matches + GrepLines(sel, buf, chunkStart, lineno, max - |matches|) == all
      decreases end - chunkStart
    {
      var done, found, lineno', lineEnd := GrepRound(buf, re, chunkStart, beginText, lineno, sel, max - |matches|);
      beginText := false;
      if done {
        break;
      }
      OneMoreMatch(matches, found, GrepLines(sel, buf, lineEnd, lineno', max - |matches| - 1));
      matches := matches + [found];
      lineno, chunkStart := lineno', lineEnd;
    }
    NoMoreMatches(sel, buf, chunkStart, lineno, max - |matches|);
    GrepIs(Accepting(re.prog), buf, maxMatches, matches);
  }

  /** The matches are those of the line-by-line reference: reports of accepted lines, in ascending order, the
      first ones, and unless there are maxMatches of them a report of each accepted line that is not empty and last. */
  ghost predicate Greps(accept: Line -> bool, buf: Str, maxMatches: int, matches: seq<FileLine>) {
    var sel := Selector(accept, buf);
    && matches == GrepLines(sel, buf, 0, 1, if maxMatches < 0 then 0 else maxMatches)
    && AreReports(sel, buf, 0, 1, matches) && FirstReported(sel, buf, matches)
    && (|matches| < maxMatches ==> AllReported(sel, buf, matches))
  }

  lemma GrepIs(accept: Line -> bool, buf: Str, maxMatches: int, matches: seq<FileLine>)
    requires matches == GrepLines(Selector(accept, buf), buf, 0, 1, if maxMatches < 0 then 0 else maxMatches)
    ensures Greps(accept, buf, maxMatches, matches)
  {
    hide GrepLines, AreReports, AllReported, FirstReported, Selector;
    AllReports(Selector(accept, buf), buf, if maxMatches < 0 then 0 else maxMatches);
  }

  lemma FirstLine(buf: Str)
    ensures |buf| > 0 ==> StartsLine(buf, 0)
  {
  }

  lemma NoMoreMatches(sel: nat -> bool, buf: Str, pos: nat, lineno: nat, max: nat)
    requires pos <= |buf|
    ensures pos == |buf| || max == 0 ==> GrepLines(sel, buf, pos, lineno, max) == []
  {
  }

  lemma OneMoreMatch(before: seq<FileLine>, found: FileLine, rest: seq<FileLine>)
    ensures before + ([found] + rest) == (before + [found]) + rest
  {
  }

  // ------------------------------------------------------- what the reference means

  /** A report of the selected line s, numbered from the line at pos, which has number lineno. */
  ghost predicate IsReportOf(sel: nat -> bool, buf: Str, pos: nat, lineno: nat, m: FileLine, s: nat) {
    && pos <= s && StartsLine(buf, s) && sel(s)
    && m.lineNumber == lineno + |NewlinePlaces(buf, pos, s)|
    && exists le: nat :: IsLine(buf, s, le) && IsTrimmed(buf[s..le], m.line)
  }

  /** Cutting off the end of a line with its newline gives what cutting off the end of the line gives. */
  lemma TrimmedWithNewline(v: Str)
    ensures IsTrimmed(v, TrimRight(v)) && TrimRight(v + [10]) == TrimRight(v)
  {
    TrimRightMeans(v);
    assert (v + [10])[..|v + [10]| - 1] == v;
  }

  lemma ReportedIsTrimmed(buf: Str, s: nat)
    requires StartsLine(buf, s)
    ensures IsTrimmed(buf[s..LineEnd(buf, s)], TrimRight(buf[s..NextLine(buf, s)]))
  {
    var le := LineEnd(buf, s);
    hide TrimRight, IsTrimmed;
    TrimmedWithNewline(buf[s..le]);
    if le < |buf| {
      assert buf[s..le + 1] == buf[s..le] + [10];
    }
  }

  lemma ReportedIsReport(sel: nat -> bool, buf: Str, pos: nat, lineno: nat, s: nat)
    requires pos <= s && StartsLine(buf, s) && sel(s)
    ensures IsReportOf(sel, buf, pos, lineno, Reported(buf, s, lineno + NewlinesIn(buf[pos..s])), s)
  {
    hide TrimRight, IsTrimmed, NewlinesIn, LineEnd, NextLine, NewlinePlaces;
    LineEndIsLine(buf, s, LineEnd(buf, s));
    NewlinesArePlaces(buf, pos, s);
    ReportedIsTrimmed(buf, s);
  }

  ghost predicate IsReport(sel: nat -> bool, buf: Str, pos: nat, lineno: nat, m: FileLine) {
    exists s: nat :: IsReportOf(sel, buf, pos, lineno, m, s)
  }

  /** Reports of selected lines, in ascending order of their numbers. */
  ghost predicate AreReports(sel: nat -> bool, buf: Str, pos: nat, lineno: nat, r: seq<FileLine>) {
    && (forall k :: 0 <= k < |r| ==> lineno <= r[k].lineNumber && IsReport(sel, buf, pos, lineno, r[k]))
    && (forall i, j :: 0 <= i < j < |r| ==> r[i].lineNumber < r[j].lineNumber)
  }

  lemma LaterReport(sel: nat -> bool, buf: Str, pos: nat, lineno: nat, m: FileLine)
    requires pos < |buf| && LineEnd(buf, pos) < |buf| && IsReport(sel, buf, NextLine(buf, pos), lineno + 1, m)
    ensures IsReport(sel, buf, pos, lineno, m)
  {
    var s: nat :| IsReportOf(sel, buf, NextLine(buf, pos), lineno + 1, m, s);
    NewlinesAfterLine(buf, pos, s);
    NewlinesArePlaces(buf, pos, s);
    NewlinesArePlaces(buf, NextLine(buf, pos), s);
    assert IsReportOf(sel, buf, pos, lineno, m, s);
  }

  lemma LaterReports(sel: nat -> bool, buf: Str, pos: nat, lineno: nat, r: seq<FileLine>)
    requires pos < |buf| && LineEnd(buf, pos) < |buf| && AreReports(sel, buf, NextLine(buf, pos), lineno + 1, r)
    ensures AreReports(sel, buf, pos, lineno, r)
  {
    forall k | 0 <= k < |r|
      ensures IsReport(sel, buf, pos, lineno, r[k])
    {
      LaterReport(sel, buf, pos, lineno, r[k]);
    }
  }

  lemma ReportHere(sel: nat -> bool, buf: Str, pos: nat, lineno: nat)
    requires StartsLine(buf, pos) && sel(pos)
    ensures AreReports(sel, buf, pos, lineno, [Reported(buf, pos, lineno)])
  {
    assert buf[pos..pos] == [];
    ReportedIsReport(sel, buf, pos, lineno, pos);
    assert IsReportOf(sel, buf, pos, lineno, Reported(buf, pos, lineno), pos);
  }

  lemma MoreReports(sel: nat -> bool, buf: Str, pos: nat, lineno: nat, m: FileLine, r: seq<FileLine>)
    requires AreReports(sel, buf, pos, lineno, [m]) && AreReports(sel, buf, pos, lineno, r)
    requires forall k :: 0 <= k < |r| ==> m.lineNumber < r[k].lineNumber
    ensures AreReports(sel, buf, pos, lineno, [m] + r)
  {
    assert [m][0] == m;
  }

  /** Every report is of a selected line, with its own number; numbers ascend, so no line is reported twice. */
  lemma {:induction false} GrepReports(sel: nat -> bool, buf: Str, pos: nat, lineno: nat, max: nat)
    requires StartsLine(buf, pos) || pos == |buf|
    ensures AreReports(sel, buf, pos, lineno, GrepLines(sel, buf, pos, lineno, max))
    ensures |GrepLines(sel, buf, pos, lineno, max)| <= max
    decreases |buf| - pos
  {
    if pos < |buf| && max > 0 {
      var next := NextLine(buf, pos);
      if sel(pos) {
        ReportHere(sel, buf, pos, lineno);
        GrepReports(sel, buf, next, lineno + 1, max - 1);
        var r := GrepLines(sel, buf, next, lineno + 1, max - 1);
        if LineEnd(buf, pos) < |buf| {
          LaterReports(sel, buf, pos, lineno, r);
        }
        MoreReports(sel, buf, pos, lineno, Reported(buf, pos, lineno), r);
      } else if next < |buf| {
        GrepReports(sel, buf, next, lineno + 1, max);
        LaterReports(sel, buf, pos, lineno, GrepLines(sel, buf, next, lineno + 1, max));
      } else if LineEnd(buf, pos) < |buf| && sel(|buf|) {
        ReportHere(sel, buf, |buf|, lineno + 1);
        LaterReports(sel, buf, pos, lineno, [Reported(buf, |buf|, lineno + 1)]);
      }
    }
  }

  /** Every selected line that is not empty and last is reported, or the limit is reached before it. */
  lemma GrepMissesNothing(sel: nat -> bool, buf: Str, pos: nat, lineno: nat, max: nat, s: nat)
    requires pos <= s < |buf| && StartsLine(buf, pos) && StartsLine(buf, s) && sel(s)
    ensures var r := GrepLines(sel, buf, pos, lineno, max);
            || (exists m :: m in r && IsReportOf(sel, buf, pos, lineno, m, s))
            || (|r| == max && forall m :: m in r ==> m.lineNumber < lineno + |NewlinePlaces(buf, pos, s)|)
  {
    ReportedOrFull(sel, buf, pos, lineno, max, s);
    ReportedIsReport(sel, buf, pos, lineno, s);
    NewlinesArePlaces(buf, pos, s);
  }

  /** Every selected line that is not empty and last has a report. */
  ghost predicate AllReported(sel: nat -> bool, buf: Str, r: seq<FileLine>) {
    forall s: nat :: s < |buf| && StartsLine(buf, s) && sel(s) ==> exists m :: m in r && IsReportOf(sel, buf, 0, 1, m, s)
  }

  /** What is not reported comes after what is. */
  ghost predicate FirstReported(sel: nat -> bool, buf: Str, r: seq<FileLine>) {
    forall s: nat :: s < |buf| && StartsLine(buf, s) && sel(s) ==>
      || (exists m :: m in r && IsReportOf(sel, buf, 0, 1, m, s))
      || (forall m :: m in r ==> m.lineNumber < 1 + |NewlinePlaces(buf, 0, s)|)
  }

  lemma AllReports(sel: nat -> bool, buf: Str, max: nat)
    ensures var r := GrepLines(sel, buf, 0, 1, max);
            AreReports(sel, buf, 0, 1, r) && FirstReported(sel, buf, r) && |r| <= max && (|r| < max ==> AllReported(sel, buf, r))
  {
    hide GrepLines, IsReportOf, AreReports;
    GrepReports(sel, buf, 0, 1, max);
    forall s: nat | s < |buf| && StartsLine(buf, s) && sel(s)
      ensures var r := GrepLines(sel, buf, 0, 1, max);
              || (exists m :: m in r && IsReportOf(sel, buf, 0, 1, m, s))
              || (|r| == max && forall m :: m in r ==> m.lineNumber < 1 + |NewlinePlaces(buf, 0, s)|)
    {
      GrepMissesNothing(sel, buf, 0, 1, max, s);
    }
  }

  lemma {:induction false} ReportedOrFull(sel: nat -> bool, buf: Str, pos: nat, lineno: nat, max: nat, s: nat)
    requires pos <= s < |buf| && StartsLine(buf, pos) && StartsLine(buf, s) && sel(s)
    ensures var r, n := GrepLines(sel, buf, pos, lineno, max), lineno + NewlinesIn(buf[pos..s]);
            Reported(buf, s, n) in r || (|r| == max && forall m :: m in r ==> m.lineNumber < n)
    decreases |buf| - pos
  {
    if max > 0 {
      if s == pos {
        assert buf[pos..pos] == [];
      } else {
        hide GrepLines, StartsLine, NewlinesIn, LineEnd;
        NewlinesAfterLine(buf, pos, s);
        NextStart(buf, pos, s);
        ReportedOrFull(sel, buf, NextLine(buf, pos), lineno + 1, if sel(pos) then max - 1 else max, s);
        GrepNext(sel, buf, pos, lineno, max);
      }
    }
  }

  /** The reference looks at one line and goes on behind it. */
  lemma GrepNext(sel: nat -> bool, buf: Str, pos: nat, lineno: nat, max: nat)
    requires pos < |buf| && max > 0 && NextLine(buf, pos) < |buf|
    ensures var rest := GrepLines(sel, buf, NextLine(buf, pos), lineno + 1, if sel(pos) then max - 1 else max);
            GrepLines(sel, buf, pos, lineno, max) == if sel(pos) then [Reported(buf, pos, lineno)] + rest else rest
  {
    hide NextLine, Reported, LineEnd;
  }

  /** The empty line behind a final newline is reported exactly if it matches and the line before it, which starts
      at p, does not. */
  lemma {:induction false} GrepLastLine(sel: nat -> bool, buf: Str, pos: nat, lineno: nat, max: nat, p: nat)
    requires StartsLine(buf, pos) && pos <= p < |buf| && IsLine(buf, p, |buf| - 1) && buf[|buf| - 1] == 10
    ensures var r := GrepLines(sel, buf, pos, lineno, max);
            |r| < max ==> ((exists m :: m in r && IsReportOf(sel, buf, pos, lineno, m, |buf|)) <==> sel(|buf|) && !sel(p))
  {
    var r := GrepLines(sel, buf, pos, lineno, max);
    NewlinesArePlaces(buf, pos, |buf|);
    if sel(p) {
      NothingBehindLast(sel, buf, pos, lineno, max, p);
    } else if sel(|buf|) && |r| < max {
      LastOrFull(sel, buf, pos, lineno, max, p);
      ReportedIsReport(sel, buf, pos, lineno, |buf|);
      assert IsReportOf(sel, buf, pos, lineno, Reported(buf, |buf|, lineno + NewlinesIn(buf[pos..|buf|])), |buf|);
    }
  }

  lemma {:induction false} NothingBehindLast(sel: nat -> bool, buf: Str, pos: nat, lineno: nat, max: nat, p: nat)
    requires StartsLine(buf, pos) && pos <= p < |buf| && IsLine(buf, p, |buf| - 1) && buf[|buf| - 1] == 10 && sel(p)
    ensures forall m :: m in GrepLines(sel, buf, pos, lineno, max) ==> m.lineNumber < lineno + NewlinesIn(buf[pos..|buf|])
    decreases |buf| - pos
  {
    if max > 0 {
      LineEndIsLine(buf, p, |buf| - 1);
      NewlinesAfterLine(buf, pos, |buf|);
      if pos < p {
        NextStart(buf, pos, p);
        NothingBehindLast(sel, buf, NextLine(buf, pos), lineno + 1, if sel(pos) then max - 1 else max, p);
        GrepNext(sel, buf, pos, lineno, max);
      }
    }
  }

  lemma {:induction false} LastOrFull(sel: nat -> bool, buf: Str, pos: nat, lineno: nat, max: nat, p: nat)
    requires StartsLine(buf, pos) && pos <= p < |buf| && IsLine(buf, p, |buf| - 1) && buf[|buf| - 1] == 10
    requires sel(|buf|) && !sel(p)
    ensures var r := GrepLines(sel, buf, pos, lineno, max);
            |r| == max || Reported(buf, |buf|, lineno + NewlinesIn(buf[pos..|buf|])) in r
    decreases |buf| - pos
  {
    if max > 0 {
      LineEndIsLine(buf, p, |buf| - 1);
      NewlinesAfterLine(buf, pos, |buf|);
      if pos < p {
        NextStart(buf, pos, p);
        LastOrFull(sel, buf, NextLine(buf, pos), lineno + 1, if sel(pos) then max - 1 else max, p);
        GrepNext(sel, buf, pos, lineno, max);
      } else {
        assert buf[|buf|..|buf|] == [];
      }
    }
  }

  /** A file of which no line is selected yields nothing. */
  lemma {:induction false} GrepOfNothing(sel: nat -> bool, buf: Str, pos: nat, lineno: nat, max: nat)
    requires StartsLine(buf, pos) || pos == |buf|
    requires forall s: nat :: StartsLine(buf, s) ==> !sel(s)
    ensures GrepLines(sel, buf, pos, lineno, max) == []
  {
    if pos < |buf| {
      NothingSelected(sel, buf, pos, lineno, max);
    }
  }
}
