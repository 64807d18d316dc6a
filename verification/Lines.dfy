/** The lines of a text and the first of them that is accepted. */
module Lines {
  import opened Bytes
  import opened RegexpSyntax
  import opened ByteProgram
  import opened DfaStates

  /** Positions ls and le delimit a line of b: newline-separated, the last one possibly empty. */
  ghost predicate IsLine(b: Str, ls: nat, le: nat) {
    && ls <= le <= |b|
    && (ls == 0 || b[ls - 1] == Newline)
    && (le == |b| || b[le] == Newline)
    && forall k :: ls <= k < le ==> b[k] != Newline
  }

  function LineAt(b: Str, ls: nat, le: nat, beginText: bool, endText: bool): Line
    requires ls <= le <= |b|
  {
    Line(b[ls..le], ls == 0 && beginText, le == |b| && endText)
  }

  /** The lines a program matches. */
  ghost function Accepting(prog: Prog): Line -> bool {
    (line: Line) => LineMatches(prog, line)
  }

  ghost predicate Selected(accept: Line -> bool, b: Str, ls: nat, le: nat, beginText: bool, endText: bool) {
    IsLine(b, ls, le) && accept(LineAt(b, ls, le, beginText, endText))
  }

  /** end is where the first accepted line ends, or -1 if there is none. */
  ghost predicate FirstMatch(accept: Line -> bool, b: Str, beginText: bool, endText: bool, end: int) {
    if end < 0 then end == -1 && forall ls: nat, le: nat :: !Selected(accept, b, ls, le, beginText, endText)
    else
      && (exists ls: nat :: Selected(accept, b, ls, end, beginText, endText))
      && (forall ls: nat, le: nat :: le < end ==> !Selected(accept, b, ls, le, beginText, endText))
  }

  /** A line is determined by any position in it. */
  lemma LineUnique(b: Str, ls: nat, le: nat, ls': nat, le': nat)
    requires IsLine(b, ls, le) && IsLine(b, ls', le') && ls <= le' && ls' <= le
    ensures ls == ls' && le == le'
  {
    assert ls > 0 ==> b[ls - 1] == Newline;
    assert ls' > 0 ==> b[ls' - 1] == Newline;
    assert le < |b| ==> b[le] == Newline;
    assert le' < |b| ==> b[le'] == Newline;
  }
}
