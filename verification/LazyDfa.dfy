/** The lazily built automaton (internal/codesearch/regexp/match.go). */
module LazyDfa {
  import opened Bytes
  import opened Varint
  import opened RegexpSyntax
  import opened ByteProgram
  import opened DfaStates
  import opened Lines
  import opened SparseSet

  // --------------------------------------------------------------- temporary states

  function InsertId(x: nat, s: seq<nat>): seq<nat> {
    if s == [] || x <= s[0] then [x] + s else [s[0]] + InsertId(x, s[1..])
  }

  /** What sort.Ints leaves behind. */
  function SortIds(s: seq<nat>): seq<nat> {
    if s == [] then [] else InsertId(s[0], SortIds(s[1..]))
  }

  lemma {:induction false} InsertIdKeeps(x: nat, s: seq<nat>)
    requires Ascending(s) && x !in s
    ensures Ascending(InsertId(x, s)) && forall y :: y in InsertId(x, s) <==> y == x || y in s
  {
    if s != [] && s[0] < x {
      InsertIdKeeps(x, s[1..]);
      var r := InsertId(x, s[1..]);
      forall k | 0 <= k < |r|
        ensures s[0] < r[k]
      {
        assert r[k] in r;
      }
    }
  }

  lemma {:induction false} SortIdsSorts(s: seq<nat>)
    requires forall i, j :: 0 <= i < j < |s| ==> s[i] != s[j]
    ensures Lists(SortIds(s), Members(s))
  {
    if s != [] {
      SortIdsSorts(s[1..]);
      InsertIdKeeps(s[0], SortIds(s[1..]));
      assert forall x: nat :: x in s <==> x == s[0] || x in s[1..];
    }
  }

  lemma MembersStep(s: seq<nat>, k: nat)
    requires k < |s|
    ensures Members(s[..k + 1]) == Members(s[..k]) + {s[k]}
  {
    assert s[..k + 1] == s[..k] + [s[k]];
  }

  lemma NoMembers(s: seq<nat>)
    ensures Members(s[..0]) == {}
  {
  }

  /** Nothing is left to decode exactly when all instructions have been. */
  lemma EncodedEnds(ids: seq<nat>, k: nat, last: nat)
    requires k <= |ids|
    ensures |EncodeIds(ids[k..], last)| > 0 <==> k < |ids|
  {
    if k < |ids| {
      RoundTrip((ids[k] - last) % Word32, []);
      assert PutUvarint((ids[k] - last) % Word32) + [] == PutUvarint((ids[k] - last) % Word32);
    }
  }

  class NState {
    const q: Set
    var partial: nat
    var flag: nat

    constructor (max: nat)
      ensures fresh(q) && fresh(q.sparse) && q.Valid() && q.sparse.Length == max && q.dense == []
      ensures partial == 0 && flag == 0
    {
      q := new Set(max);
      partial := 0;
      flag := 0;
    }

    ghost predicate Holds(a: State)
      reads this, q, q.sparse
    {
      q.Valid() && q.Elements() == a.q && flag == Bits(a) && partial == 0
    }

    lemma KeyOf(a: State, ids: seq<nat>)
      requires Lists(ids, a.q)
      ensures IsKey(PutUvarint(0) + PutUvarint(Bits(a)) + EncodeIds(ids, Word32 - 1), a)
    {
    }

    method Enc(ghost a: State) returns (s: Str)
      requires Holds(a) && q.sparse.Length <= Word32
      ensures IsKey(s, a)
    {
      var last: nat := Word32 - 1;
      var buf := PutUvarint(partial) + PutUvarint(flag);
      var ids := SortIds(q.dense);
      q.Distinct();
      SortIdsSorts(q.dense);
      assert Lists(ids, a.q) && partial == 0 && flag == Bits(a);
      ghost var whole := buf + EncodeIds(ids, last);
      hide *;
      assert ids[0..] == ids;
      for i := 0 to |ids|
        invariant buf + EncodeIds(ids[i..], last) == whole
      {
        EncodeStep(buf, ids, i, last);
        buf := buf + PutUvarint((ids[i] - last) % Word32);
        last := ids[i];
      }
      EncodeEnd(buf, ids, last);
      KeyOf(a, ids);
      s := buf;
    }

    lemma EncodeStep(buf: Str, ids: seq<nat>, i: nat, last: nat)
      requires i < |ids|
      ensures buf + EncodeIds(ids[i..], last) == (buf + PutUvarint((ids[i] - last) % Word32)) + EncodeIds(ids[i + 1..], ids[i])
    {
      assert ids[i..][1..] == ids[i + 1..];
    }

    lemma EncodeEnd(buf: Str, ids: seq<nat>, last: nat)
      ensures buf + EncodeIds(ids[|ids|..], last) == buf
    {
    }

    method Dec(s: Str, ghost prog: Prog, ghost a: State)
      requires q.Valid() && q.sparse.Length == |prog.inst| <= Word32 && Fits(prog, a) && IsKey(s, a)
      modifies this, q, q.sparse
      ensures Holds(a)
    {
      ghost var ids :| Lists(ids, a.q) && s == PutUvarint(0) + PutUvarint(Bits(a)) + EncodeIds(ids, Word32 - 1);
      var b := s;
      DecodeHeader(a, ids);
      var r := Uvarint(b);
      b := b[r.1..];
      partial := r.0;
      r := Uvarint(b);
      b := b[r.1..];
      flag := r.0;
      DecIds(b, prog, ids);
    }

    method DecIds(s: Str, ghost prog: Prog, ghost ids: seq<nat>)
      requires q.Valid() && q.sparse.Length == |prog.inst| <= Word32
      requires forall x :: x in ids ==> x < |prog.inst|
      requires s == EncodeIds(ids, Word32 - 1)
      modifies q, q.sparse
      ensures q.Valid() && q.Elements() == Members(ids)
    {
      var b := s;
      q.Reset();
      var last: nat := Word32 - 1;
      ghost var k := 0;
      assert ids[0..] == ids;
      NoMembers(ids);
      assert q.Elements() == {};
      hide EncodeIds, Members, PutUvarint, Uvarint;
      EncodedEnds(ids, 0, last);
      while |b| > 0
        invariant 0 <= k <= |ids| && last < Word32
        invariant b == EncodeIds(ids[k..], last)
        invariant q.Valid() && q.Elements() == Members(ids[..k])
        decreases |ids| - k
      {
        EncodedEnds(ids, k, last);
        assert ids[k] in ids;
        DecodeStep(ids, k, last);
        var r := Uvarint(b);
        b := b[r.1..];
        last := (last + r.0 % Word32) % Word32;
        q.Add(last);
        MembersStep(ids, k);
        k := k + 1;
      }
      EncodedEnds(ids, k, last);
      assert ids[..k] == ids;
    }
  }

  lemma DecodeHeader(a: State, ids: seq<nat>)
    ensures var s := PutUvarint(0) + PutUvarint(Bits(a)) + EncodeIds(ids, Word32 - 1);
            var r := Uvarint(s);
            && 0 < r.1 <= |s| && r.0 == 0
            && var t := Uvarint(s[r.1..]);
               0 < t.1 <= |s[r.1..]| && t.0 == Bits(a) && s[r.1..][t.1..] == EncodeIds(ids, Word32 - 1)
  {
    var tail := EncodeIds(ids, Word32 - 1);
    var s := PutUvarint(0) + PutUvarint(Bits(a)) + tail;
    assert s == PutUvarint(0) + (PutUvarint(Bits(a)) + tail);
    RoundTrip(0, PutUvarint(Bits(a)) + tail);
    RoundTrip(Bits(a), tail);
    assert s[|PutUvarint(0)|..] == PutUvarint(Bits(a)) + tail;
    assert (PutUvarint(Bits(a)) + tail)[|PutUvarint(Bits(a))|..] == tail;
  }

  // -------------------------------------------------------------------- filling

  /** Everything that is new has its successors in the queue and was reached from the seeds. */
  ghost predicate Fills(prog: Prog, before: set<nat>, seeds: set<nat>, flag: set<Assertion>, after: set<nat>) {
    && before <= after <= Pcs(prog)
    && (forall x :: x in after - before ==> Successors(prog.inst[x], flag) <= after)
    && (forall x :: x in after - before ==> SilentFrom(prog, flag, seeds, x))
  }

  lemma SilentPrepend(prog: Prog, id: nat, out: nat, flag: set<Assertion>, x: nat)
    requires id < |prog.inst| && out in Successors(prog.inst[id], flag) && SilentFrom(prog, flag, {out}, x)
    ensures SilentFrom(prog, flag, {id}, x)
  {
    var a, n: nat :| a in {out} && Silent(prog, flag, a, x, n);
    assert Silent(prog, flag, id, x, n + 1);
  }

  lemma SilentWiden(prog: Prog, a: set<nat>, b: set<nat>, flag: set<Assertion>, x: nat)
    requires a <= b && SilentFrom(prog, flag, a, x)
    ensures SilentFrom(prog, flag, b, x)
  {
  }

  lemma SilentSelf(prog: Prog, id: nat, flag: set<Assertion>)
    ensures SilentFrom(prog, flag, {id}, id)
  {
    assert Silent(prog, flag, id, id, 0);
  }

  lemma FillsNone(prog: Prog, before: set<nat>, id: nat, flag: set<Assertion>)
    requires before <= Pcs(prog) && id < |prog.inst| && Successors(prog.inst[id], flag) == {}
    ensures Fills(prog, before, {id}, flag, before + {id})
  {
    SilentSelf(prog, id, flag);
  }

  lemma FillsOne(prog: Prog, before: set<nat>, id: nat, out: nat, flag: set<Assertion>, after: set<nat>)
    requires id < |prog.inst| && Successors(prog.inst[id], flag) == {out} && out in after
    requires Fills(prog, before + {id}, {out}, flag, after)
    ensures Fills(prog, before, {id}, flag, after)
  {
    SilentSelf(prog, id, flag);
    forall x | x in after - before && x != id
      ensures SilentFrom(prog, flag, {id}, x)
    {
      SilentPrepend(prog, id, out, flag, x);
    }
  }

  lemma FillsTwo(prog: Prog, before: set<nat>, id: nat, out: nat, arg: nat, flag: set<Assertion>, half: set<nat>, after: set<nat>)
    requires id < |prog.inst| && Successors(prog.inst[id], flag) == {out, arg} && out in half && arg in after
    requires Fills(prog, before + {id}, {out}, flag, half) && Fills(prog, half, {arg}, flag, after)
    ensures Fills(prog, before, {id}, flag, after)
  {
    SilentSelf(prog, id, flag);
    forall x | x in after - before && x != id
      ensures SilentFrom(prog, flag, {id}, x)
    {
      if x in half {
        SilentPrepend(prog, id, out, flag, x);
      } else {
        SilentPrepend(prog, id, arg, flag, x);
      }
    }
  }

  lemma FillsNothing(prog: Prog, flag: set<Assertion>)
    ensures Fills(prog, {}, {}, flag, {})
  {
  }

  lemma FillsMore(prog: Prog, seeds: set<nat>, id: nat, flag: set<Assertion>, before: set<nat>, after: set<nat>)
    requires Fills(prog, {}, seeds, flag, before) && Fills(prog, before, {id}, flag, after)
    ensures Fills(prog, {}, seeds + {id}, flag, after)
  {
    forall x | x in after
      ensures SilentFrom(prog, flag, seeds + {id}, x)
    {
      if x in before {
        SilentWiden(prog, seeds, seeds + {id}, flag, x);
      } else {
        SilentWiden(prog, {id}, seeds + {id}, flag, x);
      }
    }
  }

  lemma FilledIsClosure(prog: Prog, seeds: set<nat>, flag: set<Assertion>, X: set<nat>)
    requires Fills(prog, {}, seeds, flag, X) && seeds <= X
    ensures X == Closure(prog, seeds, flag)
  {
    ClosureUnique(prog, seeds, flag, X);
  }

  lemma MatchStep(prog: Prog, X: set<nat>, id: nat)
    requires id < |prog.inst|
    ensures HasMatch(prog, X + {id}) <==> HasMatch(prog, X) || prog.inst[id].Match?
  {
  }

  lemma ReadingStep(prog: Prog, X: set<nat>, id: nat, c: int)
    requires X <= Pcs(prog) && id < |prog.inst|
    ensures Reading(prog, X + {id}, c) ==
            Reading(prog, X, c) + if Accepts(prog.inst[id], c) then {prog.inst[id].out} else {}
  {
  }

  // ----------------------------------------------------------------- the matcher

  /** A cached state; next is filled in as bytes are read. */
  class DState {
    var next: seq<DState?>
    const enc: Str
    var matchNL: bool
    var matchEOT: bool
    ghost const state: State

    constructor (enc: Str, ghost state: State)
      ensures this.enc == enc && this.state == state && !matchNL && !matchEOT
      ensures |next| == 256 && forall c :: 0 <= c < 256 ==> next[c] == null
    {
      this.enc := enc;
      this.state := state;
      matchNL := false;
      matchEOT := false;
      next := seq(256, _ => null);
    }
  }

  class Matcher {
    const prog: Prog
    const z1: NState
    const z2: NState
    const dmatch: DState
    var dstate: map<Str, DState>
    var start: DState?
    var startLine: DState?

    /** The two temporary states are separate objects, big enough for the program. */
    ghost predicate Scratch()
      reads z1, z1.q, z1.q.sparse, z2, z2.q, z2.q.sparse
    {
      && z1 != z2 && z1.q != z2.q && z1.q.sparse != z2.q.sparse
      && z1.q.Valid() && z2.q.Valid() && z1.partial == 0 && z2.partial == 0
      && z1.q.sparse.Length == z2.q.sparse.Length == |prog.inst| <= Word32
      && Closed(prog)
    }

    /** t stands for s: the match state for None, and the one cached object for a state. */
    ghost predicate StandsFor(t: DState?, s: Option<State>)
      reads this`dstate
    {
      match s
      case None => t == dmatch
      case Some(a) => t != null && t.enc in dstate && dstate[t.enc] == t && t.state == a
    }

    /** What a remembered transition may be. */
    ghost predicate NextRight(d: DState, c: Byte, t: DState)
      reads this`dstate
    {
      if c == Newline then !Stops(prog, d.state, Newline) && StandsFor(t, Some(Initial(prog, false)))
      else StandsFor(t, Next(prog, d.state, c))
    }

    ghost predicate NextTableRight(d: DState)
      reads this`dstate, d`next
    {
      |d.next| == 256 && forall c: Byte :: d.next[c] != null ==> NextRight(d, c, d.next[c])
    }

    ghost predicate CachedRight(k: Str, d: DState)
      reads this`dstate, d`next
    {
      d != dmatch && d.enc == k && IsKey(k, d.state) && Fits(prog, d.state) && NextTableRight(d)
    }

    ghost predicate AnswersRight(d: DState)
      reads d`matchNL, d`matchEOT
    {
      d.matchNL == Stops(prog, d.state, Newline) && d.matchEOT == Stops(prog, d.state, EndOfText)
    }

    ghost predicate Entries()
      reads this`dstate, dstate.Values`next
    {
      forall k :: k in dstate ==> CachedRight(k, dstate[k])
    }

    /** Every cached state has its answers, apart from those still being computed. */
    ghost predicate Answers(pending: set<Str>)
      reads this`dstate, dstate.Values`matchNL, dstate.Values`matchEOT
    {
      forall k :: k in dstate && k !in pending ==> AnswersRight(dstate[k])
    }

    ghost predicate Table(pending: set<Str>)
      reads this`dstate, dstate.Values
    {
      Entries() && Answers(pending)
    }

    ghost predicate MatchStateRight()
      reads dmatch
    {
      && dmatch.matchNL && dmatch.matchEOT && |dmatch.next| == 256
      && forall c: Byte :: dmatch.next[c] == if c == Newline then null else dmatch
    }

    ghost predicate Valid()
      reads this, dstate.Values, dmatch, z1, z1.q, z1.q.sparse, z2, z2.q, z2.q.sparse
    {
      && Scratch() && Table({}) && MatchStateRight()
      && StandsFor(start, Some(Initial(prog, true))) && StandsFor(startLine, Some(Initial(prog, false)))
    }

    /** The table has only gained entries. */
    twostate predicate Grown()
      reads this`dstate
    {
      && (forall k :: k in old(dstate) ==> k in dstate && dstate[k] == old(dstate)[k])
      && (forall k :: k in dstate && k !in old(dstate) ==> fresh(dstate[k]))
    }

    twostate lemma NextTableStays(d: DState)
      requires old(NextTableRight(d)) && Grown() && d.next == old(d.next)
      ensures NextTableRight(d)
    {
    }

    /** A new state with an empty transition table keeps the table right. */
    twostate lemma EntriesGrow(new d: DState)
      requires fresh(d)
      requires old(Entries()) && d.enc !in old(dstate) && dstate == old(dstate)[d.enc := d]
      requires forall k :: k in old(dstate) ==> old(dstate)[k].next == old(dstate[k].next)
      requires CachedRight(d.enc, d)
      ensures Entries()
    {
      forall k | k in dstate
        ensures CachedRight(k, dstate[k])
      {
        if k != d.enc {
          NextTableStays(dstate[k]);
        }
      }
    }

    // ---------------------------------------------------------------- queues

    method Addq(q: Set, id: nat, flag: set<Assertion>)
      requires q.Valid() && q.sparse.Length == |prog.inst| && Closed(prog) && id < |prog.inst|
      modifies q, q.sparse
      ensures q.Valid() && id in q.Elements()
      ensures Fills(prog, old(q.Elements()), {id}, flag, q.Elements())
      decreases Pcs(prog) - q.Elements()
    {
      ghost var before := q.Elements();
      var has := q.Has(id);
      Inside(q);
      if has {
        return;
      }
      q.Add(id);
      var i := prog.inst[id];
      assert TargetsBelow(i, |prog.inst|);
      match i {
        case Nop(out) =>
          Addq(q, out, flag);
          FillsOne(prog, before, id, out, flag, q.Elements());
        case Capture(out) =>
          Addq(q, out, flag);
          FillsOne(prog, before, id, out, flag, q.Elements());
        case Alt(out, arg) =>
          Addq(q, out, flag);
          ghost var half := q.Elements();
          Addq(q, arg, flag);
          FillsTwo(prog, before, id, out, arg, flag, half, q.Elements());
        case AltMatch(out, arg) =>
          Addq(q, out, flag);
          ghost var half := q.Elements();
          Addq(q, arg, flag);
          FillsTwo(prog, before, id, out, arg, flag, half, q.Elements());
        case EmptyWidth(ops, out) =>
          if ops <= flag {
            Addq(q, out, flag);
            FillsOne(prog, before, id, out, flag, q.Elements());
          } else {
            FillsNone(prog, before, id, flag);
          }
        case _ =>
          FillsNone(prog, before, id, flag);
      }
    }

    lemma Inside(q: Set)
      requires q.Valid() && q.sparse.Length == |prog.inst|
      ensures q.Elements() <= Pcs(prog)
    {
    }

    method StepEmpty(runq: Set, nextq: Set, flag: set<Assertion>)
      requires Closed(prog) && runq != nextq && runq.sparse != nextq.sparse
      requires runq.Valid() && runq.sparse.Length == |prog.inst| && nextq.Valid() && nextq.sparse.Length == |prog.inst|
      modifies nextq, nextq.sparse
      ensures nextq.Valid() && nextq.Elements() == Closure(prog, runq.Elements(), flag)
    {
      nextq.Reset();
      var dense := runq.dense;
      ghost var seeds: set<nat> := {};
      FillsNothing(prog, flag);
      for k := 0 to |dense|
        invariant nextq.Valid() && runq.dense == dense && runq.Valid()
        invariant seeds == Members(dense[..k]) && seeds <= nextq.Elements()
        invariant Fills(prog, {}, seeds, flag, nextq.Elements())
      {
        ghost var before := nextq.Elements();
        Addq(nextq, dense[k], flag);
        FillsMore(prog, seeds, dense[k], flag, before, nextq.Elements());
        MembersStep(dense, k);
        seeds := seeds + {dense[k]};
      }
      assert dense[..|dense|] == dense;
      FilledIsClosure(prog, seeds, flag, nextq.Elements());
    }

    /** Where a byte range leads if it accepts the byte. */
    method FollowByte(nextq: Set, i: Inst, c: int, flag: set<Assertion>, ghost seeds0: set<nat>) returns (ghost seeds: set<nat>)
      requires Closed(prog) && nextq.Valid() && nextq.sparse.Length == |prog.inst| && (0 <= c < 256 || c == EndOfText)
      requires i.ByteRange? && i.out < |prog.inst|
      requires Fills(prog, {}, seeds0, flag, nextq.Elements()) && seeds0 <= nextq.Elements()
      modifies nextq, nextq.sparse
      ensures nextq.Valid() && seeds == seeds0 + if Accepts(i, c) then {i.out} else {}
      ensures Fills(prog, {}, seeds, flag, nextq.Elements()) && seeds <= nextq.Elements()
    {
      seeds := seeds0;
      ghost var before := nextq.Elements();
      if c != EndOfText {
        var ch := c;
        if i.fold && 'a' as int <= ch <= 'z' as int {
          ch := ch + ('A' as int - 'a' as int);
        }
        if i.lo <= ch <= i.hi {
          Addq(nextq, i.out, flag);
          FillsMore(prog, seeds, i.out, flag, before, nextq.Elements());
          seeds := seeds + {i.out};
        }
      }
    }

    /** Every position may be the start of a match. */
    method AddStart(nextq: Set, flag: set<Assertion>)
      requires Closed(prog) && nextq.Valid() && nextq.sparse.Length == |prog.inst|
      modifies nextq, nextq.sparse
      ensures nextq.Valid() && Fills(prog, {}, {prog.start}, flag, nextq.Elements()) && prog.start in nextq.Elements()
    {
      nextq.Reset();
      FillsNothing(prog, flag);
      Addq(nextq, prog.start, flag);
    }

    method StepByte(runq: Set, nextq: Set, c: int, flag: set<Assertion>) returns (matched: bool)
      requires Closed(prog) && runq != nextq && runq.sparse != nextq.sparse && (0 <= c < 256 || c == EndOfText)
      requires runq.Valid() && runq.sparse.Length == |prog.inst| && nextq.Valid() && nextq.sparse.Length == |prog.inst|
      modifies nextq, nextq.sparse
      ensures nextq.Valid() && runq.Elements() <= Pcs(prog)
      ensures nextq.Elements() == Closure(prog, {prog.start} + Reading(prog, runq.Elements(), c), flag)
      ensures matched <==> HasMatch(prog, runq.Elements())
    {
      matched := false;
      Inside(runq);
      AddStart(nextq, flag);
      ghost var seeds := {prog.start};
      var dense := runq.dense;
      for k := 0 to |dense|
        invariant nextq.Valid() && runq.dense == dense && runq.Valid() && Members(dense[..k]) <= Pcs(prog)
        invariant seeds == {prog.start} + Reading(prog, Members(dense[..k]), c) && seeds <= nextq.Elements()
        invariant Fills(prog, {}, seeds, flag, nextq.Elements())
        invariant matched <==> HasMatch(prog, Members(dense[..k]))
      {
        hide Fills, Closure, Reading, HasMatch, Set.Valid;
        var id := dense[k];
        MembersStep(dense, k);
        MatchStep(prog, Members(dense[..k]), id);
        ReadingStep(prog, Members(dense[..k]), id, c);
        var i := prog.inst[id];
        assert TargetsBelow(i, |prog.inst|);
        match i {
          case Match =>
            matched := true;
          case ByteRange(lo, hi, fold, out) =>
            seeds := FollowByte(nextq, i, c, flag, seeds);
          case _ =>
        }
      }
      assert dense[..|dense|] == dense;
      FilledIsClosure(prog, seeds, flag, nextq.Elements());
    }

    // ------------------------------------------------------------------ caching

    ghost function Known(): set<State>
      reads this`dstate, dstate.Values
    {
      set k | k in dstate :: dstate[k].state
    }

    lemma NewState(pending: set<Str>, enc: Str, a: State)
      requires Table(pending) && IsKey(enc, a) && enc !in dstate && Fits(prog, a)
      ensures a !in Known() && a in AllStates(prog)
    {
      if a in Known() {
        var k :| k in dstate && dstate[k].state == a;
        KeyUnique(a, k, enc);
      }
    }

    lemma KnownGrows(before: map<Str, DState>, enc: Str, d: DState, a: State)
      requires enc !in before && dstate == before[enc := d] && d.state == a
      ensures Known() == (set k | k in before :: before[k].state) + {a}
    {
      forall x | x in (set k | k in before :: before[k].state) + {a}
        ensures x in Known()
      {
        if x == a {
          assert dstate[enc].state == x;
        } else {
          var k :| k in before && before[k].state == x;
          assert dstate[k].state == x;
        }
      }
    }

    lemma SameState(pending: set<Str>, enc: Str, a: State)
      requires Table(pending) && |prog.inst| <= Word32 && IsKey(enc, a) && enc in dstate && Fits(prog, a)
      ensures StandsFor(dstate[enc], Some(a))
    {
      KeysDiffer(prog, enc, a, dstate[enc].state);
    }

    /** cache: the one object for a state, with its answers computed when it is new. */
    method Cache(z: NState, ghost a: State, ghost pending: set<Str>) returns (d: DState)
      requires Scratch() && Table(pending) && z in {z1, z2} && z.Holds(a) && Fits(prog, a)
      modifies this`dstate, z1, z1.q, z1.q.sparse, z2, z2.q, z2.q.sparse
      ensures Scratch() && Table(pending) && Grown()
      ensures StandsFor(d, Some(a))
      decreases AllStates(prog) - Known(), 0
    {
      var enc := z.Enc(a);
      if enc in dstate {
        SameState(pending, enc, a);
        return dstate[enc];
      }
      d := AddState(enc, a, pending);
      ComputeAnswers(d, pending);
    }

    /** A new state enters the table before its answers are known. */
    method AddState(enc: Str, ghost a: State, ghost pending: set<Str>) returns (d: DState)
      requires Table(pending) && IsKey(enc, a) && enc !in dstate && Fits(prog, a)
      modifies this`dstate
      ensures Entries() && Answers(pending + {enc}) && Grown()
      ensures fresh(d) && d.enc == enc && d.enc in dstate && StandsFor(d, Some(a))
      ensures AllStates(prog) - Known() < old(AllStates(prog) - Known())
    {
      NewState(pending, enc, a);
      d := new DState(enc, a);
      dstate := dstate[enc := d];
      KnownGrows(old(dstate), enc, d, a);
      EntriesGrow(d);
    }

    /** Fills in whether a new state matches at a newline and at the end of the text. */
    method ComputeAnswers(d: DState, ghost pending: set<Str>)
      requires Scratch() && Entries() && Answers(pending + {d.enc}) && d.enc in dstate && dstate[d.enc] == d
      modifies this`dstate, z1, z1.q, z1.q.sparse, z2, z2.q, z2.q.sparse, d`matchNL, d`matchEOT
      ensures Scratch() && Table(pending) && Grown()
      decreases AllStates(prog) - Known(), 4
    {
      var atNewline, atEnd := ComputeBoth(d, pending + {d.enc});
      SetAnswers(d, atNewline, atEnd, pending);
    }

    method SetAnswers(d: DState, atNewline: bool, atEnd: bool, ghost pending: set<Str>)
      requires Table(pending + {d.enc}) && d.enc in dstate && dstate[d.enc] == d
      requires atNewline == Stops(prog, d.state, Newline) && atEnd == Stops(prog, d.state, EndOfText)
      modifies d`matchNL, d`matchEOT
      ensures Table(pending)
    {
      d.matchNL := atNewline;
      d.matchEOT := atEnd;
      forall k | k in dstate && k !in pending
        ensures AnswersRight(dstate[k])
      {
        assert k != d.enc ==> old(AnswersRight(dstate[k]));
      }
    }

    method ComputeBoth(d: DState, ghost pending: set<Str>) returns (atNewline: bool, atEnd: bool)
      requires Scratch() && Table(pending) && d.enc in dstate && dstate[d.enc] == d
      modifies this`dstate, z1, z1.q, z1.q.sparse, z2, z2.q, z2.q.sparse
      ensures Scratch() && Table(pending) && Grown()
      ensures atNewline == Stops(prog, d.state, Newline) && atEnd == Stops(prog, d.state, EndOfText)
      decreases AllStates(prog) - Known(), 3
    {
      hide Scratch, Table, Stops;
      atNewline := MatchesBefore(d, Newline, pending);
      KnownStays();
      atEnd := MatchesBefore(d, EndOfText, pending);
    }

    /** Whether a match ends before c. */
    method MatchesBefore(d: DState, c: int, ghost pending: set<Str>) returns (m: bool)
      requires Scratch() && Table(pending) && d.enc in dstate && dstate[d.enc] == d && (0 <= c < 256 || c == EndOfText)
      modifies this`dstate, z1, z1.q, z1.q.sparse, z2, z2.q, z2.q.sparse
      ensures Scratch() && Table(pending) && Grown() && m == Stops(prog, d.state, c)
      decreases AllStates(prog) - Known(), 2
    {
      var t := ComputeNext(d, c, pending);
      m := t == dmatch;
    }

    twostate lemma KnownStays()
      requires Grown()
      ensures old(Known()) <= Known()
    {
      forall x | x in old(Known())
        ensures x in Known()
      {
        var k :| k in old(dstate) && old(dstate)[k].state == x;
        assert dstate[k].state == x;
      }
    }

    /** The assertions in effect before c, from the flags of the decoded state. */
    method FlagsBefore(z: NState, c: int, ghost a: State) returns (flag: set<Assertion>)
      requires z.flag == Bits(a)
      ensures flag == Before(a, c)
    {
      flag := {};
      if HasBit(z.flag, FlagBOL) {
        flag := flag + {BeginLine};
      }
      if HasBit(z.flag, FlagBOT) {
        flag := flag + {BeginText};
      }
      if HasBit(z.flag, FlagWord) {
        flag := flag + if !IsWordByte(c) then {WordBoundary} else {NoWordBoundary};
      } else {
        flag := flag + if IsWordByte(c) then {WordBoundary} else {NoWordBoundary};
      }
      if c == Newline {
        flag := flag + {EndLine};
      }
      if c == EndOfText {
        flag := flag + {EndLine, EndText};
      }
    }

    /** computeNext: the state after reading c, or the match state when a match ends before c. */
    method ComputeNext(d: DState, c: int, ghost pending: set<Str>) returns (t: DState)
      requires Scratch() && Table(pending) && (0 <= c < 256 || c == EndOfText)
      requires d.enc in dstate && dstate[d.enc] == d
      modifies this`dstate, z1, z1.q, z1.q.sparse, z2, z2.q, z2.q.sparse
      ensures Scratch() && Table(pending) && Grown()
      ensures StandsFor(t, Next(prog, d.state, c))
      decreases AllStates(prog) - Known(), 1
    {
      var matched := StepState(d, c, d.state);
      if matched {
        return dmatch;
      }
      NextFits(prog, d.state, c);
      t := Cache(z1, Advance(prog, d.state, c), pending);
    }

    /** The part of computeNext that works on the two temporary states only; the result is left in z1. */
    method StepState(d: DState, c: int, ghost a: State) returns (matched: bool)
      requires Scratch() && (0 <= c < 256 || c == EndOfText) && IsKey(d.enc, a) && Fits(prog, a)
      modifies z1, z1.q, z1.q.sparse, z2, z2.q, z2.q.sparse
      ensures Scratch() && (matched <==> Stops(prog, a, c))
      ensures z1.Holds(Advance(prog, a, c))
    {
      var this_, next := z1, z2;
      this_.Dec(d.enc, prog, a);
      var flag := FlagsBefore(this_, c, a);
      StepEmpty(this_.q, next.q, flag);
      this_, next := next, this_;
      flag := {};
      next.flag := 0;
      if c == Newline {
        flag := flag + {BeginLine};
        next.flag := next.flag + FlagBOL;
      }
      if IsWordByte(c) {
        next.flag := next.flag + FlagWord;
      }
      assert flag == After(c);
      matched := StepByte(this_.q, next.q, c, flag);
    }

    // ----------------------------------------------------------------- matching

    constructor (prog: Prog)
      requires Closed(prog) && |prog.inst| <= Word32
      ensures this.prog == prog && dstate == map[] && z1.q.dense == []
      ensures Scratch() && MatchStateRight()
    {
      this.prog := prog;
      var y1 := new NState(|prog.inst|);
      var y2 := new NState(|prog.inst|);
      z1, z2 := y1, y2;
      var d := new DState([0, 0], State({}, false, false, false));
      d.matchNL, d.matchEOT := true, true;
      d.next := seq(256, c => if c == Newline then null else d);
      dmatch := d;
      dstate := map[];
      start, startLine := null, null;
    }

    /** init: the two start states are cached. */
    method Init()
      requires dstate == map[] && z1.q.dense == [] && Scratch() && MatchStateRight()
      modifies this`dstate, this`start, this`startLine, z1, z1.q, z1.q.sparse, z2, z2.q, z2.q.sparse
      ensures Valid()
    {
      var d := CacheStart(true);
      z1.q.Reset();
      var d' := CacheStart(false);
      SetStarts(d, d');
    }

    method SetStarts(d: DState, d': DState)
      requires Scratch() && Table({}) && MatchStateRight()
      requires StandsFor(d, Some(Initial(prog, true))) && StandsFor(d', Some(Initial(prog, false)))
      modifies this`start, this`startLine
      ensures Valid()
    {
      hide Scratch, Table, MatchStateRight, StandsFor;
      start, startLine := d, d';
    }

    method CacheStart(first: bool) returns (d: DState)
      requires Scratch() && Table({}) && z1.q.dense == []
      modifies this`dstate, z1, z1.q, z1.q.sparse, z2, z2.q, z2.q.sparse
      ensures Scratch() && Table({}) && Grown() && StandsFor(d, Some(Initial(prog, first)))
    {
      hide Table, StandsFor;
      StartQueue(first);
      d := Cache(z1, Initial(prog, first), {});
    }

    /** z1 becomes a start state. */
    method StartQueue(first: bool)
      requires Scratch() && z1.q.dense == []
      modifies z1, z1.q, z1.q.sparse
      ensures Scratch() && z1.Holds(Initial(prog, first)) && Fits(prog, Initial(prog, first))
    {
      FillsNothing(prog, InitialFlags(first));
      Addq(z1.q, prog.start, InitialFlags(first));
      FilledIsClosure(prog, {prog.start}, InitialFlags(first), z1.q.Elements());
      z1.flag := if first then FlagBOL + FlagBOT else FlagBOL;
    }

    /** d stands for the run of the automaton over w. */
    ghost predicate At(d: DState, first: bool, w: Str)
      reads this`dstate
    {
      StandsFor(d, Run(prog, first, w))
    }

    /** Keeps a transition for the next time the byte is read in d. */
    method Remember(d: DState, c: Byte, t: DState)
      requires Valid() && d.enc in dstate && dstate[d.enc] == d && NextRight(d, c, t)
      modifies d`next
      ensures Valid()
    {
      hide Initial, Scratch, NextRight, StandsFor, IsKey, Fits;
      d.next := d.next[c := t];
      forall k | k in dstate
        ensures CachedRight(k, dstate[k])
      {
        assert old(CachedRight(k, dstate[k]));
      }
    }

    /** The answers stored in d are those of the line read so far. */
    lemma AnswerAtNewline(d: DState, line: Line)
      requires Valid() && At(d, line.first, line.bytes) && NoNewline(line.bytes) && !line.last
      ensures d.matchNL <==> LineMatches(prog, line)
    {
      RunDecides(prog, line);
    }

    lemma AnswerAtEnd(d: DState, line: Line)
      requires Valid() && At(d, line.first, line.bytes) && NoNewline(line.bytes)
      ensures (d.matchNL || (line.last && d.matchEOT)) <==> LineMatches(prog, line)
    {
      RunDecides(prog, line);
      var r := Run(prog, line.first, line.bytes);
      if r.Some? && Stops(prog, r.value, Newline) {
        NewlineStopsAtEnd(prog, r.value);
      }
    }

    method Transition(d: DState, c: Byte) returns (t: DState)
      requires Valid() && d.enc in dstate && dstate[d.enc] == d
      modifies this`dstate, z1, z1.q, z1.q.sparse, z2, z2.q, z2.q.sparse
      ensures Valid() && Grown() && StandsFor(t, Next(prog, d.state, c))
    {
      hide Stops, Next, Scratch, Table, Initial;
      t := ComputeNext(d, c, {});
    }

    /** A transition out of a cached state: remembered, or computed and remembered. */
    method Follow(d: DState, c: Byte) returns (t: DState)
      requires Valid() && d.enc in dstate && dstate[d.enc] == d && c != Newline
      modifies this`dstate, z1, z1.q, z1.q.sparse, z2, z2.q, z2.q.sparse, dstate.Values`next
      ensures Valid() && Grown() && StandsFor(t, Next(prog, d.state, c))
    {
      var d1 := d.next[c];
      if d1 == null {
        t := Transition(d, c);
        Remember(d, c, t);
      } else {
        assert NextRight(d, c, d1);
        t := d1;
      }
    }

    /** One byte of the scan that is not a newline. */
    method ReadByte(d: DState, c: Byte, ghost first: bool, ghost w: Str) returns (t: DState)
      requires Valid() && At(d, first, w) && c != Newline
      modifies this`dstate, z1, z1.q, z1.q.sparse, z2, z2.q, z2.q.sparse, dstate.Values`next
      ensures Valid() && Grown() && At(t, first, w + [c])
    {
      RunStep(prog, first, w, c);
      if d == dmatch {
        t := d.next[c];
        MatchStateStays(d, first, w);
      } else {
        t := Follow(d, c);
      }
    }

    lemma MatchStateStays(d: DState, first: bool, w: Str)
      requires Valid() && At(d, first, w) && d == dmatch
      ensures Run(prog, first, w) == None
    {
    }

    /** A newline that ends a line without a match starts the next line. */
    method ReadNewline(d: DState) returns (t: DState)
      requires Valid() && d.enc in dstate && dstate[d.enc] == d && !d.matchNL
      modifies dstate.Values`next
      ensures Valid() && At(t, false, [])
    {
      var d1 := d.next[Newline];
      if d1 == null {
        t := startLine;
        Remember(d, Newline, t);
      } else {
        t := d1;
      }
    }

    ghost predicate NoneEndsBefore(b: Str, ls: nat, beginText: bool, endText: bool) {
      forall s: nat, e: nat :: e < ls ==> !Selected(Accepting(prog), b, s, e, beginText, endText)
    }

    /** The scan has reached position i, in the line that starts at ls. */
    ghost predicate Scanning(b: Str, ls: nat, i: nat, d: DState, beginText: bool, endText: bool)
      reads this`dstate
    {
      && ls <= i <= |b|
      && (ls == 0 || b[ls - 1] == Newline)
      && (forall k :: ls <= k < i ==> b[k] != Newline)
      && At(d, ls == 0 && beginText, b[ls..i])
      && NoneEndsBefore(b, ls, beginText, endText)
    }

    /** A newline at position i: the line before it is the first match, or the next line begins. */
    method ScanNewline(b: Str, i: nat, d0: DState, ghost ls: nat, beginText: bool, ghost endText: bool)
      returns (found: bool, d: DState)
      requires Valid() && i < |b| && b[i] == Newline && Scanning(b, ls, i, d0, beginText, endText)
      modifies dstate.Values`next
      ensures Valid()
      ensures if found then FirstMatch(Accepting(prog), b, beginText, endText, i) else Scanning(b, i + 1, i + 1, d, beginText, endText)
    {
      hide Table, Scratch;
      found, d := false, d0;
      AnswerAtNewline(d, LineAt(b, ls, i, beginText, endText));
      if d.matchNL {
        assert Selected(Accepting(prog), b, ls, i, beginText, endText);
        NothingBetween(b, ls, i, beginText, endText);
        found := true;
      } else {
        NothingUpTo(b, ls, i, beginText, endText);
        assert b[i + 1..i + 1] == [];
        d := ReadNewline(d);
      }
    }

    /** One round of the scan: found says that the line ending at i is the first that matches. */
    method ScanByte(b: Str, i: nat, d0: DState, ghost ls0: nat, beginText: bool, ghost endText: bool)
      returns (found: bool, d: DState, ghost ls: nat)
      requires Valid() && i < |b| && Scanning(b, ls0, i, d0, beginText, endText)
      modifies this`dstate, z1, z1.q, z1.q.sparse, z2, z2.q, z2.q.sparse, dstate.Values`next
      ensures Valid() && Grown()
      ensures if found then FirstMatch(Accepting(prog), b, beginText, endText, i) else Scanning(b, ls, i + 1, d, beginText, endText)
    {
      hide Stops, Next, Valid, FirstMatch;
      var c := b[i];
      if c == Newline {
        found, d := ScanNewline(b, i, d0, ls0, beginText, endText);
        ls := i + 1;
      } else {
        found, ls := false, ls0;
        assert b[ls..i + 1] == b[ls..i] + [c];
        d := ReadByte(d0, c, ls == 0 && beginText, b[ls..i]);
      }
    }

    /** The start state of a scan. */
    method ScanStart(b: Str, beginText: bool, ghost endText: bool) returns (d: DState)
      requires Valid()
      ensures Scanning(b, 0, 0, d, beginText, endText)
    {
      d := if beginText then start else startLine;
      assert b[0..0] == [];
    }

    /** The end of the data, which may be the end of the text. */
    method ScanEnd(b: Str, d: DState, ghost ls: nat, beginText: bool, endText: bool) returns (end: int)
      requires Valid() && Scanning(b, ls, |b|, d, beginText, endText)
      ensures FirstMatch(Accepting(prog), b, beginText, endText, end)
    {
      AnswerAtEnd(d, LineAt(b, ls, |b|, beginText, endText));
      if d.matchNL || (endText && d.matchEOT) {
        assert Selected(Accepting(prog), b, ls, |b|, beginText, endText);
        NothingBetween(b, ls, |b|, beginText, endText);
        return |b|;
      }
      NothingUpTo(b, ls, |b|, beginText, endText);
      return -1;
    }

    /** match: the end of the first matching line, or -1. What the cache holds already makes no difference. */
    method Match(b: Str, beginText: bool, endText: bool) returns (end: int)
      requires Valid()
      modifies this`dstate, z1, z1.q, z1.q.sparse, z2, z2.q, z2.q.sparse, dstate.Values`next
      ensures Valid() && Grown() && FirstMatch(Accepting(prog), b, beginText, endText, end)
    {
      hide Stops, Next, Scanning, FirstMatch, Valid;
      var d := ScanStart(b, beginText, endText);
      ghost var ls := 0;
      for i := 0 to |b|
        invariant Valid() && Grown() && Scanning(b, ls, i, d, beginText, endText)
      {
        var found;
        found, d, ls := ScanByte(b, i, d, ls, beginText, endText);
        if found {
          return i;
        }
      }
      end := ScanEnd(b, d, ls, beginText, endText);
    }

    lemma NothingBetween(b: Str, ls: nat, le: nat, beginText: bool, endText: bool)
      requires IsLine(b, ls, le) && NoneEndsBefore(b, ls, beginText, endText)
      ensures forall s: nat, e: nat :: e < le ==> !Selected(Accepting(prog), b, s, e, beginText, endText)
    {
      forall s: nat, e: nat | e < le && Selected(Accepting(prog), b, s, e, beginText, endText)
        ensures false
      {
        LineUnique(b, ls, le, s, e);
      }
    }

    lemma NothingUpTo(b: Str, ls: nat, le: nat, beginText: bool, endText: bool)
      requires IsLine(b, ls, le) && NoneEndsBefore(b, ls, beginText, endText)
      requires !Selected(Accepting(prog), b, ls, le, beginText, endText)
      ensures NoneEndsBefore(b, le + 1, beginText, endText)
    {
      forall s: nat, e: nat | e < le + 1 && Selected(Accepting(prog), b, s, e, beginText, endText)
        ensures false
      {
        LineUnique(b, ls, le, s, e);
      }
    }
  }
}
