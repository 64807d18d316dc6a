/** Trigram queries and their Boolean rewriting (internal/codesearch/index/regexp.go). */
module Queries {
  import opened Bytes
  import opened StringSets

  datatype QueryOp = QAll | QNone | QAnd | QOr

  datatype Query = Query(op: QueryOp, trigram: seq<Str>, sub: seq<Query>)

  const AllQuery := Query(QAll, [], [])
  const NoneQuery := Query(QNone, [], [])
  const EmptyAnd := Query(QAnd, [], [])

  /** QAll and QNone carry nothing; every trigram has three bytes. */
  ghost predicate WellFormed(q: Query) {
    && (q.op.QAll? || q.op.QNone? ==> q.trigram == [] && q.sub == [])
    && (forall t | t in q.trigram :: |t| == 3)
    && (forall s | s in q.sub :: WellFormed(s))
  }

  /** No QAnd without children occurs anywhere in the query. */
  ghost predicate Solid(q: Query) {
    && (q.op.QAnd? ==> q.trigram != [] || q.sub != [])
    && (forall s | s in q.sub :: Solid(s))
  }

  /** What a query says about the set of trigrams of a text. */
  ghost predicate Eval(q: Query, T: set<Str>) {
    match q.op
    case QAll => true
    case QNone => false
    case QAnd => (forall t | t in q.trigram :: t in T) && (forall s | s in q.sub :: Eval(s, T))
    case QOr => (exists t :: t in q.trigram && t in T) || (exists s | s in q.sub :: Eval(s, T))
  }

  ghost predicate Combine(op: QueryOp, a: bool, b: bool) {
    if op.QAnd? then a && b else a || b
  }

  ghost function Count(q: Query): nat
    decreases q, 0
  {
    |q.trigram| + CountAll(q.sub)
  }

  ghost function CountAll(qs: seq<Query>): nat
    decreases qs, 1
  {
    if qs == [] then 0 else Count(qs[0]) + CountAll(qs[1..])
  }

  lemma {:induction false} CountAppend(a: seq<Query>, b: seq<Query>)
    ensures CountAll(a + b) == CountAll(a) + CountAll(b)
  {
    if a == [] {
      assert a + b == b;
    } else {
      assert (a + b)[1..] == a[1..] + b;
      CountAppend(a[1..], b);
    }
  }

  /** A query that mentions more trigrams can only be satisfied more easily by more text. */
  lemma {:induction false} EvalMonotone(q: Query, T: set<Str>, U: set<Str>)
    requires T <= U && Eval(q, T)
    ensures Eval(q, U)
  {
    match q.op {
      case QAnd =>
        forall s | s in q.sub
          ensures Eval(s, U)
        {
          EvalMonotone(s, T, U);
        }
      case QOr =>
        if s :| s in q.sub && Eval(s, T) {
          EvalMonotone(s, T, U);
        }
      case _ =>
    }
  }

  // ------------------------------------------------------------ implication

  predicate TrigramsImply(t: seq<Str>, q: Query)
    decreases q
  {
    match q.op
    case QOr =>
      || (exists s | s in q.sub :: TrigramsImply(t, s))
      || (exists x | x in t :: SubsetFrom([x], q.trigram, 0))
    case QAnd =>
      && (forall s | s in q.sub :: TrigramsImply(t, s))
      && SubsetFrom(q.trigram, t, 0)
    case _ => false
  }

  predicate Implies(q: Query, r: Query) {
    if q.op.QNone? || r.op.QAll? then true
    else if q.op.QAll? || r.op.QNone? then false
    else if q.op.QAnd? || (q.op.QOr? && |q.trigram| == 1 && |q.sub| == 0) then TrigramsImply(q.trigram, r)
    else q.op.QOr? && r.op.QOr? && |q.trigram| > 0 && |q.sub| == 0 && SubsetFrom(q.trigram, r.trigram, 0)
  }

  lemma {:induction false} TrigramsImplySound(t: seq<Str>, q: Query, T: set<Str>)
    requires TrigramsImply(t, q)
    requires forall x | x in t :: x in T
    ensures Eval(q, T)
    decreases q
  {
    if q.op.QOr? {
      if s :| s in q.sub && TrigramsImply(t, s) {
        TrigramsImplySound(t, s, T);
      } else {
        var x :| x in t && SubsetFrom([x], q.trigram, 0);
        SubsetSound([x], q.trigram, 0);
        assert x in q.trigram && x in T;
      }
    } else {
      forall s | s in q.sub
        ensures Eval(s, T)
      {
        TrigramsImplySound(t, s, T);
      }
      SubsetSound(q.trigram, t, 0);
    }
  }

  /** A positive answer of implies is an implication over every text. */
  lemma ImpliesSound(q: Query, r: Query, T: set<Str>)
    requires Implies(q, r) && Eval(q, T)
    ensures Eval(r, T)
  {
    if q.op.QNone? || r.op.QAll? {
    } else if q.op.QAnd? {
      TrigramsImplySound(q.trigram, r, T);
    } else if |q.trigram| == 1 && |q.sub| == 0 {
      assert forall x | x in q.trigram :: x == q.trigram[0];
      TrigramsImplySound(q.trigram, r, T);
    } else {
      SubsetSound(q.trigram, r.trigram, 0);
    }
  }

  /** Holding on a text without trigrams is noticed from any trigram list. */
  lemma {:induction false} TrigramsImplyWeaken(t: seq<Str>, q: Query)
    requires TrigramsImply([], q)
    ensures TrigramsImply(t, q)
    decreases q
  {
    if q.op.QOr? {
      var s :| s in q.sub && TrigramsImply([], s);
      TrigramsImplyWeaken(t, s);
    } else {
      forall s | s in q.sub
        ensures TrigramsImply(t, s)
      {
        TrigramsImplyWeaken(t, s);
      }
      assert q.trigram == [];
    }
  }

  ghost predicate TrueLike(q: Query) {
    q.op.QAll? || TrigramsImply([], q)
  }

  // ------------------------------------------------------------------ andOr

  /** A node whose only child is one sub-query stands for that sub-query. */
  function Unwrap(q: Query): Query {
    if |q.trigram| == 0 && |q.sub| == 1 then q.sub[0] else q
  }

  lemma UnwrapKeeps(q: Query)
    requires WellFormed(q)
    ensures WellFormed(Unwrap(q)) && Count(Unwrap(q)) <= Count(q)
    ensures Solid(q) ==> Solid(Unwrap(q))
    ensures TrigramsImply([], q) ==> TrigramsImply([], Unwrap(q))
    ensures forall T :: Eval(Unwrap(q), T) == Eval(q, T)
  {
    if |q.trigram| == 0 && |q.sub| == 1 {
      assert q.sub[0] in q.sub;
      assert forall s | s in q.sub :: s == q.sub[0];
    }
  }

  /** Two lists hold together exactly what a third one holds. */
  ghost predicate Splits(whole: seq<Str>, a: seq<Str>, b: seq<Str>) {
    && |whole| == |a| + |b|
    && (forall x :: x in whole <==> x in a || x in b)
  }

  /** Merges out the trigrams that both lists hold at the meeting points of one pass. */
  method FactorCommon(q: seq<Str>, r: seq<Str>) returns (q': seq<Str>, r': seq<Str>, common: seq<Str>)
    ensures Splits(q, q', common) && Splits(r, r', common)
  {
    common, q', r' := [], [], [];
    var i, j := 0, 0;
    while i < |q| && j < |r|
      invariant 0 <= i <= |q| && 0 <= j <= |r|
      invariant Splits(q[..i], q', common) && Splits(r[..j], r', common)
      decreases |q| - i + |r| - j
    {
      var qt, rt := q[i], r[j];
      assert q[..i + 1] == q[..i] + [qt] && r[..j + 1] == r[..j] + [rt];
      if Less(qt, rt) {
        q' := q' + [qt];
        i := i + 1;
      } else if Less(rt, qt) {
        r' := r' + [rt];
        j := j + 1;
      } else {
        LessTotal(qt, rt);
        common := common + [qt];
        i, j := i + 1, j + 1;
      }
    }
    while i < |q|
      invariant 0 <= i <= |q|
      invariant Splits(q[..i], q', common)
    {
      assert q[..i + 1] == q[..i] + [q[i]];
      q' := q' + [q[i]];
      i := i + 1;
    }
    while j < |r|
      invariant 0 <= j <= |r|
      invariant Splits(r[..j], r', common)
    {
      assert r[..j + 1] == r[..j] + [r[j]];
      r' := r' + [r[j]];
      j := j + 1;
    }
    assert q[..|q|] == q && r[..|r|] == r;
  }

  ghost predicate Meets(out: Query, q: Query, r: Query, op: QueryOp) {
    && WellFormed(out)
    && Count(out) <= Count(q) + Count(r)
    && (Solid(q) && Solid(r) ==> Solid(out))
    && (forall T :: Eval(out, T) <==> Combine(op, Eval(q, T), Eval(r, T)))
  }

  predicate IsAtom(q: Query) {
    |q.trigram| == 1 && |q.sub| == 0
  }

  predicate Connective(op: QueryOp) {
    op.QAnd? || op.QOr?
  }

  lemma MeetsWhenImplied(q: Query, r: Query, op: QueryOp)
    requires WellFormed(q) && WellFormed(r) && Connective(op)
    ensures Implies(q, r) ==> Meets(if op.QAnd? then q else r, q, r, op)
    ensures Implies(r, q) ==> Meets(if op.QAnd? then r else q, q, r, op)
  {
    forall T
      ensures Implies(q, r) && Eval(q, T) ==> Eval(r, T)
      ensures Implies(r, q) && Eval(r, T) ==> Eval(q, T)
    {
      if Implies(q, r) && Eval(q, T) {
        ImpliesSound(q, r, T);
      }
      if Implies(r, q) && Eval(r, T) {
        ImpliesSound(r, q, T);
      }
    }
  }

  /** The children of a node hold exactly the children of two others. */
  ghost predicate Joins(out: Query, q: Query, r: Query) {
    && (forall x :: x in out.trigram <==> x in q.trigram || x in r.trigram)
    && (forall x :: x in out.sub <==> x in q.sub || x in r.sub)
  }

  lemma JoinMeaning(q: Query, r: Query, out: Query, T: set<Str>)
    requires Joins(out, q, r) && Connective(out.op) && q.op == r.op == out.op
    ensures Eval(out, T) <==> Combine(out.op, Eval(q, T), Eval(r, T))
  {
    if out.op.QAnd? {
    } else if Eval(out, T) {
      if t :| t in out.trigram && t in T {
        assert t in q.trigram || t in r.trigram;
      } else {
        var x :| x in out.sub && Eval(x, T);
        assert x in q.sub || x in r.sub;
      }
    }
  }

  /** A node with one trigram and nothing else means the same under either connective. */
  lemma AtomMeaning(r: Query, op: QueryOp, T: set<Str>)
    requires IsAtom(r) && Connective(r.op) && Connective(op)
    ensures Eval(Query(op, r.trigram, r.sub), T) == Eval(r, T)
  {
    var only := r.trigram[0];
    assert r.trigram == [only] && r.sub == [];
    assert Eval(r, T) == (only in T);
    assert Eval(Query(op, [only], []), T) == (only in T);
  }

  /** Joining the children of two nodes of the same connective, or of a node and a single trigram. */
  lemma MeetsByMerging(q: Query, r: Query, op: QueryOp, trigrams: seq<Str>, out: Query)
    requires WellFormed(q) && WellFormed(r) && Connective(op)
    requires q.op == op && (r.op == op || (IsAtom(r) && Connective(r.op)))
    requires SameElements(trigrams, q.trigram + r.trigram) && |trigrams| <= |q.trigram| + |r.trigram|
    requires out == Query(op, trigrams, q.sub + r.sub)
    ensures Meets(out, q, r, op)
  {
    CountAppend(q.sub, r.sub);
    var r' := Query(op, r.trigram, r.sub);
    assert Joins(out, q, r');
    forall T
      ensures Eval(out, T) <==> Combine(op, Eval(q, T), Eval(r, T))
    {
      JoinMeaning(q, r', out, T);
      if r.op != op {
        AtomMeaning(r, op, T);
      }
    }
    if Solid(q) && Solid(r) {
      JoinIsSolid(q, r, out);
    }
  }

  lemma JoinIsSolid(q: Query, r: Query, out: Query)
    requires Joins(out, q, r) && q.op == out.op && Solid(q) && Solid(r)
    ensures Solid(out)
  {
    if q.trigram != [] {
      assert q.trigram[0] in out.trigram;
    }
    if q.sub != [] {
      assert q.sub[0] in out.sub;
    }
  }

  lemma MeetsByAdding(q: Query, r: Query, op: QueryOp, out: Query)
    requires WellFormed(q) && WellFormed(r) && q.op == op && Connective(op)
    requires out == Query(op, q.trigram, q.sub + [r])
    ensures Meets(out, q, r, op) && Meets(out, r, q, op)
  {
    CountAppend(q.sub, [r]);
    assert forall x :: x in out.sub <==> x in q.sub || x == r;
    forall T
      ensures Eval(out, T) <==> Combine(op, Eval(q, T), Eval(r, T))
    {
      assert r in out.sub;
    }
  }

  lemma MeetsByPairing(q: Query, r: Query, op: QueryOp, out: Query)
    requires WellFormed(q) && WellFormed(r) && Connective(op)
    requires out == Query(op, [], [q, r])
    ensures Meets(out, q, r, op)
  {
    assert CountAll(out.sub) == Count(q) + CountAll([r]) && CountAll([r]) == Count(r);
    assert forall x :: x in out.sub <==> x == q || x == r;
    forall T
      ensures Eval(out, T) <==> Combine(op, Eval(q, T), Eval(r, T))
    {
      assert q in out.sub && r in out.sub;
    }
  }

  /** Taking the common trigrams out of a node leaves a node that, with them, means the same. */
  lemma FactoredMeaning(q: Query, kept: seq<Str>, common: seq<Str>, T: set<Str>)
    requires Connective(q.op) && Splits(q.trigram, kept, common)
    ensures Eval(q, T) <==> Combine(q.op, Eval(Query(q.op, common, []), T), Eval(Query(q.op, kept, q.sub), T))
  {
  }

  /** The two halves of a factoring step, put back together. */
  lemma MeetsByFactoring(q: Query, r: Query, op: QueryOp, q1: Query, r1: Query, t: Query, s: Query, out: Query)
    requires Connective(op) && Connective(t.op) && t.op != op && q.op == r.op == q1.op == r1.op == t.op
    requires WellFormed(q) && WellFormed(r) && t.trigram != [] && t.sub == []
    requires Splits(q.trigram, q1.trigram, t.trigram) && q1.sub == q.sub
    requires Splits(r.trigram, r1.trigram, t.trigram) && r1.sub == r.sub
    requires Meets(s, q1, r1, op) && Meets(out, t, s, t.op)
    requires op.QOr? && (q1 == EmptyAnd || r1 == EmptyAnd) ==> out == t
    ensures Meets(out, q, r, op)
  {
    forall T
      ensures Eval(out, T) <==> Combine(op, Eval(q, T), Eval(r, T))
    {
      FactoredMeaning(q, q1.trigram, t.trigram, T);
      FactoredMeaning(r, r1.trigram, t.trigram, T);
    }
    assert Count(t) == |t.trigram|;
    if Solid(q) && Solid(r) {
      assert Solid(t);
      if out != t {
        SolidParts(q, q1);
        SolidParts(r, r1);
      }
    }
  }

  lemma AtomEval(q: Query, T: set<Str>)
    requires IsAtom(q) && Connective(q.op)
    ensures Eval(q, T) <==> q.trigram[0] in T
  {
    assert q.trigram == [q.trigram[0]];
  }

  lemma PairOfAtoms(q: Query, r: Query, op: QueryOp, out: Query)
    requires WellFormed(q) && WellFormed(r) && IsAtom(q) && IsAtom(r) && Connective(q.op) && Connective(r.op)
    requires Connective(op) && out == Query(op, q.trigram + r.trigram, q.sub)
    ensures Meets(out, q, r, op)
  {
    var a, b := q.trigram[0], r.trigram[0];
    assert out.trigram == [a, b];
    forall T
      ensures Eval(out, T) <==> Combine(op, Eval(q, T), Eval(r, T))
    {
      AtomEval(q, T);
      AtomEval(r, T);
      assert Eval(out, T) <==> Combine(op, a in T, b in T);
    }
  }

  /** A conjunction of trigrams implies, in the eyes of implies itself, every visibly true query. */
  lemma TrueLikeIsImplied(t: Query, s: Query)
    requires WellFormed(s) && TrueLike(s) && t.op.QAnd?
    ensures Implies(t, Unwrap(s))
  {
    UnwrapKeeps(s);
    if !Unwrap(s).op.QAll? {
      TrigramsImplyWeaken(t.trigram, Unwrap(s));
    }
  }

  lemma SolidParts(q: Query, q1: Query)
    requires Solid(q) && q1.sub == q.sub
    requires q1.op.QAnd? ==> q1 != EmptyAnd
    ensures Solid(q1)
  {
  }

  lemma MeetsUnwrapped(out: Query, q0: Query, r0: Query, op: QueryOp)
    requires WellFormed(q0) && WellFormed(r0) && Connective(op)
    requires Meets(out, Unwrap(q0), Unwrap(r0), op)
    ensures Meets(out, q0, r0, op)
  {
    UnwrapKeeps(q0);
    UnwrapKeeps(r0);
  }

  /** andOr: the conjunction or disjunction of two queries, simplified. */
  method AndOr(q0: Query, r0: Query, op: QueryOp) returns (out: Query)
    requires Connective(op) && WellFormed(q0) && WellFormed(r0)
    ensures Meets(out, q0, r0, op)
    ensures Implies(Unwrap(q0), Unwrap(r0)) ==> out == if op.QAnd? then Unwrap(q0) else Unwrap(r0)
    ensures op.QOr? && (q0 == EmptyAnd || r0 == EmptyAnd) ==> TrueLike(out)
    decreases Count(q0) + Count(r0), 2
  {
    var q, r := Unwrap(q0), Unwrap(r0);
    UnwrapKeeps(q0);
    UnwrapKeeps(r0);
    if Implies(q, r) {
      MeetsWhenImplied(q, r, op);
      out := if op.QAnd? then q else r;
    } else if Implies(r, q) {
      MeetsWhenImplied(q, r, op);
      out := if op.QAnd? then r else q;
    } else {
      out := AndOrUnimplied(q, r, op);
    }
    MeetsUnwrapped(out, q0, r0, op);
  }

  lemma MeetsSwapped(out: Query, q: Query, r: Query, op: QueryOp)
    requires Meets(out, q, r, op)
    ensures Meets(out, r, q, op)
  {
  }

  lemma AddedEmptyAnd(trigrams: seq<Str>, sub: seq<Query>)
    ensures TrueLike(Query(QOr, trigrams, sub + [EmptyAnd]))
  {
    assert EmptyAnd in sub + [EmptyAnd] && TrigramsImply([], EmptyAnd);
  }

  lemma ConnectivesLeft(q: Query, r: Query)
    requires !Implies(q, r) && !Implies(r, q)
    ensures Connective(q.op) && Connective(r.op)
  {
  }

  /** The part of andOr for queries of which neither implies the other. */
  method AndOrUnimplied(q: Query, r: Query, op: QueryOp) returns (out: Query)
    requires Connective(op) && WellFormed(q) && WellFormed(r) && !Implies(q, r) && !Implies(r, q)
    ensures Meets(out, q, r, op)
    ensures op.QOr? && (q == EmptyAnd || r == EmptyAnd) ==> TrueLike(out)
    decreases Count(q) + Count(r), 1
  {
    ConnectivesLeft(q, r);
    assert r == EmptyAnd ==> !q.op.QAnd?;
    assert q == EmptyAnd ==> !r.op.QAnd?;
    hide Meets, Implies;
    var qAtom, rAtom := IsAtom(q), IsAtom(r);
    if q.op == op && (r.op == op || rAtom) {
      var u := Union(q.trigram, r.trigram, false);
      out := Query(op, u, q.sub + r.sub);
      MeetsByMerging(q, r, op, u, out);
    } else if r.op == op && qAtom {
      var u := Union(r.trigram, q.trigram, false);
      out := Query(op, u, r.sub);
      assert r.sub + q.sub == r.sub;
      MeetsByMerging(r, q, op, u, out);
      MeetsSwapped(out, r, q, op);
    } else if qAtom && rAtom {
      out := Query(op, q.trigram + r.trigram, q.sub);
      PairOfAtoms(q, r, op, out);
    } else if q.op == op {
      out := Query(op, q.trigram, q.sub + [r]);
      MeetsByAdding(q, r, op, out);
      AddedEmptyAnd(q.trigram, q.sub);
    } else if r.op == op {
      AddedEmptyAnd(r.trigram, r.sub);
      out := Query(op, r.trigram, r.sub + [q]);
      MeetsByAdding(r, q, op, out);
      MeetsSwapped(out, r, q, op);
    } else {
      out := AndOrOfOpposites(q, r, op);
    }
  }

  /** The last part of andOr: an AND of ORs or an OR of ANDs, with the common trigrams factored out. */
  method AndOrOfOpposites(q: Query, r: Query, op: QueryOp) returns (out: Query)
    requires Connective(op) && WellFormed(q) && WellFormed(r)
    requires Connective(q.op) && q.op == r.op != op
    ensures Meets(out, q, r, op)
    decreases Count(q) + Count(r), 0
  {
    var q', r', common := FactorCommon(q.trigram, r.trigram);
    if |common| > 0 {
      var q1, r1 := Query(q.op, q', q.sub), Query(r.op, r', r.sub);
      var s := AndOr(q1, r1, op);
      var t := Query(q.op, common, []);
      assert Count(t) == |common|;
      out := AndOr(t, s, q.op);
      if op.QOr? && (q1 == EmptyAnd || r1 == EmptyAnd) {
        TrueLikeIsImplied(t, s);
      }
      MeetsByFactoring(q, r, op, q1, r1, t, s, out);
    } else {
      out := Query(op, [], [q, r]);
      MeetsByPairing(q, r, op, out);
    }
  }
}
