/** Rune ranges as byte automata (internal/codesearch/regexp/utf.go). */
module UtfRanges {
  import opened Bytes
  import opened Utf8
  import opened RuneRanges
  import opened ByteProgram

  // --------------------------------------------------------------------- the automaton

  /** From pc, the bytes of w lead to out, which is not passed before. */
  ghost predicate Chain(inst: seq<Inst>, pc: nat, out: nat, w: Str)
    decreases |w|
  {
    if w == [] then pc == out
    else pc != out && pc < |inst| && Accepts(inst[pc], w[0]) && Chain(inst, inst[pc].out, out, w[1..])
  }

  /** The branches at an instruction: its target, or both targets of an Alt, of which the second may be
      another such Alt further on. */
  ghost function Targets(inst: seq<Inst>, pc: nat): set<nat>
    requires pc < |inst|
    decreases |inst| - pc
  {
    match inst[pc]
    case Nop(out) => {out}
    case Alt(out, arg) => {out} + if pc < arg < |inst| && inst[arg].Alt? then Targets(inst, arg) else {arg}
    case _ => {}
  }

  /** The byte strings that lead from begin to out. */
  ghost predicate Accepted(inst: seq<Inst>, begin: nat, out: nat, w: Str)
    requires begin < |inst|
  {
    exists t :: t in Targets(inst, begin) && Chain(inst, t, out, w)
  }

  datatype CacheKey = CacheKey(lo: Byte, hi: Byte, fold: bool, next: nat)

  /** Instructions of the automaton lead forward to out or back to earlier ones of it. */
  ghost predicate Suffixes(inst: seq<Inst>, first: nat, out: nat) {
    forall pc :: first <= pc < |inst| ==>
      inst[pc].Alt? ||
      (inst[pc].ByteRange? && (inst[pc].out == out || (first <= inst[pc].out < pc && inst[inst[pc].out].ByteRange?)))
  }

  /** What every step of the builder leaves as it is. */
  ghost predicate Kept(inst: seq<Inst>, inst': seq<Inst>, first: nat) {
    && |inst| <= |inst'|
    && (forall k :: first <= k < |inst| && inst[k].ByteRange? ==> inst'[k] == inst[k])
    && (forall k :: first <= k < |inst| && inst[k].Alt? ==> inst'[k].Alt?)
  }

  /** Chains of byte ranges do not notice changes elsewhere. */
  lemma {:induction false} ChainKept(inst: seq<Inst>, inst': seq<Inst>, first: nat, pc: nat, out: nat, w: Str)
    requires Suffixes(inst, first, out) && out < first && (pc == out || first <= pc < |inst|)
    requires first <= |inst| && Kept(inst, inst', first)
    ensures Chain(inst, pc, out, w) <==> Chain(inst', pc, out, w)
    decreases |w|
  {
    if w != [] && pc != out && inst[pc].ByteRange? {
      ChainKept(inst, inst', first, inst[pc].out, out, w[1..]);
    }
  }

  // ----------------------------------------------------------------------- runeBuilder

  class RuneBuilder {
    /** The instructions of the program. */
    var inst: seq<Inst>
    var begin: nat
    const out: nat
    var cache: map<CacheKey, nat>
    /** Where the machine is entered, how many instructions the program had, the Alts that lead to the
        branches, and the branches. */
    ghost const entry: nat
    ghost const first: nat
    ghost const program: seq<Inst>
    ghost var chain: seq<nat>
    ghost var branches: seq<nat>

    ghost predicate Valid()
      reads this
    {
      && entry < first <= |inst| && out < first
      && Suffixes(inst, first, out) && Cached() && Linked() && Untouched(program, inst, entry)
      && |program| == first
    }

    ghost predicate Cached()
      reads this`inst, this`cache
    {
      CachedAs(inst, first, out, cache)
    }

    ghost predicate Linked()
      reads this`inst, this`begin, this`chain, this`branches
    {
      LinkedAs(inst, begin, entry, first, chain, branches)
    }

    /** init: the machine accepts nothing yet. */
    constructor (inst: seq<Inst>, begin: nat, out: nat)
      requires begin < |inst| && out < |inst|
      ensures Valid() && branches == [] && entry == begin && this.out == out && first == |inst|
      ensures this.inst == inst[begin := Fail] && program == inst
    {
      program := inst;
      this.inst := inst[begin := Fail];
      this.begin := begin;
      this.out := out;
      cache := map[];
      entry, first, chain, branches := begin, |inst|, [begin], [];
    }

    method UncachedSuffix(lo: Byte, hi: Byte, fold: bool, next0: nat) returns (pc: nat)
      requires Valid() && (next0 == 0 || next0 == out || (first <= next0 < |inst| && inst[next0].ByteRange?))
      modifies this`inst
      ensures Valid() && pc == |old(inst)| && inst == old(inst) + [ByteRange(lo, hi, fold, if next0 == 0 then out else next0)]
    {
      var next := next0;
      if next == 0 {
        next := out;
      }
      pc := |inst|;
      UntouchedMore(program, inst, entry, ByteRange(lo, hi, fold, next));
      OneMoreInst(inst, first, out, begin, entry, chain, branches, cache, ByteRange(lo, hi, fold, next));
      hide LinkedAs, CachedAs, Suffixes, Untouched;
      inst := inst + [ByteRange(lo, hi, fold, next)];
    }

    /** suffix: an instruction for a byte range before next; continuation bytes are shared. */
    method Suffix(lo: Byte, hi: Byte, fold: bool, next: nat) returns (pc: nat)
      requires Valid() && (next == 0 || next == out || (first <= next < |inst| && inst[next].ByteRange?))
      modifies this`inst, this`cache
      ensures Valid() && first <= pc < |inst| && old(inst) <= inst
      ensures inst[pc] == ByteRange(lo, hi, fold, if next == 0 then out else next)
    {
      if lo < 0x80 || hi > 0xBF {
        pc := UncachedSuffix(lo, hi, fold, next);
        return;
      }
      var key := CacheKey(lo, hi, fold, next);
      if key in cache {
        return cache[key];
      }
      pc := UncachedSuffix(lo, hi, fold, next);
      cache := cache[key := pc];
    }

    /** addBranch: one more branch at the entry. */
    method AddBranch(pc: nat)
      requires Valid() && first <= pc < |inst| && inst[pc].ByteRange?
      modifies this`inst, this`begin, this`chain, this`branches
      ensures Valid() && branches == old(branches) + [pc] && Kept(old(inst), inst, first)
    {
      ghost var before := inst;
      hide LinkedAs, Suffixes, CachedAs, Untouched;
      Link(pc);
      SuffixesKept(before, inst, first, out);
      CacheKept(before, inst, first, out, cache);
    }

    method Link(pc: nat)
      requires Linked() && first <= pc < |inst| && inst[pc].ByteRange? && Suffixes(inst, first, out)
      requires Untouched(program, inst, entry) && |program| == first
      modifies this`inst, this`begin, this`chain, this`branches
      ensures Untouched(program, inst, entry)
      ensures Linked() && branches == old(branches) + [pc] && Kept(old(inst), inst, first)
      ensures forall k :: |old(inst)| <= k < |inst| ==> inst[k].Alt?
    {
      hide LinkedAs, Suffixes;
      KindOfBegin(inst, begin, entry, first, chain, branches);
      BeginOutside(inst, begin, entry, first, chain, branches);
      var i := inst[begin];
      if i.Fail? {
        AddFirst(inst, begin, entry, first, chain, branches, pc);
        inst := inst[begin := Nop(pc)];
      } else if i.Nop? {
        AddSecond(inst, begin, entry, first, chain, branches, pc);
        inst := inst[begin := Alt(i.out, pc)];
      } else {
        AddMore(inst, begin, entry, first, chain, branches, pc);
        var apc := |inst|;
        inst := inst + [Alt(i.arg, pc)];
        inst := inst[begin := Alt(i.out, apc)];
        begin := apc;
        chain := chain + [apc];
      }
      branches := branches + [pc];
    }

    /** The byte strings that some branch takes to out. */
    ghost predicate Takes(w: Str)
      reads this`inst, this`branches
    {
      TakenBy(inst, branches, out, w)
    }

    /** They are those that are accepted at the entry. */
    lemma TakesAtEntry(w: Str)
      requires Valid()
      ensures Takes(w) <==> Accepted(inst, entry, out, w)
    {
      TargetsAtEntry(inst, begin, entry, first, chain, branches);
    }

    /** The instructions for the bytes from i on of a leaf. */
    ghost predicate LeadsOn(pc: nat, lo: Str, hi: Str)
      reads this`inst
    {
      first <= pc < |inst| && inst[pc].ByteRange? && forall w :: Chain(inst, pc, out, w) <==> Between(w, lo, hi)
    }

    /** One more byte range before the instructions for the rest. */
    method Prepend(lo: Byte, hi: Byte, next: nat, ghost los: Str, ghost his: Str) returns (pc: nat)
      requires Valid() && |los| == |his|
      requires if los == [] then next == 0 else LeadsOn(next, los, his)
      modifies this`inst, this`cache
      ensures Valid() && old(inst) <= inst && LeadsOn(pc, [lo] + los, [hi] + his)
    {
      hide LinkedAs, CachedAs, Suffixes, Between;
      ghost var before := inst;
      pc := Suffix(lo, hi, false, next);
      forall w
        ensures Chain(inst, pc, out, w) <==> Between(w, [lo] + los, [hi] + his)
      {
        OneByteMore(before, inst, first, pc, out, lo, hi, if next == 0 then out else next, los, his, w);
      }
    }

    /** The end of addRange: byte ranges for a leaf, from the last byte to the first. */
    method AddLeaf(lo: nat, hi: nat)
      requires Valid() && lo <= hi <= MaxRune && EncodedLen(lo) == EncodedLen(hi)
      modifies this`inst, this`cache, this`begin, this`chain, this`branches
      ensures Valid() && forall w :: Takes(w) <==> old(Takes(w)) || Between(w, EncodeRune(lo), EncodeRune(hi))
    {
      hide LinkedAs, CachedAs, Suffixes, Between, Chain, TakenBy;
      ghost var before, old_ := inst, branches;
      var ulo, uhi := EncodeRune(lo), EncodeRune(hi);
      SameLength(lo, hi);
      BranchesInPlace();
      var pc := LeafSuffixes(ulo, uhi);
      PrefixKept(before, inst, first);
      BranchesKept(before, inst, first, out, old_);
      TakeBranch(pc, ulo, uhi);
    }

    /** addRange for ASCII characters: a single byte range. */
    method AddAscii(lo: Byte, hi: Byte)
      requires Valid() && lo <= hi < 0x80
      modifies this`inst, this`cache, this`begin, this`chain, this`branches
      ensures Valid() && forall w :: Takes(w) <==> old(Takes(w)) || Between(w, EncodeRune(lo), EncodeRune(hi))
    {
      hide LinkedAs, CachedAs, Suffixes, Between, Chain, TakenBy;
      ghost var before, old_ := inst, branches;
      BranchesInPlace();
      var pc := Prepend(lo, hi, 0, [], []);
      PrefixKept(before, inst, first);
      BranchesKept(before, inst, first, out, old_);
      assert EncodeRune(lo) == [lo] + [] && EncodeRune(hi) == [hi] + [];
      TakeBranch(pc, EncodeRune(lo), EncodeRune(hi));
    }

    method LeafSuffixes(ulo: Str, uhi: Str) returns (pc: nat)
      requires Valid() && 0 < |ulo| == |uhi|
      modifies this`inst, this`cache
      ensures Valid() && old(inst) <= inst && LeadsOn(pc, ulo, uhi)
    {
      hide LinkedAs, CachedAs, Suffixes, LeadsOn;
      var i := |ulo|;
      pc := 0;
      assert ulo[i..] == [] && uhi[i..] == [];
      while i > 0
        invariant 0 <= i <= |ulo| && Valid() && old(inst) <= inst
        invariant if i == |ulo| then pc == 0 else LeadsOn(pc, ulo[i..], uhi[i..])
      {
        i := i - 1;
        assert ulo[i..] == [ulo[i]] + ulo[i + 1..] && uhi[i..] == [uhi[i]] + uhi[i + 1..];
        pc := Prepend(ulo[i], uhi[i], pc, ulo[i + 1..], uhi[i + 1..]);
      }
      assert ulo[0..] == ulo && uhi[0..] == uhi;
    }

    lemma BranchesInPlace()
      requires Linked()
      ensures forall k :: 0 <= k < |branches| ==> first <= branches[k] < |inst|
    {
    }

    method TakeBranch(pc: nat, ghost ulo: Str, ghost uhi: Str)
      requires Valid() && LeadsOn(pc, ulo, uhi)
      modifies this`inst, this`begin, this`chain, this`branches
      ensures Valid() && forall w :: Takes(w) <==> old(Takes(w)) || Between(w, ulo, uhi)
    {
      hide LinkedAs, CachedAs, Suffixes, Between, Chain, TakenBy;
      ghost var before, bs := inst, branches;
      BranchesInPlace();
      AddBranch(pc);
      BranchesKept(before, inst, first, out, bs);
      forall w
        ensures Takes(w) <==> TakenBy(inst, bs, out, w) || Between(w, ulo, uhi)
      {
        ChainKept(before, inst, first, pc, out, w);
        OneMoreBranch(inst, bs, pc, out, w);
      }
    }
  }

  /** The instructions of the program other than the entry are as they were. */
  ghost predicate Untouched(program: seq<Inst>, inst: seq<Inst>, entry: nat) {
    |program| <= |inst| && forall k :: 0 <= k < |program| && k != entry ==> inst[k] == program[k]
  }

  lemma UntouchedMore(program: seq<Inst>, inst: seq<Inst>, entry: nat, i: Inst)
    requires Untouched(program, inst, entry)
    ensures Untouched(program, inst + [i], entry)
  {
  }

  lemma BeginOutside(inst: seq<Inst>, begin: nat, entry: nat, first: nat, chain: seq<nat>, branches: seq<nat>)
    requires LinkedAs(inst, begin, entry, first, chain, branches)
    ensures begin == entry || begin >= first
  {
  }

  lemma OneMoreInst(inst: seq<Inst>, first: nat, out: nat, begin: nat, entry: nat, chain: seq<nat>, branches: seq<nat>,
                    cache: map<CacheKey, nat>, i: Inst)
    requires Suffixes(inst, first, out) && CachedAs(inst, first, out, cache) && first <= |inst|
    requires LinkedAs(inst, begin, entry, first, chain, branches)
    requires i.ByteRange? && (i.out == out || (first <= i.out < |inst| && inst[i.out].ByteRange?))
    ensures Suffixes(inst + [i], first, out) && CachedAs(inst + [i], first, out, cache)
    ensures LinkedAs(inst + [i], begin, entry, first, chain, branches)
  {
  }

  ghost predicate TakenBy(inst: seq<Inst>, branches: seq<nat>, out: nat, w: Str) {
    exists b :: b in branches && Chain(inst, b, out, w)
  }

  lemma OneMoreBranch(inst: seq<Inst>, bs: seq<nat>, pc: nat, out: nat, w: Str)
    ensures TakenBy(inst, bs + [pc], out, w) <==> TakenBy(inst, bs, out, w) || Chain(inst, pc, out, w)
  {
    hide Chain;
    if b :| b in bs && Chain(inst, b, out, w) {
      assert b in bs + [pc];
    }
    assert pc in bs + [pc];
  }

  lemma BranchesKept(inst: seq<Inst>, inst': seq<Inst>, first: nat, out: nat, bs: seq<nat>)
    requires Suffixes(inst, first, out) && out < first <= |inst| && Kept(inst, inst', first)
    requires forall k :: 0 <= k < |bs| ==> first <= bs[k] < |inst|
    ensures forall w :: TakenBy(inst', bs, out, w) <==> TakenBy(inst, bs, out, w)
  {
    hide Suffixes, Kept, Chain;
    forall w
      ensures TakenBy(inst', bs, out, w) <==> TakenBy(inst, bs, out, w)
    {
      forall b | b in bs
        ensures Chain(inst', b, out, w) <==> Chain(inst, b, out, w)
      {
        ChainKept(inst, inst', first, b, out, w);
      }
    }
  }

  lemma PrefixKept(inst: seq<Inst>, inst': seq<Inst>, first: nat)
    requires inst <= inst'
    ensures Kept(inst, inst', first)
  {
  }

  lemma SameLength(lo: nat, hi: nat)
    requires lo <= hi <= MaxRune && EncodedLen(lo) == EncodedLen(hi)
    ensures |EncodeRune(lo)| == |EncodeRune(hi)|
  {
  }

  /** A byte range before instructions for the rest of the bytes. */
  lemma OneByteMore(before: seq<Inst>, inst: seq<Inst>, first: nat, pc: nat, out: nat, lo: Byte, hi: Byte, next: nat,
                    los: Str, his: Str, w: Str)
    requires Suffixes(before, first, out) && out < first <= |before| && before <= inst && |los| == |his|
    requires first <= pc < |inst| && inst[pc] == ByteRange(lo, hi, false, next)
    requires if los == [] then next == out else first <= next < |before|
    requires los != [] ==> forall v :: Chain(before, next, out, v) <==> Between(v, los, his)
    ensures Chain(inst, pc, out, w) <==> Between(w, [lo] + los, [hi] + his)
  {
    PrefixKept(before, inst, first);
    if w != [] {
      ChainKept(before, inst, first, next, out, w[1..]);
      BetweenHead(w, lo, hi, los, his);
      if los == [] {
        AtOut(before, out, w[1..], his);
      }
    }
  }

  lemma AtOut(inst: seq<Inst>, out: nat, v: Str, his: Str)
    requires his == []
    ensures Chain(inst, out, out, v) <==> Between(v, [], his)
  {
  }

  lemma BetweenHead(w: Str, lo: Byte, hi: Byte, los: Str, his: Str)
    requires w != [] && |los| == |his|
    ensures Between(w, [lo] + los, [hi] + his) <==> lo <= w[0] <= hi && Between(w[1..], los, his)
  {
    var a, b := [lo] + los, [hi] + his;
    var v := w[1..];
    if Between(w, a, b) {
      forall k | 0 <= k < |v|
        ensures los[k] <= v[k] <= his[k]
      {
        assert a[k + 1] <= w[k + 1] <= b[k + 1];
      }
      assert a[0] <= w[0] <= b[0];
    }
    if lo <= w[0] <= hi && Between(w[1..], los, his) {
      forall k | 0 <= k < |w|
        ensures a[k] <= w[k] <= b[k]
      {
        if k > 0 {
          assert los[k - 1] <= v[k - 1] <= his[k - 1];
        }
      }
    }
  }

  // ------------------------------------------------------------- the chain of branches

  /** Where the Alt at position k of the chain leads besides its branch. */
  function NextOf(chain: seq<nat>, branches: seq<nat>, k: nat): nat
    requires k < |chain| && |branches| == |chain| + 1
  {
    if k == |chain| - 1 then branches[k + 1] else chain[k + 1]
  }

  ghost predicate InPlace(inst: seq<Inst>, entry: nat, first: nat, chain: seq<nat>, branches: seq<nat>) {
    && entry < first <= |inst| && chain != [] && chain[0] == entry
    && (forall k :: 0 <= k < |branches| ==> first <= branches[k] < |inst| && inst[branches[k]].ByteRange?)
    && (forall j, k :: 0 <= j < k < |chain| ==> chain[j] < chain[k])
    && (forall k :: 0 <= k < |chain| ==> chain[k] < |inst| && (k > 0 ==> first <= chain[k]))
  }

  /** The Alts are linked from the entry on, and the last one is begin. */
  ghost predicate LinkedAs(inst: seq<Inst>, begin: nat, entry: nat, first: nat, chain: seq<nat>, branches: seq<nat>) {
    && InPlace(inst, entry, first, chain, branches) && chain[|chain| - 1] == begin
    && |chain| == (if |branches| <= 1 then 1 else |branches| - 1)
    && (|branches| == 0 ==> inst[entry] == Fail)
    && (|branches| == 1 ==> inst[entry] == Nop(branches[0]))
    && (|branches| >= 2 ==> forall k :: 0 <= k < |chain| ==> inst[chain[k]] == Alt(branches[k], NextOf(chain, branches, k)))
  }

  lemma SuffixesKept(inst: seq<Inst>, inst': seq<Inst>, first: nat, out: nat)
    requires Suffixes(inst, first, out) && Kept(inst, inst', first) && forall k :: |inst| <= k < |inst'| ==> inst'[k].Alt?
    ensures Suffixes(inst', first, out)
  {
  }

  ghost predicate CachedAs(inst: seq<Inst>, first: nat, out: nat, cache: map<CacheKey, nat>) {
    forall key :: key in cache ==>
      && first <= cache[key] < |inst|
      && inst[cache[key]] == ByteRange(key.lo, key.hi, key.fold, if key.next == 0 then out else key.next)
  }

  lemma CacheKept(inst: seq<Inst>, inst': seq<Inst>, first: nat, out: nat, cache: map<CacheKey, nat>)
    requires CachedAs(inst, first, out, cache) && Kept(inst, inst', first)
    ensures CachedAs(inst', first, out, cache)
  {
  }

  lemma KindOfBegin(inst: seq<Inst>, begin: nat, entry: nat, first: nat, chain: seq<nat>, branches: seq<nat>)
    requires LinkedAs(inst, begin, entry, first, chain, branches)
    ensures begin < |inst| && first <= |inst|
    ensures inst[begin].Fail? <==> |branches| == 0
    ensures inst[begin].Nop? <==> |branches| == 1
    ensures inst[begin].Alt? <==> |branches| >= 2
    ensures |branches| < 2 ==> begin < first
  {
    var n := |chain| - 1;
    assert |branches| >= 2 ==> inst[chain[n]] == Alt(branches[n], NextOf(chain, branches, n));
  }

  lemma AddFirst(inst: seq<Inst>, begin: nat, entry: nat, first: nat, chain: seq<nat>, branches: seq<nat>, pc: nat)
    requires LinkedAs(inst, begin, entry, first, chain, branches) && first <= pc < |inst| && inst[pc].ByteRange?
    requires |branches| == 0
    ensures LinkedAs(inst[begin := Nop(pc)], begin, entry, first, chain, branches + [pc])
  {
  }

  lemma AddSecond(inst: seq<Inst>, begin: nat, entry: nat, first: nat, chain: seq<nat>, branches: seq<nat>, pc: nat)
    requires LinkedAs(inst, begin, entry, first, chain, branches) && first <= pc < |inst| && inst[pc].ByteRange?
    requires |branches| == 1
    ensures LinkedAs(inst[begin := Alt(inst[begin].out, pc)], begin, entry, first, chain, branches + [pc])
  {
  }

  lemma AddMore(inst: seq<Inst>, begin: nat, entry: nat, first: nat, chain: seq<nat>, branches: seq<nat>, pc: nat)
    requires LinkedAs(inst, begin, entry, first, chain, branches) && first <= pc < |inst| && inst[pc].ByteRange?
    requires |branches| >= 2 && inst[begin].Alt?
    ensures LinkedAs((inst + [Alt(inst[begin].arg, pc)])[begin := Alt(inst[begin].out, |inst|)], |inst|, entry, first,
                     chain + [|inst|], branches + [pc])
  {
    var n := |chain| - 1;
    assert inst[chain[n]] == Alt(branches[n], NextOf(chain, branches, n));
    var inst', chain', branches' := (inst + [Alt(inst[begin].arg, pc)])[begin := Alt(inst[begin].out, |inst|)], chain + [|inst|], branches + [pc];
    ChainInPlace(inst, inst', entry, first, chain, branches, pc);
    forall k | 0 <= k < |chain'|
      ensures chain'[k] < |inst'| && inst'[chain'[k]] == Alt(branches'[k], NextOf(chain', branches', k))
    {
      if k < n {
        assert inst[chain[k]] == Alt(branches[k], NextOf(chain, branches, k));
        assert chain[k] < chain[n] < |inst|;
        hide LinkedAs, InPlace;
        assert chain'[k] == chain[k] && branches'[k] == branches[k] && inst'[chain[k]] == inst[chain[k]];
      }
    }
    hide InPlace;
  }

  lemma ChainInPlace(inst: seq<Inst>, inst': seq<Inst>, entry: nat, first: nat, chain: seq<nat>, branches: seq<nat>, pc: nat)
    requires InPlace(inst, entry, first, chain, branches) && first <= pc < |inst| && inst[pc].ByteRange?
    requires |inst'| == |inst| + 1 && forall k :: 0 <= k < |inst| && inst[k].ByteRange? ==> inst'[k] == inst[k]
    ensures InPlace(inst', entry, first, chain + [|inst|], branches + [pc])
  {
  }

  ghost function Members(s: seq<nat>): set<nat> {
    set x | x in s
  }

  lemma MembersHead(s: seq<nat>, k: nat)
    requires k < |s|
    ensures Members(s[k..]) == {s[k]} + Members(s[k + 1..])
  {
    assert s[k..] == [s[k]] + s[k + 1..];
  }

  lemma {:induction false} TargetsFrom(inst: seq<Inst>, begin: nat, entry: nat, first: nat, chain: seq<nat>, branches: seq<nat>, k: nat)
    requires LinkedAs(inst, begin, entry, first, chain, branches) && |branches| >= 2 && k < |chain|
    ensures chain[k] < |inst| && Targets(inst, chain[k]) == Members(branches[k..])
    decreases |chain| - k
  {
    LinkAt(inst, begin, entry, first, chain, branches, k);
    MembersHead(branches, k);
    if k < |chain| - 1 {
      TargetsFrom(inst, begin, entry, first, chain, branches, k + 1);
      LinkAt(inst, begin, entry, first, chain, branches, k + 1);
      hide LinkedAs, InPlace, Members;
      assert NextOf(chain, branches, k) == chain[k + 1];
    } else {
      MembersHead(branches, k + 1);
      hide LinkedAs, InPlace;
      assert branches[k + 2..] == [];
    }
  }

  lemma LinkAt(inst: seq<Inst>, begin: nat, entry: nat, first: nat, chain: seq<nat>, branches: seq<nat>, k: nat)
    requires LinkedAs(inst, begin, entry, first, chain, branches) && |branches| >= 2 && k < |chain|
    ensures |branches| == |chain| + 1 && chain[k] < |inst| && inst[chain[k]] == Alt(branches[k], NextOf(chain, branches, k))
    ensures k == |chain| - 1 ==> NextOf(chain, branches, k) < |inst| && inst[NextOf(chain, branches, k)].ByteRange?
    ensures k < |chain| - 1 ==> chain[k] < chain[k + 1]
  {
  }

  /** The branches at the entry are the branches that were added. */
  lemma TargetsAtEntry(inst: seq<Inst>, begin: nat, entry: nat, first: nat, chain: seq<nat>, branches: seq<nat>)
    requires LinkedAs(inst, begin, entry, first, chain, branches)
    ensures entry < |inst| && Targets(inst, entry) == Members(branches)
  {
    if |branches| >= 2 {
      TargetsFrom(inst, begin, entry, first, chain, branches, 0);
      assert branches[0..] == branches;
    }
  }

  /** addRange: adds what is accepted for lo to hi to what is accepted already. */
  method AddRange(b: RuneBuilder, lo: nat, hi: nat)
    requires b.Valid() && hi <= MaxRune
    modifies b`inst, b`cache, b`begin, b`chain, b`branches
    ensures b.Valid() && forall w :: b.Takes(w) <==> old(b.Takes(w)) || Lang(lo, hi, w)
    decreases if lo <= hi then hi - lo + 1 else 0, 1
  {
    hide RuneBuilder.Valid, RuneBuilder.Takes, Split, Lang, TailSplit;
    if lo > hi {
      NothingIn(lo, hi);
      return;
    }
    for i := 1 to 4
      invariant b.Valid() && b.inst == old(b.inst) && b.branches == old(b.branches)
      invariant forall j :: 1 <= j < i ==> OneSide(lo, hi, j)
    {
      var max := MaxRuneOf(i);
      if lo <= max && max < hi {
        FirstLength(lo, hi, i);
        AddParts(b, lo, max, hi);
        return;
      }
    }
    SameLengths(lo, hi);
    if hi < 0x80 {
      LeafLang(lo, hi);
      b.AddAscii(lo, hi);
      return;
    }
    for i := 1 to 4
      invariant b.Valid() && b.inst == old(b.inst) && b.branches == old(b.branches)
      invariant forall j :: 1 <= j < i ==> TailSplit(lo, hi, j).None?
    {
      var p := Span(i);
      TailSplitIs(lo, hi, i);
      if lo / p != hi / p {
        if lo % p != 0 {
          FirstTail(lo, hi, i);
          AddParts(b, lo, lo - lo % p + (p - 1), hi);
          return;
        }
        if hi % p != p - 1 {
          FirstTail(lo, hi, i);
          AddParts(b, lo, hi - hi % p - 1, hi);
          return;
        }
      }
    }
    NoTail(lo, hi);
    LeafLang(lo, hi);
    b.AddLeaf(lo, hi);
  }

  lemma NothingIn(lo: nat, hi: nat)
    requires hi <= MaxRune && lo > hi
    ensures forall w :: !Lang(lo, hi, w)
  {
  }

  lemma LeafLang(lo: nat, hi: nat)
    requires lo <= hi <= MaxRune && Split(lo, hi).None?
    ensures forall w :: Lang(lo, hi, w) <==> Between(w, EncodeRune(lo), EncodeRune(hi))
  {
  }

  /** The conditions of the loop over the last bytes. */
  lemma TailSplitIs(lo: nat, hi: nat, i: nat)
    requires 1 <= i <= 3 && lo <= hi
    ensures var p := Span(i);
            && p > 0
            && (lo / p == hi / p || (lo % p == 0 && hi % p == p - 1) <==> TailSplit(lo, hi, i).None?)
            && (lo / p != hi / p && lo % p != 0 ==> TailSplit(lo, hi, i) == Some(lo - lo % p + (p - 1)) && lo - lo % p + (p - 1) < hi)
            && (lo / p != hi / p && lo % p == 0 && hi % p != p - 1 ==>
                  hi - hi % p - 1 >= lo && TailSplit(lo, hi, i) == Some(hi - hi % p - 1))
  {
    TailSplitInside(lo, hi, i);
    var p := Span(i);
    assert hi == p * (hi / p) + hi % p && lo == p * (lo / p) + lo % p;
    if lo / p != hi / p {
      assert p * (hi / p) >= p * (lo / p + 1);
    }
  }

  /** Both parts of a split. */
  method AddParts(b: RuneBuilder, lo: nat, s: nat, hi: nat)
    requires b.Valid() && lo <= s < hi <= MaxRune && Split(lo, hi) == Some(s)
    modifies b`inst, b`cache, b`begin, b`chain, b`branches
    ensures b.Valid() && forall w :: b.Takes(w) <==> old(b.Takes(w)) || Lang(lo, hi, w)
    decreases hi - lo + 1, 0
  {
    hide RuneBuilder.Valid, RuneBuilder.Takes, Split, Between;
    AddRange(b, lo, s);
    AddRange(b, s + 1, hi);
    forall w
      ensures Lang(lo, hi, w) <==> Lang(lo, s, w) || Lang(s + 1, hi, w)
    {
    }
  }

  /** All runes of the range are up to, or all are behind, the largest rune of j bytes. */
  predicate OneSide(lo: nat, hi: nat, j: int)
    requires 1 <= j <= 3
  {
    !(lo <= MaxRuneOf(j) < hi)
  }

  lemma FirstLength(lo: nat, hi: nat, i: nat)
    requires 1 <= i <= 3 && lo <= MaxRuneOf(i) < hi && forall j :: 1 <= j < i ==> OneSide(lo, hi, j)
    ensures Split(lo, hi) == Some(MaxRuneOf(i))
  {
    if i > 1 {
      assert OneSide(lo, hi, 1);
    }
    if i > 2 {
      assert OneSide(lo, hi, 2);
    }
  }

  lemma SameLengths(lo: nat, hi: nat)
    requires lo <= hi <= MaxRune && forall j :: 1 <= j < 4 ==> OneSide(lo, hi, j)
    ensures LengthSplit(lo, hi).None? && EncodedLen(lo) == EncodedLen(hi) && (hi < 0x80 ==> Split(lo, hi).None?)
  {
    assert OneSide(lo, hi, 1) && OneSide(lo, hi, 2) && OneSide(lo, hi, 3);
  }

  lemma FirstTail(lo: nat, hi: nat, i: nat)
    requires 1 <= i <= 3 && LengthSplit(lo, hi).None? && hi >= 0x80 && TailSplit(lo, hi, i).Some?
    requires forall j :: 1 <= j < i ==> TailSplit(lo, hi, j).None?
    ensures Split(lo, hi) == TailSplit(lo, hi, i)
  {
    assert i > 1 ==> TailSplit(lo, hi, 1).None?;
    assert i > 2 ==> TailSplit(lo, hi, 2).None?;
  }

  lemma NoTail(lo: nat, hi: nat)
    requires LengthSplit(lo, hi).None? && forall j :: 1 <= j < 4 ==> TailSplit(lo, hi, j).None?
    ensures Split(lo, hi).None?
  {
    assert TailSplit(lo, hi, 1).None? && TailSplit(lo, hi, 2).None? && TailSplit(lo, hi, 3).None?;
  }

  // --------------------------------------------------------------- a whole rune class

  ghost predicate Ranges(ranges: seq<(nat, nat)>) {
    forall j :: 0 <= j < |ranges| ==> ranges[j].0 <= ranges[j].1 <= MaxRune
  }

  /** What is accepted for a rune class: what is accepted for one of its ranges. */
  ghost predicate InLangs(ranges: seq<(nat, nat)>, w: Str)
    requires Ranges(ranges)
  {
    exists j :: 0 <= j < |ranges| && Lang(ranges[j].0, ranges[j].1, w)
  }

  /** The patterns of the runes of a class. */
  ghost predicate InClass(ranges: seq<(nat, nat)>, w: Str)
    requires Ranges(ranges)
  {
    exists j :: 0 <= j < |ranges| && InRunes(ranges[j].0, ranges[j].1, w)
  }

  /** What toByteProg makes of a rune instruction: from it to its target the program takes exactly what its
      ranges stand for, which are the patterns of the runes of the class if every range is good. All other
      instructions stay as they are. */
  method BuildClass(inst: seq<Inst>, begin: nat, out: nat, ranges: seq<(nat, nat)>) returns (b: RuneBuilder)
    requires begin < |inst| && out < |inst| && Ranges(ranges)
    ensures b.Valid() && b.entry == begin && b.out == out && b.program == inst
    ensures forall w :: Accepted(b.inst, begin, out, w) <==> InLangs(ranges, w)
    ensures (forall j :: 0 <= j < |ranges| ==> Good(ranges[j].0, ranges[j].1)) ==>
              forall w :: Accepted(b.inst, begin, out, w) <==> InClass(ranges, w)
  {
    b := new RuneBuilder(inst, begin, out);
    for j := 0 to |ranges|
      invariant fresh(b) && b.Valid() && b.entry == begin && b.out == out && b.program == inst
      invariant forall w :: b.Takes(w) <==> InLangs(ranges[..j], w)
    {
      hide RuneBuilder.Valid, RuneBuilder.Takes, InLangs, Lang;
      AddRange(b, ranges[j].0, ranges[j].1);
      forall w
        ensures InLangs(ranges[..j + 1], w) <==> InLangs(ranges[..j], w) || Lang(ranges[j].0, ranges[j].1, w)
      {
        OneMoreRange(ranges, j, w);
      }
    }
    assert ranges[..|ranges|] == ranges;
    forall w
      ensures Accepted(b.inst, begin, out, w) <==> InLangs(ranges, w)
    {
      b.TakesAtEntry(w);
    }
    if forall j :: 0 <= j < |ranges| ==> Good(ranges[j].0, ranges[j].1) {
      ClassOfGood(ranges);
    }
  }

  lemma ClassOfGood(ranges: seq<(nat, nat)>)
    requires Ranges(ranges) && forall j :: 0 <= j < |ranges| ==> Good(ranges[j].0, ranges[j].1)
    ensures forall w :: InLangs(ranges, w) <==> InClass(ranges, w)
  {
    forall w, j | 0 <= j < |ranges|
      ensures Lang(ranges[j].0, ranges[j].1, w) <==> InRunes(ranges[j].0, ranges[j].1, w)
    {
      LangOfGood(ranges[j].0, ranges[j].1, w);
    }
    hide Lang, InRunes;
  }

  lemma OneMoreRange(ranges: seq<(nat, nat)>, j: nat, w: Str)
    requires j < |ranges| && Ranges(ranges)
    ensures InLangs(ranges[..j + 1], w) <==> InLangs(ranges[..j], w) || Lang(ranges[j].0, ranges[j].1, w)
  {
    var a, b := ranges[..j], ranges[..j + 1];
    hide Lang;
    if k :| 0 <= k < |a| && Lang(a[k].0, a[k].1, w) {
      assert b[k] == a[k];
    }
    if k :| 0 <= k < |b| && Lang(b[k].0, b[k].1, w) {
      assert k < j ==> a[k] == b[k];
    }
    assert b[j] == ranges[j];
  }

  // ------------------------------------------------------------ threads in the automaton

  lemma {:induction false} PathJoin(prog: Prog, line: Line, a: Thread, b: Thread, c: Thread, m: nat, n: nat)
    requires Path(prog, line, a, b, m) && Path(prog, line, b, c, n)
    ensures Path(prog, line, a, c, m + n)
    decreases m
  {
    if m > 0 {
      var t :| Step(prog, line, a, t) && Path(prog, line, t, b, m - 1);
      PathJoin(prog, line, t, b, c, m - 1, n);
    }
  }

  lemma {:induction false} ChainIsPath(prog: Prog, line: Line, pc: nat, out: nat, i: nat, j: nat)
    requires i <= j <= |line.bytes| && Chain(prog.inst, pc, out, line.bytes[i..j])
    ensures Path(prog, line, Thread(pc, i), Thread(out, j), j - i)
    decreases j - i
  {
    var w := line.bytes[i..j];
    if i < j {
      assert w[0] == line.bytes[i] && w[1..] == line.bytes[i + 1..j];
      var next := Thread(prog.inst[pc].out, i + 1);
      ChainIsPath(prog, line, next.pc, out, i + 1, j);
      assert Step(prog, line, Thread(pc, i), next);
    }
  }

  lemma {:induction false} TargetIsPath(prog: Prog, line: Line, pc: nat, t: nat, i: nat) returns (n: nat)
    requires pc < |prog.inst| && t in Targets(prog.inst, pc) && i <= |line.bytes|
    ensures Path(prog, line, Thread(pc, i), Thread(t, i), n)
    decreases |prog.inst| - pc
  {
    var a, b := Thread(pc, i), Thread(t, i);
    var x := prog.inst[pc];
    if t in Successors(x, FlagsAt(line, i)) {
      assert Step(prog, line, a, b) && Path(prog, line, b, b, 0);
      n := 1;
    } else {
      var m := TargetIsPath(prog, line, x.arg, t, i);
      assert Step(prog, line, a, Thread(x.arg, i));
      n := m + 1;
    }
  }

  /** A thread at the entry gets to out behind every accepted string. */
  lemma AcceptedIsPath(prog: Prog, line: Line, entry: nat, out: nat, i: nat, j: nat)
    requires entry < |prog.inst| && i <= j <= |line.bytes| && Accepted(prog.inst, entry, out, line.bytes[i..j])
    ensures exists n :: Path(prog, line, Thread(entry, i), Thread(out, j), n)
  {
    var t :| t in Targets(prog.inst, entry) && Chain(prog.inst, t, out, line.bytes[i..j]);
    var n := TargetIsPath(prog, line, entry, t, i);
    ChainIsPath(prog, line, t, out, i, j);
    PathJoin(prog, line, Thread(entry, i), Thread(t, i), Thread(out, j), n, j - i);
  }

  /** A thread in a chain of byte ranges that gets out of the automaton does so at out, behind bytes that the chain takes. */
  lemma {:induction false} ChainExit(prog: Prog, line: Line, first: nat, pc: nat, out: nat, i: nat, b: Thread, n: nat) returns (k: nat, m: nat)
    requires Suffixes(prog.inst, first, out) && out < first && i <= |line.bytes|
    requires first <= pc < |prog.inst| && prog.inst[pc].ByteRange? && b.pc < first && Path(prog, line, Thread(pc, i), b, n)
    ensures i <= k <= |line.bytes| && m < n && Chain(prog.inst, pc, out, line.bytes[i..k]) && Path(prog, line, Thread(out, k), b, m)
    decreases n
  {
    assert n > 0;
    var t :| Step(prog, line, Thread(pc, i), t) && Path(prog, line, t, b, n - 1);
    assert t == Thread(prog.inst[pc].out, i + 1) && Accepts(prog.inst[pc], line.bytes[i]);
    if t.pc == out {
      k, m := i + 1, n - 1;
      assert line.bytes[i..k] == [line.bytes[i]] && [line.bytes[i]][1..] == [];
    } else {
      k, m := ChainExit(prog, line, first, t.pc, out, i + 1, b, n - 1);
      assert line.bytes[i..k] == [line.bytes[i]] + line.bytes[i + 1..k];
    }
  }

  lemma {:induction false} TargetExit(prog: Prog, line: Line, first: nat, pc: nat, out: nat, i: nat, b: Thread, n: nat)
    returns (t: nat, k: nat, m: nat)
    requires Suffixes(prog.inst, first, out) && out < first && i <= |line.bytes| && pc < |prog.inst|
    requires prog.inst[pc].Fail? || prog.inst[pc].Nop? || prog.inst[pc].Alt?
    requires forall t :: t in Targets(prog.inst, pc) ==> first <= t < |prog.inst| && prog.inst[t].ByteRange?
    requires b.pc < first && b.pc != pc && Path(prog, line, Thread(pc, i), b, n)
    requires prog.inst[pc].Alt? && pc < prog.inst[pc].arg < |prog.inst| && prog.inst[prog.inst[pc].arg].Alt? ==> prog.inst[pc].arg >= first
    ensures t in Targets(prog.inst, pc) && i <= k <= |line.bytes| && m < n
    ensures Chain(prog.inst, t, out, line.bytes[i..k]) && Path(prog, line, Thread(out, k), b, m)
    decreases |prog.inst| - pc
  {
    var s :| Step(prog, line, Thread(pc, i), s) && Path(prog, line, s, b, n - 1);
    assert s.pos == i && s.pc in Successors(prog.inst[pc], FlagsAt(line, i));
    if s.pc in Targets(prog.inst, pc) {
      t := s.pc;
      k, m := ChainExit(prog, line, first, t, out, i, b, n - 1);
    } else {
      t, k, m := TargetExit(prog, line, first, s.pc, out, i, b, n - 1);
    }
  }

  /** A thread at the entry that gets to another instruction of the program gets to out first, behind an
      accepted string: the automaton stands for the rune instruction it replaces. */
  lemma ExitIsAccepted(b: RuneBuilder, prog: Prog, line: Line, i: nat, to: Thread, n: nat) returns (k: nat, m: nat)
    requires b.Valid() && prog.inst == b.inst && i <= |line.bytes|
    requires to.pc < b.first && to.pc != b.entry && Path(prog, line, Thread(b.entry, i), to, n)
    ensures i <= k <= |line.bytes| && m < n && Accepted(b.inst, b.entry, b.out, line.bytes[i..k])
    ensures Path(prog, line, Thread(b.out, k), to, m)
  {
    TargetsAtEntry(b.inst, b.begin, b.entry, b.first, b.chain, b.branches);
    EntryKind(b.inst, b.begin, b.entry, b.first, b.chain, b.branches);
    var t;
    t, k, m := TargetExit(prog, line, b.first, b.entry, b.out, i, to, n);
  }

  lemma EntryKind(inst: seq<Inst>, begin: nat, entry: nat, first: nat, chain: seq<nat>, branches: seq<nat>)
    requires LinkedAs(inst, begin, entry, first, chain, branches)
    ensures inst[entry].Fail? || inst[entry].Nop? || inst[entry].Alt?
    ensures forall t :: t in Members(branches) ==> first <= t < |inst| && inst[t].ByteRange?
    ensures inst[entry].Alt? && entry < inst[entry].arg < |inst| && inst[inst[entry].arg].Alt? ==> inst[entry].arg >= first
  {
    if |branches| >= 2 {
      LinkAt(inst, begin, entry, first, chain, branches, 0);
    }
  }
}
