/** Deciding whether a file is text, and collecting its trigrams (add in internal/codesearch/index/write.go). */
module FileScan {
  import opened Bytes
  import opened RegexpSyntax
  import opened PostingLists
  import opened SparseSet
  import opened Utf8

  const MaxFileLen := 0x4000_0000
  const MaxLineLen := 2000
  const MaxTextTrigrams := 20000
  const TrigramSpace := 0x100_0000

  /** validUTF8: whether the byte c2 may follow the byte c1 in UTF-8 text. */
  predicate ValidPair(c1: Byte, c2: Byte) {
    if c1 < 0x80 then c2 < 0x80 || 0xC0 <= c2 < 0xF8
    else if c1 < 0xC0 then c2 < 0xF8
    else if c1 < 0xF8 then 0x80 <= c2 < 0xC0
    else false
  }

  function ByteBefore(data: Str, k: nat): Byte
    requires k <= |data|
  {
    if k == 0 then 0 else data[k - 1]
  }

  /** Of the last bytes before position k one is a newline, unless there are too few. */
  ghost predicate LineSoFar(data: Str, k: nat)
    requires k < |data|
  {
    k >= MaxLineLen ==> exists j :: k - MaxLineLen <= j < k && data[j] == Newline
  }

  /** Nothing is wrong with the byte at position k: no NUL, no pair that UTF-8 excludes, and the
      line it is in is not too long so far. */
  ghost predicate ByteOk(data: Str, k: nat)
    requires k < |data|
  {
    data[k] != 0 && ValidPair(ByteBefore(data, k), data[k]) && LineSoFar(data, k)
  }

  ghost predicate LooksLikeText(data: Str) {
    |data| <= MaxFileLen && forall k :: 0 <= k < |data| ==> ByteOk(data, k)
  }

  ghost predicate Indexable(data: Str) {
    LooksLikeText(data) && |TrigramNumbers(data)| <= MaxTextTrigrams
  }

  /** The numbers of the trigrams of a text. */
  ghost function TrigramNumbers(data: Str): set<nat> {
    set i | 0 <= i <= |data| - 3 :: TrigramNumber(Window(data, i))
  }

  lemma TrigramNumbersMean(data: Str, t: nat)
    requires t <= InvalidTrigram
    ensures t in TrigramNumbers(data) <==> TrigramBytes(t) in Trigrams(data)
  {
    if t in TrigramNumbers(data) {
      var i :| 0 <= i <= |data| - 3 && TrigramNumber(Window(data, i)) == t;
      TrigramBytesOfNumber(Window(data, i));
    }
    if TrigramBytes(t) in Trigrams(data) {
      var i :| 0 <= i <= |data| - 3 && Window(data, i) == TrigramBytes(t);
    }
  }

  /** The trigrams of text have no zero byte and none that UTF-8 excludes, so they are neither 0 nor the
      invalid trigram. */
  lemma TrigramsOfText(data: Str, t: nat)
    requires LooksLikeText(data) && t in TrigramNumbers(data)
    ensures 0 < t < InvalidTrigram
  {
    var i :| 0 <= i <= |data| - 3 && TrigramNumber(Window(data, i)) == t;
    assert ByteOk(data, i) && ByteOk(data, i + 1);
  }

  lemma NumbersOneMore(data: Str, n: nat)
    requires n < |data|
    ensures TrigramNumbers(data[..n + 1]) ==
            TrigramNumbers(data[..n]) + if n >= 2 then {TrigramNumber(Window(data, n - 2))} else {}
  {
    var a, b := data[..n], data[..n + 1];
    assert forall i :: 0 <= i <= n - 3 ==> Window(a, i) == Window(data, i);
    assert forall i :: 0 <= i <= n - 2 ==> Window(b, i) == Window(data, i);
    forall t
      ensures t in TrigramNumbers(b) <==> t in TrigramNumbers(a) || (n >= 2 && t == TrigramNumber(Window(data, n - 2)))
    {
      if t in TrigramNumbers(b) {
        var i :| 0 <= i <= n - 2 && TrigramNumber(Window(b, i)) == t;
        assert i <= n - 3 ==> TrigramNumber(Window(a, i)) == t;
      }
      if t in TrigramNumbers(a) {
        var i :| 0 <= i <= n - 3 && TrigramNumber(Window(a, i)) == t;
        assert TrigramNumber(Window(b, i)) == t;
      }
      if n >= 2 {
        assert TrigramNumber(Window(b, n - 2)) == TrigramNumber(Window(data, n - 2));
      }
    }
  }

  /** The last three bytes, as the loop of add keeps them. */
  function Rolling(data: Str, n: nat): nat
    requires n <= |data|
  {
    if n == 0 then 0 else Rolling(data, n - 1) * 0x100 % TrigramSpace + data[n - 1]
  }

  function ByteAt(data: Str, k: int): Byte
    requires k < |data|
  {
    if k < 0 then 0 else data[k]
  }

  lemma {:induction false} RollingBytes(data: Str, n: nat)
    requires n <= |data|
    ensures Rolling(data, n) ==
            ByteAt(data, n - 3) as int * 0x1_0000 + ByteAt(data, n - 2) as int * 0x100 + ByteAt(data, n - 1) as int
  {
    if n > 0 {
      RollingBytes(data, n - 1);
      ShiftBytes(ByteAt(data, n - 4), ByteAt(data, n - 3), ByteAt(data, n - 2));
    }
  }

  lemma ShiftBytes(a: Byte, b: Byte, c: Byte)
    ensures (a as int * 0x1_0000 + b as int * 0x100 + c as int) * 0x100 % TrigramSpace == b as int * 0x1_0000 + c as int * 0x100
  {
  }

  lemma LowBytes(a: Byte, b: Byte, c: Byte)
    ensures var v := a as int * 0x1_0000 + b as int * 0x100 + c as int; v < TrigramSpace && v / 0x100 % 0x100 == b && v % 0x100 == c
  {
  }

  lemma RollingIsWindow(data: Str, n: nat)
    requires 0 < n <= |data|
    ensures Rolling(data, n) < TrigramSpace
    ensures Rolling(data, n) / 0x100 % 0x100 == ByteBefore(data, n - 1) && Rolling(data, n) % 0x100 == data[n - 1]
    ensures n >= 3 ==> Rolling(data, n) == TrigramNumber(Window(data, n - 3))
  {
    RollingBytes(data, n);
    LowBytes(ByteAt(data, n - 3), ByteAt(data, n - 2), ByteAt(data, n - 1));
  }

  /** Where the line of position k starts, given by how long it is up to k. */
  ghost predicate LineLength(data: Str, k: nat, linelen: nat)
    requires k <= |data|
  {
    && linelen <= k
    && (linelen < k ==> data[k - linelen - 1] == Newline)
    && forall j :: k - linelen <= j < k ==> data[j] != Newline
  }

  /** The scan of one file: it is accepted exactly if it is indexable, and then its trigrams are collected. */
  method Scan(data: Str, trigram: Set) returns (ok: bool)
    requires trigram.Valid() && trigram.sparse.Length == TrigramSpace
    modifies trigram`dense, trigram.sparse
    ensures trigram.Valid() && (ok <==> Indexable(data))
    ensures ok <==> IsText(data)
    ensures ok ==> trigram.Elements() == TrigramNumbers(data)
  {
    IndexableMeans(data);
    hide IsText, LineSoFar;
    trigram.Reset();
    var tv: nat, linelen: nat, i: nat := 0, 0, 0;
    assert trigram.Elements() == TrigramNumbers(data[..0]);
    while i < |data|
      invariant i <= |data| && i <= MaxFileLen && trigram.Valid()
      invariant forall k :: 0 <= k < i ==> ByteOk(data, k)
      invariant tv == Rolling(data, i) && LineLength(data, i, linelen)
      invariant trigram.Elements() == TrigramNumbers(data[..i])
    {
      hide ByteOk, LineLength, Rolling;
      RollingIsWindow(data, i + 1);
      NumbersOneMore(data, i);
      RollingStep(data, i);
      tv := tv * 0x100 % TrigramSpace;
      var c := data[i];
      tv := tv + c;
      if i + 1 >= 3 {
        trigram.Add(tv);
      }
      CheckByte(data, i, linelen);
      if c == 0 {
        return false;
      }
      if !ValidPair(tv / 0x100 % 0x100, tv % 0x100) {
        return false;
      }
      if i + 1 > MaxFileLen {
        return false;
      }
      if linelen + 1 > MaxLineLen {
        return false;
      }
      linelen := if c == Newline then 0 else linelen + 1;
      i := i + 1;
    }
    assert data[..i] == data;
    DistinctCount(trigram.dense) by {
      trigram.Distinct();
    }
    ok := |trigram.dense| <= MaxTextTrigrams;
  }

  lemma RollingStep(data: Str, i: nat)
    requires i < |data|
    ensures Rolling(data, i + 1) == Rolling(data, i) * 0x100 % TrigramSpace + data[i]
  {
  }

  lemma CheckByte(data: Str, i: nat, linelen: nat)
    requires i < |data| && LineLength(data, i, linelen)
    ensures ByteOk(data, i) <==> data[i] != 0 && ValidPair(ByteBefore(data, i), data[i]) && linelen + 1 <= MaxLineLen
    ensures LineLength(data, i + 1, if data[i] == Newline then 0 else linelen + 1)
  {
    if linelen < MaxLineLen && i >= MaxLineLen {
      assert data[i - linelen - 1] == Newline;
    }
  }

  // ------------------------------------------------------------------ valid UTF-8 text

  predicate PairsOk(w: Str, before: Byte) {
    w == [] || (ValidPair(before, w[0]) && PairsOk(w[1..], w[0]))
  }

  lemma {:induction false} PairsOkAppend(a: Str, b: Str, before: Byte)
    requires PairsOk(a, before) && PairsOk(b, if a == [] then before else a[|a| - 1])
    ensures PairsOk(a + b, before)
  {
    if a == [] {
      assert a + b == b;
    } else {
      assert (a + b)[1..] == a[1..] + b;
      PairsOkAppend(a[1..], b, a[0]);
    }
  }

  lemma {:induction false} PairsAt(w: Str, before: Byte, k: nat)
    requires PairsOk(w, before) && k < |w|
    ensures ValidPair(if k == 0 then before else w[k - 1], w[k])
  {
    if k > 0 {
      PairsAt(w[1..], w[0], k - 1);
    }
  }

  lemma OneRune(r: int, before: Byte)
    requires ValidRune(r) && before < 0xC0
    ensures PairsOk(EncodeRune(r), before) && EncodeRune(r)[|EncodeRune(r)| - 1] < 0xC0
  {
    var w := EncodeRune(r);
    assert |w| >= 2 ==> 0xC0 <= w[0] < 0xF8;
    assert forall k :: 0 <= k < |w[1..]| ==> 0x80 <= w[1..][k] < 0xC0;
    if |w| >= 2 {
      Continuations(w[1..], w[0]);
    }
  }

  lemma {:induction false} Continuations(w: Str, before: Byte)
    requires 0x80 <= before < 0xF8 && forall k :: 0 <= k < |w| ==> 0x80 <= w[k] < 0xC0
    ensures PairsOk(w, before)
  {
    if w != [] {
      Continuations(w[1..], w[0]);
    }
  }

  lemma {:induction false} AllRunes(rs: seq<int>, before: Byte)
    requires (forall k :: 0 <= k < |rs| ==> ValidRune(rs[k])) && before < 0xC0
    ensures PairsOk(EncodeAll(rs), before)
  {
    if rs != [] {
      OneRune(rs[0], before);
      AllRunes(rs[1..], EncodeRune(rs[0])[|EncodeRune(rs[0])| - 1]);
      PairsOkAppend(EncodeRune(rs[0]), EncodeAll(rs[1..]), before);
    }
  }

  /** No pair of bytes in valid UTF-8 text is taken for a sign that the file is not text. */
  lemma ValidTextPasses(rs: seq<int>, k: nat)
    requires (forall j :: 0 <= j < |rs| ==> ValidRune(rs[j])) && k < |EncodeAll(rs)|
    ensures ValidPair(ByteBefore(EncodeAll(rs), k), EncodeAll(rs)[k])
  {
    AllRunes(rs, 0);
    PairsAt(EncodeAll(rs), 0, k);
  }

  // ------------------------------------------------------------------ what is accepted

  predicate IsLead(c: Byte) {
    0xC0 <= c <= 0xF7
  }

  predicate IsContinuation(c: Byte) {
    0x80 <= c <= 0xBF
  }

  /** A byte below 0x80, or a lead byte with the continuation bytes behind it, one or more, however many it asks for. */
  ghost predicate IsBlock(w: Str) {
    || (|w| == 1 && w[0] <= 0x7F)
    || (|w| >= 2 && IsLead(w[0]) && forall k :: 1 <= k < |w| ==> IsContinuation(w[k]))
  }

  /** The text is one block after the other, where at the end a lead byte may stand alone. */
  ghost predicate Blocks(w: Str) {
    || w == [] || (|w| == 1 && IsLead(w[0]))
    || exists k | 0 < k <= |w| :: IsBlock(w[..k]) && Blocks(w[k..])
  }

  /** A line has at most 2000 bytes, its newline included. */
  ghost predicate ShortLines(data: Str) {
    forall ls, le | 0 <= ls <= le < |data| && 10 !in data[ls..le] :: le - ls < 2000
  }

  lemma {:induction false} BlockPairs(w: Str, before: Byte)
    requires Blocks(w) && before < 0xC0
    ensures PairsOk(w, before)
    decreases |w|
  {
    if |w| > 1 || (|w| == 1 && !IsLead(w[0])) {
      var k :| 0 < k <= |w| && IsBlock(w[..k]) && Blocks(w[k..]);
      var b := w[..k];
      if k > 1 {
        Continuations(b[1..], b[0]);
      }
      BlockPairs(w[k..], b[k - 1]);
      PairsOkAppend(b, w[k..], before);
      assert b + w[k..] == w;
    }
  }

  /** The continuation bytes in front. */
  function Run(w: Str): (k: nat)
    ensures k <= |w| && (k < |w| ==> !IsContinuation(w[k]))
    ensures forall j :: 0 <= j < k ==> IsContinuation(w[j])
  {
    if w == [] || !IsContinuation(w[0]) then 0 else 1 + Run(w[1..])
  }

  lemma {:induction false} PairsDrop(w: Str, before: Byte, k: nat)
    requires PairsOk(w, before) && k <= |w|
    ensures PairsOk(w[k..], if k == 0 then before else w[k - 1])
  {
    if k == 0 {
      assert w[0..] == w;
    } else {
      PairsDrop(w[1..], w[0], k - 1);
      assert w[1..][k - 1..] == w[k..];
    }
  }

  lemma {:induction false} PairBlocks(w: Str)
    requires PairsOk(w, 0)
    ensures Blocks(w)
    decreases |w|
  {
    if |w| > 1 || (|w| == 1 && !IsLead(w[0])) {
      var k := if IsLead(w[0]) then 1 + Run(w[1..]) else 1;
      PairsDrop(w, 0, k);
      if IsLead(w[0]) {
        PairsAt(w, 0, 1);
      }
      assert IsBlock(w[..k]);
      if k < |w| {
        assert ValidPair(w[k - 1], w[k]) && ValidPair(0, w[k]);
      }
      PairBlocks(w[k..]);
    }
  }

  function Previous(w: Str, before: Byte, k: nat): Byte
    requires k < |w|
  {
    if k == 0 then before else w[k - 1]
  }

  lemma {:induction false} AllPairs(w: Str, before: Byte)
    requires forall k | 0 <= k < |w| :: ValidPair(Previous(w, before, k), w[k])
    ensures PairsOk(w, before)
  {
    if w != [] {
      forall k | 0 <= k < |w[1..]|
        ensures ValidPair(Previous(w[1..], w[0], k), w[1..][k])
      {
        assert ValidPair(Previous(w, before, k + 1), w[k + 1]);
      }
      assert ValidPair(Previous(w, before, 0), w[0]);
      AllPairs(w[1..], w[0]);
    }
  }

  /** The pairs of a text are all accepted exactly if it is a sequence of blocks. */
  lemma PairsAreBlocks(w: Str)
    ensures (forall k :: 0 <= k < |w| ==> ValidPair(ByteBefore(w, k), w[k])) <==> Blocks(w)
  {
    if Blocks(w) {
      BlockPairs(w, 0);
      forall k | 0 <= k < |w|
        ensures ValidPair(ByteBefore(w, k), w[k])
      {
        PairsAt(w, 0, k);
      }
    }
    if forall k :: 0 <= k < |w| ==> ValidPair(ByteBefore(w, k), w[k]) {
      assert forall k | 0 <= k < |w| :: Previous(w, 0, k) == ByteBefore(w, k);
      AllPairs(w, 0);
      PairBlocks(w);
    }
  }

  lemma LinesAreShort(data: Str)
    ensures ShortLines(data) <==> forall k | 0 <= k < |data| :: LineSoFar(data, k)
  {
    if ShortLines(data) {
      forall k | MaxLineLen <= k < |data|
        ensures LineSoFar(data, k)
      {
        var w := data[k - MaxLineLen..k];
        assert 10 in w;
        var j :| 0 <= j < |w| && w[j] == 10;
        assert data[k - MaxLineLen + j] == Newline;
      }
    }
    if forall k | 0 <= k < |data| :: LineSoFar(data, k) {
      forall ls, le | 0 <= ls <= le < |data| && le - ls >= 2000
        ensures 10 in data[ls..le]
      {
        assert LineSoFar(data, ls + 2000);
        var j :| ls <= j < ls + 2000 && data[j] == Newline;
        assert data[ls..le][j - ls] == 10;
      }
    }
  }

  /** A file that is short enough, has no NUL byte, is a sequence of blocks, and has neither long lines nor too many
      trigrams. */
  ghost predicate IsText(data: Str) {
    |data| <= 0x4000_0000 && 0 !in data && Blocks(data) && ShortLines(data) && |TrigramNumbers(data)| <= 20000
  }

  lemma IndexableMeans(data: Str)
    ensures Indexable(data) <==> IsText(data)
  {
    PairsAreBlocks(data);
    LinesAreShort(data);
    hide Blocks, ShortLines, ValidPair, LineSoFar;
    if LooksLikeText(data) {
      forall k | 0 <= k < |data|
        ensures data[k] != 0 && ValidPair(ByteBefore(data, k), data[k]) && LineSoFar(data, k)
      {
        assert ByteOk(data, k);
      }
    }
  }
}
