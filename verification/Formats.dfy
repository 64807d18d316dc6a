/** The bytes of an index file, told without the functions that write them (the format in
    internal/codesearch/index/read.go:9-120, delta.go and path.go). */
module Formats {
  import opened Bytes
  import opened Varint
  import opened Bits
  import opened PostingLists
  import opened PostingIndex
  import D = DeltaCoding
  import W = PostingWriter
  import P = Paths

  // ------------------------------------------------------------------- base 128

  /** The number whose base-128 digits are the low seven bits of the bytes, the lowest digit first. */
  function Base128(w: Str): nat {
    if w == [] then 0 else w[0] % 128 + 128 * Base128(w[1..])
  }

  /** The shortest base-128 form of x, in which every byte but the last has its highest bit set. */
  ghost predicate IsUvarint(w: Str, x: nat) {
    && w != [] && Base128(w) == x
    && (forall k :: 0 <= k < |w| - 1 ==> w[k] >= 128)
    && w[|w| - 1] < 128 && (|w| > 1 ==> w[|w| - 1] != 0)
  }

  lemma {:induction false} UvarintMeans(x: nat)
    ensures IsUvarint(PutUvarint(x), x)
    decreases x
  {
    var w := PutUvarint(x);
    if x < 128 {
      assert w[1..] == [];
    } else {
      UvarintMeans(x / 128);
      assert w[1..] == PutUvarint(x / 128);
      assert forall k :: 1 <= k < |w| ==> w[k] == w[1..][k - 1];
    }
  }

  /** The form of a number is not the beginning of the form of another one. */
  lemma UvarintUnique(v: Str, w: Str, x: nat, y: nat)
    requires IsUvarint(v, x) && IsUvarint(w, y) && IsPrefix(v, w)
    ensures v == w && x == y
  {
    assert v[|v| - 1] == w[|v| - 1];
    assert w[..|w|] == w;
  }

  /** A list of numbers, each in its base-128 form. */
  ghost predicate AreUvarints(w: Str, xs: seq<nat>) {
    if xs == [] then w == []
    else exists n | 0 < n <= |w| :: IsUvarint(w[..n], xs[0]) && AreUvarints(w[n..], xs[1..])
  }

  /** In version 1 a list is its numbers in base 128. */
  lemma {:induction false} Version1(xs: seq<nat>)
    ensures AreUvarints(D.Encode(1, xs), xs)
  {
    if xs != [] {
      Version1(xs[1..]);
      UvarintMeans(xs[0]);
      var w, n := D.Encode(1, xs), |PutUvarint(xs[0])|;
      assert w[..n] == PutUvarint(xs[0]) && w[n..] == D.Encode(1, xs[1..]);
    }
  }

  // ----------------------------------------------------------------- gamma codes

  /** The number that stands for x: 16 for 0, and 17 and more for 16 and more. */
  function StandIn(x: nat): nat {
    if x == 0 then 16 else if x < 16 then x else x + 1
  }

  /** The gamma code of y: n zeros, a one, and the n digits that follow the highest one of y, the lowest first. */
  ghost predicate IsGamma(code: Row, y: nat) {
    exists n: nat ::
      && |code| == 2 * n + 1 && Pow2(n) <= y < 2 * Pow2(n)
      && (forall k :: 0 <= k < n ==> !code[k]) && code[n]
      && Pow2(n) + Val(code[n + 1..]) == y
  }

  lemma {:induction false} Log2Means(y: nat)
    requires y > 0
    ensures Pow2(D.Log2(y)) <= y < 2 * Pow2(D.Log2(y))
  {
    if y >= 2 {
      Log2Means(y / 2);
    }
  }

  lemma GammaMeans(y: nat)
    requires y > 0
    ensures IsGamma(D.Gamma(y), y)
  {
    var n, code := D.Log2(y), D.Gamma(y);
    Log2Means(y);
    D.TopDigit(y);
    ValAppend(Digits(y, n), [true]);
    assert [true][1..] == [];
    assert Val([true]) == 1;
    assert code[n + 1..] == Digits(y, n);
  }

  /** A list of numbers, each as the gamma code of what stands for it. */
  ghost predicate AreGammas(code: Row, xs: seq<nat>) {
    if xs == [] then code == []
    else exists n | 0 < n <= |code| :: IsGamma(code[..n], StandIn(xs[0])) && AreGammas(code[n..], xs[1..])
  }

  lemma {:induction false} GammasMean(xs: seq<nat>)
    ensures AreGammas(D.Gammas(xs), xs)
  {
    if xs != [] {
      GammasMean(xs[1..]);
      GammaMeans(StandIn(xs[0]));
      var code, n := D.Gammas(xs), |D.Gamma(D.Shifted(xs[0]))|;
      assert code[..n] == D.Gamma(StandIn(xs[0])) && code[n..] == D.Gammas(xs[1..]);
    }
  }

  /** In version 2 a list is the gamma codes of its numbers, filled up with fewer than eight zeros. */
  lemma Version2(xs: seq<nat>) returns (code: Row, fill: nat)
    ensures AreGammas(code, xs) && fill < 8
    ensures BytesRow(D.Encode(2, xs)) == code + Zeros(fill)
  {
    code := D.Gammas(xs);
    GammasMean(xs);
    fill := D.BytesOfPack(code);
  }

  lemma SixteenDigits()
    ensures Digits(16, 4) == [false, false, false, false]
    ensures Digits(16, 8) == [false, false, false, false, true, false, false, false]
  {
    assert Digits(4, 2) == [false, false];
    ZeroDigits(3);
    assert Zeros(3) == [false, false, false];
    assert Digits(4, 6) == [false, false] + Digits(1, 4);
  }

  lemma Sixteen()
    ensures D.Gamma(16) == [false, false, false, false, true, false, false, false, false]
    ensures BytesRow([0x10, 0x00]) == D.Gamma(16) + Zeros(7)
  {
    SixteenDigits();
    hide Digits;
    assert D.Log2(16) == 4 by {
      assert D.Log2(4) == 2;
    }
    assert Zeros(4) == [false, false, false, false];
    ZeroDigits(8);
    assert [0x10, 0x00][1..] == [0x00] && [0x00][1..] == [];
    assert BytesRow([0x00]) == Digits(0, 8);
    assert BytesRow([0x10, 0x00]) == Digits(16, 8) + BytesRow([0x00]);
  }

  lemma {:induction false} ZeroDigits(n: nat)
    ensures Digits(0, n) == Zeros(n)
  {
    if n > 0 {
      ZeroDigits(n - 1);
    }
  }

  /** The list of a zero alone is written as the bytes 16 and 0 in version 2, and as the byte 0 in version 1. */
  lemma ZeroAlone()
    ensures D.Encode(2, [0]) == [0x10, 0x00] && D.Encode(1, [0]) == [0x00]
  {
    hide D.Gamma, D.Pack, BytesRow;
    D.OneGamma(0);
    Sixteen();
    var w := D.Encode(2, [0]);
    var pad := D.BytesOfPack(D.Gamma(16));
    BytesRowLength(w);
    assert Zeros(pad) == Zeros(7);
    D.BytesRowInjective(w, [0x10, 0x00]);
  }

  function Three(w: Str): int
    requires |w| >= 3
  {
    w[0] as int * 65536 + w[1] as int * 256 + w[2] as int
  }

  function Four(w: Str, k: nat): int
    requires k + 4 <= |w|
  {
    w[k] as int * 16777216 + w[k + 1] as int * 65536 + w[k + 2] as int * 256 + w[k + 3] as int
  }

  /** File numbers are stored as their distances, the first one from -1. */
  ghost predicate AreDistances(ds: seq<nat>, ids: seq<nat>) {
    && |ds| == |ids| && forall k :: 0 <= k < |ids| ==> ids[k] as int == (if k == 0 then -1 else ids[k - 1] as int) + ds[k] as int
  }

  lemma {:induction false} DeltasMean(ids: seq<nat>, last: int)
    requires last >= -1 && (forall k :: 0 <= k < |ids| ==> last < ids[k]) && Ascending(ids)
    ensures |Deltas(ids, last)| == |ids|
    ensures forall k :: 0 <= k < |ids| ==> ids[k] as int == (if k == 0 then last else ids[k - 1] as int) + Deltas(ids, last)[k] as int
  {
    if ids != [] {
      DeltasMean(ids[1..], ids[0]);
      assert forall k :: 1 <= k < |ids| ==> Deltas(ids, last)[k] == Deltas(ids[1..], ids[0])[k - 1] && ids[k] == ids[1..][k - 1];
    }
  }

  /** A posting list is the three bytes of its trigram and the distances of its files, ended by a zero. */
  lemma ListMeans(version: nat, p: Posting) returns (ds: seq<nat>)
    requires W.Storable(p)
    ensures AreDistances(ds, p.ids) && 0 !in ds
    ensures var w := W.ListBytes(version, p);
            && |w| >= 3 && Three(w) == p.trigram
            && w[3..] == D.Encode(version, ds + [0])
  {
    ds := Deltas(p.ids, -1);
    DeltasMean(p.ids, -1);
  }

  // ------------------------------------------------------------------- the tables

  /** An entry of the index of version 1: 3 bytes for the trigram, 4 for the number of files, 4 for the place of the
      list, the highest byte first. */
  lemma EntryMeans(trigram: nat, count: nat, offset: nat)
    requires trigram <= InvalidTrigram && count < 0x1_0000_0000 && offset < 0x1_0000_0000
    ensures var w := W.EntryBytes(trigram, count, offset);
            && |w| == 11
            && Three(w) == trigram
            && Four(w, 3) == count
            && Four(w, 7) == offset
  {
    var w := W.EntryBytes(trigram, count, offset);
    assert w[3..7] == W.Uint32Bytes(count) && w[7..] == W.Uint32Bytes(offset);
    W.BigEndian4(w[3..7]);
    W.BigEndian4(w[7..]);
  }

  /** Entries of version 2: 3 bytes for the trigram, and in base 128 the number of files and the distance of the list
      from that of the entry before. */
  ghost predicate AreEntries(w: Str, es: seq<Entry>, last: nat) {
    if es == [] then w == []
    else exists m, n | 3 < m < n <= |w| ::
      && Three(w) == es[0].trigram
      && IsUvarint(w[3..m], es[0].count)
      && es[0].offset >= last && IsUvarint(w[m..n], es[0].offset - last)
      && AreEntries(w[n..], es[1..], es[0].offset)
  }

  lemma {:induction false} EntriesMean(es: seq<Entry>, last: nat)
    requires Offsets(es, last) && forall k :: 0 <= k < |es| ==> es[k].trigram <= InvalidTrigram
    ensures AreEntries(EncodeEntries(es, last), es, last)
  {
    if es != [] {
      hide *;
      EncodeStep(es, last);
      EntriesMean(es[1..], es[0].offset);
      UvarintMeans(es[0].count);
      UvarintMeans(es[0].offset - last);
      OneEntry(TrigramBytes(es[0].trigram), PutUvarint(es[0].count), PutUvarint(es[0].offset - last),
               EncodeEntries(es[1..], es[0].offset), es, last);
    }
  }

  lemma EncodeStep(es: seq<Entry>, last: nat)
    requires es != [] && Offsets(es, last) && forall k :: 0 <= k < |es| ==> es[k].trigram <= InvalidTrigram
    ensures last <= es[0].offset && Offsets(es[1..], es[0].offset)
    ensures TrigramNumber(TrigramBytes(es[0].trigram)) == es[0].trigram
    ensures EncodeEntries(es, last) == TrigramBytes(es[0].trigram) + PutUvarint(es[0].count) +
                                       PutUvarint(es[0].offset - last) + EncodeEntries(es[1..], es[0].offset)
  {
    hide TrigramBytes, PutUvarint;
  }

  lemma OneEntry(t: Str, c: Str, o: Str, later: Str, es: seq<Entry>, last: nat)
    requires es != [] && es[0].offset >= last && |t| == 3 && TrigramNumber(t) == es[0].trigram
    requires IsUvarint(c, es[0].count) && IsUvarint(o, es[0].offset - last) && AreEntries(later, es[1..], es[0].offset)
    ensures AreEntries(t + c + o + later, es, last)
  {
    UvarintNotEmpty(c, es[0].count);
    UvarintNotEmpty(o, es[0].offset - last);
    hide IsUvarint, TrigramNumber, Three;
    EntryParts(t, c, o, later);
  }

  lemma UvarintNotEmpty(w: Str, x: nat)
    requires IsUvarint(w, x)
    ensures w != []
  {
  }

  lemma EntryParts(t: Str, c: Str, o: Str, later: Str)
    requires |t| == 3
    ensures var w, m, n := t + c + o + later, 3 + |c|, 3 + |c| + |o|;
            Three(w) == TrigramNumber(t) && w[3..m] == c && w[m..n] == o && w[n..] == later
  {
  }

  /** A block of version 2: 256 bytes, the entries in front and zeros behind them. */
  lemma BlockMeans(es: seq<Entry>) returns (n: nat)
    requires BlockOk(es)
    ensures var w := Padded(es); |w| == 256 && n <= 256 && AreEntries(w[..n], es, 0) && forall k :: n <= k < 256 ==> w[k] == 0
  {
    EntriesMean(es, 0);
    n := |EncodeEntries(es, 0)|;
    assert Padded(es)[..n] == EncodeEntries(es, 0);
  }

  // -------------------------------------------------------------------- the paths

  lemma {:induction false} CommonIsLongest(p: Str, q: Str)
    ensures var n := P.Common(p, q); p[..n] == q[..n] && (n < |p| && n < |q| ==> p[n] != q[n])
  {
    if p != [] && q != [] && p[0] == q[0] {
      CommonIsLongest(p[1..], q[1..]);
    }
  }

  /** A path of version 2 behind another one: how many bytes it shares with it, how many follow, and these. Every
      16th name shares nothing. */
  ghost predicate IsPath(w: Str, last: Str, p: Str, alone: bool) {
    exists pre: nat, m: nat, n: nat | pre <= |p| && pre <= |last| && m <= n <= |w| ::
      && IsUvarint(w[..m], pre) && IsUvarint(w[m..n], |p| - pre) && w[n..] == p[pre..]
      && p[..pre] == last[..pre]
      && if alone then pre == 0 else pre == |p| || pre == |last| || p[pre] != last[pre]
  }

  lemma PathMeans(number: nat, last: Str, p: Str)
    ensures IsPath(P.PathBytes(16, number, last, p), last, p, number % 16 == 0)
    ensures IsPath(P.PathBytes(0, number, last, p), last, p, number == 0)
  {
    CommonIsLongest(last, p);
    PathShares(16, number, last, p);
    PathShares(0, number, last, p);
  }

  lemma PathShares(group: nat, number: nat, last: Str, p: Str)
    requires group in {0, 16}
    ensures IsPath(P.PathBytes(group, number, last, p), last, p, if group == 0 then number == 0 else number % 16 == 0)
  {
    var pre := P.PrefixLen(group, number, last, p);
    CommonIsLongest(last, p);
    UvarintMeans(pre);
    UvarintMeans(|p| - pre);
    hide IsUvarint, PutUvarint;
    var w, m, n := P.PathBytes(group, number, last, p), |PutUvarint(pre)|, |PutUvarint(pre)| + |PutUvarint(|p| - pre)|;
    assert w[..m] == PutUvarint(pre) && w[m..n] == PutUvarint(|p| - pre) && w[n..] == p[pre..];
  }

  /** The example of the format's description: "abcdef" and "abcx" are 0 6 abcdef 3 1 x. */
  lemma TwoPaths()
    ensures P.Encode(2, 0, 0, [], [[97, 98, 99, 100, 101, 102], [97, 98, 99, 120]]) ==
            [0, 6, 97, 98, 99, 100, 101, 102, 3, 1, 120]
  {
    var p: Str, q: Str := [97, 98, 99, 100, 101, 102], [97, 98, 99, 120];
    assert P.Common(p, q) == 3 by {
      assert p[1..][1..][1..] == [100, 101, 102] && q[1..][1..][1..] == [120];
      assert P.Common([100, 101, 102], [120]) == 0;
      assert P.Common(p[1..][1..], q[1..][1..]) == 1;
    }
    assert [p, q][1..] == [q] && [q][1..] == [];
    assert P.PathBytes(0, 0, [], p) == [0, 6] + p;
    assert P.PathBytes(0, 1, p, q) == [3, 1, 120];
    assert P.Encode(2, 0, 1, p, [q]) == [3, 1, 120] + P.Encode(2, 0, 2, q, []);
  }
}
