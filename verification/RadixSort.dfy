/** Sorting the entries of a posting chunk (sortPost of internal/codesearch/index/write.go). */
module RadixSort {

  /** A trigram and a file id in one number. */
  const FileIdSpan := 0x100_0000_0000

  function MakeEntry(trigram: nat, fileid: nat): nat {
    trigram * FileIdSpan + fileid
  }

  function TrigramOf(e: nat): nat { e / FileIdSpan }

  function FileIdOf(e: nat): nat { e % FileIdSpan }

  const K := 0x1000

  type Digit = nat -> nat

  function LowDigit(e: nat): nat { e / FileIdSpan % K }

  function HighDigit(e: nat): nat { e / (FileIdSpan * K) % K }

  ghost predicate InRange(key: Digit) {
    forall e :: key(e) < K
  }

  // -------------------------------------------------------- stable sorting by one digit

  /** The entries with digit r, in their order. */
  ghost function WithDigit(s: seq<nat>, key: Digit, r: nat): seq<nat> {
    if s == [] then []
    else WithDigit(s[..|s| - 1], key, r) + if key(s[|s| - 1]) == r then [s[|s| - 1]] else []
  }

  /** The entries with digits below m, by digit, those with the same digit in their order. */
  ghost function Buckets(s: seq<nat>, key: Digit, m: nat): seq<nat> {
    if m == 0 then [] else Buckets(s, key, m - 1) + WithDigit(s, key, m - 1)
  }

  ghost function Start(s: seq<nat>, key: Digit, r: nat): nat {
    |Buckets(s, key, r)|
  }

  lemma {:induction false} StartMonotone(s: seq<nat>, key: Digit, r: nat, q: nat)
    requires r < q
    ensures Start(s, key, r) + |WithDigit(s, key, r)| <= Start(s, key, q)
    decreases q
  {
    if r + 1 < q {
      StartMonotone(s, key, r, q - 1);
    }
  }

  lemma WithDigitStep(s: seq<nat>, key: Digit, i: nat, r: nat)
    requires i < |s|
    ensures WithDigit(s[..i + 1], key, r) == WithDigit(s[..i], key, r) + if key(s[i]) == r then [s[i]] else []
  {
    assert s[..i + 1][..i] == s[..i];
  }

  lemma {:induction false} WithDigitGrows(s: seq<nat>, key: Digit, i: nat, r: nat)
    requires i <= |s|
    ensures |WithDigit(s[..i], key, r)| <= |WithDigit(s, key, r)|
    decreases |s| - i
  {
    if i < |s| {
      WithDigitStep(s, key, i, r);
      WithDigitGrows(s, key, i + 1, r);
    } else {
      assert s[..i] == s;
    }
  }

  lemma {:induction false} CountWithDigit(s: seq<nat>, key: Digit, r: nat, x: nat)
    ensures multiset(WithDigit(s, key, r))[x] == if key(x) == r then multiset(s)[x] else 0
  {
    if s != [] {
      var t, e := s[..|s| - 1], s[|s| - 1];
      CountWithDigit(t, key, r, x);
      assert multiset(s) == multiset(t) + multiset{e} by {
        assert s == t + [e];
      }
    }
  }

  lemma {:induction false} CountBuckets(s: seq<nat>, key: Digit, m: nat, x: nat)
    ensures multiset(Buckets(s, key, m))[x] == if key(x) < m then multiset(s)[x] else 0
  {
    hide WithDigit;
    if m > 0 {
      CountBuckets(s, key, m - 1, x);
      CountWithDigit(s, key, m - 1, x);
    }
  }

  lemma DigitTotals(s: seq<nat>, key: Digit, m: nat)
    requires forall e :: e in s ==> key(e) < m
    ensures multiset(Buckets(s, key, m)) == multiset(s)
  {
    forall x: nat
      ensures multiset(Buckets(s, key, m))[x] == multiset(s)[x]
    {
      CountBuckets(s, key, m, x);
    }
  }

  /** Everything stands in some bucket. */
  lemma StartOfAll(s: seq<nat>, key: Digit)
    requires InRange(key)
    ensures Start(s, key, K) == |s|
  {
    DigitTotals(s, key, K);
    assert |multiset(Buckets(s, key, K))| == |Buckets(s, key, K)| && |multiset(s)| == |s|;
  }

  /** The next entry with digit r has a place of its own. */
  lemma PlaceFree(s: seq<nat>, key: Digit, i: nat)
    requires i < |s| && InRange(key)
    ensures var r := key(s[i]);
            && WithDigit(s[..i + 1], key, r) == WithDigit(s[..i], key, r) + [s[i]]
            && Start(s, key, r) + |WithDigit(s[..i + 1], key, r)| <= Start(s, key, r + 1) <= |s|
    ensures forall q: nat :: q < K && q != key(s[i]) ==> WithDigit(s[..i + 1], key, q) == WithDigit(s[..i], key, q)
  {
    hide WithDigit;
    var r := key(s[i]);
    WithDigitStep(s, key, i, r);
    WithDigitGrows(s, key, i + 1, r);
    StartOfAll(s, key);
    if r + 1 < K {
      StartMonotone(s, key, r + 1, K);
    }
    forall q: nat | q < K && q != r
      ensures WithDigit(s[..i + 1], key, q) == WithDigit(s[..i], key, q)
    {
      WithDigitStep(s, key, i, q);
    }
  }

  /** Up to entry i of s, the entries with digit r stand in d where the bucket of r begins. */
  ghost predicate Placed(d: seq<nat>, s: seq<nat>, key: Digit, i: nat, r: nat)
    requires i <= |s|
  {
    var o, w := Start(s, key, r), WithDigit(s[..i], key, r);
    o + |w| <= |d| && d[o..o + |w|] == w
  }

  ghost predicate PlacedUpTo(d: seq<nat>, s: seq<nat>, key: Digit, i: nat)
    requires i <= |s|
  {
    forall r: nat :: r < K ==> Placed(d, s, key, i, r)
  }

  lemma {:induction false} AllPlaced(d: seq<nat>, s: seq<nat>, key: Digit, m: nat)
    requires m <= K && PlacedUpTo(d, s, key, |s|)
    ensures Start(s, key, m) <= |d| && d[..Start(s, key, m)] == Buckets(s, key, m)
  {
    if m > 0 {
      AllPlaced(d, s, key, m - 1);
      assert Placed(d, s, key, |s|, m - 1) && s[..|s|] == s;
    }
  }

  /** Writing the next entry to its place leaves the other buckets alone. */
  lemma PlaceNext(d: seq<nat>, s: seq<nat>, key: Digit, i: nat)
    requires i < |s| <= |d| && InRange(key) && PlacedUpTo(d, s, key, i)
    ensures var r := key(s[i]);
            var o := Start(s, key, r) + |WithDigit(s[..i], key, r)|;
            o < |s| && PlacedUpTo(d[o := s[i]], s, key, i + 1)
  {
    PlaceFree(s, key, i);
    var r := key(s[i]);
    var o := Start(s, key, r) + |WithDigit(s[..i], key, r)|;
    hide WithDigit, Buckets;
    var d', j := d[o := s[i]], i + 1;
    forall q: nat | q < K
      ensures Placed(d', s, key, j, q)
    {
      var at, w := Start(s, key, q), WithDigit(s[..i], key, q);
      assert Placed(d, s, key, i, q);
      WithDigitGrows(s, key, i, q);
      if q < r {
        StartMonotone(s, key, q, r);
      } else if r < q {
        StartMonotone(s, key, r, q);
      }
      assert d'[at..at + |w|] == w;
    }
  }

  method CountDigits(src: array<nat>, n: nat, key: Digit, count: array<nat>)
    requires n <= src.Length && count.Length == K && InRange(key) && src != count
    modifies count
    ensures forall r: nat :: r < K ==> count[r] == |WithDigit(src[..n], key, r)|
  {
    for r := 0 to K
      invariant forall q :: 0 <= q < r ==> count[q] == 0
    {
      count[r] := 0;
    }
    ghost var s := src[..n];
    for i := 0 to n
      invariant src[..n] == s
      invariant forall r: nat :: r < K ==> count[r] == |WithDigit(s[..i], key, r)|
    {
      forall r: nat | r < K
        ensures WithDigit(s[..i + 1], key, r) == WithDigit(s[..i], key, r) + if key(s[i]) == r then [s[i]] else []
      {
        WithDigitStep(s, key, i, r);
      }
      var r := key(src[i]);
      count[r] := count[r] + 1;
    }
    assert s[..n] == s;
  }

  method SumCounts(count: array<nat>, ghost s: seq<nat>, ghost key: Digit)
    requires count.Length == K && forall r: nat :: r < K ==> count[r] == |WithDigit(s, key, r)|
    modifies count
    ensures forall r: nat :: r < K ==> count[r] == Start(s, key, r)
  {
    hide WithDigit;
    var tot: nat := 0;
    for i := 0 to K
      invariant tot == Start(s, key, i)
      invariant forall r: nat :: r < i ==> count[r] == Start(s, key, r)
      invariant forall r: nat :: i <= r < K ==> count[r] == |WithDigit(s, key, r)|
    {
      var c := count[i];
      assert Start(s, key, i + 1) == Start(s, key, i) + |WithDigit(s, key, i)|;
      count[i] := tot;
      tot := tot + c;
    }
  }

  /** Behind the entries of each bucket that are placed already. */
  ghost predicate NextFree(next: seq<nat>, s: seq<nat>, key: Digit, i: nat)
    requires i <= |s| && |next| == K
  {
    forall r: nat :: r < K ==> next[r] == Start(s, key, r) + |WithDigit(s[..i], key, r)|
  }

  lemma NextStep(next: seq<nat>, s: seq<nat>, key: Digit, i: nat)
    requires i < |s| && |next| == K && InRange(key) && NextFree(next, s, key, i)
    ensures next[key(s[i])] == Start(s, key, key(s[i])) + |WithDigit(s[..i], key, key(s[i]))|
    ensures NextFree(next[key(s[i]) := next[key(s[i])] + 1], s, key, i + 1)
  {
    PlaceFree(s, key, i);
  }

  method PlaceOne(p: nat, dst: array<nat>, n: nat, key: Digit, next: array<nat>, ghost s: seq<nat>, ghost i: nat)
    requires i < |s| == n <= dst.Length && p == s[i] && next.Length == K && InRange(key) && dst != next
    requires NextFree(next[..], s, key, i) && PlacedUpTo(dst[..], s, key, i)
    modifies dst, next
    ensures NextFree(next[..], s, key, i + 1) && PlacedUpTo(dst[..], s, key, i + 1)
    ensures forall k :: n <= k < dst.Length ==> dst[k] == old(dst[k])
  {
    hide PlacedUpTo, NextFree;
    NextStep(next[..], s, key, i);
    PlaceNext(dst[..], s, key, i);
    ghost var before, free := dst[..], next[..];
    var r := key(p);
    var o := next[r];
    next[r] := next[r] + 1;
    dst[o] := p;
    assert dst[..] == before[o := p] && next[..] == free[r := o + 1];
  }

  method Place(src: array<nat>, dst: array<nat>, n: nat, key: Digit, next: array<nat>)
    requires n <= src.Length && n <= dst.Length && next.Length == K && InRange(key)
    requires src != dst && src != next && dst != next
    requires forall r: nat :: r < K ==> next[r] == Start(src[..n], key, r)
    modifies dst, next
    ensures dst[..n] == Buckets(src[..n], key, K)
    ensures forall k :: n <= k < dst.Length ==> dst[k] == old(dst[k])
  {
    ghost var s := src[..n];
    StartOfAll(s, key);
    forall r: nat | r < K
      ensures Placed(dst[..], s, key, 0, r)
    {
      StartMonotone(s, key, r, K);
    }
    for i := 0 to n
      invariant src[..n] == s
      invariant NextFree(next[..], s, key, i) && PlacedUpTo(dst[..], s, key, i)
      invariant forall k :: n <= k < dst.Length ==> dst[k] == old(dst[k])
    {
      hide PlacedUpTo, NextFree;
      PlaceOne(src[i], dst, n, key, next, s, i);
    }
    AllPlaced(dst[..], s, key, K);
  }

  // ------------------------------------------------------------------ two passes

  /** Sorted by the trigram, and by file id where the input was. */
  ghost function RadixSorted(s: seq<nat>): seq<nat> {
    Buckets(Buckets(s, LowDigit, K), HighDigit, K)
  }

  /** The package's scratch storage, kept between calls. */
  class Scratch {
    var sortTmp: array<nat>
    const sortN: array<nat>

    ghost predicate Valid()
      reads this
    {
      sortN.Length == K && sortN != sortTmp
    }

    constructor ()
      ensures Valid() && fresh(sortTmp) && fresh(sortN)
    {
      sortTmp := new nat[0];
      sortN := new nat[K];
    }

    method Pass(src: array<nat>, dst: array<nat>, n: nat, key: Digit)
      requires Valid() && n <= src.Length && n <= dst.Length && InRange(key)
      requires src != dst && src != sortN && dst != sortN
      modifies dst, sortN
      ensures dst[..n] == Buckets(src[..n], key, K)
      ensures forall k :: n <= k < dst.Length ==> dst[k] == old(dst[k])
    {
      CountDigits(src, n, key, sortN);
      SumCounts(sortN, src[..n], key);
      Place(src, dst, n, key, sortN);
    }

    /** sortPost: two stable counting passes, from post to the scratch storage and back. */
    method SortPost(post: array<nat>, n: nat)
      requires Valid() && n <= post.Length && post != sortTmp && post != sortN
      modifies this`sortTmp, sortTmp, sortN, post
      ensures Valid() && (sortTmp == old(sortTmp) || fresh(sortTmp))
      ensures post[..n] == RadixSorted(old(post[..n]))
      ensures forall k :: n <= k < post.Length ==> post[k] == old(post[k])
    {
      if n > sortTmp.Length {
        sortTmp := new nat[n];
      }
      Pass(post, sortTmp, n, LowDigit);
      Pass(sortTmp, post, n, HighDigit);
    }
  }

  // ---------------------------------------------------------------- what sorting means

  type Order = (nat, nat) -> bool

  ghost predicate Ordered(s: seq<nat>, le: Order) {
    forall i, j :: 0 <= i < j < |s| ==> le(s[i], s[j])
  }

  /** First by digit, then by the order that was there before. */
  ghost function Lex(key: Digit, le: Order): Order {
    (d: nat, e: nat) => key(d) < key(e) || (key(d) == key(e) && le(d, e))
  }

  lemma {:induction false} WithDigitKeepsOrder(s: seq<nat>, key: Digit, r: nat, le: Order)
    requires Ordered(s, le)
    ensures Ordered(WithDigit(s, key, r), le)
    ensures forall e :: e in WithDigit(s, key, r) ==> e in s && key(e) == r
  {
    if s != [] {
      WithDigitKeepsOrder(s[..|s| - 1], key, r, le);
      var w := WithDigit(s[..|s| - 1], key, r);
      forall k | 0 <= k < |w|
        ensures le(w[k], s[|s| - 1])
      {
        assert w[k] in w;
        var j :| 0 <= j < |s| - 1 && s[j] == w[k];
      }
    }
  }

  lemma {:induction false} StableOrder(s: seq<nat>, key: Digit, m: nat, le: Order)
    requires Ordered(s, le)
    ensures Ordered(Buckets(s, key, m), Lex(key, le))
    ensures forall e :: e in Buckets(s, key, m) ==> key(e) < m
  {
    if m > 0 {
      StableOrder(s, key, m - 1, le);
      WithDigitKeepsOrder(s, key, m - 1, le);
      var b, w := Buckets(s, key, m - 1), WithDigit(s, key, m - 1);
      forall i, j | 0 <= i < j < |b + w|
        ensures Lex(key, le)((b + w)[i], (b + w)[j])
      {
        assert i < |b| ==> b[i] in b;
        assert i >= |b| ==> w[i - |b|] in w;
        assert j >= |b| ==> w[j - |b|] in w;
      }
    }
  }

  lemma ByBothDigits(d: nat, e: nat)
    requires d < FileIdSpan * K * K && e < FileIdSpan * K * K
    requires Lex(HighDigit, Lex(LowDigit, (x: nat, y: nat) => FileIdOf(x) <= FileIdOf(y)))(d, e)
    ensures d <= e
  {
    DigitsOf(d);
    DigitsOf(e);
  }

  lemma DigitsOf(e: nat)
    requires e < FileIdSpan * K * K
    ensures e == (HighDigit(e) * K + LowDigit(e)) * FileIdSpan + FileIdOf(e) && FileIdOf(e) < FileIdSpan && LowDigit(e) < K
  {
    var t := e / FileIdSpan;
    assert t == (t / K) * K + t % K;
    assert e / (FileIdSpan * K) == t / K;
    assert t / K < K;
  }

  /** 64-bit entries whose file ids do not descend come out in ascending order, each as often as it went in. */
  lemma RadixSorts(s: seq<nat>)
    requires forall k :: 0 <= k < |s| ==> s[k] < FileIdSpan * K * K
    requires forall i, j :: 0 <= i < j < |s| ==> FileIdOf(s[i]) <= FileIdOf(s[j])
    ensures var r := RadixSorted(s);
            multiset(r) == multiset(s) && forall i, j :: 0 <= i < j < |r| ==> r[i] <= r[j]
  {
    var le: Order := (x: nat, y: nat) => FileIdOf(x) <= FileIdOf(y);
    var t := Buckets(s, LowDigit, K);
    DigitTotals(s, LowDigit, K);
    DigitTotals(t, HighDigit, K);
    StableOrder(s, LowDigit, K, le);
    StableOrder(t, HighDigit, K, Lex(LowDigit, le));
    var r := RadixSorted(s);
    forall i, j | 0 <= i < j < |r|
      ensures r[i] <= r[j]
    {
      assert r[i] in multiset(r) && r[j] in multiset(r);
      assert r[i] in s && r[j] in s;
      ByBothDigits(r[i], r[j]);
    }
  }
}
