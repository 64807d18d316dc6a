/** The priority queue that merges sorted chunks (postHeap in internal/codesearch/index/write.go). */
module PostHeaps {
  import opened PostingLists
  import opened RadixSort

  /** A chunk of entries: the first one, and those that its reader will still deliver. */
  datatype Chunk = Chunk(e: nat, rest: seq<nat>)

  ghost predicate NotDescending(s: seq<nat>) {
    forall i, j :: 0 <= i < j < |s| ==> s[i] <= s[j]
  }

  // ------------------------------------------------------------------------ contents

  ghost function Entries(c: Chunk): seq<nat> {
    [c.e] + c.rest
  }

  /** How often x is in the chunk. */
  ghost function Occurs(c: Chunk, x: nat): nat {
    multiset(Entries(c))[x]
  }

  /** How often x is in the chunks. */
  ghost function Count(ch: seq<Chunk>, x: nat): nat {
    if ch == [] then 0 else Count(ch[..|ch| - 1], x) + Occurs(ch[|ch| - 1], x)
  }

  lemma {:induction false} CountUpdate(ch: seq<Chunk>, i: nat, c: Chunk, x: nat)
    requires i < |ch|
    ensures Count(ch[i := c], x) == Count(ch, x) - Occurs(ch[i], x) + Occurs(c, x)
    decreases |ch|
  {
    hide Occurs;
    var n := |ch| - 1;
    if i == n {
      assert ch[i := c][..n] == ch[..n];
    } else {
      CountUpdate(ch[..n], i, c, x);
      assert ch[i := c][..n] == ch[..n][i := c];
    }
  }

  function Swapped(ch: seq<Chunk>, i: nat, j: nat): seq<Chunk>
    requires i < |ch| && j < |ch|
  {
    ch[i := ch[j]][j := ch[i]]
  }

  ghost predicate SameEntries(ch: seq<Chunk>, ch': seq<Chunk>) {
    forall x: nat :: Count(ch, x) == Count(ch', x)
  }

  lemma SwapKeepsEntries(ch: seq<Chunk>, i: nat, j: nat)
    requires i < |ch| && j < |ch|
    ensures SameEntries(ch, Swapped(ch, i, j))
  {
    hide Count, Occurs;
    forall x: nat
      ensures Count(ch, x) == Count(Swapped(ch, i, j), x)
    {
      CountUpdate(ch, i, ch[j], x);
      CountUpdate(ch[i := ch[j]], j, ch[i], x);
      if i == j {
        assert Swapped(ch, i, j) == ch;
      }
    }
  }

  lemma CountOneMore(ch: seq<Chunk>, c: Chunk)
    ensures forall x: nat :: Count(ch + [c], x) == Count(ch, x) + Occurs(c, x)
  {
    assert (ch + [c])[..|ch|] == ch;
  }

  // ---------------------------------------------------------------------- heap order

  /** (j - 1) / 2, truncated towards zero: the first element is its own parent. */
  function Parent(j: nat): nat {
    if j == 0 then 0 else (j - 1) / 2
  }

  ghost predicate Heap(ch: seq<Chunk>) {
    forall k :: 0 < k < |ch| ==> ch[Parent(k)].e <= ch[k].e
  }

  /** Heap order, except that the element at i may be too big for its place. */
  ghost predicate HeapAbove(ch: seq<Chunk>, i: nat) {
    && (forall k :: 0 < k < |ch| && Parent(k) != i ==> ch[Parent(k)].e <= ch[k].e)
    && (forall k :: 0 < k < |ch| && Parent(k) == i && 0 < i < |ch| ==> ch[Parent(i)].e <= ch[k].e)
  }

  /** Heap order, except that the element at j may be too small for its place. */
  ghost predicate HeapBelow(ch: seq<Chunk>, j: nat) {
    && (forall k :: 0 < k < |ch| && k != j ==> ch[Parent(k)].e <= ch[k].e)
    && (forall k :: 0 < k < |ch| && Parent(k) == j && 0 < j < |ch| ==> ch[Parent(j)].e <= ch[k].e)
  }

  lemma {:induction false} FirstIsLeast(ch: seq<Chunk>, k: nat)
    requires Heap(ch) && k < |ch|
    ensures ch[0].e <= ch[k].e
  {
    if k > 0 {
      FirstIsLeast(ch, Parent(k));
    }
  }

  ghost predicate AllSorted(ch: seq<Chunk>) {
    forall k :: 0 <= k < |ch| ==> NotDescending(Entries(ch[k]))
  }

  lemma {:induction false} InSome(ch: seq<Chunk>, x: nat) returns (k: nat)
    requires Count(ch, x) > 0
    ensures k < |ch| && x in Entries(ch[k])
  {
    var n := |ch| - 1;
    if Count(ch[..n], x) > 0 {
      k := InSome(ch[..n], x);
    } else {
      k := n;
      assert x in multiset(Entries(ch[n]));
    }
  }

  lemma FirstIsMinimum(ch: seq<Chunk>, x: nat)
    requires ch != [] && Heap(ch) && AllSorted(ch) && Count(ch, x) > 0
    ensures ch[0].e <= x
  {
    var k := InSome(ch, x);
    FirstIsLeast(ch, k);
    var j :| 0 <= j < |Entries(ch[k])| && Entries(ch[k])[j] == x;
    assert Entries(ch[k])[0] == ch[k].e;
  }

  lemma SwapDown(ch: seq<Chunk>, i: nat, j: nat)
    requires HeapAbove(ch, i) && 2 * i + 1 <= j <= 2 * i + 2 && j < |ch| && ch[i].e >= ch[j].e
    requires (2 * i + 1 < |ch| ==> ch[j].e <= ch[2 * i + 1].e) && (2 * i + 2 < |ch| ==> ch[j].e <= ch[2 * i + 2].e)
    ensures HeapAbove(Swapped(ch, i, j), j)
  {
    assert Parent(j) == i;
    var t := Swapped(ch, i, j);
    forall k | 0 < k < |t| && Parent(k) != j
      ensures t[Parent(k)].e <= t[k].e
    {
      if Parent(k) == i {
        assert k == 2 * i + 1 || k == 2 * i + 2;
      } else if k == i {
        assert Parent(j) == i;
      }
    }
    forall k | 0 < k < |t| && Parent(k) == j
      ensures t[Parent(j)].e <= t[k].e
    {
      assert k != i && k != j;
    }
  }

  /** An element that is not above its children is in place. */
  lemma SettledDown(ch: seq<Chunk>, i: nat)
    requires HeapAbove(ch, i) && i < |ch|
    requires (2 * i + 1 < |ch| ==> ch[i].e <= ch[2 * i + 1].e) && (2 * i + 2 < |ch| ==> ch[i].e <= ch[2 * i + 2].e)
    ensures Heap(ch)
  {
    assert forall k :: 0 < k && Parent(k) == i ==> k == 2 * i + 1 || k == 2 * i + 2;
  }

  lemma SwapUp(ch: seq<Chunk>, j: nat)
    requires HeapBelow(ch, j) && 0 < j < |ch| && ch[Parent(j)].e >= ch[j].e
    ensures HeapBelow(Swapped(ch, Parent(j), j), Parent(j))
  {
    var i := Parent(j);
    var t := Swapped(ch, i, j);
    forall k | 0 < k < |t| && k != i
      ensures t[Parent(k)].e <= t[k].e
    {
      assert i > 0 ==> ch[Parent(i)].e <= ch[i].e;
    }
  }

  // ------------------------------------------------------------------------- postHeap

  class PostHeap {
    var ch: seq<Chunk>

    ghost predicate Valid()
      reads this
    {
      Heap(ch) && AllSorted(ch)
    }

    constructor ()
      ensures Valid() && ch == []
    {
      ch := [];
    }

    method SiftDown(i0: nat)
      requires i0 < |ch| && HeapAbove(ch, i0) && AllSorted(ch)
      modifies this
      ensures Valid() && SameEntries(ch, old(ch))
    {
      hide Count, HeapAbove, Heap, Parent;
      var i := i0;
      while true
        invariant 0 <= i < |ch| && HeapAbove(ch, i) && AllSorted(ch) && SameEntries(ch, old(ch))
        decreases |ch| - i
      {
        var j1 := 2 * i + 1;
        if j1 >= |ch| {
          SettledDown(ch, i);
          break;
        }
        var j := j1;
        var j2 := j1 + 1;
        if j2 < |ch| && ch[j1].e >= ch[j2].e {
          j := j2;
        }
        if ch[i].e < ch[j].e {
          SettledDown(ch, i);
          break;
        }
        SwapDown(ch, i, j);
        SwapKeepsEntries(ch, i, j);
        ch := ch[i := ch[j]][j := ch[i]];
        i := j;
      }
    }

    method SiftUp(j0: nat)
      requires j0 < |ch| && HeapBelow(ch, j0) && AllSorted(ch)
      modifies this
      ensures Valid() && SameEntries(ch, old(ch))
    {
      var j := j0;
      while true
        invariant 0 <= j < |ch| && HeapBelow(ch, j) && AllSorted(ch) && SameEntries(ch, old(ch))
        decreases j
      {
        var i := Parent(j);
        if i == j || ch[i].e < ch[j].e {
          break;
        }
        hide Count, HeapBelow;
        SwapUp(ch, j);
        SwapKeepsEntries(ch, i, j);
        ch := ch[i := ch[j]][j := ch[i]];
        j := i;
      }
    }

    method Push(c: Chunk)
      requires Valid() && NotDescending(Entries(c))
      modifies this
      ensures Valid() && forall x: nat :: Count(ch, x) == Count(old(ch), x) + Occurs(c, x)
    {
      var n := |ch|;
      CountOneMore(ch, c);
      ch := ch + [c];
      if |ch| >= 2 {
        SiftUp(n);
      }
    }

    method Pop() returns (c: Chunk)
      requires Valid() && ch != []
      modifies this
      ensures Valid() && c == old(ch)[0] && forall x: nat :: Count(ch, x) == Count(old(ch), x) - Occurs(c, x)
    {
      c := ch[0];
      var n := |ch| - 1;
      var moved := ch[0 := ch[n]];
      forall x: nat
        ensures Count(moved[..n], x) == Count(ch, x) - Occurs(c, x)
      {
        CountUpdate(ch, 0, ch[n], x);
        assert Count(moved, x) == Count(moved[..n], x) + Occurs(moved[n], x);
      }
      ch := moved[..n];
      if n > 1 {
        SiftDown(0);
      }
    }

    /** add: chunks without entries are left out. */
    method Add(x: seq<nat>)
      requires Valid() && NotDescending(x)
      modifies this
      ensures Valid() && forall e: nat :: Count(ch, e) == Count(old(ch), e) + multiset(x)[e]
    {
      if |x| > 0 {
        var c := Chunk(x[0], x[1..]);
        assert Entries(c) == x;
        Push(c);
      }
    }

    /** next delivers the least entry and removes one occurrence of it, and when nothing is left
        the entry of the invalid trigram. */
    method Next() returns (e: nat)
      requires Valid()
      modifies this
      ensures Valid()
      ensures old(ch) == [] ==> e == MakeEntry(InvalidTrigram, 0) && ch == []
      ensures old(ch) != [] ==>
                && Count(old(ch), e) > 0 && (forall x: nat :: Count(old(ch), x) > 0 ==> e <= x)
                && (forall x: nat :: Count(ch, x) == Count(old(ch), x) - if x == e then 1 else 0)
    {
      if |ch| == 0 {
        return MakeEntry(InvalidTrigram, 0);
      }
      var c := ch[0];
      e := c.e;
      FirstEntry(ch);
      if |c.rest| == 0 {
        OneEntryLeft(c);
        var _ := Pop();
      } else {
        var c' := Chunk(c.rest[0], c.rest[1..]);
        NextEntry(ch, c');
        ch := ch[0 := c'];
        SiftDown(0);
      }
    }

    // ------------------------------------------------------------- the merged sequence

    /** The entries that are still to come, in ascending order. */
    ghost predicate Yields(todo: seq<nat>)
      reads this
    {
      Valid() && NotDescending(todo) && forall x: nat :: Count(ch, x) == multiset(todo)[x]
    }

    /** Repeated calls of next go through the sorted entries of all chunks, and then give only the entry of
        the invalid trigram. */
    method NextOf(ghost todo: seq<nat>) returns (e: nat)
      requires Yields(todo)
      modifies this
      ensures todo != [] ==> e == todo[0] && Yields(todo[1..])
      ensures todo == [] ==> e == MakeEntry(InvalidTrigram, 0) && Yields([])
    {
      NothingLeft(ch, todo);
      ghost var before := ch;
      e := Next();
      if todo != [] {
        Least(todo, e, x => Count(before, x));
      }
    }
  }

  lemma FirstEntry(ch: seq<Chunk>)
    requires ch != [] && Heap(ch) && AllSorted(ch)
    ensures Count(ch, ch[0].e) > 0 && forall x: nat :: Count(ch, x) > 0 ==> ch[0].e <= x
  {
    CountUpdate(ch, 0, ch[0], ch[0].e);
    CountAtLeast(ch, 0, ch[0].e);
    assert ch[0].e in multiset(Entries(ch[0]));
    forall x: nat | Count(ch, x) > 0
      ensures ch[0].e <= x
    {
      FirstIsMinimum(ch, x);
    }
  }

  lemma {:induction false} CountAtLeast(ch: seq<Chunk>, k: nat, x: nat)
    requires k < |ch|
    ensures Occurs(ch[k], x) <= Count(ch, x)
    decreases |ch|
  {
    if k < |ch| - 1 {
      CountAtLeast(ch[..|ch| - 1], k, x);
    }
  }

  lemma OneEntryLeft(c: Chunk)
    requires c.rest == []
    ensures forall x: nat :: Occurs(c, x) == if x == c.e then 1 else 0
  {
    assert Entries(c) == [c.e];
  }

  /** The first chunk goes on to its next entry. */
  lemma NextEntry(ch: seq<Chunk>, c': Chunk)
    requires ch != [] && Heap(ch) && AllSorted(ch) && ch[0].rest == Entries(c')
    ensures HeapAbove(ch[0 := c'], 0) && AllSorted(ch[0 := c'])
    ensures forall x: nat :: Count(ch[0 := c'], x) == Count(ch, x) - if x == ch[0].e then 1 else 0
  {
    var c := ch[0];
    assert Entries(c) == [c.e] + Entries(c');
    RestSorted(c.e, Entries(c'));
    forall x: nat
      ensures Count(ch[0 := c'], x) == Count(ch, x) - if x == c.e then 1 else 0
    {
      CountUpdate(ch, 0, c', x);
    }
  }

  lemma RestSorted(e: nat, rest: seq<nat>)
    requires NotDescending([e] + rest)
    ensures NotDescending(rest) && forall k :: 0 <= k < |rest| ==> e <= rest[k]
  {
    var s := [e] + rest;
    assert forall i :: 0 <= i < |rest| ==> rest[i] == s[i + 1];
    forall k | 0 <= k < |rest|
      ensures e <= rest[k]
    {
      assert s[0] <= s[k + 1];
    }
  }

  lemma NothingLeft(ch: seq<Chunk>, todo: seq<nat>)
    requires forall x: nat :: Count(ch, x) == multiset(todo)[x]
    ensures ch == [] <==> todo == []
  {
    if ch != [] {
      CountAtLeast(ch, 0, ch[0].e);
      assert ch[0].e in multiset(Entries(ch[0]));
      assert multiset(todo)[ch[0].e] > 0;
    }
    if todo != [] {
      assert todo[0] in multiset(todo);
      assert Count(ch, todo[0]) > 0;
    }
  }

  /** The least of the entries is the first one in order. */
  lemma Least(todo: seq<nat>, e: nat, count: nat -> nat)
    requires todo != [] && NotDescending(todo) && forall x: nat :: count(x) == multiset(todo)[x]
    requires count(e) > 0 && forall x: nat :: count(x) > 0 ==> e <= x
    ensures e == todo[0]
    ensures forall x: nat :: multiset(todo[1..])[x] == count(x) - if x == e then 1 else 0
  {
    assert todo == [todo[0]] + todo[1..];
    assert count(todo[0]) == multiset(todo)[todo[0]];
    assert todo[0] in multiset(todo);
    assert e in todo by {
      assert e in multiset(todo);
    }
  }
}
