/** Renumbering the files of two indexes that are merged (the maps of Merge in internal/codesearch/index/merge.go). */
module MergeMaps {
  import opened Bytes
  import opened Paths

  /** The ids from lo up to hi become those from new_ on. */
  datatype Range = Range(lo: nat, hi: nat, new_: nat)

  /** Which name a new id stands for: one of the first or of the second index. */
  datatype Origin = Origin(first: bool, id: nat)

  // ------------------------------------------------------------------------- maps

  ghost predicate MapsTo(m: seq<Range>, i: nat, n: nat) {
    exists k :: 0 <= k < |m| && Sends(m[k], i, n)
  }

  predicate Sends(r: Range, i: nat, n: nat) {
    r.lo <= i < r.hi && n == r.new_ + (i - r.lo)
  }

  /** Ranges in ascending order, of old ids and of new ones. */
  ghost predicate Increasing(m: seq<Range>) {
    && (forall k :: 0 <= k < |m| ==> m[k].lo < m[k].hi)
    && (forall j, k :: 0 <= j < k < |m| ==> m[j].hi <= m[k].lo && m[j].new_ + (m[j].hi - m[j].lo) <= m[k].new_)
  }

  ghost predicate Below(m: seq<Range>, hi: nat, new_: nat) {
    forall k :: 0 <= k < |m| ==> m[k].hi <= hi && m[k].new_ + (m[k].hi - m[k].lo) <= new_
  }

  /** An increasing map keeps the order of the ids it does not drop. */
  lemma MapsInOrder(m: seq<Range>, i: nat, j: nat, n: nat, o: nat)
    requires Increasing(m) && MapsTo(m, i, n) && MapsTo(m, j, o)
    ensures i < j ==> n < o
    ensures i == j ==> n == o
  {
    var a :| 0 <= a < |m| && Sends(m[a], i, n);
    var b :| 0 <= b < |m| && Sends(m[b], j, o);
    if a < b {
      assert m[a].hi <= m[b].lo;
    } else if b < a {
      assert m[b].hi <= m[a].lo;
    }
  }

  ghost function Segment(first: bool, lo: nat, hi: nat): seq<Origin>
    requires lo <= hi
  {
    seq(hi - lo, k requires 0 <= k < hi - lo => Origin(first, lo + k))
  }

  /** The map says where the names of one index have gone. */
  ghost predicate Agrees(m: seq<Range>, first: bool, origin: seq<Origin>) {
    && (forall n :: 0 <= n < |origin| && origin[n].first == first ==> MapsTo(m, origin[n].id, n))
    && (forall i: nat, n: nat :: MapsTo(m, i, n) ==> n < |origin| && origin[n] == Origin(first, i))
  }

  lemma AgreesOther(m: seq<Range>, first: bool, origin: seq<Origin>, lo: nat, hi: nat)
    requires Agrees(m, first, origin) && lo <= hi
    ensures Agrees(m, first, origin + Segment(!first, lo, hi))
  {
  }

  lemma AgreesMore(m: seq<Range>, first: bool, origin: seq<Origin>, lo: nat, hi: nat)
    requires Agrees(m, first, origin) && lo < hi
    ensures Agrees(m + [Range(lo, hi, |origin|)], first, origin + Segment(first, lo, hi))
  {
    var r := Range(lo, hi, |origin|);
    var m', origin' := m + [r], origin + Segment(first, lo, hi);
    forall n | 0 <= n < |origin'| && origin'[n].first == first
      ensures MapsTo(m', origin'[n].id, n)
    {
      if n < |origin| {
        assert MapsTo(m, origin[n].id, n);
        var k :| 0 <= k < |m| && Sends(m[k], origin[n].id, n);
        assert Sends(m'[k], origin[n].id, n);
      } else {
        assert Sends(m'[|m|], origin'[n].id, n);
      }
    }
    forall i: nat, n: nat | MapsTo(m', i, n)
      ensures n < |origin'| && origin'[n] == Origin(first, i)
    {
      var k :| 0 <= k < |m'| && Sends(m'[k], i, n);
      if k < |m| {
        assert Sends(m[k], i, n);
        assert MapsTo(m, i, n);
      }
    }
  }

  /** Appends a range, unless it is empty. */
  method AddRange(m0: seq<Range>, lo: nat, hi: nat, new0: nat, first: bool, ghost other: seq<Range>, ghost origin: seq<Origin>)
    returns (m: seq<Range>, new_: nat)
    requires lo <= hi && Increasing(m0) && Below(m0, lo, new0) && new0 == |origin|
    requires Agrees(m0, first, origin) && Agrees(other, !first, origin)
    ensures Increasing(m) && Below(m, hi, new_) && new_ == |origin + Segment(first, lo, hi)|
    ensures Agrees(m, first, origin + Segment(first, lo, hi)) && Agrees(other, !first, origin + Segment(first, lo, hi))
  {
    m, new_ := m0, new0;
    AgreesOther(other, !first, origin, lo, hi);
    if lo < hi {
      AgreesMore(m0, first, origin, lo, hi);
      m := m + [Range(lo, hi, new_)];
      new_ := new_ + (hi - lo);
    } else {
      assert origin + Segment(first, lo, hi) == origin;
    }
  }

  // ------------------------------------------------------------------------- names

  predicate Before(p: Str, q: Str) {
    Less(Keys(p), Keys(q))
  }

  ghost predicate NamesSorted(names: seq<Str>) {
    forall i, j :: 0 <= i < j < |names| ==> Before(names[i], names[j])
  }

  function Limit(root: Str): Str {
    root + [2]
  }

  lemma BeforeNot(p: Str, q: Str, r: Str)
    requires !Before(p, q)
    ensures Before(r, q) ==> Before(r, p)
    ensures Before(p, r) ==> Before(q, r)
  {
    LessTotal(Keys(p), Keys(q));
    if Less(Keys(q), Keys(p)) {
      if Before(r, q) {
        LessTransitive(Keys(r), Keys(q), Keys(p));
      }
      if Before(p, r) {
        LessTransitive(Keys(q), Keys(p), Keys(r));
      }
    }
  }

  lemma BeforeBoth(p: Str, q: Str, r: Str)
    requires Before(p, q) && Before(q, r)
    ensures Before(p, r)
  {
    LessTransitive(Keys(p), Keys(q), Keys(r));
  }

  /** Passes over the names before bound. */
  method Skip(names: seq<Str>, i0: nat, bound: Str) returns (i: nat)
    requires i0 <= |names|
    ensures i0 <= i <= |names| && (forall k :: i0 <= k < i ==> Before(names[k], bound))
    ensures i < |names| ==> !Before(names[i], bound)
    ensures NamesSorted(names) ==> NoneBefore(names, i, bound)
  {
    i := i0;
    while i < |names|
      invariant i0 <= i <= |names| && forall k :: i0 <= k < i ==> Before(names[k], bound)
    {
      var c := Compare(names[i], bound);
      if c >= 0 {
        break;
      }
      i := i + 1;
    }
    if NamesSorted(names) {
      NotBefore(names, i, bound);
    }
  }

  ghost predicate NoneBefore(names: seq<Str>, i: nat, bound: Str) {
    forall k :: i <= k < |names| ==> !Before(names[k], bound)
  }

  /** In a sorted list, those behind the one that stopped the scan are not before the bound either. */
  lemma NotBefore(names: seq<Str>, i: nat, bound: Str)
    requires NamesSorted(names) && (i < |names| ==> !Before(names[i], bound))
    ensures NoneBefore(names, i, bound)
  {
    forall k | i <= k < |names|
      ensures !Before(names[k], bound)
    {
      if i < k && Before(names[k], bound) {
        BeforeBoth(names[i], names[k], bound);
      }
    }
  }

  function NameOf(names1: seq<Str>, names2: seq<Str>, o: Origin): Str {
    var names := if o.first then names1 else names2;
    if o.id < |names| then names[o.id] else []
  }

  // ------------------------------------------------------------------ what is proved

  ghost predicate Shadowed(roots: seq<Str>, p: Str) {
    exists k :: 0 <= k < |roots| && Covers(roots[k], p)
  }

  /** The names of the new ids, in order. */
  ghost predicate NamesAscend(names1: seq<Str>, names2: seq<Str>, origin: seq<Origin>) {
    forall a, b :: 0 <= a < b < |origin| ==> Before(NameOf(names1, names2, origin[a]), NameOf(names1, names2, origin[b]))
  }

  /** All names that have got new ids are before those from i on. */
  ghost predicate AllBefore(names1: seq<Str>, names2: seq<Str>, origin: seq<Origin>, names: seq<Str>, i: nat) {
    forall a, k :: 0 <= a < |origin| && i <= k < |names| ==> Before(NameOf(names1, names2, origin[a]), names[k])
  }

  lemma AllBeforeLater(names1: seq<Str>, names2: seq<Str>, origin: seq<Origin>, names: seq<Str>, i: nat, j: nat)
    requires AllBefore(names1, names2, origin, names, i) && i <= j
    ensures AllBefore(names1, names2, origin, names, j)
  {
  }

  /** A piece of a sorted list goes behind names that are all before it. */
  lemma AppendNames(names1: seq<Str>, names2: seq<Str>, origin: seq<Origin>, first: bool, lo: nat, hi: nat)
    requires var names := if first then names1 else names2;
             && lo <= hi <= |names| && NamesSorted(names) && NamesAscend(names1, names2, origin)
             && AllBefore(names1, names2, origin, names, lo)
    ensures NamesAscend(names1, names2, origin + Segment(first, lo, hi))
    ensures AllBefore(names1, names2, origin + Segment(first, lo, hi), if first then names1 else names2, hi)
  {
  }

  /** The piece is before the names of the other list if a bound is between them. */
  lemma BoundBetween(names1: seq<Str>, names2: seq<Str>, origin: seq<Origin>, first: bool, lo: nat, hi: nat, bound: Str, i: nat)
    requires var names := if first then names1 else names2;
             && lo <= hi <= |names| && (forall k :: lo <= k < hi ==> Before(names[k], bound))
             && AllBefore(names1, names2, origin, if first then names2 else names1, i)
    requires NoneBefore(if first then names2 else names1, i, bound)
    ensures AllBefore(names1, names2, origin + Segment(first, lo, hi), if first then names2 else names1, i)
  {
    var names, others := if first then names1 else names2, if first then names2 else names1;
    var o' := origin + Segment(first, lo, hi);
    forall a, k | 0 <= a < |o'| && i <= k < |others|
      ensures Before(NameOf(names1, names2, o'[a]), others[k])
    {
      if a >= |origin| {
        assert o'[a] == Origin(first, lo + (a - |origin|));
        BeforeNot(others[k], bound, names[lo + (a - |origin|)]);
      }
    }
  }

  // ---------------------------------------------------------------- the loop over roots

  ghost predicate Mapped(m: seq<Range>, i: nat) {
    exists n: nat :: MapsTo(m, i, n)
  }

  /** The maps of the ids that have been passed. */
  ghost predicate Maps(map1: seq<Range>, map2: seq<Range>, origin: seq<Origin>, i1: nat, i2: nat) {
    && Increasing(map1) && Below(map1, i1, |origin|) && Agrees(map1, true, origin)
    && Increasing(map2) && Below(map2, i2, |origin|) && Agrees(map2, false, origin)
    && |origin| <= i1 + i2 && forall j: nat :: j < i2 ==> Mapped(map2, j)
  }

  /** Up to i1 the files of the first index are mapped unless a root shadows them; up to i2 those of the
      second index are below some root, and no other file is below one of the roots passed. */
  ghost predicate Sorting(names1: seq<Str>, names2: seq<Str>, roots: seq<Str>, k: nat, map1: seq<Range>, i1: nat, i2: nat) {
    && k <= |roots| && i1 <= |names1| && i2 <= |names2|
    && (forall i: nat :: i < i1 ==> (Mapped(map1, i) <==> !Shadowed(roots[..k], names1[i])))
    && (forall i: nat, r :: i < i1 && k <= r < |roots| && Mapped(map1, i) ==> Before(names1[i], roots[r]))
    && (forall i: nat :: i1 <= i < |names1| ==> !Shadowed(roots[..k], names1[i]))
    && (forall j: nat :: j < i2 ==> Shadowed(roots[..k], names2[j]))
    && (forall j: nat :: i2 <= j < |names2| ==> !Shadowed(roots[..k], names2[j]))
  }

  ghost predicate Ordered(names1: seq<Str>, names2: seq<Str>, origin: seq<Origin>, i1: nat, i2: nat) {
    NamesAscend(names1, names2, origin) && AllBefore(names1, names2, origin, names1, i1) && AllBefore(names1, names2, origin, names2, i2)
  }

  lemma OneMoreRoot(roots: seq<Str>, k: nat, p: Str)
    requires k < |roots|
    ensures Shadowed(roots[..k + 1], p) <==> Shadowed(roots[..k], p) || Covers(roots[k], p)
  {
    var a, b := roots[..k], roots[..k + 1];
    assert forall j :: 0 <= j < k ==> a[j] == b[j];
    assert b[k] == roots[k];
  }

  lemma {:induction false} SegmentMapped(map0: seq<Range>, m: seq<Range>, first: bool, origin: seq<Origin>, lo: nat, hi: nat, i: nat)
    requires lo <= hi && Agrees(map0, first, origin) && Agrees(m, first, origin + Segment(first, lo, hi))
    ensures Mapped(m, i) <==> Mapped(map0, i) || lo <= i < hi
  {
    var o' := origin + Segment(first, lo, hi);
    if lo <= i < hi {
      assert o'[|origin| + (i - lo)] == Origin(first, i);
    }
    if n: nat :| MapsTo(map0, i, n) {
      assert o'[n] == Origin(first, i);
      assert MapsTo(m, i, n);
    }
    if n: nat :| MapsTo(m, i, n) {
      assert o'[n] == Origin(first, i);
      assert n < |origin| ==> MapsTo(map0, i, n);
    }
  }

  /** Which files a root moves from one side of the invariant to the other. */
  lemma RootSorted(names1: seq<Str>, names2: seq<Str>, roots: seq<Str>, k: nat, map1: seq<Range>, map1': seq<Range>,
                   origin: seq<Origin>, old1: nat, lo: nat, hi: nat, lo2: nat, hi2: nat)
    requires NamesSorted(roots) && k < |roots| && old1 <= lo <= hi <= |names1| && lo2 <= hi2 <= |names2|
    requires Sorting(names1, names2, roots, k, map1, old1, lo2) && Below(map1, old1, |origin|)
    requires Agrees(map1, true, origin) && Agrees(map1', true, origin + Segment(true, old1, lo))
    requires (forall i :: old1 <= i < lo ==> Before(names1[i], roots[k])) && NoneBefore(names1, lo, roots[k])
    requires (forall i :: lo <= i < hi ==> Before(names1[i], Limit(roots[k]))) && NoneBefore(names1, hi, Limit(roots[k]))
    requires NoneBefore(names2, lo2, roots[k])
    requires (forall j :: lo2 <= j < hi2 ==> Before(names2[j], Limit(roots[k]))) && NoneBefore(names2, hi2, Limit(roots[k]))
    ensures Sorting(names1, names2, roots, k + 1, map1', hi, hi2)
  {
    forall i: nat | i < |names1|
      ensures Shadowed(roots[..k + 1], names1[i]) <==> Shadowed(roots[..k], names1[i]) || Covers(roots[k], names1[i])
      ensures Mapped(map1', i) <==> Mapped(map1, i) || old1 <= i < lo
      ensures Mapped(map1, i) ==> i < old1
    {
      OneMoreRoot(roots, k, names1[i]);
      SegmentMapped(map1, map1', true, origin, old1, lo, i);
    }
    forall j: nat | j < |names2|
      ensures Shadowed(roots[..k + 1], names2[j]) <==> Shadowed(roots[..k], names2[j]) || Covers(roots[k], names2[j])
    {
      OneMoreRoot(roots, k, names2[j]);
    }
    forall i: nat, r | i < lo && k + 1 <= r < |roots| && Mapped(map1', i)
      ensures Before(names1[i], roots[r])
    {
      BeforeBoth(names1[i], roots[k], roots[r]);
    }
  }

  /** The names stay in order. */
  lemma RootOrdered(names1: seq<Str>, names2: seq<Str>, root: Str, origin: seq<Origin>,
                    old1: nat, lo: nat, hi: nat, lo2: nat, hi2: nat)
    requires NamesSorted(names1) && NamesSorted(names2) && old1 <= lo <= hi <= |names1| && lo2 <= hi2 <= |names2|
    requires Ordered(names1, names2, origin, old1, lo2)
    requires (forall i :: old1 <= i < lo ==> Before(names1[i], root)) && NoneBefore(names2, lo2, root)
    requires (forall j :: lo2 <= j < hi2 ==> Before(names2[j], Limit(root))) && NoneBefore(names1, hi, Limit(root))
    ensures Ordered(names1, names2, origin + Segment(true, old1, lo) + Segment(false, lo2, hi2), hi, hi2)
  {
    hide AllBefore, NamesAscend, NamesSorted, NoneBefore;
    var o1 := origin + Segment(true, old1, lo);
    AppendNames(names1, names2, origin, true, old1, lo);
    BoundBetween(names1, names2, origin, true, old1, lo, root, lo2);
    AllBeforeLater(names1, names2, o1, names1, lo, hi);
    AppendNames(names1, names2, o1, false, lo2, hi2);
    BoundBetween(names1, names2, o1, false, lo2, hi2, Limit(root), hi);
  }

  ghost predicate AllSorted(names1: seq<Str>, names2: seq<Str>, roots: seq<Str>) {
    NamesSorted(names1) && NamesSorted(names2) && NamesSorted(roots)
  }

  /** What is known while the roots are gone through. */
  ghost predicate Passing(names1: seq<Str>, names2: seq<Str>, roots: seq<Str>, k: nat,
                          map1: seq<Range>, map2: seq<Range>, origin: seq<Origin>, i1: nat, i2: nat) {
    && i1 <= |names1| && i2 <= |names2| && Maps(map1, map2, origin, i1, i2)
    && (AllSorted(names1, names2, roots) ==>
          Sorting(names1, names2, roots, k, map1, i1, i2) && Ordered(names1, names2, origin, i1, i2))
  }

  /** One root: the files of the first index before it keep their place, those below it are dropped, and
      those of the second index below it follow. It fails where the source calls the index inconsistent. */
  method PassRoot(names1: seq<Str>, names2: seq<Str>, roots: seq<Str>, k: nat, map1: seq<Range>, map2: seq<Range>,
                  old1: nat, old2: nat, new0: nat, ghost origin: seq<Origin>)
    returns (ok: bool, map1': seq<Range>, map2': seq<Range>, i1: nat, i2: nat, new_: nat, ghost origin': seq<Origin>)
    requires k < |roots| && new0 == |origin| && Passing(names1, names2, roots, k, map1, map2, origin, old1, old2)
    ensures ok ==> new_ == |origin'| && Passing(names1, names2, roots, k + 1, map1', map2', origin', i1, i2)
    ensures !ok ==> old2 < |names2| && Before(names2[old2], roots[k])
  {
    hide Sorting, Ordered, Agrees, Below, Increasing, NamesSorted, NoneBefore;
    var root := roots[k];
    var lo := Skip(names1, old1, root);
    i1 := Skip(names1, lo, Limit(root));
    map1', new_ := AddRange(map1, old1, lo, new0, true, map2, origin);
    ghost var o1 := origin + Segment(true, old1, lo);
    map2', i2, origin' := map2, old2, o1;
    if old2 < |names2| {
      var c := Compare(names2[old2], root);
      if c < 0 {
        ok := false;
        return;
      }
    }
    i2 := Skip(names2, old2, Limit(root));
    BelowLater(map1', lo, i1, new_);
    BelowLater(map2, old2, old2, new_);
    ghost var new1 := new_;
    map2', new_ := AddRange(map2, old2, i2, new_, false, map1', o1);
    BelowLater(map1', i1, i1, new_);
    origin' := o1 + Segment(false, old2, i2);
    ok := true;
    SecondMapped(map2, map2', o1, old2, i2);
    if AllSorted(names1, names2, roots) {
      NotBefore(names2, old2, root);
      RootSorted(names1, names2, roots, k, map1, map1', origin, old1, lo, i1, old2, i2);
      RootOrdered(names1, names2, root, origin, old1, lo, i1, old2, i2);
    }
  }

  lemma BelowLater(m: seq<Range>, hi: nat, hi': nat, new_: nat)
    requires exists n: nat :: n <= new_ && Below(m, hi, n)
    requires hi <= hi'
    ensures Below(m, hi', new_)
  {
  }

  lemma SecondMapped(map2: seq<Range>, map2': seq<Range>, origin: seq<Origin>, lo: nat, hi: nat)
    requires lo <= hi && Agrees(map2, false, origin) && Agrees(map2', false, origin + Segment(false, lo, hi))
    requires forall j: nat :: j < lo ==> Mapped(map2, j)
    ensures forall j: nat :: j < hi ==> Mapped(map2', j)
  {
    forall j: nat | j < hi
      ensures Mapped(map2', j)
    {
      SegmentMapped(map2, map2', false, origin, lo, hi, j);
    }
  }

  /** Where the new ids come from: each from a file of its own, among them every file of the second index, and,
      when the lists are sorted, exactly those files of the first that no root of the second covers. */
  ghost predicate Traced(names1: seq<Str>, names2: seq<Str>, roots: seq<Str>, origin: seq<Origin>) {
    && (forall n :: 0 <= n < |origin| ==> origin[n].id < |if origin[n].first then names1 else names2|)
    && (forall a, b :: 0 <= a < b < |origin| ==> origin[a] != origin[b])
    && (forall j: nat :: j < |names2| ==> Origin(false, j) in origin)
    && (AllSorted(names1, names2, roots) ==>
          forall i: nat :: i < |names1| ==> (Origin(true, i) in origin <==> !Shadowed(roots, names1[i])))
  }

  lemma MappedIsTraced(m: seq<Range>, first: bool, origin: seq<Origin>, i: nat)
    requires Agrees(m, first, origin)
    ensures Mapped(m, i) <==> Origin(first, i) in origin
  {
    if n: nat :| MapsTo(m, i, n) {
      assert origin[n] == Origin(first, i);
    }
    if n :| 0 <= n < |origin| && origin[n] == Origin(first, i) {
      assert MapsTo(m, origin[n].id, n);
    }
  }

  lemma TracedOnce(m: seq<Range>, first: bool, origin: seq<Origin>, hi: nat, a: nat, b: nat)
    requires Increasing(m) && Agrees(m, first, origin) && Below(m, hi, |origin|)
    requires a < |origin| && b < |origin| && origin[a] == origin[b] && origin[a].first == first
    ensures a == b && origin[a].id < hi
  {
    assert MapsTo(m, origin[a].id, a) && MapsTo(m, origin[b].id, b);
    MapsInOrder(m, origin[a].id, origin[b].id, a, b);
  }

  lemma AllTraced(names1: seq<Str>, names2: seq<Str>, roots: seq<Str>, map1: seq<Range>, map2: seq<Range>, origin: seq<Origin>)
    requires Increasing(map1) && Increasing(map2) && Agrees(map1, true, origin) && Agrees(map2, false, origin)
    requires Below(map1, |names1|, |origin|) && Below(map2, |names2|, |origin|)
    requires forall j: nat :: j < |names2| ==> Mapped(map2, j)
    requires AllSorted(names1, names2, roots) ==>
               forall i: nat :: i < |names1| ==> (Mapped(map1, i) <==> !Shadowed(roots, names1[i]))
    ensures Traced(names1, names2, roots, origin)
  {
    hide Increasing, Agrees, Below, Mapped, AllSorted, Shadowed;
    forall a, b | 0 <= a < |origin| && 0 <= b < |origin| && origin[a] == origin[b]
      ensures a == b && origin[a].id < |if origin[a].first then names1 else names2|
    {
      if origin[a].first {
        TracedOnce(map1, true, origin, |names1|, a, b);
      } else {
        TracedOnce(map2, false, origin, |names2|, a, b);
      }
    }
    forall i: nat
      ensures Mapped(map1, i) <==> Origin(true, i) in origin
      ensures Mapped(map2, i) <==> Origin(false, i) in origin
    {
      MappedIsTraced(map1, true, origin, i);
      MappedIsTraced(map2, false, origin, i);
    }
    forall n | 0 <= n < |origin|
      ensures origin[n].id < |if origin[n].first then names1 else names2|
    {
      assert origin[n] == origin[n];
    }
  }

  /** The maps of Merge. The new ids are those of the names of both indexes that are mapped, each once; both
      maps are increasing; every file of the second index is mapped. When the lists are sorted, the files of
      the first index that are mapped are those that no root of the second one covers, the names of the new
      ids ascend, and the maps exist exactly if some root covers each file of the second index. */
  method BuildMaps(names1: seq<Str>, names2: seq<Str>, roots: seq<Str>)
    returns (ok: bool, map1: seq<Range>, map2: seq<Range>, numName: nat, ghost origin: seq<Origin>)
    ensures ok ==> numName == |origin| <= |names1| + |names2| && Increasing(map1) && Increasing(map2)
    ensures ok ==> Agrees(map1, true, origin) && Agrees(map2, false, origin)
    ensures ok ==> Below(map1, |names1|, numName) && Below(map2, |names2|, numName)
    ensures ok ==> forall j: nat :: j < |names2| ==> Mapped(map2, j)
    ensures ok ==> Traced(names1, names2, roots, origin)
    ensures ok && AllSorted(names1, names2, roots) ==>
              (forall i: nat :: i < |names1| ==> (Mapped(map1, i) <==> !Shadowed(roots, names1[i]))) && NamesAscend(names1, names2, origin)
    ensures AllSorted(names1, names2, roots) ==> (ok <==> forall j :: 0 <= j < |names2| ==> Shadowed(roots, names2[j]))
  {
    var i1: nat, i2: nat, new_: nat := 0, 0, 0;
    map1, map2, origin, numName := [], [], [], 0;
    for k := 0 to |roots|
      invariant new_ == |origin| && Passing(names1, names2, roots, k, map1, map2, origin, i1, i2)
    {
      hide Passing;
      ghost var old2 := i2;
      OldSorting(names1, names2, roots, k, map1, map2, origin, i1, i2);
      ok, map1, map2, i1, i2, new_, origin := PassRoot(names1, names2, roots, k, map1, map2, i1, i2, new_, origin);
      if !ok {
        if AllSorted(names1, names2, roots) {
          NeverCovered(names2, roots, k, old2);
        }
        return;
      }
    }
    assert roots[..|roots|] == roots;
    var lo := i1;
    ghost var before, map0 := origin, map1;
    Finish(names1, names2, roots, map1, map2, origin, i1, i2);
    map1, new_ := AddRange(map1, lo, |names1|, new_, true, map2, origin);
    origin := origin + Segment(true, lo, |names1|);
    numName := new_;
    ok := i2 >= |names2|;
    AllMapped(names1, names2, roots, map0, map1, map2, before, lo, i2, new_);
    if ok {
      hide *;
      AllTraced(names1, names2, roots, map1, map2, origin);
    }
  }

  lemma OldSorting(names1: seq<Str>, names2: seq<Str>, roots: seq<Str>, k: nat,
                   map1: seq<Range>, map2: seq<Range>, origin: seq<Origin>, i1: nat, i2: nat)
    requires Passing(names1, names2, roots, k, map1, map2, origin, i1, i2)
    ensures AllSorted(names1, names2, roots) && i2 < |names2| ==> k <= |roots| && !Shadowed(roots[..k], names2[i2])
  {
  }

  lemma NeverCovered(names2: seq<Str>, roots: seq<Str>, k: nat, j: nat)
    requires k < |roots| && j < |names2| && NamesSorted(roots) && Before(names2[j], roots[k]) && !Shadowed(roots[..k], names2[j])
    ensures !Shadowed(roots, names2[j])
  {
    forall r | 0 <= r < |roots|
      ensures !Covers(roots[r], names2[j])
    {
      if r < k {
        assert roots[..k][r] == roots[r];
      } else if r > k {
        BeforeBoth(names2[j], roots[k], roots[r]);
      }
    }
  }

  lemma Finish(names1: seq<Str>, names2: seq<Str>, roots: seq<Str>, map1: seq<Range>, map2: seq<Range>, origin: seq<Origin>, i1: nat, i2: nat)
    requires Passing(names1, names2, roots, |roots|, map1, map2, origin, i1, i2)
    ensures Increasing(map1) && Below(map1, i1, |origin|) && Agrees(map1, true, origin) && Agrees(map2, false, origin)
    ensures i1 <= |names1| && i2 <= |names2| && |origin| <= i1 + i2
  {
  }

  lemma AllMapped(names1: seq<Str>, names2: seq<Str>, roots: seq<Str>, map0: seq<Range>, map1: seq<Range>, map2: seq<Range>,
                  origin: seq<Origin>, lo: nat, i2: nat, new_: nat)
    requires Passing(names1, names2, roots, |roots|, map0, map2, origin, lo, i2) && roots[..|roots|] == roots
    requires Agrees(map1, true, origin + Segment(true, lo, |names1|)) && new_ >= |origin|
    ensures i2 == |names2| ==> Below(map2, |names2|, new_) && forall j: nat :: j < |names2| ==> Mapped(map2, j)
    ensures AllSorted(names1, names2, roots) ==>
              && (forall i: nat :: i < |names1| ==> (Mapped(map1, i) <==> !Shadowed(roots, names1[i])))
              && NamesAscend(names1, names2, origin + Segment(true, lo, |names1|))
              && (i2 == |names2| <==> forall j :: 0 <= j < |names2| ==> Shadowed(roots, names2[j]))
  {
    if AllSorted(names1, names2, roots) {
      forall i: nat | i < |names1|
        ensures Mapped(map1, i) <==> !Shadowed(roots, names1[i])
      {
        SegmentMapped(map0, map1, true, origin, lo, |names1|, i);
      }
      AppendNames(names1, names2, origin, true, lo, |names1|);
      if i2 < |names2| {
        assert !Shadowed(roots, names2[i2]);
      }
    }
  }
}
