/** What merging the posting lists of two indexes gives (the loop of Merge in internal/codesearch/index/merge.go). */
module MergeLists {
  import opened Bytes
  import opened PostingLists
  import opened MergeMaps

  // ------------------------------------------------------------------ renumbered lists

  ghost function ImageOf(m: seq<Range>, i: nat): (n: nat)
    requires Mapped(m, i)
    ensures MapsTo(m, i, n)
  {
    var n: nat :| MapsTo(m, i, n);
    n
  }

  /** The new ids of a list, those that are dropped left out. */
  ghost function Images(m: seq<Range>, ids: seq<nat>): seq<nat> {
    if ids == [] then [] else (if Mapped(m, ids[0]) then [ImageOf(m, ids[0])] else []) + Images(m, ids[1..])
  }

  lemma {:induction false} InImages(m: seq<Range>, ids: seq<nat>, n: nat)
    requires Increasing(m)
    ensures n in Images(m, ids) <==> exists i :: i in ids && MapsTo(m, i, n)
  {
    if ids != [] {
      InImages(m, ids[1..], n);
      if i :| i in ids && MapsTo(m, i, n) {
        if i == ids[0] {
          assert Mapped(m, i);
          MapsInOrder(m, i, i, n, ImageOf(m, i));
        } else {
          assert i in ids[1..];
        }
      }
    }
  }

  lemma {:induction false} ImagesAscend(m: seq<Range>, ids: seq<nat>)
    requires Increasing(m) && Ascending(ids)
    ensures Ascending(Images(m, ids))
  {
    if ids != [] {
      ImagesAscend(m, ids[1..]);
      if Mapped(m, ids[0]) {
        forall k | 0 <= k < |Images(m, ids[1..])|
          ensures ImageOf(m, ids[0]) < Images(m, ids[1..])[k]
        {
          var n := Images(m, ids[1..])[k];
          InImages(m, ids[1..], n);
          var i :| i in ids[1..] && MapsTo(m, i, n);
          MapsInOrder(m, ids[0], i, ImageOf(m, ids[0]), n);
        }
      }
    }
  }

  lemma {:induction false} ImagesBelow(m: seq<Range>, ids: seq<nat>, hi: nat, max: nat)
    requires Below(m, hi, max)
    ensures forall k :: 0 <= k < |Images(m, ids)| ==> Images(m, ids)[k] < max
  {
    if ids != [] {
      ImagesBelow(m, ids[1..], hi, max);
      if Mapped(m, ids[0]) {
        var k :| 0 <= k < |m| && Sends(m[k], ids[0], ImageOf(m, ids[0]));
      }
    }
  }

  lemma {:induction false} NoImages(m: seq<Range>, ids: seq<nat>)
    requires forall i :: i in ids ==> !Mapped(m, i)
    ensures Images(m, ids) == []
  {
    if ids != [] {
      NoImages(m, ids[1..]);
    }
  }

  // ------------------------------------------------------------------ two lists in one

  ghost function Merge2(a: seq<nat>, b: seq<nat>): seq<nat>
    decreases |a| + |b|
  {
    if a == [] then b
    else if b == [] then a
    else if a[0] < b[0] then [a[0]] + Merge2(a[1..], b)
    else [b[0]] + Merge2(a, b[1..])
  }

  ghost predicate Disjoint(a: seq<nat>, b: seq<nat>) {
    forall i, j :: 0 <= i < |a| && 0 <= j < |b| ==> a[i] != b[j]
  }

  lemma {:induction false} InMerge2(a: seq<nat>, b: seq<nat>, n: nat)
    ensures n in Merge2(a, b) <==> n in a || n in b
    decreases |a| + |b|
  {
    if a != [] && b != [] {
      if a[0] < b[0] {
        InMerge2(a[1..], b, n);
      } else {
        InMerge2(a, b[1..], n);
      }
    }
  }

  lemma {:induction false} Merge2Ascends(a: seq<nat>, b: seq<nat>)
    requires Ascending(a) && Ascending(b) && Disjoint(a, b)
    ensures Ascending(Merge2(a, b))
    decreases |a| + |b|
  {
    if a != [] && b != [] {
      if a[0] < b[0] {
        Merge2Ascends(a[1..], b);
        FirstOfMerge(a[0], a[1..], b);
      } else {
        Merge2Ascends(a, b[1..]);
        FirstOfMerge(b[0], a, b[1..]);
      }
    }
  }

  lemma FirstOfMerge(x: nat, a: seq<nat>, b: seq<nat>)
    requires (forall k :: 0 <= k < |a| ==> x < a[k]) && (forall k :: 0 <= k < |b| ==> x < b[k])
    requires Ascending(Merge2(a, b))
    ensures Ascending([x] + Merge2(a, b))
  {
    forall k | 0 <= k < |Merge2(a, b)|
      ensures x < Merge2(a, b)[k]
    {
      InMerge2(a, b, Merge2(a, b)[k]);
    }
  }

  /** The maps send no two files to one new id. */
  ghost predicate Apart(m1: seq<Range>, m2: seq<Range>) {
    forall i: nat, j: nat, n: nat :: MapsTo(m1, i, n) ==> !MapsTo(m2, j, n)
  }

  lemma OriginsApart(m1: seq<Range>, m2: seq<Range>, origin: seq<Origin>)
    requires Agrees(m1, true, origin) && Agrees(m2, false, origin)
    ensures Apart(m1, m2)
  {
  }

  lemma ImagesDisjoint(m1: seq<Range>, m2: seq<Range>, a: seq<nat>, b: seq<nat>)
    requires Increasing(m1) && Increasing(m2) && Apart(m1, m2)
    ensures Disjoint(Images(m1, a), Images(m2, b))
  {
    forall i, j | 0 <= i < |Images(m1, a)| && 0 <= j < |Images(m2, b)|
      ensures Images(m1, a)[i] != Images(m2, b)[j]
    {
      InImages(m1, a, Images(m1, a)[i]);
      InImages(m2, b, Images(m2, b)[j]);
    }
  }

  // ---------------------------------------------------------------- two tables in one

  /** The trigram a reader shows when there are no more lists. */
  const EndTrigram := 0xFFFF_FFFF

  function Head(ps: seq<Posting>): nat {
    if ps == [] then EndTrigram else ps[0].trigram
  }

  function HeadIds(ps: seq<Posting>, t: nat): seq<nat> {
    if ps != [] && ps[0].trigram == t then ps[0].ids else []
  }

  function Behind(ps: seq<Posting>, t: nat): seq<Posting> {
    if ps != [] && ps[0].trigram == t then ps[1..] else ps
  }

  function Least(x: nat, y: nat): nat {
    if x < y then x else y
  }

  /** The lists of the merged index, but for the last one. */
  ghost function Merged(m1: seq<Range>, m2: seq<Range>, ps1: seq<Posting>, ps2: seq<Posting>): seq<Posting>
    decreases |ps1| + |ps2|
  {
    if ps1 == [] && ps2 == [] then []
    else
      var t := Least(Head(ps1), Head(ps2));
      if Behind(ps1, t) == ps1 && Behind(ps2, t) == ps2 then []
      else
        [Posting(t, Merge2(Images(m1, HeadIds(ps1, t)), Images(m2, HeadIds(ps2, t))))] +
        Merged(m1, m2, Behind(ps1, t), Behind(ps2, t))
  }

  ghost predicate Positive(ps: seq<Posting>) {
    forall i :: 0 <= i < |ps| ==> ps[i].trigram > 0
  }

  lemma Advances(ps1: seq<Posting>, ps2: seq<Posting>)
    requires Sorted(ps1) && Sorted(ps2) && (ps1 != [] || ps2 != [])
    ensures var t := Least(Head(ps1), Head(ps2));
            && t <= InvalidTrigram && (Behind(ps1, t) != ps1 || Behind(ps2, t) != ps2)
            && Sorted(Behind(ps1, t)) && Sorted(Behind(ps2, t))
            && Head(Behind(ps1, t)) >= t && Head(Behind(ps2, t)) >= t
  {
    assert forall ps: seq<Posting> | ps in {ps1, ps2} && |ps| > 1 :: MayFollow(ps[0], ps[1]);
  }

  lemma {:induction false} LookupAbove(ps: seq<Posting>, t: nat)
    requires Sorted(ps) && t < Head(ps)
    ensures Lookup(ps, t) == []
  {
    forall i | 0 <= i < |ps|
      ensures ps[i].trigram != t
    {
      assert i > 0 ==> MayFollow(ps[0], ps[i]);
    }
    LookupAbsent(ps, t);
  }

  /** Each trigram of the merged index has the new ids of its files in both indexes. */
  lemma {:induction false} MergedLookup(m1: seq<Range>, m2: seq<Range>, ps1: seq<Posting>, ps2: seq<Posting>, t: nat)
    requires Sorted(ps1) && Sorted(ps2)
    ensures Lookup(Merged(m1, m2, ps1, ps2), t) == Merge2(Images(m1, Lookup(ps1, t)), Images(m2, Lookup(ps2, t)))
    decreases |ps1| + |ps2|
  {
    if ps1 != [] || ps2 != [] {
      var l := Least(Head(ps1), Head(ps2));
      Advances(ps1, ps2);
      MergedLookup(m1, m2, Behind(ps1, l), Behind(ps2, l), t);
      LookupHead(ps1, l, t);
      LookupHead(ps2, l, t);
      assert Merged(m1, m2, ps1, ps2)[1..] == Merged(m1, m2, Behind(ps1, l), Behind(ps2, l));
    }
  }

  lemma LookupHead(ps: seq<Posting>, l: nat, t: nat)
    requires Sorted(ps) && l <= Head(ps)
    ensures t == l ==> Lookup(ps, t) == HeadIds(ps, l)
    ensures t != l ==> Lookup(ps, t) == Lookup(Behind(ps, l), t)
  {
    if t == l && ps != [] && ps[0].trigram != l {
      LookupAbove(ps, l);
    }
  }

  lemma {:induction false} MergedSorted(m1: seq<Range>, m2: seq<Range>, ps1: seq<Posting>, ps2: seq<Posting>)
    requires Sorted(ps1) && Sorted(ps2) && Increasing(m1) && Increasing(m2) && Apart(m1, m2)
    requires EmptyInvalid(ps1) && EmptyInvalid(ps2)
    ensures Sorted(Merged(m1, m2, ps1, ps2)) && EmptyInvalid(Merged(m1, m2, ps1, ps2))
    ensures AtLeast(Merged(m1, m2, ps1, ps2), Least(Head(ps1), Head(ps2)))
    decreases |ps1| + |ps2|
  {
    if ps1 != [] || ps2 != [] {
      var t := Least(Head(ps1), Head(ps2));
      Advances(ps1, ps2);
      var a, b := Behind(ps1, t), Behind(ps2, t);
      var ids := Merge2(Images(m1, HeadIds(ps1, t)), Images(m2, HeadIds(ps2, t)));
      assert EmptyInvalid(a) && EmptyInvalid(b);
      MergedSorted(m1, m2, a, b);
      ListAscends(m1, m2, HeadIds(ps1, t), HeadIds(ps2, t));
      StrictlyBehind(ps1, ps2);
      assert t == InvalidTrigram ==> ids == [];
      assert Merged(m1, m2, ps1, ps2) == [Posting(t, ids)] + Merged(m1, m2, a, b);
      InFront(Posting(t, ids), Merged(m1, m2, a, b), Least(Head(a), Head(b)));
    }
  }

  ghost predicate EmptyInvalid(ps: seq<Posting>) {
    forall i :: 0 <= i < |ps| && ps[i].trigram == InvalidTrigram ==> ps[i].ids == []
  }

  ghost predicate AtLeast(ps: seq<Posting>, t: nat) {
    forall k :: 0 <= k < |ps| ==> t <= ps[k].trigram
  }

  lemma InFront(p: Posting, rest: seq<Posting>, t: nat)
    requires Sorted(rest) && EmptyInvalid(rest) && AtLeast(rest, t) && p.trigram <= t
    requires p.trigram <= InvalidTrigram && Ascending(p.ids) && (p.trigram < InvalidTrigram ==> p.trigram < t)
    requires p.trigram == InvalidTrigram ==> p.ids == []
    ensures Sorted([p] + rest) && EmptyInvalid([p] + rest) && AtLeast([p] + rest, p.trigram)
  {
    var s := [p] + rest;
    forall i, j | 0 <= i < j < |s|
      ensures MayFollow(s[i], s[j])
    {
      if i == 0 {
        assert s[j] == rest[j - 1];
        assert rest[j - 1].trigram <= InvalidTrigram;
      } else {
        assert MayFollow(rest[i - 1], rest[j - 1]);
      }
    }
  }

  lemma StrictlyBehind(ps1: seq<Posting>, ps2: seq<Posting>)
    requires Sorted(ps1) && Sorted(ps2) && (ps1 != [] || ps2 != [])
    ensures var t := Least(Head(ps1), Head(ps2));
            t < InvalidTrigram ==> Least(Head(Behind(ps1, t)), Head(Behind(ps2, t))) > t
  {
    assert forall ps: seq<Posting> | ps in {ps1, ps2} && |ps| > 1 :: MayFollow(ps[0], ps[1]);
  }

  lemma ListAscends(m1: seq<Range>, m2: seq<Range>, a: seq<nat>, b: seq<nat>)
    requires Ascending(a) && Ascending(b) && Increasing(m1) && Increasing(m2) && Apart(m1, m2)
    ensures Ascending(Merge2(Images(m1, a), Images(m2, b)))
  {
    ImagesAscend(m1, a);
    ImagesAscend(m2, b);
    ImagesDisjoint(m1, m2, a, b);
    Merge2Ascends(Images(m1, a), Images(m2, b));
  }

  /** The trigrams of a file in the merged index are those it had in the index it comes from. */
  lemma MergedDocument(m1: seq<Range>, m2: seq<Range>, ps1: seq<Posting>, ps2: seq<Posting>, i: nat, n: nat, first: bool)
    requires Sorted(ps1) && Sorted(ps2) && Increasing(m1) && Increasing(m2) && Apart(m1, m2)
    requires Sorted(Merged(m1, m2, ps1, ps2)) && MapsTo(if first then m1 else m2, i, n)
    ensures Document(Merged(m1, m2, ps1, ps2), n) == Document(if first then ps1 else ps2, i)
  {
    var ps := Merged(m1, m2, ps1, ps2);
    forall t
      ensures t in Document(ps, n) <==> t in Document(if first then ps1 else ps2, i)
    {
      if |t| == 3 {
        var v := TrigramNumber(t);
        InDocument(ps, n, t);
        InDocument(if first then ps1 else ps2, i, t);
        MergedLookup(m1, m2, ps1, ps2, v);
        InMerge2(Images(m1, Lookup(ps1, v)), Images(m2, Lookup(ps2, v)), n);
        InImages(m1, Lookup(ps1, v), n);
        InImages(m2, Lookup(ps2, v), n);
        OnlyOne(m1, m2, i, n, first);
      }
    }
  }

  lemma OnlyOne(m1: seq<Range>, m2: seq<Range>, i: nat, n: nat, first: bool)
    requires Increasing(m1) && Increasing(m2) && Apart(m1, m2) && MapsTo(if first then m1 else m2, i, n)
    ensures forall j: nat :: MapsTo(m1, j, n) ==> first && j == i
    ensures forall j: nat :: MapsTo(m2, j, n) ==> !first && j == i
  {
    var m := if first then m1 else m2;
    forall j: nat | MapsTo(m, j, n)
      ensures j == i
    {
      MapsInOrder(m, i, j, n, n);
      MapsInOrder(m, j, i, n, n);
    }
  }

  // ---------------------------------------------------------------- when merging goes on

  /** Each round has to move at least one of the two readers to a greater trigram, or Merge gives up. */
  function Progresses(ps1: seq<Posting>, ps2: seq<Posting>, old1: nat, old2: nat): bool
    decreases |ps1| + |ps2|
  {
    && (Head(ps1) > old1 || Head(ps2) > old2)
    && (if ps1 == [] && ps2 == [] then true
        else
          var t := Least(Head(ps1), Head(ps2));
          (Behind(ps1, t) == ps1 && Behind(ps2, t) == ps2) ||
          Progresses(Behind(ps1, t), Behind(ps2, t), Head(ps1), Head(ps2)))
  }

  /** How many lists an index has for the invalid trigram. An index that was written has one, and each merge
      adds another one. */
  function Terminators(ps: seq<Posting>): nat {
    if ps == [] then 0 else (if ps[0].trigram == InvalidTrigram then 1 else 0) + Terminators(ps[1..])
  }

  predicate Mergeable(d1: nat, d2: nat) {
    (d1 <= 1 && d2 <= 1) || (d1 >= 1 && d2 >= 1 && d1 + d2 <= 3)
  }

  lemma {:induction false} OnlyTerminators(ps: seq<Posting>)
    requires Sorted(ps) && Head(ps) >= InvalidTrigram
    ensures Terminators(ps) == |ps| && Head(ps) == if ps == [] then EndTrigram else InvalidTrigram
    ensures ps != [] ==> Head(ps[1..]) >= InvalidTrigram && Sorted(ps[1..])
  {
    if |ps| > 1 {
      assert MayFollow(ps[0], ps[1]);
      OnlyTerminators(ps[1..]);
    }
  }

  /** Once only terminators are left. */
  lemma {:induction false} AtTerminators(ps1: seq<Posting>, ps2: seq<Posting>, old1: nat, old2: nat)
    requires Sorted(ps1) && Sorted(ps2) && Head(ps1) >= InvalidTrigram && Head(ps2) >= InvalidTrigram
    requires Head(ps1) > old1 || Head(ps2) > old2
    ensures Progresses(ps1, ps2, old1, old2) <==> Mergeable(|ps1|, |ps2|)
    decreases |ps1| + |ps2|
  {
    OnlyTerminators(ps1);
    OnlyTerminators(ps2);
    if ps1 != [] || ps2 != [] {
      var t := Least(Head(ps1), Head(ps2));
      Advances(ps1, ps2);
      var a, b := Behind(ps1, t), Behind(ps2, t);
      OnlyTerminators(a);
      OnlyTerminators(b);
      if Head(a) > Head(ps1) || Head(b) > Head(ps2) {
        AtTerminators(a, b, Head(ps1), Head(ps2));
      }
    }
  }

  lemma TerminatorsBehind(ps: seq<Posting>, t: nat)
    requires t < InvalidTrigram
    ensures Terminators(Behind(ps, t)) == Terminators(ps)
  {
  }

  lemma {:induction false} ProgressFrom(ps1: seq<Posting>, ps2: seq<Posting>, old1: nat, old2: nat)
    requires Sorted(ps1) && Sorted(ps2) && (Head(ps1) > old1 || Head(ps2) > old2)
    ensures Progresses(ps1, ps2, old1, old2) <==> Mergeable(Terminators(ps1), Terminators(ps2))
    decreases |ps1| + |ps2|
  {
    var t := Least(Head(ps1), Head(ps2));
    if t >= InvalidTrigram {
      OnlyTerminators(ps1);
      OnlyTerminators(ps2);
      AtTerminators(ps1, ps2, old1, old2);
    } else {
      Advances(ps1, ps2);
      StrictlyBehind(ps1, ps2);
      TerminatorsBehind(ps1, t);
      TerminatorsBehind(ps2, t);
      ProgressFrom(Behind(ps1, t), Behind(ps2, t), Head(ps1), Head(ps2));
    }
  }

  /** Merge gets to its end exactly if the two indexes do not have too many terminators: two indexes that
      were both merged before cannot be merged. */
  lemma MergeProgresses(ps1: seq<Posting>, ps2: seq<Posting>)
    requires Sorted(ps1) && Sorted(ps2) && Positive(ps1) && Positive(ps2)
    ensures Progresses(ps1, ps2, 0, 0) <==> Mergeable(Terminators(ps1), Terminators(ps2))
  {
    ProgressFrom(ps1, ps2, 0, 0);
  }

  lemma {:induction false} TerminatorsOf(ps: seq<Posting>, last: Posting)
    requires last.trigram == InvalidTrigram
    ensures Terminators(ps + [last]) == Terminators(ps) + 1
  {
    if ps == [] {
      assert [last][1..] == [];
    } else {
      assert (ps + [last])[1..] == ps[1..] + [last];
      TerminatorsOf(ps[1..], last);
    }
  }

  /** The merged lists have as many terminators as the index with more of them, and writing the end adds one. */
  lemma {:induction false} MergedTerminators(m1: seq<Range>, m2: seq<Range>, ps1: seq<Posting>, ps2: seq<Posting>)
    requires Sorted(ps1) && Sorted(ps2)
    ensures Terminators(Merged(m1, m2, ps1, ps2)) ==
            if Terminators(ps1) > Terminators(ps2) then Terminators(ps1) else Terminators(ps2)
    decreases |ps1| + |ps2|
  {
    if ps1 != [] || ps2 != [] {
      var t := Least(Head(ps1), Head(ps2));
      Advances(ps1, ps2);
      MergedTerminators(m1, m2, Behind(ps1, t), Behind(ps2, t));
      assert Merged(m1, m2, ps1, ps2)[1..] == Merged(m1, m2, Behind(ps1, t), Behind(ps2, t));
      if t < InvalidTrigram {
        TerminatorsBehind(ps1, t);
        TerminatorsBehind(ps2, t);
      } else {
        OnlyTerminators(ps1);
        OnlyTerminators(ps2);
        OnlyTerminators(Behind(ps1, t));
        OnlyTerminators(Behind(ps2, t));
      }
    }
  }

  /** Merging the result of a merge with another such result never gets to its end. */
  lemma MergedTwice(m1: seq<Range>, m2: seq<Range>, ps1: seq<Posting>, ps2: seq<Posting>,
                    n1: seq<Range>, n2: seq<Range>, qs1: seq<Posting>, qs2: seq<Posting>, last: Posting)
    requires Sorted(ps1) && Sorted(ps2) && Sorted(qs1) && Sorted(qs2) && last == Posting(InvalidTrigram, [])
    requires Terminators(ps1) >= 1 && Terminators(qs1) >= 1
    requires var a := Merged(m1, m2, ps1, ps2) + [last];
             var b := Merged(n1, n2, qs1, qs2) + [last];
             Sorted(a) && Sorted(b) && Positive(a) && Positive(b)
    ensures !Progresses(Merged(m1, m2, ps1, ps2) + [last], Merged(n1, n2, qs1, qs2) + [last], 0, 0)
  {
    MergedTerminators(m1, m2, ps1, ps2);
    MergedTerminators(n1, n2, qs1, qs2);
    TerminatorsOf(Merged(m1, m2, ps1, ps2), last);
    TerminatorsOf(Merged(n1, n2, qs1, qs2), last);
    MergeProgresses(Merged(m1, m2, ps1, ps2) + [last], Merged(n1, n2, qs1, qs2) + [last]);
  }
}
