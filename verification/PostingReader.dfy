/** Reading posting lists and evaluating queries over them (internal/codesearch/index/read.go). */
module PostingReader {
  import opened Bytes
  import opened Varint
  import opened PostingLists
  import opened DeltaCoding
  import opened PostingIndex
  import Q = Queries

  // -------------------------------------------------------------------- slices

  /** A Go slice of numbers: nil, or a stretch of an array that other slices may share. */
  datatype Slice = Nil | Slice(arr: array<int>, lo: nat, hi: nat)

  ghost predicate Ok(s: Slice) {
    s.Slice? ==> s.lo <= s.hi <= s.arr.Length
  }

  ghost function Footprint(s: Slice): set<object> {
    if s.Nil? then {} else {s.arr}
  }

  ghost function Items(s: Slice): seq<int>
    requires Ok(s)
    reads Footprint(s)
  {
    if s.Nil? then [] else s.arr[s.lo..s.hi]
  }

  function Len(s: Slice): nat
    requires Ok(s)
  {
    if s.Nil? then 0 else s.hi - s.lo
  }

  // ----------------------------------------------------------------- postReader

  /** Delivers the ids of one posting list, those outside restrict left out. */
  class PostReader {
    const live: bool
    var count: nat
    var fileid: int
    var restrict: Slice
    const delta: DeltaReader
    ghost var todo: seq<nat>
    ghost var after: Str
    ghost const allowed: seq<int>
    ghost const restricted: bool

    ghost predicate Valid()
      reads this, delta, Footprint(restrict)
    {
      && Counted() && (restricted ==> AllowedFrom(fileid))
    }

    /** What of restrict is left: the ids above f that it allows. */
    ghost predicate AllowedFrom(f: int)
      reads this`restrict, Footprint(restrict)
    {
      Ok(restrict) && Ascending(Items(restrict)) && forall v :: v > f ==> (v in Items(restrict) <==> v in allowed)
    }

    /** The ids that are still to come. */
    ghost predicate Counted()
      reads this`restrict, this`count, this`fileid, this`todo, this`after, delta
    {
      && Ok(restrict) && Ascending(allowed) && restricted == restrict.Slice?
      && count == |todo| && Ascending(todo) && fileid >= -1 && (forall k :: 0 <= k < |todo| ==> fileid < todo[k] < MaxDelta)
      && (live ==> delta.Feeds(Deltas(todo, fileid) + [0], after))
      && (!live ==> todo == [])
    }

    ghost predicate Lets(id: int) {
      restricted ==> id in allowed
    }

    /** init: finds the list and stands before its first id. */
    constructor (ix: Index, trigram: nat, restrict: Slice, ghost ps: seq<Posting>)
      requires Indexed(ix, ps) && Ok(restrict) && Ascending(Items(restrict))
      ensures Valid() && fresh(this) && fresh(delta) && todo == Lookup(ps, trigram)
      ensures allowed == Items(restrict) && restricted == restrict.Slice? && this.restrict == restrict
    {
      var n, offset := FindList(ix, trigram, ps);
      LookupAscends(ps, trigram);
      LookupBounded(ix, ps, trigram);
      this.live := n != 0;
      this.count := n;
      this.fileid := -1;
      this.restrict := restrict;
      this.todo := Lookup(ps, trigram);
      this.allowed := Items(restrict);
      this.restricted := restrict.Slice?;
      var r := new DeltaReader(ix.version, if n == 0 then [] else ix.data[ix.postData + offset + 3..]);
      ghost var rest: Str := [];
      if n != 0 {
        rest :| ix.data[ix.postData + offset + 3..] == Encode(ix.version, Deltas(Lookup(ps, trigram), -1) + [0]) + rest;
        EncodedFeeds(r, Deltas(Lookup(ps, trigram), -1) + [0], rest);
      }
      this.after := rest;
      this.delta := r;
    }

    /** Drops from the front of restrict what is below fileid, and says whether fileid is next. */
    method Advance() returns (hit: bool)
      requires Ok(restrict) && restrict.Slice? && Ascending(Items(restrict))
      modifies this`restrict
      ensures Ok(restrict) && restrict.Slice? && restrict.arr == old(restrict.arr)
      ensures Ascending(Items(restrict)) && forall v :: v >= fileid ==> (v in Items(restrict) <==> v in old(Items(restrict)))
      ensures hit <==> fileid in Items(restrict)
    {
      hide Ascending;
      ghost var items := Items(restrict);
      var i := restrict.lo;
      while i < restrict.hi && restrict.arr[i] < fileid
        invariant restrict.lo <= i <= restrict.hi
        invariant forall k :: restrict.lo <= k < i ==> restrict.arr[k] < fileid
      {
        i := i + 1;
      }
      ghost var dropped := i - restrict.lo;
      assert forall k :: 0 <= k < dropped ==> items[k] == restrict.arr[restrict.lo + k] < fileid;
      restrict := restrict.(lo := i);
      assert Items(restrict) == items[dropped..];
      hit := restrict.lo < restrict.hi && restrict.arr[restrict.lo] == fileid;
      assert restrict.lo < restrict.hi ==> Items(restrict)[0] == restrict.arr[restrict.lo];
      FrontDropped(items, dropped, fileid);
      FirstIsLeast(items[dropped..], fileid);
    }

    /** One id of the list, whether or not restrict lets it pass. */
    method Take() returns (hit: bool)
      requires Valid() && live && count > 0
      modifies this`count, this`fileid, this`restrict, this`todo, delta
      ensures Valid() && fileid == old(todo)[0] && todo == old(todo)[1..] && (hit <==> Lets(fileid))
      ensures Footprint(restrict) == old(Footprint(restrict))
    {
      ghost var before := fileid;
      TakeId();
      hit := true;
      if restrict.Slice? {
        hide Counted;
        AllowedLater(before);
        hit := Advance();
      }
    }

    lemma AllowedLater(before: int)
      requires Counted() && restricted && AllowedFrom(before) && before < fileid
      ensures Ok(restrict) && restrict.Slice? && Ascending(Items(restrict)) && AllowedFrom(fileid)
      ensures fileid in Items(restrict) <==> Lets(fileid)
    {
    }

    /** The next id of the list. */
    method TakeId()
      requires Counted() && live && count > 0
      modifies this`count, this`fileid, this`todo, delta
      ensures Counted() && fileid == old(todo)[0] > old(fileid) && todo == old(todo)[1..]
    {
      hide DeltaReader.Feeds, Ascending, Deltas;
      DeltasHead(todo, fileid);
      count := count - 1;
      var step := delta.Next(Deltas(todo, fileid) + [0], after);
      fileid := fileid + step;
      todo := todo[1..];
    }

    /** next: moves to the next id that restrict lets pass; passed is how many ids were left out before it. */
    method Next() returns (ok: bool, ghost passed: nat)
      requires Valid()
      modifies this`count, this`fileid, this`restrict, this`todo, delta
      ensures passed <= |old(todo)| && forall k :: 0 <= k < passed ==> !Lets(old(todo)[k])
      ensures ok ==> Valid() && passed < |old(todo)| && fileid == old(todo)[passed] && Lets(fileid) && todo == old(todo)[passed + 1..]
      ensures !ok ==> passed == |old(todo)|
      ensures Footprint(restrict) == old(Footprint(restrict))
    {
      passed := 0;
      ok := false;
      if !live {
        return;
      }
      ghost var all := todo;
      assert all[0..] == all;
      while count > 0
        invariant Valid() && passed + |todo| == |all| && todo == all[passed..]
        invariant forall k :: 0 <= k < passed ==> !Lets(all[k])
        invariant Footprint(restrict) == old(Footprint(restrict))
        decreases |todo|
      {
        var hit := Take();
        if hit {
          ok := true;
          return;
        }
        passed := passed + 1;
      }
      Finish();
    }

    /** The list ends with a 0. */
    method Finish()
      requires Valid() && live && count == 0
      modifies this`fileid, delta
    {
      assert Deltas(todo, fileid) + [0] == [0];
      var end := delta.Next([0], after);
      assert end == 0;
      delta.ClearBits(after);
      fileid := -1;
    }
  }

  lemma DeltasHead(ids: seq<nat>, last: int)
    requires ids != [] && last >= -1 && Ascending(ids) && forall k :: 0 <= k < |ids| ==> last < ids[k] < MaxDelta
    ensures Ascending(ids[1..]) && forall k :: 0 <= k < |ids[1..]| ==> ids[0] < ids[1..][k] < MaxDelta
    ensures var ds := Deltas(ids, last) + [0];
            ds[0] == ids[0] - last <= MaxDelta && ds[1..] == Deltas(ids[1..], ids[0]) + [0]
  {
  }

  lemma FrontDropped(s: seq<int>, k: nat, f: int)
    requires Ascending(s) && k <= |s| && forall j :: 0 <= j < k ==> s[j] < f
    ensures Ascending(s[k..]) && forall v :: v >= f ==> (v in s[k..] <==> v in s)
  {
    assert s == s[..k] + s[k..];
  }

  lemma FirstIsLeast(s: seq<int>, f: int)
    requires Ascending(s) && (s != [] ==> f <= s[0])
    ensures f in s <==> s != [] && s[0] == f
  {
  }

  // -------------------------------------------------------------- list operations

  ghost predicate Within(v: int, restrict: Slice)
    requires Ok(restrict)
    reads Footprint(restrict)
  {
    restrict.Nil? || v in Items(restrict)
  }

  /** The members of x below all of rest, chosen from ids: those that lets holds of. */
  ghost predicate Chosen(x: seq<int>, ids: seq<nat>, n: nat, lets: int -> bool) {
    && n <= |ids| && Ascending(x)
    && (forall v :: v in x <==> v in ids[..n] && lets(v))
  }

  /** passed ids are left out and the next one is chosen. */
  lemma ChooseNext(x: seq<int>, ids: seq<nat>, n: nat, passed: nat, lets: int -> bool)
    requires Chosen(x, ids, n, lets) && n + passed < |ids| && Ascending(ids)
    requires forall k :: n <= k < n + passed ==> !lets(ids[k])
    requires lets(ids[n + passed])
    ensures Chosen(x + [ids[n + passed]], ids, n + passed + 1, lets)
  {
    var m := n + passed;
    assert ids[..m + 1] == ids[..n] + ids[n..m] + [ids[m]];
    forall k | 0 <= k < |x|
      ensures x[k] < ids[m]
    {
      assert x[k] in x;
    }
  }

  lemma ChooseNone(x: seq<int>, ids: seq<nat>, n: nat, lets: int -> bool)
    requires Chosen(x, ids, n, lets)
    requires forall k :: n <= k < |ids| ==> !lets(ids[k])
    ensures Chosen(x, ids, |ids|, lets)
  {
    assert ids[..|ids|] == ids[..n] + ids[n..];
  }

  /** A slice over new storage, as make and append leave it. */
  method MakeSlice(items: seq<int>) returns (x: Slice)
    ensures x.Slice? && Ok(x) && fresh(x.arr) && Items(x) == items
  {
    var arr := new int[|items|](i requires 0 <= i < |items| => items[i]);
    x := Slice(arr, 0, arr.Length);
  }

  /** All ids that the reader lets pass. */
  method Collect(r: PostReader) returns (items: seq<int>)
    requires r.Valid()
    modifies r`count, r`fileid, r`restrict, r`todo, r.delta
    ensures Ascending(items) && forall v :: v in items <==> v in old(r.todo) && r.Lets(v)
  {
    ghost var ids, lets, n := r.todo, (v: int) => r.Lets(v), 0;
    items := [];
    while true
      invariant r.Valid() && n + |r.todo| == |ids| && r.todo == ids[n..] && Chosen(items, ids, n, lets)
      decreases |r.todo|
    {
      var ok, passed := r.Next();
      if !ok {
        ChooseNone(items, ids, n, lets);
        break;
      }
      ChooseNext(items, ids, n, passed, lets);
      items := items + [r.fileid];
      n := n + passed + 1;
    }
    assert ids[..|ids|] == ids;
  }

  method PostingList(ix: Index, trigram: nat, restrict: Slice, ghost ps: seq<Posting>) returns (x: Slice)
    requires Indexed(ix, ps) && Ok(restrict) && Ascending(Items(restrict))
    ensures x.Slice? && Ok(x) && fresh(x.arr) && Ascending(Items(x))
    ensures forall v :: v in Items(x) <==> v in Lookup(ps, trigram) && Within(v, restrict)
  {
    var r := new PostReader(ix, trigram, restrict, ps);
    var items := Collect(r);
    x := MakeSlice(items);
  }

  ghost function Stretch(arr: array<int>, lo: nat, hi: nat): (s: seq<int>)
    requires lo <= hi <= arr.Length
    reads arr
    ensures |s| == hi - lo && forall k :: 0 <= k < |s| ==> s[k] == arr[lo + k]
  {
    arr[lo..hi]
  }

  /** The first i of the numbers old have been looked at, those up to f; k of them, all that are chosen,
      now stand at the front of the stretch, and the others are where they were. */
  ghost predicate Narrowed(arr: array<int>, lo: nat, hi: nat, old_: seq<int>, k: nat, i: nat, f: int, chosen: int -> bool)
    reads arr
  {
    && lo <= hi <= arr.Length && |old_| == hi - lo && k <= i <= |old_|
    && Stretch(arr, lo + i, hi) == old_[i..]
    && (forall j :: 0 <= j < i ==> old_[j] <= f)
    && (forall j :: i <= j < |old_| ==> f < old_[j])
    && Ascending(Stretch(arr, lo, lo + k))
    && (forall v :: v in Stretch(arr, lo, lo + k) <==> v in old_ && v <= f && chosen(v))
  }

  /** Passes over the numbers below f. */
  method SkipBelow(arr: array<int>, lo: nat, hi: nat, i0: nat, f: int, ghost old_: seq<int>) returns (i: nat)
    requires lo <= hi <= arr.Length && |old_| == hi - lo && i0 <= |old_| && Ascending(old_)
    requires Stretch(arr, lo + i0, hi) == old_[i0..]
    ensures i0 <= i <= |old_| && Stretch(arr, lo + i, hi) == old_[i..]
    ensures forall j :: i0 <= j < i ==> old_[j] < f
    ensures forall j :: i <= j < |old_| ==> f <= old_[j]
  {
    hide Ascending;
    i := i0;
    ghost var rest := Stretch(arr, lo + i0, hi);
    assert forall j :: i0 <= j < |old_| ==> arr[lo + j] == rest[j - i0] == old_[j];
    while lo + i < hi && arr[lo + i] < f
      invariant i0 <= i <= |old_|
      invariant forall j :: i0 <= j < i ==> old_[j] < f
    {
      i := i + 1;
    }
    assert Stretch(arr, lo + i, hi) == old_[i..];
    AboveFrom(old_, i, f);
  }

  lemma AboveFrom(s: seq<int>, i: nat, f: int)
    requires Ascending(s) && i <= |s| && (i < |s| ==> f <= s[i])
    ensures forall j :: i <= j < |s| ==> f <= s[j]
  {
  }

  /** Puts f behind the k numbers at the front. */
  method StoreFront(arr: array<int>, lo: nat, hi: nat, k: nat, i: nat, f: int, ghost old_: seq<int>)
    requires lo <= hi <= arr.Length && |old_| == hi - lo && k <= i < |old_| && Stretch(arr, lo + i, hi) == old_[i..]
    modifies arr
    ensures Stretch(arr, lo, lo + k + 1) == old(Stretch(arr, lo, lo + k)) + [f]
    ensures Stretch(arr, lo + i + 1, hi) == old_[i + 1..]
  {
    ghost var front, rest := Stretch(arr, lo, lo + k), Stretch(arr, lo + i, hi);
    assert forall j :: i <= j < |old_| ==> old_[j] == rest[j - i];
    assert forall j :: i <= j < |old_| ==> arr[lo + j] == old_[j];
    arr[lo + k] := f;
  }

  lemma NarrowedFront(arr: array<int>, lo: nat, hi: nat, old_: seq<int>, k: nat, i: nat, f: int, chosen: int -> bool) returns (front: seq<int>)
    requires Narrowed(arr, lo, hi, old_, k, i, f, chosen)
    ensures lo <= hi <= arr.Length && |old_| == hi - lo && k <= i <= |old_|
    ensures front == Stretch(arr, lo, lo + k) && Ascending(front) && Stretch(arr, lo + i, hi) == old_[i..]
    ensures (forall j :: 0 <= j < i ==> old_[j] <= f) && forall j :: i <= j < |old_| ==> f < old_[j]
    ensures forall v :: v in front <==> v in old_ && v <= f && chosen(v)
  {
    front := Stretch(arr, lo, lo + k);
  }

  /** One id of the posting list against the list that is being narrowed. */
  method NarrowStep(arr: array<int>, lo: nat, hi: nat, k0: nat, i0: nat, f: int,
                    ghost old_: seq<int>, ghost before: int, ghost chosen: int -> bool)
    returns (k: nat, i: nat)
    requires Ascending(old_) && Narrowed(arr, lo, hi, old_, k0, i0, before, chosen) && before < f && chosen(f)
    requires forall v :: before < v < f ==> !chosen(v)
    modifies arr
    ensures Narrowed(arr, lo, hi, old_, k, i, f, chosen)
  {
    hide Narrowed;
    k := k0;
    ghost var front := NarrowedFront(arr, lo, hi, old_, k0, i0, before, chosen);
    i := SkipBelow(arr, lo, hi, i0, f, old_);
    assert lo + i < hi ==> arr[lo + i] == Stretch(arr, lo + i, hi)[0] == old_[i];
    if lo + i < hi && arr[lo + i] == f {
      StoreFront(arr, lo, hi, k, i, f, old_);
      k := k + 1;
      i := i + 1;
    }
    NarrowedAgain(arr, lo, hi, old_, k, i, front, before, f, chosen);
  }

  lemma NarrowedAgain(arr: array<int>, lo: nat, hi: nat, old_: seq<int>, k: nat, i: nat, front: seq<int>,
                      before: int, f: int, chosen: int -> bool)
    requires Ascending(old_) && Ascending(front) && before < f && chosen(f)
    requires forall v :: before < v < f ==> !chosen(v)
    requires forall v :: v in front <==> v in old_ && v <= before && chosen(v)
    requires lo <= hi <= arr.Length && |old_| == hi - lo && k <= i <= |old_| && Stretch(arr, lo + i, hi) == old_[i..]
    requires forall j :: 0 <= j < i ==> old_[j] <= f
    requires forall j :: i <= j < |old_| ==> f < old_[j]
    requires Stretch(arr, lo, lo + k) == if i > 0 && old_[i - 1] == f then front + [f] else front
    ensures Narrowed(arr, lo, hi, old_, k, i, f, chosen)
  {
    assert forall j :: 0 <= j < |front| ==> front[j] in front;
    NarrowedItems(old_, front, before, f, i, Stretch(arr, lo, lo + k), chosen);
  }

  lemma NarrowedItems(old_: seq<int>, front: seq<int>, before: int, f: int, i: nat, now: seq<int>, chosen: int -> bool)
    requires Ascending(old_) && i <= |old_| && before < f && chosen(f)
    requires forall v :: v in front <==> v in old_ && v <= before && chosen(v)
    requires forall v :: before < v < f ==> !chosen(v)
    requires forall j :: 0 <= j < i ==> old_[j] <= f
    requires forall j :: i <= j < |old_| ==> f < old_[j]
    requires now == if i > 0 && old_[i - 1] == f then front + [f] else front
    ensures forall v :: v in now <==> v in old_ && v <= f && chosen(v)
  {
    forall v
      ensures v in now <==> v in old_ && v <= f && chosen(v)
    {
      if v == f && v in old_ {
        var j :| 0 <= j < |old_| && old_[j] == f;
        assert j < i;
        assert j == i - 1;
      }
    }
  }

  /** Nothing that the reader lets pass lies between the last id and the next one. */
  lemma NothingSkipped(ids: seq<nat>, n: nat, passed: nat, lets: int -> bool, last: int)
    requires Ascending(ids) && n + passed <= |ids| && (if n == 0 then last == -1 else last == ids[n - 1])
    requires forall k :: n <= k < n + passed ==> !lets(ids[k])
    ensures n + passed < |ids| ==> forall v :: last < v < ids[n + passed] ==> !(v in ids && lets(v))
    ensures n + passed == |ids| ==> forall v :: last < v ==> !(v in ids && lets(v))
  {
    forall v | last < v && v in ids && (n + passed < |ids| ==> v < ids[n + passed])
      ensures !lets(v)
    {
      var k :| 0 <= k < |ids| && ids[k] == v;
    }
  }

  /** The ids of a posting list that restrict lets pass. */
  ghost function Passing(ids: seq<nat>, restrict: Slice): int -> bool
    requires Ok(restrict)
    reads Footprint(restrict)
  {
    var open, items := restrict.Nil?, Items(restrict);
    v => v in ids && (open || v in items)
  }

  /** How far a reader has come in the list ids. */
  ghost predicate Reading(r: PostReader, ids: seq<nat>, n: nat, last: int)
    reads r, r.delta, Footprint(r.restrict)
  {
    r.Valid() && Ascending(ids) && n + |r.todo| == |ids| && r.todo == ids[n..] && last == if n == 0 then -1 else ids[n - 1]
  }

  /** The reader moves to the next id that is chosen; there is none when it reports the end. */
  method NextChosen(r: PostReader, ghost ids: seq<nat>, ghost n0: nat, ghost last: int, ghost chosen: int -> bool)
    returns (ok: bool, ghost n: nat)
    requires n0 <= |ids| && Reading(r, ids, n0, last) && forall v :: chosen(v) <==> v in ids && r.Lets(v)
    modifies r`count, r`fileid, r`restrict, r`todo, r.delta
    ensures Footprint(r.restrict) == old(Footprint(r.restrict))
    ensures ok ==> n0 < n <= |ids| && Reading(r, ids, n, r.fileid) && chosen(r.fileid) && last < r.fileid
    ensures forall v :: last < v && (ok ==> v < r.fileid) ==> !chosen(v)
  {
    hide PostReader.Valid;
    n := n0;
    ghost var passed;
    ok, passed := r.Next();
    NothingSkipped(ids, n0, passed, v => r.Lets(v), last);
    if ok {
      n := n0 + passed + 1;
      assert r.fileid == ids[n0 + passed] && r.fileid in ids;
    }
  }

  /** When nothing is left to read, what is chosen of the list is all that is chosen. */
  lemma NarrowingDone(arr: array<int>, lo: nat, hi: nat, old_: seq<int>, k: nat, i: nat, last: int, chosen: int -> bool)
    requires Narrowed(arr, lo, hi, old_, k, i, last, chosen) && forall v :: last < v ==> !chosen(v)
    ensures lo <= lo + k <= hi <= arr.Length && Ascending(Items(Slice(arr, lo, lo + k)))
    ensures forall v :: v in Items(Slice(arr, lo, lo + k)) <==> v in old_ && chosen(v)
  {
    assert Items(Slice(arr, lo, lo + k)) == Stretch(arr, lo, lo + k);
  }

  lemma NarrowingStarts(list: Slice, chosen: int -> bool)
    requires list.Slice? && Ok(list) && Ascending(Items(list)) && forall v :: v in Items(list) ==> v >= 0
    ensures Narrowed(list.arr, list.lo, list.hi, Items(list), 0, 0, -1, chosen)
  {
    var items := Items(list);
    assert forall j :: 0 <= j < |items| ==> items[j] in items;
    assert Stretch(list.arr, list.lo, list.hi) == items == items[0..];
  }

  /** postingAnd narrows the list in place; the slice it returns is a front part of the one it was given. */
  method PostingAnd(ix: Index, list: Slice, trigram: nat, restrict: Slice, ghost ps: seq<Posting>) returns (x: Slice)
    requires Indexed(ix, ps) && Ok(restrict) && Ascending(Items(restrict))
    requires list.Slice? && Ok(list) && Ascending(Items(list)) && list.arr !in Footprint(restrict)
    requires forall v :: v in Items(list) ==> v >= 0
    modifies list.arr
    ensures Ok(x) && x.Slice? && x.arr == list.arr && x.lo == list.lo && x.hi <= list.hi && Ascending(Items(x))
    ensures forall v :: v in Items(x) <==> v in old(Items(list)) && v in Lookup(ps, trigram) && Within(v, restrict)
  {
    var r := new PostReader(ix, trigram, restrict, ps);
    ghost var ids, n, old_ := r.todo, 0, Items(list);
    ghost var chosen := Passing(ids, restrict);
    x := NarrowAll(r, list, ids, chosen);
  }

  method NarrowAll(r: PostReader, list: Slice, ghost ids: seq<nat>, ghost chosen: int -> bool) returns (x: Slice)
    requires list.Slice? && Ok(list) && Ascending(Items(list)) && list.arr !in Footprint(r.restrict)
    requires forall v :: v in Items(list) ==> v >= 0
    requires Reading(r, ids, 0, -1) && forall v :: chosen(v) <==> v in ids && r.Lets(v)
    modifies list.arr, r`count, r`fileid, r`restrict, r`todo, r.delta
    ensures Ok(x) && x.Slice? && x.arr == list.arr && x.lo == list.lo && x.hi <= list.hi && Ascending(Items(x))
    ensures forall v :: v in Items(x) <==> v in old(Items(list)) && chosen(v)
  {
    hide Reading, Narrowed;
    ghost var n, old_, last := 0, Items(list), -1;
    var arr, k, i := list.arr, 0, 0;
    NarrowingStarts(list, chosen);
    while true
      invariant n <= |ids| && Reading(r, ids, n, last) && arr !in Footprint(r.restrict)
      invariant Narrowed(arr, list.lo, list.hi, old_, k, i, last, chosen)
      decreases |ids| - n
    {
      var ok;
      ok, n := NextChosen(r, ids, n, last, chosen);
      if !ok {
        break;
      }
      k, i := NarrowStep(arr, list.lo, list.hi, k, i, r.fileid, old_, last, chosen);
      last := r.fileid;
    }
    NarrowingDone(arr, list.lo, list.hi, old_, k, i, last, chosen);
    x := Slice(arr, list.lo, list.lo + k);
  }

  /** items is what the first i numbers of list and the chosen numbers up to f give together. */
  ghost predicate Widened(items: seq<int>, list: seq<int>, i: nat, f: int, chosen: int -> bool) {
    && i <= |list| && Ascending(items)
    && (forall j :: 0 <= j < i ==> list[j] <= f)
    && (forall j :: i <= j < |list| ==> f < list[j])
    && (forall v :: v in items <==> v <= f && (v in list || chosen(v)))
  }

  /** Copies the numbers of the list below f. */
  method CopyBelow(items0: seq<int>, list: seq<int>, i0: nat, f: int, ghost before: int, ghost chosen: int -> bool)
    returns (items: seq<int>, i: nat)
    requires Ascending(list) && Widened(items0, list, i0, before, chosen) && before < f
    requires forall v :: before < v < f ==> !chosen(v)
    ensures i0 <= i <= |list| && Ascending(items)
    ensures forall j :: 0 <= j < i ==> list[j] < f
    ensures forall j :: i <= j < |list| ==> f <= list[j]
    ensures forall v :: v in items <==> v < f && (v in list || chosen(v))
  {
    items, i := items0, i0;
    while i < |list| && list[i] < f
      invariant i0 <= i <= |list| && items == items0 + list[i0..i]
      invariant forall j :: i0 <= j < i ==> list[j] < f
    {
      items := items + [list[i]];
      i := i + 1;
    }
    CopiedItems(items0, list, i0, i, f, before, chosen);
  }

  lemma CopiedItems(items0: seq<int>, list: seq<int>, i0: nat, i: nat, f: int, before: int, chosen: int -> bool)
    requires Ascending(list) && Widened(items0, list, i0, before, chosen) && before < f && i0 <= i <= |list|
    requires forall v :: before < v < f ==> !chosen(v)
    requires forall j :: i0 <= j < i ==> list[j] < f
    requires forall j :: i <= j < |list| ==> f <= list[j]
    ensures Ascending(items0 + list[i0..i])
    ensures forall v :: v in items0 + list[i0..i] <==> v < f && (v in list || chosen(v))
  {
    var mid := list[i0..i];
    assert forall k :: 0 <= k < |items0| ==> items0[k] in items0;
    assert forall k :: 0 <= k < |mid| ==> mid[k] == list[i0 + k];
    forall v
      ensures v in items0 + mid <==> v < f && (v in list || chosen(v))
    {
      if v in list && before < v < f {
        var j :| 0 <= j < |list| && list[j] == v;
        assert mid[j - i0] == v;
      }
    }
  }

  /** One id of the posting list joins the list. */
  method WidenStep(items0: seq<int>, list: seq<int>, i0: nat, f: int, ghost before: int, ghost chosen: int -> bool)
    returns (items: seq<int>, i: nat)
    requires Ascending(list) && Widened(items0, list, i0, before, chosen) && before < f && chosen(f)
    requires forall v :: before < v < f ==> !chosen(v)
    ensures Widened(items, list, i, f, chosen)
  {
    items, i := CopyBelow(items0, list, i0, f, before, chosen);
    assert forall k :: 0 <= k < |items| ==> items[k] in items;
    items := items + [f];
    if i < |list| && list[i] == f {
      i := i + 1;
    }
  }

  lemma WideningDone(items: seq<int>, list: seq<int>, i: nat, last: int, chosen: int -> bool)
    requires Ascending(list) && Widened(items, list, i, last, chosen) && forall v :: last < v ==> !chosen(v)
    ensures i <= |list| && Ascending(items + list[i..]) && forall v :: v in items + list[i..] <==> v in list || chosen(v)
  {
    assert forall k :: 0 <= k < |items| ==> items[k] in items;
    forall v
      ensures v in items + list[i..] <==> v in list || chosen(v)
    {
      if v in list && v > last {
        var j :| 0 <= j < |list| && list[j] == v;
        assert list[i..][j - i] == v;
      }
    }
  }

  lemma WideningStarts(list: seq<int>, chosen: int -> bool)
    requires Ascending(list) && (forall v :: v in list ==> v >= 0) && forall v :: chosen(v) ==> v >= 0
    ensures Widened([], list, 0, -1, chosen)
  {
    assert forall j :: 0 <= j < |list| ==> list[j] in list;
  }

  method WidenAll(r: PostReader, list: seq<int>, ghost ids: seq<nat>, ghost chosen: int -> bool) returns (items: seq<int>)
    requires Ascending(list) && forall v :: v in list ==> v >= 0
    requires Reading(r, ids, 0, -1) && forall v :: chosen(v) <==> v in ids && r.Lets(v)
    requires forall v :: chosen(v) ==> v >= 0
    modifies r`count, r`fileid, r`restrict, r`todo, r.delta
    ensures Ascending(items) && forall v :: v in items <==> v in list || chosen(v)
  {
    hide Reading, Widened;
    ghost var n, last := 0, -1;
    var i: nat := 0;
    items := [];
    WideningStarts(list, chosen);
    while true
      invariant n <= |ids| && Reading(r, ids, n, last) && Widened(items, list, i, last, chosen)
      decreases |ids| - n
    {
      var ok;
      ok, n := NextChosen(r, ids, n, last, chosen);
      if !ok {
        break;
      }
      items, i := WidenStep(items, list, i, r.fileid, last, chosen);
      last := r.fileid;
    }
    WideningDone(items, list, i, last, chosen);
    items := items + list[i..];
  }

  /** postingOr builds the union in new storage. */
  method PostingOr(ix: Index, list: Slice, trigram: nat, restrict: Slice, ghost ps: seq<Posting>) returns (x: Slice)
    requires Indexed(ix, ps) && Ok(restrict) && Ascending(Items(restrict))
    requires Ok(list) && Ascending(Items(list)) && forall v :: v in Items(list) ==> v >= 0
    ensures x.Slice? && Ok(x) && fresh(x.arr) && Ascending(Items(x))
    ensures forall v :: v in Items(x) <==> v in Items(list) || (v in Lookup(ps, trigram) && Within(v, restrict))
  {
    var r := new PostReader(ix, trigram, restrict, ps);
    var l := if list.Nil? then [] else list.arr[list.lo..list.hi];
    assert l == Items(list);
    var items := WidenAll(r, l, r.todo, Passing(r.todo, restrict));
    x := MakeSlice(items);
  }

  /** mergeOr: the union of two lists; nil when both are empty. */
  method MergeOr(l1: Slice, l2: Slice) returns (x: Slice)
    requires Ok(l1) && Ok(l2) && Ascending(Items(l1)) && Ascending(Items(l2))
    ensures Ok(x) && (x.Slice? ==> fresh(x.arr)) && Ascending(Items(x))
    ensures forall v :: v in Items(x) <==> v in Items(l1) || v in Items(l2)
  {
    var a := if l1.Nil? then [] else l1.arr[l1.lo..l1.hi];
    var b := if l2.Nil? then [] else l2.arr[l2.lo..l2.hi];
    assert a == Items(l1) && b == Items(l2);
    var l := MergeItems(a, b);
    if |l| == 0 {
      x := Nil;
    } else {
      x := MakeSlice(l);
    }
  }

  method MergeItems(a: seq<int>, b: seq<int>) returns (l: seq<int>)
    requires Ascending(a) && Ascending(b)
    ensures Ascending(l) && forall v :: v in l <==> v in a || v in b
  {
    l := [];
    var i, j := 0, 0;
    while i < |a| || j < |b|
      invariant i <= |a| && j <= |b| && Ascending(l)
      invariant forall v :: v in l <==> v in a[..i] || v in b[..j]
      invariant forall v, k :: v in l && i <= k < |a| ==> v < a[k]
      invariant forall v, k :: v in l && j <= k < |b| ==> v < b[k]
      decreases |a| - i + |b| - j
    {
      ghost var before := l;
      assert forall k :: 0 <= k < |l| ==> l[k] in l;
      if j == |b| || (i < |a| && a[i] < b[j]) {
        assert a[..i + 1] == a[..i] + [a[i]];
        l := l + [a[i]];
        i := i + 1;
      } else if i == |a| || (j < |b| && a[i] > b[j]) {
        assert b[..j + 1] == b[..j] + [b[j]];
        l := l + [b[j]];
        j := j + 1;
      } else {
        assert a[..i + 1] == a[..i] + [a[i]] && b[..j + 1] == b[..j] + [b[j]];
        l := l + [a[i]];
        i := i + 1;
        j := j + 1;
      }
    }
    assert a[..|a|] == a && b[..|b|] == b;
  }

  // ------------------------------------------------------------- query evaluation

  /** A file id within restrict. */
  ghost predicate Candidate(ix: Index, v: int, restrict: Slice)
    requires Ok(restrict)
    reads Footprint(restrict)
  {
    0 <= v < ix.numName && Within(v, restrict)
  }

  /** An ascending list of file ids, nil or not. */
  ghost predicate FileIds(ix: Index, s: Slice)
    reads Footprint(s)
  {
    Ok(s) && Ascending(Items(s)) && forall v :: v in Items(s) ==> 0 <= v < ix.numName
  }

  /** The files whose trigrams satisfy the query. */
  ghost function Satisfying(q: Q.Query, ps: seq<Posting>): nat -> bool
    requires Sorted(ps)
  {
    (v: nat) => Q.Eval(q, Document(ps, v))
  }

  /** The files that have every one of the trigrams. */
  ghost function HavingAll(ts: seq<Str>, ps: seq<Posting>): nat -> bool
    requires Sorted(ps)
  {
    (v: nat) => forall t :: t in ts ==> t in Document(ps, v)
  }

  ghost function HavingAny(ts: seq<Str>, ps: seq<Posting>): nat -> bool
    requires Sorted(ps)
  {
    (v: nat) => exists t :: t in ts && t in Document(ps, v)
  }

  ghost function SatisfyingAll(qs: seq<Q.Query>, ps: seq<Posting>): nat -> bool
    requires Sorted(ps)
  {
    (v: nat) => forall q :: q in qs ==> Q.Eval(q, Document(ps, v))
  }

  ghost function SatisfyingAny(qs: seq<Q.Query>, ps: seq<Posting>): nat -> bool
    requires Sorted(ps)
  {
    (v: nat) => exists q :: q in qs && Q.Eval(q, Document(ps, v))
  }

  /** list holds exactly the candidates that sel selects. */
  ghost predicate Holds(ix: Index, list: Slice, restrict: Slice, sel: nat -> bool)
    reads Footprint(list), Footprint(restrict)
  {
    && Ok(restrict) && FileIds(ix, list)
    && (forall v :: v in Items(list) <==> Candidate(ix, v, restrict) && sel(v))
  }

  lemma OneMoreTrigram(ts: seq<Str>, t: Str, ps: seq<Posting>, v: nat)
    requires Sorted(ps) && |t| == 3
    ensures HavingAll(ts + [t], ps)(v) <==> HavingAll(ts, ps)(v) && v in Lookup(ps, TrigramNumber(t))
    ensures HavingAny(ts + [t], ps)(v) <==> HavingAny(ts, ps)(v) || v in Lookup(ps, TrigramNumber(t))
  {
    InDocument(ps, v, t);
    assert forall x :: x in ts + [t] <==> x in ts || x == t;
  }

  lemma NoTrigrams(ps: seq<Posting>, v: nat)
    requires Sorted(ps)
    ensures HavingAll([], ps)(v) && !HavingAny([], ps)(v)
  {
  }

  lemma MoreTrigramsHaveLess(ts: seq<Str>, k: nat, ps: seq<Posting>, v: nat)
    requires Sorted(ps) && k <= |ts| && HavingAll(ts, ps)(v)
    ensures HavingAll(ts[..k], ps)(v)
  {
    assert forall t :: t in ts[..k] ==> t in ts;
  }

  /** The ids of a posting list are file ids. */
  lemma ListedIds(ix: Index, ps: seq<Posting>, trigram: nat)
    requires WellFormed(ix, ps)
    ensures forall v :: v in Lookup(ps, trigram) ==> 0 <= v < ix.numName
  {
    LookupBounded(ix, ps, trigram);
  }

  /** The trigrams of a QAnd: the first list is read, the others narrow it. Nil if there are none. */
  method AllTrigrams(ix: Index, ts: seq<Str>, restrict: Slice, ghost ps: seq<Posting>) returns (list: Slice)
    requires Indexed(ix, ps) && FileIds(ix, restrict) && forall t :: t in ts ==> |t| == 3
    ensures ts == [] ==> list == Nil
    ensures ts != [] ==> list.Slice? && fresh(list.arr) && Holds(ix, list, restrict, HavingAll(ts, ps))
  {
    hide IndexedV1, IndexedV2, Holds;
    list := Nil;
    for k := 0 to |ts|
      invariant k == 0 ==> list == Nil
      invariant k > 0 ==> list.Slice? && fresh(list.arr) && Holds(ix, list, restrict, HavingAll(ts[..k], ps))
    {
      assert ts[k] in ts;
      var tri := TrigramNumber(ts[k]);
      list := NarrowByTrigram(ix, list, ts[..k], ts[k], restrict, ps);
      assert ts[..k + 1] == ts[..k] + [ts[k]];
      if Len(list) == 0 {
        NobodyLeft(ix, list, restrict, ts, k + 1, ps);
        return;
      }
    }
    assert ts[..|ts|] == ts;
  }

  lemma NobodyLeft(ix: Index, list: Slice, restrict: Slice, ts: seq<Str>, k: nat, ps: seq<Posting>)
    requires Sorted(ps) && k <= |ts| && Holds(ix, list, restrict, HavingAll(ts[..k], ps)) && Len(list) == 0
    ensures Holds(ix, list, restrict, HavingAll(ts, ps))
  {
    forall v | Candidate(ix, v, restrict)
      ensures !HavingAll(ts, ps)(v)
    {
      assert v !in Items(list);
      if HavingAll(ts, ps)(v) {
        MoreTrigramsHaveLess(ts, k, ps, v);
      }
    }
  }

  method NarrowByTrigram(ix: Index, list0: Slice, ghost ts: seq<Str>, t: Str, restrict: Slice, ghost ps: seq<Posting>)
    returns (list: Slice)
    requires Indexed(ix, ps) && FileIds(ix, restrict) && |t| == 3
    requires list0.Nil? ==> ts == []
    requires list0.Slice? ==> list0.arr !in Footprint(restrict) && Holds(ix, list0, restrict, HavingAll(ts, ps))
    modifies Footprint(list0)
    ensures list.Slice? && Ok(list) && (fresh(list.arr) || (list0.Slice? && list.arr == list0.arr))
    ensures Holds(ix, list, restrict, HavingAll(ts + [t], ps))
  {
    ListedIds(ix, ps, TrigramNumber(t));
    forall v: nat
      ensures HavingAll(ts + [t], ps)(v) <==> HavingAll(ts, ps)(v) && v in Lookup(ps, TrigramNumber(t))
      ensures HavingAll([], ps)(v)
    {
      OneMoreTrigram(ts, t, ps, v);
      NoTrigrams(ps, v);
    }
    if list0.Nil? {
      list := PostingList(ix, TrigramNumber(t), restrict, ps);
    } else {
      list := PostingAnd(ix, list0, TrigramNumber(t), restrict, ps);
    }
  }

  /** The slice holds the candidates that sel selects, and shares storage with nothing but perhaps restrict. */
  ghost predicate Result(ix: Index, x: Slice, restrict: Slice, sel: nat -> bool)
    reads Footprint(x), Footprint(restrict)
  {
    Holds(ix, x, restrict, sel) && (x.Slice? ==> x == restrict || x.arr !in Footprint(restrict))
  }

  lemma OneMoreQuery(qs: seq<Q.Query>, q: Q.Query, ps: seq<Posting>, v: nat)
    requires Sorted(ps)
    ensures SatisfyingAll(qs + [q], ps)(v) <==> SatisfyingAll(qs, ps)(v) && Satisfying(q, ps)(v)
    ensures SatisfyingAny(qs + [q], ps)(v) <==> SatisfyingAny(qs, ps)(v) || Satisfying(q, ps)(v)
  {
    assert forall x :: x in qs + [q] <==> x in qs || x == q;
    if SatisfyingAny(qs, ps)(v) {
      var x :| x in qs && Q.Eval(x, Document(ps, v));
      assert x in qs + [q];
    }
    if Satisfying(q, ps)(v) {
      assert q in qs + [q];
    }
  }

  /** postingQuery: the candidates whose trigrams satisfy the query. Nothing that existed before is written to,
      so restrict keeps its items although postingAnd works in place and slices are shared. */
  method PostingQuery(ix: Index, q: Q.Query, restrict: Slice, ghost ps: seq<Posting>) returns (x: Slice)
    requires Indexed(ix, ps) && FileIds(ix, restrict) && Q.WellFormed(q) && Q.Solid(q)
    ensures Result(ix, x, restrict, Satisfying(q, ps))
    ensures x.Slice? ==> x == restrict || fresh(x.arr)
    decreases q, 3
  {
    match q.op {
      case QNone =>
        x := Nil;
      case QAll =>
        x := AllFiles(ix, restrict, ps);
      case QAnd =>
        x := QueryAnd(ix, q, restrict, ps);
      case QOr =>
        x := QueryOr(ix, q, restrict, ps);
    }
  }

  method AllFiles(ix: Index, restrict: Slice, ghost ps: seq<Posting>) returns (x: Slice)
    requires WellFormed(ix, ps) && FileIds(ix, restrict)
    ensures Result(ix, x, restrict, Satisfying(Q.AllQuery, ps))
    ensures x.Slice? && (x == restrict || fresh(x.arr))
  {
    assert forall v: nat :: Satisfying(Q.AllQuery, ps)(v);
    if restrict.Slice? {
      return restrict;
    }
    var items: seq<int> := seq(ix.numName, i => i);
    assert forall k :: 0 <= k < |items| ==> items[k] == k;
    x := MakeSlice(items);
    forall v
      ensures v in Items(x) <==> 0 <= v < ix.numName
    {
      assert 0 <= v < ix.numName ==> items[v] == v;
    }
  }

  // ------------------------------------------------------------------------- QAnd

  /** The files that have the trigrams of a QAnd and satisfy the first k of its sub-queries. */
  ghost function AndSoFar(q: Q.Query, k: nat, ps: seq<Posting>): nat -> bool
    requires Sorted(ps) && k <= |q.sub|
  {
    (v: nat) => HavingAll(q.trigram, ps)(v) && SatisfyingAll(q.sub[..k], ps)(v)
  }

  lemma AndDone(q: Q.Query, ps: seq<Posting>, v: nat)
    requires Sorted(ps) && q.op.QAnd?
    ensures AndSoFar(q, |q.sub|, ps)(v) <==> Satisfying(q, ps)(v)
    ensures forall k: nat :: k <= |q.sub| && Satisfying(q, ps)(v) ==> AndSoFar(q, k, ps)(v)
  {
    assert q.sub[..|q.sub|] == q.sub;
    var T := Document(ps, v);
    assert Q.Eval(q, T) <==> (forall t | t in q.trigram :: t in T) && (forall s | s in q.sub :: Q.Eval(s, T));
    assert HavingAll(q.trigram, ps)(v) <==> forall t :: t in q.trigram ==> t in T;
    assert SatisfyingAll(q.sub, ps)(v) <==> forall s :: s in q.sub ==> Q.Eval(s, T);
    forall k: nat | k <= |q.sub| && Satisfying(q, ps)(v)
      ensures AndSoFar(q, k, ps)(v)
    {
      assert forall s :: s in q.sub[..k] ==> s in q.sub;
    }
  }

  lemma AndStarts(q: Q.Query, ps: seq<Posting>, v: nat)
    requires Sorted(ps)
    ensures AndSoFar(q, 0, ps)(v) <==> HavingAll(q.trigram, ps)(v)
    ensures q.trigram == [] ==> AndSoFar(q, 0, ps)(v)
  {
  }

  lemma AndStep(q: Q.Query, k: nat, ps: seq<Posting>, v: nat)
    requires Sorted(ps) && k < |q.sub|
    ensures AndSoFar(q, k + 1, ps)(v) <==> AndSoFar(q, k, ps)(v) && Satisfying(q.sub[k], ps)(v)
  {
    assert q.sub[..k + 1] == q.sub[..k] + [q.sub[k]];
    OneMoreQuery(q.sub[..k], q.sub[k], ps, v);
  }

  /** list is nil as long as nothing has narrowed the candidates down. */
  ghost predicate AndState(ix: Index, q: Q.Query, k: nat, list: Slice, restrict: Slice, ps: seq<Posting>)
    requires Sorted(ps) && k <= |q.sub|
    reads Footprint(list), Footprint(restrict)
  {
    && FileIds(ix, restrict)
    && (list.Nil? ==> k == 0 && q.trigram == [])
    && (list.Slice? ==> Holds(ix, list, restrict, AndSoFar(q, k, ps)))
  }

  lemma AndEmpty(ix: Index, q: Q.Query, k: nat, list: Slice, restrict: Slice, ps: seq<Posting>)
    requires Sorted(ps) && q.op.QAnd? && k <= |q.sub| && Holds(ix, list, restrict, AndSoFar(q, k, ps)) && Len(list) == 0
    ensures Holds(ix, Nil, restrict, Satisfying(q, ps))
  {
    forall v | Candidate(ix, v, restrict)
      ensures !Satisfying(q, ps)(v)
    {
      assert v !in Items(list);
      AndDone(q, ps, v);
    }
  }

  /** The candidates of a sub-query of a QAnd are those of the list so far. */
  lemma AndNarrowed(ix: Index, q: Q.Query, k: nat, list: Slice, cur: Slice, next: Slice, restrict: Slice, ps: seq<Posting>)
    requires Sorted(ps) && k < |q.sub| && q.op.QAnd? && AndState(ix, q, k, list, restrict, ps)
    requires cur == (if list.Nil? then restrict else list) && Holds(ix, next, cur, Satisfying(q.sub[k], ps))
    ensures Holds(ix, next, restrict, AndSoFar(q, k + 1, ps))
    ensures Len(next) > 0 ==> AndState(ix, q, k + 1, next, restrict, ps)
    ensures Len(next) == 0 ==> Holds(ix, Nil, restrict, Satisfying(q, ps))
  {
    forall v: nat
      ensures AndSoFar(q, k + 1, ps)(v) <==> AndSoFar(q, k, ps)(v) && Satisfying(q.sub[k], ps)(v)
      ensures q.trigram == [] ==> AndSoFar(q, 0, ps)(v)
    {
      AndStep(q, k, ps, v);
      AndStarts(q, ps, v);
    }
    if Len(next) == 0 {
      AndEmpty(ix, q, k + 1, next, restrict, ps);
    }
  }

  /** One sub-query of a QAnd, evaluated within the list so far, or within restrict if there is none yet. */
  method QueryAndSub(ix: Index, q: Q.Query, k: nat, list: Slice, restrict: Slice, ghost ps: seq<Posting>) returns (next: Slice)
    requires Indexed(ix, ps) && Q.WellFormed(q) && Q.Solid(q) && k < |q.sub| && q.op.QAnd? && AndState(ix, q, k, list, restrict, ps)
    ensures Ok(next) && (Len(next) > 0 ==> AndState(ix, q, k + 1, next, restrict, ps))
    ensures Len(next) == 0 ==> Holds(ix, Nil, restrict, Satisfying(q, ps))
    ensures next.Slice? ==> next == restrict || next == list || fresh(next.arr)
    decreases q, 0
  {
    hide IndexedV1, IndexedV2;
    var cur := if list.Nil? then restrict else list;
    assert q.sub[k] in q.sub;
    next := PostingQuery(ix, q.sub[k], cur, ps);
    AndNarrowed(ix, q, k, list, cur, next, restrict, ps);
  }

  method QueryAnd(ix: Index, q: Q.Query, restrict: Slice, ghost ps: seq<Posting>) returns (x: Slice)
    requires Indexed(ix, ps) && FileIds(ix, restrict) && Q.WellFormed(q) && Q.Solid(q) && q.op.QAnd?
    ensures Result(ix, x, restrict, Satisfying(q, ps))
    ensures x.Slice? ==> x == restrict || fresh(x.arr)
    decreases q, 2
  {
    hide IndexedV1, IndexedV2;
    var list := AllTrigrams(ix, q.trigram, restrict, ps);
    AndBegins(ix, q, list, restrict, ps);
    if q.trigram != [] && Len(list) == 0 {
      AndEmpty(ix, q, 0, list, restrict, ps);
      return Nil;
    }
    x := QueryAndSubs(ix, q, list, restrict, ps);
  }

  /** The sub-queries of a QAnd, one after the other, each within what the ones before have left. */
  method QueryAndSubs(ix: Index, q: Q.Query, list0: Slice, restrict: Slice, ghost ps: seq<Posting>) returns (x: Slice)
    requires Indexed(ix, ps) && Sorted(ps) && Q.WellFormed(q) && Q.Solid(q) && q.op.QAnd? && AndState(ix, q, 0, list0, restrict, ps)
    ensures Holds(ix, x, restrict, Satisfying(q, ps))
    ensures x.Slice? ==> x == restrict || x == list0 || fresh(x.arr)
    decreases q, 1
  {
    hide Indexed, AndState, Holds, FileIds;
    var list := list0;
    for k := 0 to |q.sub|
      invariant AndState(ix, q, k, list, restrict, ps)
      invariant list.Slice? ==> list == list0 || list == restrict || fresh(list.arr)
    {
      list := QueryAndSub(ix, q, k, list, restrict, ps);
      if Len(list) == 0 {
        return Nil;
      }
    }
    AndEnds(ix, q, list, restrict, ps);
    x := list;
  }

  lemma AndBegins(ix: Index, q: Q.Query, list: Slice, restrict: Slice, ps: seq<Posting>)
    requires Sorted(ps) && FileIds(ix, restrict) && (q.trigram == [] ==> list == Nil)
    requires q.trigram != [] ==> list.Slice? && Holds(ix, list, restrict, HavingAll(q.trigram, ps))
    ensures AndState(ix, q, 0, list, restrict, ps)
  {
    forall v: nat
      ensures AndSoFar(q, 0, ps)(v) <==> HavingAll(q.trigram, ps)(v)
    {
      AndStarts(q, ps, v);
    }
  }

  /** A QAnd that has children leaves a list, and the list is the answer. */
  lemma AndEnds(ix: Index, q: Q.Query, list: Slice, restrict: Slice, ps: seq<Posting>)
    requires Sorted(ps) && q.op.QAnd? && Q.Solid(q) && AndState(ix, q, |q.sub|, list, restrict, ps)
    ensures Holds(ix, list, restrict, Satisfying(q, ps))
  {
    forall v: nat
      ensures AndSoFar(q, |q.sub|, ps)(v) <==> Satisfying(q, ps)(v)
    {
      AndDone(q, ps, v);
    }
  }

  // -------------------------------------------------------------------------- QOr

  ghost function OrSoFar(q: Q.Query, k: nat, ps: seq<Posting>): nat -> bool
    requires Sorted(ps) && k <= |q.sub|
  {
    (v: nat) => HavingAny(q.trigram, ps)(v) || SatisfyingAny(q.sub[..k], ps)(v)
  }

  lemma OrSteps(q: Q.Query, ps: seq<Posting>, v: nat)
    requires Sorted(ps)
    ensures OrSoFar(q, 0, ps)(v) <==> HavingAny(q.trigram, ps)(v)
    ensures q.op.QOr? ==> (OrSoFar(q, |q.sub|, ps)(v) <==> Satisfying(q, ps)(v))
    ensures forall k: nat :: k < |q.sub| ==> (OrSoFar(q, k + 1, ps)(v) <==> OrSoFar(q, k, ps)(v) || Satisfying(q.sub[k], ps)(v))
  {
    assert q.sub[..|q.sub|] == q.sub && q.sub[..0] == [];
    forall k: nat | k < |q.sub|
      ensures OrSoFar(q, k + 1, ps)(v) <==> OrSoFar(q, k, ps)(v) || Satisfying(q.sub[k], ps)(v)
    {
      assert q.sub[..k + 1] == q.sub[..k] + [q.sub[k]];
      OneMoreQuery(q.sub[..k], q.sub[k], ps, v);
    }
  }

  /** The trigrams of a QOr. */
  method AnyTrigrams(ix: Index, ts: seq<Str>, restrict: Slice, ghost ps: seq<Posting>) returns (list: Slice)
    requires Indexed(ix, ps) && FileIds(ix, restrict) && forall t :: t in ts ==> |t| == 3
    ensures (list.Slice? ==> fresh(list.arr)) && Holds(ix, list, restrict, HavingAny(ts, ps))
  {
    list := Nil;
    for k := 0 to |ts|
      invariant (list.Slice? ==> fresh(list.arr)) && Holds(ix, list, restrict, HavingAny(ts[..k], ps))
    {
      assert ts[k] in ts && ts[..k + 1] == ts[..k] + [ts[k]];
      list := WidenByTrigram(ix, list, ts[..k], ts[k], restrict, ps);
    }
    assert ts[..|ts|] == ts;
  }

  method WidenByTrigram(ix: Index, list0: Slice, ghost ts: seq<Str>, t: Str, restrict: Slice, ghost ps: seq<Posting>)
    returns (list: Slice)
    requires Indexed(ix, ps) && FileIds(ix, restrict) && |t| == 3 && Holds(ix, list0, restrict, HavingAny(ts, ps))
    ensures list.Slice? && fresh(list.arr) && Holds(ix, list, restrict, HavingAny(ts + [t], ps))
  {
    ListedIds(ix, ps, TrigramNumber(t));
    forall v: nat
      ensures HavingAny(ts + [t], ps)(v) <==> HavingAny(ts, ps)(v) || v in Lookup(ps, TrigramNumber(t))
    {
      OneMoreTrigram(ts, t, ps, v);
    }
    if list0.Nil? {
      list := PostingList(ix, TrigramNumber(t), restrict, ps);
    } else {
      list := PostingOr(ix, list0, TrigramNumber(t), restrict, ps);
    }
  }

  /** One sub-query of a QOr. */
  method QueryOrSub(ix: Index, q: Q.Query, k: nat, list: Slice, restrict: Slice, ghost ps: seq<Posting>) returns (x: Slice)
    requires Indexed(ix, ps) && FileIds(ix, restrict) && Q.WellFormed(q) && Q.Solid(q) && k < |q.sub|
    requires Holds(ix, list, restrict, OrSoFar(q, k, ps))
    ensures (x.Slice? ==> fresh(x.arr)) && Holds(ix, x, restrict, OrSoFar(q, k + 1, ps))
    decreases q, 0
  {
    hide IndexedV1, IndexedV2;
    assert q.sub[k] in q.sub;
    var list1 := PostingQuery(ix, q.sub[k], restrict, ps);
    x := MergeOr(list, list1);
    OrMerged(ix, q, k, list, list1, x, restrict, ps);
  }

  method QueryOr(ix: Index, q: Q.Query, restrict: Slice, ghost ps: seq<Posting>) returns (x: Slice)
    requires Indexed(ix, ps) && FileIds(ix, restrict) && Q.WellFormed(q) && Q.Solid(q) && q.op.QOr?
    ensures Result(ix, x, restrict, Satisfying(q, ps))
    ensures x.Slice? ==> fresh(x.arr)
    decreases q, 1
  {
    var list := AnyTrigrams(ix, q.trigram, restrict, ps);
    SameHolders(ix, list, restrict, HavingAny(q.trigram, ps), OrSoFar(q, 0, ps), q, 0, ps);
    for k := 0 to |q.sub|
      invariant (list.Slice? ==> fresh(list.arr)) && Holds(ix, list, restrict, OrSoFar(q, k, ps))
    {
      list := QueryOrSub(ix, q, k, list, restrict, ps);
    }
    SameHolders(ix, list, restrict, OrSoFar(q, |q.sub|, ps), Satisfying(q, ps), q, |q.sub|, ps);
    x := list;
  }

  lemma SameHolders(ix: Index, list: Slice, restrict: Slice, sel: nat -> bool, sel': nat -> bool,
                    q: Q.Query, k: nat, ps: seq<Posting>)
    requires Sorted(ps) && Holds(ix, list, restrict, sel) && k <= |q.sub|
    requires (k == 0 && sel == HavingAny(q.trigram, ps) && sel' == OrSoFar(q, 0, ps)) ||
             (q.op.QOr? && sel == OrSoFar(q, |q.sub|, ps) && sel' == Satisfying(q, ps))
    ensures Holds(ix, list, restrict, sel')
  {
    forall v: nat
      ensures sel(v) <==> sel'(v)
    {
      OrSteps(q, ps, v);
    }
  }

  lemma OrMerged(ix: Index, q: Q.Query, k: nat, list: Slice, list1: Slice, merged: Slice, restrict: Slice, ps: seq<Posting>)
    requires Sorted(ps) && k < |q.sub| && Holds(ix, list, restrict, OrSoFar(q, k, ps))
    requires Holds(ix, list1, restrict, Satisfying(q.sub[k], ps))
    requires Ok(merged) && Ascending(Items(merged)) && forall v :: v in Items(merged) <==> v in Items(list) || v in Items(list1)
    ensures Holds(ix, merged, restrict, OrSoFar(q, k + 1, ps))
  {
    forall v: nat
      ensures OrSoFar(q, k + 1, ps)(v) <==> OrSoFar(q, k, ps)(v) || Satisfying(q.sub[k], ps)(v)
    {
      OrSteps(q, ps, v);
    }
  }
}
