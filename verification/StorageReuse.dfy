/** The storage of string sets (append, clean and union of internal/codesearch/index/regexp.go, and simplifySet):
    what these leave in the array of the slice they are called on, which other slices may still read. */
module StorageReuse {
  import opened Bytes
  import opened StringSets
  import opened Queries
  import opened Analysis

  /** The front of an array; what is behind it is spare room for append. */
  datatype Slice = Slice(arr: array<Str>, len: nat)

  ghost predicate Ok(s: Slice) {
    s.len <= s.arr.Length
  }

  ghost function Items(s: Slice): seq<Str>
    requires Ok(s)
    reads s.arr
  {
    s.arr[..s.len]
  }

  /** How much spare room append leaves when it has to get new storage, by the old capacity and the new length. */
  type Growth = (nat, nat) -> nat

  predicate Fits(s: Slice, n: nat) {
    s.len + n <= s.arr.Length
  }

  // ------------------------------------------------------------------ the contents of an array

  /** All strings of the array of a slice, and how many of them the slice has. */
  datatype Held = Held(all: seq<Str>, len: nat)

  predicate Whole(h: Held) {
    h.len <= |h.all|
  }

  function Front(h: Held): seq<Str>
    requires Whole(h)
  {
    h.all[..h.len]
  }

  predicate HasRoom(h: Held, n: nat) {
    h.len + n <= |h.all|
  }

  ghost function Memory(s: Slice): (h: Held)
    requires Ok(s)
    reads s.arr
    ensures Whole(h) && Front(h) == Items(s) && |h.all| == s.arr.Length
  {
    Held(s.arr[..], s.len)
  }

  /** The front of the array replaced by fewer or as many strings. */
  function Replaced(h: Held, t: seq<Str>): (r: Held)
    requires Whole(h) && |t| <= h.len
    ensures Whole(r) && Front(r) == t && |r.all| == |h.all|
  {
    Held(t + h.all[|t|..], |t|)
  }

  function Appended(h: Held, t: seq<Str>): (r: Held)
    requires Whole(h) && HasRoom(h, |t|)
    ensures Whole(r) && Front(r) == Front(h) + t && |r.all| == |h.all|
  {
    Held(Front(h) + t + h.all[h.len + |t|..], h.len + |t|)
  }

  /** Sorted and then squeezed: the strings behind those that are kept are what sorting put there. */
  function CleanedIn(h: Held, isSuffix: bool): (r: Held)
    requires Whole(h)
    ensures Whole(r) && Front(r) == Cleaned(Front(h), isSuffix) && |r.all| == |h.all|
  {
    Replaced(Replaced(h, SortStrings(Front(h), isSuffix)), Cleaned(Front(h), isSuffix))
  }

  function UnionIn(h: Held, t: seq<Str>, isSuffix: bool): (r: Held)
    requires Whole(h) && HasRoom(h, |t|)
    ensures Whole(r) && Front(r) == Cleaned(Front(h) + t, isSuffix) && |r.all| == |h.all|
  {
    CleanedIn(Appended(h, t), isSuffix)
  }

  function ShortenedIn(h: Held, n: nat, isSuffix: bool): (r: Held)
    requires Whole(h) && n > 0
    ensures Whole(r) && Front(r) == Shortened(Front(h), n, isSuffix) && |r.all| == |h.all|
  {
    CleanedIn(Replaced(h, Squeezed(Front(h), Cutter(n - 1, isSuffix), Equal)), isSuffix)
  }

  function RoundsIn(h: Held, n: nat, isSuffix: bool): (r: Held)
    requires Whole(h)
    ensures Whole(r) && Front(r) == Rounds(Front(h), n, isSuffix) && |r.all| == |h.all|
    decreases n
  {
    if n > 0 && (n == 3 || h.len > MaxSet) then RoundsIn(ShortenedIn(h, n, isSuffix), n - 1, isSuffix) else h
  }

  function DroppedIn(h: Held, isSuffix: bool): (r: Held)
    requires Whole(h)
    ensures Whole(r) && Front(r) == Dropped(Front(h), isSuffix) && |r.all| == |h.all|
  {
    Replaced(h, Dropped(Front(h), isSuffix))
  }

  /** What simplifySet leaves in the array: the simplified set in front, and traces of its rounds behind it. */
  function SimplifiedIn(h: Held, isSuffix: bool): (r: Held)
    requires Whole(h)
    ensures Whole(r) && Front(r) == SimplifiedSet(Front(h), isSuffix) && |r.all| == |h.all|
  {
    DroppedIn(RoundsIn(CleanedIn(h, isSuffix), 3, isSuffix), isSuffix)
  }

  /** The capacity after append of n strings. */
  function Capacity(cap: nat, len: nat, n: nat, grow: Growth): nat {
    if len + n <= cap then cap else len + n + grow(cap, len + n)
  }

  // ------------------------------------------------------------------------- the loops

  /** append: writes into the spare room if there is enough, and else into new storage. */
  method Append(s: Slice, t: seq<Str>, grow: Growth) returns (u: Slice)
    requires Ok(s)
    modifies s.arr
    ensures Ok(u) && Items(u) == old(Items(s)) + t
    ensures if Fits(s, |t|) then u.arr == s.arr && Memory(u) == Appended(old(Memory(s)), t)
            else fresh(u.arr) && s.arr[..] == old(s.arr[..])
    ensures u.arr.Length == Capacity(s.arr.Length, s.len, |t|, grow)
  {
    if Fits(s, |t|) {
      for k := 0 to |t|
        invariant forall j :: 0 <= j < s.arr.Length && !(s.len <= j < s.len + k) ==> s.arr[j] == old(s.arr[j])
        invariant forall j :: 0 <= j < k ==> s.arr[s.len + j] == t[j]
      {
        s.arr[s.len + k] := t[k];
      }
      u := Slice(s.arr, s.len + |t|);
      AppendedAt(old(Memory(s)), t, s.arr[..]);
    } else {
      var items := s.arr[..s.len] + t;
      var n := |items| + grow(s.arr.Length, |items|);
      var arr := new Str[n](i => if 0 <= i < |items| then items[i] else []);
      u := Slice(arr, |items|);
      assert forall k :: 0 <= k < |items| ==> arr[k] == items[k];
    }
  }

  /** Writes a list over the front of a slice. */
  method Overwrite(s: Slice, t: seq<Str>) returns (u: Slice)
    requires Ok(s) && |t| <= s.len
    modifies s.arr
    ensures u.arr == s.arr && Ok(u) && Memory(u) == Replaced(old(Memory(s)), t)
  {
    for k := 0 to |t|
      invariant forall j :: 0 <= j < k ==> s.arr[j] == t[j]
      invariant forall j :: k <= j < s.arr.Length ==> s.arr[j] == old(s.arr[j])
    {
      s.arr[k] := t[k];
    }
    u := Slice(s.arr, |t|);
    ReplacedAt(old(Memory(s)), t, s.arr[..]);
  }

  lemma ReplacedAt(h: Held, t: seq<Str>, all: seq<Str>)
    requires Whole(h) && |t| <= h.len && |all| == |h.all|
    requires forall j :: 0 <= j < |t| ==> all[j] == t[j]
    requires forall j :: |t| <= j < |all| ==> all[j] == h.all[j]
    ensures Replaced(h, t).all == all
  {
  }

  lemma AppendedAt(h: Held, t: seq<Str>, all: seq<Str>)
    requires Whole(h) && HasRoom(h, |t|) && |all| == |h.all|
    requires forall j :: 0 <= j < |all| && !(h.len <= j < h.len + |t|) ==> all[j] == h.all[j]
    requires forall j :: 0 <= j < |t| ==> all[h.len + j] == t[j]
    ensures Appended(h, t).all == all
  {
    var r := Appended(h, t).all;
    forall j | 0 <= j < |all|
      ensures r[j] == all[j]
    {
      if h.len <= j < h.len + |t| {
        assert r[j] == t[j - h.len];
      }
    }
  }

  lemma SqueezedStep(items: seq<Str>, change: Str -> Str, skip: (Str, Str) -> bool, i: nat)
    requires i < |items|
    ensures var k := Squeezed(items[..i], change, skip);
            |k| <= i &&
            Squeezed(items[..i + 1], change, skip) ==
            if k == [] || !skip(k[|k| - 1], change(items[i])) then k + [change(items[i])] else k
  {
    assert items[..i + 1][..i] == items[..i];
  }

  /** A loop that reads the strings of a slice and writes those it keeps to the front of it. */
  method Squeeze(s: Slice, change: Str -> Str, skip: (Str, Str) -> bool) returns (u: Slice)
    requires Ok(s)
    modifies s.arr
    ensures u.arr == s.arr && Ok(u) && Memory(u) == Replaced(old(Memory(s)), Squeezed(old(Items(s)), change, skip))
  {
    hide Squeezed;
    ghost var items := Items(s);
    ghost var k: seq<Str> := [];
    var w := 0;
    SqueezedNone(change, skip);
    assert items[..0] == [];
    for i := 0 to s.len
      invariant k == Squeezed(items[..i], change, skip) && w == |k| <= i
      invariant forall j :: 0 <= j < w ==> s.arr[j] == k[j]
      invariant forall j :: w <= j < s.arr.Length ==> s.arr[j] == old(s.arr[j])
    {
      SqueezedStep(items, change, skip, i);
      assert s.arr[i] == items[i];
      var str := change(s.arr[i]);
      if w == 0 || !skip(s.arr[w - 1], str) {
        s.arr[w] := str;
        w := w + 1;
        k := k + [str];
      }
    }
    assert items[..s.len] == items;
    u := Slice(s.arr, w);
    ReplacedAt(old(Memory(s)), k, s.arr[..]);
  }

  lemma SqueezedNone(change: Str -> Str, skip: (Str, Str) -> bool)
    ensures Squeezed([], change, skip) == []
  {
  }

  /** clean, in place. */
  method CleanInPlace(s: Slice, isSuffix: bool) returns (u: Slice)
    requires Ok(s)
    modifies s.arr
    ensures u.arr == s.arr && Ok(u) && Memory(u) == CleanedIn(old(Memory(s)), isSuffix)
  {
    var sorted := SortStrings(s.arr[..s.len], isSuffix);
    u := Overwrite(s, sorted);
    u := Squeeze(u, Same, Equal);
  }

  /** union: if it fits into the storage of s, it stands there. */
  method UnionInPlace(s: Slice, t: seq<Str>, isSuffix: bool, grow: Growth) returns (u: Slice)
    requires Ok(s)
    modifies s.arr
    ensures Ok(u) && Items(u) == Cleaned(old(Items(s)) + t, isSuffix)
    ensures if Fits(s, |t|) then u.arr == s.arr && Memory(u) == UnionIn(old(Memory(s)), t, isSuffix)
            else fresh(u.arr) && s.arr[..] == old(s.arr[..])
    ensures u.arr.Length == Capacity(s.arr.Length, s.len, |t|, grow)
  {
    u := Append(s, t, grow);
    u := CleanInPlace(u, isSuffix);
  }

  method ShortenInPlace(s: Slice, n: nat, isSuffix: bool) returns (u: Slice)
    requires Ok(s) && n > 0
    modifies s.arr
    ensures u.arr == s.arr && Ok(u) && Memory(u) == ShortenedIn(old(Memory(s)), n, isSuffix)
  {
    u := Squeeze(s, Cutter(n - 1, isSuffix), Equal);
    u := CleanInPlace(u, isSuffix);
  }

  /** The rounds of simplifySet and its last loop, in place. */
  method CutDownInPlace(s: Slice, isSuffix: bool) returns (u: Slice)
    requires Ok(s) && StrictlySorted(Items(s), isSuffix)
    modifies s.arr
    ensures u.arr == s.arr && Ok(u) && Memory(u) == DroppedIn(RoundsIn(old(Memory(s)), 3, isSuffix), isSuffix)
  {
    hide ShortenedIn, RoundsIn, DroppedIn, StrictlySorted, Dropped, Shortened, Shortens, Rounds;
    var n := 3;
    u := s;
    while n == 3 || u.len > MaxSet
      invariant 0 <= n <= 3 && u.arr == s.arr && Ok(u) && StrictlySorted(Items(u), isSuffix)
      invariant n < 3 ==> forall p :: p in Items(u) ==> |p| <= n
      invariant RoundsIn(Memory(u), n, isSuffix) == RoundsIn(old(Memory(s)), 3, isSuffix)
      decreases n
    {
      if n == 0 {
        OneEmptyString(Items(u), isSuffix);
        assert false;
      }
      RoundsInAre(Memory(u), n, isSuffix);
      ShortenedMeans(Items(u), n, isSuffix);
      u := ShortenInPlace(u, n, isSuffix);
      n := n - 1;
    }
    RoundsInAre(Memory(u), n, isSuffix);
    u := DropInPlace(u, isSuffix);
  }

  method DropInPlace(s: Slice, isSuffix: bool) returns (u: Slice)
    requires Ok(s)
    modifies s.arr
    ensures u.arr == s.arr && Ok(u) && Memory(u) == DroppedIn(old(Memory(s)), isSuffix)
  {
    u := Squeeze(s, Same, Extends(isSuffix));
  }

  lemma RoundsInAre(h: Held, n: nat, isSuffix: bool)
    requires Whole(h)
    ensures RoundsIn(h, n, isSuffix) ==
            if n > 0 && (n == 3 || h.len > MaxSet) then RoundsIn(ShortenedIn(h, n, isSuffix), n - 1, isSuffix) else h
  {
  }

  /** simplifySet, in place: it adds what the set requires to the query. */
  method SimplifySetInPlace(q: Query, s: Slice, isSuffix: bool) returns (out: Query, u: Slice)
    requires Ok(s) && WellFormed(q)
    modifies s.arr
    ensures WellFormed(out) && (Solid(q) ==> Solid(out))
    ensures forall T :: Eval(out, T) <==> Eval(q, T) && Required(old(Items(s)), T)
    ensures u.arr == s.arr && Ok(u) && Memory(u) == SimplifiedIn(old(Memory(s)), isSuffix)
  {
    ghost var items := Items(s);
    u := CleanInPlace(s, isSuffix);
    CleanedMeans(items, isSuffix);
    CleanKeepsMeaning(items, Items(u), isSuffix);
    out := AndTrigrams(q, u.arr[..u.len]);
    u := CutDownInPlace(u, isSuffix);
  }

  /** u is the union of s and t, in order and without duplicates. */
  ghost predicate IsUnion(u: seq<Str>, s: seq<Str>, t: seq<Str>, isSuffix: bool) {
    SameElements(u, s + t) && StrictlySorted(u, isSuffix)
  }

  // --------------------------------------------- what becomes of the set it is called on

  lemma {:induction false} SortedSubset(s: seq<Str>, u: seq<Str>, isSuffix: bool)
    requires StrictlySorted(s, isSuffix) && StrictlySorted(u, isSuffix) && forall x :: x in s ==> x in u
    ensures |s| <= |u|
  {
    if s != [] {
      assert s[0] in u;
      var k :| 0 <= k < |u| && u[k] == s[0];
      forall x | x in s[1..]
        ensures x in u[k + 1..]
      {
        assert x in s && Before(s[0], x, isSuffix);
        var j :| 0 <= j < |u| && u[j] == x;
        BeforeIsStrict(x, isSuffix);
        if j < k {
          BeforeTransitive(x, s[0], x, isSuffix);
        }
      }
      SortedSubset(s[1..], u[k + 1..], isSuffix);
    }
  }

  /** Every string of t is in s already or sorts behind all of s. */
  ghost predicate SortsBehind(s: seq<Str>, t: seq<Str>, isSuffix: bool) {
    forall x :: x in t ==> x in s || s == [] || Before(s[|s| - 1], x, isSuffix)
  }

  /** A clean set whose storage now holds its union with t still reads as the same set exactly when
      every string of t is in it or sorts behind it. */
  lemma ReceiverKept(s: seq<Str>, t: seq<Str>, u: seq<Str>, isSuffix: bool)
    requires StrictlySorted(s, isSuffix) && IsUnion(u, s, t, isSuffix)
    ensures |s| <= |u|
    ensures SameElements(u[..|s|], s) <==> SortsBehind(s, t, isSuffix)
  {
    assert forall x :: x in s ==> x in s + t;
    SortedSubset(s, u, isSuffix);
    if SameElements(u[..|s|], s) {
      StrictlySortedUnique(u[..|s|], s, isSuffix);
      forall x | x in t
        ensures x in s || s == [] || Before(s[|s| - 1], x, isSuffix)
      {
        assert x in s + t;
        var j :| 0 <= j < |u| && u[j] == x;
        assert s != [] ==> s[|s| - 1] == u[|s| - 1];
        assert j < |s| ==> x == s[j];
      }
    }
    if SortsBehind(s, t, isSuffix) && s != [] {
      FrontIsReceiver(s, t, u, isSuffix);
    }
  }

  lemma FrontIsReceiver(s: seq<Str>, t: seq<Str>, u: seq<Str>, isSuffix: bool)
    requires s != [] && StrictlySorted(s, isSuffix) && IsUnion(u, s, t, isSuffix) && SortsBehind(s, t, isSuffix)
    ensures |s| <= |u| && u[..|s|] == s
  {
    var last := s[|s| - 1];
    assert last in s + t;
    var k :| 0 <= k < |u| && u[k] == last;
    var front := u[..k + 1];
    forall x
      ensures x in front <==> x in s
    {
      BeforeIsStrict(last, isSuffix);
      if x in front {
        assert x in s + t;
        assert x == last || Before(x, last, isSuffix);
        if x != last && Before(last, x, isSuffix) {
          BeforeTransitive(last, x, last, isSuffix);
        }
      }
      if x in s {
        assert x in s + t;
        var j :| 0 <= j < |u| && u[j] == x;
        if j > k {
          assert x == last || Before(x, last, isSuffix);
          if x != last {
            BeforeTransitive(last, x, last, isSuffix);
          }
        }
      }
    }
    StrictlySortedUnique(front, s, isSuffix);
  }
}
