/** What an index holds, apart from its bytes: for each trigram, the ascending numbers of the files with it. */
module PostingLists {
  import opened Bytes

  datatype Posting = Posting(trigram: nat, ids: seq<nat>)

  const InvalidTrigram := 0xFF_FFFF

  predicate Ascending(s: seq<int>) {
    forall i, j :: 0 <= i < j < |s| ==> s[i] < s[j]
  }

  /** A trigram as a number, its first byte highest. */
  function TrigramNumber(t: Str): (n: nat)
    requires |t| == 3
    ensures n <= InvalidTrigram
  {
    (t[0] as int) * 0x1_0000 + (t[1] as int) * 0x100 + t[2] as int
  }

  function TrigramBytes(n: nat): (t: Str)
    requires n <= InvalidTrigram
    ensures |t| == 3 && TrigramNumber(t) == n
  {
    [n / 0x1_0000, n / 0x100 % 0x100, n % 0x100]
  }

  lemma TrigramBytesOfNumber(t: Str)
    requires |t| == 3
    ensures TrigramBytes(TrigramNumber(t)) == t
  {
  }

  /** q may stand behind p. The invalid trigram ends an index with an empty list; merged indexes have several. */
  predicate MayFollow(p: Posting, q: Posting) {
    p.trigram < q.trigram || (p.trigram == q.trigram == InvalidTrigram && p.ids == [] && q.ids == [])
  }

  ghost predicate Sorted(ps: seq<Posting>) {
    && (forall i, j :: 0 <= i < j < |ps| ==> MayFollow(ps[i], ps[j]))
    && (forall i :: 0 <= i < |ps| ==> ps[i].trigram <= InvalidTrigram && Ascending(ps[i].ids))
  }

  /** The files that have a trigram. */
  ghost function Lookup(ps: seq<Posting>, trigram: nat): seq<nat> {
    if ps == [] then [] else if ps[0].trigram == trigram then ps[0].ids else Lookup(ps[1..], trigram)
  }

  lemma {:induction false} LookupAt(ps: seq<Posting>, i: nat)
    requires Sorted(ps) && i < |ps|
    ensures Lookup(ps, ps[i].trigram) == ps[i].ids
  {
    if i > 0 {
      assert MayFollow(ps[0], ps[i]);
      LookupAt(ps[1..], i - 1);
    }
  }

  lemma {:induction false} LookupAbsent(ps: seq<Posting>, trigram: nat)
    requires forall i :: 0 <= i < |ps| ==> ps[i].trigram != trigram
    ensures Lookup(ps, trigram) == []
  {
    if ps != [] {
      LookupAbsent(ps[1..], trigram);
    }
  }

  lemma {:induction false} LookupAscends(ps: seq<Posting>, trigram: nat)
    requires Sorted(ps)
    ensures Ascending(Lookup(ps, trigram))
    ensures forall id :: id in Lookup(ps, trigram) ==> exists i :: 0 <= i < |ps| && ps[i].trigram == trigram && id in ps[i].ids
  {
    if ps != [] {
      LookupAscends(ps[1..], trigram);
      if ps[0].trigram != trigram {
        forall id | id in Lookup(ps, trigram)
          ensures exists i :: 0 <= i < |ps| && ps[i].trigram == trigram && id in ps[i].ids
        {
          var i :| 0 <= i < |ps[1..]| && ps[1..][i].trigram == trigram && id in ps[1..][i].ids;
          assert ps[i + 1] == ps[1..][i];
        }
      }
    }
  }

  /** The trigrams that the index knows of a file. */
  ghost function Document(ps: seq<Posting>, id: nat): set<Str>
    requires forall i :: 0 <= i < |ps| ==> ps[i].trigram <= InvalidTrigram
  {
    set i | 0 <= i < |ps| && id in ps[i].ids :: TrigramBytes(ps[i].trigram)
  }

  lemma InDocument(ps: seq<Posting>, id: nat, t: Str)
    requires Sorted(ps) && |t| == 3
    ensures t in Document(ps, id) <==> id in Lookup(ps, TrigramNumber(t))
  {
    if t in Document(ps, id) {
      var i :| 0 <= i < |ps| && id in ps[i].ids && TrigramBytes(ps[i].trigram) == t;
      LookupAt(ps, i);
    }
    if id in Lookup(ps, TrigramNumber(t)) {
      LookupAscends(ps, TrigramNumber(t));
      var i :| 0 <= i < |ps| && ps[i].trigram == TrigramNumber(t) && id in ps[i].ids;
      TrigramBytesOfNumber(t);
      assert TrigramBytes(ps[i].trigram) == t;
    }
  }

  // --------------------------------------------------------------------- deltas

  /** Differences between neighbours, the first one from last. */
  function Deltas(ids: seq<nat>, last: int): (ds: seq<nat>)
    requires last >= -1 && (forall k :: 0 <= k < |ids| ==> last < ids[k]) && Ascending(ids)
    ensures |ds| == |ids| && forall k :: 0 <= k < |ds| ==> ds[k] > 0
  {
    if ids == [] then [] else [ids[0] - last] + Deltas(ids[1..], ids[0])
  }

  lemma {:induction false} DeltasBounded(ids: seq<nat>, last: int, max: nat)
    requires last >= -1 && (forall k :: 0 <= k < |ids| ==> last < ids[k] < max) && Ascending(ids)
    ensures forall k :: 0 <= k < |ids| ==> Deltas(ids, last)[k] <= max
  {
    if ids != [] {
      DeltasBounded(ids[1..], ids[0], max);
    }
  }
}
