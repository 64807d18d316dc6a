/** Reading a flushed chunk of entries back (allPostReader in internal/codesearch/index/read.go). */
module ChunkReaders {
  import opened Bytes
  import opened DeltaCoding
  import opened PostingLists
  import opened PostingWriter
  import opened PostDataWriters
  import opened RadixSort

  // ------------------------------------------------------- posting lists as entries

  ghost function Tagged(trigram: nat, ids: seq<nat>): seq<nat> {
    seq(|ids|, i requires 0 <= i < |ids| => MakeEntry(trigram, ids[i]))
  }

  /** The entries of posting lists, in order. */
  ghost function EntryList(ps: seq<Posting>): seq<nat> {
    if ps == [] then [] else EntryList(ps[..|ps| - 1]) + Tagged(ps[|ps| - 1].trigram, ps[|ps| - 1].ids)
  }

  lemma {:induction false} EntryListHead(ps: seq<Posting>)
    requires ps != []
    ensures EntryList(ps) == Tagged(ps[0].trigram, ps[0].ids) + EntryList(ps[1..])
  {
    hide Tagged;
    var n := |ps| - 1;
    if n == 0 {
      assert ps[..0] == [] && ps[1..] == [];
    } else {
      EntryListHead(ps[..n]);
      assert ps[..n][1..] == ps[1..][..n - 1];
    }
  }

  lemma {:induction false} ListsBytesHead(version: nat, ps: seq<Posting>)
    requires ps != [] && AllStorable(ps)
    ensures ListsBytes(version, ps) == ListBytes(version, ps[0]) + ListsBytes(version, ps[1..])
  {
    hide ListBytes;
    var n := |ps| - 1;
    if n == 0 {
      assert ps[..0] == [] && ps[1..] == [];
    } else {
      ListsBytesHead(version, ps[..n]);
      assert ps[..n][1..] == ps[1..][..n - 1];
      AppendAssociates(ListBytes(version, ps[0]), ListsBytes(version, ps[1..][..n - 1]), ListBytes(version, ps[n]));
    }
  }

  lemma AppendAssociates(a: Str, b: Str, c: Str)
    ensures (a + b) + c == a + (b + c)
  {
  }

  /** Ids that may follow last. */
  ghost predicate Ahead(ids: seq<nat>, last: int) {
    last >= -1 && Ascending(ids) && forall k :: 0 <= k < |ids| ==> last < ids[k] < MaxDelta
  }

  ghost function Coded(ids: seq<nat>, last: int): seq<nat>
    requires Ahead(ids, last)
  {
    Deltas(ids, last) + [0]
  }

  ghost predicate Flushed(ps: seq<Posting>) {
    forall i :: 0 <= i < |ps| ==> Storable(ps[i]) && ps[i].trigram != InvalidTrigram && Small(ps[i].ids)
  }

  // ----------------------------------------------------------------- allPostReader

  class AllPostReader {
    var trigram: nat
    var fileid: int
    const delta: DeltaReader
    /** The ids of the current list, and the lists behind it, that are still to come. */
    ghost var ids: seq<nat>
    ghost var lists: seq<Posting>
    ghost var behind: Str

    ghost predicate Behind()
      reads this`lists, this`behind
    {
      Flushed(lists) && behind == ListsBytes(delta.version, lists)
    }

    ghost predicate Valid()
      reads this, delta
    {
      && Behind()
      && if trigram == InvalidTrigram then ids == [] && delta.Valid() && delta.held == [] && delta.d == behind
         else trigram < InvalidTrigram && Ahead(ids, fileid) && delta.Feeds(Coded(ids, fileid), behind)
    }

    ghost function Todo(): seq<nat>
      reads this
    {
      Tagged(trigram, ids) + EntryList(lists)
    }

    constructor (version: nat, data: Str, ghost ps: seq<Posting>)
      requires Flushed(ps) && data == ListsBytes(version, ps)
      ensures Valid() && fresh(delta) && Todo() == EntryList(ps)
    {
      delta := new DeltaReader(version, data);
      trigram := InvalidTrigram;
      fileid := 0;
      ids := [];
      lists := ps;
      behind := data;
      new;
      assert Tagged(trigram, []) + EntryList(ps) == EntryList(ps);
    }

    /** The start of the next list, if there is one. */
    method NextList() returns (ok: bool)
      requires Valid() && trigram == InvalidTrigram
      modifies this, delta
      ensures ok ==> Valid() && Todo() == old(Todo()) && trigram != InvalidTrigram && |lists| == |old(lists)| - 1
      ensures !ok ==> old(Todo()) == []
    {
      hide EntryList, ListsBytes, Deltas, Encode, DeltaReader.Feeds;
      if |delta.d| == 0 {
        EmptyLists(delta.version, lists);
        NoEntries();
        return false;
      }
      NotEmpty(delta.version, lists);
      ghost var p, rest := lists[0], lists[1..];
      ghost var _ := FrontOfLists(delta.version, lists);
      trigram := TrigramNumber(delta.d[..3]);
      fileid := -1;
      delta.d := delta.d[3..];
      ids := p.ids;
      lists := rest;
      behind := ListsBytes(delta.version, lists);
      assert Coded(ids, fileid) == Deltas(ids, -1) + [0];
      EncodedFeeds(delta, Coded(ids, fileid), behind);
      ok := true;
      EntryListHead(old(lists));
      assert Tagged(InvalidTrigram, []) + EntryList(old(lists)) == EntryList(old(lists));
    }

    /** next: the next entry, if there is one. */
    method Next() returns (e: nat, ok: bool)
      requires Valid()
      modifies this, delta
      ensures ok <==> old(Todo()) != []
      ensures ok ==> Valid() && e == old(Todo())[0] && Todo() == old(Todo())[1..]
    {
      hide Valid, Todo;
      while true
        invariant Valid() && Todo() == old(Todo())
        decreases |lists|, if trigram == InvalidTrigram then 0 else 1
      {
        if trigram == InvalidTrigram {
          var more := NextList();
          if !more {
            return 0, false;
          }
        }
        var d := NextId();
        if d == 0 {
          continue;
        }
        return MakeEntry(trigram, fileid), true;
      }
    }

    method NextId() returns (d: nat)
      requires Valid() && trigram != InvalidTrigram
      modifies this, delta
      ensures Valid() && lists == old(lists)
      ensures d == 0 ==> trigram == InvalidTrigram && Todo() == old(Todo())
      ensures d != 0 ==> trigram != InvalidTrigram && fileid >= 0 && old(Todo()) == [MakeEntry(trigram, fileid)] + Todo()
    {
      hide Valid, Tagged;
      TaggedHead(trigram, ids);
      TaggedHead(InvalidTrigram, []);
      d := Step();
      assert d != 0 ==> old(ids)[1..] == ids;
    }

    /** One number of the current list: the next id, or 0 at its end. */
    method Step() returns (d: nat)
      requires Valid() && trigram != InvalidTrigram
      modifies this, delta
      ensures Valid() && lists == old(lists)
      ensures d == 0 ==> trigram == InvalidTrigram && old(ids) == ids == []
      ensures d != 0 ==> trigram == old(trigram) && fileid >= 0 && old(ids) == [fileid] + ids
    {
      hide Behind, Ahead, Coded, DeltaReader.Feeds;
      CodedHead(ids, fileid);
      d := delta.Next(Coded(ids, fileid), behind);
      if d == 0 {
        EndOfList();
      } else {
        fileid := fileid + d;
        ids := ids[1..];
      }
    }

    /** Behind the 0 that ends a list stands the next one. */
    method EndOfList()
      requires ids == [] && Behind() && delta.Feeds([], behind)
      modifies this`trigram, delta
      ensures Valid() && trigram == InvalidTrigram
    {
      hide Behind, DeltaReader.Feeds;
      delta.ClearBits(behind);
      trigram := InvalidTrigram;
    }

    /** All entries of the chunk. */
    method ReadAll() returns (x: seq<nat>)
      requires Valid()
      modifies this, delta
      ensures x == old(Todo())
    {
      hide Valid, Todo;
      x := [];
      while true
        invariant Valid() && x + Todo() == old(Todo())
        decreases |Todo()|
      {
        var e, ok := Next();
        if !ok {
          break;
        }
        x := x + [e];
      }
    }
  }

  lemma EmptyLists(version: nat, ps: seq<Posting>)
    requires AllStorable(ps) && ListsBytes(version, ps) == []
    ensures ps == []
  {
  }

  lemma NotEmpty(version: nat, ps: seq<Posting>)
    requires AllStorable(ps) && ListsBytes(version, ps) != []
    ensures ps != []
  {
  }

  lemma NoEntries()
    ensures EntryList([]) == []
  {
  }

  lemma FrontOfLists(version: nat, ps: seq<Posting>) returns (behind: Str)
    requires AllStorable(ps) && ps != []
    ensures behind == Encode(version, Deltas(ps[0].ids, -1) + [0]) + ListsBytes(version, ps[1..])
    ensures |ListsBytes(version, ps)| >= 3 && ListsBytes(version, ps)[..3] == TrigramBytes(ps[0].trigram)
    ensures ListsBytes(version, ps)[3..] == behind
  {
    ListsBytesHead(version, ps);
    var t, e := TrigramBytes(ps[0].trigram), Encode(version, Deltas(ps[0].ids, -1) + [0]);
    assert ListBytes(version, ps[0]) == t + e;
    hide ListsBytes, Encode, Deltas, ListBytes;
    behind := e + ListsBytes(version, ps[1..]);
    ThreeFirst(t, e, ListsBytes(version, ps[1..]));
  }

  lemma ThreeFirst(t: Str, e: Str, r: Str)
    requires |t| == 3
    ensures ((t + e) + r)[..3] == t && ((t + e) + r)[3..] == e + r
  {
  }

  lemma TaggedHead(trigram: nat, ids: seq<nat>)
    ensures ids == [] ==> Tagged(trigram, ids) == []
    ensures ids != [] ==> Tagged(trigram, ids) == [MakeEntry(trigram, ids[0])] + Tagged(trigram, ids[1..])
  {
  }

  lemma CodedHead(ids: seq<nat>, last: int)
    requires Ahead(ids, last)
    ensures var ds := Coded(ids, last);
            && ds != [] && 0 <= ds[0] <= MaxDelta
            && (ids == [] ==> ds[0] == 0 && ds[1..] == [])
            && (ids != [] ==> Ahead(ids[1..], ids[0]) && ds[0] == ids[0] - last > 0 && ds[1..] == Coded(ids[1..], ids[0]))
  {
  }
}
