/** Ascending entries as posting lists: which list the next entry belongs to. */
module Grouping {
  import opened Bytes
  import opened PostingLists
  import opened PostingWriter
  import opened PostDataWriters
  import opened ChunkReaders
  import opened RadixSort

  ghost predicate GroupOk(p: Posting) {
    0 < p.trigram < InvalidTrigram && p.ids != [] && Ascending(p.ids) && forall k :: 0 <= k < |p.ids| ==> p.ids[k] < FileIdSpan
  }

  /** Lists without gaps: not empty, by ascending trigram. */
  ghost predicate Groups(ps: seq<Posting>) {
    && (forall i, j :: 0 <= i < j < |ps| ==> ps[i].trigram < ps[j].trigram)
    && (forall i :: 0 <= i < |ps| ==> GroupOk(ps[i]))
  }

  lemma EntryParts(e: nat)
    ensures e == MakeEntry(TrigramOf(e), FileIdOf(e)) && FileIdOf(e) < FileIdSpan
  {
  }

  lemma PartsOfEntry(t: nat, id: nat)
    requires id < FileIdSpan
    ensures TrigramOf(MakeEntry(t, id)) == t && FileIdOf(MakeEntry(t, id)) == id
  {
  }

  /** Entries are ordered by trigram first. */
  lemma EntryOrder(d: nat, e: nat)
    requires d < e
    ensures TrigramOf(d) < TrigramOf(e) || (TrigramOf(d) == TrigramOf(e) && FileIdOf(d) < FileIdOf(e))
  {
    EntryParts(d);
    EntryParts(e);
  }

  lemma EntryListMore(ps: seq<Posting>, p: Posting)
    ensures EntryList(ps + [p]) == EntryList(ps) + Tagged(p.trigram, p.ids)
  {
    assert (ps + [p])[..|ps|] == ps;
  }

  lemma TaggedMore(t: nat, ids: seq<nat>, id: nat)
    ensures Tagged(t, ids + [id]) == Tagged(t, ids) + [MakeEntry(t, id)]
  {
  }

  lemma LastBelow(prefix: seq<nat>, e: nat)
    requires Ascending(prefix + [e])
    ensures prefix != [] ==> prefix[|prefix| - 1] < e
  {
    var s := prefix + [e];
    assert prefix != [] ==> s[|prefix| - 1] < s[|prefix|];
  }

  lemma LastEntryOf(ps: seq<Posting>)
    requires Groups(ps) && ps != []
    ensures var p := ps[|ps| - 1];
            EntryList(ps) != [] && EntryList(ps)[|EntryList(ps)| - 1] == MakeEntry(p.trigram, LastOf(p.ids))
  {
  }

  /** The next entry has the trigram of the last list. */
  lemma SameGroup(ps: seq<Posting>, t: nat, ids: seq<nat>, e: nat)
    requires Groups(ps + [Posting(t, ids)]) && Ascending(EntryList(ps + [Posting(t, ids)]) + [e]) && TrigramOf(e) == t
    ensures LastOf(ids) < FileIdOf(e) < FileIdSpan && Groups(ps + [Posting(t, ids + [FileIdOf(e)])])
    ensures EntryList(ps + [Posting(t, ids + [FileIdOf(e)])]) == EntryList(ps + [Posting(t, ids)]) + [e]
  {
    var qs, id := ps + [Posting(t, ids)], FileIdOf(e);
    assert GroupOk(qs[|ps|]);
    LastEntryOf(qs);
    LastBelow(EntryList(qs), e);
    EntryOrder(MakeEntry(t, LastOf(ids)), e);
    PartsOfEntry(t, LastOf(ids));
    EntryParts(e);
    OneMoreId(t, ids, id);
    EntryListMore(ps, Posting(t, ids));
    EntryListMore(ps, Posting(t, ids + [id]));
    TaggedMore(t, ids, id);
    hide GroupOk;
    assert forall i :: 0 <= i < |ps| ==> ps[i] == qs[i] && GroupOk(qs[i]);
    assert forall i :: 0 <= i < |ps| ==> qs[i].trigram < qs[|ps|].trigram;
  }

  lemma OneMoreId(t: nat, ids: seq<nat>, id: nat)
    requires GroupOk(Posting(t, ids)) && LastOf(ids) < id < FileIdSpan
    ensures GroupOk(Posting(t, ids + [id]))
  {
  }

  /** The next entry has another trigram and starts a list of its own. */
  lemma NewGroup(ps: seq<Posting>, e: nat)
    requires Groups(ps) && Ascending(EntryList(ps) + [e]) && 0 < TrigramOf(e) < InvalidTrigram
    requires ps == [] || ps[|ps| - 1].trigram != TrigramOf(e)
    ensures FileIdOf(e) < FileIdSpan && Groups(ps + [Posting(TrigramOf(e), [FileIdOf(e)])])
    ensures EntryList(ps + [Posting(TrigramOf(e), [FileIdOf(e)])]) == EntryList(ps) + [e]
  {
    var p := Posting(TrigramOf(e), [FileIdOf(e)]);
    EntryParts(e);
    EntryListMore(ps, p);
    hide EntryList, Groups;
    assert Tagged(p.trigram, p.ids) == [e];
    assert GroupOk(p);
    BehindLast(ps, e);
    GroupsMore(ps, p);
  }

  lemma GroupsMore(ps: seq<Posting>, p: Posting)
    requires Groups(ps) && GroupOk(p) && forall i :: 0 <= i < |ps| ==> ps[i].trigram < p.trigram
    ensures Groups(ps + [p])
  {
    hide GroupOk;
    assert forall i :: 0 <= i < |ps| ==> (ps + [p])[i] == ps[i];
  }

  lemma BehindLast(ps: seq<Posting>, e: nat)
    requires Groups(ps) && Ascending(EntryList(ps) + [e])
    requires ps == [] || ps[|ps| - 1].trigram != TrigramOf(e)
    ensures forall i :: 0 <= i < |ps| ==> ps[i].trigram < TrigramOf(e)
  {
    if ps != [] {
      var q := ps[|ps| - 1];
      assert GroupOk(q);
      LastEntryOf(ps);
      LastBelow(EntryList(ps), e);
      hide EntryList, Ascending;
      EntryOrder(MakeEntry(q.trigram, LastOf(q.ids)), e);
      PartsOfEntry(q.trigram, LastOf(q.ids));
    }
  }

  lemma {:induction false} InEntryList(ps: seq<Posting>, e: nat)
    ensures e in EntryList(ps) <==> exists i :: 0 <= i < |ps| && e in Tagged(ps[i].trigram, ps[i].ids)
  {
    hide Tagged;
    if ps != [] {
      var n := |ps| - 1;
      InEntryList(ps[..n], e);
      if e in EntryList(ps[..n]) {
        var i :| 0 <= i < n && e in Tagged(ps[..n][i].trigram, ps[..n][i].ids);
        assert e in Tagged(ps[i].trigram, ps[i].ids);
      }
      if i :| 0 <= i < |ps| && e in Tagged(ps[i].trigram, ps[i].ids) {
        assert i < n ==> ps[..n][i] == ps[i];
      }
    }
  }

  lemma InTagged(t: nat, ids: seq<nat>, e: nat)
    requires forall k :: 0 <= k < |ids| ==> ids[k] < FileIdSpan
    ensures e in Tagged(t, ids) <==> TrigramOf(e) == t && FileIdOf(e) in ids
  {
    if e in Tagged(t, ids) {
      var k :| 0 <= k < |ids| && MakeEntry(t, ids[k]) == e;
      PartsOfEntry(t, ids[k]);
    }
    if TrigramOf(e) == t && FileIdOf(e) in ids {
      var k :| 0 <= k < |ids| && ids[k] == FileIdOf(e);
      EntryParts(e);
      assert Tagged(t, ids)[k] == e;
    }
  }

  /** The lists hold exactly the entries. */
  lemma GroupsHold(ps: seq<Posting>, t: nat, id: nat)
    requires Groups(ps) && id < FileIdSpan
    ensures Sorted(ps) && (id in Lookup(ps, t) <==> MakeEntry(t, id) in EntryList(ps))
  {
    assert forall i :: 0 <= i < |ps| ==> GroupOk(ps[i]);
    var e := MakeEntry(t, id);
    InEntryList(ps, e);
    PartsOfEntry(t, id);
    forall i | 0 <= i < |ps|
      ensures e in Tagged(ps[i].trigram, ps[i].ids) <==> ps[i].trigram == t && id in ps[i].ids
    {
      InTagged(ps[i].trigram, ps[i].ids, e);
    }
    if id in Lookup(ps, t) {
      LookupAscends(ps, t);
    }
    if i :| 0 <= i < |ps| && ps[i].trigram == t && id in ps[i].ids {
      LookupAt(ps, i);
    }
  }
}
