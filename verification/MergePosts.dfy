/** Merging the posting lists of two index files (postMapReader and the loop of Merge in internal/codesearch/index/merge.go). */
module MergePosts {
  import opened Bytes
  import opened Varint
  import opened Buffers
  import opened DeltaCoding
  import opened PostingLists
  import opened PostingIndex
  import opened PostingWriter
  import opened PostDataWriters
  import opened MergeMaps
  import opened MergeLists
  import opened ChunkReaders

  // ------------------------------------------------------------------ the table, in order

  /** Reads the entries of an index table one after the other. */
  class TableReader {
    const ix: Index
    var trigram: nat
    var count: nat
    var offset: nat
    var block: Str
    var nextBlock: nat
    var triNum: int
    /** The lists of the table, its blocks, how many blocks and how many entries of the last one have been read. */
    ghost const ps: seq<Posting>
    ghost const blocks: seq<seq<Entry>>
    ghost var loaded: nat
    ghost var used: nat
    ghost var pad: nat

    ghost predicate Table() {
      AllStorable(ps) && (TableV1(ix, ps) || TableV2(ix, blocks, ps))
    }

    constructor (ix: Index, ghost ps: seq<Posting>)
      requires Tabled(ix, ps)
      ensures this.ix == ix && this.ps == ps && Table() && triNum == -1 && Stood(0)
    {
      this.ix := ix;
      this.ps := ps;
      trigram, count, offset, block, nextBlock, triNum := EndTrigram, 0, 0, [], 0, -1;
      loaded, used, pad := 0, 0, 0;
      this.blocks := if !TableV1(ix, ps) then (var bs :| TableV2(ix, bs, ps); bs) else [];
    }

    /** The reader stands before entry n. */
    ghost predicate Stood(n: nat)
      reads this`block, this`nextBlock, this`offset, this`loaded, this`used, this`pad
    {
      TableV2(ix, blocks, ps) ==>
        && nextBlock == PostBlockSize * loaded && loaded <= |blocks|
        && (loaded == 0 ==> block == [] && n == 0)
        && (loaded > 0 ==> Stands(block, blocks[loaded - 1], used, offset, pad) && n == |Flat(blocks[..loaded - 1])| + used)
    }

    /** Entry n of the table. */
    method LoadEntry(n: nat)
      requires Table() && Stood(n) && n < |ps|
      modifies this`trigram, this`count, this`offset, this`block, this`nextBlock, this`loaded, this`used
      modifies this`pad
      ensures Stood(n + 1) && trigram == ps[n].trigram && count == |ps[n].ids| && (count > 0 ==> HasList(ix, offset, ps[n].ids))
    {
      if ix.version == 1 {
        assert ListedV1(ix, ps[n], n);
        trigram, count, offset := PostIndexEntry(ix, n);
      } else {
        NextBlock(n);
        LoadFromBlock(n);
      }
    }

    /** Goes on to the next block if the current one has no further entry. */
    method NextBlock(n: nat)
      requires Table() && TableV2(ix, blocks, ps) && Stood(n) && n < |ps|
      modifies this`block, this`nextBlock, this`offset, this`loaded, this`used, this`pad
      ensures Stood(n) && loaded > 0 && used < |blocks[loaded - 1]|
    {
      hide TableV2, Flat, Stands;
      BlockUsed(n);
      var b := block;
      if |b| < 3 || TrigramNumber(b[..3]) == 0 {
        MoreBlocks(n);
        BlockAtHand(loaded);
        var at := ix.postIndex + nextBlock;
        block := ix.data[at..at + PostBlockSize];
        nextBlock := nextBlock + PostBlockSize;
        offset := 0;
        loaded := loaded + 1;
        used := 0;
        pad := PostBlockSize - |EncodeEntries(blocks[loaded - 1], 0)|;
        assert blocks[..loaded - 1] == blocks[..old(loaded)];
      }
    }

    lemma BlockAtHand(i: nat)
      requires TableV2(ix, blocks, ps) && i < |blocks|
      ensures var at := ix.postIndex + PostBlockSize * i;
              && at + PostBlockSize <= |ix.data| && BlockOk(blocks[i])
              && Stands(ix.data[at..at + PostBlockSize], blocks[i], 0, 0, PostBlockSize - |EncodeEntries(blocks[i], 0)|)
      ensures 0 < |blocks[i]|
    {
      assert BlockAt(ix, i, blocks[i]);
      assert blocks[i][0..] == blocks[i];
    }

    lemma BlockUsed(n: nat)
      requires TableV2(ix, blocks, ps) && Stood(n)
      ensures loaded == 0 ==> |block| < 3
      ensures loaded > 0 ==> used <= |blocks[loaded - 1]|
      ensures loaded > 0 ==> (used < |blocks[loaded - 1]| <==> |block| >= 3 && TrigramNumber(block[..3]) != 0)
    {
      if loaded > 0 {
        FirstNumber(block, blocks[loaded - 1], used, offset, pad);
      }
    }

    lemma MoreBlocks(n: nat)
      requires TableV2(ix, blocks, ps) && Stood(n) && n < |ps| && (loaded > 0 ==> used == |blocks[loaded - 1]|)
      ensures loaded < |blocks| && n == |Flat(blocks[..loaded])|
    {
      if loaded > 0 {
        assert blocks[..loaded][..loaded - 1] == blocks[..loaded - 1];
        assert Flat(blocks[..loaded]) == Flat(blocks[..loaded - 1]) + blocks[loaded - 1];
      }
      assert blocks[..|blocks|] == blocks;
    }

    method LoadFromBlock(n: nat)
      requires Table() && TableV2(ix, blocks, ps) && Stood(n) && n < |ps| && loaded > 0 && used < |blocks[loaded - 1]|
      modifies this`trigram, this`count, this`offset, this`block, this`used
      ensures Stood(n + 1) && trigram == ps[n].trigram && count == |ps[n].ids| && (count > 0 ==> HasList(ix, offset, ps[n].ids))
    {
      hide TableV2, Stands, BlockOk, Flat, Uvarint, HasList;
      EntryHere(n);
      trigram := TrigramNumber(block[..3]);
      var b := block[3..];
      var (n1, l) := Uvarint(b);
      var (n2, l2) := Uvarint(block[3 + l..]);
      count := n1;
      offset := offset + n2;
      block := block[3 + l + l2..];
      used := used + 1;
    }

    lemma EntryHere(n: nat)
      requires TableV2(ix, blocks, ps) && Stood(n) && n < |ps| && loaded > 0 && used < |blocks[loaded - 1]|
      ensures var e := blocks[loaded - 1][used];
              && |block| >= 3 && TrigramNumber(block[..3]) == e.trigram == ps[n].trigram && e.count == |ps[n].ids|
              && (e.count > 0 ==> HasList(ix, e.offset, ps[n].ids))
              && var (n1, l) := Uvarint(block[3..]);
                 && n1 == e.count && 0 < l <= |block| - 3
                 && var (n2, l2) := Uvarint(block[3 + l..]);
                    && offset + n2 == e.offset && 0 < l2 && 3 + l + l2 <= |block|
                    && Stands(block[3 + l + l2..], blocks[loaded - 1], used + 1, e.offset, pad)
    {
      var es := blocks[loaded - 1];
      EntryListed(n);
      hide TableV2, HasList, Flat, EntryOf;
      FirstNumber(block, es, used, offset, pad);
      AtEntry(block, es, used, offset, pad);
    }

    lemma EntryListed(n: nat)
      requires TableV2(ix, blocks, ps) && Stood(n) && n < |ps| && loaded > 0 && used < |blocks[loaded - 1]|
      ensures var e := blocks[loaded - 1][used];
              && e.trigram == ps[n].trigram && e.count == |ps[n].ids| && (e.count > 0 ==> HasList(ix, e.offset, ps[n].ids))
      ensures BlockOk(blocks[loaded - 1]) && Stands(block, blocks[loaded - 1], used, offset, pad) && loaded <= |blocks|
    {
      FlatAt(blocks, loaded - 1, used);
      assert EntryOf(ix, Flat(blocks)[n], ps[n]);
    }
  }

  // --------------------------------------------------------------------- renumbering ids

  /** The ranges before i lie below all ids to come. */
  ghost predicate Passed(idmap: seq<Range>, i: nat, ids: seq<nat>) {
    i <= |idmap| && forall k, j :: 0 <= k < i && 0 <= j < |ids| ==> idmap[k].hi <= ids[j]
  }

  lemma NotIn(idmap: seq<Range>, ids: seq<nat>)
    requires ids != [] && Passed(idmap, |idmap|, ids)
    ensures Images(idmap, ids) == []
  {
    forall x | x in ids
      ensures !Mapped(idmap, x)
    {
      forall k, n: nat | 0 <= k < |idmap|
        ensures !Sends(idmap[k], x, n)
      {
        var j :| 0 <= j < |ids| && ids[j] == x;
        assert idmap[k].hi <= ids[j];
      }
    }
    NoImages(idmap, ids);
  }

  /** What the range at i says about the next id. */
  lemma NextImage(idmap: seq<Range>, ids: seq<nat>, i: nat)
    requires Increasing(idmap) && ids != [] && i < |idmap| && Passed(idmap, i, ids) && ids[0] < idmap[i].hi
    ensures ids[0] < idmap[i].lo ==> Images(idmap, ids) == Images(idmap, ids[1..])
    ensures ids[0] >= idmap[i].lo ==> Images(idmap, ids) == [idmap[i].new_ + (ids[0] - idmap[i].lo)] + Images(idmap, ids[1..])
  {
    hide Increasing, Passed, Mapped;
    if ids[0] < idmap[i].lo {
      Dropped(idmap, ids, i);
    } else {
      Sent(idmap, ids[0], i);
    }
  }

  lemma Dropped(idmap: seq<Range>, ids: seq<nat>, i: nat)
    requires Increasing(idmap) && ids != [] && i < |idmap| && Passed(idmap, i, ids) && ids[0] < idmap[i].lo
    ensures !Mapped(idmap, ids[0])
  {
    forall k, n: nat | 0 <= k < |idmap|
      ensures !Sends(idmap[k], ids[0], n)
    {
      if k < i {
        assert idmap[k].hi <= ids[0];
      } else if k > i {
        assert idmap[i].hi <= idmap[k].lo;
      }
    }
  }

  lemma Sent(idmap: seq<Range>, x: nat, i: nat)
    requires Increasing(idmap) && i < |idmap| && idmap[i].lo <= x < idmap[i].hi
    ensures Mapped(idmap, x) && ImageOf(idmap, x) == idmap[i].new_ + (x - idmap[i].lo)
  {
    var n := idmap[i].new_ + (x - idmap[i].lo);
    assert Sends(idmap[i], x, n);
    assert MapsTo(idmap, x, n);
    MapsInOrder(idmap, x, x, n, ImageOf(idmap, x));
  }

  ghost predicate AllSmall(ps: seq<Posting>) {
    forall k :: 0 <= k < |ps| ==> Small(ps[k].ids)
  }

  /** Delivers the new ids of one list after the other. */
  class PostMapReader {
    const table: TableReader
    const idmap: seq<Range>
    var trigram: nat
    var count: nat
    var triNum: nat
    var oldid: int
    var fileid: int
    var i: nat
    var delta: DeltaReader
    /** The ids of the current list that are still to come. */
    ghost var ids: seq<nat>
    ghost var after: Str

    ghost predicate Valid()
      reads this, table, delta
    {
      AtTable() && InList() && (Remaining() == [] ==> ids == [])
    }

    ghost predicate AtTable()
      reads this`triNum, this`trigram, table
    {
      && table.Table() && Increasing(idmap)
      && table.Stood(if triNum < |table.ps| then triNum + 1 else |table.ps|)
      && trigram == Head(Remaining())
    }

    ghost predicate InList()
      reads this`count, this`ids, this`oldid, this`i, this`delta, this`after, delta
    {
      && count == |ids| && (count > 0 ==> Ahead(ids, oldid) && delta.Feeds(Coded(ids, oldid), after) && Passed(idmap, i, ids))
    }

    /** The current list and those behind it, as they are in the table. */
    ghost function Remaining(): seq<Posting>
      reads this`triNum
    {
      if triNum < |table.ps| then table.ps[triNum..] else []
    }

    /** The new ids of the current list that are still to come. */
    ghost function Rest(): seq<nat>
      reads this`ids
    {
      Images(idmap, ids)
    }

    constructor (ix: Index, idmap: seq<Range>, ghost ps: seq<Posting>)
      requires Tabled(ix, ps) && Increasing(idmap) && AllSmall(ps)
      ensures Valid() && fresh(table) && fresh(delta) && Remaining() == ps && table.ps == ps && this.idmap == idmap
      ensures Rest() == Images(idmap, HeadIds(ps, Head(ps)))
    {
      table := new TableReader(ix, ps);
      delta := new DeltaReader(ix.version, []);
      this.idmap := idmap;
      trigram, count, triNum, oldid, fileid, i := EndTrigram, 0, 0, 0, 0, 0;
      ids, after := [], [];
      new;
      Load();
      assert triNum == 0;
      assert ps[0..] == ps;
    }

    /** load: reads entry triNum of the table and stands before its list. */
    method Load()
      requires table.Table() && Increasing(idmap) && table.Stood(if triNum < |table.ps| then triNum else |table.ps|)
      requires AllSmall(table.ps)
      modifies this, table
      ensures Valid() && triNum == old(triNum) && (delta == old(delta) || fresh(delta))
      ensures Rest() == Images(idmap, HeadIds(Remaining(), Head(Remaining())))
    {
      hide TableReader.Table, TableReader.Stood, Increasing, InList, Images, Small;
      var n := NumPost();
      if triNum >= n {
        trigram := EndTrigram;
        NoList();
        return;
      }
      table.LoadEntry(triNum);
      trigram := table.trigram;
      OpenCurrent();
    }

    method NoList()
      modifies this`count, this`fileid, this`ids
      ensures ids == [] && InList()
    {
      count := 0;
      fileid := -1;
      ids := [];
    }

    /** Stands before the ids of the list whose entry has been read. */
    method OpenCurrent()
      requires triNum < |table.ps| && table.count == |table.ps[triNum].ids| && Small(table.ps[triNum].ids)
      requires table.count > 0 ==> HasList(table.ix, table.offset, table.ps[triNum].ids)
      modifies this`count, this`fileid, this`ids, this`delta, this`after, this`oldid, this`i
      ensures ids == table.ps[triNum].ids && InList() && (delta == old(delta) || fresh(delta))
    {
      count := table.count;
      ids := table.ps[triNum].ids;
      if count == 0 {
        fileid := -1;
        return;
      }
      hide HasList, DeltaReader.Feeds, Ahead, Coded;
      after := ListRest(table.ix, table.offset, ids);
      delta := OpenList(table.ix, table.offset, ids);
      oldid := -1;
      i := 0;
    }

    method NumPost() returns (n: nat)
      requires table.Table()
      ensures n == |table.ps|
    {
      n := table.ix.numPost;
    }

    /** nextTrigram. */
    method NextTrigram()
      requires Valid() && AllSmall(table.ps)
      modifies this, table
      ensures Valid() && (delta == old(delta) || fresh(delta))
      ensures Remaining() == (if old(Remaining()) == [] then [] else old(Remaining())[1..])
      ensures Rest() == Images(idmap, HeadIds(Remaining(), Head(Remaining())))
    {
      if trigram == EndTrigram {
        return;
      }
      triNum := triNum + 1;
      Load();
    }

    /** One id of the list, as it is in the table. */
    method Take(ghost all: seq<nat>)
      requires InList() && count > 0 && all == ids
      modifies this`count, this`oldid, this`ids, delta
      ensures oldid == all[0] && ids == all[1..] && count == |ids| && Passed(idmap, i, all)
      ensures count > 0 ==> Ahead(ids, oldid) && delta.Feeds(Coded(ids, oldid), after)
    {
      hide DeltaReader.Feeds, Passed, Ahead, Coded;
      CodedHead(ids, oldid);
      count := count - 1;
      var d := delta.Next(Coded(ids, oldid), after);
      oldid := oldid + d;
      ids := ids[1..];
    }

    /** Passes over the ranges below the id. */
    method SkipRanges(ghost all: seq<nat>)
      requires all != [] && oldid == all[0] && Passed(idmap, i, all) && Ascending(all)
      modifies this`i
      ensures Passed(idmap, i, all) && (i < |idmap| ==> oldid < idmap[i].hi)
    {
      while i < |idmap| && idmap[i].hi <= oldid
        invariant Passed(idmap, i, all)
        decreases |idmap| - i
      {
        i := i + 1;
      }
    }

    lemma ListAscends(all: seq<nat>)
      requires InList() && all == ids
      ensures Ascending(all)
    {
    }

    /** nextId: the new id of the next file that is not dropped. */
    method NextId() returns (ok: bool)
      requires InList() && Increasing(idmap)
      modifies this`count, this`oldid, this`ids, this`i, this`fileid, delta
      ensures InList() && (ok <==> old(Rest()) != [])
      ensures ok ==> fileid >= 0 && fileid == old(Rest())[0] && Rest() == old(Rest())[1..]
      ensures !ok ==> fileid == -1 && Rest() == []
    {
      hide Passed, Ahead, Coded, DeltaReader.Feeds, Increasing, Ascending;
      while count > 0
        invariant InList() && Rest() == old(Rest())
        decreases |ids|
      {
        ghost var all := ids;
        ListAscends(all);
        Take(all);
        SkipRanges(all);
        if i >= |idmap| {
          NotIn(idmap, all);
          count := 0;
          ids := [];
          break;
        }
        NextImage(idmap, all, i);
        StillPassed(idmap, i, all);
        if oldid < idmap[i].lo {
          continue;
        }
        fileid := idmap[i].new_ + oldid - idmap[i].lo;
        return true;
      }
      fileid := -1;
      return false;
    }
  }

  lemma StillPassed(idmap: seq<Range>, i: nat, all: seq<nat>)
    requires all != [] && Passed(idmap, i, all)
    ensures Passed(idmap, i, all[1..])
  {
  }

  ghost predicate Feeding(r: DeltaReader, ids: seq<nat>, after: Str)
    reads r
  {
    Ahead(ids, -1) && r.Feeds(Coded(ids, -1), after)
  }

  ghost function ListRest(ix: Index, offset: nat, ids: seq<nat>): Str
    requires HasList(ix, offset, ids)
  {
    var after :| ix.data[ix.postData + offset + 3..] == Encode(ix.version, Deltas(ids, -1) + [0]) + after;
    after
  }

  method OpenList(ix: Index, offset: nat, ghost ids: seq<nat>) returns (r: DeltaReader)
    requires HasList(ix, offset, ids) && Small(ids)
    ensures fresh(r) && Feeding(r, ids, ListRest(ix, offset, ids))
  {
    r := new DeltaReader(ix.version, ix.data[ix.postData + offset + 3..]);
    EncodedFeeds(r, Deltas(ids, -1) + [0], ListRest(ix, offset, ids));
  }

  // --------------------------------------------------------------------- the merge loop

  /** A reader of posting lists whose ids can be written. */
  ghost predicate Ready(r: PostMapReader)
    reads r, r.table, r.delta
  {
    r.Valid() && Sound(r)
  }

  ghost predicate Sound(r: PostMapReader) {
    && Sorted(r.table.ps) && Positive(r.table.ps) && AllSmall(r.table.ps)
    && exists hi: nat, max: nat :: max <= MaxDelta && Below(r.idmap, hi, max)
  }

  lemma RemainingSorted(r: PostMapReader)
    requires Ready(r)
    ensures Sorted(r.Remaining()) && Positive(r.Remaining()) && Head(r.Remaining()) == r.trigram > 0
    ensures r.trigram <= InvalidTrigram || (r.trigram == EndTrigram && r.Remaining() == [])
  {
  }

  /** What a reader delivers of a list can be written. */
  lemma Writable(r: PostMapReader, ids: seq<nat>)
    requires Ready(r) && Ascending(ids)
    ensures Ascending(Images(r.idmap, ids)) && Small(Images(r.idmap, ids))
  {
    ImagesAscend(r.idmap, ids);
    var hi: nat, max: nat :| max <= MaxDelta && Below(r.idmap, hi, max);
    ImagesBelow(r.idmap, ids, hi, max);
  }

  /** Writes the id that follows in an ascending list. */
  method WriteId(w: PostDataWriter, id: nat, ghost rest: seq<nat>, ghost total: seq<nat>)
    requires w.Open() && w.ids + ([id] + rest) == total && Ascending(total) && Small(total)
    modifies w`lastID, w`count, w`ids, w.delta, w.out
    ensures w.Open() && w.ids + rest == total
  {
    hide PostDataWriter.Open, Ascending, Small;
    LastBelow(w.ids, id, rest, total);
    OpenLast(w);
    w.FileId(id);
    assert old(w.ids) + [id] + rest == old(w.ids) + ([id] + rest);
  }

  lemma LastBelow(front: seq<nat>, id: nat, rest: seq<nat>, total: seq<nat>)
    requires front + ([id] + rest) == total && Ascending(total) && Small(total)
    ensures LastOf(front) < id < MaxDelta
  {
    assert total[|front|] == id;
    if front != [] {
      assert total[|front| - 1] == LastOf(front);
    }
  }

  lemma OpenLast(w: PostDataWriter)
    requires w.Open()
    ensures w.lastID == LastOf(w.ids)
  {
  }

  /** The ids of the list of one reader. */
  method WriteIds(r: PostMapReader, w: PostDataWriter, ghost total: seq<nat>)
    requires r.InList() && Increasing(r.idmap) && w.Open() && w.ids == [] && r.Rest() == total && Ascending(total) && Small(total)
    modifies r`count, r`oldid, r`ids, r`i, r`fileid, r.delta, w`lastID, w`count, w`ids, w.delta, w.out
    ensures w.Open() && w.ids == total && r.InList() && r.Rest() == []
  {
    hide PostDataWriter.Open, PostMapReader.InList, PostMapReader.Rest, Ascending, Small, Increasing;
    var ok := r.NextId();
    while ok
      invariant r.InList() && w.Open()
      invariant ok ==> r.fileid >= 0 && w.ids + ([r.fileid] + r.Rest()) == total
      invariant !ok ==> w.ids == total && r.Rest() == []
      decreases |r.Rest()|, ok
    {
      ghost var rest := r.Rest();
      WriteId(w, r.fileid, rest, total);
      ok := r.NextId();
      assert ok ==> [r.fileid] + r.Rest() == rest;
    }
  }

  /** The id at hand and those behind it. */
  ghost function Current(r: PostMapReader): seq<nat>
    requires r.fileid >= -1
    reads r
  {
    if r.fileid == -1 then [] else [r.fileid as nat] + r.Rest()
  }

  method Step(r: PostMapReader)
    requires r.InList() && Increasing(r.idmap)
    modifies r`count, r`oldid, r`ids, r`i, r`fileid, r.delta
    ensures r.InList() && r.fileid >= -1 && Current(r) == old(r.Rest()) && (r.fileid == -1 ==> r.Rest() == [])
  {
    hide PostMapReader.InList, PostMapReader.Rest;
    var _ := r.NextId();
  }

  /** The ids of both readers, in ascending order. The readers never show the same id, so the source's
      complaint about an inconsistent index is unreachable. */
  method WriteBoth(r1: PostMapReader, r2: PostMapReader, w: PostDataWriter, ghost a: seq<nat>, ghost b: seq<nat>)
    requires r1 != r2 && r1.delta != r2.delta && r1.InList() && r2.InList() && Increasing(r1.idmap) && Increasing(r2.idmap)
    requires w.Open() && w.ids == [] && a == r1.Rest() && b == r2.Rest()
    requires Disjoint(a, b) && Ascending(Merge2(a, b)) && Small(Merge2(a, b))
    modifies r1`count, r1`oldid, r1`ids, r1`i, r1`fileid, r1.delta, r2`count, r2`oldid, r2`ids, r2`i, r2`fileid, r2.delta
    modifies w`lastID, w`count, w`ids, w.delta, w.out
    ensures w.Open() && w.ids == Merge2(a, b) && r1.InList() && r2.InList() && r1.Rest() == [] && r2.Rest() == []
  {
    hide PostDataWriter.Open, PostMapReader.InList, PostMapReader.Rest, Ascending, Small, Increasing, Disjoint, Merge2;
    ghost var total := Merge2(a, b);
    Step(r1);
    Step(r2);
    ghost var c1, c2 := a, b;
    while r1.fileid != -1 || r2.fileid != -1
      invariant r1.InList() && r2.InList() && w.Open() && r1.fileid >= -1 && r2.fileid >= -1
      invariant c1 == Current(r1) && c2 == Current(r2) && Disjoint(c1, c2)
      invariant (r1.fileid == -1 ==> r1.Rest() == []) && (r2.fileid == -1 ==> r2.Rest() == [])
      invariant w.ids + Merge2(c1, c2) == total
      decreases |c1| + |c2|
    {
      FirstsDiffer(c1, c2);
      MergeHead(c1, c2);
      if r1.fileid != -1 && (r2.fileid == -1 || r1.fileid < r2.fileid) {
        WriteId(w, r1.fileid, Merge2(c1[1..], c2), total);
        Step(r1);
        c1 := c1[1..];
      } else if r2.fileid != -1 && (r1.fileid == -1 || r2.fileid < r1.fileid) {
        WriteId(w, r2.fileid, Merge2(c1, c2[1..]), total);
        Step(r2);
        c2 := c2[1..];
      } else {
        assert false;
      }
    }
    MergeHead(c1, c2);
  }

  lemma FirstsDiffer(a: seq<nat>, b: seq<nat>)
    requires Disjoint(a, b)
    ensures a != [] && b != [] ==> a[0] != b[0]
    ensures a != [] ==> Disjoint(a[1..], b)
    ensures b != [] ==> Disjoint(a, b[1..])
  {
  }

  lemma MergeHead(a: seq<nat>, b: seq<nat>)
    ensures a == [] && b == [] ==> Merge2(a, b) == []
    ensures a != [] && (b == [] || a[0] < b[0]) ==> Merge2(a, b) == [a[0]] + Merge2(a[1..], b)
    ensures b != [] && (a == [] || b[0] < a[0]) ==> Merge2(a, b) == [b[0]] + Merge2(a, b[1..])
  {
    if a != [] && b == [] {
      assert Merge2(a[1..], b) == a[1..];
    }
    if b != [] && a == [] {
      assert Merge2(a, b[1..]) == b[1..];
    }
  }

  // ------------------------------------------------------------------- list after list

  /** Some list does not fit into the index. */
  ghost predicate Overflows(version: nat, lists: seq<Posting>) {
    exists done, p, rest :: lists == done + [p] + rest && NoRoom(version, done, p)
  }

  ghost predicate NoRoom(version: nat, done: seq<Posting>, p: Posting) {
    AllStorable(done) && !Enterable(version, |p.ids|, |ListsBytes(version, done)|)
  }

  /** How the loop ends: with all lists merged, without progress, or because the index gets too large. */
  datatype Outcome = Complete | NoProgress | TooLarge

  ghost predicate Apart2(r1: PostMapReader, r2: PostMapReader)
    reads r1`delta, r2`delta
  {
    r1 != r2 && r1.table != r2.table && r1.delta != r2.delta
  }

  /** Both readers are at the start of a list, and the maps keep their files apart. */
  ghost predicate AtLists(r1: PostMapReader, r2: PostMapReader)
    reads r1, r1.table, r1.delta, r2, r2.table, r2.delta
  {
    Apart2(r1, r2) && AtList(r1) && AtList(r2) && Apart(r1.idmap, r2.idmap)
  }

  ghost predicate AtList(r: PostMapReader)
    reads r, r.table, r.delta
  {
    Ready(r) && r.Rest() == Images(r.idmap, HeadIds(r.Remaining(), Head(r.Remaining())))
  }

  ghost function ListOf(r: PostMapReader, t: nat): seq<nat>
    reads r`triNum
  {
    Images(r.idmap, HeadIds(r.Remaining(), t))
  }

  ghost predicate WriterReady(w: PostDataWriter)
    reads w, w.delta, w.out, w.postIndexFile, w.block
  {
    w.Idle() && w.IndexRight()
  }

  /** The next list of one reader. */
  method MergeOne(r: PostMapReader, w: PostDataWriter, ghost total: seq<nat>) returns (ok: bool)
    requires AtList(r) && WriterReady(w) && r.trigram <= InvalidTrigram && total == ListOf(r, r.trigram)
    modifies r, r.table, r.delta, w, w.delta, w.out, w.block, if w.postIndexFile == null then {} else {w.postIndexFile}
    ensures AtList(r) && (r.delta == old(r.delta) || fresh(r.delta)) && r.Remaining() == old(Tail(r.Remaining()))
    ensures ok ==> WriterReady(w) && w.done == old(w.done) + [Posting(old(r.trigram), total)]
    ensures !ok ==> NoRoom(w.version, old(w.done), Posting(old(r.trigram), total))
  {
    hide Sound, PostDataWriter.Idle, PostDataWriter.Open, PostDataWriter.IndexRight, PostMapReader.Valid;
    WriteOne(r, w, total);
    ok := CloseOne(r, w);
  }

  function Tail(ps: seq<Posting>): seq<Posting> {
    if ps == [] then [] else ps[1..]
  }

  method CloseOne(r: PostMapReader, w: PostDataWriter) returns (ok: bool)
    requires r.Valid() && Sound(r) && w.Open() && w.IndexRight()
    modifies r, r.table, w, w.delta, w.out, w.block, if w.postIndexFile == null then {} else {w.postIndexFile}
    ensures AtList(r) && (r.delta == old(r.delta) || fresh(r.delta)) && r.Remaining() == old(Tail(r.Remaining()))
    ensures ok ==> WriterReady(w) && w.done == old(w.done) + [old(Posting(w.t, w.ids))]
    ensures !ok ==> NoRoom(w.version, old(w.done), old(Posting(w.t, w.ids)))
  {
    hide NoRoom, WriterReady;
    hide Sound, AllSmall, Images, PostDataWriter.Open, PostDataWriter.IndexRight, PostMapReader.Valid;
    SmallLists(r);
    ok := EndMerged(w, w.done, Posting(w.t, w.ids));
    r.NextTrigram();
  }

  method EndMerged(w: PostDataWriter, ghost done: seq<Posting>, ghost p: Posting) returns (ok: bool)
    requires w.Open() && w.IndexRight() && done == w.done && p == Posting(w.t, w.ids)
    modifies w`lastOffset, w`blockLen, w`blocks, w`cur, w`done
    modifies w.out, w.delta, w.block, if w.postIndexFile == null then {} else {w.postIndexFile}
    ensures if ok then WriterReady(w) && w.done == done + [p] else NoRoom(w.version, done, p)
  {
    DoneStorable(w);
    hide ListsBytes, AllStorable, PostDataWriter.Idle, PostDataWriter.Open, PostDataWriter.IndexRight;
    ok := w.EndTrigram();
  }

  lemma DoneStorable(w: PostDataWriter)
    requires w.Open()
    ensures AllStorable(w.done)
  {
  }

  method WriteOne(r: PostMapReader, w: PostDataWriter, ghost total: seq<nat>)
    requires AtList(r) && WriterReady(w) && r.trigram <= InvalidTrigram && total == ListOf(r, r.trigram)
    modifies r`count, r`oldid, r`ids, r`i, r`fileid, r.delta
    modifies w`offset, w`count, w`t, w`lastID, w`numTrigram, w`ids, w.delta, w.out
    ensures r.Valid() && w.Open() && w.IndexRight() && w.t == r.trigram && w.ids == total
  {
    hide Sound, Ascending, Small, PostDataWriter.Idle, PostDataWriter.Open, PostDataWriter.IndexRight, Increasing;
    hide Images, PostMapReader.AtTable, PostMapReader.InList;
    RemainingSorted(r);
    HeadAscends(r);
    Writable(r, HeadIds(r.Remaining(), r.trigram));
    SeparateFiles(w);
    w.Trigram(r.trigram);
    WriteIds(r, w, total);
  }

  lemma SeparateFiles(w: PostDataWriter)
    requires w.Idle()
    ensures w.out != w.postIndexFile
  {
  }

  lemma HeadAscends(r: PostMapReader)
    requires Ready(r)
    ensures Ascending(HeadIds(r.Remaining(), r.trigram)) && Increasing(r.idmap) && r.InList()
  {
  }

  lemma SmallLists(r: PostMapReader)
    requires Sound(r)
    ensures AllSmall(r.table.ps)
  {
  }

  /** The next list of both readers, which have the same trigram. */
  method MergeTwo(r1: PostMapReader, r2: PostMapReader, w: PostDataWriter, ghost a: seq<nat>, ghost b: seq<nat>) returns (ok: bool)
    requires AtLists(r1, r2) && WriterReady(w) && r1.trigram == r2.trigram <= InvalidTrigram
    requires a == ListOf(r1, r1.trigram) && b == ListOf(r2, r1.trigram)
    modifies r1, r1.table, r1.delta, r2, r2.table, r2.delta
    modifies w, w.delta, w.out, w.block, if w.postIndexFile == null then {} else {w.postIndexFile}
    ensures AtLists(r1, r2) && (r1.delta == old(r1.delta) || fresh(r1.delta)) && (r2.delta == old(r2.delta) || fresh(r2.delta))
    ensures r1.Remaining() == old(Tail(r1.Remaining())) && r2.Remaining() == old(Tail(r2.Remaining()))
    ensures ok ==> WriterReady(w) && w.done == old(w.done) + [Posting(old(r1.trigram), Merge2(a, b))]
    ensures !ok ==> NoRoom(w.version, old(w.done), Posting(old(r1.trigram), Merge2(a, b)))
  {
    hide AtList, Sound, WriterReady, PostDataWriter.Open, PostDataWriter.IndexRight, PostMapReader.Valid, Apart, Merge2;
    SoundReaders(r1, r2);
    WriteTwo(r1, r2, w, a, b);
    ok := CloseTwo(r1, r2, w);
  }

  lemma SoundReaders(r1: PostMapReader, r2: PostMapReader)
    requires AtLists(r1, r2)
    ensures Sound(r1) && Sound(r2)
  {
  }

  method CloseTwo(r1: PostMapReader, r2: PostMapReader, w: PostDataWriter) returns (ok: bool)
    requires Apart2(r1, r2) && r1.Valid() && r2.Valid() && Sound(r1) && Sound(r2) && w.Open() && w.IndexRight()
    modifies r1, r1.table, r2, r2.table, w, w.delta, w.out, w.block, if w.postIndexFile == null then {} else {w.postIndexFile}
    ensures Apart2(r1, r2) && AtList(r1) && AtList(r2)
    ensures (r1.delta == old(r1.delta) || fresh(r1.delta)) && (r2.delta == old(r2.delta) || fresh(r2.delta))
    ensures r1.Remaining() == old(Tail(r1.Remaining())) && r2.Remaining() == old(Tail(r2.Remaining()))
    ensures ok ==> WriterReady(w) && w.done == old(w.done) + [old(Posting(w.t, w.ids))]
    ensures !ok ==> NoRoom(w.version, old(w.done), old(Posting(w.t, w.ids)))
  {
    hide NoRoom, WriterReady;
    hide AtList, Sound, PostDataWriter.Open, PostDataWriter.IndexRight, PostMapReader.Valid;
    ok := EndMerged(w, w.done, Posting(w.t, w.ids));
    NextBoth(r1, r2);
  }

  method WriteTwo(r1: PostMapReader, r2: PostMapReader, w: PostDataWriter, ghost a: seq<nat>, ghost b: seq<nat>)
    requires AtLists(r1, r2) && WriterReady(w) && r1.trigram == r2.trigram <= InvalidTrigram
    requires a == ListOf(r1, r1.trigram) && b == ListOf(r2, r1.trigram)
    modifies r1`count, r1`oldid, r1`ids, r1`i, r1`fileid, r1.delta, r2`count, r2`oldid, r2`ids, r2`i, r2`fileid, r2.delta
    modifies w`offset, w`count, w`t, w`lastID, w`numTrigram, w`ids, w.delta, w.out
    ensures r1.Valid() && r2.Valid()
    ensures w.Open() && w.IndexRight() && w.t == r1.trigram && w.ids == Merge2(a, b)
  {
    hide Sound, AllSmall, Small, Ascending, PostDataWriter.Idle, PostDataWriter.Open, PostDataWriter.IndexRight, Increasing;
    hide Images, PostMapReader.AtTable, PostMapReader.InList, Apart, Disjoint, Merge2;
    RemainingSorted(r1);
    RemainingSorted(r2);
    HeadAscends(r1);
    HeadAscends(r2);
    MergedIds(r1, r2, HeadIds(r1.Remaining(), r1.trigram), HeadIds(r2.Remaining(), r1.trigram));
    SeparateFiles(w);
    w.Trigram(r1.trigram);
    WriteBoth(r1, r2, w, a, b);
  }

  method NextBoth(r1: PostMapReader, r2: PostMapReader)
    requires Apart2(r1, r2) && r1.Valid() && r2.Valid() && Sound(r1) && Sound(r2)
    modifies r1, r1.table, r2, r2.table
    ensures Apart2(r1, r2) && AtList(r1) && AtList(r2)
    ensures (r1.delta == old(r1.delta) || fresh(r1.delta)) && (r2.delta == old(r2.delta) || fresh(r2.delta))
    ensures r1.Remaining() == old(Tail(r1.Remaining())) && r2.Remaining() == old(Tail(r2.Remaining()))
  {
    hide Sound, AllSmall, Images, PostMapReader.Valid;
    SmallLists(r1);
    SmallLists(r2);
    r1.NextTrigram();
    r2.NextTrigram();
  }

  lemma MergedIds(r1: PostMapReader, r2: PostMapReader, a: seq<nat>, b: seq<nat>)
    requires Ready(r1) && Ready(r2) && Apart(r1.idmap, r2.idmap) && Ascending(a) && Ascending(b)
    ensures var x, y := Images(r1.idmap, a), Images(r2.idmap, b);
            Disjoint(x, y) && Ascending(Merge2(x, y)) && Small(Merge2(x, y))
  {
    var x, y := Images(r1.idmap, a), Images(r2.idmap, b);
    Writable(r1, a);
    Writable(r2, b);
    ImagesDisjoint(r1.idmap, r2.idmap, a, b);
    Merge2Ascends(x, y);
    forall k | 0 <= k < |Merge2(x, y)|
      ensures Merge2(x, y)[k] < MaxDelta
    {
      InMerge2(x, y, Merge2(x, y)[k]);
    }
  }

  /** The first list of the merge of what remains. */
  lemma MergedStep(m1: seq<Range>, m2: seq<Range>, ps1: seq<Posting>, ps2: seq<Posting>)
    requires Sorted(ps1) && Sorted(ps2) && (ps1 != [] || ps2 != [])
    ensures var t := Least(Head(ps1), Head(ps2));
            && t <= InvalidTrigram
            && Merged(m1, m2, ps1, ps2) ==
               [Posting(t, Merge2(Images(m1, HeadIds(ps1, t)), Images(m2, HeadIds(ps2, t))))] +
               Merged(m1, m2, Behind(ps1, t), Behind(ps2, t))
            && |Behind(ps1, t)| + |Behind(ps2, t)| < |ps1| + |ps2|
  {
    hide Images, Merge2, Sorted;
    Advances(ps1, ps2);
  }

  /** A reader that is not at the least trigram gives nothing. */
  lemma NotThere(ps: seq<Posting>, t: nat)
    requires t < Head(ps)
    ensures HeadIds(ps, t) == [] && Behind(ps, t) == ps
  {
  }

  lemma MergeWithNone(ids: seq<nat>)
    ensures Merge2(ids, []) == ids && Merge2([], ids) == ids
  {
  }

  /** What remains behind the least trigram t, and the list of t that both readers make together. */
  ghost predicate RoundDone(r1: PostMapReader, r2: PostMapReader, w: PostDataWriter, ps1: seq<Posting>, ps2: seq<Posting>, done: seq<Posting>)
    reads r1`triNum, r2`triNum, w`done
  {
    var t := Least(Head(ps1), Head(ps2));
    && r1.Remaining() == Behind(ps1, t) && r2.Remaining() == Behind(ps2, t)
    && w.done == done + [Posting(t, Merge2(Images(r1.idmap, HeadIds(ps1, t)), Images(r2.idmap, HeadIds(ps2, t))))]
  }

  /** The list that both readers make of the least trigram. */
  ghost function NextList(r1: PostMapReader, r2: PostMapReader, ps1: seq<Posting>, ps2: seq<Posting>): Posting {
    var t := Least(Head(ps1), Head(ps2));
    Posting(t, Merge2(Images(r1.idmap, HeadIds(ps1, t)), Images(r2.idmap, HeadIds(ps2, t))))
  }

  /** One round: the lists of the least trigram. */
  method MergeRound(r1: PostMapReader, r2: PostMapReader, w: PostDataWriter, ghost ps1: seq<Posting>, ghost ps2: seq<Posting>) returns (ok: bool)
    requires AtLists(r1, r2) && WriterReady(w) && !(r1.trigram == EndTrigram && r2.trigram == EndTrigram)
    requires ps1 == r1.Remaining() && ps2 == r2.Remaining()
    modifies r1, r1.table, r1.delta, r2, r2.table, r2.delta
    modifies w, w.delta, w.out, w.block, if w.postIndexFile == null then {} else {w.postIndexFile}
    ensures AtLists(r1, r2) && (r1.delta == old(r1.delta) || fresh(r1.delta)) && (r2.delta == old(r2.delta) || fresh(r2.delta))
    ensures ok ==> WriterReady(w) && RoundDone(r1, r2, w, ps1, ps2, old(w.done))
    ensures !ok ==> NoRoom(w.version, old(w.done), NextList(r1, r2, ps1, ps2))
  {
    hide NoRoom, Sound, WriterReady, PostMapReader.Valid, Apart, Merge2, Images;
    RemainingSorted(r1);
    RemainingSorted(r2);
    ghost var a, b := ListOf(r1, Least(Head(ps1), Head(ps2))), ListOf(r2, Least(Head(ps1), Head(ps2)));
    if r1.trigram < r2.trigram {
      OnlyFirst(r1.idmap, r2.idmap, ps1, ps2);
      ok := MergeOne(r1, w, a);
    } else if r2.trigram < r1.trigram {
      OnlySecond(r1.idmap, r2.idmap, ps1, ps2);
      ok := MergeOne(r2, w, b);
    } else {
      ok := MergeTwo(r1, r2, w, a, b);
    }
  }

  lemma OnlyFirst(m1: seq<Range>, m2: seq<Range>, ps1: seq<Posting>, ps2: seq<Posting>)
    requires Head(ps1) < Head(ps2)
    ensures var t := Least(Head(ps1), Head(ps2));
            && t == Head(ps1) && Behind(ps1, t) == Tail(ps1) && Behind(ps2, t) == ps2
            && Merge2(Images(m1, HeadIds(ps1, t)), Images(m2, HeadIds(ps2, t))) == Images(m1, HeadIds(ps1, t))
  {
    NotThere(ps2, Head(ps1));
    MergeWithNone(Images(m1, HeadIds(ps1, Head(ps1))));
  }

  lemma OnlySecond(m1: seq<Range>, m2: seq<Range>, ps1: seq<Posting>, ps2: seq<Posting>)
    requires Head(ps2) < Head(ps1)
    ensures var t := Least(Head(ps1), Head(ps2));
            && t == Head(ps2) && Behind(ps2, t) == Tail(ps2) && Behind(ps1, t) == ps1
            && Merge2(Images(m1, HeadIds(ps1, t)), Images(m2, HeadIds(ps2, t))) == Images(m2, HeadIds(ps2, t))
  {
    NotThere(ps1, Head(ps2));
    MergeWithNone(Images(m2, HeadIds(ps2, Head(ps2))));
  }

  /** The loop of Merge. It writes the merged lists and a terminator exactly if it always makes progress. */
  method MergeAll(r1: PostMapReader, r2: PostMapReader, w: PostDataWriter, ghost ps1: seq<Posting>, ghost ps2: seq<Posting>)
    returns (outcome: Outcome)
    requires AtLists(r1, r2) && WriterReady(w) && w.done == [] && ps1 == r1.Remaining() && ps2 == r2.Remaining()
    modifies r1, r1.table, r1.delta, r2, r2.table, r2.delta
    modifies w, w.delta, w.out, w.block, if w.postIndexFile == null then {} else {w.postIndexFile}
    ensures outcome == NoProgress ==> !Progresses(ps1, ps2, 0, 0)
    ensures outcome == Complete ==>
              Progresses(ps1, ps2, 0, 0) && WriterReady(w) &&
              w.done == Merged(r1.idmap, r2.idmap, ps1, ps2) + [Posting(InvalidTrigram, [])]
    ensures outcome == TooLarge ==> Overflows(w.version, Merged(r1.idmap, r2.idmap, ps1, ps2) + [Posting(InvalidTrigram, [])])
  {
    hide AtLists, WriterReady, PostMapReader.Valid, Overflows, NoRoom;
    var old1, old2 := 0, 0;
    ghost var total := Merged(r1.idmap, r2.idmap, ps1, ps2);
    while true
      invariant AtLists(r1, r2) && WriterReady(w)
      invariant (r1.delta == old(r1.delta) || fresh(r1.delta)) && (r2.delta == old(r2.delta) || fresh(r2.delta))
      invariant w.done + Merged(r1.idmap, r2.idmap, r1.Remaining(), r2.Remaining()) == total
      invariant Progresses(ps1, ps2, 0, 0) <==> Progresses(r1.Remaining(), r2.Remaining(), old1, old2)
      decreases |r1.Remaining()| + |r2.Remaining()|
    {
      hide Merged, Progresses, RoundDone;
      ghost var qs1, qs2, done := r1.Remaining(), r2.Remaining(), w.done;
      AtHeads(r1, r2, qs1, qs2);
      ProgressStep(qs1, qs2, old1, old2);
      if !(r1.trigram > old1 || r2.trigram > old2) {
        return NoProgress;
      }
      old1, old2 := r1.trigram, r2.trigram;
      if r1.trigram == r2.trigram == EndTrigram {
        NothingMerged(r1.idmap, r2.idmap, w.done);
        var ok := WriteEnd(w);
        if !ok {
          EndOverflows(w.version, done);
        }
        return if ok then Complete else TooLarge;
      }
      MergedStep(r1.idmap, r2.idmap, qs1, qs2);
      var ok := MergeRound(r1, r2, w, qs1, qs2);
      if !ok {
        RoundOverflows(w.version, r1, r2, qs1, qs2, done);
        return TooLarge;
      }
      Regrouped(r1, r2, w, qs1, qs2, done);
    }
  }

  lemma AtHeads(r1: PostMapReader, r2: PostMapReader, qs1: seq<Posting>, qs2: seq<Posting>)
    requires AtLists(r1, r2) && qs1 == r1.Remaining() && qs2 == r2.Remaining()
    ensures Sorted(qs1) && Sorted(qs2) && Head(qs1) == r1.trigram && Head(qs2) == r2.trigram
    ensures (r1.trigram == EndTrigram <==> qs1 == []) && (r2.trigram == EndTrigram <==> qs2 == [])
  {
    RemainingSorted(r1);
    RemainingSorted(r2);
  }

  lemma ProgressStep(qs1: seq<Posting>, qs2: seq<Posting>, old1: nat, old2: nat)
    requires Sorted(qs1) && Sorted(qs2)
    ensures Progresses(qs1, qs2, old1, old2) <==>
            (Head(qs1) > old1 || Head(qs2) > old2) &&
            ((qs1 == [] && qs2 == []) ||
             Progresses(Behind(qs1, Least(Head(qs1), Head(qs2))), Behind(qs2, Least(Head(qs1), Head(qs2))), Head(qs1), Head(qs2)))
  {
    if qs1 != [] || qs2 != [] {
      Advances(qs1, qs2);
    }
  }

  lemma NothingMerged(m1: seq<Range>, m2: seq<Range>, done: seq<Posting>)
    ensures done + Merged(m1, m2, [], []) == done
  {
  }

  lemma Regrouped(r1: PostMapReader, r2: PostMapReader, w: PostDataWriter, qs1: seq<Posting>, qs2: seq<Posting>, done: seq<Posting>)
    requires Sorted(qs1) && Sorted(qs2) && (qs1 != [] || qs2 != []) && RoundDone(r1, r2, w, qs1, qs2, done)
    ensures w.done + Merged(r1.idmap, r2.idmap, r1.Remaining(), r2.Remaining()) == done + Merged(r1.idmap, r2.idmap, qs1, qs2)
  {
    hide Merged, Images, Merge2, Sorted;
    MergedStep(r1.idmap, r2.idmap, qs1, qs2);
    var t := Least(Head(qs1), Head(qs2));
    var p := Posting(t, Merge2(Images(r1.idmap, HeadIds(qs1, t)), Images(r2.idmap, HeadIds(qs2, t))));
    ListsAssociate(done, p, Merged(r1.idmap, r2.idmap, r1.Remaining(), r2.Remaining()));
  }

  lemma ListsAssociate(done: seq<Posting>, p: Posting, rest: seq<Posting>)
    ensures (done + [p]) + rest == done + ([p] + rest)
  {
  }

  /** The terminator that Merge writes: an empty list for the trigram whose low bytes are those of the invalid one. */
  method WriteEnd(w: PostDataWriter) returns (ok: bool)
    requires WriterReady(w)
    modifies w, w.delta, w.out, w.block, if w.postIndexFile == null then {} else {w.postIndexFile}
    ensures ok ==> WriterReady(w) && w.done == old(w.done) + [Posting(InvalidTrigram, [])]
    ensures !ok ==> NoRoom(w.version, old(w.done), Posting(InvalidTrigram, []))
  {
    hide PostDataWriter.Idle, PostDataWriter.IndexRight, PostDataWriter.Open, ListsBytes, AllStorable;
    SeparateFiles(w);
    w.Trigram(InvalidTrigram);
    DoneStorable(w);
    ok := w.EndTrigram();
  }

  // --------------------------------------------------------------- the merged index file

  lemma EndOverflows(version: nat, done: seq<Posting>)
    requires NoRoom(version, done, Posting(InvalidTrigram, []))
    ensures Overflows(version, done + [Posting(InvalidTrigram, [])])
  {
    hide NoRoom;
    var p := Posting(InvalidTrigram, []);
    assert done + [p] == done + [p] + [];
  }

  lemma RoundOverflows(version: nat, r1: PostMapReader, r2: PostMapReader, qs1: seq<Posting>, qs2: seq<Posting>, done: seq<Posting>)
    requires Sorted(qs1) && Sorted(qs2) && (qs1 != [] || qs2 != []) && NoRoom(version, done, NextList(r1, r2, qs1, qs2))
    ensures Overflows(version, done + Merged(r1.idmap, r2.idmap, qs1, qs2) + [Posting(InvalidTrigram, [])])
  {
    MergedStep(r1.idmap, r2.idmap, qs1, qs2);
    hide NoRoom, Merged, Images, Merge2, Sorted;
    var t := Least(Head(qs1), Head(qs2));
    var p, last := NextList(r1, r2, qs1, qs2), Posting(InvalidTrigram, []);
    var rest := Merged(r1.idmap, r2.idmap, Behind(qs1, t), Behind(qs2, t));
    assert done + ([p] + rest) + [last] == done + [p] + (rest + [last]);
  }
}
