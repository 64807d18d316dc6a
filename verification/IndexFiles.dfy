/** The posting lists of a finished index (mergePost and Flush in internal/codesearch/index/write.go). */
module IndexFiles {
  import opened Bytes
  import opened Buffers
  import opened DeltaCoding
  import opened PostingLists
  import opened PostingIndex
  import opened PostingWriter
  import opened PostDataWriters
  import opened ChunkReaders
  import opened Grouping
  import opened RadixSort
  import opened PostHeaps
  import opened FileScan
  import opened IndexWriters

  // --------------------------------------------------------------- filling the heap

  /** The heap holds the entries of s, each as often as s. */
  ghost predicate HeapHolds(h: PostHeap, s: seq<nat>)
    reads h
  {
    h.Valid() && forall x: nat :: Count(h.ch, x) == multiset(s)[x]
  }

  lemma HoldsMore(s: seq<nat>, t: seq<nat>, x: nat)
    ensures multiset(s + t)[x] == multiset(s)[x] + multiset(t)[x]
  {
  }

  method AddTo(h: PostHeap, t: seq<nat>, ghost s: seq<nat>)
    requires HeapHolds(h, s) && Ascending(t)
    modifies h
    ensures HeapHolds(h, s + t)
  {
    hide Count;
    h.Add(t);
    forall x: nat
      ensures multiset(s + t)[x] == multiset(s)[x] + multiset(t)[x]
    {
      HoldsMore(s, t, x);
    }
  }

  /** addFile: the chunks of the temporary file. */
  method AddFile(h: PostHeap, version: nat, data: Str, ends: seq<nat>, ghost chunks: seq<seq<Posting>>)
    requires HeapHolds(h, []) && AllGroups(chunks)
    requires data == ChunksBytes(version, chunks) && EndsOf(version, chunks, ends)
    modifies h
    ensures HeapHolds(h, Spilled(chunks))
  {
    var start := 0;
    for i := 0 to |ends|
      invariant HeapHolds(h, Spilled(chunks[..i])) && start == |ChunksBytes(version, chunks[..i])|
    {
      hide HeapHolds, Groups, Flushed, ListsBytes, ChunksBytes, Spilled, AscendingEntries;
      var end := ends[i];
      AddNth(h, version, data, start, end, chunks, i);
      start := end;
    }
    assert chunks[..|chunks|] == chunks;
  }

  method AddNth(h: PostHeap, version: nat, data: Str, start: nat, end: nat, ghost chunks: seq<seq<Posting>>, ghost i: nat)
    requires i < |chunks| && AllGroups(chunks) && HeapHolds(h, Spilled(chunks[..i])) && data == ChunksBytes(version, chunks)
    requires start == |ChunksBytes(version, chunks[..i])| && end == |ChunksBytes(version, chunks[..i + 1])|
    modifies h
    ensures HeapHolds(h, Spilled(chunks[..i + 1]))
  {
    hide HeapHolds, Groups, Flushed, ListsBytes, ChunksBytes, Spilled, AscendingEntries, EntryList;
    ChunkAt(version, chunks, i);
    SpilledMore(chunks, i);
    AddChunk(h, version, data[start..end], chunks[i], Spilled(chunks[..i]));
  }

  method AddChunk(h: PostHeap, version: nat, data: Str, ghost chunk: seq<Posting>, ghost s: seq<nat>)
    requires HeapHolds(h, s) && Flushed(chunk) && AscendingEntries(chunk) && data == ListsBytes(version, chunk)
    modifies h
    ensures HeapHolds(h, s + EntryList(chunk))
  {
    hide HeapHolds, Flushed, ListsBytes, EntryList;
    var r := new AllPostReader(version, data, chunk);
    var x := r.ReadAll();
    AddTo(h, x, s);
  }

  lemma SpilledMore(chunks: seq<seq<Posting>>, i: nat)
    requires i < |chunks|
    ensures Spilled(chunks[..i + 1]) == Spilled(chunks[..i]) + EntryList(chunks[i])
  {
    assert chunks[..i + 1][..i] == chunks[..i];
  }

  /** All entries, those of the chunks and those in memory, come out of the heap in order. */
  method FillHeap(ix: IndexWriter) returns (h: PostHeap)
    requires ix.Linked() && ix.Stored()
    modifies ix.scratch`sortTmp, ix.scratch.sortTmp, ix.scratch.sortN, ix.post
    ensures fresh(h) && h.Yields(RadixSorted(ix.added)) && Ascending(RadixSorted(ix.added)) && Proper(RadixSorted(ix.added))
    ensures forall e :: e in RadixSorted(ix.added) <==> e in ix.added
  {
    ghost var batch, spilled := ix.post[..ix.n], Spilled(ix.chunks);
    h := EmptyHeap();
    AddFile(h, ix.version, ix.postFile.data, ix.postEnds, ix.chunks);
    BatchOf(ix.version, ix.added, ix.chunks, ix.postFile.data, ix.postEnds, batch);
    AllEntries(ix.version, ix.added, ix.chunks, ix.postFile.data, ix.postEnds, batch);
    hide *;
    SortedBatch(batch);
    SortedBatch(ix.added);
    ix.scratch.SortPost(ix.post, ix.n);
    AddTo(h, ix.post[..ix.n], spilled);
    AllYield(h, spilled, RadixSorted(batch), RadixSorted(ix.added));
    SameMembers(RadixSorted(ix.added), ix.added);
  }

  method EmptyHeap() returns (h: PostHeap)
    ensures fresh(h) && HeapHolds(h, [])
  {
    h := new PostHeap();
  }

  lemma SameMembers(s: seq<nat>, t: seq<nat>)
    requires multiset(s) == multiset(t)
    ensures forall e :: e in s <==> e in t
  {
    forall e
      ensures e in s <==> e in t
    {
      assert e in s <==> e in multiset(s);
      assert e in t <==> e in multiset(t);
    }
  }

  lemma AllEntries(version: nat, added: seq<nat>, chunks: seq<seq<Posting>>, data: Str, ends: seq<nat>, post: seq<nat>)
    requires StoredAs(version, added, chunks, data, ends, post)
    ensures SortedOut(added) && multiset(added) == multiset(Spilled(chunks)) + multiset(post)
  {
  }

  lemma AllYield(h: PostHeap, spilled: seq<nat>, batch: seq<nat>, all: seq<nat>)
    requires HeapHolds(h, spilled + batch) && Ascending(all) && multiset(all) == multiset(spilled) + multiset(batch)
    ensures h.Yields(all)
  {
    hide Count;
    assert multiset(spilled + batch) == multiset(spilled) + multiset(batch);
  }

  // --------------------------------------------------------------- writing the lists

  /** e is the entry at position k of all, and those behind it are still in the heap; behind the last one
      comes the entry of the invalid trigram. */
  ghost predicate AtEntry(h: PostHeap, all: seq<nat>, k: nat, e: nat)
    reads h
  {
    && k <= |all|
    && (k < |all| ==> e == all[k] && h.Yields(all[k + 1..]))
    && (k == |all| ==> e == MakeEntry(InvalidTrigram, 0) && h.Yields([]))
  }

  method NextEntryOf(h: PostHeap, ghost all: seq<nat>, ghost k: nat, ghost e0: nat) returns (e: nat)
    requires k < |all| && AtEntry(h, all, k, e0)
    modifies h
    ensures AtEntry(h, all, k + 1, e)
  {
    e := h.NextOf(all[k + 1..]);
    assert k + 1 < |all| ==> all[k + 1..][1..] == all[k + 2..];
  }

  /** The lists written so far hold the first k entries, and the next one does not belong to the last list. */
  ghost predicate Between(w: PostDataWriter, all: seq<nat>, k: nat)
    reads w, w.delta, w.out, w.postIndexFile, w.block
  {
    && k <= |all| && w.Idle() && w.IndexRight() && Groups(w.done) && EntryList(w.done) == all[..k]
    && (k < |all| ==> w.done == [] || w.done[|w.done| - 1].trigram != TrigramOf(all[k]))
  }

  ghost predicate Within(w: PostDataWriter, all: seq<nat>, k: nat)
    reads w, w.delta, w.out, w.postIndexFile, w.block
  {
    k <= |all| && w.IndexRight() && Writing(w, all[..k])
  }

  method WriteFirst(w: PostDataWriter, e: nat, ghost all: seq<nat>, ghost k: nat)
    requires Between(w, all, k) && k < |all| && e == all[k] && Ascending(all) && Proper(all)
    modifies w`offset, w`count, w`t, w`lastID, w`numTrigram, w`ids, w.delta, w.out
    ensures Within(w, all, k + 1) && w.t == TrigramOf(e)
  {
    NextInOrder(all, k);
    hide Ascending, Proper, PostDataWriter.Idle, Writing, EntryList, Groups;
    WriteNew(w, e, all[..k]);
  }

  method WriteMore(w: PostDataWriter, e: nat, ghost all: seq<nat>, ghost k: nat)
    requires Within(w, all, k) && k < |all| && e == all[k] && TrigramOf(e) == w.t && Ascending(all) && Proper(all)
    modifies w`lastID, w`count, w`ids, w.delta, w.out
    ensures Within(w, all, k + 1)
  {
    NextInOrder(all, k);
    hide Ascending, Proper, Writing, EntryList, Groups;
    WriteSame(w, e, all[..k]);
  }

  /** Some list that belongs to the entries does not fit into the index. */
  ghost predicate TooLarge(version: nat, all: seq<nat>) {
    exists done, p, k :: NoRoom(version, all, done, p, k)
  }

  ghost predicate NoRoom(version: nat, all: seq<nat>, done: seq<Posting>, p: Posting, k: nat) {
    && AllStorable(done) && Storable(p) && k <= |all| && EntryList(done + [p]) == all[..k]
    && !Enterable(version, |p.ids|, |ListsBytes(version, done)|)
  }

  /** The list of one trigram. */
  method WriteList(h: PostHeap, w: PostDataWriter, e0: nat, ghost all: seq<nat>, ghost k0: nat)
    returns (e: nat, ghost k: nat, ok: bool)
    requires k0 < |all| && AtEntry(h, all, k0, e0) && Between(w, all, k0) && Ascending(all) && Proper(all)
    requires h !in {w.delta, w.out, w.block, w.postIndexFile}
    modifies h, w, w.delta, w.out, w.block, if w.postIndexFile == null then {} else {w.postIndexFile}
    ensures k0 < k <= |all| && AtEntry(h, all, k, e)
    ensures if ok then Between(w, all, k) else TooLarge(w.version, all)
  {
    hide Ascending, Proper, AtEntry, Between, Within, TooLarge;
    EntryAt(h, all, k0, e0);
    var t := TrigramOf(e0);
    WriteFirst(w, e0, all, k0);
    k := k0 + 1;
    e := NextEntryOf(h, all, k0, e0);
    while TrigramOf(e) == t
      invariant k0 < k <= |all| && AtEntry(h, all, k, e) && Within(w, all, k) && w.t == t
      decreases |all| - k
    {
      EntryAt(h, all, k, e);
      ProperAt(all, k0);
      WriteMore(w, e, all, k);
      e := NextEntryOf(h, all, k, e);
      k := k + 1;
    }
    EntryAt(h, all, k, e);
    ok := EndList(w, all, k);
  }

  lemma EntryAt(h: PostHeap, all: seq<nat>, k: nat, e: nat)
    requires AtEntry(h, all, k, e)
    ensures k <= |all| && (k < |all| ==> e == all[k]) && (k == |all| ==> TrigramOf(e) == InvalidTrigram)
  {
    PartsOfEntry(InvalidTrigram, 0);
  }

  lemma ProperAt(all: seq<nat>, k: nat)
    requires Proper(all) && k < |all|
    ensures 0 < TrigramOf(all[k]) < InvalidTrigram
  {
  }

  method EndList(w: PostDataWriter, ghost all: seq<nat>, ghost k: nat) returns (ok: bool)
    requires Within(w, all, k) && (k < |all| ==> TrigramOf(all[k]) != w.t)
    modifies w`lastOffset, w`blockLen, w`blocks, w`cur, w`done
    modifies w.out, w.delta, w.block, if w.postIndexFile == null then {} else {w.postIndexFile}
    ensures if ok then Between(w, all, k) else TooLarge(w.version, all)
  {
    hide Groups, EntryList, PostDataWriter.IndexRight, PostDataWriter.Idle;
    ListFits(w);
    hide PostDataWriter.Open, ListsBytes, Storable, AllStorable;
    ghost var done, p := w.done, Posting(w.t, w.ids);
    ok := w.EndTrigram();
    assert !ok ==> NoRoom(w.version, all, done, p, k);
  }

  lemma ListFits(w: PostDataWriter)
    requires w.Open()
    ensures AllStorable(w.done) && Storable(Posting(w.t, w.ids))
  {
  }

  /** The loop of mergePost: the lists of all trigrams, and an empty list for the invalid trigram at the end. */
  method WriteAll(h: PostHeap, w: PostDataWriter, ghost all: seq<nat>) returns (ok: bool, ghost ps: seq<Posting>)
    requires h.Yields(all) && Ascending(all) && Proper(all)
    requires w.Idle() && w.done == [] && w.IndexRight() && h !in {w.delta, w.out, w.block, w.postIndexFile}
    modifies h, w, w.delta, w.out, w.block, if w.postIndexFile == null then {} else {w.postIndexFile}
    ensures ok ==> w.Idle() && w.IndexRight() && w.done == ps + [Posting(InvalidTrigram, [])] && Groups(ps) && EntryList(ps) == all
    ensures !ok ==> TooLarge(w.version, all)
  {
    hide Ascending, Proper, AtEntry, Between, Within, TooLarge;
    var e := h.NextOf(all);
    ghost var k := 0;
    Begin(h, w, all, e);
    ps := [];
    while true
      invariant k <= |all| && AtEntry(h, all, k, e) && Between(w, all, k)
      decreases |all| - k
    {
      EntryAt(h, all, k, e);
      if TrigramOf(e) == InvalidTrigram {
        ghost var _ := NotInvalid(all, k, e);
        ps := w.done;
        ok := EmptyList(w, all);
        return;
      }
      e, k, ok := WriteList(h, w, e, all, k);
      if !ok {
        return;
      }
    }
  }

  lemma NotInvalid(all: seq<nat>, k: nat, e: nat) returns (last: bool)
    requires Proper(all) && k <= |all| && (k < |all| ==> e == all[k]) && TrigramOf(e) == InvalidTrigram
    ensures k == |all|
  {
    last := true;
  }

  lemma Begin(h: PostHeap, w: PostDataWriter, all: seq<nat>, e: nat)
    requires w.Idle() && w.done == [] && w.IndexRight()
    requires all != [] ==> e == all[0] && h.Yields(all[1..])
    requires all == [] ==> e == MakeEntry(InvalidTrigram, 0) && h.Yields([])
    ensures AtEntry(h, all, 0, e) && Between(w, all, 0)
  {
  }

  method EmptyList(w: PostDataWriter, ghost all: seq<nat>) returns (ok: bool)
    requires Between(w, all, |all|)
    modifies w, w.out, w.delta, w.block, if w.postIndexFile == null then {} else {w.postIndexFile}
    ensures ok ==> w.Idle() && w.IndexRight() && w.done == old(w.done) + [Posting(InvalidTrigram, [])]
    ensures !ok ==> TooLarge(w.version, all)
    ensures Groups(old(w.done)) && EntryList(old(w.done)) == all
  {
    hide Groups, EntryList, PostDataWriter.IndexRight, PostDataWriter.Idle, PostDataWriter.Open, ListsBytes, Storable, AllStorable;
    assert all[..|all|] == all;
    ghost var done, p := w.done, Posting(InvalidTrigram, []);
    NoMoreEntries(done);
    FilesApart(w);
    w.Trigram(InvalidTrigram);
    ListFits(w);
    ok := w.EndTrigram();
    assert !ok ==> NoRoom(w.version, all, done, p, |all|);
  }

  lemma FilesApart(w: PostDataWriter)
    requires w.Idle()
    ensures w.out != w.postIndexFile
  {
  }

  lemma NoMoreEntries(done: seq<Posting>)
    ensures EntryList(done + [Posting(InvalidTrigram, [])]) == EntryList(done)
  {
    EntryListMore(done, Posting(InvalidTrigram, []));
    assert Tagged(InvalidTrigram, []) == [];
  }

  // ------------------------------------------------------------------ the finished index

  /** The lists with an empty one behind them for the invalid trigram. */
  ghost function Closed(lists: seq<Posting>): seq<Posting> {
    lists + [Posting(InvalidTrigram, [])]
  }

  ghost predicate Terminated(ps: seq<Posting>) {
    exists lists :: Groups(lists) && ps == Closed(lists)
  }

  lemma {:induction false} LookupClosed(lists: seq<Posting>, t: nat)
    ensures Lookup(Closed(lists), t) == Lookup(lists, t)
  {
    if lists == [] {
      assert Closed([])[1..] == [];
    } else {
      assert Closed(lists)[1..] == Closed(lists[1..]);
      LookupClosed(lists[1..], t);
    }
  }

  lemma ClosedSorted(lists: seq<Posting>)
    requires Groups(lists)
    ensures Sorted(Closed(lists))
  {
    assert forall i :: 0 <= i < |lists| ==> GroupOk(lists[i]) && Closed(lists)[i] == lists[i];
  }

  ghost predicate FindsFile(contents: seq<Str>, ps: seq<Posting>, t: Str, id: nat) {
    |t| == 3 ==> (id in Lookup(ps, TrigramNumber(t)) <==> id < |contents| && t in Trigrams(contents[id]))
  }

  /** The lists hold exactly the files of each trigram. */
  ghost predicate Exact(contents: seq<Str>, ps: seq<Posting>) {
    && Sorted(ps)
    && (forall t, id: nat :: FindsFile(contents, ps, t, id))
    && (forall id: nat :: id < |contents| ==> Document(ps, id) == Trigrams(contents[id]))
  }

  lemma ListsExact(contents: seq<Str>, added: seq<nat>, lists: seq<Posting>)
    requires Complete(added, contents) && Groups(lists) && |contents| <= FileIdSpan
    requires forall e: nat :: e in EntryList(lists) <==> e in added
    ensures Exact(contents, Closed(lists))
    ensures forall i, k :: 0 <= i < |lists| && 0 <= k < |lists[i].ids| ==> lists[i].ids[k] < |contents|
  {
    ClosedSorted(lists);
    forall t, id: nat
      ensures FindsFile(contents, Closed(lists), t, id)
    {
      if |t| == 3 {
        LookupClosed(lists, TrigramNumber(t));
        ExactAt(contents, added, lists, t, id);
      }
    }
    forall id: nat | id < |contents|
      ensures Document(Closed(lists), id) == Trigrams(contents[id])
    {
      DocumentIs(contents, lists, id);
    }
    forall i, k | 0 <= i < |lists| && 0 <= k < |lists[i].ids|
      ensures lists[i].ids[k] < |contents|
    {
      assert GroupOk(lists[i]);
      var e := MakeEntry(lists[i].trigram, lists[i].ids[k]);
      PartsOfEntry(lists[i].trigram, lists[i].ids[k]);
      InEntryList(lists, e);
      InTagged(lists[i].trigram, lists[i].ids, e);
      assert Belongs(contents, e);
    }
  }

  lemma ExactAt(contents: seq<Str>, added: seq<nat>, lists: seq<Posting>, t: Str, id: nat)
    requires Complete(added, contents) && Groups(lists) && |contents| <= FileIdSpan && |t| == 3
    requires forall e: nat :: e in EntryList(lists) <==> e in added
    ensures id in Lookup(lists, TrigramNumber(t)) <==> id < |contents| && t in Trigrams(contents[id])
  {
    if id < FileIdSpan {
      GroupsHold(lists, TrigramNumber(t), id);
      var e := MakeEntry(TrigramNumber(t), id);
      PartsOfEntry(TrigramNumber(t), id);
      assert e in added <==> Belongs(contents, e);
      TrigramBytesOfNumber(t);
      if id < |contents| {
        TrigramNumbersMean(contents[id], TrigramNumber(t));
      }
    } else {
      NoBigIds(lists, TrigramNumber(t), id);
    }
  }

  lemma {:induction false} NoBigIds(lists: seq<Posting>, t: nat, id: nat)
    requires Groups(lists) && id >= FileIdSpan
    ensures id !in Lookup(lists, t)
  {
    if lists != [] {
      assert GroupOk(lists[0]);
      NoBigIds(lists[1..], t, id);
    }
  }

  lemma DocumentIs(contents: seq<Str>, lists: seq<Posting>, id: nat)
    requires Sorted(Closed(lists)) && id < |contents|
    requires forall t, id: nat :: FindsFile(contents, Closed(lists), t, id)
    ensures Document(Closed(lists), id) == Trigrams(contents[id])
  {
    var ps := Closed(lists);
    forall t
      ensures t in Document(ps, id) <==> t in Trigrams(contents[id])
    {
      if |t| == 3 {
        InDocument(ps, id, t);
        assert FindsFile(contents, ps, t, id);
      }
      assert t in Trigrams(contents[id]) ==> |t| == 3;
      assert t in Document(ps, id) ==> |t| == 3;
    }
  }

  /** What Flush writes of the posting lists: front and middle are the parts of the file before and behind
      them, trailer is the part behind the index. Open computes the numbers of entries from the offsets. */
  method Flush(ix: IndexWriter, front: Str, middle: Str, trailer: Str) returns (ok: bool, file: Index, ghost ps: seq<Posting>)
    requires ix.Valid() && ix.numName <= FileIdSpan && (ix.version == 1 || ix.version == 2)
    modifies ix.scratch`sortTmp, ix.scratch.sortTmp, ix.scratch.sortN, ix.post
    ensures ok ==> Indexed(file, ps) && Tabled(file, ps) && Exact(ix.contents, ps)
    ensures ok ==> file.numName == |ix.contents| && file.version == ix.version && Terminated(ps)
    ensures ok ==> front <= file.data && file.postData == |front|
    ensures !ok ==> TooLarge(ix.version, RadixSorted(ix.added))
  {
    hide StoredAs, Complete, Exact, Groups, EntryList, Indexed, Tabled, ListsBytes, IndexWritten, TooLarge, RadixSorted;
    var main := new Buffer();
    var postIndex := new Buffer();
    main.Write(front);
    var numTrigram;
    ghost var lists, blocks;
    ok, numTrigram, lists, blocks := MergePost(ix, main, postIndex);
    ps := Closed(lists);
    file := Index(ix.version, [], 0, 0, 0, 0, 0);
    if ok {
      ListsExact(ix.contents, ix.added, lists);
      ClosedOk(ix.contents, lists);
      file := Assemble(ix.version, main.data, postIndex.data, numTrigram, front, middle, trailer, ix.numName, ps);
      ClosedFits(file, lists, |ix.contents|);
      Written(file, ps, blocks, postIndex.data, front, middle, trailer);
    }
  }

  lemma ClosedOk(contents: seq<Str>, lists: seq<Posting>)
    requires Exact(contents, Closed(lists))
    ensures Sorted(Closed(lists)) && AllStorable(Closed(lists))
  {
  }

  /** The bytes of the index over the lists. */
  ghost predicate IndexWritten(version: nat, ps: seq<Posting>, blocks: seq<seq<Entry>>, table: Str) {
    && AllStorable(ps)
    && (version == 1 ==> Fits32(1, ps) && table == IndexBytes(1, ps))
    && (version == 2 ==> BlocksOk(blocks) && Flat(blocks) == EntriesOf(ps) && table == BlocksBytes(blocks))
  }

  /** mergePost: writes the lists of all entries to out and the index over them to postIndex. */
  method MergePost(ix: IndexWriter, out: Buffer, postIndex: Buffer)
    returns (ok: bool, numTrigram: nat, ghost lists: seq<Posting>, ghost blocks: seq<seq<Entry>>)
    requires ix.Linked() && ix.Stored() && postIndex.data == [] && out != postIndex && ix.postFile !in {out, postIndex}
    modifies ix.scratch`sortTmp, ix.scratch.sortTmp, ix.scratch.sortN, ix.post, out, postIndex
    ensures ok ==> Groups(lists) && (forall e: nat :: e in EntryList(lists) <==> e in ix.added) && numTrigram == |Closed(lists)|
    ensures ok ==> IndexWritten(ix.version, Closed(lists), blocks, postIndex.data)
    ensures ok ==> out.data == old(out.data) + ListsBytes(ix.version, Closed(lists))
    ensures !ok ==> TooLarge(ix.version, RadixSorted(ix.added))
  {
    hide StoredAs, Proper, Ascending, RadixSorted, Groups, EntryList, HeapHolds, PostHeap.Yields, ListsBytes, TooLarge;
    ghost var all := RadixSorted(ix.added);
    var h := FillHeap(ix);
    var w := new PostDataWriter(ix.version, out, postIndex);
    ok, lists := WriteAll(h, w, all);
    numTrigram, blocks := 0, [];
    if ok {
      numTrigram := w.numTrigram;
      w.Flush();
      blocks := w.blocks;
    }
  }

  /** The sections of the file, and the index that Open finds in it. */
  method Assemble(version: nat, main: Str, table: Str, numTrigram: nat, front: Str, middle: Str, trailer: Str, numName: nat,
                  ghost ps: seq<Posting>) returns (file: Index)
    requires AllStorable(ps) && main == front + ListsBytes(version, ps)
    ensures file.version == version && file.numName == numName && file.postData == |front|
    ensures file.data == front + ListsBytes(version, ps) + middle + table + trailer
    ensures file.postIndex == |front| + |ListsBytes(version, ps)| + |middle|
    ensures version == 1 ==> file.numPost == |table| / EntrySizeV1
    ensures version != 1 ==> file.numPost == numTrigram && file.numPostBlock == |table| / PostBlockSize
  {
    var postIndex := |main + middle|;
    var data := main + middle + table + trailer;
    var n := |data| - |trailer|;
    file := if version == 1 then Index(1, data, |front|, postIndex, (n - postIndex) / EntrySizeV1, 0, numName)
            else Index(version, data, |front|, postIndex, numTrigram, (n - postIndex) / PostBlockSize, numName);
  }

  lemma ClosedFits(file: Index, lists: seq<Posting>, n: nat)
    requires Sorted(Closed(lists)) && file.numName == n <= FileIdSpan
    requires forall i, k :: 0 <= i < |lists| && 0 <= k < |lists[i].ids| ==> lists[i].ids[k] < n
    ensures WellFormed(file, Closed(lists)) && AllStorable(Closed(lists))
  {
  }

  lemma Written(file: Index, ps: seq<Posting>, blocks: seq<seq<Entry>>, table: Str, front: Str, middle: Str, trailer: Str)
    requires WellFormed(file, ps) && (file.version == 1 || file.version == 2) && IndexWritten(file.version, ps, blocks, table)
    requires file.postData == |front| && file.postIndex == |front| + |ListsBytes(file.version, ps)| + |middle|
    requires file.data == front + ListsBytes(file.version, ps) + middle + table + trailer
    requires file.version == 1 ==> file.numPost == |table| / EntrySizeV1
    requires file.version == 2 ==> file.numPostBlock == |table| / PostBlockSize && file.numPost == |ps|
    ensures Indexed(file, ps) && Tabled(file, ps)
  {
    if file.version == 1 {
      WrittenV1(file, ps, front, middle, trailer);
    } else {
      WrittenV2(file, ps, blocks, front, middle, trailer);
    }
  }
}
