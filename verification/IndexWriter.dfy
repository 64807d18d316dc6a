/** Building the posting lists of an index (IndexWriter in internal/codesearch/index/write.go). */
module IndexWriters {
  import opened Bytes
  import opened Buffers
  import opened DeltaCoding
  import opened PostingLists
  import opened PostingIndex
  import opened PostingWriter
  import opened PostDataWriters
  import opened ChunkReaders
  import opened Grouping
  import opened RadixSort
  import opened PostHeaps
  import opened FileScan
  import SparseSet

  // -------------------------------------------------------------------- entries

  ghost predicate Distinct(s: seq<nat>) {
    forall i, j :: 0 <= i < j < |s| ==> s[i] != s[j]
  }

  ghost predicate ById(s: seq<nat>) {
    forall i, j :: 0 <= i < j < |s| ==> FileIdOf(s[i]) <= FileIdOf(s[j])
  }

  ghost predicate Proper(s: seq<nat>) {
    forall k :: 0 <= k < |s| ==> 0 < TrigramOf(s[k]) < InvalidTrigram
  }

  /** The entry says that a file has a trigram, and it has. */
  ghost predicate Belongs(contents: seq<Str>, e: nat) {
    FileIdOf(e) < |contents| && TrigramOf(e) in TrigramNumbers(contents[FileIdOf(e)])
  }

  /** The entries are exactly the trigrams of the files, each once. */
  ghost predicate Complete(added: seq<nat>, contents: seq<Str>) {
    Distinct(added) && forall e: nat :: e in added <==> Belongs(contents, e)
  }

  ghost function Spilled(chunks: seq<seq<Posting>>): seq<nat> {
    if chunks == [] then [] else Spilled(chunks[..|chunks| - 1]) + EntryList(chunks[|chunks| - 1])
  }

  ghost predicate AllGroups(chunks: seq<seq<Posting>>) {
    forall i :: 0 <= i < |chunks| ==> Groups(chunks[i]) && Flushed(chunks[i]) && AscendingEntries(chunks[i])
  }

  ghost predicate AscendingEntries(ps: seq<Posting>) {
    Ascending(EntryList(ps))
  }

  lemma GroupsFlush(ps: seq<Posting>)
    requires Groups(ps)
    ensures Flushed(ps)
  {
    forall i | 0 <= i < |ps|
      ensures Storable(ps[i]) && ps[i].trigram != InvalidTrigram && Small(ps[i].ids)
    {
      assert GroupOk(ps[i]);
    }
  }

  ghost function ChunksBytes(version: nat, chunks: seq<seq<Posting>>): Str
    requires AllGroups(chunks)
  {
    if chunks == [] then [] else ChunksBytes(version, chunks[..|chunks| - 1]) + ListsBytes(version, chunks[|chunks| - 1])
  }

  /** Where the chunks end. */
  ghost predicate EndsOf(version: nat, chunks: seq<seq<Posting>>, ends: seq<nat>)
    requires AllGroups(chunks)
  {
    |ends| == |chunks| && forall i :: 0 <= i < |ends| ==> ends[i] == |ChunksBytes(version, chunks[..i + 1])|
  }

  lemma {:induction false} ChunkAt(version: nat, chunks: seq<seq<Posting>>, i: nat)
    requires AllGroups(chunks) && i < |chunks|
    ensures var lo := |ChunksBytes(version, chunks[..i])|;
            var hi := |ChunksBytes(version, chunks[..i + 1])|;
            lo <= hi <= |ChunksBytes(version, chunks)| && ChunksBytes(version, chunks)[lo..hi] == ListsBytes(version, chunks[i])
    decreases |chunks|
  {
    hide ListsBytes, Groups, AscendingEntries;
    var n := |chunks| - 1;
    assert chunks[..i + 1][..i] == chunks[..i];
    if i == n {
      assert chunks[..n + 1] == chunks;
    } else {
      ChunkAt(version, chunks[..n], i);
      assert chunks[..n][..i] == chunks[..i] && chunks[..n][..i + 1] == chunks[..i + 1];
      InFront(ChunksBytes(version, chunks[..n]), ListsBytes(version, chunks[n]),
              |ChunksBytes(version, chunks[..i])|, |ChunksBytes(version, chunks[..i + 1])|);
    }
  }

  lemma InFront(a: Str, b: Str, lo: nat, hi: nat)
    requires lo <= hi <= |a|
    ensures (a + b)[lo..hi] == a[lo..hi]
  {
  }

  /** Sorting entries that do not descend by file id gives ascending entries. */
  lemma SortedStrictly(s: seq<nat>)
    requires Distinct(s) && ById(s) && Proper(s)
    ensures Ascending(RadixSorted(s)) && multiset(RadixSorted(s)) == multiset(s) && Proper(RadixSorted(s))
  {
    forall k | 0 <= k < |s|
      ensures s[k] < FileIdSpan * RadixSort.K * RadixSort.K
    {
      assert TrigramOf(s[k]) < InvalidTrigram;
      EntryParts(s[k]);
    }
    RadixSorts(s);
    var r := RadixSorted(s);
    SameCountsDistinct(s, r);
    forall k | 0 <= k < |r|
      ensures 0 < TrigramOf(r[k]) < InvalidTrigram
    {
      assert r[k] in multiset(r);
      assert r[k] in s;
    }
  }

  lemma {:induction false} DistinctCounts(s: seq<nat>, x: nat)
    requires Distinct(s)
    ensures multiset(s)[x] <= 1
  {
    if s != [] {
      var t, e := s[..|s| - 1], s[|s| - 1];
      assert s == t + [e];
      DistinctCounts(t, x);
      assert forall i :: 0 <= i < |t| ==> t[i] == s[i] && s[i] != e;
      assert e !in t;
    }
  }

  lemma CountedTwice(r: seq<nat>, i: nat, j: nat)
    requires i < j < |r| && r[i] == r[j]
    ensures multiset(r)[r[i]] >= 2
  {
    var a, b, c, x := r[..i], r[i + 1..j], r[j + 1..], r[i];
    assert r == a + [x] + b + [x] + c;
  }

  lemma SameCountsDistinct(s: seq<nat>, r: seq<nat>)
    requires Distinct(s) && multiset(r) == multiset(s)
    ensures Distinct(r)
  {
    forall i, j | 0 <= i < j < |r|
      ensures r[i] != r[j]
    {
      DistinctCounts(s, r[i]);
      if r[i] == r[j] {
        CountedTwice(r, i, j);
      }
    }
  }

  // ------------------------------------------------------------ writing ascending entries

  /** In the middle of a list that is not empty; prefix has been written so far. */
  ghost predicate Writing(w: PostDataWriter, prefix: seq<nat>)
    reads w, w.delta, w.out
  {
    w.Open() && Groups(w.done + [Posting(w.t, w.ids)]) && EntryList(w.done + [Posting(w.t, w.ids)]) == prefix
  }

  /** One more id for the list that is being written. */
  method WriteSame(w: PostDataWriter, e: nat, ghost prefix: seq<nat>)
    requires Writing(w, prefix) && Ascending(prefix + [e]) && TrigramOf(e) == w.t
    modifies w`lastID, w`count, w`ids, w.delta, w.out
    ensures Writing(w, prefix + [e])
  {
    hide Groups, Ascending, PostDataWriter.Open, EntryList;
    SameGroup(w.done, w.t, w.ids, e);
    LastIdIs(w);
    w.FileId(FileIdOf(e));
  }

  lemma LastIdIs(w: PostDataWriter)
    requires w.Open()
    ensures w.lastID == LastOf(w.ids)
  {
  }

  lemma IsOpen(w: PostDataWriter)
    requires w.Open()
    ensures w.ids == [] ==> w.lastID == -1
  {
  }

  /** The first id of the next list. */
  method WriteNew(w: PostDataWriter, e: nat, ghost prefix: seq<nat>)
    requires w.Idle() && Groups(w.done) && EntryList(w.done) == prefix && Ascending(prefix + [e])
    requires 0 < TrigramOf(e) < InvalidTrigram && (w.done == [] || w.done[|w.done| - 1].trigram != TrigramOf(e))
    modifies w`offset, w`count, w`t, w`lastID, w`numTrigram, w`ids, w.delta, w.out
    ensures Writing(w, prefix + [e]) && w.t == TrigramOf(e)
  {
    hide Groups, Ascending, PostDataWriter.Open, PostDataWriter.Idle, EntryList;
    NewGroup(w.done, e);
    w.Trigram(TrigramOf(e));
    IsOpen(w);
    w.FileId(FileIdOf(e));
    assert [] + [FileIdOf(e)] == [FileIdOf(e)];
  }

  /** The loop of flushPost. */
  method WriteGroups(post: array<nat>, n: nat, w: PostDataWriter)
    requires n <= post.Length && Ascending(post[..n]) && Proper(post[..n])
    requires w.Idle() && w.done == [] && w.postIndexFile == null && w.IndexRight()
    modifies w, w.delta, w.out, w.block
    ensures w.Idle() && Groups(w.done) && EntryList(w.done) == post[..n]
  {
    var trigram: nat := InvalidTrigram;
    ghost var s := post[..n];
    for k := 0 to n
      invariant w.IndexRight()
      invariant post[..n] == s
      invariant k == 0 ==> w.Idle() && w.done == [] && trigram == InvalidTrigram
      invariant k > 0 ==> Writing(w, s[..k]) && trigram == w.t
    {
      hide PostDataWriter.Idle, PostDataWriter.IndexRight, Writing;
      trigram := WriteEntryOf(post[k], trigram, w, s, k);
    }
    assert s[..n] == s;
    NoList();
    if trigram != InvalidTrigram {
      EndGroup(w, s);
    }
  }

  method WriteEntryOf(p: nat, trigram0: nat, w: PostDataWriter, ghost s: seq<nat>, ghost k: nat) returns (trigram: nat)
    requires k < |s| && p == s[k] && Ascending(s) && Proper(s) && w.postIndexFile == null && w.IndexRight()
    requires k == 0 ==> w.Idle() && w.done == [] && trigram0 == InvalidTrigram
    requires k > 0 ==> Writing(w, s[..k]) && trigram0 == w.t
    modifies w, w.delta, w.out, w.block
    ensures w.IndexRight() && Writing(w, s[..k + 1]) && trigram == w.t
  {
    NextInOrder(s, k);
    hide Ascending, Proper, PostDataWriter.Idle, PostDataWriter.IndexRight, Writing, EntryList, Groups;
    trigram := trigram0;
    var t := TrigramOf(p);
    if t != trigram {
      if trigram != InvalidTrigram {
        EndGroup(w, s[..k]);
      } else {
        NoList();
      }
      WriteNew(w, p, s[..k]);
      trigram := t;
    } else {
      WriteSame(w, p, s[..k]);
    }
  }

  lemma NoList()
    ensures EntryList([]) == [] && Groups([])
  {
  }

  lemma NextInOrder(s: seq<nat>, k: nat)
    requires k < |s| && Ascending(s) && Proper(s)
    ensures s[..k + 1] == s[..k] + [s[k]] && Ascending(s[..k] + [s[k]]) && 0 < TrigramOf(s[k]) < InvalidTrigram
  {
  }

  method EndGroup(w: PostDataWriter, ghost prefix: seq<nat>)
    requires Writing(w, prefix) && w.IndexRight() && w.postIndexFile == null
    modifies w, w.delta, w.out, w.block
    ensures w.Idle() && w.IndexRight() && Groups(w.done) && EntryList(w.done) == prefix
    ensures w.done != [] && w.done[|w.done| - 1].trigram == old(w.t)
  {
    var _ := w.EndTrigram();
  }

  // ------------------------------------------------------------------- IndexWriter

  ghost predicate Balanced(added: seq<nat>, chunks: seq<seq<Posting>>, post: seq<nat>) {
    multiset(added) == multiset(Spilled(chunks)) + multiset(post)
  }

  ghost predicate EndsWith(added: seq<nat>, post: seq<nat>) {
    |post| <= |added| && added[|added| - |post|..] == post
  }

  ghost predicate SortedOut(added: seq<nat>) {
    Distinct(added) && ById(added) && Proper(added)
  }

  /** What the entries of a batch are like if those of all batches are. */
  lemma BatchSortedOut(added: seq<nat>, post: seq<nat>)
    requires SortedOut(added) && EndsWith(added, post)
    ensures SortedOut(post)
  {
    var d := |added| - |post|;
    assert forall k :: 0 <= k < |post| ==> post[k] == added[d + k];
  }

  /** A full batch becomes a chunk. */
  lemma ChunkAdded(added: seq<nat>, chunks: seq<seq<Posting>>, post: seq<nat>, chunk: seq<Posting>)
    requires Balanced(added, chunks, post) && multiset(EntryList(chunk)) == multiset(post)
    ensures Balanced(added, chunks + [chunk], [])
  {
    assert (chunks + [chunk])[..|chunks|] == chunks;
    assert Spilled(chunks + [chunk]) == Spilled(chunks) + EntryList(chunk);
  }

  lemma SortedBatch(s: seq<nat>)
    requires SortedOut(s)
    ensures Ascending(RadixSorted(s)) && multiset(RadixSorted(s)) == multiset(s) && Proper(RadixSorted(s))
  {
    SortedStrictly(s);
  }

  lemma NothingAtEnd(added: seq<nat>)
    ensures EndsWith(added, [])
  {
  }

  lemma ChunkWritten(version: nat, chunks: seq<seq<Posting>>, ends: seq<nat>, chunk: seq<Posting>)
    requires AllGroups(chunks) && EndsOf(version, chunks, ends) && Groups(chunk) && AscendingEntries(chunk)
    ensures AllGroups(chunks + [chunk])
    ensures ChunksBytes(version, chunks + [chunk]) == ChunksBytes(version, chunks) + ListsBytes(version, chunk)
    ensures EndsOf(version, chunks + [chunk], ends + [|ChunksBytes(version, chunks + [chunk])|])
  {
    GroupsFlush(chunk);
    hide Groups, Flushed, AscendingEntries, ListsBytes, EntryList;
    var cs := chunks + [chunk];
    assert cs[..|chunks|] == chunks && cs[..|cs|] == cs;
    forall j | 0 < j <= |chunks|
      ensures cs[..j] == chunks[..j]
    {
    }
    hide ChunksBytes;
    SameEnds(version, chunks, cs, ends);
  }

  lemma SameEnds(version: nat, chunks: seq<seq<Posting>>, cs: seq<seq<Posting>>, ends: seq<nat>)
    requires AllGroups(chunks) && AllGroups(cs) && EndsOf(version, chunks, ends) && |cs| == |chunks| + 1
    requires cs[..|cs|] == cs && forall j :: 0 < j <= |chunks| ==> cs[..j] == chunks[..j]
    ensures EndsOf(version, cs, ends + [|ChunksBytes(version, cs)|])
  {
    hide ChunksBytes, AllGroups;
  }

  /** The entries are in the chunks of the temporary file and in the current batch. */
  ghost predicate StoredAs(version: nat, added: seq<nat>, chunks: seq<seq<Posting>>, data: Str, ends: seq<nat>, post: seq<nat>) {
    && SortedOut(added) && AllGroups(chunks)
    && data == ChunksBytes(version, chunks) && EndsOf(version, chunks, ends)
    && Balanced(added, chunks, post) && EndsWith(added, post)
  }

  /** The batch becomes a chunk. */
  lemma Spill(version: nat, added: seq<nat>, chunks: seq<seq<Posting>>, data: Str, ends: seq<nat>, post: seq<nat>, chunk: seq<Posting>)
    requires StoredAs(version, added, chunks, data, ends, post)
    requires Groups(chunk) && AscendingEntries(chunk) && AllStorable(chunk) && multiset(EntryList(chunk)) == multiset(post)
    ensures StoredAs(version, added, chunks + [chunk], data + ListsBytes(version, chunk),
                     ends + [|data + ListsBytes(version, chunk)|], [])
  {
    hide SortedOut, AllGroups, Balanced, EndsWith, EndsOf, Groups, AscendingEntries, EntryList, ListsBytes, ChunksBytes;
    ChunkAdded(added, chunks, post, chunk);
    ChunkWritten(version, chunks, ends, chunk);
    NothingAtEnd(added);
  }

  lemma BatchOf(version: nat, added: seq<nat>, chunks: seq<seq<Posting>>, data: Str, ends: seq<nat>, post: seq<nat>)
    requires StoredAs(version, added, chunks, data, ends, post)
    ensures SortedOut(post)
  {
    BatchSortedOut(added, post);
  }

  class IndexWriter {
    const version: nat
    const trigram: SparseSet.Set
    const post: array<nat>
    var n: nat
    const postFile: Buffer
    var postEnds: seq<nat>
    var numName: nat
    const scratch: Scratch
    /** The files accepted so far, the entries in the order they were added, and the flushed lists. */
    ghost var contents: seq<Str>
    ghost var added: seq<nat>
    ghost var chunks: seq<seq<Posting>>

    ghost predicate Linked()
      reads trigram, trigram.sparse, scratch
    {
      && trigram.Valid() && trigram.sparse.Length == TrigramSpace && scratch.Valid() && post.Length > 0
      && post != scratch.sortTmp && post != scratch.sortN && post != trigram.sparse
      && scratch.sortTmp != trigram.sparse && scratch.sortN != trigram.sparse
    }

    ghost predicate Stored()
      reads this`n, this`added, this`chunks, this`postEnds, post, postFile
    {
      n <= post.Length && StoredAs(version, added, chunks, postFile.data, postEnds, post[..n])
    }

    ghost predicate Valid()
      reads this, trigram, trigram.sparse, scratch, post, postFile
    {
      Linked() && Stored() && numName == |contents| && Complete(added, contents)
    }

    constructor (version: nat, npost: nat)
      requires npost > 0
      ensures Valid() && contents == [] && this.version == version
      ensures fresh(trigram) && fresh(trigram.sparse) && fresh(post) && fresh(postFile)
      ensures fresh(scratch) && fresh(scratch.sortTmp) && fresh(scratch.sortN)
    {
      this.version := version;
      trigram := new SparseSet.Set(TrigramSpace);
      post := new nat[npost];
      n := 0;
      postFile := new Buffer();
      postEnds := [];
      numName := 0;
      scratch := new Scratch();
      contents, added, chunks := [], [], [];
    }

    /** Sorts the batch and writes it to the temporary file. */
    method SpillBatch() returns (ghost chunk: seq<Posting>)
      requires Linked() && n <= post.Length && SortedOut(post[..n])
      modifies scratch`sortTmp, scratch.sortTmp, scratch.sortN, post, postFile
      ensures Linked() && (scratch.sortTmp == old(scratch.sortTmp) || fresh(scratch.sortTmp))
      ensures Groups(chunk) && AscendingEntries(chunk) && AllStorable(chunk)
      ensures multiset(EntryList(chunk)) == old(multiset(post[..n])) && postFile.data == old(postFile.data) + ListsBytes(version, chunk)
    {
      hide SortedOut, Ascending, Proper, RadixSorted, Groups, EntryList, AscendingEntries, AllStorable, ListsBytes;
      SortedBatch(post[..n]);
      scratch.SortPost(post, n);
      chunk := WriteChunk(post, n, postFile, version);
    }

    /** flushPost: the batch becomes a chunk of the temporary file. */
    method FlushPost()
      requires Linked() && Stored()
      modifies this`n, this`postEnds, this`chunks, scratch`sortTmp, scratch.sortTmp, scratch.sortN, post, postFile
      ensures Linked() && Stored() && n == 0
      ensures scratch.sortTmp == old(scratch.sortTmp) || fresh(scratch.sortTmp)
    {
      hide Linked, StoredAs, SortedOut, Groups, AscendingEntries, AllStorable, EntryList;
      BatchOf(version, added, chunks, postFile.data, postEnds, post[..n]);
      ghost var batch, before := post[..n], postFile.data;
      ghost var chunk := SpillBatch();
      Spill(version, added, chunks, before, postEnds, batch, chunk);
      n := 0;
      postEnds := postEnds + [postFile.Offset()];
      chunks := chunks + [chunk];
      assert post[..0] == [];
    }

    /** Appends an entry to the batch; a full batch is flushed first. */
    method AddEntry(e: nat)
      requires Linked() && Stored() && SortedOut(added + [e])
      modifies this`n, this`postEnds, this`chunks, this`added
      modifies scratch`sortTmp, scratch.sortTmp, scratch.sortN, post, postFile
      ensures Linked() && Stored() && added == old(added) + [e]
      ensures scratch.sortTmp == old(scratch.sortTmp) || fresh(scratch.sortTmp)
    {
      hide StoredAs, SortedOut;
      if n >= post.Length {
        FlushPost();
      }
      ghost var batch := post[..n];
      StoreEntry(version, added, chunks, postFile.data, postEnds, batch, e);
      post[n] := e;
      n := n + 1;
      added := added + [e];
      assert post[..n] == batch + [e];
    }

    /** add: a file that is not text is left out, and of any other all trigrams are entered. */
    method Add(data: Str) returns (ok: bool)
      requires Valid() && numName < FileIdSpan
      modifies this`n, this`postEnds, this`chunks, this`added, this`numName, this`contents, trigram`dense, trigram.sparse
      modifies scratch`sortTmp, scratch.sortTmp, scratch.sortN, post, postFile
      ensures Valid() && (ok <==> Indexable(data))
      ensures contents == if ok then old(contents) + [data] else old(contents)
      ensures scratch.sortTmp == old(scratch.sortTmp) || fresh(scratch.sortTmp)
    {
      hide StoredAs, Complete, Indexable, SortedOut;
      ok := Scan(data, trigram);
      if !ok {
        return;
      }
      var fileid := numName;
      numName := numName + 1;
      EnterTrigrams(data, fileid);
      contents := contents + [data];
    }

    method EnterTrigrams(data: Str, fileid: nat)
      requires Linked() && Stored() && Complete(added, contents) && fileid == |contents| < FileIdSpan
      requires Indexable(data) && trigram.Elements() == TrigramNumbers(data)
      modifies this`n, this`postEnds, this`chunks, this`added
      modifies scratch`sortTmp, scratch.sortTmp, scratch.sortN, post, postFile
      ensures Linked() && Stored() && Complete(added, contents + [data])
      ensures scratch.sortTmp == old(scratch.sortTmp) || fresh(scratch.sortTmp)
    {
      hide Linked, StoredAs, Complete, SortedOut, PartlyEntered, Indexable;
      ghost var before := added;
      var dense := trigram.dense;
      DenseSet();
      StartEntering(before, contents, dense, fileid);
      for k := 0 to |dense|
        invariant Linked() && Stored() && PartlyEntered(before, contents, dense, k, added)
        invariant scratch.sortTmp == old(scratch.sortTmp) || fresh(scratch.sortTmp)
      {
        EnterOne(before, contents, data, dense, k, added, version, chunks, postFile.data, postEnds, post[..n]);
        AddEntry(MakeEntry(dense[k], fileid));
      }
      EntriesDistinct(version, added, chunks, postFile.data, postEnds, post[..n]);
      AllEntered(before, contents, data, dense, added);
    }

    lemma DenseSet()
      requires Linked()
      ensures Distinct(trigram.dense) && SparseSet.Members(trigram.dense) == trigram.Elements()
    {
      trigram.Distinct();
    }
  }

  /** The trigrams of the new file that have been entered are the first k of dense. */
  ghost predicate PartlyEntered(before: seq<nat>, contents: seq<Str>, dense: seq<nat>, k: nat, added: seq<nat>)
    requires k <= |dense|
  {
    && Complete(before, contents) && |added| == |before| + k && added[..|before|] == before
    && forall j :: 0 <= j < k ==> added[|before| + j] == MakeEntry(dense[j], |contents|)
  }

  lemma StartEntering(before: seq<nat>, contents: seq<Str>, dense: seq<nat>, fileid: nat)
    requires Complete(before, contents)
    ensures PartlyEntered(before, contents, dense, 0, before)
  {
  }

  lemma StoreEntry(version: nat, added: seq<nat>, chunks: seq<seq<Posting>>, data: Str, ends: seq<nat>, post: seq<nat>, e: nat)
    requires StoredAs(version, added, chunks, data, ends, post) && SortedOut(added + [e])
    ensures StoredAs(version, added + [e], chunks, data, ends, post + [e])
  {
    hide SortedOut, AllGroups, EndsOf, ChunksBytes;
  }

  lemma EntriesDistinct(version: nat, added: seq<nat>, chunks: seq<seq<Posting>>, data: Str, ends: seq<nat>, post: seq<nat>)
    requires StoredAs(version, added, chunks, data, ends, post)
    ensures Distinct(added)
  {
  }

  /** The next entry is new and keeps the order by file. */
  lemma EnterOne(before: seq<nat>, contents: seq<Str>, data: Str, dense: seq<nat>, k: nat, added: seq<nat>,
                 version: nat, chunks: seq<seq<Posting>>, file: Str, ends: seq<nat>, post: seq<nat>)
    requires k < |dense| && PartlyEntered(before, contents, dense, k, added) && |contents| < FileIdSpan
    requires Indexable(data) && Distinct(dense) && SparseSet.Members(dense) == TrigramNumbers(data)
    requires StoredAs(version, added, chunks, file, ends, post)
    ensures SortedOut(added + [MakeEntry(dense[k], |contents|)])
    ensures PartlyEntered(before, contents, dense, k + 1, added + [MakeEntry(dense[k], |contents|)])
  {
    var e := MakeEntry(dense[k], |contents|);
    PartsOfEntry(dense[k], |contents|);
    assert dense[k] in SparseSet.Members(dense);
    TrigramsOfText(data, dense[k]);
    forall i | 0 <= i < |added|
      ensures added[i] != e && FileIdOf(added[i]) <= FileIdOf(e)
    {
      if i < |before| {
        assert before[i] == added[i] && before[i] in before;
        assert Belongs(contents, before[i]);
      } else {
        PartsOfEntry(dense[i - |before|], |contents|);
      }
    }
    OneMoreSorted(added, e);
  }

  lemma OneMoreSorted(added: seq<nat>, e: nat)
    requires SortedOut(added) && 0 < TrigramOf(e) < InvalidTrigram
    requires forall i :: 0 <= i < |added| ==> added[i] != e && FileIdOf(added[i]) <= FileIdOf(e)
    ensures SortedOut(added + [e])
  {
  }

  /** With all trigrams of the file entered, the entries are complete again. */
  lemma AllEntered(before: seq<nat>, contents: seq<Str>, data: Str, dense: seq<nat>, added: seq<nat>)
    requires PartlyEntered(before, contents, dense, |dense|, added) && |contents| < FileIdSpan && Distinct(added)
    requires SparseSet.Members(dense) == TrigramNumbers(data)
    ensures Complete(added, contents + [data])
  {
    var cs := contents + [data];
    forall e: nat
      ensures e in added <==> Belongs(cs, e)
    {
      EntryParts(e);
      assert added == added[..|before|] + added[|before|..];
      assert e in added[..|before|] <==> Belongs(contents, e);
      if e in added[|before|..] {
        var j :| 0 <= j < |added[|before|..]| && added[|before|..][j] == e;
        PartsOfEntry(dense[j], |contents|);
        assert dense[j] in SparseSet.Members(dense);
      }
      if FileIdOf(e) == |contents| && TrigramOf(e) in TrigramNumbers(data) {
        var j :| 0 <= j < |dense| && dense[j] == TrigramOf(e);
        assert added[|before|..][j] == e;
      }
    }
  }

  method WriteChunk(post: array<nat>, n: nat, file: Buffer, version: nat) returns (ghost chunk: seq<Posting>)
    requires n <= post.Length && Ascending(post[..n]) && Proper(post[..n])
    modifies file
    ensures Groups(chunk) && EntryList(chunk) == post[..n] && AscendingEntries(chunk)
    ensures AllStorable(chunk) && file.data == old(file.data) + ListsBytes(version, chunk)
  {
    var w := new PostDataWriter(version, file, null);
    ghost var base := file.data;
    WriteGroups(post, n, w);
    chunk := w.done;
  }
}
