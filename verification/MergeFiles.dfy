/** The index file that merging two index files gives (Merge in internal/codesearch/index/merge.go). */
module MergeFiles {
  import opened Bytes
  import opened Buffers
  import opened DeltaCoding
  import opened PostingLists
  import opened PostingIndex
  import opened PostingWriter
  import opened PostDataWriters
  import opened MergeMaps
  import opened MergeLists
  import opened MergePosts
  import opened IndexFiles
  import opened Grouping

  /** An index to be merged: its table lists ps, and m is a map of its files. */
  ghost predicate Input(ix: Index, ps: seq<Posting>, m: seq<Range>, numName: nat) {
    && Tabled(ix, ps) && Sorted(ps) && Positive(ps) && EmptyInvalid(ps) && AllSmall(ps)
    && Increasing(m) && exists hi: nat :: Below(m, hi, numName)
  }

  method Reader(ix: Index, m: seq<Range>, ghost numName: nat, ghost ps: seq<Posting>) returns (r: PostMapReader)
    requires Input(ix, ps, m, numName) && numName < MaxDelta
    ensures fresh(r) && fresh(r.table) && fresh(r.delta) && AtList(r) && r.Remaining() == ps && r.idmap == m
  {
    r := new PostMapReader(ix, m, ps);
  }

  lemma {:induction false} MergedBelow(m1: seq<Range>, m2: seq<Range>, ps1: seq<Posting>, ps2: seq<Posting>, hi1: nat, hi2: nat, max: nat)
    requires Below(m1, hi1, max) && Below(m2, hi2, max)
    ensures IdsBelow(Merged(m1, m2, ps1, ps2), max)
    decreases |ps1| + |ps2|
  {
    var t := Least(Head(ps1), Head(ps2));
    if (ps1 != [] || ps2 != []) && (Behind(ps1, t) != ps1 || Behind(ps2, t) != ps2) {
      MergedBelow(m1, m2, Behind(ps1, t), Behind(ps2, t), hi1, hi2, max);
      MergedListBelow(m1, m2, HeadIds(ps1, t), HeadIds(ps2, t), hi1, hi2, max);
      var first := Posting(t, Merge2(Images(m1, HeadIds(ps1, t)), Images(m2, HeadIds(ps2, t))));
      var rest := Merged(m1, m2, Behind(ps1, t), Behind(ps2, t));
      assert Merged(m1, m2, ps1, ps2) == [first] + rest;
      assert IdsBelow(rest, max);
      FirstBelow(first, rest, max);
    }
  }

  lemma FirstBelow(first: Posting, rest: seq<Posting>, max: nat)
    requires IdsBelow(rest, max) && Under(first.ids, max)
    ensures IdsBelow([first] + rest, max)
  {
    var s := [first] + rest;
    forall k, j | 0 <= k < |s| && 0 <= j < |s[k].ids|
      ensures s[k].ids[j] < max
    {
      if k > 0 {
        assert s[k] == rest[k - 1];
      }
    }
  }

  ghost predicate Under(ids: seq<nat>, max: nat) {
    forall j :: 0 <= j < |ids| ==> ids[j] < max
  }

  ghost predicate IdsBelow(ps: seq<Posting>, max: nat) {
    forall k, j :: 0 <= k < |ps| && 0 <= j < |ps[k].ids| ==> ps[k].ids[j] < max
  }

  lemma MergedListBelow(m1: seq<Range>, m2: seq<Range>, a: seq<nat>, b: seq<nat>, hi1: nat, hi2: nat, max: nat)
    requires Below(m1, hi1, max) && Below(m2, hi2, max)
    ensures Under(Merge2(Images(m1, a), Images(m2, b)), max)
  {
    ImagesBelow(m1, a, hi1, max);
    ImagesBelow(m2, b, hi2, max);
    var x := Merge2(Images(m1, a), Images(m2, b));
    forall j | 0 <= j < |x|
      ensures x[j] < max
    {
      InMerge2(Images(m1, a), Images(m2, b), x[j]);
    }
  }

  lemma ClosedList(lists: seq<Posting>)
    requires Sorted(lists) && EmptyInvalid(lists)
    ensures Sorted(Closed(lists)) && EmptyInvalid(Closed(lists)) && AllStorable(Closed(lists))
    ensures forall id: nat :: Document(Closed(lists), id) == Document(lists, id)
  {
    var ps := Closed(lists);
    assert forall i :: 0 <= i < |lists| ==> ps[i] == lists[i];
    forall id: nat
      ensures Document(ps, id) == Document(lists, id)
    {
      forall t | t in Document(lists, id)
        ensures t in Document(ps, id)
      {
        var i :| 0 <= i < |lists| && id in lists[i].ids && TrigramBytes(lists[i].trigram) == t;
        assert id in ps[i].ids;
      }
    }
  }

  function Larger(a: nat, b: nat): nat {
    if a > b then a else b
  }

  lemma MergedPositive(map1: seq<Range>, map2: seq<Range>, ps1: seq<Posting>, ps2: seq<Posting>)
    requires Positive(ps1) && Positive(ps2) && AtLeast(Merged(map1, map2, ps1, ps2), Least(Head(ps1), Head(ps2)))
    ensures Positive(Closed(Merged(map1, map2, ps1, ps2)))
  {
    hide Merged;
  }

  /** What the merged lists are like. */
  lemma MergedOk(ix1: Index, ix2: Index, map1: seq<Range>, map2: seq<Range>, numName: nat, ps1: seq<Posting>, ps2: seq<Posting>)
    requires Input(ix1, ps1, map1, numName) && Input(ix2, ps2, map2, numName) && Apart(map1, map2)
    ensures var ps := Closed(Merged(map1, map2, ps1, ps2));
            && Sorted(ps) && EmptyInvalid(ps) && AllStorable(ps) && Positive(ps)
            && Terminators(ps) == 1 + Larger(Terminators(ps1), Terminators(ps2))
            && IdsBelow(ps, numName)
            && (forall i: nat, n: nat :: MapsTo(map1, i, n) ==> Document(ps, n) == Document(ps1, i))
            && (forall i: nat, n: nat :: MapsTo(map2, i, n) ==> Document(ps, n) == Document(ps2, i))
  {
    var lists := Merged(map1, map2, ps1, ps2);
    MergedSorted(map1, map2, ps1, ps2);
    ClosedList(lists);
    MergedPositive(map1, map2, ps1, ps2);
    MergedTerminators(map1, map2, ps1, ps2);
    TerminatorsOf(lists, Posting(InvalidTrigram, []));
    var hi1: nat :| Below(map1, hi1, numName);
    var hi2: nat :| Below(map2, hi2, numName);
    MergedBelow(map1, map2, ps1, ps2, hi1, hi2, numName);
    hide Merged;
    forall i: nat, n: nat | MapsTo(map1, i, n)
      ensures Document(Closed(lists), n) == Document(ps1, i)
    {
      MergedDocument(map1, map2, ps1, ps2, i, n, true);
    }
    forall i: nat, n: nat | MapsTo(map2, i, n)
      ensures Document(Closed(lists), n) == Document(ps2, i)
    {
      MergedDocument(map1, map2, ps1, ps2, i, n, false);
    }
  }

  lemma WillProgress(ix1: Index, ix2: Index, map1: seq<Range>, map2: seq<Range>, numName: nat, ps1: seq<Posting>, ps2: seq<Posting>)
    requires Input(ix1, ps1, map1, numName) && Input(ix2, ps2, map2, numName)
    ensures Progresses(ps1, ps2, 0, 0) <==> Mergeable(Terminators(ps1), Terminators(ps2))
  {
    MergeProgresses(ps1, ps2);
  }

  lemma MergedIsWellFormed(file: Index, ps: seq<Posting>)
    requires Sorted(ps) && file.numName < MaxDelta
    requires IdsBelow(ps, file.numName)
    ensures WellFormed(file, ps)
  {
  }

  lemma IsReadable(file: Index, ps: seq<Posting>)
    requires Tabled(file, ps) && Sorted(ps) && Positive(ps) && EmptyInvalid(ps) && IdsBelow(ps, file.numName) && file.numName < MaxDelta
    ensures Readable(file, ps)
  {
    hide Tabled, Sorted, Positive, EmptyInvalid;
  }

  /** The posting lists of Merge, from the maps to the file: front and middle are the parts of the file before
      and behind them. The loop gets to its end exactly if the two indexes do not have too many terminators;
      then the file is an index of the merged lists, and each file has the trigrams that it had before. */
  method MergeIndexes(ix1: Index, ix2: Index, map1: seq<Range>, map2: seq<Range>, numName: nat, front: Str, middle: Str, trailer: Str,
                      ghost ps1: seq<Posting>, ghost ps2: seq<Posting>)
    returns (outcome: Outcome, file: Index, ghost ps: seq<Posting>)
    requires Input(ix1, ps1, map1, numName) && Input(ix2, ps2, map2, numName) && Apart(map1, map2) && numName < MaxDelta
    ensures outcome == NoProgress ==> !Mergeable(Terminators(ps1), Terminators(ps2))
    ensures outcome == TooLarge ==> Overflows(2, ps)
    ensures outcome == Complete ==>
              && Mergeable(Terminators(ps1), Terminators(ps2))
              && Indexed(file, ps) && Readable(file, ps) && file.numName == numName
    ensures ps == Closed(Merged(map1, map2, ps1, ps2)) && Sorted(ps)
    ensures Terminators(ps) == 1 + Larger(Terminators(ps1), Terminators(ps2))
    ensures forall i: nat, n: nat :: MapsTo(map1, i, n) ==> Document(ps, n) == Document(ps1, i)
    ensures forall i: nat, n: nat :: MapsTo(map2, i, n) ==> Document(ps, n) == Document(ps2, i)
  {
    hide Input, Indexed, Tabled, Mergeable, Sorted, EmptyInvalid, Positive, Readable, IdsBelow, AllStorable, Merged, WriterReady, AtList, Apart, Document, Overflows;
    MergedOk(ix1, ix2, map1, map2, numName, ps1, ps2);
    WillProgress(ix1, ix2, map1, map2, numName, ps1, ps2);
    ps := Closed(Merged(map1, map2, ps1, ps2));
    file := Index(2, [], 0, 0, 0, 0, 0);
    ghost var blocks;
    var main, table, numTrigram;
    outcome, main, table, numTrigram, blocks := WriteMerged(ix1, ix2, map1, map2, numName, front, ps1, ps2);
    if outcome == Complete {
      file := Assemble(2, main, table, numTrigram, front, middle, trailer, numName, ps);
      MergedIsWellFormed(file, ps);
      Written(file, ps, blocks, table, front, middle, trailer);
      IsReadable(file, ps);
    }
  }

  method WriteMerged(ix1: Index, ix2: Index, map1: seq<Range>, map2: seq<Range>, ghost numName: nat, front: Str,
                     ghost ps1: seq<Posting>, ghost ps2: seq<Posting>)
    returns (outcome: Outcome, main: Str, table: Str, numTrigram: nat, ghost blocks: seq<seq<Entry>>)
    requires Input(ix1, ps1, map1, numName) && Input(ix2, ps2, map2, numName) && Apart(map1, map2) && numName < MaxDelta
    requires AllStorable(Closed(Merged(map1, map2, ps1, ps2)))
    ensures outcome == NoProgress ==> !Progresses(ps1, ps2, 0, 0)
    ensures outcome == TooLarge ==> Overflows(2, Closed(Merged(map1, map2, ps1, ps2)))
    ensures outcome == Complete ==>
              && Progresses(ps1, ps2, 0, 0) && numTrigram == |Closed(Merged(map1, map2, ps1, ps2))|
              && main == front + ListsBytes(2, Closed(Merged(map1, map2, ps1, ps2)))
              && IndexWritten(2, Closed(Merged(map1, map2, ps1, ps2)), blocks, table)
  {
    hide Input, Merged, AtLists, WriterReady, Apart, Progresses, ListsBytes, AllStorable, Overflows;
    var w := Writer(front);
    var r1, r2 := Readers(ix1, ix2, map1, map2, numName, ps1, ps2);
    outcome := MergeAll(r1, r2, w, ps1, ps2);
    main, table, numTrigram, blocks := [], [], 0, [];
    if outcome == Complete {
      main, table, numTrigram, blocks := FinishIndex(w, Closed(Merged(map1, map2, ps1, ps2)));
    }
  }

  method Writer(front: Str) returns (w: PostDataWriter)
    ensures fresh(w) && fresh(w.out) && fresh(w.delta) && fresh(w.block) && w.postIndexFile != null && fresh(w.postIndexFile)
    ensures WriterReady(w) && w.done == [] && w.version == 2 && w.head == front && w.indexBase == 0
  {
    var out := new Buffer();
    var postIndex := new Buffer();
    out.Write(front);
    w := new PostDataWriter(2, out, postIndex);
  }

  method Readers(ix1: Index, ix2: Index, map1: seq<Range>, map2: seq<Range>, ghost numName: nat,
                 ghost ps1: seq<Posting>, ghost ps2: seq<Posting>) returns (r1: PostMapReader, r2: PostMapReader)
    requires Input(ix1, ps1, map1, numName) && Input(ix2, ps2, map2, numName) && Apart(map1, map2) && numName < MaxDelta
    ensures AtLists(r1, r2) && r1.Remaining() == ps1 && r2.Remaining() == ps2 && r1.idmap == map1 && r2.idmap == map2
    ensures fresh({r1, r1.table, r1.delta, r2, r2.table, r2.delta})
  {
    hide AtList, Input, Apart;
    r1 := Reader(ix1, map1, numName, ps1);
    r2 := Reader(ix2, map2, numName, ps2);
  }

  /** The bytes of the lists and of the index over them. */
  method FinishIndex(w: PostDataWriter, ghost ps: seq<Posting>) returns (main: Str, table: Str, numTrigram: nat, ghost blocks: seq<seq<Entry>>)
    requires WriterReady(w) && w.done == ps && w.version == 2 && w.postIndexFile != null && w.indexBase == 0
    modifies w, w.block, w.postIndexFile
    ensures numTrigram == |ps| && AllStorable(ps) && main == w.head + ListsBytes(2, ps) && IndexWritten(2, ps, blocks, table)
  {
    hide ListsBytes;
    numTrigram := w.numTrigram;
    main := w.out.data;
    w.Flush();
    table, blocks := w.postIndexFile.data, w.blocks;
  }

  /** Merge, from the names to the posting lists. It gives up where the source panics: when a file of the second
      index is not below one of its roots, or when the loop makes no progress. The new ids are in the order of
      the names, and each file of the merged index has the trigrams it had in the index it comes from. */
  method Merge(ix1: Index, ix2: Index, names1: seq<Str>, names2: seq<Str>, roots: seq<Str>, front: Str, middle: Str, trailer: Str,
               ghost ps1: seq<Posting>, ghost ps2: seq<Posting>)
    returns (consistent: bool, outcome: Outcome, file: Index, ghost ps: seq<Posting>, ghost origin: seq<Origin>)
    requires Readable(ix1, ps1) && Readable(ix2, ps2) && |names1| + |names2| < MaxDelta
    ensures AllSorted(names1, names2, roots) ==> (consistent <==> forall j :: 0 <= j < |names2| ==> Shadowed(roots, names2[j]))
    ensures consistent && outcome == NoProgress ==> !Mergeable(Terminators(ps1), Terminators(ps2))
    ensures consistent && outcome == TooLarge ==> Overflows(2, ps)
    ensures consistent && outcome == Complete ==>
              && Mergeable(Terminators(ps1), Terminators(ps2))
              && Indexed(file, ps) && Readable(file, ps) && file.numName == |origin|
    ensures consistent ==> Terminators(ps) == 1 + Larger(Terminators(ps1), Terminators(ps2))
    ensures consistent ==> Traced(names1, names2, roots, origin)
    ensures consistent ==> Sorted(ps) && forall n :: 0 <= n < |origin| ==>
              Document(ps, n) == Document(if origin[n].first then ps1 else ps2, origin[n].id)
    ensures consistent && AllSorted(names1, names2, roots) ==> NamesAscend(names1, names2, origin)
  {
    file, outcome, ps := Index(2, [], 0, 0, 0, 0, 0), NoProgress, [];
    var map1, map2, numName;
    consistent, map1, map2, numName, origin := BuildMaps(names1, names2, roots);
    if consistent {
      hide Indexed, Tabled, Mergeable, AllSorted, Shadowed, NamesAscend, Document, Traced;
      OriginsApart(map1, map2, origin);
      outcome, file, ps := MergeIndexes(ix1, ix2, map1, map2, numName, front, middle, trailer, ps1, ps2);
    }
  }

  /** An index that can be read in order. */
  ghost predicate Readable(ix: Index, ps: seq<Posting>) {
    Tabled(ix, ps) && Sorted(ps) && Positive(ps) && EmptyInvalid(ps) && AllSmall(ps)
  }

  lemma {:induction false} NoTerminators(lists: seq<Posting>)
    requires forall i :: 0 <= i < |lists| ==> lists[i].trigram != InvalidTrigram
    ensures Terminators(lists) == 0
  {
    if lists != [] {
      NoTerminators(lists[1..]);
    }
  }

  /** An index that was built from files can be merged, once: with another such index or with the result of
      one merge. */
  lemma BuiltIsReadable(file: Index, ps: seq<Posting>)
    requires Tabled(file, ps) && Terminated(ps)
    ensures Readable(file, ps) && Terminators(ps) == 1 && Mergeable(1, 1) && Mergeable(1, 2) && !Mergeable(1, 3) && !Mergeable(2, 2)
  {
    var lists :| Groups(lists) && ps == Closed(lists);
    assert forall i :: 0 <= i < |lists| ==> GroupOk(lists[i]) && ps[i] == lists[i];
    ClosedSorted(lists);
    NoTerminators(lists);
    TerminatorsOf(lists, Posting(InvalidTrigram, []));
  }
}
