/** Searching through the index (CompileSearch and SearchCompiled of internal/index/index.go, with
    RegexpQuery and PostingQuery of internal/codesearch/index): the index never loses a match. */
module IndexedSearch {
  import opened Bytes
  import opened PostingLists
  import opened PostingIndex
  import opened ByteProgram
  import opened Lines
  import R = RegexpSyntax
  import Q = Queries
  import Analysis
  import StorageReuse
  import SliceAnalysis
  import PostingReader
  import LazyDfa
  import Grep
  import Search
  import SearchLaws
  import IndexFiles

  ghost predicate ContainsMatch(re: R.Regexp, orbit: R.Orbit, buf: Str)
    requires R.WellFormed(re)
  {
    exists i: nat, j: nat :: i <= j <= |buf| && R.Matches(re, buf, i, j, orbit)
  }

  /** The program accepts only lines of texts that contain a match of the regexp it was compiled from. */
  ghost predicate Compiled(prog: Prog, re: R.Regexp, orbit: R.Orbit)
    requires R.WellFormed(re)
  {
    forall buf, ls: nat, le: nat :: Selected(Accepting(prog), buf, ls, le, true, true) ==> ContainsMatch(re, orbit, buf)
  }

  /** The files still have the trigrams that the index knows of them. */
  ghost predicate Unchanged(ix: Index, ps: seq<Posting>, store: Search.Store)
    requires Sorted(ps)
  {
    forall id: nat | id < ix.numName :: HasItsTrigrams(ps, store, id)
  }

  ghost predicate HasItsTrigrams(ps: seq<Posting>, store: Search.Store, id: nat)
    requires Sorted(ps)
  {
    store.read(store.name(id)).Some? ==> Trigrams(store.read(store.name(id)).value) <= Document(ps, id)
  }

  /** An index that was built from the files knows their trigrams, as long as each file still has its contents
      or cannot be read. */
  lemma BuiltUnchanged(ix: Index, ps: seq<Posting>, contents: seq<Str>, store: Search.Store)
    requires IndexFiles.Exact(contents, ps) && ix.numName == |contents|
    requires forall id: nat :: id < |contents| ==> store.read(store.name(id)) in {None, Some(contents[id])}
    ensures Unchanged(ix, ps, store)
  {
    forall id: nat | id < ix.numName
      ensures HasItsTrigrams(ps, store, id)
    {
      assert Document(ps, id) == Trigrams(contents[id]);
    }
  }

  ghost predicate Necessary(q: Q.Query, re: R.Regexp, orbit: R.Orbit)
    requires R.WellFormed(re)
  {
    forall text, i: nat, j: nat | i <= j <= |text| :: R.Matches(re, text, i, j, orbit) ==> Q.Eval(q, Trigrams(text))
  }

  /** A file that the query rules out has no line that the program accepts. */
  lemma RuledOut(prog: Prog, re: R.Regexp, orbit: R.Orbit, q: Q.Query, ps: seq<Posting>, store: Search.Store,
                 opt: Search.Options, id: nat)
    requires R.WellFormed(re) && Compiled(prog, re, orbit) && Necessary(q, re, orbit) && Q.WellFormed(q)
    requires Sorted(ps) && HasItsTrigrams(ps, store, id) && !Q.Eval(q, Document(ps, id))
    ensures Search.Barren(Accepting(prog), store, opt, id)
  {
    var data := store.read(store.name(id));
    if data.Some? {
      forall s: nat | Grep.StartsLine(data.value, s)
        ensures !Grep.Selector(Accepting(prog), data.value)(s)
      {
        var le := Grep.LineEnd(data.value, s);
        Grep.SelectedIsSel(Accepting(prog), data.value, s, le);
        if Selected(Accepting(prog), data.value, s, le, true, true) {
          assert ContainsMatch(re, orbit, data.value);
          Q.EvalMonotone(q, Trigrams(data.value), Document(ps, id));
        }
      }
    }
  }

  function AllIds(n: nat): seq<int> {
    seq(n, i => i)
  }

  lemma CandidatesSuffice(prog: Prog, re: R.Regexp, orbit: R.Orbit, q: Q.Query, ix: Index, ps: seq<Posting>,
                          store: Search.Store, opt: Search.Options, ids: seq<int>)
    requires R.WellFormed(re) && Compiled(prog, re, orbit) && Necessary(q, re, orbit) && Q.WellFormed(q)
    requires Sorted(ps) && Unchanged(ix, ps, store) && Search.Ascending(ids)
    requires forall v :: v in ids <==> 0 <= v < ix.numName && Q.Eval(q, Document(ps, v))
    ensures Search.Findings(Search.Scan(Accepting(prog), store, opt, ids, Search.NothingYet)) ==
            Search.Findings(Search.Scan(Accepting(prog), store, opt, AllIds(ix.numName), Search.NothingYet))
  {
    var all, left := AllIds(ix.numName), id => Search.Barren(Accepting(prog), store, opt, id);
    assert forall x :: x in all ==> 0 <= x < ix.numName;
    forall x | 0 <= x < ix.numName
      ensures x in all
    {
      assert all[x] == x;
    }
    forall x | x in all && x !in ids
      ensures left(x)
    {
      assert HasItsTrigrams(ps, store, x);
      RuledOut(prog, re, orbit, q, ps, store, opt, x);
    }
    Search.AscendingSubsequence(ids, all, left);
    Search.ScanWithoutBarren(Accepting(prog), store, opt, ids, all, Search.NothingYet, Search.NothingYet);
  }

  /** A search over the candidates of the index has the results and the number of files of a search over
      all indexed files, for any offset, limit, maximum and file name filters. */
  method SearchCompiled(ix: Index, re: R.Regexp, orbit: R.Orbit, m: LazyDfa.Matcher, store: Search.Store,
                        opt: Search.Options, ghost ps: seq<Posting>) returns (t: Search.Tally)
    requires Indexed(ix, ps) && Unchanged(ix, ps, store)
    requires m.Valid() && R.WellFormed(re) && Compiled(m.prog, re, orbit)
    modifies m`dstate, m.z1, m.z1.q, m.z1.q.sparse, m.z2, m.z2.q, m.z2.q.sparse, m.dstate.Values`next
    ensures m.Valid()
    ensures Search.Findings(t) ==
            Search.Findings(Search.Scan(Accepting(m.prog), store, opt, AllIds(ix.numName), Search.NothingYet))
    ensures FindsAll(Accepting(m.prog), store, opt, ix.numName, t)
  {
    hide LazyDfa.Matcher.Valid, FindsAll;
    var q, _ := Analysis.RegexpQuery(re, orbit);
    var files := PostingReader.PostingQuery(ix, q, PostingReader.Nil, ps);
    var ids := if files.Nil? then [] else files.arr[files.lo..files.hi];
    assert ids == PostingReader.Items(files);
    CandidatesSuffice(m.prog, re, orbit, q, ix, ps, store, opt, ids);
    t := Search.SearchFiles(ids, store, opt, m);
    AllFound(Accepting(m.prog), store, opt, ix.numName, t);
  }

  /** The tally answers the search over the first n files, with the files found in ascending order. */
  ghost predicate FindsAll(accept: Line -> bool, store: Search.Store, opt: Search.Options, n: nat, t: Search.Tally) {
    exists found :: SearchLaws.Answers(accept, store, opt, AllIds(n), t, found)
  }

  lemma AllFound(accept: Line -> bool, store: Search.Store, opt: Search.Options, n: nat, t: Search.Tally)
    requires Search.Findings(t) == Search.Findings(Search.Scan(accept, store, opt, AllIds(n), Search.NothingYet))
    ensures FindsAll(accept, store, opt, n, t)
  {
    hide Search.Scan, SearchLaws.IsResult, SearchLaws.IsWhole, SearchLaws.ArePlaces, Search.MatchCount;
    var found := SearchLaws.ScanAnswers(accept, store, opt, AllIds(n));
    assert SearchLaws.Answers(accept, store, opt, AllIds(n), t, found);
  }

  /** The same search with the query that is made on slices: no match is lost as long as no alternation of the regexp
      finds room behind an exact set for the prefixes of its other side. */
  method SearchInPlace(ix: Index, re: R.Regexp, orbit: R.Orbit, grow: StorageReuse.Growth, m: LazyDfa.Matcher, store: Search.Store,
                       opt: Search.Options, ghost ps: seq<Posting>) returns (t: Search.Tally)
    requires Indexed(ix, ps) && Unchanged(ix, ps, store)
    requires m.Valid() && R.WellFormed(re) && Compiled(m.prog, re, orbit)
    modifies m`dstate, m.z1, m.z1.q, m.z1.q.sparse, m.z2, m.z2.q, m.z2.q.sparse, m.dstate.Values`next
    ensures m.Valid()
    ensures SliceAnalysis.RoomFree(re, orbit, grow, false) ==>
              Search.Findings(t) ==
              Search.Findings(Search.Scan(Accepting(m.prog), store, opt, AllIds(ix.numName), Search.NothingYet)) &&
              FindsAll(Accepting(m.prog), store, opt, ix.numName, t)
  {
    hide LazyDfa.Matcher.Valid, SliceAnalysis.RoomFree, R.Matches, Q.Eval, FindsAll;
    var q := SliceAnalysis.RegexpQueryInPlace(re, orbit, grow);
    var files := PostingReader.PostingQuery(ix, q, PostingReader.Nil, ps);
    var ids := if files.Nil? then [] else files.arr[files.lo..files.hi];
    assert ids == PostingReader.Items(files);
    if SliceAnalysis.RoomFree(re, orbit, grow, false) {
      CandidatesSuffice(m.prog, re, orbit, q, ix, ps, store, opt, ids);
    }
    t := Search.SearchFiles(ids, store, opt, m);
    if SliceAnalysis.RoomFree(re, orbit, grow, false) {
      AllFound(Accepting(m.prog), store, opt, ix.numName, t);
    }
  }
}
