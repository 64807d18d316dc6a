/** Searching files one after the other (SearchCompiled of internal/index/index.go). */
module Search {
  import opened Bytes
  import opened RegexpSyntax
  import opened ByteProgram
  import opened Lines
  import opened LazyDfa
  import opened Grep

  /** The source files of an index: the name of each file id, and what reading a name gives, if it can be read. */
  datatype Store = Store(name: int -> Str, read: Str -> Option<Str>)

  datatype Options = Options(fre: Option<Str -> bool>, excludeFre: Option<Str -> bool>, offset: int, limit: int, maxResults: int)

  datatype FileMatch = FileMatch(filename: Str, matches: seq<FileLine>)

  /** The results so far and the counters of the loop. */
  datatype Tally = Tally(results: seq<FileMatch>, filesOpened: nat, filesFound: nat, filesCollected: nat, matchesCollected: nat)

  const NothingYet := Tally([], 0, 0, 0, 0)

  // --------------------------------------------------------------------- names

  const SourceDir: Str := [47, 115, 111, 117, 114, 99, 101, 47]

  /** What follows the first occurrence of sep, if there is one (strings.Cut). */
  function AfterFirst(w: Str, sep: Str): Option<Str> {
    if IsPrefix(sep, w) then Some(w[|sep|..]) else if w == [] then None else AfterFirst(w[1..], sep)
  }

  /** The part of a path below the directory "/source/". */
  function RelName(name: Str): Str {
    match AfterFirst(name, SourceDir)
    case None => name
    case Some(rest) => rest
  }

  function Passes(opt: Options, name: Str): bool {
    (opt.fre.Some? ==> opt.fre.value(name)) && (opt.excludeFre.Some? ==> !opt.excludeFre.value(name))
  }

  // ---------------------------------------------------------------------- loop

  function Limited(max: int): nat {
    if max < 0 then 0 else max
  }

  /** The matching lines of a text, at most max of them. */
  ghost function Hits(accept: Line -> bool, buf: Str, max: int): seq<FileLine> {
    GrepLines(Selector(accept, buf), buf, 0, 1, Limited(max))
  }

  /** What a file with matches changes. */
  function Collect(opt: Options, t: Tally, name: Str, matches: seq<FileLine>): Tally {
    if matches == [] then t
    else if t.filesFound + 1 <= opt.offset || (opt.limit > 0 && t.filesCollected >= opt.limit) then
      t.(filesFound := t.filesFound + 1)
    else
      t.(filesFound := t.filesFound + 1, filesCollected := t.filesCollected + 1,
         matchesCollected := t.matchesCollected + |matches|, results := t.results + [FileMatch(RelName(name), matches)])
  }

  ghost function Visit(accept: Line -> bool, store: Store, opt: Options, t: Tally, id: int): Tally {
    var name := store.name(id);
    if !Passes(opt, name) then t
    else
      var looked := t.(filesOpened := t.filesOpened + 1);
      match store.read(name)
      case None => looked
      case Some(buf) => Collect(opt, looked, name, Hits(accept, buf, opt.maxResults - t.matchesCollected))
  }

  /** Visits the files in order until there are enough matches. */
  ghost function Scan(accept: Line -> bool, store: Store, opt: Options, ids: seq<int>, t: Tally): Tally {
    if ids == [] || t.matchesCollected >= opt.maxResults then t
    else Scan(accept, store, opt, ids[1..], Visit(accept, store, opt, t, ids[0]))
  }

  method VisitFile(store: Store, opt: Options, id: int, re: Matcher, t: Tally) returns (u: Tally)
    requires re.Valid()
    modifies re`dstate, re.z1, re.z1.q, re.z1.q.sparse, re.z2, re.z2.q, re.z2.q.sparse, re.dstate.Values`next
    ensures re.Valid() && re.Grown()
    ensures u == Visit(Accepting(re.prog), store, opt, t, id)
  {
    hide Matcher.Valid;
    u := t;
    var name := store.name(id);
    if opt.fre.Some? && !opt.fre.value(name) {
      return;
    }
    if opt.excludeFre.Some? && opt.excludeFre.value(name) {
      return;
    }
    u := u.(filesOpened := u.filesOpened + 1);
    var data := store.read(name);
    if data.None? {
      return;
    }
    var matches := GrepData(data.value, re, opt.maxResults - t.matchesCollected);
    if |matches| > 0 {
      u := u.(filesFound := u.filesFound + 1);
      if u.filesFound <= opt.offset {
        return;
      }
      if opt.limit > 0 && u.filesCollected >= opt.limit {
        return;
      }
      u := u.(filesCollected := u.filesCollected + 1, matchesCollected := u.matchesCollected + |matches|,
              results := u.results + [FileMatch(RelName(name), matches)]);
    }
  }

  method SearchFiles(files: seq<int>, store: Store, opt: Options, re: Matcher) returns (t: Tally)
    requires re.Valid()
    modifies re`dstate, re.z1, re.z1.q, re.z1.q.sparse, re.z2, re.z2.q, re.z2.q.sparse, re.dstate.Values`next
    ensures re.Valid() && re.Grown()
    ensures t == Scan(Accepting(re.prog), store, opt, files, NothingYet)
  {
    hide Matcher.Valid;
    t := NothingYet;
    ghost var accept := Accepting(re.prog);
    for k := 0 to |files|
      invariant re.Valid() && re.Grown()
      invariant Scan(accept, store, opt, files, NothingYet) == Scan(accept, store, opt, files[k..], t)
    {
      assert files[k..][1..] == files[k + 1..];
      if t.matchesCollected >= opt.maxResults {
        break;
      }
      t := VisitFile(store, opt, files[k], re, t);
    }
  }

  // -------------------------------------------------- leaving out files without matches

  /** The file yields nothing: it is filtered out, cannot be read, or has no accepted line. */
  ghost predicate Barren(accept: Line -> bool, store: Store, opt: Options, id: int) {
    var name := store.name(id);
    Passes(opt, name) && store.read(name).Some? ==>
      forall s: nat :: StartsLine(store.read(name).value, s) ==> !Selector(accept, store.read(name).value)(s)
  }

  /** Everything but the number of files that were read. */
  function Findings(t: Tally): Tally {
    t.(filesOpened := 0)
  }

  lemma VisitBarren(accept: Line -> bool, store: Store, opt: Options, t: Tally, id: int)
    requires Barren(accept, store, opt, id)
    ensures Findings(Visit(accept, store, opt, t, id)) == Findings(t)
  {
    var name := store.name(id);
    if Passes(opt, name) && store.read(name).Some? {
      var buf := store.read(name).value;
      GrepOfNothing(Selector(accept, buf), buf, 0, 1, Limited(opt.maxResults - t.matchesCollected));
    }
  }

  lemma VisitFindings(accept: Line -> bool, store: Store, opt: Options, t: Tally, t': Tally, id: int)
    requires Findings(t) == Findings(t')
    ensures Findings(Visit(accept, store, opt, t, id)) == Findings(Visit(accept, store, opt, t', id))
  {
  }

  ghost predicate Subsequence(part: seq<int>, all: seq<int>, left: int -> bool) {
    if all == [] then part == []
    else if part != [] && part[0] == all[0] then Subsequence(part[1..], all[1..], left)
    else left(all[0]) && Subsequence(part, all[1..], left)
  }

  /** Files that yield nothing can be left out of the scan: whatever the paging, the results, the number of
      files with matches, and the point where the scan stops stay the same. */
  lemma {:induction false} ScanWithoutBarren(accept: Line -> bool, store: Store, opt: Options, part: seq<int>, all: seq<int>,
                                             t: Tally, t': Tally)
    requires Subsequence(part, all, id => Barren(accept, store, opt, id)) && Findings(t) == Findings(t')
    ensures Findings(Scan(accept, store, opt, part, t)) == Findings(Scan(accept, store, opt, all, t'))
    decreases all
  {
    if all != [] && t.matchesCollected < opt.maxResults {
      var next := Visit(accept, store, opt, t', all[0]);
      if part != [] && part[0] == all[0] {
        VisitFindings(accept, store, opt, t, t', all[0]);
        ScanWithoutBarren(accept, store, opt, part[1..], all[1..], Visit(accept, store, opt, t, part[0]), next);
      } else {
        VisitBarren(accept, store, opt, t', all[0]);
        ScanWithoutBarren(accept, store, opt, part, all[1..], t, next);
      }
    }
  }

  predicate Ascending(s: seq<int>) {
    forall i, j :: 0 <= i < j < |s| ==> s[i] < s[j]
  }

  lemma {:induction false} AscendingSubsequence(part: seq<int>, all: seq<int>, left: int -> bool)
    requires Ascending(part) && Ascending(all) && (forall x :: x in part ==> x in all)
    requires forall x :: x in all && x !in part ==> left(x)
    ensures Subsequence(part, all, left)
  {
    assert part == [] || part[0] in part;
    if all != [] && part != [] && part[0] == all[0] {
      assert forall x :: x in part[1..] ==> x in part && x > part[0];
      AscendingSubsequence(part[1..], all[1..], left);
    } else if all != [] {
      assert part != [] ==> part[0] in all && part[0] > all[0];
      assert forall x :: x in part ==> x > all[0];
      AscendingSubsequence(part, all[1..], left);
    }
  }

  // -------------------------------------------------------------- what a scan yields

  function Take<T>(s: seq<T>, n: int): seq<T> {
    if n <= 0 then [] else if n < |s| then s[..n] else s
  }

  function Drop<T>(s: seq<T>, n: int): seq<T> {
    if n <= 0 then s else if n < |s| then s[n..] else []
  }

  lemma {:induction false} GrepBounded(sel: nat -> bool, buf: Str, pos: nat, lineno: nat, max: nat)
    requires pos <= |buf|
    ensures |GrepLines(sel, buf, pos, lineno, max)| <= |buf| - pos
    decreases |buf| - pos
  {
    if pos < |buf| && max > 0 {
      var next := NextLine(buf, pos);
      GrepBounded(sel, buf, next, lineno + 1, if sel(pos) then max - 1 else max);
    }
  }

  lemma TakeOne<T>(x: T, s: seq<T>, n: int)
    requires n > 0
    ensures Take([x] + s, n) == [x] + Take(s, n - 1)
  {
  }

  /** A limit only cuts the list of matching lines short. */
  lemma {:induction false} GrepCut(sel: nat -> bool, buf: Str, pos: nat, lineno: nat, max: nat, more: nat)
    requires pos <= |buf| && more >= |buf| - pos
    ensures GrepLines(sel, buf, pos, lineno, max) == Take(GrepLines(sel, buf, pos, lineno, more), max)
    decreases |buf| - pos
  {
    if pos < |buf| && max > 0 {
      var next := NextLine(buf, pos);
      if sel(pos) {
        GrepCut(sel, buf, next, lineno + 1, max - 1, more - 1);
        TakeLine(sel, buf, pos, lineno, max);
        TakeLine(sel, buf, pos, lineno, more);
        TakeOne(Reported(buf, pos, lineno), GrepLines(sel, buf, next, lineno + 1, more - 1), max);
      } else if next < |buf| {
        GrepCut(sel, buf, next, lineno + 1, max, more);
      }
    }
  }

  /** All matching lines of a file that is looked at, none of any other. */
  ghost function AllHits(accept: Line -> bool, store: Store, opt: Options, id: int): seq<FileLine> {
    var name := store.name(id);
    if Passes(opt, name) && store.read(name).Some? then Hits(accept, store.read(name).value, |store.read(name).value|) else []
  }

  /** The files that have matches, each with all of them. */
  ghost function Matching(accept: Line -> bool, store: Store, opt: Options, ids: seq<int>): seq<FileMatch> {
    if ids == [] then []
    else
      var hits := AllHits(accept, store, opt, ids[0]);
      (if hits == [] then [] else [FileMatch(RelName(store.name(ids[0])), hits)]) + Matching(accept, store, opt, ids[1..])
  }

  /** The first max matches of a list of files. */
  function Budgeted(files: seq<FileMatch>, max: int): seq<FileMatch> {
    if files == [] || max <= 0 then []
    else [FileMatch(files[0].filename, Take(files[0].matches, max))] + Budgeted(files[1..], max - |Take(files[0].matches, max)|)
  }

  function Page(files: seq<FileMatch>, offset: int, limit: int, unlimited: bool): seq<FileMatch> {
    if unlimited then Drop(files, offset) else Take(Drop(files, offset), limit)
  }

  function MatchCount(files: seq<FileMatch>): nat {
    if files == [] then 0 else |files[0].matches| + MatchCount(files[1..])
  }

  lemma VisitMeans(accept: Line -> bool, store: Store, opt: Options, t: Tally, id: int)
    requires t.matchesCollected < opt.maxResults
    ensures var hits := AllHits(accept, store, opt, id);
            Findings(Visit(accept, store, opt, t, id)) ==
            Findings(Collect(opt, t, store.name(id), Take(hits, opt.maxResults - t.matchesCollected)))
  {
    var name := store.name(id);
    if Passes(opt, name) && store.read(name).Some? {
      var buf := store.read(name).value;
      GrepCut(Selector(accept, buf), buf, 0, 1, opt.maxResults - t.matchesCollected, |buf|);
    }
  }

  lemma PageStep(files: seq<FileMatch>, offset: int, limit: int, unlimited: bool)
    requires files != []
    ensures offset > 0 ==> Page(files, offset, limit, unlimited) == Page(files[1..], offset - 1, limit, unlimited)
    ensures offset <= 0 && !unlimited && limit <= 0 ==> Page(files, offset, limit, unlimited) == []
    ensures offset <= 0 && (unlimited || limit > 0) ==>
              Page(files, offset, limit, unlimited) == [files[0]] + Page(files[1..], offset - 1, limit - 1, unlimited)
  {
  }

  /** What is left to collect from a point of the scan on. */
  function Rest(opt: Options, files: seq<FileMatch>, t: Tally): seq<FileMatch> {
    Budgeted(Page(files, opt.offset - t.filesFound, opt.limit - t.filesCollected, opt.limit <= 0),
             opt.maxResults - t.matchesCollected)
  }

  /** The counters agree with the paging: nothing is collected before the offset is passed. */
  predicate Consistent(opt: Options, t: Tally) {
    t.filesFound < opt.offset ==> t.filesCollected == 0
  }

  /** One file with matches. */
  lemma CollectStep(opt: Options, t: Tally, name: Str, hits: seq<FileLine>, later: seq<FileMatch>)
    requires hits != [] && t.matchesCollected < opt.maxResults && Consistent(opt, t)
    ensures var u := Collect(opt, t, name, Take(hits, opt.maxResults - t.matchesCollected));
            && Consistent(opt, u)
            && t.results + Rest(opt, [FileMatch(RelName(name), hits)] + later, t) == u.results + Rest(opt, later, u)
  {
    hide Budgeted, Page;
    var files := [FileMatch(RelName(name), hits)] + later;
    var max := opt.maxResults - t.matchesCollected;
    var u := Collect(opt, t, name, Take(hits, max));
    assert files[1..] == later;
    NoPage(later, opt.offset - u.filesFound, opt.limit - u.filesCollected);
    PageStep(files, opt.offset - t.filesFound, opt.limit - t.filesCollected, opt.limit <= 0);
    if t.filesFound >= opt.offset && (opt.limit <= 0 || t.filesCollected < opt.limit) {
      var page := Page(later, opt.offset - u.filesFound, opt.limit - u.filesCollected, opt.limit <= 0);
      BudgetedStep(files[0], page, max);
    }
  }

  lemma NoPage(files: seq<FileMatch>, offset: int, limit: int)
    ensures limit <= 0 ==> Page(files, offset, limit, false) == []
  {
  }

  lemma BudgetedStep(file: FileMatch, later: seq<FileMatch>, max: int)
    requires max > 0
    ensures Budgeted([file] + later, max) ==
            [FileMatch(file.filename, Take(file.matches, max))] + Budgeted(later, max - |Take(file.matches, max)|)
  {
    hide Take;
    assert ([file] + later)[1..] == later;
  }

  lemma RestStep(accept: Line -> bool, store: Store, opt: Options, ids: seq<int>, t: Tally)
    requires ids != [] && t.matchesCollected < opt.maxResults && Consistent(opt, t)
    ensures var u := Visit(accept, store, opt, t, ids[0]);
            && Consistent(opt, u)
            && t.results + Rest(opt, Matching(accept, store, opt, ids), t) ==
               u.results + Rest(opt, Matching(accept, store, opt, ids[1..]), u)
  {
    hide Visit, AllHits, Budgeted, Page;
    var hits, later := AllHits(accept, store, opt, ids[0]), Matching(accept, store, opt, ids[1..]);
    VisitMeans(accept, store, opt, t, ids[0]);
    if hits == [] {
      assert [] + later == later;
    } else {
      CollectStep(opt, t, store.name(ids[0]), hits, later);
    }
  }

  /** The results of a scan are the page that offset and limit select from the files with matches, cut off
      after maxResults matches; unless it is cut off, FilesWithMatch counts all files with matches. */
  lemma {:induction false} ScanMeans(accept: Line -> bool, store: Store, opt: Options, ids: seq<int>, t: Tally)
    requires Consistent(opt, t)
    ensures var r := Scan(accept, store, opt, ids, t);
            && r.results == t.results + Rest(opt, Matching(accept, store, opt, ids), t)
            && (r.matchesCollected < opt.maxResults ==> r.filesFound == t.filesFound + |Matching(accept, store, opt, ids)|)
            && r.filesFound <= t.filesFound + |Matching(accept, store, opt, ids)|
  {
    if ids != [] && t.matchesCollected < opt.maxResults {
      RestStep(accept, store, opt, ids, t);
      VisitMeans(accept, store, opt, t, ids[0]);
      ScanMeans(accept, store, opt, ids[1..], Visit(accept, store, opt, t, ids[0]));
    }
  }
}
