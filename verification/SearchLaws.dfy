/** What a search over a list of files finds, told by the names and the contents of the files (SearchCompiled of
    internal/index/index.go). */
module SearchLaws {
  import opened Bytes
  import opened RegexpSyntax
  import opened ByteProgram
  import opened Lines
  import opened Grep
  import opened Search

  // --------------------------------------------------------------------- names

  predicate Spells(w: Str, text: string) {
    |w| == |text| && forall i :: 0 <= i < |w| ==> w[i] == text[i] as int
  }

  /** The directory "/source/" stands at position k of a path. */
  predicate SourceAt(name: Str, k: nat) {
    k + 8 <= |name| && Spells(name[k..k + 8], "/source/")
  }

  /** The path is what follows the first "/source/" of the name, or the name if there is none. */
  ghost predicate IsRelative(name: Str, path: Str) {
    || (path == name && forall k: nat :: !SourceAt(name, k))
    || (exists k: nat :: SourceAt(name, k) && path == name[k + 8..] && forall j: nat :: j < k ==> !SourceAt(name, j))
  }

  lemma SourceIsPrefix(w: Str)
    ensures IsPrefix(SourceDir, w) <==> SourceAt(w, 0)
  {
    assert Spells(SourceDir, "/source/");
    if |w| >= 8 {
      assert w[0..8] == w[..8];
      if SourceAt(w, 0) {
        assert forall i :: 0 <= i < 8 ==> w[0..8][i] == SourceDir[i];
      }
    }
  }

  lemma SourceLater(w: Str, k: nat)
    requires w != []
    ensures SourceAt(w, k + 1) <==> SourceAt(w[1..], k)
  {
    hide Spells;
    if k + 9 <= |w| {
      assert w[k + 1..k + 9] == w[1..][k..k + 8];
    }
  }

  lemma {:induction false} AfterFirstMeans(w: Str)
    ensures var rest := AfterFirst(w, SourceDir);
            && (rest.None? ==> forall k: nat :: !SourceAt(w, k))
            && (rest.Some? ==> exists k: nat :: SourceAt(w, k) && rest.value == w[k + 8..] && forall j: nat :: j < k ==> !SourceAt(w, j))
  {
    SourceIsPrefix(w);
    if !SourceAt(w, 0) && w != [] {
      AfterFirstMeans(w[1..]);
      forall k: nat
        ensures SourceAt(w, k + 1) <==> SourceAt(w[1..], k)
      {
        SourceLater(w, k);
      }
      var rest := AfterFirst(w[1..], SourceDir);
      if rest.None? {
        forall k: nat
          ensures !SourceAt(w, k)
        {
          assert k > 0 ==> !SourceAt(w[1..], k - 1);
        }
      } else {
        var k: nat :| SourceAt(w[1..], k) && rest.value == w[1..][k + 8..] && forall j: nat :: j < k ==> !SourceAt(w[1..], j);
        assert w[1..][k + 8..] == w[k + 1 + 8..];
        forall j: nat | j < k + 1
          ensures !SourceAt(w, j)
        {
          assert j > 0 ==> !SourceAt(w[1..], j - 1);
        }
        assert SourceAt(w, k + 1);
      }
    }
  }

  lemma RelNameMeans(name: Str)
    ensures IsRelative(name, RelName(name))
  {
    AfterFirstMeans(name);
  }

  // --------------------------------------------------------------- the files found

  /** The file is looked at: the filters let its name pass, and it can be read. */
  ghost predicate Readable(store: Store, opt: Options, id: int) {
    var name := store.name(id);
    && (opt.fre.None? || opt.fre.value(name))
    && (opt.excludeFre.None? || !opt.excludeFre.value(name))
    && store.read(name).Some?
  }

  /** A file that is looked at and has an accepted line. */
  ghost predicate HasMatch(accept: Line -> bool, store: Store, opt: Options, id: int) {
    && Readable(store, opt, id)
    && var buf := store.read(store.name(id)).value;
       buf != [] && exists ls: nat, le: nat :: Selected(accept, buf, ls, le, true, true)
  }

  /** A result for a file: its path, and reports of its first accepted lines, one at least. */
  ghost predicate IsResult(accept: Line -> bool, store: Store, opt: Options, id: int, file: FileMatch) {
    && Readable(store, opt, id)
    && IsRelative(store.name(id), file.filename)
    && file.matches != []
    && var buf := store.read(store.name(id)).value;
       AreReports(Selector(accept, buf), buf, 0, 1, file.matches) && FirstReported(Selector(accept, buf), buf, file.matches)
  }

  /** The result reports each accepted line of the file that is not empty and last. */
  ghost predicate IsWhole(accept: Line -> bool, store: Store, opt: Options, id: int, file: FileMatch) {
    && Readable(store, opt, id)
    && var buf := store.read(store.name(id)).value;
       AllReported(Selector(accept, buf), buf, file.matches)
  }

  /** The places from lo on where the list has what is asked for, in order. */
  ghost predicate ArePlaces(has: int -> bool, ids: seq<int>, lo: nat, found: seq<nat>) {
    && (forall j, k :: 0 <= j < k < |found| ==> found[j] < found[k])
    && (forall k :: 0 <= k < |found| ==> lo <= found[k] < |ids| && has(ids[found[k]]))
    && forall i :: lo <= i < |ids| && has(ids[i]) ==> i in found
  }

  ghost function Matches(accept: Line -> bool, store: Store, opt: Options): int -> bool {
    id => HasMatch(accept, store, opt, id)
  }

  function Max(a: int, b: int): int {
    if a < b then b else a
  }

  function Min(a: int, b: int): int {
    if a < b then a else b
  }

  /** How many of the files with matches a search returns that is not cut off. */
  function PageSize(opt: Options, found: nat): int {
    var left := Max(0, found - Max(0, opt.offset));
    if opt.limit > 0 then Min(opt.limit, left) else left
  }

  /** The results are those of the files with matches behind the offset. There are never more than maxResults matches,
      and unless there are as many the results are whole, there are as many as the limit allows, and all files with
      matches are counted. */
  ghost predicate Answers(accept: Line -> bool, store: Store, opt: Options, ids: seq<int>, t: Tally, found: seq<nat>) {
    var skipped := Max(0, opt.offset);
    && ArePlaces(Matches(accept, store, opt), ids, 0, found)
    && |t.results| <= PageSize(opt, |found|)
    && (forall k | 0 <= k < |t.results| :: IsResult(accept, store, opt, ids[found[skipped + k]], t.results[k]))
    && t.filesCollected == |t.results| && t.filesFound <= |found|
    && t.matchesCollected == MatchCount(t.results) <= Max(0, opt.maxResults)
    && (t.matchesCollected < opt.maxResults ==>
          && |t.results| == PageSize(opt, |found|)
          && t.filesFound == |found|
          && forall k | 0 <= k < |t.results| :: IsWhole(accept, store, opt, ids[found[skipped + k]], t.results[k]))
  }

  // --------------------------------------------------------------- one file

  lemma {:induction false} SomeHit(sel: nat -> bool, buf: Str, pos: nat, lineno: nat, max: nat, s: nat)
    requires StartsLine(buf, pos) && pos < |buf| && pos <= s && StartsLine(buf, s) && sel(s) && max > 0
    ensures GrepLines(sel, buf, pos, lineno, max) != []
    decreases |buf| - pos
  {
    if !sel(pos) {
      NextStart(buf, pos, s);
      if NextLine(buf, pos) < |buf| {
        SomeHit(sel, buf, NextLine(buf, pos), lineno + 1, max, s);
      }
    }
  }

  /** With a limit as large as the text all of its lines are reported. */
  lemma AllLines(sel: nat -> bool, buf: Str)
    ensures AllReported(sel, buf, GrepLines(sel, buf, 0, 1, |buf|))
  {
    hide GrepLines, AllReported, FirstReported, AreReports;
    AllReports(sel, buf, |buf| + 1);
    GrepBounded(sel, buf, 0, 1, |buf| + 1);
    GrepCut(sel, buf, 0, 1, |buf|, |buf| + 1);
  }

  lemma NoLine(sel: nat -> bool, buf: Str)
    ensures GrepLines(sel, buf, 0, 1, |buf|) != [] <==> buf != [] && exists s: nat :: StartsLine(buf, s) && sel(s)
  {
    hide GrepLines;
    GrepBounded(sel, buf, 0, 1, |buf|);
    if buf != [] {
      if s: nat :| StartsLine(buf, s) && sel(s) {
        SomeHit(sel, buf, 0, 1, |buf|, s);
      } else {
        GrepOfNothing(sel, buf, 0, 1, |buf|);
      }
    }
  }

  lemma SomeSelected(accept: Line -> bool, buf: Str)
    ensures (exists ls: nat, le: nat :: Selected(accept, buf, ls, le, true, true)) <==>
            exists s: nat :: StartsLine(buf, s) && Selector(accept, buf)(s)
  {
    hide Selector, LineEnd;
    if ls: nat, le: nat :| Selected(accept, buf, ls, le, true, true) {
      SelectedIsSel(accept, buf, ls, le);
    }
    if s: nat :| StartsLine(buf, s) && Selector(accept, buf)(s) {
      SelectedIsSel(accept, buf, s, LineEnd(buf, s));
    }
  }

  /** A text has hits exactly if it has an accepted line, and then they are the reports of these lines. */
  lemma HitsMean(accept: Line -> bool, buf: Str)
    ensures var sel, hits := Selector(accept, buf), Hits(accept, buf, |buf|);
            && (hits != [] <==> buf != [] && exists ls: nat, le: nat :: Selected(accept, buf, ls, le, true, true))
            && AreReports(sel, buf, 0, 1, hits) && FirstReported(sel, buf, hits) && AllReported(sel, buf, hits)
  {
    hide GrepLines, AreReports, FirstReported, AllReported, Selected, Selector;
    var sel := Selector(accept, buf);
    AllReports(sel, buf, |buf|);
    AllLines(sel, buf);
    NoLine(sel, buf);
    SomeSelected(accept, buf);
  }

  // ------------------------------------------------------------- files with matches

  function FileOf(store: Store, id: int, hits: seq<FileLine>): FileMatch {
    FileMatch(RelName(store.name(id)), hits)
  }

  lemma OneFile(accept: Line -> bool, store: Store, opt: Options, id: int)
    ensures var hits := AllHits(accept, store, opt, id);
            && (hits != [] <==> HasMatch(accept, store, opt, id))
            && (hits != [] ==> IsResult(accept, store, opt, id, FileOf(store, id, hits)) &&
                               IsWhole(accept, store, opt, id, FileOf(store, id, hits)))
  {
    hide Hits, AreReports, FirstReported, AllReported, Selector, RelName, IsRelative;
    var name := store.name(id);
    RelNameMeans(name);
    if store.read(name).Some? {
      HitsMean(accept, store.read(name).value);
    }
  }

  ghost predicate IsWholeResult(accept: Line -> bool, store: Store, opt: Options, id: int, file: FileMatch) {
    IsResult(accept, store, opt, id, file) && IsWhole(accept, store, opt, id, file)
  }

  ghost function Results(accept: Line -> bool, store: Store, opt: Options): (int, FileMatch) -> bool {
    (id, file) => IsWholeResult(accept, store, opt, id, file)
  }

  /** All files with matches from a place of the list on: each stands for its place. */
  ghost predicate Lists(has: int -> bool, result: (int, FileMatch) -> bool, ids: seq<int>, lo: nat, files: seq<FileMatch>, found: seq<nat>) {
    && ArePlaces(has, ids, lo, found) && |files| == |found|
    && forall k :: 0 <= k < |files| ==> result(ids[found[k]], files[k])
  }

  lemma NoMorePlaces(has: int -> bool, result: (int, FileMatch) -> bool, ids: seq<int>, lo: nat, files: seq<FileMatch>, found: seq<nat>)
    requires lo < |ids| && !has(ids[lo]) && Lists(has, result, ids, lo + 1, files, found)
    ensures Lists(has, result, ids, lo, files, found)
  {
  }

  lemma OneMorePlace(has: int -> bool, result: (int, FileMatch) -> bool, ids: seq<int>, lo: nat, files: seq<FileMatch>, found: seq<nat>,
                     file: FileMatch)
    requires lo < |ids| && has(ids[lo]) && result(ids[lo], file) && Lists(has, result, ids, lo + 1, files, found)
    ensures Lists(has, result, ids, lo, [file] + files, [lo] + found)
  {
    PlaceInFront(has, ids, lo, found);
    hide ArePlaces;
    var all, more := [lo] + found, [file] + files;
    forall k | 0 <= k < |more|
      ensures result(ids[all[k]], more[k])
    {
      if k > 0 {
        assert all[k] == found[k - 1] && more[k] == files[k - 1];
      }
    }
  }

  lemma PlaceInFront(has: int -> bool, ids: seq<int>, lo: nat, found: seq<nat>)
    requires lo < |ids| && has(ids[lo]) && ArePlaces(has, ids, lo + 1, found)
    ensures ArePlaces(has, ids, lo, [lo] + found) && forall k :: 0 <= k < |[lo] + found| ==> ([lo] + found)[k] < |ids|
  {
    var all := [lo] + found;
    forall j, k | 0 <= j < k < |all|
      ensures all[j] < all[k]
    {
      assert all[k] == found[k - 1] && (j > 0 ==> all[j] == found[j - 1]);
    }
    forall k | 0 <= k < |all|
      ensures lo <= all[k] < |ids| && has(ids[all[k]])
    {
      assert k > 0 ==> all[k] == found[k - 1];
    }
    forall i | lo <= i < |ids| && has(ids[i])
      ensures i in all
    {
      assert i > lo ==> i in found;
    }
  }

  lemma {:induction false} MatchingLists(accept: Line -> bool, store: Store, opt: Options, ids: seq<int>, lo: nat) returns (found: seq<nat>)
    requires lo <= |ids|
    ensures Lists(Matches(accept, store, opt), Results(accept, store, opt), ids, lo, Matching(accept, store, opt, ids[lo..]), found)
    decreases |ids| - lo
  {
    hide HasMatch, IsWholeResult, AllHits, Lists, RelName;
    var has, result := Matches(accept, store, opt), Results(accept, store, opt);
    if lo == |ids| {
      found := [];
      NoPlaces(has, result, ids);
    } else {
      var later := Matching(accept, store, opt, ids[lo + 1..]);
      found := MatchingLists(accept, store, opt, ids, lo + 1);
      var id := ids[lo];
      FileListed(accept, store, opt, id);
      MatchingStep(accept, store, opt, ids, lo);
      if has(id) {
        OneMorePlace(has, result, ids, lo, later, found, FileOf(store, id, AllHits(accept, store, opt, id)));
        found := [lo] + found;
      } else {
        NoMorePlaces(has, result, ids, lo, later, found);
      }
    }
  }

  lemma FileListed(accept: Line -> bool, store: Store, opt: Options, id: int)
    ensures AllHits(accept, store, opt, id) != [] <==> Matches(accept, store, opt)(id)
    ensures AllHits(accept, store, opt, id) != [] ==>
              Results(accept, store, opt)(id, FileOf(store, id, AllHits(accept, store, opt, id)))
  {
    hide HasMatch, IsResult, IsWhole, AllHits, RelName;
    OneFile(accept, store, opt, id);
  }

  lemma NoPlaces(has: int -> bool, result: (int, FileMatch) -> bool, ids: seq<int>)
    ensures Lists(has, result, ids, |ids|, [], [])
  {
  }

  lemma MatchingStep(accept: Line -> bool, store: Store, opt: Options, ids: seq<int>, lo: nat)
    requires lo < |ids|
    ensures var hits, later := AllHits(accept, store, opt, ids[lo]), Matching(accept, store, opt, ids[lo + 1..]);
            Matching(accept, store, opt, ids[lo..]) == if hits == [] then later else [FileOf(store, ids[lo], hits)] + later
  {
    hide AllHits, RelName;
    assert ids[lo..][1..] == ids[lo + 1..];
  }

  // --------------------------------------------------------------- pages and limits

  /** The first reports are reports of the first accepted lines. */
  lemma FirstOnes(sel: nat -> bool, buf: Str, r: seq<FileLine>, n: nat)
    requires n <= |r| && AreReports(sel, buf, 0, 1, r) && AllReported(sel, buf, r)
    ensures AreReports(sel, buf, 0, 1, r[..n]) && FirstReported(sel, buf, r[..n])
  {
    hide IsReport;
    forall s: nat | s < |buf| && StartsLine(buf, s) && sel(s)
      ensures || (exists m :: m in r[..n] && IsReportOf(sel, buf, 0, 1, m, s))
              || (forall m :: m in r[..n] ==> m.lineNumber < 1 + |NewlinePlaces(buf, 0, s)|)
    {
      var m :| m in r && IsReportOf(sel, buf, 0, 1, m, s);
      var k :| 0 <= k < |r| && r[k] == m;
      assert k < n ==> r[..n][k] == m;
    }
  }

  lemma CutResult(accept: Line -> bool, store: Store, opt: Options, id: int, whole: FileMatch, file: FileMatch)
    requires IsWholeResult(accept, store, opt, id, whole)
    requires file.filename == whole.filename && file.matches != [] && file.matches <= whole.matches
    ensures IsResult(accept, store, opt, id, file)
  {
    hide Readable, IsRelative, AreReports, AllReported, FirstReported, Selector;
    ReadableIs(store, opt, id);
    var buf := store.read(store.name(id)).value;
    FirstOnes(Selector(accept, buf), buf, whole.matches, |file.matches|);
    assert file.matches == whole.matches[..|file.matches|];
  }

  lemma ReadableIs(store: Store, opt: Options, id: int)
    ensures Readable(store, opt, id) ==> store.read(store.name(id)).Some?
  {
  }

  /** A limit on the matches keeps files from the front, the last one cut, and loses nothing before it is reached. */
  lemma {:induction false} BudgetedMeans(files: seq<FileMatch>, max: int)
    requires forall k :: 0 <= k < |files| ==> files[k].matches != []
    ensures var r := Budgeted(files, max);
            && |r| <= |files| && MatchCount(r) <= Max(0, max) && (MatchCount(r) < max ==> r == files)
            && forall k :: 0 <= k < |r| ==>
                 r[k].filename == files[k].filename && r[k].matches != [] && r[k].matches <= files[k].matches
    decreases files
  {
    if files != [] && max > 0 {
      var first := FileMatch(files[0].filename, Take(files[0].matches, max));
      var later := Budgeted(files[1..], max - |first.matches|);
      BudgetedMeans(files[1..], max - |first.matches|);
      var r := [first] + later;
      assert r[1..] == later && files == [files[0]] + files[1..];
    }
  }

  lemma PageMeans(files: seq<FileMatch>, opt: Options)
    ensures var page := Page(files, opt.offset, opt.limit, opt.limit <= 0);
            |page| == PageSize(opt, |files|) && forall k :: 0 <= k < |page| ==> page[k] == files[Max(0, opt.offset) + k]
  {
  }

  // -------------------------------------------------------------------- one visit

  /** The file is the next result, cut to so many matches. */
  ghost predicate Added(accept: Line -> bool, store: Store, opt: Options, id: int, max: int, before: seq<FileMatch>, after: seq<FileMatch>) {
    && |after| == |before| + 1 && after[..|before|] == before
    && var file := after[|before|];
       && IsResult(accept, store, opt, id, file) && |file.matches| <= max
       && (|file.matches| < max ==> IsWhole(accept, store, opt, id, file))
  }

  /** What looking at one file changes: the filters decide whether it is opened, and a file with matches is counted
      and, behind the offset and within the limit, added to the results. */
  lemma VisitLaws(accept: Line -> bool, store: Store, opt: Options, t: Tally, id: int)
    requires t.matchesCollected < opt.maxResults
    ensures var name, u := store.name(id), Visit(accept, store, opt, t, id);
            && (u.filesOpened == t.filesOpened + 1 <==>
                  (opt.fre.None? || opt.fre.value(name)) && (opt.excludeFre.None? || !opt.excludeFre.value(name)))
            && t.filesOpened <= u.filesOpened <= t.filesOpened + 1
            && u.filesFound == t.filesFound + (if HasMatch(accept, store, opt, id) then 1 else 0)
            && if HasMatch(accept, store, opt, id) && t.filesFound >= opt.offset && (opt.limit <= 0 || t.filesCollected < opt.limit) then
                 && Added(accept, store, opt, id, opt.maxResults - t.matchesCollected, t.results, u.results)
                 && u.filesCollected == t.filesCollected + 1
                 && u.matchesCollected == t.matchesCollected + |u.results[|t.results|].matches|
               else
                 (u.results, u.filesCollected, u.matchesCollected) == (t.results, t.filesCollected, t.matchesCollected)
  {
    hide *;
    var hits, max := AllHits(accept, store, opt, id), opt.maxResults - t.matchesCollected;
    var part := Take(hits, max);
    VisitOpens(accept, store, opt, t, id);
    VisitMeans(accept, store, opt, t, id);
    OneFile(accept, store, opt, id);
    CollectLaws(opt, t, store.name(id), part);
    SameFindings(Visit(accept, store, opt, t, id), Collect(opt, t, store.name(id), part));
    TakeSome(hits, max);
    if hits != [] {
      PartAdded(accept, store, opt, id, hits, max, t.results);
    }
  }

  lemma SameFindings(a: Tally, b: Tally)
    requires Findings(a) == Findings(b)
    ensures a.results == b.results && a.filesFound == b.filesFound && a.filesCollected == b.filesCollected
    ensures a.matchesCollected == b.matchesCollected
  {
  }

  lemma CollectLaws(opt: Options, t: Tally, name: Str, matches: seq<FileLine>)
    ensures var u := Collect(opt, t, name, matches);
            && u.filesFound == t.filesFound + (if matches != [] then 1 else 0)
            && if matches != [] && t.filesFound >= opt.offset && (opt.limit <= 0 || t.filesCollected < opt.limit) then
                 && u.results == t.results + [FileMatch(RelName(name), matches)]
                 && u.filesCollected == t.filesCollected + 1 && u.matchesCollected == t.matchesCollected + |matches|
               else
                 (u.results, u.filesCollected, u.matchesCollected) == (t.results, t.filesCollected, t.matchesCollected)
  {
    hide RelName;
  }

  lemma TakeSome(hits: seq<FileLine>, max: int)
    requires max > 0
    ensures |Take(hits, max)| <= max && Take(hits, max) <= hits && (Take(hits, max) == [] <==> hits == [])
    ensures |Take(hits, max)| < max ==> Take(hits, max) == hits
  {
  }

  lemma PartAdded(accept: Line -> bool, store: Store, opt: Options, id: int, hits: seq<FileLine>, max: int, before: seq<FileMatch>)
    requires max > 0 && hits != [] && IsResult(accept, store, opt, id, FileOf(store, id, hits))
    requires IsWhole(accept, store, opt, id, FileOf(store, id, hits))
    ensures var part := Take(hits, max);
            var after := before + [FileMatch(RelName(store.name(id)), part)];
            && Added(accept, store, opt, id, max, before, after)
            && |after[|before|].matches| == |part|
  {
    hide IsResult, IsWhole, RelName, Take;
    TakeSome(hits, max);
    CutResult(accept, store, opt, id, FileOf(store, id, hits), FileOf(store, id, Take(hits, max)));
  }

  lemma VisitOpens(accept: Line -> bool, store: Store, opt: Options, t: Tally, id: int)
    ensures var name, u := store.name(id), Visit(accept, store, opt, t, id);
            && (u.filesOpened == t.filesOpened + 1 <==>
                  (opt.fre.None? || opt.fre.value(name)) && (opt.excludeFre.None? || !opt.excludeFre.value(name)))
            && t.filesOpened <= u.filesOpened <= t.filesOpened + 1
  {
  }

  // -------------------------------------------------------------------- counters

  predicate Counted(t: Tally) {
    t.filesCollected == |t.results| && t.matchesCollected == MatchCount(t.results)
  }

  lemma {:induction false} MatchCountAppend(files: seq<FileMatch>, file: FileMatch)
    ensures MatchCount(files + [file]) == MatchCount(files) + |file.matches|
    decreases files
  {
    if files != [] {
      assert (files + [file])[1..] == files[1..] + [file];
      MatchCountAppend(files[1..], file);
    } else {
      assert (files + [file])[1..] == [];
    }
  }

  lemma VisitCounted(accept: Line -> bool, store: Store, opt: Options, t: Tally, id: int)
    requires Counted(t)
    ensures Counted(Visit(accept, store, opt, t, id))
  {
    hide MatchCount, Hits, RelName;
    var name := store.name(id);
    if store.read(name).Some? {
      var hits := Hits(accept, store.read(name).value, opt.maxResults - t.matchesCollected);
      MatchCountAppend(t.results, FileMatch(RelName(name), hits));
    }
  }

  lemma {:induction false} ScanCounted(accept: Line -> bool, store: Store, opt: Options, ids: seq<int>, t: Tally)
    requires Counted(t)
    ensures Counted(Scan(accept, store, opt, ids, t))
    decreases ids
  {
    if ids != [] && t.matchesCollected < opt.maxResults {
      VisitCounted(accept, store, opt, t, ids[0]);
      ScanCounted(accept, store, opt, ids[1..], Visit(accept, store, opt, t, ids[0]));
    }
  }

  // -------------------------------------------------------------------- the answer

  /** Each file of the page stands for its place, counted from the offset. */
  ghost predicate Paged(result: (int, FileMatch) -> bool, ids: seq<int>, found: seq<nat>, skipped: nat, page: seq<FileMatch>) {
    && skipped + |page| <= |found| && (forall k :: 0 <= k < |found| ==> found[k] < |ids|)
    && forall k :: 0 <= k < |page| ==> result(ids[found[skipped + k]], page[k])
  }

  lemma PageOfAll(has: int -> bool, result: (int, FileMatch) -> bool, opt: Options, ids: seq<int>, files: seq<FileMatch>, found: seq<nat>)
    requires Lists(has, result, ids, 0, files, found)
    ensures var page := Page(files, opt.offset, opt.limit, opt.limit <= 0);
            && |page| == PageSize(opt, |found|)
            && (page != [] ==> Paged(result, ids, found, Max(0, opt.offset), page))
  {
    hide Page;
    PageMeans(files, opt);
  }

  lemma CutPage(accept: Line -> bool, store: Store, opt: Options, ids: seq<int>, found: seq<nat>, skipped: nat, page: seq<FileMatch>)
    requires page != [] ==> Paged(Results(accept, store, opt), ids, found, skipped, page)
    ensures var r := Budgeted(page, opt.maxResults);
            && |r| <= |page| && MatchCount(r) <= Max(0, opt.maxResults) && (MatchCount(r) < opt.maxResults ==> r == page)
            && (forall k :: 0 <= k < |r| ==> IsResult(accept, store, opt, ids[found[skipped + k]], r[k]))
            && (forall k :: 0 <= k < |page| ==> IsWhole(accept, store, opt, ids[found[skipped + k]], page[k]))
  {
    hide Budgeted, MatchCount, IsResult, IsWhole;
    forall k | 0 <= k < |page|
      ensures IsWholeResult(accept, store, opt, ids[found[skipped + k]], page[k]) && page[k].matches != []
    {
      assert Results(accept, store, opt)(ids[found[skipped + k]], page[k]);
      ResultHasMatches(accept, store, opt, ids[found[skipped + k]], page[k]);
    }
    BudgetedMeans(page, opt.maxResults);
    forall k | 0 <= k < |Budgeted(page, opt.maxResults)|
      ensures IsResult(accept, store, opt, ids[found[skipped + k]], Budgeted(page, opt.maxResults)[k])
    {
      CutResult(accept, store, opt, ids[found[skipped + k]], page[k], Budgeted(page, opt.maxResults)[k]);
    }
  }

  /** What a scan yields, told without the scan. */
  lemma ScanAnswers(accept: Line -> bool, store: Store, opt: Options, ids: seq<int>) returns (found: seq<nat>)
    ensures Answers(accept, store, opt, ids, Scan(accept, store, opt, ids, NothingYet), found)
  {
    hide Scan, Matching, Budgeted, Page, MatchCount, IsResult, IsWhole, HasMatch, IsWholeResult, Paged, ArePlaces, PageSize, Matches, Results;
    assert ids[0..] == ids;
    found := MatchingLists(accept, store, opt, ids, 0);
    ScanMeans(accept, store, opt, ids, NothingYet);
    NoMatches();
    ScanCounted(accept, store, opt, ids, NothingYet);
    PageOfAll(Matches(accept, store, opt), Results(accept, store, opt), opt, ids, Matching(accept, store, opt, ids), found);
    var page := Page(Matching(accept, store, opt, ids), opt.offset, opt.limit, opt.limit <= 0);
    CutPage(accept, store, opt, ids, found, Max(0, opt.offset), page);
    assert [] + Budgeted(page, opt.maxResults) == Budgeted(page, opt.maxResults);
    assert Scan(accept, store, opt, ids, NothingYet).results == Budgeted(page, opt.maxResults);
  }

  lemma NoMatches()
    ensures MatchCount([]) == 0
  {
  }

  lemma ResultHasMatches(accept: Line -> bool, store: Store, opt: Options, id: int, file: FileMatch)
    requires IsWholeResult(accept, store, opt, id, file)
    ensures file.matches != []
  {
  }
}
