# Veloria's code search engine, verified

Veloria searches source code with a regexp. It does not read every file: the regexp is compiled to a boolean
query over trigrams (three-byte windows), the query is evaluated over posting lists in an index file, and only
the files that are left are searched line by line with a lazily built DFA. These modules model that engine in
Dafny and prove that its short cuts do not change an answer, or exactly when they do.

| part | modules |
|---|---|
| regexps, their meaning, trigram queries | `Bytes`, `StringSets`, `Queries`, `Utf8`, `RuneRanges`, `RegexpSyntax`, `RegexpLaws`, `Demands`, `Analysis` |
| string sets as slices that share storage | `StorageReuse`, `SharedUnions`, `SliceInfos`, `MixedAlternate`, `MixedQueries`, `SliceAnalysis`, `MixedCases`, `LostFiles`, `LostDemands` |
| byte programs and the lazy DFA | `ByteProgram`, `ProgramLaws`, `FoldedBytes`, `DfaStates`, `Lines`, `SparseSet`, `LazyDfa`, `UtfRanges`, `ClassPrograms` |
| reading an index and evaluating queries | `PostingLists`, `PostingIndex`, `PostingReader` |
| codecs | `Varint`, `Bits`, `Buffers`, `DeltaCoding`, `PostingWriter`, `PostDataWriters`, `ChunkReaders`, `Paths`, `Formats` |
| building an index | `FileScan`, `RadixSort`, `PostHeaps`, `Grouping`, `IndexWriters`, `IndexFiles` |
| merging indexes | `MergeMaps`, `MergeNames`, `MergeLists`, `MergePosts`, `MergeFiles` |
| search | `Grep`, `Search`, `SearchLaws`, `IndexedSearch` |

The main results, each for all inputs:

- **The index never loses a match.** `IndexedSearch.SearchCompiled` computes the query, the candidates and the
  results, and has the results of the same search over all indexed files, whatever the paging and the filters,
  with string sets as values (see below for what sharing their storage does).
  It rests on `Analysis.RegexpQuery`, `PostingReader.PostingQuery`, `Search.ScanWithoutBarren` and the assumption
  that the compiled program accepts only lines with a match of its regexp (`Compiled`), which
  `ClassPrograms.CompileAny` and `CompileRanges` prove of the programs for a dot and for any character class.
  `SearchLaws.Answers` says what these results are by the names and the contents of the files alone.
- **The index rules out what it can.** The query of `Analysis.RegexpQuery` asks for the trigrams that each match has:
  those of a literal (and then for nothing else), of all parts of a concatenation, of one alternative, and of a
  case-folded literal a spelling of each three letters in a row (`Demands`). For a regexp with at most seven strings,
  one of them of at most three bytes, it is the strongest query there is (`Few`).
- **An index holds what was put in.** However often the writer spills, `IndexFiles.Flush` gives a file whose
  lists hold exactly the files of each trigram, in both versions of the format.
- **Merging renames and loses nothing.** `MergeFiles.Merge`: each file of the second index and each file of the
  first that is not covered gets one new id and keeps its trigrams, names stay in order, and it is shown exactly
  when the loop gets to its end.
- **When shared storage is harmless.** `SliceAnalysis.RegexpQueryInPlace` is the analysis on slices that reuse their
  storage, from the classes to the query. If a regexp leaves no room (`RoomFree`, a condition on the regexp and on
  how append grows), its sets are those of the analysis on values and its query never rules out a match; so
  `IndexedSearch.SearchInPlace` loses no match. If also no suffix of another side takes the place of an exact string
  (`RoomFree`, meant strictly), the query asks for as much as `Demands` says. Of a single alternation with one exact side,
  `SliceAnalysis.AlternateOneExact` proves that it covers both sides with sets in arrays of their own if and only
  if `KeepsBoth` holds before the call, and without room for the prefixes that its query is that of values if and
  only if the exact set is `Untouched` or the other side asks for nothing.
- **Memoising does not matter.** `LazyDfa.Matcher.Match` finds the first line on which a path of the byte program
  ends in a match, whatever has been cached before.
- **Rune ranges are exact.** `UtfRanges.BuildClass` and `RuneRanges.RangeExact`.

Conventions. Strings are sequences of bytes. Methods follow the loops of the source; functions and predicates
say what they compute. Heap structures (`PostReader`, `Matcher`, `PostDataWriter`, slices over shared arrays)
are classes and arrays. Files are byte strings with offsets, and where the source ends the process because
a number is too large, a method returns a flag instead.

## Where the code differs from what it promises

- **Storage reuse in `alternate`** (internal/codesearch/index/regexp.go:601-624). `union` reuses the storage of
  its receiver, and where only one side is exact, `alternate` calls it twice on the exact set. With room behind
  the set both unions are in its array, and so is what `addExact` reads and what `simplify` works on; and two sets
  that share an array go on sharing it in what follows.
  - *Regexps.* `SliceAnalysis` is the whole analysis on arrays, for any growth of append. When no alternation that it
    comes to has room behind an exact set for the prefixes of the other side (`RoomFree`), the sets of every part of
    the regexp are in arrays of their own and equal those of `Analysis` (`SetsFor`), and the query holds on every text
    with a match. Regexps without alternation never have such room (`NoAlternationNoRoom`). Even then the query may
    ask for less than that of `Analysis`: the second union can be written over the exact set before `addExact` reads it.
    Without room for the prefixes that happens if and only if the exact set has long strings only, there is room for
    the suffixes, one of its strings does not come early enough among both in the order of suffixes, and the other
    side asks for something (`MixedQueries.QueryKept`). `LostDemands.LoseDemand` runs the methods on
    `xyz|wxyz|vxyz|[ab]xyz`: each match has the trigram "xyz", and the query holds of every file.
  - *One alternation with one exact side.* It covers the texts of both sides with sets in arrays of their own if and
    only if there is no room for the prefixes of the other side, or room for these but not for the suffixes and
    each string that the first union pushes out ends as another string does (`KeepsBoth`). A string is pushed out if
    as many strings of the union sort before it as the exact set has. The query is right for any contents of
    the array (`QueryHolds`).
  - *Two sets in one array.* For any two slices of one array, and any strings that are added, `SuffixesKept` and
    `PrefixesKept` say which strings the two unions keep: those with fewer strings before them than the slice has, or
    far enough behind. `OneByteSets` follows them through simplification for single characters, and
    `OneStringOrNothing` does for an alternative that matches nothing, where both sets share an array without any
    spare room.
  - *Lost files.* `LostFiles` runs the methods on four regexps with a text that they match and their query rules
    out: `([abd]|c.*z)ef` and "def", `ab([abd]|e.*z)` and "abez", `(?:abc|[^\x00-\x{10FFFF}])d` and "abcd", and
    `(?:[bdfhj]|n.*n|c)ef` and "nnef". In the last one the first alternation loses nothing, but leaves its sets in one
    array, and the second alternation pushes "n" out of it.

  `Analysis` itself is about sets as values, where `union` does not touch its receiver.
- **Merging merged indexes** (internal/codesearch/index/merge.go:199-242). Every index ends with an empty list for
  the trigram 0xFFFFFF, and merging writes one more. The check for progress then stops a merge: with d1 and d2
  such lists the loop gets to its end exactly if both are at most 1, or both are at least 1 and together at
  most 3 (`MergeLists.MergeProgresses`). Two results of merges can never be merged (`MergedTwice`).
- **Surrogates in rune ranges** (internal/codesearch/regexp/utf.go:255-266). `utf8.EncodeRune` replaces a surrogate
  by U+FFFD. A range accepts exactly the patterns of its runes if and only if it contains no surrogate or goes
  over the blocks 0xD000 to 0xEFFF as a whole (`RuneRanges.RangeExact`), as that of a dot does; the range of a single
  surrogate accepts U+FFFD (`OneSurrogate`). `RegexpSyntax` gives dots and classes the meaning that the programs give
  them, so a dot matches the three-byte pattern of a surrogate too. Ranges that `analyze` lists, of at most 100
  runes, have exactly the strings it lists (`LangOfSmall`).
- **Two runes that fold to each other** (internal/codesearch/regexp/utf.go:103-105). `oneByteRange` turns a class of two
  runes that fold to each other into one byte without looking at how large they are, and conversion to a byte drops
  the high bits: the class of U+0141 and U+0142 becomes a range for the letters A and a
  (`FoldedBytes.LostStroke`). The byte range it gives is right if and only if the smallest rune is below 0x80, and no
  lower-case letter where the instruction folds, as a lower-case letter is never compared (`FoldedBytes.RangeStands`).
- **The code of zero** (internal/codesearch/index/delta.go:31, internal/codesearch/index/read.go:44). A comment says
  that zero is written as 31; the code writes 16, and so does the model (`Formats.Version2`, `Formats.ZeroAlone`).
- **Childless conjunctions.** A conjunction without trigrams and sub-queries evaluates to no file in
  internal/codesearch/index/read.go:599-619 although it means all. `AndOr` and `RegexpQuery` never produce
  one (`Solid`), and `PostingQuery` requires it.
- **A line behind the last newline.** grepData reports the empty line behind a final newline if it matches and
  the line before does not; the reference `GrepLines` does the same (`Grep.GrepLastLine`).

## Model

| member | source | states |
|---|---|---|
| Bytes.TrigramsInfix | internal/codesearch/index/regexp.go:16-22 | A text has the trigrams of every string in it |
| Bytes.LessTotal | internal/codesearch/index/regexp.go:748-748 | The byte order of strings is total; with LessTransitive and LessIrreflexive a strict order |
| StringSets.BySuffixLess | internal/codesearch/index/regexp.go:754-768 | The loop from the back compares the reversed strings |
| StringSets.IsSubsetOf | internal/codesearch/index/regexp.go:857-868 | A true answer means a real subset for any lists; for strictly sorted lists the answer is exact |
| StringSets.SubsetSound | internal/codesearch/index/regexp.go:857-868 | The two-pointer scan never claims a subset that is none, sorted or not |
| StringSets.SubsetComplete | internal/codesearch/index/regexp.go:857-868 | On strictly sorted lists it finds every subset |
| StringSets.Clean | internal/codesearch/index/regexp.go:776-791 | The same strings, strictly sorted by prefix or by suffix |
| StringSets.StrictlySortedUnique | internal/codesearch/index/regexp.go:776-791 | clean is a normal form: two cleaned lists of the same strings are equal |
| StringSets.Union | internal/codesearch/index/regexp.go:827-831 | The cleaned union, as a value |
| StringSets.Cross | internal/codesearch/index/regexp.go:834-843 | Exactly the concatenations of a string of each set, cleaned |
| StringSets.MinLen | internal/codesearch/index/regexp.go:799-810 | The length of a shortest string, 0 for the empty set |
| StorageReuse.UnionInPlace | internal/codesearch/index/regexp.go:826-831 | The result is the union; if it fits it stands in the storage of the receiver, else the receiver is untouched |
| StorageReuse.ReceiverKept | internal/codesearch/index/regexp.go:827-831 | The receiver still reads as the same set if and only if each added string is in it or sorts behind it |
| StorageReuse.Squeeze | internal/codesearch/index/regexp.go:784-790 | The shape of the loops of clean and simplifySet: what is kept, in front of what was there |
| StorageReuse.SimplifySetInPlace | internal/codesearch/index/regexp.go:667-712 | The simplified set in the front of the array, the traces of its rounds behind it, and the condition added to the query |
| SharedUnions.UnionBoth | internal/codesearch/index/regexp.go:601-618 | What the two unions of alternate read as when both are done, on slices of two arrays or of one, with room for none, one or both |
| SharedUnions.SimplifyBoth | internal/codesearch/index/regexp.go:656-660 | Both sets simplified; in one array the second finds what the first left, and the first reads what the second leaves |
| SharedUnions.ReadAfterFirst | internal/codesearch/index/regexp.go:608-609 | After the first union, the other slice reads the strings with fewer strings of the union before them than it has, and what is far enough behind |
| SharedUnions.SuffixesKept | internal/codesearch/index/regexp.go:601-618 | Two sets in one array: the suffix set has all its strings if and only if there is no room for the prefixes or each is still read after the first union or added |
| SharedUnions.PrefixesKept | internal/codesearch/index/regexp.go:601-618 | The prefix set has all its strings if and only if the unions are in different arrays or each is early enough in the second union or late enough in the first |
| SharedUnions.CoveredBySimplified | internal/codesearch/index/regexp.go:667-712 | A simplified set covers exactly the texts that begin or end as some string of the set does, cut to two bytes, or to one or none if there are too many |
| SliceInfos.SimplifyInPlace | internal/codesearch/index/regexp.go:634-660 | On slices in arrays of their own it is simplification of values, and they are in arrays of their own again |
| MixedAlternate.NoRoomIsRight | internal/codesearch/index/regexp.go:608-609 | Without room for the prefixes of the other side nothing is lost |
| MixedAlternate.RoomForPrefixes | internal/codesearch/index/regexp.go:608-609 | With room for the prefixes only: right if and only if each string that is pushed out ends as a string that is left or a suffix of the other side does |
| MixedAlternate.AlternateMixed | internal/codesearch/index/regexp.go:607-624 | One exact side: both sides are covered by sets in arrays of their own if and only if KeepsBoth holds before the call; the exact meaning of the query and what is left in a shared array |
| MixedAlternate.QueryHolds | internal/codesearch/index/regexp.go:610-624 | Whatever addExact and simplify read in the shared array, the query holds on the texts of both sides |
| MixedAlternate.TextBetween | internal/codesearch/index/regexp.go:359-362 | For small sets there are texts that begin and end as they like and are covered only if p and s are |
| MixedQueries.RequiredReadBack | internal/codesearch/index/regexp.go:608-610 | Without room for the prefixes, addExact requires what the exact set requires if and only if no suffix takes the place of one of its strings, which are all long |
| MixedQueries.QueryKept | internal/codesearch/index/regexp.go:607-624 | Then the query of the alternation is that of the alternation of values, if and only if the exact set is untouched or the other side asks for nothing |
| SliceAnalysis.AlternateOneExact | internal/codesearch/index/regexp.go:607-624 | The same of information on slices; without room for the prefixes the sets are those of the analysis on values, and so is the query if and only if the exact set is untouched or the other side asks for nothing |
| SliceAnalysis.AlternateInPlace | internal/codesearch/index/regexp.go:601-624 | All branches of alternate on slices: without such room the sets of the analysis on values, and its query where the exact set is untouched; with one exact side the conditions as above; and what becomes of two sets in one array |
| SliceAnalysis.ConcatInPlace | internal/codesearch/index/regexp.go:559-598 | concat on slices in arrays of their own gives the information of concat on values, in arrays of their own |
| SliceAnalysis.LooseInPlace | internal/codesearch/index/regexp.go:490-505 | A repetition takes the storage of the exact set for its prefixes and a copy for its suffixes |
| SliceAnalysis.ClassInPlace | internal/codesearch/index/regexp.go:507-536 | The information for a class, and the capacity that adding its strings one by one leaves |
| SliceAnalysis.AnalyzeInPlace | internal/codesearch/index/regexp.go:421-556 | If the regexp is RoomFree: right information in arrays of their own, with the sets that analysis on values gives and a known capacity; meant strictly, information that enforces what the regexp demands |
| SliceAnalysis.NoAlternationNoRoom | internal/codesearch/index/regexp.go:421-556 | A regexp without alternation is RoomFree |
| SliceAnalysis.RegexpQueryInPlace | internal/codesearch/index/regexp.go:334-339 | If the regexp is RoomFree, the query holds on every text with a match, and is the strongest one with an exact set; if it is so strictly, the query also asks for the trigrams that each match has, and for a literal for exactly these |
| MixedCases.SuffixComplete | internal/codesearch/index/regexp.go:608-609 | One exact side: the suffix set has all its strings if and only if there is no room for the prefixes or the strings that are pushed out are suffixes of the other side |
| MixedCases.OneByteSets | internal/codesearch/index/regexp.go:607-660 | Two sets of at most 20 single characters in one array: which characters they end with, by order |
| MixedCases.OneByteCondition | internal/codesearch/index/regexp.go:607-624 | One exact side, single characters, sets in one array: right if and only if all prefixes stay in the one set and all suffixes in the other |
| MixedCases.OneStringOrNothing | internal/codesearch/index/regexp.go:607-624 | One string or nothing: right if and only if the string has at most two bytes or ends with its first two |
| LostFiles.LettersRight | internal/codesearch/index/regexp.go:507-536 | The information for the letters a, b and d is right |
| LostFiles.AroundRight | internal/codesearch/index/regexp.go:559-598 | The information for a character, anything and a character is right |
| LostFiles.LoseSuffix | internal/codesearch/index/regexp.go:608-609 | On an array with room for one more string, the query for a, b, d or c.*z, and then ef, is false on the matching text def |
| LostFiles.LosePrefix | internal/codesearch/index/regexp.go:608-609 | On such an array the query for ab, and then a, b, d or e.*z, is false on the matching text abez |
| LostFiles.LoseShared | internal/codesearch/index/regexp.go:608-624 | On an array without room the query for abc or nothing, and then d, is false on the matching text abcd |
| LostFiles.LoseLater | internal/codesearch/index/regexp.go:601-624 | A first alternation that loses nothing and a second one on what it leaves: the query for b, d, f, h, j, n.*n or c, and then ef, is false on the matching text nnef |
| LostFiles.OthersRight | internal/codesearch/index/regexp.go:507-536 | The information for the letters b, d, f, h and j is right |
| LostDemands.LiteralsRight | internal/codesearch/index/regexp.go:435-469 | The information for the literals xyz, wxyz and vxyz is right |
| LostDemands.AbRight | internal/codesearch/index/regexp.go:559-598 | The information for a or b and then xyz is right |
| LostDemands.XyzIsNeeded | internal/codesearch/index/regexp.go:334-339 | All matches of xyz, wxyz, vxyz or [ab]xyz need the trigram xyz and no other |
| LostDemands.LoseDemand | internal/codesearch/index/regexp.go:608-610 | On an array with room for one more string, but not for the two prefixes of [ab]xyz, the query for these alternatives holds without any trigram |
| Queries.EvalMonotone | internal/codesearch/index/regexp.go:20-39 | More trigrams never make a query false |
| Queries.TrigramsImplySound | internal/codesearch/index/regexp.go:199-225 | trigramsImply only answers yes when the trigrams force the query, on unsorted lists too |
| Queries.ImpliesSound | internal/codesearch/index/regexp.go:175-197 | A true implies is an implication on every set of trigrams |
| Queries.FactorCommon | internal/codesearch/index/regexp.go:118-146 | Splits two trigram lists into a common part and two rests with the same elements |
| Queries.AndOr | internal/codesearch/index/regexp.go:53-171 | The result means exactly the conjunction or disjunction, is not larger, has no childless QAnd if its parts have none, and the recursion ends |
| Queries.AndOrOfOpposites | internal/codesearch/index/regexp.go:116-171 | Factoring out common trigrams, with its recursive calls, keeps the meaning |
| Analysis.AndTrigrams | internal/codesearch/index/regexp.go:261-282 | Adds exactly the condition that the trigrams of one of the strings are present, unless one is too short |
| Analysis.SimplifySet | internal/codesearch/index/regexp.go:667-712 | Ends with at most 20 strings of at most 2 bytes; every text with an old affix has a new one, and the query gains exactly the condition of the old set |
| Analysis.Simplify | internal/codesearch/index/regexp.go:634-660 | Whatever agreed with the information still does, and the meaning of the query after giving up the exact set is stated exactly |
| Analysis.Concat | internal/codesearch/index/regexp.go:559-598 | Covers every concatenation; exact strings are concatenations only; the query is the two queries, the seam and the ends |
| Analysis.Alternate | internal/codesearch/index/regexp.go:601-624 | Covers every text of either side, with the exact meaning of the query (sets as values) |
| Analysis.AnalyzeClass | internal/codesearch/index/regexp.go:507-536 | Exactly the strings that the program for the class takes, or any character if it spans more than 100; the trigrams of one of its strings are asked for |
| Analysis.AnalyzeFolded | internal/codesearch/index/regexp.go:435-469 | Case-folded literals over any fold orbit; of letters with two ASCII cases, a spelling of each three in a row is asked for |
| Analysis.Analyze | internal/codesearch/index/regexp.go:421-541 | By induction over the regexp: sound for every span of every text, valid, and exact where an exact set is kept for a plain regexp; it enforces what the regexp demands; the sets are a function of the regexp (SetsFor) |
| Analysis.RepeatSound | internal/codesearch/index/regexp.go:490-505 | One or more repetitions begin and end like one of them |
| Demands.DemandsNeeds | internal/codesearch/index/regexp.go:334-339 | What a regexp demands includes the trigrams that each match has: of a literal, of all parts of a concatenation, common to all alternatives |
| Analysis.SimplifiedEnforces | internal/codesearch/index/regexp.go:634-660 | Simplification gives up no demand: a set that is cut down is required first, and a string too short to be required had none |
| Analysis.ConcatEnforces | internal/codesearch/index/regexp.go:559-598 | A concatenation enforces what both parts enforce |
| Analysis.AlternateEnforces | internal/codesearch/index/regexp.go:601-624 | An alternation enforces what one side or the other enforces |
| Analysis.FoldedSets | internal/codesearch/index/regexp.go:435-469 | The exact set of a case-folded literal holds spellings of it, and when it is given up, after three letters or more, the suffix set holds spellings of the last two |
| Analysis.KeepsExact | internal/codesearch/index/regexp.go:359-380 | A regexp with at most seven strings, one of at most three bytes, and so each part of it from the left, keeps an exact set of no more strings than can be counted |
| Analysis.RegexpQuery | internal/codesearch/index/regexp.go:334-339 | The query holds on the trigrams of every text that contains a match; it has no childless QAnd; it asks for the trigrams that each match has (Satisfies, Needs), for a literal exactly for its own; with an exact set it is the strongest query, and regexps with few strings have one |
| RegexpSyntax.RepeatEnds | internal/codesearch/index/regexp.go:496-505 | A repeated match splits into a first, a last and what is between |
| RegexpLaws.ConcatMeans | internal/codesearch/index/regexp.go:477-478 | A concatenation matches if and only if there are positions between which its parts match in order |
| RegexpLaws.RepeatMeans | internal/codesearch/index/regexp.go:490-505 | A repetition matches if and only if copies match one after the other, as many as it allows |
| RegexpLaws.StarPlusQuest | internal/codesearch/index/regexp.go:483-505 | Star, Plus and Quest are repetitions from 0, from 1, and of 0 or 1 |
| RegexpLaws.FoldedMeans | internal/codesearch/index/regexp.go:435-469 | A case-folded literal stands for the strings made of a form of each of its runes in order |
| SparseSet.Set.Add | internal/codesearch/sparse/set.go:39-47 | Adds an element once, whatever stale numbers the sparse array holds |
| SparseSet.Set.Has | internal/codesearch/sparse/set.go:50-53 | Membership is exact in spite of stale memory |
| SparseSet.Set.Distinct | internal/codesearch/sparse/set.go:58-65 | Dense lists each element once, so Len is the size of the set |
| ByteProgram.LineMatchesIffAlive | internal/codesearch/regexp/match.go:213-313 | Some path of the program matches a line if and only if a match instruction is alive after some byte |
| ByteProgram.ClosureTwice | internal/codesearch/regexp/match.go:245-249 | Expanding the queue again with more flags in effect gives the closure under those flags |
| ProgramLaws.RangeAccepts | internal/codesearch/regexp/match.go:177-183 | A folding range of upper-case letters accepts these letters in both cases; a range that does not fold accepts exactly its bytes |
| ProgramLaws.CaseDoesNotMatter | internal/codesearch/regexp/match.go:161-188 | If each range with letters folds, lines that differ only in the case of letters are matched alike |
| ProgramLaws.PlainMatches | internal/codesearch/regexp/match.go:191-208 | Captures, alternatives that may match at once and empty assertions match as plain instructions do |
| ProgramLaws.FlagsHold | internal/codesearch/regexp/match.go:213-267 | The flags at a position of a line say what the assertions mean in the text the line is part of |
| ProgramLaws.AssertionMatches | internal/codesearch/regexp/match.go:203-206 | A program of one assertion matches the lines with a position where all it asks for holds |
| DfaStates.RunDecides | internal/codesearch/regexp/match.go:213-267 | The DFA with one byte of lookahead decides which lines some path of the program matches |
| DfaStates.NewlineStopsAtEnd | internal/codesearch/regexp/match.go:305-309 | A state that matches before a newline also matches at the end of the text |
| DfaStates.KeysDiffer | internal/codesearch/regexp/match.go:63-83 | Equal encodings mean equal states |
| LazyDfa.NState.Enc | internal/codesearch/regexp/match.go:63-83 | The key of a state is the encoding of its flags and its sorted instructions |
| LazyDfa.NState.Dec | internal/codesearch/regexp/match.go:86-111 | Decoding a key restores the flags and the instruction set, with differences taken modulo 2^32 |
| LazyDfa.Matcher.Addq | internal/codesearch/regexp/match.go:191-208 | Adds exactly what is reachable without reading a byte under the flags |
| LazyDfa.Matcher.StepEmpty | internal/codesearch/regexp/match.go:151-156 | The closure of the queue under the flags |
| LazyDfa.Matcher.StepByte | internal/codesearch/regexp/match.go:161-188 | The closure of the start and of what the byte leads to, and whether the queue held a match |
| LazyDfa.Matcher.ComputeNext | internal/codesearch/regexp/match.go:213-267 | The successor state of the subset construction, or the match state |
| LazyDfa.Matcher.Cache | internal/codesearch/regexp/match.go:269-281 | One object per state; the recursion with computeNext ends because each level adds a key of a finite state space |
| LazyDfa.Matcher.Init | internal/codesearch/regexp/match.go:131-148 | The two start states |
| LazyDfa.Matcher.Match | internal/codesearch/regexp/match.go:283-313 | From any cache: the end of the first line with an accepting path, or -1; the cache only grows and stays right |
| RuneRanges.LeafPatterns | internal/codesearch/regexp/utf.go:255-266 | In a leaf a rune is in the range if and only if each byte of its pattern is between those of the ends |
| RuneRanges.BetweenIsPattern | internal/codesearch/regexp/utf.go:255-266 | Each byte string between the ends of a leaf is the pattern of a rune of the range |
| RuneRanges.SplitInside | internal/codesearch/regexp/utf.go:222-253 | Splits are inside the range, so the recursion ends, and what is not split is a leaf |
| UtfRanges.RuneBuilder.Suffix | internal/codesearch/regexp/utf.go:163-190 | An instruction for the byte range before the next one, new or cached |
| UtfRanges.RuneBuilder.AddBranch | internal/codesearch/regexp/utf.go:192-211 | One more branch at the entry; the other branches and the rest of the program stay as they are |
| UtfRanges.TargetsAtEntry | internal/codesearch/regexp/utf.go:192-211 | The chain of Alt instructions from the entry leads to exactly the branches that were added |
| UtfRanges.RuneBuilder.AddLeaf | internal/codesearch/regexp/utf.go:255-267 | Adds exactly the byte strings between the encodings of the ends; the lengths never differ, so the panic is unreachable |
| UtfRanges.AddRange | internal/codesearch/regexp/utf.go:213-268 | For any range: adds exactly the language of its leaves to what was accepted before |
| RuneRanges.LangOfGood | internal/codesearch/regexp/utf.go:213-268 | For a good range these are exactly the patterns of its runes |
| RuneRanges.RangeExact | internal/codesearch/regexp/utf.go:213-268 | A range accepts exactly the patterns of its runes if and only if it is good |
| RuneRanges.RunesAreEncoded | internal/codesearch/regexp/utf.go:213-268 | Without surrogates these are the UTF-8 encodings of section 3 of RFC 3629 |
| RuneRanges.OneSurrogate | internal/codesearch/regexp/utf.go:257-258 | The range of the first surrogate accepts the encoding of U+FFFD and nothing else |
| RuneRanges.LangOfSmall | internal/codesearch/index/regexp.go:529-535 | A range of at most 100 runes stands for the strings that analyze lists, surrogates included |
| UtfRanges.BuildClass | internal/codesearch/regexp/utf.go:52-65 | A rune class accepts exactly what its ranges stand for, the patterns of its runes if the ranges are good; other instructions are untouched |
| UtfRanges.AcceptedIsPath | internal/codesearch/regexp/utf.go:134-161 | Each accepted string takes a thread from the entry to the target |
| UtfRanges.ExitIsAccepted | internal/codesearch/regexp/utf.go:134-161 | A thread that leaves the automaton does so at the target, behind an accepted string |
| ClassPrograms.CompileClass | internal/codesearch/regexp/utf.go:52-73 | The program of a single rune instruction matches exactly the lines with a rune of the class |
| ClassPrograms.CompileAny | internal/codesearch/regexp/utf.go:67-73 | The program for a dot may be searched for through the index, as either kind of dot; it matches every rune pattern |
| ClassPrograms.CompileRanges | internal/codesearch/regexp/utf.go:52-65 | So may the program for any class of ranges, with surrogates or without |
| FoldedBytes.OneByteRange | internal/codesearch/regexp/utf.go:72-108 | Which rune instructions become one byte range, and which range |
| FoldedBytes.NoFoldedRange | internal/codesearch/regexp/utf.go:93-101 | A range of two bytes or more that folds is always left to the general case |
| FoldedBytes.RangeStands | internal/codesearch/regexp/utf.go:72-108 | The range takes exactly the encodings of the runes of the instruction if and only if the smallest rune is below 0x80, and no lower-case letter if it folds |
| FoldedBytes.LostStroke | internal/codesearch/regexp/utf.go:103-105 | The class of U+0141 and U+0142 becomes a range that accepts exactly A and a |
| Varint.RoundTrip | internal/codesearch/index/delta.go:33-41 | 64-bit numbers read back with their exact length |
| DeltaCoding.DeltaWriter.Write | internal/codesearch/index/delta.go:98-137 | The bits or bytes written so far are the code of the list with the number appended; no shift loses bits |
| DeltaCoding.DeltaWriter.Flush | internal/codesearch/index/delta.go:147-154 | The bytes since the start of the list are its encoding |
| DeltaCoding.DeltaReader.Next | internal/codesearch/index/delta.go:33-83 | The first number of the list, and the reader is before the rest |
| DeltaCoding.DeltaReader.ClearBits | internal/codesearch/index/delta.go:26-29 | Behind a list the reader stands at the first byte of what follows |
| DeltaCoding.EncodedFeeds | internal/codesearch/index/delta.go:19-49 | An encoded list in front of any bytes delivers the list |
| DeltaCoding.RoundTripLists | internal/codesearch/index/delta.go:19-154 | Any lists of positive deltas below 2^63 - 1, each ended by 0, read back as they were, in both versions |
| DeltaCoding.ReadList | internal/codesearch/index/read.go:451-481 | Reading one list delivers it and stops right behind it |
| PostingLists.InDocument | internal/codesearch/index/read.go:525-533 | A file has a trigram if and only if it is in the list of the trigram |
| PostingIndex.SearchEntry | internal/codesearch/index/read.go:372-378 | The binary search finds the first entry that is not below the trigram |
| PostingIndex.FindListV1 | internal/codesearch/index/read.go:368-387 | The count and place of the list of a trigram, or twice 0 |
| PostingIndex.WalkBlock | internal/codesearch/index/read.go:401-422 | The walk through one padded block finds the entry of a trigram if the block has one |
| PostingIndex.OnlyInBlock | internal/codesearch/index/read.go:390-399 | A trigram can only be found in the last block that does not start behind it |
| PostingIndex.FindListV2 | internal/codesearch/index/read.go:389-423 | Over ascending blocks: a stored count and offset, or twice 0 if the trigram is absent |
| PostingIndex.FindList | internal/codesearch/index/read.go:368-423 | In either version the answer is that of the lists the index holds |
| PostingReader.PostReader.Next | internal/codesearch/index/read.go:451-481 | The next id of the list that restrict lets pass, and which ids were left out before it |
| PostingReader.PostingList | internal/codesearch/index/read.go:525-533 | The ascending ids of the list that are in restrict |
| PostingReader.PostingAnd | internal/codesearch/index/read.go:539-555 | Written over the list in place: its ids that are in the posting list; nothing else is written |
| PostingReader.PostingOr | internal/codesearch/index/read.go:561-579 | The ascending union |
| PostingReader.MergeOr | internal/codesearch/index/read.go:637-656 | The ascending union of two lists, which stay as they are |
| PostingReader.QueryAnd | internal/codesearch/index/read.go:599-619 | The candidates that have all trigrams and satisfy all sub-queries, although lists are shared and narrowed in place |
| PostingReader.QueryOr | internal/codesearch/index/read.go:620-632 | The candidates that have some trigram or satisfy some sub-query |
| PostingReader.PostingQuery | internal/codesearch/index/read.go:585-635 | Exactly the ascending candidates whose trigrams satisfy the query; restrict is never overwritten |
| PostingWriter.WrittenV1 | internal/codesearch/index/write.go:873-884 | A file with the lists and the table of version 1 is an index of the lists |
| PostingWriter.WrittenV2 | internal/codesearch/index/write.go:884-902 | A file with the lists and the blocks of version 2 is an index of the lists |
| PostDataWriters.PostDataWriter.Trigram | internal/codesearch/index/write.go:855-865 | Opens a list behind those that are complete |
| PostDataWriters.PostDataWriter.FileId | internal/codesearch/index/write.go:867-871 | One more id of the open list |
| PostDataWriters.PostDataWriter.WriteEntryV2 | internal/codesearch/index/write.go:886-901 | The entry is in the current or in a new block; all entries so far are in the blocks in order, each block padded with zeros |
| PostDataWriters.PostDataWriter.EndTrigram | internal/codesearch/index/write.go:873-902 | The list is complete and indexed; it fails exactly if a number does not fit |
| PostDataWriters.PostDataWriter.Flush | internal/codesearch/index/write.go:838-843 | The last block is written |
| FileScan.Scan | internal/codesearch/index/write.go:215-281 | A file is accepted if and only if it has at most 2^30 bytes, no NUL, is a sequence of blocks as in PairsAreBlocks, has no line over 2000 bytes with its newline and at most 20000 trigrams; then exactly its trigrams are collected |
| FileScan.TrigramsOfText | internal/codesearch/index/write.go:247-258 | The trigrams of accepted text are neither 0 nor the invalid trigram |
| FileScan.RollingIsWindow | internal/codesearch/index/write.go:226-246 | The rolling value is the window of the last three bytes |
| FileScan.ValidTextPasses | internal/codesearch/index/write.go:750-765 | No byte pair of valid UTF-8 text is rejected |
| FileScan.PairsAreBlocks | internal/codesearch/index/write.go:750-765 | The byte pairs of a text are all accepted if and only if it is a sequence of ASCII bytes and of lead bytes with continuation bytes behind them, one or more; a lead byte may stand alone at the end |
| FileScan.LinesAreShort | internal/codesearch/index/write.go:265-273 | The check of line lengths accepts exactly the texts whose lines have at most 2000 bytes, newline included |
| RadixSort.Scratch.SortPost | internal/codesearch/index/write.go:776-821 | Two stable counting passes, through the scratch storage and back |
| RadixSort.StableOrder | internal/codesearch/index/write.go:783-800 | A pass orders by its digit and keeps the order there was among equal digits |
| RadixSort.RadixSorts | internal/codesearch/index/write.go:767-821 | Entries whose file ids do not descend come out in ascending order, each as often as it went in |
| PostHeaps.PostHeap.SiftDown | internal/codesearch/index/write.go:561-578 | Restores the heap order below a place and keeps the entries |
| PostHeaps.PostHeap.SiftUp | internal/codesearch/index/write.go:580-590 | Restores it above a place; the first element is its own parent |
| PostHeaps.PostHeap.Next | internal/codesearch/index/write.go:526-551 | A least entry, removed once; the sentinel when nothing is left |
| PostHeaps.PostHeap.NextOf | internal/codesearch/index/write.go:524-540 | Repeated calls go through the sorted entries of all chunks and then give only the sentinel |
| ChunkReaders.AllPostReader.Next | internal/codesearch/index/read.go:495-519 | The next entry of a chunk, if there is one |
| ChunkReaders.AllPostReader.ReadAll | internal/codesearch/index/write.go:471-481 | The entries of a flushed chunk, in order |
| Grouping.SameGroup | internal/codesearch/index/write.go:404-413 | An ascending entry with the same trigram continues its list |
| Grouping.NewGroup | internal/codesearch/index/write.go:404-413 | One with another trigram starts a later list |
| Grouping.GroupsHold | internal/codesearch/index/write.go:441-452 | A file is in the list of a trigram if and only if the entry was written |
| IndexWriters.WriteGroups | internal/codesearch/index/write.go:403-416 | The lists of a chunk hold exactly its entries |
| IndexWriters.IndexWriter.FlushPost | internal/codesearch/index/write.go:394-424 | The batch moves to the temporary file; the entries in chunks and memory stay those that were added |
| IndexWriters.IndexWriter.Add | internal/codesearch/index/write.go:215-295 | An indexable file is added with all its trigrams, each once; any other changes nothing |
| IndexWriters.AllEntered | internal/codesearch/index/write.go:287-293 | After the last trigram of a file the entries are exactly the trigrams of all files |
| IndexFiles.FillHeap | internal/codesearch/index/write.go:428-436 | The heap yields the sorted entries of all chunks and of the memory |
| IndexFiles.WriteAll | internal/codesearch/index/write.go:441-452 | The lists of all trigrams in order, and an empty list for the sentinel |
| IndexFiles.MergePost | internal/codesearch/index/write.go:428-455 | The bytes of the lists and of the index over them |
| IndexFiles.ListsExact | internal/codesearch/index/write.go:428-455 | The lists hold exactly the files of each trigram |
| IndexFiles.Flush | internal/codesearch/index/write.go:326-350 | The file is an index, as Open reads it, whose lists hold exactly the accepted files that contain each trigram; it only fails when a list does not fit into the format |
| Paths.Compare | internal/codesearch/index/path.go:44-59 | The sign is that of the byte order with slashes as zero bytes |
| Paths.PathWriter.Write | internal/codesearch/index/path.go:84-109 | The bytes are the encoding of the list with the path appended; offsets are recorded for each path or each group |
| Paths.PathReader.Next | internal/codesearch/index/path.go:159-193 | The first path of the list, until the limit or the end |
| Paths.OffsetAt | internal/codesearch/index/read.go:315-320 | The recorded offset of a path is at its place in the name index |
| Paths.NamesAt | internal/codesearch/index/read.go:309-328 | From any number on the reader delivers the names from there |
| Paths.Names | internal/codesearch/index/read.go:330-336 | The names of a range of ids are those written |
| Paths.RoundTripPaths | internal/codesearch/index/path.go:84-193 | Any list of non-empty paths (without NUL in version 1) reads back as it was |
| Paths.CoversMeans | internal/codesearch/index/merge.go:73-78 | The paths from a root to its limit are the root and what follows it behind a slash or a byte below 2 |
| Formats.UvarintMeans | internal/codesearch/index/delta.go:107-109 | A base-128 number has the highest bit set in each byte but the last, the low bits are its digits, and it is the shortest such form |
| Formats.Version1 | internal/codesearch/index/delta.go:107-109 | In version 1 a list is its numbers in this form |
| Formats.GammaMeans | internal/codesearch/index/delta.go:113-136 | The gamma code of y: n zeros, a one and n digits, 2n + 1 bits for numbers from 2^n to 2^(n+1) - 1 |
| Formats.Version2 | internal/codesearch/index/delta.go:98-154 | In version 2 a list is the gamma codes of its numbers, with 16 for 0 and one more from 16 on, filled up with fewer than eight zeros |
| Formats.ZeroAlone | internal/codesearch/index/delta.go:31-31 | The list of a zero is the bytes 0x10 and 0x00 in version 2, and 0x00 in version 1 |
| Formats.ListMeans | internal/codesearch/index/read.go:34-46 | A posting list is the three bytes of its trigram and the distances of its files, the first from -1, ended by a zero |
| Formats.EntryMeans | internal/codesearch/index/read.go:349-366 | An entry of version 1 has 11 bytes: trigram, count and offset, the highest byte first |
| Formats.BlockMeans | internal/codesearch/index/read.go:53-66 | A block of version 2 has 256 bytes: entries of a trigram, a count and an offset from the one before, then zeros |
| Formats.PathMeans | internal/codesearch/index/path.go:84-109 | A path is the length of its longest common prefix with the last one, the length of the rest, and the rest; every 16th name shares nothing |
| Formats.TwoPaths | internal/codesearch/index/read.go:19-24 | The example of the description: abcdef and abcx are 0 6 abcdef 3 1 x |
| MergeMaps.MapsInOrder | internal/codesearch/index/merge.go:39-42 | An increasing map keeps the order of ids and is a function |
| MergeMaps.PassRoot | internal/codesearch/index/merge.go:63-110 | One root: what is before it stays, what it covers is dropped, its files of the second index follow |
| MergeMaps.BuildMaps | internal/codesearch/index/merge.go:56-119 | Increasing maps whose images partition the new ids; exactly the uncovered files of the first index and all of the second survive; names ascend; no panic if and only if every file of the second index is covered |
| MergeMaps.AllTraced | internal/codesearch/index/merge.go:56-119 | Each new id is from a file of its own; all of the second index and exactly the uncovered ones of the first are there |
| MergeNames.MergeNames | internal/codesearch/index/merge.go:152-172 | The names written are those of the new ids in order, unless an offset is too large; the panic is unreachable |
| MergeLists.MergedLookup | internal/codesearch/index/merge.go:199-242 | The list of each trigram is the merge of the renumbered lists of both indexes |
| MergeLists.MergedSorted | internal/codesearch/index/merge.go:199-242 | The merged lists are in order and ascending |
| MergeLists.MergedDocument | internal/codesearch/index/merge.go:199-242 | Each file keeps exactly its trigrams |
| MergeLists.MergeProgresses | internal/codesearch/index/merge.go:199-204 | The loop never stops for lack of progress if and only if there are not too many terminators |
| MergeLists.MergedTerminators | internal/codesearch/index/merge.go:219-224 | A merge has one terminator more than the index with more of them |
| MergeLists.MergedTwice | internal/codesearch/index/merge.go:199-204 | Two results of merges always stop the loop |
| MergePosts.TableReader.LoadEntry | internal/codesearch/index/merge.go:325-350 | The entries of either kind of table in order, block after block |
| MergePosts.PostMapReader.NextTrigram | internal/codesearch/index/merge.go:309-358 | Moves to the next list of the table |
| MergePosts.PostMapReader.NextId | internal/codesearch/index/merge.go:360-384 | The new id of the next file that is not dropped |
| MergePosts.WriteBoth | internal/codesearch/index/merge.go:225-237 | The ascending union of two renumbered lists; the panic is unreachable |
| MergePosts.MergeAll | internal/codesearch/index/merge.go:195-242 | Writes the merged lists and a terminator, unless there is no progress, which is said exactly |
| MergeFiles.MergeIndexes | internal/codesearch/index/merge.go:189-282 | The merged file is an index of the merged lists that can be merged again, with one terminator more than the larger number of its parts, unless there is no progress or a list does not fit |
| MergeFiles.Merge | internal/codesearch/index/merge.go:52-283 | From names to lists: exactly the files that survive get one new id each and keep their trigrams, in the order of the names; the result can be read and has one terminator more; each way of not getting to the end is said exactly or by a list that does not fit |
| MergeFiles.BuiltIsReadable | internal/codesearch/index/merge.go:199-242 | A freshly built index can be read by a merge and has one terminator, so it merges with another such or with an index of two terminators, but not of three |
| Grep.CountNL | internal/index/index.go:267-278 | The number of newlines, which is the number of places that hold one |
| Grep.GrepData | internal/index/index.go:521-565 | Jumping from match to match finds what looking at each line finds, up to the limit: the first matching lines, with their numbers, and their bytes without the newlines and carriage returns at the end |
| Grep.GrepReports | internal/index/index.go:521-565 | Each report is of a matching line with its own number and its bytes, cut only at the end and only of newlines and carriage returns; numbers strictly ascend |
| Grep.GrepMissesNothing | internal/index/index.go:521-565 | Every matching line but an empty last one is reported, unless the limit is reached before it |
| Grep.GrepLastLine | internal/index/index.go:521-565 | The empty line behind a final newline is reported if and only if it matches and the line before it does not, unless the limit is reached |
| Search.VisitFile | internal/index/index.go:206-252 | The filters, the counters and the results of one file (SearchLaws.VisitLaws says what they are) |
| Search.SearchFiles | internal/index/index.go:206-253 | The loop over the files is the scan |
| Search.ScanWithoutBarren | internal/index/index.go:206-253 | Leaving out files without matching lines changes neither results nor counts, for any paging |
| Search.GrepCut | internal/index/index.go:227-227 | A limit cuts the list of matching lines short and changes nothing else |
| Search.ScanMeans | internal/index/index.go:198-261 | The results are the page of the files with matches, cut off after maxResults matches |
| SearchLaws.RelNameMeans | internal/index/index.go:242-245 | The name of a result is what follows the first /source/ of the path, or the path if there is none |
| SearchLaws.HitsMean | internal/index/index.go:227-229 | A text has hits if and only if it is not empty and has an accepted line, and they report all of them |
| SearchLaws.VisitLaws | internal/index/index.go:211-252 | A file is opened if and only if the one filter accepts its name and the other does not; one with a match is counted, and behind the offset and within the limit added, with reports of its first accepted lines |
| SearchLaws.ScanAnswers | internal/index/index.go:198-261 | The results are for the files with matches behind the offset, in order, as many as the limit allows, each whole and all counted, unless maxResults matches are reached first; there are never more |
| IndexedSearch.BuiltUnchanged | internal/index/index.go:196-222 | An index built from the files knows their trigrams |
| IndexedSearch.RuledOut | internal/index/index.go:196-227 | A file that the query rules out has no matching line |
| IndexedSearch.SearchCompiled | internal/index/index.go:168-262 | The search over the candidates has the results of the search over all indexed files: those that SearchLaws.Answers tells by names, filters and contents |
| IndexedSearch.SearchInPlace | internal/index/index.go:168-262 | With the query made on slices: the results of the search over all indexed files if the regexp is RoomFree |

## Left out

- Queries.AndOr: queries are values, where the source updates its arguments in place; no argument is used again after the call.
- Analysis.Alternate: sets are values here; SliceAnalysis.AlternateInPlace is alternate on slices that reuse their storage.
- Analysis.Analyze: sets are values; SliceAnalysis.AnalyzeInPlace is analyze on slices. `canEmpty` is carried along as the code does, but nothing is claimed about it, because concat never sets it.
- Analysis.RegexpQuery: sets are values; SliceAnalysis.RegexpQueryInPlace says for which regexps the query on slices is right.
- IndexedSearch.SearchCompiled: takes the query from the analysis on values; IndexedSearch.SearchInPlace takes that on slices.
- SliceAnalysis.RegexpQueryInPlace: that a regexp leaves no room suffices for its query to be right, and that it does so strictly for it to ask for what the regexp demands; neither is necessary, as strings that are lost may not matter. The conditions are exact for one alternation.
- Demands.DemandsNeeds: anchors, dots and what is optional demand nothing, and of case-folded literals only runes with two ASCII cases do.
- MixedCases.OneByteCondition: for single characters; for longer strings in one array the condition is stated on what simplification leaves (`Enclosed` and `FinalEnds`), with the order of the strings for the unions (SharedUnions).
- Parsing, simplifying and compiling regexps and the Unicode fold tables are not part of this model: the syntax tree, the fold orbit and the byte program are inputs, and `IndexedSearch.Compiled` says what is assumed of the program.
- UtfRanges: the lists that `appendFoldedRange` makes of case-folded instructions are ranges like others; `addRange` is only called without the fold flag. `oneByteRange` is in FoldedBytes.
- LazyDfa: `matchString` is the loop of `match` over a string, and `Grep.Reader` prints; neither is modelled.
- Files, memory mapping, gzip, buffering and logging: files are byte strings with offsets. Where the source ends the process on a size or order error, methods return a flag or have a precondition.
- `corrupt()` and the checks that lead to it: the readers are proved on data that the writers produce.
- PostHeaps: a flushed chunk is read to its end when it is added, where the source reads it entry by entry.
- PostHeaps: `step` is not called anywhere and is left out.
- IndexWriters: the order check of names in version 2, total byte counts and the zip branch of `Add`.
- MergeFiles.BuiltIsReadable: the counts of terminators are those of MergeFiles.Merge, whose result has one more than the larger of its parts.
- IndexFiles.Flush: the list of roots, the name sections and the trailer are arbitrary strings around the lists; names are written and read back in Paths.
- MergeFiles: the list of roots is not merged and the names section is not put into the file (MergeNames writes it); the switch of the write version inside Merge is taken as done, so merged files are of version 2.
- Paths: `HasPathPrefix`, on systems where the separator is a slash, and the alignment bytes between sections.
- Search: `truncateMatchLine`, context lines, durations and the revision are display only and left out.
- The updater, download, HTTP, storage and configuration code around the engine.
