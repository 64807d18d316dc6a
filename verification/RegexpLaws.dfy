/** What it means that a regexp matches a span of a text, told by positions in the text instead of by recursion
    (the semantics of regexp/syntax that internal/codesearch/index/regexp.go is written for). */
module RegexpLaws {
  import opened Bytes
  import opened Utf8
  import opened RegexpSyntax
  import Analysis

  ghost predicate MatchesAt(re: Regexp, text: Str, i: nat, j: nat, orbit: Orbit)
    requires WellFormed(re)
  {
    i <= j <= |text| && Matches(re, text, i, j, orbit)
  }

  // ------------------------------------------------------------------ concatenation

  /** The expressions match between the positions, one after the other. */
  ghost predicate Aligned(res: seq<Regexp>, text: Str, ps: seq<nat>, orbit: Orbit)
    requires forall s | s in res :: WellFormed(s)
  {
    |ps| == |res| + 1 && forall k | 0 <= k < |res| :: MatchesAt(res[k], text, ps[k], ps[k + 1], orbit)
  }

  lemma {:induction false} AlignedMatches(res: seq<Regexp>, text: Str, ps: seq<nat>, orbit: Orbit)
    requires (forall s | s in res :: WellFormed(s)) && Aligned(res, text, ps, orbit) && ps[0] <= |text|
    ensures ps[0] <= ps[|ps| - 1] <= |text| && MatchesAll(res, text, ps[0], ps[|ps| - 1], orbit)
  {
    if res != [] {
      assert MatchesAt(res[0], text, ps[0], ps[1], orbit);
      forall k | 0 <= k < |res[1..]|
        ensures MatchesAt(res[1..][k], text, ps[1..][k], ps[1..][k + 1], orbit)
      {
        assert MatchesAt(res[k + 1], text, ps[k + 1], ps[k + 2], orbit);
      }
      hide Matches;
      AlignedMatches(res[1..], text, ps[1..], orbit);
    }
  }

  lemma {:induction false} AlignmentOf(res: seq<Regexp>, text: Str, i: nat, j: nat, orbit: Orbit) returns (ps: seq<nat>)
    requires (forall s | s in res :: WellFormed(s)) && i <= j <= |text| && MatchesAll(res, text, i, j, orbit)
    ensures Aligned(res, text, ps, orbit) && ps[0] == i && ps[|ps| - 1] == j
  {
    if res == [] {
      ps := [i];
    } else {
      var k :| i <= k <= j && Matches(res[0], text, i, k, orbit) && MatchesAll(res[1..], text, k, j, orbit);
      var rest := AlignmentOf(res[1..], text, k, j, orbit);
      ps := [i] + rest;
      hide Matches, MatchesAll;
      forall n | 0 <= n < |res|
        ensures MatchesAt(res[n], text, ps[n], ps[n + 1], orbit)
      {
        if n > 0 {
          assert MatchesAt(res[1..][n - 1], text, rest[n - 1], rest[n], orbit);
        }
      }
    }
  }

  /** A concatenation matches exactly if there are positions between which its parts match in order. */
  lemma ConcatMeans(subs: seq<Regexp>, text: Str, i: nat, j: nat, orbit: Orbit)
    requires WellFormed(Concat(subs)) && i <= j <= |text|
    ensures Matches(Concat(subs), text, i, j, orbit) <==>
            exists ps :: Aligned(subs, text, ps, orbit) && ps[0] == i && ps[|ps| - 1] == j
  {
    if Matches(Concat(subs), text, i, j, orbit) {
      var ps := AlignmentOf(subs, text, i, j, orbit);
    }
    if ps :| Aligned(subs, text, ps, orbit) && ps[0] == i && ps[|ps| - 1] == j {
      AlignedMatches(subs, text, ps, orbit);
    }
  }

  // --------------------------------------------------------------------- repetition

  /** Copies of the expression match between the positions. */
  ghost predicate Copies(re: Regexp, text: Str, ps: seq<nat>, orbit: Orbit)
    requires WellFormed(re)
  {
    ps != [] && forall k | 0 <= k < |ps| - 1 :: MatchesAt(re, text, ps[k], ps[k + 1], orbit)
  }

  lemma {:induction false} CopiesMatch(re: Regexp, min: nat, max: int, text: Str, ps: seq<nat>, orbit: Orbit)
    requires WellFormed(re) && Copies(re, text, ps, orbit) && ps[0] <= |text|
    requires min <= |ps| - 1 && (max < 0 || |ps| - 1 <= max)
    ensures ps[0] <= ps[|ps| - 1] <= |text| && MatchesRepeat(re, min, max, text, ps[0], ps[|ps| - 1], orbit)
    decreases |ps|
  {
    if |ps| > 1 {
      assert MatchesAt(re, text, ps[0], ps[1], orbit);
      forall k | 0 <= k < |ps[1..]| - 1
        ensures MatchesAt(re, text, ps[1..][k], ps[1..][k + 1], orbit)
      {
        assert MatchesAt(re, text, ps[k + 1], ps[k + 2], orbit);
      }
      hide Matches;
      if min > 0 || ps[0] < ps[1] {
        CopiesMatch(re, if min > 0 then min - 1 else 0, if max < 0 then max else max - 1, text, ps[1..], orbit);
      } else {
        CopiesMatch(re, 0, max, text, ps[1..], orbit);
      }
    }
  }

  lemma {:induction false} CopiesOf(re: Regexp, min: nat, max: int, text: Str, i: nat, j: nat, orbit: Orbit) returns (ps: seq<nat>)
    requires WellFormed(re) && i <= j <= |text| && MatchesRepeat(re, min, max, text, i, j, orbit)
    ensures Copies(re, text, ps, orbit) && ps[0] == i && ps[|ps| - 1] == j
    ensures min <= |ps| - 1 && (max < 0 || |ps| - 1 <= max)
    decreases min + j - i
  {
    if min == 0 && i == j {
      ps := [i];
    } else {
      var min', max' := if min > 0 then min - 1 else 0, if max < 0 then max else max - 1;
      var k :| i <= k <= j && (min > 0 || i < k) && Matches(re, text, i, k, orbit) && MatchesRepeat(re, min', max', text, k, j, orbit);
      var rest := CopiesOf(re, min', max', text, k, j, orbit);
      ps := [i] + rest;
      hide Matches, MatchesRepeat;
      forall n | 0 <= n < |ps| - 1
        ensures MatchesAt(re, text, ps[n], ps[n + 1], orbit)
      {
        if n > 0 {
          assert MatchesAt(re, text, rest[n - 1], rest[n], orbit);
        }
      }
    }
  }

  /** A repetition matches exactly if so many copies match one after the other: at least min of them and, unless max
      is negative, at most max. */
  lemma RepeatMeans(sub: Regexp, min: nat, max: int, text: Str, i: nat, j: nat, orbit: Orbit)
    requires WellFormed(sub) && i <= j <= |text|
    ensures Matches(Repeat(sub, min, max), text, i, j, orbit) <==>
            exists ps :: Copies(sub, text, ps, orbit) && ps[0] == i && ps[|ps| - 1] == j &&
                         min <= |ps| - 1 && (max < 0 || |ps| - 1 <= max)
  {
    if Matches(Repeat(sub, min, max), text, i, j, orbit) {
      var ps := CopiesOf(sub, min, max, text, i, j, orbit);
    }
    if ps :| Copies(sub, text, ps, orbit) && ps[0] == i && ps[|ps| - 1] == j && min <= |ps| - 1 && (max < 0 || |ps| - 1 <= max) {
      CopiesMatch(sub, min, max, text, ps, orbit);
    }
  }

  /** Star, Plus and Quest are repetitions. */
  lemma StarPlusQuest(sub: Regexp, text: Str, i: nat, j: nat, orbit: Orbit)
    requires WellFormed(sub) && i <= j <= |text|
    ensures Matches(Star(sub), text, i, j, orbit) <==> Matches(Repeat(sub, 0, -1), text, i, j, orbit)
    ensures Matches(Plus(sub), text, i, j, orbit) <==> Matches(Repeat(sub, 1, -1), text, i, j, orbit)
    ensures Matches(Quest(sub), text, i, j, orbit) <==> Matches(Repeat(sub, 0, 1), text, i, j, orbit)
  {
    OptionalMeans(sub, text, i, j, orbit);
    hide MatchesRepeat;
  }

  lemma OptionalMeans(sub: Regexp, text: Str, i: nat, j: nat, orbit: Orbit)
    requires WellFormed(sub) && i <= j <= |text|
    ensures MatchesRepeat(sub, 0, 1, text, i, j, orbit) <==> i == j || Matches(sub, text, i, j, orbit)
  {
    hide Matches, MatchesRepeat;
    if MatchesRepeat(sub, 0, 1, text, i, j, orbit) {
      var ps := CopiesOf(sub, 0, 1, text, i, j, orbit);
      assert |ps| == 2 ==> MatchesAt(sub, text, ps[0], ps[1], orbit);
    }
    if i == j {
      CopiesMatch(sub, 0, 1, text, [i], orbit);
    } else if Matches(sub, text, i, j, orbit) {
      assert MatchesAt(sub, text, [i, j][0], [i, j][1], orbit);
      CopiesMatch(sub, 0, 1, text, [i, j], orbit);
    }
  }

  // ------------------------------------------------------------------ folded literals

  /** The encodings of a rune and of the other runes of its orbit. */
  ghost predicate FormOf(w: Str, r: int, orbit: Orbit) {
    w == EncodeRune(r) || exists x :: x in orbit(r) && w == EncodeRune(x)
  }

  lemma {:induction false} DoubledHas(rs: seq<int>, x: int)
    requires x in rs
    ensures InPairs(Doubled(rs), EncodeRune(x))
  {
    var rest := Doubled(rs[1..]);
    assert ([rs[0], rs[0]] + rest)[2..] == rest;
    Analysis.RangeStrings(rs[0], rs[0], EncodeRune(x));
    hide EncodeRune, InRange;
    if x != rs[0] {
      DoubledHas(rs[1..], x);
    }
  }

  lemma FoldClassMeans(r: int, orbit: Orbit, w: Str)
    ensures InClass(FoldClass(r, orbit), w) <==> FormOf(w, r, orbit)
  {
    var rest := Doubled(orbit(r));
    assert ([r, r] + rest)[2..] == rest;
    Analysis.RangeStrings(r, r, w);
    hide EncodeRune, InRange;
    if InPairs(rest, w) {
      Analysis.DoubledMeans(orbit(r), w);
    }
    if x :| x in orbit(r) && w == EncodeRune(x) {
      DoubledHas(orbit(r), x);
    }
  }

  ghost predicate FormAt(w: Str, r: int, i: nat, j: nat, orbit: Orbit) {
    i <= j <= |w| && FormOf(w[i..j], r, orbit)
  }

  /** The string, cut at the positions, is a form of each rune in order. */
  ghost predicate FormsOf(w: Str, runes: seq<int>, ps: seq<nat>, orbit: Orbit) {
    |ps| == |runes| + 1 && forall k | 0 <= k < |runes| :: FormAt(w, runes[k], ps[k], ps[k + 1], orbit)
  }

  lemma {:induction false} FormsFolded(w: Str, runes: seq<int>, ps: seq<nat>, orbit: Orbit)
    requires FormsOf(w, runes, ps, orbit) && ps[0] <= |w|
    ensures ps[0] <= ps[|ps| - 1] <= |w| && InFolded(runes, w[ps[0]..ps[|ps| - 1]], orbit)
  {
    if runes != [] {
      assert FormAt(w, runes[0], ps[0], ps[1], orbit);
      forall k | 0 <= k < |runes[1..]|
        ensures FormAt(w, runes[1..][k], ps[1..][k], ps[1..][k + 1], orbit)
      {
        assert FormAt(w, runes[k + 1], ps[k + 1], ps[k + 2], orbit);
      }
      hide FormOf, InClass, FoldClass;
      FormsFolded(w, runes[1..], ps[1..], orbit);
      var u, k := w[ps[0]..ps[|ps| - 1]], ps[1] - ps[0];
      assert u[..k] == w[ps[0]..ps[1]] && u[k..] == w[ps[1]..ps[|ps| - 1]];
      FoldClassMeans(runes[0], orbit, u[..k]);
    }
  }

  lemma {:induction false} FormsIn(w: Str, runes: seq<int>, i: nat, orbit: Orbit) returns (ps: seq<nat>)
    requires i <= |w| && InFolded(runes, w[i..], orbit)
    ensures FormsOf(w, runes, ps, orbit) && ps[0] == i && ps[|ps| - 1] == |w|
    decreases |runes|
  {
    if runes == [] {
      ps := [i];
    } else {
      var u := w[i..];
      var n :| 0 <= n <= |u| && InClass(FoldClass(runes[0], orbit), u[..n]) && InFolded(runes[1..], u[n..], orbit);
      FoldClassMeans(runes[0], orbit, u[..n]);
      assert u[..n] == w[i..i + n] && u[n..] == w[i + n..];
      hide FormOf, InClass, FoldClass, InFolded;
      var rest := FormsIn(w, runes[1..], i + n, orbit);
      ps := [i] + rest;
      forall k | 0 <= k < |runes|
        ensures FormAt(w, runes[k], ps[k], ps[k + 1], orbit)
      {
        if k > 0 {
          assert FormAt(w, runes[1..][k - 1], rest[k - 1], rest[k], orbit);
        }
      }
    }
  }

  /** A case-folded literal stands for the strings that are a form of each of its runes, one after the other. */
  lemma FoldedMeans(runes: seq<int>, w: Str, orbit: Orbit)
    ensures InFolded(runes, w, orbit) <==> exists ps :: FormsOf(w, runes, ps, orbit) && ps[0] == 0 && ps[|ps| - 1] == |w|
  {
    assert w[0..] == w && w[0..|w|] == w;
    if InFolded(runes, w, orbit) {
      var ps := FormsIn(w, runes, 0, orbit);
    }
    if ps :| FormsOf(w, runes, ps, orbit) && ps[0] == 0 && ps[|ps| - 1] == |w| {
      FormsFolded(w, runes, ps, orbit);
    }
  }
}
