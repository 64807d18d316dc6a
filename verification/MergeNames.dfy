/** The names of a merged index (the loop over both maps in Merge, internal/codesearch/index/merge.go). */
module MergeNames {
  import opened Bytes
  import opened Paths
  import opened MergeMaps

  /** The names of the new ids. */
  ghost function Named(names1: seq<Str>, names2: seq<Str>, origin: seq<Origin>): (names: seq<Str>)
    ensures |names| == |origin|
  {
    seq(|origin|, n requires 0 <= n < |origin| => NameOf(names1, names2, origin[n]))
  }

  /** An offset that the index of names has to record is too large for it. */
  ghost predicate OffsetTooLarge(w: PathWriter, names: seq<Str>) {
    exists i :: 0 <= i < |names| && OffsetOf(w.version, w.group, names, i) >= Power256(UintSize(w.version))
  }

  /** Collect: writes all the paths. */
  method Collect(w: PathWriter, paths: seq<Str>, ghost names: seq<Str>) returns (ok: bool)
    requires w.Valid() && w.written + paths <= names
    modifies w`n, w`last, w`written, w.data, if w.index == null then {} else {w.index}
    ensures if ok then w.Valid() && w.written == old(w.written) + paths else OffsetTooLarge(w, names)
  {
    ok := true;
    for i := 0 to |paths|
      invariant w.Valid() && w.written == old(w.written) + paths[..i]
    {
      hide PathWriter.Valid;
      ghost var before := w.written;
      ok := w.Write(paths[i]);
      if !ok {
        var k := |before|;
        assert names[..k] == before == before[..k];
        assert OffsetOf(w.version, w.group, names, k) == OffsetOf(w.version, w.group, before, k);
        return;
      }
      assert paths[..i + 1] == paths[..i] + [paths[i]];
    }
    assert paths[..|paths|] == paths;
  }

  /** The ranges of a map are either before k and done at n, or not begun yet. */
  ghost predicate Between(m: seq<Range>, k: nat, n: nat) {
    && k <= |m|
    && (forall i :: 0 <= i < k ==> m[i].new_ + (m[i].hi - m[i].lo) <= n)
    && (forall i :: k <= i < |m| ==> n <= m[i].new_)
  }

  /** The next id belongs to the next range of the map that knows it. */
  lemma NextRange(m: seq<Range>, first: bool, origin: seq<Origin>, k: nat, n: nat)
    requires Increasing(m) && Agrees(m, first, origin) && Between(m, k, n) && n < |origin| && origin[n].first == first
    ensures k < |m| && m[k].new_ == n
  {
    assert MapsTo(m, origin[n].id, n);
    var i :| 0 <= i < |m| && Sends(m[i], origin[n].id, n);
    if k < i {
      BeforeRange(m, k, i);
      assert false;
    }
  }

  lemma BeforeRange(m: seq<Range>, k: nat, i: nat)
    requires Increasing(m) && k < i < |m|
    ensures m[k].new_ < m[i].new_
  {
    assert m[k].new_ + (m[k].hi - m[k].lo) <= m[i].new_;
  }

  /** What a range stands for. */
  lemma RangeOrigins(m: seq<Range>, first: bool, origin: seq<Origin>, k: nat, j: nat)
    requires Agrees(m, first, origin) && k < |m| && m[k].lo <= m[k].lo + j < m[k].hi
    ensures m[k].new_ + j < |origin| && origin[m[k].new_ + j] == Origin(first, m[k].lo + j)
  {
    assert Sends(m[k], m[k].lo + j, m[k].new_ + j);
    assert MapsTo(m, m[k].lo + j, m[k].new_ + j);
  }

  /** Passing a range of one map passes no range of the other by half. */
  lemma PassRange(m: seq<Range>, other: seq<Range>, first: bool, origin: seq<Origin>, k: nat, j: nat, n: nat)
    requires Increasing(m) && Agrees(m, first, origin) && Between(m, k, n) && k < |m| && m[k].new_ == n
    requires Increasing(other) && Agrees(other, !first, origin) && Between(other, j, n)
    ensures var n' := n + (m[k].hi - m[k].lo);
            Between(m, k + 1, n') && Between(other, j, n') && n' <= |origin|
  {
    var n' := n + (m[k].hi - m[k].lo);
    RangeOrigins(m, first, origin, k, m[k].hi - m[k].lo - 1);
    forall i | j <= i < |other|
      ensures n' <= other[i].new_
    {
      RangeOrigins(other, !first, origin, i, 0);
      if other[i].new_ < n' {
        RangeOrigins(m, first, origin, k, other[i].new_ - n);
      }
    }
  }

  lemma NamesOfRange(m: seq<Range>, first: bool, origin: seq<Origin>, k: nat, names1: seq<Str>, names2: seq<Str>)
    requires Increasing(m) && Agrees(m, first, origin) && k < |m| && m[k].hi <= |if first then names1 else names2|
    ensures var n, n' := m[k].new_, m[k].new_ + (m[k].hi - m[k].lo);
            n' <= |origin| &&
            Named(names1, names2, origin)[n..n'] == (if first then names1 else names2)[m[k].lo..m[k].hi]
  {
    var n, len := m[k].new_, m[k].hi - m[k].lo;
    var names := if first then names1 else names2;
    RangeOrigins(m, first, origin, k, len - 1);
    var a, b := Named(names1, names2, origin)[n..n + len], names[m[k].lo..m[k].hi];
    forall j | 0 <= j < len
      ensures a[j] == b[j]
    {
      RangeOrigins(m, first, origin, k, j);
    }
  }

  /** The loop of Merge over the names: range by range, from the map whose next range begins with the next id.
      One of them always does, so the panic is unreachable. The names that are written are those of the new
      ids in order, unless an offset does not fit into the index of names. */
  method MergeNames(s1: NameSection, s2: NameSection, map1: seq<Range>, map2: seq<Range>, numName: nat, w: PathWriter,
                    ghost names1: seq<Str>, ghost names2: seq<Str>, ghost rest1: Str, ghost rest2: Str, ghost origin: seq<Origin>)
    returns (ok: bool)
    requires HoldsNames(s1, names1, rest1) && HoldsNames(s2, names2, rest2) && numName == |origin|
    requires Increasing(map1) && Agrees(map1, true, origin) && Below(map1, |names1|, numName)
    requires Increasing(map2) && Agrees(map2, false, origin) && Below(map2, |names2|, numName)
    requires w.Valid() && w.version == 2 && w.written == []
    modifies w`n, w`last, w`written, w.data, if w.index == null then {} else {w.index}
    ensures if ok then w.Valid() && w.written == Named(names1, names2, origin)
            else OffsetTooLarge(w, Named(names1, names2, origin))
  {
    ghost var names := Named(names1, names2, origin);
    hide *;
    var k1, k2 := 0, 0;
    ok := true;
    AllAhead(map1);
    AllAhead(map2);
    Counted(w);
    while w.n != numName
      invariant w.Valid() && w.n == |w.written| <= numName && w.written == names[..w.n]
      invariant Between(map1, k1, w.n) && Between(map2, k2, w.n)
      decreases |map1| - k1 + |map2| - k2
    {
      var paths;
      if k1 < |map1| && map1[k1].new_ == w.n {
        PassRange(map1, map2, true, origin, k1, k2, w.n);
        InNames(map1, k1, |names1|, numName);
        NamesOfRange(map1, true, origin, k1, names1, names2);
        paths := Names(s1, map1[k1].lo, map1[k1].hi, names1, rest1);
        k1 := k1 + 1;
      } else if k2 < |map2| && map2[k2].new_ == w.n {
        PassRange(map2, map1, false, origin, k2, k1, w.n);
        InNames(map2, k2, |names2|, numName);
        NamesOfRange(map2, false, origin, k2, names1, names2);
        paths := Names(s2, map2[k2].lo, map2[k2].hi, names2, rest2);
        k2 := k2 + 1;
      } else {
        SomeRange(map1, map2, origin, k1, k2, w.n);
        assert false;
      }
      ghost var n := w.n;
      assert names[..n] + names[n..n + |paths|] == names[..n + |paths|];
      ok := Collect(w, paths, names);
      if !ok {
        return;
      }
      Counted(w);
    }
    assert names[..numName] == names;
  }

  lemma AllAhead(m: seq<Range>)
    ensures Between(m, 0, 0)
  {
  }

  lemma InNames(m: seq<Range>, k: nat, hi: nat, new_: nat)
    requires Increasing(m) && Below(m, hi, new_) && k < |m|
    ensures m[k].lo < m[k].hi <= hi
  {
  }

  lemma Counted(w: PathWriter)
    requires w.Valid() && w.version == 2
    ensures w.n == |w.written|
  {
  }

  lemma SomeRange(map1: seq<Range>, map2: seq<Range>, origin: seq<Origin>, k1: nat, k2: nat, n: nat)
    requires Increasing(map1) && Agrees(map1, true, origin) && Between(map1, k1, n)
    requires Increasing(map2) && Agrees(map2, false, origin) && Between(map2, k2, n) && n < |origin|
    ensures (k1 < |map1| && map1[k1].new_ == n) || (k2 < |map2| && map2[k2].new_ == n)
  {
    if origin[n].first {
      NextRange(map1, true, origin, k1, n);
    } else {
      NextRange(map2, false, origin, k2, n);
    }
  }
}
