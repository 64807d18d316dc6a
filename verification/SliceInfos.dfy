/** The information about a regexp with its sets as slices, and its simplification in place (regexpInfo and
    simplify of internal/codesearch/index/regexp.go). */
module SliceInfos {
  import opened Bytes
  import opened StringSets
  import opened Queries
  import opened Analysis
  import opened StorageReuse
  import opened SharedUnions

  /** A nil exact set is None; nil prefixes and suffixes are slices of arrays without room. */
  datatype SliceInfo = SliceInfo(canEmpty: bool, exact: Option<Slice>, prefix: Slice, suffix: Slice, query: Query)

  ghost function Arrays(i: SliceInfo): set<array<Str>> {
    {i.prefix.arr, i.suffix.arr} + if i.exact.Some? then {i.exact.value.arr} else {}
  }

  /** The three sets are in arrays of their own. */
  ghost predicate Apart(i: SliceInfo) {
    i.prefix.arr != i.suffix.arr && (i.exact.Some? ==> i.exact.value.arr !in {i.prefix.arr, i.suffix.arr})
  }

  /** What is so for every information: prefixes and suffixes can only share an array when there is no exact set. */
  ghost predicate Proper(i: SliceInfo) {
    && Ok(i.prefix) && Ok(i.suffix) && WellFormed(i.query) && Solid(i.query)
    && (i.exact.Some? ==> Ok(i.exact.value) && Apart(i))
  }

  /** What the slices read as. */
  ghost function Value(i: SliceInfo): Info
    requires Proper(i)
    reads Arrays(i)
  {
    Info(i.canEmpty, if i.exact.Some? then Some(Items(i.exact.value)) else None, Items(i.prefix), Items(i.suffix), i.query)
  }

  method NilSlice() returns (s: Slice)
    ensures Ok(s) && fresh(s.arr) && Items(s) == [] && s.len == 0
  {
    var arr := new Str[0];
    s := Slice(arr, 0);
  }

  /** A composite literal. */
  method SliceOf(t: seq<Str>) returns (s: Slice)
    ensures Ok(s) && fresh(s.arr) && Items(s) == t && s.arr.Length == |t|
  {
    var arr := new Str[|t|](i requires 0 <= i < |t| => t[i]);
    s := Slice(arr, |t|);
    assert arr[..] == t;
  }

  /** The loop of simplify that gives up the exact set: the first and the last two bytes of each string. */
  method SpillInPlace(exact: Slice, prefix0: Slice, suffix0: Slice, grow: Growth) returns (prefix: Slice, suffix: Slice)
    requires Ok(exact) && Ok(prefix0) && Ok(suffix0)
    requires prefix0.arr != suffix0.arr && exact.arr !in {prefix0.arr, suffix0.arr}
    modifies prefix0.arr, suffix0.arr
    ensures Ok(prefix) && Ok(suffix) && prefix.arr != suffix.arr
    ensures prefix.arr == prefix0.arr || fresh(prefix.arr)
    ensures suffix.arr == suffix0.arr || fresh(suffix.arr)
    ensures Items(prefix) == old(Items(prefix0)) + CutAll(old(Items(exact)), 2, false)
    ensures Items(suffix) == old(Items(suffix0)) + CutAll(old(Items(exact)), 2, true)
  {
    hide Appended, CutAll, Memory, Replaced, CutTo, Capacity, Fits;
    prefix, suffix := prefix0, suffix0;
    ghost var items := Items(exact);
    NothingCut(items);
    for i := 0 to exact.len
      invariant Ok(prefix) && Ok(suffix) && prefix.arr != suffix.arr
      invariant prefix.arr == prefix0.arr || fresh(prefix.arr)
      invariant suffix.arr == suffix0.arr || fresh(suffix.arr)
      invariant Items(exact) == items
      invariant Items(prefix) == old(Items(prefix0)) + CutAll(items[..i], 2, false)
      invariant Items(suffix) == old(Items(suffix0)) + CutAll(items[..i], 2, true)
    {
      var s := exact.arr[i];
      assert s == items[i];
      var n := |s|;
      CutAllNext(items, i);
      ghost var pre, suf := Items(prefix), Items(suffix);
      prefix := Append(prefix, [if n < 3 then s else s[..2]], grow);
      assert Items(suffix) == suf;
      ghost var pre' := Items(prefix);
      suffix := Append(suffix, [if n < 3 then s else s[n - 2..]], grow);
      assert Items(prefix) == pre';
    }
    assert items[..exact.len] == items;
  }

  lemma NothingCut(t: seq<Str>)
    ensures CutAll(t[..0], 2, false) == [] && CutAll(t[..0], 2, true) == []
  {
  }

  lemma CutAllNext(t: seq<Str>, i: nat)
    requires i < |t|
    ensures var s := t[i];
            && CutAll(t[..i + 1], 2, false) == CutAll(t[..i], 2, false) + [if |s| < 3 then s else s[..2]]
            && CutAll(t[..i + 1], 2, true) == CutAll(t[..i], 2, true) + [if |s| < 3 then s else s[|s| - 2..]]
  {
    assert t[..i + 1] == t[..i] + [t[i]];
  }

  /** simplify, in place. When the three sets are in arrays of their own, it is simplification of values, and the
      results are so again. */
  method SimplifyInPlace(info: SliceInfo, force: bool, grow: Growth) returns (out: SliceInfo)
    requires Proper(info)
    modifies Arrays(info)
    ensures Proper(out) && (forall a :: a in Arrays(out) ==> a in Arrays(info) || fresh(a))
    ensures Apart(info) ==> Apart(out) && IsSimple(old(Value(info)), force, Value(out))
    ensures out.exact.Some? ==> info.exact.Some? && out.exact.value.arr == info.exact.value.arr
  {
    if info.exact.None? {
      var q, prefix, suffix := SimplifyBoth(info.query, info.prefix, info.suffix);
      out := SliceInfo(info.canEmpty, None, prefix, suffix, q);
      if Apart(info) {
        EndsAreSimple(old(Value(info)), force, Value(out));
      }
    } else {
      out := SimplifyExact(info, force, grow);
    }
  }

  lemma EndsAreSimple(info: Info, force: bool, out: Info)
    requires WellFormed(out.query) && Solid(out.query) && info.exact.None? && out.exact.None? && out.canEmpty == info.canEmpty
    requires out.prefix == SimplifiedSet(info.prefix, false) && out.suffix == SimplifiedSet(info.suffix, true)
    requires forall T :: Eval(out.query, T) <==> Eval(info.query, T) && Required(info.prefix, T) && Required(info.suffix, T)
    ensures IsSimple(info, force, out)
  {
    hide SimplifiedSet, Eval, Required, WellFormed, Solid;
  }

  method SimplifyExact(info: SliceInfo, force: bool, grow: Growth) returns (out: SliceInfo)
    requires Proper(info) && info.exact.Some?
    modifies Arrays(info)
    ensures Proper(out) && (forall a :: a in Arrays(out) ==> a in Arrays(info) || fresh(a)) && Apart(out)
    ensures IsSimple(old(Value(info)), force, Value(out))
    ensures out.exact.Some? ==> out.exact.value.arr == info.exact.value.arr
  {
    hide SimplifiedSet, Eval, Required, WellFormed, Solid, Cleaned, CutAll, IsSimple, MinLength;
    var exact := CleanInPlace(info.exact.value, false);
    ghost var clean := Items(exact);
    var m := MinLen(exact.arr[..exact.len]);
    if exact.len > MaxExact || (m >= 3 && force) || m >= 4 {
      var q := AndTrigrams(info.query, exact.arr[..exact.len]);
      var prefix, suffix := SpillInPlace(exact, info.prefix, info.suffix, grow);
      q, prefix, suffix := SimplifyBoth(q, prefix, suffix);
      out := SliceInfo(info.canEmpty, None, prefix, suffix, q);
      FlushIsSimple(old(Value(info)), force, clean, Value(out));
    } else {
      out := info.(exact := Some(exact));
      KeptIsSimple(old(Value(info)), force, clean, Value(out));
    }
  }

  lemma FlushIsSimple(info: Info, force: bool, clean: seq<Str>, out: Info)
    requires WellFormed(out.query) && Solid(out.query) && info.exact.Some? && out.exact.None? && out.canEmpty == info.canEmpty
    requires clean == Cleaned(info.exact.value, false) && TooMuch(clean, force)
    requires out.prefix == SimplifiedSet(info.prefix + CutAll(clean, 2, false), false)
    requires out.suffix == SimplifiedSet(info.suffix + CutAll(clean, 2, true), true)
    requires forall T :: Eval(out.query, T) <==>
                         Eval(info.query, T) && Required(clean, T) && Required(info.prefix + CutAll(clean, 2, false), T) &&
                         Required(info.suffix + CutAll(clean, 2, true), T)
    ensures IsSimple(info, force, out)
  {
    hide SimplifiedSet, Eval, Required, WellFormed, Solid, Cleaned, CutAll, TooMuch;
  }

  lemma KeptIsSimple(info: Info, force: bool, clean: seq<Str>, out: Info)
    requires WellFormed(info.query) && info.exact.Some? && out == info.(exact := Some(clean))
    requires clean == Cleaned(info.exact.value, false) && !TooMuch(clean, force)
    ensures IsSimple(info, force, out)
  {
    hide SimplifiedSet, Eval, Required, WellFormed, Solid, Cleaned, CutAll, TooMuch;
  }
}
