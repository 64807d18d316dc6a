/** Byte strings, the order Go gives them, and the three-byte windows called trigrams. */
module Bytes {

  type Byte = b: int | 0 <= b < 256

  type Str = seq<Byte>

  datatype Option<+T> = None | Some(value: T)

  predicate IsPrefix(p: Str, w: Str) {
    |p| <= |w| && w[..|p|] == p
  }

  predicate IsSuffix(s: Str, w: Str) {
    |s| <= |w| && w[|w| - |s|..] == s
  }

  /** The window of three bytes that starts at position i. */
  function Window(w: Str, i: nat): Str
    requires i + 3 <= |w|
  {
    w[i..i + 3]
  }

  /** The trigrams of a text: its windows of three consecutive bytes. */
  function Trigrams(w: Str): set<Str> {
    set i | 0 <= i <= |w| - 3 :: Window(w, i)
  }

  lemma TrigramsInfix(a: Str, s: Str, b: Str)
    ensures Trigrams(s) <= Trigrams(a + s + b)
  {
    var w := a + s + b;
    forall t | t in Trigrams(s)
      ensures t in Trigrams(w)
    {
      var i :| 0 <= i <= |s| - 3 && t == Window(s, i);
      assert Window(w, |a| + i) == t;
    }
  }

  lemma TrigramsSlice(w: Str, i: nat, j: nat)
    requires i <= j <= |w|
    ensures Trigrams(w[i..j]) <= Trigrams(w)
  {
    TrigramsInfix(w[..i], w[i..j], w[j..]);
    assert w == w[..i] + w[i..j] + w[j..];
  }

  function Reverse(s: Str): (r: Str)
    ensures |r| == |s|
  {
    if s == [] then [] else Reverse(s[1..]) + [s[0]]
  }

  lemma {:induction false} ReverseAt(s: Str, k: nat)
    requires k < |s|
    ensures Reverse(s)[k] == s[|s| - 1 - k]
  {
    if k < |s| - 1 {
      ReverseAt(s[1..], k);
    }
  }

  lemma ReverseInjective(s: Str, t: Str)
    requires Reverse(s) == Reverse(t)
    ensures s == t
  {
    assert |s| == |t|;
    forall k | 0 <= k < |s|
      ensures s[k] == t[k]
    {
      ReverseAt(s, |s| - 1 - k);
      ReverseAt(t, |s| - 1 - k);
    }
  }

  /** Go's `<` on strings. */
  predicate Less(s: Str, t: Str) {
    if t == [] then false
    else if s == [] then true
    else if s[0] != t[0] then s[0] < t[0]
    else Less(s[1..], t[1..])
  }

  lemma {:induction false} LessAt(s: Str, t: Str, k: nat)
    requires k < |s| && k < |t| && s[..k] == t[..k] && s[k] != t[k]
    ensures Less(s, t) <==> s[k] < t[k]
  {
    if k > 0 {
      assert s[0] == s[..k][0] == t[..k][0] == t[0];
      assert s[1..][..k - 1] == s[..k][1..] && t[1..][..k - 1] == t[..k][1..];
      LessAt(s[1..], t[1..], k - 1);
    }
  }

  lemma {:induction false} LessPrefix(s: Str, t: Str, k: nat)
    requires k <= |s| && k <= |t| && (k == |s| || k == |t|) && s[..k] == t[..k]
    ensures Less(s, t) <==> |s| < |t|
  {
    if k > 0 {
      assert s[0] == s[..k][0] == t[..k][0] == t[0];
      assert s[1..][..k - 1] == s[..k][1..] && t[1..][..k - 1] == t[..k][1..];
      LessPrefix(s[1..], t[1..], k - 1);
    }
  }

  lemma {:induction false} LessIrreflexive(s: Str)
    ensures !Less(s, s)
  {
    if s != [] {
      LessIrreflexive(s[1..]);
    }
  }

  lemma {:induction false} LessTransitive(s: Str, t: Str, u: Str)
    requires Less(s, t) && Less(t, u)
    ensures Less(s, u)
  {
    if s != [] && s[0] == t[0] && t[0] == u[0] {
      LessTransitive(s[1..], t[1..], u[1..]);
    }
  }

  lemma {:induction false} LessTotal(s: Str, t: Str)
    ensures Less(s, t) || s == t || Less(t, s)
  {
    if s != [] && t != [] && s[0] == t[0] {
      LessTotal(s[1..], t[1..]);
      assert s == [s[0]] + s[1..];
      assert t == [t[0]] + t[1..];
    }
  }
}
