/** Natural numbers as rows of bits, lowest bit first, and the 64-bit operations on them. */
module Bits {
  import opened Bytes

  type Row = seq<bool>

  function Pow2(n: nat): (p: nat)
    ensures p >= 1
  {
    if n == 0 then 1 else 2 * Pow2(n - 1)
  }

  const Word64 := 0x1_0000_0000_0000_0000

  lemma {:induction false} Pow2Add(m: nat, n: nat)
    ensures Pow2(m + n) == Pow2(m) * Pow2(n)
  {
    if m > 0 {
      Pow2Add(m - 1, n);
      assert Pow2(m + n) == 2 * Pow2(m - 1 + n);
      assert 2 * (Pow2(m - 1) * Pow2(n)) == (2 * Pow2(m - 1)) * Pow2(n);
    }
  }

  lemma {:induction false} Pow2Monotone(m: nat, n: nat)
    requires m <= n
    ensures Pow2(m) <= Pow2(n)
    decreases n
  {
    if m < n {
      Pow2Monotone(m, n - 1);
    }
  }

  lemma Pow2Is8()
    ensures Pow2(8) == 256
  {
    assert Pow2(4) == 16;
    hide Pow2;
    Pow2Add(4, 4);
  }

  lemma Pow2Is64()
    ensures Pow2(64) == Word64 && Pow2(8) == 256 && Pow2(32) == 0x1_0000_0000
  {
    Pow2Is8();
    hide Pow2;
    Pow2Add(8, 8);
    Pow2Add(16, 16);
    Pow2Add(32, 32);
  }

  function Bit(b: bool): nat {
    if b then 1 else 0
  }

  /** The number whose binary digits are s. */
  function Val(s: Row): nat {
    if s == [] then 0 else Bit(s[0]) + 2 * Val(s[1..])
  }

  /** The n lowest binary digits of x. */
  function Digits(x: nat, n: nat): (s: Row)
    ensures |s| == n
  {
    if n == 0 then [] else [x % 2 == 1] + Digits(x / 2, n - 1)
  }

  function Zeros(n: nat): (s: Row)
    ensures |s| == n && forall k :: 0 <= k < n ==> !s[k]
  {
    if n == 0 then [] else [false] + Zeros(n - 1)
  }

  lemma {:induction false} ValOfDigits(x: nat, n: nat)
    requires x < Pow2(n)
    ensures Val(Digits(x, n)) == x
  {
    if n > 0 {
      ValOfDigits(x / 2, n - 1);
    }
  }

  lemma {:induction false} DigitsOfVal(s: Row)
    ensures Digits(Val(s), |s|) == s && Val(s) < Pow2(|s|)
  {
    if s != [] {
      DigitsOfVal(s[1..]);
      assert Val(s) / 2 == Val(s[1..]);
    }
  }

  lemma {:induction false} ValAppend(s: Row, t: Row)
    ensures Val(s + t) == Val(s) + Pow2(|s|) * Val(t)
  {
    if s == [] {
      assert s + t == t;
    } else {
      assert (s + t)[1..] == s[1..] + t;
      ValAppend(s[1..], t);
      Doubled(Pow2(|s| - 1), Val(t));
    }
  }

  lemma {:induction false} ValZeros(n: nat)
    ensures Val(Zeros(n)) == 0
  {
    if n > 0 {
      ValZeros(n - 1);
      assert Zeros(n)[1..] == Zeros(n - 1);
    }
  }

  lemma Doubled(p: nat, q: nat)
    ensures 2 * (p * q) == (2 * p) * q
  {
  }

  lemma {:induction false} MulGap(p: nat, a: nat, b: nat)
    requires a < b
    ensures p * a + p <= p * b
    decreases b - a
  {
    if a + 1 < b {
      MulGap(p, a, b - 1);
      assert p * (b - 1) + p == p * b;
    } else {
      assert p * (a + 1) == p * a + p;
    }
  }

  lemma DivUnique(x: nat, p: nat, q: nat, r: nat)
    requires p > 0 && x == p * q + r && r < p
    ensures x / p == q && x % p == r
  {
    var q', r' := x / p, x % p;
    assert x == p * q' + r';
    if q < q' {
      MulGap(p, q, q');
    } else if q' < q {
      MulGap(p, q', q);
    }
  }

  // ------------------------------------------------------------ 64-bit operations

  function Or(x: nat, y: nat): nat
    decreases x + y
  {
    if x == 0 then y else if y == 0 then x
    else (if x % 2 == 1 || y % 2 == 1 then 1 else 0) + 2 * Or(x / 2, y / 2)
  }

  function Shl64(x: nat, n: nat): nat {
    x * Pow2(n) % Word64
  }

  function Quotient(x: nat, p: nat): nat
    requires p > 0
  {
    x / p
  }

  function Shr(x: nat, n: nat): nat {
    Quotient(x, Pow2(n))
  }

  function OrRows(s: Row, t: Row): (r: Row)
    requires |s| == |t|
    ensures |r| == |s| && forall k :: 0 <= k < |s| ==> r[k] == (s[k] || t[k])
  {
    if s == [] then [] else [s[0] || t[0]] + OrRows(s[1..], t[1..])
  }

  lemma {:induction false} OrOfVals(s: Row, t: Row)
    requires |s| == |t|
    ensures Or(Val(s), Val(t)) == Val(OrRows(s, t))
  {
    if s != [] {
      OrOfVals(s[1..], t[1..]);
      assert OrRows(s, t)[1..] == OrRows(s[1..], t[1..]);
      assert Or(0, Val(t[1..])) == Val(t[1..]) && Or(Val(s[1..]), 0) == Val(s[1..]);
    }
  }

  /** Shifted left within the word, a row stands above as many zeros; no bit is lost. */
  lemma ShiftLeft(n: nat, t: Row)
    requires n + |t| <= 64
    ensures Shl64(Val(t), n) == Val(Zeros(n) + t)
  {
    ValZeros(n);
    ValAppend(Zeros(n), t);
    DigitsOfVal(Zeros(n) + t);
    Pow2Monotone(n + |t|, 64);
    Pow2Is64();
    MulCommutes(Val(t), Pow2(n));
    SmallMod(Val(Zeros(n) + t), Word64);
  }

  lemma MulCommutes(x: nat, y: nat)
    ensures x * y == y * x
  {
  }

  lemma SmallMod(x: nat, m: nat)
    requires x < m
    ensures x % m == x
  {
  }

  lemma PadTop(s: Row, n: nat)
    ensures Val(s + Zeros(n)) == Val(s)
  {
    ValZeros(n);
    ValAppend(s, Zeros(n));
    assert Pow2(|s|) * 0 == 0;
  }

  /** A shift within the word loses nothing, and filling in the shifted bits puts one row above the other. */
  lemma ShiftIn(s: Row, t: Row)
    requires |s| + |t| <= 64
    ensures Or(Val(s), Shl64(Val(t), |s|)) == Val(s + t)
  {
    ShiftLeft(|s|, t);
    OrOfShifted(s, t);
  }

  lemma OrOfShifted(s: Row, t: Row)
    ensures Or(Val(s), Val(Zeros(|s|) + t)) == Val(s + t)
  {
    var low, high := s + Zeros(|t|), Zeros(|s|) + t;
    PadTop(s, |t|);
    OrOfVals(low, high);
    RowsShifted(s, t);
    hide Or, Val, OrRows, Zeros;
  }

  lemma RowsShifted(s: Row, t: Row)
    ensures OrRows(s + Zeros(|t|), Zeros(|s|) + t) == s + t
  {
    hide OrRows, Zeros;
    OrWithGap(s, Zeros(|t|), Zeros(|s|), t);
  }

  lemma OrWithGap(s: Row, y: Row, z: Row, t: Row)
    requires |y| == |t| && |z| == |s| && (forall k :: 0 <= k < |y| ==> !y[k]) && (forall k :: 0 <= k < |z| ==> !z[k])
    ensures OrRows(s + y, z + t) == s + t
  {
    hide OrRows;
    var r := OrRows(s + y, z + t);
    forall k | 0 <= k < |r|
      ensures r[k] == (s + t)[k]
    {
      if k < |s| {
        assert (s + y)[k] == s[k] && (z + t)[k] == z[k];
      } else {
        assert (s + y)[k] == y[k - |s|] && (z + t)[k] == t[k - |s|];
      }
    }
  }

  /** The same with a bit already set above both rows. */
  lemma ShiftInBelow(s: Row, t: Row, gap: nat)
    requires |s| + |t| + gap + 1 <= 64
    ensures Or(Val(s + Zeros(|t| + gap) + [true]), Shl64(Val(t), |s|)) == Val(s + t + Zeros(gap) + [true])
  {
    var top, low := s + Zeros(|t| + gap) + [true], Zeros(|s|) + t;
    ShiftLeft(|s|, t);
    PadTop(low, gap + 1);
    OrOfVals(top, low + Zeros(gap + 1));
    RowsBelow(s, t, gap);
    hide Or, Val, Shl64, OrRows, Zeros;
  }

  lemma RowsBelow(s: Row, t: Row, gap: nat)
    ensures OrRows(s + Zeros(|t| + gap) + [true], Zeros(|s|) + t + Zeros(gap + 1)) == s + t + Zeros(gap) + [true]
  {
    var a, b := s + Zeros(|t| + gap) + [true], Zeros(|s|) + t + Zeros(gap + 1);
    forall k | 0 <= k < |a|
      ensures OrRows(a, b)[k] == (s + t + Zeros(gap) + [true])[k]
    {
      assert OrRows(a, b)[k] == (a[k] || b[k]);
    }
  }

  /** Shifting right drops the lowest digits; masking keeps them. */
  lemma ShiftOut(s: Row, t: Row)
    ensures Shr(Val(s + t), |s|) == Val(t) && Val(s + t) % Pow2(|s|) == Val(s)
  {
    ValAppend(s, t);
    DigitsOfVal(s);
    DivUnique(Val(s + t), Pow2(|s|), Val(t), Val(s));
  }

  // ------------------------------------------------------------------ bytes as rows

  function BytesRow(d: Str): Row {
    if d == [] then [] else Digits(d[0], 8) + BytesRow(d[1..])
  }

  lemma {:induction false} BytesRowAppend(a: Str, b: Str)
    ensures BytesRow(a + b) == BytesRow(a) + BytesRow(b)
  {
    if a == [] {
      assert a + b == b;
    } else {
      assert (a + b)[1..] == a[1..] + b;
      BytesRowAppend(a[1..], b);
    }
  }

  lemma {:induction false} BytesRowLength(d: Str)
    ensures |BytesRow(d)| == 8 * |d|
  {
    if d != [] {
      BytesRowLength(d[1..]);
    }
  }

  lemma OneByteRow(b: Byte)
    ensures BytesRow([b]) == Digits(b, 8)
  {
    assert [b][1..] == [];
    assert BytesRow([b]) == Digits(b, 8) + BytesRow([]);
  }
}
