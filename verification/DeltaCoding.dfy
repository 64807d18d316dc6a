/** Lists of non-negative numbers as bytes: base-128 numbers in version 1, gamma codes in version 2
    (internal/codesearch/index/delta.go). */
module DeltaCoding {
  import opened Bytes
  import opened Varint
  import opened Bits
  import opened Buffers

  const DeltaZeroEnc := 16

  /** bits.Len64(x) - 1. */
  function Log2(x: nat): nat
    requires x > 0
  {
    if x < 2 then 0 else 1 + Log2(x / 2)
  }

  /** The digits of x without the highest one, which is 1. */
  lemma {:induction false} TopDigit(x: nat)
    requires x > 0
    ensures Val(Digits(x, Log2(x)) + [true]) == x && x % Pow2(Log2(x)) == Val(Digits(x, Log2(x)))
  {
    if x < 2 {
      assert Val([true]) == 1 + 2 * Val([]) by {
        assert [true][1..] == [];
      }
      assert Digits(x, 0) + [true] == [true];
    } else {
      TopDigit(x / 2);
      var s := Digits(x / 2, Log2(x / 2));
      assert Digits(x, Log2(x)) == [x % 2 == 1] + s;
      assert (Digits(x, Log2(x)) + [true])[1..] == s + [true];
      ShiftOut(Digits(x, Log2(x)), [true]);
      DigitsLength(x, Log2(x));
    }
  }

  lemma DigitsLength(x: nat, n: nat)
    ensures |Digits(x, n)| == n
  {
  }

  /** The gamma code of x: as many zeros as digits follow the leading 1, the 1, and those digits. */
  function Gamma(x: nat): Row
    requires x > 0
  {
    Zeros(Log2(x)) + [true] + Digits(x, Log2(x))
  }

  /** Zero has no gamma code: 16 stands for it, and larger numbers move up by one. */
  function Shifted(x: nat): (y: nat)
    ensures y > 0
  {
    if x == 0 then DeltaZeroEnc else if x >= DeltaZeroEnc then x + 1 else x
  }

  function Gammas(xs: seq<nat>): Row {
    if xs == [] then [] else Gamma(Shifted(xs[0])) + Gammas(xs[1..])
  }

  function Uvarints(xs: seq<nat>): Str {
    if xs == [] then [] else PutUvarint(xs[0]) + Uvarints(xs[1..])
  }

  /** A row of bits as bytes, the last one filled up with zeros. */
  function Pack(r: Row): Str {
    if r == [] then []
    else if |r| <= 8 then [PackByte(r)]
    else [PackByte(r[..8])] + Pack(r[8..])
  }

  function LastByte(r: Row): Str
    requires |r| <= 8
  {
    if r == [] then [] else [PackByte(r)]
  }

  function PackByte(r: Row): Byte
    requires |r| <= 8
  {
    DigitsOfVal(r);
    Pow2Monotone(|r|, 8);
    Pow2Is64();
    Val(r)
  }

  function Encode(version: nat, xs: seq<nat>): Str {
    if version == 2 then Pack(Gammas(xs)) else Uvarints(xs)
  }

  const MaxDelta := 0x7FFF_FFFF_FFFF_FFFE

  ghost predicate InRange(xs: seq<nat>) {
    forall k :: 0 <= k < |xs| ==> xs[k] <= MaxDelta
  }

  lemma {:induction false} GammasAppend(a: seq<nat>, b: seq<nat>)
    ensures Gammas(a + b) == Gammas(a) + Gammas(b) && Uvarints(a + b) == Uvarints(a) + Uvarints(b)
  {
    if a == [] {
      assert a + b == b;
    } else {
      assert (a + b)[1..] == a[1..] + b;
      GammasAppend(a[1..], b);
    }
  }

  lemma OneGamma(x: nat)
    ensures Gammas([x]) == Gamma(Shifted(x)) && Uvarints([x]) == PutUvarint(x)
  {
    assert [x][1..] == [];
  }

  lemma PackStep(c: Byte, tail: Row)
    ensures Pack(Digits(c, 8) + tail) == [c] + Pack(tail)
  {
    var r := Digits(c, 8) + tail;
    Pow2Is64();
    ValOfDigits(c, 8);
    assert r[..8] == Digits(c, 8) && r[8..] == tail;
    if |r| <= 8 {
      assert r == r[..8] && tail == [];
    }
  }

  /** Whole bytes followed by a rest of fewer than eight bits are what packing gives. */
  lemma {:induction false} PackWhole(e: Str, pend: Row)
    requires |pend| < 8
    ensures Pack(BytesRow(e) + pend) == e + if pend == [] then [] else [PackByte(pend)]
  {
    if e == [] {
      assert BytesRow(e) + pend == pend;
    } else {
      PackWhole(e[1..], pend);
      PackStep(e[0], BytesRow(e[1..]) + pend);
      assert BytesRow(e) + pend == Digits(e[0], 8) + (BytesRow(e[1..]) + pend);
      assert e == [e[0]] + e[1..];
    }
  }

  /** Unpacking gives the bits back, with up to seven zeros of filling. */
  lemma {:induction false} BytesOfPack(r: Row) returns (pad: nat)
    ensures pad < 8 && BytesRow(Pack(r)) == r + Zeros(pad)
  {
    if r == [] {
      pad := 0;
    } else if |r| <= 8 {
      pad := 8 - |r|;
      PadTop(r, pad);
      DigitsOfVal(r + Zeros(pad));
      OneByteRow(PackByte(r));
    } else {
      pad := BytesOfPack(r[8..]);
      DigitsOfVal(r[..8]);
      assert BytesRow(Pack(r)) == Digits(PackByte(r[..8]), 8) + BytesRow(Pack(r[8..])) by {
        assert Pack(r)[1..] == Pack(r[8..]);
      }
      assert r == r[..8] + r[8..];
    }
  }

  lemma {:induction false} BytesRowInjective(a: Str, b: Str)
    requires BytesRow(a) == BytesRow(b)
    ensures a == b
  {
    BytesRowLength(a);
    BytesRowLength(b);
    if a != [] {
      var ra, rb := BytesRow(a), BytesRow(b);
      assert ra[..8] == Digits(a[0], 8) && rb[..8] == Digits(b[0], 8);
      assert ra[8..] == BytesRow(a[1..]) && rb[8..] == BytesRow(b[1..]);
      Pow2Is64();
      ValOfDigits(a[0], 8);
      ValOfDigits(b[0], 8);
      BytesRowInjective(a[1..], b[1..]);
      assert a == [a[0]] + a[1..] && b == [b[0]] + b[1..];
    }
  }

  // -------------------------------------------------------------------- writing

  /** Writes numbers to out. In version 2 the bits that do not fill a byte yet wait in b. */
  class DeltaWriter {
    const version: nat
    const out: Buffer
    var b: nat
    var nb: nat
    ghost var pending: Row

    constructor (version: nat, out: Buffer)
      ensures this.version == version && this.out == out && Valid() && pending == []
    {
      this.version := version;
      this.out := out;
      b, nb := 0, 0;
      pending := [];
    }

    ghost predicate Valid()
      reads this
    {
      nb == |pending| < 8 && b == Val(pending)
    }

    /** What has been written since position start, whole bytes and waiting bits together. */
    ghost function Written(start: nat): Row
      reads this, out
      requires start <= |out.data|
    {
      BytesRow(out.data[start..]) + pending
    }

    /** One round of flushBits: the lowest eight waiting bits go out as a byte. */
    method FlushByte(ghost start: nat, ghost row: Row) returns (ghost rest: Row)
      requires start <= |out.data| && nb == |row| >= 8 && b == Val(row)
      modifies this`b, this`nb, out
      ensures nb == |rest| == |row| - 8 && b == Val(rest)
      ensures old(out.data) <= out.data && BytesRow(out.data[start..]) + rest == BytesRow(old(out.data)[start..]) + row
    {
      hide *;
      ghost var low := row[..8];
      rest := row[8..];
      assert row == low + rest;
      ShiftOut(low, rest);
      Pow2Is64();
      DigitsOfVal(low);
      ghost var data := out.data;
      out.WriteByte(b % 256);
      OneByteRow(b % 256);
      BytesRowAppend(data[start..], [b % 256]);
      assert out.data[start..] == data[start..] + [b % 256];
      b := Shr(b, 8);
      nb := nb - 8;
    }

    /** flushBits: of the waiting bits, which are row, as many whole bytes go out as there are. */
    method FlushBits(ghost start: nat, ghost row: Row)
      requires start <= |out.data| && nb == |row| && b == Val(row)
      modifies this, out
      ensures Valid() && start <= |out.data| && old(out.data) <= out.data
      ensures Written(start) == old(BytesRow(out.data[start..])) + row
      ensures |row| < 8 ==> out.data == old(out.data) && pending == row
    {
      ghost var before := out.data;
      ghost var rest := row;
      while nb >= 8
        invariant nb == |rest| && b == Val(rest)
        invariant before <= out.data && (|row| < 8 ==> rest == row && out.data == before)
        invariant BytesRow(out.data[start..]) + rest == BytesRow(before[start..]) + row
      {
        rest := FlushByte(start, rest);
      }
      pending := rest;
    }

    /** The first part of writeBits: lg zeros and the leading 1. */
    method WriteUnary(lg: nat, ghost start: nat)
      requires Valid() && start <= |out.data| && lg <= 62
      modifies this, out
      ensures nb == |pending| <= 8 && b == Val(pending) && start <= |out.data| && old(out.data) <= out.data
      ensures Written(start) == old(Written(start)) + Zeros(lg) + [true]
    {
      ghost var all := Written(start);
      ghost var row := pending + Zeros(lg);
      PadTop(pending, lg);
      nb := nb + lg;
      pending := row;
      if nb >= 8 {
        FlushBits(start, row);
      }
      assert Written(start) == all + Zeros(lg);
      ShiftIn(pending, [true]);
      assert [true][1..] == [] && Val([true]) == 1;
      b := Or(b, Shl64(1, nb));
      nb := nb + 1;
      pending := pending + [true];
    }

    /** More than 32 digits are put in by two steps, the lower 32 first. */
    method WriteLow(x0: nat, ghost digits: Row, ghost start: nat) returns (x: nat)
      requires nb == |pending| <= 8 && b == Val(pending) && start <= |out.data|
      requires x0 == Val(digits) && 32 < |digits| <= 62
      modifies this, out
      ensures nb == |pending| <= 8 && b == Val(pending) && start <= |out.data| && old(out.data) <= out.data
      ensures x == Val(digits[32..]) && Written(start) == old(Written(start)) + digits[..32]
    {
      ghost var all := Written(start);
      ghost var low, high := digits[..32], digits[32..];
      assert digits == low + high;
      ShiftOut(low, high);
      Pow2Is64();
      ShiftIn(pending, low);
      b := Or(b, Shl64(x0 % 0x1_0000_0000, nb));
      nb := nb + 32;
      pending := pending + low;
      assert Written(start) == all + low;
      x := Shr(x0, 32);
      FlushBits(start, pending);
    }

    /** The last part of writeBits: the remaining digits. */
    method WriteHigh(x: nat, lg: nat, ghost digits: Row, ghost start: nat)
      requires nb == |pending| <= 8 && b == Val(pending) && start <= |out.data|
      requires x == Val(digits) && lg == |digits| <= 32
      modifies this, out
      ensures Valid() && start <= |out.data| && old(out.data) <= out.data
      ensures Written(start) == old(Written(start)) + digits
    {
      ghost var all := Written(start);
      ShiftIn(pending, digits);
      b := Or(b, Shl64(x, nb));
      nb := nb + lg;
      pending := pending + digits;
      assert Written(start) == all + digits;
      if nb >= 8 {
        FlushBits(start, pending);
      }
    }

    /** writeBits appends the gamma code of x; no shift moves a bit out of the word. */
    method WriteBits(x0: nat, ghost start: nat)
      requires Valid() && start <= |out.data| && 0 < x0 <= MaxDelta + 1
      modifies this, out
      ensures Valid() && start <= |out.data| && old(out.data) <= out.data
      ensures Written(start) == old(Written(start)) + Gamma(x0)
    {
      var lg := Log2(x0);
      TopDigit(x0);
      LogBound(x0);
      ghost var all, ones, low := Written(start), Zeros(lg) + [true], Digits(x0, lg);
      assert Gamma(x0) == ones + low && all + Zeros(lg) + [true] == all + ones;
      var x := x0 % Pow2(lg);
      hide Gamma, Val, Digits, Log2, Pow2, Zeros, BytesRow;
      WriteUnary(lg, start);
      WriteDigits(x, lg, low, start);
      assert all + ones + low == all + (ones + low);
    }

    /** The part of writeBits behind the leading 1. */
    method WriteDigits(x0: nat, lg: nat, ghost digits: Row, ghost start: nat)
      requires nb == |pending| <= 8 && b == Val(pending) && start <= |out.data|
      requires x0 == Val(digits) && lg == |digits| <= 62
      modifies this, out
      ensures Valid() && start <= |out.data| && old(out.data) <= out.data
      ensures Written(start) == old(Written(start)) + digits
    {
      if lg > 32 {
        ghost var all := Written(start);
        var x := WriteLow(x0, digits, start);
        WriteHigh(x, lg - 32, digits[32..], start);
        assert all + digits[..32] + digits[32..] == all + digits;
      } else {
        WriteHigh(x0, lg, digits, start);
      }
    }

    /** Write: one number of a list. */
    method Write(x: nat, ghost start: nat, ghost xs: seq<nat>)
      requires Valid() && x <= MaxDelta && Holds(start, xs)
      modifies this, out
      ensures Valid() && old(out.data) <= out.data && Holds(start, xs + [x])
    {
      GammasAppend(xs, [x]);
      OneGamma(x);
      if version == 2 {
        WriteBits(Shifted(x), start);
      } else {
        ghost var data := out.data;
        out.Write(PutUvarint(x));
        assert out.data[start..] == data[start..] + PutUvarint(x);
      }
    }

    /** The numbers xs have been written since position start. */
    ghost predicate Holds(start: nat, xs: seq<nat>)
      reads this, out
    {
      && start <= |out.data|
      && if version == 2 then Written(start) == Gammas(xs)
         else pending == [] && out.data[start..] == Uvarints(xs)
    }

    /** Flush ends a list: the bytes since start are the encoding of the list. */
    method Flush(ghost start: nat, ghost xs: seq<nat>)
      requires Valid() && Holds(start, xs)
      modifies this, out
      ensures Valid() && pending == [] && old(out.data) <= out.data
      ensures out.data == old(out.data)[..start] + Encode(version, xs)
    {
      EncodedSoFar(start, xs);
      ghost var last := LastByte(pending);
      assert out.data + last == out.data[..start] + (out.data[start..] + last);
      hide *;
      FlushBits(start, pending);
      FlushLast();
    }

    /** The encoding of the list: the whole bytes, and the waiting bits in a last one. */
    lemma EncodedSoFar(start: nat, xs: seq<nat>)
      requires Valid() && Holds(start, xs)
      ensures Encode(version, xs) == out.data[start..] + LastByte(pending)
    {
      PackWhole(out.data[start..], pending);
      hide BytesRow, Gammas, Uvarints, PackByte;
    }

    method FlushLast()
      requires Valid()
      modifies this, out
      ensures Valid() && pending == [] && out.data == old(out.data) + LastByte(old(pending))
    {
      hide Pow2, Digits, BytesRow;
      if nb > 0 {
        DigitsOfVal(pending);
        Pow2Monotone(nb, 8);
        Pow2Is64();
        out.WriteByte(b % 256);
        assert b % 256 == PackByte(pending);
      }
      b, nb := 0, 0;
      pending := [];
    }
  }

  /** Numbers below 2^63 have at most 62 digits after the leading one. */
  lemma LogBound(x: nat)
    requires 0 < x <= MaxDelta + 1
    ensures Log2(x) <= 62
  {
    Pow2Is64();
    assert Pow2(64) == 2 * Pow2(63);
    LogLess(x, 63);
  }

  lemma {:induction false} LogLess(x: nat, n: nat)
    requires 0 < x < Pow2(n)
    ensures Log2(x) < n
  {
    if x >= 2 {
      LogLess(x / 2, n - 1);
    }
  }

  // -------------------------------------------------------------------- reading

  /** bits.TrailingZeros64. */
  function TrailingZeros(x: nat): nat
    requires x > 0
  {
    if x % 2 == 1 then 0 else 1 + TrailingZeros(x / 2)
  }

  lemma {:induction false} FirstOne(s: Row) returns (t: Row)
    requires Val(s) != 0
    ensures TrailingZeros(Val(s)) < |s| && s == Zeros(TrailingZeros(Val(s))) + [true] + t
  {
    if s[0] {
      t := s[1..];
    } else {
      t := FirstOne(s[1..]);
      assert Val(s) / 2 == Val(s[1..]);
      assert s == [false] + s[1..];
    }
  }

  lemma {:induction false} NoOne(s: Row)
    requires Val(s) == 0
    ensures s == Zeros(|s|)
  {
    if s != [] {
      NoOne(s[1..]);
      assert s == [false] + s[1..];
    }
  }

  /** Rows that begin with zeros and a 1 have the 1 in the same place. */
  lemma SameLeadingOne(m: nat, s: Row, n: nat, t: Row)
    requires Zeros(m) + [true] + s == Zeros(n) + [true] + t
    ensures m == n && s == t
  {
    var a, b := Zeros(m) + [true] + s, Zeros(n) + [true] + t;
    assert a[m] && b[n] && a[m] == b[m] && a[n] == b[n];
    assert s == a[m + 1..] && t == b[n + 1..];
  }

  /** Reads numbers from d. In version 2 the unread bits of the last byte taken from d are in b. */
  class DeltaReader {
    const version: nat
    var d: Str
    var b: nat
    var nb: nat
    ghost var held: Row

    constructor (version: nat, data: Str)
      ensures this.version == version && d == data && Valid() && held == []
    {
      this.version := version;
      d := data;
      b, nb := 0, 0;
      held := [];
    }

    ghost predicate Valid()
      reads this
    {
      nb == |held| <= 8 && b == Val(held)
    }

    ghost function Rest(): Row
      reads this
    {
      held + BytesRow(d)
    }

    method TakeByte()
      requires d != [] && held == []
      modifies this
      ensures Valid() && nb == 8 && Rest() == old(Rest()) && d == old(d)[1..]
    {
      Pow2Is64();
      ValOfDigits(d[0], 8);
      b := d[0];
      nb := 8;
      held := Digits(d[0], 8);
      d := d[1..];
    }

    /** Passes over the bits at hand while they are zeros only. */
    method SkipZeros(ghost k: nat, ghost tail: Row) returns (lg: nat)
      requires Valid() && Rest() == Zeros(k) + [true] + tail && k <= 62
      modifies this
      ensures Valid() && b != 0 && lg <= k && Rest() == Zeros(k - lg) + [true] + tail
    {
      lg := 0;
      while b == 0
        invariant Valid() && lg <= k && Rest() == Zeros(k - lg) + [true] + tail
        decreases |d|
      {
        ghost var rest := Rest();
        assert nb > k - lg ==> rest[k - lg] == held[k - lg];
        assert rest[k - lg];
        NoOne(held);
        assert BytesRow(d) == rest[nb..] == Zeros(k - lg - nb) + [true] + tail;
        assert d != [] && lg + nb <= 65;
        lg := lg + nb;
        held := [];
        TakeByte();
      }
    }

    /** The first part of next64: counts zeros up to and including the 1 behind them. */
    method ReadUnary(ghost k: nat, ghost tail: Row) returns (lg: nat)
      requires Valid() && Rest() == Zeros(k) + [true] + tail && k <= 62
      modifies this
      ensures Valid() && nb < 8 && lg == k && Rest() == tail
    {
      lg := SkipZeros(k, tail);
      ghost var t := FirstOne(held);
      var n := TrailingZeros(b);
      assert Rest() == Zeros(n) + [true] + (t + BytesRow(d));
      SameLeadingOne(n, t + BytesRow(d), k - lg, tail);
      ShiftOut(Zeros(n) + [true], t);
      lg := lg + n;
      b := Shr(b, n + 1);
      nb := nb - (n + 1);
      held := t;
    }

    /** The second part of next64: the digits below the leading 1. */
    method ReadDigits(lg0: nat, ghost digits: Row, ghost tail: Row) returns (x: nat)
      requires Valid() && nb < 8 && |digits| == lg0 <= 62 && Rest() == digits + tail
      modifies this
      ensures Valid() && nb < 8 && x == Val(digits + [true]) && Rest() == tail
    {
      hide Val, BytesRow, Shl64;
      var lg: nat := lg0;
      LeadingOne(lg);
      x := Shl64(1, lg);
      var got: nat := 0;
      assert digits[..0] + Zeros(lg) + [true] == Zeros(lg) + [true];
      while nb < lg
        invariant Valid() && got + lg == lg0 && (nb < 8 || lg > 0)
        invariant x == Val(digits[..got] + Zeros(lg) + [true])
        invariant Rest() == digits[got..] + tail
        decreases lg + |d|
      {
        x := StoreHeld(x, got, lg, digits, tail);
        got := got + nb;
        lg := lg - nb;
        NextByte(digits[got..] + tail);
      }
      x := StoreLast(x, got, lg, digits, tail);
    }

    /** The held bits are used up and the next byte is taken. */
    method NextByte(ghost more: Row)
      requires Valid() && Rest() == held + more && more != []
      modifies this
      ensures Valid() && nb == 8 && Rest() == more && |d| < old(|d|)
    {
      assert BytesRow(d) == Rest()[nb..] == more;
      assert d != [];
      held := [];
      TakeByte();
    }

    /** The last digits come from the lowest of the held bits. */
    method StoreLast(x0: nat, got: nat, lg: nat, ghost digits: Row, ghost tail: Row) returns (x: nat)
      requires Valid() && lg <= nb && got + lg == |digits| <= 62 && (nb < 8 || lg > 0)
      requires x0 == Val(digits[..got] + Zeros(lg) + [true]) && Rest() == digits[got..] + tail
      modifies this
      ensures Valid() && nb < 8 && x == Val(digits + [true]) && Rest() == tail
    {
      ghost var seg, keep := held[..lg], held[lg..];
      assert held == seg + keep && seg == Rest()[..lg] == digits[got..];
      assert keep + BytesRow(d) == Rest()[lg..] == tail;
      ShiftOut(seg, keep);
      ShiftInBelow(digits[..got], seg, 0);
      assert digits[..got] + seg + Zeros(0) + [true] == digits + [true];
      x := Or(x0, Shl64(b % Pow2(lg), got));
      b := Shr(b, lg);
      nb := nb - lg;
      held := keep;
    }

    lemma StoreIsRight(x: nat, got: nat, lg: nat, digits: Row, tail: Row)
      requires Valid() && nb < lg && got + lg == |digits| <= 62
      requires x == Val(digits[..got] + Zeros(lg) + [true]) && Rest() == digits[got..] + tail
      ensures held == digits[got..got + nb]
      ensures Or(x, Shl64(b, got)) == Val(digits[..got + nb] + Zeros(lg - nb) + [true])
    {
      assert held == Rest()[..nb] == digits[got..got + nb];
      ShiftInBelow(digits[..got], held, lg - nb);
      assert digits[..got] + held == digits[..got + nb];
    }

    /** All the held bits go into x, above the got bits it has. */
    method StoreHeld(x0: nat, got: nat, lg: nat, ghost digits: Row, ghost tail: Row) returns (x: nat)
      requires Valid() && nb < lg && got + lg == |digits| <= 62
      requires x0 == Val(digits[..got] + Zeros(lg) + [true]) && Rest() == digits[got..] + tail
      ensures held == digits[got..got + nb]
      ensures x == Val(digits[..got + nb] + Zeros(lg - nb) + [true])
    {
      StoreIsRight(x0, got, lg, digits, tail);
      x := Or(x0, Shl64(b, got));
    }

    /** next64: one gamma code. */
    method Next64(ghost x0: nat, ghost tail: Row) returns (x: nat)
      requires Valid() && 0 < x0 <= MaxDelta + 1 && Rest() == Gamma(x0) + tail
      modifies this
      ensures Valid() && nb < 8 && x == x0 && Rest() == tail
    {
      ghost var k, digits := Log2(x0), Digits(x0, Log2(x0));
      LogBound(x0);
      TopDigit(x0);
      assert Rest() == Zeros(k) + [true] + (digits + tail);
      var lg := ReadUnary(k, digits + tail);
      x := ReadDigits(lg, digits, tail);
    }

    /** The reader will deliver xs; behind them, but for the filling of the last byte, lie the bytes of after. */
    ghost predicate Feeds(xs: seq<nat>, after: Str)
      reads this
    {
      && Valid()
      && if version == 2 then
           nb < 8 && exists pad: nat :: pad < 8 && Rest() == Gammas(xs) + Zeros(pad) + BytesRow(after)
         else
           held == [] && d == Uvarints(xs) + after
    }

    /** next: the number at the front of the list. */
    method Next(ghost xs: seq<nat>, ghost after: Str) returns (x: nat)
      requires xs != [] && xs[0] <= MaxDelta && Feeds(xs, after)
      modifies this
      ensures x == xs[0] && Feeds(xs[1..], after)
    {
      if version == 2 {
        ghost var pad: nat :| pad < 8 && Rest() == Gammas(xs) + Zeros(pad) + BytesRow(after);
        ghost var tail := Gammas(xs[1..]) + Zeros(pad) + BytesRow(after);
        assert Rest() == Gamma(Shifted(xs[0])) + tail by {
          Associate(Gamma(Shifted(xs[0])), Gammas(xs[1..]), Zeros(pad), BytesRow(after));
        }
        hide Gammas, Gamma, BytesRow, Zeros, Val;
        var i := Next64(Shifted(xs[0]), tail);
        x := if i == DeltaZeroEnc then 0 else if i > DeltaZeroEnc then i - 1 else i;
      } else {
        x := NextV1(xs, after);
      }
    }

    method NextV1(ghost xs: seq<nat>, ghost after: Str) returns (x: nat)
      requires xs != [] && xs[0] <= MaxDelta && version != 2 && Feeds(xs, after)
      modifies this`d
      ensures x == xs[0] && Feeds(xs[1..], after)
    {
      assert d == PutUvarint(xs[0]) + (Uvarints(xs[1..]) + after);
      RoundTrip(xs[0], Uvarints(xs[1..]) + after);
      var r := Uvarint(d);
      d := d[r.1..];
      x := r.0;
    }

    lemma Associate(a: Row, b: Row, c: Row, e: Row)
      ensures a + b + c + e == a + (b + c + e)
    {
    }

    /** clearBits at the end of a list leaves the reader exactly at the bytes behind it. */
    method ClearBits(ghost after: Str)
      requires Feeds([], after)
      modifies this
      ensures Valid() && held == [] && d == after
    {
      if version == 2 {
        ghost var pad: nat :| pad < 8 && Rest() == Gammas([]) + Zeros(pad) + BytesRow(after);
        BytesRowLength(d);
        BytesRowLength(after);
        assert |Rest()| == nb + 8 * |d| == pad + 8 * |after|;
        assert BytesRow(d) == Rest()[nb..] == BytesRow(after);
        BytesRowInjective(d, after);
      }
      b, nb := 0, 0;
      held := [];
    }
  }

  /** An encoded list feeds a reader that starts at it. */
  lemma EncodedFeeds(r: DeltaReader, xs: seq<nat>, after: Str)
    requires r.Valid() && r.held == [] && r.d == Encode(r.version, xs) + after
    ensures r.Feeds(xs, after)
  {
    if r.version == 2 {
      var pad := BytesOfPack(Gammas(xs));
      BytesRowAppend(Pack(Gammas(xs)), after);
      assert r.Rest() == Gammas(xs) + Zeros(pad) + BytesRow(after);
    }
  }

  /** Lists of numbers, each ended by 0, one encoding after the other. */
  function EncodeLists(version: nat, lists: seq<seq<nat>>): Str {
    if lists == [] then [] else Encode(version, lists[0] + [0]) + EncodeLists(version, lists[1..])
  }

  ghost predicate AllInRange(lists: seq<seq<nat>>) {
    forall k :: 0 <= k < |lists| ==> InRange(lists[k])
  }

  ghost predicate AllPositive(lists: seq<seq<nat>>) {
    forall k :: 0 <= k < |lists| ==> forall j :: 0 <= j < |lists[k]| ==> lists[k][j] > 0
  }

  /** Writing any lists and reading them back gives the lists. */
  method RoundTripLists(version: nat, lists: seq<seq<nat>>) returns (written: Str, read: seq<seq<nat>>)
    requires AllInRange(lists) && AllPositive(lists)
    ensures written == EncodeLists(version, lists) && read == lists
  {
    var out := new Buffer();
    var w := new DeltaWriter(version, out);
    WriteLists(w, lists);
    written := out.data;
    var r := new DeltaReader(version, written);
    read := ReadLists(r, |lists|, lists);
  }

  method WriteLists(w: DeltaWriter, lists: seq<seq<nat>>)
    requires w.Valid() && w.pending == [] && AllInRange(lists)
    modifies w, w.out
    ensures w.out.data == old(w.out.data) + EncodeLists(w.version, lists)
    decreases |lists|
  {
    if lists != [] {
      ghost var before, first, rest := w.out.data, Encode(w.version, lists[0] + [0]), EncodeLists(w.version, lists[1..]);
      assert AllInRange(lists[1..]) && InRange(lists[0]);
      assert EncodeLists(w.version, lists) == first + rest;
      hide *;
      WriteList(w, lists[0]);
      WriteLists(w, lists[1..]);
      assert before + first + rest == before + (first + rest);
    } else {
      assert EncodeLists(w.version, lists) == [];
    }
  }

  method ReadLists(r: DeltaReader, n: nat, ghost lists: seq<seq<nat>>) returns (read: seq<seq<nat>>)
    requires r.Valid() && r.held == [] && AllInRange(lists) && AllPositive(lists) && n == |lists|
    requires r.d == EncodeLists(r.version, lists)
    modifies r
    ensures read == lists
    decreases n
  {
    if n == 0 {
      return [];
    }
    assert InRange(lists[0]);
    var xs := ReadList(r, lists[0], EncodeLists(r.version, lists[1..]));
    var more := ReadLists(r, n - 1, lists[1..]);
    read := [xs] + more;
  }

  /** Writes a list as postDataWriter does: the numbers, a 0, and Flush. */
  method WriteList(w: DeltaWriter, xs: seq<nat>)
    requires w.Valid() && w.pending == [] && InRange(xs)
    modifies w, w.out
    ensures w.Valid() && w.pending == []
    ensures w.out.data == old(w.out.data) + Encode(w.version, xs + [0])
  {
    ghost var start := |w.out.data|;
    ghost var before := w.out.data;
    assert w.Holds(start, []);
    for i := 0 to |xs|
      invariant w.Valid() && w.Holds(start, xs[..i]) && before <= w.out.data
    {
      w.Write(xs[i], start, xs[..i]);
      assert xs[..i + 1] == xs[..i] + [xs[i]];
    }
    assert xs[..|xs|] == xs;
    w.Write(0, start, xs);
    w.Flush(start, xs + [0]);
  }

  /** Reads numbers up to a 0, as postReader and allPostReader do, and clears the bits. */
  method ReadList(r: DeltaReader, ghost xs: seq<nat>, ghost after: Str) returns (read: seq<nat>)
    requires r.Valid() && r.held == [] && r.d == Encode(r.version, xs + [0]) + after
    requires InRange(xs) && forall k :: 0 <= k < |xs| ==> xs[k] > 0
    modifies r
    ensures r.Valid() && r.held == [] && r.d == after && read == xs
  {
    read := [];
    EncodedFeeds(r, xs + [0], after);
    ghost var k := 0;
    assert (xs + [0])[0..] == xs + [0];
    while true
      invariant 0 <= k <= |xs| && read == xs[..k] && r.Feeds((xs + [0])[k..], after)
      decreases |xs| - k
    {
      var x := r.Next((xs + [0])[k..], after);
      assert (xs + [0])[k..][1..] == (xs + [0])[k + 1..];
      if x == 0 {
        break;
      }
      read := read + [x];
      k := k + 1;
    }
    assert (xs + [0])[k + 1..] == [];
    r.ClearBits(after);
  }

  lemma LeadingOne(lg: nat)
    requires lg <= 62
    ensures Shl64(1, lg) == Val(Zeros(lg) + [true])
  {
    assert [true][1..] == [] && Val([true]) == 1;
    ShiftLeft(lg, [true]);
  }
}
