/** The base-128 integers of encoding/binary, limited to 64 bits. */
module Varint {
  import opened Bytes

  const MaxVarintLen64 := 10

  function PutUvarint(x: nat): (w: Str)
    ensures w != []
  {
    if x < 128 then [x] else [x % 128 + 128] + PutUvarint(x / 128)
  }

  /** Numbers that still fit when i bytes have been read: 2^(64 - 7i). */
  function Limit(i: nat): nat
    requires i < MaxVarintLen64
    decreases MaxVarintLen64 - i
  {
    if i == MaxVarintLen64 - 1 then 2 else 128 * Limit(i + 1)
  }

  /** The value and the number of bytes read; 0 bytes when the input ends early, negative on overflow. */
  function Uvarint(b: Str): (r: (nat, int))
    ensures r.1 <= |b|
  {
    UvarintFrom(b, 0)
  }

  function UvarintFrom(b: Str, i: nat): (r: (nat, int))
    ensures r.1 <= |b|
  {
    if b == [] then (0, 0)
    else if i == MaxVarintLen64 then (0, -(i + 1))
    else if b[0] < 0x80 then
      if i == MaxVarintLen64 - 1 && b[0] > 1 then (0, -(i + 1)) else (b[0], 1)
    else
      var (v, n) := UvarintFrom(b[1..], i + 1);
      if n <= 0 then (0, n) else (b[0] - 0x80 + 128 * v, n + 1)
  }

  lemma {:induction false} RoundTripFrom(x: nat, rest: Str, i: nat)
    requires i < MaxVarintLen64 && x < Limit(i)
    ensures UvarintFrom(PutUvarint(x) + rest, i) == (x, |PutUvarint(x)|)
    decreases x
  {
    var w := PutUvarint(x) + rest;
    if x >= 128 {
      assert w[1..] == PutUvarint(x / 128) + rest;
      RoundTripFrom(x / 128, rest, i + 1);
    }
  }

  /** Reading back a written 64-bit number gives the number and stops right behind it. */
  lemma RoundTrip(x: nat, rest: Str)
    requires x < 0x1_0000_0000_0000_0000
    ensures Uvarint(PutUvarint(x) + rest) == (x, |PutUvarint(x)|)
  {
    assert Limit(0) == 0x1_0000_0000_0000_0000 by {
      assert Limit(9) == 2;
      assert Limit(7) == 128 * Limit(8);
      assert Limit(5) == 128 * Limit(6);
      assert Limit(3) == 128 * Limit(4);
      assert Limit(1) == 128 * Limit(2);
    }
    RoundTripFrom(x, rest, 0);
  }
}
