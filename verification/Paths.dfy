/** Lists of paths, their order and their two encodings (internal/codesearch/index/path.go, and NamesAt in read.go). */
module Paths {
  import opened Bytes
  import opened Varint
  import opened Buffers
  import opened Bits
  import opened PostingIndex

  const Slash: Byte := 47
  const NameGroupSize := 16

  // ------------------------------------------------------------------------- order

  function KeyOf(b: Byte): Byte {
    if b == Slash then 0 else b
  }

  /** A path with slashes as zero bytes: paths are ordered as these are. */
  function Keys(p: Str): (k: Str)
    ensures |k| == |p| && forall i :: 0 <= i < |p| ==> k[i] == KeyOf(p[i])
  {
    seq(|p|, i requires 0 <= i < |p| => KeyOf(p[i]))
  }

  /** Compare. */
  method Compare(p: Str, q: Str) returns (c: int)
    ensures c < 0 <==> Less(Keys(p), Keys(q))
    ensures c > 0 <==> Less(Keys(q), Keys(p))
    ensures c == 0 <==> Keys(p) == Keys(q)
  {
    var n := if |p| < |q| then |p| else |q|;
    ghost var a, b := Keys(p), Keys(q);
    for i := 0 to n
      invariant a[..i] == b[..i]
    {
      var pi, qi := p[i], q[i];
      if pi == Slash {
        pi := 0;
      }
      if qi == Slash {
        qi := 0;
      }
      if pi != qi {
        LessAt(a, b, i);
        LessAt(b, a, i);
        return pi as int - qi as int;
      }
      assert a[..i + 1] == a[..i] + [pi] && b[..i + 1] == b[..i] + [qi];
    }
    LessPrefix(a, b, n);
    LessPrefix(b, a, n);
    return |p| - |q|;
  }

  // ---------------------------------------------------------------------- encodings

  /** How many bytes two paths have in common at the front. */
  function Common(p: Str, q: Str): (n: nat)
    ensures n <= |p| && n <= |q| && p[..n] == q[..n]
  {
    if p == [] || q == [] || p[0] != q[0] then 0
    else
      var n := 1 + Common(p[1..], q[1..]);
      assert p[..n] == [p[0]] + p[1..][..n - 1] && q[..n] == [q[0]] + q[1..][..n - 1];
      n
  }

  predicate StartsGroup(group: nat, n: nat) {
    (group == 0 && n == 0) || (group > 0 && n % group == 0)
  }

  function PrefixLen(group: nat, n: nat, last: Str, p: Str): nat {
    if StartsGroup(group, n) then 0 else Common(last, p)
  }

  /** The n-th path of a list in version 2: the length of what it shares with the last one, the length of
      the rest, and the rest. */
  function PathBytes(group: nat, n: nat, last: Str, p: Str): Str {
    var pre := PrefixLen(group, n, last, p);
    assert pre <= |p|;
    PutUvarint(pre) + PutUvarint(|p| - pre) + p[pre..]
  }

  function Encode(version: nat, group: nat, n: nat, last: Str, ps: seq<Str>): Str
    decreases |ps|
  {
    if ps == [] then []
    else if version == 1 then ps[0] + [0] + Encode(version, group, n + 1, ps[0], ps[1..])
    else PathBytes(group, n, last, ps[0]) + Encode(version, group, n + 1, ps[0], ps[1..])
  }

  function LastOf(ps: seq<Str>, last: Str): Str {
    if ps == [] then last else ps[|ps| - 1]
  }

  lemma {:induction false} EncodeAppend(version: nat, group: nat, n: nat, last: Str, a: seq<Str>, b: seq<Str>)
    ensures Encode(version, group, n, last, a + b) ==
            Encode(version, group, n, last, a) + Encode(version, group, n + |a|, LastOf(a, last), b)
    decreases |a|
  {
    hide PathBytes;
    if a == [] {
      assert a + b == b;
    } else {
      assert (a + b)[1..] == a[1..] + b;
      EncodeAppend(version, group, n + 1, a[0], a[1..], b);
      assert LastOf(a[1..], a[0]) == LastOf(a, last);
    }
  }

  /** Paths that the encodings can hold. */
  ghost predicate Encodable(version: nat, ps: seq<Str>) {
    forall i :: 0 <= i < |ps| ==>
      && ps[i] != [] && |ps[i]| < 0x1_0000_0000_0000_0000
      && (version == 1 ==> forall k :: 0 <= k < |ps[i]| ==> ps[i][k] != 0)
  }

  // ---------------------------------------------------------------- offsets of paths

  /** An unsigned number in n bytes, the highest first. */
  function BigEndianBytes(x: nat, n: nat): (w: Str)
    ensures |w| == n
  {
    if n == 0 then [] else BigEndianBytes(x / 256, n - 1) + [x % 256]
  }

  function Power256(n: nat): nat {
    if n == 0 then 1 else 256 * Power256(n - 1)
  }

  lemma {:induction false} BigEndianBack(x: nat, n: nat)
    requires x < Power256(n)
    ensures BigEndian(BigEndianBytes(x, n)) == x
  {
    if n > 0 {
      BigEndianBack(x / 256, n - 1);
      assert BigEndianBytes(x, n)[..n - 1] == BigEndianBytes(x / 256, n - 1);
    }
  }

  function UintSize(version: nat): nat {
    if version == 1 then 4 else 8
  }

  ghost function OffsetOf(version: nat, group: nat, ps: seq<Str>, i: nat): nat
    requires i <= |ps|
  {
    |Encode(version, group, 0, [], ps[..i])|
  }

  /** Paths whose offset is recorded: all in version 1, the first of each group in version 2. */
  predicate Recorded(version: nat, group: nat, i: nat) {
    version == 1 || StartsGroup(group, i)
  }

  /** The recorded offsets of the first n paths. */
  ghost function OffsetBytes(version: nat, group: nat, ps: seq<Str>, n: nat): Str
    requires n <= |ps|
  {
    if n == 0 then []
    else
      OffsetBytes(version, group, ps, n - 1) +
      if Recorded(version, group, n - 1) then BigEndianBytes(OffsetOf(version, group, ps, n - 1), UintSize(version)) else []
  }

  lemma {:induction false} OffsetBytesSame(version: nat, group: nat, ps: seq<Str>, qs: seq<Str>, n: nat)
    requires n <= |ps| && n <= |qs| && ps[..n] == qs[..n]
    ensures OffsetBytes(version, group, ps, n) == OffsetBytes(version, group, qs, n)
  {
    if n > 0 {
      assert ps[..n - 1] == ps[..n][..n - 1] == qs[..n - 1];
      OffsetBytesSame(version, group, ps, qs, n - 1);
    }
  }

  /** How many offsets are recorded before path n. */
  function RecordedBefore(version: nat, group: nat, n: nat): nat
    requires version == 1 || group > 0
  {
    if version == 1 then n else (n + group - 1) / group
  }

  lemma {:induction false} OffsetBytesLength(version: nat, group: nat, ps: seq<Str>, n: nat)
    requires n <= |ps| && (version == 1 || group > 0)
    ensures |OffsetBytes(version, group, ps, n)| == UintSize(version) * RecordedBefore(version, group, n)
  {
    if n > 0 {
      OffsetBytesLength(version, group, ps, n - 1);
      if version != 1 {
        GroupsBefore(group, n - 1);
      }
    }
  }

  lemma GroupsBefore(group: nat, n: nat)
    requires group > 0
    ensures (n + group) / group == (n + group - 1) / group + if n % group == 0 then 1 else 0
  {
    var q, r := n / group, n % group;
    assert n == group * q + r;
    if r == 0 {
      DivUnique(n + group - 1, group, q, group - 1);
      DivUnique(n + group, group, q + 1, 0);
    } else {
      DivUnique(n + group - 1, group, q + 1, r - 1);
      DivUnique(n + group, group, q + 1, r);
    }
  }

  /** The offset of a recorded path is where the index says. */
  lemma {:induction false} OffsetAt(version: nat, group: nat, ps: seq<Str>, n: nat, i: nat)
    requires i < n <= |ps| && (version == 1 || group > 0) && Recorded(version, group, i)
    ensures var at := UintSize(version) * RecordedBefore(version, group, i);
            at + UintSize(version) <= |OffsetBytes(version, group, ps, n)| &&
            OffsetBytes(version, group, ps, n)[at..at + UintSize(version)] ==
            BigEndianBytes(OffsetOf(version, group, ps, i), UintSize(version))
    decreases n
  {
    OffsetBytesLength(version, group, ps, i);
    if i < n - 1 {
      OffsetAt(version, group, ps, n - 1, i);
    }
  }

  // --------------------------------------------------------------------- PathWriter

  class PathWriter {
    const data: Buffer
    const index: Buffer?
    const version: nat
    const group: nat
    const start: nat
    var n: nat
    var last: Str
    /** The paths written so far, and what was in the files before. */
    ghost var written: seq<Str>
    ghost const head: Str
    ghost const indexHead: Str

    ghost predicate Valid()
      reads this, data, index
    {
      && (version == 1 || version == 2) && data != index && start == |head|
      && data.data == head + Encode(version, group, 0, [], written)
      && (index != null ==> index.data == indexHead + OffsetBytes(version, group, written, |written|))
      && (version == 2 ==> n == |written| && last == LastOf(written, []))
    }

    constructor (data: Buffer, index: Buffer?, version: nat, group: nat)
      requires (version == 1 || version == 2) && data != index
      ensures Valid() && written == [] && head == data.data && indexHead == (if index == null then [] else index.data)
      ensures this.data == data && this.index == index && this.version == version && this.group == group
    {
      this.data, this.index, this.version, this.group := data, index, version, group;
      start := data.Offset();
      n, last, written := 0, [], [];
      head, indexHead := data.data, if index == null then [] else index.data;
    }

    /** The offset of the next path goes to the index, if it is recorded. It fails where the source gives
        up because the number is too large. */
    method Record() returns (ok: bool)
      requires Valid()
      modifies if index == null then {} else {index}
      ensures ok <==> index != null ==> OffsetOf(version, group, written, |written|) < Power256(UintSize(version))
      ensures index != null && ok ==>
                index.data == old(index.data) + BigEndianBytes(OffsetOf(version, group, written, |written|), UintSize(version))
    {
      ok := true;
      if index != null {
        assert written[..|written|] == written;
        var offset := data.Offset() - start;
        ok := offset < Power256(UintSize(version));
        if ok {
          index.Write(BigEndianBytes(offset, UintSize(version)));
        }
      }
    }

    /** What a written path adds to the encodings. */
    lemma OneMore(p: Str)
      ensures Encode(version, group, 0, [], written + [p]) ==
              Encode(version, group, 0, [], written) +
              if version == 1 then p + [0] else PathBytes(group, |written|, LastOf(written, []), p)
      ensures OffsetBytes(version, group, written + [p], |written| + 1) ==
              OffsetBytes(version, group, written, |written|) +
              if Recorded(version, group, |written|)
              then BigEndianBytes(OffsetOf(version, group, written, |written|), UintSize(version)) else []
    {
      EncodeAppend(version, group, 0, [], written, [p]);
      assert Encode(version, group, |written| + 1, p, []) == [];
      assert [p][1..] == [];
      OffsetBytesSame(version, group, written + [p], written, |written|);
      assert (written + [p])[..|written|] == written[..|written|];
    }

    method Write(p: Str) returns (ok: bool)
      requires Valid()
      modifies this`n, this`last, this`written, data, if index == null then {} else {index}
      ensures ok ==> Valid() && written == old(written) + [p]
      ensures ok <==> index == null || !Recorded(version, group, |old(written)|) ||
                      OffsetOf(version, group, old(written), |old(written)|) < Power256(UintSize(version))
    {
      OneMore(p);
      hide Encode, OffsetBytes, PathBytes;
      if version == 1 {
        ok := Record();
        data.Write(p);
        data.WriteByte(0);
      } else {
        ok := WriteV2(p);
      }
      written := written + [p];
    }

    method WriteV2(p: Str) returns (ok: bool)
      requires Valid() && version == 2
      modifies this`n, this`last, data, if index == null then {} else {index}
      ensures n == |written| + 1 && last == p
      ensures data.data == old(data.data) + PathBytes(group, |written|, LastOf(written, []), p)
      ensures ok <==> index == null || !Recorded(version, group, |written|) ||
                      OffsetOf(version, group, written, |written|) < Power256(UintSize(version))
      ensures index != null && ok ==>
                index.data == old(index.data) +
                if Recorded(version, group, |written|)
                then BigEndianBytes(OffsetOf(version, group, written, |written|), UintSize(version)) else []
    {
      hide Encode, OffsetBytes;
      var pre := 0;
      ok := true;
      if StartsGroup(group, n) {
        ok := Record();
      } else {
        pre := Common(last, p);
      }
      WriteRest(pre, p);
      last := p;
      n := n + 1;
    }

    method WriteRest(pre: nat, p: Str)
      requires pre <= |p|
      modifies data
      ensures data.data == old(data.data) + (PutUvarint(pre) + PutUvarint(|p| - pre) + p[pre..])
    {
      data.Write(PutUvarint(pre));
      data.Write(PutUvarint(|p| - pre));
      data.Write(p[pre..]);
    }
  }

  // --------------------------------------------------------------------- PathReader

  /** The reader stands before path n of a list; the paths from there on are ps, and rest lies behind. */
  ghost predicate Standing(r: PathReader, group: nat, n: nat, ps: seq<Str>, rest: Str)
    reads r
  {
    && (r.version == 1 || r.version == 2) && Encodable(r.version, ps)
    && exists last ::
         && r.data == Encode(r.version, group, n, last, ps) + rest
         && (r.version == 1 || StartsGroup(group, n) || r.path == last)
  }

  class PathReader {
    const version: nat
    var data: Str
    var path: Str
    var limit: int

    /** NewPathReader without the first call of Next. */
    constructor (version: nat, data: Str, limit: int)
      ensures this.version == version && this.data == data && this.limit == limit && path == []
    {
      this.version, this.data, this.limit := version, data, limit;
      path := [];
    }

    /** Next: the path at the front of the data, unless the limit is reached. */
    method Next(ghost group: nat, ghost n: nat, ghost ps: seq<Str>, ghost rest: Str) returns (ok: bool)
      requires Standing(this, group, n, ps, rest)
      modifies this
      ensures limit == if old(limit) > 0 then old(limit) - 1 else old(limit)
      ensures old(limit) == 0 ==> !ok && path == []
      ensures old(limit) != 0 && ps != [] ==> ok && path == ps[0] && Standing(this, group, n + 1, ps[1..], rest)
      ensures version == 1 && ps == [] && (rest == [] || rest[0] == 0) ==> !ok && path == []
    {
      if limit == 0 {
        path := [];
        return false;
      }
      if limit > 0 {
        limit := limit - 1;
      }
      if version == 1 {
        ok := NextV1(group, n, ps, rest);
      } else {
        ok := NextV2(group, n, ps, rest);
      }
    }

    method NextV1(ghost group: nat, ghost n: nat, ghost ps: seq<Str>, ghost rest: Str) returns (ok: bool)
      requires Standing(this, group, n, ps, rest) && version == 1
      modifies this`path, this`data
      ensures ps != [] ==> ok && path == ps[0] && Standing(this, group, n + 1, ps[1..], rest)
      ensures ps == [] && (rest == [] || rest[0] == 0) ==> !ok && path == []
    {
      ghost var more := FrontV1(group, n, ps, rest);
      var i := IndexOfZero(data);
      if i <= 0 {
        path := [];
        return false;
      }
      path, data := data[..i], data[i + 1..];
      ok := true;
      assert ps != [] ==> data == more && Encodable(version, ps[1..]);
    }

    lemma FrontV1(group: nat, n: nat, ps: seq<Str>, rest: Str) returns (more: Str)
      requires Standing(this, group, n, ps, rest) && version == 1
      ensures ps == [] ==> data == rest
      ensures ps != [] ==>
                && 0 < |ps[0]| < |data| && data[|ps[0]|] == 0 && data[..|ps[0]|] == ps[0] && data[|ps[0]| + 1..] == more
                && more == Encode(1, group, n + 1, ps[0], ps[1..]) + rest
                && forall k :: 0 <= k < |ps[0]| ==> data[k] != 0
    {
      var last :| data == Encode(version, group, n, last, ps) + rest;
      more := [];
      if ps != [] {
        more := Encode(1, group, n + 1, ps[0], ps[1..]) + rest;
        assert data == ps[0] + [0] + more;
      }
    }

    method NextV2(ghost group: nat, ghost n: nat, ghost ps: seq<Str>, ghost rest: Str) returns (ok: bool)
      requires Standing(this, group, n, ps, rest) && version == 2
      modifies this`path, this`data
      ensures ps != [] ==> ok && path == ps[0] && Standing(this, group, n + 1, ps[1..], rest)
    {
      hide Uvarint, PutUvarint, Encode, Encodable, Standing;
      ghost var f := FrontV2(group, n, ps, rest);
      var (pre, w) := Uvarint(data);
      if w <= 0 || pre > |path| {
        path := [];
        return false;
      }
      data := data[w..];
      var (m, v) := Uvarint(data);
      if v <= 0 || m > |data| - v {
        path := [];
        return false;
      }
      data := data[v..];
      path := path[..pre] + data[..m];
      data := data[m..];
      ok := true;
      if ps != [] {
        StandsAgain(this, group, n + 1, ps[0], ps[1..], rest);
      }
    }

    /** What NextV2 finds at the front of the data. */
    lemma FrontV2(group: nat, n: nat, ps: seq<Str>, rest: Str) returns (f: Front)
      requires Standing(this, group, n, ps, rest) && version == 2
      ensures ps != [] ==>
                && IsFront(f, data) && f.pre <= |path| && path[..f.pre] + f.tail == ps[0]
                && f.more == Encode(2, group, n + 1, ps[0], ps[1..]) + rest && Encodable(version, ps[1..])
    {
      hide Uvarint, PutUvarint, PrefixLen, PathBytes, IsFront;
      var last :| data == Encode(version, group, n, last, ps) + rest && (StartsGroup(group, n) || path == last);
      f := Front(0, 0, 0, [], []);
      if ps != [] {
        var pre := PrefixLen(group, n, last, ps[0]);
        var w, e := PathBytes(group, n, last, ps[0]), Encode(2, group, n + 1, ps[0], ps[1..]);
        assert data == w + e + rest;
        PrefixShared(group, n, last, ps[0]);
        hide Encode, Uvarint, PutUvarint, PathBytes, PrefixLen, IsFront;
        assert w + e + rest == w + (e + rest);
        f := FrontBytes(data, pre, |ps[0]| - pre, ps[0][pre..], e + rest);
      }
    }
  }

  /** The front of the data in version 2: two numbers, taking w and v bytes, and the bytes of a path. */
  datatype Front = Front(pre: nat, w: nat, v: nat, tail: Str, more: Str)

  ghost predicate IsFront(f: Front, data: Str) {
    && Uvarint(data) == (f.pre, f.w) && 0 < f.w <= |data|
    && Uvarint(data[f.w..]) == (|f.tail|, f.v) && 0 < f.v && data[f.w..][f.v..] == f.tail + f.more && f.w + f.v <= |data|
  }

  lemma PrefixShared(group: nat, n: nat, last: Str, p: Str)
    ensures var pre := PrefixLen(group, n, last, p);
            && pre <= |p| && pre <= |last| && last[..pre] == p[..pre] && (StartsGroup(group, n) ==> pre == 0)
            && PathBytes(group, n, last, p) == PutUvarint(pre) + PutUvarint(|p| - pre) + p[pre..]
  {
  }

  lemma StandsAgain(r: PathReader, group: nat, n: nat, last: Str, ps: seq<Str>, rest: Str)
    requires r.version == 2 && Encodable(2, ps) && r.path == last && r.data == Encode(2, group, n, last, ps) + rest
    ensures Standing(r, group, n, ps, rest)
  {
  }

  lemma FrontBytes(data: Str, pre: nat, m: nat, tail: Str, more: Str) returns (f: Front)
    requires data == PutUvarint(pre) + PutUvarint(m) + tail + more && m == |tail|
    requires pre < 0x1_0000_0000_0000_0000 && m < 0x1_0000_0000_0000_0000
    ensures IsFront(f, data) && f.pre == pre && f.tail == tail && f.more == more
  {
    var a, b := PutUvarint(pre), PutUvarint(m);
    f := Front(pre, |a|, |b|, tail, more);
    RoundTrip(pre, b + (tail + more));
    RoundTrip(m, tail + more);
    hide Uvarint, PutUvarint;
    assert data == a + (b + (tail + more));
    assert data[|a|..] == b + (tail + more);
    assert data[|a|..][|b|..] == tail + more;
  }

  /** bytes.IndexByte for the zero byte. */
  method IndexOfZero(b: Str) returns (i: int)
    ensures -1 <= i < |b|
    ensures i >= 0 ==> b[i] == 0
    ensures forall k :: 0 <= k < (if i < 0 then |b| else i) ==> b[k] != 0
  {
    for k := 0 to |b|
      invariant forall j :: 0 <= j < k ==> b[j] != 0
    {
      if b[k] == 0 {
        return k;
      }
    }
    return -1;
  }

  // ------------------------------------------------------------------- whole lists

  /** Nothing more can be read behind a list of version 1. */
  predicate Ends(version: nat, rest: Str) {
    version == 1 && (rest == [] || rest[0] == 0)
  }

  /** All: the path that has been read and those behind it. */
  method Collect(r: PathReader, ok0: bool, ghost group: nat, ghost n: nat, ghost ps: seq<Str>, ghost rest: Str) returns (out: seq<Str>)
    requires Standing(r, group, n, ps, rest)
    requires r.limit > |ps| || r.limit < 0 ==> Ends(r.version, rest)
    modifies r
    ensures out == (if ok0 then [old(r.path)] else []) + (if !ok0 then [] else if 0 <= old(r.limit) < |ps| then ps[..old(r.limit)] else ps)
  {
    out := [];
    if !ok0 {
      return;
    }
    out := [r.path];
    ghost var first, limit := r.path, r.limit;
    ghost var k := 0;
    var ok := true;
    assert ps[0..] == ps;
    while ok
      invariant k <= |ps| && out == [first] + ps[..k]
      invariant ok ==> Standing(r, group, n + k, ps[k..], rest) && (limit >= 0 ==> k <= limit)
      invariant ok ==> r.limit == if limit >= 0 then limit - k else limit
      invariant !ok ==> k == if 0 <= limit < |ps| then limit else |ps|
      decreases |ps| - k, ok
    {
      hide Standing;
      assert k < |ps| ==> ps[k..][0] == ps[k] && ps[k..][1..] == ps[k + 1..];
      ok := r.Next(group, n + k, ps[k..], rest);
      if ok {
        out := out + [r.path];
        k := k + 1;
      }
    }
  }

  /** The name sections of an index file: the list, and the recorded offsets. */
  datatype NameSection = NameSection(version: nat, nameData: Str, nameIndex: Str, numName: nat)

  ghost predicate HoldsNames(s: NameSection, names: seq<Str>, rest: Str) {
    && (s.version == 1 || s.version == 2) && s.numName == |names| && Encodable(s.version, names)
    && s.nameData == Encode(s.version, NameGroupSize, 0, [], names) + rest
    && OffsetBytes(s.version, NameGroupSize, names, |names|) <= s.nameIndex
    && forall i :: 0 <= i < |names| && Recorded(s.version, NameGroupSize, i) ==>
                     OffsetOf(s.version, NameGroupSize, names, i) < Power256(UintSize(s.version))
  }

  /** From a recorded offset on, the list goes on with the path recorded there. */
  lemma FromOffset(s: NameSection, names: seq<Str>, rest: Str, i: nat)
    requires HoldsNames(s, names, rest) && i < |names| && Recorded(s.version, NameGroupSize, i)
    ensures var off := OffsetOf(s.version, NameGroupSize, names, i);
            off <= |s.nameData| &&
            s.nameData[off..] == Encode(s.version, NameGroupSize, i, LastOf(names[..i], []), names[i..]) + rest
  {
    assert names == names[..i] + names[i..];
    assert s.nameData == Encode(s.version, NameGroupSize, 0, [], names) + rest;
    hide HoldsNames, Encode;
    EncodeAppend(s.version, NameGroupSize, 0, [], names[..i], names[i..]);
    Behind(Encode(s.version, NameGroupSize, 0, [], names[..i]),
           Encode(s.version, NameGroupSize, i, LastOf(names[..i], []), names[i..]), rest);
  }

  lemma Behind(a: Str, b: Str, c: Str)
    ensures ((a + b) + c)[|a|..] == b + c
  {
  }

  lemma OffsetIn(s: NameSection, names: seq<Str>, rest: Str, i: nat)
    requires HoldsNames(s, names, rest) && i < |names| && Recorded(s.version, NameGroupSize, i)
    ensures var at := UintSize(s.version) * RecordedBefore(s.version, NameGroupSize, i);
            at + UintSize(s.version) <= |s.nameIndex| &&
            BigEndian(s.nameIndex[at..at + UintSize(s.version)]) == OffsetOf(s.version, NameGroupSize, names, i)
  {
    var at, size := UintSize(s.version) * RecordedBefore(s.version, NameGroupSize, i), UintSize(s.version);
    OffsetAt(s.version, NameGroupSize, names, |names|, i);
    BigEndianBack(OffsetOf(s.version, NameGroupSize, names, i), size);
    var table := OffsetBytes(s.version, NameGroupSize, names, |names|);
    assert s.nameIndex[at..at + size] == table[at..at + size];
  }

  /** NamesAt: a reader that has read name number min, or nothing if there is no such name below max. */
  method NamesAt(s: NameSection, min: nat, max: nat, ghost names: seq<Str>, ghost rest: Str) returns (r: PathReader, ok: bool)
    requires HoldsNames(s, names, rest) && min <= max <= |names|
    ensures fresh(r) && (ok <==> min < max)
    ensures ok ==> r.path == names[min] && Standing(r, NameGroupSize, min + 1, names[min + 1..], rest) && r.limit == max - min - 1
  {
    NamesFacts(s, names, rest);
    hide *;
    if min >= s.numName {
      r := new PathReader(1, [], 0);
      StandsAtStart(r, 0, [], []);
      ok := r.Next(0, 0, [], []);
      return;
    }
    var limit, first := max - min, min;
    if s.version != 1 {
      limit := limit + min % NameGroupSize;
      first := min - min % NameGroupSize;
    }
    OffsetIn(s, names, rest, first);
    FromOffset(s, names, rest, first);
    GroupNumber(s.version, min);
    var at := if s.version == 1 then min * 4 else min / NameGroupSize * 8;
    var off := BigEndian(s.nameIndex[at..at + UintSize(s.version)]);
    r := new PathReader(s.version, s.nameData[off..], limit);
    StandsAtOffset(r, first, names, rest);
    ok := SkipTo(r, first, min, names, rest);
  }

  lemma NamesFacts(s: NameSection, names: seq<Str>, rest: Str)
    requires HoldsNames(s, names, rest)
    ensures (s.version == 1 || s.version == 2) && s.numName == |names| && Encodable(s.version, names)
    ensures Encodable(1, [])
  {
  }

  lemma GroupNumber(version: nat, min: nat)
    ensures version == 1 ==> UintSize(version) * RecordedBefore(version, NameGroupSize, min) == min * 4
    ensures version != 1 ==>
              UintSize(version) * RecordedBefore(version, NameGroupSize, min - min % NameGroupSize) == min / NameGroupSize * 8
    ensures StartsGroup(NameGroupSize, min - min % NameGroupSize)
  {
    var q := min / NameGroupSize;
    assert min - min % NameGroupSize == NameGroupSize * q;
    DivUnique(NameGroupSize * q + 15, NameGroupSize, q, 15);
    DivUnique(NameGroupSize * q, NameGroupSize, q, 0);
  }

  lemma StandsAtOffset(r: PathReader, i: nat, names: seq<Str>, rest: Str)
    requires i < |names| && Encodable(r.version, names) && (r.version == 1 || (r.version == 2 && StartsGroup(NameGroupSize, i)))
    requires r.data == Encode(r.version, NameGroupSize, i, LastOf(names[..i], []), names[i..]) + rest
    ensures Standing(r, NameGroupSize, i, names[i..], rest)
  {
  }

  /** Reads the names from first up to min. */
  method SkipTo(r: PathReader, first: nat, min: nat, ghost names: seq<Str>, ghost rest: Str) returns (ok: bool)
    requires first <= min < |names| && Standing(r, NameGroupSize, first, names[first..], rest) && r.limit >= min - first
    modifies r
    ensures ok <==> old(r.limit) > min - first
    ensures ok ==> r.path == names[min] && Standing(r, NameGroupSize, min + 1, names[min + 1..], rest)
    ensures ok ==> r.limit == old(r.limit) - (min - first) - 1
  {
    hide Standing;
    ghost var limit := r.limit;
    NextName(names, first);
    ok := r.Next(NameGroupSize, first, names[first..], rest);
    for k := first to min
      invariant ok <==> limit > k - first
      invariant ok ==> r.path == names[k] && Standing(r, NameGroupSize, k + 1, names[k + 1..], rest) && r.limit == limit - (k - first) - 1
    {
      NextName(names, k + 1);
      ok := r.Next(NameGroupSize, k + 1, names[k + 1..], rest);
    }
  }

  lemma NextName(names: seq<Str>, k: nat)
    requires k < |names|
    ensures names[k..][0] == names[k] && names[k..][1..] == names[k + 1..]
  {
  }

  /** Names: the names from lo up to hi, as they were written. */
  method Names(s: NameSection, lo: nat, hi: nat, ghost names: seq<Str>, ghost rest: Str) returns (out: seq<Str>)
    requires HoldsNames(s, names, rest) && lo <= hi <= |names|
    ensures out == names[lo..hi]
  {
    var r, ok := NamesAt(s, lo, hi, names, rest);
    out := [];
    if ok {
      r.limit := hi - lo - 1;
      out := Collect(r, ok, NameGroupSize, lo + 1, names[lo + 1..], rest);
      assert names[lo..hi] == [names[lo]] + names[lo + 1..][..hi - lo - 1];
    }
  }

  /** Writing any list of paths and reading it back gives the list. In version 1 the list ends with an empty
      path, and in version 2 its length is known. */
  method RoundTripPaths(version: nat, paths: seq<Str>, group: nat, behind: Str) returns (read: seq<Str>)
    requires (version == 1 || version == 2) && Encodable(version, paths)
    ensures read == paths
  {
    var data := new Buffer();
    var w := new PathWriter(data, null, version, group);
    for i := 0 to |paths|
      invariant w.Valid() && w.written == paths[..i] && w.head == [] && w.data == data && w.index == null
      invariant w.version == version && w.group == group
    {
      hide PathWriter.Valid;
      var _ := w.Write(paths[i]);
      assert paths[..i + 1] == paths[..i] + [paths[i]];
    }
    assert paths[..|paths|] == paths;
    var rest := if version == 1 then [0] + behind else behind;
    var r := new PathReader(version, data.data + rest, if version == 1 then -1 else |paths|);
    StandsAtStart(r, group, paths, rest);
    ghost var limit := r.limit;
    var ok := r.Next(group, 0, paths, rest);
    if ok {
      EveryPath(paths, version, rest);
      read := Collect(r, ok, group, 1, if paths == [] then [] else paths[1..], rest);
    } else {
      read := [];
    }
  }

  lemma StandsAtStart(r: PathReader, group: nat, paths: seq<Str>, rest: Str)
    requires (r.version == 1 || r.version == 2) && Encodable(r.version, paths) && r.path == []
    requires r.data == Encode(r.version, group, 0, [], paths) + rest
    ensures Standing(r, group, 0, paths, rest)
  {
  }

  lemma EveryPath(paths: seq<Str>, version: nat, rest: Str)
    ensures paths != [] ==> paths == [paths[0]] + paths[1..] && paths[1..][..|paths| - 1] == paths[1..]
  {
  }

  // ---------------------------------------------------------------- what a root covers

  /** The paths from root up to the path that merge uses as its limit. */
  ghost predicate Covers(root: Str, p: Str) {
    !Less(Keys(p), Keys(root)) && Less(Keys(p), Keys(root + [2]))
  }

  /** These are root itself, and what follows it behind a slash or behind a byte below 2. */
  lemma CoversMeans(root: Str, p: Str)
    ensures Covers(root, p) <==>
            IsPrefix(Keys(root), Keys(p)) && (|p| == |root| || Keys(p)[|root|] < 2)
  {
    var a, b, c := Keys(p), Keys(root), Keys(root + [2]);
    assert c == b + [2];
    var n := CommonLength(a, b);
    if n == |b| {
      if |a| == |b| {
        LessPrefix(a, b, n);
        LessPrefix(a, c, n);
      } else {
        LessPrefix(a, b, n);
        assert a[..n] == c[..n];
        if a[n] != 2 {
          LessAt(a, c, n);
        } else {
          assert a[..n + 1] == c[..n + 1];
          LessPrefix(a, c, n + 1);
        }
      }
    } else if n == |a| {
      LessPrefix(a, b, n);
    } else {
      LessAt(a, b, n);
      assert a[..n] == c[..n];
      LessAt(a, c, n);
      if IsPrefix(b, a) {
        PrefixAgrees(a, b, n);
      }
    }
  }

  lemma PrefixAgrees(a: Str, b: Str, n: nat)
    requires IsPrefix(b, a) && n < |b|
    ensures a[n] == b[n]
  {
  }

  /** Where two strings part. */
  lemma CommonLength(a: Str, b: Str) returns (n: nat)
    ensures n <= |a| && n <= |b| && a[..n] == b[..n]
    ensures n == |a| || n == |b| || a[n] != b[n]
  {
    n := Common(a, b);
    CommonStops(a, b);
  }

  lemma {:induction false} CommonStops(a: Str, b: Str)
    ensures var n := Common(a, b); n == |a| || n == |b| || a[n] != b[n]
  {
    if a != [] && b != [] && a[0] == b[0] {
      CommonStops(a[1..], b[1..]);
    }
  }
}
