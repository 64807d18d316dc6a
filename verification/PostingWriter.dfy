/** Writing posting lists and the index over them (postDataWriter in internal/codesearch/index/write.go). */
module PostingWriter {
  import opened Bytes
  import opened Varint
  import opened Buffers
  import opened DeltaCoding
  import opened PostingLists
  import opened PostingIndex

  // ------------------------------------------------------------------------ layout

  ghost predicate Storable(p: Posting) {
    p.trigram <= InvalidTrigram && Ascending(p.ids)
  }

  ghost predicate AllStorable(ps: seq<Posting>) {
    forall i :: 0 <= i < |ps| ==> Storable(ps[i])
  }

  ghost function ListBytes(version: nat, p: Posting): Str
    requires Storable(p)
  {
    TrigramBytes(p.trigram) + Encode(version, Deltas(p.ids, -1) + [0])
  }

  /** Posting lists, one behind the other. */
  ghost function ListsBytes(version: nat, ps: seq<Posting>): Str
    requires AllStorable(ps)
  {
    if ps == [] then [] else ListsBytes(version, ps[..|ps| - 1]) + ListBytes(version, ps[|ps| - 1])
  }

  ghost function OffsetOf(version: nat, ps: seq<Posting>, i: nat): nat
    requires AllStorable(ps) && i <= |ps|
  {
    |ListsBytes(version, ps[..i])|
  }

  lemma {:induction false} ListAt(version: nat, ps: seq<Posting>, i: nat) returns (after: Str)
    requires AllStorable(ps) && i < |ps|
    ensures ListsBytes(version, ps) == ListsBytes(version, ps[..i]) + ListBytes(version, ps[i]) + after
    decreases |ps|
  {
    hide ListBytes;
    var n := |ps| - 1;
    if i == n {
      after := [];
    } else {
      var rest := ListAt(version, ps[..n], i);
      assert ps[..n][..i] == ps[..i];
      after := rest + ListBytes(version, ps[n]);
      Associative(ListsBytes(version, ps[..i]), ListBytes(version, ps[i]), rest, ListBytes(version, ps[n]));
    }
  }

  lemma Associative(a: Str, b: Str, c: Str, d: Str)
    ensures ((a + b) + c) + d == (a + b) + (c + d)
  {
  }

  const Max32 := 0x1_0000_0000

  /** A 32-bit number, its highest byte first. */
  function Uint32Bytes(x: nat): (w: Str)
    requires x < Max32
    ensures |w| == 4 && BigEndian(w) == x
  {
    var w: Str := [x / 0x100_0000, x / 0x1_0000 % 0x100, x / 0x100 % 0x100, x % 0x100];
    BigEndian4(w);
    Uint32Back(x);
    w
  }

  lemma Uint32Back(x: nat)
    requires x < Max32
    ensures ((x / 0x100_0000 * 256 + x / 0x1_0000 % 0x100) * 256 + x / 0x100 % 0x100) * 256 + x % 0x100 == x
    ensures x / 0x100_0000 < 256
  {
    assert x / 0x1_0000 == x / 0x100 / 0x100 && x / 0x100_0000 == x / 0x1_0000 / 0x100;
  }

  lemma BigEndian4(w: Str)
    requires |w| == 4
    ensures BigEndian(w) == ((w[0] as int * 256 + w[1] as int) * 256 + w[2] as int) * 256 + w[3] as int
  {
    assert w[..3][..2] == w[..2] && w[..2][..1] == w[..1] && w[..1][..0] == [];
    assert BigEndian(w[..3]) == BigEndian(w[..2]) * 256 + w[2] as int;
    assert BigEndian(w[..2]) == BigEndian(w[..1]) * 256 + w[1] as int;
    assert BigEndian(w[..1]) == w[0] as int;
  }

  lemma BigEndian3(w: Str)
    requires |w| == 3
    ensures BigEndian(w) == TrigramNumber(w)
  {
    assert w[..2][..1] == w[..1] && w[..1][..0] == [];
    assert BigEndian(w[..2]) == BigEndian(w[..1]) * 256 + w[1] as int;
    assert BigEndian(w[..1]) == w[0] as int;
  }

  /** Everything fits into the 32-bit fields of the version 1 index. */
  ghost predicate Fits32(version: nat, ps: seq<Posting>)
    requires AllStorable(ps)
  {
    forall i :: 0 <= i < |ps| ==> |ps[i].ids| < Max32 && OffsetOf(version, ps, i) < Max32
  }

  ghost function EntryBytes(trigram: nat, count: nat, offset: nat): (w: Str)
    requires trigram <= InvalidTrigram && count < Max32 && offset < Max32
    ensures |w| == EntrySizeV1
  {
    TrigramBytes(trigram) + Uint32Bytes(count) + Uint32Bytes(offset)
  }

  /** The version 1 index: one entry for each list. */
  ghost function IndexBytes(version: nat, ps: seq<Posting>): (w: Str)
    requires AllStorable(ps) && Fits32(version, ps)
    ensures |w| == EntrySizeV1 * |ps|
  {
    if ps == [] then []
    else
      var n := |ps| - 1;
      ShorterFits(version, ps);
      assert OffsetOf(version, ps, n) < Max32;
      IndexBytes(version, ps[..n]) + EntryBytes(ps[n].trigram, |ps[n].ids|, OffsetOf(version, ps, n))
  }

  lemma ShorterFits(version: nat, ps: seq<Posting>)
    requires ps != [] && AllStorable(ps) && Fits32(version, ps)
    ensures Fits32(version, ps[..|ps| - 1])
  {
    var qs := ps[..|ps| - 1];
    forall i | 0 <= i < |qs|
      ensures |qs[i].ids| < Max32 && OffsetOf(version, qs, i) < Max32
    {
      assert qs[..i] == ps[..i] && OffsetOf(version, ps, i) < Max32;
    }
  }

  lemma {:induction false} EntryAtV1(version: nat, ps: seq<Posting>, i: nat)
    requires AllStorable(ps) && Fits32(version, ps) && i < |ps|
    ensures IndexBytes(version, ps)[EntrySizeV1 * i..EntrySizeV1 * i + EntrySizeV1] ==
            EntryBytes(ps[i].trigram, |ps[i].ids|, OffsetOf(version, ps, i))
    decreases |ps|
  {
    hide EntryBytes, ListsBytes;
    var n := |ps| - 1;
    ShorterFits(version, ps);
    var front := IndexBytes(version, ps[..n]);
    var last := EntryBytes(ps[n].trigram, |ps[n].ids|, OffsetOf(version, ps, n));
    assert IndexBytes(version, ps) == front + last;
    if i < n {
      EntryAtV1(version, ps[..n], i);
      assert ps[..n][..i] == ps[..i];
      var at := EntrySizeV1 * i;
      assert at + EntrySizeV1 <= |front|;
      assert (front + last)[at..at + EntrySizeV1] == front[at..at + EntrySizeV1];
    }
  }

  lemma Suffix(head: Str, tail: Str)
    ensures (head + tail)[|head|..] == tail
  {
  }

  /** A file with the lists at postData holds each of them at its offset. */
  lemma ListInFile(ix: Index, ps: seq<Posting>, i: nat, front: Str, rest: Str)
    requires AllStorable(ps) && i < |ps| && ix.postData == |front|
    requires ix.data == front + ListsBytes(ix.version, ps) + rest
    ensures HasList(ix, OffsetOf(ix.version, ps, i), ps[i].ids)
  {
    hide Encode, Deltas, TrigramBytes, ListsBytes;
    var before := ListsBytes(ix.version, ps[..i]);
    var trigram, encoded := TrigramBytes(ps[i].trigram), Encode(ix.version, Deltas(ps[i].ids, -1) + [0]);
    var after := ListAt(ix.version, ps, i);
    assert ListBytes(ix.version, ps[i]) == trigram + encoded;
    Regroup(front, before, trigram, encoded, after, rest);
    hide ListBytes;
    var head := front + before + trigram;
    Suffix(head, encoded + (after + rest));
    assert |head| == ix.postData + OffsetOf(ix.version, ps, i) + 3;
  }

  lemma Regroup(front: Str, before: Str, trigram: Str, encoded: Str, after: Str, rest: Str)
    ensures front + (before + (trigram + encoded) + after) + rest == front + before + trigram + (encoded + (after + rest))
  {
    assert before + (trigram + encoded) + after == before + trigram + (encoded + after);
    assert front + (before + trigram + (encoded + after)) == front + before + trigram + (encoded + after);
  }

  lemma Regroup5(a: Str, b: Str, c: Str, d: Str, e: Str)
    ensures a + b + c + d + e == a + b + (c + d + e)
  {
  }

  /** What the writer writes in version 1 is an index of the lists it was given. */
  lemma WrittenV1(ix: Index, ps: seq<Posting>, front: Str, middle: Str, trailer: Str)
    requires WellFormed(ix, ps) && AllStorable(ps) && Fits32(1, ps) && ix.version == 1 && ix.numPost == |ps|
    requires ix.data == front + ListsBytes(1, ps) + middle + IndexBytes(1, ps) + trailer
    requires ix.postData == |front| && ix.postIndex == |front| + |ListsBytes(1, ps)| + |middle|
    ensures Indexed(ix, ps) && Tabled(ix, ps)
  {
    hide ListsBytes, IndexBytes;
    forall i | 0 <= i < |ps|
      ensures ListedV1(ix, ps[i], i)
    {
      var lists, table := ListsBytes(1, ps), IndexBytes(1, ps);
      Regroup5(front, lists, middle, table, trailer);
      ListInFile(ix, ps, i, front, middle + table + trailer);
      EntryInFile(ix, ps, i, front + lists + middle, trailer);
    }
  }

  lemma EntryInFile(ix: Index, ps: seq<Posting>, i: nat, front: Str, trailer: Str)
    requires AllStorable(ps) && Fits32(1, ps) && i < |ps|
    requires ix.data == front + IndexBytes(1, ps) + trailer && ix.postIndex == |front|
    ensures EntryV1(ix, i, ps[i].trigram, |ps[i].ids|, OffsetOf(1, ps, i))
  {
    EntryAtV1(1, ps, i);
    assert OffsetOf(1, ps, i) < Max32;
    EntryInTable(ix, i, front, IndexBytes(1, ps), trailer, ps[i].trigram, |ps[i].ids|, OffsetOf(1, ps, i));
  }

  lemma EntryInTable(ix: Index, i: nat, front: Str, table: Str, trailer: Str, trigram: nat, count: nat, offset: nat)
    requires trigram <= InvalidTrigram && count < Max32 && offset < Max32
    requires EntrySizeV1 * i + EntrySizeV1 <= |table|
    requires table[EntrySizeV1 * i..EntrySizeV1 * i + EntrySizeV1] == EntryBytes(trigram, count, offset)
    requires ix.data == front + table + trailer && ix.postIndex == |front|
    ensures EntryV1(ix, i, trigram, count, offset)
  {
    hide BigEndian, EntryBytes, Uint32Bytes, TrigramBytes;
    var at := EntrySizeV1 * i;
    var w := table[at..at + EntrySizeV1];
    Middle(front, table, trailer, at, at + EntrySizeV1);
    EntryBack(w, trigram, count, offset);
    Parts(ix.data, |front| + at, w);
  }

  lemma Middle(front: Str, table: Str, trailer: Str, lo: nat, hi: nat)
    requires lo <= hi <= |table|
    ensures (front + table + trailer)[|front| + lo..|front| + hi] == table[lo..hi]
  {
  }

  lemma Parts(data: Str, at: nat, w: Str)
    requires at + EntrySizeV1 <= |data| && data[at..at + EntrySizeV1] == w
    ensures data[at..at + 3] == w[..3] && data[at + 3..at + 7] == w[3..7] && data[at + 7..at + 11] == w[7..11]
  {
  }

  lemma EntryBack(w: Str, trigram: nat, count: nat, offset: nat)
    requires trigram <= InvalidTrigram && count < Max32 && offset < Max32 && w == EntryBytes(trigram, count, offset)
    ensures BigEndian(w[..3]) == trigram && BigEndian(w[3..7]) == count && BigEndian(w[7..11]) == offset
  {
    BigEndian3(w[..3]);
    assert w[..3] == TrigramBytes(trigram) && w[3..7] == Uint32Bytes(count) && w[7..11] == Uint32Bytes(offset);
  }

  // ----------------------------------------------------------- layout of version 2

  ghost predicate BlocksOk(blocks: seq<seq<Entry>>) {
    forall i :: 0 <= i < |blocks| ==> BlockOk(blocks[i])
  }

  ghost function BlocksBytes(blocks: seq<seq<Entry>>): (w: Str)
    requires BlocksOk(blocks)
    ensures |w| == PostBlockSize * |blocks|
  {
    if blocks == [] then [] else BlocksBytes(blocks[..|blocks| - 1]) + Padded(blocks[|blocks| - 1])
  }

  lemma {:induction false} BlockInBytes(blocks: seq<seq<Entry>>, i: nat)
    requires BlocksOk(blocks) && i < |blocks|
    ensures BlocksBytes(blocks)[PostBlockSize * i..PostBlockSize * i + PostBlockSize] == Padded(blocks[i])
    decreases |blocks|
  {
    hide Padded;
    var n := |blocks| - 1;
    if i < n {
      var front, at := BlocksBytes(blocks[..n]), PostBlockSize * i;
      BlockInBytes(blocks[..n], i);
      assert at + PostBlockSize <= |front|;
      assert (front + Padded(blocks[n]))[at..at + PostBlockSize] == front[at..at + PostBlockSize];
    }
  }

  /** The entries of the blocks, one after the other. */
  ghost function Flat(blocks: seq<seq<Entry>>): seq<Entry> {
    if blocks == [] then [] else Flat(blocks[..|blocks| - 1]) + blocks[|blocks| - 1]
  }

  lemma {:induction false} FlatAt(blocks: seq<seq<Entry>>, i: nat, k: nat)
    requires i < |blocks| && k < |blocks[i]|
    ensures |Flat(blocks[..i])| + k < |Flat(blocks)| && Flat(blocks)[|Flat(blocks[..i])| + k] == blocks[i][k]
    decreases |blocks|
  {
    var n := |blocks| - 1;
    if i < n {
      FlatAt(blocks[..n], i, k);
      assert blocks[..n][..i] == blocks[..i];
    }
  }

  lemma {:induction false} FlatGrows(blocks: seq<seq<Entry>>, i: nat, j: nat)
    requires i < j <= |blocks|
    ensures |Flat(blocks[..i])| + |blocks[i]| <= |Flat(blocks[..j])|
    decreases j
  {
    assert blocks[..j][..j - 1] == blocks[..j - 1];
    if i + 1 < j {
      FlatGrows(blocks, i, j - 1);
    }
  }

  lemma {:induction false} InFlat(blocks: seq<seq<Entry>>, e: Entry)
    ensures e in Flat(blocks) <==> InBlocks(blocks, e)
  {
    if blocks != [] {
      var n := |blocks| - 1;
      InFlat(blocks[..n], e);
      if InBlocks(blocks[..n], e) {
        var i :| 0 <= i < n && e in blocks[..n][i];
        assert e in blocks[i];
      }
      if InBlocks(blocks, e) && e !in blocks[n] {
        var i :| 0 <= i < |blocks| && e in blocks[i];
        assert e in blocks[..n][i];
      }
    }
  }

  lemma FlatAscends(blocks: seq<seq<Entry>>)
    requires forall a, b :: 0 <= a < b < |Flat(blocks)| ==> InOrder(Flat(blocks)[a], Flat(blocks)[b])
    ensures TrigramsAscend(blocks)
  {
    forall i, k, l | 0 <= i < |blocks| && 0 <= k < l < |blocks[i]|
      ensures InOrder(blocks[i][k], blocks[i][l])
    {
      FlatAt(blocks, i, k);
      FlatAt(blocks, i, l);
    }
    forall i, j, k, l | 0 <= i < j < |blocks| && 0 <= k < |blocks[i]| && 0 <= l < |blocks[j]|
      ensures InOrder(blocks[i][k], blocks[j][l])
    {
      FlatAt(blocks, i, k);
      FlatAt(blocks, j, l);
      FlatGrows(blocks, i, j);
    }
  }

  ghost function EntryFor(ps: seq<Posting>, i: nat): Entry
    requires AllStorable(ps) && i < |ps|
  {
    Entry(ps[i].trigram, |ps[i].ids|, OffsetOf(2, ps, i))
  }

  ghost function EntriesOf(ps: seq<Posting>): seq<Entry>
    requires AllStorable(ps)
  {
    seq(|ps|, i requires 0 <= i < |ps| => EntryFor(ps, i))
  }

  /** What the writer writes in version 2 is an index of the lists it was given. */
  lemma WrittenV2(ix: Index, ps: seq<Posting>, blocks: seq<seq<Entry>>, front: Str, middle: Str, trailer: Str)
    requires WellFormed(ix, ps) && AllStorable(ps) && ix.version == 2 && ix.numPostBlock == |blocks| && ix.numPost == |ps|
    requires BlocksOk(blocks) && Flat(blocks) == EntriesOf(ps)
    requires ix.data == front + ListsBytes(2, ps) + middle + BlocksBytes(blocks) + trailer
    requires ix.postData == |front| && ix.postIndex == |front| + |ListsBytes(2, ps)| + |middle|
    ensures Indexed(ix, ps) && Tabled(ix, ps)
  {
    EntriesInOrder(ps);
    FlatAscends(blocks);
    BlocksInFile(ix, blocks, front + ListsBytes(2, ps) + middle, trailer);
    Regroup5(front, ListsBytes(2, ps), middle, BlocksBytes(blocks), trailer);
    EntriesListed(ix, ps, blocks, front, middle + BlocksBytes(blocks) + trailer);
    forall i | 0 <= i < |ps|
      ensures EntryOf(ix, Flat(blocks)[i], ps[i])
    {
      EntryListed(ix, ps, blocks, front, middle + BlocksBytes(blocks) + trailer, i);
    }
    assert TableV2(ix, blocks, ps);
  }

  /** The table of version 2 lists ps in order. */
  ghost predicate TableV2(ix: Index, blocks: seq<seq<Entry>>, ps: seq<Posting>) {
    && ix.version == 2 && ix.numPost == |ps| && |Flat(blocks)| == |ps|
    && (forall i :: 0 <= i < |blocks| ==> BlockOk(blocks[i]) && BlockAt(ix, i, blocks[i]))
    && (forall i :: 0 <= i < |ps| ==> EntryOf(ix, Flat(blocks)[i], ps[i]))
  }

  ghost predicate TableV1(ix: Index, ps: seq<Posting>) {
    ix.version == 1 && ix.numPost == |ps| && forall i :: 0 <= i < |ps| ==> ListedV1(ix, ps[i], i)
  }

  /** The index table lists ps in order. */
  ghost predicate Tabled(ix: Index, ps: seq<Posting>) {
    AllStorable(ps) && (TableV1(ix, ps) || exists blocks :: TableV2(ix, blocks, ps))
  }

  lemma EntriesInOrder(ps: seq<Posting>)
    requires Sorted(ps) && AllStorable(ps)
    ensures forall a, b :: 0 <= a < b < |ps| ==> InOrder(EntriesOf(ps)[a], EntriesOf(ps)[b])
  {
    forall a, b | 0 <= a < b < |ps|
      ensures InOrder(EntriesOf(ps)[a], EntriesOf(ps)[b])
    {
      assert MayFollow(ps[a], ps[b]);
    }
  }

  lemma EntriesListed(ix: Index, ps: seq<Posting>, blocks: seq<seq<Entry>>, front: Str, rest: Str)
    requires AllStorable(ps) && ix.version == 2 && Flat(blocks) == EntriesOf(ps)
    requires ix.data == front + ListsBytes(2, ps) + rest && ix.postData == |front|
    ensures ListedV2(ix, blocks, ps)
  {
    hide ListsBytes, EntryOf;
    forall i | 0 <= i < |ps|
      ensures HasEntry(ix, blocks, ps[i])
    {
      EntryListed(ix, ps, blocks, front, rest, i);
    }
    forall e | InBlocks(blocks, e)
      ensures HasPosting(ix, ps, e)
    {
      InFlat(blocks, e);
      var i :| 0 <= i < |ps| && EntriesOf(ps)[i] == e;
      EntryListed(ix, ps, blocks, front, rest, i);
    }
  }

  lemma EntryListed(ix: Index, ps: seq<Posting>, blocks: seq<seq<Entry>>, front: Str, rest: Str, i: nat)
    requires AllStorable(ps) && ix.version == 2 && Flat(blocks) == EntriesOf(ps) && i < |ps|
    requires ix.data == front + ListsBytes(2, ps) + rest && ix.postData == |front|
    ensures EntryOf(ix, EntryFor(ps, i), ps[i]) && InBlocks(blocks, EntryFor(ps, i)) && HasEntry(ix, blocks, ps[i])
  {
    ListInFile(ix, ps, i, front, rest);
    hide ListsBytes;
    assert EntriesOf(ps)[i] == EntryFor(ps, i);
    InFlat(blocks, EntryFor(ps, i));
  }

  lemma BlocksInFile(ix: Index, blocks: seq<seq<Entry>>, front: Str, trailer: Str)
    requires BlocksOk(blocks) && ix.numPostBlock == |blocks| && TrigramsAscend(blocks)
    requires ix.data == front + BlocksBytes(blocks) + trailer && ix.postIndex == |front|
    ensures HasBlocks(ix, blocks)
  {
    forall i | 0 <= i < |blocks|
      ensures BlockOk(blocks[i]) && BlockAt(ix, i, blocks[i])
    {
      BlockInBytes(blocks, i);
      BlockPlaced(ix, i, blocks[i], front, BlocksBytes(blocks), trailer);
    }
    hide BlocksBytes, Padded, TrigramsAscend;
  }

  lemma BlockPlaced(ix: Index, i: nat, es: seq<Entry>, front: Str, table: Str, trailer: Str)
    requires BlockOk(es) && PostBlockSize * i + PostBlockSize <= |table|
    requires table[PostBlockSize * i..PostBlockSize * i + PostBlockSize] == Padded(es)
    requires ix.data == front + table + trailer && ix.postIndex == |front|
    ensures BlockAt(ix, i, es)
  {
    hide Padded, BlockOk;
    Middle(front, table, trailer, PostBlockSize * i, PostBlockSize * i + PostBlockSize);
  }
}
