/** Finding a posting list in an index file (internal/codesearch/index/read.go). */
module PostingIndex {
  import opened Bytes
  import opened Varint
  import opened PostingLists
  import opened DeltaCoding

  const EntrySizeV1 := 11

  /** An opened index file and the sections of it that posting lists are read from. */
  datatype Index = Index(version: nat, data: Str, postData: nat, postIndex: nat, numPost: nat, numPostBlock: nat, numName: nat)

  function BigEndian(b: Str): nat {
    if b == [] then 0 else BigEndian(b[..|b| - 1]) * 256 + b[|b| - 1] as int
  }

  // ---------------------------------------------------------- what the bytes hold

  /** The delta list of a posting list starts behind the three bytes of its trigram. */
  ghost predicate HasList(ix: Index, offset: nat, ids: seq<nat>) {
    && Ascending(ids)
    && ix.postData + offset + 3 <= |ix.data|
    && exists after :: ix.data[ix.postData + offset + 3..] == Encode(ix.version, Deltas(ids, -1) + [0]) + after
  }

  predicate EntryV1(ix: Index, i: nat, trigram: nat, count: nat, offset: nat) {
    var at := ix.postIndex + i * EntrySizeV1;
    && at + EntrySizeV1 <= |ix.data|
    && BigEndian(ix.data[at..at + 3]) == trigram
    && BigEndian(ix.data[at + 3..at + 7]) == count
    && BigEndian(ix.data[at + 7..at + 11]) == offset
  }

  ghost predicate ListedV1(ix: Index, p: Posting, i: nat) {
    exists offset :: EntryV1(ix, i, p.trigram, |p.ids|, offset) && (p.ids != [] ==> HasList(ix, offset, p.ids))
  }

  ghost predicate WellFormed(ix: Index, ps: seq<Posting>) {
    && Sorted(ps) && ix.numName < MaxDelta
    && (forall i, k :: 0 <= i < |ps| && 0 <= k < |ps[i].ids| ==> ps[i].ids[k] < ix.numName)
  }

  /** The index table of version 1 lists ps, in order. */
  ghost predicate IndexedV1(ix: Index, ps: seq<Posting>) {
    && WellFormed(ix, ps) && ix.version == 1 && ix.numPost == |ps|
    && (forall i :: 0 <= i < |ps| ==> ListedV1(ix, ps[i], i))
  }

  // ------------------------------------------------------------------- findList

  method PostIndexEntry(ix: Index, i: nat) returns (trigram: nat, count: nat, offset: nat)
    requires ix.postIndex + i * EntrySizeV1 + EntrySizeV1 <= |ix.data|
    ensures EntryV1(ix, i, trigram, count, offset)
  {
    var at := ix.postIndex + i * EntrySizeV1;
    trigram := BigEndian(ix.data[at..at + 3]);
    count := BigEndian(ix.data[at + 3..at + 7]);
    offset := BigEndian(ix.data[at + 7..at + 11]);
  }

  /** The first entry whose trigram is not below the wanted one (sort.Search). */
  method SearchEntry(ix: Index, trigram: nat, ghost ps: seq<Posting>) returns (i: nat)
    requires IndexedV1(ix, ps)
    ensures i <= |ps|
    ensures forall k :: 0 <= k < i ==> ps[k].trigram < trigram
    ensures forall k :: i <= k < |ps| ==> ps[k].trigram >= trigram
  {
    i := 0;
    var j := ix.numPost;
    while i < j
      invariant 0 <= i <= j <= |ps|
      invariant forall k :: 0 <= k < i ==> ps[k].trigram < trigram
      invariant forall k :: j <= k < |ps| ==> ps[k].trigram >= trigram
    {
      var h := (i + j) / 2;
      assert ListedV1(ix, ps[h], h);
      var t, _, _ := PostIndexEntry(ix, h);
      if t >= trigram {
        j := h;
      } else {
        i := h + 1;
      }
    }
  }

  /** What findList answers: the number of files and where their list is, or twice 0. */
  ghost predicate Found(ix: Index, ids: seq<nat>, count: nat, offset: nat) {
    && count == |ids|
    && (ids != [] ==> HasList(ix, offset, ids))
  }

  method FindListV1(ix: Index, trigram: nat, ghost ps: seq<Posting>) returns (count: nat, offset: nat)
    requires IndexedV1(ix, ps)
    ensures Found(ix, Lookup(ps, trigram), count, offset)
  {
    var i := SearchEntry(ix, trigram, ps);
    if i >= ix.numPost {
      LookupAbsent(ps, trigram);
      return 0, 0;
    }
    assert ListedV1(ix, ps[i], i);
    var t;
    t, count, offset := PostIndexEntry(ix, i);
    if t != trigram {
      LookupAbsent(ps, trigram);
      return 0, 0;
    }
    LookupAt(ps, i);
  }

  lemma LookupBounded(ix: Index, ps: seq<Posting>, trigram: nat)
    requires WellFormed(ix, ps)
    ensures forall k :: 0 <= k < |Lookup(ps, trigram)| ==> Lookup(ps, trigram)[k] < ix.numName
  {
    LookupAscends(ps, trigram);
    forall k | 0 <= k < |Lookup(ps, trigram)|
      ensures Lookup(ps, trigram)[k] < ix.numName
    {
      var id := Lookup(ps, trigram)[k];
      assert id in Lookup(ps, trigram);
      var i :| 0 <= i < |ps| && ps[i].trigram == trigram && id in ps[i].ids;
    }
  }

  // ----------------------------------------------------------- version 2: blocks

  const PostBlockSize := 256

  /** An entry of the index: a trigram, how many files have it, and where their list is. */
  datatype Entry = Entry(trigram: nat, count: nat, offset: nat)

  /** Entries as bytes; offsets are differences, the first one from last. */
  function EncodeEntries(es: seq<Entry>, last: nat): Str
    requires Offsets(es, last) && forall k :: 0 <= k < |es| ==> es[k].trigram <= InvalidTrigram
  {
    if es == [] then []
    else
      TrigramBytes(es[0].trigram) + PutUvarint(es[0].count) + PutUvarint(es[0].offset - last) +
      EncodeEntries(es[1..], es[0].offset)
  }

  predicate Offsets(es: seq<Entry>, last: nat) {
    if es == [] then true else last <= es[0].offset && Offsets(es[1..], es[0].offset)
  }

  function ZeroBytes(n: nat): (w: Str)
    ensures |w| == n && forall k :: 0 <= k < n ==> w[k] == 0
  {
    seq(n, _ => 0)
  }

  /** What a block of the index may hold. */
  ghost predicate BlockOk(es: seq<Entry>) {
    && es != [] && Offsets(es, 0)
    && (forall k :: 0 <= k < |es| ==> 0 < es[k].trigram <= InvalidTrigram && es[k].count < Max64 && es[k].offset < Max64)
    && |EncodeEntries(es, 0)| <= PostBlockSize
  }

  const Max64 := 0x1_0000_0000_0000_0000

  function Padded(es: seq<Entry>): Str
    requires Offsets(es, 0) && (forall k :: 0 <= k < |es| ==> es[k].trigram <= InvalidTrigram)
    requires |EncodeEntries(es, 0)| <= PostBlockSize
  {
    EncodeEntries(es, 0) + ZeroBytes(PostBlockSize - |EncodeEntries(es, 0)|)
  }

  /** The blocks are in the file one behind the other, and their trigrams ascend. */
  ghost predicate HasBlocks(ix: Index, blocks: seq<seq<Entry>>) {
    && ix.numPostBlock == |blocks| && ix.postIndex + PostBlockSize * |blocks| <= |ix.data|
    && (forall i :: 0 <= i < |blocks| ==> BlockOk(blocks[i]) && BlockAt(ix, i, blocks[i]))
    && TrigramsAscend(blocks)
  }

  ghost predicate BlockAt(ix: Index, i: nat, es: seq<Entry>)
    requires BlockOk(es)
  {
    && ix.postIndex + PostBlockSize * i + PostBlockSize <= |ix.data|
    && ix.data[ix.postIndex + PostBlockSize * i..ix.postIndex + PostBlockSize * i + PostBlockSize] == Padded(es)
  }

  ghost predicate TrigramsAscend(blocks: seq<seq<Entry>>) {
    && (forall i, k, l :: 0 <= i < |blocks| && 0 <= k < l < |blocks[i]| ==> InOrder(blocks[i][k], blocks[i][l]))
    && (forall i, j, k, l :: 0 <= i < j < |blocks| && 0 <= k < |blocks[i]| && 0 <= l < |blocks[j]| ==>
          InOrder(blocks[i][k], blocks[j][l]))
  }

  /** Only the empty entries of the invalid trigram may repeat. */
  predicate InOrder(d: Entry, e: Entry) {
    d.trigram < e.trigram || (d.trigram == e.trigram == InvalidTrigram && d.count == 0 && e.count == 0)
  }

  /** The entry for a trigram is somewhere in the blocks. */
  ghost predicate InBlocks(blocks: seq<seq<Entry>>, e: Entry) {
    exists i :: 0 <= i < |blocks| && e in blocks[i]
  }

  lemma FirstTrigram(es: seq<Entry>)
    requires BlockOk(es)
    ensures Padded(es)[..3] == TrigramBytes(es[0].trigram)
  {
  }

  /** The first block that starts behind the wanted trigram (sort.Search). */
  method SearchBlock(ix: Index, trigram: nat, ghost blocks: seq<seq<Entry>>) returns (i: nat)
    requires HasBlocks(ix, blocks)
    ensures i <= |blocks|
    ensures forall k :: 0 <= k < i ==> blocks[k][0].trigram <= trigram
    ensures forall k :: i <= k < |blocks| ==> blocks[k][0].trigram > trigram
  {
    i := 0;
    var j := ix.numPostBlock;
    while i < j
      invariant 0 <= i <= j <= |blocks|
      invariant forall k :: 0 <= k < i ==> blocks[k][0].trigram <= trigram
      invariant forall k :: j <= k < |blocks| ==> blocks[k][0].trigram > trigram
    {
      var h := (i + j) / 2;
      var at := ix.postIndex + h * PostBlockSize;
      FirstTrigram(blocks[h]);
      assert BlockAt(ix, h, blocks[h]);
      assert ix.data[at..at + 3] == ix.data[at..at + PostBlockSize][..3];
      var t := TrigramNumber(ix.data[at..at + 3]);
      if t > trigram {
        j := h;
      } else {
        i := h + 1;
      }
    }
  }

  /** A number behind some bytes, read back. */
  lemma ReadNumber(b: Str, front: Str, x: nat, rest: Str)
    requires x < Max64 && b == front + PutUvarint(x) + rest
    ensures |front| <= |b| && Uvarint(b[|front|..]) == (x, |PutUvarint(x)|) && 0 < |PutUvarint(x)| <= |b| - |front|
  {
    RoundTrip(x, rest);
    assert b[|front|..] == PutUvarint(x) + rest;
  }

  /** Two numbers behind a trigram, read back. */
  lemma ReadEntry(b: Str, tri: Str, x: nat, y: nat, rest: Str)
    requires |tri| == 3 && x < Max64 && y < Max64 && b == tri + PutUvarint(x) + PutUvarint(y) + rest
    ensures b[..3] == tri && Uvarint(b[3..]) == (x, |PutUvarint(x)|) && 0 < |PutUvarint(x)| <= |b| - 3
    ensures Uvarint(b[3 + |PutUvarint(x)|..]) == (y, |PutUvarint(y)|) && 3 + |PutUvarint(x)| + |PutUvarint(y)| <= |b|
    ensures b[3 + |PutUvarint(x)| + |PutUvarint(y)|..] == rest
  {
    assert b == tri + PutUvarint(x) + (PutUvarint(y) + rest);
    ReadNumber(b, tri, x, PutUvarint(y) + rest);
    ReadNumber(b, tri + PutUvarint(x), y, rest);
  }

  /** The front of the rest of a block is its next entry. */
  lemma NextEntry(es: seq<Entry>, k: nat, last: nat, pad: nat)
    requires k < |es| && Offsets(es[k..], last) && forall j :: 0 <= j < |es| ==> es[j].trigram <= InvalidTrigram
    requires es[k].count < Max64 && es[k].offset < Max64
    ensures Offsets(es[k + 1..], es[k].offset) && last <= es[k].offset
    ensures EncodeEntries(es[k..], last) + ZeroBytes(pad) ==
            TrigramBytes(es[k].trigram) + PutUvarint(es[k].count) + PutUvarint(es[k].offset - last) +
            (EncodeEntries(es[k + 1..], es[k].offset) + ZeroBytes(pad))
  {
    assert es[k..][1..] == es[k + 1..];
  }

  /** From the k-th entry on, a block holds the rest of the entries and then zeros. */
  ghost predicate Stands(b: Str, es: seq<Entry>, k: nat, last: nat, pad: nat)
    requires BlockOk(es)
  {
    k <= |es| && Offsets(es[k..], last) && b == EncodeEntries(es[k..], last) + ZeroBytes(pad)
  }

  /** The next three bytes tell whether there is another entry. */
  lemma FirstNumber(b: Str, es: seq<Entry>, k: nat, last: nat, pad: nat)
    requires BlockOk(es) && Stands(b, es, k, last, pad)
    ensures k < |es| ==> |b| >= 3 && TrigramNumber(b[..3]) == es[k].trigram
    ensures k == |es| && |b| >= 3 ==> TrigramNumber(b[..3]) == 0
  {
    if k < |es| {
      NextEntry(es, k, last, pad);
      assert b[..3] == TrigramBytes(es[k].trigram);
    } else {
      assert b == ZeroBytes(pad);
    }
  }

  lemma AtEntry(b: Str, es: seq<Entry>, k: nat, last: nat, pad: nat)
    requires BlockOk(es) && k < |es| && Stands(b, es, k, last, pad)
    ensures last <= es[k].offset
    ensures var n1 := |PutUvarint(es[k].count)|;
            var n2 := |PutUvarint(es[k].offset - last)|;
            && |b| >= 3 && 0 < n1 <= |b| - 3 && Uvarint(b[3..]) == (es[k].count, n1)
            && 3 + n1 + n2 <= |b| && Uvarint(b[3 + n1..]) == (es[k].offset - last, n2)
            && Stands(b[3 + n1 + n2..], es, k + 1, es[k].offset, pad)
  {
    NextEntry(es, k, last, pad);
    ReadEntry(b, TrigramBytes(es[k].trigram), es[k].count, es[k].offset - last,
              EncodeEntries(es[k + 1..], es[k].offset) + ZeroBytes(pad));
  }

  /** The walk through one block. */
  method WalkBlock(block: Str, trigram: nat, ghost es: seq<Entry>) returns (count: nat, offset: nat)
    requires BlockOk(es) && block == Padded(es)
    ensures (count == 0 && offset == 0 && forall k :: 0 <= k < |es| ==> es[k].trigram != trigram) ||
            Entry(trigram, count, offset) in es
  {
    var b := block;
    count, offset := 0, 0;
    ghost var k, pad := 0, PostBlockSize - |EncodeEntries(es, 0)|;
    assert es[0..] == es;
    while |b| >= 3
      invariant Stands(b, es, k, offset, pad)
      invariant forall j :: 0 <= j < k ==> es[j].trigram != trigram
      invariant count == 0
      decreases |es| - k
    {
      var t := TrigramNumber(b[..3]);
      FirstNumber(b, es, k, offset, pad);
      if t == 0 {
        break;
      }
      AtEntry(b, es, k, offset, pad);
      var (n, n1) := Uvarint(b[3..]);
      var (o, n2) := Uvarint(b[3 + n1..]);
      offset := offset + o;
      if t == trigram {
        count := n;
        assert es[k] == Entry(trigram, count, offset);
        return;
      }
      b := b[3 + n1 + n2..];
      k := k + 1;
    }
    FirstNumber(b, es, k, offset, pad);
    offset := 0;
  }

  /** findListV2 over the blocks: the stored count and offset, or twice 0 when the trigram is absent. */
  method FindListV2(ix: Index, trigram: nat, ghost blocks: seq<seq<Entry>>) returns (count: nat, offset: nat)
    requires HasBlocks(ix, blocks)
    ensures (count == 0 && offset == 0 && forall e :: InBlocks(blocks, e) ==> e.trigram != trigram) ||
            InBlocks(blocks, Entry(trigram, count, offset))
  {
    var i := SearchBlock(ix, trigram, blocks);
    OnlyInBlock(blocks, trigram, i);
    if i == 0 {
      return 0, 0;
    }
    assert BlockAt(ix, i - 1, blocks[i - 1]);
    var at := ix.postIndex + (i - 1) * PostBlockSize;
    count, offset := WalkBlock(ix.data[at..at + PostBlockSize], trigram, blocks[i - 1]);
  }

  /** A trigram can only be in the last block that does not start behind it. */
  lemma OnlyInBlock(blocks: seq<seq<Entry>>, trigram: nat, i: nat)
    requires TrigramsAscend(blocks) && i <= |blocks| && forall k :: 0 <= k < |blocks| ==> blocks[k] != []
    requires forall k :: 0 <= k < i ==> blocks[k][0].trigram <= trigram
    requires forall k :: i <= k < |blocks| ==> blocks[k][0].trigram > trigram
    ensures forall e :: InBlocks(blocks, e) && e.trigram == trigram ==> i > 0 && exists d :: d in blocks[i - 1] && d.trigram == trigram
  {
    forall e | InBlocks(blocks, e) && e.trigram == trigram
      ensures i > 0 && exists d :: d in blocks[i - 1] && d.trigram == trigram
    {
      var b :| 0 <= b < |blocks| && e in blocks[b];
      var k :| 0 <= k < |blocks[b]| && blocks[b][k] == e;
      assert blocks[b][0].trigram <= trigram;
      assert forall c :: b < c < |blocks| ==> InOrder(blocks[b][k], blocks[c][0]);
      assert b < i && (b < i - 1 ==> blocks[i - 1][0].trigram == trigram);
      assert blocks[i - 1][0] in blocks[i - 1];
    }
  }

  /** The blocks list ps: every entry is that of a posting, and every posting has an entry. */
  ghost predicate ListedV2(ix: Index, blocks: seq<seq<Entry>>, ps: seq<Posting>) {
    && (forall e :: InBlocks(blocks, e) ==> HasPosting(ix, ps, e))
    && (forall i :: 0 <= i < |ps| ==> HasEntry(ix, blocks, ps[i]))
  }

  ghost predicate HasPosting(ix: Index, ps: seq<Posting>, e: Entry) {
    exists i :: 0 <= i < |ps| && EntryOf(ix, e, ps[i])
  }

  ghost predicate HasEntry(ix: Index, blocks: seq<seq<Entry>>, p: Posting) {
    exists e :: InBlocks(blocks, e) && EntryOf(ix, e, p)
  }

  ghost predicate EntryOf(ix: Index, e: Entry, p: Posting) {
    e.trigram == p.trigram && e.count == |p.ids| && (p.ids != [] ==> HasList(ix, e.offset, p.ids))
  }

  ghost predicate IndexedV2(ix: Index, ps: seq<Posting>) {
    && WellFormed(ix, ps) && ix.version == 2
    && exists blocks :: HasBlocks(ix, blocks) && ListedV2(ix, blocks, ps)
  }

  // ------------------------------------------------------------------ either version

  /** The index file holds the posting lists ps. */
  ghost predicate Indexed(ix: Index, ps: seq<Posting>) {
    WellFormed(ix, ps) && (IndexedV1(ix, ps) || IndexedV2(ix, ps))
  }

  lemma AbsentFromBlocks(ix: Index, blocks: seq<seq<Entry>>, ps: seq<Posting>, trigram: nat)
    requires ListedV2(ix, blocks, ps) && forall e :: InBlocks(blocks, e) ==> e.trigram != trigram
    ensures Lookup(ps, trigram) == []
  {
    forall i | 0 <= i < |ps|
      ensures ps[i].trigram != trigram
    {
      assert HasEntry(ix, blocks, ps[i]);
      var e :| InBlocks(blocks, e) && EntryOf(ix, e, ps[i]);
    }
    LookupAbsent(ps, trigram);
  }

  lemma PresentInBlocks(ix: Index, blocks: seq<seq<Entry>>, ps: seq<Posting>, e: Entry)
    requires Sorted(ps) && ListedV2(ix, blocks, ps) && InBlocks(blocks, e)
    ensures Found(ix, Lookup(ps, e.trigram), e.count, e.offset)
  {
    assert HasPosting(ix, ps, e);
    var i :| 0 <= i < |ps| && EntryOf(ix, e, ps[i]);
    LookupAt(ps, i);
  }

  /** findList: how many files have a trigram and where their list is, or twice 0 if none has it. */
  method FindList(ix: Index, trigram: nat, ghost ps: seq<Posting>) returns (count: nat, offset: nat)
    requires Indexed(ix, ps)
    ensures Found(ix, Lookup(ps, trigram), count, offset)
  {
    if ix.version == 2 {
      ghost var blocks :| HasBlocks(ix, blocks) && ListedV2(ix, blocks, ps);
      assert Sorted(ps);
      hide HasBlocks, ListedV2, InBlocks, Lookup, HasList, Indexed, Sorted;
      count, offset := FindListV2(ix, trigram, blocks);
      if InBlocks(blocks, Entry(trigram, count, offset)) {
        PresentInBlocks(ix, blocks, ps, Entry(trigram, count, offset));
      } else {
        AbsentFromBlocks(ix, blocks, ps, trigram);
      }
    } else {
      count, offset := FindListV1(ix, trigram, ps);
    }
  }
}
