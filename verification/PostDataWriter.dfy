/** postDataWriter of internal/codesearch/index/write.go: posting lists and the index over them, step by step. */
module PostDataWriters {
  import opened Bytes
  import opened Varint
  import opened Buffers
  import opened DeltaCoding
  import opened PostingLists
  import opened PostingIndex
  import opened PostingWriter

  function LastOf(ids: seq<nat>): int {
    if ids == [] then -1 else ids[|ids| - 1]
  }

  ghost predicate Small(ids: seq<nat>) {
    forall k :: 0 <= k < |ids| ==> ids[k] < MaxDelta
  }

  lemma AscendingMore(ids: seq<nat>, id: nat)
    requires Ascending(ids) && LastOf(ids) < id
    ensures Ascending(ids + [id])
  {
    forall k | 0 <= k < |ids|
      ensures ids[k] < id
    {
      assert ids[k] <= LastOf(ids);
    }
  }

  lemma {:induction false} DeltasOneMore(ids: seq<nat>, id: nat, last: int)
    requires last >= -1 && Ascending(ids) && (forall k :: 0 <= k < |ids| ==> last < ids[k]) && last < id && LastOf(ids) < id
    ensures Ascending(ids + [id])
    ensures Deltas(ids + [id], last) == Deltas(ids, last) + [id - if ids == [] then last else LastOf(ids)]
  {
    if ids == [] {
      assert [id][1..] == [];
    } else {
      assert (ids + [id])[1..] == ids[1..] + [id];
      AscendingMore(ids, id);
      assert LastOf(ids[1..]) < id && ids[0] < id;
      DeltasOneMore(ids[1..], id, ids[0]);
    }
  }

  lemma {:induction false} UvarintLength(x: nat, i: nat)
    requires i < MaxVarintLen64 && x < Limit(i)
    ensures |PutUvarint(x)| <= MaxVarintLen64 - i
    decreases x
  {
    if x >= 128 {
      UvarintLength(x / 128, i + 1);
    }
  }

  lemma Uvarint64Length(x: nat)
    requires x < Max64
    ensures |PutUvarint(x)| <= MaxVarintLen64
  {
    LimitIs64();
    UvarintLength(x, 0);
  }

  lemma LimitIs64()
    ensures Limit(0) == Max64
  {
    assert Limit(9) == 2;
    assert Limit(7) == 128 * Limit(8);
    assert Limit(5) == 128 * Limit(6);
    assert Limit(3) == 128 * Limit(4);
    assert Limit(1) == 128 * Limit(2);
  }

  // -------------------------------------------------------------- entries of a block

  predicate EntryFits(e: Entry) {
    0 < e.trigram <= InvalidTrigram && e.count < Max64 && e.offset < Max64
  }

  function LastOffset(es: seq<Entry>): nat {
    if es == [] then 0 else es[|es| - 1].offset
  }

  ghost predicate Encodable(es: seq<Entry>) {
    Offsets(es, 0) && forall k :: 0 <= k < |es| ==> EntryFits(es[k])
  }

  function OneEntry(e: Entry, last: nat): Str
    requires last <= e.offset && e.trigram <= InvalidTrigram
  {
    TrigramBytes(e.trigram) + PutUvarint(e.count) + PutUvarint(e.offset - last)
  }

  lemma {:induction false} AppendEntry(es: seq<Entry>, e: Entry, last: nat)
    requires Offsets(es, last) && (forall k :: 0 <= k < |es| ==> es[k].trigram <= InvalidTrigram) && e.trigram <= InvalidTrigram
    requires (if es == [] then last else LastOffset(es)) <= e.offset
    ensures Offsets(es + [e], last)
    ensures EncodeEntries(es + [e], last) == EncodeEntries(es, last) + OneEntry(e, if es == [] then last else LastOffset(es))
  {
    if es == [] {
      assert [e][1..] == [];
      assert EncodeEntries([], e.offset) == [];
      assert [e] == es + [e];
    } else {
      assert (es + [e])[1..] == es[1..] + [e];
      AppendEntry(es[1..], e, es[0].offset);
    }
  }

  // ------------------------------------------------------------------ postDataWriter

  class PostDataWriter {
    const version: nat
    const out: Buffer
    const postIndexFile: Buffer?
    const base: nat
    const delta: DeltaWriter
    var lastOffset: nat
    var count: nat
    var offset: nat
    var lastID: int
    var t: nat
    var numTrigram: nat
    const block: array<Byte>
    var blockLen: nat
    /** The lists that are complete, and the ids of the list that is not. */
    ghost var done: seq<Posting>
    ghost var ids: seq<nat>
    /** What was in the files before. */
    ghost const head: Str
    ghost const indexBase: nat
    ghost var blocks: seq<seq<Entry>>
    ghost var cur: seq<Entry>

    /** init. */
    constructor (version: nat, postData: Buffer, postIndex: Buffer?)
      requires postData != postIndex
      ensures this.version == version && out == postData && postIndexFile == postIndex
      ensures fresh(delta) && fresh(block) && done == [] && head == postData.data && base == |head|
      ensures indexBase == (if postIndex == null then 0 else |postIndex.data|)
      ensures Idle() && IndexRight()
    {
      this.version := version;
      out := postData;
      base := postData.Offset();
      head := postData.data;
      postIndexFile := postIndex;
      delta := new DeltaWriter(version, postData);
      lastOffset := postData.Offset();
      count, offset, lastID, t, numTrigram := 0, 0, 0, 0, 0;
      block := new Byte[PostBlockSize](_ => 0);
      blockLen := 0;
      done, ids, blocks, cur := [], [], [], [];
      indexBase := if postIndex == null then 0 else |postIndex.data|;
    }

    ghost predicate Linked()
      reads this
    {
      delta.out == out && delta.version == version && out != postIndexFile && block.Length == PostBlockSize
    }

    /** Between two lists. */
    ghost predicate Idle()
      reads this, delta, out
    {
      && Linked() && delta.Valid() && delta.pending == []
      && numTrigram == |done| && AllStorable(done)
      && base == |head| && out.data == head + ListsBytes(version, done)
    }

    /** In the middle of a list. */
    ghost predicate Open()
      reads this, delta, out
    {
      && Linked() && delta.Valid() && 0 < t <= InvalidTrigram
      && numTrigram == |done| + 1 && AllStorable(done)
      && base == |head| && offset + 3 <= |out.data| && out.data[..offset] == head + ListsBytes(version, done)
      && out.data[offset..offset + 3] == TrigramBytes(t)
      && Ascending(ids) && Small(ids) && count == |ids| && lastID == LastOf(ids)
      && delta.Holds(offset + 3, Deltas(ids, -1))
    }

    ghost predicate IndexRight()
      reads this`done, this`lastOffset, this`blockLen, this`blocks, this`cur, postIndexFile, block
    {
      AllStorable(done) && IndexFor(done)
    }

    /** The index covers the lists ps. */
    ghost predicate IndexFor(ps: seq<Posting>)
      requires AllStorable(ps)
      reads this`lastOffset, this`blockLen, this`blocks, this`cur, postIndexFile, block
    {
      && block.Length == PostBlockSize
      && (postIndexFile != null ==>
            && indexBase <= |postIndexFile.data|
            && (version == 1 ==> Fits32(1, ps) && postIndexFile.data[indexBase..] == IndexBytes(1, ps))
            && (version == 2 ==> TableV2(ps)))
    }

    /** Full blocks have been written, and the current one is filled as far as blockLen. */
    ghost predicate BlocksFor(written: Str, ps: seq<Posting>)
      requires AllStorable(ps)
      reads this`blockLen, this`blocks, this`cur, block
    {
      && BlocksOk(blocks) && written == BlocksBytes(blocks)
      && Flat(blocks) + cur == EntriesOf(ps)
      && CurrentRight()
    }

    ghost predicate LastRight(ps: seq<Posting>)
      reads this`lastOffset, this`cur
    {
      (cur == [] ==> ps == []) && lastOffset == base + LastOffset(cur)
    }

    ghost predicate CurrentRight()
      reads this`blockLen, this`cur, block
    {
      && block.Length == PostBlockSize && blockLen <= PostBlockSize && Encodable(cur)
      && block[..blockLen] == EncodeEntries(cur, 0)
      && (forall k :: blockLen <= k < PostBlockSize ==> block[k] == 0)
    }

    method Trigram(t: nat)
      requires Idle() && 0 < t <= InvalidTrigram
      modifies this`offset, this`count, this`t, this`lastID, this`numTrigram, this`ids, out
      ensures Open() && this.t == t && ids == []
      ensures old(out.data) <= out.data
    {
      offset := out.Offset();
      count := 0;
      this.t := t;
      lastID := -1;
      numTrigram := numTrigram + 1;
      ids := [];
      ghost var before := out.data;
      out.Write(TrigramBytes(t));
      assert out.data[..offset] == before;
      assert out.data[offset + 3..] == [];
    }

    method FileId(id: nat)
      requires Open() && lastID < id < MaxDelta
      modifies this`lastID, this`count, this`ids, delta, out
      ensures Open() && ids == old(ids) + [id] && old(out.data) <= out.data
    {
      hide ListsBytes, DeltaWriter.Holds, DeltaWriter.Valid;
      ghost var before := out.data;
      DeltasOneMore(ids, id, -1);
      hide Deltas;
      delta.Write(id - lastID, offset + 3, Deltas(ids, -1));
      lastID := id;
      count := count + 1;
      ids := ids + [id];
      assert out.data[..offset] == before[..offset] && out.data[offset..offset + 3] == before[offset..offset + 3];
    }

    /** The end of the bytes of a list. */
    method EndList(ghost end: seq<nat>)
      requires Open() && end == Deltas(ids, -1)
      modifies delta, out
      ensures delta.Valid() && delta.pending == []
      ensures out.data == old(out.data)[..offset + 3] + Encode(version, end + [0])
    {
      hide ListsBytes, Deltas, DeltaWriter.Holds, DeltaWriter.Valid, Ascending, Small;
      ghost var before := out.data;
      delta.Write(0, offset + 3, end);
      delta.Flush(offset + 3, end + [0]);
    }

    /** A full block goes to the file, and an empty one takes its place. */
    method NewBlock(ghost ps: seq<Posting>)
      requires version == 2 && postIndexFile != null && AllStorable(ps) && cur != []
      requires indexBase <= |postIndexFile.data| && BlocksFor(postIndexFile.data[indexBase..], ps)
      modifies this`blockLen, this`blocks, this`cur, block, postIndexFile
      ensures indexBase <= |postIndexFile.data| && BlocksFor(postIndexFile.data[indexBase..], ps)
      ensures cur == [] && old(postIndexFile.data) <= postIndexFile.data
    {
      FullBlock(block[..], blockLen, cur);
      OneMoreBlock(blocks, cur);
      hide Flat, BlocksBytes, BlocksOk, BlockOk, Padded, EntriesOf;
      ghost var before := postIndexFile.data;
      postIndexFile.Write(block[..]);
      BehindBase(before, indexBase, Padded(cur));
      ClearFront(block, blockLen);
      blocks := blocks + [cur];
      cur := [];
      blockLen := 0;
    }

    method AppendToBlock(w: Str, ghost e: Entry)
      requires CurrentRight() && blockLen + |w| <= PostBlockSize && EntryFits(e) && LastOffset(cur) <= e.offset
      requires w == OneEntry(e, LastOffset(cur))
      modifies this`blockLen, this`cur, block
      ensures CurrentRight() && cur == old(cur) + [e]
    {
      ghost var before := block[..];
      CopyTo(block, blockLen, w);
      AppendEntry(cur, e, 0);
      assert block[..blockLen + |w|] == before[..blockLen] + w;
      blockLen := blockLen + |w|;
      cur := cur + [e];
    }

    ghost predicate TableV2(ps: seq<Posting>)
      requires AllStorable(ps)
      reads this`lastOffset, this`blockLen, this`blocks, this`cur, postIndexFile, block
    {
      postIndexFile != null && indexBase <= |postIndexFile.data| && BlocksFor(postIndexFile.data[indexBase..], ps) && LastRight(ps)
    }

    /** The index entry of version 2: into the current block if it fits, and else into a new one. */
    method WriteEntryV2(ghost ps: seq<Posting>, ghost p: Posting)
      requires version == 2 && postIndexFile != null && AllStorable(ps) && Storable(p) && TableV2(ps)
      requires 0 < t == p.trigram && count == |p.ids| < Max64 && offset == base + |ListsBytes(2, ps)| && offset - base < Max64
      modifies this`lastOffset, this`blockLen, this`blocks, this`cur, block, postIndexFile
      ensures AllStorable(ps + [p]) && TableV2(ps + [p])
    {
      hide ListsBytes, EntriesOf, BlocksFor, OneEntry;
      ghost var e := Entry(t, count, offset - base);
      CurrentLast(ps);
      EntriesOneMore(ps, p);
      var w := MakeRoom(ps, e);
      AddToBlock(ps, p, w, e);
      lastOffset := offset;
    }

    lemma CurrentLast(ps: seq<Posting>)
      requires AllStorable(ps) && TableV2(ps)
      ensures LastOffset(cur) <= |ListsBytes(2, ps)|
    {
      LastEntry(ps, blocks, cur);
    }

    /** The bytes of an entry, and a block that has room for them. */
    method MakeRoom(ghost ps: seq<Posting>, ghost e: Entry) returns (w: Str)
      requires version == 2 && postIndexFile != null && AllStorable(ps) && EntryFits(e) && TableV2(ps)
      requires t == e.trigram && count == e.count && offset == base + e.offset && LastOffset(cur) <= e.offset
      modifies this`blockLen, this`blocks, this`cur, block, postIndexFile
      ensures indexBase <= |postIndexFile.data| && BlocksFor(postIndexFile.data[indexBase..], ps)
      ensures LastOffset(cur) <= e.offset && w == OneEntry(e, LastOffset(cur)) && blockLen + |w| <= PostBlockSize
      ensures old(postIndexFile.data) <= postIndexFile.data
    {
      var buf := TrigramBytes(t) + PutUvarint(count);
      var last := PutUvarint(offset - lastOffset);
      Uvarint64Length(count);
      Uvarint64Length(offset - lastOffset);
      Uvarint64Length(offset - base);
      if blockLen + |buf| + |last| > PostBlockSize {
        NewBlock(ps);
        last := PutUvarint(offset - base);
      }
      w := buf + last;
    }

    method AddToBlock(ghost ps: seq<Posting>, ghost p: Posting, w: Str, ghost e: Entry)
      requires AllStorable(ps) && AllStorable(ps + [p]) && EntriesOf(ps + [p]) == EntriesOf(ps) + [e]
      requires postIndexFile != null && indexBase <= |postIndexFile.data| && BlocksFor(postIndexFile.data[indexBase..], ps)
      requires blockLen + |w| <= PostBlockSize && EntryFits(e) && LastOffset(cur) <= e.offset && w == OneEntry(e, LastOffset(cur))
      modifies this`blockLen, this`cur, block
      ensures BlocksFor(postIndexFile.data[indexBase..], ps + [p]) && cur == old(cur) + [e]
    {
      hide EntriesOf;
      ghost var before := cur;
      AppendToBlock(w, e);
      assert Flat(blocks) + before + [e] == Flat(blocks) + (before + [e]);
    }

    /** The list is complete. */
    method FinishList(ghost ps: seq<Posting>)
      requires Open() && ps == done + [Posting(t, ids)]
      modifies delta, out
      ensures delta.Valid() && delta.pending == [] && AllStorable(ps)
      ensures base == |head| && out.data == head + ListsBytes(version, ps)
      ensures offset == base + |ListsBytes(version, done)|
    {
      ghost var before, encoded := out.data, Encode(version, Deltas(ids, -1) + [0]);
      EndList(Deltas(ids, -1));
      ListsOneMore(version, done, Posting(t, ids));
      ListEnds(before, out.data, head, offset, ListsBytes(version, done), TrigramBytes(t), encoded);
    }

    method EnterIndex(ghost ps: seq<Posting>, ghost p: Posting) returns (ok: bool)
      requires AllStorable(ps) && Storable(p) && IndexFor(ps)
      requires 0 < t == p.trigram && count == |p.ids| && offset == base + |ListsBytes(version, ps)|
      modifies this`lastOffset, this`blockLen, this`blocks, this`cur, block
      modifies if postIndexFile == null then {} else {postIndexFile}
      ensures ok <==> postIndexFile == null || Enterable(version, count, offset - base)
      ensures ok ==> AllStorable(ps + [p]) && IndexFor(ps + [p])
    {
      hide ListsBytes, EntriesOf;
      if postIndexFile == null {
        ok := true;
      } else if version == 1 {
        ok := WriteEntryV1(postIndexFile, t, count, offset - base, indexBase, ps, p);
      } else {
        ok := version != 2 || (offset - base < Max64 && count < Max64);
        if ok && version == 2 {
          WriteEntryV2(ps, p);
        }
      }
    }

    /** endTrigram: ends the list and enters it into the index. It fails where the source gives up because a
        number is too large for the index. */
    method EndTrigram() returns (ok: bool)
      requires Open() && IndexRight()
      modifies this`lastOffset, this`blockLen, this`blocks, this`cur, this`done
      modifies out, delta, block, if postIndexFile == null then {} else {postIndexFile}
      ensures ok <==> postIndexFile == null || Enterable(version, |ids|, |ListsBytes(version, old(done))|)
      ensures ok ==> Idle() && IndexRight() && done == old(done) + [Posting(t, ids)]
    {
      hide ListsBytes, IndexFor;
      ghost var ps, p := done, Posting(t, ids);
      FinishList(ps + [p]);
      ok := EnterIndex(ps, p);
      done := done + [p];
    }

    /** flush writes the last block. */
    method Flush()
      requires Idle() && IndexRight() && postIndexFile != null
      modifies this`blockLen, this`blocks, this`cur, block, postIndexFile
      ensures indexBase <= |postIndexFile.data| && old(postIndexFile.data) <= postIndexFile.data
      ensures version == 1 ==> Fits32(1, done) && postIndexFile.data[indexBase..] == IndexBytes(1, done)
      ensures version == 2 ==> BlocksOk(blocks) && Flat(blocks) == EntriesOf(done) && postIndexFile.data[indexBase..] == BlocksBytes(blocks)
    {
      if version == 2 && blockLen > 0 {
        NewBlock(done);
      }
    }
  }

  /** What goes into the index without a fatal error. */
  predicate Enterable(version: nat, count: nat, offset: nat) {
    if version == 1 then count < Max32 && offset < Max32 else version == 2 ==> count < Max64 && offset < Max64
  }

  lemma ListsOneMore(version: nat, ps: seq<Posting>, p: Posting)
    requires AllStorable(ps) && Storable(p)
    ensures AllStorable(ps + [p]) && ListsBytes(version, ps + [p]) == ListsBytes(version, ps) + ListBytes(version, p)
  {
    assert (ps + [p])[..|ps|] == ps;
  }

  lemma ListEnds(before: Str, after: Str, head: Str, offset: nat, lists: Str, trigram: Str, encoded: Str)
    requires offset + 3 <= |before| && before[..offset] == head + lists && before[offset..offset + 3] == trigram
    requires after == before[..offset + 3] + encoded
    ensures after == head + (lists + (trigram + encoded))
  {
    assert before[..offset + 3] == before[..offset] + before[offset..offset + 3];
  }

  lemma EntriesOneMore(ps: seq<Posting>, p: Posting)
    requires AllStorable(ps) && Storable(p)
    ensures AllStorable(ps + [p])
    ensures EntriesOf(ps + [p]) == EntriesOf(ps) + [Entry(p.trigram, |p.ids|, |ListsBytes(2, ps)|)]
  {
    var qs := ps + [p];
    assert qs[..|ps|] == ps;
    forall i | 0 <= i < |ps|
      ensures EntryFor(qs, i) == EntryFor(ps, i)
    {
      assert qs[..i] == ps[..i];
    }
  }

  lemma LastEntry(ps: seq<Posting>, blocks: seq<seq<Entry>>, cur: seq<Entry>)
    requires AllStorable(ps) && Flat(blocks) + cur == EntriesOf(ps)
    ensures LastOffset(cur) <= |ListsBytes(2, ps)|
  {
    if cur != [] {
      var n := |ps| - 1;
      assert EntriesOf(ps)[n] == cur[|cur| - 1];
      assert EntriesOf(ps)[n] == EntryFor(ps, n);
      assert ListsBytes(2, ps) == ListsBytes(2, ps[..n]) + ListBytes(2, ps[n]);
    }
  }

  method WriteEntry(b: Buffer, t: nat, count: nat, offset: nat)
    requires t <= InvalidTrigram && count < Max32 && offset < Max32
    modifies b
    ensures b.data == old(b.data) + EntryBytes(t, count, offset)
  {
    b.Write(TrigramBytes(t));
    b.Write(Uint32Bytes(count));
    b.Write(Uint32Bytes(offset));
  }

  /** The index entry of version 1; its numbers must fit into 32 bits. */
  method WriteEntryV1(b: Buffer, t: nat, count: nat, offset: nat, ghost indexBase: nat, ghost ps: seq<Posting>, ghost p: Posting)
    returns (ok: bool)
    requires AllStorable(ps) && Storable(p) && indexBase <= |b.data|
    requires Fits32(1, ps) && b.data[indexBase..] == IndexBytes(1, ps)
    requires t == p.trigram && count == |p.ids| && offset == |ListsBytes(1, ps)|
    modifies b
    ensures ok <==> count < Max32 && offset < Max32
    ensures ok ==> AllStorable(ps + [p]) && Fits32(1, ps + [p])
    ensures ok ==> old(b.data) <= b.data && b.data[indexBase..] == IndexBytes(1, ps + [p])
  {
    ok := count < Max32 && offset < Max32;
    if ok {
      IndexOneMore(ps, p);
      hide ListsBytes, IndexBytes, EntryBytes, Fits32;
      BehindBase(b.data, indexBase, EntryBytes(t, count, offset));
      WriteEntry(b, t, count, offset);
    }
  }

  method ClearFront(block: array<Byte>, n: nat)
    requires n <= block.Length
    modifies block
    ensures forall j :: 0 <= j < n ==> block[j] == 0
    ensures forall j :: n <= j < block.Length ==> block[j] == old(block[j])
  {
    for k := 0 to n
      invariant forall j :: 0 <= j < k ==> block[j] == 0
      invariant forall j :: n <= j < block.Length ==> block[j] == old(block[j])
    {
      block[k] := 0;
    }
  }

  method CopyTo(block: array<Byte>, at: nat, w: Str)
    requires at + |w| <= block.Length
    modifies block
    ensures block[..] == old(block[..at]) + w + old(block[at + |w|..])
  {
    ghost var before := block[..];
    for k := 0 to |w|
      invariant block[..] == before[..at] + w[..k] + before[at + k..]
    {
      block[at + k] := w[k];
      assert w[..k + 1] == w[..k] + [w[k]];
    }
    assert w[..|w|] == w;
  }

  lemma BehindBase(before: Str, base: nat, more: Str)
    requires base <= |before|
    ensures (before + more)[base..] == before[base..] + more
  {
  }

  lemma IndexOneMore(ps: seq<Posting>, p: Posting)
    requires AllStorable(ps) && Storable(p) && Fits32(1, ps) && |p.ids| < Max32 && |ListsBytes(1, ps)| < Max32
    ensures AllStorable(ps + [p]) && Fits32(1, ps + [p])
    ensures IndexBytes(1, ps + [p]) == IndexBytes(1, ps) + EntryBytes(p.trigram, |p.ids|, |ListsBytes(1, ps)|)
  {
    var qs := ps + [p];
    assert qs[..|ps|] == ps;
    forall i | 0 <= i < |qs|
      ensures |qs[i].ids| < Max32 && OffsetOf(1, qs, i) < Max32
    {
      if i < |ps| {
        assert qs[..i] == ps[..i] && OffsetOf(1, ps, i) < Max32;
      }
    }
  }

  lemma OneMoreBlock(blocks: seq<seq<Entry>>, es: seq<Entry>)
    requires BlocksOk(blocks) && BlockOk(es)
    ensures BlocksOk(blocks + [es]) && BlocksBytes(blocks + [es]) == BlocksBytes(blocks) + Padded(es)
    ensures Flat(blocks + [es]) + [] == Flat(blocks) + es
  {
    assert (blocks + [es])[..|blocks|] == blocks;
  }

  lemma FullBlock(block: Str, n: nat, es: seq<Entry>)
    requires |block| == PostBlockSize && n <= PostBlockSize && Encodable(es) && es != []
    requires block[..n] == EncodeEntries(es, 0) && forall k :: n <= k < PostBlockSize ==> block[k] == 0
    ensures BlockOk(es) && Padded(es) == block
  {
    assert block == block[..n] + ZeroBytes(PostBlockSize - n);
  }
}
