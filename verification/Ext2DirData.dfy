/** A directory's entries: what dir-entries reads from its data is what its
    blocks' records hold (lib/ext2.beer:231-253), and the blocks that mkdir! and
    add-entry! start from (lib/ext2.beer:645-651, 744-747). */
module Ext2DirData {
  import opened Bytes
  import opened Ext2Disk
  import opened Ext2BlockMap
  import opened Ext2FileData
  import opened Ext2DirBlock

  /** dir-entries: one walk over the whole contents. */
  function DirWalk(ft: bool, buf: Bytes, o: nat): Result<seq<Entry>>
    decreases |buf| - o
  {
    if o + 8 >= |buf| then Ok([])
    else if RecLen(buf, o) < 8 then Err(CorruptDirectory)
    else
      var rest := DirWalk(ft, buf, o + RecLen(buf, o));
      if RecIno(buf, o) == 0 then rest
      else if o + 8 + NameLen(ft, buf, o) > |buf| || rest.Err? then Err(CorruptDirectory)
      else Ok([RecEntry(ft, buf, o)] + rest.value)
  }

  ghost predicate DirBlocks(ft: bool, bs: nat, data: seq<Bytes>, blocks: seq<nat>)
    requires DataFit(bs, data)
  {
    forall k :: 0 <= k < |blocks| ==> Tiles(ft, ReadBlock(bs, data, blocks[k]), 0)
  }

  /** The entries of the blocks, one block after the other. */
  ghost function BlockEntries(ft: bool, bs: nat, data: seq<Bytes>, blocks: seq<nat>): seq<Entry>
    requires DataFit(bs, data) && DirBlocks(ft, bs, data, blocks)
  {
    if blocks == [] then []
    else Entries(ft, ReadBlock(bs, data, blocks[0]), 0) + BlockEntries(ft, bs, data, blocks[1..])
  }

  ghost predicate Holding(buf: Bytes, base: nat, b: Bytes) {
    base + |b| <= |buf| && buf[base..base + |b|] == b
  }

  lemma SameInside(ft: bool, buf: Bytes, base: nat, b: Bytes, o: nat)
    requires Holding(buf, base, b) && GoodRec(ft, b, o)
    ensures base + o + 8 <= |buf|
    ensures RecLen(buf, base + o) == RecLen(b, o) && RecIno(buf, base + o) == RecIno(b, o)
    ensures RecIno(b, o) != 0 ==>
      && base + o + 8 + NameLen(ft, buf, base + o) <= |buf|
      && RecEntry(ft, buf, base + o) == RecEntry(ft, b, o)
  {
    assert forall i :: 0 <= i < |b| ==> buf[base + i] == b[i];
    assert U16(buf, base + o) == U16(b, o) && U16(buf, base + o + 2) == U16(b, o + 2);
    assert U16(buf, base + o + 4) == U16(b, o + 4) && U16(buf, base + o + 6) == U16(b, o + 6);
    if RecIno(b, o) != 0 {
      var n := NameLen(ft, b, o);
      assert buf[base + o + 8..base + o + 8 + n] == b[o + 8..o + 8 + n];
    }
  }

  lemma WalkStep(ft: bool, buf: Bytes, base: nat, b: Bytes, o: nat)
    requires Holding(buf, base, b) && GoodRec(ft, b, o)
    requires DirWalk(ft, buf, base + o + RecLen(b, o)).Ok?
    ensures DirWalk(ft, buf, base + o)
         == Ok(Live(ft, b, o) + DirWalk(ft, buf, base + o + RecLen(b, o)).value)
  {
    hide RecIno, NameLen, RecEntry;
    SameInside(ft, buf, base, b, o);
    RecPositive(ft, b, o);
    var rest := DirWalk(ft, buf, base + o + RecLen(b, o));
    assert [] + rest.value == rest.value;
    if base + o + 8 >= |buf| {
      ShortRec(ft, b, o);
      WalkEnd(ft, buf, base + o);
      WalkEnd(ft, buf, base + o + RecLen(b, o));
    }
  }

  /** A record of 8 bytes holds no entry. */
  lemma ShortRec(ft: bool, b: Bytes, o: nat)
    requires GoodRec(ft, b, o) && o + 8 >= |b|
    ensures RecLen(b, o) == 8 && RecIno(b, o) == 0
  {}

  lemma {:induction false} WalkBlock(ft: bool, buf: Bytes, base: nat, b: Bytes, o: nat)
    requires Holding(buf, base, b) && Tiles(ft, b, o)
    requires DirWalk(ft, buf, base + |b|).Ok?
    ensures o <= |b| && DirWalk(ft, buf, base + o)
         == Ok(Entries(ft, b, o) + DirWalk(ft, buf, base + |b|).value)
    decreases |b| - o
  {
    hide GoodRec, RecLen, Live, DirWalk, Holding;
    if o != |b| {
      TilesAt(ft, b, o);
      WalkBlock(ft, buf, base, b, o + RecLen(b, o));
      WalkStep(ft, buf, base, b, o);
      var tail := DirWalk(ft, buf, base + |b|).value;
      assert Live(ft, b, o) + (Entries(ft, b, o + RecLen(b, o)) + tail) == Entries(ft, b, o) + tail;
    } else {
      var tail := DirWalk(ft, buf, base + |b|).value;
      assert [] + tail == tail;
    }
  }

  lemma {:induction false} WalkBlocks(ft: bool, bs: nat, data: seq<Bytes>, blocks: seq<nat>, k: nat)
    requires DataFit(bs, data) && DirBlocks(ft, bs, data, blocks) && k <= |blocks|
    ensures 0 <= k * bs
    ensures DirWalk(ft, BlocksBytes(bs, data, blocks), k * bs) == Ok(BlockEntries(ft, bs, data, blocks[k..]))
    decreases |blocks| - k
  {
    hide BlocksBytes, Entries, Tiles, ReadBlock, DirWalk;
    MulMono(0, k, bs);
    var buf := BlocksBytes(bs, data, blocks);
    if k == |blocks| {
      WalkEnd(ft, buf, k * bs);
      assert blocks[k..] == [];
    } else {
      WalkBlocks(ft, bs, data, blocks, k + 1);
      assert (k + 1) * bs == k * bs + bs;
      var b := ReadBlock(bs, data, blocks[k]);
      BlockInside(bs, data, blocks, k);
      WalkBlock(ft, buf, k * bs, b, 0);
      assert blocks[k..][1..] == blocks[k + 1..];
    }
  }

  lemma WalkEnd(ft: bool, buf: Bytes, o: nat)
    requires o + 8 >= |buf|
    ensures DirWalk(ft, buf, o) == Ok([])
  {}

  lemma BlockInside(bs: nat, data: seq<Bytes>, blocks: seq<nat>, k: nat)
    requires DataFit(bs, data) && k < |blocks|
    ensures 0 <= k * bs && Holding(BlocksBytes(bs, data, blocks), k * bs, ReadBlock(bs, data, blocks[k]))
  {
    hide BlocksBytes, ReadBlock;
    MulMono(0, k, bs);
    var one := BlocksBytes(bs, data, [blocks[k]]);
    OneBlockBytes(bs, data, blocks[k]);
    assert blocks == blocks[..k] + ([blocks[k]] + blocks[k + 1..]);
    BlocksBytesConcat(bs, data, blocks[..k], [blocks[k]] + blocks[k + 1..]);
    BlocksBytesConcat(bs, data, [blocks[k]], blocks[k + 1..]);
  }

  lemma OneBlockBytes(bs: nat, data: seq<Bytes>, b: nat)
    requires DataFit(bs, data)
    ensures BlocksBytes(bs, data, [b]) == ReadBlock(bs, data, b)
  {
    hide ReadBlock;
    assert [b][1..] == [];
    assert BlocksBytes(bs, data, []) == [];
  }

  /** dir-entries reads what the blocks hold. */
  lemma WalkIsEntries(ft: bool, bs: nat, data: seq<Bytes>, blocks: seq<nat>)
    requires DataFit(bs, data) && DirBlocks(ft, bs, data, blocks)
    ensures DirWalk(ft, BlocksBytes(bs, data, blocks), 0) == Ok(BlockEntries(ft, bs, data, blocks))
  {
    hide BlocksBytes, Entries, Tiles, ReadBlock, DirWalk;
    WalkBlocks(ft, bs, data, blocks, 0);
    assert blocks[0..] == blocks && 0 * bs == 0;
  }

  lemma {:induction false} BlockEntriesConcat(ft: bool, bs: nat, data: seq<Bytes>, a: seq<nat>, b: seq<nat>)
    requires DataFit(bs, data) && DirBlocks(ft, bs, data, a + b)
    requires DirBlocks(ft, bs, data, a) && DirBlocks(ft, bs, data, b)
    ensures BlockEntries(ft, bs, data, a + b) == BlockEntries(ft, bs, data, a) + BlockEntries(ft, bs, data, b)
  {
    hide Entries, Tiles, ReadBlock;
    if a == [] {
      assert a + b == b;
    } else {
      assert (a + b)[1..] == a[1..] + b;
      assert (a + b)[0] == a[0];
      BlockEntriesConcat(ft, bs, data, a[1..], b);
    }
  }

  lemma DirBlocksSplit(ft: bool, bs: nat, data: seq<Bytes>, a: seq<nat>, b: seq<nat>)
    requires DataFit(bs, data)
    ensures DirBlocks(ft, bs, data, a + b) <==> DirBlocks(ft, bs, data, a) && DirBlocks(ft, bs, data, b)
  {
    hide Tiles, ReadBlock;
    if DirBlocks(ft, bs, data, a + b) {
      forall k | 0 <= k < |a| ensures Tiles(ft, ReadBlock(bs, data, a[k]), 0) { assert (a + b)[k] == a[k]; }
      forall k | 0 <= k < |b| ensures Tiles(ft, ReadBlock(bs, data, b[k]), 0) { assert (a + b)[|a| + k] == b[k]; }
    }
  }

  lemma {:induction false} BlockEntriesSame(ft: bool, bs: nat, data: seq<Bytes>, data': seq<Bytes>, blocks: seq<nat>)
    requires DataFit(bs, data) && DataFit(bs, data') && |data'| == |data| && DirBlocks(ft, bs, data, blocks)
    requires forall b :: b in blocks && 0 < b < |data| ==> data'[b] == data[b]
    ensures DirBlocks(ft, bs, data', blocks)
    ensures BlockEntries(ft, bs, data', blocks) == BlockEntries(ft, bs, data, blocks)
  {
    hide Entries, Tiles;
    forall k | 0 <= k < |blocks| ensures ReadBlock(bs, data', blocks[k]) == ReadBlock(bs, data, blocks[k]) {
      assert blocks[k] in blocks;
    }
    if blocks != [] { BlockEntriesSame(ft, bs, data, data', blocks[1..]); }
  }

  // ---- new blocks ----

  /** The block of a directory that grew: one record over the whole block. */
  lemma GrownBlock(ft: bool, bs: nat, ino: nat, name: Bytes, t: nat)
    requires 1024 <= bs < 0x1_0000 && bs % 4 == 0
    requires 1 <= |name| <= 255 && t < 256 && 0 < ino < 0x1_0000_0000
    ensures var b := PutEntry(ft, Zeros(bs), 0, ino, bs, name, t);
            Tiles(ft, b, 0) && Entries(ft, b, 0) == [NewEntry(ft, name, ino, t)]
  {
    hide PutEntry, Live, GoodRec, RecLen;
    var b := PutEntry(ft, Zeros(bs), 0, ino, bs, name, t);
    PutEntryIs(ft, Zeros(bs), 0, ino, bs, name, t);
    TilesEnd(ft, b);
    TilesOne(ft, b, 0);
  }

  lemma TilesEnd(ft: bool, b: Bytes)
    ensures Tiles(ft, b, |b|) && Entries(ft, b, |b|) == []
  {}

  const DOT: Bytes := [0x2E]
  const DOTDOT: Bytes := [0x2E, 0x2E]

  function NewDirBlock(ft: bool, bs: nat, ino: nat, parent: nat, t: nat): (r: Bytes)
    requires 1024 <= bs && t < 256
    ensures |r| == bs
  {
    PutEntry(ft, PutEntry(ft, Zeros(bs), 0, ino, 12, DOT, t), 12, parent, bs - 12, DOTDOT, t)
  }

  lemma NewDirBlockIs(ft: bool, bs: nat, ino: nat, parent: nat, t: nat)
    requires 1024 <= bs < 0x1_0000 && bs % 4 == 0 && t < 256
    requires 0 < ino < 0x1_0000_0000 && 0 < parent < 0x1_0000_0000
    ensures var b := NewDirBlock(ft, bs, ino, parent, t);
            && Tiles(ft, b, 0)
            && Entries(ft, b, 0) == [NewEntry(ft, DOT, ino, t), NewEntry(ft, DOTDOT, parent, t)]
  {
    hide PutEntry, Live, GoodRec, RecLen, Tiles, Entries, SameBytes;
    var b1 := PutEntry(ft, Zeros(bs), 0, ino, 12, DOT, t);
    var b := PutEntry(ft, b1, 12, parent, bs - 12, DOTDOT, t);
    PutEntryIs(ft, Zeros(bs), 0, ino, 12, DOT, t);
    PutEntryIs(ft, b1, 12, parent, bs - 12, DOTDOT, t);
    SameUpTo(b1, b, 12);
    SameRec(ft, b1, b, 0);
    TilesEnd(ft, b);
    TilesOne(ft, b, 12);
    TilesOne(ft, b, 0);
  }

  /** It has room for any name. */
  lemma NewDirRoom(ft: bool, bs: nat, ino: nat, parent: nat, t: nat, name: Bytes)
    requires 1024 <= bs < 0x1_0000 && bs % 4 == 0 && t < 256 && |name| <= 255
    requires 0 < ino < 0x1_0000_0000 && 0 < parent < 0x1_0000_0000
    ensures HasRoom(ft, NewDirBlock(ft, bs, ino, parent, t), Align4(8 + |name|))
  {
    hide PutEntry, Live, GoodRec, RecLen, SameBytes, Align4, UsedLen, OnChain, Room;
    var b1 := PutEntry(ft, Zeros(bs), 0, ino, 12, DOT, t);
    var b := PutEntry(ft, b1, 12, parent, bs - 12, DOTDOT, t);
    PutEntryIs(ft, Zeros(bs), 0, ino, 12, DOT, t);
    PutEntryIs(ft, b1, 12, parent, bs - 12, DOTDOT, t);
    SameUpTo(b1, b, 12);
    SameRec(ft, b1, b, 0);
    NothingBefore(ft, b, 0);
    ChainStep(ft, b, 0, 0);
    LastRoom(ft, b, 12, bs - 12, NewEntry(ft, DOTDOT, parent, t), Align4(8 + |name|));
    assert OnChain(ft, b, 0, 12) && Room(ft, b, 12, Align4(8 + |name|));
  }

  /** A long record of a short name has room to spare. */
  lemma LastRoom(ft: bool, b: Bytes, p: nat, rec: nat, e: Entry, need: nat)
    requires GoodRec(ft, b, p) && RecLen(b, p) == rec && Live(ft, b, p) == [e] && |e.name| == 2 && need + 12 <= rec
    ensures Room(ft, b, p, need)
  {
    assert RecIno(b, p) != 0 && RecEntry(ft, b, p) == e;
    assert NameLen(ft, b, p) == 2;
  }

  lemma SameUpTo(b: Bytes, b': Bytes, p: nat)
    requires |b'| == |b| && forall i :: 0 <= i < p && i < |b| ==> b'[i] == b[i]
    ensures SameBytes(b, b', 0, p)
  {}
}
