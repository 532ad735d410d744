/** Who owns which block.  The bitmaps mark exactly the metadata, the blocks of
    the inodes in `live`, and the blocks `spare` that an operation holds in
    between (lib/ext2.beer:493-548). */
module Ext2Store {
  import opened Bytes
  import opened Seqs
  import opened Ext2Disk
  import opened Ext2Bitmap
  import opened Ext2Alloc
  import opened Ext2BlockMap
  import opened Ext2BuildMap
  import opened Ext2FileData

  predicate FastSymlink(inode: Inode) {
    inode.kind == Symlink && inode.sectors == 0
  }

  /** all-blocks: data and indirect blocks; holes are 0. */
  function AllBlocks(bs: nat, data: seq<Bytes>, inode: Inode): seq<nat>
    requires DataFit(bs, data) && |inode.iblock| == 60
  {
    if FastSymlink(inode) then []
    else FileBlocks(bs, data, inode) + MapIndirect(bs, data, Words(inode.iblock))
  }

  ghost predicate Fits(geo: Geometry, d: Disk)
    requires geo.Valid()
  {
    && Ready(geo, d)
    && |d.inode| == geo.inodes + 1
    && forall i :: 0 <= i < |d.inode| ==> |d.inode[i].iblock| == 60
  }

  function Blocks(geo: Geometry, d: Disk, i: nat): seq<nat>
    requires geo.Valid() && Fits(geo, d) && i <= geo.inodes
  {
    AllBlocks(geo.bs, d.data, d.inode[i])
  }

  /** The blocks of inode i, without its holes. */
  ghost function Own(geo: Geometry, d: Disk, i: nat): set<nat>
    requires geo.Valid() && Fits(geo, d) && i <= geo.inodes
  {
    ToSet(Filter(Blocks(geo, d, i), NotHole))
  }

  /** What an i_blocks field says of n blocks: 512-byte units, in 32 bits. */
  function Sectors(bs: nat, n: nat): nat { (n * (bs / 512)) % 0x1_0000_0000 }

  /** No block twice in one inode, none of them metadata, and i_blocks counts them. */
  ghost predicate OwnsWell(geo: Geometry, d: Disk, i: nat)
    requires geo.Valid() && Fits(geo, d)
  {
    && 1 <= i <= geo.inodes
    && NoDup(Filter(Blocks(geo, d, i), NotHole))
    && (forall b :: b in Own(geo, d, i) ==> geo.DataBlock(b))
    && d.inode[i].sectors == Sectors(geo.bs, |Own(geo, d, i)|)
  }

  ghost predicate Numbers(geo: Geometry, live: set<nat>) {
    forall i :: i in live ==> 1 <= i <= geo.inodes
  }

  ghost predicate Owned(geo: Geometry, d: Disk, live: set<nat>, b: nat)
    requires geo.Valid() && Fits(geo, d) && Numbers(geo, live)
  {
    exists i :: i in live && b in Own(geo, d, i)
  }

  ghost predicate Store(geo: Geometry, d: Disk, live: set<nat>, spare: set<nat>)
    requires geo.Valid()
  {
    && Fits(geo, d) && Numbers(geo, live)
    && (forall i :: i in live ==> OwnsWell(geo, d, i))
    && (forall i, j :: i in live && j in live && i != j ==> Own(geo, d, i) !! Own(geo, d, j))
    && (forall i :: i in live ==> Own(geo, d, i) !! spare)
    && (forall b :: b in spare ==> geo.DataBlock(b))
    && (forall b :: b in Used(geo, d.bbm) <==>
          b in geo.meta || b in spare || Owned(geo, d, live, b))
  }

  // ---- what an inode's contents depend on ----

  /** Inode i and the blocks it owns are as before. */
  ghost predicate Same(geo: Geometry, d: Disk, d': Disk, i: nat)
    requires geo.Valid() && Fits(geo, d)
  {
    && i <= geo.inodes && |d'.inode| == |d.inode| && |d'.data| == |d.data|
    && d'.inode[i] == d.inode[i]
    && forall b :: b in Own(geo, d, i) && b < |d.data| ==> d'.data[b] == d.data[b]
  }

  lemma BlocksSame(bs: nat, data: seq<Bytes>, data': seq<Bytes>, inode: Inode)
    requires DataFit(bs, data) && DataFit(bs, data') && |data'| == |data| && |inode.iblock| == 60
    requires forall b: nat :: b in AllBlocks(bs, data, inode) && 0 < b < |data| ==> data'[b] == data[b]
    ensures AllBlocks(bs, data', inode) == AllBlocks(bs, data, inode)
    ensures !FastSymlink(inode) ==> FileBlocks(bs, data', inode) == FileBlocks(bs, data, inode)
    ensures !FastSymlink(inode) ==>
      BlocksBytes(bs, data', FileBlocks(bs, data', inode)) == BlocksBytes(bs, data, FileBlocks(bs, data, inode))
  {
    hide MapBlocks, MapIndirect, BlocksBytes, Words, CeilDiv;
    if !FastSymlink(inode) {
      var words := Words(inode.iblock);
      IndirectNotHoles(bs, data, words);
      forall b | b in MapIndirect(bs, data, words) && b < |data| ensures data'[b] == data[b] {
        assert b in AllBlocks(bs, data, inode);
      }
      forall b | b in FileBlocks(bs, data, inode) && 0 < b < |data| ensures data'[b] == data[b] {
        assert b in AllBlocks(bs, data, inode);
      }
      MapSame(bs, data, data', words, CeilDiv(inode.size, bs));
      BlocksBytesSame(bs, data, data', FileBlocks(bs, data, inode));
    }
  }

  lemma IndirectNotHoles(bs: nat, data: seq<Bytes>, words: seq<nat>)
    requires DataFit(bs, data) && |words| == 15
    ensures forall b :: b in MapIndirect(bs, data, words) ==> b != 0
  {
    hide IndirectUnder;
    TreeNotHoles(bs, data, words[DIRECT], 1);
    TreeNotHoles(bs, data, words[DIRECT + 1], 2);
    TreeNotHoles(bs, data, words[DIRECT + 2], 3);
  }

  lemma {:induction false} TreeNotHoles(bs: nat, data: seq<Bytes>, blk: nat, depth: nat)
    requires DataFit(bs, data)
    ensures forall b :: b in IndirectBlocks(bs, data, blk, depth) ==> b != 0
    decreases depth, 1, 0
  {
    hide Pointers;
    if blk != 0 && depth > 1 { TreesNotHoles(bs, data, Pointers(bs, data, blk), depth - 1, 0); }
  }

  lemma {:induction false} TreesNotHoles(bs: nat, data: seq<Bytes>, ptrs: seq<nat>, depth: nat, i: nat)
    requires DataFit(bs, data) && i <= |ptrs|
    ensures forall b :: b in IndirectUnder(bs, data, ptrs, depth, i) ==> b != 0
    decreases depth, 2, |ptrs| - i
  {
    if i < |ptrs| {
      TreeNotHoles(bs, data, ptrs[i], depth);
      TreesNotHoles(bs, data, ptrs, depth, i + 1);
    }
  }

  lemma SameBlocks(geo: Geometry, d: Disk, d': Disk, i: nat)
    requires geo.Valid() && Fits(geo, d) && Fits(geo, d') && Same(geo, d, d', i)
    ensures Blocks(geo, d', i) == Blocks(geo, d, i) && Own(geo, d', i) == Own(geo, d, i) && d'.inode[i] == d.inode[i]
  {
    hide Ready, AllBlocks, Geometry.Valid;
    ReadyData(geo, d);
    ReadyData(geo, d');
    forall b: nat | b in Blocks(geo, d, i) && 0 < b < |d.data| ensures d'.data[b] == d.data[b] {
      assert NotHole(b);
      assert b in Own(geo, d, i);
    }
    BlocksSame(geo.bs, d.data, d'.data, d.inode[i]);
  }

  lemma ReadyData(geo: Geometry, d: Disk)
    requires geo.Valid() && Ready(geo, d)
    ensures DataFit(geo.bs, d.data) && |d.data| == geo.blocks
    ensures BitmapsFit(geo, d.bbm) && BlockCounts(geo, d) && MetaUsed(geo, d.bbm)
  {
    hide FreeGroup, SumFree, Used;
  }

  // ---- steps that keep the books ----

  lemma OwnedIsUsed(geo: Geometry, d: Disk, live: set<nat>, spare: set<nat>, i: nat, b: nat)
    requires geo.Valid() && Store(geo, d, live, spare) && i in live && b in Own(geo, d, i)
    ensures BitmapsFit(geo, d.bbm) && b in Used(geo, d.bbm) && b !in spare && geo.DataBlock(b)
  {
    hide Blocks, UsedBit, FreeGroup, SumFree;
  }

  lemma OwnersSame(geo: Geometry, d: Disk, d': Disk, live: set<nat>)
    requires geo.Valid() && Fits(geo, d) && Fits(geo, d') && Numbers(geo, live)
    requires forall i :: i in live ==> OwnsWell(geo, d, i) && Same(geo, d, d', i)
    ensures forall i :: i in live ==> OwnsWell(geo, d', i) && Own(geo, d', i) == Own(geo, d, i)
    ensures forall b :: Owned(geo, d', live, b) == Owned(geo, d, live, b)
  {
    hide Blocks, Ready, Same, Geometry.Valid;
    forall i | i in live ensures OwnsWell(geo, d', i) && Own(geo, d', i) == Own(geo, d, i) {
      SameBlocks(geo, d, d', i);
    }
  }

  /** Only the owners and the bitmaps matter. */
  lemma StoreFrom(geo: Geometry, d: Disk, d': Disk, live: set<nat>, spare: set<nat>, spare': set<nat>)
    requires geo.Valid() && Store(geo, d, live, spare) && Fits(geo, d')
    requires forall i :: i in live ==> Same(geo, d, d', i)
    requires BitmapsFit(geo, d.bbm) && BitmapsFit(geo, d'.bbm)
    requires forall b :: b in spare' ==> geo.DataBlock(b) && (b in spare || b !in Used(geo, d.bbm))
    requires Used(geo, d'.bbm) == Used(geo, d.bbm) - spare + spare'
    ensures Store(geo, d', live, spare')
  {
    hide Own, Fits, BitmapsFit, Used, Same, Geometry.Valid;
    OwnersSame(geo, d, d', live);
    forall i, b | i in live && b in Own(geo, d', i) ensures b !in spare' && b !in spare {
      OwnedIsUsed(geo, d, live, spare, i, b);
    }
    MetaNotSpare(geo, d, live, spare);
  }

  lemma MetaNotSpare(geo: Geometry, d: Disk, live: set<nat>, spare: set<nat>)
    requires geo.Valid() && Store(geo, d, live, spare)
    ensures forall b :: b in spare ==> b !in geo.meta
    ensures forall b, i :: i in live && b in Own(geo, d, i) ==> b !in geo.meta
  {
    hide Own, Fits, Used, Geometry.Valid;
  }

  /** Inodes of s and their blocks are as before. */
  ghost predicate Kept(geo: Geometry, d: Disk, d': Disk, s: set<nat>)
    requires geo.Valid() && Fits(geo, d)
  {
    forall i :: i in s ==> Same(geo, d, d', i)
  }

  lemma GrewIs(geo: Geometry, d: Disk, d': Disk, s: set<nat>)
    requires geo.Valid() && Grew(geo, d, d', s)
    ensures BitmapsFit(geo, d.bbm) && BitmapsFit(geo, d'.bbm) && Ready(geo, d')
    ensures Used(geo, d'.bbm) == Used(geo, d.bbm) + s
    ensures forall b :: b in s ==> geo.DataBlock(b) && b !in Used(geo, d.bbm)
    ensures d'.inode == d.inode && d'.ibm == d.ibm && d'.sbFreeInodes == d.sbFreeInodes
    ensures |d'.data| == |d.data| && forall b :: 0 <= b < |d.data| && b !in s ==> d'.data[b] == d.data[b]
  {
    hide Bit, FreeGroup, SumFree, UsedBit, Geometry.Valid;
  }

  lemma GrowStep(geo: Geometry, d: Disk, d': Disk, live: set<nat>, spare: set<nat>, s: set<nat>)
    requires geo.Valid() && Store(geo, d, live, spare) && Grew(geo, d, d', s)
    ensures Store(geo, d', live, spare + s) && Fits(geo, d) && Kept(geo, d, d', live)
  {
    hide Own, Used, Geometry.Valid, BitmapsFit, Grew, Ready;
    GrewIs(geo, d, d', s);
    SpareUsed(geo, d, live, spare);
    forall i | i in live ensures Same(geo, d, d', i) {
      forall b | b in Own(geo, d, i) ensures b !in s { OwnedIsUsed(geo, d, live, spare, i, b); }
    }
    StoreFrom(geo, d, d', live, spare, spare + s);
  }

  lemma SpareUsed(geo: Geometry, d: Disk, live: set<nat>, spare: set<nat>)
    requires geo.Valid() && Store(geo, d, live, spare)
    ensures BitmapsFit(geo, d.bbm) && spare <= Used(geo, d.bbm)
  {
    hide Own, UsedBit, FreeGroup, SumFree;
  }

  /** Writing blocks that the operation holds changes no file. */
  lemma WriteStep(geo: Geometry, d: Disk, data: seq<Bytes>, live: set<nat>, spare: set<nat>)
    requires geo.Valid() && Store(geo, d, live, spare)
    requires |data| == |d.data| && DataFit(geo.bs, data)
    requires forall b :: 0 <= b < |data| && b !in spare ==> data[b] == d.data[b]
    ensures Store(geo, d.(data := data), live, spare) && Fits(geo, d) && Kept(geo, d, d.(data := data), live)
  {
    hide Own, UsedBit, Geometry.Valid, BlockCounts;
    var d' := d.(data := data);
    SameGroups(geo, d, d');
    SpareUsed(geo, d, live, spare);
    forall i | i in live ensures Same(geo, d, d', i) {
      forall b | b in Own(geo, d, i) ensures b !in spare { OwnedIsUsed(geo, d, live, spare, i, b); }
    }
    StoreFrom(geo, d, d', live, spare, spare);
  }

  lemma FreeStep(geo: Geometry, d: Disk, d': Disk, live: set<nat>, spare: set<nat>, s: set<nat>)
    requires geo.Valid() && Store(geo, d, live, spare) && s <= spare
    requires BlockCounts(geo, d') && OnlyBlockBits(d, d')
    requires BitmapsFit(geo, d.bbm) && BitmapsFit(geo, d'.bbm) && Used(geo, d'.bbm) == Used(geo, d.bbm) - s
    ensures Store(geo, d', live, spare - s) && Fits(geo, d) && Kept(geo, d, d', live)
  {
    hide Own, Used, Geometry.Valid, BlockCounts;
    SpareUsed(geo, d, live, spare);
    MetaNotSpare(geo, d, live, spare);
    StoreFrom(geo, d, d', live, spare, spare - s);
  }

  /** An operation takes inode i's blocks in hand... */
  lemma Detach(geo: Geometry, d: Disk, live: set<nat>, spare: set<nat>, i: nat)
    requires geo.Valid() && Store(geo, d, live, spare) && i in live
    ensures Store(geo, d, live - {i}, spare + Own(geo, d, i)) && Own(geo, d, i) !! spare
  {
    hide Own, Used, Geometry.Valid, Fits, BitmapsFit, OwnsWell;
    OwnsApart(geo, d, live, spare, i);
  }

  lemma OwnsApart(geo: Geometry, d: Disk, live: set<nat>, spare: set<nat>, i: nat)
    requires geo.Valid() && Store(geo, d, live, spare) && i in live
    ensures Fits(geo, d) && 1 <= i <= geo.inodes && forall b :: b in Own(geo, d, i) ==> geo.DataBlock(b)
  {
    hide Own, Used, Geometry.Valid, Fits, BitmapsFit, Sectors;
  }

  /** ... and gives the inode the blocks it now owns. */
  lemma Attach(geo: Geometry, d: Disk, live: set<nat>, spare: set<nat>, i: nat)
    requires geo.Valid() && Store(geo, d, live, spare) && i !in live
    requires OwnsWell(geo, d, i) && Own(geo, d, i) <= spare
    ensures Store(geo, d, live + {i}, spare - Own(geo, d, i))
  {
    hide Own, Used, Geometry.Valid, Fits, BitmapsFit, Blocks;
    forall b ensures Owned(geo, d, live + {i}, b) <==> Owned(geo, d, live, b) || b in Own(geo, d, i) {
      if b in Own(geo, d, i) { assert i in live + {i}; }
    }
  }

  /** Rewriting the record of an inode that owns nothing. */
  lemma InodeStep(geo: Geometry, d: Disk, live: set<nat>, spare: set<nat>, i: nat, v: Inode)
    requires geo.Valid() && Store(geo, d, live, spare) && i !in live && i < |d.inode| && |v.iblock| == 60
    ensures var d' := d.(inode := d.inode[i := v]);
            Store(geo, d', live, spare) && Fits(geo, d) && Fits(geo, d') && Kept(geo, d, d', live)
  {
    hide Own, UsedBit, Geometry.Valid, FreeGroup, SumFree;
    var d' := d.(inode := d.inode[i := v]);
    SpareUsed(geo, d, live, spare);
    StoreFrom(geo, d, d', live, spare, spare);
  }

  /** A record that differs only in its link count. */
  ghost predicate OnlyLinks(v: Inode, v': Inode) { v' == v.(links := v'.links) }

  lemma LinksStep(geo: Geometry, d: Disk, live: set<nat>, spare: set<nat>, i: nat, v: Inode)
    requires geo.Valid() && Store(geo, d, live, spare) && i < |d.inode| && OnlyLinks(d.inode[i], v)
    ensures var d' := d.(inode := d.inode[i := v]);
            && Store(geo, d', live, spare) && Fits(geo, d) && Fits(geo, d') && Kept(geo, d, d', live - {i})
            && i <= geo.inodes && Blocks(geo, d', i) == Blocks(geo, d, i)
  {
    hide UsedBit, Geometry.Valid, FreeGroup, SumFree, AllBlocks, Store;
    StoreFits(geo, d, live, spare);
    var d' := d.(inode := d.inode[i := v]);
    LinksBlocks(geo.bs, d.data, d.inode[i], v);
    assert Fits(geo, d');
    if i in live {
      Detach(geo, d, live, spare, i);
      InodeStep(geo, d, live - {i}, spare + Own(geo, d, i), i, v);
      OwnsWellSame(geo, d, d', live, spare, i);
      Attach(geo, d', live - {i}, spare + Own(geo, d, i), i);
      assert live - {i} + {i} == live;
      assert spare + Own(geo, d, i) - Own(geo, d, i) == spare;
    } else {
      InodeStep(geo, d, live, spare, i, v);
    }
  }

  lemma StoreFits(geo: Geometry, d: Disk, live: set<nat>, spare: set<nat>)
    requires geo.Valid() && Store(geo, d, live, spare)
    ensures Fits(geo, d) && Numbers(geo, live) && |d.inode| == geo.inodes + 1 && DataFit(geo.bs, d.data)
    ensures Ready(geo, d) && BlockCounts(geo, d) && BitmapsFit(geo, d.bbm) && |d.data| == geo.blocks
    ensures forall i :: 0 <= i < |d.inode| ==> |d.inode[i].iblock| == 60
  {
    hide Own, Used, FreeGroup, SumFree;
  }

  lemma LinksBlocks(bs: nat, data: seq<Bytes>, v: Inode, v': Inode)
    requires DataFit(bs, data) && |v.iblock| == 60 && OnlyLinks(v, v')
    ensures AllBlocks(bs, data, v') == AllBlocks(bs, data, v)
  {
    hide MapBlocks, MapIndirect;
  }

  lemma OwnsWellSame(geo: Geometry, d: Disk, d': Disk, live: set<nat>, spare: set<nat>, i: nat)
    requires geo.Valid() && Store(geo, d, live, spare) && i in live && Fits(geo, d')
    requires Blocks(geo, d', i) == Blocks(geo, d, i) && i < |d.inode| && d'.inode[i].sectors == d.inode[i].sectors
    ensures OwnsWell(geo, d', i) && Own(geo, d', i) == Own(geo, d, i)
  {
    hide Blocks, Used, Fits, Geometry.Valid;
  }

  /** Inode bitmap changes touch no block. */
  lemma InodeBitsStep(geo: Geometry, d: Disk, d': Disk, live: set<nat>, spare: set<nat>)
    requires geo.Valid() && Store(geo, d, live, spare)
    requires BlockCounts(geo, d') && d' == d.(ibm := d'.ibm, gd := d'.gd, sbFreeInodes := d'.sbFreeInodes)
    ensures Store(geo, d', live, spare) && Fits(geo, d) && Fits(geo, d') && Kept(geo, d, d', live)
  {
    hide Own, UsedBit, Geometry.Valid, FreeGroup, SumFree;
    SpareUsed(geo, d, live, spare);
    StoreFrom(geo, d, d', live, spare, spare);
  }

  lemma KeptAgain(geo: Geometry, d: Disk, d1: Disk, d2: Disk, s: set<nat>)
    requires geo.Valid() && Fits(geo, d) && Fits(geo, d1) && Kept(geo, d, d1, s) && Kept(geo, d1, d2, s)
    requires Fits(geo, d2)
    ensures Kept(geo, d, d2, s)
  {
    hide Own, Fits, Geometry.Valid;
    forall i | i in s ensures Same(geo, d, d2, i) { SameBlocks(geo, d, d1, i); }
  }

  lemma KeptNow(geo: Geometry, d: Disk, live: set<nat>, spare: set<nat>)
    requires geo.Valid() && Store(geo, d, live, spare)
    ensures Fits(geo, d) && Kept(geo, d, d, live)
  {
    hide Own, Fits, Used;
  }

  lemma KeptFewer(geo: Geometry, d: Disk, d': Disk, s: set<nat>, s': set<nat>)
    requires geo.Valid() && Fits(geo, d) && Kept(geo, d, d', s) && s' <= s
    ensures Kept(geo, d, d', s')
  {
    hide Fits, Same;
  }
}
