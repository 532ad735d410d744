/** Replacing a file's contents: the second half of write-file!
    (lib/ext2.beer:715-729). */
module Ext2Replace {
  import opened Bytes
  import opened Seqs
  import opened Ext2Disk
  import opened Ext2Alloc
  import opened Ext2Space
  import opened Ext2InodeAlloc
  import opened Ext2BlockMap
  import opened Ext2BuildMap
  import opened Ext2FileData
  import opened Ext2Store
  import opened Ext2Dir
  import opened Ext2Names
  import opened Ext2Lookup
  import opened Ext2Books
  import opened Ext2Views
  import opened Ext2Create
  import opened Ext2Make
  import opened Ext2Tree

  /** The old blocks can be freed. */
  lemma OldFreeable(geo: Geometry, d: Disk, live: set<nat>, i: nat)
    requires geo.Valid() && Store(geo, d, live, {}) && i in live
    ensures Fits(geo, d) && 1 <= i <= geo.inodes && BlockCounts(geo, d) && BitmapsFit(geo, d.bbm)
    ensures Freeable(geo, d.bbm, Blocks(geo, d, i))
    ensures Own(geo, d, i) == ToSet(Filter(Blocks(geo, d, i), NotHole))
  {
    hide Used, Blocks, Ready, InodeBooks, Namespace, Filter, Geometry.Valid;
    StoreFits(geo, d, live, {});
    OwnsWellIs(geo, d, live, {}, i);
    forall b | b in Blocks(geo, d, i) && NotHole(b) ensures b in Used(geo, d.bbm) {
      assert b in Own(geo, d, i);
      OwnedIsUsed(geo, d, live, {}, i, b);
    }
  }

  /** Inode i's blocks are free again, and `hand` is in hand instead. */
  ghost predicate Holding(geo: Geometry, d0: Disk, d: Disk, live: set<nat>, i: nat, hand: set<nat>)
    requires geo.Valid()
  {
    && Settled(geo, d0, live) && i in live
    && Store(geo, d, live - {i}, hand)
    && Fits(geo, d) && Kept(geo, d0, d, live - {i})
    && SameInodeBooks(d0, d) && d.inode == d0.inode
  }

  lemma HoldingNone(geo: Geometry, d0: Disk, d1: Disk, live: set<nat>, i: nat)
    requires geo.Valid() && Settled(geo, d0, live) && i in live && Fits(geo, d0) && i <= geo.inodes
    requires BlockCounts(geo, d1) && OnlyBlockBits(d0, d1)
    requires BitmapsFit(geo, d0.bbm) && BitmapsFit(geo, d1.bbm) && Used(geo, d1.bbm) == Used(geo, d0.bbm) - Own(geo, d0, i)
    ensures Holding(geo, d0, d1, live, i, {})
  {
    hide Own, Used, Fits, InodeBooks, Namespace, Store, BlockCounts, Kept, BitmapsFit;
    Detach(geo, d0, live, {}, i);
    assert {} + Own(geo, d0, i) == Own(geo, d0, i);
    FreeStep(geo, d0, d1, live - {i}, Own(geo, d0, i), Own(geo, d0, i));
    assert Own(geo, d0, i) - Own(geo, d0, i) == {};
    StoreFits(geo, d1, live - {i}, {});
  }

  lemma HoldingMore(geo: Geometry, d0: Disk, d1: Disk, d2: Disk, live: set<nat>, i: nat, hand: set<nat>, s: set<nat>)
    requires geo.Valid() && Holding(geo, d0, d1, live, i, hand) && Grew(geo, d1, d2, s)
    ensures Holding(geo, d0, d2, live, i, hand + s)
  {
    hide Own, Used, Fits, InodeBooks, Namespace, Store, Kept, Grew;
    GrowStep(geo, d1, d2, live - {i}, hand, s);
    StoreFits(geo, d2, live - {i}, hand + s);
    KeptAgain(geo, d0, d1, d2, live - {i});
    BooksAfterGrow(geo, d1, d2, s);
    GrewIs(geo, d1, d2, s);
  }

  lemma HoldingReady(geo: Geometry, d0: Disk, d: Disk, live: set<nat>, i: nat, hand: set<nat>)
    requires geo.Valid() && Holding(geo, d0, d, live, i, hand)
    ensures Ready(geo, d) && DataFit(geo.bs, d.data) && |d.data| == geo.blocks && 1 <= i <= geo.inodes
    ensures i < |d.inode| && |d.inode[i].iblock| == 60 && d.inode == d0.inode
    ensures forall b :: b in hand ==> geo.DataBlock(b) && b in Used(geo, d.bbm)
    ensures BitmapsFit(geo, d.bbm)
    ensures Settled(geo, d0, live) && i in live
  {
    hide Own, Used, Fits, InodeBooks, Namespace, Kept, Owned, OwnsWell;
    StoreFits(geo, d, live - {i}, hand);
    StoreFits(geo, d0, live, {});
    SpareUsed(geo, d, live - {i}, hand);
  }

  lemma HoldingWritten(geo: Geometry, d0: Disk, d2: Disk, live: set<nat>, i: nat, blocks: seq<nat>, data: seq<Bytes>, buf: Bytes)
    requires geo.Valid() && Holding(geo, d0, d2, live, i, ToSet(blocks))
    requires DataFit(geo.bs, d2.data) && WrittenTo(geo.bs, d2.data, data, blocks, buf, |blocks|)
    ensures DataFit(geo.bs, data) && Holding(geo, d0, d2.(data := data), live, i, ToSet(blocks))
  {
    hide Own, Used, Fits, InodeBooks, Namespace, Store, Kept, Piece;
    WrittenFits(geo.bs, d2.data, data, blocks, buf);
    assert blocks[..|blocks|] == blocks;
    WriteStep(geo, d2, data, live - {i}, ToSet(blocks));
    StoreFits(geo, d2.(data := data), live - {i}, ToSet(blocks));
    KeptAgain(geo, d0, d2, d2.(data := data), live - {i});
  }

  /** After the map was built: the blocks still hold the bytes. */
  lemma StillReads(bs: nat, data: seq<Bytes>, data': seq<Bytes>, blocks: seq<nat>, buf: Bytes)
    requires DataFit(bs, data) && DataFit(bs, data') && |data'| == |data|
    requires forall b :: b in blocks && b < |data| ==> data'[b] == data[b]
    requires |buf| <= |BlocksBytes(bs, data, blocks)| && BlocksBytes(bs, data, blocks)[..|buf|] == buf
    ensures |buf| <= |BlocksBytes(bs, data', blocks)| && BlocksBytes(bs, data', blocks)[..|buf|] == buf
  {
    hide BlocksBytes;
    BlocksBytesSame(bs, data, data', blocks);
  }

  lemma NewMapOwns(geo: Geometry, d0: Disk, d3: Disk, d4: Disk, live: set<nat>, i: nat, blocks: seq<nat>, words: seq<nat>,
                   ind: seq<nat>, v: Inode)
    requires geo.Valid() && Holding(geo, d0, d3, live, i, ToSet(blocks)) && NoDup(blocks)
    requires forall b :: b in blocks ==> b != 0
    requires MapBuilt(geo, d3, d4, blocks, words, ind)
    requires |v.iblock| == 60 && Words(v.iblock) == words && CeilDiv(v.size, geo.bs) == |blocks| && v.kind == File
    requires i < |d4.inode| && v.sectors == Sectors(geo.bs, |blocks| + |ind|)
    ensures var d5 := d4.(inode := d4.inode[i := v]);
            && Store(geo, d5, live, {}) && Fits(geo, d5) && Fits(geo, d0) && Kept(geo, d0, d5, live - {i})
            && i <= geo.inodes && Fb(geo, d5, i) == blocks && |Own(geo, d5, i)| == |blocks| + |ind|
            && SameInodeBooks(d0, d5) && d4.inode == d0.inode
            && |d4.data| == |d3.data| && DataFit(geo.bs, d4.data)
            && (forall b :: b in blocks && b < |d3.data| ==> d4.data[b] == d3.data[b])
  {
    hide Own, Used, Fits, InodeBooks, Namespace, Store, Kept, Grew, Fb, Words, CeilDiv, MapBlocks, MapIndirect, OwnsWell, Ready,
         BitmapsFit, Sectors;
    var d5 := d4.(inode := d4.inode[i := v]);
    HoldingReady(geo, d0, d3, live, i, ToSet(blocks));
    GrewIs(geo, d3, d4, ToSet(ind));
    HoldingMore(geo, d0, d3, d4, live, i, ToSet(blocks), ToSet(ind));
    forall b | b in blocks ensures b !in ind && geo.DataBlock(b) { assert b in ToSet(blocks); }
    RemappedOwns(geo, d3, d4, i, blocks, words, ind, v);
    var hand := ToSet(blocks) + ToSet(ind);
    TwoPartsSize(blocks, ind);
    InodeStep(geo, d4, live - {i}, hand, i, v);
    KeptAgain(geo, d0, d4, d5, live - {i});
    Attach(geo, d5, live - {i}, hand, i);
    assert live - {i} + {i} == live && hand - hand == {};
  }

  /** Replacing one file's record and contents changes only its text. */
  lemma Replaced(geo: Geometry, d0: Disk, d5: Disk, live: set<nat>, i: nat, buf: Bytes)
    requires geo.Valid() && Settled(geo, d0, live) && i in live && Fits(geo, d0) && Fits(geo, d5)
    requires Store(geo, d5, live, {}) && Kept(geo, d0, d5, live - {i}) && SameInodeBooks(d0, d5)
    requires |d5.inode| == |d0.inode| && i < |d0.inode| && i <= geo.inodes
    requires forall j :: 0 <= j < |d0.inode| ==> d5.inode[j].kind == d0.inode[j].kind && d5.inode[j].links == d0.inode[j].links
    requires d0.inode[i].kind == File && Contents(geo, d5, i) == Ok(buf)
    ensures Numbers(geo, live) && DirsOK(geo, d0, live)
    ensures Became(geo, d0, d5, live, TreeOf(geo, d0, live), live - {i})
    ensures TextOf(geo, d5, i) == Ok(buf)
  {
    hide Own, Used, Fits, InodeBooks, Namespace, Store, Kept, TreeOf, TreeOK, ShowsNode, SameView, SameText, Contents, DirSet, SameInodeBooks;
    SettledParts(geo, d0, live);
    var t := TreeOf(geo, d0, live);
    KeptViews(geo, d0, d5, live - {i});
    forall j | j in live ensures ShowsNode(geo, d5, t, j) && (j != i ==> SameText(geo, d0, d5, j)) {
      ViewsOfTree(geo, d0, live, j);
      if j != i { SameViewNode(geo, d0, d5, t, j); } else { FileNode(geo, d0, d5, live, i); }
    }
    DirSetKinds(d0, d5, live);
    InodeBooksSame(geo, d0, d5, live, DirSet(d0, live));
    SettledFrom(geo, d5, live, t);
  }

  lemma DirSetKinds(d: Disk, d': Disk, live: set<nat>)
    requires |d'.inode| == |d.inode| && forall j :: 0 <= j < |d.inode| ==> d'.inode[j].kind == d.inode[j].kind
    ensures DirSet(d', live) == DirSet(d, live)
  {}

  lemma FileNode(geo: Geometry, d: Disk, d': Disk, live: set<nat>, i: nat)
    requires geo.Valid() && Fits(geo, d) && Fits(geo, d') && Numbers(geo, live) && DirsOK(geo, d, live) && i in live
    requires i < |d.inode| && i < |d'.inode| && i <= geo.inodes && d.inode[i].kind == File && d'.inode[i].kind == File
    requires d'.inode[i].links == d.inode[i].links
    ensures ShowsNode(geo, d', TreeOf(geo, d, live), i)
  {
    hide Fits, TreeOf, Contents, LinkTarget;
    TreeAt(geo, d, live, i);
  }

  lemma NewRecord(geo: Geometry, v0: Inode, words: seq<nat>, n: nat, size: nat)
    requires geo.Valid() && |v0.iblock| == 60 && |words| == 15 && (forall k :: 0 <= k < 15 ==> words[k] < 0x1_0000_0000)
    requires size < 0x1_0000_0000
    ensures var v := Remapped(geo.bs, v0, words, size, n);
            && Words(v.iblock) == words && v.size == size && v.kind == v0.kind && v.links == v0.links
            && v.sectors == Sectors(geo.bs, n)
  {
    hide Words, PutWords;
    RemappedWords(v0, words);
  }

  lemma ContentsNow(geo: Geometry, d: Disk, i: nat, blocks: seq<nat>, buf: Bytes)
    requires geo.Valid() && Fits(geo, d) && i <= geo.inodes && i < |d.inode| && d.inode[i].size == |buf|
    requires Fb(geo, d, i) == blocks && DataFit(geo.bs, d.data)
    requires |buf| <= |BlocksBytes(geo.bs, d.data, blocks)| && BlocksBytes(geo.bs, d.data, blocks)[..|buf|] == buf
    ensures Contents(geo, d, i) == Ok(buf)
  {
    hide BlocksBytes, Fb, Fits;
  }

  /** Everything write-file! has done when its inode record is written. */
  lemma ReplaceDone(geo: Geometry, d0: Disk, d2: Disk, d3: Disk, d4: Disk, live: set<nat>, i: nat, blocks: seq<nat>, buf: Bytes,
                    words: seq<nat>, ind: seq<nat>)
    requires geo.Valid() && Holding(geo, d0, d2, live, i, ToSet(blocks)) && NoDup(blocks)
    requires forall k :: 0 <= k < |blocks| ==> 0 < blocks[k] < |d2.data|
    requires |blocks| == CeilDiv(|buf|, geo.bs) && |buf| < 0x1_0000_0000
    requires DataFit(geo.bs, d2.data) && WrittenTo(geo.bs, d2.data, d3.data, blocks, buf, |blocks|) && d3 == d2.(data := d3.data)
    requires MapBuilt(geo, d3, d4, blocks, words, ind)
    requires i < |d0.inode| && i < |d4.inode| && |d4.inode[i].iblock| == 60 && d0.inode[i].kind == File && |words| == 15
    ensures Fits(geo, d0) && Numbers(geo, live) && DirsOK(geo, d0, live)
    ensures var d5 := d4.(inode := d4.inode[i := Remapped(geo.bs, d4.inode[i], words, |buf|, |blocks| + |ind|)]);
            && Became(geo, d0, d5, live, TreeOf(geo, d0, live), live - {i})
            && Fits(geo, d5) && i <= geo.inodes && TextOf(geo, d5, i) == Ok(buf) && |Own(geo, d5, i)| == |blocks| + |ind|
  {
    hide Own, Used, Fits, InodeBooks, Namespace, Store, Kept, Grew, Fb, Words, CeilDiv, MapBlocks, MapIndirect, Ready, BitmapsFit,
         BlocksBytes, WrittenTo, Became, TreeOf, TextOf, Numbers, DirsOK, SameInodeBooks, Settled, Remapped, Contents;
    var bs := geo.bs;
    HoldingReady(geo, d0, d2, live, i, ToSet(blocks));
    HoldingWritten(geo, d0, d2, live, i, blocks, d3.data, buf);
    NewRecord(geo, d4.inode[i], words, |blocks| + |ind|, |buf|);
    var v := Remapped(bs, d4.inode[i], words, |buf|, |blocks| + |ind|);
    MapRecord(geo, d0, d3, d4, live, i, blocks, words, ind);
    NewMapOwns(geo, d0, d3, d4, live, i, blocks, words, ind, v);
    WriteThenRead(bs, d2.data, d3.data, blocks, buf);
    StillReads(bs, d3.data, d4.data, blocks, buf);
    var d5 := d4.(inode := d4.inode[i := v]);
    ContentsNow(geo, d5, i, blocks, buf);
    Replaced(geo, d0, d5, live, i, buf);
  }

  lemma MapRecord(geo: Geometry, d0: Disk, d3: Disk, d4: Disk, live: set<nat>, i: nat, blocks: seq<nat>, words: seq<nat>, ind: seq<nat>)
    requires geo.Valid() && Holding(geo, d0, d3, live, i, ToSet(blocks)) && MapBuilt(geo, d3, d4, blocks, words, ind)
    ensures d4.inode == d0.inode
  {
    hide Used, Fits, InodeBooks, Namespace, Store, Kept, Grew, Settled;
    GrewIs(geo, d3, d4, ToSet(ind));
  }

  lemma TakenBlocks(geo: Geometry, d0: Disk, d1: Disk, d2: Disk, live: set<nat>, i: nat, blocks: seq<nat>)
    requires geo.Valid() && Holding(geo, d0, d1, live, i, {}) && Grew(geo, d1, d2, ToSet(blocks))
    ensures Holding(geo, d0, d2, live, i, ToSet(blocks))
    ensures DataFit(geo.bs, d2.data) && BlockNumbers(geo, blocks)
    ensures forall k :: 0 <= k < |blocks| ==> 0 < blocks[k] < |d2.data|
  {
    hide Used, Fits, InodeBooks, Namespace, Store, Kept, Grew, Settled, Holding;
    HoldingMore(geo, d0, d1, d2, live, i, {}, ToSet(blocks));
    assert {} + ToSet(blocks) == ToSet(blocks);
    GrewNumbers(geo, d1, d2, ToSet(blocks), blocks);
    GrewFits(geo, d1, d2, ToSet(blocks));
  }

  /** The bytes are on new blocks that are in hand. */
  ghost predicate Placed(geo: Geometry, d0: Disk, d2: Disk, d3: Disk, live: set<nat>, i: nat, blocks: seq<nat>, buf: Bytes)
    requires geo.Valid()
  {
    && Holding(geo, d0, d2, live, i, ToSet(blocks)) && NoDup(blocks)
    && Holding(geo, d0, d3, live, i, ToSet(blocks)) && BlockNumbers(geo, blocks)
    && (forall k :: 0 <= k < |blocks| ==> 0 < blocks[k] < |d2.data|)
    && |blocks| == CeilDiv(|buf|, geo.bs)
    && DataFit(geo.bs, d2.data) && WrittenTo(geo.bs, d2.data, d3.data, blocks, buf, |blocks|) && d3 == d2.(data := d3.data)
  }

  /** The disk as it was, but inode i's blocks are marked free; its record still maps
      them. */
  ghost predicate Emptied(geo: Geometry, d: Disk, d': Disk, i: nat)
    requires geo.Valid()
  {
    && Fits(geo, d) && i <= geo.inodes && BitmapsFit(geo, d.bbm) && BitmapsFit(geo, d'.bbm)
    && BlockCounts(geo, d') && OnlyBlockBits(d, d')
    && Used(geo, d'.bbm) == Used(geo, d.bbm) - Own(geo, d, i)
  }

  lemma EmptiedFree(geo: Geometry, d: Disk, d': Disk, live: set<nat>, i: nat)
    requires geo.Valid() && Settled(geo, d, live) && i in live && Emptied(geo, d, d', i)
    ensures Fits(geo, d) && i <= geo.inodes && d'.sbFreeBlocks == d.sbFreeBlocks + |Own(geo, d, i)|
  {
    hide Own, Used, Fits, InodeBooks, Namespace, Store, BlockCounts, BitmapsFit, OnlyBlockBits, Blocks, Freeable;
    OldFreeable(geo, d, live, i);
    forall b | b in Own(geo, d, i) ensures b in Used(geo, d.bbm) { OwnedIsUsed(geo, d, live, {}, i, b); }
    CountFreed(geo, d, d', Own(geo, d, i));
  }

  /** A file that maps blocks marked free is no consistent disk's; without any to map,
      nothing has changed. */
  lemma EmptiedConsistent(geo: Geometry, d: Disk, d': Disk, i: nat)
    requires geo.Valid() && Consistent(geo, d) && BitmapsFit(geo, d.ibm) && i in LiveInodes(geo, d) && Emptied(geo, d, d', i)
    ensures Consistent(geo, d') <==> Own(geo, d, i) == {}
  {
    hide Own, Used, Fits, InodeBooks, Namespace, Store, BlockCounts, OnlyBlockBits, Blocks, LiveInodes, BitmapsFit;
    if Own(geo, d, i) == {} {
      EmptiedNothing(geo, d, d', LiveInodes(geo, d), i);
      SettledIsConsistent(geo, d', LiveInodes(geo, d));
    } else if Consistent(geo, d') {
      EmptiedSame(geo, d, d', i);
      var b :| b in Own(geo, d, i);
      OwnedIsUsed(geo, d', LiveInodes(geo, d'), {}, i, b);
      assert false;
    }
  }

  lemma EmptiedNothing(geo: Geometry, d: Disk, d': Disk, live: set<nat>, i: nat)
    requires geo.Valid() && Settled(geo, d, live) && Emptied(geo, d, d', i) && Own(geo, d, i) == {}
    ensures Settled(geo, d', live)
  {
    hide Own, Used, Fits, InodeBooks, Namespace, Store, BlockCounts, BitmapsFit, TreeOf, TreeOK, ShowsNode, SameView, SameText, Kept, DirsOK;
    SettledParts(geo, d, live);
    var none: set<nat> := {};
    FreeStep(geo, d, d', live, none, none);
    assert none - none == none;
    StoreFits(geo, d', live, {});
    KeptViews(geo, d, d', live);
    var t := TreeOf(geo, d, live);
    forall j | j in live ensures ShowsNode(geo, d', t, j) {
      ViewsOfTree(geo, d, live, j);
      SameViewNode(geo, d, d', t, j);
    }
    InodeBooksSame(geo, d, d', live, DirSet(d, live));
    SettledFrom(geo, d', live, t);
  }

  lemma EmptiedSame(geo: Geometry, d: Disk, d': Disk, i: nat)
    requires geo.Valid() && Fits(geo, d) && Fits(geo, d') && OnlyBlockBits(d, d') && i <= geo.inodes
    requires BitmapsFit(geo, d.ibm) && BitmapsFit(geo, d'.ibm)
    ensures Own(geo, d', i) == Own(geo, d, i) && LiveInodes(geo, d') == LiveInodes(geo, d)
  {
    hide Ready, UsedInos, BitmapsFit;
  }

  /** Free file i's old blocks. */
  method FreeOld(fs: Volume, i: nat, ghost live: set<nat>)
    requires fs.geo.Valid() && Settled(fs.geo, fs.disk, live) && i in live
    modifies fs
    ensures Holding(fs.geo, old(fs.disk), fs.disk, live, i, {})
    ensures Emptied(fs.geo, old(fs.disk), fs.disk, i)
  {
    hide Own, Used, Fits, InodeBooks, Namespace, Store, Kept, Ready, BitmapsFit, Blocks, Filter, UsedBit, Settled, Holding,
         BlockCounts, Geometry.Valid, BitsNow, OnlyBlockBits, Freeable;
    ghost var d0 := fs.disk;
    SettledParts(fs.geo, d0, live);
    OldFreeable(fs.geo, d0, live, i);
    FreeBlocks(fs, Blocks(fs.geo, fs.disk, i));
    CountedBitmaps(fs.geo, fs.disk);
    HoldingNone(fs.geo, d0, fs.disk, live, i);
  }

  /** Take blocks for buf and write it to them. */
  method Place(fs: Volume, i: nat, buf: Bytes, ghost d0: Disk, ghost live: set<nat>) returns (r: Result<seq<nat>>, ghost d2: Disk)
    requires fs.geo.Valid() && Holding(fs.geo, d0, fs.disk, live, i, {}) && i <= fs.geo.inodes && 1 <= i
    modifies fs
    ensures r.Ok? ==> Placed(fs.geo, d0, d2, fs.disk, live, i, r.value, buf)
    ensures fs.geo.bs > 0 && (r.Ok? <==> CeilDiv(|buf|, fs.geo.bs) <= old(fs.disk).sbFreeBlocks)
    ensures r.Ok? ==> fs.disk.sbFreeBlocks == old(fs.disk).sbFreeBlocks - CeilDiv(|buf|, fs.geo.bs)
    ensures r.Err? ==> r.reason == DiskFull && fs.disk == old(fs.disk)
  {
    hide Fits, Grew, CeilDiv, Ready, WrittenTo, Settled, Holding, Geometry.Valid;
    var geo := fs.geo;
    ghost var d1 := fs.disk;
    HoldingReady(geo, d0, d1, live, i, {});
    GroupInRange(geo, i);
    var blocks: seq<nat> := [];
    if |buf| > 0 {
      var took := Take(fs, geo.GroupOfInode(i), CeilDiv(|buf|, geo.bs));
      if took.Err? { return Err(took.reason), fs.disk; }
      blocks := took.value;
    } else {
      GrewNothing(geo, d1);
      NoBlocks(geo.bs);
      assert ToSet(blocks) == {};
    }
    d2 := fs.disk;
    assert Grew(geo, d1, d2, ToSet(blocks));
    TakenBlocks(geo, d0, d1, d2, live, i, blocks);
    var data := WriteData(geo.bs, fs.disk.data, blocks, buf);
    HoldingWritten(geo, d0, d2, live, i, blocks, data, buf);
    fs.disk := fs.disk.(data := data);
    r := Ok(blocks);
  }

  /** The blocks that a file of n bytes takes: its data, and the indirect blocks over it. */
  function BlocksFor(geo: Geometry, n: nat): nat
    requires geo.Valid()
  {
    PpbPositive(geo);
    CeilDiv(n, geo.bs) + IndirectCount(geo.Ppb(), CeilDiv(n, geo.bs))
  }

  lemma PlacedCost(geo: Geometry, d0: Disk, d2: Disk, d3: Disk, live: set<nat>, i: nat, blocks: seq<nat>, buf: Bytes)
    requires geo.Valid() && Placed(geo, d0, d2, d3, live, i, blocks, buf)
    ensures geo.Ppb() > 0 && BlocksFor(geo, |buf|) == |blocks| + IndirectCount(geo.Ppb(), |blocks|)
  {
    hide Holding, WrittenTo, CeilDiv, IndirectCount;
    PpbPositive(geo);
  }

  /** Whatever is in hand when write-file! fails, the other inodes are as before. */
  lemma HoldingUnharmed(geo: Geometry, d0: Disk, d: Disk, live: set<nat>, i: nat, hand: set<nat>)
    requires geo.Valid() && Holding(geo, d0, d, live, i, hand)
    ensures Unharmed(geo, d0, d, live - {i})
  {
    hide Own, Used, Fits, InodeBooks, Namespace, Store, Kept, Unharmed, Settled;
    SettledParts(geo, d0, live);
    KeptUnharmed(geo, d0, d, live - {i});
  }

  lemma FinishFailed(geo: Geometry, d0: Disk, d3: Disk, d4: Disk, live: set<nat>, i: nat, hand: set<nat>, ind: set<nat>)
    requires geo.Valid() && Holding(geo, d0, d3, live, i, hand) && (d4 == d3 || Grew(geo, d3, d4, ind))
    ensures Unharmed(geo, d0, d4, live - {i})
  {
    hide Holding, Grew, Unharmed;
    if d4 == d3 {
      HoldingUnharmed(geo, d0, d4, live, i, hand);
    } else {
      HoldingMore(geo, d0, d3, d4, live, i, hand, ind);
      HoldingUnharmed(geo, d0, d4, live, i, hand + ind);
    }
  }

  /** Build the map over the placed blocks and write the inode's record. */
  method FinishFile(fs: Volume, i: nat, blocks: seq<nat>, buf: Bytes, ghost d0: Disk, ghost d2: Disk, ghost live: set<nat>)
    returns (r: Result<()>)
    requires fs.geo.Valid() && Placed(fs.geo, d0, d2, fs.disk, live, i, blocks, buf)
    requires i < |d0.inode| && d0.inode[i].kind == File && |buf| < 0x1_0000_0000
    modifies fs
    ensures r.Ok? ==>
      && Fits(fs.geo, d0) && Numbers(fs.geo, live) && DirsOK(fs.geo, d0, live)
      && Became(fs.geo, d0, fs.disk, live, TreeOf(fs.geo, d0, live), live - {i})
      && Fits(fs.geo, fs.disk) && i <= fs.geo.inodes && i < |fs.disk.inode| && TextOf(fs.geo, fs.disk, i) == Ok(buf)
      && |Own(fs.geo, fs.disk, i)| == BlocksFor(fs.geo, |buf|)
    ensures Told(r, fs.disk.sbFreeBlocks) == MapOutcome(fs.geo, old(fs.disk).sbFreeBlocks, |blocks|)
    ensures r.Err? ==> Unharmed(fs.geo, d0, fs.disk, live - {i})
  {
    hide Fits, Grew, CeilDiv, Ready, WrittenTo, Became, TreeOf, TextOf, Numbers, DirsOK, Settled, Remapped, Holding, MapBuilt,
         Geometry.Valid, BlockNumbers, DataFit, MapOutcome, Own, BlocksFor, Unharmed;
    var geo := fs.geo;
    ghost var d3 := fs.disk;
    HoldingReady(geo, d0, d3, live, i, ToSet(blocks));
    GroupInRange(geo, i);
    var built, ind := BuildMap(fs, geo.GroupOfInode(i), blocks);
    if built.Err? {
      FinishFailed(geo, d0, d3, fs.disk, live, i, ToSet(blocks), ToSet(ind));
      return Err(built.reason);
    }
    ghost var d4 := fs.disk;
    MapRecord(geo, d0, d3, d4, live, i, blocks, built.value.0, ind);
    MapIs(geo, d3, d4, blocks, built.value.0, ind);
    ReplaceDone(geo, d0, d2, d3, d4, live, i, blocks, buf, built.value.0, ind);
    PlacedCost(geo, d0, d2, d3, live, i, blocks, buf);
    var v := Remapped(geo.bs, fs.disk.inode[i], built.value.0, |buf|, |blocks| + built.value.1);
    fs.disk := fs.disk.(inode := fs.disk.inode[i := v]);
    return Ok(());
  }

  /** What replacing a file's contents by n bytes comes to with `free` blocks free and
      `own` to give back first: the number it leaves free, or why it fails. */
  function ReplaceOutcome(geo: Geometry, free: nat, own: nat, n: nat): (r: Result<nat>)
    requires geo.Valid()
    ensures r.Err? ==> r.reason == DiskFull || r.reason == FileTooLarge
  {
    var need := CeilDiv(n, geo.bs);
    if need > free + own then Err(DiskFull) else MapOutcome(geo, free + own - need, need)
  }

  /** Free file i's old blocks, write buf to new ones under a new map.  When the blocks
      for buf cannot be had, the old ones stay marked free. */
  method ReplaceData(fs: Volume, i: nat, buf: Bytes, ghost live: set<nat>) returns (r: Result<()>)
    requires fs.geo.Valid() && Settled(fs.geo, fs.disk, live) && i in live && i < |fs.disk.inode|
    requires fs.disk.inode[i].kind == File && |buf| < 0x1_0000_0000
    modifies fs
    ensures Fits(fs.geo, old(fs.disk)) && Numbers(fs.geo, live) && DirsOK(fs.geo, old(fs.disk), live)
    ensures r.Ok? ==>
      && Became(fs.geo, old(fs.disk), fs.disk, live, TreeOf(fs.geo, old(fs.disk), live), live - {i})
      && Fits(fs.geo, fs.disk) && i <= fs.geo.inodes && i < |fs.disk.inode| && TextOf(fs.geo, fs.disk, i) == Ok(buf)
      && |Own(fs.geo, fs.disk, i)| == BlocksFor(fs.geo, |buf|)
    ensures i <= fs.geo.inodes && fs.geo.bs > 0
    ensures Told(r, fs.disk.sbFreeBlocks)
         == ReplaceOutcome(fs.geo, old(fs.disk).sbFreeBlocks, |Own(fs.geo, old(fs.disk), i)|, |buf|)
    ensures r.Err? ==> Unharmed(fs.geo, old(fs.disk), fs.disk, live - {i})
    ensures CeilDiv(|buf|, fs.geo.bs) > old(fs.disk).sbFreeBlocks + |Own(fs.geo, old(fs.disk), i)| ==>
      Emptied(fs.geo, old(fs.disk), fs.disk, i)
  {
    hide *;
    ghost var d0 := fs.disk;
    ReplaceSteps(fs.geo, d0.sbFreeBlocks, fs.disk, live, i, |buf|);
    FreeOld(fs, i, live);
    EmptiedFree(fs.geo, d0, fs.disk, live, i);
    HoldingReady(fs.geo, d0, fs.disk, live, i, {});
    var placed, d2 := Place(fs, i, buf, d0, live);
    if placed.Err? {
      HoldingUnharmed(fs.geo, d0, fs.disk, live, i, {});
      r := Err(placed.reason);
      ToldIs(r, fs.disk.sbFreeBlocks);
      return;
    }
    PlacedSize(fs.geo, d0, d2, fs.disk, live, i, placed.value, buf);
    r := FinishFile(fs, i, placed.value, buf, d0, d2, live);
  }

  lemma ReplaceSteps(geo: Geometry, free: nat, d: Disk, live: set<nat>, i: nat, n: nat)
    requires geo.Valid() && Settled(geo, d, live) && i in live
    ensures Fits(geo, d) && Numbers(geo, live) && DirsOK(geo, d, live) && 1 <= i <= geo.inodes && geo.bs > 0
    ensures var need, own := CeilDiv(n, geo.bs), |Own(geo, d, i)|;
            ReplaceOutcome(geo, free, own, n) == if need > free + own then Err(DiskFull) else MapOutcome(geo, free + own - need, need)
  {
    hide Own, Used, Fits, InodeBooks, Namespace, Store, CeilDiv, MapOutcome, TreeOf, TreeOK, DirsOK, Blocks, Freeable;
    SettledParts(geo, d, live);
    OldFreeable(geo, d, live, i);
  }

  lemma PlacedSize(geo: Geometry, d0: Disk, d2: Disk, d3: Disk, live: set<nat>, i: nat, blocks: seq<nat>, buf: Bytes)
    requires geo.Valid() && Placed(geo, d0, d2, d3, live, i, blocks, buf)
    ensures geo.bs > 0 && |blocks| == CeilDiv(|buf|, geo.bs)
  {
    hide Holding, WrittenTo, CeilDiv;
  }

  lemma NoBlocks(bs: nat)
    requires bs > 0
    ensures CeilDiv(0, bs) == 0
  {
    CeilIs(bs, 0, 0, 0);
  }

  lemma MapIs(geo: Geometry, d: Disk, d': Disk, data: seq<nat>, words: seq<nat>, ind: seq<nat>)
    requires geo.Valid() && MapBuilt(geo, d, d', data, words, ind)
    ensures |words| == 15
  {
    hide Grew, MapBlocks, MapIndirect;
  }
}
