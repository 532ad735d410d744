/** A freshly made volume: one group, the root directory and six free blocks.  It is
    consistent, so every run may start from it. */
module Ext2Format {
  import opened Bytes
  import opened Ext2Disk
  import opened Ext2Bitmap
  import opened Ext2Alloc
  import opened Ext2InodeAlloc
  import opened Ext2DirData
  import opened Ext2Store
  import opened Ext2Dir
  import opened Ext2Names
  import opened Ext2Lookup
  import opened Ext2Books
  import opened Ext2Tree
  import opened Ext2Make

  /** Block 1 holds metadata, block 2 the root directory, blocks 3 to 8 are free; inodes 1
      and 2 are reserved, 3 to 8 are free. */
  function Small(): Geometry {
    Geometry(1024, 9, 1, 8, 8, 8, 1, 3, true, {1})
  }

  function TwoBits(): (bm: seq<bv8>)
    ensures |bm| == 1024
  {
    [0x03] + seq(1023, _ => 0x00)
  }

  function Root(): (b: Bytes)
    ensures |b| == 1024
  {
    NewDirBlock(true, 1024, ROOT_INO, ROOT_INO, FT_DIR)
  }

  function Formatted(): Disk {
    var none := EmptyInode(Other, 0);
    Disk([TwoBits()], [TwoBits()], [Group(6, 6, 1)], 6, 6,
         [none, none, DirInode(1024, 2)] + seq(6, _ => none),
         [Zeros(1024), Zeros(1024), Root()] + seq(6, _ => Zeros(1024)))
  }

  lemma SmallValid()
    ensures Small().Valid()
  {
    assert CeilDiv(8, 8) == 1;
  }

  lemma Bits(i: nat)
    requires i < 8
    ensures Bit(TwoBits(), i) <==> i < 2
  {
    assert i / 8 == 0 && i % 8 == i;
    assert TwoBits()[0] == 0x03;
  }

  lemma {:induction false} FreeAfter(base: nat, k: nat)
    requires 2 <= k <= 8
    ensures FreeIn(TwoBits(), base, k, 8) == seq(8 - k, i requires 0 <= i < 8 - k => base + k + i)
    decreases 8 - k
  {
    hide Bit, TwoBits;
    if k < 8 {
      Bits(k);
      FreeAfter(base, k + 1);
    }
  }

  lemma SixFree(base: nat)
    ensures FreeIn(TwoBits(), base, 0, 8) == [base + 2, base + 3, base + 4, base + 5, base + 6, base + 7]
  {
    hide Bit, TwoBits;
    Bits(0);
    Bits(1);
    FreeAfter(base, 2);
    assert FreeIn(TwoBits(), base, 1, 8) == FreeIn(TwoBits(), base, 2, 8);
  }

  lemma Fields()
    ensures var d := Formatted();
            && d.bbm == [TwoBits()] && d.ibm == [TwoBits()] && d.gd == [Group(6, 6, 1)]
            && d.sbFreeBlocks == 6 && d.sbFreeInodes == 6
  {
    hide TwoBits, Root, DirInode, EmptyInode;
  }

  lemma FirstGroup(geo: Geometry, g: nat)
    requires g == 0 && geo.fdb == 1 && geo.blocks == 9 && geo.bpg == 8
    ensures geo.Base(g) == 1 && geo.Limit(g) == 8 && geo.InoBase(g) == 1
  {}

  lemma FormattedCounts()
    ensures Small().Valid() && BlockCounts(Small(), Formatted()) && InodeCounts(Small(), Formatted())
  {
    hide FreeIn, TwoBits, Formatted, Geometry.Valid, Geometry.Base, Geometry.Limit, Geometry.InoBase;
    var geo, d := Small(), Formatted();
    SmallValid();
    FirstGroup(geo, 0);
    Fields();
    SixFree(1);
    assert BitmapsFit(geo, d.bbm) && BitmapsFit(geo, d.ibm);
    assert FreeGroup(geo, d.bbm, 0) == [3, 4, 5, 6, 7, 8];
    assert FreeInos(geo, d.ibm, 0) == [3, 4, 5, 6, 7, 8];
    assert SumFree(geo, d.bbm, 0) == 0 && SumFreeInos(geo, d.ibm, 0) == 0;
    assert SumFree(geo, d.bbm, 1) == 6 && SumFreeInos(geo, d.ibm, 1) == 6;
  }

  lemma FormattedUsed()
    ensures Small().Valid() && BitmapsFit(Small(), Formatted().bbm) && BitmapsFit(Small(), Formatted().ibm)
    ensures Used(Small(), Formatted().bbm) == {1, 2} && UsedInos(Small(), Formatted().ibm) == {1, 2}
  {
    hide Bit, TwoBits, Root, DirInode, EmptyInode;
    var geo, d := Small(), Formatted();
    SmallValid();
    forall b: nat | 1 <= b < 9 ensures UsedBit(geo, d.bbm, b) <==> b < 3 {
      assert geo.GroupOf(b) == 0 && geo.IndexOf(b) == b - 1;
      Bits(b - 1);
    }
    forall i: nat | 1 <= i <= 8 ensures UsedInoBit(geo, d.ibm, i) <==> i < 3 {
      assert geo.GroupOfInode(i) == 0 && geo.IndexOfInode(i) == i - 1;
      Bits(i - 1);
    }
  }

  lemma FormattedFits()
    ensures Small().Valid() && Fits(Small(), Formatted())
  {
    hide BlockCounts, Used, TwoBits, Root, InodeCounts;
    FormattedCounts();
    FormattedUsed();
  }

  lemma FormattedRoot()
    ensures var geo, d := Small(), Formatted();
            && geo.Valid() && Fits(geo, d) && DirOK(geo, d, ROOT_INO) && NamesOK(geo, d, ROOT_INO)
            && KidMap(Ents(geo, d, ROOT_INO)) == map[] && FindIno(Ents(geo, d, ROOT_INO), DOTDOT) == ROOT_INO
            && OwnsWell(geo, d, ROOT_INO) && Own(geo, d, ROOT_INO) == {2}
  {
    hide Fits, DirOK, Ents, KidMap, FindIno, OwnsWell, Own, UniqueNames, FirstBlockNames, DirInode, TwoBits, NewDirBlock, EmptyInode, NoneNamed;
    var geo, d := Small(), Formatted();
    FormattedFits();
    assert d.inode[ROOT_INO] == DirInode(geo.bs, 2) && geo.DataBlock(2);
    NewDirOK(geo, d, ROOT_INO, ROOT_INO, 2);
    NewDirEntries(true, ROOT_INO, ROOT_INO, FT_DIR);
    NewDirOwns(geo, d, ROOT_INO, 2);
  }

  lemma FormattedTree()
    ensures var geo, d := Small(), Formatted();
            geo.Valid() && Fits(geo, d) && Namespace(geo, d, {ROOT_INO})
  {
    hide Fits, DirOK, NamesOK, Ents, KidMap, FindIno, OwnsWell, Own, TwoBits, Root, EmptyInode;
    var geo, d := Small(), Formatted();
    FormattedRoot();
    RootRecord();
    assert DirSet(d, {ROOT_INO}) == {ROOT_INO};
    var t := TreeOf(geo, d, {ROOT_INO});
    assert t.kids == map[ROOT_INO := map[]] && t.up == map[ROOT_INO := ROOT_INO];
    assert t.links == map[ROOT_INO := 2] && t.kind == map[ROOT_INO := Dir];
    OnlyRoot(t);
  }

  lemma RootRecord()
    ensures Formatted().inode[ROOT_INO].kind == Dir && Formatted().inode[ROOT_INO].links == 2 && |Formatted().inode| == 9
  {}

  /** The tree of an empty root. */
  lemma OnlyRoot(t: Tree)
    requires t == Tree(map[ROOT_INO := map[]], map[ROOT_INO := ROOT_INO], map[ROOT_INO := 2], map[ROOT_INO := Dir])
    ensures TreeOK(t)
  {
    assert SubDirs(t, ROOT_INO) == {};
    assert Ranks(t.up, map[ROOT_INO := 0]);
  }

  lemma FormattedBooks()
    ensures Small().Valid() && InodeBooks(Small(), Formatted(), {ROOT_INO}, {ROOT_INO})
  {
    hide InodeCounts, UsedInos, TwoBits, Root, BlockCounts;
    var geo, d := Small(), Formatted();
    FormattedCounts();
    FormattedUsed();
    assert Reserved(geo) == {1, 2};
    assert DirsIn(geo, {ROOT_INO}, 0) == {ROOT_INO} by { assert geo.GroupOfInode(ROOT_INO) == 0; }
  }

  lemma FormattedStore()
    ensures Small().Valid() && Store(Small(), Formatted(), {ROOT_INO}, {})
  {
    hide Fits, OwnsWell, Own, Used, DirOK, NamesOK, Formatted, Geometry.Valid, KidMap, Ents, FindIno;
    var geo, d := Small(), Formatted();
    FormattedUsed();
    FormattedRoot();
    FormattedReady();
    assert Numbers(geo, {ROOT_INO});
    forall b ensures Owned(geo, d, {ROOT_INO}, b) <==> b == 2 {
      assert b in Own(geo, d, ROOT_INO) <==> b == 2;
    }
  }

  lemma FormattedReady()
    ensures Small().Valid() && Fits(Small(), Formatted()) && BitmapsFit(Small(), Formatted().bbm)
  {
    hide Formatted, Used, UsedInos;
    FormattedFits();
    FormattedUsed();
  }

  /** The formatted volume is consistent. */
  lemma FormattedConsistent()
    ensures Small().Valid() && Consistent(Small(), Formatted())
  {
    hide Fits, Store, InodeBooks, Namespace, Formatted, Consistent, LiveInodes;
    FormattedFits();
    FormattedStore();
    FormattedTree();
    FormattedBooks();
    RootRecord();
    assert DirSet(Formatted(), {ROOT_INO}) == {ROOT_INO};
    SettledIsConsistent(Small(), Formatted(), {ROOT_INO});
  }
}
