/** How much is free: the superblock's totals, which a caller can read, are the numbers
    of unmarked blocks and inodes (lib/ext2.beer:398-408), and so decide every
    allocation. */
module Ext2Space {
  import opened Seqs
  import opened Ext2Disk
  import opened Ext2Bitmap
  import opened Ext2Alloc
  import opened Ext2InodeAlloc

  ghost function Unused(geo: Geometry, bbm: seq<seq<bv8>>): set<nat>
    requires geo.Valid() && BitmapsFit(geo, bbm)
  {
    set b: nat | geo.fdb <= b < geo.blocks && b !in Used(geo, bbm)
  }

  lemma FreeFromSize(geo: Geometry, bbm: seq<seq<bv8>>, goal: nat)
    requires geo.Valid() && BitmapsFit(geo, bbm) && goal < geo.ngroups
    ensures |FreeFrom(geo, bbm, goal, 0)| == |Unused(geo, bbm)|
  {
    hide FreeFrom, Used, Geometry.Valid;
    var s := FreeFrom(geo, bbm, goal, 0);
    FreeFromNoDup(geo, bbm, goal, 0);
    NoDupSize(s);
    forall b ensures b in ToSet(s) <==> b in Unused(geo, bbm) { FreeFromComplete(geo, bbm, goal, b); }
    assert ToSet(s) == Unused(geo, bbm);
  }

  /** From group 0 the search visits the groups in order, as the total adds them up. */
  lemma {:induction false} FreeFromSum(geo: Geometry, bbm: seq<seq<bv8>>, k: nat)
    requires geo.Valid() && BitmapsFit(geo, bbm) && k <= geo.ngroups && geo.ngroups > 0
    ensures |FreeFrom(geo, bbm, 0, k)| + SumFree(geo, bbm, k) == SumFree(geo, bbm, geo.ngroups)
    decreases geo.ngroups - k
  {
    hide FreeGroup, Geometry.Valid;
    if k < geo.ngroups {
      ModOnce(k, geo.ngroups);
      assert Visit(geo, 0, k) == k;
      FreeFromSum(geo, bbm, k + 1);
    }
  }

  lemma SomeGroup(geo: Geometry)
    requires geo.Valid()
    ensures geo.ngroups > 0
  {
    assert geo.ngroups * geo.ipg > 0;
  }

  /** The superblock's count of free blocks. */
  lemma FreeBlocksCount(geo: Geometry, d: Disk)
    requires geo.Valid() && BlockCounts(geo, d)
    ensures BitmapsFit(geo, d.bbm) && d.sbFreeBlocks == |Unused(geo, d.bbm)|
  {
    hide FreeGroup, Geometry.Valid, FreeFrom, Unused, SumFree;
    SomeGroup(geo);
    FreeFromSize(geo, d.bbm, 0);
    FreeFromSum(geo, d.bbm, 0);
    NoGroups(geo, d.bbm);
  }

  lemma CountedBitmaps(geo: Geometry, d: Disk)
    requires geo.Valid() && BlockCounts(geo, d)
    ensures BitmapsFit(geo, d.bbm)
  {
    hide FreeGroup, SumFree;
  }

  lemma NoGroups(geo: Geometry, bbm: seq<seq<bv8>>)
    requires geo.Valid() && BitmapsFit(geo, bbm)
    ensures SumFree(geo, bbm, 0) == 0
  {}

  /** An allocation succeeds exactly when the superblock counts enough. */
  lemma FreeFromCount(geo: Geometry, d: Disk, goal: nat)
    requires geo.Valid() && BlockCounts(geo, d) && goal < geo.ngroups
    ensures BitmapsFit(geo, d.bbm) && |FreeFrom(geo, d.bbm, goal, 0)| == d.sbFreeBlocks
  {
    hide FreeGroup, Geometry.Valid, FreeFrom, Unused, BlockCounts;
    FreeBlocksCount(geo, d);
    FreeFromSize(geo, d.bbm, goal);
  }

  /** Marking unused blocks used lowers the count by their number ... */
  lemma CountTaken(geo: Geometry, d: Disk, d': Disk, s: set<nat>)
    requires geo.Valid() && BlockCounts(geo, d) && BlockCounts(geo, d') && BitmapsFit(geo, d.bbm) && BitmapsFit(geo, d'.bbm)
    requires Used(geo, d'.bbm) == Used(geo, d.bbm) + s && forall b :: b in s ==> geo.fdb <= b < geo.blocks && b !in Used(geo, d.bbm)
    ensures d'.sbFreeBlocks == d.sbFreeBlocks - |s|
  {
    hide Used, Geometry.Valid, BlockCounts;
    FreeBlocksCount(geo, d);
    FreeBlocksCount(geo, d');
    assert Unused(geo, d'.bbm) == Unused(geo, d.bbm) - s && s <= Unused(geo, d.bbm);
  }

  /** ... and marking used ones free raises it. */
  lemma CountFreed(geo: Geometry, d: Disk, d': Disk, s: set<nat>)
    requires geo.Valid() && BlockCounts(geo, d) && BlockCounts(geo, d') && BitmapsFit(geo, d.bbm) && BitmapsFit(geo, d'.bbm)
    requires Used(geo, d'.bbm) == Used(geo, d.bbm) - s && s <= Used(geo, d.bbm)
    ensures d'.sbFreeBlocks == d.sbFreeBlocks + |s|
  {
    hide Geometry.Valid, BlockCounts, UsedBit;
    FreeBlocksCount(geo, d);
    FreeBlocksCount(geo, d');
    assert Unused(geo, d'.bbm) == Unused(geo, d.bbm) + s && s !! Unused(geo, d.bbm);
  }

  // ---- inodes ----

  /** A group without an eligible inode has none free, when the reserved ones are in use. */
  lemma NoneFree(geo: Geometry, ibm: seq<seq<bv8>>, g: nat)
    requires geo.Valid() && BitmapsFit(geo, ibm) && g < geo.ngroups && NoneIn(geo, ibm, g)
    requires forall i: nat :: 1 <= i < geo.firstIno ==> i in UsedInos(geo, ibm)
    ensures FreeInos(geo, ibm, g) == []
  {
    hide Bit, FreeIn;
    forall i | 0 <= i < geo.ipg ensures Bit(ibm[g], i) {
      InodeJoin(geo, g, i);
      assert !Eligible(geo, ibm[g], g, i);
      if geo.InoBase(g) + i < geo.firstIno {
        assert geo.InoBase(g) + i in UsedInos(geo, ibm);
        assert UsedInoBit(geo, ibm, geo.InoBase(g) + i);
      }
    }
    FreeInSkip(ibm[g], geo.InoBase(g), 0, geo.ipg, geo.ipg);
    FreeInNothing(ibm[g], geo.InoBase(g), geo.ipg);
  }

  lemma FreeInNothing(bm: seq<bv8>, base: nat, limit: nat)
    requires limit <= 8 * |bm|
    ensures FreeIn(bm, base, limit, limit) == []
  {}

  lemma {:induction false} SumNone(geo: Geometry, ibm: seq<seq<bv8>>, n: nat)
    requires geo.Valid() && BitmapsFit(geo, ibm) && n <= geo.ngroups
    requires forall g :: 0 <= g < n ==> FreeInos(geo, ibm, g) == []
    ensures SumFreeInos(geo, ibm, n) == 0
  {
    hide FreeInos, Geometry.Valid;
    if n > 0 { SumNone(geo, ibm, n - 1); }
  }

  lemma {:induction false} SumSome(geo: Geometry, ibm: seq<seq<bv8>>, n: nat, g: nat)
    requires geo.Valid() && BitmapsFit(geo, ibm) && g < n <= geo.ngroups && FreeInos(geo, ibm, g) != []
    ensures SumFreeInos(geo, ibm, n) > 0
  {
    hide FreeInos, Geometry.Valid;
    if g < n - 1 { SumSome(geo, ibm, n - 1, g); }
  }

  /** No inode is found exactly when the superblock counts none. */
  lemma NoInodeCount(geo: Geometry, d: Disk, goal: nat)
    requires geo.Valid() && InodeCounts(geo, d) && BitmapsFit(geo, d.ibm) && goal < geo.ngroups
    requires forall i: nat :: 1 <= i < geo.firstIno ==> i in UsedInos(geo, d.ibm)
    requires forall m :: 0 <= m < geo.ngroups ==> NoneIn(geo, d.ibm, Visit(geo, goal, m))
    ensures d.sbFreeInodes == 0
  {
    hide UsedInos, FreeInos, NoneIn, Geometry.Valid, Visit, SumFreeInos;
    forall g | 0 <= g < geo.ngroups ensures FreeInos(geo, d.ibm, g) == [] {
      var m := VisitOf(geo, goal, g);
      NoneFree(geo, d.ibm, g);
    }
    SumNone(geo, d.ibm, geo.ngroups);
  }

  lemma VisitOf(geo: Geometry, goal: nat, g: nat) returns (m: nat)
    requires goal < geo.ngroups && g < geo.ngroups
    ensures m < geo.ngroups && Visit(geo, goal, m) == g
  {
    m := if goal <= g then g - goal else g + geo.ngroups - goal;
    ModOnce(goal + m, geo.ngroups);
  }

  lemma InodeCount(geo: Geometry, d: Disk, ino: nat)
    requires geo.Valid() && InodeCounts(geo, d) && BitmapsFit(geo, d.ibm) && 1 <= ino <= geo.inodes && ino !in UsedInos(geo, d.ibm)
    ensures d.sbFreeInodes > 0
  {
    hide Bit, FreeIn, SumFreeInos;
    InodeSplit(geo, ino);
    var g, i := geo.GroupOfInode(ino), geo.IndexOfInode(ino);
    FreeInMember(d.ibm[g], geo.InoBase(g), 0, geo.ipg, geo.InoBase(g) + i);
    assert geo.InoBase(g) + i in FreeInos(geo, d.ibm, g);
    SumSome(geo, d.ibm, geo.ngroups, g);
  }
}
