/** The inode allocator and its counts (lib/ext2.beer:460-489). */
module Ext2InodeAlloc {
  import opened Ext2Disk
  import opened Ext2Bitmap
  import opened Ext2Alloc

  predicate UsedInoBit(geo: Geometry, ibm: seq<seq<bv8>>, ino: nat)
    requires geo.Valid() && BitmapsFit(geo, ibm)
    requires 1 <= ino <= geo.inodes
  {
    InodeSplit(geo, ino);
    Bit(ibm[geo.GroupOfInode(ino)], geo.IndexOfInode(ino))
  }

  /** The inode numbers the bitmaps mark used. */
  ghost function UsedInos(geo: Geometry, ibm: seq<seq<bv8>>): set<nat>
    requires geo.Valid() && BitmapsFit(geo, ibm)
  {
    set ino: nat | 1 <= ino <= geo.inodes && UsedInoBit(geo, ibm, ino)
  }

  function FreeInos(geo: Geometry, ibm: seq<seq<bv8>>, g: nat): (r: seq<nat>)
    requires geo.Valid() && BitmapsFit(geo, ibm) && g < geo.ngroups
    ensures |r| <= geo.ipg
  {
    FreeIn(ibm[g], geo.InoBase(g), 0, geo.ipg)
  }

  function SumFreeInos(geo: Geometry, ibm: seq<seq<bv8>>, n: nat): nat
    requires geo.Valid() && BitmapsFit(geo, ibm) && n <= geo.ngroups
  {
    if n == 0 then 0 else SumFreeInos(geo, ibm, n - 1) + |FreeInos(geo, ibm, n - 1)|
  }

  lemma {:induction false} SumFreeInosBound(geo: Geometry, ibm: seq<seq<bv8>>, n: nat)
    requires geo.Valid() && BitmapsFit(geo, ibm) && n <= geo.ngroups
    ensures SumFreeInos(geo, ibm, n) <= n * geo.ipg <= geo.inodes
  {
    hide FreeInos;
    if n > 0 {
      SumFreeInosBound(geo, ibm, n - 1);
      assert n * geo.ipg == (n - 1) * geo.ipg + geo.ipg;
    }
    MulMono(n, geo.ngroups, geo.ipg);
  }

  lemma {:induction false} SumFreeInosUpdate(geo: Geometry, ibm: seq<seq<bv8>>, g: nat, bm: seq<bv8>, n: nat)
    requires geo.Valid() && BitmapsFit(geo, ibm) && g < geo.ngroups && n <= geo.ngroups && |bm| == geo.bs
    ensures BitmapsFit(geo, ibm[g := bm])
    ensures SumFreeInos(geo, ibm[g := bm], n) == SumFreeInos(geo, ibm, n) +
      if g < n then |FreeInos(geo, ibm[g := bm], g)| - |FreeInos(geo, ibm, g)| else 0
  {
    if n > 0 { SumFreeInosUpdate(geo, ibm, g, bm, n - 1); }
  }

  /** Free-inode counts of the groups and the superblock agree with the inode
      bitmaps. */
  ghost predicate InodeCounts(geo: Geometry, d: Disk)
    requires geo.Valid()
  {
    && BitmapsFit(geo, d.ibm) && |d.gd| == geo.ngroups
    && (forall g :: 0 <= g < geo.ngroups ==> d.gd[g].freeInodes == |FreeInos(geo, d.ibm, g)|)
    && d.sbFreeInodes == SumFreeInos(geo, d.ibm, geo.ngroups)
  }

  /** A disk where inode bit i of group g is `on` and the counts follow. */
  function WithInodeBit(d: Disk, g: nat, i: nat, on: bool, ddirs: int): Disk
    requires g < |d.gd| && g < |d.ibm| && i < 8 * |d.ibm[g]|
  {
    Adjusted(d.(ibm := d.ibm[g := SetBit(d.ibm[g], i, on)]), g, 0, if on then -1 else 1, ddirs)
  }

  lemma InodeBitUsed(geo: Geometry, ibm: seq<seq<bv8>>, g: nat, i: nat, on: bool)
    requires geo.Valid() && BitmapsFit(geo, ibm) && g < geo.ngroups && i < geo.ipg
    ensures var ibm' := ibm[g := SetBit(ibm[g], i, on)];
            && BitmapsFit(geo, ibm')
            && UsedInos(geo, ibm') == if on then UsedInos(geo, ibm) + {geo.InoBase(g) + i}
                                      else UsedInos(geo, ibm) - {geo.InoBase(g) + i}
  {
    hide Bit, SetBit;
    var ibm' := ibm[g := SetBit(ibm[g], i, on)];
    var it := geo.InoBase(g) + i;
    InodeJoin(geo, g, i);
    forall ino: nat | 1 <= ino <= geo.inodes
      ensures UsedInoBit(geo, ibm', ino) == if ino == it then on else UsedInoBit(geo, ibm, ino)
    {
      InodeSplit(geo, ino);
      if geo.GroupOfInode(ino) == g { SetBitIs(ibm[g], i, on, geo.IndexOfInode(ino)); }
    }
  }

  lemma InodeBitLength(geo: Geometry, ibm: seq<seq<bv8>>, g: nat, i: nat, on: bool)
    requires geo.Valid() && BitmapsFit(geo, ibm) && g < geo.ngroups && i < geo.ipg
    requires Bit(ibm[g], i) != on
    ensures BitmapsFit(geo, ibm[g := SetBit(ibm[g], i, on)])
    ensures |FreeInos(geo, ibm[g := SetBit(ibm[g], i, on)], g)| == |FreeInos(geo, ibm, g)| + if on then -1 else 1
  {
    hide Bit, SetBit;
    var bm := ibm[g];
    if on {
      var bm' := SetBit(bm, i, true);
      SetBitIs(bm, i, true, i);
      ClearOne(bm', geo.InoBase(g), 0, geo.ipg, i);
      forall k | 0 <= k < geo.ipg ensures Bit(SetBit(bm', i, false), k) == Bit(bm, k) {
        SetBitIs(bm', i, false, k);
        SetBitIs(bm, i, true, k);
      }
      FreeInSame(SetBit(bm', i, false), bm, geo.InoBase(g), 0, geo.ipg);
    } else {
      ClearOne(bm, geo.InoBase(g), 0, geo.ipg, i);
    }
  }

  lemma OtherInos(geo: Geometry, ibm: seq<seq<bv8>>, g: nat, bm: seq<bv8>, h: nat)
    requires geo.Valid() && BitmapsFit(geo, ibm) && g < geo.ngroups && |bm| == geo.bs
    requires h < geo.ngroups && h != g
    ensures FreeInos(geo, ibm[g := bm], h) == FreeInos(geo, ibm, h)
  {}

  lemma InodeCountsFit(geo: Geometry, d: Disk, g: nat, i: nat, on: bool)
    requires geo.Valid() && InodeCounts(geo, d) && BlockCounts(geo, d)
    requires g < geo.ngroups && i < geo.ipg && Bit(d.ibm[g], i) != on
    ensures var dn := if on then -1 else 1;
            var ibm' := d.ibm[g := SetBit(d.ibm[g], i, on)];
            && BitmapsFit(geo, ibm')
            && (d.gd[g].freeInodes + dn) % 0x1_0000 == d.gd[g].freeInodes + dn == |FreeInos(geo, ibm', g)|
            && (d.sbFreeInodes + dn) % 0x1_0000_0000 == d.sbFreeInodes + dn == SumFreeInos(geo, ibm', geo.ngroups)
            && d.gd[g].freeInodes + dn < 0x1_0000
            && d.sbFreeInodes + dn < 0x1_0000_0000
  {
    hide Bit, SetBit, FreeGroup, SumFree, FreeInos, SumFreeInos, BlockCounts;
    var bm := SetBit(d.ibm[g], i, on);
    InodeBitLength(geo, d.ibm, g, i, on);
    SumFreeInosUpdate(geo, d.ibm, g, bm, geo.ngroups);
    SumFreeInosBound(geo, d.ibm[g := bm], geo.ngroups);
  }

  /** Only the directory count could wrap. */
  lemma InodeAdjusted(geo: Geometry, d: Disk, g: nat, i: nat, on: bool, ddirs: int)
    requires geo.Valid() && InodeCounts(geo, d) && BlockCounts(geo, d)
    requires g < geo.ngroups && i < geo.ipg && Bit(d.ibm[g], i) != on
    ensures var ibm' := d.ibm[g := SetBit(d.ibm[g], i, on)];
            && BitmapsFit(geo, ibm')
            && WithInodeBit(d, g, i, on, ddirs)
            == d.(ibm := ibm',
                  gd := d.gd[g := Group(d.gd[g].freeBlocks, |FreeInos(geo, ibm', g)|, (d.gd[g].usedDirs + ddirs) % 0x1_0000)],
                  sbFreeInodes := SumFreeInos(geo, ibm', geo.ngroups))
            && |FreeInos(geo, ibm', g)| < 0x1_0000 && SumFreeInos(geo, ibm', geo.ngroups) < 0x1_0000_0000
  {
    hide Bit, SetBit, FreeGroup, SumFree, FreeInos, SumFreeInos;
    InodeCountsFit(geo, d, g, i, on);
    BlockCountsFit(geo, d, g);
  }

  lemma InodeCountsFollow(geo: Geometry, d: Disk, g: nat, i: nat, on: bool, ddirs: int)
    requires geo.Valid() && InodeCounts(geo, d) && BlockCounts(geo, d)
    requires g < geo.ngroups && i < geo.ipg && Bit(d.ibm[g], i) != on
    ensures var d' := WithInodeBit(d, g, i, on, ddirs);
            && InodeCounts(geo, d') && BlockCounts(geo, d')
            && d'.bbm == d.bbm && d'.sbFreeBlocks == d.sbFreeBlocks
            && d'.gd == d.gd[g := d.gd[g].(freeInodes := d'.gd[g].freeInodes,
                                            usedDirs := (d.gd[g].usedDirs + ddirs) % 0x1_0000)]
  {
    assert i < 8 * geo.bs;
    InodeAdjusted(geo, d, g, i, on, ddirs);
    hide Bit, SetBit, Geometry.Valid, FreeGroup, SumFree, FreeInos, SumFreeInos, WithInodeBit;
    forall h | 0 <= h < geo.ngroups && h != g
      ensures FreeInos(geo, d.ibm[g := SetBit(d.ibm[g], i, on)], h) == FreeInos(geo, d.ibm, h)
    {
      OtherInos(geo, d.ibm, g, SetBit(d.ibm[g], i, on), h);
    }
  }

  lemma BlockCountsFit(geo: Geometry, d: Disk, g: nat)
    requires geo.Valid() && BlockCounts(geo, d) && g < geo.ngroups
    ensures d.gd[g].freeBlocks < 0x1_0000 && d.sbFreeBlocks < 0x1_0000_0000
  {
    hide FreeGroup, SumFree;
    LimitPositive(geo, g);
    SumFreeBound(geo, d.bbm, geo.ngroups);
  }

  predicate Eligible(geo: Geometry, bm: seq<bv8>, g: nat, i: nat)
    requires i < 8 * |bm|
  {
    !Bit(bm, i) && geo.firstIno <= geo.InoBase(g) + i
  }

  /** The inner scan of alloc-inode!: the least eligible bit, or ipg. */
  method ScanInodes(geo: Geometry, bm: seq<bv8>, g: nat) returns (i: nat)
    requires geo.ipg <= 8 * |bm|
    ensures i <= geo.ipg
    ensures i < geo.ipg ==> Eligible(geo, bm, g, i)
    ensures forall j :: 0 <= j < i ==> !Eligible(geo, bm, g, j)
  {
    hide Bit;
    i := 0;
    while i < geo.ipg && (Bit(bm, i) || 1 + i + g * geo.ipg < geo.firstIno)
      invariant i <= geo.ipg
      invariant forall j :: 0 <= j < i ==> !Eligible(geo, bm, g, j)
    {
      i := i + 1;
    }
  }

  ghost predicate NoneIn(geo: Geometry, ibm: seq<seq<bv8>>, g: nat)
    requires geo.Valid() && BitmapsFit(geo, ibm) && g < geo.ngroups
  {
    forall i :: 0 <= i < geo.ipg ==> !Eligible(geo, ibm[g], g, i)
  }

  /** ino is the least eligible inode of the k-th group visited, and the groups
      before it have none. */
  ghost predicate FoundAt(geo: Geometry, ibm: seq<seq<bv8>>, goal: nat, k: nat, ino: nat)
    requires geo.Valid() && BitmapsFit(geo, ibm) && k < geo.ngroups && 1 <= ino <= geo.inodes
  {
    InodeSplit(geo, ino);
    var g := Visit(geo, goal, k);
    && geo.GroupOfInode(ino) == g
    && (forall m :: 0 <= m < k ==> NoneIn(geo, ibm, Visit(geo, goal, m)))
    && (forall j :: 0 <= j < geo.IndexOfInode(ino) ==> !Eligible(geo, ibm[g], g, j))
  }

  /** Every other inode that could have been taken is in a group farther from the goal, or
      later in the same one. */
  lemma FoundNearest(geo: Geometry, ibm: seq<seq<bv8>>, goal: nat, k: nat, ino: nat, j: nat)
    requires geo.Valid() && BitmapsFit(geo, ibm) && goal < geo.ngroups && k < geo.ngroups && 1 <= ino <= geo.inodes
    requires FoundAt(geo, ibm, goal, k, ino)
    requires geo.firstIno <= j <= geo.inodes && j !in UsedInos(geo, ibm)
    ensures var near, far := Distance(geo, goal, geo.GroupOfInode(ino)), Distance(geo, goal, geo.GroupOfInode(j));
            near < far || (near == far && ino <= j)
  {
    hide Visit, Bit;
    InodeSplit(geo, ino);
    InodeSplit(geo, j);
    VisitDistance(geo, goal, k);
    var g, i := geo.GroupOfInode(j), geo.IndexOfInode(j);
    assert Eligible(geo, ibm[g], g, i);
    DistanceVisit(geo, goal, g);
  }

  lemma DistanceVisit(geo: Geometry, goal: nat, g: nat)
    requires goal < geo.ngroups && g < geo.ngroups
    ensures 0 <= Distance(geo, goal, g) < geo.ngroups && Visit(geo, goal, Distance(geo, goal, g)) == g
  {
    ModOnce(goal + Distance(geo, goal, g), geo.ngroups);
  }

  /** A free inode number, marked used: the least one of the first group, from
      goal on, that has any. */
  method AllocInode(fs: Volume, goal: nat, dir: bool) returns (r: Result<nat>)
    requires fs.geo.Valid() && InodeCounts(fs.geo, fs.disk) && BlockCounts(fs.geo, fs.disk)
    requires goal < fs.geo.ngroups
    modifies fs
    ensures r.Err? ==> fs.disk == old(fs.disk) && r.reason == NoFreeInodes
    ensures r.Err? ==> forall m :: 0 <= m < fs.geo.ngroups ==> NoneIn(fs.geo, fs.disk.ibm, Visit(fs.geo, goal, m))
    ensures r.Ok? ==>
      && fs.geo.firstIno <= r.value <= fs.geo.inodes
      && r.value !in UsedInos(fs.geo, old(fs.disk.ibm))
      && InodeCounts(fs.geo, fs.disk) && BlockCounts(fs.geo, fs.disk)
      && UsedInos(fs.geo, fs.disk.ibm) == UsedInos(fs.geo, old(fs.disk.ibm)) + {r.value}
      && InodeMoved(fs.geo, old(fs.disk), fs.disk, r.value, if dir then 1 else 0)
    ensures r.Ok? ==>
      exists k :: 0 <= k < fs.geo.ngroups && FoundAt(fs.geo, old(fs.disk.ibm), goal, k, r.value)
  {
    assert fs.geo.ipg <= 8 * fs.geo.bs && |fs.disk.ibm| == fs.geo.ngroups == |fs.disk.gd|;
    assert forall g :: 0 <= g < |fs.disk.ibm| ==> |fs.disk.ibm[g]| == fs.geo.bs;
    hide *;
    var geo := fs.geo;
    ghost var d := fs.disk;
    var k := 0;
    while k < geo.ngroups
      invariant 0 <= k <= geo.ngroups && fs.disk == d
      invariant forall m :: 0 <= m < k ==> NoneIn(geo, d.ibm, Visit(geo, goal, m))
    {
      var g := Visit(geo, goal, k);
      var bm := fs.disk.ibm[g];
      var i := ScanInodes(geo, bm, g);
      if i < geo.ipg {
        var ino := geo.InoBase(g) + i;
        FoundHere(geo, d.ibm, goal, k, i);
        fs.disk := fs.disk.(ibm := fs.disk.ibm[g := SetBit(bm, i, true)]);
        AdjustCounts(fs, g, 0, -1, if dir then 1 else 0);
        InodeBitSet(geo, d, g, i, true, if dir then 1 else 0);
        return Ok(ino);
      }
      NoneHere(geo, d.ibm, g);
      k := k + 1;
    }
    return Err(NoFreeInodes);
  }

  lemma NoneHere(geo: Geometry, ibm: seq<seq<bv8>>, g: nat)
    requires geo.Valid() && BitmapsFit(geo, ibm) && g < geo.ngroups
    requires forall j :: 0 <= j < geo.ipg ==> !Eligible(geo, ibm[g], g, j)
    ensures NoneIn(geo, ibm, g)
  {}

  lemma FoundHere(geo: Geometry, ibm: seq<seq<bv8>>, goal: nat, k: nat, i: nat)
    requires geo.Valid() && BitmapsFit(geo, ibm) && goal < geo.ngroups && k < geo.ngroups
    requires i < geo.ipg && Eligible(geo, ibm[Visit(geo, goal, k)], Visit(geo, goal, k), i)
    requires forall m :: 0 <= m < k ==> NoneIn(geo, ibm, Visit(geo, goal, m))
    requires forall j :: 0 <= j < i ==> !Eligible(geo, ibm[Visit(geo, goal, k)], Visit(geo, goal, k), j)
    ensures var ino := geo.InoBase(Visit(geo, goal, k)) + i;
            && geo.firstIno <= ino <= geo.inodes
            && !Bit(ibm[Visit(geo, goal, k)], i)
            && FoundAt(geo, ibm, goal, k, ino)
  {
    hide Bit, Visit;
    InodeJoin(geo, Visit(geo, goal, k), i);
  }

  /** What allocating or freeing inode ino leaves alone, and the directory
      count it changes. */
  ghost predicate InodeMoved(geo: Geometry, d: Disk, d': Disk, ino: nat, ddirs: int)
    requires geo.Valid() && 1 <= ino
  {
    && d' == d.(ibm := d'.ibm, gd := d'.gd, sbFreeInodes := d'.sbFreeInodes)
    && |d'.gd| == |d.gd|
    && forall g :: 0 <= g < |d.gd| ==>
         d'.gd[g].usedDirs == if g == geo.GroupOfInode(ino) then (d.gd[g].usedDirs + ddirs) % 0x1_0000
                              else d.gd[g].usedDirs
  }

  lemma InodeBitSet(geo: Geometry, d: Disk, g: nat, i: nat, on: bool, ddirs: int)
    requires geo.Valid() && InodeCounts(geo, d) && BlockCounts(geo, d)
    requires g < geo.ngroups && i < geo.ipg && Bit(d.ibm[g], i) != on
    ensures var ino, d' := geo.InoBase(g) + i, WithInodeBit(d, g, i, on, ddirs);
            && 1 <= ino <= geo.inodes && geo.GroupOfInode(ino) == g && geo.IndexOfInode(ino) == i
            && InodeCounts(geo, d') && BlockCounts(geo, d')
            && (ino in UsedInos(geo, d.ibm) <==> !on)
            && UsedInos(geo, d'.ibm) == (if on then UsedInos(geo, d.ibm) + {ino} else UsedInos(geo, d.ibm) - {ino})
            && InodeMoved(geo, d, d', ino, ddirs)
  {
    hide Bit, SetBit, FreeInos, SumFreeInos, FreeGroup, SumFree;
    InodeJoin(geo, g, i);
    InodeCountsFollow(geo, d, g, i, on, ddirs);
    InodeBitUsed(geo, d.ibm, g, i, on);
  }

  method FreeInode(fs: Volume, ino: nat, dir: bool)
    requires fs.geo.Valid() && InodeCounts(fs.geo, fs.disk) && BlockCounts(fs.geo, fs.disk)
    requires ino in UsedInos(fs.geo, fs.disk.ibm)
    modifies fs
    ensures InodeCounts(fs.geo, fs.disk) && BlockCounts(fs.geo, fs.disk)
    ensures UsedInos(fs.geo, fs.disk.ibm) == UsedInos(fs.geo, old(fs.disk.ibm)) - {ino}
    ensures InodeMoved(fs.geo, old(fs.disk), fs.disk, ino, if dir then -1 else 0)
  {
    hide Bit, SetBit, FreeInos, SumFreeInos, FreeGroup, SumFree, BlockCounts;
    var geo := fs.geo;
    ghost var d := fs.disk;
    InodeSplit(geo, ino);
    var g, i := (ino - 1) / geo.ipg, (ino - 1) % geo.ipg;
    fs.disk := fs.disk.(ibm := fs.disk.ibm[g := SetBit(fs.disk.ibm[g], i, false)]);
    AdjustCounts(fs, g, 0, 1, if dir then -1 else 0);
    InodeBitSet(geo, d, g, i, false, if dir then -1 else 0);
  }
}
