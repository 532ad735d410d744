/** Free counts in the group descriptors and the superblock, and the block
    allocator that keeps them (lib/ext2.beer:398-455). */
module Ext2Alloc {
  import opened Seqs
  import opened Ext2Disk
  import opened Ext2Bitmap

  // ---- what the bitmaps say ----

  ghost predicate BitmapsFit(geo: Geometry, bbm: seq<seq<bv8>>) {
    && |bbm| == geo.ngroups
    && forall g :: 0 <= g < |bbm| ==> |bbm[g]| == geo.bs
  }

  predicate UsedBit(geo: Geometry, bbm: seq<seq<bv8>>, b: nat)
    requires geo.Valid() && BitmapsFit(geo, bbm)
    requires geo.fdb <= b < geo.blocks
  {
    BlockSplit(geo, b);
    Bit(bbm[geo.GroupOf(b)], geo.IndexOf(b))
  }

  /** The blocks the bitmaps mark used. */
  ghost function Used(geo: Geometry, bbm: seq<seq<bv8>>): set<nat>
    requires geo.Valid() && BitmapsFit(geo, bbm)
  {
    set b: nat | geo.fdb <= b < geo.blocks && UsedBit(geo, bbm, b)
  }

  /** Free blocks of group g, by a bit-by-bit scan. */
  function FreeGroup(geo: Geometry, bbm: seq<seq<bv8>>, g: nat): (r: seq<nat>)
    requires geo.Valid() && BitmapsFit(geo, bbm) && g < geo.ngroups
    ensures |r| <= geo.Limit(g)
  {
    LimitPositive(geo, g);
    FreeIn(bbm[g], geo.Base(g), 0, geo.Limit(g))
  }

  lemma FreeGroupMember(geo: Geometry, bbm: seq<seq<bv8>>, g: nat, b: nat)
    requires geo.Valid() && BitmapsFit(geo, bbm) && g < geo.ngroups
    ensures b in FreeGroup(geo, bbm, g)
       <==> geo.fdb <= b < geo.blocks && geo.GroupOf(b) == g && b !in Used(geo, bbm)
  {
    hide Bit, FreeIn;
    LimitPositive(geo, g);
    FreeInMember(bbm[g], geo.Base(g), 0, geo.Limit(g), b);
    if geo.Base(g) <= b < geo.Base(g) + geo.Limit(g) {
      BlockJoin(geo, g, b - geo.Base(g));
    } else if geo.fdb <= b < geo.blocks {
      BlockSplit(geo, b);
    }
  }

  function SumFree(geo: Geometry, bbm: seq<seq<bv8>>, n: nat): nat
    requires geo.Valid() && BitmapsFit(geo, bbm) && n <= geo.ngroups
  {
    if n == 0 then 0 else SumFree(geo, bbm, n - 1) + |FreeGroup(geo, bbm, n - 1)|
  }

  lemma {:induction false} SumFreeBound(geo: Geometry, bbm: seq<seq<bv8>>, n: nat)
    requires geo.Valid() && BitmapsFit(geo, bbm) && n <= geo.ngroups
    ensures SumFree(geo, bbm, n) <= n * geo.bpg
    ensures SumFree(geo, bbm, n) <= geo.blocks - geo.fdb
  {
    hide FreeGroup;
    if n > 0 {
      SumFreeBound(geo, bbm, n - 1);
      LimitPositive(geo, n - 1);
      assert n * geo.bpg == (n - 1) * geo.bpg + geo.bpg;
    }
  }

  /** Group counts and the superblock total agree with the block bitmaps, and
      the other counts fit their fields. */
  ghost predicate BlockCounts(geo: Geometry, d: Disk)
    requires geo.Valid()
  {
    && BitmapsFit(geo, d.bbm) && |d.gd| == geo.ngroups
    && (forall g :: 0 <= g < geo.ngroups ==>
          && d.gd[g].freeBlocks == |FreeGroup(geo, d.bbm, g)|
          && d.gd[g].freeInodes < 0x1_0000 && d.gd[g].usedDirs < 0x1_0000)
    && d.sbFreeBlocks == SumFree(geo, d.bbm, geo.ngroups)
    && d.sbFreeInodes < 0x1_0000_0000
  }

  // ---- adjust-counts! ----

  function Adjusted(d: Disk, g: nat, dblocks: int, dinodes: int, ddirs: int): Disk
    requires g < |d.gd|
  {
    var c := d.gd[g];
    d.(gd := d.gd[g := Group((c.freeBlocks + dblocks) % 0x1_0000,
                             (c.freeInodes + dinodes) % 0x1_0000,
                             (c.usedDirs + ddirs) % 0x1_0000)],
       sbFreeBlocks := (d.sbFreeBlocks + dblocks) % 0x1_0000_0000,
       sbFreeInodes := (d.sbFreeInodes + dinodes) % 0x1_0000_0000)
  }

  method AdjustCounts(fs: Volume, g: nat, dblocks: int, dinodes: int, ddirs: int)
    requires g < |fs.disk.gd|
    modifies fs
    ensures fs.disk == Adjusted(old(fs.disk), g, dblocks, dinodes, ddirs)
  {
    var c := fs.disk.gd[g];
    fs.disk := fs.disk.(gd := fs.disk.gd[g := Group((c.freeBlocks + dblocks) % 0x1_0000,
                                                    (c.freeInodes + dinodes) % 0x1_0000,
                                                    (c.usedDirs + ddirs) % 0x1_0000)]);
    fs.disk := fs.disk.(sbFreeBlocks := (fs.disk.sbFreeBlocks + dblocks) % 0x1_0000_0000,
                        sbFreeInodes := (fs.disk.sbFreeInodes + dinodes) % 0x1_0000_0000);
  }

  /** A disk with another bitmap for group g, and its counts adjusted. */
  function WithBitmap(d: Disk, g: nat, bm: seq<bv8>, dblocks: int): Disk
    requires g < |d.gd| && g < |d.bbm|
  {
    Adjusted(d.(bbm := d.bbm[g := bm]), g, dblocks, 0, 0)
  }

  lemma {:induction false} SumFreeUpdate(geo: Geometry, bbm: seq<seq<bv8>>, g: nat, bm: seq<bv8>, n: nat)
    requires geo.Valid() && BitmapsFit(geo, bbm) && g < geo.ngroups && n <= geo.ngroups && |bm| == geo.bs
    ensures BitmapsFit(geo, bbm[g := bm])
    ensures SumFree(geo, bbm[g := bm], n) == SumFree(geo, bbm, n) +
      if g < n then |FreeGroup(geo, bbm[g := bm], g)| - |FreeGroup(geo, bbm, g)| else 0
  {
    if n > 0 { SumFreeUpdate(geo, bbm, g, bm, n - 1); }
  }

  lemma OtherGroup(geo: Geometry, bbm: seq<seq<bv8>>, g: nat, bm: seq<bv8>, h: nat)
    requires geo.Valid() && BitmapsFit(geo, bbm) && g < geo.ngroups && |bm| == geo.bs
    requires h < geo.ngroups && h != g
    ensures FreeGroup(geo, bbm[g := bm], h) == FreeGroup(geo, bbm, h)
  {}

  /** No count field wraps when it follows its bitmap. */
  lemma CountsFit(geo: Geometry, d: Disk, g: nat, bm: seq<bv8>, delta: int)
    requires geo.Valid() && BlockCounts(geo, d)
    requires g < geo.ngroups && |bm| == geo.bs
    requires delta == |FreeGroup(geo, d.bbm[g := bm], g)| - |FreeGroup(geo, d.bbm, g)|
    ensures 0 <= d.gd[g].freeBlocks + delta < 0x1_0000
    ensures d.sbFreeBlocks + delta == SumFree(geo, d.bbm[g := bm], geo.ngroups)
    ensures 0 <= d.sbFreeBlocks + delta < 0x1_0000_0000
  {
    hide FreeGroup, SumFree;
    SumFreeUpdate(geo, d.bbm, g, bm, geo.ngroups);
    SumFreeBound(geo, d.bbm[g := bm], geo.ngroups);
    LimitPositive(geo, g);
  }

  /** The counts follow a bitmap change when they are adjusted by the
      difference. */
  lemma CountsFollow(geo: Geometry, d: Disk, g: nat, bm: seq<bv8>, delta: int)
    requires geo.Valid() && BlockCounts(geo, d)
    requires g < geo.ngroups && |bm| == geo.bs
    requires delta == |FreeGroup(geo, d.bbm[g := bm], g)| - |FreeGroup(geo, d.bbm, g)|
    ensures 0 <= d.gd[g].freeBlocks + delta && 0 <= d.sbFreeBlocks + delta
    ensures WithBitmap(d, g, bm, delta)
         == d.(bbm := d.bbm[g := bm],
               gd := d.gd[g := d.gd[g].(freeBlocks := d.gd[g].freeBlocks + delta)],
               sbFreeBlocks := d.sbFreeBlocks + delta)
    ensures BlockCounts(geo, WithBitmap(d, g, bm, delta))
  {
    hide FreeGroup, SumFree, Geometry.Valid;
    CountsFit(geo, d, g, bm, delta);
    forall h | 0 <= h < geo.ngroups && h != g
      ensures FreeGroup(geo, d.bbm[g := bm], h) == FreeGroup(geo, d.bbm, h)
    {
      OtherGroup(geo, d.bbm, g, bm, h);
    }
  }

  // ---- alloc-blocks! ----

  function Visit(geo: Geometry, goal: nat, k: nat): (g: nat)
    requires geo.ngroups > 0
    ensures g < geo.ngroups
  {
    (goal + k) % geo.ngroups
  }

  /** The free blocks of the groups not yet visited, in search order. */
  function FreeFrom(geo: Geometry, bbm: seq<seq<bv8>>, goal: nat, k: nat): seq<nat>
    requires geo.Valid() && BitmapsFit(geo, bbm) && k <= geo.ngroups && goal < geo.ngroups
    decreases geo.ngroups - k
  {
    if k == geo.ngroups then []
    else FreeGroup(geo, bbm, Visit(geo, goal, k)) + FreeFrom(geo, bbm, goal, k + 1)
  }

  lemma VisitDistinct(geo: Geometry, goal: nat, k: nat, m: nat)
    requires goal < geo.ngroups && k < m < geo.ngroups
    ensures Visit(geo, goal, k) != Visit(geo, goal, m)
  {
    assert Visit(geo, goal, k) == if goal + k < geo.ngroups then goal + k else goal + k - geo.ngroups by {
      ModOnce(goal + k, geo.ngroups);
    }
    assert Visit(geo, goal, m) == if goal + m < geo.ngroups then goal + m else goal + m - geo.ngroups by {
      ModOnce(goal + m, geo.ngroups);
    }
  }

  lemma ModOnce(n: nat, d: nat)
    requires n < 2 * d
    ensures n % d == if n < d then n else n - d
  {
    DivUnique(n, d, if n < d then 0 else 1, if n < d then n else n - d);
  }

  lemma {:induction false} FreeFromMember(geo: Geometry, bbm: seq<seq<bv8>>, goal: nat, k: nat, b: nat)
    requires geo.Valid() && BitmapsFit(geo, bbm) && k <= geo.ngroups && goal < geo.ngroups
    ensures b in FreeFrom(geo, bbm, goal, k) ==> geo.fdb <= b < geo.blocks && b !in Used(geo, bbm)
    ensures b in FreeFrom(geo, bbm, goal, k) <==>
            exists m :: k <= m < geo.ngroups && b in FreeGroup(geo, bbm, Visit(geo, goal, m))
    decreases geo.ngroups - k
  {
    hide FreeGroup, Visit, Used, Geometry.Valid;
    if k < geo.ngroups {
      FreeFromMember(geo, bbm, goal, k + 1, b);
      FreeGroupMember(geo, bbm, Visit(geo, goal, k), b);
    }
  }

  /** Every free block is found, whatever the starting group. */
  lemma FreeFromComplete(geo: Geometry, bbm: seq<seq<bv8>>, goal: nat, b: nat)
    requires geo.Valid() && BitmapsFit(geo, bbm) && goal < geo.ngroups
    ensures b in FreeFrom(geo, bbm, goal, 0) <==> geo.fdb <= b < geo.blocks && b !in Used(geo, bbm)
  {
    FreeFromMember(geo, bbm, goal, 0, b);
    if geo.fdb <= b < geo.blocks && b !in Used(geo, bbm) {
      BlockSplit(geo, b);
      var g := geo.GroupOf(b);
      FreeGroupMember(geo, bbm, g, b);
      var m := if goal <= g then g - goal else g + geo.ngroups - goal;
      ModOnce(goal + m, geo.ngroups);
      assert Visit(geo, goal, m) == g;
    }
  }

  /** How many groups on from the goal, past the last to the first. */
  function Distance(geo: Geometry, goal: nat, g: nat): int { if goal <= g then g - goal else g + geo.ngroups - goal }

  lemma VisitDistance(geo: Geometry, goal: nat, k: nat)
    requires goal < geo.ngroups && k < geo.ngroups
    ensures Distance(geo, goal, Visit(geo, goal, k)) == k
  {
    ModOnce(goal + k, geo.ngroups);
  }

  /** Block a's group is nearer to the goal than b's, or a is before b in the same one. */
  predicate Sooner(geo: Geometry, goal: nat, a: nat, b: nat)
    requires geo.Valid() && geo.fdb <= a && geo.fdb <= b
  {
    var i, j := Distance(geo, goal, geo.GroupOf(a)), Distance(geo, goal, geo.GroupOf(b));
    i < j || (i == j && a < b)
  }

  lemma {:induction false} FreeFromFarther(geo: Geometry, bbm: seq<seq<bv8>>, goal: nat, k: nat, b: nat)
    requires geo.Valid() && BitmapsFit(geo, bbm) && k <= geo.ngroups && goal < geo.ngroups && b in FreeFrom(geo, bbm, goal, k)
    ensures geo.fdb <= b && k <= Distance(geo, goal, geo.GroupOf(b))
    decreases geo.ngroups - k
  {
    hide FreeGroup, Visit, Used, Geometry.Valid, Distance;
    if k < geo.ngroups {
      if b in FreeGroup(geo, bbm, Visit(geo, goal, k)) {
        FreeGroupMember(geo, bbm, Visit(geo, goal, k), b);
        VisitDistance(geo, goal, k);
      } else {
        FreeFromFarther(geo, bbm, goal, k + 1, b);
      }
    }
  }

  /** The search order: the goal's group first, then the following ones around to it, and in
      each group the lower numbers first. */
  lemma {:induction false} FreeFromOrder(geo: Geometry, bbm: seq<seq<bv8>>, goal: nat, k: nat, i: nat, j: nat)
    requires geo.Valid() && BitmapsFit(geo, bbm) && k <= geo.ngroups && goal < geo.ngroups
    requires i < j < |FreeFrom(geo, bbm, goal, k)|
    ensures var s := FreeFrom(geo, bbm, goal, k); geo.fdb <= s[i] && geo.fdb <= s[j] && Sooner(geo, goal, s[i], s[j])
    decreases geo.ngroups - k
  {
    hide FreeGroup, Visit, Used, Geometry.Valid, Distance;
    if k < geo.ngroups {
      var here, rest := FreeGroup(geo, bbm, Visit(geo, goal, k)), FreeFrom(geo, bbm, goal, k + 1);
      if i >= |here| {
        FreeFromOrder(geo, bbm, goal, k + 1, i - |here|, j - |here|);
      } else {
        assert here[i] in here;
        FreeGroupMember(geo, bbm, Visit(geo, goal, k), here[i]);
        VisitDistance(geo, goal, k);
        if j < |here| {
          assert here[j] in here;
          FreeGroupMember(geo, bbm, Visit(geo, goal, k), here[j]);
          FreeGroupAscends(geo, bbm, Visit(geo, goal, k), i, j);
        } else {
          assert rest[j - |here|] in rest;
          FreeFromFarther(geo, bbm, goal, k + 1, rest[j - |here|]);
        }
      }
    }
  }

  lemma FreeGroupAscends(geo: Geometry, bbm: seq<seq<bv8>>, g: nat, i: nat, j: nat)
    requires geo.Valid() && BitmapsFit(geo, bbm) && g < geo.ngroups && i < j < |FreeGroup(geo, bbm, g)|
    ensures FreeGroup(geo, bbm, g)[i] < FreeGroup(geo, bbm, g)[j]
  {
    hide FreeIn;
    LimitPositive(geo, g);
    FreeInAscends(bbm[g], geo.Base(g), 0, geo.Limit(g), i, j);
  }

  lemma {:induction false} FreeFromNoDup(geo: Geometry, bbm: seq<seq<bv8>>, goal: nat, k: nat)
    requires geo.Valid() && BitmapsFit(geo, bbm) && k <= geo.ngroups && goal < geo.ngroups
    ensures NoDup(FreeFrom(geo, bbm, goal, k))
    decreases geo.ngroups - k
  {
    hide Visit, Used, Geometry.Valid, FreeGroup;
    if k < geo.ngroups {
      var g := Visit(geo, goal, k);
      FreeFromNoDup(geo, bbm, goal, k + 1);
      assert NoDup(FreeGroup(geo, bbm, g)) by { FreeGroupNoDup(geo, bbm, g); }
      forall b | b in FreeGroup(geo, bbm, g) ensures b !in FreeFrom(geo, bbm, goal, k + 1) {
        FreeFromMember(geo, bbm, goal, k + 1, b);
        if b in FreeFrom(geo, bbm, goal, k + 1) {
          var m :| k + 1 <= m < geo.ngroups && b in FreeGroup(geo, bbm, Visit(geo, goal, m));
          VisitDistinct(geo, goal, k, m);
          FreeGroupMember(geo, bbm, g, b);
          FreeGroupMember(geo, bbm, Visit(geo, goal, m), b);
        }
      }
      NoDupConcat(FreeGroup(geo, bbm, g), FreeFrom(geo, bbm, goal, k + 1));
    }
  }

  lemma FreeGroupNoDup(geo: Geometry, bbm: seq<seq<bv8>>, g: nat)
    requires geo.Valid() && BitmapsFit(geo, bbm) && g < geo.ngroups
    ensures NoDup(FreeGroup(geo, bbm, g))
  {
    LimitPositive(geo, g);
    FreeInNoDup(bbm[g], geo.Base(g), 0, geo.Limit(g));
  }

  /** Only block bitmaps and block counts differ. */
  ghost predicate OnlyBlockBits(d: Disk, d': Disk) {
    && d' == d.(bbm := d'.bbm, gd := d'.gd, sbFreeBlocks := d'.sbFreeBlocks)
    && |d'.gd| == |d.gd|
    && forall g :: 0 <= g < |d.gd| ==> d'.gd[g] == d.gd[g].(freeBlocks := d'.gd[g].freeBlocks)
  }

  /** The bits of the blocks in s are now `on`; no other bit changed. */
  ghost predicate BitsNow(geo: Geometry, bbm: seq<seq<bv8>>, bbm': seq<seq<bv8>>, s: set<nat>, on: bool) {
    && |bbm'| == |bbm|
    && (forall g :: 0 <= g < |bbm| ==> |bbm'[g]| == |bbm[g]|)
    && forall g, i :: 0 <= g < |bbm| && 0 <= i < 8 * |bbm[g]| ==>
         Bit(bbm'[g], i) == if i < geo.Limit(g) && geo.Base(g) + i in s then on else Bit(bbm[g], i)
  }

  lemma BitsNowUsed(geo: Geometry, bbm: seq<seq<bv8>>, bbm': seq<seq<bv8>>, s: set<nat>, on: bool)
    requires geo.Valid() && BitmapsFit(geo, bbm) && BitsNow(geo, bbm, bbm', s, on)
    requires forall b :: b in s ==> geo.fdb <= b < geo.blocks
    ensures BitmapsFit(geo, bbm')
    ensures Used(geo, bbm') == if on then Used(geo, bbm) + s else Used(geo, bbm) - s
  {
    hide Bit;
    forall b: nat | geo.fdb <= b < geo.blocks
      ensures UsedBit(geo, bbm', b) == if b in s then on else UsedBit(geo, bbm, b)
    {
      BlockSplit(geo, b);
      LimitPositive(geo, geo.GroupOf(b));
    }
  }

  /** One group's bitmap written back after its bits in s changed. */
  lemma BitsNowGroup(geo: Geometry, bbm: seq<seq<bv8>>, g: nat, bm: seq<bv8>, s: set<nat>, on: bool)
    requires geo.Valid() && BitmapsFit(geo, bbm) && g < geo.ngroups && |bm| == |bbm[g]|
    requires forall b :: b in s ==> geo.fdb <= b < geo.blocks && geo.GroupOf(b) == g
    requires forall i :: 0 <= i < 8 * |bm| ==> Bit(bm, i) == if geo.Base(g) + i in s then on else Bit(bbm[g], i)
    ensures BitsNow(geo, bbm, bbm[g := bm], s, on)
  {
    hide Bit, Geometry.Valid, Geometry.GroupOf;
    var bbm' := bbm[g := bm];
    forall h, i | 0 <= h < |bbm| && 0 <= i < 8 * |bbm[h]|
      ensures Bit(bbm'[h], i) == if i < geo.Limit(h) && geo.Base(h) + i in s then on else Bit(bbm[h], i)
    {
      if i < geo.Limit(h) {
        BlockJoin(geo, h, i);
      } else if h == g && geo.Base(g) + i in s {
        BlockSplit(geo, geo.Base(g) + i);
      }
    }
  }

  lemma BitsNowAgain(geo: Geometry, bbm: seq<seq<bv8>>, bbm1: seq<seq<bv8>>, bbm2: seq<seq<bv8>>,
                     s: set<nat>, t: set<nat>, on: bool)
    requires BitsNow(geo, bbm, bbm1, s, on) && BitsNow(geo, bbm1, bbm2, t, on)
    ensures BitsNow(geo, bbm, bbm2, s + t, on)
  {
    hide Bit;
  }

  /** Setting clear bits and clearing them again gives back the same bytes. */
  lemma BitsUndone(geo: Geometry, bbm: seq<seq<bv8>>, bbm1: seq<seq<bv8>>, bbm2: seq<seq<bv8>>, s: set<nat>)
    requires geo.Valid() && BitmapsFit(geo, bbm)
    requires BitsNow(geo, bbm, bbm1, s, true) && BitsNow(geo, bbm1, bbm2, s, false)
    requires forall b :: b in s ==> b !in Used(geo, bbm)
    ensures bbm2 == bbm
  {
    hide Bit;
    forall g | 0 <= g < |bbm| ensures bbm2[g] == bbm[g] {
      forall i | 0 <= i < 8 * |bbm[g]| ensures Bit(bbm2[g], i) == Bit(bbm[g], i) {
        if i < geo.Limit(g) && geo.Base(g) + i in s {
          BlockJoin(geo, g, i);
          assert UsedBit(geo, bbm, geo.Base(g) + i) == Bit(bbm[g], i);
        }
      }
      SameBits(bbm2[g], bbm[g]);
    }
  }

  /** The counts are determined by the bitmaps. */
  lemma SameCounts(geo: Geometry, d: Disk, d': Disk)
    requires geo.Valid() && BlockCounts(geo, d) && BlockCounts(geo, d')
    requires OnlyBlockBits(d, d') && d'.bbm == d.bbm
    ensures d' == d
  {
    hide FreeGroup, SumFree;
    assert d'.gd == d.gd;
  }

  // ---- free-blocks! ----

  predicate NotHole(b: nat) { b != 0 }

  function InGroup(geo: Geometry, g: nat): nat -> bool
    requires geo.bpg > 0
  {
    (b: nat) => b != 0 && geo.fdb <= b && geo.GroupOf(b) == g
  }

  ghost predicate Freeable(geo: Geometry, bbm: seq<seq<bv8>>, blocks: seq<nat>)
    requires geo.Valid() && BitmapsFit(geo, bbm)
  {
    && NoDup(Filter(blocks, NotHole))
    && forall b :: b in blocks && NotHole(b) ==> b in Used(geo, bbm)
  }

  /** Clear the bits of bs, all in one group, and raise its count. */
  method FreeInGroup(fs: Volume, g: nat, bs: seq<nat>)
    requires fs.geo.Valid() && BlockCounts(fs.geo, fs.disk) && g < fs.geo.ngroups
    requires NoDup(bs)
    requires forall b :: b in bs ==> b in Used(fs.geo, fs.disk.bbm) && fs.geo.GroupOf(b) == g
    modifies fs
    ensures BlockCounts(fs.geo, fs.disk) && OnlyBlockBits(old(fs.disk), fs.disk)
    ensures BitsNow(fs.geo, old(fs.disk.bbm), fs.disk.bbm, ToSet(bs), false)
  {
    hide Bit, SetBit, Used, FreeIn;
    var geo := fs.geo;
    ghost var d := fs.disk;
    var bm := fs.disk.bbm[g];
    LimitPositive(geo, g);
    var j := 0;
    while j < |bs|
      invariant 0 <= j <= |bs| && |bm| == geo.bs && fs.disk == d
      invariant |FreeIn(bm, geo.Base(g), 0, geo.Limit(g))| == |FreeGroup(geo, d.bbm, g)| + j
      invariant forall i :: 0 <= i < 8 * |bm| ==> Bit(bm, i) == (Bit(d.bbm[g], i) && geo.Base(g) + i !in bs[..j])
    {
      var b := bs[j];
      UsedInGroup(geo, d.bbm, g, b);
      var k := b - geo.Base(g);
      assert bs[..j + 1] == bs[..j] + [b];
      assert Bit(bm, k);
      ClearOne(bm, geo.Base(g), 0, geo.Limit(g), k);
      forall i | 0 <= i < 8 * |bm| ensures Bit(SetBit(bm, k, false), i) == (Bit(bm, i) && i != k) {
        SetBitIs(bm, k, false, i);
      }
      bm := SetBit(bm, k, false);
      j := j + 1;
    }
    assert bs[..|bs|] == bs;
    fs.disk := fs.disk.(bbm := fs.disk.bbm[g := bm]);
    AdjustCounts(fs, g, |bs|, 0, 0);
    CountsFollow(geo, d, g, bm, |bs|);
    forall b | b in bs ensures geo.fdb <= b < geo.blocks { UsedInGroup(geo, d.bbm, g, b); }
    BitsNowGroup(geo, d.bbm, g, bm, ToSet(bs), false);
  }

  lemma UsedInGroup(geo: Geometry, bbm: seq<seq<bv8>>, g: nat, b: nat)
    requires geo.Valid() && BitmapsFit(geo, bbm) && g < geo.ngroups
    requires b in Used(geo, bbm) && geo.GroupOf(b) == g
    ensures geo.fdb <= b < geo.blocks
    ensures geo.Base(g) <= b && b - geo.Base(g) < geo.Limit(g) <= 8 * geo.bs && Bit(bbm[g], b - geo.Base(g))
  {
    hide Bit;
    BlockSplit(geo, b);
    LimitPositive(geo, g);
  }

  function GroupsOf(geo: Geometry, bs: seq<nat>): set<nat>
    requires geo.bpg > 0 && forall b :: b in bs ==> geo.fdb <= b
  {
    set b | b in bs :: geo.GroupOf(b)
  }

  ghost predicate Freed(geo: Geometry, d: Disk, d': Disk, wanted: seq<nat>, freed: set<nat>, todo: set<nat>)
    requires geo.Valid()
  {
    && BlockCounts(geo, d') && OnlyBlockBits(d, d') && BitmapsFit(geo, d.bbm)
    && BitsNow(geo, d.bbm, d'.bbm, freed, false)
    && Used(geo, d'.bbm) == Used(geo, d.bbm) - freed
    && (forall b :: b in freed ==> b in wanted)
    && (forall b :: b in wanted ==> b in Used(geo, d.bbm) && geo.GroupOf(b) < geo.ngroups)
    && (forall b :: b in wanted ==> (b in freed <==> geo.GroupOf(b) !in todo))
    && (forall g :: g in todo ==> g < geo.ngroups)
  }

  lemma FreedStart(geo: Geometry, d: Disk, blocks: seq<nat>)
    requires geo.Valid() && BlockCounts(geo, d) && Freeable(geo, d.bbm, blocks)
    ensures forall b :: b in Filter(blocks, NotHole) ==> geo.fdb <= b
    ensures Freed(geo, d, d, Filter(blocks, NotHole), {}, GroupsOf(geo, Filter(blocks, NotHole)))
    ensures NoDup(Filter(blocks, NotHole))
  {
    hide Bit, FreeGroup, SumFree;
    var wanted := Filter(blocks, NotHole);
    forall b | b in wanted ensures geo.GroupOf(b) < geo.ngroups { BlockSplit(geo, b); }
  }

  /** The blocks of group g can be freed next. */
  lemma GroupNext(geo: Geometry, d: Disk, d': Disk, blocks: seq<nat>, freed: set<nat>, todo: set<nat>, g: nat)
    requires geo.Valid() && Freed(geo, d, d', Filter(blocks, NotHole), freed, todo)
    requires g in todo && NoDup(Filter(blocks, NotHole))
    ensures g < geo.ngroups
    ensures var bs := Filter(blocks, InGroup(geo, g));
            NoDup(bs) && forall b :: b in bs ==> b in Used(geo, d'.bbm) && geo.GroupOf(b) == g
  {
    hide Bit, BlockCounts;
    forall b | b in blocks && NotHole(b) ensures geo.fdb <= b { assert b in Filter(blocks, NotHole); }
    ThisGroup(geo, blocks, g);
  }

  lemma FreedStep(geo: Geometry, d: Disk, d1: Disk, d2: Disk, blocks: seq<nat>, freed: set<nat>, todo: set<nat>, g: nat)
    requires geo.Valid() && Freed(geo, d, d1, Filter(blocks, NotHole), freed, todo)
    requires g in todo && NoDup(Filter(blocks, NotHole))
    requires BlockCounts(geo, d2) && OnlyBlockBits(d1, d2)
    requires BitsNow(geo, d1.bbm, d2.bbm, ToSet(Filter(blocks, InGroup(geo, g))), false)
    ensures Freed(geo, d, d2, Filter(blocks, NotHole), freed + ToSet(Filter(blocks, InGroup(geo, g))), todo - {g})
  {
    hide Bit, BlockCounts, UsedBit;
    var bs := ToSet(Filter(blocks, InGroup(geo, g)));
    forall b | b in blocks && NotHole(b) ensures geo.fdb <= b { assert b in Filter(blocks, NotHole); }
    ThisGroup(geo, blocks, g);
    assert BitmapsFit(geo, d1.bbm);
    BitsNowAgain(geo, d.bbm, d1.bbm, d2.bbm, freed, bs, false);
    BitsNowUsed(geo, d1.bbm, d2.bbm, bs, false);
    OnlyBlockBitsAgain(d, d1, d2);
  }

  /** Marks blocks free again; holes (0) are skipped.  The groups are handled
      in any order. */
  method FreeBlocks(fs: Volume, blocks: seq<nat>)
    requires fs.geo.Valid() && BlockCounts(fs.geo, fs.disk)
    requires Freeable(fs.geo, fs.disk.bbm, blocks)
    modifies fs
    ensures BlockCounts(fs.geo, fs.disk) && OnlyBlockBits(old(fs.disk), fs.disk)
    ensures BitsNow(fs.geo, old(fs.disk.bbm), fs.disk.bbm, ToSet(Filter(blocks, NotHole)), false)
    ensures Used(fs.geo, fs.disk.bbm) == Used(fs.geo, old(fs.disk.bbm)) - ToSet(Filter(blocks, NotHole))
  {
    assert fs.geo.bpg > 0 && forall b :: b in Filter(blocks, NotHole) ==> fs.geo.fdb <= b;
    hide *;
    var geo := fs.geo;
    ghost var d := fs.disk;
    var todo := GroupsOf(geo, Filter(blocks, NotHole));
    ghost var freed: set<nat> := {};
    FreedStart(geo, d, blocks);
    while todo != {}
      invariant Freed(geo, d, fs.disk, Filter(blocks, NotHole), freed, todo)
      decreases todo
    {
      var g: nat :| g in todo;
      ghost var d1 := fs.disk;
      var bs := Filter(blocks, InGroup(geo, g));
      GroupNext(geo, d, d1, blocks, freed, todo, g);
      FreeInGroup(fs, g, bs);
      FreedStep(geo, d, d1, fs.disk, blocks, freed, todo, g);
      freed := freed + ToSet(bs);
      todo := todo - {g};
    }
    FreedEnd(geo, d, fs.disk, Filter(blocks, NotHole), freed);
  }

  lemma FreedEnd(geo: Geometry, d: Disk, d': Disk, wanted: seq<nat>, freed: set<nat>)
    requires geo.Valid() && Freed(geo, d, d', wanted, freed, {})
    ensures freed == ToSet(wanted)
    ensures BlockCounts(geo, d') && OnlyBlockBits(d, d') && BitmapsFit(geo, d.bbm)
    ensures BitsNow(geo, d.bbm, d'.bbm, freed, false)
    ensures Used(geo, d'.bbm) == Used(geo, d.bbm) - freed
  {
    hide BlockCounts, OnlyBlockBits, BitsNow, UsedBit, Geometry.GroupOf;
  }

  lemma ThisGroup(geo: Geometry, blocks: seq<nat>, g: nat)
    requires geo.Valid() && NoDup(Filter(blocks, NotHole))
    requires forall b :: b in blocks && NotHole(b) ==> geo.fdb <= b
    ensures NoDup(Filter(blocks, InGroup(geo, g)))
    ensures forall b :: b in Filter(blocks, InGroup(geo, g)) <==> b in Filter(blocks, NotHole) && geo.GroupOf(b) == g
  {
    GroupIsNotHole(geo, blocks, g);
    FilterNoDup(Filter(blocks, NotHole), InGroup(geo, g));
  }

  lemma {:induction false} GroupIsNotHole(geo: Geometry, blocks: seq<nat>, g: nat)
    requires geo.bpg > 0
    ensures Filter(Filter(blocks, NotHole), InGroup(geo, g)) == Filter(blocks, InGroup(geo, g))
  {
    if blocks != [] {
      GroupIsNotHole(geo, blocks[1..], g);
      FilterConcat(if NotHole(blocks[0]) then [blocks[0]] else [], Filter(blocks[1..], NotHole), InGroup(geo, g));
    }
  }

  // ---- alloc-blocks! ----

  /** Where the search stands after k groups. */
  ghost predicate Searched(geo: Geometry, d: Disk, d': Disk, goal: nat, n: nat, k: nat, acc: seq<nat>)
    requires geo.Valid() && BlockCounts(geo, d) && goal < geo.ngroups && k <= geo.ngroups
  {
    && BlockCounts(geo, d') && OnlyBlockBits(d, d')
    && BitsNow(geo, d.bbm, d'.bbm, ToSet(acc), true)
    && |acc| <= n
    && acc <= FreeFrom(geo, d.bbm, goal, 0)
    && (|acc| < n ==> FreeFrom(geo, d.bbm, goal, 0) == acc + FreeFrom(geo, d.bbm, goal, k))
    && forall m :: k <= m < geo.ngroups ==> d'.bbm[Visit(geo, goal, m)] == d.bbm[Visit(geo, goal, m)]
  }

  /** The disk after group g gave `got`; nothing is written for none. */
  function AfterGroup(d: Disk, g: nat, bm: seq<bv8>, got: seq<nat>): Disk
    requires g < |d.gd| && g < |d.bbm|
  {
    if got == [] then d else WithBitmap(d, g, bm, -|got|)
  }

  lemma AfterGroupCounts(geo: Geometry, d: Disk, g: nat, bm: seq<bv8>, got: seq<nat>)
    requires geo.Valid() && BlockCounts(geo, d) && g < geo.ngroups && |bm| == geo.bs
    requires got <= FreeGroup(geo, d.bbm, g)
    requires FreeGroup(geo, d.bbm[g := bm], g) == FreeGroup(geo, d.bbm, g)[|got|..]
    requires forall i :: 0 <= i < 8 * |bm| ==> Bit(bm, i) == (Bit(d.bbm[g], i) || geo.Base(g) + i in got)
    ensures var d' := AfterGroup(d, g, bm, got);
            && BlockCounts(geo, d') && OnlyBlockBits(d, d')
            && d'.bbm == d.bbm[g := bm]
            && BitsNow(geo, d.bbm, d'.bbm, ToSet(got), true)
  {
    hide Bit, SumFree, Geometry.Valid, FreeGroup;
    GotFromGroup(geo, d.bbm, g, got);
    BitsNowGroup(geo, d.bbm, g, bm, ToSet(got), true);
    if got == [] {
      SameBits(bm, d.bbm[g]);
    } else {
      CountsFollow(geo, d, g, bm, -|got|);
    }
  }

  lemma SearchStep(geo: Geometry, d: Disk, d1: Disk, goal: nat, n: nat, k: nat, acc: seq<nat>, got: seq<nat>, d2: Disk)
    requires geo.Valid() && BlockCounts(geo, d) && goal < geo.ngroups && k < geo.ngroups
    requires |acc| < n && Searched(geo, d, d1, goal, n, k, acc)
    requires var free := FreeGroup(geo, d.bbm, Visit(geo, goal, k));
             got == free[..if n - |acc| < |free| then n - |acc| else |free|]
    requires BlockCounts(geo, d2) && OnlyBlockBits(d1, d2) && BitsNow(geo, d1.bbm, d2.bbm, ToSet(got), true)
    requires d2.bbm == d1.bbm[Visit(geo, goal, k) := d2.bbm[Visit(geo, goal, k)]]
    ensures Searched(geo, d, d2, goal, n, k + 1, acc + got)
  {
    hide Bit, FreeGroup, Visit, SumFree, Geometry.Valid;
    BitsNowAgain(geo, d.bbm, d1.bbm, d2.bbm, ToSet(acc), ToSet(got), true);
    assert ToSet(acc + got) == ToSet(acc) + ToSet(got);
    OnlyBlockBitsAgain(d, d1, d2);
    forall m | k + 1 <= m < geo.ngroups ensures d2.bbm[Visit(geo, goal, m)] == d.bbm[Visit(geo, goal, m)] {
      VisitDistinct(geo, goal, k, m);
    }
    var free := FreeGroup(geo, d.bbm, Visit(geo, goal, k));
    assert FreeFrom(geo, d.bbm, goal, k) == free + FreeFrom(geo, d.bbm, goal, k + 1);
    assert acc + (free + FreeFrom(geo, d.bbm, goal, k + 1)) == (acc + free) + FreeFrom(geo, d.bbm, goal, k + 1);
  }

  /** One group of the search: scan it, and write its bitmap back if it gave
      anything. */
  method SearchGroup(fs: Volume, goal: nat, n: nat, k: nat, acc: seq<nat>, ghost d: Disk) returns (acc': seq<nat>)
    requires fs.geo.Valid() && BlockCounts(fs.geo, d) && goal < fs.geo.ngroups && k < fs.geo.ngroups
    requires |acc| < n && Searched(fs.geo, d, fs.disk, goal, n, k, acc)
    modifies fs
    ensures Searched(fs.geo, d, fs.disk, goal, n, k + 1, acc')
  {
    hide Bit, SumFree, Visit, FreeIn, BitsNow, FreeFrom, OnlyBlockBits;
    var geo := fs.geo;
    var g := Visit(geo, goal, k);
    ghost var d1 := fs.disk;
    LimitPositive(geo, g);
    assert d1.bbm[g] == d.bbm[g];
    var got, bm := ScanGroup(fs.disk.bbm[g], geo.Base(g), geo.Limit(g), n - |acc|);
    AfterGroupCounts(geo, d1, g, bm, got);
    if got != [] {
      fs.disk := fs.disk.(bbm := fs.disk.bbm[g := bm]);
      AdjustCounts(fs, g, -|got|, 0, 0);
    }
    acc' := acc + got;
    SearchStep(geo, d, d1, goal, n, k, acc, got, fs.disk);
  }

  lemma GotFromGroup(geo: Geometry, bbm: seq<seq<bv8>>, g: nat, got: seq<nat>)
    requires geo.Valid() && BitmapsFit(geo, bbm) && g < geo.ngroups
    requires got <= FreeGroup(geo, bbm, g)
    ensures forall b :: b in got ==> geo.fdb <= b < geo.blocks && geo.GroupOf(b) == g && b !in Used(geo, bbm)
  {
    hide FreeGroup;
    forall b | b in got ensures geo.fdb <= b < geo.blocks && geo.GroupOf(b) == g && b !in Used(geo, bbm) {
      FreeGroupMember(geo, bbm, g, b);
    }
  }

  /** n free blocks, marked used, searching from group goal; the first n that a
      bit-by-bit scan finds.  With fewer than n free, nothing changes. */
  method AllocBlocks(fs: Volume, goal: nat, n: nat) returns (r: Result<seq<nat>>)
    requires fs.geo.Valid() && BlockCounts(fs.geo, fs.disk) && goal < fs.geo.ngroups
    requires MetaUsed(fs.geo, fs.disk.bbm)
    modifies fs
    ensures BlockCounts(fs.geo, fs.disk) && OnlyBlockBits(old(fs.disk), fs.disk)
    ensures var free := FreeFrom(fs.geo, old(fs.disk.bbm), goal, 0);
            r == if n <= |free| then Ok(free[..n]) else Err(DiskFull)
    ensures r.Ok? ==> BitsNow(fs.geo, old(fs.disk.bbm), fs.disk.bbm, ToSet(r.value), true)
    ensures r.Err? ==> fs.disk == old(fs.disk)
  {
    assert fs.geo.ngroups >= 0;
    hide *;
    var geo := fs.geo;
    ghost var d := fs.disk;
    var acc: seq<nat> := [];
    var k := 0;
    SearchStart(geo, d, goal, n);
    while |acc| < n && k < geo.ngroups
      invariant 0 <= k <= geo.ngroups
      invariant Searched(geo, d, fs.disk, goal, n, k, acc)
    {
      acc := SearchGroup(fs, goal, n, k, acc, d);
      k := k + 1;
    }
    SearchEnd(geo, d, fs.disk, goal, n, k, acc);
    if |acc| < n {
      ghost var d1 := fs.disk;
      AllocatedIsFreeable(geo, d.bbm, d1.bbm, goal, acc);
      FreeBlocks(fs, acc);
      BitsUndone(geo, d.bbm, d1.bbm, fs.disk.bbm, ToSet(acc));
      OnlyBlockBitsAgain(d, d1, fs.disk);
      SameCounts(geo, d, fs.disk);
      return Err(DiskFull);
    }
    return Ok(acc);
  }

  lemma OnlyBlockBitsAgain(d: Disk, d1: Disk, d2: Disk)
    requires OnlyBlockBits(d, d1) && OnlyBlockBits(d1, d2)
    ensures OnlyBlockBits(d, d2)
  {}

  lemma SearchStart(geo: Geometry, d: Disk, goal: nat, n: nat)
    requires geo.Valid() && BlockCounts(geo, d) && goal < geo.ngroups
    ensures Searched(geo, d, d, goal, n, 0, [])
  {
    hide Bit, FreeGroup, Visit;
  }

  lemma SearchEnd(geo: Geometry, d: Disk, d': Disk, goal: nat, n: nat, k: nat, acc: seq<nat>)
    requires geo.Valid() && BlockCounts(geo, d) && goal < geo.ngroups && k <= geo.ngroups
    requires Searched(geo, d, d', goal, n, k, acc) && (|acc| == n || k == geo.ngroups)
    ensures BlockCounts(geo, d') && OnlyBlockBits(d, d') && BitsNow(geo, d.bbm, d'.bbm, ToSet(acc), true)
    ensures BitmapsFit(geo, d.bbm) && BitmapsFit(geo, d'.bbm)
    ensures var free := FreeFrom(geo, d.bbm, goal, 0);
            acc <= free && if |acc| < n then acc == free else |acc| == n <= |free| && acc == free[..n]
  {
    hide Bit, FreeGroup, Visit;
  }

  /** The metadata blocks are marked used, so no allocation returns one, nor
      the hole number 0. */
  ghost predicate MetaUsed(geo: Geometry, bbm: seq<seq<bv8>>)
    requires geo.Valid() && BitmapsFit(geo, bbm)
  {
    geo.meta <= Used(geo, bbm)
  }

  lemma {:induction false} FilterAll(s: seq<nat>)
    requires forall b :: b in s ==> NotHole(b)
    ensures Filter(s, NotHole) == s
  {
    if s != [] { FilterAll(s[1..]); }
  }

  /** What alloc-blocks! hands out: distinct data blocks that were free. */
  lemma AllocatedIsFreeable(geo: Geometry, bbm: seq<seq<bv8>>, bbm': seq<seq<bv8>>, goal: nat, acc: seq<nat>)
    requires geo.Valid() && BitmapsFit(geo, bbm) && goal < geo.ngroups && MetaUsed(geo, bbm)
    requires acc <= FreeFrom(geo, bbm, goal, 0)
    requires BitsNow(geo, bbm, bbm', ToSet(acc), true)
    ensures BitmapsFit(geo, bbm') && Used(geo, bbm') == Used(geo, bbm) + ToSet(acc)
    ensures NoDup(acc)
    ensures forall b :: b in acc ==> b != 0 && geo.DataBlock(b) && b !in Used(geo, bbm)
    ensures Filter(acc, NotHole) == acc && Freeable(geo, bbm', acc)
  {
    hide Bit, FreeGroup, Visit;
    FreeFromNoDup(geo, bbm, goal, 0);
    forall b | b in acc ensures geo.fdb <= b < geo.blocks && b !in Used(geo, bbm) && NotHole(b) {
      FreeFromMember(geo, bbm, goal, 0, b);
    }
    BitsNowUsed(geo, bbm, bbm', ToSet(acc), true);
    FilterAll(acc);
  }
}
