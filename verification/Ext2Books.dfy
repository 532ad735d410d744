/** The whole invariant of a disk: blocks, inodes, directory counts and names
    (lib/ext2.beer:398-487, 534-548). */
module Ext2Books {
  import opened Ext2Disk
  import opened Ext2Alloc
  import opened Ext2InodeAlloc
  import opened Ext2BuildMap
  import opened Ext2Store
  import opened Ext2Dir
  import opened Ext2Names
  import opened Ext2Lookup

  /** Inodes 1 to firstIno-1, which mke2fs marked used. */
  ghost function Reserved(geo: Geometry): set<nat> {
    set i: nat | 1 <= i < geo.firstIno && !MadeLater(geo, i)
  }

  predicate MadeLater(geo: Geometry, i: nat) { geo.firstIno <= i }

  /** An inode number that a directory entry may hold. */
  predicate CanBeLive(geo: Geometry, i: nat) {
    i == ROOT_INO || geo.firstIno <= i <= geo.inodes
  }

  ghost predicate InGroupOf(geo: Geometry, g: nat, i: nat)
    requires geo.ipg > 0
  {
    1 <= i && geo.GroupOfInode(i) == g
  }

  ghost function DirsIn(geo: Geometry, dirs: set<nat>, g: nat): set<nat>
    requires geo.ipg > 0
  {
    set i | i in dirs && InGroupOf(geo, g, i)
  }

  /** Inode bits are exactly the reserved and the live inodes; the counts agree
      with them, and the directory counts with `dirs`. */
  ghost predicate InodeBooks(geo: Geometry, d: Disk, live: set<nat>, dirs: set<nat>)
    requires geo.Valid()
  {
    && InodeCounts(geo, d)
    && UsedInos(geo, d.ibm) == Reserved(geo) + live
    && (forall i :: i in live ==> CanBeLive(geo, i))
    && dirs <= live
    && forall g :: 0 <= g < geo.ngroups ==> d.gd[g].usedDirs == |DirsIn(geo, dirs, g)|
  }

  ghost predicate SameInodeBooks(d: Disk, d': Disk) {
    && d'.ibm == d.ibm && d'.sbFreeInodes == d.sbFreeInodes && |d'.gd| == |d.gd|
    && forall g :: 0 <= g < |d.gd| ==>
         d'.gd[g].freeInodes == d.gd[g].freeInodes && d'.gd[g].usedDirs == d.gd[g].usedDirs
  }

  lemma InodeBooksSame(geo: Geometry, d: Disk, d': Disk, live: set<nat>, dirs: set<nat>)
    requires geo.Valid() && InodeBooks(geo, d, live, dirs) && SameInodeBooks(d, d')
    ensures InodeBooks(geo, d', live, dirs)
  {
    hide UsedInoBit, FreeInos, SumFreeInos;
  }

  lemma BooksAfterEdit(d: Disk, d': Disk, dir: nat)
    requires OthersSame(d, d', dir)
    ensures SameInodeBooks(d, d')
  {}

  lemma BooksAfterGrow(geo: Geometry, d: Disk, d': Disk, s: set<nat>)
    requires geo.Valid() && Grew(geo, d, d', s)
    ensures SameInodeBooks(d, d')
  {
    hide BitsNow, Used, Ready;
  }

  lemma {:induction false} RangeSize(s: set<nat>, lo: nat, n: nat)
    requires forall i :: i in s ==> lo <= i < lo + n
    ensures |s| <= n
    decreases n
  {
    if n == 0 {
      assert s == {};
    } else {
      var t := s - {lo + n - 1};
      RangeSize(t, lo, n - 1);
      if lo + n - 1 in s { assert s == t + {lo + n - 1}; } else { assert s == t; }
    }
  }

  /** A group has no more directories than inodes, so its count does not wrap. */
  lemma DirsInFit(geo: Geometry, dirs: set<nat>, g: nat)
    requires geo.Valid() && g < geo.ngroups && forall i :: i in dirs ==> 1 <= i <= geo.inodes
    ensures |DirsIn(geo, dirs, g)| <= geo.ipg < 0x1_0000
  {
    var s := DirsIn(geo, dirs, g);
    forall i | i in s ensures geo.InoBase(g) <= i < geo.InoBase(g) + geo.ipg { InodeSplit(geo, i); }
    RangeSize(s, geo.InoBase(g), geo.ipg);
  }

  lemma LiveInRange(geo: Geometry, d: Disk, live: set<nat>, dirs: set<nat>)
    requires geo.Valid() && InodeBooks(geo, d, live, dirs)
    ensures forall i :: i in live ==> 1 <= i <= geo.inodes
    ensures BitmapsFit(geo, d.ibm) && InodeCounts(geo, d) && dirs <= live
    ensures UsedInos(geo, d.ibm) == Reserved(geo) + live
    ensures |d.gd| == geo.ngroups
  {
    hide UsedInos, FreeInos, SumFreeInos;
  }

  lemma DirsAdd(geo: Geometry, dirs: set<nat>, ino: nat, g: nat)
    requires geo.Valid() && g < geo.ngroups && 1 <= ino <= geo.inodes && ino !in dirs
    requires forall i :: i in dirs ==> 1 <= i <= geo.inodes
    ensures |DirsIn(geo, dirs + {ino}, g)| == |DirsIn(geo, dirs, g)| + (if geo.GroupOfInode(ino) == g then 1 else 0)
    ensures |DirsIn(geo, dirs + {ino}, g)| < 0x1_0000
  {
    DirsInFit(geo, dirs + {ino}, g);
    hide Geometry.Valid;
    if geo.GroupOfInode(ino) == g {
      assert DirsIn(geo, dirs + {ino}, g) == DirsIn(geo, dirs, g) + {ino};
    } else {
      assert DirsIn(geo, dirs + {ino}, g) == DirsIn(geo, dirs, g);
    }
  }

  /** alloc-inode! makes a number live. */
  lemma BooksAfterAlloc(geo: Geometry, d: Disk, d': Disk, live: set<nat>, dirs: set<nat>, ino: nat, dir: bool)
    requires geo.Valid() && InodeBooks(geo, d, live, dirs) && BitmapsFit(geo, d.ibm)
    requires geo.firstIno <= ino <= geo.inodes && ino !in UsedInos(geo, d.ibm)
    requires InodeCounts(geo, d') && BitmapsFit(geo, d'.ibm) && UsedInos(geo, d'.ibm) == UsedInos(geo, d.ibm) + {ino}
    requires InodeMoved(geo, d, d', ino, if dir then 1 else 0)
    ensures ino !in live && InodeBooks(geo, d', live + {ino}, if dir then dirs + {ino} else dirs)
  {
    hide UsedInos, FreeInos, SumFreeInos, BitmapsFit, DirsIn;
    LiveInRange(geo, d, live, dirs);
    var dirs' := if dir then dirs + {ino} else dirs;
    forall g: nat | g < geo.ngroups ensures d'.gd[g].usedDirs == |DirsIn(geo, dirs', g)| {
      DirsAdd(geo, dirs, ino, g);
      DirsInFit(geo, dirs, g);
    }
  }

  /** free-inode! takes it back. */
  lemma BooksAfterFree(geo: Geometry, d: Disk, d': Disk, live: set<nat>, dirs: set<nat>, ino: nat, dir: bool)
    requires geo.Valid() && InodeBooks(geo, d, live, dirs) && BitmapsFit(geo, d.ibm)
    requires ino in live && ino != ROOT_INO && (dir <==> ino in dirs)
    requires InodeCounts(geo, d') && BitmapsFit(geo, d'.ibm) && UsedInos(geo, d'.ibm) == UsedInos(geo, d.ibm) - {ino}
    requires InodeMoved(geo, d, d', ino, if dir then -1 else 0)
    ensures InodeBooks(geo, d', live - {ino}, dirs - {ino})
  {
    hide UsedInos, FreeInos, SumFreeInos, BitmapsFit, DirsIn;
    LiveInRange(geo, d, live, dirs);
    var dirs' := dirs - {ino};
    assert Reserved(geo) + live - {ino} == Reserved(geo) + (live - {ino});
    if dir { assert dirs' + {ino} == dirs; } else { assert dirs' == dirs; }
    forall g: nat | g < geo.ngroups ensures d'.gd[g].usedDirs == |DirsIn(geo, dirs', g)| {
      DirsAdd(geo, dirs', ino, g);
      DirsInFit(geo, dirs', g);
    }
  }

  /** The live inodes: what the inode bitmaps mark, without the reserved ones
      other than the root. */
  ghost function LiveInodes(geo: Geometry, d: Disk): set<nat>
    requires geo.Valid() && BitmapsFit(geo, d.ibm)
  {
    set i | i in UsedInos(geo, d.ibm) && CanBeLive(geo, i)
  }

  lemma BooksLive(geo: Geometry, d: Disk, live: set<nat>, dirs: set<nat>)
    requires geo.Valid() && InodeBooks(geo, d, live, dirs) && BitmapsFit(geo, d.ibm) && ROOT_INO in live
    ensures LiveInodes(geo, d) == live
  {
    hide UsedInos, FreeInos, SumFreeInos;
  }

  /** Everything at rest: no block is in an operation's hands. */
  ghost predicate Settled(geo: Geometry, d: Disk, live: set<nat>)
    requires geo.Valid()
  {
    && Store(geo, d, live, {})
    && Fits(geo, d)
    && InodeBooks(geo, d, live, DirSet(d, live))
    && Namespace(geo, d, live)
  }

  /** What every run of operations keeps. */
  ghost predicate Consistent(geo: Geometry, d: Disk)
    requires geo.Valid()
  {
    && BitmapsFit(geo, d.ibm)
    && Settled(geo, d, LiveInodes(geo, d))
  }

  lemma SettledIsConsistent(geo: Geometry, d: Disk, live: set<nat>)
    requires geo.Valid() && Settled(geo, d, live)
    ensures Consistent(geo, d) && BitmapsFit(geo, d.ibm) && LiveInodes(geo, d) == live
  {
    hide Store, Fits, Namespace, LiveInodes, DirSet, InodeBooks;
    LiveInRange(geo, d, live, DirSet(d, live));
    RootLive(geo, d, live);
    BooksLive(geo, d, live, DirSet(d, live));
  }
}
