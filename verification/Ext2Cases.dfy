/** Volumes and paths on which mv! and write-file! of lib/ext2.beer fall short: a move
    that its check lets into the moved directory (lib/ext2.beer:829-832), and a write that
    runs out of blocks after the old ones were freed (lib/ext2.beer:715-720). */
module Ext2Cases {
  import opened Bytes
  import opened Seqs
  import opened Ext2Disk
  import opened Ext2Alloc
  import opened Ext2InodeAlloc
  import opened Ext2Space
  import opened Ext2BlockMap
  import opened Ext2BuildMap
  import opened Ext2FileData
  import opened Ext2DirBlock
  import opened Ext2DirData
  import opened Ext2Store
  import opened Ext2Dir
  import opened Ext2DirOps
  import opened Ext2Names
  import opened Ext2Path
  import opened Ext2Lookup
  import opened Ext2Books
  import opened Ext2Create
  import opened Ext2Make
  import opened Ext2Move
  import opened Ext2Remove
  import opened Ext2Replace
  import opened Ext2Ops
  import opened Ext2Write
  import opened Ext2Mv
  import opened Ext2Tree
  import opened Ext2Format

  const A: Bytes := [0x61]
  const C: Bytes := [0x63]

  /** "/a", "/../a" and "/a/c" */
  function PathA(): Bytes { [SLASH] + A }
  function PathUpA(): Bytes { [SLASH] + DOTDOT + [SLASH] + A }
  function PathAC(): Bytes { [SLASH] + A + [SLASH] + C }

  lemma Parts()
    ensures Split(PathA()) == [A] && Split(PathUpA()) == [DOTDOT, A] && Split(PathAC()) == [A, C]
    ensures Component(A) && Component(C) && Component(DOTDOT)
  {
    hide Split;
    SplitNone();
    SplitWhole(A);
    SplitWhole(C);
    SplitWhole(DOTDOT);
    SplitAtSlash([], A);
    assert PathA() == [] + [SLASH] + A;
    SplitAtSlash([], DOTDOT);
    assert PathUpA() == ([] + [SLASH] + DOTDOT) + [SLASH] + A;
    SplitAtSlash([] + [SLASH] + DOTDOT, A);
    assert PathAC() == ([] + [SLASH] + A) + [SLASH] + C;
    SplitAtSlash([] + [SLASH] + A, C);
  }

  lemma NotPrefix()
    ensures !InsidePath(Norm(Split(PathUpA())), Norm(Split(PathAC())))
  {
    hide Split, Norm, InsidePath;
    Parts();
    InsideIsPrefix([DOTDOT, A], [A, C]);
    assert [DOTDOT, A][0] != [A, C][0];
  }

  lemma ParentOfOne(geo: Geometry, d: Disk, path: Bytes, nm: Bytes)
    requires geo.Valid() && Consistent(geo, d) && Fits(geo, d) && Split(path) == [nm]
    ensures ParentAndName(geo, d, path) == Ok((ROOT_INO, nm))
  {
    hide Consistent, Fits, Split, Norm, Lookup, LinkTarget, Namespace, DirsOK, LiveInodes, Settled, BitmapsFit, Numbers;
    ConsistentIs(geo, d);
    RootLive(geo, d, LiveInodes(geo, d));
    SplitNorm([]);
    assert [nm][..0] == [];
  }

  /** One step from the root to a directory. */
  lemma ParentOfTwo(geo: Geometry, d: Disk, path: Bytes, dir: Bytes, nm: Bytes, p: nat)
    requires geo.Valid() && Consistent(geo, d) && Fits(geo, d) && Split(path) == [dir, nm] && Component(dir)
    requires ROOT_INO <= geo.inodes && Lookup(geo, d, ROOT_INO, dir) == Ok(p)
    requires 1 <= p <= geo.inodes && p < |d.inode| && d.inode[p].kind == Dir
    ensures ParentAndName(geo, d, path) == Ok((p, nm))
  {
    hide Consistent, Fits, Split, Norm, Lookup, LinkTarget, Resolve, Namespace, DirsOK, LiveInodes, Settled, BitmapsFit, Numbers;
    ConsistentIs(geo, d);
    RootLive(geo, d, LiveInodes(geo, d));
    SplitNorm([dir]);
    ResolveNone(geo, d);
    ResolveSnoc(geo, d, ROOT_INO, [], dir, true, 0, ROOT_INO, p);
    assert [] + [dir] == [dir] && [dir, nm][..1] == [dir];
  }

  lemma ResolveNone(geo: Geometry, d: Disk)
    requires geo.Valid() && Fits(geo, d) && ROOT_INO <= geo.inodes
    ensures Resolve(geo, d, ROOT_INO, [], true, 0) == Ok(ROOT_INO)
  {
    hide Fits;
  }

  // ---- mv! into the moved directory ----

  /** Any consistent disk with a directory /a. */
  ghost predicate HasDirA(geo: Geometry, d: Disk, i: nat)
    requires geo.Valid() && Consistent(geo, d)
  {
    var t := NamespaceOf(geo, d);
    ROOT_INO in t.kids && A in t.kids[ROOT_INO] && t.kids[ROOT_INO][A] == i && i in t.kids
  }

  /** /a has no entry c (k is -1), or its entry c is the empty directory k. */
  ghost predicate FreeOrEmpty(geo: Geometry, d: Disk, i: nat, k: int)
    requires geo.Valid() && Consistent(geo, d)
  {
    var t := NamespaceOf(geo, d);
    && i in t.kids
    && if k < 0 then k == -1 && C !in t.kids[i]
       else C in t.kids[i] && t.kids[i][C] == k && k in t.kids && t.kids[k] == map[]
  }

  /** mv! from /../a to /a/c passes the check on every such disk, and what it then does to
      the names is not a tree. */
  lemma MvCheckMisses(geo: Geometry, d: Disk, i: nat, k: int)
    requires geo.Valid() && Consistent(geo, d) && Fits(geo, d) && HasDirA(geo, d, i) && FreeOrEmpty(geo, d, i, k)
    ensures MvCheck(geo, d, PathUpA(), PathAC()) == Ok(Plan(ROOT_INO, A, i, i, C, k))
    ensures !NotIntoSelf(geo, d, PathUpA(), PathAC())
    ensures var plan, t := Plan(ROOT_INO, A, i, i, C, k), NamespaceOf(geo, d);
            && PlanFits(t, plan) && Linkable(Cleared(t, plan), plan)
            && !TreeOK(Relinked(Cleared(t, plan), ROOT_INO, A, i, C))
  {
    hide Consistent, Fits, NamespaceOf, ParentAndName, Lookup, InsidePath, Norm, Split, OldCheck, TreeOK, Climbs, Relinked, LiveInodes,
         TreeOf, DirsOK, Namespace, Settled, BitmapsFit, RefsLive, PlanFits, Cleared, Linkable, FreeOrEmpty, HasDirA;
    Parts();
    NotPrefix();
    DirAFacts(geo, d, i, k);
    ParentOfTwo(geo, d, PathUpA(), DOTDOT, A, ROOT_INO);
    ParentOfTwo(geo, d, PathAC(), A, C, i);
    EmptyMayGo(geo, d, i, k);
    assert MvCheck(geo, d, PathUpA(), PathAC()) == Ok(Plan(ROOT_INO, A, i, i, C, k));
    ClimbsStep(geo, d, i, i, geo.inodes);
    MoveExact(geo, d, PathUpA(), PathAC());
  }

  lemma EmptyMayGo(geo: Geometry, d: Disk, i: nat, k: int)
    requires geo.Valid() && Consistent(geo, d) && Fits(geo, d) && HasDirA(geo, d, i) && FreeOrEmpty(geo, d, i, k)
    requires ParentAndName(geo, d, PathAC()) == Ok((i, C)) && Lookup(geo, d, i, C) == Ok(k)
    ensures Target(geo, d, PathAC()) == Ok((i, C, k))
    ensures k >= 0 ==> OldCheck(geo, d, k, true).Ok? && k != i
  {
    hide Consistent, Fits, NamespaceOf, ParentAndName, Lookup, TreeOK, EntriesOf, OnlyDots, LiveInodes, DirName;
    if k >= 0 {
      TargetIs(geo, d, PathAC());
      TreeShape(geo, d);
      InodeInRange(geo, d, k);
      EmptyTarget(geo, d, PathAC(), i, C, k);
    }
  }

  lemma InodeInRange(geo: Geometry, d: Disk, k: nat)
    requires geo.Valid() && Consistent(geo, d) && k in NamespaceOf(geo, d).kids
    ensures Fits(geo, d) && 1 <= k <= geo.inodes && k < |d.inode| && d.inode[k].kind == Dir
  {
    hide Consistent, Fits, TreeOf, LiveInodes, DirsOK, Namespace, Settled, BitmapsFit, RefsLive, TreeOK;
    TreeShape(geo, d);
    FitsData(geo, d);
    TreeAt(geo, d, LiveInodes(geo, d), k);
  }

  lemma DirAFacts(geo: Geometry, d: Disk, i: nat, k: int)
    requires geo.Valid() && Consistent(geo, d) && Fits(geo, d) && HasDirA(geo, d, i) && FreeOrEmpty(geo, d, i, k)
    ensures 1 <= ROOT_INO <= geo.inodes && 1 <= i <= geo.inodes && i < |d.inode| && ROOT_INO < |d.inode|
    ensures d.inode[i].kind == Dir && d.inode[ROOT_INO].kind == Dir
    ensures Lookup(geo, d, ROOT_INO, DOTDOT) == Ok(ROOT_INO) && Lookup(geo, d, ROOT_INO, A) == Ok(i) && Lookup(geo, d, i, C) == Ok(k)
  {
    hide Consistent, Fits, TreeOf, Lookup, TreeOK, LiveInodes, DirsOK, Namespace, Settled, BitmapsFit, RefsLive;
    ConsistentIs(geo, d);
    TreeShape(geo, d);
    TreeParts(NamespaceOf(geo, d));
    var live := LiveInodes(geo, d);
    RootLive(geo, d, live);
    FitsData(geo, d);
    TreeAt(geo, d, live, i);
    LookupTree(geo, d, live, ROOT_INO, DOTDOT);
    LookupTree(geo, d, live, ROOT_INO, A);
    LookupTree(geo, d, live, i, C);
  }

  lemma NamesA(geo: Geometry, d: Disk, i: nat, k: int)
    requires geo.Valid() && Consistent(geo, d) && Fits(geo, d) && HasDirA(geo, d, i) && FreeOrEmpty(geo, d, i, k) && SmallDir(geo, d, i)
    ensures Nameable(geo, d, PathUpA()) && Nameable(geo, d, PathAC()) && Roomy(geo, d, PathAC())
    ensures ParentAndName(geo, d, PathAC()) == Ok((i, C)) && Lookup(geo, d, i, C) == Ok(k)
  {
    hide Consistent, Fits, NamespaceOf, ParentAndName, Lookup, Split, LiveInodes, FreeOrEmpty, HasDirA, SmallDir;
    Parts();
    DirAFacts(geo, d, i, k);
    ParentOfTwo(geo, d, PathUpA(), DOTDOT, A, ROOT_INO);
    ParentOfTwo(geo, d, PathAC(), A, C, i);
  }

  lemma OutcomeIs(geo: Geometry, d: Disk, from_: Bytes, to: Bytes, p1: nat, n1: Bytes, i: nat, p2: nat, n2: Bytes, k: int)
    requires geo.Valid() && Fits(geo, d) && MvCheck(geo, d, from_, to) == Ok(Plan(p1, n1, i, p2, n2, k)) && p2 <= geo.inodes
    ensures MvOutcome(geo, d, from_, to)
         == if k >= 0 then Ok(()) else Bare(AddOutcome(geo, d, d.sbFreeBlocks, p2, n2))
  {
    hide MvCheck, AddOutcome, Fits;
  }

  lemma BareIs(r: Result<nat>)
    ensures r.Ok? ==> Bare(r) == Ok(())
  {}

  // ---- both, on a freshly formatted volume ----

  /** On a volume of less than 4 GiB no directory reaches the largest size. */
  lemma SmallVolume(geo: Geometry, d: Disk, live: set<nat>, dir: nat)
    requires geo.Valid() && DirIn(geo, d, live, {}, dir) && (geo.blocks + 1) * geo.bs < 0x1_0000_0000
    ensures SmallDir(geo, d, dir)
  {
    hide *;
    DirBlockParts(geo, d, live, {}, dir);
    FitsData(geo, d);
    FewBlocks(geo, Fb(geo, d, dir));
    BelowLimit(|Fb(geo, d, dir)|, geo.blocks, geo.bs, 0x1_0000_0000);
    DirSize(geo, d, live, dir);
    StillSmall(geo, d, dir);
  }

  lemma DirSize(geo: Geometry, d: Disk, live: set<nat>, dir: nat)
    requires geo.Valid() && DirIn(geo, d, live, {}, dir)
    ensures Fits(geo, d) && dir <= geo.inodes && dir < |d.inode| && d.inode[dir].size == |Fb(geo, d, dir)| * geo.bs
  {
    hide Fits, Store, Fb, Own, DirBlocks, Words, Geometry.Valid, NoneNamed, Ents;
    DirInStore(geo, d, live, {}, dir);
    FitsData(geo, d);
  }

  lemma BelowLimit(n: nat, blocks: nat, bs: nat, limit: nat)
    requires n <= blocks && (blocks + 1) * bs < limit
    ensures n * bs + bs < limit
  {
    MulMono(n, blocks, bs);
    assert (blocks + 1) * bs == blocks * bs + bs;
  }

  lemma StillSmall(geo: Geometry, d: Disk, dir: nat)
    requires dir < |d.inode| && d.inode[dir].size + geo.bs < 0x1_0000_0000
    ensures SmallDir(geo, d, dir)
  {}

  lemma FewBlocks(geo: Geometry, fb: seq<nat>)
    requires NoDup(fb) && forall k :: 0 <= k < |fb| ==> 0 < fb[k] < geo.blocks
    ensures |fb| <= geo.blocks
  {
    NoDupSize(fb);
    forall b | b in ToSet(fb) ensures b in UpTo(geo.blocks) {}
    Fewer(ToSet(fb), UpTo(geo.blocks));
  }

  lemma RootRoomy(geo: Geometry, d: Disk, path: Bytes, nm: Bytes)
    requires geo.Valid() && Consistent(geo, d) && Fits(geo, d) && (geo.blocks + 1) * geo.bs < 0x1_0000_0000
    requires ParentAndName(geo, d, path) == Ok((ROOT_INO, nm)) && Plain(nm) && |nm| <= 255
    ensures Nameable(geo, d, path) && Roomy(geo, d, path)
  {
    hide *;
    ConsistentIs(geo, d);
    var live := LiveInodes(geo, d);
    RootDirIn(geo, d, live);
    SmallVolume(geo, d, live, ROOT_INO);
    NameRoomy(geo, d, path, ROOT_INO, nm);
  }

  lemma NameRoomy(geo: Geometry, d: Disk, path: Bytes, p: nat, nm: Bytes)
    requires geo.Valid() && Fits(geo, d) && ParentAndName(geo, d, path) == Ok((p, nm)) && Plain(nm) && |nm| <= 255 && SmallDir(geo, d, p)
    ensures Nameable(geo, d, path) && Roomy(geo, d, path)
  {
    hide ParentAndName, Fits, SmallDir;
  }

  lemma RootDirIn(geo: Geometry, d: Disk, live: set<nat>)
    requires geo.Valid() && Settled(geo, d, live)
    ensures DirIn(geo, d, live, {}, ROOT_INO)
  {
    hide Fits, Store, InodeBooks, TreeOf, TreeOK, DirsOK, DirOK, NamesOK, Numbers;
    RootLive(geo, d, live);
    FitsData(geo, d);
    NamespaceDir(geo, d, live, ROOT_INO);
  }

  lemma FormattedRoom()
    ensures Small().Valid() && Fits(Small(), Formatted()) && ROOT_INO <= Small().inodes
    ensures HasSlot(Small(), Formatted(), ROOT_INO, A)
  {
    hide Fits, DirOK, NamesOK, HasRoom, Fb, OwnsWell, Own, NewDirBlock, DirInode, EmptyInode, TwoBits;
    FormattedFits();
    var geo, d := Small(), Formatted();
    assert d.inode[ROOT_INO] == DirInode(geo.bs, 2) && d.data[2] == Root();
    OneBlockDir(geo, d, ROOT_INO, 2);
    NewDirRoom(true, 1024, ROOT_INO, ROOT_INO, FT_DIR, A);
    assert Fb(geo, d, ROOT_INO)[0] == 2;
    assert RoomAt(geo, d, 2, A);
  }

  lemma OneBlockDir(geo: Geometry, d: Disk, i: nat, blk: nat)
    requires geo.Valid() && Fits(geo, d) && 1 <= i <= geo.inodes && i < |d.inode| && d.inode[i] == DirInode(geo.bs, blk)
    requires geo.DataBlock(blk) && blk != 0
    ensures Fb(geo, d, i) == [blk]
  {
    hide Fits, Fb, Own, OwnsWell, Words;
    OneBlockOwns(geo, d, i, blk);
  }

  lemma FormattedTarget()
    ensures Small().Valid() && Fits(Small(), Formatted()) && Consistent(Small(), Formatted())
    ensures Nameable(Small(), Formatted(), PathA()) && Roomy(Small(), Formatted(), PathA())
    ensures Target(Small(), Formatted(), PathA()) == Ok((ROOT_INO, A, -1))
  {
    hide Consistent, Fits, LiveInodes, TreeOf, Lookup, Nameable, Roomy, ParentAndName, Formatted, Split;
    FormattedConsistent();
    FormattedFits();
    Parts();
    ParentOfOne(Small(), Formatted(), PathA(), A);
    RootRoomy(Small(), Formatted(), PathA(), A);
    NothingNamed();
  }

  lemma NothingNamed()
    ensures Small().Valid() && Fits(Small(), Formatted()) && ROOT_INO <= Small().inodes && Lookup(Small(), Formatted(), ROOT_INO, A) == Ok(-1)
  {
    hide Fits, DirOK, NamesOK, Lookup, Formatted, Ents, KidMap, FindIno, OwnsWell, Own;
    FormattedFits();
    FormattedRoot();
    var es := Ents(Small(), Formatted(), ROOT_INO);
    LookupIs(Small(), Formatted(), ROOT_INO, A);
    KidMapIs(es, A);
  }

  lemma MadeDirA(r: Result<()>, free: nat)
    requires Small().Valid() && Fits(Small(), Formatted()) && Told(r, free) == CreateOutcome(Small(), Formatted(), PathA(), 1)
    ensures r.Ok? && free == 5
  {
    hide Fits, Target, HasSlot, GrowOutcome, Consistent, Nameable, Roomy, Small;
    FormattedTarget();
    FormattedRoom();
    Fields();
  }

  lemma DirMadeA(geo: Geometry, d: Disk, d': Disk, path: Bytes, i: nat)
    requires geo.Valid() && Consistent(geo, d) && Fits(geo, d)
    requires CreateCheck(geo, d, path) == Ok((ROOT_INO, A)) && DirMade(geo, d, d', path, i)
    ensures Consistent(geo, d') && Fits(geo, d') && HasDirA(geo, d', i) && FreeOrEmpty(geo, d', i, -1)
    ensures NamespaceOf(geo, d').kind.Keys == NamespaceOf(geo, d).kind.Keys + {i}
  {
    hide Fits, Consistent, NamespaceOf, TextsKept, CreateCheck, AddDir, TreeOf, LiveInodes, Settled, DirsOK, Namespace, TreeOK, Shaped;
    var t := NamespaceOf(geo, d);
    TreeShape(geo, d);
    ConsistentIs(geo, d');
    AddDirA(t, i);
  }

  lemma AddDirA(t: Tree, i: nat)
    requires Shaped(t) && ROOT_INO in t.kids && ROOT_INO in t.links && i !in t.kind
    ensures var t' := AddDir(t, ROOT_INO, A, i);
            && ROOT_INO in t'.kids && A in t'.kids[ROOT_INO] && t'.kids[ROOT_INO][A] == i && i in t'.kids && t'.kids[i] == map[]
            && t'.kind.Keys == t.kind.Keys + {i}
  {}

  /** Six inodes were free, one is taken. */
  lemma InodesLeft(d: Disk, i: nat)
    requires Small().Valid() && Consistent(Small(), Formatted()) && Consistent(Small(), d)
    requires NamespaceOf(Small(), d).kind.Keys == NamespaceOf(Small(), Formatted()).kind.Keys + {i}
    ensures d.sbFreeInodes > 0
  {
    hide Consistent, Fits, TreeOf, LiveInodes, Settled, DirsOK, Namespace, TreeOK, Formatted, UsedInos, Geometry.Valid, Store, InodeBooks, RefsLive;
    TreeShape(Small(), Formatted());
    TreeShape(Small(), d);
    OneLive();
    var ino := if i == 3 then 4 else 3;
    NotUsed(Small(), d, ino);
    InodeCount(Small(), d, ino);
  }

  lemma OneLive()
    ensures Small().Valid() && BitmapsFit(Small(), Formatted().ibm) && LiveInodes(Small(), Formatted()) == {ROOT_INO}
  {
    hide Formatted, UsedInos;
    FormattedUsed();
  }

  lemma NotUsed(geo: Geometry, d: Disk, ino: nat)
    requires geo.Valid() && BitmapsFit(geo, d.ibm) && Settled(geo, d, LiveInodes(geo, d)) && ino !in LiveInodes(geo, d) && geo.firstIno <= ino <= geo.inodes
    ensures InodeCounts(geo, d) && ino !in UsedInos(geo, d.ibm)
  {
    hide LiveInodes, UsedInos, Store, Fits, Namespace, FreeInos, SumFreeInos;
    LiveInRange(geo, d, LiveInodes(geo, d), DirSet(d, LiveInodes(geo, d)));
  }

  /** A directory of the small volume can always grow while a block is free. */
  lemma CanGrow(d: Disk, i: nat, free: nat)
    requires Small().Valid() && Consistent(Small(), d) && Fits(Small(), d) && i in NamespaceOf(Small(), d).kids && free > 0
    ensures i <= Small().inodes && AddOutcome(Small(), d, free, i, C).Ok? && SmallDir(Small(), d, i)
  {
    hide *;
    var geo := Small();
    ConsistentIs(geo, d);
    var live := LiveInodes(geo, d);
    KidsDirIn(geo, d, i);
    SmallSize();
    SmallVolume(geo, d, live, i);
    FewDirect(geo, d, live, i);
    GrowsBy(geo, d, free, i);
  }

  lemma KidsDirIn(geo: Geometry, d: Disk, i: nat)
    requires geo.Valid() && Consistent(geo, d) && i in NamespaceOf(geo, d).kids
    ensures BitmapsFit(geo, d.ibm) && DirIn(geo, d, LiveInodes(geo, d), {}, i) && Fits(geo, d) && i <= geo.inodes
  {
    hide Consistent, Fits, Store, InodeBooks, TreeOf, TreeOK, DirsOK, DirOK, NamesOK, Numbers, LiveInodes, RefsLive, BitmapsFit;
    TreeShape(geo, d);
    InodeInRange(geo, d, i);
    FitsData(geo, d);
    NamespaceDir(geo, d, LiveInodes(geo, d), i);
  }

  lemma FewDirect(geo: Geometry, d: Disk, live: set<nat>, dir: nat)
    requires geo.Valid() && DirIn(geo, d, live, {}, dir) && geo.blocks < DIRECT
    ensures Fits(geo, d) && dir <= geo.inodes && |Fb(geo, d, dir)| + 1 <= DIRECT
  {
    hide Fits, Store, Fb, Own, DirBlocks, Words, Geometry.Valid;
    DirBlockParts(geo, d, live, {}, dir);
    FitsData(geo, d);
    FewBlocks(geo, Fb(geo, d, dir));
  }

  lemma GrowsBy(geo: Geometry, d: Disk, free: nat, dir: nat)
    requires geo.Valid() && Fits(geo, d) && dir <= geo.inodes && free > 0 && |Fb(geo, d, dir)| + 1 <= DIRECT
    ensures AddOutcome(geo, d, free, dir, C).Ok?
  {
    hide Fits, Fb, HasSlot, MapIndirect, IndirectCount, MapLimit, Words;
    PpbPositive(geo);
    NoIndirect(geo, |Fb(geo, d, dir)| + 1);
  }

  lemma SmallDirA(d: Disk, i: nat, k: int)
    requires Small().Valid() && Consistent(Small(), d) && Fits(Small(), d) && HasDirA(Small(), d, i) && FreeOrEmpty(Small(), d, i, k)
    ensures i <= Small().inodes && SmallDir(Small(), d, i)
    ensures d.sbFreeBlocks > 0 ==> AddOutcome(Small(), d, d.sbFreeBlocks, i, C).Ok?
  {
    hide Consistent, Fits, NamespaceOf, AddOutcome, SmallDir, Small;
    CanGrow(d, i, if d.sbFreeBlocks > 0 then d.sbFreeBlocks else 1);
  }

  lemma CreateTargetC(geo: Geometry, d: Disk, i: nat)
    requires geo.Valid() && Fits(geo, d) && ParentAndName(geo, d, PathAC()) == Ok((i, C)) && Lookup(geo, d, i, C) == Ok(-1)
    ensures CreateCheck(geo, d, PathAC()) == Ok((i, C))
  {
    hide Fits, ParentAndName, Lookup;
  }

  lemma MadeDirC(d: Disk, i: nat, r: Result<()>, free: nat)
    requires Small().Valid() && Consistent(Small(), d) && Fits(Small(), d) && HasDirA(Small(), d, i)
    requires CreateCheck(Small(), d, PathAC()) == Ok((i, C)) && d.sbFreeBlocks == 5 && d.sbFreeInodes > 0
    requires Told(r, free) == CreateOutcome(Small(), d, PathAC(), 1)
    ensures r.Ok?
  {
    hide Fits, Consistent, NamespaceOf, CreateCheck, AddOutcome, Small, SmallDir;
    CanGrow(d, i, 4);
  }

  lemma DirMadeC(geo: Geometry, d: Disk, d': Disk, i: nat, k: nat)
    requires geo.Valid() && Consistent(geo, d) && Fits(geo, d) && HasDirA(geo, d, i) && FreeOrEmpty(geo, d, i, -1)
    requires CreateCheck(geo, d, PathAC()) == Ok((i, C)) && DirMade(geo, d, d', PathAC(), k)
    ensures Consistent(geo, d') && Fits(geo, d') && HasDirA(geo, d', i) && FreeOrEmpty(geo, d', i, k)
  {
    hide Fits, Consistent, NamespaceOf, TextsKept, CreateCheck, AddDir, TreeOf, LiveInodes, Settled, DirsOK, Namespace, TreeOK, Shaped, RefsLive;
    var t := NamespaceOf(geo, d);
    TreeShape(geo, d);
    TreeParts(t);
    ConsistentIs(geo, d');
    AddDirC(t, i, k);
  }

  lemma AddDirC(t: Tree, i: nat, k: nat)
    requires Shaped(t) && ROOT_INO in t.kids && A in t.kids[ROOT_INO] && t.kids[ROOT_INO][A] == i && i in t.kids && i in t.links
    requires k !in t.kind
    ensures var t' := AddDir(t, i, C, k);
            && ROOT_INO in t'.kids && A in t'.kids[ROOT_INO] && t'.kids[ROOT_INO][A] == i && i in t'.kids
            && C in t'.kids[i] && t'.kids[i][C] == k && k in t'.kids && t'.kids[k] == map[]
  {}

  lemma MadeFileA(r: Result<()>, free: nat)
    requires Small().Valid() && Fits(Small(), Formatted()) && Told(r, free) == WriteOutcome(Small(), Formatted(), PathA(), 6144)
    ensures r.Ok? && free == 0
  {
    hide *;
    FormattedTarget();
    FormattedRoom();
    Fields();
    FreshOutcome(Small(), Formatted(), PathA(), 6144);
    SmallBlock();
    SixBlockFile(Small());
    ToldIs(r, free);
  }

  /** write-file! of a new file in the root. */
  lemma FreshOutcome(geo: Geometry, d: Disk, path: Bytes, n: nat)
    requires geo.Valid() && Fits(geo, d) && ROOT_INO <= geo.inodes && Target(geo, d, path) == Ok((ROOT_INO, A, -1))
    requires HasSlot(geo, d, ROOT_INO, A) && d.sbFreeInodes > 0
    ensures WriteOutcome(geo, d, path, n) == ReplaceOutcome(geo, d.sbFreeBlocks, 0, n)
  {
    hide Fits, Target, HasSlot, GrowOutcome, ReplaceOutcome, Own;
  }

  lemma SixBlockFile(geo: Geometry)
    requires geo.Valid() && geo.bs == 1024
    ensures BlocksFor(geo, 6144) == 6 && CeilDiv(6145, geo.bs) == 7
    ensures ReplaceOutcome(geo, 6, 0, 6144) == Ok(0) && ReplaceOutcome(geo, 0, 6, 6145) == Err(DiskFull)
  {
    hide CeilDiv, IndirectCount, Geometry.Valid, MapLimit;
    CeilIs(1024, 6144, 6, 0);
    CeilIs(1024, 6145, 6, 1);
    PpbPositive(geo);
    NoIndirect(geo, 6);
  }

  lemma NoIndirect(geo: Geometry, n: nat)
    requires geo.Ppb() > 0 && n <= DIRECT
    ensures IndirectCount(geo.Ppb(), n) == 0 && MapLimit(geo) >= n
  {}

  lemma FileMadeA(geo: Geometry, d: Disk, d': Disk, i: nat)
    requires geo.Valid() && Consistent(geo, d) && Fits(geo, d) && (geo.blocks + 1) * geo.bs < 0x1_0000_0000
    requires WriteCheck(geo, d, PathA()) == Ok((ROOT_INO, A, -1)) && FileWritten(geo, d, d', PathA(), Zeros(6144), i)
    ensures Consistent(geo, d') && Fits(geo, d') && WriteCheck(geo, d', PathA()) == Ok((ROOT_INO, A, i))
    ensures Nameable(geo, d', PathA()) && Roomy(geo, d', PathA())
  {
    hide *;
    NewFileA(geo, d, d', i);
    ConsistentIs(geo, d');
    Parts();
    ParentOfOne(geo, d', PathA(), A);
    PlainA();
    RootRoomy(geo, d', PathA(), A);
    TargetIs(geo, d', PathA());
    FileTarget(geo, d', PathA(), i);
  }

  lemma PlainA()
    ensures Plain(A) && |A| == 1
  {}

  lemma NewFileA(geo: Geometry, d: Disk, d': Disk, i: nat)
    requires geo.Valid() && Consistent(geo, d) && Fits(geo, d)
    requires WriteCheck(geo, d, PathA()) == Ok((ROOT_INO, A, -1)) && FileWritten(geo, d, d', PathA(), Zeros(6144), i)
    ensures Consistent(geo, d')
    ensures var t := NamespaceOf(geo, d'); ROOT_INO in t.kids && A in t.kids[ROOT_INO] && t.kids[ROOT_INO][A] == i && i in t.kind && t.kind[i] == File
  {
    hide Fits, Consistent, NamespaceOf, TextsKept, WriteCheck, TreeOf, LiveInodes, Settled, DirsOK, Namespace, TreeOK, HasText;
  }

  lemma FileTarget(geo: Geometry, d: Disk, path: Bytes, i: nat)
    requires geo.Valid() && Fits(geo, d) && Target(geo, d, path) == Ok((ROOT_INO, A, i)) && i < |d.inode| && d.inode[i].kind == File
    ensures WriteCheck(geo, d, path) == Ok((ROOT_INO, A, i))
  {
    hide Fits, Target;
  }

  lemma SmallBlock()
    ensures Small().Valid() && Small().bs == 1024
  {
    SmallValid();
  }

  lemma SmallSize()
    ensures (Small().blocks + 1) * Small().bs < 0x1_0000_0000 && Small().blocks < DIRECT
  {}

  lemma TooFewForMore(full: Disk, i: nat)
    requires Small().Valid() && Consistent(Small(), full) && Fits(Small(), full) && full.sbFreeBlocks == 0
    requires WriteCheck(Small(), full, PathA()) == Ok((ROOT_INO, A, i)) && Takes(Small(), full, i, 6144)
    ensures i <= Small().inodes && TooFew(Small(), full, i, 6145) && Own(Small(), full, i) != {}
    ensures WriteOutcome(Small(), full, PathA(), 6145) == Err(DiskFull)
  {
    hide *;
    SmallBlock();
    SixBlockFile(Small());
    HeldBlocks(Small(), full, PathA(), i, 6144, 6145);
  }

  /** write-file! over a file of known size. */
  lemma HeldBlocks(geo: Geometry, d: Disk, path: Bytes, i: nat, held: nat, n: nat)
    requires geo.Valid() && Fits(geo, d) && WriteCheck(geo, d, path) == Ok((ROOT_INO, A, i)) && Takes(geo, d, i, held)
    ensures i <= geo.inodes && geo.bs > 0
    ensures TooFew(geo, d, i, n) <==> CeilDiv(n, geo.bs) > d.sbFreeBlocks + BlocksFor(geo, held)
    ensures BlocksFor(geo, held) > 0 ==> Own(geo, d, i) != {}
    ensures WriteOutcome(geo, d, path, n) == ReplaceOutcome(geo, d.sbFreeBlocks, BlocksFor(geo, held), n)
  {
    hide Fits, Own, WriteCheck, BlocksFor, CeilDiv, ReplaceOutcome, MakeOutcome;
  }

  lemma CreateTargetA()
    requires Small().Valid() && Fits(Small(), Formatted())
    ensures CreateCheck(Small(), Formatted(), PathA()) == Ok((ROOT_INO, A))
  {
    hide Fits, Target, Consistent, Nameable, Roomy, Small, Formatted;
    FormattedTarget();
  }

  lemma WriteTargetA()
    requires Small().Valid() && Fits(Small(), Formatted())
    ensures WriteCheck(Small(), Formatted(), PathA()) == Ok((ROOT_INO, A, -1))
  {
    hide Fits, Target, Consistent, Nameable, Roomy, Small, Formatted;
    FormattedTarget();
    NewTarget(Small(), Formatted(), PathA(), ROOT_INO, A);
  }

  /** A volume with the empty directory /a, made by mkdir! on the formatted one. */
  method DirA() returns (fs: Volume, ghost i: nat)
    ensures fresh(fs) && fs.geo == Small() && fs.geo.Valid() && Consistent(fs.geo, fs.disk) && Fits(fs.geo, fs.disk)
    ensures HasDirA(fs.geo, fs.disk, i) && FreeOrEmpty(fs.geo, fs.disk, i, -1)
    ensures fs.disk.sbFreeBlocks == 5 && fs.disk.sbFreeInodes > 0
  {
    hide *;
    FormattedTarget();
    fs := new Volume(Small(), Formatted());
    var r;
    r, i := Mkdir(fs, PathA());
    MadeDirA(r, fs.disk.sbFreeBlocks);
    CreateTargetA();
    DirMadeA(fs.geo, Formatted(), fs.disk, PathA(), i);
    InodesLeft(fs.disk, i);
  }

  /** mv! from /../a to /a/c on any volume with the directory /a and no entry /a/c, or an
      empty directory there: unless space runs out it succeeds, and the disk is no longer
      consistent. */
  method MoveInto(fs: Volume, ghost i: nat, ghost k: int) returns (r: Result<()>)
    requires fs.geo.Valid() && Consistent(fs.geo, fs.disk) && Fits(fs.geo, fs.disk)
    requires HasDirA(fs.geo, fs.disk, i) && FreeOrEmpty(fs.geo, fs.disk, i, k) && i <= fs.geo.inodes && SmallDir(fs.geo, fs.disk, i)
    modifies fs
    ensures r == if k >= 0 then Ok(()) else Bare(AddOutcome(fs.geo, old(fs.disk), old(fs.disk).sbFreeBlocks, i, C))
    ensures r.Ok? ==> !Consistent(fs.geo, fs.disk)
  {
    hide *;
    ghost var d := fs.disk;
    MvCheckMisses(fs.geo, d, i, k);
    NamesA(fs.geo, d, i, k);
    r := Mv(fs, PathUpA(), PathAC());
    OutcomeIs(fs.geo, d, PathUpA(), PathAC(), ROOT_INO, A, i, i, C, k);
  }

  /** So it goes on the small volume. */
  method LoopsA() returns (fs: Volume, r: Result<()>, ghost before: Disk)
    ensures fresh(fs) && fs.geo.Valid() && Consistent(fs.geo, before) && r == Ok(()) && !Consistent(fs.geo, fs.disk)
  {
    hide *;
    ghost var i;
    fs, i := DirA();
    before := fs.disk;
    SmallDirA(before, i, -1);
    r := MoveInto(fs, i, -1);
    BareIs(AddOutcome(fs.geo, before, before.sbFreeBlocks, i, C));
  }

  /** And with the empty directory /a/c as the target to replace. */
  method LoopsOverC() returns (fs: Volume, r: Result<()>, ghost before: Disk)
    ensures fresh(fs) && fs.geo.Valid() && Consistent(fs.geo, before) && r == Ok(()) && !Consistent(fs.geo, fs.disk)
  {
    hide *;
    ghost var i, k;
    fs, i := DirA();
    ghost var d := fs.disk;
    SmallDirA(d, i, -1);
    NamesA(fs.geo, d, i, -1);
    CreateTargetC(fs.geo, d, i);
    r, k := Mkdir(fs, PathAC());
    MadeDirC(d, i, r, fs.disk.sbFreeBlocks);
    DirMadeC(fs.geo, d, fs.disk, i, k);
    before := fs.disk;
    SmallDirA(before, i, k);
    r := MoveInto(fs, i, k);
  }

  /** A full volume whose one file /a has all six blocks. */
  method FullWithA() returns (fs: Volume, ghost i: nat)
    ensures fresh(fs) && fs.geo == Small() && fs.geo.Valid() && Consistent(fs.geo, fs.disk) && Fits(fs.geo, fs.disk) && fs.disk.sbFreeBlocks == 0
    ensures WriteCheck(fs.geo, fs.disk, PathA()) == Ok((ROOT_INO, A, i))
    ensures Nameable(fs.geo, fs.disk, PathA()) && Roomy(fs.geo, fs.disk, PathA()) && Takes(fs.geo, fs.disk, i, 6144)
  {
    hide *;
    FormattedTarget();
    fs := new Volume(Small(), Formatted());
    var r;
    r, i := WriteFile(fs, PathA(), Zeros(6144));
    MadeFileA(r, fs.disk.sbFreeBlocks);
    SmallSize();
    WriteTargetA();
    FileMadeA(fs.geo, Formatted(), fs.disk, i);
  }

  lemma EmptiedBad(geo: Geometry, d: Disk, d': Disk, i: nat)
    requires geo.Valid() && Fits(geo, d) && i <= geo.inodes && LeftEmptied(geo, d, d', i) && Own(geo, d, i) != {}
    ensures !Consistent(geo, d')
  {
    hide Fits, Own, Consistent, Emptied;
  }

  /** Writing one byte more to that file fails, and leaves it mapping blocks that are
      marked free. */
  method LosesA() returns (fs: Volume, r: Result<()>, ghost full: Disk)
    ensures fresh(fs) && fs.geo.Valid() && Consistent(fs.geo, full) && Fits(fs.geo, full)
    ensures WriteOutcome(fs.geo, full, PathA(), 6145) == Err(DiskFull) && r == Err(DiskFull)
    ensures !Consistent(fs.geo, fs.disk)
  {
    hide *;
    ghost var held, i;
    fs, held := FullWithA();
    full := fs.disk;
    TooFewForMore(full, held);
    r, i := WriteFile(fs, PathA(), Zeros(6145));
    ToldIs(r, fs.disk.sbFreeBlocks);
    EmptiedBad(fs.geo, full, fs.disk, held);
  }
}
