/** Creating files, directories and symbolic links (lib/ext2.beer:508-520,
    710-714, 733-756, 860-885). */
module Ext2Make {
  import opened Bytes
  import opened Seqs
  import opened Ext2Disk
  import opened Ext2Alloc
  import opened Ext2Space
  import opened Ext2InodeAlloc
  import opened Ext2BlockMap
  import opened Ext2BuildMap
  import opened Ext2FileData
  import opened Ext2DirBlock
  import opened Ext2DirData
  import opened Ext2Store
  import opened Ext2Dir
  import opened Ext2DirOps
  import opened Ext2Names
  import opened Ext2Lookup
  import opened Ext2Books
  import opened Ext2Views
  import opened Ext2Create
  import opened Ext2Tree

  const FT_FILE := 1
  const FT_DIR := 2
  const FT_SYMLINK := 7

  /** The type byte of an entry for such an inode. */
  function TypeOf(k: Kind): (t: nat)
    ensures t < 256
  {
    match k
    case File => FT_FILE
    case Dir => FT_DIR
    case Symlink => FT_SYMLINK
    case Other => 0
  }

  /** The directory names inode i, and the entry's type is the inode's. */
  ghost predicate Typed(geo: Geometry, d: Disk, dir: nat, nm: Bytes, i: nat)
    requires geo.Valid()
  {
    i < |d.inode| && HasEntry(geo, d, dir, NewEntry(geo.filetype, nm, i, TypeOf(d.inode[i].kind)))
  }

  // ---- the tree after linking ----

  lemma SameViewNode(geo: Geometry, d: Disk, d': Disk, t: Tree, j: nat)
    requires geo.Valid() && Fits(geo, d) && Fits(geo, d') && SameView(geo, d, d', j) && ShowsNode(geo, d, t, j)
    ensures ShowsNode(geo, d', t, j) && SameText(geo, d, d', j)
    ensures Shows(geo, d', j, TreeView(t, j, TextOf(geo, d, j)))
  {
    hide Fits, Shows, SameView;
    var w := TreeView(t, j, TextOf(geo, d, j));
    ViewUsed(geo, d, d', j, w);
    ShowsText(geo, d', t, j, w);
  }

  lemma LinkedShows(geo: Geometry, d0: Disk, d: Disk, live: set<nat>, p: nat, nm: Bytes, ino: nat, v: View, j: nat)
    requires geo.Valid() && Linked(geo, d0, d, live, p, nm, ino, v) && FreeName(geo, d0, live, p, nm)
    requires Fits(geo, d0) && Fits(geo, d) && Numbers(geo, live) && DirsOK(geo, d0, live) && j in live
    ensures ShowsNode(geo, d0, TreeOf(geo, d0, live), j)
    ensures var t := TreeOf(geo, d0, live);
            var w := TreeView(t, j, TextOf(geo, d0, j));
            Shows(geo, d, j, if j == p then w.(kids := Bind(w.kids, nm, ino)) else w)
  {
    hide Fits, Shows, SameView, Settled, Store, InodeBooks, TreeOf;
    ViewsOfTree(geo, d0, live, j);
    var t := TreeOf(geo, d0, live);
    if j != p { SameViewNode(geo, d0, d, t, j); }
  }

  lemma LinkedParts(geo: Geometry, d0: Disk, d: Disk, live: set<nat>, p: nat, nm: Bytes, ino: nat, v: View)
    requires geo.Valid() && Linked(geo, d0, d, live, p, nm, ino, v) && FreeName(geo, d0, live, p, nm)
    ensures Fits(geo, d0) && Fits(geo, d) && Numbers(geo, live) && Numbers(geo, live + {ino}) && DirsOK(geo, d0, live)
    ensures Store(geo, d, live + {ino}, {}) && InodeBooks(geo, d, live + {ino}, DirSet(d, live + {ino}))
    ensures var t := TreeOf(geo, d0, live);
            TreeOK(t) && Shaped(t) && t.kind.Keys == live && p in t.kids && nm !in t.kids[p] && ino !in t.kind && p in t.links
    ensures Settled(geo, d0, live) && ino <= geo.inodes
  {
    hide Fits, Shows, SameView, Settled, Store, InodeBooks, TreeOf, TreeOK;
    SettledParts(geo, d0, live);
    StoreFits(geo, d, live + {ino}, {});
    TreeAt(geo, d0, live, p);
  }

  /** A linked file, symbolic link or other leaf. */
  lemma LinkedFile(geo: Geometry, d0: Disk, d: Disk, live: set<nat>, p: nat, nm: Bytes, ino: nat, v: View)
    requires geo.Valid() && Linked(geo, d0, d, live, p, nm, ino, v) && FreeName(geo, d0, live, p, nm)
    requires v.kind != Dir && v == View(v.kind, 1, map[], -1, v.text)
    ensures Fits(geo, d0) && Numbers(geo, live) && DirsOK(geo, d0, live)
    ensures var t := TreeOf(geo, d0, live);
            p in t.kids && Became(geo, d0, d, live + {ino}, AddFile(t, p, nm, ino, v.kind), live)
    ensures Fits(geo, d) && ino <= geo.inodes && ino < |d.inode| && TextOf(geo, d, ino) == v.text
  {
    hide Fits, Shows, SameView, Settled, Store, InodeBooks, TreeOf, TreeOK, Linked, FreeName, ShowsNode, TextOf;
    LinkedParts(geo, d0, d, live, p, nm, ino, v);
    var t := TreeOf(geo, d0, live);
    var t' := AddFile(t, p, nm, ino, v.kind);
    AddFileKeeps(t, p, nm, ino, v.kind);
    TreeParts(t');
    forall j | j in live ensures ShowsNode(geo, d, t', j) && SameText(geo, d0, d, j) {
      LinkedOld(geo, d0, d, live, p, nm, ino, v, t', j);
    }
    LinkedNew(geo, d0, d, live, p, nm, ino, v, t');
    SettledFrom(geo, d, live + {ino}, t');
  }

  lemma LinkedOld(geo: Geometry, d0: Disk, d: Disk, live: set<nat>, p: nat, nm: Bytes, ino: nat, v: View, t': Tree, j: nat)
    requires geo.Valid() && Linked(geo, d0, d, live, p, nm, ino, v) && FreeName(geo, d0, live, p, nm)
    requires Fits(geo, d0) && Fits(geo, d) && Numbers(geo, live) && DirsOK(geo, d0, live) && j in live
    requires p in TreeOf(geo, d0, live).kids && t' == AddFile(TreeOf(geo, d0, live), p, nm, ino, v.kind)
    ensures ShowsNode(geo, d, t', j) && SameText(geo, d0, d, j)
  {
    hide Fits, Shows, SameView, Settled, Store, InodeBooks, TreeOf, TreeOK, TextOf, DirsOK;
    LinkedShows(geo, d0, d, live, p, nm, ino, v, j);
    var w := TreeView(TreeOf(geo, d0, live), j, TextOf(geo, d0, j));
    ShowsText(geo, d, t', j, if j == p then w.(kids := Bind(w.kids, nm, ino)) else w);
  }

  lemma LinkedNew(geo: Geometry, d0: Disk, d: Disk, live: set<nat>, p: nat, nm: Bytes, ino: nat, v: View, t': Tree)
    requires geo.Valid() && Linked(geo, d0, d, live, p, nm, ino, v) && FreeName(geo, d0, live, p, nm)
    requires Fits(geo, d0) && Fits(geo, d) && Numbers(geo, live) && DirsOK(geo, d0, live)
    requires p in TreeOf(geo, d0, live).kids && t' == AddFile(TreeOf(geo, d0, live), p, nm, ino, v.kind)
    requires v.kind != Dir && v == View(v.kind, 1, map[], -1, v.text)
    ensures ShowsNode(geo, d, t', ino) && ino <= geo.inodes && ino < |d.inode| && TextOf(geo, d, ino) == v.text
  {
    hide Fits, Shows, SameView, Settled, Store, InodeBooks, TreeOK, TextOf, DirsOK;
    TreeAt(geo, d0, live, ino);
    ShowsText(geo, d, t', ino, v);
  }

  // ---- new files ----

  lemma DirSetNew(d: Disk, d': Disk, live: set<nat>, ino: nat, v: Inode)
    requires ino !in live && ino < |d.inode| && d'.inode == d.inode[ino := v]
    ensures DirSet(d', live + {ino}) == DirSet(d, live) + (if v.kind == Dir then {ino} else {})
  {}

  lemma NewInode(geo: Geometry, d0: Disk, d1: Disk, live: set<nat>, ino: nat, dir: bool)
    requires geo.Valid() && Settled(geo, d0, live) && BitmapsFit(geo, d0.ibm)
    requires geo.firstIno <= ino <= geo.inodes && ino !in UsedInos(geo, d0.ibm)
    requires InodeCounts(geo, d1) && BitmapsFit(geo, d1.ibm) && BlockCounts(geo, d1)
    requires UsedInos(geo, d1.ibm) == UsedInos(geo, d0.ibm) + {ino}
    requires InodeMoved(geo, d0, d1, ino, if dir then 1 else 0)
    ensures Numbered(geo, d0, d1, live, ino, dir)
  {
    hide Fits, Store, UsedInos, InodeCounts, BlockCounts, InodeBooks, Namespace, Kept, DirSet, BitmapsFit;
    BooksAfterAlloc(geo, d0, d1, live, DirSet(d0, live), ino, dir);
    assert DirSet(d0, live) + {} == DirSet(d0, live);
    InodeBitsStep(geo, d0, d1, live, {});
    StoreFits(geo, d1, live, {});
  }

  lemma AllocReady(geo: Geometry, d: Disk, live: set<nat>, p: nat)
    requires geo.Valid() && Settled(geo, d, live) && p in live
    ensures InodeCounts(geo, d) && BlockCounts(geo, d) && BitmapsFit(geo, d.ibm) && Ready(geo, d) && Fits(geo, d)
    ensures forall i: nat :: 1 <= i < geo.firstIno ==> i in UsedInos(geo, d.ibm)
    ensures 1 <= p <= geo.inodes && geo.ipg > 0 && geo.GroupOfInode(p) < geo.ngroups
  {
    hide Fits, Store, UsedInos, BlockCounts, InodeBooks, Namespace, DirSet;
    StoreFits(geo, d, live, {});
    LiveInRange(geo, d, live, DirSet(d, live));
    ReservedUsed(geo, d, live, DirSet(d, live));
    InodeSplit(geo, p);
  }

  lemma ReservedUsed(geo: Geometry, d: Disk, live: set<nat>, dirs: set<nat>)
    requires geo.Valid() && InodeBooks(geo, d, live, dirs)
    ensures BitmapsFit(geo, d.ibm) && forall i: nat :: 1 <= i < geo.firstIno ==> i in UsedInos(geo, d.ibm)
  {
    hide UsedInos, FreeInos, SumFreeInos, DirsIn;
    forall i: nat | 1 <= i < geo.firstIno ensures i in UsedInos(geo, d.ibm) { assert i in Reserved(geo); }
  }

  /** alloc-inode!, seen from the callers that make a new file. */
  method TakeInode(fs: Volume, p: nat, dir: bool, ghost live: set<nat>) returns (r: Result<nat>)
    requires fs.geo.Valid() && Settled(fs.geo, fs.disk, live) && p in live
    modifies fs
    ensures r.Err? <==> old(fs.disk).sbFreeInodes == 0
    ensures r.Err? ==> r.reason == NoFreeInodes && fs.disk == old(fs.disk)
    ensures r.Ok? ==> Numbered(fs.geo, old(fs.disk), fs.disk, live, r.value, dir)
  {
    hide Fits, Store, InodeBooks, Kept, DirSet, Settled, Geometry.Valid, FreeInos, SumFreeInos, BlockCounts, UsedInos, BitmapsFit,
         FoundAt, InodeMoved, NoneIn;
    ghost var d0 := fs.disk;
    AllocReady(fs.geo, d0, live, p);
    r := AllocInode(fs, fs.geo.GroupOfInode(p), dir);
    if r.Ok? {
      NewInode(fs.geo, d0, fs.disk, live, r.value, dir);
      InodeCount(fs.geo, d0, r.value);
    } else {
      NoInodeCount(fs.geo, d0, fs.geo.GroupOfInode(p));
    }
  }

  /** Inode number ino was taken, for a directory or not, and nothing else. */
  ghost predicate Numbered(geo: Geometry, d0: Disk, d1: Disk, live: set<nat>, ino: nat, dir: bool)
    requires geo.Valid()
  {
    && 1 <= ino <= geo.inodes && ino !in live && ino < |d1.inode| && d1.inode == d0.inode
    && Store(geo, d1, live, {}) && Fits(geo, d0) && Fits(geo, d1) && Kept(geo, d0, d1, live)
    && InodeBooks(geo, d1, live + {ino}, DirSet(d0, live) + (if dir then {ino} else {}))
    && d1.sbFreeBlocks == d0.sbFreeBlocks
  }

  lemma NumberedReady(geo: Geometry, d0: Disk, d1: Disk, live: set<nat>, ino: nat, dir: bool)
    requires geo.Valid() && Numbered(geo, d0, d1, live, ino, dir)
    ensures Ready(geo, d1) && DataFit(geo.bs, d1.data) && 1 <= ino <= geo.inodes && ino < |d1.inode|
    ensures geo.ipg > 0 && geo.GroupOfInode(ino) < geo.ngroups && 1024 <= geo.bs
  {
    hide Store, UsedInos, InodeCounts, BlockCounts, InodeBooks, Kept, DirSet;
    GroupInRange(geo, ino);
  }

  lemma NumberedFree(geo: Geometry, d0: Disk, d1: Disk, live: set<nat>, ino: nat, dir: bool)
    requires geo.Valid() && Numbered(geo, d0, d1, live, ino, dir)
    ensures d1.sbFreeBlocks == d0.sbFreeBlocks && d1.inode == d0.inode && ino !in live
    ensures Store(geo, d1, live, {}) && Fits(geo, d0) && Fits(geo, d1) && Kept(geo, d0, d1, live)
    ensures InodeBooks(geo, d1, live + {ino}, DirSet(d0, live) + (if dir then {ino} else {}))
  {
    hide Store, Fits, InodeBooks, Kept, DirSet;
  }

  /** How a failure to make the inode, and one to name it, are reported. */
  lemma MakeFails(geo: Geometry, d: Disk, live: set<nat>, p: nat, nm: Bytes, blocks: nat)
    requires geo.Valid() && FreeName(geo, d, live, p, nm)
    ensures Fits(geo, d) && p <= geo.inodes
    ensures NodeOutcome(d, blocks).Err? ==> MakeOutcome(geo, d, blocks, p, nm) == NodeOutcome(d, blocks)
    ensures NodeOutcome(d, blocks).Ok? ==> MakeOutcome(geo, d, blocks, p, nm) == AddOutcome(geo, d, NodeOutcome(d, blocks).value, p, nm)
  {
    hide Fits, Settled, TreeOf, AddOutcome;
    FreeNameDir(geo, d, live, p, nm);
  }

  /** A target that the inode has no room for takes one block. */
  function TargetBlocks(target: Bytes): nat { if |target| < 60 then 0 else 1 }

  lemma NotMade(geo: Geometry, d: Disk, live: set<nat>)
    requires geo.Valid() && Settled(geo, d, live)
    ensures Unharmed(geo, d, d, live)
  {
    hide Fits, Store, InodeBooks, Namespace, SameView, Kept, Unharmed;
    KeptNow(geo, d, live, {});
    KeptUnharmed(geo, d, d, live);
  }

  /** The same of fewer inodes. */
  lemma UnharmedFewer(geo: Geometry, d: Disk, d': Disk, s: set<nat>, s': set<nat>)
    requires geo.Valid() && Unharmed(geo, d, d', s) && s' <= s
    ensures Unharmed(geo, d, d', s')
  {
    hide Fits, SameView;
  }

  function EmptyInode(kind: Kind, links: nat): (v: Inode)
    ensures |v.iblock| == 60
  {
    Inode(kind, 0, links, 0, Zeros(60))
  }

  lemma PendingFile(geo: Geometry, d0: Disk, d1: Disk, live: set<nat>, ino: nat)
    requires geo.Valid() && Settled(geo, d0, live) && Numbered(geo, d0, d1, live, ino, false)
    requires ino < |d1.inode|
    ensures Pending(geo, d0, d1.(inode := d1.inode[ino := EmptyInode(File, 1)]), live, ino,
                    View(File, 1, map[], -1, Ok([])))
  {
    hide Fits, Store, InodeBooks, Kept, DirSet, Settled, Geometry.Valid, Own, OwnsWell, Contents;
    var v := EmptyInode(File, 1);
    var d2 := d1.(inode := d1.inode[ino := v]);
    FitsInode(geo, d1, ino, v);
    EmptyOwns(geo, d2, ino);
    Adopt(geo, d0, d1, live, {}, ino, v);
    InodeBooksSame(geo, d1, d2, live + {ino}, DirSet(d0, live) + {});
    DirSetNew(d0, d2, live, ino, v);
  }

  /** A new, empty regular file nm in directory p. */
  method CreateFile(fs: Volume, p: nat, nm: Bytes, ghost live: set<nat>) returns (r: Result<nat>)
    requires fs.geo.Valid() && FreeName(fs.geo, fs.disk, live, p, nm) && SmallDir(fs.geo, fs.disk, p)
    modifies fs
    ensures Fits(fs.geo, old(fs.disk)) && Numbers(fs.geo, live) && DirsOK(fs.geo, old(fs.disk), live)
    ensures r.Ok? ==>
      && p in TreeOf(fs.geo, old(fs.disk), live).kids
      && r.value !in live
      && Became(fs.geo, old(fs.disk), fs.disk, live + {r.value},
                AddFile(TreeOf(fs.geo, old(fs.disk), live), p, nm, r.value, File), live)
      && Fits(fs.geo, fs.disk) && r.value < |fs.disk.inode| && fs.disk.inode[r.value] == EmptyInode(File, 1)
    ensures r.Ok? ==> Typed(fs.geo, fs.disk, p, nm, r.value)
    ensures p <= fs.geo.inodes && Told(r, fs.disk.sbFreeBlocks) == MakeOutcome(fs.geo, old(fs.disk), 0, p, nm)
    ensures r == Err(NoFreeInodes) ==> fs.disk == old(fs.disk)
    ensures Unharmed(fs.geo, old(fs.disk), fs.disk, live - {p})
  {
    hide Fits, Settled, Geometry.Valid, Pending, Linked, TreeOf, Numbers, DirsOK, SmallDir, Became, Numbered, AddOutcome, MakeOutcome, Store, InodeBooks, Kept, TreeOK, Shaped, Unharmed;
    var geo := fs.geo;
    ghost var d0 := fs.disk;
    SettledParts(geo, d0, live);
    MakeFails(geo, d0, live, p, nm, 0);
    NotMade(geo, d0, live);
    UnharmedFewer(geo, d0, d0, live, live - {p});
    var got := TakeInode(fs, p, false, live);
    if got.Err? { return Err(got.reason); }
    var ino := got.value;
    NumberedReady(geo, d0, fs.disk, live, ino, false);
    NumberedFree(geo, d0, fs.disk, live, ino, false);
    PendingFile(geo, d0, fs.disk, live, ino);
    fs.disk := fs.disk.(inode := fs.disk.inode[ino := EmptyInode(File, 1)]);
    ghost var v := View(File, 1, map[], -1, Ok([]));
    var linked := LinkNew(fs, p, nm, ino, FT_FILE, d0, live, v);
    if linked.Err? { return Err(linked.reason); }
    LinkedFile(geo, d0, fs.disk, live, p, nm, ino, v);
    LinkedKind(geo, d0, fs.disk, live, p, nm, ino, v);
    return Ok(ino);
  }

  lemma LinkedKind(geo: Geometry, d0: Disk, d: Disk, live: set<nat>, p: nat, nm: Bytes, ino: nat, v: View)
    requires geo.Valid() && Linked(geo, d0, d, live, p, nm, ino, v)
    ensures ino !in live && ino < |d.inode| && d.inode[ino].kind == v.kind
  {
    hide Fits, Store, InodeBooks, DirSet, Settled;
  }

  // ---- new directories ----

  lemma TakenAndWritten(geo: Geometry, d0: Disk, d1: Disk, d2: Disk, live: set<nat>, more: set<nat>, dirs: set<nat>, blk: nat, buf: Bytes)
    requires geo.Valid() && Store(geo, d1, live, {}) && Grew(geo, d1, d2, {blk}) && |buf| == geo.bs
    requires Fits(geo, d0) && Fits(geo, d1) && Kept(geo, d0, d1, live) && InodeBooks(geo, d1, more, dirs)
    ensures 0 < blk < |d2.data| && geo.DataBlock(blk)
    ensures var d3 := d2.(data := d2.data[blk := buf]);
            && Store(geo, d3, live, {blk}) && Fits(geo, d3) && Kept(geo, d0, d3, live)
            && InodeBooks(geo, d3, more, dirs) && d3.inode == d1.inode
  {
    hide Store, InodeBooks, Kept, Grew, Own, Geometry.Valid, Ready;
    GrewWritten(geo, d1, d2, {blk}, blk, buf);
    GrewIs(geo, d1, d2, {blk});
    GrowStep(geo, d1, d2, live, {}, {blk});
    assert {} + {blk} == {blk};
    var d3 := d2.(data := d2.data[blk := buf]);
    StoreFits(geo, d2, live, {blk});
    WrittenFit(geo.bs, d2.data, blk, buf);
    WriteStep(geo, d2, d3.data, live, {blk});
    StoreFits(geo, d3, live, {blk});
    KeptAgain(geo, d0, d1, d2, live);
    KeptAgain(geo, d0, d2, d3, live);
    BooksAfterGrow(geo, d1, d2, {blk});
    InodeBooksSame(geo, d1, d2, more, dirs);
    InodeBooksSame(geo, d2, d3, more, dirs);
  }

  function DirInode(bs: nat, blk: nat): (v: Inode)
    ensures |v.iblock| == 60
  {
    EmptyInode(Dir, 2).(iblock := OneBlockMap(blk), size := bs, sectors := bs / 512)
  }

  /** The entries of a new directory. */
  lemma NewDirEntries(ft: bool, ino: nat, p: nat, t: nat)
    ensures var es := [NewEntry(ft, DOT, ino, t), NewEntry(ft, DOTDOT, p, t)];
            && KidMap(es) == map[] && FindIno(es, DOT) == ino && FindIno(es, DOTDOT) == p && UniqueNames(es)
            && !NoneNamed(es, DOTDOT)
  {
    var es := [NewEntry(ft, DOT, ino, t), NewEntry(ft, DOTDOT, p, t)];
    var a, b := es[0], es[1];
    assert es == [a] + [b] && es[1..] == [b] && [b][1..] == [];
    forall n ensures FindIno(es, n) == if n == DOT then ino else if n == DOTDOT then p else -1 {
      hide FindIno;
      FindConcat([a], [b], n);
      FindOne(a, n);
      FindOne(b, n);
    }
    forall n ensures n !in KidMap(es) { KidMapIs(es, n); }
    assert es[1].name == DOTDOT && es[1] in es;
    assert Named(es[1], DOTDOT);
  }

  lemma NewDirOK(geo: Geometry, d: Disk, ino: nat, p: nat, blk: nat)
    requires geo.Valid() && Fits(geo, d) && 1 <= ino <= geo.inodes && ino < |d.inode|
    requires d.inode[ino] == DirInode(geo.bs, blk) && 0 < blk < |d.data| && geo.DataBlock(blk)
    requires 0 < p <= geo.inodes
    requires d.data[blk] == NewDirBlock(geo.filetype, geo.bs, ino, p, FT_DIR)
    ensures DirOK(geo, d, ino)
    ensures Ents(geo, d, ino) == [NewEntry(geo.filetype, DOT, ino, FT_DIR), NewEntry(geo.filetype, DOTDOT, p, FT_DIR)]
    ensures FirstBlockNames(geo, d, ino, DOTDOT)
  {
    hide Tiles, Entries, Words, MapBlocks, Ready, NoneNamed, BlockEntries, NewDirBlock, Fb, OwnsWell, Own, CeilDiv;
    var ft, bs := geo.filetype, geo.bs;
    FitsData(geo, d);
    OneBlockOwns(geo, d, ino, blk);
    WholeWords(geo);
    NewDirBlockIs(ft, bs, ino, p, FT_DIR);
    OneDir(ft, bs, d.data, blk);
    OneEntries(ft, bs, d.data, blk);
    NewDirEntries(ft, ino, p, FT_DIR);
    assert |[blk]| * bs == bs;
  }

  lemma WholeWords(geo: Geometry)
    requires geo.Valid()
    ensures 1024 <= geo.bs < 0x1_0000 && geo.bs % 4 == 0 && geo.inodes < 0x1_0000_0000
  {
    assert geo.bs % 512 == 0 && geo.inodes < 0x1_0000_0000 && 1024 <= geo.bs < 0x1_0000;
    hide *;
    WholeWord(geo.bs);
  }

  lemma WholeWord(n: nat)
    requires n % 512 == 0
    ensures n % 4 == 0
  {}

  lemma PendingNewDir(geo: Geometry, d0: Disk, d3: Disk, live: set<nat>, ino: nat, p: nat, blk: nat)
    requires geo.Valid() && Settled(geo, d0, live) && Fits(geo, d0) && Fits(geo, d3)
    requires ino !in live && 1 <= ino <= geo.inodes && ino < |d3.inode| && d3.inode == d0.inode
    requires Store(geo, d3, live, {blk}) && Kept(geo, d0, d3, live)
    requires InodeBooks(geo, d3, live + {ino}, DirSet(d0, live) + {ino})
    requires 0 < blk < |d3.data| && geo.DataBlock(blk) && 0 < p <= geo.inodes
    requires d3.data[blk] == NewDirBlock(geo.filetype, geo.bs, ino, p, FT_DIR)
    ensures Pending(geo, d0, d3.(inode := d3.inode[ino := DirInode(geo.bs, blk)]), live, ino,
                    View(Dir, 2, map[], p, Ok([])))
  {
    hide Fits, Store, InodeBooks, Kept, DirSet, Settled, Geometry.Valid, Own, OwnsWell, Contents, KidMap, FindIno, DirOK,
         FirstBlockNames, UniqueNames, Ents;
    var v := DirInode(geo.bs, blk);
    var d4 := d3.(inode := d3.inode[ino := v]);
    FitsInode(geo, d3, ino, v);
    NewDirOK(geo, d4, ino, p, blk);
    NewDirEntries(geo.filetype, ino, p, FT_DIR);
    NewDirOwns(geo, d4, ino, blk);
    Adopt(geo, d0, d3, live, {blk}, ino, v);
    InodeBooksSame(geo, d3, d4, live + {ino}, DirSet(d0, live) + {ino});
    DirSetNew(d0, d4, live, ino, v);
    DirShows(geo, d4, ino, View(Dir, 2, map[], p, Ok([])));
  }

  lemma NewDirOwns(geo: Geometry, d: Disk, ino: nat, blk: nat)
    requires geo.Valid() && Fits(geo, d) && 1 <= ino <= geo.inodes && ino < |d.inode|
    requires d.inode[ino] == DirInode(geo.bs, blk) && geo.DataBlock(blk) && blk != 0
    ensures OwnsWell(geo, d, ino) && Own(geo, d, ino) == {blk}
  {
    hide Fits, Own, OwnsWell, Fb;
    OneBlockOwns(geo, d, ino, blk);
  }

  /** The inode with its link count changed by delta, in its 16-bit field. */
  function Linked16(v: Inode, delta: int): Inode { v.(links := (v.links + delta) % LINK_WRAP) }

  /** A linked directory, once its parent's link count was raised. */
  lemma LinkedDir(geo: Geometry, d0: Disk, d: Disk, live: set<nat>, p: nat, nm: Bytes, ino: nat)
    requires geo.Valid() && Linked(geo, d0, d, live, p, nm, ino, View(Dir, 2, map[], p, Ok([])))
    requires FreeName(geo, d0, live, p, nm) && p < |d.inode|
    ensures Fits(geo, d0) && Numbers(geo, live) && DirsOK(geo, d0, live)
    ensures var t := TreeOf(geo, d0, live);
            && p in t.kids && p in t.links
            && Became(geo, d0, d.(inode := d.inode[p := Linked16(d.inode[p], 1)]), live + {ino}, AddDir(t, p, nm, ino), live)
  {
    hide Fits, Shows, SameView, Settled, Store, InodeBooks, TreeOf, TreeOK, FreeName, ShowsNode, TextOf, Kept, DirSet, SameText, DirsOK, AddDir;
    var v := View(Dir, 2, map[], p, Ok([]));
    LinkedParts(geo, d0, d, live, p, nm, ino, v);
    var t := TreeOf(geo, d0, live);
    var t' := AddDir(t, p, nm, ino);
    var x := Linked16(d.inode[p], 1);
    var d' := d.(inode := d.inode[p := x]);
    AddDirKeeps(t, p, nm, ino);
    AddDirParts(t, p, nm, ino);
    LinksStep(geo, d, live + {ino}, {}, p, x);
    KeptViews(geo, d, d', live + {ino} - {p});
    forall j | j in live ensures ShowsNode(geo, d', t', j) && SameText(geo, d0, d', j) {
      LinkedDirOld(geo, d0, d, d', live, p, nm, ino, v, t', x, j);
    }
    LinkedDirNew(geo, d0, d, d', live, p, nm, ino, t');
    DirSetLinks(d, d', live + {ino}, p, x);
    InodeBooksSame(geo, d, d', live + {ino}, DirSet(d, live + {ino}));
    SettledFrom(geo, d', live + {ino}, t');
  }

  lemma AddDirParts(t: Tree, p: nat, nm: Bytes, ino: nat)
    requires p in t.kids && p in t.links && Shaped(t) && p in t.kind && TreeOK(AddDir(t, p, nm, ino))
    ensures Shaped(AddDir(t, p, nm, ino)) && AddDir(t, p, nm, ino).kind.Keys == t.kind.Keys + {ino}
  {
    hide TreeOK;
    TreeParts(AddDir(t, p, nm, ino));
  }

  lemma DirSetLinks(d: Disk, d': Disk, live: set<nat>, i: nat, v: Inode)
    requires i < |d.inode| && OnlyLinks(d.inode[i], v) && d' == d.(inode := d.inode[i := v])
    ensures DirSet(d', live) == DirSet(d, live)
  {}

  lemma LinkedDirOld(geo: Geometry, d0: Disk, d: Disk, d': Disk, live: set<nat>, p: nat, nm: Bytes, ino: nat, v: View,
                     t': Tree, x: Inode, j: nat)
    requires geo.Valid() && Linked(geo, d0, d, live, p, nm, ino, v) && FreeName(geo, d0, live, p, nm) && p != ino && ino != j
    requires Fits(geo, d0) && Fits(geo, d) && Fits(geo, d') && Numbers(geo, live) && DirsOK(geo, d0, live) && j in live
    requires var t := TreeOf(geo, d0, live);
             p in t.kids && p in t.links && t' == AddDir(t, p, nm, ino) && TreeOK(t)
    requires p < |d.inode| && x == Linked16(d.inode[p], 1) && d' == d.(inode := d.inode[p := x])
    requires j != p ==> SameView(geo, d, d', j)
    ensures ShowsNode(geo, d', t', j) && SameText(geo, d0, d', j)
  {
    hide Fits, Shows, SameView, Settled, Store, InodeBooks, TreeOf, TextOf, DirsOK, Kept, TreeOK;
    LinkedShows(geo, d0, d, live, p, nm, ino, v, j);
    var t := TreeOf(geo, d0, live);
    var w := TreeView(t, j, TextOf(geo, d0, j));
    if j == p {
      var w1 := w.(kids := Bind(w.kids, nm, ino));
      LinksView(geo, d, d', p, x, w1);
      ShowsLinks(geo, d, p, w1);
      ShowsText(geo, d', t', j, w1.(links := x.links));
    } else {
      ViewUsed(geo, d, d', j, w);
      ShowsText(geo, d', t', j, w);
    }
  }

  lemma ShowsLinks(geo: Geometry, d: Disk, i: nat, w: View)
    requires geo.Valid() && Fits(geo, d) && Shows(geo, d, i, w)
    ensures i <= geo.inodes && i < |d.inode| && d.inode[i].links == w.links && d.inode[i].kind == w.kind
    ensures TextOf(geo, d, i) == w.text
  {
    hide Fits, TextOf;
  }

  lemma LinkedDirNew(geo: Geometry, d0: Disk, d: Disk, d': Disk, live: set<nat>, p: nat, nm: Bytes, ino: nat, t': Tree)
    requires geo.Valid() && Linked(geo, d0, d, live, p, nm, ino, View(Dir, 2, map[], p, Ok([]))) && p != ino
    requires Fits(geo, d0) && Fits(geo, d) && Fits(geo, d') && Numbers(geo, live) && DirsOK(geo, d0, live)
    requires var t := TreeOf(geo, d0, live); p in t.kids && p in t.links && t' == AddDir(t, p, nm, ino)
    requires SameView(geo, d, d', ino)
    ensures ShowsNode(geo, d', t', ino)
  {
    hide Fits, Shows, SameView, Settled, Store, InodeBooks, TreeOf, TextOf, DirsOK;
    var v := View(Dir, 2, map[], p, Ok([]));
    ViewUsed(geo, d, d', ino, v);
    ShowsText(geo, d', t', ino, v);
  }

  /** mkdir!'s inode and block, not yet named. */
  method NewDir(fs: Volume, p: nat, ghost live: set<nat>) returns (r: Result<nat>)
    requires fs.geo.Valid() && Settled(fs.geo, fs.disk, live) && p in live
    modifies fs
    ensures r.Ok? ==> Pending(fs.geo, old(fs.disk), fs.disk, live, r.value, View(Dir, 2, map[], p, Ok([])))
    ensures Told(r, fs.disk.sbFreeBlocks) == NodeOutcome(old(fs.disk), 1)
    ensures r == Err(NoFreeInodes) ==> fs.disk == old(fs.disk)
    ensures r.Err? ==> Unharmed(fs.geo, old(fs.disk), fs.disk, live)
  {
    hide Fits, Store, InodeBooks, Kept, DirSet, Settled, Geometry.Valid, Own, OwnsWell, Pending, TreeOf,
         Numbers, DirsOK, Grew, Ready, NewDirBlock, DirInode, Shows, DataFit, Numbered, Unharmed;
    var geo := fs.geo;
    ghost var d0 := fs.disk;
    AllocReady(geo, d0, live, p);
    var got := TakeInode(fs, p, true, live);
    NotMade(geo, d0, live);
    if got.Err? { return Err(got.reason); }
    var ino := got.value;
    ghost var d1 := fs.disk;
    NumberedReady(geo, d0, d1, live, ino, true);
    NumberedFree(geo, d0, d1, live, ino, true);
    KeptUnharmed(geo, d0, d1, live);
    var took := Take(fs, geo.GroupOfInode(ino), 1);
    if took.Err? { return Err(took.reason); }
    var blk := took.value[0];
    ghost var d2 := fs.disk;
    assert ToSet(took.value) == {blk};
    var buf := NewDirBlock(geo.filetype, geo.bs, ino, p, FT_DIR);
    TakenAndWritten(geo, d0, d1, d2, live, live + {ino}, DirSet(d0, live) + {ino}, blk, buf);
    WriteBlock(fs, blk, buf);
    PendingNewDir(geo, d0, fs.disk, live, ino, p, blk);
    fs.disk := fs.disk.(inode := fs.disk.inode[ino := DirInode(geo.bs, blk)]);
    return Ok(ino);
  }

  /** A new, empty directory nm in directory p. */
  method CreateDir(fs: Volume, p: nat, nm: Bytes, ghost live: set<nat>) returns (r: Result<nat>)
    requires fs.geo.Valid() && FreeName(fs.geo, fs.disk, live, p, nm) && SmallDir(fs.geo, fs.disk, p)
    modifies fs
    ensures Fits(fs.geo, old(fs.disk)) && Numbers(fs.geo, live) && DirsOK(fs.geo, old(fs.disk), live)
    ensures r.Ok? ==>
      && p in TreeOf(fs.geo, old(fs.disk), live).kids && p in TreeOf(fs.geo, old(fs.disk), live).links
      && r.value !in live
      && Became(fs.geo, old(fs.disk), fs.disk, live + {r.value},
                AddDir(TreeOf(fs.geo, old(fs.disk), live), p, nm, r.value), live)
    ensures r.Ok? ==> Typed(fs.geo, fs.disk, p, nm, r.value)
    ensures p <= fs.geo.inodes && Told(r, fs.disk.sbFreeBlocks) == MakeOutcome(fs.geo, old(fs.disk), 1, p, nm)
    ensures r == Err(NoFreeInodes) ==> fs.disk == old(fs.disk)
    ensures Unharmed(fs.geo, old(fs.disk), fs.disk, live - {p})
  {
    hide HasEntry, Typed, Fits, Settled, Geometry.Valid, Pending, Linked, TreeOf, Numbers, DirsOK, SmallDir, Became, AddDir, Linked16, Shows, AddOutcome, MakeOutcome, Store, InodeBooks, Kept, TreeOK, Shaped, Unharmed;
    var geo := fs.geo;
    ghost var d0 := fs.disk;
    SettledParts(geo, d0, live);
    MakeFails(geo, d0, live, p, nm, 1);
    r := NewDir(fs, p, live);
    if r.Err? {
      UnharmedFewer(geo, d0, fs.disk, live, live - {p});
      return;
    }
    var ino := r.value;
    ghost var v := View(Dir, 2, map[], p, Ok([]));
    var linked := LinkNew(fs, p, nm, ino, FT_DIR, d0, live, v);
    if linked.Err? { return Err(linked.reason); }
    ghost var d := fs.disk;
    LinkedIn(geo, d0, d, live, p, nm, ino, v);
    LinkedDir(geo, d0, d, live, p, nm, ino);
    ParentLinked(geo, d0, d, live, p);
    LinkedKind(geo, d0, d, live, p, nm, ino, v);
    ParentTyped(geo, d, p, nm, ino);
    fs.disk := fs.disk.(inode := fs.disk.inode[p := Linked16(fs.disk.inode[p], 1)]);
  }

  lemma ParentTyped(geo: Geometry, d: Disk, p: nat, nm: Bytes, i: nat)
    requires geo.Valid() && HasEntry(geo, d, p, NewEntry(geo.filetype, nm, i, FT_DIR))
    requires p < |d.inode| && i < |d.inode| && d.inode[i].kind == Dir
    ensures Typed(geo, d.(inode := d.inode[p := Linked16(d.inode[p], 1)]), p, nm, i)
  {
    hide HasEntry;
    LinksHas(geo, d, p, Linked16(d.inode[p], 1), p, NewEntry(geo.filetype, nm, i, FT_DIR));
  }

  lemma ParentLinked(geo: Geometry, d0: Disk, d: Disk, live: set<nat>, p: nat)
    requires geo.Valid() && Unharmed(geo, d0, d, live - {p}) && p < |d.inode| && Settled(geo, d0, live)
    ensures Unharmed(geo, d0, d.(inode := d.inode[p := Linked16(d.inode[p], 1)]), live - {p})
  {
    hide Fits, SameView, Settled, Unharmed, Own, Numbers, DirsOK;
    SettledParts(geo, d0, live);
    var x := Linked16(d.inode[p], 1);
    var d' := d.(inode := d.inode[p := x]);
    UnharmedIs(geo, d0, d, live - {p});
    FitsData(geo, d);
    FitsInode(geo, d, p, x);
    OneRecord(geo, d, live, p, x);
    KeptUnharmed(geo, d, d', live - {p});
    UnharmedAgain(geo, d0, d, d', live - {p}, live - {p}, live - {p});
  }

  lemma UnharmedIs(geo: Geometry, d: Disk, d': Disk, s: set<nat>)
    requires geo.Valid() && Unharmed(geo, d, d', s)
    ensures Fits(geo, d) && Fits(geo, d')
  {
    hide Fits, SameView;
  }

  lemma OneRecord(geo: Geometry, d: Disk, live: set<nat>, p: nat, x: Inode)
    requires geo.Valid() && Fits(geo, d) && Numbers(geo, live) && p < |d.inode|
    ensures Kept(geo, d, d.(inode := d.inode[p := x]), live - {p})
  {
    hide Fits, Own;
    FitsData(geo, d);
  }

  lemma LinkedIn(geo: Geometry, d0: Disk, d: Disk, live: set<nat>, p: nat, nm: Bytes, ino: nat, v: View)
    requires geo.Valid() && Linked(geo, d0, d, live, p, nm, ino, v)
    ensures p < |d.inode| && ino !in live
  {
    hide Fits, Store, InodeBooks, DirSet, Settled, Shows;
    StoreFits(geo, d, live + {ino}, {});
  }

  lemma GroupInRange(geo: Geometry, ino: nat)
    requires geo.Valid() && 1 <= ino <= geo.inodes
    ensures geo.ipg > 0 && geo.GroupOfInode(ino) < geo.ngroups && 1024 <= geo.bs
  {
    InodeSplit(geo, ino);
  }

  // ---- new symbolic links ----

  function FastInode(target: Bytes): (v: Inode)
    requires |target| < 60
    ensures |v.iblock| == 60
  {
    EmptyInode(Symlink, 1).(iblock := PutBytes(Zeros(60), 0, target), size := |target|)
  }

  function SlowInode(bs: nat, blk: nat, n: nat): (v: Inode)
    ensures |v.iblock| == 60
  {
    EmptyInode(Symlink, 1).(iblock := OneBlockMap(blk), size := n, sectors := bs / 512)
  }

  /** Only the second kind counts a block. */
  lemma SymlinkSectors(geo: Geometry, target: Bytes, blk: nat, n: nat)
    requires geo.Valid()
    ensures |target| < 60 ==> FastInode(target).sectors == 0
    ensures SlowInode(geo.bs, blk, n).sectors > 0
  {}

  lemma PendingFast(geo: Geometry, d0: Disk, d1: Disk, live: set<nat>, ino: nat, target: Bytes)
    requires geo.Valid() && Settled(geo, d0, live) && Numbered(geo, d0, d1, live, ino, false) && |target| < 60
    requires ino < |d1.inode|
    ensures Pending(geo, d0, d1.(inode := d1.inode[ino := FastInode(target)]), live, ino,
                    View(Symlink, 1, map[], -1, Ok(target)))
  {
    hide Fits, Store, InodeBooks, Kept, DirSet, Settled, Geometry.Valid, Own, OwnsWell, Contents;
    var v := FastInode(target);
    var d2 := d1.(inode := d1.inode[ino := v]);
    assert v.iblock[..|target|] == v.iblock[0..|target|] == target;
    FitsInode(geo, d1, ino, v);
    FastOwns(geo, d2, ino);
    Adopt(geo, d0, d1, live, {}, ino, v);
    InodeBooksSame(geo, d1, d2, live + {ino}, DirSet(d0, live) + {});
    DirSetNew(d0, d2, live, ino, v);
  }

  lemma OnePiece(bs: nat, data: seq<Bytes>, data': seq<Bytes>, blk: nat, buf: Bytes)
    requires WrittenTo(bs, data, data', [blk], buf, 1) && blk < |data|
    ensures data' == data[blk := Piece(bs, buf, 0)]
  {
    hide Piece;
    assert [blk][..1] == [blk];
    assert data'[[blk][0]] == Piece(bs, buf, 0);
  }

  lemma OnePieceBlocks(geo: Geometry, n: nat)
    requires geo.Valid() && 0 < n <= geo.bs
    ensures CeilDiv(n, geo.bs) == 1 && geo.bs / 512 > 0
  {
    if n < geo.bs { CeilIs(geo.bs, n, 0, n); } else { CeilIs(geo.bs, n, 1, 0); }
  }

  /** One block read back gives the bytes that were written to it. */
  lemma OnePieceRead(bs: nat, data: seq<Bytes>, blk: nat, buf: Bytes)
    requires DataFit(bs, data) && 0 < blk < |data| && 0 < |buf| <= bs && data[blk] == Piece(bs, buf, 0)
    ensures |buf| <= |BlocksBytes(bs, data, [blk])| && BlocksBytes(bs, data, [blk])[..|buf|] == buf
  {
    assert [blk][1..] == [];
    assert BlocksBytes(bs, data, []) == [];
    assert BlocksBytes(bs, data, [blk]) == data[blk];
    assert 0 * bs == 0;
  }

  lemma PendingSlow(geo: Geometry, d0: Disk, d3: Disk, live: set<nat>, ino: nat, blk: nat, target: Bytes)
    requires geo.Valid() && Settled(geo, d0, live) && Fits(geo, d0) && Fits(geo, d3) && 0 < |target| <= geo.bs
    requires ino !in live && 1 <= ino <= geo.inodes && ino < |d3.inode| && d3.inode == d0.inode
    requires Store(geo, d3, live, {blk}) && Kept(geo, d0, d3, live)
    requires InodeBooks(geo, d3, live + {ino}, DirSet(d0, live) + {})
    requires 0 < blk < |d3.data| && geo.DataBlock(blk)
    requires d3.data[blk] == Piece(geo.bs, target, 0)
    ensures Pending(geo, d0, d3.(inode := d3.inode[ino := SlowInode(geo.bs, blk, |target|)]), live, ino,
                    View(Symlink, 1, map[], -1, Ok(target)))
  {
    hide Fits, Store, InodeBooks, Kept, DirSet, Settled, Geometry.Valid, Own, OwnsWell, BlocksBytes, Fb, Piece;
    var v := SlowInode(geo.bs, blk, |target|);
    var d4 := d3.(inode := d3.inode[ino := v]);
    FitsInode(geo, d3, ino, v);
    FitsData(geo, d4);
    OnePieceBlocks(geo, |target|);
    OneBlockOwns(geo, d4, ino, blk);
    OnePieceRead(geo.bs, d4.data, blk, target);
    Adopt(geo, d0, d3, live, {blk}, ino, v);
    InodeBooksSame(geo, d3, d4, live + {ino}, DirSet(d0, live) + {});
    DirSetNew(d0, d4, live, ino, v);
  }

  /** symlink!'s inode, and its block for a target of 60 bytes or more. */
  method NewSymlink(fs: Volume, p: nat, target: Bytes, ghost live: set<nat>) returns (r: Result<nat>)
    requires fs.geo.Valid() && Settled(fs.geo, fs.disk, live) && p in live && |target| <= fs.geo.bs
    modifies fs
    ensures r.Ok? ==> Pending(fs.geo, old(fs.disk), fs.disk, live, r.value, View(Symlink, 1, map[], -1, Ok(target)))
    ensures r.Ok? ==> r.value < |fs.disk.inode| && (fs.disk.inode[r.value].sectors == 0 <==> |target| < 60)
    ensures Told(r, fs.disk.sbFreeBlocks) == NodeOutcome(old(fs.disk), TargetBlocks(target))
    ensures r == Err(NoFreeInodes) ==> fs.disk == old(fs.disk)
    ensures r.Err? ==> Unharmed(fs.geo, old(fs.disk), fs.disk, live)
  {
    hide Fits, Store, InodeBooks, Kept, DirSet, Settled, Geometry.Valid, Own, OwnsWell, Pending, TreeOf,
         Numbers, DirsOK, Grew, Ready, Shows, CeilDiv, Piece, WrittenTo, FastInode, SlowInode, Numbered, Unharmed;
    var geo := fs.geo;
    ghost var d0 := fs.disk;
    AllocReady(geo, d0, live, p);
    var got := TakeInode(fs, p, false, live);
    NotMade(geo, d0, live);
    if got.Err? { return Err(got.reason); }
    var ino := got.value;
    ghost var d1 := fs.disk;
    NumberedReady(geo, d0, d1, live, ino, false);
    NumberedFree(geo, d0, d1, live, ino, false);
    KeptUnharmed(geo, d0, d1, live);
    SymlinkSectors(geo, target, 0, 0);
    if |target| < 60 {
      PendingFast(geo, d0, d1, live, ino, target);
      fs.disk := fs.disk.(inode := fs.disk.inode[ino := FastInode(target)]);
      return Ok(ino);
    }
    var took := Take(fs, geo.GroupOfInode(ino), 1);
    if took.Err? { return Err(took.reason); }
    var blk := took.value[0];
    ghost var d2 := fs.disk;
    assert ToSet(took.value) == {blk};
    OnePieceBlocks(geo, |target|);
    TakenAndWritten(geo, d0, d1, d2, live, live + {ino}, DirSet(d0, live) + {}, blk, Piece(geo.bs, target, 0));
    GrewFits(geo, d1, d2, {blk});
    var data := WriteData(geo.bs, fs.disk.data, [blk], target);
    OnePiece(geo.bs, d2.data, data, blk, target);
    fs.disk := fs.disk.(data := data);
    PendingSlow(geo, d0, fs.disk, live, ino, blk, target);
    SymlinkSectors(geo, target, blk, |target|);
    fs.disk := fs.disk.(inode := fs.disk.inode[ino := SlowInode(geo.bs, blk, |target|)]);
    return Ok(ino);
  }

  /** A new symbolic link nm -> target in directory p. */
  method CreateSymlink(fs: Volume, p: nat, nm: Bytes, target: Bytes, ghost live: set<nat>) returns (r: Result<nat>)
    requires fs.geo.Valid() && FreeName(fs.geo, fs.disk, live, p, nm) && SmallDir(fs.geo, fs.disk, p)
    requires |target| <= fs.geo.bs
    modifies fs
    ensures Fits(fs.geo, old(fs.disk)) && Numbers(fs.geo, live) && DirsOK(fs.geo, old(fs.disk), live)
    ensures r.Ok? ==>
      && p in TreeOf(fs.geo, old(fs.disk), live).kids
      && r.value !in live
      && Became(fs.geo, old(fs.disk), fs.disk, live + {r.value},
                AddFile(TreeOf(fs.geo, old(fs.disk), live), p, nm, r.value, Symlink), live)
      && Fits(fs.geo, fs.disk) && r.value <= fs.geo.inodes && r.value < |fs.disk.inode|
      && TextOf(fs.geo, fs.disk, r.value) == Ok(target)
    ensures r.Ok? ==> Typed(fs.geo, fs.disk, p, nm, r.value)
    ensures r.Ok? ==> (fs.disk.inode[r.value].sectors == 0 <==> |target| < 60)
    ensures p <= fs.geo.inodes && Told(r, fs.disk.sbFreeBlocks) == MakeOutcome(fs.geo, old(fs.disk), TargetBlocks(target), p, nm)
    ensures r == Err(NoFreeInodes) ==> fs.disk == old(fs.disk)
    ensures Unharmed(fs.geo, old(fs.disk), fs.disk, live - {p})
  {
    hide Fits, Settled, Geometry.Valid, Pending, Linked, TreeOf, Numbers, DirsOK, SmallDir, Became, Shows, TextOf, AddOutcome, MakeOutcome, Store, InodeBooks, Kept, TreeOK, Shaped, Unharmed;
    var geo := fs.geo;
    ghost var d0 := fs.disk;
    SettledParts(geo, d0, live);
    MakeFails(geo, d0, live, p, nm, TargetBlocks(target));
    r := NewSymlink(fs, p, target, live);
    if r.Err? {
      UnharmedFewer(geo, d0, fs.disk, live, live - {p});
      return;
    }
    var ino := r.value;
    ghost var v := View(Symlink, 1, map[], -1, Ok(target));
    var linked := LinkNew(fs, p, nm, ino, FT_SYMLINK, d0, live, v);
    if linked.Err? { return Err(linked.reason); }
    LinkedFile(geo, d0, fs.disk, live, p, nm, ino, v);
    LinkedKind(geo, d0, fs.disk, live, p, nm, ino, v);
  }
}
