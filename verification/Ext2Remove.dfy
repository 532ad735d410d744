/** Removing an entry, and its inode when that was the last link
    (lib/ext2.beer:758-801). */
module Ext2Remove {
  import opened Bytes
  import opened Seqs
  import opened Ext2Disk
  import opened Ext2Alloc
  import opened Ext2Space
  import opened Ext2InodeAlloc
  import opened Ext2BuildMap
  import opened Ext2DirBlock
  import opened Ext2Store
  import opened Ext2Dir
  import opened Ext2DirOps
  import opened Ext2Names
  import opened Ext2Lookup
  import opened Ext2Books
  import opened Ext2Views
  import opened Ext2Create
  import opened Ext2Make
  import opened Ext2Replace
  import opened Ext2Tree

  /** The books are in order, whatever the names say. */
  ghost predicate Booked(geo: Geometry, d: Disk, live: set<nat>, dirs: set<nat>)
    requires geo.Valid()
  {
    Store(geo, d, live, {}) && Fits(geo, d) && InodeBooks(geo, d, live, dirs)
  }

  /** Inode i is gone, everything else is as before. */
  ghost predicate Released(geo: Geometry, d: Disk, d': Disk, live: set<nat>, dirs: set<nat>, i: nat)
    requires geo.Valid() && Fits(geo, d)
  {
    && Booked(geo, d', live - {i}, dirs - {i})
    && Kept(geo, d, d', live - {i})
    && |d'.inode| == |d.inode| && forall j :: 0 <= j < |d.inode| && j != i ==> d'.inode[j] == d.inode[j]
  }

  lemma BlocksReleased(geo: Geometry, d: Disk, d1: Disk, live: set<nat>, dirs: set<nat>, i: nat)
    requires geo.Valid() && Booked(geo, d, live, dirs) && i in live && i <= geo.inodes
    requires BlockCounts(geo, d1) && OnlyBlockBits(d, d1)
    requires BitmapsFit(geo, d.bbm) && BitmapsFit(geo, d1.bbm) && Used(geo, d1.bbm) == Used(geo, d.bbm) - Own(geo, d, i)
    ensures Store(geo, d1, live - {i}, {}) && Fits(geo, d1) && Kept(geo, d, d1, live - {i})
    ensures InodeBooks(geo, d1, live, dirs) && d1.inode == d.inode
  {
    hide Own, Used, Fits, InodeBooks, Store, BlockCounts, Kept, BitmapsFit;
    Detach(geo, d, live, {}, i);
    assert {} + Own(geo, d, i) == Own(geo, d, i);
    FreeStep(geo, d, d1, live - {i}, Own(geo, d, i), Own(geo, d, i));
    assert Own(geo, d, i) - Own(geo, d, i) == {};
    StoreFits(geo, d1, live - {i}, {});
    InodeBooksSame(geo, d, d1, live, dirs);
  }

  lemma RecordReleased(geo: Geometry, d: Disk, d1: Disk, live: set<nat>, dirs: set<nat>, i: nat, v: Inode)
    requires geo.Valid() && Fits(geo, d) && Fits(geo, d1) && Kept(geo, d, d1, live - {i})
    requires Store(geo, d1, live - {i}, {}) && InodeBooks(geo, d1, live, dirs)
    requires i < |d1.inode| && |v.iblock| == 60
    ensures var d2 := d1.(inode := d1.inode[i := v]);
            && Store(geo, d2, live - {i}, {}) && Fits(geo, d2) && Kept(geo, d, d2, live - {i})
            && InodeBooks(geo, d2, live, dirs)
  {
    hide Fits, InodeBooks, Store, Kept;
    var d2 := d1.(inode := d1.inode[i := v]);
    InodeStep(geo, d1, live - {i}, {}, i, v);
    KeptAgain(geo, d, d1, d2, live - {i});
    InodeBooksSame(geo, d1, d2, live, dirs);
  }

  lemma NumberReleased(geo: Geometry, d: Disk, d2: Disk, d3: Disk, live: set<nat>, dirs: set<nat>, i: nat, dir: bool)
    requires geo.Valid() && Fits(geo, d) && Fits(geo, d2) && Kept(geo, d, d2, live - {i})
    requires Store(geo, d2, live - {i}, {}) && InodeBooks(geo, d2, live, dirs) && BitmapsFit(geo, d2.ibm)
    requires i in live && i != ROOT_INO && (dir <==> i in dirs)
    requires InodeCounts(geo, d3) && BitmapsFit(geo, d3.ibm) && UsedInos(geo, d3.ibm) == UsedInos(geo, d2.ibm) - {i}
    requires BlockCounts(geo, d3) && InodeMoved(geo, d2, d3, i, if dir then -1 else 0)
    ensures Booked(geo, d3, live - {i}, dirs - {i}) && Kept(geo, d, d3, live - {i}) && d3.inode == d2.inode
  {
    hide Fits, InodeBooks, Store, Kept, UsedInos, InodeCounts, BlockCounts, BitmapsFit;
    BooksAfterFree(geo, d2, d3, live, dirs, i, dir);
    InodeBitsStep(geo, d2, d3, live - {i}, {});
    KeptAgain(geo, d, d2, d3, live - {i});
  }

  lemma NumberUsed(geo: Geometry, d: Disk, live: set<nat>, dirs: set<nat>, i: nat)
    requires geo.Valid() && InodeBooks(geo, d, live, dirs) && i in live
    ensures BitmapsFit(geo, d.ibm) && InodeCounts(geo, d) && i in UsedInos(geo, d.ibm)
    ensures 1 <= i <= geo.inodes
  {
    hide UsedInos, FreeInos, SumFreeInos;
    LiveInRange(geo, d, live, dirs);
  }

  /** release-inode!: free an inode's blocks and the inode itself. */
  method Release(fs: Volume, i: nat, ghost live: set<nat>, ghost dirs: set<nat>)
    requires fs.geo.Valid() && Booked(fs.geo, fs.disk, live, dirs) && i in live && i != ROOT_INO
    requires i < |fs.disk.inode| && (fs.disk.inode[i].kind == Dir <==> i in dirs)
    modifies fs
    ensures Fits(fs.geo, old(fs.disk)) && Released(fs.geo, old(fs.disk), fs.disk, live, dirs, i)
  {
    hide Own, Used, Fits, InodeBooks, Store, Kept, Ready, BitmapsFit, Blocks, Filter, UsedBit, UsedInos, FreeInos, SumFreeInos,
         BlockCounts, Geometry.Valid, BitsNow, OnlyBlockBits, Freeable, Released, InodeMoved;
    var geo := fs.geo;
    ghost var d := fs.disk;
    OldFreeable(geo, d, live, i);
    var dir := fs.disk.inode[i].kind == Dir;
    FreeBlocks(fs, Blocks(geo, fs.disk, i));
    ghost var d1 := fs.disk;
    CountedBitmaps(geo, d1);
    BlocksReleased(geo, d, d1, live, dirs, i);
    FitsData(geo, d1);
    var v := fs.disk.inode[i].(links := 0);
    RecordReleased(geo, d, d1, live, dirs, i, v);
    fs.disk := fs.disk.(inode := fs.disk.inode[i := v]);
    ghost var d2 := fs.disk;
    NumberUsed(geo, d2, live, dirs, i);
    StoreFits(geo, d2, live - {i}, {});
    FreeInode(fs, i, dir);
    NumberReleased(geo, d, d2, fs.disk, live, dirs, i, dir);
    AllReleased(geo, d, fs.disk, live, dirs, i);
  }

  lemma AllReleased(geo: Geometry, d: Disk, d': Disk, live: set<nat>, dirs: set<nat>, i: nat)
    requires geo.Valid() && Fits(geo, d) && Booked(geo, d', live - {i}, dirs - {i}) && Kept(geo, d, d', live - {i})
    requires |d'.inode| == |d.inode| && forall j :: 0 <= j < |d.inode| && j != i ==> d'.inode[j] == d.inode[j]
    ensures Released(geo, d, d', live, dirs, i)
  {
    hide Fits, Booked, Kept;
  }

  // ---- the entry ----

  /** Directory p of a settled disk has the entry nm. */
  ghost predicate HasName(geo: Geometry, d: Disk, live: set<nat>, p: nat, nm: Bytes)
    requires geo.Valid()
  {
    && Settled(geo, d, live) && p in live && p < |d.inode| && d.inode[p].kind == Dir && Plain(nm)
    && p in TreeOf(geo, d, live).kids && nm in TreeOf(geo, d, live).kids[p]
  }

  /** The entry nm of directory p is gone; the books have not changed. */
  ghost predicate Unnamed(geo: Geometry, d0: Disk, d: Disk, live: set<nat>, p: nat, nm: Bytes)
    requires geo.Valid()
  {
    && Settled(geo, d0, live) && p in live
    && Booked(geo, d, live, DirSet(d0, live)) && DirSet(d, live) == DirSet(d0, live)
    && d.inode == d0.inode
    && (forall j :: j in live && j != p ==> SameView(geo, d0, d, j))
    && (forall w :: Shows(geo, d0, p, w) ==> Shows(geo, d, p, w.(kids := w.kids - {nm})))
  }

  lemma HasNameDir(geo: Geometry, d: Disk, live: set<nat>, p: nat, nm: Bytes)
    requires geo.Valid() && HasName(geo, d, live, p, nm)
    ensures DirIn(geo, d, live, {}, p) && Fits(geo, d) && DirOK(geo, d, p) && !NoneNamed(Ents(geo, d, p), nm)
    ensures Numbers(geo, live) && DirsOK(geo, d, live) && TreeOK(TreeOf(geo, d, live)) && Booked(geo, d, live, DirSet(d, live))
    ensures forall w :: Shows(geo, d, p, w) ==> w.kind == Dir
  {
    hide Store, InodeBooks, TreeOf, TreeOK, Fits, DirOK, NamesOK, Ents, FindIno, KidMap, ViewOf;
    SettledParts(geo, d, live);
    TreeAt(geo, d, live, p);
    KidMapIs(Ents(geo, d, p), nm);
    FindNone(Ents(geo, d, p), nm);
    forall w | Shows(geo, d, p, w) ensures w.kind == Dir { ShowsLinks(geo, d, p, w); }
  }

  lemma UnnamedNow(geo: Geometry, d0: Disk, d: Disk, live: set<nat>, p: nat, nm: Bytes)
    requires geo.Valid() && HasName(geo, d0, live, p, nm)
    requires EntryRemoved(geo, d0, d, live, {}, p, nm)
    ensures Unnamed(geo, d0, d, live, p, nm)
  {
    hide Store, InodeBooks, TreeOf, Fits, DirOK, Settled, Ents, Without, FirstBlockNames, Shows, SameView, Kept, DirSet, FirstKept;
    HasNameDir(geo, d0, live, p, nm);
    BooksAfterEdit(d0, d, p);
    InodeBooksSame(geo, d0, d, live, DirSet(d0, live));
    DirSetSame(geo, d0, d, live, p);
    KeptViews(geo, d0, d, live - {p});
    forall w | Shows(geo, d0, p, w) ensures Shows(geo, d, p, w.(kids := w.kids - {nm})) {
      RemovedView(geo, d0, d, live, {}, p, nm, w);
    }
  }

  /** remove-entry! of a name that is there. */
  method Unname(fs: Volume, p: nat, nm: Bytes, ghost live: set<nat>)
    requires fs.geo.Valid() && HasName(fs.geo, fs.disk, live, p, nm)
    modifies fs
    ensures Unnamed(fs.geo, old(fs.disk), fs.disk, live, p, nm)
    ensures Reusable(fs.geo, fs.disk, p, nm)
  {
    hide Reusable, HasName, Unnamed, EntryRemoved, DirIn, Fits, Ents, NoneNamed, DirOK, Booked, TreeOf, TreeOK, Geometry.Valid, Shows;
    ghost var d := fs.disk;
    HasNameDir(fs.geo, d, live, p, nm);
    var r := RemoveEntry(fs, p, nm, live, {});
    UnnamedNow(fs.geo, d, fs.disk, live, p, nm);
  }

  lemma UnnamedShows(geo: Geometry, d0: Disk, d: Disk, live: set<nat>, p: nat, nm: Bytes, j: nat)
    requires geo.Valid() && Unnamed(geo, d0, d, live, p, nm) && j in live
    ensures Fits(geo, d0) && Fits(geo, d) && Numbers(geo, live) && DirsOK(geo, d0, live)
    ensures ShowsNode(geo, d0, TreeOf(geo, d0, live), j)
    ensures var t := TreeOf(geo, d0, live);
            var w := TreeView(t, j, TextOf(geo, d0, j));
            Shows(geo, d, j, if j == p then w.(kids := w.kids - {nm}) else w)
  {
    hide Fits, Shows, SameView, Settled, Store, InodeBooks, TreeOf;
    SettledParts(geo, d0, live);
    ViewsOfTree(geo, d0, live, j);
    var t := TreeOf(geo, d0, live);
    if j != p { SameViewNode(geo, d0, d, t, j); }
  }

  /** The target of the entry, for a file. */
  ghost predicate FileName(geo: Geometry, d: Disk, live: set<nat>, p: nat, nm: Bytes, i: nat)
    requires geo.Valid()
  {
    && HasName(geo, d, live, p, nm) && TreeOf(geo, d, live).kids[p][nm] == i
    && i < |d.inode| && d.inode[i].kind != Dir
  }

  lemma FileNameIs(geo: Geometry, d: Disk, live: set<nat>, p: nat, nm: Bytes, i: nat)
    requires geo.Valid() && FileName(geo, d, live, p, nm, i)
    ensures Fits(geo, d) && Numbers(geo, live) && DirsOK(geo, d, live) && i in live && i != ROOT_INO && i != p
    ensures i <= geo.inodes && i !in DirSet(d, live)
    ensures var t := TreeOf(geo, d, live);
            && TreeOK(t) && Shaped(t) && t.kind.Keys == live && p in t.kids && nm in t.kids[p] && t.kids[p][nm] == i
            && i in t.links && t.links[i] == d.inode[i].links && !IsDir(t, i)
  {
    hide Store, InodeBooks, TreeOf, TreeOK, Fits, DirsOK;
    SettledParts(geo, d, live);
    var t := TreeOf(geo, d, live);
    TreeAt(geo, d, live, i);
    TreeAt(geo, d, live, p);
    UpIsLive(t, p);
    RootLive(geo, d, live);
  }

  /** The last link goes with the inode. */
  lemma FileGone(geo: Geometry, d0: Disk, d1: Disk, d2: Disk, live: set<nat>, p: nat, nm: Bytes, i: nat)
    requires geo.Valid() && FileName(geo, d0, live, p, nm, i) && d0.inode[i].links <= 1
    requires Unnamed(geo, d0, d1, live, p, nm)
    requires Fits(geo, d1) && Released(geo, d1, d2, live, DirSet(d0, live), i)
    ensures Fits(geo, d0) && Numbers(geo, live) && DirsOK(geo, d0, live)
    ensures var t := TreeOf(geo, d0, live);
            p in t.kids && nm in t.kids[p] && i == t.kids[p][nm] && i in t.links
            && Became(geo, d0, d2, live - {i}, RemoveFile(t, p, nm), live - {i})
  {
    hide Fits, Shows, SameView, Settled, Store, InodeBooks, TreeOf, TreeOK, ShowsNode, TextOf, Kept, DirSet, SameText, DirsOK, RemoveFile,
         Unnamed, FileName;
    FileNameIs(geo, d0, live, p, nm, i);
    var t := TreeOf(geo, d0, live);
    var t' := RemoveFile(t, p, nm);
    RemoveFileKeeps(t, p, nm);
    RemoveFileParts(t, p, nm);
    KeptViews(geo, d1, d2, live - {i});
    forall j | j in live - {i} ensures ShowsNode(geo, d2, t', j) && SameText(geo, d0, d2, j) {
      FileGoneNode(geo, d0, d1, d2, live, p, nm, i, j);
    }
    DirSetReleased(geo, d0, d1, d2, live, p, nm, i, DirSet(d0, live));
    SettledFrom(geo, d2, live - {i}, t');
    UnnamedSettled(geo, d0, d1, live, p, nm);
  }

  lemma UnnamedSettled(geo: Geometry, d0: Disk, d: Disk, live: set<nat>, p: nat, nm: Bytes)
    requires geo.Valid() && Unnamed(geo, d0, d, live, p, nm)
    ensures Settled(geo, d0, live) && Booked(geo, d, live, DirSet(d0, live)) && p in live && p < |d.inode|
    ensures d.inode == d0.inode && DirSet(d, live) == DirSet(d0, live)
  {
    hide Fits, Settled, Store, InodeBooks, Shows;
    StoreFits(geo, d, live, {});
  }

  lemma DirSetReleased(geo: Geometry, d0: Disk, d1: Disk, d2: Disk, live: set<nat>, p: nat, nm: Bytes, i: nat, dirs: set<nat>)
    requires geo.Valid() && Unnamed(geo, d0, d1, live, p, nm) && dirs == DirSet(d0, live)
    requires Fits(geo, d1) && Released(geo, d1, d2, live, dirs, i)
    ensures DirSet(d2, live - {i}) == dirs - {i} && Fits(geo, d2)
    ensures Store(geo, d2, live - {i}, {}) && InodeBooks(geo, d2, live - {i}, DirSet(d2, live - {i}))
  {
    hide Fits, Settled, Store, InodeBooks, Shows;
  }

  lemma RemoveFileParts(t: Tree, p: nat, n: Bytes)
    requires TreeOK(t) && p in t.kids && n in t.kids[p] && t.kids[p][n] in t.links && TreeOK(RemoveFile(t, p, n))
    ensures Shaped(RemoveFile(t, p, n))
    ensures RemoveFile(t, p, n).kind.Keys == if t.links[t.kids[p][n]] <= 1 then t.kind.Keys - {t.kids[p][n]} else t.kind.Keys
  {
    hide TreeOK;
    TreeParts(RemoveFile(t, p, n));
  }

  lemma FileGoneNode(geo: Geometry, d0: Disk, d1: Disk, d2: Disk, live: set<nat>, p: nat, nm: Bytes, i: nat, j: nat)
    requires geo.Valid() && FileName(geo, d0, live, p, nm, i) && d0.inode[i].links <= 1
    requires Unnamed(geo, d0, d1, live, p, nm) && Fits(geo, d0) && Fits(geo, d1) && Fits(geo, d2)
    requires j in live && j != i && SameView(geo, d1, d2, j)
    requires Numbers(geo, live) && DirsOK(geo, d0, live)
    ensures var t := TreeOf(geo, d0, live);
            p in t.kids && nm in t.kids[p] && t.kids[p][nm] in t.links && ShowsNode(geo, d2, RemoveFile(t, p, nm), j)
    ensures SameText(geo, d0, d2, j)
  {
    hide Fits, Shows, SameView, Settled, Store, InodeBooks, TreeOf, TextOf, DirsOK, TreeOK, Unnamed, FileName;
    FileNameIs(geo, d0, live, p, nm, i);
    UnnamedShows(geo, d0, d1, live, p, nm, j);
    var t := TreeOf(geo, d0, live);
    var w := TreeView(t, j, TextOf(geo, d0, j));
    var w1 := if j == p then w.(kids := w.kids - {nm}) else w;
    ViewUsed(geo, d1, d2, j, w1);
    ShowsText(geo, d2, RemoveFile(t, p, nm), j, w1);
  }

  /** One link less. */
  lemma FileUnlinked(geo: Geometry, d0: Disk, d1: Disk, live: set<nat>, p: nat, nm: Bytes, i: nat)
    requires geo.Valid() && FileName(geo, d0, live, p, nm, i) && d0.inode[i].links > 1
    requires Unnamed(geo, d0, d1, live, p, nm) && i < |d1.inode|
    ensures Fits(geo, d0) && Numbers(geo, live) && DirsOK(geo, d0, live)
    ensures var t := TreeOf(geo, d0, live);
            p in t.kids && nm in t.kids[p] && i == t.kids[p][nm] && i in t.links
            && Became(geo, d0, d1.(inode := d1.inode[i := d1.inode[i].(links := d0.inode[i].links - 1)]), live, RemoveFile(t, p, nm), live)
  {
    hide Fits, Shows, SameView, Settled, Store, InodeBooks, TreeOf, TreeOK, ShowsNode, TextOf, Kept, DirSet, SameText, DirsOK, RemoveFile,
         Unnamed, FileName;
    FileNameIs(geo, d0, live, p, nm, i);
    UnnamedSettled(geo, d0, d1, live, p, nm);
    var t := TreeOf(geo, d0, live);
    var t' := RemoveFile(t, p, nm);
    var x := d1.inode[i].(links := d0.inode[i].links - 1);
    var d2 := d1.(inode := d1.inode[i := x]);
    RemoveFileKeeps(t, p, nm);
    RemoveFileParts(t, p, nm);
    LinksStep(geo, d1, live, {}, i, x);
    KeptViews(geo, d1, d2, live - {i});
    forall j | j in live ensures ShowsNode(geo, d2, t', j) && SameText(geo, d0, d2, j) {
      FileUnlinkedNode(geo, d0, d1, d2, live, p, nm, i, x, j);
    }
    DirSetLinks(d1, d2, live, i, x);
    InodeBooksSame(geo, d1, d2, live, DirSet(d1, live));
    SettledFrom(geo, d2, live, t');
  }

  lemma FileUnlinkedNode(geo: Geometry, d0: Disk, d1: Disk, d2: Disk, live: set<nat>, p: nat, nm: Bytes, i: nat, x: Inode, j: nat)
    requires geo.Valid() && FileName(geo, d0, live, p, nm, i) && d0.inode[i].links > 1
    requires Unnamed(geo, d0, d1, live, p, nm) && Fits(geo, d0) && Fits(geo, d1) && Fits(geo, d2)
    requires i < |d1.inode| && x == d1.inode[i].(links := d0.inode[i].links - 1) && d2 == d1.(inode := d1.inode[i := x])
    requires j in live && (j != i ==> SameView(geo, d1, d2, j))
    requires Numbers(geo, live) && DirsOK(geo, d0, live)
    ensures var t := TreeOf(geo, d0, live);
            p in t.kids && nm in t.kids[p] && t.kids[p][nm] in t.links && ShowsNode(geo, d2, RemoveFile(t, p, nm), j)
    ensures SameText(geo, d0, d2, j)
  {
    hide Fits, Shows, SameView, Settled, Store, InodeBooks, TreeOf, TextOf, DirsOK, TreeOK, Unnamed, FileName;
    FileNameIs(geo, d0, live, p, nm, i);
    UnnamedShows(geo, d0, d1, live, p, nm, j);
    var t := TreeOf(geo, d0, live);
    var w := TreeView(t, j, TextOf(geo, d0, j));
    var w1 := if j == p then w.(kids := w.kids - {nm}) else w;
    if j == i {
      LinksView(geo, d1, d2, i, x, w1);
      ShowsText(geo, d2, RemoveFile(t, p, nm), j, w1.(links := x.links));
    } else {
      ViewUsed(geo, d1, d2, j, w1);
      ShowsText(geo, d2, RemoveFile(t, p, nm), j, w1);
    }
  }

  /** The live inodes without i, when that was its last link. */
  ghost function LeftOver(d: Disk, live: set<nat>, i: nat): set<nat>
    requires i < |d.inode|
  {
    if d.inode[i].links <= 1 then live - {i} else live
  }

  ghost predicate SizesKept(d: Disk, d': Disk, i: nat) {
    |d'.inode| == |d.inode| && forall j :: 0 <= j < |d.inode| && j != i ==> d'.inode[j].size == d.inode[j].size
  }

  lemma ReleasedSizes(geo: Geometry, d1: Disk, d2: Disk, live: set<nat>, dirs: set<nat>, i: nat, p: nat)
    requires geo.Valid() && Fits(geo, d1) && Released(geo, d1, d2, live, dirs, i)
    ensures SizesKept(d1, d2, i)
    ensures p < |d2.inode| ==> SizesKept(d1, d2.(inode := d2.inode[p := Linked16(d2.inode[p], -1)]), i)
  {
    hide Fits, Booked, Kept;
  }

  /** The parent's room for the name is still there once the inode is gone ... */
  lemma ReleasedRoom(geo: Geometry, d: Disk, d': Disk, live: set<nat>, dirs: set<nat>, i: nat, p: nat, nm: Bytes)
    requires geo.Valid() && Fits(geo, d) && Released(geo, d, d', live, dirs, i) && p in live && p != i && Reusable(geo, d, p, nm)
    ensures Reusable(geo, d', p, nm)
  {
    hide Fits, Reusable, Store, InodeBooks, Same;
    ReusableKept(geo, d, d', p, nm);
  }

  /** ... and once a link count has changed. */
  lemma LinksRoom(geo: Geometry, d: Disk, i: nat, v: Inode, p: nat, nm: Bytes)
    requires geo.Valid() && Reusable(geo, d, p, nm) && i < |d.inode| && OnlyLinks(d.inode[i], v)
    ensures Reusable(geo, d.(inode := d.inode[i := v]), p, nm)
  {
    hide Fb, Fits, HasRoom, DirOK;
    var d' := d.(inode := d.inode[i := v]);
    LinksFits(geo, d, i, v);
    DirNumber(geo, d, p);
    FitsData(geo, d);
    if i == p {
      LinksFb(geo, d, d', p, v);
    } else {
      LinksElsewhere(geo, d, i, v, p);
      ReusableKept(geo, d, d', p, nm);
    }
  }

  lemma LinksFits(geo: Geometry, d: Disk, i: nat, v: Inode)
    requires geo.Valid() && Fits(geo, d) && i < |d.inode| && OnlyLinks(d.inode[i], v)
    ensures Fits(geo, d.(inode := d.inode[i := v]))
  {
    hide Fits;
    FitsData(geo, d);
    FitsInode(geo, d, i, v);
  }

  lemma LinksElsewhere(geo: Geometry, d: Disk, i: nat, v: Inode, p: nat)
    requires geo.Valid() && Fits(geo, d) && p <= geo.inodes && p < |d.inode| && i < |d.inode| && i != p
    ensures Same(geo, d, d.(inode := d.inode[i := v]), p)
  {
    hide Fits, Own;
  }

  lemma LinkedRecord(v: Inode, delta: int)
    ensures OnlyLinks(v, Linked16(v, delta))
  {}

  /** Remove the entry nm of a file i, and the file with its last link. */
  method UnlinkFile(fs: Volume, p: nat, nm: Bytes, i: nat, ghost live: set<nat>)
    requires fs.geo.Valid() && FileName(fs.geo, fs.disk, live, p, nm, i)
    modifies fs
    ensures Fits(fs.geo, old(fs.disk)) && Numbers(fs.geo, live) && DirsOK(fs.geo, old(fs.disk), live)
    ensures var t := TreeOf(fs.geo, old(fs.disk), live);
            p in t.kids && nm in t.kids[p] && i == t.kids[p][nm] && i in t.links && i < |old(fs.disk).inode|
            && Became(fs.geo, old(fs.disk), fs.disk, LeftOver(old(fs.disk), live, i), RemoveFile(t, p, nm),
                      LeftOver(old(fs.disk), live, i))
    ensures SizesKept(old(fs.disk), fs.disk, i)
    ensures Reusable(fs.geo, fs.disk, p, nm)
  {
    hide Reusable, Unnamed, Fits, Booked, TreeOf, TreeOK, Geometry.Valid, Released, Became, RemoveFile, HasName, DirSet, Numbers, DirsOK,
         Settled, Shaped, IsDir;
    var geo := fs.geo;
    ghost var d0 := fs.disk;
    var links := fs.disk.inode[i].links;
    FileNameIs(geo, d0, live, p, nm, i);
    Unname(fs, p, nm, live);
    ghost var d1 := fs.disk;
    UnnamedSettled(geo, d0, d1, live, p, nm);
    if links <= 1 {
      Release(fs, i, live, DirSet(d0, live));
      ReleasedSizes(geo, d1, fs.disk, live, DirSet(d0, live), i, 0);
      FileGone(geo, d0, d1, fs.disk, live, p, nm, i);
      ReleasedRoom(geo, d1, fs.disk, live, DirSet(d0, live), i, p, nm);
    } else {
      FileUnlinked(geo, d0, d1, live, p, nm, i);
      LinksRoom(geo, d1, i, fs.disk.inode[i].(links := links - 1), p, nm);
      fs.disk := fs.disk.(inode := fs.disk.inode[i := fs.disk.inode[i].(links := links - 1)]);
    }
  }

  // ---- directories ----

  /** The entry of an empty directory. */
  ghost predicate DirName(geo: Geometry, d: Disk, live: set<nat>, p: nat, nm: Bytes, i: nat)
    requires geo.Valid()
  {
    && HasName(geo, d, live, p, nm) && TreeOf(geo, d, live).kids[p][nm] == i
    && i in TreeOf(geo, d, live).kids && TreeOf(geo, d, live).kids[i] == map[]
  }

  lemma DirNameIs(geo: Geometry, d: Disk, live: set<nat>, p: nat, nm: Bytes, i: nat)
    requires geo.Valid() && DirName(geo, d, live, p, nm, i)
    ensures Fits(geo, d) && Numbers(geo, live) && DirsOK(geo, d, live) && i in live && i != ROOT_INO && i != p
    ensures i <= geo.inodes && i < |d.inode| && i in DirSet(d, live) && d.inode[i].kind == Dir
    ensures var t := TreeOf(geo, d, live);
            && TreeOK(t) && Shaped(t) && t.kind.Keys == live && p in t.kids && nm in t.kids[p] && t.kids[p][nm] == i
            && p in t.links && i in t.kids && t.kids[i] == map[] && IsDir(t, i)
  {
    hide Store, InodeBooks, TreeOf, TreeOK, Fits, DirsOK, Acyclic, Refs, OneParent, DirLinks, RefsLive;
    SettledParts(geo, d, live);
    var t := TreeOf(geo, d, live);
    TreeAt(geo, d, live, i);
    TreeAt(geo, d, live, p);
    FitsData(geo, d);
    OnlyRef(t, p, nm);
    EmptyHoldsNone(t, p, nm);
  }

  lemma RemoveDirParts(t: Tree, p: nat, n: Bytes)
    requires TreeOK(t) && p in t.kids && n in t.kids[p] && p in t.links && TreeOK(RemoveDir(t, p, n))
    ensures Shaped(RemoveDir(t, p, n)) && RemoveDir(t, p, n).kind.Keys == t.kind.Keys - {t.kids[p][n]}
  {
    hide TreeOK;
    TreeParts(RemoveDir(t, p, n));
  }

  lemma DirGoneNode(geo: Geometry, d0: Disk, d1: Disk, d2: Disk, d3: Disk, live: set<nat>, p: nat, nm: Bytes, i: nat, x: Inode, j: nat)
    requires geo.Valid() && DirName(geo, d0, live, p, nm, i)
    requires Unnamed(geo, d0, d1, live, p, nm) && Fits(geo, d0) && Fits(geo, d1) && Fits(geo, d2) && Fits(geo, d3)
    requires j in live && j != i && SameView(geo, d1, d2, j) && (j != p ==> SameView(geo, d2, d3, j))
    requires p < |d2.inode| && x == Linked16(d2.inode[p], -1) && d3 == d2.(inode := d2.inode[p := x])
    requires Numbers(geo, live) && DirsOK(geo, d0, live)
    ensures var t := TreeOf(geo, d0, live);
            p in t.kids && nm in t.kids[p] && p in t.links && ShowsNode(geo, d3, RemoveDir(t, p, nm), j)
    ensures SameText(geo, d0, d3, j)
  {
    hide Fits, Shows, SameView, Settled, Store, InodeBooks, TreeOf, TextOf, DirsOK, TreeOK, Unnamed, DirName;
    DirNameIs(geo, d0, live, p, nm, i);
    UnnamedShows(geo, d0, d1, live, p, nm, j);
    var t := TreeOf(geo, d0, live);
    var w := TreeView(t, j, TextOf(geo, d0, j));
    var w1 := if j == p then w.(kids := w.kids - {nm}) else w;
    ViewUsed(geo, d1, d2, j, w1);
    if j == p {
      LinksView(geo, d2, d3, p, x, w1);
      ShowsLinks(geo, d2, p, w1);
      ShowsText(geo, d3, RemoveDir(t, p, nm), j, w1.(links := x.links));
    } else {
      ViewUsed(geo, d2, d3, j, w1);
      ShowsText(geo, d3, RemoveDir(t, p, nm), j, w1);
    }
  }

  lemma DirGone(geo: Geometry, d0: Disk, d1: Disk, d2: Disk, live: set<nat>, p: nat, nm: Bytes, i: nat)
    requires geo.Valid() && DirName(geo, d0, live, p, nm, i)
    requires Unnamed(geo, d0, d1, live, p, nm)
    requires Fits(geo, d1) && Released(geo, d1, d2, live, DirSet(d0, live), i) && p < |d2.inode|
    ensures Fits(geo, d0) && Numbers(geo, live) && DirsOK(geo, d0, live)
    ensures var t := TreeOf(geo, d0, live);
            p in t.kids && nm in t.kids[p] && i == t.kids[p][nm] && p in t.links
            && Became(geo, d0, d2.(inode := d2.inode[p := Linked16(d2.inode[p], -1)]), live - {i}, RemoveDir(t, p, nm), live - {i})
  {
    hide Fits, Shows, SameView, Settled, Store, InodeBooks, TreeOf, TreeOK, ShowsNode, TextOf, Kept, DirSet, SameText, DirsOK, RemoveDir,
         Unnamed, DirName;
    DirNameIs(geo, d0, live, p, nm, i);
    var t := TreeOf(geo, d0, live);
    var t' := RemoveDir(t, p, nm);
    RemoveDirKeeps(t, p, nm);
    RemoveDirParts(t, p, nm);
    DirSetReleased(geo, d0, d1, d2, live, p, nm, i, DirSet(d0, live));
    var x := Linked16(d2.inode[p], -1);
    var d3 := d2.(inode := d2.inode[p := x]);
    LinksStep(geo, d2, live - {i}, {}, p, x);
    KeptViews(geo, d1, d2, live - {i});
    KeptViews(geo, d2, d3, live - {i} - {p});
    forall j | j in live - {i} ensures ShowsNode(geo, d3, t', j) && SameText(geo, d0, d3, j) {
      DirGoneNode(geo, d0, d1, d2, d3, live, p, nm, i, x, j);
    }
    DirSetLinks(d2, d3, live - {i}, p, x);
    InodeBooksSame(geo, d2, d3, live - {i}, DirSet(d2, live - {i}));
    SettledFrom(geo, d3, live - {i}, t');
  }

  /** Remove the entry nm of an empty directory i, and the directory. */
  method UnlinkDir(fs: Volume, p: nat, nm: Bytes, i: nat, ghost live: set<nat>)
    requires fs.geo.Valid() && DirName(fs.geo, fs.disk, live, p, nm, i)
    modifies fs
    ensures Fits(fs.geo, old(fs.disk)) && Numbers(fs.geo, live) && DirsOK(fs.geo, old(fs.disk), live)
    ensures var t := TreeOf(fs.geo, old(fs.disk), live);
            p in t.kids && nm in t.kids[p] && i == t.kids[p][nm] && p in t.links
            && Became(fs.geo, old(fs.disk), fs.disk, live - {i}, RemoveDir(t, p, nm), live - {i})
    ensures SizesKept(old(fs.disk), fs.disk, i)
    ensures Reusable(fs.geo, fs.disk, p, nm)
  {
    hide Reusable, Unnamed, Fits, Booked, TreeOf, TreeOK, Geometry.Valid, Became, RemoveDir, HasName, DirSet, Numbers, DirsOK, Linked16,
         Settled, Shaped, IsDir, Kept;
    var geo := fs.geo;
    ghost var d0 := fs.disk;
    DirNameIs(geo, d0, live, p, nm, i);
    Unname(fs, p, nm, live);
    ghost var d1 := fs.disk;
    UnnamedSettled(geo, d0, d1, live, p, nm);
    Release(fs, i, live, DirSet(d0, live));
    ReleasedSizes(geo, d1, fs.disk, live, DirSet(d0, live), i, p);
    DirGone(geo, d0, d1, fs.disk, live, p, nm, i);
    ReleasedRoom(geo, d1, fs.disk, live, DirSet(d0, live), i, p, nm);
    LinkedRecord(fs.disk.inode[p], -1);
    LinksRoom(geo, fs.disk, p, Linked16(fs.disk.inode[p], -1), p, nm);
    fs.disk := fs.disk.(inode := fs.disk.inode[p := Linked16(fs.disk.inode[p], -1)]);
  }
}
