/** New inodes and the entries that name them (lib/ext2.beer:508-520, 710-714,
    741-754, 868-883). */
module Ext2Create {
  import opened Bytes
  import opened Seqs
  import opened Ext2Disk
  import opened Ext2Alloc
  import opened Ext2InodeAlloc
  import opened Ext2BlockMap
  import opened Ext2BuildMap
  import opened Ext2FileData
  import opened Ext2DirBlock
  import opened Ext2DirData
  import opened Ext2Store
  import opened Ext2Dir
  import opened Ext2DirOps
  import opened Ext2Names
  import opened Ext2Lookup
  import opened Ext2Books
  import opened Ext2Views
  import opened Ext2Tree

  // ---- trees and views ----

  ghost function TreeView(t: Tree, i: nat, text: Result<Bytes>): View
    requires i in t.kind && i in t.links
  {
    View(t.kind[i], t.links[i], if i in t.kids then t.kids[i] else map[], if i in t.up then t.up[i] else -1, text)
  }

  /** Inode i shows its part of tree t. */
  ghost predicate ShowsNode(geo: Geometry, d: Disk, t: Tree, i: nat)
    requires geo.Valid() && Fits(geo, d)
  {
    && i in t.kind && i in t.links && i <= geo.inodes && i < |d.inode|
    && Shows(geo, d, i, TreeView(t, i, TextOf(geo, d, i)))
  }

  lemma ViewsOfTree(geo: Geometry, d: Disk, live: set<nat>, i: nat)
    requires geo.Valid() && Fits(geo, d) && Numbers(geo, live) && DirsOK(geo, d, live) && i in live
    ensures ShowsNode(geo, d, TreeOf(geo, d, live), i)
  {
    hide Ents, KidMap, FindIno, DirOK, NamesOK, Fits, TreeOf, LinkTarget, Contents;
    FitsData(geo, d);
    TreeAt(geo, d, live, i);
    if d.inode[i].kind == Dir { NamespaceDir(geo, d, live, i); }
  }

  lemma NodeFields(geo: Geometry, d: Disk, t: Tree, i: nat)
    requires geo.Valid() && Fits(geo, d) && Shaped(t) && ShowsNode(geo, d, t, i)
    ensures i < |d.inode| && t.kind[i] == d.inode[i].kind && t.links[i] == d.inode[i].links
    ensures d.inode[i].kind == Dir ==>
              && GoodDir(geo, d, i) && DirOK(geo, d, i) && i in t.kids && i in t.up
              && t.kids[i] == KidMap(Ents(geo, d, i)) && t.up[i] == FindIno(Ents(geo, d, i), DOTDOT)
  {
    hide Ents, KidMap, FindIno, DirOK, NamesOK, Fits, LinkTarget, Contents;
  }

  /** The tree is what its inodes show. */
  lemma TreeFromViews(geo: Geometry, d: Disk, live: set<nat>, t: Tree)
    requires geo.Valid() && Fits(geo, d) && Numbers(geo, live) && Shaped(t) && t.kind.Keys == live
    requires forall i :: i in live ==> ShowsNode(geo, d, t, i)
    ensures DirsOK(geo, d, live) && TreeOf(geo, d, live) == t
  {
    hide Ents, KidMap, FindIno, DirOK, NamesOK, Fits, TreeOf, LinkTarget, Contents, ShowsNode;
    forall i | i in live && i < |d.inode| && d.inode[i].kind == Dir ensures DirOK(geo, d, i) && NamesOK(geo, d, i) {
      NodeFields(geo, d, t, i);
    }
    var t' := TreeOf(geo, d, live);
    forall i: nat
      ensures (i in t.kind <==> i in t'.kind) && (i in t.kind ==> t.kind[i] == t'.kind[i])
      ensures (i in t.links <==> i in t'.links) && (i in t.links ==> t.links[i] == t'.links[i])
      ensures (i in t.kids <==> i in t'.kids) && (i in t.kids ==> t.kids[i] == t'.kids[i])
      ensures (i in t.up <==> i in t'.up) && (i in t.up ==> t.up[i] == t'.up[i])
    {
      TreeAt(geo, d, live, i);
      if i in live { NodeFields(geo, d, t, i); }
    }
  }

  /** Inode i shows the same in both. */
  ghost predicate SameText(geo: Geometry, d: Disk, d': Disk, i: nat)
    requires geo.Valid() && Fits(geo, d) && Fits(geo, d')
  {
    i <= geo.inodes && i < |d.inode| && i < |d'.inode| && TextOf(geo, d', i) == TextOf(geo, d, i)
  }

  /** From d to d' the namespace became t' and the texts of `kept` stayed. */
  ghost predicate Became(geo: Geometry, d: Disk, d': Disk, live': set<nat>, t': Tree, kept: set<nat>)
    requires geo.Valid() && Fits(geo, d)
  {
    && Settled(geo, d', live') && TreeOf(geo, d', live') == t'
    && forall i :: i in kept ==> SameText(geo, d, d', i)
  }

  /** The books and the directories of d are in order, and its names are t, a tree or not. */
  ghost predicate Laid(geo: Geometry, d: Disk, live: set<nat>, t: Tree)
    requires geo.Valid()
  {
    && Store(geo, d, live, {}) && Fits(geo, d) && InodeBooks(geo, d, live, DirSet(d, live))
    && Numbers(geo, live) && DirsOK(geo, d, live) && TreeOf(geo, d, live) == t
  }

  /** From d to d' the names became t' and the texts of `kept` stayed. */
  ghost predicate Relaid(geo: Geometry, d: Disk, d': Disk, live': set<nat>, t': Tree, kept: set<nat>)
    requires geo.Valid() && Fits(geo, d)
  {
    Laid(geo, d', live', t') && forall i :: i in kept ==> SameText(geo, d, d', i)
  }

  lemma ShowsText(geo: Geometry, d: Disk, t: Tree, i: nat, w: View)
    requires geo.Valid() && Fits(geo, d) && Shows(geo, d, i, w) && i in t.kind && i in t.links
    requires w == TreeView(t, i, w.text)
    ensures ShowsNode(geo, d, t, i) && i <= geo.inodes && i < |d.inode| && TextOf(geo, d, i) == w.text
  {
    hide Fits, KidMap, FindIno, LinkTarget, Contents, DirOK;
  }

  /** What live' and its names need beyond the block and inode books. */
  lemma LaidFrom(geo: Geometry, d: Disk, live': set<nat>, t': Tree)
    requires geo.Valid() && Fits(geo, d) && Store(geo, d, live', {})
    requires InodeBooks(geo, d, live', DirSet(d, live'))
    requires Shaped(t') && t'.kind.Keys == live'
    requires forall i :: i in live' ==> ShowsNode(geo, d, t', i)
    ensures Laid(geo, d, live', t')
  {
    hide Store, Fits, InodeBooks, ShowsNode, TreeOf, DirSet;
    StoreFits(geo, d, live', {});
    TreeFromViews(geo, d, live', t');
  }

  lemma SettledFrom(geo: Geometry, d: Disk, live': set<nat>, t': Tree)
    requires geo.Valid() && Fits(geo, d) && Store(geo, d, live', {})
    requires InodeBooks(geo, d, live', DirSet(d, live'))
    requires TreeOK(t') && Shaped(t') && t'.kind.Keys == live'
    requires forall i :: i in live' ==> ShowsNode(geo, d, t', i)
    ensures Settled(geo, d, live') && TreeOf(geo, d, live') == t'
  {
    hide TreeOK, Store, Fits, InodeBooks, ShowsNode, TreeOf, DirSet;
    LaidFrom(geo, d, live', t');
  }

  /** Names in order are consistent exactly when they are a tree. */
  lemma LaidConsistent(geo: Geometry, d: Disk, live: set<nat>, t: Tree)
    requires geo.Valid() && Laid(geo, d, live, t) && ROOT_INO in live
    ensures BitmapsFit(geo, d.ibm) && LiveInodes(geo, d) == live
    ensures Consistent(geo, d) <==> TreeOK(t)
  {
    hide TreeOK, Store, Fits, InodeBooks, TreeOf, DirSet, DirsOK, LiveInodes, UsedInos;
    LiveInRange(geo, d, live, DirSet(d, live));
    BooksLive(geo, d, live, DirSet(d, live));
  }

  lemma SettledParts(geo: Geometry, d: Disk, live: set<nat>)
    requires geo.Valid() && Settled(geo, d, live)
    ensures Store(geo, d, live, {}) && Fits(geo, d) && Numbers(geo, live) && DirsOK(geo, d, live)
    ensures InodeBooks(geo, d, live, DirSet(d, live)) && Namespace(geo, d, live) && TreeOK(TreeOf(geo, d, live))
    ensures Shaped(TreeOf(geo, d, live)) && TreeOf(geo, d, live).kind.Keys == live
  {
    hide Store, Fits, InodeBooks, DirsOK, TreeOf;
    hide RefsLive, Acyclic, Refs, DirLinks, OneParent;
    var t := TreeOf(geo, d, live);
    forall i: nat ensures i in t.kind <==> i in live { TreeAt(geo, d, live, i); }
  }

  // ---- a new inode in hand ----

  /** ino is a new inode that shows v; nothing else changed, and no entry names
      it yet. */
  ghost predicate Pending(geo: Geometry, d0: Disk, d: Disk, live: set<nat>, ino: nat, v: View)
    requires geo.Valid()
  {
    && Settled(geo, d0, live) && ino !in live
    && Fits(geo, d) && Store(geo, d, live + {ino}, {})
    && InodeBooks(geo, d, live + {ino}, DirSet(d, live + {ino}))
    && Kept(geo, d0, d, live)
    && Shows(geo, d, ino, v)
  }

  /** The record v at ino, owning exactly the blocks in hand. */
  lemma Adopt(geo: Geometry, d0: Disk, d: Disk, live: set<nat>, spare: set<nat>, ino: nat, v: Inode)
    requires geo.Valid() && Fits(geo, d0) && Fits(geo, d) && Store(geo, d, live, spare) && Kept(geo, d0, d, live)
    requires ino !in live && ino < |d.inode| && |v.iblock| == 60
    requires Fits(geo, d.(inode := d.inode[ino := v]))
    requires OwnsWell(geo, d.(inode := d.inode[ino := v]), ino) && Own(geo, d.(inode := d.inode[ino := v]), ino) == spare
    ensures var d' := d.(inode := d.inode[ino := v]); Store(geo, d', live + {ino}, {}) && Kept(geo, d0, d', live)
  {
    hide Store, Fits, OwnsWell, Own, Kept, Geometry.Valid;
    var d' := d.(inode := d.inode[ino := v]);
    InodeStep(geo, d, live, spare, ino, v);
    KeptAgain(geo, d0, d, d', live);
    Attach(geo, d', live, spare, ino);
    assert spare - spare == {};
  }

  lemma FitsInode(geo: Geometry, d: Disk, ino: nat, v: Inode)
    requires geo.Valid() && Fits(geo, d) && ino < |d.inode| && |v.iblock| == 60
    ensures Fits(geo, d.(inode := d.inode[ino := v]))
  {
    hide FreeGroup, SumFree, UsedBit;
  }

  lemma ZeroIblock()
    ensures Words(Zeros(60)) == ZeroWords(15)
  {
    forall k | 0 <= k < 15 ensures Words(Zeros(60))[k] == 0 {}
  }

  /** An inode with an empty map owns nothing. */
  lemma EmptyOwns(geo: Geometry, d: Disk, ino: nat)
    requires geo.Valid() && Fits(geo, d) && 1 <= ino <= geo.inodes && ino < |d.inode|
    requires d.inode[ino].size == 0 && d.inode[ino].iblock == Zeros(60) && d.inode[ino].kind != Symlink && d.inode[ino].sectors == 0
    ensures OwnsWell(geo, d, ino) && Own(geo, d, ino) == {}
    ensures Contents(geo, d, ino) == Ok([])
  {
    hide Words, Ready;
    FitsData(geo, d);
    ZeroIblock();
    CeilIs(geo.bs, 0, 0, 0);
    NoNeed(geo.bs, d.data, ZeroWords(15), 0);
  }

  /** A fast symlink owns nothing. */
  lemma FastOwns(geo: Geometry, d: Disk, ino: nat)
    requires geo.Valid() && Fits(geo, d) && 1 <= ino <= geo.inodes && ino < |d.inode| && FastSymlink(d.inode[ino])
    ensures OwnsWell(geo, d, ino) && Own(geo, d, ino) == {}
  {
    hide Ready;
  }

  function OneBlockMap(blk: nat): (r: Bytes)
    ensures |r| == 60
  {
    PutU32(Zeros(60), 0, blk)
  }

  lemma OneBlockWords(blk: nat)
    requires blk < 0x1_0000_0000
    ensures Words(OneBlockMap(blk)) == [blk] + ZeroWords(14)
  {
    hide PutWords, U32;
    ZeroIblock();
    assert PutWords(Zeros(60), [blk]) == OneBlockMap(blk) by { PutOne(blk); }
    WordsOfPutWords(Zeros(60), [blk]);
    assert ZeroWords(15)[1..] == ZeroWords(14);
  }

  lemma PutOne(blk: nat)
    ensures PutWords(Zeros(60), [blk]) == OneBlockMap(blk)
  {
    hide PutU32;
    assert PutWords(Zeros(60), []) == Zeros(60);
    assert [blk][..0] == [];
  }

  lemma OneBlockMapped(bs: nat, data: seq<Bytes>, blk: nat)
    requires DataFit(bs, data)
    ensures MapBlocks(bs, data, [blk] + ZeroWords(14), 1) == [blk]
    ensures MapIndirect(bs, data, [blk] + ZeroWords(14)) == []
  {
    hide FromTops;
    var words := [blk] + ZeroWords(14);
    DirectTops(bs, data, words, 0, 1);
    assert words[0..1] == [blk];
  }

  /** An inode of one direct block owns that block. */
  lemma OneBlockOwns(geo: Geometry, d: Disk, ino: nat, blk: nat)
    requires geo.Valid() && Fits(geo, d) && 1 <= ino <= geo.inodes && ino < |d.inode|
    requires d.inode[ino].iblock == OneBlockMap(blk) && 0 < d.inode[ino].size <= geo.bs && d.inode[ino].sectors == geo.bs / 512
    requires geo.DataBlock(blk) && blk != 0
    ensures OwnsWell(geo, d, ino) && Own(geo, d, ino) == {blk}
    ensures Fb(geo, d, ino) == [blk] && Words(d.inode[ino].iblock)[14] == 0
  {
    hide Words, Ready, MapBlocks, MapIndirect, OwnsWell, Own, Filter, NoDup, Sectors, CeilDiv;
    FitsData(geo, d);
    OneBlockWords(blk);
    OneBlockMapped(geo.bs, d.data, blk);
    var size := d.inode[ino].size;
    if size < geo.bs { CeilIs(geo.bs, size, 0, size); } else { CeilIs(geo.bs, size, 1, 0); }
    assert [blk] + [] == [blk];
    assert NotHole(blk);
    FilterAll([blk]);
    OneSector(geo.bs, blk);
    OwnsAll(geo, d, ino, [blk], []);
  }

  lemma OneSector(bs: nat, blk: nat)
    requires 1024 <= bs < 0x1_0000
    ensures Sectors(bs, 1) == bs / 512 > 0 && NoDup([blk])
    ensures ToSet([blk]) + ToSet([]) == {blk} && |ToSet([blk]) + ToSet([])| == 1
  {
    assert ToSet([blk]) + ToSet([]) == {blk};
  }

  // ---- linking it ----

  /** The new inode's entry stands in directory p. */
  ghost predicate Linked(geo: Geometry, d0: Disk, d: Disk, live: set<nat>, p: nat, nm: Bytes, ino: nat, v: View)
    requires geo.Valid()
  {
    && Settled(geo, d0, live) && ino !in live && p in live
    && Fits(geo, d) && Store(geo, d, live + {ino}, {})
    && InodeBooks(geo, d, live + {ino}, DirSet(d, live + {ino}))
    && (forall j :: j in live && j != p ==> SameView(geo, d0, d, j))
    && (forall w :: Shows(geo, d0, p, w) ==> Shows(geo, d, p, w.(kids := Bind(w.kids, nm, ino))))
    && Shows(geo, d, ino, v)
  }

  /** A directory of a settled disk that does not have the name. */
  ghost predicate FreeName(geo: Geometry, d: Disk, live: set<nat>, p: nat, nm: Bytes)
    requires geo.Valid()
  {
    && Settled(geo, d, live) && p in live && p < |d.inode| && d.inode[p].kind == Dir
    && Plain(nm) && 1 <= |nm| <= 255
    && p in TreeOf(geo, d, live).kids && nm !in TreeOf(geo, d, live).kids[p]
  }

  lemma FreeNameDir(geo: Geometry, d: Disk, live: set<nat>, p: nat, nm: Bytes)
    requires geo.Valid() && FreeName(geo, d, live, p, nm)
    ensures Fits(geo, d) && Numbers(geo, live) && 1 <= p <= geo.inodes && GoodDir(geo, d, p) && p in live
    ensures exists w :: Shows(geo, d, p, w) && w.kind == Dir && nm !in w.kids
  {
    hide Store, InodeBooks, TreeOf, TreeOK, Fits, DirOK, NamesOK, ViewOf;
    SettledParts(geo, d, live);
    NamespaceDir(geo, d, live, p);
    ViewsOfTree(geo, d, live, p);
    TreeAt(geo, d, live, p);
    var w := TreeView(TreeOf(geo, d, live), p, TextOf(geo, d, p));
    assert Shows(geo, d, p, w);
  }

  /** Where add-entry! starts: p as a directory of the disk with the new inode. */
  lemma PendingDir(geo: Geometry, d0: Disk, d: Disk, live: set<nat>, p: nat, nm: Bytes, ino: nat, v: View)
    requires geo.Valid() && Pending(geo, d0, d, live, ino, v) && FreeName(geo, d0, live, p, nm)
    requires SmallDir(geo, d0, p)
    ensures DirIn(geo, d, live + {ino}, {}, p) && SmallDir(geo, d, p)
    ensures Fits(geo, d0) && Fits(geo, d) && SameView(geo, d0, d, p)
    ensures 0 < ino < 0x1_0000_0000 && p != ino
  {
    hide Store, InodeBooks, Fits, DirOK, NamesOK, Settled, Ents, Own;
    FreeNameDir(geo, d0, live, p, nm);
    StoreFits(geo, d, live + {ino}, {});
    SameDir(geo, d0, d, p);
    SameIsView(geo, d0, d, p);
  }

  lemma LinkedNow(geo: Geometry, d0: Disk, d1: Disk, d2: Disk, live: set<nat>, p: nat, nm: Bytes, ino: nat, v: View, e: Entry)
    requires geo.Valid() && Pending(geo, d0, d1, live, ino, v) && FreeName(geo, d0, live, p, nm) && p != ino
    requires Fits(geo, d0) && Fits(geo, d1) && SameView(geo, d0, d1, p)
    requires EntryAdded(geo, d1, d2, live + {ino}, {}, p, e) && e.name == nm && e.ino == ino
    ensures Linked(geo, d0, d2, live, p, nm, ino, v)
  {
    hide Store, InodeBooks, Fits, DirOK, Settled, Ents, Inserted, FirstBlockNames, Shows, SameView, Kept, DirSet, FirstKept;
    BooksAfterEdit(d1, d2, p);
    StoreFits(geo, d1, live + {ino}, {});
    DirSetSame(geo, d1, d2, live + {ino}, p);
    InodeBooksSame(geo, d1, d2, live + {ino}, DirSet(d1, live + {ino}));
    KeptViews(geo, d0, d1, live);
    KeptViews(geo, d1, d2, live + {ino} - {p});
    forall j | j in live && j != p ensures SameView(geo, d0, d2, j) { SameViewAgain(geo, d0, d1, d2, j); }
    ViewUsed(geo, d1, d2, ino, v);
    forall w | Shows(geo, d0, p, w) ensures Shows(geo, d2, p, w.(kids := Bind(w.kids, nm, ino))) {
      ViewUsed(geo, d0, d1, p, w);
      OneView(geo, d0, live, p, nm, w);
      AddedView(geo, d1, d2, live + {ino}, {}, p, e, w);
    }
  }

  lemma ViewUsed(geo: Geometry, d: Disk, d': Disk, i: nat, v: View)
    requires geo.Valid() && Fits(geo, d) && Fits(geo, d') && SameView(geo, d, d', i) && Shows(geo, d, i, v)
    ensures Shows(geo, d', i, v)
  {
    hide Fits, Shows;
  }

  lemma OneView(geo: Geometry, d: Disk, live: set<nat>, p: nat, nm: Bytes, w: View)
    requires geo.Valid() && FreeName(geo, d, live, p, nm) && Fits(geo, d) && Shows(geo, d, p, w)
    ensures w.kind == Dir && nm !in w.kids && Plain(nm)
  {
    hide Fits, Settled, ViewOf, TreeOf;
    FreeNameDir(geo, d, live, p, nm);
  }

  lemma DirSetSame(geo: Geometry, d: Disk, d': Disk, live: set<nat>, dir: nat)
    requires OthersSame(d, d', dir)
    ensures DirSet(d', live) == DirSet(d, live)
  {}

  lemma PendingOutcome(geo: Geometry, d0: Disk, d1: Disk, live: set<nat>, p: nat, nm: Bytes, ino: nat, v: View, free: nat)
    requires geo.Valid() && Pending(geo, d0, d1, live, ino, v) && FreeName(geo, d0, live, p, nm)
    ensures Fits(geo, d0) && Fits(geo, d1) && p <= geo.inodes
    ensures AddOutcome(geo, d1, free, p, nm) == AddOutcome(geo, d0, free, p, nm)
  {
    hide Fits, Settled, Store, InodeBooks, DirOK, NamesOK, TreeOf, Shows, AddOutcome, HasSlot, Same;
    FreeNameDir(geo, d0, live, p, nm);
    SameOutcome(geo, d0, d1, free, p, nm);
  }

  /** Taking an inode and that many blocks. */
  function NodeOutcome(d: Disk, blocks: nat): Result<nat> {
    if d.sbFreeInodes == 0 then Err(NoFreeInodes)
    else if d.sbFreeBlocks < blocks then Err(DiskFull)
    else Ok(d.sbFreeBlocks - blocks)
  }

  /** What making a new name comes to: an inode, `blocks` blocks of its own, and the
      entry. */
  ghost function MakeOutcome(geo: Geometry, d: Disk, blocks: nat, p: nat, nm: Bytes): (r: Result<nat>)
    requires geo.Valid() && Fits(geo, d) && p <= geo.inodes
    ensures r.Err? ==> r.reason == NoFreeInodes || r.reason == DiskFull || r.reason == FileTooLarge
  {
    var node := NodeOutcome(d, blocks);
    if node.Err? then node else AddOutcome(geo, d, node.value, p, nm)
  }

  /** add-entry! for a new inode. */
  method LinkNew(fs: Volume, p: nat, nm: Bytes, ino: nat, t: nat, ghost d0: Disk, ghost live: set<nat>, ghost v: View)
    returns (r: Result<()>)
    requires fs.geo.Valid() && Pending(fs.geo, d0, fs.disk, live, ino, v)
    requires FreeName(fs.geo, d0, live, p, nm) && SmallDir(fs.geo, d0, p) && t < 256
    modifies fs
    ensures r.Ok? ==> Linked(fs.geo, d0, fs.disk, live, p, nm, ino, v)
    ensures r.Ok? ==> |fs.disk.inode| == |old(fs.disk.inode)| && (ino < |fs.disk.inode| ==> fs.disk.inode[ino] == old(fs.disk.inode)[ino])
    ensures r.Ok? ==> HasEntry(fs.geo, fs.disk, p, NewEntry(fs.geo.filetype, nm, ino, t))
    ensures Fits(fs.geo, d0) && p <= fs.geo.inodes
    ensures Told(r, fs.disk.sbFreeBlocks) == AddOutcome(fs.geo, d0, old(fs.disk).sbFreeBlocks, p, nm)
    ensures Unharmed(fs.geo, d0, fs.disk, live - {p})
  {
    hide HasEntry, Unharmed, Kept, Pending, Linked, EntryAdded, DirIn, Settled, SmallDir, Fits, Geometry.Valid, TreeOf, AddOutcome;
    ghost var d1 := fs.disk;
    PendingDir(fs.geo, d0, d1, live, p, nm, ino, v);
    PendingOutcome(fs.geo, d0, d1, live, p, nm, ino, v, d1.sbFreeBlocks);
    r := AddEntry(fs, p, nm, ino, t, live + {ino}, {});
    if r.Err? { LinkFailed(fs.geo, d0, d1, fs.disk, live, p, ino, v); }
    if r.Ok? {
      LinkedNow(fs.geo, d0, d1, fs.disk, live, p, nm, ino, v, NewEntry(fs.geo.filetype, nm, ino, t));
      AddedRecords(fs.geo, d1, fs.disk, live + {ino}, p, NewEntry(fs.geo.filetype, nm, ino, t), ino);
      LinkedUnharmed(fs.geo, d0, fs.disk, live, p, nm, ino, v);
      AddedHas(fs.geo, d1, fs.disk, live + {ino}, {}, p, NewEntry(fs.geo.filetype, nm, ino, t));
    }
  }

  lemma LinkedUnharmed(geo: Geometry, d0: Disk, d: Disk, live: set<nat>, p: nat, nm: Bytes, ino: nat, v: View)
    requires geo.Valid() && Linked(geo, d0, d, live, p, nm, ino, v)
    ensures Unharmed(geo, d0, d, live - {p})
  {
    hide Fits, Settled, Store, InodeBooks, SameView, Shows;
    SettledParts(geo, d0, live);
  }

  lemma LinkFailed(geo: Geometry, d0: Disk, d1: Disk, d2: Disk, live: set<nat>, p: nat, ino: nat, v: View)
    requires geo.Valid() && Pending(geo, d0, d1, live, ino, v) && Fits(geo, d1)
    requires Fits(geo, d2) && Kept(geo, d1, d2, live + {ino} - {p})
    ensures Unharmed(geo, d0, d2, live - {p})
  {
    hide Fits, Settled, Store, InodeBooks, Shows, Kept, Unharmed;
    SettledParts(geo, d0, live);
    KeptUnharmed(geo, d0, d1, live);
    KeptUnharmed(geo, d1, d2, live + {ino} - {p});
    UnharmedAgain(geo, d0, d1, d2, live, live + {ino} - {p}, live - {p});
  }

  lemma AddedRecords(geo: Geometry, d: Disk, d': Disk, live: set<nat>, p: nat, e: Entry, i: nat)
    requires geo.Valid() && EntryAdded(geo, d, d', live, {}, p, e) && i != p
    ensures |d'.inode| == |d.inode| && (i < |d.inode| ==> d'.inode[i] == d.inode[i])
  {
    hide Store, Fits, Kept, DirOK, Inserted, FirstKept;
  }
}
