/** Moving an entry from one directory to another (lib/ext2.beer:850-855). */
module Ext2Move {
  import opened Bytes
  import opened Ext2Disk
  import opened Ext2DirBlock
  import opened Ext2DirData
  import opened Ext2Store
  import opened Ext2Dir
  import opened Ext2DirOps
  import opened Ext2Names
  import opened Ext2Lookup
  import opened Ext2Books
  import opened Ext2Views
  import opened Ext2Create
  import opened Ext2Make
  import opened Ext2Remove
  import opened Ext2Tree

  /** What moving an entry needs: the new name is free.  That a directory does not go
      below itself is not asked for. */
  ghost predicate MayMove(t: Tree, p1: nat, n1: Name, p2: nat, n2: Name) {
    && Movable(t, p1, n1, p2, n2) && Plain(n1) && Plain(n2) && 1 <= |n2| <= 255
    && p1 in t.links && p2 in t.links
  }

  ghost predicate MoveArgs(geo: Geometry, d: Disk, live: set<nat>, p1: nat, n1: Name, p2: nat, n2: Name, i: nat)
    requires geo.Valid()
  {
    && Settled(geo, d, live) && MayMove(TreeOf(geo, d, live), p1, n1, p2, n2)
    && TreeOf(geo, d, live).kids[p1][n1] == i && SmallDir(geo, d, p2)
  }

  /** A view after p1/n1 -> i became p2/n2 -> i. */
  function MovedView(w: View, j: nat, p1: nat, n1: Name, p2: nat, n2: Name, i: nat): View {
    var k := if j == p2 then Bind(w.kids, n2, i) else w.kids;
    w.(kids := if j == p1 then k - {n1} else k)
  }

  lemma ShowsEntry(geo: Geometry, d: Disk, live: set<nat>, i: nat, w: View, nm: Bytes)
    requires geo.Valid() && Store(geo, d, live, {}) && i in live && Fits(geo, d)
    requires Shows(geo, d, i, w) && w.kind == Dir
    ensures DirIn(geo, d, live, {}, i) && DirOK(geo, d, i) && 1 <= i <= geo.inodes && FirstBlockNames(geo, d, i, DOTDOT)
    ensures nm in w.kids ==> !NoneNamed(Ents(geo, d, i), nm)
  {
    hide Store, Fits, DirOK, Ents, FindIno, KidMap, Shows, FirstBlockNames;
    ShowsDir(geo, d, i, w);
    StoreFits(geo, d, live, {});
    KidMapIs(Ents(geo, d, i), nm);
    FindNone(Ents(geo, d, i), nm);
  }

  lemma MoveArgsIs(geo: Geometry, d: Disk, live: set<nat>, p1: nat, n1: Name, p2: nat, n2: Name, i: nat)
    requires geo.Valid() && MoveArgs(geo, d, live, p1, n1, p2, n2, i)
    ensures Fits(geo, d) && Numbers(geo, live) && DirsOK(geo, d, live) && Store(geo, d, live, {})
    ensures Booked(geo, d, live, DirSet(d, live)) && Settled(geo, d, live)
    ensures p1 in live && p2 in live && i in live && i < |d.inode| && i <= geo.inodes && p2 < |d.inode| && p1 < |d.inode|
    ensures d.inode[p1].kind == Dir && d.inode[p2].kind == Dir && SmallDir(geo, d, p2)
    ensures EntryArgs(n2, i, 255)
    ensures var t := TreeOf(geo, d, live);
            && MayMove(t, p1, n1, p2, n2) && t.kids[p1][n1] == i
            && TreeOK(t) && Shaped(t) && t.kind.Keys == live && t.kind[i] == d.inode[i].kind
  {
    hide Store, InodeBooks, TreeOf, TreeOK, Fits, DirsOK, Acyclic, Refs, OneParent, DirLinks, RefsLive, SmallDir;
    SettledParts(geo, d, live);
    var t := TreeOf(geo, d, live);
    TreeAt(geo, d, live, p1);
    TreeAt(geo, d, live, p2);
    UpIsLive(t, p1);
    TreeAt(geo, d, live, i);
    FitsData(geo, d);
    WholeWords(geo);
  }

  /** p2 has the new entry. */
  ghost predicate Doubled(geo: Geometry, d0: Disk, d: Disk, live: set<nat>, p2: nat, n2: Name, i: nat)
    requires geo.Valid()
  {
    && Settled(geo, d0, live) && p2 in live && Fits(geo, d0)
    && Booked(geo, d, live, DirSet(d0, live)) && OthersSame(d0, d, p2)
    && (forall j, w :: j in live && Shows(geo, d0, j, w) ==> Shows(geo, d, j, if j == p2 then w.(kids := Bind(w.kids, n2, i)) else w))
  }

  lemma DoubledNow(geo: Geometry, d0: Disk, d: Disk, live: set<nat>, p1: nat, n1: Name, p2: nat, n2: Name,
                   i: nat, e: Entry)
    requires geo.Valid() && MoveArgs(geo, d0, live, p1, n1, p2, n2, i)
    requires EntryAdded(geo, d0, d, live, {}, p2, e) && e.name == n2 && e.ino == i
    ensures Doubled(geo, d0, d, live, p2, n2, i)
  {
    hide Store, InodeBooks, TreeOf, Fits, DirOK, Settled, Ents, Inserted, FirstBlockNames, Shows, SameView, Kept, DirSet, FirstKept, MoveArgs,
         OthersSame;
    MoveArgsIs(geo, d0, live, p1, n1, p2, n2, i);
    BooksAfterEdit(d0, d, p2);
    InodeBooksSame(geo, d0, d, live, DirSet(d0, live));
    KeptViews(geo, d0, d, live - {p2});
    forall j, w | j in live && Shows(geo, d0, j, w)
      ensures Shows(geo, d, j, if j == p2 then w.(kids := Bind(w.kids, n2, i)) else w)
    {
      DoubledView(geo, d0, d, live, p1, n1, p2, n2, i, e, j, w);
    }
  }

  lemma DoubledView(geo: Geometry, d0: Disk, d: Disk, live: set<nat>, p1: nat, n1: Name, p2: nat, n2: Name,
                    i: nat, e: Entry, j: nat, w: View)
    requires geo.Valid() && MoveArgs(geo, d0, live, p1, n1, p2, n2, i)
    requires EntryAdded(geo, d0, d, live, {}, p2, e) && e.name == n2 && e.ino == i
    requires Fits(geo, d0) && Fits(geo, d) && j in live && (j != p2 ==> SameView(geo, d0, d, j)) && Shows(geo, d0, j, w)
    ensures Shows(geo, d, j, if j == p2 then w.(kids := Bind(w.kids, n2, i)) else w)
  {
    hide Fits, Shows, SameView, EntryAdded, MoveArgs;
    if j == p2 {
      MoveDirView(geo, d0, live, p1, n1, p2, n2, i, j, w);
      AddedView(geo, d0, d, live, {}, p2, e, w);
    } else {
      ViewUsed(geo, d0, d, j, w);
    }
  }

  lemma MoveDirView(geo: Geometry, d: Disk, live: set<nat>, p1: nat, n1: Name, p2: nat, n2: Name, i: nat,
                    j: nat, w: View)
    requires geo.Valid() && MoveArgs(geo, d, live, p1, n1, p2, n2, i) && Fits(geo, d)
    requires j in live && Shows(geo, d, j, w)
    ensures j == p2 ==> w.kind == Dir && n2 !in w.kids && Plain(n2)
    ensures j == p1 ==> w.kind == Dir && n1 in w.kids && Plain(n1)
  {
    hide Store, InodeBooks, TreeOf, Fits, DirOK, Settled, ViewOf, MoveArgs;
    MoveArgsIs(geo, d, live, p1, n1, p2, n2, i);
    ViewsOfTree(geo, d, live, j);
  }

  /** The entry was moved; link counts and `..` not yet. */
  ghost predicate Moved(geo: Geometry, d0: Disk, d: Disk, live: set<nat>, p1: nat, n1: Name, p2: nat, n2: Name, i: nat)
    requires geo.Valid()
  {
    && Settled(geo, d0, live)
    && Fits(geo, d0) && Booked(geo, d, live, DirSet(d, live))
    && (forall j, w :: j in live && Shows(geo, d0, j, w) ==> Shows(geo, d, j, MovedView(w, j, p1, n1, p2, n2, i)))
  }

  lemma MovedNow(geo: Geometry, d0: Disk, d1: Disk, d2: Disk, live: set<nat>, p1: nat, n1: Name, p2: nat, n2: Name, i: nat)
    requires geo.Valid() && MoveArgs(geo, d0, live, p1, n1, p2, n2, i)
    requires Doubled(geo, d0, d1, live, p2, n2, i) && EntryRemoved(geo, d1, d2, live, {}, p1, n1)
    ensures Moved(geo, d0, d2, live, p1, n1, p2, n2, i)
  {
    hide Store, InodeBooks, TreeOf, Fits, DirOK, Settled, Ents, Without, FirstBlockNames, Shows, SameView, Kept, DirSet, FirstKept, MoveArgs,
         OthersSame;
    MoveArgsIs(geo, d0, live, p1, n1, p2, n2, i);
    DirSetSame(geo, d0, d1, live, p2);
    DirSetSame(geo, d1, d2, live, p1);
    BooksAfterEdit(d1, d2, p1);
    InodeBooksSame(geo, d1, d2, live, DirSet(d1, live));
    KeptViews(geo, d1, d2, live - {p1});
    forall j, w | j in live && Shows(geo, d0, j, w) ensures Shows(geo, d2, j, MovedView(w, j, p1, n1, p2, n2, i)) {
      MovedOne(geo, d0, d1, d2, live, p1, n1, p2, n2, i, j, w);
    }
  }

  lemma MovedOne(geo: Geometry, d0: Disk, d1: Disk, d2: Disk, live: set<nat>, p1: nat, n1: Name, p2: nat, n2: Name,
                 i: nat, j: nat, w: View)
    requires geo.Valid() && MoveArgs(geo, d0, live, p1, n1, p2, n2, i)
    requires Doubled(geo, d0, d1, live, p2, n2, i) && EntryRemoved(geo, d1, d2, live, {}, p1, n1)
    requires Fits(geo, d1) && Fits(geo, d2) && j in live && (j != p1 ==> SameView(geo, d1, d2, j)) && Shows(geo, d0, j, w)
    ensures Shows(geo, d2, j, MovedView(w, j, p1, n1, p2, n2, i))
  {
    hide Fits, Shows, SameView, EntryRemoved, MoveArgs, Settled, Booked, OthersSame;
    MoveDirView(geo, d0, live, p1, n1, p2, n2, i, j, w);
    var w1 := if j == p2 then w.(kids := Bind(w.kids, n2, i)) else w;
    assert Shows(geo, d1, j, w1);
    if j == p1 { RemovedView(geo, d1, d2, live, {}, p1, n1, w1); } else { ViewUsed(geo, d1, d2, j, w1); }
  }

  /** Where remove-entry! starts. */
  lemma OldEntryThere(geo: Geometry, d0: Disk, d1: Disk, live: set<nat>, p1: nat, n1: Name, p2: nat, n2: Name, i: nat)
    requires geo.Valid() && MoveArgs(geo, d0, live, p1, n1, p2, n2, i) && Doubled(geo, d0, d1, live, p2, n2, i)
    ensures Fits(geo, d1) && DirIn(geo, d1, live, {}, p1) && DirOK(geo, d1, p1) && !NoneNamed(Ents(geo, d1, p1), n1)
  {
    hide Store, InodeBooks, TreeOf, Fits, DirOK, Settled, Ents, Shows, DirSet, MoveArgs, OthersSame;
    MoveArgsIs(geo, d0, live, p1, n1, p2, n2, i);
    ViewsOfTree(geo, d0, live, p1);
    var w := TreeView(TreeOf(geo, d0, live), p1, TextOf(geo, d0, p1));
    assert Shows(geo, d0, p1, w);
    MoveDirView(geo, d0, live, p1, n1, p2, n2, i, p1, w);
    var w1 := if p1 == p2 then w.(kids := Bind(w.kids, n2, i)) else w;
    ShowsEntry(geo, d1, live, p1, w1, n1);
  }

  /** Add the new entry, then remove the old one. */
  method MoveEntry(fs: Volume, p1: nat, n1: Name, p2: nat, n2: Name, i: nat, t: nat, ghost live: set<nat>)
    returns (r: Result<()>)
    requires fs.geo.Valid() && MoveArgs(fs.geo, fs.disk, live, p1, n1, p2, n2, i) && t < 256
    modifies fs
    ensures r.Ok? ==> Moved(fs.geo, old(fs.disk), fs.disk, live, p1, n1, p2, n2, i)
    ensures r.Ok? ==> HasEntry(fs.geo, fs.disk, p2, NewEntry(fs.geo.filetype, n2, i, t))
    ensures Fits(fs.geo, old(fs.disk)) && p2 <= fs.geo.inodes
    ensures Told(r, fs.disk.sbFreeBlocks) == AddOutcome(fs.geo, old(fs.disk), old(fs.disk).sbFreeBlocks, p2, n2)
    ensures r.Err? ==> Unharmed(fs.geo, old(fs.disk), fs.disk, live - {p2})
  {
    hide HasEntry, Unharmed, Kept, AddOutcome, MoveArgs, Moved, Doubled, EntryAdded, EntryRemoved, DirIn, Settled, SmallDir, Fits, Geometry.Valid, TreeOf, DirOK, Ents, NoneNamed,
         Booked, Store, TreeOK, Shaped, MayMove, Numbers, DirsOK;
    var geo := fs.geo;
    ghost var d0 := fs.disk;
    MoveArgsIs(geo, d0, live, p1, n1, p2, n2, i);
    NewEntryDir(geo, d0, live, p1, n1, p2, n2, i);
    var added := AddEntry(fs, p2, n2, i, t, live, {});
    if added.Err? {
      KeptUnharmed(geo, d0, fs.disk, live - {p2});
      return Err(added.reason);
    }
    ghost var d1 := fs.disk;
    DoubledNow(geo, d0, d1, live, p1, n1, p2, n2, i, NewEntry(geo.filetype, n2, i, t));
    AddedHas(geo, d0, d1, live, {}, p2, NewEntry(geo.filetype, n2, i, t));
    OldEntryThere(geo, d0, d1, live, p1, n1, p2, n2, i);
    var removed := RemoveEntry(fs, p1, n1, live, {});
    NewName(geo, d0, live, p1, n1, p2, n2, i);
    RemovedHas(geo, d1, fs.disk, live, {}, p1, n1, p2, NewEntry(geo.filetype, n2, i, t));
    MovedNow(geo, d0, d1, fs.disk, live, p1, n1, p2, n2, i);
    return Ok(());
  }

  lemma NewName(geo: Geometry, d: Disk, live: set<nat>, p1: nat, n1: Name, p2: nat, n2: Name, i: nat)
    requires geo.Valid() && MoveArgs(geo, d, live, p1, n1, p2, n2, i)
    ensures p1 == p2 ==> n1 != n2
    ensures n2 != DOTDOT && p2 in live
  {
    hide Settled, TreeOf, TreeOK, SmallDir, Fits, Store, DirsOK;
    MoveArgsIs(geo, d, live, p1, n1, p2, n2, i);
  }

  lemma NewEntryDir(geo: Geometry, d: Disk, live: set<nat>, p1: nat, n1: Name, p2: nat, n2: Name, i: nat)
    requires geo.Valid() && MoveArgs(geo, d, live, p1, n1, p2, n2, i)
    ensures DirIn(geo, d, live, {}, p2)
  {
    hide Store, InodeBooks, TreeOf, Fits, DirOK, Settled, Ents, Shows, DirSet, MoveArgs, NamesOK;
    MoveArgsIs(geo, d, live, p1, n1, p2, n2, i);
    NamespaceDir(geo, d, live, p2);
  }

  // ---- what became of the tree ----

  lemma RelinkFileView(t: Tree, p1: nat, n1: Name, p2: nat, n2: Name, j: nat, text: Result<Bytes>)
    requires Movable(t, p1, n1, p2, n2) && Shaped(t) && j in t.kind
    ensures var t' := RelinkFile(t, p1, n1, p2, n2);
            j in t'.kind && j in t'.links
            && TreeView(t', j, text) == MovedView(TreeView(t, j, text), j, p1, n1, p2, n2, t.kids[p1][n1])
  {
    hide TreeOK;
  }

  lemma RelinkFileShape(t: Tree, p1: nat, n1: Name, p2: nat, n2: Name)
    requires Movable(t, p1, n1, p2, n2)
    ensures Shaped(RelinkFile(t, p1, n1, p2, n2)) && RelinkFile(t, p1, n1, p2, n2).kind == t.kind
  {
    hide TreeOK, MovedKids, RefsLive;
    MovedShape(t, RelinkFile(t, p1, n1, p2, n2), p1, n1, p2, n2);
  }

  lemma MovedFile(geo: Geometry, d0: Disk, d: Disk, live: set<nat>, p1: nat, n1: Name, p2: nat, n2: Name, i: nat)
    requires geo.Valid() && MoveArgs(geo, d0, live, p1, n1, p2, n2, i) && Moved(geo, d0, d, live, p1, n1, p2, n2, i)
    requires i < |d0.inode| && (d0.inode[i].kind == Dir ==> p1 == p2)
    ensures Fits(geo, d0) && Numbers(geo, live) && DirsOK(geo, d0, live)
    ensures var t := TreeOf(geo, d0, live);
            MayMove(t, p1, n1, p2, n2) && Relaid(geo, d0, d, live, RelinkFile(t, p1, n1, p2, n2), live)
  {
    hide Store, InodeBooks, TreeOf, Fits, Settled, Shows, DirSet, MoveArgs, Moved, MayMove, RelinkFile, ShowsNode, SameText, TreeOK, DirsOK, TextOf;
    MoveArgsIs(geo, d0, live, p1, n1, p2, n2, i);
    MovedIs(geo, d0, d, live, p1, n1, p2, n2, i);
    var t := TreeOf(geo, d0, live);
    MayMoveIs(t, p1, n1, p2, n2);
    RelinkFileShape(t, p1, n1, p2, n2);
    forall j | j in live ensures ShowsNode(geo, d, RelinkFile(t, p1, n1, p2, n2), j) && SameText(geo, d0, d, j) {
      MovedFileNode(geo, d0, d, live, p1, n1, p2, n2, i, j);
    }
    LaidFrom(geo, d, live, RelinkFile(t, p1, n1, p2, n2));
  }

  lemma MayMoveIs(t: Tree, p1: nat, n1: Name, p2: nat, n2: Name)
    requires MayMove(t, p1, n1, p2, n2)
    ensures Movable(t, p1, n1, p2, n2) && p1 in t.links && p2 in t.links
  {
    hide TreeOK;
  }

  lemma MovedIs(geo: Geometry, d0: Disk, d: Disk, live: set<nat>, p1: nat, n1: Name, p2: nat, n2: Name, i: nat)
    requires geo.Valid() && Moved(geo, d0, d, live, p1, n1, p2, n2, i)
    ensures Fits(geo, d0) && Fits(geo, d) && Store(geo, d, live, {}) && InodeBooks(geo, d, live, DirSet(d, live))
  {
    hide Store, Fits, InodeBooks, Settled, Shows;
  }

  lemma MovedShows(geo: Geometry, d0: Disk, d: Disk, live: set<nat>, p1: nat, n1: Name, p2: nat, n2: Name, i: nat, j: nat)
    requires geo.Valid() && MoveArgs(geo, d0, live, p1, n1, p2, n2, i) && Moved(geo, d0, d, live, p1, n1, p2, n2, i)
    requires Fits(geo, d0) && Fits(geo, d) && Numbers(geo, live) && DirsOK(geo, d0, live) && j in live
    ensures ShowsNode(geo, d0, TreeOf(geo, d0, live), j)
    ensures Shows(geo, d, j, MovedView(TreeView(TreeOf(geo, d0, live), j, TextOf(geo, d0, j)), j, p1, n1, p2, n2, i))
  {
    hide Store, InodeBooks, TreeOf, Fits, Settled, Shows, DirSet, MoveArgs, DirsOK, TextOf;
    ViewsOfTree(geo, d0, live, j);
  }

  lemma MovedFileNode(geo: Geometry, d0: Disk, d: Disk, live: set<nat>, p1: nat, n1: Name, p2: nat, n2: Name, i: nat, j: nat)
    requires geo.Valid() && MoveArgs(geo, d0, live, p1, n1, p2, n2, i) && Moved(geo, d0, d, live, p1, n1, p2, n2, i)
    requires Fits(geo, d0) && Fits(geo, d) && Numbers(geo, live) && DirsOK(geo, d0, live) && j in live
    ensures var t := TreeOf(geo, d0, live);
            Movable(t, p1, n1, p2, n2) && ShowsNode(geo, d, RelinkFile(t, p1, n1, p2, n2), j)
    ensures SameText(geo, d0, d, j)
  {
    hide Store, InodeBooks, TreeOf, Fits, Settled, Shows, DirSet, MoveArgs, Moved, MayMove, RelinkFile, TreeOK, DirsOK, TextOf;
    MoveArgsIs(geo, d0, live, p1, n1, p2, n2, i);
    var t := TreeOf(geo, d0, live);
    MayMoveIs(t, p1, n1, p2, n2);
    MovedShows(geo, d0, d, live, p1, n1, p2, n2, i, j);
    RelinkFileView(t, p1, n1, p2, n2, j, TextOf(geo, d0, j));
    ShowsText(geo, d, RelinkFile(t, p1, n1, p2, n2), j,
              MovedView(TreeView(t, j, TextOf(geo, d0, j)), j, p1, n1, p2, n2, i));
  }

  // ---- a directory under a new parent ----

  function ReparentedView(w: View, j: nat, p1: nat, p2: nat, i: nat): View {
    var u := if j == i then w.(up := p2) else w;
    if j == p1 then u.(links := (u.links - 1) % LINK_WRAP)
    else if j == p2 then u.(links := (u.links + 1) % LINK_WRAP)
    else u
  }

  lemma RelinkDirView(t: Tree, p1: nat, n1: Name, p2: nat, n2: Name, j: nat, text: Result<Bytes>)
    requires Movable(t, p1, n1, p2, n2) && Shaped(t) && j in t.kind && p1 in t.links && p2 in t.links && p1 != p2
    requires var i := t.kids[p1][n1]; i != p1 && i in t.up
    ensures var t', i := RelinkDir(t, p1, n1, p2, n2), t.kids[p1][n1];
            j in t'.kind && j in t'.links
            && TreeView(t', j, text) == ReparentedView(MovedView(TreeView(t, j, text), j, p1, n1, p2, n2, i), j, p1, p2, i)
  {
    hide TreeOK;
  }

  lemma RelinkDirIs(t: Tree, p1: nat, n1: Name, p2: nat, n2: Name)
    requires MayMove(t, p1, n1, p2, n2) && IsDir(t, t.kids[p1][n1])
    ensures var t', i := RelinkDir(t, p1, n1, p2, n2), t.kids[p1][n1];
            Shaped(t') && t'.kind == t.kind && i != p1 && i in t.up
  {
    hide TreeOK, Ranks, RelinkDir, Refs, MovedKids, RefsLive;
    TreeParts(t);
    OnlyRef(t, p1, n1);
    NotOwnParent(t.up, t.kids[p1][n1]);
    RelinkDirFields(t, p1, n1, p2, n2);
    MovedShape(t, RelinkDir(t, p1, n1, p2, n2), p1, n1, p2, n2);
  }

  lemma NotOwnParent(up: map<nat, nat>, i: nat)
    requires Acyclic(up) && i in up && i != ROOT_INO
    ensures up[i] != i
  {
    var rank :| Ranks(up, rank);
  }

  lemma ReparentedNode(geo: Geometry, d0: Disk, d2: Disk, d3: Disk, d4: Disk, d5: Disk, live: set<nat>,
                       p1: nat, n1: Name, p2: nat, n2: Name, i: nat, j: nat)
    requires geo.Valid() && MoveArgs(geo, d0, live, p1, n1, p2, n2, i) && Moved(geo, d0, d2, live, p1, n1, p2, n2, i)
    requires Fits(geo, d0) && Fits(geo, d2) && Fits(geo, d3) && Fits(geo, d4) && Fits(geo, d5)
    requires Numbers(geo, live) && DirsOK(geo, d0, live) && j in live && p1 != p2 && i != p1
    requires i < |d0.inode| && d0.inode[i].kind == Dir
    requires EntryRepointed(geo, d2, d3, live, {}, i, DOTDOT, p2) && (j != i ==> SameView(geo, d2, d3, j))
    requires p1 < |d3.inode| && d4 == d3.(inode := d3.inode[p1 := Linked16(d3.inode[p1], -1)])
    requires j != p1 ==> SameView(geo, d3, d4, j)
    requires p2 < |d4.inode| && d5 == d4.(inode := d4.inode[p2 := Linked16(d4.inode[p2], 1)])
    requires j != p2 ==> SameView(geo, d4, d5, j)
    ensures ShowsNode(geo, d0, TreeOf(geo, d0, live), j)
    ensures var w := MovedView(TreeView(TreeOf(geo, d0, live), j, TextOf(geo, d0, j)), j, p1, n1, p2, n2, i);
            Shows(geo, d5, j, ReparentedView(w, j, p1, p2, i))
  {
    hide Store, InodeBooks, TreeOf, Fits, Settled, Shows, DirSet, MoveArgs, Moved, TreeOK, DirsOK, TextOf, SameView, EntryRepointed, MovedView,
         ReparentedView, Shaped, MayMove, Booked, SmallDir, TreeView, Linked16, Numbers;
    MoveArgsIs(geo, d0, live, p1, n1, p2, n2, i);
    MovedShows(geo, d0, d2, live, p1, n1, p2, n2, i, j);
    var t := TreeOf(geo, d0, live);
    var w := MovedView(TreeView(t, j, TextOf(geo, d0, j)), j, p1, n1, p2, n2, i);
    MovedKind(geo, d0, live, p1, n1, p2, n2, i, j);
    UpView(geo, d2, d3, live, p2, i, j, w);
    var w3 := if j == i then w.(up := p2) else w;
    LinkedView(geo, d3, d4, p1, -1, j, w3);
    LinkedView(geo, d4, d5, p2, 1, j, if j == p1 then w3.(links := (w3.links + -1) % LINK_WRAP) else w3);
    ReparentedIs(w, j, p1, p2, i);
  }

  lemma ReparentedIs(w: View, j: nat, p1: nat, p2: nat, i: nat)
    requires p1 != p2
    ensures var w3 := if j == i then w.(up := p2) else w;
            var w4 := if j == p1 then w3.(links := (w3.links + -1) % LINK_WRAP) else w3;
            ReparentedView(w, j, p1, p2, i) == if j == p2 then w4.(links := (w4.links + 1) % LINK_WRAP) else w4
  {}

  lemma MovedKind(geo: Geometry, d0: Disk, live: set<nat>, p1: nat, n1: Name, p2: nat, n2: Name, i: nat, j: nat)
    requires geo.Valid() && Fits(geo, d0) && Numbers(geo, live) && DirsOK(geo, d0, live) && i in live
    requires i < |d0.inode| && d0.inode[i].kind == Dir && ShowsNode(geo, d0, TreeOf(geo, d0, live), j)
    ensures j == i ==> MovedView(TreeView(TreeOf(geo, d0, live), j, TextOf(geo, d0, j)), j, p1, n1, p2, n2, i).kind == Dir
  {
    hide TreeOf, Fits, Shows, DirsOK, TextOf;
    TreeAt(geo, d0, live, i);
  }

  /** The directory's `..` was repointed, nothing else. */
  lemma UpView(geo: Geometry, d: Disk, d': Disk, live: set<nat>, p: nat, i: nat, j: nat, w: View)
    requires geo.Valid() && Fits(geo, d) && Fits(geo, d') && EntryRepointed(geo, d, d', live, {}, i, DOTDOT, p)
    requires (j != i ==> SameView(geo, d, d', j)) && Shows(geo, d, j, w) && (j == i ==> w.kind == Dir)
    ensures Shows(geo, d', j, if j == i then w.(up := p) else w)
  {
    hide Fits, Shows, SameView, EntryRepointed;
    if j == i { RepointedView(geo, d, d', live, {}, i, p, w); } else { ViewUsed(geo, d, d', j, w); }
  }

  /** One link count was changed, nothing else. */
  lemma LinkedView(geo: Geometry, d: Disk, d': Disk, p: nat, delta: int, j: nat, w: View)
    requires geo.Valid() && Fits(geo, d) && Fits(geo, d') && p < |d.inode| && d' == d.(inode := d.inode[p := Linked16(d.inode[p], delta)])
    requires (j != p ==> SameView(geo, d, d', j)) && Shows(geo, d, j, w)
    ensures Shows(geo, d', j, if j == p then w.(links := (w.links + delta) % LINK_WRAP) else w)
  {
    hide Fits, Shows, SameView, TextOf;
    ShowsLinks(geo, d, j, w);
    if j == p { LinksView(geo, d, d', p, Linked16(d.inode[p], delta), w); } else { ViewUsed(geo, d, d', j, w); }
  }

  /** Raising or lowering one link count leaves the rest of a settled disk. */
  lemma LinkCounted(geo: Geometry, d: Disk, live: set<nat>, p: nat, delta: int)
    requires geo.Valid() && Booked(geo, d, live, DirSet(d, live)) && p < |d.inode|
    ensures var d' := d.(inode := d.inode[p := Linked16(d.inode[p], delta)]);
            && Booked(geo, d', live, DirSet(d', live))
            && forall j :: j in live && j != p ==> SameView(geo, d, d', j)
  {
    hide Store, InodeBooks, Fits, DirSet, SameView, Kept;
    var x := Linked16(d.inode[p], delta);
    var d' := d.(inode := d.inode[p := x]);
    LinksStep(geo, d, live, {}, p, x);
    KeptViews(geo, d, d', live - {p});
    DirSetLinks(d, d', live, p, x);
    InodeBooksSame(geo, d, d', live, DirSet(d, live));
  }

  /** The directory's `..` was repointed. */
  ghost predicate Pointed(geo: Geometry, d2: Disk, d3: Disk, live: set<nat>, p2: nat, i: nat)
    requires geo.Valid()
  {
    && Fits(geo, d2) && Booked(geo, d3, live, DirSet(d3, live)) && EntryRepointed(geo, d2, d3, live, {}, i, DOTDOT, p2)
    && |d3.inode| == |d2.inode| && forall j :: j in live && j != i ==> SameView(geo, d2, d3, j)
  }

  lemma PointedNow(geo: Geometry, d2: Disk, d3: Disk, live: set<nat>, p2: nat, i: nat)
    requires geo.Valid() && Booked(geo, d2, live, DirSet(d2, live)) && EntryRepointed(geo, d2, d3, live, {}, i, DOTDOT, p2)
    ensures Pointed(geo, d2, d3, live, p2, i)
  {
    hide Store, InodeBooks, Fits, DirSet, SameView, Kept, DirOK, Repointing, FirstKept;
    BooksAfterEdit(d2, d3, i);
    DirSetSame(geo, d2, d3, live, i);
    InodeBooksSame(geo, d2, d3, live, DirSet(d2, live));
    KeptViews(geo, d2, d3, live - {i});
  }

  lemma MovedDir(geo: Geometry, d0: Disk, d2: Disk, d3: Disk, live: set<nat>,
                 p1: nat, n1: Name, p2: nat, n2: Name, i: nat)
    requires geo.Valid() && MoveArgs(geo, d0, live, p1, n1, p2, n2, i) && Moved(geo, d0, d2, live, p1, n1, p2, n2, i)
    requires Pointed(geo, d2, d3, live, p2, i) && p1 != p2 && i < |d0.inode| && d0.inode[i].kind == Dir
    requires p1 < |d3.inode| && p2 < |d3.inode|
    ensures Fits(geo, d0) && Numbers(geo, live) && DirsOK(geo, d0, live)
    ensures var t := TreeOf(geo, d0, live);
            var d4 := d3.(inode := d3.inode[p1 := Linked16(d3.inode[p1], -1)]);
            var d5 := d4.(inode := d4.inode[p2 := Linked16(d4.inode[p2], 1)]);
            MayMove(t, p1, n1, p2, n2) && Relaid(geo, d0, d5, live, RelinkDir(t, p1, n1, p2, n2), live)
  {
    hide Store, InodeBooks, TreeOf, Fits, Settled, Shows, DirSet, MoveArgs, Moved, MayMove, RelinkDir, ShowsNode, SameText, TreeOK, DirsOK,
         TextOf, SameView, EntryRepointed, Linked16, Geometry.Valid, IsDir;
    MoveArgsIs(geo, d0, live, p1, n1, p2, n2, i);
    var t := TreeOf(geo, d0, live);
    MovedDirTree(geo, d0, live, p1, n1, p2, n2, i);
    MayMoveIs(t, p1, n1, p2, n2);
    var d4 := d3.(inode := d3.inode[p1 := Linked16(d3.inode[p1], -1)]);
    var d5 := d4.(inode := d4.inode[p2 := Linked16(d4.inode[p2], 1)]);
    LinkCounted(geo, d3, live, p1, -1);
    LinkCounted(geo, d4, live, p2, 1);
    MovedIs(geo, d0, d2, live, p1, n1, p2, n2, i);
    forall j | j in live ensures ShowsNode(geo, d5, RelinkDir(t, p1, n1, p2, n2), j) && SameText(geo, d0, d5, j) {
      MovedDirNode(geo, d0, d2, d3, d4, d5, live, p1, n1, p2, n2, i, j);
    }
    LaidFrom(geo, d5, live, RelinkDir(t, p1, n1, p2, n2));
  }

  lemma MovedDirTree(geo: Geometry, d0: Disk, live: set<nat>, p1: nat, n1: Name, p2: nat, n2: Name, i: nat)
    requires geo.Valid() && MoveArgs(geo, d0, live, p1, n1, p2, n2, i) && i < |d0.inode| && d0.inode[i].kind == Dir
    ensures Fits(geo, d0) && Numbers(geo, live) && DirsOK(geo, d0, live)
    ensures var t := TreeOf(geo, d0, live);
            && MayMove(t, p1, n1, p2, n2)
            && Shaped(RelinkDir(t, p1, n1, p2, n2)) && RelinkDir(t, p1, n1, p2, n2).kind.Keys == live
  {
    hide Store, InodeBooks, TreeOf, Fits, Settled, MoveArgs, RelinkDir, TreeOK, DirsOK;
    MoveArgsIs(geo, d0, live, p1, n1, p2, n2, i);
    RelinkDirIs(TreeOf(geo, d0, live), p1, n1, p2, n2);
  }

  lemma MovedDirNode(geo: Geometry, d0: Disk, d2: Disk, d3: Disk, d4: Disk, d5: Disk, live: set<nat>,
                     p1: nat, n1: Name, p2: nat, n2: Name, i: nat, j: nat)
    requires geo.Valid() && MoveArgs(geo, d0, live, p1, n1, p2, n2, i) && Moved(geo, d0, d2, live, p1, n1, p2, n2, i)
    requires Pointed(geo, d2, d3, live, p2, i) && p1 != p2 && i < |d0.inode| && d0.inode[i].kind == Dir && j in live
    requires Fits(geo, d0) && Fits(geo, d3) && Fits(geo, d4) && Fits(geo, d5) && Numbers(geo, live) && DirsOK(geo, d0, live)
    requires p1 < |d3.inode| && d4 == d3.(inode := d3.inode[p1 := Linked16(d3.inode[p1], -1)])
    requires j != p1 ==> SameView(geo, d3, d4, j)
    requires p2 < |d4.inode| && d5 == d4.(inode := d4.inode[p2 := Linked16(d4.inode[p2], 1)])
    requires j != p2 ==> SameView(geo, d4, d5, j)
    ensures var t := TreeOf(geo, d0, live);
            MayMove(t, p1, n1, p2, n2) && ShowsNode(geo, d5, RelinkDir(t, p1, n1, p2, n2), j)
    ensures SameText(geo, d0, d5, j)
  {
    hide Store, InodeBooks, TreeOf, Fits, Settled, Shows, DirSet, MoveArgs, Moved, MayMove, RelinkDir, ShowsNode, SameText, TreeOK, DirsOK,
         TextOf, SameView, EntryRepointed, Linked16, Booked;
    MoveArgsIs(geo, d0, live, p1, n1, p2, n2, i);
    RelinkDirIs(TreeOf(geo, d0, live), p1, n1, p2, n2);
    ReparentedNode(geo, d0, d2, d3, d4, d5, live, p1, n1, p2, n2, i, j);
    ReparentedText(geo, d0, d5, live, p1, n1, p2, n2, i, j);
  }

  lemma ReparentedText(geo: Geometry, d0: Disk, d5: Disk, live: set<nat>,
                       p1: nat, n1: Name, p2: nat, n2: Name, i: nat, j: nat)
    requires geo.Valid() && MoveArgs(geo, d0, live, p1, n1, p2, n2, i) && Fits(geo, d0) && Fits(geo, d5)
    requires Numbers(geo, live) && DirsOK(geo, d0, live) && j in live && p1 != p2 && i < |d0.inode| && d0.inode[i].kind == Dir
    requires ShowsNode(geo, d0, TreeOf(geo, d0, live), j)
    requires var w := MovedView(TreeView(TreeOf(geo, d0, live), j, TextOf(geo, d0, j)), j, p1, n1, p2, n2, i);
             Shows(geo, d5, j, ReparentedView(w, j, p1, p2, i))
    ensures var t := TreeOf(geo, d0, live);
            MayMove(t, p1, n1, p2, n2) && ShowsNode(geo, d5, RelinkDir(t, p1, n1, p2, n2), j)
    ensures SameText(geo, d0, d5, j)
  {
    hide Store, InodeBooks, TreeOf, Fits, Settled, Shows, DirSet, MoveArgs, RelinkDir, TreeOK, DirsOK, TextOf;
    MoveArgsIs(geo, d0, live, p1, n1, p2, n2, i);
    var t := TreeOf(geo, d0, live);
    RelinkDirIs(t, p1, n1, p2, n2);
    RelinkDirView(t, p1, n1, p2, n2, j, TextOf(geo, d0, j));
    var w := MovedView(TreeView(t, j, TextOf(geo, d0, j)), j, p1, n1, p2, n2, i);
    ShowsText(geo, d5, RelinkDir(t, p1, n1, p2, n2), j, ReparentedView(w, j, p1, p2, i));
  }

  /** set-dotdot! on the moved directory.  The source passes the record that it read before
      the entry was added; should that directory have grown, its first block is the same. */
  method Repoint(fs: Volume, p1: nat, n1: Name, p2: nat, n2: Name, i: nat, ghost d0: Disk, ghost live: set<nat>)
    requires fs.geo.Valid() && MoveArgs(fs.geo, d0, live, p1, n1, p2, n2, i)
    requires Moved(fs.geo, d0, fs.disk, live, p1, n1, p2, n2, i) && i < |d0.inode| && d0.inode[i].kind == Dir
    modifies fs
    ensures Pointed(fs.geo, old(fs.disk), fs.disk, live, p2, i)
    ensures fs.disk.sbFreeBlocks == old(fs.disk).sbFreeBlocks
  {
    hide MoveArgs, Moved, EntryRepointed, DirIn, Settled, Fits, Geometry.Valid, TreeOf, DirOK, Booked, Store, TreeOK, MayMove, Numbers, DirsOK,
         Pointed, FirstBlockNames;
    ghost var d2 := fs.disk;
    MovedTarget(fs.geo, d0, d2, live, p1, n1, p2, n2, i);
    SetDotDot(fs, i, p2, live, {});
    PointedNow(fs.geo, d2, fs.disk, live, p2, i);
  }

  lemma MovedTarget(geo: Geometry, d0: Disk, d2: Disk, live: set<nat>, p1: nat, n1: Name, p2: nat, n2: Name, i: nat)
    requires geo.Valid() && MoveArgs(geo, d0, live, p1, n1, p2, n2, i) && Moved(geo, d0, d2, live, p1, n1, p2, n2, i)
    requires i < |d0.inode| && d0.inode[i].kind == Dir
    ensures Fits(geo, d2) && DirIn(geo, d2, live, {}, i) && DirOK(geo, d2, i) && FirstBlockNames(geo, d2, i, DOTDOT)
    ensures Booked(geo, d2, live, DirSet(d2, live)) && 0 < p2 < 0x1_0000_0000
  {
    hide MoveArgs, Moved, DirIn, Settled, Fits, Geometry.Valid, TreeOf, DirOK, Store, TreeOK, MayMove, DirsOK, FirstBlockNames, Shows, InodeBooks;
    MoveArgsIs(geo, d0, live, p1, n1, p2, n2, i);
    MovedIs(geo, d0, d2, live, p1, n1, p2, n2, i);
    MovedShows(geo, d0, d2, live, p1, n1, p2, n2, i, i);
    ShowsEntry(geo, d2, live, i, MovedView(TreeView(TreeOf(geo, d0, live), i, TextOf(geo, d0, i)), i, p1, n1, p2, n2, i), DOT);
    WholeWords(geo);
    assert 1 <= p2 <= geo.inodes;
  }

  /** The tree after a move. */
  ghost function Relinked(t: Tree, p1: nat, n1: Name, p2: nat, n2: Name): Tree
    requires p1 in t.kids && n1 in t.kids[p1] && p2 in t.kids && p1 in t.links && p2 in t.links
  {
    if IsDir(t, t.kids[p1][n1]) then RelinkDir(t, p1, n1, p2, n2) else RelinkFile(t, p1, n1, p2, n2)
  }

  /** Move the entry p1/n1 to p2/n2; a moved directory's `..` and both parents'
      link counts follow. */
  method Relink(fs: Volume, p1: nat, n1: Name, p2: nat, n2: Name, i: nat, t: nat, ghost live: set<nat>)
    returns (r: Result<()>)
    requires fs.geo.Valid() && MoveArgs(fs.geo, fs.disk, live, p1, n1, p2, n2, i) && t < 256
    modifies fs
    ensures Fits(fs.geo, old(fs.disk)) && Numbers(fs.geo, live) && DirsOK(fs.geo, old(fs.disk), live)
    ensures var tree := TreeOf(fs.geo, old(fs.disk), live);
            && MayMove(tree, p1, n1, p2, n2)
            && (r.Ok? ==> Relaid(fs.geo, old(fs.disk), fs.disk, live, Relinked(tree, p1, n1, p2, n2), live))
    ensures p2 <= fs.geo.inodes
    ensures r.Ok? ==> HasEntry(fs.geo, fs.disk, p2, NewEntry(fs.geo.filetype, n2, i, t))
    ensures Told(r, fs.disk.sbFreeBlocks) == AddOutcome(fs.geo, old(fs.disk), old(fs.disk).sbFreeBlocks, p2, n2)
    ensures r.Err? ==> Unharmed(fs.geo, old(fs.disk), fs.disk, live - {p2})
  {
    hide HasEntry, NewEntry, Unharmed, AddOutcome, MoveArgs, Moved, Settled, Fits, Geometry.Valid, TreeOf, Booked, Store, TreeOK, MayMove, Numbers, DirsOK, Pointed, Relaid, Linked16,
         RelinkDir, RelinkFile, EntryRepointed;
    var geo := fs.geo;
    ghost var d0 := fs.disk;
    MoveArgsIs(geo, d0, live, p1, n1, p2, n2, i);
    var dir := fs.disk.inode[i].kind == Dir;
    r := MoveEntry(fs, p1, n1, p2, n2, i, t, live);
    if r.Err? { return; }
    ghost var d2 := fs.disk;
    ghost var tree := TreeOf(geo, d0, live);
    if dir && p1 != p2 {
      Repoint(fs, p1, n1, p2, n2, i, d0, live);
      ghost var d3 := fs.disk;
      PointedInodes(geo, d2, d3, live, p2, i);
      MovedNumbers(geo, d0, d2, live, p1, n1, p2, n2, i);
      MovedDir(geo, d0, d2, d3, live, p1, n1, p2, n2, i);
      NewName(geo, d0, live, p1, n1, p2, n2, i);
      ReparentedHas(geo, d2, d3, live, p1, p2, n2, i, t);
      fs.disk := fs.disk.(inode := fs.disk.inode[p1 := Linked16(fs.disk.inode[p1], -1)]);
      fs.disk := fs.disk.(inode := fs.disk.inode[p2 := Linked16(fs.disk.inode[p2], 1)]);
    } else {
      MovedFile(geo, d0, d2, live, p1, n1, p2, n2, i);
    }
    RelinkedIs(tree, p1, n1, p2, n2);
  }

  lemma ReparentedHas(geo: Geometry, d2: Disk, d3: Disk, live: set<nat>, p1: nat, p2: nat, n2: Name, i: nat, t: nat)
    requires geo.Valid() && Pointed(geo, d2, d3, live, p2, i) && HasEntry(geo, d2, p2, NewEntry(geo.filetype, n2, i, t))
    requires n2 != DOTDOT && p2 in live && p1 < |d3.inode| && p2 < |d3.inode|
    ensures var d4 := d3.(inode := d3.inode[p1 := Linked16(d3.inode[p1], -1)]);
            HasEntry(geo, d4.(inode := d4.inode[p2 := Linked16(d4.inode[p2], 1)]), p2, NewEntry(geo.filetype, n2, i, t))
  {
    hide HasEntry, EntryRepointed, Booked, Fits, SameView;
    var e := NewEntry(geo.filetype, n2, i, t);
    RepointedHas(geo, d2, d3, live, {}, i, DOTDOT, p2, p2, e);
    LinksHas(geo, d3, p1, Linked16(d3.inode[p1], -1), p2, e);
    var d4 := d3.(inode := d3.inode[p1 := Linked16(d3.inode[p1], -1)]);
    LinksHas(geo, d4, p2, Linked16(d4.inode[p2], 1), p2, e);
  }

  lemma PointedInodes(geo: Geometry, d2: Disk, d3: Disk, live: set<nat>, p2: nat, i: nat)
    requires geo.Valid() && Pointed(geo, d2, d3, live, p2, i)
    ensures |d3.inode| == |d2.inode|
  {
    hide Fits, Booked, EntryRepointed, SameView;
  }

  lemma MovedNumbers(geo: Geometry, d0: Disk, d2: Disk, live: set<nat>, p1: nat, n1: Name, p2: nat, n2: Name, i: nat)
    requires geo.Valid() && MoveArgs(geo, d0, live, p1, n1, p2, n2, i) && Moved(geo, d0, d2, live, p1, n1, p2, n2, i)
    ensures p1 < |d2.inode| && p2 < |d2.inode|
  {
    hide MoveArgs, Moved, Settled, Fits, TreeOf, Booked, Store, TreeOK, MayMove, DirsOK;
    MoveArgsIs(geo, d0, live, p1, n1, p2, n2, i);
    MovedIs(geo, d0, d2, live, p1, n1, p2, n2, i);
    FitsData(geo, d0);
    FitsData(geo, d2);
  }

  lemma RelinkedIs(t: Tree, p1: nat, n1: Name, p2: nat, n2: Name)
    requires MayMove(t, p1, n1, p2, n2)
    ensures Movable(t, p1, n1, p2, n2) && p1 in t.links && p2 in t.links
    ensures Relinked(t, p1, n1, p2, n2)
         == if IsDir(t, t.kids[p1][n1]) && p1 != p2 then RelinkDir(t, p1, n1, p2, n2) else RelinkFile(t, p1, n1, p2, n2)
  {
    hide TreeOK, RelinkFile;
  }
}
