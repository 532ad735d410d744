/** What one inode shows to a reader of the file system, and how the steps of an
    operation change it. */
module Ext2Views {
  import opened Bytes
  import opened Ext2Disk
  import opened Ext2Alloc
  import opened Ext2BlockMap
  import opened Ext2BuildMap
  import opened Ext2FileData
  import opened Ext2DirBlock
  import opened Ext2DirData
  import opened Ext2Store
  import opened Ext2Dir
  import opened Ext2DirOps
  import opened Ext2Names
  import opened Ext2Lookup
  import opened Ext2Tree

  /** kids and up: a directory's entries and what its `..` names;
      text: a file's contents or a symbolic link's target. */
  datatype View = View(kind: Kind, links: nat, kids: map<Name, nat>, up: int, text: Result<Bytes>)

  ghost predicate GoodDir(geo: Geometry, d: Disk, i: nat)
    requires geo.Valid() && Fits(geo, d)
  {
    DirOK(geo, d, i) && NamesOK(geo, d, i)
  }

  ghost predicate Sound(geo: Geometry, d: Disk, i: nat)
    requires geo.Valid() && Fits(geo, d) && i < |d.inode|
  {
    d.inode[i].kind == Dir ==> GoodDir(geo, d, i)
  }

  function TextOf(geo: Geometry, d: Disk, i: nat): Result<Bytes>
    requires geo.Valid() && Fits(geo, d) && i <= geo.inodes && i < |d.inode|
  {
    match d.inode[i].kind
    case Dir => Ok([])
    case Symlink => LinkTarget(geo, d, i)
    case _ => Contents(geo, d, i)
  }

  ghost function ViewOf(geo: Geometry, d: Disk, i: nat): View
    requires geo.Valid() && Fits(geo, d) && i <= geo.inodes && i < |d.inode|
    requires Sound(geo, d, i)
  {
    var v := d.inode[i];
    if v.kind == Dir then
      View(Dir, v.links, KidMap(Ents(geo, d, i)), FindIno(Ents(geo, d, i), DOTDOT), TextOf(geo, d, i))
    else View(v.kind, v.links, map[], -1, TextOf(geo, d, i))
  }

  /** Inode i is sound and shows v. */
  ghost predicate Shows(geo: Geometry, d: Disk, i: nat, v: View)
    requires geo.Valid() && Fits(geo, d)
  {
    i <= geo.inodes && i < |d.inode| && Sound(geo, d, i) && ViewOf(geo, d, i) == v
  }

  /** Inode i shows what it showed. */
  ghost predicate SameView(geo: Geometry, d: Disk, d': Disk, i: nat)
    requires geo.Valid() && Fits(geo, d) && Fits(geo, d')
  {
    forall v :: Shows(geo, d, i, v) ==> Shows(geo, d', i, v)
  }

  lemma FirstSame(geo: Geometry, d: Disk, d': Disk, i: nat, name: Bytes)
    requires geo.Valid() && Fits(geo, d) && Fits(geo, d') && DirOK(geo, d, i) && DirOK(geo, d', i)
    requires Fb(geo, d', i) == Fb(geo, d, i) && |d'.data| == |d.data|
    requires forall b :: b in Fb(geo, d, i) && 0 < b < |d.data| ==> d'.data[b] == d.data[b]
    ensures FirstBlockNames(geo, d', i, name) == FirstBlockNames(geo, d, i, name)
  {
    hide Fb, Entries, Tiles, NoneNamed, Fits, DirOK, Geometry.Valid;
    DirFirst(geo, d, i);
    DirFirst(geo, d', i);
  }

  lemma DirBlockOwned(geo: Geometry, d: Disk, i: nat)
    requires geo.Valid() && Fits(geo, d) && i <= geo.inodes && i < |d.inode| && !FastSymlink(d.inode[i])
    ensures forall b :: b in Fb(geo, d, i) && b != 0 ==> b in Own(geo, d, i)
  {
    hide MapBlocks, MapIndirect, Ready;
    forall b | b in Fb(geo, d, i) && b != 0 ensures b in Own(geo, d, i) {
      assert NotHole(b);
      assert b in Blocks(geo, d, i);
    }
  }

  lemma SameFile(geo: Geometry, d: Disk, d': Disk, i: nat)
    requires geo.Valid() && Fits(geo, d) && Fits(geo, d') && Same(geo, d, d', i) && i < |d.inode|
    requires !FastSymlink(d.inode[i])
    ensures |d'.inode| == |d.inode| && Fb(geo, d', i) == Fb(geo, d, i) && Contents(geo, d', i) == Contents(geo, d, i)
  {
    hide MapBlocks, MapIndirect, BlocksBytes, Ready, Geometry.Valid, Words, CeilDiv;
    ReadyData(geo, d);
    ReadyData(geo, d');
    forall b: nat | b in Blocks(geo, d, i) && 0 < b < |d.data| ensures d'.data[b] == d.data[b] {
      assert NotHole(b);
      assert b in Own(geo, d, i);
    }
    BlocksSame(geo.bs, d.data, d'.data, d.inode[i]);
  }

  lemma SameGoodDir(geo: Geometry, d: Disk, d': Disk, i: nat)
    requires geo.Valid() && Fits(geo, d) && Fits(geo, d') && Same(geo, d, d', i) && GoodDir(geo, d, i)
    ensures GoodDir(geo, d', i) && Ents(geo, d', i) == Ents(geo, d, i)
  {
    hide Fb, Entries, Tiles, NoneNamed, Fits, Geometry.Valid, BlockEntries, DirBlocks, FirstBlockNames, Own, FindIno, UniqueNames;
    FitsData(geo, d);
    SameDir(geo, d, d', i);
    DirBlockOwned(geo, d, i);
    FirstSame(geo, d, d', i, DOTDOT);
  }

  /** An inode that was kept shows the same. */
  lemma SameIsView(geo: Geometry, d: Disk, d': Disk, i: nat)
    requires geo.Valid() && Fits(geo, d) && Fits(geo, d') && Same(geo, d, d', i)
    ensures SameView(geo, d, d', i)
  {
    hide Fb, Fits, Geometry.Valid, GoodDir, Ents, Contents, Own, KidMap, FindIno;
    FitsData(geo, d);
    if d.inode[i].kind == Dir {
      if GoodDir(geo, d, i) { SameGoodDir(geo, d, d', i); }
    } else if !FastSymlink(d.inode[i]) {
      SameFile(geo, d, d', i);
    }
  }

  lemma KeptViews(geo: Geometry, d: Disk, d': Disk, s: set<nat>)
    requires geo.Valid() && Fits(geo, d) && Fits(geo, d') && Kept(geo, d, d', s)
    ensures forall i :: i in s ==> SameView(geo, d, d', i)
  {
    hide Fits, Geometry.Valid, Same, SameView;
    forall i | i in s ensures SameView(geo, d, d', i) { SameIsView(geo, d, d', i); }
  }

  /** What the inodes of s show is not lost. */
  ghost predicate Unharmed(geo: Geometry, d: Disk, d': Disk, s: set<nat>)
    requires geo.Valid()
  {
    Fits(geo, d) && Fits(geo, d') && forall i :: i in s ==> SameView(geo, d, d', i)
  }

  lemma KeptUnharmed(geo: Geometry, d: Disk, d': Disk, s: set<nat>)
    requires geo.Valid() && Fits(geo, d) && Fits(geo, d') && Kept(geo, d, d', s)
    ensures Unharmed(geo, d, d', s)
  {
    hide Fits, Kept, SameView;
    KeptViews(geo, d, d', s);
  }

  lemma UnharmedAgain(geo: Geometry, d: Disk, d1: Disk, d2: Disk, s: set<nat>, t: set<nat>, u: set<nat>)
    requires geo.Valid() && Unharmed(geo, d, d1, s) && Unharmed(geo, d1, d2, t) && u <= s && u <= t
    ensures Unharmed(geo, d, d2, u)
  {
    hide Fits, SameView;
    forall i | i in u ensures SameView(geo, d, d2, i) { SameViewAgain(geo, d, d1, d2, i); }
  }

  lemma SameViewAgain(geo: Geometry, d: Disk, d1: Disk, d2: Disk, i: nat)
    requires geo.Valid() && Fits(geo, d) && Fits(geo, d1) && Fits(geo, d2)
    requires SameView(geo, d, d1, i) && SameView(geo, d1, d2, i)
    ensures SameView(geo, d, d2, i)
  {
    hide Fits, Shows;
  }

  // ---- a link count ----

  lemma LinksFb(geo: Geometry, d: Disk, d': Disk, i: nat, v: Inode)
    requires geo.Valid() && Fits(geo, d) && Fits(geo, d') && i < |d.inode|
    requires OnlyLinks(d.inode[i], v) && d' == d.(inode := d.inode[i := v])
    ensures i <= geo.inodes && Fb(geo, d', i) == Fb(geo, d, i)
    ensures Contents(geo, d', i) == Contents(geo, d, i) && LinkTarget(geo, d', i) == LinkTarget(geo, d, i)
    ensures DirOK(geo, d, i) ==> DirOK(geo, d', i) && Ents(geo, d', i) == Ents(geo, d, i)
  {
    hide MapBlocks, BlocksBytes, Ready, Geometry.Valid, Words, CeilDiv, BlockEntries, DirBlocks;
  }

  lemma LinksView(geo: Geometry, d: Disk, d': Disk, i: nat, v: Inode, w: View)
    requires geo.Valid() && Fits(geo, d) && Fits(geo, d') && i < |d.inode|
    requires OnlyLinks(d.inode[i], v) && d' == d.(inode := d.inode[i := v])
    requires Shows(geo, d, i, w)
    ensures Shows(geo, d', i, w.(links := v.links))
  {
    hide Fb, Fits, Geometry.Valid, Ents, Contents, LinkTarget, KidMap, FindIno, DirOK, FirstBlockNames, UniqueNames;
    LinksFb(geo, d, d', i, v);
    if d.inode[i].kind == Dir { FirstSame(geo, d, d', i, DOTDOT); }
  }

  // ---- an entry more, an entry less, an entry repointed ----

  lemma KidsInserted(es: seq<Entry>, es': seq<Entry>, e: Entry)
    requires Inserted(es, es', e) && FindIno(es, e.name) < 0 && Plain(e.name)
    ensures KidMap(es') == Bind(KidMap(es), e.name, e.ino)
  {
    hide KidMap, FindIno, Inserted;
    var m, m' := Bind(KidMap(es), e.name, e.ino), KidMap(es');
    forall n ensures (n in m' <==> n in m) && (n in m ==> m'[n] == m[n]) {
      KidMapIs(es, n);
      KidMapIs(es', n);
      FindInserted(es, es', e, n);
    }
  }

  lemma KidsWithout(es: seq<Entry>, es': seq<Entry>, name: Bytes, k: nat)
    requires Without(es, es', name, k) && UniqueNames(es)
    ensures KidMap(es') == KidMap(es) - {name}
  {
    hide KidMap, FindIno, Without, UniqueNames;
    var m, m' := KidMap(es) - {name}, KidMap(es');
    forall n ensures (n in m' <==> n in m) && (n in m ==> m'[n] == m[n]) {
      KidMapIs(es, n);
      KidMapIs(es', n);
      FindWithout(es, es', name, k, n);
    }
  }

  lemma KidsRepointed(es: seq<Entry>, es': seq<Entry>, k: nat, ino: nat)
    requires Repointing(es, es', DOTDOT, k, ino)
    ensures KidMap(es') == KidMap(es)
  {
    hide KidMap, FindIno, Repointing;
    var m, m' := KidMap(es), KidMap(es');
    forall n ensures (n in m' <==> n in m) && (n in m ==> m'[n] == m[n]) {
      KidMapIs(es, n);
      KidMapIs(es', n);
      FindRepointed(es, es', DOTDOT, k, ino, n);
    }
  }

  lemma UniqueRepointed(es: seq<Entry>, es': seq<Entry>, name: Bytes, k: nat, ino: nat)
    requires Repointing(es, es', name, k, ino) && UniqueNames(es)
    ensures UniqueNames(es')
  {
    forall a, b | 0 <= a < b < |es'| ensures es'[a].name != es'[b].name {
      assert es'[a].name == es[a].name && es'[b].name == es[b].name;
    }
  }

  lemma ShowsDir(geo: Geometry, d: Disk, i: nat, w: View)
    requires geo.Valid() && Fits(geo, d) && Shows(geo, d, i, w) && w.kind == Dir
    ensures i <= geo.inodes && i < |d.inode| && GoodDir(geo, d, i) && DirOK(geo, d, i) && d.inode[i].kind == Dir
    ensures d.inode[i].links == w.links
    ensures w.kids == KidMap(Ents(geo, d, i)) && w.up == FindIno(Ents(geo, d, i), DOTDOT) && w.text == Ok([])
  {
    hide Fits, Geometry.Valid, Ents, KidMap, FindIno, DirOK, NamesOK;
  }

  lemma DirShows(geo: Geometry, d: Disk, i: nat, w: View)
    requires geo.Valid() && Fits(geo, d)
    requires i <= geo.inodes && i < |d.inode| && DirOK(geo, d, i) && NamesOK(geo, d, i) && d.inode[i].kind == Dir
    requires d.inode[i].links == w.links && w.kind == Dir
    requires w.kids == KidMap(Ents(geo, d, i)) && w.up == FindIno(Ents(geo, d, i), DOTDOT) && w.text == Ok([])
    ensures Shows(geo, d, i, w)
  {
    hide Fits, Geometry.Valid, Ents, KidMap, FindIno, DirOK, NamesOK;
  }

  /** add-entry! adds one edge. */
  lemma AddedView(geo: Geometry, d: Disk, d': Disk, live: set<nat>, spare: set<nat>, dir: nat, e: Entry, w: View)
    requires geo.Valid() && Fits(geo, d) && Fits(geo, d') && EntryAdded(geo, d, d', live, spare, dir, e)
    requires Shows(geo, d, dir, w) && w.kind == Dir && Plain(e.name) && e.name !in w.kids
    ensures Shows(geo, d', dir, w.(kids := Bind(w.kids, e.name, e.ino)))
  {
    hide Fits, Geometry.Valid, Ents, KidMap, FindIno, DirOK, Inserted, Kept, Store, FirstBlockNames, UniqueNames, Shows;
    ShowsDir(geo, d, dir, w);
    var es, es' := Ents(geo, d, dir), Ents(geo, d', dir);
    KidMapIs(es, e.name);
    KidsInserted(es, es', e);
    FindInserted(es, es', e, DOT);
    FindInserted(es, es', e, DOTDOT);
    UniqueInserted(es, es', e);
    DirShows(geo, d', dir, w.(kids := Bind(w.kids, e.name, e.ino)));
  }

  /** remove-entry! takes one away. */
  lemma RemovedView(geo: Geometry, d: Disk, d': Disk, live: set<nat>, spare: set<nat>, dir: nat, name: Bytes, w: View)
    requires geo.Valid() && Fits(geo, d) && Fits(geo, d') && EntryRemoved(geo, d, d', live, spare, dir, name)
    requires Shows(geo, d, dir, w) && w.kind == Dir && Plain(name)
    ensures Shows(geo, d', dir, w.(kids := w.kids - {name}))
  {
    hide Fits, Geometry.Valid, Ents, KidMap, FindIno, DirOK, Without, Kept, Store, FirstBlockNames, UniqueNames, Shows;
    ShowsDir(geo, d, dir, w);
    var es, es' := Ents(geo, d, dir), Ents(geo, d', dir);
    var k :| Without(es, es', name, k);
    KidsWithout(es, es', name, k);
    FindWithout(es, es', name, k, DOT);
    FindWithout(es, es', name, k, DOTDOT);
    UniqueWithout(es, es', name, k);
    DirShows(geo, d', dir, w.(kids := w.kids - {name}));
  }

  /** set-dotdot! changes the parent. */
  lemma RepointedView(geo: Geometry, d: Disk, d': Disk, live: set<nat>, spare: set<nat>, dir: nat, ino: nat, w: View)
    requires geo.Valid() && Fits(geo, d) && Fits(geo, d') && EntryRepointed(geo, d, d', live, spare, dir, DOTDOT, ino)
    requires Shows(geo, d, dir, w) && w.kind == Dir
    ensures Shows(geo, d', dir, w.(up := ino))
  {
    hide Fits, Geometry.Valid, Ents, KidMap, FindIno, DirOK, Repointing, Kept, Store, FirstBlockNames, UniqueNames, Shows;
    ShowsDir(geo, d, dir, w);
    var es, es' := Ents(geo, d, dir), Ents(geo, d', dir);
    var k :| Repointing(es, es', DOTDOT, k, ino);
    KidsRepointed(es, es', k, ino);
    FindRepointed(es, es', DOTDOT, k, ino, DOT);
    FindRepointed(es, es', DOTDOT, k, ino, DOTDOT);
    UniqueRepointed(es, es', DOTDOT, k, ino);
    DirShows(geo, d', dir, w.(up := ino));
  }
}
