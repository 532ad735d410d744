/** The public writing operations on paths (lib/ext2.beer:688-885). */
module Ext2Ops {
  import opened Bytes
  import opened Ext2Disk
  import opened Ext2FileData
  import opened Ext2DirBlock
  import opened Ext2DirData
  import opened Ext2Store
  import opened Ext2Dir
  import opened Ext2DirOps
  import opened Ext2Names
  import opened Ext2Path
  import opened Ext2Lookup
  import opened Ext2Alloc
  import opened Ext2Books
  import opened Ext2Views
  import opened Ext2Create
  import opened Ext2Make
  import opened Ext2Remove
  import opened Ext2Tree

  // ---- consistent disks ----

  lemma ConsistentIs(geo: Geometry, d: Disk)
    requires geo.Valid() && Consistent(geo, d)
    ensures BitmapsFit(geo, d.ibm) && Settled(geo, d, LiveInodes(geo, d)) && Fits(geo, d)
    ensures Numbers(geo, LiveInodes(geo, d)) && DirsOK(geo, d, LiveInodes(geo, d)) && Namespace(geo, d, LiveInodes(geo, d))
    ensures ROOT_INO in LiveInodes(geo, d)
  {
    hide LiveInodes, Settled, BitmapsFit, Numbers, DirsOK, Namespace, Fits;
    SettledParts(geo, d, LiveInodes(geo, d));
    RootLive(geo, d, LiveInodes(geo, d));
  }

  /** The tree of a consistent disk. */
  ghost function NamespaceOf(geo: Geometry, d: Disk): Tree
    requires geo.Valid() && Consistent(geo, d)
  {
    ConsistentIs(geo, d);
    TreeOf(geo, d, LiveInodes(geo, d))
  }

  /** i_blocks of every inode counts its blocks in 512-byte units; that of a symbolic link
      with its target in the inode is 0. */
  lemma SectorsCount(geo: Geometry, d: Disk, i: nat)
    requires geo.Valid() && Consistent(geo, d) && Fits(geo, d) && i in NamespaceOf(geo, d).kind
    ensures i <= geo.inodes && i < |d.inode|
    ensures d.inode[i].sectors == (|Own(geo, d, i)| * (geo.bs / 512)) % 0x1_0000_0000
    ensures d.inode[i].kind == Symlink && d.inode[i].sectors == 0 ==> Own(geo, d, i) == {}
  {
    hide Consistent, LiveInodes, InodeBooks, Namespace, Owned, Blocks;
    ConsistentIs(geo, d);
    FitsData(geo, d);
    OwnsWellIs(geo, d, LiveInodes(geo, d), {}, i);
    if FastSymlink(d.inode[i]) { FastOwnsNothing(geo, d, i); }
  }

  lemma FastOwnsNothing(geo: Geometry, d: Disk, i: nat)
    requires geo.Valid() && Fits(geo, d) && i <= geo.inodes && i < |d.inode| && FastSymlink(d.inode[i])
    ensures Own(geo, d, i) == {}
  {
    hide Fits, Geometry.Valid;
  }

  /** From a consistent disk d to a consistent d' whose tree is t', with the
      texts of `kept` as before. */
  ghost predicate Turned(geo: Geometry, d: Disk, d': Disk, t': Tree, kept: set<nat>)
    requires geo.Valid()
  {
    && Consistent(geo, d) && Consistent(geo, d')
    && NamespaceOf(geo, d') == t'
    && TextsKept(geo, d, d', kept)
  }

  ghost predicate TextsKept(geo: Geometry, d: Disk, d': Disk, kept: set<nat>)
    requires geo.Valid() && Consistent(geo, d) && Consistent(geo, d')
  {
    ConsistentIs(geo, d);
    ConsistentIs(geo, d');
    forall i :: i in kept ==> SameText(geo, d, d', i)
  }

  lemma TurnedFrom(geo: Geometry, d: Disk, d': Disk, live': set<nat>, t': Tree, kept: set<nat>)
    requires geo.Valid() && Consistent(geo, d) && Fits(geo, d) && Became(geo, d, d', live', t', kept)
    ensures Turned(geo, d, d', t', kept) && BitmapsFit(geo, d'.ibm) && LiveInodes(geo, d') == live'
  {
    hide Settled, Consistent, Fits, LiveInodes, TreeOf, SameText;
    SettledIsConsistent(geo, d', live');
  }

  // ---- targets ----

  /** parent-and-name, then lookup: the parent, the last name, and the inode it
      names (-1 for none). */
  function Target(geo: Geometry, d: Disk, path: Bytes): (r: Result<(nat, Bytes, int)>)
    requires geo.Valid() && Fits(geo, d)
    ensures r.Ok? ==> 1 <= r.value.0 <= geo.inodes
  {
    var pn := ParentAndName(geo, d, path);
    if pn.Err? then Err(pn.reason)
    else
      var found := Lookup(geo, d, pn.value.0, pn.value.1);
      if found.Err? then Err(found.reason) else Ok((pn.value.0, pn.value.1, found.value))
  }

  /** The last component is neither `.` nor `..`. */
  predicate Nameable(geo: Geometry, d: Disk, path: Bytes)
    requires geo.Valid() && Fits(geo, d)
  {
    var pn := ParentAndName(geo, d, path);
    pn.Ok? ==> Plain(pn.value.1)
  }

  /** An entry can hold the name, and its directory has not reached the largest
      size. */
  predicate Roomy(geo: Geometry, d: Disk, path: Bytes)
    requires geo.Valid() && Fits(geo, d)
  {
    var pn := ParentAndName(geo, d, path);
    pn.Ok? ==> |pn.value.1| <= 255 && SmallDir(geo, d, pn.value.0)
  }

  lemma NameNotEmpty(geo: Geometry, d: Disk, path: Bytes)
    requires geo.Valid() && Fits(geo, d) && ParentAndName(geo, d, path).Ok?
    ensures |ParentAndName(geo, d, path).value.1| >= 1
  {
    hide ParentAndName, Split, Fits;
    ParentIs(geo, d, path);
    SplitParts(path);
  }

  lemma TargetIs(geo: Geometry, d: Disk, path: Bytes)
    requires geo.Valid() && Consistent(geo, d) && Fits(geo, d) && Nameable(geo, d, path)
    requires ParentAndName(geo, d, path).Ok?
    ensures Target(geo, d, path).Ok?
    ensures var (p, nm, i) := Target(geo, d, path).value; var t := NamespaceOf(geo, d);
            && ParentAndName(geo, d, path) == Ok((p, nm))
            && p in t.kids && Plain(nm) && 1 <= |nm|
            && i == (if nm in t.kids[p] then t.kids[p][nm] else -1)
            && (i >= 0 ==> i in t.kind && i < |d.inode| && t.kind[i] == d.inode[i].kind)
            && p < |d.inode| && d.inode[p].kind == Dir
    ensures ConsistentLive(geo, d, Target(geo, d, path).value.0)
  {
    hide Lookup, Consistent, Fits, TreeOf, LiveInodes, Settled, ParentAndName, SmallDir, Namespace, DirsOK, BitmapsFit;
    ConsistentIs(geo, d);
    FitsData(geo, d);
    var live := LiveInodes(geo, d);
    var pn := ParentAndName(geo, d, path).value;
    ParentIs(geo, d, path);
    NameNotEmpty(geo, d, path);
    ResolveLive(geo, d, live, ROOT_INO, Split(path)[..|Split(path)| - 1], true, 0);
    LookupTree(geo, d, live, pn.0, pn.1);
    var r := Lookup(geo, d, pn.0, pn.1).value;
    if r >= 0 { TreeAt(geo, d, live, r); KindIs(geo, d, live, r); }
  }

  ghost predicate ConsistentLive(geo: Geometry, d: Disk, i: nat)
    requires geo.Valid() && Consistent(geo, d)
  {
    ConsistentIs(geo, d);
    i in LiveInodes(geo, d)
  }

  /** A free name, for the operations that create. */
  lemma FreeTarget(geo: Geometry, d: Disk, path: Bytes)
    requires geo.Valid() && Consistent(geo, d) && Fits(geo, d) && Nameable(geo, d, path) && Roomy(geo, d, path)
    requires Target(geo, d, path).Ok? && Target(geo, d, path).value.2 < 0
    ensures BitmapsFit(geo, d.ibm)
    ensures var (p, nm, i) := Target(geo, d, path).value;
            FreeName(geo, d, LiveInodes(geo, d), p, nm) && SmallDir(geo, d, p)
  {
    hide Consistent, Fits, TreeOf, LiveInodes, Settled, ParentAndName, SmallDir, Namespace, DirsOK, BitmapsFit, Lookup;
    TargetIs(geo, d, path);
    ConsistentIs(geo, d);
  }

  // ---- mkdir! and symlink! ----

  /** The error a creating operation reports before it changes anything. */
  function CreateCheck(geo: Geometry, d: Disk, path: Bytes): (r: Result<(nat, Bytes)>)
    requires geo.Valid() && Fits(geo, d)
    ensures r.Ok? ==> r.value.0 <= geo.inodes
  {
    var target := Target(geo, d, path);
    if target.Err? then Err(target.reason)
    else if target.value.2 >= 0 then Err(Exists)
    else Ok((target.value.0, target.value.1))
  }

  /** An operation that failed has not harmed any inode of the disk but possibly `hit`. */
  ghost predicate Spared(geo: Geometry, d: Disk, d': Disk, hit: nat)
    requires geo.Valid() && Consistent(geo, d)
  {
    ConsistentIs(geo, d);
    Unharmed(geo, d, d', LiveInodes(geo, d) - {hit})
  }

  lemma SparedFrom(geo: Geometry, d: Disk, d': Disk, hit: nat)
    requires geo.Valid() && Consistent(geo, d) && BitmapsFit(geo, d.ibm) && Unharmed(geo, d, d', LiveInodes(geo, d) - {hit})
    ensures Spared(geo, d, d', hit)
  {
    hide Consistent, LiveInodes, Unharmed;
  }

  /** A spared inode still has the links, entries, parent and contents that it had. */
  lemma SparedText(geo: Geometry, d: Disk, d': Disk, hit: nat, i: nat)
    requires geo.Valid() && Consistent(geo, d) && Spared(geo, d, d', hit) && i in NamespaceOf(geo, d).kind && i != hit
    ensures Fits(geo, d) && Fits(geo, d') && ShowsNode(geo, d', NamespaceOf(geo, d), i) && SameText(geo, d, d', i)
  {
    hide Consistent, Fits, LiveInodes, Settled, TreeOf, DirsOK, Namespace, SameView, SameText, TreeOK;
    ConsistentIs(geo, d);
    TreeAt(geo, d, LiveInodes(geo, d), i);
    ViewsOfTree(geo, d, LiveInodes(geo, d), i);
    SameViewNode(geo, d, d', NamespaceOf(geo, d), i);
  }

  /** What a creating operation comes to when the new inode needs that many blocks: its
      check's refusal, or what making the name comes to. */
  ghost function CreateOutcome(geo: Geometry, d: Disk, path: Bytes, blocks: nat): Result<nat>
    requires geo.Valid() && Fits(geo, d)
  {
    var check := CreateCheck(geo, d, path);
    if check.Err? then Err(check.reason) else MakeOutcome(geo, d, blocks, check.value.0, check.value.1)
  }

  /** mkdir!: the tree gains one directory, and no other inode's text changes. */
  ghost predicate DirMade(geo: Geometry, d: Disk, d': Disk, path: Bytes, i: nat)
    requires geo.Valid() && Consistent(geo, d) && Fits(geo, d)
  {
    && CreateCheck(geo, d, path).Ok?
    && var (p, nm) := CreateCheck(geo, d, path).value; var t := NamespaceOf(geo, d);
    && p in t.kids && p in t.links && i !in t.kind
    && Turned(geo, d, d', AddDir(t, p, nm, i), t.kind.Keys)
  }

  predicate OutOfSpace(r: Reason) { r == DiskFull || r == FileTooLarge }

  /** An operation fails early exactly as its check says, or for want of a free
      inode; then the disk is as before.  Only running out of blocks can stop
      it midway. */
  ghost predicate Refused<T>(check: Result<T>, r: Result<()>, d: Disk, d': Disk) {
    && (check.Err? ==> r == Err(check.reason) && d' == d)
    && (r.Err? && !OutOfSpace(r.reason) ==> d' == d && (check.Err? || r.reason == NoFreeInodes))
  }

  /** Make the directory at path. */
  method Mkdir(fs: Volume, path: Bytes) returns (r: Result<()>, ghost i: nat)
    requires fs.geo.Valid() && Consistent(fs.geo, fs.disk) && Fits(fs.geo, fs.disk)
    requires Nameable(fs.geo, fs.disk, path) && Roomy(fs.geo, fs.disk, path)
    modifies fs
    ensures r.Ok? ==> DirMade(fs.geo, old(fs.disk), fs.disk, path, i)
    ensures r.Ok? ==> var (p, nm) := CreateCheck(fs.geo, old(fs.disk), path).value; Typed(fs.geo, fs.disk, p, nm, i)
    ensures Told(r, fs.disk.sbFreeBlocks) == CreateOutcome(fs.geo, old(fs.disk), path, 1)
    ensures r.Err? && CreateCheck(fs.geo, old(fs.disk), path).Ok? ==>
      Spared(fs.geo, old(fs.disk), fs.disk, CreateCheck(fs.geo, old(fs.disk), path).value.0)
    ensures Refused(CreateCheck(fs.geo, old(fs.disk), path), r, old(fs.disk), fs.disk)
  {
    hide Consistent, Fits, TreeOf, LiveInodes, Settled, ParentAndName, SmallDir, Became, FreeName, Nameable, Roomy, Lookup, Geometry.Valid,
         MakeOutcome, Spared, Unharmed, Typed;
    var geo := fs.geo;
    ghost var d := fs.disk;
    i := 0;
    var pn := ParentAndName(geo, fs.disk, path);
    if pn.Err? { return Err(pn.reason), i; }
    var p, nm := pn.value.0, pn.value.1;
    var found := Lookup(geo, fs.disk, p, nm);
    if found.Err? { return Err(found.reason), i; }
    if found.value >= 0 { return Err(Exists), i; }
    FreeTarget(geo, d, path);
    var made := CreateDir(fs, p, nm, LiveInodes(geo, d));
    if made.Err? { SparedFrom(geo, d, fs.disk, p); return Err(made.reason), i; }
    i := made.value;
    DirMadeFrom(geo, d, fs.disk, path, p, nm, i);
    r := Ok(());
  }

  lemma DirMadeFrom(geo: Geometry, d: Disk, d': Disk, path: Bytes, p: nat, nm: Bytes, i: nat)
    requires geo.Valid() && Consistent(geo, d) && Fits(geo, d) && CreateCheck(geo, d, path) == Ok((p, nm))
    requires BitmapsFit(geo, d.ibm)
    requires Numbers(geo, LiveInodes(geo, d)) && DirsOK(geo, d, LiveInodes(geo, d))
    requires var t := TreeOf(geo, d, LiveInodes(geo, d)); var live := LiveInodes(geo, d);
             && p in t.kids && p in t.links && i !in live
             && Became(geo, d, d', live + {i}, AddDir(t, p, nm, i), live)
    ensures DirMade(geo, d, d', path, i)
  {
    hide Consistent, Fits, TreeOf, LiveInodes, Settled, Became, CreateCheck, AddDir, DirsOK, BitmapsFit, Turned;
    var live, t := LiveInodes(geo, d), TreeOf(geo, d, LiveInodes(geo, d));
    ConsistentIs(geo, d);
    SettledParts(geo, d, live);
    TurnedFrom(geo, d, d', live + {i}, AddDir(t, p, nm, i), live);
  }

  /** symlink!: the tree gains one symbolic link with this target, and no other
      inode's text changes. */
  ghost predicate LinkMade(geo: Geometry, d: Disk, d': Disk, path: Bytes, target: Bytes, i: nat)
    requires geo.Valid() && Consistent(geo, d) && Fits(geo, d)
  {
    && CreateCheck(geo, d, path).Ok?
    && var (p, nm) := CreateCheck(geo, d, path).value; var t := NamespaceOf(geo, d);
    && p in t.kids && i !in t.kind
    && Turned(geo, d, d', AddFile(t, p, nm, i, Symlink), t.kind.Keys)
    && HasText(geo, d', i, target)
  }

  ghost predicate HasText(geo: Geometry, d: Disk, i: nat, text: Bytes)
    requires geo.Valid() && Consistent(geo, d)
  {
    ConsistentIs(geo, d);
    i <= geo.inodes && i < |d.inode| && TextOf(geo, d, i) == Ok(text)
  }

  /** Make path a symbolic link to target. */
  method MakeSymlink(fs: Volume, target: Bytes, path: Bytes) returns (r: Result<()>, ghost i: nat)
    requires fs.geo.Valid() && Consistent(fs.geo, fs.disk) && Fits(fs.geo, fs.disk)
    requires Nameable(fs.geo, fs.disk, path) && Roomy(fs.geo, fs.disk, path) && |target| <= fs.geo.bs
    modifies fs
    ensures r.Ok? ==> LinkMade(fs.geo, old(fs.disk), fs.disk, path, target, i)
    ensures r.Ok? ==> i < |fs.disk.inode| && (fs.disk.inode[i].sectors == 0 <==> |target| < 60)
    ensures r.Ok? ==> var (p, nm) := CreateCheck(fs.geo, old(fs.disk), path).value; Typed(fs.geo, fs.disk, p, nm, i)
    ensures Told(r, fs.disk.sbFreeBlocks) == CreateOutcome(fs.geo, old(fs.disk), path, TargetBlocks(target))
    ensures r.Err? && CreateCheck(fs.geo, old(fs.disk), path).Ok? ==>
      Spared(fs.geo, old(fs.disk), fs.disk, CreateCheck(fs.geo, old(fs.disk), path).value.0)
    ensures Refused(CreateCheck(fs.geo, old(fs.disk), path), r, old(fs.disk), fs.disk)
  {
    hide Consistent, Fits, TreeOf, LiveInodes, Settled, ParentAndName, SmallDir, Became, FreeName, Nameable, Roomy, Lookup, Geometry.Valid,
         TextOf, MakeOutcome, Spared, Unharmed, Typed;
    var geo := fs.geo;
    ghost var d := fs.disk;
    i := 0;
    var pn := ParentAndName(geo, fs.disk, path);
    if pn.Err? { return Err(pn.reason), i; }
    var p, nm := pn.value.0, pn.value.1;
    var found := Lookup(geo, fs.disk, p, nm);
    if found.Err? { return Err(found.reason), i; }
    if found.value >= 0 { return Err(Exists), i; }
    FreeTarget(geo, d, path);
    var made := CreateSymlink(fs, p, nm, target, LiveInodes(geo, d));
    if made.Err? { SparedFrom(geo, d, fs.disk, p); return Err(made.reason), i; }
    i := made.value;
    LinkMadeFrom(geo, d, fs.disk, path, p, nm, target, i);
    r := Ok(());
  }

  lemma LinkMadeFrom(geo: Geometry, d: Disk, d': Disk, path: Bytes, p: nat, nm: Bytes, target: Bytes, i: nat)
    requires geo.Valid() && Consistent(geo, d) && Fits(geo, d) && CreateCheck(geo, d, path) == Ok((p, nm))
    requires BitmapsFit(geo, d.ibm)
    requires Numbers(geo, LiveInodes(geo, d)) && DirsOK(geo, d, LiveInodes(geo, d))
    requires var t := TreeOf(geo, d, LiveInodes(geo, d)); var live := LiveInodes(geo, d);
             && p in t.kids && i !in live
             && Became(geo, d, d', live + {i}, AddFile(t, p, nm, i, Symlink), live)
    requires Fits(geo, d') && i <= geo.inodes && i < |d'.inode| && TextOf(geo, d', i) == Ok(target)
    ensures LinkMade(geo, d, d', path, target, i)
  {
    hide Consistent, Fits, TreeOf, LiveInodes, Settled, Became, CreateCheck, AddFile, DirsOK, BitmapsFit, Turned, TextOf, HasText, TextsKept, Fits;
    var live, t := LiveInodes(geo, d), TreeOf(geo, d, LiveInodes(geo, d));
    ConsistentIs(geo, d);
    SettledParts(geo, d, live);
    TurnedFrom(geo, d, d', live + {i}, AddFile(t, p, nm, i, Symlink), live);
    HasTextFrom(geo, d, d', AddFile(t, p, nm, i, Symlink), live, i, target);
  }

  lemma HasTextFrom(geo: Geometry, d: Disk, d': Disk, t': Tree, kept: set<nat>, i: nat, text: Bytes)
    requires geo.Valid() && Turned(geo, d, d', t', kept)
    requires Fits(geo, d') && i <= geo.inodes && i < |d'.inode| && TextOf(geo, d', i) == Ok(text)
    ensures Consistent(geo, d') && HasText(geo, d', i, text)
  {
    hide Consistent, TextOf, TextsKept, NamespaceOf, Fits;
  }

  lemma TurnedIs(geo: Geometry, d: Disk, d': Disk, t': Tree, kept: set<nat>)
    requires geo.Valid() && Turned(geo, d, d', t', kept)
    ensures Consistent(geo, d) && Consistent(geo, d') && NamespaceOf(geo, d') == t' && TextsKept(geo, d, d', kept)
  {
    hide Consistent, TreeOf, LiveInodes;
  }

  // ---- rm! and rmdir! ----

  /** dir-entries. */
  function EntriesOf(geo: Geometry, d: Disk, i: nat): Result<seq<Entry>>
    requires geo.Valid() && Fits(geo, d) && i <= geo.inodes
  {
    var buf := Contents(geo, d, i);
    if buf.Err? then Err(buf.reason) else DirWalk(geo.filetype, buf.value, 0)
  }

  predicate OnlyDots(es: seq<Entry>) {
    forall k :: 0 <= k < |es| ==> !Plain(es[k].name)
  }

  lemma OnlyDotsIs(es: seq<Entry>)
    ensures OnlyDots(es) <==> KidMap(es) == map[]
  {
    hide KidMap, FindIno, Plain;
    if OnlyDots(es) {
      forall n ensures n !in KidMap(es) {
        KidMapIs(es, n);
        FindNone(es, n);
      }
    } else {
      var k :| 0 <= k < |es| && Plain(es[k].name);
      KidMapIs(es, es[k].name);
      FindNone(es, es[k].name);
      assert es[k] in es && Named(es[k], es[k].name);
    }
  }

  function RmCheck(geo: Geometry, d: Disk, path: Bytes): Result<(nat, Bytes, nat)>
    requires geo.Valid() && Fits(geo, d)
  {
    var target := Target(geo, d, path);
    if target.Err? then Err(target.reason)
    else
      var (p, nm, i) := target.value;
      if i < 0 then Err(NotFound)
      else if i >= |d.inode| then Err(BadInode)
      else if d.inode[i].kind == Dir then Err(IsADirectory)
      else Ok((p, nm, i))
  }

  /** rm!: the entry goes, the inode with its last link, and no other inode's
      text changes. */
  ghost predicate FileRemoved(geo: Geometry, d: Disk, d': Disk, path: Bytes)
    requires geo.Valid() && Consistent(geo, d) && Fits(geo, d)
  {
    && RmCheck(geo, d, path).Ok?
    && var (p, nm, i) := RmCheck(geo, d, path).value; var t := NamespaceOf(geo, d);
    && p in t.kids && nm in t.kids[p] && t.kids[p][nm] == i && i in t.links
    && Turned(geo, d, d', RemoveFile(t, p, nm), RemoveFile(t, p, nm).kind.Keys)
  }

  lemma RmTarget(geo: Geometry, d: Disk, path: Bytes, p: nat, nm: Bytes, i: nat)
    requires geo.Valid() && Consistent(geo, d) && Fits(geo, d) && Nameable(geo, d, path)
    requires Target(geo, d, path) == Ok((p, nm, i))
    ensures BitmapsFit(geo, d.ibm) && i < |d.inode| && i <= geo.inodes
    ensures HasName(geo, d, LiveInodes(geo, d), p, nm)
    ensures d.inode[i].kind != Dir ==> FileName(geo, d, LiveInodes(geo, d), p, nm, i)
    ensures var t := NamespaceOf(geo, d);
            && p in t.kids && nm in t.kids[p] && t.kids[p][nm] == i
            && (d.inode[i].kind == Dir ==> i in t.kids && DirOK(geo, d, i) && t.kids[i] == KidMap(Ents(geo, d, i)))
  {
    hide Consistent, Fits, TreeOf, LiveInodes, Settled, ParentAndName, SmallDir, Namespace, DirsOK, BitmapsFit, Lookup, Target, Nameable,
         DirOK, NamesOK, KidMap, Ents;
    ConsistentIs(geo, d);
    FitsData(geo, d);
    TargetParent(geo, d, path);
    TargetIs(geo, d, path);
    TreeAt(geo, d, LiveInodes(geo, d), i);
  }

  lemma TargetParent(geo: Geometry, d: Disk, path: Bytes)
    requires geo.Valid() && Fits(geo, d) && Target(geo, d, path).Ok?
    ensures ParentAndName(geo, d, path).Ok?
  {
    hide ParentAndName, Lookup, Fits;
  }

  /** Remove the file or symbolic link at path. */
  method Rm(fs: Volume, path: Bytes) returns (r: Result<()>)
    requires fs.geo.Valid() && Consistent(fs.geo, fs.disk) && Fits(fs.geo, fs.disk) && Nameable(fs.geo, fs.disk, path)
    modifies fs
    ensures r.Ok? <==> RmCheck(fs.geo, old(fs.disk), path).Ok?
    ensures r.Ok? ==> FileRemoved(fs.geo, old(fs.disk), fs.disk, path)
    ensures Refused(RmCheck(fs.geo, old(fs.disk), path), r, old(fs.disk), fs.disk)
  {
    hide Consistent, Fits, TreeOf, LiveInodes, Settled, ParentAndName, Became, FileName, HasName, Nameable, Lookup, Geometry.Valid, RemoveFile,
         DirOK, Ents, KidMap;
    var geo := fs.geo;
    ghost var d := fs.disk;
    var pn := ParentAndName(geo, fs.disk, path);
    if pn.Err? { return Err(pn.reason); }
    var p, nm := pn.value.0, pn.value.1;
    var found := Lookup(geo, fs.disk, p, nm);
    if found.Err? { return Err(found.reason); }
    if found.value < 0 { return Err(NotFound); }
    RmTarget(geo, d, path, p, nm, found.value);
    if fs.disk.inode[found.value].kind == Dir { return Err(IsADirectory); }
    UnlinkFile(fs, p, nm, found.value, LiveInodes(geo, d));
    FileRemovedFrom(geo, d, fs.disk, path, p, nm, found.value);
    r := Ok(());
  }

  lemma FileRemovedFrom(geo: Geometry, d: Disk, d': Disk, path: Bytes, p: nat, nm: Bytes, i: nat)
    requires geo.Valid() && Consistent(geo, d) && Fits(geo, d) && RmCheck(geo, d, path) == Ok((p, nm, i))
    requires BitmapsFit(geo, d.ibm) && FileName(geo, d, LiveInodes(geo, d), p, nm, i) && i < |d.inode|
    requires Numbers(geo, LiveInodes(geo, d)) && DirsOK(geo, d, LiveInodes(geo, d))
    requires var t := TreeOf(geo, d, LiveInodes(geo, d)); var live := LiveInodes(geo, d);
             && p in t.kids && nm in t.kids[p] && t.kids[p][nm] == i && i in t.links
             && Became(geo, d, d', LeftOver(d, live, i), RemoveFile(t, p, nm), LeftOver(d, live, i))
    ensures FileRemoved(geo, d, d', path)
  {
    hide Consistent, Fits, TreeOf, LiveInodes, Settled, Became, RmCheck, RemoveFile, DirsOK, BitmapsFit, Turned, FileName;
    var live, t := LiveInodes(geo, d), TreeOf(geo, d, LiveInodes(geo, d));
    ConsistentIs(geo, d);
    FileNameIs(geo, d, live, p, nm, i);
    RemoveFileKeeps(t, p, nm);
    RemoveFileParts(t, p, nm);
    TurnedFrom(geo, d, d', LeftOver(d, live, i), RemoveFile(t, p, nm), LeftOver(d, live, i));
  }

  function RmdirCheck(geo: Geometry, d: Disk, path: Bytes): Result<(nat, Bytes, nat)>
    requires geo.Valid() && Fits(geo, d)
  {
    var target := Target(geo, d, path);
    if target.Err? then Err(target.reason)
    else
      var (p, nm, i) := target.value;
      if i < 0 then Err(NotFound)
      else if i >= |d.inode| || i > geo.inodes then Err(BadInode)
      else if d.inode[i].kind != Dir then Err(NotADirectory)
      else
        var es := EntriesOf(geo, d, i);
        if es.Err? then Err(es.reason)
        else if !OnlyDots(es.value) then Err(NotEmpty)
        else Ok((p, nm, i))
  }

  /** rmdir!: the empty directory goes, and no other inode's text changes. */
  ghost predicate DirRemoved(geo: Geometry, d: Disk, d': Disk, path: Bytes)
    requires geo.Valid() && Consistent(geo, d) && Fits(geo, d)
  {
    && RmdirCheck(geo, d, path).Ok?
    && var (p, nm, i) := RmdirCheck(geo, d, path).value; var t := NamespaceOf(geo, d);
    && p in t.kids && nm in t.kids[p] && t.kids[p][nm] == i && p in t.links && i in t.kids && t.kids[i] == map[]
    && Turned(geo, d, d', RemoveDir(t, p, nm), RemoveDir(t, p, nm).kind.Keys)
  }

  lemma EntriesAre(geo: Geometry, d: Disk, i: nat)
    requires geo.Valid() && Fits(geo, d) && DirOK(geo, d, i)
    ensures i <= geo.inodes && EntriesOf(geo, d, i) == Ok(Ents(geo, d, i))
  {
    hide DirWalk, Ents, Fits, Geometry.Valid, Fb, BlocksBytes;
    DirEntriesIs(geo, d, i);
  }

  /** The emptiness test is about the tree. */
  lemma EmptyTarget(geo: Geometry, d: Disk, path: Bytes, p: nat, nm: Bytes, i: nat)
    requires geo.Valid() && Consistent(geo, d) && Fits(geo, d) && Nameable(geo, d, path)
    requires Target(geo, d, path) == Ok((p, nm, i)) && i < |d.inode| && i <= geo.inodes && d.inode[i].kind == Dir
    ensures EntriesOf(geo, d, i).Ok? && BitmapsFit(geo, d.ibm)
    ensures OnlyDots(EntriesOf(geo, d, i).value) ==> DirName(geo, d, LiveInodes(geo, d), p, nm, i)
    ensures var t := NamespaceOf(geo, d);
            && i in t.kids && p in t.kids && nm in t.kids[p] && t.kids[p][nm] == i
            && (OnlyDots(EntriesOf(geo, d, i).value) <==> t.kids[i] == map[])
  {
    hide Consistent, Fits, TreeOf, LiveInodes, Target, Nameable, DirOK, KidMap, Ents, OnlyDots, HasName, EntriesOf, BitmapsFit;
    RmTarget(geo, d, path, p, nm, i);
    EntriesAre(geo, d, i);
    OnlyDotsIs(Ents(geo, d, i));
    ConsistentIs(geo, d);
  }

  /** Remove the empty directory at path. */
  method Rmdir(fs: Volume, path: Bytes) returns (r: Result<()>)
    requires fs.geo.Valid() && Consistent(fs.geo, fs.disk) && Fits(fs.geo, fs.disk) && Nameable(fs.geo, fs.disk, path)
    modifies fs
    ensures r.Ok? <==> RmdirCheck(fs.geo, old(fs.disk), path).Ok?
    ensures r.Ok? ==> DirRemoved(fs.geo, old(fs.disk), fs.disk, path)
    ensures Refused(RmdirCheck(fs.geo, old(fs.disk), path), r, old(fs.disk), fs.disk)
  {
    hide Consistent, Fits, TreeOf, LiveInodes, Settled, ParentAndName, Became, FileName, DirName, HasName, Nameable, Lookup, Geometry.Valid,
         RemoveDir, DirOK, Ents, KidMap, EntriesOf, OnlyDots;
    var geo := fs.geo;
    ghost var d := fs.disk;
    var pn := ParentAndName(geo, fs.disk, path);
    if pn.Err? { return Err(pn.reason); }
    var p, nm := pn.value.0, pn.value.1;
    var found := Lookup(geo, fs.disk, p, nm);
    if found.Err? { return Err(found.reason); }
    if found.value < 0 { return Err(NotFound); }
    RmTarget(geo, d, path, p, nm, found.value);
    if fs.disk.inode[found.value].kind != Dir { return Err(NotADirectory); }
    var es := EntriesOf(geo, fs.disk, found.value);
    EmptyTarget(geo, d, path, p, nm, found.value);
    if !OnlyDots(es.value) { return Err(NotEmpty); }
    UnlinkDir(fs, p, nm, found.value, LiveInodes(geo, d));
    DirRemovedFrom(geo, d, fs.disk, path, p, nm, found.value);
    r := Ok(());
  }

  lemma DirRemovedFrom(geo: Geometry, d: Disk, d': Disk, path: Bytes, p: nat, nm: Bytes, i: nat)
    requires geo.Valid() && Consistent(geo, d) && Fits(geo, d) && RmdirCheck(geo, d, path) == Ok((p, nm, i))
    requires BitmapsFit(geo, d.ibm) && DirName(geo, d, LiveInodes(geo, d), p, nm, i)
    requires Numbers(geo, LiveInodes(geo, d)) && DirsOK(geo, d, LiveInodes(geo, d))
    requires var t := TreeOf(geo, d, LiveInodes(geo, d)); var live := LiveInodes(geo, d);
             && p in t.kids && nm in t.kids[p] && t.kids[p][nm] == i && p in t.links
             && Became(geo, d, d', live - {i}, RemoveDir(t, p, nm), live - {i})
    ensures DirRemoved(geo, d, d', path)
  {
    hide Consistent, Fits, TreeOf, LiveInodes, Settled, Became, RmdirCheck, RemoveDir, DirsOK, BitmapsFit, Turned, DirName;
    var live, t := LiveInodes(geo, d), TreeOf(geo, d, LiveInodes(geo, d));
    ConsistentIs(geo, d);
    DirNameIs(geo, d, live, p, nm, i);
    RemoveDirKeeps(t, p, nm);
    RemoveDirParts(t, p, nm);
    TurnedFrom(geo, d, d', live - {i}, RemoveDir(t, p, nm), live - {i});
  }
}
