/** write-file! and read-bytes on paths, and what one says about the other
    (lib/ext2.beer:306-311, 699-731). */
module Ext2Write {
  import opened Bytes
  import opened Ext2Disk
  import opened Ext2BlockMap
  import opened Ext2FileData
  import opened Ext2Store
  import opened Ext2Dir
  import opened Ext2DirOps
  import opened Ext2Names
  import opened Ext2Path
  import opened Ext2Lookup
  import opened Ext2Alloc
  import opened Ext2Books
  import opened Ext2Views
  import opened Ext2Create
  import opened Ext2Make
  import opened Ext2Replace
  import opened Ext2Ops
  import opened Ext2Tree

  // ---- read-bytes ----

  lemma BlocksInRange(geo: Geometry, d: Disk, live: set<nat>, i: nat)
    requires geo.Valid() && Settled(geo, d, live) && i in live && i < |d.inode| && i <= geo.inodes && Fits(geo, d)
    requires !FastSymlink(d.inode[i])
    ensures DataFit(geo.bs, d.data) && InRange(d.data, Fb(geo, d, i))
  {
    hide Own, InodeBooks, Namespace, Fits, Fb, Geometry.Valid, UsedBit, Owned, Blocks;
    FitsData(geo, d);
    StoreFits(geo, d, live, {});
    OwnsWellIs(geo, d, live, {}, i);
    DirBlockOwned(geo, d, i);
    OwnRange(geo, d, live, i);
    forall k | 0 <= k < |Fb(geo, d, i)| ensures Fb(geo, d, i)[k] < |d.data| {
      assert Fb(geo, d, i)[k] in Fb(geo, d, i);
    }
  }

  lemma OwnRange(geo: Geometry, d: Disk, live: set<nat>, i: nat)
    requires geo.Valid() && Store(geo, d, live, {}) && i in live && Fits(geo, d)
    ensures forall b :: b in Own(geo, d, i) ==> b < geo.blocks
    ensures 0 < geo.blocks
  {
    hide Own, Fits, Blocks;
    OwnsWellIs(geo, d, live, {}, i);
  }

  /** read-bytes: resolve the path and read the file in runs. */
  method ReadBytes(fs: Volume, path: Bytes) returns (r: Result<Bytes>)
    requires fs.geo.Valid() && Consistent(fs.geo, fs.disk) && Fits(fs.geo, fs.disk)
    ensures r == BytesAt(fs.geo, fs.disk, path)
  {
    hide Resolve, Split, BlocksBytes, Geometry.Valid, Fits, MapBlocks, Consistent, Settled, LiveInodes, InRange, Fb;
    var geo := fs.geo;
    RootInRange(geo, fs.disk);
    ConsistentIs(geo, fs.disk);
    var i := Resolve(geo, fs.disk, ROOT_INO, Split(path), true, 0);
    if i.Err? { return Err(i.reason); }
    ResolveLive(geo, fs.disk, LiveInodes(geo, fs.disk), ROOT_INO, Split(path), true, 0);
    var inode := fs.disk.inode[i.value];
    if inode.kind != File { return Err(NotAFile); }
    BlocksInRange(geo, fs.disk, LiveInodes(geo, fs.disk), i.value);
    var blocks := Fb(geo, fs.disk, i.value);
    if inode.size > |blocks| * geo.bs { return Err(BadBuffer); }
    var buf := ReadData(geo.bs, fs.disk.data, blocks, inode.size);
    return Ok(buf);
  }

  // ---- write-file! ----

  function WriteCheck(geo: Geometry, d: Disk, path: Bytes): (r: Result<(nat, Bytes, int)>)
    requires geo.Valid() && Fits(geo, d)
    ensures r.Ok? ==> r.value.0 <= geo.inodes
  {
    var target := Target(geo, d, path);
    if target.Err? then Err(target.reason)
    else
      var (p, nm, i) := target.value;
      if i >= |d.inode| then Err(BadInode)
      else if i >= 0 && d.inode[i].kind != File then Err(NotAFile)
      else Ok((p, nm, i))
  }

  /** The tree after a file i was written at path: the same, or with one file
      more. */
  ghost function TreeWithFile(t: Tree, p: nat, nm: Bytes, i: nat): Tree
    requires p in t.kids
  {
    if nm in t.kids[p] then t else AddFile(t, p, nm, i, File)
  }

  /** write-file!: inode i holds buf, the tree has it at path, and no other
      inode's text changed. */
  ghost predicate FileWritten(geo: Geometry, d: Disk, d': Disk, path: Bytes, buf: Bytes, i: nat)
    requires geo.Valid() && Consistent(geo, d) && Fits(geo, d)
  {
    && WriteCheck(geo, d, path).Ok?
    && var (p, nm, found) := WriteCheck(geo, d, path).value; var t := NamespaceOf(geo, d);
    && p in t.kids && (found < 0 <==> nm !in t.kids[p])
    && (if found >= 0 then i == found == t.kids[p][nm] else i !in t.kind)
    && Turned(geo, d, d', TreeWithFile(t, p, nm, i), t.kind.Keys - {i})
    && HasText(geo, d', i, buf)
  }

  lemma BecameThen(geo: Geometry, d0: Disk, d1: Disk, d2: Disk, live: set<nat>, t: Tree, i: nat, kept: set<nat>)
    requires geo.Valid() && Fits(geo, d0) && Fits(geo, d1)
    requires Became(geo, d0, d1, live, t, kept) && Became(geo, d1, d2, live, t, live - {i}) && kept <= live
    ensures Became(geo, d0, d2, live, t, kept - {i})
  {
    hide Settled, Fits, TreeOf, TextOf;
    SettledParts(geo, d2, live);
    forall j | j in kept - {i} ensures SameText(geo, d0, d2, j) {
      assert j in kept && j in live - {i};
    }
  }

  lemma WriteTarget(geo: Geometry, d: Disk, path: Bytes, p: nat, nm: Bytes, found: int)
    requires geo.Valid() && Consistent(geo, d) && Fits(geo, d) && Nameable(geo, d, path)
    requires Target(geo, d, path) == Ok((p, nm, found))
    ensures BitmapsFit(geo, d.ibm) && Settled(geo, d, LiveInodes(geo, d))
    ensures Numbers(geo, LiveInodes(geo, d)) && DirsOK(geo, d, LiveInodes(geo, d))
    ensures var t := TreeOf(geo, d, LiveInodes(geo, d));
            && t.kind.Keys == LiveInodes(geo, d)
            && p in t.kids && found == (if nm in t.kids[p] then t.kids[p][nm] else -1)
            && (found >= 0 ==> found in LiveInodes(geo, d) && found < |d.inode|)
  {
    hide Consistent, Fits, TreeOf, LiveInodes, Settled, Target, Nameable, DirsOK, BitmapsFit;
    ConsistentIs(geo, d);
    SettledParts(geo, d, LiveInodes(geo, d));
    TargetParent(geo, d, path);
    TargetIs(geo, d, path);
  }

  lemma FileWrittenFrom(geo: Geometry, d: Disk, d': Disk, path: Bytes, buf: Bytes, p: nat, nm: Bytes, found: int, i: nat, live': set<nat>)
    requires geo.Valid() && Consistent(geo, d) && Fits(geo, d) && Nameable(geo, d, path)
    requires WriteCheck(geo, d, path) == Target(geo, d, path) == Ok((p, nm, found))
    requires BitmapsFit(geo, d.ibm) && Numbers(geo, LiveInodes(geo, d)) && DirsOK(geo, d, LiveInodes(geo, d))
    requires var t := TreeOf(geo, d, LiveInodes(geo, d)); var live := LiveInodes(geo, d);
             && p in t.kids
             && (if found >= 0 then i == found else i !in live)
             && Became(geo, d, d', live', TreeWithFile(t, p, nm, i), live - {i})
    requires Fits(geo, d') && i <= geo.inodes && i < |d'.inode| && TextOf(geo, d', i) == Ok(buf)
    ensures FileWritten(geo, d, d', path, buf, i)
  {
    hide Consistent, Fits, TreeOf, LiveInodes, Settled, Became, DirsOK, BitmapsFit, Turned, TextOf, HasText, TextsKept, Target, Nameable,
         TreeWithFile, WriteCheck, Geometry.Valid;
    var live, t := LiveInodes(geo, d), TreeOf(geo, d, LiveInodes(geo, d));
    WriteTarget(geo, d, path, p, nm, found);
    TurnedFrom(geo, d, d', live', TreeWithFile(t, p, nm, i), live - {i});
    HasTextFrom(geo, d, d', TreeWithFile(t, p, nm, i), live - {i}, i, buf);
  }

  /** What write-file! of n bytes comes to: its check's refusal, or what replacing the
      contents comes to, of the file that is there or of the new one. */
  ghost function WriteOutcome(geo: Geometry, d: Disk, path: Bytes, n: nat): Result<nat>
    requires geo.Valid() && Fits(geo, d)
  {
    var check := WriteCheck(geo, d, path);
    if check.Err? then Err(check.reason)
    else
      var (p, nm, i) := check.value;
      if 0 <= i <= geo.inodes then ReplaceOutcome(geo, d.sbFreeBlocks, |Own(geo, d, i)|, n)
      else
        var made := MakeOutcome(geo, d, 0, p, nm);
        if made.Err? then made else ReplaceOutcome(geo, made.value, 0, n)
  }

  /** The old blocks of file i and the free ones are too few for n bytes. */
  ghost predicate TooFew(geo: Geometry, d: Disk, i: nat, n: nat)
    requires geo.Valid() && Fits(geo, d) && i <= geo.inodes
  {
    CeilDiv(n, geo.bs) > d.sbFreeBlocks + |Own(geo, d, i)|
  }

  /** The disk after that: nothing was written, but file i's blocks are marked free, and
      the disk is consistent only if it had none. */
  ghost predicate LeftEmptied(geo: Geometry, d: Disk, d': Disk, i: nat)
    requires geo.Valid() && Fits(geo, d) && i <= geo.inodes
  {
    Emptied(geo, d, d', i) && (Consistent(geo, d') <==> Own(geo, d, i) == {})
  }

  /** The inode that a write may leave damaged: the file, or for a new one its directory. */
  function WriteHit(check: (nat, Bytes, int)): nat {
    if check.2 >= 0 then check.2 else check.0
  }

  /** File i takes exactly the blocks that so many bytes need. */
  ghost predicate Takes(geo: Geometry, d: Disk, i: nat, n: nat)
    requires geo.Valid()
  {
    Fits(geo, d) && i <= geo.inodes && |Own(geo, d, i)| == BlocksFor(geo, n)
  }

  /** Make the file at path hold buf, creating it if needed. */
  method WriteFile(fs: Volume, path: Bytes, buf: Bytes) returns (r: Result<()>, ghost i: nat)
    requires fs.geo.Valid() && Consistent(fs.geo, fs.disk) && Fits(fs.geo, fs.disk)
    requires Nameable(fs.geo, fs.disk, path) && Roomy(fs.geo, fs.disk, path) && |buf| < 0x1_0000_0000
    modifies fs
    ensures r.Ok? ==> FileWritten(fs.geo, old(fs.disk), fs.disk, path, buf, i) && Takes(fs.geo, fs.disk, i, |buf|)
    ensures Told(r, fs.disk.sbFreeBlocks) == WriteOutcome(fs.geo, old(fs.disk), path, |buf|)
    ensures r.Err? && WriteCheck(fs.geo, old(fs.disk), path).Ok? ==>
      Spared(fs.geo, old(fs.disk), fs.disk, WriteHit(WriteCheck(fs.geo, old(fs.disk), path).value))
    ensures Refused(WriteCheck(fs.geo, old(fs.disk), path), r, old(fs.disk), fs.disk)
    ensures var check := WriteCheck(fs.geo, old(fs.disk), path);
            check.Ok? && 0 <= check.value.2 <= fs.geo.inodes && TooFew(fs.geo, old(fs.disk), check.value.2, |buf|) ==>
              LeftEmptied(fs.geo, old(fs.disk), fs.disk, check.value.2)
  {
    hide Consistent, Fits, TreeOf, LiveInodes, Settled, ParentAndName, SmallDir, Became, FreeName, Nameable, Roomy, Lookup, Geometry.Valid,
         TextOf, AddFile, FileWritten, Takes, BlocksFor, MakeOutcome, ReplaceOutcome, Spared;
    var geo := fs.geo;
    ghost var d := fs.disk;
    i := 0;
    var pn := ParentAndName(geo, fs.disk, path);
    if pn.Err? { return Err(pn.reason), i; }
    var p, nm := pn.value.0, pn.value.1;
    var found := Lookup(geo, fs.disk, p, nm);
    if found.Err? { return Err(found.reason), i; }
    WriteTarget(geo, d, path, p, nm, found.value);
    if found.value >= 0 {
      i := found.value;
      if fs.disk.inode[found.value].kind != File { return Err(NotAFile), i; }
      r := Overwrite(fs, path, p, nm, found.value, buf);
    } else {
      FreeTarget(geo, d, path);
      r, i := WriteNew(fs, path, p, nm, buf);
    }
  }

  /** The branch for an existing file. */
  method Overwrite(fs: Volume, path: Bytes, p: nat, nm: Bytes, i: nat, buf: Bytes) returns (r: Result<()>)
    requires fs.geo.Valid() && Consistent(fs.geo, fs.disk) && Fits(fs.geo, fs.disk) && Nameable(fs.geo, fs.disk, path)
    requires WriteCheck(fs.geo, fs.disk, path) == Ok((p, nm, i)) && |buf| < 0x1_0000_0000
    modifies fs
    ensures r.Ok? ==> FileWritten(fs.geo, old(fs.disk), fs.disk, path, buf, i) && Takes(fs.geo, fs.disk, i, |buf|)
    ensures r.Err? ==> OutOfSpace(r.reason)
    ensures i <= fs.geo.inodes
    ensures Told(r, fs.disk.sbFreeBlocks)
         == ReplaceOutcome(fs.geo, old(fs.disk).sbFreeBlocks, |Own(fs.geo, old(fs.disk), i)|, |buf|)
    ensures r.Err? ==> Spared(fs.geo, old(fs.disk), fs.disk, i)
    ensures TooFew(fs.geo, old(fs.disk), i, |buf|) ==> LeftEmptied(fs.geo, old(fs.disk), fs.disk, i)
  {
    hide Consistent, Fits, TreeOf, LiveInodes, Settled, Target, Became, Nameable, Geometry.Valid, TextOf, FileWritten,
         Own, Emptied, ReplaceOutcome, BlocksFor, Spared, Unharmed;
    var geo := fs.geo;
    ghost var d := fs.disk;
    WriteTarget(geo, d, path, p, nm, i);
    LiveNumber(geo, d, i);
    r := ReplaceData(fs, i, buf, LiveInodes(geo, d));
    if r.Ok? { FileWrittenFrom(geo, d, fs.disk, path, buf, p, nm, i, i, LiveInodes(geo, d)); } else { SparedFrom(geo, d, fs.disk, i); }
    if TooFew(geo, d, i, |buf|) { EmptiedConsistent(geo, d, fs.disk, i); }
  }

  lemma TakesIs(geo: Geometry, d: Disk, i: nat, n: nat)
    requires geo.Valid() && Fits(geo, d) && i <= geo.inodes && |Own(geo, d, i)| == BlocksFor(geo, n)
    ensures Takes(geo, d, i, n)
  {}

  lemma OutIs(e: Reason)
    ensures OutOfSpace(e) <==> e == DiskFull || e == FileTooLarge
  {}

  lemma NewOwnsNothing(geo: Geometry, d: Disk, live: set<nat>, i: nat)
    requires geo.Valid() && Settled(geo, d, live) && i in live && i < |d.inode| && d.inode[i] == EmptyInode(File, 1)
    ensures Fits(geo, d) && i <= geo.inodes && d.inode[i].kind == File && |Own(geo, d, i)| == 0
  {
    hide Own, OwnsWell, Fits, Store, InodeBooks, Namespace, Freeable, Blocks;
    OldFreeable(geo, d, live, i);
    EmptyOwns(geo, d, i);
  }

  lemma NewFileTree(t: Tree, p: nat, nm: Bytes, i: nat)
    requires p in t.kids && nm !in t.kids[p]
    ensures TreeWithFile(t, p, nm, i) == AddFile(t, p, nm, i, File)
  {}

  lemma NewTarget(geo: Geometry, d: Disk, path: Bytes, p: nat, nm: Bytes)
    requires geo.Valid() && Fits(geo, d) && Target(geo, d, path) == Ok((p, nm, -1))
    ensures WriteCheck(geo, d, path) == Target(geo, d, path)
  {
    hide Target, Fits;
  }

  lemma LiveNumber(geo: Geometry, d: Disk, i: nat)
    requires geo.Valid() && Consistent(geo, d) && BitmapsFit(geo, d.ibm) && i in LiveInodes(geo, d)
    ensures i <= geo.inodes
  {
    hide Fits, InodeBooks, Namespace, LiveInodes, Owned, Own;
    ConsistentIs(geo, d);
    OwnsWellIs(geo, d, LiveInodes(geo, d), {}, i);
  }

  /** The branch for a new one. */
  method WriteNew(fs: Volume, path: Bytes, p: nat, nm: Bytes, buf: Bytes) returns (r: Result<()>, ghost i: nat)
    requires fs.geo.Valid() && Consistent(fs.geo, fs.disk) && Fits(fs.geo, fs.disk)
    requires Nameable(fs.geo, fs.disk, path) && Roomy(fs.geo, fs.disk, path)
    requires Target(fs.geo, fs.disk, path) == Ok((p, nm, -1)) && |buf| < 0x1_0000_0000
    modifies fs
    ensures r.Ok? ==> FileWritten(fs.geo, old(fs.disk), fs.disk, path, buf, i) && Takes(fs.geo, fs.disk, i, |buf|)
    ensures r.Err? ==> OutOfSpace(r.reason) || (r.reason == NoFreeInodes && fs.disk == old(fs.disk))
    ensures p <= fs.geo.inodes
    ensures r.Err? ==> Spared(fs.geo, old(fs.disk), fs.disk, p)
    ensures Told(r, fs.disk.sbFreeBlocks)
         == (var made := MakeOutcome(fs.geo, old(fs.disk), 0, p, nm);
             if made.Err? then made else ReplaceOutcome(fs.geo, made.value, 0, |buf|))
  {
    hide *;
    var geo := fs.geo;
    ghost var d := fs.disk;
    i := 0;
    WriteTarget(geo, d, path, p, nm, -1);
    FreeTarget(geo, d, path);
    ghost var live := LiveInodes(geo, d);
    NewTarget(geo, d, path, p, nm);
    var made := CreateFile(fs, p, nm, live);
    ToldIs(made, fs.disk.sbFreeBlocks);
    SparedFrom(geo, d, fs.disk, p);
    if made.Err? {
      r := Err(made.reason);
      ToldIs(r, fs.disk.sbFreeBlocks);
      OutIs(made.reason);
      return r, i;
    }
    i := made.value;
    ghost var d1 := fs.disk;
    ghost var t' := AddFile(TreeOf(geo, d, live), p, nm, i, File);
    BecameSettled(geo, d, d1, live + {i}, t', live);
    NewOwnsNothing(geo, d1, live + {i}, i);
    r := ReplaceData(fs, made.value, buf, live + {i});
    ToldIs(r, fs.disk.sbFreeBlocks);
    if r.Err? {
      OutIs(r.reason);
      UnharmedAgain(geo, d, d1, fs.disk, live - {p}, live + {i} - {i}, live - {p});
      SparedFrom(geo, d, fs.disk, p);
    }
    if r.Ok? {
      TakesIs(geo, fs.disk, i, |buf|);
      NewFileTree(TreeOf(geo, d, live), p, nm, i);
      BecameThen(geo, d, d1, fs.disk, live + {i}, t', i, live);
      FileWrittenFrom(geo, d, fs.disk, path, buf, p, nm, -1, i, live + {i});
    }
  }

  lemma BecameSettled(geo: Geometry, d: Disk, d': Disk, live': set<nat>, t': Tree, kept: set<nat>)
    requires geo.Valid() && Fits(geo, d) && Became(geo, d, d', live', t', kept)
    ensures Settled(geo, d', live') && Fits(geo, d') && Numbers(geo, live') && DirsOK(geo, d', live') && TreeOf(geo, d', live') == t'
  {
    hide Settled, Fits, TreeOf, SameText;
    SettledParts(geo, d', live');
  }

  // ---- reading what was written ----

  /** Every edge and kind of t is in t' too. */
  ghost predicate Extends(t: Tree, t': Tree) {
    && (forall j :: j in t.kind ==> j in t'.kind && t'.kind[j] == t.kind[j])
    && (forall j :: j in t.kids ==> j in t'.kids && j in t.up && j in t'.up && t'.up[j] == t.up[j] && KidsIn(t.kids[j], t'.kids[j]))
  }

  ghost predicate KidsIn(m: map<Name, nat>, m': map<Name, nat>) {
    forall n :: n in m ==> n in m' && m'[n] == m[n]
  }

  lemma WithFileExtends(t: Tree, p: nat, nm: Bytes, i: nat)
    requires Shaped(t) && p in t.kids && (nm !in t.kids[p] ==> i !in t.kind)
    ensures Extends(t, TreeWithFile(t, p, nm, i))
  {}

  lemma LookupExtends(geo: Geometry, d: Disk, d': Disk, live: set<nat>, live': set<nat>, j: nat)
    requires geo.Valid() && Fits(geo, d) && Fits(geo, d') && Namespace(geo, d, live) && Namespace(geo, d', live')
    requires Extends(TreeOf(geo, d, live), TreeOf(geo, d', live')) && j in live && j < |d.inode| && d.inode[j].kind == Dir
    ensures j <= geo.inodes && LookupKept(geo, d, d', j)
  {
    hide Fits, Namespace, TreeOf, Lookup, KidMap, Ents, DirOK, NamesOK, DirsOK;
    NamespaceParts(geo, d, live);
    NamespaceParts(geo, d', live');
    FitsData(geo, d);
    FitsData(geo, d');
    TreeAt(geo, d, live, j);
    TreeAt(geo, d', live', j);
    forall n | Lookup(geo, d, j, n).Ok? && Lookup(geo, d, j, n).value >= 0 ensures Lookup(geo, d', j, n) == Lookup(geo, d, j, n) {
      LookupTree(geo, d, live, j, n);
      LookupTree(geo, d', live', j, n);
    }
  }

  /** A grown tree and the same symbolic links: what was found is still found. */
  lemma LookupsExtend(geo: Geometry, d: Disk, d': Disk, live: set<nat>, live': set<nat>)
    requires geo.Valid() && Fits(geo, d) && Fits(geo, d') && Namespace(geo, d, live) && Namespace(geo, d', live')
    requires Numbers(geo, live) && Extends(TreeOf(geo, d, live), TreeOf(geo, d', live'))
    requires forall j :: j in live && j < |d.inode| && d.inode[j].kind == Symlink ==> SameText(geo, d, d', j)
    ensures LookupsKept(geo, d, d', live)
  {
    hide Fits, Namespace, TreeOf, Lookup, DirOK, NamesOK, LookupKept, LinkTarget, KidsIn;
    FitsData(geo, d);
    FitsData(geo, d');
    forall j: nat | j in live
      ensures d'.inode[j].kind == d.inode[j].kind
      ensures d.inode[j].kind == Symlink ==> LinkTarget(geo, d', j) == LinkTarget(geo, d, j)
      ensures d.inode[j].kind == Dir ==> LookupKept(geo, d, d', j)
    {
      NamespaceParts(geo, d, live);
      NamespaceParts(geo, d', live');
      TreeAt(geo, d, live, j);
      TreeAt(geo, d', live', j);
      if d.inode[j].kind == Dir { LookupExtends(geo, d, d', live, live', j); }
    }
  }

  lemma NamespaceParts(geo: Geometry, d: Disk, live: set<nat>)
    requires geo.Valid() && Fits(geo, d) && Namespace(geo, d, live)
    ensures Numbers(geo, live) && DirsOK(geo, d, live)
  {
    hide Fits, DirsOK, TreeOf, TreeOK;
  }

  lemma TextKept(geo: Geometry, d: Disk, d': Disk, kept: set<nat>, j: nat)
    requires geo.Valid() && Consistent(geo, d) && Consistent(geo, d') && TextsKept(geo, d, d', kept) && j in kept
    ensures Fits(geo, d) && Fits(geo, d') && SameText(geo, d, d', j)
  {
    hide Consistent, Fits, LiveInodes, SameText;
    ConsistentIs(geo, d);
    ConsistentIs(geo, d');
  }

  lemma WriteCheckIs(geo: Geometry, d: Disk, path: Bytes)
    requires geo.Valid() && Fits(geo, d)
    ensures WriteCheck(geo, d, path).Ok? ==> WriteCheck(geo, d, path) == Target(geo, d, path)
  {
    hide Target, Fits, Geometry.Valid;
  }

  /** The parts of FileWritten, in terms of the live inodes. */
  lemma WrittenParts(geo: Geometry, d: Disk, d': Disk, path: Bytes, buf: Bytes, i: nat)
    requires geo.Valid() && Consistent(geo, d) && Fits(geo, d) && Nameable(geo, d, path) && FileWritten(geo, d, d', path, buf, i)
    ensures Consistent(geo, d') && Fits(geo, d') && BitmapsFit(geo, d.ibm) && BitmapsFit(geo, d'.ibm)
    ensures var live, live' := LiveInodes(geo, d), LiveInodes(geo, d');
            && Settled(geo, d, live) && Settled(geo, d', live') && Namespace(geo, d, live) && Namespace(geo, d', live')
            && Numbers(geo, live) && Numbers(geo, live') && DirsOK(geo, d, live) && DirsOK(geo, d', live')
            && ROOT_INO in live && ROOT_INO in live'
    ensures WriteCheck(geo, d, path).Ok? && WriteCheck(geo, d, path) == Target(geo, d, path)
    ensures var (p, nm, found) := WriteCheck(geo, d, path).value; var t := TreeOf(geo, d, LiveInodes(geo, d));
            && p in t.kids && Shaped(t) && t.kind.Keys == LiveInodes(geo, d) && (found < 0 <==> nm !in t.kids[p])
            && (if found >= 0 then i == found == t.kids[p][nm] else i !in t.kind)
            && TreeOf(geo, d', LiveInodes(geo, d')) == TreeWithFile(t, p, nm, i)
            && (forall j :: j in LiveInodes(geo, d) && j != i ==> SameText(geo, d, d', j))
    ensures HasText(geo, d', i, buf)
  {
    hide Consistent, Fits, TreeOf, LiveInodes, Settled, Target, Nameable, Namespace, DirsOK, BitmapsFit, TextOf, Turned, TreeWithFile, SameText,
         HasText, TextsKept, Geometry.Valid, WriteCheck, Shaped;
    WriteCheckIs(geo, d, path);
    var (p, nm, found) := WriteCheck(geo, d, path).value;
    var t := NamespaceOf(geo, d);
    ConsistentIs(geo, d);
    SettledParts(geo, d, LiveInodes(geo, d));
    TurnedIs(geo, d, d', TreeWithFile(t, p, nm, i), t.kind.Keys - {i});
    ConsistentIs(geo, d');
    forall j | j in LiveInodes(geo, d) && j != i ensures SameText(geo, d, d', j) {
      TextKept(geo, d, d', t.kind.Keys - {i}, j);
    }
  }

  /** Whatever could be looked up before still can. */
  lemma WrittenLookups(geo: Geometry, d: Disk, d': Disk, path: Bytes, buf: Bytes, i: nat)
    requires geo.Valid() && Consistent(geo, d) && Fits(geo, d) && Nameable(geo, d, path) && FileWritten(geo, d, d', path, buf, i)
    ensures Fits(geo, d') && BitmapsFit(geo, d.ibm)
    ensures Numbers(geo, LiveInodes(geo, d)) && LookupsKept(geo, d, d', LiveInodes(geo, d))
  {
    hide Consistent, Fits, TreeOf, LiveInodes, Settled, Target, Nameable, Namespace, DirsOK, BitmapsFit, LookupsKept,
         TreeWithFile, Extends, SameText, FileWritten, HasText;
    WrittenParts(geo, d, d', path, buf, i);
    var live := LiveInodes(geo, d);
    var (p, nm, found) := WriteCheck(geo, d, path).value;
    var t := TreeOf(geo, d, live);
    WithFileExtends(t, p, nm, i);
    forall j | j in live && j < |d.inode| && d.inode[j].kind == Symlink ensures SameText(geo, d, d', j) {
      if j == i { assert false; }
    }
    LookupsExtend(geo, d, d', live, LiveInodes(geo, d'));
  }

  /** The written file is where the path says. */
  lemma WrittenFound(geo: Geometry, d: Disk, d': Disk, path: Bytes, buf: Bytes, i: nat)
    requires geo.Valid() && Consistent(geo, d) && Fits(geo, d) && Nameable(geo, d, path) && FileWritten(geo, d, d', path, buf, i)
    ensures Fits(geo, d') && 1 <= i <= geo.inodes && i < |d'.inode| && d'.inode[i].kind == File
    ensures Contents(geo, d', i) == Ok(buf)
    ensures WriteCheck(geo, d, path).Ok?
    ensures var (p, nm, found) := WriteCheck(geo, d, path).value;
            ParentAndName(geo, d, path) == Ok((p, nm)) && p <= geo.inodes && p < |d'.inode| && d'.inode[p].kind == Dir
            && Lookup(geo, d', p, nm) == Ok(i)
  {
    hide Consistent, Fits, TreeOf, LiveInodes, Settled, Target, Nameable, Namespace, DirsOK, BitmapsFit, ParentAndName, Lookup,
         TreeWithFile, SameText, FileWritten, Contents;
    WrittenParts(geo, d, d', path, buf, i);
    TargetParent(geo, d, path);
    TargetIs(geo, d, path);
    var (p, nm, found) := WriteCheck(geo, d, path).value;
    var t := TreeOf(geo, d, LiveInodes(geo, d));
    WrittenNode(geo, d, d', LiveInodes(geo, d), LiveInodes(geo, d'), t, p, nm, i);
  }

  lemma WrittenNode(geo: Geometry, d: Disk, d': Disk, live: set<nat>, live': set<nat>, t: Tree, p: nat, nm: Bytes, i: nat)
    requires geo.Valid() && Fits(geo, d) && Fits(geo, d') && Namespace(geo, d, live) && Namespace(geo, d', live')
    requires t == TreeOf(geo, d, live) && Shaped(t) && p in t.kids && TreeOf(geo, d', live') == TreeWithFile(t, p, nm, i)
    requires nm in t.kids[p] ==> t.kids[p][nm] == i && i < |d.inode| && d.inode[i].kind == File
    requires nm !in t.kids[p] ==> i !in t.kind
    requires Plain(nm)
    ensures i in live' && 1 <= i <= geo.inodes && i < |d'.inode| && d'.inode[i].kind == File
    ensures p in live' && p < |d'.inode| && d'.inode[p].kind == Dir && p <= geo.inodes && Lookup(geo, d', p, nm) == Ok(i)
    ensures i in live ==> i < |d.inode| && d.inode[i].kind == File
  {
    hide Fits, Namespace, TreeOf, Lookup, KidMap, Ents, DirOK, NamesOK;
    NamespaceParts(geo, d, live);
    NamespaceParts(geo, d', live');
    TreeAt(geo, d, live, i);
    TreeAt(geo, d, live, p);
    UpIsLive2(geo, d, live, p);
    TreeAt(geo, d', live', i);
    TreeAt(geo, d', live', p);
    LookupTree(geo, d', live', p, nm);
    FitsData(geo, d');
  }

  lemma UpIsLive2(geo: Geometry, d: Disk, live: set<nat>, p: nat)
    requires geo.Valid() && Fits(geo, d) && Namespace(geo, d, live)
    ensures Numbers(geo, live) && DirsOK(geo, d, live)
    ensures var t := TreeOf(geo, d, live);
            p in t.kids ==> forall n :: n in t.kids[p] ==> t.kids[p][n] in live
  {
    hide Fits, TreeOf, TreeOK, DirsOK;
    var t := TreeOf(geo, d, live);
    if p in t.kids {
      UpIsLive(t, p);
      forall n | n in t.kids[p] ensures t.kids[p][n] in live { TreeAt(geo, d, live, t.kids[p][n]); }
    }
  }

  /** Writing then reading is the identity. */
  lemma WrittenReadsBack(geo: Geometry, d: Disk, d': Disk, path: Bytes, buf: Bytes, i: nat)
    requires geo.Valid() && Consistent(geo, d) && Fits(geo, d) && Nameable(geo, d, path) && FileWritten(geo, d, d', path, buf, i)
    ensures Consistent(geo, d') && Fits(geo, d') && BytesAt(geo, d', path) == Ok(buf)
  {
    hide Consistent, Fits, TreeOf, LiveInodes, Settled, ParentAndName, Lookup, Nameable, Namespace, BitmapsFit, LookupsKept,
         SameText, Resolve, FileWritten, WriteCheck, Contents, Split;
    WrittenParts(geo, d, d', path, buf, i);
    WrittenLookups(geo, d, d', path, buf, i);
    WrittenFound(geo, d, d', path, buf, i);
    ParentIs(geo, d, path);
    var (p, nm, found) := WriteCheck(geo, d, path).value;
    var comps := Split(path);
    var n := |comps| - 1;
    RootInRange(geo, d');
    ResolveStable(geo, d, d', LiveInodes(geo, d), ROOT_INO, comps[..n], true, 0);
    ResolveSnoc(geo, d', ROOT_INO, comps[..n], nm, true, 0, p, i);
    assert comps == comps[..n] + [nm];
  }

  /** Any path that read before, and does not name the written file, still reads
      the same bytes. */
  lemma OthersReadAsBefore(geo: Geometry, d: Disk, d': Disk, path: Bytes, buf: Bytes, i: nat, other: Bytes, text: Bytes)
    requires geo.Valid() && Consistent(geo, d) && Fits(geo, d) && Nameable(geo, d, path) && FileWritten(geo, d, d', path, buf, i)
    requires BytesAt(geo, d, other) == Ok(text) && 1 <= ROOT_INO <= geo.inodes
    requires Resolve(geo, d, ROOT_INO, Split(other), true, 0) != Ok(i)
    ensures Consistent(geo, d') && Fits(geo, d') && BytesAt(geo, d', other) == Ok(text)
  {
    hide Consistent, Fits, TreeOf, LiveInodes, Settled, ParentAndName, Lookup, Nameable, Namespace, BitmapsFit,
         Resolve, FileWritten, WriteCheck, Contents, Split, LookupKept, LinkTarget;
    WrittenParts(geo, d, d', path, buf, i);
    WrittenLookups(geo, d, d', path, buf, i);
    var j := Resolve(geo, d, ROOT_INO, Split(other), true, 0).value;
    ResolveLive(geo, d, LiveInodes(geo, d), ROOT_INO, Split(other), true, 0);
    ResolveStable(geo, d, d', LiveInodes(geo, d), ROOT_INO, Split(other), true, 0);
    assert SameText(geo, d, d', j);
  }
}
