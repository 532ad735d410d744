/** add-entry!, remove-entry! and set-dotdot! as whole operations on a directory
    of a consistent disk (lib/ext2.beer:622-684, 803-815). */
module Ext2DirOps {
  import opened Bytes
  import opened Ext2Disk
  import opened Ext2BlockMap
  import opened Ext2BuildMap
  import opened Ext2DirBlock
  import opened Ext2DirData
  import opened Ext2Store
  import opened Ext2Dir

  /** Room for one more block before the directory's 32-bit size would wrap. */
  predicate SmallDir(geo: Geometry, d: Disk, dir: nat) {
    dir < |d.inode| && d.inode[dir].size + geo.bs < 0x1_0000_0000
  }

  /** Add name -> ino to directory dir: the first record with room takes it, or a
      new block does. */
  method AddEntry(fs: Volume, dir: nat, name: Bytes, ino: nat, t: nat, ghost live: set<nat>, ghost spare: set<nat>)
    returns (r: Result<()>)
    requires fs.geo.Valid() && DirIn(fs.geo, fs.disk, live, spare, dir) && EntryArgs(name, ino, t)
    requires SmallDir(fs.geo, fs.disk, dir)
    modifies fs
    ensures r.Ok? ==>
      EntryAdded(fs.geo, old(fs.disk), fs.disk, live, spare, dir, NewEntry(fs.geo.filetype, name, ino, t))
    ensures Fits(fs.geo, old(fs.disk)) && dir <= fs.geo.inodes
    ensures Told(r, fs.disk.sbFreeBlocks) == AddOutcome(fs.geo, old(fs.disk), old(fs.disk).sbFreeBlocks, dir, name)
    ensures r.Err? ==> Fits(fs.geo, fs.disk) && Kept(fs.geo, old(fs.disk), fs.disk, live - {dir})
  {
    hide DirIn, EntryAdded, Store, Inserted, Fb, Geometry.Valid, Fits, Ents, DirOK, HasSlot, GrowOutcome, Kept;
    ghost var d := fs.disk;
    AddFacts(fs.geo, d, live, spare, dir);
    var blocks := Fb(fs.geo, fs.disk, dir);
    var done := AddInPlace(fs, dir, blocks, name, ino, t, live, spare);
    if done { return Ok(()); }
    r := GrowDir(fs, dir, blocks, name, ino, t, live, spare);
  }

  lemma AddFacts(geo: Geometry, d: Disk, live: set<nat>, spare: set<nat>, dir: nat)
    requires geo.Valid() && DirIn(geo, d, live, spare, dir) && SmallDir(geo, d, dir)
    ensures Fits(geo, d) && 1 <= dir <= geo.inodes && DirOK(geo, d, dir)
    ensures (|Fb(geo, d, dir)| + 1) * geo.bs < 0x1_0000_0000
  {
    hide Fb, Store, Fits;
    assert (|Fb(geo, d, dir)| + 1) * geo.bs == |Fb(geo, d, dir)| * geo.bs + geo.bs;
  }

  // ---- remove-entry! ----

  /** new_ is old_ without its first entry of this name, which stood at k. */
  ghost predicate Without(old_: seq<Entry>, new_: seq<Entry>, name: Bytes, k: nat) {
    && k < |old_| && Named(old_[k], name) && NoneNamed(old_[..k], name)
    && new_ == old_[..k] + old_[k + 1..]
  }

  ghost predicate EntryRemoved(geo: Geometry, d: Disk, d': Disk, live: set<nat>, spare: set<nat>, dir: nat, name: Bytes)
    requires geo.Valid()
  {
    && DirEdited(geo, d, d', live, spare, dir) && DirOK(geo, d, dir)
    && (exists k :: Without(Ents(geo, d, dir), Ents(geo, d', dir), name, k))
    && d'.inode == d.inode
    && FirstKept(geo, d, d', dir, {name})
  }

  lemma WithoutAround(pre: seq<Entry>, x: seq<Entry>, e: Entry, y: seq<Entry>, post: seq<Entry>, name: Bytes)
    requires NoneNamed(pre, name) && NoneNamed(x, name) && Named(e, name)
    ensures Without(pre + (x + [e] + y) + post, pre + (x + y) + post, name, |pre| + |x|)
  {
    hide Named;
    var all := pre + (x + [e] + y) + post;
    assert all == (pre + x) + ([e] + (y + post));
    assert pre + (x + y) + post == (pre + x) + (y + post);
    WithoutMiddle(pre + x, e, y + post, name);
  }

  lemma WithoutMiddle(x: seq<Entry>, e: Entry, y: seq<Entry>, name: Bytes)
    requires NoneNamed(x, name) && Named(e, name)
    ensures Without(x + ([e] + y), x + y, name, |x|)
  {
    hide Named;
    var all := x + ([e] + y);
    assert all[..|x|] == x && all[|x| + 1..] == y;
  }

  lemma NameTaken(geo: Geometry, d: Disk, live: set<nat>, spare: set<nat>, dir: nat, k: nat, p: nat,
                  first: bool, prev: nat, name: Bytes)
    requires geo.Valid() && DirIn(geo, d, live, spare, dir) && Fits(geo, d) && dir <= geo.inodes
    requires k < |Fb(geo, d, dir)| && 0 < Fb(geo, d, dir)[k] < |d.data| && DataFit(geo.bs, d.data)
    requires DirBlocks(geo.filetype, geo.bs, d.data, Fb(geo, d, dir)[..k])
    requires NoneNamed(BlockEntries(geo.filetype, geo.bs, d.data, Fb(geo, d, dir)[..k]), name)
    requires var ft, buf := geo.filetype, d.data[Fb(geo, d, dir)[k]];
             && Tiles(ft, buf, 0) && p < |buf| && OnChain(ft, buf, 0, p) && GoodRec(ft, buf, p) && RecNamed(ft, buf, p, name)
             && NoneNamed(Before(ft, buf, 0, p), name) && Precedes(ft, buf, first, prev, p)
    ensures var buf := d.data[Fb(geo, d, dir)[k]];
            && p + 8 <= |buf| && (!first ==> prev + 8 <= |buf|)
            && EntryRemoved(geo, d, LeafWritten(geo, d, dir, k, Removed(geo.filetype, buf, p, first, prev)), live, spare, dir, name)
  {
    hide Tiles, Entries, Geometry.Valid, DirOK, Fb, Fits, GoodRec, RecLen, Store, OnChain, Before, RecNamed, DirEdited,
         BlockEntries, DirBlocks, NoneNamed, Without, Removed, RecEntry, NameLen, DirIn, FirstKept;
    var ft, bs, fb := geo.filetype, geo.bs, Fb(geo, d, dir);
    var buf := d.data[fb[k]];
    BlockSize(geo, bs, d.data, fb[k]);
    RecFits(ft, buf, p, name);
    RemoveInBlock(ft, buf, p, first, prev, name);
    var buf' := Removed(ft, buf, p, first, prev);
    LeafEdited(geo, d, live, spare, dir, k, buf');
    DirInStore(geo, d, live, spare, dir);
    DirAfterLeaf(geo, d, live, spare, dir, k, buf');
    RecNamedIs(ft, buf, p, name);
    var pre, post := BlockEntries(ft, bs, d.data, fb[..k]), BlockEntries(ft, bs, d.data, fb[k + 1..]);
    WithoutAround(pre, Before(ft, buf, 0, p), RecEntry(ft, buf, p), Entries(ft, buf, p + RecLen(buf, p)), post, name);
    forall x | x != name && !NoneNamed(Entries(ft, buf, 0), x) ensures !NoneNamed(Entries(ft, buf', 0), x) {
      MiddleGone(Before(ft, buf, 0, p), RecEntry(ft, buf, p), Entries(ft, buf, p + RecLen(buf, p)), name, x);
    }
    LeafFirst(geo, d, live, spare, dir, k, buf', {name});
  }

  lemma MiddleGone(pre: seq<Entry>, e: Entry, post: seq<Entry>, name: Bytes, x: Bytes)
    requires e.name == name && x != name && !NoneNamed(pre + [e] + post, x)
    ensures !NoneNamed(pre + post, x)
  {
    var f :| f in pre + [e] + post && Named(f, x);
    assert f in pre + post;
  }

  lemma MiddleRenumbered(pre: seq<Entry>, e: Entry, post: seq<Entry>, ino: nat, x: Bytes)
    requires !NoneNamed(pre + [e] + post, x)
    ensures !NoneNamed(pre + [e.(ino := ino)] + post, x)
  {
    var f :| f in pre + [e] + post && Named(f, x);
    var g := if f in pre || f in post then f else e.(ino := ino);
    assert g in pre + [e.(ino := ino)] + post && Named(g, x);
  }

  lemma DirInStore(geo: Geometry, d: Disk, live: set<nat>, spare: set<nat>, dir: nat)
    requires geo.Valid() && DirIn(geo, d, live, spare, dir)
    ensures Store(geo, d, live, spare) && dir in live && Fits(geo, d) && DirOK(geo, d, dir)
  {
    hide Store, Fits, DirOK;
  }

  lemma RecFits(ft: bool, b: Bytes, p: nat, name: Bytes)
    requires GoodRec(ft, b, p) && RecNamed(ft, b, p, name)
    ensures p + 8 <= |b| && p + 8 + NameLen(ft, b, p) <= |b|
    ensures RecEntry(ft, b, p).name == name
  {}

  lemma BlockSize(geo: Geometry, bs: nat, data: seq<Bytes>, b: nat)
    requires geo.Valid() && bs == geo.bs && DataFit(bs, data) && b < |data|
    ensures |data[b]| == bs < 0x1_0000
  {}

  /** Remove name from directory dir: the first entry of that name goes, every
      other stays in place. */
  method RemoveEntry(fs: Volume, dir: nat, name: Bytes, ghost live: set<nat>, ghost spare: set<nat>) returns (r: Result<()>)
    requires fs.geo.Valid() && DirIn(fs.geo, fs.disk, live, spare, dir)
    modifies fs
    ensures r.Ok? ==> EntryRemoved(fs.geo, old(fs.disk), fs.disk, live, spare, dir, name)
    ensures r.Ok? ==>
      fs.disk.sbFreeBlocks == old(fs.disk).sbFreeBlocks && Reusable(fs.geo, fs.disk, dir, name)
    ensures r.Err? ==> r.reason == NotFound && fs.disk == old(fs.disk)
    ensures r.Err? ==> Fits(fs.geo, fs.disk) && DirOK(fs.geo, fs.disk, dir) && NoneNamed(Ents(fs.geo, fs.disk, dir), name)
  {
    hide Tiles, Entries, Geometry.Valid, DirIn, DirEdited, DirOK, Fb, Ents, Fits, GoodRec, RecLen, RecNamed, OnChain,
         Before, Precedes, EntryRemoved, Removed, NoneNamed, BlockEntries, DirBlocks;
    var geo := fs.geo;
    ghost var d := fs.disk;
    DirInIs(geo, d, live, spare, dir);
    DirInStore(geo, d, live, spare, dir);
    var blocks := Fb(geo, fs.disk, dir);
    var k := 0;
    NoneYet(geo, d, dir, name);
    while k < |blocks|
      invariant 0 <= k <= |blocks| && fs.disk == d
      invariant DirBlocks(geo.filetype, geo.bs, d.data, blocks[..k])
      invariant NoneNamed(BlockEntries(geo.filetype, geo.bs, d.data, blocks[..k]), name)
    {
      var blk := blocks[k];
      var buf := fs.disk.data[blk];
      var found, p, first, prev := FindName(geo.filetype, buf, name);
      if found {
        NoneBefore(geo.filetype, buf, p, name);
        NameTaken(geo, d, live, spare, dir, k, p, first, prev, name);
        RemovedSlot(geo, d, live, spare, dir, k, p, first, prev, name);
        WriteBlock(fs, blk, Removed(geo.filetype, buf, p, first, prev));
        return Ok(());
      }
      NoneMore(geo, d, dir, k, name);
      k := k + 1;
    }
    AllBlocksSeen(geo, d, dir, name);
    return Err(NotFound);
  }

  /** The space that a removed entry leaves takes the same name again. */
  lemma RemovedSlot(geo: Geometry, d: Disk, live: set<nat>, spare: set<nat>, dir: nat, k: nat, p: nat,
                    first: bool, prev: nat, name: Bytes)
    requires geo.Valid() && DirIn(geo, d, live, spare, dir) && Fits(geo, d) && dir <= geo.inodes
    requires k < |Fb(geo, d, dir)| && 0 < Fb(geo, d, dir)[k] < |d.data|
    requires var ft, buf := geo.filetype, d.data[Fb(geo, d, dir)[k]];
             && Tiles(ft, buf, 0) && p < |buf| && OnChain(ft, buf, 0, p) && GoodRec(ft, buf, p) && RecNamed(ft, buf, p, name)
             && Precedes(ft, buf, first, prev, p)
             && p + 8 <= |buf| && (!first ==> prev + 8 <= |buf|)
    ensures var buf := d.data[Fb(geo, d, dir)[k]];
            var d' := LeafWritten(geo, d, dir, k, Removed(geo.filetype, buf, p, first, prev));
            Reusable(geo, d', dir, name)
  {
    hide Tiles, Entries, Geometry.Valid, DirOK, Fb, Fits, GoodRec, RecLen, Store, OnChain, RecNamed, DirEdited,
         Removed, Precedes, HasRoom, DirIn, Align4;
    DirInIs(geo, d, live, spare, dir);
    DirInStore(geo, d, live, spare, dir);
    var b := Fb(geo, d, dir)[k];
    var buf := d.data[b];
    BlockSize(geo, geo.bs, d.data, b);
    RemoveInBlock(geo.filetype, buf, p, first, prev, name);
    RemovedRoom(geo.filetype, buf, p, first, prev, name);
    var d' := LeafWritten(geo, d, dir, k, Removed(geo.filetype, buf, p, first, prev));
    LeafEdited(geo, d, live, spare, dir, k, Removed(geo.filetype, buf, p, first, prev));
    DirInStore(geo, d', live, spare, dir);
    assert RoomAt(geo, d', Fb(geo, d', dir)[k], name);
  }

  lemma NoneBefore(ft: bool, b: Bytes, p: nat, name: Bytes)
    requires OnChain(ft, b, 0, p) && forall e :: e in Before(ft, b, 0, p) ==> !Named(e, name)
    ensures NoneNamed(Before(ft, b, 0, p), name)
  {}

  lemma NoneYet(geo: Geometry, d: Disk, dir: nat, name: Bytes)
    requires geo.Valid() && Fits(geo, d) && DirOK(geo, d, dir) && DataFit(geo.bs, d.data) && dir <= geo.inodes
    ensures var fb := Fb(geo, d, dir);
            && DirBlocks(geo.filetype, geo.bs, d.data, fb[..0])
            && NoneNamed(BlockEntries(geo.filetype, geo.bs, d.data, fb[..0]), name)
  {
    hide Fb, Tiles;
    assert Fb(geo, d, dir)[..0] == [];
  }

  lemma NoneMore(geo: Geometry, d: Disk, dir: nat, k: nat, name: Bytes)
    requires geo.Valid() && Fits(geo, d) && DirOK(geo, d, dir) && DataFit(geo.bs, d.data) && dir <= geo.inodes
    requires k < |Fb(geo, d, dir)| && 0 < Fb(geo, d, dir)[k] < |d.data|
    requires DirBlocks(geo.filetype, geo.bs, d.data, Fb(geo, d, dir)[..k])
    requires NoneNamed(BlockEntries(geo.filetype, geo.bs, d.data, Fb(geo, d, dir)[..k]), name)
    requires Tiles(geo.filetype, d.data[Fb(geo, d, dir)[k]], 0)
    requires forall e :: e in Entries(geo.filetype, d.data[Fb(geo, d, dir)[k]], 0) ==> !Named(e, name)
    ensures DirBlocks(geo.filetype, geo.bs, d.data, Fb(geo, d, dir)[..k + 1])
    ensures NoneNamed(BlockEntries(geo.filetype, geo.bs, d.data, Fb(geo, d, dir)[..k + 1]), name)
  {
    hide Fb, Tiles, Entries, Named, BlockEntries, DirBlocks, DataFit, DirOK, Fits, Geometry.Valid;
    var ft, bs, fb := geo.filetype, geo.bs, Fb(geo, d, dir);
    assert fb[..k + 1] == fb[..k] + [fb[k]];
    OneDir(ft, bs, d.data, fb[k]);
    DirBlocksSplit(ft, bs, d.data, fb[..k], [fb[k]]);
    BlockEntriesConcat(ft, bs, d.data, fb[..k], [fb[k]]);
    OneEntries(ft, bs, d.data, fb[k]);
  }

  lemma OneDir(ft: bool, bs: nat, data: seq<Bytes>, b: nat)
    requires DataFit(bs, data) && 0 < b < |data| && Tiles(ft, data[b], 0)
    ensures DirBlocks(ft, bs, data, [b]) && ReadBlock(bs, data, b) == data[b]
  {
    hide Tiles;
    assert forall k :: 0 <= k < |[b]| ==> [b][k] == b;
  }

  lemma AllBlocksSeen(geo: Geometry, d: Disk, dir: nat, name: Bytes)
    requires geo.Valid() && Fits(geo, d) && DirOK(geo, d, dir) && DataFit(geo.bs, d.data) && dir <= geo.inodes
    requires var fb := Fb(geo, d, dir);
             && DirBlocks(geo.filetype, geo.bs, d.data, fb[..|fb|])
             && NoneNamed(BlockEntries(geo.filetype, geo.bs, d.data, fb[..|fb|]), name)
    ensures NoneNamed(Ents(geo, d, dir), name)
  {
    hide Fb, Tiles, BlockEntries, NoneNamed;
    assert Fb(geo, d, dir)[..|Fb(geo, d, dir)|] == Fb(geo, d, dir);
  }

  // ---- set-dotdot! ----

  /** The first entry of this name, at k, now names another inode. */
  ghost predicate Repointing(old_: seq<Entry>, new_: seq<Entry>, name: Bytes, k: nat, ino: nat) {
    && k < |old_| && Named(old_[k], name) && NoneNamed(old_[..k], name)
    && new_ == old_[k := old_[k].(ino := ino)]
  }

  ghost predicate EntryRepointed(geo: Geometry, d: Disk, d': Disk, live: set<nat>, spare: set<nat>, dir: nat, name: Bytes, ino: nat)
    requires geo.Valid()
  {
    && DirEdited(geo, d, d', live, spare, dir) && DirOK(geo, d, dir)
    && (exists k :: Repointing(Ents(geo, d, dir), Ents(geo, d', dir), name, k, ino))
    && FirstKept(geo, d, d', dir, {})
  }

  /** Point the directory's entry `..` at another inode. */
  method SetDotDot(fs: Volume, dir: nat, parent: nat, ghost live: set<nat>, ghost spare: set<nat>)
    requires fs.geo.Valid() && DirIn(fs.geo, fs.disk, live, spare, dir)
    requires 0 < parent < 0x1_0000_0000
    requires Fits(fs.geo, fs.disk) && DirOK(fs.geo, fs.disk, dir) && FirstBlockNames(fs.geo, fs.disk, dir, DOTDOT)
    modifies fs
    ensures EntryRepointed(fs.geo, old(fs.disk), fs.disk, live, spare, dir, DOTDOT, parent)
    ensures fs.disk.sbFreeBlocks == old(fs.disk).sbFreeBlocks
  {
    hide Tiles, Entries, Geometry.Valid, DirIn, DirEdited, DirOK, Fb, Ents, Fits, GoodRec, RecLen, RecNamed, OnChain,
         Before, Precedes, EntryRepointed, NoneNamed, BlockEntries, DirBlocks, FirstBlockNames, RecEntry;
    var geo := fs.geo;
    ghost var d := fs.disk;
    DirInIs(geo, d, live, spare, dir);
    DirFirst(geo, d, dir);
    var blk := Fb(geo, fs.disk, dir)[0];
    var buf := fs.disk.data[blk];
    var found, p, first, prev := FindName(geo.filetype, buf, DOTDOT);
    FoundThere(geo, d, dir, DOTDOT, found);
    NoneBefore(geo.filetype, buf, p, DOTDOT);
    NameRepointed(geo, d, live, spare, dir, p, DOTDOT, parent);
    WriteBlock(fs, blk, PutU32(buf, p, parent));
  }

  lemma FoundThere(geo: Geometry, d: Disk, dir: nat, name: Bytes, found: bool)
    requires geo.Valid() && Fits(geo, d) && DirOK(geo, d, dir) && FirstBlockNames(geo, d, dir, name)
    requires |Fb(geo, d, dir)| > 0 && 0 < Fb(geo, d, dir)[0] < |d.data|
    requires Tiles(geo.filetype, d.data[Fb(geo, d, dir)[0]], 0)
    requires !found ==> forall e :: e in Entries(geo.filetype, d.data[Fb(geo, d, dir)[0]], 0) ==> !Named(e, name)
    ensures found
  {
    hide Fb, Tiles, Entries, Fits, DirOK;
  }

  lemma RepointAround(pre: seq<Entry>, e: Entry, post: seq<Entry>, name: Bytes, ino: nat)
    requires NoneNamed(pre, name) && Named(e, name)
    ensures Repointing(pre + [e] + post, pre + [e.(ino := ino)] + post, name, |pre|, ino)
  {
    hide Named;
    assert (pre + [e] + post)[..|pre|] == pre;
  }

  lemma NameRepointed(geo: Geometry, d: Disk, live: set<nat>, spare: set<nat>, dir: nat, p: nat, name: Bytes, ino: nat)
    requires geo.Valid() && DirIn(geo, d, live, spare, dir) && Fits(geo, d) && dir <= geo.inodes
    requires |Fb(geo, d, dir)| > 0 && 0 < Fb(geo, d, dir)[0] < |d.data| && DataFit(geo.bs, d.data)
    requires var ft, buf := geo.filetype, d.data[Fb(geo, d, dir)[0]];
             && Tiles(ft, buf, 0) && p < |buf| && OnChain(ft, buf, 0, p) && GoodRec(ft, buf, p) && RecNamed(ft, buf, p, name)
             && NoneNamed(Before(ft, buf, 0, p), name)
    requires 0 < ino < 0x1_0000_0000
    ensures var buf := d.data[Fb(geo, d, dir)[0]];
            && p + 4 <= |buf|
            && EntryRepointed(geo, d, LeafWritten(geo, d, dir, 0, PutU32(buf, p, ino)), live, spare, dir, name, ino)
  {
    hide Tiles, Entries, Geometry.Valid, DirOK, Fb, Fits, GoodRec, RecLen, Store, OnChain, Before, RecNamed, DirEdited,
         BlockEntries, DirBlocks, NoneNamed, Repointing, RecEntry, NameLen, DirIn, PutU32, FirstKept;
    var ft, bs, fb := geo.filetype, geo.bs, Fb(geo, d, dir);
    var buf := d.data[fb[0]];
    BlockSize(geo, bs, d.data, fb[0]);
    RecFits(ft, buf, p, name);
    RepointInBlock(ft, buf, p, name, ino);
    var buf' := PutU32(buf, p, ino);
    LeafEdited(geo, d, live, spare, dir, 0, buf');
    DirInStore(geo, d, live, spare, dir);
    DirAfterLeaf(geo, d, live, spare, dir, 0, buf');
    var e, x, y := RecEntry(ft, buf, p), Before(ft, buf, 0, p), Entries(ft, buf, p + RecLen(buf, p));
    var post := BlockEntries(ft, bs, d.data, fb[1..]);
    FirstOfAll(ft, bs, d.data, fb);
    assert [] + (x + [e] + y) + post == x + [e] + (y + post);
    assert [] + (x + [e.(ino := ino)] + y) + post == x + [e.(ino := ino)] + (y + post);
    RepointAround(x, e, y + post, name, ino);
    forall z | !NoneNamed(Entries(ft, buf, 0), z) ensures !NoneNamed(Entries(ft, buf', 0), z) {
      MiddleRenumbered(x, e, y, ino, z);
    }
    LeafFirst(geo, d, live, spare, dir, 0, buf', {});
  }

  lemma FirstOfAll(ft: bool, bs: nat, data: seq<Bytes>, fb: seq<nat>)
    requires DataFit(bs, data) && DirBlocks(ft, bs, data, fb[..0])
    ensures BlockEntries(ft, bs, data, fb[..0]) == []
  {}

  // ---- one entry ----

  ghost predicate HasEntry(geo: Geometry, d: Disk, dir: nat, e: Entry)
    requires geo.Valid()
  {
    Fits(geo, d) && DirOK(geo, d, dir) && e in Ents(geo, d, dir)
  }

  lemma AddedHas(geo: Geometry, d: Disk, d': Disk, live: set<nat>, spare: set<nat>, dir: nat, e: Entry)
    requires geo.Valid() && EntryAdded(geo, d, d', live, spare, dir, e)
    ensures HasEntry(geo, d', dir, e)
  {
    hide Store, Fits, DirOK, Ents, Kept, OthersSame, FirstKept;
    var k :| 0 <= k <= |Ents(geo, d, dir)| && Ents(geo, d', dir) == Ents(geo, d, dir)[..k] + [e] + Ents(geo, d, dir)[k..];
    assert Ents(geo, d', dir)[k] == e;
  }

  /** It stays when another one is removed. */
  lemma RemovedHas(geo: Geometry, d: Disk, d': Disk, live: set<nat>, spare: set<nat>, dir: nat, name: Bytes, at: nat, e: Entry)
    requires geo.Valid() && EntryRemoved(geo, d, d', live, spare, dir, name) && HasEntry(geo, d, at, e) && at in live
    requires at == dir ==> e.name != name
    ensures HasEntry(geo, d', at, e)
  {
    hide Store, Fits, DirOK, Ents, OthersSame, FirstKept, Same;
    if at == dir {
      var es := Ents(geo, d, dir);
      var k :| Without(es, Ents(geo, d', dir), name, k);
      var m :| 0 <= m < |es| && es[m] == e;
      assert m != k;
      assert Ents(geo, d', dir)[if m < k then m else m - 1] == e;
    } else {
      SameDir(geo, d, d', at);
    }
  }

  /** And when another one is repointed. */
  lemma RepointedHas(geo: Geometry, d: Disk, d': Disk, live: set<nat>, spare: set<nat>, dir: nat, name: Bytes, ino: nat, at: nat, e: Entry)
    requires geo.Valid() && EntryRepointed(geo, d, d', live, spare, dir, name, ino) && HasEntry(geo, d, at, e) && at in live
    requires at == dir ==> e.name != name
    ensures HasEntry(geo, d', at, e)
  {
    hide Store, Fits, DirOK, Ents, OthersSame, FirstKept, Same;
    if at == dir {
      var es := Ents(geo, d, dir);
      var k :| Repointing(es, Ents(geo, d', dir), name, k, ino);
      var m :| 0 <= m < |es| && es[m] == e;
      assert m != k;
      assert Ents(geo, d', dir)[m] == e;
    } else {
      SameDir(geo, d, d', at);
    }
  }

  /** And when a link count changes. */
  lemma LinksHas(geo: Geometry, d: Disk, i: nat, v: Inode, at: nat, e: Entry)
    requires geo.Valid() && HasEntry(geo, d, at, e) && i < |d.inode| && OnlyLinks(d.inode[i], v)
    ensures HasEntry(geo, d.(inode := d.inode[i := v]), at, e)
  {
    hide BlockEntries, DirBlocks, MapBlocks, Ready, Geometry.Valid, Words, CeilDiv;
    FitsData(geo, d);
    var d' := d.(inode := d.inode[i := v]);
    assert Ready(geo, d') by { ReadyAgain(geo, d, d'); }
    assert Fits(geo, d');
    assert Fb(geo, d', at) == Fb(geo, d, at);
  }

  lemma ReadyAgain(geo: Geometry, d: Disk, d': Disk)
    requires geo.Valid() && Ready(geo, d) && d' == d.(inode := d'.inode)
    ensures Ready(geo, d')
  {}
}
