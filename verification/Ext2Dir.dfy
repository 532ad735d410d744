/** Directory inodes: add-entry!, remove-entry! and set-dotdot! on the disk
    (lib/ext2.beer:622-684, 803-815). */
module Ext2Dir {
  import opened Bytes
  import opened Seqs
  import opened Ext2Disk
  import opened Ext2Alloc
  import opened Ext2Space
  import opened Ext2BlockMap
  import opened Ext2BuildMap
  import opened Ext2FileData
  import opened Ext2DirBlock
  import opened Ext2DirData
  import opened Ext2Store

  function Fb(geo: Geometry, d: Disk, i: nat): seq<nat>
    requires geo.Valid() && Fits(geo, d) && i <= geo.inodes
  {
    FileBlocks(geo.bs, d.data, d.inode[i])
  }

  /** A directory of whole blocks, none of them a hole, tiled by records, with no
      triple indirect block. */
  ghost predicate DirOK(geo: Geometry, d: Disk, i: nat)
    requires geo.Valid() && Fits(geo, d)
  {
    && 1 <= i <= geo.inodes
    && var inode := d.inode[i]; var fb := Fb(geo, d, i);
    && inode.kind == Dir && 0 < |fb| && inode.size == |fb| * geo.bs
    && (forall k :: 0 <= k < |fb| ==> fb[k] != 0)
    && Words(inode.iblock)[14] == 0
    && DirBlocks(geo.filetype, geo.bs, d.data, fb)
  }

  /** The entries of directory i, in on-disk order. */
  ghost function Ents(geo: Geometry, d: Disk, i: nat): seq<Entry>
    requires geo.Valid() && Fits(geo, d) && DirOK(geo, d, i)
  {
    BlockEntries(geo.filetype, geo.bs, d.data, Fb(geo, d, i))
  }

  /** The bytes of file i: its blocks' contents cut at its size. */
  function FileBytes(geo: Geometry, d: Disk, i: nat): Bytes
    requires geo.Valid() && Fits(geo, d) && i <= geo.inodes
  {
    var all := BlocksBytes(geo.bs, d.data, Fb(geo, d, i));
    all[..Min(d.inode[i].size, |all|)]
  }

  /** dir-entries on the disk's bytes gives Ents. */
  lemma DirEntriesIs(geo: Geometry, d: Disk, i: nat)
    requires geo.Valid() && Fits(geo, d) && DirOK(geo, d, i)
    ensures |FileBytes(geo, d, i)| == d.inode[i].size
    ensures DirWalk(geo.filetype, FileBytes(geo, d, i), 0) == Ok(Ents(geo, d, i))
  {
    hide MapBlocks, DirWalk, BlocksBytes, BlockEntries, DirBlocks, Geometry.Valid, Ready;
    ReadyData(geo, d);
    WalkIsEntries(geo.filetype, geo.bs, d.data, Fb(geo, d, i));
    var all := BlocksBytes(geo.bs, d.data, Fb(geo, d, i));
    assert all[..|all|] == all;
  }

  lemma SameDir(geo: Geometry, d: Disk, d': Disk, i: nat)
    requires geo.Valid() && Fits(geo, d) && Fits(geo, d') && Same(geo, d, d', i)
    ensures d.inode[i].kind != Symlink ==> Fb(geo, d', i) == Fb(geo, d, i)
    ensures !FastSymlink(d.inode[i]) ==> FileBytes(geo, d', i) == FileBytes(geo, d, i)
    ensures DirOK(geo, d, i) ==> DirOK(geo, d', i) && Ents(geo, d', i) == Ents(geo, d, i)
  {
    hide MapBlocks, MapIndirect, BlocksBytes, Ready, Geometry.Valid, Words, CeilDiv, BlockEntries, DirBlocks;
    ReadyData(geo, d);
    ReadyData(geo, d');
    forall b: nat | b in Blocks(geo, d, i) && 0 < b < |d.data| ensures d'.data[b] == d.data[b] {
      assert NotHole(b);
      assert b in Own(geo, d, i);
    }
    BlocksSame(geo.bs, d.data, d'.data, d.inode[i]);
    if DirOK(geo, d, i) {
      forall b | b in Fb(geo, d, i) && 0 < b < |d.data| ensures d'.data[b] == d.data[b] {
        assert b in Blocks(geo, d, i);
      }
      BlockEntriesSame(geo.filetype, geo.bs, d.data, d'.data, Fb(geo, d, i));
    }
  }

  // ---- rewriting one block of a directory ----

  /** Only the contents of data block k of i changed, to buf. */
  function LeafWritten(geo: Geometry, d: Disk, i: nat, k: nat, buf: Bytes): Disk
    requires geo.Valid() && Fits(geo, d) && i <= geo.inodes
    requires k < |Fb(geo, d, i)| && Fb(geo, d, i)[k] < |d.data|
  {
    d.(data := d.data[Fb(geo, d, i)[k] := buf])
  }

  lemma LeafApart(geo: Geometry, d: Disk, i: nat, k: nat)
    requires geo.Valid() && Fits(geo, d) && OwnsWell(geo, d, i) && d.inode[i].kind == Dir
    requires k < |Fb(geo, d, i)| && Fb(geo, d, i)[k] != 0
    ensures var b := Fb(geo, d, i)[k];
            && b in Own(geo, d, i) && geo.DataBlock(b) && b < |d.data|
            && b !in MapIndirect(geo.bs, d.data, Words(d.inode[i].iblock))
            && (forall m :: 0 <= m < |Fb(geo, d, i)| && m != k ==> Fb(geo, d, i)[m] != b)
  {
    hide MapBlocks, MapIndirect, Ready, Words, CeilDiv;
    ReadyData(geo, d);
    var fb := Fb(geo, d, i);
    var ind := MapIndirect(geo.bs, d.data, Words(d.inode[i].iblock));
    var b := fb[k];
    assert NotHole(b);
    assert b in Blocks(geo, d, i) by { assert b in fb; }
    IndirectNotHoles(geo.bs, d.data, Words(d.inode[i].iblock));
    FilterConcat(fb, ind, NotHole);
    NoDupSplit(Filter(fb, NotHole), Filter(ind, NotHole));
    assert b in Filter(fb, NotHole);
    forall m | 0 <= m < |fb| && m != k ensures fb[m] != b { FilterUnique(fb, k, m); }
  }

  lemma FilterApart(a: seq<nat>, b: seq<nat>, x: nat)
    requires NoDup(Filter(a + b, NotHole)) && x in a && x != 0
    ensures x !in b
  {
    hide Filter;
    FilterConcat(a, b, NotHole);
    NoDupSplit(Filter(a, NotHole), Filter(b, NotHole));
    assert NotHole(x);
    assert x in Filter(a, NotHole);
  }

  lemma FilterUnique(s: seq<nat>, k: nat, m: nat)
    requires k < |s| && m < |s| && k != m && NoDup(Filter(s, NotHole)) && s[k] != 0
    ensures s[m] != s[k]
  {
    hide Filter;
    var j := Max(k, m);
    var a, b := s[..j], s[j..];
    assert s == a + b;
    assert b[0] == s[j] && a[Min(k, m)] == s[Min(k, m)];
    if s[Min(k, m)] != 0 { FilterApart(a, b, s[Min(k, m)]); }
  }

  lemma LeafBlocks(geo: Geometry, d: Disk, i: nat, k: nat, buf: Bytes)
    requires geo.Valid() && Fits(geo, d) && OwnsWell(geo, d, i) && d.inode[i].kind == Dir && |buf| == geo.bs
    requires k < |Fb(geo, d, i)| && 0 < Fb(geo, d, i)[k] < |d.data|
    ensures var d' := LeafWritten(geo, d, i, k, buf);
            && Fits(geo, d') && Fb(geo, d', i) == Fb(geo, d, i)
            && Blocks(geo, d', i) == Blocks(geo, d, i) && OwnsWell(geo, d', i) && Own(geo, d', i) == Own(geo, d, i)
  {
    hide MapBlocks, MapIndirect, BlockCounts, MetaUsed, Words, CeilDiv, BitmapsFit;
    LeafApart(geo, d, i, k);
    var d' := LeafWritten(geo, d, i, k, buf);
    SameGroups(geo, d, d');
    var words := Words(d.inode[i].iblock);
    MapSame(geo.bs, d.data, d'.data, words, CeilDiv(d.inode[i].size, geo.bs));
  }

  lemma LeafStep(geo: Geometry, d: Disk, live: set<nat>, spare: set<nat>, i: nat, k: nat, buf: Bytes)
    requires geo.Valid() && Store(geo, d, live, spare) && i in live && d.inode[i].kind == Dir && |buf| == geo.bs
    requires Fits(geo, d) && i <= geo.inodes && k < |Fb(geo, d, i)| && Fb(geo, d, i)[k] != 0
    ensures 0 < Fb(geo, d, i)[k] < |d.data| && geo.DataBlock(Fb(geo, d, i)[k])
    ensures var d' := LeafWritten(geo, d, i, k, buf);
            && Store(geo, d', live, spare) && Fits(geo, d') && Kept(geo, d, d', live - {i})
            && Fb(geo, d', i) == Fb(geo, d, i)
  {
    hide Blocks, Own, Geometry.Valid, Fb, Owned, UsedBit, Ready;
    OwnsWellIs(geo, d, live, spare, i);
    LeafApart(geo, d, i, k);
    var d' := LeafWritten(geo, d, i, k, buf);
    LeafBlocks(geo, d, i, k, buf);
    Detach(geo, d, live, spare, i);
    FitsData(geo, d');
    WriteStep(geo, d, d'.data, live - {i}, spare + Own(geo, d, i));
    Attach(geo, d', live - {i}, spare + Own(geo, d, i), i);
    assert live - {i} + {i} == live;
    assert spare + Own(geo, d, i) - Own(geo, d, i) == spare;
  }

  lemma FitsData(geo: Geometry, d: Disk)
    requires geo.Valid() && Fits(geo, d)
    ensures DataFit(geo.bs, d.data) && |d.data| == geo.blocks && |d.inode| == geo.inodes + 1
    ensures forall i :: 0 <= i < |d.inode| ==> |d.inode[i].iblock| == 60
  {
    hide BlockCounts, MetaUsed;
  }

  lemma OwnsWellIs(geo: Geometry, d: Disk, live: set<nat>, spare: set<nat>, i: nat)
    requires geo.Valid() && Store(geo, d, live, spare) && i in live
    ensures Fits(geo, d) && OwnsWell(geo, d, i) && 1 <= i <= geo.inodes
  {
    hide Fits, Own, Used, Blocks, Geometry.Valid;
  }

  /** The entries of a directory around one of its blocks. */
  lemma EntsAround(ft: bool, bs: nat, data: seq<Bytes>, fb: seq<nat>, k: nat)
    requires DataFit(bs, data) && DirBlocks(ft, bs, data, fb) && k < |fb|
    ensures DirBlocks(ft, bs, data, fb[..k]) && DirBlocks(ft, bs, data, fb[k + 1..])
    ensures Tiles(ft, ReadBlock(bs, data, fb[k]), 0)
    ensures BlockEntries(ft, bs, data, fb)
         == BlockEntries(ft, bs, data, fb[..k]) + Entries(ft, ReadBlock(bs, data, fb[k]), 0)
            + BlockEntries(ft, bs, data, fb[k + 1..])
  {
    hide Tiles, Entries, ReadBlock;
    var one := [fb[k]];
    assert fb == fb[..k] + (one + fb[k + 1..]);
    DirBlocksSplit(ft, bs, data, fb[..k], one + fb[k + 1..]);
    DirBlocksSplit(ft, bs, data, one, fb[k + 1..]);
    BlockEntriesConcat(ft, bs, data, fb[..k], one + fb[k + 1..]);
    BlockEntriesConcat(ft, bs, data, one, fb[k + 1..]);
    OneEntries(ft, bs, data, fb[k]);
    var x, y, z := BlockEntries(ft, bs, data, fb[..k]), BlockEntries(ft, bs, data, one), BlockEntries(ft, bs, data, fb[k + 1..]);
    assert x + (y + z) == x + y + z;
  }

  lemma OneEntries(ft: bool, bs: nat, data: seq<Bytes>, b: nat)
    requires DataFit(bs, data) && DirBlocks(ft, bs, data, [b])
    ensures Tiles(ft, ReadBlock(bs, data, b), 0)
    ensures BlockEntries(ft, bs, data, [b]) == Entries(ft, ReadBlock(bs, data, b), 0)
  {
    hide Tiles, Entries, ReadBlock;
    assert [b][0] == b && [b][1..] == [];
    assert BlockEntries(ft, bs, data, []) == [];
  }

  lemma EntsAfterLeaf(ft: bool, bs: nat, data: seq<Bytes>, fb: seq<nat>, k: nat, buf: Bytes)
    requires DataFit(bs, data) && DirBlocks(ft, bs, data, fb) && k < |fb| && 0 < fb[k] < |data|
    requires forall m :: 0 <= m < |fb| && m != k ==> fb[m] != fb[k]
    requires |buf| == bs && Tiles(ft, buf, 0) && DataFit(bs, data[fb[k] := buf])
    ensures DirBlocks(ft, bs, data[fb[k] := buf], fb)
    ensures DirBlocks(ft, bs, data, fb[..k]) && DirBlocks(ft, bs, data, fb[k + 1..])
    ensures Tiles(ft, data[fb[k]], 0)
    ensures var pre, post := BlockEntries(ft, bs, data, fb[..k]), BlockEntries(ft, bs, data, fb[k + 1..]);
            && BlockEntries(ft, bs, data, fb) == pre + Entries(ft, data[fb[k]], 0) + post
            && BlockEntries(ft, bs, data[fb[k] := buf], fb) == pre + Entries(ft, buf, 0) + post
  {
    hide Tiles, Entries, BlockEntries;
    var data' := data[fb[k] := buf];
    forall m | 0 <= m < |fb|
      ensures ReadBlock(bs, data', fb[m]) == if m == k then buf else ReadBlock(bs, data, fb[m])
    {}
    EntsAround(ft, bs, data, fb, k);
    EntsAround(ft, bs, data', fb, k);
    BlockEntriesSame(ft, bs, data, data', fb[..k]);
    BlockEntriesSame(ft, bs, data, data', fb[k + 1..]);
  }

  /** A tiled block in place of block k keeps the directory well formed, and the
      entries of the other blocks. */
  lemma DirAfterLeaf(geo: Geometry, d: Disk, live: set<nat>, spare: set<nat>, i: nat, k: nat, buf: Bytes)
    requires geo.Valid() && Store(geo, d, live, spare) && i in live && Fits(geo, d) && DirOK(geo, d, i)
    requires |buf| == geo.bs && k < |Fb(geo, d, i)| && Tiles(geo.filetype, buf, 0)
    requires 0 < Fb(geo, d, i)[k] < |d.data| && DataFit(geo.bs, d.data)
    ensures var d' := LeafWritten(geo, d, i, k, buf);
            && Fits(geo, d') && DirOK(geo, d', i) && Fb(geo, d', i) == Fb(geo, d, i)
    ensures DirBlocks(geo.filetype, geo.bs, d.data, Fb(geo, d, i)[..k])
    ensures DirBlocks(geo.filetype, geo.bs, d.data, Fb(geo, d, i)[k + 1..])
    ensures Tiles(geo.filetype, d.data[Fb(geo, d, i)[k]], 0)
    ensures var ft, bs, fb := geo.filetype, geo.bs, Fb(geo, d, i);
            var pre, post := BlockEntries(ft, bs, d.data, fb[..k]), BlockEntries(ft, bs, d.data, fb[k + 1..]);
            && Ents(geo, d, i) == pre + Entries(ft, d.data[fb[k]], 0) + post
            && Ents(geo, LeafWritten(geo, d, i, k, buf), i) == pre + Entries(ft, buf, 0) + post
  {
    hide Tiles, Entries, Blocks, BlockEntries, DirBlocks, Geometry.Valid, MapBlocks, Ready, Words, Store, Own, Fb;
    var ft, bs, fb := geo.filetype, geo.bs, Fb(geo, d, i);
    OwnsWellIs(geo, d, live, spare, i);
    LeafApart(geo, d, i, k);
    LeafBlocks(geo, d, i, k, buf);
    FitsData(geo, LeafWritten(geo, d, i, k, buf));
    EntsAfterLeaf(ft, bs, d.data, fb, k, buf);
  }

  // ---- what an edit of directory `dir` leaves alone ----

  /** Inode counts and bitmaps, other inode records, and dir's own kind and link
      count. */
  ghost predicate OthersSame(d: Disk, d': Disk, dir: nat) {
    && d'.ibm == d.ibm && d'.sbFreeInodes == d.sbFreeInodes && |d'.gd| == |d.gd|
    && (forall g :: 0 <= g < |d.gd| ==>
          d'.gd[g].freeInodes == d.gd[g].freeInodes && d'.gd[g].usedDirs == d.gd[g].usedDirs)
    && |d'.inode| == |d.inode|
    && (forall j :: 0 <= j < |d.inode| && j != dir ==> d'.inode[j] == d.inode[j])
    && (dir < |d.inode| ==> d'.inode[dir].kind == d.inode[dir].kind && d'.inode[dir].links == d.inode[dir].links)
  }

  ghost predicate DirEdited(geo: Geometry, d: Disk, d': Disk, live: set<nat>, spare: set<nat>, dir: nat)
    requires geo.Valid()
  {
    && Store(geo, d', live, spare) && Fits(geo, d) && Fits(geo, d')
    && Kept(geo, d, d', live - {dir}) && DirOK(geo, d', dir) && OthersSame(d, d', dir)
  }

  ghost predicate NoneNamed(es: seq<Entry>, name: Bytes) {
    forall e :: e in es ==> !Named(e, name)
  }

  /** The first block of the directory has an entry of this name. */
  ghost predicate FirstBlockNames(geo: Geometry, d: Disk, dir: nat, name: Bytes)
    requires geo.Valid() && Fits(geo, d) && DirOK(geo, d, dir)
  {
    DirFirst(geo, d, dir);
    !NoneNamed(Entries(geo.filetype, ReadBlock(geo.bs, d.data, Fb(geo, d, dir)[0]), 0), name)
  }

  lemma DirFirst(geo: Geometry, d: Disk, dir: nat)
    requires geo.Valid() && Fits(geo, d) && DirOK(geo, d, dir)
    ensures DataFit(geo.bs, d.data) && |Fb(geo, d, dir)| > 0 && Fb(geo, d, dir)[0] != 0
    ensures Tiles(geo.filetype, ReadBlock(geo.bs, d.data, Fb(geo, d, dir)[0]), 0)
  {
    FitsData(geo, d);
  }

  /** Every name of the first block but `gone` is still there. */
  ghost predicate FirstKept(geo: Geometry, d: Disk, d': Disk, dir: nat, gone: set<Bytes>)
    requires geo.Valid() && Fits(geo, d) && DirOK(geo, d, dir) && Fits(geo, d') && DirOK(geo, d', dir)
  {
    forall x :: x !in gone && FirstBlockNames(geo, d, dir, x) ==> FirstBlockNames(geo, d', dir, x)
  }

  /** Directory dir was edited and its entries gained exactly e. */
  ghost predicate EntryAdded(geo: Geometry, d: Disk, d': Disk, live: set<nat>, spare: set<nat>, dir: nat, e: Entry)
    requires geo.Valid()
  {
    && DirEdited(geo, d, d', live, spare, dir) && DirOK(geo, d, dir)
    && Inserted(Ents(geo, d, dir), Ents(geo, d', dir), e)
    && FirstKept(geo, d, d', dir, {})
  }

  lemma InsertedNames(old_: seq<Entry>, new_: seq<Entry>, e: Entry, x: Bytes)
    requires Inserted(old_, new_, e) && !NoneNamed(old_, x)
    ensures !NoneNamed(new_, x)
  {
    hide Named;
    var k :| 0 <= k <= |old_| && new_ == old_[..k] + [e] + old_[k..];
    var f :| f in old_ && Named(f, x);
    var m :| 0 <= m < |old_| && old_[m] == f;
    assert new_[if m < k then m else m + 1] == f;
    assert f in new_;
  }

  /** Rewriting block k: what the first block names afterwards. */
  lemma LeafFirst(geo: Geometry, d: Disk, live: set<nat>, spare: set<nat>, dir: nat, k: nat, buf: Bytes, gone: set<Bytes>)
    requires geo.Valid() && DirIn(geo, d, live, spare, dir) && Fits(geo, d) && DirOK(geo, d, dir) && k < |Fb(geo, d, dir)|
    requires |buf| == geo.bs && Tiles(geo.filetype, buf, 0)
    requires 0 < Fb(geo, d, dir)[k] < |d.data| && DataFit(geo.bs, d.data)
    requires Tiles(geo.filetype, d.data[Fb(geo, d, dir)[k]], 0)
    requires forall x :: x !in gone && !NoneNamed(Entries(geo.filetype, d.data[Fb(geo, d, dir)[k]], 0), x)
               ==> !NoneNamed(Entries(geo.filetype, buf, 0), x)
    ensures var d' := LeafWritten(geo, d, dir, k, buf); Fits(geo, d') && DirOK(geo, d', dir)
    ensures FirstKept(geo, d, LeafWritten(geo, d, dir, k, buf), dir, gone)
  {
    hide Tiles, Entries, Blocks, BlockEntries, DirBlocks, Geometry.Valid, MapBlocks, Ready, Words, Store, Own, NoneNamed, DirOK, Fits, Fb, OwnsWell;
    DirInStoreHere(geo, d, live, spare, dir);
    DirAfterLeaf(geo, d, live, spare, dir, k, buf);
    LeafApart(geo, d, dir, k);
    DirFirst(geo, d, dir);
    DirFirst(geo, LeafWritten(geo, d, dir, k, buf), dir);
  }

  lemma DirInStoreHere(geo: Geometry, d: Disk, live: set<nat>, spare: set<nat>, dir: nat)
    requires geo.Valid() && DirIn(geo, d, live, spare, dir)
    ensures Store(geo, d, live, spare) && dir in live && Fits(geo, d) && DirOK(geo, d, dir) && OwnsWell(geo, d, dir)
    ensures dir <= geo.inodes && d.inode[dir].kind == Dir
  {
    hide Fits, Fb, Own, Used;
  }

  /** Directory dir of a consistent disk. */
  ghost predicate DirIn(geo: Geometry, d: Disk, live: set<nat>, spare: set<nat>, dir: nat)
    requires geo.Valid()
  {
    Store(geo, d, live, spare) && dir in live && Fits(geo, d) && DirOK(geo, d, dir)
  }

  /** Some block of the directory has room for the name. */
  ghost predicate HasSlot(geo: Geometry, d: Disk, dir: nat, name: Bytes)
    requires geo.Valid() && Fits(geo, d) && dir <= geo.inodes
  {
    exists k :: 0 <= k < |Fb(geo, d, dir)| && RoomAt(geo, d, Fb(geo, d, dir)[k], name)
  }

  ghost predicate RoomAt(geo: Geometry, d: Disk, b: nat, name: Bytes) {
    b < |d.data| && HasRoom(geo.filetype, d.data[b], Align4(8 + |name|))
  }

  /** What growing the directory by one block comes to with `free` blocks free: the new
      block, then a new map once the old indirect blocks are free. */
  ghost function GrowOutcome(geo: Geometry, d: Disk, free: nat, dir: nat): Result<nat>
    requires geo.Valid() && Fits(geo, d) && dir <= geo.inodes
  {
    FitsData(geo, d);
    if free == 0 then Err(DiskFull)
    else MapOutcome(geo, free - 1 + |MapIndirect(geo.bs, d.data, Words(d.inode[dir].iblock))|, |Fb(geo, d, dir)| + 1)
  }

  /** What add-entry! comes to with `free` blocks free: the number it leaves, or why it
      fails. */
  ghost function AddOutcome(geo: Geometry, d: Disk, free: nat, dir: nat, name: Bytes): (r: Result<nat>)
    requires geo.Valid() && Fits(geo, d) && dir <= geo.inodes
    ensures r.Err? ==> r.reason == DiskFull || r.reason == FileTooLarge
  {
    if HasSlot(geo, d, dir, name) then Ok(free) else GrowOutcome(geo, d, free, dir)
  }

  /** It depends on the directory alone. */
  lemma SameOutcome(geo: Geometry, d: Disk, d': Disk, free: nat, dir: nat, name: Bytes)
    requires geo.Valid() && Fits(geo, d) && Fits(geo, d') && Same(geo, d, d', dir) && DirOK(geo, d, dir)
    ensures AddOutcome(geo, d', free, dir, name) == AddOutcome(geo, d, free, dir, name)
    ensures HasSlot(geo, d', dir, name) <==> HasSlot(geo, d, dir, name)
  {
    hide MapBlocks, MapIndirect, Ready, Geometry.Valid, Words, CeilDiv, HasRoom, MapOutcome;
    FitsData(geo, d);
    FitsData(geo, d');
    SameDir(geo, d, d', dir);
    SameIndirect(geo, d, d', dir);
    forall k | 0 <= k < |Fb(geo, d, dir)|
      ensures RoomAt(geo, d', Fb(geo, d, dir)[k], name) <==> RoomAt(geo, d, Fb(geo, d, dir)[k], name)
    {
      LeafSame(geo, d, d', dir, k);
    }
  }

  /** The directory has room for the name without a new block. */
  ghost predicate Reusable(geo: Geometry, d: Disk, dir: nat, name: Bytes)
    requires geo.Valid()
  {
    Fits(geo, d) && DirOK(geo, d, dir) && HasSlot(geo, d, dir, name)
  }

  lemma ReusableKept(geo: Geometry, d: Disk, d': Disk, dir: nat, name: Bytes)
    requires geo.Valid() && Reusable(geo, d, dir, name) && Fits(geo, d') && Same(geo, d, d', dir)
    ensures Reusable(geo, d', dir, name)
  {
    hide Fits, HasSlot, Same, DirOK, Fb, Own, GrowOutcome;
    DirNumber(geo, d, dir);
    SameOutcome(geo, d, d', 0, dir, name);
    SameDir(geo, d, d', dir);
  }

  lemma DirNumber(geo: Geometry, d: Disk, dir: nat)
    requires geo.Valid() && Fits(geo, d) && DirOK(geo, d, dir)
    ensures 1 <= dir <= geo.inodes
  {
    hide Fits, Fb;
  }

  lemma SameIndirect(geo: Geometry, d: Disk, d': Disk, dir: nat)
    requires geo.Valid() && Fits(geo, d) && Fits(geo, d') && Same(geo, d, d', dir) && dir < |d.inode| && d.inode[dir].kind == Dir
    ensures DataFit(geo.bs, d.data) && DataFit(geo.bs, d'.data) && |d.inode[dir].iblock| == 60 && d'.inode[dir] == d.inode[dir]
    ensures MapIndirect(geo.bs, d'.data, Words(d.inode[dir].iblock)) == MapIndirect(geo.bs, d.data, Words(d.inode[dir].iblock))
  {
    hide MapBlocks, MapIndirect, Ready, Words, CeilDiv;
    FitsData(geo, d);
    FitsData(geo, d');
    var words := Words(d.inode[dir].iblock);
    IndirectNotHoles(geo.bs, d.data, words);
    forall b | b in MapIndirect(geo.bs, d.data, words) && b < |d.data| ensures d'.data[b] == d.data[b] {
      assert NotHole(b);
      assert b in Blocks(geo, d, dir);
      assert b in Own(geo, d, dir);
    }
    MapSame(geo.bs, d.data, d'.data, words, 0);
  }

  /** A data block of an unchanged directory. */
  lemma LeafSame(geo: Geometry, d: Disk, d': Disk, dir: nat, k: nat)
    requires geo.Valid() && Fits(geo, d) && Same(geo, d, d', dir) && DirOK(geo, d, dir) && k < |Fb(geo, d, dir)|
    ensures |d'.data| == |d.data|
    ensures Fb(geo, d, dir)[k] < |d.data| ==> d'.data[Fb(geo, d, dir)[k]] == d.data[Fb(geo, d, dir)[k]]
  {
    hide MapBlocks, MapIndirect, Ready, Words, CeilDiv, DirBlocks;
    var b := Fb(geo, d, dir)[k];
    assert NotHole(b);
    assert b in Fb(geo, d, dir);
    assert b in Blocks(geo, d, dir);
    assert b in Own(geo, d, dir);
  }

  ghost predicate EntryArgs(name: Bytes, ino: nat, t: nat) {
    1 <= |name| <= 255 && 0 < ino < 0x1_0000_0000 && t < 256
  }

  lemma DirInIs(geo: Geometry, d: Disk, live: set<nat>, spare: set<nat>, dir: nat)
    requires geo.Valid() && DirIn(geo, d, live, spare, dir)
    ensures Fits(geo, d) && 1 <= dir <= geo.inodes && d.inode[dir].kind == Dir
    ensures DataFit(geo.bs, d.data) && |d.data| == geo.blocks
    ensures forall k :: 0 <= k < |Fb(geo, d, dir)| ==>
              && 0 < Fb(geo, d, dir)[k] < |d.data| && geo.DataBlock(Fb(geo, d, dir)[k])
              && Tiles(geo.filetype, d.data[Fb(geo, d, dir)[k]], 0)
  {
    hide Tiles, MapBlocks, Blocks, Used, Words, Own;
    FitsData(geo, d);
    var fb := Fb(geo, d, dir);
    forall k | 0 <= k < |fb|
      ensures 0 < fb[k] < |d.data| && geo.DataBlock(fb[k]) && Tiles(geo.filetype, d.data[fb[k]], 0)
    {
      OwnsWellIs(geo, d, live, spare, dir);
      LeafApart(geo, d, dir, k);
      assert Tiles(geo.filetype, ReadBlock(geo.bs, d.data, fb[k]), 0);
    }
  }

  /** One rewritten block edits the directory. */
  lemma LeafEdited(geo: Geometry, d: Disk, live: set<nat>, spare: set<nat>, dir: nat, k: nat, buf: Bytes)
    requires geo.Valid() && DirIn(geo, d, live, spare, dir) && k < |Fb(geo, d, dir)|
    requires |buf| == geo.bs && Tiles(geo.filetype, buf, 0)
    requires 0 < Fb(geo, d, dir)[k] < |d.data| && DataFit(geo.bs, d.data)
    ensures DirEdited(geo, d, LeafWritten(geo, d, dir, k, buf), live, spare, dir)
    ensures Fb(geo, LeafWritten(geo, d, dir, k, buf), dir) == Fb(geo, d, dir)
    ensures DirIn(geo, LeafWritten(geo, d, dir, k, buf), live, spare, dir)
  {
    hide Tiles, Blocks, Geometry.Valid, MapBlocks, Ready, Words, Store, Own, BlockEntries, DirBlocks;
    OwnsWellIs(geo, d, live, spare, dir);
    LeafStep(geo, d, live, spare, dir, k, buf);
    DirAfterLeaf(geo, d, live, spare, dir, k, buf);
  }

  lemma LeafInserted(geo: Geometry, d: Disk, live: set<nat>, spare: set<nat>, dir: nat, k: nat, buf: Bytes, e: Entry)
    requires geo.Valid() && DirIn(geo, d, live, spare, dir) && k < |Fb(geo, d, dir)|
    requires 0 < Fb(geo, d, dir)[k] < |d.data| && |buf| == geo.bs && DataFit(geo.bs, d.data)
    requires Tiles(geo.filetype, d.data[Fb(geo, d, dir)[k]], 0) && Tiles(geo.filetype, buf, 0)
    requires Inserted(Entries(geo.filetype, d.data[Fb(geo, d, dir)[k]], 0), Entries(geo.filetype, buf, 0), e)
    ensures var d' := LeafWritten(geo, d, dir, k, buf);
            Fits(geo, d') && DirOK(geo, d', dir) && Inserted(Ents(geo, d, dir), Ents(geo, d', dir), e)
  {
    hide Tiles, Entries, Inserted, Blocks, Geometry.Valid, MapBlocks, Ready, Words, Store, Own, BlockEntries, DirBlocks, DirOK;
    DirInIs(geo, d, live, spare, dir);
    DirAfterLeaf(geo, d, live, spare, dir, k, buf);
    var ft := geo.filetype;
    var b := d.data[Fb(geo, d, dir)[k]];
    var d' := LeafWritten(geo, d, dir, k, buf);
    FitsData(geo, d);
    assert ReadBlock(geo.bs, d.data, Fb(geo, d, dir)[k]) == b;
    var pre := BlockEntries(ft, geo.bs, d.data, Fb(geo, d, dir)[..k]);
    var post := BlockEntries(ft, geo.bs, d.data, Fb(geo, d, dir)[k + 1..]);
    InsertedAfter(pre, Entries(ft, b, 0), Entries(ft, buf, 0), e);
    InsertedBefore(pre + Entries(ft, b, 0), pre + Entries(ft, buf, 0), e, post);
  }

  /** add-entry!'s search through the existing blocks. */
  method AddInPlace(fs: Volume, dir: nat, blocks: seq<nat>, name: Bytes, ino: nat, t: nat,
                    ghost live: set<nat>, ghost spare: set<nat>) returns (done: bool)
    requires fs.geo.Valid() && DirIn(fs.geo, fs.disk, live, spare, dir) && EntryArgs(name, ino, t)
    requires dir <= fs.geo.inodes && blocks == Fb(fs.geo, fs.disk, dir)
    modifies fs
    ensures Fits(fs.geo, old(fs.disk)) && (done <==> HasSlot(fs.geo, old(fs.disk), dir, name))
    ensures !done ==> fs.disk == old(fs.disk)
    ensures fs.disk.sbFreeBlocks == old(fs.disk).sbFreeBlocks
    ensures done ==>
      EntryAdded(fs.geo, old(fs.disk), fs.disk, live, spare, dir, NewEntry(fs.geo.filetype, name, ino, t))
  {
    hide Tiles, Entries, Geometry.Valid, DirIn, EntryAdded, DirOK, Fb, Ents, Room, Added, Fits, GoodRec, UsedLen, RecLen, HasRoom;
    var geo := fs.geo;
    ghost var d := fs.disk;
    var need := Align4(8 + |name|);
    var k := 0;
    DirInIs(geo, d, live, spare, dir);
    while k < |blocks|
      invariant 0 <= k <= |blocks| && fs.disk == d
      invariant forall m :: 0 <= m < k ==> !RoomAt(geo, d, blocks[m], name)
    {
      var blk := blocks[k];
      var buf := fs.disk.data[blk];
      var found, p := FindSlot(geo.filetype, buf, need);
      if found {
        assert RoomAt(geo, d, blocks[k], name);
        SlotUsed(geo, d, live, spare, dir, k, p, name, ino, t);
        WriteBlock(fs, blk, Added(geo.filetype, buf, p, ino, name, t));
        return true;
      }
      k := k + 1;
    }
    return false;
  }

  lemma SlotUsed(geo: Geometry, d: Disk, live: set<nat>, spare: set<nat>, dir: nat, k: nat, p: nat,
                 name: Bytes, ino: nat, t: nat)
    requires geo.Valid() && DirIn(geo, d, live, spare, dir) && EntryArgs(name, ino, t)
    requires k < |Fb(geo, d, dir)| && 0 < Fb(geo, d, dir)[k] < |d.data|
    requires var buf := d.data[Fb(geo, d, dir)[k]];
             && Tiles(geo.filetype, buf, 0) && p < |buf| && OnChain(geo.filetype, buf, 0, p)
             && Room(geo.filetype, buf, p, Align4(8 + |name|))
    ensures var buf := d.data[Fb(geo, d, dir)[k]];
            && GoodRec(geo.filetype, buf, p)
            && RecLen(buf, p) - UsedLen(geo.filetype, buf, p) >= 8 + |name|
            && var d' := LeafWritten(geo, d, dir, k, Added(geo.filetype, buf, p, ino, name, t));
            && EntryAdded(geo, d, d', live, spare, dir, NewEntry(geo.filetype, name, ino, t))
  {
    hide Tiles, Entries, Inserted, DirOK, Fb, Ents, Added, Fits, GoodRec, UsedLen, RecLen, Store, OnChain, NoneNamed, FirstKept, DirIn;
    DirInIs(geo, d, live, spare, dir);
    DirInStoreHere(geo, d, live, spare, dir);
    var ft := geo.filetype;
    var buf := d.data[Fb(geo, d, dir)[k]];
    AddInBlock(ft, buf, p, ino, name, t);
    LeafEdited(geo, d, live, spare, dir, k, Added(ft, buf, p, ino, name, t));
    LeafInserted(geo, d, live, spare, dir, k, Added(ft, buf, p, ino, name, t), NewEntry(ft, name, ino, t));
    forall x | !NoneNamed(Entries(ft, buf, 0), x) ensures !NoneNamed(Entries(ft, Added(ft, buf, p, ino, name, t), 0), x) {
      InsertedNames(Entries(ft, buf, 0), Entries(ft, Added(ft, buf, p, ino, name, t), 0), NewEntry(ft, name, ino, t), x);
    }
    LeafFirst(geo, d, live, spare, dir, k, Added(ft, buf, p, ino, name, t), {});
  }

  // ---- growing a directory by one block ----

  /** All of a directory's blocks, in the two parts that add-entry! handles. */
  lemma DirBlockParts(geo: Geometry, d: Disk, live: set<nat>, spare: set<nat>, dir: nat)
    requires geo.Valid() && DirIn(geo, d, live, spare, dir)
    ensures Fits(geo, d) && 1 <= dir <= geo.inodes
    ensures var fb, ind := Fb(geo, d, dir), MapIndirect(geo.bs, d.data, Words(d.inode[dir].iblock));
            && Own(geo, d, dir) == ToSet(fb) + ToSet(ind)
            && NoDup(fb) && NoDup(ind) && ToSet(fb) !! ToSet(ind)
            && Filter(ind, NotHole) == ind
            && (forall k :: 0 <= k < |fb| ==> 0 < fb[k] < geo.blocks)
  {
    hide MapBlocks, MapIndirect, Filter, Words, BlockEntries, DirBlocks, Tiles;
    DirInIs(geo, d, live, spare, dir);
    OwnsWellIs(geo, d, live, spare, dir);
    var fb, ind := Fb(geo, d, dir), MapIndirect(geo.bs, d.data, Words(d.inode[dir].iblock));
    IndirectNotHoles(geo.bs, d.data, Words(d.inode[dir].iblock));
    forall b | b in fb ensures NotHole(b) { }
    FilterAll(fb);
    FilterAll(ind);
    FilterConcat(fb, ind, NotHole);
    NoDupSplit(fb, ind);
  }

  /** The inode after its map was rebuilt over `data`. */
  function Remapped(bs: nat, inode: Inode, words: seq<nat>, size: nat, nblocks: nat): (r: Inode)
    requires |words| == 15 && |inode.iblock| == 60
    ensures |r.iblock| == 60
  {
    inode.(iblock := PutWords(inode.iblock, words),
           size := size % 0x1_0000_0000,
           sectors := (nblocks * (bs / 512)) % 0x1_0000_0000)
  }

  lemma RemappedWords(inode: Inode, words: seq<nat>)
    requires |words| == 15 && |inode.iblock| == 60 && forall k :: 0 <= k < 15 ==> words[k] < 0x1_0000_0000
    ensures Words(PutWords(inode.iblock, words)) == words
  {
    hide PutWords, U32;
    WordsOfPutWords(inode.iblock, words);
    assert Words(inode.iblock)[15..] == [];
  }

  /** An inode rewritten with a map that was just built owns exactly the map's
      blocks. */
  lemma RemappedOwns(geo: Geometry, d0: Disk, d: Disk, i: nat, data: seq<nat>, words: seq<nat>, ind: seq<nat>, v: Inode)
    requires geo.Valid() && MapBuilt(geo, d0, d, data, words, ind) && Fits(geo, d) && 1 <= i <= geo.inodes
    requires |v.iblock| == 60 && Words(v.iblock) == words && CeilDiv(v.size, geo.bs) == |data| && v.kind != Symlink
    requires v.sectors == Sectors(geo.bs, |data| + |ind|)
    requires NoDup(data) && forall b :: b in data ==> b != 0 && geo.DataBlock(b) && b !in ind
    ensures var d' := d.(inode := d.inode[i := v]);
            && Fits(geo, d') && Fb(geo, d', i) == data
            && OwnsWell(geo, d', i) && Own(geo, d', i) == ToSet(data) + ToSet(ind)
  {
    hide MapBlocks, MapIndirect, Words, Fits, Grew, CeilDiv, Filter, OwnsWell, Own, NoDup, Sectors, MapBuilt, Fb, Blocks, ToSet, Geometry.Valid;
    FitsData(geo, d);
    RemappedBlocks(geo, d0, d, i, data, words, ind, v);
    BuiltBlocks(geo, d0, d, data, words, ind);
    forall b | b in data + ind ensures NotHole(b) && geo.DataBlock(b) {}
    FilterAll(data + ind);
    NoDupConcat(data, ind);
    TwoPartsSize(data, ind);
    OwnsAll(geo, d.(inode := d.inode[i := v]), i, data, ind);
  }

  lemma RemappedBlocks(geo: Geometry, d0: Disk, d: Disk, i: nat, data: seq<nat>, words: seq<nat>, ind: seq<nat>, v: Inode)
    requires geo.Valid() && MapBuilt(geo, d0, d, data, words, ind) && Fits(geo, d) && 1 <= i <= geo.inodes
    requires |v.iblock| == 60 && Words(v.iblock) == words && CeilDiv(v.size, geo.bs) == |data| && v.kind != Symlink
    ensures var d' := d.(inode := d.inode[i := v]); Fits(geo, d') && Fb(geo, d', i) == data && Blocks(geo, d', i) == data + ind
  {
    hide MapBlocks, MapIndirect, Words, Ready, Grew, CeilDiv;
    SameReady(geo, d, d.(inode := d.inode[i := v]));
  }

  lemma BuiltBlocks(geo: Geometry, d0: Disk, d: Disk, data: seq<nat>, words: seq<nat>, ind: seq<nat>)
    requires geo.Valid() && MapBuilt(geo, d0, d, data, words, ind)
    ensures NoDup(ind) && forall b :: b in ind ==> b != 0 && geo.DataBlock(b)
  {
    hide MapBlocks, MapIndirect, Words, Ready, Grew, CeilDiv, Filter, NoDup;
    GrewIs(geo, d0, d, ToSet(ind));
  }

  lemma OwnsAll(geo: Geometry, d: Disk, i: nat, data: seq<nat>, ind: seq<nat>)
    requires geo.Valid() && Fits(geo, d) && 1 <= i <= geo.inodes && Blocks(geo, d, i) == data + ind
    requires Filter(data + ind, NotHole) == data + ind && NoDup(data + ind) && forall b :: b in data + ind ==> geo.DataBlock(b)
    requires |ToSet(data) + ToSet(ind)| == |data| + |ind| && d.inode[i].sectors == Sectors(geo.bs, |data| + |ind|)
    ensures OwnsWell(geo, d, i) && Own(geo, d, i) == ToSet(data) + ToSet(ind)
  {
    hide Fits, Blocks, Filter, NoDup, Sectors, ToSet, Geometry.DataBlock, Geometry.Valid;
    ToSetBoth(data, ind);
    forall b | b in Own(geo, d, i) ensures geo.DataBlock(b) { InToSet(data + ind, b); }
  }

  lemma ToSetBoth(a: seq<nat>, b: seq<nat>)
    ensures ToSet(a + b) == ToSet(a) + ToSet(b)
  {}

  lemma InToSet(s: seq<nat>, b: nat)
    ensures b in ToSet(s) <==> b in s
  {}

  lemma TwoPartsSize(a: seq<nat>, b: seq<nat>)
    requires NoDup(a) && NoDup(b) && forall x :: x in a ==> x !in b
    ensures |ToSet(a) + ToSet(b)| == |a| + |b|
  {
    NoDupSize(a);
    NoDupSize(b);
    assert ToSet(a) !! ToSet(b);
  }

  lemma SameReady(geo: Geometry, d: Disk, d': Disk)
    requires geo.Valid() && Ready(geo, d) && d' == d.(inode := d'.inode)
    ensures Ready(geo, d')
  {
    hide FreeGroup, SumFree, UsedBit;
  }

  /** What growing has reached: the old blocks and the new one are in hand, the
      old indirect blocks are free again, and nothing that was there changed. */
  ghost predicate Growing(geo: Geometry, d0: Disk, d: Disk, live: set<nat>, spare: set<nat>, dir: nat, blk: nat, buf: Bytes)
    requires geo.Valid() && Fits(geo, d0) && dir <= geo.inodes
  {
    && Store(geo, d, live - {dir}, spare + ToSet(Fb(geo, d0, dir)) + {blk})
    && Fits(geo, d) && Kept(geo, d0, d, live - {dir}) && OthersSame(d0, d, dir)
    && d.inode[dir] == d0.inode[dir]
    && blk !in Fb(geo, d0, dir) && blk !in spare && 0 < blk < |d.data| && d.data[blk] == buf
    && |d.data| == |d0.data|
    && (forall b :: b in Fb(geo, d0, dir) && b < |d0.data| ==> d.data[b] == d0.data[b])
  }

  lemma OthersSameAlloc(d: Disk, d': Disk, dir: nat)
    requires OnlyBlockBits(d.(data := d'.data), d')
    ensures OthersSame(d, d', dir)
  {}

  lemma OthersSameAgain(d: Disk, d1: Disk, d2: Disk, dir: nat)
    requires OthersSame(d, d1, dir) && OthersSame(d1, d2, dir)
    ensures OthersSame(d, d2, dir)
  {}

  lemma GrewOnly(geo: Geometry, d: Disk, d': Disk, s: set<nat>)
    requires geo.Valid() && Grew(geo, d, d', s)
    ensures OnlyBlockBits(d.(data := d'.data), d')
  {
    hide Ready, BitsNow, OnlyBlockBits;
  }

  lemma FreshBlock(geo: Geometry, d: Disk, live: set<nat>, spare: set<nat>, dir: nat, blk: nat)
    requires geo.Valid() && DirIn(geo, d, live, spare, dir)
    requires BitmapsFit(geo, d.bbm) && blk !in Used(geo, d.bbm)
    ensures Fits(geo, d) && dir <= geo.inodes
    ensures blk !in Own(geo, d, dir) && blk !in spare && blk !in Fb(geo, d, dir)
    ensures Own(geo, d, dir) !! spare
  {
    hide Own, Used, DirOK, Ready, Fb, OwnsWell;
    DirBlockParts(geo, d, live, spare, dir);
    SpareUsed(geo, d, live, spare);
    forall b | b in Own(geo, d, dir) ensures b in Used(geo, d.bbm) && b !in spare {
      OwnedIsUsed(geo, d, live, spare, dir, b);
    }
    assert forall b :: b in Fb(geo, d, dir) ==> b in Own(geo, d, dir);
  }

  lemma WrittenFit(bs: nat, data: seq<Bytes>, blk: nat, buf: Bytes)
    requires DataFit(bs, data) && blk < |data| && |buf| == bs
    ensures DataFit(bs, data[blk := buf])
  {}

  lemma HandMinus(spare: set<nat>, fb: set<nat>, ind: set<nat>, blk: nat)
    requires fb !! ind && fb + ind !! spare && blk !in ind
    ensures spare + {blk} + (fb + ind) - ind == spare + fb + {blk}
  {}

  /** After the new block was taken, written, and the old indirect blocks freed. */
  lemma GrowingNow(geo: Geometry, d0: Disk, d1: Disk, d2: Disk, d3: Disk, live: set<nat>, spare: set<nat>, dir: nat,
                   blk: nat, buf: Bytes)
    requires geo.Valid() && DirIn(geo, d0, live, spare, dir)
    requires Grew(geo, d0, d1, {blk}) && |buf| == geo.bs
    requires blk < |d1.data| && d2 == d1.(data := d1.data[blk := buf])
    requires BlockCounts(geo, d3) && OnlyBlockBits(d2, d3) && BitmapsFit(geo, d2.bbm)
    requires dir < |d0.inode| && |d0.inode[dir].iblock| == 60 && DataFit(geo.bs, d0.data)
    requires Used(geo, d3.bbm) == Used(geo, d2.bbm) - ToSet(MapIndirect(geo.bs, d0.data, Words(d0.inode[dir].iblock)))
    ensures Fits(geo, d0) && dir <= geo.inodes && Growing(geo, d0, d3, live, spare, dir, blk, buf)
  {
    hide Grew, Fb, Ready, MapIndirect, Words, DirOK, Used, Owned, OwnsWell, Own, DataFit;
    var fb, ind := Fb(geo, d0, dir), MapIndirect(geo.bs, d0.data, Words(d0.inode[dir].iblock));
    DirBlockParts(geo, d0, live, spare, dir);
    GrewIs(geo, d0, d1, {blk});
    GrewOnly(geo, d0, d1, {blk});
    GrowStep(geo, d0, d1, live, spare, {blk});
    FreshBlock(geo, d0, live, spare, dir, blk);
    StoreFits(geo, d1, live, spare + {blk});
    WrittenFit(geo.bs, d1.data, blk, buf);
    WriteStep(geo, d1, d2.data, live, spare + {blk});
    KeptAgain(geo, d0, d1, d2, live);
    Detach(geo, d2, live, spare + {blk}, dir);
    SameBlocks(geo, d0, d2, dir);
    var hand := spare + {blk} + Own(geo, d2, dir);
    FreeStep(geo, d2, d3, live - {dir}, hand, ToSet(ind));
    KeptAgain(geo, d0, d2, d3, live - {dir});
    HandMinus(spare, ToSet(fb), ToSet(ind), blk);
    OthersSameAlloc(d2, d3, dir);
    OthersSameAgain(d0, d2, d3, dir);
  }

  /** The map over the old blocks and the new one can be built. */
  lemma GrowingNumbers(geo: Geometry, d0: Disk, d: Disk, live: set<nat>, spare: set<nat>, dir: nat, blk: nat, buf: Bytes)
    requires geo.Valid() && DirIn(geo, d0, live, spare, dir)
    requires Fits(geo, d0) && dir <= geo.inodes && Growing(geo, d0, d, live, spare, dir, blk, buf)
    ensures Ready(geo, d) && BlockNumbers(geo, Fb(geo, d0, dir) + [blk])
    ensures NoDup(Fb(geo, d0, dir) + [blk])
    ensures BitmapsFit(geo, d.bbm)
    ensures forall b :: b in Fb(geo, d0, dir) + [blk] ==> b != 0 && geo.DataBlock(b) && b in Used(geo, d.bbm)
  {
    hide Fb, Own, Used, Ready, DirIn, Owned, OwnsWell;
    var fb := Fb(geo, d0, dir);
    DirBlockParts(geo, d0, live, spare, dir);
    StoreFits(geo, d, live - {dir}, spare + ToSet(fb) + {blk});
    SpareUsed(geo, d, live - {dir}, spare + ToSet(fb) + {blk});
    NoDupConcat(fb, [blk]);
    forall b | b in fb + [blk] ensures b != 0 && b in spare + ToSet(fb) + {blk} {
      if b in fb { var k :| 0 <= k < |fb| && fb[k] == b; }
    }
  }

  lemma GrowDoneStore(geo: Geometry, d0: Disk, d3: Disk, d4: Disk, live: set<nat>, spare: set<nat>, dir: nat,
                      blk: nat, buf: Bytes, words: seq<nat>, ind: seq<nat>, v: Inode)
    requires geo.Valid() && DirIn(geo, d0, live, spare, dir)
    requires Fits(geo, d0) && dir <= geo.inodes && Growing(geo, d0, d3, live, spare, dir, blk, buf)
    requires MapBuilt(geo, d3, d4, Fb(geo, d0, dir) + [blk], words, ind)
    requires |v.iblock| == 60 && Words(v.iblock) == words && v.kind == Dir && v.sectors == Sectors(geo.bs, |Fb(geo, d0, dir)| + 1 + |ind|)
    requires CeilDiv(v.size, geo.bs) == |Fb(geo, d0, dir)| + 1
    requires dir < |d4.inode|
    ensures var d5 := d4.(inode := d4.inode[dir := v]);
            && Store(geo, d5, live, spare) && Fits(geo, d5) && Kept(geo, d0, d5, live - {dir})
            && Fb(geo, d5, dir) == Fb(geo, d0, dir) + [blk]
            && |d5.data| == |d0.data| && blk < |d5.data| && d5.data[blk] == buf
            && (forall b :: b in Fb(geo, d0, dir) && b < |d0.data| ==> d5.data[b] == d0.data[b])
  {
    hide Fb, Own, Used, Ready, DirOK, Owned, OwnsWell, MapBlocks, MapIndirect, Words, CeilDiv, Grew, BitmapsFit, Same, Geometry.Valid, Sectors;
    var fb := Fb(geo, d0, dir);
    var data := fb + [blk];
    var d5 := d4.(inode := d4.inode[dir := v]);
    var L := live - {dir};
    var hand := spare + ToSet(fb) + {blk};
    GrowingNumbers(geo, d0, d3, live, spare, dir, blk, buf);
    GrewIs(geo, d3, d4, ToSet(ind));
    DirInIs(geo, d0, live, spare, dir);
    forall b | b in data ensures b !in ind && d4.data[b] == d3.data[b] {
      assert b in Used(geo, d3.bbm);
      assert b !in ToSet(ind);
      InBounds(geo, data, b);
    }
    GrowStep(geo, d3, d4, L, hand, ToSet(ind));
    StoreFits(geo, d4, L, hand + ToSet(ind));
    StoreFits(geo, d3, L, hand);
    KeptAgain(geo, d0, d3, d4, L);
    RemappedOwns(geo, d3, d4, dir, data, words, ind, v);
    InodeStep(geo, d4, L, hand + ToSet(ind), dir, v);
    KeptAgain(geo, d0, d4, d5, L);
    Attach(geo, d5, L, hand + ToSet(ind), dir);
    assert L + {dir} == live;
    HandBack(geo, d0, d3, live, spare, dir, blk, buf, ind);
    assert blk in data;
    forall b | b in fb && b < |d0.data| ensures d5.data[b] == d0.data[b] { assert b in data; }
  }

  lemma InBounds(geo: Geometry, s: seq<nat>, b: nat)
    requires BlockNumbers(geo, s) && b in s
    ensures b < geo.blocks
  {}

  lemma HandBack(geo: Geometry, d0: Disk, d3: Disk, live: set<nat>, spare: set<nat>, dir: nat, blk: nat, buf: Bytes, ind: seq<nat>)
    requires geo.Valid() && DirIn(geo, d0, live, spare, dir)
    requires Fits(geo, d0) && dir <= geo.inodes && Growing(geo, d0, d3, live, spare, dir, blk, buf)
    requires BitmapsFit(geo, d3.bbm) && forall b :: b in ind ==> b !in Used(geo, d3.bbm)
    ensures var fb := Fb(geo, d0, dir);
            spare + ToSet(fb) + {blk} + ToSet(ind) - (ToSet(fb + [blk]) + ToSet(ind)) == spare
  {
    hide Fb, Own, Used, Ready, DirOK, OwnsWell, Owned, BitmapsFit;
    var fb := Fb(geo, d0, dir);
    SpareUsed(geo, d3, live - {dir}, spare + ToSet(fb) + {blk});
    DirBlockParts(geo, d0, live, spare, dir);
    forall b | b in fb ensures b !in spare {
      assert b in Own(geo, d0, dir);
      OwnedIsUsed(geo, d0, live, spare, dir, b);
    }
  }

  lemma GrownSize(geo: Geometry, n: nat)
    requires geo.Valid() && n * geo.bs < 0x1_0000_0000
    ensures (n * geo.bs) % 0x1_0000_0000 == n * geo.bs && CeilDiv(n * geo.bs, geo.bs) == n
  {
    CeilIs(geo.bs, n * geo.bs, n, 0);
  }

  lemma GrowDone(geo: Geometry, d0: Disk, d3: Disk, d4: Disk, live: set<nat>, spare: set<nat>, dir: nat,
                 blk: nat, buf: Bytes, words: seq<nat>, ind: seq<nat>, e: Entry, n: nat, size: nat)
    requires size == n * geo.bs < 0x1_0000_0000
    requires dir < |d4.inode| && dir < |d0.inode| && d4.inode[dir] == d0.inode[dir] && |d0.inode[dir].iblock| == 60
    requires |words| == 15
    requires geo.Valid() && DirIn(geo, d0, live, spare, dir)
    requires Fits(geo, d0) && dir <= geo.inodes && n == |Fb(geo, d0, dir)| + 1
    requires |buf| == geo.bs && Tiles(geo.filetype, buf, 0) && Entries(geo.filetype, buf, 0) == [e]
    requires OthersSame(d3, d4, dir)
    requires Growing(geo, d0, d3, live, spare, dir, blk, buf)
    requires MapBuilt(geo, d3, d4, Fb(geo, d0, dir) + [blk], words, ind)
    ensures EntryAdded(geo, d0, d4.(inode := d4.inode[dir := Remapped(geo.bs, d0.inode[dir], words, size, n + |ind|)]),
                       live, spare, dir, e)
  {
    hide Own, Used, Ready, MapBlocks, MapIndirect, Words, CeilDiv, Grew, BitmapsFit, Store, Tiles, Entries, PutWords,
         BlockEntries, Kept, U32, Inserted, FirstBlockNames;
    var fb := Fb(geo, d0, dir);
    var v := Remapped(geo.bs, d0.inode[dir], words, size, n + |ind|);
    var d5 := d4.(inode := d4.inode[dir := v]);
    GrownSize(geo, n);
    RemappedWords(d0.inode[dir], words);
    DirInIs(geo, d0, live, spare, dir);
    GrowDoneStore(geo, d0, d3, d4, live, spare, dir, blk, buf, words, ind, v);
    OthersSameAgain(d0, d3, d4, dir);
    GrowEntries(geo, d0, d5, dir, blk, buf, e);
    GrewMore(fb, blk);
    InsertedLast(Ents(geo, d0, dir), e);
    GrowFirst(geo, d0, d5, dir, blk);
  }

  lemma GrowFirst(geo: Geometry, d0: Disk, d5: Disk, dir: nat, blk: nat)
    requires geo.Valid() && Fits(geo, d0) && Fits(geo, d5) && DirOK(geo, d0, dir) && DirOK(geo, d5, dir)
    requires Fb(geo, d5, dir) == Fb(geo, d0, dir) + [blk] && |d5.data| == |d0.data|
    requires forall b :: b in Fb(geo, d0, dir) && b < |d0.data| ==> d5.data[b] == d0.data[b]
    ensures FirstKept(geo, d0, d5, dir, {})
  {
    hide Fb, Tiles, Entries, NoneNamed, Fits, DirOK, Geometry.Valid;
    DirFirst(geo, d0, dir);
    DirFirst(geo, d5, dir);
  }

  lemma InsertedLast(es: seq<Entry>, e: Entry)
    ensures Inserted(es, es + [e], e)
  {
    assert es + [e] == es[..|es|] + [e] + es[|es|..];
  }

  lemma GrewMore(fb: seq<nat>, blk: nat)
    requires blk != 0 && forall k :: 0 <= k < |fb| ==> fb[k] != 0
    ensures forall k :: 0 <= k < |fb + [blk]| ==> (fb + [blk])[k] != 0
  {}

  lemma GrowEntries(geo: Geometry, d0: Disk, d5: Disk, dir: nat, blk: nat, buf: Bytes, e: Entry)
    requires geo.Valid() && Fits(geo, d0) && Fits(geo, d5) && DirOK(geo, d0, dir) && dir <= geo.inodes
    requires |d5.data| == |d0.data| && 0 < blk < |d5.data| && d5.data[blk] == buf
    requires forall b :: b in Fb(geo, d0, dir) && b < |d0.data| ==> d5.data[b] == d0.data[b]
    requires Tiles(geo.filetype, buf, 0) && Entries(geo.filetype, buf, 0) == [e]
    requires DataFit(geo.bs, d5.data)
    ensures DirBlocks(geo.filetype, geo.bs, d5.data, Fb(geo, d0, dir) + [blk])
    ensures BlockEntries(geo.filetype, geo.bs, d5.data, Fb(geo, d0, dir) + [blk]) == Ents(geo, d0, dir) + [e]
  {
    hide Ready, MapBlocks, Words, Tiles, Entries, Geometry.Valid, CeilDiv;
    var ft, bs, fb := geo.filetype, geo.bs, Fb(geo, d0, dir);
    FitsData(geo, d0);
    BlockEntriesSame(ft, bs, d0.data, d5.data, fb);
    assert ReadBlock(bs, d5.data, [blk][0]) == buf;
    DirBlocksSplit(ft, bs, d5.data, fb, [blk]);
    BlockEntriesConcat(ft, bs, d5.data, fb, [blk]);
    OneEntries(ft, bs, d5.data, blk);
  }

  lemma NotGrown(geo: Geometry, d: Disk, live: set<nat>, spare: set<nat>, dir: nat)
    requires geo.Valid() && DirIn(geo, d, live, spare, dir)
    ensures Fits(geo, d) && Kept(geo, d, d, live - {dir})
  {
    hide Store, Fits, DirOK, Kept;
    KeptNow(geo, d, live, spare);
    KeptFewer(geo, d, d, live, live - {dir});
  }

  /** Without blocks for the new map the directory is left without its old indirect ones;
      the other inodes are as they were. */
  lemma GrowFailed(geo: Geometry, d0: Disk, d3: Disk, d4: Disk, live: set<nat>, spare: set<nat>, dir: nat, blk: nat, buf: Bytes, ind: seq<nat>)
    requires geo.Valid() && Fits(geo, d0) && dir <= geo.inodes && Growing(geo, d0, d3, live, spare, dir, blk, buf)
    requires d4 == d3 || Grew(geo, d3, d4, ToSet(ind))
    ensures Fits(geo, d4) && Kept(geo, d0, d4, live - {dir})
  {
    hide Store, Fits, Fb, Grew, Kept, OthersSame;
    if d4 != d3 {
      var hand := spare + ToSet(Fb(geo, d0, dir)) + {blk};
      GrowStep(geo, d3, d4, live - {dir}, hand, ToSet(ind));
      StoreFits(geo, d4, live - {dir}, hand + ToSet(ind));
      KeptAgain(geo, d0, d3, d4, live - {dir});
    }
  }

  /** add-entry!'s last resort: a new block at the end, under a new map.  When it fails,
      every other inode is as before. */
  method GrowDir(fs: Volume, dir: nat, blocks: seq<nat>, name: Bytes, ino: nat, t: nat,
                 ghost live: set<nat>, ghost spare: set<nat>) returns (r: Result<()>)
    requires fs.geo.Valid() && DirIn(fs.geo, fs.disk, live, spare, dir) && EntryArgs(name, ino, t)
    requires 1 <= dir <= fs.geo.inodes && Fits(fs.geo, fs.disk) && blocks == Fb(fs.geo, fs.disk, dir)
    requires (|blocks| + 1) * fs.geo.bs < 0x1_0000_0000
    modifies fs
    ensures r.Ok? ==>
      EntryAdded(fs.geo, old(fs.disk), fs.disk, live, spare, dir, NewEntry(fs.geo.filetype, name, ino, t))
    ensures Told(r, fs.disk.sbFreeBlocks) == GrowOutcome(fs.geo, old(fs.disk), old(fs.disk).sbFreeBlocks, dir)
    ensures r.Err? ==> Fits(fs.geo, fs.disk) && Kept(fs.geo, old(fs.disk), fs.disk, live - {dir})
  {
    hide Own, Used, UsedBit, Ready, MapBlocks, MapIndirect, Words, CeilDiv, Grew, BitmapsFit, Store, Tiles, Entries, PutWords,
         BlockEntries, Kept, U32, EntryAdded, Growing, MapBuilt, DirIn, DirOK, PutEntry, Remapped, Freeable, BlockCounts,
         OnlyBlockBits, BitsNow, Fb, OthersSame, Geometry.Valid, Filter, Geometry.GroupOfInode, Fits, MapOutcome;
    var geo := fs.geo;
    ghost var d0 := fs.disk;
    GrowFacts(geo, d0, live, spare, dir);
    var goal := geo.GroupOfInode(dir);
    var oldWords := Words(fs.disk.inode[dir].iblock);
    var took := Take(fs, goal, 1);
    if took.Err? {
      NotGrown(geo, d0, live, spare, dir);
      return Err(took.reason);
    }
    var blk := took.value[0];
    ghost var d1 := fs.disk;
    assert ToSet(took.value) == {blk};
    TookFacts(geo, d0, d1, live, spare, dir, blk);
    var buf := PutEntry(geo.filetype, Zeros(geo.bs), 0, ino, geo.bs, name, t);
    GrownBlock(geo.filetype, geo.bs, ino, name, t);
    WriteBlock(fs, blk, buf);
    ghost var d2 := fs.disk;
    GrewWritten(geo, d0, d1, {blk}, blk, buf);
    FreeOldMap(geo, d0, d1, live, spare, dir, blk, buf);
    FreeBlocks(fs, MapIndirect(geo.bs, fs.disk.data, oldWords));
    ghost var d3 := fs.disk;
    CountedBitmaps(geo, d3);
    FreedOldMap(geo, d0, d2, d3, live, spare, dir);
    GrowingNow(geo, d0, d1, d2, d3, live, spare, dir, blk, buf);
    GrowingNumbers(geo, d0, d3, live, spare, dir, blk, buf);
    var built, ind := BuildMap(fs, goal, blocks + [blk]);
    if built.Err? {
      GrowFailed(geo, d0, d3, fs.disk, live, spare, dir, blk, buf, ind);
      return Err(built.reason);
    }
    ghost var d4 := fs.disk;
    BuiltFacts(geo, d0, d3, d4, live, spare, dir, blk, buf, built.value.0, ind);
    var n := |blocks| + 1;
    var v := Remapped(geo.bs, fs.disk.inode[dir], built.value.0, n * geo.bs, n + built.value.1);
    fs.disk := fs.disk.(inode := fs.disk.inode[dir := v]);
    GrowDone(geo, d0, d3, d4, live, spare, dir, blk, buf, built.value.0, ind, NewEntry(geo.filetype, name, ino, t), n, n * geo.bs);
    return Ok(());
  }

  lemma GrowFacts(geo: Geometry, d: Disk, live: set<nat>, spare: set<nat>, dir: nat)
    requires geo.Valid() && DirIn(geo, d, live, spare, dir)
    ensures Fits(geo, d) && 1 <= dir <= geo.inodes && Ready(geo, d) && geo.ipg > 0
    ensures geo.GroupOfInode(dir) < geo.ngroups
    ensures |d.inode| == geo.inodes + 1 && |d.inode[dir].iblock| == 60 && DataFit(geo.bs, d.data)
    ensures 1024 <= geo.bs < 0x1_0000 && geo.bs % 4 == 0
    ensures BitmapsFit(geo, d.bbm)
  {
    hide Own, UsedBit, FreeGroup, SumFree, DirOK, Owned, OwnsWell;
    InodeSplit(geo, dir);
  }

  lemma TookFacts(geo: Geometry, d0: Disk, d1: Disk, live: set<nat>, spare: set<nat>, dir: nat, blk: nat)
    requires geo.Valid() && DirIn(geo, d0, live, spare, dir) && Grew(geo, d0, d1, {blk})
    ensures 0 < blk < |d1.data| && geo.DataBlock(blk)
    ensures d1.inode == d0.inode && |d1.data| == |d0.data| && DataFit(geo.bs, d1.data)
  {
    hide Own, Used, Ready, DirOK, Owned, OwnsWell, Store;
    GrewIs(geo, d0, d1, {blk});
    GrewNumbers(geo, d0, d1, {blk}, [blk]);
    GrewFits(geo, d0, d1, {blk});
    assert [blk][0] == blk;
  }

  /** The old indirect blocks can be freed. */
  lemma FreeOldMap(geo: Geometry, d0: Disk, d1: Disk, live: set<nat>, spare: set<nat>, dir: nat, blk: nat, buf: Bytes)
    requires geo.Valid() && DirIn(geo, d0, live, spare, dir) && Grew(geo, d0, d1, {blk}) && |buf| == geo.bs
    requires blk < |d1.data| && dir < |d0.inode| && |d0.inode[dir].iblock| == 60 && DataFit(geo.bs, d0.data)
    ensures var d2 := d1.(data := d1.data[blk := buf]);
            var words := Words(d0.inode[dir].iblock);
            && DataFit(geo.bs, d2.data) && BlockCounts(geo, d2) && BitmapsFit(geo, d2.bbm)
            && MapIndirect(geo.bs, d2.data, words) == MapIndirect(geo.bs, d0.data, words)
            && Freeable(geo, d2.bbm, MapIndirect(geo.bs, d0.data, words))
            && Filter(MapIndirect(geo.bs, d0.data, words), NotHole) == MapIndirect(geo.bs, d0.data, words)
  {
    hide Own, Used, Ready, DirOK, Owned, OwnsWell, Store, MapIndirect, MapBlocks, Words, Grew, Fb, DataFit, Filter, BlockCounts;
    var words := Words(d0.inode[dir].iblock);
    var ind := MapIndirect(geo.bs, d0.data, words);
    var d2 := d1.(data := d1.data[blk := buf]);
    GrewIs(geo, d0, d1, {blk});
    GrewFits(geo, d0, d1, {blk});
    WrittenFit(geo.bs, d1.data, blk, buf);
    DirBlockParts(geo, d0, live, spare, dir);
    FreshBlock(geo, d0, live, spare, dir, blk);
    ReadyData(geo, d1);
    SameGroups(geo, d1, d2);
    forall b | b in ind ensures b != blk && b in Used(geo, d1.bbm) {
      assert b in Own(geo, d0, dir);
      OwnedIsUsed(geo, d0, live, spare, dir, b);
    }
    MapSame(geo.bs, d0.data, d2.data, words, 0);
  }

  /** ... and the count of free blocks goes up by their number. */
  lemma FreedOldMap(geo: Geometry, d0: Disk, d2: Disk, d3: Disk, live: set<nat>, spare: set<nat>, dir: nat)
    requires geo.Valid() && DirIn(geo, d0, live, spare, dir) && BlockCounts(geo, d2) && BlockCounts(geo, d3)
    requires dir < |d0.inode| && |d0.inode[dir].iblock| == 60 && DataFit(geo.bs, d0.data) && BitmapsFit(geo, d2.bbm) && BitmapsFit(geo, d3.bbm)
    requires var ind := MapIndirect(geo.bs, d0.data, Words(d0.inode[dir].iblock));
             && Freeable(geo, d2.bbm, ind) && Filter(ind, NotHole) == ind
             && Used(geo, d3.bbm) == Used(geo, d2.bbm) - ToSet(ind)
    ensures d3.sbFreeBlocks == d2.sbFreeBlocks + |MapIndirect(geo.bs, d0.data, Words(d0.inode[dir].iblock))|
  {
    hide Own, Used, Ready, DirOK, Owned, OwnsWell, Store, MapIndirect, MapBlocks, Words, Fb, DataFit, Filter, BlockCounts, DirIn, Geometry.Valid;
    var ind := MapIndirect(geo.bs, d0.data, Words(d0.inode[dir].iblock));
    IndirectNotHoles(geo.bs, d0.data, Words(d0.inode[dir].iblock));
    NoDupSize(ind);
    CountFreed(geo, d2, d3, ToSet(ind));
  }

  lemma BuiltFacts(geo: Geometry, d0: Disk, d3: Disk, d4: Disk, live: set<nat>, spare: set<nat>, dir: nat,
                   blk: nat, buf: Bytes, words: seq<nat>, ind: seq<nat>)
    requires geo.Valid() && Fits(geo, d0) && 1 <= dir <= geo.inodes
    requires Growing(geo, d0, d3, live, spare, dir, blk, buf)
    requires MapBuilt(geo, d3, d4, Fb(geo, d0, dir) + [blk], words, ind)
    ensures |words| == 15 && |d4.inode| == |d0.inode| && dir < |d4.inode| && d4.inode[dir] == d0.inode[dir]
    ensures |d0.inode[dir].iblock| == 60 && OthersSame(d3, d4, dir)
  {
    hide Own, Used, Ready, Store, MapIndirect, MapBlocks, Words, Grew, Fb, DataFit, Kept;
    GrewIs(geo, d3, d4, ToSet(ind));
    GrewOnly(geo, d3, d4, ToSet(ind));
    OthersSameAlloc(d3, d4, dir);
    FitsData(geo, d0);
  }
}
