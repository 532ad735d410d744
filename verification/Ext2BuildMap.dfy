/** Building a file's block map: pointer blocks are allocated and written
    (lib/ext2.beer:371-376, 550-581). */
module Ext2BuildMap {
  import opened Bytes
  import opened Seqs
  import opened Ext2Disk
  import opened Ext2Bitmap
  import opened Ext2Alloc
  import opened Ext2Space
  import opened Ext2BlockMap

  /** What the allocator and the data writes rely on and keep. */
  ghost predicate Ready(geo: Geometry, d: Disk)
    requires geo.Valid()
  {
    && BlockCounts(geo, d) && MetaUsed(geo, d.bbm)
    && DataFit(geo.bs, d.data) && |d.data| == geo.blocks
  }

  /** From d to d' exactly the blocks of `new` were taken from the free ones,
      and no other block's contents changed. */
  ghost predicate Grew(geo: Geometry, d: Disk, d': Disk, new_: set<nat>)
    requires geo.Valid()
  {
    && Ready(geo, d) && Ready(geo, d')
    && OnlyBlockBits(d.(data := d'.data), d')
    && BitsNow(geo, d.bbm, d'.bbm, new_, true)
    && Used(geo, d'.bbm) == Used(geo, d.bbm) + new_
    && (forall b :: b in new_ ==> b != 0 && geo.DataBlock(b) && b !in Used(geo, d.bbm))
    && (forall b :: 0 <= b < |d.data| && b !in new_ ==> d'.data[b] == d.data[b])
  }

  lemma GrewNothing(geo: Geometry, d: Disk)
    requires geo.Valid() && Ready(geo, d)
    ensures Grew(geo, d, d, {})
  {
    hide Bit, Geometry.Valid, BlockCounts, MetaUsed, Used;
  }

  lemma GrewAgain(geo: Geometry, d: Disk, d1: Disk, d2: Disk, s: set<nat>, t: set<nat>)
    requires geo.Valid() && Grew(geo, d, d1, s) && Grew(geo, d1, d2, t)
    ensures Grew(geo, d, d2, s + t)
    ensures s !! t
  {
    hide Bit, Geometry.Valid, BlockCounts, MetaUsed, Used, BitsNow;
    BitsNowAgain(geo, d.bbm, d1.bbm, d2.bbm, s, t, true);
  }

  /** What a successful allocation does. */
  lemma AllocGrew(geo: Geometry, d: Disk, d': Disk, goal: nat, acc: seq<nat>)
    requires geo.Valid() && Ready(geo, d) && goal < geo.ngroups
    requires BlockCounts(geo, d') && OnlyBlockBits(d, d')
    requires acc <= FreeFrom(geo, d.bbm, goal, 0) && BitsNow(geo, d.bbm, d'.bbm, ToSet(acc), true)
    ensures Grew(geo, d, d', ToSet(acc)) && NoDup(acc)
  {
    hide Bit, Geometry.Valid, FreeGroup, SumFree, FreeFrom, BitsNow;
    AllocatedIsFreeable(geo, d.bbm, d'.bbm, goal, acc);
  }

  lemma AllocPrefix(geo: Geometry, d: Disk, goal: nat, n: nat, r: Result<seq<nat>>)
    requires geo.Valid() && BitmapsFit(geo, d.bbm) && goal < geo.ngroups
    requires var free := FreeFrom(geo, d.bbm, goal, 0);
             r == if n <= |free| then Ok(free[..n]) else Err(DiskFull)
    requires BlockCounts(geo, d)
    ensures r.Ok? ==> r.value <= FreeFrom(geo, d.bbm, goal, 0) && |r.value| == n
    ensures r.Err? ==> r.reason == DiskFull
    ensures r.Ok? <==> n <= d.sbFreeBlocks
  {
    hide FreeFrom, BlockCounts;
    FreeFromCount(geo, d, goal);
  }

  lemma GrewReady(geo: Geometry, d: Disk, d': Disk, s: set<nat>)
    requires geo.Valid() && Grew(geo, d, d', s)
    ensures Ready(geo, d) && Ready(geo, d')
  {
    hide Ready, Geometry.Valid;
  }

  /** The superblock's free count follows. */
  lemma GrewCount(geo: Geometry, d: Disk, d': Disk, s: set<nat>)
    requires geo.Valid() && Grew(geo, d, d', s)
    ensures d'.sbFreeBlocks == d.sbFreeBlocks - |s|
  {
    hide BlockCounts, Geometry.Valid, BitsNow, Used, OnlyBlockBits;
    ReadyFits(geo, d);
    ReadyFits(geo, d');
    CountTaken(geo, d, d', s);
  }

  lemma ReadyFits(geo: Geometry, d: Disk)
    requires geo.Valid() && Ready(geo, d)
    ensures BitmapsFit(geo, d.bbm) && BlockCounts(geo, d)
  {
    hide FreeGroup, SumFree, Used;
  }

  /** alloc-blocks!, seen from its callers. */
  method Take(fs: Volume, goal: nat, n: nat) returns (r: Result<seq<nat>>)
    requires fs.geo.Valid() && Ready(fs.geo, fs.disk) && goal < fs.geo.ngroups
    modifies fs
    ensures Ready(fs.geo, fs.disk)
    ensures r.Ok? <==> n <= old(fs.disk).sbFreeBlocks
    ensures r.Ok? ==> fs.disk.sbFreeBlocks == old(fs.disk).sbFreeBlocks - n
    ensures r.Err? ==> fs.disk == old(fs.disk) && r.reason == DiskFull
    ensures r.Ok? ==> |r.value| == n && NoDup(r.value) && Grew(fs.geo, old(fs.disk), fs.disk, ToSet(r.value))
  {
    hide Bit, Geometry.Valid, BlockCounts, FreeFrom, BitsNow, Grew, OnlyBlockBits, Used;
    ghost var d := fs.disk;
    ReadyFits(fs.geo, d);
    r := AllocBlocks(fs, goal, n);
    AllocPrefix(fs.geo, d, goal, n, r);
    if r.Ok? {
      AllocGrew(fs.geo, d, fs.disk, goal, r.value);
      GrewReady(fs.geo, d, fs.disk, ToSet(r.value));
      GrewCount(fs.geo, d, fs.disk, ToSet(r.value));
      NoDupSize(r.value);
    }
  }

  // ---- writing blocks ----

  method WriteBlock(fs: Volume, b: nat, buf: Bytes)
    requires 0 < b < |fs.disk.data| && fs.geo.DataBlock(b)
    modifies fs
    ensures fs.disk == old(fs.disk).(data := old(fs.disk.data)[b := buf])
  {
    fs.disk := fs.disk.(data := fs.disk.data[b := buf]);
  }

  /** Writing a block that was just taken changes nothing else. */
  lemma GrewWritten(geo: Geometry, d: Disk, d': Disk, s: set<nat>, b: nat, buf: Bytes)
    requires geo.Valid() && Grew(geo, d, d', s) && b in s && |buf| == geo.bs
    ensures 0 < b < |d'.data| && geo.DataBlock(b)
    ensures Grew(geo, d, d'.(data := d'.data[b := buf]), s)
  {
    hide Bit, Geometry.Valid, MetaUsed, Used, BitsNow;
    SameGroups(geo, d', d'.(data := d'.data[b := buf]));
  }

  lemma SameGroups(geo: Geometry, d: Disk, d': Disk)
    requires geo.Valid() && BlockCounts(geo, d) && d' == d.(data := d'.data)
    ensures BlockCounts(geo, d')
  {
    hide FreeGroup, SumFree;
  }

  function PointerBlock(bs: nat, ptrs: seq<nat>): (r: Bytes)
    requires 4 * |ptrs| <= bs
    ensures |r| == bs
  {
    PutWords(Zeros(bs), ptrs)
  }

  function ZeroWords(n: nat): (r: seq<nat>)
    ensures |r| == n && forall k :: 0 <= k < n ==> r[k] == 0
  {
    seq(n, _ => 0)
  }

  lemma PointerBlockIs(bs: nat, ptrs: seq<nat>)
    requires 4 * |ptrs| <= bs
    requires forall k :: 0 <= k < |ptrs| ==> ptrs[k] < 0x1_0000_0000
    ensures Words(PointerBlock(bs, ptrs)) == ptrs + ZeroWords(bs / 4 - |ptrs|)
  {
    hide PutWords;
    WordsOfPutWords(Zeros(bs), ptrs);
  }

  /** Block b holds these pointers, then zeros. */
  ghost predicate Holds(bs: nat, data: seq<Bytes>, b: nat, ptrs: seq<nat>)
    requires DataFit(bs, data)
  {
    0 < b < |data| && |ptrs| <= bs / 4 && Pointers(bs, data, b) == ptrs + ZeroWords(bs / 4 - |ptrs|)
  }

  lemma WrittenHolds(bs: nat, data: seq<Bytes>, b: nat, ptrs: seq<nat>)
    requires DataFit(bs, data) && 0 < b < |data| && 4 * |ptrs| <= bs
    requires forall k :: 0 <= k < |ptrs| ==> ptrs[k] < 0x1_0000_0000
    ensures var data' := data[b := PointerBlock(bs, ptrs)]; DataFit(bs, data') && Holds(bs, data', b, ptrs)
  {
    hide PointerBlock, Words;
    PointerBlockIs(bs, ptrs);
  }

  // ---- chunks of the double indirect part ----

  function Chunks(xs: seq<nat>, n: nat): seq<seq<nat>>
    requires n > 0
  {
    if xs == [] then []
    else if |xs| <= n then [xs]
    else [xs[..n]] + Chunks(xs[n..], n)
  }

  lemma {:induction false} ChunksCount(xs: seq<nat>, n: nat, m: nat)
    requires n > 0 && |xs| <= m * n
    ensures |Chunks(xs, n)| <= m
    ensures forall c :: 0 <= c < |Chunks(xs, n)| ==> 0 < |Chunks(xs, n)[c]| <= n
    decreases |xs|
  {
    if |xs| > n {
      if m <= 1 { MulMono(m, 1, n); }
      assert (m - 1) * n == m * n - n;
      ChunksCount(xs[n..], n, m - 1);
    }
  }

  lemma {:induction false} ChunksNumber(xs: seq<nat>, n: nat)
    requires n > 0
    ensures |Chunks(xs, n)| == CeilDiv(|xs|, n)
    decreases |xs|
  {
    if |xs| > n {
      ChunksNumber(xs[n..], n);
      CeilMore(|xs|, n);
    } else {
      DivUnique(|xs| + (n - 1), n, if xs == [] then 0 else 1, if xs == [] then n - 1 else |xs| - 1);
    }
  }

  lemma CeilMore(a: nat, n: nat)
    requires n > 0 && a >= n
    ensures CeilDiv(a, n) == CeilDiv(a - n, n) + 1
  {
    StepDown(a + (n - 1), n);
  }

  lemma {:induction false} ChunkAt(xs: seq<nat>, n: nat, j: nat)
    requires n > 0 && j < |xs|
    ensures j / n < |Chunks(xs, n)| && j % n < |Chunks(xs, n)[j / n]|
    ensures Chunks(xs, n)[j / n][j % n] == xs[j]
    decreases |xs|
  {
    if j < n {
      DivUnique(j, n, 0, j);
    } else {
      StepDown(j, n);
      ChunkAt(xs[n..], n, j - n);
    }
  }

  // ---- build-map! ----

  ghost predicate BlockNumbers(geo: Geometry, s: seq<nat>) {
    forall k :: 0 <= k < |s| ==> s[k] < geo.blocks
  }

  /** The single indirect block over `single`. */
  method BuildSingle(fs: Volume, goal: nat, single: seq<nat>) returns (r: Result<nat>)
    requires fs.geo.Valid() && Ready(fs.geo, fs.disk) && goal < fs.geo.ngroups
    requires |single| <= fs.geo.Ppb() && BlockNumbers(fs.geo, single)
    modifies fs
    ensures r.Ok? <==> 1 <= old(fs.disk).sbFreeBlocks
    ensures r.Err? ==> fs.disk == old(fs.disk) && r.reason == DiskFull
    ensures r.Ok? ==>
      && Grew(fs.geo, old(fs.disk), fs.disk, {r.value})
      && DataFit(fs.geo.bs, fs.disk.data) && Holds(fs.geo.bs, fs.disk.data, r.value, single)
  {
    hide Bit, BlockCounts, BitsNow, OnlyBlockBits, Used, MetaUsed, PointerBlock, Grew, Holds;
    var got := Take(fs, goal, 1);
    if got.Err? { return Err(got.reason); }
    var b := got.value[0];
    assert ToSet(got.value) == {b};
    ghost var d1 := fs.disk;
    WrittenGrew(fs.geo, old(fs.disk), d1, {b}, b, single);
    WriteBlock(fs, b, PointerBlock(fs.geo.bs, single));
    r := Ok(b);
  }

  lemma WrittenGrew(geo: Geometry, d: Disk, d1: Disk, s: set<nat>, b: nat, ptrs: seq<nat>)
    requires geo.Valid() && Grew(geo, d, d1, s) && b in s
    requires |ptrs| <= geo.Ppb() && BlockNumbers(geo, ptrs)
    ensures 0 < b < |d1.data| && geo.DataBlock(b)
    ensures var d2 := d1.(data := d1.data[b := PointerBlock(geo.bs, ptrs)]);
            && Grew(geo, d, d2, s) && DataFit(geo.bs, d2.data) && Holds(geo.bs, d2.data, b, ptrs)
  {
    hide Bit, BlockCounts, BitsNow, OnlyBlockBits, Used, MetaUsed, PointerBlock, Holds;
    GrewWritten(geo, d, d1, s, b, PointerBlock(geo.bs, ptrs));
    WrittenHolds(geo.bs, d1.data, b, ptrs);
  }

  /** Blocks that were not written still hold what they held. */
  lemma StillHolds(bs: nat, data: seq<Bytes>, data': seq<Bytes>, b: nat, ptrs: seq<nat>)
    requires DataFit(bs, data) && DataFit(bs, data') && |data'| == |data|
    requires Holds(bs, data, b, ptrs) && data'[b] == data[b]
    ensures Holds(bs, data', b, ptrs)
  {}

  /** The double indirect tree over `double`: a pointer block for each chunk,
      and the top block over those. */
  method BuildDouble(fs: Volume, goal: nat, double: seq<nat>) returns (r: Result<nat>, count: nat, ghost seconds: seq<nat>)
    requires fs.geo.Valid() && Ready(fs.geo, fs.disk) && goal < fs.geo.ngroups
    requires |double| <= fs.geo.Ppb() * fs.geo.Ppb() && BlockNumbers(fs.geo, double) && fs.geo.Ppb() > 0
    modifies fs
    ensures r.Ok? <==> 1 + CeilDiv(|double|, fs.geo.Ppb()) <= old(fs.disk).sbFreeBlocks
    ensures r.Err? ==> r.reason == DiskFull && Grew(fs.geo, old(fs.disk), fs.disk, ToSet(seconds))
    ensures r.Ok? ==>
      && DataFit(fs.geo.bs, fs.disk.data)
      && DoubleBuilt(fs.geo, old(fs.disk), fs.disk, double, r.value, seconds)
      && count == |seconds|
  {
    hide Bit, BlockCounts, BitsNow, OnlyBlockBits, Used, MetaUsed, PointerBlock, Grew, Holds, Chunks, CeilDiv;
    var geo := fs.geo;
    ghost var d := fs.disk;
    PpbPositive(geo);
    var chunks := Chunks(double, geo.Ppb());
    ChunksNumber(double, geo.Ppb());
    ChunksCount(double, geo.Ppb(), geo.Ppb());
    ChunkNumbers(geo, double);
    var got := Take(fs, goal, |chunks|);
    seconds := [];
    GrewNothing(geo, d);
    if got.Err? { assert ToSet(seconds) == {}; return Err(got.reason), 0, []; }
    var blocks := got.value;
    ghost var d1 := fs.disk;
    var gotTop := Take(fs, goal, 1);
    if gotTop.Err? { return Err(gotTop.reason), 0, blocks; }
    var top := gotTop.value[0];
    assert ToSet(gotTop.value) == {top};
    ghost var all := ToSet(blocks) + {top};
    GrewAgain(geo, d, d1, fs.disk, ToSet(blocks), {top});
    GrewFits(geo, d, fs.disk, all);
    var i := 0;
    while i < |chunks|
      invariant 0 <= i <= |chunks|
      invariant Grew(geo, d, fs.disk, all) && DataFit(geo.bs, fs.disk.data)
      invariant forall c :: 0 <= c < i ==> Holds(geo.bs, fs.disk.data, blocks[c], chunks[c])
    {
      ghost var d2 := fs.disk;
      WrittenGrew(geo, d, d2, all, blocks[i], chunks[i]);
      WriteBlock(fs, blocks[i], PointerBlock(geo.bs, chunks[i]));
      forall c | 0 <= c < i ensures Holds(geo.bs, fs.disk.data, blocks[c], chunks[c]) {
        HoldsBelow(geo.bs, d2.data, blocks[c], chunks[c]);
        StillHolds(geo.bs, d2.data, fs.disk.data, blocks[c], chunks[c]);
      }
      i := i + 1;
    }
    ghost var d3 := fs.disk;
    GrewNumbers(geo, d, d3, all, blocks);
    WrittenGrew(geo, d, d3, all, top, blocks);
    WriteBlock(fs, top, PointerBlock(geo.bs, blocks));
    forall c | 0 <= c < |chunks| ensures Holds(geo.bs, fs.disk.data, blocks[c], chunks[c]) {
      HoldsBelow(geo.bs, d3.data, blocks[c], chunks[c]);
      StillHolds(geo.bs, d3.data, fs.disk.data, blocks[c], chunks[c]);
    }
    assert ToSet([top] + blocks) == all;
    return Ok(top), |chunks|, blocks;
  }

  ghost predicate DoubleBuilt(geo: Geometry, d: Disk, d': Disk, double: seq<nat>, top: nat, seconds: seq<nat>)
    requires geo.Valid() && DataFit(geo.bs, d'.data)
  {
    PpbPositive(geo);
    var chunks := Chunks(double, geo.Ppb());
    && Grew(geo, d, d', ToSet([top] + seconds)) && NoDup([top] + seconds)
    && |seconds| == |chunks| <= geo.Ppb()
    && Holds(geo.bs, d'.data, top, seconds)
    && forall c :: 0 <= c < |chunks| ==> Holds(geo.bs, d'.data, seconds[c], chunks[c])
  }

  lemma PpbPositive(geo: Geometry)
    requires geo.Valid()
    ensures geo.Ppb() >= 256
  {}

  lemma HoldsBelow(bs: nat, data: seq<Bytes>, b: nat, ptrs: seq<nat>)
    requires DataFit(bs, data) && Holds(bs, data, b, ptrs)
    ensures 0 < b < |data|
  {}

  lemma GrewFits(geo: Geometry, d: Disk, d': Disk, s: set<nat>)
    requires geo.Valid() && Grew(geo, d, d', s)
    ensures DataFit(geo.bs, d'.data) && |d'.data| == geo.blocks == |d.data|
  {
    hide Bit, BlockCounts, BitsNow, OnlyBlockBits, Used, MetaUsed;
  }

  lemma GrewNumbers(geo: Geometry, d: Disk, d': Disk, s: set<nat>, bs: seq<nat>)
    requires geo.Valid() && Grew(geo, d, d', s) && forall b :: b in bs ==> b in s
    ensures BlockNumbers(geo, bs)
    ensures forall k :: 0 <= k < |bs| ==> bs[k] != 0
  {
    hide Bit, BlockCounts, BitsNow, OnlyBlockBits, Used, MetaUsed;
    forall k | 0 <= k < |bs| ensures bs[k] < geo.blocks && bs[k] != 0 { assert bs[k] in bs; }
  }

  lemma ChunkNumbers(geo: Geometry, xs: seq<nat>)
    requires geo.Valid() && BlockNumbers(geo, xs)
    ensures geo.Ppb() > 0
    ensures forall c :: 0 <= c < |Chunks(xs, geo.Ppb())| ==> BlockNumbers(geo, Chunks(xs, geo.Ppb())[c])
  {
    PpbPositive(geo);
    ChunkParts(geo, xs);
  }

  lemma {:induction false} ChunkParts(geo: Geometry, xs: seq<nat>)
    requires geo.Ppb() > 0 && BlockNumbers(geo, xs)
    ensures forall c :: 0 <= c < |Chunks(xs, geo.Ppb())| ==> BlockNumbers(geo, Chunks(xs, geo.Ppb())[c])
    decreases |xs|
  {
    if |xs| > geo.Ppb() { ChunkParts(geo, xs[geo.Ppb()..]); }
  }

  // ---- reading the built map back ----

  lemma SmallSpans(ppb: nat)
    ensures Span(ppb, 0) == 1 && Span(ppb, 1) == ppb && Span(ppb, 2) == ppb * ppb
  {}

  lemma LeafOne(bs: nat, data: seq<Bytes>, blk: nat, j: nat)
    requires DataFit(bs, data) && j < bs / 4
    ensures j < Span(bs / 4, 1) && Leaf(bs, data, blk, 1, j) == Pointers(bs, data, blk)[j]
  {
    hide Pointers;
    SmallSpans(bs / 4);
    DivUnique(j, 1, j, 0);
  }

  lemma LeafTwo(bs: nat, data: seq<Bytes>, blk: nat, j: nat)
    requires DataFit(bs, data) && j < (bs / 4) * (bs / 4)
    ensures j < Span(bs / 4, 2) && j / (bs / 4) < bs / 4
    ensures Leaf(bs, data, blk, 2, j)
         == Pointers(bs, data, Pointers(bs, data, blk)[j / (bs / 4)])[j % (bs / 4)]
  {
    hide Pointers;
    SmallSpans(bs / 4);
    LeafIndex(bs / 4, bs / 4, j);
    LeafOne(bs, data, Pointers(bs, data, blk)[j / (bs / 4)], j % (bs / 4));
  }

  /** The i_block words for `data` with single and double indirect blocks s
      and top (0 for none). */
  function MapWords(data: seq<nat>, s: nat, top: nat): (r: seq<nat>)
    ensures |r| == 15 && r[14] == 0
  {
    var direct := data[..Min(DIRECT, |data|)];
    direct + ZeroWords(DIRECT - |direct|) + [s, top, 0]
  }

  function SinglePart(data: seq<nat>, ppb: nat): (r: seq<nat>)
    ensures |r| == Max(0, Min(ppb, |data| - DIRECT))
  {
    if |data| <= DIRECT then [] else data[DIRECT..Min(DIRECT + ppb, |data|)]
  }

  function DoublePart(data: seq<nat>, ppb: nat): (r: seq<nat>)
    ensures |r| == Max(0, |data| - DIRECT - ppb)
  {
    if |data| <= DIRECT + ppb then [] else data[DIRECT + ppb..]
  }

  /** The indirect blocks on disk say what the map needs. */
  ghost predicate MapOnDisk(bs: nat, disk: seq<Bytes>, data: seq<nat>, s: nat, top: nat, seconds: seq<nat>)
    requires DataFit(bs, disk)
  {
    var ppb := bs / 4;
    var single, double := SinglePart(data, ppb), DoublePart(data, ppb);
    var chunks := Chunks(double, ppb);
    && (if single == [] then s == 0 else Holds(bs, disk, s, single))
    && (if double == [] then top == 0 && seconds == [] else Holds(bs, disk, top, seconds))
    && |seconds| == |chunks| <= ppb
    && forall c :: 0 <= c < |chunks| ==> Holds(bs, disk, seconds[c], chunks[c])
  }

  lemma MapWordsAt(data: seq<nat>, s: nat, top: nat, j: nat)
    requires j < |data|
    ensures var w := MapWords(data, s, top);
            w[12] == s && w[13] == top && (j < DIRECT ==> w[j] == data[j])
  {}

  lemma HoldsAt(bs: nat, disk: seq<Bytes>, b: nat, ptrs: seq<nat>, k: nat)
    requires DataFit(bs, disk) && Holds(bs, disk, b, ptrs) && k < |ptrs|
    ensures k < bs / 4 && Pointers(bs, disk, b)[k] == ptrs[k]
  {
    hide Pointers;
  }

  lemma TwoSteps(bs: nat, disk: seq<Bytes>, top: nat, seconds: seq<nat>, q: nat, chunk: seq<nat>, m: nat)
    requires DataFit(bs, disk) && Holds(bs, disk, top, seconds) && q < |seconds|
    requires Holds(bs, disk, seconds[q], chunk) && m < |chunk|
    ensures q < bs / 4 && m < bs / 4
    ensures Pointers(bs, disk, Pointers(bs, disk, top)[q])[m] == chunk[m]
  {
    hide Pointers, Holds;
    HoldsAt(bs, disk, top, seconds, q);
    HoldsAt(bs, disk, seconds[q], chunk, m);
  }

  lemma OnDiskDouble(bs: nat, disk: seq<Bytes>, data: seq<nat>, s: nat, top: nat, seconds: seq<nat>, c: nat)
    requires DataFit(bs, disk) && MapOnDisk(bs, disk, data, s, top, seconds)
    requires c < |Chunks(DoublePart(data, bs / 4), bs / 4)|
    ensures c < |seconds| && Holds(bs, disk, top, seconds)
    ensures Holds(bs, disk, seconds[c], Chunks(DoublePart(data, bs / 4), bs / 4)[c])
  {
    hide Holds, DoublePart;
    assert Chunks([], bs / 4) == [];
  }

  lemma DoubleAt(bs: nat, disk: seq<Bytes>, data: seq<nat>, s: nat, top: nat, seconds: seq<nat>, j2: nat)
    requires DataFit(bs, disk) && MapOnDisk(bs, disk, data, s, top, seconds)
    requires j2 < |DoublePart(data, bs / 4)| <= (bs / 4) * (bs / 4)
    ensures j2 < Span(bs / 4, 2) && Leaf(bs, disk, top, 2, j2) == DoublePart(data, bs / 4)[j2]
  {
    hide Leaf, Span, Pointers, Holds, Chunks, DoublePart, MapOnDisk;
    var ppb := bs / 4;
    var double := DoublePart(data, ppb);
    LeafTwo(bs, disk, top, j2);
    ChunkAt(double, ppb, j2);
    OnDiskDouble(bs, disk, data, s, top, seconds, j2 / ppb);
    TwoSteps(bs, disk, top, seconds, j2 / ppb, Chunks(double, ppb)[j2 / ppb], j2 % ppb);
  }

  lemma BuiltAt(bs: nat, disk: seq<Bytes>, data: seq<nat>, s: nat, top: nat, seconds: seq<nat>, j: nat)
    requires DataFit(bs, disk) && MapOnDisk(bs, disk, data, s, top, seconds)
    requires j < |data| <= DIRECT + bs / 4 + (bs / 4) * (bs / 4)
    requires j < Capacity(bs / 4)
    ensures BlockAt(bs, disk, MapWords(data, s, top), j) == data[j]
  {
    hide Leaf, Span, Pointers, Holds, Chunks, MapWords;
    var ppb := bs / 4;
    SmallSpans(ppb);
    MapWordsAt(data, s, top, j);
    if j < DIRECT {
    } else if j < DIRECT + ppb {
      var single := SinglePart(data, ppb);
      assert single[j - DIRECT] == data[j];
      LeafOne(bs, disk, s, j - DIRECT);
      HoldsAt(bs, disk, s, single, j - DIRECT);
    } else {
      DoubleAt(bs, disk, data, s, top, seconds, j - DIRECT - ppb);
    }
  }

  /** build-map! then file-blocks is the identity. */
  lemma ReadsBack(bs: nat, disk: seq<Bytes>, data: seq<nat>, s: nat, top: nat, seconds: seq<nat>)
    requires DataFit(bs, disk) && MapOnDisk(bs, disk, data, s, top, seconds)
    requires |data| <= DIRECT + bs / 4 + (bs / 4) * (bs / 4)
    ensures MapBlocks(bs, disk, MapWords(data, s, top), |data|) == data
  {
    hide MapBlocks, Leaf, Span, Pointers, Holds, Chunks, MapWords, BlockAt;
    var words := MapWords(data, s, top);
    SmallSpans(bs / 4);
    MapLength(bs, disk, words, |data|);
    forall j | 0 <= j < |data| ensures MapBlocks(bs, disk, words, |data|)[j] == data[j] {
      MapBlockIs(bs, disk, words, |data|, j);
      BuiltAt(bs, disk, data, s, top, seconds, j);
    }
  }

  /** Its indirect blocks are the ones that were allocated. */
  function BuiltIndirect(s: nat, top: nat, seconds: seq<nat>): seq<nat> {
    (if s == 0 then [] else [s]) + (if top == 0 then [] else [top] + seconds)
  }

  lemma {:induction false} UnderNonZero(bs: nat, disk: seq<Bytes>, ptrs: seq<nat>, seconds: seq<nat>, i: nat)
    requires DataFit(bs, disk) && i <= |ptrs| && |seconds| <= |ptrs|
    requires forall k :: 0 <= k < |ptrs| ==> ptrs[k] == if k < |seconds| then seconds[k] else 0
    requires forall k :: 0 <= k < |seconds| ==> seconds[k] != 0
    ensures IndirectUnder(bs, disk, ptrs, 1, i) == if i <= |seconds| then seconds[i..] else []
    decreases |ptrs| - i
  {
    if i < |ptrs| {
      UnderNonZero(bs, disk, ptrs, seconds, i + 1);
      if i < |seconds| { assert seconds[i..] == [seconds[i]] + seconds[i + 1..]; }
    }
  }

  lemma IndirectTwo(bs: nat, disk: seq<Bytes>, top: nat, seconds: seq<nat>)
    requires DataFit(bs, disk) && Holds(bs, disk, top, seconds)
    requires forall k :: 0 <= k < |seconds| ==> seconds[k] != 0
    ensures IndirectBlocks(bs, disk, top, 2) == [top] + seconds
  {
    hide IndirectUnder, Pointers;
    UnderNonZero(bs, disk, Pointers(bs, disk, top), seconds, 0);
    assert seconds[0..] == seconds;
  }

  lemma IndirectBuilt(bs: nat, disk: seq<Bytes>, data: seq<nat>, s: nat, top: nat, seconds: seq<nat>)
    requires DataFit(bs, disk) && MapOnDisk(bs, disk, data, s, top, seconds)
    requires forall k :: 0 <= k < |seconds| ==> seconds[k] != 0
    ensures MapIndirect(bs, disk, MapWords(data, s, top)) == BuiltIndirect(s, top, seconds)
  {
    hide IndirectUnder, Pointers, Holds, Chunks;
    if DoublePart(data, bs / 4) != [] {
      HoldsBelow(bs, disk, top, seconds);
      IndirectTwo(bs, disk, top, seconds);
    }
  }

  /** words is a map of `data` on d', over exactly the new indirect blocks ind. */
  ghost predicate MapBuilt(geo: Geometry, d: Disk, d': Disk, data: seq<nat>, words: seq<nat>, ind: seq<nat>)
    requires geo.Valid()
  {
    && Grew(geo, d, d', ToSet(ind)) && NoDup(ind)
    && DataFit(geo.bs, d'.data)
    && |words| == 15 && words[14] == 0
    && (forall k :: 0 <= k < 15 ==> words[k] < 0x1_0000_0000)
    && MapBlocks(geo.bs, d'.data, words, |data|) == data
    && MapIndirect(geo.bs, d'.data, words) == ind
  }

  ghost predicate SingleStep(geo: Geometry, d: Disk, d1: Disk, data: seq<nat>, s: nat)
    requires geo.Valid()
  {
    if SinglePart(data, geo.Ppb()) == [] then d1 == d && s == 0
    else Grew(geo, d, d1, {s}) && DataFit(geo.bs, d1.data) && Holds(geo.bs, d1.data, s, SinglePart(data, geo.Ppb()))
  }

  ghost predicate DoubleStep(geo: Geometry, d1: Disk, d2: Disk, data: seq<nat>, top: nat, seconds: seq<nat>)
    requires geo.Valid()
  {
    if DoublePart(data, geo.Ppb()) == [] then d2 == d1 && top == 0 && seconds == []
    else DataFit(geo.bs, d2.data) && DoubleBuilt(geo, d1, d2, DoublePart(data, geo.Ppb()), top, seconds)
  }

  lemma StepsGrew(geo: Geometry, d: Disk, d1: Disk, d2: Disk, data: seq<nat>, s: nat, top: nat, seconds: seq<nat>)
    requires geo.Valid() && Ready(geo, d)
    requires SingleStep(geo, d, d1, data, s) && DoubleStep(geo, d1, d2, data, top, seconds)
    ensures var ind := BuiltIndirect(s, top, seconds);
            Grew(geo, d, d2, ToSet(ind)) && NoDup(ind) && DataFit(geo.bs, d2.data)
    ensures s < geo.blocks && top < geo.blocks
    ensures forall k :: 0 <= k < |seconds| ==> seconds[k] != 0
    ensures SinglePart(data, geo.Ppb()) != [] ==> d2.data[s] == d1.data[s] && |d2.data| == |d1.data|
  {
    hide Grew, Ready, Holds, Chunks, SinglePart, DoublePart;
    GrewNothing(geo, d);
    var t := if SinglePart(data, geo.Ppb()) == [] then {} else {s};
    assert Grew(geo, d, d1, t);
    GrewReady(geo, d, d1, t);
    GrewNothing(geo, d1);
    var u := if DoublePart(data, geo.Ppb()) == [] then {} else ToSet([top] + seconds);
    assert Grew(geo, d1, d2, u);
    GrewAgain(geo, d, d1, d2, t, u);
    GrewFits(geo, d, d1, t);
    GrewFits(geo, d1, d2, u);
    if s in t { GrewNumbers(geo, d, d1, t, [s]); assert [s][0] == s; SameOutside(geo, d1, d2, u, s); }
    if top in u {
      GrewNumbers(geo, d1, d2, u, [top] + seconds);
      assert ([top] + seconds)[0] == top;
      forall k | 0 <= k < |seconds| ensures seconds[k] != 0 { assert ([top] + seconds)[k + 1] == seconds[k]; }
    }
    var ind := BuiltIndirect(s, top, seconds);
    assert ToSet(ind) == t + u;
    NoDupConcat(if s == 0 then [] else [s], if top == 0 then [] else [top] + seconds);
  }

  lemma SameOutside(geo: Geometry, d: Disk, d': Disk, u: set<nat>, b: nat)
    requires geo.Valid() && Grew(geo, d, d', u) && b !in u && b < |d.data|
    ensures |d'.data| == |d.data| && d'.data[b] == d.data[b]
  {
    hide Bit, BlockCounts, BitsNow, OnlyBlockBits, Used, MetaUsed;
  }

  lemma StepsOnDisk(geo: Geometry, d: Disk, d1: Disk, d2: Disk, data: seq<nat>, s: nat, top: nat, seconds: seq<nat>)
    requires geo.Valid() && Ready(geo, d)
    requires SingleStep(geo, d, d1, data, s) && DoubleStep(geo, d1, d2, data, top, seconds)
    ensures DataFit(geo.bs, d2.data) && MapOnDisk(geo.bs, d2.data, data, s, top, seconds)
  {
    hide Grew, Ready, Holds, Chunks, SinglePart, DoublePart;
    StepsGrew(geo, d, d1, d2, data, s, top, seconds);
    assert Chunks([], geo.Ppb()) == [] by { NoChunks(geo.Ppb()); }
    if SinglePart(data, geo.Ppb()) != [] {
      StillHolds(geo.bs, d1.data, d2.data, s, SinglePart(data, geo.Ppb()));
    }
  }

  lemma NoChunks(n: nat)
    requires n > 0
    ensures Chunks([], n) == []
  {}

  lemma BuiltAll(geo: Geometry, d: Disk, d1: Disk, d2: Disk, data: seq<nat>, s: nat, top: nat, seconds: seq<nat>)
    requires geo.Valid() && Ready(geo, d) && BlockNumbers(geo, data)
    requires |data| <= DIRECT + geo.Ppb() + geo.Ppb() * geo.Ppb()
    requires SingleStep(geo, d, d1, data, s) && DoubleStep(geo, d1, d2, data, top, seconds)
    ensures MapBuilt(geo, d, d2, data, MapWords(data, s, top), BuiltIndirect(s, top, seconds))
  {
    hide Grew, Ready, MapOnDisk, MapBlocks, MapIndirect, BuiltIndirect, SingleStep, DoubleStep;
    StepsGrew(geo, d, d1, d2, data, s, top, seconds);
    StepsOnDisk(geo, d, d1, d2, data, s, top, seconds);
    ReadsBack(geo.bs, d2.data, data, s, top, seconds);
    IndirectBuilt(geo.bs, d2.data, data, s, top, seconds);
  }

  lemma BuiltCount(geo: Geometry, d: Disk, d1: Disk, d2: Disk, data: seq<nat>, s: nat, top: nat, seconds: seq<nat>)
    requires geo.Valid() && Ready(geo, d)
    requires SingleStep(geo, d, d1, data, s) && DoubleStep(geo, d1, d2, data, top, seconds)
    ensures SinglePart(data, geo.Ppb()) == [] <==> s == 0
    ensures DoublePart(data, geo.Ppb()) == [] <==> top == 0
    ensures |BuiltIndirect(s, top, seconds)|
         == (if s != 0 then 1 else 0) + (if top != 0 then 1 + |seconds| else 0)
  {
    hide Grew, Ready, Chunks, Pointers, SinglePart, DoublePart;
  }

  // ---- how many blocks a map takes ----

  /** Data blocks that a map of direct, single and double indirect pointers holds. */
  function MapLimit(geo: Geometry): nat { DIRECT + geo.Ppb() + geo.Ppb() * geo.Ppb() }

  /** The indirect blocks over n data blocks. */
  function IndirectCount(ppb: nat, n: nat): nat
    requires ppb > 0
  {
    (if n > DIRECT then 1 else 0) + if n > DIRECT + ppb then 1 + CeilDiv(n - DIRECT - ppb, ppb) else 0
  }

  /** What build-map! comes to over n data blocks with `free` blocks free: the number
      of free blocks it leaves, or why it fails. */
  function MapOutcome(geo: Geometry, free: nat, n: nat): (r: Result<nat>)
    requires geo.Valid()
    ensures r.Err? ==> r.reason == FileTooLarge || r.reason == DiskFull
  {
    PpbPositive(geo);
    var count := IndirectCount(geo.Ppb(), n);
    if n > MapLimit(geo) then Err(FileTooLarge)
    else if count > free then Err(DiskFull)
    else Ok(free - count)
  }

  /** The 15 i_block words for these data blocks and how many indirect blocks
      were allocated and written for them (up to double indirect).  Out of space,
      the blocks taken so far are lost and nothing else changes. */
  method BuildMap(fs: Volume, goal: nat, data: seq<nat>) returns (r: Result<(seq<nat>, nat)>, ghost ind: seq<nat>)
    requires fs.geo.Valid() && Ready(fs.geo, fs.disk) && goal < fs.geo.ngroups
    requires BlockNumbers(fs.geo, data)
    modifies fs
    ensures Told(r, fs.disk.sbFreeBlocks) == MapOutcome(fs.geo, old(fs.disk).sbFreeBlocks, |data|)
    ensures r == Err(FileTooLarge) ==> fs.disk == old(fs.disk)
    ensures r == Err(DiskFull) ==> Grew(fs.geo, old(fs.disk), fs.disk, ToSet(ind))
    ensures r.Ok? ==>
      && MapBuilt(fs.geo, old(fs.disk), fs.disk, data, r.value.0, ind)
      && fs.geo.Ppb() > 0 && r.value.1 == |ind| == IndirectCount(fs.geo.Ppb(), |data|)
  {
    hide Grew, Ready, Holds, Chunks, MapBuilt, DoubleBuilt, MapWords, Geometry.Valid, CeilDiv, BuiltIndirect;
    var geo := fs.geo;
    var ppb := geo.Ppb();
    PpbPositive(geo);
    ghost var d := fs.disk;
    var single, double := SinglePart(data, ppb), DoublePart(data, ppb);
    ind := [];
    if |double| > ppb * ppb { return Err(FileTooLarge), ind; }
    var s := 0;
    GrewNothing(geo, d);
    assert ToSet(ind) == {};
    if single != [] {
      var got := BuildSingle(fs, goal, single);
      if got.Err? { return Err(DiskFull), ind; }
      s := got.value;
      ind := [s];
      assert ToSet(ind) == {s};
      GrewReady(geo, d, fs.disk, {s});
      GrewCount(geo, d, fs.disk, {s});
    }
    ghost var d1 := fs.disk;
    var top, count := 0, 0;
    ghost var seconds: seq<nat> := [];
    if double != [] {
      var got;
      got, count, seconds := BuildDouble(fs, goal, double);
      if got.Err? {
        GrewAgain(geo, d, d1, fs.disk, ToSet(ind), ToSet(seconds));
        assert ToSet(ind + seconds) == ToSet(ind) + ToSet(seconds);
        return Err(DiskFull), ind + seconds;
      }
      top := got.value;
    }
    assert SingleStep(geo, d, d1, data, s) && DoubleStep(geo, d1, fs.disk, data, top, seconds);
    BuiltAll(geo, d, d1, fs.disk, data, s, top, seconds);
    BuiltCount(geo, d, d1, fs.disk, data, s, top, seconds);
    ind := BuiltIndirect(s, top, seconds);
    BuiltFree(geo, d, d1, fs.disk, data, s, top, seconds);
    return Ok((MapWords(data, s, top), (if s != 0 then 1 else 0) + (if top != 0 then 1 + count else 0))), ind;
  }

  lemma BuiltFree(geo: Geometry, d: Disk, d1: Disk, d2: Disk, data: seq<nat>, s: nat, top: nat, seconds: seq<nat>)
    requires geo.Valid() && Ready(geo, d)
    requires SingleStep(geo, d, d1, data, s) && DoubleStep(geo, d1, d2, data, top, seconds)
    ensures geo.Ppb() > 0 && |BuiltIndirect(s, top, seconds)| == IndirectCount(geo.Ppb(), |data|)
    ensures d2.sbFreeBlocks == d.sbFreeBlocks - |BuiltIndirect(s, top, seconds)|
  {
    hide Grew, Ready, Holds, Chunks, SinglePart, DoublePart, CeilDiv, BuiltIndirect;
    PpbPositive(geo);
    StepsGrew(geo, d, d1, d2, data, s, top, seconds);
    GrewCount(geo, d, d2, ToSet(BuiltIndirect(s, top, seconds)));
    NoDupSize(BuiltIndirect(s, top, seconds));
    BuiltCount(geo, d, d1, d2, data, s, top, seconds);
    ChunksNumber(DoublePart(data, geo.Ppb()), geo.Ppb());
  }
}
