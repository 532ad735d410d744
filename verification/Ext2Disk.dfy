/** The disk of lib/ext2.beer as a value, and the mounted file system's
    geometry.  Blocks of the data area are byte buffers.  The bitmaps are
    bytes too; the group descriptors, the superblock totals and the inode
    table are records, and the blocks they occupy are the geometry's `meta`.
    No data write may name one of those: WriteBlock and its callers prove it. */
module Ext2Disk {
  import opened Bytes

  datatype Result<+T> = Ok(value: T) | Err(reason: Reason)
  datatype Reason =
    | DiskFull | NoFreeInodes | FileTooLarge | CorruptDirectory
    | BadBuffer | BadInode
    | NotFound | Exists | NotADirectory | IsADirectory | NotAFile | NotEmpty
    | TooManyLinks | IsRoot | IntoItself

  /** What a caller sees of an operation: the free count it left, or why it failed. */
  function Told<T>(r: Result<T>, free: nat): Result<nat> {
    if r.Ok? then Ok(free) else Err(r.reason)
  }

  lemma ToldIs<T>(r: Result<T>, free: nat)
    ensures Told(r, free) == if r.Ok? then Ok(free) else Err(r.reason)
  {}

  /** The result without its value. */
  function Bare<T>(r: Result<T>): Result<()> {
    if r.Ok? then Ok(()) else Err(r.reason)
  }

  lemma OnlyUnit(r: Result<()>)
    ensures r.Ok? ==> r == Ok(())
  {
    if r.Ok? {
      match r.value
      case () => assert r == Ok(r.value);
    }
  }

  datatype Kind = Dir | File | Symlink | Other

  /** `iblock` is the 60-byte i_block area: 15 block pointers, or the target of
      a fast symlink. */
  datatype Inode = Inode(kind: Kind, size: nat, links: nat, sectors: nat, iblock: Bytes)

  /** The counters of one group descriptor. */
  datatype Group = Group(freeBlocks: nat, freeInodes: nat, usedDirs: nat)

  datatype Disk = Disk(
    bbm: seq<seq<bv8>>,      // block bitmap of each group
    ibm: seq<seq<bv8>>,      // inode bitmap of each group
    gd: seq<Group>,
    sbFreeBlocks: nat,
    sbFreeInodes: nat,
    inode: seq<Inode>,       // by inode number; 0 is not used
    data: seq<Bytes>)        // by block number

  const ROOT_INO := 2
  const DIRECT := 12
  const MAX_RUN_BYTES := 65536

  function Min(a: int, b: int): int { if a < b then a else b }
  function Max(a: int, b: int): int { if a < b then b else a }

  function CeilDiv(a: nat, b: nat): nat
    requires b > 0
  {
    (a + (b - 1)) / b
  }

  datatype Geometry = Geometry(
    bs: nat, blocks: nat, fdb: nat, bpg: nat, inodes: nat, ipg: nat,
    ngroups: nat, firstIno: nat, filetype: bool, meta: set<nat>)
  {
    /** What mount reads from a superblock that mke2fs wrote. */
    ghost predicate Valid() {
      && 1024 <= bs < 0x1_0000 && bs % 512 == 0
      && 0 < bpg <= 8 * bs && bpg < 0x1_0000
      && 0 < ipg <= 8 * bs && ipg < 0x1_0000
      && fdb < blocks < 0x1_0000_0000
      && ngroups == CeilDiv(blocks - fdb, bpg)
      && inodes == ngroups * ipg < 0x1_0000_0000
      && ROOT_INO < firstIno <= inodes
      && (forall b :: b in meta ==> fdb <= b < blocks)
      && (fdb == 0 ==> 0 in meta)
    }

    function Ppb(): nat { bs / 4 }

    function Base(g: nat): nat { fdb + g * bpg }

    function Limit(g: nat): int { Min(bpg, blocks - Base(g)) }

    function GroupOf(b: nat): nat
      requires fdb <= b && bpg > 0
    {
      (b - fdb) / bpg
    }

    function IndexOf(b: nat): nat
      requires fdb <= b && bpg > 0
    {
      (b - fdb) % bpg
    }

    /** A block number the bitmaps cover and that is not metadata. */
    predicate DataBlock(b: nat) { fdb <= b < blocks && b !in meta }

    function InoBase(g: nat): nat { 1 + g * ipg }

    function GroupOfInode(ino: nat): nat
      requires 1 <= ino && ipg > 0
    {
      (ino - 1) / ipg
    }

    function IndexOfInode(ino: nat): nat
      requires 1 <= ino && ipg > 0
    {
      (ino - 1) % ipg
    }
  }

  /** Quotient and remainder as a group and an index in it. */
  lemma DivUnique(n: nat, d: nat, q: nat, r: nat)
    requires d > 0 && r < d && n == q * d + r
    ensures n / d == q && n % d == r
  {
    var q' := n / d;
    assert q' * d <= n < q' * d + d;
    assert (q + 1) * d == q * d + d && (q' + 1) * d == q' * d + d;
    if q' < q { MulMono(q' + 1, q, d); }
    if q < q' { MulMono(q + 1, q', d); }
  }

  lemma MulMono(a: nat, b: nat, d: nat)
    requires a <= b
    ensures a * d <= b * d
  {}

  /** Every block is the block at its own group and index. */
  lemma BlockSplit(geo: Geometry, b: nat)
    requires geo.Valid() && geo.fdb <= b < geo.blocks
    ensures geo.GroupOf(b) < geo.ngroups
    ensures 0 <= geo.IndexOf(b) < geo.Limit(geo.GroupOf(b))
    ensures geo.Base(geo.GroupOf(b)) + geo.IndexOf(b) == b
  {
    var n, d := b - geo.fdb, geo.bpg;
    var m := geo.blocks - geo.fdb;
    assert n == (n / d) * d + n % d;
    var t := (m + (d - 1)) / d;
    assert m + (d - 1) == t * d + (m + (d - 1)) % d;
    if n / d >= t { MulMono(t, n / d, d); }
  }

  lemma BlockJoin(geo: Geometry, g: nat, i: nat)
    requires geo.Valid() && g < geo.ngroups && i < geo.Limit(g)
    ensures geo.fdb <= geo.Base(g) + i < geo.blocks
    ensures geo.GroupOf(geo.Base(g) + i) == g && geo.IndexOf(geo.Base(g) + i) == i
  {
    DivUnique(g * geo.bpg + i, geo.bpg, g, i);
  }

  lemma LimitPositive(geo: Geometry, g: nat)
    requires geo.Valid() && g < geo.ngroups
    ensures 0 < geo.Limit(g) <= geo.bpg
  {
    var m, d := geo.blocks - geo.fdb, geo.bpg;
    var t := (m + (d - 1)) / d;
    assert m + (d - 1) == t * d + (m + (d - 1)) % d;
    MulMono(g, t - 1, d);
    assert (t - 1) * d == t * d - d;
  }

  lemma InodeSplit(geo: Geometry, ino: nat)
    requires geo.Valid() && 1 <= ino <= geo.inodes
    ensures geo.GroupOfInode(ino) < geo.ngroups
    ensures 0 <= geo.IndexOfInode(ino) < geo.ipg
    ensures geo.InoBase(geo.GroupOfInode(ino)) + geo.IndexOfInode(ino) == ino
  {
    var n, d := ino - 1, geo.ipg;
    assert n == (n / d) * d + n % d;
    if n / d >= geo.ngroups { MulMono(geo.ngroups, n / d, d); }
  }

  lemma InodeJoin(geo: Geometry, g: nat, i: nat)
    requires geo.Valid() && g < geo.ngroups && i < geo.ipg
    ensures 1 <= geo.InoBase(g) + i <= geo.inodes
    ensures geo.GroupOfInode(geo.InoBase(g) + i) == g && geo.IndexOfInode(geo.InoBase(g) + i) == i
  {
    DivUnique(g * geo.ipg + i, geo.ipg, g, i);
    MulMono(g, geo.ngroups - 1, geo.ipg);
    assert (geo.ngroups - 1) * geo.ipg == geo.ngroups * geo.ipg - geo.ipg;
  }

  /** A mounted file system: fixed geometry, and the disk that writes change. */
  class Volume {
    const geo: Geometry
    var disk: Disk

    constructor (geo: Geometry, disk: Disk)
      ensures this.geo == geo && this.disk == disk
    {
      this.geo, this.disk := geo, disk;
    }
  }
}
