/** File contents: reading through a list of blocks and writing into one, both
    in runs of consecutive blocks (lib/ext2.beer:200-221, 583-600). */
module Ext2FileData {
  import opened Bytes
  import opened Seqs
  import opened Ext2Disk
  import opened Ext2BlockMap

  /** The blocks' contents one after the other, block by block. */
  function BlocksBytes(bs: nat, data: seq<Bytes>, blocks: seq<nat>): (r: Bytes)
    requires DataFit(bs, data)
    ensures |r| == |blocks| * bs
  {
    if blocks == [] then []
    else
      assert |blocks| * bs == bs + (|blocks| - 1) * bs;
      ReadBlock(bs, data, blocks[0]) + BlocksBytes(bs, data, blocks[1..])
  }

  lemma {:induction false} BlocksBytesConcat(bs: nat, data: seq<Bytes>, a: seq<nat>, b: seq<nat>)
    requires DataFit(bs, data)
    ensures BlocksBytes(bs, data, a + b) == BlocksBytes(bs, data, a) + BlocksBytes(bs, data, b)
  {
    hide ReadBlock;
    if a == [] {
      assert a + b == b;
    } else {
      assert (a + b)[1..] == a[1..] + b;
      BlocksBytesConcat(bs, data, a[1..], b);
    }
  }

  /** A list of blocks reads the same from two disks that agree on it. */
  lemma {:induction false} BlocksBytesSame(bs: nat, data: seq<Bytes>, data': seq<Bytes>, blocks: seq<nat>)
    requires DataFit(bs, data) && DataFit(bs, data') && |data'| == |data|
    requires forall b :: b in blocks && 0 < b < |data| ==> data'[b] == data[b]
    ensures BlocksBytes(bs, data', blocks) == BlocksBytes(bs, data, blocks)
  {
    if blocks != [] { BlocksBytesSame(bs, data, data', blocks[1..]); }
  }

  // ---- reading ----

  /** What the device returns for n consecutive blocks from block b. */
  function DeviceRead(data: seq<Bytes>, b: nat, n: nat): Bytes
    requires b + n <= |data|
  {
    Flatten(data[b..b + n])
  }

  predicate Consecutive(blocks: seq<nat>, i: nat, run: nat)
    requires i < |blocks|
  {
    i + run <= |blocks| && forall j :: i <= j < i + run ==> blocks[j] == blocks[i] + (j - i)
  }

  lemma ReadSplit(data: seq<Bytes>, b: nat, n: nat)
    requires 0 < n && b + n <= |data|
    ensures DeviceRead(data, b, n) == data[b] + DeviceRead(data, b + 1, n - 1)
  {
    assert data[b..b + n][1..] == data[b + 1..b + 1 + (n - 1)];
  }

  lemma BytesSplit(bs: nat, data: seq<Bytes>, blocks: seq<nat>, i: nat, n: nat)
    requires DataFit(bs, data) && i < n <= |blocks|
    ensures BlocksBytes(bs, data, blocks[i..n]) == ReadBlock(bs, data, blocks[i]) + BlocksBytes(bs, data, blocks[i + 1..n])
  {
    hide ReadBlock;
    assert blocks[i..n][1..] == blocks[i + 1..n];
  }

  lemma {:induction false} RunBytes(bs: nat, data: seq<Bytes>, blocks: seq<nat>, i: nat, run: nat)
    requires DataFit(bs, data) && i < |blocks| && run > 0 && Consecutive(blocks, i, run)
    requires 0 < blocks[i] && blocks[i] + run <= |data|
    ensures DeviceRead(data, blocks[i], run) == BlocksBytes(bs, data, blocks[i..i + run])
    decreases run
  {
    hide DeviceRead, BlocksBytes;
    ReadSplit(data, blocks[i], run);
    BytesSplit(bs, data, blocks, i, i + run);
    if run > 1 {
      assert blocks[i + 1] == blocks[i] + 1;
      RunBytes(bs, data, blocks, i + 1, run - 1);
    } else {
      NoBytes(bs, data, blocks[i] + 1);
      assert blocks[i + 1..i + run] == [];
    }
  }

  lemma NoBytes(bs: nat, data: seq<Bytes>, b: nat)
    requires DataFit(bs, data) && b <= |data|
    ensures DeviceRead(data, b, 0) == [] && BlocksBytes(bs, data, []) == []
  {}

  /** The longest run from i that reading or writing takes in one transfer. */
  method FindRun(blocks: seq<nat>, i: nat, limit: nat, maxRun: nat) returns (run: nat)
    requires i < limit <= |blocks| && maxRun > 0
    ensures 1 <= run <= maxRun && i + run <= limit && Consecutive(blocks, i, run)
    ensures i + run == limit || run == maxRun || blocks[i + run] != blocks[i] + run
  {
    run := 1;
    while i + run < limit && run < maxRun && blocks[i + run] == blocks[i] + run
      invariant 1 <= run <= maxRun && i + run <= limit && Consecutive(blocks, i, run)
    {
      run := run + 1;
    }
  }

  predicate InRange(data: seq<Bytes>, blocks: seq<nat>) {
    forall k :: 0 <= k < |blocks| ==> blocks[k] < |data|
  }

  function MaxRun(bs: nat): nat
    requires bs > 0
  {
    Max(1, MAX_RUN_BYTES / bs)
  }

  /** The zeros of blocks i to n. */
  function Tail(n: nat, i: nat, bs: nat): (r: Bytes)
    requires i <= n
    ensures |r| == (n - i) * bs
  {
    MulMono(0, n - i, bs);
    Zeros((n - i) * bs)
  }

  lemma RunPlaced(bs: nat, data: seq<Bytes>, blocks: seq<nat>, i: nat, run: nat, buf: Bytes)
    requires DataFit(bs, data) && i + run <= |blocks|
    requires |buf| == |blocks| * bs
    requires buf == BlocksBytes(bs, data, blocks[..i]) + Tail(|blocks|, i, bs)
    ensures i * bs + |BlocksBytes(bs, data, blocks[i..i + run])| <= |buf|
    ensures PutBytes(buf, i * bs, BlocksBytes(bs, data, blocks[i..i + run]))
         == BlocksBytes(bs, data, blocks[..i + run]) + Tail(|blocks|, i + run, bs)
  {
    hide BlocksBytes;
    var n := |blocks|;
    assert n * bs == i * bs + (run * bs + (n - (i + run)) * bs);
    assert (n - i) * bs == run * bs + (n - (i + run)) * bs;
    assert blocks[..i + run] == blocks[..i] + blocks[i..i + run];
    BlocksBytesConcat(bs, data, blocks[..i], blocks[i..i + run]);
    PutMiddle(BlocksBytes(bs, data, blocks[..i]), BlocksBytes(bs, data, blocks[i..i + run]),
              Tail(n, i, bs), Tail(n, i + run, bs));
  }

  lemma PutMiddle(p: Bytes, x: Bytes, z: Bytes, z': Bytes)
    requires |z| == |x| + |z'| && z[|x|..] == z'
    ensures PutBytes(p + z, |p|, x) == (p + x) + z'
  {
    assert (p + z)[|p| + |x|..] == z';
    assert (p + z)[..|p|] == p;
  }

  /** A hole leaves its zeros in place. */
  lemma HolePlaced(bs: nat, data: seq<Bytes>, blocks: seq<nat>, i: nat, buf: Bytes)
    requires DataFit(bs, data) && i < |blocks| && blocks[i] == 0
    requires buf == BlocksBytes(bs, data, blocks[..i]) + Tail(|blocks|, i, bs)
    ensures buf == BlocksBytes(bs, data, blocks[..i + 1]) + Tail(|blocks|, i + 1, bs)
  {
    hide BlocksBytes;
    assert (|blocks| - i) * bs == bs + (|blocks| - (i + 1)) * bs;
    assert blocks[..i + 1] == blocks[..i] + [0];
    BlocksBytesConcat(bs, data, blocks[..i], [0]);
    OneHole(bs, data);
  }

  lemma OneHole(bs: nat, data: seq<Bytes>)
    requires DataFit(bs, data)
    ensures BlocksBytes(bs, data, [0]) == Zeros(bs)
  {
    assert [0][1..] == [];
    assert BlocksBytes(bs, data, []) == [];
  }

  /** read-inode-data: exactly `size` bytes of the blocks' contents. */
  method ReadData(bs: nat, data: seq<Bytes>, blocks: seq<nat>, size: nat) returns (buf: Bytes)
    requires DataFit(bs, data) && InRange(data, blocks) && size <= |blocks| * bs
    ensures buf == BlocksBytes(bs, data, blocks)[..size]
  {
    hide BlocksBytes, Consecutive, DeviceRead;
    var nb := |blocks|;
    buf := Zeros(nb * bs);
    var i := 0;
    assert blocks[..0] == [];
    BlocksBytesConcat(bs, data, [], []);
    while i < nb
      invariant 0 <= i <= nb && |buf| == nb * bs
      invariant buf == BlocksBytes(bs, data, blocks[..i]) + Tail(nb, i, bs)
    {
      var start := blocks[i];
      var run := 1;
      if start != 0 {
        run := FindRun(blocks, i, nb, MaxRun(bs));
        LastOfRun(blocks, i, run);
        RunBytes(bs, data, blocks, i, run);
        RunPlaced(bs, data, blocks, i, run, buf);
        buf := PutBytes(buf, i * bs, DeviceRead(data, start, run));
      } else {
        HolePlaced(bs, data, blocks, i, buf);
      }
      i := i + run;
    }
    assert blocks[..nb] == blocks;
    buf := buf[..size];
  }

  lemma LastOfRun(blocks: seq<nat>, i: nat, run: nat)
    requires i < |blocks| && run > 0 && Consecutive(blocks, i, run)
    ensures i + run - 1 < |blocks| && blocks[i + run - 1] == blocks[i] + run - 1
  {
    assert i <= i + run - 1 < i + run;
  }

  // ---- writing ----

  /** The device after n consecutive blocks from b were written from buf at
      byte offset off. */
  function DeviceWrite(bs: nat, data: seq<Bytes>, b: nat, n: nat, buf: Bytes, off: nat): (r: seq<Bytes>)
    requires b + n <= |data| && off + n * bs <= |buf|
    ensures |r| == |data|
    decreases n
  {
    if n == 0 then data
    else
      assert n * bs == bs + (n - 1) * bs;
      DeviceWrite(bs, data[b := buf[off..off + bs]], b + 1, n - 1, buf, off + bs)
  }

  lemma {:induction false} DeviceWriteAt(bs: nat, data: seq<Bytes>, b: nat, n: nat, buf: Bytes, off: nat, c: nat)
    requires b + n <= |data| && off + n * bs <= |buf| && c < |data|
    ensures b <= c < b + n ==> 0 <= (c - b) * bs && off + (c - b) * bs + bs <= |buf|
    ensures DeviceWrite(bs, data, b, n, buf, off)[c] ==
      (if b <= c < b + n then buf[off + (c - b) * bs..off + (c - b) * bs + bs] else data[c])
    decreases n
  {
    if n > 0 {
      assert n * bs == bs + (n - 1) * bs;
      MulMono(0, n - 1, bs);
      DeviceWriteAt(bs, data[b := buf[off..off + bs]], b + 1, n - 1, buf, off + bs, c);
      if b < c < b + n {
        assert (c - b) * bs == bs + (c - (b + 1)) * bs;
      }
    }
  }

  /** Bytes k*bs to (k+1)*bs of a file, zero padded at its end. */
  function Piece(bs: nat, buf: Bytes, k: nat): (r: Bytes)
    requires k * bs <= |buf|
    ensures |r| == bs
  {
    if k * bs + bs <= |buf| then buf[k * bs..k * bs + bs]
    else buf[k * bs..] + Zeros(bs - (|buf| - k * bs))
  }

  /** Byte j of block k is that of the file, and 0 past its end. */
  lemma PieceBytes(bs: nat, buf: Bytes, k: nat, j: nat)
    requires k * bs <= |buf| && j < bs
    ensures Piece(bs, buf, k)[j] == if k * bs + j < |buf| then buf[k * bs + j] else 0
  {}

  /** The first i blocks hold the first i pieces; blocks outside the list are
      as before. */
  ghost predicate WrittenTo(bs: nat, data: seq<Bytes>, data': seq<Bytes>, blocks: seq<nat>, buf: Bytes, i: nat)
    requires i <= |blocks|
  {
    && |data'| == |data|
    && (forall k :: 0 <= k < i ==> k * bs <= |buf| && blocks[k] < |data| && data'[blocks[k]] == Piece(bs, buf, k))
    && (forall b :: 0 <= b < |data| && b !in blocks[..i] ==> data'[b] == data[b])
  }

  lemma PieceFull(bs: nat, buf: Bytes, k: nat, full: nat)
    requires bs > 0 && full == |buf| / bs && k < full
    ensures 0 <= k * bs && k * bs + bs <= |buf| && Piece(bs, buf, k) == buf[k * bs..k * bs + bs]
  {
    MulMono(k + 1, full, bs);
    assert (k + 1) * bs == k * bs + bs;
    assert full * bs <= |buf|;
  }

  lemma RunWritten(bs: nat, data: seq<Bytes>, data': seq<Bytes>, blocks: seq<nat>, buf: Bytes, i: nat, run: nat)
    requires bs > 0 && i + run <= |buf| / bs <= |blocks| && run > 0
    requires NoDup(blocks) && Consecutive(blocks, i, run) && blocks[i] + run <= |data|
    requires WrittenTo(bs, data, data', blocks, buf, i)
    ensures 0 <= i * bs && i * bs + run * bs <= |buf|
    ensures WrittenTo(bs, data, DeviceWrite(bs, data', blocks[i], run, buf, i * bs), blocks, buf, i + run)
  {
    hide DeviceWrite, Piece, Consecutive, WrittenTo;
    var full := |buf| / bs;
    assert i * bs + run * bs == (i + run) * bs;
    MulMono(i + run, full, bs);
    assert full * bs <= |buf|;
    RunWrittenAt(bs, data, data', blocks, buf, i, run);
  }

  lemma RunWrittenAt(bs: nat, data: seq<Bytes>, data': seq<Bytes>, blocks: seq<nat>, buf: Bytes, i: nat, run: nat)
    requires bs > 0 && i + run <= |buf| / bs <= |blocks| && run > 0
    requires NoDup(blocks) && Consecutive(blocks, i, run) && blocks[i] + run <= |data|
    requires WrittenTo(bs, data, data', blocks, buf, i)
    requires 0 <= i * bs && i * bs + run * bs <= |buf|
    ensures WrittenTo(bs, data, DeviceWrite(bs, data', blocks[i], run, buf, i * bs), blocks, buf, i + run)
  {
    hide DeviceWrite, Piece;
    var data2 := DeviceWrite(bs, data', blocks[i], run, buf, i * bs);
    forall k | 0 <= k < i + run
      ensures k * bs <= |buf| && blocks[k] < |data| && data2[blocks[k]] == Piece(bs, buf, k)
    {
      PieceFull(bs, buf, k, |buf| / bs);
      if k < i {
        NotInRun(blocks, i, run, k);
        DeviceWriteAt(bs, data', blocks[i], run, buf, i * bs, blocks[k]);
      } else {
        assert blocks[k] == blocks[i] + (k - i);
        DeviceWriteAt(bs, data', blocks[i], run, buf, i * bs, blocks[k]);
        assert i * bs + (k - i) * bs == k * bs;
      }
    }
    forall b | 0 <= b < |data| && b !in blocks[..i + run] ensures data2[b] == data[b] {
      if blocks[i] <= b < blocks[i] + run { InRun(blocks, i, run, b); }
      PrefixMember(blocks, i, i + run, b);
      DeviceWriteAt(bs, data', blocks[i], run, buf, i * bs, b);
    }
  }

  lemma PrefixMember(s: seq<nat>, i: nat, j: nat, x: nat)
    requires i <= j <= |s|
    ensures x in s[..i] ==> x in s[..j]
  {
    assert s[..j][..i] == s[..i];
  }

  lemma InRun(blocks: seq<nat>, i: nat, run: nat, b: nat)
    requires i < |blocks| && Consecutive(blocks, i, run) && blocks[i] <= b < blocks[i] + run
    ensures var j := i + (b - blocks[i]); j < i + run <= |blocks| && blocks[j] == b && b in blocks[..i + run]
  {
    var j := i + (b - blocks[i]);
    assert blocks[..i + run][j] == blocks[j];
  }

  lemma NotInRun(blocks: seq<nat>, i: nat, run: nat, k: nat)
    requires NoDup(blocks) && k < i < |blocks| && Consecutive(blocks, i, run)
    ensures !(blocks[i] <= blocks[k] < blocks[i] + run)
  {
    if blocks[i] <= blocks[k] < blocks[i] + run { InRun(blocks, i, run, blocks[k]); }
  }

  lemma CeilIs(bs: nat, size: nat, q: nat, r: nat)
    requires bs > 0 && size == q * bs + r && r < bs
    ensures CeilDiv(size, bs) == if r == 0 then q else q + 1
  {
    if r == 0 {
      DivUnique(size + (bs - 1), bs, q, bs - 1);
    } else {
      assert (q + 1) * bs == q * bs + bs;
      DivUnique(size + (bs - 1), bs, q + 1, r - 1);
    }
  }

  lemma PiecesLength(bs: nat, size: nat)
    requires bs > 0
    ensures var n, full := CeilDiv(size, bs), size / bs;
            && full <= n <= full + 1
            && full * bs <= size < full * bs + bs
            && size <= n * bs < size + bs
            && (n > full ==> full * bs < size)
  {
    hide CeilDiv;
    var full := size / bs;
    CeilIs(bs, size, full, size % bs);
    assert (full + 1) * bs == full * bs + bs;
  }

  /** Data blocks that hold the pieces of buf read back as buf, zero padded. */
  lemma {:induction false} PiecesRead(bs: nat, data: seq<Bytes>, blocks: seq<nat>, buf: Bytes, i: nat)
    requires DataFit(bs, data) && |blocks| == CeilDiv(|buf|, bs) && i <= |blocks|
    requires forall k :: 0 <= k < |blocks| ==>
               k * bs <= |buf| && 0 < blocks[k] < |data| && data[blocks[k]] == Piece(bs, buf, k)
    ensures |buf| <= |blocks| * bs && 0 <= i * bs <= |blocks| * bs
    ensures BlocksBytes(bs, data, blocks[i..]) == (buf + Zeros(|blocks| * bs - |buf|))[i * bs..]
    decreases |blocks| - i
  {
    hide BlocksBytes, Piece;
    PiecesLength(bs, |buf|);
    MulMono(i, |blocks|, bs);
    MulMono(0, i, bs);
    var all := buf + Zeros(|blocks| * bs - |buf|);
    if i == |blocks| {
      NoBytes(bs, data, 0);
      assert blocks[i..] == [];
    } else {
      PiecesRead(bs, data, blocks, buf, i + 1);
      assert (i + 1) * bs == i * bs + bs;
      BytesSplit(bs, data, blocks, i, |blocks|);
      assert blocks[i..] == blocks[i..|blocks|] && blocks[i + 1..] == blocks[i + 1..|blocks|];
      PieceOfAll(bs, buf, i, |blocks|);
      assert all[i * bs..] == all[i * bs..i * bs + bs] + all[i * bs + bs..];
    }
  }

  lemma PieceOfAll(bs: nat, buf: Bytes, i: nat, n: nat)
    requires i * bs <= |buf| <= n * bs && i < n && n * bs < |buf| + bs
    ensures 0 <= i * bs && i * bs + bs <= n * bs
    ensures (buf + Zeros(n * bs - |buf|))[i * bs..i * bs + bs] == Piece(bs, buf, i)
  {
    MulMono(i + 1, n, bs);
    assert (i + 1) * bs == i * bs + bs;
    MulMono(0, i, bs);
  }

  /** write-data!: the pieces of buf into `blocks`, full ones in runs, the last
      partial one through a zero-padded copy. */
  method WriteData(bs: nat, data0: seq<Bytes>, blocks: seq<nat>, buf: Bytes) returns (data: seq<Bytes>)
    requires DataFit(bs, data0) && NoDup(blocks) && |blocks| == CeilDiv(|buf|, bs)
    requires forall k :: 0 <= k < |blocks| ==> 0 < blocks[k] < |data0|
    ensures WrittenTo(bs, data0, data, blocks, buf, |blocks|)
  {
    hide WrittenTo, DeviceWrite, Piece, Consecutive, CeilDiv;
    var n := |blocks|;
    PiecesLength(bs, |buf|);
    var full := |buf| / bs;
    data := data0;
    var i := 0;
    WrittenNone(bs, data0, blocks, buf);
    while i < full
      invariant 0 <= i <= full && |data| == |data0|
      invariant WrittenTo(bs, data0, data, blocks, buf, i)
    {
      var run := FindRun(blocks, i, full, MaxRun(bs));
      LastOfRun(blocks, i, run);
      RunWritten(bs, data0, data, blocks, buf, i, run);
      data := DeviceWrite(bs, data, blocks[i], run, buf, i * bs);
      i := i + run;
    }
    if n > full {
      MulMono(0, full, bs);
      var tail := PutBytes(Zeros(bs), 0, buf[full * bs..]);
      LastWritten(bs, data0, data, blocks, buf, full, tail);
      data := data[blocks[full] := tail];
    }
  }

  lemma WrittenNone(bs: nat, data: seq<Bytes>, blocks: seq<nat>, buf: Bytes)
    ensures WrittenTo(bs, data, data, blocks, buf, 0)
  {}

  lemma LastWritten(bs: nat, data: seq<Bytes>, data': seq<Bytes>, blocks: seq<nat>, buf: Bytes, full: nat, tail: Bytes)
    requires DataFit(bs, data) && NoDup(blocks) && |blocks| == full + 1
    requires 0 <= full * bs <= |buf| < full * bs + bs
    requires 0 < blocks[full] < |data|
    requires WrittenTo(bs, data, data', blocks, buf, full)
    requires tail == PutBytes(Zeros(bs), 0, buf[full * bs..])
    ensures WrittenTo(bs, data, data'[blocks[full] := tail], blocks, buf, |blocks|)
  {
    assert tail == Piece(bs, buf, full) by {
      assert tail == buf[full * bs..] + Zeros(bs)[|buf| - full * bs..];
      assert Zeros(bs)[|buf| - full * bs..] == Zeros(bs - (|buf| - full * bs));
    }
    hide Piece, PutBytes;
    assert blocks == blocks[..full] + [blocks[full]];
    assert blocks[..|blocks|] == blocks;
  }

  /** Writing a file's bytes and reading them back through the same blocks gives
      the same bytes. */
  lemma WriteThenRead(bs: nat, data0: seq<Bytes>, data: seq<Bytes>, blocks: seq<nat>, buf: Bytes)
    requires DataFit(bs, data0) && NoDup(blocks) && |blocks| == CeilDiv(|buf|, bs)
    requires forall k :: 0 <= k < |blocks| ==> 0 < blocks[k] < |data0|
    requires WrittenTo(bs, data0, data, blocks, buf, |blocks|)
    ensures DataFit(bs, data)
    ensures |buf| <= |blocks| * bs && BlocksBytes(bs, data, blocks)[..|buf|] == buf
  {
    hide BlocksBytes, CeilDiv;
    WrittenFits(bs, data0, data, blocks, buf);
    PiecesLength(bs, |buf|);
    PiecesRead(bs, data, blocks, buf, 0);
    assert blocks[0..] == blocks;
  }

  lemma WrittenFits(bs: nat, data0: seq<Bytes>, data: seq<Bytes>, blocks: seq<nat>, buf: Bytes)
    requires DataFit(bs, data0) && WrittenTo(bs, data0, data, blocks, buf, |blocks|)
    ensures DataFit(bs, data)
  {
    forall b | 0 <= b < |data| ensures |data[b]| == bs {
      if b in blocks { var k :| 0 <= k < |blocks| && blocks[k] == b; }
      assert blocks[..|blocks|] == blocks;
    }
  }
}
