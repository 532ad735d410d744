/** Block maps: reading one (lib/ext2.beer:170-198, 524-548) and building one
    (lib/ext2.beer:550-581). */
module Ext2BlockMap {
  import opened Bytes
  import opened Ext2Disk

  ghost predicate DataFit(bs: nat, data: seq<Bytes>) {
    bs >= 4 && forall b :: 0 <= b < |data| ==> |data[b]| == bs
  }

  /** Block 0 is a hole: zeros. */
  function ReadBlock(bs: nat, data: seq<Bytes>, b: nat): (r: Bytes)
    requires DataFit(bs, data)
    ensures |r| == bs
  {
    if 0 < b < |data| then data[b] else Zeros(bs)
  }

  function Pointers(bs: nat, data: seq<Bytes>, b: nat): (r: seq<nat>)
    requires DataFit(bs, data)
    ensures |r| == bs / 4
  {
    Words(ReadBlock(bs, data, b))
  }

  function Span(ppb: nat, depth: nat): nat {
    if depth == 0 then 1 else ppb * Span(ppb, depth - 1)
  }

  // ---- collect and file-blocks, as the source computes them ----

  function Collect(bs: nat, data: seq<Bytes>, blk: nat, depth: nat, need: int): seq<nat>
    requires DataFit(bs, data)
    decreases depth, 1, 0
  {
    if depth == 0 then [blk]
    else CollectFrom(bs, data, Pointers(bs, data, blk), depth, 0, need)
  }

  function CollectFrom(bs: nat, data: seq<Bytes>, ptrs: seq<nat>, depth: nat, i: nat, left: int): seq<nat>
    requires DataFit(bs, data) && depth > 0 && i <= |ptrs|
    decreases depth, 0, |ptrs| - i
  {
    if i == |ptrs| || left <= 0 then []
    else
      var sub := Collect(bs, data, ptrs[i], depth - 1, Min(left, Span(bs / 4, depth - 1)));
      sub + CollectFrom(bs, data, ptrs, depth, i + 1, left - |sub|)
  }

  function TopDepth(k: nat): nat {
    if k < DIRECT then 0 else k - DIRECT + 1
  }

  function FromTops(bs: nat, data: seq<Bytes>, words: seq<nat>, k: nat, left: int): seq<nat>
    requires DataFit(bs, data) && |words| == 15 && k <= 15
    decreases 15 - k
  {
    if left <= 0 || k == 15 then []
    else
      var sub := Collect(bs, data, words[k], TopDepth(k), left);
      sub + FromTops(bs, data, words, k + 1, left - |sub|)
  }

  /** The first n data blocks of a file with these i_block words. */
  function MapBlocks(bs: nat, data: seq<Bytes>, words: seq<nat>, n: nat): seq<nat>
    requires DataFit(bs, data) && |words| == 15
  {
    FromTops(bs, data, words, 0, n)
  }

  function FileBlocks(bs: nat, data: seq<Bytes>, inode: Inode): seq<nat>
    requires DataFit(bs, data) && |inode.iblock| == 60
  {
    MapBlocks(bs, data, Words(inode.iblock), CeilDiv(inode.size, bs))
  }

  // ---- what the format says: where block j of a file is ----

  /** Leaf j of the tree of the given depth under blk. */
  function Leaf(bs: nat, data: seq<Bytes>, blk: nat, depth: nat, j: nat): nat
    requires DataFit(bs, data) && j < Span(bs / 4, depth)
    decreases depth
  {
    if depth == 0 then blk
    else
      var s := Span(bs / 4, depth - 1);
      LeafIndex(bs / 4, s, j);
      Leaf(bs, data, Pointers(bs, data, blk)[j / s], depth - 1, j % s)
  }

  lemma LeafIndex(ppb: nat, s: nat, j: nat)
    requires j < ppb * s
    ensures s > 0 && j / s < ppb
  {
    if j / s >= ppb { MulMono(ppb, j / s, s); }
  }

  lemma {:induction false} SpanPositive(ppb: nat, depth: nat)
    requires ppb > 0
    ensures Span(ppb, depth) > 0
  {
    if depth > 0 {
      SpanPositive(ppb, depth - 1);
      MulMono(1, ppb, Span(ppb, depth - 1));
    }
  }

  /** collect returns the first leaves, all of them if need is large. */
  lemma {:induction false} CollectIs(bs: nat, data: seq<Bytes>, blk: nat, depth: nat, need: int)
    requires DataFit(bs, data) && need > 0
    ensures var r := Collect(bs, data, blk, depth, need);
            && |r| == Min(need, Span(bs / 4, depth))
            && forall j :: 0 <= j < |r| ==> r[j] == Leaf(bs, data, blk, depth, j)
    decreases depth, 2, 0
  {
    if depth > 0 {
      var ppb := bs / 4;
      var s := Span(ppb, depth - 1);
      var ptrs := Pointers(bs, data, blk);
      SpanPositive(ppb, depth - 1);
      var r := Collect(bs, data, blk, depth, need);
      CollectFromIs(bs, data, ptrs, depth, 0, need);
      assert Span(ppb, depth) == ppb * s;
      forall j | 0 <= j < |r| ensures r[j] == Leaf(bs, data, blk, depth, j) {
        LeafIndex(ppb, s, j);
        CollectFromAt(bs, data, ptrs, depth, 0, need, j);
      }
    }
  }

  lemma {:induction false} CollectFromIs(bs: nat, data: seq<Bytes>, ptrs: seq<nat>, depth: nat, i: nat, left: int)
    requires DataFit(bs, data) && depth > 0 && i <= |ptrs|
    ensures |CollectFrom(bs, data, ptrs, depth, i, left)|
         == Min(Max(left, 0), (|ptrs| - i) * Span(bs / 4, depth - 1))
    decreases depth, 0, |ptrs| - i
  {
    hide Pointers, Span, Collect;
    var s := Span(bs / 4, depth - 1);
    SpanPositive(bs / 4, depth - 1);
    MulMono(0, |ptrs| - i, s);
    if i < |ptrs| && left > 0 {
      CollectIs(bs, data, ptrs[i], depth - 1, Min(left, s));
      CollectFromIs(bs, data, ptrs, depth, i + 1, left - Min(left, s));
      assert (|ptrs| - i) * s == (|ptrs| - (i + 1)) * s + s;
      MulMono(0, |ptrs| - (i + 1), s);
    }
  }

  lemma StepDown(j: nat, s: nat)
    requires s > 0 && j >= s
    ensures (j - s) / s == j / s - 1 && (j - s) % s == j % s
  {
    assert j == (j / s) * s + j % s;
    MulMono(0, j / s, s);
    assert j / s >= 1;
    assert (j / s - 1) * s == (j / s) * s - s;
    DivUnique(j - s, s, j / s - 1, j % s);
  }

  lemma {:induction false} CollectFromAt(bs: nat, data: seq<Bytes>, ptrs: seq<nat>, depth: nat, i: nat, left: int, j: nat)
    requires DataFit(bs, data) && depth > 0 && i <= |ptrs|
    requires j < |CollectFrom(bs, data, ptrs, depth, i, left)|
    ensures var s := Span(bs / 4, depth - 1);
            && s > 0 && i + j / s < |ptrs| && j % s < s
            && CollectFrom(bs, data, ptrs, depth, i, left)[j] == Leaf(bs, data, ptrs[i + j / s], depth - 1, j % s)
    decreases depth, 1, |ptrs| - i
  {
    var s := Span(bs / 4, depth - 1);
    hide Leaf, Span, Collect;
    SpanPositive(bs / 4, depth - 1);
    CollectIs(bs, data, ptrs[i], depth - 1, Min(left, s));
    if j < Min(left, s) {
      DivUnique(j, s, 0, j);
    } else {
      CollectFromIs(bs, data, ptrs, depth, i, left);
      CollectFromAt(bs, data, ptrs, depth, i + 1, left - s, j - s);
      StepDown(j, s);
    }
  }

  function Capacity(ppb: nat): nat { DIRECT + Span(ppb, 1) + Span(ppb, 2) + Span(ppb, 3) }

  /** Block j of a file: 12 direct pointers, then the leaves of the single,
      double and triple indirect trees. */
  function BlockAt(bs: nat, data: seq<Bytes>, words: seq<nat>, j: nat): nat
    requires DataFit(bs, data) && |words| == 15 && j < Capacity(bs / 4)
  {
    var ppb := bs / 4;
    var j1 := j - DIRECT;
    var j2 := j1 - Span(ppb, 1);
    if j1 < 0 then words[j]
    else if j2 < 0 then Leaf(bs, data, words[DIRECT], 1, j1)
    else if j2 < Span(ppb, 2) then Leaf(bs, data, words[DIRECT + 1], 2, j2)
    else Leaf(bs, data, words[DIRECT + 2], 3, j2 - Span(ppb, 2))
  }

  lemma DirectStep(bs: nat, data: seq<Bytes>, words: seq<nat>, k: nat, left: nat)
    requires DataFit(bs, data) && |words| == 15 && k < DIRECT && left > 0
    ensures FromTops(bs, data, words, k, left) == [words[k]] + FromTops(bs, data, words, k + 1, left - 1)
  {
    hide Pointers, CollectFrom;
  }

  lemma {:induction false} DirectTops(bs: nat, data: seq<Bytes>, words: seq<nat>, k: nat, left: nat)
    requires DataFit(bs, data) && |words| == 15 && k <= DIRECT
    ensures FromTops(bs, data, words, k, left) ==
      (if left <= DIRECT - k then words[k..k + left]
       else words[k..DIRECT] + FromTops(bs, data, words, DIRECT, left - (DIRECT - k)))
    decreases DIRECT - k
  {
    hide FromTops, Collect, CollectFrom, Pointers;
    if left == 0 {
      NoNeed(bs, data, words, k);
    } else if k < DIRECT {
      DirectTops(bs, data, words, k + 1, left - 1);
      DirectStep(bs, data, words, k, left);
      if left <= DIRECT - k {
        assert words[k..k + left] == [words[k]] + words[k + 1..k + left];
      } else {
        var rest := FromTops(bs, data, words, DIRECT, left - (DIRECT - k));
        assert words[k..DIRECT] == [words[k]] + words[k + 1..DIRECT];
        assert words[k..DIRECT] + rest == [words[k]] + (words[k + 1..DIRECT] + rest);
      }
    } else {
      assert words[k..DIRECT] == [];
    }
  }

  lemma NoNeed(bs: nat, data: seq<Bytes>, words: seq<nat>, k: nat)
    requires DataFit(bs, data) && |words| == 15 && k <= 15
    ensures FromTops(bs, data, words, k, 0) == []
  {}

  function Rest(left: nat, s: nat): nat { if left <= s then 0 else left - s }

  /** One indirect tree's share of a file's blocks, and what follows it. */
  lemma TopLength(bs: nat, data: seq<Bytes>, words: seq<nat>, k: nat, left: nat)
    requires DataFit(bs, data) && |words| == 15 && DIRECT <= k < 15
    ensures var s := Span(bs / 4, TopDepth(k));
            |FromTops(bs, data, words, k, left)|
            == Min(left, s) + |FromTops(bs, data, words, k + 1, Rest(left, s))|
  {
    hide Collect, Pointers;
    SpanPositive(bs / 4, TopDepth(k));
    if left > 0 { CollectIs(bs, data, words[k], TopDepth(k), left); }
  }

  lemma TopAt(bs: nat, data: seq<Bytes>, words: seq<nat>, k: nat, left: nat, j: nat)
    requires DataFit(bs, data) && |words| == 15 && DIRECT <= k < 15
    requires j < |FromTops(bs, data, words, k, left)|
    ensures var s := Span(bs / 4, TopDepth(k));
            var rest := FromTops(bs, data, words, k + 1, Rest(left, s));
            if j < s then FromTops(bs, data, words, k, left)[j] == Leaf(bs, data, words[k], TopDepth(k), j)
            else j - s < |rest| && FromTops(bs, data, words, k, left)[j] == rest[j - s]
  {
    hide Leaf, Collect, Pointers;
    SpanPositive(bs / 4, TopDepth(k));
    CollectIs(bs, data, words[k], TopDepth(k), left);
  }

  lemma MapLength(bs: nat, data: seq<Bytes>, words: seq<nat>, n: nat)
    requires DataFit(bs, data) && |words| == 15
    ensures |MapBlocks(bs, data, words, n)| == Min(n, Capacity(bs / 4))
  {
    hide FromTops, Span, Collect, CollectFrom, Pointers;
    var s1, s2, s3 := Span(bs / 4, 1), Span(bs / 4, 2), Span(bs / 4, 3);
    DirectTops(bs, data, words, 0, n);
    if n > DIRECT {
      var n1 := n - DIRECT;
      TopLength(bs, data, words, 12, n1);
      TopLength(bs, data, words, 13, Rest(n1, s1));
      TopLength(bs, data, words, 14, Rest(Rest(n1, s1), s2));
      NoTops(bs, data, words, Rest(Rest(Rest(n1, s1), s2), s3));
    }
  }

  /** file-blocks lists block 0, 1, ... as the format places them. */
  lemma MapBlockIs(bs: nat, data: seq<Bytes>, words: seq<nat>, n: nat, j: nat)
    requires DataFit(bs, data) && |words| == 15
    requires j < |MapBlocks(bs, data, words, n)|
    ensures j < n && j < Capacity(bs / 4)
    ensures MapBlocks(bs, data, words, n)[j] == BlockAt(bs, data, words, j)
  {
    hide FromTops, Span, Leaf, Collect, CollectFrom, Pointers;
    var s1, s2 := Span(bs / 4, 1), Span(bs / 4, 2);
    MapLength(bs, data, words, n);
    DirectTops(bs, data, words, 0, n);
    if j >= DIRECT {
      var n1, j1 := n - DIRECT, j - DIRECT;
      TopAt(bs, data, words, 12, n1, j1);
      if j1 >= s1 {
        TopAt(bs, data, words, 13, Rest(n1, s1), j1 - s1);
        if j1 - s1 >= s2 {
          TopAt(bs, data, words, 14, Rest(Rest(n1, s1), s2), j1 - s1 - s2);
          NoTops(bs, data, words, Rest(Rest(Rest(n1, s1), s2), Span(bs / 4, 3)));
        }
      }
    }
  }

  lemma NoTops(bs: nat, data: seq<Bytes>, words: seq<nat>, left: int)
    requires DataFit(bs, data) && |words| == 15
    ensures FromTops(bs, data, words, 15, left) == []
  {}

  // ---- indirect blocks ----

  function IndirectBlocks(bs: nat, data: seq<Bytes>, blk: nat, depth: nat): seq<nat>
    requires DataFit(bs, data)
    decreases depth, 1, 0
  {
    if blk == 0 || depth == 0 then []
    else if depth == 1 then [blk]
    else [blk] + IndirectUnder(bs, data, Pointers(bs, data, blk), depth - 1, 0)
  }

  function IndirectUnder(bs: nat, data: seq<Bytes>, ptrs: seq<nat>, depth: nat, i: nat): seq<nat>
    requires DataFit(bs, data) && i <= |ptrs|
    decreases depth, 2, |ptrs| - i
  {
    if i == |ptrs| then []
    else IndirectBlocks(bs, data, ptrs[i], depth) + IndirectUnder(bs, data, ptrs, depth, i + 1)
  }

  /** The indirect blocks of a whole map. */
  function MapIndirect(bs: nat, data: seq<Bytes>, words: seq<nat>): seq<nat>
    requires DataFit(bs, data) && |words| == 15
  {
    IndirectBlocks(bs, data, words[DIRECT], 1)
    + IndirectBlocks(bs, data, words[DIRECT + 1], 2)
    + IndirectBlocks(bs, data, words[DIRECT + 2], 3)
  }

  ghost predicate Agree(data: seq<Bytes>, data': seq<Bytes>, s: seq<nat>) {
    |data'| == |data| && forall b :: b in s && b < |data| ==> data'[b] == data[b]
  }

  /** A tree depends on its own indirect blocks only. */
  lemma {:induction false} TreeSame(bs: nat, data: seq<Bytes>, data': seq<Bytes>, blk: nat, depth: nat)
    requires DataFit(bs, data) && DataFit(bs, data')
    requires Agree(data, data', IndirectBlocks(bs, data, blk, depth))
    ensures IndirectBlocks(bs, data', blk, depth) == IndirectBlocks(bs, data, blk, depth)
    ensures forall need: int :: Collect(bs, data', blk, depth, need) == Collect(bs, data, blk, depth, need)
    decreases depth, 1, 0
  {
    if depth > 0 {
      var ptrs := Pointers(bs, data, blk);
      if blk != 0 { assert blk in IndirectBlocks(bs, data, blk, depth); }
      assert Pointers(bs, data', blk) == ptrs;
      if blk == 0 { NullTrees(bs, data, data', ptrs, depth, 0); }
      else if depth == 1 { OneLevelSame(bs, data, data', ptrs, 0); }
      else { TreesSame(bs, data, data', ptrs, depth, 0); }
    }
  }

  lemma {:induction false} OneLevelSame(bs: nat, data: seq<Bytes>, data': seq<Bytes>, ptrs: seq<nat>, i: nat)
    requires DataFit(bs, data) && DataFit(bs, data') && i <= |ptrs|
    ensures forall left: int :: CollectFrom(bs, data', ptrs, 1, i, left) == CollectFrom(bs, data, ptrs, 1, i, left)
    decreases |ptrs| - i
  {
    if i < |ptrs| { OneLevelSame(bs, data, data', ptrs, i + 1); }
  }

  lemma {:induction false} NullTrees(bs: nat, data: seq<Bytes>, data': seq<Bytes>, ptrs: seq<nat>, depth: nat, i: nat)
    requires DataFit(bs, data) && DataFit(bs, data') && |data'| == |data| && depth > 0 && i <= |ptrs|
    requires forall k :: 0 <= k < |ptrs| ==> ptrs[k] == 0
    ensures forall left: int :: CollectFrom(bs, data', ptrs, depth, i, left) == CollectFrom(bs, data, ptrs, depth, i, left)
    decreases depth, 0, |ptrs| - i
  {
    if i < |ptrs| {
      TreeSame(bs, data, data', 0, depth - 1);
      NullTrees(bs, data, data', ptrs, depth, i + 1);
    }
  }

  lemma {:induction false} TreesSame(bs: nat, data: seq<Bytes>, data': seq<Bytes>, ptrs: seq<nat>, depth: nat, i: nat)
    requires DataFit(bs, data) && DataFit(bs, data') && depth > 1 && i <= |ptrs|
    requires Agree(data, data', IndirectUnder(bs, data, ptrs, depth - 1, i))
    ensures IndirectUnder(bs, data', ptrs, depth - 1, i) == IndirectUnder(bs, data, ptrs, depth - 1, i)
    ensures forall left: int :: CollectFrom(bs, data', ptrs, depth, i, left) == CollectFrom(bs, data, ptrs, depth, i, left)
    decreases depth, 0, |ptrs| - i
  {
    if i < |ptrs| {
      TreeSame(bs, data, data', ptrs[i], depth - 1);
      TreesSame(bs, data, data', ptrs, depth, i + 1);
    }
  }

  /** A file's blocks depend on its i_block words and its indirect blocks. */
  lemma MapSame(bs: nat, data: seq<Bytes>, data': seq<Bytes>, words: seq<nat>, n: nat)
    requires DataFit(bs, data) && DataFit(bs, data') && |words| == 15
    requires Agree(data, data', MapIndirect(bs, data, words))
    ensures MapBlocks(bs, data', words, n) == MapBlocks(bs, data, words, n)
    ensures MapIndirect(bs, data', words) == MapIndirect(bs, data, words)
  {
    hide Collect, IndirectBlocks;
    TreeSame(bs, data, data', words[DIRECT], 1);
    TreeSame(bs, data, data', words[DIRECT + 1], 2);
    TreeSame(bs, data, data', words[DIRECT + 2], 3);
    TopsSame(bs, data, data', words, 0, n);
  }

  lemma OneBlock(bs: nat, data: seq<Bytes>, blk: nat, need: int)
    requires DataFit(bs, data)
    ensures Collect(bs, data, blk, 0, need) == [blk]
  {}

  lemma {:induction false} TopsSame(bs: nat, data: seq<Bytes>, data': seq<Bytes>, words: seq<nat>, k: nat, left: int)
    requires DataFit(bs, data) && DataFit(bs, data') && |words| == 15 && k <= 15
    requires forall need: int :: Collect(bs, data', words[12], 1, need) == Collect(bs, data, words[12], 1, need)
    requires forall need: int :: Collect(bs, data', words[13], 2, need) == Collect(bs, data, words[13], 2, need)
    requires forall need: int :: Collect(bs, data', words[14], 3, need) == Collect(bs, data, words[14], 3, need)
    ensures FromTops(bs, data', words, k, left) == FromTops(bs, data, words, k, left)
    decreases 15 - k
  {
    hide Collect, Pointers;
    if left > 0 && k < 15 {
      var sub := Collect(bs, data, words[k], TopDepth(k), left);
      assert Collect(bs, data', words[k], TopDepth(k), left) == sub by {
        if k < DIRECT { OneBlock(bs, data, words[k], left); OneBlock(bs, data', words[k], left); } else if k == 12 {} else if k == 13 {} else { assert k == 14; }
      }
      TopsSame(bs, data, data', words, k + 1, left - |sub|);
    }
  }
}
