/** Bitmaps, free counts and the block allocator (lib/ext2.beer:398-455). */
module Ext2Bitmap {
  import opened Seqs

  function Mask(k: nat): bv8
    requires k < 8
  {
    if k == 0 then 0x01 else if k == 1 then 0x02 else if k == 2 then 0x04 else if k == 3 then 0x08
    else if k == 4 then 0x10 else if k == 5 then 0x20 else if k == 6 then 0x40 else 0x80
  }

  predicate ByteBit(v: bv8, k: nat)
    requires k < 8
  {
    v & Mask(k) != 0
  }

  function ByteSet(v: bv8, k: nat, on: bool): bv8
    requires k < 8
  {
    if on then v | Mask(k) else v & !Mask(k)
  }

  lemma ByteSetIs(v: bv8, k: nat, on: bool, m: nat)
    requires k < 8 && m < 8
    ensures ByteBit(ByteSet(v, k, on), m) == if m == k then on else ByteBit(v, m)
  {}

  predicate Bit(bm: seq<bv8>, i: nat)
    requires i < 8 * |bm|
  {
    ByteBit(bm[i / 8], i % 8)
  }

  function SetBit(bm: seq<bv8>, i: nat, on: bool): (r: seq<bv8>)
    requires i < 8 * |bm|
    ensures |r| == |bm|
  {
    bm[i / 8 := ByteSet(bm[i / 8], i % 8, on)]
  }

  /** Setting a bit changes that bit and no other. */
  lemma SetBitIs(bm: seq<bv8>, i: nat, on: bool, j: nat)
    requires i < 8 * |bm| && j < 8 * |bm|
    ensures Bit(SetBit(bm, i, on), j) == if j == i then on else Bit(bm, j)
  {
    hide ByteSet, ByteBit;
    if j / 8 == i / 8 {
      ByteSetIs(bm[i / 8], i % 8, on, j % 8);
    }
  }

  /** A byte of ones has every bit set: what the scan's skip relies on. */
  lemma FullByte(bm: seq<bv8>, i: nat, j: nat)
    requires i <= j < i + (8 - i % 8) && j < 8 * |bm| && bm[i / 8] == 0xFF
    ensures Bit(bm, j)
  {
    assert j / 8 == i / 8;
  }

  lemma SameByte(v: bv8, w: bv8)
    requires forall k :: 0 <= k < 8 ==> ByteBit(v, k) == ByteBit(w, k)
    ensures v == w
  {
    assert ByteBit(v, 0) == ByteBit(w, 0) && ByteBit(v, 1) == ByteBit(w, 1);
    assert ByteBit(v, 2) == ByteBit(w, 2) && ByteBit(v, 3) == ByteBit(w, 3);
    assert ByteBit(v, 4) == ByteBit(w, 4) && ByteBit(v, 5) == ByteBit(w, 5);
    assert ByteBit(v, 6) == ByteBit(w, 6) && ByteBit(v, 7) == ByteBit(w, 7);
  }

  /** Bitmaps with the same bits are the same bytes. */
  lemma SameBits(a: seq<bv8>, b: seq<bv8>)
    requires |a| == |b|
    requires forall i :: 0 <= i < 8 * |a| ==> Bit(a, i) == Bit(b, i)
    ensures a == b
  {
    hide ByteBit;
    forall j | 0 <= j < |a| ensures a[j] == b[j] {
      forall k | 0 <= k < 8 ensures ByteBit(a[j], k) == ByteBit(b[j], k) {
        assert Bit(a, 8 * j + k) == Bit(b, 8 * j + k);
      }
      SameByte(a[j], b[j]);
    }
  }

  /** The numbers base+i of the clear bits i, from bit i to limit, in order: a
      bit-by-bit scan. */
  function FreeIn(bm: seq<bv8>, base: nat, i: nat, limit: nat): (r: seq<nat>)
    requires limit <= 8 * |bm|
    ensures |r| <= if i < limit then limit - i else 0
    decreases limit - i
  {
    if i >= limit then []
    else (if Bit(bm, i) then [] else [base + i]) + FreeIn(bm, base, i + 1, limit)
  }

  lemma {:induction false} FreeInMember(bm: seq<bv8>, base: nat, i: nat, limit: nat, b: nat)
    requires limit <= 8 * |bm|
    ensures b in FreeIn(bm, base, i, limit) <==> base + i <= b < base + limit && !Bit(bm, b - base)
    decreases limit - i
  {
    hide Bit;
    if i < limit { FreeInMember(bm, base, i + 1, limit, b); }
  }

  lemma {:induction false} FreeInNoDup(bm: seq<bv8>, base: nat, i: nat, limit: nat)
    requires limit <= 8 * |bm|
    ensures NoDup(FreeIn(bm, base, i, limit))
    decreases limit - i
  {
    hide Bit;
    if i < limit {
      FreeInNoDup(bm, base, i + 1, limit);
      FreeInMember(bm, base, i + 1, limit, base + i);
      if !Bit(bm, i) { NoDupConcat([base + i], FreeIn(bm, base, i + 1, limit)); }
    }
  }

  lemma {:induction false} FreeInAscends(bm: seq<bv8>, base: nat, i: nat, limit: nat, m: nat, n: nat)
    requires limit <= 8 * |bm| && m < n < |FreeIn(bm, base, i, limit)|
    ensures FreeIn(bm, base, i, limit)[m] < FreeIn(bm, base, i, limit)[n]
    decreases limit - i
  {
    hide Bit;
    var rest := FreeIn(bm, base, i + 1, limit);
    if Bit(bm, i) {
      FreeInAscends(bm, base, i + 1, limit, m, n);
    } else if m > 0 {
      FreeInAscends(bm, base, i + 1, limit, m - 1, n - 1);
    } else {
      assert rest[n - 1] in rest;
      FreeInMember(bm, base, i + 1, limit, rest[n - 1]);
    }
  }

  /** A run of set bits can be skipped. */
  lemma {:induction false} FreeInSkip(bm: seq<bv8>, base: nat, i: nat, j: nat, limit: nat)
    requires limit <= 8 * |bm| && i <= j
    requires forall k :: i <= k < j && k < limit ==> Bit(bm, k)
    ensures FreeIn(bm, base, i, limit) == FreeIn(bm, base, j, limit)
    decreases j - i
  {
    hide Bit;
    if i < j { FreeInSkip(bm, base, i + 1, j, limit); }
  }

  lemma {:induction false} FreeInSame(bm: seq<bv8>, bm': seq<bv8>, base: nat, i: nat, limit: nat)
    requires limit <= 8 * |bm| && |bm'| == |bm|
    requires forall k :: i <= k < limit ==> Bit(bm, k) == Bit(bm', k)
    ensures FreeIn(bm, base, i, limit) == FreeIn(bm', base, i, limit)
    decreases limit - i
  {
    hide Bit;
    if i < limit { FreeInSame(bm, bm', base, i + 1, limit); }
  }

  /** Clearing a set bit makes exactly one more free number. */
  lemma {:induction false} ClearOne(bm: seq<bv8>, base: nat, i: nat, limit: nat, k: nat)
    requires limit <= 8 * |bm| && i <= k < limit && Bit(bm, k)
    ensures |FreeIn(SetBit(bm, k, false), base, i, limit)| == |FreeIn(bm, base, i, limit)| + 1
    decreases limit - i
  {
    hide Bit, SetBit;
    var bm' := SetBit(bm, k, false);
    SetBitIs(bm, k, false, i);
    if i == k {
      forall m | i + 1 <= m < limit ensures Bit(bm, m) == Bit(bm', m) { SetBitIs(bm, k, false, m); }
      FreeInSame(bm, bm', base, i + 1, limit);
    } else {
      ClearOne(bm, base, i + 1, limit, k);
    }
  }

  /** What the scan has done when it stands at bit i. */
  ghost predicate Scanned(bm0: seq<bv8>, bm: seq<bv8>, base: nat, limit: nat, i: nat, got: seq<nat>)
    requires limit <= 8 * |bm0|
  {
    && |bm| == |bm0|
    && FreeIn(bm0, base, 0, limit) == got + FreeIn(bm0, base, i, limit)
    && (forall j :: 0 <= j < i && j < limit ==> Bit(bm, j))
    && (forall j :: 0 <= j < 8 * |bm| && (i <= j || limit <= j) ==> Bit(bm, j) == Bit(bm0, j))
  }

  lemma ScannedTake(bm0: seq<bv8>, bm: seq<bv8>, base: nat, limit: nat, i: nat, got: seq<nat>)
    requires limit <= 8 * |bm0| && i < limit
    requires Scanned(bm0, bm, base, limit, i, got) && !Bit(bm, i)
    ensures Scanned(bm0, SetBit(bm, i, true), base, limit, i + 1, got + [base + i])
  {
    hide Bit, SetBit;
    forall j | 0 <= j < 8 * |bm| ensures Bit(SetBit(bm, i, true), j) == (j == i || Bit(bm, j)) {
      SetBitIs(bm, i, true, j);
    }
  }

  lemma ScannedSkip(bm0: seq<bv8>, bm: seq<bv8>, base: nat, limit: nat, i: nat, got: seq<nat>, next: nat)
    requires limit <= 8 * |bm0| && i < limit && i < next <= 8 * |bm0|
    requires Scanned(bm0, bm, base, limit, i, got)
    requires forall j :: i <= j < next ==> Bit(bm, j)
    ensures Scanned(bm0, bm, base, limit, next, got)
  {
    hide Bit, SetBit;
    FreeInSkip(bm0, base, i, next, limit);
  }

  lemma ScannedAll(bm0: seq<bv8>, bm: seq<bv8>, base: nat, limit: nat, i: nat, got: seq<nat>)
    requires limit <= 8 * |bm0|
    requires Scanned(bm0, bm, base, limit, i, got)
    ensures FreeIn(bm, base, 0, limit) == FreeIn(bm0, base, i, limit)
    ensures forall j :: 0 <= j < 8 * |bm| ==> Bit(bm, j) == (Bit(bm0, j) || base + j in got)
  {
    hide Bit, SetBit, FreeIn;
    FreeInSkip(bm, base, 0, i, limit);
    FreeInSame(bm, bm0, base, i, limit);
    forall j | 0 <= j < 8 * |bm| ensures Bit(bm, j) == (Bit(bm0, j) || base + j in got) {
      ScannedBit(bm0, bm, base, limit, i, got, j);
    }
  }

  lemma ScannedBit(bm0: seq<bv8>, bm: seq<bv8>, base: nat, limit: nat, i: nat, got: seq<nat>, j: nat)
    requires limit <= 8 * |bm0| && Scanned(bm0, bm, base, limit, i, got) && j < 8 * |bm|
    ensures Bit(bm, j) == (Bit(bm0, j) || base + j in got)
  {
    hide Bit, SetBit, FreeIn;
    var b := base + j;
    FreeInMember(bm0, base, 0, limit, b);
    FreeInMember(bm0, base, i, limit, b);
    FreeInNoDup(bm0, base, 0, limit);
    NoDupSplit(got, FreeIn(bm0, base, i, limit));
    assert b in FreeIn(bm0, base, 0, limit) <==> b in got || b in FreeIn(bm0, base, i, limit);
  }

  /** The inner scan of alloc-blocks!: up to `want` clear bits, set as they are
      found, jumping over bytes of ones. */
  method ScanGroup(bm0: seq<bv8>, base: nat, limit: nat, want: nat) returns (got: seq<nat>, bm: seq<bv8>)
    requires limit <= 8 * |bm0|
    ensures var free := FreeIn(bm0, base, 0, limit);
            && got == free[..if want < |free| then want else |free|]
            && |bm| == |bm0|
            && FreeIn(bm, base, 0, limit) == free[|got|..]
    ensures forall i :: 0 <= i < 8 * |bm| ==> Bit(bm, i) == (Bit(bm0, i) || base + i in got)
  {
    hide Bit, SetBit;
    var i := 0;
    got, bm := [], bm0;
    while i < limit && |got| < want
      invariant |got| <= want
      invariant Scanned(bm0, bm, base, limit, i, got)
      decreases limit - i
    {
      assert i / 8 < |bm|;
      if bm[i / 8] == 0xFF {
        var next := i + (8 - i % 8);
        assert next <= 8 * |bm|;
        forall j | i <= j < next ensures Bit(bm, j) { FullByte(bm, i, j); }
        ScannedSkip(bm0, bm, base, limit, i, got, next);
        i := next;
      } else if Bit(bm, i) {
        ScannedSkip(bm0, bm, base, limit, i, got, i + 1);
        i := i + 1;
      } else {
        ScannedTake(bm0, bm, base, limit, i, got);
        bm := SetBit(bm, i, true);
        got := got + [base + i];
        i := i + 1;
      }
    }
    ScannedAll(bm0, bm, base, limit, i, got);
  }
}
