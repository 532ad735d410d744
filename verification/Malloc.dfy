/** The allocator of kernel/malloc.c over the break of kernel/syscall_stubs.c:
    a header in front of every block, free lists threaded through the freed
    blocks, and interior headers for aligned blocks, all in one byte memory. */
module Malloc {
  import opened Bytes
  import opened MallocClasses

  // ---- 64-bit words in memory ----

  function U64(b: Bytes, o: nat): (v: nat)
    requires o + 8 <= |b|
    ensures v < SIZE_WRAP
  {
    U32(b, o) + 0x1_0000_0000 * U32(b, o + 4)
  }

  function PutU64(b: Bytes, o: nat, v: nat): (r: Bytes)
    requires o + 8 <= |b|
    ensures |r| == |b|
  {
    PutU32(PutU32(b, o, v), o + 4, v / 0x1_0000_0000)
  }

  ghost predicate SameIn(m: Bytes, m': Bytes, lo: int, hi: int) {
    |m'| == |m| && forall i :: lo <= i < hi && 0 <= i < |m| ==> m'[i] == m[i]
  }

  /** Only bytes lo to hi differ. */
  ghost predicate OnlyIn(m: Bytes, m': Bytes, lo: int, hi: int) {
    |m'| == |m| && forall i :: 0 <= i < |m| && !(lo <= i < hi) ==> m'[i] == m[i]
  }

  lemma PutU64Is(b: Bytes, o: nat, v: nat)
    requires o + 8 <= |b| && v < SIZE_WRAP
    ensures U64(PutU64(b, o, v), o) == v && OnlyIn(b, PutU64(b, o, v), o, o + 8)
  {
    var low := PutU32(b, o, v);
    var r := PutU32(low, o + 4, v / 0x1_0000_0000);
    assert U32(r, o) == U32(low, o) by {
      assert U16(r, o) == U16(low, o) && U16(r, o + 2) == U16(low, o + 2);
    }
    assert v / 0x1_0000_0000 % 0x1_0000_0000 == v / 0x1_0000_0000;
  }

  lemma U64Same(m: Bytes, m': Bytes, o: nat)
    requires o + 8 <= |m| && SameIn(m, m', o, o + 8)
    ensures U64(m', o) == U64(m, o)
  {
    assert U16(m', o) == U16(m, o) && U16(m', o + 2) == U16(m, o + 2);
    assert U16(m', o + 4) == U16(m, o + 4) && U16(m', o + 6) == U16(m, o + 6);
  }

  // ---- the books ----

  /** A live allocation: the pointer handed out and the bytes asked for. */
  datatype Alloc = Alloc(p: nat, n: nat)

  /** What the memory means: the blocks carved from the break in order, their
      classes, the free list of each class, the live allocations by block, and
      the most blocks of each class that were ever live together. */
  datatype Books = Books(order: seq<nat>, cls: map<nat, nat>, lists: seq<seq<nat>>, live: map<nat, Alloc>, peak: seq<nat>)

  function End(b: Books, h: nat): nat
    requires h in b.cls
  {
    h + HEADER + Size(b.cls[h])
  }

  ghost predicate Listed(b: Books) {
    && (forall i :: 0 <= i < |b.order| ==> b.order[i] in b.cls)
    && (forall h :: h in b.cls ==> h in b.order)
  }

  ghost predicate Adjacent(b: Books, start: nat, brk: nat)
    requires Listed(b)
  {
    && (b.order != [] ==> b.order[0] == start)
    && (forall i, j :: 0 <= i < |b.order| && j == i + 1 < |b.order| ==> b.order[j] == End(b, b.order[i]))
    && brk == (if b.order == [] then start else End(b, b.order[|b.order| - 1]))
  }

  ghost predicate Ascending(b: Books, brk: nat)
    requires Listed(b)
  {
    && (forall i :: 0 <= i < |b.order| ==> End(b, b.order[i]) <= brk)
    && (forall i, j :: 0 <= i < j < |b.order| ==> End(b, b.order[i]) <= b.order[j])
  }

  /** The blocks stand next to each other from start to brk. */
  ghost predicate Tiled(b: Books, start: nat, brk: nat) {
    Listed(b) && Adjacent(b, start, brk) && Ascending(b, brk)
  }

  /** A live allocation lies aligned inside its block, and the word in front of
      it leads back to the block's header. */
  ghost predicate AllocOK(m: Bytes, h: nat, end: nat, a: Alloc)
    requires h + HEADER <= end <= |m|
  {
    && h + HEADER <= a.p && a.p + a.n <= end && a.p % ALIGN == 0
    && (if a.p == h + HEADER then U64(m, h + 8) == 0
        else h + 2 * HEADER <= a.p && a.p <= end && U64(m, a.p - 8) == a.p - HEADER - h)
  }

  /** What the memory says about block h. */
  ghost predicate BlockOK(m: Bytes, b: Books, h: nat) {
    && h in b.cls && b.cls[h] < CLASSES && h % ALIGN == 0 && h > 0 && End(b, h) <= |m|
    && U64(m, h) == b.cls[h]
    && (h in b.live ==> AllocOK(m, h, End(b, h), b.live[h]))
  }

  function NextIn(l: seq<nat>, i: nat): nat { if i + 1 < |l| then l[i + 1] else 0 }

  /** The blocks of l are linked from head to 0. */
  ghost predicate Linked(m: Bytes, head: nat, l: seq<nat>) {
    && head == (if l == [] then 0 else l[0])
    && forall i :: 0 <= i < |l| ==> l[i] + 24 <= |m| && U64(m, l[i] + 16) == NextIn(l, i)
  }

  /** A free list: blocks of its class that are not live, each once. */
  ghost predicate ListOK(m: Bytes, b: Books, head: nat, c: nat)
    requires |b.lists| == CLASSES && c < CLASSES
  {
    && Linked(m, head, b.lists[c])
    && (forall i, j :: 0 <= i < j < |b.lists[c]| ==> b.lists[c][i] != b.lists[c][j])
    && forall h :: h in b.lists[c] ==> h in b.cls && b.cls[h] == c && h !in b.live
  }

  ghost function OfClass(b: Books, c: nat): set<nat> {
    set h | h in b.cls && b.cls[h] == c
  }

  ghost function LiveOfClass(b: Books, c: nat): set<nat> {
    set h | h in b.live && h in b.cls && b.cls[h] == c
  }

  ghost predicate Counted(b: Books) {
    |b.peak| == CLASSES && forall c :: 0 <= c < CLASSES ==> b.peak[c] == |OfClass(b, c)|
  }

  ghost predicate Inv(m: Bytes, start: nat, brk: nat, free: seq<nat>, b: Books) {
    && 0 < start <= brk <= |m| < 0x8000_0000_0000_0000 && start % ALIGN == 0
    && |free| == |b.lists| == CLASSES
    && Tiled(b, start, brk)
    && (forall h :: h in b.cls ==> BlockOK(m, b, h))
    && (forall c :: 0 <= c < CLASSES ==> ListOK(m, b, free[c], c))
    && (forall h :: h in b.live ==> h in b.cls)
    && (forall h :: h in b.cls ==> h in b.live || h in b.lists[b.cls[h]])
    && Counted(b)
  }

  // ---- frames ----

  lemma BlocksApart(b: Books, start: nat, brk: nat, g: nat, h: nat)
    requires Tiled(b, start, brk) && g in b.cls && h in b.cls && g != h
    ensures End(b, g) <= h || End(b, h) <= g
  {
    hide Size;
    var i :| 0 <= i < |b.order| && b.order[i] == g;
    var j :| 0 <= j < |b.order| && b.order[j] == h;
  }

  lemma BlockSame(m: Bytes, m': Bytes, b: Books, b': Books, g: nat)
    requires BlockOK(m, b, g) && SameIn(m, m', g, End(b, g))
    requires g in b'.cls && b'.cls[g] == b.cls[g]
    requires g in b'.live ==> g in b.live && b'.live[g] == b.live[g]
    ensures BlockOK(m', b', g)
  {
    hide Size, U64;
    U64Same(m, m', g);
    if g in b'.live {
      var a := b.live[g];
      if a.p == g + HEADER { U64Same(m, m', g + 8); } else { U64Same(m, m', a.p - 8); }
    }
  }

  lemma LinkedSame(m: Bytes, m': Bytes, head: nat, l: seq<nat>)
    requires Linked(m, head, l) && |m'| == |m|
    requires forall i :: 0 <= i < |l| ==> SameIn(m, m', l[i] + 16, l[i] + 24)
    ensures Linked(m', head, l)
  {
    hide U64;
    forall i | 0 <= i < |l| ensures U64(m', l[i] + 16) == U64(m, l[i] + 16) { U64Same(m, m', l[i] + 16); }
  }

  /** A write inside block h leaves the lists alone that do not hold h. */
  lemma ListSame(m: Bytes, m': Bytes, b: Books, start: nat, brk: nat, free: seq<nat>, h: nat, c: nat)
    requires Inv(m, start, brk, free, b) && h in b.cls && OnlyIn(m, m', h, End(b, h)) && c < CLASSES && h !in b.lists[c]
    ensures Linked(m', free[c], b.lists[c])
  {
    hide Size, Counted, BlockOK, Tiled;
    var l := b.lists[c];
    assert ListOK(m, b, free[c], c);
    forall i | 0 <= i < |l| ensures SameIn(m, m', l[i] + 16, l[i] + 24) {
      assert l[i] in l;
      LinkInside(m, start, brk, free, b, h, l[i]);
    }
    LinkedSame(m, m', free[c], l);
  }

  lemma LinkInside(m: Bytes, start: nat, brk: nat, free: seq<nat>, b: Books, h: nat, g: nat)
    requires Inv(m, start, brk, free, b) && h in b.cls && g in b.cls && g != h
    ensures g + 24 <= h || End(b, h) <= g
    ensures g + 24 <= End(b, g)
  {
    hide Counted, BlockOK, Tiled, ListOK, Size;
    BlocksApart(b, start, brk, g, h);
    SizeBoundOf(m, start, brk, free, b, g);
  }

  lemma SizeBoundOf(m: Bytes, start: nat, brk: nat, free: seq<nat>, b: Books, g: nat)
    requires Inv(m, start, brk, free, b) && g in b.cls
    ensures b.cls[g] < CLASSES && ALIGN <= Size(b.cls[g]) <= 0x8000_0000 && Size(b.cls[g]) % ALIGN == 0
    ensures start <= g && g % ALIGN == 0 && End(b, g) <= brk && U64(m, g) == b.cls[g]
  {
    hide Counted, ListOK, Size, U64;
    assert BlockOK(m, b, g);
    SizeBound(b.cls[g]);
    var i :| 0 <= i < |b.order| && b.order[i] == g;
    if i > 0 { FirstBefore(b, start, brk, i); }
  }

  lemma FirstBefore(b: Books, start: nat, brk: nat, i: nat)
    requires Tiled(b, start, brk) && 0 < i < |b.order|
    ensures start <= b.order[i]
  {
    var first := b.order[0];
    assert first == start && first in b.cls;
    assert End(b, first) <= b.order[i];
  }

  lemma InvParts(m: Bytes, start: nat, brk: nat, free: seq<nat>, b: Books)
    requires Inv(m, start, brk, free, b)
    ensures 0 < start <= brk <= |m| < 0x8000_0000_0000_0000 && start % ALIGN == 0 && |free| == |b.lists| == CLASSES == |b.peak|
    ensures Tiled(b, start, brk) && Counted(b)
    ensures forall h :: h in b.live ==> h in b.cls
    ensures forall h :: h in b.cls ==> b.cls[h] < CLASSES && (h in b.live || h in b.lists[b.cls[h]])
  {
    hide Tiled, Size, ListOK, U64;
  }

  lemma BlockIs(m: Bytes, start: nat, brk: nat, free: seq<nat>, b: Books, h: nat)
    requires Inv(m, start, brk, free, b) && h in b.cls
    ensures BlockOK(m, b, h)
  {
    hide Tiled, Size, ListOK, U64, Counted, BlockOK;
  }

  lemma ListIs(m: Bytes, start: nat, brk: nat, free: seq<nat>, b: Books, c: nat)
    requires Inv(m, start, brk, free, b) && c < CLASSES
    ensures |free| == |b.lists| == CLASSES && ListOK(m, b, free[c], c)
  {
    hide Tiled, Size, U64, Counted, BlockOK, ListOK;
  }

  /** Inv from its parts. */
  lemma InvFrom(m: Bytes, start: nat, brk: nat, free: seq<nat>, b: Books)
    requires 0 < start <= brk <= |m| < 0x8000_0000_0000_0000 && start % ALIGN == 0 && |free| == |b.lists| == CLASSES
    requires Tiled(b, start, brk) && Counted(b)
    requires forall h :: h in b.cls ==> BlockOK(m, b, h) && (h in b.live || h in b.lists[b.cls[h]])
    requires forall c :: 0 <= c < CLASSES ==> ListOK(m, b, free[c], c)
    requires forall h :: h in b.live ==> h in b.cls
    ensures Inv(m, start, brk, free, b)
  {
    hide Tiled, Size, U64, Counted, ListOK;
  }

  // ---- header_of ----

  function HeaderOf(m: Bytes, p: nat): int
    requires HEADER <= p <= |m|
  {
    p - HEADER - U64(m, p - 8)
  }

  /** The word in front of a live pointer leads to its block. */
  lemma HeaderFound(m: Bytes, start: nat, brk: nat, free: seq<nat>, b: Books, h: nat)
    requires Inv(m, start, brk, free, b) && h in b.live
    ensures h in b.cls && var a := b.live[h];
            && h + HEADER <= a.p && a.p + a.n <= End(b, h) <= brk && a.p % ALIGN == 0
            && HEADER <= a.p <= |m| && HeaderOf(m, a.p) == h
            && (a.p > h + HEADER ==> h + 2 * HEADER <= a.p)
  {
    hide Tiled, Size, U64, Counted, ListOK;
    SizeBoundOf(m, start, brk, free, b, h);
    assert BlockOK(m, b, h);
  }

  /** Live allocations do not overlap. */
  lemma LiveApart(m: Bytes, start: nat, brk: nat, free: seq<nat>, b: Books, g: nat, h: nat)
    requires Inv(m, start, brk, free, b) && g in b.live && h in b.live && g != h
    ensures b.live[g].p + b.live[g].n <= b.live[h].p || b.live[h].p + b.live[h].n <= b.live[g].p
  {
    hide Tiled, Size, U64, Counted, ListOK;
    HeaderFound(m, start, brk, free, b, g);
    HeaderFound(m, start, brk, free, b, h);
    BlocksApart(b, start, brk, g, h);
  }

  // ---- writes inside one block ----

  lemma TiledSame(b: Books, b': Books, start: nat, brk: nat)
    requires Tiled(b, start, brk) && b'.cls == b.cls && b'.order == b.order
    ensures Tiled(b', start, brk)
  {
    hide End;
    EndSame(b, b');
  }

  lemma EndSame(b: Books, b': Books)
    requires b'.cls == b.cls
    ensures forall h :: h in b.cls ==> End(b', h) == End(b, h)
  {}

  /** Everything but block h itself, after a write inside it that keeps classes
      and lists. */
  lemma OthersKept(m: Bytes, m': Bytes, start: nat, brk: nat, free: seq<nat>, b: Books, b': Books, h: nat)
    requires Inv(m, start, brk, free, b) && h in b.cls && OnlyIn(m, m', h, End(b, h))
    requires b'.cls == b.cls && b'.order == b.order
    requires forall g :: g in b'.live && g != h ==> g in b.live && b'.live[g] == b.live[g]
    ensures Tiled(b', start, brk)
    ensures forall g :: g in b.cls && g != h ==> BlockOK(m', b', g)
  {
    hide Size, U64, Counted, ListOK, BlockOK, Inv, Tiled;
    InvParts(m, start, brk, free, b);
    TiledSame(b, b', start, brk);
    forall g | g in b.cls && g != h ensures BlockOK(m', b', g) {
      BlockIs(m, start, brk, free, b, g);
      BlocksApart(b, start, brk, g, h);
      BlockSame(m, m', b, b', g);
    }
  }

  /** The client writes its own bytes, or an interior header is written. */
  lemma LiveWritten(m: Bytes, m': Bytes, start: nat, brk: nat, free: seq<nat>, b: Books, h: nat, a: Alloc)
    requires Inv(m, start, brk, free, b) && h in b.live && h in b.cls && OnlyIn(m, m', h + HEADER, End(b, h))
    requires AllocOK(m', h, End(b, h), a)
    ensures Inv(m', start, brk, free, b.(live := b.live[h := a]))
  {
    hide Size, U64, Counted, ListOK, BlockOK, Tiled, AllocOK;
    var b' := b.(live := b.live[h := a]);
    InvParts(m, start, brk, free, b);
    BlockIs(m, start, brk, free, b, h);
    OthersKept(m, m', start, brk, free, b, b', h);
    OwnBlock(m, m', b, h, a);
    forall c | 0 <= c < CLASSES ensures ListOK(m', b', free[c], c) {
      ListIs(m, start, brk, free, b, c);
      ListKept(m, m', start, brk, free, b, b', h, c);
    }
    CountedSame(b, b');
    InvFrom(m', start, brk, free, b');
  }

  lemma CountedSame(b: Books, b': Books)
    requires Counted(b) && b'.cls == b.cls && b'.peak == b.peak
    ensures Counted(b')
  {
    forall c | 0 <= c < CLASSES ensures OfClass(b', c) == OfClass(b, c) {}
  }

  lemma OwnBlock(m: Bytes, m': Bytes, b: Books, h: nat, a: Alloc)
    requires BlockOK(m, b, h) && OnlyIn(m, m', h + HEADER, End(b, h)) && AllocOK(m', h, End(b, h), a)
    ensures BlockOK(m', b.(live := b.live[h := a]), h)
  {
    hide Size, U64, AllocOK;
    U64Same(m, m', h);
  }

  lemma ListKept(m: Bytes, m': Bytes, start: nat, brk: nat, free: seq<nat>, b: Books, b': Books, h: nat, c: nat)
    requires Inv(m, start, brk, free, b) && h in b.live && h in b.cls && OnlyIn(m, m', h, End(b, h)) && c < CLASSES
    requires b'.cls == b.cls && b'.lists == b.lists && (forall g :: g in b'.live ==> g in b.live)
    requires |free| == |b.lists| == CLASSES && ListOK(m, b, free[c], c)
    ensures ListOK(m', b', free[c], c)
  {
    hide Size, U64, Counted, BlockOK, Tiled, Inv;
    ListSame(m, m', b, start, brk, free, h, c);
  }

  // ---- malloc ----

  ghost function Peaked(b: Books, c: nat): Books
    requires c < |b.peak|
  {
    b.(peak := b.peak[c := if b.peak[c] < |LiveOfClass(b, c)| then |LiveOfClass(b, c)| else b.peak[c]])
  }

  /** A fresh block at the break. */
  ghost function Carved(b: Books, h: nat, c: nat, n: nat): Books
    requires c < |b.peak|
  {
    Peaked(b.(order := b.order + [h], cls := b.cls[h := c], live := b.live[h := Alloc(h + HEADER, n)]), c)
  }

  lemma CarvedTiled(b: Books, start: nat, brk: nat, c: nat, n: nat)
    requires Tiled(b, start, brk) && c < |b.peak|
    ensures brk !in b.cls
    ensures Tiled(Carved(b, brk, c, n), start, brk + HEADER + Size(c))
  {
    hide Size, LiveOfClass;
    var b' := Carved(b, brk, c, n);
    BrkIsNew(b, start, brk);
    TiledSnoc(b, b', start, brk, c);
  }

  lemma BrkIsNew(b: Books, start: nat, brk: nat)
    requires Tiled(b, start, brk)
    ensures brk !in b.cls
  {
    hide Size;
    forall i | 0 <= i < |b.order| ensures b.order[i] != brk { assert End(b, b.order[i]) <= brk; }
  }

  lemma TiledSnoc(b: Books, b': Books, start: nat, brk: nat, c: nat)
    requires Tiled(b, start, brk) && brk !in b.cls && b'.order == b.order + [brk] && b'.cls == b.cls[brk := c]
    ensures Tiled(b', start, brk + HEADER + Size(c))
  {
    hide Size;
    SnocListed(b, b', brk, c);
    SnocAdjacent(b, b', start, brk, c);
    SnocAscending(b, b', brk, c);
  }

  lemma SnocListed(b: Books, b': Books, brk: nat, c: nat)
    requires Listed(b) && brk !in b.cls && b'.order == b.order + [brk] && b'.cls == b.cls[brk := c]
    ensures Listed(b') && End(b', brk) == brk + HEADER + Size(c)
    ensures forall i :: 0 <= i < |b.order| ==> b'.order[i] == b.order[i] && End(b', b.order[i]) == End(b, b.order[i])
    ensures b'.order[|b.order|] == brk
  {
    hide Size;
    forall h | h in b'.cls ensures h in b'.order {
      if h == brk { assert b'.order[|b.order|] == h; } else { assert h in b.order; }
    }
  }

  lemma SnocAdjacent(b: Books, b': Books, start: nat, brk: nat, c: nat)
    requires Listed(b) && Adjacent(b, start, brk) && brk !in b.cls && b'.order == b.order + [brk] && b'.cls == b.cls[brk := c]
    ensures Listed(b') && Adjacent(b', start, brk + HEADER + Size(c))
  {
    hide Size, Listed, End;
    SnocListed(b, b', brk, c);
  }

  lemma SnocAscending(b: Books, b': Books, brk: nat, c: nat)
    requires Listed(b) && Ascending(b, brk) && brk !in b.cls && b'.order == b.order + [brk] && b'.cls == b.cls[brk := c]
    ensures Listed(b') && Ascending(b', brk + HEADER + Size(c))
  {
    hide Size, Listed, End;
    SnocListed(b, b', brk, c);
  }

  lemma CarvedCount(b: Books, h: nat, c: nat, n: nat)
    requires Counted(b) && c < CLASSES && h !in b.cls && (forall g :: g in b.cls && b.cls[g] == c ==> g in b.live)
    ensures Counted(Carved(b, h, c, n))
    ensures Carved(b, h, c, n).peak[c] == b.peak[c] + 1
  {
    var b' := Carved(b, h, c, n);
    assert OfClass(b', c) == OfClass(b, c) + {h};
    assert LiveOfClass(b', c) == OfClass(b', c);
    forall e | 0 <= e < CLASSES && e != c ensures OfClass(b', e) == OfClass(b, e) {}
  }

  lemma NewHeader(m: Bytes, h: nat, c: nat)
    requires h + HEADER <= |m| && c < CLASSES
    ensures var m' := PutU64(PutU64(m, h, c), h + 8, 0);
            && |m'| == |m| && OnlyIn(m, m', h, h + HEADER) && U64(m', h) == c && U64(m', h + 8) == 0
  {
    hide U64, PutU64;
    PutU64Is(m, h, c);
    PutU64Is(PutU64(m, h, c), h + 8, 0);
    U64Same(PutU64(m, h, c), PutU64(PutU64(m, h, c), h + 8, 0), h);
  }

  lemma CarveKeeps(m: Bytes, start: nat, brk: nat, free: seq<nat>, b: Books, c: nat, n: nat)
    requires Inv(m, start, brk, free, b) && c < CLASSES && |b.lists| == CLASSES && b.lists[c] == [] && |b.peak| == CLASSES
    requires brk + HEADER + Size(c) <= |m| && n <= Size(c)
    ensures Inv(PutU64(PutU64(m, brk, c), brk + 8, 0), start, brk + HEADER + Size(c), free, Carved(b, brk, c, n))
  {
    hide U64, PutU64, Size, Tiled, Counted, ListOK, BlockOK, Carved;
    var m' := PutU64(PutU64(m, brk, c), brk + 8, 0);
    var b' := Carved(b, brk, c, n);
    InvParts(m, start, brk, free, b);
    NewHeader(m, brk, c);
    CarvedTiled(b, start, brk, c, n);
    CarvedCount(b, brk, c, n);
    CarvedParts(b, brk, c, n);
    BrkAligned(m, start, brk, free, b);
    forall g | g in b'.cls ensures BlockOK(m', b', g) {
      if g == brk { CarvedBlock(m', b, brk, c, n); } else {
        BlockIs(m, start, brk, free, b, g);
        SizeBoundOf(m, start, brk, free, b, g);
        BlockSame(m, m', b, b', g);
      }
    }
    forall e | 0 <= e < CLASSES ensures ListOK(m', b', free[e], e) {
      ListIs(m, start, brk, free, b, e);
      CarvedList(m, m', start, brk, free, b, c, n, e);
    }
    InvFrom(m', start, brk + HEADER + Size(c), free, b');
  }

  lemma CarvedParts(b: Books, h: nat, c: nat, n: nat)
    requires c < |b.peak| && h !in b.cls
    ensures var b' := Carved(b, h, c, n);
            && b'.lists == b.lists && b'.cls == b.cls[h := c] && b'.live == b.live[h := Alloc(h + HEADER, n)]
            && PeakNow(b, b', c)
  {
    PeakedIs(b, b.(order := b.order + [h], cls := b.cls[h := c], live := b.live[h := Alloc(h + HEADER, n)]), c);
  }

  lemma BrkAligned(m: Bytes, start: nat, brk: nat, free: seq<nat>, b: Books)
    requires Inv(m, start, brk, free, b)
    ensures brk % ALIGN == 0
  {
    hide U64, Size, Counted, ListOK, BlockOK, Ascending;
    if b.order != [] {
      var g := b.order[|b.order| - 1];
      SizeBoundOf(m, start, brk, free, b, g);
    }
  }

  lemma CarvedBlock(m': Bytes, b: Books, h: nat, c: nat, n: nat)
    requires c < CLASSES && |b.peak| == CLASSES && n <= Size(c) && h % ALIGN == 0 && h > 0 && h + HEADER + Size(c) <= |m'| && h !in b.cls
    requires h + HEADER <= |m'| && U64(m', h) == c && U64(m', h + 8) == 0
    ensures BlockOK(m', Carved(b, h, c, n), h)
  {
    hide U64, Size;
  }

  lemma CarvedList(m: Bytes, m': Bytes, start: nat, brk: nat, free: seq<nat>, b: Books, c: nat, n: nat, e: nat)
    requires Inv(m, start, brk, free, b) && |free| == |b.lists| == CLASSES && |b.peak| == CLASSES && c < CLASSES && e < CLASSES
    requires ListOK(m, b, free[e], e) && OnlyIn(m, m', brk, brk + HEADER) && brk !in b.cls
    ensures ListOK(m', Carved(b, brk, c, n), free[e], e)
  {
    hide U64, Size, Tiled, Counted, BlockOK, Inv;
    var l := b.lists[e];
    forall i | 0 <= i < |l| ensures SameIn(m, m', l[i] + 16, l[i] + 24) {
      assert l[i] in l;
      SizeBoundOf(m, start, brk, free, b, l[i]);
    }
    LinkedSame(m, m', free[e], l);
  }

  /** The first block of the free list. */
  ghost function Popped(b: Books, c: nat, n: nat): Books
    requires c < |b.peak| && c < |b.lists| && b.lists[c] != []
  {
    var h := b.lists[c][0];
    Peaked(b.(lists := b.lists[c := b.lists[c][1..]], live := b.live[h := Alloc(h + HEADER, n)]), c)
  }

  lemma PoppedCount(b: Books, c: nat, n: nat)
    requires Counted(b) && c < CLASSES && |b.lists| == CLASSES && b.lists[c] != []
    ensures Counted(Popped(b, c, n)) && Popped(b, c, n).peak == b.peak
  {
    var b' := Popped(b, c, n);
    assert LiveOfClass(b', c) <= OfClass(b', c);
    SubsetSize(LiveOfClass(b', c), OfClass(b', c));
    forall e | 0 <= e < CLASSES ensures OfClass(b', e) == OfClass(b, e) {}
  }

  lemma {:induction false} SubsetSize(s: set<nat>, t: set<nat>)
    requires s <= t
    ensures |s| <= |t|
  {
    if s != {} {
      var x :| x in s;
      SubsetSize(s - {x}, t - {x});
    }
  }

  lemma ListHead(m: Bytes, start: nat, brk: nat, free: seq<nat>, b: Books, c: nat)
    requires Inv(m, start, brk, free, b) && c < CLASSES
    ensures |free| == |b.lists| == CLASSES && |b.peak| == CLASSES && (free[c] == 0 <==> b.lists[c] == [])
    ensures b.lists[c] != [] ==>
      var h := free[c];
      && h == b.lists[c][0] && h in b.cls && b.cls[h] == c && h !in b.live && End(b, h) <= brk <= |m| && ALIGN <= Size(c)
      && h % ALIGN == 0 && start <= h
  {
    hide U64, Size, Tiled, Counted, BlockOK;
    InvParts(m, start, brk, free, b);
    assert ListOK(m, b, free[c], c);
    if b.lists[c] != [] {
      assert ListOK(m, b, free[c], c) && b.lists[c][0] in b.lists[c];
      SizeBoundOf(m, start, brk, free, b, b.lists[c][0]);
    }
  }

  lemma PopKeeps(m: Bytes, start: nat, brk: nat, free: seq<nat>, free': seq<nat>, b: Books, c: nat, n: nat)
    requires Inv(m, start, brk, free, b) && c < CLASSES && |free| == |b.lists| == CLASSES && b.lists[c] != [] && |b.peak| == CLASSES && n <= Size(c)
    requires free[c] + 24 <= |m| && free' == free[c := U64(m, free[c] + 16)]
    ensures Inv(PutU64(m, free[c] + 8, 0), start, brk, free', Popped(b, c, n))
  {
    hide U64, PutU64, Size, Tiled, Counted, ListOK, BlockOK, Popped;
    var h := free[c];
    var m' := PutU64(m, h + 8, 0);
    var b' := Popped(b, c, n);
    InvParts(m, start, brk, free, b);
    ListHead(m, start, brk, free, b, c);
    PutU64Is(m, h + 8, 0);
    PoppedCount(b, c, n);
    PoppedParts(b, c, n);
    OthersKept(m, m', start, brk, free, b, b', h);
    BlockIs(m, start, brk, free, b, h);
    PoppedBlock(m, m', b, c, n);
    forall e | 0 <= e < CLASSES ensures ListOK(m', b', free'[e], e) {
      ListIs(m, start, brk, free, b, e);
      PoppedList(m, m', start, brk, free, free', b, c, n, e);
    }
    InvFrom(m', start, brk, free', b');
  }

  lemma PoppedParts(b: Books, c: nat, n: nat)
    requires c < |b.peak| && c < |b.lists| && b.lists[c] != []
    ensures var b' := Popped(b, c, n); var h := b.lists[c][0];
            && b'.cls == b.cls && b'.order == b.order && b'.live == b.live[h := Alloc(h + HEADER, n)]
            && b'.lists == b.lists[c := b.lists[c][1..]] && PeakNow(b, b', c)
    ensures forall g :: g in b.lists[c] && g != b.lists[c][0] ==> g in b.lists[c][1..]
  {
    var h := b.lists[c][0];
    PeakedIs(b, b.(lists := b.lists[c := b.lists[c][1..]], live := b.live[h := Alloc(h + HEADER, n)]), c);
  }

  lemma PoppedBlock(m: Bytes, m': Bytes, b: Books, c: nat, n: nat)
    requires c < CLASSES && |b.lists| == |b.peak| == CLASSES && b.lists[c] != []
    requires var h := b.lists[c][0];
             && BlockOK(m, b, h) && b.cls[h] == c && n <= Size(c) && ALIGN <= Size(c)
             && h + 16 <= |m| && OnlyIn(m, m', h + 8, h + 16) && U64(m', h + 8) == 0
    ensures BlockOK(m', Popped(b, c, n), b.lists[c][0])
  {
    hide U64, Size;
    U64Same(m, m', b.lists[c][0]);
  }

  lemma LinkedTail(m: Bytes, head: nat, l: seq<nat>)
    requires Linked(m, head, l) && l != []
    ensures head == l[0] && head + 24 <= |m| && Linked(m, U64(m, head + 16), l[1..])
  {
    hide U64;
    var t := l[1..];
    forall i | 0 <= i < |t| ensures t[i] + 24 <= |m| && U64(m, t[i] + 16) == NextIn(t, i) {
      assert t[i] == l[i + 1] && NextIn(t, i) == NextIn(l, i + 1);
    }
  }

  lemma LinksApart(m: Bytes, start: nat, brk: nat, free: seq<nat>, b: Books, h: nat, e: nat)
    requires Inv(m, start, brk, free, b) && h in b.cls && |b.lists| == CLASSES && e < CLASSES
    ensures forall g :: g in b.lists[e] && g != h ==> g + 24 <= h || End(b, h) <= g
  {
    hide U64, Size, Tiled, Counted, BlockOK, Inv;
    ListIs(m, start, brk, free, b, e);
    forall g | g in b.lists[e] && g != h ensures g + 24 <= h || End(b, h) <= g { LinkInside(m, start, brk, free, b, h, g); }
  }

  lemma PoppedList(m: Bytes, m': Bytes, start: nat, brk: nat, free: seq<nat>, free': seq<nat>, b: Books, c: nat, n: nat, e: nat)
    requires Inv(m, start, brk, free, b) && |free| == |b.lists| == CLASSES && |b.peak| == CLASSES && c < CLASSES && e < CLASSES
    requires b.lists[c] != [] && free[c] + 24 <= |m| && OnlyIn(m, m', free[c] + 8, free[c] + 16)
    requires ListOK(m, b, free[e], e) && free' == free[c := U64(m, free[c] + 16)]
    ensures ListOK(m', Popped(b, c, n), free'[e], e)
  {
    hide U64, Size, Tiled, Counted, BlockOK, Inv, Linked, Peaked;
    ListHead(m, start, brk, free, b, c);
    LinksApart(m, start, brk, free, b, free[c], e);
    var h := free[c];
    var l := b.lists[e];
    forall i | 0 <= i < |l| ensures SameIn(m, m', l[i] + 16, l[i] + 24) { assert l[i] in l; }
    LinkedSame(m, m', free[e], l);
    PoppedParts(b, c, n);
    if e == c {
      U64Same(m, m', h + 16);
      LinkedTail(m', h, l);
      forall g | g in l[1..] ensures g in l && g != h {
        var i :| 0 <= i < |l[1..]| && l[1..][i] == g;
        assert l[i + 1] == g && l[0] == h;
      }
    }
  }

  // ---- free ----

  ghost function Freed(b: Books, h: nat): Books
    requires h in b.cls && b.cls[h] < |b.lists|
  {
    var c := b.cls[h];
    b.(lists := b.lists[c := [h] + b.lists[c]], live := b.live - {h})
  }

  lemma FreedWords(m: Bytes, h: nat, next: nat)
    requires h + 24 <= |m| && next < SIZE_WRAP
    ensures var m' := PutU64(PutU64(m, h + 8, 0), h + 16, next);
            |m'| == |m| && OnlyIn(m, m', h + 8, h + 24) && U64(m', h + 16) == next
  {
    hide U64, PutU64;
    PutU64Is(m, h + 8, 0);
    PutU64Is(PutU64(m, h + 8, 0), h + 16, next);
  }

  lemma FreeKeeps(m: Bytes, start: nat, brk: nat, free: seq<nat>, free': seq<nat>, b: Books, h: nat, c: nat)
    requires Inv(m, start, brk, free, b) && h in b.live && h in b.cls && b.cls[h] == c < CLASSES == |free| == |b.lists|
    requires h + 24 <= |m| && free' == free[c := h]
    ensures Inv(PutU64(PutU64(m, h + 8, 0), h + 16, free[c]), start, brk, free', Freed(b, h))
  {
    hide U64, PutU64, Size, Tiled, Counted, ListOK, BlockOK, Freed;
    var m' := PutU64(PutU64(m, h + 8, 0), h + 16, free[c]);
    var b' := Freed(b, h);
    InvParts(m, start, brk, free, b);
    ListHead(m, start, brk, free, b, c);
    FreedWords(m, h, free[c]);
    SizeBoundOf(m, start, brk, free, b, h);
    FreedParts(b, h);
    OthersKept(m, m', start, brk, free, b, b', h);
    BlockIs(m, start, brk, free, b, h);
    FreedBlock(m, m', b, b', h);
    CountedSame(b, b');
    forall e | 0 <= e < CLASSES ensures ListOK(m', b', free'[e], e) {
      ListIs(m, start, brk, free, b, e);
      FreedList(m, m', start, brk, free, free', b, h, c, e);
    }
    InvFrom(m', start, brk, free', b');
  }

  lemma FreedParts(b: Books, h: nat)
    requires h in b.cls && b.cls[h] < |b.lists|
    ensures var b' := Freed(b, h); var c := b.cls[h];
            && b'.cls == b.cls && b'.order == b.order && b'.peak == b.peak && b'.live == b.live - {h}
            && b'.lists == b.lists[c := [h] + b.lists[c]] && h in b'.lists[c]
            && forall g :: g in b.lists[c] ==> g in b'.lists[c]
  {
    var l := [h] + b.lists[b.cls[h]];
    assert l[0] == h;
  }

  lemma FreedBlock(m: Bytes, m': Bytes, b: Books, b': Books, h: nat)
    requires BlockOK(m, b, h) && |m| >= h + 24 && OnlyIn(m, m', h + 8, h + 24) && b'.cls == b.cls && h !in b'.live
    ensures BlockOK(m', b', h)
  {
    hide U64, Size;
    U64Same(m, m', h);
  }

  lemma FreedList(m: Bytes, m': Bytes, start: nat, brk: nat, free: seq<nat>, free': seq<nat>, b: Books, h: nat, c: nat, e: nat)
    requires Inv(m, start, brk, free, b) && |free| == |b.lists| == CLASSES && c < CLASSES && e < CLASSES
    requires h in b.live && h in b.cls && b.cls[h] == c && h + 24 <= |m| && OnlyIn(m, m', h + 8, h + 24) && U64(m', h + 16) == free[c]
    requires ListOK(m, b, free[e], e) && free' == free[c := h]
    ensures ListOK(m', Freed(b, h), free'[e], e)
  {
    hide U64, Size, Tiled, Counted, BlockOK, Inv, Linked;
    LinksApart(m, start, brk, free, b, h, e);
    SizeBoundOf(m, start, brk, free, b, h);
    var l := b.lists[e];
    forall i | 0 <= i < |l| ensures SameIn(m, m', l[i] + 16, l[i] + 24) { assert l[i] in l; }
    LinkedSame(m, m', free[e], l);
    if e == c {
      LinkedCons(m', free[c], l, h);
      forall g | g in [h] + l ensures g == h || g in l {}
    }
  }

  lemma LinkedCons(m: Bytes, head: nat, l: seq<nat>, h: nat)
    requires Linked(m, head, l) && h + 24 <= |m| && U64(m, h + 16) == head
    ensures Linked(m, h, [h] + l)
  {
    hide U64;
    var t := [h] + l;
    forall i | 0 <= i < |t| ensures t[i] + 24 <= |m| && U64(m, t[i] + 16) == NextIn(t, i) {
      if i > 0 { assert t[i] == l[i - 1] && NextIn(t, i) == NextIn(l, i - 1); }
    }
  }

  // ---- aligned blocks ----

  /** (base + align - 1) & ~(align - 1), for a power of two */
  function RoundUp(base: nat, align: nat): (p: nat)
    requires align > 0
  {
    (base + align - 1) / align * align
  }

  lemma RoundUpIs(base: nat, align: nat)
    requires align > 0
    ensures base <= RoundUp(base, align) < base + align && RoundUp(base, align) % align == 0
  {
    var x := base + align - 1;
    assert x == x / align * align + x % align;
    DivExact(x / align, align);
  }

  lemma DivExact(q: nat, d: nat)
    requires d > 0
    ensures q * d % d == 0
  {
    var r := q * d % d;
    var k := q * d / d;
    assert q * d == k * d + r;
    if q < k { MulLess(q, k, d); }
    if k < q { MulLess(k, q, d); }
  }

  lemma MulLess(a: nat, b: nat, d: nat)
    requires a < b
    ensures a * d + d <= b * d
  {
    assert b * d == a * d + (b - a) * d;
    MulAtLeast(b - a, d);
  }

  lemma MulAtLeast(k: nat, d: nat)
    requires k >= 1
    ensures k * d >= d
  {}

  /** A multiple of a multiple of 16. */
  lemma MultipleOf16(p: nat, align: nat)
    requires align > 0 && align % ALIGN == 0 && p % align == 0
    ensures p % ALIGN == 0
  {
    var q := p / align;
    var r := align / ALIGN;
    assert p == q * align && align == ALIGN * r;
    assert q * (ALIGN * r) == q * r * ALIGN;
    DivExact(q * r, ALIGN);
  }

  /** aligned_alloc hands out a block of class (n + align) mod 2^64.  It holds n
      bytes from the aligned pointer exactly when that sum does not wrap. */
  lemma AlignedFits(base: nat, align: nat, n: nat)
    requires ALIGN < align <= 0x8000_0000_0000_0000 && n < SIZE_WRAP && ClassFor((n + align) % SIZE_WRAP) < CLASSES
    ensures RoundUp(base, align) + n <= base + Size(ClassFor((n + align) % SIZE_WRAP)) <==> n + align < SIZE_WRAP
  {
    hide ClassFor, Size, RoundUp;
    RoundUpIs(base, align);
    ClassHolds((n + align) % SIZE_WRAP);
    SizeBound(ClassFor((n + align) % SIZE_WRAP));
  }

  /** Asking for 2^64 - 16 bytes at a 32-byte boundary yields a 16-byte block. */
  lemma AlignedTooSmall()
    ensures var n, align := SIZE_WRAP - 16, 32;
            (n + align) % SIZE_WRAP == 16 && ClassFor((n + align) % SIZE_WRAP) == 0 && Size(0) == 16
  {
    LeastIs(16, 0, 0);
  }

  // ---- how far the break goes ----

  function Count(order: seq<nat>, cls: map<nat, nat>, c: nat, k: nat): nat
    requires k <= |order| && forall i :: 0 <= i < |order| ==> order[i] in cls
  {
    if k == 0 then 0 else Count(order, cls, c, k - 1) + if cls[order[k - 1]] == c then 1 else 0
  }

  /** The bytes of the first k blocks that are of a class below n. */
  function ByClass(order: seq<nat>, cls: map<nat, nat>, k: nat, n: nat): nat
    requires k <= |order| && forall i :: 0 <= i < |order| ==> order[i] in cls
  {
    if n == 0 then 0 else ByClass(order, cls, k, n - 1) + Count(order, cls, n - 1, k) * (HEADER + Size(n - 1))
  }

  lemma {:induction false} ByClassStep(order: seq<nat>, cls: map<nat, nat>, k: nat, n: nat)
    requires k < |order| && forall i :: 0 <= i < |order| ==> order[i] in cls
    ensures ByClass(order, cls, k + 1, n) == ByClass(order, cls, k, n) +
            (if cls[order[k]] < n then HEADER + Size(cls[order[k]]) else 0)
  {
    hide Size;
    if n > 0 {
      ByClassStep(order, cls, k, n - 1);
      var a, w := Count(order, cls, n - 1, k), HEADER + Size(n - 1);
      assert (a + 1) * w == a * w + w;
    }
  }

  lemma {:induction false} ByClassNone(order: seq<nat>, cls: map<nat, nat>, n: nat)
    requires forall i :: 0 <= i < |order| ==> order[i] in cls
    ensures ByClass(order, cls, 0, n) == 0
  {
    hide Size;
    if n > 0 { ByClassNone(order, cls, n - 1); }
  }

  lemma {:induction false} CarvedBytes(b: Books, start: nat, brk: nat, k: nat)
    requires Tiled(b, start, brk) && k <= |b.order| && forall h :: h in b.cls ==> b.cls[h] < CLASSES
    ensures ByClass(b.order, b.cls, k, CLASSES) == (if k == 0 then 0 else End(b, b.order[k - 1]) - start)
  {
    hide Size, ByClass;
    if k == 0 {
      ByClassNone(b.order, b.cls, CLASSES);
    } else {
      CarvedBytes(b, start, brk, k - 1);
      ByClassStep(b.order, b.cls, k - 1, CLASSES);
      if k > 1 { assert b.order[k - 1] == End(b, b.order[k - 2]); }
    }
  }

  ghost function FirstOfClass(order: seq<nat>, cls: map<nat, nat>, c: nat, k: nat): set<nat>
    requires k <= |order|
  {
    set h | h in order[..k] && h in cls && cls[h] == c
  }

  lemma OrderDistinct(b: Books, brk: nat)
    requires Listed(b) && Ascending(b, brk)
    ensures forall i, j :: 0 <= i < j < |b.order| ==> b.order[i] != b.order[j]
  {
    hide Size;
    forall i, j | 0 <= i < j < |b.order| ensures b.order[i] != b.order[j] { assert End(b, b.order[i]) <= b.order[j]; }
  }

  lemma {:induction false} CountIsSize(order: seq<nat>, cls: map<nat, nat>, c: nat, k: nat)
    requires k <= |order| && forall i :: 0 <= i < |order| ==> order[i] in cls
    requires forall i, j :: 0 <= i < j < |order| ==> order[i] != order[j]
    ensures |FirstOfClass(order, cls, c, k)| == Count(order, cls, c, k)
  {
    if k > 0 {
      CountIsSize(order, cls, c, k - 1);
      var h := order[k - 1];
      var s, t := FirstOfClass(order, cls, c, k), FirstOfClass(order, cls, c, k - 1);
      assert order[..k] == order[..k - 1] + [h];
      assert h !in order[..k - 1];
      assert s == if cls[h] == c then t + {h} else t;
    }
  }

  function PeakBytes(peak: seq<nat>, n: nat): nat
    requires n <= |peak|
  {
    if n == 0 then 0 else PeakBytes(peak, n - 1) + peak[n - 1] * (HEADER + Size(n - 1))
  }

  lemma {:induction false} PeakIsByClass(b: Books, brk: nat, n: nat)
    requires Listed(b) && Ascending(b, brk) && Counted(b) && n <= CLASSES
    ensures n <= |b.peak| && PeakBytes(b.peak, n) == ByClass(b.order, b.cls, |b.order|, n)
  {
    hide Size, Count, Ascending;
    if n > 0 {
      PeakIsByClass(b, brk, n - 1);
      OrderDistinct(b, brk);
      CountIsSize(b.order, b.cls, n - 1, |b.order|);
      assert b.order[..|b.order|] == b.order;
      assert OfClass(b, n - 1) == FirstOfClass(b.order, b.cls, n - 1, |b.order|);
    }
  }

  /** The break has advanced by the sum, over the classes, of the most blocks of
      the class that were ever live together times a block's size: the heap never
      grows for any other reason. */
  lemma GrowthBound(m: Bytes, start: nat, brk: nat, free: seq<nat>, b: Books)
    requires Inv(m, start, brk, free, b)
    ensures |b.peak| == CLASSES && brk - start == PeakBytes(b.peak, CLASSES)
  {
    hide Size, U64, BlockOK, ListOK, PeakBytes, ByClass, Counted;
    InvParts(m, start, brk, free, b);
    CarvedBytes(b, start, brk, |b.order|);
    PeakIsByClass(b, brk, CLASSES);
  }

  // ---- the most blocks live together ----

  /** A block of class c was handed out, or taken back. */
  datatype Event = Took(c: nat) | Gave(c: nat)

  function Larger(a: int, b: int): int { if a < b then b else a }

  function Bumped(n: int, e: Event, c: nat): int {
    if e.c != c then n else if e.Took? then n + 1 else n - 1
  }

  /** The live blocks of class c after these events, if there were n before. */
  function After(n: int, log: seq<Event>, c: nat): int
    decreases |log|
  {
    if log == [] then n else After(Bumped(n, log[0], c), log[1..], c)
  }

  /** The most of them at any time: before the events, between any two, and after. */
  function Most(n: int, log: seq<Event>, c: nat): int
    decreases |log|
  {
    if log == [] then n else Larger(n, Most(Bumped(n, log[0], c), log[1..], c))
  }

  ghost function LiveCount(b: Books, c: nat): nat { |LiveOfClass(b, c)| }

  /** In every class the live blocks are what these events make of them, and the peak has
      risen to the most that were live together on the way. */
  ghost predicate Tallied(b: Books, b': Books, log: seq<Event>) {
    && |b.peak| == |b'.peak| == CLASSES
    && forall c: nat :: c < CLASSES ==>
         && LiveCount(b', c) == After(LiveCount(b, c), log, c)
         && b'.peak[c] == Larger(b.peak[c], Most(LiveCount(b, c), log, c))
  }

  lemma {:induction false} MostConcat(n: int, a: seq<Event>, b: seq<Event>, c: nat)
    ensures After(n, a + b, c) == After(After(n, a, c), b, c)
    ensures Most(n, a + b, c) == Larger(Most(n, a, c), Most(After(n, a, c), b, c))
    decreases |a|
  {
    if a == [] {
      assert a + b == b;
      MostFirst(n, b, c);
    } else {
      assert (a + b)[1..] == a[1..] + b;
      MostConcat(Bumped(n, a[0], c), a[1..], b, c);
    }
  }

  lemma MostFirst(n: int, log: seq<Event>, c: nat)
    ensures Most(n, log, c) >= n
  {}

  lemma TalliedAgain(b: Books, b1: Books, b2: Books, log: seq<Event>, more: seq<Event>)
    requires Tallied(b, b1, log) && Tallied(b1, b2, more)
    ensures Tallied(b, b2, log + more)
  {
    hide LiveCount, After, Most;
    forall c: nat | c < CLASSES
      ensures LiveCount(b2, c) == After(LiveCount(b, c), log + more, c)
      ensures b2.peak[c] == Larger(b.peak[c], Most(LiveCount(b, c), log + more, c))
    {
      MostConcat(LiveCount(b, c), log, more, c);
    }
  }

  /** No more blocks are live than the peak says. */
  lemma LiveBelowPeak(m: Bytes, start: nat, brk: nat, free: seq<nat>, b: Books, c: nat)
    requires Inv(m, start, brk, free, b) && c < CLASSES
    ensures |b.peak| == CLASSES && LiveCount(b, c) <= b.peak[c]
  {
    hide Size, U64, BlockOK, ListOK, Tiled;
    SubsetSize(LiveOfClass(b, c), OfClass(b, c));
  }

  lemma OneEvent(n: int, e: Event, c: nat)
    ensures After(n, [e], c) == Bumped(n, e, c) && Most(n, [e], c) == Larger(n, Bumped(n, e, c))
  {
    var rest := [e][1..];
    assert rest == [];
  }

  /** Blocks keep their classes. */
  ghost predicate ClassesKept(b: Books, b': Books) {
    forall g :: g in b.cls ==> g in b'.cls && b'.cls[g] == b.cls[g]
  }

  lemma TookCount(b: Books, b': Books, c: nat, h: nat, e: nat)
    requires h !in b.live && b'.live.Keys == b.live.Keys + {h} && h in b'.cls && b'.cls[h] == c
    requires ClassesKept(b, b') && forall g :: g in b.live ==> g in b.cls
    ensures LiveCount(b', e) == LiveCount(b, e) + if e == c then 1 else 0
  {
    assert LiveOfClass(b', e) == LiveOfClass(b, e) + if e == c then {h} else {};
  }

  lemma TookOne(m: Bytes, start: nat, brk: nat, free: seq<nat>, b: Books, b': Books, c: nat, h: nat)
    requires Inv(m, start, brk, free, b) && h !in b.live && b'.live.Keys == b.live.Keys + {h} && h in b'.cls && b'.cls[h] == c
    requires PeakNow(b, b', c) && ClassesKept(b, b')
    ensures Tallied(b, b', [Took(c)])
  {
    hide Inv, Size, After, Most, LiveOfClass, ClassesKept, Tiled, Counted;
    InvParts(m, start, brk, free, b);
    forall e: nat | e < CLASSES
      ensures LiveCount(b', e) == After(LiveCount(b, e), [Took(c)], e)
      ensures b'.peak[e] == Larger(b.peak[e], Most(LiveCount(b, e), [Took(c)], e))
    {
      OneEvent(LiveCount(b, e), Took(c), e);
      LiveBelowPeak(m, start, brk, free, b, e);
      TookCount(b, b', c, h, e);
    }
  }

  lemma GaveCount(b: Books, b': Books, h: nat, e: nat)
    requires h in b.live && h in b.cls && b'.live == b.live - {h} && b'.cls == b.cls
    ensures LiveCount(b', e) == LiveCount(b, e) - if e == b.cls[h] then 1 else 0
  {
    assert LiveOfClass(b', e) == LiveOfClass(b, e) - if e == b.cls[h] then {h} else {};
  }

  lemma GaveOne(m: Bytes, start: nat, brk: nat, free: seq<nat>, b: Books, b': Books, h: nat)
    requires Inv(m, start, brk, free, b) && h in b.live && h in b.cls && b'.live == b.live - {h} && b'.cls == b.cls && b'.peak == b.peak
    ensures Tallied(b, b', [Gave(b.cls[h])])
  {
    hide Inv, Size, After, Most, LiveOfClass, Tiled, Counted;
    InvParts(m, start, brk, free, b);
    var c := b.cls[h];
    forall e: nat | e < CLASSES
      ensures LiveCount(b', e) == After(LiveCount(b, e), [Gave(c)], e)
      ensures b'.peak[e] == Larger(b.peak[e], Most(LiveCount(b, e), [Gave(c)], e))
    {
      OneEvent(LiveCount(b, e), Gave(c), e);
      LiveBelowPeak(m, start, brk, free, b, e);
      GaveCount(b, b', h, e);
    }
  }

  lemma TookNone(m: Bytes, start: nat, brk: nat, free: seq<nat>, b: Books, b': Books)
    requires Inv(m, start, brk, free, b) && b'.live.Keys == b.live.Keys && b'.cls == b.cls && b'.peak == b.peak
    ensures Tallied(b, b', [])
  {
    hide Inv, Size;
    InvParts(m, start, brk, free, b);
    forall e: nat | e < CLASSES
      ensures LiveCount(b', e) == LiveCount(b, e) && b'.peak[e] == Larger(b.peak[e], LiveCount(b, e))
    {
      LiveBelowPeak(m, start, brk, free, b, e);
      assert LiveOfClass(b', e) == LiveOfClass(b, e);
    }
  }

  // ---- the functions of the source ----

  /** The bytes of every live allocation are as before. */
  ghost predicate Untouched(m: Bytes, m': Bytes, live: map<nat, Alloc>) {
    forall h :: h in live ==> SameIn(m, m', live[h].p, live[h].p + live[h].n)
  }

  /** malloc's two failures: no class holds n bytes, or their class has no free block and
      the break cannot go on for a new one. */
  ghost predicate NoRoom(b: Books, brk: nat, limit: nat, n: nat) {
    var c := ClassFor(n);
    c == CLASSES || (c < |b.lists| && b.lists[c] == [] && brk + HEADER + Size(c) > limit)
  }

  /** p is a pointer that was handed out and not freed; h its block. */
  ghost predicate Points(b: Books, h: nat, p: nat) { h in b.live && b.live[h].p == p }

  lemma OutsideLive(m: Bytes, m': Bytes, start: nat, brk: nat, free: seq<nat>, b: Books, h: nat)
    requires Inv(m, start, brk, free, b) && h in b.cls && h !in b.live && OnlyIn(m, m', h, End(b, h))
    ensures Untouched(m, m', b.live)
  {
    hide U64, Size, Tiled, Counted, ListOK, BlockOK, Inv, End;
    InvParts(m, start, brk, free, b);
    forall g | g in b.live ensures SameIn(m, m', b.live[g].p, b.live[g].p + b.live[g].n) {
      HeaderFound(m, start, brk, free, b, g);
      BlocksApart(b, start, brk, g, h);
    }
  }

  lemma PastBreak(m: Bytes, m': Bytes, start: nat, brk: nat, free: seq<nat>, b: Books)
    requires Inv(m, start, brk, free, b) && OnlyIn(m, m', brk, |m|)
    ensures Untouched(m, m', b.live)
  {
    hide U64, Size, Tiled, Counted, ListOK, BlockOK, Inv;
    forall g | g in b.live ensures SameIn(m, m', b.live[g].p, b.live[g].p + b.live[g].n) { HeaderFound(m, start, brk, free, b, g); }
  }

  /** A write inside live block h leaves the other allocations alone. */
  lemma OthersUntouched(m: Bytes, m': Bytes, start: nat, brk: nat, free: seq<nat>, b: Books, h: nat)
    requires Inv(m, start, brk, free, b) && h in b.cls && OnlyIn(m, m', h, End(b, h))
    ensures Untouched(m, m', b.live - {h})
  {
    hide U64, Size, Tiled, Counted, ListOK, BlockOK, Inv, End;
    InvParts(m, start, brk, free, b);
    forall g | g in b.live && g != h ensures SameIn(m, m', b.live[g].p, b.live[g].p + b.live[g].n) {
      HeaderFound(m, start, brk, free, b, g);
      BlocksApart(b, start, brk, g, h);
    }
  }

  class Allocator {
    const start: nat
    var mem: Bytes
    var brk: nat
    var freeLists: seq<nat>
    ghost var books: Books

    ghost predicate Valid()
      reads this
    {
      Inv(mem, start, brk, freeLists, books)
    }

    /** Memory up to the heap's end, with nothing carved. */
    constructor (start: nat, mem: Bytes)
      requires 0 < start <= |mem| < 0x8000_0000_0000_0000 && start % ALIGN == 0
      ensures Valid() && books.live == map[] && this.start == start && this.mem == mem && brk == start
      ensures books.peak == seq(CLASSES, _ => 0)
    {
      this.start, this.mem, this.brk := start, mem, start;
      this.freeLists := seq(CLASSES, _ => 0);
      this.books := Books([], map[], seq(CLASSES, _ => []), map[], seq(CLASSES, _ => 0));
      new;
      assert forall c :: 0 <= c < CLASSES ==> OfClass(books, c) == {};
    }

    /** _sbrk: the old break, or -1 when the heap's end is reached. */
    method Sbrk(incr: nat) returns (r: int)
      modifies this`brk
      ensures if old(brk) + incr > |mem| then r == -1 && brk == old(brk) else r == old(brk) && brk == old(brk) + incr
    {
      if brk + incr > |mem| { return -1; }
      r := brk;
      brk := brk + incr;
    }

    /** The first block of a free list. */
    method Reuse(c: nat, n: nat) returns (p: nat)
      requires Valid() && c < CLASSES && n <= Size(c) && |freeLists| == |books.lists| == CLASSES && freeLists[c] != 0
      modifies this`mem, this`freeLists, this`books
      ensures Valid() && |mem| == |old(mem)| && Handed(old(mem), mem, old(books), books, c, n, p)
    {
      hide Size, U64, PutU64, Inv, Popped, Untouched, PeakNow;
      ghost var m, b := mem, books;
      ListHead(mem, start, brk, freeLists, b, c);
      var h := freeLists[c];
      PopKeeps(mem, start, brk, freeLists, freeLists[c := U64(mem, h + 16)], b, c, n);
      PopUntouched(m, start, brk, freeLists, b, c);
      PoppedParts(b, c, n);
      freeLists := freeLists[c := U64(mem, h + 16)];
      mem := PutU64(mem, h + 8, 0);
      books := Popped(b, c, n);
      return h + HEADER;
    }

    /** A new block at the break; 0 when the heap's end is reached. */
    method Extend(c: nat, n: nat) returns (p: nat)
      requires Valid() && c < CLASSES && n <= Size(c) && |books.lists| == CLASSES && books.lists[c] == []
      modifies this`mem, this`brk, this`books
      ensures Valid() && |mem| == |old(mem)|
      ensures p == 0 <==> old(brk) + HEADER + Size(c) > |mem|
      ensures p == 0 ==> mem == old(mem) && brk == old(brk) && books == old(books)
      ensures p != 0 ==> Handed(old(mem), mem, old(books), books, c, n, p)
    {
      hide Size, U64, PutU64, Inv, Carved, Untouched, Tiled, Counted, PeakNow;
      ghost var m, b := mem, books;
      BrkAligned(mem, start, brk, freeLists, b);
      InvParts(mem, start, brk, freeLists, b);
      var r := Sbrk(HEADER + Size(c));
      if r == -1 { return 0; }
      var h: nat := r;
      CarveKeeps(mem, start, h, freeLists, b, c, n);
      CarveUntouched(m, start, h, freeLists, b, c);
      BrkNotLive(m, start, h, freeLists, b);
      CarvedParts(b, h, c, n);
      mem := PutU64(mem, h, c);
      mem := PutU64(mem, h + 8, 0);
      books := Carved(b, h, c, n);
      return h + HEADER;
    }

    /** malloc: 0 for none, and then nothing changed; otherwise a block of the
        request's class that no live allocation uses. */
    method Malloc(n: nat) returns (p: nat)
      requires Valid() && n < SIZE_WRAP
      modifies this`mem, this`brk, this`freeLists, this`books
      ensures Valid() && |mem| == |old(mem)|
      ensures p == 0 ==> mem == old(mem) && brk == old(brk) && freeLists == old(freeLists) && books == old(books)
      ensures p == 0 <==> NoRoom(old(books), old(brk), |mem|, n)
      ensures p != 0 ==> Handed(old(mem), mem, old(books), books, ClassFor(n), n, p)
      ensures p != 0 ==> Tallied(old(books), books, [Took(ClassFor(n))])
    {
      hide ClassFor, Size, Inv, Handed, Tallied;
      InvParts(mem, start, brk, freeLists, books);
      var c := ClassOf(n);
      ClassHolds(n);
      if c >= CLASSES { return 0; }
      ListHead(mem, start, brk, freeLists, books, c);
      HandedIs(old(mem), mem, old(books), books, c, n, 0);
      if freeLists[c] != 0 {
        p := Reuse(c, n);
      } else {
        p := Extend(c, n);
      }
      HandedIs(old(mem), mem, old(books), books, c, n, p);
      if p != 0 { HandedTally(old(mem), mem, start, old(brk), old(freeLists), old(books), books, c, n, p); }
    }

    /** free: a live pointer, or 0. */
    method Free(p: nat, ghost h: nat)
      requires Valid() && (p == 0 || Points(books, h, p))
      modifies this`mem, this`freeLists, this`books
      ensures Valid() && |mem| == |old(mem)|
      ensures p == 0 ==> mem == old(mem) && books == old(books)
      ensures p != 0 ==> books.live == old(books).live - {h} && Untouched(old(mem), mem, old(books).live - {h})
      ensures p != 0 ==> h in old(books).cls && Tallied(old(books), books, [Gave(old(books).cls[h])])
      ensures books.peak == old(books).peak && books.cls == old(books).cls
    {
      hide Size, U64, PutU64, Inv, Freed, Untouched, Tiled, Counted, Tallied;
      if p == 0 {
        return;
      }
      ghost var m, b := mem, books;
      InvParts(m, start, brk, freeLists, b);
      HeaderFound(m, start, brk, freeLists, b, h);
      SizeBoundOf(m, start, brk, freeLists, b, h);
      ListHead(m, start, brk, freeLists, b, b.cls[h]);
      var g := HeaderOf(mem, p);
      var c := U64(mem, g);
      FreeKeeps(m, start, brk, freeLists, freeLists[c := g], b, g, c);
      FreeUntouched(m, start, brk, freeLists, b, g, c);
      FreedParts(b, g);
      mem := PutU64(mem, g + 8, 0);
      mem := PutU64(mem, g + 16, freeLists[c]);
      freeLists := freeLists[c := g];
      books := Freed(b, g);
      GaveOne(m, start, brk, old(freeLists), b, books, h);
    }

    /** usable: the bytes from p to its block's end. */
    method Usable(p: nat, ghost h: nat) returns (n: nat)
      requires Valid() && Points(books, h, p)
      ensures h in books.cls && p + n == End(books, h) && books.live[h].n <= n
    {
      hide Size, U64, Inv;
      HeaderFound(mem, start, brk, freeLists, books, h);
      SizeBoundOf(mem, start, brk, freeLists, books, h);
      var g := HeaderOf(mem, p);
      n := Size(U64(mem, g)) - (p - (g + HEADER));
    }

    /** The program writes a byte of a live allocation. */
    method Store(p: nat, i: nat, v: byte, ghost h: nat)
      requires Valid() && Points(books, h, p) && i < books.live[h].n && p + i < |mem|
      modifies this`mem
      ensures Valid() && mem == old(mem)[p + i := v] && Untouched(old(mem), mem, books.live - {h})
    {
      hide Size, U64, Inv, Untouched;
      ghost var m := mem;
      HeaderFound(m, start, brk, freeLists, books, h);
      mem := mem[p + i := v];
      StoreKeeps(m, mem, start, brk, freeLists, books, h, p + i, p + i + 1);
    }

    /** realloc: the bytes that both sizes cover are kept. */
    method Realloc(p: nat, n: nat, ghost h: nat) returns (q: nat)
      requires Valid() && n < SIZE_WRAP && (p == 0 || Points(books, h, p))
      modifies this`mem, this`brk, this`freeLists, this`books
      ensures Valid() && |mem| == |old(mem)|
      ensures p == 0 ==> (q == 0 <==> NoRoom(old(books), old(brk), |mem|, n))
      ensures p != 0 ==>
        && h in old(books).cls
        && (q == p <==> n <= End(old(books), h) - p)
        && (q == 0 <==> n > End(old(books), h) - p && NoRoom(old(books), old(brk), |mem|, n))
      ensures q == 0 ==> mem == old(mem) && books == old(books)
      ensures q != 0 && p == 0 ==> Handed(old(mem), mem, old(books), books, ClassFor(n), n, q)
      ensures q != 0 && p != 0 ==> Reallocated(old(mem), mem, old(books), books, h, p, q, n)
      ensures q != 0 ==> Tallied(old(books), books,
                                 if p == 0 then [Took(ClassFor(n))]
                                 else if q == p then [] else [Took(ClassFor(n)), Gave(old(books).cls[h])])
    {
      hide NoRoom, ClassFor, Size, U64, Inv, Handed, Untouched, End, Tallied;
      if p == 0 {
        q := Malloc(n);
        HandedIs(old(mem), mem, old(books), books, ClassFor(n), n, q);
        return;
      }
      var have := Usable(p, h);
      if n <= have {
        ResizeKeeps(mem, start, brk, freeLists, books, h, n);
        books := books.(live := books.live[h := Alloc(p, n)]);
        TookNone(mem, start, brk, freeLists, old(books), books);
        InPlace(mem, start, brk, freeLists, old(books), h, p, n);
        return p;
      }
      q := Grow(p, n, have, h);
    }

    /** realloc's second half: a new block, the old bytes, and free. */
    method Grow(p: nat, n: nat, have: nat, ghost h: nat) returns (q: nat)
      requires Valid() && n < SIZE_WRAP && Points(books, h, p) && p != 0
      requires h in books.cls && p + have == End(books, h) && books.live[h].n <= have < n
      modifies this`mem, this`brk, this`freeLists, this`books
      ensures Valid() && |mem| == |old(mem)|
      ensures q != p && (q == 0 <==> NoRoom(old(books), old(brk), |mem|, n))
      ensures q == 0 ==> mem == old(mem) && books == old(books)
      ensures q != 0 ==> Reallocated(old(mem), mem, old(books), books, h, p, q, n)
      ensures q != 0 ==> Tallied(old(books), books, [Took(ClassFor(n)), Gave(old(books).cls[h])])
    {
      hide Tallied, NoRoom, ClassFor, Size, U64, Inv, Handed, Untouched, HeaderOf, Reallocated, End, PutBytes, Tiled, Counted;
      ghost var m, b := mem, books;
      GrowFrom(m, start, brk, freeLists, b, h, p, have);
      q := Malloc(n);
      if q == 0 { return; }
      ghost var m1, b1 := mem, books;
      HandedParts(m, m1, b, b1, ClassFor(n), n, q);
      ghost var g := q - HEADER;
      GrowInto(m1, start, brk, freeLists, b1, h, g, p, q, n);
      NewPlace(m1, start, brk, freeLists, b1, h, g);
      mem := PutBytes(mem, q, mem[p..p + have]);
      ghost var m2 := mem;
      PutOnly(m1, q, m1[p..p + have]);
      StoreKeeps(m1, m2, start, brk, freeLists, b1, g, q, q + have);
      Free(p, h);
      TalliedAgain(b, b1, books, [Took(ClassFor(n))], [Gave(b.cls[h])]);
      assert [Took(ClassFor(n))] + [Gave(b.cls[h])] == [Took(ClassFor(n)), Gave(b.cls[h])];
      Copied(m, m1, m2, mem, b, b1, books, h, g, p, q, n, have);
    }

    /** calloc: the product must not overflow; the bytes are zero. */
    method Calloc(count: nat, size: nat) returns (p: nat)
      requires Valid() && count < SIZE_WRAP && size < SIZE_WRAP
      modifies this`mem, this`brk, this`freeLists, this`books
      ensures Valid() && |mem| == |old(mem)|
      ensures p == 0 <==> count * size >= SIZE_WRAP || NoRoom(old(books), old(brk), |mem|, count * size)
      ensures p == 0 ==> mem == old(mem) && books == old(books)
      ensures p != 0 ==> Zeroed(mem, p, count * size) && Untouched(old(mem), mem, old(books).live)
      ensures p != 0 ==> Gained(old(books), books, p, count * size) && Tallied(old(books), books, [Took(ClassFor(count * size))])
    {
      hide Tallied, NoRoom, ClassFor, Size, U64, Inv, Handed, Untouched, PutBytes, Zeroed, Tiled, Counted, Gained;
      var n: nat := Product(count, size);
      if n >= SIZE_WRAP { return 0; }
      p := Malloc(n);
      if p == 0 { return; }
      ghost var m1, b1 := mem, books;
      HandedParts(old(mem), m1, old(books), b1, ClassFor(n), n, p);
      ghost var h := p - HEADER;
      GrowInto2(m1, start, brk, freeLists, b1, h, p, n);
      mem := PutBytes(mem, p, Zeros(n));
      PutOnly(m1, p, Zeros(n));
      StoreKeeps(m1, mem, start, brk, freeLists, b1, h, p, p + n);
      ZeroedNow(old(mem), m1, mem, old(books), b1, h, p, n);
      GainedOne(old(books), books, h, p, n);
    }

    /** aligned_alloc, where the sum that it asks malloc for does not wrap: n bytes at a
        multiple of align, and a header in front that leads back. */
    method AlignedAlloc(align: nat, n: nat, ghost k: nat) returns (p: nat)
      requires Valid() && align == Pow2(k) && n < SIZE_WRAP && (align > ALIGN ==> n + align < SIZE_WRAP)
      modifies this`mem, this`brk, this`freeLists, this`books
      ensures Valid() && |mem| == |old(mem)|
      ensures p == 0 <==> NoRoom(old(books), old(brk), |mem|, if align > ALIGN then n + align else n)
      ensures p == 0 ==> mem == old(mem) && books == old(books)
      ensures p != 0 && align > ALIGN ==> p % align == 0
      ensures p != 0 ==> p % ALIGN == 0 && Untouched(old(mem), mem, old(books).live)
      ensures p != 0 ==> Gained(old(books), books, p, n)
      ensures p != 0 ==> Tallied(old(books), books, [Took(ClassFor(if align > ALIGN then n + align else n))])
    {
      hide Tallied, NoRoom, Gained, ClassFor, Size, U64, PutU64, Inv, Handed, Untouched, Tiled, Counted, RoundUp, Pow2;
      if align <= ALIGN {
        p := Malloc(n);
        HandedIs(old(mem), mem, old(books), books, ClassFor(n), n, p);
        if p != 0 {
          HandedParts(old(mem), mem, old(books), books, ClassFor(n), n, p);
          GainedOne(old(books), books, p - HEADER, p, n);
        }
        return;
      }
      var base := Malloc(n + align);
      if base == 0 { return 0; }
      ghost var m1, b1 := mem, books;
      HandedParts(old(mem), m1, old(books), b1, ClassFor(n + align), n + align, base);
      ghost var h := base - HEADER;
      p := RoundUp(base, align);
      AlignedPlace(m1, start, brk, freeLists, b1, h, base, align, n, k);
      if p != base {
        mem := PutU64(mem, p - 8, p - base);
        InteriorKeeps(m1, mem, start, brk, freeLists, b1, h, base, p, n);
      } else {
        ResizeKeeps(m1, start, brk, freeLists, b1, h, n);
        Unchanged(m1, b1.live - {h});
      }
      books := books.(live := books.live[h := Alloc(p, n)]);
      TookNone(m1, start, brk, freeLists, b1, books);
      TalliedAgain(old(books), b1, books, [Took(ClassFor(n + align))], []);
      assert [Took(ClassFor(n + align))] + [] == [Took(ClassFor(n + align))];
      AlignedDone(old(mem), m1, mem, old(books), b1, h, base, n + align, p, n);
      GainedOne(old(books), books, h, p, n);
    }
  }

  /** A block of class c was handed out at p for n bytes; it was not live, no other block
      changed its class, and no live byte changed. */
  ghost predicate Handed(m: Bytes, m': Bytes, b: Books, b': Books, c: nat, n: nat, p: nat) {
    && p >= HEADER && p > 0 && p % ALIGN == 0
    && var h := p - HEADER;
    && h !in b.live && b'.live == b.live[h := Alloc(p, n)]
    && h in b'.cls && b'.cls[h] == c
    && PeakNow(b, b', c) && ClassesKept(b, b')
    && Untouched(m, m', b.live)
  }

  /** The peak of class c follows its number of live blocks; the others stay. */
  ghost predicate PeakNow(b: Books, b': Books, c: nat) {
    && c < |b.peak|
    && b'.peak == b.peak[c := if b.peak[c] < |LiveOfClass(b', c)| then |LiveOfClass(b', c)| else b.peak[c]]
  }

  lemma PeakedIs(b: Books, x: Books, c: nat)
    requires c < |x.peak| && x.peak == b.peak
    ensures PeakNow(b, Peaked(x, c), c)
  {
    assert LiveOfClass(Peaked(x, c), c) == LiveOfClass(x, c);
  }

  lemma HandedIs(m: Bytes, m': Bytes, b: Books, b': Books, c: nat, n: nat, p: nat)
    ensures Handed(m, m', b, b', c, n, p) ==> p != 0
  {}

  lemma HandedTally(m: Bytes, m': Bytes, start: nat, brk: nat, free: seq<nat>, b: Books, b': Books, c: nat, n: nat, p: nat)
    requires Inv(m, start, brk, free, b) && Handed(m, m', b, b', c, n, p)
    ensures Tallied(b, b', [Took(c)])
  {
    hide Inv, Untouched, PeakNow, ClassesKept, Tallied;
    TookOne(m, start, brk, free, b, b', c, p - HEADER);
  }

  lemma BrkNotLive(m: Bytes, start: nat, brk: nat, free: seq<nat>, b: Books)
    requires Inv(m, start, brk, free, b)
    ensures brk !in b.live && brk !in b.cls
  {
    hide U64, Size, Counted, ListOK, BlockOK, Tiled, Inv;
    InvParts(m, start, brk, free, b);
    BrkIsNew(b, start, brk);
  }

  lemma Unchanged(m: Bytes, live: map<nat, Alloc>)
    ensures Untouched(m, m, live)
  {}

  lemma PopUntouched(m: Bytes, start: nat, brk: nat, free: seq<nat>, b: Books, c: nat)
    requires Inv(m, start, brk, free, b) && c < CLASSES && |free| == |b.lists| == CLASSES && b.lists[c] != [] && free[c] + 24 <= |m|
    ensures Untouched(m, PutU64(m, free[c] + 8, 0), b.live)
  {
    hide U64, PutU64, Size, Inv, Untouched;
    ListHead(m, start, brk, free, b, c);
    PutU64Is(m, free[c] + 8, 0);
    OutsideLive(m, PutU64(m, free[c] + 8, 0), start, brk, free, b, free[c]);
  }

  lemma CarveUntouched(m: Bytes, start: nat, brk: nat, free: seq<nat>, b: Books, c: nat)
    requires Inv(m, start, brk, free, b) && c < CLASSES && brk + HEADER <= |m|
    ensures Untouched(m, PutU64(PutU64(m, brk, c), brk + 8, 0), b.live)
  {
    hide U64, PutU64, Size, Inv, Untouched;
    NewHeader(m, brk, c);
    PastBreak(m, PutU64(PutU64(m, brk, c), brk + 8, 0), start, brk, free, b);
  }

  lemma MapAgain(live: map<nat, Alloc>, h: nat, a: Alloc)
    ensures live[h := a] == (live - {h})[h := a]
  {}

  lemma FreeUntouched(m: Bytes, start: nat, brk: nat, free: seq<nat>, b: Books, h: nat, c: nat)
    requires Inv(m, start, brk, free, b) && h in b.live && h in b.cls && h + 24 <= End(b, h) <= |m| && c < |free| && free[c] < SIZE_WRAP
    ensures Untouched(m, PutU64(PutU64(m, h + 8, 0), h + 16, free[c]), b.live - {h})
  {
    hide U64, PutU64, Size, Inv, Untouched, End;
    FreedWords(m, h, free[c]);
    OthersUntouched(m, PutU64(PutU64(m, h + 8, 0), h + 16, free[c]), start, brk, free, b, h);
  }

  /** Bytes of a live allocation were written. */
  lemma StoreKeeps(m: Bytes, m': Bytes, start: nat, brk: nat, free: seq<nat>, b: Books, h: nat, lo: nat, hi: nat)
    requires Inv(m, start, brk, free, b) && h in b.live && OnlyIn(m, m', lo, hi)
    requires b.live[h].p <= lo && hi <= b.live[h].p + b.live[h].n
    ensures Inv(m', start, brk, free, b) && Untouched(m, m', b.live - {h})
  {
    hide U64, Size, Inv, Untouched, BlockOK, ListOK, Tiled, Counted;
    HeaderFound(m, start, brk, free, b, h);
    AllocStill(m, m', start, brk, free, b, h, lo, hi);
    LiveWritten(m, m', start, brk, free, b, h, b.live[h]);
    assert b.live[h := b.live[h]] == b.live;
    assert b.(live := b.live[h := b.live[h]]) == b;
    OthersUntouched(m, m', start, brk, free, b, h);
  }

  lemma AllocStill(m: Bytes, m': Bytes, start: nat, brk: nat, free: seq<nat>, b: Books, h: nat, lo: nat, hi: nat)
    requires Inv(m, start, brk, free, b) && h in b.live && h in b.cls && OnlyIn(m, m', lo, hi)
    requires b.live[h].p <= lo && hi <= b.live[h].p + b.live[h].n
    ensures End(b, h) <= |m'| && AllocOK(m', h, End(b, h), b.live[h])
  {
    hide U64, Size, Inv, ListOK, Tiled, Counted;
    BlockIs(m, start, brk, free, b, h);
    var a := b.live[h];
    if a.p == h + HEADER { U64Same(m, m', h + 8); } else { U64Same(m, m', a.p - 8); }
  }

  /** Another size for the same pointer, inside its block. */
  lemma ResizeKeeps(m: Bytes, start: nat, brk: nat, free: seq<nat>, b: Books, h: nat, n: nat)
    requires Inv(m, start, brk, free, b) && h in b.live && h in b.cls && b.live[h].p + n <= End(b, h)
    ensures Inv(m, start, brk, free, b.(live := b.live[h := Alloc(b.live[h].p, n)]))
  {
    hide U64, Size, Inv, ListOK, Tiled, Counted;
    BlockIs(m, start, brk, free, b, h);
    LiveWritten(m, m, start, brk, free, b, h, Alloc(b.live[h].p, n));
  }

  lemma HandedParts(m: Bytes, m': Bytes, b: Books, b': Books, c: nat, n: nat, p: nat)
    requires Handed(m, m', b, b', c, n, p)
    ensures p > 0 && p >= HEADER && p - HEADER !in b.live && b'.live == b.live[p - HEADER := Alloc(p, n)] && Untouched(m, m', b.live)
    ensures p % ALIGN == 0 && p - HEADER in b'.cls && b'.cls[p - HEADER] == c && ClassesKept(b, b')
  {
    hide Untouched;
  }

  lemma GrowFrom(m: Bytes, start: nat, brk: nat, free: seq<nat>, b: Books, h: nat, p: nat, have: nat)
    requires Inv(m, start, brk, free, b) && Points(b, h, p) && h in b.cls && p + have == End(b, h)
    ensures p + have <= |m|
  {
    hide U64, Size, Inv;
    HeaderFound(m, start, brk, free, b, h);
    InvParts(m, start, brk, free, b);
  }

  lemma NewPlace(m: Bytes, start: nat, brk: nat, free: seq<nat>, b: Books, h: nat, g: nat)
    requires Inv(m, start, brk, free, b) && g in b.live && h in b.live && g != h
    ensures b.live[g].p != b.live[h].p
  {
    hide U64, Size, Inv, Tiled, Counted, ListOK, BlockOK, End;
    InvParts(m, start, brk, free, b);
    HeaderFound(m, start, brk, free, b, g);
    HeaderFound(m, start, brk, free, b, h);
    BlocksApart(b, start, brk, g, h);
  }

  lemma GrowInto(m: Bytes, start: nat, brk: nat, free: seq<nat>, b: Books, h: nat, g: nat, p: nat, q: nat, n: nat)
    requires Inv(m, start, brk, free, b) && g in b.live && b.live[g] == Alloc(q, n) && h in b.live && b.live[h].p == p && g != h
    ensures q + n <= |m| && Points(b, h, p)
  {
    hide U64, Size, Inv;
    HeaderFound(m, start, brk, free, b, g);
    InvParts(m, start, brk, free, b);
  }

  lemma PutOnly(m: Bytes, q: nat, s: Bytes)
    requires q + |s| <= |m|
    ensures OnlyIn(m, PutBytes(m, q, s), q, q + |s|)
  {}

  /** k bytes at q are those that were at p. */
  ghost predicate Carried(m: Bytes, m': Bytes, p: nat, q: nat, k: nat) {
    p + k <= |m| && q + k <= |m'| && m'[q..q + k] == m[p..p + k]
  }

  /** The allocation of block h moved to q with n bytes: what both sizes cover
      was carried over, and the other allocations were not touched. */
  ghost predicate Reallocated(m: Bytes, m': Bytes, b: Books, b': Books, h: nat, p: nat, q: nat, n: nat) {
    && h in b.live
    && (exists g :: Points(b', g, q) && g !in b.live - {h} && b'.live == (b.live - {h})[g := Alloc(q, n)])
    && Carried(m, m', p, q, if n < b.live[h].n then n else b.live[h].n)
    && Untouched(m, m', b.live - {h})
  }

  lemma InPlace(m: Bytes, start: nat, brk: nat, free: seq<nat>, b: Books, h: nat, p: nat, n: nat)
    requires Inv(m, start, brk, free, b) && Points(b, h, p)
    ensures Reallocated(m, m, b, b.(live := b.live[h := Alloc(p, n)]), h, p, p, n)
  {
    hide U64, Size, Inv, Untouched;
    var b' := b.(live := b.live[h := Alloc(p, n)]);
    HeaderFound(m, start, brk, free, b, h);
    InvParts(m, start, brk, free, b);
    assert Points(b', h, p);
    MapAgain(b.live, h, Alloc(p, n));
    Unchanged(m, b.live - {h});
  }

  /** The three steps of a growing realloc together. */
  lemma Copied(m: Bytes, m1: Bytes, m2: Bytes, m3: Bytes, b: Books, b1: Books, b3: Books,
               h: nat, g: nat, p: nat, q: nat, n: nat, have: nat)
    requires h in b.live && b.live[h].p == p && g !in b.live && b1.live == b.live[g := Alloc(q, n)]
    requires b.live[h].n <= have < n && q + n <= |m2|
    requires p + have <= |m1| == |m| == |m2| == |m3|
    requires Untouched(m, m1, b.live) && m2 == PutBytes(m1, q, m1[p..p + have]) && Untouched(m1, m2, b1.live - {g})
    requires b3.live == b1.live - {h} && Untouched(m2, m3, b1.live - {h})
    ensures Reallocated(m, m3, b, b3, h, p, q, n)
  {
    hide PutBytes, Untouched, Carried;
    assert b3.live == (b.live - {h})[g := Alloc(q, n)];
    assert Points(b3, g, q);
    CopiedBytes(m, m1, m2, m3, b, b1, h, g, p, q, n, have);
    CopiedOthers(m, m1, m2, m3, b, b1, h, g, q, n);
  }

  lemma CopiedOthers(m: Bytes, m1: Bytes, m2: Bytes, m3: Bytes, b: Books, b1: Books, h: nat, g: nat, q: nat, n: nat)
    requires h in b.live && g !in b.live && b1.live == b.live[g := Alloc(q, n)]
    requires Untouched(m, m1, b.live) && Untouched(m1, m2, b1.live - {g}) && Untouched(m2, m3, b1.live - {h})
    ensures Untouched(m, m3, b.live - {h})
  {
    forall k | k in b.live && k != h ensures SameIn(m, m3, b.live[k].p, b.live[k].p + b.live[k].n) {
      assert k in b1.live - {g} && k in b1.live - {h} && b1.live[k] == b.live[k];
    }
  }

  lemma CopiedBytes(m: Bytes, m1: Bytes, m2: Bytes, m3: Bytes, b: Books, b1: Books, h: nat, g: nat, p: nat, q: nat, n: nat, have: nat)
    requires h in b.live && b.live[h].p == p && g !in b.live && b1.live == b.live[g := Alloc(q, n)]
    requires b.live[h].n <= have < n && q + n <= |m2| && p + have <= |m1| == |m| == |m2| == |m3|
    requires Untouched(m, m1, b.live) && m2 == PutBytes(m1, q, m1[p..p + have])
    requires Untouched(m2, m3, b1.live - {h})
    ensures Carried(m, m3, p, q, b.live[h].n)
  {
    hide PutBytes;
    var k := b.live[h].n;
    assert g in b1.live - {h} && b1.live[g] == Alloc(q, n);
    var after, before := m3[q..q + k], m[p..p + k];
    forall i | 0 <= i < k ensures after[i] == before[i] {
      assert m2[q..q + have][i] == m1[p..p + have][i];
    }
  }

  function Product(a: nat, b: nat): (n: nat)
    ensures n == a * b
  {
    ProductNat(a, b);
    a * b
  }

  lemma ProductNat(a: nat, b: nat)
    ensures 0 <= a * b
  {}

  ghost predicate Zeroed(m: Bytes, p: nat, n: int) {
    0 <= n && p + n <= |m| && m[p..p + n] == Zeros(n)
  }

  /** One more live allocation: n bytes at p, in a block that was not live. */
  ghost predicate Gained(b: Books, b': Books, p: nat, n: int) {
    0 <= n && exists g: nat :: g !in b.live && b'.live == b.live[g := Alloc(p, n)]
  }

  lemma GainedOne(b: Books, b': Books, g: nat, p: nat, n: nat)
    requires g !in b.live && b'.live == b.live[g := Alloc(p, n)]
    ensures Gained(b, b', p, n)
  {}

  lemma GrowInto2(m: Bytes, start: nat, brk: nat, free: seq<nat>, b: Books, h: nat, p: nat, n: nat)
    requires Inv(m, start, brk, free, b) && h in b.live && b.live[h] == Alloc(p, n)
    ensures p + n <= |m|
  {
    hide U64, Size, Inv;
    HeaderFound(m, start, brk, free, b, h);
    InvParts(m, start, brk, free, b);
  }

  lemma ZeroedNow(m: Bytes, m1: Bytes, m2: Bytes, b: Books, b1: Books, h: nat, p: nat, n: nat)
    requires h !in b.live && b1.live == b.live[h := Alloc(p, n)] && p + n <= |m1|
    requires m2 == PutBytes(m1, p, Zeros(n)) && Untouched(m, m1, b.live) && Untouched(m1, m2, b1.live - {h})
    ensures Zeroed(m2, p, n) && Untouched(m, m2, b.live)
  {
    forall k | k in b.live ensures SameIn(m, m2, b.live[k].p, b.live[k].p + b.live[k].n) {
      assert k in b1.live - {h} && b1.live[k] == b.live[k];
    }
  }

  lemma SmallPowers(k: nat)
    requires k < 5
    ensures Pow2(k) <= ALIGN
  {
    assert Pow2(0) == 1 && Pow2(1) == 2 && Pow2(2) == 4 && Pow2(3) == 8 && Pow2(4) == 16;
  }

  lemma PowerOf16(k: nat)
    requires Pow2(k) > ALIGN
    ensures Pow2(k) % ALIGN == 0
  {
    hide Pow2;
    if k < 5 { SmallPowers(k); } else { LargePowers(k - 4); }
  }

  lemma LargePowers(k: nat)
    ensures Pow2(k + 4) % ALIGN == 0
  {
    PowAdd(k, 4);
    assert Pow2(4) == 16;
  }

  lemma RoundUpPlace(base: nat, align: nat, n: nat, k: nat)
    requires base % ALIGN == 0 && align == Pow2(k) > ALIGN
    ensures var p := RoundUp(base, align);
            && base <= p && p + n <= base + (n + align) && p % align == 0 && p % ALIGN == 0
            && (p != base ==> p >= base + HEADER)
  {
    hide RoundUp, Pow2;
    RoundUpIs(base, align);
    PowerOf16(k);
    MultipleOf16(RoundUp(base, align), align);
  }

  /** Where the aligned pointer lies: in the block, with room for a header in
      front unless it is the base itself. */
  lemma AlignedPlace(m: Bytes, start: nat, brk: nat, free: seq<nat>, b: Books, h: nat, base: nat, align: nat, n: nat, k: nat)
    requires Inv(m, start, brk, free, b) && h in b.live && b.live[h] == Alloc(base, n + align) && base % ALIGN == 0 && base == h + HEADER
    requires align == Pow2(k) > ALIGN
    ensures var p := RoundUp(base, align);
            && base <= p && p + n <= base + (n + align) && p % align == 0 && p % ALIGN == 0
            && (p != base ==> p >= base + HEADER) && p <= |m|
            && h in b.cls && base + (n + align) <= End(b, h)
  {
    hide U64, Size, Inv, RoundUp, Pow2, Tiled, Counted, End;
    RoundUpPlace(base, align, n, k);
    HeaderFound(m, start, brk, free, b, h);
    InvParts(m, start, brk, free, b);
  }

  /** An interior header is written into the block, before the pointer. */
  lemma InteriorKeeps(m: Bytes, m': Bytes, start: nat, brk: nat, free: seq<nat>, b: Books, h: nat, base: nat, p: nat, n: nat)
    requires Inv(m, start, brk, free, b) && h in b.live && h in b.cls && base == h + HEADER && base + HEADER <= p && p % ALIGN == 0
    requires p + n <= End(b, h) && p <= |m| && m' == PutU64(m, p - 8, p - base)
    ensures Inv(m', start, brk, free, b.(live := b.live[h := Alloc(p, n)])) && Untouched(m, m', b.live - {h})
  {
    hide U64, PutU64, Size, Inv, Untouched, Tiled, Counted, ListOK;
    InvParts(m, start, brk, free, b);
    BlockIs(m, start, brk, free, b, h);
    PutU64Is(m, p - 8, p - base);
    LiveWritten(m, m', start, brk, free, b, h, Alloc(p, n));
    OthersUntouched(m, m', start, brk, free, b, h);
  }

  lemma AlignedDone(m: Bytes, m1: Bytes, m2: Bytes, b: Books, b1: Books, h: nat, base: nat, n1: nat, p: nat, n: nat)
    requires h !in b.live && b1.live == b.live[h := Alloc(base, n1)]
    requires Untouched(m, m1, b.live) && Untouched(m1, m2, b1.live - {h})
    ensures Untouched(m, m2, b.live) && b1.live[h := Alloc(p, n)] == b.live[h := Alloc(p, n)]
  {
    forall k | k in b.live ensures SameIn(m, m2, b.live[k].p, b.live[k].p + b.live[k].n) {
      assert k in b1.live - {h} && b1.live[k] == b.live[k];
    }
  }
}
