/** The rings as bytes of one buffer, and the driver's calls on them
    (lib/virtio.beer:105-185). */
module VirtqueueMemory {
  import opened Bytes
  import opened Virtqueue

  // ---- layout ----

  /** (a - (addr mod a)) mod a, for a power of two. */
  function AlignedOffset(addr: nat, align: nat): (off: nat)
    requires align > 0
    ensures off < align && (addr + off) % align == 0
  {
    var r := addr % align;
    var off := (align - r) % align;
    assert addr == addr / align * align + r;
    if r == 0 then
      WholeIs(addr, align, addr / align, 0);
      assert off == 0 by { WholeIs(align, align, 1, 0); }
      off
    else
      assert off == align - r by { WholeIs(align - r, align, 0, align - r); }
      assert addr + off == (addr / align + 1) * align by { assert (addr / align + 1) * align == addr / align * align + align; }
      WholeIs(addr + off, align, addr / align + 1, 0);
      off
  }

  lemma WholeIs(n: nat, d: nat, q: nat, r: nat)
    requires d > 0 && r < d && n == q * d + r
    ensures n / d == q && n % d == r
  {
    var q', r' := n / d, n % d;
    assert n == q' * d + r';
    if q' < q { Less(q', q, d); }
    if q < q' { Less(q, q', d); }
  }

  lemma Less(a: nat, b: nat, d: nat)
    requires a < b
    ensures a * d + d <= b * d
  {
    assert b * d == a * d + (b - a) * d;
    assert (b - a) * d >= d by { AtLeast(b - a, d); }
  }

  lemma AtLeast(k: nat, d: nat)
    requires k >= 1
    ensures k * d >= d
  {}

  function AlignUp(n: nat, a: nat): nat
    requires a > 0
  {
    a * ((n + (a - 1)) / a)
  }

  lemma AlignUpIs(n: nat, a: nat)
    requires a > 0
    ensures n <= AlignUp(n, a) < n + a && AlignUp(n, a) % a == 0
  {
    var q, r := (n + (a - 1)) / a, (n + (a - 1)) % a;
    assert n + (a - 1) == q * a + r;
    assert AlignUp(n, a) == q * a;
    WholeIs(q * a, a, q, 0);
  }

  function AvailOff(q: nat): nat { 16 * q }
  function UsedOff(q: nat): nat { AlignUp(AvailOff(q) + 6 + 2 * q, 4) }
  function ExtraOff(q: nat): nat { AlignUp(UsedOff(q) + 6 + 8 * q, 16) }

  /** The descriptor table, the two rings and the driver's bytes follow each other
      without overlapping, each on the boundary section 2.7 of VIRTIO 1.2 asks. */
  lemma Layout(q: nat)
    ensures AvailOff(q) % 2 == 0
    ensures AvailOff(q) + 6 + 2 * q <= UsedOff(q) && UsedOff(q) % 4 == 0
    ensures UsedOff(q) + 6 + 8 * q <= ExtraOff(q) && ExtraOff(q) % 16 == 0
  {
    hide AlignUp;
    AlignUpIs(AvailOff(q) + 6 + 2 * q, 4);
    AlignUpIs(UsedOff(q) + 6 + 8 * q, 16);
  }

  lemma LayoutIs()
    ensures AvailOff(QSIZE) == 1024 && UsedOff(QSIZE) == 1160 && ExtraOff(QSIZE) == 1680
  {}

  // ---- one word among others ----

  ghost predicate OnlyIn(m: Bytes, m': Bytes, lo: int, hi: int) {
    |m'| == |m| && forall i :: 0 <= i < |m| && !(lo <= i < hi) ==> m'[i] == m[i]
  }

  lemma U16Kept(m: Bytes, m': Bytes, lo: int, hi: int, o: nat)
    requires OnlyIn(m, m', lo, hi) && o + 2 <= |m| && (o + 2 <= lo || hi <= o)
    ensures U16(m', o) == U16(m, o)
  {}

  /** A word of a ring: n bytes each, from offset o on. */
  lemma U16Others(m: Bytes, o: nat, i: nat, v: nat, j: nat)
    requires o + 2 * i + 2 <= |m| && o + 2 * j + 2 <= |m| && v < 0x1_0000
    ensures U16(PutU16(m, o + 2 * i, v), o + 2 * j) == if j == i then v else U16(m, o + 2 * j)
  {}

  class Queue {
    const ro: nat
    var ring: Bytes
    var usedSeen: nat

    ghost predicate Valid()
      reads this
    {
      ro + ExtraOff(QSIZE) <= |ring| && usedSeen < WRAP16
    }

    function AvailIdx(): (n: nat)
      requires Valid()
      reads this
      ensures n < WRAP16
    {
      LayoutIs();
      U16(ring, ro + AvailOff(QSIZE) + 2)
    }

    function UsedIdx(): (n: nat)
      requires Valid()
      reads this
      ensures n < WRAP16
    {
      LayoutIs();
      U16(ring, ro + UsedOff(QSIZE) + 2)
    }

    function AvailRing(): (s: seq<nat>)
      requires Valid()
      reads this
      ensures |s| == QSIZE
    {
      AvailOf(ring, ro)
    }

    function UsedEntry(i: nat): (r: (nat, nat))
      requires Valid() && i < QSIZE
      reads this
    {
      LayoutIs();
      (U32(ring, ro + UsedOff(QSIZE) + 4 + 8 * i), U32(ring, ro + UsedOff(QSIZE) + 8 + 8 * i))
    }

    constructor (ro: nat, ring: Bytes)
      requires ro + ExtraOff(QSIZE) <= |ring|
      ensures Valid() && this.ro == ro && this.ring == ring && usedSeen == 0
    {
      this.ro, this.ring, this.usedSeen := ro, ring, 0;
    }

    /** set-desc!: the 16 bytes of descriptor i, and nothing else. */
    method SetDesc(i: nat, addr: nat, len: nat, flags: nat, next: nat)
      requires Valid() && i < QSIZE && addr < WRAP32 * WRAP32 && len < WRAP32 && flags < WRAP16 && next < WRAP16
      modifies this`ring
      ensures Valid() && OnlyIn(old(ring), ring, ro + 16 * i, ro + 16 * i + 16)
      ensures var o := ro + 16 * i;
              && o + 16 <= |ring|
              && U32(ring, o) == addr % WRAP32 && U32(ring, o + 4) == addr / WRAP32
              && U32(ring, o + 8) == len && U16(ring, o + 12) == flags && U16(ring, o + 14) == next
      ensures AvailRing() == old(AvailRing()) && AvailIdx() == old(AvailIdx())
    {
      LayoutIs();
      var o := ro + 16 * i;
      ghost var r0 := ring;
      var r1 := PutU32(ring, o, addr);
      var r2 := PutU32(r1, o + 4, addr / WRAP32);
      var r3 := PutU32(r2, o + 8, len);
      var r4 := PutU16(r3, o + 12, flags);
      ring := PutU16(r4, o + 14, next);
      DescWords(r0, r1, r2, r3, r4, ring, o, addr, len, flags, next);
      DescElse(r0, ring, ro, i);
    }

    /** publish!: the heads go into the ring one by one, then the index moves. */
    method Publish(heads: seq<nat>)
      requires Valid() && forall k :: 0 <= k < |heads| ==> heads[k] < WRAP16
      modifies this`ring
      ensures Valid() && |ring| == |old(ring)|
      ensures AvailRing() == Published(old(AvailRing()), old(AvailIdx()), heads)
      ensures AvailIdx() == (old(AvailIdx()) + |heads|) % WRAP16
      ensures OnlyIn(old(ring), ring, ro + AvailOff(QSIZE) + 2, ro + AvailOff(QSIZE) + 4 + 2 * QSIZE)
      ensures IsPublish(old(ring), ring, ro, usedSeen, heads)
    {
      hide Published, AvailOf, U16, PutU16, IsPublish;
      LayoutIs();
      var av := ro + AvailOff(QSIZE);
      ghost var r0 := ring;
      ghost var ring0, idx0 := AvailRing(), AvailIdx();
      var hs, idx := heads, AvailIdx();
      while hs != []
        invariant |hs| <= |heads| && hs == heads[|heads| - |hs|..] && |ring| == |r0| && Valid()
        invariant idx == (idx0 + (|heads| - |hs|)) % WRAP16
        invariant Published(AvailOf(ring, ro), idx, hs) == Published(ring0, idx0, heads)
        invariant OnlyIn(r0, ring, av + 4, av + 4 + 2 * QSIZE)
        decreases |hs|
      {
        ghost var before := ring;
        assert hs[0] == heads[|heads| - |hs|];
        ring := PutU16(ring, av + 4 + 2 * (idx % QSIZE), hs[0]);
        SlotPut(before, ro, idx % QSIZE, hs[0]);
        PublishedNext(AvailOf(before, ro), idx, hs);
        IndexNext(idx0, |heads| - |hs|);
        hs := hs[1..];
        idx := (idx + 1) % WRAP16;
      }
      PublishedNone(AvailOf(ring, ro), idx);
      ghost var filled := ring;
      ring := PutU16(ring, av + 2, idx);
      IndexPut(filled, ro, idx);
      PublishIs(r0, ring, ro, usedSeen, heads);
    }

    /** post-all!: descriptor i points at event buffer i, device-writable, and all are
        offered; `base` is the ring's address. */
    method PostAll(base: nat)
      requires Valid() && HasEvents(ring, ro) && base + |ring| < WRAP32 * WRAP32
      modifies this`ring
      ensures Valid() && |ring| == |old(ring)|
      ensures forall i :: 0 <= i < QSIZE ==> DescOf(ring, ro, i) == EventDesc(base, ro, i)
      ensures IsPublish(old(ring), ring, ro, usedSeen, Range(QSIZE))
    {
      hide AvailOf, DescOf, IsPublish, Published;
      ghost var r0 := ring;
      var i := 0;
      while i < QSIZE
        invariant 0 <= i <= QSIZE && Valid() && |ring| == |r0|
        invariant forall j :: 0 <= j < i ==> DescOf(ring, ro, j) == EventDesc(base, ro, j)
        invariant OnlyIn(r0, ring, ro, ro + 16 * QSIZE)
      {
        ghost var before := ring;
        EventRange(base, ro, i);
        SetDesc(i, base + ro + ExtraOff(QSIZE) + EV_SIZE * i, EV_SIZE, DESC_WRITE, 0);
        DescIs(ring, ro, i, base + ro + ExtraOff(QSIZE) + EV_SIZE * i, EV_SIZE, DESC_WRITE, 0);
        forall j | 0 <= j < i ensures DescOf(ring, ro, j) == DescOf(before, ro, j) { DescKept(before, ring, ro, i, j); }
        OnlyMore(r0, before, ring, ro, i);
        i := i + 1;
      }
      ghost var table := ring;
      Publish(Range(QSIZE));
      forall j | 0 <= j < QSIZE ensures DescOf(ring, ro, j) == DescOf(table, ro, j) { DescPublished(table, ring, ro, j); }
      PublishAfterTable(r0, table, ring, ro, usedSeen, Range(QSIZE));
    }

    /** take-used!: the next completion and its length, when there is one. */
    method TakeUsed() returns (some: bool, id: nat, len: nat)
      requires Valid()
      modifies this`usedSeen
      ensures Valid() && ring == old(ring)
      ensures some <==> UsedIdx() != old(usedSeen)
      ensures if some then (id, len) == UsedEntry(old(usedSeen) % QSIZE) && usedSeen == (old(usedSeen) + 1) % WRAP16
              else usedSeen == old(usedSeen)
      ensures IsTake(ring, ro, old(usedSeen), usedSeen, some, id)
    {
      hide IsTake, U32, U16;
      LayoutIs();
      some, id, len := false, 0, 0;
      var seen := usedSeen;
      var u := ro + UsedOff(QSIZE);
      if U16(ring, u + 2) != seen {
        var o := u + 4 + 8 * (seen % QSIZE);
        usedSeen := (seen + 1) % WRAP16;
        some, id, len := true, U32(ring, o), U32(ring, o + 4);
      }
      TakeIs(ring, ro, seen);
    }
  }

  const WRAP32 := 0x1_0000_0000
  const EV_SIZE := 8
  const DESC_WRITE := 2

  // ---- descriptors ----

  datatype Desc = Desc(addr: nat, len: nat, flags: nat, next: nat)

  function DescOf(m: Bytes, ro: nat, i: nat): Desc
    requires ro + ExtraOff(QSIZE) <= |m| && i < QSIZE
  {
    LayoutIs();
    var o := ro + 16 * i;
    Desc(U32(m, o) + WRAP32 * U32(m, o + 4), U32(m, o + 8), U16(m, o + 12), U16(m, o + 14))
  }

  /** The descriptor of event buffer i, behind the rings. */
  function EventDesc(base: nat, ro: nat, i: nat): Desc {
    Desc(base + ro + ExtraOff(QSIZE) + EV_SIZE * i, EV_SIZE, DESC_WRITE, 0)
  }

  /** Descriptor i has the eight bytes that are event buffer i: behind the rings, apart from
      the other buffers, and for the device to write. */
  lemma EventBuffers(m: Bytes, base: nat, ro: nat, i: nat, j: nat)
    requires HasEvents(m, ro) && i < QSIZE && j < QSIZE
    ensures var d, e := EventDesc(base, ro, i), EventDesc(base, ro, j);
            && d.len == 8 && d.flags == 2 && d.next == 0
            && base + ro + ExtraOff(QSIZE) <= d.addr && d.addr + d.len <= base + |m|
            && m[d.addr - base..d.addr - base + d.len] == EventsOf(m, ro)[i]
            && (i != j ==> d.addr + d.len <= e.addr || e.addr + e.len <= d.addr)
  {
    LayoutIs();
  }

  predicate HasEvents(m: Bytes, ro: nat) { ro + ExtraOff(QSIZE) + EV_SIZE * QSIZE <= |m| }

  lemma EventRange(base: nat, ro: nat, i: nat)
    requires i < QSIZE
    ensures EventDesc(base, ro, i).addr <= base + ro + ExtraOff(QSIZE) + EV_SIZE * QSIZE
  {}

  lemma DescIs(m: Bytes, ro: nat, i: nat, addr: nat, len: nat, flags: nat, next: nat)
    requires ro + ExtraOff(QSIZE) <= |m| && i < QSIZE
    requires var o := ro + 16 * i;
             && o + 16 <= |m| && U32(m, o) == addr % WRAP32 && U32(m, o + 4) == addr / WRAP32
             && U32(m, o + 8) == len && U16(m, o + 12) == flags && U16(m, o + 14) == next
    ensures DescOf(m, ro, i) == Desc(addr, len, flags, next)
  {
    hide U32, U16;
  }

  lemma DescKept(m: Bytes, m': Bytes, ro: nat, i: nat, j: nat)
    requires ro + ExtraOff(QSIZE) <= |m| && j < i < QSIZE && OnlyIn(m, m', ro + 16 * i, ro + 16 * i + 16)
    ensures |m'| == |m| && DescOf(m', ro, j) == DescOf(m, ro, j)
  {
    DescSame(m, m', ro, ro + 16 * i, ro + 16 * i + 16, j);
  }

  lemma DescPublished(m: Bytes, m': Bytes, ro: nat, j: nat)
    requires ro + ExtraOff(QSIZE) <= |m| && j < QSIZE
    requires OnlyIn(m, m', ro + AvailOff(QSIZE) + 2, ro + AvailOff(QSIZE) + 4 + 2 * QSIZE)
    ensures |m'| == |m| && DescOf(m', ro, j) == DescOf(m, ro, j)
  {
    LayoutIs();
    DescSame(m, m', ro, ro + AvailOff(QSIZE) + 2, ro + AvailOff(QSIZE) + 4 + 2 * QSIZE, j);
  }

  lemma DescSame(m: Bytes, m': Bytes, ro: nat, lo: int, hi: int, j: nat)
    requires ro + ExtraOff(QSIZE) <= |m| && j < QSIZE && OnlyIn(m, m', lo, hi) && ro + 16 * j + 16 <= lo
    ensures DescOf(m', ro, j) == DescOf(m, ro, j)
  {
    LayoutIs();
    var o := ro + 16 * j;
    U16Kept(m, m', lo, hi, o);
    U16Kept(m, m', lo, hi, o + 2);
    U16Kept(m, m', lo, hi, o + 4);
    U16Kept(m, m', lo, hi, o + 6);
    U16Kept(m, m', lo, hi, o + 8);
    U16Kept(m, m', lo, hi, o + 10);
    U16Kept(m, m', lo, hi, o + 12);
    U16Kept(m, m', lo, hi, o + 14);
    hide U16;
  }

  lemma OnlyMore(m: Bytes, m1: Bytes, m2: Bytes, ro: nat, i: nat)
    requires i < QSIZE && OnlyIn(m, m1, ro, ro + 16 * QSIZE) && OnlyIn(m1, m2, ro + 16 * i, ro + 16 * i + 16)
    ensures OnlyIn(m, m2, ro, ro + 16 * QSIZE)
  {}

  // ---- the rings as the machine's shared memory ----

  function UsedOf(m: Bytes, ro: nat): (s: seq<(nat, nat)>)
    requires ro + ExtraOff(QSIZE) <= |m|
    ensures |s| == QSIZE
  {
    LayoutIs();
    seq(QSIZE, i requires 0 <= i < QSIZE => (U32(m, ro + 1164 + 8 * i), U32(m, ro + 1168 + 8 * i)))
  }

  function EventsOf(m: Bytes, ro: nat): (s: seq<Bytes>)
    requires HasEvents(m, ro)
    ensures |s| == QSIZE
  {
    LayoutIs();
    seq(QSIZE, i requires 0 <= i < QSIZE => m[ro + 1680 + 8 * i..ro + 1680 + 8 * i + 8])
  }

  /** The bytes hold the rings and event buffers of machine state s. */
  ghost predicate Matches(m: Bytes, ro: nat, seen: nat, s: State) {
    && HasEvents(m, ro) && Shaped(s.mem)
    && s.mem.avail == AvailOf(m, ro) && s.mem.used == UsedOf(m, ro) && s.mem.buf == EventsOf(m, ro)
    && LayoutHolds() && s.mem.availIdx == U16(m, ro + 1026) && s.mem.usedIdx == U16(m, ro + 1162) && s.seen == seen
  }

  /** From bytes m to m' the call did what the machine's driver does when it publishes
      these heads, without an access of the device in between. */
  ghost predicate IsPublish(m: Bytes, m': Bytes, ro: nat, seen: nat, heads: seq<nat>) {
    forall s: State | Matches(m, ro, seen, s) && s.driver == Publishing(heads, s.mem.availIdx) ::
      Matches(m', ro, seen, Driven(s, |heads| + 1))
  }

  /** The call did what the driver does when it takes a completion, or there was none. */
  ghost predicate IsTake(m: Bytes, ro: nat, seen: nat, seen': nat, some: bool, id: nat) {
    forall s: State | Matches(m, ro, seen, s) && s.driver.Taking? ::
      if some then Matches(m, ro, seen', Driven(s, 2)) && Driven(s, 2).driver == Handling(s.driver.done, id)
      else seen' == seen && !Next(s, Drive).driver.Reading?
  }

  lemma PublishIs(m: Bytes, m': Bytes, ro: nat, seen: nat, heads: seq<nat>)
    requires ro + ExtraOff(QSIZE) <= |m| && ro + 1028 <= |m|
    requires OnlyIn(m, m', ro + AvailOff(QSIZE) + 2, ro + AvailOff(QSIZE) + 4 + 2 * QSIZE)
    requires AvailOf(m', ro) == Published(AvailOf(m, ro), U16(m, ro + 1026), heads)
    requires U16(m', ro + 1026) == (U16(m, ro + 1026) + |heads|) % WRAP16
    ensures IsPublish(m, m', ro, seen, heads)
  {
    hide AvailOf, U16, Published, Driven;
    forall s: State | Matches(m, ro, seen, s) && s.driver == Publishing(heads, s.mem.availIdx)
      ensures Matches(m', ro, seen, Driven(s, |heads| + 1))
    {
      MatchesPublished(m, m', ro, seen, s, heads);
    }
  }

  lemma PublishAfterTable(m: Bytes, m1: Bytes, m': Bytes, ro: nat, seen: nat, heads: seq<nat>)
    requires OnlyIn(m, m1, ro, ro + 16 * QSIZE) && IsPublish(m1, m', ro, seen, heads)
    ensures IsPublish(m, m', ro, seen, heads)
  {
    hide Driven, OnlyIn;
    forall s: State | Matches(m, ro, seen, s) && s.driver == Publishing(heads, s.mem.availIdx)
      ensures Matches(m', ro, seen, Driven(s, |heads| + 1))
    {
      MatchesTable(m, m1, ro, seen, s);
    }
  }

  lemma TakeIs(m: Bytes, ro: nat, seen: nat)
    requires ro + ExtraOff(QSIZE) <= |m|
    ensures ro + 1680 <= |m|
    ensures if U16(m, ro + 1162) != seen then IsTake(m, ro, seen, (seen + 1) % WRAP16, true, U32(m, ro + 1164 + 8 * (seen % QSIZE)))
            else forall id :: IsTake(m, ro, seen, seen, false, id)
  {
    hide U16, U32, Driven;
    LayoutIs();
    forall s: State | Matches(m, ro, seen, s) && s.driver.Taking?
      ensures if U16(m, ro + 1162) != seen then
                && Matches(m, ro, (seen + 1) % WRAP16, Driven(s, 2))
                && Driven(s, 2).driver == Handling(s.driver.done, U32(m, ro + 1164 + 8 * (seen % QSIZE)))
              else !Next(s, Drive).driver.Reading?
    {
      MatchesTaken(m, ro, seen, s);
    }
  }

  /** Rings whose indices are still 0 are those of a state that every run may start from. */
  lemma FreshRings(m: Bytes, ro: nat) returns (s: State)
    requires HasEvents(m, ro) && LayoutHolds() && U16(m, ro + 1026) == U16(m, ro + 1162) == 0
    ensures Posting(s) && Matches(m, ro, 0, s) && s.driver == Publishing(Range(QSIZE), s.mem.availIdx)
    ensures Inv(s, NOTHING_YET)
  {
    hide U16, AvailOf, UsedOf, EventsOf, Inv;
    s := State(Shared(0, AvailOf(m, ro), 0, UsedOf(m, ro), EventsOf(m, ro)), Publishing(Range(QSIZE), 0), 0, Device(0, {}, []));
    StartsWell(s);
  }

  predicate LayoutHolds()
    ensures LayoutHolds() && ExtraOff(QSIZE) == 1680
  {
    LayoutIs();
    true
  }

  lemma UsedKept(m: Bytes, m': Bytes, ro: nat, hi: int)
    requires HasEvents(m, ro) && OnlyIn(m, m', ro, hi) && hi <= ro + 1160
    ensures HasEvents(m', ro) && UsedOf(m', ro) == UsedOf(m, ro) && EventsOf(m', ro) == EventsOf(m, ro)
    ensures ro + 1164 <= |m| && U16(m', ro + 1162) == U16(m, ro + 1162)
  {
    LayoutIs();
    forall i | 0 <= i < QSIZE ensures UsedOf(m', ro)[i] == UsedOf(m, ro)[i] {
      U16Kept(m, m', ro, hi, ro + 1164 + 8 * i);
      U16Kept(m, m', ro, hi, ro + 1166 + 8 * i);
      U16Kept(m, m', ro, hi, ro + 1168 + 8 * i);
      U16Kept(m, m', ro, hi, ro + 1170 + 8 * i);
    }
    forall i | 0 <= i < QSIZE ensures EventsOf(m', ro)[i] == EventsOf(m, ro)[i] {}
  }

  lemma MatchesPublished(m: Bytes, m': Bytes, ro: nat, seen: nat, s: State, heads: seq<nat>)
    requires Matches(m, ro, seen, s) && s.driver == Publishing(heads, s.mem.availIdx)
    requires OnlyIn(m, m', ro + AvailOff(QSIZE) + 2, ro + AvailOff(QSIZE) + 4 + 2 * QSIZE)
    requires ro + ExtraOff(QSIZE) <= |m| && ro + 1028 <= |m|
    requires AvailOf(m', ro) == Published(AvailOf(m, ro), U16(m, ro + 1026), heads)
    requires U16(m', ro + 1026) == (U16(m, ro + 1026) + |heads|) % WRAP16
    ensures Matches(m', ro, seen, Driven(s, |heads| + 1))
  {
    hide AvailOf, UsedOf, EventsOf, U16, Published, Driven;
    LayoutIs();
    PublishSteps(s);
    UsedKept(m, m', ro, ro + 1156);
  }

  lemma MatchesTable(m: Bytes, m': Bytes, ro: nat, seen: nat, s: State)
    requires Matches(m, ro, seen, s) && OnlyIn(m, m', ro, ro + 16 * QSIZE)
    ensures Matches(m', ro, seen, s)
  {
    hide UsedOf, EventsOf;
    LayoutIs();
    UsedKept(m, m', ro, ro + 1024);
    forall j | 0 <= j < QSIZE ensures AvailOf(m', ro)[j] == AvailOf(m, ro)[j] { U16Kept(m, m', ro, ro + 1024, ro + 1028 + 2 * j); }
    U16Kept(m, m', ro, ro + 1024, ro + 1026);
  }

  lemma MatchesTaken(m: Bytes, ro: nat, seen: nat, s: State)
    requires Matches(m, ro, seen, s) && s.driver.Taking?
    ensures ro + ExtraOff(QSIZE) <= |m| && ro + 1680 <= |m|
    ensures var i := seen % QSIZE;
            if U16(m, ro + 1162) != seen then
              && Matches(m, ro, (seen + 1) % WRAP16, Driven(s, 2))
              && Driven(s, 2).driver == Handling(s.driver.done, U32(m, ro + 1164 + 8 * i))
            else !Next(s, Drive).driver.Reading?
  {
    hide AvailOf, EventsOf, U16, U32, Driven;
    LayoutIs();
    if s.mem.usedIdx != s.seen { TakeSteps(s); }
  }

  /** One store of publish! is one access of the machine's driver, whatever the device
      did before it: a head's slot ... */
  lemma SlotIsStep(m: Bytes, ro: nat, seen: nat, s: State)
    requires Matches(m, ro, seen, s) && s.driver.Publishing? && s.driver.rest != []
    requires s.driver.rest[0] < WRAP16
    ensures ro + 1158 <= |m|
    ensures Matches(PutU16(m, ro + 1028 + 2 * (s.driver.idx % QSIZE), s.driver.rest[0]), ro, seen, Next(s, Drive))
  {
    hide AvailOf, UsedOf, EventsOf, U16, PutU16;
    LayoutIs();
    var i := s.driver.idx % QSIZE;
    var m' := PutU16(m, ro + 1028 + 2 * i, s.driver.rest[0]);
    SlotPut(m, ro, i, s.driver.rest[0]);
    UsedKept(m, m', ro, ro + 1156);
    U16Kept(m, m', ro + 1028, ro + 1156, ro + 1026);
  }

  /** ... or the index. */
  lemma IndexIsStep(m: Bytes, ro: nat, seen: nat, s: State)
    requires Matches(m, ro, seen, s) && s.driver.Publishing? && s.driver.rest == [] && s.driver.idx < WRAP16
    ensures ro + 1028 <= |m| && Matches(PutU16(m, ro + 1026, s.driver.idx), ro, seen, Next(s, Drive))
  {
    hide AvailOf, UsedOf, EventsOf, U16, PutU16;
    LayoutIs();
    IndexPut(m, ro, s.driver.idx);
    UsedKept(m, PutU16(m, ro + 1026, s.driver.idx), ro, ro + 1028);
  }

  function AvailOf(m: Bytes, ro: nat): (s: seq<nat>)
    requires ro + ExtraOff(QSIZE) <= |m|
    ensures |s| == QSIZE
  {
    LayoutIs();
    seq(QSIZE, i requires 0 <= i < QSIZE => U16(m, ro + 1028 + 2 * i))
  }

  lemma SlotPut(m: Bytes, ro: nat, i: nat, v: nat)
    requires ro + ExtraOff(QSIZE) <= |m| && i < QSIZE && v < WRAP16
    ensures ro + AvailOff(QSIZE) + 4 + 2 * i + 2 <= |m|
    ensures var m' := PutU16(m, ro + AvailOff(QSIZE) + 4 + 2 * i, v);
            && |m'| == |m| && AvailOf(m', ro) == AvailOf(m, ro)[i := v]
            && OnlyIn(m, m', ro + AvailOff(QSIZE) + 4, ro + AvailOff(QSIZE) + 4 + 2 * QSIZE)
  {
    LayoutIs();
    var m' := PutU16(m, ro + 1028 + 2 * i, v);
    forall j | 0 <= j < QSIZE ensures AvailOf(m', ro)[j] == AvailOf(m, ro)[i := v][j] { U16Others(m, ro + 1028, i, v, j); }
  }

  lemma IndexPut(m: Bytes, ro: nat, v: nat)
    requires ro + ExtraOff(QSIZE) <= |m| && v < WRAP16
    ensures ro + AvailOff(QSIZE) + 4 <= |m|
    ensures var m' := PutU16(m, ro + AvailOff(QSIZE) + 2, v);
            && |m'| == |m| && AvailOf(m', ro) == AvailOf(m, ro) && U16(m', ro + AvailOff(QSIZE) + 2) == v
            && OnlyIn(m, m', ro + AvailOff(QSIZE) + 2, ro + AvailOff(QSIZE) + 4)
  {
    LayoutIs();
    var m' := PutU16(m, ro + 1026, v);
    forall j | 0 <= j < QSIZE ensures AvailOf(m', ro)[j] == AvailOf(m, ro)[j] {}
  }

  lemma PublishedNext(avail: seq<nat>, idx: nat, hs: seq<nat>)
    requires |avail| == QSIZE && hs != []
    ensures Published(avail, idx, hs) == Published(avail[idx % QSIZE := hs[0]], (idx + 1) % WRAP16, hs[1..])
  {}

  lemma PublishedNone(avail: seq<nat>, idx: nat)
    requires |avail| == QSIZE
    ensures Published(avail, idx, []) == avail
  {}

  lemma IndexNext(a: nat, k: nat)
    ensures ((a + k) % WRAP16 + 1) % WRAP16 == (a + (k + 1)) % WRAP16
  {}

  lemma DescWords(r0: Bytes, r1: Bytes, r2: Bytes, r3: Bytes, r4: Bytes, r5: Bytes, o: nat, addr: nat, len: nat, flags: nat, next: nat)
    requires o + 16 <= |r0| && addr < WRAP32 * WRAP32 && len < WRAP32 && flags < WRAP16 && next < WRAP16
    requires r1 == PutU32(r0, o, addr) && r2 == PutU32(r1, o + 4, addr / WRAP32) && r3 == PutU32(r2, o + 8, len)
    requires r4 == PutU16(r3, o + 12, flags) && r5 == PutU16(r4, o + 14, next)
    ensures |r5| == |r0| && OnlyIn(r0, r5, o, o + 16)
    ensures U32(r5, o) == addr % WRAP32 && U32(r5, o + 4) == addr / WRAP32
    ensures U32(r5, o + 8) == len && U16(r5, o + 12) == flags && U16(r5, o + 14) == next
  {
    hide PutU32, PutU16;
    assert U32(r5, o) == U32(r1, o) by { assert U16(r5, o) == U16(r1, o) && U16(r5, o + 2) == U16(r1, o + 2); }
    assert U32(r5, o + 4) == U32(r2, o + 4) by { assert U16(r5, o + 4) == U16(r2, o + 4) && U16(r5, o + 6) == U16(r2, o + 6); }
    assert U32(r5, o + 8) == U32(r3, o + 8) by { assert U16(r5, o + 8) == U16(r3, o + 8) && U16(r5, o + 10) == U16(r3, o + 10); }
    assert addr / WRAP32 % WRAP32 == addr / WRAP32;
  }

  lemma DescElse(m: Bytes, m': Bytes, ro: nat, i: nat)
    requires ro + ExtraOff(QSIZE) <= |m| && i < QSIZE && OnlyIn(m, m', ro + 16 * i, ro + 16 * i + 16)
    ensures |m'| == |m| && AvailOf(m', ro) == AvailOf(m, ro) && ro + 1028 <= |m| && U16(m', ro + 1026) == U16(m, ro + 1026)
  {
    LayoutIs();
    forall j | 0 <= j < QSIZE ensures AvailOf(m', ro)[j] == AvailOf(m, ro)[j] { U16Kept(m, m', ro + 16 * i, ro + 16 * i + 16, ro + 1028 + 2 * j); }
    U16Kept(m, m', ro + 16 * i, ro + 16 * i + 16, ro + 1026);
  }
}
