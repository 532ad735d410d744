/** A split virtqueue between the input driver (lib/virtio.beer:160-185,
    lib/virtio_input.beer:84-90, 149-163) and any device that follows section
    2.7 of VIRTIO 1.2: one interleaving of the driver's accesses with the
    device's. */
module Virtqueue {
  import opened Bytes
  import opened Seqs

  const QSIZE := 64
  const WRAP16 := 0x1_0000

  /** The available and used rings, and the event buffers the descriptors point
      at. */
  datatype Shared = Shared(availIdx: nat, avail: seq<nat>, usedIdx: nat, used: seq<(nat, nat)>, buf: seq<Bytes>)

  /** Where poll! and publish! stand.  `done` are the descriptors handled and not
      yet offered again; `rest` those that publish! has still to write. */
  datatype Driver =
    | Taking(done: seq<nat>)
    | Reading(done: seq<nat>)
    | Handling(done: seq<nat>, id: nat)
    | Publishing(rest: seq<nat>, idx: nat)

  /** The device's own position, the descriptors it works on, and those whose used entries it
      has written but not yet advanced the index past. */
  datatype Device = Device(last: nat, held: set<nat>, pending: seq<nat>)

  datatype State = State(mem: Shared, driver: Driver, seen: nat, device: Device)

  ghost predicate Shaped(m: Shared) {
    && |m.avail| == |m.used| == |m.buf| == QSIZE && m.availIdx < WRAP16 && m.usedIdx < WRAP16
  }

  /** The driver's next access. */
  function DriverStep(s: State): (r: State)
    requires Shaped(s.mem)
    ensures Shaped(r.mem)
  {
    var m := s.mem;
    match s.driver
    case Taking(done) =>
      if m.usedIdx != s.seen then s.(driver := Reading(done))
      else if done == [] then s
      else s.(driver := Publishing(done, m.availIdx))
    case Reading(done) =>
      s.(driver := Handling(done, m.used[s.seen % QSIZE].0), seen := (s.seen + 1) % WRAP16)
    case Handling(done, id) => s.(driver := Taking(done + [id]))
    case Publishing(rest, idx) =>
      if rest == [] then s.(mem := m.(availIdx := idx % WRAP16), driver := Taking([]))
      else s.(mem := m.(avail := m.avail[idx % QSIZE := rest[0]]), driver := Publishing(rest[1..], (idx + 1) % WRAP16))
  }

  /** What a conforming device may do: take the next available descriptor, write to the
      buffer of one that it has not handed back, write a used entry for one it holds, and
      advance the used index past any number of the entries written. */
  datatype Event = Drive | DevTake | DevWrite(id: nat, data: Bytes) | DevReturn(id: nat, len: nat) | DevIndex(n: nat)

  function DeviceStep(s: State, e: Event): (r: State)
    requires Shaped(s.mem)
    ensures Shaped(r.mem)
  {
    var m, d := s.mem, s.device;
    match e
    case Drive => s
    case DevTake =>
      if d.last == m.availIdx then s
      else s.(device := d.(last := (d.last + 1) % WRAP16, held := d.held + {m.avail[d.last % QSIZE]}))
    case DevWrite(id, data) =>
      if id >= QSIZE || (id !in d.held && id !in d.pending) then s else s.(mem := m.(buf := m.buf[id := data]))
    case DevReturn(id, len) =>
      if id >= QSIZE || id !in d.held then s
      else s.(mem := m.(used := m.used[(m.usedIdx + |d.pending|) % QSIZE := (id, len)]),
              device := d.(held := d.held - {id}, pending := d.pending + [id]))
    case DevIndex(n) =>
      if n > |d.pending| then s
      else s.(mem := m.(usedIdx := (m.usedIdx + n) % WRAP16), device := d.(pending := d.pending[n..]))
  }

  function Next(s: State, e: Event): (r: State)
    requires Shaped(s.mem)
    ensures Shaped(r.mem)
  {
    if e.Drive? then DriverStep(s) else DeviceStep(s, e)
  }

  // ---- what happened so far ----

  /** In unbounded numbers: the heads offered, those written to the ring but not
      yet offered, how many the device took, the completions it returned with
      what was in their buffers then, how many the driver saw, and those handled. */
  datatype History = History(offered: seq<nat>, staged: seq<nat>, taken: nat, returned: seq<(nat, Bytes)>, seen: nat,
                             handled: seq<(nat, Bytes)>)

  function Recorded(s: State, h: History, e: Event): History
    requires Shaped(s.mem)
  {
    var m := s.mem;
    match e
    case Drive =>
      (match s.driver
       case Taking(_) => h
       case Reading(_) => h.(seen := h.seen + 1)
       case Handling(_, id) => h.(handled := h.handled + [(id, if id < QSIZE then m.buf[id] else [])])
       case Publishing(rest, _) =>
         if rest == [] then h.(offered := h.offered + h.staged, staged := [])
         else h.(staged := h.staged + [rest[0]]))
    case DevTake => if s.device.last == m.availIdx then h else h.(taken := h.taken + 1)
    case DevIndex(n) =>
      if n > |s.device.pending| then h else h.(returned := h.returned + Filled(s.device.pending[..n], m.buf))
    case _ => h
  }

  /** These descriptors with what their buffers hold. */
  function Filled(ids: seq<nat>, buf: seq<Bytes>): (r: seq<(nat, Bytes)>)
    ensures |r| == |ids|
  {
    seq(|ids|, k requires 0 <= k < |ids| => (ids[k], if ids[k] < |buf| then buf[ids[k]] else []))
  }

  function Range(n: nat): (r: seq<nat>)
    ensures |r| == n && forall i :: 0 <= i < n ==> r[i] == i
  {
    seq(n, i => i)
  }

  /** post-all! has set descriptor i to buffer i and publishes all of them. */
  ghost predicate Posting(s: State) {
    && Shaped(s.mem) && s.mem.availIdx == s.mem.usedIdx == s.seen == s.device.last == 0
    && s.driver == Publishing(Range(QSIZE), 0) && s.device.held == {} && s.device.pending == []
  }

  const NOTHING_YET := History([], [], 0, [], 0, [])

  // ---- the invariant ----

  /** The descriptors in the driver's hands. */
  function Mine(d: Driver): seq<nat> {
    match d
    case Taking(done) => done
    case Reading(done) => done
    case Handling(done, id) => done + [id]
    case Publishing(rest, _) => rest
  }

  function Ids(r: seq<(nat, Bytes)>): (s: seq<nat>)
    ensures |s| == |r| && forall k :: 0 <= k < |r| ==> s[k] == r[k].0
  {
    seq(|r|, k requires 0 <= k < |r| => r[k].0)
  }

  /** All descriptors that the device does not hold, in the order they go round: offered
      and not taken, then the driver's, then returned and not seen, then those with an entry
      past the index. */
  function Line(s: State, h: History): seq<nat>
    requires h.taken <= |h.offered| && h.seen <= |h.returned|
  {
    (h.offered + h.staged)[h.taken..] + Mine(s.driver) + Ids(h.returned)[h.seen..] + s.device.pending
  }

  function SlotOf(idx: nat, j: nat): (r: nat)
    ensures r < QSIZE
  {
    (idx + j) % QSIZE
  }

  ghost predicate Indices(s: State, h: History) {
    && Shaped(s.mem) && h.taken <= |h.offered| && h.seen <= |h.returned|
    && s.mem.availIdx == |h.offered| % WRAP16 && s.device.last == h.taken % WRAP16 && s.seen == h.seen % WRAP16
    && s.mem.usedIdx == |h.returned| % WRAP16
    && (s.driver.Publishing? ==> s.driver.idx == (|h.offered| + |h.staged|) % WRAP16)
    && (!s.driver.Publishing? ==> h.staged == [])
    && (s.driver.Reading? ==> h.seen < |h.returned|)
  }

  /** Nothing that is still wanted has been overwritten. */
  ghost predicate Slots(s: State, h: History)
    requires Shaped(s.mem)
  {
    && (forall k :: h.taken <= k < |h.offered| + |h.staged| ==> s.mem.avail[k % QSIZE] == (h.offered + h.staged)[k])
    && (forall k :: h.seen <= k < |h.returned| ==> s.mem.used[k % QSIZE].0 == h.returned[k].0)
    && (forall j :: 0 <= j < |s.device.pending| ==> s.mem.used[SlotOf(|h.returned|, j)].0 == s.device.pending[j])
    && (forall k :: h.seen <= k < |h.returned| ==> h.returned[k].0 < QSIZE && s.mem.buf[h.returned[k].0] == h.returned[k].1)
  }

  /** Every descriptor is in exactly one place. */
  ghost predicate Conserved(s: State, h: History)
    requires h.taken <= |h.offered| && h.seen <= |h.returned|
  {
    var line := Line(s, h);
    && NoDup(line) && (forall x :: x in line ==> x < QSIZE && x !in s.device.held)
    && (forall x :: x in s.device.held ==> x < QSIZE)
    && |line| + |s.device.held| == QSIZE
  }

  ghost predicate InOrder(s: State, h: History)
    requires Shaped(s.mem)
  {
    match s.driver
    case Handling(_, id) =>
      && 0 < h.seen <= |h.returned| && h.handled == h.returned[..h.seen - 1]
      && id == h.returned[h.seen - 1].0 < QSIZE && s.mem.buf[id] == h.returned[h.seen - 1].1
    case _ => h.seen <= |h.returned| && h.handled == h.returned[..h.seen]
  }

  ghost predicate Inv(s: State, h: History) {
    Indices(s, h) && Slots(s, h) && Conserved(s, h) && InOrder(s, h)
  }

  // ---- 16-bit indices ----

  lemma WrapEqual(a: nat, b: nat)
    requires b <= a < b + WRAP16
    ensures a % WRAP16 == b % WRAP16 <==> a == b
  {}

  lemma WrapNext(a: nat)
    ensures (a % WRAP16 + 1) % WRAP16 == (a + 1) % WRAP16
  {}

  lemma WrapSlot(a: nat)
    ensures a % WRAP16 % QSIZE == a % QSIZE
  {
    var q := a / WRAP16;
    assert a == q * WRAP16 + a % WRAP16;
    assert a == q * (WRAP16 / QSIZE) * QSIZE + a % WRAP16;
  }

  lemma SlotsDiffer(a: nat, b: nat)
    requires a < b < a + QSIZE
    ensures a % QSIZE != b % QSIZE
  {}

  /** No ring ever holds more than its size. */
  lemma LineShort(s: State, h: History)
    requires Inv(s, h)
    ensures |h.offered| + |h.staged| - h.taken + |Mine(s.driver)| + (|h.returned| - h.seen) + |s.device.pending| + |s.device.held| == QSIZE
  {}

  // ---- every step keeps it ----

  lemma StartsWell(s: State)
    requires Posting(s)
    ensures Inv(s, NOTHING_YET)
  {
    var line := Line(s, NOTHING_YET);
    assert line == Range(QSIZE);
  }

  /** The line does not change. */
  lemma SameLine(s: State, h: History, s': State, h': History)
    requires h.taken <= |h.offered| && h.seen <= |h.returned| && h'.taken <= |h'.offered| && h'.seen <= |h'.returned|
    requires Conserved(s, h) && Line(s', h') == Line(s, h) && s'.device.held == s.device.held
    ensures Conserved(s', h')
  {
    hide Line;
  }

  lemma TakingKeeps(s: State, h: History)
    requires Inv(s, h) && s.driver.Taking?
    ensures Inv(Next(s, Drive), Recorded(s, h, Drive))
  {
    hide NoDup;
    LineShort(s, h);
    WrapEqual(|h.returned|, h.seen);
    var s' := Next(s, Drive);
    assert Line(s', h) == Line(s, h);
    SameLine(s, h, s', h);
  }

  lemma ReadingKeeps(s: State, h: History)
    requires Inv(s, h) && s.driver.Reading?
    ensures Inv(Next(s, Drive), Recorded(s, h, Drive))
  {
    hide NoDup;
    var s', h' := Next(s, Drive), Recorded(s, h, Drive);
    WrapSlot(h.seen);
    WrapNext(h.seen);
    var ids := Ids(h.returned);
    assert ids[h.seen..] == [ids[h.seen]] + ids[h.seen + 1..];
    ReadLine(s, h);
    SameLine(s, h, s', h');
  }

  lemma ReadLine(s: State, h: History)
    requires Inv(s, h) && s.driver.Reading?
    ensures Line(Next(s, Drive), Recorded(s, h, Drive)) == Line(s, h)
  {
    hide NoDup, Conserved, Ids, InOrder;
    WrapSlot(h.seen);
    ReadNext(Ids(h.returned), h.seen);
    Shift((h.offered + h.staged)[h.taken..], s.driver.done, Ids(h.returned)[h.seen], Ids(h.returned)[h.seen + 1..], s.device.pending);
  }

  lemma ReadNext(ids: seq<nat>, k: nat)
    requires k < |ids|
    ensures ids[k..] == [ids[k]] + ids[k + 1..]
  {}

  lemma Shift(a: seq<nat>, mine: seq<nat>, x: nat, rest: seq<nat>, p: seq<nat>)
    ensures a + mine + ([x] + rest) + p == a + (mine + [x]) + rest + p
  {}

  lemma HandlingKeeps(s: State, h: History)
    requires Inv(s, h) && s.driver.Handling?
    ensures Inv(Next(s, Drive), Recorded(s, h, Drive))
  {
    hide NoDup;
    var s', h' := Next(s, Drive), Recorded(s, h, Drive);
    assert Line(s', h') == Line(s, h);
    assert h.returned[..h.seen] == h.returned[..h.seen - 1] + [h.returned[h.seen - 1]];
    SameLine(s, h, s', h');
  }

  lemma OfferKeeps(s: State, h: History)
    requires Inv(s, h) && s.driver.Publishing? && s.driver.rest == []
    ensures Inv(Next(s, Drive), Recorded(s, h, Drive))
  {
    hide NoDup;
    var s', h' := Next(s, Drive), Recorded(s, h, Drive);
    assert h'.offered + h'.staged == h.offered + h.staged;
    assert Line(s', h') == Line(s, h);
    SameLine(s, h, s', h');
  }

  lemma StageLine(s: State, h: History)
    requires Inv(s, h) && s.driver.Publishing? && s.driver.rest != []
    ensures Line(Next(s, Drive), Recorded(s, h, Drive)) == Line(s, h)
  {
    hide NoDup, Conserved, Slots;
    var rest := s.driver.rest;
    var all := h.offered + h.staged;
    assert (h.offered + (h.staged + [rest[0]]))[h.taken..] == all[h.taken..] + [rest[0]];
    assert all[h.taken..] + rest == all[h.taken..] + [rest[0]] + rest[1..];
  }

  /** A ring slot is written only when the device is done with it. */
  lemma StageKeeps(s: State, h: History)
    requires Inv(s, h) && s.driver.Publishing? && s.driver.rest != []
    ensures Inv(Next(s, Drive), Recorded(s, h, Drive))
  {
    hide NoDup, Conserved, Line;
    var s', h' := Next(s, Drive), Recorded(s, h, Drive);
    LineShort(s, h);
    StageLine(s, h);
    SameLine(s, h, s', h');
    var p := |h.offered| + |h.staged|;
    WrapSlot(p);
    WrapNext(p);
    forall k | h.taken <= k < p ensures k % QSIZE != p % QSIZE { SlotsDiffer(k, p); }
  }

  lemma DriveKeeps(s: State, h: History)
    requires Inv(s, h)
    ensures Inv(Next(s, Drive), Recorded(s, h, Drive))
  {
    hide Inv, Next, Recorded;
    match s.driver
    case Taking(_) => TakingKeeps(s, h);
    case Reading(_) => ReadingKeeps(s, h);
    case Handling(_, _) => HandlingKeeps(s, h);
    case Publishing(rest, _) => if rest == [] { OfferKeeps(s, h); } else { StageKeeps(s, h); }
  }

  lemma TakeKeeps(s: State, h: History)
    requires Inv(s, h)
    ensures Inv(Next(s, DevTake), Recorded(s, h, DevTake))
  {
    LineShort(s, h);
    WrapEqual(|h.offered|, h.taken);
    if |h.offered| != h.taken {
      WrapSlot(h.taken);
      WrapNext(h.taken);
      TakenLine(s, h);
    }
  }

  lemma TakenLine(s: State, h: History)
    requires Inv(s, h) && h.taken < |h.offered|
    ensures Conserved(s.(device := s.device.(held := s.device.held + {h.offered[h.taken]})), h.(taken := h.taken + 1))
  {
    var line := Line(s, h);
    var s', h' := s.(device := s.device.(held := s.device.held + {h.offered[h.taken]})), h.(taken := h.taken + 1);
    var x := h.offered[h.taken];
    var all := h.offered + h.staged;
    assert all[h.taken..] == [x] + all[h.taken + 1..];
    assert line == [x] + Line(s', h');
    assert line[0] == x;
    assert Line(s', h') == line[1..];
    forall y | y in line[1..] ensures y in line && y != x {
      var i :| 0 <= i < |line[1..]| && line[1..][i] == y;
      assert line[i + 1] == y;
    }
  }

  lemma WriteKeeps(s: State, h: History, id: nat, data: Bytes)
    requires Inv(s, h)
    ensures Inv(Next(s, DevWrite(id, data)), Recorded(s, h, DevWrite(id, data)))
  {
    hide NoDup;
    if id < QSIZE && (id in s.device.held || id in s.device.pending) {
      DeviceHas(s, h, id);
      var s' := Next(s, DevWrite(id, data));
      assert Line(s', h) == Line(s, h);
      SameLine(s, h, s', h);
    }
  }

  /** What the device has not handed back is neither returned nor being handled. */
  lemma DeviceHas(s: State, h: History, id: nat)
    requires Inv(s, h) && (id in s.device.held || id in s.device.pending)
    ensures forall k :: h.seen <= k < |h.returned| ==> h.returned[k].0 != id
    ensures s.driver.Handling? ==> s.driver.id != id
  {
    hide NoDup, Slots, Indices;
    InvCounts(s, h);
    var a, ids, p := (h.offered + h.staged)[h.taken..] + Mine(s.driver), Ids(h.returned)[h.seen..], s.device.pending;
    if id in p { NoDupSplit(a + ids, p); }
    forall k | h.seen <= k < |h.returned| ensures h.returned[k].0 != id {
      assert ids[k - h.seen] == h.returned[k].0;
      assert h.returned[k].0 in a + ids;
    }
    if s.driver.Handling? {
      assert Mine(s.driver)[|s.driver.done|] == s.driver.id;
      assert s.driver.id in a + ids;
    }
  }

  lemma ReturnKeeps(s: State, h: History, id: nat, len: nat)
    requires Inv(s, h)
    ensures Inv(Next(s, DevReturn(id, len)), Recorded(s, h, DevReturn(id, len)))
  {
    if id < QSIZE && id in s.device.held {
      ReturnedLine(s, h, id);
      ReturnedSlots(s, h, id, len);
    }
  }

  lemma ReturnedLine(s: State, h: History, id: nat)
    requires Inv(s, h) && id in s.device.held
    ensures Conserved(s.(device := s.device.(held := s.device.held - {id}, pending := s.device.pending + [id])), h)
  {
    var line := Line(s, h);
    var s' := s.(device := s.device.(held := s.device.held - {id}, pending := s.device.pending + [id]));
    var a := (h.offered + h.staged)[h.taken..] + Mine(s.driver) + Ids(h.returned)[h.seen..];
    assert a + (s.device.pending + [id]) == a + s.device.pending + [id];
    assert Line(s', h) == line + [id];
    NoDupConcat(line, [id]);
    assert s.device.held - {id} + {id} == s.device.held;
  }

  /** The entry goes to a slot whose completion the driver has taken. */
  lemma ReturnedSlots(s: State, h: History, id: nat, len: nat)
    requires Inv(s, h) && id in s.device.held && id < QSIZE
    ensures Slots(Next(s, DevReturn(id, len)), h)
  {
    hide NoDup, Conserved;
    LineShort(s, h);
    assert |s.device.held| > 0;
    var n, p := |h.returned|, |s.device.pending|;
    WrapSlot(n);
    SameSlot(s.mem.usedIdx, n, p);
    forall k | h.seen <= k < n ensures k % QSIZE != SlotOf(n, p) { SlotsDiffer(k, n + p); }
    forall j | 0 <= j < p ensures SlotOf(n, j) != SlotOf(n, p) { SlotsDiffer(n + j, n + p); }
  }

  lemma IndexKeeps(s: State, h: History, n: nat)
    requires Inv(s, h)
    ensures Inv(Next(s, DevIndex(n)), Recorded(s, h, DevIndex(n)))
  {
    hide NoDup;
    if n <= |s.device.pending| {
      var s', h' := Next(s, DevIndex(n)), Recorded(s, h, DevIndex(n));
      WrapAdd(|h.returned|, n);
      IndexLine(s, h, n);
      SameLine(s, h, s', h');
      IndexSlots(s, h, n);
    }
  }

  lemma WrapAdd(a: nat, n: nat)
    ensures (a % WRAP16 + n) % WRAP16 == (a + n) % WRAP16
  {}

  lemma IndexLine(s: State, h: History, n: nat)
    requires Inv(s, h) && n <= |s.device.pending|
    ensures h.seen <= |Recorded(s, h, DevIndex(n)).returned|
    ensures Line(Next(s, DevIndex(n)), Recorded(s, h, DevIndex(n))) == Line(s, h)
  {
    hide NoDup, Conserved, Slots;
    var p, ids := s.device.pending, Ids(h.returned);
    var h' := Recorded(s, h, DevIndex(n));
    assert Ids(h'.returned) == ids + p[..n];
    assert (ids + p[..n])[h.seen..] == ids[h.seen..] + p[..n];
    assert p == p[..n] + p[n..];
    var a := (h.offered + h.staged)[h.taken..] + Mine(s.driver);
    assert a + (ids[h.seen..] + p[..n]) + p[n..] == a + ids[h.seen..] + (p[..n] + p[n..]);
  }

  lemma IndexSlots(s: State, h: History, n: nat)
    requires Inv(s, h) && n <= |s.device.pending|
    ensures Slots(Next(s, DevIndex(n)), Recorded(s, h, DevIndex(n)))
  {
    hide NoDup, InOrder, Line;
    var p, was := s.device.pending, |h.returned|;
    var h' := Recorded(s, h, DevIndex(n));
    PendingSmall(s, h);
    forall k | was <= k < was + n
      ensures h'.returned[k] == (p[k - was], s.mem.buf[p[k - was]]) && s.mem.used[k % QSIZE].0 == p[k - was]
    {
      assert SlotOf(was, k - was) == k % QSIZE;
    }
    forall j | 0 <= j < |p| - n ensures s.mem.used[SlotOf(was + n, j)].0 == p[n..][j] {
      assert SlotOf(was, n + j) == SlotOf(was + n, j);
    }
  }

  lemma PendingSmall(s: State, h: History)
    requires Inv(s, h)
    ensures forall j :: 0 <= j < |s.device.pending| ==> s.device.pending[j] < QSIZE
  {
    hide NoDup, Slots, InOrder;
    forall j | 0 <= j < |s.device.pending| ensures s.device.pending[j] < QSIZE { assert s.device.pending[j] in Line(s, h); }
  }

  lemma StepKeeps(s: State, h: History, e: Event)
    requires Inv(s, h)
    ensures Inv(Next(s, e), Recorded(s, h, e))
  {
    hide Inv, Next, Recorded;
    match e
    case Drive => DriveKeeps(s, h);
    case DevTake => TakeKeeps(s, h);
    case DevWrite(id, data) => WriteKeeps(s, h, id, data);
    case DevReturn(id, len) => ReturnKeeps(s, h, id, len);
    case DevIndex(n) => IndexKeeps(s, h, n);
  }

  /** From posting on, whatever the driver and the device do in whatever order. */
  function After(s: State, h: History, es: seq<Event>): (r: (State, History))
    requires Shaped(s.mem)
    ensures Shaped(r.0.mem)
    decreases |es|
  {
    if es == [] then (s, h)
    else
      var n := |es| - 1;
      var (s1, h1) := After(s, h, es[..n]);
      (Next(s1, es[n]), Recorded(s1, h1, es[n]))
  }

  lemma {:induction false} Always(s: State, es: seq<Event>)
    requires Posting(s)
    ensures Inv(After(s, NOTHING_YET, es).0, After(s, NOTHING_YET, es).1)
    decreases |es|
  {
    hide Inv, Next, Recorded;
    if es == [] {
      StartsWell(s);
    } else {
      var n := |es| - 1;
      Always(s, es[..n]);
      StepKeeps(After(s, NOTHING_YET, es[..n]).0, After(s, NOTHING_YET, es[..n]).1, es[n]);
    }
  }

  // ---- what follows ----

  lemma {:induction false} WholeRange(t: set<nat>, n: nat)
    requires |t| == n && forall x :: x in t ==> x < n
    ensures forall x: nat :: x < n ==> x in t
  {
    if n > 0 {
      if n - 1 in t {
        WholeRange(t - {n - 1}, n - 1);
      } else {
        SmallRange(t, n - 1);
      }
    }
  }

  lemma {:induction false} SmallRange(t: set<nat>, n: nat)
    requires forall x :: x in t ==> x < n
    ensures |t| <= n
  {
    if n > 0 {
      SmallRange(t - {n - 1}, n - 1);
      if n - 1 in t { assert t == t - {n - 1} + {n - 1}; } else { assert t - {n - 1} == t; }
    } else {
      assert t == {};
    }
  }

  /** Places a descriptor can be in. */
  ghost predicate Available(s: State, h: History, d: nat)
    requires h.taken <= |h.offered|
  {
    d in (h.offered + h.staged)[h.taken..]
  }

  ghost predicate Untaken(h: History, d: nat)
    requires h.seen <= |h.returned|
  {
    d in Ids(h.returned)[h.seen..]
  }

  predicate OneOf(a: bool, b: bool, c: bool, d: bool, e: bool) {
    && (a || b || c || d || e)
    && (a ==> !b && !c && !d && !e) && (b ==> !c && !d && !e) && (c ==> !d && !e) && (d ==> !e)
  }

  /** Each descriptor is in exactly one place, in every run: available, in the driver's
      hands, returned and not taken, in a used entry past the index, or held by the device. */
  lemma ExactlyOne(s: State, es: seq<Event>, d: nat)
    requires Posting(s) && d < QSIZE
    ensures var (s1, h1) := After(s, NOTHING_YET, es);
            && h1.taken <= |h1.offered| && h1.seen <= |h1.returned|
            && OneOf(Available(s1, h1, d), d in Mine(s1.driver), Untaken(h1, d), d in s1.device.pending, d in s1.device.held)
  {
    hide After, Next, Recorded;
    Always(s, es);
    var (s1, h1) := After(s, NOTHING_YET, es);
    SomePlace(s1, h1, d);
    OnePlace(s1, h1, d);
  }

  lemma SomePlace(s: State, h: History, d: nat)
    requires Inv(s, h) && d < QSIZE
    ensures d in Line(s, h) || d in s.device.held
  {
    hide Line, NoDup, Indices, Slots, InOrder;
    InvCounts(s, h);
    var line, held := Line(s, h), s.device.held;
    NoDupSize(line);
    assert ToSet(line) * held == {};
    assert |ToSet(line) + held| == QSIZE;
    WholeRange(ToSet(line) + held, QSIZE);
  }

  lemma InvCounts(s: State, h: History)
    requires Inv(s, h)
    ensures h.taken <= |h.offered| && h.seen <= |h.returned|
  {}

  lemma OnePlace(s: State, h: History, d: nat)
    requires Inv(s, h) && (d in Line(s, h) || d in s.device.held)
    ensures OneOf(Available(s, h, d), d in Mine(s.driver), Untaken(h, d), d in s.device.pending, d in s.device.held)
  {
    hide NoDup, Slots, InOrder, Ids, Mine;
    var a, b, c := (h.offered + h.staged)[h.taken..], Mine(s.driver), Ids(h.returned)[h.seen..];
    NoDupSplit(a + b + c, s.device.pending);
    NoDupSplit(a + b, c);
    NoDupSplit(a, b);
  }

  /** Completions are handled in the order the device returned them, each with
      the bytes the device put into its buffer. */
  lemma HandledInOrder(s: State, es: seq<Event>)
    requires Posting(s)
    ensures var h := After(s, NOTHING_YET, es).1; h.handled <= h.returned
  {
    hide After, Next, Recorded;
    Always(s, es);
  }

  /** One poll! handles at most 64 completions; with 64 done it must offer them
      again before it can see another. */
  lemma PollBound(s: State, es: seq<Event>)
    requires Posting(s)
    ensures var s1 := After(s, NOTHING_YET, es).0;
            && |Mine(s1.driver)| <= QSIZE
            && (s1.driver.Taking? && |s1.driver.done| == QSIZE ==> DriverStep(s1).driver == Publishing(s1.driver.done, s1.mem.availIdx))
  {
    hide After, Next, Recorded;
    Always(s, es);
    var (s1, h1) := After(s, NOTHING_YET, es);
    LineShort(s1, h1);
  }

  // ---- publish! as one call ----

  /** The available ring after these heads were written from index idx on. */
  function Published(avail: seq<nat>, idx: nat, heads: seq<nat>): (r: seq<nat>)
    requires |avail| == QSIZE
    ensures |r| == QSIZE
    decreases |heads|
  {
    if heads == [] then avail
    else Published(avail[idx % QSIZE := heads[0]], (idx + 1) % WRAP16, heads[1..])
  }

  /** n accesses of the driver with none of the device's between them. */
  function Driven(s: State, n: nat): (r: State)
    requires Shaped(s.mem)
    ensures Shaped(r.mem)
    decreases n
  {
    if n == 0 then s else Driven(Next(s, Drive), n - 1)
  }

  /** They are all of publish!: its heads' slots, then the index. */
  lemma {:induction false} PublishSteps(s: State)
    requires Shaped(s.mem) && s.driver.Publishing? && s.driver.idx < WRAP16
    ensures var heads, idx := s.driver.rest, s.driver.idx;
            Driven(s, |heads| + 1)
              == s.(mem := s.mem.(avail := Published(s.mem.avail, idx, heads), availIdx := (idx + |heads|) % WRAP16),
                    driver := Taking([]))
    decreases |s.driver.rest|
  {
    hide Driven, Next, Published;
    var rest, idx := s.driver.rest, s.driver.idx;
    DrivenMore(s, |rest|);
    DriveNext(s);
    PublishedStep(s.mem.avail, idx, rest);
    if rest == [] {
      DrivenNone(Next(s, Drive));
    } else {
      PublishSteps(Next(s, Drive));
      WrapFar(idx, |rest|);
    }
  }

  lemma DrivenMore(s: State, n: nat)
    requires Shaped(s.mem)
    ensures Driven(s, n + 1) == Driven(Next(s, Drive), n)
  {
    hide Next;
  }

  lemma DrivenNone(s: State)
    requires Shaped(s.mem)
    ensures Driven(s, 0) == s
  {}

  lemma DriveNext(s: State)
    requires Shaped(s.mem) && s.driver.Publishing?
    ensures var rest, idx := s.driver.rest, s.driver.idx;
            Next(s, Drive) ==
              if rest == [] then s.(mem := s.mem.(availIdx := idx % WRAP16), driver := Taking([]))
              else s.(mem := s.mem.(avail := s.mem.avail[idx % QSIZE := rest[0]]), driver := Publishing(rest[1..], (idx + 1) % WRAP16))
  {}

  lemma PublishedStep(avail: seq<nat>, idx: nat, heads: seq<nat>)
    requires |avail| == QSIZE
    ensures Published(avail, idx, heads)
         == if heads == [] then avail else Published(avail[idx % QSIZE := heads[0]], (idx + 1) % WRAP16, heads[1..])
  {}

  lemma WrapFar(a: nat, n: nat)
    requires n > 0
    ensures ((a + 1) % WRAP16 + (n - 1)) % WRAP16 == (a + n) % WRAP16
  {}

  /** Where there is a completion, two accesses are take-used!'s: the index, then the
      entry. */
  lemma TakeSteps(s: State)
    requires Shaped(s.mem) && s.driver.Taking? && s.mem.usedIdx != s.seen
    ensures Driven(s, 2)
         == s.(driver := Handling(s.driver.done, s.mem.used[s.seen % QSIZE].0), seen := (s.seen + 1) % WRAP16)
  {
    var s1 := Next(s, Drive);
    assert Driven(s, 2) == Driven(s1, 1) == Driven(Next(s1, Drive), 0);
  }

  /** Up to a ring's worth of heads end up in consecutive slots. */
  lemma {:induction false} PublishedAt(avail: seq<nat>, idx: nat, heads: seq<nat>, k: nat)
    requires |avail| == QSIZE && |heads| <= QSIZE && k < |heads|
    ensures Published(avail, idx, heads)[SlotOf(idx, k)] == heads[k]
    decreases |heads|
  {
    var next := (idx + 1) % WRAP16;
    WrapSlot(idx + 1);
    if k > 0 {
      PublishedAt(avail[idx % QSIZE := heads[0]], next, heads[1..], k - 1);
      SameSlot(next, idx + 1, k - 1);
    } else {
      forall j | 0 <= j < |heads| - 1 ensures SlotOf(next, j) != idx % QSIZE {
        SameSlot(next, idx + 1, j);
        SlotsDiffer(idx, idx + 1 + j);
      }
      PublishedElse(avail[idx % QSIZE := heads[0]], next, heads[1..], idx % QSIZE);
    }
  }

  lemma SameSlot(a: nat, b: nat, j: nat)
    requires a % QSIZE == b % QSIZE
    ensures (a + j) % QSIZE == (b + j) % QSIZE
  {}

  lemma {:induction false} PublishedElse(avail: seq<nat>, idx: nat, heads: seq<nat>, slot: nat)
    requires |avail| == QSIZE && slot < QSIZE && forall j :: 0 <= j < |heads| ==> SlotOf(idx, j) != slot
    ensures Published(avail, idx, heads)[slot] == avail[slot]
    decreases |heads|
  {
    if heads != [] {
      var next := (idx + 1) % WRAP16;
      WrapSlot(idx + 1);
      assert SlotOf(idx, 0) != slot;
      forall j | 0 <= j < |heads| - 1 ensures SlotOf(next, j) != slot {
        SameSlot(next, idx + 1, j);
        assert SlotOf(idx, j + 1) != slot;
      }
      PublishedElse(avail[idx % QSIZE := heads[0]], next, heads[1..], slot);
    }
  }
}
