/** The serial receive ring of kernel/console.c: a trap handler and a reader
    share 32-bit counters without a lock.  The trap runs atomically between any
    two of the reader's accesses (kernel/console.c:31-73). */
module ConsoleRing {
  import opened Bytes

  const RING_SIZE := 256
  const WRAP := 0x1_0000_0000
  const CTRL_C := 0x03
  const CTRL_BACKSLASH := 0x1C

  /** The shared variables. */
  datatype Mem = Mem(ring: Bytes, head: nat, tail: nat, dropBefore: nat, drop: bool)

  ghost predicate InRange(m: Mem) {
    |m.ring| == RING_SIZE && m.head < WRAP && m.tail < WRAP && m.dropBefore < WRAP
  }

  // ---- the trap handler ----

  predicate IsKey(b: byte, isBreak: bool, ctrlC: bool, reading: bool) {
    isBreak || b == CTRL_BACKSLASH || (b == CTRL_C && ctrlC && !reading)
  }

  /** console_rx. */
  function Received(m: Mem, b: byte, key: bool): (r: Mem)
    requires InRange(m)
    ensures InRange(r)
  {
    if key then m.(dropBefore := m.head, drop := true)
    else if (m.head - m.tail) % WRAP >= RING_SIZE then m
    else m.(ring := m.ring[m.head % RING_SIZE := b], head := (m.head + 1) % WRAP)
  }

  /** Ctrl-\ and a break always interrupt: what came before is to be dropped.  Ctrl-C does
      outside a read, unless that is switched off; it is an ordinary byte else, as all others
      are, and goes behind those that wait if there is room. */
  lemma InterruptKeys(m: Mem, b: byte, isBreak: bool, ctrlC: bool, reading: bool)
    requires InRange(m)
    ensures var r := Received(m, b, IsKey(b, isBreak, ctrlC, reading));
            var interrupts := isBreak || b == 28 || (b == 3 && ctrlC && !reading);
            && (interrupts ==> r == m.(dropBefore := m.head, drop := true))
            && (!interrupts ==> r == m || r == m.(ring := r.ring, head := r.head))
            && (!interrupts && (m.head - m.tail) % WRAP < 256 ==>
                  r.head == (m.head + 1) % WRAP && r.ring == m.ring[m.head % 256 := b])
  {}

  // ---- the reader, one access at a time ----

  /** Where console_getc_nonblock stands, with its local t: before reading
      `drop`, before clearing it, before reading `drop_before`, before comparing
      with the head, before reading the slot, and before storing the tail. */
  datatype Reader =
    | Idle
    | Checking(t: nat)
    | Clearing(t: nat)
    | Fetching(t: nat)
    | Comparing(t: nat)
    | Loading(t: nat)
    | StoringNone(t: nat)
    | StoringByte(t: nat, c: byte)

  datatype State = State(mem: Mem, reader: Reader)

  /** (int32_t)(d - t) > 0 */
  predicate Ahead(d: nat, t: nat) {
    0 < (d - t) % WRAP < WRAP / 2
  }

  /** The reader's next access. */
  function Access(s: State): (r: State)
    requires InRange(s.mem)
    ensures InRange(r.mem)
  {
    var m := s.mem;
    match s.reader
    case Idle => s.(reader := Checking(m.tail))
    case Checking(t) => s.(reader := if m.drop then Clearing(t) else Comparing(t))
    case Clearing(t) => State(m.(drop := false), Fetching(t))
    case Fetching(t) => s.(reader := Comparing(if Ahead(m.dropBefore, t) then m.dropBefore else t))
    case Comparing(t) => s.(reader := if t == m.head then StoringNone(t) else Loading(t))
    case Loading(t) => s.(reader := StoringByte(t, m.ring[t % RING_SIZE]))
    case StoringNone(t) => State(m.(tail := t % WRAP), Idle)
    case StoringByte(t, _) => State(m.(tail := (t + 1) % WRAP), Idle)
  }

  datatype Event = Trap(b: byte, key: bool) | Reads

  function Next(s: State, e: Event): (r: State)
    requires InRange(s.mem)
    ensures InRange(r.mem)
  {
    match e
    case Trap(b, key) => s.(mem := Received(s.mem, b, key))
    case Reads => Access(s)
  }

  // ---- what happened so far ----

  /** Everything in unbounded numbers: the bytes accepted in order, the reader's
      position in them, how many had been accepted at the last key, and which
      were delivered.  `t` and `begun` belong to the read in progress: its local
      position, and the count at the last key before it began. */
  datatype History = History(accepted: Bytes, tail: nat, key: nat, delivered: seq<nat>, t: nat, begun: nat)

  function Recorded(s: State, h: History, e: Event): History
    requires InRange(s.mem)
  {
    match e
    case Trap(b, key) =>
      if key then h.(key := |h.accepted|)
      else if (s.mem.head - s.mem.tail) % WRAP >= RING_SIZE then h
      else h.(accepted := h.accepted + [b])
    case Reads =>
      match s.reader
      case Idle => h.(t := h.tail, begun := h.key)
      case Fetching(t) => if h.key > h.t then h.(t := h.key) else h
      case StoringNone(t) => h.(tail := h.t)
      case StoringByte(t, c) => h.(tail := h.t + 1, delivered := h.delivered + [h.t])
      case _ => h
  }

  const POWER_ON := State(Mem(Zeros(RING_SIZE), 0, 0, 0, false), Idle)
  const NO_HISTORY := History([], 0, 0, [], 0, 0)

  /** The state and the history after these events. */
  function After(es: seq<Event>): (r: (State, History))
    ensures InRange(r.0.mem)
  {
    if es == [] then (POWER_ON, NO_HISTORY)
    else
      var n := |es| - 1;
      var (s, h) := After(es[..n]);
      (Next(s, es[n]), Recorded(s, h, es[n]))
  }

  // ---- the invariant ----

  /** The counters are the unbounded ones modulo 2^32, and the slots between the
      tail and the head hold the bytes accepted there. */
  ghost predicate Counters(m: Mem, h: History) {
    var n := |h.accepted|;
    && InRange(m)
    && m.head == n % WRAP && m.tail == h.tail % WRAP && m.dropBefore == h.key % WRAP
    && h.tail <= n <= h.tail + RING_SIZE && h.key <= n
    && forall k :: h.tail <= k < n ==> m.ring[k % RING_SIZE] == h.accepted[k]
  }

  /** Every position below t was delivered, or came before the last key. */
  ghost predicate Accounted(delivered: seq<nat>, key: nat, t: nat) {
    forall k: nat :: k < t ==> k in delivered || k < key
  }

  /** In arrival order, without duplicates, all below the tail. */
  ghost predicate InOrder(delivered: seq<nat>, tail: nat) {
    && (forall i, j :: 0 <= i < j < |delivered| ==> delivered[i] < delivered[j])
    && (forall i :: 0 <= i < |delivered| ==> delivered[i] < tail)
  }

  /** Between two reads. */
  ghost predicate Resting(drop: bool, h: History) {
    if drop then h.tail <= h.key + 1 else h.key <= h.tail
  }

  /** Past the drop check: the local position is settled. */
  ghost predicate Settled(drop: bool, h: History, t: nat) {
    && t == h.t % WRAP && h.tail <= h.t <= |h.accepted| && h.begun <= h.t && h.begun <= h.key
    && (if drop then h.t <= h.key else h.key <= h.t)
    && Accounted(h.delivered, h.key, h.t)
  }

  ghost predicate ReaderOK(s: State, h: History) {
    var drop := s.mem.drop;
    match s.reader
    case Idle => Resting(drop, h)
    case Checking(t) => t == h.t % WRAP && h.t == h.tail && h.begun <= h.key && Resting(drop, h)
    case Clearing(t) => t == h.t % WRAP && h.t == h.tail && h.begun <= h.key && drop && Resting(drop, h)
    case Fetching(t) =>
      && t == h.t % WRAP && h.t == h.tail && h.begun <= h.key
      && (if drop then h.tail <= h.key else h.tail <= h.key + 1)
    case Comparing(t) => Settled(drop, h, t)
    case Loading(t) => Settled(drop, h, t) && h.t < |h.accepted|
    case StoringNone(t) => Settled(drop, h, t)
    case StoringByte(t, c) => Settled(drop, h, t) && h.t < |h.accepted| && c == h.accepted[h.t]
  }

  ghost predicate Inv(s: State, h: History) {
    Counters(s.mem, h) && InOrder(h.delivered, h.tail) && Accounted(h.delivered, h.key, h.tail) && ReaderOK(s, h)
  }

  // ---- 32-bit arithmetic ----

  lemma WrapDiff(a: nat, b: nat)
    ensures (a % WRAP - b % WRAP) % WRAP == (a - b) % WRAP
  {}

  lemma WrapEqual(a: nat, b: nat)
    requires b <= a < b + WRAP
    ensures a % WRAP == b % WRAP <==> a == b
  {}

  lemma WrapNext(a: nat)
    ensures (a % WRAP + 1) % WRAP == (a + 1) % WRAP
  {}

  lemma WrapSlot(a: nat)
    ensures a % WRAP % RING_SIZE == a % RING_SIZE
  {
    var q := a / WRAP;
    assert a == q * WRAP + a % WRAP;
    assert a == (q * (WRAP / RING_SIZE)) * RING_SIZE + a % WRAP;
  }

  /** The signed comparison decides between two positions less than 2^31 apart. */
  lemma AheadIs(d: nat, t: nat)
    requires d < t + WRAP / 2 && t <= d + WRAP / 2
    ensures Ahead(d % WRAP, t % WRAP) <==> d > t
  {
    WrapDiff(d, t);
  }

  lemma SlotsDiffer(a: nat, b: nat)
    requires a < b < a + RING_SIZE
    ensures a % RING_SIZE != b % RING_SIZE
  {}

  // ---- every step keeps it ----

  lemma RingFull(m: Mem, h: History)
    requires Counters(m, h)
    ensures (m.head - m.tail) % WRAP == |h.accepted| - h.tail
  {
    WrapDiff(|h.accepted|, h.tail);
  }

  lemma TrapKeeps(s: State, h: History, b: byte, key: bool)
    requires Inv(s, h)
    ensures Inv(Next(s, Trap(b, key)), Recorded(s, h, Trap(b, key)))
  {
    RingFull(s.mem, h);
    var n := |h.accepted|;
    if !key && n - h.tail < RING_SIZE {
      WrapNext(n);
      WrapSlot(n);
      forall k | h.tail <= k < n ensures k % RING_SIZE != n % RING_SIZE { SlotsDiffer(k, n); }
    }
  }

  lemma StartKeeps(s: State, h: History)
    requires Inv(s, h) && (s.reader.Idle? || s.reader.Checking? || s.reader.Clearing?)
    ensures Inv(Next(s, Reads), Recorded(s, h, Reads))
  {
    hide InOrder, Accounted;
  }

  lemma FetchKeeps(s: State, h: History)
    requires Inv(s, h) && s.reader.Fetching?
    ensures Inv(Next(s, Reads), Recorded(s, h, Reads))
  {
    hide InOrder, Ahead;
    assert Accounted(h.delivered, h.key, h.tail);
    AheadIs(h.key, h.t);
  }

  lemma CompareKeeps(s: State, h: History)
    requires Inv(s, h) && (s.reader.Comparing? || s.reader.Loading?)
    ensures Inv(Next(s, Reads), Recorded(s, h, Reads))
  {
    hide InOrder, Accounted;
    WrapEqual(|h.accepted|, h.t);
    WrapSlot(h.t);
  }

  lemma StoreKeeps(s: State, h: History)
    requires Inv(s, h) && (s.reader.StoringNone? || s.reader.StoringByte?)
    ensures Inv(Next(s, Reads), Recorded(s, h, Reads))
  {
    WrapNext(h.t);
    if s.reader.StoringByte? { DeliveredMore(h.delivered, h.key, h.tail, h.t); }
  }

  lemma DeliveredMore(delivered: seq<nat>, key: nat, tail: nat, t: nat)
    requires InOrder(delivered, tail) && tail <= t && Accounted(delivered, key, t)
    ensures InOrder(delivered + [t], t + 1) && Accounted(delivered + [t], key, t + 1)
  {
    forall k: nat | k < t + 1 ensures k in delivered + [t] || k < key {}
  }

  lemma AccessKeeps(s: State, h: History)
    requires Inv(s, h)
    ensures Inv(Next(s, Reads), Recorded(s, h, Reads))
  {
    hide *;
    match s.reader
    case Idle => StartKeeps(s, h);
    case Checking(_) => StartKeeps(s, h);
    case Clearing(_) => StartKeeps(s, h);
    case Fetching(_) => FetchKeeps(s, h);
    case Comparing(_) => CompareKeeps(s, h);
    case Loading(_) => CompareKeeps(s, h);
    case StoringNone(_) => StoreKeeps(s, h);
    case StoringByte(_, _) => StoreKeeps(s, h);
  }

  /** Under every interleaving of traps with the reader's accesses. */
  lemma {:induction false} Always(es: seq<Event>)
    ensures var (s, h) := After(es); Inv(s, h)
  {
    if es != [] {
      var n := |es| - 1;
      Always(es[..n]);
      var (s, h) := After(es[..n]);
      match es[n]
      case Trap(b, key) => TrapKeeps(s, h, b, key);
      case Reads => AccessKeeps(s, h);
    }
  }

  // ---- what a user sees ----

  /** The ring never holds more than its size, whatever the counters wrapped to. */
  lemma Occupancy(es: seq<Event>)
    ensures var m := After(es).0.mem; (m.head - m.tail) % WRAP <= RING_SIZE
  {
    hide After;
    Always(es);
    RingFull(After(es).0.mem, After(es).1);
  }

  /** A byte on its way out is the one accepted at the reader's position, which
      lies behind everything delivered so far: arrival order, no duplicates. */
  lemma NextByte(es: seq<Event>)
    requires After(es).0.reader.StoringByte?
    ensures var (s, h) := After(es);
            && h.t < |h.accepted| && s.reader.c == h.accepted[h.t]
            && (forall i :: 0 <= i < |h.delivered| ==> h.delivered[i] < h.t)
            && Recorded(s, h, Reads).delivered == h.delivered + [h.t]
  {
    hide After;
    Always(es);
  }

  /** What the reader skipped was accepted before the last key: a drop never
      discards a later byte, and without a key nothing is lost. */
  lemma OnlyTypedAheadDropped(es: seq<Event>, k: nat)
    requires var h := After(es).1; h.key <= k < h.tail
    ensures k in After(es).1.delivered
  {
    hide After;
    Always(es);
  }

  lemma AfterStep(es: seq<Event>)
    requires es != []
    ensures var n := |es| - 1; var (s, h) := After(es[..n]);
            After(es) == (Next(s, es[n]), Recorded(s, h, es[n]))
  {
    hide Next, Recorded;
  }

  lemma StepGrows(s: State, h: History, e: Event)
    requires Inv(s, h)
    ensures h.accepted <= Recorded(s, h, e).accepted && h.key <= Recorded(s, h, e).key
  {
    hide InOrder, Accounted, ReaderOK;
  }

  lemma {:induction false} HistoryGrows(es: seq<Event>, q: nat)
    requires q <= |es|
    ensures After(es[..q]).1.accepted <= After(es).1.accepted && After(es[..q]).1.key <= After(es).1.key
    decreases |es|
  {
    hide After, Next, Recorded, Inv;
    if q < |es| {
      var n := |es| - 1;
      HistoryGrows(es[..n], q);
      assert es[..n][..q] == es[..q];
      Always(es[..n]);
      AfterStep(es);
      StepGrows(After(es[..n]).0, After(es[..n]).1, es[n]);
    } else {
      assert es[..q] == es;
    }
  }

  /** After a key, the count at the last key is at least what had been accepted
      then. */
  lemma KeyCounts(es: seq<Event>, q: nat)
    requires q < |es| && es[q].Trap? && es[q].key
    ensures |After(es[..q]).1.accepted| <= After(es).1.key
  {
    hide After, Next;
    var upTo := es[..q + 1];
    assert upTo[..q] == es[..q];
    AfterStep(upTo);
    HistoryGrows(es, q + 1);
  }

  /** A read in progress since event r. */
  ghost predicate ReadingSince(es: seq<Event>, r: nat) {
    && r < |es| && es[r].Reads? && After(es[..r]).0.reader.Idle?
    && forall k :: r < k <= |es| ==> !After(es[..k]).0.reader.Idle?
  }

  lemma BegunStep(s: State, h: History, e: Event)
    requires InRange(s.mem)
    ensures Recorded(s, h, e).begun == if s.reader.Idle? && e.Reads? then h.key else h.begun
  {}

  lemma {:induction false} BegunThen(es: seq<Event>, r: nat)
    requires ReadingSince(es, r)
    ensures After(es).1.begun == After(es[..r]).1.key
    decreases |es|
  {
    hide After, Next, Recorded;
    var n := |es| - 1;
    AfterStep(es);
    BegunStep(After(es[..n]).0, After(es[..n]).1, es[n]);
    if r < n {
      forall k | r < k <= n ensures !After(es[..n][..k]).0.reader.Idle? { assert es[..n][..k] == es[..k]; }
      assert es[..n][..r] == es[..r];
      BegunThen(es[..n], r);
      assert es[..n][..n] == es[..n];
    }
  }

  /** A read begun after an interrupt key never returns a byte accepted before
      that key. */
  lemma NeverStale(es: seq<Event>, q: nat, r: nat)
    requires q < r && ReadingSince(es, r) && es[q].Trap? && es[q].key
    requires After(es).0.reader.StoringByte?
    ensures After(es).1.t >= |After(es[..q]).1.accepted|
  {
    hide After;
    Always(es);
    BegunThen(es, r);
    KeyCounts(es[..r], q);
    assert es[..r][..q] == es[..q];
  }

  // ---- why the order of the accesses matters ----

  /** A reader that would fetch drop_before before it clears drop. */
  function ClearingLate(s: State): (r: State)
    requires InRange(s.mem)
    ensures InRange(r.mem)
  {
    match s.reader
    case Checking(t) => s.(reader := if s.mem.drop then Fetching(t) else Comparing(t))
    case Fetching(t) => s.(reader := Clearing(if Ahead(s.mem.dropBefore, t) then s.mem.dropBefore else t))
    case Clearing(t) => State(s.mem.(drop := false), Comparing(t))
    case _ => Access(s)
  }

  /** A reader that would take drop_before even when it lies behind. */
  function Unguarded(s: State): (r: State)
    requires InRange(s.mem)
    ensures InRange(r.mem)
  {
    match s.reader
    case Fetching(_) => s.(reader := Comparing(s.mem.dropBefore))
    case _ => Access(s)
  }

  /** Clearing late loses a key that comes in between: a read begun after it
      (from r0) returns a byte that was accepted before it. */
  lemma ClearingLateLosesKey(m: Mem)
    requires InRange(m) && m.head == m.tail == 0 && m.drop && m.dropBefore == 0
    ensures var s := ClearingLate(ClearingLate(ClearingLate(State(m, Idle))));
            var mem := Received(Received(Received(s.mem, 0x61, false), 0x62, false), 0, true);
            var s1 := ClearingLate(ClearingLate(ClearingLate(ClearingLate(State(mem, s.reader)))));
            var s2 := ClearingLate(ClearingLate(ClearingLate(ClearingLate(s1))));
            && s1.reader.Idle? && mem.dropBefore == 2
            && s2.reader == StoringByte(1, 0x62)
  {
    var s := ClearingLate(ClearingLate(ClearingLate(State(m, Idle))));
    assert s == State(m, Clearing(0));
    var m1 := Received(m, 0x61, false);
    assert m1.head == 1 && m1.ring[0] == 0x61;
    var m2 := Received(m1, 0x62, false);
    assert m2.head == 2 && m2.ring[1] == 0x62;
    var mem := Received(m2, 0, true);
    var a := ClearingLate(State(mem, s.reader));
    assert a == State(mem.(drop := false), Comparing(0));
    var s1 := ClearingLate(ClearingLate(ClearingLate(a)));
    assert s1 == State(mem.(drop := false, tail := 1), Idle);
  }

  /** Without the signed guard a byte that was already read is read again. */
  lemma UnguardedReadsTwice(m: Mem)
    requires InRange(m) && m.head == m.tail == 0 && !m.drop
    ensures var s := Unguarded(Unguarded(State(m, Idle)));
            var mem := Received(Received(s.mem, 0, true), 0x61, false);
            var s1 := Unguarded(Unguarded(State(mem, s.reader)));
            var s2 := Unguarded(s1);
            var s3 := Unguarded(Unguarded(Unguarded(Unguarded(Unguarded(Unguarded(s2))))));
            && s1.reader == StoringByte(0, 0x61) && s2.reader.Idle?
            && s3.reader == StoringByte(0, 0x61)
  {
    var s := Unguarded(Unguarded(State(m, Idle)));
    assert s == State(m, Comparing(0));
    var mem := Received(Received(m, 0, true), 0x61, false);
    assert mem.head == 1 && mem.ring[0] == 0x61 && mem.dropBefore == 0 && mem.drop;
    var s1 := Unguarded(Unguarded(State(mem, s.reader)));
    var s2 := Unguarded(s1);
    assert s2 == State(mem.(tail := 1), Idle);
    var b := Unguarded(Unguarded(Unguarded(s2)));
    assert b == State(mem.(tail := 1, drop := false), Fetching(1));
    var c := Unguarded(b);
    assert c.reader == Comparing(0);
  }

  // ---- the handler and the reader as they run alone ----

  /** console_getc_nonblock without a trap in between. */
  function Alone(m: Mem): (r: (Mem, int))
    requires InRange(m)
  {
    var s0 := Access(Access(State(m, Idle)));
    var s1 := if s0.reader.Clearing? then Access(Access(s0)) else s0;
    var s2 := Access(s1);
    if s2.reader.Loading? then
      var s3 := Access(s2);
      (Access(s3).mem, s3.reader.c as int)
    else (Access(s2).mem, -1)
  }

  /** The same, said at once: skip to drop_before if a key came and it lies
      ahead, then take the byte there, if any. */
  lemma AloneIs(m: Mem)
    requires InRange(m)
    ensures var t := if m.drop && Ahead(m.dropBefore, m.tail) then m.dropBefore else m.tail;
            var rest := m.(drop := false);
            Alone(m) == if t == m.head then (rest.(tail := t), -1)
                        else (rest.(tail := (t + 1) % WRAP), m.ring[t % RING_SIZE] as int)
  {
    hide Ahead;
  }

  class Console {
    var ring: array<byte>
    var head: nat
    var tail: nat
    var dropBefore: nat
    var drop: bool
    var reading: bool
    var ctrlCInterrupts: bool
    var requested: bool

    ghost predicate Valid()
      reads this, ring
    {
      ring.Length == RING_SIZE && head < WRAP && tail < WRAP && dropBefore < WRAP
    }

    ghost function Shared(): (m: Mem)
      reads this, ring
      requires Valid()
      ensures InRange(m)
    {
      Mem(ring[..], head, tail, dropBefore, drop)
    }

    /** console_rx, run by the trap handler. */
    method Rx(b: byte, isBreak: bool)
      requires Valid()
      modifies this`head, this`dropBefore, this`drop, this`requested, ring
      ensures Valid() && ring == old(ring)
      ensures Shared() == Received(old(Shared()), b, IsKey(b, isBreak, ctrlCInterrupts, reading))
      ensures requested == (old(requested) || isBreak || b == 28 || (b == 3 && ctrlCInterrupts && !reading))
    {
      if isBreak || b == CTRL_BACKSLASH || (b == CTRL_C && ctrlCInterrupts && !reading) {
        dropBefore := head;
        drop := true;
        requested := true;
        return;
      }
      var h := head;
      if (h - tail) % WRAP >= RING_SIZE { return; }
      ring[h % RING_SIZE] := b;
      head := (h + 1) % WRAP;
    }

    /** console_getc_nonblock, with no trap in between: -1 for no byte. */
    method GetcNonblock() returns (c: int)
      requires Valid()
      modifies this`tail, this`drop
      ensures Valid()
      ensures (Shared(), c) == Alone(old(Shared()))
    {
      hide Alone, Ahead;
      AloneIs(Shared());
      var t := tail;
      if drop {
        drop := false;
        var d := dropBefore;
        if Ahead(d, t) { t := d; }
      }
      if t == head {
        tail := t;
        return -1;
      }
      c := ring[t % RING_SIZE] as int;
      tail := (t + 1) % WRAP;
    }
  }
}
