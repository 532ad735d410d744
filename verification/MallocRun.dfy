/** Runs of a client of the allocator: how far the break goes over any sequence of calls
    (kernel/malloc.c:50-109). */
module MallocRun {
  import opened Bytes
  import opened MallocClasses
  import opened Malloc

  /** What a client does with one of its pointer variables. */
  datatype Call =
    | Get(i: nat, n: nat)
    | GetZeroed(i: nat, count: nat, size: nat)
    | GetAligned(i: nat, k: nat, n: nat)
    | Resize(i: nat, n: nat)
    | Drop(i: nat)

  /** The variable exists, the sizes are of the source's type, and an aligned request's sum
      does not wrap. */
  predicate Fair(call: Call, count: nat) {
    && call.i < count
    && match call
       case Get(_, n) => n < SIZE_WRAP
       case GetZeroed(_, count, size) => count < SIZE_WRAP && size < SIZE_WRAP
       case GetAligned(_, k, n) => n < SIZE_WRAP && (Pow2(k) > ALIGN ==> n + Pow2(k) < SIZE_WRAP)
       case Resize(_, n) => n < SIZE_WRAP
       case Drop(_) => true
  }

  /** The bytes that the call asks malloc for. */
  function Asked(call: Call): nat {
    match call
    case Get(_, n) => n
    case GetZeroed(_, count, size) => Product(count, size)
    case GetAligned(_, k, n) => if Pow2(k) > ALIGN then n + Pow2(k) else n
    case Resize(_, n) => n
    case Drop(_) => 0
  }

  /** The client's variables, the blocks that they point into, the allocator's books, the
      memory and the break. */
  datatype Moment = Moment(slots: seq<nat>, owners: seq<nat>, books: Books, mem: Bytes, brk: nat)

  /** Every variable is 0 or a live pointer, no two the same. */
  ghost predicate Owned(m: Moment) {
    && |m.owners| == |m.slots|
    && (forall i :: 0 <= i < |m.slots| && m.slots[i] != 0 ==> Points(m.books, m.owners[i], m.slots[i]))
    && forall i, j :: 0 <= i < j < |m.slots| && m.slots[i] != 0 && m.slots[j] != 0 ==> m.owners[i] != m.owners[j]
  }

  /** The class of the block that variable i points into. */
  ghost function HeldClass(m: Moment, i: nat): nat
    requires i < |m.owners|
  {
    if m.owners[i] in m.books.cls then m.books.cls[m.owners[i]] else 0
  }

  /** The blocks that the call took and gave back, in order, when variable i went from p to
      q: realloc has two at once while it moves. */
  ghost function LogOf(call: Call, m: Moment, q: nat): seq<Event>
    requires call.i < |m.slots| == |m.owners|
  {
    var p := m.slots[call.i];
    match call
    case Drop(i) => if p == 0 then [] else [Gave(HeldClass(m, i))]
    case Resize(i, n) =>
      if q == p then [] else if p == 0 then [Took(ClassFor(n))] else [Took(ClassFor(n)), Gave(HeldClass(m, i))]
    case _ => if q == 0 then [] else [Took(ClassFor(Asked(call)))]
  }

  /** Variable i got n bytes in a block that was not live, and no live byte has changed. */
  ghost predicate Provided(m: Moment, m': Moment, i: nat, n: int)
    requires i < |m'.slots| == |m'.owners|
  {
    && 0 <= n && m'.slots[i] != 0 && m'.owners[i] !in m.books.live
    && m'.books.live == m.books.live[m'.owners[i] := Alloc(m'.slots[i], n)]
    && Untouched(m.mem, m'.mem, m.books.live)
  }

  ghost predicate Unserved(m: Moment, m': Moment) { m'.books == m.books && m'.mem == m.mem }

  /** What the client gets: the bytes it asked for, as it asked for them, unless there is no
      room; its other allocations keep theirs. */
  ghost predicate Fulfilled(call: Call, m: Moment, m': Moment)
    requires call.i < |m.slots| == |m.owners| == |m'.slots| == |m'.owners|
  {
    var p, h, q := m.slots[call.i], m.owners[call.i], m'.slots[call.i];
    match call
    case Get(i, n) =>
      if NoRoom(m.books, m.brk, |m.mem|, n) then q == 0 && Unserved(m, m')
      else Provided(m, m', i, n) && q % ALIGN == 0
    case GetZeroed(i, count, size) =>
      if count * size >= SIZE_WRAP || NoRoom(m.books, m.brk, |m.mem|, Product(count, size)) then q == 0 && Unserved(m, m')
      else Provided(m, m', i, count * size) && Zeroed(m'.mem, q, count * size)
    case GetAligned(i, k, n) =>
      if NoRoom(m.books, m.brk, |m.mem|, Asked(call)) then q == 0 && Unserved(m, m')
      else Provided(m, m', i, n) && q % ALIGN == 0 && (Pow2(k) > ALIGN ==> q % Pow2(k) == 0)
    case Resize(i, n) =>
      if p == 0 then
        if NoRoom(m.books, m.brk, |m.mem|, n) then q == 0 && Unserved(m, m') else Provided(m, m', i, n)
      else
        && h in m.books.cls
        && var fits := n <= End(m.books, h) - p;
           if !fits && NoRoom(m.books, m.brk, |m.mem|, n) then q == p && Unserved(m, m')
           else Reallocated(m.mem, m'.mem, m.books, m'.books, h, p, q, n) && (q == p <==> fits)
    case Drop(_) =>
      && q == 0
      && if p == 0 then Unserved(m, m')
         else m'.books.live == m.books.live - {h} && Untouched(m.mem, m'.mem, m.books.live - {h})
  }

  /** One call: only its variable changes, and the books follow its log. */
  ghost predicate Served(call: Call, m: Moment, m': Moment, log: seq<Event>) {
    && call.i < |m.slots| == |m.owners| == |m'.slots| == |m'.owners|
    && m'.slots == m.slots[call.i := m'.slots[call.i]]
    && (call.Drop? ==> m'.slots[call.i] == 0)
    && (call.Resize? && m.slots[call.i] != 0 ==> m'.slots[call.i] != 0)
    && Fulfilled(call, m, m')
    && log == LogOf(call, m, m'.slots[call.i])
    && Tallied(m.books, m'.books, log)
  }

  ghost function Joined(logs: seq<seq<Event>>): seq<Event> {
    if logs == [] then [] else Joined(logs[..|logs| - 1]) + logs[|logs| - 1]
  }

  // ---- one call ----

  /** The variable holds a new pointer, or 0. */
  lemma Filled(m: Moment, i: nat, p: nat, n: nat, g: nat, b: Books)
    requires Owned(m) && i < |m.slots| && g !in m.books.live && b.live == m.books.live[g := Alloc(p, n)]
    ensures Owned(m.(slots := m.slots[i := p], owners := m.owners[i := g], books := b))
  {}

  lemma Emptied(m: Moment, i: nat)
    requires Owned(m) && i < |m.slots|
    ensures Owned(m.(slots := m.slots[i := 0]))
  {}

  lemma Dropped(m: Moment, i: nat, b: Books)
    requires Owned(m) && i < |m.slots| && m.slots[i] != 0 && b.live == m.books.live - {m.owners[i]}
    ensures Owned(m.(slots := m.slots[i := 0], books := b))
  {}

  lemma Moved(m: Moment, i: nat, p: nat, n: nat, g: nat, b: Books)
    requires Owned(m) && i < |m.slots| && m.slots[i] != 0
    requires var rest := m.books.live - {m.owners[i]}; g !in rest && b.live == rest[g := Alloc(p, n)]
    ensures Owned(m.(slots := m.slots[i := p], owners := m.owners[i := g], books := b))
  {}

  lemma NothingDone(heap: Allocator, m: Moment)
    requires heap.Valid() && At(heap, m)
    ensures Tallied(m.books, m.books, [])
  {
    hide Tallied, Inv;
    TookNone(heap.mem, heap.start, heap.brk, heap.freeLists, m.books, m.books);
  }

  /** The allocator is as the moment says. */
  ghost predicate At(heap: Allocator, m: Moment)
    reads heap
  {
    heap.books == m.books && heap.mem == m.mem && heap.brk == m.brk
  }

  /** The moment after variable i became p, in block g. */
  ghost function Then(m: Moment, i: nat, p: nat, g: nat, heap: Allocator): Moment
    requires i < |m.slots| == |m.owners|
    reads heap
  {
    Moment(m.slots[i := p], m.owners[i := g], heap.books, heap.mem, heap.brk)
  }

  /** malloc, calloc and aligned_alloc; a pointer that the variable held stays live. */
  method Acquire(heap: Allocator, call: Call, ghost m: Moment) returns (p: nat, ghost g: nat)
    requires heap.Valid() && At(heap, m) && Owned(m) && Fair(call, |m.slots|) && !call.Drop? && !call.Resize?
    modifies heap`mem, heap`brk, heap`freeLists, heap`books
    ensures heap.Valid() && |m.owners| == |m.slots|
    ensures p == 0 ==> g == m.owners[call.i] && heap.books == m.books
    ensures p != 0 ==> g !in m.books.live && exists n :: heap.books.live == m.books.live[g := Alloc(p, n)]
    ensures p != 0 ==> Tallied(m.books, heap.books, [Took(ClassFor(Asked(call)))])
    ensures Fulfilled(call, m, Then(m, call.i, p, g, heap))
  {
    hide Tallied, Inv, NoRoom, Untouched, PeakNow, ClassesKept, ClassFor, Zeroed, Pow2, Size;
    match call {
      case Get(i, n) =>
        p := heap.Malloc(n);
        g := if p != 0 then p - HEADER else m.owners[i];
      case GetZeroed(i, count, size) =>
        p := heap.Calloc(count, size);
        g := if p != 0 then NewBlock(m.books, heap.books, p, count * size) else m.owners[i];
      case GetAligned(i, k, n) =>
        p := heap.AlignedAlloc(Pow2(k), n, k);
        g := if p != 0 then NewBlock(m.books, heap.books, p, n) else m.owners[i];
    }
  }

  ghost function NewBlock(b: Books, b': Books, p: nat, n: int): (g: nat)
    requires Gained(b, b', p, n)
    ensures 0 <= n && g !in b.live && b'.live == b.live[g := Alloc(p, n)]
  {
    var g: nat :| g !in b.live && b'.live == b.live[g := Alloc(p, n)];
    g
  }

  ghost function NewHome(m: Bytes, m': Bytes, b: Books, b': Books, h: nat, p: nat, q: nat, n: nat): (g: nat)
    requires Reallocated(m, m', b, b', h, p, q, n)
    ensures h in b.live && g !in b.live - {h} && b'.live == (b.live - {h})[g := Alloc(q, n)]
  {
    var g :| Points(b', g, q) && g !in b.live - {h} && b'.live == (b.live - {h})[g := Alloc(q, n)];
    g
  }

  /** realloc of a variable; when it fails the variable keeps its pointer. */
  method Enlarge(heap: Allocator, i: nat, n: nat, p: nat, ghost m: Moment) returns (q: nat, ghost g: nat)
    requires heap.Valid() && At(heap, m) && Owned(m) && i < |m.slots| && n < SIZE_WRAP && p == m.slots[i] != 0
    modifies heap`mem, heap`brk, heap`freeLists, heap`books
    ensures heap.Valid() && q != 0 && |m.owners| == |m.slots|
    ensures Tallied(m.books, heap.books, LogOf(Resize(i, n), m, q))
    ensures Owned(Then(m, i, q, g, heap)) && Fulfilled(Resize(i, n), m, Then(m, i, q, g, heap))
  {
    hide Tallied, Inv, NoRoom, Untouched, PeakNow, ClassesKept, ClassFor, Carried, Reallocated, Size;
    ghost var h, mem := m.owners[i], heap.mem;
    NothingDone(heap, m);
    q := heap.Realloc(p, n, h);
    if q == 0 {
      assert m.slots[i := p] == m.slots && m.owners[i := h] == m.owners;
      return p, h;
    }
    g := NewHome(mem, heap.mem, m.books, heap.books, h, p, q, n);
    Moved(m, i, q, n, g, heap.books);
  }

  /** One call on the client's variables. */
  method Serve(heap: Allocator, call: Call, slots: seq<nat>, ghost m: Moment) returns (slots': seq<nat>, ghost m': Moment, ghost log: seq<Event>)
    requires heap.Valid() && Owned(m) && At(heap, m) && m.slots == slots && Fair(call, |slots|)
    modifies heap`mem, heap`brk, heap`freeLists, heap`books
    ensures heap.Valid() && Owned(m') && At(heap, m') && m'.slots == slots' && |slots'| == |slots|
    ensures Served(call, m, m', log)
  {
    hide Tallied, Inv, ClassFor, Untouched, Pow2, Size, NoRoom, Reallocated;
    var i, p := call.i, slots[call.i];
    ghost var g := m.owners[i];
    NothingDone(heap, m);
    if call.Drop? {
      if p != 0 { heap.Free(p, g); Dropped(m, i, heap.books); } else { Emptied(m, i); }
      slots' := slots[i := 0];
    } else if call.Resize? && p != 0 {
      p, g := Enlarge(heap, i, call.n, p, m);
      slots' := slots[i := p];
    } else {
      p, g := Acquire(heap, if call.Resize? then Get(i, call.n) else call, m);
      if p != 0 {
        ghost var n :| heap.books.live == m.books.live[g := Alloc(p, n)];
        Filled(m, i, p, n, g, heap.books);
      } else {
        Emptied(m, i);
        assert m.owners[i := g] == m.owners;
      }
      slots' := slots[i := p];
    }
    m' := Then(m, i, slots'[i], g, heap);
    assert call.Drop? ==> m.owners[i := g] == m.owners;
    log := LogOf(call, m, slots'[i]);
  }

  // ---- a run ----

  lemma JoinedSnoc(logs: seq<seq<Event>>, log: seq<Event>)
    ensures Joined(logs + [log]) == Joined(logs) + log
  {
    assert (logs + [log])[..|logs|] == logs;
  }

  /** The bytes of the most blocks that were live together, over the classes below n, when
      none was live before. */
  function MostBytes(log: seq<Event>, n: nat): int {
    if n == 0 then 0 else MostBytes(log, n - 1) + Most(0, log, n - 1) * (HEADER + Size(n - 1))
  }

  lemma {:induction false} PeaksAreMost(peak: seq<nat>, log: seq<Event>, n: nat)
    requires n <= |peak| && forall c: nat :: c < n ==> peak[c] == Most(0, log, c)
    ensures PeakBytes(peak, n) == MostBytes(log, n)
  {
    hide Size, Most;
    if n > 0 { PeaksAreMost(peak, log, n - 1); }
  }

  lemma NoneLive(b: Books, b': Books, log: seq<Event>)
    requires b.live == map[] && b.peak == seq(CLASSES, _ => 0) && Tallied(b, b', log)
    ensures |b'.peak| == CLASSES && forall c: nat :: c < CLASSES ==> b'.peak[c] == Most(0, log, c)
  {
    hide Most, After;
    forall c: nat | c < CLASSES ensures b'.peak[c] == Most(0, log, c) {
      assert LiveOfClass(b, c) == {};
      MostFirst(0, log, c);
    }
  }

  /** Any sequence of calls on a fresh heap.  In every class the break has advanced by the
      most blocks of the class that the client ever had live together, realloc's two
      included, times a block's size. */
  method Run(start: nat, mem: Bytes, calls: seq<Call>, count: nat)
    returns (heap: Allocator, slots: seq<nat>, ghost trail: seq<Moment>, ghost logs: seq<seq<Event>>)
    requires 0 < start <= |mem| < 0x8000_0000_0000_0000 && start % ALIGN == 0
    requires forall k :: 0 <= k < |calls| ==> Fair(calls[k], count)
    ensures fresh(heap) && heap.Valid() && heap.start == start
    ensures |logs| == |calls| && |trail| == |calls| + 1
    ensures trail[0].slots == seq(count, _ => 0) && trail[0].books.live == map[]
    ensures trail[0].mem == mem && trail[0].brk == start
    ensures trail[|calls|].slots == slots && At(heap, trail[|calls|])
    ensures forall k :: 0 <= k <= |calls| ==> Owned(trail[k])
    ensures forall k :: 0 <= k < |calls| ==> Served(calls[k], trail[k], trail[k + 1], logs[k])
    ensures forall c: nat :: c < CLASSES ==> LiveCount(heap.books, c) == After(0, Joined(logs), c)
    ensures heap.brk - start == MostBytes(Joined(logs), CLASSES)
  {
    hide Tallied, Inv, Served, Owned, Fair, LogOf, After, Most, Fulfilled;
    heap := new Allocator(start, mem);
    slots := seq(count, _ => 0);
    ghost var first := Moment(slots, seq(count, _ => 0), heap.books, heap.mem, heap.brk);
    NoPointers(first);
    NothingDone(heap, first);
    trail, logs := [first], [];
    var k := 0;
    while k < |calls|
      invariant 0 <= k <= |calls| && heap.Valid() && heap.start == start && fresh(heap)
      invariant |logs| == k && |trail| == k + 1 && |slots| == count
      invariant trail[0] == first && trail[k].slots == slots && At(heap, trail[k])
      invariant forall j :: 0 <= j <= k ==> Owned(trail[j])
      invariant forall j :: 0 <= j < k ==> Served(calls[j], trail[j], trail[j + 1], logs[j])
      invariant Tallied(first.books, heap.books, Joined(logs))
    {
      ghost var m := trail[k];
      ghost var m', log;
      slots, m', log := Serve(heap, calls[k], slots, m);
      ServedTally(calls[k], m, m', log);
      TalliedAgain(first.books, m.books, heap.books, Joined(logs), log);
      JoinedSnoc(logs, log);
      trail, logs := trail + [m'], logs + [log];
      k := k + 1;
    }
    RunEnds(first.books, heap.books, Joined(logs));
    GrowthBound(heap.mem, start, heap.brk, heap.freeLists, heap.books);
    NoneLive(first.books, heap.books, Joined(logs));
    PeaksAreMost(heap.books.peak, Joined(logs), CLASSES);
  }

  lemma NoPointers(m: Moment)
    requires |m.owners| == |m.slots| && forall i :: 0 <= i < |m.slots| ==> m.slots[i] == 0
    ensures Owned(m)
  {}

  lemma ServedTally(call: Call, m: Moment, m': Moment, log: seq<Event>)
    requires Served(call, m, m', log)
    ensures Tallied(m.books, m'.books, log)
  {
    hide Tallied, LogOf;
  }

  lemma RunEnds(b: Books, b': Books, log: seq<Event>)
    requires b.live == map[] && Tallied(b, b', log)
    ensures forall c: nat :: c < CLASSES ==> LiveCount(b', c) == After(0, log, c)
  {
    hide Most, After;
    forall c: nat | c < CLASSES ensures LiveCount(b', c) == After(0, log, c) {
      assert LiveOfClass(b, c) == {};
    }
  }
}
