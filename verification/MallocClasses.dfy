/** Size classes of the allocator: multiples of 16 up to 2 KiB, then powers of
    two (kernel/malloc.c:21-43). */
module MallocClasses {

  const ALIGN := 16
  const SMALL_MAX := 2048
  const SMALL_COUNT := 128
  const CLASSES := 148
  const HEADER := 16
  const SIZE_WRAP := 0x1_0000_0000_0000_0000

  function Pow2(k: nat): (r: nat)
    ensures r > 0
  {
    if k == 0 then 1 else 2 * Pow2(k - 1)
  }

  /** class_size. */
  function Size(c: nat): (s: nat)
    ensures s > 0 && s % ALIGN == 0
  {
    if c < SMALL_COUNT then (c + 1) * ALIGN
    else
      LargeAligned(c - SMALL_COUNT);
      2 * SMALL_MAX * Pow2(c - SMALL_COUNT)
  }

  lemma LargeAligned(k: nat)
    ensures 2 * SMALL_MAX * Pow2(k) > 0 && 2 * SMALL_MAX * Pow2(k) % ALIGN == 0
  {
    hide Pow2;
    assert 2 * SMALL_MAX * Pow2(k) == 16 * (256 * Pow2(k));
  }

  lemma SizeNext(c: nat)
    ensures Size(c) < Size(c + 1)
    ensures c >= SMALL_COUNT ==> Size(c + 1) == 2 * Size(c)
  {
    if c >= SMALL_COUNT {
      assert Pow2(c + 1 - SMALL_COUNT) == 2 * Pow2(c - SMALL_COUNT);
    }
  }

  lemma {:induction false} SizeMono(c: nat, e: nat)
    requires c <= e
    ensures Size(c) <= Size(e) && (c < e ==> Size(c) < Size(e))
  {
    hide Size;
    if c < e { SizeMono(c, e - 1); SizeNext(e - 1); }
  }

  lemma {:induction false} PowAdd(a: nat, b: nat)
    ensures Pow2(a + b) == Pow2(a) * Pow2(b)
  {
    if b > 0 { PowAdd(a, b - 1); }
  }

  lemma LargestSize()
    ensures Size(CLASSES - 1) == 0x8000_0000
  {
    assert Pow2(5) == 32;
    PowAdd(5, 5);
    PowAdd(10, 5);
    PowAdd(15, 4);
    assert Pow2(4) == 16;
  }

  lemma SizeBound(c: nat)
    requires c < CLASSES
    ensures ALIGN <= Size(c) <= 0x8000_0000
  {
    hide Size;
    SizeMono(c, CLASSES - 1);
    LargestSize();
    SizeMono(0, c);
    FirstSize();
  }

  lemma FirstSize()
    ensures Size(0) == ALIGN
  {}

  /** The least class from c on that holds n bytes; CLASSES for none. */
  function LeastFrom(n: nat, c: nat): (r: nat)
    requires c <= CLASSES
    ensures c <= r <= CLASSES
    decreases CLASSES - c
  {
    if c == CLASSES || n <= Size(c) then c else LeastFrom(n, c + 1)
  }

  function ClassFor(n: nat): (r: nat)
    ensures r <= CLASSES
  {
    LeastFrom(n, 0)
  }

  lemma {:induction false} LeastIs(n: nat, c: nat, r: nat)
    requires c <= r <= CLASSES && (r < CLASSES ==> n <= Size(r)) && (c < r ==> Size(r - 1) < n)
    ensures LeastFrom(n, c) == r
    decreases r - c
  {
    hide Size;
    if c < r {
      SizeMono(c, r - 1);
      LeastIs(n, c + 1, r);
    }
  }

  lemma {:induction false} LeastHolds(n: nat, c: nat)
    requires c <= CLASSES
    ensures var r := LeastFrom(n, c); (r < CLASSES ==> n <= Size(r)) && (c < r ==> Size(r - 1) < n)
    decreases CLASSES - c
  {
    hide Size;
    if c < CLASSES && n > Size(c) { LeastHolds(n, c + 1); }
  }

  /** A class exists exactly for requests up to 2 GiB, and it is the smallest
      that holds them. */
  lemma ClassHolds(n: nat)
    ensures ClassFor(n) < CLASSES <==> n <= 0x8000_0000
    ensures ClassFor(n) < CLASSES ==> n <= Size(ClassFor(n))
    ensures forall c: nat :: c < CLASSES && n <= Size(c) ==> ClassFor(n) <= c
  {
    hide Size, LeastFrom;
    LeastHolds(n, 0);
    LargestSize();
    var r := ClassFor(n);
    if r < CLASSES { SizeBound(r); }
    forall c: nat | c < CLASSES && n <= Size(c) ensures r <= c {
      if c < r { SizeMono(c, r - 1); }
    }
  }

  /** Rounding wastes at most 15 bytes for 1 to 2048 bytes; a larger block is
      smaller than twice the request. */
  lemma Waste(n: nat)
    requires 1 <= n <= 0x8000_0000
    ensures n <= SMALL_MAX ==> Size(ClassFor(n)) <= n + 15
    ensures n > SMALL_MAX ==> Size(ClassFor(n)) < 2 * n
  {
    hide LeastFrom;
    ClassHolds(n);
    LeastHolds(n, 0);
    var r := ClassFor(n);
    if n <= SMALL_MAX {
      SmallClass(n);
    } else if r > SMALL_COUNT {
      SizeNext(r - 1);
    } else {
      assert Size(SMALL_COUNT) == 2 * SMALL_MAX * Pow2(0);
      SizeMono(r, SMALL_COUNT);
    }
  }

  lemma SmallClass(n: nat)
    requires n <= SMALL_MAX
    ensures ClassFor(n) == if n == 0 then 0 else (n - 1) / ALIGN
  {
    LeastIs(n, 0, if n == 0 then 0 else (n - 1) / ALIGN);
  }

  /** class_of: the loop over the large classes. */
  method ClassOf(n: nat) returns (c: nat)
    requires n < SIZE_WRAP
    ensures c == ClassFor(n)
  {
    hide LeastFrom;
    if n <= SMALL_MAX {
      SmallClass(n);
      return if n == 0 then 0 else (n - 1) / ALIGN;
    }
    c := SMALL_COUNT;
    var size := 2 * SMALL_MAX;
    assert Size(SMALL_COUNT) == size && Size(SMALL_COUNT - 1) == SMALL_MAX;
    while size < n && c < CLASSES - 1
      invariant SMALL_COUNT <= c <= CLASSES - 1 && size == Size(c) && Size(c - 1) < n
    {
      SizeNext(c);
      size := 2 * size;
      c := c + 1;
    }
    if size < n {
      LeastIs(n, 0, CLASSES);
      return CLASSES;
    }
    LeastIs(n, 0, c);
  }
}
