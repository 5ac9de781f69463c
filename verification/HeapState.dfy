/** The heap as a value: free list, live blocks, the pages they tile and the
    address bounds that free checks. Its invariant and its atomic operations. */
module HeapState {
  import opened FreeList
  import Pmm
  import opened Machine

  const MAX_PAGE: nat := Pmm.MAX_PAGE

  datatype Heap = Heap(free: seq<Block>, live: set<Block>, pages: set<nat>, start: nat, end: nat)

  predicate InPages(pages: set<nat>, x: nat) {
    x / PAGE in pages
  }

  ghost predicate LiveHas(live: set<Block>, x: nat) {
    exists b :: b in live && b.Has(x)
  }

  /** No byte lies in two blocks. */
  ghost predicate NoOverlap(h: Heap) {
    && (forall b, x: nat | b in h.live && b.Has(x) :: !Covers(h.free, x))
    && (forall b, b', x: nat | b in h.live && b' in h.live && b.Has(x) && b'.Has(x) :: b == b')
  }

  /** Free and live blocks together cover exactly the heap's pages. */
  ghost predicate Tiles(h: Heap) {
    forall x: nat :: InPages(h.pages, x) <==> Covers(h.free, x) || LiveHas(h.live, x)
  }

  ghost predicate Inv(h: Heap, min: nat) {
    && Sorted(h.free) && AllGood(h.free, min)
    && (forall b | b in h.live :: Good(b, min))
    && NoOverlap(h) && Tiles(h)
    && (forall p | p in h.pages :: 0 < p < MAX_PAGE)
  }

  /** Every block lies inside the bounds that free checks. */
  ghost predicate Bounded(h: Heap) {
    forall p | p in h.pages :: h.start <= p * PAGE && (p + 1) * PAGE <= h.end
  }

  // ----- the request size

  /** Rounded to 16 bytes with the header added, in 64-bit arithmetic. */
  function Needed(size: nat): nat
    requires size < WORD
  {
    var rounded := (size + 15) % WORD / 16 * 16;
    var n := (rounded + HEADER) % WORD;
    if n < MIN_BLOCK then MIN_BLOCK else n
  }

  /** The block holds the request exactly when the 64-bit sum does not wrap. */
  lemma NeededHoldsIff(size: nat)
    requires 0 < size < WORD
    ensures Needed(size) % 16 == 0 && Needed(size) >= MIN_BLOCK
    ensures Needed(size) >= size + HEADER <==> size <= WORD - 32
    ensures size <= WORD - 32 ==> 32 <= Needed(size) < size + 32
    ensures size > WORD - 32 ==> Needed(size) == MIN_BLOCK
  {}

  /** How many pages a failed allocation asks for, in 64-bit arithmetic. */
  function PagesWanted(needed: nat): nat {
    var n := (needed + PAGE - 1) % WORD / PAGE;
    if n < 4 then 4 else n
  }

  /** A growth that gets all its pages covers the request unless the count wraps. */
  lemma WantedCovers(needed: nat, got: nat)
    requires needed + PAGE - 1 < WORD && got >= PagesWanted(needed)
    ensures needed <= got * PAGE
  {
    WantedLeast(needed, got);
  }

  /** It is the least number from four on that does. */
  lemma WantedLeast(needed: nat, n: nat)
    requires needed + PAGE - 1 < WORD
    ensures n >= PagesWanted(needed) <==> n >= 4 && needed <= n * 4096
  {
    var k := (needed + PAGE - 1) / PAGE;
    assert n >= k <==> needed <= n * 4096;
  }

  // ----- allocation

  function Malloc(h: Heap, needed: nat): Heap
    requires CanTake(h.free, needed)
  {
    h.(free := AfterTake(h.free, needed), live := h.live + {Taken(h.free, needed)})
  }

  lemma MallocInv(h: Heap, needed: nat, min: nat)
    requires Inv(h, min) && CanTake(h.free, needed) && needed % 16 == 0 && min <= needed && 0 < needed && min <= 32
    ensures Inv(Malloc(h, needed), min)
    ensures var b := Taken(h.free, needed);
      Good(b, min) && needed <= b.size < needed + 32 && b !in h.live && forall x: nat | b.Has(x) :: !LiveHas(h.live, x)
  {
    var b, h' := Taken(h.free, needed), Malloc(h, needed);
    TakeSorted(h.free, needed, min);
    forall x: nat
      ensures Covers(h'.free, x) <==> Covers(h.free, x) && !b.Has(x)
      ensures b.Has(x) ==> Covers(h.free, x)
      ensures LiveHas(h'.live, x) <==> LiveHas(h.live, x) || b.Has(x)
    {
      TakeCovers(h.free, needed, x);
      LiveAdd(h.live, b, x);
    }
    assert b.Has(b.addr);
  }

  lemma LiveAdd(live: set<Block>, b: Block, x: nat)
    ensures LiveHas(live + {b}, x) <==> LiveHas(live, x) || b.Has(x)
  {
    if LiveHas(live, x) {
      var c :| c in live && c.Has(x);
      assert c in live + {b};
    }
  }

  // ----- free

  function Release(h: Heap, b: Block): Heap {
    h.(free := Insert(h.free, b), live := h.live - {b})
  }

  /** Free, with its bounds check: a block outside the bounds is left alone. */
  function Free(h: Heap, b: Block): Heap {
    if b.addr < h.start || b.End() > h.end then h else Release(h, b)
  }

  /** A free takes effect exactly for blocks inside the bounds. */
  lemma FreeEffectIff(h: Heap, b: Block)
    requires b in h.live
    ensures Free(h, b) == Release(h, b) <==> h.start <= b.addr && b.End() <= h.end
  {
    assert b !in Release(h, b).live;
  }

  lemma ReleaseInv(h: Heap, b: Block, min: nat)
    requires Inv(h, min) && b in h.live
    ensures Inv(Release(h, b), min)
  {
    var h' := Release(h, b);
    ApartByBytes(h.free, b);
    InsertSorted(h.free, b, min);
    forall x: nat
      ensures Covers(h'.free, x) <==> Covers(h.free, x) || b.Has(x)
      ensures LiveHas(h.live, x) <==> LiveHas(h'.live, x) || b.Has(x)
    {
      InsertCovers(h.free, b, x);
      LiveAdd(h'.live, b, x);
      assert h'.live + {b} == h.live;
    }
  }

  lemma FreeInv(h: Heap, b: Block, min: nat)
    requires Inv(h, min) && b in h.live
    ensures Inv(Free(h, b), min)
  {
    ReleaseInv(h, b, min);
  }

  /** A bounded heap never drops a free: the block goes back to the list. */
  lemma BoundedFrees(h: Heap, b: Block, min: nat)
    requires Inv(h, min) && Bounded(h) && b in h.live
    ensures Free(h, b) == Release(h, b)
  {
    BlockInPages(h, b, b.addr);
    BlockInPages(h, b, b.End() - 1);
  }

  lemma BlockInPages(h: Heap, b: Block, x: nat)
    requires Tiles(h) && b in h.live && b.Has(x)
    ensures x / PAGE in h.pages
  {
    assert LiveHas(h.live, x);
    assert InPages(h.pages, x);
  }

  // ----- growth

  /** The block made of `n` pages from page `base`. */
  function Region(base: nat, n: nat): Block {
    Block(base * PAGE, n * PAGE)
  }

  function Grow(h: Heap, base: nat, n: nat): Heap {
    var r := Region(base, n);
    h.(free := Insert(h.free, r), pages := h.pages + Pmm.Range(base, base + n),
       start := if r.addr < h.start then r.addr else h.start,
       end := if r.End() > h.end then r.End() else h.end)
  }

  lemma RegionBytes(base: nat, n: nat, x: nat)
    ensures Region(base, n).Has(x) <==> InPages(Pmm.Range(base, base + n), x)
  {
    assert x == x / PAGE * PAGE + x % PAGE;
  }

  lemma RegionGood(base: nat, n: nat)
    requires 0 < base && 0 < n
    ensures Good(Region(base, n), 32)
  {
    PageAligned(base);
    PageAligned(n);
  }

  lemma PageAligned(n: nat)
    ensures n * PAGE % 16 == 0 && (n > 0 ==> n * PAGE >= PAGE)
  {
    assert n * PAGE == 16 * (n * 256);
  }

  lemma GrowInv(h: Heap, base: nat, n: nat, min: nat)
    requires Inv(h, min) && min <= 32 && 0 < base && 0 < n && base + n <= MAX_PAGE
    requires forall p | base <= p < base + n :: p !in h.pages
    ensures Inv(Grow(h, base, n), min)
  {
    var r, h' := Region(base, n), Grow(h, base, n);
    RegionGood(base, n);
    forall x: nat ensures r.Has(x) ==> !Covers(h.free, x) && !LiveHas(h.live, x) {
      RegionBytes(base, n, x);
    }
    ApartByBytes(h.free, r);
    InsertSorted(h.free, r, min);
    forall x: nat
      ensures Covers(h'.free, x) <==> Covers(h.free, x) || r.Has(x)
      ensures InPages(h'.pages, x) <==> InPages(h.pages, x) || r.Has(x)
    {
      InsertCovers(h.free, r, x);
      RegionBytes(base, n, x);
    }
  }

  /** Growth keeps a bounded heap bounded. */
  lemma GrowBounded(h: Heap, base: nat, n: nat)
    requires Bounded(h) && n > 0
    ensures Bounded(Grow(h, base, n))
  {
    var h' := Grow(h, base, n);
    forall p | p in h'.pages ensures h'.start <= p * PAGE && (p + 1) * PAGE <= h'.end {
      if p !in h.pages { assert base <= p < base + n; }
    }
  }

  /** After growth by a region of at least `needed` bytes an allocation succeeds. */
  lemma GrowSuffices(h: Heap, base: nat, n: nat, needed: nat)
    requires needed <= n * PAGE
    ensures CanTake(Grow(h, base, n).free, needed)
  {
    var fl, r := h.free, Region(base, n);
    var k := Position(fl, r, 0);
    var lo := if MergesPrev(fl, r, k) then k - 1 else k;
    InsertAtElement(fl, r, k, lo);
    var res := Insert(fl, r);
    assert res[lo].size >= r.size by {
      if MergesPrev(fl, r, k) { assert res[lo].size >= r.size; }
    }
    assert FirstFit(res, needed, 0) <= lo;
  }

  // ----- initialisation

  const HEAP_PAGES: nat := 64

  /** The heap that initialisation builds from `n` pages at page `base`. */
  ghost function InitialHeap(base: nat, n: nat): Heap {
    Heap([Region(base, n)], {}, Pmm.Range(base, base + n),
         if n == HEAP_PAGES then base * PAGE else 0, if n == HEAP_PAGES then (base + n) * PAGE else 0)
  }

  lemma InitialInv(base: nat, n: nat, min: nat)
    requires 0 < base && 0 < n && base + n <= MAX_PAGE && min <= 32
    ensures Inv(InitialHeap(base, n), min)
  {
    var h := InitialHeap(base, n);
    RegionGood(base, n);
    forall x: nat ensures InPages(h.pages, x) <==> Covers(h.free, x) || LiveHas(h.live, x) {
      RegionBytes(base, n, x);
      assert Covers(h.free, x) <==> h.free[0].Has(x);
    }
  }

  /** Just after initialisation the bounds cover the heap exactly when all pages were adjacent. */
  lemma InitialBoundedIff(base: nat, n: nat)
    requires 0 < base && 0 < n <= HEAP_PAGES
    ensures Bounded(InitialHeap(base, n)) <==> n == HEAP_PAGES
  {
    assert base in InitialHeap(base, n).pages;
  }

  /** Otherwise, until the heap grows, no block of it can be freed. */
  lemma ShortInitDropsFree(base: nat, n: nat, needed: nat)
    requires 0 < base && 0 < n < HEAP_PAGES && 0 < needed && CanTake(InitialHeap(base, n).free, needed)
    ensures var h := Malloc(InitialHeap(base, n), needed); var b := Taken(InitialHeap(base, n).free, needed);
      b in h.live && Free(h, b) == h
  {
    var fl := InitialHeap(base, n).free;
    assert Taken(fl, needed).End() > 0;
  }

  /** A growth after a short boot makes every free effective exactly if it reaches above
      the first pages. */
  lemma ShortGrowBoundedIff(base: nat, n: nat, at: nat, m: nat)
    requires 0 < base && 0 < n < HEAP_PAGES && m > 0
    ensures Bounded(Grow(InitialHeap(base, n), at, m)) <==> base + n <= at + m
  {
    var h := Grow(InitialHeap(base, n), at, m);
    assert base + n - 1 in h.pages;
    assert forall p | p in h.pages :: base <= p < base + n || at <= p < at + m;
  }
}
