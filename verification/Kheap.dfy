/** The kernel heap: a class whose fields are the list head, the bounds and the
    words of memory, kept in step with a `HeapState.Heap`. */
module Kheap {
  import Bits
  import opened FreeList
  import opened HeapState
  import opened HeapMemory
  import Pmm
  import opened Machine


  /** The concrete fields represent heap `h`. */
  ghost predicate Represents(mem: Memory, head: nat, start: nat, end: nat, h: Heap) {
    && ListAt(mem, head, h.free) && HeadersAt(mem, h.live)
    && start == h.start && end == h.end
  }

  // ----- facts the methods use

  lemma FreeBlockFacts(h: Heap, min: nat, k: nat)
    requires Inv(h, min) && MIN_BLOCK <= min && k < |h.free|
    ensures Good(h.free[k], MIN_BLOCK) && h.free[k].End() <= MAX_PAGE * PAGE
  {
    var b := h.free[k];
    assert Good(b, min);
    var x := b.End() - 1;
    assert b.Has(x) && Covers(h.free, x);
    assert InPages(h.pages, x);
  }

  lemma LiveBlockFacts(h: Heap, min: nat, b: Block)
    requires Inv(h, min) && MIN_BLOCK <= min && b in h.live
    ensures Good(b, MIN_BLOCK) && b.End() <= MAX_PAGE * PAGE
  {
    var x := b.End() - 1;
    assert b.Has(x);
    BlockInPages(h, b, x);
  }

  lemma HeapListOk(h: Heap, min: nat)
    requires Inv(h, min) && MIN_BLOCK <= min
    ensures ListOk(h.free)
  {
    forall i | 0 <= i < |h.free| ensures Good(h.free[i], MIN_BLOCK) { FreeBlockFacts(h, min, i); }
  }

  lemma HeadZero(fl: seq<Block>, i: nat)
    requires ListOk(fl) && i <= |fl|
    ensures Head(fl, i) == 0 <==> i == |fl|
  {
    if i < |fl| { assert Good(fl[i], MIN_BLOCK); }
  }

  /** A live block starts at no free block, nor inside one. */
  lemma LiveNotFree(h: Heap, min: nat, b: Block, k: nat, x: nat)
    requires Inv(h, min) && MIN_BLOCK <= min && b in h.live && k < |h.free| && h.free[k].Has(x)
    ensures b.addr != x && Aligned(b.addr)
  {
    assert Covers(h.free, x);
    assert Good(b, min);
    if b.addr == x { assert b.Has(x); }
  }

  /** Allocation from block `k` in memory is allocation from the heap value. */
  lemma TakeRepresents(mem: Memory, head: nat, h: Heap, needed: nat, min: nat)
    requires Inv(h, min) && MIN_BLOCK <= min <= 32 && Represents(mem, head, h.start, h.end, h)
    requires CanTake(h.free, needed) && needed % 16 == 0 && min <= needed
    ensures var k := FirstFit(h.free, needed, 0);
      && TakeOk(h.free, k, needed)
      && Represents(TakeMemory(mem, h.free, k, needed), LinkHead(head, k, NextAfterTake(h.free, k, needed)),
                    h.start, h.end, Malloc(h, needed))
  {
    var k := FirstFit(h.free, needed, 0);
    var b := h.free[k];
    HeapListOk(h, min);
    FreeBlockFacts(h, min, k);
    TakeList(mem, head, h.free, k, needed);
    TakeHeaders(mem, h.free, k, needed);
    var mem' := TakeMemory(mem, h.free, k, needed);
    forall c | c in h.live ensures HeaderAt(mem', c) { TakeLeavesHeader(mem, h, k, needed, min, c); }
  }

  lemma TakeLeavesHeader(mem: Memory, h: Heap, k: nat, needed: nat, min: nat, c: Block)
    requires Inv(h, min) && MIN_BLOCK <= min && TakeOk(h.free, k, needed)
    requires c in h.live && HeaderAt(mem, c)
    ensures HeaderAt(TakeMemory(mem, h.free, k, needed), c)
  {
    var b := h.free[k];
    assert Good(b, MIN_BLOCK);
    LiveNotFree(h, min, c, k, b.addr);
    if Splits(b, needed) { LiveNotFree(h, min, c, k, b.addr + needed); }
    if k > 0 {
      assert Good(h.free[k - 1], MIN_BLOCK);
      LiveNotFree(h, min, c, k - 1, h.free[k - 1].addr);
    }
    TakeElsewhere(mem, h.free, k, needed, c.addr);
  }

  /** Inserting block `b` in memory is inserting it in the heap value. */
  lemma InsertRepresents(mem: Memory, head: nat, fl: seq<Block>, live: set<Block>, b: Block)
    requires ListAt(mem, head, fl) && HeadersAt(mem, live) && ListOk(fl) && Good(b, MIN_BLOCK) && Apart(fl, b)
    requires forall c | c in live :: Aligned(c.addr) && c.addr != b.addr && forall i | 0 <= i < |fl| :: fl[i].addr != c.addr
    ensures var k := Position(fl, b, 0);
      && InsertOk(fl, b, k)
      && ListAt(InsertMemory(mem, fl, b, k), LinkHead(head, k, b.addr), Insert(fl, b))
      && HeadersAt(InsertMemory(mem, fl, b, k), live)
  {
    var k := Position(fl, b, 0);
    PositionBetween(fl, b, MIN_BLOCK);
    InsertList(mem, head, fl, b, k);
    InsertKeepsHeaders(mem, fl, live, b, k);
  }

  lemma InsertKeepsHeaders(mem: Memory, fl: seq<Block>, live: set<Block>, b: Block, k: nat)
    requires HeadersAt(mem, live) && InsertOk(fl, b, k)
    requires forall c | c in live :: Aligned(c.addr) && c.addr != b.addr && forall i | 0 <= i < |fl| :: fl[i].addr != c.addr
    ensures HeadersAt(InsertMemory(mem, fl, b, k), live)
  {
    forall c | c in live ensures HeaderAt(InsertMemory(mem, fl, b, k), c) {
      InsertElsewhere(mem, fl, b, k, c.addr);
    }
  }

  /** Live blocks other than `b` start elsewhere than `b` and than every free block. */
  lemma LiveStarts(h: Heap, min: nat, b: Block)
    requires Inv(h, min) && MIN_BLOCK <= min && Good(b, MIN_BLOCK)
    requires forall x: nat | b.Has(x) :: !LiveHas(h.live - {b}, x)
    ensures forall c | c in h.live - {b} ::
              Aligned(c.addr) && c.addr != b.addr && forall i | 0 <= i < |h.free| :: h.free[i].addr != c.addr
  {
    forall c | c in h.live - {b}
      ensures Aligned(c.addr) && c.addr != b.addr && forall i | 0 <= i < |h.free| :: h.free[i].addr != c.addr
    {
      assert Good(c, min);
      assert c.Has(c.addr);
      assert LiveHas(h.live - {b}, c.addr);
      assert !b.Has(c.addr);
      forall i | 0 <= i < |h.free| ensures h.free[i].addr != c.addr {
        FreeBlockFacts(h, min, i);
        LiveNotFree(h, min, c, i, h.free[i].addr);
      }
    }
  }

  /** Free of a live block, at the level of memory. */
  lemma ReleaseRepresents(mem: Memory, head: nat, h: Heap, b: Block, min: nat)
    requires Inv(h, min) && MIN_BLOCK <= min && Represents(mem, head, h.start, h.end, h) && b in h.live
    ensures var k := Position(h.free, b, 0);
      && InsertOk(h.free, b, k)
      && Represents(InsertMemory(mem, h.free, b, k), LinkHead(head, k, b.addr), h.start, h.end, Release(h, b))
  {
    HeapListOk(h, min);
    LiveBlockFacts(h, min, b);
    ApartByBytes(h.free, b);
    LiveStarts(h, min, b);
    InsertRepresents(mem, head, h.free, h.live - {b}, b);
  }

  /** Growth by fresh pages, at the level of memory. */
  lemma GrowRepresents(mem: Memory, head: nat, h: Heap, base: nat, n: nat, min: nat)
    requires Inv(h, min) && MIN_BLOCK <= min <= 32 && Represents(mem, head, h.start, h.end, h)
    requires 0 < base && 0 < n && base + n <= MAX_PAGE && forall p | base <= p < base + n :: p !in h.pages
    ensures var r := Region(base, n); var k := Position(h.free, r, 0); var h' := Grow(h, base, n);
      && InsertOk(h.free, r, k)
      && Represents(InsertMemory(mem, h.free, r, k), LinkHead(head, k, r.addr), h'.start, h'.end, h')
  {
    var r := Region(base, n);
    HeapListOk(h, min);
    RegionGood(base, n);
    forall x: nat ensures r.Has(x) ==> !Covers(h.free, x) && !LiveHas(h.live, x) { RegionBytes(base, n, x); }
    assert forall x: nat | r.Has(x) :: !LiveHas(h.live - {r}, x) by {
      forall x: nat | r.Has(x) ensures !LiveHas(h.live - {r}, x) {
        assert !LiveHas(h.live, x);
      }
    }
    ApartByBytes(h.free, r);
    assert r !in h.live by { if r in h.live { assert r.Has(r.addr); assert LiveHas(h.live, r.addr); } }
    assert h.live - {r} == h.live;
    LiveStarts(h, min, r);
    InsertRepresents(mem, head, h.free, h.live, r);
  }

  /** After a free, the freed block's canary word is a pointer, so it no longer matches. */
  lemma FreedCanary(mem: Memory, h: Heap, b: Block, min: nat)
    requires Inv(h, min) && MIN_BLOCK <= min && b in h.live && InsertOk(h.free, b, Position(h.free, b, 0))
    ensures var mem' := InsertMemory(mem, h.free, b, Position(h.free, b, 0));
      Load(mem', b.addr + 8) != Canary(Load(mem', b.addr))
  {
    var k := Position(h.free, b, 0);
    InsertHeader(mem, h.free, b, k);
    LiveBlockFacts(h, min, b);
    if k < |h.free| { FreeBlockFacts(h, min, k); }
    if k + 1 < |h.free| { FreeBlockFacts(h, min, k + 1); }
  }

  class Kheap {
    const pmm: Pmm.Allocator
    var mem: Memory
    var freeList: nat
    var heapStart: nat
    var heapEnd: nat
    ghost var h: Heap
    ghost const min: nat

    /** The heap's own part of the invariant. */
    ghost predicate HeapOk()
      reads this
    {
      MIN_BLOCK <= min <= 32 && Inv(h, min) && Represents(mem, freeList, heapStart, heapEnd, h)
    }

    /** The heap's pages are not free in the page allocator. */
    ghost predicate Valid()
      reads this, pmm, pmm.bitmap
    {
      && HeapOk() && pmm.Valid() && 0 !in pmm.Free()
      && forall p | p in h.pages :: p !in pmm.Free()
    }

    /** Before initialisation: an empty heap over a page allocator, with whatever memory holds. */
    constructor (pmm: Pmm.Allocator, mem: Memory, ghost min: nat)
      requires pmm.Valid() && 0 !in pmm.Free() && MIN_BLOCK <= min <= 32
      ensures Valid() && this.pmm == pmm && this.min == min && h == Heap([], {}, {}, 0, 0)
    {
      this.pmm := pmm;
      this.mem := mem;
      freeList, heapStart, heapEnd := 0, 0, 0;
      h := Heap([], {}, {}, 0, 0);
      this.min := min;
    }

    /** `*prev = value`, where 0 stands for the list head itself. */
    method SetPointer(prev: nat, value: nat)
      modifies this`mem, this`freeList
      ensures if prev == 0 then freeList == value && mem == old(mem)
              else freeList == old(freeList) && mem == old(mem)[prev := value]
    {
      if prev == 0 { freeList := value; } else { mem := mem[prev := value]; }
    }

    /** The list walk of an allocation: the first block of `needed` bytes, 0 if none. */
    method FindFit(needed: nat) returns (prev: nat, cur: nat, ghost i: nat)
      requires ListAt(mem, freeList, h.free) && ListOk(h.free)
      ensures i == FirstFit(h.free, needed, 0) && cur == Head(h.free, i)
      ensures cur == 0 <==> i == |h.free|
      ensures prev == if i == 0 then 0 else h.free[i - 1].addr + 8
    {
      prev, cur, i := 0, freeList, 0;
      while cur != 0
        invariant i <= |h.free| && cur == Head(h.free, i)
        invariant prev == if i == 0 then 0 else h.free[i - 1].addr + 8
        invariant FirstFit(h.free, needed, 0) == FirstFit(h.free, needed, i)
        decreases |h.free| - i
      {
        HeadZero(h.free, i);
        assert NodeAt(mem, h.free, i);
        if Load(mem, cur) >= needed { return; }
        prev := cur + 8;
        cur := Load(mem, cur + 8);
        i := i + 1;
      }
      HeadZero(h.free, i);
    }

    /** One attempt at `needed` bytes, with the split and the header stores. */
    method TryTake(needed: nat) returns (ptr: nat)
      requires HeapOk() && needed % 16 == 0 && min <= needed
      modifies this`mem, this`freeList, this`h
      ensures HeapOk()
      ensures if CanTake(old(h.free), needed)
              then h == Malloc(old(h), needed) && ptr == Taken(old(h.free), needed).addr + HEADER
              else h == old(h) && ptr == 0
    {
      HeapListOk(h, min);
      ghost var i;
      var prev, cur;
      prev, cur, i := FindFit(needed);
      if cur == 0 { return 0; }
      TakeRepresents(mem, freeList, h, needed, min);
      MallocInv(h, needed, min);
      assert NodeAt(mem, h.free, i);
      TakeBlock(prev, cur, needed, i);
      h := Malloc(h, needed);
      ptr := cur + HEADER;
    }

    /** The stores of an allocation from block `i`, at address `cur`. */
    method TakeBlock(prev: nat, cur: nat, needed: nat, ghost i: nat)
      requires TakeOk(h.free, i, needed) && NodeAt(mem, h.free, i)
      requires cur == h.free[i].addr && prev == if i == 0 then 0 else h.free[i - 1].addr + 8
      modifies this`mem, this`freeList
      ensures mem == TakeMemory(old(mem), h.free, i, needed)
      ensures freeList == LinkHead(old(freeList), i, NextAfterTake(h.free, i, needed))
    {
      TakeFacts(h.free, i, needed);
      SplitBlock(prev, cur, needed, i);
      var s := Load(mem, cur);
      mem := mem[cur := s];
      mem := mem[cur + 8 := Bits.ALL_ONES - s];
    }

    /** Unlinks the block, or cuts it and links the rest in its place. */
    method SplitBlock(prev: nat, cur: nat, needed: nat, ghost i: nat)
      requires TakeOk(h.free, i, needed) && NodeAt(mem, h.free, i)
      requires cur == h.free[i].addr && prev == if i == 0 then 0 else h.free[i - 1].addr + 8
      modifies this`mem, this`freeList
      ensures Load(mem, cur) == Piece(h.free[i], needed).size
      ensures freeList == LinkHead(old(freeList), i, NextAfterTake(h.free, i, needed))
      ensures mem[cur := Load(mem, cur)] ==
              Link(SplitMemory(old(mem), h.free, i, needed), h.free, i, NextAfterTake(h.free, i, needed))[cur := Load(mem, cur)]
    {
      TakeFacts(h.free, i, needed);
      var size, next := Load(mem, cur), Load(mem, cur + 8);
      if size >= needed + MIN_BLOCK + 16 {
        var remainder := cur + needed;
        mem := mem[remainder := size - needed];
        mem := mem[remainder + 8 := next];
        SetPointer(prev, remainder);
        mem := mem[cur := needed];
      } else {
        SetPointer(prev, next);
      }
    }

    /** The list walk of an insertion: where the block at `b.addr` belongs. */
    method FindPlace(b: Block, ghost m0: Memory) returns (prev: nat, cur: nat, ghost k: nat)
      requires ListAt(m0, freeList, h.free) && ListOk(h.free) && Good(b, MIN_BLOCK) && mem == m0[b.addr := b.size]
      ensures k == Position(h.free, b, 0) && cur == Head(h.free, k)
      ensures prev == if k == 0 then 0 else h.free[k - 1].addr + 8
    {
      prev, cur, k := 0, freeList, 0;
      while cur != 0 && cur < b.addr
        invariant k <= |h.free| && cur == Head(h.free, k)
        invariant prev == if k == 0 then 0 else h.free[k - 1].addr + 8
        invariant Position(h.free, b, 0) == Position(h.free, b, k)
        decreases |h.free| - k
      {
        BelowLoads(m0, freeList, h.free, b, k);
        prev := cur + 8;
        cur := Load(mem, cur + 8);
        k := k + 1;
      }
      HeadZero(h.free, k);
    }

    /** Swallows the next block if it is adjacent. */
    method MergeWithNext(cur: nat, b: Block, ghost k: nat)
      requires k <= |h.free| && cur == Head(h.free, k) && Load(mem, b.addr) == b.size && b.addr > 0 && b.size > 0
      requires k < |h.free| ==> Load(mem, cur) == h.free[k].size && Load(mem, cur + 8) == Head(h.free, k + 1)
      modifies this`mem
      ensures mem == JoinNext(old(mem), h.free, b, k)
    {
      if cur != 0 && b.addr + Load(mem, b.addr) == cur {
        var joined, after := Load(mem, b.addr) + Load(mem, cur), Load(mem, cur + 8);
        mem := mem[b.addr := joined];
        mem := mem[b.addr + 8 := after];
      }
    }

    /** Lets the block before swallow this one if they are adjacent. */
    method MergeWithPrev(prev: nat, b: Block, ghost k: nat)
      requires k <= |h.free| && prev == if k == 0 then 0 else h.free[k - 1].addr + 8
      requires Load(mem, b.addr) == Joined(h.free, b, k).size && Load(mem, b.addr + 8) == JoinedNext(h.free, b, k)
      requires k > 0 ==> Load(mem, h.free[k - 1].addr) == h.free[k - 1].size
      modifies this`mem
      ensures mem == JoinPrev(old(mem), h.free, b, k)
    {
      if prev != 0 {
        var p := prev - 8;
        if p + Load(mem, p) == b.addr {
          var joined, after := Load(mem, p) + Load(mem, b.addr), Load(mem, b.addr + 8);
          mem := mem[p := joined];
          mem := mem[p + 8 := after];
        }
      }
    }

    /** Sorted insertion of a block, coalescing on both sides. */
    method InsertBlock(b: Block)
      requires ListAt(mem, freeList, h.free) && InsertOk(h.free, b, Position(h.free, b, 0))
      modifies this`mem, this`freeList
      ensures var k := Position(h.free, b, 0);
        && mem == InsertMemory(old(mem), h.free, b, k)
        && freeList == LinkHead(old(freeList), k, b.addr)
    {
      ghost var m0, head0, k := mem, freeList, Position(h.free, b, 0);
      var prev, cur := Hang(b);
      Coalesce(prev, cur, b, k, m0, head0);
    }

    /** Both merges, after the block has been linked into the list of `m0`. */
    method Coalesce(prev: nat, cur: nat, b: Block, ghost k: nat, ghost m0: Memory, ghost head0: nat)
      requires ListAt(m0, head0, h.free) && InsertOk(h.free, b, k) && mem == HungMemory(m0, h.free, b, k)
      requires cur == Head(h.free, k) && prev == if k == 0 then 0 else h.free[k - 1].addr + 8
      modifies this`mem
      ensures mem == InsertMemory(m0, h.free, b, k)
    {
      HungLoads(m0, head0, h.free, b, k);
      JoinLoads(m0, head0, h.free, b, k);
      MergeWithNext(cur, b, k);
      MergeWithPrev(prev, b, k);
    }

    /** Stores the block's header and links it in, before any coalescing. */
    method Hang(b: Block) returns (prev: nat, cur: nat)
      requires ListAt(mem, freeList, h.free) && InsertOk(h.free, b, Position(h.free, b, 0))
      modifies this`mem, this`freeList
      ensures var k := Position(h.free, b, 0);
        && mem == HungMemory(old(mem), h.free, b, k) && freeList == LinkHead(old(freeList), k, b.addr)
        && cur == Head(h.free, k) && prev == if k == 0 then 0 else h.free[k - 1].addr + 8
    {
      ghost var k;
      mem := mem[b.addr := b.size];
      prev, cur, k := FindPlace(b, old(mem));
      mem := mem[b.addr + 8 := cur];
      SetPointer(prev, b.addr);
    }

    /** A client's store into the payload of its own live block. */
    method StorePayload(ghost b: Block, a: nat, value: nat)
      requires Valid() && b in h.live && b.addr + HEADER <= a && a + 8 <= b.End()
      modifies this`mem
      ensures Valid() && mem == old(mem)[a := value]
    {
      PayloadApart(mem, freeList, h, b, a, value, min);
      mem := mem[a := value];
    }

    /** Aligned allocation: over-allocates, aligns inside the block and keeps the
        raw pointer in the word before the result. It succeeds exactly if a block for
        the padded size is there or comes with the `n` pages that growth obtains at `at`.
        The padded size must not be one of the last 31 values of the 64-bit range, for
        which `Kmalloc` wraps. */
    method KmallocAligned(size: nat, align: nat) returns (ptr: nat, ghost b: Block, ghost at: nat, ghost n: nat)
      requires Valid() && size < WORD && align < WORD
      requires size + align + 8 <= WORD - 32 || size + align + 8 >= WORD
      modifies this`mem, this`freeList, this`heapStart, this`heapEnd, this`h, pmm`freeCount, pmm.bitmap
      ensures Valid()
      ensures size == 0 || align == 0 || Bits.And(align, align - 1) != 0 || size + align + 8 >= WORD ==>
                ptr == 0 && h == old(h) && mem == old(mem)
      ensures ptr == 0 ==> h.live == old(h.live)
      ensures Padded(size, align) ==> var needed := Needed(size + align + 8);
                && (CanTake(old(h).free, needed) ==> ptr != 0 && n == 0)
                && (!CanTake(old(h).free, needed) ==> (ptr != 0 <==> n > 0 && CanTake(Grow(old(h), at, n).free, needed)))
                && (ptr == 0 ==> AskedInVain(old(pmm.Free()), pmm.Free(), needed, at, n))
      ensures ptr != 0 ==> align != 0 && ptr % align == 0
      ensures ptr != 0 ==> NewBlock(old(h), h, b, size + align + 8) && AlignedIn(b, ptr, size)
      ensures ptr != 0 ==> ptr >= 8 && Load(mem, ptr - 8) == b.addr + HEADER
    {
      b, at, n := Block(0, 0), 0, 0;
      if align > 0 { Bits.IsPow2Iff(align); }
      if size == 0 || align == 0 || Bits.And(align, align - 1) != 0 { return 0, b, at, n; }
      if size > Bits.ALL_ONES - align - 8 { return 0, b, at, n; }
      ptr, b, at, n := PaddedAlloc(size, align);
    }

    /** The padded allocation and the alignment inside it. */
    method PaddedAlloc(size: nat, align: nat) returns (ptr: nat, ghost b: Block, ghost at: nat, ghost n: nat)
      requires Valid() && 0 < size && 0 < align && Bits.And(align, align - 1) == 0 && size + align + 8 <= WORD - 32
      modifies this`mem, this`freeList, this`heapStart, this`heapEnd, this`h, pmm`freeCount, pmm.bitmap
      ensures Valid()
      ensures ptr == 0 ==> h.live == old(h.live)
      ensures var needed := Needed(size + align + 8);
        && (CanTake(old(h).free, needed) ==> ptr != 0 && n == 0)
        && (!CanTake(old(h).free, needed) ==> (ptr != 0 <==> n > 0 && CanTake(Grow(old(h), at, n).free, needed)))
        && (ptr == 0 ==> AskedInVain(old(pmm.Free()), pmm.Free(), needed, at, n))
      ensures ptr != 0 ==> ptr >= 8 && ptr % align == 0 && Load(mem, ptr - 8) == b.addr + HEADER
      ensures ptr != 0 ==> NewBlock(old(h), h, b, size + align + 8) && AlignedIn(b, ptr, size)
    {
      PaddedFair(size + align + 8, min);
      var raw;
      raw, b, at, n := Kmalloc(size + align + 8);
      if raw == 0 { return 0, b, at, n; }
      HoldsRequestIff(old(h), h, b, size + align + 8);
      ptr := AlignRaw(b, raw, size, align);
    }

    /** Aligns inside the raw block and stores the back pointer. */
    method AlignRaw(ghost b: Block, raw: nat, size: nat, align: nat) returns (ptr: nat)
      requires Valid() && b in h.live && raw == b.addr + HEADER && 0 < size
      requires 0 < align && Bits.And(align, align - 1) == 0 && b.End() >= raw + size + align + 8
      modifies this`mem
      ensures Valid() && ptr >= 8 && ptr % align == 0 && AlignedIn(b, ptr, size) && Load(mem, ptr - 8) == raw
    {
      AlignedInside(b, size, align);
      ptr := Bits.AndNot(raw + 8 + align - 1, align - 1);
      StorePayload(b, ptr - 8, raw);
    }

    /** Boot-time heap: up to 64 adjacent pages as one free block. The bounds are
        recorded only when all 64 were obtained. */
    method Init() returns (ghost base: nat, ghost got: nat)
      requires Valid() && h == Heap([], {}, {}, 0, 0)
      modifies this`mem, this`freeList, this`heapStart, this`heapEnd, this`h, pmm`freeCount, pmm.bitmap
      ensures Valid() && got <= HEAP_PAGES
      ensures got == 0 ==> h == old(h) && forall p | p in old(pmm.Free()) :: p >= MAX_PAGE
      ensures got > 0 ==> h == InitialHeap(base, got) && 0 < base && base + got <= MAX_PAGE
      ensures got > 0 ==> forall p | base <= p < base + got :: p in old(pmm.Free())
      ensures 0 < got < HEAP_PAGES ==> !NextInLine(pmm.Free(), base + got)
    {
      var b, n := TakePages(HEAP_PAGES);
      base, got := b, n;
      if n == 0 { return; }
      InitialInv(b, n, min);
      var addr := b * PAGE;
      freeList := addr;
      mem := mem[addr := n * PAGE];
      mem := mem[addr + 8 := 0];
      if n == HEAP_PAGES {
        heapStart := addr;
        heapEnd := addr + n * PAGE;
      }
      h := InitialHeap(b, n);
      assert NodeAt(mem, h.free, 0);
    }

    /** Growth: the pages are taken with the heap unlocked, then inserted. */
    method GrowHeap(needed: nat) returns (ok: bool, ghost at: nat, ghost n: nat)
      requires Valid()
      modifies this`mem, this`freeList, this`heapStart, this`heapEnd, this`h, pmm`freeCount, pmm.bitmap
      ensures Valid() && ok == (n > 0) && n <= PagesWanted(needed)
      ensures !ok ==> h == old(h) && forall p | p in old(pmm.Free()) :: p >= MAX_PAGE
      ensures ok ==> h == Grow(old(h), at, n) && at + n <= MAX_PAGE && forall p | at <= p < at + n :: p in old(pmm.Free())
      ensures 0 < n < PagesWanted(needed) ==> !NextInLine(pmm.Free(), at + n)
    {
      var base, got := TakePages(PagesWanted(needed));
      at, n := base, got;
      if got == 0 { return false, at, n; }
      AddRegion(base, got);
      ok := true;
    }

    /** The locked part of a growth. */
    method AddRegion(base: nat, n: nat)
      requires HeapOk() && 0 < base && 0 < n && base + n <= MAX_PAGE && forall p | base <= p < base + n :: p !in h.pages
      modifies this`mem, this`freeList, this`heapStart, this`heapEnd, this`h
      ensures HeapOk() && h == Grow(old(h), base, n)
    {
      GrowInv(h, base, n, min);
      GrowRepresents(mem, freeList, h, base, n, min);
      var region := Block(base * PAGE, n * PAGE);
      InsertBlock(region);
      WidenBounds(region);
      h := Grow(h, base, n);
    }

    method WidenBounds(region: Block)
      modifies this`heapStart, this`heapEnd
      ensures heapEnd == if region.End() > old(heapEnd) then region.End() else old(heapEnd)
      ensures heapStart == if region.addr < old(heapStart) then region.addr else old(heapStart)
    {
      if region.End() > heapEnd { heapEnd := region.End(); }
      if region.addr < heapStart { heapStart := region.addr; }
    }

    /** Allocation: one attempt, growth by `n` pages at `at`, one more attempt. It fails
        exactly if neither the list nor the grown list has a block, that is, if no page
        was left, or too few pages lay in line, or the page count wrapped. */
    method Kmalloc(size: nat) returns (ptr: nat, ghost b: Block, ghost at: nat, ghost n: nat)
      requires Valid() && size < WORD && (size > 0 ==> Needed(size) >= min)
      modifies this`mem, this`freeList, this`heapStart, this`heapEnd, this`h, pmm`freeCount, pmm.bitmap
      ensures Valid()
      ensures size == 0 || ptr == 0 ==> ptr == 0 && h.live == old(h.live)
      ensures ptr != 0 ==> b.addr + HEADER == ptr && NewBlock(old(h), h, b, size)
      ensures size > 0 && CanTake(old(h).free, Needed(size)) ==> ptr != 0 && n == 0
      ensures size > 0 && !CanTake(old(h).free, Needed(size)) ==>
                (ptr != 0 <==> n > 0 && CanTake(Grow(old(h), at, n).free, Needed(size)))
      ensures size > 0 && ptr == 0 ==> AskedInVain(old(pmm.Free()), pmm.Free(), Needed(size), at, n)
    {
      b, at, n := Block(0, 0), 0, 0;
      if size == 0 { return 0, b, at, n; }
      ptr, b := TryMalloc(size);
      if ptr != 0 { return; }
      ptr, b, at, n := GrowAndTake(size);
    }

    /** The second attempt, after growth. */
    method GrowAndTake(size: nat) returns (ptr: nat, ghost b: Block, ghost at: nat, ghost n: nat)
      requires Valid() && 0 < size < WORD && Needed(size) >= min
      modifies this`mem, this`freeList, this`heapStart, this`heapEnd, this`h, pmm`freeCount, pmm.bitmap
      ensures Valid()
      ensures ptr == 0 ==> h.live == old(h.live)
      ensures ptr != 0 ==> b.addr + HEADER == ptr && NewBlock(old(h), h, b, size)
      ensures ptr != 0 <==> n > 0 && CanTake(Grow(old(h), at, n).free, Needed(size))
      ensures ptr == 0 ==> AskedInVain(old(pmm.Free()), pmm.Free(), Needed(size), at, n)
    {
      b := Block(0, 0);
      var ok;
      ok, at, n := GrowHeap(Needed(size));
      if !ok { return 0, b, at, n; }
      if n >= PagesWanted(Needed(size)) && Needed(size) + PAGE - 1 < WORD {
        WantedCovers(Needed(size), n);
        GrowSuffices(old(h), at, n, Needed(size));
      }
      ptr, b := TryMalloc(size);
    }

    method TryMalloc(size: nat) returns (ptr: nat, ghost b: Block)
      requires Valid() && 0 < size < WORD && Needed(size) >= min
      modifies this`mem, this`freeList, this`h
      ensures Valid()
      ensures ptr == 0 ==> h == old(h)
      ensures ptr != 0 <==> CanTake(old(h).free, Needed(size))
      ensures ptr != 0 ==> b.addr + HEADER == ptr && NewBlock(old(h), h, b, size)
    {
      MallocFacts(h, size, min);
      b := if CanTake(h.free, Needed(size)) then Taken(h.free, Needed(size)) else Block(0, 0);
      ptr := TryTake(Needed(size));
    }

    /** Free: a null pointer, a header whose canary does not match and a block
        outside the bounds are ignored; a live block goes back to the list. */
    method Kfree(ptr: nat)
      requires Valid() && (ptr != 0 ==> ptr >= HEADER)
      requires ptr != 0 && HeaderPasses(mem, ptr) ==> HeaderBlock(mem, ptr) in h.live
      modifies this`mem, this`freeList, this`h
      ensures Valid()
      ensures ptr == 0 || !old(HeaderPasses(mem, ptr)) ==> h == old(h) && mem == old(mem) && freeList == old(freeList)
      ensures ptr != 0 && old(HeaderPasses(mem, ptr)) ==> h == Free(old(h), old(HeaderBlock(mem, ptr)))
      ensures ptr != 0 && h != old(h) ==> !HeaderPasses(mem, ptr)
    {
      if ptr == 0 { return; }
      var blk := ptr - HEADER;
      var size := Load(mem, blk);
      if Load(mem, blk + 8) != Canary(size) { return; }
      if blk < heapStart || blk + size > heapEnd { return; }
      ReleaseBlock(Block(blk, size));
    }

    method ReleaseBlock(b: Block)
      requires HeapOk() && b in h.live
      modifies this`mem, this`freeList, this`h
      ensures HeapOk() && h == Release(old(h), b)
      ensures Load(mem, b.addr + 8) != Canary(Load(mem, b.addr))
    {
      ReleaseInv(h, b, min);
      ReleaseRepresents(mem, freeList, h, b, min);
      FreedCanary(mem, h, b, min);
      InsertBlock(b);
      h := Release(h, b);
    }

    /** Page-allocator calls until `want` adjacent pages are held, one is not
        adjacent (it goes back) or none is left. `base` is a page number. */
    method TakePages(want: nat) returns (base: nat, got: nat)
      requires pmm.Valid() && 0 !in pmm.Free() && want > 0
      modifies pmm`freeCount, pmm.bitmap
      ensures pmm.Valid() && got <= want
      ensures got == 0 ==> pmm.Free() == old(pmm.Free()) && forall p | p in pmm.Free() :: p >= MAX_PAGE
      ensures got > 0 ==> Held(old(pmm.Free()), pmm.Free(), base, got)
      ensures 0 < got < want ==> !NextInLine(pmm.Free(), base + got)
    {
      base, got := FirstPage();
      if got > 0 { got := MorePages(old(pmm.Free()), base, want); }
    }

    /** The pages after the first one, as far as they are adjacent. */
    method MorePages(ghost before: set<nat>, base: nat, want: nat) returns (got: nat)
      requires pmm.Valid() && want > 0 && Held(before, pmm.Free(), base, 1)
      modifies pmm`freeCount, pmm.bitmap
      ensures pmm.Valid() && 0 < got <= want && Held(before, pmm.Free(), base, got)
      ensures got < want ==> !NextInLine(pmm.Free(), base + got)
    {
      got := 1;
      var more := true;
      while got < want && more
        invariant pmm.Valid() && 0 < got <= want && Held(before, pmm.Free(), base, got)
        invariant !more ==> !NextInLine(pmm.Free(), base + got)
        decreases want - got, more
      {
        ghost var now := pmm.Free();
        more := NextPage(base, got);
        if more {
          HeldMore(before, now, base, got);
          got := got + 1;
        }
      }
    }

    method FirstPage() returns (base: nat, got: nat)
      requires pmm.Valid() && 0 !in pmm.Free()
      modifies pmm`freeCount, pmm.bitmap
      ensures pmm.Valid() && got <= 1
      ensures got == 0 ==> pmm.Free() == old(pmm.Free()) && forall p | p in pmm.Free() :: p >= MAX_PAGE
      ensures got == 1 ==> Held(old(pmm.Free()), pmm.Free(), base, 1)
    {
      var first := pmm.AllocPage();
      if first == 0 { return 0, 0; }
      HeldOne(old(pmm.Free()), pmm.Free(), first / PAGE);
      return first / PAGE, 1;
    }

    /** One more page after `base + got`; a page from elsewhere is given back. */
    method NextPage(base: nat, got: nat) returns (ok: bool)
      requires pmm.Valid() && 0 !in pmm.Free()
      modifies pmm`freeCount, pmm.bitmap
      ensures pmm.Valid()
      ensures ok ==> base + got in old(pmm.Free()) && base + got < MAX_PAGE && pmm.Free() == old(pmm.Free()) - {base + got}
      ensures !ok ==> pmm.Free() == old(pmm.Free())
      ensures ok <==> NextInLine(old(pmm.Free()), base + got)
    {
      var p := pmm.AllocPage();
      if p == 0 { return false; }
      if p != base * PAGE + got * PAGE {
        pmm.FreePage(p);
        assert pmm.Free() == old(pmm.Free());
        return false;
      }
      assert p == (base + got) * PAGE;
      return true;
    }
  }

  /** Pages `base..base + got` were free in `before` and are the ones missing from `after`. */
  ghost predicate Held(before: set<nat>, after: set<nat>, base: nat, got: nat) {
    && 0 < base && base + got <= MAX_PAGE && 0 !in after
    && (forall p | base <= p < base + got :: p in before)
    && after == before - Pmm.Range(base, base + got)
  }

  /** A request that aligned allocation does not refuse out of hand. */
  ghost predicate Padded(size: nat, align: nat) {
    size > 0 && align > 0 && Bits.PowerOfTwo(align) && size + align + 8 < WORD
  }

  /** Page `p` is what the next allocation would give. */
  ghost predicate NextInLine(free: set<nat>, p: nat) {
    Pmm.IsLowest(p, free) && p < MAX_PAGE
  }

  /** Why a growth by `n` pages at `at` can be too little: there was no page, the next
      page was not in line, or the number of pages wanted wrapped around. */
  ghost predicate AskedInVain(before: set<nat>, after: set<nat>, needed: nat, at: nat, n: nat) {
    if n == 0 then forall p | p in before :: p >= MAX_PAGE
    else (n < PagesWanted(needed) && !NextInLine(after, at + n)) || needed + PAGE - 1 >= WORD
  }

  lemma HeldOne(before: set<nat>, after: set<nat>, base: nat)
    requires 0 !in before && base in before && base < MAX_PAGE && after == before - {base}
    ensures Held(before, after, base, 1)
  {
    Pmm.OnePage(base);
  }

  lemma HeldMore(before: set<nat>, after: set<nat>, base: nat, got: nat)
    requires Held(before, after, base, got) && base + got in after && base + got < MAX_PAGE
    ensures Held(before, after - {base + got}, base, got + 1)
  {
    Pmm.RangeSnoc(base, base + got);
  }

  function HeaderBlock(mem: Memory, ptr: nat): Block
    requires ptr >= HEADER
  {
    Block(ptr - HEADER, Load(mem, ptr - HEADER))
  }

  /** The canary word is the inverted size word. */
  predicate HeaderPasses(mem: Memory, ptr: nat)
    requires ptr >= HEADER
  {
    Load(mem, ptr - HEADER + 8) == Canary(Load(mem, ptr - HEADER))
  }

  /** `b` is a new live block for a request of `size` bytes, apart from every live block. */
  ghost predicate NewBlock(h: Heap, h': Heap, b: Block, size: nat) {
    && 0 < size < WORD && Good(b, MIN_BLOCK) && Needed(size) <= b.size < Needed(size) + 32
    && b !in h.live && h'.live == h.live + {b}
    && forall x: nat | b.Has(x) :: !LiveHas(h.live, x)
  }

  /** The block holds the request exactly when the request size does not wrap. */
  lemma HoldsRequestIff(h: Heap, h': Heap, b: Block, size: nat)
    requires NewBlock(h, h', b, size)
    ensures b.addr + HEADER + size <= b.End() <==> size <= WORD - 32
    ensures (b.addr + HEADER) % 16 == 0
  {
    NeededHoldsIff(size);
  }

  lemma MallocFacts(h: Heap, size: nat, min: nat)
    requires Inv(h, min) && MIN_BLOCK <= min <= 32 && 0 < size < WORD && min <= Needed(size)
    ensures Needed(size) % 16 == 0
    ensures CanTake(h.free, Needed(size)) ==>
              NewBlock(h, Malloc(h, Needed(size)), Taken(h.free, Needed(size)), size)
  {
    NeededHoldsIff(size);
    if CanTake(h.free, Needed(size)) { MallocInv(h, Needed(size), min); }
  }

  /** The aligned address and the word before it lie inside the raw block's payload. */
  predicate AlignedIn(b: Block, ptr: nat, size: nat) {
    b.addr + HEADER + 8 <= ptr && ptr + size <= b.End()
  }

  lemma AlignedInside(b: Block, size: nat, align: nat)
    requires 0 < align && Bits.And(align, align - 1) == 0 && b.End() >= b.addr + HEADER + size + align + 8
    ensures var ptr := Bits.AndNot(b.addr + HEADER + 8 + align - 1, align - 1);
      ptr % align == 0 && AlignedIn(b, ptr, size)
  {
    var k := Bits.IsPow2(align);
    Bits.MaskRounds(b.addr + HEADER + 8 + align - 1, k);
  }

  /** In the raw block of an aligned request the aligned address and its space lie
      inside exactly when the padded size does not wrap in the inner allocation. */
  lemma AlignedInsideIff(h: Heap, h': Heap, b: Block, size: nat, align: nat)
    requires 0 < size && 0 < align < WORD && Bits.And(align, align - 1) == 0 && NewBlock(h, h', b, size + align + 8)
    ensures AlignedIn(b, Bits.AndNot(b.addr + HEADER + 8 + align - 1, align - 1), size) <==> size + align + 8 <= WORD - 32
  {
    HoldsRequestIff(h, h', b, size + align + 8);
    if size + align + 8 <= WORD - 32 {
      AlignedInside(b, size, align);
    } else {
      HalfWord(align);
      NeededHoldsIff(size + align + 8);
    }
  }

  lemma HalfWord(align: nat)
    requires 0 < align < WORD && Bits.And(align, align - 1) == 0
    ensures 2 * align <= WORD
  {
    var k := Bits.IsPow2(align);
    Bits.Pow2Word();
    if k < 64 { Bits.Pow2Grows(k, 64); } else if k > 64 { Bits.Pow2Grows(64, k); }
  }

  lemma PaddedFair(size: nat, min: nat)
    requires 0 < size <= WORD - 32 && min <= 32
    ensures Needed(size) >= min
  {
    NeededHoldsIff(size);
  }

  /** A word in the payload of a live block is no header word and no list word. */
  lemma PayloadApart(mem: Memory, head: nat, h: Heap, b: Block, a: nat, value: nat, min: nat)
    requires Inv(h, min) && MIN_BLOCK <= min && Represents(mem, head, h.start, h.end, h)
    requires b in h.live && b.addr + HEADER <= a && a + 8 <= b.End()
    ensures Represents(mem[a := value], head, h.start, h.end, h)
  {
    var mem' := mem[a := value];
    assert b.Has(a);
    forall i | 0 <= i < |h.free| ensures NodeAt(mem', h.free, i) {
      var f := h.free[i];
      assert NodeAt(mem, h.free, i) && Good(f, min);
      assert !Covers(h.free, a);
      assert !f.Has(a);
    }
    forall c | c in h.live ensures HeaderAt(mem', c) {
      assert Good(c, min);
      if c != b { assert !c.Has(a); }
    }
  }
}
