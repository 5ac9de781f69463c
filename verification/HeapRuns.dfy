/** The heap and the page allocator shared by any number of threads. A thread
    that finds no block releases the heap lock, takes pages from the page
    allocator one call at a time, and only then locks the heap again; everything
    else may happen in between. Each lock-protected section is one step. */
module HeapRuns {
  import opened FreeList
  import opened HeapState
  import Pmm
  import opened Machine

  datatype Owner = FreePage | HeapPage | Held(t: nat) | Other

  /** Where a thread stands inside an allocation. */
  datatype Pc =
    | Idle
    | Want(needed: nat)                                  // first attempt failed, no page yet
    | Growing(needed: nat, base: nat, got: nat)          // asking for the next page
    | Returning(needed: nat, base: nat, got: nat, extra: nat)  // the last page was not adjacent
    | Ready(needed: nat, base: nat, got: nat)            // about to lock the heap again

  /** `owner` says who has each page; the page allocator itself sees only which are free. */
  datatype System = System(heap: Heap, owner: map<nat, Owner>, threads: map<nat, Pc>)

  datatype Event =
    | Malloc(t: nat, size: nat)
    | AskFirst(t: nat)
    | AskNext(t: nat)
    | GiveBack(t: nat)
    | Commit(t: nat)
    | FreeBlock(b: Block)
    | OtherAlloc
    | OtherFree(p: nat)

  function FreePages(s: System): set<nat> {
    set p | p in s.owner && s.owner[p] == FreePage
  }

  function PagesOf(s: System, o: Owner): set<nat> {
    set p | p in s.owner && s.owner[p] == o
  }

  /** One call of the page allocator: the lowest free page below 4 GiB, if any. */
  ghost predicate Allocates(s: System, p: nat) {
    Pmm.IsLowest(p, FreePages(s)) && p < MAX_PAGE
  }

  ghost predicate NoPage(s: System) {
    forall p | p in FreePages(s) :: p >= MAX_PAGE
  }

  function SetPc(s: System, t: nat, pc: Pc): System {
    s.(threads := s.threads[t := pc])
  }

  function SetOwner(s: System, p: nat, o: Owner): System {
    s.(owner := s.owner[p := o])
  }

  function OwnRange(owner: map<nat, Owner>, base: nat, n: nat, o: Owner): map<nat, Owner> {
    map p | p in owner :: if base <= p < base + n then o else owner[p]
  }

  /** The heap after the new region is inserted and the second attempt is made. */
  function CommitHeap(h: Heap, needed: nat, base: nat, got: nat): Heap {
    var grown := Grow(h, base, got);
    if CanTake(grown.free, needed) then HeapState.Malloc(grown, needed) else grown
  }

  ghost predicate At(s: System, t: nat) {
    t in s.threads
  }

  ghost predicate Next(s: System, e: Event, s': System) {
    match e
    case Malloc(t, size) =>
      && At(s, t) && s.threads[t].Idle? && 0 < size < WORD
      && var needed := Needed(size);
      s' == if CanTake(s.heap.free, needed) then s.(heap := HeapState.Malloc(s.heap, needed)) else SetPc(s, t, Want(needed))
    case AskFirst(t) =>
      && At(s, t) && s.threads[t].Want?
      && var needed := s.threads[t].needed;
      || (NoPage(s) && s' == SetPc(s, t, Idle))
      || exists p :: Allocates(s, p) && s' == SetPc(SetOwner(s, p, Held(t)), t, Growing(needed, p, 1))
    case AskNext(t) =>
      && At(s, t) && s.threads[t].Growing?
      && var Growing(needed, base, got) := s.threads[t];
      && got < PagesWanted(needed)
      && (|| (NoPage(s) && s' == SetPc(s, t, Ready(needed, base, got)))
          || exists p :: Allocates(s, p) && s' == SetPc(SetOwner(s, p, Held(t)), t, AfterPage(needed, base, got, p)))
    case GiveBack(t) =>
      && At(s, t) && s.threads[t].Returning?
      && var Returning(needed, base, got, extra) := s.threads[t];
      s' == SetPc(SetOwner(s, extra, FreePage), t, Ready(needed, base, got))
    case Commit(t) =>
      && At(s, t)
      && (s.threads[t].Ready? || (s.threads[t].Growing? && s.threads[t].got >= PagesWanted(s.threads[t].needed)))
      && var (needed, base, got) := (s.threads[t].needed, s.threads[t].base, s.threads[t].got);
      s' == System(CommitHeap(s.heap, needed, base, got), OwnRange(s.owner, base, got, HeapPage), s.threads[t := Idle])
    case FreeBlock(b) =>
      b in s.heap.live && s' == s.(heap := HeapState.Free(s.heap, b))
    case OtherAlloc =>
      exists p :: Allocates(s, p) && s' == SetOwner(s, p, Other)
    case OtherFree(p) =>
      p in s.owner && s.owner[p] == Other && p != 0 && s' == SetOwner(s, p, FreePage)
  }

  function AfterPage(needed: nat, base: nat, got: nat, p: nat): Pc {
    if p == base + got then Growing(needed, base, got + 1) else Returning(needed, base, got, p)
  }

  // ----- the invariant

  /** The pages a thread holds in its unlocked window. */
  ghost predicate PcOk(s: System, t: nat, pc: Pc, min: nat) {
    match pc
    case Idle => true
    case Want(needed) => needed % 16 == 0 && min <= needed && 0 < needed
    case Growing(needed, base, got) => Holds(s, t, needed, base, got, min)
    case Returning(needed, base, got, extra) =>
      Holds(s, t, needed, base, got, min) && extra != 0 && !(base <= extra < base + got)
      && extra in s.owner && s.owner[extra] == Held(t)
    case Ready(needed, base, got) => Holds(s, t, needed, base, got, min)
  }

  ghost predicate Holds(s: System, t: nat, needed: nat, base: nat, got: nat, min: nat) {
    && needed % 16 == 0 && min <= needed && 0 < needed
    && 0 < base && 0 < got && base + got <= MAX_PAGE
    && forall p | base <= p < base + got :: p in s.owner && s.owner[p] == Held(t)
  }

  ghost predicate SysInv(s: System, min: nat) {
    && Inv(s.heap, min) && min <= 32
    && s.heap.pages == PagesOf(s, HeapPage)
    && 0 !in FreePages(s)
    && forall t | t in s.threads :: PcOk(s, t, s.threads[t], min)
  }

  /** Requests whose 64-bit size computation gives at least `min` bytes. */
  predicate Fair(e: Event, min: nat) {
    e.Malloc? && 0 < e.size < WORD ==> Needed(e.size) >= min
  }

  // ----- every step keeps the invariant

  /** A thread's window survives any change that leaves its own pages alone. */
  lemma PcKept(s: System, s': System, u: nat, pc: Pc, min: nat)
    requires PcOk(s, u, pc, min)
    requires forall p | p in s.owner && s.owner[p] == Held(u) :: p in s'.owner && s'.owner[p] == Held(u)
    ensures PcOk(s', u, pc, min)
  {}

  lemma FreshPage(s: System, p: nat, min: nat)
    requires SysInv(s, min) && Allocates(s, p)
    ensures 0 < p < MAX_PAGE && p in s.owner && s.owner[p] == FreePage && p !in s.heap.pages
  {}

  /** Handing a free page to `o` disturbs neither the heap nor another thread. */
  lemma AllocStep(s: System, p: nat, o: Owner, min: nat)
    requires SysInv(s, min) && Allocates(s, p) && (o == Other || o.Held?)
    ensures SysInv(SetOwner(s, p, o), min)
    ensures p in SetOwner(s, p, o).owner && SetOwner(s, p, o).owner[p] == o && 0 < p < MAX_PAGE
    ensures forall q | q in s.owner && s.owner[q] != FreePage ::
              q in SetOwner(s, p, o).owner && SetOwner(s, p, o).owner[q] == s.owner[q]
  {
    var s' := SetOwner(s, p, o);
    FreshPage(s, p, min);
    assert PagesOf(s', HeapPage) == PagesOf(s, HeapPage);
    forall t | t in s'.threads ensures PcOk(s', t, s'.threads[t], min) {
      PcKept(s, s', t, s.threads[t], min);
    }
  }

  /** Making a page free again, when no window and not the heap has it. */
  lemma FreeStep(s: System, p: nat, min: nat)
    requires SysInv(s, min) && p != 0 && p in s.owner && s.owner[p] != HeapPage
    requires forall t | t in s.threads && s.owner[p] == Held(t) :: PcOk(SetOwner(s, p, FreePage), t, s.threads[t], min)
    ensures SysInv(SetOwner(s, p, FreePage), min)
  {
    var s' := SetOwner(s, p, FreePage);
    assert PagesOf(s', HeapPage) == PagesOf(s, HeapPage);
    forall t | t in s'.threads ensures PcOk(s', t, s'.threads[t], min) {
      if s.owner[p] != Held(t) { PcKept(s, s', t, s.threads[t], min); }
    }
  }

  lemma PcStep(s: System, t: nat, pc: Pc, min: nat)
    requires SysInv(s, min) && t in s.threads && PcOk(s, t, pc, min)
    ensures SysInv(SetPc(s, t, pc), min)
  {
    var s' := SetPc(s, t, pc);
    assert PagesOf(s', HeapPage) == PagesOf(s, HeapPage) && FreePages(s') == FreePages(s);
    forall u | u in s'.threads ensures PcOk(s', u, s'.threads[u], min) {
      PcKept(s, s', u, s'.threads[u], min);
    }
  }

  lemma HeapStep(s: System, h: Heap, min: nat)
    requires SysInv(s, min) && Inv(h, min) && h.pages == s.heap.pages
    ensures SysInv(s.(heap := h), min)
  {
    var s' := s.(heap := h);
    assert PagesOf(s', HeapPage) == PagesOf(s, HeapPage) && FreePages(s') == FreePages(s);
    forall u | u in s'.threads ensures PcOk(s', u, s'.threads[u], min) {
      PcKept(s, s', u, s.threads[u], min);
    }
  }

  /** Growth is sound because the pages a thread holds are nobody else's. */
  lemma CommitStep(s: System, t: nat, needed: nat, base: nat, got: nat, min: nat)
    requires SysInv(s, min) && t in s.threads && Holds(s, t, needed, base, got, min)
    ensures SysInv(System(CommitHeap(s.heap, needed, base, got), OwnRange(s.owner, base, got, HeapPage), s.threads[t := Idle]), min)
  {
    var h := CommitHeap(s.heap, needed, base, got);
    var s' := System(h, OwnRange(s.owner, base, got, HeapPage), s.threads[t := Idle]);
    CommitHeapInv(s.heap, needed, base, got, min);
    assert PagesOf(s', HeapPage) == PagesOf(s, HeapPage) + Pmm.Range(base, base + got);
    assert FreePages(s') == FreePages(s);
    forall u | u in s'.threads ensures PcOk(s', u, s'.threads[u], min) {
      if u != t { PcKept(s, s', u, s.threads[u], min); }
    }
  }

  lemma CommitHeapInv(h: Heap, needed: nat, base: nat, got: nat, min: nat)
    requires Inv(h, min) && min <= 32 && needed % 16 == 0 && min <= needed && 0 < needed
    requires 0 < base && 0 < got && base + got <= MAX_PAGE && forall p | base <= p < base + got :: p !in h.pages
    ensures Inv(CommitHeap(h, needed, base, got), min)
    ensures CommitHeap(h, needed, base, got).pages == h.pages + Pmm.Range(base, base + got)
  {
    GrowInv(h, base, got, min);
    var grown := Grow(h, base, got);
    if CanTake(grown.free, needed) { MallocInv(grown, needed, min); }
  }

  lemma MallocStep(s: System, t: nat, size: nat, min: nat)
    requires SysInv(s, min) && t in s.threads && 0 < size < WORD && Needed(size) >= min
    ensures var needed := Needed(size);
      if CanTake(s.heap.free, needed) then SysInv(s.(heap := HeapState.Malloc(s.heap, needed)), min)
      else SysInv(SetPc(s, t, Want(needed)), min)
  {
    var needed := Needed(size);
    NeededHoldsIff(size);
    if CanTake(s.heap.free, needed) {
      MallocInv(s.heap, needed, min);
      HeapStep(s, HeapState.Malloc(s.heap, needed), min);
    } else {
      PcStep(s, t, Want(needed), min);
    }
  }

  lemma AskStep(s: System, t: nat, p: nat, pc: Pc, min: nat)
    requires SysInv(s, min) && t in s.threads && Allocates(s, p)
    requires PcOk(SetOwner(s, p, Held(t)), t, pc, min)
    ensures SysInv(SetPc(SetOwner(s, p, Held(t)), t, pc), min)
  {
    AllocStep(s, p, Held(t), min);
    PcStep(SetOwner(s, p, Held(t)), t, pc, min);
  }

  lemma AskNextPc(s: System, t: nat, p: nat, min: nat)
    requires SysInv(s, min) && t in s.threads && s.threads[t].Growing? && Allocates(s, p)
    ensures var Growing(needed, base, got) := s.threads[t];
      PcOk(SetOwner(s, p, Held(t)), t, AfterPage(needed, base, got, p), min)
  {
    FreshPage(s, p, min);
    var Growing(needed, base, got) := s.threads[t];
    assert PcOk(s, t, s.threads[t], min);
  }

  lemma GiveBackStep(s: System, t: nat, min: nat)
    requires SysInv(s, min) && t in s.threads && s.threads[t].Returning?
    ensures var Returning(needed, base, got, extra) := s.threads[t];
      SysInv(SetPc(SetOwner(s, extra, FreePage), t, Ready(needed, base, got)), min)
  {
    var Returning(needed, base, got, extra) := s.threads[t];
    assert PcOk(s, t, s.threads[t], min);
    var calm := SetPc(s, t, Ready(needed, base, got));
    PcStep(s, t, Ready(needed, base, got), min);
    FreeStep(calm, extra, min);
    assert SetOwner(calm, extra, FreePage) == SetPc(SetOwner(s, extra, FreePage), t, Ready(needed, base, got));
  }

  /** Whatever the interleaving, one step keeps the whole invariant. */
  lemma StepInv(s: System, e: Event, s': System, min: nat)
    requires SysInv(s, min) && Next(s, e, s') && Fair(e, min)
    ensures SysInv(s', min)
  {
    match e
    case Malloc(t, size) => MallocStep(s, t, size, min);
    case AskFirst(t) =>
      assert PcOk(s, t, s.threads[t], min);
      if NoPage(s) && s' == SetPc(s, t, Idle) {
        PcStep(s, t, Idle, min);
      } else {
        var p :| Allocates(s, p) && s' == SetPc(SetOwner(s, p, Held(t)), t, Growing(s.threads[t].needed, p, 1));
        FreshPage(s, p, min);
        AskStep(s, t, p, Growing(s.threads[t].needed, p, 1), min);
      }
    case AskNext(t) =>
      var Growing(needed, base, got) := s.threads[t];
      assert PcOk(s, t, s.threads[t], min);
      if NoPage(s) && s' == SetPc(s, t, Ready(needed, base, got)) {
        PcStep(s, t, Ready(needed, base, got), min);
      } else {
        var p :| Allocates(s, p) && s' == SetPc(SetOwner(s, p, Held(t)), t, AfterPage(needed, base, got, p));
        AskNextPc(s, t, p, min);
        AskStep(s, t, p, AfterPage(needed, base, got, p), min);
      }
    case GiveBack(t) => GiveBackStep(s, t, min);
    case Commit(t) =>
      assert PcOk(s, t, s.threads[t], min);
      CommitStep(s, t, s.threads[t].needed, s.threads[t].base, s.threads[t].got, min);
    case FreeBlock(b) =>
      FreeInv(s.heap, b, min);
      HeapStep(s, HeapState.Free(s.heap, b), min);
    case OtherAlloc =>
      var p :| Allocates(s, p) && s' == SetOwner(s, p, Other);
      AllocStep(s, p, Other, min);
    case OtherFree(p) => FreeStep(s, p, min);
  }

  // ----- runs

  /** A run: consecutive states joined by events. */
  ghost predicate Run(states: seq<System>, events: seq<Event>) {
    |states| == |events| + 1 && forall i | 0 <= i < |events| :: Next(states[i], events[i], states[i + 1])
  }

  /** In every state of every run the free list is sorted and coalesced, no byte
      is in two blocks, and free and live blocks tile the heap's pages. */
  lemma {:induction false} RunInv(states: seq<System>, events: seq<Event>, min: nat, k: nat)
    requires Run(states, events) && SysInv(states[0], min) && k < |states|
    requires forall i | 0 <= i < |events| :: Fair(events[i], min)
    ensures SysInv(states[k], min)
  {
    if k > 0 {
      RunInv(states, events, min, k - 1);
      StepInv(states[k - 1], events[k - 1], states[k], min);
    }
  }

  /** All requests are fair for the 16-byte minimum; for the 32-byte minimum
      exactly those whose size does not wrap. */
  lemma FairIff(e: Event)
    ensures Fair(e, MIN_BLOCK)
    ensures e.Malloc? && 0 < e.size < WORD ==> (Fair(e, 32) <==> e.size <= WORD - 32)
  {
    if e.Malloc? && 0 < e.size < WORD { NeededHoldsIff(e.size); }
  }

  /** A thread that got every page it asked for is served by its second attempt,
      exactly when the page count it asked for did not wrap. */
  lemma SecondAttemptIff(s: System, t: nat, min: nat)
    requires SysInv(s, min) && t in s.threads && s.threads[t].Growing?
    requires s.threads[t].got >= PagesWanted(s.threads[t].needed) && s.threads[t].needed < WORD
    ensures var Growing(needed, base, got) := s.threads[t];
      CanTake(Grow(s.heap, base, got).free, needed) <==> needed + PAGE - 1 < WORD
  {
    var Growing(needed, base, got) := s.threads[t];
    assert PcOk(s, t, s.threads[t], min);
    if needed + PAGE - 1 < WORD {
      WantedCovers(needed, got);
      GrowSuffices(s.heap, base, got, needed);
    } else {
      var grown := Grow(s.heap, base, got);
      GrowInv(s.heap, base, got, min);
      TooBig(grown, needed, min);
    }
  }

  /** No block of the heap is as large as the address space below 4 GiB. */
  lemma TooBig(h: Heap, needed: nat, min: nat)
    requires Inv(h, min) && needed > MAX_PAGE * PAGE
    ensures !CanTake(h.free, needed)
  {
    forall i | 0 <= i < |h.free| ensures h.free[i].size <= MAX_PAGE * PAGE {
      var b := h.free[i];
      assert Good(b, min);
      var x := b.End() - 1;
      assert b.Has(x) && Covers(h.free, x);
      assert InPages(h.pages, x);
    }
  }

  /** Every step keeps a bounded heap bounded, so no free is dropped in its runs. */
  lemma StepBounded(s: System, e: Event, s': System, min: nat)
    requires SysInv(s, min) && Bounded(s.heap) && Next(s, e, s')
    ensures Bounded(s'.heap)
    ensures e.FreeBlock? ==> s'.heap == Release(s.heap, e.b)
  {
    match e
    case Commit(t) =>
      assert PcOk(s, t, s.threads[t], min);
      GrowBounded(s.heap, s.threads[t].base, s.threads[t].got);
    case FreeBlock(b) => BoundedFrees(s.heap, b, min);
    case _ =>
  }

  // ----- from the boot of the kernel

  /** The system after boot: the heap has `n` pages from `base`, the page allocator the
      pages `free`, and every thread is outside the allocator. */
  ghost function Booted(base: nat, n: nat, free: set<nat>, threads: set<nat>): System {
    System(InitialHeap(base, n),
           map p | p in free + Pmm.Range(base, base + n) :: if p in free then FreePage else HeapPage,
           map t | t in threads :: Idle)
  }

  lemma BootedInv(base: nat, n: nat, free: set<nat>, threads: set<nat>, min: nat)
    requires 0 < base && 0 < n && base + n <= MAX_PAGE && min <= 32
    requires 0 !in free && free !! Pmm.Range(base, base + n)
    ensures SysInv(Booted(base, n, free, threads), min)
  {
    InitialInv(base, n, min);
    var s := Booted(base, n, free, threads);
    assert PagesOf(s, HeapPage) == Pmm.Range(base, base + n);
  }

  /** The highest end of a region committed in the first `k` steps; 0 if there is none. */
  ghost function HighestCommit(states: seq<System>, events: seq<Event>, k: nat): nat
    requires Run(states, events) && k < |states|
  {
    if k == 0 then 0 else
    var before := HighestCommit(states, events, k - 1);
    var end := CommitEnd(states[k - 1], events[k - 1]);
    if end > before then end else before
  }

  /** The end of the region that a step adds to the heap. */
  ghost function CommitEnd(s: System, e: Event): nat {
    if e.Commit? && e.t in s.threads && (s.threads[e.t].Ready? || s.threads[e.t].Growing?)
    then Region(s.threads[e.t].base, s.threads[e.t].got).End() else 0
  }

  lemma StepBounds(s: System, e: Event, s': System)
    requires Next(s, e, s') && s.heap.start == 0
    ensures s'.heap.start == 0
    ensures s'.heap.end == if CommitEnd(s, e) > s.heap.end then CommitEnd(s, e) else s.heap.end
  {}

  /** After a boot with fewer than 64 adjacent pages the lower bound stays 0 for ever and
      the upper one is the end of the highest region added by growth. */
  lemma {:induction false} ShortBootBounds(states: seq<System>, events: seq<Event>, k: nat)
    requires Run(states, events) && k < |states| && states[0].heap.start == 0 && states[0].heap.end == 0
    ensures states[k].heap.start == 0 && states[k].heap.end == HighestCommit(states, events, k)
  {
    if k > 0 {
      ShortBootBounds(states, events, k - 1);
      StepBounds(states[k - 1], events[k - 1], states[k]);
    }
  }

  /** So in every run from such a boot a free takes effect exactly if the block ends
      below the highest region added so far; otherwise nothing happens. */
  lemma ShortBootFreeIff(base: nat, n: nat, free: set<nat>, threads: set<nat>, states: seq<System>, events: seq<Event>, k: nat)
    requires 0 < n < HEAP_PAGES && Run(states, events) && states[0] == Booted(base, n, free, threads)
    requires k < |events| && events[k].FreeBlock?
    ensures var s, b := states[k], events[k].b;
      if b.End() <= HighestCommit(states, events, k) then states[k + 1].heap == Release(s.heap, b) && b !in states[k + 1].heap.live
      else states[k + 1] == s && b in s.heap.live
  {
    ShortBootBounds(states, events, k);
    FreeEvent(states[k], events[k].b, states[k + 1]);
  }

  lemma FreeEvent(s: System, b: Block, s': System)
    requires Next(s, FreeBlock(b), s') && s.heap.start == 0
    ensures if b.End() <= s.heap.end then s'.heap == Release(s.heap, b) && b !in s'.heap.live
            else s' == s && b in s.heap.live
  {
    FreeEffectIff(s.heap, b);
  }

  /** After a boot with all 64 pages every free of every run takes effect. */
  lemma {:induction false} FullBootBounded(states: seq<System>, events: seq<Event>, min: nat, k: nat)
    requires Run(states, events) && SysInv(states[0], min) && Bounded(states[0].heap) && k < |states|
    requires forall i | 0 <= i < |events| :: Fair(events[i], min)
    ensures Bounded(states[k].heap)
    ensures k > 0 && events[k - 1].FreeBlock? ==> states[k].heap == Release(states[k - 1].heap, events[k - 1].b)
  {
    if k > 0 {
      FullBootBounded(states, events, min, k - 1);
      RunInv(states, events, min, k - 1);
      StepBounded(states[k - 1], events[k - 1], states[k], min);
    }
  }
}
