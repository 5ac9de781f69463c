/** The ELF64 loader of kernel/elf.c on top of the page tables: header checks, the
    page-by-page copy of PT_LOAD segments and the user stack. */
module Elf {
  import opened Paging
  import Pmm
  import Vmm
  import opened Machine

  const USER_TOP: nat := 0x8000_0000_0000
  const MAX_SEGMENT: nat := 0x100_0000
  const STACK_TOP: nat := 0x7FFF_FFFF_E000
  const STACK_BOTTOM: nat := 0x7FFF_FFFF_A000
  const EHDR: nat := 64
  const PHDR: nat := 56

  const ZEROS: seq<Byte> := seq(PAGE, _ => 0)

  type Frame = s: seq<Byte> | |s| == PAGE witness ZEROS

  /** The contents of the frames that hold user pages. */
  type Data = map<nat, Frame>

  function Add64(x: nat, y: nat): nat { (x + y) % WORD }

  datatype Segment = Segment(kind: nat, flags: nat, offset: nat, vaddr: nat, filesz: nat, memsz: nat) {
    predicate Load() { kind == 1 }

    predicate Writable() { flags / 2 % 2 == 1 }

    function First(): nat { vaddr - vaddr % PAGE }

    function Last(): nat { vaddr + memsz + 4095 - (vaddr + memsz + 4095) % PAGE }
  }

  predicate HeaderOk(b: seq<Byte>) {
    && |b| >= EHDR && U32(b, 0) == 0x464C_457F && b[4] == 2 && b[5] == 1
    && U16(b, 16) == 2 && U16(b, 18) == 62
  }

  function TableOffset(b: seq<Byte>): nat
    requires |b| >= EHDR
  {
    U64(b, 32)
  }

  function TableCount(b: seq<Byte>): nat
    requires |b| >= EHDR
  {
    U16(b, 56)
  }

  /** The program header table lies inside the file. */
  predicate TableInside(b: seq<Byte>)
    requires |b| >= EHDR
  {
    TableOffset(b) + TableCount(b) * PHDR <= |b|
  }

  function SegmentAt(b: seq<Byte>, i: nat): Segment
    requires |b| >= EHDR && TableInside(b) && i < TableCount(b)
  {
    EntryInside(b, i);
    var at := TableOffset(b) + i * PHDR;
    Segment(U32(b, at), U32(b, at + 4), U64(b, at + 8), U64(b, at + 16), U64(b, at + 32), U64(b, at + 40))
  }

  lemma EntryInside(b: seq<Byte>, i: nat)
    requires |b| >= EHDR && TableInside(b) && i < TableCount(b)
    ensures TableOffset(b) + i * PHDR + PHDR <= |b|
  {}

  /** The loader's own test of a segment, in 64-bit arithmetic. */
  predicate Accepted(s: Segment, size: nat) {
    Add64(s.offset, s.filesz) <= size && s.memsz <= MAX_SEGMENT && Add64(s.vaddr, s.memsz) < USER_TOP
  }

  predicate Unwrapped(s: Segment) {
    s.offset + s.filesz < WORD && s.vaddr + s.memsz < WORD
  }

  predicate InFile(s: Segment, size: nat) {
    s.offset + s.filesz <= size
  }

  /** A bounds test on a 64-bit sum means what it says exactly if the sum does not wrap. */
  lemma SumTestIff(a: nat, b: nat, bound: nat)
    requires a < WORD && b < WORD && Add64(a, b) <= bound < WORD
    ensures a + b <= bound <==> a + b < WORD
  {
    if a + b >= WORD { assert Add64(a, b) == a + b - WORD; }
  }

  /** So an accepted segment lies inside the file, and inside the user half, exactly
      if its two ends do not wrap around. */
  lemma AcceptedIff(s: Segment, size: nat)
    requires Accepted(s, size) && s.offset < WORD && s.filesz < WORD && s.vaddr < WORD && size < WORD
    ensures InFile(s, size) <==> s.offset + s.filesz < WORD
    ensures s.vaddr + s.memsz < USER_TOP <==> s.vaddr + s.memsz < WORD
  {
    SumTestIff(s.offset, s.filesz, size);
    SumTestIff(s.vaddr, s.memsz, USER_TOP - 1);
  }

  /** Without wrap-around the test is the plain one: the bytes lie in the file, at most
      16 MiB are asked for, and they end in the user half. */
  lemma AcceptedPlain(s: Segment, size: nat)
    requires Unwrapped(s)
    ensures Accepted(s, size) <==>
            s.offset + s.filesz <= size && s.memsz <= 16 * 1024 * 1024 && s.vaddr + s.memsz < 0x8000_0000_0000
  {}

  /** The same for the program header table. */
  lemma TableInsideIff(b: seq<Byte>)
    requires EHDR <= |b| < WORD && Add64(TableOffset(b), TableCount(b) * PHDR) <= |b|
    ensures TableInside(b) <==> TableUnwrapped(b)
  {
    SumTestIff(TableOffset(b), TableCount(b) * PHDR, |b|);
  }

  /** A wrapped segment passes the test for a file of any size. */
  lemma WrappedAccepted(size: nat)
    requires size < WORD - 1
    ensures var s := Segment(1, 4, WORD - 1, SIZE_512G, 1, 1); Accepted(s, size) && !InFile(s, size)
  {
    assert Add64(WORD - 1, 1) == 0;
  }

  /** The byte the segment puts at `v`: from the file, or zero. */
  function SegmentByte(s: Segment, b: seq<Byte>, v: nat): Byte
    requires InFile(s, |b|)
  {
    if s.vaddr <= v < s.vaddr + s.filesz then b[s.offset + (v - s.vaddr)] else 0
  }

  // ----- what a loaded range looks like

  /** User code finds the segment's byte at `v`, with the segment's write right. */
  predicate ByteLoaded(m: Mem, d: Data, root: nat, s: Segment, b: seq<Byte>, v: nat)
    requires InFile(s, |b|)
  {
    var x := Translate(m, root, v);
    && x.Mapped? && x.user && x.writable == s.Writable()
    && x.phys / PAGE in d && d[x.phys / PAGE][x.phys % PAGE] == SegmentByte(s, b, v)
  }

  ghost predicate RangeLoaded(m: Mem, d: Data, root: nat, s: Segment, b: seq<Byte>, lo: nat, hi: int)
    requires InFile(s, |b|)
  {
    forall v: nat | lo <= v < hi :: ByteLoaded(m, d, root, s, b, v)
  }

  /** The segment's pages are loaded up to `to`; if memory ran out, all but the last. */
  ghost predicate LoadedTo(m: Mem, d: Data, root: nat, s: Segment, b: seq<Byte>, to: nat, spent: bool)
    requires InFile(s, |b|)
  {
    || RangeLoaded(m, d, root, s, b, s.First(), to)
    || (spent && RangeLoaded(m, d, root, s, b, s.First(), to - PAGE))
  }

  /** Nothing is mapped in `lo..hi`. */
  ghost predicate Blank(m: Mem, root: nat, lo: nat, hi: nat) {
    forall v: nat | lo <= v < hi :: Translate(m, root, v).Fault?
  }

  /** The private part of every address space is as before outside `lo..hi` of `root`. */
  ghost predicate KeptOutside(m: Mem, m': Mem, roots: set<nat>, root: nat, lo: nat, hi: nat) {
    forall r, v: nat | r in roots && SIZE_512G <= v < USER_TOP && !(r == root && lo <= v < hi) ::
      Translate(m', r, v) == Translate(m, r, v)
  }

  ghost predicate Extends(d: Data, d': Data) {
    forall f | f in d :: f in d' && d'[f] == d[f]
  }

  lemma UserPrivate(v: nat)
    requires SIZE_512G <= v < USER_TOP
    ensures Private(Index4(v))
  {}

  lemma PageOf(v: nat, a: nat)
    requires v < SIZE_48 && a < SIZE_48 && a % PAGE == 0
    ensures SamePage(a, v) <==> a <= v < a + PAGE
  {
    PageIndex(v);
    PageIndex(a);
    assert v / PAGE == a / PAGE <==> a <= v < a + PAGE;
  }

  lemma PageIndex(v: nat)
    requires v < SIZE_48
    ensures v / PAGE == ((Index4(v) * ENTRIES + Index3(v)) * ENTRIES + Index2(v)) * ENTRIES + Index1(v)
  {
    var q := v / PAGE;
    assert Index2(v) == q / ENTRIES % ENTRIES;
    assert Index3(v) == q / ENTRIES / ENTRIES % ENTRIES;
    assert Index4(v) == q / ENTRIES / ENTRIES / ENTRIES;
  }

  // ----- one page

  /** A stored page leaves the private part of all address spaces alone elsewhere. */
  lemma StoredKept(m: Mem, m': Mem, roots: set<nat>, root: nat, a: nat, e: Pte)
    requires Vmm.PageStored(m, m', roots, root, a, e) && a % PAGE == 0 && a < SIZE_48
    ensures KeptOutside(m, m', roots, root, a, a + PAGE)
  {
    forall r, v: nat | r in roots && SIZE_512G <= v < USER_TOP && !(r == root && a <= v < a + PAGE)
      ensures Translate(m', r, v) == Translate(m, r, v)
    {
      UserPrivate(v);
      PageOf(v, a);
    }
  }

  // ----- addresses below 4 GiB

  /** The two ranges have an address in common. */
  predicate Meets(lo: nat, hi: nat, a: nat, b: nat) { lo < hi && a < b && lo < b && a < hi }

  function Gib(v: nat): nat { v - v % SIZE_1G }

  /** The entries above `v` in `root` gained the user right exactly if pages `lo..hi` lie
      under them. */
  predicate LowOpened(m: Mem, m': Mem, root: nat, v: nat, lo: nat, hi: nat) {
    && (SlotUser(m', root, v) <==> SlotUser(m, root, v) || Meets(lo, hi, 0, SIZE_512G))
    && (GibUser(m', root, v) <==> GibUser(m, root, v) || Meets(lo, hi, Gib(v), Gib(v) + SIZE_1G))
  }

  /** Below 4 GiB nothing moves in any address space and nothing gains a right but the user
      right under leaves that have it. */
  ghost predicate LowSame(m: Mem, m': Mem, roots: set<nat>) {
    forall r, v: nat | r in roots && v < GIB4 :: Wider(Translate(m, r, v), Translate(m', r, v), true)
  }

  /** That, with the upper entries of `root` open for pages `lo..hi` and no others. */
  ghost predicate LowKept(m: Mem, m': Mem, roots: set<nat>, root: nat, lo: nat, hi: nat) {
    LowSame(m, m', roots) && forall v: nat | v < GIB4 :: LowOpened(m, m', root, v, lo, hi)
  }

  lemma LowSameTrans(m: Mem, m1: Mem, m2: Mem, roots: set<nat>)
    requires LowSame(m, m1, roots) && LowSame(m1, m2, roots)
    ensures LowSame(m, m2, roots)
  {
    forall r, v: nat | r in roots && v < GIB4 ensures Wider(Translate(m, r, v), Translate(m2, r, v), true) {
      assert Wider(Translate(m, r, v), Translate(m1, r, v), true);
      assert Wider(Translate(m1, r, v), Translate(m2, r, v), true);
    }
  }

  lemma LowTrans(m: Mem, m1: Mem, m2: Mem, roots: set<nat>, root: nat, lo: nat, mid: nat, hi: nat)
    requires LowKept(m, m1, roots, root, lo, mid) && LowKept(m1, m2, roots, root, mid, hi) && lo <= mid <= hi
    ensures LowKept(m, m2, roots, root, lo, hi)
  {
    LowSameTrans(m, m1, m2, roots);
    forall v: nat | v < GIB4 ensures LowOpened(m, m2, root, v, lo, hi) {
      assert LowOpened(m, m1, root, v, lo, mid) && LowOpened(m1, m2, root, v, mid, hi);
    }
  }

  lemma LowRefl(m: Mem, roots: set<nat>, root: nat, lo: nat)
    ensures LowKept(m, m, roots, root, lo, lo)
  {}

  /** Which low addresses share upper entries with page `a`. */
  lemma LowWay(v: nat, a: nat)
    requires v < GIB4 && a < SIZE_48 && a % PAGE == 0
    ensures Index4(v) == Index4(a) <==> Meets(a, a + PAGE, 0, SIZE_512G)
    ensures Vmm.SameGib(a, v) <==> Meets(a, a + PAGE, Gib(v), Gib(v) + SIZE_1G)
  {
    GibIndex(v);
    GibIndex(a);
    WholeGib(a, v);
  }

  lemma GibIndex(v: nat)
    requires v < SIZE_48
    ensures Index4(v) == v / SIZE_512G && v / SIZE_1G == Index4(v) * ENTRIES + Index3(v)
  {
    var q := v / SIZE_1G;
    assert v / SIZE_512G == q / ENTRIES;
  }

  lemma WholeGib(a: nat, v: nat)
    requires a % PAGE == 0
    ensures a / SIZE_1G == v / SIZE_1G <==> Meets(a, a + PAGE, Gib(v), Gib(v) + SIZE_1G)
  {
    GibRange(a, v / SIZE_1G);
    WholePage(a, v / SIZE_1G);
  }

  lemma GibRange(a: nat, g: nat)
    ensures a / SIZE_1G == g <==> g * SIZE_1G <= a < g * SIZE_1G + SIZE_1G
  {}

  lemma WholePage(a: nat, g: nat)
    requires a % PAGE == 0
    ensures a < g * SIZE_1G <==> a + PAGE <= g * SIZE_1G
  {
    GibAligned(g);
    if a < g * SIZE_1G { WholePages(a, g * SIZE_1G); }
  }

  lemma GibAligned(g: nat)
    ensures g * SIZE_1G % PAGE == 0
  {
    assert g * SIZE_1G == g * 0x4_0000 * PAGE + 0;
    QuotRem(g * 0x4_0000, 0, PAGE);
  }

  /** A page call below 2^48, seen from below 4 GiB. */
  lemma PageLow(m: Mem, m': Mem, role: Roles, roots: set<nat>, root: nat, a: nat)
    requires VmOk(m, role, roots) && root in roots && a % PAGE == 0 && a < SIZE_48
    requires LowSame(m, m', roots) && WayOpened(m, m', root, a, true)
    ensures LowKept(m, m', roots, root, a, a + PAGE)
  {
    var hi := a + PAGE;
    forall v: nat | v < GIB4 ensures LowOpened(m, m', root, v, a, hi) {
      Vmm.LowCovered(m, role, roots, root, v);
      LowWay(v, a);
    }
  }

  lemma SameLow(m: Mem, m': Mem, roots: set<nat>)
    requires SameEverywhere(m, m', roots, true)
    ensures LowSame(m, m', roots)
  {
    forall r, v: nat | r in roots && v < GIB4 ensures Wider(Translate(m, r, v), Translate(m', r, v), true) {
      assert SameAt(m, m', r, v, true);
    }
  }

  lemma StoredLow(m: Mem, m': Mem, roots: set<nat>, root: nat, a: nat, e: Pte)
    requires Vmm.PageStored(m, m', roots, root, a, e) && e.user && a % PAGE == 0 && GIB4 <= a < SIZE_48
    ensures LowSame(m, m', roots)
  {
    forall r, v: nat | r in roots && v < GIB4 ensures Wider(Translate(m, r, v), Translate(m', r, v), true) {
      PageOf(v, a);
    }
  }

  lemma StoredLoaded(m: Mem, m': Mem, roots: set<nat>, root: nat, a: nat, p: nat, d: Data, s: Segment, b: seq<Byte>)
    requires InFile(s, |b|) && a % PAGE == 0 && a + PAGE <= SIZE_48
    requires Vmm.PageStored(m, m', roots, root, a, Vmm.LeafFor(p * PAGE, SegmentFlags(s)))
    requires p in d && forall i: nat | i < PAGE :: d[p][i] == SegmentByte(s, b, a + i)
    ensures RangeLoaded(m', d, root, s, b, a, a + PAGE)
  {
    forall v: nat | a <= v < a + PAGE ensures ByteLoaded(m', d, root, s, b, v) {
      PageOf(v, a);
      PageOffset(v, a, p);
      assert d[p][v - a] == SegmentByte(s, b, a + (v - a));
    }
  }

  lemma PageOffset(v: nat, a: nat, p: nat)
    requires a % PAGE == 0 && a <= v < a + PAGE
    ensures v % PAGE == v - a && p * PAGE / PAGE == p
    ensures (p * PAGE + v % PAGE) / PAGE == p && (p * PAGE + v % PAGE) % PAGE == v - a
  {}

  /** What a page call does to the address spaces, whether its mapping succeeds or not. */
  lemma PageEffect(m: Mem, m': Mem, role: Roles, roots: set<nat>, root: nat, a: nat, p: nat, d: Data, s: Segment, b: seq<Byte>,
                   mapped: bool)
    requires VmOk(m, role, roots) && Rights(m', roots) && root in roots && InFile(s, |b|) && a % PAGE == 0
    requires WayOpened(m, m', root, a, true)
    requires if mapped then Vmm.PageStored(m, m', roots, root, a, Vmm.LeafFor(p * PAGE, SegmentFlags(s))) && GIB4 <= a
             else SameEverywhere(m, m', roots, true)
    requires p in d && forall i: nat | i < PAGE :: d[p][i] == SegmentByte(s, b, a + i)
    ensures a + PAGE <= SIZE_48 ==> LowKept(m, m', roots, root, a, a + PAGE)
    ensures UserPages(a, a + PAGE) ==> KeptOutside(m, m', roots, root, a, a + PAGE)
    ensures UserPages(a, a + PAGE) && mapped ==> RangeLoaded(m', d, root, s, b, a, a + PAGE)
  {
    if a + PAGE <= SIZE_48 {
      if mapped {
        StoredLow(m, m', roots, root, a, Vmm.LeafFor(p * PAGE, SegmentFlags(s)));
        StoredKept(m, m', roots, root, a, Vmm.LeafFor(p * PAGE, SegmentFlags(s)));
        StoredLoaded(m, m', roots, root, a, p, d, s, b);
      } else {
        SameLow(m, m', roots);
        SameKept(m, m', roots, root, a, a + PAGE);
      }
      PageLow(m, m', role, roots, root, a);
    }
  }

  /** A walk that moves nothing keeps the private part of all address spaces. */
  lemma SameKept(m: Mem, m': Mem, roots: set<nat>, root: nat, lo: nat, hi: nat)
    requires SameEverywhere(m, m', roots, true) && Rights(m, roots) && Rights(m', roots)
    ensures KeptOutside(m, m', roots, root, lo, hi)
  {
    forall r, v: nat | r in roots && SIZE_512G <= v < USER_TOP ensures Translate(m', r, v) == Translate(m, r, v) {
      assert SameAt(m, m', r, v, true);
      UserPrivate(v);
      Vmm.SameRights(m, m', roots, r, v);
    }
  }

  lemma KeptTrans(m: Mem, m1: Mem, m2: Mem, roots: set<nat>, root: nat, lo: nat, mid: nat, hi: nat)
    requires KeptOutside(m, m1, roots, root, lo, mid) && KeptOutside(m1, m2, roots, root, mid, hi) && lo <= mid <= hi
    ensures KeptOutside(m, m2, roots, root, lo, hi)
  {
    forall r, v: nat | r in roots && SIZE_512G <= v < USER_TOP && !(r == root && lo <= v < hi)
      ensures Translate(m2, r, v) == Translate(m, r, v)
    {
      assert Translate(m1, r, v) == Translate(m, r, v);
    }
  }

  /** Loaded ranges survive what happens outside them. */
  lemma LoadedKept(m: Mem, m': Mem, roots: set<nat>, root: nat, lo: nat, hi: nat, d: Data, d': Data,
                   s: Segment, b: seq<Byte>, from: nat, to: nat)
    requires root in roots && KeptOutside(m, m', roots, root, lo, hi) && Extends(d, d')
    requires SIZE_512G <= from && to <= USER_TOP && (to <= lo || hi <= from)
    requires InFile(s, |b|) && RangeLoaded(m, d, root, s, b, from, to)
    ensures RangeLoaded(m', d', root, s, b, from, to)
  {
    forall v: nat | from <= v < to ensures ByteLoaded(m', d', root, s, b, v) {
      assert ByteLoaded(m, d, root, s, b, v);
      assert Translate(m', root, v) == Translate(m, root, v);
    }
  }

  lemma BlankKept(m: Mem, m': Mem, roots: set<nat>, root: nat, lo: nat, hi: nat, from: nat, to: nat)
    requires root in roots && KeptOutside(m, m', roots, root, lo, hi)
    requires SIZE_512G <= from && to <= USER_TOP && (to <= lo || hi <= from)
    requires Blank(m, root, from, to)
    ensures Blank(m', root, from, to)
  {
    forall v: nat | from <= v < to ensures Translate(m', root, v).Fault? {
      assert Translate(m', root, v) == Translate(m, root, v);
    }
  }

  lemma LoadedJoin(m: Mem, d: Data, root: nat, s: Segment, b: seq<Byte>, lo: nat, mid: nat, hi: nat)
    requires InFile(s, |b|) && RangeLoaded(m, d, root, s, b, lo, mid) && RangeLoaded(m, d, root, s, b, mid, hi)
    ensures RangeLoaded(m, d, root, s, b, lo, hi)
  {}

  function SegmentFlags(s: Segment): Flags { Flags(s.Writable(), true, false, 0) }

  predicate UserPages(lo: nat, hi: nat) { SIZE_512G <= lo && hi <= USER_TOP }

  class Loader {
    const vmm: Vmm.Vmm
    var data: Data

    /** Page contents live in frames that are neither free nor page tables. */
    ghost predicate Valid()
      reads this, vmm, vmm.pmm, vmm.pmm.bitmap
    {
      vmm.Valid() && forall f | f in data :: f !in vmm.pmm.Free() && f !in vmm.mem
    }

    constructor (vmm: Vmm.Vmm)
      requires vmm.Valid()
      ensures Valid() && this.vmm == vmm && data == map[]
    {
      this.vmm := vmm;
      data := map[];
    }

    /** The copy into one page: bytes outside the file part of the segment stay zero. */
    static method FillPage(s: Segment, b: seq<Byte>, addr: nat) returns (page: Frame)
      requires InFile(s, |b|)
      ensures forall i: nat | i < PAGE :: page[i] == SegmentByte(s, b, addr + i)
    {
      page := ZEROS;
      var fileEnd := s.vaddr + s.filesz;
      if addr < fileEnd && addr + PAGE > s.vaddr {
        var from := if addr > s.vaddr then addr else s.vaddr;
        var to := if addr + PAGE < fileEnd then addr + PAGE else fileEnd;
        var fileOff := s.offset + (from - s.vaddr);
        var pageOff := from - addr;
        page := page[..pageOff] + b[fileOff..fileOff + (to - from)] + page[pageOff + (to - from)..];
      }
    }

    /** Allocates, fills and maps one page. The mapping fails silently exactly when
        the frames that are left do not suffice for the missing tables, or below
        4 GiB; in the first case nothing is left afterwards. Below 4 GiB nothing moves,
        but the upper entries of the page are open to user code all the same. */
    method LoadPage(root: nat, s: Segment, b: seq<Byte>, addr: nat) returns (ok: bool)
      requires Valid() && root in vmm.roots && InFile(s, |b|) && addr % PAGE == 0
      modifies this`data, vmm`mem, vmm`role, vmm.pmm`freeCount, vmm.pmm.bitmap
      ensures Valid() && vmm.pmm.Free() <= old(vmm.pmm.Free()) && Extends(old(data), data)
      ensures ok <==> !old(vmm.Exhausted())
      ensures !ok ==> vmm.mem == old(vmm.mem) && data == old(data)
      ensures UserPages(addr, addr + PAGE) ==> KeptOutside(old(vmm.mem), vmm.mem, vmm.roots, root, addr, addr + PAGE)
      ensures ok && UserPages(addr, addr + PAGE) && Blank(old(vmm.mem), root, addr, addr + PAGE) ==>
                if Vmm.Missing(old(vmm.mem), root, addr) < old(vmm.Supply())
                then RangeLoaded(vmm.mem, data, root, s, b, addr, addr + PAGE) && WalkTo(vmm.mem, root, addr) != -1
                else SameEverywhere(old(vmm.mem), vmm.mem, vmm.roots, true) && vmm.Exhausted()
      ensures addr + PAGE <= GIB4 ==> SameEverywhere(old(vmm.mem), vmm.mem, vmm.roots, true)
      ensures ok ==> Vmm.LeafDecides(old(vmm.mem), vmm.mem, root, addr)
      ensures ok && addr + PAGE <= SIZE_48 ==> LowKept(old(vmm.mem), vmm.mem, vmm.roots, root, addr, addr + PAGE)
    {
      ghost var m := vmm.mem;
      var p := vmm.AllocFrame();
      if p == 0 { SameRefl(m, vmm.roots, root, addr); Vmm.SameRefl(m, vmm.roots, true); return false; }
      var page := FillPage(s, b, addr);
      data := data[p := page];
      PlacePage(root, s, b, addr, p);
      ok := true;
    }

    /** Maps a filled page. */
    method PlacePage(root: nat, s: Segment, ghost b: seq<Byte>, addr: nat, p: nat)
      requires Valid() && root in vmm.roots && InFile(s, |b|) && addr % PAGE == 0
      requires p in data && forall i: nat | i < PAGE :: data[p][i] == SegmentByte(s, b, addr + i)
      modifies vmm`mem, vmm`role, vmm.pmm`freeCount, vmm.pmm.bitmap
      ensures Valid() && vmm.pmm.Free() <= old(vmm.pmm.Free())
      ensures UserPages(addr, addr + PAGE) ==> KeptOutside(old(vmm.mem), vmm.mem, vmm.roots, root, addr, addr + PAGE)
      ensures UserPages(addr, addr + PAGE) && Blank(old(vmm.mem), root, addr, addr + PAGE) ==>
                if Vmm.Missing(old(vmm.mem), root, addr) <= old(vmm.Supply())
                then RangeLoaded(vmm.mem, data, root, s, b, addr, addr + PAGE) && WalkTo(vmm.mem, root, addr) != -1
                else SameEverywhere(old(vmm.mem), vmm.mem, vmm.roots, true) && vmm.Exhausted()
      ensures addr + PAGE <= GIB4 ==> SameEverywhere(old(vmm.mem), vmm.mem, vmm.roots, true)
      ensures Vmm.LeafDecides(old(vmm.mem), vmm.mem, root, addr)
      ensures addr + PAGE <= SIZE_48 ==> LowKept(old(vmm.mem), vmm.mem, vmm.roots, root, addr, addr + PAGE)
    {
      ghost var m, role0 := vmm.mem, vmm.role;
      if addr < GIB4 { Vmm.LowCovered(m, vmm.role, vmm.roots, root, addr); }
      ghost var mapped := vmm.MapPageIn(root, addr, p * PAGE, SegmentFlags(s));
      PageEffect(m, vmm.mem, role0, vmm.roots, root, addr, p, data, s, b, mapped);
    }

    /** All pages of one segment, in order. */
    method LoadSegment(root: nat, s: Segment, b: seq<Byte>) returns (ok: bool)
      requires Valid() && root in vmm.roots && InFile(s, |b|)
      modifies this`data, vmm`mem, vmm`role, vmm.pmm`freeCount, vmm.pmm.bitmap
      ensures Valid() && vmm.pmm.Free() <= old(vmm.pmm.Free()) && Extends(old(data), data)
      ensures !ok ==> vmm.Exhausted()
      ensures ok ==> SegmentState(old(vmm.mem), vmm.mem, vmm.roots, data, root, s, b, s.Last(), vmm.Exhausted())
      ensures UserPages(s.First(), s.Last()) ==> KeptOutside(old(vmm.mem), vmm.mem, vmm.roots, root, s.First(), s.Last())
    {
      ghost var addr;
      PageBounds(s);
      SegmentStart(vmm.mem, vmm.roots, data, root, s, b, vmm.Exhausted());
      ok, addr := LoadPages(vmm.mem, data, vmm.pmm.Free(), root, s, b);
      SegmentKept(old(vmm.mem), vmm.mem, vmm.roots, data, root, s, b, addr, vmm.Exhausted());
    }

    method LoadPages(ghost m: Mem, ghost d: Data, ghost free: set<nat>, root: nat, s: Segment, b: seq<Byte>)
      returns (ok: bool, ghost to: nat)
      requires InFile(s, |b|) && Underway(m, d, free, root, s, b, s.First()) && root in vmm.roots
      modifies this`data, vmm`mem, vmm`role, vmm.pmm`freeCount, vmm.pmm.bitmap
      ensures Underway(m, d, free, root, s, b, to) && to <= s.Last()
      ensures if ok then to == s.Last() else vmm.Exhausted()
    {
      var addr, end := s.First(), s.Last();
      PageBounds(s);
      ok := true;
      while addr < end && ok
        invariant s.First() <= addr <= end && addr % PAGE == 0 && (!ok ==> vmm.Exhausted())
        invariant Underway(m, d, free, root, s, b, addr)
        decreases end - addr, ok
      {
        ok, addr := Continue(m, d, free, root, s, b, addr);
      }
      to := addr;
    }

    /** The pages of a segment below `addr` are done, having started from `m`, `d` and `free`. */
    ghost predicate Underway(m: Mem, d: Data, free: set<nat>, root: nat, s: Segment, b: seq<Byte>, addr: nat)
      requires InFile(s, |b|)
      reads this, vmm, vmm.pmm, vmm.pmm.bitmap
    {
      && Valid() && vmm.pmm.Free() <= free && Extends(d, data)
      && SegmentState(m, vmm.mem, vmm.roots, data, root, s, b, addr, vmm.Exhausted())
    }

    method Continue(ghost m: Mem, ghost d: Data, ghost free: set<nat>, root: nat, s: Segment, b: seq<Byte>, addr: nat)
      returns (ok: bool, next: nat)
      requires InFile(s, |b|) && Underway(m, d, free, root, s, b, addr) && root in vmm.roots
      requires s.First() <= addr < s.Last() && addr % PAGE == 0
      modifies this`data, vmm`mem, vmm`role, vmm.pmm`freeCount, vmm.pmm.bitmap
      ensures Underway(m, d, free, root, s, b, next) && addr <= next <= s.Last() && next % PAGE == 0
      ensures if ok then addr < next else vmm.Exhausted()
    {
      PageBounds(s);
      WholePages(addr, s.Last());
      ok := NextPage(m, root, s, b, addr);
      next := if ok then addr + PAGE else addr;
    }

    method NextPage(ghost m: Mem, root: nat, s: Segment, b: seq<Byte>, addr: nat) returns (ok: bool)
      requires Valid() && root in vmm.roots && InFile(s, |b|) && addr % PAGE == 0 && s.First() <= addr && addr + PAGE <= s.Last()
      requires SegmentState(m, vmm.mem, vmm.roots, data, root, s, b, addr, vmm.Exhausted())
      modifies this`data, vmm`mem, vmm`role, vmm.pmm`freeCount, vmm.pmm.bitmap
      ensures Valid() && vmm.pmm.Free() <= old(vmm.pmm.Free()) && Extends(old(data), data)
      ensures ok <==> !old(vmm.Exhausted())
      ensures !ok ==> vmm.mem == old(vmm.mem) && data == old(data) && old(vmm.Exhausted()) && vmm.Exhausted()
      ensures SegmentState(m, vmm.mem, vmm.roots, data, root, s, b, if ok then addr + PAGE else addr, vmm.Exhausted())
      ensures ok && UserPages(s.First(), s.Last()) && Blank(m, root, s.First(), s.Last()) ==>
                if Vmm.Missing(old(vmm.mem), root, addr) < old(vmm.Supply())
                then RangeLoaded(vmm.mem, data, root, s, b, s.First(), addr + PAGE) && WalkTo(vmm.mem, root, addr) != -1
                else vmm.Exhausted()
    {
      ghost var m1, d1 := vmm.mem, data;
      ghost var mapped := Vmm.Missing(vmm.mem, root, addr) < vmm.Supply();
      ok := LoadPage(root, s, b, addr);
      if ok { NextFacts(m, m1, vmm.mem, vmm.roots, root, d1, data, s, b, addr, mapped); }
    }

    /** One entry of the program header table. */
    method LoadEntry(ghost m: Mem, root: nat, b: seq<Byte>, i: nat) returns (r: Outcome)
      requires Valid() && root in vmm.roots && |b| >= EHDR && TableInside(b) && i < TableCount(b) && Sound(b)
      requires TableState(m, vmm.mem, vmm.roots, data, root, b, i, vmm.Exhausted()) && AcceptedUpTo(b, i)
      modifies this`data, vmm`mem, vmm`role, vmm.pmm`freeCount, vmm.pmm.bitmap
      ensures Valid()
      ensures r.Rejected? <==> SegmentAt(b, i).Load() && !Accepted(SegmentAt(b, i), |b|)
      ensures r.NoMemory? ==> vmm.Exhausted()
      ensures r.Loaded? ==> TableState(m, vmm.mem, vmm.roots, data, root, b, i + 1, vmm.Exhausted()) && AcceptedUpTo(b, i + 1)
    {
      ghost var m1, d1 := vmm.mem, data;
      var s := SegmentAt(b, i);
      AcceptedNext(b, i);
      if !s.Load() { SkippedEntry(m, m1, vmm.roots, d1, root, b, i, vmm.Exhausted()); return Loaded(root); }
      if Add64(s.offset, s.filesz) > |b| || s.memsz > MAX_SEGMENT || Add64(s.vaddr, s.memsz) >= USER_TOP { return Rejected; }
      AcceptedInFile(s, |b|);
      AcceptedLast(s, |b|);
      var ok := LoadSegment(root, s, b);
      if !ok { return NoMemory; }
      TableStep(m, m1, vmm.mem, vmm.roots, root, d1, data, b, i, vmm.Exhausted());
      return Loaded(root);
    }

    /** The whole program header table. */
    method LoadSegments(root: nat, b: seq<Byte>) returns (r: Outcome)
      requires Valid() && root in vmm.roots && |b| >= EHDR && TableInside(b) && Sound(b)
      requires Separate(b) ==> Progress(vmm.mem, data, root, b, 0)
      modifies this`data, vmm`mem, vmm`role, vmm.pmm`freeCount, vmm.pmm.bitmap
      ensures Valid()
      ensures r.Rejected? ==> !AllAccepted(b)
      ensures r.NoMemory? ==> vmm.Exhausted()
      ensures r.Loaded? ==> r == Loaded(root) && AllAccepted(b)
      ensures r.Loaded? ==> TableState(old(vmm.mem), vmm.mem, vmm.roots, data, root, b, TableCount(b), vmm.Exhausted())
    {
      TableStart(vmm.mem, vmm.roots, data, root, b, vmm.Exhausted());
      r := LoadTable(vmm.mem, root, b);
    }

    method LoadTable(ghost m: Mem, root: nat, b: seq<Byte>) returns (r: Outcome)
      requires Valid() && root in vmm.roots && |b| >= EHDR && TableInside(b) && Sound(b)
      requires TableState(m, vmm.mem, vmm.roots, data, root, b, 0, vmm.Exhausted())
      modifies this`data, vmm`mem, vmm`role, vmm.pmm`freeCount, vmm.pmm.bitmap
      ensures Valid()
      ensures r.Rejected? ==> !AllAccepted(b)
      ensures r.NoMemory? ==> vmm.Exhausted()
      ensures r.Loaded? ==> r == Loaded(root) && AllAccepted(b)
      ensures r.Loaded? ==> TableState(m, vmm.mem, vmm.roots, data, root, b, TableCount(b), vmm.Exhausted())
    {
      var n := TableCount(b);
      for i := 0 to n
        invariant Valid() && AcceptedUpTo(b, i) && TableState(m, vmm.mem, vmm.roots, data, root, b, i, vmm.Exhausted())
      {
        r := LoadEntry(m, root, b, i);
        if !r.Loaded? { return; }
      }
      r := Loaded(root);
    }

    /** The four zeroed stack pages. They share one page table, so if the first could
        be mapped the others can; if it could not, the next allocation fails. */
    method LoadStack(root: nat) returns (ok: bool)
      requires Valid() && root in vmm.roots
      modifies this`data, vmm`mem, vmm`role, vmm.pmm`freeCount, vmm.pmm.bitmap
      ensures Valid() && Extends(old(data), data) && (old(vmm.Exhausted()) ==> !ok)
      ensures !ok ==> vmm.Exhausted()
      ensures ok ==> KeptOutside(old(vmm.mem), vmm.mem, vmm.roots, root, STACK_BOTTOM, STACK_TOP)
      ensures ok ==> LowKept(old(vmm.mem), vmm.mem, vmm.roots, root, STACK_BOTTOM, STACK_TOP)
      ensures ok && Blank(old(vmm.mem), root, STACK_BOTTOM, STACK_TOP) ==>
                RangeLoaded(vmm.mem, data, root, STACK, [], STACK_BOTTOM, STACK_TOP)
    {
      StackBounds();
      LowRefl(vmm.mem, vmm.roots, root, STACK_BOTTOM);
      ghost var to;
      ok, to := StackPages(vmm.mem, data, vmm.pmm.Free(), root);
    }

    /** The stack pages below `hi` are done, having started from `m`, `d` and `free`. */
    ghost predicate StackUnderway(m: Mem, d: Data, free: set<nat>, root: nat, hi: nat)
      reads this, vmm, vmm.pmm, vmm.pmm.bitmap
    {
      && Valid() && vmm.pmm.Free() <= free && Extends(d, data)
      && StackState(m, vmm.mem, vmm.roots, data, root, hi, vmm.Exhausted())
      && (hi > STACK_BOTTOM ==> exists p :: p in free && p < Pmm.MAX_PAGE)
    }

    method StackPages(ghost m: Mem, ghost d: Data, ghost free: set<nat>, root: nat) returns (ok: bool, ghost to: nat)
      requires StackUnderway(m, d, free, root, STACK_BOTTOM) && root in vmm.roots
      modifies this`data, vmm`mem, vmm`role, vmm.pmm`freeCount, vmm.pmm.bitmap
      ensures StackUnderway(m, d, free, root, to) && (if ok then to == STACK_TOP else vmm.Exhausted())
    {
      var i, virt := 0, STACK_BOTTOM;
      ok := true;
      while i < 4 && ok
        invariant i <= 4 && virt == STACK_BOTTOM + 0x1000 * i && (!ok ==> vmm.Exhausted())
        invariant StackUnderway(m, d, free, root, virt)
        decreases 4 - i, ok
      {
        ok, virt := NextStackPage(m, d, free, root, virt, i);
        if ok { i := i + 1; }
      }
      to := virt;
    }

    method NextStackPage(ghost m: Mem, ghost d: Data, ghost free: set<nat>, root: nat, virt: nat, i: nat)
      returns (ok: bool, next: nat)
      requires StackUnderway(m, d, free, root, virt) && root in vmm.roots && i < 4 && virt == STACK_BOTTOM + 0x1000 * i
      modifies this`data, vmm`mem, vmm`role, vmm.pmm`freeCount, vmm.pmm.bitmap
      ensures StackUnderway(m, d, free, root, next) && next == (if ok then virt + 0x1000 else virt)
      ensures !ok ==> vmm.Exhausted()
    {
      StackAligned(i);
      ok := StackPage(m, root, virt);
      next := if ok then virt + 0x1000 else virt;
    }

    method StackPage(ghost m: Mem, root: nat, virt: nat) returns (ok: bool)
      requires Valid() && root in vmm.roots && STACK_BOTTOM <= virt < STACK_TOP && virt % PAGE == 0
      requires StackState(m, vmm.mem, vmm.roots, data, root, virt, vmm.Exhausted())
      modifies this`data, vmm`mem, vmm`role, vmm.pmm`freeCount, vmm.pmm.bitmap
      ensures Valid() && Extends(old(data), data) && vmm.pmm.Free() <= old(vmm.pmm.Free())
      ensures ok <==> !old(vmm.Exhausted())
      ensures StackState(m, vmm.mem, vmm.roots, data, root, if ok then virt + PAGE else virt, vmm.Exhausted())
      ensures !ok ==> vmm.Exhausted()
    {
      StackBounds();
      WholePages(virt, STACK_TOP);
      Vmm.UsableLess(vmm.pmm.Free(), 0);
      StackReady(m, vmm.mem, vmm.roots, data, root, virt, vmm.Exhausted());
      ok := NextPage(m, root, STACK, [], virt);
      StackRegion(vmm.mem, root, virt);
    }

    /** elf_load from the header checks to the mapped stack. A file with page-disjoint
        segments outside slot 0 that comes back loaded is there byte for byte, stack
        included, even if memory ran short on the way. Addresses below 4 GiB reach what
        they reached before the call, and user code those of them whose leaf has the user
        right and whose upper entries had it before or lie above a segment. */
    method Load(b: seq<Byte>) returns (r: Outcome)
      requires Valid() && |b| < 0x8000_0000 && (HeaderOk(b) ==> TableUnwrapped(b)) && Sound(b)
      modifies this`data, vmm`mem, vmm`role, vmm`roots, vmm.pmm`freeCount, vmm.pmm.bitmap
      ensures Valid() && old(vmm.roots) <= vmm.roots
      ensures r.Rejected? ==> !(HeaderOk(b) && TableInside(b) && AllAccepted(b))
      ensures r.NoMemory? ==> vmm.Exhausted()
      ensures r.Loaded? ==> HeaderOk(b) && TableInside(b) && AllAccepted(b) && r.root !in old(vmm.roots) && r.root in vmm.roots
      ensures r.Loaded? && Separate(b) ==> SegmentsLoaded(vmm.mem, data, r.root, b, TableCount(b))
      ensures r.Loaded? && Separate(b) ==> RangeLoaded(vmm.mem, data, r.root, STACK, [], STACK_BOTTOM, STACK_TOP)
      ensures r.Loaded? ==> forall v: nat | v < GIB4 ::
                AsBefore(old(vmm.mem), vmm.root, vmm.mem, r.root, v) && LowRights(old(vmm.mem), vmm.root, vmm.mem, r.root, b, v)
      ensures r.Loaded? ==> LowSame(old(vmm.mem), vmm.mem, old(vmm.roots))
      ensures r.Loaded? && Separate(b) ==> forall q, v: nat | q in old(vmm.roots) && SIZE_512G <= v < USER_TOP ::
                Translate(vmm.mem, q, v) == Translate(old(vmm.mem), q, v)
    {
      if !HeaderOk(b) { return Rejected; }
      var root := vmm.CreateAddressSpace();
      if root == 0 { return NoMemory; }
      ghost var m := vmm.mem;
      TableSum(b);
      if Add64(TableOffset(b), TableCount(b) * PHDR) > |b| { return Rejected; }
      if Separate(b) { FreshBlank(vmm.mem, root, b); }
      ghost var m0 := old(vmm.mem);
      r := LoadSegments(root, b);
      if !r.Loaded? { return; }
      ghost var m1, d1 := vmm.mem, data;
      var ok := LoadStack(root);
      if !ok { return NoMemory; }
      LowAfterStack(m, m1, vmm.mem, vmm.roots, root, b);
      LowFromKernel(m0, m, vmm.mem, vmm.role, vmm.roots, vmm.root, root, b);
      LowElsewhere(m0, m, vmm.mem, old(vmm.roots), vmm.roots);
      if Separate(b) {
        StackKeeps(m1, vmm.mem, vmm.roots, root, d1, data, b);
        KeptWider(m1, vmm.mem, vmm.roots, root, STACK_BOTTOM, STACK_TOP);
        KeptAgain(m, m1, vmm.mem, vmm.roots, root);
      }
    }
  }

  datatype Outcome = Rejected | NoMemory | Loaded(root: nat)

  /** The stack as a segment without file bytes. */
  const STACK := Segment(1, 6, 0, STACK_BOTTOM, 0, 0x4000)

  lemma StackBounds()
    ensures STACK.First() == STACK_BOTTOM && STACK.Last() == STACK_TOP && STACK.Writable() && InFile(STACK, 0)
    ensures STACK_BOTTOM % PAGE == 0
  {}

  lemma StackAligned(i: nat)
    ensures (STACK_BOTTOM + 0x1000 * i) % PAGE == 0
  {}

  predicate TableUnwrapped(b: seq<Byte>)
    requires |b| >= EHDR
  {
    TableOffset(b) + TableCount(b) * PHDR < WORD
  }

  lemma TableSum(b: seq<Byte>)
    requires |b| >= EHDR && TableUnwrapped(b)
    ensures Add64(TableOffset(b), TableCount(b) * PHDR) == TableOffset(b) + TableCount(b) * PHDR
  {}

  /** No sum the loader forms for a PT_LOAD segment wraps around. */
  predicate Sound(b: seq<Byte>) {
    |b| >= EHDR && TableInside(b) ==> forall i: nat | i < TableCount(b) && SegmentAt(b, i).Load() :: Unwrapped(SegmentAt(b, i))
  }

  predicate AcceptedUpTo(b: seq<Byte>, n: nat)
    requires |b| >= EHDR && TableInside(b) && n <= TableCount(b)
  {
    forall i: nat | i < n && SegmentAt(b, i).Load() :: Accepted(SegmentAt(b, i), |b|)
  }

  lemma AcceptedNext(b: seq<Byte>, n: nat)
    requires |b| >= EHDR && TableInside(b) && n < TableCount(b) && AcceptedUpTo(b, n)
    ensures AcceptedUpTo(b, n + 1) <==> (SegmentAt(b, n).Load() ==> Accepted(SegmentAt(b, n), |b|))
  {}

  predicate AllAccepted(b: seq<Byte>)
    requires |b| >= EHDR && TableInside(b)
  {
    AcceptedUpTo(b, TableCount(b))
  }

  lemma AcceptedLast(s: Segment, size: nat)
    requires Accepted(s, size) && Unwrapped(s)
    ensures s.Last() <= USER_TOP
  {}

  lemma AcceptedInFile(s: Segment, size: nat)
    requires Accepted(s, size) && Unwrapped(s)
    ensures InFile(s, size)
  {}

  predicate Apart(lo: nat, hi: nat, lo2: nat, hi2: nat) { hi <= lo2 || hi2 <= lo }

  /** PT_LOAD segments lie in private slots and share no page with each other or the stack. */
  predicate Separate(b: seq<Byte>)
    requires |b| >= EHDR && TableInside(b)
  {
    && (forall i: nat | i < TableCount(b) && SegmentAt(b, i).Load() ::
          UserPages(SegmentAt(b, i).First(), SegmentAt(b, i).Last())
          && Apart(SegmentAt(b, i).First(), SegmentAt(b, i).Last(), STACK_BOTTOM, STACK_TOP))
    && (forall i: nat, j: nat | i < j < TableCount(b) && SegmentAt(b, i).Load() && SegmentAt(b, j).Load() ::
          Apart(SegmentAt(b, i).First(), SegmentAt(b, i).Last(), SegmentAt(b, j).First(), SegmentAt(b, j).Last()))
  }

  ghost predicate SegmentsLoaded(m: Mem, d: Data, root: nat, b: seq<Byte>, n: nat)
    requires |b| >= EHDR && TableInside(b) && n <= TableCount(b)
  {
    forall i: nat | i < n && SegmentAt(b, i).Load() ::
      InFile(SegmentAt(b, i), |b|)
      && RangeLoaded(m, d, root, SegmentAt(b, i), b, SegmentAt(b, i).First(), SegmentAt(b, i).Last())
  }

  ghost predicate SegmentsBlank(m: Mem, root: nat, b: seq<Byte>, n: nat)
    requires |b| >= EHDR && TableInside(b)
  {
    forall i: nat | n <= i < TableCount(b) && SegmentAt(b, i).Load() ::
      Blank(m, root, SegmentAt(b, i).First(), SegmentAt(b, i).Last())
  }

  /** The first `n` entries are loaded, the pages of the others and the stack are free. */
  ghost predicate Progress(m: Mem, d: Data, root: nat, b: seq<Byte>, n: nat)
    requires |b| >= EHDR && TableInside(b) && n <= TableCount(b)
  {
    SegmentsLoaded(m, d, root, b, n) && SegmentsBlank(m, root, b, n) && Blank(m, root, STACK_BOTTOM, STACK_TOP)
  }

  lemma SegmentStep(m: Mem, m': Mem, roots: set<nat>, root: nat, d: Data, d': Data, b: seq<Byte>, n: nat)
    requires |b| >= EHDR && TableInside(b) && n < TableCount(b) && Separate(b) && root in roots && Extends(d, d')
    requires SegmentAt(b, n).Load() && InFile(SegmentAt(b, n), |b|)
    requires KeptOutside(m, m', roots, root, SegmentAt(b, n).First(), SegmentAt(b, n).Last())
    requires RangeLoaded(m', d', root, SegmentAt(b, n), b, SegmentAt(b, n).First(), SegmentAt(b, n).Last())
    requires Progress(m, d, root, b, n)
    ensures Progress(m', d', root, b, n + 1)
  {
    var s := SegmentAt(b, n);
    forall i: nat | i < n && SegmentAt(b, i).Load()
      ensures RangeLoaded(m', d', root, SegmentAt(b, i), b, SegmentAt(b, i).First(), SegmentAt(b, i).Last())
    {
      var t := SegmentAt(b, i);
      assert Apart(t.First(), t.Last(), s.First(), s.Last());
      LoadedKept(m, m', roots, root, s.First(), s.Last(), d, d', t, b, t.First(), t.Last());
    }
    forall i: nat | n < i < TableCount(b) && SegmentAt(b, i).Load()
      ensures Blank(m', root, SegmentAt(b, i).First(), SegmentAt(b, i).Last())
    {
      var t := SegmentAt(b, i);
      assert Apart(s.First(), s.Last(), t.First(), t.Last());
      BlankKept(m, m', roots, root, s.First(), s.Last(), t.First(), t.Last());
    }
    BlankKept(m, m', roots, root, s.First(), s.Last(), STACK_BOTTOM, STACK_TOP);
  }

  /** Before entry `n`, having started from tables `m`. */
  ghost predicate TableState(m: Mem, m': Mem, roots: set<nat>, d: Data, root: nat, b: seq<Byte>, n: nat, spent: bool)
    requires |b| >= EHDR && TableInside(b) && n <= TableCount(b)
  {
    && LowTable(m, m', roots, root, b, n)
    && (Separate(b) ==> (spent || Progress(m', d, root, b, n)) && KeptOutside(m, m', roots, root, SIZE_512G, USER_TOP))
  }

  /** One of the first `n` entries of the table has pages in `lo..hi`. */
  predicate Touched(b: seq<Byte>, n: nat, lo: nat, hi: nat)
    requires |b| >= EHDR && TableInside(b) && n <= TableCount(b)
  {
    exists i: nat :: i < n && SegmentAt(b, i).Load() && Meets(SegmentAt(b, i).First(), SegmentAt(b, i).Last(), lo, hi)
  }

  lemma TouchedNext(b: seq<Byte>, n: nat, lo: nat, hi: nat)
    requires |b| >= EHDR && TableInside(b) && n < TableCount(b)
    ensures var s := SegmentAt(b, n);
      Touched(b, n + 1, lo, hi) <==> Touched(b, n, lo, hi) || (s.Load() && Meets(s.First(), s.Last(), lo, hi))
  {}

  predicate TableOpened(m: Mem, m': Mem, root: nat, v: nat, b: seq<Byte>, n: nat)
    requires |b| >= EHDR && TableInside(b) && n <= TableCount(b)
  {
    && (SlotUser(m', root, v) <==> SlotUser(m, root, v) || Touched(b, n, 0, SIZE_512G))
    && (GibUser(m', root, v) <==> GibUser(m, root, v) || Touched(b, n, Gib(v), Gib(v) + SIZE_1G))
  }

  /** Below 4 GiB after `n` entries. */
  ghost predicate LowTable(m: Mem, m': Mem, roots: set<nat>, root: nat, b: seq<Byte>, n: nat)
    requires |b| >= EHDR && TableInside(b) && n <= TableCount(b)
  {
    LowSame(m, m', roots) && forall v: nat | v < GIB4 :: TableOpened(m, m', root, v, b, n)
  }

  lemma TableStart(m: Mem, roots: set<nat>, d: Data, root: nat, b: seq<Byte>, spent: bool)
    requires |b| >= EHDR && TableInside(b) && (Separate(b) ==> Progress(m, d, root, b, 0))
    ensures TableState(m, m, roots, d, root, b, 0, spent)
  {
    LowStart(m, roots, root, b);
  }

  lemma LowStart(m: Mem, roots: set<nat>, root: nat, b: seq<Byte>)
    requires |b| >= EHDR && TableInside(b)
    ensures LowTable(m, m, roots, root, b, 0)
  {
    LowRefl(m, roots, root, 0);
  }

  lemma LowEntry(m: Mem, m1: Mem, m2: Mem, roots: set<nat>, root: nat, b: seq<Byte>, n: nat)
    requires |b| >= EHDR && TableInside(b) && n < TableCount(b) && LowTable(m, m1, roots, root, b, n)
    requires var s := SegmentAt(b, n);
      if s.Load() then LowKept(m1, m2, roots, root, s.First(), s.Last()) else m2 == m1
    ensures LowTable(m, m2, roots, root, b, n + 1)
  {
    var s := SegmentAt(b, n);
    if s.Load() { LowSameTrans(m, m1, m2, roots); }
    var next := n + 1;
    forall v: nat | v < GIB4 ensures TableOpened(m, m2, root, v, b, next) {
      assert TableOpened(m, m1, root, v, b, n);
      TouchedNext(b, n, 0, SIZE_512G);
      TouchedNext(b, n, Gib(v), Gib(v) + SIZE_1G);
      if s.Load() { assert LowOpened(m1, m2, root, v, s.First(), s.Last()); }
    }
  }

  /** The stack is not below 4 GiB and shares no upper entry with what is. */
  lemma LowAfterStack(m: Mem, m1: Mem, m2: Mem, roots: set<nat>, root: nat, b: seq<Byte>)
    requires |b| >= EHDR && TableInside(b) && LowTable(m, m1, roots, root, b, TableCount(b))
    requires LowKept(m1, m2, roots, root, STACK_BOTTOM, STACK_TOP)
    ensures LowTable(m, m2, roots, root, b, TableCount(b))
  {
    LowSameTrans(m, m1, m2, roots);
    forall v: nat | v < GIB4 ensures TableOpened(m, m2, root, v, b, TableCount(b)) {
      assert TableOpened(m, m1, root, v, b, TableCount(b)) && LowOpened(m1, m2, root, v, STACK_BOTTOM, STACK_TOP);
    }
  }

  lemma SkippedEntry(m: Mem, m1: Mem, roots: set<nat>, d: Data, root: nat, b: seq<Byte>, n: nat, spent: bool)
    requires |b| >= EHDR && TableInside(b) && n < TableCount(b) && !SegmentAt(b, n).Load()
    requires TableState(m, m1, roots, d, root, b, n, spent)
    ensures TableState(m, m1, roots, d, root, b, n + 1, spent)
  {
    LowEntry(m, m1, m1, roots, root, b, n);
  }

  lemma TableStep(m: Mem, m1: Mem, m2: Mem, roots: set<nat>, root: nat, d1: Data, d2: Data, b: seq<Byte>, n: nat, spent: bool)
    requires |b| >= EHDR && TableInside(b) && n < TableCount(b) && root in roots && Extends(d1, d2)
    requires SegmentAt(b, n).Load() && InFile(SegmentAt(b, n), |b|) && SegmentAt(b, n).Last() <= USER_TOP
    requires TableState(m, m1, roots, d1, root, b, n, false) || (spent && TableState(m, m1, roots, d1, root, b, n, true))
    requires SegmentState(m1, m2, roots, d2, root, SegmentAt(b, n), b, SegmentAt(b, n).Last(), spent)
    ensures TableState(m, m2, roots, d2, root, b, n + 1, spent)
  {
    LowEntry(m, m1, m2, roots, root, b, n);
    if Separate(b) {
      KeptWider(m1, m2, roots, root, SegmentAt(b, n).First(), SegmentAt(b, n).Last());
      KeptAgain(m, m1, m2, roots, root);
      if !spent { SegmentStep(m1, m2, roots, root, d1, d2, b, n); }
    }
  }

  /** With the stack pages below `hi` done: they are mapped, through one page table,
      or only the first is done and memory ran out over it. */
  ghost predicate StackState(m: Mem, m': Mem, roots: set<nat>, d: Data, root: nat, hi: nat, spent: bool) {
    && KeptOutside(m, m', roots, root, STACK_BOTTOM, hi) && LowKept(m, m', roots, root, STACK_BOTTOM, hi)
    && (Blank(m, root, STACK_BOTTOM, STACK_TOP) ==>
          || hi == STACK_BOTTOM
          || (RangeLoaded(m', d, root, STACK, [], STACK_BOTTOM, hi) && WalkTo(m', root, STACK_BOTTOM) != -1)
          || (hi == STACK_BOTTOM + PAGE && spent))
  }

  /** What a further stack page finds: its predecessors, and its tables after the first. */
  lemma StackReady(m: Mem, m': Mem, roots: set<nat>, d: Data, root: nat, virt: nat, spent: bool)
    requires StackState(m, m', roots, d, root, virt, spent) && STACK_BOTTOM <= virt < STACK_TOP
    ensures InFile(STACK, 0) && STACK.First() == STACK_BOTTOM
    ensures Blank(m, root, STACK_BOTTOM, STACK_TOP) ==> LoadedTo(m', d, root, STACK, [], virt, spent)
    ensures Blank(m, root, STACK_BOTTOM, STACK_TOP) && !spent && virt > STACK_BOTTOM ==> Vmm.Missing(m', root, virt) == 0
  {
    StackBounds();
    StackRegion(m', root, virt);
  }

  /** The stack lies under one directory entry. */
  lemma StackRegion(m: Mem, root: nat, v: nat)
    requires STACK_BOTTOM <= v < STACK_TOP
    ensures WalkTo(m, root, v) == WalkTo(m, root, STACK_BOTTOM)
    ensures WalkTo(m, root, v) != -1 ==> !Covered(m, root, v) && Vmm.Missing(m, root, v) == 0
  {
    assert SameRegion(v, STACK_BOTTOM);
  }

  lemma KeptWider(m: Mem, m': Mem, roots: set<nat>, root: nat, lo: nat, hi: nat)
    requires KeptOutside(m, m', roots, root, lo, hi) && UserPages(lo, hi)
    ensures KeptOutside(m, m', roots, root, SIZE_512G, USER_TOP)
  {}

  lemma KeptAgain(m: Mem, m1: Mem, m2: Mem, roots: set<nat>, root: nat)
    requires KeptOutside(m, m1, roots, root, SIZE_512G, USER_TOP) && KeptOutside(m1, m2, roots, root, SIZE_512G, USER_TOP)
    ensures KeptOutside(m, m2, roots, root, SIZE_512G, USER_TOP)
  {
    forall r, v: nat | r in roots && SIZE_512G <= v < USER_TOP && r != root ensures Translate(m2, r, v) == Translate(m, r, v) {
      assert Translate(m1, r, v) == Translate(m, r, v);
    }
  }

  /** A new address space has room for every segment. */
  lemma FreshBlank(m: Mem, root: nat, b: seq<Byte>)
    requires |b| >= EHDR && TableInside(b) && Separate(b)
    requires forall v: nat | Private(Index4(v)) :: Translate(m, root, v).Fault?
    ensures Progress(m, map[], root, b, 0)
    ensures forall d :: Progress(m, d, root, b, 0)
  {
    forall v: nat | SIZE_512G <= v < USER_TOP ensures Translate(m, root, v).Fault? { UserPrivate(v); }
  }

  lemma StackKeeps(m: Mem, m': Mem, roots: set<nat>, root: nat, d: Data, d': Data, b: seq<Byte>)
    requires |b| >= EHDR && TableInside(b) && Separate(b) && root in roots && Extends(d, d')
    requires KeptOutside(m, m', roots, root, STACK_BOTTOM, STACK_TOP) && SegmentsLoaded(m, d, root, b, TableCount(b))
    ensures SegmentsLoaded(m', d', root, b, TableCount(b))
  {
    forall i: nat | i < TableCount(b) && SegmentAt(b, i).Load()
      ensures RangeLoaded(m', d', root, SegmentAt(b, i), b, SegmentAt(b, i).First(), SegmentAt(b, i).Last())
    {
      var t := SegmentAt(b, i);
      LoadedKept(m, m', roots, root, STACK_BOTTOM, STACK_TOP, d, d', t, b, t.First(), t.Last());
    }
  }

  /** `v` reaches itself in `root`, through the very leaf it had in `kernel` before. */
  predicate AsBefore(m: Mem, kernel: nat, m': Mem, root: nat, v: nat) {
    var x, y := Translate(m, kernel, v), Translate(m', root, v);
    x.Mapped? && y.Mapped? && y.phys == v && y.leaf == x.leaf && y.writable == x.writable && (x.user ==> y.user)
  }

  /** User code of `root` reaches `v` exactly if its leaf has the user right and each entry
      above it had it before or has a page of the file below it. */
  predicate LowRights(m: Mem, kernel: nat, m': Mem, root: nat, b: seq<Byte>, v: nat)
    requires |b| >= EHDR && TableInside(b)
  {
    var x, y, n := Translate(m, kernel, v), Translate(m', root, v), TableCount(b);
    && x.Mapped? && y.Mapped?
    && (y.user <==>
        && x.leaf.user && (SlotUser(m, kernel, v) || Touched(b, n, 0, SIZE_512G))
        && (GibUser(m, kernel, v) || Touched(b, n, Gib(v), Gib(v) + SIZE_1G)))
  }

  lemma LowFromKernel(m0: Mem, m: Mem, m': Mem, role: Roles, roots: set<nat>, kernel: nat, root: nat, b: seq<Byte>)
    requires VmOk(m', role, roots) && root in roots && kernel in roots
    requires |b| >= EHDR && TableInside(b) && LowTable(m, m', roots, root, b, TableCount(b))
    requires forall v: nat :: Translate(m, kernel, v) == Translate(m0, kernel, v)
    requires forall v: nat | !Private(Index4(v)) :: Translate(m, root, v) == Translate(m, kernel, v)
    requires forall v: nat | v < GIB4 ::
               SlotUser(m, root, v) == SlotUser(m0, kernel, v) && GibUser(m, root, v) == GibUser(m0, kernel, v)
    ensures forall v: nat | v < GIB4 :: AsBefore(m0, kernel, m', root, v) && LowRights(m0, kernel, m', root, b, v)
  {
    forall v: nat | v < GIB4 ensures AsBefore(m0, kernel, m', root, v) && LowRights(m0, kernel, m', root, b, v) {
      assert IdentityAt(m', root, v) && Wider(Translate(m, root, v), Translate(m', root, v), true);
      assert Index4(v) == 0 && Translate(m, kernel, v) == Translate(m0, kernel, v);
      assert TableOpened(m, m', root, v, b, TableCount(b));
      CoveredUser(m', role, root, v);
    }
  }

  lemma LowElsewhere(m0: Mem, m: Mem, m': Mem, before: set<nat>, roots: set<nat>)
    requires before <= roots && LowSame(m, m', roots)
    requires forall r, v: nat | r in before :: Translate(m, r, v) == Translate(m0, r, v)
    ensures LowSame(m0, m', before)
  {
    forall r, v: nat | r in before && v < GIB4 ensures Wider(Translate(m0, r, v), Translate(m', r, v), true) {
      assert Translate(m, r, v) == Translate(m0, r, v) && Wider(Translate(m, r, v), Translate(m', r, v), true);
    }
  }

  /** A file whose segments all lie above slot 0 leaves the rights below 4 GiB as they were. */
  lemma HighFileKeepsLow(m: Mem, role: Roles, roots: set<nat>, kernel: nat, m': Mem, root: nat, b: seq<Byte>, v: nat)
    requires VmOk(m, role, roots) && kernel in roots && |b| >= EHDR && TableInside(b) && Separate(b) && v < GIB4
    requires AsBefore(m, kernel, m', root, v) && LowRights(m, kernel, m', root, b, v)
    ensures Translate(m', root, v) == Translate(m, kernel, v)
  {
    Vmm.LowCovered(m, role, roots, kernel, v);
    CoveredUser(m, role, kernel, v);
    assert !Touched(b, TableCount(b), 0, SIZE_512G);
    assert !Touched(b, TableCount(b), Gib(v), Gib(v) + SIZE_1G) by { assert Gib(v) + SIZE_1G <= SIZE_512G; }
  }

  /** So ring 3 can see a segment byte below 4 GiB only if the 2 MiB leaf was open to it
      before the load; otherwise the segment has not been loaded there. */
  lemma LowByteClosed(m: Mem, kernel: nat, m': Mem, d: Data, root: nat, s: Segment, b: seq<Byte>, v: nat)
    requires AsBefore(m, kernel, m', root, v) && InFile(s, |b|) && !Translate(m, kernel, v).leaf.user
    ensures !ByteLoaded(m', d, root, s, b, v)
  {
    RightsBelowLeaf(m', root, v);
  }

  /** What a loaded segment means (chapter 5, "Program Header", of the System V gABI):
      file bytes first, then zeros up to the memory size. */
  lemma LoadedImage(m: Mem, d: Data, root: nat, s: Segment, b: seq<Byte>, k: nat)
    requires InFile(s, |b|) && s.filesz <= s.memsz && k < s.memsz
    requires RangeLoaded(m, d, root, s, b, s.First(), s.Last())
    ensures var x := Translate(m, root, s.vaddr + k);
      && x.Mapped? && x.user && x.writable == s.Writable() && x.phys / PAGE in d
      && d[x.phys / PAGE][x.phys % PAGE] == if k < s.filesz then b[s.offset + k] else 0
  {
    PageBounds(s);
    assert ByteLoaded(m, d, root, s, b, s.vaddr + k);
  }

  /** The bounds of a segment's pages are page boundaries. */
  lemma PageBounds(s: Segment)
    ensures s.First() % PAGE == 0 && s.Last() % PAGE == 0 && s.First() <= s.vaddr && s.vaddr + s.memsz <= s.Last()
    ensures s.First() <= s.Last() && s.vaddr < s.First() + 4096 && s.Last() < s.vaddr + s.memsz + 4096
  {}

  lemma PageStep(m: Mem, m1: Mem, m2: Mem, roots: set<nat>, root: nat, d1: Data, d2: Data, s: Segment, b: seq<Byte>,
                 lo: nat, a: nat, hi: nat, mapped: bool)
    requires UserPages(lo, hi) && lo <= a && a + PAGE <= hi && root in roots && InFile(s, |b|)
    requires KeptOutside(m, m1, roots, root, lo, a) && KeptOutside(m1, m2, roots, root, a, a + PAGE) && Extends(d1, d2)
    requires Blank(m, root, lo, hi) && RangeLoaded(m1, d1, root, s, b, lo, a)
    requires Blank(m1, root, a, a + PAGE) && mapped ==> RangeLoaded(m2, d2, root, s, b, a, a + PAGE)
    ensures Blank(m1, root, a, a + PAGE) && RangeLoaded(m2, d2, root, s, b, lo, a)
    ensures mapped ==> RangeLoaded(m2, d2, root, s, b, lo, a + PAGE)
  {
    BlankKept(m, m1, roots, root, lo, a, a, a + PAGE);
    LoadedKept(m1, m2, roots, root, a, a + PAGE, d1, d2, s, b, lo, a);
    if mapped { LoadedJoin(m2, d2, root, s, b, lo, a, a + PAGE); }
  }

  /** What one more page adds to the state of a segment. */
  lemma NextFacts(m: Mem, m1: Mem, m2: Mem, roots: set<nat>, root: nat, d1: Data, d2: Data, s: Segment, b: seq<Byte>,
                  a: nat, mapped: bool)
    requires root in roots && InFile(s, |b|) && s.First() <= a && a + PAGE <= s.Last() && Extends(d1, d2)
    requires SegmentState(m, m1, roots, d1, root, s, b, a, false)
    requires UserPages(a, a + PAGE) ==> KeptOutside(m1, m2, roots, root, a, a + PAGE)
    requires UserPages(a, a + PAGE) && Blank(m1, root, a, a + PAGE) && mapped ==> RangeLoaded(m2, d2, root, s, b, a, a + PAGE)
    requires s.Last() <= SIZE_48 ==> LowKept(m1, m2, roots, root, a, a + PAGE)
    ensures UserPages(s.First(), s.Last()) ==> KeptOutside(m, m2, roots, root, s.First(), a + PAGE)
    ensures UserPages(s.First(), s.Last()) && Blank(m, root, s.First(), s.Last()) ==>
              && Blank(m1, root, a, a + PAGE) && RangeLoaded(m2, d2, root, s, b, s.First(), a)
              && (mapped ==> RangeLoaded(m2, d2, root, s, b, s.First(), a + PAGE))
    ensures s.Last() <= SIZE_48 ==> LowKept(m, m2, roots, root, s.First(), a + PAGE)
    ensures SegmentState(m, m2, roots, d2, root, s, b, a + PAGE, !mapped)
  {
    if UserPages(s.First(), s.Last()) {
      KeptTrans(m, m1, m2, roots, root, s.First(), a, a + PAGE);
      if Blank(m, root, s.First(), s.Last()) {
        PageStep(m, m1, m2, roots, root, d1, d2, s, b, s.First(), a, s.Last(), mapped);
      }
    }
    if s.Last() <= SIZE_48 { LowTrans(m, m1, m2, roots, root, s.First(), a, a + PAGE); }
  }

  /** With the pages of segment `s` below `to` done, having started from tables `m`. */
  ghost predicate SegmentState(m: Mem, m': Mem, roots: set<nat>, d: Data, root: nat, s: Segment, b: seq<Byte>, to: nat, spent: bool)
    requires InFile(s, |b|)
  {
    && (UserPages(s.First(), s.Last()) ==> KeptOutside(m, m', roots, root, s.First(), to))
    && (UserPages(s.First(), s.Last()) && Blank(m, root, s.First(), s.Last()) ==> LoadedTo(m', d, root, s, b, to, spent))
    && (s.Last() <= SIZE_48 ==> LowKept(m, m', roots, root, s.First(), to))
  }

  lemma SegmentStart(m: Mem, roots: set<nat>, d: Data, root: nat, s: Segment, b: seq<Byte>, spent: bool)
    requires InFile(s, |b|)
    ensures SegmentState(m, m, roots, d, root, s, b, s.First(), spent)
  {
    LowRefl(m, roots, root, s.First());
  }

  lemma SegmentKept(m: Mem, m': Mem, roots: set<nat>, d: Data, root: nat, s: Segment, b: seq<Byte>, to: nat, spent: bool)
    requires InFile(s, |b|) && SegmentState(m, m', roots, d, root, s, b, to, spent) && to <= s.Last()
    ensures UserPages(s.First(), s.Last()) ==> KeptOutside(m, m', roots, root, s.First(), s.Last())
  {}

  lemma WholePages(a: nat, end: nat)
    requires a % PAGE == 0 && end % PAGE == 0 && a < end
    ensures a + PAGE <= end && (a + PAGE) % PAGE == 0
  {}

  lemma SameRefl(m: Mem, roots: set<nat>, root: nat, a: nat)
    ensures KeptOutside(m, m, roots, root, a, a + PAGE)
  {}
}
