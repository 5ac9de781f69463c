/** The virtual memory manager of kernel/mm/vmm.c: page tables in physical frames
    taken from the page allocator, changed in place. */
module Vmm {
  import opened Paging
  import Pmm
  import opened Machine

  /** The leaf a mapping call stores. */
  function LeafFor(phys: nat, flags: Flags): Pte {
    Pte(phys / PAGE, true, flags.writable, flags.user, flags.huge, flags.other)
  }

  /** The address reaches itself; it can be written, not from user code, and is neither
      cached nor written back (bits 4 and 3 of the leaf). */
  ghost predicate DeviceAt(m: Mem, root: nat, v: nat) {
    var x := Translate(m, root, v);
    x.Mapped? && x.phys == v && x.writable && !x.user && x.leaf.other == 0x10 + 0x8
  }

  ghost predicate DeviceRange(m: Mem, root: nat, lo: nat, hi: nat) {
    forall v: nat | lo <= v < hi :: DeviceAt(m, root, v)
  }

  /** What a mapping call that found its page table does: the page goes to the new
      leaf with exactly the leaf's rights; no other address moves or loses a right in
      any address space, and none gains one but the user right, with a user mapping,
      under a leaf that has it; in private slots no right changes. */
  ghost predicate PageStored(m: Mem, m': Mem, roots: set<nat>, root: nat, v: nat, e: Pte) {
    && (forall v2: nat | SamePage(v, v2) :: Translate(m', root, v2) == Through(e, v2))
    && (forall r, v2: nat | r in roots && !SamePage(v, v2) :: Wider(Translate(m, r, v2), Translate(m', r, v2), e.user))
    && (forall r, v2: nat | r in roots && Private(Index4(v2)) && !(r == root && SamePage(v, v2)) ::
          Translate(m', r, v2) == Translate(m, r, v2))
  }

  /** New tables come from the free pages, and no page is given back. */
  ghost predicate TakenFrom(m: Mem, m': Mem, free: set<nat>, free': set<nat>) {
    free' <= free && forall f | f in m' :: f in m || f in free
  }

  /** In private slots the target decides the rights. */
  lemma SameRights(m: Mem, m': Mem, roots: set<nat>, r: nat, v: nat)
    requires Rights(m, roots) && Rights(m', roots) && r in roots && Private(Index4(v))
    requires SameTarget(Translate(m, r, v), Translate(m', r, v))
    ensures Translate(m', r, v) == Translate(m, r, v)
  {
    assert LeafRights(Translate(m, r, v)) && LeafRights(Translate(m', r, v));
  }

  /** A walk that moves nothing, then the leaf store. */
  lemma StoreAfterWalk(m: Mem, m1: Mem, m2: Mem, roots: set<nat>, root: nat, v: nat, e: Pte)
    requires Rights(m, roots) && Rights(m1, roots) && SameEverywhere(m, m1, roots, e.user) && root in roots
    requires LeafStored(m1, m2, roots, root, v, e)
    ensures PageStored(m, m2, roots, root, v, e)
  {
    forall r, v2: nat | r in roots && !SamePage(v, v2) ensures Wider(Translate(m, r, v2), Translate(m2, r, v2), e.user) {
      assert SameAt(m, m1, r, v2, e.user);
    }
    forall r, v2: nat | r in roots && Private(Index4(v2)) && !(r == root && SamePage(v, v2))
      ensures Translate(m2, r, v2) == Translate(m, r, v2)
    {
      assert SameAt(m, m1, r, v2, e.user);
      SameRights(m, m1, roots, r, v2);
    }
  }

  lemma BootKeys(root: nat, pdpt: nat, pds: seq<nat>)
    requires BootFrames(root, pdpt, pds)
    ensures forall f | f in BootMem(root, pdpt, pds) :: f in [root, pdpt] + pds
  {
    BootEntries(root, pdpt, pds);
    assert forall f | f in {root, pdpt, pds[0], pds[1], pds[2], pds[3]} :: f in [root, pdpt] + pds;
  }

  class Vmm {
    const pmm: Pmm.Allocator
    const root: nat
    var mem: Mem
    ghost var role: Roles
    ghost var roots: set<nat>

    /** The tables are in order and none of their frames can be handed out; all of
        them lie where the identity map lets the kernel write them. */
    ghost predicate Valid()
      reads this, pmm, pmm.bitmap
    {
      && VmOk(mem, role, roots) && root in roots
      && pmm.Valid() && 0 !in pmm.Free()
      && forall f | f in mem :: f !in pmm.Free() && f < Pmm.MAX_PAGE
    }

    /** No page is left that the kernel could use for a table. */
    ghost predicate Exhausted()
      reads pmm, pmm.bitmap
    {
      forall p | p in pmm.Free() :: p >= Pmm.MAX_PAGE
    }

    /** How many frames are left for tables and pages. */
    ghost function Supply(): nat
      reads pmm, pmm.bitmap
    {
      |Usable(pmm.Free())|
    }

    constructor (pmm: Pmm.Allocator, root: nat, pdpt: nat, pds: seq<nat>)
      requires pmm.Valid() && 0 !in pmm.Free() && BootFrames(root, pdpt, pds)
      requires forall f | f in [root, pdpt] + pds :: f !in pmm.Free() && f < Pmm.MAX_PAGE
      ensures Valid() && this.pmm == pmm && this.root == root && roots == {root}
      ensures mem == BootMem(root, pdpt, pds)
      ensures forall v: nat | v < GIB4 :: Translate(mem, root, v).Mapped? && Translate(mem, root, v).phys == v
    {
      this.pmm := pmm;
      this.root := root;
      this.role := BootRoles(root, pdpt, pds);
      this.roots := {root};
      var top := FillRoot(pdpt);
      var second := FillPdpt(pds);
      var d0 := FillDirectory(0);
      var d1 := FillDirectory(1);
      var d2 := FillDirectory(2);
      var d3 := FillDirectory(3);
      this.mem := map[root := top, pdpt := second, pds[0] := d0, pds[1] := d1, pds[2] := d2, pds[3] := d3];
      BootVm(root, pdpt, pds);
      BootKeys(root, pdpt, pds);
      new;
      assert mem == BootMem(root, pdpt, pds);
      forall v: nat | v < GIB4 ensures Translate(mem, root, v).Mapped? && Translate(mem, root, v).phys == v {
        assert IdentityAt(mem, root, v);
      }
    }

    static method FillRoot(pdpt: nat) returns (t: Table)
      ensures t == BootRoot(pdpt)
    {
      t := ZERO_TABLE;
      t := t[0 := Pte(pdpt, true, true, false, false, 0)];
    }

    static method FillPdpt(pds: seq<nat>) returns (t: Table)
      requires |pds| == 4
      ensures t == BootPdpt(pds)
    {
      t := ZERO_TABLE;
      for i := 0 to 4
        invariant forall j: nat | j < ENTRIES :: t[j] == if j < i then BootPdpt(pds)[j] else NO_PTE
      {
        t := t[i := Pte(pds[i], true, true, false, false, 0)];
      }
    }

    static method FillDirectory(i: nat) returns (t: Table)
      ensures t == BootDirectory(i)
    {
      t := ZERO_TABLE;
      for j := 0 to ENTRIES
        invariant forall k: nat | k < j :: t[k] == BootDirectory(i)[k]
      {
        var phys := i * (ENTRIES * SIZE_2M) + j * SIZE_2M;
        PhysFrame(i, j);
        t := t[j := Pte(phys / PAGE, true, true, false, true, 0)];
      }
    }

    /** A zeroed frame; 0 if none is left. */
    method AllocFrame() returns (g: nat)
      requires Valid()
      modifies pmm`freeCount, pmm.bitmap
      ensures Valid()
      ensures if g == 0 then old(Exhausted()) && pmm.Free() == old(pmm.Free())
              else g !in mem && g in old(pmm.Free()) && g < Pmm.MAX_PAGE && pmm.Free() == old(pmm.Free()) - {g}
      ensures g == 0 <==> old(Supply()) == 0
      ensures Supply() == old(Supply()) - (if g == 0 then 0 else 1)
    {
      ghost var free := pmm.Free();
      var addr := pmm.AllocPage();
      g := addr / PAGE;
      UsableLess(free, g);
    }

    /** One level of the creating walk: the entry is widened if it is present, and
        otherwise gets a new zeroed table; -1 if there is no frame for one. */
    method Descend(f: nat, i: nat, user: bool) returns (g: int)
      requires Valid() && f in mem && i < ENTRIES && !role[f].Pt? && !mem[f][i].huge
      modifies this`mem, this`role, pmm`freeCount, pmm.bitmap
      ensures Valid() && SameEverywhere(old(mem), mem, roots, user)
      ensures TakenFrom(old(mem), mem, old(pmm.Free()), pmm.Free())
      ensures g == -1 ==> mem == old(mem) && role == old(role) && Exhausted()
      ensures g != -1 ==> f in mem && mem[f][i].present && !mem[f][i].huge && mem[f][i].writable && (user ==> mem[f][i].user)
      ensures g != -1 ==> mem[f][i].frame == g && g in role && role[g] == ChildRole(old(role), f, i)
      ensures (forall h | h in old(mem) :: h in role && role[h] == old(role)[h]) && Descended(old(mem), mem, f, i, user)
      ensures g != -1 <==> old(mem)[f][i].present || old(Supply()) > 0
      ensures Supply() == old(Supply()) - (if g == -1 || old(mem)[f][i].present then 0 else 1)
      ensures g != -1 ==> if old(mem)[f][i].present then g == old(mem)[f][i].frame else g !in old(mem) && mem[g] == ZERO_TABLE
    {
      if mem[f][i].present {
        WidenVm(mem, role, roots, f, i, user);
        assert EntryOk(mem, role, f, i);
        g := mem[f][i].frame;
        mem := SetEntry(mem, f, i, Widen(mem[f][i], user));
      } else {
        ghost var m := mem;
        g := Link(f, i, user);
        SameWeaker(m, mem, roots, user);
      }
    }

    /** Hangs a new zeroed table into an empty entry; -1 if there is no frame for one. */
    method Link(f: nat, i: nat, user: bool) returns (g: int)
      requires Valid() && f in mem && i < ENTRIES && !role[f].Pt? && !mem[f][i].present
      modifies this`mem, this`role, pmm`freeCount, pmm.bitmap
      ensures Valid() && SameEverywhere(old(mem), mem, roots, false)
      ensures TakenFrom(old(mem), mem, old(pmm.Free()), pmm.Free())
      ensures (g != -1 <==> old(Supply()) > 0) && Supply() == old(Supply()) - (if g == -1 then 0 else 1)
      ensures if g == -1 then mem == old(mem) && role == old(role) && Exhausted()
              else
                && g >= 0 && g !in old(mem) && role == old(role)[g := ChildRole(old(role), f, i)]
                && mem == SetEntry(old(mem)[g := ZERO_TABLE], f, i, Pte(g, true, true, user, false, 0))
    {
      var table := AllocFrame();
      if table == 0 { SameRefl(mem, roots, false); return -1; }
      g := table;
      LinkVm(mem, role, roots, f, i, g, user);
      mem, role := SetEntry(mem[g := ZERO_TABLE], f, i, Pte(g, true, true, user, false, 0)), role[g := ChildRole(role, f, i)];
    }

    /** The creating walk down to the directory. */
    method WalkUpper(top: nat, v: nat, user: bool) returns (f: int)
      requires Valid() && top in roots
      modifies this`mem, this`role, pmm`freeCount, pmm.bitmap
      ensures Valid() && SameEverywhere(old(mem), mem, roots, user) && WayOpened(old(mem), mem, top, v, user)
      ensures TakenFrom(old(mem), mem, old(pmm.Free()), pmm.Free())
      ensures f == -1 ==> Exhausted()
      ensures f != -1 ==> UpperPath(mem, role, top, v, user) && DirectoryOf(mem, top, v) == f
      ensures f != -1 <==> UpperMissing(old(mem), top, v) <= old(Supply())
      ensures f != -1 ==> Supply() == old(Supply()) - UpperMissing(old(mem), top, v)
      ensures f != -1 ==> if UpperMissing(old(mem), top, v) > 0 then mem[f] == ZERO_TABLE
                          else f == DirectoryOf(old(mem), top, v) && f in old(mem) && mem[f] == old(mem)[f]
    {
      ghost var m, role0 := mem, role;
      PathRoles(mem, role, top, v);
      assert EntryOk(mem, role, top, Index4(v));
      f := Descend(top, Index4(v), user);
      SlotOpened(m, mem, role0, top, v, user);
      if f != -1 { f := WalkSecond(m, top, v, f, user); }
    }

    /** The second level, in table `p`, after a walk from `m`. */
    method WalkSecond(ghost m: Mem, top: nat, v: nat, p: nat, user: bool) returns (f: int)
      requires Valid() && top in roots && SameEverywhere(m, mem, roots, user) && SlotOnly(m, mem, top, v, user)
      requires var e := Entry(mem, top, Index4(v)); e.present && e.frame == p && e.writable && (user ==> e.user)
      requires p in mem && role[p].Pdpt?
      modifies this`mem, this`role, pmm`freeCount, pmm.bitmap
      ensures Valid() && SameEverywhere(m, mem, roots, user) && WayOpened(m, mem, top, v, user)
      ensures TakenFrom(old(mem), mem, old(pmm.Free()), pmm.Free())
      ensures f == -1 ==> Exhausted()
      ensures f != -1 ==> UpperPath(mem, role, top, v, user) && DirectoryOf(mem, top, v) == f
      ensures var there := old(mem)[p][Index3(v)].present;
        && (f != -1 <==> there || old(Supply()) > 0)
        && (f != -1 ==> Supply() == old(Supply()) - (if there then 0 else 1))
        && (f != -1 ==> if there then f == old(mem)[p][Index3(v)].frame && f in old(mem) && mem[f] == old(mem)[f]
                        else mem[f] == ZERO_TABLE)
    {
      ghost var m1, role1 := mem, role;
      assert EntryOk(mem, role, p, Index3(v));
      f := Descend(p, Index3(v), user);
      SameTrans(m, m1, mem, roots, user);
      GibOpened(m, m1, mem, role1, roots, top, v, p, user);
    }

    /** The creating walk: the page table for `v`, or -1. It never moves a
        translation. It succeeds exactly when no 2 MiB leaf covers the address and
        there are frames for all the tables that are missing. A walk for user code
        leaves its upper entries open to it even when it fails. */
    method WalkIn(top: nat, v: nat, user: bool) returns (f: int)
      requires Valid() && top in roots
      modifies this`mem, this`role, pmm`freeCount, pmm.bitmap
      ensures Valid() && SameEverywhere(old(mem), mem, roots, user) && WayOpened(old(mem), mem, top, v, user)
      ensures TakenFrom(old(mem), mem, old(pmm.Free()), pmm.Free())
      ensures user ==> LeafDecides(old(mem), mem, top, v)
      ensures f != -1 ==> WalkTo(mem, top, v) == f && PathRights(mem, top, v, user)
      ensures f != -1 <==> !Covered(old(mem), top, v) && Missing(old(mem), top, v) <= old(Supply())
      ensures f == -1 ==> Exhausted() || Covered(old(mem), top, v)
    {
      ghost var m := mem;
      MissingParts(mem, role, top, v);
      f := WalkUpper(top, v, user);
      assert SameAt(m, mem, top, v, user);
      if f != -1 { f := WalkLast(m, top, v, f, user); }
      if user { OpenedDecides(m, mem, role, roots, top, v); }
    }

    /** The last level, in directory `d`, after a walk from `m`. */
    method WalkLast(ghost m: Mem, top: nat, v: nat, d: nat, user: bool) returns (f: int)
      requires Valid() && top in roots && UpperPath(mem, role, top, v, user) && DirectoryOf(mem, top, v) == d && d in mem
      requires SameEverywhere(m, mem, roots, user) && WayOpened(m, mem, top, v, user)
      modifies this`mem, this`role, pmm`freeCount, pmm.bitmap
      ensures Valid() && SameEverywhere(m, mem, roots, user) && WayOpened(m, mem, top, v, user)
      ensures TakenFrom(old(mem), mem, old(pmm.Free()), pmm.Free())
      ensures f != -1 ==> WalkTo(mem, top, v) == f && PathRights(mem, top, v, user)
      ensures f != -1 <==> !old(mem)[d][Index2(v)].huge && (old(mem)[d][Index2(v)].present || old(Supply()) > 0)
      ensures f == -1 && !old(mem)[d][Index2(v)].huge ==> Exhausted()
    {
      assert EntryOk(mem, role, d, Index2(v));
      if mem[d][Index2(v)].huge { return -1; }
      ghost var m1, role1 := mem, role;
      f := Descend(d, Index2(v), user);
      SameTrans(m, m1, mem, roots, user);
      LowerKept(m, m1, mem, role1, roots, top, v, d, user);
    }

    /** vmm_map_page_in, and vmm_map_page when `top` is the kernel's root. On failure
        nothing moves, but a user mapping has opened the upper entries on its way. */
    method MapPageIn(top: nat, v: nat, phys: nat, flags: Flags) returns (ghost ok: bool)
      requires Valid() && top in roots
      modifies this`mem, this`role, pmm`freeCount, pmm.bitmap
      ensures Valid()
      ensures TakenFrom(old(mem), mem, old(pmm.Free()), pmm.Free())
      ensures ok ==> PageStored(old(mem), mem, roots, top, v, LeafFor(phys, flags))
      ensures ok ==> forall v2: nat | SamePage(v, v2) ::
                var x := Translate(mem, top, v2);
                && x.Mapped? && x.phys == phys / 4096 * 4096 + v2 % 4096 && x.writable == flags.writable
                && x.user == flags.user && x.leaf.other == flags.other
      ensures ok ==> WalkTo(mem, top, v) != -1
      ensures !ok ==> SameEverywhere(old(mem), mem, roots, flags.user)
      ensures WayOpened(old(mem), mem, top, v, flags.user)
      ensures flags.user ==> LeafDecides(old(mem), mem, top, v)
      ensures ok <==> !Covered(old(mem), top, v) && Missing(old(mem), top, v) <= old(Supply())
      ensures !ok ==> Exhausted() || Covered(old(mem), top, v)
    {
      ghost var m := mem;
      var f := WalkIn(top, v, flags.user);
      ok := f != -1;
      if f != -1 {
        ghost var m1 := mem;
        var e := LeafFor(phys, flags);
        StoreEffect(m, m1, role, roots, top, v, f, e);
        mem := SetEntry(mem, f, Index1(v), e);
      }
    }

    /** vmm_unmap_page: the page is gone from the kernel's space if it was mapped by
        a page table; a 2 MiB leaf or a hole is left as it was. */
    method UnmapPage(v: nat)
      requires Valid()
      modifies this`mem
      ensures Valid()
      ensures if WalkTo(old(mem), root, v) == -1 then mem == old(mem) else LeafStored(old(mem), mem, roots, root, v, NO_PTE)
    {
      var f := Find(v);
      if f != -1 {
        LeafVm(mem, role, roots, root, v, f, NO_PTE);
        mem := SetEntry(mem, f, Index1(v), NO_PTE);
      }
    }

    /** The walk that creates nothing. */
    method Find(v: nat) returns (f: int)
      requires Valid()
      ensures f == WalkTo(mem, root, v)
    {
      PathRoles(mem, role, root, v);
      var e4 := mem[root][Index4(v)];
      if !e4.present { return -1; }
      var e3 := mem[e4.frame][Index3(v)];
      if !e3.present { return -1; }
      var e2 := mem[e3.frame][Index2(v)];
      if e2.huge || !e2.present { return -1; }
      return e2.frame;
    }

    /** vmm_create_address_space: a root that shares the identity map and the upper
        half with the kernel and has nothing in its private slots; 0 on failure. */
    method CreateAddressSpace() returns (g: nat)
      requires Valid()
      modifies this`mem, this`role, this`roots, pmm`freeCount, pmm.bitmap
      ensures Valid()
      ensures TakenFrom(old(mem), mem, old(pmm.Free()), pmm.Free())
      ensures g == 0 ==> Exhausted() && mem == old(mem) && roots == old(roots)
      ensures g != 0 ==> g !in old(roots) && roots == old(roots) + {g}
      ensures g != 0 ==> forall r, v: nat | r in old(roots) :: Translate(mem, r, v) == Translate(old(mem), r, v)
      ensures g != 0 ==> forall v: nat ::
                Translate(mem, g, v) == if Private(Index4(v)) then Fault else Translate(mem, root, v)
      ensures g != 0 ==> forall v: nat | v < GIB4 ::
                SlotUser(mem, g, v) == SlotUser(old(mem), root, v) && GibUser(mem, g, v) == GibUser(old(mem), root, v)
    {
      g := AllocFrame();
      if g == 0 { return; }
      var copy := CopyShared(mem[root]);
      NewSpace(mem, role, roots, root, g);
      mem, role, roots := mem[g := copy], role[g := Root], roots + {g};
    }

    static method CopyShared(t: Table) returns (copy: Table)
      ensures copy == NewRoot(t)
    {
      copy := ZERO_TABLE;
      copy := copy[0 := t[0]];
      for i := 256 to ENTRIES
        invariant forall j: nat | j < ENTRIES :: copy[j] == if j == 0 || 256 <= j < i then t[j] else NO_PTE
      {
        copy := copy[i := t[i]];
      }
    }

    /** The table behind an entry, created if the entry is empty; -1 if there is no
        frame for it. */
    method EnsureTable(f: nat, i: nat) returns (g: int)
      requires Valid() && f in mem && i < ENTRIES && !role[f].Pt? && !mem[f][i].huge
      modifies this`mem, this`role, pmm`freeCount, pmm.bitmap
      ensures Valid() && SameEverywhere(old(mem), mem, roots, false)
      ensures g == -1 ==> mem == old(mem) && Exhausted()
      ensures g != -1 ==> f in mem && mem[f][i].present && mem[f][i].frame == g && g in role && role[g] == ChildRole(old(role), f, i)
      ensures forall h | h in old(mem) :: h in mem && role[h] == old(role)[h] && (h != f ==> mem[h] == old(mem)[h])
    {
      if !mem[f][i].present {
        g := Link(f, i, false);
        if g == -1 { return; }
      } else {
        SameRefl(mem, roots, false);
      }
      assert EntryOk(mem, role, f, i);
      g := mem[f][i].frame;
    }

    method EnsureDirectory(v: nat) returns (d: int)
      requires Valid()
      modifies this`mem, this`role, pmm`freeCount, pmm.bitmap
      ensures Valid() && SameEverywhere(old(mem), mem, roots, false)
      ensures d == -1 ==> Exhausted()
      ensures d != -1 ==> d in mem && DirectoryOf(mem, root, v) == d
    {
      ghost var m := mem;
      assert EntryOk(mem, role, root, Index4(v));
      var p := EnsureTable(root, Index4(v));
      if p == -1 { return -1; }
      ghost var m1 := mem;
      assert EntryOk(mem, role, p, Index3(v));
      d := EnsureTable(p, Index3(v));
      assert EntryOk(mem, role, p, Index3(v));
      SameTrans(m, m1, mem, roots, false);
    }

    /** vmm_map_mmio: identity-maps the 2 MiB regions that the device range touches,
        in order, up to `done`, which falls short only when memory runs out. No
        other address of any address space changes. */
    method MapMmio(phys: nat, size: nat) returns (ghost done: nat)
      requires Valid() && RoundUp(phys + size) <= SIZE_48
      modifies this`mem, this`role, pmm`freeCount, pmm.bitmap
      ensures Valid()
      ensures RoundDown(phys) <= done && (done < RoundUp(phys + size) ==> Exhausted())
      ensures DeviceRange(mem, root, RoundDown(phys), done)
      ensures SameOutside(old(mem), mem, roots, RoundDown(phys), done)
      ensures Exhausted() || DeviceRange(mem, root, phys, phys + size)
      ensures forall r, v: nat | r in roots && v < SIZE_48 && (v + SIZE_2M <= phys || phys + size + SIZE_2M <= v) ::
                Translate(mem, r, v) == old(Translate(mem, r, v))
    {
      Rounded(phys);
      Rounded(phys + size + SIZE_2M - 1);
      done := MapRegions(RoundDown(phys), RoundUp(phys + size));
    }

    method MapRegions(start: nat, end: nat) returns (ghost done: nat)
      requires Valid() && start % SIZE_2M == 0 && end % SIZE_2M == 0 && start <= end <= SIZE_48
      modifies this`mem, this`role, pmm`freeCount, pmm.bitmap
      ensures Valid() && start <= done <= end && (done < end ==> Exhausted())
      ensures DeviceRange(mem, root, start, done) && SameOutside(old(mem), mem, roots, start, done)
    {
      var addr := start;
      done := start;
      while addr < end
        invariant Valid() && addr % SIZE_2M == 0 && done == addr && start <= addr <= end
        invariant DeviceRange(mem, root, start, addr) && SameOutside(old(mem), mem, roots, start, addr)
      {
        WholeRegions(addr, end);
        var ok := MapNext(old(mem), start, addr);
        if !ok { return; }
        addr := addr + SIZE_2M;
        done := addr;
      }
    }

    method MapNext(ghost m: Mem, ghost start: nat, a: nat) returns (ok: bool)
      requires Valid() && a % SIZE_2M == 0 && start <= a && a + SIZE_2M <= SIZE_48
      requires DeviceRange(mem, root, start, a) && SameOutside(m, mem, roots, start, a)
      modifies this`mem, this`role, pmm`freeCount, pmm.bitmap
      ensures Valid() && (!ok ==> Exhausted())
      ensures DeviceRange(mem, root, start, if ok then a + SIZE_2M else a)
      ensures SameOutside(m, mem, roots, start, if ok then a + SIZE_2M else a)
    {
      ghost var m1 := mem;
      ok := MapRegion(a);
      RangeGrows(m, m1, mem, roots, root, start, a, if ok then a + SIZE_2M else a);
    }

    /** One region, or nothing if memory runs out. */
    method MapRegion(a: nat) returns (ok: bool)
      requires Valid() && a % SIZE_2M == 0 && a + SIZE_2M <= SIZE_48
      modifies this`mem, this`role, pmm`freeCount, pmm.bitmap
      ensures Valid()
      ensures !ok ==> Exhausted()
      ensures DeviceRange(mem, root, a, if ok then a + SIZE_2M else a)
      ensures SameOutside(old(mem), mem, roots, a, if ok then a + SIZE_2M else a)
    {
      ghost var m := mem;
      var d := EnsureDirectory(a);
      if d == -1 { SameTargets(m, mem, roots); return false; }
      ghost var m1 := mem;
      var e := Pte(a / PAGE, true, true, false, true, MMIO_BITS);
      HugeVm(mem, role, roots, root, a, d, e);
      mem := SetEntry(mem, d, Index2(a), e);
      RegionMapped(mem, role, root, a, e);
      RegionElsewhere(m, m1, mem, roots, a);
      ok := true;
    }

    /** vmm_mark_huge_user: only the leaf gains the user right, so the region becomes
        reachable from ring 3 exactly if both entries above it already allow it. */
    method MarkHugeUser(v: nat)
      requires Valid() && v < GIB4
      modifies this`mem
      ensures Valid()
      ensures forall r, v2: nat | r in roots && !SameRegion(v2, v) :: Translate(mem, r, v2) == Translate(old(mem), r, v2)
      ensures Translate(mem, root, v).Mapped? && Translate(mem, root, v).phys == v && Translate(mem, root, v).leaf.user
      ensures Translate(mem, root, v).user <==> UpperUser(old(mem), root, v)
    {
      PathRoles(mem, role, root, v);
      assert IdentityAt(mem, root, v);
      var d := mem[mem[root][Index4(v)].frame][Index3(v)].frame;
      var e := mem[d][Index2(v)];
      if e.huge {
        RegionStart(v);
        HugeVm(mem, role, roots, root, v - v % SIZE_2M, d, e.(user := true));
        MarkUser(mem, role, root, v, d);
        mem := SetEntry(mem, d, Index2(v), e.(user := true));
      }
      assert IdentityAt(mem, root, v);
    }
  }

  const MMIO_BITS: nat := 0x18          // write-through, cache disabled

  function RoundDown(x: nat): nat { x - x % SIZE_2M }

  function RoundUp(x: nat): nat { RoundDown(x + SIZE_2M - 1) }

  lemma WholeRegions(a: nat, end: nat)
    requires a % SIZE_2M == 0 && a < end && end % SIZE_2M == 0
    ensures a + SIZE_2M <= end && (a + SIZE_2M) % SIZE_2M == 0
  {}

  /** Both entries above the leaf of `v` carry the user right. */
  predicate UpperUser(m: Mem, root: nat, v: nat) { SlotUser(m, root, v) && GibUser(m, root, v) }

  /** Virtual addresses in the same gibibyte of the 48-bit space. */
  predicate SameGib(v: nat, v2: nat) { Index4(v) == Index4(v2) && Index3(v) == Index3(v2) }

  /** In the gibibyte of `v` the leaf alone decides whether user code reaches a covered address. */
  ghost predicate LeafDecides(m: Mem, m': Mem, root: nat, v: nat) {
    forall v2: nat | Covered(m, root, v2) && SameGib(v, v2) :: ReachedIffMarked(m, m', root, v2)
  }

  predicate ReachedIffMarked(m: Mem, m': Mem, root: nat, v: nat) {
    var x, y := Translate(m, root, v), Translate(m', root, v);
    x.Mapped? && y.Mapped? && (y.user <==> x.leaf.user)
  }

  // ----- the upper entries after a walk

  /** What one level of the creating walk does at entry `i` of table `f`. */
  ghost predicate Descended(m: Mem, m': Mem, f: nat, i: nat, user: bool)
    requires f in m && i < ENTRIES
  {
    && (forall h | h in m :: h in m' && (h != f ==> m'[h] == m[h]))
    && (forall j: nat | j < ENTRIES && j != i :: m'[f][j] == m[f][j])
    && (m[f][i].present ==> m'[f][i] == Widen(m[f][i], user))
  }

  ghost predicate SlotOnly(m: Mem, m': Mem, top: nat, v: nat, user: bool) {
    forall v2: nat | Covered(m, top, v2) ::
      && (SlotUser(m', top, v2) <==> SlotUser(m, top, v2) || (user && Index4(v2) == Index4(v)))
      && (GibUser(m', top, v2) <==> GibUser(m, top, v2))
  }

  /** After the first level: only the PML4 entry of `v` can have gained the user right. */
  lemma SlotOpened(m: Mem, m': Mem, role: Roles, top: nat, v: nat, user: bool)
    requires TreeOk(m, role) && top in role && role[top].Root? && Descended(m, m', top, Index4(v), user)
    ensures SlotOnly(m, m', top, v, user)
    ensures !m[top][Index4(v)].present ==> WayOpened(m, m', top, v, user)
  {
    forall v2: nat | Covered(m, top, v2)
      ensures SlotUser(m', top, v2) <==> SlotUser(m, top, v2) || (user && Index4(v2) == Index4(v))
      ensures GibUser(m', top, v2) <==> GibUser(m, top, v2)
    {
      PathRoles(m, role, top, v2);
    }
  }

  /** After the second level also the entry for its gibibyte. */
  lemma GibOpened(m: Mem, m1: Mem, m2: Mem, role: Roles, roots: set<nat>, top: nat, v: nat, p: nat, user: bool)
    requires TreeOk(m1, role) && top in role && role[top].Root? && top in roots && SameEverywhere(m, m1, roots, user)
    requires SlotOnly(m, m1, top, v, user)
    requires p == m1[top][Index4(v)].frame && m1[top][Index4(v)].present && p in m1 && Descended(m1, m2, p, Index3(v), user)
    ensures WayOpened(m, m2, top, v, user)
  {
    forall v2: nat | Covered(m, top, v2)
      ensures SlotUser(m2, top, v2) <==> SlotUser(m1, top, v2)
      ensures GibUser(m2, top, v2) <==> GibUser(m1, top, v2) || (user && SameGib(v, v2))
    {
      assert SameAt(m, m1, top, v2, user);
      PathRoles(m1, role, top, v);
      PathRoles(m1, role, top, v2);
      assert EntryOk(m1, role, top, Index4(v)) && EntryOk(m1, role, top, Index4(v2));
    }
  }

  /** The third level leaves the upper entries alone. */
  lemma LowerKept(m: Mem, m1: Mem, m2: Mem, role: Roles, roots: set<nat>, top: nat, v: nat, d: nat, user: bool)
    requires TreeOk(m1, role) && top in role && role[top].Root? && top in roots && SameEverywhere(m, m1, roots, user)
    requires WayOpened(m, m1, top, v, user) && d in m1 && role[d].Pd? && Descended(m1, m2, d, Index2(v), user)
    ensures WayOpened(m, m2, top, v, user)
  {
    forall v2: nat | Covered(m, top, v2)
      ensures SlotUser(m2, top, v2) == SlotUser(m1, top, v2) && GibUser(m2, top, v2) == GibUser(m1, top, v2)
    {
      assert SameAt(m, m1, top, v2, user);
      PathRoles(m1, role, top, v2);
    }
  }

  /** With the upper entries open, the leaf decides. */
  lemma OpenedDecides(m: Mem, m': Mem, role: Roles, roots: set<nat>, top: nat, v: nat)
    requires TreeOk(m', role) && top in role && role[top].Root? && top in roots
    requires SameEverywhere(m, m', roots, true) && WayOpened(m, m', top, v, true)
    ensures LeafDecides(m, m', top, v)
  {
    forall v2: nat | Covered(m, top, v2) && SameGib(v, v2) ensures ReachedIffMarked(m, m', top, v2) {
      assert SameAt(m, m', top, v2, true);
      CoveredUser(m', role, top, v2);
    }
  }

  /** The leaf store leaves covered addresses and the entries above them alone. */
  lemma CoveredKept(m: Mem, role: Roles, top: nat, v: nat, f: nat, e: Pte, v2: nat)
    requires TreeOk(m, role) && top in role && role[top].Root? && f in m && role[f].Pt? && Covered(m, top, v2)
    ensures var m' := SetEntry(m, f, Index1(v), e);
      && Translate(m', top, v2) == Translate(m, top, v2)
      && SlotUser(m', top, v2) == SlotUser(m, top, v2) && GibUser(m', top, v2) == GibUser(m, top, v2)
  {
    PathRoles(m, role, top, v2);
  }

  /** What the leaf store after a walk from `m` to `m1` has done altogether. */
  lemma StoreEffect(m: Mem, m1: Mem, role: Roles, roots: set<nat>, top: nat, v: nat, f: nat, e: Pte)
    requires Rights(m, roots) && VmOk(m1, role, roots) && top in roots && WalkTo(m1, top, v) == f
    requires SameEverywhere(m, m1, roots, e.user) && WayOpened(m, m1, top, v, e.user)
    requires (e.user ==> LeafDecides(m, m1, top, v)) && PathRights(m1, top, v, e.user)
    ensures f in m1 && VmOk(SetEntry(m1, f, Index1(v), e), role, roots)
    ensures var m2 := SetEntry(m1, f, Index1(v), e);
      && PageStored(m, m2, roots, top, v, e) && WalkTo(m2, top, v) == f
      && WayOpened(m, m2, top, v, e.user) && (e.user ==> LeafDecides(m, m2, top, v))
  {
    LeafVm(m1, role, roots, top, v, f, e);
    WalkRoles(m1, role, top, v);
    LeafStep(m1, role, f, Index1(v), e, top, v);
    StoreAfterWalk(m, m1, SetEntry(m1, f, Index1(v), e), roots, top, v, e);
    LeafUpper(m, m1, role, roots, top, v, f, e);
  }

  lemma LeafUpper(m: Mem, m1: Mem, role: Roles, roots: set<nat>, top: nat, v: nat, f: nat, e: Pte)
    requires TreeOk(m1, role) && top in role && role[top].Root? && top in roots && f in m1 && role[f].Pt?
    requires SameEverywhere(m, m1, roots, e.user) && WayOpened(m, m1, top, v, e.user)
    requires e.user ==> LeafDecides(m, m1, top, v)
    ensures var m2 := SetEntry(m1, f, Index1(v), e);
      WayOpened(m, m2, top, v, e.user) && (e.user ==> LeafDecides(m, m2, top, v))
  {
    var m2 := SetEntry(m1, f, Index1(v), e);
    forall v2: nat | Covered(m, top, v2)
      ensures Translate(m2, top, v2) == Translate(m1, top, v2)
      ensures SlotUser(m2, top, v2) == SlotUser(m1, top, v2) && GibUser(m2, top, v2) == GibUser(m1, top, v2)
    {
      assert SameAt(m, m1, top, v2, e.user);
      CoveredKept(m1, role, top, v, f, e, v2);
    }
    if e.user {
      forall v2: nat | Covered(m, top, v2) && SameGib(v, v2) ensures ReachedIffMarked(m, m2, top, v2) {
        assert ReachedIffMarked(m, m1, top, v2);
      }
    }
  }

  lemma MarkUser(m: Mem, role: Roles, root: nat, v: nat, d: nat)
    requires TreeOk(m, role) && root in role && role[root].Root? && DirectoryOf(m, root, v) == d && d in m
    requires m[d][Index2(v)].huge
    ensures var x := Translate(SetEntry(m, d, Index2(v), m[d][Index2(v)].(user := true)), root, v);
      x.Mapped? && x.leaf.user && (x.user <==> UpperUser(m, root, v))
  {
    PathRoles(m, role, root, v);
    assert EntryOk(m, role, d, Index2(v));
  }

  /** Every address below 4 GiB is covered in every address space, so a mapping call
      there never takes effect. */
  lemma LowCovered(m: Mem, role: Roles, roots: set<nat>, root: nat, v: nat)
    requires VmOk(m, role, roots) && root in roots && v < GIB4
    ensures Covered(m, root, v) && Translate(m, root, v).phys == v
  {
    assert IdentityAt(m, root, v);
  }

  /** On the boot tables marking a page for user code does not let user code in. */
  lemma MarkedStillClosed(root: nat, pdpt: nat, pds: seq<nat>, v: nat)
    requires BootFrames(root, pdpt, pds) && v < GIB4
    ensures !UpperUser(BootMem(root, pdpt, pds), root, v)
  {
    BootEntries(root, pdpt, pds);
  }

  /** A user mapping there is refused all the same, and opens the marked page. */
  method RefusedMapOpens(pmm: Pmm.Allocator, root: nat, pdpt: nat, pds: seq<nat>, v: nat, phys: nat)
    returns (vm: Vmm, ghost before: Mapping, ghost ok: bool)
    requires pmm.Valid() && 0 !in pmm.Free() && BootFrames(root, pdpt, pds) && v < GIB4
    requires forall f | f in [root, pdpt] + pds :: f !in pmm.Free() && f < Pmm.MAX_PAGE
    modifies pmm`freeCount, pmm.bitmap
    ensures !ok && before.Mapped? && before.phys == v && !before.user
    ensures Translate(vm.mem, root, v) == before.(user := true)
  {
    vm := new Vmm(pmm, root, pdpt, pds);
    MarkedStillClosed(root, pdpt, pds, v);
    vm.MarkHugeUser(v);
    ghost var m := vm.mem;
    before := Translate(m, root, v);
    LowCovered(m, vm.role, vm.roots, root, v);
    ok := vm.MapPageIn(root, v, phys, Flags(false, true, false, 0));
    assert SameAt(m, vm.mem, root, v, true) && ReachedIffMarked(m, vm.mem, root, v);
  }

  /** The lowest address of a region has the region's indices. */
  lemma RegionStart(v: nat)
    requires v < SIZE_48
    ensures (v - v % SIZE_2M) % SIZE_2M == 0 && SameRegion(v - v % SIZE_2M, v)
  {
    RegionIndex(v - v % SIZE_2M);
    RegionIndex(v);
    assert (v - v % SIZE_2M) / SIZE_2M == v / SIZE_2M;
  }

  lemma RegionIndex(v: nat)
    requires v < SIZE_48
    ensures var q := v / SIZE_2M; Index2(v) == q % ENTRIES && Index3(v) == q / ENTRIES % ENTRIES && Index4(v) == q / ENTRIES / ENTRIES
  {}

  /** Below 2^48 a region is the 2 MiB from its start. */
  lemma RegionRange(v: nat, a: nat)
    requires v < SIZE_48 && a < SIZE_48 && a % SIZE_2M == 0
    ensures SameRegion(v, a) <==> a <= v < a + SIZE_2M
  {
    RegionIndex(v);
    RegionIndex(a);
    var q, p := v / SIZE_2M, a / SIZE_2M;
    assert q == q / ENTRIES / ENTRIES * ENTRIES * ENTRIES + q / ENTRIES % ENTRIES * ENTRIES + q % ENTRIES;
    assert p == p / ENTRIES / ENTRIES * ENTRIES * ENTRIES + p / ENTRIES % ENTRIES * ENTRIES + p % ENTRIES;
    assert SameRegion(v, a) <==> q == p;
  }

  /** Below 2^48 nothing outside `lo..hi` changed in any address space. */
  ghost predicate SameOutside(m: Mem, m': Mem, roots: set<nat>, lo: nat, hi: nat) {
    forall r, v: nat | r in roots && v < SIZE_48 && !(lo <= v < hi) :: Translate(m', r, v) == Translate(m, r, v)
  }

  lemma RegionMapped(m: Mem, role: Roles, root: nat, a: nat, e: Pte)
    requires a % SIZE_2M == 0 && a + SIZE_2M <= SIZE_48 && e.writable && !e.user && e.other == MMIO_BITS
    requires TreeOk(m, role) && root in role && role[root].Root?
    requires forall v: nat | SameRegion(v, a) ::
               var x := Translate(m, root, v); x.Mapped? && x.phys == a + v % SIZE_2M && x.leaf == e
    ensures DeviceRange(m, root, a, a + SIZE_2M)
  {
    forall v: nat | a <= v < a + SIZE_2M ensures DeviceAt(m, root, v) {
      RegionRange(v, a);
      RegionOffset(v, a);
      LeafLimits(m, role, root, v);
    }
  }

  lemma RegionOffset(v: nat, a: nat)
    requires a % SIZE_2M == 0 && a <= v < a + SIZE_2M
    ensures v % SIZE_2M == v - a
  {}

  lemma RegionElsewhere(m: Mem, m1: Mem, m2: Mem, roots: set<nat>, a: nat)
    requires SameEverywhere(m, m1, roots, false) && a % SIZE_2M == 0 && a + SIZE_2M <= SIZE_48
    requires forall r, v: nat | r in roots && !SameRegion(v, a) :: Translate(m2, r, v) == Translate(m1, r, v)
    ensures SameOutside(m, m2, roots, a, a + SIZE_2M)
  {
    forall r, v: nat | r in roots && v < SIZE_48 && !(a <= v < a + SIZE_2M)
      ensures Translate(m2, r, v) == Translate(m, r, v)
    {
      RegionRange(v, a);
      assert SameAt(m, m1, r, v, false);
    }
  }

  lemma RangeGrows(m: Mem, m1: Mem, m2: Mem, roots: set<nat>, root: nat, lo: nat, mid: nat, hi: nat)
    requires root in roots && lo <= mid <= hi && mid <= SIZE_48
    requires DeviceRange(m1, root, lo, mid) && SameOutside(m, m1, roots, lo, mid)
    requires DeviceRange(m2, root, mid, hi) && SameOutside(m1, m2, roots, mid, hi)
    ensures DeviceRange(m2, root, lo, hi) && SameOutside(m, m2, roots, lo, hi)
  {
    forall v: nat | lo <= v < hi ensures DeviceAt(m2, root, v) {
      if v < mid { assert DeviceAt(m1, root, v) && Translate(m2, root, v) == Translate(m1, root, v); }
    }
    forall r, v: nat | r in roots && v < SIZE_48 && !(lo <= v < hi)
      ensures Translate(m2, r, v) == Translate(m, r, v)
    {
      assert Translate(m1, r, v) == Translate(m, r, v) && Translate(m2, r, v) == Translate(m1, r, v);
    }
  }

  lemma Rounded(x: nat)
    ensures RoundDown(x) % SIZE_2M == 0
  {}

  /** The two upper entries for `v` are present and wide enough. */
  ghost predicate UpperPath(m: Mem, role: Roles, top: nat, v: nat, user: bool) {
    var e4 := Entry(m, top, Index4(v));
    var e3 := Entry(m, e4.frame, Index3(v));
    && top in m && e4.present && e4.frame in m && e3.present && !e3.huge && e3.frame in m
    && e4.writable && e3.writable && (user ==> e4.user && e3.user)
    && e3.frame in role && role[e3.frame].Pd? && top != e3.frame && e4.frame != e3.frame
  }

  /** The free frames that the kernel can use. */
  ghost function Usable(free: set<nat>): set<nat> {
    set p | p in free && p < Pmm.MAX_PAGE
  }

  lemma UsableLess(free: set<nat>, g: nat)
    ensures (forall p | p in free :: p >= Pmm.MAX_PAGE) <==> |Usable(free)| == 0
    ensures g in free && g < Pmm.MAX_PAGE ==> |Usable(free - {g})| == |Usable(free)| - 1
  {
    if g in free && g < Pmm.MAX_PAGE { assert Usable(free - {g}) == Usable(free) - {g}; }
    assert forall p | p in free && p < Pmm.MAX_PAGE :: p in Usable(free);
    if |Usable(free)| > 0 { var p :| p in Usable(free); }
  }

  /** The tables a walk to the directory would have to create. */
  function UpperMissing(m: Mem, top: nat, v: nat): nat {
    var e4 := Entry(m, top, Index4(v));
    if !e4.present then 2 else if !Entry(m, e4.frame, Index3(v)).present then 1 else 0
  }

  /** The tables a creating walk would have to create. */
  function Missing(m: Mem, top: nat, v: nat): nat {
    var e4 := Entry(m, top, Index4(v));
    if !e4.present then 3 else
    var e3 := Entry(m, e4.frame, Index3(v));
    if !e3.present then 2 else
    if !Entry(m, e3.frame, Index2(v)).present then 1 else 0
  }

  lemma MissingParts(m: Mem, role: Roles, top: nat, v: nat)
    requires TreeOk(m, role) && top in role && role[top].Root?
    ensures UpperMissing(m, top, v) > 0 ==> Missing(m, top, v) == UpperMissing(m, top, v) + 1 && !Covered(m, top, v)
    ensures UpperMissing(m, top, v) == 0 ==> var d := DirectoryOf(m, top, v);
              && d >= 0 && d in m && Missing(m, top, v) == (if m[d][Index2(v)].present then 0 else 1)
              && (Covered(m, top, v) <==> m[d][Index2(v)].huge)
  {
    PathRoles(m, role, top, v);
    var d := DirectoryOf(m, top, v);
    if UpperMissing(m, top, v) == 0 { assert EntryOk(m, role, d, Index2(v)); }
  }

  /** A new root: nothing else changes, and it sees the shared slots as `root` does. */
  lemma NewSpace(m: Mem, role: Roles, roots: set<nat>, root: nat, g: nat)
    requires VmOk(m, role, roots) && root in roots && g !in m
    ensures var m' := m[g := NewRoot(m[root])];
      && VmOk(m', role[g := Root], roots + {g})
      && (forall r, v: nat | r in roots :: Translate(m', r, v) == Translate(m, r, v))
      && (forall v: nat :: Translate(m', g, v) == if Private(Index4(v)) then Fault else Translate(m', root, v))
      && (forall v: nat | v < GIB4 :: SlotUser(m', g, v) == SlotUser(m, root, v) && GibUser(m', g, v) == GibUser(m, root, v))
  {
    var m' := m[g := NewRoot(m[root])];
    NewRootVm(m, role, roots, root, g);
    forall v: nat ensures Translate(m', g, v) == if Private(Index4(v)) then Fault else Translate(m', root, v) {
      NewRootTranslate(m, role, root, g, v, root);
    }
    forall v: nat | v < GIB4
      ensures SlotUser(m', g, v) == SlotUser(m, root, v) && GibUser(m', g, v) == GibUser(m, root, v)
    {
      LowCovered(m, role, roots, root, v);
      NewRootUpper(m, role, root, g, v);
    }
  }

  lemma SameRefl(m: Mem, roots: set<nat>, user: bool)
    ensures SameEverywhere(m, m, roots, user)
  {}

  lemma SameWeaker(m: Mem, m': Mem, roots: set<nat>, user: bool)
    requires SameEverywhere(m, m', roots, false)
    ensures SameEverywhere(m, m', roots, user)
  {
    forall r, v: nat | r in roots ensures SameAt(m, m', r, v, user) { assert SameAt(m, m', r, v, false); }
  }

  lemma SameTargets(m: Mem, m': Mem, roots: set<nat>)
    requires SameEverywhere(m, m', roots, false)
    ensures forall r, v: nat | r in roots :: Translate(m', r, v) == Translate(m, r, v)
  {
    forall r, v: nat | r in roots ensures Translate(m', r, v) == Translate(m, r, v) {
      assert SameAt(m, m', r, v, false);
    }
  }

  lemma PhysFrame(i: nat, j: nat)
    ensures (i * (ENTRIES * SIZE_2M) + j * SIZE_2M) / PAGE == i * ENTRIES * ENTRIES + j * ENTRIES
  {}
}
