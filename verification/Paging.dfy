/** 4-level page tables as a map from frames to tables of 512 entries, the
    translation the processor makes of them (section 4.5 of the Intel SDM,
    volume 3A), and what single stores into the tables do to translations. */
module Paging {
  import opened Machine

  const ENTRIES: nat := 512
  const SIZE_2M: nat := 0x20_0000
  const SIZE_1G: nat := 0x4000_0000
  const SIZE_512G: nat := 0x80_0000_0000
  const SIZE_48: nat := 0x1_0000_0000_0000
  const GIB4: nat := 0x1_0000_0000

  /** A decoded entry: frame number, the flag bits the kernel tests, and the rest. */
  datatype Pte = Pte(frame: nat, present: bool, writable: bool, user: bool, huge: bool, other: nat)

  /** The flags argument of a mapping call. */
  datatype Flags = Flags(writable: bool, user: bool, huge: bool, other: nat)

  const NO_PTE := Pte(0, false, false, false, false, 0)

  type Table = t: seq<Pte> | |t| == ENTRIES witness seq(ENTRIES, _ => NO_PTE)

  type Mem = map<nat, Table>

  const ZERO_TABLE: Table := seq(ENTRIES, _ => NO_PTE)

  function Index4(v: nat): nat { v / SIZE_512G % ENTRIES }
  function Index3(v: nat): nat { v / SIZE_1G % ENTRIES }
  function Index2(v: nat): nat { v / SIZE_2M % ENTRIES }
  function Index1(v: nat): nat { v / PAGE % ENTRIES }

  /** What the processor finds: the physical address, the leaf entry, and the
      rights left after combining all levels. */
  datatype Mapping = Fault | Mapped(phys: nat, leaf: Pte, writable: bool, user: bool)

  function Entry(m: Mem, f: nat, i: nat): Pte {
    if f in m && i < ENTRIES then m[f][i] else NO_PTE
  }

  function Translate(m: Mem, root: nat, v: nat): Mapping {
    var e4 := Entry(m, root, Index4(v));
    if !e4.present then Fault else
    var e3 := Entry(m, e4.frame, Index3(v));
    if !e3.present then Fault else
    if e3.huge then Mapped(e3.frame * PAGE + v % SIZE_1G, e3, e4.writable && e3.writable, e4.user && e3.user) else
    var e2 := Entry(m, e3.frame, Index2(v));
    var w, u := e4.writable && e3.writable && e2.writable, e4.user && e3.user && e2.user;
    if !e2.present then Fault else
    if e2.huge then Mapped(e2.frame * PAGE + v % SIZE_2M, e2, w, u) else
    var e1 := Entry(m, e2.frame, Index1(v));
    if !e1.present then Fault else
    Mapped(e1.frame * PAGE + v % PAGE, e1, w && e1.writable, u && e1.user)
  }

  /** The same physical address through the same leaf entry. */
  predicate SameTarget(a: Mapping, b: Mapping) {
    if a.Fault? then b.Fault? else b.Mapped? && b.phys == a.phys && b.leaf == a.leaf
  }

  /** The same physical address through the same leaf entry with the same rights, except
      that after an access for `user` a page whose leaf has the user right may have gained it. */
  predicate Wider(x: Mapping, y: Mapping, user: bool) {
    if x.Fault? then y.Fault? else
    && y.Mapped? && y.phys == x.phys && y.leaf == x.leaf && y.writable == x.writable
    && (x.user ==> y.user) && (y.user && !x.user ==> user && x.leaf.user)
  }

  /** Virtual addresses in the same 4 KiB page of the 48-bit space. */
  predicate SamePage(v: nat, v2: nat) {
    Index4(v) == Index4(v2) && Index3(v) == Index3(v2) && Index2(v) == Index2(v2) && Index1(v) == Index1(v2)
  }

  /** The page table that holds the leaf entry for `v`; -1 if the walk stops before. */
  function WalkTo(m: Mem, root: nat, v: nat): int {
    var e4 := Entry(m, root, Index4(v));
    if !e4.present then -1 else
    var e3 := Entry(m, e4.frame, Index3(v));
    if !e3.present || e3.huge then -1 else
    var e2 := Entry(m, e3.frame, Index2(v));
    if !e2.present || e2.huge then -1 else e2.frame
  }

  // ----- the tree

  /** What each table frame is for. A table of level 3 under a private slot belongs
      to one root; under slot 0 and the upper half it may be shared. */
  datatype Role = Root | Pdpt(slot: nat, owner: int) | Pd(parent: nat, idx: nat) | Pt(parent: nat, idx: nat)

  type Roles = map<nat, Role>

  predicate Private(slot: nat) { 0 < slot < 256 }

  function Owner(root: nat, slot: nat): int { if Private(slot) then root else -1 }

  /** The role of a table reached from entry `i` of table `f`. */
  function ChildRole(role: Roles, f: nat, i: nat): Role
    requires f in role && !role[f].Pt?
  {
    match role[f]
    case Root => Pdpt(i, Owner(f, i))
    case Pdpt(_, _) => Pd(f, i)
    case Pd(_, _) => Pt(f, i)
  }

  /** Entry `i` of table `f`: if present it is a 2 MiB leaf in a directory, or leads
      to a table whose role names this very entry. */
  ghost predicate EntryOk(m: Mem, role: Roles, f: nat, i: nat)
    requires f in m && f in role && i < ENTRIES
  {
    var e := m[f][i];
    role[f].Pt? || (
      && (e.huge ==> role[f].Pd? && e.present)
      && (e.present && !e.huge ==> e.writable && e.frame in role && role[e.frame] == ChildRole(role, f, i)))
  }

  ghost predicate TreeOk(m: Mem, role: Roles) {
    && m.Keys == role.Keys
    && forall f, i: nat | f in m && i < ENTRIES :: EntryOk(m, role, f, i)
  }

  /** Page table `f` hangs at index i2 of a directory at index i3 of a table with role `top`. */
  predicate PathOf(role: Roles, f: int, i2: nat, i3: nat, top: Role) {
    && f >= 0 && f in role && role[f].Pt? && role[f].idx == i2
    && role[f].parent in role && role[role[f].parent].Pd? && role[role[f].parent].idx == i3
    && role[role[f].parent].parent in role && role[role[role[f].parent].parent] == top
  }

  /** The path of a walk, recorded in the roles of its tables. */
  lemma WalkRoles(m: Mem, role: Roles, root: nat, v: nat)
    requires TreeOk(m, role) && root in role && role[root].Root? && WalkTo(m, root, v) != -1
    ensures PathOf(role, WalkTo(m, root, v), Index2(v), Index3(v), Pdpt(Index4(v), Owner(root, Index4(v))))
  {
    var e4 := Entry(m, root, Index4(v));
    assert EntryOk(m, role, root, Index4(v));
    var e3 := Entry(m, e4.frame, Index3(v));
    assert EntryOk(m, role, e4.frame, Index3(v));
    assert EntryOk(m, role, e3.frame, Index2(v));
  }

  /** Two walks that end in the same table took the same path. */
  lemma WalkUnique(m: Mem, role: Roles, r: nat, v: nat, r2: nat, v2: nat)
    requires TreeOk(m, role) && r in role && role[r].Root? && r2 in role && role[r2].Root?
    requires WalkTo(m, r, v) == WalkTo(m, r2, v2) != -1
    ensures Index4(v) == Index4(v2) && Index3(v) == Index3(v2) && Index2(v) == Index2(v2)
    ensures Private(Index4(v)) ==> r == r2
  {
    WalkRoles(m, role, r, v);
    WalkRoles(m, role, r2, v2);
  }

  // ----- single stores

  function SetEntry(m: Mem, f: nat, i: nat, e: Pte): Mem
    requires f in m && i < ENTRIES
  {
    m[f := m[f][i := e]]
  }

  /** A present entry with its rights widened. */
  function Widen(e: Pte, user: bool): Pte {
    e.(writable := true, user := e.user || user)
  }

  /** Widening an intermediate entry moves no translation. */
  lemma WidenStep(m: Mem, role: Roles, f: nat, i: nat, user: bool, r: nat, v: nat)
    requires TreeOk(m, role) && f in m && i < ENTRIES && !role[f].Pt? && m[f][i].present && !m[f][i].huge
    requires r in role && role[r].Root?
    ensures var m' := SetEntry(m, f, i, Widen(m[f][i], user));
      && TreeOk(m', role) && SameTarget(Translate(m, r, v), Translate(m', r, v)) && WalkTo(m', r, v) == WalkTo(m, r, v)
  {
    var m' := SetEntry(m, f, i, Widen(m[f][i], user));
    WidenTree(m, role, f, i, user);
    PathRoles(m, role, r, v);
  }

  lemma WidenTree(m: Mem, role: Roles, f: nat, i: nat, user: bool)
    requires TreeOk(m, role) && f in m && i < ENTRIES && !role[f].Pt? && m[f][i].present
    ensures TreeOk(SetEntry(m, f, i, Widen(m[f][i], user)), role)
  {
    var m' := SetEntry(m, f, i, Widen(m[f][i], user));
    forall g, j: nat | g in m' && j < ENTRIES ensures EntryOk(m', role, g, j) { assert EntryOk(m, role, g, j); }
  }

  /** The tables a walk reads are a level apart, so none of them is a page table
      before the last. */
  lemma PathRoles(m: Mem, role: Roles, r: nat, v: nat)
    requires TreeOk(m, role) && r in role && role[r].Root?
    ensures var e4 := Entry(m, r, Index4(v)); e4.present ==>
      && !e4.huge && e4.frame in role && role[e4.frame].Pdpt?
      && var e3 := Entry(m, e4.frame, Index3(v)); e3.present ==>
      && !e3.huge && e3.frame in role && role[e3.frame].Pd?
      && var e2 := Entry(m, e3.frame, Index2(v)); e2.present && !e2.huge ==>
      e2.frame in role && role[e2.frame].Pt?
  {
    assert EntryOk(m, role, r, Index4(v));
    var e4 := Entry(m, r, Index4(v));
    if e4.present {
      assert EntryOk(m, role, e4.frame, Index3(v));
      var e3 := Entry(m, e4.frame, Index3(v));
      if e3.present { assert EntryOk(m, role, e3.frame, Index2(v)); }
    }
  }

  /** The upper entries never forbid writing, and the user right needs the leaf's. */
  lemma LeafLimits(m: Mem, role: Roles, r: nat, v: nat)
    requires TreeOk(m, role) && r in role && role[r].Root? && Translate(m, r, v).Mapped?
    ensures var x := Translate(m, r, v); x.writable == x.leaf.writable && (x.user ==> x.leaf.user)
  {
    assert EntryOk(m, role, r, Index4(v));
    var e4 := Entry(m, r, Index4(v));
    assert EntryOk(m, role, e4.frame, Index3(v));
    assert EntryOk(m, role, Entry(m, e4.frame, Index3(v)).frame, Index2(v));
  }

  /** Hanging a fresh zeroed table into an empty entry makes nothing translate. */
  lemma LinkStep(m: Mem, role: Roles, f: nat, i: nat, g: nat, user: bool, r: nat, v: nat)
    requires TreeOk(m, role) && f in m && i < ENTRIES && !role[f].Pt? && !m[f][i].present && g !in m
    requires r in role && role[r].Root?
    ensures var m' := SetEntry(m[g := ZERO_TABLE], f, i, Pte(g, true, true, user, false, 0));
      && TreeOk(m', role[g := ChildRole(role, f, i)])
      && SameTarget(Translate(m, r, v), Translate(m', r, v))
  {
    var m' := SetEntry(m[g := ZERO_TABLE], f, i, Pte(g, true, true, user, false, 0));
    LinkTree(m, role, f, i, g, user);
    PathRoles(m, role, r, v);
    assert forall k: nat | k < ENTRIES :: !m'[g][k].present && !m'[g][k].huge;
  }

  lemma LinkTree(m: Mem, role: Roles, f: nat, i: nat, g: nat, user: bool)
    requires TreeOk(m, role) && f in m && i < ENTRIES && !role[f].Pt? && !m[f][i].present && g !in m
    ensures TreeOk(SetEntry(m[g := ZERO_TABLE], f, i, Pte(g, true, true, user, false, 0)), role[g := ChildRole(role, f, i)])
  {
    var role' := role[g := ChildRole(role, f, i)];
    var m' := SetEntry(m[g := ZERO_TABLE], f, i, Pte(g, true, true, user, false, 0));
    forall h, j: nat | h in m' && j < ENTRIES ensures EntryOk(m', role', h, j) {
      if h != g { assert EntryOk(m, role, h, j); }
    }
  }

  /** Storing a leaf in page table `f` changes only walks that end at that very entry. */
  lemma LeafStep(m: Mem, role: Roles, f: nat, i: nat, e: Pte, r: nat, v: nat)
    requires TreeOk(m, role) && f in m && i < ENTRIES && role[f].Pt? && r in role && role[r].Root?
    ensures var m' := SetEntry(m, f, i, e);
      && TreeOk(m', role) && WalkTo(m', r, v) == WalkTo(m, r, v)
      && (!(WalkTo(m, r, v) == f && Index1(v) == i) ==> Translate(m', r, v) == Translate(m, r, v))
  {
    var m' := SetEntry(m, f, i, e);
    forall g, j: nat | g in m' && j < ENTRIES ensures EntryOk(m', role, g, j) { assert EntryOk(m, role, g, j); }
    PathRoles(m, role, r, v);
  }

  /** Storing a 2 MiB leaf in directory `f` changes only walks that read that entry. */
  lemma HugeStep(m: Mem, role: Roles, f: nat, i: nat, e: Pte, r: nat, v: nat)
    requires TreeOk(m, role) && f in m && i < ENTRIES && role[f].Pd? && e.present && e.huge && r in role && role[r].Root?
    ensures var m' := SetEntry(m, f, i, e);
      && TreeOk(m', role)
      && (!(DirectoryOf(m, r, v) == f && Index2(v) == i) ==> Translate(m', r, v) == Translate(m, r, v))
      && (DirectoryOf(m, r, v) == f && Index2(v) == i ==>
            Translate(m', r, v).Mapped? && Translate(m', r, v).phys == e.frame * PAGE + v % SIZE_2M && Translate(m', r, v).leaf == e)
  {
    var m' := SetEntry(m, f, i, e);
    forall g, j: nat | g in m' && j < ENTRIES ensures EntryOk(m', role, g, j) { assert EntryOk(m, role, g, j); }
    PathRoles(m, role, r, v);
  }

  /** The directory a walk reaches, or -1. */
  function DirectoryOf(m: Mem, root: nat, v: nat): int {
    var e4 := Entry(m, root, Index4(v));
    if !e4.present then -1 else
    var e3 := Entry(m, e4.frame, Index3(v));
    if !e3.present || e3.huge then -1 else e3.frame
  }

  // ----- properties of all address spaces

  /** The PML4 entry above `v` has the user right. */
  predicate SlotUser(m: Mem, root: nat, v: nat) {
    Entry(m, root, Index4(v)).user
  }

  /** The entry above the directory of `v` has the user right. */
  predicate GibUser(m: Mem, root: nat, v: nat) {
    Entry(m, Entry(m, root, Index4(v)).frame, Index3(v)).user
  }

  /** Covered by a 2 MiB leaf, so that no page table can be reached. */
  predicate Covered(m: Mem, root: nat, v: nat) {
    Translate(m, root, v).Mapped? && WalkTo(m, root, v) == -1
  }

  /** `v` goes to the same place, and is covered by a 2 MiB leaf as before. */
  predicate SameAt(m: Mem, m': Mem, r: nat, v: nat, user: bool) {
    Wider(Translate(m, r, v), Translate(m', r, v), user) && Covered(m', r, v) == Covered(m, r, v)
  }

  /** From no root does anything translate to another place or lose a right, and nothing
      gains one unless `user` holds and its leaf has the user right. */
  ghost predicate SameEverywhere(m: Mem, m': Mem, roots: set<nat>, user: bool) {
    forall r, v: nat | r in roots :: SameAt(m, m', r, v, user)
  }

  /** The upper entries for covered addresses of `root` after a creating walk for `v`: those
      on its way gain the user right, whether or not the walk succeeds, and no others do. */
  ghost predicate WayOpened(m: Mem, m': Mem, root: nat, v: nat, user: bool) {
    forall v2: nat | Covered(m, root, v2) ::
      && (SlotUser(m', root, v2) <==> SlotUser(m, root, v2) || (user && Index4(v2) == Index4(v)))
      && (GibUser(m', root, v2) <==>
          GibUser(m, root, v2) || (user && Index4(v2) == Index4(v) && Index3(v2) == Index3(v)))
  }

  /** What a covered address can be used for is decided by its leaf and the two entries above. */
  lemma CoveredUser(m: Mem, role: Roles, root: nat, v: nat)
    requires TreeOk(m, role) && root in role && role[root].Root? && Covered(m, root, v)
    ensures Translate(m, root, v).user <==> Translate(m, root, v).leaf.user && SlotUser(m, root, v) && GibUser(m, root, v)
  {
    PathRoles(m, role, root, v);
  }

  predicate IdentityAt(m: Mem, r: nat, v: nat) {
    Translate(m, r, v).Mapped? && Translate(m, r, v).phys == v && WalkTo(m, r, v) == -1
  }

  /** Every address below 4 GiB translates to itself, through a 2 MiB leaf. */
  ghost predicate Identity(m: Mem, roots: set<nat>) {
    forall r, v: nat | r in roots && v < GIB4 :: IdentityAt(m, r, v)
  }

  predicate LeafRights(x: Mapping) {
    x.Mapped? ==> x.writable == x.leaf.writable && x.user == x.leaf.user
  }

  /** In the private slots the rights of a page are those of its leaf. */
  ghost predicate Rights(m: Mem, roots: set<nat>) {
    forall r, v: nat | r in roots && Private(Index4(v)) :: LeafRights(Translate(m, r, v))
  }

  ghost predicate RootsOk(role: Roles, roots: set<nat>) {
    forall r | r in roots :: r in role && role[r].Root?
  }

  /** The invariant of the page tables. */
  ghost predicate VmOk(m: Mem, role: Roles, roots: set<nat>) {
    TreeOk(m, role) && RootsOk(role, roots) && Identity(m, roots) && Rights(m, roots)
  }

  lemma SameTrans(m: Mem, m1: Mem, m2: Mem, roots: set<nat>, user: bool)
    requires SameEverywhere(m, m1, roots, user) && SameEverywhere(m1, m2, roots, user)
    ensures SameEverywhere(m, m2, roots, user)
  {
    forall r, v: nat | r in roots ensures SameAt(m, m2, r, v, user) {
      assert SameAt(m, m1, r, v, user) && SameAt(m1, m2, r, v, user);
    }
  }

  /** Widening an intermediate entry moves nothing, takes no right away, adds none but the
      user right under leaves that have it, and leaves each private page the rights of its leaf. */
  lemma WidenVm(m: Mem, role: Roles, roots: set<nat>, f: nat, i: nat, user: bool)
    requires VmOk(m, role, roots) && f in m && i < ENTRIES && !role[f].Pt? && m[f][i].present && !m[f][i].huge
    ensures var m' := SetEntry(m, f, i, Widen(m[f][i], user)); VmOk(m', role, roots) && SameEverywhere(m, m', roots, user)
  {
    var m' := SetEntry(m, f, i, Widen(m[f][i], user));
    WidenTree(m, role, f, i, user);
    forall r, v: nat | r in roots ensures SameAt(m, m', r, v, user) {
      WidenStep(m, role, f, i, user, r, v);
      if Translate(m, r, v).Mapped? { WidenRights(m, role, f, i, user, r, v); }
    }
    forall r, v: nat | r in roots && v < GIB4 ensures IdentityAt(m', r, v) {
      assert IdentityAt(m, r, v);
      WidenStep(m, role, f, i, user, r, v);
    }
    forall r, v: nat | r in roots && Private(Index4(v)) ensures LeafRights(Translate(m', r, v)) {
      assert LeafRights(Translate(m, r, v));
      WidenStep(m, role, f, i, user, r, v);
      if Translate(m, r, v).Mapped? { WidenRights(m, role, f, i, user, r, v); }
    }
  }

  /** No entry is narrower after widening. */
  lemma WidenEntry(m: Mem, f: nat, i: nat, user: bool, g: nat, j: nat)
    requires f in m && i < ENTRIES
    ensures var e, e' := Entry(m, g, j), Entry(SetEntry(m, f, i, Widen(m[f][i], user)), g, j);
      && e' == e.(writable := e'.writable, user := e'.user) && (e.writable ==> e'.writable) && (e.user ==> e'.user)
      && (!user ==> e'.user == e.user)
  {}

  /** Intermediate entries are writable, so a page is writable exactly if its leaf is. */
  lemma LeafWrites(m: Mem, role: Roles, r: nat, v: nat)
    requires TreeOk(m, role) && r in role && role[r].Root?
    ensures var x := Translate(m, r, v); x.Mapped? ==> x.writable == x.leaf.writable
  {
    PathRoles(m, role, r, v);
    var e4 := Entry(m, r, Index4(v));
    var e3 := Entry(m, e4.frame, Index3(v));
    assert EntryOk(m, role, r, Index4(v));
    if e4.present {
      assert EntryOk(m, role, e4.frame, Index3(v));
      if e3.present { assert EntryOk(m, role, e3.frame, Index2(v)); }
    }
  }

  /** The rights of a translation never exceed its leaf's. */
  lemma RightsBelowLeaf(m: Mem, r: nat, v: nat)
    ensures var x := Translate(m, r, v); x.Mapped? ==> (x.writable ==> x.leaf.writable) && (x.user ==> x.leaf.user)
  {}

  lemma WidenRights(m: Mem, role: Roles, f: nat, i: nat, user: bool, r: nat, v: nat)
    requires TreeOk(m, role) && f in m && i < ENTRIES && !role[f].Pt? && m[f][i].present && !m[f][i].huge
    requires r in role && role[r].Root? && Translate(m, r, v).Mapped?
    ensures var x, x' := Translate(m, r, v), Translate(SetEntry(m, f, i, Widen(m[f][i], user)), r, v);
      Wider(x, x', user) && (x'.user ==> x'.leaf.user)
  {
    var m' := SetEntry(m, f, i, Widen(m[f][i], user));
    WidenStep(m, role, f, i, user, r, v);
    LeafWrites(m, role, r, v);
    LeafWrites(m', role, r, v);
    var e4 := Entry(m, r, Index4(v));
    var e3 := Entry(m, e4.frame, Index3(v));
    var e2 := Entry(m, e3.frame, Index2(v));
    WidenEntry(m, f, i, user, r, Index4(v));
    WidenEntry(m, f, i, user, e4.frame, Index3(v));
    WidenEntry(m, f, i, user, e3.frame, Index2(v));
    WidenEntry(m, f, i, user, e2.frame, Index1(v));
    RightsBelowLeaf(m', r, v);
  }

  lemma LinkVm(m: Mem, role: Roles, roots: set<nat>, f: nat, i: nat, g: nat, user: bool)
    requires VmOk(m, role, roots) && f in m && i < ENTRIES && !role[f].Pt? && !m[f][i].present && g !in m
    ensures var m' := SetEntry(m[g := ZERO_TABLE], f, i, Pte(g, true, true, user, false, 0));
      VmOk(m', role[g := ChildRole(role, f, i)], roots) && SameEverywhere(m, m', roots, false)
  {
    var m' := SetEntry(m[g := ZERO_TABLE], f, i, Pte(g, true, true, user, false, 0));
    LinkTree(m, role, f, i, g, user);
    forall r, v: nat | r in roots ensures SameAt(m, m', r, v, false) {
      LinkStep(m, role, f, i, g, user, r, v);
      if Translate(m, r, v).Mapped? { LinkSame(m, role, f, i, g, user, r, v); }
    }
    forall r, v: nat | r in roots && v < GIB4 ensures IdentityAt(m', r, v) {
      assert IdentityAt(m, r, v);
      LinkSame(m, role, f, i, g, user, r, v);
    }
    forall r, v: nat | r in roots && Private(Index4(v)) ensures LeafRights(Translate(m', r, v)) {
      LinkStep(m, role, f, i, g, user, r, v);
      if Translate(m, r, v).Mapped? { LinkSame(m, role, f, i, g, user, r, v); assert LeafRights(Translate(m, r, v)); }
    }
  }

  lemma LinkSame(m: Mem, role: Roles, f: nat, i: nat, g: nat, user: bool, r: nat, v: nat)
    requires TreeOk(m, role) && f in m && i < ENTRIES && !role[f].Pt? && !m[f][i].present && g !in m
    requires r in role && role[r].Root? && Translate(m, r, v).Mapped?
    ensures var m' := SetEntry(m[g := ZERO_TABLE], f, i, Pte(g, true, true, user, false, 0));
      Translate(m', r, v) == Translate(m, r, v) && WalkTo(m', r, v) == WalkTo(m, r, v)
  {
    PathRoles(m, role, r, v);
  }

  // ----- mapping and unmapping one page

  /** The three intermediate entries for `v` are writable, and user if asked. */
  predicate PathRights(m: Mem, root: nat, v: nat, user: bool) {
    var e4 := Entry(m, root, Index4(v));
    var e3 := Entry(m, e4.frame, Index3(v));
    var e2 := Entry(m, e3.frame, Index2(v));
    e4.writable && e3.writable && e2.writable && (user ==> e4.user && e3.user && e2.user)
  }

  lemma SamePagePath(m: Mem, root: nat, v: nat, v2: nat)
    requires SamePage(v, v2)
    ensures WalkTo(m, root, v2) == WalkTo(m, root, v)
    ensures forall user :: PathRights(m, root, v2, user) == PathRights(m, root, v, user)
  {}

  /** The translation of `v` through leaf `e`, with all the rights of the leaf. */
  function Through(e: Pte, v: nat): Mapping {
    if e.present then Mapped(e.frame * PAGE + v % PAGE, e, e.writable, e.user) else Fault
  }

  /** What the leaf store of a map or unmap call for `v` in `root` does: every
      address of the page goes through the new leaf, no other address moves in any
      root, and in a private slot no other root changes at all. */
  ghost predicate LeafStored(m: Mem, m': Mem, roots: set<nat>, root: nat, v: nat, e: Pte) {
    && (forall v2: nat | SamePage(v, v2) :: Translate(m', root, v2) == Through(e, v2))
    && (forall r, v2: nat | r in roots && !SamePage(v, v2) :: Translate(m', r, v2) == Translate(m, r, v2))
    && (Private(Index4(v)) ==> forall r, v2: nat | r in roots && r != root :: Translate(m', r, v2) == Translate(m, r, v2))
  }

  lemma LeafVm(m: Mem, role: Roles, roots: set<nat>, root: nat, v: nat, f: nat, e: Pte)
    requires VmOk(m, role, roots) && root in roots && WalkTo(m, root, v) == f
    requires e.present ==> PathRights(m, root, v, e.user)
    ensures f in m && VmOk(SetEntry(m, f, Index1(v), e), role, roots)
    ensures LeafStored(m, SetEntry(m, f, Index1(v), e), roots, root, v, e)
  {
    WalkRoles(m, role, root, v);
    var i := Index1(v);
    var m' := SetEntry(m, f, i, e);
    forall r, v2: nat | r in roots
      ensures !(SamePage(v, v2) && WalkTo(m, r, v2) == f) ==> Translate(m', r, v2) == Translate(m, r, v2)
      ensures Private(Index4(v)) && r != root ==> Translate(m', r, v2) == Translate(m, r, v2)
    {
      LeafElsewhere(m, role, root, v, f, e, r, v2);
    }
    forall v2: nat | SamePage(v, v2) ensures Translate(m', root, v2) == Through(e, v2) {
      SamePagePath(m, root, v, v2);
      LeafHere(m, role, root, v2, f, e);
    }
    LeafStep(m, role, f, i, e, root, v);
    LeafKeepsIdentity(m, role, roots, f, i, e);
    forall r, v2: nat | r in roots && Private(Index4(v2)) ensures LeafRights(Translate(m', r, v2)) {
      assert LeafRights(Translate(m, r, v2));
      if SamePage(v, v2) && r != root { assert Translate(m', r, v2) == Translate(m, r, v2); }
    }
  }

  /** The identity map ends in 2 MiB leaves, so no page-table store touches it. */
  lemma LeafKeepsIdentity(m: Mem, role: Roles, roots: set<nat>, f: nat, i: nat, e: Pte)
    requires TreeOk(m, role) && RootsOk(role, roots) && Identity(m, roots) && f in m && i < ENTRIES && role[f].Pt?
    ensures Identity(SetEntry(m, f, i, e), roots)
  {
    forall r, v: nat | r in roots && v < GIB4 ensures IdentityAt(SetEntry(m, f, i, e), r, v) {
      assert IdentityAt(m, r, v);
      LeafStep(m, role, f, i, e, r, v);
    }
  }

  lemma LeafElsewhere(m: Mem, role: Roles, root: nat, v: nat, f: nat, e: Pte, r: nat, v2: nat)
    requires TreeOk(m, role) && root in role && role[root].Root? && r in role && role[r].Root?
    requires WalkTo(m, root, v) == f && f in m
    ensures var m' := SetEntry(m, f, Index1(v), e);
      && (!(SamePage(v, v2) && WalkTo(m, r, v2) == f) ==> Translate(m', r, v2) == Translate(m, r, v2))
      && (Private(Index4(v)) && r != root ==> Translate(m', r, v2) == Translate(m, r, v2))
  {
    WalkRoles(m, role, root, v);
    LeafStep(m, role, f, Index1(v), e, r, v2);
    if WalkTo(m, r, v2) == f { WalkUnique(m, role, root, v, r, v2); }
  }

  lemma LeafHere(m: Mem, role: Roles, root: nat, v: nat, f: nat, e: Pte)
    requires TreeOk(m, role) && root in role && role[root].Root? && WalkTo(m, root, v) == f && f in m
    requires e.present ==> PathRights(m, root, v, e.user)
    ensures Translate(SetEntry(m, f, Index1(v), e), root, v) == Through(e, v)
  {
    WalkRoles(m, role, root, v);
    PathRoles(m, role, root, v);
  }

  // ----- address spaces

  /** A new root: the identity slot and the upper half copied, the rest empty. */
  function NewRoot(t: Table): Table {
    seq(ENTRIES, i requires 0 <= i < ENTRIES => if i == 0 || i >= 256 then t[i] else NO_PTE)
  }

  lemma NewRootEntry(t: Table, i: nat)
    requires i < ENTRIES
    ensures NewRoot(t)[i] == if Private(i) then NO_PTE else t[i]
  {}

  lemma NewRootTranslate(m: Mem, role: Roles, root: nat, g: nat, v: nat, r: nat)
    requires TreeOk(m, role) && root in role && role[root].Root? && g !in m && r in role && role[r].Root?
    ensures var m' := m[g := NewRoot(m[root])];
      && Translate(m', r, v) == Translate(m, r, v) && WalkTo(m', r, v) == WalkTo(m, r, v)
      && (Private(Index4(v)) ==> Translate(m', g, v).Fault?)
      && (!Private(Index4(v)) ==> Translate(m', g, v) == Translate(m, root, v) && WalkTo(m', g, v) == WalkTo(m, root, v))
  {
    NewRootEntry(m[root], Index4(v));
    PathRoles(m, role, r, v);
    PathRoles(m, role, root, v);
  }

  /** The new root starts with the rights of the old one's shared upper entries. */
  lemma NewRootUpper(m: Mem, role: Roles, root: nat, g: nat, v: nat)
    requires TreeOk(m, role) && root in role && role[root].Root? && g !in m && !Private(Index4(v))
    ensures var m' := m[g := NewRoot(m[root])];
      Covered(m, root, v) ==> SlotUser(m', g, v) == SlotUser(m, root, v) && GibUser(m', g, v) == GibUser(m, root, v)
  {
    NewRootEntry(m[root], Index4(v));
    PathRoles(m, role, root, v);
  }

  lemma NewRootVm(m: Mem, role: Roles, roots: set<nat>, root: nat, g: nat)
    requires VmOk(m, role, roots) && root in roots && g !in m
    ensures var m' := m[g := NewRoot(m[root])];
      && VmOk(m', role[g := Root], roots + {g})
      && forall r, v: nat | r in roots :: Translate(m', r, v) == Translate(m, r, v)
  {
    var m', role' := m[g := NewRoot(m[root])], role[g := Root];
    forall f, i: nat | f in m' && i < ENTRIES ensures EntryOk(m', role', f, i) {
      if f == g {
        NewRootEntry(m[root], i);
        assert EntryOk(m, role, root, i);
      } else {
        assert EntryOk(m, role, f, i);
      }
    }
    forall r, v: nat | r in roots + {g}
      ensures r in roots ==> Translate(m', r, v) == Translate(m, r, v)
      ensures v < GIB4 ==> IdentityAt(m', r, v)
      ensures Private(Index4(v)) ==> LeafRights(Translate(m', r, v))
    {
      NewRootTranslate(m, role, root, g, v, if r in roots then r else root);
      if v < GIB4 { assert IdentityAt(m, if r in roots then r else root, v) && Index4(v) == 0; }
      if Private(Index4(v)) && r in roots { assert LeafRights(Translate(m, r, v)); }
    }
  }

  // ----- 2 MiB leaves

  /** Virtual addresses in the same 2 MiB region of the 48-bit space. */
  predicate SameRegion(v: nat, a: nat) {
    Index4(v) == Index4(a) && Index3(v) == Index3(a) && Index2(v) == Index2(a)
  }

  /** Two walks through the same directory agree on the two upper indices. */
  lemma DirectoryUnique(m: Mem, role: Roles, r: nat, v: nat, r2: nat, v2: nat)
    requires TreeOk(m, role) && r in role && role[r].Root? && r2 in role && role[r2].Root?
    requires DirectoryOf(m, r, v) == DirectoryOf(m, r2, v2) != -1
    ensures Index4(v) == Index4(v2) && Index3(v) == Index3(v2)
    ensures DirectoryOf(m, r, v) in role && role[DirectoryOf(m, r, v)].Pd?
  {
    assert EntryOk(m, role, r, Index4(v)) && EntryOk(m, role, r2, Index4(v2));
    assert EntryOk(m, role, Entry(m, r, Index4(v)).frame, Index3(v));
    assert EntryOk(m, role, Entry(m, r2, Index4(v2)).frame, Index3(v2));
  }

  /** The 2 MiB region of `v` below 2^48 is given by the three upper indices. */
  lemma RegionOf(v: nat, a: nat)
    requires v < GIB4 && a < SIZE_48 && a % SIZE_2M == 0 && SameRegion(v, a)
    ensures a + v % SIZE_2M == v
  {
    assert Index4(v) == 0;
    assert a < SIZE_512G;
    assert v / SIZE_1G == a / SIZE_1G;
    SplitRegion(v);
    SplitRegion(a);
  }

  lemma SplitRegion(v: nat)
    requires v < SIZE_512G
    ensures v == v / SIZE_1G * SIZE_1G + v / SIZE_2M % ENTRIES * SIZE_2M + v % SIZE_2M
  {
    var q := v / SIZE_2M;
    assert v / SIZE_1G == q / ENTRIES;
  }

  /** Storing a 2 MiB leaf `e` for region `a`: the identity survives if the leaf is
      the identity of its region, or only changes rights of the leaf it replaces. */
  lemma HugeVm(m: Mem, role: Roles, roots: set<nat>, root: nat, a: nat, f: nat, e: Pte)
    requires VmOk(m, role, roots) && root in roots && DirectoryOf(m, root, a) == f && f in m
    requires e.present && e.huge && a < SIZE_48 && a % SIZE_2M == 0 && e.frame * PAGE == a
    requires !e.user || !Private(Index4(a))
    ensures VmOk(SetEntry(m, f, Index2(a), e), role, roots)
    ensures forall v: nat | SameRegion(v, a) ::
              var x := Translate(SetEntry(m, f, Index2(a), e), root, v); x.Mapped? && x.phys == a + v % SIZE_2M && x.leaf == e
    ensures forall r, v: nat | r in roots && !SameRegion(v, a) ::
              Translate(SetEntry(m, f, Index2(a), e), r, v) == Translate(m, r, v)
  {
    var m', i := SetEntry(m, f, Index2(a), e), Index2(a);
    DirectoryUnique(m, role, root, a, root, a);
    HugeStep(m, role, f, i, e, root, a);
    forall r, v: nat | r in roots
      ensures v < GIB4 ==> IdentityAt(m', r, v)
      ensures Private(Index4(v)) ==> LeafRights(Translate(m', r, v))
    {
      HugeAt(m, role, roots, root, a, f, e, r, v);
    }
    forall r, v: nat | r in roots && !SameRegion(v, a) ensures Translate(m', r, v) == Translate(m, r, v) {
      HugeStep(m, role, f, i, e, r, v);
      if DirectoryOf(m, r, v) == f { DirectoryUnique(m, role, r, v, root, a); }
    }
    forall v: nat | SameRegion(v, a)
      ensures var x := Translate(m', root, v); x.Mapped? && x.phys == a + v % SIZE_2M && x.leaf == e
    {
      HugeStep(m, role, f, i, e, root, v);
    }
  }

  lemma HugeAt(m: Mem, role: Roles, roots: set<nat>, root: nat, a: nat, f: nat, e: Pte, r: nat, v: nat)
    requires VmOk(m, role, roots) && root in roots && DirectoryOf(m, root, a) == f && f in m && role[f].Pd?
    requires e.present && e.huge && a < SIZE_48 && a % SIZE_2M == 0 && e.frame * PAGE == a
    requires (!e.user || !Private(Index4(a))) && r in roots
    ensures var m' := SetEntry(m, f, Index2(a), e);
      && (v < GIB4 ==> IdentityAt(m', r, v))
      && (Private(Index4(v)) ==> LeafRights(Translate(m', r, v)))
  {
    var m' := SetEntry(m, f, Index2(a), e);
    HugeStep(m, role, f, Index2(a), e, r, v);
    HugeWalk(m, role, f, Index2(a), e, r, v);
    if v < GIB4 { assert IdentityAt(m, r, v); }
    if Private(Index4(v)) { assert LeafRights(Translate(m, r, v)); }
    if DirectoryOf(m, r, v) == f && Index2(v) == Index2(a) {
      DirectoryUnique(m, role, r, v, root, a);
      if v < GIB4 { RegionOf(v, a); }
      assert EntryOk(m, role, r, Index4(v)) && EntryOk(m, role, Entry(m, r, Index4(v)).frame, Index3(v));
    }
  }

  lemma HugeWalk(m: Mem, role: Roles, f: nat, i: nat, e: Pte, r: nat, v: nat)
    requires TreeOk(m, role) && f in m && i < ENTRIES && role[f].Pd? && e.present && e.huge && r in role && role[r].Root?
    ensures WalkTo(SetEntry(m, f, i, e), r, v) ==
            if DirectoryOf(m, r, v) == f && Index2(v) == i then -1 else WalkTo(m, r, v)
  {
    PathRoles(m, role, r, v);
  }

  // ----- the boot tables

  /** Directory `i` of the boot tables maps the gibibyte `i` onto itself. */
  function BootDirectory(i: nat): Table {
    seq(ENTRIES, j requires 0 <= j < ENTRIES => Pte(i * ENTRIES * ENTRIES + j * ENTRIES, true, true, false, true, 0))
  }

  function BootPdpt(pds: seq<nat>): Table
    requires |pds| == 4
  {
    seq(ENTRIES, j requires 0 <= j < ENTRIES => if j < 4 then Pte(pds[j], true, true, false, false, 0) else NO_PTE)
  }

  function BootRoot(pdpt: nat): Table {
    seq(ENTRIES, j requires 0 <= j < ENTRIES => if j == 0 then Pte(pdpt, true, true, false, false, 0) else NO_PTE)
  }

  /** Six different frames hold the boot tables. */
  predicate BootFrames(root: nat, pdpt: nat, pds: seq<nat>) {
    && |pds| == 4 && root != pdpt && root !in pds && pdpt !in pds
    && forall i, j | 0 <= i < j < 4 :: pds[i] != pds[j]
  }

  function BootMem(root: nat, pdpt: nat, pds: seq<nat>): Mem
    requires |pds| == 4
  {
    map[root := BootRoot(pdpt), pdpt := BootPdpt(pds), pds[0] := BootDirectory(0), pds[1] := BootDirectory(1),
        pds[2] := BootDirectory(2), pds[3] := BootDirectory(3)]
  }

  function BootRoles(root: nat, pdpt: nat, pds: seq<nat>): Roles
    requires |pds| == 4
  {
    map[root := Root, pdpt := Pdpt(0, -1), pds[0] := Pd(pdpt, 0), pds[1] := Pd(pdpt, 1), pds[2] := Pd(pdpt, 2),
        pds[3] := Pd(pdpt, 3)]
  }

  lemma BootEntries(root: nat, pdpt: nat, pds: seq<nat>)
    requires BootFrames(root, pdpt, pds)
    ensures var m, role := BootMem(root, pdpt, pds), BootRoles(root, pdpt, pds);
      && m.Keys == role.Keys == {root, pdpt, pds[0], pds[1], pds[2], pds[3]}
      && m[root] == BootRoot(pdpt) && role[root] == Root
      && m[pdpt] == BootPdpt(pds) && role[pdpt] == Pdpt(0, -1)
      && forall i: nat | i < 4 :: m[pds[i]] == BootDirectory(i) && role[pds[i]] == Pd(pdpt, i)
  {}

  /** The boot tables are a tree, and map the first 4 GiB onto itself. */
  lemma BootVm(root: nat, pdpt: nat, pds: seq<nat>)
    requires BootFrames(root, pdpt, pds)
    ensures VmOk(BootMem(root, pdpt, pds), BootRoles(root, pdpt, pds), {root})
  {
    var m, role := BootMem(root, pdpt, pds), BootRoles(root, pdpt, pds);
    BootEntries(root, pdpt, pds);
    forall f, j: nat | f in m && j < ENTRIES ensures EntryOk(m, role, f, j) {
      BootEntryOk(root, pdpt, pds, f, j);
    }
    forall v: nat ensures v < GIB4 ==> IdentityAt(m, root, v)
      ensures Private(Index4(v)) ==> Translate(m, root, v).Fault?
    {
      BootTranslate(root, pdpt, pds, v);
    }
  }

  lemma BootEntryOk(root: nat, pdpt: nat, pds: seq<nat>, f: nat, j: nat)
    requires BootFrames(root, pdpt, pds) && f in BootMem(root, pdpt, pds) && j < ENTRIES
    ensures f in BootRoles(root, pdpt, pds)
    ensures EntryOk(BootMem(root, pdpt, pds), BootRoles(root, pdpt, pds), f, j)
  {
    BootEntries(root, pdpt, pds);
    if f == root || f == pdpt {
    } else {
      var i: nat :| i < 4 && f == pds[i];
    }
  }

  lemma BootTranslate(root: nat, pdpt: nat, pds: seq<nat>, v: nat)
    requires BootFrames(root, pdpt, pds)
    ensures v < GIB4 ==> IdentityAt(BootMem(root, pdpt, pds), root, v)
    ensures Private(Index4(v)) ==> Translate(BootMem(root, pdpt, pds), root, v).Fault?
  {
    BootEntries(root, pdpt, pds);
    if v < GIB4 {
      SplitRegion(v);
      assert Index4(v) == 0;
      BootIndex(v);
    }
  }

  lemma BootIndex(v: nat)
    requires v < GIB4
    ensures Index3(v) == v / SIZE_1G < 4
    ensures BootDirectory(Index3(v))[Index2(v)].frame * PAGE == Index3(v) * SIZE_1G + Index2(v) * SIZE_2M
  {}
}
