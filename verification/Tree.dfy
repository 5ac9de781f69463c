/** The vnode table as a tree: path lookup, the structural invariants of the
    table, and what create, unlink and rename do to the map from component
    lists to vnodes. */
module Tree {
  import opened Paths
  import opened Machine

  const MAX_CHILDREN: nat := 32

  datatype VNode = VNode(
    used: bool, isDir: bool, name: Name,
    data: seq<Byte>, size: nat,        // `data` is the allocated buffer; [] when there is none
    parent: int, children: seq<int>)

  type Table = seq<VNode>

  predicate Node(ns: Table, d: int) {
    0 <= d < |ns| && ns[d].used
  }

  /** The first child called `name`, or -1. */
  function FindChild(ns: Table, cs: seq<int>, name: Name): int {
    if cs == [] then -1
    else if 0 <= cs[0] < |ns| && ns[cs[0]].name == name then cs[0]
    else FindChild(ns, cs[1..], name)
  }

  /** One step of a walk: into directory `d` by name. */
  function Step(ns: Table, d: int, name: Name): int {
    if 0 <= d < |ns| && ns[d].isDir then FindChild(ns, ns[d].children, name) else -1
  }

  /** The vnode a component list leads to from the root, or -1. */
  function Lookup(ns: Table, q: seq<Name>): int {
    if q == [] then 0 else Step(ns, Lookup(ns, q[..|q| - 1]), q[|q| - 1])
  }

  // ----- invariants

  predicate NoDup(cs: seq<int>) {
    forall i, j | 0 <= i < j < |cs| :: cs[i] != cs[j]
  }

  /** `d`'s child list: distinct live vnodes other than the root that point back. */
  ghost predicate LinkedAt(ns: Table, d: int)
    requires Node(ns, d)
  {
    && |ns[d].children| <= MAX_CHILDREN && NoDup(ns[d].children)
    && (!ns[d].isDir ==> ns[d].children == [])
    && forall c | c in ns[d].children :: c != 0 && Node(ns, c) && ns[c].parent == d && GoodName(ns[c].name)
  }

  ghost predicate Linked(ns: Table) {
    && Node(ns, 0) && ns[0].isDir
    && forall d | Node(ns, d) :: LinkedAt(ns, d)
  }

  ghost predicate UniqueAt(ns: Table, d: int)
    requires Node(ns, d) && LinkedAt(ns, d)
  {
    forall c, c' | c in ns[d].children && c' in ns[d].children && ns[c].name == ns[c'].name :: c == c'
  }

  ghost predicate UniqueNames(ns: Table)
    requires Linked(ns)
  {
    forall d | Node(ns, d) :: UniqueAt(ns, d)
  }

  /** A well-formed table. */
  ghost predicate Wf(ns: Table) {
    Linked(ns) && UniqueNames(ns)
  }

  /** `c` hangs in some directory's child list. */
  ghost predicate Hangs(ns: Table, c: int) {
    exists d :: Node(ns, d) && c in ns[d].children
  }

  /** Every vnode in a child list can be reached from the root: no detached cycle. */
  ghost predicate Attached(ns: Table) {
    forall c | Hangs(ns, c) :: exists q :: Lookup(ns, q) == c
  }

  // ----- single steps

  lemma {:induction false} FindChildResult(ns: Table, cs: seq<int>, name: Name)
    requires forall c | c in cs :: 0 <= c < |ns|
    ensures var r := FindChild(ns, cs, name);
      if r == -1 then forall c | c in cs :: ns[c].name != name
      else r in cs && ns[r].name == name
  {
    if cs != [] {
      assert forall c | c in cs[1..] :: c in cs;
      FindChildResult(ns, cs[1..], name);
    }
  }

  /** In a linked table a step finds a child of that name and misses none. */
  lemma StepResult(ns: Table, d: int, name: Name)
    requires Linked(ns) && (d == -1 || Node(ns, d))
    ensures var r := Step(ns, d, name);
      if r == -1 then d == -1 || forall c | c in ns[d].children :: ns[c].name != name
      else d != -1 && ns[d].isDir && r in ns[d].children && ns[r].name == name && Node(ns, r) && r != 0 && ns[r].parent == d
  {
    if d != -1 {
      assert LinkedAt(ns, d);
      FindChildResult(ns, ns[d].children, name);
    }
  }

  /** With unique names a step is decided by membership. */
  lemma StepTo(ns: Table, d: int, name: Name, c: int)
    requires Wf(ns) && Node(ns, d) && c in ns[d].children && ns[c].name == name
    ensures Step(ns, d, name) == c
  {
    StepResult(ns, d, name);
    assert LinkedAt(ns, d) && UniqueAt(ns, d);
  }

  lemma StepMiss(ns: Table, d: int, name: Name)
    requires Linked(ns) && Node(ns, d) && forall c | c in ns[d].children :: ns[c].name != name
    ensures Step(ns, d, name) == -1
  {
    StepResult(ns, d, name);
  }

  lemma {:induction false} LookupNode(ns: Table, q: seq<Name>)
    requires Linked(ns)
    ensures Lookup(ns, q) == -1 || Node(ns, Lookup(ns, q))
  {
    if q != [] {
      LookupNode(ns, q[..|q| - 1]);
      StepResult(ns, Lookup(ns, q[..|q| - 1]), q[|q| - 1]);
    }
  }

  /** A nonempty path that resolves ends in a child of what its parent path resolves to. */
  lemma LookupEnd(ns: Table, q: seq<Name>)
    requires Linked(ns) && q != [] && Lookup(ns, q) != -1
    ensures var c := Lookup(ns, q); var d := Lookup(ns, q[..|q| - 1]);
      && c != 0 && Node(ns, c) && Node(ns, d) && ns[d].isDir
      && c in ns[d].children && ns[c].parent == d && ns[c].name == q[|q| - 1]
  {
    LookupNode(ns, q[..|q| - 1]);
    StepResult(ns, Lookup(ns, q[..|q| - 1]), q[|q| - 1]);
  }

  /** A vnode has at most one path. */
  lemma {:induction false} UniquePath(ns: Table, p: seq<Name>, q: seq<Name>)
    requires Linked(ns) && Lookup(ns, p) == Lookup(ns, q) != -1
    ensures p == q
    decreases |p|
  {
    if p != [] { LookupEnd(ns, p); }
    if q != [] { LookupEnd(ns, q); }
    if p != [] && q != [] {
      UniquePath(ns, p[..|p| - 1], q[..|q| - 1]);
      assert p == p[..|p| - 1] + [p[|p| - 1]];
      assert q == q[..|q| - 1] + [q[|q| - 1]];
    }
  }

  /** Every prefix of a path that resolves also resolves. */
  lemma {:induction false} PrefixResolves(ns: Table, p: seq<Name>, q: seq<Name>)
    requires Linked(ns) && p <= q && Lookup(ns, q) != -1
    ensures Lookup(ns, p) != -1
  {
    if p != q {
      LookupEnd(ns, q);
      PrefixResolves(ns, p, q[..|q| - 1]);
    }
  }

  lemma LookupSnoc(ns: Table, q: seq<Name>, name: Name)
    ensures Lookup(ns, q + [name]) == Step(ns, Lookup(ns, q), name)
  {
    assert (q + [name])[..|q|] == q;
  }

  // ----- removing from a child list

  /** The child list without the first occurrence of `c`. */
  function Without(cs: seq<int>, c: int): seq<int> {
    if cs == [] then [] else if cs[0] == c then cs[1..] else [cs[0]] + Without(cs[1..], c)
  }

  lemma {:induction false} WithoutMembers(cs: seq<int>, c: int)
    requires NoDup(cs)
    ensures NoDup(Without(cs, c)) && |Without(cs, c)| == |cs| - (if c in cs then 1 else 0)
    ensures forall x :: x in Without(cs, c) <==> x in cs && x != c
  {
    if cs != [] {
      var rest := cs[1..];
      assert NoDup(rest) by { assert forall i | 0 <= i < |rest| :: rest[i] == cs[i + 1]; }
      assert forall x :: x in cs <==> x == cs[0] || x in rest;
      assert cs[0] !in rest;
      WithoutMembers(rest, c);
      if cs[0] != c { NoDupCons(cs[0], Without(rest, c)); }
    }
  }

  lemma NoDupCons(x: int, cs: seq<int>)
    requires NoDup(cs) && x !in cs
    ensures NoDup([x] + cs)
  {}

  lemma NoDupSnoc(x: int, cs: seq<int>)
    requires NoDup(cs) && x !in cs
    ensures NoDup(cs + [x])
  {}

  // ----- rename

  /** The table after a successful rename of vnode `idx` to `name` in directory `np`. */
  function Renamed(ns: Table, idx: int, np: int, name: Name): Table
    requires Node(ns, idx) && Node(ns, np) && Node(ns, ns[idx].parent)
  {
    var op := ns[idx].parent;
    var cut := ns[op := ns[op].(children := Without(ns[op].children, idx))];
    var hung := cut[np := cut[np].(children := cut[np].children + [idx])];
    hung[idx := hung[idx].(name := name, parent := np)]
  }

  /** What the rename operation has checked before it changes anything. */
  ghost predicate CanRename(ns: Table, idx: int, np: int, name: Name) {
    && Linked(ns) && Node(ns, idx) && idx != 0 && Node(ns, np) && ns[np].isDir && GoodName(name)
    && Node(ns, ns[idx].parent) && idx in ns[ns[idx].parent].children
    && (np == ns[idx].parent || |ns[np].children| < MAX_CHILDREN)
  }

  /** Node by node: names, parents and child lists of the renamed table. */
  lemma RenamedNode(ns: Table, idx: int, np: int, name: Name, d: int)
    requires CanRename(ns, idx, np, name) && 0 <= d < |ns|
    ensures var ns' := Renamed(ns, idx, np, name); var op := ns[idx].parent;
      && |ns'| == |ns|
      && ns'[d].used == ns[d].used && ns'[d].isDir == ns[d].isDir
      && ns'[d].data == ns[d].data && ns'[d].size == ns[d].size
      && ns'[d].name == (if d == idx then name else ns[d].name)
      && ns'[d].parent == (if d == idx then np else ns[d].parent)
      && ns'[d].children == (if d == op then Without(ns[d].children, idx) else ns[d].children) + (if d == np then [idx] else [])
  {
    var op := ns[idx].parent;
    assert d != np ==> Renamed(ns, idx, np, name)[d].children + [] == Renamed(ns, idx, np, name)[d].children;
  }

  lemma RenamedMembers(ns: Table, idx: int, np: int, name: Name, d: int)
    requires CanRename(ns, idx, np, name) && Node(ns, d)
    ensures var cs := Renamed(ns, idx, np, name)[d].children;
      && NoDup(cs) && |cs| <= MAX_CHILDREN
      && forall c :: c in cs <==> (c in ns[d].children && c != idx) || (d == np && c == idx)
  {
    RenamedNode(ns, idx, np, name, d);
    assert LinkedAt(ns, d);
    WithoutMembers(ns[d].children, idx);
    var op := ns[idx].parent;
    var kept := if d == op then Without(ns[d].children, idx) else ns[d].children;
    assert idx !in kept;
    NoDupSnoc(idx, kept);
  }

  /** Rename keeps parent and child links in agreement, whatever the destination. */
  lemma RenamedLinked(ns: Table, idx: int, np: int, name: Name)
    requires CanRename(ns, idx, np, name)
    ensures Linked(Renamed(ns, idx, np, name))
  {
    var ns' := Renamed(ns, idx, np, name);
    RenamedNode(ns, idx, np, name, 0);
    forall d | Node(ns', d) ensures LinkedAt(ns', d) {
      RenamedNode(ns, idx, np, name, d);
      RenamedMembers(ns, idx, np, name, d);
      assert LinkedAt(ns, d);
      if !ns[d].isDir { assert ns[d].children == []; assert Without([], idx) == []; }
      forall c | c in ns'[d].children
        ensures c != 0 && Node(ns', c) && ns'[c].parent == d && GoodName(ns'[c].name)
      {
        if c != idx { RenamedNode(ns, idx, np, name, c); } else { RenamedNode(ns, idx, np, name, idx); }
      }
    }
  }

  /** Rename keeps sibling names unique exactly when the new name is free in its
      directory, or is the one that the vnode has there already. */
  lemma RenamedUniqueIff(ns: Table, idx: int, np: int, name: Name)
    requires CanRename(ns, idx, np, name) && Wf(ns)
    ensures Linked(Renamed(ns, idx, np, name))
    ensures Wf(Renamed(ns, idx, np, name)) <==> Step(ns, np, name) == -1 || Step(ns, np, name) == idx
  {
    var ns', c := Renamed(ns, idx, np, name), Step(ns, np, name);
    RenamedLinked(ns, idx, np, name);
    if c == -1 || c == idx {
      RenamedUnique(ns, idx, np, name);
    } else {
      StepResult(ns, np, name);
      RenamedMembers(ns, idx, np, name, np);
      RenamedNode(ns, idx, np, name, c);
      RenamedNode(ns, idx, np, name, idx);
      RenamedNode(ns, idx, np, name, np);
      assert c in ns'[np].children && idx in ns'[np].children && !UniqueAt(ns', np);
    }
  }

  lemma RenamedUnique(ns: Table, idx: int, np: int, name: Name)
    requires CanRename(ns, idx, np, name) && Wf(ns) && (Step(ns, np, name) == -1 || Step(ns, np, name) == idx)
    ensures Wf(Renamed(ns, idx, np, name))
  {
    var ns' := Renamed(ns, idx, np, name);
    RenamedLinked(ns, idx, np, name);
    StepResult(ns, np, name);
    forall d | Node(ns', d) ensures UniqueAt(ns', d) {
      RenamedNode(ns, idx, np, name, d);
      RenamedMembers(ns, idx, np, name, d);
      assert UniqueAt(ns, d);
      assert LinkedAt(ns, d);
      forall c, c' | c in ns'[d].children && c' in ns'[d].children && ns'[c].name == ns'[c'].name
        ensures c == c'
      {
        RenamedNode(ns, idx, np, name, c);
        RenamedNode(ns, idx, np, name, c');
      }
    }
  }

  /** A step in the renamed table: one entry appears, one disappears. */
  lemma RenamedStep(ns: Table, idx: int, np: int, name: Name, d: int, x: Name)
    requires CanRename(ns, idx, np, name) && Wf(ns) && Step(ns, np, name) == -1 && Node(ns, d)
    ensures Step(Renamed(ns, idx, np, name), d, x) ==
            if d == np && x == name then idx
            else if d == ns[idx].parent && x == ns[idx].name then -1
            else Step(ns, d, x)
  {
    var ns' := Renamed(ns, idx, np, name);
    RenamedUnique(ns, idx, np, name);
    RenamedNode(ns, idx, np, name, d);
    RenamedNode(ns, idx, np, name, idx);
    RenamedMembers(ns, idx, np, name, d);
    assert LinkedAt(ns, d) && UniqueAt(ns, d);
    StepResult(ns, d, x);
    var r := Step(ns, d, x);
    if d == np && x == name {
      StepTo(ns', d, x, idx);
    } else if r != -1 && r != idx {
      RenamedNode(ns, idx, np, name, r);
      StepTo(ns', d, x, r);
    } else {
      forall c | c in ns'[d].children ensures ns'[c].name != x {
        if c != idx { RenamedNode(ns, idx, np, name, c); }
      }
      StepMiss(ns', d, x);
    }
  }

  /** A rename to the name the vnode has already changes no step. */
  lemma RenamedInPlace(ns: Table, idx: int, np: int, name: Name, d: int, x: Name)
    requires CanRename(ns, idx, np, name) && Wf(ns) && Step(ns, np, name) == idx && Node(ns, d)
    ensures Step(Renamed(ns, idx, np, name), d, x) == Step(ns, d, x)
  {
    var ns', r := Renamed(ns, idx, np, name), Step(ns, d, x);
    RenamedUnique(ns, idx, np, name);
    StepResult(ns, np, name);
    RenamedNode(ns, idx, np, name, d);
    RenamedNode(ns, idx, np, name, idx);
    RenamedMembers(ns, idx, np, name, d);
    StepResult(ns, d, x);
    assert LinkedAt(ns, d);
    if r != -1 {
      RenamedNode(ns, idx, np, name, r);
      StepTo(ns', d, x, r);
    } else {
      forall c | c in ns'[d].children ensures ns'[c].name != x { RenamedNode(ns, idx, np, name, c); }
      StepMiss(ns', d, x);
    }
  }

  lemma {:induction false} RenameInPlace(ns: Table, idx: int, np: int, name: Name, q: seq<Name>)
    requires CanRename(ns, idx, np, name) && Wf(ns) && Step(ns, np, name) == idx
    ensures Lookup(Renamed(ns, idx, np, name), q) == Lookup(ns, q)
  {
    if q != [] {
      var p, x := q[..|q| - 1], q[|q| - 1];
      RenameInPlace(ns, idx, np, name, p);
      LookupNode(ns, p);
      if Lookup(ns, p) != -1 { RenamedInPlace(ns, idx, np, name, Lookup(ns, p), x); }
    }
  }

  /** A rename of the vnode at `oldc` to the free place `newp + [name]`. */
  ghost predicate RenameAt(ns: Table, oldc: seq<Name>, newp: seq<Name>, name: Name) {
    var idx, np := Lookup(ns, oldc), Lookup(ns, newp);
    && Wf(ns) && idx > 0 && np != -1 && Step(ns, np, name) == -1
    && CanRename(ns, idx, np, name)
  }

  ghost function AfterRename(ns: Table, oldc: seq<Name>, newp: seq<Name>, name: Name): Table
    requires RenameAt(ns, oldc, newp, name)
  {
    Renamed(ns, Lookup(ns, oldc), Lookup(ns, newp), name)
  }

  /** Where a path of the renamed table pointed before. */
  ghost function Rerooted(ns: Table, oldc: seq<Name>, newc: seq<Name>, q: seq<Name>): int {
    if newc <= q then Lookup(ns, oldc + q[|newc|..])
    else if oldc <= q then -1
    else Lookup(ns, q)
  }

  /** Facts about the two ends of a rename that the step cases need. */
  lemma RenameEnds(ns: Table, oldc: seq<Name>, newp: seq<Name>, name: Name)
    requires RenameAt(ns, oldc, newp, name)
    ensures oldc != [] && Lookup(ns, oldc[..|oldc| - 1]) == ns[Lookup(ns, oldc)].parent
    ensures ns[Lookup(ns, oldc)].name == oldc[|oldc| - 1]
    ensures Lookup(ns, newp + [name]) == -1
    ensures !(newp + [name] <= oldc)
  {
    LookupEnd(ns, oldc);
    LookupSnoc(ns, newp, name);
    if newp + [name] <= oldc { PrefixResolves(ns, newp + [name], oldc); }
  }

  /** One step further along a path, for a destination outside the moved subtree. */
  lemma RerootStep(ns: Table, oldc: seq<Name>, newp: seq<Name>, name: Name, p: seq<Name>, x: Name)
    requires RenameAt(ns, oldc, newp, name) && !(oldc <= newp)
    requires Lookup(AfterRename(ns, oldc, newp, name), p) == Rerooted(ns, oldc, newp + [name], p)
    ensures Lookup(AfterRename(ns, oldc, newp, name), p + [x]) == Rerooted(ns, oldc, newp + [name], p + [x])
  {
    var idx, np, newc := Lookup(ns, oldc), Lookup(ns, newp), newp + [name];
    var ns' := AfterRename(ns, oldc, newp, name);
    var m := Lookup(ns', p);
    RenameEnds(ns, oldc, newp, name);
    LookupSnoc(ns', p, x);
    if newc <= p {
      var t := oldc + p[|newc|..];
      TailSnoc(oldc, p, x, |newc|);
      LookupSnoc(ns, t, x);
      StepInside(ns, oldc, newp, name, t, x);
    } else if oldc <= p {
      PrefixSnoc(newc, newp, name, p, x);
    } else {
      LookupSnoc(ns, p, x);
      StepOutside(ns, oldc, newp, name, p, x);
    }
  }

  lemma TailSnoc(a: seq<Name>, p: seq<Name>, x: Name, n: nat)
    requires n <= |p|
    ensures a + (p + [x])[n..] == a + p[n..] + [x]
  {}

  /** Below the moved vnode nothing changes. */
  lemma StepInside(ns: Table, oldc: seq<Name>, newp: seq<Name>, name: Name, t: seq<Name>, x: Name)
    requires RenameAt(ns, oldc, newp, name) && !(oldc <= newp) && oldc <= t
    ensures Step(AfterRename(ns, oldc, newp, name), Lookup(ns, t), x) == Step(ns, Lookup(ns, t), x)
  {
    var m := Lookup(ns, t);
    LookupNode(ns, t);
    RenameEnds(ns, oldc, newp, name);
    if m != -1 {
      if m == Lookup(ns, newp) { UniquePath(ns, t, newp); }
      if m == Lookup(ns, oldc[..|oldc| - 1]) { UniquePath(ns, t, oldc[..|oldc| - 1]); }
      RenamedStep(ns, Lookup(ns, oldc), Lookup(ns, newp), name, m, x);
    }
  }

  /** A list ending in `y` is a prefix of `p + [x]` only inside `p` or as all of it. */
  lemma PrefixSnoc(a: seq<Name>, b: seq<Name>, y: Name, p: seq<Name>, x: Name)
    requires a == b + [y]
    ensures a <= p + [x] <==> a <= p || (b == p && y == x)
  {
    if a <= p + [x] && !(a <= p) {
      assert |a| == |p| + 1;
      assert b == a[..|b|] == (p + [x])[..|p|] == p;
      assert y == a[|b|] == (p + [x])[|p|];
    }
  }

  lemma NothingAfter(oldc: seq<Name>, newc: seq<Name>)
    ensures oldc + newc[|newc|..] == oldc
  {}

  /** Outside it, exactly the old entry goes and the new entry comes. */
  lemma StepOutside(ns: Table, oldc: seq<Name>, newp: seq<Name>, name: Name, p: seq<Name>, x: Name)
    requires RenameAt(ns, oldc, newp, name) && !(oldc <= newp)
    requires !(newp + [name] <= p) && !(oldc <= p)
    ensures Step(AfterRename(ns, oldc, newp, name), Lookup(ns, p), x) == Rerooted(ns, oldc, newp + [name], p + [x])
  {
    OutsideNode(ns, oldc, newp, name, p, x);
    RerootedOutside(ns, oldc, newp, name, p, x);
  }

  /** The same by path. */
  lemma RerootedOutside(ns: Table, oldc: seq<Name>, newp: seq<Name>, name: Name, p: seq<Name>, x: Name)
    requires oldc != [] && !(newp + [name] <= p) && !(oldc <= p)
    ensures Rerooted(ns, oldc, newp + [name], p + [x]) ==
            if p == newp && x == name then Lookup(ns, oldc)
            else if p == oldc[..|oldc| - 1] && x == oldc[|oldc| - 1] then -1
            else Step(ns, Lookup(ns, p), x)
  {
    var oldp, y, newc := oldc[..|oldc| - 1], oldc[|oldc| - 1], newp + [name];
    PrefixSnoc(newc, newp, name, p, x);
    assert oldc == oldp + [y];
    PrefixSnoc(oldc, oldp, y, p, x);
    LookupSnoc(ns, p, x);
    NothingAfter(oldc, newc);
  }

  /** The same by vnode: which step of the renamed table differs. */
  lemma OutsideNode(ns: Table, oldc: seq<Name>, newp: seq<Name>, name: Name, p: seq<Name>, x: Name)
    requires RenameAt(ns, oldc, newp, name)
    ensures oldc != []
    ensures Step(AfterRename(ns, oldc, newp, name), Lookup(ns, p), x) ==
            if p == newp && x == name then Lookup(ns, oldc)
            else if p == oldc[..|oldc| - 1] && x == oldc[|oldc| - 1] then -1
            else Step(ns, Lookup(ns, p), x)
  {
    var idx, np, m := Lookup(ns, oldc), Lookup(ns, newp), Lookup(ns, p);
    LookupNode(ns, p);
    RenameEnds(ns, oldc, newp, name);
    var oldp := oldc[..|oldc| - 1];
    if m != -1 {
      RenamedStep(ns, idx, np, name, m, x);
      if m == np { UniquePath(ns, p, newp); }
      if m == ns[idx].parent { UniquePath(ns, p, oldp); }
    }
  }

  /** Rename re-roots exactly the paths under the old one and changes no other. */
  lemma {:induction false} RenameReroots(ns: Table, oldc: seq<Name>, newp: seq<Name>, name: Name, q: seq<Name>)
    requires RenameAt(ns, oldc, newp, name) && !(oldc <= newp)
    ensures Lookup(AfterRename(ns, oldc, newp, name), q) == Rerooted(ns, oldc, newp + [name], q)
  {
    if q == [] {
      RenameEnds(ns, oldc, newp, name);
    } else {
      var p, x := q[..|q| - 1], q[|q| - 1];
      RenameReroots(ns, oldc, newp, name, p);
      assert q == p + [x];
      RerootStep(ns, oldc, newp, name, p, x);
    }
  }

  // ----- when rename keeps the tree in one piece

  /** After a rename into its own subtree the walk from the root never enters that subtree. */
  lemma {:induction false} DetachedUnreached(ns: Table, oldc: seq<Name>, newp: seq<Name>, name: Name, q: seq<Name>)
    requires RenameAt(ns, oldc, newp, name) && oldc <= newp
    ensures var m := Lookup(AfterRename(ns, oldc, newp, name), q);
      m == -1 || (m == Lookup(ns, q) && !(oldc <= q))
  {
    RenameEnds(ns, oldc, newp, name);
    if q != [] {
      var p, x := q[..|q| - 1], q[|q| - 1];
      assert q == p + [x];
      var ns' := AfterRename(ns, oldc, newp, name);
      DetachedUnreached(ns, oldc, newp, name, p);
      if Lookup(ns', p) != -1 {
        var oldp, y := oldc[..|oldc| - 1], oldc[|oldc| - 1];
        assert oldc == oldp + [y];
        PrefixSnoc(oldc, oldp, y, p, x);
        OutsideNode(ns, oldc, newp, name, p, x);
      }
    }
  }

  lemma Regrafted(oldc: seq<Name>, newc: seq<Name>, p: seq<Name>)
    requires oldc <= p
    ensures newc <= newc + p[|oldc|..]
    ensures oldc + (newc + p[|oldc|..])[|newc|..] == p
  {}

  /** A vnode of the renamed table that was attached still is, when the destination is outside. */
  lemma StillReached(ns: Table, oldc: seq<Name>, newp: seq<Name>, name: Name, p: seq<Name>) returns (q: seq<Name>)
    requires RenameAt(ns, oldc, newp, name) && !(oldc <= newp) && Lookup(ns, p) != -1
    ensures Lookup(AfterRename(ns, oldc, newp, name), q) == Lookup(ns, p)
  {
    var newc := newp + [name];
    q := if oldc <= p then newc + p[|oldc|..] else p;
    RenameEnds(ns, oldc, newp, name);
    if oldc <= p {
      Regrafted(oldc, newc, p);
    } else if newc <= p {
      PrefixResolves(ns, newc, p);
    }
    RenameReroots(ns, oldc, newp, name, q);
  }

  /** The tree stays in one piece exactly when the destination directory is not
      the moved vnode or below it. */
  lemma RenameAttachedIff(ns: Table, oldc: seq<Name>, newp: seq<Name>, name: Name)
    requires RenameAt(ns, oldc, newp, name) && Attached(ns)
    ensures Wf(AfterRename(ns, oldc, newp, name))
    ensures Attached(AfterRename(ns, oldc, newp, name)) <==> !(oldc <= newp)
  {
    var idx, np := Lookup(ns, oldc), Lookup(ns, newp);
    var ns' := AfterRename(ns, oldc, newp, name);
    RenamedUnique(ns, idx, np, name);
    if oldc <= newp {
      RenamedNode(ns, idx, np, name, np);
      RenamedMembers(ns, idx, np, name, np);
      assert Hangs(ns', idx);
      forall q ensures Lookup(ns', q) != idx {
        DetachedUnreached(ns, oldc, newp, name, q);
        if Lookup(ns', q) == idx { UniquePath(ns, oldc, q); }
      }
    } else {
      forall c | Hangs(ns', c) ensures exists q :: Lookup(ns', q) == c {
        var d :| Node(ns', d) && c in ns'[d].children;
        RenamedNode(ns, idx, np, name, d);
        RenamedMembers(ns, idx, np, name, d);
        assert Hangs(ns, c);
        var p :| Lookup(ns, p) == c;
        assert c != -1;
        var q := StillReached(ns, oldc, newp, name, p);
      }
    }
  }

  /** A rename leaves a well-formed tree in one piece exactly when it moves the vnode to a
      free name outside its own subtree, or leaves it where it is. */
  lemma RenameTidyIff(ns: Table, oldc: seq<Name>, newp: seq<Name>, name: Name)
    requires Wf(ns) && Attached(ns) && Lookup(ns, oldc) > 0 && CanRename(ns, Lookup(ns, oldc), Lookup(ns, newp), name)
    ensures var idx := Lookup(ns, oldc); var ns' := Renamed(ns, idx, Lookup(ns, newp), name);
      Wf(ns') && Attached(ns') <==> Lookup(ns, newp + [name]) == idx || (Lookup(ns, newp + [name]) == -1 && !(oldc <= newp))
  {
    var idx, np := Lookup(ns, oldc), Lookup(ns, newp);
    var ns' := Renamed(ns, idx, np, name);
    LookupSnoc(ns, newp, name);
    RenamedUniqueIff(ns, idx, np, name);
    if Step(ns, np, name) == -1 {
      RenameAttachedIff(ns, oldc, newp, name);
    } else if Step(ns, np, name) == idx {
      StepResult(ns, np, name);
      forall c | Hangs(ns', c) ensures exists q :: Lookup(ns', q) == c {
        var d :| Node(ns', d) && c in ns'[d].children;
        RenamedNode(ns, idx, np, name, d);
        RenamedMembers(ns, idx, np, name, d);
        assert Hangs(ns, c);
        var p :| Lookup(ns, p) == c;
        RenameInPlace(ns, idx, np, name, p);
      }
    }
  }

  // ----- create

  /** A new vnode `idx` in directory `d`; a full directory does not get the link. */
  function Created(ns: Table, idx: int, d: int, node: VNode): Table
    requires 0 <= idx < |ns| && 0 <= d < |ns|
  {
    var placed := ns[idx := node];
    if |placed[d].children| < MAX_CHILDREN
    then placed[d := placed[d].(children := placed[d].children + [idx])]
    else placed
  }

  ghost predicate CanPlace(ns: Table, idx: int, d: int, node: VNode) {
    && Linked(ns) && 0 < idx < |ns| && !ns[idx].used && Node(ns, d) && ns[d].isDir
    && node.used && node.children == [] && node.parent == d && GoodName(node.name)
  }

  /** Create on a well-formed table with the new vnode's name free in its directory. */
  ghost predicate CanCreate(ns: Table, idx: int, d: int, node: VNode) {
    CanPlace(ns, idx, d, node) && Wf(ns) && Step(ns, d, node.name) == -1
  }

  lemma CreatedNode(ns: Table, idx: int, d: int, node: VNode, e: int)
    requires CanPlace(ns, idx, d, node) && 0 <= e < |ns|
    ensures var ns' := Created(ns, idx, d, node);
      && |ns'| == |ns|
      && (e == idx ==> ns'[e] == node)
      && (e != idx ==> ns'[e] == ns[e].(children := ns'[e].children))
      && (e != idx ==> ns'[e].children == ns[e].children + AddedChild(ns, idx, d, e))
  {}

  function AddedChild(ns: Table, idx: int, d: int, e: int): seq<int>
    requires 0 <= d < |ns|
  {
    if e == d && |ns[d].children| < MAX_CHILDREN then [idx] else []
  }

  lemma CreatedLinked(ns: Table, idx: int, d: int, node: VNode)
    requires CanPlace(ns, idx, d, node)
    ensures Linked(Created(ns, idx, d, node))
  {
    var ns' := Created(ns, idx, d, node);
    CreatedNode(ns, idx, d, node, 0);
    forall e | Node(ns', e) ensures LinkedAt(ns', e) { CreatedLinkedAt(ns, idx, d, node, e); }
  }

  lemma CreatedLinkedAt(ns: Table, idx: int, d: int, node: VNode, e: int)
    requires CanPlace(ns, idx, d, node) && Node(Created(ns, idx, d, node), e)
    ensures LinkedAt(Created(ns, idx, d, node), e)
  {
    var ns' := Created(ns, idx, d, node);
    CreatedNode(ns, idx, d, node, e);
    if e != idx {
      assert LinkedAt(ns, e);
      assert idx !in ns[e].children;
      NoDupSnoc(idx, ns[e].children);
      CreatedNode(ns, idx, d, node, idx);
      forall c | c in ns[e].children ensures Node(ns', c) && ns'[c].parent == ns[c].parent && ns'[c].name == ns[c].name {
        CreatedNode(ns, idx, d, node, c);
      }
    }
  }

  /** Sibling names stay unique exactly when the stored name was free, or the
      directory is full so that the new vnode is not linked at all. */
  lemma CreatedUniqueIff(ns: Table, idx: int, d: int, node: VNode)
    requires CanPlace(ns, idx, d, node) && Wf(ns)
    ensures Linked(Created(ns, idx, d, node))
    ensures Wf(Created(ns, idx, d, node)) <==> Step(ns, d, node.name) == -1 || |ns[d].children| >= MAX_CHILDREN
  {
    var ns' := Created(ns, idx, d, node);
    CreatedLinked(ns, idx, d, node);
    StepResult(ns, d, node.name);
    CreatedNode(ns, idx, d, node, d);
    CreatedNode(ns, idx, d, node, idx);
    if Step(ns, d, node.name) == -1 || |ns[d].children| >= MAX_CHILDREN {
      forall e | Node(ns', e) ensures UniqueAt(ns', e) { CreatedUniqueAt(ns, idx, d, node, e); }
    } else {
      var c := Step(ns, d, node.name);
      CreatedNode(ns, idx, d, node, c);
      assert c in ns'[d].children && idx in ns'[d].children && !UniqueAt(ns', d);
    }
  }

  lemma CreatedUniqueAt(ns: Table, idx: int, d: int, node: VNode, e: int)
    requires CanPlace(ns, idx, d, node) && Wf(ns) && Node(Created(ns, idx, d, node), e)
    requires Step(ns, d, node.name) == -1 || |ns[d].children| >= MAX_CHILDREN
    ensures var ns' := Created(ns, idx, d, node); LinkedAt(ns', e) && UniqueAt(ns', e)
  {
    var ns' := Created(ns, idx, d, node);
    CreatedLinkedAt(ns, idx, d, node, e);
    CreatedNode(ns, idx, d, node, e);
    StepResult(ns, d, node.name);
    if e != idx {
      assert LinkedAt(ns, e) && UniqueAt(ns, e);
      CreatedNode(ns, idx, d, node, idx);
      forall c | c in ns[e].children ensures ns'[c].name == ns[c].name {
        CreatedNode(ns, idx, d, node, c);
      }
    }
  }

  lemma CreatedStep(ns: Table, idx: int, d: int, node: VNode, e: int, x: Name)
    requires CanCreate(ns, idx, d, node) && Node(ns, e)
    ensures Step(Created(ns, idx, d, node), e, x) ==
            if e == d && x == node.name && |ns[d].children| < MAX_CHILDREN then idx else Step(ns, e, x)
  {
    var ns' := Created(ns, idx, d, node);
    CreatedUniqueIff(ns, idx, d, node);
    CreatedNode(ns, idx, d, node, e);
    CreatedNode(ns, idx, d, node, idx);
    StepResult(ns, e, x);
    assert LinkedAt(ns, e);
    var r := Step(ns, e, x);
    if e == d && x == node.name && |ns[d].children| < MAX_CHILDREN {
      StepTo(ns', e, x, idx);
    } else if r != -1 {
      CreatedNode(ns, idx, d, node, r);
      StepTo(ns', e, x, r);
    } else {
      forall c | c in ns'[e].children ensures ns'[c].name != x {
        if c != idx { CreatedNode(ns, idx, d, node, c); }
      }
      StepMiss(ns', e, x);
    }
  }

  /** Creating adds exactly one path, and none when the directory is full. */
  lemma {:induction false} CreateAddsPath(ns: Table, idx: int, dirc: seq<Name>, node: VNode, q: seq<Name>)
    requires CanCreate(ns, idx, Lookup(ns, dirc), node)
    ensures Lookup(Created(ns, idx, Lookup(ns, dirc), node), q) ==
            if q == dirc + [node.name] && |ns[Lookup(ns, dirc)].children| < MAX_CHILDREN then idx else Lookup(ns, q)
  {
    var d := Lookup(ns, dirc);
    var ns' := Created(ns, idx, d, node);
    LookupSnoc(ns, dirc, node.name);
    if q != [] {
      var p, x := q[..|q| - 1], q[|q| - 1];
      assert q == p + [x];
      CreateAddsPath(ns, idx, dirc, node, p);
      LookupNode(ns, p);
      if p == dirc + [node.name] && |ns[d].children| < MAX_CHILDREN {
        CreatedNode(ns, idx, d, node, idx);
        assert Step(ns', idx, x) == -1;
      } else if Lookup(ns, p) != -1 {
        CreatedStep(ns, idx, d, node, Lookup(ns, p), x);
        if Lookup(ns, p) == d { UniquePath(ns, p, dirc); }
      }
    }
  }

  /** The first child of a name is not changed by one more child at the end. */
  lemma {:induction false} FindChildAppend(ns: Table, ns': Table, cs: seq<int>, c: int, x: Name)
    requires |ns'| == |ns| && 0 <= c < |ns| && forall i | i in cs :: 0 <= i < |ns| && ns'[i].name == ns[i].name
    ensures FindChild(ns', cs, x) == FindChild(ns, cs, x)
    ensures FindChild(ns', cs + [c], x) ==
            if FindChild(ns, cs, x) != -1 then FindChild(ns, cs, x) else if ns'[c].name == x then c else -1
  {
    if cs == [] {
      assert [] + [c] == [c] && [c][1..] == [];
    } else {
      assert (cs + [c])[1..] == cs[1..] + [c];
      assert forall i | i in cs[1..] :: i in cs;
      FindChildAppend(ns, ns', cs[1..], c, x);
    }
  }

  /** Creating under a taken name or in a full directory changes no path. */
  lemma {:induction false} CreateKeepsPaths(ns: Table, idx: int, d: int, node: VNode, q: seq<Name>)
    requires CanPlace(ns, idx, d, node) && (Step(ns, d, node.name) != -1 || |ns[d].children| >= MAX_CHILDREN)
    ensures Lookup(Created(ns, idx, d, node), q) == Lookup(ns, q)
  {
    if q != [] {
      var p, x := q[..|q| - 1], q[|q| - 1];
      CreateKeepsPaths(ns, idx, d, node, p);
      LookupNode(ns, p);
      if Lookup(ns, p) != -1 { CreateKeepsStep(ns, idx, d, node, Lookup(ns, p), x); }
    }
  }

  lemma CreateKeepsStep(ns: Table, idx: int, d: int, node: VNode, e: int, x: Name)
    requires CanPlace(ns, idx, d, node) && (Step(ns, d, node.name) != -1 || |ns[d].children| >= MAX_CHILDREN) && Node(ns, e)
    ensures Step(Created(ns, idx, d, node), e, x) == Step(ns, e, x)
  {
    var ns' := Created(ns, idx, d, node);
    CreatedNode(ns, idx, d, node, e);
    CreatedNode(ns, idx, d, node, idx);
    assert LinkedAt(ns, e);
    forall c | c in ns[e].children ensures 0 <= c < |ns| && ns'[c].name == ns[c].name { CreatedNode(ns, idx, d, node, c); }
    FindChildAppend(ns, ns', ns[e].children, idx, x);
    assert ns[e].children + [] == ns[e].children;
  }

  /** A creation leaves a well-formed tree in one piece exactly when the name is free or
      the directory full. */
  lemma CreateTidyIff(ns: Table, idx: int, dirc: seq<Name>, node: VNode)
    requires CanPlace(ns, idx, Lookup(ns, dirc), node) && Wf(ns) && Attached(ns)
    ensures var ns' := Created(ns, idx, Lookup(ns, dirc), node);
      Wf(ns') && Attached(ns') <==>
      Lookup(ns, dirc + [node.name]) == -1 || |ns[Lookup(ns, dirc)].children| >= MAX_CHILDREN
  {
    var d := Lookup(ns, dirc);
    var ns' := Created(ns, idx, d, node);
    LookupSnoc(ns, dirc, node.name);
    CreatedUniqueIff(ns, idx, d, node);
    if Step(ns, d, node.name) == -1 {
      CreateAttached(ns, idx, dirc, node);
    } else if |ns[d].children| >= MAX_CHILDREN {
      forall c | Hangs(ns', c) ensures exists q :: Lookup(ns', q) == c {
        var e :| Node(ns', e) && c in ns'[e].children;
        CreatedNode(ns, idx, d, node, e);
        assert Hangs(ns, c);
        var p :| Lookup(ns, p) == c;
        CreateKeepsPaths(ns, idx, d, node, p);
      }
    }
  }

  // ----- unlink

  /** The table after removing vnode `idx`. */
  function Unlinked(ns: Table, idx: int): Table
    requires Node(ns, idx) && Node(ns, ns[idx].parent)
  {
    var op := ns[idx].parent;
    var cut := ns[op := ns[op].(children := Without(ns[op].children, idx))];
    cut[idx := cut[idx].(data := [], used := false)]
  }

  ghost predicate CanUnlink(ns: Table, idx: int) {
    && Linked(ns) && Node(ns, idx) && idx != 0 && ns[idx].children == []
    && Node(ns, ns[idx].parent) && idx in ns[ns[idx].parent].children
  }

  lemma UnlinkedNode(ns: Table, idx: int, e: int)
    requires CanUnlink(ns, idx) && 0 <= e < |ns|
    ensures var ns' := Unlinked(ns, idx);
      && |ns'| == |ns| && !ns'[idx].used
      && (e != idx ==> ns'[e] == ns[e].(children := ns'[e].children))
      && (e != idx && e != ns[idx].parent ==> ns'[e].children == ns[e].children)
      && (e != idx && Node(ns, e) ==> NoDup(ns'[e].children) && |ns'[e].children| <= |ns[e].children|)
      && (e != idx && Node(ns, e) ==> forall c :: c in ns'[e].children <==> c in ns[e].children && c != idx)
  {
    if Node(ns, e) {
      assert LinkedAt(ns, e);
      WithoutMembers(ns[e].children, idx);
    }
  }

  lemma UnlinkedLinked(ns: Table, idx: int)
    requires CanUnlink(ns, idx)
    ensures Linked(Unlinked(ns, idx))
  {
    var ns' := Unlinked(ns, idx);
    UnlinkedNode(ns, idx, 0);
    forall e | Node(ns', e) ensures LinkedAt(ns', e) {
      UnlinkedNode(ns, idx, e);
      assert LinkedAt(ns, e);
      forall c | c in ns'[e].children ensures Node(ns', c) && ns'[c].parent == e && ns'[c].name == ns[c].name {
        UnlinkedNode(ns, idx, c);
      }
    }
  }

  lemma UnlinkedWf(ns: Table, idx: int)
    requires CanUnlink(ns, idx) && Wf(ns)
    ensures Wf(Unlinked(ns, idx))
  {
    var ns' := Unlinked(ns, idx);
    UnlinkedLinked(ns, idx);
    forall e | Node(ns', e) ensures UniqueAt(ns', e) {
      UnlinkedNode(ns, idx, e);
      assert LinkedAt(ns, e) && UniqueAt(ns, e);
      forall c | c in ns'[e].children ensures ns'[c].name == ns[c].name { UnlinkedNode(ns, idx, c); }
    }
  }

  lemma UnlinkedStep(ns: Table, idx: int, e: int, x: Name)
    requires CanUnlink(ns, idx) && Wf(ns) && Node(ns, e) && e != idx
    ensures Step(Unlinked(ns, idx), e, x) == if Step(ns, e, x) == idx then -1 else Step(ns, e, x)
  {
    var ns' := Unlinked(ns, idx);
    UnlinkedWf(ns, idx);
    UnlinkedNode(ns, idx, e);
    StepResult(ns, e, x);
    assert LinkedAt(ns, e) && UniqueAt(ns, e);
    var r := Step(ns, e, x);
    if r != -1 && r != idx {
      UnlinkedNode(ns, idx, r);
      StepTo(ns', e, x, r);
    } else {
      forall c | c in ns'[e].children ensures ns'[c].name != x { UnlinkedNode(ns, idx, c); }
      StepMiss(ns', e, x);
    }
  }

  /** Unlinking removes exactly one path. */
  lemma {:induction false} UnlinkRemovesPath(ns: Table, oldc: seq<Name>, q: seq<Name>)
    requires CanUnlink(ns, Lookup(ns, oldc)) && Wf(ns)
    ensures Lookup(Unlinked(ns, Lookup(ns, oldc)), q) == if q == oldc then -1 else Lookup(ns, q)
  {
    var idx := Lookup(ns, oldc);
    if q != [] {
      var p, x := q[..|q| - 1], q[|q| - 1];
      assert q == p + [x];
      UnlinkRemovesPath(ns, oldc, p);
      LookupNode(ns, p);
      if Lookup(ns, p) != -1 && Lookup(ns, p) != idx {
        UnlinkedStep(ns, idx, Lookup(ns, p), x);
        if Lookup(ns, q) == idx { UniquePath(ns, q, oldc); }
      } else if Lookup(ns, p) == idx {
        UniquePath(ns, p, oldc);
        assert Step(ns, idx, x) == -1;
      }
    }
  }

  /** Create and unlink never detach anything. */
  lemma CreateAttached(ns: Table, idx: int, dirc: seq<Name>, node: VNode)
    requires CanCreate(ns, idx, Lookup(ns, dirc), node) && Attached(ns)
    ensures Attached(Created(ns, idx, Lookup(ns, dirc), node))
  {
    var d := Lookup(ns, dirc);
    var ns' := Created(ns, idx, d, node);
    forall c | Hangs(ns', c) ensures exists q :: Lookup(ns', q) == c {
      var e :| Node(ns', e) && c in ns'[e].children;
      CreatedNode(ns, idx, d, node, e);
      if c == idx && e == d && |ns[d].children| < MAX_CHILDREN {
        CreateAddsPath(ns, idx, dirc, node, dirc + [node.name]);
      } else {
        assert Hangs(ns, c);
        var p :| Lookup(ns, p) == c;
        LookupSnoc(ns, dirc, node.name);
        assert LinkedAt(ns, e);
        CreateAddsPath(ns, idx, dirc, node, p);
      }
    }
  }

  lemma UnlinkAttached(ns: Table, oldc: seq<Name>)
    requires CanUnlink(ns, Lookup(ns, oldc)) && Wf(ns) && Attached(ns)
    ensures Attached(Unlinked(ns, Lookup(ns, oldc)))
  {
    var idx := Lookup(ns, oldc);
    var ns' := Unlinked(ns, idx);
    forall c | Hangs(ns', c) ensures exists q :: Lookup(ns', q) == c {
      var e :| Node(ns', e) && c in ns'[e].children;
      UnlinkedNode(ns, idx, e);
      assert Hangs(ns, c);
      var p :| Lookup(ns, p) == c;
      UnlinkRemovesPath(ns, oldc, p);
    }
  }

  // ----- no vnode is lost

  /** Every vnode but the root is in some child list. */
  ghost predicate AllHang(ns: Table) {
    forall i | Node(ns, i) && i != 0 :: Hangs(ns, i)
  }

  /** Every vnode can be reached from the root. */
  ghost predicate Reached(ns: Table) {
    forall i | Node(ns, i) :: exists q :: Lookup(ns, q) == i
  }

  lemma ReachedIff(ns: Table)
    requires Linked(ns)
    ensures Reached(ns) <==> Attached(ns) && AllHang(ns)
  {
    if Reached(ns) {
      forall c | Hangs(ns, c) ensures exists q :: Lookup(ns, q) == c {
        var d :| Node(ns, d) && c in ns[d].children;
        assert LinkedAt(ns, d);
      }
      forall i | Node(ns, i) && i != 0 ensures Hangs(ns, i) {
        var q :| Lookup(ns, q) == i;
        LookupEnd(ns, q);
      }
    }
    if Attached(ns) && AllHang(ns) {
      forall i | Node(ns, i) ensures exists q :: Lookup(ns, q) == i {
        assert Lookup(ns, []) == 0;
        if i != 0 { assert Hangs(ns, i); }
      }
    }
  }

  /** A creation loses no vnode exactly when the name is free and the directory has room. */
  lemma CreateReachedIff(ns: Table, idx: int, dirc: seq<Name>, node: VNode)
    requires CanPlace(ns, idx, Lookup(ns, dirc), node) && Wf(ns) && Reached(ns)
    ensures var ns' := Created(ns, idx, Lookup(ns, dirc), node);
      && (Reached(ns') ==> Wf(ns'))
      && (Reached(ns') <==> Lookup(ns, dirc + [node.name]) == -1 && |ns[Lookup(ns, dirc)].children| < MAX_CHILDREN)
  {
    var d := Lookup(ns, dirc);
    var ns' := Created(ns, idx, d, node);
    ReachedIff(ns);
    LookupSnoc(ns, dirc, node.name);
    if Step(ns, d, node.name) == -1 && |ns[d].children| < MAX_CHILDREN {
      CreateTidyIff(ns, idx, dirc, node);
      CreatedHang(ns, idx, d, node);
      ReachedIff(ns');
    } else {
      CreatedNode(ns, idx, d, node, idx);
      forall q ensures Lookup(ns', q) != idx {
        CreateKeepsPaths(ns, idx, d, node, q);
        LookupNode(ns, q);
      }
      assert Node(ns', idx) && !Reached(ns');
    }
  }

  lemma CreatedHang(ns: Table, idx: int, d: int, node: VNode)
    requires CanPlace(ns, idx, d, node) && AllHang(ns) && |ns[d].children| < MAX_CHILDREN
    ensures AllHang(Created(ns, idx, d, node))
  {
    var ns' := Created(ns, idx, d, node);
    forall i | Node(ns', i) && i != 0 ensures Hangs(ns', i) {
      CreatedNode(ns, idx, d, node, i);
      var e := if i == idx then d else ns[i].parent;
      if i != idx {
        assert Hangs(ns, i);
        e :| Node(ns, e) && i in ns[e].children;
      }
      CreatedNode(ns, idx, d, node, e);
    }
  }

  lemma UnlinkedHang(ns: Table, idx: int)
    requires CanUnlink(ns, idx) && AllHang(ns)
    ensures AllHang(Unlinked(ns, idx))
  {
    var ns' := Unlinked(ns, idx);
    forall i | Node(ns', i) && i != 0 ensures Hangs(ns', i) {
      UnlinkedNode(ns, idx, i);
      assert Hangs(ns, i);
      var e :| Node(ns, e) && i in ns[e].children;
      UnlinkedNode(ns, idx, e);
    }
  }

  lemma RenamedHang(ns: Table, idx: int, np: int, name: Name)
    requires CanRename(ns, idx, np, name) && AllHang(ns)
    ensures AllHang(Renamed(ns, idx, np, name))
  {
    var ns' := Renamed(ns, idx, np, name);
    forall i | Node(ns', i) && i != 0 ensures Hangs(ns', i) {
      RenamedNode(ns, idx, np, name, i);
      var e := np;
      if i != idx {
        assert Hangs(ns, i);
        e :| Node(ns, e) && i in ns[e].children;
      }
      RenamedNode(ns, idx, np, name, e);
      RenamedMembers(ns, idx, np, name, e);
    }
  }
}
