/** Runs of the filesystem calls in which no vnode is lost, and one in which a full
    directory makes a create lose its vnode. */
module RamfsRuns {
  import opened Paths
  import opened Tree
  import opened Ramfs
  import opened Machine

  /** A create that goes ahead finds its stored place free and room in its directory. */
  ghost predicate CreateRoomy(ns: Table, path: string) {
    Resolve(ns, path) == -1 && CreateSlot(ns, path) != -1 ==>
      Lookup(ns, StoredPath(path)) == -1 && |ns[ResolveDir(ns, path)].children| < MAX_CHILDREN
  }

  /** What a caller can check before the call. */
  ghost predicate Roomy(ns: Table, op: Op)
    requires Linked(ns)
  {
    match op
    case MakeFile(path, buf) => CreateRoomy(ns, path)
    case MakeDir(path) => CreateRoomy(ns, path)
    case _ => Tidy(ns, op)
  }

  lemma MadeReachedIff(ns: Table, path: string, isDir: bool, buf: seq<Byte>)
    requires Wf(ns) && Reached(ns) && Resolve(ns, path) == -1
    ensures var ns' := AfterCreate(ns, path, isDir, buf); Wf(ns') && Reached(ns') <==> CreateRoomy(ns, path)
  {
    var idx := CreateSlot(ns, path);
    if idx != -1 {
      LookupNode(ns, ParentComponents(path));
      StoredNameGood(path);
      CreateReachedIff(ns, idx, ParentComponents(path), NewNode(path, ResolveDir(ns, path), isDir, buf));
    }
  }

  /** Each call keeps every vnode of a well-formed tree within reach exactly if it is roomy. */
  lemma ApplyReachedIff(ns: Table, op: Op)
    requires Wf(ns) && Reached(ns)
    ensures Wf(Apply(ns, op)) && Reached(Apply(ns, op)) <==> Roomy(ns, op)
  {
    ReachedIff(ns);
    match op
    case MakeFile(path, buf) => if Resolve(ns, path) == -1 { MadeReachedIff(ns, path, false, buf); }
    case MakeDir(path) => if Resolve(ns, path) == -1 { MadeReachedIff(ns, path, true, []); }
    case Remove(path) => QuietReachedIff(ns, op);
    case Move(oldPath, newPath) => QuietReachedIff(ns, op);
    case Store(v, data, size) => QuietReachedIff(ns, op);
  }

  /** A call that creates nothing loses no vnode that it does not detach. */
  lemma QuietReachedIff(ns: Table, op: Op)
    requires Wf(ns) && Attached(ns) && AllHang(ns) && (op.Remove? || op.Move? || op.Store?)
    ensures Wf(Apply(ns, op)) && Reached(Apply(ns, op)) <==> Tidy(ns, op)
  {
    var ns' := Apply(ns, op);
    ApplyTidyIff(ns, op);
    QuietHang(ns, op);
    if Wf(ns') { ReachedIff(ns'); }
  }

  lemma QuietHang(ns: Table, op: Op)
    requires Wf(ns) && AllHang(ns) && (op.Remove? || op.Move? || op.Store?)
    ensures AllHang(Apply(ns, op))
  {
    match op
    case Remove(path) => if UnlinkAllowed(ns, path) { UnlinkedHang(ns, Resolve(ns, path)); }
    case Move(oldPath, newPath) =>
      if RenameAllowed(ns, oldPath, newPath) {
        RenamedHang(ns, Resolve(ns, oldPath), ResolveDir(ns, newPath), StoredName(newPath));
      }
    case Store(v, data, size) =>
      var ns' := Apply(ns, op);
      forall i | Node(ns', i) && i != 0 ensures Hangs(ns', i) {
        assert Node(ns, i) && Hangs(ns, i);
        var d :| Node(ns, d) && i in ns[d].children;
        assert Node(ns', d) && ns'[d].children == ns[d].children;
      }
  }

  ghost predicate RoomyRun(tables: seq<Table>, ops: seq<Op>) {
    && |tables| == |ops| + 1
    && forall i | 0 <= i < |ops| :: Linked(tables[i]) && Roomy(tables[i], ops[i]) && tables[i + 1] == Apply(tables[i], ops[i])
  }

  /** In every run of roomy calls from an empty filesystem every vnode in use is reached
      from the root by exactly one path. */
  lemma {:induction false} NoVnodeLost(tables: seq<Table>, ops: seq<Op>, k: nat)
    requires RoomyRun(tables, ops) && tables[0] == EmptyTable() && k < |tables|
    ensures Wf(tables[k]) && Reached(tables[k])
    ensures forall q, q2 | Lookup(tables[k], q) == Lookup(tables[k], q2) != -1 :: q == q2
  {
    if k == 0 {
      EmptyTree();
      assert Lookup(EmptyTable(), []) == 0;
    } else {
      NoVnodeLost(tables, ops, k - 1);
      ApplyReachedIff(tables[k - 1], ops[k - 1]);
    }
    forall q, q2 | Lookup(tables[k], q) == Lookup(tables[k], q2) != -1 ensures q == q2 { UniquePath(tables[k], q, q2); }
  }

  // ----- a full directory

  function Letters(n: nat): Name { seq(n, i => 'a') }

  /** The filesystem with `k` directories a, aa, aaa, ... in the root. */
  function Filled(k: nat): Table {
    seq(MAX_FILES, i requires 0 <= i => if i == 0 then VNode(true, true, "/", [], 0, -1, seq(k, j => j + 1)) else Filler(k, i))
  }

  function Filler(k: nat, i: nat): VNode {
    if i <= k then VNode(true, true, Letters(i), [], 0, 0, []) else VNode(false, false, [], [], 0, 0, [])
  }

  lemma ShortPath(n: Name)
    requires GoodName(n)
    ensures var path := "/" + n;
      && IsAbsolute(path) && BaseName(path) == StoredName(path) == n
      && ParentComponents(path) == [] && Components(path) == [n] == StoredPath(path)
  {
    var path := "/" + n;
    assert path[1..] == n;
    assert LastSlash(path) == 0;
    ParsePlain(n, MAX_NAME - 1);
    assert [] + [n] == [n];
  }

  lemma FilledWf(k: nat)
    requires k <= MAX_CHILDREN
    ensures Wf(Filled(k))
  {
    var ns := Filled(k);
    forall d | Node(ns, d) ensures LinkedAt(ns, d) && UniqueAt(ns, d) {
      if d == 0 {
        forall c | c in ns[0].children ensures 0 < c <= k && Node(ns, c) && ns[c].parent == 0 && GoodName(ns[c].name) {}
        forall c, c' | c in ns[0].children && c' in ns[0].children && ns[c].name == ns[c'].name ensures c == c' {
          assert |ns[c].name| == c && |ns[c'].name| == c';
        }
      }
    }
  }

  lemma FilledReached(k: nat)
    requires k <= MAX_CHILDREN
    ensures Wf(Filled(k)) && Reached(Filled(k))
  {
    var ns := Filled(k);
    FilledWf(k);
    forall i | Node(ns, i) ensures exists q :: Lookup(ns, q) == i {
      if i == 0 {
        assert Lookup(ns, []) == 0;
      } else {
        assert ns[0].children[i - 1] == i;
        StepTo(ns, 0, Letters(i), i);
        LookupSnoc(ns, [], Letters(i));
        assert [] + [Letters(i)] == [Letters(i)];
      }
    }
  }

  lemma {:induction false} FilledSlot(k: nat, i: nat)
    requires i <= k + 1 < MAX_FILES
    ensures FreeSlot(Filled(k), i) == k + 1
    decreases k + 1 - i
  {
    if i <= k { FilledSlot(k, i + 1); }
  }

  /** One more mkdir in the root: linked if there is room, otherwise only put in a slot. */
  lemma FilledNext(k: nat)
    requires k <= MAX_CHILDREN
    ensures Linked(Filled(k))
    ensures var ns, path := Filled(k), "/" + Letters(k + 1);
      && Resolve(ns, path) == -1 && CreateSlot(ns, path) == k + 1 && ResolveDir(ns, path) == 0
      && Apply(ns, MakeDir(path)) == if k < MAX_CHILDREN then Filled(k + 1) else ns[k + 1 := Filler(k + 1, k + 1)]
  {
    var ns, n := Filled(k), Letters(k + 1);
    FilledWf(k);
    ShortPath(n);
    FilledSlot(k, 0);
    StepMiss(ns, 0, n);
    LookupSnoc(ns, [], n);
    assert [] + [n] == [n];
    var ns' := Apply(ns, MakeDir("/" + n));
    if k < MAX_CHILDREN { assert seq(k, j => j + 1) + [k + 1] == seq(k + 1, j => j + 1); }
  }

  /** Thirty-two directories in the root are fine; the thirty-third takes a vnode that no
      path reaches. */
  lemma FullDirectoryLoses() returns (tables: seq<Table>, ops: seq<Op>)
    ensures |ops| == MAX_CHILDREN + 1 && TreeRun(tables, ops) && tables[0] == EmptyTable()
    ensures forall k | 0 <= k <= MAX_CHILDREN :: Reached(tables[k])
    ensures Node(tables[MAX_CHILDREN + 1], MAX_CHILDREN + 1) && !Reached(tables[MAX_CHILDREN + 1])
  {
    var last := Filled(MAX_CHILDREN)[MAX_CHILDREN + 1 := Filler(MAX_CHILDREN + 1, MAX_CHILDREN + 1)];
    tables := seq(MAX_CHILDREN + 2, k requires 0 <= k => if k <= MAX_CHILDREN then Filled(k) else last);
    ops := seq(MAX_CHILDREN + 1, k requires 0 <= k => MakeDir("/" + Letters(k + 1)));
    forall k: nat | k <= MAX_CHILDREN
      ensures Linked(tables[k]) && Reached(tables[k]) && Tidy(tables[k], ops[k]) && tables[k + 1] == Apply(tables[k], ops[k])
    {
      FilledReached(k);
      FilledNext(k);
      ShortPath(Letters(k + 1));
    }
    assert tables[0] == EmptyTable();
    FullStep();
  }

  lemma FullStep()
    ensures !Reached(Filled(MAX_CHILDREN)[MAX_CHILDREN + 1 := Filler(MAX_CHILDREN + 1, MAX_CHILDREN + 1)])
  {
    var ns, path := Filled(MAX_CHILDREN), "/" + Letters(MAX_CHILDREN + 1);
    FilledReached(MAX_CHILDREN);
    FilledNext(MAX_CHILDREN);
    ApplyReachedIff(ns, MakeDir(path));
    ReachedIff(ns);
    LostWf(ns, path);
  }

  lemma LostWf(ns: Table, path: string)
    requires Wf(ns) && Attached(ns) && Resolve(ns, path) == -1 && CreateSlot(ns, path) != -1
    requires |ns[ResolveDir(ns, path)].children| >= MAX_CHILDREN
    ensures Wf(Apply(ns, MakeDir(path)))
  {
    ApplyTidyIff(ns, MakeDir(path));
  }
}
