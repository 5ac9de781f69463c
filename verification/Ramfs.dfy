/** The in-memory filesystem: the vnode and descriptor tables and the calls on
    them. The invariant of every run is `Valid`; what the calls do to paths is
    stated with the functions of `Tree`. */
module Ramfs {
  import opened Paths
  import opened Tree
  import opened Machine

  const MAX_FILES: nat := 128
  const MAX_FD: nat := 64
  const MAX_DATA: nat := 16384

  datatype Fd = Fd(used: bool, vnode: int, offset: nat)

  /** The vnode a path string leads to, or -1. */
  function Resolve(ns: Table, path: string): int {
    if IsAbsolute(path) then Lookup(ns, Components(path)) else -1
  }

  /** The directory the parent resolver returns, or -1. */
  function ResolveDir(ns: Table, path: string): int {
    if IsAbsolute(path) && BaseName(path) != [] then Lookup(ns, ParentComponents(path)) else -1
  }

  /** A file's bytes. */
  function Content(n: VNode): seq<Byte> {
    if n.size <= |n.data| then n.data[..n.size] else n.data
  }

  lemma ContentSlice(n: VNode, lo: nat, hi: nat)
    requires lo <= hi <= n.size <= |n.data|
    ensures n.data[lo..hi] == Content(n)[lo..hi]
  {
    assert forall i | 0 <= i < hi - lo :: n.data[lo..hi][i] == n.data[lo + i] == Content(n)[lo..hi][i];
  }

  predicate DataOk(n: VNode) {
    n.size <= |n.data| && (n.data == [] || |n.data| == MAX_DATA) && (n.isDir ==> n.data == [])
  }

  ghost predicate FilesOk(ns: Table) {
    forall i | Node(ns, i) :: DataOk(ns[i])
  }

  /** An open descriptor names a live file and stands inside it. */
  predicate FdOk(ns: Table, f: Fd) {
    f.used ==> Node(ns, f.vnode) && !ns[f.vnode].isDir && f.offset <= ns[f.vnode].size
  }

  ghost predicate FdsOk(ns: Table, fs: seq<Fd>) {
    forall i | 0 <= i < |fs| :: FdOk(ns, fs[i])
  }

  ghost predicate StateOk(ns: Table, fs: seq<Fd>) {
    |ns| == MAX_FILES && |fs| == MAX_FD && Linked(ns) && FilesOk(ns) && FdsOk(ns, fs)
  }

  // ----- what a change of the tables must respect

  /** A table update that keeps live files live and at least as long keeps the descriptors. */
  lemma FdsKept(ns: Table, ns': Table, fs: seq<Fd>)
    requires FdsOk(ns, fs) && |ns'| == |ns|
    requires forall i | Node(ns, i) :: Node(ns', i) && ns'[i].isDir == ns[i].isDir && ns[i].size <= ns'[i].size
    ensures FdsOk(ns', fs)
  {
    forall i | 0 <= i < |fs| ensures FdOk(ns', fs[i]) { assert FdOk(ns, fs[i]); }
  }

  lemma RenamedOk(ns: Table, fs: seq<Fd>, idx: int, np: int, name: Name)
    requires StateOk(ns, fs) && CanRename(ns, idx, np, name)
    ensures StateOk(Renamed(ns, idx, np, name), fs)
  {
    var ns' := Renamed(ns, idx, np, name);
    RenamedLinked(ns, idx, np, name);
    RenamedNode(ns, idx, np, name, 0);
    forall i | Node(ns, i) || Node(ns', i)
      ensures Node(ns', i) && ns'[i].isDir == ns[i].isDir && ns[i].size == ns'[i].size && DataOk(ns'[i])
    {
      RenamedNode(ns, idx, np, name, i);
    }
    FdsKept(ns, ns', fs);
  }

  lemma CreatedOk(ns: Table, fs: seq<Fd>, idx: int, d: int, node: VNode)
    requires StateOk(ns, fs) && CanPlace(ns, idx, d, node) && DataOk(node)
    ensures StateOk(Created(ns, idx, d, node), fs)
  {
    var ns' := Created(ns, idx, d, node);
    CreatedLinked(ns, idx, d, node);
    CreatedNode(ns, idx, d, node, 0);
    forall i | Node(ns', i) ensures DataOk(ns'[i]) { CreatedNode(ns, idx, d, node, i); }
    forall i | Node(ns, i)
      ensures Node(ns', i) && ns'[i].isDir == ns[i].isDir && ns[i].size <= ns'[i].size
    {
      CreatedNode(ns, idx, d, node, i);
    }
    FdsKept(ns, ns', fs);
  }

  /** Unlink with its descriptors closed leaves no dangling descriptor. */
  lemma UnlinkedOk(ns: Table, fs: seq<Fd>, fs': seq<Fd>, idx: int)
    requires StateOk(ns, fs) && CanUnlink(ns, idx) && |fs'| == |fs|
    requires forall i | 0 <= i < |fs| ::
               fs'[i] == if fs[i].used && fs[i].vnode == idx then fs[i].(used := false) else fs[i]
    ensures StateOk(Unlinked(ns, idx), fs')
    ensures forall i | 0 <= i < |fs'| :: fs'[i].used ==> fs'[i].vnode != idx
  {
    var ns' := Unlinked(ns, idx);
    UnlinkedLinked(ns, idx);
    UnlinkedNode(ns, idx, 0);
    forall i | Node(ns', i) ensures DataOk(ns'[i]) { UnlinkedNode(ns, idx, i); }
    forall i | 0 <= i < |fs'| ensures FdOk(ns', fs'[i]) {
      assert FdOk(ns, fs[i]);
      if fs'[i].used { UnlinkedNode(ns, idx, fs'[i].vnode); }
    }
  }

  // ----- reading and writing as operations on byte sequences

  /** Writing `buf` over `s` at `off`, cut to the capacity. */
  function Overwrite(s: seq<Byte>, off: nat, buf: seq<Byte>): seq<Byte>
    requires off <= |s|
  {
    s[..off] + buf + (if off + |buf| <= |s| then s[off + |buf|..] else [])
  }

  /** How much of a write of `count` bytes at `off` is taken. */
  function WriteCount(off: nat, count: nat): (n: nat)
    requires off <= MAX_DATA
    ensures n <= count && off + n <= 16384 && (n == count || off + n == 16384)
  {
    if off + count <= MAX_DATA then count else MAX_DATA - off
  }

  /** How much a read of `count` bytes at `off` gets. */
  function ReadCount(size: nat, off: nat, count: nat): (n: nat)
    requires off <= size
    ensures n <= count && off + n <= size && (n == count || off + n == size)
  {
    if off + count <= size then count else size - off
  }

  /** Bytes written are the bytes read back from there; the others are as before. */
  lemma WriteThenRead(s: seq<Byte>, off: nat, buf: seq<Byte>)
    requires off <= |s|
    ensures var t := Overwrite(s, off, buf);
      && |t| == (if off + |buf| > |s| then off + |buf| else |s|)
      && t[off..off + ReadCount(|t|, off, |buf|)] == buf
      && forall i | 0 <= i < |s| && !(off <= i < off + |buf|) :: t[i] == s[i]
  {}

  /** The vnode with the bytes copied into its buffer. */
  function Stored(n: VNode, off: nat, buf: seq<Byte>): VNode
    requires off + |buf| <= |n.data|
  {
    n.(data := n.data[..off] + buf + n.data[off + |buf|..], size := if off + |buf| > n.size then off + |buf| else n.size)
  }

  lemma OverwriteContent(n: VNode, off: nat, buf: seq<Byte>)
    requires DataOk(n) && off <= n.size && off + |buf| <= |n.data|
    ensures DataOk(Stored(n, off, buf)) && Content(Stored(n, off, buf)) == Overwrite(Content(n), off, buf)
  {
    var d := n.data[..off] + buf + n.data[off + |buf|..];
    var size := if off + |buf| > n.size then off + |buf| else n.size;
    assert d[..size] == Overwrite(n.data[..n.size], off, buf);
  }

  // ----- slots

  /** The lowest free vnode slot, or -1. */
  function FreeSlot(ns: Table, i: nat): (r: int)
    requires i <= |ns|
    ensures r == -1 || (i <= r < |ns| && !ns[r].used)
    decreases |ns| - i
  {
    if i == |ns| then -1 else if !ns[i].used then i else FreeSlot(ns, i + 1)
  }

  function FreeFd(fs: seq<Fd>, i: nat): (r: int)
    requires i <= |fs|
    ensures r == -1 || (i <= r < |fs| && !fs[r].used)
    decreases |fs| - i
  {
    if i == |fs| then -1 else if !fs[i].used then i else FreeFd(fs, i + 1)
  }

  /** The vnode that create and mkdir put in a slot. */
  function NewNode(path: string, d: int, isDir: bool, buf: seq<Byte>): VNode
    requires IsAbsolute(path)
  {
    VNode(true, isDir, StoredName(path), buf, 0, d, [])
  }

  /** The table after creating `path`, or the same table when that fails. */
  function AfterCreate(ns: Table, path: string, isDir: bool, buf: seq<Byte>): (ns': Table)
    ensures |ns'| == |ns|
  {
    if CreateSlot(ns, path) == -1 then ns
    else
      Created(ns, CreateSlot(ns, path), ResolveDir(ns, path), NewNode(path, ResolveDir(ns, path), isDir, buf))
  }

  /** The slot a create of `path` uses, or -1 when the parent is no directory or the table is full. */
  function CreateSlot(ns: Table, path: string): (idx: int)
    ensures idx != -1 ==> 0 <= idx < |ns| && !ns[idx].used && IsAbsolute(path) && 0 <= ResolveDir(ns, path) < |ns|
  {
    var d := ResolveDir(ns, path);
    if 0 <= d < |ns| && ns[d].isDir then FreeSlot(ns, 0) else -1
  }

  lemma StoredNameGood(path: string)
    requires IsAbsolute(path) && BaseName(path) != []
    ensures GoodName(StoredName(path))
  {}

  lemma CreateOk(ns: Table, fs: seq<Fd>, path: string, isDir: bool, buf: seq<Byte>)
    requires StateOk(ns, fs) && (buf == [] || (|buf| == MAX_DATA && !isDir))
    ensures StateOk(AfterCreate(ns, path, isDir, buf), fs)
    ensures var idx := CreateSlot(ns, path);
      idx != -1 ==> Node(AfterCreate(ns, path, isDir, buf), idx) && AfterCreate(ns, path, isDir, buf)[idx].isDir == isDir
                    && AfterCreate(ns, path, isDir, buf)[idx].size == 0
  {
    var idx := CreateSlot(ns, path);
    if idx != -1 {
      var d := ResolveDir(ns, path);
      LookupNode(ns, ParentComponents(path));
      StoredNameGood(path);
      var node := NewNode(path, d, isDir, buf);
      CreatedOk(ns, fs, idx, d, node);
      CreatedNode(ns, idx, d, node, idx);
    }
  }

  /** A vnode that a path resolves to, other than the root, hangs in its parent. */
  lemma ResolvedHangs(ns: Table, path: string)
    requires Linked(ns) && Resolve(ns, path) > 0
    ensures var idx := Resolve(ns, path);
      Node(ns, idx) && Node(ns, ns[idx].parent) && idx in ns[ns[idx].parent].children
  {
    LookupEnd(ns, Components(path));
  }

  // ----- the walk over a path string

  function AfterComponent(path: string, j: nat): nat
    requires j <= |path|
  {
    if j < |path| && path[j] == '/' then j + 1 else j
  }

  /** One turn of the resolver's loop over the path. */
  lemma ParseNext(path: string, i: nat, j: nat, done: seq<Name>)
    requires i < |path| && j == i + ComponentLen(path[i..], MAX_NAME - 1)
    ensures i <= j <= |path| && i < AfterComponent(path, j) <= |path|
    ensures done + Parse(path[i..]) == (if i == j then done else done + [path[i..j]]) + Parse(path[AfterComponent(path, j)..])
  {
    SliceOfSlice(path, i, j);
    ParseHead(path[i..], MAX_NAME - 1);
    JoinNames(done, path[i..j], Parse(path[AfterComponent(path, j)..]));
  }

  lemma ParseHead(p: string, limit: nat)
    requires p != [] && limit > 0
    ensures var n := ComponentLen(p, limit); var rest := SkipSlash(p[n..]);
      && |rest| < |p|
      && ParseUpTo(p, limit) == if n == 0 then ParseUpTo(rest, limit) else [p[..n]] + ParseUpTo(rest, limit)
  {
    ComponentLenStops(p, limit);
  }

  lemma JoinNames(done: seq<Name>, x: Name, rest: seq<Name>)
    ensures done + ([x] + rest) == (done + [x]) + rest
  {}

  lemma SliceOfSlice(path: string, i: nat, j: nat)
    requires i <= j <= |path|
    ensures path[i..][..j - i] == path[i..j]
    ensures SkipSlash(path[i..][j - i..]) == path[AfterComponent(path, j)..]
    ensures |path[i..]| == |path| - i
  {
    assert path[i..][j - i..] == path[j..];
  }

  lemma {:induction false} ComponentLenIs(p: string, limit: nat, n: nat)
    requires n <= |p| && n <= limit && forall i | 0 <= i < n :: p[i] != '/'
    requires n == |p| || n == limit || p[n] == '/'
    ensures ComponentLen(p, limit) == n
  {
    if n > 0 {
      assert forall i | 0 <= i < n - 1 :: p[1..][i] == p[i + 1];
      ComponentLenIs(p[1..], limit - 1, n - 1);
    }
  }

  /** Once a walk has failed it stays failed. */
  lemma {:induction false} DeadEnd(ns: Table, p: seq<Name>, q: seq<Name>)
    requires p <= q && Lookup(ns, p) == -1
    ensures Lookup(ns, q) == -1
    decreases |q|
  {
    if p != q { DeadEnd(ns, p, q[..|q| - 1]); }
  }

  lemma {:induction false} EmptyLookup(ns: Table, q: seq<Name>)
    requires |ns| > 0 && ns[0].children == [] && ns[0].isDir
    ensures Lookup(ns, q) == if q == [] then 0 else -1
  {
    if q != [] { EmptyLookup(ns, q[..|q| - 1]); }
  }

  class Vfs {
    const vnodes: array<VNode>
    const fds: array<Fd>

    ghost predicate Valid()
      reads this, vnodes, fds
    {
      StateOk(vnodes[..], fds[..])
    }

    constructor ()
      ensures Valid() && fresh(vnodes) && fresh(fds)
      ensures vnodes[..] == EmptyTable()
      ensures forall q :: Lookup(vnodes[..], q) == if q == [] then 0 else -1
      ensures forall i | 0 <= i < MAX_FD :: !fds[i].used
    {
      var blank := VNode(false, false, [], [], 0, 0, []);
      vnodes := new VNode[MAX_FILES](i => if i == 0 then VNode(true, true, "/", [], 0, -1, []) else blank);
      fds := new Fd[MAX_FD](_ => Fd(false, 0, 0));
      new;
      forall q ensures Lookup(vnodes[..], q) == if q == [] then 0 else -1 {
        EmptyLookup(vnodes[..], q);
      }
    }

    /** The component starting at `i`, at most 63 characters. */
    method NextComponent(path: string, i: nat) returns (j: nat)
      requires i <= |path|
      ensures j == i + ComponentLen(path[i..], MAX_NAME - 1) <= |path|
    {
      j := i;
      while j < |path| && path[j] != '/' && j - i < MAX_NAME - 1
        invariant i <= j <= |path| && j - i <= MAX_NAME - 1
        invariant forall k | i <= k < j :: path[k] != '/'
      {
        j := j + 1;
      }
      ComponentLenIs(path[i..], MAX_NAME - 1, j - i);
    }

    method FindIn(d: int, name: Name) returns (found: int)
      requires Valid() && Node(vnodes[..], d)
      ensures found == FindChild(vnodes[..], vnodes[d].children, name)
    {
      var cs := vnodes[d].children;
      for i := 0 to |cs|
        invariant FindChild(vnodes[..], cs, name) == FindChild(vnodes[..], cs[i..], name)
      {
        assert LinkedAt(vnodes[..], d) && cs[i] in cs;
        if vnodes[cs[i]].name == name { return cs[i]; }
        assert cs[i..][1..] == cs[i + 1..];
      }
      found := -1;
    }

    method ResolvePath(path: string) returns (r: int)
      requires Valid()
      ensures r == Resolve(vnodes[..], path)
    {
      if path == [] || path[0] != '/' { return -1; }
      var i, current := 1, 0;
      ghost var done: seq<Name> := [];
      NothingBefore(Components(path));
      while i < |path|
        invariant 1 <= i <= |path|
        invariant Components(path) == done + Parse(path[i..])
        invariant current == Lookup(vnodes[..], done) && Node(vnodes[..], current)
      {
        var j := NextComponent(path, i);
        var component := path[i..j];
        ParseNext(path, i, j, done);
        i := AfterComponent(path, j);
        if |component| == 0 { continue; }
        done := done + [component];
        LookupSnoc(vnodes[..], done[..|done| - 1], component);
        if !vnodes[current].isDir {
          DeadEnd(vnodes[..], done, Components(path));
          return -1;
        }
        var found := FindIn(current, component);
        LookupNode(vnodes[..], done);
        if found == -1 {
          DeadEnd(vnodes[..], done, Components(path));
          return -1;
        }
        current := found;
      }
      assert done + [] == done;
      return current;
    }

    /** The parent directory of a path (or -1) and the name to store in it. */
    method ResolveParent(path: string) returns (r: int, name: Name)
      requires Valid()
      ensures r == ResolveDir(vnodes[..], path)
      ensures IsAbsolute(path) && BaseName(path) != [] ==> name == StoredName(path)
    {
      if path == [] || path[0] != '/' { return -1, []; }
      var lastSlash := FindLastSlash(path);
      if lastSlash + 1 == |path| { return -1, []; }
      name := CopyName(path, lastSlash);
      if lastSlash == 0 { return 0, name; }
      var plen := if lastSlash >= MAX_PARENT then MAX_PARENT - 1 else lastSlash;
      r := ResolvePath(path[..plen]);
    }

    static method CopyName(path: string, lastSlash: nat) returns (name: Name)
      requires IsAbsolute(path) && lastSlash == LastSlash(path)
      ensures name == StoredName(path)
    {
      var len := 0;
      while lastSlash + 1 + len < |path| && len < MAX_NAME - 1
        invariant 0 <= len <= Min(|BaseName(path)|, MAX_NAME - 1)
      {
        len := len + 1;
      }
      name := path[lastSlash + 1..][..len];
    }

    static method FindLastSlash(path: string) returns (lastSlash: nat)
      requires IsAbsolute(path)
      ensures lastSlash == LastSlash(path)
    {
      lastSlash := 0;
      for p := 1 to |path|
        invariant 0 <= lastSlash < p && path[lastSlash] == '/'
        invariant forall k | lastSlash < k < p :: path[k] != '/'
      {
        if path[p] == '/' { lastSlash := p; }
      }
    }

    method AllocFd() returns (fd: int)
      requires Valid()
      modifies fds
      ensures fd == FreeFd(old(fds[..]), 0)
      ensures fd == -1 ==> fds[..] == old(fds[..])
      ensures fd != -1 ==> fds[..] == old(fds[..])[fd := old(fds[fd]).(used := true, offset := 0)]
    {
      for i := 0 to MAX_FD
        invariant fds[..] == old(fds[..])
        invariant FreeFd(fds[..], 0) == FreeFd(fds[..], i)
      {
        if !fds[i].used {
          fds[i] := fds[i].(used := true, offset := 0);
          return i;
        }
      }
      fd := -1;
    }

    /** The shared part of open-with-create and mkdir: parent, slot, vnode, link. */
    method CreateAt(path: string, isDir: bool, buf: seq<Byte>) returns (idx: int)
      requires Valid() && (buf == [] || (|buf| == MAX_DATA && !isDir))
      modifies vnodes
      ensures Valid() && fds[..] == old(fds[..])
      ensures idx == CreateSlot(old(vnodes[..]), path)
      ensures vnodes[..] == AfterCreate(old(vnodes[..]), path, isDir, buf)
    {
      CreateOk(vnodes[..], fds[..], path, isDir, buf);
      var parent, name := ResolveParent(path);
      if parent == -1 { return -1; }
      LookupNode(vnodes[..], ParentComponents(path));
      if !vnodes[parent].isDir { return -1; }
      idx := AllocVnode();
      if idx == -1 { return; }
      vnodes[idx] := VNode(true, isDir, name, buf, 0, parent, []);
      var pdir := vnodes[parent];
      if |pdir.children| < MAX_CHILDREN {
        vnodes[parent] := pdir.(children := pdir.children + [idx]);
      }
    }

    /** The lowest unused slot; the caller overwrites the whole vnode. */
    method AllocVnode() returns (idx: int)
      requires Valid()
      ensures idx == FreeSlot(vnodes[..], 0)
    {
      for i := 0 to MAX_FILES
        invariant FreeSlot(vnodes[..], 0) == FreeSlot(vnodes[..], i)
      {
        if !vnodes[i].used { return i; }
      }
      idx := -1;
    }

    /** `buf` is what the heap gave for a new file's contents: 16 KiB or nothing. */
    method Open(path: string, create: bool, buf: seq<Byte>) returns (fd: int)
      requires Valid() && (buf == [] || |buf| == MAX_DATA)
      modifies vnodes, fds
      ensures Valid()
      ensures vnodes[..] == if create && Resolve(old(vnodes[..]), path) == -1
                            then AfterCreate(old(vnodes[..]), path, false, buf) else old(vnodes[..])
      ensures var v := OpenTarget(old(vnodes[..]), path, create);
        if v == -1 || vnodes[v].isDir || FreeFd(old(fds[..]), 0) == -1
        then fd == -1 && fds[..] == old(fds[..])
        else fd == FreeFd(old(fds[..]), 0) && fds[..] == old(fds[..])[fd := Fd(true, v, 0)]
      ensures var ns, fs := old(vnodes[..]), old(fds[..]);
        && (fd != -1 <==> Openable(ns, path, create) && exists i :: 0 <= i < MAX_FD && !fs[i].used)
        && (fd != -1 ==> 0 <= fd < MAX_FD && !fs[fd].used && forall i | 0 <= i < fd :: fs[i].used)
    {
      OpenableIff(vnodes[..], path, create, buf);
      FreeFdIff(fds[..], 0);
      var v := ResolveOrCreate(path, create, buf);
      if v == -1 || vnodes[v].isDir { return -1; }
      fd := AllocFd();
      if fd != -1 {
        fds[fd] := fds[fd].(vnode := v, offset := 0);
        assert fds[..] == old(fds[..])[fd := Fd(true, v, 0)];
        FdSet(vnodes[..], old(fds[..]), fd, Fd(true, v, 0));
      }
    }

    method ResolveOrCreate(path: string, create: bool, buf: seq<Byte>) returns (v: int)
      requires Valid() && (buf == [] || |buf| == MAX_DATA)
      modifies vnodes
      ensures Valid() && fds[..] == old(fds[..])
      ensures vnodes[..] == if create && Resolve(old(vnodes[..]), path) == -1
                            then AfterCreate(old(vnodes[..]), path, false, buf) else old(vnodes[..])
      ensures v == OpenTarget(old(vnodes[..]), path, create) && (v == -1 || Node(vnodes[..], v))
    {
      LookupResolved(vnodes[..], path);
      v := ResolvePath(path);
      if v == -1 && create {
        CreateOk(vnodes[..], fds[..], path, false, buf);
        v := CreateAt(path, false, buf);
      }
    }

    method Close(fd: int) returns (r: int)
      requires Valid()
      modifies fds
      ensures Valid()
      ensures if 0 <= fd < MAX_FD && old(fds[fd].used)
              then r == 0 && fds[..] == old(fds[..])[fd := old(fds[fd]).(used := false)]
              else r == -1 && fds[..] == old(fds[..])
    {
      if fd < 0 || fd >= MAX_FD || !fds[fd].used { return -1; }
      fds[fd] := fds[fd].(used := false);
      assert fds[..] == old(fds[..])[fd := old(fds[fd]).(used := false)];
      FdSet(vnodes[..], old(fds[..]), fd, fds[fd]);
      return 0;
    }

    /** Reads the next bytes of the file's contents and moves the offset past them. */
    method Read(fd: int, count: nat) returns (r: int, out: seq<Byte>)
      requires Valid()
      modifies fds
      ensures Valid()
      ensures !(0 <= fd < MAX_FD && old(fds[fd].used)) ==> r == -1 && out == [] && fds[..] == old(fds[..])
      ensures 0 <= fd < MAX_FD && old(fds[fd].used) ==>
                var f := old(fds[fd]); var n := ReadCount(vnodes[f.vnode].size, f.offset, count);
                && r == n && out == Content(vnodes[f.vnode])[f.offset..f.offset + n]
                && fds[..] == old(fds[..])[fd := f.(offset := f.offset + n)]
    {
      if fd < 0 || fd >= MAX_FD || !fds[fd].used { return -1, []; }
      assert FdOk(vnodes[..], fds[..][fd]);
      var f := fds[fd];
      var vn := vnodes[f.vnode];
      assert DataOk(vnodes[..][f.vnode]);
      if vn.data == [] {
        assert fds[..] == old(fds[..])[fd := f.(offset := f.offset + 0)];
        return 0, [];
      }
      var avail := if f.offset < vn.size then vn.size - f.offset else 0;
      var n := if count > avail then avail else count;
      out := vn.data[f.offset..f.offset + n];
      ContentSlice(vn, f.offset, f.offset + n);
      fds[fd] := f.(offset := f.offset + n);
      assert fds[..] == old(fds[..])[fd := f.(offset := f.offset + n)];
      FdSet(vnodes[..], old(fds[..]), fd, fds[fd]);
      r := n;
    }

    /** Overwrites the file's contents at the offset, cut to the 16 KiB capacity. */
    method Write(fd: int, buf: seq<Byte>) returns (r: int)
      requires Valid()
      modifies vnodes, fds
      ensures Valid()
      ensures !(0 <= fd < MAX_FD && old(fds[fd].used)) ==>
                r == -1 && fds[..] == old(fds[..]) && vnodes[..] == old(vnodes[..])
      ensures 0 <= fd < MAX_FD && old(fds[fd].used) ==>
                var f := old(fds[fd]); var vn := old(vnodes[f.vnode]);
                if vn.data == [] then r == -1 && fds[..] == old(fds[..]) && vnodes[..] == old(vnodes[..])
                else
                  var n := WriteCount(f.offset, |buf|);
                  && r == n && fds[..] == old(fds[..])[fd := f.(offset := f.offset + n)]
                  && Content(vnodes[f.vnode]) == Overwrite(Content(vn), f.offset, buf[..n])
                  && vnodes[f.vnode] == vn.(data := vnodes[f.vnode].data, size := vnodes[f.vnode].size)
                  && vnodes[..] == old(vnodes[..])[f.vnode := vnodes[f.vnode]]
    {
      if fd < 0 || fd >= MAX_FD || !fds[fd].used { return -1; }
      var f := fds[fd];
      assert FdOk(vnodes[..], fds[..][fd]);
      var vn := vnodes[f.vnode];
      assert DataOk(vnodes[..][f.vnode]);
      if vn.data == [] { return -1; }
      var capacity, n := |vn.data|, |buf|;
      if n > capacity || f.offset > capacity - n {
        n := if f.offset >= capacity then 0 else capacity - f.offset;
      }
      OverwriteContent(vn, f.offset, buf[..n]);
      if n == 0 {
        assert vnodes[..] == old(vnodes[..])[f.vnode := vn] && fds[..] == old(fds[..])[fd := f];
        return 0;
      }
      StoreBytes(fd, buf[..n]);
      r := n;
    }

    /** Copies the bytes into the buffer and moves size and offset. */
    method StoreBytes(fd: nat, buf: seq<Byte>)
      requires Valid() && fd < MAX_FD && fds[fd].used && FdOk(vnodes[..], fds[fd]) && DataOk(vnodes[fds[fd].vnode])
      requires var f, vn := fds[fd], vnodes[fds[fd].vnode]; f.offset <= vn.size && f.offset + |buf| <= |vn.data| && vn.data != []
      modifies vnodes, fds
      ensures Valid()
      ensures var f := old(fds[fd]); var vn := old(vnodes[f.vnode]);
        && fds[..] == old(fds[..])[fd := f.(offset := f.offset + |buf|)]
        && vnodes[..] == old(vnodes[..])[f.vnode := Stored(vn, f.offset, buf)]
    {
      var f := fds[fd];
      var vn := vnodes[f.vnode];
      OverwriteContent(vn, f.offset, buf);
      vnodes[f.vnode] := Stored(vn, f.offset, buf);
      fds[fd] := f.(offset := f.offset + |buf|);
      assert fds[..] == old(fds[..])[fd := fds[fd]];
      assert vnodes[..] == old(vnodes[..])[f.vnode := vnodes[f.vnode]];
      WrittenOk(old(vnodes[..]), old(fds[..]), f.vnode, vnodes[f.vnode]);
      FdSet(vnodes[..], old(fds[..]), fd, fds[fd]);
    }

    method Mkdir(path: string) returns (r: int)
      requires Valid()
      modifies vnodes
      ensures Valid() && fds[..] == old(fds[..])
      ensures var ns := old(vnodes[..]);
        if Resolve(ns, path) != -1 || CreateSlot(ns, path) == -1
        then r == -1 && vnodes[..] == ns
        else r == 0 && vnodes[..] == AfterCreate(ns, path, true, [])
      ensures var ns := old(vnodes[..]); r == 0 <==> Resolve(ns, path) == -1 && InDirectory(ns, path) && SlotFree(ns)
    {
      CreateSlotIff(vnodes[..], path);
      var v := ResolvePath(path);
      if v != -1 { return -1; }
      var idx := CreateAt(path, true, []);
      r := if idx == -1 then -1 else 0;
    }

    /** Moves the entries after `i` down one place and shortens the list. */
    static method ShiftDown(orig: seq<int>, i: nat) returns (cs: seq<int>)
      requires i < |orig|
      ensures cs == orig[..i] + orig[i + 1..]
    {
      cs := orig;
      for j := i to |orig| - 1
        invariant |cs| == |orig|
        invariant forall k: nat | i <= k < j :: cs[k] == orig[k + 1]
        invariant forall k: nat | k < |cs| && !(i <= k < j) :: cs[k] == orig[k]
      {
        cs := cs[j := cs[j + 1]];
      }
      cs := cs[..|orig| - 1];
    }

    /** Drops `idx` from a child list by shifting the later entries down. */
    method RemoveChild(d: int, idx: int)
      requires 0 <= d < vnodes.Length
      modifies vnodes
      ensures vnodes[..] == old(vnodes[..])[d := old(vnodes[d]).(children := Without(old(vnodes[d]).children, idx))]
    {
      var orig := vnodes[d].children;
      var cs := orig;
      for i := 0 to |orig|
        invariant cs == orig && idx !in orig[..i]
      {
        if cs[i] == idx {
          cs := ShiftDown(cs, i);
          WithoutAt(orig, idx, i);
          vnodes[d] := vnodes[d].(children := cs);
          return;
        }
        assert orig[..i + 1] == orig[..i] + [orig[i]];
      }
      assert orig[..|orig|] == orig;
      WithoutAbsent(orig, idx);
      assert vnodes[..] == old(vnodes[..])[d := vnodes[d]];
    }

    method Unlink(path: string) returns (r: int)
      requires Valid()
      modifies vnodes, fds
      ensures Valid()
      ensures var ns := old(vnodes[..]); var idx := Resolve(ns, path);
        if !UnlinkAllowed(ns, path)
        then r == -1 && vnodes[..] == ns && fds[..] == old(fds[..])
        else
          && r == 0 && vnodes[..] == Unlinked(ns, idx)
          && forall i | 0 <= i < MAX_FD ::
               fds[i] == if old(fds[i]).used && old(fds[i]).vnode == idx then old(fds[i]).(used := false) else old(fds[i])
      ensures var ns := old(vnodes[..]); r == 0 <==> Resolve(ns, path) > 0 && NothingBelow(ns, path)
    {
      UnlinkAllowedIff(vnodes[..], path);
      var idx := ResolvePath(path);
      LookupResolved(vnodes[..], path);
      if idx <= 0 { return -1; }
      if vnodes[idx].isDir && |vnodes[idx].children| > 0 { return -1; }
      ResolvedHangs(vnodes[..], path);
      assert LinkedAt(vnodes[..], idx);
      Discard(idx);
      UnlinkedOk(old(vnodes[..]), old(fds[..]), fds[..], idx);
      return 0;
    }

    /** Takes the vnode out of its directory, frees its buffer and closes its descriptors. */
    method Discard(idx: int)
      requires fds.Length == MAX_FD && Node(vnodes[..], idx) && Node(vnodes[..], vnodes[idx].parent)
      modifies vnodes, fds
      ensures vnodes[..] == Unlinked(old(vnodes[..]), idx)
      ensures forall i | 0 <= i < MAX_FD ::
                fds[i] == if old(fds[i]).used && old(fds[i]).vnode == idx then old(fds[i]).(used := false) else old(fds[i])
    {
      RemoveChild(vnodes[idx].parent, idx);
      vnodes[idx] := vnodes[idx].(data := []);
      CloseAll(idx);
      vnodes[idx] := vnodes[idx].(used := false);
    }

    method CloseAll(idx: int)
      requires fds.Length == MAX_FD
      modifies fds
      ensures forall i | 0 <= i < MAX_FD ::
                fds[i] == if old(fds[i]).used && old(fds[i]).vnode == idx then old(fds[i]).(used := false) else old(fds[i])
    {
      for i := 0 to MAX_FD
        invariant forall k | i <= k < MAX_FD :: fds[k] == old(fds[k])
        invariant forall k | 0 <= k < i ::
                    fds[k] == if old(fds[k]).used && old(fds[k]).vnode == idx then old(fds[k]).(used := false) else old(fds[k])
      {
        if fds[i].used && fds[i].vnode == idx { fds[i] := fds[i].(used := false); }
      }
    }

    method Rename(oldPath: string, newPath: string) returns (r: int)
      requires Valid()
      modifies vnodes
      ensures Valid() && fds[..] == old(fds[..])
      ensures var ns := old(vnodes[..]);
        if RenameAllowed(ns, oldPath, newPath)
        then r == 0 && vnodes[..] == Renamed(ns, Resolve(ns, oldPath), ResolveDir(ns, newPath), StoredName(newPath))
        else r == -1 && vnodes[..] == ns
      ensures var ns := old(vnodes[..]);
        r == 0 <==>
          && Resolve(ns, oldPath) > 0 && Resolve(ns, newPath) == -1 && InDirectory(ns, newPath)
          && var d := Lookup(ns, ParentComponents(newPath));
          Resolve(ns, oldPath) in ns[d].children || |ns[d].children| < 32
    {
      RenameAllowedIff(vnodes[..], oldPath, newPath);
      var idx := ResolvePath(oldPath);
      LookupResolved(vnodes[..], oldPath);
      if idx <= 0 { return -1; }
      var taken := ResolvePath(newPath);
      if taken != -1 { return -1; }
      var newParent, newName := ResolveParent(newPath);
      if newParent == -1 { return -1; }
      LookupNode(vnodes[..], ParentComponents(newPath));
      if !vnodes[newParent].isDir { return -1; }
      ResolvedHangs(vnodes[..], oldPath);
      var oldParent := vnodes[idx].parent;
      if newParent != oldParent && |vnodes[newParent].children| >= MAX_CHILDREN { return -1; }
      StoredNameGood(newPath);
      RenamedOk(vnodes[..], fds[..], idx, newParent, newName);
      RemoveChild(oldParent, idx);
      vnodes[newParent] := vnodes[newParent].(children := vnodes[newParent].children + [idx]);
      vnodes[idx] := vnodes[idx].(name := newName, parent := newParent);
      return 0;
    }
  }

  /** The checks of rename. */
  ghost predicate RenameAllowed(ns: Table, oldPath: string, newPath: string)
    requires Linked(ns)
    ensures RenameAllowed(ns, oldPath, newPath) ==>
              IsAbsolute(newPath) && CanRename(ns, Resolve(ns, oldPath), ResolveDir(ns, newPath), StoredName(newPath))
  {
    LookupResolved(ns, oldPath);
    var idx, np := Resolve(ns, oldPath), ResolveDir(ns, newPath);
    && idx > 0 && Resolve(ns, newPath) == -1 && np != -1
    && (LookupNode(ns, ParentComponents(newPath)); ns[np].isDir)
    && (ResolvedHangs(ns, oldPath); StoredNameGood(newPath);
        np == ns[idx].parent || |ns[np].children| < MAX_CHILDREN)
  }

  /** The text before the last slash leads to a directory, and something comes after it. */
  ghost predicate InDirectory(ns: Table, path: string)
    ensures InDirectory(ns, path) ==> IsAbsolute(path) && 0 <= Lookup(ns, ParentComponents(path)) < |ns|
  {
    && IsAbsolute(path) && BaseName(path) != []
    && var d := Lookup(ns, ParentComponents(path)); Node(ns, d) && ns[d].isDir
  }

  /** When a rename goes ahead: the old path leads to a vnode other than the root, the new
      one to nothing, and its directory holds the vnode already or has room. */
  lemma RenameAllowedIff(ns: Table, oldPath: string, newPath: string)
    requires Linked(ns)
    ensures RenameAllowed(ns, oldPath, newPath) <==>
            && Resolve(ns, oldPath) > 0 && Resolve(ns, newPath) == -1 && InDirectory(ns, newPath)
            && var d := Lookup(ns, ParentComponents(newPath));
            Resolve(ns, oldPath) in ns[d].children || |ns[d].children| < 32
  {
    LookupResolved(ns, oldPath);
    if IsAbsolute(newPath) { LookupNode(ns, ParentComponents(newPath)); }
    if Resolve(ns, oldPath) > 0 {
      ResolvedHangs(ns, oldPath);
      if InDirectory(ns, newPath) { assert LinkedAt(ns, Lookup(ns, ParentComponents(newPath))); }
    }
  }

  ghost predicate SlotFree(ns: Table) {
    exists i :: 0 <= i < |ns| && !ns[i].used
  }

  lemma {:induction false} FreeSlotIff(ns: Table, i: nat)
    requires i <= |ns|
    ensures var r := FreeSlot(ns, i);
      if r == -1 then forall k | i <= k < |ns| :: ns[k].used
      else i <= r < |ns| && !ns[r].used && forall k | i <= k < r :: ns[k].used
    decreases |ns| - i
  {
    if i < |ns| && ns[i].used { FreeSlotIff(ns, i + 1); }
  }

  lemma {:induction false} FreeFdIff(fs: seq<Fd>, i: nat)
    requires i <= |fs|
    ensures var r := FreeFd(fs, i);
      if r == -1 then forall k | i <= k < |fs| :: fs[k].used
      else i <= r < |fs| && !fs[r].used && forall k | i <= k < r :: fs[k].used
    decreases |fs| - i
  {
    if i < |fs| && fs[i].used { FreeFdIff(fs, i + 1); }
  }

  /** When a create goes ahead, and that it takes the lowest free slot. */
  lemma CreateSlotIff(ns: Table, path: string)
    requires Linked(ns)
    ensures var idx := CreateSlot(ns, path);
      && (idx != -1 <==> InDirectory(ns, path) && SlotFree(ns))
      && (idx != -1 ==> !ns[idx].used && forall i | 0 <= i < idx :: ns[i].used)
  {
    FreeSlotIff(ns, 0);
    if IsAbsolute(path) { LookupNode(ns, ParentComponents(path)); }
  }

  /** What open can open: a file that is there, or one that it may create and can. */
  ghost predicate Openable(ns: Table, path: string, create: bool) {
    if Resolve(ns, path) != -1 then 0 <= Resolve(ns, path) < |ns| && !ns[Resolve(ns, path)].isDir
    else create && InDirectory(ns, path) && SlotFree(ns)
  }

  lemma OpenableIff(ns: Table, path: string, create: bool, buf: seq<Byte>)
    requires Linked(ns)
    ensures var v := OpenTarget(ns, path, create);
      var ns' := if create && Resolve(ns, path) == -1 then AfterCreate(ns, path, false, buf) else ns;
      Openable(ns, path, create) <==> v != -1 && !ns'[v].isDir
  {
    LookupResolved(ns, path);
    CreateSlotIff(ns, path);
    if Resolve(ns, path) == -1 && create && CreateSlot(ns, path) != -1 {
      LookupNode(ns, ParentComponents(path));
      StoredNameGood(path);
      var d := ResolveDir(ns, path);
      CreatedNode(ns, CreateSlot(ns, path), d, NewNode(path, d, false, buf), CreateSlot(ns, path));
    }
  }

  /** No path leads below this one. */
  ghost predicate NothingBelow(ns: Table, path: string) {
    IsAbsolute(path) ==> forall x :: Lookup(ns, Components(path) + [x]) == -1
  }

  /** When an unlink goes ahead: any file, and any directory other than the root that
      nothing lies below. */
  lemma UnlinkAllowedIff(ns: Table, path: string)
    requires Linked(ns)
    ensures UnlinkAllowed(ns, path) <==> Resolve(ns, path) > 0 && NothingBelow(ns, path)
  {
    LookupResolved(ns, path);
    var idx := Resolve(ns, path);
    if idx > 0 {
      assert LinkedAt(ns, idx);
      forall x ensures Lookup(ns, Components(path) + [x]) == Step(ns, idx, x) { LookupSnoc(ns, Components(path), x); }
      if ns[idx].children != [] {
        var c := ns[idx].children[0];
        assert c in ns[idx].children;
        StepResult(ns, idx, ns[c].name);
        assert Lookup(ns, Components(path) + [ns[c].name]) != -1;
      }
    }
  }

  /** The checks of unlink: not the root, and a directory must be empty. */
  ghost predicate UnlinkAllowed(ns: Table, path: string)
    requires Linked(ns)
    ensures UnlinkAllowed(ns, path) ==> CanUnlink(ns, Resolve(ns, path))
  {
    LookupResolved(ns, path);
    var idx := Resolve(ns, path);
    && idx > 0 && !(ns[idx].isDir && ns[idx].children != [])
    && (ResolvedHangs(ns, path); assert LinkedAt(ns, idx); true)
  }

  lemma {:induction false} WithoutAt(cs: seq<int>, c: int, i: nat)
    requires i < |cs| && cs[i] == c && c !in cs[..i]
    ensures Without(cs, c) == cs[..i] + cs[i + 1..]
  {
    if i > 0 {
      assert cs[0] == cs[..i][0];
      assert cs[1..][..i - 1] == cs[..i][1..];
      WithoutAt(cs[1..], c, i - 1);
    }
  }

  lemma {:induction false} WithoutAbsent(cs: seq<int>, c: int)
    requires c !in cs
    ensures Without(cs, c) == cs
  {
    if cs != [] { WithoutAbsent(cs[1..], c); }
  }

  /** What open opens: the resolved vnode, or the slot of the one it creates. */
  function OpenTarget(ns: Table, path: string, create: bool): (v: int)
    requires Linked(ns)
    ensures v == -1 || 0 <= v < |ns|
  {
    LookupResolved(ns, path);
    if Resolve(ns, path) == -1 && create then CreateSlot(ns, path) else Resolve(ns, path)
  }

  lemma LookupResolved(ns: Table, path: string)
    requires Linked(ns)
    ensures Resolve(ns, path) == -1 || Node(ns, Resolve(ns, path))
  {
    if IsAbsolute(path) { LookupNode(ns, Components(path)); }
  }

  lemma FdSet(ns: Table, fs: seq<Fd>, fd: int, f: Fd)
    requires FdsOk(ns, fs) && 0 <= fd < |fs| && FdOk(ns, f)
    ensures FdsOk(ns, fs[fd := f])
  {}

  /** A write that only lengthens a file keeps the state. */
  lemma WrittenOk(ns: Table, fs: seq<Fd>, v: int, n: VNode)
    requires StateOk(ns, fs) && Node(ns, v) && DataOk(n)
    requires n == ns[v].(data := n.data, size := n.size) && ns[v].size <= n.size
    ensures StateOk(ns[v := n], fs)
  {
    var ns' := ns[v := n];
    forall d | Node(ns', d) ensures LinkedAt(ns', d) { assert LinkedAt(ns, d); }
    FdsKept(ns, ns', fs);
  }

  // ----- what the calls do to paths

  /** The place where a create of or a rename to this path goes. */
  function StoredPath(path: string): seq<Name>
    requires IsAbsolute(path)
  {
    ParentComponents(path) + [StoredName(path)]
  }

  /** Rename, on path strings of any length: if the stored place is free and outside the
      moved subtree, every path is re-rooted there and nothing else moves. */
  lemma RenamePaths(ns: Table, oldPath: string, newPath: string, q: seq<Name>)
    requires Wf(ns) && RenameAllowed(ns, oldPath, newPath) && Lookup(ns, StoredPath(newPath)) == -1
    requires !(Components(oldPath) <= ParentComponents(newPath))
    ensures Lookup(Renamed(ns, Resolve(ns, oldPath), ResolveDir(ns, newPath), StoredName(newPath)), q) ==
            Rerooted(ns, Components(oldPath), StoredPath(newPath), q)
  {
    LookupSnoc(ns, ParentComponents(newPath), StoredName(newPath));
    RenameReroots(ns, Components(oldPath), ParentComponents(newPath), StoredName(newPath), q);
  }

  /** A permitted rename leaves a well-formed tree in one piece exactly when its stored
      place is free and not at or below the old path, or is the vnode's own place. */
  lemma RenameKeepsTreeIff(ns: Table, oldPath: string, newPath: string)
    requires Wf(ns) && Attached(ns) && RenameAllowed(ns, oldPath, newPath)
    ensures var ns' := Renamed(ns, Resolve(ns, oldPath), ResolveDir(ns, newPath), StoredName(newPath));
      Wf(ns') && Attached(ns') <==> RenameTidy(ns, oldPath, newPath)
  {
    RenameTidyIff(ns, Components(oldPath), ParentComponents(newPath), StoredName(newPath));
  }

  ghost predicate RenameTidy(ns: Table, oldPath: string, newPath: string)
    requires Linked(ns) && RenameAllowed(ns, oldPath, newPath)
  {
    || Lookup(ns, StoredPath(newPath)) == Resolve(ns, oldPath)
    || (Lookup(ns, StoredPath(newPath)) == -1 && !(Components(oldPath) <= ParentComponents(newPath)))
  }

  /** After a create the path resolves to the new vnode exactly when the resolvers agree
      on it and the directory had room; every path other than the stored one resolves as
      before, and that one too if it was taken. */
  lemma CreateFoundIff(ns: Table, path: string, isDir: bool, buf: seq<Byte>)
    requires Wf(ns) && Resolve(ns, path) == -1 && CreateSlot(ns, path) > 0
    ensures var n := AfterCreate(ns, path, isDir, buf)[CreateSlot(ns, path)];
      n.used && n.isDir == isDir && n.size == 0 && n.data == buf && n.children == []
    ensures Resolve(AfterCreate(ns, path, isDir, buf), path) == CreateSlot(ns, path) <==>
            Agrees(path) && |ns[ResolveDir(ns, path)].children| < MAX_CHILDREN
    ensures forall q | q != StoredPath(path) || Lookup(ns, q) != -1 ::
              Lookup(AfterCreate(ns, path, isDir, buf), q) == Lookup(ns, q)
  {
    var idx, d, dirc := CreateSlot(ns, path), ResolveDir(ns, path), ParentComponents(path);
    var node := NewNode(path, d, isDir, buf);
    LookupNode(ns, dirc);
    StoredNameGood(path);
    LookupSnoc(ns, dirc, StoredName(path));
    CreatedNode(ns, idx, d, node, idx);
    forall q ensures Lookup(AfterCreate(ns, path, isDir, buf), q) ==
      if q == StoredPath(path) && Lookup(ns, q) == -1 && |ns[d].children| < MAX_CHILDREN then idx else Lookup(ns, q)
    {
      if Step(ns, d, StoredName(path)) == -1 {
        CreateAddsPath(ns, idx, dirc, node, q);
      } else {
        CreateKeepsPaths(ns, idx, d, node, q);
      }
    }
  }

  // ----- runs

  /** The calls that change the tree, and a write, which changes only contents. */
  datatype Op =
    | MakeFile(path: string, buf: seq<Byte>)
    | MakeDir(path: string)
    | Remove(path: string)
    | Move(oldPath: string, newPath: string)
    | Store(vnode: int, data: seq<Byte>, size: nat)

  /** The vnode table after a call, as the contracts of the class say. */
  ghost function Apply(ns: Table, op: Op): Table
    requires Linked(ns)
  {
    match op
    case MakeFile(path, buf) => if Resolve(ns, path) == -1 then AfterCreate(ns, path, false, buf) else ns
    case MakeDir(path) => if Resolve(ns, path) == -1 then AfterCreate(ns, path, true, []) else ns
    case Remove(path) => if UnlinkAllowed(ns, path) then Unlinked(ns, Resolve(ns, path)) else ns
    case Move(oldPath, newPath) =>
      if RenameAllowed(ns, oldPath, newPath)
      then Renamed(ns, Resolve(ns, oldPath), ResolveDir(ns, newPath), StoredName(newPath)) else ns
    case Store(v, data, size) => if Node(ns, v) then ns[v := ns[v].(data := data, size := size)] else ns
  }

  /** A create that goes ahead finds its stored place free or its directory full. */
  ghost predicate CreateTidy(ns: Table, path: string) {
    Resolve(ns, path) == -1 && CreateSlot(ns, path) != -1 ==>
      Lookup(ns, StoredPath(path)) == -1 || |ns[ResolveDir(ns, path)].children| >= MAX_CHILDREN
  }

  /** What a caller can check before the call. */
  ghost predicate Tidy(ns: Table, op: Op)
    requires Linked(ns)
  {
    match op
    case MakeFile(path, buf) => CreateTidy(ns, path)
    case MakeDir(path) => CreateTidy(ns, path)
    case Remove(path) => true
    case Move(oldPath, newPath) => RenameAllowed(ns, oldPath, newPath) ==> RenameTidy(ns, oldPath, newPath)
    case Store(v, data, size) => true
  }

  lemma MadeTidyIff(ns: Table, path: string, isDir: bool, buf: seq<Byte>)
    requires Wf(ns) && Attached(ns) && Resolve(ns, path) == -1
    ensures var ns' := AfterCreate(ns, path, isDir, buf); Wf(ns') && Attached(ns') <==> CreateTidy(ns, path)
  {
    var idx := CreateSlot(ns, path);
    if idx != -1 {
      LookupNode(ns, ParentComponents(path));
      StoredNameGood(path);
      CreateTidyIff(ns, idx, ParentComponents(path), NewNode(path, ResolveDir(ns, path), isDir, buf));
    }
  }

  lemma {:induction false} StoreKeepsLookup(ns: Table, v: int, data: seq<Byte>, size: nat, q: seq<Name>)
    requires Node(ns, v)
    ensures Lookup(ns[v := ns[v].(data := data, size := size)], q) == Lookup(ns, q)
  {
    if q != [] {
      var p, x := q[..|q| - 1], q[|q| - 1];
      StoreKeepsLookup(ns, v, data, size, p);
      var d := Lookup(ns, p);
      if 0 <= d < |ns| { StoreKeepsChild(ns, v, data, size, ns[d].children, x); }
    }
  }

  lemma {:induction false} StoreKeepsChild(ns: Table, v: int, data: seq<Byte>, size: nat, cs: seq<int>, x: Name)
    requires Node(ns, v)
    ensures FindChild(ns[v := ns[v].(data := data, size := size)], cs, x) == FindChild(ns, cs, x)
  {
    if cs != [] { StoreKeepsChild(ns, v, data, size, cs[1..], x); }
  }

  lemma StoreTidy(ns: Table, v: int, data: seq<Byte>, size: nat)
    requires Wf(ns) && Attached(ns) && Node(ns, v)
    ensures var ns' := ns[v := ns[v].(data := data, size := size)]; Wf(ns') && Attached(ns')
  {
    var ns' := ns[v := ns[v].(data := data, size := size)];
    forall d | Node(ns', d) ensures LinkedAt(ns', d) && UniqueAt(ns', d) { assert LinkedAt(ns, d) && UniqueAt(ns, d); }
    forall c | Hangs(ns', c) ensures exists q :: Lookup(ns', q) == c {
      var d :| Node(ns', d) && c in ns'[d].children;
      assert Node(ns, d) && c in ns[d].children && Hangs(ns, c);
      var p :| Lookup(ns, p) == c;
      StoreKeepsLookup(ns, v, data, size, p);
    }
  }

  /** Each call keeps a well-formed tree in one piece exactly if it is tidy. */
  lemma ApplyTidyIff(ns: Table, op: Op)
    requires Wf(ns) && Attached(ns)
    ensures Wf(Apply(ns, op)) && Attached(Apply(ns, op)) <==> Tidy(ns, op)
  {
    match op
    case MakeFile(path, buf) => if Resolve(ns, path) == -1 { MadeTidyIff(ns, path, false, buf); }
    case MakeDir(path) => if Resolve(ns, path) == -1 { MadeTidyIff(ns, path, true, []); }
    case Remove(path) =>
      if UnlinkAllowed(ns, path) {
        UnlinkedWf(ns, Resolve(ns, path));
        UnlinkAttached(ns, Components(path));
      }
    case Move(oldPath, newPath) => if RenameAllowed(ns, oldPath, newPath) { RenameKeepsTreeIff(ns, oldPath, newPath); }
    case Store(v, data, size) => if Node(ns, v) { StoreTidy(ns, v, data, size); }
  }

  ghost predicate TreeRun(tables: seq<Table>, ops: seq<Op>) {
    && |tables| == |ops| + 1
    && forall i | 0 <= i < |ops| :: Linked(tables[i]) && Tidy(tables[i], ops[i]) && tables[i + 1] == Apply(tables[i], ops[i])
  }

  /** The table of a new filesystem: the root directory and nothing else. */
  function EmptyTable(): Table {
    seq(MAX_FILES, i => if i == 0 then VNode(true, true, "/", [], 0, -1, []) else VNode(false, false, [], [], 0, 0, []))
  }

  lemma EmptyTree()
    ensures Wf(EmptyTable()) && Attached(EmptyTable())
  {}

  /** In every run of tidy calls from an empty filesystem links agree, sibling names are
      unique and every vnode in a directory can be reached from the root. */
  lemma {:induction false} TreeRunInv(tables: seq<Table>, ops: seq<Op>, k: nat)
    requires TreeRun(tables, ops) && tables[0] == EmptyTable() && k < |tables|
    ensures Wf(tables[k]) && Attached(tables[k])
  {
    if k == 0 {
      EmptyTree();
    } else {
      TreeRunInv(tables, ops, k - 1);
      ApplyTidyIff(tables[k - 1], ops[k - 1]);
    }
  }

  /** Paths on which the resolvers agree, with destinations outside the moved subtree, are tidy. */
  lemma FittingIsTidy(ns: Table, op: Op)
    requires Linked(ns)
    requires match op
      case MakeFile(path, buf) => IsAbsolute(path) ==> Agrees(path)
      case MakeDir(path) => IsAbsolute(path) ==> Agrees(path)
      case Move(oldPath, newPath) =>
        IsAbsolute(oldPath) && IsAbsolute(newPath) ==>
          Agrees(newPath) && !(Components(oldPath) <= ParentComponents(newPath))
      case _ => true
    ensures Tidy(ns, op)
  {}

  /** A slash-free name of 64 characters under the root reads as two components, and is
      stored as its first 63 characters. */
  lemma LongPath(n: Name)
    requires |n| == MAX_NAME && forall i | 0 <= i < |n| :: n[i] != '/'
    ensures var path := "/" + n;
      && IsAbsolute(path) && BaseName(path) == n && ParentComponents(path) == [] && StoredName(path) == n[..MAX_NAME - 1]
      && Components(path) == [n[..MAX_NAME - 1], n[MAX_NAME - 1..]] && StoredPath(path) == [n[..MAX_NAME - 1]]
  {
    var path, limit := "/" + n, MAX_NAME - 1;
    assert path[1..] == n;
    assert LastSlash(path) == 0;
    ParsePlain(n, limit);
    ParsePlain(n[limit..], limit);
    assert [n[..limit]] + [n[limit..]] == [n[..limit], n[limit..]];
    assert [] + [StoredName(path)] == [StoredName(path)];
  }

  /** So renaming to such a name, when its first 63 characters name another file in the
      root, is permitted and gives two entries of one name. */
  lemma LongRenameDuplicates(ns: Table, oldPath: string, n: Name)
    requires Wf(ns) && |n| == MAX_NAME && forall i | 0 <= i < |n| :: n[i] != '/'
    requires var c := Lookup(ns, [n[..MAX_NAME - 1]]); 0 <= c < |ns| && !ns[c].isDir && c != Resolve(ns, oldPath)
    requires Resolve(ns, oldPath) > 0 && |ns[0].children| < MAX_CHILDREN
    ensures RenameAllowed(ns, oldPath, "/" + n)
    ensures !Wf(Apply(ns, Move(oldPath, "/" + n)))
  {
    LongPath(n);
    BesideFile(ns, oldPath, "/" + n, n[..MAX_NAME - 1], n[MAX_NAME - 1..]);
    MovedOntoOther(ns, oldPath, "/" + n);
  }

  /** A path that goes on below a file does not resolve, so a rename to it goes ahead. */
  lemma BesideFile(ns: Table, oldPath: string, path: string, x: Name, y: Name)
    requires Wf(ns) && IsAbsolute(path) && BaseName(path) != [] && ParentComponents(path) == [] && Components(path) == [x, y]
    requires var c := Lookup(ns, [x]); 0 <= c < |ns| && !ns[c].isDir
    requires Resolve(ns, oldPath) > 0 && |ns[0].children| < MAX_CHILDREN
    ensures RenameAllowed(ns, oldPath, path) && ResolveDir(ns, path) == 0
  {
    LookupSnoc(ns, [x], y);
    assert [x] + [y] == [x, y];
    LookupResolved(ns, oldPath);
    ResolvedHangs(ns, oldPath);
    StoredNameGood(path);
  }

  lemma MovedOntoOther(ns: Table, oldPath: string, newPath: string)
    requires Wf(ns) && RenameAllowed(ns, oldPath, newPath)
    requires Lookup(ns, StoredPath(newPath)) != -1 && Lookup(ns, StoredPath(newPath)) != Resolve(ns, oldPath)
    ensures !Wf(Apply(ns, Move(oldPath, newPath)))
  {
    LookupSnoc(ns, ParentComponents(newPath), StoredName(newPath));
    RenamedUniqueIff(ns, Resolve(ns, oldPath), ResolveDir(ns, newPath), StoredName(newPath));
  }

  lemma PathA()
    ensures IsAbsolute("/a") && Components("/a") == ["a"] && ParentComponents("/a") == [] && StoredName("/a") == "a"
    ensures BaseName("/a") == "a" && Agrees("/a") && StoredPath("/a") == ["a"]
  {
    ParsePlain("a", MAX_NAME - 1);
    assert "/a"[1..] == "a";
    assert LastSlash("/a") == 0;
    assert [] + ["a"] == ["a"];
  }

  lemma PathAB()
    ensures IsAbsolute("/a/b") && ParentComponents("/a/b") == ["a"] && StoredName("/a/b") == "b" && BaseName("/a/b") == "b"
    ensures Agrees("/a/b") && StoredPath("/a/b") == ["a", "b"]
  {
    PathA();
    assert LastSlash("/a/b") == 2;
    assert "/a/b"[..2] == "/a" && "/a/b"[3..] == "b";
    AgreesIff("/a/b");
    assert ["a"] + ["b"] == ["a", "b"];
  }

  /** The filesystem with one directory. */
  lemma OneDirectory()
    ensures Wf(EmptyTable()) && Attached(EmptyTable())
    ensures var ns := Apply(EmptyTable(), MakeDir("/a"));
      && Wf(ns) && Attached(ns) && Resolve(ns, "/a") == 1 && ns[1] == VNode(true, true, "a", [], 0, 0, []) && |ns| == MAX_FILES
  {
    var e := EmptyTable();
    EmptyTree();
    PathA();
    EmptyLookup(e, ["a"]);
    EmptyLookup(e, []);
    assert FreeSlot(e, 0) == FreeSlot(e, 1) == 1;
    ApplyTidyIff(e, MakeDir("/a"));
    CreateFoundIff(e, "/a", true, []);
  }

  /** A directory made in an empty filesystem and then renamed into itself is gone from
      every path. */
  lemma RenameIntoSelf()
    ensures Linked(EmptyTable()) && Linked(Apply(EmptyTable(), MakeDir("/a")))
    ensures var ns := Apply(EmptyTable(), MakeDir("/a"));
      && Resolve(ns, "/a") == 1 && RenameAllowed(ns, "/a", "/a/b")
      && !Attached(Apply(ns, Move("/a", "/a/b")))
  {
    OneDirectory();
    PathA();
    PathAB();
    var ns := Apply(EmptyTable(), MakeDir("/a"));
    LookupSnoc(ns, ["a"], "b");
    assert ["a"] + ["b"] == ["a", "b"];
    assert Lookup(ns, ["a", "b"]) == -1;
    assert RenameAllowed(ns, "/a", "/a/b");
    MovedIntoSelf(ns, "/a", "/a/b");
  }

  lemma MovedIntoSelf(ns: Table, oldPath: string, newPath: string)
    requires Wf(ns) && Attached(ns) && RenameAllowed(ns, oldPath, newPath) && Lookup(ns, StoredPath(newPath)) == -1
    requires Components(oldPath) <= ParentComponents(newPath)
    ensures !Attached(Apply(ns, Move(oldPath, newPath)))
  {
    RenameKeepsTreeIff(ns, oldPath, newPath);
    LookupResolved(ns, oldPath);
    LookupSnoc(ns, ParentComponents(newPath), StoredName(newPath));
    RenamedUniqueIff(ns, Resolve(ns, oldPath), ResolveDir(ns, newPath), StoredName(newPath));
  }
}
