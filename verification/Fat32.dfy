/** The FAT32 reader of kernel/fs/fat32.c: cluster chains, directory iteration and
    file reading over a disk of 512-byte sectors, in 32-bit arithmetic. */
module Fat32 {
  import opened FatNames
  import opened Machine

  const EOC: nat := 0x0FFF_FFF8
  const SECTOR: nat := 512

  type Sector = s: seq<Byte> | |s| == SECTOR witness seq(SECTOR, _ => 0)

  /** A mounted volume; sectors past the end of the disk cannot be read. */
  datatype Volume = Volume(disk: seq<Sector>, spc: nat, fatStart: nat, dataStart: nat) {
    /** What mounting establishes. */
    predicate Ok() { 0 < spc <= 128 && fatStart < W32 && dataStart < W32 }

    function ClusterSize(): nat { spc * SECTOR }

    /** The bound on the number of clusters a walk visits. */
    function MaxClusters(): nat
      requires Ok()
    {
      if dataStart > 0 then (W32 - 1 - dataStart) / spc else 0
    }
  }

  predicate Live(c: nat) { 2 <= c < EOC }

  /** The next cluster of a chain; an unreadable table sector ends it. */
  function NextCluster(v: Volume, c: nat): nat {
    var off := c * 4 % W32;
    var lba := (v.fatStart + off / SECTOR) % W32;
    if lba >= |v.disk| then EOC else TableEntry(v.disk[lba], off % SECTOR / 4)
  }

  /** Entry `i` of a table sector, without its top four bits. */
  function TableEntry(s: Sector, i: nat): nat
    requires i < 128
  {
    U32(s, 4 * i) % 0x1000_0000
  }

  function FirstSector(v: Volume, c: nat): nat
    requires c >= 2
  {
    (v.dataStart + (c - 2) * v.spc % W32) % W32
  }

  function SectorAt(v: Volume, c: nat, s: nat): nat
    requires c >= 2
  {
    (FirstSector(v, c) + s) % W32
  }

  predicate Readable(v: Volume, c: nat)
    requires c >= 2
  {
    forall s: nat | s < v.spc :: SectorAt(v, c, s) < |v.disk|
  }

  /** The first `n` sectors of a cluster. */
  function SectorsOf(v: Volume, c: nat, n: nat): (r: seq<Byte>)
    requires c >= 2 && n <= v.spc && Readable(v, c)
    ensures |r| == n * SECTOR
  {
    if n == 0 then [] else SectorsOf(v, c, n - 1) + v.disk[SectorAt(v, c, n - 1)]
  }

  function ClusterData(v: Volume, c: nat): (r: seq<Byte>)
    requires c >= 2 && Readable(v, c)
    ensures |r| == v.ClusterSize()
  {
    SectorsOf(v, c, v.spc)
  }

  // ----- chains

  /** The clusters of the chain from `c`, at most `n` of them. */
  function Chain(v: Volume, c: nat, n: nat): (r: seq<nat>)
    ensures |r| <= n && forall i | 0 <= i < |r| :: Live(r[i])
    decreases n
  {
    if n == 0 || !Live(c) then [] else [c] + Chain(v, NextCluster(v, c), n - 1)
  }

  /** The table value after `n` steps of a chain. */
  function After(v: Volume, c: nat, n: nat): nat
    decreases n
  {
    if n == 0 then c else After(v, NextCluster(v, c), n - 1)
  }

  lemma {:induction false} ChainStep(v: Volume, c: nat, n: nat)
    requires |Chain(v, c, n)| == n
    ensures Chain(v, c, n + 1) == if Live(After(v, c, n)) then Chain(v, c, n) + [After(v, c, n)] else Chain(v, c, n)
    ensures After(v, c, n + 1) == NextCluster(v, After(v, c, n))
    decreases n
  {
    if n > 0 { ChainStep(v, NextCluster(v, c), n - 1); }
  }

  /** A chain that is shorter than asked for has ended. */
  lemma {:induction false} ChainEnds(v: Volume, c: nat, n: nat, k: nat)
    requires n <= k && |Chain(v, c, n)| == n && !Live(After(v, c, n))
    ensures Chain(v, c, k) == Chain(v, c, n)
    decreases n
  {
    if n > 0 { ChainEnds(v, NextCluster(v, c), n - 1, k - 1); }
  }

  lemma {:induction false} ChainPrefix(v: Volume, c: nat, n: nat, k: nat)
    requires n <= k && |Chain(v, c, n)| == n
    ensures n <= |Chain(v, c, k)| && Chain(v, c, k)[..n] == Chain(v, c, n)
    decreases n
  {
    if n > 0 { ChainPrefix(v, NextCluster(v, c), n - 1, k - 1); }
  }

  predicate AllReadable(v: Volume, cs: seq<nat>) {
    forall i | 0 <= i < |cs| :: cs[i] >= 2 && Readable(v, cs[i])
  }

  function ChainData(v: Volume, cs: seq<nat>): (r: seq<Byte>)
    requires AllReadable(v, cs)
    ensures |r| == |cs| * v.ClusterSize()
  {
    if cs == [] then [] else
    var k := |cs| - 1;
    ChainData(v, cs[..k]) + ClusterData(v, cs[k])
  }

  // ----- a file

  function Needed(v: Volume, want: nat): nat
    requires v.Ok()
  {
    (want + v.ClusterSize() - 1) / v.ClusterSize()
  }

  /** The walk for `want` bytes meets no unreadable cluster and stays within the bound. */
  predicate Clean(v: Volume, first: nat, want: nat)
    requires v.Ok()
  {
    AllReadable(v, Chain(v, first, Needed(v, want))) && |Chain(v, first, Needed(v, want))| <= v.MaxClusters()
  }

  /** The bytes the chain can give. */
  function Got(v: Volume, first: nat, want: nat): nat
    requires v.Ok()
  {
    Min(want, |Chain(v, first, Needed(v, want))| * v.ClusterSize())
  }

  /** All bytes arrive exactly if the chain is long enough; the return value says
      `want` in either case. */
  lemma WholeFileIff(v: Volume, first: nat, want: nat)
    requires v.Ok()
    ensures Got(v, first, want) == want <==> |Chain(v, first, Needed(v, want))| == Needed(v, want)
  {
    CoverIff(want, v.ClusterSize(), |Chain(v, first, Needed(v, want))|, Needed(v, want));
  }

  lemma CoverIff(want: nat, size: nat, k: nat, n: nat)
    requires size > 0 && k <= n == (want + size - 1) / size
    ensures Min(want, k * size) == want <==> k == n
  {
    CeilDiv(want, size);
    if k < n { Times(k, n - 1, size); }
  }

  lemma Times(a: nat, b: nat, size: nat)
    requires a <= b
    ensures a * size <= b * size
  {}

  lemma CeilDiv(want: nat, size: nat)
    requires size > 0
    ensures var n := (want + size - 1) / size; want <= n * size && (n > 0 ==> (n - 1) * size < want)
  {
    var n := (want + size - 1) / size;
    assert n * size <= want + size - 1 < n * size + size;
    assert (n - 1) * size == n * size - size;
  }

  /** A file entry without a cluster delivers nothing, whatever its size. */
  lemma NoClusterNoBytes(v: Volume, want: nat)
    requires v.Ok()
    ensures Got(v, 0, want) == 0
  {}

  /** The directory entries of a cluster. */
  function ClusterEntries(v: Volume, c: nat): seq<Entry>
    requires c >= 2 && Readable(v, c)
  {
    Split(ClusterData(v, c))
  }

  function Split(data: seq<Byte>): seq<Entry>
  {
    seq(|data| / 32, i requires 0 <= i < |data| / 32 => data[32 * i..32 * i + 32])
  }

  function ChainEntries(v: Volume, cs: seq<nat>): seq<Entry>
    requires AllReadable(v, cs)
  {
    if cs == [] then [] else
    var k := |cs| - 1;
    ChainEntries(v, cs[..k]) + ClusterEntries(v, cs[k])
  }

  class Reader {
    const vol: Volume
    var lfnBuf: array<Byte>
    var lfnLen: nat
    var lfnValid: bool

    ghost predicate Valid()
      reads this, lfnBuf
    {
      vol.Ok() && lfnBuf.Length == MAX_NAME && lfnLen <= 247
    }

    ghost function State(): Lfn
      reads this, lfnBuf
    {
      Lfn(lfnBuf[..], lfnLen, lfnValid)
    }

    constructor (vol: Volume)
      requires vol.Ok()
      ensures Valid() && this.vol == vol && fresh(lfnBuf)
    {
      this.vol := vol;
      lfnBuf := new Byte[MAX_NAME](_ => 0);
      lfnLen, lfnValid := 0, false;
    }

    // ----- long names

    method LfnReset()
      requires Valid()
      modifies this`lfnLen, this`lfnValid, lfnBuf
      ensures Valid() && State() == Empty()
    {
      lfnLen, lfnValid := 0, false;
      for i := 0 to MAX_NAME
        invariant lfnLen == 0 && !lfnValid && forall k: nat | k < i :: lfnBuf[k] == 0
      {
        lfnBuf[i] := 0;
      }
      assert lfnBuf[..] == Empty().buf;
    }

    method LfnAppend(e: Entry)
      requires Valid()
      modifies this`lfnLen, this`lfnValid, lfnBuf
      ensures Valid() && State() == Append(old(State()), e[0], Chars(e))
    {
      AppendOk(State(), e[0], Chars(e));
      var k := e[0] % 64;
      if k == 0 || (k - 1) * 13 + 13 > MAX_NAME { return; }
      var chars := ReadChars(e);
      PlaceChars((k - 1) * 13, chars);
      lfnValid := true;
    }

    /** The 13 characters, from the three fields of the entry. */
    static method ReadChars(e: Entry) returns (chars: seq<nat>)
      ensures chars == Chars(e)
    {
      chars := [];
      for i := 0 to 5
        invariant |chars| == i && forall k: nat | k < i :: chars[k] == Chars(e)[k]
      {
        chars := chars + [U16(e, 1 + 2 * i)];
      }
      for i := 0 to 6
        invariant |chars| == 5 + i && forall k: nat | k < 5 + i :: chars[k] == Chars(e)[k]
      {
        chars := chars + [U16(e, 14 + 2 * i)];
      }
      for i := 0 to 2
        invariant |chars| == 11 + i && forall k: nat | k < 11 + i :: chars[k] == Chars(e)[k]
      {
        chars := chars + [U16(e, 28 + 2 * i)];
      }
    }

    method PlaceChars(base: nat, chars: seq<nat>)
      requires Valid() && base + |chars| <= 247
      modifies this`lfnLen, lfnBuf
      ensures Valid() && State() == Place(old(State()), base, chars)
    {
      PlaceEffect(State(), base, chars);
      var i := 0;
      while i < |chars|
        invariant i <= |chars| && lfnBuf.Length == MAX_NAME && lfnBuf == old(lfnBuf)
        invariant Place(State(), base + i, chars[i..]) == Place(old(State()), base, chars)
      {
        var pos := base + i;
        if pos >= MAX_NAME - 1 { break; }
        ghost var was := State();
        if chars[i] == 0 || chars[i] == 0xFFFF {
          if pos > lfnLen { lfnLen := pos; }
        } else {
          lfnBuf[pos] := if chars[i] < 128 then chars[i] else 63;
          if pos + 1 > lfnLen { lfnLen := pos + 1; }
        }
        assert State() == PlaceOne(was, pos, chars[i]);
        assert chars[i..][1..] == chars[i + 1..];
        i := i + 1;
      }
    }

    // ----- chains

    method Next(c: nat) returns (n: nat)
      ensures n == NextCluster(vol, c)
    {
      var fatOffset := c * 4 % W32;
      var fatSector := (vol.fatStart + fatOffset / SECTOR) % W32;
      if fatSector >= |vol.disk| { return EOC; }
      n := TableEntry(vol.disk[fatSector], fatOffset % SECTOR / 4);
    }

    method ReadCluster(c: nat) returns (ok: bool, data: seq<Byte>)
      requires Live(c)
      ensures ok <==> Readable(vol, c)
      ensures ok ==> data == ClusterData(vol, c)
    {
      data := [];
      var lba := FirstSector(vol, c);
      var s := 0;
      while s < vol.spc
        invariant s <= vol.spc && |data| == s * SECTOR
        invariant forall k: nat | k < s :: SectorAt(vol, c, k) < |vol.disk|
        invariant Readable(vol, c) ==> data == SectorsOf(vol, c, s)
      {
        if (lba + s) % W32 >= |vol.disk| {
          assert SectorAt(vol, c, s) >= |vol.disk|;
          return false, data;
        }
        data := data + vol.disk[(lba + s) % W32];
        s := s + 1;
      }
      ok := true;
    }

    // ----- directories

    static method ShortNameOf(n: seq<Byte>) returns (name: seq<Byte>)
      requires |n| == 11
      ensures name == ShortName(n)
    {
      name := TrimLower(n[..8]);
      if n[8] != 32 {
        var ext := TrimLower(n[8..]);
        name := name + [46] + ext;
      }
    }

    static method TrimLower(s: seq<Byte>) returns (r: seq<Byte>)
      ensures r == Trimmed(s)
    {
      r := [];
      var i := 0;
      while i < |s| && s[i] != 32
        invariant i <= |s| && Trimmed(s) == r + Trimmed(s[i..])
      {
        assert s[i..][1..] == s[i + 1..];
        r := r + [if 65 <= s[i] <= 90 then s[i] + 32 else s[i]];
        i := i + 1;
      }
      assert r + [] == r;
    }

    /** The name the callback gets for entry `e`. */
    method CurrentName(e: Entry) returns (name: seq<Byte>)
      requires Valid()
      modifies lfnBuf
      ensures Valid() && name == NameOf(old(State()), e)
    {
      if lfnValid {
        ghost var l := State();
        lfnBuf[lfnLen] := 0;
        assert lfnBuf[..lfnLen] == l.buf[..lfnLen];
        name := TextOf(lfnBuf[..lfnLen + 1]);
        CStringEnd(lfnBuf[..lfnLen]);
        assert lfnBuf[..lfnLen + 1] == lfnBuf[..lfnLen] + [0];
      } else {
        name := ShortNameOf(e[..11]);
      }
    }

    /** The text of a terminated buffer, as its readers see it. */
    static method TextOf(s: seq<Byte>) returns (r: seq<Byte>)
      ensures r == CString(s)
    {
      r := [];
      var i := 0;
      while i < |s| && s[i] != 0
        invariant i <= |s| && CString(s) == r + CString(s[i..])
      {
        assert s[i..][1..] == s[i + 1..];
        r := r + [s[i]];
        i := i + 1;
      }
      assert r + [] == r;
    }

    /** One step of the scan. */
    method HandleEntry(e: Entry, ghost st: Scan, found: seq<Found>) returns (stop: bool, more: seq<Found>)
      requires Valid() && !st.ended && st.lfn == State() && st.found == found
      modifies this`lfnLen, this`lfnValid, lfnBuf
      ensures Valid() && LfnOk(st.lfn)
      ensures ScanEntry(e, st) == Scan(more, State(), stop)
    {
      more, stop := found, false;
      if e[0] == 0 { stop := true; return; }
      if e[0] == 0xE5 { return; }
      if e[11] == ATTR_LFN { LfnAppend(e); return; }
      if e[11] / 8 % 2 == 1 { LfnReset(); return; }
      var name := CurrentName(e);
      more := more + [Found(name, e)];
      LfnReset();
    }

    /** The entries of one cluster, up to the end of the directory. */
    method ScanCluster(data: seq<Byte>, ghost st: Scan, found: seq<Found>) returns (stop: bool, more: seq<Found>)
      requires Valid() && !st.ended && st.lfn == State() && st.found == found
      modifies this`lfnLen, this`lfnValid, lfnBuf
      ensures Valid() && LfnOk(st.lfn) && ScanEntries(Split(data), st) == Scan(more, State(), stop)
    {
      more, stop := found, false;
      ghost var es := Split(data);
      for i := 0 to |data| / 32
        invariant Valid() && LfnOk(st.lfn) && lfnBuf == old(lfnBuf) && ScanEntries(es[..i], st) == Scan(more, State(), false)
      {
        stop, more := HandleEntry(data[32 * i..32 * i + 32], ScanEntries(es[..i], st), more);
        ScanOne(es, st, i);
        if stop { ScanEnded(es, st, i + 1); return; }
      }
      assert es[..|es|] == es;
    }

    /** iterate_dir: what it reports is the scan of the first `n` clusters of the
        chain. It stops at the end of the directory or of the chain, and on any table,
        also a cyclic one, after at most the bounded number of clusters. */
    method Iterate(first: nat) returns (ret: int, found: seq<Found>, ghost n: nat)
      requires Valid()
      modifies this`lfnLen, this`lfnValid, lfnBuf
      ensures Valid() && n <= vol.MaxClusters()
      ensures |Chain(vol, first, n)| == n && AllReadable(vol, Chain(vol, first, n))
      ensures found == Listed(vol, first, n).found
      ensures ret == 0 || ret == -1
      ensures ret == 0 <==> Listed(vol, first, n).ended || !Live(After(vol, first, n))
      ensures ret == -1 ==> n == vol.MaxClusters() || !Readable(vol, After(vol, first, n))
    {
      LfnReset();
      found, n := [], 0;
      var max := vol.MaxClusters();
      var cluster, steps := first, 0;
      while Live(cluster)
        invariant Valid() && lfnBuf == old(lfnBuf) && n == steps <= max
        invariant |Chain(vol, first, n)| == n && cluster == After(vol, first, n) && AllReadable(vol, Chain(vol, first, n))
        invariant Listed(vol, first, n) == Scan(found, State(), false)
        decreases max - steps
      {
        if steps + 1 > max { return -1, found, n; }
        var ok, stop;
        ok, stop, found, cluster := IterateNext(first, n, cluster, found);
        if !ok { return -1, found, n; }
        n, steps := n + 1, steps + 1;
        if stop { return 0, found, n; }
      }
      ret := 0;
    }

    /** One cluster of a directory. */
    method IterateNext(ghost first: nat, ghost n: nat, cluster: nat, found: seq<Found>)
      returns (ok: bool, stop: bool, more: seq<Found>, next: nat)
      requires Valid() && Live(cluster)
      requires |Chain(vol, first, n)| == n && cluster == After(vol, first, n) && AllReadable(vol, Chain(vol, first, n))
      requires Listed(vol, first, n) == Scan(found, State(), false)
      modifies this`lfnLen, this`lfnValid, lfnBuf
      ensures Valid() && (ok <==> Readable(vol, cluster)) && (!ok ==> more == found)
      ensures ok ==> |Chain(vol, first, n + 1)| == n + 1 && AllReadable(vol, Chain(vol, first, n + 1))
      ensures ok ==> next == After(vol, first, n + 1) && Listed(vol, first, n + 1) == Scan(more, State(), stop)
    {
      more, stop, next := found, false, cluster;
      var data;
      ok, data := ReadCluster(cluster);
      if !ok { return; }
      stop, more := ScanCluster(data, Listed(vol, first, n), found);
      ListedStep(vol, first, n);
      next := Next(cluster);
    }

    /** fat32_read_file after the path has been resolved: the bytes of the chain, cut
        to the file size and the buffer. It fails exactly if the walk meets an
        unreadable cluster or is longer than the bound. */
    method ReadFile(first: nat, fileSize: nat, buf: array<Byte>) returns (ret: int)
      requires vol.Ok()
      modifies buf
      ensures ret == if Clean(vol, first, Min(fileSize, buf.Length)) then Min(fileSize, buf.Length) else -1
      ensures ret >= 0 ==> Delivered(vol, first, ret, old(buf[..]), buf[..])
    {
      var size := Min(fileSize, buf.Length);
      var max := vol.MaxClusters();
      var cluster, steps, p := first, 0, 0;
      while p < size && Live(cluster)
        invariant steps <= max && cluster == After(vol, first, steps)
        invariant Copied(vol, first, size, steps, p, old(buf[..]), buf[..])
        decreases max - steps
      {
        var ok;
        ok, p, cluster := ReadNext(first, size, steps, p, cluster, buf, old(buf[..]));
        if !ok { return -1; }
        steps := steps + 1;
      }
      WalkDone(vol, first, size, steps, p);
      ret := size;
    }

    /** One cluster of the file. */
    method ReadNext(ghost first: nat, size: nat, steps: nat, p: nat, cluster: nat, buf: array<Byte>, ghost a: seq<Byte>)
      returns (ok: bool, p': nat, next: nat)
      requires vol.Ok() && steps <= vol.MaxClusters() && p < size && Live(cluster) && cluster == After(vol, first, steps)
      requires Copied(vol, first, size, steps, p, a, buf[..])
      modifies buf
      ensures !ok ==> !Clean(vol, first, size)
      ensures ok ==> steps < vol.MaxClusters() && next == After(vol, first, steps + 1)
      ensures ok ==> Copied(vol, first, size, steps + 1, p', a, buf[..])
    {
      MoreNeeded(vol, first, size, steps, p);
      p', next := p, cluster;
      if steps + 1 > vol.MaxClusters() { return false, p, cluster; }
      var data;
      ok, data := ReadCluster(cluster);
      if !ok { return; }
      p' := StoreCluster(first, size, steps, p, cluster, data, buf, a);
      next := Next(cluster);
    }

    /** The bytes of one cluster that are still wanted go into the buffer. */
    method StoreCluster(ghost first: nat, size: nat, ghost steps: nat, p: nat, ghost cluster: nat, data: seq<Byte>,
                        buf: array<Byte>, ghost a: seq<Byte>) returns (p': nat)
      requires vol.Ok() && steps < Needed(vol, size) && p < size && Live(cluster) && cluster == After(vol, first, steps)
      requires Copied(vol, first, size, steps, p, a, buf[..]) && Readable(vol, cluster) && data == ClusterData(vol, cluster)
      modifies buf
      ensures Copied(vol, first, size, steps + 1, p', a, buf[..])
      ensures After(vol, first, steps + 1) == NextCluster(vol, cluster)
    {
      ghost var was := buf[..];
      var toCopy := Min(size - p, vol.ClusterSize());
      CopyInto(buf, p, data, toCopy);
      CopyStep(vol, first, size, steps, p, a, was, buf[..]);
      p' := p + toCopy;
    }

    static method CopyInto(buf: array<Byte>, p: nat, data: seq<Byte>, n: nat)
      requires p + n <= buf.Length && n <= |data|
      modifies buf
      ensures buf[..] == Spliced(old(buf[..]), p, data[..n])
    {
      for i := 0 to n
        invariant forall k: nat | k < i :: buf[p + k] == data[k]
        invariant forall k: nat | k < buf.Length && !(p <= k < p + i) :: buf[k] == old(buf[k])
      {
        buf[p + i] := data[i];
      }
      assert forall k: nat | k < buf.Length :: buf[..][k] == Spliced(old(buf[..]), p, data[..n])[k];
    }
  }

  /** `a` with `x` stored at `p`. */
  function Spliced(a: seq<Byte>, p: nat, x: seq<Byte>): seq<Byte>
    requires p + |x| <= |a|
  {
    a[..p] + x + a[p + |x|..]
  }

  /** The buffer holds what the chain can give of `want` bytes, and is otherwise untouched. */
  ghost predicate Delivered(v: Volume, first: nat, want: nat, a: seq<Byte>, b: seq<Byte>)
    requires v.Ok() && Clean(v, first, want)
  {
    want <= |a| && b == Spliced(a, 0, ChainData(v, Chain(v, first, Needed(v, want)))[..Got(v, first, want)])
  }

  /** After `n` clusters, `p` bytes of `size` are in the buffer. */
  ghost predicate Copied(v: Volume, first: nat, size: nat, n: nat, p: nat, a: seq<Byte>, b: seq<Byte>)
    requires v.Ok()
  {
    && n <= Needed(v, size) && p == Min(size, n * v.ClusterSize()) && size <= |a|
    && |Chain(v, first, n)| == n && AllReadable(v, Chain(v, first, n))
    && b == Spliced(a, 0, ChainData(v, Chain(v, first, n))[..p])
  }

  lemma MoreNeeded(v: Volume, first: nat, size: nat, n: nat, p: nat)
    requires v.Ok() && n <= Needed(v, size) && p == Min(size, n * v.ClusterSize()) && p < size
    requires |Chain(v, first, n)| == n && Live(After(v, first, n))
    ensures n < Needed(v, size)
    ensures n < |Chain(v, first, Needed(v, size))| && Chain(v, first, Needed(v, size))[n] == After(v, first, n)
  {
    var need := Needed(v, size);
    StillNeeded(size, n, v.ClusterSize(), need);
    ChainAt(v, first, n, need);
  }

  lemma StillNeeded(size: nat, n: nat, cs: nat, need: nat)
    requires cs > 0 && n <= need == (size + cs - 1) / cs && Min(size, n * cs) < size
    ensures n < need
  {
    CeilDiv(size, cs);
  }

  lemma ChainAt(v: Volume, c: nat, n: nat, k: nat)
    requires n < k && |Chain(v, c, n)| == n && Live(After(v, c, n))
    ensures n < |Chain(v, c, k)| && Chain(v, c, k)[n] == After(v, c, n)
  {
    ChainStep(v, c, n);
    ChainPrefix(v, c, n + 1, k);
    assert Chain(v, c, k)[n] == Chain(v, c, k)[..n + 1][n];
  }

  lemma CopyStep(v: Volume, first: nat, size: nat, n: nat, p: nat, a: seq<Byte>, b: seq<Byte>, b': seq<Byte>)
    requires v.Ok() && Copied(v, first, size, n, p, a, b) && n < Needed(v, size)
    requires Live(After(v, first, n)) && Readable(v, After(v, first, n))
    requires var k := Min(size - p, v.ClusterSize());
      b' == Spliced(b, p, ClusterData(v, After(v, first, n))[..k])
    ensures Copied(v, first, size, n + 1, p + Min(size - p, v.ClusterSize()), a, b')
    ensures After(v, first, n + 1) == NextCluster(v, After(v, first, n))
  {
    var size' := v.ClusterSize();
    var k := Min(size - p, size');
    ChainMore(v, first, n);
    NextMin(size, n, size', p);
    SpliceMore(a, ChainData(v, Chain(v, first, n)), ClusterData(v, After(v, first, n)), p, k);
  }

  lemma ChainMore(v: Volume, first: nat, n: nat)
    requires |Chain(v, first, n)| == n && AllReadable(v, Chain(v, first, n))
    requires Live(After(v, first, n)) && Readable(v, After(v, first, n))
    ensures |Chain(v, first, n + 1)| == n + 1 && AllReadable(v, Chain(v, first, n + 1))
    ensures After(v, first, n + 1) == NextCluster(v, After(v, first, n))
    ensures ChainData(v, Chain(v, first, n + 1)) == ChainData(v, Chain(v, first, n)) + ClusterData(v, After(v, first, n))
  {
    ChainStep(v, first, n);
    EntriesStep(v, Chain(v, first, n), After(v, first, n));
  }

  /** Only the last cluster is cut. */
  lemma NextMin(size: nat, n: nat, cs: nat, p: nat)
    requires p == Min(size, n * cs) && cs > 0 && n < (size + cs - 1) / cs
    ensures p == n * cs && p + Min(size - p, cs) == Min(size, (n + 1) * cs)
  {
    CeilDiv(size, cs);
    Times(n, (size + cs - 1) / cs - 1, cs);
    assert (n + 1) * cs == n * cs + cs;
  }

  lemma SpliceMore(a: seq<Byte>, x: seq<Byte>, y: seq<Byte>, p: nat, k: nat)
    requires p == |x| && p + k <= |a| && k <= |y|
    ensures Spliced(Spliced(a, 0, x[..p]), p, y[..k]) == Spliced(a, 0, (x + y)[..p + k])
  {
    assert (x + y)[..p + k] == x + y[..k];
  }

  /** When the loop ends the walk was clean and the buffer holds all there is. */
  lemma WalkDone(v: Volume, first: nat, size: nat, n: nat, p: nat)
    requires v.Ok() && n <= Needed(v, size) && n <= v.MaxClusters() && p == Min(size, n * v.ClusterSize())
    requires |Chain(v, first, n)| == n && AllReadable(v, Chain(v, first, n))
    requires p == size || !Live(After(v, first, n))
    ensures Chain(v, first, Needed(v, size)) == Chain(v, first, n) && Clean(v, first, size) && Got(v, first, size) == p
  {
    if p == size {
      CoverIff(size, v.ClusterSize(), n, Needed(v, size));
    } else {
      ChainEnds(v, first, n, Needed(v, size));
    }
  }

  /** The scan of the first `n` clusters of a directory. */
  ghost function Listed(v: Volume, first: nat, n: nat): (r: Scan)
    requires AllReadable(v, Chain(v, first, n))
  {
    ScanEntries(ChainEntries(v, Chain(v, first, n)), Start())
  }

  lemma ListedStep(v: Volume, first: nat, n: nat)
    requires |Chain(v, first, n)| == n && AllReadable(v, Chain(v, first, n))
    requires Live(After(v, first, n)) && Readable(v, After(v, first, n))
    ensures |Chain(v, first, n + 1)| == n + 1 && AllReadable(v, Chain(v, first, n + 1))
    ensures After(v, first, n + 1) == NextCluster(v, After(v, first, n))
    ensures Listed(v, first, n + 1) == ScanEntries(ClusterEntries(v, After(v, first, n)), Listed(v, first, n))
  {
    ChainStep(v, first, n);
    var cs, c := Chain(v, first, n), After(v, first, n);
    EntriesStep(v, cs, c);
    ScanAppend(ChainEntries(v, cs), ClusterEntries(v, c), Start());
  }

  lemma EntriesStep(v: Volume, cs: seq<nat>, c: nat)
    requires AllReadable(v, cs) && c >= 2 && Readable(v, c)
    ensures AllReadable(v, cs + [c]) && ChainEntries(v, cs + [c]) == ChainEntries(v, cs) + ClusterEntries(v, c)
    ensures ChainData(v, cs + [c]) == ChainData(v, cs) + ClusterData(v, c)
  {
    assert (cs + [c])[..|cs|] == cs;
  }

  lemma ScanEnded(es: seq<Entry>, st: Scan, i: nat)
    requires i <= |es| && LfnOk(st.lfn) && ScanEntries(es[..i], st).ended
    ensures ScanEntries(es, st) == ScanEntries(es[..i], st)
  {
    assert es == es[..i] + es[i..];
    ScanAppend(es[..i], es[i..], st);
  }

  lemma {:induction false} CStringEnd(s: seq<Byte>)
    ensures CString(s + [0]) == CString(s)
  {
    if s != [] && s[0] != 0 {
      assert (s + [0])[1..] == s[1..] + [0];
      CStringEnd(s[1..]);
    }
  }

  // ----- a written directory on disk

  lemma {:induction false} ChainLast(v: Volume, c: nat, k: nat)
    requires 0 < k == |Chain(v, c, k)|
    ensures |Chain(v, c, k - 1)| == k - 1 && Live(After(v, c, k - 1)) && Chain(v, c, k) == Chain(v, c, k - 1) + [After(v, c, k - 1)]
    decreases k
  {
    if k > 1 { ChainLast(v, NextCluster(v, c), k - 1); }
  }

  /** Clusters after the end of a directory add nothing. */
  lemma {:induction false} ListedStable(v: Volume, first: nat, n: nat, k: nat)
    requires n <= k == |Chain(v, first, k)| && AllReadable(v, Chain(v, first, k))
    requires AllReadable(v, Chain(v, first, n)) && Listed(v, first, n).ended
    ensures Listed(v, first, k) == Listed(v, first, n)
    decreases k
  {
    if n < k {
      ChainLast(v, first, k);
      assert AllReadable(v, Chain(v, first, k)[..k - 1]);
      assert Chain(v, first, k)[k - 1] == After(v, first, k - 1);
      ListedStable(v, first, n, k - 1);
      ListedStep(v, first, k - 1);
    }
  }

  lemma {:induction false} LiveWithin(v: Volume, first: nat, n: nat, k: nat)
    requires n < k == |Chain(v, first, k)|
    ensures Live(After(v, first, n))
    decreases k
  {
    ChainLast(v, first, k);
    if n < k - 1 { LiveWithin(v, first, n, k - 1); }
  }

  /** What an iteration that returns 0 has visited. */
  ghost predicate Completed(v: Volume, first: nat, n: nat) {
    && |Chain(v, first, n)| == n && AllReadable(v, Chain(v, first, n))
    && (Listed(v, first, n).ended || !Live(After(v, first, n)))
  }

  /** The first `k` clusters from `first` exist, can be read and hold these entries. */
  ghost predicate DirectoryIs(v: Volume, first: nat, k: nat, es: seq<Entry>) {
    |Chain(v, first, k)| == k && AllReadable(v, Chain(v, first, k)) && ChainEntries(v, Chain(v, first, k)) == es
  }

  /** When the first `k` clusters of a directory hold settled entries, the entries of
      some files and then a free entry, a completed iteration reports exactly those. */
  lemma IterateLists(v: Volume, first: nat, n: nat, k: nat, pre: seq<Entry>, found: seq<Found>,
                     es: seq<Entry>, fs: seq<File>, rest: seq<Entry>)
    requires Completed(v, first, n)
    requires DirectoryIs(v, first, k, pre + es + rest) && Settled(pre, found) && WrittenAll(es, fs)
    requires (forall i | 0 <= i < |fs| :: FileOk(fs[i])) && rest != [] && rest[0][0] == 0
    ensures Listed(v, first, n) == Scan(found + Listing(es, fs), Empty(), true)
  {
    ListDirectory(pre, found, es, fs, rest);
    ListedSame(v, first, n, k);
  }

  /** A completed iteration and one that finds the end in its first `k` clusters agree. */
  lemma ListedSame(v: Volume, first: nat, n: nat, k: nat)
    requires Completed(v, first, n)
    requires |Chain(v, first, k)| == k && AllReadable(v, Chain(v, first, k)) && Listed(v, first, k).ended
    ensures Listed(v, first, n) == Listed(v, first, k)
  {
    if n > k {
      ListedStable(v, first, k, n);
    } else if n < k {
      LiveWithin(v, first, n, k);
      ListedStable(v, first, n, k);
    }
  }
}
