/** Files and directories of any length, on an image with any number of sectors per
    cluster: what the reader of kernel/fs/fat32.c delivers, in bytes of the image. */
module FatFiles {
  import opened FatNames
  import opened Fat32
  import FatDisk
  import opened Machine

  /** The geometry that mounting reads from the boot sector. */
  datatype Layout = Layout(spc: nat, fatStart: nat, dataStart: nat)

  predicate LayoutOk(img: seq<Byte>, lay: Layout) {
    0 < lay.spc <= 128 && lay.fatStart < W32 && 0 < lay.dataStart < W32 && |img| / SECTOR < W32
  }

  function Mounted(img: seq<Byte>, lay: Layout): Volume {
    FatDisk.ImageVolume(img, lay.spc, lay.fatStart, lay.dataStart)
  }

  /** The first byte of a cluster. */
  function Place(lay: Layout, c: nat): nat
    requires c >= 2
  {
    SECTOR * (lay.dataStart + (c - 2) * lay.spc)
  }

  /** A cluster whose sectors and whose table entry lie on the image. */
  predicate OnImage(img: seq<Byte>, lay: Layout, c: nat) {
    && Live(c) && lay.dataStart + (c - 2) * lay.spc + lay.spc <= |img| / SECTOR
    && lay.fatStart + 4 * c / SECTOR < |img| / SECTOR
  }

  /** The table entry of a cluster: the low 28 bits of its four bytes. */
  function Link(img: seq<Byte>, lay: Layout, c: nat): nat
    requires LayoutOk(img, lay) && OnImage(img, lay, c)
  {
    FatDisk.EntryPlace(img, lay.spc, lay.fatStart, lay.dataStart, c);
    U32(img, SECTOR * lay.fatStart + 4 * c) % 0x1000_0000
  }

  /** Distinct clusters of the image, each linked to the next. */
  ghost predicate Chained(img: seq<Byte>, lay: Layout, cs: seq<nat>) {
    && LayoutOk(img, lay)
    && (forall i | 0 <= i < |cs| :: OnImage(img, lay, cs[i]))
    && (forall i, j | 0 <= i < j < |cs| :: cs[i] != cs[j])
    && (forall i | 0 <= i < |cs| - 1 :: Link(img, lay, cs[i]) == cs[i + 1])
  }

  /** The bytes of the clusters, one after the other. */
  ghost function Runs(img: seq<Byte>, lay: Layout, cs: seq<nat>): seq<Byte>
    requires LayoutOk(img, lay) && forall i | 0 <= i < |cs| :: OnImage(img, lay, cs[i])
  {
    if cs == [] then [] else
    var k := |cs| - 1;
    Inside(img, lay, cs[k]);
    Runs(img, lay, cs[..k]) + img[Place(lay, cs[k])..Place(lay, cs[k]) + lay.spc * SECTOR]
  }

  lemma Inside(img: seq<Byte>, lay: Layout, c: nat)
    requires LayoutOk(img, lay) && OnImage(img, lay, c)
    ensures Place(lay, c) + lay.spc * SECTOR <= |img|
    ensures var v := Mounted(img, lay);
      Readable(v, c) && ClusterData(v, c) == img[Place(lay, c)..Place(lay, c) + lay.spc * SECTOR]
  {
    FatDisk.ClusterPlace(img, lay.spc, lay.fatStart, lay.dataStart, c);
  }

  lemma LinkRead(img: seq<Byte>, lay: Layout, c: nat)
    requires LayoutOk(img, lay) && OnImage(img, lay, c)
    ensures NextCluster(Mounted(img, lay), c) == Link(img, lay, c)
  {
    FatDisk.EntryPlace(img, lay.spc, lay.fatStart, lay.dataStart, c);
  }

  /** The walk from the first cluster follows the links. */
  lemma {:induction false} WalkIs(img: seq<Byte>, lay: Layout, cs: seq<nat>, n: nat)
    requires Chained(img, lay, cs) && n <= |cs| && cs != []
    ensures Chain(Mounted(img, lay), cs[0], n) == cs[..n] && (n < |cs| ==> After(Mounted(img, lay), cs[0], n) == cs[n])
    decreases n
  {
    var v := Mounted(img, lay);
    if n > 0 {
      WalkIs(img, lay, cs, n - 1);
      LinkRead(img, lay, cs[n - 1]);
      ChainStep(v, cs[0], n - 1);
      assert cs[..n] == cs[..n - 1] + [cs[n - 1]];
    }
  }

  lemma {:induction false} RunsRead(img: seq<Byte>, lay: Layout, cs: seq<nat>)
    requires LayoutOk(img, lay) && forall i | 0 <= i < |cs| :: OnImage(img, lay, cs[i])
    ensures AllReadable(Mounted(img, lay), cs) && ChainData(Mounted(img, lay), cs) == Runs(img, lay, cs)
    decreases |cs|
  {
    if cs != [] {
      RunsRead(img, lay, cs[..|cs| - 1]);
      forall i | 0 <= i < |cs| ensures Readable(Mounted(img, lay), cs[i]) { Inside(img, lay, cs[i]); }
      Inside(img, lay, cs[|cs| - 1]);
    }
  }

  /** Distinct numbers from `lo` on, below `lo + n`, are at most `n`. */
  lemma {:induction false} Pigeonhole(cs: seq<nat>, lo: nat, n: nat)
    requires forall i | 0 <= i < |cs| :: lo <= cs[i] < lo + n
    requires forall i, j | 0 <= i < j < |cs| :: cs[i] != cs[j]
    ensures |cs| <= n
    decreases n
  {
    assert |cs| > 0 ==> lo <= cs[0] < lo + n;
    if n == 0 {
    } else if k :| 0 <= k < |cs| && cs[k] == lo + n - 1 {
      Pigeonhole(cs[..k] + cs[k + 1..], lo, n - 1);
    } else {
      Pigeonhole(cs, lo, n - 1);
    }
  }

  /** The bound on a walk never cuts a chain without a loop. */
  lemma WithinBound(img: seq<Byte>, lay: Layout, cs: seq<nat>)
    requires Chained(img, lay, cs)
    ensures Mounted(img, lay).Ok() && |cs| <= Mounted(img, lay).MaxClusters()
  {
    var max := Mounted(img, lay).MaxClusters();
    forall i | 0 <= i < |cs| ensures 2 <= cs[i] < 2 + max {
      BelowBound(lay.dataStart, lay.spc, cs[i] - 2, |img| / SECTOR);
    }
    Pigeonhole(cs, 2, max);
  }

  lemma BelowBound(start: nat, spc: nat, k: nat, size: nat)
    requires spc > 0 && start + k * spc + spc <= size < W32
    ensures k < (W32 - 1 - start) / spc
  {
    var room := W32 - 1 - start;
    assert (k + 1) * spc <= room;
    Quotient(room, spc, k + 1);
  }

  lemma Quotient(x: nat, d: nat, q: nat)
    requires d > 0 && q * d <= x
    ensures q <= x / d
  {
    assert x < x / d * d + d == (x / d + 1) * d;
    if x / d < q { Times(x / d + 1, q, d); }
  }

  /** Reading a file with a loop-free chain that is long enough never fails and delivers
      the bytes of its clusters, in the order of the chain. */
  lemma FileDelivered(img: seq<Byte>, lay: Layout, cs: seq<nat>, want: nat)
    requires Chained(img, lay, cs) && cs != [] && want <= |cs| * (lay.spc * SECTOR)
    ensures var v := Mounted(img, lay);
      && v.Ok() && Clean(v, cs[0], want) && Got(v, cs[0], want) == want && want <= |Runs(img, lay, cs)|
      && ChainData(v, Chain(v, cs[0], Needed(v, want)))[..want] == Runs(img, lay, cs)[..want]
  {
    var v := Mounted(img, lay);
    WithinBound(img, lay, cs);
    var n := Needed(v, want);
    Enough(want, v.ClusterSize(), |cs|);
    WalkIs(img, lay, cs, n);
    RunsRead(img, lay, cs[..n]);
    RunsRead(img, lay, cs);
    WholeFileIff(v, cs[0], want);
    RunsPrefix(v, cs, n);
    CutSame(ChainData(v, cs[..n]), Runs(img, lay, cs), want);
  }

  lemma Enough(want: nat, size: nat, k: nat)
    requires size > 0 && want <= k * size
    ensures (want + size - 1) / size <= k
  {
    var n := (want + size - 1) / size;
    CeilDiv(want, size);
    if n > k { Times(k, n - 1, size); }
  }

  lemma CutSame(a: seq<Byte>, b: seq<Byte>, n: nat)
    requires a <= b && n <= |a|
    ensures a[..n] == b[..n]
  {}

  lemma {:induction false} RunsPrefix(v: Volume, cs: seq<nat>, n: nat)
    requires AllReadable(v, cs) && n <= |cs|
    ensures ChainData(v, cs[..n]) <= ChainData(v, cs)
    decreases |cs|
  {
    if n < |cs| {
      RunsPrefix(v, cs[..|cs| - 1], n);
      assert cs[..|cs| - 1][..n] == cs[..n];
    } else {
      assert cs[..n] == cs;
    }
  }

  /** The reader run on such a file. */
  method ReadImage(img: seq<Byte>, lay: Layout, ghost cs: seq<nat>, first: nat, size: nat, buf: array<Byte>)
    returns (ret: int)
    requires Chained(img, lay, cs) && cs != [] && first == cs[0] && size <= |cs| * (lay.spc * SECTOR)
    modifies buf
    ensures 0 <= ret == Min(size, buf.Length) && ret <= |Runs(img, lay, cs)|
    ensures buf[..ret] == Runs(img, lay, cs)[..ret] && buf[ret..] == old(buf[ret..])
  {
    var reader := new Reader(Mounted(img, lay));
    ghost var want := Min(size, buf.Length);
    FileDelivered(img, lay, cs, want);
    ret := reader.ReadFile(first, size, buf);
  }

  // ----- directories

  lemma {:induction false} EntriesOfRuns(v: Volume, cs: seq<nat>)
    requires AllReadable(v, cs)
    ensures ChainEntries(v, cs) == Split(ChainData(v, cs))
    decreases |cs|
  {
    if cs != [] {
      var k := |cs| - 1;
      EntriesOfRuns(v, cs[..k]);
      WholeEntries(k, v.spc);
      SplitJoined(ChainData(v, cs[..k]), ClusterData(v, cs[k]));
    }
  }

  lemma WholeEntries(k: nat, spc: nat)
    ensures k * (spc * SECTOR) % 32 == 0
  {
    assert k * (spc * SECTOR) == 32 * (k * spc * 16);
  }

  lemma SplitJoined(a: seq<Byte>, b: seq<Byte>)
    requires |a| % 32 == 0
    ensures Split(a + b) == Split(a) + Split(b)
  {
    forall i | 0 <= i < |a + b| / 32 ensures Split(a + b)[i] == (Split(a) + Split(b))[i] {
      if i >= |a| / 32 {
        assert 32 * i - |a| == 32 * (i - |a| / 32);
      }
    }
  }

  /** A directory with a loop-free chain that ends is listed without failing: the scan of
      its clusters' bytes, 32 at a time, up to the first free entry. */
  method ListChain(img: seq<Byte>, lay: Layout, ghost cs: seq<nat>, first: nat) returns (ret: int, found: seq<Found>)
    requires Chained(img, lay, cs) && cs != [] && first == cs[0] && !Live(Link(img, lay, cs[|cs| - 1]))
    ensures ret == 0 && found == ScanEntries(Split(Runs(img, lay, cs)), Start()).found
  {
    WithinBound(img, lay, cs);
    var reader := new Reader(Mounted(img, lay));
    ghost var n;
    ret, found, n := reader.Iterate(first);
    WholeWalk(img, lay, cs, n);
    RunsRead(img, lay, cs);
    EntriesOfRuns(Mounted(img, lay), cs);
  }

  /** A walk along an ended chain that stops does so at its end or at a free entry; what it
      lists is what the whole chain holds. */
  lemma WholeWalk(img: seq<Byte>, lay: Layout, cs: seq<nat>, n: nat)
    requires Chained(img, lay, cs) && cs != [] && !Live(Link(img, lay, cs[|cs| - 1]))
    requires var v := Mounted(img, lay); |Chain(v, cs[0], n)| == n && AllReadable(v, Chain(v, cs[0], n))
    ensures var v := Mounted(img, lay);
      && n <= |cs| && AllReadable(v, cs)
      && (n < |cs| ==> Readable(v, cs[n]) && After(v, cs[0], n) == cs[n]) && (n == |cs| ==> !Live(After(v, cs[0], n)))
      && (Listed(v, cs[0], n).ended || n == |cs| ==> Listed(v, cs[0], n) == ScanEntries(ChainEntries(v, cs), Start()))
  {
    var v := Mounted(img, lay);
    RunsRead(img, lay, cs);
    WalkStops(img, lay, cs);
    if n > |cs| { ChainEnds(v, cs[0], |cs|, n); }
    WalkIs(img, lay, cs, n);
    WalkIs(img, lay, cs, |cs|);
    assert cs[..|cs|] == cs;
    if Listed(v, cs[0], n).ended { ListedStable(v, cs[0], n, |cs|); }
  }

  lemma WalkStops(img: seq<Byte>, lay: Layout, cs: seq<nat>)
    requires Chained(img, lay, cs) && cs != [] && !Live(Link(img, lay, cs[|cs| - 1]))
    ensures var v := Mounted(img, lay); |Chain(v, cs[0], |cs|)| == |cs| && !Live(After(v, cs[0], |cs|))
  {
    var v, k := Mounted(img, lay), |cs| - 1;
    WalkIs(img, lay, cs, k);
    WalkIs(img, lay, cs, k + 1);
    LinkRead(img, lay, cs[k]);
    ChainStep(v, cs[0], k);
  }
}
