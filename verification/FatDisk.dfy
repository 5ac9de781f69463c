/** From the image writer to the reader: the disk is the image cut into sectors, so a
    directory written by the one is listed by the other. */
module FatDisk {
  import opened FatNames
  import opened Fat32
  import FatImage
  import opened Machine

  /** The sectors of an image. */
  function Sectors(img: seq<Byte>): seq<Sector> {
    seq(|img| / SECTOR, i requires 0 <= i < |img| / SECTOR => img[SECTOR * i..SECTOR * i + SECTOR])
  }

  /** The volume of any image, for any number of sectors per cluster and any start of its
      table and of its data. */
  function ImageVolume(img: seq<Byte>, spc: nat, fatStart: nat, dataStart: nat): Volume {
    Volume(Sectors(img), spc, fatStart, dataStart)
  }

  /** The volume that the tool lays out: one sector per cluster, the table after 32
      sectors, the data after 64. */
  function ToolVolume(img: seq<Byte>): Volume {
    ImageVolume(img, 1, 32, 64)
  }

  /** Where the tool puts a cluster. */
  function ClusterOffset(c: nat): nat
    requires c >= 2
  {
    64 * SECTOR + (c - 2) * SECTOR
  }

  /** A cluster of the image that exists, with an entry in the table. */
  predicate InImage(img: seq<Byte>, c: nat) {
    2 <= c < FatImage.FAT_SECTORS * 128 && ClusterOffset(c) + SECTOR <= |img|
  }

  /** Cluster `c` of any volume is the run of bytes at its place in the image: clusters
      follow each other from the start of the data, the first being number 2. */
  lemma ClusterPlace(img: seq<Byte>, spc: nat, fatStart: nat, dataStart: nat, c: nat)
    requires c >= 2 && dataStart + (c - 2) * spc + spc <= |img| / SECTOR && dataStart + (c - 2) * spc + spc <= W32
    ensures var v, lba := ImageVolume(img, spc, fatStart, dataStart), dataStart + (c - 2) * spc;
      && Readable(v, c) && SECTOR * lba + spc * SECTOR <= |img|
      && ClusterData(v, c) == img[SECTOR * lba..SECTOR * lba + spc * SECTOR]
  {
    var v, k := ImageVolume(img, spc, fatStart, dataStart), (c - 2) * spc;
    assert v.spc == spc && v.dataStart == dataStart && v.disk == Sectors(img);
    ClusterFrom(img, v, c, k);
  }

  lemma ClusterFrom(img: seq<Byte>, v: Volume, c: nat, k: nat)
    requires c >= 2 && k == (c - 2) * v.spc && v.disk == Sectors(img)
    requires v.dataStart + k + v.spc <= |img| / SECTOR && v.dataStart + k + v.spc <= W32
    ensures var lba := v.dataStart + k;
      && Readable(v, c) && SECTOR * lba + v.spc * SECTOR <= |img|
      && ClusterData(v, c) == img[SECTOR * lba..SECTOR * lba + v.spc * SECTOR]
  {
    forall s: nat | s < v.spc ensures SectorAt(v, c, s) == v.dataStart + k + s {
      PlainLba(v, c, k, s);
    }
    SectorsPlace(img, v, c, v.dataStart + k, v.spc);
  }

  lemma PlainLba(v: Volume, c: nat, k: nat, s: nat)
    requires c >= 2 && k == (c - 2) * v.spc && v.dataStart + k + s < W32
    ensures SectorAt(v, c, s) == v.dataStart + k + s
  {
    assert FirstSector(v, c) == (v.dataStart + k % W32) % W32;
    NoCarry(v.dataStart, k, s);
  }

  lemma NoCarry(start: nat, k: nat, s: nat)
    requires start + k + s < W32
    ensures ((start + k % W32) % W32 + s) % W32 == start + k + s
  {}

  lemma {:induction false} SectorsPlace(img: seq<Byte>, v: Volume, c: nat, lba: nat, n: nat)
    requires c >= 2 && n <= v.spc && v.disk == Sectors(img) && lba + v.spc <= |img| / SECTOR
    requires forall s: nat | s < v.spc :: SectorAt(v, c, s) == lba + s
    ensures SECTOR * lba + n * SECTOR <= |img| && SectorsOf(v, c, n) == img[SECTOR * lba..SECTOR * lba + n * SECTOR]
    decreases n
  {
    if n > 0 {
      SectorsPlace(img, v, c, lba, n - 1);
      assert v.disk[lba + (n - 1)] == img[SECTOR * (lba + (n - 1))..SECTOR * (lba + (n - 1)) + SECTOR];
      Joined(img, SECTOR * lba, SECTOR * (lba + (n - 1)), SECTOR * (lba + n));
    }
  }

  lemma Joined(img: seq<Byte>, a: nat, b: nat, d: nat)
    requires a <= b <= d <= |img|
    ensures img[a..b] + img[b..d] == img[a..d]
  {}

  /** The reader finds the cluster where the writer put it. */
  lemma ClusterOnDisk(img: seq<Byte>, c: nat)
    requires InImage(img, c)
    ensures Readable(ToolVolume(img), c)
    ensures ClusterData(ToolVolume(img), c) == img[ClusterOffset(c)..ClusterOffset(c) + SECTOR]
  {
    ClusterPlace(img, 1, 32, 64, c);
  }

  lemma EntriesOnDisk(img: seq<Byte>, c: nat)
    requires InImage(img, c)
    ensures Readable(ToolVolume(img), c)
    ensures ClusterEntries(ToolVolume(img), c) == FatImage.Entries(img, ClusterOffset(c), 16)
  {
    ClusterOnDisk(img, c);
    var data, off := ClusterData(ToolVolume(img), c), ClusterOffset(c);
    forall i: nat | i < 16 ensures data[32 * i..32 * i + 32] == FatImage.EntryAt(img, off + 32 * i) {
      CutTwice(img, off, off + SECTOR, 32 * i, 32 * i + 32);
    }
  }

  lemma CutTwice(img: seq<Byte>, a: nat, b: nat, i: nat, j: nat)
    requires a <= b <= |img| && i <= j <= b - a
    ensures img[a..b][i..j] == img[a + i..a + j]
  {
    assert forall k | 0 <= k < j - i :: img[a..b][i..j][k] == img[a + i..a + j][k];
  }

  lemma SectorByte(img: seq<Byte>, lba: nat, j: nat)
    requires lba < |img| / SECTOR && j < SECTOR
    ensures Sectors(img)[lba][j] == img[SECTOR * lba + j]
  {}

  /** The table entry of any cluster of any volume is the low 28 bits of four bytes of the
      image, four bytes a cluster from the start of the table. */
  lemma EntryPlace(img: seq<Byte>, spc: nat, fatStart: nat, dataStart: nat, c: nat)
    requires 4 * c < W32 && fatStart + 4 * c / SECTOR < |img| / SECTOR && fatStart + 4 * c / SECTOR < W32
    ensures SECTOR * fatStart + 4 * c + 4 <= |img|
    ensures NextCluster(ImageVolume(img, spc, fatStart, dataStart), c) == U32(img, SECTOR * fatStart + 4 * c) % 0x1000_0000
  {
    var lba, i := fatStart + 4 * c / SECTOR, 4 * c % SECTOR / 4;
    assert 4 * c % W32 == 4 * c && lba % W32 == lba;
    assert SECTOR * lba + 4 * i == SECTOR * fatStart + 4 * c;
    SectorField(img, lba, 4 * i);
  }

  /** The reader finds the table entry where the writer put it. */
  lemma TableOnDisk(img: seq<Byte>, c: nat, value: nat)
    requires c < FatImage.FAT_SECTORS * 128 && FatImage.FAT_OFFSET + FatImage.FAT_BYTES <= |img|
    requires FatValue(img, c) == value
    ensures NextCluster(ToolVolume(img), c) == value % 0x1000_0000
  {
    EntryPlace(img, 1, 32, 64, c);
  }

  /** A field of a sector is the field of the image at the same place. */
  lemma SectorField(img: seq<Byte>, lba: nat, j: nat)
    requires lba < |img| / SECTOR && j + 4 <= SECTOR
    ensures SECTOR * lba + j + 4 <= |img| && U32(Sectors(img)[lba], j) == U32(img, SECTOR * lba + j)
  {
    SectorByte(img, lba, j);
    SectorByte(img, lba, j + 1);
    SectorByte(img, lba, j + 2);
    SectorByte(img, lba, j + 3);
  }

  /** The table entry of a cluster in the image. */
  function FatValue(img: seq<Byte>, c: nat): nat
    requires c < FatImage.FAT_SECTORS * 128 && FatImage.FAT_OFFSET + FatImage.FAT_BYTES <= |img|
  {
    U16(img, FatImage.FAT_OFFSET + 4 * c) + 0x1_0000 * U16(img, FatImage.FAT_OFFSET + 4 * c + 2)
  }

  /** A directory that was written into one cluster, whose table entry ends the chain. */
  ghost predicate DirectoryWritten(img: seq<Byte>, c: nat, slot: nat, next: nat, found: seq<Found>, fs: seq<File>) {
    && InImage(img, c) && slot <= next < 16 && FatImage.FAT_OFFSET + FatImage.FAT_BYTES <= |img|
    && FatValue(img, c) == 0x0FFF_FFFF
    && Settled(FatImage.Entries(img, ClusterOffset(c), slot), found)
    && WrittenAll(FatImage.Entries(img, ClusterOffset(c) + 32 * slot, next - slot), fs)
    && img[ClusterOffset(c) + 32 * next] == 0
    && forall i | 0 <= i < |fs| :: FileOk(fs[i])
  }

  /** Iterating over such a directory on the disk cut from the image lists what comes
      first in it and then exactly the files, in order. */
  lemma WrittenIsListed(img: seq<Byte>, c: nat, slot: nat, next: nat, found: seq<Found>, fs: seq<File>, n: nat)
    requires DirectoryWritten(img, c, slot, next, found, fs)
    requires Completed(ToolVolume(img), c, n)
    ensures Listed(ToolVolume(img), c, n) ==
            Scan(found + Listing(FatImage.Entries(img, ClusterOffset(c) + 32 * slot, next - slot), fs), Empty(), true)
  {
    DirectoryOnDisk(img, c, slot, next, 1);
    FirstByte(img, ClusterOffset(c) + 32 * next, 16 - next);
    ListedAt(ToolVolume(img), c, n, 1, FatImage.Entries(img, ClusterOffset(c), slot), found,
             FatImage.Entries(img, ClusterOffset(c) + 32 * slot, next - slot), fs,
             FatImage.Entries(img, ClusterOffset(c) + 32 * next, 16 - next));
  }

  lemma ListedAt(v: Volume, c: nat, n: nat, k: nat, pre: seq<Entry>, found: seq<Found>, es: seq<Entry>, fs: seq<File>,
                 rest: seq<Entry>)
    requires Completed(v, c, n) && DirectoryIs(v, c, k, pre + es + rest)
    requires Settled(pre, found) && WrittenAll(es, fs) && (forall i | 0 <= i < |fs| :: FileOk(fs[i])) && rest != [] && rest[0][0] == 0
    ensures AllReadable(v, Chain(v, c, n)) && Listed(v, c, n) == Scan(found + Listing(es, fs), Empty(), true)
  {
    IterateLists(v, c, n, k, pre, found, es, fs, rest);
  }

  lemma FirstByte(img: seq<Byte>, off: nat, k: nat)
    requires 0 < k && off + 32 * k <= |img|
    ensures |FatImage.Entries(img, off, k)| == k && FatImage.Entries(img, off, k)[0][0] == img[off]
  {}

  lemma DirectoryOnDisk(img: seq<Byte>, c: nat, slot: nat, next: nat, k: nat)
    requires InImage(img, c) && slot <= next < 16 && k == 1
    ensures var v, off := ToolVolume(img), ClusterOffset(c);
      DirectoryIs(v, c, k, FatImage.Entries(img, off, slot) + FatImage.Entries(img, off + 32 * slot, next - slot)
                           + FatImage.Entries(img, off + 32 * next, 16 - next))
  {
    EntriesOnDisk(img, c);
    ThreeParts(img, ClusterOffset(c), slot, next);
    OneCluster(ToolVolume(img), c);
  }

  lemma OneCluster(v: Volume, c: nat)
    requires Live(c) && Readable(v, c)
    ensures Chain(v, c, 1) == [c] && AllReadable(v, [c]) && ChainEntries(v, [c]) == ClusterEntries(v, c)
  {
    assert Chain(v, NextCluster(v, c), 0) == [];
    assert [c][..0] == [] && ChainEntries(v, []) == [];
    assert [] + ClusterEntries(v, c) == ClusterEntries(v, c);
  }

  lemma ThreeParts(img: seq<Byte>, off: nat, slot: nat, next: nat)
    requires slot <= next <= 16 && off + 512 <= |img|
    ensures FatImage.Entries(img, off, 16) ==
            FatImage.Entries(img, off, slot) + FatImage.Entries(img, off + 32 * slot, next - slot)
            + FatImage.Entries(img, off + 32 * next, 16 - next)
  {
    var a, b, d := FatImage.Entries(img, off, slot), FatImage.Entries(img, off + 32 * slot, next - slot),
        FatImage.Entries(img, off + 32 * next, 16 - next);
    forall i: nat | i < 16 ensures FatImage.Entries(img, off, 16)[i] == (a + b + d)[i] {
      if i < slot {
      } else if i < next {
        assert off + 32 * slot + 32 * (i - slot) == off + 32 * i;
      } else {
        assert off + 32 * next + 32 * (i - next) == off + 32 * i;
      }
    }
  }

  /** The chain of such a directory is its one cluster. */
  lemma ChainOfOne(v: Volume, c: nat, k: nat)
    requires Live(c) && !Live(NextCluster(v, c))
    ensures Chain(v, c, k) == if k == 0 then [] else [c]
    ensures k > 0 ==> After(v, c, 1) == NextCluster(v, c)
  {
    if k > 0 {
      assert Chain(v, NextCluster(v, c), k - 1) == [];
      assert After(v, NextCluster(v, c), 0) == NextCluster(v, c);
    }
  }

  /** A walk over it either has not started, and can, or is past its end. */
  lemma WalkEnds(img: seq<Byte>, c: nat, n: nat)
    requires InImage(img, c) && FatImage.FAT_OFFSET + FatImage.FAT_BYTES <= |img| && FatValue(img, c) == 0x0FFF_FFFF
    requires |Chain(ToolVolume(img), c, n)| == n
    ensures var v := ToolVolume(img);
      !Live(After(v, c, n)) || (n < v.MaxClusters() && After(v, c, n) >= 2 && Readable(v, After(v, c, n)))
  {
    EndOnDisk(img, c);
    ClusterOnDisk(img, c);
    ToolBounds(img);
    WalkOfOne(ToolVolume(img), c, n);
  }

  lemma ToolBounds(img: seq<Byte>)
    ensures ToolVolume(img).Ok() && ToolVolume(img).MaxClusters() > 0
  {}

  lemma EndOnDisk(img: seq<Byte>, c: nat)
    requires InImage(img, c) && FatImage.FAT_OFFSET + FatImage.FAT_BYTES <= |img| && FatValue(img, c) == 0x0FFF_FFFF
    ensures !Live(NextCluster(ToolVolume(img), c))
  {
    TableOnDisk(img, c, FatValue(img, c));
  }

  lemma WalkOfOne(v: Volume, c: nat, n: nat)
    requires v.Ok() && v.MaxClusters() > 0 && Live(c) && Readable(v, c) && !Live(NextCluster(v, c)) && |Chain(v, c, n)| == n
    ensures !Live(After(v, c, n)) || (n < v.MaxClusters() && After(v, c, n) >= 2 && Readable(v, After(v, c, n)))
  {
    ChainOfOne(v, c, n);
  }

  /** The reader over an image lists a written directory, and does not fail. */
  method ListImage(img: seq<Byte>, c: nat, ghost slot: nat, ghost next: nat, ghost first: seq<Found>, ghost fs: seq<File>)
    returns (ret: int, found: seq<Found>)
    requires DirectoryWritten(img, c, slot, next, first, fs)
    ensures ret == 0
    ensures found == first + Listing(FatImage.Entries(img, ClusterOffset(c) + 32 * slot, next - slot), fs)
  {
    var v := ToolVolume(img);
    var reader := new Reader(v);
    ghost var n;
    ret, found, n := reader.Iterate(c);
    WalkEnds(img, c, n);
    WrittenIsListed(img, c, slot, next, first, fs, n);
  }

  /** The root directory as the tool writes it, for any files that fit its cluster: a
      volume label, then the files. */
  method MakeRoot(fs: seq<File>) returns (image: FatImage.Image, ghost next: nat)
    requires forall i | 0 <= i < |fs| :: FileOk(fs[i]) && fs[i].cluster < 0x1_0000_0000 && fs[i].size < 0x1_0000_0000
    requires 1 + FatImage.Slots(fs) < 16
    ensures fresh(image) && DirectoryWritten(image.img, 2, 1, next, [], fs)
  {
    image := MakeTables();
    ghost var blank := image.img;
    var volume := File([], [77, 73, 67, 82, 79, 45, 79, 83, 32, 32, 32], 0x08, 0, 0);
    image.WriteShortEntry(ClusterOffset(2), volume);
    ghost var labelled := image.img;
    var end := image.WriteFiles(ClusterOffset(2), 1, fs);
    next := end;
    RootWritten(blank, labelled, image.img, volume, end, fs);
  }

  /** A blank image with the table entries of the two reserved clusters and the root. */
  method MakeTables() returns (image: FatImage.Image)
    ensures fresh(image) && |image.img| == 2048 * SECTOR && FatValue(image.img, 2) == 0x0FFF_FFFF
    ensures forall p: nat | 64 * SECTOR <= p < |image.img| :: image.img[p] == 0
  {
    image := new FatImage.Image(2048 * SECTOR);
    image.WriteFatEntry(0, 0x0FFF_FFF8);
    image.WriteFatEntry(1, 0x0FFF_FFFF);
    image.WriteFatEntry(2, 0x0FFF_FFFF);
  }

  lemma RootWritten(a: seq<Byte>, b: seq<Byte>, d: seq<Byte>, volume: File, next: nat, fs: seq<File>)
    requires |a| == 2048 * SECTOR && (forall p: nat | 64 * SECTOR <= p < |a| :: a[p] == 0) && 1 <= next < 16
    requires FatValue(a, 2) == 0x0FFF_FFFF
    requires |volume.short| == 11 && volume.short[0] == 77 && volume.attr == 0x08
    requires FatImage.OnlyIn(a, b, ClusterOffset(2), ClusterOffset(2) + 32)
    requires IsShort(FatImage.EntryAt(b, ClusterOffset(2)), volume)
    requires FatImage.OnlyIn(b, d, ClusterOffset(2) + 32, ClusterOffset(2) + 32 * next)
    requires WrittenAll(FatImage.Entries(d, ClusterOffset(2) + 32, next - 1), fs) && forall i | 0 <= i < |fs| :: FileOk(fs[i])
    ensures DirectoryWritten(d, 2, 1, next, [], fs)
  {
    var off, end := ClusterOffset(2), ClusterOffset(2) + 32 * next;
    assert Settled(FatImage.Entries(d, off, 1), []) by {
      SameEntry(b, d, off, off + 32, end);
      LabelAlone(d, off, volume);
    }
    assert d[end] == 0 && FatValue(d, 2) == 0x0FFF_FFFF by {
      SameOutside(a, b, off, off + 32, end);
      SameOutside(b, d, off + 32, end, end);
    }
  }

  lemma SameOutside(a: seq<Byte>, b: seq<Byte>, lo: nat, hi: nat, p: nat)
    requires FatImage.OnlyIn(a, b, lo, hi) && 64 * SECTOR <= lo <= hi <= p < |a|
    ensures b[p] == a[p] && FatValue(b, 2) == FatValue(a, 2)
  {}

  lemma SameEntry(a: seq<Byte>, b: seq<Byte>, off: nat, lo: nat, hi: nat)
    requires off + 32 <= lo && lo <= |a| && FatImage.OnlyIn(a, b, lo, hi)
    ensures FatImage.EntryAt(b, off) == FatImage.EntryAt(a, off)
  {}

  lemma LabelAlone(d: seq<Byte>, off: nat, volume: File)
    requires off + 32 <= |d| && |volume.short| == 11 && volume.short[0] == 77 && volume.attr == 0x08
    requires IsShort(FatImage.EntryAt(d, off), volume)
    ensures Settled(FatImage.Entries(d, off, 1), [])
  {
    var e := FatImage.EntryAt(d, off);
    assert e[..11][0] == volume.short[0];
    assert FatImage.Entries(d, off, 1) == [] + [e];
    NothingFirst();
    LabelFirst([], [], e);
  }

  // ----- file contents

  /** The bytes of a file in one cluster of the image are what reading it gives. */
  lemma ContentsOnDisk(img: seq<Byte>, c: nat, data: seq<Byte>)
    requires InImage(img, c) && 0 < |data| <= SECTOR && img[ClusterOffset(c)..ClusterOffset(c) + |data|] == data
    ensures var v := ToolVolume(img);
      && Clean(v, c, |data|) && Got(v, c, |data|) == |data|
      && ChainData(v, Chain(v, c, Needed(v, |data|)))[..|data|] == data
  {
    var v := ToolVolume(img);
    ClusterOnDisk(img, c);
    OneCluster(v, c);
    assert Needed(v, |data|) == 1;
    assert ChainData(v, [c]) == [] + ClusterData(v, c) by { assert [c][..0] == [] && ChainData(v, []) == []; }
    CutTwice(img, ClusterOffset(c), ClusterOffset(c) + SECTOR, 0, |data|);
    assert ClusterData(v, c)[..|data|] == ClusterData(v, c)[0..|data|];
  }
}
