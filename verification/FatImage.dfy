/** The directory writer of tools/mkfat32.py: it stores entries into a disk image. */
module FatImage {
  import opened FatNames
  import opened Machine

  /** Only bytes in `lo..hi` differ. */
  ghost predicate OnlyIn(a: seq<Byte>, b: seq<Byte>, lo: nat, hi: nat) {
    |a| == |b| && forall p: nat | p < |a| && !(lo <= p < hi) :: b[p] == a[p]
  }

  function EntryAt(img: seq<Byte>, off: nat): Entry
    requires off + 32 <= |img|
  {
    img[off..off + 32]
  }

  /** `n` entries from `off` on. */
  function Entries(img: seq<Byte>, off: nat, n: nat): seq<Entry>
    requires off + 32 * n <= |img|
  {
    seq(n, i requires 0 <= i < n => EntryAt(img, off + 32 * i))
  }

  predicate Wide(cs: seq<nat>) { forall i | 0 <= i < |cs| :: cs[i] < 0x1_0000 }

  const FAT_SECTORS: nat := 16
  const FAT_BYTES: nat := FAT_SECTORS * 512
  const FAT_OFFSET: nat := 32 * 512

  /** The checksum of an 8.3 name: rotate right, add. */
  function NameSum(n: seq<Byte>): nat {
    if n == [] then 0 else
    var s := NameSum(n[..|n| - 1]);
    (s / 2 + s % 2 * 128 + n[|n| - 1]) % 256
  }

  lemma OnlyMore(a: seq<Byte>, b: seq<Byte>, d: seq<Byte>, lo: nat, mid: nat, hi: nat)
    requires OnlyIn(a, b, lo, mid) && OnlyIn(b, d, mid, hi) && lo <= mid <= hi
    ensures OnlyIn(a, d, lo, hi)
  {}

  /** From `a` to `b` the files were written into the slots from `slot` to `next`. */
  ghost predicate FilesWritten(a: seq<Byte>, b: seq<Byte>, parent: nat, slot: nat, next: nat, fs: seq<File>) {
    && next == slot + Slots(fs) && parent + 32 * next <= |b| && OnlyIn(a, b, parent + 32 * slot, parent + 32 * next)
    && WrittenAll(Entries(b, parent + 32 * slot, next - slot), fs)
  }

  class Image {
    var img: seq<Byte>

    constructor (size: nat)
      ensures |img| == size && forall p | 0 <= p < size :: img[p] == 0
    {
      img := seq(size, i => 0);
    }

    method Put16(at: nat, x: nat)
      requires at + 2 <= |img| && x < 0x1_0000
      modifies this
      ensures OnlyIn(old(img), img, at, at + 2) && U16(img, at) == x
    {
      img := img[at := x % 0x100][at + 1 := x / 0x100];
    }

    method PutChars(at: nat, cs: seq<nat>)
      requires at + 2 * |cs| <= |img| && Wide(cs)
      modifies this
      ensures OnlyIn(old(img), img, at, at + 2 * |cs|)
      ensures forall k: nat | k < |cs| :: U16(img, at + 2 * k) == cs[k]
    {
      for i := 0 to |cs|
        invariant OnlyIn(old(img), img, at, at + 2 * i)
        invariant forall k: nat | k < i :: U16(img, at + 2 * k) == cs[k]
      {
        Put16(at + 2 * i, cs[i]);
      }
    }

    /** One long-name entry. */
    method WriteLfnEntry(off: nat, order: Byte, chars: seq<nat>, checksum: Byte)
      requires off + 32 <= |img| && |chars| == 13 && Wide(chars)
      modifies this
      ensures OnlyIn(old(img), img, off, off + 32) && IsLfn(EntryAt(img, off), order, chars)
      ensures img[off + 12] == 0 && img[off + 13] == checksum
    {
      img := img[off := order][off + 11 := ATTR_LFN][off + 12 := 0][off + 13 := checksum];
      PutChars(off + 1, chars[..5]);
      PutChars(off + 14, chars[5..11]);
      PutChars(off + 28, chars[11..]);
      CharsStored(img, off, chars);
    }

    /** The 8.3 entry. */
    method WriteShortEntry(off: nat, f: File)
      requires off + 32 <= |img| && |f.short| == 11 && f.cluster < 0x1_0000_0000 && f.size < 0x1_0000_0000
      modifies this
      ensures OnlyIn(old(img), img, off, off + 32) && IsShort(EntryAt(img, off), f)
    {
      img := img[..off] + f.short + img[off + 11..];
      img := img[off + 11 := f.attr];
      assert forall p: nat | p < 11 :: img[off + p] == f.short[p];
      Put16(off + 20, f.cluster / 0x1_0000);
      Put16(off + 26, f.cluster % 0x1_0000);
      Put16(off + 28, f.size % 0x1_0000);
      Put16(off + 30, f.size / 0x1_0000);
      ShortStored(img, off, f.short);
    }

    /** Chunk `i` of a name with its padding. */
    static method PadChunk(name: seq<Byte>, i: nat) returns (chars: seq<nat>)
      requires 13 * i < |name|
      ensures chars == Chunk(name, i) && Wide(chars)
    {
      var part := name[13 * i..Min(|name|, 13 * i + 13)];
      chars := [];
      for j := 0 to |part|
        invariant |chars| == j && forall k | 0 <= k < j :: chars[k] == part[k]
      {
        chars := chars + [part[j]];
      }
      while |chars| < 13
        invariant |part| <= |chars| <= 13
        invariant forall k | 0 <= k < |chars| :: chars[k] == if k < |part| then part[k] as nat else 0xFFFF
      {
        chars := chars + [0xFFFF];
      }
    }

    method Checksum(n: seq<Byte>) returns (s: Byte)
      ensures s == NameSum(n)
    {
      s := 0;
      for i := 0 to |n|
        invariant s == NameSum(n[..i])
      {
        assert n[..i + 1][..i] == n[..i];
        s := (s / 2 + s % 2 * 128 + n[i]) % 256;
      }
      assert n[..|n|] == n;
    }

    /** A table entry, in both copies of the table. */
    method WriteFatEntry(cluster: nat, value: nat)
      requires cluster < FAT_SECTORS * 128 && value < 0x1_0000_0000 && FAT_OFFSET + 2 * FAT_BYTES <= |img|
      modifies this
      ensures OnlyIn(old(img), img, FAT_OFFSET, FAT_OFFSET + 2 * FAT_BYTES)
      ensures U16(img, FAT_OFFSET + 4 * cluster) + 0x1_0000 * U16(img, FAT_OFFSET + 4 * cluster + 2) == value
      ensures var copy := FAT_OFFSET + FAT_BYTES + 4 * cluster; U16(img, copy) + 0x1_0000 * U16(img, copy + 2) == value
      ensures forall p: nat | p < |img| && !(FAT_OFFSET + 4 * cluster <= p < FAT_OFFSET + 4 * cluster + 4)
                              && !(FAT_OFFSET + FAT_BYTES + 4 * cluster <= p < FAT_OFFSET + FAT_BYTES + 4 * cluster + 4) ::
                img[p] == old(img)[p]
    {
      Put16(FAT_OFFSET + 4 * cluster, value % 0x1_0000);
      Put16(FAT_OFFSET + 4 * cluster + 2, value / 0x1_0000);
      Put16(FAT_OFFSET + FAT_BYTES + 4 * cluster, value % 0x1_0000);
      Put16(FAT_OFFSET + FAT_BYTES + 4 * cluster + 2, value / 0x1_0000);
    }

    /** The files of a directory, one after the other. */
    method WriteFiles(parent: nat, slot: nat, fs: seq<File>) returns (next: nat)
      requires forall i | 0 <= i < |fs| :: FileOk(fs[i]) && fs[i].cluster < 0x1_0000_0000 && fs[i].size < 0x1_0000_0000
      requires parent + 32 * (slot + Slots(fs)) <= |img|
      modifies this
      ensures next == slot + Slots(fs)
      ensures OnlyIn(old(img), img, parent + 32 * slot, parent + 32 * next)
      ensures WrittenAll(Entries(img, parent + 32 * slot, next - slot), fs)
    {
      next := slot;
      for i := 0 to |fs|
        invariant slot <= next <= slot + Slots(fs) && FilesWritten(old(img), img, parent, slot, next, fs[..i])
      {
        SlotsUpTo(fs, i);
        ghost var was := img;
        var at := next;
        next := WriteNext(parent, slot, at, fs[..i], fs[i]);
        OnlyMore(old(img), was, img, parent + 32 * slot, parent + 32 * at, parent + 32 * next);
        assert fs[..i + 1] == fs[..i] + [fs[i]];
      }
      assert fs[..|fs|] == fs;
    }

    method WriteNext(parent: nat, slot: nat, at: nat, ghost before: seq<File>, f: File) returns (next: nat)
      requires FileOk(f) && f.cluster < 0x1_0000_0000 && f.size < 0x1_0000_0000 && slot <= at
      requires parent + 32 * (at + Chunks(|f.name|) + 1) <= |img|
      requires WrittenAll(Entries(img, parent + 32 * slot, at - slot), before)
      modifies this
      ensures next == at + Chunks(|f.name|) + 1 && OnlyIn(old(img), img, parent + 32 * at, parent + 32 * next)
      ensures WrittenAll(Entries(img, parent + 32 * slot, next - slot), before + [f])
    {
      ghost var was := img;
      next := WriteFileEntry(parent, at, f);
      FileAdded(was, img, parent, slot, at, next, before, f);
    }

    /** All entries of a file, the last chunk first; returns the next slot. */
    method WriteFileEntry(parent: nat, slot: nat, f: File) returns (next: nat)
      requires FileOk(f) && f.cluster < 0x1_0000_0000 && f.size < 0x1_0000_0000
      requires parent + 32 * (slot + Chunks(|f.name|) + 1) <= |img|
      modifies this
      ensures next == slot + Chunks(|f.name|) + 1
      ensures OnlyIn(old(img), img, parent + 32 * slot, parent + 32 * next)
      ensures Written(Entries(img, parent + 32 * slot, next - slot), f)
    {
      var sum := Checksum(f.short);
      ghost var off, n := parent + 32 * slot, Chunks(|f.name|);
      next := WriteChunks(parent, slot, f.name, sum);
      ghost var was := img;
      WriteShortEntry(parent + 32 * next, f);
      EntriesKept(was, img, off, f.name, n, n);
      OnlyMore(old(img), was, img, off, parent + 32 * next, parent + 32 * next + 32);
      next := next + 1;
      AllWritten(img, off, f);
    }

    method WriteChunks(parent: nat, slot: nat, name: seq<Byte>, sum: Byte) returns (next: nat)
      requires 0 < Chunks(|name|) <= 20 && parent + 32 * (slot + Chunks(|name|)) <= |img|
      modifies this
      ensures next == slot + Chunks(|name|)
      ensures OnlyIn(old(img), img, parent + 32 * slot, parent + 32 * next)
      ensures ChunksWritten(img, parent + 32 * slot, name, Chunks(|name|), Chunks(|name|))
    {
      var n := Chunks(|name|);
      var i := n;
      next := slot;
      while i > 0
        invariant 0 <= i <= n && next == slot + (n - i)
        invariant OnlyIn(old(img), img, parent + 32 * slot, parent + 32 * next)
        invariant ChunksWritten(img, parent + 32 * slot, name, n, n - i)
      {
        i := i - 1;
        WriteChunk(parent + 32 * slot, name, n, i, sum);
        next := next + 1;
      }
    }

    method WriteChunk(off: nat, name: seq<Byte>, n: nat, i: nat, sum: Byte)
      requires i < n == Chunks(|name|) <= 20 && off + 32 * n <= |img| && ChunksWritten(img, off, name, n, n - 1 - i)
      modifies this
      ensures OnlyIn(old(img), img, off + 32 * (n - 1 - i), off + 32 * (n - i))
      ensures ChunksWritten(img, off, name, n, n - i)
    {
      var chars := PadChunk(name, i);
      ghost var was := img;
      WriteLfnEntry(off + 32 * (n - 1 - i), Order(n, i), chars, sum);
      EntriesKept(was, img, off, name, n, n - 1 - i);
    }
  }

  lemma AllWritten(img: seq<Byte>, off: nat, f: File)
    requires |f.short| == 11 && off + 32 * (Chunks(|f.name|) + 1) <= |img|
    requires ChunksWritten(img, off, f.name, Chunks(|f.name|), Chunks(|f.name|))
    requires IsShort(EntryAt(img, off + 32 * Chunks(|f.name|)), f)
    ensures Written(Entries(img, off, Chunks(|f.name|) + 1), f)
  {}

  /** How many slots a list of files takes. */
  function Slots(fs: seq<File>): nat {
    if fs == [] then 0 else Slots(fs[..|fs| - 1]) + Chunks(|fs[|fs| - 1].name|) + 1
  }

  lemma {:induction false} SlotsUpTo(fs: seq<File>, i: nat)
    requires i < |fs|
    ensures Slots(fs[..i + 1]) == Slots(fs[..i]) + Chunks(|fs[i].name|) + 1 <= Slots(fs)
    decreases |fs|
  {
    assert fs[..i + 1][..i] == fs[..i];
    if i + 1 < |fs| {
      var rest := fs[..|fs| - 1];
      SlotsUpTo(rest, i);
      assert rest[..i + 1] == fs[..i + 1] && rest[..i] == fs[..i];
    } else {
      assert fs[..i + 1] == fs;
    }
  }

  /** The first `k` entries from `off` hold the top chunks of the name. */
  ghost predicate ChunksWritten(img: seq<Byte>, off: nat, name: seq<Byte>, n: nat, k: nat) {
    && k <= n && off + 32 * k <= |img|
    && forall i: nat | i < k :: IsLfn(EntryAt(img, off + 32 * i), Order(n, n - 1 - i), Chunk(name, n - 1 - i))
  }

  lemma EntriesKept(a: seq<Byte>, b: seq<Byte>, off: nat, name: seq<Byte>, n: nat, k: nat)
    requires ChunksWritten(a, off, name, n, k) && OnlyIn(a, b, off + 32 * k, off + 32 * k + 32)
    ensures ChunksWritten(b, off, name, n, k)
  {
    forall i: nat | i < k ensures EntryAt(b, off + 32 * i) == EntryAt(a, off + 32 * i) {}
  }

  lemma ShortStored(img: seq<Byte>, off: nat, short: seq<Byte>)
    requires off + 32 <= |img| && |short| == 11 && forall p: nat | p < 11 :: img[off + p] == short[p]
    ensures EntryAt(img, off)[..11] == short
  {}

  lemma CharsStored(img: seq<Byte>, off: nat, chars: seq<nat>)
    requires off + 32 <= |img| && |chars| == 13
    requires forall k: nat | k < 5 :: U16(img, off + 1 + 2 * k) == chars[..5][k]
    requires forall k: nat | k < 6 :: U16(img, off + 14 + 2 * k) == chars[5..11][k]
    requires forall k: nat | k < 2 :: U16(img, off + 28 + 2 * k) == chars[11..][k]
    ensures Chars(EntryAt(img, off)) == chars
  {
    forall i: nat | i < 13 ensures Chars(EntryAt(img, off))[i] == chars[i] {
      if i < 5 {
        assert U16(img, off + 1 + 2 * i) == chars[..5][i];
      } else if i < 11 {
        assert U16(img, off + 14 + 2 * (i - 5)) == chars[5..11][i - 5];
      } else {
        assert U16(img, off + 28 + 2 * (i - 11)) == chars[11..][i - 11];
      }
    }
  }

  /** Files written one after the other: the directory grows by one file and keeps
      the ones before it, so its listing is what was written. */
  lemma DirectoryGrows(a: seq<Byte>, b: seq<Byte>, off: nat, k: nat, fs: seq<File>, f: File)
    requires |f.short| == 11
    requires var n := Chunks(|f.name|) + 1;
      && off + 32 * (k + n) <= |a| && OnlyIn(a, b, off + 32 * k, off + 32 * (k + n))
      && WrittenAll(Entries(a, off, k), fs) && Written(Entries(b, off + 32 * k, n), f)
    ensures WrittenAll(Entries(b, off, k + (Chunks(|f.name|) + 1)), fs + [f])
  {
    var n := Chunks(|f.name|) + 1;
    EntriesSplit(a, b, off, k, n);
    WrittenMore(Entries(a, off, k), Entries(b, off + 32 * k, n), fs, f);
  }

  /** The same, by slots. */
  lemma FileAdded(a: seq<Byte>, b: seq<Byte>, parent: nat, slot: nat, at: nat, next: nat, fs: seq<File>, f: File)
    requires |f.short| == 11 && slot <= at && next == at + Chunks(|f.name|) + 1 && parent + 32 * next <= |a|
    requires OnlyIn(a, b, parent + 32 * at, parent + 32 * next)
    requires WrittenAll(Entries(a, parent + 32 * slot, at - slot), fs) && Written(Entries(b, parent + 32 * at, next - at), f)
    ensures WrittenAll(Entries(b, parent + 32 * slot, next - slot), fs + [f])
  {
    var off, k, n := parent + 32 * slot, at - slot, next - at;
    assert off + 32 * k == parent + 32 * at && off + 32 * (k + n) == parent + 32 * next && k + n == next - slot;
    DirectoryGrows(a, b, off, k, fs, f);
  }

  lemma EntriesSplit(a: seq<Byte>, b: seq<Byte>, off: nat, k: nat, n: nat)
    requires off + 32 * (k + n) <= |a| && OnlyIn(a, b, off + 32 * k, off + 32 * (k + n))
    ensures Entries(b, off, k + n) == Entries(a, off, k) + Entries(b, off + 32 * k, n)
  {
    forall i: nat | i < k ensures EntryAt(b, off + 32 * i) == EntryAt(a, off + 32 * i) {}
    forall i: nat | i < n ensures EntryAt(b, off + 32 * (k + i)) == EntryAt(b, off + 32 * k + 32 * i) {}
  }
}
