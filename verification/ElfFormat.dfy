/** The ELF64 file header and program header entries as bytes, field by field in the order
    of the System V gABI (chapter 4, "ELF Header", and chapter 5, "Program Header"), and
    what the loader of kernel/elf.c reads from them. */
module ElfFormat {
  import opened Elf
  import opened Paging
  import opened Machine

  /** The file header; `ident` is the identification from the version byte on. */
  datatype Ehdr = Ehdr(
    magic: seq<Byte>, width: Byte, order: Byte, ident: seq<Byte>,
    kind: nat, machine: nat, version: nat, entry: nat, phoff: nat, shoff: nat, flags: nat,
    ehsize: nat, phentsize: nat, phnum: nat, shentsize: nat, shnum: nat, shstrndx: nat)
  {
    predicate Ok() {
      && |magic| == 4 && |ident| == 10 && kind < W16 && machine < W16 && version < W32
      && entry < WORD && phoff < WORD && shoff < WORD && flags < W32
      && ehsize < W16 && phentsize < W16 && phnum < W16 && shentsize < W16 && shnum < W16 && shstrndx < W16
    }

    function Bytes(): (b: seq<Byte>)
      requires Ok()
      ensures |b| == 64
    {
      magic + [width, order] + ident
      + Le16(kind) + Le16(machine) + Le32(version) + Le64(entry) + Le64(phoff) + Le64(shoff) + Le32(flags)
      + Le16(ehsize) + Le16(phentsize) + Le16(phnum) + Le16(shentsize) + Le16(shnum) + Le16(shstrndx)
    }
  }

  /** A program header entry. */
  datatype Phdr = Phdr(kind: nat, flags: nat, offset: nat, vaddr: nat, paddr: nat, filesz: nat, memsz: nat, align: nat)
  {
    predicate Ok() {
      && kind < W32 && flags < W32 && offset < WORD && vaddr < WORD && paddr < WORD
      && filesz < WORD && memsz < WORD && align < WORD
    }

    function Bytes(): (b: seq<Byte>)
      requires Ok()
      ensures |b| == 56
    {
      Le32(kind) + Le32(flags) + Le64(offset) + Le64(vaddr) + Le64(paddr) + Le64(filesz) + Le64(memsz) + Le64(align)
    }
  }

  lemma Cut(b: seq<Byte>, at: nat, n: nat, i: nat, k: nat)
    requires at + n <= |b| && i + k <= n
    ensures b[at + i..at + i + k] == b[at..at + n][i..i + k]
  {
    var left, right := b[at + i..at + i + k], b[at..at + n][i..i + k];
    assert forall x | 0 <= x < k :: left[x] == right[x];
  }

  // ----- the file header

  lemma HeaderPlaces(h: Ehdr)
    requires h.Ok()
    ensures var b := h.Bytes();
      && b[0..4] == h.magic && b[4] == h.width && b[5] == h.order
      && b[16..18] == Le16(h.kind) && b[18..20] == Le16(h.machine)
      && b[32..40] == Le64(h.phoff) && b[56..58] == Le16(h.phnum)
  {
    var b := h.Bytes();
    var low := h.magic + [h.width, h.order] + h.ident + Le16(h.kind) + Le16(h.machine) + Le32(h.version) + Le64(h.entry);
    var high := Le64(h.shoff) + Le32(h.flags) + Le16(h.ehsize) + Le16(h.phentsize);
    var end := Le16(h.shentsize) + Le16(h.shnum) + Le16(h.shstrndx);
    assert b == low + Le64(h.phoff) + high + Le16(h.phnum) + end;
  }

  /** The loader takes a file exactly by the magic number, the class (64 bit), the encoding
      (little-endian), the type (executable) and the machine (x86-64), and finds the program
      header table where the header says. */
  lemma HeaderRoundTrip(h: Ehdr, b: seq<Byte>)
    requires h.Ok() && h.Bytes() <= b
    ensures HeaderOk(b) <==>
            h.magic == [0x7F, 'E' as nat, 'L' as nat, 'F' as nat] && h.width == 2 && h.order == 1 && h.kind == 2 && h.machine == 62
    ensures TableOffset(b) == h.phoff && TableCount(b) == h.phnum
  {
    HeaderPlaces(h);
    assert b[..64] == h.Bytes();
    Cut(b, 0, 64, 0, 4);
    Cut(b, 0, 64, 16, 2);
    Cut(b, 0, 64, 18, 2);
    Cut(b, 0, 64, 32, 8);
    Cut(b, 0, 64, 56, 2);
    Field16(b, 16, h.kind);
    Field16(b, 18, h.machine);
    Field64(b, 32, h.phoff);
    Field16(b, 56, h.phnum);
    MagicIff(b, h.magic);
  }

  lemma MagicIff(b: seq<Byte>, magic: seq<Byte>)
    requires |b| >= 4 && |magic| == 4 && b[0..4] == magic
    ensures U32(b, 0) == 0x464C_457F <==> magic == [0x7F, 'E' as nat, 'L' as nat, 'F' as nat]
  {
    assert b[0] == magic[0] && b[1] == magic[1] && b[2] == magic[2] && b[3] == magic[3];
  }

  // ----- the program header table

  lemma EntryPlaces(p: Phdr)
    requires p.Ok()
    ensures var b := p.Bytes();
      && b[0..4] == Le32(p.kind) && b[4..8] == Le32(p.flags) && b[8..16] == Le64(p.offset) && b[16..24] == Le64(p.vaddr)
      && b[32..40] == Le64(p.filesz) && b[40..48] == Le64(p.memsz)
  {}

  lemma EntryFields(b: seq<Byte>, at: nat, p: Phdr)
    requires p.Ok() && at + 56 <= |b| && b[at..at + 56] == p.Bytes()
    ensures U32(b, at) == p.kind && U32(b, at + 4) == p.flags && U64(b, at + 8) == p.offset && U64(b, at + 16) == p.vaddr
    ensures U64(b, at + 32) == p.filesz && U64(b, at + 40) == p.memsz
  {
    EntryPlaces(p);
    Cut(b, at, 56, 0, 4);
    Cut(b, at, 56, 4, 4);
    Cut(b, at, 56, 8, 8);
    Cut(b, at, 56, 16, 8);
    Cut(b, at, 56, 32, 8);
    Cut(b, at, 56, 40, 8);
    Field32(b, at, p.kind);
    Field32(b, at + 4, p.flags);
    Field64(b, at + 8, p.offset);
    Field64(b, at + 16, p.vaddr);
    Field64(b, at + 32, p.filesz);
    Field64(b, at + 40, p.memsz);
  }

  /** The segment has the entry's fields, and is loaded exactly if its type is 1. */
  predicate Matches(s: Segment, p: Phdr) {
    && s.kind == p.kind && s.flags == p.flags && s.offset == p.offset && s.vaddr == p.vaddr
    && s.filesz == p.filesz && s.memsz == p.memsz && (s.Load() <==> p.kind == 1)
  }

  /** An entry written at its place in the table is the segment that the loader sees there. */
  lemma EntryRoundTrip(h: Ehdr, p: Phdr, b: seq<Byte>, i: nat)
    requires h.Ok() && h.Bytes() <= b && p.Ok() && i < h.phnum && h.phoff + 56 * h.phnum <= |b|
    requires h.phoff + 56 * i + 56 <= |b| && b[h.phoff + 56 * i..h.phoff + 56 * i + 56] == p.Bytes()
    ensures TableInside(b) && i < TableCount(b)
    ensures Matches(SegmentAt(b, i), p)
  {
    HeaderRoundTrip(h, b);
    assert TableCount(b) * PHDR == 56 * h.phnum && i * PHDR == 56 * i;
    EntryFields(b, h.phoff + 56 * i, p);
  }

  /** A segment is mapped writable exactly if bit 1 of its flags, PF_W, is set. */
  lemma WritableIff(s: Segment, low: nat, high: nat, w: bool)
    requires s.flags == 4 * high + (if w then 2 else 0) + low && low < 2
    ensures s.Writable() <==> w
  {}

  /** From the entry as it is written to what user code finds: the file's bytes at the
      entry's offset, then zeros, writable exactly if its flags have bit 1. */
  lemma LoadedEntry(m: Mem, d: Data, root: nat, h: Ehdr, p: Phdr, b: seq<Byte>, i: nat, k: nat)
    requires h.Ok() && h.Bytes() <= b && p.Ok() && i < h.phnum && h.phoff + 56 * h.phnum <= |b|
    requires h.phoff + 56 * i + 56 <= |b| && b[h.phoff + 56 * i..h.phoff + 56 * i + 56] == p.Bytes()
    requires TableInside(b) && h.phnum <= TableCount(b) && SegmentsLoaded(m, d, root, b, h.phnum)
    requires p.kind == 1 && p.filesz <= p.memsz && k < p.memsz && p.offset + p.filesz <= |b|
    ensures var x := Translate(m, root, p.vaddr + k);
      && x.Mapped? && x.user && (x.writable <==> p.flags / 2 % 2 == 1) && x.phys / PAGE in d
      && d[x.phys / PAGE][x.phys % PAGE] == if k < p.filesz then b[p.offset + k] else 0
  {
    assert Matches(SegmentAt(b, i), p) by { EntryRoundTrip(h, p, b, i); }
    ImageOf(m, d, root, SegmentAt(b, i), p, b, k);
  }

  lemma ImageOf(m: Mem, d: Data, root: nat, s: Segment, p: Phdr, b: seq<Byte>, k: nat)
    requires Matches(s, p) && p.filesz <= p.memsz && k < p.memsz && p.offset + p.filesz <= |b|
    requires RangeLoaded(m, d, root, s, b, s.First(), s.Last())
    ensures var x := Translate(m, root, p.vaddr + k);
      && x.Mapped? && x.user && (x.writable <==> p.flags / 2 % 2 == 1) && x.phys / PAGE in d
      && d[x.phys / PAGE][x.phys % PAGE] == if k < p.filesz then b[p.offset + k] else 0
  {
    LoadedImage(m, d, root, s, b, k);
  }
}
