/** Names in FAT32 directories: the entries of a directory, the assembly of long
    names from them (kernel/fs/fat32.c), the entries the image writer produces
    (tools/mkfat32.py), and the round trip between the two. */
module FatNames {
  import opened Machine

  const MAX_NAME: nat := 256
  const ATTR_LFN: nat := 0x0F

  type Entry = e: seq<Byte> | |e| == 32 witness seq(32, _ => 0)

  /** Where character `i` of a long-name entry lies. */
  function CharAt(i: nat): nat
    requires i < 13
  {
    if i < 5 then 1 + 2 * i else if i < 11 then 14 + 2 * (i - 5) else 28 + 2 * (i - 11)
  }

  /** The 13 characters of a long-name entry. */
  function Chars(e: Entry): seq<nat> {
    seq(13, i requires 0 <= i < 13 => U16(e, CharAt(i)))
  }

  // ----- assembling a long name

  /** The static buffer, its length and whether it holds a name. */
  datatype Lfn = Lfn(buf: seq<Byte>, len: nat, valid: bool)

  /** The state after a reset. */
  function Empty(): Lfn { Lfn(seq(MAX_NAME, i => 0), 0, false) }

  function Max(a: nat, b: nat): nat { if a < b then b else a }

  predicate Pad(c: nat) { c == 0 || c == 0xFFFF }

  function Ascii(c: nat): Byte { if c < 128 then c else 63 }

  /** The characters of an entry go to `at` and on. */
  function Place(l: Lfn, at: nat, chars: seq<nat>): Lfn
    requires |l.buf| == MAX_NAME
    decreases |chars|
  {
    if chars == [] || at >= MAX_NAME - 1 then l
    else Place(PlaceOne(l, at, chars[0]), at + 1, chars[1..])
  }

  function PlaceOne(l: Lfn, at: nat, c: nat): Lfn
    requires at < |l.buf|
  {
    if Pad(c) then l.(len := Max(l.len, at))
    else l.(buf := l.buf[at := Ascii(c)], len := Max(l.len, at + 1))
  }

  function Append(l: Lfn, order: nat, chars: seq<nat>): Lfn
    requires |l.buf| == MAX_NAME
  {
    var k := order % 64;
    if k == 0 || (k - 1) * 13 + 13 > MAX_NAME then l else Place(l, (k - 1) * 13, chars).(valid := true)
  }

  /** Whatever the disk holds, the length leaves room for the terminator. */
  predicate LfnOk(l: Lfn) { |l.buf| == MAX_NAME && l.len <= 247 }

  /** What placing an entry does to the buffer and the length. */
  lemma {:induction false} PlaceEffect(l: Lfn, at: nat, chars: seq<nat>)
    requires |l.buf| == MAX_NAME && at + |chars| <= 247
    ensures var r := Place(l, at, chars);
      && |r.buf| == MAX_NAME && r.valid == l.valid
      && l.len <= r.len <= Max(l.len, at + |chars|)
      && (forall p: nat | p < MAX_NAME :: r.buf[p] ==
            if at <= p < at + |chars| && !Pad(chars[p - at]) then Ascii(chars[p - at]) else l.buf[p])
      && (forall j: nat | j < |chars| && !Pad(chars[j]) :: at + j + 1 <= r.len)
    decreases |chars|
  {
    if chars != [] {
      PlaceEffect(PlaceOne(l, at, chars[0]), at + 1, chars[1..]);
      var r := Place(l, at, chars);
      forall p: nat | p < MAX_NAME
        ensures r.buf[p] == if at <= p < at + |chars| && !Pad(chars[p - at]) then Ascii(chars[p - at]) else l.buf[p]
      {
        if at < p < at + |chars| { assert chars[p - at] == chars[1..][p - (at + 1)]; }
      }
      forall j: nat | j < |chars| && !Pad(chars[j]) ensures at + j + 1 <= r.len {
        if j > 0 { assert chars[j] == chars[1..][j - 1]; }
      }
    }
  }

  lemma AppendOk(l: Lfn, order: nat, chars: seq<nat>)
    requires LfnOk(l) && |chars| == 13
    ensures LfnOk(Append(l, order, chars))
  {
    var k := order % 64;
    if k > 0 && (k - 1) * 13 + 13 <= MAX_NAME { PlaceEffect(l, (k - 1) * 13, chars); }
  }

  /** The C string at the start of a buffer: up to the first zero. */
  function CString(s: seq<Byte>): seq<Byte> {
    if s == [] || s[0] == 0 then [] else [s[0]] + CString(s[1..])
  }

  /** The name handed to the callback. */
  function NameOf(l: Lfn, e: Entry): seq<Byte>
    requires LfnOk(l)
  {
    if l.valid then CString(l.buf[..l.len]) else ShortName(e[..11])
  }

  function Lower(c: Byte): Byte { if 65 <= c <= 90 then c + 32 else c }

  /** Characters up to the first space, in lower case. */
  function Trimmed(s: seq<Byte>): seq<Byte> {
    if s == [] || s[0] == 32 then [] else [Lower(s[0])] + Trimmed(s[1..])
  }

  function ShortName(n: seq<Byte>): seq<Byte>
    requires |n| == 11
  {
    Trimmed(n[..8]) + (if n[8] != 32 then [46] + Trimmed(n[8..]) else [])
  }

  /** A field of `n` characters, padded with spaces. */
  predicate Padded(field: seq<Byte>, text: seq<Byte>) {
    && |text| <= |field| && text == field[..|text|] && 32 !in text
    && forall i | |text| <= i < |field| :: field[i] == 32
  }

  predicate LowerCase(s: seq<Byte>, text: seq<Byte>) {
    |s| == |text| && forall i | 0 <= i < |s| :: s[i] == if 65 <= text[i] <= 90 then text[i] + 32 else text[i]
  }

  /** The name of an 8.3 entry is its base and, if it has one, a dot and its extension,
      in lower case. */
  lemma ShortNameIs(n: seq<Byte>, base: seq<Byte>, ext: seq<Byte>, lowBase: seq<Byte>, lowExt: seq<Byte>)
    requires |n| == 11 && Padded(n[..8], base) && Padded(n[8..], ext) && LowerCase(lowBase, base) && LowerCase(lowExt, ext)
    ensures ShortName(n) == if ext == [] then lowBase else lowBase + [46] + lowExt
  {
    TrimmedIs(n[..8], base, lowBase);
    TrimmedIs(n[8..], ext, lowExt);
    if ext != [] { assert n[8] == ext[0]; }
  }

  lemma {:induction false} TrimmedIs(field: seq<Byte>, text: seq<Byte>, low: seq<Byte>)
    requires Padded(field, text) && LowerCase(low, text)
    ensures Trimmed(field) == low
    decreases |field|
  {
    if text != [] {
      assert field[0] == text[0] && text[0] in text;
      TrimmedIs(field[1..], text[1..], low[1..]);
    }
  }

  // ----- scanning a directory

  datatype Found = Found(name: seq<Byte>, entry: Entry)

  datatype Scan = Scan(found: seq<Found>, lfn: Lfn, ended: bool)

  function Start(): Scan { Scan([], Empty(), false) }

  /** The volume-id bit of an attribute byte. */
  predicate Volume(attr: nat) { attr / 8 % 2 == 1 }

  function ScanEntry(e: Entry, st: Scan): (r: Scan)
    requires LfnOk(st.lfn)
    ensures LfnOk(r.lfn)
  {
    if e[0] == 0 then st.(ended := true)
    else if e[0] == 0xE5 then st
    else if e[11] == ATTR_LFN then AppendOk(st.lfn, e[0], Chars(e)); st.(lfn := Append(st.lfn, e[0], Chars(e)))
    else if Volume(e[11]) then st.(lfn := Empty())
    else st.(found := st.found + [Found(NameOf(st.lfn, e), e)], lfn := Empty())
  }

  function ScanEntries(es: seq<Entry>, st: Scan): (r: Scan)
    requires LfnOk(st.lfn)
    ensures LfnOk(r.lfn)
  {
    if es == [] || st.ended then st else ScanEntries(es[1..], ScanEntry(es[0], st))
  }

  lemma {:induction false} ScanAppend(a: seq<Entry>, b: seq<Entry>, st: Scan)
    requires LfnOk(st.lfn)
    ensures ScanEntries(a + b, st) == ScanEntries(b, ScanEntries(a, st))
  {
    if a == [] {
      assert a + b == b;
    } else if !st.ended {
      assert (a + b)[1..] == a[1..] + b;
      ScanAppend(a[1..], b, ScanEntry(a[0], st));
    }
  }

  // ----- what the writer puts into a directory

  /** A file as the image writer is given it. */
  datatype File = File(name: seq<Byte>, short: seq<Byte>, attr: Byte, cluster: nat, size: nat)

  function Chunks(n: nat): nat { (n + 12) / 13 }

  /** Chunk `i` of a name, padded to 13 characters. */
  function Chunk(name: seq<Byte>, i: nat): seq<nat> {
    seq(13, j requires 0 <= j < 13 => if 13 * i + j < |name| then name[13 * i + j] as nat else 0xFFFF)
  }

  function Order(n: nat, i: nat): nat { if i + 1 == n then i + 1 + 0x40 else i + 1 }

  predicate IsLfn(e: Entry, order: nat, chars: seq<nat>) {
    e[0] == order && e[11] == ATTR_LFN && Chars(e) == chars
  }

  predicate IsShort(e: Entry, f: File)
    requires |f.short| == 11
  {
    e[..11] == f.short && e[11] == f.attr
    && U16(e, 20) * 0x1_0000 + U16(e, 26) == f.cluster
    && U16(e, 28) + U16(e, 30) * 0x1_0000 == f.size
  }

  /** A file the format can hold: an ASCII name, and a short entry that is neither
      free, deleted, a volume label nor a long-name entry. */
  predicate FileOk(f: File) {
    && 1 <= |f.name| <= 255 && (forall i | 0 <= i < |f.name| :: 0 < f.name[i] < 128)
    && |f.short| == 11 && f.short[0] != 0 && f.short[0] != 0xE5
    && f.attr != ATTR_LFN && f.attr / 8 % 2 == 0
  }

  /** The entries written for one file: its chunks, last first, then the 8.3 entry. */
  predicate Written(es: seq<Entry>, f: File)
    requires |f.short| == 11
  {
    var n := Chunks(|f.name|);
    && |es| == n + 1
    && (forall i | 0 <= i < n :: IsLfn(es[i], Order(n, n - 1 - i), Chunk(f.name, n - 1 - i)))
    && IsShort(es[n], f)
  }

  // ----- the round trip

  /** The chunks from `k` up are in the buffer. */
  ghost predicate Holds(l: Lfn, name: seq<Byte>, k: nat) {
    && LfnOk(l)
    && (forall p: nat | p < MAX_NAME :: l.buf[p] == if 13 * k <= p < Min(|name|, 247) then name[p] else 0)
    && (13 * k < Min(|name|, 247) ==> l.valid && Min(|name|, 247) <= l.len)
  }

  lemma EmptyHolds(name: seq<Byte>, k: nat)
    requires 13 * k >= Min(|name|, 247)
    ensures Holds(Empty(), name, k)
  {}

  lemma HoldsStep(l: Lfn, name: seq<Byte>, n: nat, k: nat)
    requires k < n == Chunks(|name|) <= 20 && (forall i | 0 <= i < |name| :: 0 < name[i] < 128)
    requires Holds(l, name, k + 1) && (k >= 19 ==> l == Empty())
    ensures Holds(Append(l, Order(n, k), Chunk(name, k)), name, k)
    ensures k >= 19 ==> Append(l, Order(n, k), Chunk(name, k)) == Empty()
  {
    assert Order(n, k) % 64 == k + 1;
    if k < 19 { PlaceHolds(l, name, 13 * k, k); }
  }

  lemma PlaceHolds(l: Lfn, name: seq<Byte>, base: nat, k: nat)
    requires base == 13 * k < |name| && k < 19 && (forall i | 0 <= i < |name| :: 0 < name[i] < 128)
    requires Holds(l, name, k + 1)
    ensures |Place(l, base, Chunk(name, k)).buf| == MAX_NAME
    ensures Holds(Place(l, base, Chunk(name, k)).(valid := true), name, k)
  {
    var chars := Chunk(name, k);
    PlaceEffect(l, base, chars);
    var r, m := Place(l, base, chars), Min(|name|, 247);
    forall p: nat | p < MAX_NAME ensures r.buf[p] == if base <= p < m then name[p] else 0 {
      if base <= p < base + 13 { ChunkChar(name, k, p); }
    }
    if base <= m - 1 < base + 13 { ChunkChar(name, k, m - 1); }
  }

  /** What position `p` of a name looks like in its chunk. */
  lemma ChunkChar(name: seq<Byte>, k: nat, p: nat)
    requires 13 * k <= p < 13 * k + 13 && (forall i | 0 <= i < |name| :: 0 < name[i] < 128)
    ensures var c := Chunk(name, k)[p - 13 * k]; if p < |name| then !Pad(c) && Ascii(c) == name[p] else Pad(c)
  {}

  lemma {:induction false} CStringCut(s: seq<Byte>, n: nat)
    requires n <= |s| && (forall i | 0 <= i < n :: s[i] != 0) && (n == |s| || s[n] == 0)
    ensures CString(s) == s[..n]
  {
    if n > 0 {
      CStringCut(s[1..], n - 1);
      assert s[..n] == [s[0]] + s[1..][..n - 1];
    }
  }

  /** The long-name entries of a file leave its name in the buffer, and nothing else. */
  lemma {:induction false} ScanChunks(es: seq<Entry>, f: File, st: Scan, i: nat)
    requires FileOk(f) && Written(es, f) && i <= Chunks(|f.name|) && !st.ended && st.lfn == Empty()
    ensures LfnOk(st.lfn)
    ensures var n, r := Chunks(|f.name|), ScanEntries(es[..i], st);
      && r.found == st.found && !r.ended && Holds(r.lfn, f.name, n - i) && (n - i >= 19 ==> r.lfn == Empty())
  {
    var n := Chunks(|f.name|);
    if i == 0 {
      EmptyHolds(f.name, n);
    } else {
      ScanChunks(es, f, st, i - 1);
      ScanOne(es, st, i - 1);
      var k := n - i;
      var r := ScanEntries(es[..i - 1], st);
      assert IsLfn(es[i - 1], Order(n, k), Chunk(f.name, k));
      HoldsStep(r.lfn, f.name, n, k);
    }
  }

  lemma ScanOne(es: seq<Entry>, st: Scan, i: nat)
    requires i < |es| && LfnOk(st.lfn) && !ScanEntries(es[..i], st).ended
    ensures ScanEntries(es[..i + 1], st) == ScanEntry(es[i], ScanEntries(es[..i], st))
  {
    OneMore(es, i);
    ScanSnoc(es[..i], es[i], st);
  }

  lemma OneMore(es: seq<Entry>, i: nat)
    requires i < |es|
    ensures es[..i + 1] == es[..i] + [es[i]]
  {}

  lemma ScanSnoc(a: seq<Entry>, e: Entry, st: Scan)
    requires LfnOk(st.lfn) && !ScanEntries(a, st).ended
    ensures ScanEntries(a + [e], st) == ScanEntry(e, ScanEntries(a, st))
  {
    ScanAppend(a, [e], st);
    ScanSingle(e, ScanEntries(a, st));
  }

  lemma ScanSingle(e: Entry, st: Scan)
    requires LfnOk(st.lfn) && !st.ended
    ensures ScanEntries([e], st) == ScanEntry(e, st)
  {
    assert [e][1..] == [];
  }

  /** The name that comes back for a file: all of it up to 247 characters. */
  function Reported(f: File): seq<Byte> { f.name[..Min(|f.name|, 247)] }

  lemma FileRoundTrip(es: seq<Entry>, f: File, st: Scan)
    requires FileOk(f) && Written(es, f) && !st.ended && st.lfn == Empty()
    ensures LfnOk(st.lfn) && ScanEntries(es, st) == ReportedFile(f, es[|es| - 1], st)
  {
    var n := Chunks(|f.name|);
    ScanChunks(es, f, st, n);
    ScanOne(es, st, n);
    assert es[..n + 1] == es;
    var l := ScanEntries(es[..n], st).lfn;
    var m := Min(|f.name|, 247);
    CStringCut(l.buf[..l.len], m);
    assert l.buf[..l.len][..m] == f.name[..m];
    assert es[n][..11][0] == f.short[0];
  }

  // ----- whole directories

  ghost predicate WrittenAll(es: seq<Entry>, fs: seq<File>)
    decreases |fs|
  {
    if fs == [] then es == []
    else
      var n := Chunks(|fs[0].name|) + 1;
      |fs[0].short| == 11 && n <= |es| && Written(es[..n], fs[0]) && WrittenAll(es[n..], fs[1..])
  }

  lemma {:induction false} WrittenMore(es: seq<Entry>, more: seq<Entry>, fs: seq<File>, f: File)
    requires WrittenAll(es, fs) && |f.short| == 11 && Written(more, f)
    ensures WrittenAll(es + more, fs + [f])
    decreases |fs|
  {
    if fs == [] {
      WrittenOne(more, f);
      assert es + more == more && fs + [f] == [f];
    } else {
      var n := Chunks(|fs[0].name|) + 1;
      WrittenMore(es[n..], more, fs[1..], f);
      Tails(es, more, n, fs, f);
    }
  }

  lemma WrittenOne(es: seq<Entry>, f: File)
    requires |f.short| == 11 && Written(es, f)
    ensures WrittenAll(es, [f])
  {
    assert es[..|es|] == es && es[|es|..] == [] && [f][1..] == [];
  }

  lemma Tails(es: seq<Entry>, more: seq<Entry>, n: nat, fs: seq<File>, f: File)
    requires n <= |es| && fs != []
    ensures (es + more)[..n] == es[..n] && (es + more)[n..] == es[n..] + more
    ensures (fs + [f])[0] == fs[0] && (fs + [f])[1..] == fs[1..] + [f]
  {}

  /** What a listing of the files shows. */
  function Listing(es: seq<Entry>, fs: seq<File>): seq<Found>
    decreases |fs|
  {
    if fs == [] then [] else
    var n := Chunks(|fs[0].name|);
    if n >= |es| then [] else [Found(Reported(fs[0]), es[n])] + Listing(es[n + 1..], fs[1..])
  }

  /** It shows every file once, in order, by its name and with its own 8.3 entry. */
  lemma {:induction false} ListingFiles(es: seq<Entry>, fs: seq<File>, i: nat)
    requires WrittenAll(es, fs) && i < |fs|
    ensures |Listing(es, fs)| == |fs| && |fs[i].short| == 11
    ensures Listing(es, fs)[i].name == Reported(fs[i]) && IsShort(Listing(es, fs)[i].entry, fs[i])
    decreases |fs|
  {
    var n := Chunks(|fs[0].name|) + 1;
    FirstFile(es, fs);
    if |fs| > 1 { ListingFiles(es[n..], fs[1..], if i > 0 then i - 1 else 0); }
  }

  lemma ScanFile(es: seq<Entry>, n: nat, f: File, st: Scan)
    requires FileOk(f) && n <= |es| && Written(es[..n], f) && !st.ended && st.lfn == Empty()
    ensures LfnOk(st.lfn) && n > 0
    ensures ScanEntries(es, st) == ScanEntries(es[n..], ReportedFile(f, es[n - 1], st))
  {
    FileRoundTrip(es[..n], f, st);
    ScanAppend(es[..n], es[n..], st);
    assert es == es[..n] + es[n..];
  }

  /** A scan that has just reported file `f`. */
  function ReportedFile(f: File, e: Entry, st: Scan): Scan {
    Scan(st.found + [Found(Reported(f), e)], Empty(), false)
  }

  lemma FirstFile(es: seq<Entry>, fs: seq<File>)
    requires fs != [] && WrittenAll(es, fs)
    ensures var n := Chunks(|fs[0].name|) + 1;
      && n <= |es| && |fs[0].short| == 11 && Written(es[..n], fs[0]) && WrittenAll(es[n..], fs[1..])
      && Listing(es, fs) == [Found(Reported(fs[0]), es[n - 1])] + Listing(es[n..], fs[1..])
  {}

  /** Any list of files, written and scanned, comes back. */
  lemma {:induction false} DirectoryRoundTrip(es: seq<Entry>, fs: seq<File>, st: Scan)
    requires WrittenAll(es, fs) && (forall i | 0 <= i < |fs| :: FileOk(fs[i])) && !st.ended && st.lfn == Empty()
    ensures LfnOk(st.lfn) && ScanEntries(es, st) == Scan(st.found + Listing(es, fs), Empty(), false)
    decreases |fs|
  {
    if fs == [] {
      Joined(st.found, [], []);
    } else {
      var n := Chunks(|fs[0].name|) + 1;
      OtherFiles(fs);
      FirstFile(es, fs);
      ScanFile(es, n, fs[0], st);
      DirectoryRoundTrip(es[n..], fs[1..], ReportedFile(fs[0], es[n - 1], st));
      Joined(st.found, [Found(Reported(fs[0]), es[n - 1])], Listing(es[n..], fs[1..]));
    }
  }

  lemma OtherFiles(fs: seq<File>)
    requires fs != [] && forall i | 0 <= i < |fs| :: FileOk(fs[i])
    ensures FileOk(fs[0]) && forall i | 0 <= i < |fs[1..]| :: FileOk(fs[1..][i])
  {
    assert forall i | 0 <= i < |fs| - 1 :: fs[1..][i] == fs[i + 1];
  }

  lemma Joined(a: seq<Found>, b: seq<Found>, c: seq<Found>)
    ensures a + b + c == a + (b + c) && a + [] == a
  {}

  /** The scan of `pre` reports `found` and leaves nothing half assembled. */
  ghost predicate Settled(pre: seq<Entry>, found: seq<Found>) {
    ScanEntries(pre, Start()) == Scan(found, Empty(), false)
  }

  /** A written directory, whatever settled entries it begins with, ended by a free entry,
      lists those and then exactly its files. */
  lemma ListDirectory(pre: seq<Entry>, found: seq<Found>, es: seq<Entry>, fs: seq<File>, rest: seq<Entry>)
    requires Settled(pre, found) && WrittenAll(es, fs) && (forall i | 0 <= i < |fs| :: FileOk(fs[i]))
    requires rest != [] && rest[0][0] == 0
    ensures ScanEntries(pre + es + rest, Start()) == Scan(found + Listing(es, fs), Empty(), true)
  {
    var mid := Scan(found, Empty(), false);
    ScanAppend(pre, es, Start());
    DirectoryRoundTrip(es, fs, mid);
    ScanAppend(pre + es, rest, Start());
  }

  lemma NothingFirst()
    ensures Settled([], [])
  {}

  /** A deleted entry is passed over. */
  lemma DeletedFirst(pre: seq<Entry>, found: seq<Found>, e: Entry)
    requires Settled(pre, found) && e[0] == 0xE5
    ensures Settled(pre + [e], found)
  {
    ScanSnoc(pre, e, Start());
  }

  /** A volume label is passed over. */
  lemma LabelFirst(pre: seq<Entry>, found: seq<Found>, e: Entry)
    requires Settled(pre, found) && e[0] != 0 && e[0] != 0xE5 && e[11] != 15 && e[11] / 8 % 2 == 1
    ensures Settled(pre + [e], found)
  {
    ScanSnoc(pre, e, Start());
  }

  /** An entry without a long name, such as "." and "..", is listed by its short name. */
  lemma ShortFirst(pre: seq<Entry>, found: seq<Found>, e: Entry)
    requires Settled(pre, found) && e[0] != 0 && e[0] != 0xE5 && e[11] / 8 % 2 == 0
    ensures Settled(pre + [e], found + [Found(ShortName(e[..11]), e)])
  {
    ScanSnoc(pre, e, Start());
  }

  /** One or two dots, padded to 11 characters. */
  predicate IsDots(n: seq<Byte>, k: nat) {
    |n| == 11 && 1 <= k <= 2 && forall i | 0 <= i < 11 :: n[i] == if i < k then 46 else 32
  }

  lemma DotsName(n: seq<Byte>, k: nat)
    requires IsDots(n, k)
    ensures ShortName(n) == if k == 1 then [46] else [46, 46]
  {
    var s := n[..8];
    assert s[k..][0] == 32 && Trimmed(s[k..]) == [];
    if k == 2 { assert s[1..][1..] == s[2..]; }
    assert Trimmed(s[1..]) == if k == 1 then [] else [46];
  }

  /** A subdirectory begins with "." and "..", which are listed as such. */
  lemma DotsFirst(e: Entry, e2: Entry)
    requires IsDots(e[..11], 1) && IsDots(e2[..11], 2) && e[11] == 0x10 && e2[11] == 0x10
    ensures Settled([e, e2], [Found([46], e), Found([46, 46], e2)])
  {
    DotsName(e[..11], 1);
    DotsName(e2[..11], 2);
    assert e[0] == e[..11][0] && e2[0] == e2[..11][0];
    NothingFirst();
    ShortFirst([], [], e);
    assert [] + [e] == [e] && [] + [Found([46], e)] == [Found([46], e)];
    ShortFirst([e], [Found([46], e)], e2);
    assert [e] + [e2] == [e, e2];
    assert [Found([46], e)] + [Found([46, 46], e2)] == [Found([46], e), Found([46, 46], e2)];
  }

  /** The names come back whole from the scan exactly if none is longer than 247 characters. */
  lemma NamesIntactIff(pre: seq<Entry>, found: seq<Found>, es: seq<Entry>, fs: seq<File>, rest: seq<Entry>)
    requires Settled(pre, found) && WrittenAll(es, fs) && (forall i | 0 <= i < |fs| :: FileOk(fs[i]))
    requires rest != [] && rest[0][0] == 0
    ensures var r := ScanEntries(pre + es + rest, Start()).found;
      && |r| == |found| + |fs|
      && ((forall i | 0 <= i < |fs| :: r[|found| + i].name == fs[i].name) <==> (forall i | 0 <= i < |fs| :: |fs[i].name| <= 247))
  {
    ListDirectory(pre, found, es, fs, rest);
    ListingSize(es, fs);
    forall i: nat | i < |fs| ensures Listing(es, fs)[i].name == fs[i].name <==> |fs[i].name| <= 247 {
      ListingFiles(es, fs, i);
      if |fs[i].name| > 247 { assert |Reported(fs[i])| == 247; }
    }
  }

  lemma ListingSize(es: seq<Entry>, fs: seq<File>)
    requires WrittenAll(es, fs)
    ensures |Listing(es, fs)| == |fs|
  {
    if fs != [] { ListingFiles(es, fs, 0); }
  }
}
