/** The physical page allocator: a bitmap of 64-bit words in which a set bit
    means a free page, refined to a set of free page numbers. */
module Pmm {
  import opened Bits
  import opened Machine

  const LOW_PAGES: nat := 256           // the first 1 MiB
  const MAX_PAGE: nat := 0x10_0000      // pages below 4 GiB

  predicate Between(start: nat, p: nat, end: nat) {
    start <= p < end
  }

  function Range(start: nat, end: nat): set<nat> {
    set p: nat | start <= p < end && Between(start, p, end)
  }

  ghost predicate Words(words: seq<nat>) {
    forall i | 0 <= i < |words| :: words[i] < WORD
  }

  /** The abstract value of a bitmap. */
  ghost function FreeSet(words: seq<nat>): set<nat> {
    set p: nat | p < 64 * |words| && Bit(words[p / 64], p % 64)
  }

  predicate BitAt(base: nat, x: nat, p: nat) {
    base <= p && Bit(x, p - base)
  }

  /** The pages that word `x` marks free when its first bit is page `base`. */
  ghost function WordSet(base: nat, x: nat, n: nat): set<nat> {
    set p: nat | p < base + n && BitAt(base, x, p)
  }

  lemma {:induction false} WordSetSize(base: nat, x: nat, n: nat)
    requires x < Pow2(n)
    ensures |WordSet(base, x, n)| == Ones(x)
    decreases n
  {
    if n == 0 {
      assert WordSet(base, x, n) == {};
    } else {
      var rest := WordSet(base + 1, x / 2, n - 1);
      WordSetSize(base + 1, x / 2, n - 1);
      forall p: nat | p != base ensures BitAt(base, x, p) <==> BitAt(base + 1, x / 2, p) {
        if p > base { assert Bit(x, p - base) == Bit(x / 2, p - base - 1); }
      }
      if x % 2 == 1 {
        assert WordSet(base, x, n) == {base} + rest;
      } else {
        assert WordSet(base, x, n) == rest;
      }
    }
  }

  lemma PageWord(p: nat, idx: nat)
    ensures p / 64 == idx <==> 64 * idx <= p < 64 * idx + 64
    ensures p / 64 == idx ==> p % 64 == p - 64 * idx
  {}

  /** Rewriting one word changes exactly that word's pages. */
  lemma WordUpdate(words: seq<nat>, idx: nat, w: nat)
    requires idx < |words|
    ensures FreeSet(words[idx := w]) ==
            FreeSet(words) - Range(64 * idx, 64 * idx + 64) + WordSet(64 * idx, w, 64)
    ensures FreeSet(words) * Range(64 * idx, 64 * idx + 64) == WordSet(64 * idx, words[idx], 64)
  {
    forall p: nat ensures
      (p in FreeSet(words[idx := w]) <==>
       p in FreeSet(words) - Range(64 * idx, 64 * idx + 64) + WordSet(64 * idx, w, 64))
      && (p in FreeSet(words) * Range(64 * idx, 64 * idx + 64) <==> p in WordSet(64 * idx, words[idx], 64))
    {
      PageWord(p, idx);
    }
  }

  lemma SetBit(words: seq<nat>, p: nat)
    requires Words(words) && p < 64 * |words|
    ensures var w := Or(words[p / 64], Pow2(p % 64));
      w < WORD && FreeSet(words[p / 64 := w]) == FreeSet(words) + {p}
  {
    var idx, b := p / 64, p % 64;
    var w := Or(words[idx], Pow2(b));
    Pow2Word();
    Pow2Grows(b, 64);
    OrBound(words[idx], Pow2(b), 64);
    forall q: nat | q < 64 * |words|
      ensures q in FreeSet(words[idx := w]) <==> q in FreeSet(words) + {p}
    {
      BitOr(words[idx], Pow2(b), q % 64);
      BitOfPow2(b, q % 64);
    }
  }

  lemma ClearBit(words: seq<nat>, p: nat)
    requires Words(words) && p < 64 * |words|
    ensures var w := AndNot(words[p / 64], Pow2(p % 64));
      w < WORD && FreeSet(words[p / 64 := w]) == FreeSet(words) - {p}
  {
    var idx, b := p / 64, p % 64;
    var w := AndNot(words[idx], Pow2(b));
    AndNotBound(words[idx], Pow2(b));
    forall q: nat | q < 64 * |words|
      ensures q in FreeSet(words[idx := w]) <==> q in FreeSet(words) - {p}
    {
      BitAndNot(words[idx], Pow2(b), q % 64);
      BitOfPow2(b, q % 64);
    }
  }

  lemma FillWord(words: seq<nat>, idx: nat)
    requires Words(words) && idx < |words|
    ensures FreeSet(words[idx := ALL_ONES]) == FreeSet(words) + Range(64 * idx, 64 * idx + 64)
  {
    WordUpdate(words, idx, ALL_ONES);
    FullWord(64 * idx);
  }

  lemma FullWord(base: nat)
    ensures WordSet(base, ALL_ONES, 64) == Range(base, base + 64)
  {
    Pow2Word();
    forall p: nat | base <= p < base + 64 ensures BitAt(base, ALL_ONES, p) {
      AllOnes(64, p - base);
    }
  }

  lemma DrainWord(words: seq<nat>, idx: nat)
    requires Words(words) && idx < |words|
    ensures FreeSet(words[idx := 0]) == FreeSet(words) - Range(64 * idx, 64 * idx + 64)
  {
    WordUpdate(words, idx, 0);
    forall p: nat ensures p !in WordSet(64 * idx, 0, 64) {
      if 64 * idx <= p { BitOfZero(p - 64 * idx); }
    }
  }

  lemma DrainCount(words: seq<nat>, idx: nat)
    requires Words(words) && idx < |words|
    ensures |Range(64 * idx, 64 * idx + 64) * FreeSet(words)| == Ones(words[idx])
  {
    WordCount(words, idx);
    assert Range(64 * idx, 64 * idx + 64) * FreeSet(words) == FreeSet(words) * Range(64 * idx, 64 * idx + 64);
  }

  lemma WordCount(words: seq<nat>, idx: nat)
    requires Words(words) && idx < |words|
    ensures |FreeSet(words) * Range(64 * idx, 64 * idx + 64)| == Ones(words[idx])
  {
    WordUpdate(words, idx, 0);
    Pow2Word();
    WordSetSize(64 * idx, words[idx], 64);
  }

  /** `__builtin_ctzll`: the index of the lowest set bit. */
  function Ctz(x: nat): (r: nat)
    requires x > 0
    ensures Bit(x, r) && forall j: nat | j < r :: !Bit(x, j)
  {
    if x % 2 == 1 then 0 else
      var r := 1 + Ctz(x / 2);
      assert forall j: nat | 0 < j < r :: Bit(x, j) == Bit(x / 2, j - 1);
      r
  }

  lemma {:induction false} CtzBound(x: nat, k: nat)
    requires 0 < x < Pow2(k)
    ensures Ctz(x) < k
  {
    if x % 2 == 0 { CtzBound(x / 2, k - 1); }
  }

  // ----- counting by page, free of set cardinalities

  ghost function CountFree(free: set<nat>, start: nat, end: nat): nat
    decreases end
  {
    if end <= start then 0 else CountFree(free, start, end - 1) + (if end - 1 in free then 1 else 0)
  }

  ghost function CountUsed(free: set<nat>, start: nat, end: nat): nat
    decreases end
  {
    if end <= start then 0 else CountUsed(free, start, end - 1) + (if end - 1 in free then 0 else 1)
  }

  lemma RangeSnoc(start: nat, q: nat)
    requires start <= q
    ensures Range(start, q + 1) == Range(start, q) + {q} && q !in Range(start, q)
  {}

  lemma GrowCommon(s: set<nat>, t: set<nat>, q: nat, free: set<nat>)
    requires q !in s && t == s + {q}
    ensures |t * free| == |s * free| + (if q in free then 1 else 0)
  {
    if q in free {
      assert t * free == (s * free) + {q};
    } else {
      assert t * free == s * free;
    }
  }

  lemma {:induction false} CountFreeSize(free: set<nat>, start: nat, end: nat)
    ensures CountFree(free, start, end) == |Range(start, end) * free|
    decreases end
  {
    if end <= start {
      assert Range(start, end) * free == {};
    } else {
      CountFreeSize(free, start, end - 1);
      RangeSnoc(start, end - 1);
      GrowCommon(Range(start, end - 1), Range(start, end), end - 1, free);
    }
  }

  lemma {:induction false} CountFreeSplit(free: set<nat>, now: set<nat>, start: nat, p: nat, q: nat)
    requires start <= p <= q
    requires forall x | p <= x < q :: x in now <==> x in free
    ensures CountFree(free, start, q) == CountFree(free, start, p) + CountFree(now, p, q)
    decreases q
  {
    if p < q { CountFreeSplit(free, now, start, p, q - 1); }
  }

  lemma {:induction false} CountUsedSplit(free: set<nat>, now: set<nat>, start: nat, p: nat, q: nat)
    requires start <= p <= q
    requires forall x | p <= x < q :: x in now <==> x in free
    ensures CountUsed(free, start, q) == CountUsed(free, start, p) + CountUsed(now, p, q)
    decreases q
  {
    if p < q { CountUsedSplit(free, now, start, p, q - 1); }
  }

  lemma {:induction false} CountBoth(free: set<nat>, start: nat, end: nat)
    requires start <= end
    ensures CountFree(free, start, end) + CountUsed(free, start, end) == end - start
    decreases end
  {
    if start < end { CountBoth(free, start, end - 1); }
  }

  lemma WordCounts(words: seq<nat>, idx: nat)
    requires Words(words) && idx < |words|
    ensures CountFree(FreeSet(words), 64 * idx, 64 * idx + 64) == Ones(words[idx])
    ensures CountUsed(FreeSet(words), 64 * idx, 64 * idx + 64) == 64 - Ones(words[idx])
  {
    CountFreeSize(FreeSet(words), 64 * idx, 64 * idx + 64);
    DrainCount(words, idx);
    CountBoth(FreeSet(words), 64 * idx, 64 * idx + 64);
  }

  // ----- bit operations on the bitmap array

  method BitmapTest(bitmap: array<nat>, p: nat) returns (free: bool)
    requires p < 64 * bitmap.Length
    ensures free <==> p in FreeSet(bitmap[..])
  {
    free := Bit(bitmap[p / 64], p % 64);
  }

  method BitmapSet(bitmap: array<nat>, p: nat)
    requires Words(bitmap[..]) && p < 64 * bitmap.Length
    modifies bitmap
    ensures Words(bitmap[..]) && FreeSet(bitmap[..]) == old(FreeSet(bitmap[..])) + {p}
  {
    SetBit(bitmap[..], p);
    bitmap[p / 64] := Or(bitmap[p / 64], Pow2(p % 64));
    assert bitmap[..] == old(bitmap[..])[p / 64 := bitmap[p / 64]];
  }

  method BitmapClear(bitmap: array<nat>, p: nat)
    requires Words(bitmap[..]) && p < 64 * bitmap.Length
    modifies bitmap
    ensures Words(bitmap[..]) && FreeSet(bitmap[..]) == old(FreeSet(bitmap[..])) - {p}
  {
    ClearBit(bitmap[..], p);
    bitmap[p / 64] := AndNot(bitmap[p / 64], Pow2(p % 64));
    assert bitmap[..] == old(bitmap[..])[p / 64 := bitmap[p / 64]];
  }

  /** Sets all 64 bits of one word; returns how many were clear. */
  method FillAt(bitmap: array<nat>, idx: nat) returns (count: nat)
    requires Words(bitmap[..]) && idx < bitmap.Length
    modifies bitmap
    ensures Words(bitmap[..])
    ensures FreeSet(bitmap[..]) == old(FreeSet(bitmap[..])) + Range(64 * idx, 64 * idx + 64)
    ensures count == CountUsed(old(FreeSet(bitmap[..])), 64 * idx, 64 * idx + 64)
  {
    PopCountExact(bitmap[idx]);
    FillWord(bitmap[..], idx);
    WordCounts(bitmap[..], idx);
    count := 64 - PopCount(bitmap[idx]);
    bitmap[idx] := ALL_ONES;
    assert bitmap[..] == old(bitmap[..])[idx := ALL_ONES];
  }

  /** Clears all 64 bits of one word; returns how many were set. */
  method DrainAt(bitmap: array<nat>, idx: nat) returns (count: nat)
    requires Words(bitmap[..]) && idx < bitmap.Length
    modifies bitmap
    ensures Words(bitmap[..])
    ensures FreeSet(bitmap[..]) == old(FreeSet(bitmap[..])) - Range(64 * idx, 64 * idx + 64)
    ensures count == CountFree(old(FreeSet(bitmap[..])), 64 * idx, 64 * idx + 64)
  {
    PopCountExact(bitmap[idx]);
    DrainWord(bitmap[..], idx);
    WordCounts(bitmap[..], idx);
    count := PopCount(bitmap[idx]);
    bitmap[idx] := 0;
    assert bitmap[..] == old(bitmap[..])[idx := 0];
  }

  // ----- bulk ranges

  /** Pages `start..p` have been marked free on top of `free`, and `count` of them were new. */
  ghost predicate Filled(now: set<nat>, free: set<nat>, start: nat, p: nat, count: nat) {
    start <= p && now == free + Range(start, p) && count == CountUsed(free, start, p)
  }

  /** Pages `start..p` have been marked used, and `count` of them were free. */
  ghost predicate Drained(now: set<nat>, free: set<nat>, start: nat, p: nat, count: nat) {
    start <= p && now == free - Range(start, p) && count == CountFree(free, start, p)
  }

  lemma FillStep(now: set<nat>, free: set<nat>, start: nat, p: nat, count: nat, q: nat)
    requires Filled(now, free, start, p, count) && p <= q
    ensures Filled(now + Range(p, q), free, start, q, count + CountUsed(now, p, q))
  {
    CountUsedSplit(free, now, start, p, q);
  }

  lemma DrainStep(now: set<nat>, free: set<nat>, start: nat, p: nat, count: nat, q: nat)
    requires Drained(now, free, start, p, count) && p <= q
    ensures Drained(now - Range(p, q), free, start, q, count + CountFree(now, p, q))
  {
    CountFreeSplit(free, now, start, p, q);
  }

  method FillOne(bitmap: array<nat>, p: nat, count: nat, ghost free: set<nat>, ghost start: nat) returns (count': nat)
    requires Words(bitmap[..]) && p < 64 * bitmap.Length && Filled(FreeSet(bitmap[..]), free, start, p, count)
    modifies bitmap
    ensures Words(bitmap[..]) && Filled(FreeSet(bitmap[..]), free, start, p + 1, count')
  {
    ghost var now := FreeSet(bitmap[..]);
    FillStep(now, free, start, p, count, p + 1);
    assert Range(p, p + 1) == {p};
    count' := count;
    var isFree := BitmapTest(bitmap, p);
    if !isFree {
      BitmapSet(bitmap, p);
      count' := count + 1;
    }
    assert FreeSet(bitmap[..]) == now + Range(p, p + 1);
  }

  lemma NextWord(p: nat)
    requires 64 * (p / 64) == p
    ensures 64 * ((p + 64) / 64) == p + 64
  {}

  /** The whole-word loop of a range operation. */
  method FillWords(bitmap: array<nat>, start: nat, end: nat, n: nat, ghost free: set<nat>, ghost first: nat)
    returns (p: nat, count: nat)
    requires end <= 64 * bitmap.Length && (start < end ==> start % 64 == 0)
    requires Words(bitmap[..]) && Filled(FreeSet(bitmap[..]), free, first, start, n)
    modifies bitmap
    ensures start <= p && (p <= end || p == start)
    ensures Words(bitmap[..]) && Filled(FreeSet(bitmap[..]), free, first, p, count)
  {
    p, count := start, n;
    while p + 64 <= end
      invariant start <= p && (p <= end || p == start)
      invariant p < end ==> 64 * (p / 64) == p
      invariant Words(bitmap[..]) && Filled(FreeSet(bitmap[..]), free, first, p, count)
    {
      NextWord(p);
      count := FillWholeWord(bitmap, p, count, free, first);
      p := p + 64;
    }
  }

  /** One whole word. */
  method FillWholeWord(bitmap: array<nat>, p: nat, n: nat, ghost free: set<nat>, ghost first: nat) returns (count: nat)
    requires first <= p && 64 * (p / 64) == p && p + 64 <= 64 * bitmap.Length
    requires Words(bitmap[..]) && Filled(FreeSet(bitmap[..]), free, first, p, n)
    modifies bitmap
    ensures Words(bitmap[..]) && Filled(FreeSet(bitmap[..]), free, first, p + 64, count)
  {
    FillStep(FreeSet(bitmap[..]), free, first, p, n, p + 64);
    var changed := FillAt(bitmap, p / 64);
    count := n + changed;
  }

  /** The closing page-by-page loop. */
  method FillTail(bitmap: array<nat>, start: nat, end: nat, n: nat, ghost free: set<nat>, ghost first: nat)
    returns (p: nat, count: nat)
    requires end <= 64 * bitmap.Length
    requires Words(bitmap[..]) && Filled(FreeSet(bitmap[..]), free, first, start, n)
    modifies bitmap
    ensures start <= p && (p == end || (p == start && end <= start))
    ensures Words(bitmap[..]) && Filled(FreeSet(bitmap[..]), free, first, p, count)
  {
    p, count := start, n;
    while p < end
      invariant start <= p && (p <= end || p == start)
      invariant Words(bitmap[..]) && Filled(FreeSet(bitmap[..]), free, first, p, count)
    {
      count := FillOne(bitmap, p, count, free, first);
      p := p + 1;
    }
  }

  /** Marks pages `start..end` free, whole words at a time where it can, and
      returns how many were not free before. */
  method SetRange(bitmap: array<nat>, start: nat, end: nat) returns (count: nat)
    requires Words(bitmap[..]) && end <= 64 * bitmap.Length
    modifies bitmap
    ensures Words(bitmap[..])
    ensures FreeSet(bitmap[..]) == old(FreeSet(bitmap[..])) + Range(start, end)
    ensures count == CountUsed(old(FreeSet(bitmap[..])), start, end)
  {
    ghost var free := FreeSet(bitmap[..]);
    var p := start;
    count := 0;
    while p < end && p % 64 != 0
      invariant p <= end || p == start
      invariant Words(bitmap[..]) && Filled(FreeSet(bitmap[..]), free, start, p, count)
    {
      count := FillOne(bitmap, p, count, free, start);
      p := p + 1;
    }
    p, count := FillWords(bitmap, p, end, count, free, start);
    p, count := FillTail(bitmap, p, end, count, free, start);
    SameRange(start, p, end);
  }

  method DrainOne(bitmap: array<nat>, p: nat, count: nat, ghost free: set<nat>, ghost start: nat) returns (count': nat)
    requires Words(bitmap[..]) && p < 64 * bitmap.Length && Drained(FreeSet(bitmap[..]), free, start, p, count)
    modifies bitmap
    ensures Words(bitmap[..]) && Drained(FreeSet(bitmap[..]), free, start, p + 1, count')
  {
    ghost var now := FreeSet(bitmap[..]);
    DrainStep(now, free, start, p, count, p + 1);
    assert Range(p, p + 1) == {p};
    count' := count;
    var isFree := BitmapTest(bitmap, p);
    if isFree {
      BitmapClear(bitmap, p);
      count' := count + 1;
    }
    assert FreeSet(bitmap[..]) == now - Range(p, p + 1);
  }

  /** The whole-word loop of a range operation. */
  method DrainWords(bitmap: array<nat>, start: nat, end: nat, n: nat, ghost free: set<nat>, ghost first: nat)
    returns (p: nat, count: nat)
    requires end <= 64 * bitmap.Length && (start < end ==> start % 64 == 0)
    requires Words(bitmap[..]) && Drained(FreeSet(bitmap[..]), free, first, start, n)
    modifies bitmap
    ensures start <= p && (p <= end || p == start)
    ensures Words(bitmap[..]) && Drained(FreeSet(bitmap[..]), free, first, p, count)
  {
    p, count := start, n;
    while p + 64 <= end
      invariant start <= p && (p <= end || p == start)
      invariant p < end ==> 64 * (p / 64) == p
      invariant Words(bitmap[..]) && Drained(FreeSet(bitmap[..]), free, first, p, count)
    {
      DrainStep(FreeSet(bitmap[..]), free, first, p, count, p + 64);
      NextWord(p);
      var changed := DrainAt(bitmap, p / 64);
      count := count + changed;
      p := p + 64;
    }
  }

  /** The closing page-by-page loop. */
  method DrainTail(bitmap: array<nat>, start: nat, end: nat, n: nat, ghost free: set<nat>, ghost first: nat)
    returns (p: nat, count: nat)
    requires end <= 64 * bitmap.Length
    requires Words(bitmap[..]) && Drained(FreeSet(bitmap[..]), free, first, start, n)
    modifies bitmap
    ensures start <= p && (p == end || (p == start && end <= start))
    ensures Words(bitmap[..]) && Drained(FreeSet(bitmap[..]), free, first, p, count)
  {
    p, count := start, n;
    while p < end
      invariant start <= p && (p <= end || p == start)
      invariant Words(bitmap[..]) && Drained(FreeSet(bitmap[..]), free, first, p, count)
    {
      count := DrainOne(bitmap, p, count, free, first);
      p := p + 1;
    }
  }

  /** Marks pages `start..end` used and returns how many were free before. */
  method ClearRange(bitmap: array<nat>, start: nat, end: nat) returns (count: nat)
    requires Words(bitmap[..]) && end <= 64 * bitmap.Length
    modifies bitmap
    ensures Words(bitmap[..])
    ensures FreeSet(bitmap[..]) == old(FreeSet(bitmap[..])) - Range(start, end)
    ensures count == CountFree(old(FreeSet(bitmap[..])), start, end)
  {
    ghost var free := FreeSet(bitmap[..]);
    var p := start;
    count := 0;
    while p < end && p % 64 != 0
      invariant p <= end || p == start
      invariant Words(bitmap[..]) && Drained(FreeSet(bitmap[..]), free, start, p, count)
    {
      count := DrainOne(bitmap, p, count, free, start);
      p := p + 1;
    }
    p, count := DrainWords(bitmap, p, end, count, free, start);
    p, count := DrainTail(bitmap, p, end, count, free, start);
    SameRange(start, p, end);
  }

  lemma SameRange(start: nat, p: nat, end: nat)
    requires p == end || (p == start && end <= start)
    ensures Range(start, p) == Range(start, end)
  {}

  // ----- the allocator

  ghost predicate IsLowest(p: nat, free: set<nat>) {
    p in free && forall q | q in free :: p <= q
  }

  datatype MmapEntry = MmapEntry(base: nat, length: nat, usable: bool) {
    function End(): nat { base + length }
    /** The first whole page and the end of the last whole page. */
    function FirstPage(): nat { (base + PAGE - 1) / PAGE }
    function EndPage(): nat { End() / PAGE }
  }

  /** No 64-bit sum formed from the entry wraps around. */
  predicate NoWrap(e: MmapEntry) {
    e.End() + PAGE <= WORD
  }

  function MaxPage(entries: seq<MmapEntry>): nat {
    if entries == [] then 0 else
      var m := MaxPage(entries[..|entries| - 1]);
      var endPage := entries[|entries| - 1].EndPage();
      if endPage > m then endPage else m
  }

  lemma {:induction false} MaxPageBounds(entries: seq<MmapEntry>, e: MmapEntry)
    requires e in entries
    ensures e.EndPage() <= MaxPage(entries)
  {
    if e != entries[|entries| - 1] { MaxPageBounds(entries[..|entries| - 1], e); }
  }

  /** The inward-rounded pages of the usable entries. */
  ghost function UsablePages(entries: seq<MmapEntry>): set<nat> {
    if entries == [] then {} else
      var e := entries[|entries| - 1];
      UsablePages(entries[..|entries| - 1]) + (if e.usable then Range(e.FirstPage(), e.EndPage()) else {})
  }

  /** Every byte of page `p` is usable memory, according to one entry. */
  predicate WholeUsable(entries: seq<MmapEntry>, p: nat) {
    exists e | e in entries :: e.usable && e.base <= p * 4096 && (p + 1) * 4096 <= e.base + e.length
  }

  /** Page `p` and the bytes `lo..hi` overlap. */
  predicate Overlaps(p: nat, lo: nat, hi: nat) { p * 4096 < hi && lo < (p + 1) * 4096 }

  /** Unless `lo..hi` is empty, that is to have a byte in common. */
  lemma OverlapsIff(p: nat, lo: nat, hi: nat)
    requires lo < hi
    ensures Overlaps(p, lo, hi) <==> exists x: nat :: lo <= x < hi && x / 4096 == p
  {
    if Overlaps(p, lo, hi) {
      var x := if lo < p * 4096 then p * 4096 else lo;
      assert lo <= x < hi && x / 4096 == p;
    }
  }

  /** The rounded-outward pages of a byte range. */
  lemma OuterPages(p: nat, lo: nat, hi: nat)
    ensures p in Range(lo / PAGE, (hi + PAGE - 1) / PAGE) <==> Overlaps(p, lo, hi)
  {
    assert p >= lo / PAGE <==> lo < (p + 1) * 4096;
    assert p < (hi + PAGE - 1) / PAGE <==> p * 4096 < hi;
  }

  lemma InnerPages(e: MmapEntry, p: nat)
    ensures p in Range(e.FirstPage(), e.EndPage()) <==> e.base <= p * 4096 && (p + 1) * 4096 <= e.base + e.length
  {
    assert p >= e.FirstPage() <==> e.base <= p * 4096;
    assert p < e.EndPage() <==> (p + 1) * 4096 <= e.End();
  }

  lemma {:induction false} UsableIff(entries: seq<MmapEntry>, p: nat)
    ensures p in UsablePages(entries) <==> WholeUsable(entries, p)
  {
    if entries != [] {
      var e, rest := entries[|entries| - 1], entries[..|entries| - 1];
      assert entries == rest + [e];
      UsableIff(rest, p);
      InnerPages(e, p);
    }
  }

  /** What boot leaves free, byte by byte: the pages that are usable as a whole, not below
      1 MiB, and overlap neither the kernel image nor the bitmap. */
  lemma BootFreeIff(entries: seq<MmapEntry>, kstart: nat, kend: nat, bitmapAddr: nat, size: nat, p: nat)
    ensures p in BootFree(entries, kstart, kend, bitmapAddr, size) <==>
            && WholeUsable(entries, p) && p * 4096 >= 0x10_0000
            && !Overlaps(p, kstart, kend) && !Overlaps(p, bitmapAddr, bitmapAddr + size)
  {
    UsableIff(entries, p);
    OuterPages(p, kstart, kend);
    OuterPages(p, bitmapAddr, bitmapAddr + size);
  }

  function BitmapBytes(pages: nat): nat {
    (pages + 63) / 64 * 8
  }

  /** Where the bitmap would go in entry `e`: past the low 1 MiB, past the kernel
      if the entry overlaps it, page-aligned, and only if `size` bytes remain. */
  function Placement(e: MmapEntry, kstart: nat, kend: nat, size: nat): (r: nat)
    ensures r != 0 ==> e.usable && r % PAGE == 0 && 0x10_0000 <= r
    ensures r != 0 ==> e.base <= r && r + size <= e.End()
    ensures r != 0 ==> r + size <= kstart || kend <= r
  {
    if !e.usable then 0 else
    var base := if e.base < 0x10_0000 then 0x10_0000 else e.base;
    if base >= e.End() && base != e.base then 0 else
    var base2 := if base < kend && e.End() > kstart then kend else base;
    if base2 != base && base2 >= e.End() then 0 else
    var aligned := (base2 + PAGE - 1) / PAGE * PAGE;
    if aligned >= e.End() then 0 else
    if e.End() - aligned >= size then aligned else 0
  }

  /** The bitmap may go to `a`: a page boundary of the entry, not below 1 MiB, behind the
      kernel if the entry reaches into it, with `size` bytes left. */
  predicate HasRoom(e: MmapEntry, kstart: nat, kend: nat, size: nat, a: nat) {
    && e.usable && a % 4096 == 0 && 0x10_0000 <= a && e.base <= a < e.base + e.length && a + size <= e.base + e.length
    && (e.base < kend && 0x10_0000 < kend && kstart < e.base + e.length ==> kend <= a)
  }

  /** The place chosen in an entry is the lowest one there is. */
  lemma PlacementIff(e: MmapEntry, kstart: nat, kend: nat, size: nat)
    ensures var r := Placement(e, kstart, kend, size);
      if r == 0 then forall a: nat :: !HasRoom(e, kstart, kend, size, a)
      else HasRoom(e, kstart, kend, size, r) && forall a: nat | HasRoom(e, kstart, kend, size, a) :: r <= a
  {
    forall a: nat | HasRoom(e, kstart, kend, size, a)
      ensures Placement(e, kstart, kend, size) != 0 && Placement(e, kstart, kend, size) <= a
    {
      var base := if e.base < 0x10_0000 then 0x10_0000 else e.base;
      var base2 := if base < kend && e.End() > kstart then kend else base;
      RoundedUp(base2, a);
    }
  }

  lemma RoundedUp(x: nat, a: nat)
    requires a % 4096 == 0 && x <= a
    ensures (x + PAGE - 1) / PAGE * PAGE <= a
  {}

  ghost predicate SomeRoom(entries: seq<MmapEntry>, kstart: nat, kend: nat, size: nat) {
    exists e, a: nat | e in entries :: HasRoom(e, kstart, kend, size, a)
  }

  /** Boot fails for want of a place exactly if no entry has room for the bitmap. */
  lemma NoPlaceIff(entries: seq<MmapEntry>, kstart: nat, kend: nat, size: nat)
    ensures FirstPlacement(entries, kstart, kend, size) == 0 <==> !SomeRoom(entries, kstart, kend, size)
  {
    PlacementFound(entries, kstart, kend, size);
    forall e | e in entries ensures Placement(e, kstart, kend, size) == 0 <==> forall a: nat :: !HasRoom(e, kstart, kend, size, a) {
      PlacementIff(e, kstart, kend, size);
    }
  }

  /** What is left free at boot: whole usable pages outside the low 1 MiB, the
      kernel image and the bitmap itself. */
  ghost function BootFree(entries: seq<MmapEntry>, kstart: nat, kend: nat, bitmapAddr: nat, size: nat): set<nat> {
    UsablePages(entries)
    - Range(0, LOW_PAGES)
    - Range(kstart / PAGE, (kend + PAGE - 1) / PAGE)
    - Range(bitmapAddr / PAGE, (bitmapAddr + size + PAGE - 1) / PAGE)
  }

  lemma {:induction false} CountAdd(free: set<nat>, start: nat, end: nat, n: nat)
    ensures CountFree(free + Range(start, end), 0, n) ==
            CountFree(free, 0, n) + CountUsed(free, start, if end < n then end else n)
    decreases n
  {
    if n > 0 { CountAdd(free, start, end, n - 1); }
  }

  lemma {:induction false} CountSub(free: set<nat>, start: nat, end: nat, n: nat)
    ensures CountFree(free - Range(start, end), 0, n) + CountFree(free, start, if end < n then end else n) ==
            CountFree(free, 0, n)
    decreases n
  {
    if n > 0 { CountSub(free, start, end, n - 1); }
  }

  lemma {:induction false} CountNone(start: nat, end: nat)
    ensures CountFree({}, start, end) == 0
    decreases end
  {
    if start < end { CountNone(start, end - 1); }
  }

  lemma OnePage(p: nat)
    ensures Range(p, p + 1) == {p}
  {}

  /** Pass 1 of the boot scan: the page past the end of the highest entry. */
  method HighestPage(entries: seq<MmapEntry>) returns (highest: nat)
    ensures highest == MaxPage(entries)
  {
    highest := 0;
    for i := 0 to |entries|
      invariant highest == MaxPage(entries[..i])
    {
      assert entries[..i + 1][..i] == entries[..i];
      var endPage := entries[i].EndPage();
      if endPage > highest { highest := endPage; }
    }
    assert entries[..|entries|] == entries;
  }

  /** The bitmap's address: the first entry with room for it, 0 if there is none. */
  function FirstPlacement(entries: seq<MmapEntry>, kstart: nat, kend: nat, size: nat): nat {
    if entries == [] then 0 else
      var r := FirstPlacement(entries[..|entries| - 1], kstart, kend, size);
      if r != 0 then r else Placement(entries[|entries| - 1], kstart, kend, size)
  }

  lemma {:induction false} PlacementFound(entries: seq<MmapEntry>, kstart: nat, kend: nat, size: nat)
    ensures var r := FirstPlacement(entries, kstart, kend, size);
      if r == 0 then forall e | e in entries :: Placement(e, kstart, kend, size) == 0
      else exists e | e in entries :: r == Placement(e, kstart, kend, size)
  {
    if entries != [] {
      var e, rest := entries[|entries| - 1], entries[..|entries| - 1];
      assert entries == rest + [e];
      PlacementFound(rest, kstart, kend, size);
    }
  }

  /** Pass 2 of the boot scan. */
  method PlaceBitmap(entries: seq<MmapEntry>, kstart: nat, kend: nat, size: nat) returns (addr: nat)
    ensures addr == FirstPlacement(entries, kstart, kend, size)
  {
    addr := 0;
    for i := 0 to |entries|
      invariant addr == FirstPlacement(entries[..i], kstart, kend, size)
    {
      assert entries[..i + 1][..i] == entries[..i];
      if addr == 0 {
        addr := Placement(entries[i], kstart, kend, size);
      }
    }
    assert entries[..|entries|] == entries;
  }

  /** What the boot scan needs of its memory map: no sum wraps around, and the three
      ranges it reserves have bits in the bitmap it lays out. */
  predicate BootMap(entries: seq<MmapEntry>, kstart: nat, kend: nat) {
    && (forall i | 0 <= i < |entries| :: NoWrap(entries[i]))
    && kstart <= kend && kend + PAGE <= WORD
    && var pages := MaxPage(entries); var addr := FirstPlacement(entries, kstart, kend, BitmapBytes(pages));
    addr != 0 ==> InsideMap(pages, kend, addr + BitmapBytes(pages))
  }

  /** The three boot reservations end inside the words of a bitmap for `pages` pages. */
  predicate InsideMap(pages: nat, kend: nat, bitmapEnd: nat) {
    var bits := (pages + 63) / 64 * 64;
    && LOW_PAGES <= bits
    && (kend + PAGE - 1) / PAGE <= bits
    && (bitmapEnd + PAGE - 1) / PAGE <= bits
  }

  /** The bitmap is page-aligned, above 1 MiB, clear of the kernel and in one usable entry. */
  lemma BitmapPlaced(entries: seq<MmapEntry>, kstart: nat, kend: nat, size: nat)
    requires kstart <= kend
    ensures var addr := FirstPlacement(entries, kstart, kend, size);
      addr != 0 ==>
        && addr % PAGE == 0 && 0x10_0000 <= addr
        && (addr + size <= kstart || kend <= addr)
        && exists e | e in entries :: e.usable && e.base <= addr && addr + size <= e.End()
  {
    if FirstPlacement(entries, kstart, kend, size) != 0 { PlacementFound(entries, kstart, kend, size); }
  }

  /** Exactly which maps meet the need: the low 1 MiB and the kernel have bits, and the
      bitmap, if it fits anywhere, does not end in a partial last page whose bit would
      be the first of a new word. */
  lemma BootMapIff(entries: seq<MmapEntry>, kstart: nat, kend: nat)
    requires (forall i | 0 <= i < |entries| :: NoWrap(entries[i])) && kstart <= kend && kend + PAGE <= WORD
    ensures var pages := MaxPage(entries); var bits := (pages + 63) / 64 * 64;
      var size := BitmapBytes(pages); var addr := FirstPlacement(entries, kstart, kend, size);
      BootMap(entries, kstart, kend) <==>
      || addr == 0
      || (LOW_PAGES <= bits && (kend + PAGE - 1) / PAGE <= bits
          && (addr + size <= pages * PAGE || pages % 64 != 0))
  {
    var pages := MaxPage(entries);
    var size := BitmapBytes(pages);
    var addr := FirstPlacement(entries, kstart, kend, size);
    if addr != 0 {
      BitmapPlaced(entries, kstart, kend, size);
      var e :| e in entries && e.usable && e.base <= addr && addr + size <= e.End();
      MaxPageBounds(entries, e);
      LastBit(pages, e.End(), addr + size);
    }
  }

  /** The page after the last has a bit exactly if the last word is not full. */
  lemma LastBit(pages: nat, top: nat, end: nat)
    requires end <= top && top / PAGE <= pages
    ensures (end + PAGE - 1) / PAGE <= (pages + 63) / 64 * 64 <==> end <= pages * PAGE || pages % 64 != 0
  {
    assert (end + PAGE - 1) / PAGE <= pages <==> end <= pages * PAGE;
  }

  /** It is not met by every map: here the bitmap of 320 pages goes into the partial
      page 320. Reserving that page writes bit 320 of a bitmap of five words. */
  lemma PartialPageOverruns()
    ensures var entries := [MmapEntry(0x10_0000, 0x4_0040, true)];
      && MaxPage(entries) == 320 && FirstPlacement(entries, 0x10_0000, 0x14_0000, BitmapBytes(320)) == 0x14_0000
      && 0x14_0000 / PAGE == 64 * (BitmapBytes(320) / 8)
      && 64 * (BitmapBytes(320) / 8) < (0x14_0000 + BitmapBytes(320) + PAGE - 1) / PAGE
      && !BootMap(entries, 0x10_0000, 0x14_0000)
  {
    var e := MmapEntry(0x10_0000, 0x4_0040, true);
    assert [e][..0] == [];
    assert MaxPage([e]) == 320;
    assert Placement(e, 0x10_0000, 0x14_0000, 40) == 0x14_0000;
  }

  class Allocator {
    var bitmap: array<nat>
    var bitmapAddr: nat
    var totalPages: nat
    var freeCount: nat

    ghost function Free(): set<nat>
      reads this, bitmap
    {
      FreeSet(bitmap[..])
    }

    ghost predicate Valid()
      reads this, bitmap
    {
      && bitmap.Length == (totalPages + 63) / 64
      && Words(bitmap[..])
      && (forall p | p in Free() :: p < totalPages)
      && freeCount == CountFree(Free(), 0, 64 * bitmap.Length)
    }

    /** Boot-time construction; `ok` is false when no entry can hold the bitmap. */
    method Init(entries: seq<MmapEntry>, kstart: nat, ksize: nat) returns (ok: bool)
      requires BootMap(entries, kstart, kstart + ksize)
      modifies this
      ensures totalPages == MaxPage(entries)
      ensures bitmapAddr == FirstPlacement(entries, kstart, kstart + ksize, BitmapBytes(totalPages))
      ensures ok <==> bitmapAddr != 0
      ensures ok <==> SomeRoom(entries, kstart, kstart + ksize, BitmapBytes(totalPages))
      ensures ok ==> Valid() && fresh(bitmap)
      ensures ok ==> Free() == BootFree(entries, kstart, kstart + ksize, bitmapAddr, BitmapBytes(totalPages)) && 0 !in Free()
      ensures ok ==> forall p: nat :: p in Free() <==>
                && WholeUsable(entries, p) && p * 4096 >= 0x10_0000
                && !Overlaps(p, kstart, kstart + ksize) && !Overlaps(p, bitmapAddr, bitmapAddr + BitmapBytes(totalPages))
    {
      totalPages := HighestPage(entries);
      var kend, size := kstart + ksize, BitmapBytes(totalPages);
      bitmapAddr := PlaceBitmap(entries, kstart, kend, size);
      ok := bitmapAddr != 0;
      NoPlaceIff(entries, kstart, kend, size);
      if ok {
        Populate(entries, kstart, kend, size);
        forall p: nat { BootFreeIff(entries, kstart, kend, bitmapAddr, size, p); }
      }
    }

    method Populate(entries: seq<MmapEntry>, kstart: nat, kend: nat, size: nat)
      requires totalPages == MaxPage(entries) && InsideMap(totalPages, kend, bitmapAddr + size)
      modifies this`bitmap, this`freeCount
      ensures Valid() && fresh(bitmap)
      ensures Free() == BootFree(entries, kstart, kend, bitmapAddr, size)
    {
      Blank();
      MarkUsable(entries);
      ReserveBoot(kstart, kend, size);
    }

    /** An all-used bitmap for `totalPages` pages. */
    method Blank()
      modifies this`bitmap, this`freeCount
      ensures Valid() && fresh(bitmap) && Free() == {}
    {
      bitmap := new nat[(totalPages + 63) / 64](_ => 0);
      freeCount := 0;
      EmptyBitmap(bitmap[..]);
      CountNone(0, 64 * bitmap.Length);
    }

    method ReserveBoot(kstart: nat, kend: nat, size: nat)
      requires Valid() && InsideMap(totalPages, kend, bitmapAddr + size)
      modifies this`freeCount, bitmap
      ensures Valid()
      ensures Free() == old(Free()) - Range(0, LOW_PAGES)
                        - Range(kstart / PAGE, (kend + PAGE - 1) / PAGE)
                        - Range(bitmapAddr / PAGE, (bitmapAddr + size + PAGE - 1) / PAGE)
    {
      Reserve(0, LOW_PAGES);
      Reserve(kstart / PAGE, (kend + PAGE - 1) / PAGE);
      Reserve(bitmapAddr / PAGE, (bitmapAddr + size + PAGE - 1) / PAGE);
    }

    /** The cached count is the number of free pages. */
    method FreePages() returns (n: nat)
      requires Valid()
      ensures n == |Free()|
    {
      n := freeCount;
      CountFreeSize(Free(), 0, 64 * bitmap.Length);
      assert Range(0, 64 * bitmap.Length) * Free() == Free();
    }

    /** Pass 3 of the boot scan: every whole usable page becomes free. */
    method MarkUsable(entries: seq<MmapEntry>)
      requires Valid() && Free() == {} && totalPages == MaxPage(entries)
      modifies this`freeCount, bitmap
      ensures Valid() && Free() == UsablePages(entries)
    {
      for i := 0 to |entries|
        invariant Valid() && Free() == UsablePages(entries[..i])
      {
        var e := entries[i];
        assert entries[..i + 1][..i] == entries[..i];
        if e.usable {
          MaxPageBounds(entries, e);
          CountAdd(Free(), e.FirstPage(), e.EndPage(), 64 * bitmap.Length);
          var added := SetRange(bitmap, e.FirstPage(), e.EndPage());
          freeCount := freeCount + added;
        }
      }
      assert entries[..|entries|] == entries;
    }

    /** Takes pages `start..end` out of the free set. */
    method Reserve(start: nat, end: nat)
      requires Valid() && end <= 64 * bitmap.Length
      modifies this`freeCount, bitmap
      ensures Valid() && Free() == old(Free()) - Range(start, end)
    {
      CountSub(Free(), start, end, 64 * bitmap.Length);
      var gone := ClearRange(bitmap, start, end);
      freeCount := freeCount - gone;
    }

    /** The lowest free page below 4 GiB, as an address. 0 is the failure value, and also
        the address of page 0, which is free only if a caller has returned it. */
    method AllocPage() returns (addr: nat)
      requires Valid()
      modifies this`freeCount, bitmap
      ensures Valid()
      ensures if forall p | p in old(Free()) :: p >= MAX_PAGE
              then addr == 0 && Free() == old(Free())
              else var page := addr / PAGE;
                addr == page * PAGE && page < MAX_PAGE && IsLowest(page, old(Free())) && Free() == old(Free()) - {page}
      ensures addr == 0 <==> 0 in old(Free()) || forall p | p in old(Free()) :: p >= MAX_PAGE
    {
      var found, page := FindLowest();
      if !found { return 0; }
      PageOfAddress(page);
      TakePage(page);
      return page * PAGE;
    }

    /** The scan of the allocator: zero words are skipped, the lowest set bit of
        the first other word is the page. */
    method FindLowest() returns (found: bool, page: nat)
      requires Valid()
      ensures found ==> IsLowest(page, Free()) && page < MAX_PAGE
      ensures !found ==> forall p | p in Free() :: p >= MAX_PAGE
    {
      var maxPage := if totalPages < MAX_PAGE then totalPages else MAX_PAGE;
      var qwords := (maxPage + 63) / 64;
      page := 0;
      for i := 0 to qwords
        invariant forall p: nat | p in FreeSet(bitmap[..]) :: 64 * i <= p
      {
        if bitmap[i] == 0 {
          ZeroWord(bitmap[..], i);
        } else {
          page := 64 * i + Ctz(bitmap[i]);
          LowestInWord(bitmap[..], i);
          return page < maxPage, page;
        }
      }
      found := false;
    }

    method TakePage(page: nat)
      requires Valid() && page in Free()
      modifies this`freeCount, bitmap
      ensures Valid() && Free() == old(Free()) - {page}
    {
      CountSub(Free(), page, page + 1, 64 * bitmap.Length);
      OnePage(page);
      BitmapClear(bitmap, page);
      freeCount := freeCount - 1;
    }

    /** Returns a page; a page beyond the map or already free is ignored. */
    method FreePage(addr: nat)
      requires Valid()
      modifies this`freeCount, bitmap
      ensures Valid()
      ensures Free() == old(Free()) + (if addr / PAGE < totalPages then {addr / PAGE} else {})
    {
      var page := addr / PAGE;
      if page >= totalPages { return; }
      var isFree := BitmapTest(bitmap, page);
      if !isFree { PutPage(page); } else { assert Free() == Free() + {page}; }
    }

    method PutPage(page: nat)
      requires Valid() && page < totalPages && page !in Free()
      modifies this`freeCount, bitmap
      ensures Valid() && Free() == old(Free()) + {page}
    {
      CountAdd(Free(), page, page + 1, 64 * bitmap.Length);
      OnePage(page);
      BitmapSet(bitmap, page);
      freeCount := freeCount + 1;
    }
  }

  lemma PageOfAddress(page: nat)
    ensures page * PAGE / PAGE == page
  {}

  lemma EmptyBitmap(words: seq<nat>)
    requires forall i | 0 <= i < |words| :: words[i] == 0
    ensures Words(words) && FreeSet(words) == {}
  {
    forall p: nat | p < 64 * |words| ensures p !in FreeSet(words) {
      BitOfZero(p % 64);
    }
  }

  lemma ZeroWord(words: seq<nat>, i: nat)
    requires i < |words| && words[i] == 0
    ensures forall p: nat | p in FreeSet(words) && 64 * i <= p :: 64 * (i + 1) <= p
  {
    forall p: nat | p in FreeSet(words) && 64 * i <= p ensures 64 * (i + 1) <= p {
      BitOfZero(p % 64);
      PageWord(p, i);
    }
  }

  lemma LowestInWord(words: seq<nat>, i: nat)
    requires Words(words) && i < |words| && words[i] != 0
    requires forall p: nat | p in FreeSet(words) :: 64 * i <= p
    ensures IsLowest(64 * i + Ctz(words[i]), FreeSet(words))
  {
    Pow2Word();
    CtzBound(words[i], 64);
    var page := 64 * i + Ctz(words[i]);
    PageWord(page, i);
    forall q | q in FreeSet(words) ensures page <= q {
      PageWord(q, i);
    }
  }

  // ----- runs

  /** A call and the page it was about. */
  datatype PageCall = Alloc(page: nat) | Return(page: nat)

  /** Free sets before and after each call, as the contracts of the allocator say. */
  ghost predicate PageRun(free: seq<set<nat>>, calls: seq<PageCall>) {
    && |free| == |calls| + 1
    && forall i | 0 <= i < |calls| :: CallOk(free[i], calls[i], free[i + 1])
  }

  ghost predicate CallOk(free: set<nat>, c: PageCall, after: set<nat>) {
    match c
    case Alloc(p) => IsLowest(p, free) && after == free - {p}
    case Return(p) => after == free + {p}
  }

  /** No page is handed out twice unless it was returned in between. */
  lemma NoPageTwice(free: seq<set<nat>>, calls: seq<PageCall>, i: nat, j: nat) returns (k: nat)
    requires PageRun(free, calls) && i < j < |calls| && calls[i].Alloc? && calls[j] == calls[i]
    ensures i < k < j && calls[k] == Return(calls[i].page)
  {
    assert CallOk(free[i], calls[i], free[i + 1]) && CallOk(free[j], calls[j], free[j + 1]);
    k := ReturnedAt(free, calls, calls[i].page, i + 1, j);
  }

  lemma {:induction false} ReturnedAt(free: seq<set<nat>>, calls: seq<PageCall>, p: nat, i: nat, j: nat) returns (k: nat)
    requires PageRun(free, calls) && i <= j < |free| && p !in free[i] && p in free[j]
    ensures i <= k < j && calls[k] == Return(p)
    decreases j
  {
    assert CallOk(free[j - 1], calls[j - 1], free[j]);
    if p !in free[j - 1] { k := j - 1; } else { k := ReturnedAt(free, calls, p, i, j - 1); }
  }
}
