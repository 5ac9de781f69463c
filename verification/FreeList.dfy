/** The heap's free list as a sorted sequence of blocks: first fit with
    splitting, and sorted insertion with coalescing. */
module FreeList {

  const HEADER: nat := 16        // size word and canary word
  const MIN_BLOCK: nat := 16     // sizeof(FreeBlock)

  datatype Block = Block(addr: nat, size: nat) {
    function End(): nat { addr + size }
    predicate Has(x: nat) { addr <= x < addr + size }
  }

  /** 16-byte aligned, a multiple of 16 bytes, at least `min` bytes long. */
  predicate Good(b: Block, min: nat) {
    b.addr > 0 && b.addr % 16 == 0 && b.size % 16 == 0 && b.size >= min && b.size > 0
  }

  predicate Disjoint(a: Block, b: Block) {
    a.End() <= b.addr || b.End() <= a.addr
  }

  /** Address-sorted with a gap between neighbours: nothing left to coalesce. */
  ghost predicate Sorted(fl: seq<Block>) {
    forall i, j | 0 <= i < j < |fl| :: fl[i].End() < fl[j].addr
  }

  ghost predicate AllGood(fl: seq<Block>, min: nat) {
    forall i | 0 <= i < |fl| :: Good(fl[i], min)
  }

  ghost predicate Covers(fl: seq<Block>, x: nat) {
    exists i :: 0 <= i < |fl| && fl[i].Has(x)
  }

  ghost predicate Apart(fl: seq<Block>, b: Block) {
    forall i | 0 <= i < |fl| :: Disjoint(fl[i], b)
  }

  // ----- first fit

  /** The first block of at least `needed` bytes, from `i` on; |fl| if there is none. */
  function FirstFit(fl: seq<Block>, needed: nat, i: nat): (k: nat)
    requires i <= |fl|
    ensures i <= k <= |fl|
    ensures k < |fl| ==> fl[k].size >= needed
    ensures forall j | i <= j < k :: fl[j].size < needed
    decreases |fl| - i
  {
    if i == |fl| || fl[i].size >= needed then i else FirstFit(fl, needed, i + 1)
  }

  /** Whether the chosen block is split: what remains must hold a header and 16 bytes. */
  predicate Splits(b: Block, needed: nat) {
    b.size >= needed + MIN_BLOCK + 16
  }

  /** The block handed out from free block `b`. */
  function Piece(b: Block, needed: nat): Block {
    if Splits(b, needed) then Block(b.addr, needed) else b
  }

  /** What is left of `b` in the list. */
  function Remainder(b: Block, needed: nat): seq<Block> {
    if Splits(b, needed) then [Block(b.addr + needed, b.size - needed)] else []
  }

  function TakeAt(fl: seq<Block>, k: nat, needed: nat): seq<Block>
    requires k < |fl|
  {
    fl[..k] + Remainder(fl[k], needed) + fl[k + 1..]
  }

  predicate CanTake(fl: seq<Block>, needed: nat) {
    FirstFit(fl, needed, 0) < |fl|
  }

  /** An attempt succeeds exactly if some block is large enough, and takes the first such. */
  lemma CanTakeIff(fl: seq<Block>, needed: nat)
    ensures CanTake(fl, needed) <==> exists i :: 0 <= i < |fl| && fl[i].size >= needed
    ensures CanTake(fl, needed) ==> exists i :: 0 <= i < |fl| && fl[i].size >= needed && Taken(fl, needed).addr == fl[i].addr
                                                && forall j | 0 <= j < i :: fl[j].size < needed
  {
    var k := FirstFit(fl, needed, 0);
    if k < |fl| { assert fl[k].size >= needed && Taken(fl, needed).addr == fl[k].addr; }
  }

  function Taken(fl: seq<Block>, needed: nat): Block
    requires CanTake(fl, needed)
  {
    Piece(fl[FirstFit(fl, needed, 0)], needed)
  }

  function AfterTake(fl: seq<Block>, needed: nat): seq<Block>
    requires CanTake(fl, needed)
  {
    TakeAt(fl, FirstFit(fl, needed, 0), needed)
  }

  lemma TakeAtElement(fl: seq<Block>, k: nat, needed: nat, j: nat)
    requires k < |fl| && j < |TakeAt(fl, k, needed)|
    ensures var r := TakeAt(fl, k, needed); var s := |Remainder(fl[k], needed)|;
      && |r| == |fl| - 1 + s && s <= 1
      && r[j] == if j < k then fl[j] else if s == 1 && j == k then Remainder(fl[k], needed)[0] else fl[j + 1 - s]
  {}

  /** Taking a block keeps the list sorted, gapped and well-formed. */
  lemma TakeSorted(fl: seq<Block>, needed: nat, min: nat)
    requires Sorted(fl) && AllGood(fl, min) && CanTake(fl, needed) && needed % 16 == 0 && min <= needed && 0 < needed && min <= 32
    ensures Sorted(AfterTake(fl, needed)) && AllGood(AfterTake(fl, needed), min)
    ensures Good(Taken(fl, needed), min) && needed <= Taken(fl, needed).size < needed + 32
  {
    var k := FirstFit(fl, needed, 0);
    var r := AfterTake(fl, needed);
    forall j | 0 <= j < |r| ensures Good(r[j], min) {
      TakeAtElement(fl, k, needed, j);
    }
    TakeOrdered(fl, k, needed);
  }

  lemma TakeOrdered(fl: seq<Block>, k: nat, needed: nat)
    requires Sorted(fl) && k < |fl| && needed <= fl[k].size
    ensures Sorted(TakeAt(fl, k, needed))
  {
    var r := TakeAt(fl, k, needed);
    forall i, j | 0 <= i < j < |r| ensures r[i].End() < r[j].addr {
      TakeAtElement(fl, k, needed, i);
      TakeAtElement(fl, k, needed, j);
    }
  }

  /** The bytes of the list split exactly into the taken block and what is left. */
  lemma TakeCovers(fl: seq<Block>, needed: nat, x: nat)
    requires Sorted(fl) && CanTake(fl, needed)
    ensures Covers(AfterTake(fl, needed), x) <==> Covers(fl, x) && !Taken(fl, needed).Has(x)
    ensures Taken(fl, needed).Has(x) ==> Covers(fl, x)
  {
    var k := FirstFit(fl, needed, 0);
    if Covers(AfterTake(fl, needed), x) { TakeKept(fl, k, needed, x); }
    if Covers(fl, x) && !Taken(fl, needed).Has(x) { TakeKeeps(fl, k, needed, x); }
    if fl[k].Has(x) { assert Covers(fl, x); }
  }

  lemma TakeKept(fl: seq<Block>, k: nat, needed: nat, x: nat)
    requires Sorted(fl) && k < |fl| && Covers(TakeAt(fl, k, needed), x)
    ensures Covers(fl, x) && !Piece(fl[k], needed).Has(x)
  {
    var r := TakeAt(fl, k, needed);
    var j :| 0 <= j < |r| && r[j].Has(x);
    KeptAt(fl, k, needed, x, j);
  }

  lemma KeptAt(fl: seq<Block>, k: nat, needed: nat, x: nat, j: nat)
    requires Sorted(fl) && k < |fl| && j < |TakeAt(fl, k, needed)| && TakeAt(fl, k, needed)[j].Has(x)
    ensures Covers(fl, x) && !Piece(fl[k], needed).Has(x)
  {
    var s := |Remainder(fl[k], needed)|;
    TakeAtElement(fl, k, needed, j);
    var i := if j < k then j else if s == 1 && j == k then k else j + 1 - s;
    assert fl[i].Has(x);
    assert i < k ==> fl[i].End() < fl[k].addr;
    assert k < i ==> fl[k].End() < fl[i].addr;
  }

  lemma TakeKeeps(fl: seq<Block>, k: nat, needed: nat, x: nat)
    requires k < |fl| && Covers(fl, x) && !Piece(fl[k], needed).Has(x)
    ensures Covers(TakeAt(fl, k, needed), x)
  {
    var r, s := TakeAt(fl, k, needed), |Remainder(fl[k], needed)|;
    var i :| 0 <= i < |fl| && fl[i].Has(x);
    var j := if i <= k then i else i - 1 + s;
    TakeAtElement(fl, k, needed, j);
    assert r[j].Has(x);
  }

  // ----- sorted insertion with coalescing

  /** The first position from `i` on whose block is not below `b`. */
  function Position(fl: seq<Block>, b: Block, i: nat): (k: nat)
    requires i <= |fl|
    ensures i <= k <= |fl|
    ensures k < |fl| ==> fl[k].addr >= b.addr
    ensures forall j | i <= j < k :: fl[j].addr < b.addr
    decreases |fl| - i
  {
    if i == |fl| || fl[i].addr >= b.addr then i else Position(fl, b, i + 1)
  }

  /** `b` with the block at `k` swallowed if it is adjacent. */
  predicate MergesNext(fl: seq<Block>, b: Block, k: nat)
    requires k <= |fl|
  {
    k < |fl| && b.End() == fl[k].addr
  }

  predicate MergesPrev(fl: seq<Block>, b: Block, k: nat)
    requires k <= |fl|
  {
    k > 0 && fl[k - 1].End() == b.addr
  }

  function InsertAt(fl: seq<Block>, b: Block, k: nat): seq<Block>
    requires k <= |fl|
  {
    var hi := if MergesNext(fl, b, k) then k + 1 else k;
    var b1 := if MergesNext(fl, b, k) then Block(b.addr, b.size + fl[k].size) else b;
    var lo := if MergesPrev(fl, b, k) then k - 1 else k;
    var b2 := if MergesPrev(fl, b, k) then Block(fl[k - 1].addr, fl[k - 1].size + b1.size) else b1;
    fl[..lo] + [b2] + fl[hi..]
  }

  function Insert(fl: seq<Block>, b: Block): seq<Block> {
    InsertAt(fl, b, Position(fl, b, 0))
  }

  lemma InsertAtElement(fl: seq<Block>, b: Block, k: nat, j: nat)
    requires k <= |fl| && j < |InsertAt(fl, b, k)|
    ensures var r := InsertAt(fl, b, k);
      var lo := if MergesPrev(fl, b, k) then k - 1 else k;
      var hi := if MergesNext(fl, b, k) then k + 1 else k;
      && |r| == lo + 1 + |fl| - hi
      && (j < lo ==> r[j] == fl[j])
      && (j > lo ==> r[j] == fl[j - lo - 1 + hi])
      && (j == lo ==> r[j].addr == if MergesPrev(fl, b, k) then fl[k - 1].addr else b.addr)
      && (j == lo ==> r[j].End() == if MergesNext(fl, b, k) then fl[k].End() else b.End())
  {}

  /** Insertion keeps the list sorted and leaves no two neighbours adjacent. */
  lemma InsertSorted(fl: seq<Block>, b: Block, min: nat)
    requires Sorted(fl) && AllGood(fl, min) && Good(b, min) && Apart(fl, b)
    ensures Sorted(Insert(fl, b)) && AllGood(Insert(fl, b), min)
  {
    var k := Position(fl, b, 0);
    var r := Insert(fl, b);
    PositionBetween(fl, b, min);
    forall j | 0 <= j < |r| ensures Good(r[j], min) { InsertGood(fl, b, k, min, j); }
    forall i, j | 0 <= i < j < |r| ensures r[i].End() < r[j].addr { InsertOrder(fl, b, k, i, j); }
  }

  /** `k` is where `b` belongs in the order. */
  ghost predicate Between(fl: seq<Block>, b: Block, k: nat) {
    && k <= |fl|
    && (forall j | 0 <= j < k :: fl[j].End() <= b.addr)
    && (k < |fl| ==> b.End() <= fl[k].addr)
  }

  lemma InsertGood(fl: seq<Block>, b: Block, k: nat, min: nat, j: nat)
    requires AllGood(fl, min) && Good(b, min) && k <= |fl| && j < |InsertAt(fl, b, k)|
    ensures Good(InsertAt(fl, b, k)[j], min)
  {
    InsertAtElement(fl, b, k, j);
    if MergesNext(fl, b, k) { SizeSum(b.size, fl[k].size); }
    if MergesPrev(fl, b, k) {
      SizeSum(fl[k - 1].size, b.size);
      if MergesNext(fl, b, k) { SizeSum(fl[k - 1].size, b.size + fl[k].size); }
    }
  }

  lemma SizeSum(a: nat, b: nat)
    requires a % 16 == 0 && b % 16 == 0
    ensures (a + b) % 16 == 0
  {}

  lemma InsertOrder(fl: seq<Block>, b: Block, k: nat, i: nat, j: nat)
    requires Sorted(fl) && Between(fl, b, k) && b.size > 0 && i < j < |InsertAt(fl, b, k)|
    ensures InsertAt(fl, b, k)[i].End() < InsertAt(fl, b, k)[j].addr
  {
    InsertAtElement(fl, b, k, i);
    InsertAtElement(fl, b, k, j);
  }

  lemma PositionBetween(fl: seq<Block>, b: Block, min: nat)
    requires AllGood(fl, min) && Good(b, min) && Apart(fl, b)
    ensures Between(fl, b, Position(fl, b, 0))
  {
    var k := Position(fl, b, 0);
    forall j | 0 <= j < k ensures fl[j].End() <= b.addr { assert Disjoint(fl[j], b) && Good(fl[j], min); }
    if k < |fl| { assert Disjoint(fl[k], b) && Good(fl[k], min); }
  }

  /** Insertion adds exactly the block's bytes. */
  lemma InsertCovers(fl: seq<Block>, b: Block, x: nat)
    ensures Covers(Insert(fl, b), x) <==> Covers(fl, x) || b.Has(x)
  {
    var k := Position(fl, b, 0);
    if Covers(Insert(fl, b), x) { InsertOnly(fl, b, k, x); }
    if Covers(fl, x) || b.Has(x) { InsertAll(fl, b, k, x); }
  }

  lemma InsertOnly(fl: seq<Block>, b: Block, k: nat, x: nat)
    requires k <= |fl| && Covers(InsertAt(fl, b, k), x)
    ensures Covers(fl, x) || b.Has(x)
  {
    var r := InsertAt(fl, b, k);
    var lo := if MergesPrev(fl, b, k) then k - 1 else k;
    var hi := if MergesNext(fl, b, k) then k + 1 else k;
    var j :| 0 <= j < |r| && r[j].Has(x);
    InsertAtElement(fl, b, k, j);
    if j == lo {
      assert !b.Has(x) ==> (MergesPrev(fl, b, k) && fl[k - 1].Has(x)) || (MergesNext(fl, b, k) && fl[k].Has(x));
    } else {
      assert fl[if j < lo then j else j - lo - 1 + hi].Has(x);
    }
  }

  lemma InsertAll(fl: seq<Block>, b: Block, k: nat, x: nat)
    requires k <= |fl| && (Covers(fl, x) || b.Has(x))
    ensures Covers(InsertAt(fl, b, k), x)
  {
    var r := InsertAt(fl, b, k);
    var lo := if MergesPrev(fl, b, k) then k - 1 else k;
    var hi := if MergesNext(fl, b, k) then k + 1 else k;
    InsertAtElement(fl, b, k, lo);
    if b.Has(x) {
      assert r[lo].Has(x);
    } else {
      var i :| 0 <= i < |fl| && fl[i].Has(x);
      var j := if i < lo then i else if i < hi then lo else i - hi + lo + 1;
      InsertAtElement(fl, b, k, j);
      assert r[j].Has(x);
    }
  }

  /** Blocks without a common byte are disjoint, and conversely. */
  lemma ApartByBytes(fl: seq<Block>, b: Block)
    requires b.size > 0 && forall i | 0 <= i < |fl| :: fl[i].size > 0
    requires forall x: nat | b.Has(x) :: !Covers(fl, x)
    ensures Apart(fl, b)
  {
    forall i | 0 <= i < |fl| ensures Disjoint(fl[i], b) {
      var x := if fl[i].addr < b.addr then b.addr else fl[i].addr;
      if !Disjoint(fl[i], b) {
        assert fl[i].Has(x) && b.Has(x);
        assert Covers(fl, x);
      }
    }
  }
}
