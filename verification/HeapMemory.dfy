/** The free list and the block headers as words of memory, and what the stores
    of allocation and free do to them. */
module HeapMemory {
  import opened Bits
  import opened FreeList
  import opened Machine

  /** 64-bit words by address; a word never written reads as zero. */
  type Memory = map<nat, nat>

  function Load(m: Memory, a: nat): nat {
    if a in m then m[a] else 0
  }

  /** The list pointer that leads to block `i`. */
  function Head(fl: seq<Block>, i: nat): nat {
    if i < |fl| then fl[i].addr else 0
  }

  function Canary(size: nat): int {
    ALL_ONES - size
  }

  predicate NodeAt(m: Memory, fl: seq<Block>, i: nat)
    requires i < |fl|
  {
    Load(m, fl[i].addr) == fl[i].size && Load(m, fl[i].addr + 8) == Head(fl, i + 1)
  }

  /** Memory holds the list: sizes and next pointers, from `head` on. */
  ghost predicate ListAt(m: Memory, head: nat, fl: seq<Block>) {
    head == Head(fl, 0) && forall i | 0 <= i < |fl| :: NodeAt(m, fl, i)
  }

  predicate HeaderAt(m: Memory, b: Block) {
    Load(m, b.addr) == b.size && Load(m, b.addr + 8) == Canary(b.size)
  }

  ghost predicate HeadersAt(m: Memory, live: set<Block>) {
    forall b | b in live :: HeaderAt(m, b)
  }

  predicate Aligned(a: nat) {
    a % 16 == 0
  }

  /** The two header words at `a`. */
  function Put(m: Memory, a: nat, w0: nat, w1: int): Memory
    requires w1 >= 0
  {
    m[a := w0][a + 8 := w1]
  }

  lemma PutElsewhere(m: Memory, a: nat, w0: nat, w1: nat, b: nat)
    requires Aligned(a) && Aligned(b) && a != b
    ensures Load(Put(m, a, w0, w1), b) == Load(m, b) && Load(Put(m, a, w0, w1), b + 8) == Load(m, b + 8)
  {}

  lemma PutHere(m: Memory, a: nat, w0: nat, w1: nat)
    ensures Load(Put(m, a, w0, w1), a) == w0 && Load(Put(m, a, w0, w1), a + 8) == w1
  {}

  /** `*prev = value`: the list head, or the next word of the block before. */
  function Link(m: Memory, fl: seq<Block>, k: nat, value: nat): Memory
    requires k <= |fl|
  {
    if k == 0 then m else m[fl[k - 1].addr + 8 := value]
  }

  lemma LinkWords(m: Memory, fl: seq<Block>, k: nat, value: nat, a: nat)
    requires k <= |fl| && Aligned(a) && (k > 0 ==> Aligned(fl[k - 1].addr))
    ensures Load(Link(m, fl, k, value), a) == Load(m, a)
    ensures Load(Link(m, fl, k, value), a + 8) == if k > 0 && a == fl[k - 1].addr then value else Load(m, a + 8)
  {}

  lemma AlignedSum(a: nat, b: nat)
    requires Aligned(a) && b % 16 == 0
    ensures Aligned(a + b)
  {}

  function LinkHead(head: nat, k: nat, value: nat): nat {
    if k == 0 then value else head
  }

  // ----- allocation

  /** What replaces block `k` in the list: its remainder, or its successor. */
  function NextAfterTake(fl: seq<Block>, k: nat, needed: nat): nat
    requires k < |fl|
  {
    if Splits(fl[k], needed) then fl[k].addr + needed else Head(fl, k + 1)
  }

  /** The remainder's header, when the block is split. */
  function SplitMemory(m: Memory, fl: seq<Block>, k: nat, needed: nat): Memory
    requires k < |fl|
  {
    var b := fl[k];
    if Splits(b, needed) then Put(m, b.addr + needed, b.size - needed, Head(fl, k + 1)) else m
  }

  /** The stores of an allocation from block `k`. */
  function TakeMemory(m: Memory, fl: seq<Block>, k: nat, needed: nat): Memory
    requires k < |fl| && Piece(fl[k], needed).size <= ALL_ONES
  {
    var p := Piece(fl[k], needed);
    Put(Link(SplitMemory(m, fl, k, needed), fl, k, NextAfterTake(fl, k, needed)), p.addr, p.size, Canary(p.size))
  }

  ghost predicate ListOk(fl: seq<Block>) {
    Sorted(fl) && AllGood(fl, MIN_BLOCK)
  }

  ghost predicate TakeOk(fl: seq<Block>, k: nat, needed: nat) {
    ListOk(fl) && k < |fl| && needed % 16 == 0 && 0 < needed <= fl[k].size <= ALL_ONES
  }

  lemma TakeFacts(fl: seq<Block>, k: nat, needed: nat)
    requires TakeOk(fl, k, needed)
    ensures Aligned(fl[k].addr) && Aligned(fl[k].addr + needed)
    ensures k > 0 ==> Aligned(fl[k - 1].addr) && fl[k - 1].addr < fl[k].addr
  {
    assert Good(fl[k], MIN_BLOCK);
    AlignedSum(fl[k].addr, needed);
    if k > 0 { assert Good(fl[k - 1], MIN_BLOCK) && fl[k - 1].End() < fl[k].addr; }
  }

  /** Words of any other 16-aligned address are untouched, except the link of the block before. */
  lemma TakeElsewhere(m: Memory, fl: seq<Block>, k: nat, needed: nat, a: nat)
    requires TakeOk(fl, k, needed) && Aligned(a)
    requires a != fl[k].addr && (Splits(fl[k], needed) ==> a != fl[k].addr + needed)
    ensures Load(TakeMemory(m, fl, k, needed), a) == Load(m, a)
    ensures Load(TakeMemory(m, fl, k, needed), a + 8) ==
            if k > 0 && a == fl[k - 1].addr then NextAfterTake(fl, k, needed) else Load(m, a + 8)
  {
    var b, p := fl[k], Piece(fl[k], needed);
    TakeFacts(fl, k, needed);
    var m1 := SplitMemory(m, fl, k, needed);
    if Splits(b, needed) { PutElsewhere(m, b.addr + needed, b.size - needed, Head(fl, k + 1), a); }
    LinkWords(m1, fl, k, NextAfterTake(fl, k, needed), a);
    PutElsewhere(Link(m1, fl, k, NextAfterTake(fl, k, needed)), p.addr, p.size, Canary(p.size), a);
  }

  /** The header of the block handed out, and of the remainder. */
  lemma TakeHeaders(m: Memory, fl: seq<Block>, k: nat, needed: nat)
    requires TakeOk(fl, k, needed)
    ensures HeaderAt(TakeMemory(m, fl, k, needed), Piece(fl[k], needed))
    ensures Splits(fl[k], needed) ==>
              Load(TakeMemory(m, fl, k, needed), fl[k].addr + needed) == fl[k].size - needed &&
              Load(TakeMemory(m, fl, k, needed), fl[k].addr + needed + 8) == Head(fl, k + 1)
  {
    var b, p := fl[k], Piece(fl[k], needed);
    TakeFacts(fl, k, needed);
    var m1 := SplitMemory(m, fl, k, needed);
    var m2 := Link(m1, fl, k, NextAfterTake(fl, k, needed));
    PutHere(m2, p.addr, p.size, Canary(p.size));
    if Splits(b, needed) {
      PutHere(m, b.addr + needed, b.size - needed, Head(fl, k + 1));
      LinkWords(m1, fl, k, NextAfterTake(fl, k, needed), b.addr + needed);
      PutElsewhere(m2, p.addr, p.size, Canary(p.size), b.addr + needed);
    }
  }

  lemma TakeList(m: Memory, head: nat, fl: seq<Block>, k: nat, needed: nat)
    requires ListAt(m, head, fl) && TakeOk(fl, k, needed)
    ensures ListAt(TakeMemory(m, fl, k, needed), LinkHead(head, k, NextAfterTake(fl, k, needed)), TakeAt(fl, k, needed))
  {
    var r, m' := TakeAt(fl, k, needed), TakeMemory(m, fl, k, needed);
    forall j | 0 <= j < |r| ensures NodeAt(m', r, j) { TakeNode(m, head, fl, k, needed, j); }
    HeadAfterTake(fl, k, needed, 0);
  }

  lemma HeadAfterTake(fl: seq<Block>, k: nat, needed: nat, j: nat)
    requires k < |fl|
    ensures var s := |Remainder(fl[k], needed)|;
      Head(TakeAt(fl, k, needed), j) ==
      if j < k then fl[j].addr else if j == k then NextAfterTake(fl, k, needed) else Head(fl, j + 1 - s)
  {
    if j < |TakeAt(fl, k, needed)| { TakeAtElement(fl, k, needed, j); }
  }

  lemma TakeNode(m: Memory, head: nat, fl: seq<Block>, k: nat, needed: nat, j: nat)
    requires ListAt(m, head, fl) && TakeOk(fl, k, needed) && j < |TakeAt(fl, k, needed)|
    ensures NodeAt(TakeMemory(m, fl, k, needed), TakeAt(fl, k, needed), j)
  {
    if j < k {
      TakeNodeBelow(m, head, fl, k, needed, j);
    } else if j == k && Splits(fl[k], needed) {
      TakeAtElement(fl, k, needed, j);
      HeadAfterTake(fl, k, needed, j + 1);
      TakeHeaders(m, fl, k, needed);
    } else {
      TakeNodeAbove(m, head, fl, k, needed, j);
    }
  }

  lemma TakeNodeBelow(m: Memory, head: nat, fl: seq<Block>, k: nat, needed: nat, j: nat)
    requires ListAt(m, head, fl) && TakeOk(fl, k, needed) && j < k && j < |TakeAt(fl, k, needed)|
    ensures NodeAt(TakeMemory(m, fl, k, needed), TakeAt(fl, k, needed), j)
  {
    TakeAtElement(fl, k, needed, j);
    HeadAfterTake(fl, k, needed, j + 1);
    TakeOther(m, head, fl, k, needed, j);
    NodeIs(TakeMemory(m, fl, k, needed), TakeAt(fl, k, needed), j, fl[j],
           if j + 1 == k then NextAfterTake(fl, k, needed) else Head(fl, j + 1));
  }

  lemma TakeNodeAbove(m: Memory, head: nat, fl: seq<Block>, k: nat, needed: nat, j: nat)
    requires ListAt(m, head, fl) && TakeOk(fl, k, needed) && k <= j < |TakeAt(fl, k, needed)|
    requires j == k ==> !Splits(fl[k], needed)
    ensures NodeAt(TakeMemory(m, fl, k, needed), TakeAt(fl, k, needed), j)
  {
    var i := TakeAbove(fl, k, needed, j);
    TakeOther(m, head, fl, k, needed, i);
    NodeIs(TakeMemory(m, fl, k, needed), TakeAt(fl, k, needed), j, fl[i], Head(fl, i + 1));
  }

  /** Above the block taken the new list continues the old one. */
  lemma TakeAbove(fl: seq<Block>, k: nat, needed: nat, j: nat) returns (i: nat)
    requires k < |fl| && k <= j < |TakeAt(fl, k, needed)| && (j == k ==> !Splits(fl[k], needed))
    ensures k < i < |fl| && TakeAt(fl, k, needed)[j] == fl[i] && Head(TakeAt(fl, k, needed), j + 1) == Head(fl, i + 1)
  {
    i := j + 1 - |Remainder(fl[k], needed)|;
    TakeAtElement(fl, k, needed, j);
    HeadAfterTake(fl, k, needed, j + 1);
  }

  lemma NodeIs(m: Memory, r: seq<Block>, j: nat, b: Block, next: nat)
    requires j < |r| && r[j] == b && Head(r, j + 1) == next
    requires Load(m, b.addr) == b.size && Load(m, b.addr + 8) == next
    ensures NodeAt(m, r, j)
  {}

  /** A block that stays keeps its size; only the block before gets a new link. */
  lemma TakeOther(m: Memory, head: nat, fl: seq<Block>, k: nat, needed: nat, i: nat)
    requires ListAt(m, head, fl) && TakeOk(fl, k, needed) && i < |fl| && i != k
    ensures Load(TakeMemory(m, fl, k, needed), fl[i].addr) == fl[i].size
    ensures Load(TakeMemory(m, fl, k, needed), fl[i].addr + 8) ==
            if i + 1 == k then NextAfterTake(fl, k, needed) else Head(fl, i + 1)
  {
    assert Good(fl[i], MIN_BLOCK) && NodeAt(m, fl, i);
    assert i < k ==> fl[i].End() < fl[k].addr;
    assert k < i ==> fl[k].End() < fl[i].addr;
    TakeElsewhere(m, fl, k, needed, fl[i].addr);
    assert k > 0 && i < k - 1 ==> fl[i].End() < fl[k - 1].addr;
    assert k > 0 && k - 1 < i ==> fl[k - 1].End() < fl[i].addr;
  }

  // ----- free

  /** The block's own header and the link to it. */
  function HungMemory(m: Memory, fl: seq<Block>, b: Block, k: nat): Memory
    requires k <= |fl|
  {
    Link(Put(m, b.addr, b.size, Head(fl, k)), fl, k, b.addr)
  }

  /** Swallowing the next block. */
  function JoinNext(m: Memory, fl: seq<Block>, b: Block, k: nat): Memory
    requires k <= |fl|
  {
    if MergesNext(fl, b, k) then Put(m, b.addr, b.size + fl[k].size, Head(fl, k + 1)) else m
  }

  /** The inserted block after it has swallowed its successor. */
  function Joined(fl: seq<Block>, b: Block, k: nat): Block
    requires k <= |fl|
  {
    if MergesNext(fl, b, k) then Block(b.addr, b.size + fl[k].size) else b
  }

  function JoinedNext(fl: seq<Block>, b: Block, k: nat): nat
    requires k <= |fl|
  {
    if MergesNext(fl, b, k) then Head(fl, k + 1) else Head(fl, k)
  }

  /** The stores of an insertion at position `k`. */
  function InsertMemory(m: Memory, fl: seq<Block>, b: Block, k: nat): Memory
    requires k <= |fl|
  {
    JoinPrev(JoinNext(HungMemory(m, fl, b, k), fl, b, k), fl, b, k)
  }

  /** Being swallowed by the block before. */
  function JoinPrev(m: Memory, fl: seq<Block>, b: Block, k: nat): Memory
    requires k <= |fl|
  {
    if MergesPrev(fl, b, k)
    then Put(m, fl[k - 1].addr, fl[k - 1].size + Joined(fl, b, k).size, JoinedNext(fl, b, k))
    else m
  }

  ghost predicate InsertOk(fl: seq<Block>, b: Block, k: nat) {
    ListOk(fl) && Good(b, MIN_BLOCK) && Between(fl, b, k)
  }

  lemma InsertFacts(fl: seq<Block>, b: Block, k: nat)
    requires InsertOk(fl, b, k)
    ensures Aligned(b.addr)
    ensures k > 0 ==> Aligned(fl[k - 1].addr) && fl[k - 1].addr < b.addr
  {
    if k > 0 { assert Good(fl[k - 1], MIN_BLOCK); }
  }

  lemma InsertElsewhere(m: Memory, fl: seq<Block>, b: Block, k: nat, a: nat)
    requires InsertOk(fl, b, k) && Aligned(a) && a != b.addr && (k > 0 ==> a != fl[k - 1].addr)
    ensures Load(InsertMemory(m, fl, b, k), a) == Load(m, a)
    ensures Load(InsertMemory(m, fl, b, k), a + 8) == Load(m, a + 8)
  {
    InsertFacts(fl, b, k);
    var m0 := Put(m, b.addr, b.size, Head(fl, k));
    PutElsewhere(m, b.addr, b.size, Head(fl, k), a);
    LinkWords(m0, fl, k, b.addr, a);
    var m1 := Link(m0, fl, k, b.addr);
    if MergesNext(fl, b, k) { PutElsewhere(m1, b.addr, b.size + fl[k].size, Head(fl, k + 1), a); }
    var m2 := JoinNext(m1, fl, b, k);
    if MergesPrev(fl, b, k) {
      PutElsewhere(m2, fl[k - 1].addr, fl[k - 1].size + Joined(fl, b, k).size, JoinedNext(fl, b, k), a);
    }
  }

  /** The inserted block's own words: a size and a pointer, also after a merge into the block before. */
  lemma InsertHeader(m: Memory, fl: seq<Block>, b: Block, k: nat)
    requires InsertOk(fl, b, k)
    ensures Load(InsertMemory(m, fl, b, k), b.addr) == Joined(fl, b, k).size
    ensures Load(InsertMemory(m, fl, b, k), b.addr + 8) == JoinedNext(fl, b, k)
  {
    InsertFacts(fl, b, k);
    var m0 := Put(m, b.addr, b.size, Head(fl, k));
    PutHere(m, b.addr, b.size, Head(fl, k));
    LinkWords(m0, fl, k, b.addr, b.addr);
    var m1 := Link(m0, fl, k, b.addr);
    if MergesNext(fl, b, k) { PutHere(m1, b.addr, b.size + fl[k].size, Head(fl, k + 1)); }
    var m2 := JoinNext(m1, fl, b, k);
    if MergesPrev(fl, b, k) {
      PutElsewhere(m2, fl[k - 1].addr, fl[k - 1].size + Joined(fl, b, k).size, JoinedNext(fl, b, k), b.addr);
    }
  }

  lemma InsertPrev(m: Memory, head: nat, fl: seq<Block>, b: Block, k: nat)
    requires ListAt(m, head, fl) && InsertOk(fl, b, k) && k > 0
    ensures Load(InsertMemory(m, fl, b, k), fl[k - 1].addr) ==
            fl[k - 1].size + if MergesPrev(fl, b, k) then Joined(fl, b, k).size else 0
    ensures Load(InsertMemory(m, fl, b, k), fl[k - 1].addr + 8) ==
            if MergesPrev(fl, b, k) then JoinedNext(fl, b, k) else b.addr
  {
    var a := fl[k - 1].addr;
    assert NodeAt(m, fl, k - 1);
    InsertFacts(fl, b, k);
    var m0 := Put(m, b.addr, b.size, Head(fl, k));
    PutElsewhere(m, b.addr, b.size, Head(fl, k), a);
    LinkWords(m0, fl, k, b.addr, a);
    var m1 := Link(m0, fl, k, b.addr);
    if MergesNext(fl, b, k) { PutElsewhere(m1, b.addr, b.size + fl[k].size, Head(fl, k + 1), a); }
    var m2 := JoinNext(m1, fl, b, k);
    if MergesPrev(fl, b, k) {
      PutHere(m2, a, fl[k - 1].size + Joined(fl, b, k).size, JoinedNext(fl, b, k));
    }
  }

  lemma HeadAfterInsert(fl: seq<Block>, b: Block, k: nat, j: nat)
    requires k <= |fl|
    ensures var lo := if MergesPrev(fl, b, k) then k - 1 else k;
      var hi := if MergesNext(fl, b, k) then k + 1 else k;
      Head(InsertAt(fl, b, k), j) ==
      if j < lo then fl[j].addr
      else if j == lo then (if MergesPrev(fl, b, k) then fl[k - 1].addr else b.addr)
      else Head(fl, j - lo - 1 + hi)
  {
    var lo := if MergesPrev(fl, b, k) then k - 1 else k;
    InsertAtElement(fl, b, k, lo);
    if j < |InsertAt(fl, b, k)| { InsertAtElement(fl, b, k, j); }
  }

  lemma InsertList(m: Memory, head: nat, fl: seq<Block>, b: Block, k: nat)
    requires ListAt(m, head, fl) && InsertOk(fl, b, k)
    ensures ListAt(InsertMemory(m, fl, b, k), LinkHead(head, k, b.addr), InsertAt(fl, b, k))
  {
    var r := InsertAt(fl, b, k);
    forall j | 0 <= j < |r| ensures NodeAt(InsertMemory(m, fl, b, k), r, j) { InsertNode(m, head, fl, b, k, j); }
    HeadAfterInsert(fl, b, k, 0);
  }

  lemma InsertNode(m: Memory, head: nat, fl: seq<Block>, b: Block, k: nat, j: nat)
    requires ListAt(m, head, fl) && InsertOk(fl, b, k) && j < |InsertAt(fl, b, k)|
    ensures NodeAt(InsertMemory(m, fl, b, k), InsertAt(fl, b, k), j)
  {
    var lo := if MergesPrev(fl, b, k) then k - 1 else k;
    if j == lo {
      InsertNodeHere(m, head, fl, b, k);
    } else if j < lo {
      InsertNodeBelow(m, head, fl, b, k, j);
    } else {
      InsertNodeAbove(m, head, fl, b, k, j);
    }
  }

  lemma InsertNodeHere(m: Memory, head: nat, fl: seq<Block>, b: Block, k: nat)
    requires ListAt(m, head, fl) && InsertOk(fl, b, k)
    ensures var lo := if MergesPrev(fl, b, k) then k - 1 else k;
      lo < |InsertAt(fl, b, k)| && NodeAt(InsertMemory(m, fl, b, k), InsertAt(fl, b, k), lo)
  {
    if MergesPrev(fl, b, k) { InsertNodePrev(m, head, fl, b, k); } else { InsertNodeNew(m, head, fl, b, k); }
  }

  lemma InsertNodePrev(m: Memory, head: nat, fl: seq<Block>, b: Block, k: nat)
    requires ListAt(m, head, fl) && InsertOk(fl, b, k) && MergesPrev(fl, b, k)
    ensures k - 1 < |InsertAt(fl, b, k)| && NodeAt(InsertMemory(m, fl, b, k), InsertAt(fl, b, k), k - 1)
  {
    InsertAtElement(fl, b, k, k - 1);
    HeadAfterInsert(fl, b, k, k);
    InsertPrev(m, head, fl, b, k);
    NodeIs(InsertMemory(m, fl, b, k), InsertAt(fl, b, k), k - 1,
           Block(fl[k - 1].addr, fl[k - 1].size + Joined(fl, b, k).size), JoinedNext(fl, b, k));
  }

  lemma InsertNodeNew(m: Memory, head: nat, fl: seq<Block>, b: Block, k: nat)
    requires ListAt(m, head, fl) && InsertOk(fl, b, k) && !MergesPrev(fl, b, k)
    ensures k < |InsertAt(fl, b, k)| && NodeAt(InsertMemory(m, fl, b, k), InsertAt(fl, b, k), k)
  {
    InsertAtElement(fl, b, k, k);
    HeadAfterInsert(fl, b, k, k + 1);
    InsertHeader(m, fl, b, k);
    NodeIs(InsertMemory(m, fl, b, k), InsertAt(fl, b, k), k, Joined(fl, b, k), JoinedNext(fl, b, k));
  }

  lemma InsertNodeBelow(m: Memory, head: nat, fl: seq<Block>, b: Block, k: nat, j: nat)
    requires ListAt(m, head, fl) && InsertOk(fl, b, k)
    requires j < (if MergesPrev(fl, b, k) then k - 1 else k) && j < |InsertAt(fl, b, k)|
    ensures NodeAt(InsertMemory(m, fl, b, k), InsertAt(fl, b, k), j)
  {
    InsertAtElement(fl, b, k, j);
    HeadAfterInsert(fl, b, k, j + 1);
    assert Good(fl[j], MIN_BLOCK) && NodeAt(m, fl, j);
    if j == k - 1 {
      InsertPrev(m, head, fl, b, k);
      NodeIs(InsertMemory(m, fl, b, k), InsertAt(fl, b, k), j, fl[j], b.addr);
    } else {
      assert fl[j].End() < fl[k - 1].addr;
      InsertElsewhere(m, fl, b, k, fl[j].addr);
      NodeIs(InsertMemory(m, fl, b, k), InsertAt(fl, b, k), j, fl[j], Head(fl, j + 1));
    }
  }

  lemma AboveFacts(fl: seq<Block>, b: Block, k: nat, i: nat)
    requires InsertOk(fl, b, k) && k <= i < |fl|
    ensures Aligned(fl[i].addr) && fl[i].addr > b.addr && (k > 0 ==> fl[i].addr != fl[k - 1].addr)
  {
    assert Good(fl[i], MIN_BLOCK) && b.End() <= fl[k].addr;
    assert k < i ==> fl[k].End() < fl[i].addr;
    if k > 0 { assert fl[k - 1].End() < fl[i].addr; }
  }

  lemma InsertNodeAbove(m: Memory, head: nat, fl: seq<Block>, b: Block, k: nat, j: nat)
    requires ListAt(m, head, fl) && InsertOk(fl, b, k)
    requires (if MergesPrev(fl, b, k) then k - 1 else k) < j < |InsertAt(fl, b, k)|
    ensures NodeAt(InsertMemory(m, fl, b, k), InsertAt(fl, b, k), j)
  {
    var i := InsertAbove(fl, b, k, j);
    AboveWords(m, head, fl, b, k, i);
    NodeIs(InsertMemory(m, fl, b, k), InsertAt(fl, b, k), j, fl[i], Head(fl, i + 1));
  }

  /** Above the inserted block the new list continues the old one. */
  lemma InsertAbove(fl: seq<Block>, b: Block, k: nat, j: nat) returns (i: nat)
    requires k <= |fl| && (if MergesPrev(fl, b, k) then k - 1 else k) < j < |InsertAt(fl, b, k)|
    ensures k <= i < |fl| && InsertAt(fl, b, k)[j] == fl[i] && Head(InsertAt(fl, b, k), j + 1) == Head(fl, i + 1)
  {
    i := j - (if MergesPrev(fl, b, k) then k - 1 else k) - 1 + (if MergesNext(fl, b, k) then k + 1 else k);
    InsertAtElement(fl, b, k, j);
    HeadAfterInsert(fl, b, k, j + 1);
  }

  lemma AboveWords(m: Memory, head: nat, fl: seq<Block>, b: Block, k: nat, i: nat)
    requires ListAt(m, head, fl) && InsertOk(fl, b, k) && k <= i < |fl|
    ensures Load(InsertMemory(m, fl, b, k), fl[i].addr) == fl[i].size
    ensures Load(InsertMemory(m, fl, b, k), fl[i].addr + 8) == Head(fl, i + 1)
  {
    assert NodeAt(m, fl, i);
    AboveFacts(fl, b, k, i);
    InsertElsewhere(m, fl, b, k, fl[i].addr);
  }

  /** What the coalescing tests of an insertion read. */
  lemma HungLoads(m: Memory, head: nat, fl: seq<Block>, b: Block, k: nat)
    requires ListAt(m, head, fl) && InsertOk(fl, b, k)
    ensures var m1 := HungMemory(m, fl, b, k);
      && Load(m1, b.addr) == b.size
      && (k < |fl| ==> Load(m1, fl[k].addr) == fl[k].size && Load(m1, fl[k].addr + 8) == Head(fl, k + 1))
  {
    InsertFacts(fl, b, k);
    var m0 := Put(m, b.addr, b.size, Head(fl, k));
    PutHere(m, b.addr, b.size, Head(fl, k));
    LinkWords(m0, fl, k, b.addr, b.addr);
    if k < |fl| {
      assert NodeAt(m, fl, k);
      AboveFacts(fl, b, k, k);
      PutElsewhere(m, b.addr, b.size, Head(fl, k), fl[k].addr);
      LinkWords(m0, fl, k, b.addr, fl[k].addr);
    }
  }

  lemma JoinLoads(m: Memory, head: nat, fl: seq<Block>, b: Block, k: nat)
    requires ListAt(m, head, fl) && InsertOk(fl, b, k)
    ensures var m2 := JoinNext(HungMemory(m, fl, b, k), fl, b, k);
      && Load(m2, b.addr) == Joined(fl, b, k).size && Load(m2, b.addr + 8) == JoinedNext(fl, b, k)
      && (k > 0 ==> Load(m2, fl[k - 1].addr) == fl[k - 1].size)
  {
    InsertFacts(fl, b, k);
    var m0 := Put(m, b.addr, b.size, Head(fl, k));
    PutHere(m, b.addr, b.size, Head(fl, k));
    LinkWords(m0, fl, k, b.addr, b.addr);
    var m1 := Link(m0, fl, k, b.addr);
    if MergesNext(fl, b, k) { PutHere(m1, b.addr, b.size + fl[k].size, Head(fl, k + 1)); }
    if k > 0 {
      assert NodeAt(m, fl, k - 1);
      PutElsewhere(m, b.addr, b.size, Head(fl, k), fl[k - 1].addr);
      LinkWords(m0, fl, k, b.addr, fl[k - 1].addr);
      if MergesNext(fl, b, k) { PutElsewhere(m1, b.addr, b.size + fl[k].size, Head(fl, k + 1), fl[k - 1].addr); }
    }
  }

  /** A block below `b` is not at `b`, so storing `b`'s size leaves its words. */
  lemma BelowLoads(m: Memory, head: nat, fl: seq<Block>, b: Block, i: nat)
    requires ListAt(m, head, fl) && ListOk(fl) && Good(b, MIN_BLOCK) && i < |fl| && fl[i].addr < b.addr
    ensures Load(m[b.addr := b.size], fl[i].addr + 8) == Head(fl, i + 1)
  {
    assert NodeAt(m, fl, i) && Good(fl[i], MIN_BLOCK);
  }
}
