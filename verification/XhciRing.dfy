/** A producer ring of the xHCI driver against a controller that reads it at any
    time: every store of a push and every read of the controller is one step. */
module XhciRing {

  /** Type 6 in bits 10-15 marks a link TRB. */
  const LINK_CONTROL: nat := 6 * 1024 + 2 + 1    // link type, toggle-cycle, cycle 1

  datatype Trb = Trb(lo: nat, hi: nat, status: nat, control: nat)

  function Cycle(control: nat): nat { control % 2 }

  predicate IsLink(control: nat) { control / 1024 % 64 == 6 }

  /** `(control & ~1) | cycle`. */
  function WithCycle(control: nat, cycle: nat): nat
    requires cycle < 2
  {
    control / 2 * 2 + cycle
  }

  /** A TRB with its cycle bit cleared: what the producer was given. */
  function Payload(t: Trb): Trb {
    t.(control := t.control / 2 * 2)
  }

  function Flip(c: nat): nat
    requires c < 2
  {
    1 - c
  }

  /** Where the driver stands inside a push. */
  datatype Producer =
    | Idle
    | StoreLo(t: Trb)
    | StoreHi(t: Trb)
    | StoreStatus(t: Trb)
    | StoreControl(t: Trb)
    | StoreLink

  /** Where the controller stands inside a read. */
  datatype Consumer =
    | Polling
    | ReadLo(control: nat)
    | ReadHi(control: nat, lo: nat)
    | ReadStatus(control: nat, lo: nat, hi: nat)

  /** `ring` has the link TRB last; `pushed` and `consumed` are the histories. */
  datatype System = System(
    ring: seq<Trb>, enq: nat, cycle: nat, producer: Producer,
    deq: nat, ccs: nat, consumer: Consumer,
    pushed: seq<Trb>, consumed: seq<Trb>)

  datatype Event = Begin(t: Trb) | Store | Read

  /** Data slots: all but the link. */
  function Slots(s: System): int { |s.ring| - 1 }

  function Outstanding(s: System): int { |s.pushed| - |s.consumed| }

  // ----- steps

  function SetSlot(s: System, i: nat, t: Trb): System
    requires i < |s.ring|
  {
    s.(ring := s.ring[i := t])
  }

  /** One store of the driver. */
  function StoreStep(s: System): System
    requires s.enq < |s.ring| && s.cycle < 2 && |s.ring| > 0 && !s.producer.Idle?
  {
    var slot := s.ring[s.enq];
    match s.producer
    case Idle => s
    case StoreLo(t) => SetSlot(s, s.enq, slot.(lo := t.lo)).(producer := StoreHi(t))
    case StoreHi(t) => SetSlot(s, s.enq, slot.(hi := t.hi)).(producer := StoreStatus(t))
    case StoreStatus(t) => SetSlot(s, s.enq, slot.(status := t.status)).(producer := StoreControl(t))
    case StoreControl(t) =>
      SetSlot(s, s.enq, slot.(control := t.control)).(
        enq := s.enq + 1, pushed := s.pushed + [Payload(t)],
        producer := if s.enq + 1 >= |s.ring| - 1 then StoreLink else Idle)
    case StoreLink =>
      var link := s.ring[|s.ring| - 1];
      SetSlot(s, |s.ring| - 1, link.(control := WithCycle(link.control, s.cycle))).(
        enq := 0, cycle := Flip(s.cycle), producer := Idle)
  }

  /** One read of the controller; a poll that finds the wrong cycle bit changes nothing. */
  function ReadStep(s: System): System
    requires s.deq < |s.ring| && s.ccs < 2
  {
    var slot := s.ring[s.deq];
    match s.consumer
    case Polling =>
      if Cycle(slot.control) != s.ccs then s
      else if IsLink(slot.control) then s.(deq := 0, ccs := if slot.control / 2 % 2 == 1 then Flip(s.ccs) else s.ccs)
      else s.(consumer := ReadLo(slot.control))
    case ReadLo(control) => s.(consumer := ReadHi(control, slot.lo))
    case ReadHi(control, lo) => s.(consumer := ReadStatus(control, lo, slot.hi))
    case ReadStatus(control, lo, hi) =>
      s.(consumer := Polling, deq := s.deq + 1, consumed := s.consumed + [Payload(Trb(lo, hi, slot.status, control))])
  }

  /** The driver may begin a push while fewer than `limit` TRBs are outstanding. */
  predicate Enabled(s: System, e: Event, limit: int) {
    match e
    case Begin(t) => s.producer.Idle? && !IsLink(t.control) && Outstanding(s) < limit
    case Store => !s.producer.Idle?
    case Read => true
  }

  function Next(s: System, e: Event): System
    requires s.enq < |s.ring| && s.cycle < 2 && s.deq < |s.ring| && s.ccs < 2
    requires e.Store? ==> !s.producer.Idle?
  {
    match e
    case Begin(t) => s.(producer := StoreLo(t.(control := WithCycle(t.control, s.cycle))))
    case Store => StoreStep(s)
    case Read => ReadStep(s)
  }

  function Init(n: nat): System
    requires n >= 2
  {
    var zero := Trb(0, 0, 0, 0);
    var ring := seq(n, i => if i == n - 1 then Trb(0, 0, 0, LINK_CONTROL) else zero);
    System(ring, 0, 1, Idle, 0, 1, Polling, [], [])
  }

  // ----- the invariant

  /** The controller's position once a pending link is taken. */
  function DataDeq(s: System): nat {
    if s.deq == |s.ring| - 1 then 0 else s.deq
  }

  function DataCcs(s: System): nat
    requires s.ccs < 2
  {
    if s.deq == |s.ring| - 1 then Flip(s.ccs) else s.ccs
  }

  /** The k-th slot from `from` in a cycle of `m`, and the cycle bit expected there. */
  function Slot(from: nat, k: nat, m: nat): int { if from + k < m then from + k else from + k - m }

  function Expected(from: nat, ccs: nat, k: nat, m: nat): nat
    requires ccs < 2
  {
    if from + k < m then ccs else Flip(ccs)
  }

  /** Slot k from the controller's position: an outstanding TRB with the expected
      cycle bit, or a slot that still has the other one. */
  ghost predicate SlotOk(s: System, k: nat)
    requires s.ccs < 2 && |s.ring| >= 2 && DataDeq(s) < Slots(s) && k < Slots(s) && Outstanding(s) >= 0
  {
    var t := s.ring[Slot(DataDeq(s), k, Slots(s))];
    var expected := Expected(DataDeq(s), DataCcs(s), k, Slots(s));
    if k < Outstanding(s)
    then Payload(t) == s.pushed[|s.consumed| + k] && Cycle(t.control) == expected && !IsLink(t.control)
    else Cycle(t.control) == Flip(expected)
  }

  /** The driver's position once a pending link store is done. */
  ghost predicate ProducerOk(s: System)
    requires s.ccs < 2 && s.cycle < 2 && |s.ring| >= 2 && Outstanding(s) >= 0
  {
    var m, out := Slots(s), Outstanding(s);
    var pos, cyc := if s.producer.StoreLink? then 0 else s.enq, if s.producer.StoreLink? then Flip(s.cycle) else s.cycle;
    && (if s.producer.StoreLink? then s.enq == m else s.enq < m)
    && pos == Slot(DataDeq(s), out, m) && cyc == Expected(DataDeq(s), DataCcs(s), out, m)
  }

  /** What has been stored of the TRB being pushed. */
  ghost predicate PushOk(s: System)
    requires s.enq < |s.ring|
  {
    var t := s.ring[s.enq];
    match s.producer
    case Idle => true
    case StoreLink => true
    case StoreLo(p) => PushTrb(s, p)
    case StoreHi(p) => PushTrb(s, p) && t.lo == p.lo
    case StoreStatus(p) => PushTrb(s, p) && t.lo == p.lo && t.hi == p.hi
    case StoreControl(p) => PushTrb(s, p) && t.lo == p.lo && t.hi == p.hi && t.status == p.status
  }

  /** A push in progress: not a link, the driver's cycle bit, and a free slot to go to. */
  ghost predicate PushTrb(s: System, p: Trb) {
    !IsLink(p.control) && Cycle(p.control) == s.cycle && Outstanding(s) < Slots(s)
  }

  /** What the controller has read of the TRB it is reading. */
  ghost predicate ReadOk(s: System)
    requires s.deq < |s.ring|
  {
    var t := s.ring[s.deq];
    s.consumer.Polling? ||
    (&& s.deq < Slots(s) && Outstanding(s) > 0 && s.consumer.control == t.control
     && (s.consumer.ReadHi? ==> s.consumer.lo == t.lo)
     && (s.consumer.ReadStatus? ==> s.consumer.lo == t.lo && s.consumer.hi == t.hi))
  }

  ghost predicate LinkOk(s: System)
    requires |s.ring| >= 2
  {
    var c := s.ring[|s.ring| - 1].control;
    IsLink(c) && c / 2 % 2 == 1
  }

  ghost predicate Inv(s: System) {
    && |s.ring| >= 2 && s.enq < |s.ring| && s.deq < |s.ring| && s.cycle < 2 && s.ccs < 2
    && 0 <= Outstanding(s) <= Slots(s)
    && s.consumed <= s.pushed
    && ProducerOk(s) && PushOk(s) && ReadOk(s) && LinkOk(s)
    && forall k: nat | k < Slots(s) :: SlotOk(s, k)
  }

  // ----- bits of the control word

  lemma WithCycleBits(control: nat, cycle: nat)
    requires cycle < 2
    ensures var c := WithCycle(control, cycle);
      Cycle(c) == cycle && IsLink(c) == IsLink(control) && c / 2 == control / 2
  {
    var c, h := WithCycle(control, cycle), control / 2;
    assert c / 2 == h;
    HalfOf1024(control);
    HalfOf1024(c);
  }

  lemma HalfOf1024(x: nat)
    ensures x / 1024 == x / 2 / 512
  {
    var q, r := x / 1024, x % 1024;
    assert x / 2 == 512 * q + r / 2;
  }

  // ----- every step keeps the invariant

  lemma InitInv(n: nat)
    requires n >= 2
    ensures Inv(Init(n))
  {
    var s := Init(n);
    forall k: nat | k < Slots(s) ensures SlotOk(s, k) {}
  }

  lemma BeginInv(s: System, t: Trb)
    requires Inv(s) && s.producer.Idle? && !IsLink(t.control) && Outstanding(s) < Slots(s)
    ensures Inv(Next(s, Begin(t)))
  {
    WithCycleBits(t.control, s.cycle);
    KeepSlots(s, Next(s, Begin(t)));
  }

  /** Slots are judged by the ring, the histories and the controller's position only. */
  lemma KeepSlots(s: System, s': System)
    requires Inv(s) && s'.ccs < 2 && s'.ring == s.ring && s'.pushed == s.pushed && s'.consumed == s.consumed
    requires s'.deq < |s'.ring| && DataDeq(s') == DataDeq(s) && DataCcs(s') == DataCcs(s)
    ensures forall k: nat | k < Slots(s') :: SlotOk(s', k)
  {
    forall k: nat | k < Slots(s') ensures SlotOk(s', k) { assert SlotOk(s, k); }
  }

  /** A store into the free slot at the driver's position disturbs no outstanding TRB. */
  lemma FreeSlotStore(s: System, t: Trb, s': System)
    requires Inv(s) && Outstanding(s) < Slots(s) && !s.producer.StoreLink?
    requires s' == s.(ring := s.ring[s.enq := t], producer := s'.producer) && t.control == s.ring[s.enq].control
    ensures forall k: nat | k < Slots(s') :: SlotOk(s', k)
    ensures LinkOk(s') && ReadOk(s')
  {
    forall k: nat | k < Slots(s') ensures SlotOk(s', k) {
      assert SlotOk(s, k);
      if k != Outstanding(s) { DistinctSlots(DataDeq(s), k, Outstanding(s), Slots(s)); }
    }
    if !s.consumer.Polling? { DistinctSlots(DataDeq(s), 0, Outstanding(s), Slots(s)); }
  }

  lemma DistinctSlots(from: nat, k: nat, j: nat, m: nat)
    requires from < m && k < m && j < m && k != j
    ensures Slot(from, k, m) != Slot(from, j, m)
  {}

  lemma StoreFieldInv(s: System)
    requires Inv(s) && (s.producer.StoreLo? || s.producer.StoreHi? || s.producer.StoreStatus?)
    ensures Inv(StoreStep(s))
  {
    var s' := StoreStep(s);
    FreeSlotStore(s, s'.ring[s.enq], s');
  }

  /** The control store makes the TRB outstanding, complete and with the right cycle bit. */
  lemma StoreControlInv(s: System)
    requires Inv(s) && s.producer.StoreControl?
    ensures Inv(StoreStep(s))
  {
    var s', m, out := StoreStep(s), Slots(s), Outstanding(s);
    forall k: nat | k < m ensures SlotOk(s', k) {
      assert SlotOk(s, k);
      if k != out { DistinctSlots(DataDeq(s), k, out, m); }
    }
    if !s.consumer.Polling? { DistinctSlots(DataDeq(s), 0, out, m); }
  }

  lemma StoreLinkInv(s: System)
    requires Inv(s) && s.producer.StoreLink?
    ensures Inv(StoreStep(s))
  {
    var s' := StoreStep(s);
    WithCycleBits(s.ring[|s.ring| - 1].control, s.cycle);
    forall k: nat | k < Slots(s') ensures SlotOk(s', k) { assert SlotOk(s, k); }
  }

  lemma PollInv(s: System)
    requires Inv(s) && s.consumer.Polling?
    ensures Inv(ReadStep(s))
  {
    var s' := ReadStep(s);
    if s.deq < Slots(s) { assert SlotOk(s, 0); }
    KeepSlots(s, s');
  }

  lemma ReadFieldInv(s: System)
    requires Inv(s) && (s.consumer.ReadLo? || s.consumer.ReadHi?)
    ensures Inv(ReadStep(s))
  {
    KeepSlots(s, ReadStep(s));
  }

  /** A delivered TRB is the oldest outstanding one. */
  lemma DeliverInv(s: System)
    requires Inv(s) && s.consumer.ReadStatus?
    ensures Inv(ReadStep(s))
  {
    var s', m := ReadStep(s), Slots(s);
    assert SlotOk(s, 0);
    assert s'.consumed == s.pushed[..|s.consumed| + 1];
    forall k: nat | k < m ensures SlotOk(s', k) {
      if k + 1 < m { assert SlotOk(s, k + 1); }
    }
  }

  lemma StepInv(s: System, e: Event)
    requires Inv(s) && Enabled(s, e, Slots(s))
    ensures Inv(Next(s, e))
  {
    match e
    case Begin(t) => BeginInv(s, t);
    case Store =>
      if s.producer.StoreControl? { StoreControlInv(s); }
      else if s.producer.StoreLink? { StoreLinkInv(s); }
      else { StoreFieldInv(s); }
    case Read =>
      if s.consumer.Polling? { PollInv(s); }
      else if s.consumer.ReadStatus? { DeliverInv(s); }
      else { ReadFieldInv(s); }
  }

  // ----- runs

  /** A run from the initial ring of `n` slots, with pushes begun only below `limit` outstanding. */
  ghost predicate Run(states: seq<System>, events: seq<Event>, n: nat, limit: int) {
    && n >= 2 && |states| == |events| + 1 && states[0] == Init(n)
    && forall k | 0 <= k < |events| :: StepOk(states[k], events[k], limit, states[k + 1])
  }

  ghost predicate StepOk(s: System, e: Event, limit: int, s': System) {
    && s.enq < |s.ring| && s.cycle < 2 && s.deq < |s.ring| && s.ccs < 2
    && Enabled(s, e, limit) && s' == Next(s, e)
  }

  /** Where the first lap ends, and the link TRB's cycle bit: that of the lap before
      once the driver has been round. */
  ghost predicate LapOk(s: System)
    requires |s.ring| >= 2 && s.cycle < 2
  {
    var bit, m := Cycle(s.ring[|s.ring| - 1].control), Slots(s);
    && (|s.consumed| < m ==> s.deq == |s.consumed|)
    && if |s.pushed| < m then bit == 1 && s.cycle == 1 && s.enq == |s.pushed| && !s.producer.StoreLink?
       else bit == Flip(s.cycle) || (s.producer.StoreLink? && |s.pushed| == m && bit == s.cycle)
  }

  lemma LapStep(s: System, e: Event)
    requires Inv(s) && LapOk(s) && Enabled(s, e, Slots(s))
    ensures LapOk(Next(s, e))
  {
    match e
    case Begin(t) =>
    case Store => LapStore(s);
    case Read => LapRead(s);
  }

  lemma LapStore(s: System)
    requires Inv(s) && LapOk(s) && !s.producer.Idle?
    ensures LapOk(StoreStep(s))
  {
    if s.producer.StoreLink? { WithCycleBits(s.ring[|s.ring| - 1].control, s.cycle); }
  }

  lemma LapRead(s: System)
    requires Inv(s) && LapOk(s)
    ensures LapOk(ReadStep(s))
  {
    if s.consumer.Polling? && s.deq < Slots(s) { assert SlotOk(s, 0); }
  }

  lemma {:induction false} RunInv(states: seq<System>, events: seq<Event>, n: nat, limit: int, k: nat)
    requires Run(states, events, n, limit) && limit <= n - 1 && k < |states|
    ensures Inv(states[k]) && |states[k].ring| == n && LapOk(states[k])
  {
    if k == 0 {
      InitInv(n);
    } else {
      RunInv(states, events, n, limit, k - 1);
      RunStep(states[k - 1], events[k - 1], limit, states[k], n);
    }
  }

  lemma RunStep(s: System, e: Event, limit: int, s': System, n: nat)
    requires Inv(s) && LapOk(s) && |s.ring| == n && StepOk(s, e, limit, s') && limit <= n - 1
    ensures Inv(s') && LapOk(s') && |s'.ring| == n
  {
    StepInv(s, e);
    LapStep(s, e);
  }

  /** For every interleaving of stores and reads and any number of wraps, with at
      most n - 1 outstanding: what the controller has read is a prefix of what was
      pushed, each TRB complete, in order and once. */
  lemma ConsumedInOrder(states: seq<System>, events: seq<Event>, n: nat, k: nat)
    requires Run(states, events, n, n - 1) && k < |states|
    ensures states[k].consumed <= states[k].pushed && |states[k].pushed| - |states[k].consumed| <= n - 1
  {
    RunInv(states, events, n, n - 1, k);
  }

  // ----- progress

  /** A push whose TRB is not yet visible. */
  predicate InPush(s: System) {
    !s.producer.Idle? && !s.producer.StoreLink?
  }

  lemma {:induction false} OutstandingBound(states: seq<System>, events: seq<Event>, n: nat, limit: nat, k: nat)
    requires Run(states, events, n, limit) && limit <= n - 1 && k < |states|
    ensures Outstanding(states[k]) + (if InPush(states[k]) then 1 else 0) <= limit
  {
    if k > 0 {
      OutstandingBound(states, events, n, limit, k - 1);
      RunInv(states, events, n, limit, k - 1);
      BoundStep(states[k - 1], events[k - 1], limit, states[k]);
    }
  }

  lemma BoundStep(s: System, e: Event, limit: int, s': System)
    requires Inv(s) && StepOk(s, e, limit, s') && Outstanding(s) + (if InPush(s) then 1 else 0) <= limit
    ensures Outstanding(s') + (if InPush(s') then 1 else 0) <= limit
  {}

  /** With TRBs outstanding and the driver idle, the controller's poll succeeds
      except exactly when the ring is full and the controller stands at the link:
      the driver has then already flipped the link's cycle bit once too often. */
  lemma PollSucceedsIff(s: System)
    requires Inv(s) && LapOk(s) && s.producer.Idle? && s.consumer.Polling? && Outstanding(s) > 0
    ensures ReadStep(s) != s <==> !(Outstanding(s) == Slots(s) && s.deq == Slots(s))
  {
    if s.deq < Slots(s) { assert SlotOk(s, 0); }
  }

  /** Keeping one slot free is enough: with at most n - 2 outstanding no poll ever stalls. */
  lemma NeverStalls(states: seq<System>, events: seq<Event>, n: nat, k: nat)
    requires Run(states, events, n, n - 2) && k < |states|
    requires states[k].producer.Idle? && states[k].consumer.Polling? && Outstanding(states[k]) > 0
    ensures states[k].deq < |states[k].ring| && states[k].ccs < 2 && ReadStep(states[k]) != states[k]
  {
    RunInv(states, events, n, n - 2, k);
    OutstandingBound(states, events, n, n - 2, k);
    PollSucceedsIff(states[k]);
  }

  // ----- a push as a whole

  /** The ring after all stores of one push, as the driver's code performs them. */
  function PushedRing(ring: seq<Trb>, enq: nat, cycle: nat, t: Trb): seq<Trb>
    requires enq + 1 < |ring| && cycle < 2
  {
    var r := ring[enq := t.(control := WithCycle(t.control, cycle))];
    if enq + 1 >= |ring| - 1 then LinkSet(r, cycle) else r
  }

  /** The ring with the cycle bit of its link set. */
  function LinkSet(ring: seq<Trb>, cycle: nat): seq<Trb>
    requires |ring| > 0 && cycle < 2
  {
    var last := |ring| - 1;
    ring[last := ring[last].(control := WithCycle(ring[last].control, cycle))]
  }

  function PushedEnq(n: nat, enq: nat): nat { if enq + 1 >= n - 1 then 0 else enq + 1 }

  function PushedCycle(n: nat, enq: nat, cycle: nat): nat
    requires cycle < 2
  {
    if enq + 1 >= n - 1 then Flip(cycle) else cycle
  }

  /** The system after a whole push by the driver. */
  function AfterPush(s: System, t: Trb): System
    requires s.enq + 1 < |s.ring| && s.cycle < 2
  {
    s.(ring := PushedRing(s.ring, s.enq, s.cycle, t), enq := PushedEnq(|s.ring|, s.enq),
       cycle := PushedCycle(|s.ring|, s.enq, s.cycle), pushed := s.pushed + [Payload(t)])
  }

  /** `k` reads of the controller on end. */
  function Reads(s: System, k: nat): System
    requires s.deq < |s.ring| && s.ccs < 2
    decreases k
  {
    if k == 0 then s else
    var s' := ReadStep(s);
    if s'.deq < |s'.ring| && s'.ccs < 2 then Reads(s', k - 1) else s'
  }

  /** A controller that polls a slot with the wrong cycle bit stays there. */
  lemma {:induction false} ReadsNothing(s: System, k: nat)
    requires s.deq < |s.ring| && s.ccs < 2 && s.consumer.Polling? && Cycle(s.ring[s.deq].control) != s.ccs
    ensures Reads(s, k) == s
  {
    if k > 0 { ReadsNothing(s, k - 1); }
  }

  /** A push into a full ring puts its TRB over the oldest outstanding one, which is gone,
      with a cycle bit the controller does not expect: however often it reads, taking the
      link if it stands there, it consumes nothing more until the driver stores again. */
  lemma FullPushLoses(s: System, t: Trb, k: nat)
    requires Inv(s) && s.producer.Idle? && s.consumer.Polling? && Outstanding(s) == Slots(s)
    ensures s.enq == DataDeq(s) && Payload(s.ring[s.enq]) == s.pushed[|s.consumed|]
    ensures Payload(AfterPush(s, t).ring[s.enq]) == Payload(t)
    ensures Reads(AfterPush(s, t), k).consumed == s.consumed
    ensures s.deq < Slots(s) ==> Reads(AfterPush(s, t), k) == AfterPush(s, t)
  {
    var u, link := AfterPush(s, t), s.ring[|s.ring| - 1].control;
    WithCycleBits(t.control, s.cycle);
    WithCycleBits(link, s.cycle);
    assert SlotOk(s, 0);
    if Cycle(u.ring[u.deq].control) != u.ccs {
      ReadsNothing(u, k);
    } else if k > 0 {
      assert IsLink(u.ring[u.deq].control) && u.ring[u.deq].control / 2 == link / 2;
      ReadsNothing(ReadStep(u), k - 1);
    }
  }

  class Ring {
    const ring: array<Trb>
    var enq: nat
    var cycle: nat

    ghost predicate Valid()
      reads this, ring
    {
      ring.Length >= 2 && enq < ring.Length - 1 && cycle < 2
    }

    /** A zeroed ring of `n` TRBs at address `base`, the last one a link back to it. */
    constructor (n: nat, base: nat)
      requires n >= 2
      ensures Valid() && fresh(ring) && ring.Length == n && enq == 0 && cycle == 1
      ensures forall i | 0 <= i < n - 1 :: ring[i] == Trb(0, 0, 0, 0)
      ensures ring[n - 1] == Trb(base % 0x1_0000_0000, base / 0x1_0000_0000 % 0x1_0000_0000, 0, LINK_CONTROL)
    {
      ring := new Trb[n](_ => Trb(0, 0, 0, 0));
      enq, cycle := 0, 1;
      new;
      ring[n - 1] := Trb(base % 0x1_0000_0000, base / 0x1_0000_0000 % 0x1_0000_0000, 0, 6 * 1024 + 2 + cycle);
    }

    /** Stores the fields of a TRB, the control word last. */
    method StoreTrb(i: nat, t: Trb)
      requires i < ring.Length
      modifies ring
      ensures ring[..] == old(ring[..])[i := t]
    {
      ring[i] := ring[i].(lo := t.lo);
      ring[i] := ring[i].(hi := t.hi);
      ring[i] := ring[i].(status := t.status);
      ring[i] := ring[i].(control := t.control);
    }

    /** Gives the link the driver's cycle bit. */
    method SetLink()
      requires ring.Length > 0 && cycle < 2
      modifies ring
      ensures ring[..] == LinkSet(old(ring[..]), cycle)
    {
      var last := ring.Length - 1;
      ring[last] := ring[last].(control := WithCycle(ring[last].control, cycle));
    }

    /** Stores the fields, then the control word with the cycle bit, then wraps. */
    method Push(trb: Trb)
      requires Valid()
      modifies this, ring
      ensures Valid() && ring[..] == PushedRing(old(ring[..]), old(enq), old(cycle), trb)
      ensures enq == PushedEnq(ring.Length, old(enq)) && cycle == PushedCycle(ring.Length, old(enq), old(cycle))
    {
      StoreTrb(enq, trb.(control := WithCycle(trb.control, cycle)));
      enq := enq + 1;
      if enq >= ring.Length - 1 {
        SetLink();
        enq := 0;
        cycle := 1 - cycle;
      }
    }
  }

  /** The stores of a push, run to the end, are the driver's push. */
  lemma PushIsSteps(s: System, t: Trb)
    requires Inv(s) && s.producer.Idle? && !IsLink(t.control) && Outstanding(s) < Slots(s)
    ensures var s4 := StoreStep(StoreStep(StoreStep(StoreStep(Next(s, Begin(t))))));
      && s4.enq < |s4.ring|
      && var s' := if s4.producer.StoreLink? then StoreStep(s4) else s4;
      && s'.producer.Idle? && s'.ring == PushedRing(s.ring, s.enq, s.cycle, t)
      && s'.enq == PushedEnq(|s.ring|, s.enq) && s'.cycle == PushedCycle(|s.ring|, s.enq, s.cycle)
      && s'.pushed == s.pushed + [Payload(t)]
  {
    WithCycleBits(t.control, s.cycle);
    var s0 := Next(s, Begin(t));
    var s1 := StoreStep(s0);
    var s2 := StoreStep(s1);
    var s3 := StoreStep(s2);
    var s4 := StoreStep(s3);
    assert s4.ring == s.ring[s.enq := t.(control := WithCycle(t.control, s.cycle))];
  }
}
