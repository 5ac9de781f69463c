/** The event ring of the xHCI driver: the controller produces, the driver polls.
    A poll hands out a pointer into the ring and releases the slot at once. */
module XhciEvents {
  import opened XhciRing
  import opened Machine

  /** Where the controller stands inside writing an event: the cycle bit comes last. */
  datatype Controller = Ready | WriteLo(t: Trb) | WriteHi(t: Trb) | WriteStatus(t: Trb) | WriteControl(t: Trb)

  /** `produced` is the history of events, with their cycle bits; the driver has
      polled the first `polled` of them. */
  datatype Events = Events(
    ring: seq<Trb>, enq: nat, pcs: nat, controller: Controller,
    deq: nat, ccs: nat, produced: seq<Trb>, polled: nat)

  datatype Action = Produce(t: Trb) | Write | Poll

  function Start(n: nat): Events {
    Events(seq(n, i => Trb(0, 0, 0, 0)), 0, 1, Ready, 0, 1, [], 0)
  }

  /** The position after `i`, and the cycle bit that goes with it. */
  function Advance(i: nat, n: nat): nat { if i + 1 >= n then 0 else i + 1 }

  function Toggle(i: nat, n: nat, cycle: nat): nat
    requires cycle < 2
  {
    if i + 1 >= n then Flip(cycle) else cycle
  }

  predicate Shape(s: Events) { s.enq < |s.ring| && s.deq < |s.ring| && s.pcs < 2 && s.ccs < 2 }

  /** One store of the controller. */
  function WriteStep(s: Events): Events
    requires Shape(s)
  {
    var slot := s.ring[s.enq];
    match s.controller
    case Ready => s
    case WriteLo(t) => s.(ring := s.ring[s.enq := slot.(lo := t.lo)], controller := WriteHi(t))
    case WriteHi(t) => s.(ring := s.ring[s.enq := slot.(hi := t.hi)], controller := WriteStatus(t))
    case WriteStatus(t) => s.(ring := s.ring[s.enq := slot.(status := t.status)], controller := WriteControl(t))
    case WriteControl(t) =>
      s.(ring := s.ring[s.enq := slot.(control := t.control)], controller := Ready, produced := s.produced + [t],
         enq := Advance(s.enq, |s.ring|), pcs := Toggle(s.enq, |s.ring|, s.pcs))
  }

  /** The test and the advance of evt_ring_poll. */
  function PollStep(s: Events): Events
    requires Shape(s)
  {
    if Cycle(s.ring[s.deq].control) != s.ccs then s
    else s.(deq := Advance(s.deq, |s.ring|), ccs := Toggle(s.deq, |s.ring|, s.ccs), polled := s.polled + 1)
  }

  /** The controller starts an event only while the ring is not full: the slot after
      its own is not the one the driver's dequeue pointer names. */
  predicate Enabled(s: Events, a: Action) {
    match a
    case Produce(t) => s.controller.Ready? && Advance(s.enq, |s.ring|) != s.deq
    case Write => !s.controller.Ready?
    case Poll => true
  }

  function Next(s: Events, a: Action): Events
    requires Shape(s)
  {
    match a
    case Produce(t) => s.(controller := WriteLo(t.(control := WithCycle(t.control, s.pcs))))
    case Write => WriteStep(s)
    case Poll => PollStep(s)
  }

  // ----- the invariant

  function Lap(k: nat, n: nat): nat
    requires n > 0
  {
    1 - k / n % 2
  }

  /** The fields stored so far. */
  predicate Partial(slot: Trb, c: Controller) {
    match c
    case Ready => true
    case WriteLo(t) => true
    case WriteHi(t) => slot.lo == t.lo
    case WriteStatus(t) => slot.lo == t.lo && slot.hi == t.hi
    case WriteControl(t) => slot.lo == t.lo && slot.hi == t.hi && slot.status == t.status
  }

  /** Events from the last one polled on are in their slots. */
  ghost predicate Held(s: Events)
    requires |s.ring| > 0
  {
    forall k: nat | s.polled <= k + 1 && k < |s.produced| :: s.ring[k % |s.ring|] == s.produced[k]
  }

  /** Slots before the producer carry its cycle bit, the others the opposite one. */
  ghost predicate Bits(s: Events)
    requires Shape(s)
  {
    forall j: nat | j < |s.ring| :: Cycle(s.ring[j].control) == if j < s.enq then s.pcs else Flip(s.pcs)
  }

  ghost predicate Inv(s: Events) {
    && Shape(s) && |s.ring| >= 2
    && s.polled <= |s.produced| < s.polled + |s.ring|
    && s.enq == |s.produced| % |s.ring| && s.pcs == Lap(|s.produced|, |s.ring|)
    && s.deq == s.polled % |s.ring| && s.ccs == Lap(s.polled, |s.ring|)
    && (forall k: nat | k < |s.produced| :: Cycle(s.produced[k].control) == Lap(k, |s.ring|))
    && Held(s) && Bits(s) && Partial(s.ring[s.enq], s.controller)
    && (!s.controller.Ready? ==> Cycle(s.controller.t.control) == s.pcs && |s.produced| + 1 < s.polled + |s.ring|)
  }

  lemma StartInv(n: nat)
    requires n >= 2
    ensures Inv(Start(n))
  {}

  /** Counting on by one, position by position. */
  lemma NextPosition(k: nat, n: nat)
    requires n > 1
    ensures (k + 1) % n == Advance(k % n, n) && Lap(k + 1, n) == Toggle(k % n, n, Lap(k, n))
  {
    var q, r := k / n, k % n;
    assert k == q * n + r;
    if r + 1 == n {
      assert k + 1 == (q + 1) * n;
      QuotRem(q + 1, 0, n);
    } else {
      assert k + 1 == q * n + (r + 1);
      QuotRem(q, r + 1, n);
    }
  }

  /** Fewer than `n` apart, two events have different slots. */
  lemma SlotsDiffer(a: nat, b: nat, n: nat)
    requires n > 1 && a < b < a + n
    ensures a % n != b % n
  {
    if a % n == b % n {
      assert (b / n - a / n) * n == b - a;
      Multiple(b / n - a / n, n, b - a);
    }
  }

  // ----- every step keeps it

  lemma PollInv(s: Events)
    requires Inv(s)
    ensures Inv(PollStep(s))
    ensures PollStep(s).polled == s.polled + 1 <==> s.polled < |s.produced|
  {
    var n := |s.ring|;
    if s.polled < |s.produced| {
      assert s.ring[s.polled % n] == s.produced[s.polled];
      NextPosition(s.polled, n);
    } else {
      assert s.deq == s.enq;
    }
  }

  /** Slot `p % n`, about to be written, is not one whose event is still held. */
  lemma FreeSlot(s: Events, k: nat)
    requires Inv(s) && !s.controller.Ready? && s.polled <= k + 1 && k < |s.produced|
    ensures k % |s.ring| != s.enq
  {
    SlotsDiffer(k, |s.produced|, |s.ring|);
  }

  lemma FieldInv(s: Events)
    requires Inv(s) && !s.controller.Ready? && !s.controller.WriteControl?
    ensures Inv(WriteStep(s))
  {
    var s' := WriteStep(s);
    forall k: nat | s.polled <= k + 1 && k < |s.produced| ensures s'.ring[k % |s.ring|] == s.produced[k] {
      FreeSlot(s, k);
      assert s.ring[k % |s.ring|] == s.produced[k];
    }
  }

  lemma ControlInv(s: Events)
    requires Inv(s) && s.controller.WriteControl?
    ensures Inv(WriteStep(s))
  {
    NextPosition(|s.produced|, |s.ring|);
    ControlHeld(s);
    ControlBits(s);
  }

  lemma ControlHeld(s: Events)
    requires Inv(s) && s.controller.WriteControl?
    ensures Held(WriteStep(s))
  {
    var s', n, p := WriteStep(s), |s.ring|, |s.produced|;
    assert s'.ring[s.enq] == s.controller.t;
    forall k: nat | s.polled <= k + 1 && k < p + 1 ensures s'.ring[k % n] == s'.produced[k] {
      if k < p {
        FreeSlot(s, k);
        assert s.ring[k % n] == s.produced[k];
      }
    }
  }

  lemma ControlBits(s: Events)
    requires Inv(s) && s.controller.WriteControl?
    ensures Shape(WriteStep(s)) && Bits(WriteStep(s))
  {
    var s' := WriteStep(s);
    assert Cycle(s'.ring[s.enq].control) == s.pcs;
  }

  lemma StepInv(s: Events, a: Action)
    requires Inv(s) && Enabled(s, a)
    ensures Inv(Next(s, a))
  {
    match a
    case Produce(t) => ProduceInv(s, t);
    case Write => if s.controller.WriteControl? { ControlInv(s); } else { FieldInv(s); }
    case Poll => PollInv(s);
  }

  lemma ProduceInv(s: Events, t: Trb)
    requires Inv(s) && Enabled(s, Produce(t))
    ensures Inv(Next(s, Produce(t)))
  {
    NotFull(s);
  }

  /** The controller's own test leaves one slot free. */
  lemma NotFull(s: Events)
    requires Inv(s) && Advance(s.enq, |s.ring|) != s.deq
    ensures |s.produced| + 1 < s.polled + |s.ring|
  {
    var n := |s.ring|;
    if |s.produced| + 1 == s.polled + n {
      NextPosition(|s.produced|, n);
      SameSlot(s.polled, n);
    }
  }

  lemma SameSlot(k: nat, n: nat)
    requires n > 0
    ensures (k + n) % n == k % n
  {
    assert k + n == (k / n + 1) * n + k % n;
    QuotRem(k / n + 1, k % n, n);
  }

  ghost predicate Run(states: seq<Events>, actions: seq<Action>) {
    && |states| == |actions| + 1
    && forall i | 0 <= i < |actions| ::
         Shape(states[i]) && Enabled(states[i], actions[i]) && states[i + 1] == Next(states[i], actions[i])
  }

  lemma {:induction false} RunInv(states: seq<Events>, actions: seq<Action>, i: nat)
    requires Run(states, actions) && Inv(states[0]) && i < |states|
    ensures Inv(states[i])
  {
    if i > 0 {
      RunInv(states, actions, i - 1);
      StepInv(states[i - 1], actions[i - 1]);
    }
  }

  /** In every run the polls hand out the produced events one by one, in order: a
      poll succeeds exactly if there is an event, and it points at the next one. */
  lemma PolledInOrder(n: nat, states: seq<Events>, actions: seq<Action>, i: nat)
    requires n >= 2 && Run(states, actions) && states[0] == Start(n) && i < |actions| && actions[i].Poll?
    ensures states[i].polled <= |states[i].produced|
    ensures var s, s' := states[i], states[i + 1];
      if s.polled < |s.produced| then s'.polled == s.polled + 1 && s.ring[s.deq] == s.produced[s.polled] else s' == s
  {
    StartInv(n);
    RunInv(states, actions, i);
    PollInv(states[i]);
    assert states[i].polled < |states[i].produced| ==>
        states[i].ring[states[i].polled % |states[i].ring|] == states[i].produced[states[i].polled];
  }

  /** The slot handed out last keeps its event until the next successful poll,
      although the dequeue pointer has already passed it. */
  lemma HandedOutStays(n: nat, states: seq<Events>, actions: seq<Action>, i: nat, j: nat)
    requires n >= 2 && Run(states, actions) && states[0] == Start(n) && i <= j < |states|
    requires 0 < states[i].polled == states[j].polled
    ensures 0 < states[i].polled <= |states[i].produced|
    ensures var k := states[i].polled - 1; var at := k % n;
      && |states[i].ring| == |states[j].ring| == n && k < |states[j].produced|
      && states[i].ring[at] == states[i].produced[k] && states[j].ring[at] == states[j].produced[k] == states[i].produced[k]
  {
    StartInv(n);
    RunInv(states, actions, i);
    RunInv(states, actions, j);
    Grows(states, actions, i, j);
    Grows(states, actions, 0, i);
    var k := states[i].polled - 1;
    assert states[i].ring[k % n] == states[i].produced[k];
    assert states[j].ring[k % n] == states[j].produced[k];
  }

  lemma {:induction false} Grows(states: seq<Events>, actions: seq<Action>, i: nat, j: nat)
    requires Run(states, actions) && i <= j < |states|
    ensures |states[i].ring| == |states[j].ring| && states[i].produced <= states[j].produced
    decreases j
  {
    if i < j { Grows(states, actions, i, j - 1); }
  }

  /** The driver's side: the ring it shares with the controller and its position. */
  class EventRing {
    const ring: array<Trb>
    var deq: nat
    var cycle: nat

    ghost predicate Valid()
      reads this
    {
      deq < ring.Length && cycle < 2
    }

    constructor (n: nat)
      requires n >= 2
      ensures Valid() && fresh(ring) && ring.Length == n
      ensures ring[..] == Start(n).ring && deq == Start(n).deq && cycle == Start(n).ccs
    {
      ring := new Trb[n](_ => Trb(0, 0, 0, 0));
      deq, cycle := 0, 1;
    }

    /** One pass of the polling loop; -1 if there is no event. */
    method PollOnce(ghost s: Events) returns (at: int)
      requires Valid() && Shape(s) && s.ring == ring[..] && s.deq == deq && s.ccs == cycle
      modifies this`deq, this`cycle
      ensures Valid() && PollStep(s).deq == deq && PollStep(s).ccs == cycle
      ensures PollStep(s).polled == s.polled + 1 <==> at != -1
      ensures at == -1 ==> PollStep(s) == s
      ensures at != -1 ==> at == old(deq)
    {
      if ring[deq].control % 2 != cycle { return -1; }
      at := deq;
      deq := deq + 1;
      if deq >= ring.Length { deq, cycle := 0, 1 - cycle; }
    }
  }
}
