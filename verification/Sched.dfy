/** The scheduler's task table as a value: waking sleepers, reaping dead tasks,
    picking the next task, and one function per scheduler call up to its yield. */
module Sched {

  const MAX_TASKS: nat := 64
  const PRIORITIES: nat := 4

  datatype TaskState = Ready | Running | Sleeping | Blocked | Dead

  datatype Task = Task(
    id: nat, state: TaskState, wake: nat, stack: nat, priority: int, exitCode: int,
    parentId: nat, waitFor: nat, isUser: bool, pml4: nat, pendingSlot: int)

  type Table = seq<Task>

  // ----- the passes of pick_next

  function WakeTask(t: Task, now: nat): Task {
    if t.state == Sleeping && now >= t.wake then t.(state := Ready) else t
  }

  /** Sleepers whose deadline has passed become ready. */
  function Wake(ts: Table, now: nat): Table {
    seq(|ts|, j requires 0 <= j < |ts| => WakeTask(ts[j], now))
  }

  /** A waiter for the dead task `d` is made ready with its exit code. */
  function Notify(t: Task, d: Task): Task {
    if t.state == Blocked && t.waitFor == d.id then t.(state := Ready, exitCode := d.exitCode, waitFor := 0) else t
  }

  predicate Reapable(ts: Table, current: nat, i: nat) {
    0 < i < |ts| && ts[i].state == Dead && i != current
  }

  /** Reaping slot `i`: waiters are notified and the stack is freed. */
  function Reap(ts: Table, i: nat): Table
    requires i < |ts|
  {
    seq(|ts|, j requires 0 <= j < |ts| => if j == i then ts[i].(stack := 0) else Notify(ts[j], ts[i]))
  }

  /** The cleanup pass over slots 1 to n - 1. */
  function Cleanup(ts: Table, current: nat, n: nat): (r: Table)
    requires n <= |ts|
    ensures |r| == |ts|
  {
    if n <= 1 then ts else
      var r := Cleanup(ts, current, n - 1);
      if Reapable(r, current, n - 1) then Reap(r, n - 1) else r
  }

  /** Slot `i` steps after `current`, cyclically. */
  function After(current: nat, i: nat, n: nat): (r: nat)
    requires current < n && 1 <= i <= n
    ensures r < n
  {
    if current + i < n then current + i else current + i - n
  }

  function FirstReady(ts: Table, current: nat, prio: int, i: nat): (r: int)
    requires current < |ts| && 1 <= i
    decreases |ts| + 1 - i
  {
    if i > |ts| then -1 else
      var idx := After(current, i, |ts|);
      if ts[idx].state == Ready && ts[idx].priority == prio then idx else FirstReady(ts, current, prio, i + 1)
  }

  /** Priority by priority, round-robin from the current task; 0 if none is ready. */
  function Pick(ts: Table, current: nat, prio: nat): int
    requires current < |ts| && prio <= PRIORITIES
    decreases PRIORITIES - prio
  {
    if prio == PRIORITIES then 0 else
      var r := FirstReady(ts, current, prio, 1);
      if r != -1 then r else Pick(ts, current, prio + 1)
  }

  // ----- what pick returns

  /** Steps from `current` to slot `j`, in 1..n. */
  function Distance(current: nat, j: nat, n: nat): (d: nat)
    requires current < n && j < n
    ensures 1 <= d <= n && After(current, d, n) == j
  {
    if j > current then j - current else j - current + n
  }

  lemma {:induction false} FirstReadyResult(ts: Table, current: nat, prio: int, i: nat)
    requires current < |ts| && 1 <= i
    ensures var r := FirstReady(ts, current, prio, i);
      if r == -1 then
        forall j: nat | j < |ts| && Distance(current, j, |ts|) >= i :: !(ts[j].state == Ready && ts[j].priority == prio)
      else
        && 0 <= r < |ts| && ts[r].state == Ready && ts[r].priority == prio && Distance(current, r, |ts|) >= i
        && forall j: nat | j < |ts| && i <= Distance(current, j, |ts|) < Distance(current, r, |ts|) ::
             !(ts[j].state == Ready && ts[j].priority == prio)
    decreases |ts| + 1 - i
  {
    if i <= |ts| {
      var idx := After(current, i, |ts|);
      assert Distance(current, idx, |ts|) == i;
      assert forall j: nat | j < |ts| && Distance(current, j, |ts|) == i :: j == idx;
      if !(ts[idx].state == Ready && ts[idx].priority == prio) { FirstReadyResult(ts, current, prio, i + 1); }
    }
  }

  predicate Candidate(ts: Table, j: nat) {
    j < |ts| && ts[j].state == Ready && 0 <= ts[j].priority < PRIORITIES
  }

  /** The choice: a ready task of the best ready priority, and among those the
      nearest after the current one; slot 0 only when no task is ready. */
  ghost predicate Best(ts: Table, current: nat, r: int)
    requires current < |ts|
  {
    if forall j: nat :: !Candidate(ts, j) then r == 0
    else
      && 0 <= r < |ts| && Candidate(ts, r)
      && forall j: nat | Candidate(ts, j) ::
           || ts[r].priority < ts[j].priority
           || (ts[r].priority == ts[j].priority && Distance(current, r, |ts|) <= Distance(current, j, |ts|))
  }

  lemma {:induction false} PickResult(ts: Table, current: nat, prio: nat)
    requires current < |ts| && prio <= PRIORITIES
    requires forall j: nat | Candidate(ts, j) :: ts[j].priority >= prio
    ensures Best(ts, current, Pick(ts, current, prio))
    decreases PRIORITIES - prio
  {
    if prio < PRIORITIES {
      FirstReadyResult(ts, current, prio, 1);
      var r := FirstReady(ts, current, prio, 1);
      if r == -1 {
        forall j: nat | Candidate(ts, j) ensures ts[j].priority >= prio + 1 {
          assert Distance(current, j, |ts|) >= 1;
        }
        PickResult(ts, current, prio + 1);
      } else {
        assert Candidate(ts, r);
        forall j: nat | Candidate(ts, j) && ts[j].priority == prio
          ensures Distance(current, r, |ts|) <= Distance(current, j, |ts|)
        {
          assert Distance(current, j, |ts|) >= 1;
        }
      }
    }
  }

  /** Priority round-robin: a ready task of the best priority, or 0 if there is none. */
  lemma PickBest(ts: Table, current: nat)
    requires current < |ts|
    ensures Best(ts, current, Pick(ts, current, 0))
  {
    PickResult(ts, current, 0);
  }

  /** A pick that stays at a ready task's priority either is that task or comes
      strictly nearer to it. */
  lemma PickCloser(ts: Table, current: nat, t: nat)
    requires current < |ts| && Candidate(ts, t)
    ensures var r := Pick(ts, current, 0);
      0 <= r < |ts| && (ts[r].priority == ts[t].priority && r != t ==> Distance(r, t, |ts|) < Distance(current, t, |ts|))
  {
    PickBest(ts, current);
  }

  /** A task that could go on: ready, or the one that decides, still running. */
  predicate Runnable(ts: Table, current: nat, j: nat) {
    Candidate(ts, j) || (j == current < |ts| && ts[j].state == Running)
  }

  /** The running task is not among those picked from, so the pick has the best priority of
      all that could run exactly if the running task is not better than every ready one. */
  lemma PickKeepsBestIff(ts: Table, current: nat)
    requires current < |ts| && 0 <= ts[current].priority < PRIORITIES
    ensures var r := Pick(ts, current, 0);
      && 0 <= r < |ts|
      && ((forall j: nat | Runnable(ts, current, j) :: ts[r].priority <= ts[j].priority) <==>
          || ts[current].state != Running
          || (exists j: nat :: Candidate(ts, j) && ts[j].priority <= ts[current].priority)
          || ((forall j: nat :: !Candidate(ts, j)) && ts[0].priority <= ts[current].priority))
  {
    PickBest(ts, current);
    var r := Pick(ts, current, 0);
    if ts[current].state == Running { assert Runnable(ts, current, current); }
    if exists j: nat :: Candidate(ts, j) { assert Candidate(ts, r); }
  }

  /** A scheduling decision: the swept table and the slot that decides. */
  datatype Decision = None | Decision(table: Table, current: nat)

  /** The decision passes over `t`, which is ready and of the picked priority. */
  ghost predicate PassesOver(d: Decision, t: nat, n: nat) {
    && d.Decision? && |d.table| == n && d.current < n && Candidate(d.table, t)
    && var r := Pick(d.table, d.current, 0);
    0 <= r < n && d.table[r].priority == d.table[t].priority && r != t
  }

  // ----- scheduler calls, each up to and including its yield

  /** `table` is the first task_count slots; `live` the stacks the heap has handed out. */
  datatype State = State(table: Table, current: nat, nextId: nat, live: set<nat>)

  datatype Call =
    | Create(priority: int, newStack: nat)    // newStack is what the heap returned, 0 for failure
    | Yield
    | Sleep(ticks: nat)
    | Wait(target: nat)
    | Exit(code: int)
    | Signal(target: nat, sig: int)
    | Adopt(slot: nat, pml4: nat, pending: int)   // a new user task is given its address space

  const ZERO_TASK := Task(0, Ready, 0, 0, 0, 0, 0, 0, false, 0, 0)

  function Clamp(p: int): int {
    if p < 0 then 0 else if p >= PRIORITIES then PRIORITIES - 1 else p
  }

  /** The first reusable slot from `i` on: dead with its stack freed; -1 if none. */
  function DeadSlot(ts: Table, i: nat): (r: int)
    ensures r == -1 || (i <= r < |ts| && ts[r].state == Dead && ts[r].stack == 0)
    ensures r == -1 ==> forall j: nat | i <= j < |ts| :: !(ts[j].state == Dead && ts[j].stack == 0)
    decreases |ts| - i
  {
    if i >= |ts| then -1 else if ts[i].state == Dead && ts[i].stack == 0 then i else DeadSlot(ts, i + 1)
  }

  /** The new task's record; a reused slot keeps its address space fields. */
  function Fill(t: Task, id: nat, priority: int, stack: nat, parent: nat): Task {
    t.(id := id, state := Ready, priority := Clamp(priority), exitCode := 0, parentId := parent,
       waitFor := 0, pendingSlot := -1, stack := stack)
  }

  function DoCreate(s: State, priority: int, newStack: nat): State
    requires s.current < |s.table|
  {
    var slot := DeadSlot(s.table, 1);
    if slot == -1 && |s.table| >= MAX_TASKS then s
    else if newStack == 0 then
      if slot == -1 then s else s.(table := s.table[slot := ZERO_TASK])
    else
      var parent := s.table[s.current].id;
      var table := if slot == -1 then s.table + [Fill(ZERO_TASK, s.nextId, priority, newStack, parent)]
                   else s.table[slot := Fill(s.table[slot], s.nextId, priority, newStack, parent)];
      State(table, s.current, s.nextId + 1, s.live + {newStack})
  }

  /** The stacks that a cleanup pass frees. */
  function Freed(ts: Table, current: nat): set<nat> {
    set i: nat | i < |ts| && Reapable(ts, current, i) && ts[i].stack != 0 :: ts[i].stack
  }

  /** The table after waking sleepers and reaping. */
  function Swept(s: State, now: nat): Table {
    Cleanup(Wake(s.table, now), s.current, |s.table|)
  }

  function SwitchTo(ts: Table, prev: nat, next: nat): Table
    requires prev < |ts| && next < |ts|
  {
    var left := if ts[prev].state == Running then ts[prev := ts[prev].(state := Ready)] else ts;
    left[next := left[next].(state := Running)]
  }

  function DoYield(s: State, now: nat): State
    requires s.current < |s.table|
  {
    var ts := Swept(s, now);
    var live := s.live - Freed(Wake(s.table, now), s.current);
    var next := Pick(ts, s.current, 0);
    if next == s.current || !(0 <= next < |ts|) then s.(table := ts, live := live)
    else State(SwitchTo(ts, s.current, next), next, s.nextId, live)
  }

  function SetCurrent(s: State, t: Task): State
    requires s.current < |s.table|
  {
    s.(table := s.table[s.current := t])
  }

  /** The first slot from `i` on with this id, or -1. */
  function FindTask(ts: Table, id: nat, i: nat): (r: int)
    ensures r == -1 || (i <= r < |ts| && ts[r].id == id)
    ensures r == -1 ==> forall j: nat | i <= j < |ts| :: ts[j].id != id
    decreases |ts| - i
  {
    if i >= |ts| then -1 else if ts[i].id == id then i else FindTask(ts, id, i + 1)
  }

  /** A wait that does not return at once: the target exists and is not dead. */
  predicate Blocks(s: State, target: nat) {
    var i := FindTask(s.table, target, 0);
    i != -1 && s.table[i].state != Dead
  }

  function DoWait(s: State, target: nat, now: nat): State
    requires s.current < |s.table|
  {
    if Blocks(s, target)
    then DoYield(SetCurrent(s, s.table[s.current].(state := Blocked, waitFor := target)), now)
    else s
  }

  /** The effect of a signal on its target; no handler is ever installed. */
  function Signalled(t: Task, sig: int): Task {
    if sig == 19 then t.(state := Blocked)
    else if sig == 17 then t
    else t.(exitCode := 128 + sig, state := Dead)
  }

  function DoSignal(s: State, target: nat, sig: int): State {
    var i := FindTask(s.table, target, 0);
    if !(1 <= sig < 20) || i == -1 || s.table[i].state == Dead then s
    else s.(table := s.table[i := Signalled(s.table[i], sig)])
  }

  /** What the program loader stores into a task it has just created. */
  function DoAdopt(s: State, slot: nat, pml4: nat, pending: int): State {
    if slot < |s.table| then s.(table := s.table[slot := s.table[slot].(isUser := true, pml4 := pml4, pendingSlot := pending)])
    else s
  }

  function Step(s: State, c: Call, now: nat): State
    requires s.current < |s.table|
  {
    var me := s.table[s.current];
    match c
    case Create(priority, newStack) => DoCreate(s, priority, newStack)
    case Yield => DoYield(s, now)
    case Sleep(ticks) => DoYield(SetCurrent(s, me.(state := Sleeping, wake := now + ticks)), now)
    case Wait(target) => DoWait(s, target, now)
    case Exit(code) => DoYield(SetCurrent(s, me.(exitCode := code, state := Dead)), now)
    case Signal(target, sig) => DoSignal(s, target, sig)
    case Adopt(slot, pml4, pending) => DoAdopt(s, slot, pml4, pending)
  }

  // ----- the invariant

  /** A task other than the idle task that waits for `t.waitFor` has that task's
      slot, not yet reaped. */
  ghost predicate Awaited(ts: Table, k: nat) {
    exists i: nat :: 0 < i < |ts| && ts[i].id == k && ts[i].stack != 0
  }

  ghost predicate TaskOk(ts: Table, current: nat, j: nat)
    requires j < |ts|
  {
    var t := ts[j];
    && (j == 0 <==> t.id == 0)
    && (j == 0 ==> t.stack == 0)
    && (j > 0 && t.stack == 0 ==> t.state == Dead && j != current)
    && (t.state == Running ==> j == current)
    && 0 <= t.priority < PRIORITIES
    && (j > 0 && t.waitFor != 0 ==> t.state == Blocked || t.state == Dead)
    && (j > 0 && t.waitFor != 0 && t.state == Blocked ==> Awaited(ts, t.waitFor))
  }

  ghost predicate Distinct(ts: Table) {
    forall i, j | 0 <= i < j < |ts| :: ts[i].id != ts[j].id && (ts[i].stack == ts[j].stack ==> ts[i].stack == 0)
  }

  function Stacks(ts: Table): set<nat> {
    set i: nat | i < |ts| && ts[i].stack != 0 :: ts[i].stack
  }

  ghost predicate Inv(s: State) {
    && s.current < |s.table| <= MAX_TASKS
    && (forall j: nat | j < |s.table| :: TaskOk(s.table, s.current, j) && s.table[j].id < s.nextId)
    && Distinct(s.table)
    && s.live == Stacks(s.table)
  }

  // ----- the cleanup pass in closed form

  /** The first reapable slot below `n` with this id, or -1. */
  function Reaped(ts: Table, current: nat, n: nat, id: nat): (r: int)
    requires n <= |ts|
    ensures r == -1 || (0 < r < n && Reapable(ts, current, r) && ts[r].id == id)
    ensures r == -1 ==> forall i: nat | i < n && Reapable(ts, current, i) :: ts[i].id != id
  {
    if n == 0 then -1 else
      var r := Reaped(ts, current, n - 1, id);
      if r == -1 && Reapable(ts, current, n - 1) && ts[n - 1].id == id then n - 1 else r
  }

  /** What the pass over slots below `n` leaves in slot `j`. */
  function CleanTask(ts: Table, current: nat, n: nat, j: nat): Task
    requires n <= |ts| && j < |ts|
  {
    var t := ts[j];
    if t.state == Blocked && Reaped(ts, current, n, t.waitFor) != -1 then Notify(t, ts[Reaped(ts, current, n, t.waitFor)])
    else if j < n && Reapable(ts, current, j) then t.(stack := 0)
    else t
  }

  /** Each waiter is notified by its own target, each dead slot loses its stack,
      and nothing else changes. */
  lemma {:induction false} CleanupSlot(ts: Table, current: nat, n: nat, j: nat)
    requires n <= |ts| && j < |ts|
    ensures Cleanup(ts, current, n)[j] == CleanTask(ts, current, n, j)
  {
    if n > 1 {
      var i := n - 1;
      CleanupSlot(ts, current, i, j);
      CleanupSlot(ts, current, i, i);
    }
  }

  // ----- the invariant is kept by the sweep

  /** Everything of `Inv` but the running task, for a table in the middle of a call. */
  lemma WakeInv(s: State, now: nat)
    requires Inv(s)
    ensures Inv(s.(table := Wake(s.table, now)))
  {
    var ts := Wake(s.table, now);
    var s' := s.(table := ts);
    forall j: nat | j < |ts| ensures TaskOk(ts, s.current, j) && ts[j].id < s.nextId {
      assert TaskOk(s.table, s.current, j);
      if s.table[j].waitFor != 0 && j > 0 && ts[j].state == Blocked {
        var i: nat :| 0 < i < |s.table| && s.table[i].id == s.table[j].waitFor && s.table[i].stack != 0;
        assert ts[i].id == s.table[i].id && ts[i].stack == s.table[i].stack;
      }
    }
    assert Stacks(ts) == Stacks(s.table) by {
      assert forall j: nat | j < |ts| :: ts[j].stack == s.table[j].stack;
    }
  }

  lemma CleanupInv(s: State)
    requires Inv(s)
    ensures var ts := Cleanup(s.table, s.current, |s.table|);
      Inv(s.(table := ts, live := s.live - Freed(s.table, s.current)))
  {
    var was, n := s.table, |s.table|;
    var ts := Cleanup(was, s.current, n);
    forall j: nat | j < n ensures TaskOk(ts, s.current, j) && ts[j].id == was[j].id < s.nextId {
      CleanupTask(s, j);
    }
    forall i, j | 0 <= i < j < n
      ensures ts[i].id != ts[j].id && (ts[i].stack == ts[j].stack ==> ts[i].stack == 0)
    {
      CleanupSlot(was, s.current, n, i);
      CleanupSlot(was, s.current, n, j);
    }
    CleanupStacks(s);
  }

  lemma CleanupTask(s: State, j: nat)
    requires Inv(s) && j < |s.table|
    ensures var ts := Cleanup(s.table, s.current, |s.table|);
      TaskOk(ts, s.current, j) && ts[j].id == s.table[j].id
  {
    var was, n := s.table, |s.table|;
    var ts := Cleanup(was, s.current, n);
    CleanupSlot(was, s.current, n, j);
    assert TaskOk(was, s.current, j);
    if j > 0 && ts[j].waitFor != 0 && ts[j].state == Blocked {
      var i: nat :| 0 < i < n && was[i].id == was[j].waitFor && was[i].stack != 0;
      assert !Reapable(was, s.current, i);
      CleanupSlot(was, s.current, n, i);
      assert ts[i].id == was[j].waitFor && ts[i].stack != 0;
    }
  }

  /** Exactly the freed stacks leave the live set. */
  lemma CleanupStacks(s: State)
    requires Inv(s)
    ensures Stacks(Cleanup(s.table, s.current, |s.table|)) == s.live - Freed(s.table, s.current)
  {
    var was, n := s.table, |s.table|;
    var ts := Cleanup(was, s.current, n);
    forall x ensures x in Stacks(ts) <==> x in s.live && x !in Freed(was, s.current) {
      if x in Stacks(ts) {
        var i: nat :| i < n && ts[i].stack != 0 && ts[i].stack == x;
        CleanupSlot(was, s.current, n, i);
        assert was[i].stack == x && !Reapable(was, s.current, i);
        forall k: nat | k < n && Reapable(was, s.current, k) ensures was[k].stack != x {
          assert k < i || i < k;
        }
      }
      if x in s.live && x !in Freed(was, s.current) {
        var i: nat :| i < n && was[i].stack != 0 && was[i].stack == x;
        CleanupSlot(was, s.current, n, i);
        assert ts[i].stack == x;
      }
    }
  }

  /** A pass frees only live stacks, and never the current task's. */
  lemma FreedOnce(s: State)
    requires Inv(s)
    ensures Freed(s.table, s.current) <= s.live
    ensures s.table[s.current].stack !in Freed(s.table, s.current)
    ensures var after := s.live - Freed(s.table, s.current);
      forall i: nat | Reapable(s.table, s.current, i) :: s.table[i].stack == 0 || s.table[i].stack !in after
  {
    forall i: nat | i < |s.table| && Reapable(s.table, s.current, i) && s.table[i].stack != 0
      ensures s.table[i].stack != s.table[s.current].stack
    {
      assert i < s.current || s.current < i;
    }
  }

  // ----- the invariant is kept by every call

  lemma SwitchInv(s: State, next: nat)
    requires Inv(s) && next < |s.table| && next != s.current
    requires next == 0 || s.table[next].state == Ready
    ensures Inv(s.(table := SwitchTo(s.table, s.current, next), current := next))
  {
    var ts := SwitchTo(s.table, s.current, next);
    var n := |ts|;
    assert forall j: nat | j < n ::
        ts[j] == s.table[j].(state := ts[j].state) && (ts[j].state == s.table[j].state || j == next || j == s.current);
    forall j: nat | j < n ensures TaskOk(ts, next, j) && ts[j].id < s.nextId {
      assert TaskOk(s.table, s.current, j);
      if j > 0 && ts[j].waitFor != 0 && ts[j].state == Blocked {
        var i: nat :| 0 < i < n && s.table[i].id == ts[j].waitFor && s.table[i].stack != 0;
        assert ts[i].id == ts[j].waitFor && ts[i].stack != 0;
      }
    }
    assert Stacks(ts) == Stacks(s.table) by { assert forall j: nat | j < n :: ts[j].stack == s.table[j].stack; }
  }

  lemma YieldInv(s: State, now: nat)
    requires Inv(s)
    ensures Inv(DoYield(s, now))
  {
    WakeInv(s, now);
    var woken := s.(table := Wake(s.table, now));
    CleanupInv(woken);
    var ts := Swept(s, now);
    PickBest(ts, s.current);
    var swept := s.(table := ts, live := s.live - Freed(woken.table, s.current));
    var next := Pick(ts, s.current, 0);
    if next != s.current { SwitchInv(swept, next); }
  }

  /** A change of the current task's own state that leaves its record otherwise alone. */
  lemma SetCurrentInv(s: State, t: Task)
    requires Inv(s)
    requires var me := s.table[s.current];
      && t.id == me.id && t.stack == me.stack && t.priority == me.priority
      && (s.current > 0 && t.waitFor != 0 ==> t.state == Blocked || t.state == Dead)
      && (s.current > 0 && t.waitFor != 0 && t.state == Blocked ==> Awaited(s.table, t.waitFor))
    ensures Inv(SetCurrent(s, t))
  {
    SlotInv(s, s.current, t);
  }

  /** Replacing one record with the same id and stack. */
  lemma SlotInv(s: State, k: nat, t: Task)
    requires Inv(s) && k < |s.table| && t.id == s.table[k].id && t.stack == s.table[k].stack
    requires 0 <= t.priority < PRIORITIES && (t.state == Running ==> k == s.current)
    requires k > 0 && t.stack == 0 ==> t.state == Dead
    requires k > 0 && t.waitFor != 0 ==> t.state == Blocked || t.state == Dead
    requires k > 0 && t.waitFor != 0 && t.state == Blocked ==> Awaited(s.table, t.waitFor)
    ensures Inv(s.(table := s.table[k := t]))
  {
    var was, ts := s.table, s.table[k := t];
    var n := |ts|;
    assert forall j: nat | j < n :: ts[j].id == was[j].id && ts[j].stack == was[j].stack;
    forall j: nat | j < n ensures TaskOk(ts, s.current, j) && ts[j].id < s.nextId {
      assert TaskOk(was, s.current, j);
      if j > 0 && ts[j].waitFor != 0 && ts[j].state == Blocked {
        assert Awaited(was, ts[j].waitFor);
        var i: nat :| 0 < i < n && was[i].id == ts[j].waitFor && was[i].stack != 0;
        assert ts[i].id == ts[j].waitFor && ts[i].stack != 0;
      }
    }
    assert Stacks(ts) == Stacks(was);
  }

  lemma CreateInv(s: State, priority: int, newStack: nat)
    requires Inv(s) && newStack != 0 && newStack !in s.live
    ensures Inv(DoCreate(s, priority, newStack))
  {
    var slot := DeadSlot(s.table, 1);
    var t := Fill(if slot == -1 then ZERO_TASK else s.table[slot], s.nextId, priority, newStack, s.table[s.current].id);
    var s' := DoCreate(s, priority, newStack);
    if !(slot == -1 && |s.table| >= MAX_TASKS) {
      assert TaskOk(s.table, s.current, 0);
      CreatedTable(s, if slot == -1 then |s.table| else slot, t);
    }
  }

  /** The table with record `t` put in slot `k`, which may be one past the end. */
  function PutTask(ts: Table, k: nat, t: Task): Table
    requires k <= |ts|
  {
    if k == |ts| then ts + [t] else ts[k := t]
  }

  lemma CreatedTable(s: State, k: nat, t: Task)
    requires Inv(s) && 0 < k <= |s.table| && k < MAX_TASKS && (k < |s.table| ==> s.table[k].state == Dead && s.table[k].stack == 0)
    requires t.id == s.nextId && t.state == Ready && t.stack != 0 && t.stack !in s.live && t.waitFor == 0 && 0 <= t.priority < PRIORITIES
    ensures Inv(State(PutTask(s.table, k, t), s.current, s.nextId + 1, s.live + {t.stack}))
  {
    var was, ts := s.table, PutTask(s.table, k, t);
    assert forall j: nat | j < |ts| && j != k :: j < |was| && ts[j] == was[j];
    assert s.nextId > 0 by { assert was[0].id < s.nextId; }
    forall j: nat | j < |ts| ensures TaskOk(ts, s.current, j) && ts[j].id < s.nextId + 1 {
      if j != k {
        assert TaskOk(was, s.current, j) && was[j].id < s.nextId;
        if j > 0 && ts[j].waitFor != 0 && ts[j].state == Blocked {
          assert Awaited(was, ts[j].waitFor);
          var i: nat :| 0 < i < |was| && was[i].id == ts[j].waitFor && was[i].stack != 0;
          assert ts[i].id == ts[j].waitFor && ts[i].stack != 0;
        }
      } else if k < |was| {
        assert TaskOk(was, s.current, k);
      }
    }
    forall i, j | 0 <= i < j < |ts|
      ensures ts[i].id != ts[j].id && (ts[i].stack == ts[j].stack ==> ts[i].stack == 0)
    {
      if i != k { assert was[i].id < s.nextId && (was[i].stack != 0 ==> was[i].stack in Stacks(was)); }
      if j != k { assert was[j].id < s.nextId && (was[j].stack != 0 ==> was[j].stack in Stacks(was)); }
    }
    PutStacks(was, k, t);
  }

  lemma PutStacks(ts: Table, k: nat, t: Task)
    requires k <= |ts| && (k < |ts| ==> ts[k].stack == 0) && t.stack != 0
    ensures Stacks(PutTask(ts, k, t)) == Stacks(ts) + {t.stack}
  {
    var r := PutTask(ts, k, t);
    assert r[k].stack in Stacks(r);
    forall x | x in Stacks(ts) ensures x in Stacks(r) {
      var i: nat :| i < |ts| && ts[i].stack != 0 && ts[i].stack == x;
      assert r[i].stack == x;
    }
  }

  /** A failed allocation is harmless exactly when no dead slot was about to be
      reused: otherwise the slot is left zeroed, which reads as a ready task of the
      highest priority that has no stack. */
  lemma FailedCreateIff(s: State, priority: int)
    requires Inv(s)
    ensures Inv(DoCreate(s, priority, 0)) <==> DeadSlot(s.table, 1) == -1
    ensures DeadSlot(s.table, 1) != -1 ==>
              var t := DoCreate(s, priority, 0).table[DeadSlot(s.table, 1)];
              t.state == Ready && t.priority == 0 && t.stack == 0
  {
    var slot := DeadSlot(s.table, 1);
    if slot != -1 {
      var ts := DoCreate(s, priority, 0).table;
      assert ts[slot] == ZERO_TASK;
      assert !TaskOk(ts, s.current, slot);
    }
  }

  lemma AdoptInv(s: State, slot: nat, pml4: nat, pending: int)
    requires Inv(s)
    ensures Inv(DoAdopt(s, slot, pml4, pending))
  {
    if slot < |s.table| {
      assert TaskOk(s.table, s.current, slot);
      SlotInv(s, slot, s.table[slot].(isUser := true, pml4 := pml4, pendingSlot := pending));
    }
  }

  lemma WaitInv(s: State, target: nat, now: nat)
    requires Inv(s)
    ensures Inv(DoWait(s, target, now))
  {
    if Blocks(s, target) {
      BlockInv(s, target);
      YieldInv(SetCurrent(s, s.table[s.current].(state := Blocked, waitFor := target)), now);
    }
  }

  lemma BlockInv(s: State, target: nat)
    requires Inv(s) && Blocks(s, target)
    ensures Inv(SetCurrent(s, s.table[s.current].(state := Blocked, waitFor := target)))
  {
    var i := FindTask(s.table, target, 0);
    var t := s.table[s.current].(state := Blocked, waitFor := target);
    assert TaskOk(s.table, s.current, s.current) && TaskOk(s.table, s.current, i);
    if s.current > 0 && target != 0 { assert s.table[i].id == target && s.table[i].stack != 0; }
    SetCurrentInv(s, t);
  }

  lemma SignalInv(s: State, target: nat, sig: int)
    requires Inv(s)
    ensures Inv(DoSignal(s, target, sig))
  {
    var i := FindTask(s.table, target, 0);
    if 1 <= sig < 20 && i != -1 && s.table[i].state != Dead {
      assert TaskOk(s.table, s.current, i);
      SlotInv(s, i, Signalled(s.table[i], sig));
    }
  }

  /** The heap returns a stack nobody has, and does not fail for a reused slot. */
  predicate Clean(s: State, c: Call) {
    c.Create? ==> if c.newStack == 0 then DeadSlot(s.table, 1) == -1 else c.newStack !in s.live
  }

  /** Between calls the running task is not itself waiting. */
  ghost predicate CallInv(s: State) {
    Inv(s) && (s.current > 0 ==> s.table[s.current].waitFor == 0)
  }

  /** Whoever runs after a yield is the idle task or a task that was ready. */
  lemma YieldCallInv(s: State, now: nat)
    requires Inv(s)
    ensures CallInv(DoYield(s, now))
  {
    YieldInv(s, now);
    var s' := DoYield(s, now);
    var ts := Swept(s, now);
    PickBest(ts, s.current);
    WakeInv(s, now);
    CleanupInv(s.(table := Wake(s.table, now)));
    var next := Pick(ts, s.current, 0);
    assert TaskOk(ts, s.current, next);
  }

  lemma SetThenYieldInv(s: State, t: Task, now: nat)
    requires Inv(s)
    requires var me := s.table[s.current];
      && t.id == me.id && t.stack == me.stack && t.priority == me.priority
      && (s.current > 0 && t.waitFor != 0 ==> t.state == Dead)
    ensures CallInv(DoYield(SetCurrent(s, t), now))
  {
    SetCurrentInv(s, t);
    YieldCallInv(SetCurrent(s, t), now);
  }

  lemma StepInv(s: State, c: Call, now: nat)
    requires CallInv(s) && Clean(s, c)
    ensures CallInv(Step(s, c, now))
  {
    var me := s.table[s.current];
    assert TaskOk(s.table, s.current, s.current);
    match c
    case Create(priority, newStack) => if newStack != 0 { CreateInv(s, priority, newStack); }
    case Yield => YieldCallInv(s, now);
    case Sleep(ticks) => SetThenYieldInv(s, me.(state := Sleeping, wake := now + ticks), now);
    case Wait(target) =>
      WaitInv(s, target, now);
      if Blocks(s, target) {
        BlockInv(s, target);
        YieldCallInv(SetCurrent(s, me.(state := Blocked, waitFor := target)), now);
      }
    case Exit(code) => SetThenYieldInv(s, me.(exitCode := code, state := Dead), now);
    case Signal(target, sig) => SignalInv(s, target, sig);
    case Adopt(slot, pml4, pending) => AdoptInv(s, slot, pml4, pending);
  }

  // ----- runs

  /** A timed call. */
  datatype Event = Event(call: Call, now: nat)

  ghost predicate Run(states: seq<State>, events: seq<Event>) {
    && |states| == |events| + 1 && CallInv(states[0])
    && forall k | 0 <= k < |events| ::
         states[k].current < |states[k].table| && Clean(states[k], events[k].call)
         && states[k + 1] == Step(states[k], events[k].call, events[k].now)
  }

  /** The invariant holds in every state of every run. */
  lemma {:induction false} RunInv(states: seq<State>, events: seq<Event>, k: nat)
    requires Run(states, events) && k < |states|
    ensures CallInv(states[k])
  {
    if k > 0 {
      RunInv(states, events, k - 1);
      StepInv(states[k - 1], events[k - 1].call, events[k - 1].now);
    }
  }

  // ----- fairness

  /** The decision a call makes, if it yields. */
  function DecisionOf(s: State, c: Call, now: nat): Decision
    requires s.current < |s.table|
  {
    var me := s.table[s.current];
    match c
    case Yield => Decision(Swept(s, now), s.current)
    case Sleep(ticks) => Decision(Swept(SetCurrent(s, me.(state := Sleeping, wake := now + ticks)), now), s.current)
    case Wait(target) =>
      if Blocks(s, target)
      then Decision(Swept(SetCurrent(s, me.(state := Blocked, waitFor := target)), now), s.current) else None
    case Exit(code) => Decision(Swept(SetCurrent(s, me.(exitCode := code, state := Dead)), now), s.current)
    case _ => None
  }

  /** Who runs after a call: the picked slot if it yields, the same one otherwise. */
  lemma DecisionStep(s: State, c: Call, now: nat)
    requires s.current < |s.table|
    ensures var d := DecisionOf(s, c, now); var s' := Step(s, c, now);
      if d.None? then s'.current == s.current
      else d.current == s.current && s'.current == Pick(d.table, d.current, 0)
  {
    var d := DecisionOf(s, c, now);
    if d.Decision? { PickBest(d.table, d.current); }
  }

  /** How many of the calls `a..b` of a run decide. */
  ghost function Decisions(states: seq<State>, events: seq<Event>, a: nat, b: nat): nat
    requires Run(states, events) && a <= b <= |events|
    decreases b - a
  {
    if a == b then 0
    else (if DecisionOf(states[a], events[a].call, events[a].now).None? then 0 else 1) + Decisions(states, events, a + 1, b)
  }

  /** In every run, while the number of slots is fixed and each decision passes over task
      `t` at its own priority, there are fewer decisions than the distance to `t`, so fewer
      than there are slots: then it is picked or a better priority is ready. */
  lemma {:induction false} PickedWithin(states: seq<State>, events: seq<Event>, t: nat, n: nat, a: nat, b: nat)
    requires Run(states, events) && a <= b <= |events| && states[a].current < n && t < n
    requires forall i | a <= i < b ::
               var d := DecisionOf(states[i], events[i].call, events[i].now); d.Decision? ==> PassesOver(d, t, n)
    ensures Decisions(states, events, a, b) < Distance(states[a].current, t, n) <= n
    decreases b - a
  {
    if a < b {
      var d := DecisionOf(states[a], events[a].call, events[a].now);
      DecisionStep(states[a], events[a].call, events[a].now);
      if d.Decision? { PickCloser(d.table, d.current, t); }
      PickedWithin(states, events, t, n, a + 1, b);
    }
  }

  // ----- no lost wakeup

  /** Slot `j` is blocked in a wait for task `k`. */
  predicate WaitingOn(s: State, j: nat, k: nat) {
    j < |s.table| && j != s.current && s.table[j].state == Blocked && s.table[j].waitFor == k && k != 0
  }

  /** Task `k` has been reaped with this exit code. */
  ghost predicate ReapedWith(s: State, k: nat, code: int) {
    exists i: nat :: 0 < i < |s.table| && s.table[i].id == k && s.table[i].state == Dead && s.table[i].stack == 0
                     && s.table[i].exitCode == code
  }

  /** Slot `j` has been told exit code `code` and has not been killed. */
  predicate Told(s: State, j: nat, code: int) {
    j < |s.table| && s.table[j].state != Dead && s.table[j].waitFor == 0 && s.table[j].exitCode == code
  }

  predicate Alive(s: State, j: nat) {
    j < |s.table| && s.table[j].state != Dead
  }

  /** What a yield leaves in slot `j`: the swept record, with a state changed only
      for the slot that leaves and the slot that comes. */
  lemma YieldSlot(s: State, now: nat, j: nat)
    requires s.current < |s.table| && j < |s.table|
    ensures var s' := DoYield(s, now); var t := CleanTask(Wake(s.table, now), s.current, |s.table|, j);
      && |s'.table| == |s.table|
      && s'.table[j] == t.(state := s'.table[j].state)
      && (|| s'.table[j].state == t.state
          || (j == s'.current && s'.table[j].state == Running)
          || (j == s.current && t.state == Running && s'.table[j].state == Ready))
      && (s'.current != s.current ==> s'.current == 0 || CleanTask(Wake(s.table, now), s.current, |s.table|, s'.current).state == Ready)
  {
    CleanupSlot(Wake(s.table, now), s.current, |s.table|, j);
    PickBest(Swept(s, now), s.current);
    var next := Pick(Swept(s, now), s.current, 0);
    CleanupSlot(Wake(s.table, now), s.current, |s.table|, next);
  }

  /** Some task can be picked. */
  ghost predicate Busy(ts: Table) { exists i: nat :: Candidate(ts, i) }

  lemma YieldWaiter(s: State, now: nat, j: nat, k: nat)
    requires Inv(s) && WaitingOn(s, j, k) && (j == 0 ==> Busy(Swept(s, now)))
    ensures var s' := DoYield(s, now);
      WaitingOn(s', j, k) || (Told(s', j, s'.table[j].exitCode) && ReapedWith(s', k, s'.table[j].exitCode))
  {
    var s', wk, n := DoYield(s, now), Wake(s.table, now), |s.table|;
    YieldSlot(s, now, j);
    PickBest(Swept(s, now), s.current);
    CleanupSlot(wk, s.current, n, j);
    var r := Reaped(wk, s.current, n, k);
    if r != -1 {
      YieldSlot(s, now, r);
      assert s'.table[r].id == k && s'.table[r].state == Dead && s'.table[r].stack == 0;
    }
  }

  lemma YieldTold(s: State, now: nat, j: nat, code: int)
    requires Inv(s) && Told(s, j, code) && (j == s.current ==> s.table[j].state != Dead)
    ensures Told(DoYield(s, now), j, code)
  {
    YieldSlot(s, now, j);
    assert TaskOk(s.table, s.current, j);
    var wk := Wake(s.table, now);
    assert Reaped(wk, s.current, |wk|, 0) == -1;
  }

  /** The call makes no decision, or one between tasks that are ready. */
  ghost predicate Feeds(s: State, c: Call, now: nat)
    requires s.current < |s.table|
  {
    var d := DecisionOf(s, c, now); d.Decision? ==> Busy(d.table)
  }

  /** A waiter stays blocked on its target, is killed, or is told the exit code in
      the very step that reaps the target. */
  lemma WaiterStep(s: State, c: Call, now: nat, j: nat, k: nat)
    requires CallInv(s) && Clean(s, c) && WaitingOn(s, j, k)
    requires j == 0 ==> Feeds(s, c, now)
    ensures var s' := Step(s, c, now);
      || WaitingOn(s', j, k)
      || !Alive(s', j)
      || (Told(s', j, s'.table[j].exitCode) && ReapedWith(s', k, s'.table[j].exitCode))
  {
    var me := s.table[s.current];
    assert TaskOk(s.table, s.current, s.current);
    match c
    case Create(priority, newStack) =>
    case Yield => YieldWaiter(s, now, j, k);
    case Sleep(ticks) =>
      SetCurrentInv(s, me.(state := Sleeping, wake := now + ticks));
      YieldWaiter(SetCurrent(s, me.(state := Sleeping, wake := now + ticks)), now, j, k);
    case Wait(target) =>
      if Blocks(s, target) {
        BlockInv(s, target);
        YieldWaiter(SetCurrent(s, me.(state := Blocked, waitFor := target)), now, j, k);
      }
    case Exit(code) =>
      SetCurrentInv(s, me.(exitCode := code, state := Dead));
      YieldWaiter(SetCurrent(s, me.(exitCode := code, state := Dead)), now, j, k);
    case Signal(target, sig) =>
    case Adopt(slot, pml4, pending) =>
  }

  /** Until it runs, a task that has been told an exit code keeps it. */
  lemma ToldStep(s: State, c: Call, now: nat, j: nat, code: int)
    requires CallInv(s) && Clean(s, c) && Told(s, j, code) && j != s.current
    ensures !Alive(Step(s, c, now), j) || Told(Step(s, c, now), j, code)
  {
    var me := s.table[s.current];
    assert TaskOk(s.table, s.current, s.current);
    match c
    case Create(priority, newStack) =>
    case Yield => YieldTold(s, now, j, code);
    case Sleep(ticks) =>
      SetCurrentInv(s, me.(state := Sleeping, wake := now + ticks));
      YieldTold(SetCurrent(s, me.(state := Sleeping, wake := now + ticks)), now, j, code);
    case Wait(target) =>
      if Blocks(s, target) {
        BlockInv(s, target);
        YieldTold(SetCurrent(s, me.(state := Blocked, waitFor := target)), now, j, code);
      }
    case Exit(c2) =>
      SetCurrentInv(s, me.(exitCode := c2, state := Dead));
      YieldTold(SetCurrent(s, me.(exitCode := c2, state := Dead)), now, j, code);
    case Signal(target, sig) =>
    case Adopt(slot, pml4, pending) =>
  }

  /** In every run, as long as the waiter is not killed: when it runs again, the
      task it waited for has been reaped and the waiter holds its exit code. The idle
      task needs that, while it waits, every decision finds a ready task. */
  lemma {:induction false} WaitReturns(states: seq<State>, events: seq<Event>, j: nat, k: nat, a: nat, m: nat)
    requires Run(states, events) && a <= m < |states| && WaitingOn(states[a], j, k)
    requires Alive(states[m], j) && forall i | a <= i <= m :: Alive(states[i], j)
    requires forall i | a <= i < m :: states[i].current != j
    requires j == 0 ==> forall i | a <= i < m && WaitingOn(states[i], j, k) :: Feeds(states[i], events[i].call, events[i].now)
    ensures WaitingOn(states[m], j, k) ||
            (Told(states[m], j, states[m].table[j].exitCode)
             && exists r: nat :: a < r <= m && ReapedWith(states[r], k, states[m].table[j].exitCode))
    ensures states[m].current == j ==> !WaitingOn(states[m], j, k)
  {
    if m > a {
      var p := m - 1;
      WaitReturns(states, events, j, k, a, p);
      RunInv(states, events, p);
      if WaitingOn(states[p], j, k) {
        WaiterStep(states[p], events[p].call, events[p].now, j, k);
      } else {
        ToldStep(states[p], events[p].call, events[p].now, j, states[p].table[j].exitCode);
      }
    }
  }

  /** Slot `j` is blocked without a task to wait for: in a wait for the idle task, whose
      id is 0, or stopped by a signal. */
  predicate Parked(s: State, j: nat) {
    0 < j < |s.table| && j != s.current && s.table[j].state == Blocked && s.table[j].waitFor == 0
  }

  lemma YieldParked(s: State, now: nat, j: nat)
    requires Inv(s) && Parked(s, j)
    ensures Parked(DoYield(s, now), j)
  {
    YieldSlot(s, now, j);
    var wk := Wake(s.table, now);
    assert forall i: nat | 0 < i < |wk| :: TaskOk(s.table, s.current, i) && wk[i].id != 0;
    assert Reaped(wk, s.current, |wk|, 0) == -1;
  }

  lemma ParkedStep(s: State, c: Call, now: nat, j: nat)
    requires CallInv(s) && Clean(s, c) && Parked(s, j)
    ensures Parked(Step(s, c, now), j) || !Alive(Step(s, c, now), j)
  {
    var me := s.table[s.current];
    assert TaskOk(s.table, s.current, s.current);
    match c
    case Create(priority, newStack) =>
    case Yield => YieldParked(s, now, j);
    case Sleep(ticks) =>
      SetCurrentInv(s, me.(state := Sleeping, wake := now + ticks));
      YieldParked(SetCurrent(s, me.(state := Sleeping, wake := now + ticks)), now, j);
    case Wait(target) =>
      if Blocks(s, target) {
        BlockInv(s, target);
        YieldParked(SetCurrent(s, me.(state := Blocked, waitFor := target)), now, j);
      }
    case Exit(code) =>
      SetCurrentInv(s, me.(exitCode := code, state := Dead));
      YieldParked(SetCurrent(s, me.(exitCode := code, state := Dead)), now, j);
    case Signal(target, sig) =>
    case Adopt(slot, pml4, pending) =>
  }

  /** A wait for the idle task parks the caller. */
  lemma WaitZeroParks(s: State, now: nat)
    requires CallInv(s) && s.current > 0 && Blocks(s, 0)
    ensures Parked(DoWait(s, 0, now), s.current)
  {
    var b := SetCurrent(s, s.table[s.current].(state := Blocked, waitFor := 0));
    BlockInv(s, 0);
    var wk := Wake(b.table, now);
    assert forall i: nat | 0 < i < |wk| :: TaskOk(b.table, b.current, i) && wk[i].id != 0;
    assert Reaped(wk, b.current, |wk|, 0) == -1;
    YieldBlocks(b, now, 0);
  }

  /** So it never returns: in every run after it the caller stays blocked until it is killed. */
  lemma WaitZeroForever(states: seq<State>, events: seq<Event>, a: nat, m: nat)
    requires Run(states, events) && a < m < |states| && events[a].call == Wait(0)
    requires states[a].current > 0 && Blocks(states[a], 0)
    requires forall i | a < i <= m :: Alive(states[i], states[a].current)
    ensures Parked(states[m], states[a].current)
  {
    RunInv(states, events, a);
    WaitZeroParks(states[a], events[a].now);
    ParkedForever(states, events, states[a].current, a + 1, m);
  }

  /** A parked task stays blocked until it is killed. */
  lemma {:induction false} ParkedForever(states: seq<State>, events: seq<Event>, j: nat, a: nat, m: nat)
    requires Run(states, events) && a <= m < |states| && Parked(states[a], j)
    requires forall i | a <= i <= m :: Alive(states[i], j)
    ensures Parked(states[m], j)
  {
    if m > a {
      ParkedForever(states, events, j, a, m - 1);
      RunInv(states, events, m - 1);
      ParkedStep(states[m - 1], events[m - 1].call, events[m - 1].now, j);
    }
  }

  /** In every state of every run the slot a task waits for is still there and unreaped;
      for the idle task, if it was there when the wait began. */
  lemma WaiterHasTarget(states: seq<State>, events: seq<Event>, m: nat, j: nat, k: nat)
    requires Run(states, events) && m < |states| && WaitingOn(states[m], j, k)
    requires j == 0 ==> Awaited(states[0].table, k) && forall i | 0 <= i <= m :: WaitingOn(states[i], j, k)
    ensures Awaited(states[m].table, k)
  {
    if j == 0 {
      IdleHasTarget(states, events, m, k);
    } else {
      RunInv(states, events, m);
      assert TaskOk(states[m].table, states[m].current, j);
    }
  }

  lemma {:induction false} IdleHasTarget(states: seq<State>, events: seq<Event>, m: nat, k: nat)
    requires Run(states, events) && m < |states| && Awaited(states[0].table, k)
    requires forall i | 0 <= i <= m :: WaitingOn(states[i], 0, k)
    ensures Awaited(states[m].table, k)
  {
    if m > 0 {
      IdleHasTarget(states, events, m - 1, k);
      RunInv(states, events, m - 1);
      AwaitedStep(states[m - 1], events[m - 1].call, events[m - 1].now, 0, k);
    }
  }

  lemma YieldAwaited(s: State, now: nat, j: nat, k: nat)
    requires Inv(s) && j < |s.table| && s.table[j].state == Blocked && s.table[j].waitFor == k != 0 && Awaited(s.table, k)
    requires DoYield(s, now).table[j].waitFor == k
    ensures Awaited(DoYield(s, now).table, k)
  {
    var i: nat :| 0 < i < |s.table| && s.table[i].id == k && s.table[i].stack != 0;
    YieldSlot(s, now, i);
    YieldSlot(s, now, j);
    assert DoYield(s, now).table[i].stack != 0;
  }

  /** As long as a waiter is not told, its target is there. */
  lemma AwaitedStep(s: State, c: Call, now: nat, j: nat, k: nat)
    requires CallInv(s) && Clean(s, c) && WaitingOn(s, j, k) && Awaited(s.table, k) && WaitingOn(Step(s, c, now), j, k)
    ensures Awaited(Step(s, c, now).table, k)
  {
    var me := s.table[s.current];
    match c
    case Create(priority, newStack) => QuietAwaited(s, c, now, k);
    case Yield => YieldAwaited(s, now, j, k);
    case Sleep(ticks) => SetYieldAwaited(s, me.(state := Sleeping, wake := now + ticks), now, j, k);
    case Wait(target) => if Blocks(s, target) { BlockYieldAwaited(s, target, now, j, k); }
    case Exit(code) => SetYieldAwaited(s, me.(exitCode := code, state := Dead), now, j, k);
    case Signal(target, sig) => QuietAwaited(s, c, now, k);
    case Adopt(slot, pml4, pending) => QuietAwaited(s, c, now, k);
  }

  /** A call that does not yield reaps nothing. */
  lemma QuietAwaited(s: State, c: Call, now: nat, k: nat)
    requires s.current < |s.table| && Clean(s, c) && Awaited(s.table, k) && (c.Create? || c.Signal? || c.Adopt?)
    ensures Awaited(Step(s, c, now).table, k)
  {
    var i: nat :| 0 < i < |s.table| && s.table[i].id == k && s.table[i].stack != 0;
    assert Step(s, c, now).table[i].id == k && Step(s, c, now).table[i].stack != 0;
  }

  lemma BlockYieldAwaited(s: State, target: nat, now: nat, j: nat, k: nat)
    requires CallInv(s) && WaitingOn(s, j, k) && Awaited(s.table, k) && Blocks(s, target)
    requires DoWait(s, target, now).table[j].waitFor == k
    ensures Awaited(DoWait(s, target, now).table, k)
  {
    var t := s.table[s.current].(state := Blocked, waitFor := target);
    BlockInv(s, target);
    StillAwaited(s, t, k);
    YieldAwaited(SetCurrent(s, t), now, j, k);
  }

  lemma StillAwaited(s: State, t: Task, k: nat)
    requires s.current < |s.table| && Awaited(s.table, k) && t.id == s.table[s.current].id && t.stack == s.table[s.current].stack
    ensures Awaited(SetCurrent(s, t).table, k)
  {
    var i: nat :| 0 < i < |s.table| && s.table[i].id == k && s.table[i].stack != 0;
    assert SetCurrent(s, t).table[i].id == k;
  }

  lemma SetYieldAwaited(s: State, t: Task, now: nat, j: nat, k: nat)
    requires CallInv(s) && WaitingOn(s, j, k) && Awaited(s.table, k)
    requires t.id == s.table[s.current].id && t.stack == s.table[s.current].stack && t.priority == s.table[s.current].priority
    requires t.waitFor == s.table[s.current].waitFor
    requires DoYield(SetCurrent(s, t), now).table[j].waitFor == k
    ensures Awaited(DoYield(SetCurrent(s, t), now).table, k)
  {
    assert TaskOk(s.table, s.current, s.current);
    SetCurrentInv(s, t);
    StillAwaited(s, t, k);
    YieldAwaited(SetCurrent(s, t), now, j, k);
  }

  /** How a wait begins: the caller is blocked and its target there, unless it is the idle
      task and nothing else is ready. */
  lemma WaitBegins(s: State, k: nat, now: nat)
    requires CallInv(s) && Blocks(s, k) && k != 0 && (s.current == 0 ==> Feeds(s, Wait(k), now))
    ensures WaitingOn(DoWait(s, k, now), s.current, k) && Awaited(DoWait(s, k, now).table, k)
  {
    var j, t := s.current, s.table[s.current].(state := Blocked, waitFor := k);
    BlockInv(s, k);
    TargetThere(s, k);
    StillAwaited(s, t, k);
    NotReaped(SetCurrent(s, t), now, FindTask(s.table, k, 0), k);
    YieldBlocks(SetCurrent(s, t), now, k);
    YieldAwaited(SetCurrent(s, t), now, j, k);
  }

  /** From the call on: when the caller of a wait runs again, its target has been reaped in
      the meantime and the caller holds its exit code. */
  lemma WaitCallReturns(states: seq<State>, events: seq<Event>, a: nat, m: nat, k: nat)
    requires Run(states, events) && a < m < |states| && events[a].call == Wait(k) && k != 0 && Blocks(states[a], k)
    requires var j := states[a].current;
      && states[m].current == j
      && (forall i | a < i <= m :: Alive(states[i], j)) && (forall i | a < i < m :: states[i].current != j)
      && (j == 0 ==> forall i | a <= i < m :: Feeds(states[i], events[i].call, events[i].now))
    ensures var j := states[a].current; var code := states[m].table[j].exitCode;
      Told(states[m], j, code) && exists r: nat :: a < r <= m && ReapedWith(states[r], k, code)
  {
    RunInv(states, events, a);
    WaitBegins(states[a], k, events[a].now);
    WaitReturns(states, events, states[a].current, k, a + 1, m);
  }

  lemma TargetThere(s: State, k: nat)
    requires Inv(s) && Blocks(s, k) && k != 0
    ensures Awaited(s.table, k)
  {
    assert TaskOk(s.table, s.current, FindTask(s.table, k, 0));
  }

  /** A task that yields in a wait whose target is not reaped stays in it. */
  lemma YieldBlocks(b: State, now: nat, k: nat)
    requires Inv(b) && b.table[b.current].state == Blocked && b.table[b.current].waitFor == k
    requires Reaped(Wake(b.table, now), b.current, |b.table|, k) == -1 && (b.current == 0 ==> Busy(Swept(b, now)))
    ensures var s' := DoYield(b, now);
      b.current < |s'.table| && s'.current != b.current && s'.table[b.current].state == Blocked && s'.table[b.current].waitFor == k
  {
    YieldSlot(b, now, b.current);
    CleanupSlot(Wake(b.table, now), b.current, |b.table|, b.current);
    PickBest(Swept(b, now), b.current);
  }

  /** A task that is not dead is not reaped. */
  lemma NotReaped(s: State, now: nat, i: nat, k: nat)
    requires Inv(s) && i < |s.table| && s.table[i].id == k && s.table[i].state != Dead
    ensures Reaped(Wake(s.table, now), s.current, |s.table|, k) == -1
  {
    var wk := Wake(s.table, now);
    assert Distinct(s.table);
    assert forall r: nat | r < |wk| :: wk[r].id == s.table[r].id;
  }

  /** A wait by the idle task ends early, or a decision resumes it early, exactly if the
      decision finds no ready task: the fallback takes it although it is blocked. */
  lemma IdleResumedIff(b: State, now: nat, k: nat)
    requires Inv(b) && b.table[0].state == Blocked && b.table[0].waitFor == k != 0
    ensures var s' := DoYield(b, now);
      s'.current == 0 && s'.table[0].waitFor == k <==> !Busy(Swept(b, now))
  {
    YieldSlot(b, now, 0);
    CleanupSlot(Wake(b.table, now), b.current, |b.table|, 0);
    PickBest(Swept(b, now), b.current);
    assert TaskOk(b.table, b.current, 0);
    if Reaped(Wake(b.table, now), b.current, |b.table|, k) != -1 { assert Candidate(Swept(b, now), 0); }
  }

  /** The idle task is the exception: with nothing ready it is resumed although it
      is still blocked and its target has not exited. */
  lemma IdleWaitReturnsEarly()
    ensures exists s: State, now: nat ::
      && CallInv(s) && s.current == 0 && Blocks(s, 1)
      && var s' := DoWait(s, 1, now); s'.current == 0 && s'.table[1].state != Dead && s'.table[0].waitFor == 1
  {
    var idle := Task(0, Running, 0, 0, 3, 0, 0, 0, false, 0, 0);
    var sleeper := Task(1, Sleeping, 5, 4096, 1, 0, 0, 0, false, 0, 0);
    var s := State([idle, sleeper], 0, 2, {4096});
    assert FindTask(s.table, 1, 0) == FindTask(s.table, 1, 1) == 1;
    assert Stacks(s.table) == {4096} by { assert s.table[1].stack == 4096; }
    assert CallInv(s);
    var b := SetCurrent(s, idle.(state := Blocked, waitFor := 1));
    YieldSlot(b, 0, 0);
    YieldSlot(b, 0, 1);
    PickBest(Swept(b, 0), 0);
    CleanupSlot(Wake(b.table, 0), 0, 2, 0);
    CleanupSlot(Wake(b.table, 0), 0, 2, 1);
    assert DoWait(s, 1, 0) == DoYield(b, 0);
  }

  /** A running task of the best priority that yields is passed over for a worse one. */
  lemma YieldRunsWorse(now: nat)
    ensures exists s: State ::
      && CallInv(s) && s.current == 1 && s.table[1].state == Running && s.table[1].priority == 0
      && var s' := DoYield(s, now); s'.current == 2 && s'.table[2].priority == 2 && s'.table[1].state == Ready
  {
    var first := Task(1, Running, 0, 4096, 0, 0, 0, 0, false, 0, 0);
    var second := Task(2, Ready, 0, 8192, 2, 0, 0, 0, false, 0, 0);
    var s := State([Idle(Ready), first, second], 1, 3, {4096, 8192});
    assert Stacks(s.table) == {4096, 8192} by { assert s.table[1].stack == 4096 && s.table[2].stack == 8192; }
    assert CallInv(s);
    YieldSlot(s, now, 1);
    YieldSlot(s, now, 2);
    CleanupSlot(s.table, 1, 3, 0);
    CleanupSlot(s.table, 1, 3, 1);
    CleanupSlot(s.table, 1, 3, 2);
    assert Wake(s.table, now) == s.table && Swept(s, now) == s.table;
    PickBest(s.table, 1);
    assert Candidate(s.table, 2);
  }

  // ----- a run in which a kernel task starts in a dead process's address space

  /** The state the scheduler starts in. */
  function Boot(): State {
    State([Task(0, Running, 0, 0, 3, 0, 0, 0, false, 0, 0)], 0, 1, {})
  }

  /** The second record after boot: task `id` on `stack` in address space 7. */
  function UserTask(id: nat, state: TaskState, stack: nat): Task {
    Task(id, state, 0, stack, 1, 0, 0, 0, true, 7, if id == 1 then 5 else -1)
  }

  function Idle(state: TaskState): Task { Task(0, state, 0, 0, 3, 0, 0, 0, false, 0, 0) }

  /** A yield with two slots, by its swept records and its pick. */
  lemma YieldTwo(s: State, now: nat, a: Task, b: Task, next: nat)
    requires |s.table| == 2 && s.current < 2 && next < 2
    requires CleanTask(Wake(s.table, now), s.current, 2, 0) == a && CleanTask(Wake(s.table, now), s.current, 2, 1) == b
    requires Best([a, b], s.current, next) && (forall r :: Best([a, b], s.current, r) ==> r == next)
    ensures DoYield(s, now) ==
            var live := s.live - Freed(Wake(s.table, now), s.current);
            if next == s.current then s.(table := [a, b], live := live)
            else State(SwitchTo([a, b], s.current, next), next, s.nextId, live)
  {
    CleanupSlot(Wake(s.table, now), s.current, 2, 0);
    CleanupSlot(Wake(s.table, now), s.current, 2, 1);
    assert Swept(s, now) == [a, b];
    PickBest([a, b], s.current);
  }

  /** The states of the run. */
  function Stage(i: nat): State {
    match i
    case 0 => Boot()
    case 1 => State([Idle(Running), Task(1, Ready, 0, 4096, 1, 0, 0, 0, false, 0, -1)], 0, 2, {4096})
    case 2 => State([Idle(Running), UserTask(1, Ready, 4096)], 0, 2, {4096})
    case 3 => State([Idle(Ready), UserTask(1, Running, 4096)], 1, 2, {4096})
    case 4 => State([Idle(Running), UserTask(1, Dead, 4096)], 0, 2, {4096})
    case 5 => State([Idle(Running), UserTask(1, Dead, 0)], 0, 2, {})
    case _ => State([Idle(Running), UserTask(2, Ready, 8192)], 0, 3, {8192})
  }

  function StageCall(i: nat): Call {
    match i
    case 0 => Create(1, 4096)
    case 1 => Adopt(1, 7, 5)
    case 2 => Yield
    case 3 => Exit(0)
    case 4 => Yield
    case _ => Create(1, 8192)
  }

  lemma StageStep(i: nat)
    requires i < 6
    ensures Clean(Stage(i), StageCall(i)) && Step(Stage(i), StageCall(i), 0) == Stage(i + 1)
  {
    match i
    case 0 => assert DeadSlot(Boot().table, 1) == -1;
    case 1 =>
    case 2 => StartStep();
    case 3 => ExitStep();
    case 4 => ReapStep();
    case _ => assert DeadSlot(Stage(5).table, 1) == 1;
  }

  lemma StartStep()
    ensures DoYield(Stage(2), 0) == Stage(3)
  {
    var s := Stage(2);
    assert Candidate(s.table, 1);
    YieldTwo(s, 0, s.table[0], s.table[1], 1);
  }

  lemma ExitStep()
    ensures Step(Stage(3), Exit(0), 0) == Stage(4)
  {
    var s := SetCurrent(Stage(3), UserTask(1, Dead, 4096));
    assert Candidate(s.table, 0);
    YieldTwo(s, 0, s.table[0], s.table[1], 0);
  }

  lemma ReapStep()
    ensures DoYield(Stage(4), 0) == Stage(5)
  {
    var s := Stage(4);
    var woken := Wake(s.table, 0);
    assert Reapable(woken, 0, 1) && woken[1].stack == 4096;
    assert woken[1].stack in Freed(woken, 0);
    YieldTwo(s, 0, s.table[0], s.table[1].(stack := 0), 0);
  }

  // ----- address spaces

  datatype Space = Space(pml4: nat, isUser: bool)

  const KERNEL := Space(0, false)

  /** The address space that slot `j` would run in. */
  function SpaceOf(ts: Table, j: nat): Space {
    if j < |ts| then Space(ts[j].pml4, ts[j].isUser) else KERNEL
  }

  predicate Adopts(s: State, c: Call, j: nat) {
    c.Adopt? && c.slot == j < |s.table|
  }

  lemma YieldSpace(s: State, now: nat, j: nat)
    requires s.current < |s.table|
    ensures SpaceOf(DoYield(s, now).table, j) == SpaceOf(s.table, j)
  {
    if j < |s.table| { CleanupSlot(Wake(s.table, now), s.current, |s.table|, j); }
  }

  /** No call but the loader's changes what a slot runs in. */
  lemma StepSpace(s: State, c: Call, now: nat, j: nat)
    requires s.current < |s.table| && Clean(s, c)
    ensures SpaceOf(Step(s, c, now).table, j) == if Adopts(s, c, j) then Space(c.pml4, true) else SpaceOf(s.table, j)
  {
    var me := s.table[s.current];
    match c
    case Create(priority, newStack) =>
    case Yield => YieldSpace(s, now, j);
    case Sleep(ticks) => YieldSpace(SetCurrent(s, me.(state := Sleeping, wake := now + ticks)), now, j);
    case Wait(target) =>
      if Blocks(s, target) { YieldSpace(SetCurrent(s, me.(state := Blocked, waitFor := target)), now, j); }
    case Exit(code) => YieldSpace(SetCurrent(s, me.(exitCode := code, state := Dead)), now, j);
    case Signal(target, sig) =>
    case Adopt(slot, pml4, pending) =>
  }

  lemma SpaceNext(before: Space, s: State, c: Call, now: nat, j: nat)
    requires s.current < |s.table| && Clean(s, c) && before == SpaceOf(s.table, j) && (before == KERNEL || before.isUser)
    ensures var x := SpaceOf(Step(s, c, now).table, j);
      (x == KERNEL || x.isUser) && (x == KERNEL <==> before == KERNEL && !Adopts(s, c, j))
  {
    StepSpace(s, c, now, j);
  }

  /** The address space belongs to the slot: in every run it is the kernel's exactly as
      long as no task in that slot, dead ones included, was given one. */
  lemma {:induction false} NeverAdoptedIff(states: seq<State>, events: seq<Event>, j: nat, k: nat)
    requires Run(states, events) && k < |states| && SpaceOf(states[0].table, j) == KERNEL
    ensures SpaceOf(states[k].table, j) == KERNEL || SpaceOf(states[k].table, j).isUser
    ensures SpaceOf(states[k].table, j) == KERNEL <==> forall i | 0 <= i < k :: !Adopts(states[i], events[i].call, j)
  {
    if k > 0 {
      var p := k - 1;
      NeverAdoptedIff(states, events, j, p);
      SpaceNext(SpaceOf(states[p].table, j), states[p], events[p].call, events[p].now, j);
    }
  }

  /** So a task created in a run starts in the kernel's address space exactly if no
      earlier task of its slot was given another one. */
  lemma CreatedCleanIff(states: seq<State>, events: seq<Event>, k: nat)
    requires Run(states, events) && (forall j: nat :: SpaceOf(states[0].table, j) == KERNEL)
    requires k < |events| && events[k].call.Create? && events[k].call.newStack != 0
    requires DeadSlot(states[k].table, 1) != -1 || |states[k].table| < MAX_TASKS
    ensures var slot := DeadSlot(states[k].table, 1); var at := if slot == -1 then |states[k].table| else slot;
      && at < |states[k + 1].table| && states[k + 1].table[at].id == states[k].nextId
      && (SpaceOf(states[k + 1].table, at) == KERNEL <==> slot == -1 || SpaceOf(states[k].table, slot) == KERNEL)
      && (SpaceOf(states[k + 1].table, at) == KERNEL <==> forall i | 0 <= i < k :: !Adopts(states[i], events[i].call, at))
  {
    var slot := DeadSlot(states[k].table, 1);
    var at := if slot == -1 then |states[k].table| else slot;
    NeverAdoptedIff(states, events, at, k);
    StepSpace(states[k], events[k].call, events[k].now, at);
  }

  /** Create a task, give it an address space, let it run and exit, reap it, and create a
      kernel task: it has the dead task's address space and counts as a user task. */
  lemma InheritingRun() returns (states: seq<State>, events: seq<Event>)
    ensures Run(states, events) && |events| == 6 && states[0] == Boot()
    ensures events[5].call == Create(1, 8192) && states[5] == State([Idle(Running), UserTask(1, Dead, 0)], 0, 2, {})
    ensures states[6].table == [Idle(Running), UserTask(2, Ready, 8192)]
  {
    states, events := seq(7, i requires 0 <= i => Stage(i)), seq(6, i requires 0 <= i => Event(StageCall(i), 0));
    forall i | 0 <= i < 6 ensures Clean(Stage(i), StageCall(i)) && Step(Stage(i), StageCall(i), 0) == Stage(i + 1) {
      StageStep(i);
    }
  }
}
