/** What runs of the scheduler do to a single task: when a sleeper wakes, what ends a
    task, which exit code its waiter gets, and how a task begins. */
module SchedRuns {
  import opened Sched

  /** The call hands over the processor. */
  predicate Decides(s: State, c: Call) {
    c.Yield? || c.Sleep? || c.Exit? || (c.Wait? && Blocks(s, c.target))
  }

  // ----- sleeping

  /** The call is a signal that kills or stops the task. */
  predicate Disturbs(c: Call, id: nat) {
    c.Signal? && c.target == id && 1 <= c.sig < 20 && c.sig != 17
  }

  /** Slot `j` sleeps until `due` and is not running. */
  predicate Asleep(s: State, j: nat, id: nat, due: nat) {
    j < |s.table| && s.table[j].id == id && s.table[j].state == Sleeping && s.table[j].wake == due && s.current != j
  }

  /** Slot `j` is ready, or has been picked. */
  predicate Awake(s: State, j: nat, id: nat) {
    && j < |s.table| && s.table[j].id == id
    && (s.table[j].state == Ready || (s.table[j].state == Running && s.current == j))
  }

  lemma YieldSleeper(b: State, now: nat, j: nat)
    requires Inv(b) && j < |b.table| && b.table[j].state == Sleeping && (j == 0 ==> Busy(Swept(b, now)))
    ensures var t := b.table[j];
      if now < t.wake then Asleep(DoYield(b, now), j, t.id, t.wake) else Awake(DoYield(b, now), j, t.id)
  {
    YieldSlot(b, now, j);
    CleanupSlot(Wake(b.table, now), b.current, |b.table|, j);
    PickBest(Swept(b, now), b.current);
  }

  lemma YieldReady(b: State, now: nat, j: nat)
    requires Inv(b) && j < |b.table| && b.table[j].state == Ready
    ensures Awake(DoYield(b, now), j, b.table[j].id)
  {
    YieldSlot(b, now, j);
  }

  /** What a call hands to its yield, if it makes a decision: another task's record is
      untouched. */
  lemma DecisionState(s: State, c: Call, now: nat) returns (b: State)
    requires CallInv(s) && Decides(s, c)
    ensures Inv(b) && b.current == s.current && |b.table| == |s.table| && Step(s, c, now) == DoYield(b, now)
    ensures forall j: nat | j < |s.table| && j != s.current :: b.table[j] == s.table[j]
    ensures c.Sleep? ==> b.table[s.current] == s.table[s.current].(state := Sleeping, wake := now + c.ticks)
    ensures c.Exit? ==> b.table[s.current] == s.table[s.current].(state := Dead, exitCode := c.code)
    ensures c.Yield? ==> b == s
    ensures b.table[s.current].id == s.table[s.current].id && b.nextId == s.nextId
    ensures c.Sleep? || c.Wait? ==> b.table[s.current].state != Dead
    ensures DecisionOf(s, c, now) == Decision(Swept(b, now), s.current)
  {
    var me := s.table[s.current];
    b := s;
    match c
    case Yield =>
    case Sleep(ticks) =>
      b := SetCurrent(s, me.(state := Sleeping, wake := now + ticks));
      SetCurrentInv(s, me.(state := Sleeping, wake := now + ticks));
    case Exit(code) =>
      b := SetCurrent(s, me.(exitCode := code, state := Dead));
      SetCurrentInv(s, me.(exitCode := code, state := Dead));
    case Wait(target) =>
      b := SetCurrent(s, me.(state := Blocked, waitFor := target));
      BlockInv(s, target);
    case _ =>
  }

  /** A call that makes no decision leaves every task alone but a new one, the target of a
      signal and the slot that is given an address space. */
  lemma QuietSlot(s: State, c: Call, now: nat, j: nat)
    requires CallInv(s) && Clean(s, c) && !Decides(s, c) && j < |s.table|
    ensures var s', t := Step(s, c, now), s.table[j];
      && s'.current == s.current && |s'.table| >= |s.table|
      && (!Disturbs(c, t.id) && t.state != Dead ==>
            s'.table[j] == t.(isUser := s'.table[j].isUser, pml4 := s'.table[j].pml4, pendingSlot := s'.table[j].pendingSlot))
  {}

  lemma SleeperStep(s: State, c: Call, now: nat, j: nat, id: nat, due: nat)
    requires CallInv(s) && Clean(s, c) && Asleep(s, j, id, due) && !Disturbs(c, id) && (j == 0 ==> Feeds(s, c, now))
    ensures if Decides(s, c) && now >= due then Awake(Step(s, c, now), j, id) else Asleep(Step(s, c, now), j, id, due)
  {
    if Decides(s, c) {
      var b := DecisionState(s, c, now);
      YieldSleeper(b, now, j);
    } else {
      QuietSlot(s, c, now, j);
    }
  }

  lemma AwakeStep(s: State, c: Call, now: nat, j: nat, id: nat)
    requires CallInv(s) && Clean(s, c) && Awake(s, j, id) && j != s.current && !Disturbs(c, id)
    ensures Awake(Step(s, c, now), j, id)
  {
    if Decides(s, c) {
      var b := DecisionState(s, c, now);
      YieldReady(b, now, j);
    } else {
      QuietSlot(s, c, now, j);
    }
  }

  /** Every decision of calls `a..m` was made before `due`. */
  ghost predicate AllBefore(states: seq<State>, events: seq<Event>, a: nat, m: nat, due: nat)
    requires Run(states, events) && m < |states|
  {
    forall i | a <= i < m && Decides(states[i], events[i].call) :: events[i].now < due
  }

  lemma OneMore(states: seq<State>, events: seq<Event>, a: nat, p: nat, due: nat)
    requires Run(states, events) && a <= p && p + 1 < |states|
    ensures AllBefore(states, events, a, p + 1, due) <==>
            AllBefore(states, events, a, p, due) && (Decides(states[p], events[p].call) ==> events[p].now < due)
  {}

  lemma SleepBegins(s: State, ticks: nat, now: nat)
    requires CallInv(s) && (s.current == 0 ==> Feeds(s, Sleep(ticks), now))
    ensures var j, s' := s.current, Step(s, Sleep(ticks), now);
      if ticks > 0 then Asleep(s', j, s.table[j].id, now + ticks) else Awake(s', j, s.table[j].id)
  {
    var b := DecisionState(s, Sleep(ticks), now);
    YieldSleeper(b, now, s.current);
  }

  /** In every run a task that sleeps for some ticks and is neither killed nor stopped is
      asleep exactly as long as all decisions since then were made before its time; from the
      first later one on it is ready until it is picked. (The idle task can also be picked
      asleep, when nothing is ready.) */
  lemma {:induction false} SleeperWakes(states: seq<State>, events: seq<Event>, a: nat, m: nat)
    requires Run(states, events) && a < m < |states| && events[a].call.Sleep?
    requires var j := states[a].current;
      && (forall i | a < i < m :: states[i].current != j && !Disturbs(events[i].call, states[a].table[j].id))
      && (j == 0 ==> forall i | a <= i < m :: Feeds(states[i], events[i].call, events[i].now))
    ensures var j, due := states[a].current, events[a].now + events[a].call.ticks; var id := states[a].table[j].id;
      if AllBefore(states, events, a, m, due) then Asleep(states[m], j, id, due) else Awake(states[m], j, id)
    decreases m
  {
    var j, due, p := states[a].current, events[a].now + events[a].call.ticks, m - 1;
    RunInv(states, events, p);
    OneMore(states, events, a, p, due);
    if p == a {
      SleepBegins(states[a], events[a].call.ticks, events[a].now);
    } else {
      SleeperWakes(states, events, a, p);
      var id := states[a].table[j].id;
      if AllBefore(states, events, a, p, due) {
        SleeperStep(states[p], events[p].call, events[p].now, j, id, due);
      } else {
        AwakeStep(states[p], events[p].call, events[p].now, j, id);
      }
    }
  }

  // ----- the end of a task

  /** A signal that ends its target: any but those that are ignored (17) or stop it (19). */
  predicate Deadly(sig: int) { 1 <= sig < 20 && sig != 17 && sig != 19 }

  /** The call ends the task in slot `i`: its own exit, or a deadly signal. */
  predicate Ends(s: State, c: Call, i: nat) {
    && i < |s.table|
    && ((c.Exit? && s.current == i)
        || (c.Signal? && c.target == s.table[i].id && Deadly(c.sig) && s.table[i].state != Dead))
  }

  /** The exit code of a task that ends so. */
  function EndCode(c: Call): int
    requires c.Exit? || c.Signal?
  {
    if c.Exit? then c.code else 128 + c.sig
  }

  /** Slot `i` holds the remains of task `id`, which is not running. */
  predicate Ended(s: State, i: nat, id: nat, code: int) {
    0 < i < |s.table| && s.table[i].id == id && s.table[i].state == Dead && s.table[i].exitCode == code && i != s.current
  }

  lemma YieldEnded(b: State, now: nat, i: nat)
    requires Inv(b) && 0 < i < |b.table| && b.table[i].state == Dead
    ensures Ended(DoYield(b, now), i, b.table[i].id, b.table[i].exitCode)
  {
    YieldSlot(b, now, i);
    CleanupSlot(Wake(b.table, now), b.current, |b.table|, i);
    PickBest(Swept(b, now), b.current);
  }

  lemma YieldAlive(b: State, now: nat, i: nat)
    requires Inv(b) && i < |b.table| && b.table[i].state != Dead
    ensures var s' := DoYield(b, now); i < |s'.table| && s'.table[i].state != Dead && s'.table[i].id == b.table[i].id
  {
    YieldSlot(b, now, i);
  }

  /** A live task is dead after a call exactly if the call ends it, and has that code. */
  lemma EndsIff(s: State, c: Call, now: nat, i: nat)
    requires CallInv(s) && Clean(s, c) && 0 < i < |s.table| && s.table[i].state != Dead
    ensures var s' := Step(s, c, now);
      && i < |s'.table| && s'.table[i].id == s.table[i].id
      && (s'.table[i].state == Dead <==> Ends(s, c, i))
      && (Ends(s, c, i) ==> s'.table[i].exitCode == EndCode(c))
      && (s'.table[i].state == Dead && s'.current == i ==> c.Signal? && s.current == i)
  {
    if Decides(s, c) {
      var b := DecisionState(s, c, now);
      if c.Exit? && s.current == i { YieldEnded(b, now, i); } else { YieldAlive(b, now, i); }
    } else if c.Signal? {
      assert Distinct(s.table);
    }
  }

  /** A task that has signalled itself to death still runs up to its next decision: a yield
      or an exit makes it final, a sleep or a wait revokes it. */
  lemma SelfSignalIff(s: State, c: Call, now: nat)
    requires CallInv(s) && s.current > 0 && s.table[s.current].state == Dead && Decides(s, c)
    ensures var i, t := s.current, s.table[s.current]; var s' := Step(s, c, now);
      && (c.Yield? ==> Ended(s', i, t.id, t.exitCode)) && (c.Exit? ==> Ended(s', i, t.id, c.code))
      && (i < |s'.table| && s'.table[i].state == Dead <==> c.Yield? || c.Exit?)
  {
    var b := DecisionState(s, c, now);
    if c.Yield? || c.Exit? { YieldEnded(b, now, s.current); } else { YieldAlive(b, now, s.current); }
  }

  lemma EndedStep(s: State, c: Call, now: nat, i: nat, id: nat, code: int)
    requires CallInv(s) && Clean(s, c) && Ended(s, i, id, code)
    ensures Ended(Step(s, c, now), i, id, code) || (i < |Step(s, c, now).table| && Step(s, c, now).table[i].id != id)
  {
    assert s.table[i].id < s.nextId;
    if Decides(s, c) {
      var b := DecisionState(s, c, now);
      YieldEnded(b, now, i);
    } else if c.Signal? {
      assert Distinct(s.table);
    }
  }

  /** A stop signal is for good: a task that another one stops, and that was not waiting,
      stays blocked in every run until it is killed. */
  lemma StopIsForever(states: seq<State>, events: seq<Event>, a: nat, m: nat, j: nat)
    requires Run(states, events) && a < m < |states| && 0 < j < |states[a].table| && j != states[a].current
    requires events[a].call == Signal(states[a].table[j].id, 19) && states[a].table[j].waitFor == 0
    requires forall i | a <= i <= m :: Alive(states[i], j)
    ensures Parked(states[m], j)
  {
    RunInv(states, events, a);
    OneHome(states[a], FindTask(states[a].table, states[a].table[j].id, 0), j);
    ParkedForever(states, events, j, a + 1, m);
  }

  // ----- identities

  /** An id stays in its slot, and only new ids come in. */
  lemma IdStep(s: State, c: Call, now: nat, x: nat)
    requires CallInv(s) && Clean(s, c) && x < |Step(s, c, now).table|
    ensures var s' := Step(s, c, now);
      && s.nextId <= s'.nextId && |s.table| <= |s'.table|
      && ((x < |s.table| && s'.table[x].id == s.table[x].id) || s'.table[x].id == s.nextId)
  {
    if Decides(s, c) {
      var b := DecisionState(s, c, now);
      YieldIds(b, now, x);
      assert b.table[x].id == s.table[x].id;
    } else {
      QuietIds(s, c, now, x);
    }
  }

  lemma YieldIds(b: State, now: nat, x: nat)
    requires Inv(b) && x < |DoYield(b, now).table|
    ensures var s' := DoYield(b, now);
      s'.nextId == b.nextId && |s'.table| == |b.table| && s'.table[x].id == b.table[x].id
  {
    PickBest(Swept(b, now), b.current);
    YieldSlot(b, now, x);
  }

  lemma QuietIds(s: State, c: Call, now: nat, x: nat)
    requires CallInv(s) && Clean(s, c) && !Decides(s, c) && x < |Step(s, c, now).table|
    ensures var s' := Step(s, c, now);
      && s.nextId <= s'.nextId && |s.table| <= |s'.table|
      && ((x < |s.table| && s'.table[x].id == s.table[x].id) || s'.table[x].id == s.nextId)
  {}

  /** In every run an id that was in slot `i` is later found nowhere else. */
  lemma {:induction false} IdHome(states: seq<State>, events: seq<Event>, a: nat, m: nat, i: nat, x: nat)
    requires Run(states, events) && a <= m < |states| && i < |states[a].table| && x < |states[m].table|
    requires states[m].table[x].id == states[a].table[i].id
    ensures x == i && states[a].nextId <= states[m].nextId
    decreases m
  {
    RunInv(states, events, a);
    NextIdGrows(states, events, a, m);
    if m > a {
      var p := m - 1;
      NextIdGrows(states, events, a, p);
      RunInv(states, events, p);
      IdStep(states[p], events[p].call, events[p].now, x);
      KnownId(states[a], i, states[p].nextId);
      IdHome(states, events, a, p, i, x);
    } else {
      OneHome(states[a], i, x);
    }
  }

  lemma KnownId(s: State, i: nat, later: nat)
    requires Inv(s) && i < |s.table| && s.nextId <= later
    ensures s.table[i].id < later
  {
    assert TaskOk(s.table, s.current, i);
  }

  lemma OneHome(s: State, i: nat, x: nat)
    requires Inv(s) && i < |s.table| && x < |s.table| && s.table[i].id == s.table[x].id
    ensures x == i
  {
    assert Distinct(s.table);
  }

  lemma {:induction false} NextIdGrows(states: seq<State>, events: seq<Event>, a: nat, m: nat)
    requires Run(states, events) && a <= m < |states|
    ensures states[a].nextId <= states[m].nextId && |states[a].table| <= |states[m].table|
    decreases m
  {
    if m > a {
      NextIdGrows(states, events, a, m - 1);
      RunInv(states, events, m - 1);
      StepInv(states[m - 1], events[m - 1].call, events[m - 1].now);
      IdStep(states[m - 1], events[m - 1].call, events[m - 1].now, 0);
    }
  }

  /** In every run a task that has ended stays dead with its code until its slot is reused. */
  lemma {:induction false} EndedStays(states: seq<State>, events: seq<Event>, a: nat, m: nat, i: nat, id: nat, code: int)
    requires Run(states, events) && a <= m < |states| && Ended(states[a], i, id, code)
    ensures i < |states[m].table| && (states[m].table[i].id == id ==> Ended(states[m], i, id, code))
    decreases m
  {
    NextIdGrows(states, events, a, m);
    if m > a && states[m].table[i].id == id {
      var p := m - 1;
      EndedStays(states, events, a, p, i, id, code);
      RunInv(states, events, a);
      RunInv(states, events, p);
      NextIdGrows(states, events, a, p);
      IdStep(states[p], events[p].call, events[p].now, i);
      EndedStep(states[p], events[p].call, events[p].now, i, id, code);
    }
  }

  /** In every run: if task `k`, while another waits for it, exits or is ended by a signal
      from another task, the waiter's next turn begins with exactly that exit code. */
  lemma WaiterGetsCode(states: seq<State>, events: seq<Event>, a: nat, e: nat, m: nat, i: nat, k: nat)
    requires Run(states, events) && a < e < m < |states| && events[a].call == Wait(k) && k != 0 && Blocks(states[a], k)
    requires var j := states[a].current;
      && states[m].current == j
      && (forall x | a < x <= m :: Alive(states[x], j)) && (forall x | a < x < m :: states[x].current != j)
      && (j == 0 ==> forall x | a <= x < m :: Feeds(states[x], events[x].call, events[x].now))
    requires Ends(states[e], events[e].call, i) && states[e].table[i].id == k
    requires events[e].call.Signal? ==> states[e].current != i
    ensures states[m].table[states[a].current].exitCode == EndCode(events[e].call)
  {
    var code := states[m].table[states[a].current].exitCode;
    WaitCallReturns(states, events, a, m, k);
    var r: nat :| a < r <= m && ReapedWith(states[r], k, code);
    var x := ReapedEnded(states, events, r, k, code);
    var home := FindTask(states[a].table, k, 0);
    IdHome(states, events, a, e, home, i);
    IdHome(states, events, a, r, home, x);
    EndedNow(states, events, e, i, k);
    if r <= e {
      EndedStays(states, events, r, e, i, k, code);
    } else {
      EndedStays(states, events, e + 1, r, i, k, EndCode(events[e].call));
    }
  }

  lemma ReapedEnded(states: seq<State>, events: seq<Event>, r: nat, k: nat, code: int) returns (x: nat)
    requires Run(states, events) && r < |states| && ReapedWith(states[r], k, code)
    ensures Ended(states[r], x, k, code)
  {
    RunInv(states, events, r);
    var s := states[r];
    x :| 0 < x < |s.table| && s.table[x].id == k && s.table[x].state == Dead && s.table[x].stack == 0
         && s.table[x].exitCode == code;
    assert TaskOk(states[r].table, states[r].current, x);
  }

  lemma EndedNow(states: seq<State>, events: seq<Event>, e: nat, i: nat, k: nat)
    requires Run(states, events) && e + 1 < |states| && Ends(states[e], events[e].call, i) && states[e].table[i].id == k != 0
    requires events[e].call.Signal? ==> states[e].current != i
    ensures Ended(states[e + 1], i, k, EndCode(events[e].call))
  {
    RunInv(states, events, e);
    var s, c, now := states[e], events[e].call, events[e].now;
    assert TaskOk(s.table, s.current, i);
    if s.table[i].state != Dead {
      EndsIff(s, c, now, i);
    } else {
      SelfSignalIff(s, c, now);
    }
  }

  // ----- the beginning of a task

  /** A creation that goes ahead puts one new task into a slot that was free, ready to run,
      with the next id, the stack it was given and the priority asked for, as far as there is
      one, and changes no other task. */
  lemma CreatedTask(s: State, priority: int, newStack: nat)
    requires Inv(s) && newStack != 0
    ensures var s' := DoCreate(s, priority, newStack); var at := FindTask(s'.table, s.nextId, 0);
      && (at != -1 <==> |s.table| < 64 || exists i: nat :: 0 < i < |s.table| && s.table[i].state == Dead && s.table[i].stack == 0)
      && (at == -1 ==> s' == s)
      && (at != -1 ==>
            var t := s'.table[at];
            && 0 < at && (at < |s.table| ==> s.table[at].state == Dead && s.table[at].stack == 0)
            && t.state == Ready && t.stack == newStack && t.exitCode == 0 && t.waitFor == 0
            && t.parentId == s.table[s.current].id
            && t.priority == (if priority < 0 then 0 else if priority > 3 then 3 else priority)
            && s'.nextId == s.nextId + 1 && s'.current == s.current
            && forall i: nat | i < |s.table| && i != at :: s'.table[i] == s.table[i])
  {
    var s', slot := DoCreate(s, priority, newStack), DeadSlot(s.table, 1);
    assert forall i: nat | i < |s.table| :: s.table[i].id < s.nextId;
    if slot == -1 && |s.table| >= MAX_TASKS {
      assert FindTask(s.table, s.nextId, 0) == -1;
    } else {
      var at := if slot == -1 then |s.table| else slot;
      assert s'.table[at].id == s.nextId;
    }
  }
}
