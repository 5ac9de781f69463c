/** The scheduler as it runs: a fixed task array updated in place, each method
    proved to take the step of `Sched`. */
module Scheduler {
  import opened Sched
  import opened Machine

  lemma WrapMod(current: nat, i: nat, n: nat)
    requires current < n && 1 <= i <= n
    ensures (current + i) % n == After(current, i, n)
  {
    if current + i >= n { assert (current + i) % n == (current + i - n) % n by { ModMinus(current + i, n); } }
  }

  lemma ModMinus(x: nat, n: nat)
    requires n > 0 && x >= n
    ensures x % n == (x - n) % n
  {
    var q, r := (x - n) / n, (x - n) % n;
    assert x == (q + 1) * n + r;
    QuotRem(q + 1, r, n);
  }

  class Scheduler {
    const tasks: array<Task>
    var count: nat
    var current: nat
    var nextId: nat
    /** Stacks the heap has handed out and not taken back. */
    ghost var live: set<nat>

    ghost function View(): State
      reads this, tasks
      requires count <= tasks.Length
    {
      State(tasks[..count], current, nextId, live)
    }

    /** Slots beyond the count are blank, so a new slot starts from the zero record. */
    ghost predicate Valid()
      reads this, tasks
    {
      && tasks.Length == MAX_TASKS && count <= MAX_TASKS && CallInv(View())
      && forall i | count <= i < MAX_TASKS :: tasks[i] == ZERO_TASK
    }

    constructor ()
      ensures Valid() && fresh(tasks)
      ensures count == 1 && current == 0 && nextId == 1 && live == {} && tasks[0].state == Running
    {
      var idle := Task(0, Running, 0, 0, 3, 0, 0, 0, false, 0, 0);
      tasks := new Task[MAX_TASKS](i => if i == 0 then idle else ZERO_TASK);
      count, current, nextId, live := 1, 0, 1, {};
    }

    method WakeSleepers(now: nat)
      requires count <= tasks.Length
      modifies tasks
      ensures tasks[..count] == Wake(old(tasks[..count]), now)
      ensures tasks[count..] == old(tasks[count..])
    {
      for i := 0 to count
        invariant forall j | 0 <= j < i :: tasks[j] == WakeTask(old(tasks[j]), now)
        invariant forall j | i <= j < tasks.Length :: tasks[j] == old(tasks[j])
      {
        if tasks[i].state == Sleeping && now >= tasks[i].wake {
          tasks[i] := tasks[i].(state := Ready);
        }
      }
    }

    /** Frees one dead slot after telling everyone who waits for it. */
    method ReapSlot(i: nat)
      requires i < count <= tasks.Length && tasks[i].state == Dead
      requires tasks[i].stack != 0 ==> tasks[i].stack in live
      modifies tasks, this`live
      ensures tasks[..count] == Reap(old(tasks[..count]), i)
      ensures tasks[count..] == old(tasks[count..])
      ensures live == old(live) - (if old(tasks[i].stack) != 0 then {old(tasks[i].stack)} else {})
    {
      for j := 0 to count
        invariant forall k | 0 <= k < j :: tasks[k] == Notify(old(tasks[k]), old(tasks[i]))
        invariant forall k | j <= k < tasks.Length :: tasks[k] == old(tasks[k])
        invariant live == old(live)
      {
        assert tasks[i] == old(tasks[i]);
        if tasks[j].state == Blocked && tasks[j].waitFor == tasks[i].id {
          tasks[j] := tasks[j].(state := Ready, exitCode := tasks[i].exitCode, waitFor := 0);
        }
      }
      if tasks[i].stack != 0 {
        live := live - {tasks[i].stack};
        tasks[i] := tasks[i].(stack := 0);
      }
      assert forall k | 0 <= k < count :: tasks[..count][k] == Reap(old(tasks[..count]), i)[k];
      assert forall k | count <= k < tasks.Length :: tasks[k] == old(tasks[k]);
    }

    method CleanupDeadTasks()
      requires count <= tasks.Length && Inv(View())
      modifies tasks, this`live
      ensures tasks[..count] == Cleanup(old(tasks[..count]), current, count)
      ensures tasks[count..] == old(tasks[count..])
      ensures live == old(live) - Freed(old(tasks[..count]), current)
    {
      ghost var ts := tasks[..count];
      NothingFreed(ts, current);
      for i := 1 to count
        invariant tasks[..count] == Cleanup(ts, current, i) && tasks[count..] == old(tasks[count..])
        invariant live == old(live) - FreedBelow(ts, current, i)
      {
        CleanupOne(old(View()), i);
      }
      FreedAll(ts, current);
    }

    /** Slot `i` of the cleanup pass over the state `s`. */
    method CleanupOne(ghost s: State, i: nat)
      requires count <= tasks.Length && Inv(s) && s.current == current && |s.table| == count && 1 <= i < count
      requires tasks[..count] == Cleanup(s.table, current, i) && live == s.live - FreedBelow(s.table, current, i)
      modifies tasks, this`live
      ensures tasks[..count] == Cleanup(s.table, current, i + 1) && tasks[count..] == old(tasks[count..])
      ensures live == s.live - FreedBelow(s.table, current, i + 1)
    {
      CleanupSlot(s.table, current, i, i);
      FreedStep(s, i);
      if tasks[i].state != Dead || i == current { return; }
      ReapSlot(i);
    }

    method PickNext(now: nat) returns (next: int)
      requires 0 < count <= tasks.Length && Inv(View())
      modifies tasks, this`live
      ensures tasks[..count] == Swept(old(View()), now) && tasks[count..] == old(tasks[count..])
      ensures live == old(live) - Freed(Wake(old(tasks[..count]), now), current)
      ensures next == Pick(tasks[..count], current, 0)
    {
      WakeInv(View(), now);
      WakeSleepers(now);
      CleanupDeadTasks();
      next := Choose();
    }

    /** The priority round-robin scan. */
    method Choose() returns (next: int)
      requires current < count <= tasks.Length
      ensures next == Pick(tasks[..count], current, 0)
    {
      ghost var ts := tasks[..count];
      for prio := 0 to PRIORITIES
        invariant Pick(ts, current, 0) == Pick(ts, current, prio)
      {
        for i := 1 to count + 1
          invariant FirstReady(ts, current, prio, 1) == FirstReady(ts, current, prio, i)
        {
          var idx := (current + i) % count;
          WrapMod(current, i, count);
          if tasks[idx].state == Ready && tasks[idx].priority == prio { return idx; }
        }
      }
      next := 0;
    }

    method Yield(now: nat)
      requires 0 < count <= tasks.Length && Inv(View())
      modifies tasks, this`live, this`current
      ensures View() == DoYield(old(View()), now) && tasks[count..] == old(tasks[count..])
    {
      var next := PickNext(now);
      PickBest(tasks[..count], current);
      if next == current { return; }
      var prev := current;
      ghost var ts := tasks[..count];
      if tasks[prev].state == Running {
        tasks[prev] := tasks[prev].(state := Ready);
      }
      current := next;
      tasks[next] := tasks[next].(state := Running);
      assert tasks[..count] == SwitchTo(ts, prev, next);
    }

    method SleepFor(ticks: nat, now: nat)
      requires Valid()
      modifies tasks, this`live, this`current
      ensures Valid() && View() == Step(old(View()), Sleep(ticks), now)
    {
      StepInv(View(), Sleep(ticks), now);
      SetCurrentInv(View(), tasks[current].(state := Sleeping, wake := now + ticks));
      SetThenYield(tasks[current].(state := Sleeping, wake := now + ticks), now);
    }

    /** Stores the current task's record and yields. */
    method SetThenYield(t: Task, now: nat)
      requires 0 < count <= tasks.Length && current < count && Inv(SetCurrent(View(), t))
      modifies tasks, this`live, this`current
      ensures View() == DoYield(SetCurrent(old(View()), t), now) && tasks[count..] == old(tasks[count..])
    {
      ghost var s, tail := View(), tasks[count..];
      tasks[current] := t;
      assert View() == SetCurrent(s, t) && tasks[count..] == tail;
      Yield(now);
    }

    /** Returns at once for a dead or unknown task; otherwise blocks, yields, and
        later finds the target's exit code in its own record. */
    method WaitFor(target: nat, now: nat) returns (blocked: bool, r: int)
      requires Valid()
      modifies tasks, this`live, this`current
      ensures Valid() && View() == Step(old(View()), Wait(target), now)
      ensures blocked == Blocks(old(View()), target)
      ensures !blocked ==> var i := FindTask(old(tasks[..count]), target, 0);
                r == if i == -1 then -1 else old(tasks[..count])[i].exitCode
    {
      StepInv(View(), Wait(target), now);
      ghost var s := View();
      var i := Find(target);
      if i == -1 { return false, -1; }
      if tasks[i].state == Dead { return false, tasks[i].exitCode; }
      BlockInv(s, target);
      SetThenYield(tasks[current].(state := Blocked, waitFor := target), now);
      return true, 0;
    }

    method Find(id: nat) returns (r: int)
      requires count <= tasks.Length
      ensures r == FindTask(tasks[..count], id, 0)
    {
      for i := 0 to count
        invariant FindTask(tasks[..count], id, 0) == FindTask(tasks[..count], id, i)
      {
        if tasks[i].id == id { return i; }
      }
      r := -1;
    }

    method ExitWith(code: int, now: nat)
      requires Valid()
      modifies tasks, this`live, this`current
      ensures Valid() && View() == Step(old(View()), Exit(code), now)
    {
      StepInv(View(), Exit(code), now);
      SetCurrentInv(View(), tasks[current].(exitCode := code, state := Dead));
      SetThenYield(tasks[current].(exitCode := code, state := Dead), now);
    }

    method SendSignal(target: nat, sig: int) returns (r: int)
      requires Valid()
      modifies tasks
      ensures Valid() && View() == DoSignal(old(View()), target, sig)
      ensures var i := FindTask(old(tasks[..count]), target, 0);
        r == if !(1 <= sig < 20) || i == -1 then -1 else if old(tasks[..count])[i].state == Dead then -2 else 0
    {
      SignalInv(View(), target, sig);
      ghost var s := View();
      if sig < 1 || sig >= 20 { return -1; }
      var i := Find(target);
      if i == -1 { return -1; }
      if tasks[i].state == Dead { return -2; }
      if sig == 9 {
        tasks[i] := tasks[i].(exitCode := 128 + sig, state := Dead);
      } else if sig == 19 {
        tasks[i] := tasks[i].(state := Blocked);
      } else if sig != 17 {
        tasks[i] := tasks[i].(exitCode := 128 + sig, state := Dead);
      }
      assert View() == s.(table := s.table[i := Signalled(s.table[i], sig)]);
      return 0;
    }

    /** The loader's stores into a task it has created. */
    method Adopt(slot: nat, pml4: nat, pending: int)
      requires Valid() && slot < count
      modifies tasks
      ensures Valid() && View() == DoAdopt(old(View()), slot, pml4, pending)
    {
      AdoptInv(View(), slot, pml4, pending);
      ghost var s := View();
      tasks[slot] := tasks[slot].(isUser := true, pml4 := pml4, pendingSlot := pending);
      assert View() == DoAdopt(s, slot, pml4, pending);
    }

    /** The first dead slot whose stack has been freed, or -1. */
    method FindDead() returns (slot: int)
      requires 0 < count <= tasks.Length
      ensures slot == DeadSlot(tasks[..count], 1)
    {
      for i := 1 to count
        invariant DeadSlot(tasks[..count], 1) == DeadSlot(tasks[..count], i)
      {
        if tasks[i].state == Dead && tasks[i].stack == 0 { return i; }
      }
      slot := -1;
    }

    /** `newStack` is the heap's answer to the request for a stack; 0 is a refusal,
        which spoils the table exactly when a dead slot was about to be reused. */
    method CreateTask(priority: int, newStack: nat) returns (slot: int)
      requires Valid() && (newStack != 0 ==> newStack !in live)
      modifies tasks, this`count, this`nextId, this`live
      ensures count <= tasks.Length && View() == DoCreate(old(View()), priority, newStack)
      ensures Valid() <==> newStack != 0 || DeadSlot(old(tasks[..count]), 1) == -1
      ensures slot == -1 <==> newStack == 0 || (DeadSlot(old(tasks[..count]), 1) == -1 && old(count) >= MAX_TASKS)
      ensures slot != -1 ==> 0 < slot < count && tasks[slot].id == old(nextId) && tasks[slot].stack == newStack
    {
      ghost var s := View();
      FailedCreateIff(s, priority);
      if newStack != 0 { StepInv(s, Create(priority, newStack), 0); }
      slot := FindDead();
      if slot < 0 {
        if count >= MAX_TASKS { return -1; }
        slot := count;
      }
      if newStack == 0 {
        tasks[slot] := ZERO_TASK;
        assert tasks[..count] == if slot < count then s.table[slot := ZERO_TASK] else s.table;
        return -1;
      }
      var t := Fill(tasks[slot], nextId, priority, newStack, tasks[current].id);
      Commit(slot, t);
    }

    method Commit(slot: nat, t: Task)
      requires tasks.Length == MAX_TASKS && slot <= count && slot < MAX_TASKS && count <= MAX_TASKS
      modifies tasks, this`count, this`nextId, this`live
      ensures slot < count <= MAX_TASKS && count == (if slot == old(count) then old(count) + 1 else old(count))
      ensures View() == State(PutTask(old(tasks[..count]), slot, t), current, old(nextId) + 1, old(live) + {t.stack})
      ensures forall i | count <= i < MAX_TASKS :: tasks[i] == old(tasks[i])
    {
      ghost var ts := tasks[..count];
      if slot >= count { count := slot + 1; }
      tasks[slot] := t;
      nextId := nextId + 1;
      live := live + {t.stack};
      assert tasks[..count] == PutTask(ts, slot, t);
    }
  }

  /** The stacks freed from slots below `n`. */
  function FreedBelow(ts: Table, current: nat, n: nat): set<nat>
    requires n <= |ts|
  {
    set i: nat | i < n && Reapable(ts, current, i) && ts[i].stack != 0 :: ts[i].stack
  }

  lemma NothingFreed(ts: Table, current: nat)
    requires |ts| >= 1
    ensures FreedBelow(ts, current, 1) == {}
  {}

  lemma FreedAll(ts: Table, current: nat)
    ensures FreedBelow(ts, current, |ts|) == Freed(ts, current)
  {}

  /** The next slot's contribution, and that its stack is still in the heap. */
  lemma FreedStep(s: State, i: nat)
    requires Inv(s) && 0 < i < |s.table|
    ensures FreedBelow(s.table, s.current, i + 1) ==
            FreedBelow(s.table, s.current, i) +
            (if Reapable(s.table, s.current, i) && s.table[i].stack != 0 then {s.table[i].stack} else {})
    ensures s.table[i].stack != 0 ==> s.table[i].stack in s.live - FreedBelow(s.table, s.current, i)
  {
    forall k: nat | k < i && s.table[k].stack != 0 ensures s.table[k].stack != s.table[i].stack {}
  }
}
