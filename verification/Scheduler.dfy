/** The scheduler of src/kernel/task.c in its own form: arrays of task fields, a doubly
    linked ready queue threaded through them, and loops over the pool. */
module Scheduler {
  import opened Common
  import opened Tasks

  /** The element at place i, or the null pointer beyond the ends. */
  function At(q: seq<nat>, i: int): int { if 0 <= i < |q| then q[i] else -1 }

  predicate Slots(xs: seq<int>) { |xs| == MAX_TASKS }

  /** At place i of the queue the two links point to the neighbours. */
  ghost predicate LinkOk(q: seq<nat>, next: seq<int>, prev: seq<int>, i: int)
    requires Slots(next) && Slots(prev)
  {
    0 <= i < |q| && q[i] < MAX_TASKS ==> next[q[i]] == At(q, i + 1) && prev[q[i]] == At(q, i - 1)
  }

  ghost predicate Spelled(q: seq<nat>, next: seq<int>, prev: seq<int>)
    requires Slots(next) && Slots(prev)
  {
    forall i {:trigger LinkOk(q, next, prev, i)} :: LinkOk(q, next, prev, i)
  }

  function Put(xs: seq<int>, i: int, x: int): (r: seq<int>)
    ensures |r| == |xs|
  {
    if 0 <= i < |xs| then xs[i := x] else xs
  }

  lemma LinkLast(q: seq<nat>, next: seq<int>, prev: seq<int>, t: nat)
    requires QueueOk(q) && Slots(next) && Slots(prev) && Spelled(q, next, prev)
    requires t < MAX_TASKS && t !in q
    ensures Spelled(q + [t], Put(Put(next, t, -1), At(q, |q| - 1), t), Put(prev, t, At(q, |q| - 1)))
  {
    var r, n, p := q + [t], Put(Put(next, t, -1), At(q, |q| - 1), t), Put(prev, t, At(q, |q| - 1));
    forall i ensures LinkOk(r, n, p, i) {
      assert LinkOk(q, next, prev, i);
      if 0 <= i < |q| { assert q[i] != t; }
    }
  }

  lemma UnlinkOne(q: seq<nat>, next: seq<int>, prev: seq<int>, k: nat)
    requires QueueOk(q) && Slots(next) && Slots(prev) && Spelled(q, next, prev) && k < |q|
    ensures var a, b := At(q, k as int - 1), At(q, k + 1);
      Spelled(q[..k] + q[k + 1..], Put(Put(next, a, b), q[k], -1), Put(Put(prev, b, a), q[k], -1))
  {
    var a, b := At(q, k as int - 1), At(q, k + 1);
    var r, n, p := q[..k] + q[k + 1..], Put(Put(next, a, b), q[k], -1), Put(Put(prev, b, a), q[k], -1);
    forall i ensures LinkOk(r, n, p, i) {
      if 0 <= i < |r| {
        var j := if i < k then i else i + 1;
        assert r[i] == q[j] && LinkOk(q, next, prev, j);
        assert q[j] != q[k] && (q[j] == a <==> j == k - 1) && (q[j] == b <==> j == k + 1);
      }
    }
  }

  lemma Unlinked(q: seq<nat>, next: seq<int>, prev: seq<int>, t: nat)
    requires QueueOk(q) && Slots(next) && Slots(prev) && Spelled(q, next, prev) && t in q
    ensures t < MAX_TASKS && QueueOk(Without(q, t))
    ensures var a, b, r := prev[t], next[t], Without(q, t);
      && -1 <= a < MAX_TASKS && -1 <= b < MAX_TASKS
      && At(r, 0) == (if a == -1 then b else At(q, 0))
      && At(r, |r| - 1) == (if b == -1 then a else At(q, |q| - 1))
      && Spelled(r, Put(Put(next, a, b), t, -1), Put(Put(prev, b, a), t, -1))
  {
    hide Spelled, Tasks.QueueOk, Put;
    var k := First(q, t);
    WithoutExact(q, t);
    UnlinkOne(q, next, prev, k);
    LinkAt(q, next, prev, k);
  }

  lemma LinkAt(q: seq<nat>, next: seq<int>, prev: seq<int>, k: nat)
    requires QueueOk(q) && Slots(next) && Slots(prev) && Spelled(q, next, prev) && k < |q|
    ensures q[k] < MAX_TASKS && next[q[k]] == At(q, k + 1) < MAX_TASKS && prev[q[k]] == At(q, k as int - 1) < MAX_TASKS
  {
    assert LinkOk(q, next, prev, k);
  }

  lemma UnlinkFirst(q: seq<nat>, next: seq<int>, prev: seq<int>)
    requires QueueOk(q) && Slots(next) && Slots(prev) && Spelled(q, next, prev) && q != []
    ensures next[q[0]] == At(q, 1) && QueueOk(q[1..]) && At(q[1..], 0) == At(q, 1)
    ensures |q| > 1 ==> At(q[1..], |q| - 2) == At(q, |q| - 1)
    ensures Spelled(q[1..], Put(next, q[0], -1), Put(Put(prev, At(q, 1), -1), q[0], -1))
  {
    assert LinkOk(q, next, prev, 0);
    hide Spelled;
    UnlinkOne(q, next, prev, 0);
    assert Put(next, -1, At(q, 1)) == next;
    assert q[..0] + q[1..] == q[1..];
  }

  lemma UnlinkNone(q: seq<nat>, next: seq<int>, prev: seq<int>, t: nat)
    requires Slots(next) && Slots(prev) && Spelled(q, next, prev) && t < MAX_TASKS && t !in q
    ensures Spelled(q, Put(next, t, -1), Put(prev, t, -1))
  {
    forall i ensures LinkOk(q, Put(next, t, -1), Put(prev, t, -1), i) { assert LinkOk(q, next, prev, i); }
  }

  lemma NextOne(q: seq<nat>, woken: seq<nat>, j: nat)
    requires QueueOk(q + woken) && j < |woken|
    ensures woken[j] !in q + woken[..j] && 0 < woken[j] < MAX_TASKS
    ensures q + woken[..j] + [woken[j]] == q + woken[..j + 1]
  {
    var all := q + woken;
    assert all[|q| + j] == woken[j];
    forall k | 0 <= k < |q| + j ensures (q + woken[..j])[k] != woken[j] { assert all[k] == (q + woken[..j])[k]; }
  }

  /** What waiting for a child finds. */
  datatype Collected = Ended(slot: nat) | NoneEnded | NoChild

  /** Slot u holds a child of the caller that it waits for. */
  ghost predicate Awaited(s: Sched, pid: int, u: int)
    requires Shape(s)
  {
    0 <= u < MAX_TASKS && s.status[u] != Unused && s.parent[u] == s.current && (pid <= 0 || pid == u)
  }

  class Pool {
    const status: array<Status>
    const wake: array<nat>
    const parent: array<int>
    const next: array<int>
    const prev: array<int>
    var head: int
    var tail: int
    var current: int
    var pending: int
    var active: int
    ghost var queue: seq<nat>

    ghost predicate Arrays() {
      && status.Length == wake.Length == parent.Length == next.Length == prev.Length == MAX_TASKS
      && parent != next && parent != prev && next != prev
    }

    /** The links spell the queue in both directions. */
    ghost predicate Linked()
      reads this`head, this`tail, this`queue, next, prev
    {
      && Arrays() && QueueOk(queue)
      && head == At(queue, 0) && tail == At(queue, |queue| - 1)
      && Spelled(queue, next[..], prev[..])
    }

    ghost function State(): Sched
      reads this, status, wake, parent
    {
      Sched(status[..], wake[..], parent[..], queue, current, pending, active)
    }

    ghost predicate Valid()
      reads this, status, wake, parent, next, prev
    {
      Linked() && Inv(State())
    }

    /** task_init. */
    constructor ()
      ensures Valid() && State() == Booted()
    {
      status := new Status[MAX_TASKS](i => if i == IDLE then Ready else Unused);
      wake := new nat[MAX_TASKS](_ => 0);
      parent := new int[MAX_TASKS](_ => -1);
      next := new int[MAX_TASKS](_ => -1);
      prev := new int[MAX_TASKS](_ => -1);
      head, tail, current, pending, active, queue := -1, -1, -1, -1, 1, [];
      new;
      BootedOk();
      assert State() == Booted();
    }

    // -------------------------------------------------------------- ready queue

    method QueueAdd(t: nat)
      requires Linked() && 0 < t < MAX_TASKS && t !in queue
      modifies this`head, this`tail, this`queue, next, prev
      ensures Linked() && queue == if status[t] == Ready then old(queue) + [t] else old(queue)
    {
      if status[t] != Ready { return; }
      LinkLast(queue, next[..], prev[..], t);
      ghost var n := Put(Put(next[..], t, -1), tail, t);
      ghost var p := Put(prev[..], t, tail);
      next[t] := -1;
      prev[t] := tail;
      if tail != -1 { next[tail] := t; } else { head := t; }
      tail := t;
      queue := queue + [t];
      assert next[..] == n && prev[..] == p;
      hide Spelled;
    }

    method QueueRemove(t: nat)
      requires Linked() && t in queue
      modifies this`head, this`tail, this`queue, next, prev
      ensures Linked() && queue == Without(old(queue), t)
    {
      hide Spelled, Put, Tasks.QueueOk, At, Without;
      Unlinked(queue, next[..], prev[..], t);
      var a, b := prev[t], next[t];
      Bypass(t);
      if a == -1 { head := b; }
      if b == -1 { tail := a; }
      queue := Without(queue, t);
    }

    /** The neighbours of t point to each other and t to none. */
    method Bypass(t: nat)
      requires Arrays() && t < MAX_TASKS && -1 <= next[t] < MAX_TASKS && -1 <= prev[t] < MAX_TASKS
      modifies next, prev
      ensures var a, b := old(prev[t]), old(next[t]);
        next[..] == Put(Put(old(next[..]), a, b), t, -1) && prev[..] == Put(Put(old(prev[..]), b, a), t, -1)
    {
      var a, b := prev[t], next[t];
      if a != -1 { next[a] := b; }
      if b != -1 { prev[b] := a; }
      next[t] := -1;
      prev[t] := -1;
    }

    method QueuePop() returns (t: int)
      requires Linked()
      modifies this`head, this`tail, this`queue, next, prev
      ensures Linked() && t == At(old(queue), 0)
      ensures queue == if old(queue) == [] then [] else old(queue)[1..]
    {
      t := head;
      if t != -1 {
        UnlinkFirst(queue, next[..], prev[..]);
        hide Spelled, Tasks.QueueOk;
        var b := next[t];
        ghost var n := Put(next[..], t, -1);
        ghost var p := Put(Put(prev[..], b, -1), t, -1);
        head := b;
        if b != -1 { prev[b] := -1; } else { tail := -1; }
        next[t], prev[t] := -1, -1;
        queue := queue[1..];
        assert next[..] == n;
        assert prev[..] == p;
      }
    }

    // -------------------------------------------------------------- slots

    /** task_alloc. */
    method Alloc() returns (t: int)
      requires Arrays()
      modifies status, wake, parent, this`active
      ensures t == FindSlot(old(status[..]), 0)
      ensures t == -1 ==> State() == old(State())
      ensures t != -1 ==> State() == old(State()).(status := old(status[..])[t := Ready], wake := old(wake[..])[t := 0],
                                       parent := old(parent[..])[t := -1], active := old(active) + 1)
    {
      t := 0;
      while t < MAX_TASKS
        invariant 0 <= t <= MAX_TASKS
        invariant FindSlot(status[..], 0) == FindSlot(status[..], t)
      {
        if status[t] == Unused {
          status[t], wake[t], parent[t] := Ready, 0, -1;
          active := active + 1;
          return;
        }
        t := t + 1;
      }
      t := -1;
    }

    /** task_free: the slot is wiped. */
    method Free(t: nat)
      requires Linked() && Shape(State()) && t < MAX_TASKS && t !in queue
      modifies status, wake, parent, next, prev, this`active
      ensures Linked() && State() == Freed(old(State()), t)
    {
      UnlinkNone(queue, next[..], prev[..], t);
      ghost var n, p := Put(next[..], t, -1), Put(prev[..], t, -1);
      hide Spelled;
      status[t], wake[t], parent[t] := Unused, 0, -1;
      next[t], prev[t] := -1, -1;
      active := active - 1;
      assert next[..] == n && prev[..] == p;
    }

    // -------------------------------------------------------------- scheduler

    method FreePending()
      requires Valid()
      modifies this`pending, this`active, status, wake, parent, next, prev
      ensures Valid() && State() == CleanUp(old(State()))
    {
      ghost var s := State();
      CleanUpKeeps(s);
      if pending != -1 {
        assert TaskOk(s, pending);
        hide Inv, Tasks.Freed;
        var t := pending;
        pending := -1;
        Free(t);
      }
    }

    method Requeue()
      requires Valid()
      modifies this`head, this`tail, this`queue, this`current, status, next, prev
      ensures Valid() && State() == PutBack(old(State()))
    {
      ghost var s := State();
      PutBackKeeps(s);
      if current > IDLE && status[current] == Running {
        assert TaskOk(s, current);
        hide Inv;
        status[current] := Ready;
        QueueAdd(current);
      }
      current := -1;
      assert State() == PutBack(s);
    }

    method RunHead()
      requires Valid() && current == -1
      modifies this`head, this`tail, this`queue, this`current, status, next, prev
      ensures Valid() && State() == PickNext(old(State()))
    {
      ghost var s := State();
      PickNextKeeps(s);
      ghost var r := PickNext(s);
      assert queue != [] ==> 0 < queue[0] < MAX_TASKS;
      hide Inv, Spelled, Tasks.QueueOk;
      var t := QueuePop();
      if t == -1 { t := IDLE; }
      status[t] := Running;
      current := t;
      assert State() == r;
    }

    /** task_schedule up to the context switch. */
    method Reschedule()
      requires Valid()
      modifies this, status, wake, parent, next, prev
      ensures Valid() && State() == Schedule(old(State()))
    {
      hide Spelled, Tasks.QueueOk, Tasks.TaskOk, Used, PickNext;
      ghost var s := State();
      ScheduleKeeps(s);
      FreePending();
      var left := -1;
      if current > IDLE && status[current] == Terminated { left := current; }
      Requeue();
      RunHead();
      pending := left;
      assert State() == Schedule(s);
    }

    // -------------------------------------------------------------- calls

    /** The part of fork and of thread creation that makes a task ready. */
    method Create() returns (t: int)
      requires Valid()
      modifies this`head, this`tail, this`queue, this`active, status, wake, parent, next, prev
      ensures Valid() && State() == Spawn(old(State())) && t == FindSlot(old(status[..]), 0)
    {
      ghost var s := State();
      SpawnKeeps(s);
      SlotFree(s);
      hide Inv, Spelled, FindSlot, Tasks.QueueOk;
      t := Alloc();
      if t != -1 {
        parent[t] := current;
        QueueAdd(t);
      }
      assert State() == Spawn(s);
    }

    /** A task blocks on a semaphore or a mutex. */
    method Wait()
      requires Valid() && Possible(State(), DoBlock)
      modifies this, status, wake, parent, next, prev
      ensures Valid() && State() == Next(old(State()), DoBlock)
    {
      ghost var s := State();
      SleepKeeps(s, 1);
      assert Shape(s);
      status[current] := Blocked;
      current := -1;
      assert State() == Block(s);
      hide Inv, Spelled, Schedule;
      Reschedule();
    }

    method SleepUntil(until: nat)
      requires Valid() && Possible(State(), DoSleep(until))
      modifies this, status, wake, parent, next, prev
      ensures Valid() && State() == Next(old(State()), DoSleep(until))
    {
      ghost var s := State();
      SleepKeeps(s, until);
      assert Shape(s);
      wake[current] := until;
      status[current] := Blocked;
      current := -1;
      assert State() == Sleep(s, until);
      hide Inv, Spelled, Schedule;
      Reschedule();
    }

    /** task_wakeup. */
    method WakeFirst()
      requires Valid()
      modifies this`head, this`tail, this`queue, status, next, prev
      ensures Valid() && State() == Wakeup(old(State()))
    {
      ghost var s := State();
      WakeupKeeps(s);
      assert Shape(s);
      ghost var first := FindBlocked(s, 0);
      assert first != -1 ==> TaskOk(s, first) && TaskOk(s, IDLE);
      hide Spelled, Tasks.TaskOk, Tasks.QueueOk, Used;
      var i := 0;
      while i < MAX_TASKS && !(status[i] == Blocked && wake[i] == 0)
        invariant 0 <= i <= MAX_TASKS
        invariant FindBlocked(s, 0) == FindBlocked(s, i)
      {
        i := i + 1;
      }
      if i < MAX_TASKS {
        status[i] := Ready;
        QueueAdd(i);
        assert s.wake == s.wake[i := 0];
      }
      assert State() == Wakeup(s);
    }

    /** task_timer_tick: mark first, then add, in slot order. */
    method TimerTick(now: nat)
      requires Valid()
      modifies this`head, this`tail, this`queue, status, wake, next, prev
      ensures Valid() && State() == Tick(old(State()), now, MAX_TASKS)
    {
      ghost var s := State();
      TickKeeps(s, now, MAX_TASKS);
      var woken := MarkDue(now);
      ghost var r := Tick(s, now, MAX_TASKS);
      AddAll(woken, r);
    }

    method MarkDue(now: nat) returns (woken: seq<nat>)
      requires Shape(State()) && Arrays()
      modifies status, wake
      ensures State() == Tick(old(State()), now, MAX_TASKS).(queue := queue)
      ensures Tick(old(State()), now, MAX_TASKS).queue == queue + woken
      ensures forall j :: 0 <= j < |woken| ==> woken[j] < MAX_TASKS && status[woken[j]] == Ready
    {
      ghost var s := State();
      woken := [];
      for i := 0 to MAX_TASKS
        invariant State() == Tick(s, now, i).(queue := queue) && queue == s.queue
        invariant Tick(s, now, i).queue == queue + woken
        invariant forall j :: 0 <= j < |woken| ==> woken[j] < i && status[woken[j]] == Ready
      {
        if status[i] == Blocked && wake[i] > 0 && now >= wake[i] {
          wake[i] := 0;
          status[i] := Ready;
          woken := woken + [i];
        }
      }
    }

    method AddAll(woken: seq<nat>, ghost r: Sched)
      requires Linked() && Inv(r) && State() == r.(queue := queue) && r.queue == queue + woken && QueueOk(r.queue)
      requires forall i :: 0 <= i < |woken| ==> woken[i] < MAX_TASKS && status[woken[i]] == Ready
      modifies this`head, this`tail, this`queue, next, prev
      ensures Valid() && State() == r
    {
      ghost var q := queue;
      hide Inv, Spelled, Tasks.QueueOk;
      assert q + woken[..0] == q;
      for j := 0 to |woken|
        invariant Linked() && State() == r.(queue := queue) && queue == q + woken[..j]
      {
        NextOne(q, woken, j);
        QueueAdd(woken[j]);
      }
      assert q + woken[..|woken|] == q + woken;
    }

    /** The children of task p: ended ones are freed, the others orphaned. */
    method DisownChildren(p: nat, known: set<nat>)
      requires Linked() && Core(State()) && status[IDLE] != Zombie
      modifies status, wake, parent, next, prev, this`active
      ensures Linked() && State() == Disown(old(State()), p, known, MAX_TASKS)
    {
      ghost var s := State();
      for i := 0 to MAX_TASKS
        invariant Linked() && State() == Disown(s, p, known, i)
      {
        DisownKeeps(s, p, known, i);
        assert TaskOk(State(), i);
        hide Core, Spelled, Disown;
        if i in known && status[i] != Unused && parent[i] == p {
          if status[i] == Zombie {
            Free(i);
          } else {
            parent[i] := -1;
          }
        }
        assert State() == DisownOne(Disown(s, p, known, i), p, known, i);
      }
    }

    method FinishTask(t: nat)
      requires Linked() && Shape(State()) && t < MAX_TASKS && t !in queue
      modifies this`active, status, wake, parent, next, prev
      ensures Linked() && State() == Finish(old(State()), t)
    {
      if 0 <= parent[t] < MAX_TASKS && status[parent[t]] != Unused {
        status[t] := Zombie;
      } else if t == current {
        status[t] := Terminated;
      } else {
        Free(t);
      }
    }

    method EndSelf()
      requires Valid() && Possible(State(), Exit)
      modifies this`active, this`current, status, wake, parent, next, prev
      ensures Valid() && State() == Tasks.Leave(old(State()))
    {
      hide Inv, Core, Spelled, Disown, Finish, Tasks.QueueOk, Tasks.Leave;
      ghost var s := State();
      LeaveKeeps(s);
      LeaveParts(s);
      DisownChildren(current, ALL);
      FinishTask(current);
      current := -1;
    }

    /** task_exit. */
    method Leave()
      requires Valid() && Possible(State(), Exit)
      modifies this, status, wake, parent, next, prev
      ensures Valid() && State() == Next(old(State()), Exit)
    {
      hide Schedule, Tasks.Leave, Spelled, Tasks.QueueOk;
      EndSelf();
      Reschedule();
    }

    method Unqueue(t: nat)
      requires Linked() && Shape(State()) && t < MAX_TASKS && (t in queue <==> status[t] == Ready)
      modifies this`head, this`tail, this`queue, next, prev
      ensures Linked() && Shape(State()) && t !in queue
      ensures State() == Unqueued(old(State()), t)
    {
      WithoutExact(queue, t);
      hide Spelled, Without, Tasks.QueueOk;
      if status[t] == Ready { QueueRemove(t); }
    }

    /** sys_kill of the task in slot t, by any task. Only a task that has killed itself
        and now kills its parent loses its own slot while it runs. */
    method KillTask(t: nat, known: set<nat>)
      requires Valid() && Possible(State(), DoKill(t, known))
      modifies this, status, wake, parent, next, prev
      ensures Linked() && State() == Kill(old(State()), t, known)
      ensures Valid() <==> !Fatal(old(State()), DoKill(t, known))
    {
      ghost var s := State();
      KillKeepsIff(s, t, known);
      if status[t] == Unused || status[t] == Terminated || status[t] == Zombie { return; }
      KillParts(s, t, known);
      hide Inv, Core, Spelled, Tasks.QueueOk, Kill, Disown, Finish, Unqueued, Fatal;
      DisownChildren(t, known);
      Unqueue(t);
      FinishTask(t);
    }

    /** The scan of sys_waitpid for an ended child, which is then freed. A task number that
        is not positive waits for any child; slots stand for process numbers. */
    method Collect(pid: int) returns (r: Collected)
      requires Valid() && current > 0
      modifies this`active, status, wake, parent, next, prev
      ensures Valid()
      ensures r.Ended? <==> exists u :: Awaited(old(State()), pid, u) && old(State()).status[u] == Zombie
      ensures r.NoChild? <==> forall u :: !Awaited(old(State()), pid, u)
      ensures !r.Ended? ==> State() == old(State())
      ensures r.Ended? ==> && Awaited(old(State()), pid, r.slot) && old(State()).status[r.slot] == Zombie
                           && State() == Reap(old(State()), r.slot)
    {
      ghost var s := State();
      var t, any := 0, false;
      while t < MAX_TASKS
        invariant 0 <= t <= MAX_TASKS && State() == s
        invariant any <==> exists u :: u < t && Awaited(s, pid, u)
        invariant forall u {:trigger Awaited(s, pid, u)} :: u < t && Awaited(s, pid, u) ==> s.status[u] != Zombie
      {
        if status[t] != Unused && parent[t] == current && (pid <= 0 || pid == t) {
          assert Awaited(s, pid, t);
          any := true;
          if status[t] == Zombie {
            assert TaskOk(s, t);
            ReapKeeps(s, t);
            hide Inv, Spelled;
            Free(t);
            return Ended(t);
          }
        }
        t := t + 1;
      }
      r := if any then NoneEnded else NoChild;
    }
  }
}
