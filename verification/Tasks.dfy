/** The task pool, the ready queue and the scheduler of src/kernel/task.c, with the
    parts of fork, kill and waitpid in src/kernel/syscalls/process.c that move tasks
    between states. Slots are numbers; -1 is the null pointer. */
module Tasks {
  import opened Common

  const IDLE := 0

  datatype Status = Unused | Ready | Running | Blocked | Zombie | Terminated

  datatype Sched = Sched(
    status: seq<Status>,
    wake: seq<nat>,      // sleep_until_ms: 0 for a task that does not sleep
    parent: seq<int>,
    queue: seq<nat>,
    current: int,
    pending: int,        // pending_cleanup_task
    active: int
  )

  // ------------------------------------------------------------ invariant

  predicate Shape(s: Sched) {
    && |s.status| == |s.wake| == |s.parent| == MAX_TASKS
    && -1 <= s.current < MAX_TASKS && -1 <= s.pending < MAX_TASKS
  }

  ghost function Used(status: seq<Status>): set<nat> {
    set t: nat | t < |status| && status[t] != Unused
  }

  /** The ready queue holds the ready tasks and only the current task runs. */
  ghost predicate TaskOk(s: Sched, t: nat)
    requires Shape(s)
  {
    t < MAX_TASKS ==>
      && (t != IDLE ==> (s.status[t] == Ready <==> t in s.queue))
      && (t != IDLE && s.status[t] == Running ==> s.current == t)
      && s.parent[t] != t && -1 <= s.parent[t] < MAX_TASKS
  }

  ghost predicate QueueOk(q: seq<nat>) {
    && (forall i :: 0 <= i < |q| ==> 0 < q[i] < MAX_TASKS)
    && (forall i, j :: 0 <= i < j < |q| ==> q[i] != q[j])
  }

  ghost predicate CurrentOk(s: Sched)
    requires Shape(s)
  {
    && s.status[IDLE] in {Ready, Running}
    && (s.current > 0 ==> s.status[s.current] in {Running, Zombie, Terminated})
    && (s.pending != -1 ==> s.pending != IDLE && s.pending != s.current && s.status[s.pending] == Terminated)
  }

  ghost predicate Core(s: Sched) {
    && Shape(s) && QueueOk(s.queue)
    && (forall t: nat {:trigger TaskOk(s, t)} :: TaskOk(s, t))
    && s.active == |Used(s.status)|
  }

  ghost predicate Inv(s: Sched) {
    Core(s) && CurrentOk(s)
  }

  // ----------------------------------------------------------- small steps

  function Set(s: Sched, t: nat, x: Status): Sched
    requires t < |s.status|
  {
    s.(status := s.status[t := x])
  }

  /** A ready task goes to the back of the queue. */
  function Awaken(s: Sched, t: nat): Sched
    requires t < |s.status| && t < |s.wake|
  {
    s.(status := s.status[t := Ready], wake := s.wake[t := 0], queue := s.queue + [t])
  }

  /** A task's slot is cleared. */
  function Freed(s: Sched, t: nat): Sched
    requires Shape(s) && t < MAX_TASKS
  {
    s.(status := s.status[t := Unused], wake := s.wake[t := 0], parent := s.parent[t := -1],
       active := s.active - 1)
  }

  lemma UsedChange(status: seq<Status>, t: nat, x: Status)
    requires t < |status|
    ensures |Used(status[t := x])| + One(status[t] != Unused) == |Used(status)| + One(x != Unused)
  {
    Differ(Used(status[t := x]), Used(status), t);
  }

  lemma AwakenKeeps(s: Sched, t: nat)
    requires Inv(s) && 0 < t < MAX_TASKS && s.status[t] == Blocked && t != s.current
    ensures Inv(Awaken(s, t))
  {
    var r := Awaken(s, t);
    UsedChange(s.status, t, Ready);
    assert TaskOk(s, t);
    forall u: nat ensures TaskOk(r, u) { assert TaskOk(s, u); }
  }

  lemma FreedCore(s: Sched, t: nat)
    requires Core(s) && 0 < t < MAX_TASKS && s.status[t] in {Zombie, Terminated, Blocked}
    ensures Core(Freed(s, t))
  {
    var r := Freed(s, t);
    UsedChange(s.status, t, Unused);
    assert t in Used(s.status);
    assert TaskOk(s, t);
    forall u: nat ensures TaskOk(r, u) { assert TaskOk(s, u); }
  }

  lemma FreedKeeps(s: Sched, t: nat)
    requires Inv(s) && 0 < t < MAX_TASKS && t != s.current && t != s.pending
    requires s.status[t] in {Zombie, Terminated, Blocked}
    ensures Inv(Freed(s, t))
  {
    FreedCore(s, t);
    hide Core;
  }

  // -------------------------------------------------------------- schedule

  /** A task left over from the previous switch is freed. */
  function CleanUp(s: Sched): Sched
    requires Shape(s)
  {
    if s.pending == -1 then s else Freed(s.(pending := -1), s.pending)
  }

  /** A task that is still running goes to the back of the queue. */
  function PutBack(s: Sched): Sched
    requires Shape(s)
  {
    if s.current > 0 && s.status[s.current] == Running then
      s.(status := s.status[s.current := Ready], queue := s.queue + [s.current], current := -1)
    else s.(current := -1)
  }

  function PickNext(s: Sched): Sched
    requires Shape(s) && (s.queue != [] ==> s.queue[0] < MAX_TASKS)
  {
    if s.queue == [] then Set(s, IDLE, Running).(current := IDLE)
    else Set(s, s.queue[0], Running).(queue := s.queue[1..], current := s.queue[0])
  }

  /** task_schedule. A terminated task is freed at the next call, off its own stack. */
  function Schedule(s: Sched): (r: Sched)
    requires Inv(s)
  {
    var c := CleanUp(s);
    var left := if c.current > 0 && c.status[c.current] == Terminated then c.current else -1;
    CleanUpKeeps(s);
    PutBackKeeps(c);
    PickNext(PutBack(c)).(pending := left)
  }

  lemma CleanUpKeeps(s: Sched)
    requires Inv(s)
    ensures Inv(CleanUp(s)) && CleanUp(s).pending == -1
  {
    if s.pending != -1 {
      var r := s.(pending := -1);
      forall u: nat ensures TaskOk(r, u) { assert TaskOk(s, u); }
      FreedKeeps(r, s.pending);
    }
  }

  lemma PutBackKeeps(s: Sched)
    requires Inv(s)
    ensures Inv(PutBack(s))
  {
    var r := PutBack(s);
    if s.current >= 0 {
      UsedChange(s.status, s.current, Ready);
      assert TaskOk(s, s.current);
    }
    forall u: nat ensures TaskOk(r, u) { assert TaskOk(s, u); }
  }

  lemma PickNextKeeps(s: Sched)
    requires Inv(s) && s.current == -1
    ensures Inv(PickNext(s))
  {
    var r := PickNext(s);
    UsedChange(s.status, if s.queue == [] then IDLE else s.queue[0], Running);
    if s.queue != [] { assert TaskOk(s, s.queue[0]); }
    forall u: nat ensures TaskOk(r, u) { assert TaskOk(s, u); }
  }

  lemma ScheduleKeeps(s: Sched)
    requires Inv(s)
    ensures Inv(Schedule(s))
  {
    var c := CleanUp(s);
    CleanUpKeeps(s);
    PutBackKeeps(c);
    PickNextKeeps(PutBack(c));
    var r := PickNext(PutBack(c));
    var q := Schedule(s);
    forall u: nat ensures TaskOk(q, u) { assert TaskOk(r, u); }
    if q.pending != -1 { assert TaskOk(c, c.current); }
  }

  /** One call of the scheduler runs the oldest ready task, or the caller again if it
      is the only one, and the idle task exactly when nothing else can run. */
  lemma ScheduleRuns(s: Sched)
    requires Inv(s)
    ensures var again := s.current > 0 && s.status[s.current] == Running;
      var line := if again then s.queue + [s.current] else s.queue;
      && (line == [] ==> Schedule(s).current == IDLE && Schedule(s).queue == [])
      && (line != [] ==> Schedule(s).current == line[0] && Schedule(s).queue == line[1..])
  {
    hide Used;
  }

  // ------------------------------------------------------- calls and interrupts

  /** task_alloc: the lowest unused slot. */
  function FindSlot(status: seq<Status>, from: nat): (t: int)
    requires from <= |status|
    ensures t == -1 ==> forall u :: from <= u < |status| ==> status[u] != Unused
    ensures t != -1 ==> from <= t < |status| && status[t] == Unused && forall u :: from <= u < t ==> status[u] != Unused
    decreases |status| - from
  {
    if from == |status| then -1
    else if status[from] == Unused then from
    else FindSlot(status, from + 1)
  }

  /** A child of the caller is made and put in the ready queue. */
  function Spawn(s: Sched): Sched
    requires Shape(s)
  {
    var t := FindSlot(s.status, 0);
    if t == -1 then s
    else s.(status := s.status[t := Ready], wake := s.wake[t := 0], parent := s.parent[t := s.current],
            queue := s.queue + [t], active := s.active + 1)
  }

  /** The caller waits for a semaphore or a mutex. */
  function Block(s: Sched): Sched
    requires Shape(s) && s.current > 0
  {
    Set(s, s.current, Blocked).(current := -1)
  }

  function Sleep(s: Sched, until: nat): Sched
    requires Shape(s) && s.current > 0
  {
    Block(s).(wake := s.wake[s.current := until])
  }

  /** The slot of the first blocked task that does not sleep, whatever it waits for. */
  function FindBlocked(s: Sched, from: nat): (t: int)
    requires Shape(s) && from <= MAX_TASKS
    ensures t == -1 ==> forall u :: from <= u < MAX_TASKS ==> !(s.status[u] == Blocked && s.wake[u] == 0)
    ensures t != -1 ==> from <= t < MAX_TASKS && s.status[t] == Blocked && s.wake[t] == 0
    ensures t != -1 ==> forall u :: from <= u < t ==> !(s.status[u] == Blocked && s.wake[u] == 0)
    decreases MAX_TASKS - from
  {
    if from == MAX_TASKS then -1
    else if s.status[from] == Blocked && s.wake[from] == 0 then from
    else FindBlocked(s, from + 1)
  }

  function Wakeup(s: Sched): Sched
    requires Shape(s)
  {
    var t := FindBlocked(s, 0);
    if t == -1 then s else Awaken(s, t)
  }

  predicate Due(s: Sched, now: nat, t: nat)
    requires Shape(s) && t < MAX_TASKS
  {
    s.status[t] == Blocked && 0 < s.wake[t] <= now
  }

  /** The timer interrupt, for the slots below n: sleepers that are due wake up in slot
      order. */
  function Tick(s: Sched, now: nat, n: nat): (r: Sched)
    requires Shape(s) && n <= MAX_TASKS
    ensures Shape(r) && s.queue <= r.queue
    ensures forall t :: n <= t < MAX_TASKS ==> r.status[t] == s.status[t] && r.wake[t] == s.wake[t]
  {
    if n == 0 then s
    else
      var r := Tick(s, now, n - 1);
      if Due(s, now, n - 1) then Awaken(r, n - 1) else r
  }

  /** What becomes of task t when task p goes: a zombie child is freed, another child
      loses its parent. */
  function DisownOne(s: Sched, p: nat, known: set<nat>, t: nat): (r: Sched)
    requires Shape(s) && t < MAX_TASKS
    ensures Shape(r) && r.current == s.current
  {
    if t !in known || s.status[t] == Unused || s.parent[t] != p then s
    else if s.status[t] == Zombie then Freed(s, t)
    else s.(parent := s.parent[t := -1])
  }

  /** The same for the `known` slots below n. */
  function Disown(s: Sched, p: nat, known: set<nat>, n: nat): (r: Sched)
    requires Shape(s) && n <= MAX_TASKS
    ensures Shape(r) && r.current == s.current
  {
    if n == 0 then s else DisownOne(Disown(s, p, known, n - 1), p, known, n - 1)
  }

  predicate HasParent(s: Sched, t: nat)
    requires Shape(s) && t < MAX_TASKS
  {
    0 <= s.parent[t] < MAX_TASKS && s.status[s.parent[t]] != Unused
  }

  /** The last part of task_exit and sys_kill: a task with a parent waits for it. */
  function Finish(s: Sched, t: nat): Sched
    requires Shape(s) && t < MAX_TASKS
  {
    if HasParent(s, t) then Set(s, t, Zombie)
    else if t == s.current then Set(s, t, Terminated)
    else Freed(s, t)
  }

  const ALL: set<nat> := set t: nat | t < MAX_TASKS

  /** task_exit up to the switch. */
  function Leave(s: Sched): Sched
    requires Shape(s) && s.current > 0
  {
    Finish(Disown(s, s.current, ALL, MAX_TASKS), s.current).(current := -1)
  }

  function Without(q: seq<nat>, t: nat): seq<nat> {
    if t !in q then q else q[..First(q, t)] + q[First(q, t) + 1..]
  }

  /** A ready task leaves the queue. */
  function Unqueued(s: Sched, t: nat): Sched
    requires t < |s.status|
  {
    if s.status[t] == Ready then s.(queue := Without(s.queue, t)) else s
  }

  /** sys_kill of a task in slot t. The scan for its children goes by process number
      and reaches those in `known`. */
  function Kill(s: Sched, t: nat, known: set<nat>): Sched
    requires Shape(s) && 0 < t < MAX_TASKS
  {
    if s.status[t] in {Unused, Terminated, Zombie} then s
    else
      Finish(Unqueued(Disown(s, t, known, MAX_TASKS), t), t)
  }

  /** sys_waitpid collects a child that has ended. */
  function Reap(s: Sched, t: nat): Sched
    requires Shape(s) && t < MAX_TASKS
  {
    if s.current >= 0 && s.parent[t] == s.current && s.status[t] == Zombie then Freed(s, t) else s
  }

  datatype Op =
    | Yield | DoBlock | DoSleep(until: nat) | Exit
    | Fork | DoKill(t: nat, known: set<nat>) | Wait(t: nat)
    | Signal | Timer(now: nat)

  /** The operations that call the scheduler. */
  predicate Switches(op: Op) { op.Yield? || op.DoBlock? || op.DoSleep? || op.Exit? }

  /** The idle task only yields. Any other task may make any call, also after it has
      killed itself. A task that sleeps has a time to wake at. */
  predicate Possible(s: Sched, op: Op)
    requires Shape(s)
  {
    match op
    case Yield => true
    case Signal => true
    case Timer(_) => true
    case Fork => true
    case DoSleep(until) => until > 0 && s.current > 0
    case DoKill(t, _) => 0 < t < MAX_TASKS && s.current > 0
    case Wait(t) => t < MAX_TASKS && s.current > 0
    case _ => s.current > 0
  }

  /** What happens before the switch, if there is one. */
  function Act(s: Sched, op: Op): Sched
    requires Shape(s) && Possible(s, op)
  {
    match op
    case Yield => s
    case DoBlock => Block(s)
    case DoSleep(until) => Sleep(s, until)
    case Exit => Leave(s)
    case Fork => Spawn(s)
    case DoKill(t, known) => Kill(s, t, known)
    case Wait(t) => Reap(s, t)
    case Signal => Wakeup(s)
    case Timer(now) => Tick(s, now, MAX_TASKS)
  }

  // ------------------------------------------------------- each keeps the invariant

  lemma SpawnKeeps(s: Sched)
    requires Inv(s)
    ensures Inv(Spawn(s))
  {
    var t := FindSlot(s.status, 0);
    if t != -1 {
      var r := Spawn(s);
      UsedChange(s.status, t, Ready);
      assert TaskOk(s, t);
      forall u: nat ensures TaskOk(r, u) { assert TaskOk(s, u); }
    }
  }

  lemma SlotFree(s: Sched)
    requires Inv(s)
    ensures var t := FindSlot(s.status, 0); t != -1 ==> 0 < t < MAX_TASKS && t !in s.queue
  {
    var t := FindSlot(s.status, 0);
    assert t != -1 ==> TaskOk(s, t);
  }

  lemma SleepKeeps(s: Sched, until: nat)
    requires Inv(s) && s.current > 0
    ensures Inv(Sleep(s, until)) && Inv(Block(s))
  {
    UsedChange(s.status, s.current, Blocked);
    assert TaskOk(s, s.current);
    forall u: nat ensures TaskOk(Block(s), u) { assert TaskOk(s, u); }
    forall u: nat ensures TaskOk(Sleep(s, until), u) { assert TaskOk(s, u); }
  }

  lemma WakeupKeeps(s: Sched)
    requires Inv(s)
    ensures Inv(Wakeup(s))
  {
    var t := FindBlocked(s, 0);
    if t != -1 { AwakenKeeps(s, t); }
  }

  lemma {:induction false} TickKeeps(s: Sched, now: nat, n: nat)
    requires Inv(s) && n <= MAX_TASKS
    ensures Inv(Tick(s, now, n)) && Tick(s, now, n).current == s.current
  {
    hide Used, QueueOk, TaskOk;
    if n > 0 {
      TickKeeps(s, now, n - 1);
      if Due(s, now, n - 1) { AwakenKeeps(Tick(s, now, n - 1), n - 1); }
    }
  }

  lemma OrphanCore(s: Sched, t: nat)
    requires Core(s) && t < MAX_TASKS
    ensures Core(s.(parent := s.parent[t := -1]))
  {
    var r := s.(parent := s.parent[t := -1]);
    forall u: nat ensures TaskOk(r, u) { assert TaskOk(s, u); }
  }

  /** Disowning touches only zombies and parents, neither other tasks nor the queue. */
  ghost predicate OnlyZombies(s: Sched, r: Sched)
    requires Shape(s) && Shape(r)
  {
    && r.current == s.current && r.queue == s.queue && r.pending == s.pending
    && (forall t: nat {:trigger r.status[t]} :: t < MAX_TASKS ==>
          r.status[t] == s.status[t] || (s.status[t] == Zombie && r.status[t] == Unused))
    && (forall t: nat {:trigger r.parent[t]} :: t < MAX_TASKS ==> r.parent[t] == s.parent[t] || r.parent[t] == -1)
  }

  /** Disowning the children of p frees the very task that is calling: it has killed
      itself, p is its parent, and the scan reaches it. */
  predicate FreesCaller(s: Sched, p: nat, known: set<nat>)
    requires Shape(s)
  {
    s.current > 0 && s.status[s.current] == Zombie && s.parent[s.current] == p && s.current in known
  }

  lemma DisownOneKeeps(s: Sched, p: nat, known: set<nat>, t: nat)
    requires Core(s) && s.status[IDLE] != Zombie && t < MAX_TASKS
    ensures var r := DisownOne(s, p, known, t); Core(r) && OnlyZombies(s, r)
  {
    if t in known && s.status[t] != Unused && s.parent[t] == p {
      if s.status[t] == Zombie { FreedCore(s, t); } else { OrphanCore(s, t); }
    }
  }

  lemma {:induction false} DisownKeeps(s: Sched, p: nat, known: set<nat>, n: nat)
    requires Core(s) && s.status[IDLE] != Zombie && n <= MAX_TASKS
    ensures var r := Disown(s, p, known, n); Core(r) && OnlyZombies(s, r)
    ensures s.current > 0 && !FreesCaller(s, p, known) ==>
              Disown(s, p, known, n).status[s.current] == s.status[s.current]
  {
    assert Shape(s);
    hide Core, DisownOne;
    if n > 0 {
      DisownKeeps(s, p, known, n - 1);
      var r := Disown(s, p, known, n - 1);
      DisownOneKeeps(r, p, known, n - 1);
      if s.current > 0 && !FreesCaller(s, p, known) { DisownOneCaller(r, p, known, n - 1); }
    }
  }

  lemma DisownOneCaller(s: Sched, p: nat, known: set<nat>, t: nat)
    requires Shape(s) && t < MAX_TASKS && s.current > 0 && !FreesCaller(s, p, known)
    ensures DisownOne(s, p, known, t).status[s.current] == s.status[s.current]
  {
  }

  lemma DisownInv(s: Sched, p: nat, known: set<nat>)
    requires Inv(s) && !FreesCaller(s, p, known)
    ensures Inv(Disown(s, p, known, MAX_TASKS))
  {
    DisownKeeps(s, p, known, MAX_TASKS);
    hide Core, Disown;
  }

  lemma {:induction false} DisownBeyond(s: Sched, p: nat, known: set<nat>, n: nat, t: nat)
    requires Shape(s) && n <= t < MAX_TASKS
    ensures var r := Disown(s, p, known, n); r.status[t] == s.status[t] && r.parent[t] == s.parent[t]
  {
    if n > 0 { DisownBeyond(s, p, known, n - 1, t); }
  }

  lemma {:induction false} DisownFrees(s: Sched, p: nat, known: set<nat>, n: nat)
    requires Shape(s) && FreesCaller(s, p, known) && s.current < n <= MAX_TASKS
    ensures Disown(s, p, known, n).status[s.current] == Unused
  {
    if n == s.current + 1 {
      DisownBeyond(s, p, known, n - 1, s.current);
    } else {
      DisownFrees(s, p, known, n - 1);
    }
  }

  lemma LeaveKeeps(s: Sched)
    requires Inv(s) && s.current > 0
    ensures Inv(Leave(s))
  {
    assert TaskOk(s, s.current);
    DisownInv(s, s.current, ALL);
    EndKeeps(Disown(s, s.current, ALL, MAX_TASKS), s.current);
  }

  lemma EndKeeps(s: Sched, t: nat)
    requires Inv(s) && 0 < t == s.current
    ensures Inv(Set(s, t, Zombie)) && Inv(Set(s, t, Terminated))
    ensures Inv(Set(s, t, Zombie).(current := -1)) && Inv(Set(s, t, Terminated).(current := -1))
  {
    UsedChange(s.status, t, Zombie);
    UsedChange(s.status, t, Terminated);
    assert TaskOk(s, t);
    forall u: nat ensures TaskOk(Set(s, t, Zombie), u) { assert TaskOk(s, u); }
    forall u: nat ensures TaskOk(Set(s, t, Terminated), u) { assert TaskOk(s, u); }
    forall u: nat ensures TaskOk(Set(s, t, Zombie).(current := -1), u) { assert TaskOk(s, u); }
    forall u: nat ensures TaskOk(Set(s, t, Terminated).(current := -1), u) { assert TaskOk(s, u); }
  }

  lemma LeaveParts(s: Sched)
    requires Inv(s) && s.current > 0
    ensures var r := Disown(s, s.current, ALL, MAX_TASKS);
      && Core(s) && Shape(r) && r.current == s.current && s.current !in r.queue && s.status[IDLE] != Zombie
      && Leave(s) == Finish(r, s.current).(current := -1)
  {
    assert TaskOk(s, s.current);
    DisownKeeps(s, s.current, ALL, MAX_TASKS);
    hide Disown;
  }

  lemma ReapKeeps(s: Sched, t: nat)
    requires Inv(s) && t < MAX_TASKS && s.current > 0
    ensures Inv(Reap(s, t))
  {
    assert TaskOk(s, t);
    if s.parent[t] == s.current && s.status[t] == Zombie { FreedKeeps(s, t); }
  }

  lemma CutMembers(q: seq<nat>, i: nat, u: nat)
    requires QueueOk(q) && i < |q|
    ensures u in q[..i] + q[i + 1..] <==> u in q && u != q[i]
  {
    assert q == q[..i] + [q[i]] + q[i + 1..];
  }

  lemma WithoutExact(q: seq<nat>, t: nat)
    requires QueueOk(q)
    ensures QueueOk(Without(q, t)) && forall u: nat :: u in Without(q, t) <==> u in q && u != t
  {
    if t in q {
      var i := First(q, t);
      hide First;
      assert QueueOk(q[..i] + q[i + 1..]);
      forall u: nat ensures u in Without(q, t) <==> u in q && u != t {
        hide QueueOk;
        CutMembers(q, i, u);
      }
    }
  }

  /** A ready task taken out of the queue, as one that is blocked. */
  function Removed(s: Sched, t: nat): Sched
    requires Shape(s) && t < MAX_TASKS
  {
    Set(s, t, Blocked).(queue := Without(s.queue, t))
  }

  lemma RemovedKeeps(s: Sched, t: nat)
    requires Inv(s) && 0 < t < MAX_TASKS && s.status[t] in {Ready, Blocked} && t != s.current
    ensures Inv(Removed(s, t))
  {
    WithoutExact(s.queue, t);
    UsedChange(s.status, t, Blocked);
    forall u: nat ensures TaskOk(Removed(s, t), u) { assert TaskOk(s, u); }
  }

  lemma ZombieKeeps(s: Sched, t: nat)
    requires Inv(s) && 0 < t < MAX_TASKS && s.status[t] == Blocked && t != s.current
    ensures Inv(Set(s, t, Zombie))
  {
    UsedChange(s.status, t, Zombie);
    forall u: nat ensures TaskOk(Set(s, t, Zombie), u) { assert TaskOk(s, u); }
  }

  lemma FinishKeeps(s: Sched, t: nat)
    requires Inv(s) && 0 < t < MAX_TASKS && s.status[t] == Ready && t != s.current
    ensures Inv(Finish(s.(queue := Without(s.queue, t)), t))
  {
    RemovedKeeps(s, t);
    hide Used, QueueOk, Without, TaskOk;
    var m := Removed(s, t);
    var q := s.(queue := Without(s.queue, t));
    if HasParent(q, t) {
      ZombieKeeps(m, t);
      assert Set(m, t, Zombie) == Set(q, t, Zombie);
    } else {
      FreedKeeps(m, t);
      assert Freed(m, t) == Freed(q, t);
    }
  }

  /** The one call that does harm: a task that has killed itself kills its parent. */
  predicate Fatal(s: Sched, op: Op)
    requires Shape(s)
  {
    op.DoKill? && 0 < op.t < MAX_TASKS && s.status[op.t] !in {Unused, Terminated, Zombie} &&
    FreesCaller(s, op.t, op.known)
  }

  lemma KillKeeps(s: Sched, t: nat, known: set<nat>)
    requires Inv(s) && 0 < t < MAX_TASKS && s.current > 0 && !Fatal(s, DoKill(t, known))
    ensures Inv(Kill(s, t, known))
  {
    if s.status[t] !in {Unused, Terminated, Zombie} {
      DisownKeeps(s, t, known, MAX_TASKS);
      DisownInv(s, t, known);
      var r := Disown(s, t, known, MAX_TASKS);
      assert r.status[t] == s.status[t] && TaskOk(r, t);
      hide Disown, Used, QueueOk, Without;
      if t == s.current {
        EndKeeps(r, t);
      } else if r.status[t] == Ready {
        FinishKeeps(r, t);
      } else {
        ZombieKeeps(r, t);
        FreedKeeps(r, t);
      }
    }
  }

  /** Killing keeps the invariant if and only if it is not that call; that one leaves the
      processor with a task whose slot is free. */
  lemma KillKeepsIff(s: Sched, t: nat, known: set<nat>)
    requires Inv(s) && 0 < t < MAX_TASKS && s.current > 0
    ensures Inv(Kill(s, t, known)) <==> !Fatal(s, DoKill(t, known))
    ensures Fatal(s, DoKill(t, known)) ==>
      var r := Kill(s, t, known); Shape(r) && r.current == s.current && r.status[s.current] == Unused
  {
    if Fatal(s, DoKill(t, known)) {
      assert TaskOk(s, s.current);
      DisownFrees(s, t, known, MAX_TASKS);
      hide Disown, Without;
    } else {
      KillKeeps(s, t, known);
    }
  }

  lemma KillParts(s: Sched, t: nat, known: set<nat>)
    requires Inv(s) && 0 < t < MAX_TASKS && s.current > 0
    requires s.status[t] !in {Unused, Terminated, Zombie}
    ensures var r := Disown(s, t, known, MAX_TASKS);
      && Shape(s) && Shape(r) && (t in r.queue <==> r.status[t] == Ready)
      && Kill(s, t, known) == Finish(Unqueued(r, t), t)
  {
    DisownKeeps(s, t, known, MAX_TASKS);
    assert TaskOk(Disown(s, t, known, MAX_TASKS), t);
  }

  predicate Happens(s: Sched, op: Op)
    requires Shape(s)
  {
    Possible(s, op) && !Fatal(s, op)
  }

  lemma ActKeeps(s: Sched, op: Op)
    requires Inv(s) && Happens(s, op)
    ensures Inv(Act(s, op))
  {
    hide Kill, Tick, Leave, Spawn, Wakeup, Reap, Used, TaskOk, QueueOk;
    match op
    case Yield =>
    case DoBlock => SleepKeeps(s, 1);
    case DoSleep(until) => SleepKeeps(s, until);
    case Exit => LeaveKeeps(s);
    case Fork => SpawnKeeps(s);
    case DoKill(t, known) => KillKeeps(s, t, known);
    case Wait(t) => ReapKeeps(s, t);
    case Signal => WakeupKeeps(s);
    case Timer(now) => TickKeeps(s, now, MAX_TASKS);
  }

  // ---------------------------------------------------------------- every run

  function Next(s: Sched, op: Op): Sched
    requires Inv(s)
  {
    if !Happens(s, op) then s
    else
      ActKeeps(s, op);
      if Switches(op) then Schedule(Act(s, op)) else Act(s, op)
  }

  lemma NextKeeps(s: Sched, op: Op)
    requires Inv(s)
    ensures Inv(Next(s, op))
  {
    hide Act, Schedule, Used, TaskOk, QueueOk;
    if Happens(s, op) {
      ActKeeps(s, op);
      if Switches(op) { ScheduleKeeps(Act(s, op)); }
    }
  }

  /** The state after a run. An operation that is not possible does not happen, and the
      fatal one is left out. */
  function After(s: Sched, ops: seq<Op>): (r: Sched)
    requires Inv(s)
    ensures Inv(r)
    decreases |ops|
  {
    if ops == [] then s
    else
      NextKeeps(s, ops[0]);
      After(Next(s, ops[0]), ops[1..])
  }

  /** task_init: only the idle task, which is not in the queue. */
  function Booted(): Sched {
    Sched([Ready] + Fill(Unused, MAX_TASKS - 1), Fill(0, MAX_TASKS), Fill(-1, MAX_TASKS), [], -1, -1, 1)
  }

  function Fill<T>(x: T, n: nat): (r: seq<T>)
    ensures |r| == n && forall i :: 0 <= i < n ==> r[i] == x
  {
    if n == 0 then [] else [x] + Fill(x, n - 1)
  }

  /** At boot there is the idle task, and nothing runs or is ready besides. */
  lemma BootedOk()
    ensures Inv(Booted())
    ensures var s := Booted();
      && s.queue == [] && s.current == -1 && s.pending == -1 && s.active == 1 && s.status[IDLE] == Ready
      && forall t :: 0 < t < MAX_TASKS ==> s.status[t] == Unused && s.wake[t] == 0 && s.parent[t] == -1
  {
    var s := Booted();
    assert Used(s.status) == {IDLE};
    forall t: nat ensures TaskOk(s, t) { }
  }

  /** In every run from boot: the queue holds exactly the ready tasks, each once; at most
      one task other than the idle task runs, and it is the current one; the active
      count is the number of slots in use. */
  lemma AlwaysConsistent(ops: seq<Op>)
    ensures Inv(Booted())
    ensures var s := After(Booted(), ops);
      && (forall t :: 0 < t < MAX_TASKS ==> (s.status[t] == Ready <==> t in s.queue))
      && (forall i, j :: 0 <= i < j < |s.queue| ==> s.queue[i] != s.queue[j])
      && (forall t :: 0 < t < MAX_TASKS && s.status[t] == Running ==> t == s.current)
      && s.active == |Used(s.status)|
  {
    BootedOk();
    var s := After(Booted(), ops);
    forall t | 0 < t < MAX_TASKS
      ensures s.status[t] == Ready <==> t in s.queue
      ensures s.status[t] == Running ==> s.current == t
    {
      assert TaskOk(s, t);
    }
  }

  // ---------------------------------------------------------------- no starvation

  lemma WithoutPlace(q: seq<nat>, u: nat, k: nat) returns (j: nat)
    requires k < |q| && q[k] != u
    ensures j <= k && j < |Without(q, u)| && Without(q, u)[j] == q[k]
  {
    hide First;
    j := k;
    if u in q {
      var i := First(q, u);
      CutPlace(q, i, k);
      if i < k { j := k - 1; }
    }
  }

  lemma CutPlace(q: seq<nat>, i: nat, k: nat)
    requires i < |q| && k < |q| && i != k
    ensures var j := if i < k then k - 1 else k; j < |q| - 1 && (q[..i] + q[i + 1..])[j] == q[k]
  {
  }

  /** No operation but a kill takes a ready task out of the queue or moves it back. */
  lemma ActPlace(s: Sched, op: Op, k: nat) returns (j: nat)
    requires Inv(s) && Happens(s, op) && k < |s.queue| && !(op.DoKill? && op.t == s.queue[k])
    ensures j <= k && j < |Act(s, op).queue| && Act(s, op).queue[j] == s.queue[k]
  {
    hide TaskOk, QueueOk, Disown, Used, Kill, Leave, Tick;
    j := k;
    if op.DoKill? {
      j := KillPlace(s, op.t, op.known, k);
    } else if op.Exit? {
      LeaveQueue(s);
    }
  }

  lemma KillPlace(s: Sched, u: nat, known: set<nat>, k: nat) returns (j: nat)
    requires Inv(s) && s.current > 0 && 0 < u < MAX_TASKS && k < |s.queue| && u != s.queue[k]
    ensures j <= k && j < |Kill(s, u, known).queue| && Kill(s, u, known).queue[j] == s.queue[k]
  {
    hide TaskOk, QueueOk, Disown, Used, Finish, Unqueued, Without;
    j := k;
    if s.status[u] !in {Unused, Terminated, Zombie} {
      DisownKeeps(s, u, known, MAX_TASKS);
      KillQueue(s, Disown(s, u, known, MAX_TASKS), u);
      if s.status[u] == Ready { j := WithoutPlace(s.queue, u, k); }
    }
  }

  lemma KillQueue(s: Sched, r: Sched, u: nat)
    requires Shape(s) && Shape(r) && OnlyZombies(s, r) && u < MAX_TASKS && s.status[u] != Zombie
    ensures Finish(Unqueued(r, u), u).queue == if s.status[u] == Ready then Without(s.queue, u) else s.queue
  {
    hide Without;
    assert r.status[u] == s.status[u];
  }

  lemma LeaveQueue(s: Sched)
    requires Inv(s) && s.current > 0
    ensures Leave(s).queue == s.queue
  {
    DisownKeeps(s, s.current, ALL, MAX_TASKS);
    hide Core, Disown;
  }

  lemma NextPlace(s: Sched, op: Op, k: nat) returns (j: nat)
    requires Inv(s) && k < |s.queue| && !(op.DoKill? && op.t == s.queue[k])
    ensures Next(s, op).current == s.queue[k] || (j < |Next(s, op).queue| && Next(s, op).queue[j] == s.queue[k])
    ensures j <= k && (Calls(s, op) && Next(s, op).current != s.queue[k] ==> j < k)
  {
    j := k;
    if Happens(s, op) {
      ActKeeps(s, op);
      j := ActPlace(s, op, k);
      hide Act, Schedule, Inv;
      if Switches(op) {
        ScheduleRuns(Act(s, op));
        if j > 0 { j := j - 1; }
      }
    }
  }

  /** The operation happens and calls the scheduler. */
  ghost predicate Calls(s: Sched, op: Op)
    requires Shape(s)
  {
    Happens(s, op) && Switches(op)
  }

  ghost function CallCount(s: Sched, ops: seq<Op>): nat
    requires Inv(s)
    decreases |ops|
  {
    if ops == [] then 0
    else
      NextKeeps(s, ops[0]);
      One(Calls(s, ops[0])) + CallCount(Next(s, ops[0]), ops[1..])
  }

  /** The task at place k of the ready queue runs within k + 1 calls of the scheduler,
      whatever else happens, unless it is killed. */
  lemma {:induction false} NoStarvation(s: Sched, ops: seq<Op>, k: nat) returns (n: nat)
    requires Inv(s) && k < |s.queue| && CallCount(s, ops) > k
    requires forall op :: op in ops && op.DoKill? ==> op.t != s.queue[k]
    ensures n <= |ops| && After(s, ops[..n]).current == s.queue[k] && CallCount(s, ops[..n]) <= k + 1
    decreases |ops|
  {
    hide Inv, Next, Calls;
    var op := ops[0];
    NextKeeps(s, op);
    var j := NextPlace(s, op, k);
    var r := Next(s, op);
    if r.current == s.queue[k] {
      n := 1;
      assert ops[..1][1..] == [];
    } else {
      n := NoStarvation(r, ops[1..], j);
      n := n + 1;
      assert ops[..n][1..] == ops[1..][..n - 1];
    }
  }

  // ---------------------------------------------------------------- the dead stay dead

  ghost predicate Dead(s: Sched, t: nat, x: Status)
    requires Shape(s)
  {
    0 < t < MAX_TASKS && x in {Zombie, Terminated} && s.status[t] == x && s.current != t
  }

  lemma {:induction false} TickOthers(s: Sched, now: nat, n: nat, t: nat)
    requires Shape(s) && n <= MAX_TASKS && t < MAX_TASKS && s.status[t] != Blocked
    ensures Tick(s, now, n).status[t] == s.status[t] && Tick(s, now, n).current == s.current
  {
    if n > 0 { TickOthers(s, now, n - 1, t); }
  }

  lemma KillDead(s: Sched, u: nat, known: set<nat>, t: nat, x: Status)
    requires Inv(s) && Happens(s, DoKill(u, known)) && Dead(s, t, x)
    ensures Kill(s, u, known).current != t && Shape(Kill(s, u, known)) && Kill(s, u, known).status[t] in {x, Unused}
  {
    hide TaskOk, QueueOk, Used, Without;
    DisownKeeps(s, u, known, MAX_TASKS);
  }

  lemma ActDead(s: Sched, op: Op, t: nat, x: Status)
    requires Inv(s) && Happens(s, op) && Dead(s, t, x)
    ensures Act(s, op).current != t && Act(s, op).status[t] in {x, Unused}
  {
    hide TaskOk, QueueOk, Used, Kill;
    match op
    case DoKill(u, known) => KillDead(s, u, known, t, x);
    case Exit => DisownKeeps(s, s.current, ALL, MAX_TASKS);
    case Timer(now) => TickOthers(s, now, MAX_TASKS, t);
    case _ =>
  }

  lemma ScheduleDead(s: Sched, t: nat, x: Status)
    requires Inv(s) && Dead(s, t, x)
    ensures Schedule(s).current != t && Schedule(s).status[t] in {x, Unused}
  {
    assert TaskOk(s, t);
    ScheduleRuns(s);
  }

  lemma ScheduleUnused(s: Sched, t: nat)
    requires Inv(s) && 0 < t < MAX_TASKS && s.status[t] == Unused && s.current != t
    ensures Schedule(s).current != t && Schedule(s).status[t] == Unused
  {
    assert TaskOk(s, t);
    ScheduleRuns(s);
  }

  lemma NextDead(s: Sched, op: Op, t: nat, x: Status)
    requires Inv(s) && Dead(s, t, x)
    ensures Shape(Next(s, op)) && Next(s, op).current != t && Next(s, op).status[t] in {x, Unused}
  {
    NextKeeps(s, op);
    if Happens(s, op) {
      ActKeeps(s, op);
      ActDead(s, op, t, x);
      var m := Act(s, op);
      hide Act, Schedule;
      if m.status[t] == x { ScheduleDead(m, t, x); } else { ScheduleUnused(m, t); }
    }
  }

  /** A task that has ended and left the processor never runs again: it stays as it is
      until its slot is freed. */
  lemma {:induction false} NeverAgain(s: Sched, ops: seq<Op>, t: nat, x: Status)
    requires Inv(s) && Dead(s, t, x)
    requires forall n :: 0 <= n <= |ops| ==> After(s, ops[..n]).status[t] != Unused
    ensures Dead(After(s, ops), t, x)
    decreases |ops|
  {
    if ops != [] {
      NextKeeps(s, ops[0]);
      NextDead(s, ops[0], t, x);
      var r := Next(s, ops[0]);
      assert ops[..1][1..] == [];
      assert After(s, ops[..1]) == r;
      forall n | 0 <= n <= |ops[1..]| ensures After(r, ops[1..][..n]).status[t] != Unused {
        assert ops[..n + 1][1..] == ops[1..][..n];
        assert After(s, ops[..n + 1]) == After(r, ops[1..][..n]);
      }
      NeverAgain(r, ops[1..], t, x);
    }
  }

  // ---------------------------------------------------------------- coming back

  lemma ScheduleOther(s: Sched, t: nat)
    requires Inv(s) && 0 < t < MAX_TASKS && t != s.current && t != s.pending && t !in s.queue
    ensures Schedule(s).status[t] == s.status[t] && Schedule(s).wake[t] == s.wake[t]
  {
    hide Used;
  }

  lemma NotOwnParent(s: Sched, t: nat)
    requires Inv(s) && t < MAX_TASKS
    ensures s.parent[t] != t
  {
    assert TaskOk(s, t);
  }

  /** The caller, already ended, makes a call other than one that blocks. */
  lemma ActEnded(s: Sched, op: Op)
    requires Inv(s) && Happens(s, op) && s.current > 0 && s.status[s.current] in {Zombie, Terminated}
    requires !op.DoBlock? && !op.DoSleep?
    ensures Act(s, op).status[s.current] in {Zombie, Terminated}
    ensures Act(s, op).current == if op.Exit? then -1 else s.current
  {
    hide TaskOk, QueueOk, Used, Disown, Tick;
    if op.Wait? { NotOwnParent(s, op.t); }
    match op
    case DoKill(u, known) => DisownKeeps(s, u, known, MAX_TASKS);
    case Exit => DisownKeeps(s, s.current, ALL, MAX_TASKS);
    case Timer(now) => TickOthers(s, now, MAX_TASKS, s.current);
    case _ =>
  }

  lemma ScheduleEnded(s: Sched)
    requires Inv(s) && s.current > 0 && s.status[s.current] in {Zombie, Terminated}
    ensures Schedule(s).status[s.current] == s.status[s.current]
  {
    assert TaskOk(s, s.current);
    hide Used;
  }

  /** An ended task is alive again after a step if and only if it was still running and
      the step is a call of its own that blocks or sleeps. */
  lemma AliveAgain(s: Sched, op: Op, t: nat)
    requires Inv(s) && 0 < t < MAX_TASKS && s.status[t] in {Zombie, Terminated}
    ensures Shape(Next(s, op))
    ensures Next(s, op).status[t] in {Ready, Running, Blocked} <==>
              t == s.current && (op.DoBlock? || (op.DoSleep? && op.until > 0))
  {
    NextKeeps(s, op);
    assert TaskOk(s, t);
    if t != s.current {
      NextDead(s, op, t, s.status[t]);
    } else if Happens(s, op) {
      ActKeeps(s, op);
      if op.DoBlock? || op.DoSleep? {
        ScheduleOther(Act(s, op), t);
      } else {
        ActEnded(s, op);
        var m := Act(s, op);
        hide Act, Schedule;
        if op.Exit? { ScheduleDead(m, t, m.status[t]); }
        if op.Yield? { ScheduleEnded(m); }
      }
    }
  }

  lemma KillSelf(s: Sched)
    requires Inv(s) && s.current > 0 && s.status[s.current] == Running && HasParent(s, s.current)
    ensures Next(s, DoKill(s.current, {})) == Set(s, s.current, Zombie) && Inv(Set(s, s.current, Zombie))
  {
    NextKeeps(s, DoKill(s.current, {}));
    DisownNone(s, s.current, MAX_TASKS);
    hide Inv, Disown;
  }

  lemma SleepEnded(s: Sched)
    requires Inv(s) && s.current > 0 && s.status[s.current] == Zombie
    ensures var r := Next(s, DoSleep(1)); Inv(r) && Due(r, 1, s.current)
  {
    NextKeeps(s, DoSleep(1));
    ActKeeps(s, DoSleep(1));
    assert TaskOk(s, s.current);
    ScheduleOther(Sleep(s, 1), s.current);
    hide Schedule;
  }

  /** And then it does come back: a task that kills itself, sleeps and is woken by the
      timer is in the ready queue. */
  lemma KillSelfRevives(s: Sched)
    requires Inv(s) && s.current > 0 && s.status[s.current] == Running && HasParent(s, s.current)
    ensures var t := s.current;
      && Next(s, DoKill(t, {})) == Set(s, t, Zombie)
      && t in After(s, [DoKill(t, {}), DoSleep(1), Timer(1)]).queue
  {
    var t := s.current;
    KillSelf(s);
    var s1 := Set(s, t, Zombie);
    SleepEnded(s1);
    var s2 := Next(s1, DoSleep(1));
    TickWakes(s2, 1, MAX_TASKS, t);
    AfterThree(s, DoKill(t, {}), DoSleep(1), Timer(1));
    assert Next(s2, Timer(1)) == Tick(s2, 1, MAX_TASKS);
  }

  lemma AfterThree(s: Sched, a: Op, b: Op, c: Op)
    requires Inv(s)
    ensures Inv(Next(s, a)) && Inv(Next(Next(s, a), b))
    ensures After(s, [a, b, c]) == Next(Next(Next(s, a), b), c)
  {
    NextKeeps(s, a);
    NextKeeps(Next(s, a), b);
    NextKeeps(Next(Next(s, a), b), c);
    hide Next, Inv;
    assert [a, b, c][1..] == [b, c] && [b, c][1..] == [c] && [c][1..] == [];
    assert After(Next(Next(s, a), b), [c]) == Next(Next(Next(s, a), b), c);
    assert After(Next(s, a), [b, c]) == After(Next(Next(s, a), b), [c]);
  }

  lemma {:induction false} TickWakes(s: Sched, now: nat, n: nat, t: nat)
    requires Shape(s) && t < n <= MAX_TASKS && Due(s, now, t)
    ensures t in Tick(s, now, n).queue
  {
    if n - 1 != t { TickWakes(s, now, n - 1, t); }
  }

  lemma {:induction false} DisownNone(s: Sched, p: nat, n: nat)
    requires Shape(s) && n <= MAX_TASKS
    ensures Disown(s, p, {}, n) == s
  {
    if n > 0 { DisownNone(s, p, n - 1); }
  }

  // ------------------------------------------------------------- page directories

  /** is_page_directory_in_use: a task that has not ended has the directory; `dirs` holds
      each slot's directory. */
  ghost predicate InUse(s: Sched, dirs: seq<nat>, d: nat)
    requires Shape(s) && |dirs| == MAX_TASKS
  {
    exists t :: 0 <= t < MAX_TASKS && s.status[t] !in {Unused, Zombie, Terminated} && dirs[t] == d
  }

  /** task_free gives the directory back before it wipes the slot. A task without parent
      that another one kills is freed as it stands, ready or blocked, so the scan still
      finds it and the directory stays; then no task has it any more. */
  lemma KillLeaks(s: Sched, t: nat, known: set<nat>, dirs: seq<nat>)
    requires Inv(s) && 0 < t < MAX_TASKS && s.current > 0 && t != s.current && |dirs| == MAX_TASKS
    requires s.status[t] !in {Unused, Zombie, Terminated} && !HasParent(Disown(s, t, known, MAX_TASKS), t)
    requires forall u :: 0 <= u < MAX_TASKS && u != t && s.status[u] !in {Unused, Zombie, Terminated} ==>
               dirs[u] != dirs[t]
    ensures var r := Unqueued(Disown(s, t, known, MAX_TASKS), t);
      Kill(s, t, known) == Freed(r, t) && InUse(r, dirs, dirs[t]) && !InUse(Freed(r, t), dirs, dirs[t])
  {
    DisownKeeps(s, t, known, MAX_TASKS);
    hide Core, Disown, Without;
    var r := Unqueued(Disown(s, t, known, MAX_TASKS), t);
    assert r.status[t] == s.status[t];
    assert forall u :: 0 <= u < MAX_TASKS ==> r.status[u] == s.status[u] || r.status[u] == Unused;
  }

  /** A task that has ended gives its directory back, unless a living task shares it. */
  lemma EndedReleases(s: Sched, t: nat, dirs: seq<nat>)
    requires Shape(s) && t < MAX_TASKS && |dirs| == MAX_TASKS && s.status[t] in {Zombie, Terminated}
    ensures InUse(s, dirs, dirs[t]) <==> InUse(Freed(s, t), dirs, dirs[t])
  {
    var r := Freed(s, t);
    if InUse(s, dirs, dirs[t]) {
      var u :| 0 <= u < MAX_TASKS && s.status[u] !in {Unused, Zombie, Terminated} && dirs[u] == dirs[t];
      assert r.status[u] == s.status[u];
    }
  }

  // ------------------------------------------------------- what each call does

  ghost predicate SameSlot(s: Sched, r: Sched, t: nat)
    requires Shape(s) && Shape(r) && t < MAX_TASKS
  {
    r.status[t] == s.status[t] && r.wake[t] == s.wake[t] && r.parent[t] == s.parent[t]
  }

  ghost predicate EmptySlot(r: Sched, t: nat)
    requires Shape(r) && t < MAX_TASKS
  {
    r.status[t] == Unused && r.wake[t] == 0 && r.parent[t] == -1
  }

  ghost predicate Rose(s: Sched, r: Sched, t: nat)
    requires Shape(s) && Shape(r) && t < MAX_TASKS
  {
    r.status[t] == Ready && r.wake[t] == 0 && r.parent[t] == s.parent[t]
  }

  /** A timer interrupt makes exactly the sleepers ready whose time has come, in slot order
      behind the tasks that are ready already. */
  lemma TimerExact(s: Sched, now: nat) returns (woken: seq<nat>)
    requires Inv(s)
    ensures var r := Next(s, Timer(now));
      && Shape(r) && r.current == s.current && r.pending == s.pending && r.active == s.active
      && r.queue == s.queue + woken
      && (forall i, j :: 0 <= i < j < |woken| ==> woken[i] < woken[j])
      && (forall t: nat :: t in woken <==> t < MAX_TASKS && s.status[t] == Blocked && 0 < s.wake[t] <= now)
      && (forall t: nat :: t < MAX_TASKS ==>
            if t in woken then Rose(s, r, t) else SameSlot(s, r, t))
  {
    woken := TickExact(s, now, MAX_TASKS);
  }

  /** The due slots below n in rising order. */
  ghost predicate DueList(s: Sched, now: nat, n: nat, woken: seq<nat>)
    requires Shape(s) && n <= MAX_TASKS
  {
    && (forall i, j :: 0 <= i < j < |woken| ==> woken[i] < woken[j])
    && (forall t: nat :: t in woken <==> t < n && Due(s, now, t))
  }

  lemma DueNext(s: Sched, now: nat, n: nat, woken: seq<nat>)
    requires Shape(s) && n < MAX_TASKS && DueList(s, now, n, woken)
    ensures DueList(s, now, n + 1, if Due(s, now, n) then woken + [n] else woken)
  {
    hide Due;
    if Due(s, now, n) {
      forall i | 0 <= i < |woken| ensures woken[i] < n { assert woken[i] in woken; }
    }
  }

  lemma {:induction false} TickExact(s: Sched, now: nat, n: nat) returns (woken: seq<nat>)
    requires Shape(s) && n <= MAX_TASKS
    ensures var r := Tick(s, now, n);
      && r.current == s.current && r.pending == s.pending && r.active == s.active && r.queue == s.queue + woken
      && DueList(s, now, n, woken)
      && (forall t: nat :: t < MAX_TASKS ==>
            if t in woken then Rose(s, r, t) else SameSlot(s, r, t))
  {
    hide Due, DueList;
    if n == 0 {
      woken := [];
      DueNone(s, now);
    } else {
      var before := TickExact(s, now, n - 1);
      DueNext(s, now, n - 1, before);
      NotYet(s, now, n - 1, before);
      woken := if Due(s, now, n - 1) then before + [n - 1] else before;
      assert s.queue + before + [n - 1] == s.queue + (before + [n - 1]);
      var b, r := Tick(s, now, n - 1), Tick(s, now, n);
      forall t: nat | t < MAX_TASKS ensures if t in woken then Rose(s, r, t) else SameSlot(s, r, t) {
        assert if t in before then Rose(s, b, t) else SameSlot(s, b, t);
      }
    }
  }

  lemma NotYet(s: Sched, now: nat, n: nat, woken: seq<nat>)
    requires Shape(s) && n <= MAX_TASKS && DueList(s, now, n, woken)
    ensures n !in woken
  {
  }

  lemma DueNone(s: Sched, now: nat)
    requires Shape(s)
    ensures DueList(s, now, 0, [])
  {
  }

  /** Fork: the lowest unused slot becomes a ready child of the caller, last in the queue; it
      fails exactly if there is no such slot. */
  lemma ForkExact(s: Sched)
    requires Inv(s)
    ensures var r := Next(s, Fork);
      if forall t :: 0 <= t < MAX_TASKS ==> s.status[t] != Unused then r == s
      else exists t: nat :: t < MAX_TASKS && s.status[t] == Unused && (forall u :: 0 <= u < t ==> s.status[u] != Unused)
                            && NewChild(s, r, t)
  {
    hide TaskOk, QueueOk, Used;
    var t := FindSlot(s.status, 0);
    if t != -1 { assert NewChild(s, Next(s, Fork), t); }
  }

  ghost predicate NewChild(s: Sched, r: Sched, t: nat)
    requires Shape(s) && t < MAX_TASKS
  {
    && Shape(r) && r.status[t] == Ready && r.wake[t] == 0 && r.parent[t] == s.current && r.queue == s.queue + [t]
    && r.current == s.current && r.pending == s.pending && r.active == s.active + 1
    && forall u: nat :: u < MAX_TASKS && u != t ==> SameSlot(s, r, u)
  }

  /** A wake-up makes the first blocked task that does not sleep ready, and last in the
      queue; without one nothing changes. */
  lemma SignalExact(s: Sched)
    requires Inv(s)
    ensures var r := Next(s, Signal);
      if forall t :: 0 <= t < MAX_TASKS ==> !(s.status[t] == Blocked && s.wake[t] == 0) then r == s
      else exists t: nat :: t < MAX_TASKS && s.status[t] == Blocked && s.wake[t] == 0
                            && (forall u :: 0 <= u < t ==> !(s.status[u] == Blocked && s.wake[u] == 0))
                            && Woken(s, r, t)
  {
    hide TaskOk, QueueOk, Used, Awaken, Woken;
    var t := FindBlocked(s, 0);
    if t != -1 { AwakenExact(s, t); }
  }

  lemma AwakenExact(s: Sched, t: nat)
    requires Shape(s) && t < MAX_TASKS
    ensures Woken(s, Awaken(s, t), t)
  {
  }

  ghost predicate Woken(s: Sched, r: Sched, t: nat)
    requires Shape(s) && t < MAX_TASKS
  {
    && Shape(r) && Rose(s, r, t) && r.queue == s.queue + [t]
    && r.current == s.current && r.pending == s.pending && r.active == s.active
    && forall u: nat :: u < MAX_TASKS && u != t ==> SameSlot(s, r, u)
  }

  /** The caller blocks, or sleeps until a time; nothing else changes before the switch. */
  lemma BlockExact(s: Sched, until: nat)
    requires Inv(s) && s.current > 0
    ensures var t, r := s.current, Act(s, DoBlock);
      && Shape(r) && r.status[t] == Blocked && r.wake[t] == s.wake[t] && r.parent[t] == s.parent[t]
      && r.queue == s.queue && r.current == -1 && r.pending == s.pending && r.active == s.active
      && forall u: nat :: u < MAX_TASKS && u != t ==> SameSlot(s, r, u)
    ensures until > 0 ==> var t, r := s.current, Act(s, DoSleep(until));
      && Shape(r) && r.status[t] == Blocked && r.wake[t] == until && r.parent[t] == s.parent[t]
      && r.queue == s.queue && r.current == -1 && r.pending == s.pending && r.active == s.active
      && forall u: nat :: u < MAX_TASKS && u != t ==> SameSlot(s, r, u)
  {
    hide TaskOk, QueueOk, Used;
  }

  /** Waiting frees an ended child of the caller, and nothing else. */
  lemma WaitExact(s: Sched, t: nat)
    requires Inv(s) && t < MAX_TASKS && s.current > 0
    ensures var r := Next(s, Wait(t));
      if s.parent[t] == s.current && s.status[t] == Zombie then
        && Shape(r) && EmptySlot(r, t) && (forall u: nat :: u < MAX_TASKS && u != t ==> SameSlot(s, r, u))
        && r.queue == s.queue && r.current == s.current && r.pending == s.pending && r.active == s.active - 1
      else r == s
  {
    hide TaskOk, QueueOk, Used;
  }

  /** What becomes of slot u when task p goes and the scan reaches the `known` slots: an ended
      child is freed, another child has no parent any more. */
  ghost predicate Disowned(s: Sched, r: Sched, p: nat, known: set<nat>, u: nat)
    requires Shape(s) && Shape(r) && u < MAX_TASKS
  {
    if u !in known || s.status[u] == Unused || s.parent[u] != p then SameSlot(s, r, u)
    else if s.status[u] == Zombie then EmptySlot(r, u)
    else r.status[u] == s.status[u] && r.wake[u] == s.wake[u] && r.parent[u] == -1
  }

  lemma {:induction false} DisownExact(s: Sched, p: nat, known: set<nat>, n: nat)
    requires Shape(s) && n <= MAX_TASKS
    ensures var r := Disown(s, p, known, n);
      && r.queue == s.queue && r.current == s.current && r.pending == s.pending
      && forall u: nat :: u < MAX_TASKS ==> if u < n then Disowned(s, r, p, known, u) else SameSlot(s, r, u)
  {
    if n > 0 {
      DisownExact(s, p, known, n - 1);
      var d, r := Disown(s, p, known, n - 1), Disown(s, p, known, n);
      forall u: nat | u < MAX_TASKS ensures if u < n then Disowned(s, r, p, known, u) else SameSlot(s, r, u) {
        assert if u < n - 1 then Disowned(s, d, p, known, u) else SameSlot(s, d, u);
        assert SameSlot(s, d, n - 1);
      }
    }
  }

  /** Task p ends: it waits for its parent if that is still there after the children were
      disowned, is left to the scheduler if it is the caller, and is freed otherwise. */
  ghost predicate EndsIn(s: Sched, r: Sched, p: nat, known: set<nat>)
    requires Shape(s) && Shape(r) && p < MAX_TASKS
  {
    var q := s.parent[p];
    var reaped := 0 <= q < MAX_TASKS && q in known && s.parent[q] == p && s.status[q] == Zombie;
    if 0 <= q < MAX_TASKS && s.status[q] != Unused && !reaped then
      r.status[p] == Zombie && r.wake[p] == s.wake[p] && r.parent[p] == q
    else if p == s.current then r.status[p] == Terminated && r.wake[p] == s.wake[p] && r.parent[p] == q
    else EmptySlot(r, p)
  }

  /** Exit. */
  lemma ExitExact(s: Sched)
    requires Inv(s) && s.current > 0
    ensures var p, r := s.current, Act(s, Exit);
      && Shape(r) && EndsIn(s, r, p, ALL) && r.queue == s.queue && r.current == -1 && r.pending == s.pending
      && forall u: nat :: u < MAX_TASKS && u != p ==> Disowned(s, r, p, ALL, u)
  {
    hide TaskOk, QueueOk, Used, Disown, Finish, EndsIn;
    var p := s.current;
    NotOwnParent(s, p);
    DisownExact(s, p, ALL, MAX_TASKS);
    var d := Disown(s, p, ALL, MAX_TASKS);
    FinishSlots(s, d, p, ALL);
    MovedOff(s, Finish(d, p), p, ALL);
  }

  /** Kill of a task that has not ended: a ready one also leaves the queue, and the others
      keep their order. */
  lemma KillExact(s: Sched, p: nat, known: set<nat>)
    requires Inv(s) && 0 < p < MAX_TASKS && s.current > 0
    ensures var r := Act(s, DoKill(p, known));
      if s.status[p] in {Unused, Terminated, Zombie} then r == s
      else
        && Shape(r) && EndsIn(s, r, p, known) && r.current == s.current && r.pending == s.pending
        && (forall u: nat :: u < MAX_TASKS && u != p ==> Disowned(s, r, p, known, u))
        && if s.status[p] == Ready
           then exists i :: 0 <= i < |s.queue| && s.queue[i] == p && r.queue == s.queue[..i] + s.queue[i + 1..]
           else r.queue == s.queue
  {
    hide TaskOk, QueueOk, Used, Disown, Finish, Unqueued, Disowned, EndsIn;
    if s.status[p] !in {Unused, Terminated, Zombie} {
      NotOwnParent(s, p);
      ReadyQueued(s, p);
      DisownExact(s, p, known, MAX_TASKS);
      KillSlots(s, Disown(s, p, known, MAX_TASKS), p, known);
    }
  }

  lemma ReadyQueued(s: Sched, t: nat)
    requires Inv(s) && 0 < t < MAX_TASKS
    ensures s.status[t] == Ready <==> t in s.queue
  {
    assert TaskOk(s, t);
  }

  lemma FinishSlots(s: Sched, d: Sched, p: nat, known: set<nat>)
    requires Shape(s) && Shape(d) && 0 < p < MAX_TASKS && s.parent[p] != p
    requires d.current == s.current && d.pending == s.pending
    requires forall u: nat :: u < MAX_TASKS ==> Disowned(s, d, p, known, u)
    ensures var r := Finish(d, p);
      && Shape(r) && EndsIn(s, r, p, known) && r.current == s.current && r.pending == s.pending && r.queue == d.queue
      && (forall u: nat :: u < MAX_TASKS && u != p ==> Disowned(s, r, p, known, u))
  {
    assert Disowned(s, d, p, known, p);
    if 0 <= s.parent[p] < MAX_TASKS { assert Disowned(s, d, p, known, s.parent[p]); }
    var r := Finish(d, p);
    forall u: nat | u < MAX_TASKS && u != p ensures Disowned(s, r, p, known, u) { assert Disowned(s, d, p, known, u); }
  }

  lemma MovedOff(s: Sched, f: Sched, p: nat, known: set<nat>)
    requires Shape(s) && Shape(f) && p < MAX_TASKS && EndsIn(s, f, p, known)
    requires forall u: nat :: u < MAX_TASKS && u != p ==> Disowned(s, f, p, known, u)
    ensures var r := f.(current := -1);
      && Shape(r) && EndsIn(s, r, p, known)
      && forall u: nat :: u < MAX_TASKS && u != p ==> Disowned(s, r, p, known, u)
  {
    var r := f.(current := -1);
    forall u: nat | u < MAX_TASKS && u != p ensures Disowned(s, r, p, known, u) { assert Disowned(s, f, p, known, u); }
  }

  lemma KillSlots(s: Sched, d: Sched, p: nat, known: set<nat>)
    requires Shape(s) && Shape(d) && 0 < p < MAX_TASKS && s.parent[p] != p && (s.status[p] == Ready <==> p in s.queue)
    requires d.queue == s.queue && d.current == s.current && d.pending == s.pending
    requires forall u: nat :: u < MAX_TASKS ==> Disowned(s, d, p, known, u)
    ensures var r := Finish(Unqueued(d, p), p);
      && Shape(r) && EndsIn(s, r, p, known) && r.current == s.current && r.pending == s.pending
      && (forall u: nat :: u < MAX_TASKS && u != p ==> Disowned(s, r, p, known, u))
      && if s.status[p] == Ready
         then exists i :: 0 <= i < |s.queue| && s.queue[i] == p && r.queue == s.queue[..i] + s.queue[i + 1..]
         else r.queue == s.queue
  {
    hide First, Finish, EndsIn;
    assert Disowned(s, d, p, known, p);
    var q := Unqueued(d, p);
    forall u: nat | u < MAX_TASKS ensures Disowned(s, q, p, known, u) { assert Disowned(s, d, p, known, u); }
    FinishSlots(s, q, p, known);
    if s.status[p] == Ready { assert s.queue[First(s.queue, p)] == p; }
  }

  /** The scheduler frees the task it has to clean up, puts a caller that still runs behind
      the others, remembers one that was terminated, and starts the next. */
  lemma SwitchExact(s: Sched)
    requires Inv(s)
    ensures var r, c := Schedule(s), s.current;
      && Shape(r) && 0 <= r.current < MAX_TASKS && r.status[r.current] == Running
      && r.pending == (if c > 0 && s.status[c] == Terminated then c else -1)
      && forall t: nat :: t < MAX_TASKS && t != r.current ==>
           if t == s.pending then EmptySlot(r, t)
           else if t == c && t > 0 && s.status[t] == Running then
             r.status[t] == Ready && r.wake[t] == s.wake[t] && r.parent[t] == s.parent[t]
           else SameSlot(s, r, t)
  {
    hide Used, TaskOk;
    ScheduleKeeps(s);
    ScheduleRuns(s);
    CleanUpKeeps(s);
  }
}
