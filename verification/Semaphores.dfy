/** Counting semaphores (src/kernel/sync/semaphore.c) over a wake-up that does not know
    what a task waits for (task_wakeup in src/kernel/task.c). */
module Semaphores {
  import opened Common

  /** Where a task is: outside, in the loop of semaphore_wait about to test the count, or
      blocked there. */
  datatype Task = Away | Trying(sem: nat) | Stuck(sem: nat)

  datatype State = State(count: map<nat, nat>, tasks: seq<Task>)

  function Count(s: State, x: nat): nat { if x in s.count then s.count[x] else 0 }

  datatype Step = Enter(t: nat, sem: nat) | Test(t: nat) | Signal(sem: nat)

  /** The lowest slot with a blocked task, whatever it waits for. */
  function FirstStuck(tasks: seq<Task>, from: nat): (t: int)
    requires from <= |tasks|
    ensures t == -1 ==> forall u :: from <= u < |tasks| ==> !tasks[u].Stuck?
    ensures t != -1 ==> from <= t < |tasks| && tasks[t].Stuck? && forall u :: from <= u < t ==> !tasks[u].Stuck?
    decreases |tasks| - from
  {
    if from == |tasks| then -1
    else if tasks[from].Stuck? then from
    else FirstStuck(tasks, from + 1)
  }

  predicate Possible(s: State, step: Step) {
    match step
    case Enter(t, _) => t < |s.tasks| && s.tasks[t].Away?
    case Test(t) => t < |s.tasks| && s.tasks[t].Trying?
    case Signal(_) => true
  }

  function Next(s: State, step: Step): State
    requires Possible(s, step)
  {
    match step
    case Enter(t, x) => s.(tasks := s.tasks[t := Trying(x)])
    case Test(t) =>
      var x := s.tasks[t].sem;
      if Count(s, x) > 0 then State(s.count[x := Count(s, x) - 1], s.tasks[t := Away])
      else s.(tasks := s.tasks[t := Stuck(x)])
    case Signal(x) =>
      var n := if Count(s, x) < INT_MAX then Count(s, x) + 1 else Count(s, x);
      var t := FirstStuck(s.tasks, 0);
      State(s.count[x := n], if t == -1 then s.tasks else s.tasks[t := Trying(s.tasks[t].sem)])
  }

  ghost function In(tasks: seq<Task>, k: Task): set<nat> {
    set t: nat | t < |tasks| && tasks[t] == k
  }

  lemma InChange(tasks: seq<Task>, t: nat, y: Task, k: Task)
    requires t < |tasks|
    ensures |In(tasks[t := y], k)| + One(tasks[t] == k) == |In(tasks, k)| + One(y == k)
  {
    Differ(In(tasks[t := y], k), In(tasks, k), t);
  }

  /** No task is blocked on x while the count could let it through: for each unit there
      is a task about to take it. */
  ghost predicate NoneStranded(s: State, x: nat) {
    In(s.tasks, Stuck(x)) != {} ==> Count(s, x) <= |In(s.tasks, Trying(x))|
  }

  /** A signal of x reaches a task that waits for x, if there is one. */
  predicate Aimed(s: State, x: nat) {
    var t := FirstStuck(s.tasks, 0);
    t == -1 || s.tasks[t] == Stuck(x) || forall u :: 0 <= u < |s.tasks| ==> s.tasks[u] != Stuck(x)
  }

  lemma NextKeeps(s: State, step: Step, x: nat)
    requires Possible(s, step) && NoneStranded(s, x)
    requires step == Signal(x) ==> Aimed(s, x)
    ensures NoneStranded(Next(s, step), x)
  {
    var r := Next(s, step);
    match step
    case Enter(t, y) =>
      InChange(s.tasks, t, Trying(y), Trying(x));
      InChange(s.tasks, t, Trying(y), Stuck(x));
    case Test(t) =>
      InChange(s.tasks, t, r.tasks[t], Trying(x));
      InChange(s.tasks, t, r.tasks[t], Stuck(x));
    case Signal(y) =>
      var t := FirstStuck(s.tasks, 0);
      if t != -1 {
        InChange(s.tasks, t, r.tasks[t], Trying(x));
        InChange(s.tasks, t, r.tasks[t], Stuck(x));
      }
  }

  /** A run in which every signal of x is aimed. */
  ghost predicate Good(s: State, steps: seq<Step>, x: nat)
    decreases |steps|
  {
    steps == [] ||
    (Possible(s, steps[0]) && (steps[0] == Signal(x) ==> Aimed(s, x)) && Good(Next(s, steps[0]), steps[1..], x))
  }

  ghost function After(s: State, steps: seq<Step>): State
    decreases |steps|
  {
    if steps == [] then s
    else if Possible(s, steps[0]) then After(Next(s, steps[0]), steps[1..]) else s
  }

  /** As long as signals are aimed, no wake-up is lost. */
  lemma {:induction false} AimedSignalsSuffice(s: State, steps: seq<Step>, x: nat)
    requires NoneStranded(s, x) && Good(s, steps, x)
    ensures NoneStranded(After(s, steps), x)
    decreases |steps|
  {
    if steps != [] {
      NextKeeps(s, steps[0], x);
      AimedSignalsSuffice(Next(s, steps[0]), steps[1..], x);
    }
  }

  /** Nobody waits for a semaphore other than x. */
  ghost predicate OnlyFor(s: State, x: nat) {
    forall t :: 0 <= t < |s.tasks| && !s.tasks[t].Away? ==> s.tasks[t].sem == x
  }

  lemma OneSemaphore(s: State, x: nat)
    requires OnlyFor(s, x)
    ensures Aimed(s, x)
  {
  }

  /** A system with one semaphore never loses a wake-up. */
  lemma {:induction false} OneSemaphoreSuffices(s: State, steps: seq<Step>, x: nat)
    requires NoneStranded(s, x) && OnlyFor(s, x)
    requires forall step :: step in steps && step.Enter? ==> step.sem == x
    ensures NoneStranded(After(s, steps), x)
    decreases |steps|
  {
    if steps != [] && Possible(s, steps[0]) {
      OneSemaphore(s, x);
      NextKeeps(s, steps[0], x);
      var r := Next(s, steps[0]);
      assert steps[0] in steps;
      assert OnlyFor(r, x);
      OneSemaphoreSuffices(r, steps[1..], x);
    }
  }

  /** In general a signal of x strands nobody if and only if it is aimed or enough tasks
      are already on the way to x; a full count does not grow. */
  lemma AimedExact(s: State, x: nat)
    requires NoneStranded(s, x)
    ensures NoneStranded(Next(s, Signal(x)), x) <==>
              Aimed(s, x) || Count(s, x) >= INT_MAX || Count(s, x) + 1 <= |In(s.tasks, Trying(x))|
  {
    var t := FirstStuck(s.tasks, 0);
    var r := Next(s, Signal(x));
    if Aimed(s, x) {
      NextKeeps(s, Signal(x), x);
    } else {
      InChange(s.tasks, t, r.tasks[t], Trying(x));
      InChange(s.tasks, t, r.tasks[t], Stuck(x));
      var u :| 0 <= u < |s.tasks| && s.tasks[u] == Stuck(x);
      assert u in In(s.tasks, Stuck(x));
      assert In(r.tasks, Stuck(x)) != {};
    }
  }

  /** The kernel's two-semaphore case: a task in a lower slot blocked on a takes the
      wake-up meant for b, finds nothing and blocks again. The count of b is then 1, its
      waiter is blocked, and no task is about to move. */
  lemma WakeupLost(a: nat, b: nat)
    requires a != b
    ensures var s := State(map[], [Stuck(a), Stuck(b)]); var r := After(s, [Signal(b), Test(0)]);
      NoneStranded(s, b) && r == State(map[b := 1], [Stuck(a), Stuck(b)]) && !NoneStranded(r, b)
  {
    var s := State(map[], [Stuck(a), Stuck(b)]);
    var m := State(map[b := 1], [Trying(a), Stuck(b)]);
    var r := State(map[b := 1], [Stuck(a), Stuck(b)]);
    assert FirstStuck(s.tasks, 0) == 0;
    assert Next(s, Signal(b)) == m && Next(m, Test(0)) == r;
    assert [Signal(b), Test(0)][1..] == [Test(0)] && [Test(0)][1..] == [];
    assert After(m, [Test(0)]) == r;
    assert 1 in In(r.tasks, Stuck(b)) && In(r.tasks, Trying(b)) == {};
  }

  // ------------------------------------------------------------- units

  /** A wait on x is over with this step. */
  predicate Passes(s: State, step: Step, x: nat)
    requires Possible(s, step)
  {
    step.Test? && s.tasks[step.t] == Trying(x) && Next(s, step).tasks[step.t] == Away
  }

  /** A task passes exactly if there is a unit and takes it; a signal brings one, up to the
      limit; and nothing else changes a count. */
  lemma UnitsExact(s: State, step: Step, x: nat)
    requires Possible(s, step)
    ensures Count(Next(s, step), x) + One(Passes(s, step, x)) ==
            Count(s, x) + One(step == Signal(x) && Count(s, x) < INT_MAX)
    ensures step.Test? && s.tasks[step.t] == Trying(x) ==> (Passes(s, step, x) <==> Count(s, x) > 0)
    ensures step.Test? && s.tasks[step.t] == Trying(x) && Count(s, x) == 0 ==> Next(s, step).tasks[step.t] == Stuck(x)
  {
  }

  /** How many waits on x end in a run, and how many units its signals bring. */
  ghost function Passed(s: State, steps: seq<Step>, x: nat): nat
    decreases |steps|
  {
    if steps == [] || !Possible(s, steps[0]) then 0
    else One(Passes(s, steps[0], x)) + Passed(Next(s, steps[0]), steps[1..], x)
  }

  ghost function Brought(s: State, steps: seq<Step>, x: nat): nat
    decreases |steps|
  {
    if steps == [] || !Possible(s, steps[0]) then 0
    else One(steps[0] == Signal(x) && Count(s, x) < INT_MAX) + Brought(Next(s, steps[0]), steps[1..], x)
  }

  /** Over every run no more waits end than there are units: what was there and what was
      brought is what was taken and what is left. */
  lemma {:induction false} UnitsConserved(s: State, steps: seq<Step>, x: nat)
    ensures Count(After(s, steps), x) + Passed(s, steps, x) == Count(s, x) + Brought(s, steps, x)
    decreases |steps|
  {
    if steps != [] && Possible(s, steps[0]) {
      UnitsExact(s, steps[0], x);
      UnitsConserved(Next(s, steps[0]), steps[1..], x);
    }
  }
}
