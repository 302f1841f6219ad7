/** Whole runs of the address-space operations, seen as processes with private
    memories. */
module Processes {
  import opened Common
  import opened Cow
  import opened Frames
  import opened Vmm

  /** A call into the memory manager. */
  datatype Call =
    | Create
    | Fork(parent: nat)
    | Free(dir: nat, inUse: bool)
    | Switch(dir: nat)
    | Write(addr: nat, b: byte)
    | MapAt(dir: nat, addr: nat, write: bool, user: bool, attr: nat)
    | UnmapAt(dir: nat, addr: nat)

  /** What a call did to the memories; Nothing when it was refused or failed. */
  datatype Event =
    | Nothing
    | Created(dir: nat)
    | Forked(parent: nat, child: nat)
    | Freed(dir: nat)
    | Wrote(dir: nat, addr: nat, b: byte)
    | Grew(dir: nat, page: (nat, nat), view: View)
    | Replaced(dir: nat, page: (nat, nat), view: View)
    | Shrank(dir: nat, page: (nat, nat))

  type Memories = map<nat, Space>

  /** Every process has its own memory: what each event does to the memories. */
  ghost predicate Step(s: Memories, e: Event, t: Memories) {
    match e
    case Nothing => t == s
    case Created(d) => d !in s && t == s[d := imap[]]
    case Forked(p, c) => p in s && c !in s && t == s[c := s[p]]
    case Freed(d) => d in s && t == s - {d}
    case Wrote(d, a, b) => MayWrite(s, d, a) && t == Written(s, d, a, b)
    case Grew(d, k, v) => d in s && k !in s[d] && t == s[d := s[d][k := v]]
    case Replaced(d, k, v) => d in s && k in s[d] && t == s[d := s[d][k := v]]
    case Shrank(d, k) => d in s && k in s[d] && t == s[d := s[d] - {k}]
  }

  ghost predicate Trace(states: seq<Memories>, events: seq<Event>) {
    && |states| == |events| + 1
    && forall i :: 0 <= i < |events| ==> Step(states[i], events[i], states[i + 1])
  }

  /** The process acts on its own memory or ends. */
  predicate ActsOn(e: Event, d: nat) {
    match e
    case Nothing => false
    case Created(c) => c == d
    case Forked(_, c) => c == d
    case Freed(c) => c == d
    case Wrote(c, _, _) => c == d
    case Grew(c, _, _) => c == d
    case Replaced(c, _, _) => c == d
    case Shrank(c, _) => c == d
  }

  /** Fork isolation over whole runs: while a process does nothing to its own
      memory, no fork, write, mapping or exit of another process changes it. */
  lemma {:induction false} Isolation(states: seq<Memories>, events: seq<Event>, d: nat, i: nat, j: nat)
    requires Trace(states, events) && i <= j <= |events| && d in states[i]
    requires forall x :: i <= x < j ==> !ActsOn(events[x], d)
    ensures d in states[j] && states[j][d] == states[i][d]
    decreases j
  {
    if i < j {
      Isolation(states, events, d, i, j - 1);
      assert Step(states[j - 1], events[j - 1], states[j]);
      assert !ActsOn(events[j - 1], d);
    }
  }

  /** A child keeps showing the parent's memory of the moment of the fork until it
      writes, maps or unmaps itself, whatever the parent does meanwhile; and the
      parent's memory is not changed by the child. */
  lemma ForkSnapshot(states: seq<Memories>, events: seq<Event>, i: nat, j: nat)
    requires Trace(states, events) && i < j <= |events| && events[i].Forked?
    ensures events[i].parent in states[i]
    ensures (forall x :: i < x < j ==> !ActsOn(events[x], events[i].child)) ==>
              events[i].child in states[j] && states[j][events[i].child] == states[i][events[i].parent]
    ensures (forall x :: i < x < j ==> !ActsOn(events[x], events[i].parent)) ==>
              events[i].parent in states[j] && states[j][events[i].parent] == states[i][events[i].parent]
  {
    assert Step(states[i], events[i], states[i + 1]);
    if forall x :: i < x < j ==> !ActsOn(events[x], events[i].child) {
      Isolation(states, events, events[i].child, i + 1, j);
    }
    if forall x :: i < x < j ==> !ActsOn(events[x], events[i].parent) {
      Isolation(states, events, events[i].parent, i + 1, j);
    }
  }

  /** The byte a process reads at a user address. */
  ghost function Read(s: Memories, d: nat, addr: nat): Option<byte> {
    if d in s && PageOf(addr) in s[d] && addr % PAGE < |s[d][PageOf(addr)].bytes|
    then Some(s[d][PageOf(addr)].bytes[addr % PAGE]) else None
  }

  /** A write changes one byte of one process. */
  lemma WriteChangesOneByte(s: Memories, t: Memories, d: nat, addr: nat, b: byte, e: nat, x: nat)
    requires Step(s, Wrote(d, addr, b), t) && addr < USER_END && x < USER_END
    ensures Read(t, e, x) == if e == d && x == addr then Some(b) else Read(s, e, x)
  {
    hide PageOf;
    SamePlace(x, addr);
  }

  lemma SamePlace(x: nat, addr: nat)
    ensures PageOf(x) == PageOf(addr) && x % PAGE == addr % PAGE <==> x == addr
  {
    if PageOf(x) == PageOf(addr) {
      assert x / PAGE == addr / PAGE;
    }
  }

  /** A page that is mapped, over another or not, reads as zeros and can be written if the call
      says so; every other address of every process is as before. */
  lemma MapReadsZero(m: Mem, t: Memories, current: nat, call: Call, e: Event, c: nat, x: nat)
    requires call.MapAt? && Answers(m, current, call, e) && (e.Grew? || e.Replaced?) && Step(Spaces(m), e, t)
    ensures Read(t, c, x) == if c == call.dir && PageOf(x) == PageOf(call.addr) then Some(0) else Read(Spaces(m), c, x)
    ensures MayWrite(t, c, x) <==>
              if c == call.dir && PageOf(x) == PageOf(call.addr) then call.write else MayWrite(Spaces(m), c, x)
  {
    hide Spaces, SpaceOf, PageOf, Inv;
    ZeroPageIs();
  }

  /** An unmapped page reads as nothing, and every other address as before. */
  lemma UnmapReadsNothing(s: Memories, t: Memories, d: nat, k: (nat, nat), c: nat, x: nat)
    requires Step(s, Shrank(d, k), t)
    ensures Read(t, c, x) == if c == d && PageOf(x) == k then None else Read(s, c, x)
  {
    hide PageOf;
  }

  // ------------------------------------------------------------------- calls

  /** The memory manager between two calls, and the directory the processor uses. */
  datatype Moment = Moment(mem: Mem, current: nat)

  /** The free frames. */
  ghost function Spare(m: Mem): int { |m.refs| - |m.use| }

  /** The event of a call. A dead directory, an address outside user space, a full task pool
      and a lack of frames are answered by Nothing, and nothing else is. */
  ghost predicate Answers(m: Mem, current: nat, call: Call, e: Event) {
    match call
    case Create => if |Dirs(m)| < MAX_TASKS && Spare(m) > 0 then e.Created? else e == Nothing
    case Fork(p) =>
      if IsDir(m, p) && |Dirs(m)| < MAX_TASKS && Spare(m) >= 1 + Tables(m.pdes.Keys, p, PDES)
      then e.Forked? && e.parent == p else e == Nothing
    case Free(d, inUse) => e == if IsDir(m, d) && d != current && !inUse then Freed(d) else Nothing
    case Switch(_) => e == Nothing
    case Write(a, b) =>
      e == if a < USER_END && MayWrite(Spaces(m), current, a) && (Spare(m) > 0 || !MustCopy(m, current, PageOf(a)))
           then Wrote(current, a, b) else Nothing
    case MapAt(d, a, w, u, x) =>
      var k, view := PageOf(a), View(ZeroPage(), w, u, x);
      e == if !(IsDir(m, d) && a < USER_END && Spare(m) >= 1 + One((d, k.0) !in m.pdes)) then Nothing
           else if k in SpaceOf(m, d) then Replaced(d, k, view) else Grew(d, k, view)
    case UnmapAt(d, a) =>
      e == if IsDir(m, d) && a < USER_END && PageOf(a) in SpaceOf(m, d) then Shrank(d, PageOf(a)) else Nothing
  }

  /** The frames an event takes, or gives back. */
  ghost predicate Spends(m: Mem, e: Event, n: Mem) {
    match e
    case Nothing => Spare(n) == Spare(m)
    case Created(_) => Spare(n) == Spare(m) - 1
    case Forked(p, _) => Spare(n) == Spare(m) - 1 - Tables(m.pdes.Keys, p, PDES)
    case Freed(_) => Spare(n) > Spare(m)
    case Wrote(d, a, _) => Spare(n) == Spare(m) - One(MustCopy(m, d, PageOf(a)))
    case Grew(d, k, _) => Spare(n) == Spare(m) - 1 - One((d, k.0) !in m.pdes)
    case Replaced(d, k, _) => Spare(n) == Spare(m) - 1 - One((d, k.0) !in m.pdes)
    case Shrank(d, k) => Spare(n) == Spare(m) + One(!Shared(m, d, k))
  }

  /** The page tables there are after an event. */
  ghost function TablesAfter(keys: set<(nat, nat)>, e: Event): set<(nat, nat)> {
    match e
    case Forked(p, c) => WithCopies(keys, p, c)
    case Freed(d) => set k | k in keys && k.0 != d
    case Grew(d, k, _) => keys + {(d, k.0)}
    case Replaced(d, k, _) => keys + {(d, k.0)}
    case _ => keys
  }

  /** The reference an event leaves without an entry. */
  ghost function LostBy(m: Mem, e: Event): multiset<nat> {
    if e.Replaced? then LostIn(m, e.dir, e.page) else multiset{}
  }

  /** One call: its own event and no other, what that event does to the memories, and its
      effect on frames, tables and references. */
  ghost predicate Transition(s: Moment, call: Call, e: Event, t: Moment) {
    && Inv(s.mem, 0) && Inv(t.mem, 0) && SameReserved(s.mem, t.mem)
    && Answers(s.mem, s.current, call, e) && Step(Spaces(s.mem), e, Spaces(t.mem))
    && Spends(s.mem, e, t.mem) && t.mem.pdes.Keys == TablesAfter(s.mem.pdes.Keys, e)
    && t.mem.lost == s.mem.lost + LostBy(s.mem, e)
    && t.current == if call.Switch? && IsDir(s.mem, call.dir) then call.dir else s.current
  }

  ghost predicate Traced(moments: seq<Moment>, calls: seq<Call>, events: seq<Event>) {
    && |moments| == |events| + 1 <= |calls| + 1
    && forall i :: 0 <= i < |events| ==> Transition(moments[i], calls[i], events[i], moments[i + 1])
  }

  ghost function Views(moments: seq<Moment>): seq<Memories> {
    seq(|moments|, i requires 0 <= i < |moments| => Spaces(moments[i].mem))
  }

  lemma ViewsTrace(moments: seq<Moment>, calls: seq<Call>, events: seq<Event>)
    requires Traced(moments, calls, events)
    ensures Trace(Views(moments), events)
  {
    hide Step, Spaces, Answers, Spends, Inv, SameReserved;
    var states := Views(moments);
    forall i | 0 <= i < |events| ensures Step(states[i], events[i], states[i + 1]) {
      assert Transition(moments[i], calls[i], events[i], moments[i + 1]);
    }
  }

  /** A call in which process d acts on its own memory, or which ends it. */
  predicate Concerns(call: Call, current: nat, d: nat) {
    match call
    case Free(c, _) => c == d
    case Write(_, _) => current == d
    case MapAt(c, _, _, _, _) => c == d
    case UnmapAt(c, _) => c == d
    case _ => false
  }

  /** Isolation over calls: in every run, calls that do not concern a process leave its
      memory as it is, whether they succeed or not. */
  lemma {:induction false} IsolationOfCalls(moments: seq<Moment>, calls: seq<Call>, events: seq<Event>, d: nat,
                                            i: nat, j: nat)
    requires Traced(moments, calls, events) && i <= j <= |events| && d in Spaces(moments[i].mem)
    requires forall x :: i <= x < j ==> !Concerns(calls[x], moments[x].current, d)
    ensures d in Spaces(moments[j].mem) && Spaces(moments[j].mem)[d] == Spaces(moments[i].mem)[d]
    decreases j
  {
    hide Spaces, Transition, Concerns;
    if i < j {
      IsolationOfCalls(moments, calls, events, d, i, j - 1);
      assert Transition(moments[j - 1], calls[j - 1], events[j - 1], moments[j]);
      assert !Concerns(calls[j - 1], moments[j - 1].current, d);
      LeavesAlone(moments[j - 1], calls[j - 1], events[j - 1], moments[j], d);
    }
  }

  lemma LeavesAlone(s: Moment, call: Call, e: Event, t: Moment, d: nat)
    requires Transition(s, call, e, t) && d in Spaces(s.mem) && !Concerns(call, s.current, d)
    ensures d in Spaces(t.mem) && Spaces(t.mem)[d] == Spaces(s.mem)[d]
  {
    hide Spaces, SpaceOf, Inv, SameReserved, Spends, TablesAfter, LostBy, MayWrite, MustCopy, Tables;
  }

  // ------------------------------------------------------- frames over a run

  /** How often a run mapped over a page. */
  ghost function Replacements(events: seq<Event>): nat {
    if events == [] then 0
    else Replacements(events[..|events| - 1]) + One(events[|events| - 1].Replaced?)
  }

  lemma LosesOne(s: Moment, call: Call, e: Event, t: Moment)
    requires Transition(s, call, e, t)
    ensures s.mem.lost <= t.mem.lost && |t.mem.lost| == |s.mem.lost| + One(e.Replaced?)
    ensures |Dirs(t.mem)| <= MAX_TASKS || |Dirs(t.mem)| <= |Dirs(s.mem)|
  {
    hide Inv, SameReserved, Spends, Spaces, TablesAfter, DirsIn, SpaceOf, LostIn, MayWrite, Written;
    if e.Replaced? {
      SpaceIn(s.mem, e.dir);
      LostOne(s.mem, e.dir, e.page);
    }
    DirsAreKeys(s.mem);
    DirsAreKeys(t.mem);
    StepKeys(Spaces(s.mem), e, Spaces(t.mem));
  }

  /** Only Created and Forked add a process. */
  lemma StepKeys(s: Memories, e: Event, t: Memories)
    requires Step(s, e, t)
    ensures |t.Keys| <= |s.Keys| + One(e.Created? || e.Forked?)
  {
    match e
    case Created(d) => assert t.Keys == s.Keys + {d};
    case Forked(_, d) => assert t.Keys == s.Keys + {d};
    case Freed(d) => assert t.Keys == s.Keys - {d};
    case Wrote(d, _, _) => assert t.Keys == s.Keys;
    case Grew(d, _, _) => assert t.Keys == s.Keys;
    case Replaced(d, _, _) => assert t.Keys == s.Keys;
    case Shrank(d, _) => assert t.Keys == s.Keys;
    case Nothing =>
  }

  /** In every run a reference is lost with each replaced page and in no other way, and the
      task pool bounds the processes. */
  lemma {:induction false} RunLoses(moments: seq<Moment>, calls: seq<Call>, events: seq<Event>, n: nat)
    requires Traced(moments, calls, events) && n <= |events| && Inv(moments[0].mem, 0)
    ensures var s, t := moments[0].mem, moments[n].mem;
      && Inv(t, 0) && SameReserved(s, t)
      && s.lost <= t.lost && |t.lost| == |s.lost| + Replacements(events[..n]) <= |s.lost| + n
      && (|Dirs(s)| <= MAX_TASKS ==> |Dirs(t)| <= MAX_TASKS)
  {
    hide Transition, Inv, SameReserved, Dirs;
    if n == 0 {
      SameReservedSelf(moments[0].mem);
    } else {
      RunLoses(moments, calls, events, n - 1);
      assert Transition(moments[n - 1], calls[n - 1], events[n - 1], moments[n]);
      LosesOne(moments[n - 1], calls[n - 1], events[n - 1], moments[n]);
      TransitionKeeps(moments[n - 1], calls[n - 1], events[n - 1], moments[n]);
      SameReservedTrans(moments[0].mem, moments[n - 1].mem, moments[n].mem);
      assert events[..n][..n - 1] == events[..n - 1];
    }
  }

  lemma TransitionKeeps(s: Moment, call: Call, e: Event, t: Moment)
    requires Transition(s, call, e, t)
    ensures Inv(t.mem, 0) && SameReserved(s.mem, t.mem)
  {
  }

  /** A run from no process to no process gives every reference back exactly if it mapped
      over no page. */
  lemma RunReturns(moments: seq<Moment>, calls: seq<Call>, events: seq<Event>)
    requires Traced(moments, calls, events) && Inv(moments[0].mem, 0)
    requires Spaces(moments[0].mem) == map[] && Spaces(moments[|events|].mem) == map[]
    ensures moments[|events|].mem.refs == moments[0].mem.refs <==> Replacements(events) == 0
  {
    hide Transition, Inv, SameReserved, Dirs, Spaces;
    var s, t := moments[0].mem, moments[|events|].mem;
    RunLoses(moments, calls, events, |events|);
    assert events[..|events|] == events;
    EmptyRefs(s, t);
    SameLost(s.lost, t.lost);
  }

  /** Such a run: a process is made, a page is mapped twice at one address, and the process
      ends. With four free frames every call succeeds, and a reference is left. */
  lemma MapTwiceLoses(moments: seq<Moment>, events: seq<Event>, d: nat, addr: nat, write: bool)
    requires var map1 := MapAt(d, addr, write, true, 0); Traced(moments, [Create, map1, map1, Free(d, false)], events)
    requires |events| == 4 && events[0] == Created(d) && moments[0].current != d && addr < USER_END
    requires Spaces(moments[0].mem) == map[] && Spare(moments[0].mem) >= 4
    ensures var view := View(ZeroPage(), write, true, 0);
      events == [Created(d), Grew(d, PageOf(addr), view), Replaced(d, PageOf(addr), view), Freed(d)]
    ensures Spaces(moments[4].mem) == map[] && moments[4].mem.refs != moments[0].mem.refs
  {
    hide Transition, Inv, Spaces, ZeroPage, PageOf, Replacements;
    var k, view, map1 := PageOf(addr), View(ZeroPage(), write, true, 0), MapAt(d, addr, write, true, 0);
    var calls := [Create, map1, map1, Free(d, false)];
    assert Transition(moments[0], calls[0], events[0], moments[1]);
    CreateStep(moments[0], events[0], moments[1], d);
    assert Transition(moments[1], calls[1], events[1], moments[2]);
    MapStep(moments[1], map1, events[1], moments[2]);
    assert Transition(moments[2], calls[2], events[2], moments[3]);
    MapStep(moments[2], map1, events[2], moments[3]);
    assert Transition(moments[3], calls[3], events[3], moments[4]);
    FreeStep(moments[3], events[3], moments[4], d);
    assert Spaces(moments[4].mem) == map[];
    FourEvents(events);
    RunReturns(moments, calls, events);
  }

  lemma CreateStep(s: Moment, e: Event, t: Moment, d: nat)
    requires Transition(s, Create, e, t) && e == Created(d)
    ensures Inv(s.mem, 0) && t.current == s.current && Spare(t.mem) == Spare(s.mem) - 1
    ensures Spaces(t.mem) == Spaces(s.mem)[d := imap[]]
  {
    hide Inv, SameReserved, Spaces, Tables;
  }

  lemma MapStep(s: Moment, call: Call, e: Event, t: Moment)
    requires Transition(s, call, e, t) && call.MapAt? && call.addr < USER_END && call.dir in Spaces(s.mem)
    requires Spare(s.mem) >= 1 + One((call.dir, PageOf(call.addr).0) !in s.mem.pdes.Keys)
    ensures var d, k, view := call.dir, PageOf(call.addr), View(ZeroPage(), call.write, call.user, call.attr);
      && e == (if k in Spaces(s.mem)[d] then Replaced(d, k, view) else Grew(d, k, view))
      && Spaces(t.mem) == Spaces(s.mem)[d := Spaces(s.mem)[d][k := view]] && t.current == s.current
      && (d, k.0) in t.mem.pdes.Keys && Spare(t.mem) == Spare(s.mem) - 1 - One((d, k.0) !in s.mem.pdes.Keys)
  {
    hide Inv, SameReserved, Spaces, SpaceOf, ZeroPage, PageOf;
    InSpaces(s.mem, call.dir);
    SpaceIn(s.mem, call.dir);
  }

  lemma FreeStep(s: Moment, e: Event, t: Moment, d: nat)
    requires Transition(s, Free(d, false), e, t) && d in Spaces(s.mem) && d != s.current
    ensures e == Freed(d) && Spaces(t.mem) == Spaces(s.mem) - {d}
  {
    hide Inv, SameReserved, Spaces;
    InSpaces(s.mem, d);
  }

  lemma FourEvents(events: seq<Event>)
    requires |events| == 4
    ensures Replacements(events) == One(events[0].Replaced?) + One(events[1].Replaced?) + One(events[2].Replaced?)
                                    + One(events[3].Replaced?)
  {
    assert events[..3][..2] == events[..2] && events[..2][..1] == events[..1] && events[..1][..0] == [];
    assert Replacements(events[..1]) == One(events[0].Replaced?);
    assert Replacements(events[..2]) == Replacements(events[..1]) + One(events[1].Replaced?);
    assert Replacements(events[..3]) == Replacements(events[..2]) + One(events[2].Replaced?);
  }

  // ------------------------------------------------------------ the machine

  ghost function Now(mm: AddressSpaces): Moment
    reads mm, mm.frames.refs
  {
    Moment(mm.State(), mm.current)
  }

  /** No page of the directory has a full count. */
  ghost predicate MayFork(m: Mem, p: nat) { IsDir(m, p) ==> Roomy(m, MAX_REFS, p, 0, 0) }

  /** One call. */
  method Do(mm: AddressSpaces, call: Call) returns (e: Event)
    requires mm.Valid() && (call.Fork? ==> MayFork(mm.State(), call.parent))
    modifies mm, mm.frames, mm.frames.bitmap, mm.frames.refs
    ensures mm.Valid() && Transition(old(Now(mm)), call, e, Now(mm))
  {
    hide AddressSpaces.Valid, Transition, MayFork;
    match call {
      case Create => e := DoCreate(mm);
      case Fork(p) => e := DoFork(mm, p);
      case Free(d, inUse) => e := DoFree(mm, d, inUse);
      case Switch(d) => e := DoSwitch(mm, d);
      case Write(addr, b) => e := DoWrite(mm, addr, b);
      case MapAt(d, addr, write, user, attr) => e := DoMap(mm, d, addr, write, user, attr);
      case UnmapAt(d, addr) => e := DoUnmap(mm, d, addr);
    }
  }

  method DoFree(mm: AddressSpaces, d: nat, inUse: bool) returns (e: Event)
    requires mm.Valid()
    modifies mm, mm.frames, mm.frames.bitmap, mm.frames.refs
    ensures mm.Valid() && Transition(old(Now(mm)), Free(d, inUse), e, Now(mm))
  {
    hide Inv, Guards, Allocator.Valid, Allocator.Tight, Spaces, SameReserved, Transition;
    if !(d in mm.use && mm.use[d].Directory? && d != mm.current && !inUse) {
      NoFreeing(Now(mm), d, inUse);
      return Nothing;
    }
    forall x | (d, x) in mm.pdes ensures x < PDES { mm.TableLinked(d, x); }
    mm.FreeIs(0);
    mm.FreeDirectory(d, inUse);
    mm.FreeIs(0);
    e := Freed(d);
    Freeing(old(Now(mm)), d, Now(mm));
  }

  lemma NoFreeing(s: Moment, d: nat, inUse: bool)
    requires Inv(s.mem, 0) && !(IsDir(s.mem, d) && d != s.current && !inUse)
    ensures Transition(s, Free(d, inUse), Nothing, s)
  {
    hide Inv, Spaces, SameReserved;
    SameReservedSelf(s.mem);
  }

  lemma Freeing(s: Moment, d: nat, t: Moment)
    requires Inv(s.mem, 0) && Inv(t.mem, 0) && SameReserved(s.mem, t.mem)
    requires IsDir(s.mem, d) && d != s.current && t.current == s.current
    requires Spaces(t.mem) == Spaces(s.mem) - {d} && Spare(t.mem) > Spare(s.mem) && t.mem.lost == s.mem.lost
    requires t.mem.pdes == Without(s.mem.pdes, d, PDES) && forall x :: (d, x) in s.mem.pdes ==> x < PDES
    ensures Transition(s, Free(d, false), Freed(d), t)
  {
    hide Inv, Spaces, SameReserved;
    InSpaces(s.mem, d);
    assert t.mem.pdes.Keys == set k | k in s.mem.pdes.Keys && k.0 != d;
  }

  method DoSwitch(mm: AddressSpaces, d: nat) returns (e: Event)
    requires mm.Valid()
    modifies mm, mm.frames, mm.frames.bitmap, mm.frames.refs
    ensures mm.Valid() && Transition(old(Now(mm)), Switch(d), e, Now(mm))
  {
    hide Inv, Guards, Allocator.Valid, Allocator.Tight, Spaces, SpaceOf, SameReserved, DirsIn;
    SameReservedSelf(mm.State());
    mm.FreeIs(0);
    e := Nothing;
    if d in mm.use && mm.use[d].Directory? {
      mm.current := d;
    }
    mm.FreeIs(0);
  }

  method DoWrite(mm: AddressSpaces, addr: nat, b: byte) returns (e: Event)
    requires mm.Valid()
    modifies mm, mm.frames, mm.frames.bitmap, mm.frames.refs
    ensures mm.Valid() && Transition(old(Now(mm)), Write(addr, b), e, Now(mm))
  {
    hide Inv, Guards, Allocator.Valid, Allocator.Tight, Spaces, SpaceOf, SameReserved, DirsIn;
    hide PageOf, MayWrite, Written, Shared;
    SameReservedSelf(mm.State());
    mm.FreeIs(0);
    e := Nothing;
    if addr < USER_END {
      var ok := mm.Write(addr, b);
      if ok {
        e := Wrote(mm.current, addr, b);
      }
    }
    mm.FreeIs(0);
  }

  method DoUnmap(mm: AddressSpaces, d: nat, addr: nat) returns (e: Event)
    requires mm.Valid()
    modifies mm, mm.frames, mm.frames.bitmap, mm.frames.refs
    ensures mm.Valid() && Transition(old(Now(mm)), UnmapAt(d, addr), e, Now(mm))
  {
    hide Inv, Guards, Allocator.Valid, Allocator.Tight, Spaces, SpaceOf, SameReserved, DirsIn, PageOf, Shared;
    SameReservedSelf(mm.State());
    mm.FreeIs(0);
    e := Nothing;
    if d in mm.use && mm.use[d].Directory? && addr < USER_END {
      SpaceIn(mm.State(), d);
      var ok := mm.UnmapPage(d, addr);
      if ok {
        e := Shrank(d, PageOf(addr));
      }
    }
    mm.FreeIs(0);
  }

  method DoCreate(mm: AddressSpaces) returns (e: Event)
    requires mm.Valid()
    modifies mm, mm.frames, mm.frames.bitmap, mm.frames.refs
    ensures mm.Valid() && Transition(old(Now(mm)), Create, e, Now(mm))
  {
    hide Inv, Guards, Allocator.Valid, Allocator.Tight, Spaces, SpaceOf, SameReserved, DirsIn;
    SameReservedSelf(mm.State());
    mm.FreeIs(0);
    e := Nothing;
    var alive := Alive(mm);
    if |alive| < MAX_TASKS {
      var r := mm.Create();
      if r.Some? {
        e := Created(r.value);
      }
    }
    mm.FreeIs(0);
  }

  method DoFork(mm: AddressSpaces, p: nat) returns (e: Event)
    requires mm.Valid() && MayFork(mm.State(), p)
    modifies mm, mm.frames, mm.frames.bitmap, mm.frames.refs
    ensures mm.Valid() && Transition(old(Now(mm)), Fork(p), e, Now(mm))
  {
    hide Inv, Guards, Allocator.Valid, Allocator.Tight, Spaces, SpaceOf, SameReserved, DirsIn;
    hide Tables, Roomy, WithCopies;
    SameReservedSelf(mm.State());
    mm.FreeIs(0);
    e := Nothing;
    InSpaces(mm.State(), p);
    mm.NotFrameZero(p);
    var alive := Alive(mm);
    if p in mm.use && mm.use[p].Directory? && |alive| < MAX_TASKS {
      var r := mm.Clone(p);
      if r.Some? {
        e := Forked(p, r.value);
        InSpaces(old(mm.State()), r.value);
      }
    }
    mm.FreeIs(0);
  }

  method Alive(mm: AddressSpaces) returns (alive: set<nat>)
    ensures alive == Dirs(mm.State())
  {
    alive := set d | d in mm.use && mm.use[d].Directory?;
  }

  method DoMap(mm: AddressSpaces, d: nat, addr: nat, write: bool, user: bool, attr: nat) returns (e: Event)
    requires mm.Valid()
    modifies mm, mm.frames, mm.frames.bitmap, mm.frames.refs
    ensures mm.Valid() && Transition(old(Now(mm)), MapAt(d, addr, write, user, attr), e, Now(mm))
  {
    hide Inv, Guards, Allocator.Valid, Allocator.Tight, Spaces, SpaceOf, SameReserved;
    hide ZeroPage, LostIn, PageOf, Transition;
    mm.FreeIs(0);
    if d !in mm.use || !mm.use[d].Directory? || addr >= USER_END {
      NoMapping(Now(mm), MapAt(d, addr, write, user, attr));
      return Nothing;
    }
    var k := PageOf(addr);
    SlotOf(addr);
    ShownIff(mm.State(), d, k);
    var there := (d, k.0) in mm.pdes && (mm.pdes[(d, k.0)], k.1) in mm.ptes;
    var ok := mm.MapPage(d, addr, write, user, attr);
    mm.FreeIs(0);
    var view := View(ZeroPage(), write, user, attr);
    e := if !ok then Nothing else if there then Replaced(d, k, view) else Grew(d, k, view);
    Mapping(old(Now(mm)), MapAt(d, addr, write, user, attr), ok, e, Now(mm));
  }

  lemma SlotOf(addr: nat)
    ensures PageOf(addr).0 == addr / PDE_SPAN
  {
  }

  lemma NoMapping(s: Moment, call: Call)
    requires call.MapAt? && Inv(s.mem, 0) && !(IsDir(s.mem, call.dir) && call.addr < USER_END)
    ensures Transition(s, call, Nothing, s)
  {
    hide Inv, Spaces, SpaceOf, SameReserved, ZeroPage, PageOf;
    SameReservedSelf(s.mem);
  }

  /** What MapPage promises makes a transition. */
  lemma Mapping(s: Moment, call: Call, ok: bool, e: Event, t: Moment)
    requires call.MapAt? && call.addr < USER_END && Inv(s.mem, 0) && Inv(t.mem, 0) && SameReserved(s.mem, t.mem)
    requires IsDir(s.mem, call.dir) && t.current == s.current
    requires var d, k, view := call.dir, PageOf(call.addr), View(ZeroPage(), call.write, call.user, call.attr);
      var missing := One((d, k.0) !in s.mem.pdes);
      && (ok <==> Spare(s.mem) >= 1 + missing)
      && e == (if !ok then Nothing else if k in SpaceOf(s.mem, d) then Replaced(d, k, view) else Grew(d, k, view))
      && t.mem.lost == (if ok then s.mem.lost + LostIn(s.mem, d, k) else s.mem.lost)
      && (!ok ==> t.mem == s.mem)
      && (ok ==> && t.mem.pdes.Keys == s.mem.pdes.Keys + {(d, k.0)} && Spare(t.mem) == Spare(s.mem) - 1 - missing
                 && Spaces(t.mem) == Spaces(s.mem)[d := SpaceOf(s.mem, d)[k := view]])
    ensures Transition(s, call, e, t)
  {
    hide Inv, Spaces, SpaceOf, SameReserved, ZeroPage, LostIn, PageOf;
    SpaceIn(s.mem, call.dir);
    ShownIff(s.mem, call.dir, PageOf(call.addr));
    NoneLost(s.mem, call.dir, PageOf(call.addr));
  }

  /** The test for full counts. */
  method CheckCounts(mm: AddressSpaces, p: nat) returns (ok: bool)
    requires mm.Valid()
    ensures ok <==> Roomy(mm.State(), MAX_REFS, p, 0, 0)
  {
    ok := forall k | k in mm.ptes && k.0 in mm.use && mm.use[k.0].Table? && mm.use[k.0].dir == p ::
      mm.ptes[k].frame < mm.frames.refs.Length ==> mm.frames.refs[mm.ptes[k].frame] < MAX_REFS;
    ghost var m := mm.State();
    forall k: (nat, nat)
      ensures Ahead(m, p, 0, 0, k) <==> k in mm.ptes && k.0 in mm.use && mm.use[k.0].Table? && mm.use[k.0].dir == p
    {
    }
  }

  /** Any run of calls is a run of processes with private memories, up to the first fork
      of a page whose 16-bit count is full, which takes tens of thousands of pages mapped
      over. A run from no process to no process gives every frame back exactly if it
      mapped over no page. */
  method Run(mm: AddressSpaces, calls: seq<Call>) returns (events: seq<Event>, ghost moments: seq<Moment>)
    requires mm.Valid()
    modifies mm, mm.frames, mm.frames.bitmap, mm.frames.refs
    ensures mm.Valid() && Traced(moments, calls, events)
    ensures moments[0] == old(Now(mm)) && moments[|events|] == Now(mm)
    ensures |events| < |calls| ==> calls[|events|].Fork? && !MayFork(mm.State(), calls[|events|].parent)
    ensures |old(Dirs(mm.State()))| <= MAX_TASKS && |old(mm.lost)| + |calls| + MAX_TASKS < MAX_REFS ==>
              |events| == |calls|
    ensures old(Spaces(mm.State())) == map[] && Spaces(mm.State()) == map[] ==>
              (mm.frames.Refs() == old(mm.frames.Refs()) <==> Replacements(events) == 0)
    ensures old(Spaces(mm.State())) == map[] && Spaces(mm.State()) == map[] && Replacements(events) == 0 ==>
              mm.frames.Bits() == old(mm.frames.Bits()) && mm.frames.freeFrames == old(mm.frames.freeFrames)
  {
    hide Inv, Guards, Allocator.Valid, Allocator.Tight, Spaces, Transition, Roomy, DirsIn, Replacements;
    events, moments := [], [Now(mm)];
    var n := 0;
    while n < |calls|
      invariant mm.Valid() && 0 <= n == |events| <= |calls| && Traced(moments, calls, events)
      invariant moments[0] == old(Now(mm)) && moments[n] == Now(mm)
    {
      if calls[n].Fork? {
        RunLoses(moments, calls, events, n);
        var ok := CheckFork(mm, calls[n].parent);
        if !ok { break; }
      }
      var e := Do(mm, calls[n]);
      events, moments := events + [e], moments + [Now(mm)];
      n := n + 1;
    }
    if old(Spaces(mm.State())) == map[] && Spaces(mm.State()) == map[] {
      RunReturns(moments, calls, events);
      if Replacements(events) == 0 { mm.frames.SameRefsSameBits(); }
    }
  }

  /** Whether no page of the directory has a full count; always so for few directories and
      lost references. */
  method CheckFork(mm: AddressSpaces, p: nat) returns (ok: bool)
    requires mm.Valid()
    ensures ok <==> MayFork(mm.State(), p)
    ensures |Dirs(mm.State())| + |mm.lost| < MAX_REFS ==> ok
  {
    hide Inv, Guards, Allocator.Valid, Allocator.Tight, Roomy, DirsIn;
    if |Dirs(mm.State())| + |mm.lost| < MAX_REFS {
      RoomyBelow(mm.State(), MAX_REFS, p);
    }
    ok := CheckCounts(mm, p);
    ok := ok || !(p in mm.use && mm.use[p].Directory?);
  }

  lemma SameLost(a: multiset<nat>, b: multiset<nat>)
    requires a <= b
    ensures a == b <==> |a| == |b|
  {
    assert |b - a| == |b| - |a|;
    assert b == a + (b - a);
  }
}
