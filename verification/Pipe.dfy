/** The pipe of src/fs/pipe.c under every interleaving of readers and writers.

    A step is one critical section under the pipe's lock, or one completed wait on a
    semaphore. The semaphores count tokens: a wait takes one and blocks while there is
    none. The ring buffer appears here as the queue it implements; module Ring shows
    that it does. */
module Pipe {
  import opened Common

  const SIZE := 4096
  const CLOSE_SIGNALS := 10

  /** Where a thread is in pipe_read or pipe_write. */
  datatype Thread =
    | ReadReady(want: nat)                      // about to take the lock
    | ReadWaiting(want: nat)                    // in semaphore_wait(read_sem)
    | ReadWoken(want: nat)                      // took a token, about to take the lock again
    | ReadDone(got: seq<byte>)
    | WriteStart(data: seq<byte>)               // about to check that the read end is open
    | WriteReady(data: seq<byte>, sent: nat)    // about to take the lock
    | WriteWaiting(data: seq<byte>, sent: nat)  // in semaphore_wait(write_sem)
    | WriteWoken(data: seq<byte>, sent: nat)    // took a token, about to take the lock again
    | WriteDone(sent: nat)

  datatype State = State(
    queue: seq<byte>,
    readTokens: nat,
    writeTokens: nat,
    readers: nat,
    writers: nat,
    readClosed: bool,
    writeClosed: bool,
    threads: map<nat, Thread>,
    written: seq<byte>,  // all bytes put into the buffer, in entry order
    taken: seq<byte>     // all bytes handed to readers, in exit order
  )

  /** pipe_create. */
  const CREATED := State([], 0, SIZE, 1, 1, false, false, map[], [], [])

  /** n calls of semaphore_signal: the count stops at INT32_MAX. */
  function Signal(tokens: nat, n: nat): nat {
    if tokens + n <= INT_MAX then tokens + n else if tokens <= INT_MAX then INT_MAX else tokens
  }

  function Min(a: nat, b: nat): nat { if a <= b then a else b }

  // -------------------------------------------------------------- thread steps

  function At(s: State, t: nat, th: Thread): State {
    s.(threads := s.threads[t := th])
  }

  /** The critical section of pipe_read; first entry and re-entry after a wait test
      the same conditions. */
  function ReadSection(s: State, t: nat, want: nat): State {
    if want == 0 then At(s, t, ReadDone([]))
    else if s.queue == [] then
      if s.writeClosed then At(s, t, ReadDone([])) else At(s, t, ReadWaiting(want))
    else
      var n := Min(want, |s.queue|);
      At(s, t, ReadDone(s.queue[..n])).(
        queue := s.queue[n..], taken := s.taken + s.queue[..n], writeTokens := Signal(s.writeTokens, n))
  }

  /** The critical section of pipe_write. */
  function WriteSection(s: State, t: nat, data: seq<byte>, sent: nat): State
    requires sent <= |data|
  {
    if sent == |data| then At(s, t, WriteDone(sent))
    else if |s.queue| >= SIZE then
      if s.readClosed then At(s, t, WriteDone(sent)) else At(s, t, WriteWaiting(data, sent))
    else
      var n := Min(|data| - sent, SIZE - |s.queue|);
      At(s, t, if sent + n == |data| then WriteDone(sent + n) else WriteReady(data, sent + n)).(
        queue := s.queue + data[sent..sent + n], written := s.written + data[sent..sent + n],
        readTokens := Signal(s.readTokens, n))
  }

  /** Only a call with something left to do ever waits. */
  predicate WellFormed(th: Thread) {
    match th
    case ReadWaiting(want) => want > 0
    case ReadWoken(want) => want > 0
    case WriteReady(data, sent) => sent <= |data|
    case WriteWaiting(data, sent) => sent < |data|
    case WriteWoken(data, sent) => sent < |data|
    case _ => true
  }

  /** A thread can move unless it is finished or waits for a token that is not there. */
  predicate Enabled(s: State, t: nat) {
    t in s.threads && WellFormed(s.threads[t]) &&
    match s.threads[t]
    case ReadWaiting(_) => s.readTokens > 0
    case WriteWaiting(_, _) => s.writeTokens > 0
    case ReadDone(_) => false
    case WriteDone(_) => false
    case _ => true
  }

  function Move(s: State, t: nat): State
    requires Enabled(s, t)
  {
    match s.threads[t]
    case ReadReady(want) => ReadSection(s, t, want)
    case ReadWoken(want) => ReadSection(s, t, want)
    case ReadWaiting(want) => At(s, t, ReadWoken(want)).(readTokens := s.readTokens - 1)
    case WriteStart(data) => At(s, t, if s.readClosed then WriteDone(0) else WriteReady(data, 0))
    case WriteReady(data, sent) => WriteSection(s, t, data, sent)
    case WriteWoken(data, sent) => if s.readClosed then At(s, t, WriteDone(sent)) else WriteSection(s, t, data, sent)
    case WriteWaiting(data, sent) => At(s, t, WriteWoken(data, sent)).(writeTokens := s.writeTokens - 1)
  }

  // -------------------------------------------------------------- all actions

  datatype Action =
    | Run(t: nat)
    | CallRead(t: nat, want: nat)
    | CallWrite(t: nat, data: seq<byte>)
    | DupRead
    | DupWrite
    | CloseRead
    | CloseWrite

  /** What may happen next. Where the source frees the pipe, with the last close of both
      ends, it stays here with both ends closed. */
  predicate Possible(s: State, a: Action) {
    match a
    case Run(t) => Enabled(s, t)
    case CallRead(t, _) => t !in s.threads
    case CallWrite(t, _) => t !in s.threads
    case DupRead => s.readers > 0
    case DupWrite => s.writers > 0
    case CloseRead => s.readers > 0
    case CloseWrite => s.writers > 0
  }

  function Next(s: State, a: Action): State
    requires Possible(s, a)
  {
    match a
    case Run(t) => Move(s, t)
    case CallRead(t, want) => At(s, t, ReadReady(want))
    case CallWrite(t, data) => At(s, t, WriteStart(data))
    case DupRead => s.(readers := s.readers + 1)
    case DupWrite => s.(writers := s.writers + 1)
    case CloseRead =>
      if s.readers > 1 then s.(readers := s.readers - 1)
      else s.(readers := 0, readClosed := true, writeTokens := Signal(s.writeTokens, CLOSE_SIGNALS))
    case CloseWrite =>
      if s.writers > 1 then s.(writers := s.writers - 1)
      else s.(writers := 0, writeClosed := true, readTokens := Signal(s.readTokens, CLOSE_SIGNALS))
  }

  /** The state after a run from s; an action that is not possible does not happen. */
  function Later(s: State, actions: seq<Action>): State {
    if actions == [] then s
    else
      var last := |actions| - 1;
      var r := Later(s, actions[..last]);
      if Possible(r, actions[last]) then Next(r, actions[last]) else r
  }

  // ----------------------------------------------------------------- invariant

  datatype Kind = Reading | ReadAsleep | ReadAwake | Writing | WriteAsleep | WriteAwake

  function KindOf(th: Thread): Kind {
    match th
    case ReadWaiting(_) => ReadAsleep
    case ReadWoken(_) => ReadAwake
    case WriteWaiting(_, _) => WriteAsleep
    case WriteWoken(_, _) => WriteAwake
    case ReadReady(_) => Reading
    case ReadDone(_) => Reading
    case _ => Writing
  }

  ghost function Of(th: map<nat, Thread>, k: Kind): set<nat> {
    set t | t in th && KindOf(th[t]) == k
  }

  /** First in, first out. */
  ghost predicate Fifo(s: State) {
    s.taken + s.queue == s.written && |s.queue| <= SIZE
  }

  /** As many read tokens, kept or taken by a woken reader, as bytes in the buffer. */
  ghost predicate ReadTokensOk(s: State) {
    s.readTokens + |Of(s.threads, ReadAwake)| >= |s.queue|
  }

  /** While the read end is open, as many write tokens as free places. */
  ghost predicate WriteTokensOk(s: State) {
    !s.readClosed ==> s.writeTokens + |Of(s.threads, WriteAwake)| + |s.queue| >= SIZE
  }

  ghost predicate EndsOk(s: State) {
    && (s.readClosed <==> s.readers == 0) && (s.writeClosed <==> s.writers == 0)
    && (forall t :: t in s.threads ==> WellFormed(s.threads[t]))
  }

  ghost predicate Inv(s: State) {
    Fifo(s) && ReadTokensOk(s) && WriteTokensOk(s) && EndsOk(s)
  }

  /** Moving one thread changes each count by that thread at most. */
  lemma Moved(th: map<nat, Thread>, t: nat, x: Thread, k: Kind)
    ensures |Of(th[t := x], k)| + One(t in th && KindOf(th[t]) == k) == |Of(th, k)| + One(KindOf(x) == k)
  {
    hide KindOf;
    Differ(Of(th[t := x], k), Of(th, k), t);
  }

  lemma ReadSectionFifo(s: State, t: nat, want: nat)
    requires Fifo(s)
    ensures Fifo(ReadSection(s, t, want))
  {
    var n := Min(want, |s.queue|);
    assert s.taken + s.queue[..n] + s.queue[n..] == s.taken + s.queue;
  }

  lemma WriteSectionFifo(s: State, t: nat, data: seq<byte>, sent: nat)
    requires Fifo(s) && sent <= |data|
    ensures Fifo(WriteSection(s, t, data, sent))
  {
    var n := Min(|data| - sent, SIZE - |s.queue|);
    var more := data[sent..sent + n];
    assert s.taken + (s.queue + more) == s.taken + s.queue + more;
  }

  lemma MoveFifo(s: State, t: nat)
    requires Fifo(s) && Enabled(s, t)
    ensures Fifo(Move(s, t))
  {
    hide Fifo, ReadSection, WriteSection;
    SameFifo(s, Move(s, t));
    match s.threads[t]
    case ReadReady(want) => ReadSectionFifo(s, t, want);
    case ReadWoken(want) => ReadSectionFifo(s, t, want);
    case WriteReady(data, sent) => WriteSectionFifo(s, t, data, sent);
    case WriteWoken(data, sent) => WriteSectionFifo(s, t, data, sent);
    case _ =>
  }

  lemma SameFifo(s: State, r: State)
    requires Fifo(s)
    ensures r.queue == s.queue && r.taken == s.taken && r.written == s.written ==> Fifo(r)
  {
  }

  /** What a step does to the buffer, the read tokens and one thread's place. */
  ghost predicate ReadBalance(s: State, r: State, t: nat)
    requires t in s.threads && t in r.threads
  {
    r.readTokens + One(KindOf(r.threads[t]) == ReadAwake) + |s.queue|
      >= s.readTokens + One(KindOf(s.threads[t]) == ReadAwake) + |r.queue| ||
    r.readTokens >= SIZE || r.queue == []
  }

  ghost predicate WriteBalance(s: State, r: State, t: nat)
    requires t in s.threads && t in r.threads
  {
    r.writeTokens + One(KindOf(r.threads[t]) == WriteAwake) + |r.queue|
      >= s.writeTokens + One(KindOf(s.threads[t]) == WriteAwake) + |s.queue| ||
    r.writeTokens >= SIZE || r.readClosed || |r.queue| == SIZE
  }

  lemma MoveOne(s: State, t: nat)
    requires Enabled(s, t)
    ensures t in Move(s, t).threads && Move(s, t).threads == s.threads[t := Move(s, t).threads[t]]
  {
    hide Min, Signal;
  }

  lemma MoveSame(s: State, t: nat)
    requires Enabled(s, t)
    ensures Move(s, t).readers == s.readers && Move(s, t).writers == s.writers
    ensures Move(s, t).readClosed == s.readClosed && Move(s, t).writeClosed == s.writeClosed
  {
    hide Min, Signal;
  }

  lemma MoveWellFormed(s: State, t: nat)
    requires Enabled(s, t)
    ensures t in Move(s, t).threads && WellFormed(Move(s, t).threads[t])
  {
    hide Signal;
  }

  lemma MoveEnds(s: State, t: nat)
    requires EndsOk(s) && Enabled(s, t)
    ensures EndsOk(Move(s, t))
  {
    hide Move, WellFormed, Enabled;
    MoveOne(s, t);
    MoveSame(s, t);
    MoveWellFormed(s, t);
  }

  lemma MoveReadBalance(s: State, t: nat)
    requires Fifo(s) && Enabled(s, t)
    ensures t in Move(s, t).threads && ReadBalance(s, Move(s, t), t)
  {
  }

  lemma MoveWriteBalance(s: State, t: nat)
    requires Fifo(s) && Enabled(s, t)
    ensures t in Move(s, t).threads && WriteBalance(s, Move(s, t), t)
  {
  }

  lemma MoveTokens(s: State, t: nat)
    requires Inv(s) && Enabled(s, t)
    ensures ReadTokensOk(Move(s, t)) && WriteTokensOk(Move(s, t))
  {
    MoveFifo(s, t);
    MoveOne(s, t);
    MoveReadBalance(s, t);
    MoveWriteBalance(s, t);
    MoveSame(s, t);
    hide Of, Move, Enabled;
    var x := Move(s, t).threads[t];
    Moved(s.threads, t, x, ReadAwake);
    Moved(s.threads, t, x, WriteAwake);
  }

  lemma NextKeeps(s: State, a: Action)
    requires Inv(s) && Possible(s, a)
    ensures Inv(Next(s, a))
  {
    hide Of, Move;
    match a
    case Run(t) =>
      MoveFifo(s, t);
      MoveEnds(s, t);
      MoveTokens(s, t);
    case CallRead(t, want) =>
      Moved(s.threads, t, ReadReady(want), ReadAwake);
      Moved(s.threads, t, ReadReady(want), WriteAwake);
    case CallWrite(t, data) =>
      Moved(s.threads, t, WriteStart(data), ReadAwake);
      Moved(s.threads, t, WriteStart(data), WriteAwake);
    case _ =>
  }

  /** Every interleaving of any number of readers and writers keeps the invariant. */
  lemma {:induction false} RunKeeps(s: State, actions: seq<Action>)
    requires Inv(s)
    ensures Inv(Later(s, actions))
    decreases |actions|
  {
    hide Inv, Next, Possible;
    if actions != [] {
      var last := |actions| - 1;
      RunKeeps(s, actions[..last]);
      if Possible(Later(s, actions[..last]), actions[last]) {
        NextKeeps(Later(s, actions[..last]), actions[last]);
      }
    }
  }

  /** From pipe_create on: what readers took is a prefix of what writers put in, the
      rest is still in the buffer, and the buffer never holds more than it can. */
  lemma FirstInFirstOut(actions: seq<Action>)
    ensures var s := Later(CREATED, actions); Inv(s) && s.taken + s.queue == s.written && |s.queue| <= SIZE
  {
    assert Of(CREATED.threads, ReadAwake) == {} && Of(CREATED.threads, WriteAwake) == {};
    RunKeeps(CREATED, actions);
  }

  function Sent(th: Thread): nat {
    match th
    case WriteReady(_, sent) => sent
    case WriteWaiting(_, sent) => sent
    case WriteWoken(_, sent) => sent
    case WriteDone(sent) => sent
    case _ => 0
  }

  function Data(th: Thread): seq<byte> {
    match th
    case WriteStart(data) => data
    case WriteReady(data, _) => data
    case WriteWaiting(data, _) => data
    case WriteWoken(data, _) => data
    case _ => []
  }

  function Got(th: Thread): seq<byte> {
    if th.ReadDone? then th.got else []
  }

  /** Bytes leave the pipe only as the result of a read that returns, in full. */
  lemma TakenIsReturned(s: State, t: nat)
    requires Enabled(s, t)
    ensures t in Move(s, t).threads
    ensures Move(s, t).taken == s.taken + Got(Move(s, t).threads[t])
  {
    hide Signal;
    assert s.taken + [] == s.taken;
  }

  /** A write that goes on from `was` to `now` has put the bytes it counts in between
      into the pipe, and no others. */
  ghost predicate Sends(s: State, r: State, was: Thread, now: Thread) {
    if Data(was) == [] then r.written == s.written
    else
      && Sent(was) <= Sent(now) <= |Data(was)|
      && r.written == s.written + Data(was)[Sent(was)..Sent(now)]
      && (now.WriteDone? || Data(now) == Data(was))
  }

  lemma WriteSectionSends(s: State, t: nat, was: Thread)
    requires WellFormed(was) && (was.WriteReady? || was.WriteWoken?)
    ensures var r := WriteSection(s, t, was.data, was.sent); t in r.threads && Sends(s, r, was, r.threads[t])
  {
    hide Signal;
    assert s.written + [] == s.written;
  }

  /** Bytes enter the pipe only as the next bytes of a write in progress. */
  lemma WrittenIsSent(s: State, t: nat)
    requires Enabled(s, t)
    ensures t in Move(s, t).threads && Sends(s, Move(s, t), s.threads[t], Move(s, t).threads[t])
  {
    hide Signal, WriteSection;
    assert s.written + [] == s.written;
    if s.threads[t].WriteReady? || s.threads[t].WriteWoken? {
      WriteSectionSends(s, t, s.threads[t]);
    }
  }

  // ------------------------------------------------------- what a call returns

  /** A read that reaches its critical section returns the first bytes there are, as many
      as it wants, and a token for each. It returns nothing exactly if it wants nothing, or
      the buffer is empty and the write end closed, and waits exactly if the buffer is empty
      and the write end open. */
  lemma ReadAnswer(s: State, t: nat)
    requires Enabled(s, t) && (s.threads[t].ReadReady? || s.threads[t].ReadWoken?)
    ensures t in Move(s, t).threads
    ensures var r, want := Move(s, t), s.threads[t].want;
      var now, n := r.threads[t], if want < |s.queue| then want else |s.queue|;
      && (want > 0 && s.queue != [] ==>
            && now == ReadDone(s.queue[..n]) && r.queue == s.queue[n..] && r.readTokens == s.readTokens
            && (s.writeTokens + n <= INT_MAX ==> r.writeTokens == s.writeTokens + n))
      && (now == ReadDone([]) <==> want == 0 || (s.queue == [] && s.writeClosed))
      && (now == ReadWaiting(want) <==> want > 0 && s.queue == [] && !s.writeClosed)
      && (want == 0 || s.queue == [] ==> r == s.(threads := s.threads[t := now]))
  {
  }

  /** So in every run a read that wants bytes returns nothing only when all that was ever
      written has been read and the write end is closed. */
  lemma EndMeansAllRead(actions: seq<Action>, t: nat)
    ensures var s := Later(CREATED, actions);
      Enabled(s, t) && (s.threads[t].ReadReady? || s.threads[t].ReadWoken?) && s.threads[t].want > 0 ==>
        && t in Move(s, t).threads
        && (Move(s, t).threads[t] == ReadDone([]) <==> s.writeClosed && s.taken == s.written)
  {
    var s := Later(CREATED, actions);
    FirstInFirstOut(actions);
    if Enabled(s, t) && (s.threads[t].ReadReady? || s.threads[t].ReadWoken?) && s.threads[t].want > 0 {
      ReadAnswer(s, t);
      hide Move, Enabled;
      assert s.queue == [] <==> s.taken == s.written by {
        assert |s.taken| + |s.queue| == |s.written|;
        if s.queue == [] { assert s.taken + [] == s.taken; }
      }
    }
  }

  /** The first test of a write: with the read end closed nothing is sent. */
  lemma StartAnswer(s: State, t: nat)
    requires Enabled(s, t) && s.threads[t].WriteStart?
    ensures var now := if s.readClosed then WriteDone(0) else WriteReady(s.threads[t].data, 0);
      Move(s, t) == s.(threads := s.threads[t := now])
  {
  }

  /** A write that reaches its critical section puts as many bytes as fit behind those there
      are, and a token for each; it waits exactly if it has bytes left, the buffer is full
      and the read end open. */
  lemma WriteAnswer(s: State, t: nat)
    requires Enabled(s, t) && (s.threads[t].WriteReady? || s.threads[t].WriteWoken?)
    ensures t in Move(s, t).threads
    ensures var r, data, sent := Move(s, t), s.threads[t].data, s.threads[t].sent;
      var now, rest, room := r.threads[t], |data| - sent, SIZE - |s.queue|;
      var n := if rest < room then rest else room;
      var broken := s.threads[t].WriteWoken? && s.readClosed;
      && (!broken && rest > 0 && room > 0 ==>
            && r.queue == s.queue + data[sent..sent + n] && r.writeTokens == s.writeTokens
            && now == (if n == rest then WriteDone(|data|) else WriteReady(data, sent + n))
            && (s.readTokens + n <= INT_MAX ==> r.readTokens == s.readTokens + n))
      && (broken || rest == 0 || room <= 0 ==> r == s.(threads := s.threads[t := now]))
      && (broken ==> now == WriteDone(sent))
      && (now == WriteWaiting(data, sent) <==> !broken && rest > 0 && room <= 0 && !s.readClosed)
      && (now.WriteDone? && now.sent < |data| ==> s.readClosed)
  {
    hide Signal;
    SignalIs(s.readTokens);
  }

  lemma SignalIs(tokens: nat)
    ensures forall n: nat :: tokens + n <= INT_MAX ==> Signal(tokens, n) == tokens + n
  {
  }

  /** A wait takes one token and changes nothing else. */
  lemma WaitAnswer(s: State, t: nat)
    requires Enabled(s, t) && (s.threads[t].ReadWaiting? || s.threads[t].WriteWaiting?)
    ensures t in Move(s, t).threads
    ensures var r, th := Move(s, t), s.threads[t];
      if th.ReadWaiting? then
        && s.readTokens == r.readTokens + 1 && r.threads[t] == ReadWoken(th.want)
        && r == s.(readTokens := r.readTokens, threads := s.threads[t := r.threads[t]])
      else
        && s.writeTokens == r.writeTokens + 1 && r.threads[t] == WriteWoken(th.data, th.sent)
        && r == s.(writeTokens := r.writeTokens, threads := s.threads[t := r.threads[t]])
  {
  }

  /** Opening an end again and closing it count; only the last close of an end marks it, and
      it adds ten tokens for those who wait on the other side. */
  lemma EndsAnswer(s: State)
    ensures s.readers > 0 ==> Next(s, DupRead) == s.(readers := s.readers + 1)
    ensures s.writers > 0 ==> Next(s, DupWrite) == s.(writers := s.writers + 1)
    ensures s.readers > 1 ==> Next(s, CloseRead) == s.(readers := s.readers - 1)
    ensures s.writers > 1 ==> Next(s, CloseWrite) == s.(writers := s.writers - 1)
    ensures s.readers == 1 && s.writeTokens + 10 <= INT_MAX ==>
      Next(s, CloseRead) == s.(readers := 0, readClosed := true, writeTokens := s.writeTokens + 10)
    ensures s.writers == 1 && s.readTokens + 10 <= INT_MAX ==>
      Next(s, CloseWrite) == s.(writers := 0, writeClosed := true, readTokens := s.readTokens + 10)
  {
  }

  // ------------------------------------------------------------------- waking

  lemma SomeReaderRuns(s: State, t: nat) returns (u: nat)
    requires Inv(s) && s.queue != [] && t in Of(s.threads, ReadAsleep)
    ensures u in s.threads && KindOf(s.threads[u]) in {ReadAsleep, ReadAwake} && Enabled(s, u)
  {
    if s.readTokens > 0 {
      u := t;
    } else {
      assert Of(s.threads, ReadAwake) != {};
      u :| u in Of(s.threads, ReadAwake);
    }
  }

  lemma SomeWriterRuns(s: State, t: nat) returns (u: nat)
    requires Inv(s) && |s.queue| < SIZE && !s.readClosed && t in Of(s.threads, WriteAsleep)
    ensures u in s.threads && KindOf(s.threads[u]) in {WriteAsleep, WriteAwake} && Enabled(s, u)
  {
    if s.writeTokens > 0 {
      u := t;
    } else {
      assert Of(s.threads, WriteAwake) != {};
      u :| u in Of(s.threads, WriteAwake);
    }
  }

  /** Some thread waiting on one side, or just woken there, can move. */
  ghost predicate Progress(s: State, asleep: Kind, awake: Kind) {
    exists u :: u in s.threads && KindOf(s.threads[u]) in {asleep, awake} && Enabled(s, u)
  }

  /** No wake-up is lost, in any run: while bytes are in the buffer a waiting reader
      means that a reader can move, while there is space and a read end a waiting
      writer means that a writer can move, and so readers and writers never wait for
      each other for ever. */
  lemma NoLostWakeup(actions: seq<Action>)
    ensures var s := Later(CREATED, actions);
      && (Of(s.threads, ReadAsleep) != {} && s.queue != [] ==> Progress(s, ReadAsleep, ReadAwake))
      && (Of(s.threads, WriteAsleep) != {} && |s.queue| < SIZE && !s.readClosed ==>
            Progress(s, WriteAsleep, WriteAwake))
      && (Of(s.threads, ReadAsleep) != {} && Of(s.threads, WriteAsleep) != {} && !s.readClosed ==>
            exists u :: u in s.threads && Enabled(s, u))
  {
    var s := Later(CREATED, actions);
    FirstInFirstOut(actions);
    if Of(s.threads, ReadAsleep) != {} && s.queue != [] {
      var t :| t in Of(s.threads, ReadAsleep);
      var u := SomeReaderRuns(s, t);
    }
    if Of(s.threads, WriteAsleep) != {} && |s.queue| < SIZE && !s.readClosed {
      var t :| t in Of(s.threads, WriteAsleep);
      var u := SomeWriterRuns(s, t);
    }
  }

  // ---------------------------------------------------------- coming to rest

  /** No thread can move. */
  ghost predicate Quiet(s: State) {
    forall t :: t in s.threads ==> !Enabled(s, t)
  }

  /** How many steps a thread may still cause: two for each wait, five for each byte it
      has to write. */
  function Weight(th: Thread): nat {
    match th
    case ReadReady(_) => 2
    case ReadWaiting(_) => 1
    case ReadWoken(_) => 2
    case WriteStart(data) => 3 + 5 * |data|
    case WriteReady(data, sent) => 2 + 5 * Rest(data, sent)
    case WriteWaiting(data, sent) => 1 + 5 * Rest(data, sent)
    case WriteWoken(data, sent) => 2 + 5 * Rest(data, sent)
    case _ => 0
  }

  function Rest(data: seq<byte>, sent: nat): nat { if sent <= |data| then |data| - sent else 0 }

  ghost function Total(th: map<nat, Thread>): nat {
    if th == map[] then 0
    else
      var t :| t in th;
      Weight(th[t]) + Total(th - {t})
  }

  lemma {:induction false} TotalWithout(th: map<nat, Thread>, t: nat)
    requires t in th
    ensures Total(th) == Weight(th[t]) + Total(th - {t})
  {
    hide Weight;
    var u :| u in th && Total(th) == Weight(th[u]) + Total(th - {u});
    if u != t {
      TotalWithout(th - {u}, t);
      TotalWithout(th - {t}, u);
      assert th - {u} - {t} == th - {t} - {u};
    }
  }

  lemma TotalSet(th: map<nat, Thread>, t: nat, x: Thread)
    requires t in th
    ensures Total(th[t := x]) + Weight(th[t]) == Total(th) + Weight(x)
  {
    hide Weight;
    TotalWithout(th, t);
    TotalWithout(th[t := x], t);
    assert th[t := x] - {t} == th - {t};
  }

  /** What the rest of the state adds to one thread's weight. */
  function Stock(s: State): nat { 2 * |s.queue| + 2 * s.readTokens + 2 * s.writeTokens }

  /** What a state can still do without new calls. */
  ghost function Effort(s: State): nat {
    Total(s.threads) + Stock(s)
  }

  lemma ReadSectionWeight(s: State, t: nat, want: nat)
    ensures var r := ReadSection(s, t, want); t in r.threads && Weight(r.threads[t]) + Stock(r) < 2 + Stock(s)
  {
  }

  lemma WriteSectionWeight(s: State, t: nat, data: seq<byte>, sent: nat)
    requires sent <= |data|
    ensures var r := WriteSection(s, t, data, sent);
      t in r.threads && Weight(r.threads[t]) + Stock(r) < 2 + 5 * (|data| - sent) + Stock(s)
  {
  }

  lemma MoveWeight(s: State, t: nat)
    requires Enabled(s, t)
    ensures t in Move(s, t).threads
    ensures Weight(Move(s, t).threads[t]) + Stock(Move(s, t)) < Weight(s.threads[t]) + Stock(s)
  {
    hide ReadSection, WriteSection;
    match s.threads[t]
    case ReadReady(want) => ReadSectionWeight(s, t, want);
    case ReadWoken(want) => ReadSectionWeight(s, t, want);
    case WriteReady(data, sent) => WriteSectionWeight(s, t, data, sent);
    case WriteWoken(data, sent) => WriteSectionWeight(s, t, data, sent);
    case _ =>
  }

  /** Every step of a thread uses some of it up. */
  lemma MoveEffort(s: State, t: nat)
    requires Enabled(s, t)
    ensures Effort(Move(s, t)) < Effort(s)
  {
    MoveOne(s, t);
    MoveWeight(s, t);
    hide Move, Weight, Enabled;
    TotalSet(s.threads, t, Move(s, t).threads[t]);
  }

  /** A run of thread steps that all happen. */
  ghost predicate Steps(s: State, actions: seq<Action>) {
    forall i :: 0 <= i < |actions| ==> actions[i].Run? && Possible(Later(s, actions[..i]), actions[i])
  }

  /** Without new calls a pipe comes to rest: no run of thread steps is longer than the
      effort of the state it starts from. */
  lemma {:induction false} StepsEnd(s: State, actions: seq<Action>)
    requires Steps(s, actions)
    ensures |actions| + Effort(Later(s, actions)) <= Effort(s)
    decreases |actions|
  {
    hide Move, Effort;
    if actions != [] {
      var last := |actions| - 1;
      var most := actions[..last];
      forall i | 0 <= i < last ensures actions[..i] == most[..i] { }
      assert Steps(s, most) by {
        forall i | 0 <= i < |most| ensures most[i].Run? && Possible(Later(s, most[..i]), most[i]) {
          assert actions[..i] == most[..i] && actions[i] == most[i];
        }
      }
      StepsEnd(s, most);
      assert actions[last].Run? && Possible(Later(s, actions[..last]), actions[last]);
      MoveEffort(Later(s, most), actions[last].t);
    }
  }

  /** And from every state there is such a run to one in which no thread can move. */
  lemma {:induction false} ComesToRest(s: State) returns (actions: seq<Action>)
    ensures Steps(s, actions) && Quiet(Later(s, actions))
    decreases Effort(s)
  {
    hide Move, Effort, Enabled;
    if Quiet(s) {
      actions := [];
    } else {
      var t :| t in s.threads && Enabled(s, t);
      MoveEffort(s, t);
      var more := ComesToRest(Move(s, t));
      actions := [Run(t)] + more;
      LaterFirst(s, Run(t), more);
      forall i | 0 <= i < |actions|
        ensures actions[i].Run? && Possible(Later(s, actions[..i]), actions[i])
      {
        if i > 0 {
          LaterFirst(s, Run(t), more[..i - 1]);
          assert actions[..i] == [Run(t)] + more[..i - 1] && actions[i] == more[i - 1];
        }
      }
    }
  }

  lemma {:induction false} LaterFirst(s: State, a: Action, more: seq<Action>)
    requires Possible(s, a)
    ensures Later(s, [a] + more) == Later(Next(s, a), more)
    decreases |more|
  {
    hide Next, Possible;
    var all := [a] + more;
    if more == [] {
      assert all == [a] && [a][..0] == [];
      assert Later(s, [a]) == if Possible(Later(s, []), a) then Next(Later(s, []), a) else Later(s, []);
    } else {
      var last := |more| - 1;
      LaterFirst(s, a, more[..last]);
      assert all[..|all| - 1] == [a] + more[..last] && all[|all| - 1] == more[last];
    }
  }

  // -------------------------------------------------------------- end of file

  /** Readers still waiting, less the tokens there are for them. */
  ghost function Short(s: State): int {
    |Of(s.threads, ReadAsleep)| - s.readTokens
  }

  /** The write end is closed, and no write is left in progress. */
  ghost predicate Ended(s: State) {
    s.writeClosed && s.queue == [] && forall t :: t in s.threads ==> Data(s.threads[t]) == []
  }

  /** A step after the close brings no new waiting reader and uses a token only to
      wake one. */
  lemma MoveReader(s: State, t: nat)
    requires s.writeClosed && Enabled(s, t)
    ensures t in Move(s, t).threads
    ensures var was, now := KindOf(s.threads[t]), KindOf(Move(s, t).threads[t]);
      && now != ReadAsleep
      && (Move(s, t).readTokens + One(was == ReadAsleep) >= s.readTokens)
      && (s.queue == [] && Data(s.threads[t]) == [] ==>
            && Move(s, t).queue == [] && Data(Move(s, t).threads[t]) == []
            && Move(s, t).readTokens + One(was == ReadAsleep) == s.readTokens)
  {
  }

  lemma MoveShort(s: State, t: nat)
    requires s.writeClosed && Enabled(s, t)
    ensures Move(s, t).writeClosed
    ensures Short(Move(s, t)) <= Short(s)
    ensures Ended(s) ==> Ended(Move(s, t)) && Short(Move(s, t)) == Short(s)
  {
    MoveOne(s, t);
    MoveSame(s, t);
    MoveReader(s, t);
    hide Of, Move, Enabled, KindOf, Data;
    Moved(s.threads, t, Move(s, t).threads[t], ReadAsleep);
  }

  lemma NextShort(s: State, a: Action)
    requires s.writeClosed && EndsOk(s) && Possible(s, a)
    ensures Next(s, a).writeClosed
    ensures Short(Next(s, a)) <= Short(s)
    ensures Ended(s) && !a.CallWrite? ==> Ended(Next(s, a)) && Short(Next(s, a)) == Short(s)
  {
    hide Of, Move;
    match a
    case Run(t) => MoveShort(s, t);
    case CallRead(t, want) => Moved(s.threads, t, ReadReady(want), ReadAsleep);
    case CallWrite(t, data) => Moved(s.threads, t, WriteStart(data), ReadAsleep);
    case _ =>
  }

  lemma {:induction false} LaterShort(s: State, actions: seq<Action>)
    requires Inv(s) && s.writeClosed
    ensures var r := Later(s, actions);
      && r.writeClosed && Short(r) <= Short(s)
      && (Ended(s) && (forall a :: a in actions ==> !a.CallWrite?) ==> Ended(r) && Short(r) == Short(s))
    decreases |actions|
  {
    hide Next, Possible, Short, Ended;
    if actions != [] {
      var last := |actions| - 1;
      LaterShort(s, actions[..last]);
      RunKeeps(s, actions[..last]);
      var r := Later(s, actions[..last]);
      if Possible(r, actions[last]) { NextShort(r, actions[last]); }
    }
  }

  lemma NoReaderLeft(s: State)
    requires EndsOk(s)
    ensures Short(s) <= 0 && Quiet(s) ==> Of(s.threads, ReadAsleep) == {}
  {
    if Short(s) <= 0 && Of(s.threads, ReadAsleep) != {} {
      var t :| t in Of(s.threads, ReadAsleep);
      assert |Of(s.threads, ReadAsleep)| > 0;
      assert Enabled(s, t);
    }
  }

  /** The last close of the write end sends ten signals. Every blocked reader is released
      in every run that follows, once no thread can move, if there were at most ten more of
      them than tokens; without new calls that takes no more steps than the effort of the
      state after the close. With an empty buffer and no write in progress the bound is exact: with one reader more,
      some reader stays blocked for ever. */
  lemma EndOfFile(s: State, actions: seq<Action>)
    requires Inv(s) && s.writers == 1
    ensures var c := Next(s, CloseWrite); var r := Later(c, actions);
      var enough := |Of(s.threads, ReadAsleep)| <= Signal(s.readTokens, CLOSE_SIGNALS);
      && (enough && Quiet(r) ==> Of(r.threads, ReadAsleep) == {})
      && (Steps(c, actions) ==> |actions| <= Effort(c))
      && (!enough && Ended(c) && (forall a :: a in actions ==> !a.CallWrite?) ==> Of(r.threads, ReadAsleep) != {})
  {
    var c := Next(s, CloseWrite);
    var r := Later(c, actions);
    NextKeeps(s, CloseWrite);
    LaterShort(c, actions);
    RunKeeps(c, actions);
    hide Steps, Effort, Next;
    if Steps(c, actions) { StepsEnd(c, actions); }
    NoReaderLeft(r);
  }

  // -------------------------------------------------------------- broken pipe

  /** Writers still waiting, less the tokens there are for them. */
  ghost function ShortOfRoom(s: State): int {
    |Of(s.threads, WriteAsleep)| - s.writeTokens
  }

  predicate Reads(th: Thread) { th.ReadReady? || th.ReadWaiting? || th.ReadWoken? }

  /** The read end is closed, and no read is left in progress. */
  ghost predicate Deserted(s: State) {
    s.readClosed && forall t :: t in s.threads ==> !Reads(s.threads[t])
  }

  lemma MoveWriter(s: State, t: nat)
    requires s.readClosed && Enabled(s, t)
    ensures t in Move(s, t).threads
    ensures var was, now := KindOf(s.threads[t]), KindOf(Move(s, t).threads[t]);
      && now != WriteAsleep
      && (Move(s, t).writeTokens + One(was == WriteAsleep) >= s.writeTokens)
      && (!Reads(s.threads[t]) ==>
            && !Reads(Move(s, t).threads[t])
            && Move(s, t).writeTokens + One(was == WriteAsleep) == s.writeTokens)
  {
  }

  lemma MoveShortOfRoom(s: State, t: nat)
    requires s.readClosed && Enabled(s, t)
    ensures Move(s, t).readClosed
    ensures ShortOfRoom(Move(s, t)) <= ShortOfRoom(s)
    ensures Deserted(s) ==> Deserted(Move(s, t)) && ShortOfRoom(Move(s, t)) == ShortOfRoom(s)
  {
    MoveOne(s, t);
    MoveSame(s, t);
    MoveWriter(s, t);
    hide Of, Move, Enabled, KindOf, Reads;
    Moved(s.threads, t, Move(s, t).threads[t], WriteAsleep);
  }

  lemma NextShortOfRoom(s: State, a: Action)
    requires s.readClosed && EndsOk(s) && Possible(s, a)
    ensures Next(s, a).readClosed
    ensures ShortOfRoom(Next(s, a)) <= ShortOfRoom(s)
    ensures Deserted(s) && !a.CallRead? ==> Deserted(Next(s, a)) && ShortOfRoom(Next(s, a)) == ShortOfRoom(s)
  {
    hide Of, Move;
    match a
    case Run(t) => MoveShortOfRoom(s, t);
    case CallRead(t, want) => Moved(s.threads, t, ReadReady(want), WriteAsleep);
    case CallWrite(t, data) => Moved(s.threads, t, WriteStart(data), WriteAsleep);
    case _ =>
  }

  lemma {:induction false} LaterShortOfRoom(s: State, actions: seq<Action>)
    requires Inv(s) && s.readClosed
    ensures var r := Later(s, actions);
      && r.readClosed && ShortOfRoom(r) <= ShortOfRoom(s)
      && (Deserted(s) && (forall a :: a in actions ==> !a.CallRead?) ==>
            Deserted(r) && ShortOfRoom(r) == ShortOfRoom(s))
    decreases |actions|
  {
    hide Next, Possible, ShortOfRoom, Deserted;
    if actions != [] {
      var last := |actions| - 1;
      LaterShortOfRoom(s, actions[..last]);
      RunKeeps(s, actions[..last]);
      var r := Later(s, actions[..last]);
      if Possible(r, actions[last]) { NextShortOfRoom(r, actions[last]); }
    }
  }

  lemma NoWriterLeft(s: State)
    requires EndsOk(s)
    ensures ShortOfRoom(s) <= 0 && Quiet(s) ==> Of(s.threads, WriteAsleep) == {}
  {
    if ShortOfRoom(s) <= 0 && Of(s.threads, WriteAsleep) != {} {
      var t :| t in Of(s.threads, WriteAsleep);
      assert |Of(s.threads, WriteAsleep)| > 0;
      assert Enabled(s, t);
    }
  }

  /** The same for the last close of the read end and blocked writers, exact when no read
      is in progress. */
  lemma BrokenPipe(s: State, actions: seq<Action>)
    requires Inv(s) && s.readers == 1
    ensures var c := Next(s, CloseRead); var r := Later(c, actions);
      var enough := |Of(s.threads, WriteAsleep)| <= Signal(s.writeTokens, CLOSE_SIGNALS);
      && (enough && Quiet(r) ==> Of(r.threads, WriteAsleep) == {})
      && (Steps(c, actions) ==> |actions| <= Effort(c))
      && (!enough && Deserted(c) && (forall a :: a in actions ==> !a.CallRead?) ==>
            Of(r.threads, WriteAsleep) != {})
  {
    var c := Next(s, CloseRead);
    var r := Later(c, actions);
    NextKeeps(s, CloseRead);
    LaterShortOfRoom(c, actions);
    RunKeeps(c, actions);
    hide Steps, Effort, Next;
    if Steps(c, actions) { StepsEnd(c, actions); }
    NoWriterLeft(r);
  }
}
