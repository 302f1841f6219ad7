/** In-order delivery by the TCP receiver of src/net/tcp.c: the receive buffer and
    the out-of-order queue, with 32-bit sequence numbers. */
module Tcp {
  import opened Common

  const MAX_OOSEQ := 8
  const MAX_SEGMENT := 0x1_0000

  // ---------------------------------------------------------- sequence numbers

  /** The 32-bit difference a - b; the source compares its sign. */
  function Diff(a: int, b: int): int {
    (a - b) % TWO32
  }

  predicate SeqLT(a: int, b: int) { Diff(a, b) >= TWO31 }
  predicate SeqLEQ(a: int, b: int) { Diff(a, b) == 0 || Diff(a, b) >= TWO31 }
  predicate SeqGT(a: int, b: int) { 0 < Diff(a, b) < TWO31 }
  predicate SeqGEQ(a: int, b: int) { Diff(a, b) < TWO31 }
  predicate SeqBetween(a: int, s: int, e: int) { SeqGEQ(a, s) && SeqLEQ(a, e) }

  /** The sequence number of stream position p. */
  function SeqOf(irs: int, p: int): int {
    (irs + p) % TWO32
  }

  /** The wrapped comparisons order stream positions less than 2^31 apart. */
  lemma Compare(irs: int, p: int, q: int)
    requires -TWO31 < p - q < TWO31
    ensures SeqLT(SeqOf(irs, p), SeqOf(irs, q)) <==> p < q
    ensures SeqLEQ(SeqOf(irs, p), SeqOf(irs, q)) <==> p <= q
    ensures SeqGT(SeqOf(irs, p), SeqOf(irs, q)) <==> p > q
    ensures SeqGEQ(SeqOf(irs, p), SeqOf(irs, q)) <==> p >= q
    ensures SeqOf(irs, p) == SeqOf(irs, q) <==> p == q
  {
    var a, b := SeqOf(irs, p), SeqOf(irs, q);
    assert (a - b - (p - q)) % TWO32 == 0;
    assert Diff(a, b) == if p >= q then p - q else p - q + TWO32;
  }

  /** Positions 2^31 apart are out of order both ways, so the bound is exact. */
  lemma CompareLimit(irs: int, p: int)
    ensures SeqLT(SeqOf(irs, p), SeqOf(irs, p + TWO31)) && SeqLT(SeqOf(irs, p + TWO31), SeqOf(irs, p))
  {
  }

  lemma SeqAdd(irs: int, p: int, n: int)
    ensures (SeqOf(irs, p) + n) % TWO32 == SeqOf(irs, p + n)
  {
  }

  lemma Between(irs: int, p: int, q: int, w: nat)
    requires q < p < q + TWO31 && w < TWO31
    ensures SeqBetween(SeqOf(irs, p), SeqOf(irs, q), SeqOf(irs, q + w)) <==> p <= q + w
  {
    Compare(irs, p, q);
    Compare(irs, p, q + w);
  }

  // ------------------------------------------------------------------ receiver

  datatype Segment = Segment(seqNo: int, data: seq<byte>)

  /** Segment g was cut from the stream at position p. */
  ghost predicate CutAt(irs: int, stream: seq<byte>, g: Segment, p: nat) {
    && 0 < |g.data| < MAX_SEGMENT && p + |g.data| <= |stream|
    && g.data == stream[p..p + |g.data|] && g.seqNo == SeqOf(irs, p)
  }

  /** The queue holds segments of the stream in strictly increasing order, all
      beyond `low` and none beyond `high`. */
  ghost predicate QueueOk(irs: int, stream: seq<byte>, queue: seq<Segment>, places: seq<nat>, low: int, high: int) {
    && |places| == |queue|
    && (forall i :: 0 <= i < |queue| ==> CutAt(irs, stream, queue[i], places[i]) && low < places[i] <= high)
    && (forall i, j :: 0 <= i < j < |queue| ==> places[i] < places[j])
  }

  /** Where a merge ends: the stream position reached and the bytes in the buffer,
      when the queue is taken from the front until the first gap. */
  ghost function Reach(queue: seq<Segment>, places: seq<nat>, at: nat, len: nat, size: nat): (nat, nat)
    requires |queue| == |places|
  {
    if queue == [] || places[0] > at then (at, len)
    else if places[0] < at then Reach(queue[1..], places[1..], at, len, size)
    else Reach(queue[1..], places[1..], at + |queue[0].data|, Fill(len, |queue[0].data|, size), size)
  }

  /** The stream position a merge reaches, whatever the buffer. */
  ghost function Reached(queue: seq<Segment>, places: seq<nat>, at: nat): (r: nat)
    requires |queue| == |places|
    ensures r >= at
  {
    if queue == [] || places[0] > at then at
    else if places[0] < at then Reached(queue[1..], places[1..], at)
    else Reached(queue[1..], places[1..], at + |queue[0].data|)
  }

  /** Every byte on the way is stored if and only if all of them fit. */
  lemma {:induction false} ReachExact(queue: seq<Segment>, places: seq<nat>, at: nat, len: nat, size: nat)
    requires |queue| == |places| && len <= size
    ensures var e := Reach(queue, places, at, len, size);
      e.0 == Reached(queue, places, at) && len <= e.1 <= size && e.1 <= len + (e.0 - at)
      && (e.1 == len + (e.0 - at) <==> len + (e.0 - at) <= size)
  {
    if queue != [] && places[0] <= at {
      if places[0] < at {
        ReachExact(queue[1..], places[1..], at, len, size);
      } else {
        var n := |queue[0].data|;
        ReachExact(queue[1..], places[1..], at + n, Fill(len, n, size), size);
      }
    }
  }

  /** What a merge leaves in the queue. */
  ghost function Left(queue: seq<Segment>, places: seq<nat>, at: nat): (r: (seq<Segment>, seq<nat>))
    requires |queue| == |places|
    ensures |r.0| == |r.1|
  {
    if queue == [] || places[0] > at then (queue, places)
    else if places[0] < at then Left(queue[1..], places[1..], at)
    else Left(queue[1..], places[1..], at + |queue[0].data|)
  }

  // ------------------------------------------------- what a merge is, by itself

  /** Segments of the queue, each starting where the one before ends, lead from x to y. */
  ghost predicate Leads(queue: seq<Segment>, places: seq<nat>, path: seq<nat>, x: nat, y: nat)
    requires |queue| == |places|
    decreases |path|
  {
    if path == [] then x == y
    else path[0] < |queue| && places[path[0]] == x && Leads(queue, places, path[1..], x + |queue[path[0]].data|, y)
  }

  ghost predicate Ordered(queue: seq<Segment>, places: seq<nat>) {
    && |queue| == |places| && (forall i, j :: 0 <= i < j < |places| ==> places[i] < places[j])
    && forall i :: 0 <= i < |queue| ==> queue[i].data != []
  }

  /** Of the queue q0 just the segments beyond y are left, in q1, and queued segments lead
      from x to y. */
  ghost predicate MergedTo(q0: seq<Segment>, p0: seq<nat>, q1: seq<Segment>, p1: seq<nat>, x: nat, y: nat) {
    && |q0| == |p0| && x <= y
    && (exists j :: 0 <= j <= |q0| && KeptFrom(q0, p0, q1, p1, y, j))
    && exists path :: Leads(q0, p0, path, x, y)
  }

  ghost predicate KeptFrom(q0: seq<Segment>, p0: seq<nat>, q1: seq<Segment>, p1: seq<nat>, y: nat, j: nat)
    requires |q0| == |p0| && j <= |q0|
  {
    && q1 == q0[j..] && p1 == p0[j..]
    && (forall k :: 0 <= k < j ==> p0[k] < y) && forall k :: j <= k < |p0| ==> p0[k] > y
  }

  lemma {:induction false} LeadsTail(queue: seq<Segment>, places: seq<nat>, path: seq<nat>, x: nat, y: nat)
    returns (r: seq<nat>)
    requires |queue| == |places| > 0 && Leads(queue[1..], places[1..], path, x, y)
    ensures Leads(queue, places, r, x, y)
    decreases |path|
  {
    if path == [] {
      r := [];
    } else {
      var q := queue[1..];
      assert q[path[0]] == queue[path[0] + 1] && places[1..][path[0]] == places[path[0] + 1];
      var rest := LeadsTail(queue, places, path[1..], x + |q[path[0]].data|, y);
      r := [path[0] + 1] + rest;
      assert r[1..] == rest;
    }
  }

  lemma {:induction false} MergeIs(queue: seq<Segment>, places: seq<nat>, at: nat)
    requires Ordered(queue, places)
    ensures var left := Left(queue, places, at);
      MergedTo(queue, places, left.0, left.1, at, Reached(queue, places, at))
  {
    var left, y := Left(queue, places, at), Reached(queue, places, at);
    if queue == [] || places[0] > at {
      assert Leads(queue, places, [], at, y);
      assert KeptFrom(queue, places, left.0, left.1, y, 0);
    } else {
      var q, p := queue[1..], places[1..];
      var x := if places[0] < at then at else at + |queue[0].data|;
      assert Ordered(q, p);
      MergeIs(q, p, x);
      var j :| 0 <= j <= |q| && KeptFrom(q, p, left.0, left.1, y, j);
      KeptTail(queue, places, left.0, left.1, y, j);
      var path :| Leads(q, p, path, x, y);
      var r := LeadsTail(queue, places, path, x, y);
      if places[0] == at {
        assert ([0] + r)[1..] == r;
        assert Leads(queue, places, [0] + r, at, y);
      }
    }
  }

  lemma KeptTail(queue: seq<Segment>, places: seq<nat>, q1: seq<Segment>, p1: seq<nat>, y: nat, j: nat)
    requires |queue| == |places| > 0 && j < |queue| && places[0] < y && KeptFrom(queue[1..], places[1..], q1, p1, y, j)
    ensures KeptFrom(queue, places, q1, p1, y, j + 1)
  {
    assert queue[1..][j..] == queue[j + 1..] && places[1..][j..] == places[j + 1..];
    forall k | 0 <= k < |places| ensures (k < j + 1 ==> places[k] < y) && (k >= j + 1 ==> places[k] > y) {
      if k > 0 { assert places[1..][k - 1] == places[k]; }
    }
  }

  /** That determines the position reached. */
  lemma {:induction false} LeadsOnce(queue: seq<Segment>, places: seq<nat>, a: seq<nat>, b: seq<nat>,
                                     x: nat, y: nat, z: nat)
    requires Ordered(queue, places) && Leads(queue, places, a, x, y) && Leads(queue, places, b, x, z)
    requires y !in places && z !in places
    ensures y == z
    decreases |a|
  {
    if a != [] && b != [] {
      assert a[0] == b[0];
      LeadsOnce(queue, places, a[1..], b[1..], x + |queue[a[0]].data|, y, z);
    }
  }

  lemma {:induction false} ReachIs(queue: seq<Segment>, places: seq<nat>, at: nat, len: nat, size: nat)
    requires |queue| == |places|
    ensures Reach(queue, places, at, len, size).0 == Reached(queue, places, at)
  {
    if queue != [] && places[0] <= at {
      if places[0] < at { ReachIs(queue[1..], places[1..], at, len, size); }
      else { ReachIs(queue[1..], places[1..], at + |queue[0].data|, Fill(len, |queue[0].data|, size), size); }
    }
  }

  /** The place of a segment in the queue. */
  ghost function Spot(places: seq<nat>, p: nat): (i: nat)
    ensures i <= |places|
  {
    if places == [] || places[0] >= p then 0 else 1 + Spot(places[1..], p)
  }

  lemma {:induction false} SpotIs(places: seq<nat>, p: nat, i: nat)
    requires i <= |places| && (forall k :: 0 <= k < i ==> places[k] < p) && (i < |places| ==> places[i] >= p)
    ensures Spot(places, p) == i
  {
    if i > 0 { SpotIs(places[1..], p, i - 1); }
  }

  function Inserted<T>(s: seq<T>, i: nat, x: T): (r: seq<T>)
    requires i <= |s|
    ensures |r| == |s| + 1
  {
    s[..i] + [x] + s[i..]
  }

  /** The receiver as it stands: stream position of rcv_nxt, queue, buffer, and the bytes
      acknowledged without being stored. */
  datatype Moment = Moment(at: nat, queue: seq<Segment>, places: seq<nat>, recvLen: nat, readPos: nat, dropped: int)

  /** The state after a segment that starts at stream position p. */
  ghost function Arrived(m: Moment, size: nat, wnd: nat, g: Segment, p: nat): (r: Moment)
    requires |m.queue| == |m.places|
    ensures |r.queue| == |r.places|
  {
    if g.data == [] then m
    else if p == m.at then
      var e := Reach(m.queue, m.places, m.at + |g.data|, Fill(m.recvLen, |g.data|, size), size);
      var left := Left(m.queue, m.places, m.at + |g.data|);
      Moment(e.0, left.0, left.1, e.1, m.readPos, m.dropped + (e.0 - m.at) - (e.1 - m.recvLen))
    else if m.at < p <= m.at + wnd && |m.queue| < MAX_OOSEQ && p !in m.places then
      var i := Spot(m.places, p);
      m.(queue := Inserted(m.queue, i, g), places := Inserted(m.places, i, p))
    else m
  }

  /** The state after a read of up to len bytes. */
  ghost function Taken(m: Moment, len: nat): (r: Moment)
    requires m.readPos <= m.recvLen
    ensures r.queue == m.queue && r.places == m.places && r.at == m.at
  {
    var unread := m.recvLen - m.readPos;
    if len < unread then m.(readPos := m.readPos + len) else m.(recvLen := 0, readPos := 0)
  }

  lemma ReachEmpty(at: nat, len: nat, size: nat)
    ensures Reach([], [], at, len, size) == (at, len) && Left([], [], at) == ([], [])
  {
  }

  function Fill(len: nat, n: nat, size: nat): nat {
    if len + n <= size then len + n else len
  }

  lemma QueueRest(irs: int, stream: seq<byte>, queue: seq<Segment>, places: seq<nat>, low: int, high: int,
                  newLow: int, newHigh: int)
    requires QueueOk(irs, stream, queue, places, low, high) && queue != [] && high <= newHigh
    requires newLow <= places[0]
    ensures QueueOk(irs, stream, queue[1..], places[1..], newLow, newHigh)
  {
  }

  lemma QueueRaise(irs: int, stream: seq<byte>, queue: seq<Segment>, places: seq<nat>, low: int, high: int, newLow: int)
    requires QueueOk(irs, stream, queue, places, low, high) && (queue != [] ==> newLow < places[0])
    ensures QueueOk(irs, stream, queue, places, newLow, high)
  {
  }

  lemma QueueAbove(irs: int, stream: seq<byte>, queue: seq<Segment>, places: seq<nat>, low: int, high: int)
    requires QueueOk(irs, stream, queue, places, low, high)
    ensures |places| == |queue| && forall i :: 0 <= i < |places| ==> low < places[i]
  {
  }

  lemma QueueHead(irs: int, stream: seq<byte>, queue: seq<Segment>, places: seq<nat>, low: int, high: int)
    requires QueueOk(irs, stream, queue, places, low, high) && queue != []
    ensures |places| == |queue| && CutAt(irs, stream, queue[0], places[0]) && low < places[0] <= high
    ensures forall i :: 0 <= i < |places| ==> places[0] <= places[i]
  {
  }

  lemma QueueOrdered(irs: int, stream: seq<byte>, queue: seq<Segment>, places: seq<nat>, low: int, high: int)
    requires QueueOk(irs, stream, queue, places, low, high)
    ensures Ordered(queue, places)
  {
  }

  lemma InsertedAt<T>(s: seq<T>, i: nat, x: T, k: nat)
    requires i <= |s| && k <= |s|
    ensures Inserted(s, i, x)[k] == (if k < i then s[k] else if k == i then x else s[k - 1])
  {
  }

  lemma InsertedIn<T>(s: seq<T>, i: nat, x: T)
    requires i <= |s|
    ensures forall y :: y in Inserted(s, i, x) <==> y in s || y == x
  {
    assert s == s[..i] + s[i..];
  }

  lemma QueueInsert(irs: int, stream: seq<byte>, queue: seq<Segment>, places: seq<nat>, low: int, high: int,
                    i: nat, g: Segment, p: nat)
    requires QueueOk(irs, stream, queue, places, low, high) && i <= |queue|
    requires CutAt(irs, stream, g, p) && low < p <= high
    requires forall k :: 0 <= k < i ==> places[k] < p
    requires i < |queue| ==> p < places[i]
    ensures |places| == |queue| && QueueOk(irs, stream, Inserted(queue, i, g), Inserted(places, i, p), low, high)
  {
    hide CutAt, Inserted;
    assert forall k :: i <= k < |places| ==> p < places[k];
    var q, r := Inserted(queue, i, g), Inserted(places, i, p);
    forall k | 0 <= k < |q| ensures CutAt(irs, stream, q[k], r[k]) && low < r[k] <= high {
      InsertedAt(queue, i, g, k);
      InsertedAt(places, i, p, k);
    }
    forall j, k | 0 <= j < k < |q| ensures r[j] < r[k] {
      InsertedAt(places, i, p, j);
      InsertedAt(places, i, p, k);
    }
  }

  /** The insertion point: the list walk of tcp_ooseq_add. */
  method Slot(queue: seq<Segment>, seqNo: int, ghost irs: int, ghost stream: seq<byte>, ghost places: seq<nat>,
              ghost low: int, ghost high: int, ghost p: nat)
    returns (i: nat)
    requires QueueOk(irs, stream, queue, places, low, high) && seqNo == SeqOf(irs, p) && low < p <= high < low + TWO31
    ensures i <= |queue| && (forall k :: 0 <= k < i ==> places[k] < p) && (i < |queue| ==> places[i] >= p)
    ensures i < |queue| ==> (queue[i].seqNo == seqNo <==> places[i] == p)
  {
    i := 0;
    while i < |queue| && SeqLT(queue[i].seqNo, seqNo)
      invariant 0 <= i <= |queue|
      invariant forall k :: 0 <= k < i ==> places[k] < p
    {
      assert CutAt(irs, stream, queue[i], places[i]);
      Compare(irs, places[i], p);
      i := i + 1;
    }
    if i < |queue| {
      assert CutAt(irs, stream, queue[i], places[i]);
      Compare(irs, places[i], p);
    }
  }

  class Receiver {
    const size: nat
    const buf: array<byte>
    var rcvNxt: int
    var rcvWnd: nat
    var recvLen: nat
    var readPos: nat
    var ooseq: seq<Segment>
    var ooseqCount: nat

    ghost const irs: int
    ghost const stream: seq<byte>
    ghost var at: nat           // stream position of rcvNxt
    ghost var given: seq<byte>  // everything handed to the application
    ghost var dropped: nat      // bytes acknowledged without being stored
    ghost var places: seq<nat>  // stream positions of the queued segments

    ghost function Unread(): seq<byte>
      requires readPos <= recvLen <= buf.Length
      reads this, buf
    {
      buf[readPos..recvLen]
    }

    /** The receive state between the calls that empty the queue. */
    ghost predicate Good(low: int)
      reads this, buf
    {
      && buf.Length == size && readPos <= recvLen <= size && rcvWnd < TWO31 - MAX_SEGMENT
      && rcvNxt == SeqOf(irs, at) && at <= |stream|
      && |given| + (recvLen - readPos) + dropped == at
      && (dropped == 0 ==> given + Unread() == stream[..at])
      && ooseqCount == |ooseq| <= MAX_OOSEQ
      && QueueOk(irs, stream, ooseq, places, low, at + rcvWnd)
    }

    ghost function Now(): Moment
      reads this
    {
      Moment(at, ooseq, places, recvLen, readPos, dropped)
    }

    ghost predicate Valid()
      reads this, buf
    {
      Good(at) && (readPos == recvLen ==> readPos == 0)
    }

    constructor (size: nat, ghost irs: int, ghost stream: seq<byte>, rcvNxt: int, rcvWnd: nat)
      requires rcvWnd < TWO31 - MAX_SEGMENT && rcvNxt == SeqOf(irs, 0)
      ensures Valid() && this.size == size && this.irs == irs && this.stream == stream && this.rcvWnd == rcvWnd
      ensures at == 0 && given == [] && dropped == 0 && recvLen == 0
    {
      this.size, this.irs, this.stream, this.rcvNxt, this.rcvWnd := size, irs, stream, rcvNxt, rcvWnd;
      buf := new byte[size](_ => 0);
      recvLen, readPos, ooseq, ooseqCount := 0, 0, [], 0;
      at, given, dropped, places := 0, [], 0, [];
    }

    /** The bytes handed out and the bytes waiting are exactly the stream up to
        rcv_nxt if and only if no segment was ever refused for lack of space. */
    lemma InOrder()
      requires Valid()
      ensures given + Unread() == stream[..at] <==> dropped == 0
      ensures dropped == 0 ==> given <= stream
    {
      assert given <= given + Unread();
      if dropped > 0 {
        assert |given + Unread()| < |stream[..at]|;
      }
    }

    lemma NextIs()
      requires Valid()
      ensures rcvNxt == SeqOf(irs, at) && at <= |stream|
      ensures readPos <= recvLen <= buf.Length == size && |places| == |ooseq|
    {
    }

    /** The copy shared by tcp_process_data and tcp_ooseq_merge. A segment that does
        not fit is not stored, and acknowledged all the same. */
    method Deposit(data: seq<byte>)
      requires readPos <= recvLen && recvLen + |data| <= buf.Length
      modifies this`recvLen, buf
      ensures recvLen == old(recvLen) + |data| && buf[readPos..recvLen] == old(buf[readPos..recvLen]) + data
    {
      forall i | 0 <= i < |data| {
        buf[recvLen + i] := data[i];
      }
      recvLen := recvLen + |data|;
    }

    method Accept(data: seq<byte>)
      requires Good(at - MAX_SEGMENT) && |data| < MAX_SEGMENT
      requires at + |data| <= |stream| && data == stream[at..at + |data|]
      requires forall i :: 0 <= i < |places| ==> at - MAX_SEGMENT + |data| < places[i]
      modifies this`rcvNxt, this`recvLen, this`at, this`dropped, buf
      ensures Good(at - MAX_SEGMENT)
      ensures at == old(at) + |data|
      ensures if old(recvLen) + |data| <= size then dropped == old(dropped) && recvLen == old(recvLen) + |data|
              else dropped == old(dropped) + |data| && recvLen == old(recvLen)
    {
      if recvLen + |data| <= size {
        Deposit(data);
      } else {
        dropped := dropped + |data|;
      }
      SeqAdd(irs, at, |data|);
      rcvNxt := (rcvNxt + |data|) % TWO32;
      at := at + |data|;
      assert stream[..at] == stream[..old(at)] + data;
    }

    method Pop()
      requires Good(at - MAX_SEGMENT) && ooseq != []
      modifies this`ooseq, this`ooseqCount, this`places
      ensures Good(at - MAX_SEGMENT) && |old(places)| == |old(ooseq)|
      ensures ooseq == old(ooseq)[1..] && places == old(places)[1..]
    {
      QueueRest(irs, stream, ooseq, places, at - MAX_SEGMENT, at + rcvWnd, at - MAX_SEGMENT, at + rcvWnd);
      ooseq, ooseqCount, places := ooseq[1..], ooseqCount - 1, places[1..];
    }

    /** The segment at the head of the queue is accepted if it continues the stream and
        discarded if it was overtaken; otherwise there is a gap. */
    method TakeHead() returns (go: bool)
      requires Good(at - MAX_SEGMENT) && ooseq != []
      modifies this`rcvNxt, this`recvLen, this`at, this`dropped, this`ooseq, this`ooseqCount, this`places, buf
      ensures Good(at - MAX_SEGMENT) && recvLen >= old(recvLen) && dropped >= old(dropped)
      ensures |old(places)| == |old(ooseq)| && |places| == |ooseq| && old(at) <= at <= old(at) + MAX_SEGMENT
      ensures go ==> ooseq == old(ooseq)[1..] && places == old(places)[1..]
      ensures !go ==> ooseq == old(ooseq) && places == old(places) && at == old(at) < places[0]
      ensures Reach(ooseq, places, at, recvLen, size) == Reach(old(ooseq), old(places), old(at), old(recvLen), size)
      ensures Left(ooseq, places, at) == Left(old(ooseq), old(places), old(at))
      ensures !go ==> Reach(ooseq, places, at, recvLen, size) == (at, recvLen)
      ensures !go ==> Left(ooseq, places, at) == (ooseq, places)
    {
      hide QueueOk, SeqLT, SeqOf;
      var seg := ooseq[0];
      QueueHead(irs, stream, ooseq, places, at - MAX_SEGMENT, at + rcvWnd);
      Compare(irs, places[0], at);
      if seg.seqNo == rcvNxt {
        Accept(seg.data);
      } else if !SeqLT(seg.seqNo, rcvNxt) {
        return false;
      }
      Pop();
      return true;
    }

    /** tcp_ooseq_merge: queued segments that continue the stream are accepted,
        overtaken ones are discarded, and the first gap stops the loop. */
    method Merge()
      requires Good(at - MAX_SEGMENT)
      modifies this`rcvNxt, this`recvLen, this`at, this`dropped, this`ooseq, this`ooseqCount, this`places, buf
      ensures Good(at) && recvLen >= old(recvLen) && dropped >= old(dropped)
      ensures |old(places)| == |old(ooseq)|
      ensures (at, recvLen) == Reach(old(ooseq), old(places), old(at), old(recvLen), size)
      ensures (ooseq, places) == Left(old(ooseq), old(places), old(at))
      ensures old(at) <= at <= old(at) + MAX_OOSEQ * MAX_SEGMENT
      ensures old(ooseq) == [] ==> dropped == old(dropped)
      ensures forall q :: q in places ==> q in old(places)
    {
      hide QueueOk, SeqLT, SeqOf, Reach, Left;
      QueueAbove(irs, stream, ooseq, places, at - MAX_SEGMENT, at + rcvWnd);
      ghost var end := Reach(ooseq, places, at, recvLen, size);
      ghost var left := Left(ooseq, places, at);
      while ooseq != []
        invariant |places| == |ooseq|
        invariant Reach(ooseq, places, at, recvLen, size) == end && Left(ooseq, places, at) == left
        invariant Good(at - MAX_SEGMENT) && recvLen >= old(recvLen) && dropped >= old(dropped)
        invariant old(at) <= at <= old(at) + (|old(ooseq)| - |ooseq|) * MAX_SEGMENT
        invariant |ooseq| <= |old(ooseq)| && (old(ooseq) == [] ==> dropped == old(dropped))
        invariant forall q :: q in places ==> q in old(places)
        decreases |ooseq|
      {
        var go := TakeHead();
        if !go { break; }
      }
      ReachEmpty(at, recvLen, size);
      QueueRaise(irs, stream, ooseq, places, at - MAX_SEGMENT, at + rcvWnd, at);
    }

    /** tcp_ooseq_add: insertion in sequence order. A full queue, a segment outside the
        window and a second segment with the same start are turned away. */
    method Enqueue(seqNo: int, data: seq<byte>, ghost p: nat) returns (ok: bool)
      requires Valid() && CutAt(irs, stream, Segment(seqNo, data), p) && at < p < at + TWO31
      modifies this`ooseq, this`ooseqCount, this`places
      ensures Valid()
      ensures ok <==> old(ooseqCount) < MAX_OOSEQ && p <= at + rcvWnd
      ensures Now() == Arrived(old(Now()), size, rcvWnd, Segment(seqNo, data), p)
      ensures forall q :: q in places <==> q in old(places) || (ok && q == p)
    {
      hide QueueOk, SeqBetween, SeqLT, Reach, Left, Spot, Inserted;
      PlacesLength();
      if ooseqCount >= MAX_OOSEQ {
        return false;
      }
      Between(irs, p, at, rcvWnd);
      SeqAdd(irs, at, rcvWnd);
      if !SeqBetween(seqNo, rcvNxt, (rcvNxt + rcvWnd) % TWO32) {
        return false;
      }
      var i := Slot(ooseq, seqNo, irs, stream, places, at, at + rcvWnd, p);
      PlacesLength();
      if i < |ooseq| && ooseq[i].seqNo == seqNo {
        assert places[i] == p;
        return true;
      }
      QueueInsert(irs, stream, ooseq, places, at, at + rcvWnd, i, Segment(seqNo, data), p);
      NotAmong(i, p);
      SpotIs(places, p, i);
      InsertedIn(places, i, p);
      ooseq, ooseqCount := Inserted(ooseq, i, Segment(seqNo, data)), ooseqCount + 1;
      places := Inserted(places, i, p);
      return true;
    }

    lemma PlacesLength()
      requires Valid()
      ensures |places| == |ooseq|
    {
    }

    lemma NotAmong(i: nat, p: nat)
      requires Valid() && i <= |places|
      requires (forall k :: 0 <= k < i ==> places[k] < p) && (i < |places| ==> p < places[i])
      ensures p !in places
    {
      assert forall k :: i <= k < |places| ==> places[i] <= places[k];
    }

    /** The branch of tcp_process_data for the segment that comes next. */
    method Continue(seqNo: int, data: seq<byte>)
      requires Valid() && 0 < |data| < MAX_SEGMENT && at + |data| <= |stream| && data == stream[at..at + |data|]
      modifies this`rcvNxt, this`recvLen, this`at, this`dropped, this`ooseq, this`ooseqCount, this`places, buf
      ensures Valid() && old(at) <= at < old(at) + 9 * MAX_SEGMENT && dropped >= old(dropped)
      ensures |old(places)| == |old(ooseq)| && Now() == Arrived(old(Now()), size, rcvWnd, Segment(seqNo, data), old(at))
      ensures MergedTo(old(ooseq), old(places), ooseq, places, old(at) + |data|, at)
      ensures dropped == old(dropped) <==> old(recvLen) + (at - old(at)) <= size
      ensures forall q :: q in places ==> q in old(places)
    {
      hide QueueOk, SeqOf, Reach, Left, Spot, Inserted, MergedTo;
      PlacesLength();
      QueueOrdered(irs, stream, ooseq, places, at, at + rcvWnd);
      MergeIs(ooseq, places, at + |data|);
      QueueAbove(irs, stream, ooseq, places, at, at + rcvWnd);
      QueueRaise(irs, stream, ooseq, places, at, at + rcvWnd, at - MAX_SEGMENT);
      Accept(data);
      ReachExact(ooseq, places, at, recvLen, size);
      Merge();
    }

    /** tcp_process_data on a segment cut from the stream at p, for any arrival order,
        duplication and overlap, within 2^31 of the next byte expected. */
    method ProcessData(seqNo: int, data: seq<byte>, ghost p: nat)
      requires Valid() && seqNo == SeqOf(irs, p) && |data| < MAX_SEGMENT && p + |data| <= |stream|
      requires data == stream[p..p + |data|] && -TWO31 < p - at < TWO31
      modifies this`rcvNxt, this`recvLen, this`at, this`dropped, this`ooseq, this`ooseqCount, this`places, buf
      ensures Valid() && old(at) <= at < old(at) + 9 * MAX_SEGMENT && dropped >= old(dropped)
      ensures |old(places)| == |old(ooseq)| && Now() == Arrived(old(Now()), size, rcvWnd, Segment(seqNo, data), p)
      ensures p == old(at) && data != [] ==> MergedTo(old(ooseq), old(places), ooseq, places, old(at) + |data|, at)
      ensures p != old(at) ==> at == old(at) && Unread() == old(Unread())
      ensures dropped == old(dropped) <==> old(recvLen) + (at - old(at)) <= size
      ensures forall q :: q in places ==> q in old(places) || q == p
    {
      hide QueueOk, SeqGT, SeqOf, Reach, Left, Spot, Inserted, MergedTo;
      PlacesLength();
      if data == [] {
        return;
      }
      Compare(irs, p, at);
      if seqNo == rcvNxt {
        Continue(seqNo, data);
      } else if SeqGT(seqNo, rcvNxt) {
        var ok := Enqueue(seqNo, data, p);
      }
    }

    /** tcp_read: None for "no data yet" and for the end of the connection. */
    method Read(len: nat) returns (r: seq<byte>)
      requires Valid()
      modifies this`recvLen, this`readPos, this`given
      ensures Valid() && given == old(given) + r && r + Unread() == old(Unread()) && at == old(at)
      ensures |r| == if len <= |old(Unread())| then len else |old(Unread())|
      ensures Now() == Taken(old(Now()), len)
    {
      if len == 0 || recvLen == 0 {
        return [];
      }
      var n := if len > recvLen - readPos then recvLen - readPos else len;
      r := buf[readPos..readPos + n];
      readPos := readPos + n;
      given := given + r;
      if readPos >= recvLen {
        recvLen, readPos := 0, 0;
      }
    }
  }

  // ---------------------------------------------------------------------- runs

  /** The network delivers a piece of the stream, or the application reads. */
  datatype Event = Arrive(p: nat, len: nat) | ReadUpTo(len: nat)

  /** An arrival counts if it is a piece of the stream, and less than 2^31 from rcv_nxt. */
  predicate Happens(at: nat, e: Event, length: nat) {
    e.Arrive? && e.p + e.len <= length && e.len < MAX_SEGMENT && -TWO31 < e.p - at < TWO31
  }

  ghost function Next(m: Moment, e: Event, size: nat, wnd: nat, irs: int, stream: seq<byte>): (r: Moment)
    requires |m.queue| == |m.places| && m.readPos <= m.recvLen
    ensures |r.queue| == |r.places|
  {
    if e.ReadUpTo? then Taken(m, e.len)
    else if Happens(m.at, e, |stream|) then
      Arrived(m, size, wnd, Segment(SeqOf(irs, e.p), stream[e.p..e.p + e.len]), e.p)
    else m
  }

  /** The moments of a run: each follows from the one before. */
  ghost predicate Traced(moments: seq<Moment>, events: seq<Event>, size: nat, wnd: nat, irs: int, stream: seq<byte>) {
    && |moments| == |events| + 1
    && (forall i :: 0 <= i < |moments| ==> moments[i].at <= |stream|)
    && forall i :: 0 <= i < |events| ==>
         && |moments[i].queue| == |moments[i].places| && moments[i].readPos <= moments[i].recvLen
         && moments[i + 1] == Next(moments[i], events[i], size, wnd, irs, stream)
  }

  /** The buffer has room for all the bytes by which rcv_nxt moves. */
  predicate HasRoom(m: Moment, n: Moment, size: nat) { m.recvLen + (n.at - m.at) <= size }

  ghost predicate AlwaysRoom(moments: seq<Moment>, size: nat) {
    forall i {:trigger moments[i]} :: 0 <= i < |moments| - 1 ==> HasRoom(moments[i], moments[i + 1], size)
  }

  lemma NoMoves(m: Moment, size: nat)
    ensures AlwaysRoom([m], size)
  {
  }

  lemma OneMove(moments: seq<Moment>, n: Moment, size: nat)
    requires moments != []
    ensures AlwaysRoom(moments + [n], size) <==> AlwaysRoom(moments, size) && HasRoom(moments[|moments| - 1], n, size)
  {
    hide HasRoom;
    var more := moments + [n];
    if AlwaysRoom(more, size) {
      forall i | 0 <= i < |moments| - 1 ensures HasRoom(moments[i], moments[i + 1], size) {
        assert more[i] == moments[i] && more[i + 1] == moments[i + 1];
      }
      assert more[|moments| - 1] == moments[|moments| - 1];
    }
  }

  /** For every run of arrivals and reads, the application has received a prefix of the
      stream, in order and without gaps, and what it received plus what waits is exactly
      the stream up to rcv_nxt, if and only if every arrival found room in the buffer for
      all the bytes by which it moved rcv_nxt. */
  method Run(r: Receiver, stream: seq<byte>, irs: int, start: nat, events: seq<Event>)
    returns (room: bool, ghost moments: seq<Moment>)
    requires r.Valid() && stream == r.stream && irs == r.irs && start == r.at && r.dropped == 0
    modifies r, r.buf
    ensures r.Valid() && Traced(moments, events, r.size, old(r.rcvWnd), irs, stream)
    ensures moments[0] == old(r.Now()) && moments[|events|] == r.Now()
    ensures room <==> AlwaysRoom(moments, r.size)
    ensures r.readPos <= r.recvLen <= r.buf.Length && r.at <= |stream|
    ensures r.given + r.Unread() == stream[..r.at] <==> room
    ensures room ==> r.given <= stream
  {
    hide Receiver.Valid, Next, HasRoom, AlwaysRoom;
    NoMoves(r.Now(), r.size);
    var next := start;
    room, moments := true, [r.Now()];
    r.NextIs();
    for n := 0 to |events|
      invariant r.Valid() && next == r.at && (room <==> r.dropped == 0) && r.rcvWnd == old(r.rcvWnd)
      invariant |moments| == n + 1 && moments[0] == old(r.Now()) && moments[n] == r.Now()
      invariant forall i :: 0 <= i <= n ==> moments[i].at <= |stream|
      invariant forall i :: 0 <= i < n ==>
                  && |moments[i].queue| == |moments[i].places| && moments[i].readPos <= moments[i].recvLen
                  && moments[i + 1] == Next(moments[i], events[i], r.size, r.rcvWnd, irs, stream)
      invariant room <==> AlwaysRoom(moments, r.size)
    {
      var fits, moved := Serve(r, stream, irs, next, events[n]);
      next, room := next + moved, room && fits;
      OneMove(moments, r.Now(), r.size);
      moments := moments + [r.Now()];
    }
    r.NextIs();
    r.InOrder();
  }

  /** One event. */
  method Serve(r: Receiver, stream: seq<byte>, irs: int, next: nat, e: Event) returns (fits: bool, moved: nat)
    requires r.Valid() && stream == r.stream && irs == r.irs && next == r.at
    modifies r, r.buf
    ensures r.Valid() && r.rcvWnd == old(r.rcvWnd) && r.at == next + moved <= |stream|
    ensures r.dropped >= old(r.dropped) >= 0
    ensures |old(r.ooseq)| == |old(r.places)| && old(r.readPos) <= old(r.recvLen)
    ensures r.Now() == Next(old(r.Now()), e, r.size, r.rcvWnd, irs, stream)
    ensures fits <==> HasRoom(old(r.Now()), r.Now(), r.size)
    ensures fits <==> r.dropped == old(r.dropped)
  {
    hide Receiver.Good, Arrived, Taken, SeqOf;
    r.NextIs();
    var before, held := r.rcvNxt, r.recvLen;
    match e {
      case Arrive(p, len) =>
        if p + len <= |stream| && len < MAX_SEGMENT && -TWO31 < p - next < TWO31 {
          r.ProcessData(SeqOf(irs, p), stream[p..p + len], p);
        }
      case ReadUpTo(len) =>
        var b := r.Read(len);
    }
    r.NextIs();
    Advance(irs, next, r.at);
    moved := Diff(r.rcvNxt, before);
    fits := held + moved <= r.size;
  }

  /** A receiver that starts empty with a buffer as large as the stream loses nothing, in
      whatever order, how often and how late the pieces arrive. */
  lemma LargeBuffer(moments: seq<Moment>, events: seq<Event>, size: nat, wnd: nat, irs: int, stream: seq<byte>)
    requires Traced(moments, events, size, wnd, irs, stream) && moments[0].recvLen == 0 && |stream| <= size
    ensures AlwaysRoom(moments, size)
  {
    RoomUpTo(moments, events, size, wnd, irs, stream, |events|);
    assert moments[..|events| + 1] == moments;
  }

  lemma {:induction false} RoomUpTo(moments: seq<Moment>, events: seq<Event>, size: nat, wnd: nat, irs: int,
                                    stream: seq<byte>, n: nat)
    requires Traced(moments, events, size, wnd, irs, stream) && moments[0].recvLen == 0 && |stream| <= size
    requires n <= |events|
    ensures moments[n].recvLen <= moments[n].at && moments[n].recvLen <= size
    ensures AlwaysRoom(moments[..n + 1], size)
  {
    if n > 0 {
      RoomUpTo(moments, events, size, wnd, irs, stream, n - 1);
      NextBelow(moments[n - 1], events[n - 1], size, wnd, irs, stream);
      assert moments[..n + 1] == moments[..n] + [moments[n]];
      OneMove(moments[..n], moments[n], size);
    }
  }

  /** The queue of m holds segment g at place p. */
  ghost predicate Queued(m: Moment, g: Segment, p: nat) {
    exists k :: 0 <= k < |m.places| && k < |m.queue| && m.places[k] == p && m.queue[k] == g
  }

  lemma NextOrdered(m: Moment, e: Event, size: nat, wnd: nat, irs: int, stream: seq<byte>)
    requires Ordered(m.queue, m.places) && m.readPos <= m.recvLen
    ensures var n := Next(m, e, size, wnd, irs, stream); Ordered(n.queue, n.places) && m.at <= n.at
    ensures forall g, p :: Queued(m, g, p) && Next(m, e, size, wnd, irs, stream).at < p ==>
              Queued(Next(m, e, size, wnd, irs, stream), g, p)
  {
    hide Reach, Reached, Left, Spot, Inserted, MergedTo, Leads;
    var n := Next(m, e, size, wnd, irs, stream);
    if e.Arrive? && Happens(m.at, e, |stream|) && e.len > 0 {
      var data := stream[e.p..e.p + e.len];
      if e.p == m.at {
        ReachIs(m.queue, m.places, m.at + e.len, Fill(m.recvLen, e.len, size), size);
        MergeIs(m.queue, m.places, m.at + e.len);
        MergedKeeps(m, n, m.at + e.len);
      } else if n != m {
        InsertKeeps(m, n, Segment(SeqOf(irs, e.p), data), e.p);
      }
    }
  }

  lemma MergedKeeps(m: Moment, n: Moment, x: nat)
    requires Ordered(m.queue, m.places) && MergedTo(m.queue, m.places, n.queue, n.places, x, n.at)
    ensures Ordered(n.queue, n.places) && forall g, p :: Queued(m, g, p) && n.at < p ==> Queued(n, g, p)
  {
    hide Ordered, Leads;
    var j :| 0 <= j <= |m.queue| && KeptFrom(m.queue, m.places, n.queue, n.places, n.at, j);
    OrderedFrom(m.queue, m.places, j);
    forall g, p | Queued(m, g, p) && n.at < p ensures Queued(n, g, p) {
      var k :| 0 <= k < |m.places| && k < |m.queue| && m.places[k] == p && m.queue[k] == g;
      assert n.places[k - j] == p && n.queue[k - j] == g;
    }
  }

  lemma OrderedFrom(queue: seq<Segment>, places: seq<nat>, j: nat)
    requires Ordered(queue, places) && j <= |queue|
    ensures |queue| == |places| && Ordered(queue[j..], places[j..])
  {
  }

  lemma InsertKeeps(m: Moment, n: Moment, g0: Segment, p0: nat)
    requires Ordered(m.queue, m.places) && p0 !in m.places && g0.data != []
    requires var i := Spot(m.places, p0); n.queue == Inserted(m.queue, i, g0) && n.places == Inserted(m.places, i, p0)
    ensures Ordered(n.queue, n.places) && forall g, p :: Queued(m, g, p) ==> Queued(n, g, p)
  {
    hide Spot, Inserted;
    var i := Spot(m.places, p0);
    SpotBounds(m.places, p0);
    forall j, k | 0 <= j < k < |n.places| ensures n.places[j] < n.places[k] {
      InsertedAt(m.places, i, p0, j);
      InsertedAt(m.places, i, p0, k);
    }
    forall k | 0 <= k < |n.queue| ensures n.queue[k].data != [] { InsertedAt(m.queue, i, g0, k); }
    forall g, p | Queued(m, g, p) ensures Queued(n, g, p) {
      var k :| 0 <= k < |m.places| && k < |m.queue| && m.places[k] == p && m.queue[k] == g;
      var l := if k < i then k else k + 1;
      InsertedAt(m.places, i, p0, l);
      InsertedAt(m.queue, i, g0, l);
      assert n.places[l] == p && n.queue[l] == g;
    }
  }

  lemma {:induction false} SpotBounds(places: seq<nat>, p: nat)
    requires forall i, j :: 0 <= i < j < |places| ==> places[i] < places[j]
    ensures forall k :: 0 <= k < Spot(places, p) ==> places[k] < p
    ensures forall k :: Spot(places, p) <= k < |places| ==> places[k] >= p
  {
    if places != [] && places[0] < p {
      SpotBounds(places[1..], p);
      assert forall k :: 0 < k < |places| ==> places[k] == places[1..][k - 1];
    }
  }

  /** Over every run a segment in the queue stays there, with its data, until rcv_nxt reaches
      it. */
  lemma {:induction false} StaysQueued(moments: seq<Moment>, events: seq<Event>, size: nat, wnd: nat, irs: int,
                                       stream: seq<byte>, i: nat, j: nat, g: Segment, p: nat)
    requires Traced(moments, events, size, wnd, irs, stream) && i <= j <= |events|
    requires Ordered(moments[i].queue, moments[i].places) && Queued(moments[i], g, p) && moments[j].at < p
    ensures Ordered(moments[j].queue, moments[j].places) && Queued(moments[j], g, p)
    decreases j
  {
    hide Next, Ordered, Queued;
    if i < j {
      OrderedUpTo(moments, events, size, wnd, irs, stream, i, j - 1);
      NextOrdered(moments[j - 1], events[j - 1], size, wnd, irs, stream);
      StaysQueued(moments, events, size, wnd, irs, stream, i, j - 1, g, p);
    }
  }

  lemma {:induction false} OrderedUpTo(moments: seq<Moment>, events: seq<Event>, size: nat, wnd: nat, irs: int,
                                       stream: seq<byte>, i: nat, j: nat)
    requires Traced(moments, events, size, wnd, irs, stream) && i <= j <= |events|
    requires Ordered(moments[i].queue, moments[i].places)
    ensures Ordered(moments[j].queue, moments[j].places) && moments[i].at <= moments[j].at
    decreases j
  {
    hide Next, Ordered;
    if i < j {
      OrderedUpTo(moments, events, size, wnd, irs, stream, i, j - 1);
      NextOrdered(moments[j - 1], events[j - 1], size, wnd, irs, stream);
    }
  }

  /** The buffer never holds more bytes than rcv_nxt has moved over. */
  lemma NextBelow(m: Moment, e: Event, size: nat, wnd: nat, irs: int, stream: seq<byte>)
    requires |m.queue| == |m.places| && m.readPos <= m.recvLen <= m.at && m.recvLen <= size
    ensures var n := Next(m, e, size, wnd, irs, stream); n.recvLen <= n.at && n.recvLen <= size && m.at <= n.at
  {
    hide Reach, Left, Spot;
    if e.Arrive? && e.p == m.at && Happens(m.at, e, |stream|) && e.len > 0 {
      ReachExact(m.queue, m.places, m.at + e.len, Fill(m.recvLen, e.len, size), size);
    }
  }

  lemma Advance(irs: int, p: int, q: int)
    requires p <= q < p + TWO32
    ensures Diff(SeqOf(irs, q), SeqOf(irs, p)) == q - p
  {
  }
}
