/** The circular buffer of a pipe (src/include/fs/pipe.h, src/fs/pipe.c) and the byte
    loops of the two critical sections. */
module Ring {
  import opened Common
  import opened Pipe

  /** The `count` bytes from `pos` on, going round at the end. */
  ghost function Around(b: seq<byte>, pos: nat, count: nat): (q: seq<byte>)
    requires |b| == SIZE && pos < SIZE && count <= SIZE
    ensures |q| == count
  {
    if pos + count <= SIZE then b[pos..pos + count] else b[pos..] + b[..pos + count - SIZE]
  }

  function Mod(x: nat): (r: nat)
    ensures r < SIZE
  {
    x % SIZE
  }

  lemma ModNext(x: nat, count: nat)
    requires x < SIZE
    ensures Mod(x + 1) == if x + 1 < SIZE then x + 1 else 0
    ensures count <= SIZE ==> Mod(x + count) == if x + count < SIZE then x + count else x + count - SIZE
    ensures Mod(Mod(x + count) + 1) == Mod(x + count + 1)
    ensures count > 0 ==> Mod(Mod(x + 1) + (count - 1)) == Mod(x + count)
  {
  }

  lemma AroundTake(b: seq<byte>, pos: nat, count: nat)
    requires |b| == SIZE && pos < SIZE && 0 < count <= SIZE
    ensures Around(b, pos, count) == [b[pos]] + Around(b, Mod(pos + 1), count - 1)
  {
    ModNext(pos, 0);
    hide Mod;
  }

  lemma AroundPut(b: seq<byte>, pos: nat, count: nat, x: byte)
    requires |b| == SIZE && pos < SIZE && count < SIZE
    ensures Around(b[Mod(pos + count) := x], pos, count + 1) == Around(b, pos, count) + [x]
  {
    ModNext(pos, count);
    hide Mod;
  }

  /** q followed by part of the data. */
  ghost function Plus(q: seq<byte>, data: seq<byte>, from: nat, to: nat): seq<byte>
    requires from <= to <= |data|
  {
    q + data[from..to]
  }

  lemma PlusOne(q: seq<byte>, data: seq<byte>, from: nat, to: nat)
    requires from <= to <= |data|
    ensures Plus(q, data, from, from) == q
    ensures to < |data| ==> Plus(q, data, from, to) + [data[to]] == Plus(q, data, from, to + 1)
  {
  }

  lemma PlusIs(q: seq<byte>, data: seq<byte>, from: nat, to: nat)
    requires from <= to <= |data|
    ensures Plus(q, data, from, to) == q + data[from..to]
  {
  }

  lemma SignalNone(tokens: nat)
    ensures Signal(tokens, 0) == tokens
  {
  }

  lemma SignalMore(tokens: nat, i: nat)
    ensures Signal(Signal(tokens, i), 1) == Signal(tokens, i + 1)
  {
  }

  class Buffer {
    const buffer: array<byte>
    var readPos: nat
    var writePos: nat
    var count: nat
    var readTokens: nat
    var writeTokens: nat

    ghost predicate Valid()
      reads this
    {
      && buffer.Length == SIZE && readPos < SIZE && count <= SIZE
      && writePos == Mod(readPos + count)
      && readTokens <= INT_MAX && writeTokens <= INT_MAX
    }

    /** The bytes in the order in which they will leave. */
    ghost function Queue(): (q: seq<byte>)
      requires Valid()
      reads this, buffer
      ensures |q| == count
    {
      Around(buffer[..], readPos, count)
    }

    constructor ()
      ensures Valid() && Queue() == [] && readTokens == 0 && writeTokens == SIZE
      ensures fresh(buffer)
    {
      buffer := new byte[SIZE](_ => 0);
      readPos, writePos, count := 0, 0, 0;
      readTokens, writeTokens := 0, SIZE;
    }

    /** The copy loop of pipe_read: up to `want` bytes, oldest first, one token to the
        writers for each. */
    method Take(want: nat) returns (got: seq<byte>)
      requires Valid()
      modifies this
      ensures Valid() && got == old(Queue())[..Min(want, |old(Queue())|)]
      ensures Queue() == old(Queue())[|got|..]
      ensures writeTokens == Signal(old(writeTokens), |got|) && readTokens == old(readTokens)
    {
      var toRead := if want > count then count else want;
      hide Around, Mod;
      ghost var q := Queue();
      got := [];
      for i := 0 to toRead
        invariant Valid() && |got| == i && q == got + Queue()
        invariant writeTokens == Signal(old(writeTokens), i) && readTokens == old(readTokens)
      {
        var b := Fetch();
        got := got + [b];
        assert q == got + Queue();
      }
    }

    /** The copy loop of pipe_write: as many bytes of data from `sent` on as fit. */
    method Put(data: seq<byte>, sent: nat) returns (n: nat)
      requires Valid() && sent <= |data|
      modifies this, buffer
      ensures Valid() && n == Min(|data| - sent, SIZE - |old(Queue())|)
      ensures Queue() == old(Queue()) + data[sent..sent + n]
      ensures readTokens == Signal(old(readTokens), n) && writeTokens == old(writeTokens)
    {
      hide Signal, Plus, Mod, Around;
      n := |data| - sent;
      if n > SIZE - count { n := SIZE - count; }
      ghost var q := Queue();
      SignalNone(readTokens);
      PlusOne(q, data, sent, sent);
      for i := 0 to n
        invariant Valid() && count == |q| + i
        invariant Queue() == Plus(q, data, sent, sent + i)
        invariant readTokens == Signal(old(readTokens), i) && writeTokens == old(writeTokens)
      {
        PlusOne(q, data, sent, sent + i);
        SignalMore(old(readTokens), i);
        Store(data[sent + i]);
      }
      PlusIs(q, data, sent, sent + n);
    }

    method Fetch() returns (b: byte)
      requires Valid() && count > 0
      modifies this`readPos, this`count, this`writeTokens
      ensures Valid() && old(Queue()) == [b] + Queue() && writeTokens == Signal(old(writeTokens), 1)
    {
      hide Around, Mod;
      AroundTake(buffer[..], readPos, count);
      ModNext(readPos, count);
      b := buffer[readPos];
      readPos := Mod(readPos + 1);
      count := count - 1;
      writeTokens := Signal(writeTokens, 1);
    }

    method Store(b: byte)
      requires Valid() && count < SIZE
      modifies this`writePos, this`count, this`readTokens, buffer
      ensures Valid() && Queue() == old(Queue()) + [b] && readTokens == Signal(old(readTokens), 1)
      ensures count == old(count) + 1
    {
      hide Around, Mod;
      AroundPut(buffer[..], readPos, count, b);
      ModNext(readPos, count);
      ghost var filled := buffer[..][writePos := b];
      buffer[writePos] := b;
      assert buffer[..] == filled;
      writePos := Mod(writePos + 1);
      count := count + 1;
      readTokens := Signal(readTokens, 1);
    }
  }

  /** The loops are the two critical sections of the pipe's state machine. */
  method ReadLoop(buf: Buffer, s: State, t: nat, want: nat) returns (got: seq<byte>)
    requires buf.Valid() && buf.Queue() == s.queue && buf.writeTokens == s.writeTokens
    requires want > 0 && s.queue != []
    modifies buf
    ensures buf.Valid()
    ensures var r := ReadSection(s, t, want);
      r.threads == s.threads[t := ReadDone(got)] && buf.Queue() == r.queue && buf.writeTokens == r.writeTokens
  {
    got := buf.Take(want);
  }

  method WriteLoop(buf: Buffer, s: State, t: nat, data: seq<byte>, sent: nat) returns (n: nat)
    requires buf.Valid() && buf.Queue() == s.queue && buf.readTokens == s.readTokens
    requires sent < |data| && |s.queue| < SIZE
    modifies buf, buf.buffer
    ensures buf.Valid() && n > 0 && sent + n <= |data|
    ensures var r := WriteSection(s, t, data, sent);
      && r.threads[t] == (if sent + n == |data| then WriteDone(sent + n) else WriteReady(data, sent + n))
      && buf.Queue() == r.queue && buf.readTokens == r.readTokens
  {
    n := buf.Put(data, sent);
  }
}
