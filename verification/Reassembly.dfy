/** IP fragment reassembly (src/net/ip.c, section 3.2 of RFC 791). Lengths and offsets are
    16 bits wide. */
module Reassembly {
  import opened Common

  const WIDE := 65536

  datatype Fragment = Fragment(offset: nat, data: seq<byte>)

  function End(f: Fragment): nat { f.offset + |f.data| }

  /** Where a fragment goes in the list ordered by offset; an exact duplicate is dropped. */
  function Insert(fs: seq<Fragment>, f: Fragment): seq<Fragment> {
    if fs == [] then [f]
    else if fs[0].offset < f.offset then [fs[0]] + Insert(fs[1..], f)
    else if fs[0].offset == f.offset && |fs[0].data| == |f.data| then fs
    else [f] + fs
  }

  /** The place the walk along the list finds. */
  lemma {:induction false} InsertAt(fs: seq<Fragment>, f: Fragment, i: nat)
    requires i <= |fs| && (forall j :: 0 <= j < i ==> fs[j].offset < f.offset)
    requires i < |fs| ==> fs[i].offset >= f.offset
    ensures Insert(fs, f) ==
      if i < |fs| && fs[i].offset == f.offset && |fs[i].data| == |f.data| then fs else fs[..i] + [f] + fs[i..]
  {
    if i > 0 {
      InsertAt(fs[1..], f, i - 1);
      SplicedLater(fs, f, i);
    } else {
      assert fs[..0] + [f] + fs == [f] + fs;
    }
  }

  lemma SplicedLater<T>(fs: seq<T>, f: T, i: nat)
    requires 0 < i <= |fs|
    ensures fs == [fs[0]] + fs[1..]
    ensures [fs[0]] + (fs[1..][..i - 1] + [f] + fs[1..][i - 1..]) == fs[..i] + [f] + fs[i..]
  {
  }

  /** Each fragment starts where the one before it ends. */
  ghost predicate Gapless(fs: seq<Fragment>, start: nat) {
    fs == [] || (fs[0].offset == start && Gapless(fs[1..], End(fs[0])))
  }

  function Joined(fs: seq<Fragment>): seq<byte> {
    if fs == [] then [] else fs[0].data + Joined(fs[1..])
  }

  /** The list covers [0, total) without gap or overlap. */
  ghost predicate Tiles(fs: seq<Fragment>, total: nat) {
    Gapless(fs, 0) && |Joined(fs)| == total
  }

  predicate InRange(fs: seq<Fragment>) {
    forall i :: 0 <= i < |fs| ==> End(fs[i]) < WIDE
  }

  /** The scan with its 16-bit running offset: where it ends, if nothing is missing. */
  function Scan(fs: seq<Fragment>, expected: nat): Option<nat> {
    if fs == [] then Some(expected)
    else if fs[0].offset != expected then None
    else Scan(fs[1..], (expected + |fs[0].data|) % WIDE)
  }

  lemma {:induction false} JoinedSnoc(fs: seq<Fragment>, i: nat)
    requires i < |fs|
    ensures Joined(fs[..i + 1]) == Joined(fs[..i]) + fs[i].data
  {
    if i == 0 {
      assert fs[..1][1..] == [];
    } else {
      JoinedSnoc(fs[1..], i - 1);
      assert fs[..i + 1][1..] == fs[1..][..i] && fs[..i][1..] == fs[1..][..i - 1];
    }
  }

  /** Without gaps a fragment's offset is the number of bytes before it. */
  lemma {:induction false} Starts(fs: seq<Fragment>, start: nat, i: nat)
    requires Gapless(fs, start) && i < |fs|
    ensures fs[i].offset == start + |Joined(fs[..i])|
  {
    if i > 0 {
      Starts(fs[1..], End(fs[0]), i - 1);
      assert fs[..i][1..] == fs[1..][..i - 1];
    }
  }

  lemma {:induction false} JoinedPrefix(fs: seq<Fragment>, i: nat)
    requires i <= |fs|
    ensures Joined(fs[..i]) <= Joined(fs)
    decreases |fs| - i
  {
    if i == |fs| {
      assert fs[..i] == fs;
    } else {
      JoinedSnoc(fs, i);
      JoinedPrefix(fs, i + 1);
    }
  }

  /** If no fragment ends beyond the range, the scan succeeds exactly on a tiling. */
  lemma {:induction false} ScanExact(fs: seq<Fragment>, start: nat)
    requires InRange(fs) && start < WIDE
    ensures Scan(fs, start).Some? <==> Gapless(fs, start)
    ensures Gapless(fs, start) ==> Scan(fs, start) == Some(start + |Joined(fs)|)
  {
    if fs != [] && fs[0].offset == start {
      assert End(fs[0]) < WIDE;
      assert InRange(fs[1..]);
      ScanExact(fs[1..], End(fs[0]));
    }
  }

  /** What a successful test means, for any list of fragments: it tiles the packet if no
      fragment ends beyond the range, and then it does not if some fragment does. */
  lemma WholeMeansTiled(fs: seq<Fragment>, total: nat)
    requires Scan(fs, 0) == Some(total)
    ensures Tiles(fs, total) <==> InRange(fs)
  {
    if InRange(fs) {
      ScanExact(fs, 0);
    } else if Tiles(fs, total) {
      ScanBelow(fs, 0);
      var i :| 0 <= i < |fs| && End(fs[i]) >= WIDE;
      Starts(fs, 0, i);
      JoinedSnoc(fs, i);
      JoinedPrefix(fs, i + 1);
      assert false;
    }
  }

  lemma {:induction false} ScanBelow(fs: seq<Fragment>, start: nat)
    requires start < WIDE && Scan(fs, start).Some?
    ensures Scan(fs, start).value < WIDE
  {
    if fs != [] { ScanBelow(fs[1..], (start + |fs[0].data|) % WIDE); }
  }

  lemma {:induction false} ScanSnoc(fs: seq<Fragment>, f: Fragment, start: nat)
    ensures Scan(fs + [f], start) ==
      if Scan(fs, start) == Some(f.offset) then Some((f.offset + |f.data|) % WIDE) else None
  {
    if fs == [] {
      assert [f][1..] == [];
    } else {
      assert (fs + [f])[1..] == fs[1..] + [f];
      ScanSnoc(fs[1..], f, (start + |fs[0].data|) % WIDE);
    }
  }

  const MTU_DATA := 1480

  /** Fragments as a network sends them: full ones, and the rest of a long payload. */
  ghost predicate Train(fs: seq<Fragment>, last: nat) {
    && |fs| > 0 && |fs[|fs| - 1].data| == last
    && (forall i :: 0 <= i < |fs| ==> fs[i].offset == MTU_DATA * i)
    && (forall i :: 0 <= i < |fs| - 1 ==> |fs[i].data| == MTU_DATA)
  }

  lemma {:induction false} ScanTrain(fs: seq<Fragment>, last: nat, n: nat)
    requires Train(fs, last) && n < |fs| <= 45
    ensures Scan(fs[..n], 0) == Some(MTU_DATA * n)
  {
    if n > 0 {
      ScanTrain(fs, last, n - 1);
      assert fs[..n] == fs[..n - 1] + [fs[n - 1]];
      ScanSnoc(fs[..n - 1], fs[n - 1], 0);
    }
  }

  /** The running offset wraps: 44 full fragments and one of 424 bytes, which ends at 65544,
      pass as a packet of 8 bytes. */
  lemma PassesByWrapping(fs: seq<Fragment>)
    requires |fs| == 45 && Train(fs, 424)
    ensures Scan(fs, 0) == Some(8) && !Tiles(fs, 8) && Delivered(fs, 8) == Overrun
  {
    ScanTrain(fs, 424, 44);
    assert fs == fs[..44] + [fs[44]];
    ScanSnoc(fs[..44], fs[44], 0);
    WholeMeansTiled(fs, 8);
    assert End(fs[44]) >= WIDE;
  }

  // ------------------------------------------------- the network buffer

  const HEADROOM := 128
  const MAX_BUFFER := 2048

  /** netbuf_alloc: the room behind the headroom, for a wanted size. */
  function Room(size: nat): nat {
    (if HEADROOM + size > MAX_BUFFER then MAX_BUFFER else HEADROOM + size) - HEADROOM
  }

  /** What an entry yields: nothing yet, a packet, a copy through the null pointer that
      netbuf_put returned, or a copy beyond the end of the buffer. */
  datatype Outcome = Waiting | Packet(bytes: seq<byte>) | NullCopy | Overrun

  /** ip_reass_complete. */
  function Delivered(fs: seq<Fragment>, total: nat): Outcome {
    if total == 0 || Scan(fs, 0) != Some(total) then Waiting
    else if Room(total) < total then NullCopy
    else if !InRange(fs) then Overrun
    else Packet(Joined(fs))
  }

  /** The buffer is large enough if and only if the packet has at most 1920 bytes. */
  lemma RoomExact(total: nat)
    ensures Room(total) >= total <==> total <= 1920
  {
  }

  /** Two ordinary fragments, 1921 bytes together, are already too much. */
  lemma TooLongAt1921(a: seq<byte>, b: seq<byte>)
    requires |a| == MTU_DATA && |b| == 441
    ensures var fs := [Fragment(0, a), Fragment(MTU_DATA, b)]; Tiles(fs, 1921) && Delivered(fs, 1921) == NullCopy
  {
    var fs := [Fragment(0, a), Fragment(MTU_DATA, b)];
    assert fs[1..] == [Fragment(MTU_DATA, b)] && fs[1..][1..] == [];
    assert Scan(fs[1..], MTU_DATA) == Some(1921);
    assert Scan(fs, 0) == Some(1921);
    WholeMeansTiled(fs, 1921);
    assert InRange(fs);
  }

  // ------------------------------------------------- fragments of one payload

  /** Cut points: the payload is cut at each of them, from 0 to its length. */
  ghost predicate Cuts(payload: seq<byte>, cuts: seq<nat>) {
    && |cuts| >= 2 && cuts[0] == 0 && cuts[|cuts| - 1] == |payload| < WIDE
    && forall i, j :: 0 <= i < j < |cuts| ==> cuts[i] < cuts[j]
  }

  ghost function Piece(payload: seq<byte>, cuts: seq<nat>, i: nat): Fragment
    requires Cuts(payload, cuts) && i < |cuts| - 1
  {
    assert cuts[i] < cuts[i + 1] && (i + 1 < |cuts| - 1 ==> cuts[i + 1] < cuts[|cuts| - 1]);
    Fragment(cuts[i], payload[cuts[i]..cuts[i + 1]])
  }

  /** The pieces below n whose number is in s, in order. */
  ghost function Held(payload: seq<byte>, cuts: seq<nat>, s: set<nat>, n: nat): seq<Fragment>
    requires Cuts(payload, cuts) && n < |cuts|
  {
    if n == 0 then []
    else if n - 1 in s then Held(payload, cuts, s, n - 1) + [Piece(payload, cuts, n - 1)]
    else Held(payload, cuts, s, n - 1)
  }

  lemma {:induction false} InsertSnoc(fs: seq<Fragment>, last: Fragment, f: Fragment)
    requires forall i :: 0 <= i < |fs| ==> fs[i].offset < last.offset
    ensures last.offset < f.offset ==> Insert(fs + [last], f) == fs + [last, f]
    ensures f.offset < last.offset ==> Insert(fs + [last], f) == Insert(fs, f) + [last]
    ensures f == last ==> Insert(fs + [last], f) == fs + [last]
  {
    if fs != [] {
      assert (fs + [last])[1..] == fs[1..] + [last];
      InsertSnoc(fs[1..], last, f);
    } else {
      assert Insert([], f) == [f];
      assert [last][1..] == [];
    }
  }

  lemma {:induction false} HeldBelow(payload: seq<byte>, cuts: seq<nat>, s: set<nat>, n: nat)
    requires Cuts(payload, cuts) && n < |cuts|
    ensures forall i :: 0 <= i < |Held(payload, cuts, s, n)| ==> Held(payload, cuts, s, n)[i].offset < cuts[n]
  {
    if n > 0 { HeldBelow(payload, cuts, s, n - 1); }
  }

  lemma {:induction false} InsertLast(fs: seq<Fragment>, f: Fragment)
    requires forall i :: 0 <= i < |fs| ==> fs[i].offset < f.offset
    ensures Insert(fs, f) == fs + [f]
  {
    if fs != [] { InsertLast(fs[1..], f); }
  }

  lemma InsertNewest(payload: seq<byte>, cuts: seq<nat>, s: set<nat>, i: nat)
    requires Cuts(payload, cuts) && i + 1 < |cuts|
    ensures Insert(Held(payload, cuts, s, i + 1), Piece(payload, cuts, i)) == Held(payload, cuts, s + {i}, i + 1)
  {
    var f := Piece(payload, cuts, i);
    var before := Held(payload, cuts, s, i);
    HeldBelow(payload, cuts, s, i);
    HeldSame(payload, cuts, s, i, i);
    hide Insert, Piece;
    if i in s { InsertSnoc(before, f, f); } else { InsertLast(before, f); }
  }

  /** A piece that arrives joins the pieces held, whatever the order, and a second copy
      changes nothing. */
  lemma {:induction false} InsertPiece(payload: seq<byte>, cuts: seq<nat>, s: set<nat>, n: nat, i: nat)
    requires Cuts(payload, cuts) && i < n < |cuts|
    ensures Insert(Held(payload, cuts, s, n), Piece(payload, cuts, i)) == Held(payload, cuts, s + {i}, n)
  {
    if i == n - 1 {
      InsertNewest(payload, cuts, s, i);
    } else {
      var f, last := Piece(payload, cuts, i), Piece(payload, cuts, n - 1);
      assert f.offset < last.offset;
      HeldBelow(payload, cuts, s, n - 1);
      hide Insert, Piece, Cuts;
      InsertPiece(payload, cuts, s, n - 1, i);
      if n - 1 in s { InsertSnoc(Held(payload, cuts, s, n - 1), last, f); }
    }
  }

  lemma {:induction false} HeldSame(payload: seq<byte>, cuts: seq<nat>, s: set<nat>, n: nat, i: nat)
    requires Cuts(payload, cuts) && n <= i && n < |cuts|
    ensures Held(payload, cuts, s + {i}, n) == Held(payload, cuts, s, n)
  {
    if n > 0 { HeldSame(payload, cuts, s, n - 1, i); }
  }

  // ------------------------------------------------- the scan on a part of the payload

  ghost predicate AllBelow(s: set<nat>, n: nat) { forall i: nat :: i < n ==> i in s }

  /** The pieces held join up to the n-th cut exactly when none is missing. */
  lemma {:induction false} HeldJoins(payload: seq<byte>, cuts: seq<nat>, s: set<nat>, n: nat)
    requires Cuts(payload, cuts) && n < |cuts|
    ensures var fs := Held(payload, cuts, s, n);
      && InRange(fs)
      && (AllBelow(s, n) ==> Gapless(fs, 0) && Joined(fs) == payload[..cuts[n]])
      && (Gapless(fs, 0) ==> |Joined(fs)| <= cuts[n] && (|Joined(fs)| == cuts[n] ==> AllBelow(s, n)))
  {
    if n > 0 {
      var fs := Held(payload, cuts, s, n - 1);
      HeldJoins(payload, cuts, s, n - 1);
      assert cuts[n - 1] < cuts[n] && cuts[n] <= |payload|;
      if n - 1 in s {
        var f := Piece(payload, cuts, n - 1);
        GaplessSnoc(fs, f, 0);
        assert (fs + [f])[..|fs|] == fs && (fs + [f])[..|fs| + 1] == fs + [f];
        JoinedSnoc(fs + [f], |fs|);
        assert payload[..cuts[n]] == payload[..cuts[n - 1]] + f.data;
      }
    }
  }

  lemma {:induction false} GaplessSnoc(fs: seq<Fragment>, f: Fragment, start: nat)
    ensures Gapless(fs + [f], start) <==> Gapless(fs, start) && f.offset == start + |Joined(fs)|
  {
    if fs != [] {
      assert (fs + [f])[1..] == fs[1..] + [f];
      GaplessSnoc(fs[1..], f, End(fs[0]));
    } else {
      assert [f][1..] == [];
    }
  }

  // ------------------------------------------------- one reassembly entry

  class Entry {
    var totalLen: nat
    var fragments: seq<Fragment>

    constructor ()
      ensures totalLen == 0 && fragments == []
    {
      totalLen, fragments := 0, [];
    }

    /** ip_reass_add_fragment. */
    method Add(offset: nat, data: seq<byte>, more: bool)
      modifies this
      ensures fragments == Insert(old(fragments), Fragment(offset, data))
      ensures totalLen == if more then old(totalLen) else (offset + |data|) % WIDE
    {
      if !more { totalLen := (offset + |data|) % WIDE; }
      ghost var f := Fragment(offset, data);
      hide Insert;
      var i := 0;
      while i < |fragments| && fragments[i].offset < offset
        invariant 0 <= i <= |fragments| && fragments == old(fragments)
        invariant forall j :: 0 <= j < i ==> fragments[j].offset < offset
      {
        i := i + 1;
      }
      InsertAt(fragments, f, i);
      if i < |fragments| && fragments[i].offset == offset && |fragments[i].data| == |data| { return; }
      fragments := fragments[..i] + [Fragment(offset, data)] + fragments[i..];
    }

    /** ip_reass_free, and the reuse of the entry. */
    method Free()
      modifies this
      ensures fragments == [] && totalLen == 0
    {
      fragments, totalLen := [], 0;
    }

    /** The test of ip_reass_complete, with its 16-bit running offset. */
    method Whole() returns (ok: bool)
      ensures ok <==> totalLen != 0 && Scan(fragments, 0) == Some(totalLen)
    {
      if totalLen == 0 { return false; }
      var expected: nat := 0;
      var i := 0;
      while i < |fragments|
        invariant 0 <= i <= |fragments|
        invariant Scan(fragments, 0) == Scan(fragments[i..], expected)
      {
        if fragments[i].offset != expected { return false; }
        expected := (expected + |fragments[i].data|) % WIDE;
        i := i + 1;
      }
      return expected == totalLen;
    }

    /** ip_reass_complete: the copy goes into one network buffer. The code does not look
        whether the fragments stay within it. */
    method Complete() returns (r: Outcome)
      ensures r == Delivered(fragments, totalLen)
      ensures r.Packet? ==> Tiles(fragments, totalLen)
    {
      var ok := Whole();
      if !ok { return Waiting; }
      WholeMeansTiled(fragments, totalLen);
      var room := Room(totalLen);
      if room < totalLen { return NullCopy; }
      if !InRange(fragments) { return Overrun; }
      var bytes := Assemble();
      return Packet(bytes);
    }

    /** The copy loop, into a buffer of the total length. */
    method Assemble() returns (packet: seq<byte>)
      requires Tiles(fragments, totalLen)
      ensures packet == Joined(fragments)
    {
      var buf := new byte[totalLen](_ => 0);
      for i := 0 to |fragments|
        invariant |Joined(fragments[..i])| <= totalLen
        invariant buf[..|Joined(fragments[..i])|] == Joined(fragments[..i])
      {
        var f := fragments[i];
        Starts(fragments, 0, i);
        JoinedSnoc(fragments, i);
        JoinedPrefix(fragments, i + 1);
        CopyIn(buf, f.offset, f.data);
      }
      assert fragments[..|fragments|] == fragments;
      packet := buf[..];
    }
  }

  // ------------------------------------------------- any order, with duplicates

  lemma {:induction false} HeldNone(payload: seq<byte>, cuts: seq<nat>, n: nat)
    requires Cuts(payload, cuts) && n < |cuts|
    ensures Held(payload, cuts, {}, n) == []
  {
    if n > 0 { HeldNone(payload, cuts, n - 1); }
  }

  function Numbers(order: seq<nat>): (s: set<nat>)
    ensures forall i :: i in s <==> i in order
  {
    if order == [] then {} else Numbers(order[..|order| - 1]) + {order[|order| - 1]}
  }

  lemma NumbersNext(order: seq<nat>, k: nat)
    requires k < |order|
    ensures Numbers([]) == {} && Numbers(order[..k + 1]) == Numbers(order[..k]) + {order[k]}
  {
    assert order[..k + 1][..k] == order[..k];
  }

  lemma PieceIs(payload: seq<byte>, cuts: seq<nat>, i: nat)
    requires Cuts(payload, cuts) && i < |cuts| - 1
    ensures cuts[i] < cuts[i + 1] <= |payload|
    ensures Piece(payload, cuts, i) == Fragment(cuts[i], payload[cuts[i]..cuts[i + 1]])
  {
  }

  /** The entry holds the pieces of s. */
  ghost predicate HoldsPieces(e: Entry, payload: seq<byte>, cuts: seq<nat>, s: set<nat>)
    requires Cuts(payload, cuts)
    reads e
  {
    && e.fragments == Held(payload, cuts, s, |cuts| - 1)
    && e.totalLen == if |cuts| - 2 in s then |payload| else 0
  }

  /** What an arrival yields when the pieces of s are there with it. */
  ghost function Expected(payload: seq<byte>, cuts: seq<nat>, s: set<nat>): Outcome {
    if |cuts| == 0 || !AllBelow(s, |cuts| - 1) then Waiting else if |payload| <= 1920 then Packet(payload) else NullCopy
  }

  /** One fragment of a payload arrives: it is added, and the packet completed if nothing is
      missing; then the entry is free again. */
  method Arrive(e: Entry, payload: seq<byte>, cuts: seq<nat>, i: nat, ghost s: set<nat>) returns (r: Outcome)
    requires Cuts(payload, cuts) && i < |cuts| - 1 && HoldsPieces(e, payload, cuts, s)
    modifies e
    ensures r == Expected(payload, cuts, s + {i})
    ensures r.Waiting? ==> HoldsPieces(e, payload, cuts, s + {i})
    ensures r.Packet? ==> HoldsPieces(e, payload, cuts, {})
  {
    hide Held, Insert, Piece, Delivered, Expected;
    InsertPiece(payload, cuts, s, |cuts| - 1, i);
    PieceIs(payload, cuts, i);
    HeldNone(payload, cuts, |cuts| - 1);
    ExpectedIs(payload, cuts, s + {i});
    e.Add(cuts[i], payload[cuts[i]..cuts[i + 1]], i != |cuts| - 2);
    r := e.Complete();
    if r.Packet? { e.Free(); }
  }

  /** What the entry delivers with the pieces of s. */
  lemma ExpectedIs(payload: seq<byte>, cuts: seq<nat>, s: set<nat>)
    requires Cuts(payload, cuts)
    ensures var total := if |cuts| - 2 in s then |payload| else 0;
      Delivered(Held(payload, cuts, s, |cuts| - 1), total) == Expected(payload, cuts, s)
  {
    hide Held, Scan, Joined, Gapless, Room, InRange;
    var parts := |cuts| - 1;
    var fs := Held(payload, cuts, s, parts);
    HeldJoins(payload, cuts, s, parts);
    ScanExact(fs, 0);
    RoomExact(|payload|);
    assert payload[..cuts[parts]] == payload;
    assert AllBelow(s, parts) ==> parts - 1 in s;
  }

  /** The pieces an entry holds before arrival k of the order. */
  ghost function Pending(order: seq<nat>, parts: nat, k: nat): set<nat>
    requires k <= |order|
  {
    if k == 0 then {}
    else
      var s := Pending(order, parts, k - 1) + {order[k - 1]};
      if AllBelow(s, parts) then {} else s
  }

  /** Fragments of one payload of at most 65535 bytes, in any order and with duplicates: an
      arrival yields nothing while a piece is missing since the last packet, and with the
      last one the payload comes out if and only if it has at most 1920 bytes. */
  method Reassemble(payload: seq<byte>, cuts: seq<nat>, order: seq<nat>) returns (outs: seq<Outcome>)
    requires Cuts(payload, cuts) && forall k :: 0 <= k < |order| ==> order[k] < |cuts| - 1
    ensures |outs| <= |order|
    ensures forall k :: 0 <= k < |outs| ==>
      outs[k] == Expected(payload, cuts, Pending(order, |cuts| - 1, k) + {order[k]})
    ensures |outs| < |order| ==> outs != [] && outs[|outs| - 1] == NullCopy
  {
    hide HoldsPieces, Pending, Expected, AllBelow;
    var e := new Entry();
    Nothing(e, payload, cuts);
    PendingNone(order, |cuts| - 1);
    outs := [];
    for k := 0 to |order|
      invariant |outs| == k && HoldsPieces(e, payload, cuts, Pending(order, |cuts| - 1, k))
      invariant forall j :: 0 <= j < k ==>
        outs[j] == Expected(payload, cuts, Pending(order, |cuts| - 1, j) + {order[j]})
    {
      PendingNext(payload, cuts, order, k);
      var r := Arrive(e, payload, cuts, order[k], Pending(order, |cuts| - 1, k));
      outs := outs + [r];
      if r == NullCopy { return; }
    }
  }

  lemma PendingNone(order: seq<nat>, parts: nat)
    ensures Pending(order, parts, 0) == {}
  {
  }

  lemma PendingNext(payload: seq<byte>, cuts: seq<nat>, order: seq<nat>, k: nat)
    requires k < |order| && |cuts| >= 2
    ensures var s := Pending(order, |cuts| - 1, k) + {order[k]}; var r := Expected(payload, cuts, s);
      && (r.Waiting? || r.Packet? || r == NullCopy)
      && (r.Packet? ==> Pending(order, |cuts| - 1, k + 1) == {})
      && (r.Waiting? ==> Pending(order, |cuts| - 1, k + 1) == s)
  {
  }

  lemma Nothing(e: Entry, payload: seq<byte>, cuts: seq<nat>)
    requires Cuts(payload, cuts) && e.fragments == [] && e.totalLen == 0
    ensures HoldsPieces(e, payload, cuts, {})
  {
    HeldNone(payload, cuts, |cuts| - 1);
  }

  /** Up to the first packet the entry holds all that has arrived, so the packet comes with
      the arrival after which no piece is missing. */
  lemma {:induction false} PendingFirst(order: seq<nat>, parts: nat, k: nat)
    requires k <= |order| && forall j :: 0 < j <= k ==> !AllBelow(Numbers(order[..j]), parts)
    ensures Pending(order, parts, k) == Numbers(order[..k])
  {
    hide Numbers, AllBelow;
    if k == 0 {
      assert Numbers(order[..0]) == {};
    } else {
      PendingFirst(order, parts, k - 1);
      NumbersNext(order, k - 1);
    }
  }

  /** A duplicate that comes late opens a new entry and waits there. */
  lemma LateDuplicate(payload: seq<byte>, cuts: seq<nat>, order: seq<nat>, k: nat)
    requires Cuts(payload, cuts) && |cuts| > 2 && k + 1 < |order|
    requires AllBelow(Pending(order, |cuts| - 1, k) + {order[k]}, |cuts| - 1)
    ensures Expected(payload, cuts, Pending(order, |cuts| - 1, k + 1) + {order[k + 1]}) == Waiting
  {
    var s := {order[k + 1]};
    assert Pending(order, |cuts| - 1, k + 1) + s == s;
    assert if 0 in s then 1 !in s else 0 !in s;
  }
}
