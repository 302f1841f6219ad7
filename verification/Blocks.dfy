/** The kernel heap of src/mm/heap.c: a doubly linked list of block headers, first fit,
    split and coalesce. Addresses are numbers and 0 is the null pointer; a header is 20
    bytes long. */
module Blocks {
  import opened Common

  const HEADER := 20
  const MIN_REST := 16

  datatype Block = Block(size: nat, free: bool, next: nat, prev: nat)

  datatype Heap = Heap(blocks: map<nat, Block>, first: nat, last: nat, end: nat, max: nat)

  // ------------------------------------------------------------- steps on headers

  predicate Has(h: Heap, b: nat) { b != 0 && b in h.blocks }

  function SetPrev(m: map<nat, Block>, b: nat, p: nat): map<nat, Block> {
    if b != 0 && b in m then m[b := m[b].(prev := p)] else m
  }

  function Mark(h: Heap, b: nat, free: bool): Heap
    requires Has(h, b)
  {
    h.(blocks := h.blocks[b := h.blocks[b].(free := free)])
  }

  predicate Splits(h: Heap, b: nat, n: nat)
    requires Has(h, b)
  {
    h.blocks[b].size >= n + HEADER + MIN_REST
  }

  /** The rest of block b becomes a free block behind it. The last pointer stays. */
  function Split(h: Heap, b: nat, n: nat): Heap
    requires Has(h, b)
  {
    if !Splits(h, b, n) then h
    else
      var x, c := h.blocks[b], b + HEADER + n;
      var m := SetPrev(h.blocks[c := Block(x.size - n - HEADER, true, x.next, b)], x.next, c);
      h.(blocks := m[b := m[b].(size := n, next := c)])
  }

  /** Block b takes over the block behind it. */
  function Absorb(h: Heap, b: nat): Heap
    requires Has(h, b) && Has(h, h.blocks[b].next)
  {
    var x, y := h.blocks[b], h.blocks[h.blocks[b].next];
    var m := h.blocks[b := Block(x.size + HEADER + y.size, x.free, y.next, x.prev)];
    h.(blocks := SetPrev(m, y.next, b), last := if x.next == h.last then b else h.last)
  }

  /** A new block of the given size at the old end of the heap, linked behind `last`. */
  function Append(h: Heap, to: nat, size: nat): Heap
    requires Has(h, h.last)
  {
    var m := h.blocks[h.last := h.blocks[h.last].(next := h.end)];
    h.(blocks := m[h.end := Block(size, false, 0, h.last)], last := h.end, end := to)
  }

  // ------------------------------------------------------------- what they stand for

  function Stop(m: map<nat, Block>, a: nat): nat
    requires a in m
  {
    a + HEADER + m[a].size
  }

  /** Block a of the list: it ends where its successor starts, or with the heap, and the
      links agree. */
  ghost predicate NodeOk(h: Heap, list: set<nat>, a: nat) {
    a in list ==>
      && Has(h, a) && h.first <= a && Stop(h.blocks, a) <= h.end
      && (var x := h.blocks[a];
          && (x.next == 0 ==> Stop(h.blocks, a) == h.end)
          && (x.next != 0 ==> x.next == Stop(h.blocks, a) && x.next in list && Has(h, x.next) &&
                              h.blocks[x.next].prev == a)
          && (a == h.first ==> x.prev == 0)
          && (a != h.first ==> x.prev in list && Has(h, x.prev) && h.blocks[x.prev].next == a))
  }

  /** Two blocks of the list do not overlap. */
  ghost predicate Apart(h: Heap, list: set<nat>, a: nat, b: nat) {
    a in list && b in list && a < b && a in h.blocks ==> Stop(h.blocks, a) <= b
  }

  ghost predicate Nodes(h: Heap, list: set<nat>) {
    forall a: nat {:trigger NodeOk(h, list, a)} :: NodeOk(h, list, a)
  }

  ghost predicate Disjoint(h: Heap, list: set<nat>) {
    forall a: nat, b: nat {:trigger Apart(h, list, a, b)} :: Apart(h, list, a, b)
  }

  /** No two free blocks side by side. */
  ghost predicate Solid(h: Heap, list: set<nat>, a: nat) {
    a in list && Has(h, a) && Has(h, h.blocks[a].next) ==> !h.blocks[a].free || !h.blocks[h.blocks[a].next].free
  }

  ghost predicate Merged(h: Heap, list: set<nat>) {
    forall a: nat {:trigger Solid(h, list, a)} :: Solid(h, list, a)
  }

  /** The list of headers describes the whole heap, and `last` is in it. */
  ghost predicate Good(h: Heap, list: set<nat>) {
    h.first in list && h.last in list && Nodes(h, list) && Disjoint(h, list)
  }

  /** `last` is the end of the list. */
  predicate LastIsTail(h: Heap) { Has(h, h.last) && h.blocks[h.last].next == 0 }

  /** Every address of the heap is in exactly one block. */
  lemma {:induction false} Covered(h: Heap, list: set<nat>, from: nat, x: nat) returns (a: nat)
    requires Good(h, list) && from in list && from <= x < h.end
    ensures a in list && Has(h, a) && a <= x < Stop(h.blocks, a)
    ensures forall b: nat :: b in list && b in h.blocks && b <= x < Stop(h.blocks, b) ==> b == a
    decreases h.end - from
  {
    assert NodeOk(h, list, from);
    if x < Stop(h.blocks, from) {
      a := from;
      forall b: nat | b in list && b in h.blocks && b <= x < Stop(h.blocks, b) ensures b == a {
        assert Apart(h, list, a, b) && Apart(h, list, b, a);
      }
    } else {
      a := Covered(h, list, h.blocks[from].next, x);
    }
  }

  /** Only the last block in address order has no successor. */
  lemma OneTail(h: Heap, list: set<nat>, a: nat, b: nat)
    requires Good(h, list) && a in list && b in list && Has(h, a) && h.blocks[a].next == 0
    ensures b <= a
  {
    assert NodeOk(h, list, a) && NodeOk(h, list, b) && Apart(h, list, a, b);
  }

  // ------------------------------------------------------------- each step keeps it

  lemma MarkKeeps(h: Heap, list: set<nat>, b: nat, free: bool)
    requires Good(h, list) && b in list && Has(h, b)
    ensures Good(Mark(h, b, free), list)
  {
    var r := Mark(h, b, free);
    forall a: nat ensures NodeOk(r, list, a) { assert NodeOk(h, list, a); }
    forall a: nat, c: nat ensures Apart(r, list, a, c) { assert Apart(h, list, a, c); }
  }

  lemma SplitNodes(h: Heap, list: set<nat>, b: nat, n: nat)
    requires Good(h, list) && b in list && Has(h, b) && Splits(h, b, n)
    ensures Nodes(Split(h, b, n), list + {b + HEADER + n})
  {
    var r, l, c := Split(h, b, n), list + {b + HEADER + n}, b + HEADER + n;
    assert NodeOk(h, list, b);
    assert c !in list by { assert Apart(h, list, b, c); }
    forall a: nat ensures NodeOk(r, l, a) {
      assert NodeOk(h, list, a);
      if a in list && a != b { assert Apart(h, list, a, b) && Apart(h, list, b, a); }
    }
  }

  lemma SplitApart(h: Heap, list: set<nat>, b: nat, n: nat)
    requires Good(h, list) && b in list && Has(h, b) && Splits(h, b, n)
    ensures Disjoint(Split(h, b, n), list + {b + HEADER + n})
  {
    var r, l, c := Split(h, b, n), list + {b + HEADER + n}, b + HEADER + n;
    assert c !in list by { assert Apart(h, list, b, c); }
    forall a: nat, d: nat ensures Apart(r, l, a, d) {
      assert Apart(h, list, a, d) && Apart(h, list, b, d) && Apart(h, list, a, b) && Apart(h, list, b, a);
      assert NodeOk(h, list, a) && NodeOk(h, list, d) && NodeOk(h, list, b);
    }
  }

  lemma AbsorbNodes(h: Heap, list: set<nat>, b: nat)
    requires Good(h, list) && b in list && Has(h, b) && Has(h, h.blocks[b].next)
    ensures Nodes(Absorb(h, b), list - {h.blocks[b].next})
  {
    var r, c := Absorb(h, b), h.blocks[b].next;
    assert NodeOk(h, list, b) && NodeOk(h, list, c);
    forall a: nat ensures NodeOk(r, list - {c}, a) {
      assert NodeOk(h, list, a);
    }
  }

  lemma AbsorbApart(h: Heap, list: set<nat>, b: nat)
    requires Good(h, list) && b in list && Has(h, b) && Has(h, h.blocks[b].next)
    ensures Disjoint(Absorb(h, b), list - {h.blocks[b].next})
  {
    var r, c := Absorb(h, b), h.blocks[b].next;
    assert NodeOk(h, list, b) && NodeOk(h, list, c);
    forall a: nat, d: nat ensures Apart(r, list - {c}, a, d) {
      assert Apart(h, list, a, d) && Apart(h, list, c, d) && Apart(h, list, d, c);
      assert NodeOk(h, list, a) && NodeOk(h, list, d);
    }
  }

  lemma AppendNodes(h: Heap, list: set<nat>, to: nat, size: nat)
    requires Good(h, list) && LastIsTail(h) && to == h.end + HEADER + size
    ensures Nodes(Append(h, to, size), list + {h.end}) && Disjoint(Append(h, to, size), list + {h.end})
  {
    var r := Append(h, to, size);
    assert NodeOk(h, list, h.last) && NodeOk(h, list, h.end);
    forall a: nat ensures NodeOk(r, list + {h.end}, a) {
      assert NodeOk(h, list, a);
      if a in list { OneTail(h, list, h.last, a); assert Apart(h, list, a, h.last); }
    }
    forall a: nat, d: nat ensures Apart(r, list + {h.end}, a, d) {
      assert Apart(h, list, a, d) && NodeOk(h, list, a) && NodeOk(h, list, d);
    }
  }

  // ------------------------------------------------------------- kmalloc

  /** Every link goes to a higher address, so a walk along the list ends. */
  predicate Forward(h: Heap) {
    forall a :: a in h.blocks && h.blocks[a].next != 0 ==> a < h.blocks[a].next < h.end && h.blocks[a].next in h.blocks
  }

  /** First fit: the first free block of the list, from b on, with room for n bytes. */
  function FindFit(h: Heap, b: nat, n: nat): (r: nat)
    requires Forward(h) && (b == 0 || (b in h.blocks && b < h.end))
    ensures r != 0 ==> r in h.blocks && h.blocks[r].free && h.blocks[r].size >= n
    decreases if b == 0 then 0 else h.end - b
  {
    if b == 0 then 0
    else if h.blocks[b].free && h.blocks[b].size >= n then b
    else FindFit(h, h.blocks[b].next, n)
  }

  // Sizes and addresses are 32 bits wide.

  function RoundUp4(size: nat): nat { (size + 3) % TWO32 / 4 * 4 }

  /** The pages expand asks for, for a block of n bytes. */
  function Pages(n: nat): nat { ((n + HEADER) % TWO32 + PAGE - 1) % TWO32 / PAGE }

  /** Where the heap ends when it has grown by them. */
  function Grown(h: Heap, n: nat): nat { (h.end + Pages(n) * PAGE) % TWO32 }

  /** The size of the block made of them. */
  function NewSize(h: Heap, n: nat): nat { (Grown(h, n) - h.end - HEADER) % TWO32 }

  /** The heap grows, and the sum does not wrap. */
  predicate Straight(h: Heap, n: nat) { Pages(n) > 0 && h.end + Pages(n) * PAGE < TWO32 }

  /** No sum on the way to the new block wraps. */
  predicate NoWrap(h: Heap, n: nat) { n + HEADER + PAGE - 1 < TWO32 && Straight(h, n) }

  datatype Result = Result(heap: Heap, ptr: nat)

  /** kmalloc; `memory` says whether the pages to grow by can be had. */
  function Malloc(h: Heap, size: nat, memory: bool): Result
    requires Forward(h) && Has(h, h.first) && h.first < h.end && Has(h, h.last)
  {
    if size == 0 then Result(h, 0)
    else
      var n := RoundUp4(size);
      var b := FindFit(h, h.first, n);
      if b != 0 then Result(Split(Mark(h, b, false), b, n), b + HEADER)
      else if Grown(h, n) > h.max || !memory then Result(h, 0)
      else Result(Append(h, Grown(h, n), NewSize(h, n)), h.end + HEADER)
  }

  lemma RoundUpExact(size: nat)
    requires size < TWO32
    ensures RoundUp4(size) < TWO32
    ensures size + 3 < TWO32 ==> size <= RoundUp4(size) <= size + 3
    ensures size + 3 >= TWO32 ==> RoundUp4(size) == 0
  {
  }

  /** The new block ends where the heap ends if and only if the growth is straight. */
  lemma StraightExact(h: Heap, n: nat)
    requires h.end < TWO32
    ensures h.end + HEADER + NewSize(h, n) == Grown(h, n) <==> Straight(h, n)
    ensures !Straight(h, n) ==> h.end + HEADER + NewSize(h, n) > Grown(h, n)
  {
    PagesBelow(n);
    hide Pages;
    assert Pages(n) * PAGE < TWO32;
  }

  lemma PagesBelow(n: nat)
    ensures Pages(n) < TWO32 / PAGE
  {
  }

  /** And it has room for n bytes, and not more than three too few, if and only if no sum
      wraps at all. */
  lemma NoWrapExact(h: Heap, n: nat)
    requires h.end < TWO32 && n < TWO32 && Straight(h, n)
    ensures NoWrap(h, n) ==> NewSize(h, n) >= n
    ensures !NoWrap(h, n) ==> NewSize(h, n) + 3 < n
  {
    StraightExact(h, n);
    SomePages(n);
    hide Pages;
  }

  lemma SomePages(n: nat)
    requires n < TWO32
    ensures n + HEADER + PAGE - 1 < TWO32 ==> Pages(n) * PAGE >= n + HEADER
    ensures n + HEADER + PAGE - 1 >= TWO32 ==> Pages(n) <= 1
  {
  }

  /** Block b goes into the block in front of it. */
  function JoinPrev(h: Heap, b: nat): Heap
    requires Has(h, b) && Has(h, h.blocks[b].prev)
  {
    var x, p := h.blocks[b], h.blocks[b].prev;
    var y := h.blocks[p];
    var m := h.blocks[p := Block(y.size + HEADER + x.size, y.free, x.next, y.prev)];
    h.(blocks := SetPrev(m, x.next, p), last := if b == h.last then p else h.last)
  }

  predicate FreeAt(h: Heap, b: nat) { Has(h, b) && h.blocks[b].free }

  function TakeNext(h: Heap, b: nat): Heap
    requires Has(h, b)
  {
    if FreeAt(h, h.blocks[b].next) then Absorb(h, b) else h
  }

  function GivePrev(h: Heap, b: nat): Heap
    requires Has(h, b)
  {
    if FreeAt(h, h.blocks[b].prev) then JoinPrev(h, b) else h
  }

  function Coalesce(h: Heap, b: nat): Heap
    requires Has(h, b)
  {
    GivePrev(TakeNext(h, b), b)
  }

  /** kfree of a block. */
  function Free(h: Heap, ptr: nat): Heap
    requires ptr >= HEADER && Has(h, ptr - HEADER)
  {
    Coalesce(Mark(h, ptr - HEADER, true), ptr - HEADER)
  }

  /** A block in use keeps its place and its size. */
  ghost predicate Kept(h: Heap, r: Heap, a: nat) {
    a in h.blocks && a in r.blocks && !r.blocks[a].free && r.blocks[a].size == h.blocks[a].size
  }

  ghost predicate InUse(h: Heap, list: set<nat>, a: nat) {
    a in list && a in h.blocks && !h.blocks[a].free
  }

  /** The walk finds a fitting free block of the list if there is one. */
  lemma {:induction false} FindFitExact(h: Heap, list: set<nat>, b: nat, n: nat)
    requires Good(h, list) && Forward(h) && (b == 0 || (b in list && Has(h, b) && b < h.end))
    ensures var r := FindFit(h, b, n);
      && (r != 0 ==> r in list && r >= b)
      && (forall a :: a in list && b != 0 && b <= a && a in h.blocks && h.blocks[a].free && h.blocks[a].size >= n ==>
            r != 0 && r <= a)
    decreases if b == 0 then 0 else h.end - b
  {
    if b != 0 {
      assert NodeOk(h, list, b);
      var c := h.blocks[b].next;
      if c != 0 { assert NodeOk(h, list, c); }
      FindFitExact(h, list, c, n);
      forall a | a in list && b < a && a in h.blocks ensures c != 0 && c <= a {
        assert Apart(h, list, b, a) && NodeOk(h, list, a);
      }
    }
  }

  // ------------------------------------------------------------- one call of kmalloc

  ghost predicate Fits(h: Heap, list: set<nat>, n: nat) {
    exists a :: a in list && a in h.blocks && h.blocks[a].free && h.blocks[a].size >= n
  }

  /** In order, at page-aligned addresses of 32 bits. */
  ghost predicate Ready(h: Heap, list: set<nat>) {
    Good(h, list) && Forward(h) && Merged(h, list) && PAGE <= h.first && h.end < TWO32
  }

  lemma ReadyHas(h: Heap, list: set<nat>)
    requires Good(h, list)
    ensures Has(h, h.first) && h.first < h.end && Has(h, h.last)
  {
    assert NodeOk(h, list, h.first) && NodeOk(h, list, h.last);
  }

  /** The blocks of the list after a call that took block b. */
  ghost function Taken(h: Heap, list: set<nat>, b: nat, n: nat): set<nat>
    requires Has(h, b)
  {
    if Splits(h, b, n) then list + {b + HEADER + n} else list
  }

  lemma TakeKeeps(h: Heap, list: set<nat>, b: nat, n: nat)
    requires Ready(h, list) && b in list && Has(h, b) && h.blocks[b].free && h.blocks[b].size >= n
    ensures Good(Split(Mark(h, b, false), b, n), Taken(h, list, b, n))
  {
    var k := Mark(h, b, false);
    MarkKeeps(h, list, b, false);
    if Splits(k, b, n) {
      SplitNodes(k, list, b, n);
      SplitApart(k, list, b, n);
    }
  }

  lemma TakeForward(h: Heap, list: set<nat>, b: nat, n: nat)
    requires Ready(h, list) && b in list && Has(h, b) && h.blocks[b].size >= n
    ensures Forward(Split(Mark(h, b, false), b, n))
  {
    assert NodeOk(h, list, b);
    var r, c := Split(Mark(h, b, false), b, n), b + HEADER + n;
    forall a | a in r.blocks && r.blocks[a].next != 0
      ensures a < r.blocks[a].next < r.end && r.blocks[a].next in r.blocks
    {
      if Splits(h, b, n) { SplitNext(Mark(h, b, false), b, n, a); }
    }
  }

  /** Where the links lead after a split. */
  lemma SplitNext(h: Heap, b: nat, n: nat, a: nat)
    requires Has(h, b) && Splits(h, b, n) && a in Split(h, b, n).blocks
    ensures var r, c := Split(h, b, n), b + HEADER + n;
      && c in r.blocks && (forall x :: x in h.blocks ==> x in r.blocks)
      && (a == b ==> r.blocks[a].next == c)
      && (a == c ==> r.blocks[a].next == h.blocks[b].next)
      && (a != b && a != c ==> a in h.blocks && r.blocks[a].next == h.blocks[a].next)
  {
  }

  lemma TakeMerged(h: Heap, list: set<nat>, b: nat, n: nat)
    requires Ready(h, list) && b in list && Has(h, b) && h.blocks[b].free && h.blocks[b].size >= n
    ensures Merged(Split(Mark(h, b, false), b, n), Taken(h, list, b, n))
  {
    var r, l, c := Split(Mark(h, b, false), b, n), Taken(h, list, b, n), b + HEADER + n;
    assert NodeOk(h, list, b) && Solid(h, list, b);
    if Splits(h, b, n) {
      assert c !in list by { assert Apart(h, list, b, c); }
    }
    forall a: nat ensures Solid(r, l, a) {
      assert Solid(h, list, a) && NodeOk(h, list, a);
    }
  }

  lemma GrowKeeps(h: Heap, list: set<nat>, to: nat, size: nat)
    requires Ready(h, list) && LastIsTail(h) && to == h.end + HEADER + size < TWO32
    ensures Ready(Append(h, to, size), list + {h.end})
  {
    var r := Append(h, to, size);
    AppendNodes(h, list, to, size);
    assert NodeOk(h, list, h.end) && NodeOk(h, list, h.last);
    forall a: nat ensures Solid(r, list + {h.end}, a) {
      assert Solid(h, list, a) && NodeOk(h, list, a);
    }
  }

  /** If `last` is not the tail, growing links the new block past the blocks behind
      `last`, and no list of headers describes the heap any more. */
  lemma GrowBreaks(h: Heap, list: set<nat>, to: nat, size: nat, other: set<nat>)
    requires Good(h, list) && Has(h, h.last) && (!LastIsTail(h) || h.end + HEADER + size > to)
    ensures !Good(Append(h, to, size), other)
  {
    var r := Append(h, to, size);
    assert NodeOk(h, list, h.last);
    if h.end + HEADER + size > to {
      assert r.last in other ==> !NodeOk(r, other, r.last);
    } else {
      var c := h.blocks[h.last].next;
      assert NodeOk(h, list, c);
      assert h.last in other ==> !NodeOk(r, other, h.last);
      assert r.last in other && h.last !in other ==> !NodeOk(r, other, r.last);
    }
  }

  ghost function AfterMalloc(h: Heap, list: set<nat>, size: nat, memory: bool): set<nat>
    requires Good(h, list) && Forward(h)
  {
    ReadyHas(h, list);
    var n := RoundUp4(size);
    var b := FindFit(h, h.first, n);
    if size == 0 then list
    else if b != 0 then Taken(h, list, b, n)
    else if Grown(h, n) > h.max || !memory then list
    else list + {h.end}
  }

  /** The call grows the heap. */
  ghost predicate Grows(h: Heap, list: set<nat>, size: nat, memory: bool) {
    size > 0 && !Fits(h, list, RoundUp4(size)) && Grown(h, RoundUp4(size)) <= h.max && memory
  }

  lemma FitFound(h: Heap, list: set<nat>, n: nat)
    requires Good(h, list) && Forward(h) && Has(h, h.first) && h.first < h.end
    ensures FindFit(h, h.first, n) != 0 <==> Fits(h, list, n)
    ensures FindFit(h, h.first, n) != 0 ==> FindFit(h, h.first, n) in list
  {
    FindFitExact(h, list, h.first, n);
    if Fits(h, list, n) {
      var a :| a in list && a in h.blocks && h.blocks[a].free && h.blocks[a].size >= n;
      assert NodeOk(h, list, a);
    }
  }

  /** Growing puts the heap out of order: `last` is not the tail, or the growth wraps. */
  ghost predicate Harmful(h: Heap, list: set<nat>, size: nat, memory: bool) {
    Grows(h, list, size, memory) && (!LastIsTail(h) || !Straight(h, RoundUp4(size)))
  }

  /** The heap is in order after a call of kmalloc exactly when the call was not harmful. */
  lemma MallocKeeps(h: Heap, list: set<nat>, size: nat, memory: bool)
    requires Ready(h, list) && Has(h, h.first) && h.first < h.end && Has(h, h.last)
    ensures var r := Malloc(h, size, memory).heap;
      && (Harmful(h, list, size, memory) ==> forall other: set<nat> :: !Good(r, other))
      && (!Harmful(h, list, size, memory) ==> Ready(r, AfterMalloc(h, list, size, memory)))
  {
    var n := RoundUp4(size);
    FitFound(h, list, n);
    StraightExact(h, n);
    assert Grown(h, n) < TWO32;
    hide Grown, RoundUp4, NewSize, Straight;
    var b := FindFit(h, h.first, n);
    if size > 0 {
      if b != 0 {
        TakeReady(h, list, b, n);
      } else if Grows(h, list, size, memory) {
        if LastIsTail(h) && Straight(h, n) {
          GrowKeeps(h, list, Grown(h, n), NewSize(h, n));
        } else {
          forall other: set<nat> ensures !Good(Append(h, Grown(h, n), NewSize(h, n)), other) {
            GrowBreaks(h, list, Grown(h, n), NewSize(h, n), other);
          }
        }
      }
    }
  }

  lemma TakeReady(h: Heap, list: set<nat>, b: nat, n: nat)
    requires Ready(h, list) && b in list && Has(h, b) && h.blocks[b].free && h.blocks[b].size >= n
    ensures Ready(Split(Mark(h, b, false), b, n), Taken(h, list, b, n))
  {
    TakeKeeps(h, list, b, n);
    TakeForward(h, list, b, n);
    TakeMerged(h, list, b, n);
  }

  /** When `last` stays the tail. */
  lemma MallocLast(h: Heap, list: set<nat>, size: nat, memory: bool)
    requires Ready(h, list) && Has(h, h.first) && h.first < h.end && LastIsTail(h)
    ensures var b := FindFit(h, h.first, RoundUp4(size));
      LastIsTail(Malloc(h, size, memory).heap) <==> !(size > 0 && b == h.last && Splits(h, b, RoundUp4(size)))
  {
    var n := RoundUp4(size);
    FitFound(h, list, n);
    assert NodeOk(h, list, h.last);
    var b := FindFit(h, h.first, n);
    hide Grown, RoundUp4, FindFit, NewSize;
    if b != 0 {
      assert NodeOk(h, list, b);
      assert b + HEADER + n == h.last ==> b == h.last || !Splits(h, b, n) by { assert Apart(h, list, b, h.last); }
    }
  }

  /** A request that comes out right: its size does not wrap in the rounding, and if it
      needs new pages no sum wraps either. */
  ghost predicate Sound(h: Heap, list: set<nat>, size: nat) {
    size + 3 < TWO32 && (Fits(h, list, RoundUp4(size)) || NoWrap(h, RoundUp4(size)))
  }

  /** What kmalloc returns: exactly for a sound request, a block with room for it, in use,
      that overlaps no block in use before; those all keep their place and size. It fails
      only if no free block fits and the heap cannot grow. */
  lemma MallocSafe(h: Heap, list: set<nat>, size: nat, memory: bool)
    requires Ready(h, list) && Has(h, h.first) && h.first < h.end && Has(h, h.last) && size < TWO32
    ensures var r := Malloc(h, size, memory);
      && (r.ptr == 0 <==> size == 0 || (!Fits(h, list, RoundUp4(size)) && !Grows(h, list, size, memory)))
      && (r.ptr == 0 ==> r.heap == h)
      && (r.ptr != 0 ==> r.ptr > HEADER &&
                         (Fresh(h, list, r.heap, r.ptr - HEADER, size) <==> Sound(h, list, size)))
  {
    var n := RoundUp4(size);
    RoundUpExact(size);
    FitFound(h, list, n);
    var b := FindFit(h, h.first, n);
    hide RoundUp4, FindFit, Grown, NewSize, Straight;
    if size > 0 && b != 0 {
      TakeFresh(h, list, b, n);
      if size + 3 >= TWO32 { TakeTooSmall(h, list, b, n); }
    } else if Grows(h, list, size, memory) {
      GrowExact(h, list, size, n);
    }
  }

  lemma GrowExact(h: Heap, list: set<nat>, size: nat, n: nat)
    requires Ready(h, list) && Has(h, h.last) && size < TWO32 && n < TWO32
    requires if size + 3 < TWO32 then size <= n <= size + 3 else n == 0
    ensures Fresh(h, list, Append(h, Grown(h, n), NewSize(h, n)), h.end, size) <==> size + 3 < TWO32 && NoWrap(h, n)
  {
    StraightExact(h, n);
    if Straight(h, n) {
      NoWrapExact(h, n);
      hide Grown, NewSize, Straight;
      if size + 3 < TWO32 && NoWrap(h, n) {
        GrowFresh(h, list, Grown(h, n), NewSize(h, n), size);
      } else if size + 3 >= TWO32 {
        OnePage(h);
      }
    }
  }

  lemma OnePage(h: Heap)
    requires h.end < TWO32 && Straight(h, 0)
    ensures NewSize(h, 0) == PAGE - HEADER
  {
  }

  lemma TakeTooSmall(h: Heap, list: set<nat>, b: nat, n: nat)
    requires Ready(h, list) && b in list && Has(h, b) && h.blocks[b].size >= n
    ensures var r := Split(Mark(h, b, false), b, n); b in r.blocks && r.blocks[b].size + 3 < TWO32
  {
    assert NodeOk(h, list, b);
  }

  /** Block b of r is new to the blocks in use, and they are kept. */
  ghost predicate Fresh(h: Heap, list: set<nat>, r: Heap, b: nat, size: nat) {
    && b in r.blocks && !r.blocks[b].free && r.blocks[b].size >= size && Stop(r.blocks, b) <= r.end
    && forall a :: InUse(h, list, a) ==> a != b && Kept(h, r, a) && (Stop(h.blocks, a) <= b || Stop(r.blocks, b) <= a)
  }

  lemma TakeFresh(h: Heap, list: set<nat>, b: nat, n: nat)
    requires Ready(h, list) && b in list && Has(h, b) && h.blocks[b].free && h.blocks[b].size >= n
    ensures Fresh(h, list, Split(Mark(h, b, false), b, n), b, n)
  {
    var r := Split(Mark(h, b, false), b, n);
    assert NodeOk(h, list, b);
    forall a | InUse(h, list, a)
      ensures a != b && Kept(h, r, a) && (Stop(h.blocks, a) <= b || Stop(r.blocks, b) <= a)
    {
      assert Apart(h, list, a, b) && Apart(h, list, b, a) && NodeOk(h, list, a);
    }
  }

  lemma GrowFresh(h: Heap, list: set<nat>, to: nat, size: nat, n: nat)
    requires Good(h, list) && Has(h, h.last) && to == h.end + HEADER + size && size >= n
    ensures Fresh(h, list, Append(h, to, size), h.end, n)
  {
    var r := Append(h, to, size);
    forall a | InUse(h, list, a) ensures a != h.end && Kept(h, r, a) && Stop(h.blocks, a) <= h.end {
      assert NodeOk(h, list, a);
    }
    assert NodeOk(h, list, h.last);
  }

  /** Three requests just below 4 GB round to 0, so any free block is taken for them. */
  lemma RoundsToNothing(h: Heap, list: set<nat>, memory: bool)
    requires Ready(h, list) && Has(h, h.first) && h.first < h.end && Has(h, h.last) && Fits(h, list, 0)
    ensures var r := Malloc(h, 0xFFFF_FFFD, memory);
      r.ptr != 0 && r.ptr > HEADER && !Fresh(h, list, r.heap, r.ptr - HEADER, 0xFFFF_FFFD)
  {
    MallocSafe(h, list, 0xFFFF_FFFD, memory);
    RoundUpExact(0xFFFF_FFFD);
  }

  /** Where no block fits, 2^32 - 20 bytes and their header sum up to nothing: the heap grows
      by no page and the new block lies behind its end. */
  lemma GrowsByNothing(h: Heap, list: set<nat>)
    requires Ready(h, list) && Has(h, h.first) && h.first < h.end && Has(h, h.last)
    requires !Fits(h, list, 0xFFFF_FFEC) && h.end <= h.max
    ensures var r := Malloc(h, 0xFFFF_FFEC, true);
      r.ptr == h.end + HEADER && r.heap.end == h.end && forall other: set<nat> :: !Good(r.heap, other)
  {
    var n := 0xFFFF_FFEC;
    assert RoundUp4(n) == n && Pages(n) == 0 && Grown(h, n) == h.end;
    FitFound(h, list, n);
    MallocKeeps(h, list, n, true);
  }

  // ------------------------------------------------------------- kfree

  ghost function AfterNext(h: Heap, list: set<nat>, b: nat): set<nat>
    requires Has(h, b)
  {
    if FreeAt(h, h.blocks[b].next) then list - {h.blocks[b].next} else list
  }

  ghost function AfterPrev(h: Heap, list: set<nat>, b: nat): set<nat>
    requires Has(h, b)
  {
    if FreeAt(h, h.blocks[b].prev) then list - {b} else list
  }

  lemma AbsorbGood(h: Heap, list: set<nat>, b: nat)
    requires Good(h, list) && Forward(h) && b in list && Has(h, b) && Has(h, h.blocks[b].next)
    ensures Good(Absorb(h, b), list - {h.blocks[b].next}) && Forward(Absorb(h, b))
    ensures LastIsTail(h) ==> LastIsTail(Absorb(h, b))
  {
    assert NodeOk(h, list, b) && NodeOk(h, list, h.blocks[b].next) && NodeOk(h, list, h.last);
    AbsorbNodes(h, list, b);
    AbsorbApart(h, list, b);
  }

  lemma TakeNextGood(h: Heap, list: set<nat>, b: nat)
    requires Good(h, list) && Forward(h) && b in list && Has(h, b)
    ensures var r, l := TakeNext(h, b), AfterNext(h, list, b);
      Good(r, l) && Forward(r) && b in l && Has(r, b) && (LastIsTail(h) ==> LastIsTail(r))
  {
    assert NodeOk(h, list, b);
    if FreeAt(h, h.blocks[b].next) { AbsorbGood(h, list, b); }
  }

  lemma GivePrevGood(h: Heap, list: set<nat>, b: nat)
    requires Good(h, list) && Forward(h) && b in list && Has(h, b)
    ensures var r, l := GivePrev(h, b), AfterPrev(h, list, b);
      Good(r, l) && Forward(r) && (LastIsTail(h) ==> LastIsTail(r))
  {
    var p := h.blocks[b].prev;
    assert NodeOk(h, list, b);
    if FreeAt(h, p) {
      assert p in list;
      AbsorbGood(h, list, p);
      assert JoinPrev(h, b) == Absorb(h, p);
    }
  }

  /** After kfree the only two free blocks that may touch are b and its neighbours; when
      it has taken over its successor, only b and its predecessor; and then none. */
  lemma TakeNextMerged(h: Heap, list: set<nat>, b: nat)
    requires Good(h, list) && b in list && Has(h, b)
    requires forall a: nat :: a != b && (Has(h, a) ==> h.blocks[a].next != b) ==> Solid(h, list, a)
    requires FreeAt(h, h.blocks[b].next) ==> Solid(h, list, h.blocks[b].next)
    ensures var r, l := TakeNext(h, b), AfterNext(h, list, b);
      forall a: nat :: (Has(r, a) ==> r.blocks[a].next != b) ==> Solid(r, l, a)
  {
    var r, l := TakeNext(h, b), AfterNext(h, list, b);
    assert NodeOk(h, list, b);
    if FreeAt(h, h.blocks[b].next) { assert NodeOk(h, list, h.blocks[b].next); }
    forall a: nat | Has(r, a) ==> r.blocks[a].next != b ensures Solid(r, l, a) {
      assert NodeOk(h, list, a);
    }
  }

  lemma GivePrevMerged(h: Heap, list: set<nat>, b: nat)
    requires Good(h, list) && b in list && Has(h, b) && h.blocks[b].free
    requires forall a: nat :: (Has(h, a) ==> h.blocks[a].next != b) ==> Solid(h, list, a)
    ensures Merged(GivePrev(h, b), AfterPrev(h, list, b))
  {
    var r, l := GivePrev(h, b), AfterPrev(h, list, b);
    assert NodeOk(h, list, b);
    var p := h.blocks[b].prev;
    if FreeAt(h, p) { assert NodeOk(h, list, p); }
    forall a: nat ensures Solid(r, l, a) {
      assert NodeOk(h, list, a);
    }
  }

  ghost function AfterFree(h: Heap, list: set<nat>, b: nat): set<nat>
    requires Has(h, b)
  {
    var f := Mark(h, b, true);
    AfterPrev(TakeNext(f, b), AfterNext(f, list, b), b)
  }

  lemma MarkMerged(h: Heap, list: set<nat>, b: nat)
    requires Ready(h, list) && InUse(h, list, b) && Has(h, b)
    ensures var f := Mark(h, b, true);
      && (forall a: nat :: a != b && (Has(f, a) ==> f.blocks[a].next != b) ==> Solid(f, list, a))
      && (FreeAt(f, f.blocks[b].next) ==> Solid(f, list, f.blocks[b].next))
      && Forward(f)
  {
    var f := Mark(h, b, true);
    assert NodeOk(h, list, b);
    if FreeAt(f, f.blocks[b].next) { assert NodeOk(h, list, f.blocks[b].next); }
    forall a: nat | a != b && (Has(f, a) ==> f.blocks[a].next != b) ensures Solid(f, list, a) {
      assert Solid(h, list, a);
    }
    assert Solid(h, list, h.blocks[b].next);
  }

  /** kfree keeps everything: the heap is in order, no two free blocks touch, and `last`
      is the tail if it was. */
  lemma FreeKeeps(h: Heap, list: set<nat>, b: nat)
    requires Ready(h, list) && InUse(h, list, b) && Has(h, b)
    ensures var r := Free(h, b + HEADER); Ready(r, AfterFree(h, list, b)) && (LastIsTail(h) ==> LastIsTail(r))
  {
    var f := Mark(h, b, true);
    MarkKeeps(h, list, b, true);
    MarkMerged(h, list, b);
    TakeNextGood(f, list, b);
    TakeNextMerged(f, list, b);
    var g, l := TakeNext(f, b), AfterNext(f, list, b);
    assert g.blocks[b].free;
    GivePrevGood(g, l, b);
    GivePrevMerged(g, l, b);
    assert LastIsTail(h) ==> LastIsTail(f);
  }

  /** Exactly the blocks in use before, without the freed one, are in use after, with
      their places and sizes. */
  lemma FreeExact(h: Heap, list: set<nat>, b: nat, a: nat)
    requires Ready(h, list) && InUse(h, list, b) && Has(h, b)
    ensures var r := Free(h, b + HEADER); var l := AfterFree(h, list, b);
      && (InUse(r, l, a) <==> InUse(h, list, a) && a != b)
      && (InUse(r, l, a) ==> Kept(h, r, a))
  {
    var f := Mark(h, b, true);
    MarkKeeps(h, list, b, true);
    MarkMerged(h, list, b);
    TakeNextGood(f, list, b);
    TakeNextUse(f, list, b, a);
    var g, l := TakeNext(f, b), AfterNext(f, list, b);
    assert g.blocks[b].free;
    GivePrevUse(g, l, b, a);
    hide TakeNext, GivePrev, AfterNext, AfterPrev, Good, Forward;
  }

  lemma TakeNextUse(h: Heap, list: set<nat>, b: nat, a: nat)
    requires Good(h, list) && b in list && FreeAt(h, b)
    ensures var r, l := TakeNext(h, b), AfterNext(h, list, b);
      (InUse(r, l, a) <==> InUse(h, list, a)) && (InUse(r, l, a) ==> Kept(h, r, a))
  {
    assert NodeOk(h, list, b) && NodeOk(h, list, a);
  }

  lemma GivePrevUse(h: Heap, list: set<nat>, b: nat, a: nat)
    requires Good(h, list) && b in list && FreeAt(h, b)
    ensures var r, l := GivePrev(h, b), AfterPrev(h, list, b);
      (InUse(r, l, a) <==> InUse(h, list, a)) && (InUse(r, l, a) ==> Kept(h, r, a))
  {
    assert NodeOk(h, list, b) && NodeOk(h, list, a);
  }

  // ------------------------------------------------------------- runs

  datatype Op = Alloc(size: nat, memory: bool) | Release(b: nat)

  /** A caller frees only what is in use, and no allocation is harmful. */
  ghost predicate Allowed(h: Heap, list: set<nat>, op: Op) {
    match op
    case Alloc(size, memory) => !Harmful(h, list, size, memory)
    case Release(b) => InUse(h, list, b) && Has(h, b)
  }

  /** A state with the list that describes it. */
  ghost predicate Steps(h: Heap, list: set<nat>, ops: seq<Op>, h2: Heap, list2: set<nat>)
    decreases |ops|
  {
    if ops == [] then h2 == h && list2 == list
    else
      && Ready(h, list) && Has(h, h.first) && h.first < h.end && Has(h, h.last) && Allowed(h, list, ops[0])
      && match ops[0]
         case Alloc(size, memory) =>
           Steps(Malloc(h, size, memory).heap, AfterMalloc(h, list, size, memory), ops[1..], h2, list2)
         case Release(b) =>
           Steps(Free(h, b + HEADER), AfterFree(h, list, b), ops[1..], h2, list2)
  }

  /** Every run without a harmful allocation keeps the heap in order, and so no two blocks
      in use ever overlap. */
  lemma {:induction false} RunKeeps(h: Heap, list: set<nat>, ops: seq<Op>, h2: Heap, list2: set<nat>)
    requires Ready(h, list) && Steps(h, list, ops, h2, list2)
    ensures Ready(h2, list2)
    ensures forall a, b :: InUse(h2, list2, a) && InUse(h2, list2, b) && a < b ==> Stop(h2.blocks, a) <= b
    decreases |ops|
  {
    if ops == [] {
      forall a, b | InUse(h2, list2, a) && InUse(h2, list2, b) && a < b ensures Stop(h2.blocks, a) <= b {
        assert Apart(h2, list2, a, b);
      }
    } else {
      match ops[0]
      case Alloc(size, memory) =>
        MallocKeeps(h, list, size, memory);
        RunKeeps(Malloc(h, size, memory).heap, AfterMalloc(h, list, size, memory), ops[1..], h2, list2);
      case Release(b) =>
        FreeKeeps(h, list, b);
        RunKeeps(Free(h, b + HEADER), AfterFree(h, list, b), ops[1..], h2, list2);
    }
  }

  // ------------------------------------------------------------- a run that goes wrong

  /** heap_init: one free block in the first page. */
  function Initial(s: nat, max: nat): Heap {
    Heap(map[s := Block(PAGE - HEADER, true, 0, 0)], s, s, s + PAGE, max)
  }

  lemma InitialReady(s: nat, max: nat)
    requires PAGE <= s && s + PAGE < TWO32
    ensures Ready(Initial(s, max), {s}) && LastIsTail(Initial(s, max))
    ensures var h := Initial(s, max);
      h.end == s + PAGE && h.max == max && s in h.blocks && h.blocks[s].free && Stop(h.blocks, s) == h.end
  {
    var h := Initial(s, max);
    forall a: nat ensures NodeOk(h, {s}, a) { }
    forall a: nat, b: nat ensures Apart(h, {s}, a, b) { }
    forall a: nat ensures Solid(h, {s}, a) { }
  }

  function H1(s: nat, max: nat): Heap {
    Heap(map[s := Block(100, false, s + 120, 0), s + 120 := Block(3956, true, 0, s)], s, s, s + 4096, max)
  }

  function H2(s: nat, max: nat): Heap {
    Heap(map[s := Block(100, false, s + 120, 0), s + 120 := Block(3956, false, 0, s)], s, s, s + 4096, max)
  }

  function H3(s: nat, max: nat, free: bool): Heap {
    Heap(map[s := Block(100, free, s + 4096, 0), s + 120 := Block(3956, false, 0, s),
             s + 4096 := Block(4076, false, 0, s)], s, s + 4096, s + 8192, max)
  }

  function H5(s: nat, max: nat, free: bool): Heap {
    Heap(map[s := Block(4196, free, 0, 0), s + 120 := Block(3956, false, 0, s),
             s + 4096 := Block(4076, true, 0, s)], s, s, s + 8192, max)
  }

  /** Splitting the only block leaves `last` behind. */
  lemma SplitsTail(s: nat, max: nat)
    requires s > 0
    ensures Allocates(Initial(s, max), 100, H1(s, max), s + 20)
  {
    var h := Initial(s, max);
    assert FindFit(h, s, 100) == s;
    assert Split(Mark(h, s, false), s, 100).blocks == H1(s, max).blocks;
  }

  /** The rest is taken whole. */
  lemma TakesRest(s: nat, max: nat)
    requires s > 0
    ensures Allocates(H1(s, max), 3956, H2(s, max), s + 140)
  {
    assert FindFit(H1(s, max), s, 3956) == FindFit(H1(s, max), s + 120, 3956) == s + 120;
    assert Mark(H1(s, max), s + 120, false).blocks == H2(s, max).blocks;
  }

  /** Growing drops the second block from the list. */
  lemma DropsOut(s: nat, max: nat)
    requires s > 0 && s + 2 * PAGE <= max < TWO32
    ensures Allocates(H2(s, max), 4000, H3(s, max, false), s + 4116)
  {
    var h := H2(s, max);
    assert FindFit(h, s, 4000) == FindFit(h, s + 120, 4000) == 0;
    assert Pages(4000) == 1 && Grown(h, 4000) == s + 8192 && NewSize(h, 4000) == 4076;
    assert Append(h, s + 8192, 4076).blocks == H3(s, max, false).blocks;
  }

  /** Freeing the first and the third block joins them over it. */
  lemma JoinsOver(s: nat, max: nat)
    requires s > 0
    ensures Frees(H3(s, max, false), s + 20, H3(s, max, true))
    ensures Frees(H3(s, max, true), s + 4116, H5(s, max, true))
  {
    assert Free(H3(s, max, false), s + 20).blocks == H3(s, max, true).blocks;
    var f := Mark(H3(s, max, true), s + 4096, true);
    assert TakeNext(f, s + 4096) == f;
    assert JoinPrev(f, s + 4096).blocks == H5(s, max, true).blocks;
  }

  lemma HandsOut(s: nat, max: nat)
    requires s > 0
    ensures Allocates(H5(s, max, true), 4196, H5(s, max, false), s + 20)
  {
    assert FindFit(H5(s, max, true), s, 4196) == s;
    assert Mark(H5(s, max, true), s, false).blocks == H5(s, max, false).blocks;
  }

  ghost predicate Allocates(h: Heap, size: nat, r: Heap, ptr: nat) {
    && Forward(h) && Has(h, h.first) && h.first < h.end && Has(h, h.last)
    && Malloc(h, size, true) == Result(r, ptr)
  }

  ghost predicate Frees(h: Heap, ptr: nat, r: Heap) {
    ptr >= HEADER && Has(h, ptr - HEADER) && Free(h, ptr) == r
  }

  /** Six calls from a new heap, none of them wrong, after which two blocks in use
      overlap: the second allocation, at s + 140 and never freed, lies inside the fourth,
      at s + 20. */
  lemma OverlapAfterSix(s: nat, max: nat)
    requires s > 0 && s + 2 * PAGE <= max < TWO32
    ensures Allocates(Initial(s, max), 100, H1(s, max), s + 20)
    ensures Allocates(H1(s, max), 3956, H2(s, max), s + 140)
    ensures Allocates(H2(s, max), 4000, H3(s, max, false), s + 4116)
    ensures Frees(H3(s, max, false), s + 20, H3(s, max, true))
    ensures Frees(H3(s, max, true), s + 4116, H5(s, max, true))
    ensures Allocates(H5(s, max, true), 4196, H5(s, max, false), s + 20)
    ensures s + 20 < s + 140 < s + 140 + 3956 < s + 20 + 4196
  {
    hide *;
    SplitsTail(s, max);
    TakesRest(s, max);
    DropsOut(s, max);
    JoinsOver(s, max);
    HandsOut(s, max);
  }

  // ------------------------------------------------------------- the program

  class Kernel {
    var blocks: map<nat, Block>
    var first: nat
    var last: nat
    var end: nat
    var max: nat
    ghost var list: set<nat>  // the addresses of the blocks in the list

    function State(): Heap
      reads this
    {
      Heap(blocks, first, last, end, max)
    }

    /** The heap is in order. */
    ghost predicate Valid()
      reads this
    {
      Ready(State(), list)
    }

    /** The blocks in use. */
    ghost predicate Live(a: nat)
      reads this
    {
      InUse(State(), list, a)
    }

    constructor (s: nat, limit: nat)
      requires PAGE <= s && s + PAGE < TWO32
      ensures Valid() && State() == Initial(s, limit) && list == {s}
    {
      first, last, end, max := s, s, s + PAGE, limit;
      blocks := map[s := Block(PAGE - HEADER, true, 0, 0)];
      list := {s};
      new;
      InitialReady(s, limit);
    }

    method SplitBlock(b: nat, n: nat)
      requires Has(State(), b)
      modifies this`blocks
      ensures State() == Split(old(State()), b, n)
    {
      if blocks[b].size >= n + HEADER + MIN_REST {
        var c := b + HEADER + n;
        var next := blocks[b].next;
        blocks := blocks[c := Block(blocks[b].size - n - HEADER, true, next, b)];
        if next != 0 && next in blocks { blocks := blocks[next := blocks[next].(prev := c)]; }
        blocks := blocks[b := blocks[b].(size := n, next := c)];
      }
    }

    method TakeOverNext(b: nat)
      requires Has(State(), b)
      modifies this`blocks, this`last
      ensures State() == TakeNext(old(State()), b)
    {
      var x := blocks[b];
      if x.next != 0 && x.next in blocks && blocks[x.next].free {
        if x.next == last { last := b; }
        var y := blocks[x.next];
        blocks := blocks[b := x.(size := x.size + HEADER + y.size, next := y.next)];
        if y.next != 0 && y.next in blocks { blocks := blocks[y.next := blocks[y.next].(prev := b)]; }
      }
    }

    method JoinPrevious(b: nat)
      requires Has(State(), b)
      modifies this`blocks, this`last
      ensures State() == GivePrev(old(State()), b)
    {
      var x := blocks[b];
      if x.prev != 0 && x.prev in blocks && blocks[x.prev].free {
        if b == last { last := x.prev; }
        var y := blocks[x.prev];
        blocks := blocks[x.prev := y.(size := y.size + HEADER + x.size, next := x.next)];
        if x.next != 0 && x.next in blocks { blocks := blocks[x.next := blocks[x.next].(prev := x.prev)]; }
      }
    }

    method CoalesceBlock(b: nat)
      requires Has(State(), b)
      modifies this`blocks, this`last
      ensures State() == Coalesce(old(State()), b)
    {
      TakeOverNext(b);
      JoinPrevious(b);
    }

    /** The walk of kmalloc along the list. */
    method Search(n: nat) returns (b: nat)
      requires Forward(State()) && Has(State(), first) && first < end
      ensures b == FindFit(State(), first, n)
    {
      b := first;
      while b != 0
        invariant b == 0 || (b in blocks && b < end)
        invariant FindFit(State(), first, n) == FindFit(State(), b, n)
        decreases if b == 0 then 0 else end - b
      {
        if blocks[b].free && blocks[b].size >= n { return; }
        b := blocks[b].next;
      }
    }

    /** kmalloc. A block with room for the request, apart from all others, comes back for
        a sound request; the heap stays in order unless it has to grow at a bad time. */
    method Allocate(size: nat, memory: bool) returns (ptr: nat)
      requires Valid() && size < TWO32
      modifies this
      ensures ptr == 0 <==> size == 0 || (!Fits(old(State()), old(list), RoundUp4(size)) &&
                                           !Grows(old(State()), old(list), size, memory))
      ensures ptr == 0 ==> State() == old(State())
      ensures ptr != 0 ==> ptr > HEADER && (Fresh(old(State()), old(list), State(), ptr - HEADER, size) <==>
                                            Sound(old(State()), old(list), size))
      ensures Valid() <==> !Harmful(old(State()), old(list), size, memory)
    {
      hide Malloc, AfterMalloc, Fresh, Sound, Harmful, Grows, Fits, RoundUp4, Good, Forward;
      ghost var h, l := State(), list;
      ReadyHas(h, l);
      MallocSafe(h, l, size, memory);
      MallocKeeps(h, l, size, memory);
      list := AfterMalloc(h, l, size, memory);
      ptr := AllocateBlock(size, memory);
    }

    method AllocateBlock(size: nat, memory: bool) returns (ptr: nat)
      requires Forward(State()) && Has(State(), first) && first < end && Has(State(), last)
      modifies this`blocks, this`end, this`last
      ensures Result(State(), ptr) == Malloc(old(State()), size, memory)
    {
      if size == 0 { return 0; }
      var n := RoundUp4(size);
      var b := Search(n);
      if b != 0 {
        blocks := blocks[b := blocks[b].(free := false)];
        SplitBlock(b, n);
        return b + HEADER;
      }
      var to, room := Grown(State(), n), NewSize(State(), n);
      if to > max || !memory { return 0; }
      var c := end;
      blocks := blocks[last := blocks[last].(next := c)];
      blocks := blocks[c := Block(room, false, 0, last)];
      end := to;
      last := c;
      return c + HEADER;
    }

    /** kfree of a block in use: the heap stays in order, exactly the other blocks stay in
        use, with their places and sizes. A null pointer, and an address with no block
        header before it, are ignored. */
    method Release(ptr: nat)
      requires Valid() && (ptr > HEADER && ptr - HEADER in blocks ==> Live(ptr - HEADER))
      modifies this`blocks, this`last, this`list
      ensures Valid()
      ensures forall a: nat {:trigger Live(a)} :: Live(a) <==> old(Live(a)) && a + HEADER != ptr
      ensures forall a: nat {:trigger Live(a)} :: Live(a) ==> Kept(old(State()), State(), a)
      ensures old(LastIsTail(State())) ==> LastIsTail(State())
      ensures ptr <= HEADER || ptr - HEADER !in old(blocks) ==> State() == old(State())
    {
      ghost var h, l := State(), list;
      if ptr == 0 {
        NoneAtZero(h, l);
        return;
      }
      var b := ptr - HEADER;
      if b <= 0 || b !in blocks {
        NoneAtZero(h, l);
        return;
      }
      FreeKeeps(h, l, b);
      forall a: nat
        ensures var r, k := Free(h, ptr), AfterFree(h, l, b);
          (InUse(r, k, a) <==> InUse(h, l, a) && a != b) && (InUse(r, k, a) ==> Kept(h, r, a))
      {
        FreeExact(h, l, b, a);
      }
      list := AfterFree(h, l, b);
      blocks := blocks[b := blocks[b].(free := true)];
      CoalesceBlock(b);
      hide Ready, InUse, Kept;
    }
  }

  /** Nothing in use is at the null address, and each block in use has a header. */
  lemma NoneAtZero(h: Heap, list: set<nat>)
    requires Ready(h, list)
    ensures forall a :: InUse(h, list, a) ==> a > 0 && a in h.blocks && Kept(h, h, a)
  {
    forall a: nat | InUse(h, list, a) ensures a > 0 { assert NodeOk(h, list, a); }
  }

  // ------------------------------------------------------------- aligned requests

  const ADDRESS_SIZE := 4

  /** kmalloc_aligned: what it asks for, and where the caller's memory starts; the sums are
      taken in 32 bits. */
  function Enlarged(size: nat, alignment: nat): int { size + (alignment - 1 + ADDRESS_SIZE) }

  function AlignedIn(raw: nat, alignment: nat): int
    requires alignment > 0
  {
    (raw + ADDRESS_SIZE + alignment - 1) % TWO32 / alignment * alignment
  }

  /** Without wrapping, the aligned memory and the pointer stored in front of it lie within a
      block of the enlarged size, so that kfree_aligned finds the block again. */
  lemma AlignedFits(raw: nat, size: nat, alignment: nat)
    requires alignment >= ADDRESS_SIZE
    ensures var p := AlignedIn(raw, alignment); p % alignment == 0
    ensures var p := AlignedIn(raw, alignment); raw + Enlarged(0, alignment) < TWO32 ==>
      raw <= p - ADDRESS_SIZE && p + size <= raw + Enlarged(size, alignment)
  {
    var x := (raw + ADDRESS_SIZE + alignment - 1) % TWO32;
    var q := x / alignment;
    assert q * alignment <= x < q * alignment + alignment;
    MultipleOf(q, alignment);
  }

  /** Block b ends behind the heap, or is at most a page larger than asked for, or very small
      for a request near 2^32. */
  ghost predicate Bounded(h: Heap, list: set<nat>, r: Heap, b: nat, size: nat) {
    b in r.blocks &&
    (Stop(r.blocks, b) > r.end ||
     if Sound(h, list, size) then r.blocks[b].size <= size + 3 + PAGE + HEADER
     else r.blocks[b].size <= PAGE + HEADER && size + HEADER + PAGE + 3 >= TWO32)
  }

  /** How large the block is that kmalloc returns. */
  lemma MallocSize(h: Heap, list: set<nat>, size: nat, memory: bool)
    requires Ready(h, list) && Has(h, h.first) && h.first < h.end && Has(h, h.last) && size < TWO32
    ensures var r := Malloc(h, size, memory);
      && r.heap.end < TWO32
      && (r.ptr != 0 ==> r.ptr > HEADER && Bounded(h, list, r.heap, r.ptr - HEADER, size))
  {
    hide RoundUp4, FindFit, Grown, NewSize, NoWrap, Append, Split, Mark, Good, Merged, Fits;
    var n := RoundUp4(size);
    RoundUpExact(size);
    FitFound(h, list, n);
    var b := FindFit(h, h.first, n);
    if size > 0 && b != 0 {
      TakenSize(h, b, n);
    }
    GrownSize(h, n);
  }

  lemma GrownSize(h: Heap, n: nat)
    requires h.end < TWO32 && n < TWO32 && Has(h, h.last)
    ensures var r := Append(h, Grown(h, n), NewSize(h, n));
      && r.end < TWO32 && h.end in r.blocks
      && (Stop(r.blocks, h.end) > r.end ||
          if NoWrap(h, n) then r.blocks[h.end].size <= n + PAGE
          else r.blocks[h.end].size <= PAGE && n + HEADER + PAGE - 1 >= TWO32)
  {
    StraightExact(h, n);
    SomePages(n);
    MostPages(n);
    hide Pages;
  }

  lemma MostPages(n: nat)
    requires n < TWO32
    ensures n + HEADER + PAGE - 1 < TWO32 ==> Pages(n) * PAGE <= n + HEADER + PAGE - 1
  {
  }

  lemma TakenSize(h: Heap, b: nat, n: nat)
    requires b in h.blocks && Has(h, b) && h.blocks[b].size >= n
    ensures var r := Split(Mark(h, b, false), b, n);
      r.end == h.end && b in r.blocks && r.blocks[b].size <= n + HEADER + MIN_REST
  {
  }

  /** kmalloc_aligned: the caller's memory and the stored pointer lie in a block in use, in
      the heap and apart from all others, if and only if neither the enlarged size nor the
      sums of kmalloc wrap. */
  lemma AlignedInBlock(h: Heap, list: set<nat>, size: nat, alignment: nat, memory: bool)
    requires Ready(h, list) && Has(h, h.first) && h.first < h.end && Has(h, h.last)
    requires ADDRESS_SIZE <= alignment <= TWO31 && size < TWO32
    ensures var want := Enlarged(size, alignment); var r := Malloc(h, want % TWO32, memory);
      r.ptr != 0 ==>
        var p := AlignedIn(r.ptr, alignment);
        && p % alignment == 0 && r.ptr > HEADER
        && (r.ptr <= p - ADDRESS_SIZE && Fresh(h, list, r.heap, r.ptr - HEADER, p + size - r.ptr)
            <==> want < TWO32 && Sound(h, list, want))
  {
    hide Malloc, Sound, AlignedIn, Has, Good, Merged, Fresh, Bounded, Fits, Grows;
    var want := Enlarged(size, alignment);
    var asked := want % TWO32;
    var r := Malloc(h, asked, memory);
    MallocSafe(h, list, asked, memory);
    MallocSize(h, list, asked, memory);
    if r.ptr != 0 {
      AlignedFits(r.ptr, size, alignment);
      var p, b := AlignedIn(r.ptr, alignment), r.ptr - HEADER;
      if want < TWO32 && Sound(h, list, want) {
        FreshStop(h, list, r.heap, b, want);
        FreshSmaller(h, list, r.heap, b, want, p + size - r.ptr);
      } else if r.ptr <= p - ADDRESS_SIZE {
        NotFresh(h, list, r.heap, b, size, alignment, p + size - r.ptr);
      }
    }
  }

  lemma FreshStop(h: Heap, list: set<nat>, r: Heap, b: nat, n: nat)
    requires Fresh(h, list, r, b, n)
    ensures b + HEADER + n <= r.end
  {
  }

  lemma NotFresh(h: Heap, list: set<nat>, r: Heap, b: nat, size: nat, alignment: nat, m: nat)
    requires ADDRESS_SIZE <= alignment <= TWO31 && size < TWO32 && m >= size
    requires var want := Enlarged(size, alignment);
      !(want < TWO32 && Sound(h, list, want)) && Bounded(h, list, r, b, want % TWO32)
    ensures !Fresh(h, list, r, b, m)
  {
    hide Sound;
  }

  /** A request that some free block can serve gets the one at the lowest address, cut to the
      rounded size if that leaves room for another block, which is then free. */
  lemma FirstFit(h: Heap, list: set<nat>, size: nat, memory: bool)
    requires Ready(h, list) && Has(h, h.first) && h.first < h.end && Has(h, h.last) && size < TWO32
    requires size > 0 && Fits(h, list, RoundUp4(size))
    ensures var n, r := RoundUp4(size), Malloc(h, size, memory);
      r.ptr > HEADER &&
      var b := r.ptr - HEADER;
      && b in list && b in h.blocks && h.blocks[b].free && h.blocks[b].size >= n && r.heap.end == h.end
      && (forall a :: a in list && a in h.blocks && h.blocks[a].free && h.blocks[a].size >= n ==> b <= a)
      && b in r.heap.blocks && !r.heap.blocks[b].free
      && var c := b + HEADER + n;
         if h.blocks[b].size >= n + HEADER + MIN_REST then
           && r.heap.blocks[b].size == n && c in r.heap.blocks && r.heap.blocks[c].free
           && r.heap.blocks[c].size == h.blocks[b].size - n - HEADER
         else r.heap.blocks[b].size == h.blocks[b].size
  {
    var n := RoundUp4(size);
    FitFound(h, list, n);
    FindFitExact(h, list, h.first, n);
    hide RoundUp4, FindFit, Merged;
    var b := FindFit(h, h.first, n);
    assert NodeOk(h, list, b);
    forall a | a in list && a in h.blocks && h.blocks[a].free && h.blocks[a].size >= n ensures b <= a {
      assert NodeOk(h, list, a);
    }
  }

  /** After kmalloc exactly the blocks that were in use are, and the new one. */
  lemma MallocExact(h: Heap, list: set<nat>, size: nat, memory: bool, a: nat)
    requires Ready(h, list) && Has(h, h.first) && h.first < h.end && Has(h, h.last)
    ensures var r, l := Malloc(h, size, memory), AfterMalloc(h, list, size, memory);
      InUse(r.heap, l, a) <==> InUse(h, list, a) || (r.ptr != 0 && a + HEADER == r.ptr)
  {
    var n := RoundUp4(size);
    FitFound(h, list, n);
    assert NodeOk(h, list, h.last) && NodeOk(h, list, h.end) && NodeOk(h, list, a);
    hide RoundUp4, FindFit, Grown, NewSize;
    var b := FindFit(h, h.first, n);
    if size > 0 && b != 0 {
      assert NodeOk(h, list, b);
      TakenUse(h, list, b, n, a);
    }
  }

  lemma TakenUse(h: Heap, list: set<nat>, b: nat, n: nat, a: nat)
    requires Ready(h, list) && b in list && Has(h, b) && h.blocks[b].free && h.blocks[b].size >= n
    ensures InUse(Split(Mark(h, b, false), b, n), Taken(h, list, b, n), a) <==> InUse(h, list, a) || a == b
  {
    hide Nodes, Disjoint, Merged, Forward;
    TwoNodes(h, list, a, b);
  }

  lemma TwoNodes(h: Heap, list: set<nat>, a: nat, b: nat)
    requires Good(h, list)
    ensures NodeOk(h, list, a) && NodeOk(h, list, b) && Apart(h, list, a, b) && Apart(h, list, b, a)
  {
  }

  lemma FreshSmaller(h: Heap, list: set<nat>, r: Heap, b: nat, n: nat, m: int)
    requires Fresh(h, list, r, b, n) && 0 <= m <= n
    ensures Fresh(h, list, r, b, m)
  {
  }

  lemma MultipleOf(q: nat, d: nat)
    requires d > 0
    ensures (q * d) % d == 0
  {
    var k, r := q * d / d, q * d % d;
    assert (q - k) * d == r;
    Small(q - k, d, r);
  }

  lemma Small(k: int, d: nat, r: nat)
    requires k * d == r < d
    ensures r == 0
  {
    assert k >= 1 ==> k * d >= d;
  }
}
