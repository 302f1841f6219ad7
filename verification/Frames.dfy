/** The physical frame allocator of src/mm/pmm.c: a bitmap of 32-bit words, a
    table of 16-bit reference counts, two counters, a search hint and a table of
    protected frames.

    A frame is named by its page frame number. The bitmap is kept one boolean
    per bit (true = used), so word w of the source is bits 32*w .. 32*w+31. */
module Frames {
  import opened Common

  const WORD_BITS := 32
  const MAX_REFS := 0xFFFF
  const MAX_PROTECTED := 65536
  const HUGE_FRAMES := 512

  /** Number of free frames in a bitmap. */
  ghost function CountFree(bits: seq<bool>): (n: nat)
    ensures n <= |bits|
  {
    if bits == [] then 0
    else CountFree(bits[..|bits| - 1]) + if bits[|bits| - 1] then 0 else 1
  }

  lemma {:induction false} CountFreeUpdate(bits: seq<bool>, i: nat, b: bool)
    requires i < |bits|
    ensures CountFree(bits[i := b]) == CountFree(bits) - (if bits[i] then 0 else 1) + if b then 0 else 1
  {
    var last := |bits| - 1;
    if i < last {
      assert bits[i := b][..last] == bits[..last][i := b];
      CountFreeUpdate(bits[..last], i, b);
    } else {
      assert bits[i := b][..last] == bits[..last];
    }
  }

  /** The used frames as a set. */
  lemma {:induction false} CountUsed(bits: seq<bool>, used: set<nat>)
    requires forall k: nat :: k in used <==> k < |bits| && bits[k]
    ensures CountFree(bits) + |used| == |bits|
  {
    if bits == [] {
      assert used == {};
    } else {
      var last := |bits| - 1;
      CountUsed(bits[..last], used - {last});
      assert |used - {last}| == |used| - One(last in used);
    }
  }

  lemma {:induction false} CountNone(bits: seq<bool>)
    requires forall k :: 0 <= k < |bits| ==> bits[k]
    ensures CountFree(bits) == 0
  {
    if bits != [] { CountNone(bits[..|bits| - 1]); }
  }

  /** Frames lo, ..., lo+count-1 are all free. */
  ghost predicate FreeRun(bits: seq<bool>, lo: int, count: nat)
    requires 0 <= lo && lo + count <= |bits|
  {
    forall k :: lo <= k < lo + count ==> !bits[k]
  }

  /** The bitmap after count frames from lo were marked used. */
  function MarkUsed(bits: seq<bool>, lo: nat, count: nat): (r: seq<bool>)
    requires lo + count <= |bits|
  {
    seq(|bits|, k requires 0 <= k < |bits| => bits[k] || lo <= k < lo + count)
  }

  /** The frames of a run have one reference each, the others as many as before. */
  ghost predicate OnceCounted(was: seq<nat>, now: seq<nat>, lo: nat, count: nat) {
    |now| == |was| && forall k :: 0 <= k < |now| ==> now[k] == if lo <= k < lo + count then 1 else was[k]
  }

  /** The protection table after one more, or one fewer, protection of frame f. */
  function Guarded(g: map<nat, nat>, f: nat): map<nat, nat> {
    if f in g then g[f := g[f] + 1] else if |g| < MAX_PROTECTED then g[f := 1] else g
  }

  function Unguarded(g: map<nat, nat>, f: nat): map<nat, nat>
    requires f in g ==> g[f] > 0
  {
    if f !in g then g else if g[f] == 1 then g - {f} else g[f := g[f] - 1]
  }

  /** A run of free frames that is marked used is as many frames less that are free. */
  lemma {:induction false} MarkUsedCount(bits: seq<bool>, lo: nat, count: nat)
    requires lo + count <= |bits| && FreeRun(bits, lo, count)
    ensures |MarkUsed(bits, lo, count)| == |bits| && CountFree(MarkUsed(bits, lo, count)) == CountFree(bits) - count
    ensures forall k :: 0 <= k < |bits| ==> MarkUsed(bits, lo, count)[k] == (lo <= k < lo + count || bits[k])
  {
    if count == 0 {
      assert MarkUsed(bits, lo, 0) == bits;
    } else {
      MarkUsedCount(bits, lo, count - 1);
      CountFreeUpdate(MarkUsed(bits, lo, count - 1), lo + count - 1, true);
      assert MarkUsed(bits, lo, count) == MarkUsed(bits, lo, count - 1)[lo + count - 1 := true];
    }
  }

  /** One protection more and one fewer is none, and no other frame is touched. */
  lemma GuardExact(g: map<nat, nat>, f: nat, k: nat)
    requires (f in g ==> g[f] > 0) && (f in g || |g| < MAX_PROTECTED)
    ensures var h := Guarded(g, f);
      && f in h && h[f] == (if f in g then g[f] else 0) + 1 && Unguarded(h, f) == g
      && (k != f ==> (k in h <==> k in g) && (k in g ==> h[k] == g[k]))
  {
  }

  method CountClear(bits: array<bool>, n: nat) returns (count: nat)
    requires n <= bits.Length
    ensures count == CountFree(bits[..n])
  {
    count := 0;
    for f := 0 to n
      invariant count == CountFree(bits[..f])
    {
      assert bits[..f + 1][..f] == bits[..f];
      if !bits[f] { count := count + 1; }
    }
  }

  /** A frame's count after one reference of a frame in use was dropped. */
  function LessOne(used: bool, count: nat): nat {
    if used then (if count > 1 then count - 1 else 0) else count
  }

  /** From b0 and r0 to b and r, the n frames from `start` on have lost one reference each,
      and those without another are free. */
  ghost predicate Dropped(b0: seq<bool>, r0: seq<nat>, b: seq<bool>, r: seq<nat>, start: nat, n: nat) {
    && |b0| == |r0| == |b| == |r|
    && (forall k :: 0 <= k < |b0| ==> (b[k] <==> b0[k] && !(start <= k < start + n && r0[k] <= 1)))
    && (forall k :: 0 <= k < |b0| ==> r[k] == (if start <= k < start + n then LessOne(b0[k], r0[k]) else r0[k]))
  }

  lemma DroppedNext(b0: seq<bool>, r0: seq<nat>, b: seq<bool>, r: seq<nat>, start: nat, n: nat)
    requires Dropped(b0, r0, b, r, start, n) && start + n < |b|
    ensures var f := start + n; Dropped(b0, r0, b[f := b[f] && r[f] > 1], r[f := LessOne(b[f], r[f])], start, n + 1)
  {
  }

  /** What a frame has besides: counts in range, none on a free frame, and exactly the used
      ones counted. */
  lemma DroppedKeeps(b0: seq<bool>, r0: seq<nat>, b: seq<bool>, r: seq<nat>, start: nat, n: nat)
    requires Dropped(b0, r0, b, r, start, n)
    requires forall k :: 0 <= k < |r0| ==> r0[k] <= MAX_REFS && (!b0[k] ==> r0[k] == 0)
    ensures forall k :: 0 <= k < |r| ==> r[k] <= MAX_REFS && (!b[k] ==> r[k] == 0)
    ensures forall k :: 0 <= k < |b| && k < start ==> b[k] == b0[k]
    ensures (forall k :: 0 <= k < |b0| ==> (b0[k] <==> r0[k] > 0)) ==> forall k :: 0 <= k < |b| ==> (b[k] <==> r[k] > 0)
    ensures forall k :: 0 <= k < |b| && b0[k] ==> (b[k] <==> (start <= k < start + n ==> r0[k] > 1))
  {
  }

  class Allocator {
    const total: nat
    const words: nat
    const bitmap: array<bool>
    const refs: array<nat>
    var freeFrames: nat
    var usedFrames: nat
    var hint: nat
    var guarded: map<nat, nat>

    /** The counters are the bitmap's counts, no frame below the hint's word is free and a
        free frame has no references. */
    ghost predicate Counted()
      reads this, bitmap, refs
    {
      && total <= WORD_BITS * words
      && bitmap.Length == WORD_BITS * words
      && refs.Length == total
      && freeFrames == CountFree(bitmap[..total])
      && usedFrames == total - freeFrames
      && hint <= words
      && (forall k :: 0 <= k < WORD_BITS * hint && k < total ==> bitmap[k])
      && (forall k :: 0 <= k < total ==> refs[k] <= MAX_REFS)
      && (forall k :: 0 <= k < total && !bitmap[k] ==> refs[k] == 0)
    }

    /** What every operation keeps, but for the two that say otherwise: a protected frame
        is in use, too. */
    ghost predicate Valid()
      reads this, bitmap, refs
    {
      Counted() && forall f :: f in guarded ==> guarded[f] > 0 && (f < total ==> bitmap[f])
    }

    /** The bitmap over the frames that exist. */
    ghost function Bits(): (s: seq<bool>)
      requires total <= bitmap.Length
      reads bitmap
    {
      bitmap[..total]
    }

    ghost function Refs(): (s: seq<nat>)
      reads refs
    {
      refs[..]
    }

    /** Exactly the frames in use have references. Only RefDec can break this, by
        dropping the last reference of a frame without freeing it. */
    ghost predicate Tight()
      requires total <= bitmap.Length && refs.Length == total
      reads bitmap, refs
    {
      forall k :: 0 <= k < total ==> (bitmap[k] <==> refs[k] > 0)
    }

    lemma TightAt(f: nat)
      requires Valid() && Tight() && f < refs.Length
      ensures f < total && (bitmap[f] <==> refs[f] > 0)
    {
    }

    /** In a tight allocator the counts determine the bitmap and the counters. */
    twostate lemma SameRefsSameBits()
      requires old(Valid() && Tight()) && Valid() && Tight() && Refs() == old(Refs())
      ensures Bits() == old(Bits()) && freeFrames == old(freeFrames) && usedFrames == old(usedFrames)
    {
      forall k: nat | k < total
        ensures Bits()[k] == old(Bits())[k]
      {
        assert Refs()[k] == old(Refs())[k];
        assert bitmap[k] <==> refs[k] > 0;
        assert old(bitmap[k]) <==> old(refs[k]) > 0;
      }
    }

    constructor (inUse: seq<bool>)
      ensures Valid()
      ensures Tight()
      ensures fresh(bitmap) && fresh(refs)
      ensures total == |inUse| && Bits() == inUse && hint == 0 && guarded == map[]
      ensures forall f :: 0 <= f < total ==> refs[f] == if inUse[f] then 1 else 0
    {
      hide CountFree;
      var n := (|inUse| + 31) / 32;
      total, words := |inUse|, n;
      bitmap := new bool[32 * n](k requires k >= 0 => k < |inUse| ==> inUse[k]);
      refs := new nat[|inUse|](k requires 0 <= k < |inUse| => if inUse[k] then 1 else 0);
      hint, guarded := 0, map[];
      freeFrames, usedFrames := 0, 0;
      new;
      assert bitmap[..total] == inUse;
      var n0 := CountClear(bitmap, total);
      freeFrames := n0;
      usedFrames := total - n0;
    }

    /** The word-by-word search from the hint, then from word 0 up to the hint. */
    method FindFree() returns (r: Option<nat>)
      requires Valid()
      modifies this`hint
      ensures Valid()
      ensures r.Some? ==> r.value < total && !bitmap[r.value]
                          && forall k :: 0 <= k < r.value ==> bitmap[k]
      ensures r.None? ==> forall k :: 0 <= k < total ==> bitmap[k]
    {
      var w := hint;
      while w < words
        invariant old(hint) <= w <= words && hint == old(hint)
        invariant forall k :: 0 <= k < WORD_BITS * w && k < total ==> bitmap[k]
      {
        r := FirstFreeInWord(w);
        if r.Some? {
          hint := w;
          return;
        }
        w := w + 1;
      }
      // A second scan of the words below the hint finds nothing: Valid() says so.
      w := 0;
      while w < hint
        invariant 0 <= w <= hint == old(hint)
      {
        r := FirstFreeInWord(w);
        assert r.None?;
        w := w + 1;
      }
      r := None;
    }

    /** The scan of the 32 bits of one word. */
    method FirstFreeInWord(w: nat) returns (r: Option<nat>)
      requires Valid() && w < words
      ensures r.Some? ==> WORD_BITS * w <= r.value < WORD_BITS * (w + 1) && r.value < total
                          && !bitmap[r.value] && forall k :: WORD_BITS * w <= k < r.value ==> bitmap[k]
      ensures r.None? ==> forall k :: WORD_BITS * w <= k < WORD_BITS * (w + 1) && k < total ==> bitmap[k]
    {
      for bit := 0 to WORD_BITS
        invariant forall k :: WORD_BITS * w <= k < WORD_BITS * w + bit && k < total ==> bitmap[k]
      {
        var f := WORD_BITS * w + bit;
        if !bitmap[f] && f < total {
          return Some(f);
        }
      }
      return None;
    }

    /** Marks a free frame used, with one reference. */
    method Take(f: nat)
      requires Valid() && f < total && !bitmap[f]
      modifies this`freeFrames, this`usedFrames, bitmap, refs
      ensures Valid() && (old(Tight()) ==> Tight())
      ensures Bits() == old(Bits())[f := true] && Refs() == old(Refs())[f := 1]
      ensures freeFrames == old(freeFrames) - 1
    {
      CountFreeUpdate(bitmap[..total], f, true);
      bitmap[f] := true;
      freeFrames, usedFrames := freeFrames - 1, usedFrames + 1;
      refs[f] := 1;
      assert bitmap[..total] == old(bitmap[..total])[f := true];
    }

    /** Marks a frame free once nothing refers to it. */
    method Release(f: nat)
      requires Valid() && f < total && bitmap[f] && refs[f] == 0 && f !in guarded
      modifies this`hint, this`freeFrames, this`usedFrames, bitmap
      ensures Valid() && freeFrames == old(freeFrames) + 1
      ensures Bits() == old(Bits())[f := false]
    {
      CountFreeUpdate(bitmap[..total], f, false);
      bitmap[f] := false;
      freeFrames, usedFrames := freeFrames + 1, usedFrames - 1;
      if f / WORD_BITS < hint {
        hint := f / WORD_BITS;
      }
      assert bitmap[..total] == old(bitmap[..total])[f := false];
    }

    method Alloc() returns (r: Option<nat>)
      requires Valid()
      modifies this`hint, this`freeFrames, this`usedFrames, bitmap, refs
      ensures Valid() && (old(Tight()) ==> Tight())
      ensures r.Some? <==> old(freeFrames) > 0
      ensures freeFrames == if r.Some? then old(freeFrames) - 1 else old(freeFrames)
      ensures r.None? ==> Bits() == old(Bits()) && Refs() == old(Refs()) && forall k :: 0 <= k < total ==> bitmap[k]
      ensures r.Some? ==> r.value < total == refs.Length && !old(bitmap[r.value]) && old(refs[r.value]) == 0
                          && (forall k :: 0 <= k < r.value ==> old(bitmap[k]))
                          && Bits() == old(Bits())[r.value := true]
                          && Refs() == old(Refs())[r.value := 1]
    {
      r := FindFree();
      if r.None? {
        CountNone(bitmap[..total]);
        return;
      }
      Take(r.value);
    }

    /** pmm_free_frame: drops one reference and releases the frame with the last
        one. Frame 0, frames outside memory, free frames and protected frames are
        left alone. */
    method Free(f: nat)
      requires Valid()
      modifies this`hint, this`freeFrames, this`usedFrames, bitmap, refs
      ensures Valid() && (old(Tight()) ==> Tight())
      ensures f == 0 || f >= total || !old(bitmap[f]) || f in guarded ==>
                Bits() == old(Bits()) && Refs() == old(Refs()) && freeFrames == old(freeFrames)
      ensures 0 < f < total && old(bitmap[f]) && f !in guarded ==>
                && freeFrames == old(freeFrames) + One(old(refs[f]) <= 1)
                && Refs() == old(Refs())[f := if old(refs[f]) == 0 then 0 else old(refs[f]) - 1]
                && Bits() == old(Bits())[f := old(refs[f]) > 1]
    {
      if f == 0 || f >= total || !bitmap[f] || f in guarded {
        return;
      }
      if refs[f] != 0 {
        refs[f] := refs[f] - 1;
        if refs[f] > 0 {
          return;
        }
      }
      Release(f);
    }

    /** pmm_frame_ref_inc: the count sticks at 65535. It does not look at the bitmap, so a
        free frame gets a count. */
    method RefInc(f: nat)
      requires Valid()
      modifies refs
      ensures Valid() <==> f == 0 || f >= total || bitmap[f]
      ensures Valid() && old(Tight()) ==> Tight()
      ensures f == 0 || f >= total ==> Refs() == old(Refs())
      ensures 0 < f < total ==>
                Refs() == old(Refs())[f := if old(refs[f]) == MAX_REFS then MAX_REFS else old(refs[f]) + 1]
    {
      if f == 0 || f >= total || refs[f] == MAX_REFS {
        return;
      }
      refs[f] := refs[f] + 1;
    }

    /** pmm_frame_ref_dec: never releases the frame. */
    method RefDec(f: nat)
      requires Valid()
      modifies refs
      ensures Valid() && (old(Tight()) && f < total && old(refs[f]) != 1 ==> Tight())
      ensures f == 0 || f >= total ==> Refs() == old(Refs())
      ensures 0 < f < total ==> Refs() == old(Refs())[f := if old(refs[f]) == 0 then 0 else old(refs[f]) - 1]
    {
      if f == 0 || f >= total || refs[f] == 0 {
        return;
      }
      refs[f] := refs[f] - 1;
    }

    /** The table of protected frames; a full one refuses new frames. */
    method Guard(f: nat)
      requires Valid() && 0 < f && (f < total ==> bitmap[f])
      modifies this`guarded
      ensures Valid()
      ensures guarded == Guarded(old(guarded), f)
    {
      if f in guarded {
        guarded := guarded[f := guarded[f] + 1];
      } else if |guarded| < MAX_PROTECTED {
        guarded := guarded[f := 1];
      }
    }

    /** pmm_protect_frame: a free frame is taken out of circulation, even if the table is
        full. */
    method Protect(f: nat)
      requires Valid()
      modifies this`guarded, this`freeFrames, this`usedFrames, bitmap, refs
      ensures Valid() && (old(Tight()) ==> Tight())
      ensures guarded == if f == 0 then old(guarded) else Guarded(old(guarded), f)
      ensures if 0 < f < total && !old(bitmap[f])
              then Bits() == old(Bits())[f := true] && Refs() == old(Refs())[f := 1]
              else Bits() == old(Bits()) && Refs() == old(Refs())
    {
      if f == 0 {
        return;
      }
      if f < total && !bitmap[f] {
        Take(f);
      }
      Guard(f);
    }

    method Unprotect(f: nat)
      requires Valid()
      modifies this`guarded
      ensures Valid()
      ensures f in old(guarded) ==> old(guarded)[f] > 0
      ensures guarded == Unguarded(old(guarded), f)
    {
      if f !in guarded {
        return;
      }
      if guarded[f] == 1 {
        guarded := guarded - {f};
      } else {
        guarded := guarded[f := guarded[f] - 1];
      }
    }

    /** The search of pmm_alloc_frames and pmm_alloc_frames_zone. */
    method FindRun(lo: nat, hi: nat, count: nat) returns (r: Option<nat>)
      requires Valid() && 0 < count && lo <= hi <= total
      ensures r.Some? ==> lo <= r.value && r.value + count <= hi && FreeRun(Bits(), r.value, count)
                          && forall s :: lo <= s < r.value ==> !FreeRun(Bits(), s, count)
      ensures r.None? ==> forall s :: lo <= s && s + count <= hi ==> !FreeRun(Bits(), s, count)
    {
      var start, run := lo, 0;
      for i := lo to hi
        invariant run < count && lo <= start && start + run <= i
        invariant run > 0 ==> start + run == i
        invariant run == 0 || FreeRun(Bits(), start, run)
        invariant forall s :: lo <= s < (if run == 0 then i else start) && s + count <= total ==>
                    !FreeRun(Bits(), s, count)
      {
        if !bitmap[i] {
          if run == 0 {
            start := i;
          }
          run := run + 1;
          assert FreeRun(Bits(), start, run);
          if run >= count {
            return Some(start);
          }
        } else {
          forall s | lo <= s < i + 1 && s + count <= total
            ensures !FreeRun(Bits(), s, count)
          {
            if (s >= start && run > 0) || s == i {
              assert s <= i < s + count && Bits()[i];
            }
          }
          run := 0;
        }
      }
      forall s | lo <= s && s + count <= hi
        ensures !FreeRun(Bits(), s, count)
      {
        assert run > 0 ==> s < start;
      }
      return None;
    }

    /** Marks the run found by FindRun: every frame used once. */
    method TakeRun(start: nat, count: nat)
      requires Valid() && start + count <= total && FreeRun(Bits(), start, count)
      modifies this`freeFrames, this`usedFrames, bitmap, refs
      ensures Valid()
      ensures Bits() == MarkUsed(old(Bits()), start, count)
      ensures OnceCounted(old(Refs()), Refs(), start, count)
    {
      for i := 0 to count
        invariant Valid()
        invariant Bits() == MarkUsed(old(Bits()), start, i)
        invariant forall k :: 0 <= k < total ==> refs[k] == if start <= k < start + i then 1 else old(refs[k])
      {
        var f := start + i;
        assert !bitmap[f] by { assert !Bits()[f]; }
        Take(f);
      }
    }

    /** pmm_alloc_frames_zone over the frames lo .. hi-1 of a zone; pmm_alloc_frames
        is the zone of all frames, for counts other than 1. */
    method AllocRun(lo: nat, hi: nat, count: nat) returns (r: Option<nat>)
      requires Valid()
      modifies this`freeFrames, this`usedFrames, bitmap, refs
      ensures Valid()
      ensures var top := if hi <= total then hi else total;
              if r.None? then
                && Bits() == old(Bits()) && Refs() == old(Refs())
                && (count == 0 || forall s :: lo <= s && s + count <= top ==> !FreeRun(Bits(), s, count))
              else
                && 0 < count && lo <= r.value && r.value + count <= top && FreeRun(old(Bits()), r.value, count)
                && (forall s :: lo <= s < r.value ==> !FreeRun(old(Bits()), s, count))
                && Bits() == MarkUsed(old(Bits()), r.value, count) && OnceCounted(old(Refs()), Refs(), r.value, count)
    {
      var top := if hi <= total then hi else total;
      if count == 0 || lo >= top {
        return None;
      }
      r := FindRun(lo, top, count);
      if r.Some? {
        TakeRun(r.value, count);
      }
    }

    /** Whether the frames from `start` on are all free. */
    method AllFree(start: nat, count: nat) returns (free: bool)
      requires start + count <= total <= bitmap.Length
      ensures free <==> FreeRun(Bits(), start, count)
    {
      for i := 0 to count
        invariant FreeRun(Bits(), start, i)
      {
        if bitmap[start + i] {
          assert Bits()[start + i];
          return false;
        }
      }
      return true;
    }

    /** find_huge_page_frames and pmm_alloc_huge_page: 512 free frames at a multiple
        of 512, the first such block in lo .. hi-1. */
    method AllocHuge(lo: nat, hi: nat) returns (r: Option<nat>)
      requires Valid() && hi <= total
      modifies this`freeFrames, this`usedFrames, bitmap, refs
      ensures Valid()
      ensures if r.None? then
                && Bits() == old(Bits()) && Refs() == old(Refs())
                && forall b {:trigger b * HUGE_FRAMES} ::
                      lo <= b * HUGE_FRAMES && (b + 1) * HUGE_FRAMES <= hi ==>
                        !FreeRun(Bits(), b * HUGE_FRAMES, HUGE_FRAMES)
              else
                && lo <= r.value && r.value + HUGE_FRAMES <= hi && r.value % HUGE_FRAMES == 0
                && FreeRun(old(Bits()), r.value, HUGE_FRAMES)
                && (forall b {:trigger b * HUGE_FRAMES} ::
                      lo <= b * HUGE_FRAMES < r.value ==> !FreeRun(old(Bits()), b * HUGE_FRAMES, HUGE_FRAMES))
                && Bits() == MarkUsed(old(Bits()), r.value, HUGE_FRAMES)
                && OnceCounted(old(Refs()), Refs(), r.value, HUGE_FRAMES)
    {
      hide FreeRun, CountFree;
      var block := (lo + HUGE_FRAMES - 1) / HUGE_FRAMES;
      while (block + 1) * HUGE_FRAMES <= hi
        invariant lo <= block * HUGE_FRAMES
        invariant Bits() == old(Bits()) && Refs() == old(Refs()) && Valid()
        invariant forall b {:trigger b * HUGE_FRAMES} ::
              lo <= b * HUGE_FRAMES && b < block && b * HUGE_FRAMES + HUGE_FRAMES <= hi ==>
                !FreeRun(Bits(), b * HUGE_FRAMES, HUGE_FRAMES)
        decreases hi - block * HUGE_FRAMES
      {
        var start := block * HUGE_FRAMES;
        var free := AllFree(start, HUGE_FRAMES);
        if free {
          TakeRun(start, HUGE_FRAMES);
          return Some(start);
        }
        block := block + 1;
      }
      return None;
    }

    /** One turn of the loop of pmm_free_huge_page. */
    method FreeOne(f: nat)
      requires f < total <= bitmap.Length && refs.Length == total
      requires freeFrames == CountFree(bitmap[..total]) && usedFrames == total - freeFrames
      modifies this`freeFrames, this`usedFrames, bitmap, refs
      ensures freeFrames == CountFree(bitmap[..total]) && usedFrames == total - freeFrames
      ensures Bits() == old(Bits())[f := old(bitmap[f]) && old(refs[f]) > 1]
      ensures Refs() == old(Refs())[f := LessOne(old(bitmap[f]), old(refs[f]))]
    {
      if !bitmap[f] {
        return;
      }
      if refs[f] > 1 {
        refs[f] := refs[f] - 1;
        return;
      }
      CountFreeUpdate(bitmap[..total], f, false);
      refs[f] := 0;
      bitmap[f] := false;
      freeFrames, usedFrames := freeFrames + 1, usedFrames - 1;
      assert bitmap[..total] == old(bitmap[..total])[f := false];
    }

    /** The loop of pmm_free_huge_page over the first n of its frames. */
    method FreeEach(start: nat, n: nat)
      requires start + n <= total <= bitmap.Length && refs.Length == total
      requires freeFrames == CountFree(bitmap[..total]) && usedFrames == total - freeFrames
      modifies this`freeFrames, this`usedFrames, bitmap, refs
      ensures freeFrames == CountFree(bitmap[..total]) && usedFrames == total - freeFrames
      ensures Dropped(old(Bits()), old(Refs()), Bits(), Refs(), start, n)
    {
      for i := 0 to n
        invariant freeFrames == CountFree(bitmap[..total]) && usedFrames == total - freeFrames
        invariant Dropped(old(Bits()), old(Refs()), Bits(), Refs(), start, i)
      {
        DroppedNext(old(Bits()), old(Refs()), Bits(), Refs(), start, i);
        FreeOne(start + i);
      }
    }

    /** pmm_free_huge_page of the frames from `start` on: every one loses a reference, and is
        free with the last one. Nothing looks at the protected frames, so one of them may go
        with its last reference. */
    method FreeHuge(start: nat)
      requires Valid()
      modifies this`hint, this`freeFrames, this`usedFrames, bitmap, refs
      ensures Counted() && (old(Tight()) ==> Tight())
      ensures start == 0 || start % HUGE_FRAMES != 0 || start + HUGE_FRAMES > total ==>
                Valid() && Bits() == old(Bits()) && Refs() == old(Refs())
      ensures 0 < start && start % HUGE_FRAMES == 0 && start + HUGE_FRAMES <= total ==>
                && Dropped(old(Bits()), old(Refs()), Bits(), Refs(), start, HUGE_FRAMES)
                && (Valid() <==> forall k :: k in guarded && start <= k < start + HUGE_FRAMES ==> old(Refs())[k] > 1)
    {
      hide Dropped, CountFree;
      if start % HUGE_FRAMES != 0 || start == 0 || start + HUGE_FRAMES > total {
        return;
      }
      FreeEach(start, HUGE_FRAMES);
      if start / WORD_BITS < hint {
        hint := start / WORD_BITS;
      }
      assert WORD_BITS * hint <= start;
      DroppedKeeps(old(Bits()), old(Refs()), Bits(), Refs(), start, HUGE_FRAMES);
    }
  }
}
