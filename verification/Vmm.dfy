/** The address-space operations of src/mm/vmm.c (i686) over the frame allocator. */
module Vmm {
  import opened Common
  import opened Cow
  import opened Frames

  const MAX_DIRECTORIES := 64
  const PDE_SPAN := 0x40_0000
  const USER_END := 0x8000_0000

  // ------------------------------------------------------------- protection

  /** Only directories, tables and boot-time frames are protected, a directory only
      while it is registered; the registered directories are alive and distinct. */
  ghost predicate Guards(use: map<nat, Use>, guarded: map<nat, nat>, active: seq<nat>, boot: nat) {
    && boot in use && use[boot].Reserved?
    && (forall f :: f in guarded ==>
          && f in use && !use[f].Page?
          && (use[f].Reserved? || guarded[f] == 1)
          && (use[f].Directory? ==> f in active))
    && (forall d :: d in active ==> d in use && (d == boot || use[d].Directory?))
    && (forall x, y :: 0 <= x < y < |active| ==> active[x] != active[y])
  }

  lemma GuardsDropPage(use: map<nat, Use>, g: map<nat, nat>, active: seq<nat>, boot: nat, f: nat)
    requires Guards(use, g, active, boot) && f in use && use[f].Page?
    ensures Guards(use - {f}, g, active, boot) && f !in g
  {
  }

  lemma GuardsAdd(use: map<nat, Use>, g: map<nat, nat>, active: seq<nat>, boot: nat, f: nat, u: Use)
    requires Guards(use, g, active, boot) && f !in use
    ensures Guards(use[f := u], g, active, boot) && f !in g
  {
  }

  lemma GuardsStore(use: map<nat, Use>, g: map<nat, nat>, active: seq<nat>, boot: nat, f: nat, u: Use)
    requires Guards(use, g, active, boot) && f in use && use[f].Page? && u.Page?
    ensures Guards(use[f := u], g, active, boot)
  {
  }

  lemma GuardsUnhold(use: map<nat, Use>, g: map<nat, nat>, active: seq<nat>, boot: nat, f: nat, u: Use)
    requires Guards(use, g, active, boot) && f in use && use[f].Reserved? && f != boot && f !in g
    ensures Guards(use[f := u], g, active, boot) && Guards(use - {f}, g, active, boot)
  {
  }

  lemma GuardsDropTable(use: map<nat, Use>, g: map<nat, nat>, active: seq<nat>, boot: nat, t: nat)
    requires Guards(use, g, active, boot) && t in use && use[t].Table?
    ensures t in g ==> g[t] == 1
    ensures t !in Unguarded(g, t) && Guards(use - {t}, Unguarded(g, t), active, boot)
  {
  }

  lemma GuardsProtect(use: map<nat, Use>, g: map<nat, nat>, active: seq<nat>, boot: nat, f: nat)
    requires Guards(use, g, active, boot) && f in use && !use[f].Page? && f !in g
    requires use[f].Directory? ==> f in active
    ensures Guards(use, Guarded(g, f), active, boot)
  {
  }

  /** A copy into a free frame f. */
  lemma Unshared(m: Mem, k: (nat, nat), f: nat)
    requires Inv(m, 0) && k in m.ptes && m.ptes[k].cow && f < |m.refs| && m.refs[f] == 0
    requires m.ptes[k].frame < |m.refs| && m.refs[m.ptes[k].frame] > 1
    ensures f !in m.use && IsPage(m, m.ptes[k].frame) && Inv(Unshare(m, k, f), 0)
    ensures Spaces(Unshare(m, k, f)) == Spaces(m) && SameReserved(m, Unshare(m, k, f))
    ensures var from := m.ptes[k].frame; Unshare(m, k, f).refs == m.refs[f := 1][from := m.refs[from] - 1]
  {
    hide Inv, Spaces, SameReserved;
    UnshareKeeps(m, k, f);
    UnshareSpaces(m, k, f);
    FreeNotUsed(m, f);
    SameReservedUnshare(m, k, f);
  }

  /** From s over the new table u in a to the copied entries in m: with the table linked,
      d shows what src shows, one table further. */
  lemma Cloned(m0: Mem, s: Mem, a: Mem, m: Mem, src: nat, d: nat, t: nat, u: nat, i: nat)
    requires Forking(m0, s, d) && IsDir(s, src) && IsDir(s, d) && src != d
    requires (src, i) in s.pdes && s.pdes[(src, i)] == t && (d, i) !in s.pdes
    requires u < |s.refs| && u !in s.use && a == NewTable(s, u, d, i) && Spaces(a) == Spaces(s)
    requires SpaceOf(s, d) == Below(SpaceOf(s, src), i) && forall j: nat :: (u, j) !in a.ptes
    requires Inv(m, u) && m.use == a.use && m.pdes == a.pdes && Copied(a.ptes, m.ptes, t, u, PTES)
    requires Spaces(m) == Spaces(a) && SameReserved(a, m) && Roomy(m, MAX_REFS, src, i + 1, 0)
    ensures Spaces(Link(m, u)) == Spaces(s)[d := Below(SpaceOf(s, src), i + 1)]
    ensures Forking(m0, Link(m, u), d) && Roomy(Link(m, u), MAX_REFS, src, i + 1, 0)
    ensures Link(m, u).pdes.Keys == s.pdes.Keys + {(d, i)}
  {
    hide Inv, Spaces, SpaceOf, Below, Forking, Copied, SameReserved, Roomy;
    CopiedSame(m, t, u, a.ptes);
    SpacesAt(s, m, src);
    SpacesAt(s, m, d);
    LinkShows(m, src, d, t, u, i);
    RoomySame(m, Link(m, u), MAX_REFS, src, i + 1, 0);
    SameReservedLink(s, a, m, u, d, i);
    ForkingStep(m0, s, Link(m, u), d, i, t, u);
  }

  /** The page of directory d at k has further references. */
  ghost predicate Shared(m: Mem, d: nat, k: (nat, nat)) {
    (d, k.0) in m.pdes && var e := (m.pdes[(d, k.0)], k.1);
    e in m.ptes && m.ptes[e].frame < |m.refs| && m.refs[m.ptes[e].frame] > 1
  }

  /** A store there takes a frame for a copy. */
  ghost predicate MustCopy(m: Mem, d: nat, k: (nat, nat)) {
    Shared(m, d, k) && !m.ptes[(m.pdes[(d, k.0)], k.1)].write
  }

  lemma GuardsStart(use: map<nat, Use>, boot: nat)
    requires boot in use && forall f :: f in use ==> use[f].Reserved?
    ensures Guards(use, Guarded(map[], boot), [boot], boot) && Guarded(map[], boot) == map[boot := 1]
  {
  }

  /** With all used frames reserved and no directory, nothing is shown. */
  lemma StartOk(use: map<nat, Use>, refs: seq<nat>)
    requires 0 in use && forall f :: f in use ==> use[f].Reserved?
    requires forall f: nat :: f in use <==> f < |refs| && refs[f] > 0
    ensures var m := Mem(use, map[], map[], refs, multiset{}); Inv(m, 0) && Spaces(m) == map[]
  {
    var m := Mem(use, map[], map[], refs, multiset{});
    forall f: nat ensures FrameOk(m, 0, f) { }
  }

  lemma BootFrames(a: Allocator)
    requires a.Valid() && a.Tight()
    ensures a.refs.Length == a.total <= a.bitmap.Length
    ensures forall f :: 0 <= f < a.total ==> (a.Refs()[f] > 0 <==> a.bitmap[f])
  {
  }

  lemma GuardsRegister(use: map<nat, Use>, g: map<nat, nat>, active: seq<nat>, boot: nat, d: nat)
    requires Guards(use, g, active, boot) && d in use && use[d].Directory? && d !in active
    ensures d !in g && Guards(use, Guarded(g, d), active + [d], boot)
  {
    assert forall e :: e in active ==> e in active + [d];
    assert d in active + [d];
  }

  lemma GuardsUnregister(use: map<nat, Use>, g: map<nat, nat>, active: seq<nat>, boot: nat, i: nat)
    requires Guards(use, g, active, boot) && i < |active| && active[i] != boot
    ensures var d := active[i]; var rest := SwappedOut(active, i);
            && (d in g ==> g[d] == 1)
            && d !in Unguarded(g, d) && d !in rest && Guards(use, Unguarded(g, d), rest, boot)
  {
    var last := |active| - 1;
    var rest := SwappedOut(active, i);
    forall e | e in active && e != active[i]
      ensures e in rest
    {
      var x :| 0 <= x <= last && active[x] == e;
      assert rest[if x == last then i else x] == e;
    }
  }

  lemma GuardsDropDir(use: map<nat, Use>, g: map<nat, nat>, active: seq<nat>, boot: nat, d: nat)
    requires Guards(use, g, active, boot) && d in use && use[d].Directory? && d !in active
    ensures d !in g && Guards(use - {d}, g, active, boot)
  {
  }

  /** How many of its first n page tables a directory has. */
  ghost function Tables(keys: set<(nat, nat)>, d: nat, n: nat): nat {
    if n == 0 then 0 else Tables(keys, d, n - 1) + One((d, n - 1) in keys)
  }

  /** The tables once directory c has got a copy of each of p's. */
  ghost function WithCopies(keys: set<(nat, nat)>, p: nat, c: nat): set<(nat, nat)> {
    keys + set k | k in keys && k.0 == p :: (c, k.1)
  }

  /** The same after the first i slots. */
  ghost predicate CopiedUpTo(keys: set<(nat, nat)>, now: set<(nat, nat)>, p: nat, c: nat, i: nat) {
    forall k :: k in now <==> k in keys || (k.0 == c && k.1 < i && (p, k.1) in keys)
  }

  lemma NoneCopied(keys: set<(nat, nat)>, p: nat, c: nat)
    ensures CopiedUpTo(keys, keys, p, c, 0)
  {
  }

  lemma CopiedAt(keys: set<(nat, nat)>, now: set<(nat, nat)>, p: nat, c: nat, i: nat)
    requires CopiedUpTo(keys, now, p, c, i) && p != c && (c, i) !in keys
    ensures (c, i) !in now && ((p, i) in now <==> (p, i) in keys)
  {
  }

  lemma CopiedNext(keys: set<(nat, nat)>, was: set<(nat, nat)>, now: set<(nat, nat)>, p: nat, c: nat, i: nat)
    requires CopiedUpTo(keys, was, p, c, i) && p != c
    requires forall k :: k in now <==> k in was || (k == (c, i) && (p, i) in was)
    ensures CopiedUpTo(keys, now, p, c, i + 1)
  {
    forall k ensures k in now <==> k in keys || (k.0 == c && k.1 < i + 1 && (p, k.1) in keys) {
      assert k in was <==> k in keys || (k.0 == c && k.1 < i && (p, k.1) in keys);
      assert (p, i) in was <==> (p, i) in keys;
    }
  }

  lemma CopiedAll(keys: set<(nat, nat)>, now: set<(nat, nat)>, p: nat, c: nat, n: nat)
    requires CopiedUpTo(keys, now, p, c, n) && forall x :: (p, x) in keys ==> x < n
    ensures now == WithCopies(keys, p, c)
  {
  }

  lemma TablesStep(keys: set<(nat, nat)>, d: nat, n: nat)
    ensures Tables(keys, d, 0) == 0 && Tables(keys, d, n + 1) == Tables(keys, d, n) + One((d, n) in keys)
  {
  }

  lemma {:induction false} TablesGrow(keys: set<(nat, nat)>, d: nat, n: nat, m: nat)
    requires n <= m
    ensures Tables(keys, d, n) <= Tables(keys, d, m)
    decreases m - n
  {
    if n < m { TablesGrow(keys, d, n + 1, m); }
  }

  /** The reference that mapping page k of directory d loses. */
  ghost function LostIn(m: Mem, d: nat, k: (nat, nat)): multiset<nat> {
    if (d, k.0) in m.pdes then Lost(m, (m.pdes[(d, k.0)], k.1)) else multiset{}
  }

  /** Just one if the page is there, and none if not. */
  lemma LostOne(m: Mem, d: nat, k: (nat, nat))
    requires Inv(m, 0)
    ensures |LostIn(m, d, k)| == One(k in SpaceOf(m, d))
  {
    ShownIff(m, d, k);
  }

  lemma NoneLost(m: Mem, d: nat, k: (nat, nat))
    ensures !((d, k.0) in m.pdes && (m.pdes[(d, k.0)], k.1) in m.ptes) ==> LostIn(m, d, k) == multiset{}
  {
  }

  lemma LostKept(m: Mem, n: Mem, d: nat, k: (nat, nat))
    requires n.ptes == m.ptes && (d, k.0) in n.pdes
    requires (d, k.0) in m.pdes ==> n.pdes[(d, k.0)] == m.pdes[(d, k.0)]
    requires (d, k.0) !in m.pdes ==> forall j :: (n.pdes[(d, k.0)], j) !in n.ptes
    ensures LostIn(m, d, k) == Lost(n, (n.pdes[(d, k.0)], k.1))
  {
  }

  /** The last element takes the place of element i. */
  function SwappedOut(s: seq<nat>, i: nat): seq<nat>
    requires i < |s|
  {
    s[i := s[|s| - 1]][..|s| - 1]
  }

  lemma Fewer(a: map<nat, Use>, b: map<nat, Use>, d: nat)
    requires d in a && d !in b && forall f :: f in b ==> f in a
    ensures |b| < |a|
  {
    assert b.Keys <= a.Keys - {d};
    FewerKeys(b.Keys, a.Keys - {d});
  }

  lemma FewerKeys(a: set<nat>, b: set<nat>)
    requires a <= b
    ensures |a| <= |b|
  {
    assert |b - a| == |b| - |a|;
  }

  lemma HoldUndone(m: Mem, f: nat)
    requires f < |m.refs| && m.refs[f] == 0 && f !in m.use
    ensures var h := Hold(m, f); h.(use := h.use - {f}, refs := h.refs[f := 0]) == m
  {
  }

  lemma OnlyThere(s: map<nat, Space>, d: nat, v: Space)
    ensures s[d := v] - {d} == s - {d}
  {
  }

  lemma SwapOut(s: seq<nat>, i: nat)
    requires i < |s|
    ensures multiset(SwappedOut(s, i)) == multiset(s) - multiset{s[i]}
  {
    var last := |s| - 1;
    assert s == s[..last] + [s[last]];
    if i < last {
      assert s[i := s[last]][..last] == s[..last][i := s[last]];
    } else {
      assert s[i := s[last]][..last] == s[..last];
    }
  }

  // --------------------------------------------- memory as processes see it

  /** Page directory index and page table index of a user address. */
  function PageOf(addr: nat): (nat, nat) {
    (addr / PDE_SPAN, addr / PAGE % PTES)
  }

  ghost predicate MayWrite(s: map<nat, Space>, d: nat, addr: nat) {
    d in s && PageOf(addr) in s[d] && s[d][PageOf(addr)].writable && |s[d][PageOf(addr)].bytes| == PAGE
  }

  ghost function Stored(s: Space, k: (nat, nat), off: nat, b: byte): Space
    requires k in s && off < |s[k].bytes|
  {
    s[k := s[k].(bytes := s[k].bytes[off := b])]
  }

  ghost function Written(s: map<nat, Space>, d: nat, addr: nat, b: byte): map<nat, Space>
    requires MayWrite(s, d, addr)
  {
    s[d := Stored(s[d], PageOf(addr), addr % PAGE, b)]
  }

  // ---------------------------------------------------------- address spaces

  class AddressSpaces {
    const frames: Allocator
    const boot: nat
    var use: map<nat, Use>
    var pdes: map<(nat, nat), nat>
    var ptes: map<(nat, nat), Pte>
    var active: seq<nat>
    var current: nat
    ghost var lost: multiset<nat>  // references whose entry was mapped over

    ghost function State(): Mem
      reads this, frames.refs
    {
      Mem(use, pdes, ptes, frames.Refs(), lost)
    }

    /** The current directory has a present entry for a user address, and that entry. */
    ghost predicate Present(addr: nat)
      reads this
    {
      (current, addr / PDE_SPAN) in pdes && (pdes[(current, addr / PDE_SPAN)], addr / PAGE % PTES) in ptes
    }

    ghost function Entry(addr: nat): Pte
      requires Present(addr)
      reads this
    {
      ptes[(pdes[(current, addr / PDE_SPAN)], addr / PAGE % PTES)]
    }

    ghost function References(addr: nat): nat
      reads this, frames.refs
    {
      if Present(addr) && Entry(addr).frame < frames.refs.Length then frames.refs[Entry(addr).frame] else 0
    }

    ghost predicate Good(loose: nat)
      reads this, frames, frames.bitmap, frames.refs
    {
      && frames.Valid() && frames.Tight()
      && Inv(State(), loose)
      && Guards(use, frames.guarded, active, boot)
    }

    /** What every operation keeps. */
    ghost predicate Valid()
      reads this, frames, frames.bitmap, frames.refs
    {
      Good(0) && (current == boot || IsDir(State(), current))
    }

    /** The kernel at boot: no process yet; the boot directory is registered. */
    constructor (frames: Allocator, boot: nat)
      requires frames.Valid() && frames.Tight() && frames.guarded == map[] && 0 < boot < frames.total
      requires frames.bitmap[0] && frames.bitmap[boot]
      modifies frames`guarded
      ensures Valid() && this.frames == frames && this.boot == boot && Spaces(State()) == map[]
      ensures active == [boot] && frames.guarded == map[boot := 1] && lost == multiset{}
    {
      hide Allocator.Valid, Inv, Guards, Spaces;
      BootFrames(frames);
      this.frames, this.boot := frames, boot;
      use := map f: nat | 0 <= f < frames.total && frames.bitmap[f] :: Reserved;
      pdes, ptes, active, current, lost := map[], map[], [boot], boot, multiset{};
      new;
      StartOk(use, frames.Refs());
      GuardsStart(use, boot);
      frames.Guard(boot);
    }

    // ------------------------------------------------------------------- fork

    method ShareEntry(t: nat, u: nat, j: nat)
      requires Good(u) && t != u && (t, j) in ptes && (u, j) !in ptes
      requires IsTable(State(), t) && IsTable(State(), u) && use[t].slot == use[u].slot
      requires ptes[(t, j)].frame < frames.refs.Length ==> frames.refs[ptes[(t, j)].frame] < MAX_REFS
      modifies this`ptes, frames.refs
      ensures Good(u)
      ensures Spaces(State()) == old(Spaces(State())) && SameReserved(old(State()), State())
      ensures old(ptes[(t, j)].frame < |frames.Refs()|) && State() == old(Share(State(), t, u, j))
      ensures ptes == old(ptes)[(t, j) := Restrict(old(ptes[(t, j)]))][(u, j) := Restrict(old(ptes[(t, j)]))]
    {
      hide Allocator.Valid, Allocator.Tight, Inv, Spaces, Guards;
      ghost var m := State();
      ShareKeeps(m, t, u, j);
      ShareSpaces(m, t, u, j);
      EntryRefs(m, u, (t, j));
      frames.TightAt(ptes[(t, j)].frame);
      var p := ptes[(t, j)];
      if p.write {
        p := p.(write := false, cow := true);
        ptes := ptes[(t, j) := p];
      }
      ptes := ptes[(u, j) := p];
      frames.RefInc(p.frame);
      assert State() == Share(m, t, u, j);
    }

    /** The inner loop of clone: every present entry of table t is shared with the
        empty, not yet linked table u of another directory. */
    method CopyTable(t: nat, u: nat, ghost src: nat, ghost i: nat)
      requires Good(u) && t != u
      requires t in use && use[t] == Table(src, i) && IsTable(State(), u) && use[u].slot == i && use[u].dir != src
      requires forall j: nat :: (u, j) !in ptes
      requires Roomy(State(), MAX_REFS, src, i, 0)
      modifies this`ptes, frames.refs
      ensures Good(u) && Roomy(State(), MAX_REFS, src, i + 1, 0)
      ensures Spaces(State()) == old(Spaces(State())) && SameReserved(old(State()), State())
      ensures Copied(old(ptes), ptes, t, u, PTES)
    {
      hide Allocator.Valid, Allocator.Tight, Inv, Spaces, Guards, Copied, SameReserved, Roomy, Ahead;
      var j := 0;
      CopiedNone(ptes, t, u);
      SameReservedSelf(State());
      while j < PTES
        invariant 0 <= j <= PTES && Good(u)
        invariant Spaces(State()) == old(Spaces(State())) && SameReserved(old(State()), State())
        invariant Copied(old(ptes), ptes, t, u, j) && Roomy(State(), MAX_REFS, src, i, j)
      {
        CopiedStep(old(ptes), ptes, t, u, j);
        if (t, j) in ptes {
          ghost var m := State();
          RoomyAt(m, MAX_REFS, src, i, j, t);
          ShareEntry(t, u, j);
          RoomyShare(m, MAX_REFS, src, t, u, i, j);
          SameReservedTrans(old(State()), m, State());
        } else {
          RoomyStep(State(), MAX_REFS, src, i, j, i, j + 1);
        }
        j := j + 1;
      }
      RoomySlot(State(), u, MAX_REFS, src, i);
    }

    /** A fresh directory frame, not registered yet. */
    method AllocDirectory() returns (r: Option<nat>)
      requires Good(0)
      modifies this`use, frames`hint, frames`freeFrames, frames`usedFrames, frames.bitmap, frames.refs
      ensures Good(0) && (r.Some? <==> old(frames.freeFrames) > 0)
      ensures frames.freeFrames == old(frames.freeFrames) - One(r.Some?)
      ensures r.None? ==> State() == old(State()) && frames.Bits() == old(frames.Bits())
      ensures r.Some? ==> && r.value < |old(frames.Refs())| && old(frames.Refs())[r.value] == 0 && r.value !in old(use)
                          && State() == NewDir(old(State()), r.value)
    {
      hide Allocator.Valid, Allocator.Tight, Inv, Guards, Spaces;
      r := frames.Alloc();
      if r.None? {
        frames.SameRefsSameBits();
        return;
      }
      var f := r.value;
      NewDirKeeps(old(State()), f);
      GuardsAdd(use, frames.guarded, active, boot, f, Directory);
      use := use[f := Directory];
      assert State() == NewDir(old(State()), f);
    }

    // ---------------------------------------------------------------- release

    /** One turn of the inner loop of vmm_free_page_directory. The words of a table
        under tear-down are dropped as they are visited; its frame goes right after. */
    method DropEntry(t: nat, j: nat)
      requires Good(0) && (t, j) in ptes
      modifies this`ptes, this`use, frames`hint, frames`freeFrames, frames`usedFrames, frames.bitmap, frames.refs
      ensures Good(0)
      ensures old(ptes[(t, j)].frame < |frames.Refs()| && frames.Refs()[ptes[(t, j)].frame] > 0)
      ensures State() == old(Drop(State(), (t, j)))
      ensures frames.freeFrames == old(frames.freeFrames) + One(old(frames.Refs()[ptes[(t, j)].frame]) == 1)
    {
      hide Allocator.Valid, Allocator.Tight, Spaces, Inv, Guards;
      ghost var m := State();
      var f := ptes[(t, j)].frame;
      EntryRefs(m, 0, (t, j));
      DropKeeps(m, 0, (t, j));
      FrameZero(m, 0, f);
      frames.TightAt(f);
      GuardsDropPage(use, frames.guarded, active, boot, f);
      frames.Free(f);
      ptes := ptes - {(t, j)};
      if frames.refs[f] == 0 {
        use := use - {f};
      }
      assert State() == Drop(m, (t, j));
    }

    /** Drops every entry of table t. */
    method EmptyTable(t: nat)
      requires Good(0) && IsTable(State(), t)
      modifies this`ptes, this`use, frames`hint, frames`freeFrames, frames`usedFrames, frames.bitmap, frames.refs
      ensures Good(0) && Emptying(old(State()), State(), t, PTES)
    {
      hide Allocator.Valid, Allocator.Tight, Inv, Guards, Emptying;
      EmptyingNone(State(), t);
      for j := 0 to PTES
        invariant Good(0) && Emptying(old(State()), State(), t, j)
      {
        EmptyingStep(old(State()), State(), t, j);
        if (t, j) in ptes {
          DropEntry(t, j);
        }
      }
    }

    /** The free frames are those without a use. */
    lemma FreeIs(loose: nat)
      requires Good(loose)
      ensures frames.freeFrames == |frames.Refs()| - |use|
    {
      forall f: nat ensures f in use.Keys <==> f < |frames.Bits()| && frames.Bits()[f] {
        assert FrameOk(State(), loose, f);
      }
      CountUsed(frames.Bits(), use.Keys);
    }

    lemma TableLinked(d: nat, i: nat)
      requires Good(0) && (d, i) in pdes
      ensures var t := pdes[(d, i)]; t in use && use[t] == Table(d, i) && 0 < t < |frames.Refs()| && frames.refs[t] == 1
      ensures IsDir(State(), d) && i < PDES
    {
      assert PdeOk(State(), (d, i)) && FrameOk(State(), 0, pdes[(d, i)]);
    }

    /** The body of the outer loop of vmm_free_page_directory. The ghost result is
        the state in which the table is empty and about to be freed. */
    method FreeTable(d: nat, i: nat) returns (ghost e: Mem)
      requires Good(0) && (d, i) in pdes
      modifies this`ptes, this`pdes, this`use, frames, frames.bitmap, frames.refs
      ensures Good(0) && Inv(e, 0)
      ensures var t := old(pdes)[(d, i)];
              && t in old(use) && old(use)[t] == Table(d, i) && Emptying(old(State()), e, t, PTES)
              && IsTable(e, t) && t < |e.refs| && State() == DropTable(e, t)
    {
      hide Allocator.Valid, Allocator.Tight, Inv, Spaces, Guards, Emptying;
      var t := pdes[(d, i)];
      TableLinked(d, i);
      EmptyTable(t);
      e := State();
      EmptiedTable(old(State()), e, t);
      TableLinked(d, i);
      DropTableKeeps(e, t);
      frames.TightAt(t);
      GuardsDropTable(use, frames.guarded, active, boot, t);
      frames.Unprotect(t);
      frames.Free(t);
      pdes := pdes - {(d, i)};
      use := use - {t};
      assert State() == DropTable(e, t);
    }

    lemma DirLive(d: nat)
      requires Good(0) && IsDir(State(), d)
      ensures 0 < d < |frames.Refs()| && frames.refs[d] == 1 && d != boot
    {
      assert FrameOk(State(), 0, d);
    }

    lemma NotFrameZero(d: nat)
      requires Valid()
      ensures IsDir(State(), d) ==> d != 0
    {
      assert FrameOk(State(), 0, 0);
    }

    lemma CurrentUsed()
      requires Valid()
      ensures current in use
    {
    }

    lemma BootUsed()
      requires Good(0)
      ensures boot in use
    {
    }

    /** register_page_directory: at most 64 directories, none twice. */
    method Register(d: nat)
      requires Good(0) && IsDir(State(), d)
      modifies this`active, frames`guarded
      ensures Good(0)
      ensures if d in old(active) || |old(active)| >= MAX_DIRECTORIES
              then active == old(active) && frames.guarded == old(frames.guarded)
              else && active == old(active) + [d] && d !in old(frames.guarded)
                   && frames.guarded == Guarded(old(frames.guarded), d)
    {
      hide Allocator.Valid, Allocator.Tight, Inv, Guards;
      if |active| >= MAX_DIRECTORIES || d in active {
        return;
      }
      DirLive(d);
      frames.TightAt(d);
      GuardsRegister(use, frames.guarded, active, boot, d);
      frames.Guard(d);
      active := active + [d];
    }

    /** The search of the table of active directories. */
    method PlaceOf(d: nat) returns (i: nat)
      ensures i <= |active| && (i == |active| <==> d !in active) && (i < |active| ==> active[i] == d)
    {
      i := 0;
      while i < |active| && active[i] != d
        invariant 0 <= i <= |active| && d !in active[..i]
      {
        i := i + 1;
      }
      assert active[..|active|] == active;
    }

    /** unregister_page_directory: the last entry takes the place of the removed one; an
        unknown directory is ignored. */
    method Unregister(d: nat)
      requires Good(0) && d != boot
      modifies this`active, frames`guarded
      ensures Good(0) && d !in active && multiset(active) == multiset(old(active)) - multiset{d}
      ensures d !in old(active) ==> active == old(active) && frames.guarded == old(frames.guarded)
      ensures d in old(active) ==> frames.guarded == old(frames.guarded) - {d}
    {
      hide Allocator.Valid, Allocator.Tight, Inv, Guards, SwappedOut;
      var i := PlaceOf(d);
      if i == |active| { return; }
      GuardsUnregister(use, frames.guarded, active, boot, i);
      frames.Unprotect(d);
      SwapOut(active, i);
      active := SwappedOut(active, i);
    }

    /** The outer loop of vmm_free_page_directory. */
    method TearDown(d: nat)
      requires Good(0) && IsDir(State(), d)
      modifies this`ptes, this`pdes, this`use, frames, frames.bitmap, frames.refs
      ensures Good(0) && Torn(old(State()), State(), d, PDES)
    {
      hide Allocator.Valid, Allocator.Tight, Inv, Guards, Torn, Emptying;
      TornNone(State(), d);
      for i := 0 to PDES
        invariant Good(0) && Torn(old(State()), State(), d, i)
      {
        if (d, i) in pdes {
          ghost var m := State();
          ghost var e := FreeTable(d, i);
          TornStep(old(State()), m, e, d, i);
        } else {
          TornSkip(old(State()), State(), d, i);
        }
      }
    }

    /** The end of vmm_free_page_directory: the directory's own frame. */
    method FreeEmptyDirectory(d: nat)
      requires Good(0) && IsDir(State(), d) && d < |frames.Refs()| && Inv(DropDir(State(), d), 0)
      modifies this`use, this`active, frames, frames.bitmap, frames.refs
      ensures Good(0) && State() == old(DropDir(State(), d)) && d !in active
    {
      hide Allocator.Valid, Allocator.Tight, Inv, Guards;
      DirLive(d);
      Unregister(d);
      frames.TightAt(d);
      GuardsDropDir(use, frames.guarded, active, boot, d);
      frames.Free(d);
      use := use - {d};
      assert State() == old(DropDir(State(), d));
    }

    /** vmm_free_page_directory. `inUse` is the answer of the scan of the task pool.
        The directory in use by the processor and a directory of a live task are
        refused. */
    method FreeDirectory(d: nat, inUse: bool)
      requires Valid() && IsDir(State(), d)
      modifies this`ptes, this`pdes, this`use, this`active, frames, frames.bitmap, frames.refs
      ensures Valid()
      ensures d == current || inUse ==>
                State() == old(State()) && active == old(active) && frames.freeFrames == old(frames.freeFrames)
      ensures !(d == current || inUse) ==>
                && Spaces(State()) == old(Spaces(State())) - {d} && d !in use && d !in active
                && pdes == Without(old(pdes), d, PDES) && ptes == EntriesWithout(old(State()), d, PDES)
                && SameReserved(old(State()), State()) && frames.freeFrames > old(frames.freeFrames)
    {
      hide Allocator.Valid, Allocator.Tight, Inv, Guards, Torn, Spaces, SameReserved;
      FreeIs(0);
      DirLive(d);
      if d == 0 || d == current || d == boot || inUse {
        return;
      }
      TearDown(d);
      TornDone(old(State()), State(), d);
      FreeEmptyDirectory(d);
      FreeIs(0);
      Fewer(old(use), use, d);
      InSpaces(old(State()), current);
      InSpaces(State(), current);
      InSpaces(State(), d);
    }

    // ------------------------------------------------------------------ clone

    /** A fresh table frame for slot i of directory d, not linked yet. */
    method AllocTable(d: nat, i: nat) returns (r: Option<nat>)
      requires Good(0) && IsDir(State(), d) && i < PDES && (d, i) !in pdes
      modifies this`use, frames`hint, frames`freeFrames, frames`usedFrames, frames.bitmap, frames.refs
      ensures r.Some? <==> old(frames.freeFrames) > 0
      ensures frames.freeFrames == old(frames.freeFrames) - One(r.Some?)
      ensures r.None? ==> Good(0) && State() == old(State())
      ensures r.Some? ==> && r.value < |old(frames.Refs())| && old(frames.Refs())[r.value] == 0 && r.value !in old(use)
                          && State() == NewTable(old(State()), r.value, d, i)
                          && Good(r.value) && r.value !in frames.guarded && forall j :: (r.value, j) !in ptes
    {
      hide Allocator.Valid, Allocator.Tight, Inv, Guards;
      r := frames.Alloc();
      if r.Some? {
        var f := r.value;
        NewTableKeeps(old(State()), f, d, i);
        GuardsAdd(use, frames.guarded, active, boot, f, Table(d, i));
        use := use[f := Table(d, i)];
        assert State() == NewTable(old(State()), f, d, i);
      }
    }

    /** The body of the outer loop of clone for a present directory entry. */
    method CloneTable(src: nat, d: nat, i: nat, ghost m0: Mem) returns (ok: bool)
      requires Good(0) && IsDir(State(), src) && IsDir(State(), d) && src != d
      requires i < PDES && (src, i) in pdes && (d, i) !in pdes
      requires Roomy(State(), MAX_REFS, src, i, 0) && Forking(m0, State(), d)
      requires SpaceOf(State(), d) == Below(SpaceOf(State(), src), i)
      modifies this`use, this`ptes, this`pdes, frames, frames.bitmap, frames.refs
      ensures Good(0) && Forking(m0, State(), d)
      ensures ok <==> old(frames.freeFrames) > 0
      ensures frames.freeFrames == old(frames.freeFrames) - One(ok)
      ensures !ok ==> State() == old(State())
      ensures ok ==> Spaces(State()) == old(Spaces(State()))[d := Below(old(SpaceOf(State(), src)), i + 1)]
      ensures ok ==> pdes.Keys == old(pdes.Keys) + {(d, i)} && Roomy(State(), MAX_REFS, src, i + 1, 0)
    {
      hide Allocator.Valid, Allocator.Tight, Inv, Guards, Spaces, SpaceOf, Below, Forking, Copied, SameReserved, Roomy;
      var t := pdes[(src, i)];
      TableLinked(src, i);
      var r := AllocTable(d, i);
      if r.None? {
        return false;
      }
      var u := r.value;
      NewTableSpaces(old(State()), u, d, i);
      ghost var a := State();
      RoomyAdd(old(State()), a, MAX_REFS, src, i, 0, u);
      CopyTable(t, u, src, i);
      Cloned(m0, old(State()), a, State(), src, d, t, u, i);
      LinkTable(u, d, i);
      return true;
    }

    /** The finished table u becomes table i of directory d. */
    method LinkTable(u: nat, d: nat, i: nat)
      requires Good(u) && u in use && use[u] == Table(d, i) && u !in frames.guarded
      modifies this`pdes, frames`guarded
      ensures Good(0) && State() == Link(old(State()), u)
    {
      hide Allocator.Valid, Allocator.Tight, Inv, Guards;
      LinkKeeps(State(), u);
      pdes := pdes[(d, i) := u];
      assert State() == Link(old(State()), u);
      TableLinked(d, i);
      frames.TightAt(u);
      GuardsProtect(use, frames.guarded, active, boot, u);
      frames.Guard(u);
    }

    /** One directory slot: its table, if there is one, is copied. */
    method CloneSlot(src: nat, d: nat, i: nat, ghost m0: Mem) returns (ok: bool)
      requires Good(0) && src != d && i < PDES && IsDir(m0, src) && Inv(m0, 0)
      requires Roomy(State(), MAX_REFS, src, i, 0) && Forking(m0, State(), d) && (d, i) !in pdes
      requires Spaces(State()) == Spaces(m0)[d := Below(SpaceOf(m0, src), i)]
      modifies this`use, this`ptes, this`pdes, frames, frames.bitmap, frames.refs
      ensures Good(0) && Forking(m0, State(), d) && (ok ==> Roomy(State(), MAX_REFS, src, i + 1, 0))
      ensures ok <==> (src, i) !in old(pdes) || old(frames.freeFrames) > 0
      ensures frames.freeFrames == old(frames.freeFrames) - One(ok && (src, i) in old(pdes))
      ensures !ok ==> State() == old(State())
      ensures ok ==> Spaces(State()) == Spaces(m0)[d := Below(SpaceOf(m0, src), i + 1)]
      ensures forall k :: k in pdes <==> k in old(pdes) || (ok && k == (d, i) && (src, i) in old(pdes))
    {
      hide Allocator.Valid, Allocator.Tight, Inv, Guards, SpaceOf, Forking, Below, Roomy;
      SpaceIs(State(), m0, src, d, i);
      if (src, i) in pdes {
        ok := CloneTable(src, d, i, m0);
      } else {
        BelowStep(State(), src, i);
        RoomyStep(State(), MAX_REFS, src, i, 0, i + 1, 0);
        ok := true;
      }
    }

    /** The outer loop of clone. */
    method CloneTables(src: nat, d: nat, ghost m0: Mem) returns (ok: bool)
      requires Good(0) && IsDir(State(), src) && src != d && Inv(m0, 0)
      requires Roomy(State(), MAX_REFS, src, 0, 0) && Forking(m0, State(), d)
      requires IsDir(State(), d) && IsDir(m0, src)
      requires Spaces(State()) == Spaces(m0)[d := imap[]] && forall i :: (d, i) !in pdes
      modifies this`use, this`ptes, this`pdes, frames, frames.bitmap, frames.refs
      ensures Good(0) && Forking(m0, State(), d)
      ensures d in Spaces(State()) && Spaces(State()) - {d} == Spaces(m0) - {d}
      ensures ok ==> Spaces(State()) == Spaces(m0)[d := Spaces(m0)[src]]
      ensures ok <==> old(frames.freeFrames) >= Tables(old(pdes.Keys), src, PDES)
      ensures ok ==> frames.freeFrames == old(frames.freeFrames) - Tables(old(pdes.Keys), src, PDES)
      ensures ok ==> pdes.Keys == WithCopies(old(pdes.Keys), src, d)
    {
      hide Allocator.Valid, Allocator.Tight, Inv, Guards, Spaces, SpaceOf, Forking, Tables, Roomy, Below;
      hide CopiedUpTo, WithCopies;
      forall x | (src, x) in pdes ensures x < PDES { TableLinked(src, x); }
      BelowNone(SpaceOf(m0, src));
      ghost var keys := pdes.Keys;
      TablesStep(keys, src, 0);
      NoneCopied(keys, src, d);
      ok := true;
      var i := 0;
      while i < PDES && ok
        invariant 0 <= i <= PDES && Good(0) && Forking(m0, State(), d)
        invariant ok ==> Roomy(State(), MAX_REFS, src, i, 0)
        invariant Spaces(State()) == Spaces(m0)[d := Below(SpaceOf(m0, src), if ok then i else i - 1)]
        invariant ok ==> CopiedUpTo(keys, pdes.Keys, src, d, i)
        invariant if ok then frames.freeFrames == old(frames.freeFrames) - Tables(keys, src, i)
                  else old(frames.freeFrames) < Tables(keys, src, i)
      {
        TablesStep(keys, src, i);
        ghost var was := pdes.Keys;
        CopiedAt(keys, was, src, d, i);
        ok := CloneSlot(src, d, i, m0);
        if ok { CopiedNext(keys, was, pdes.Keys, src, d, i); }
        i := i + 1;
      }
      if ok { CopiedAll(keys, pdes.Keys, src, d, PDES); }
      if !ok { TablesGrow(keys, src, i, PDES); }
      OnlyThere(Spaces(m0), d, Below(SpaceOf(m0, src), if ok then i else i - 1));
      BelowAll(m0, src);
      SpaceIn(m0, src);
    }

    /** vmm_clone_page_directory. On success the child shows exactly what the parent
        shows and no other process is affected. When memory runs out on the way, all
        processes, all reference counts and the free frames are as before. No count of
        a page of the parent may be full. */
    method Clone(src: nat) returns (r: Option<nat>)
      requires Valid() && (src == 0 || IsDir(State(), src)) && Roomy(State(), MAX_REFS, src, 0, 0)
      modifies this`use, this`ptes, this`pdes, this`active, frames, frames.bitmap, frames.refs
      ensures Valid() && SameReserved(old(State()), State())
      ensures r.Some? <==> src != 0 && old(frames.freeFrames) >= 1 + Tables(old(pdes.Keys), src, PDES)
      ensures r.Some? ==> frames.freeFrames == old(frames.freeFrames) - 1 - Tables(old(pdes.Keys), src, PDES)
      ensures r.Some? ==> pdes.Keys == WithCopies(old(pdes.Keys), src, r.value)
      ensures r.Some? ==> && src in old(Spaces(State())) && r.value !in old(use)
                          && Spaces(State()) == old(Spaces(State()))[r.value := old(Spaces(State()))[src]]
      ensures r.None? ==> && Spaces(State()) == old(Spaces(State())) && frames.Refs() == old(frames.Refs())
                          && pdes == old(pdes) && frames.Bits() == old(frames.Bits())
                          && frames.freeFrames == old(frames.freeFrames)
    {
      hide Allocator.Valid, Allocator.Tight, Inv, Guards, Spaces, SameReserved, Tables, Roomy, WithCopies;
      SameReservedSelf(State());
      if src == 0 {
        return None;
      }
      ghost var m0 := State();
      CurrentUsed();
      r := AllocDirectory();
      if r.None? {
        return;
      }
      var ok := CloneInto(src, r.value, m0);
      if !ok {
        frames.SameRefsSameBits();
        r := None;
      }
    }

    /** The rest of vmm_clone_page_directory, once the child has a directory d. */
    method CloneInto(src: nat, d: nat, ghost m0: Mem) returns (ok: bool)
      requires Good(0) && Inv(m0, 0) && d < |m0.refs| && m0.refs[d] == 0 && d !in m0.use && State() == NewDir(m0, d)
      requires IsDir(m0, src) && Roomy(m0, MAX_REFS, src, 0, 0)
      requires (current == boot || IsDir(m0, current)) && d != current
      modifies this`use, this`ptes, this`pdes, this`active, frames, frames.bitmap, frames.refs
      ensures Valid() && SameReserved(m0, State())
      ensures ok <==> old(frames.freeFrames) >= Tables(m0.pdes.Keys, src, PDES)
      ensures ok ==> frames.freeFrames == old(frames.freeFrames) - Tables(m0.pdes.Keys, src, PDES)
      ensures ok ==> && pdes.Keys == WithCopies(m0.pdes.Keys, src, d) && src in Spaces(m0)
                     && Spaces(State()) == Spaces(m0)[d := Spaces(m0)[src]]
      ensures !ok ==> Spaces(State()) == Spaces(m0) && frames.Refs() == m0.refs && pdes == m0.pdes
    {
      hide Allocator.Valid, Allocator.Tight, Inv, Guards, SpaceOf, Forking, SameReserved, Tables, Roomy, WithCopies;
      NewDirSpaces(m0, d);
      ForkingStart(m0, d);
      RoomyAdd(m0, State(), MAX_REFS, src, 0, 0, d);
      NoEntries(m0, d);
      ok := CloneTables(src, d, m0);
      InSpaces(m0, src);
      InSpaces(State(), d);
      InSpaces(m0, d);
      InSpaces(m0, current);
      InSpaces(State(), current);
      assert current in Spaces(m0) ==> current in Spaces(m0) - {d};
      ForkingReserved(m0, State(), d);
      if ok {
        Register(d);
      } else {
        UndoClone(d, m0);
      }
    }

    method UndoClone(d: nat, ghost m0: Mem)
      requires Valid() && Inv(m0, 0) && Forking(m0, State(), d) && d != current && lost == m0.lost
      requires d in Spaces(State()) && Spaces(State()) - {d} == Spaces(m0) - {d} && d !in Spaces(m0)
      modifies this`use, this`ptes, this`pdes, this`active, frames, frames.bitmap, frames.refs
      ensures Valid() && Spaces(State()) == Spaces(m0) && frames.Refs() == m0.refs && SameReserved(m0, State())
      ensures pdes == m0.pdes
    {
      hide Allocator.Valid, Allocator.Tight, Inv, Guards, SpaceOf, Forking, SameReserved;
      InSpaces(State(), d);
      FreeDirectory(d, false);
      assert Spaces(State()) == Spaces(m0);
      DirsAreKeys(State());
      DirsAreKeys(m0);
      ForkUndone(m0, old(State()), State(), d);
      ForkUndonePdes(m0, old(State()), d);
      ForkingReserved(m0, old(State()), d);
      SameReservedTrans(m0, old(State()), State());
    }

    // ----------------------------------------------------------------- writing

    /** vmm_handle_cow_page_fault on the current directory. Every process keeps its
        memory; a handled fault leaves the page writable. A write fault on a
        copy-on-write page is handled unless the page is shared and no frame is free. */
    method HandleFault(addr: nat, error: nat) returns (handled: bool)
      requires Valid() && addr < USER_END
      modifies this`use, this`ptes, frames`hint, frames`freeFrames, frames`usedFrames, frames.bitmap, frames.refs
      ensures Valid() && Spaces(State()) == old(Spaces(State()))
      ensures pdes == old(pdes) && SameReserved(old(State()), State())
      ensures handled <==>
                && error % 4 == 3 && old(Present(addr)) && old(Entry(addr)).cow
                && (old(References(addr)) == 1 || old(frames.freeFrames) > 0)
      ensures handled ==> Present(addr) && Entry(addr).write
      ensures !handled ==> State() == old(State())
      ensures frames.freeFrames == old(frames.freeFrames) - One(handled && old(References(addr)) > 1)
    {
      hide Allocator.Valid, Allocator.Tight, Inv, Guards, Spaces;
      if error % 4 != 3 {
        return false;
      }
      var i, j := addr / PDE_SPAN, addr / PAGE % PTES;
      if (current, i) !in pdes {
        return false;
      }
      var k := (pdes[(current, i)], j);
      if k !in ptes || !ptes[k].cow {
        return false;
      }
      var from := ptes[k].frame;
      EntryRefs(State(), 0, k);
      var count := frames.refs[from];
      if count == 0 {
        // a mapped frame always has a reference
        assert false;
      }
      if count == 1 {
        UnlockKeeps(State(), k);
        ptes := ptes[k := ptes[k].(write := true, cow := false)];
        assert State() == Unlock(old(State()), k);
        return true;
      }
      handled := CopyPage(k);
      InSpaces(old(State()), current);
      InSpaces(State(), current);
    }

    /** The copy branch of the fault handler. */
    method CopyPage(k: (nat, nat)) returns (ok: bool)
      requires Good(0) && k in ptes && ptes[k].cow
      requires ptes[k].frame < frames.refs.Length && frames.refs[ptes[k].frame] > 1
      modifies this`use, this`ptes, frames`hint, frames`freeFrames, frames`usedFrames, frames.bitmap, frames.refs
      ensures Good(0) && Spaces(State()) == old(Spaces(State())) && SameReserved(old(State()), State())
      ensures ok <==> old(frames.freeFrames) > 0
      ensures !ok ==> State() == old(State())
      ensures ok ==> k in ptes && ptes[k].write
      ensures frames.freeFrames == old(frames.freeFrames) - One(ok)
    {
      hide Allocator.Valid, Allocator.Tight, Inv, Guards, Spaces, SameReserved;
      SameReservedSelf(State());
      var copy := frames.Alloc();
      if copy.None? {
        return false;
      }
      Unshared(old(State()), k, copy.value);
      PointTo(k, copy.value, old(State()));
      return true;
    }

    /** The entry moves from its shared frame to a copy in f, which was just taken. */
    method PointTo(k: (nat, nat), f: nat, ghost m: Mem)
      requires frames.Valid() && frames.Tight() && Guards(use, frames.guarded, active, boot)
      requires Inv(m, 0) && k in m.ptes && m.ptes[k].cow && f < |m.refs| && m.refs[f] == 0
      requires m.ptes[k].frame < |m.refs| && m.refs[m.ptes[k].frame] > 1 && State() == m.(refs := m.refs[f := 1])
      modifies this`use, this`ptes, frames.refs
      ensures Good(0) && IsPage(m, m.ptes[k].frame) && State() == Unshare(m, k, f) && k in ptes && ptes[k].write
    {
      hide Allocator.Valid, Allocator.Tight, Inv, Guards, Spaces, SameReserved;
      var from := ptes[k].frame;
      EntryRefs(m, 0, k);
      FrameZero(m, 0, from);
      Unshared(m, k, f);
      frames.TightAt(from);
      GuardsAdd(use, frames.guarded, active, boot, f, use[from]);
      use := use[f := use[from]];
      ptes := ptes[k := ptes[k].(frame := f, write := true, cow := false)];
      frames.RefDec(from);
      assert State() == Unshare(m, k, f);
    }

    lemma MayWriteIff(addr: nat)
      requires Valid()
      ensures MayWrite(Spaces(State()), current, addr) <==> Present(addr) && (Entry(addr).write || Entry(addr).cow)
    {
      var i, j := addr / PDE_SPAN, addr / PAGE % PTES;
      if Present(addr) {
        TableLinked(current, i);
        EntryRefs(State(), 0, (pdes[(current, i)], j));
        assert FrameOk(State(), 0, Entry(addr).frame);
        assert Mapped(State(), current, PageOf(addr));
      }
      assert current in Spaces(State()) ==> Spaces(State())[current] == SpaceOf(State(), current);
    }

    method StoreThrough(addr: nat, b: byte)
      requires Valid() && Present(addr) && Entry(addr).write
      modifies this`use
      ensures Valid() && SameReserved(old(State()), State())
      ensures MayWrite(old(Spaces(State())), current, addr)
      ensures Spaces(State()) == Written(old(Spaces(State())), current, addr, b)
    {
      hide Allocator.Valid, Allocator.Tight, Inv, Guards, SpaceOf, SameReserved;
      MayWriteIff(addr);
      var k: (nat, nat) := (pdes[(current, addr / PDE_SPAN)], addr / PAGE % PTES);
      var f := ptes[k].frame;
      TableLinked(current, addr / PDE_SPAN);
      EntryRefs(State(), 0, k);
      StoreKeeps(State(), k, addr % PAGE, b);
      StoreSpaces(State(), k, addr % PAGE, b);
      GuardsStore(use, frames.guarded, active, boot, f, Page(use[f].bytes[addr % PAGE := b]));
      ShownAt(State(), current, PageOf(addr));
      use := use[f := Page(use[f].bytes[addr % PAGE := b])];
      assert State() == Store(old(State()), k, addr % PAGE, b);
      SameReservedStore(old(State()), k, addr % PAGE, b);
    }

    /** A one-byte store by the current process: a write through a read-only entry
        faults, and is retried once when the fault was handled. */
    method Write(addr: nat, b: byte) returns (ok: bool)
      requires Valid() && addr < USER_END
      modifies this`use, this`ptes, frames`hint, frames`freeFrames, frames`usedFrames, frames.bitmap, frames.refs
      ensures Valid() && SameReserved(old(State()), State())
      ensures ok <==> && MayWrite(old(Spaces(State())), current, addr)
                      && (old(frames.freeFrames) > 0 || !MustCopy(old(State()), current, PageOf(addr)))
      ensures !ok ==> State() == old(State())
      ensures ok ==> Spaces(State()) == Written(old(Spaces(State())), current, addr, b)
      ensures frames.freeFrames == old(frames.freeFrames) - One(ok && MustCopy(old(State()), current, PageOf(addr)))
    {
      hide Allocator.Valid, Allocator.Tight, Inv, Guards, Spaces, SameReserved;
      ok := true;
      MayWriteIff(addr);
      if Present(addr) { EntryRefs(State(), 0, (pdes[(current, addr / PDE_SPAN)], addr / PAGE % PTES)); }
      SameReservedSelf(State());
      if !((current, addr / PDE_SPAN) in pdes && (pdes[(current, addr / PDE_SPAN)], addr / PAGE % PTES) in ptes) {
        return false;
      }
      if !ptes[(pdes[(current, addr / PDE_SPAN)], addr / PAGE % PTES)].write {
        ok := HandleFault(addr, 7);
      }
      if ok {
        ghost var m := State();
        StoreThrough(addr, b);
        SameReservedTrans(old(State()), m, State());
      }
    }

    // ------------------------------------------------- creating and mapping

    /** vmm_create_page_directory: a new empty address space. */
    method Create() returns (r: Option<nat>)
      requires Valid()
      modifies this`use, this`active, frames, frames.bitmap, frames.refs
      ensures Valid() && SameReserved(old(State()), State())
      ensures r.Some? <==> old(frames.freeFrames) > 0
      ensures frames.freeFrames == old(frames.freeFrames) - One(r.Some?)
      ensures r.None? ==> State() == old(State())
      ensures r.Some? ==> r.value !in old(Spaces(State())) && Spaces(State()) == old(Spaces(State()))[r.value := imap[]]
    {
      hide Allocator.Valid, Allocator.Tight, Inv, Guards, Spaces, SameReserved;
      SameReservedSelf(State());
      InSpaces(State(), current);
      r := AllocDirectory();
      if r.Some? {
        NewDirSpaces(old(State()), r.value);
        SameReservedNewDir(old(State()), r.value);
        InSpaces(old(State()), r.value);
        InSpaces(State(), current);
        InSpaces(State(), r.value);
        Register(r.value);
      }
    }

    /** hal_mmu_map's lookup of the page table for slot i, made on demand. */
    method TableFor(d: nat, i: nat) returns (ok: bool)
      requires Good(0) && IsDir(State(), d) && i < PDES
      modifies this`use, this`pdes, frames`hint, frames`freeFrames, frames`usedFrames, frames.bitmap, frames.refs
      ensures Good(0) && Spaces(State()) == old(Spaces(State())) && SameReserved(old(State()), State())
      ensures forall f :: f in old(use) ==> f in use && use[f] == old(use)[f]
      ensures forall f :: f in old(use) && f < frames.refs.Length ==> frames.refs[f] == old(frames.refs[f])
      ensures ok <==> (d, i) in pdes
      ensures ok <==> (d, i) in old(pdes) || old(frames.freeFrames) > 0
      ensures forall k :: k in old(pdes) ==> k in pdes && pdes[k] == old(pdes)[k]
      ensures ok && (d, i) !in old(pdes) ==> forall j :: (pdes[(d, i)], j) !in ptes
      ensures !ok ==> State() == old(State())
      ensures ok ==> pdes.Keys == old(pdes.Keys) + {(d, i)}
      ensures frames.freeFrames == old(frames.freeFrames) - One(ok && (d, i) !in old(pdes))
    {
      hide Allocator.Valid, Allocator.Tight, Inv, Guards, Spaces, SameReserved;
      SameReservedSelf(State());
      if (d, i) in pdes {
        return true;
      }
      var r := AllocTable(d, i);
      if r.None? {
        return false;
      }
      var t := r.value;
      NewTableSpaces(old(State()), t, d, i);
      ghost var m := State();
      LinkKeeps(m, t);
      LinkEmptySpaces(m, t);
      pdes := pdes[(d, i) := t];
      assert State() == Link(m, t);
      SameReservedSelf(m);
      SameReservedLink(old(State()), m, m, t, d, i);
      return true;
    }

    /** A fresh frame held by the kernel. */
    ghost predicate Held(f: nat)
      reads this, frames, frames.refs
    {
      && f in use && use[f].Reserved? && f != 0 && f != boot && f !in frames.guarded
      && f < frames.refs.Length && frames.refs[f] == 1
    }

    method HoldFrame() returns (r: Option<nat>)
      requires Good(0)
      modifies this`use, frames`hint, frames`freeFrames, frames`usedFrames, frames.bitmap, frames.refs
      ensures Good(0) && Spaces(State()) == old(Spaces(State()))
      ensures r.Some? <==> old(frames.freeFrames) > 0
      ensures frames.freeFrames == old(frames.freeFrames) - One(r.Some?)
      ensures r.None? ==> State() == old(State())
      ensures r.Some? ==> && Held(r.value) && r.value !in old(use) && old(frames.Refs())[r.value] == 0
                          && State() == Hold(old(State()), r.value)
    {
      hide Allocator.Valid, Allocator.Tight, Inv, Guards, Spaces;
      BootUsed();
      r := frames.Alloc();
      if r.Some? {
        var f := r.value;
        HoldKeeps(old(State()), f);
        GuardsAdd(use, frames.guarded, active, boot, f, Reserved);
        use := use[f := Reserved];
        assert State() == Hold(old(State()), f);
      }
    }

    method GiveBack(f: nat)
      requires Good(0) && Held(f)
      modifies this`use, frames`hint, frames`freeFrames, frames`usedFrames, frames.bitmap, frames.refs
      ensures Good(0) && Spaces(State()) == old(Spaces(State()))
      ensures State() == old(State()).(use := old(use) - {f}, refs := old(frames.Refs())[f := 0])
      ensures frames.freeFrames == old(frames.freeFrames) + 1
    {
      hide Allocator.Valid, Allocator.Tight, Inv, Guards, Spaces;
      UnholdKeeps(State(), f);
      frames.TightAt(f);
      GuardsUnhold(use, frames.guarded, active, boot, f, Reserved);
      frames.Free(f);
      use := use - {f};
      assert State() == old(State()).(use := old(use) - {f}, refs := old(frames.Refs())[f := 0]);
    }

    method Install(k: (nat, nat), p: Pte)
      requires Good(0) && Held(p.frame) && IsTable(State(), k.0) && k.1 < PTES
      modifies this`use, this`ptes, this`lost
      ensures Good(0) && State() == MapHeld(old(State()), k, p)
    {
      hide Allocator.Valid, Allocator.Tight, Inv, Guards, ZeroPage, Lost;
      MapHeldKeeps(State(), k, p);
      GuardsUnhold(use, frames.guarded, active, boot, p.frame, Page(ZeroPage()));
      lost := lost + Lost(State(), k);
      use, ptes := use[p.frame := Page(ZeroPage())], ptes[k := p];
      assert State() == MapHeld(old(State()), k, p);
    }

    /** hal_mmu_map of a held frame: the table is made if it is missing. */
    method MapFrame(d: nat, addr: nat, p: Pte) returns (ok: bool)
      requires Good(0) && Held(p.frame) && IsDir(State(), d) && addr < USER_END
      modifies this`use, this`pdes, this`ptes, this`lost, frames`hint, frames`freeFrames, frames`usedFrames,
               frames.bitmap, frames.refs
      ensures Good(0) && ReservedBut(old(State()), State(), p.frame)
      ensures ok <==> (d, addr / PDE_SPAN) in old(pdes) || old(frames.freeFrames) > 0
      ensures lost == if ok then old(lost) + LostIn(old(State()), d, PageOf(addr)) else old(lost)
      ensures if ok then p.frame in use && !use[p.frame].Reserved? else Held(p.frame)
      ensures !ok ==> State() == old(State())
      ensures ok ==> pdes.Keys == old(pdes.Keys) + {(d, addr / PDE_SPAN)}
      ensures frames.freeFrames == old(frames.freeFrames) - One(ok && (d, addr / PDE_SPAN) !in old(pdes))
      ensures ok ==> Spaces(State()) == old(Spaces(State()))[d := old(SpaceOf(State(), d))[PageOf(addr) :=
                                          View(ZeroPage(), p.write || p.cow, p.user, p.attr)]]
    {
      hide Allocator.Valid, Allocator.Tight, Inv, Guards, Spaces, SameReserved, SpaceOf, ZeroPage, ReservedBut;
      var k := PageOf(addr);
      ok := TableFor(d, k.0);
      ghost var m := State();
      ReservedButMap(old(State()), m, (0, 0), p);
      SpacesAt(old(State()), m, d);
      if ok {
        TableLinked(d, k.0);
        LostKept(old(State()), m, d, k);
        MapHeldSpaces(m, (pdes[(d, k.0)], k.1), p);
        ReservedButMap(old(State()), m, (pdes[(d, k.0)], k.1), p);
        Install((pdes[(d, k.0)], k.1), p);
      }
    }

    /** A zeroed page for one user address, as sys_brk, sys_mmap and the program loader
        map it. An address that is mapped already gets the new page, and its old frame
        keeps a reference that nothing stands for. */
    method MapPage(d: nat, addr: nat, write: bool, user: bool, attr: nat) returns (ok: bool)
      requires Valid() && IsDir(State(), d) && addr < USER_END
      modifies this`use, this`pdes, this`ptes, this`lost, frames, frames.bitmap, frames.refs
      ensures Valid() && SameReserved(old(State()), State())
      ensures ok <==> old(frames.freeFrames) >= 1 + One((d, addr / PDE_SPAN) !in old(pdes))
      ensures lost == if ok then old(lost) + LostIn(old(State()), d, PageOf(addr)) else old(lost)
      ensures !ok ==> State() == old(State()) && frames.freeFrames == old(frames.freeFrames)
      ensures ok ==> pdes.Keys == old(pdes.Keys) + {(d, addr / PDE_SPAN)}
      ensures ok ==> frames.freeFrames == old(frames.freeFrames) - 1 - One((d, addr / PDE_SPAN) !in old(pdes))
      ensures ok ==> Spaces(State()) ==
                     old(Spaces(State()))[d := old(SpaceOf(State(), d))[PageOf(addr) :=
                       View(ZeroPage(), write, user, attr)]]
    {
      hide Allocator.Valid, Allocator.Tight, Inv, Guards, Spaces, SameReserved, SpaceOf, ZeroPage, ReservedBut;
      SameReservedSelf(State());
      InSpaces(State(), current);
      var r := HoldFrame();
      if r.None? {
        return false;
      }
      var f := r.value;
      ghost var h := State();
      SpacesAt(old(State()), h, d);
      ok := MapFrame(d, addr, Pte(f, write, false, user, attr));
      if !ok {
        ReservedButFree(h, State(), f);
        GiveBack(f);
        HoldUndone(old(State()), f);
      }
      SameReservedHeld(old(State()), f, State());
      InSpaces(State(), current);
    }

    /** sys_munmap and the shrinking sys_brk, one page: vmm_unmap_page_in_directory,
        then one reference to the frame is dropped. */
    method UnmapPage(d: nat, addr: nat) returns (ok: bool)
      requires Valid() && IsDir(State(), d) && addr < USER_END
      modifies this`use, this`ptes, frames`hint, frames`freeFrames, frames`usedFrames, frames.bitmap, frames.refs
      ensures Valid() && SameReserved(old(State()), State())
      ensures ok <==> PageOf(addr) in old(SpaceOf(State(), d))
      ensures !ok ==> State() == old(State())
      ensures frames.freeFrames == old(frames.freeFrames) + One(ok && !Shared(old(State()), d, PageOf(addr)))
      ensures ok ==> Spaces(State()) == old(Spaces(State()))[d := old(SpaceOf(State(), d)) - {PageOf(addr)}]
    {
      hide Allocator.Valid, Allocator.Tight, Inv, Guards, Spaces, SameReserved, SpaceOf;
      SameReservedSelf(State());
      InSpaces(State(), current);
      ShownIff(State(), d, PageOf(addr));
      if (d, addr / PDE_SPAN) !in pdes || (pdes[(d, addr / PDE_SPAN)], addr / PAGE % PTES) !in ptes {
        return false;
      }
      var k: (nat, nat) := (pdes[(d, addr / PDE_SPAN)], addr / PAGE % PTES);
      TableLinked(d, addr / PDE_SPAN);
      EntryRefs(State(), 0, k);
      DropSpaces(State(), k);
      SameReservedDrop(State(), k);
      DropEntry(k.0, k.1);
      InSpaces(State(), current);
      return true;
    }
  }
}
