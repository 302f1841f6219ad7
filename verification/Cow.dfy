/** Copy-on-write address spaces: the value-level model behind src/mm/vmm.c on i686.

    Page directories and page tables are stored the way the source reaches them,
    as entry words at (frame, index): pdes[(d, i)] is the present entry i of the
    directory in frame d, ptes[(t, j)] the present entry j of the table in frame t.
    A missing key is an entry whose present bit is clear. Only the user half
    (directory entries 0..511) is modelled. */
module Cow {
  import opened Common

  const PDES := 512
  const PTES := 1024

  datatype Pte = Pte(frame: nat, write: bool, cow: bool, user: bool, attr: nat)

  /** What a physical frame is used for. A table remembers the directory and slot
      it was made for. */
  datatype Use = Reserved | Directory | Table(dir: nat, slot: nat) | Page(bytes: seq<byte>)

  /** `lost` holds a frame once for each reference that no entry stands for any more:
      mapping over a present entry drops the entry and keeps the reference. */
  datatype Mem = Mem(
    use: map<nat, Use>,
    pdes: map<(nat, nat), nat>,
    ptes: map<(nat, nat), Pte>,
    refs: seq<nat>,
    lost: multiset<nat>)

  ghost predicate IsDir(m: Mem, d: nat) { d in m.use && m.use[d].Directory? }
  ghost predicate IsTable(m: Mem, t: nat) { t in m.use && m.use[t].Table? }
  ghost predicate IsPage(m: Mem, f: nat) { f in m.use && m.use[f].Page? }

  // ---------------------------------------------------------------- invariant

  /** The entries that map a frame, over all tables of all processes. */
  ghost function Sharers(ptes: map<(nat, nat), Pte>, f: nat): set<(nat, nat)> {
    set k | k in ptes && ptes[k].frame == f
  }

  /** A frame has references iff it is in use. A directory or table has one. A
      table hangs in the one slot it was made for (unless it is `loose`: allocated
      and not linked yet; 0 is no table). A user page has one reference for every
      entry that maps it and for every entry lost. */
  ghost predicate FrameOk(m: Mem, loose: nat, f: nat) {
    && (!IsPage(m, f) ==> m.lost[f] == 0)
    && if f < |m.refs| then
      && (m.refs[f] > 0 <==> f in m.use)
      && (f in m.use ==>
            match m.use[f]
            case Reserved => true
            case Directory => m.refs[f] == 1
            case Table(d, i) =>
              && m.refs[f] == 1 && IsDir(m, d) && i < PDES
              && if f == loose then (d, i) !in m.pdes else (d, i) in m.pdes && m.pdes[(d, i)] == f
            case Page(bytes) => |bytes| == PAGE && m.refs[f] == |Sharers(m.ptes, f)| + m.lost[f])
    else f !in m.use
  }

  ghost predicate PdeOk(m: Mem, k: (nat, nat)) {
    k in m.pdes ==> m.pdes[k] in m.use && m.use[m.pdes[k]] == Table(k.0, k.1)
  }

  ghost predicate PteOk(m: Mem, k: (nat, nat)) {
    k in m.ptes ==> IsTable(m, k.0) && k.1 < PTES && IsPage(m, m.ptes[k].frame)
  }

  /** Entries for one frame sit at the same user address, and a writable entry is
      the only one for its frame. */
  ghost predicate Agree(m: Mem, k: (nat, nat), l: (nat, nat)) {
    k in m.ptes && l in m.ptes && IsTable(m, k.0) && IsTable(m, l.0) && m.ptes[k].frame == m.ptes[l].frame ==>
      && k.1 == l.1 && m.use[k.0].slot == m.use[l.0].slot
      && (m.ptes[k].write ==> k == l)
  }

  ghost predicate Inv(m: Mem, loose: nat) {
    && 0 in m.use && m.use[0].Reserved?
    && (forall f: nat {:trigger FrameOk(m, loose, f)} :: FrameOk(m, loose, f))
    && (forall k: (nat, nat) {:trigger PdeOk(m, k)} :: PdeOk(m, k))
    && (forall k: (nat, nat) {:trigger PteOk(m, k)} :: PteOk(m, k))
    && (forall k: (nat, nat), l: (nat, nat) {:trigger Agree(m, k, l)} :: Agree(m, k, l))
  }

  // ------------------------------------------------- what processes can observe

  datatype View = View(bytes: seq<byte>, writable: bool, user: bool, attr: nat)

  /** User memory of a process, by page directory index and page table index. */
  type Space = imap<(nat, nat), View>

  ghost predicate Mapped(m: Mem, d: nat, k: (nat, nat)) {
    && (d, k.0) in m.pdes && (m.pdes[(d, k.0)], k.1) in m.ptes
    && IsPage(m, m.ptes[(m.pdes[(d, k.0)], k.1)].frame)
  }

  /** A copy-on-write page counts as writable: the process may write it. */
  ghost function PageAt(m: Mem, d: nat, k: (nat, nat)): View
    requires Mapped(m, d, k)
  {
    var e := m.ptes[(m.pdes[(d, k.0)], k.1)];
    View(m.use[e.frame].bytes, e.write || e.cow, e.user, e.attr)
  }

  ghost function SpaceOf(m: Mem, d: nat): Space {
    imap k: (nat, nat) | Mapped(m, d, k) :: PageAt(m, d, k)
  }

  ghost function Spaces(m: Mem): map<nat, Space> {
    map d | d in m.use && m.use[d].Directory? :: SpaceOf(m, d)
  }

  lemma SpacesSet(m: Mem, n: Mem, d: nat, s: Space)
    requires IsDir(m, d) && SpaceOf(n, d) == s
    requires forall e: nat :: IsDir(n, e) <==> IsDir(m, e)
    requires forall e: nat :: IsDir(m, e) && e != d ==> SpaceOf(n, e) == SpaceOf(m, e)
    ensures Spaces(n) == Spaces(m)[d := s]
  {
    forall e: nat ensures e in Spaces(n) <==> e in Spaces(m) { assert IsDir(n, e) <==> IsDir(m, e); }
  }

  // ---------------------------------------------------------------- set sizes

  ghost function DirsIn(use: map<nat, Use>): set<nat> {
    set d | d in use && use[d].Directory?
  }

  ghost function Dirs(m: Mem): set<nat> {
    DirsIn(m.use)
  }

  lemma {:induction false} CardInjective(s: set<(nat, nat)>, use: map<nat, Use>, dirs: set<nat>)
    requires forall p :: p in s ==> p.0 in use && use[p.0].Table? && use[p.0].dir in dirs
    requires forall p, q :: p in s && q in s && use[p.0].dir == use[q.0].dir ==> p == q
    ensures |s| <= |dirs|
  {
    if s != {} {
      var p :| p in s;
      CardInjective(s - {p}, use, dirs - {use[p.0].dir});
    }
  }

  /** No page has more references than there are directories and lost entries. */
  lemma RefsBounded(m: Mem, loose: nat, f: nat)
    requires Inv(m, loose) && IsPage(m, f)
    ensures f < |m.refs| && m.refs[f] <= |Dirs(m)| + m.lost[f]
  {
    assert FrameOk(m, loose, f);
    forall p | p in Sharers(m.ptes, f)
      ensures IsTable(m, p.0) && m.use[p.0].dir in Dirs(m)
    {
      assert PteOk(m, p) && FrameOk(m, loose, p.0);
    }
    forall p, q | p in Sharers(m.ptes, f) && q in Sharers(m.ptes, f) && m.use[p.0].dir == m.use[q.0].dir
      ensures p == q
    {
      assert PteOk(m, p) && PteOk(m, q) && Agree(m, p, q) && FrameOk(m, loose, p.0) && FrameOk(m, loose, q.0);
    }
    CardInjective(Sharers(m.ptes, f), m.use, Dirs(m));
  }

  lemma SharersSet(ptes: map<(nat, nat), Pte>, k: (nat, nat), p: Pte, f: nat)
    ensures Sharers(ptes[k := p], f) == if p.frame == f then Sharers(ptes, f) + {k} else Sharers(ptes, f) - {k}
  {
  }

  lemma SharersClear(ptes: map<(nat, nat), Pte>, k: (nat, nat), f: nat)
    ensures Sharers(ptes - {k}, f) == Sharers(ptes, f) - {k}
  {
  }

  // --------------------------------------------------------------------- fork

  /** What clone leaves in both tables for a present entry. */
  function Restrict(p: Pte): Pte {
    if p.write then p.(write := false, cow := true) else p
  }

  /** One turn of the inner loop of clone: entry j of table t is shared with table u. */
  function Share(m: Mem, t: nat, u: nat, j: nat): Mem
    requires (t, j) in m.ptes && m.ptes[(t, j)].frame < |m.refs|
  {
    var q := Restrict(m.ptes[(t, j)]);
    m.(ptes := m.ptes[(t, j) := q][(u, j) := q], refs := m.refs[q.frame := m.refs[q.frame] + 1])
  }

  lemma ShareSharers(ptes: map<(nat, nat), Pte>, t: nat, u: nat, j: nat, f: nat)
    requires t != u && (t, j) in ptes && (u, j) !in ptes
    ensures var q := Restrict(ptes[(t, j)]);
      Sharers(ptes[(t, j) := q][(u, j) := q], f) == Sharers(ptes, f) + (if f == q.frame then {(u, j)} else {})
      && (u, j) !in Sharers(ptes, f)
  {
  }

  lemma ShareFrame(m: Mem, t: nat, u: nat, j: nat, f: nat)
    requires FrameOk(m, u, f)
    requires t != u && (t, j) in m.ptes && (u, j) !in m.ptes
    requires m.ptes[(t, j)].frame < |m.refs| && IsPage(m, m.ptes[(t, j)].frame)
    ensures FrameOk(Share(m, t, u, j), u, f)
  {
    ShareSharers(m.ptes, t, u, j, f);
    hide Sharers;
  }

  lemma ShareKeeps(m: Mem, t: nat, u: nat, j: nat)
    requires Inv(m, u)
    requires t != u && (t, j) in m.ptes && (u, j) !in m.ptes
    requires IsTable(m, t) && IsTable(m, u) && m.use[t].slot == m.use[u].slot
    ensures m.ptes[(t, j)].frame < |m.refs|
    ensures Inv(Share(m, t, u, j), u)
  {
    var s := m.ptes[(t, j)].frame;
    assert PteOk(m, (t, j)) && FrameOk(m, u, s);
    var n := Share(m, t, u, j);
    forall f: nat
      ensures FrameOk(n, u, f)
    {
      ShareFrame(m, t, u, j, f);
    }
    forall k: (nat, nat)
      ensures PdeOk(n, k) && PteOk(n, k)
    {
      assert PdeOk(m, k) && PteOk(m, k);
    }
    forall k: (nat, nat), l: (nat, nat)
      ensures Agree(n, k, l)
    {
      assert Agree(m, if k == (u, j) then (t, j) else k, if l == (u, j) then (t, j) else l);
    }
  }

  lemma ShareSpaces(m: Mem, t: nat, u: nat, j: nat)
    requires Inv(m, u) && (t, j) in m.ptes && t != u && IsTable(m, u) && m.ptes[(t, j)].frame < |m.refs|
    ensures Spaces(Share(m, t, u, j)) == Spaces(m)
  {
    var n := Share(m, t, u, j);
    forall d | IsDir(m, d)
      ensures SpaceOf(n, d) == SpaceOf(m, d)
    {
      forall k: (nat, nat)
        ensures Mapped(n, d, k) == Mapped(m, d, k)
        ensures Mapped(m, d, k) ==> PageAt(n, d, k) == PageAt(m, d, k)
      {
        assert PdeOk(m, (d, k.0)) && FrameOk(m, u, u);
      }
    }
  }

  // ---------------------------------------------------- allocating and linking

  /** A fresh, zeroed frame f becomes a page directory. */
  function NewDir(m: Mem, f: nat): Mem
    requires f < |m.refs|
  {
    m.(use := m.use[f := Directory], refs := m.refs[f := 1])
  }

  lemma NewDirKeeps(m: Mem, f: nat)
    requires Inv(m, 0) && f < |m.refs| && m.refs[f] == 0
    ensures f !in m.use && Inv(NewDir(m, f), 0)
  {
    var n := NewDir(m, f);
    assert FrameOk(m, 0, f);
    forall g: nat ensures FrameOk(n, 0, g) { assert FrameOk(m, 0, g); }
    forall k: (nat, nat) ensures PdeOk(n, k) && PteOk(n, k) { assert PdeOk(m, k) && PteOk(m, k); }
    forall k: (nat, nat), l: (nat, nat)
      ensures Agree(n, k, l)
    {
      assert Agree(m, k, l) && PteOk(m, k) && PteOk(m, l);
    }
  }

  lemma NewDirSpaces(m: Mem, f: nat)
    requires Inv(m, 0) && f < |m.refs| && m.refs[f] == 0
    ensures f !in m.use && Spaces(NewDir(m, f)) == Spaces(m)[f := imap[]]
  {
    var n := NewDir(m, f);
    assert FrameOk(m, 0, f);
    forall d, k: (nat, nat)
      ensures Mapped(n, d, k) == Mapped(m, d, k)
      ensures Mapped(m, d, k) ==> d != f && PageAt(n, d, k) == PageAt(m, d, k)
    {
      assert PdeOk(m, (d, k.0));
      if Mapped(m, d, k) {
        assert FrameOk(m, 0, m.pdes[(d, k.0)]);
      }
    }
    assert forall d :: SpaceOf(n, d) == SpaceOf(m, d);
    assert SpaceOf(n, f) == imap[];
  }

  /** A fresh, zeroed frame f becomes the page table for slot i of directory d. */
  function NewTable(m: Mem, f: nat, d: nat, i: nat): Mem
    requires f < |m.refs|
  {
    m.(use := m.use[f := Table(d, i)], refs := m.refs[f := 1])
  }

  lemma NewTableKeeps(m: Mem, f: nat, d: nat, i: nat)
    requires Inv(m, 0) && f < |m.refs| && m.refs[f] == 0
    requires IsDir(m, d) && i < PDES && (d, i) !in m.pdes
    ensures f !in m.use && Inv(NewTable(m, f, d, i), f)
    ensures forall j :: (f, j) !in m.ptes
  {
    var n := NewTable(m, f, d, i);
    assert FrameOk(m, 0, f);
    forall g: nat ensures FrameOk(n, f, g) { assert FrameOk(m, 0, g); }
    forall k: (nat, nat)
      ensures PdeOk(n, k) && PteOk(n, k)
      ensures k in m.ptes ==> k.0 != f
    {
      assert PdeOk(m, k) && PteOk(m, k);
    }
    forall k: (nat, nat), l: (nat, nat)
      ensures Agree(n, k, l)
    {
      assert Agree(m, k, l) && PteOk(m, k) && PteOk(m, l);
    }
  }

  lemma NewTableSpaces(m: Mem, f: nat, d: nat, i: nat)
    requires Inv(m, 0) && f < |m.refs| && m.refs[f] == 0
    ensures Spaces(NewTable(m, f, d, i)) == Spaces(m)
  {
    var n := NewTable(m, f, d, i);
    assert FrameOk(m, 0, f);
    forall e | IsDir(m, e) ensures SpaceOf(n, e) == SpaceOf(m, e) { }
  }

  /** The directory entry of the loose table t is written. */
  function Link(m: Mem, t: nat): Mem
    requires t in m.use && m.use[t].Table?
  {
    m.(pdes := m.pdes[(m.use[t].dir, m.use[t].slot) := t])
  }

  lemma LinkKeeps(m: Mem, t: nat)
    requires Inv(m, t) && IsTable(m, t)
    ensures Inv(Link(m, t), 0)
    ensures forall d :: IsDir(m, d) && d != m.use[t].dir ==> SpaceOf(Link(m, t), d) == SpaceOf(m, d)
  {
    var n := Link(m, t);
    assert FrameOk(m, t, t);
    forall g: nat ensures FrameOk(n, 0, g) { assert FrameOk(m, t, g); }
    forall k: (nat, nat) ensures PdeOk(n, k) && PteOk(n, k) { assert PdeOk(m, k) && PteOk(m, k); }
    forall k: (nat, nat), l: (nat, nat) ensures Agree(n, k, l) { assert Agree(m, k, l); }
  }

  // ---------------------------------------------------------------- releasing

  /** Entry k goes away: its page loses a reference, and is freed with the last one. */
  function Drop(m: Mem, k: (nat, nat)): Mem
    requires k in m.ptes && m.ptes[k].frame < |m.refs| && m.refs[m.ptes[k].frame] > 0
  {
    var f := m.ptes[k].frame;
    m.(ptes := m.ptes - {k},
       refs := m.refs[f := m.refs[f] - 1],
       use := if m.refs[f] == 1 then m.use - {f} else m.use)
  }

  lemma OnlySharer(m: Mem, k: (nat, nat), l: (nat, nat))
    requires k in m.ptes && l in m.ptes && m.ptes[k].frame == m.ptes[l].frame
    requires |Sharers(m.ptes, m.ptes[k].frame)| == 1
    ensures k == l
  {
    var s := Sharers(m.ptes, m.ptes[k].frame);
    assert l in s;
    assert |s - {k}| == 0;
  }

  lemma EntryRefs(m: Mem, loose: nat, k: (nat, nat))
    requires Inv(m, loose) && k in m.ptes
    ensures IsTable(m, k.0) && k.1 < PTES && IsPage(m, m.ptes[k].frame) && m.ptes[k].frame < |m.refs|
    ensures m.refs[m.ptes[k].frame] == |Sharers(m.ptes, m.ptes[k].frame)| + m.lost[m.ptes[k].frame]
    ensures |Sharers(m.ptes, m.ptes[k].frame)| > 0
  {
    assert PteOk(m, k) && FrameOk(m, loose, m.ptes[k].frame);
    assert k in Sharers(m.ptes, m.ptes[k].frame);
  }

  lemma NoSharers(m: Mem, loose: nat, f: nat)
    requires Inv(m, loose) && !IsPage(m, f)
    ensures Sharers(m.ptes, f) == {}
  {
    forall k | k in m.ptes ensures m.ptes[k].frame != f { assert PteOk(m, k); }
  }

  lemma FrameZero(m: Mem, loose: nat, f: nat)
    requires Inv(m, loose) && f in m.use && !m.use[f].Reserved?
    ensures f != 0
  {
  }

  lemma DropFrame(m: Mem, loose: nat, k: (nat, nat), g: nat)
    requires FrameOk(m, loose, g) && k in m.ptes && m.ptes[k].frame < |m.refs| && IsPage(m, m.ptes[k].frame)
    requires m.refs[m.ptes[k].frame] > 0
    ensures FrameOk(Drop(m, k), loose, g)
  {
    SharersClear(m.ptes, k, g);
    assert k in Sharers(m.ptes, m.ptes[k].frame);
    assert g != m.ptes[k].frame ==> Sharers(m.ptes, g) - {k} == Sharers(m.ptes, g);
  }

  lemma DropEntryOk(m: Mem, loose: nat, k: (nat, nat), l: (nat, nat))
    requires Inv(m, loose) && k in m.ptes && m.ptes[k].frame < |m.refs| && m.refs[m.ptes[k].frame] > 0
    ensures PdeOk(Drop(m, k), l) && PteOk(Drop(m, k), l)
  {
    EntryRefs(m, loose, k);
    assert PdeOk(m, l) && PteOk(m, l) && PteOk(m, k);
    if l in m.ptes && l != k && m.ptes[l].frame == m.ptes[k].frame && m.refs[m.ptes[k].frame] == 1 {
      OnlySharer(m, k, l);
    }
  }

  lemma DropKeeps(m: Mem, loose: nat, k: (nat, nat))
    requires Inv(m, loose) && k in m.ptes
    ensures m.ptes[k].frame < |m.refs| && m.refs[m.ptes[k].frame] > 0
    ensures Inv(Drop(m, k), loose)
  {
    EntryRefs(m, loose, k);
    var n := Drop(m, k);
    forall g: nat ensures FrameOk(n, loose, g) {
      assert FrameOk(m, loose, g);
      DropFrame(m, loose, k, g);
    }
    forall l: (nat, nat) ensures PdeOk(n, l) && PteOk(n, l) { DropEntryOk(m, loose, k, l); }
    forall l: (nat, nat), o: (nat, nat) ensures Agree(n, l, o) { assert Agree(m, l, o); }
  }

  lemma DropSpaces(m: Mem, k: (nat, nat))
    requires Inv(m, 0) && k in m.ptes
    ensures IsTable(m, k.0) && m.ptes[k].frame < |m.refs| && m.refs[m.ptes[k].frame] > 0
    ensures var t := m.use[k.0];
            IsDir(m, t.dir) && Spaces(Drop(m, k)) == Spaces(m)[t.dir := SpaceOf(m, t.dir) - {(t.slot, k.1)}]
  {
    EntryRefs(m, 0, k);
    assert FrameOk(m, 0, k.0);
    var n := Drop(m, k);
    var t := m.use[k.0];
    forall d, l: (nat, nat) | IsDir(m, d)
      ensures Mapped(n, d, l) == (Mapped(m, d, l) && !(d == t.dir && l == (t.slot, k.1)))
      ensures Mapped(n, d, l) ==> PageAt(n, d, l) == PageAt(m, d, l)
    {
      assert PdeOk(m, (d, l.0));
      if Mapped(m, d, l) {
        var o := (m.pdes[(d, l.0)], l.1);
        if o != k && m.ptes[o].frame == m.ptes[k].frame && m.refs[m.ptes[k].frame] == 1 {
          OnlySharer(m, k, o);
        }
      }
    }
    forall d | IsDir(m, d) && d != t.dir ensures SpaceOf(n, d) == SpaceOf(m, d) { }
    SpacesSet(m, n, t.dir, SpaceOf(m, t.dir) - {(t.slot, k.1)});
  }

  /** An emptied page table is unlinked and its frame freed. */
  function DropTable(m: Mem, t: nat): Mem
    requires t in m.use && m.use[t].Table? && t < |m.refs|
  {
    m.(use := m.use - {t}, pdes := m.pdes - {(m.use[t].dir, m.use[t].slot)}, refs := m.refs[t := 0])
  }

  lemma DropTableKeeps(m: Mem, t: nat)
    requires Inv(m, 0) && IsTable(m, t) && forall j :: (t, j) !in m.ptes
    ensures t < |m.refs| && Inv(DropTable(m, t), 0)
    ensures Spaces(DropTable(m, t)) == Spaces(m)
  {
    assert FrameOk(m, 0, t);
    var n := DropTable(m, t);
    forall g: nat ensures FrameOk(n, 0, g) { assert FrameOk(m, 0, g); }
    forall k: (nat, nat)
      ensures PdeOk(n, k) && PteOk(n, k)
    {
      assert PdeOk(m, k) && PteOk(m, k) && (t, k.1) !in m.ptes;
    }
    forall k: (nat, nat), l: (nat, nat) ensures Agree(n, k, l) { assert Agree(m, k, l); }
    forall d | IsDir(m, d)
      ensures SpaceOf(n, d) == SpaceOf(m, d)
    {
      forall k: (nat, nat)
        ensures Mapped(n, d, k) == Mapped(m, d, k)
      {
        assert (t, k.1) !in m.ptes && PdeOk(m, (d, k.0));
      }
    }
  }

  /** An emptied page directory is freed. */
  function DropDir(m: Mem, d: nat): Mem
    requires d < |m.refs|
  {
    m.(use := m.use - {d}, refs := m.refs[d := 0])
  }

  lemma DropDirKeeps(m: Mem, d: nat)
    requires Inv(m, 0) && IsDir(m, d) && forall i :: (d, i) !in m.pdes
    ensures d < |m.refs| && Inv(DropDir(m, d), 0)
    ensures Spaces(DropDir(m, d)) == Spaces(m) - {d}
  {
    assert FrameOk(m, 0, d);
    var n := DropDir(m, d);
    forall g: nat
      ensures FrameOk(n, 0, g)
    {
      assert FrameOk(m, 0, g);
      if IsTable(m, g) {
        assert (d, m.use[g].slot) !in m.pdes;
      }
    }
    forall k: (nat, nat) ensures PdeOk(n, k) && PteOk(n, k) { assert PdeOk(m, k) && PteOk(m, k); }
    forall k: (nat, nat), l: (nat, nat) ensures Agree(n, k, l) { assert Agree(m, k, l); }
    forall e | IsDir(m, e) && e != d ensures SpaceOf(n, e) == SpaceOf(m, e) { }
  }

  // ------------------------------------------------------------------ writing

  /** The copy branch of the fault handler: entry k moves to the fresh frame f. */
  function Unshare(m: Mem, k: (nat, nat), f: nat): Mem
    requires k in m.ptes && m.ptes[k].frame in m.use && m.use[m.ptes[k].frame].Page?
    requires f < |m.refs| && m.ptes[k].frame < |m.refs| && m.refs[m.ptes[k].frame] > 0
  {
    var from := m.ptes[k].frame;
    m.(ptes := m.ptes[k := m.ptes[k].(frame := f, write := true, cow := false)],
       use := m.use[f := m.use[from]],
       refs := m.refs[from := m.refs[from] - 1][f := 1])
  }

  lemma UnshareFrame(m: Mem, k: (nat, nat), f: nat, g: nat)
    requires Inv(m, 0) && k in m.ptes && f < |m.refs| && m.refs[f] == 0
    requires IsPage(m, m.ptes[k].frame) && m.ptes[k].frame < |m.refs| && m.refs[m.ptes[k].frame] > 1
    ensures FrameOk(Unshare(m, k, f), 0, g)
  {
    var p := m.ptes[k].(frame := f, write := true, cow := false);
    assert FrameOk(m, 0, g) && FrameOk(m, 0, f);
    SharersSet(m.ptes, k, p, g);
    assert k in Sharers(m.ptes, m.ptes[k].frame);
    assert FrameOk(m, 0, m.ptes[k].frame);
    NoSharers(m, 0, f);
  }

  lemma UnshareKeeps(m: Mem, k: (nat, nat), f: nat)
    requires Inv(m, 0) && k in m.ptes && f < |m.refs| && m.refs[f] == 0
    requires m.ptes[k].frame < |m.refs| && m.refs[m.ptes[k].frame] > 1
    ensures IsPage(m, m.ptes[k].frame) && Inv(Unshare(m, k, f), 0)
  {
    EntryRefs(m, 0, k);
    assert FrameOk(m, 0, f);
    var n := Unshare(m, k, f);
    forall g: nat ensures FrameOk(n, 0, g) { UnshareFrame(m, k, f, g); }
    forall l: (nat, nat) ensures PdeOk(n, l) && PteOk(n, l) { assert PdeOk(m, l) && PteOk(m, l); }
    forall l: (nat, nat), o: (nat, nat)
      ensures Agree(n, l, o)
    {
      assert Agree(m, l, o) && PteOk(m, l) && PteOk(m, o);
    }
  }

  lemma UnshareSpaces(m: Mem, k: (nat, nat), f: nat)
    requires Inv(m, 0) && k in m.ptes && m.ptes[k].cow && f < |m.refs| && m.refs[f] == 0
    requires m.ptes[k].frame < |m.refs| && m.refs[m.ptes[k].frame] > 1
    ensures IsPage(m, m.ptes[k].frame) && Spaces(Unshare(m, k, f)) == Spaces(m)
  {
    EntryRefs(m, 0, k);
    assert FrameOk(m, 0, f);
    var n := Unshare(m, k, f);
    forall d: nat, l: (nat, nat)
      ensures Mapped(n, d, l) == Mapped(m, d, l)
      ensures Mapped(m, d, l) ==> PageAt(n, d, l) == PageAt(m, d, l)
    {
      if (d, l.0) in m.pdes {
        assert PteOk(m, (m.pdes[(d, l.0)], l.1));
      }
    }
    forall d | IsDir(m, d) ensures SpaceOf(n, d) == SpaceOf(m, d) { }
  }

  /** The single-reference branch of the fault handler: write permission comes back. */
  function Unlock(m: Mem, k: (nat, nat)): Mem
    requires k in m.ptes
  {
    m.(ptes := m.ptes[k := m.ptes[k].(write := true, cow := false)])
  }

  lemma UnlockKeeps(m: Mem, k: (nat, nat))
    requires Inv(m, 0) && k in m.ptes && m.ptes[k].cow
    requires m.ptes[k].frame < |m.refs| && m.refs[m.ptes[k].frame] == 1
    ensures Inv(Unlock(m, k), 0)
    ensures Spaces(Unlock(m, k)) == Spaces(m)
  {
    EntryRefs(m, 0, k);
    var n := Unlock(m, k);
    forall g: nat
      ensures FrameOk(n, 0, g)
    {
      assert FrameOk(m, 0, g);
      assert Sharers(n.ptes, g) == Sharers(m.ptes, g);
    }
    forall l: (nat, nat) ensures PdeOk(n, l) && PteOk(n, l) { assert PdeOk(m, l) && PteOk(m, l); }
    forall l: (nat, nat), o: (nat, nat)
      ensures Agree(n, l, o)
    {
      assert Agree(m, l, o);
      if l == k && o in m.ptes && m.ptes[o].frame == m.ptes[k].frame {
        OnlySharer(m, k, o);
      }
    }
    forall d | IsDir(m, d) ensures SpaceOf(n, d) == SpaceOf(m, d) { }
  }

  /** The processor stores byte b at offset off of the page behind entry k. */
  function Store(m: Mem, k: (nat, nat), off: nat, b: byte): Mem
    requires k in m.ptes && m.ptes[k].frame in m.use && m.use[m.ptes[k].frame].Page?
    requires off < |m.use[m.ptes[k].frame].bytes|
  {
    var f := m.ptes[k].frame;
    m.(use := m.use[f := Page(m.use[f].bytes[off := b])])
  }

  lemma StoreKeeps(m: Mem, k: (nat, nat), off: nat, b: byte)
    requires Inv(m, 0) && k in m.ptes && off < PAGE
    ensures IsPage(m, m.ptes[k].frame) && off < |m.use[m.ptes[k].frame].bytes|
    ensures Inv(Store(m, k, off, b), 0)
  {
    EntryRefs(m, 0, k);
    assert FrameOk(m, 0, m.ptes[k].frame);
    var n := Store(m, k, off, b);
    forall g: nat ensures FrameOk(n, 0, g) { assert FrameOk(m, 0, g); }
    forall l: (nat, nat) ensures PdeOk(n, l) && PteOk(n, l) { assert PdeOk(m, l) && PteOk(m, l); }
    forall l: (nat, nat), o: (nat, nat) ensures Agree(n, l, o) { assert Agree(m, l, o); }
  }

  /** A store through a writable entry is seen by the process that owns the entry
      and by nobody else. */
  lemma StoreSpaces(m: Mem, k: (nat, nat), off: nat, b: byte)
    requires Inv(m, 0) && k in m.ptes && m.ptes[k].write && off < PAGE
    ensures IsTable(m, k.0) && IsPage(m, m.ptes[k].frame) && off < |m.use[m.ptes[k].frame].bytes|
    ensures var t := m.use[k.0]; var a := (t.slot, k.1);
            && IsDir(m, t.dir) && Mapped(m, t.dir, a)
            && var v := PageAt(m, t.dir, a);
               off < |v.bytes|
               && Spaces(Store(m, k, off, b)) ==
                  Spaces(m)[t.dir := SpaceOf(m, t.dir)[a := v.(bytes := v.bytes[off := b])]]
  {
    EntryRefs(m, 0, k);
    assert FrameOk(m, 0, m.ptes[k].frame) && FrameOk(m, 0, k.0);
    var n := Store(m, k, off, b);
    var t := m.use[k.0];
    var a := (t.slot, k.1);
    var v := PageAt(m, t.dir, a);
    forall d, l: (nat, nat) | IsDir(m, d)
      ensures Mapped(n, d, l) == Mapped(m, d, l)
      ensures Mapped(m, d, l) ==>
                (PageAt(n, d, l) == if d == t.dir && l == a then v.(bytes := v.bytes[off := b]) else PageAt(m, d, l))
    {
      if Mapped(m, d, l) {
        var o := (m.pdes[(d, l.0)], l.1);
        assert PdeOk(m, (d, l.0)) && PteOk(m, o) && Agree(m, k, o);
      }
    }
    forall d | IsDir(m, d) && d != t.dir ensures SpaceOf(n, d) == SpaceOf(m, d) { }
    SpacesSet(m, n, t.dir, SpaceOf(m, t.dir)[a := v.(bytes := v.bytes[off := b])]);
  }

  /** A fresh frame the kernel holds and has not mapped yet counts as reserved. */
  function Hold(m: Mem, f: nat): Mem
    requires f < |m.refs|
  {
    m.(use := m.use[f := Reserved], refs := m.refs[f := 1])
  }

  lemma HoldKeeps(m: Mem, f: nat)
    requires Inv(m, 0) && f < |m.refs| && m.refs[f] == 0
    ensures f !in m.use && f != 0 && Inv(Hold(m, f), 0)
    ensures Spaces(Hold(m, f)) == Spaces(m)
  {
    HoldInv(m, f);
    var n := Hold(m, f);
    hide Inv;
    forall d | IsDir(m, d) ensures SpaceOf(n, d) == SpaceOf(m, d) { HoldSpace(m, f, d); }
    hide SpaceOf;
  }

  lemma HoldInv(m: Mem, f: nat)
    requires Inv(m, 0) && f < |m.refs| && m.refs[f] == 0
    ensures f !in m.use && f != 0 && Inv(Hold(m, f), 0)
  {
    var n := Hold(m, f);
    assert FrameOk(m, 0, f) && FrameOk(m, 0, 0);
    forall g: nat ensures FrameOk(n, 0, g) { assert FrameOk(m, 0, g); }
    forall k: (nat, nat) ensures PdeOk(n, k) && PteOk(n, k) { assert PdeOk(m, k) && PteOk(m, k); }
    forall k: (nat, nat), l: (nat, nat)
      ensures Agree(n, k, l)
    {
      assert Agree(m, k, l) && PteOk(m, k) && PteOk(m, l);
    }
  }

  lemma HoldSpace(m: Mem, f: nat, d: nat)
    requires f < |m.refs| && f !in m.use && IsDir(m, d)
    ensures SpaceOf(Hold(m, f), d) == SpaceOf(m, d)
  {
  }

  /** The held frame is released without having been mapped. */
  lemma UnholdKeeps(m: Mem, f: nat)
    requires Inv(m, 0) && f in m.use && f != 0 && m.use[f].Reserved? && f < |m.refs| && m.refs[f] == 1
    ensures Inv(m.(use := m.use - {f}, refs := m.refs[f := 0]), 0)
    ensures Spaces(m.(use := m.use - {f}, refs := m.refs[f := 0])) == Spaces(m)
  {
    var n := m.(use := m.use - {f}, refs := m.refs[f := 0]);
    forall g: nat ensures FrameOk(n, 0, g) { assert FrameOk(m, 0, g); }
    forall k: (nat, nat) ensures PdeOk(n, k) && PteOk(n, k) { assert PdeOk(m, k) && PteOk(m, k); }
    forall k: (nat, nat), l: (nat, nat) ensures Agree(n, k, l) { assert Agree(m, k, l); }
    forall d | IsDir(m, d) ensures SpaceOf(n, d) == SpaceOf(m, d) { }
  }

  function ZeroPage(): seq<byte> {
    seq(PAGE, _ => 0)
  }

  lemma ZeroPageIs()
    ensures |ZeroPage()| == PAGE && forall i :: 0 <= i < PAGE ==> ZeroPage()[i] == 0
  {
  }

  /** What is lost when entry k is overwritten: the reference of the frame it mapped. */
  function Lost(m: Mem, k: (nat, nat)): multiset<nat> {
    if k in m.ptes then multiset{m.ptes[k].frame} else multiset{}
  }

  /** The held, zeroed frame is mapped by entry k. A present entry is overwritten as it
      is, without dropping its reference. */
  function MapHeld(m: Mem, k: (nat, nat), p: Pte): Mem {
    m.(ptes := m.ptes[k := p], use := m.use[p.frame := Page(ZeroPage())], lost := m.lost + Lost(m, k))
  }

  ghost predicate Holds(m: Mem, f: nat) {
    f in m.use && f != 0 && m.use[f].Reserved? && f < |m.refs| && m.refs[f] == 1
  }

  lemma FrameAt(m: Mem, loose: nat, f: nat)
    requires Inv(m, loose)
    ensures FrameOk(m, loose, f)
  {
  }

  lemma SharesFrame(m: Mem, k: (nat, nat))
    requires Inv(m, 0) && k in m.ptes
    ensures IsPage(m, m.ptes[k].frame) && k in Sharers(m.ptes, m.ptes[k].frame)
  {
    assert PteOk(m, k);
  }

  lemma SharersWithout(ptes: map<(nat, nat), Pte>, k: (nat, nat), f: nat)
    ensures !(k in ptes && ptes[k].frame == f) ==> Sharers(ptes, f) - {k} == Sharers(ptes, f)
  {
  }

  lemma MapHeldFrame(m: Mem, k: (nat, nat), p: Pte, g: nat)
    requires Inv(m, 0) && Holds(m, p.frame)
    ensures FrameOk(MapHeld(m, k, p), 0, g)
  {
    hide Inv, Sharers;
    FrameAt(m, 0, g);
    FrameAt(m, 0, p.frame);
    NoSharers(m, 0, p.frame);
    SharersSet(m.ptes, k, p, g);
    if k in m.ptes { SharesFrame(m, k); }
    SharersWithout(m.ptes, k, g);
    assert g != p.frame && !(k in m.ptes && m.ptes[k].frame == g) ==> Sharers(m.ptes, g) - {k} == Sharers(m.ptes, g);
  }

  lemma MapHeldKeeps(m: Mem, k: (nat, nat), p: Pte)
    requires Inv(m, 0) && IsTable(m, k.0) && k.1 < PTES && Holds(m, p.frame)
    ensures Inv(MapHeld(m, k, p), 0)
  {
    var n := MapHeld(m, k, p);
    NoSharers(m, 0, p.frame);
    forall l | l in m.ptes ensures m.ptes[l].frame != p.frame { assert l !in Sharers(m.ptes, p.frame); }
    forall g: nat ensures FrameOk(n, 0, g) { MapHeldFrame(m, k, p, g); }
    forall l: (nat, nat) ensures PdeOk(n, l) && PteOk(n, l) { assert PdeOk(m, l) && PteOk(m, l); }
    forall l: (nat, nat), o: (nat, nat)
      ensures Agree(n, l, o)
    {
      assert Agree(m, l, o) && PteOk(m, l) && PteOk(m, o);
    }
  }

  /** Every count of a page is the number of entries that map it. */
  ghost predicate Exact(m: Mem) {
    forall f: nat {:trigger m.refs[f]} :: f < |m.refs| && IsPage(m, f) ==> m.refs[f] == |Sharers(m.ptes, f)|
  }

  /** That is so exactly as long as no entry has been mapped over. */
  lemma ExactIff(m: Mem)
    requires Inv(m, 0)
    ensures Exact(m) <==> m.lost == multiset{}
  {
    if Exact(m) {
      forall f: nat ensures m.lost[f] == 0 {
        assert FrameOk(m, 0, f);
        assert f < |m.refs| ==> m.refs[f] >= 0;
      }
      assert m.lost == multiset{};
    } else {
      var f: nat :| f < |m.refs| && IsPage(m, f) && m.refs[f] != |Sharers(m.ptes, f)|;
      assert FrameOk(m, 0, f);
    }
  }

  /** Mapping keeps the counts exact if and only if the address was not mapped. */
  lemma MapHeldExact(m: Mem, k: (nat, nat), p: Pte)
    requires Inv(m, 0) && Exact(m) && IsTable(m, k.0) && k.1 < PTES && Holds(m, p.frame)
    ensures Exact(MapHeld(m, k, p)) <==> k !in m.ptes
  {
    MapHeldKeeps(m, k, p);
    ExactIff(m);
    ExactIff(MapHeld(m, k, p));
    if k in m.ptes { assert m.ptes[k].frame in MapHeld(m, k, p).lost; }
  }

  lemma MapHeldSpaces(m: Mem, k: (nat, nat), p: Pte)
    requires Inv(m, 0) && IsTable(m, k.0) && p.frame in m.use && m.use[p.frame].Reserved?
    ensures var t := m.use[k.0]; var a := (t.slot, k.1);
            && IsDir(m, t.dir)
            && Spaces(MapHeld(m, k, p)) ==
               Spaces(m)[t.dir := SpaceOf(m, t.dir)[a := View(ZeroPage(), p.write || p.cow, p.user, p.attr)]]
  {
    assert FrameOk(m, 0, k.0);
    var n := MapHeld(m, k, p);
    var t := m.use[k.0];
    var a := (t.slot, k.1);
    forall d: nat, l: (nat, nat)
      ensures Mapped(n, d, l) == (Mapped(m, d, l) || (d == t.dir && l == a))
      ensures Mapped(m, d, l) && !(d == t.dir && l == a) ==> PageAt(n, d, l) == PageAt(m, d, l)
    {
      assert PdeOk(m, (d, l.0));
      if (d, l.0) in m.pdes {
        assert PteOk(m, (m.pdes[(d, l.0)], l.1));
      }
    }
    forall d | IsDir(m, d) && d != t.dir ensures SpaceOf(n, d) == SpaceOf(m, d) { }
    SpacesSet(m, n, t.dir, SpaceOf(m, t.dir)[a := View(ZeroPage(), p.write || p.cow, p.user, p.attr)]);
  }

  /** Linking an empty table shows nothing. */
  lemma LinkEmptySpaces(m: Mem, t: nat)
    requires Inv(m, t) && IsTable(m, t) && forall j :: (t, j) !in m.ptes
    ensures Spaces(Link(m, t)) == Spaces(m)
  {
    var n := Link(m, t);
    assert FrameOk(m, t, t);
    forall d | IsDir(m, d)
      ensures SpaceOf(n, d) == SpaceOf(m, d)
    {
      forall k: (nat, nat) ensures Mapped(n, d, k) == Mapped(m, d, k) { assert (t, k.1) !in m.ptes; }
    }
  }

  // -------------------------------------------------- whole-table comparisons

  /** b is a after clone's inner loop handled the first n entries of t. */
  ghost predicate Copied(a: map<(nat, nat), Pte>, b: map<(nat, nat), Pte>, t: nat, u: nat, n: nat) {
    && (forall k: (nat, nat) :: k in a ==>
          k in b && b[k] == if k.0 == t && k.1 < n then Restrict(a[k]) else a[k])
    && (forall k: (nat, nat) :: k in b && k !in a ==> k.0 == u && k.1 < n && (t, k.1) in a)
    && (forall x: nat :: x < n && (t, x) in a ==> (u, x) in b && b[(u, x)] == Restrict(a[(t, x)]))
  }

  lemma CopiedNone(a: map<(nat, nat), Pte>, t: nat, u: nat)
    ensures Copied(a, a, t, u, 0)
  {
  }

  lemma CopiedStep(a: map<(nat, nat), Pte>, b: map<(nat, nat), Pte>, t: nat, u: nat, n: nat)
    requires Copied(a, b, t, u, n) && t != u && forall x: nat :: (u, x) !in a
    ensures (t, n) in a <==> (t, n) in b
    ensures (u, n) !in b
    ensures (t, n) in b ==> Copied(a, b[(t, n) := Restrict(b[(t, n)])][(u, n) := Restrict(b[(t, n)])], t, u, n + 1)
    ensures (t, n) !in b ==> Copied(a, b, t, u, n + 1)
  {
    hide Restrict;
    assert (u, n) !in a;
    if (t, n) in b { CopiedEntry(a, b, t, u, n); }
  }

  lemma CopiedEntry(a: map<(nat, nat), Pte>, b: map<(nat, nat), Pte>, t: nat, u: nat, n: nat)
    requires Copied(a, b, t, u, n) && t != u && (t, n) in a && (t, n) in b && (u, n) !in a
    ensures Copied(a, b[(t, n) := Restrict(b[(t, n)])][(u, n) := Restrict(b[(t, n)])], t, u, n + 1)
  {
    hide Restrict;
    var c := b[(t, n) := Restrict(b[(t, n)])][(u, n) := Restrict(b[(t, n)])];
    forall k: (nat, nat) | k in a
      ensures k in c && c[k] == if k.0 == t && k.1 < n + 1 then Restrict(a[k]) else a[k]
    {
      assert k in b && b[k] == if k.0 == t && k.1 < n then Restrict(a[k]) else a[k];
    }
    assert b[(t, n)] == a[(t, n)];
  }

  /** The boot-time frames and their counts are the same. */
  ghost predicate SameReserved(m: Mem, n: Mem) {
    && |m.refs| == |n.refs|
    && (forall f :: f in m.use && m.use[f].Reserved? <==> f in n.use && n.use[f].Reserved?)
    && (forall f :: 0 <= f < |m.refs| && f in m.use && m.use[f].Reserved? ==> n.refs[f] == m.refs[f])
  }

  /** The reference count of any frame, read off the directories, the directory
      entries and the table entries. */
  lemma RefFormula(m: Mem, f: nat)
    requires Inv(m, 0) && f < |m.refs| && !(f in m.use && m.use[f].Reserved?)
    ensures m.refs[f] == if f in Dirs(m) || f in m.pdes.Values then 1 else |Sharers(m.ptes, f)| + m.lost[f]
  {
    assert FrameOk(m, 0, f);
    forall k | k in m.pdes ensures IsTable(m, m.pdes[k]) { assert PdeOk(m, k); }
    if IsTable(m, f) {
      assert m.pdes[(m.use[f].dir, m.use[f].slot)] == f;
    } else if f !in m.use {
      NoSharers(m, 0, f);
    }
  }

  lemma RefsDetermined(m: Mem, n: Mem)
    requires Inv(m, 0) && Inv(n, 0) && SameReserved(m, n)
    requires Dirs(m) == Dirs(n) && m.pdes == n.pdes && m.ptes.Keys == n.ptes.Keys && m.lost == n.lost
    requires forall k :: k in m.ptes ==> m.ptes[k].frame == n.ptes[k].frame
    ensures m.refs == n.refs
  {
    forall f: nat | f < |m.refs|
      ensures m.refs[f] == n.refs[f]
    {
      assert Sharers(m.ptes, f) == Sharers(n.ptes, f);
      if !(f in m.use && m.use[f].Reserved?) {
        RefFormula(m, f);
        RefFormula(n, f);
      }
    }
  }

  /** When no directory is left, the references that are left are those reserved at boot
      and those lost. */
  lemma NothingLeaks(m: Mem)
    requires Inv(m, 0) && Dirs(m) == {}
    ensures forall f :: 0 <= f < |m.refs| && !(f in m.use && m.use[f].Reserved?) ==> m.refs[f] == m.lost[f]
  {
    forall d: nat ensures !IsDir(m, d) { assert d !in Dirs(m); }
    forall t: nat ensures !IsTable(m, t) { assert FrameOk(m, 0, t); }
    forall k: (nat, nat)
      ensures k !in m.pdes && k !in m.ptes
    {
      assert PdeOk(m, k) && PteOk(m, k);
      assert k in m.pdes ==> IsTable(m, m.pdes[k]);
    }
    forall f: nat | f < |m.refs| && !(f in m.use && m.use[f].Reserved?)
      ensures m.refs[f] == m.lost[f]
    {
      RefFormula(m, f);
      assert Sharers(m.ptes, f) == {};
    }
  }

  // ---------------------------------------------------------- tearing down

  /** The words of frame t below index n removed. */
  ghost function Without<V>(a: map<(nat, nat), V>, t: nat, n: int): (b: map<(nat, nat), V>)
    ensures forall k: (nat, nat) :: k in b <==> k in a && !(k.0 == t && k.1 < n)
    ensures forall k: (nat, nat) :: k in b ==> b[k] == a[k]
  {
    map k | k in a && !(k.0 == t && k.1 < n) :: a[k]
  }

  /** The table entries left once the tables in slots below i of directory d are gone. */
  ghost function EntriesWithout(m: Mem, d: nat, i: int): (b: map<(nat, nat), Pte>)
    ensures forall k: (nat, nat) :: k in b <==>
              k in m.ptes && !(IsTable(m, k.0) && m.use[k.0].dir == d && m.use[k.0].slot < i)
    ensures forall k: (nat, nat) :: k in b ==> b[k] == m.ptes[k]
  {
    map k | k in m.ptes && !(IsTable(m, k.0) && m.use[k.0].dir == d && m.use[k.0].slot < i) :: m.ptes[k]
  }

  lemma EntriesWithoutStep(m: Mem, d: nat, i: nat)
    requires Inv(m, 0)
    ensures (d, i) in m.pdes ==> Without(EntriesWithout(m, d, i), m.pdes[(d, i)], PTES) == EntriesWithout(m, d, i + 1)
    ensures (d, i) !in m.pdes ==> EntriesWithout(m, d, i) == EntriesWithout(m, d, i + 1)
  {
    forall k | k in m.ptes
      ensures IsTable(m, k.0) && k.1 < PTES
      ensures m.use[k.0].dir == d && m.use[k.0].slot == i <==> (d, i) in m.pdes && k.0 == m.pdes[(d, i)]
    {
      assert PteOk(m, k) && FrameOk(m, 0, k.0) && PdeOk(m, (d, i));
    }
  }

  /** Nothing but user pages disappeared, and nothing changed. */
  ghost predicate Shrunk(a: map<nat, Use>, b: map<nat, Use>) {
    && (forall f :: f in b ==> f in a && b[f] == a[f])
    && (forall f :: f in a && !a[f].Page? ==> f in b)
  }

  /** m is m0 after the first n entries of table t were dropped. */
  ghost predicate Emptying(m0: Mem, m: Mem, t: nat, n: int)
    requires IsTable(m0, t)
  {
    && m.pdes == m0.pdes && m.ptes == Without(m0.ptes, t, n)
    && Shrunk(m0.use, m.use) && SameReserved(m0, m)
    && Spaces(m) - {m0.use[t].dir} == Spaces(m0) - {m0.use[t].dir}
  }

  lemma TableKept(m0: Mem, m: Mem, t: nat)
    requires IsTable(m0, t) && Shrunk(m0.use, m.use)
    ensures IsTable(m, t) && m.use[t] == m0.use[t]
  {
  }

  lemma DropUse(m0: Mem, m: Mem, k: (nat, nat))
    requires Shrunk(m0.use, m.use) && SameReserved(m0, m)
    requires k in m.ptes && m.ptes[k].frame < |m.refs| && m.refs[m.ptes[k].frame] > 0 && IsPage(m, m.ptes[k].frame)
    ensures Shrunk(m0.use, Drop(m, k).use) && SameReserved(m0, Drop(m, k))
  {
  }

  lemma EmptyingNone(m: Mem, t: nat)
    requires IsTable(m, t)
    ensures Emptying(m, m, t, 0)
  {
  }

  lemma EmptyingStep(m0: Mem, m: Mem, t: nat, j: nat)
    requires IsTable(m0, t) && Inv(m, 0) && Emptying(m0, m, t, j)
    ensures (t, j) in m.ptes ==> m.ptes[(t, j)].frame < |m.refs| && m.refs[m.ptes[(t, j)].frame] > 0
                                 && Emptying(m0, Drop(m, (t, j)), t, j + 1)
    ensures (t, j) !in m.ptes ==> Emptying(m0, m, t, j + 1)
  {
    hide Inv, Spaces, Shrunk, SameReserved;
    if (t, j) in m.ptes {
      EntryRefs(m, 0, (t, j));
      DropSpaces(m, (t, j));
      DropUse(m0, m, (t, j));
      TableKept(m0, m, t);
      assert Without(m0.ptes, t, j + 1) == m.ptes - {(t, j)};
    } else {
      assert Without(m0.ptes, t, j + 1) == m.ptes;
    }
  }

  /** m is m0 after the tables in the first i slots of directory d were freed. */
  ghost predicate Torn(m0: Mem, m: Mem, d: nat, i: int) {
    && m.pdes == Without(m0.pdes, d, i) && m.ptes == EntriesWithout(m0, d, i)
    && (forall f :: f in m.use ==> f in m0.use && m.use[f] == m0.use[f])
    && IsDir(m, d) && SameReserved(m0, m)
    && Spaces(m) - {d} == Spaces(m0) - {d}
  }

  lemma TornNone(m: Mem, d: nat)
    requires IsDir(m, d)
    ensures Torn(m, m, d, 0)
  {
  }

  /** With all slots freed, freeing the directory itself completes the tear-down. */
  lemma TornDone(m0: Mem, m: Mem, d: nat)
    requires Inv(m, 0) && Torn(m0, m, d, PDES)
    ensures d < |m.refs| && IsDir(m, d) && Inv(DropDir(m, d), 0) && SameReserved(m0, DropDir(m, d))
    ensures m.pdes == Without(m0.pdes, d, PDES) && m.ptes == EntriesWithout(m0, d, PDES)
    ensures Spaces(DropDir(m, d)) == Spaces(m0) - {d}
    ensures d in m0.use && forall f :: f in DropDir(m, d).use ==> f in m0.use
  {
    assert FrameOk(m, 0, d);
    forall k: (nat, nat)
      ensures !(k in m.pdes && k.0 == d)
    {
      assert PdeOk(m, k);
      assert k in m.pdes ==> FrameOk(m, 0, m.pdes[k]);
    }
    forall i: nat ensures (d, i) !in m.pdes { assert (d, i) !in m.pdes || (d, i).0 != d; }
    DropDirKeeps(m, d);
  }

  lemma TornSkip(m0: Mem, m: Mem, d: nat, i: nat)
    requires Inv(m0, 0) && Torn(m0, m, d, i) && (d, i) !in m.pdes
    ensures Torn(m0, m, d, i + 1)
  {
    hide Inv, Spaces;
    EntriesWithoutStep(m0, d, i);
    assert Without(m0.pdes, d, i + 1) == m.pdes;
  }

  lemma SameReservedSelf(m: Mem)
    ensures SameReserved(m, m)
  {
  }

  lemma SameReservedTrans(a: Mem, b: Mem, c: Mem)
    requires SameReserved(a, b) && SameReserved(b, c)
    ensures SameReserved(a, c)
  {
  }

  lemma SameReservedDropTable(m: Mem, t: nat)
    requires IsTable(m, t) && t < |m.refs|
    ensures SameReserved(m, DropTable(m, t))
  {
  }

  lemma EmptiedTable(m0: Mem, e: Mem, t: nat)
    requires IsTable(m0, t) && Inv(e, 0) && Emptying(m0, e, t, PTES)
    ensures IsTable(e, t) && e.use[t] == m0.use[t] && e.pdes == m0.pdes && t < |e.refs| && forall j :: (t, j) !in e.ptes
  {
    assert FrameOk(e, 0, t);
    forall j: nat ensures (t, j) !in e.ptes { assert PteOk(e, (t, j)); }
  }

  lemma TornStep(m0: Mem, m: Mem, e: Mem, d: nat, i: nat)
    requires Inv(m0, 0) && Inv(e, 0) && Torn(m0, m, d, i) && (d, i) in m.pdes
    requires IsTable(m, m.pdes[(d, i)]) && m.use[m.pdes[(d, i)]] == Table(d, i)
    requires Emptying(m, e, m.pdes[(d, i)], PTES)
    ensures IsTable(e, m.pdes[(d, i)]) && m.pdes[(d, i)] < |e.refs|
    ensures Inv(DropTable(e, m.pdes[(d, i)]), 0) && Torn(m0, DropTable(e, m.pdes[(d, i)]), d, i + 1)
  {
    hide Inv, Spaces, SameReserved;
    var t := m.pdes[(d, i)];
    EmptiedTable(m, e, t);
    var n := DropTable(e, t);
    DropTableKeeps(e, t);
    EntriesWithoutStep(m0, d, i);
    assert n.pdes == Without(m0.pdes, d, i + 1);
    SameReservedTrans(m0, m, e);
    SameReservedDropTable(e, t);
    SameReservedTrans(m0, e, n);
  }

  // ------------------------------------------------------- a clone in progress

  ghost function Below(s: Space, i: int): Space {
    imap k: (nat, nat) | k in s && k.0 < i :: s[k]
  }

  lemma BelowNone(s: Space)
    ensures Below(s, 0) == imap[]
  {
  }

  lemma BelowStep(m: Mem, d: nat, i: nat)
    requires (d, i) !in m.pdes
    ensures Below(SpaceOf(m, d), i + 1) == Below(SpaceOf(m, d), i)
  {
    forall k: (nat, nat) | k.0 == i ensures k !in SpaceOf(m, d) { assert !Mapped(m, d, k); }
  }

  lemma BelowAll(m: Mem, d: nat)
    requires Inv(m, 0)
    ensures Below(SpaceOf(m, d), PDES) == SpaceOf(m, d)
  {
    forall k: (nat, nat) | k in SpaceOf(m, d)
      ensures k.0 < PDES
    {
      assert Mapped(m, d, k) && PdeOk(m, (d, k.0)) && FrameOk(m, 0, m.pdes[(d, k.0)]);
    }
  }

  /** The copied table holds the same words as its source. */
  lemma CopiedSame(m: Mem, t: nat, u: nat, a: map<(nat, nat), Pte>)
    requires Inv(m, u) && Copied(a, m.ptes, t, u, PTES) && forall x: nat :: (u, x) !in a
    ensures forall x: nat :: (u, x) in m.ptes <==> (t, x) in m.ptes
    ensures forall x: nat :: (t, x) in m.ptes ==> m.ptes[(u, x)] == m.ptes[(t, x)]
  {
    forall x: nat
      ensures (u, x) in m.ptes <==> (t, x) in m.ptes
      ensures (t, x) in m.ptes ==> m.ptes[(u, x)] == m.ptes[(t, x)]
    {
      assert PteOk(m, (t, x)) && (u, x) !in a;
    }
  }

  lemma LinkPoint(m: Mem, src: nat, d: nat, t: nat, u: nat, i: nat, k: (nat, nat))
    requires u in m.use && m.use[u] == Table(d, i) && src != d && (src, i) in m.pdes && m.pdes[(src, i)] == t
    requires (u, k.1) in m.ptes <==> (t, k.1) in m.ptes
    requires (t, k.1) in m.ptes ==> m.ptes[(u, k.1)] == m.ptes[(t, k.1)]
    requires SpaceOf(m, d) == Below(SpaceOf(m, src), i)
    ensures Mapped(Link(m, u), d, k) <==> Mapped(m, src, k) && k.0 < i + 1
    ensures Mapped(Link(m, u), d, k) ==> PageAt(Link(m, u), d, k) == PageAt(m, src, k)
  {
    assert Mapped(m, d, k) <==> k in SpaceOf(m, d);
    assert Mapped(m, d, k) ==> PageAt(m, d, k) == SpaceOf(m, d)[k];
  }

  /** Linking the copied table u makes slot i of d show what slot i of src shows. */
  lemma LinkShows(m: Mem, src: nat, d: nat, t: nat, u: nat, i: nat)
    requires Inv(m, u) && src != d && IsDir(m, src) && IsDir(m, d)
    requires u in m.use && m.use[u] == Table(d, i) && (src, i) in m.pdes && m.pdes[(src, i)] == t
    requires forall x: nat :: (u, x) in m.ptes <==> (t, x) in m.ptes
    requires forall x: nat :: (t, x) in m.ptes ==> m.ptes[(u, x)] == m.ptes[(t, x)]
    requires SpaceOf(m, d) == Below(SpaceOf(m, src), i)
    ensures Spaces(Link(m, u)) == Spaces(m)[d := Below(SpaceOf(m, src), i + 1)]
  {
    hide Inv, Mapped, PageAt;
    var n := Link(m, u);
    LinkKeeps(m, u);
    forall k: (nat, nat)
      ensures Mapped(n, d, k) <==> Mapped(m, src, k) && k.0 < i + 1
      ensures Mapped(n, d, k) ==> PageAt(n, d, k) == PageAt(m, src, k)
    {
      LinkPoint(m, src, d, t, u, i, k);
    }
    SpacesSet(m, n, d, Below(SpaceOf(m, src), i + 1));
  }

  ghost predicate ForkingPdes(m0: Mem, m: Mem, d: nat) {
    && (forall k: (nat, nat) :: k in m0.pdes ==> k in m.pdes && m.pdes[k] == m0.pdes[k])
    && (forall k: (nat, nat) :: k in m.pdes && k !in m0.pdes ==> k.0 == d)
  }

  ghost predicate ForkingPtes(m0: Mem, m: Mem, d: nat) {
    && (forall k: (nat, nat) :: k in m0.ptes ==> k in m.ptes && m.ptes[k].frame == m0.ptes[k].frame)
    && (forall k: (nat, nat) :: k in m.ptes && k !in m0.ptes ==> IsTable(m, k.0) && m.use[k.0].dir == d)
  }

  /** m is m0 plus a directory d that is being filled by clone. */
  ghost predicate Forking(m0: Mem, m: Mem, d: nat) {
    && SameReserved(m0, m)
    && d !in m0.use
    && (forall f :: f in m0.use ==> f in m.use && m.use[f] == m0.use[f])
    && ForkingPdes(m0, m, d) && ForkingPtes(m0, m, d)
  }

  lemma ForkingStart(m: Mem, f: nat)
    requires Inv(m, 0) && f < |m.refs| && m.refs[f] == 0
    ensures Forking(m, NewDir(m, f), f)
  {
    assert FrameOk(m, 0, f);
  }

  lemma ForkingReserved(m0: Mem, m: Mem, d: nat)
    requires Forking(m0, m, d)
    ensures SameReserved(m0, m)
  {
  }

  lemma ForkingPtesStep(m0: Mem, m: Mem, n: Mem, d: nat, i: nat, t: nat, u: nat)
    requires ForkingPtes(m0, m, d) && u !in m.use
    requires n.use == m.use[u := Table(d, i)] && Copied(m.ptes, n.ptes, t, u, PTES)
    ensures ForkingPtes(m0, n, d)
  {
    forall k: (nat, nat) | k in m0.ptes ensures k in n.ptes && n.ptes[k].frame == m0.ptes[k].frame {
      CopiedFrame(m.ptes, n.ptes, t, u, k);
    }
    forall k: (nat, nat) | k in n.ptes && k !in m0.ptes ensures IsTable(n, k.0) && n.use[k.0].dir == d {
      CopiedFrame(m.ptes, n.ptes, t, u, k);
    }
  }

  lemma CopiedFrame(a: map<(nat, nat), Pte>, b: map<(nat, nat), Pte>, t: nat, u: nat, k: (nat, nat))
    requires Copied(a, b, t, u, PTES)
    ensures k in a ==> k in b && b[k].frame == a[k].frame
    ensures k in b && k !in a ==> k.0 == u
  {
  }

  lemma ForkingStep(m0: Mem, m: Mem, n: Mem, d: nat, i: nat, t: nat, u: nat)
    requires Forking(m0, m, d) && u !in m.use && SameReserved(m, n)
    requires n.use == m.use[u := Table(d, i)] && n.pdes == m.pdes[(d, i) := u] && (d, i) !in m.pdes
    requires Copied(m.ptes, n.ptes, t, u, PTES)
    ensures Forking(m0, n, d)
  {
    hide Copied, ForkingPtes, SameReserved;
    SameReservedTrans(m0, m, n);
    ForkingPtesStep(m0, m, n, d, i, t, u);
  }

  lemma SameReservedLink(m: Mem, a: Mem, b: Mem, u: nat, d: nat, i: nat)
    requires u < |m.refs| && u !in m.use && a == NewTable(m, u, d, i) && SameReserved(a, b) && IsTable(b, u)
    ensures SameReserved(m, Link(b, u))
  {
  }

  lemma SpacesAt(m: Mem, n: Mem, d: nat)
    requires Spaces(m) == Spaces(n) && IsDir(m, d)
    ensures IsDir(n, d) && SpaceOf(m, d) == SpaceOf(n, d)
  {
    assert Spaces(m)[d] == SpaceOf(m, d);
    assert d in Spaces(n) && Spaces(n)[d] == SpaceOf(n, d);
  }

  lemma SpaceIs(m: Mem, m0: Mem, src: nat, d: nat, i: int)
    requires IsDir(m0, src) && src != d && Spaces(m) == Spaces(m0)[d := Below(SpaceOf(m0, src), i)]
    ensures IsDir(m, src) && IsDir(m, d) && SpaceOf(m, src) == SpaceOf(m0, src)
    ensures SpaceOf(m, d) == Below(SpaceOf(m, src), i)
  {
    assert src in Spaces(m) && Spaces(m)[src] == SpaceOf(m, src) && Spaces(m0)[src] == SpaceOf(m0, src);
    assert d in Spaces(m) && Spaces(m)[d] == SpaceOf(m, d);
  }

  lemma FreeNotUsed(m: Mem, f: nat)
    requires Inv(m, 0) && f < |m.refs| && m.refs[f] == 0
    ensures f !in m.use
  {
    assert FrameOk(m, 0, f);
  }

  lemma NoEntries(m: Mem, f: nat)
    requires Inv(m, 0) && f !in m.use
    ensures forall i :: (f, i) !in m.pdes
  {
    forall i: nat
      ensures (f, i) !in m.pdes
    {
      assert PdeOk(m, (f, i));
      assert (f, i) in m.pdes ==> FrameOk(m, 0, m.pdes[(f, i)]);
    }
  }

  lemma ShownAt(m: Mem, d: nat, k: (nat, nat))
    requires IsDir(m, d) && Mapped(m, d, k)
    ensures d in Spaces(m) && Spaces(m)[d] == SpaceOf(m, d) && k in SpaceOf(m, d) && SpaceOf(m, d)[k] == PageAt(m, d, k)
  {
  }

  lemma ShownIff(m: Mem, d: nat, k: (nat, nat))
    requires Inv(m, 0)
    ensures k in SpaceOf(m, d) <==> (d, k.0) in m.pdes && (m.pdes[(d, k.0)], k.1) in m.ptes
  {
    assert k in SpaceOf(m, d) <==> Mapped(m, d, k);
    assert (d, k.0) in m.pdes ==> PteOk(m, (m.pdes[(d, k.0)], k.1));
  }

  lemma SpaceIn(m: Mem, d: nat)
    requires IsDir(m, d)
    ensures d in Spaces(m) && Spaces(m)[d] == SpaceOf(m, d)
  {
  }

  lemma InSpaces(m: Mem, d: nat)
    ensures d in Spaces(m) <==> IsDir(m, d)
  {
  }

  lemma DirsAreKeys(m: Mem)
    ensures Dirs(m) == Spaces(m).Keys
  {
  }

  /** Dropping that directory again restores every reference count. */
  lemma ForkUndone(m0: Mem, m: Mem, n: Mem, d: nat)
    requires Inv(m0, 0) && Inv(n, 0) && Forking(m0, m, d)
    requires n.pdes == Without(m.pdes, d, PDES) && n.ptes == EntriesWithout(m, d, PDES)
    requires Inv(m, 0) && SameReserved(m, n) && Dirs(n) == Dirs(m0) && n.lost == m0.lost
    ensures n.refs == m0.refs
  {
    ForkUndonePdes(m0, m, d);
    ForkUndonePtes(m0, m, d);
    RefsDetermined(m0, n);
  }

  lemma ForkUndonePdes(m0: Mem, m: Mem, d: nat)
    requires Inv(m0, 0) && Inv(m, 0) && Forking(m0, m, d)
    ensures Without(m.pdes, d, PDES) == m0.pdes
  {
    forall k: (nat, nat)
      ensures k in m0.pdes ==> k.0 != d
      ensures k in m.pdes ==> k.1 < PDES
    {
      assert PdeOk(m, k) && PdeOk(m0, k);
      assert k in m0.pdes ==> FrameOk(m0, 0, m0.pdes[k]);
      assert k in m.pdes ==> FrameOk(m, 0, m.pdes[k]);
    }
  }

  lemma ForkUndonePtes(m0: Mem, m: Mem, d: nat)
    requires Inv(m0, 0) && Inv(m, 0) && Forking(m0, m, d)
    ensures EntriesWithout(m, d, PDES).Keys == m0.ptes.Keys
  {
    forall k: (nat, nat)
      ensures k in m0.ptes ==> IsTable(m, k.0) && m.use[k.0].dir != d
      ensures k in m.ptes ==> IsTable(m, k.0) && m.use[k.0].slot < PDES
    {
      assert PteOk(m, k) && PteOk(m0, k);
      assert k in m0.ptes ==> FrameOk(m0, 0, k.0);
      assert k in m.ptes ==> FrameOk(m, 0, k.0);
    }
  }

  // ----------------------------------------- steps keep the boot-time frames

  lemma SameReservedNewDir(m: Mem, f: nat)
    requires f < |m.refs| && f !in m.use
    ensures SameReserved(m, NewDir(m, f))
  {
  }

  lemma SameReservedDrop(m: Mem, k: (nat, nat))
    requires k in m.ptes && m.ptes[k].frame < |m.refs| && m.refs[m.ptes[k].frame] > 0 && IsPage(m, m.ptes[k].frame)
    ensures SameReserved(m, Drop(m, k))
  {
  }

  lemma SameReservedUnshare(m: Mem, k: (nat, nat), f: nat)
    requires k in m.ptes && IsPage(m, m.ptes[k].frame) && f !in m.use
    requires f < |m.refs| && m.ptes[k].frame < |m.refs| && m.refs[m.ptes[k].frame] > 0
    ensures SameReserved(m, Unshare(m, k, f))
  {
  }

  /** The boot-time frames and their counts are the same, apart from frame f. */
  ghost predicate ReservedBut(m: Mem, n: Mem, f: nat) {
    && |m.refs| == |n.refs|
    && (forall g :: g != f ==> (g in m.use && m.use[g].Reserved? <==> g in n.use && n.use[g].Reserved?))
    && (forall g :: 0 <= g < |m.refs| && g != f && g in m.use && m.use[g].Reserved? ==> n.refs[g] == m.refs[g])
  }

  lemma ReservedButMap(m: Mem, n: Mem, k: (nat, nat), p: Pte)
    requires SameReserved(m, n)
    ensures ReservedBut(m, n, p.frame) && ReservedBut(m, MapHeld(n, k, p), p.frame)
  {
  }

  lemma ReservedButFree(m: Mem, n: Mem, f: nat)
    requires ReservedBut(m, n, f) && f < |n.refs|
    ensures ReservedBut(m, n.(use := n.use - {f}, refs := n.refs[f := 0]), f)
  {
  }

  /** A frame that was held for a while and is no longer reserved. */
  lemma SameReservedHeld(m: Mem, f: nat, n: Mem)
    requires f < |m.refs| && f !in m.use && ReservedBut(Hold(m, f), n, f) && !(f in n.use && n.use[f].Reserved?)
    ensures SameReserved(m, n)
  {
    var h := Hold(m, f);
    forall g
      ensures g in m.use && m.use[g].Reserved? <==> g in n.use && n.use[g].Reserved?
    {
      assert g != f ==> (g in h.use && h.use[g].Reserved? <==> g in n.use && n.use[g].Reserved?);
    }
    forall g | 0 <= g < |m.refs| && g in m.use && m.use[g].Reserved? ensures n.refs[g] == m.refs[g] {
      assert g != f && g in h.use && h.use[g].Reserved?;
    }
  }

  lemma SameReservedStore(m: Mem, k: (nat, nat), off: nat, b: byte)
    requires k in m.ptes && IsPage(m, m.ptes[k].frame) && off < |m.use[m.ptes[k].frame].bytes|
    ensures SameReserved(m, Store(m, k, off, b))
  {
  }

  /** Two states without processes have the same reference counts exactly if the same
      references are lost. */
  lemma EmptyRefs(m: Mem, n: Mem)
    requires Inv(m, 0) && Inv(n, 0) && SameReserved(m, n) && Spaces(m) == map[] && Spaces(n) == map[]
    ensures m.refs == n.refs <==> m.lost == n.lost
  {
    DirsAreKeys(m);
    DirsAreKeys(n);
    NothingLeaks(m);
    NothingLeaks(n);
    forall f: nat ensures f >= |m.refs| || (f in m.use && m.use[f].Reserved?) ==> m.lost[f] == n.lost[f] == 0 {
      assert FrameOk(m, 0, f) && FrameOk(n, 0, f);
    }
    hide Inv;
    if m.refs == n.refs {
      forall f: nat ensures m.lost[f] == n.lost[f] {
        if f < |m.refs| && !(f in m.use && m.use[f].Reserved?) { assert m.refs[f] == n.refs[f]; }
      }
      assert m.lost == n.lost;
    }
  }

  // ------------------------------------------------------- saturated counts

  /** Entry k is one clone of directory src has yet to share, from slot i and entry j on. */
  ghost predicate Ahead(m: Mem, src: nat, i: nat, j: nat, k: (nat, nat)) {
    && k in m.ptes && IsTable(m, k.0) && m.use[k.0].dir == src
    && (m.use[k.0].slot > i || (m.use[k.0].slot == i && k.1 >= j))
  }

  /** None of their frames has a count that is as large as it can get. */
  ghost predicate Roomy(m: Mem, max: nat, src: nat, i: nat, j: nat) {
    forall k: (nat, nat) {:trigger Ahead(m, src, i, j, k)} ::
      Ahead(m, src, i, j, k) && m.ptes[k].frame < |m.refs| ==> m.refs[m.ptes[k].frame] < max
  }

  lemma RoomyStep(m: Mem, max: nat, src: nat, i: nat, j: nat, a: nat, b: nat)
    requires Roomy(m, max, src, i, j) && (i < a || (i == a && j <= b))
    ensures Roomy(m, max, src, a, b)
  {
    forall k: (nat, nat) | Ahead(m, src, a, b, k) && m.ptes[k].frame < |m.refs|
      ensures m.refs[m.ptes[k].frame] < max
    {
      assert Ahead(m, src, i, j, k);
    }
  }

  /** All entries of table t, in slot i, are done. */
  lemma RoomySlot(m: Mem, loose: nat, max: nat, src: nat, i: nat)
    requires Inv(m, loose) && Roomy(m, max, src, i, PTES)
    ensures Roomy(m, max, src, i + 1, 0)
  {
    forall k: (nat, nat) | Ahead(m, src, i + 1, 0, k) && m.ptes[k].frame < |m.refs|
      ensures m.refs[m.ptes[k].frame] < max
    {
      assert PteOk(m, k) && Ahead(m, src, i, PTES, k);
    }
  }

  /** Sharing one entry counts up a frame none of the later entries maps. */
  lemma RoomyShare(m: Mem, max: nat, src: nat, t: nat, u: nat, i: nat, j: nat)
    requires Inv(m, u) && Roomy(m, max, src, i, j) && t != u && (t, j) in m.ptes && (u, j) !in m.ptes
    requires t in m.use && m.use[t] == Table(src, i) && IsTable(m, u) && m.use[u].dir != src
    requires m.ptes[(t, j)].frame < |m.refs|
    ensures Roomy(Share(m, t, u, j), max, src, i, j + 1)
  {
    var n := Share(m, t, u, j);
    forall k: (nat, nat) | Ahead(n, src, i, j + 1, k) && n.ptes[k].frame < |n.refs|
      ensures n.refs[n.ptes[k].frame] < max
    {
      assert k != (u, j) && k != (t, j);
      assert Ahead(m, src, i, j, k) && Agree(m, (t, j), k);
      assert FrameOk(m, u, t) && FrameOk(m, u, k.0);
    }
  }

  lemma RoomyAt(m: Mem, max: nat, src: nat, i: nat, j: nat, t: nat)
    requires Roomy(m, max, src, i, j) && (t, j) in m.ptes && t in m.use && m.use[t] == Table(src, i)
    ensures m.ptes[(t, j)].frame < |m.refs| ==> m.refs[m.ptes[(t, j)].frame] < max
  {
    assert Ahead(m, src, i, j, (t, j));
  }

  lemma RoomySame(m: Mem, n: Mem, max: nat, src: nat, i: nat, j: nat)
    requires Roomy(m, max, src, i, j) && n.use == m.use && n.ptes == m.ptes && n.refs == m.refs
    ensures Roomy(n, max, src, i, j)
  {
    forall k: (nat, nat) | Ahead(n, src, i, j, k) && n.ptes[k].frame < |n.refs|
      ensures n.refs[n.ptes[k].frame] < max
    {
      assert Ahead(m, src, i, j, k);
    }
  }

  /** A new directory or table changes nothing about the entries ahead. */
  lemma RoomyAdd(m: Mem, n: Mem, max: nat, src: nat, i: nat, j: nat, f: nat)
    requires Inv(m, 0) && Roomy(m, max, src, i, j) && f < |m.refs| && m.refs[f] == 0
    requires forall g :: g != f ==> (g in n.use <==> g in m.use) && (g in n.use ==> n.use[g] == m.use[g])
    requires n.ptes == m.ptes && n.refs == m.refs[f := 1]
    ensures Roomy(n, max, src, i, j)
  {
    assert FrameOk(m, 0, f);
    forall k: (nat, nat) | Ahead(n, src, i, j, k) && n.ptes[k].frame < |n.refs|
      ensures n.refs[n.ptes[k].frame] < max
    {
      assert PteOk(m, k) && Ahead(m, src, i, j, k);
    }
  }

  /** With fewer directories and lost references than a count can hold, none is full. */
  lemma RoomyBelow(m: Mem, max: nat, src: nat)
    requires Inv(m, 0) && |Dirs(m)| + |m.lost| < max
    ensures Roomy(m, max, src, 0, 0)
  {
    forall k: (nat, nat) | Ahead(m, src, 0, 0, k) && m.ptes[k].frame < |m.refs|
      ensures m.refs[m.ptes[k].frame] < max
    {
      assert PteOk(m, k);
      RefsBounded(m, 0, m.ptes[k].frame);
      LostBelow(m.lost, m.ptes[k].frame);
    }
  }

  lemma LostBelow(lost: multiset<nat>, f: nat)
    ensures lost[f] <= |lost|
  {
    assert |lost[f := 0]| >= 0;
  }

  /** What sharing does to a frame whose count is full: the count stays. */
  function ShareFull(m: Mem, t: nat, u: nat, j: nat): Mem
    requires (t, j) in m.ptes
  {
    var q := Restrict(m.ptes[(t, j)]);
    m.(ptes := m.ptes[(t, j) := q][(u, j) := q])
  }

  /** Then there is an entry without a reference, and the counts are wrong from there on. */
  lemma ShareFullBreaks(m: Mem, t: nat, u: nat, j: nat)
    requires Inv(m, u) && t != u && (t, j) in m.ptes && (u, j) !in m.ptes
    ensures !Inv(ShareFull(m, t, u, j), u)
  {
    EntryRefs(m, u, (t, j));
    var n := ShareFull(m, t, u, j);
    var q := Restrict(m.ptes[(t, j)]);
    var f := q.frame;
    SharersSet(m.ptes, (t, j), q, f);
    SharersSet(m.ptes[(t, j) := q], (u, j), q, f);
    assert (t, j) in Sharers(m.ptes, f);
    assert Sharers(m.ptes, f) + {(t, j)} == Sharers(m.ptes, f);
    assert Sharers(n.ptes, f) == Sharers(m.ptes, f) + {(u, j)};
    assert !FrameOk(n, u, f);
  }
}
