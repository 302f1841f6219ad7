/** Directories of src/fs/fat32.c, as the slots of their clusters in chain order: lookup,
    creation, removal and renaming of entries. */
module Directory {
  import opened Names

  const DOT_ENTRY := ".          "
  const DOTDOT_ENTRY := "..         "

  /** A slot never used (0x00), a deleted one (0xE5), or an entry. */
  datatype Slot = Blank | Deleted | Used(entry: string, isDir: bool, cluster: nat)

  predicate SlotOk(s: Slot) { s.Used? ==> |s.entry| == 11 }

  ghost predicate SlotsOk(slots: seq<Slot>) {
    forall i {:trigger slots[i]} :: 0 <= i < |slots| ==> SlotOk(slots[i])
  }

  /** Slot i holds an entry shown as n. */
  predicate Is(slots: seq<Slot>, i: int, n: string) {
    0 <= i < |slots| && slots[i].Used? && SlotOk(slots[i]) && Shown(slots[i].entry) == n
  }

  /** Slot i is the first that holds an entry shown as n. */
  ghost predicate FirstShown(slots: seq<Slot>, i: int, n: string) {
    Is(slots, i, n) && forall j :: 0 <= j < i ==> !Is(slots, j, n)
  }

  ghost predicate Lists(slots: seq<Slot>, n: string) {
    exists i {:trigger Is(slots, i, n)} :: Is(slots, i, n)
  }

  /** No two entries are shown alike. */
  ghost predicate Unique(slots: seq<Slot>) {
    forall i, j, n {:trigger Is(slots, i, n), Is(slots, j, n)} :: Is(slots, i, n) && Is(slots, j, n) ==> i == j
  }

  /** No entry behind a slot that was never used. */
  ghost predicate Tidy(slots: seq<Slot>) {
    forall i, j :: 0 <= i < j < |slots| && slots[i].Blank? ==> !slots[j].Used?
  }

  predicate Free(s: Slot) { s.Blank? || s.Deleted? }

  /** A free slot is one without an entry. */
  lemma FreeExact(s: Slot)
    ensures Free(s) <==> !s.Used?
  {
  }

  function FirstFree(slots: seq<Slot>, from: nat): (i: nat)
    requires from <= |slots|
    ensures from <= i <= |slots| && (i < |slots| ==> Free(slots[i]))
    ensures forall j :: from <= j < i ==> !Free(slots[j])
    decreases |slots| - from
  {
    if from == |slots| || Free(slots[from]) then from else FirstFree(slots, from + 1)
  }

  function Blanks(n: nat): (r: seq<Slot>)
    ensures |r| == n && forall i :: 0 <= i < n ==> r[i] == Blank
  {
    if n == 0 then [] else [Blank] + Blanks(n - 1)
  }

  /** The entry goes into the first free slot; a full directory grows by a zeroed cluster
      of `per` slots. */
  function Placed(slots: seq<Slot>, e: Slot, per: nat): seq<Slot>
    requires per > 0
  {
    var i := FirstFree(slots, 0);
    if i < |slots| then slots[i := e] else slots + [e] + Blanks(per - 1)
  }

  lemma PlacedIs(slots: seq<Slot>, e: Slot, per: nat, i: int, n: string)
    requires per > 0 && SlotsOk(slots) && e.Used? && SlotOk(e)
    ensures Is(Placed(slots, e, per), i, n) <==>
      if i == FirstFree(slots, 0) then Shown(e.entry) == n else Is(slots, i, n)
  {
  }

  lemma PlacedKeeps(slots: seq<Slot>, e: Slot, per: nat)
    requires per > 0 && SlotsOk(slots) && Tidy(slots) && e.Used? && SlotOk(e)
    ensures SlotsOk(Placed(slots, e, per)) && Tidy(Placed(slots, e, per))
  {
  }

  /** Exactly the new name is added. */
  lemma PlacedLists(slots: seq<Slot>, e: Slot, per: nat, n: string)
    requires per > 0 && SlotsOk(slots) && e.Used? && SlotOk(e)
    ensures Lists(Placed(slots, e, per), n) <==> Lists(slots, n) || n == Shown(e.entry)
  {
    var r, k := Placed(slots, e, per), FirstFree(slots, 0);
    PlacedIs(slots, e, per, k, n);
    if Lists(slots, n) {
      var i :| Is(slots, i, n);
      PlacedIs(slots, e, per, i, n);
    }
    if Lists(r, n) {
      var i :| Is(r, i, n);
      PlacedIs(slots, e, per, i, n);
    }
  }

  /** Names stay unique exactly if the shown form of the new one was not there. */
  lemma PlacedUnique(slots: seq<Slot>, e: Slot, per: nat)
    requires per > 0 && SlotsOk(slots) && Unique(slots) && e.Used? && SlotOk(e)
    ensures Unique(Placed(slots, e, per)) <==> !Lists(slots, Shown(e.entry))
  {
    var r, k, m := Placed(slots, e, per), FirstFree(slots, 0), Shown(e.entry);
    PlacedIs(slots, e, per, k, m);
    if Lists(slots, m) {
      var i :| Is(slots, i, m);
      PlacedIs(slots, e, per, i, m);
      assert Is(r, i, m) && Is(r, k, m) && i != k;
    } else {
      forall i, j, n | Is(r, i, n) && Is(r, j, n) ensures i == j {
        PlacedIs(slots, e, per, i, n);
        PlacedIs(slots, e, per, j, n);
      }
    }
  }

  /** An entry that is not "." or "..". */
  predicate Proper(s: Slot) {
    s.Used? && |s.entry| == 11 &&
    !(s.entry[0] == DOT && (s.entry[1] == BLANK || (s.entry[1] == DOT && s.entry[2] == BLANK)))
  }

  /** fat32_initialize_directory_cluster. */
  function NewSlots(per: nat, self: nat, parent: nat): seq<Slot>
    requires per >= 2
  {
    [Used(DOT_ENTRY, true, self), Used(DOTDOT_ENTRY, true, if parent < 2 then self else parent)] + Blanks(per - 2)
  }

  lemma NewOk(per: nat, self: nat, parent: nat)
    requires per >= 2
    ensures var slots := NewSlots(per, self, parent);
      SlotsOk(slots) && Tidy(slots) && Unique(slots) && forall i :: 0 <= i < |slots| ==> !Proper(slots[i])
  {
    DotsShown();
    hide Shown;
  }

  lemma NewShows(per: nat, self: nat, parent: nat)
    requires per >= 2
    ensures forall n {:trigger Lists(NewSlots(per, self, parent), n)} ::
              Lists(NewSlots(per, self, parent), n) <==> n == "." || n == ".."
  {
    DotsShown();
    hide Shown;
    var slots := NewSlots(per, self, parent);
    assert Is(slots, 0, ".") && Is(slots, 1, "..");
  }

  /** A directory that holds only its two dot entries. */
  ghost predicate NoneLeft(slots: seq<Slot>) {
    forall i :: 0 <= i < |slots| ==> !Proper(slots[i])
  }

  class Dir {
    var slots: seq<Slot>
    const per: nat

    ghost predicate Valid()
      reads this
    {
      per > 0 && SlotsOk(slots) && Tidy(slots)
    }

    /** A new directory: "." and ".." in a cleared cluster. */
    constructor (per: nat, self: nat, parent: nat)
      requires per >= 2
      ensures Valid() && Unique(slots) && this.per == per && NoneLeft(slots) && |slots| == per
      ensures forall n {:trigger Lists(slots, n)} :: Lists(slots, n) <==> n == "." || n == ".."
    {
      NewOk(per, self, parent);
      NewShows(per, self, parent);
      this.per := per;
      slots := NewSlots(per, self, parent);
    }

    /** fat32_find_file_in_dir: all slots are looked at. */
    method Find(name: string) returns (i: int)
      requires Valid()
      ensures i == -1 <==> !Lists(slots, Lower(name))
      ensures i != -1 ==> Is(slots, i, Lower(name)) && forall j :: 0 <= j < i ==> !Is(slots, j, Lower(name))
    {
      i := 0;
      while i < |slots|
        invariant 0 <= i <= |slots|
        invariant forall j {:trigger Is(slots, j, Lower(name))} :: 0 <= j < i ==> !Is(slots, j, Lower(name))
      {
        if slots[i].Used? {
          var shown := FormatName(slots[i].entry);
          ShownLower(slots[i].entry);
          if Lower(shown) == Lower(name) {
            assert Is(slots, i, Lower(name));
            return;
          }
        }
        i := i + 1;
      }
      i := -1;
    }

    /** fat32_dir_create_entry; `space` says whether a cluster can be had for a full
        directory. The name must be acceptable and, as given, not be listed. */
    method Create(name: string, isDir: bool, cluster: nat, space: bool) returns (ok: bool)
      requires Valid()
      modifies this
      ensures Valid()
      ensures ok <==> Accepted(name) && !old(Lists(slots, Lower(name))) &&
                      (space || FirstFree(old(slots), 0) < |old(slots)|)
      ensures slots == if ok then Placed(old(slots), Used(Short(name), isDir, cluster), per) else old(slots)
    {
      if name == "." || name == ".." {
        TooLong(name);
        return false;
      }
      var i := Find(name);
      if i != -1 { return false; }
      var short := MakeShort(name);
      if short.None? { return false; }
      PlacedKeeps(slots, Used(Short(name), isDir, cluster), per);
      hide Accepted, Short, Lower, Tidy, SlotsOk;
      var k := FindFree();
      if k == |slots| {
        if !space { return false; }
        slots := slots + Blanks(per);
        assert Blanks(per) == [Blank] + Blanks(per - 1);
      }
      slots := slots[k := Used(short.value, isDir, cluster)];
      ok := true;
    }

    /** fat32_find_free_dir_entry, up to the growth of the directory. */
    method FindFree() returns (k: nat)
      ensures k == FirstFree(slots, 0)
    {
      k := 0;
      while k < |slots| && !Free(slots[k])
        invariant 0 <= k <= |slots| && FirstFree(slots, 0) == FirstFree(slots, k)
      {
        k := k + 1;
      }
    }

    /** fat32_dir_is_empty stops at the first slot never used; in a tidy directory that is
        as good as looking at all. */
    method IsEmpty() returns (empty: bool)
      requires Valid()
      ensures empty <==> NoneLeft(slots)
    {
      var i := 0;
      while i < |slots|
        invariant 0 <= i <= |slots| && forall j :: 0 <= j < i ==> !Proper(slots[j])
      {
        if slots[i].Blank? { return true; }
        if Proper(slots[i]) { return false; }
        i := i + 1;
      }
      return true;
    }

    /** fat32_dir_remove_entry; `removable` says that a directory of that name is empty and
        not the root. The first entry of that name goes. */
    method Remove(name: string, removable: bool) returns (ok: bool)
      requires Valid()
      modifies this
      ensures Valid() && (old(Unique(slots)) ==> Unique(slots))
      ensures !ok ==> slots == old(slots)
      ensures ok ==> old(Lists(slots, Lower(name)))
      ensures forall i {:trigger FirstShown(old(slots), i, Lower(name))} :: FirstShown(old(slots), i, Lower(name)) ==>
                && (ok <==> name != "." && name != ".." && (removable || !old(slots)[i].isDir))
                && (ok ==> slots == old(slots)[i := Deleted])
      ensures ok && old(Unique(slots)) ==> forall n {:trigger Lists(slots, n)} ::
                Lists(slots, n) <==> old(Lists(slots, n)) && n != Lower(name)
    {
      if name == "." || name == ".." { return false; }
      var i := Find(name);
      if i == -1 { return false; }
      if slots[i].isDir && !removable { return false; }
      ghost var was := slots;
      slots := slots[i := Deleted];
      if Unique(was) { DroppedKeeps(was, i, Lower(name)); }
      ok := true;
    }

    /** fat32_dir_rename: the entry keeps its slot. */
    method Rename(from: string, to: string) returns (ok: bool)
      requires Valid()
      modifies this
      ensures Valid()
      ensures !ok || Lower(from) == Lower(to) ==> slots == old(slots)
      ensures ok && Lower(from) != Lower(to) ==> Accepted(to) && exists i ::
                FirstShown(old(slots), i, Lower(from)) && slots == old(slots)[i := old(slots)[i].(entry := Short(to))]
      ensures ok <==> && from !in {"", ".", ".."} && to !in {"", ".", ".."}
                      && (Lower(from) == Lower(to) ||
                          (old(Lists(slots, Lower(from))) && !old(Lists(slots, Lower(to))) && Accepted(to)))
      ensures ok && Lower(from) != Lower(to) && old(Unique(slots)) ==> forall n {:trigger Lists(slots, n)} ::
                Lists(slots, n) <==> (old(Lists(slots, n)) && n != Lower(from)) || n == Lower(Undotted(to))
    {
      hide Lower, Accepted, Short, Undotted, Shown, Unique, Tidy;
      if |from| == 0 || |to| == 0 || from in {".", ".."} || to in {".", ".."} { return false; }
      if Lower(from) == Lower(to) { return true; }
      var i := Find(from);
      if i == -1 { return false; }
      var j := Find(to);
      if j != -1 { return false; }
      var short := MakeShort(to);
      if short.None? { return false; }
      ghost var was := slots;
      ShownIsName(to);
      RenamedOk(was, i, Lower(from), short.value);
      slots := slots[i := slots[i].(entry := short.value)];
      if Unique(was) { RenamedLists(was, i, Lower(from), short.value); }
      ok := true;
    }
  }

  lemma DroppedKeeps(slots: seq<Slot>, i: nat, m: string)
    requires SlotsOk(slots) && Tidy(slots) && Unique(slots) && Is(slots, i, m)
    ensures var r := slots[i := Deleted];
      && SlotsOk(r) && Tidy(r) && Unique(r)
      && forall n {:trigger Lists(r, n)} :: Lists(r, n) <==> Lists(slots, n) && n != m
  {
    var r := slots[i := Deleted];
    forall j, n ensures Is(r, j, n) <==> Is(slots, j, n) && j != i { }
    forall n ensures Lists(r, n) <==> Lists(slots, n) && n != m {
      if Lists(slots, n) && n != m {
        var j :| Is(slots, j, n);
        assert Is(r, j, n);
      }
      if Lists(r, n) {
        var j :| Is(r, j, n);
        assert Is(slots, j, n);
      }
    }
  }

  lemma RenamedOk(slots: seq<Slot>, i: nat, m: string, entry: string)
    requires SlotsOk(slots) && Tidy(slots) && Is(slots, i, m) && |entry| == 11
    ensures var r := slots[i := slots[i].(entry := entry)]; SlotsOk(r) && Tidy(r)
  {
  }

  lemma RenamedLists(slots: seq<Slot>, i: nat, m: string, entry: string)
    requires SlotsOk(slots) && Tidy(slots) && Unique(slots) && Is(slots, i, m) && |entry| == 11
    ensures var r := slots[i := slots[i].(entry := entry)];
      && SlotsOk(r) && Tidy(r)
      && forall n {:trigger Lists(r, n)} :: Lists(r, n) <==> (Lists(slots, n) && n != m) || n == Shown(entry)
  {
    var r := slots[i := slots[i].(entry := entry)];
    forall j, n ensures Is(r, j, n) <==> if j == i then n == Shown(entry) else Is(slots, j, n) { }
    forall n ensures Lists(r, n) <==> (Lists(slots, n) && n != m) || n == Shown(entry) {
      if Lists(slots, n) && n != m {
        var j :| Is(slots, j, n);
        assert Is(r, j, n);
      }
      if n == Shown(entry) { assert Is(r, i, n); }
      if Lists(r, n) {
        var j :| Is(r, j, n);
        assert j != i ==> Is(slots, j, n);
      }
    }
  }

  // ------------------------------------------------------------- unique names

  /** Creating a file keeps names unique exactly if the name without its last dot is not
      listed; the lookup before it compares the name as given. */
  lemma CreateUnique(slots: seq<Slot>, name: string, isDir: bool, cluster: nat, per: nat)
    requires per > 0 && SlotsOk(slots) && Unique(slots) && Accepted(name) && !Lists(slots, Lower(name))
    ensures Unique(Placed(slots, Used(Short(name), isDir, cluster), per)) <==> !Lists(slots, Lower(Undotted(name)))
    ensures Undotted(name) == name ==> Unique(Placed(slots, Used(Short(name), isDir, cluster), per))
  {
    ShownIsName(name);
    PlacedUnique(slots, Used(Short(name), isDir, cluster), per);
  }

  /** Renaming keeps names unique exactly if no other entry is shown as the new name. */
  lemma RenameUnique(slots: seq<Slot>, i: nat, from: string, to: string)
    requires SlotsOk(slots) && Unique(slots) && Is(slots, i, Lower(from)) && Accepted(to)
    ensures var m := Lower(Undotted(to));
      Unique(slots[i := slots[i].(entry := Short(to))]) <==> m == Lower(from) || !Lists(slots, m)
  {
    var m, r := Lower(Undotted(to)), slots[i := slots[i].(entry := Short(to))];
    ShownIsName(to);
    hide Accepted, Short, Lower, Undotted;
    forall j, n ensures Is(r, j, n) <==> if j == i then n == m else Is(slots, j, n) { }
    if m != Lower(from) && Lists(slots, m) {
      var j :| Is(slots, j, m);
      assert Is(r, j, m) && Is(r, i, m);
    }
  }

  /** So a name that ends in a dot can be created beside the same name without it. */
  lemma DotMakesTwins(slots: seq<Slot>, name: string, isDir: bool, cluster: nat, per: nat)
    requires per > 0 && SlotsOk(slots) && Unique(slots) && Accepted(name) && Accepted(name + ".")
    requires Lists(slots, Lower(name)) && !Lists(slots, Lower(name + "."))
    ensures !Unique(Placed(slots, Used(Short(name + "."), isDir, cluster), per))
  {
    assert Undotted(name + ".") == name;
    CreateUnique(slots, name + ".", isDir, cluster, per);
  }

  /** Every entry that can be created counts when a directory is tested for being empty, and
      the two it is made with do not. */
  lemma OnlyDotsAreLeft(name: string, isDir: bool, cluster: nat)
    ensures Accepted(name) ==> Proper(Used(Short(name), isDir, cluster))
    ensures !Proper(Used(DOT_ENTRY, isDir, cluster)) && !Proper(Used(DOTDOT_ENTRY, isDir, cluster))
  {
    if Accepted(name) {
      ShortBytes(name, 0);
      assert name[0] == Main(name)[0];
    }
  }

  lemma {:induction false} LowerTwice(s: string)
    ensures Lower(Lower(s)) == Lower(s)
  {
    LowerAt(s);
    LowerAt(Lower(s));
  }

  lemma ShownLower(entry: string)
    requires |entry| == 11
    ensures Lower(Shown(entry)) == Shown(entry)
  {
    LowerTwice(Word(entry[..8]) + if Word(entry[8..]) == [] then [] else [DOT] + Word(entry[8..]));
  }

  /** A word is everything before the first blank. */
  lemma {:induction false} WordEnds(s: string, n: nat)
    requires n < |s| && s[n] == BLANK
    requires forall i :: 0 <= i < n ==> s[i] != BLANK && s[i] != 0 as char
    ensures Word(s) == s[..n]
  {
    if n > 0 {
      WordEnds(s[1..], n - 1);
      assert s[..n] == [s[0]] + s[1..][..n - 1];
    }
  }

  lemma OnlyName(entry: string, n: nat)
    requires |entry| == 11 && n < 8 && entry[n] == BLANK && entry[8] == BLANK
    requires forall i :: 0 <= i < n ==> entry[i] == DOT
    ensures Shown(entry) == entry[..n]
  {
    WordEnds(entry[..8], n);
    WordEnds(entry[8..], 0);
    LowerAt(entry[..n]);
    assert entry[..8][..n] + [] == entry[..n] == Lower(entry[..n]);
  }

  lemma DotsShown()
    ensures Shown(DOT_ENTRY) == "." && Shown(DOTDOT_ENTRY) == ".."
  {
    OnlyName(DOT_ENTRY, 1);
    OnlyName(DOTDOT_ENTRY, 2);
  }

  // ------------------------------------------------------------- runs

  datatype Op =
    | Create(name: string, isDir: bool, cluster: nat, space: bool)
    | Remove(name: string, removable: bool)
    | Rename(from: string, to: string)

  ghost function Shows(slots: seq<Slot>): iset<string> { iset n | Lists(slots, n) }

  /** What one operation does to the names that are shown. */
  ghost function Applied(names: iset<string>, op: Op, ok: bool): iset<string> {
    if !ok then names
    else match op
      case Create(name, _, _, _) => names + iset{Lower(Undotted(name))}
      case Remove(name, _) => names - iset{Lower(name)}
      case Rename(from, to) => if Lower(from) == Lower(to) then names
                               else names - iset{Lower(from)} + iset{Lower(Undotted(to))}
  }

  ghost function Outcome(names: iset<string>, ops: seq<Op>, oks: seq<bool>): iset<string>
    requires |oks| <= |ops|
  {
    var n := |oks|;
    if n == 0 then names else Applied(Outcome(names, ops, oks[..n - 1]), ops[n - 1], oks[n - 1])
  }

  /** The operation would show a name a second time: the name as given is not listed, but
      it is without its last dot. */
  ghost predicate Twins(slots: seq<Slot>, op: Op) {
    match op
    case Create(name, _, _, _) => Accepted(name) && !Lists(slots, Lower(name)) && Lists(slots, Lower(Undotted(name)))
    case Remove(_, _) => false
    case Rename(from, to) =>
      && Lower(from) != Lower(to) && from !in {"", ".", ".."} && to !in {"", ".", ".."} && Accepted(to)
      && Lists(slots, Lower(from)) && !Lists(slots, Lower(to))
      && Lower(Undotted(to)) != Lower(from) && Lists(slots, Lower(Undotted(to)))
  }

  /** No new name ends in a dot. */
  predicate Plain(op: Op) {
    match op
    case Create(name, _, _, _) => Undotted(name) == name
    case Remove(_, _) => true
    case Rename(_, to) => Undotted(to) == to
  }

  /** One operation on the slots s: whether it succeeds, and the slots t after it. */
  ghost predicate Transition(s: seq<Slot>, per: nat, op: Op, ok: bool, t: seq<Slot>) {
    match op
    case Create(name, isDir, cluster, space) =>
      && per > 0 && (ok <==> Accepted(name) && !Lists(s, Lower(name)) && (space || FirstFree(s, 0) < |s|))
      && t == if ok then Placed(s, Used(Short(name), isDir, cluster), per) else s
    case Remove(name, removable) =>
      if !Lists(s, Lower(name)) || name == "." || name == ".." then !ok && t == s
      else exists i ::
        && FirstShown(s, i, Lower(name)) && (ok <==> removable || !s[i].isDir)
        && t == if ok then s[i := Deleted] else s
    case Rename(from, to) =>
      && (ok <==> && from !in {"", ".", ".."} && to !in {"", ".", ".."}
                  && (Lower(from) == Lower(to) ||
                      (Lists(s, Lower(from)) && !Lists(s, Lower(to)) && Accepted(to))))
      && if !ok || Lower(from) == Lower(to) then t == s
         else Accepted(to) && exists i :: FirstShown(s, i, Lower(from)) && t == s[i := s[i].(entry := Short(to))]
  }

  ghost predicate Traced(all: seq<seq<Slot>>, per: nat, ops: seq<Op>, oks: seq<bool>) {
    && |all| == |oks| + 1 <= |ops| + 1
    && forall i :: 0 <= i < |oks| ==> Transition(all[i], per, ops[i], oks[i], all[i + 1])
  }

  method MakesTwins(d: Dir, op: Op) returns (twins: bool)
    requires d.Valid()
    ensures twins <==> Twins(d.slots, op)
  {
    hide Lower, Accepted, Undotted, Dir.Valid, Lists, Is;
    match op {
      case Create(name, _, _, _) =>
        var i := d.Find(name);
        var j := d.Find(Undotted(name));
        twins := Accepted(name) && i == -1 && j != -1;
      case Remove(_, _) =>
        twins := false;
      case Rename(from, to) =>
        var i := d.Find(from);
        var j := d.Find(to);
        var k := d.Find(Undotted(to));
        twins := Lower(from) != Lower(to) && from !in {"", ".", ".."} && to !in {"", ".", ".."} && Accepted(to)
          && i != -1 && j == -1 && Lower(Undotted(to)) != Lower(from) && k != -1;
    }
  }

  method Apply(d: Dir, op: Op) returns (ok: bool)
    requires d.Valid() && Unique(d.slots) && !Twins(d.slots, op)
    modifies d
    ensures d.Valid() && Unique(d.slots) && Shows(d.slots) == Applied(old(Shows(d.slots)), op, ok)
    ensures Transition(old(d.slots), d.per, op, ok, d.slots)
  {
    hide Lower, Accepted, Undotted, Unique, Tidy, Shown, Short;
    ghost var was := d.slots;
    match op {
      case Create(name, isDir, cluster, space) =>
        ok := d.Create(name, isDir, cluster, space);
        if ok { CreatedShows(was, name, isDir, cluster, d.per); }
      case Remove(name, removable) =>
        ok := d.Remove(name, removable);
        if Lists(was, Lower(name)) { ghost var i := TheFirst(was, Lower(name)); }
      case Rename(from, to) =>
        ok := d.Rename(from, to);
        if ok && Lower(from) != Lower(to) {
          ghost var i :| FirstShown(was, i, Lower(from)) && d.slots == was[i := was[i].(entry := Short(to))];
          RenameUnique(was, i, from, to);
        }
    }
  }

  lemma TheFirst(slots: seq<Slot>, n: string) returns (i: nat)
    requires Lists(slots, n)
    ensures FirstShown(slots, i, n)
  {
    hide Shown;
    var j :| Is(slots, j, n);
    i := 0;
    while !Is(slots, i, n)
      invariant 0 <= i <= j && forall k :: 0 <= k < i ==> !Is(slots, k, n)
      decreases j - i
    {
      i := i + 1;
    }
  }

  lemma CreatedShows(slots: seq<Slot>, name: string, isDir: bool, cluster: nat, per: nat)
    requires per > 0 && SlotsOk(slots) && Unique(slots) && Accepted(name) && !Lists(slots, Lower(name))
    requires !Lists(slots, Lower(Undotted(name)))
    ensures var r := Placed(slots, Used(Short(name), isDir, cluster), per);
      Unique(r) && Shows(r) == Shows(slots) + iset{Lower(Undotted(name))}
  {
    CreateUnique(slots, name, isDir, cluster, per);
    ShownIsName(name);
    hide Lower, Accepted, Undotted, Unique, Shown, Short, Placed, Lists;
    var e := Used(Short(name), isDir, cluster);
    forall n ensures n in Shows(Placed(slots, e, per)) <==> n in Shows(slots) + iset{Lower(Undotted(name))} {
      PlacedLists(slots, e, per, n);
    }
  }

  /** Every run of creations, removals and renamings from a directory with unique names
      keeps them unique and shows exactly the names it should, up to the first operation
      that would make twins; if no new name ends in a dot there is none. `all` holds the
      slots after each operation. */
  method Run(d: Dir, ops: seq<Op>) returns (oks: seq<bool>, ghost all: seq<seq<Slot>>)
    requires d.Valid() && Unique(d.slots)
    modifies d
    ensures d.Valid() && Unique(d.slots) && Traced(all, d.per, ops, oks)
    ensures all[0] == old(d.slots) && all[|oks|] == d.slots
    ensures Shows(d.slots) == Outcome(old(Shows(d.slots)), ops, oks)
    ensures |oks| < |ops| ==> Twins(d.slots, ops[|oks|])
    ensures (forall i :: 0 <= i < |ops| ==> Plain(ops[i])) ==> |oks| == |ops|
  {
    hide Unique, Lists, Lower, Accepted, Undotted, Dir.Valid, Applied, Transition;
    oks, all := [], [d.slots];
    var n := 0;
    while n < |ops|
      invariant 0 <= n == |oks| <= |ops| && d.Valid() && Unique(d.slots)
      invariant |all| == n + 1 && all[0] == old(d.slots) && all[n] == d.slots
      invariant forall i :: 0 <= i < n ==> Transition(all[i], d.per, ops[i], oks[i], all[i + 1])
      invariant Shows(d.slots) == Outcome(old(Shows(d.slots)), ops, oks)
    {
      var twins := MakesTwins(d, ops[n]);
      if twins { break; }
      var ok := Apply(d, ops[n]);
      assert (oks + [ok])[..n] == oks;
      oks, all, n := oks + [ok], all + [d.slots], n + 1;
    }
  }
}
