/** Whole runs of file operations, against one byte sequence per file. */
module Files {
  import opened Common
  import opened Chains
  import opened Fat32

  datatype Op =
    | Create(id: nat)
    | MakeDir(id: nat)
    | Unlink(id: nat)
    | WriteAt(id: nat, offset: nat, buf: seq<byte>)
    | ReadAt(id: nat, offset: nat, size: nat)
    | TruncateTo(id: nat, size: nat)

  /** What an operation reports. */
  datatype Outcome = Done | Refused | NoSpace | Bytes(bytes: seq<byte>)

  /** Offsets and sizes whose 32-bit sums and roundings do not wrap. */
  predicate InRange(op: Op, cs: nat) {
    match op
    case Create(_) => true
    case MakeDir(_) => true
    case Unlink(_) => true
    case WriteAt(_, offset, buf) => offset + |buf| + cs - 1 < TWO32
    case ReadAt(_, offset, size) => offset + size < TWO32
    case TruncateTo(_, size) => size + cs - 1 < TWO32
  }

  /** The plain file store: a map of byte sequences. Running out of space leaves
      everything as it was. */
  ghost predicate Step(s: map<nat, seq<byte>>, op: Op, r: Outcome, t: map<nat, seq<byte>>) {
    match r
    case NoSpace => t == s && (op.WriteAt? || op.TruncateTo? || op.MakeDir?)
    case Refused => t == s && (op.Create? || op.MakeDir? <==> op.id in s)
    case Bytes(b) => t == s && op.ReadAt? && op.id in s && b == Slice(s[op.id], op.offset, op.size)
    case Done =>
      match op
      case Create(id) => id !in s && t == s[id := []]
      case MakeDir(id) => id !in s && t == s[id := []]
      case Unlink(id) => id in s && t == s - {id}
      case WriteAt(id, offset, buf) => id in s && t == s[id := if buf == [] then s[id] else Splice(s[id], offset, buf)]
      case TruncateTo(id, size) => id in s && t == s[id := Resized(s[id], size)]
      case ReadAt(_, _, _) => false
  }

  ghost predicate Trace(states: seq<map<nat, seq<byte>>>, ops: seq<Op>, outs: seq<Outcome>) {
    && |states| == |ops| + 1 == |outs| + 1
    && forall i :: 0 <= i < |ops| ==> Step(states[i], ops[i], outs[i], states[i + 1])
  }

  /** Other files keep their bytes over any run that does not name them. */
  lemma {:induction false} OthersKept(states: seq<map<nat, seq<byte>>>, ops: seq<Op>, outs: seq<Outcome>,
                                      id: nat, i: nat, j: nat)
    requires Trace(states, ops, outs) && i <= j <= |ops|
    requires forall x :: i <= x < j ==> ops[x].id != id || ops[x].ReadAt?
    ensures id in states[j] <==> id in states[i]
    ensures id in states[i] ==> states[j][id] == states[i][id]
    decreases j
  {
    if i < j {
      OthersKept(states, ops, outs, id, i, j - 1);
      assert Step(states[j - 1], ops[j - 1], outs[j - 1], states[j]);
    }
  }

  /** What a write stored is read back, and a gap it left reads as zeros. */
  lemma ReadBack(s: map<nat, seq<byte>>, t: map<nat, seq<byte>>, id: nat, offset: nat, buf: seq<byte>, k: nat)
    requires buf != [] && Step(s, WriteAt(id, offset, buf), Done, t)
    ensures id in s && id in t && |t[id]| == if |s[id]| < offset + |buf| then offset + |buf| else |s[id]|
    ensures k < |t[id]| ==> t[id][k] == if offset <= k < offset + |buf| then buf[k - offset]
                                         else if k < |s[id]| then s[id][k] else 0
    ensures Slice(t[id], offset, |buf|) == buf
  {
  }

  /** A file that is cut or extended has the new size, its old bytes, and zeros behind them. */
  lemma TruncateBack(s: map<nat, seq<byte>>, t: map<nat, seq<byte>>, id: nat, size: nat, k: nat)
    requires Step(s, TruncateTo(id, size), Done, t)
    ensures id in s && id in t && |t[id]| == size && t == s[id := t[id]]
    ensures k < size ==> t[id][k] == if k < |s[id]| then s[id][k] else 0
  {
  }

  /** A read yields the bytes at the offset, as many as there are. */
  lemma ReadExactly(s: map<nat, seq<byte>>, t: map<nat, seq<byte>>, id: nat, offset: nat, size: nat,
                    b: seq<byte>, k: nat)
    requires Step(s, ReadAt(id, offset, size), Outcome.Bytes(b), t)
    ensures id in s && t == s
    ensures |b| == if offset >= |s[id]| then 0 else if size < |s[id]| - offset then size else |s[id]| - offset
    ensures k < |b| ==> b[k] == s[id][offset + k]
  {
  }

  // ------------------------------------------------------------- the volume

  /** What an operation reports: a lack of space exactly if the free clusters and those the
      file has do not suffice. */
  ghost predicate Answers(v: Vol, cs: nat, op: Op, r: Outcome)
    requires cs > 0 && v.files.Keys == v.chains.Keys
  {
    match op
    case Create(id) => r == if id in v.files then Refused else Done
    case MakeDir(id) => r == if id in v.files then Refused else if Free(v) == {} then NoSpace else Done
    case Unlink(id) => r == if id in v.files then Done else Refused
    case WriteAt(id, offset, buf) =>
      r == if id !in v.files then Refused
           else if buf != [] && !Fits(v, cs, id, offset + |buf|) then NoSpace else Done
    case ReadAt(id, offset, size) =>
      r == if id !in v.files then Refused else Outcome.Bytes(Slice(Content(v, cs, id), offset, size))
    case TruncateTo(id, size) =>
      r == if id !in v.files then Refused
           else if size > v.files[id].size && !Fits(v, cs, id, size) then NoSpace else Done
  }

  /** What it does to the clusters. A failed attempt to grow takes all free clusters into the
      chain and leaves the directory entry as it was. */
  ghost predicate Moves(v: Vol, cs: nat, op: Op, r: Outcome, w: Vol)
    requires cs > 0 && v.files.Keys == v.chains.Keys
  {
    if r == Refused || r.Bytes? then w == v
    else match op
      case Create(id) => w == Add(v, id)
      case MakeDir(id) => if r == NoSpace then w == v else Made(v, w, id)
      case Unlink(id) => Gone(v, w, id)
      case WriteAt(id, offset, buf) =>
        if buf == [] then w == v else id in v.files && Sized(v, w, cs, id, offset + |buf|)
      case TruncateTo(id, size) =>
        && id in v.files
        && if size == v.files[id].size then w == v
           else if size > v.files[id].size then Sized(v, w, cs, id, size) else Cropped(v, w, cs, id, size)
      case ReadAt(_, _, _) => true
  }

  ghost predicate Transition(v: Vol, cs: nat, op: Op, r: Outcome, w: Vol) {
    && Inv(v, cs) && Inv(w, cs)
    && Answers(v, cs, op, r) && Step(Contents(v, cs), op, r, Contents(w, cs)) && Moves(v, cs, op, r, w)
  }

  ghost predicate Traced(vols: seq<Vol>, cs: nat, ops: seq<Op>, outs: seq<Outcome>) {
    && |vols| == |ops| + 1 == |outs| + 1
    && forall i :: 0 <= i < |ops| ==> Transition(vols[i], cs, ops[i], outs[i], vols[i + 1])
  }

  ghost function Stores(vols: seq<Vol>, cs: nat): seq<map<nat, seq<byte>>> {
    seq(|vols|, i requires 0 <= i < |vols| => Contents(vols[i], cs))
  }

  /** Any run on a volume is one of the plain file store. */
  lemma StoresTrace(vols: seq<Vol>, cs: nat, ops: seq<Op>, outs: seq<Outcome>)
    requires Traced(vols, cs, ops, outs)
    ensures Trace(Stores(vols, cs), ops, outs)
  {
    hide Inv, Contents, Step, Answers, Moves;
    var states := Stores(vols, cs);
    forall i | 0 <= i < |ops| ensures Step(states[i], ops[i], outs[i], states[i + 1]) {
      assert Transition(vols[i], cs, ops[i], outs[i], vols[i + 1]);
    }
  }

  /** Every used cluster is in a file's chain, and every file with clusters can be reached by
      its directory entry. */
  ghost predicate Clean(v: Vol) { v.orphans == {} && forall id: nat :: !Stale(v, id) }

  lemma CleanOwned(v: Vol, cs: nat, c: nat)
    requires Inv(v, cs) && Clean(v) && 2 <= c < |v.fat|
    ensures v.fat[c] != FREE <==> InChain(v, c)
  {
    assert Owned(v, c);
  }

  /** Only a lack of space makes an entry stale, and only the removal of such a file makes
      orphans. */
  lemma StaysClean(v: Vol, cs: nat, op: Op, r: Outcome, w: Vol)
    requires Transition(v, cs, op, r, w) && Clean(v) && r != NoSpace
    ensures Clean(w)
  {
    hide Inv, Contents, Content, Step, Free, Slice, Required, Fits;
    forall id: nat ensures !Stale(w, id) {
      assert !Stale(v, id) && !Stale(v, op.id);
      NamedChain(w, cs, id);
      StaysReached(v, cs, op, r, w, id);
    }
  }

  lemma NamedChain(w: Vol, cs: nat, id: nat)
    requires Inv(w, cs)
    ensures Stale(w, id) ==> w.files[id].start >= 2
  {
    assert FileOk(w, cs, id);
  }

  lemma StaysReached(v: Vol, cs: nat, op: Op, r: Outcome, w: Vol, id: nat)
    requires Transition(v, cs, op, r, w) && r != NoSpace && !Stale(v, id)
    requires Stale(w, id) ==> w.files[id].start >= 2
    ensures !Stale(w, id)
  {
    hide Inv, Contents, Content, Step, Free, Slice, Required;
    assert op.id != id ==> w == v || SameFile(v, w, id);
  }

  /** In every run without a lack of space all clusters stay accounted for. */
  lemma {:induction false} RunStaysClean(vols: seq<Vol>, cs: nat, ops: seq<Op>, outs: seq<Outcome>, n: nat)
    requires Traced(vols, cs, ops, outs) && n <= |ops| && Clean(vols[0])
    requires forall i :: 0 <= i < n ==> outs[i] != NoSpace
    ensures Clean(vols[n])
  {
    hide Transition, Clean;
    if n > 0 {
      RunStaysClean(vols, cs, ops, outs, n - 1);
      assert Transition(vols[n - 1], cs, ops[n - 1], outs[n - 1], vols[n]);
      StaysClean(vols[n - 1], cs, ops[n - 1], outs[n - 1], vols[n]);
    }
  }

  /** A new file, a write for which the space does not suffice, and the removal of the file:
      no file has changed, and every cluster that was free is lost. */
  lemma FailedWriteLeaks(vols: seq<Vol>, cs: nat, outs: seq<Outcome>, id: nat, buf: seq<byte>)
    requires cs > 0 && Traced(vols, cs, [Create(id), WriteAt(id, 0, buf), Unlink(id)], outs)
    requires id !in vols[0].files && Free(vols[0]) != {} && |Free(vols[0])| < Required(|buf|, cs)
    ensures outs == [Done, NoSpace, Done] && Contents(vols[3], cs) == Contents(vols[0], cs)
    ensures Free(vols[3]) == {} && |vols[3].orphans - vols[0].orphans| == |Free(vols[0])|
  {
    hide Inv, Contents, Free, Required, OnlyFile, Transition;
    var ops := [Create(id), WriteAt(id, 0, buf), Unlink(id)];
    assert Transition(vols[0], cs, ops[0], outs[0], vols[1]);
    FirstLeak(vols[0], cs, id, outs[0], vols[1]);
    assert Transition(vols[1], cs, ops[1], outs[1], vols[2]);
    SecondLeak(vols[1], cs, id, buf, outs[1], vols[2]);
    assert Transition(vols[2], cs, ops[2], outs[2], vols[3]);
    ThirdLeak(vols[2], cs, id, outs[2], vols[3]);
  }

  lemma FirstLeak(v: Vol, cs: nat, id: nat, r: Outcome, w: Vol)
    requires Transition(v, cs, Create(id), r, w) && id !in v.files
    ensures r == Done && w == Add(v, id) && Free(w) == Free(v) && id !in Contents(v, cs)
    ensures Contents(w, cs) == Contents(v, cs)[id := []]
  {
    hide Inv, Content;
    AddFree(v, id);
  }

  lemma SecondLeak(v: Vol, cs: nat, id: nat, buf: seq<byte>, r: Outcome, w: Vol)
    requires Transition(v, cs, WriteAt(id, 0, buf), r, w) && id in v.files && id in v.chains && v.chains[id] == []
    requires cs > 0 && v.files[id].entry == 0 && Free(v) != {} && |Free(v)| < Required(|buf|, cs)
    ensures r == NoSpace && Contents(w, cs) == Contents(v, cs) && Free(w) == {} && w.orphans == v.orphans
    ensures id in w.files && id in w.chains && w.files[id].entry == 0 && |w.chains[id]| == |Free(v)|
  {
    hide Inv, Contents, Free, Required, OnlyFile;
    RequiredNone(cs);
  }

  lemma RequiredNone(cs: nat)
    requires cs > 0
    ensures Required(0, cs) == 0
  {
  }

  lemma ThirdLeak(v: Vol, cs: nat, id: nat, r: Outcome, w: Vol)
    requires Transition(v, cs, Unlink(id), r, w) && id in v.files && id in v.chains
    requires v.chains[id] != [] && v.files[id].entry == 0 && Free(v) == {}
    ensures r == Done && Free(w) == {} && Contents(w, cs) == Contents(v, cs) - {id}
    ensures |w.orphans - v.orphans| == |v.chains[id]|
  {
    hide Contents, Free, OnlyFile;
    CutApart(v, cs, id, 0);
    DistinctSize(v.chains[id]);
    forall c | c in Members(v.chains[id]) ensures c !in v.orphans {
      assert Owned(v, c) && InChain(v, c);
    }
    assert w.orphans - v.orphans == Members(v.chains[id]);
  }

  method Do(v: Volume, op: Op) returns (r: Outcome)
    requires v.Valid() && InRange(op, v.cs)
    modifies v
    ensures v.Valid() && Transition(old(v.State()), v.cs, op, r, v.State())
  {
    hide Contents, Content, Inv, Volume.CopiesOk, Splice, Slice, Resized, Fits, Sized, Cropped, Gone, Made, Free, Add;
    v.ValidCs();
    Domain(v.State(), v.cs, op.id);
    if op.id in v.files {
      ContentsAt(v.State(), v.cs, op.id);
      SizeFits(v.State(), v.cs, op.id);
    }
    match op {
      case Create(id) =>
        if id in v.files {
          return Refused;
        }
        v.NewFile(id);
        r := Done;
      case MakeDir(id) =>
        if id in v.files {
          return Refused;
        }
        var ok := v.NewDirectory(id);
        r := if ok then Done else NoSpace;
      case Unlink(id) =>
        if id !in v.files {
          return Refused;
        }
        v.Remove(id);
        r := Done;
      case WriteAt(id, offset, buf) =>
        if id !in v.files {
          return Refused;
        }
        var n := v.Write(id, offset, buf);
        assert buf[..|buf|] == buf;
        r := if n < |buf| then NoSpace else Done;
      case ReadAt(id, offset, size) =>
        if id !in v.files {
          return Refused;
        }
        var b := v.Read(id, offset, size);
        BytesLength(v.State(), v.cs, id);
        ReadExact(Chains.Bytes(v.State(), v.cs, id), v.files[id].size, offset, size);
        r := Outcome.Bytes(b);
      case TruncateTo(id, size) =>
        if id !in v.files {
          return Refused;
        }
        var ok := v.Truncate(id, size);
        r := if ok then Done else NoSpace;
    }
    v.ValidCs();
  }

  lemma Domain(v: Vol, cs: nat, id: nat)
    ensures id in Contents(v, cs) <==> id in v.files
  {
  }

  /** Any sequence of operations on a volume, step by step: what each reports, what it does
      to the contents, and which clusters it takes, gives back or loses. */
  method Run(v: Volume, ops: seq<Op>) returns (outs: seq<Outcome>, ghost vols: seq<Vol>)
    requires v.Valid() && forall i :: 0 <= i < |ops| ==> InRange(ops[i], v.cs)
    modifies v
    ensures v.Valid() && Traced(vols, v.cs, ops, outs)
    ensures vols[0] == old(v.State()) && vols[|ops|] == v.State()
  {
    hide Transition, Volume.Valid;
    outs, vols := [], [v.State()];
    for n := 0 to |ops|
      invariant v.Valid() && |outs| == n && |vols| == n + 1
      invariant forall i :: 0 <= i < n ==> Transition(vols[i], v.cs, ops[i], outs[i], vols[i + 1])
      invariant vols[0] == old(v.State()) && vols[n] == v.State()
    {
      var r := Do(v, ops[n]);
      outs, vols := outs + [r], vols + [v.State()];
    }
  }
}
