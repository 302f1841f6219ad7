/** Cluster chains of src/fs/fat32.c: the value-level model of a FAT32 volume.

    A chain is a list of clusters each of whose table entries names the next, the
    last one holding an end mark. The bytes of a file are the bytes of its clusters
    in chain order, cut at the file size. */
module Chains {
  import opened Common

  const FREE := 0
  const EOF_MIN := 0x0FFF_FFF8
  const EOF_MARK := 0x0FFF_FFFF
  const MAX_CLUSTER := 0x0FFF_FFF0

  /** An open file: first cluster and size, and the first cluster its directory entry
      names. */
  datatype File = File(start: nat, size: nat, entry: nat)

  /** A volume: the low 28 bits of the table, the cluster contents, the open files, the
      chain of each file, and the used clusters that no file reaches any more. */
  datatype Vol = Vol(fat: seq<nat>, data: seq<seq<byte>>, files: map<nat, File>, chains: map<nat, seq<nat>>,
                     orphans: set<nat>)

  /** The first cluster as a directory entry holds it. */
  function Named(start: nat): nat { if start >= 2 then start else 0 }

  // ------------------------------------------------------------ chains in a table

  ghost predicate Distinct(c: seq<nat>) {
    forall i, j :: 0 <= i < j < |c| ==> c[i] != c[j]
  }

  ghost predicate Linked(fat: seq<nat>, c: seq<nat>) {
    && (forall i :: 0 <= i < |c| ==> 2 <= c[i] < |fat|)
    && (forall i :: 0 <= i < |c| - 1 ==> fat[c[i]] == c[i + 1])
    && (c != [] ==> fat[c[|c| - 1]] >= EOF_MIN)
    && Distinct(c)
  }

  /** A table that agrees on the clusters of a chain has the same chain. */
  lemma LinkedSame(fat: seq<nat>, now: seq<nat>, c: seq<nat>)
    requires Linked(fat, c) && |now| == |fat|
    requires forall i :: 0 <= i < |c| ==> now[c[i]] == fat[c[i]]
    ensures Linked(now, c)
  {
  }

  // ------------------------------------------------------------------ file bytes

  ghost predicate Clusters(data: seq<seq<byte>>, c: seq<nat>, cs: nat) {
    forall i :: 0 <= i < |c| ==> c[i] < |data| && |data[c[i]]| == cs
  }

  /** The bytes of a chain. */
  ghost function Flat(data: seq<seq<byte>>, c: seq<nat>, cs: nat): (r: seq<byte>)
    requires Clusters(data, c, cs)
    ensures |r| == |c| * cs
  {
    if c == [] then []
    else
      assert |c| * cs == (|c| - 1) * cs + cs;
      Flat(data, c[..|c| - 1], cs) + data[c[|c| - 1]]
  }

  lemma {:induction false} FlatSame(data: seq<seq<byte>>, now: seq<seq<byte>>, c: seq<nat>, cs: nat)
    requires Clusters(data, c, cs) && Clusters(now, c, cs)
    requires forall i :: 0 <= i < |c| ==> now[c[i]] == data[c[i]]
    ensures Flat(now, c, cs) == Flat(data, c, cs)
  {
    if c != [] {
      FlatSame(data, now, c[..|c| - 1], cs);
    }
  }

  lemma FlatAppend(data: seq<seq<byte>>, c: seq<nat>, n: nat, cs: nat)
    requires Clusters(data, c, cs) && n < |data| && |data[n]| == cs
    ensures Clusters(data, c + [n], cs) && Flat(data, c + [n], cs) == Flat(data, c, cs) + data[n]
  {
    assert (c + [n])[..|c|] == c;
  }

  lemma MulMono(a: int, b: int, cs: nat)
    requires a <= b
    ensures a * cs <= b * cs
  {
  }

  lemma {:induction false} FlatPrefix(data: seq<seq<byte>>, c: seq<nat>, k: nat, cs: nat)
    requires Clusters(data, c, cs) && k <= |c|
    ensures k * cs <= |c| * cs
    ensures Flat(data, c[..k], cs) == Flat(data, c, cs)[..k * cs]
  {
    MulMono(k, |c|, cs);
    if k < |c| {
      var d := c[..|c| - 1];
      FlatPrefix(data, d, k, cs);
      MulMono(k, |c| - 1, cs);
      assert d[..k] == c[..k];
    } else {
      assert c[..k] == c;
    }
  }

  /** Cluster i of a chain holds bytes i*cs up to (i+1)*cs of the file. */
  lemma FlatSlice(data: seq<seq<byte>>, c: seq<nat>, i: nat, cs: nat)
    requires Clusters(data, c, cs) && i < |c|
    ensures i * cs + cs <= |c| * cs
    ensures Flat(data, c, cs)[i * cs..i * cs + cs] == data[c[i]]
  {
    FlatPrefix(data, c, i + 1, cs);
    assert (i + 1) * cs == i * cs + cs;
    assert c[..i + 1][..i] == c[..i];
    assert Flat(data, c[..i + 1], cs) == Flat(data, c[..i], cs) + data[c[i]];
  }

  /** p laid over f at offset. */
  function Patched(f: seq<byte>, offset: nat, p: seq<byte>): (r: seq<byte>)
    requires offset + |p| <= |f|
    ensures |r| == |f|
  {
    f[..offset] + p + f[offset + |p|..]
  }

  lemma PatchedFront(f: seq<byte>, g: seq<byte>, lo: nat, b: seq<byte>)
    requires lo + |b| <= |f|
    ensures Patched(f, lo, b) + g == Patched(f + g, lo, b)
  {
    assert (f + g)[..lo] == f[..lo] && (f + g)[lo + |b|..] == f[lo + |b|..] + g;
  }

  lemma PatchedBack(f: seq<byte>, g: seq<byte>, b: seq<byte>)
    requires |b| == |g|
    ensures f + b == Patched(f + g, |f|, b)
  {
  }

  lemma Offsets(i: nat, n: nat, cs: nat)
    requires i < n
    ensures i * cs + cs <= n * cs
  {
    MulMono(i + 1, n, cs);
    assert (i + 1) * cs == i * cs + cs;
  }

  lemma FlatLast(data: seq<seq<byte>>, c: seq<nat>, cs: nat)
    requires Clusters(data, c, cs) && c != []
    ensures var d := c[..|c| - 1];
      Clusters(data, d, cs) && Flat(data, c, cs) == Flat(data, d, cs) + data[c[|c| - 1]]
  {
  }

  lemma ClustersKept(data: seq<seq<byte>>, c: seq<nat>, i: nat, b: seq<byte>, cs: nat)
    requires Clusters(data, c, cs) && Distinct(c) && i < |c| && |b| == cs
    ensures c[i] < |data| && Clusters(data[c[i] := b], c, cs) && Distinct(c[..|c| - 1])
    ensures forall k :: 0 <= k < |c| ==> data[c[i] := b][c[k]] == if k == i then b else data[c[k]]
  {
  }

  /** Rewriting cluster i of a chain rewrites those bytes and no others. */
  lemma {:induction false} FlatUpdate(data: seq<seq<byte>>, c: seq<nat>, i: nat, b: seq<byte>, cs: nat)
    requires Clusters(data, c, cs) && Distinct(c) && i < |c| && |b| == cs
    ensures i * cs + cs <= |c| * cs
    ensures c[i] < |data| && Clusters(data[c[i] := b], c, cs)
    ensures Flat(data[c[i] := b], c, cs) == Patched(Flat(data, c, cs), i * cs, b)
  {
    hide Flat, Clusters, Distinct, Patched;
    var d, last := c[..|c| - 1], |c| - 1;
    Offsets(i, |c|, cs);
    ClustersKept(data, c, i, b, cs);
    var now := data[c[i] := b];
    FlatLast(data, c, cs);
    FlatLast(now, c, cs);
    if i < last {
      FlatUpdate(data, d, i, b, cs);
      PatchedFront(Flat(data, d, cs), data[c[last]], i * cs, b);
    } else {
      FlatSame(data, now, d, cs);
      PatchedBack(Flat(data, d, cs), data[c[last]], b);
    }
  }

  // ----------------------------------------------------------- the volume invariant

  /** A file's chain starts where the file says, ends in an end mark without ever
      meeting itself, is long enough for the file's size and holds less than 4 GiB. */
  ghost predicate FileOk(v: Vol, cs: nat, id: nat) {
    id in v.chains && id in v.files ==>
      var c := v.chains[id];
      && Linked(v.fat, c)
      && (if c == [] then v.files[id].start < 2 else v.files[id].start == c[0])
      && (v.files[id].entry == 0 || v.files[id].entry == Named(v.files[id].start))
      && v.files[id].size <= |c| * cs < TWO32
  }

  /** Different files share no cluster. */
  ghost predicate Apart(v: Vol, a: nat, b: nat) {
    a in v.chains && b in v.chains && a != b ==>
      forall i, j :: 0 <= i < |v.chains[a]| && 0 <= j < |v.chains[b]| ==> v.chains[a][i] != v.chains[b][j]
  }

  ghost predicate InChain(v: Vol, c: nat) {
    exists id {:trigger v.chains[id]} :: id in v.chains && c in v.chains[id]
  }

  /** A cluster is used exactly if it is in a chain or an orphan, and never both. */
  ghost predicate Owned(v: Vol, c: nat) {
    if 2 <= c < |v.fat| then
      (v.fat[c] != FREE <==> c in v.orphans || InChain(v, c)) && !(c in v.orphans && InChain(v, c))
    else c !in v.orphans
  }

  ghost predicate Inv(v: Vol, cs: nat) {
    && cs > 0 && |v.fat| == |v.data| && |v.fat| <= MAX_CLUSTER
    && (forall c :: 2 <= c < |v.data| ==> |v.data[c]| == cs)
    && v.files.Keys == v.chains.Keys
    && (forall id: nat {:trigger FileOk(v, cs, id)} :: FileOk(v, cs, id))
    && (forall a: nat, b: nat {:trigger Apart(v, a, b)} :: Apart(v, a, b))
    && (forall c: nat {:trigger Owned(v, c)} :: Owned(v, c))
  }

  /** The free clusters. */
  ghost function Free(v: Vol): set<nat> { set c | 2 <= c < |v.fat| && v.fat[c] == FREE }

  ghost predicate SameFile(v: Vol, w: Vol, x: nat) {
    && (x in w.files <==> x in v.files) && (x in w.files && x in v.files ==> w.files[x] == v.files[x])
    && (x in w.chains <==> x in v.chains) && (x in w.chains && x in v.chains ==> w.chains[x] == v.chains[x])
  }

  /** No other file has changed. */
  ghost predicate OnlyFile(v: Vol, w: Vol, id: nat) {
    forall x: nat {:trigger SameFile(v, w, x)} :: x != id ==> SameFile(v, w, x)
  }

  ghost function Bytes(v: Vol, cs: nat, id: nat): (r: seq<byte>)
    ensures Inv(v, cs) && id in v.chains ==> |r| == |v.chains[id]| * cs
  {
    assert Inv(v, cs) ==> FileOk(v, cs, id);
    if id in v.chains && Clusters(v.data, v.chains[id], cs) then Flat(v.data, v.chains[id], cs) else []
  }

  /** What a file contains. */
  ghost function Content(v: Vol, cs: nat, id: nat): seq<byte>
  {
    if id in v.files && v.files[id].size <= |Bytes(v, cs, id)| then Bytes(v, cs, id)[..v.files[id].size] else []
  }

  ghost function Contents(v: Vol, cs: nat): map<nat, seq<byte>> {
    map id | id in v.files :: Content(v, cs, id)
  }

  /** Only file id changed, to r. */
  lemma ContentsSet(v: Vol, w: Vol, cs: nat, id: nat, r: seq<byte>)
    requires id in v.files && w.files.Keys == v.files.Keys && Content(w, cs, id) == r
    requires forall x: nat :: x in v.files && x != id ==> Content(w, cs, x) == Content(v, cs, x)
    ensures Contents(w, cs) == Contents(v, cs)[id := r]
  {
  }

  lemma ContentsSame(v: Vol, w: Vol, cs: nat)
    requires w.files.Keys == v.files.Keys
    requires forall x: nat :: x in v.files ==> Content(w, cs, x) == Content(v, cs, x)
    ensures Contents(w, cs) == Contents(v, cs)
  {
  }

  /** A cluster whose table entry says free is in no chain. */
  lemma FreeInNoChain(v: Vol, cs: nat, id: nat, n: nat)
    requires Inv(v, cs) && id in v.chains && n < |v.fat| && v.fat[n] == FREE
    ensures forall i :: 0 <= i < |v.chains[id]| ==> v.chains[id][i] != n
  {
    assert FileOk(v, cs, id);
    var c := v.chains[id];
    forall i | 0 <= i < |c|
      ensures c[i] != n
    {
      assert v.fat[c[i]] == if i < |c| - 1 then c[i + 1] else v.fat[c[|c| - 1]];
    }
  }

  lemma ChainClusters(v: Vol, cs: nat, id: nat)
    requires Inv(v, cs) && id in v.chains
    ensures Linked(v.fat, v.chains[id]) && Clusters(v.data, v.chains[id], cs)
    ensures v.files[id].size <= |v.chains[id]| * cs < TWO32
  {
    assert FileOk(v, cs, id);
  }

  // ------------------------------------------------------------- writing a cluster

  function Poke(v: Vol, id: nat, i: nat, b: seq<byte>): Vol
    requires id in v.chains && i < |v.chains[id]| && v.chains[id][i] < |v.data|
  {
    v.(data := v.data[v.chains[id][i] := b])
  }

  lemma PokeKeeps(v: Vol, cs: nat, id: nat, i: nat, b: seq<byte>)
    requires Inv(v, cs) && id in v.chains && i < |v.chains[id]| && |b| == cs
    ensures v.chains[id][i] < |v.data| && Inv(Poke(v, id, i, b), cs)
  {
    ChainClusters(v, cs, id);
    var w := Poke(v, id, i, b);
    forall x: nat ensures FileOk(w, cs, x) { assert FileOk(v, cs, x); }
    forall x: nat, y: nat ensures Apart(w, x, y) { assert Apart(v, x, y); }
    forall c: nat ensures Owned(w, c) { SameOwned(v, w, c); }
  }

  /** A step that keeps table and chains keeps the owners. */
  lemma SameOwned(v: Vol, w: Vol, c: nat)
    requires Owned(v, c) && w.chains == v.chains && w.orphans == v.orphans && |w.fat| == |v.fat|
    requires c < |v.fat| ==> (w.fat[c] == FREE <==> v.fat[c] == FREE)
    ensures Owned(w, c)
  {
    assert InChain(w, c) <==> InChain(v, c);
  }

  lemma PokeBytes(v: Vol, cs: nat, id: nat, i: nat, b: seq<byte>)
    requires Inv(v, cs) && id in v.chains && i < |v.chains[id]| && |b| == cs
    ensures v.chains[id][i] < |v.data| && i * cs + cs <= |Bytes(v, cs, id)|
    ensures Bytes(Poke(v, id, i, b), cs, id) == Patched(Bytes(v, cs, id), i * cs, b)
    ensures forall x: nat :: x in v.files && x != id ==> Content(Poke(v, id, i, b), cs, x) == Content(v, cs, x)
  {
    ChainClusters(v, cs, id);
    PokeKeeps(v, cs, id, i, b);
    var w := Poke(v, id, i, b);
    FlatUpdate(v.data, v.chains[id], i, b, cs);
    forall x: nat | x in v.files && x != id
      ensures Content(w, cs, x) == Content(v, cs, x)
    {
      assert Apart(v, id, x);
      ChainClusters(v, cs, x);
      ChainClusters(w, cs, x);
      FlatSame(v.data, w.data, v.chains[x], cs);
    }
  }

  // -------------------------------------------------------------- growing a chain

  function ZeroCluster(cs: nat): (z: seq<byte>)
    ensures |z| == cs && forall k :: 0 <= k < cs ==> z[k] == 0
  {
    seq(cs, _ => 0)
  }

  /** Free cluster n is marked as an end, cleared, and hung behind the chain. */
  function Grow(v: Vol, cs: nat, id: nat, n: nat): Vol
    requires id in v.chains && id in v.files && n < |v.fat| && n < |v.data|
    requires v.chains[id] != [] ==> v.chains[id][|v.chains[id]| - 1] < |v.fat|
  {
    var c := v.chains[id];
    var fat := v.fat[n := EOF_MARK];
    v.(fat := if c == [] then fat else fat[c[|c| - 1] := n],
       data := v.data[n := ZeroCluster(cs)],
       files := if c == [] then v.files[id := v.files[id].(start := n)] else v.files,
       chains := v.chains[id := c + [n]])
  }

  lemma GrowFile(v: Vol, cs: nat, id: nat, n: nat, x: nat)
    requires Inv(v, cs) && id in v.chains && 2 <= n < |v.fat| && v.fat[n] == FREE
    requires (|v.chains[id]| + 1) * cs < TWO32
    requires v.chains[id] != [] ==> v.chains[id][|v.chains[id]| - 1] < |v.fat|
    ensures FileOk(Grow(v, cs, id, n), cs, x)
  {
    assert FileOk(v, cs, x) && FileOk(v, cs, id) && Apart(v, id, x);
    FreeInNoChain(v, cs, id, n);
    var w := Grow(v, cs, id, n);
    if x == id {
      MulMono(|v.chains[id]|, |v.chains[id]| + 1, cs);
    } else if x in v.chains {
      FreeInNoChain(v, cs, x, n);
      LinkedSame(v.fat, w.fat, v.chains[x]);
    }
  }

  lemma GrowKeeps(v: Vol, cs: nat, id: nat, n: nat)
    requires Inv(v, cs) && id in v.chains && 2 <= n < |v.fat| && v.fat[n] == FREE
    requires (|v.chains[id]| + 1) * cs < TWO32
    ensures v.chains[id] != [] ==> v.chains[id][|v.chains[id]| - 1] < |v.fat|
    ensures Inv(Grow(v, cs, id, n), cs)
  {
    ChainClusters(v, cs, id);
    var w := Grow(v, cs, id, n);
    forall x: nat ensures FileOk(w, cs, x) { GrowFile(v, cs, id, n, x); }
    forall x: nat, y: nat
      ensures Apart(w, x, y)
    {
      assert Apart(v, x, y);
      if x in v.chains { FreeInNoChain(v, cs, x, n); }
      if y in v.chains { FreeInNoChain(v, cs, y, n); }
    }
    forall c: nat ensures Owned(w, c) { GrowOwned(v, cs, id, n, c); }
  }

  lemma GrowOwned(v: Vol, cs: nat, id: nat, n: nat, c: nat)
    requires Inv(v, cs) && id in v.chains && 2 <= n < |v.fat| && v.fat[n] == FREE
    requires v.chains[id] != [] ==> v.chains[id][|v.chains[id]| - 1] < |v.fat|
    ensures Owned(Grow(v, cs, id, n), c)
  {
    ChainClusters(v, cs, id);
    assert Owned(v, c) && Owned(v, n);
    var w := Grow(v, cs, id, n);
    hide Inv, Linked;
    assert n in w.chains[id];
    if InChain(v, c) {
      var x :| x in v.chains && c in v.chains[x];
      assert c in w.chains[x];
    }
    if InChain(w, c) && c != n {
      var x :| x in w.chains && c in w.chains[x];
      assert c in v.chains[x];
    }
    if v.chains[id] != [] {
      assert v.chains[id][|v.chains[id]| - 1] in v.chains[id];
    }
  }

  /** It takes one free cluster. */
  lemma GrowFree(v: Vol, cs: nat, id: nat, n: nat)
    requires Inv(v, cs) && id in v.chains && 2 <= n < |v.fat| && v.fat[n] == FREE
    requires v.chains[id] != [] ==> v.chains[id][|v.chains[id]| - 1] < |v.fat|
    ensures |Free(Grow(v, cs, id, n))| == |Free(v)| - 1 && OnlyFile(v, Grow(v, cs, id, n), id)
  {
    FreeInNoChain(v, cs, id, n);
    ChainClusters(v, cs, id);
    var c := v.chains[id];
    assert c != [] ==> v.fat[c[|c| - 1]] != FREE;
    assert Free(Grow(v, cs, id, n)) == Free(v) - {n};
  }

  lemma GrowFlat(v: Vol, cs: nat, id: nat, n: nat, x: nat)
    requires Inv(v, cs) && id in v.chains && x in v.chains && 2 <= n < |v.fat| && v.fat[n] == FREE
    requires (|v.chains[id]| + 1) * cs < TWO32
    requires v.chains[id] != [] ==> v.chains[id][|v.chains[id]| - 1] < |v.fat|
    ensures Bytes(Grow(v, cs, id, n), cs, x) == if x == id then Bytes(v, cs, id) + ZeroCluster(cs) else Bytes(v, cs, x)
  {
    GrowKeeps(v, cs, id, n);
    var w := Grow(v, cs, id, n);
    hide Inv, Linked;
    ChainClusters(v, cs, x);
    ChainClusters(w, cs, x);
    FreeInNoChain(v, cs, x, n);
    assert Clusters(w.data, v.chains[x], cs);
    FlatSame(v.data, w.data, v.chains[x], cs);
    if x == id {
      FlatAppend(w.data, v.chains[id], n, cs);
    }
  }

  lemma GrowBytes(v: Vol, cs: nat, id: nat, n: nat)
    requires Inv(v, cs) && id in v.chains && 2 <= n < |v.fat| && v.fat[n] == FREE
    requires (|v.chains[id]| + 1) * cs < TWO32
    ensures v.chains[id] != [] ==> v.chains[id][|v.chains[id]| - 1] < |v.fat|
    ensures Bytes(Grow(v, cs, id, n), cs, id) == Bytes(v, cs, id) + ZeroCluster(cs)
    ensures Contents(Grow(v, cs, id, n), cs) == Contents(v, cs)
  {
    hide Inv, Bytes, Content, Contents;
    ChainClusters(v, cs, id);
    SameKeys(v, cs);
    var w := Grow(v, cs, id, n);
    GrowFlat(v, cs, id, n, id);
    forall x: nat | x in v.files ensures Content(w, cs, x) == Content(v, cs, x) { GrowContent(v, cs, id, n, x); }
    ContentsSame(v, w, cs);
  }

  lemma SameKeys(v: Vol, cs: nat)
    requires Inv(v, cs)
    ensures v.files.Keys == v.chains.Keys && |v.fat| == |v.data|
  {
  }

  lemma GrowContent(v: Vol, cs: nat, id: nat, n: nat, x: nat)
    requires Inv(v, cs) && id in v.chains && x in v.chains && 2 <= n < |v.fat| && v.fat[n] == FREE
    requires (|v.chains[id]| + 1) * cs < TWO32
    requires v.chains[id] != [] ==> v.chains[id][|v.chains[id]| - 1] < |v.fat|
    ensures Content(Grow(v, cs, id, n), cs, x) == Content(v, cs, x)
  {
    var w := Grow(v, cs, id, n);
    hide Bytes, Inv;
    ChainClusters(v, cs, x);
    GrowFlat(v, cs, id, n, x);
  }

  // ------------------------------------------------------------- cutting a chain

  /** The table after clusters lo, ..., hi-1 of chain c were marked free. */
  ghost function Freed(fat: seq<nat>, c: seq<nat>, lo: int, hi: int): (r: seq<nat>)
    requires 0 <= lo <= hi <= |c|
    ensures |r| == |fat| && forall x :: 0 <= x < |fat| ==> r[x] == if x in c[lo..hi] then FREE else fat[x]
  {
    seq(|fat|, x requires 0 <= x < |fat| => if x in c[lo..hi] then FREE else fat[x])
  }

  lemma FreedStep(fat: seq<nat>, c: seq<nat>, lo: nat, hi: nat)
    requires lo <= hi < |c| && c[hi] < |fat|
    ensures Freed(fat, c, lo, hi + 1) == Freed(fat, c, lo, hi)[c[hi] := FREE]
  {
    assert c[lo..hi + 1] == c[lo..hi] + [c[hi]];
  }

  /** The chain keeps its first clusters and the rest are freed. */
  ghost function Cut(v: Vol, id: nat, keep: nat, size: nat): Vol
    requires id in v.chains && id in v.files && keep <= |v.chains[id]|
    requires keep > 0 ==> v.chains[id][keep - 1] < |v.fat|
  {
    var c := v.chains[id];
    var fat := Freed(v.fat, c, keep, |c|);
    var start := if keep == 0 then 0 else v.files[id].start;
    v.(fat := if keep == 0 then fat else fat[c[keep - 1] := EOF_MARK],
       files := v.files[id := File(start, size, Named(start))],
       chains := v.chains[id := c[..keep]])
  }

  lemma CutFile(v: Vol, cs: nat, id: nat, keep: nat, size: nat, x: nat)
    requires Inv(v, cs) && id in v.chains && keep <= |v.chains[id]| && size <= keep * cs
    requires keep > 0 ==> v.chains[id][keep - 1] < |v.fat|
    ensures FileOk(Cut(v, id, keep, size), cs, x)
  {
    assert FileOk(v, cs, x) && FileOk(v, cs, id) && Apart(v, id, x);
    var w := Cut(v, id, keep, size);
    var c := v.chains[id];
    if x == id {
      MulMono(keep, |c|, cs);
      forall i | 0 <= i < keep
        ensures c[i] !in c[keep..]
      {
      }
    } else if x in v.chains {
      LinkedSame(v.fat, w.fat, v.chains[x]);
    }
  }

  lemma CutKeeps(v: Vol, cs: nat, id: nat, keep: nat, size: nat)
    requires Inv(v, cs) && id in v.chains && keep <= |v.chains[id]| && size <= keep * cs
    ensures keep > 0 ==> v.chains[id][keep - 1] < |v.fat|
    ensures Inv(Cut(v, id, keep, size), cs)
  {
    ChainClusters(v, cs, id);
    var w := Cut(v, id, keep, size);
    forall x: nat ensures FileOk(w, cs, x) { CutFile(v, cs, id, keep, size, x); }
    forall x: nat, y: nat ensures Apart(w, x, y) { assert Apart(v, x, y); }
    forall c: nat ensures Owned(w, c) { CutOwned(v, cs, id, keep, size, c); }
  }

  lemma CutOwned(v: Vol, cs: nat, id: nat, keep: nat, size: nat, c: nat)
    requires Inv(v, cs) && id in v.chains && keep <= |v.chains[id]|
    requires keep > 0 ==> v.chains[id][keep - 1] < |v.fat|
    ensures Owned(Cut(v, id, keep, size), c)
  {
    hide Inv, Linked, Freed;
    SameKeys(v, cs);
    var w := Cut(v, id, keep, size);
    var chain := v.chains[id];
    IsOwned(v, cs, c);
    CutApart(v, cs, id, c);
    Parts(chain, keep, c);
    if c in chain { UsedInChain(v, cs, id, c); }
    if InChain(w, c) {
      var x :| x in w.chains && c in w.chains[x];
      assert c in v.chains[x];
    }
    if InChain(v, c) && c !in chain[keep..] {
      var x :| x in v.chains && c in v.chains[x];
      assert c in w.chains[x];
    }
  }

  lemma IsOwned(v: Vol, cs: nat, c: nat)
    requires Inv(v, cs)
    ensures Owned(v, c)
  {
  }

  /** A cluster of one chain is in no other. */
  lemma CutApart(v: Vol, cs: nat, id: nat, c: nat)
    requires Inv(v, cs) && id in v.chains
    ensures Distinct(v.chains[id])
    ensures c in v.chains[id] ==> forall x: nat :: x in v.chains && x != id ==> c !in v.chains[x]
  {
    ChainClusters(v, cs, id);
    if c in v.chains[id] {
      forall x: nat | x in v.chains && x != id ensures c !in v.chains[x] { assert Apart(v, id, x); }
    }
  }

  lemma Parts(chain: seq<nat>, keep: nat, c: nat)
    requires Distinct(chain) && keep <= |chain|
    ensures c in chain <==> c in chain[..keep] || c in chain[keep..]
    ensures !(c in chain[..keep] && c in chain[keep..])
    ensures keep > 0 ==> chain[keep - 1] in chain[..keep]
  {
    assert chain == chain[..keep] + chain[keep..];
  }

  function Members(c: seq<nat>): (s: set<nat>)
    ensures forall x :: x in s <==> x in c
  {
    set x | x in c
  }

  lemma {:induction false} DistinctSize(c: seq<nat>)
    requires Distinct(c)
    ensures |Members(c)| == |c|
  {
    if c != [] {
      var last := |c| - 1;
      DistinctSize(c[..last]);
      assert c == c[..last] + [c[last]];
      assert Members(c) == Members(c[..last]) + {c[last]};
    }
  }

  /** Cutting gives the tail back. */
  lemma CutFree(v: Vol, cs: nat, id: nat, keep: nat, size: nat)
    requires Inv(v, cs) && id in v.chains && keep <= |v.chains[id]|
    ensures keep > 0 ==> v.chains[id][keep - 1] < |v.fat|
    ensures var w := Cut(v, id, keep, size);
      && |Free(w)| == |Free(v)| + |v.chains[id]| - keep && OnlyFile(v, w, id)
      && Free(w) == Free(v) + Members(v.chains[id][keep..])
  {
    hide Inv, Linked, Free, Freed;
    SameKeys(v, cs);
    CutApart(v, cs, id, 0);
    if keep > 0 { UsedInChain(v, cs, id, v.chains[id][keep - 1]); }
    var w, c := Cut(v, id, keep, size), v.chains[id];
    var tail := Members(c[keep..]);
    DistinctSize(c[keep..]);
    forall x: nat ensures x in Free(w) <==> x in Free(v) || x in tail { CutFreeAt(v, cs, id, keep, size, x); }
    assert Free(w) == Free(v) + tail;
    forall x | x in tail ensures x !in Free(v) { CutFreeAt(v, cs, id, keep, size, x); }
    assert |Free(v) + tail| == |Free(v)| + |tail|;
  }

  lemma CutFreeAt(v: Vol, cs: nat, id: nat, keep: nat, size: nat, x: nat)
    requires Inv(v, cs) && id in v.chains && keep <= |v.chains[id]|
    requires keep > 0 ==> v.chains[id][keep - 1] < |v.fat|
    ensures x in Free(Cut(v, id, keep, size)) <==> x in Free(v) || x in v.chains[id][keep..]
    ensures x in v.chains[id][keep..] ==> x !in Free(v)
  {
    hide Inv, Linked;
    SameKeys(v, cs);
    CutApart(v, cs, id, x);
    Parts(v.chains[id], keep, x);
    if x in v.chains[id] { UsedInChain(v, cs, id, x); }
  }

  lemma UsedInChain(v: Vol, cs: nat, id: nat, c: nat)
    requires Inv(v, cs) && id in v.chains && c in v.chains[id]
    ensures 2 <= c < |v.fat| && v.fat[c] != FREE
  {
    ChainClusters(v, cs, id);
    if v.fat[c] == FREE { FreeInNoChain(v, cs, id, c); }
  }

  lemma CutContents(v: Vol, cs: nat, id: nat, keep: nat, size: nat)
    requires Inv(v, cs) && id in v.chains && keep <= |v.chains[id]| && size <= keep * cs
    ensures keep > 0 ==> v.chains[id][keep - 1] < |v.fat|
    ensures size <= |Bytes(v, cs, id)|
    ensures Contents(Cut(v, id, keep, size), cs) == Contents(v, cs)[id := Bytes(v, cs, id)[..size]]
  {
    ChainClusters(v, cs, id);
    CutKeeps(v, cs, id, keep, size);
    var w := Cut(v, id, keep, size);
    FlatPrefix(v.data, v.chains[id], keep, cs);
    assert Content(w, cs, id) == Bytes(v, cs, id)[..size];
    ContentsSet(v, w, cs, id, Bytes(v, cs, id)[..size]);
  }

  // ------------------------------------------------------------------ small steps

  /** The last table entry of the chain is written again. */
  function MarkEnd(v: Vol, id: nat): Vol
    requires id in v.chains && v.chains[id] != [] && v.chains[id][|v.chains[id]| - 1] < |v.fat|
  {
    v.(fat := v.fat[v.chains[id][|v.chains[id]| - 1] := EOF_MARK])
  }

  lemma MarkEndKeeps(v: Vol, cs: nat, id: nat)
    requires Inv(v, cs) && id in v.chains && v.chains[id] != []
    ensures v.chains[id][|v.chains[id]| - 1] < |v.fat| && Inv(MarkEnd(v, id), cs)
    ensures Contents(MarkEnd(v, id), cs) == Contents(v, cs) && Bytes(MarkEnd(v, id), cs, id) == Bytes(v, cs, id)
  {
    ChainClusters(v, cs, id);
    var w := MarkEnd(v, id);
    forall x: nat
      ensures FileOk(w, cs, x)
    {
      assert FileOk(v, cs, x) && Apart(v, id, x);
      if x in v.chains && x != id {
        LinkedSame(v.fat, w.fat, v.chains[x]);
      }
    }
    forall x: nat, y: nat ensures Apart(w, x, y) { assert Apart(v, x, y); }
    MarkEndFree(v, cs, id);
    forall c: nat ensures Owned(w, c) { SameOwned(v, w, c); }
    ContentsSame(v, w, cs);
  }

  lemma MarkEndFree(v: Vol, cs: nat, id: nat)
    requires Inv(v, cs) && id in v.chains && v.chains[id] != []
    ensures v.chains[id][|v.chains[id]| - 1] < |v.fat| && v.fat[v.chains[id][|v.chains[id]| - 1]] != FREE
    ensures Free(MarkEnd(v, id)) == Free(v)
    ensures forall c: nat :: c < |v.fat| ==> (MarkEnd(v, id).fat[c] == FREE <==> v.fat[c] == FREE)
  {
    ChainClusters(v, cs, id);
  }

  /** The size is set to what the chain can hold, and the directory entry is written. */
  function Resize(v: Vol, id: nat, size: nat): Vol
    requires id in v.files
  {
    v.(files := v.files[id := File(v.files[id].start, size, Named(v.files[id].start))])
  }

  lemma ResizeKeeps(v: Vol, cs: nat, id: nat, size: nat)
    requires Inv(v, cs) && id in v.chains && size <= |v.chains[id]| * cs
    ensures Inv(Resize(v, id, size), cs) && size <= |Bytes(v, cs, id)|
    ensures Contents(Resize(v, id, size), cs) == Contents(v, cs)[id := Bytes(v, cs, id)[..size]]
  {
    var w := Resize(v, id, size);
    forall x: nat ensures FileOk(w, cs, x) { assert FileOk(v, cs, x); }
    forall x: nat, y: nat ensures Apart(w, x, y) { assert Apart(v, x, y); }
    forall c: nat ensures Owned(w, c) { SameOwned(v, w, c); }
    ContentsSet(v, w, cs, id, Bytes(v, cs, id)[..size]);
  }

  /** A new, empty file. */
  function Add(v: Vol, id: nat): Vol {
    v.(files := v.files[id := File(0, 0, 0)], chains := v.chains[id := []])
  }

  lemma AddKeeps(v: Vol, cs: nat, id: nat)
    requires Inv(v, cs) && id !in v.files
    ensures Inv(Add(v, id), cs) && Contents(Add(v, id), cs) == Contents(v, cs)[id := []]
  {
    AddInv(v, cs, id);
    hide Inv, Content;
    var w := Add(v, id);
    forall x: nat | x in w.files ensures Content(w, cs, x) == if x == id then [] else Content(v, cs, x) {
      AddContent(v, cs, id, x);
    }
    assert Contents(w, cs) == Contents(v, cs)[id := []];
  }

  lemma AddContent(v: Vol, cs: nat, id: nat, x: nat)
    requires id !in v.files
    ensures Content(Add(v, id), cs, x) == if x == id then [] else Content(v, cs, x)
  {
    hide Inv;
  }

  lemma AddInv(v: Vol, cs: nat, id: nat)
    requires Inv(v, cs) && id !in v.files
    ensures Inv(Add(v, id), cs)
  {
    var w := Add(v, id);
    forall x: nat ensures FileOk(w, cs, x) { assert FileOk(v, cs, x); }
    forall x: nat, y: nat ensures Apart(w, x, y) { assert Apart(v, x, y); }
    forall c: nat ensures Owned(w, c) { AddOwned(v, cs, id, c); }
  }

  lemma AddOwned(v: Vol, cs: nat, id: nat, c: nat)
    requires Inv(v, cs) && id !in v.files
    ensures Owned(Add(v, id), c)
  {
    assert Owned(v, c);
    var w := Add(v, id);
    hide Inv;
    if InChain(v, c) {
      var x :| x in v.chains && c in v.chains[x];
      assert c in w.chains[x];
    }
    if InChain(w, c) {
      var x :| x in w.chains && c in w.chains[x];
      assert c in v.chains[x];
    }
  }

  /** A file is forgotten; clusters it still has become orphans. */
  function Forget(v: Vol, id: nat): Vol
    requires id in v.chains
  {
    v.(files := v.files - {id}, chains := v.chains - {id}, orphans := v.orphans + Members(v.chains[id]))
  }

  lemma ForgetKeeps(v: Vol, cs: nat, id: nat)
    requires Inv(v, cs) && id in v.files
    ensures id in v.chains && Inv(Forget(v, id), cs) && Contents(Forget(v, id), cs) == Contents(v, cs) - {id}
  {
    var w := Forget(v, id);
    forall x: nat ensures FileOk(w, cs, x) { assert FileOk(v, cs, x); }
    forall x: nat, y: nat ensures Apart(w, x, y) { assert Apart(v, x, y); }
    forall c: nat ensures Owned(w, c) { ForgetOwned(v, cs, id, c); }
    forall x: nat | x in w.files ensures Content(w, cs, x) == Content(v, cs, x) { }
  }

  lemma ForgetOwned(v: Vol, cs: nat, id: nat, c: nat)
    requires Inv(v, cs) && id in v.chains
    ensures Owned(Forget(v, id), c)
  {
    assert Owned(v, c);
    CutApart(v, cs, id, c);
    if c in v.chains[id] { UsedInChain(v, cs, id, c); }
    ChainClusters(v, cs, id);
    var w := Forget(v, id);
    hide Inv;
    if InChain(v, c) && c !in v.chains[id] {
      var x :| x in v.chains && c in v.chains[x];
      assert c in w.chains[x];
    }
    if InChain(w, c) {
      var x :| x in w.chains && c in w.chains[x];
      assert c in v.chains[x];
    }
  }
}
