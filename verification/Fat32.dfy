/** The FAT32 file operations of src/fs/fat32.c on a volume without I/O errors. */
module Fat32 {
  import opened Common
  import opened Chains

  const LOW := 0x1000_0000
  const INVALID := 0xFFFF_FFFF

  // ------------------------------------------------------------ what users see

  /** Bytes written at an offset; a gap behind the end reads as zeros. */
  function Splice(f: seq<byte>, offset: nat, buf: seq<byte>): seq<byte> {
    var base := if |f| < offset then f + ZeroCluster(offset - |f|) else f;
    base[..offset] + buf + if offset + |buf| < |base| then base[offset + |buf|..] else []
  }

  /** A file cut or filled with zeros to a size. */
  function Resized(f: seq<byte>, size: nat): seq<byte> {
    if size <= |f| then f[..size] else f + ZeroCluster(size - |f|)
  }

  /** The bytes a read yields on a file whose chain holds f, with the 32-bit sum of
      the source. */
  function ReadSpec(f: seq<byte>, fileSize: nat, offset: nat, size: nat): seq<byte> {
    if offset >= fileSize then []
    else Slice(f, offset, Wanted(fileSize, offset, size))
  }

  /** The clipped length of a read: the sum is taken in 32 bits. */
  function Wanted(fileSize: nat, offset: nat, size: nat): nat
    requires offset < fileSize
  {
    if (offset + size) % TWO32 > fileSize then fileSize - offset else size
  }

  function Slice(f: seq<byte>, offset: nat, size: nat): seq<byte> {
    if offset >= |f| then [] else f[offset..if offset + size <= |f| then offset + size else |f|]
  }

  /** A read yields the file's bytes at the offset unless the 32-bit sum wraps to a
      value within the file and the chain holds more than the file. */
  lemma ReadExact(f: seq<byte>, fileSize: nat, offset: nat, size: nat)
    requires fileSize <= |f| < TWO32 && offset < TWO32 && size < TWO32
    ensures ReadSpec(f, fileSize, offset, size) == Slice(f[..fileSize], offset, size) <==>
            offset >= fileSize || offset + size < TWO32 || offset + size - TWO32 > fileSize || |f| == fileSize
  {
    var good := Slice(f[..fileSize], offset, size);
    if offset < fileSize {
      if offset + size < TWO32 || offset + size - TWO32 > fileSize || |f| == fileSize {
        assert ReadSpec(f, fileSize, offset, size) == good;
      } else {
        assert |ReadSpec(f, fileSize, offset, size)| == |f| - offset;
        assert |good| <= fileSize - offset;
      }
    }
  }

  /** Two bytes of a file in one cluster, read from offset 1 with the largest length: all
      the rest of the cluster comes back, and only one byte of it is the file's. */
  lemma ReadPastTheEnd(cluster: seq<byte>)
    requires 2 < |cluster| < TWO32
    ensures ReadSpec(cluster, 2, 1, 0xFFFF_FFFF) == cluster[1..]
    ensures Slice(cluster[..2], 1, 0xFFFF_FFFF) == cluster[1..2]
  {
    assert cluster[..2][1..2] == cluster[1..2] && cluster[1..|cluster|] == cluster[1..];
  }

  // -------------------------------------------------------------- byte ranges

  lemma SubSlice(f: seq<byte>, lo: nat, cs: nat, off: nat, n: nat)
    requires lo + cs <= |f| && off + n <= cs
    ensures f[lo..lo + cs][off..off + n] == f[lo + off..lo + off + n]
  {
    var g := f[lo..lo + cs];
    assert forall k :: 0 <= k < cs ==> g[k] == f[lo + k];
  }

  lemma SliceGrows<T>(f: seq<T>, o: nat, k: nat, n: nat)
    requires o + k + n <= |f|
    ensures f[o..o + k] + f[o + k..o + k + n] == f[o..o + (k + n)]
  {
  }

  lemma PatchedNone(f: seq<byte>, offset: nat)
    requires offset <= |f|
    ensures Patched(f, offset, []) == f
  {
  }

  lemma PatchedTwice(f: seq<byte>, offset: nat, p: seq<byte>, q: seq<byte>)
    requires offset + |p| + |q| <= |f|
    ensures Patched(Patched(f, offset, p), offset + |p|, q) == Patched(f, offset, p + q)
  {
  }

  lemma ZeroPatchStart(f: seq<byte>, start: nat)
    ensures start <= |f| ==> Patched(f, start, ZeroCluster(0)) == f
  {
  }

  lemma ZeroPatchStep(f: seq<byte>, start: nat, pos: nat, stop: nat)
    requires start <= pos <= stop <= |f|
    ensures Patched(Patched(f, start, ZeroCluster(pos - start)), pos, ZeroCluster(stop - pos)) ==
            Patched(f, start, ZeroCluster(stop - start))
  {
    PatchedTwice(f, start, ZeroCluster(pos - start), ZeroCluster(stop - pos));
    assert ZeroCluster(pos - start) + ZeroCluster(stop - pos) == ZeroCluster(stop - start);
  }

  lemma ZeroPatchPrefix(f: seq<byte>, start: nat, pos: nat)
    requires start <= pos
    ensures pos <= |f| ==> Patched(f, start, ZeroCluster(pos - start))[..start] == f[..start]
  {
  }

  /** A patch inside one cluster, written by rewriting the whole cluster. */
  lemma PatchedCluster(f: seq<byte>, lo: nat, cs: nat, off: nat, p: seq<byte>)
    requires lo + cs <= |f| && off + |p| <= cs
    ensures Patched(f, lo, Patched(f[lo..lo + cs], off, p)) == Patched(f, lo + off, p)
  {
    assert f[lo..lo + cs][..off] == f[lo..lo + off];
    assert f[lo..lo + cs][off + |p|..] == f[lo + off + |p|..lo + cs];
    assert f[..lo] + f[lo..lo + off] == f[..lo + off];
    assert f[lo + off + |p|..lo + cs] + f[lo + cs..] == f[lo + off + |p|..];
  }

  /** g is f with zeros behind. */
  ghost predicate ZeroExtended(f: seq<byte>, g: seq<byte>) {
    |f| <= |g| && g[..|f|] == f && forall k :: |f| <= k < |g| ==> g[k] == 0
  }

  /** The bytes of a chain through a write: f extended to g, the gap cleared to give
      h, then p laid over h. What is left up to the new size is the spliced file. */
  lemma SpliceOfPatches(f: seq<byte>, g: seq<byte>, h: seq<byte>, size: nat, offset: nat, p: seq<byte>)
    requires size <= |f| <= |g| == |h| && g[..|f|] == f && offset + |p| <= |h|
    requires h == if offset > size then Patched(g, size, ZeroCluster(offset - size)) else g
    ensures var end := if offset + |p| > size then offset + |p| else size;
            Patched(h, offset, p)[..end] == Splice(f[..size], offset, p)
  {
    assert f[..size] == g[..size];
    if offset > size {
      assert h[..offset] == f[..size] + ZeroCluster(offset - size);
    } else {
      assert h[..offset] == f[..size][..offset];
      if offset + |p| < size {
        assert Patched(h, offset, p)[..size] == h[..offset] + p + h[offset + |p|..size];
        assert h[offset + |p|..size] == f[..size][offset + |p|..];
      }
    }
  }

  lemma ResizedOfPatch(f: seq<byte>, g: seq<byte>, size: nat, to: nat)
    requires size <= |f| <= |g| && g[..|f|] == f && size < to <= |g|
    ensures Patched(g, size, ZeroCluster(to - size))[..to] == Resized(f[..size], to)
  {
    assert g[..size] == f[..size];
  }

  // ----------------------------------------------------------- size arithmetic

  /** The number of clusters for a size, with the 32-bit rounding of the source. */
  function Required(size: nat, cs: nat): nat
    requires cs > 0
  {
    if size == 0 then 0 else (size + cs - 1) % TWO32 / cs
  }

  lemma DivMod(x: nat, cs: nat)
    requires cs > 0
    ensures x == x / cs * cs + x % cs && 0 <= x % cs < cs && 0 <= x / cs
  {
  }

  /** The rounding gives enough clusters exactly when it does not wrap. */
  lemma RequiredExact(size: nat, cs: nat)
    requires 0 < cs && 0 < size < TWO32 && cs < TWO32
    ensures size <= Required(size, cs) * cs <==> size + cs - 1 < TWO32
  {
    var t := (size + cs - 1) % TWO32;
    DivMod(t, cs);
  }

  lemma FloorFits(t: nat, cs: nat, n: nat)
    requires cs > 0 && n <= t / cs
    ensures n * cs <= t
  {
    DivMod(t, cs);
    MulMono(n, t / cs, cs);
  }

  lemma RequiredFits(size: nat, cs: nat, n: nat)
    requires cs > 0 && n <= Required(size, cs)
    ensures n * cs < TWO32
  {
    if size != 0 {
      FloorFits((size + cs - 1) % TWO32, cs, n);
    }
  }

  lemma DivLess(x: nat, cs: nat, n: nat)
    requires cs > 0
    ensures x / cs < n <==> x < n * cs
  {
    DivMod(x, cs);
    if x / cs < n {
      MulMono(x / cs + 1, n, cs);
      assert (x / cs + 1) * cs == x / cs * cs + cs;
    } else {
      MulMono(n, x / cs, cs);
    }
  }

  /** Sizes below the end of a chain round up without wrapping: the cluster size
      divides 2^32, so a chain of less than 4 GiB leaves room for one more cluster. */
  lemma RoundingFits(size: nat, cs: nat, n: nat)
    requires 0 < cs && TWO32 % cs == 0 && n * cs < TWO32 && size <= n * cs
    ensures size + cs - 1 < TWO32
  {
    var q := TWO32 / cs;
    DivMod(TWO32, cs);
    if n < q {
      MulMono(n + 1, q, cs);
      assert (n + 1) * cs == n * cs + cs;
    } else {
      MulMono(q, n, cs);
    }
  }

  lemma ShrinkPlan(size: nat, cs: nat, n: nat)
    requires 0 < cs < TWO32 && TWO32 % cs == 0 && n * cs < TWO32 && size <= n * cs
    ensures Required(size, cs) <= n && size <= Required(size, cs) * cs && (Required(size, cs) == 0 <==> size == 0)
  {
    RoundingFits(size, cs, n);
    RequiredLeast(size, cs, n);
    RequiredCovers(size, cs);
  }

  /** Where the part of a range inside the cluster of pos ends. */
  function StopIn(pos: nat, end: nat, cs: nat): nat
    requires cs > 0
  {
    DivMod(pos, cs);
    var base := pos / cs * cs;
    if end < base + cs then end else base + cs
  }

  lemma StopInOk(pos: nat, end: nat, cs: nat)
    requires cs > 0 && pos < end
    ensures pos < StopIn(pos, end, cs) <= end && pos % cs + (StopIn(pos, end, cs) - pos) <= cs
  {
    DivMod(pos, cs);
  }

  lemma RequiredCovers(size: nat, cs: nat)
    requires 0 < cs < TWO32 && size + cs - 1 < TWO32
    ensures size <= Required(size, cs) * cs && (Required(size, cs) == 0 <==> size == 0)
  {
    if size > 0 {
      RequiredExact(size, cs);
    }
  }

  /** A product that loops need not look into. */
  function Times(i: nat, cs: nat): nat { i * cs }

  /** A chain of at least size bytes has the required number of clusters. */
  lemma RequiredLeast(size: nat, cs: nat, n: nat)
    requires 0 < cs && size + cs - 1 < TWO32 && size <= n * cs
    ensures Required(size, cs) <= n
  {
    var q := (size + cs - 1) / cs;
    DivMod(size + cs - 1, cs);
    assert (n + 1) * cs == n * cs + cs;
    if q > n {
      MulMono(n + 1, q, cs);
    }
  }

  /** Rewriting one cluster of a chain is a patch of the file's bytes. */
  lemma PatchChain(v: Vol, cs: nat, id: nat, i: nat, off: nat, p: seq<byte>)
    requires Inv(v, cs) && id in v.chains && i < |v.chains[id]| && off + |p| <= cs
    ensures var n := v.chains[id][i];
            && n < |v.data| && |v.data[n]| == cs && i * cs + off + |p| <= |Bytes(v, cs, id)|
            && var w := Poke(v, id, i, Patched(v.data[n], off, p));
               && Bytes(w, cs, id) == Patched(Bytes(v, cs, id), i * cs + off, p)
               && forall x: nat :: x in v.files && x != id ==> Content(w, cs, x) == Content(v, cs, x)
  {
    hide Inv, Content, Bytes, Patched, Poke;
    ChainSlice(v, cs, id, i);
    PatchedCluster(Bytes(v, cs, id), i * cs, cs, off, p);
    PokeBytes(v, cs, id, i, Patched(v.data[v.chains[id][i]], off, p));
  }

  lemma BytesLength(v: Vol, cs: nat, id: nat)
    requires Inv(v, cs) && id in v.chains
    ensures |Bytes(v, cs, id)| == |v.chains[id]| * cs < TWO32
  {
    ChainClusters(v, cs, id);
  }

  lemma ChainSlice(v: Vol, cs: nat, id: nat, i: nat)
    requires Inv(v, cs) && id in v.chains && i < |v.chains[id]|
    ensures var n := v.chains[id][i];
            && n < |v.data| && |v.data[n]| == cs && i * cs + cs <= |Bytes(v, cs, id)|
            && Bytes(v, cs, id)[i * cs..i * cs + cs] == v.data[n]
  {
    ChainClusters(v, cs, id);
    FlatSlice(v.data, v.chains[id], i, cs);
  }

  /** A write goes as far as it wants or to the last offset there is. */
  lemma ClippedExact(offset: nat, size: nat)
    requires offset < TWO32
    ensures var n := Clipped(offset, size); n <= size && offset + n < TWO32 && (n == size || offset + n == TWO32 - 1)
  {
  }

  /** A write clipped to offsets below 2^32 - 1. */
  function Clipped(offset: nat, size: nat): nat
    requires offset < TWO32
  {
    if offset + size > TWO32 - 1 then TWO32 - 1 - offset else size
  }

  lemma SizeFits(v: Vol, cs: nat, id: nat)
    requires Inv(v, cs) && id in v.files
    ensures v.files[id].size <= |Bytes(v, cs, id)| && Content(v, cs, id) == Bytes(v, cs, id)[..v.files[id].size]
  {
    ChainClusters(v, cs, id);
  }

  /** Bytes beyond the size do not show. */
  lemma SameContents(v: Vol, w: Vol, cs: nat, id: nat)
    requires id in v.files && w.files == v.files && v.files[id].size <= |Bytes(v, cs, id)| == |Bytes(w, cs, id)|
    requires Bytes(v, cs, id)[..v.files[id].size] == Bytes(w, cs, id)[..v.files[id].size]
    requires forall x: nat :: x in v.files && x != id ==> Content(w, cs, x) == Content(v, cs, x)
    ensures Contents(w, cs) == Contents(v, cs)
  {
    ContentsSame(v, w, cs);
  }

  lemma ContentsAt(v: Vol, cs: nat, id: nat)
    requires id in v.files
    ensures id in Contents(v, cs) && Contents(v, cs)[id] == Content(v, cs, id)
  {
  }

  lemma ContentsOver(v: Vol, w: Vol, cs: nat, id: nat, r: seq<byte>)
    requires w.files.Keys == v.files.Keys
    requires forall x: nat :: x in v.files && x != id ==> Content(w, cs, x) == Content(v, cs, x)
    ensures Contents(w, cs)[id := r] == Contents(v, cs)[id := r]
  {
  }

  // ------------------------------------------------------- clusters of a file

  /** There are enough clusters for a file of that size. */
  ghost predicate Fits(v: Vol, cs: nat, id: nat, size: nat)
    requires id in v.chains && cs > 0
  {
    Required(size, cs) <= |v.chains[id]| + |Free(v)|
  }

  /** How long the chain is after an attempt to make the file that large. */
  ghost function LengthFor(v: Vol, cs: nat, id: nat, size: nat): int
    requires id in v.chains && cs > 0
  {
    if !Fits(v, cs, id, size) then |v.chains[id]| + |Free(v)| else AtLeast(|v.chains[id]|, Required(size, cs))
  }

  /** The chain has grown by free clusters, and nothing else has changed. */
  ghost predicate Grew(v: Vol, w: Vol, id: nat) {
    && OnlyFile(v, w, id) && w.orphans == v.orphans
    && id in v.files && id in w.files && id in v.chains && id in w.chains
    && w.files[id].size == v.files[id].size && w.files[id].entry == v.files[id].entry
    && |v.chains[id]| <= |w.chains[id]| && |w.chains[id]| + |Free(w)| == |v.chains[id]| + |Free(v)|
  }

  /** Only the size and the directory entry have changed, and the entry names the chain. */
  ghost predicate Listed(v: Vol, w: Vol, id: nat) {
    && OnlyFile(v, w, id) && w.orphans == v.orphans && w.fat == v.fat && w.chains == v.chains
    && id in v.files && id in w.files && w.files[id].start == v.files[id].start
    && w.files[id].entry == Named(v.files[id].start)
  }

  /** An attempt to make the file that large. The directory entry is written only if there
      were enough clusters; the chain has taken what there was. */
  ghost predicate Sized(v: Vol, w: Vol, cs: nat, id: nat, size: nat)
    requires id in v.chains && cs > 0
  {
    && OnlyFile(v, w, id) && w.orphans == v.orphans && id in v.files && id in w.files && id in w.chains
    && |w.chains[id]| == LengthFor(v, cs, id, size) && |w.chains[id]| + |Free(w)| == |v.chains[id]| + |Free(v)|
    && w.files[id].entry == if Fits(v, cs, id, size) then Named(w.files[id].start) else v.files[id].entry
  }

  /** A smaller file has given its tail back. */
  ghost predicate Cropped(v: Vol, w: Vol, cs: nat, id: nat, size: nat)
    requires id in v.chains && cs > 0
  {
    && OnlyFile(v, w, id) && w.orphans == v.orphans && id in w.files && id in w.chains
    && |w.chains[id]| == Required(size, cs) && |w.chains[id]| + |Free(w)| == |v.chains[id]| + |Free(v)|
    && w.files[id].entry == Named(w.files[id].start)
  }

  /** The directory entry of a file that has clusters names none of them. */
  ghost predicate Stale(v: Vol, id: nat) {
    id in v.files && id in v.chains && v.chains[id] != [] && v.files[id].entry < 2
  }

  /** A file is gone. Its clusters are free, or orphans if the entry was stale. */
  ghost predicate Gone(v: Vol, w: Vol, id: nat) {
    && OnlyFile(v, w, id) && id !in w.files && id in v.chains
    && w.orphans == (if Stale(v, id) then v.orphans + Members(v.chains[id]) else v.orphans)
    && Free(w) == (if Stale(v, id) then Free(v) else Free(v) + Members(v.chains[id]))
    && |Free(w)| == (if Stale(v, id) then |Free(v)| else |Free(v)| + |v.chains[id]|)
  }

  /** A directory with one cluster, which its entry names, has come. */
  ghost predicate Made(v: Vol, w: Vol, id: nat) {
    && OnlyFile(v, w, id) && w.orphans == v.orphans && id in w.files && id in w.chains
    && |w.chains[id]| == 1 && |Free(w)| == |Free(v)| - 1 && w.files[id].entry == Named(w.files[id].start)
  }

  lemma GrowParts(v: Vol, cs: nat, id: nat, n: nat)
    requires id in v.chains && id in v.files && n < |v.fat| && n < |v.data|
    requires v.chains[id] != [] ==> v.chains[id][|v.chains[id]| - 1] < |v.fat|
    ensures var w := Grow(v, cs, id, n);
      && w.chains == v.chains[id := v.chains[id] + [n]] && w.files.Keys == v.files.Keys && w.orphans == v.orphans
      && w.files[id].size == v.files[id].size && w.files[id].entry == v.files[id].entry
  {
  }

  lemma FreeNone(v: Vol)
    ensures Free(v) == {} <==> forall c :: 2 <= c < |v.fat| ==> v.fat[c] != FREE
  {
    if Free(v) == {} {
      forall c | 2 <= c < |v.fat| ensures v.fat[c] != FREE { assert c !in Free(v); }
    }
  }

  lemma GrewNone(v: Vol, id: nat)
    requires id in v.files && id in v.chains
    ensures Grew(v, v, id)
  {
  }

  lemma GrewTrans(u: Vol, v: Vol, w: Vol, id: nat)
    requires Grew(u, v, id) && Grew(v, w, id)
    ensures Grew(u, w, id)
  {
    hide Free;
    OnlyTrans(u, v, w, id);
  }

  lemma OnlyTrans(u: Vol, v: Vol, w: Vol, id: nat)
    requires OnlyFile(u, v, id) && OnlyFile(v, w, id)
    ensures OnlyFile(u, w, id)
  {
    forall x: nat | x != id ensures SameFile(u, w, x) { assert SameFile(u, v, x) && SameFile(v, w, x); }
  }

  lemma GrewFull(v: Vol, w: Vol, id: nat)
    requires Grew(v, w, id)
    ensures Free(w) == {} ==> |w.chains[id]| == |v.chains[id]| + |Free(v)|
    ensures |v.chains[id]| <= |w.chains[id]| <= |v.chains[id]| + |Free(v)|
    ensures id in v.files && id in w.files && w.files[id].size == v.files[id].size
  {
  }

  lemma SizedNot(v: Vol, w: Vol, cs: nat, id: nat, size: nat)
    requires cs > 0 && Grew(v, w, id) && !Fits(v, cs, id, size) && |w.chains[id]| == LengthFor(v, cs, id, size)
    ensures Sized(v, w, cs, id, size)
  {
  }

  lemma SizedDone(u: Vol, v: Vol, w: Vol, cs: nat, id: nat, size: nat)
    requires cs > 0 && Grew(u, v, id) && Fits(u, cs, id, size) && |v.chains[id]| == LengthFor(u, cs, id, size)
    requires Listed(v, w, id)
    ensures Sized(u, w, cs, id, size)
  {
    assert Free(w) == Free(v);
    hide Free;
    OnlyTrans(u, v, w, id);
  }

  lemma ResizeListed(v: Vol, w: Vol, id: nat, size: nat)
    requires id in v.files && w == v.(data := w.data)
    ensures Listed(v, Resize(w, id, size), id)
  {
  }

  lemma FitsLong(v: Vol, cs: nat, id: nat, size: nat)
    requires id in v.chains && cs > 0
    ensures Fits(v, cs, id, size) ==> LengthFor(v, cs, id, size) >= Required(size, cs)
  {
  }

  /** A chain that covers the size needs no more clusters. */
  lemma FitsAlready(v: Vol, cs: nat, id: nat, size: nat)
    requires Inv(v, cs) && id in v.chains && size <= v.files[id].size
    ensures Grew(v, v, id)
    ensures size + cs - 1 < TWO32 ==> Fits(v, cs, id, size) && LengthFor(v, cs, id, size) == |v.chains[id]|
  {
    ChainClusters(v, cs, id);
    SameKeys(v, cs);
    if size + cs - 1 < TWO32 { RequiredLeast(size, cs, |v.chains[id]|); }
  }

  /** Removal by the directory entry: the chain is cut to nothing, or not touched. */
  ghost function Unnamed(v: Vol, id: nat): Vol
    requires id in v.chains && id in v.files
  {
    if v.files[id].entry >= 2 then Cut(v, id, 0, 0) else v
  }

  lemma GoneDone(v: Vol, cs: nat, id: nat)
    requires Inv(v, cs) && id in v.files
    ensures id in v.chains && Gone(v, Forget(Unnamed(v, id), id), id)
  {
    hide Inv, Freed, Free, OnlyFile, Members;
    SameKeys(v, cs);
    StaleOrNot(v, cs, id);
    CutFree(v, cs, id, 0, 0);
    assert v.chains[id][0..] == v.chains[id];
    OnlySelf(v, id);
    var u := Unnamed(v, id);
    ForgetFree(u, id);
    OnlyTrans(v, u, Forget(u, id), id);
  }

  lemma OnlySelf(v: Vol, id: nat)
    ensures OnlyFile(v, v, id)
  {
  }

  lemma StaleOrNot(v: Vol, cs: nat, id: nat)
    requires Inv(v, cs) && id in v.files
    ensures id in v.chains && (v.files[id].entry >= 2 ==> v.chains[id] != [])
  {
    assert FileOk(v, cs, id);
  }

  lemma ForgetFree(v: Vol, id: nat)
    requires id in v.chains
    ensures Free(Forget(v, id)) == Free(v) && OnlyFile(v, Forget(v, id), id)
    ensures v.chains[id] == [] ==> Forget(v, id).orphans == v.orphans
  {
  }

  lemma MadeDone(v: Vol, g: Vol, id: nat)
    requires id !in v.files && id !in v.chains && Grew(Add(v, id), g, id) && |g.chains[id]| == 1
    ensures Made(v, Resize(g, id, 0), id)
  {
    AddFree(v, id);
    ResizeFree(g, id, 0);
    hide Free;
    OnlyTrans(v, Add(v, id), g, id);
    OnlyTrans(v, g, Resize(g, id, 0), id);
  }

  lemma ResizeFree(v: Vol, id: nat, size: nat)
    requires id in v.files
    ensures Free(Resize(v, id, size)) == Free(v) && OnlyFile(v, Resize(v, id, size), id)
  {
  }

  lemma AddFree(v: Vol, id: nat)
    ensures Free(Add(v, id)) == Free(v) && OnlyFile(v, Add(v, id), id)
  {
  }

  lemma ContentsEmpty(v: Vol, g: Vol, cs: nat, id: nat)
    requires Contents(g, cs) == Contents(v, cs)[id := []]
    ensures Contents(g, cs)[id := []] == Contents(v, cs)[id := []]
  {
  }

  // -------------------------------------------------------------- pigeonhole

  lemma {:induction false} FewInRange(c: seq<nat>, s: set<nat>)
    requires Distinct(c) && forall i :: 0 <= i < |c| ==> c[i] in s
    ensures |c| <= |s|
  {
    if c != [] {
      var last := c[|c| - 1];
      FewInRange(c[..|c| - 1], s - {last});
    }
  }

  ghost function Range(lo: nat, hi: nat): (s: set<nat>)
    requires lo <= hi
    ensures |s| == hi - lo && forall x :: x in s <==> lo <= x < hi
  {
    if lo == hi then {} else Range(lo, hi - 1) + {hi - 1}
  }

  /** No chain has more clusters than the volume, so the length cut-offs of the
      source never stop a walk early. */
  lemma ChainShort(fat: seq<nat>, c: seq<nat>)
    requires Linked(fat, c) && |fat| >= 2
    ensures |c| <= |fat| - 2
  {
    FewInRange(c, Range(2, |fat|));
  }

  lemma FreedNone(fat: seq<nat>, c: seq<nat>, lo: nat)
    requires lo <= |c|
    ensures Freed(fat, c, lo, lo) == fat
  {
  }

  function AtLeast(x: nat, least: nat): (r: nat)
    ensures r >= x && r >= least && (r == x || r == least)
  {
    if x < least then least else x
  }

  /** One turn of the truncating walk: the entry it reads is still the original one,
      and names the next cluster or is an end mark. */
  lemma CutStep(fat: seq<nat>, c: seq<nat>, keep: nat, i: nat)
    requires Linked(fat, c) && keep <= |c| && i < |c|
    ensures 2 <= c[i] < |fat|
    ensures Freed(fat, c, keep, AtLeast(i, keep))[c[i]] == if i + 1 < |c| then c[i + 1] else fat[c[|c| - 1]]
    ensures i + 1 == |c| ==> fat[c[|c| - 1]] >= EOF_MIN
    ensures Freed(fat, c, keep, AtLeast(i + 1, keep)) ==
            if i < keep then Freed(fat, c, keep, AtLeast(i, keep))
            else Freed(fat, c, keep, AtLeast(i, keep))[c[i] := FREE]
  {
    if i >= keep {
      FreedStep(fat, c, keep, i);
    }
  }

  // ----------------------------------------------------------------- the volume

  /** A table word rewritten in its low 28 bits. */
  function SetLow(t: seq<nat>, c: nat, value: nat): (r: seq<nat>)
    requires c < |t|
    ensures |r| == |t|
  {
    var word: nat := t[c] / LOW * LOW + value;
    t[c := word]
  }

  lemma SetLowBits(t: seq<nat>, c: nat, value: nat)
    requires c < |t| && value < LOW
    ensures LowBits(SetLow(t, c, value)) == LowBits(t)[c := value]
    ensures forall x :: 0 <= x < |t| ==> SetLow(t, c, value)[x] / LOW == t[x] / LOW
  {
  }

  ghost function LowBits(t: seq<nat>): (r: seq<nat>)
    ensures |r| == |t| && forall x :: 0 <= x < |t| ==> r[x] == t[x] % LOW
  {
    seq(|t|, x requires 0 <= x < |t| => t[x] % LOW)
  }

  class Volume {
    const cs: nat
    var fats: seq<seq<nat>>
    var data: seq<seq<byte>>
    var files: map<nat, File>
    var nextFree: nat
    ghost var chains: map<nat, seq<nat>>
    ghost var orphans: set<nat>

    /** All copies of the table agree in the low 28 bits. */
    ghost predicate CopiesOk()
      reads this`fats
    {
      && |fats| > 0 && |fats[0]| >= 2
      && forall i :: 0 <= i < |fats| ==> LowBits(fats[i]) == LowBits(fats[0])
    }

    ghost function Fat(): seq<nat>
      reads this`fats
    {
      if fats == [] then [] else LowBits(fats[0])
    }

    ghost function State(): Vol
      reads this
    {
      Vol(Fat(), data, files, chains, orphans)
    }

    ghost predicate Valid()
      reads this
    {
      CopiesOk() && Inv(State(), cs) && cs < TWO32 && TWO32 % cs == 0
    }

    /** fat32_read_fat_entry. */
    function Entry(c: nat): nat
      requires CopiesOk()
      reads this
    {
      if c < 2 || c >= MAX_CLUSTER || c >= |fats[0]| then INVALID else fats[0][c] % LOW
    }

    /** fat32_write_fat_entry: every copy, keeping the reserved high bits. */
    method WriteEntry(c: nat, value: nat)
      requires CopiesOk() && 2 <= c < |fats[0]| && value < LOW
      modifies this`fats
      ensures CopiesOk() && |fats| == |old(fats)|
      ensures Fat() == old(Fat())[c := value]
      ensures forall i :: 0 <= i < |fats| ==> c < |old(fats)[i]| && fats[i] == SetLow(old(fats)[i], c, value)
    {
      hide SetLow;
      forall i | 0 <= i < |fats|
        ensures c < |fats[i]| && LowBits(SetLow(fats[i], c, value)) == LowBits(fats[0])[c := value]
      {
        assert |LowBits(fats[i])| == |LowBits(fats[0])|;
        SetLowBits(fats[i], c, value);
      }
      for n := 0 to |fats|
        invariant |fats| == |old(fats)|
        invariant forall i :: n <= i < |fats| ==> fats[i] == old(fats)[i]
        invariant forall i :: 0 <= i < n ==> c < |old(fats)[i]| && fats[i] == SetLow(old(fats)[i], c, value)
      {
        fats := fats[n := SetLow(fats[n], c, value)];
      }
    }

    /** fat32_allocate_cluster: the first free cluster from the hint on, then from
        cluster 2. It fails only when no cluster is free, whatever the hint. */
    method Allocate() returns (n: nat)
      requires CopiesOk() && |data| == |fats[0]| <= MAX_CLUSTER
      modifies this`fats, this`data, this`nextFree
      ensures CopiesOk()
      ensures n == 0 ==> Fat() == old(Fat()) && data == old(data) && forall c :: 2 <= c < |Fat()| ==> Fat()[c] != FREE
      ensures n != 0 ==> && 2 <= n < |old(Fat())| && old(Fat())[n] == FREE && nextFree == n + 1
                         && Fat() == old(Fat())[n := EOF_MARK] && data == old(data)[n := ZeroCluster(cs)]
    {
      var top := |fats[0]|;
      var start := if 2 <= nextFree < top - 1 then nextFree else 2;
      var c := start;
      while c < top
        invariant start <= c <= top || c == start
        invariant forall x :: start <= x < c ==> Fat()[x] != FREE
      {
        if Entry(c) == FREE {
          TakeCluster(c);
          return c;
        }
        c := c + 1;
      }
      c := 2;
      while c < start
        invariant 2 <= c <= start
        invariant forall x :: 2 <= x < c ==> Fat()[x] != FREE
      {
        if Entry(c) == FREE {
          TakeCluster(c);
          return c;
        }
        c := c + 1;
      }
      return 0;
    }

    method TakeCluster(c: nat)
      requires CopiesOk() && 2 <= c < |fats[0]| == |data|
      modifies this`fats, this`data, this`nextFree
      ensures CopiesOk() && Fat() == old(Fat())[c := EOF_MARK]
      ensures data == old(data)[c := ZeroCluster(cs)] && nextFree == c + 1
    {
      WriteEntry(c, EOF_MARK);
      data := data[c := ZeroCluster(cs)];
      nextFree := c + 1;
    }

    /** The last cluster of a chain and its length, found by the unbounded walk of
        fat32_ensure_file_size. */
    method Walk(id: nat) returns (last: nat, count: nat)
      requires Valid() && id in files
      ensures count == |chains[id]| && last == if count == 0 then 0 else chains[id][count - 1]
    {
      assert FileOk(State(), cs, id);
      ghost var c := chains[id];
      last, count := 0, 0;
      var cluster := files[id].start;
      if cluster < 2 {
        return;
      }
      while true
        invariant 0 <= count < |c| && cluster == c[count]
        decreases |c| - count
      {
        count, last := count + 1, cluster;
        assert Fat()[last] == if count < |c| then c[count] else Fat()[c[|c| - 1]];
        var next := Entry(cluster);
        if next >= EOF_MIN {
          return;
        }
        cluster := next;
      }
    }

    /** One turn of the extension loop: a cluster is allocated and hung behind the
        chain of the file. */
    method Extend(id: nat, prev: nat) returns (n: nat)
      requires Valid() && id in files
      requires prev == if chains[id] == [] then 0 else chains[id][|chains[id]| - 1]
      requires (|chains[id]| + 1) * cs < TWO32
      modifies this
      ensures Valid() && files.Keys == old(files.Keys)
      ensures n == 0 <==> old(Free(State())) == {}
      ensures n == 0 ==> State() == old(State())
      ensures n != 0 ==> && chains[id] == old(chains[id]) + [n] && Grew(old(State()), State(), id)
                         && Contents(State(), cs) == old(Contents(State(), cs))
                         && Bytes(State(), cs, id) == old(Bytes(State(), cs, id)) + ZeroCluster(cs)
    {
      hide Contents, Bytes, Fat, Inv, CopiesOk, Free, OnlyFile, Grow, Linked;
      FreeNone(State());
      ValidCs();
      ChainTop(id);
      n := Allocate();
      if n == 0 {
        return;
      }
      GrowKeeps(old(State()), cs, id, n);
      GrowBytes(old(State()), cs, id, n);
      GrowFree(old(State()), cs, id, n);
      GrowParts(old(State()), cs, id, n);
      Attach(id, prev, n, old(State()));
    }

    /** The new cluster n is hung behind the last one, or starts the file. */
    method Attach(id: nat, prev: nat, n: nat, ghost v: Vol)
      requires CopiesOk() && id in v.files && id in v.chains && 2 <= n < |v.fat| == |v.data| && n < LOW
      requires v.chains[id] != [] ==> 2 <= v.chains[id][|v.chains[id]| - 1] < |v.fat|
      requires prev == if v.chains[id] == [] then 0 else v.chains[id][|v.chains[id]| - 1]
      requires State() == v.(fat := v.fat[n := EOF_MARK], data := v.data[n := ZeroCluster(cs)])
      modifies this`fats, this`files, this`chains
      ensures CopiesOk() && State() == Grow(v, cs, id, n)
    {
      hide CopiesOk, Fat;
      FatLength();
      if prev >= 2 {
        WriteEntry(prev, n);
      } else {
        files := files[id := files[id].(start := n)];
      }
      chains := chains[id := chains[id] + [n]];
    }

    /** fat32_ensure_file_size: clusters are added until there are enough. Even when
        space runs out on the way, the volume stays well formed and no file changes. */
    method EnsureSize(id: nat, size: nat) returns (ok: bool)
      requires Valid() && id in files
      modifies this
      ensures Valid() && files.Keys == old(files.Keys) && Grew(old(State()), State(), id)
      ensures Contents(State(), cs) == old(Contents(State(), cs))
      ensures ZeroExtended(old(Bytes(State(), cs, id)), Bytes(State(), cs, id))
      ensures ok <==> old(Fits(State(), cs, id, size))
      ensures |chains[id]| == LengthFor(old(State()), cs, id, size)
      ensures !ok ==> Free(State()) == {}
    {
      hide Contents, Bytes, Inv, CopiesOk, Free, Grew;
      ValidCs();
      GrewNone(State(), id);
      var last, count := Walk(id);
      ValidCs();
      var required := Required(size, cs);
      if required == 0 {
        return true;
      }
      while count < required
        invariant Valid() && files.Keys == old(files.Keys) && id in chains && Grew(old(State()), State(), id)
        invariant count > |old(chains[id])| ==> count <= required
        invariant Contents(State(), cs) == old(Contents(State(), cs))
        invariant ZeroExtended(old(Bytes(State(), cs, id)), Bytes(State(), cs, id))
        invariant count == |chains[id]| && last == if count == 0 then 0 else chains[id][count - 1]
      {
        RequiredFits(size, cs, count + 1);
        ghost var v := State();
        var n := Extend(id, last);
        ValidCs();
        if n == 0 {
          GrewFull(old(State()), State(), id);
          return false;
        }
        GrewTrans(old(State()), v, State(), id);
        last, count := n, count + 1;
      }
      GrewFull(old(State()), State(), id);
      if last >= 2 {
        ghost var v := State();
        MarkLast(id, last);
        GrewTrans(old(State()), v, State(), id);
      }
      return true;
    }

    lemma ValidCs()
      requires Valid()
      ensures 0 < cs < TWO32 && |fats| > 0 && |data| == |fats[0]| == |Fat()| <= MAX_CLUSTER && files.Keys == chains.Keys
      ensures CopiesOk() && Inv(State(), cs)
    {
    }

    method MarkLast(id: nat, last: nat)
      requires Valid() && id in chains && chains[id] != [] && last == chains[id][|chains[id]| - 1]
      modifies this`fats
      ensures Valid() && Contents(State(), cs) == old(Contents(State(), cs)) && Grew(old(State()), State(), id)
      ensures Bytes(State(), cs, id) == old(Bytes(State(), cs, id))
    {
      hide Contents, Bytes, Inv, LowBits;
      MarkEndKeeps(State(), cs, id);
      MarkEndFree(State(), cs, id);
      ChainClusters(State(), cs, id);
      ValidCs();
      WriteEntry(last, EOF_MARK);
      assert State() == MarkEnd(old(State()), id);
    }

    /** fat32_get_cluster_by_index on the chain of a file. */
    method ClusterAt(id: nat, index: nat) returns (ok: bool, cluster: nat)
      requires Valid() && id in files
      ensures id in chains && (ok <==> index < |chains[id]|)
      ensures ok ==> cluster == chains[id][index]
    {
      assert FileOk(State(), cs, id);
      ghost var c := chains[id];
      cluster := files[id].start;
      if cluster < 2 {
        return false, 0;
      }
      for i := 0 to index
        invariant i < |c| && cluster == c[i]
      {
        assert Fat()[cluster] == if i + 1 < |c| then c[i + 1] else Fat()[c[|c| - 1]];
        var next := Entry(cluster);
        if next == INVALID || next >= EOF_MIN {
          return false, 0;
        }
        cluster := next;
      }
      return true, cluster;
    }

    /** Reads a cluster, lays p over it and writes it back: the loop body shared by
        fat32_zero_range and fat32_file_write. */
    method Overwrite(id: nat, pos: nat, p: seq<byte>) returns (ok: bool)
      requires Valid() && id in files && pos % cs + |p| <= cs
      modifies this`data
      ensures Valid() && id in chains
      ensures ok <==> pos < |old(Bytes(State(), cs, id))|
      ensures !ok ==> State() == old(State())
      ensures ok ==> && pos + |p| <= |old(Bytes(State(), cs, id))|
                     && Bytes(State(), cs, id) == Patched(old(Bytes(State(), cs, id)), pos, p)
                     && forall x: nat :: x in files && x != id ==>
                          Content(State(), cs, x) == old(Content(State(), cs, x))
    {
      hide Content, CopiesOk, Inv, Bytes, Patched, Clusters, Linked;
      ValidCs();
      DivMod(pos, cs);
      DivLess(pos, cs, |chains[id]|);
      BytesLength(State(), cs, id);
      var i: nat, off: nat := pos / cs, pos % cs;
      var cluster;
      ok, cluster := ClusterAt(id, i);
      if !ok {
        return;
      }
      PatchChain(State(), cs, id, i, off, p);
      PokeKeeps(State(), cs, id, i, Patched(data[cluster], off, p));
      data := data[cluster := Patched(data[cluster], off, p)];
      assert State() == Poke(old(State()), id, i, data[cluster]);
    }

    /** fat32_zero_range. It fails when the range leaves the chain, having changed
        nothing before `start`. */
    method ZeroRange(id: nat, start: nat, end: nat) returns (ok: bool)
      requires Valid() && id in files
      modifies this`data
      ensures Valid() && id in chains
      ensures ok <==> start >= end || end <= |old(Bytes(State(), cs, id))|
      ensures ok && start < end ==>
                Bytes(State(), cs, id) == Patched(old(Bytes(State(), cs, id)), start, ZeroCluster(end - start))
      ensures |Bytes(State(), cs, id)| == |old(Bytes(State(), cs, id))|
      ensures start >= end ==> State() == old(State())
      ensures start <= |old(Bytes(State(), cs, id))| ==>
                Bytes(State(), cs, id)[..start] == old(Bytes(State(), cs, id))[..start]
      ensures forall x: nat :: x in files && x != id ==> Content(State(), cs, x) == old(Content(State(), cs, x))
    {
      hide Content, CopiesOk, Inv, Bytes, StopIn, Patched;
      ValidCs();
      if start >= end {
        return true;
      }
      ghost var f := Bytes(State(), cs, id);
      ZeroPatchStart(f, start);
      var pos := start;
      while pos < end
        invariant Valid() && start <= pos <= end && id in chains
        invariant start > |f| ==> pos == start && Bytes(State(), cs, id) == f
        invariant start <= |f| ==> pos <= |f| && Bytes(State(), cs, id) == Patched(f, start, ZeroCluster(pos - start))
        invariant forall x: nat :: x in files && x != id ==> Content(State(), cs, x) == old(Content(State(), cs, x))
      {
        var stop := StopIn(pos, end, cs);
        StopInOk(pos, end, cs);
        ok := Overwrite(id, pos, ZeroCluster(stop - pos));
        if !ok {
          ZeroPatchPrefix(f, start, pos);
          return;
        }
        ZeroPatchStep(f, start, pos, stop);
        pos := stop;
      }
      ZeroPatchPrefix(f, start, pos);
      return true;
    }

    // ------------------------------------------------------------ file operations

    /** fat32_file_read: the bytes copied to the caller. */
    method Read(id: nat, offset: nat, size: nat) returns (r: seq<byte>)
      requires Valid() && id in files && offset < TWO32 && size < TWO32
      ensures r == ReadSpec(Bytes(State(), cs, id), files[id].size, offset, size)
    {
      hide CopiesOk, Inv, Bytes, Slice, LowBits, Wanted;
      ValidCs();
      StartOk(id);
      if files[id].start < 2 || files[id].size == 0 || offset >= files[id].size {
        return [];
      }
      var want := Wanted(files[id].size, offset, size);
      var index, off := offset / cs, offset % cs;
      DivMod(offset, cs);
      DivLess(offset, cs, |chains[id]|);
      var ok, cluster := ClusterAt(id, index);
      assert offset == Times(index, cs) + off;
      r := ReadChain(id, index, cluster, off, want);
    }

    /** The copying loop of fat32_file_read, from cluster i of the chain on. */
    method ReadChain(id: nat, ghost start: nat, first: nat, firstOff: nat, want: nat) returns (r: seq<byte>)
      requires Valid() && id in files && id in chains && start < |chains[id]|
      requires first == chains[id][start] && firstOff < cs
      ensures r == Slice(Bytes(State(), cs, id), Times(start, cs) + firstOff, want)
    {
      hide Valid, Inv, Bytes, Entry, Times;
      ghost var c := chains[id];
      ghost var f := Bytes(State(), cs, id);
      ghost var o := Times(start, cs) + firstOff;
      ghost var i := start;
      var cluster, off, length := first, firstOff, 0;
      ChainTop(id);
      ReadBounds(id, start);
      r := [];
      while |r| < want && 2 <= cluster < EOF_MIN && length < |fats[0]| - 2
        invariant start <= i <= |c| && length == i - start
        invariant if i < |c| then cluster == c[i] else cluster >= EOF_MIN
        invariant |r| <= want && o + |r| <= |f| && r == f[o..o + |r|]
        invariant |r| < want ==> o + |r| == Times(i, cs) + off && 0 <= off < cs
        decreases |c| - i
      {
        NextCluster(id, i);
        var n := if cs - off > want - |r| then want - |r| else cs - off;
        ReadPiece(id, i, off, n);
        SliceGrows(f, o, |r|, n);
        r := r + data[cluster][off..off + n];
        off := 0;
        cluster := Entry(cluster);
        length, i := length + 1, i + 1;
      }
    }

    lemma ReadBounds(id: nat, start: nat)
      requires Valid() && id in chains && start < |chains[id]|
      ensures cs > 0 && |Bytes(State(), cs, id)| == Times(|chains[id]|, cs)
      ensures Times(start, cs) + cs <= Times(|chains[id]|, cs)
    {
      ValidCs();
      BytesLength(State(), cs, id);
      Offsets(start, |chains[id]|, cs);
    }

    lemma ReadPiece(id: nat, i: nat, off: nat, n: nat)
      requires Valid() && id in chains && i < |chains[id]| && off + n <= cs
      ensures var c, f, lo := chains[id][i], Bytes(State(), cs, id), Times(i, cs) + off;
        c < |data| && |data[c]| == cs && lo + n <= |f| && data[c][off..off + n] == f[lo..lo + n]
      ensures Times(i + 1, cs) == Times(i, cs) + cs
    {
      hide Bytes, CopiesOk, Inv;
      ChainSlice(State(), cs, id, i);
      SubSlice(Bytes(State(), cs, id), i * cs, cs, off, n);
    }

    lemma ChainTop(id: nat)
      requires Valid() && id in chains
      ensures |chains[id]| <= |fats[0]| - 2 && CopiesOk()
      ensures forall i :: 0 <= i < |chains[id]| ==> 2 <= chains[id][i] < MAX_CLUSTER
    {
      ChainClusters(State(), cs, id);
      ChainShort(Fat(), chains[id]);
    }

    /** The table entry of a chain's cluster is the next cluster or an end mark. */
    lemma NextCluster(id: nat, i: nat)
      requires Valid() && id in chains && i < |chains[id]|
      ensures if i + 1 < |chains[id]| then Entry(chains[id][i]) == chains[id][i + 1]
              else EOF_MIN <= Entry(chains[id][i]) < INVALID
    {
      ChainClusters(State(), cs, id);
      assert Entry(chains[id][i]) == Fat()[chains[id][i]];
    }

    lemma StartOk(id: nat)
      requires Valid() && id in files
      ensures if chains[id] == [] then files[id].start < 2 else files[id].start == chains[id][0] >= 2
      ensures files[id].size <= |chains[id]| * cs
    {
      assert FileOk(State(), cs, id);
    }

    /** The copying loop of fat32_file_write. It stops early only at the end of the chain. */
    method WriteLoop(id: nat, offset: nat, buf: seq<byte>) returns (n: nat)
      requires Valid() && id in files && id in chains && offset <= |Bytes(State(), cs, id)|
      modifies this`data
      ensures Valid() && n <= |buf|
      ensures offset + n <= |old(Bytes(State(), cs, id))|
      ensures n < |buf| ==> offset + n == |old(Bytes(State(), cs, id))|
      ensures Bytes(State(), cs, id) == Patched(old(Bytes(State(), cs, id)), offset, buf[..n])
      ensures forall x: nat :: x in files && x != id ==> Content(State(), cs, x) == old(Content(State(), cs, x))
    {
      hide Content, CopiesOk, Inv, Bytes, StopIn, Patched;
      ghost var f := Bytes(State(), cs, id);
      PatchedNone(f, offset);
      var end := offset + |buf|;
      n := 0;
      while n < |buf|
        invariant Valid() && n <= |buf| && offset + n <= |f|
        invariant Bytes(State(), cs, id) == Patched(f, offset, buf[..n])
        invariant forall x: nat :: x in files && x != id ==> Content(State(), cs, x) == old(Content(State(), cs, x))
      {
        var pos := offset + n;
        ValidCs();
        var stop := StopIn(pos, end, cs);
        StopInOk(pos, end, cs);
        var p := buf[n..stop - offset];
        var ok := Overwrite(id, pos, p);
        if !ok {
          return;
        }
        PatchedTwice(f, offset, buf[..n], p);
        assert buf[..n] + p == buf[..stop - offset];
        n := stop - offset;
      }
    }

    method SetSize(id: nat, size: nat)
      requires Valid() && id in files && size <= |Bytes(State(), cs, id)|
      modifies this`files
      ensures Valid() && Contents(State(), cs) == old(Contents(State(), cs))[id := old(Bytes(State(), cs, id))[..size]]
      ensures State() == Resize(old(State()), id, size)
    {
      hide Contents, Bytes, CopiesOk, Inv;
      ValidCs();
      BytesLength(State(), cs, id);
      ResizeKeeps(State(), cs, id, size);
      files := files[id := File(files[id].start, size, Named(files[id].start))];
      assert State() == Resize(old(State()), id, size);
    }

    /** The second half of fat32_file_write: the gap is cleared, the bytes are copied
        and the size is raised. */
    method FillAndWrite(id: nat, offset: nat, buf: seq<byte>) returns (done: bool, n: nat)
      requires Valid() && id in files
      modifies this`data, this`files
      ensures Valid() && n <= |buf|
      ensures done <==> offset <= |old(Bytes(State(), cs, id))|
      ensures !done ==> n == 0 && Contents(State(), cs) == old(Contents(State(), cs))
      ensures !done ==> files == old(files)
      ensures done ==> && Listed(old(State()), State(), id)
                       && (n < |buf| ==> offset + n == |old(Bytes(State(), cs, id))|)
                       && Contents(State(), cs) ==
                          old(Contents(State(), cs))[id := Splice(old(Content(State(), cs, id)), offset, buf[..n])]
    {
      hide Contents, Content, Bytes, CopiesOk, Inv, Splice, Patched, Listed;
      ghost var v := State();
      ghost var g := Bytes(v, cs, id);
      ValidCs();
      SizeFits(v, cs, id);
      var original := files[id].size;
      if offset > original {
        done := ZeroRange(id, original, offset);
        if !done {
          SameContents(v, State(), cs, id);
          return false, 0;
        }
      }
      ghost var h := Bytes(State(), cs, id);
      n := WriteLoop(id, offset, buf);
      SpliceOfPatches(g, g, h, original, offset, buf[..n]);
      ghost var w := State();
      ResizeListed(v, w, id, if offset + n > original then offset + n else original);
      SetSize(id, if offset + n > original then offset + n else original);
      ContentsOver(v, w, cs, id, Splice(Content(v, cs, id), offset, buf[..n]));
      done := true;
    }

    /** fat32_file_write. Written bytes appear at the offset, a gap before them reads
        as zeros, and no other file changes. Unless the size rounds past 2^32, all of
        the clipped request is written or, when no cluster is free, nothing changes. */
    method Write(id: nat, offset: nat, buf: seq<byte>) returns (n: nat)
      requires Valid() && id in files && offset < TWO32
      modifies this
      ensures Valid() && n <= |buf|
      ensures var f := old(Content(State(), cs, id));
              || Contents(State(), cs) == old(Contents(State(), cs))
              || Contents(State(), cs) == old(Contents(State(), cs))[id := Splice(f, offset, buf[..n])]
      ensures var f := old(Content(State(), cs, id)); var m := Clipped(offset, |buf|);
              m > 0 && offset + m + cs - 1 < TWO32 ==>
                && Sized(old(State()), State(), cs, id, offset + m)
                && if old(Fits(State(), cs, id, offset + m))
                   then n == m && Contents(State(), cs) == old(Contents(State(), cs))[id := Splice(f, offset, buf[..m])]
                   else n == 0 && Contents(State(), cs) == old(Contents(State(), cs))
      ensures Clipped(offset, |buf|) == 0 ==> n == 0 && State() == old(State())
    {
      hide Contents, Content, Bytes, CopiesOk, Inv, Splice, Patched, Required, Fits, Grew, Sized, LengthFor, Listed;
      var size := Clipped(offset, |buf|);
      if size == 0 {
        return 0;
      }
      ValidCs();
      BytesLength(State(), cs, id);
      var end, original := offset + size, files[id].size;
      if end > original || files[id].start < 2 {
        var ok := EnsureSize(id, end);
        if !ok {
          SizedNot(old(State()), State(), cs, id, end);
          return 0;
        }
      } else {
        FitsAlready(State(), cs, id, end);
      }
      RequiredExact(end, cs);
      FitsLong(old(State()), cs, id, end);
      ChainLong(id, end);
      ContentsAt(old(State()), cs, id);
      ContentsAt(State(), cs, id);
      if files[id].start < 2 {
        return 0;
      }
      var done;
      ghost var v := State();
      done, n := FillAndWrite(id, offset, buf[..size]);
      if done && end + cs - 1 < TWO32 { SizedDone(old(State()), v, State(), cs, id, end); }
      assert buf[..size][..n] == buf[..n];
    }

    /** A chain of the required length reaches the size, when the rounding is exact. */
    lemma ChainLong(id: nat, size: nat)
      requires Valid() && id in files && size > 0
      ensures Required(size, cs) <= |chains[id]| && size <= Required(size, cs) * cs ==>
                size <= |Bytes(State(), cs, id)| && files[id].start >= 2
      ensures files[id].size <= |Bytes(State(), cs, id)|
      ensures files[id].start < 2 <==> |Bytes(State(), cs, id)| == 0
      ensures Content(State(), cs, id) == Bytes(State(), cs, id)[..files[id].size]
    {
      StartOk(id);
      BytesLength(State(), cs, id);
      if Required(size, cs) <= |chains[id]| {
        MulMono(Required(size, cs), |chains[id]|, cs);
      }
      if chains[id] != [] {
        MulMono(1, |chains[id]|, cs);
      }
    }

    // ------------------------------------------------------------- shrinking

    /** The walk of fat32_truncate_cluster_chain, and with keep == 0 the walk of
        fat32_free_cluster_chain. */
    method CutChain(id: nat, keep: nat)
      requires Valid() && id in chains && keep <= |chains[id]|
      modifies this`fats
      ensures CopiesOk() && |Fat()| == |old(Fat())|
      ensures keep > 0 ==> chains[id][keep - 1] < |old(Fat())|
      ensures var c := chains[id]; var t := Freed(old(Fat()), c, keep, |c|);
              Fat() == if keep == 0 then t else t[c[keep - 1] := EOF_MARK]
    {
      CutStart(id, keep);
      hide Valid;
      CutWalk(chains[id], keep, files[id].start);
    }

    method CutWalk(ghost c: seq<nat>, keep: nat, start: nat)
      requires CopiesOk() && Linked(Fat(), c) && keep <= |c| < |Fat()| <= MAX_CLUSTER
      requires if c == [] then start < 2 else start == c[0]
      requires forall i :: 0 <= i < |c| ==> 2 <= c[i] < |Fat()|
      requires Freed(Fat(), c, keep, AtLeast(0, keep)) == Fat()
      modifies this`fats
      ensures CopiesOk() && |Fat()| == |old(Fat())|
      ensures var t := Freed(old(Fat()), c, keep, |c|); Fat() == if keep == 0 then t else t[c[keep - 1] := EOF_MARK]
    {
      hide CopiesOk, LowBits, Freed, Linked, Fat, AtLeast, SetLow;
      FatLength();
      ghost var t := Fat();
      var cluster, count, kept := start, 0, 0;
      while 2 <= cluster < EOF_MIN && count < |fats[0]| + 8
        invariant 0 <= count <= |c| && CopiesOk() && |fats| > 0 && |fats[0]| == |t|
        invariant if count < |c| then cluster == c[count] else cluster < 2 || cluster >= EOF_MIN
        invariant 0 < count <= keep ==> kept == c[count - 1]
        invariant 0 < keep <= count ==> kept == c[keep - 1]
        invariant Fat() == Freed(t, c, keep, AtLeast(count, keep))
        decreases |c| - count
      {
        var next := CutOne(t, c, keep, count, cluster);
        count := count + 1;
        if count <= keep { kept := cluster; }
        cluster := next;
      }
      if keep > 0 && kept >= 2 {
        WriteEntry(kept, EOF_MARK);
      }
    }

    lemma FatLength()
      requires CopiesOk()
      ensures |fats| > 0 && |fats[0]| == |Fat()|
    {
    }

    lemma CutStart(id: nat, keep: nat)
      requires Valid() && id in chains && keep <= |chains[id]|
      ensures CopiesOk() && |fats| > 0 && Linked(Fat(), chains[id]) && id in files
      ensures |chains[id]| < |fats[0]| == |Fat()| <= MAX_CLUSTER
      ensures if chains[id] == [] then files[id].start < 2 else files[id].start == chains[id][0]
      ensures forall i :: 0 <= i < |chains[id]| ==> 2 <= chains[id][i] < MAX_CLUSTER && chains[id][i] < |Fat()|
      ensures Freed(Fat(), chains[id], keep, AtLeast(0, keep)) == Fat()
    {
      ValidCs();
      StartOk(id);
      ChainTop(id);
      ChainClusters(State(), cs, id);
      FreedNone(Fat(), chains[id], keep);
    }

    /** One turn of the walk. */
    method CutOne(ghost t: seq<nat>, ghost c: seq<nat>, keep: nat, count: nat, cluster: nat) returns (next: nat)
      requires CopiesOk() && |fats| > 0 && |fats[0]| == |t| <= MAX_CLUSTER
      requires Linked(t, c) && keep <= |c| && count < |c| && cluster == c[count]
      requires Fat() == Freed(t, c, keep, AtLeast(count, keep))
      modifies this`fats
      ensures CopiesOk() && |fats| > 0 && |fats[0]| == |t| && Fat() == Freed(t, c, keep, AtLeast(count + 1, keep))
      ensures if count + 1 < |c| then next == c[count + 1] else next >= EOF_MIN
    {
      hide Freed, Linked, AtLeast, CopiesOk;
      CutStep(t, c, keep, count);
      next := Entry(cluster);
      if count >= keep {
        WriteEntry(cluster, FREE);
      }
    }

    /** fat32_file_truncate: the file is cut, or filled with zeros, to the size. */
    method Truncate(id: nat, size: nat) returns (ok: bool)
      requires Valid() && id in files && size < TWO32
      modifies this
      ensures Valid()
      ensures ok ==>
                Contents(State(), cs) == old(Contents(State(), cs))[id := Resized(old(Content(State(), cs, id)), size)]
      ensures !ok ==> Contents(State(), cs) == old(Contents(State(), cs))
      ensures size <= old(files[id].size) ==> ok
      ensures size == old(files[id].size) ==> State() == old(State())
      ensures size < old(files[id].size) ==> Cropped(old(State()), State(), cs, id, size)
      ensures size > old(files[id].size) && size + cs - 1 < TWO32 ==>
                Sized(old(State()), State(), cs, id, size) && (ok <==> old(Fits(State(), cs, id, size)))
    {
      hide Contents, Content, Bytes, CopiesOk, Inv, Patched, Fits, Sized, Cropped;
      ContentsAt(State(), cs, id);
      SizeFits(State(), cs, id);
      if size == files[id].size {
        assert Resized(Content(State(), cs, id), size) == Content(State(), cs, id);
        return true;
      }
      if size > files[id].size {
        ok := Enlarge(id, size);
      } else {
        Shrink(id, size);
        ok := true;
      }
    }

    method Enlarge(id: nat, size: nat) returns (ok: bool)
      requires Valid() && id in files && files[id].size < size < TWO32
      modifies this
      ensures Valid()
      ensures ok ==>
                Contents(State(), cs) == old(Contents(State(), cs))[id := Resized(old(Content(State(), cs, id)), size)]
      ensures !ok ==> Contents(State(), cs) == old(Contents(State(), cs))
      ensures size + cs - 1 < TWO32 ==>
                Sized(old(State()), State(), cs, id, size) && (ok <==> old(Fits(State(), cs, id, size)))
    {
      hide Contents, Content, Bytes, CopiesOk, Inv, Patched, Required, Resized, Fits, Grew, Sized, LengthFor, Listed;
      ghost var f := Bytes(State(), cs, id);
      SizeFits(State(), cs, id);
      ValidCs();
      ok := EnsureSize(id, size);
      if !ok {
        SizedNot(old(State()), State(), cs, id, size);
        return;
      }
      RequiredExact(size, cs);
      FitsLong(old(State()), cs, id, size);
      GrewFull(old(State()), State(), id);
      ChainLong(id, size);
      ghost var v := State();
      ghost var g := Bytes(v, cs, id);
      var original := files[id].size;
      ok := ZeroRange(id, original, size);
      if !ok {
        SameContents(v, State(), cs, id);
        return;
      }
      ResizedOfPatch(f, g, original, size);
      ghost var w := State();
      SetSize(id, size);
      ResizeListed(v, w, id, size);
      SizedDone(old(State()), v, State(), cs, id, size);
      ContentsOver(v, w, cs, id, Resized(old(Content(State(), cs, id)), size));
    }

    method Shrink(id: nat, size: nat)
      requires Valid() && id in files && size < files[id].size
      modifies this
      ensures Valid() && Cropped(old(State()), State(), cs, id, size)
      ensures Contents(State(), cs) == old(Contents(State(), cs))[id := Resized(old(Content(State(), cs, id)), size)]
    {
      hide Contents, Content, Bytes, CopiesOk, Inv, Required, Freed;
      ValidCs();
      SizeFits(State(), cs, id);
      BytesLength(State(), cs, id);
      ShrinkPlan(size, cs, |chains[id]|);
      CutFree(State(), cs, id, Required(size, cs), size);
      CutTo(id, Required(size, cs), size);
      assert Bytes(old(State()), cs, id)[..size] == old(Content(State(), cs, id))[..size];
    }

    method CutTo(id: nat, keep: nat, size: nat)
      requires Valid() && id in files && keep <= |chains[id]| && size <= keep * cs
      modifies this
      ensures Valid() && files.Keys == old(files.Keys)
      ensures keep > 0 ==> old(chains[id])[keep - 1] < |old(Fat())|
      ensures State() == Cut(old(State()), id, keep, size)
      ensures size <= |old(Bytes(State(), cs, id))|
      ensures Contents(State(), cs) == old(Contents(State(), cs))[id := old(Bytes(State(), cs, id))[..size]]
    {
      hide Contents, Content, Bytes, CopiesOk, Inv, Freed;
      ValidCs();
      CutKeeps(State(), cs, id, keep, size);
      CutContents(State(), cs, id, keep, size);
      CutChain(id, keep);
      var start := if keep == 0 then 0 else files[id].start;
      files := files[id := File(start, size, Named(start))];
      chains := chains[id := chains[id][..keep]];
      assert State() == Cut(old(State()), id, keep, size);
    }

    // -------------------------------------------------------- files come and go

    /** fat32_dir_create: a file without clusters. */
    method NewFile(id: nat)
      requires Valid() && id !in files
      modifies this`files, this`chains
      ensures Valid() && State() == Add(old(State()), id)
      ensures Contents(State(), cs) == old(Contents(State(), cs))[id := []]
    {
      hide Contents, CopiesOk, Inv;
      AddKeeps(State(), cs, id);
      files, chains := files[id := File(0, 0, 0)], chains[id := []];
      assert State() == Add(old(State()), id);
    }

    /** The release of a file's clusters in fat32_dir_unlink, which goes by the directory
        entry. Its clusters are free again if the entry names the first of them, and out of
        reach if not. */
    method Remove(id: nat)
      requires Valid() && id in files
      modifies this
      ensures Valid() && Contents(State(), cs) == old(Contents(State(), cs)) - {id}
      ensures Gone(old(State()), State(), id)
    {
      hide Contents, CopiesOk, Inv, Cut, Free, Gone, Bytes, Members;
      ValidCs();
      GoneDone(State(), cs, id);
      if files[id].entry >= 2 {
        CutTo(id, 0, 0);
      }
      ValidCs();
      ghost var v := State();
      assert v == Unnamed(old(State()), id);
      ForgetKeeps(v, cs, id);
      files, chains, orphans := files - {id}, chains - {id}, orphans + Members(chains[id]);
      assert State() == Forget(v, id);
    }

    /** fat32_dir_mkdir's cluster: a chain of one cleared cluster, or nothing. */
    method NewDirectory(id: nat) returns (ok: bool)
      requires Valid() && id !in files
      modifies this
      ensures Valid() && (ok <==> old(Free(State())) != {})
      ensures ok ==> Contents(State(), cs) == old(Contents(State(), cs))[id := []] && Made(old(State()), State(), id)
      ensures !ok ==> State() == old(State())
    {
      hide Contents, CopiesOk, Inv, Free, Bytes, Grew, Made;
      ValidCs();
      NewFile(id);
      AddFree(old(State()), id);
      var n := Extend(id, 0);
      if n == 0 {
        files, chains := files - {id}, chains - {id};
        assert State() == old(State());
        return false;
      }
      ValidCs();
      ghost var g := State();
      SetSize(id, 0);
      MadeDone(old(State()), g, id);
      ContentsEmpty(old(State()), g, cs, id);
      return true;
    }

    /** A freshly formatted volume: every cluster is free. */
    constructor (cs: nat, clusters: nat, copies: nat, nextFree: nat)
      requires 0 < cs < TWO32 && TWO32 % cs == 0 && clusters + 2 <= MAX_CLUSTER && copies > 0
      ensures Valid() && this.cs == cs && |fats| == copies
      ensures Contents(State(), cs) == map[] && files == map[] && orphans == {}
      ensures |Fat()| == clusters + 2 && forall c :: 0 <= c < |Fat()| ==> Fat()[c] == FREE
    {
      orphans := {};
      this.cs, this.nextFree := cs, nextFree;
      fats := seq(copies, _ => seq(clusters + 2, _ => 0));
      data := seq(clusters + 2, _ => ZeroCluster(cs));
      files, chains := map[], map[];
    }
  }
}
