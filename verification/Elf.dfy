/** Loading the segments of a program (the i686 elf_load_impl of src/kernel/elf.c), as in
    "Program Loading", chapter 5 of the System V ABI. Pages are numbered; a page's content
    is its 4096 bytes. */
module Elf {
  import opened Common

  const KERNEL_BASE := 0x8000_0000
  const ALL_PAGES := 0x10_0000    // pages of the address space
  const ALL_FRAMES := 0x8_0000    // frames the kernel's half can address

  type word = x: int | 0 <= x < 0x1_0000_0000

  /** A program header; `load` is p_type == PT_LOAD. */
  datatype Segment = Segment(load: bool, vaddr: word, offset: word, filesz: word, memsz: word)

  function FirstPage(s: Segment): nat { s.vaddr / PAGE }

  /** PAGE_ALIGN_UP of the end of the segment, as a page number: both sums in 32 bits. */
  function Rounded(s: Segment): nat { ((s.vaddr + s.memsz) % TWO32 + PAGE - 1) % TWO32 / PAGE }

  /** How many pages the loader gives the segment. */
  function Count(s: Segment): nat { (Rounded(s) - FirstPage(s)) % ALL_PAGES }

  /** The first page number behind those. */
  function EndPage(s: Segment): nat { FirstPage(s) + Count(s) }

  predicate Covers(s: Segment, page: nat) { s.load && FirstPage(s) <= page < EndPage(s) }

  /** The end of the segment does not wrap in 32 bits. */
  predicate Straight(s: Segment) { s.vaddr + s.memsz + PAGE - 1 < TWO32 }

  /** What the loader accepts; the end of the file part is a 32-bit sum. */
  predicate Accepted(s: Segment, file: seq<byte>) {
    s.load ==> (s.offset + s.filesz) % TWO32 <= |file| && s.vaddr < KERNEL_BASE
  }

  /** How many bytes of the file part the first n pages take. */
  function Copied(s: Segment, n: nat): nat {
    var room := (FirstPage(s) + n) * PAGE - s.vaddr;
    if n == 0 || room < 0 then 0 else if room < s.filesz then room else s.filesz
  }

  /** The first n pages of the segment take bytes of the file only. */
  predicate Inside(s: Segment, file: seq<byte>, n: nat) { Copied(s, n) == 0 || s.offset + Copied(s, n) <= |file| }

  /** The byte a segment wants at an address: from the file, or zero. */
  function ByteAt(file: seq<byte>, s: Segment, x: nat): byte {
    if s.vaddr <= x < s.vaddr + s.filesz && s.offset + (x - s.vaddr) < |file| then file[s.offset + (x - s.vaddr)] else 0
  }

  ghost predicate IsPage(file: seq<byte>, s: Segment, page: nat, bytes: seq<byte>) {
    |bytes| == PAGE && forall j :: 0 <= j < PAGE ==> bytes[j] == ByteAt(file, s, page * PAGE + j)
  }

  /** Page i of the segment: cleared, then the part of the segment's file image that lies in
      it. It is refused here if that part does not lie in the file, where the loader copies
      whatever is there. */
  method FillPage(file: seq<byte>, s: Segment, i: nat) returns (r: Option<seq<byte>>)
    requires Inside(s, file, i)
    ensures r.Some? <==> Inside(s, file, i + 1)
    ensures r.Some? ==> IsPage(file, s, FirstPage(s) + i, r.value)
  {
    var v := (FirstPage(s) + i) * PAGE;
    PageBounds(s, i);
    var pageOff := if v >= s.vaddr then 0 else s.vaddr - v;
    var segOff := if v >= s.vaddr then v - s.vaddr else 0;
    var buf := new byte[PAGE](_ => 0);
    if segOff < s.filesz {
      var n := s.filesz - segOff;
      if n > PAGE - pageOff { n := PAGE - pageOff; }
      CopiedNext(s, i, segOff, n);
      if s.offset + segOff + n > |file| {
        return None;
      }
      CopyIn(buf, pageOff, file[s.offset + segOff..s.offset + segOff + n]);
    } else {
      CopiedAll(s, i);
    }
    r := Some(buf[..]);
  }

  lemma PageBounds(s: Segment, i: nat)
    ensures var v := (FirstPage(s) + i) * PAGE; s.vaddr < v + PAGE && (i > 0 ==> v > s.vaddr)
  {
  }

  lemma CopiedNext(s: Segment, i: nat, segOff: nat, n: nat)
    requires var v := (FirstPage(s) + i) * PAGE; segOff == if v >= s.vaddr then v - s.vaddr else 0
    requires var v := (FirstPage(s) + i) * PAGE; var off := if v >= s.vaddr then 0 else s.vaddr - v;
      off < PAGE && segOff < s.filesz && n == (if s.filesz - segOff > PAGE - off then PAGE - off else s.filesz - segOff)
    ensures Copied(s, i + 1) == segOff + n > 0
  {
    PageBounds(s, i);
  }

  lemma CopiedAll(s: Segment, i: nat)
    requires var v := (FirstPage(s) + i) * PAGE; s.filesz <= if v >= s.vaddr then v - s.vaddr else 0
    ensures Copied(s, i + 1) == s.filesz && (s.filesz > 0 ==> Copied(s, i) == s.filesz)
  {
    PageBounds(s, i);
  }

  // ------------------------------------------------------------- the whole program

  /** The last of the first n segments that covers a page, or -1. */
  ghost function Owner(segs: seq<Segment>, n: nat, page: nat): (i: int)
    requires n <= |segs|
    ensures -1 <= i < n && (i >= 0 ==> Covers(segs[i], page))
    ensures forall j :: i < j < n ==> !Covers(segs[j], page)
  {
    if n == 0 then -1 else if Covers(segs[n - 1], page) then n - 1 else Owner(segs, n - 1, page)
  }

  /** The pages in memory are those of the first n segments and, of segment n, those
      before page `upTo`; each holds what its segment wants. */
  ghost predicate PageOk(file: seq<byte>, segs: seq<Segment>, n: nat, upTo: nat, m: map<nat, seq<byte>>, page: nat)
    requires n <= |segs|
  {
    var i := if n < |segs| && Covers(segs[n], page) && page < upTo then n else Owner(segs, n, page);
    && (page in m <==> i >= 0)
    && (page in m && i >= 0 ==> IsPage(file, segs[i], page, m[page]))
  }

  ghost predicate Loaded(file: seq<byte>, segs: seq<Segment>, n: nat, upTo: nat, m: map<nat, seq<byte>>)
    requires n <= |segs|
  {
    forall page: nat {:trigger PageOk(file, segs, n, upTo, m, page)} :: PageOk(file, segs, n, upTo, m, page)
  }

  /** The largest page-rounded end of the first n segments. */
  ghost function Highest(segs: seq<Segment>, n: nat): nat
    requires n <= |segs|
  {
    if n == 0 then 0
    else if segs[n - 1].load && Rounded(segs[n - 1]) * PAGE > Highest(segs, n - 1) then Rounded(segs[n - 1]) * PAGE
    else Highest(segs, n - 1)
  }

  /** How many pages the first n segments ask for. */
  ghost function Pages(segs: seq<Segment>, n: nat): nat
    requires n <= |segs|
  {
    if n == 0 then 0 else Pages(segs, n - 1) + (if segs[n - 1].load then Count(segs[n - 1]) else 0)
  }

  /** The segment is accepted and takes bytes of the file only. */
  predicate Fine(s: Segment, file: seq<byte>) { Accepted(s, file) && (s.load ==> Inside(s, file, Count(s))) }

  /** What came of loading: an image, a refusal, or a copy from outside the file. */
  datatype Result = Image(pages: map<nat, seq<byte>>, end: nat) | Refused | Outside

  datatype Progress = Done | NoFrame | Stray

  method LoadSegment(file: seq<byte>, segs: seq<Segment>, n: nat, m0: map<nat, seq<byte>>, left0: nat)
    returns (r: Progress, m: map<nat, seq<byte>>, left: nat)
    requires n < |segs| && segs[n].load && Loaded(file, segs, n, 0, m0)
    ensures r == Stray <==> !Inside(segs[n], file, if left0 < Count(segs[n]) then left0 else Count(segs[n]))
    ensures r == NoFrame ==> left0 < Count(segs[n])
    ensures r == Done ==> && Loaded(file, segs, n, EndPage(segs[n]), m) && left == left0 - Count(segs[n])
                          && Inside(segs[n], file, Count(segs[n]))
  {
    var s := segs[n];
    m, left := m0, left0;
    StartHere(file, segs, n, m);
    hide Loaded, FirstPage, Count, Inside, PageOk;
    var i := 0;
    while i < Count(s)
      invariant 0 <= i <= Count(s) && left == left0 - i && Inside(s, file, i)
      invariant Loaded(file, segs, n, FirstPage(s) + i, m)
    {
      if left == 0 {
        return NoFrame, m, left;
      }
      left := left - 1;
      var bytes := FillPage(file, s, i);
      if bytes.None? {
        StrayStays(s, file, i + 1, if left0 < Count(s) then left0 else Count(s));
        return Stray, m, left;
      }
      OneMore(file, segs, n, FirstPage(s) + i, m, bytes.value);
      m := m[FirstPage(s) + i := bytes.value];
      i := i + 1;
    }
    r := Done;
  }

  /** More pages take no fewer bytes. */
  lemma StrayStays(s: Segment, file: seq<byte>, i: nat, n: nat)
    requires !Inside(s, file, i) && i <= n
    ensures !Inside(s, file, n)
  {
    assert Copied(s, i) <= Copied(s, n);
  }

  lemma StartHere(file: seq<byte>, segs: seq<Segment>, n: nat, m: map<nat, seq<byte>>)
    requires n < |segs| && Loaded(file, segs, n, 0, m)
    ensures Loaded(file, segs, n, FirstPage(segs[n]), m) && Inside(segs[n], file, 0)
  {
    hide FirstPage, Count, IsPage;
    forall page: nat ensures PageOk(file, segs, n, FirstPage(segs[n]), m, page) {
      assert PageOk(file, segs, n, 0, m, page);
    }
  }

  lemma OneMore(file: seq<byte>, segs: seq<Segment>, n: nat, page: nat, m: map<nat, seq<byte>>, bytes: seq<byte>)
    requires n < |segs| && Loaded(file, segs, n, page, m) && Covers(segs[n], page)
    requires IsPage(file, segs[n], page, bytes)
    ensures Loaded(file, segs, n, page + 1, m[page := bytes])
  {
    hide IsPage, FirstPage, EndPage;
    var r := m[page := bytes];
    var next := page + 1;
    forall p: nat ensures PageOk(file, segs, n, next, r, p) {
      assert PageOk(file, segs, n, page, m, p);
    }
  }

  lemma NextSegment(file: seq<byte>, segs: seq<Segment>, n: nat, upTo: nat, m: map<nat, seq<byte>>)
    requires n < |segs| && Loaded(file, segs, n, upTo, m)
    requires if segs[n].load then upTo == EndPage(segs[n]) else upTo == 0
    ensures Loaded(file, segs, n + 1, 0, m)
  {
    hide IsPage, FirstPage, EndPage;
    var next := n + 1;
    forall p: nat ensures PageOk(file, segs, next, 0, m, p) {
      assert PageOk(file, segs, n, upTo, m, p);
    }
  }

  /** Segment n makes the loader copy from outside the file. */
  ghost predicate Strays(file: seq<byte>, segs: seq<Segment>, available: nat, n: nat)
    requires n < |segs|
  {
    && Pages(segs, n) <= available && Accepted(segs[n], file) && segs[n].load
    && var left := available - Pages(segs, n);
       !Inside(segs[n], file, if left < Count(segs[n]) then left else Count(segs[n]))
  }

  /** elf_load_impl; `available` is the number of pages that can still be placed. It loads
      the program exactly if every segment is accepted and lies in the file and the pages
      suffice, and then every page holds the bytes its segment wants. */
  method Load(file: seq<byte>, segs: seq<Segment>, available: nat) returns (r: Result)
    ensures r.Image? <==> Pages(segs, |segs|) <= available && forall i :: 0 <= i < |segs| ==> Fine(segs[i], file)
    ensures r.Image? ==> Loaded(file, segs, |segs|, 0, r.pages) && r.end == Highest(segs, |segs|)
    ensures r.Outside? ==> exists n :: 0 <= n < |segs| && Strays(file, segs, available, n)
                                       && forall i :: 0 <= i < n ==> Fine(segs[i], file)
  {
    var m: map<nat, seq<byte>>, left, max := map[], available, 0;
    assert Loaded(file, segs, 0, 0, m) by {
      forall p: nat ensures PageOk(file, segs, 0, 0, m, p) { }
    }
    hide Loaded, Count, Inside, Rounded;
    for n := 0 to |segs|
      invariant Loaded(file, segs, n, 0, m) && max == Highest(segs, n)
      invariant left == available - Pages(segs, n)
      invariant forall i :: 0 <= i < n ==> Fine(segs[i], file)
    {
      var s := segs[n];
      PagesGrow(segs, n + 1);
      if s.load {
        if (s.offset + s.filesz) % TWO32 > |file| { return Refused; }
        if s.vaddr >= KERNEL_BASE { return Refused; }
        var end := Rounded(s) * PAGE;
        if end > max { max := end; }
        ghost var before := left;
        var p;
        p, m, left := LoadSegment(file, segs, n, m, left);
        if p == Stray {
          assert Strays(file, segs, available, n);
          if Pages(segs, |segs|) <= available { assert !Fine(s, file); }
          return Outside;
        }
        if p == NoFrame { return Refused; }
        NextSegment(file, segs, n, EndPage(s), m);
      } else {
        NextSegment(file, segs, n, 0, m);
      }
    }
    r := Image(m, max);
  }

  lemma {:induction false} PagesGrow(segs: seq<Segment>, n: nat)
    requires n <= |segs|
    ensures Pages(segs, n) <= Pages(segs, |segs|)
    decreases |segs| - n
  {
    if n < |segs| { PagesGrow(segs, n + 1); }
  }

  // ------------------------------------------------------------- 32-bit sums

  /** An accepted segment whose file part does not wrap lies in the file. */
  lemma InsideStraight(s: Segment, file: seq<byte>)
    requires s.load && Accepted(s, file) && s.offset + s.filesz < TWO32
    ensures Inside(s, file, Count(s))
  {
  }

  /** The other way round the sum passes the test for files of one byte and more, and two
      bytes are copied from behind them. */
  lemma CopiesOutside(file: seq<byte>)
    requires 1 <= |file| < 0xFFFF_FFFF
    ensures var s := Segment(true, 0x1000, 0xFFFF_FFFF, 2, 2); Accepted(s, file) && Count(s) == 1 && !Fine(s, file)
  {
    var s := Segment(true, 0x1000, 0xFFFF_FFFF, 2, 2);
    assert FirstPage(s) == 1 && Rounded(s) == 2 && Copied(s, 1) == 2;
  }

  /** With fewer than 2^19 frames the pages of an accepted segment that fits hold all of its
      memory if and only if its end does not wrap. */
  lemma MemoryCovered(s: Segment)
    requires s.load && s.vaddr < KERNEL_BASE && s.memsz > 0 && Count(s) <= ALL_FRAMES
    ensures (forall k: nat :: k < s.memsz ==> Mapped(s, k)) <==> Straight(s)
  {
    if Straight(s) {
      forall k: nat | k < s.memsz ensures Mapped(s, k) { InPages(s, k); }
    } else {
      StraightPages(s);
      assert !Mapped(s, s.memsz - 1);
    }
  }

  /** Byte k of the segment's memory lies in one of its pages. */
  predicate Mapped(s: Segment, k: nat) { Covers(s, (s.vaddr + k) / PAGE) }

  /** The rounded end, without and with wrapping. */
  lemma StraightPages(s: Segment)
    requires s.vaddr < KERNEL_BASE
    ensures Straight(s) ==> Rounded(s) == (s.vaddr + s.memsz + PAGE - 1) / PAGE && EndPage(s) == Rounded(s)
    ensures !Straight(s) && Count(s) <= ALL_FRAMES ==> EndPage(s) * PAGE < s.vaddr + s.memsz
    ensures !Straight(s) && Count(s) <= ALL_FRAMES ==> EndPage(s) * PAGE <= s.vaddr + s.memsz - 1
  {
  }

  lemma InPages(s: Segment, k: nat)
    requires s.load && k < s.memsz && Straight(s) && s.vaddr < KERNEL_BASE
    ensures Covers(s, (s.vaddr + k) / PAGE)
  {
    StraightPages(s);
  }

  /** Almost 4 GiB of memory, of which one page is mapped. */
  lemma OnePageOfMany()
    ensures var s := Segment(true, 0x1800, 0, 0, 0xFFFF_FC00); Accepted(s, []) && Count(s) == 1 && !Straight(s)
  {
    var s := Segment(true, 0x1800, 0, 0, 0xFFFF_FC00);
    assert FirstPage(s) == 1 && Rounded(s) == 2;
  }

  // ------------------------------------------------------------- what the program sees

  /** No two segments share a page. */
  ghost predicate PageDisjoint(segs: seq<Segment>) {
    forall i, j, page: nat :: 0 <= i < j < |segs| && Covers(segs[i], page) ==> !Covers(segs[j], page)
  }

  lemma OwnerOf(segs: seq<Segment>, i: nat, page: nat)
    requires PageDisjoint(segs) && i < |segs| && Covers(segs[i], page)
    ensures Owner(segs, |segs|, page) == i
  {
    hide Covers;
    var o := Owner(segs, |segs|, page);
    assert !(o < i < |segs|);
  }

  /** For page-disjoint segments every byte of a segment is the file's for i < p_filesz and
      zero from there to p_memsz. */
  lemma SegmentInPlace(file: seq<byte>, segs: seq<Segment>, m: map<nat, seq<byte>>, i: nat, k: nat)
    requires PageDisjoint(segs) && Loaded(file, segs, |segs|, 0, m)
    requires i < |segs| && segs[i].load && Fine(segs[i], file) && Straight(segs[i]) && k < segs[i].memsz
    ensures var x := segs[i].vaddr + k;
      && x / PAGE in m && |m[x / PAGE]| == PAGE && (k < segs[i].filesz ==> segs[i].offset + k < |file|)
      && m[x / PAGE][x % PAGE] == if k < segs[i].filesz then file[segs[i].offset + k] else 0
  {
    var s := segs[i];
    var x := s.vaddr + k;
    var page := x / PAGE;
    InPages(s, k);
    OwnerOf(segs, i, page);
    assert PageOk(file, segs, |segs|, 0, m, page);
    hide PageDisjoint, Loaded, Owner, PageOk, Rounded;
    assert x == page * PAGE + x % PAGE;
    if k < s.filesz { TakenAt(s, file, k); }
  }

  lemma TakenAt(s: Segment, file: seq<byte>, k: nat)
    requires Fine(s, file) && Straight(s) && s.load && k < s.memsz && k < s.filesz
    ensures s.offset + k < |file|
  {
    StraightPages(s);
    assert k < Copied(s, Count(s));
  }

  /** Everything but the file parts of the segments is zero in the pages of the program. */
  lemma RestIsZero(file: seq<byte>, segs: seq<Segment>, m: map<nat, seq<byte>>, page: nat, j: nat)
    requires Loaded(file, segs, |segs|, 0, m) && page in m && j < PAGE
    requires forall i :: 0 <= i < |segs| && segs[i].load ==>
               !(segs[i].vaddr <= page * PAGE + j < segs[i].vaddr + segs[i].filesz)
    ensures |m[page]| == PAGE && m[page][j] == 0
  {
    assert PageOk(file, segs, |segs|, 0, m, page);
  }

  // ------------------------------------------------------------- below the kernel

  /** A segment that covers a page lies below the kernel with its last one. */
  predicate EndsBelow(s: Segment) {
    s.load && FirstPage(s) < EndPage(s) ==> EndPage(s) * PAGE <= KERNEL_BASE
  }

  /** Only p_vaddr is compared with the kernel's base, so a loaded program stays below it
      if and only if every segment that has pages also ends there. */
  lemma BelowKernelExact(file: seq<byte>, segs: seq<Segment>, m: map<nat, seq<byte>>)
    requires Loaded(file, segs, |segs|, 0, m)
    ensures (forall page :: page in m ==> page * PAGE + PAGE <= KERNEL_BASE)
            <==> forall i :: 0 <= i < |segs| ==> EndsBelow(segs[i])
  {
    hide IsPage, FirstPage, EndPage;
    if forall page :: page in m ==> page * PAGE + PAGE <= KERNEL_BASE {
      forall i | 0 <= i < |segs| ensures EndsBelow(segs[i]) {
        var s := segs[i];
        if s.load && FirstPage(s) < EndPage(s) {
          var last := EndPage(s) - 1;
          assert Covers(s, last);
          assert PageOk(file, segs, |segs|, 0, m, last);
        }
      }
    }
    if forall i :: 0 <= i < |segs| ==> EndsBelow(segs[i]) {
      forall page | page in m ensures page * PAGE + PAGE <= KERNEL_BASE {
        assert PageOk(file, segs, |segs|, 0, m, page);
        var s := segs[Owner(segs, |segs|, page)];
        assert Covers(s, page) && EndsBelow(s);
      }
    }
  }

  /** A segment that starts one page below the kernel and is two pages long is accepted,
      and a program with it has a page in the kernel's half. */
  lemma ReachesTheKernel(file: seq<byte>, m: map<nat, seq<byte>>)
    requires |file| >= 0x2000
    requires Loaded(file, [Segment(true, 0x7FFF_F000, 0, 0x2000, 0x2000)], 1, 0, m)
    ensures Accepted(Segment(true, 0x7FFF_F000, 0, 0x2000, 0x2000), file)
    ensures Fine(Segment(true, 0x7FFF_F000, 0, 0x2000, 0x2000), file)
    ensures KERNEL_BASE / PAGE in m
  {
    var s := Segment(true, 0x7FFF_F000, 0, 0x2000, 0x2000);
    assert Covers(s, KERNEL_BASE / PAGE);
    assert PageOk(file, [s], 1, 0, m, KERNEL_BASE / PAGE);
  }

  // ------------------------------------------------------------- program_end

  /** The end reported for a program is the largest rounded end of its segments, and 0 if it
      has none. */
  lemma {:induction false} HighestExact(segs: seq<Segment>, n: nat)
    requires n <= |segs|
    ensures forall i :: 0 <= i < n && segs[i].load ==> Rounded(segs[i]) * PAGE <= Highest(segs, n)
    ensures (exists i :: 0 <= i < n && segs[i].load && Highest(segs, n) == Rounded(segs[i]) * PAGE) ||
            (Highest(segs, n) == 0 && forall i :: 0 <= i < n && segs[i].load ==> Rounded(segs[i]) == 0)
  {
    hide Rounded;
    if n > 0 { HighestExact(segs, n - 1); }
  }

  /** Where no end wraps it is a page boundary, behind the memory of every segment, and less
      than a page behind that of one. */
  lemma EndExact(segs: seq<Segment>)
    requires forall i :: 0 <= i < |segs| && segs[i].load ==> Straight(segs[i]) && segs[i].vaddr < KERNEL_BASE
    ensures var end := Highest(segs, |segs|);
      && end % PAGE == 0
      && (forall i :: 0 <= i < |segs| && segs[i].load ==> segs[i].vaddr + segs[i].memsz <= end)
      && (end != 0 ==> exists i :: 0 <= i < |segs| && segs[i].load && end < segs[i].vaddr + segs[i].memsz + PAGE)
  {
    HighestExact(segs, |segs|);
    hide Highest, Rounded;
    forall i | 0 <= i < |segs| && segs[i].load
      ensures var e, x := Rounded(segs[i]) * PAGE, segs[i].vaddr + segs[i].memsz; x <= e < x + PAGE
    {
      StraightPages(segs[i]);
      RoundsUp(segs[i].vaddr + segs[i].memsz);
    }
  }

  lemma RoundsUp(x: nat)
    ensures x <= (x + PAGE - 1) / PAGE * PAGE < x + PAGE
  {
  }
}
