/** Domain names on the wire: the encoder and the decoder with compression of
    src/net/dns.c, sections 3.1 and 4.1.4 of RFC 1035. */
module Dns {
  import opened Common

  const DOT := 46
  const MAX_LABEL := 63
  const MAX_JUMPS := 10

  const ZERO: byte := 0

  // ------------------------------------------------------------- labels

  /** The labels with a dot between each two. */
  function Dotted(labels: seq<seq<byte>>): seq<byte> {
    if labels == [] then []
    else if |labels| == 1 then labels[0]
    else labels[0] + [DOT] + Dotted(labels[1..])
  }

  /** Each label with its length before it, and a zero at the end. */
  function Wire(labels: seq<seq<byte>>): seq<byte>
    requires Proper(labels)
  {
    if labels == [] then [ZERO] else Counted(labels[0]) + Wire(labels[1..])
  }

  /** A label with its length before it. */
  function Counted(part: seq<byte>): (r: seq<byte>)
    requires |part| <= MAX_LABEL
    ensures |r| == 1 + |part| && r[0] == |part| && r[1..] == part
  {
    var n: byte := |part|;
    [n] + part
  }

  predicate Proper(labels: seq<seq<byte>>) {
    forall i :: 0 <= i < |labels| ==> 0 < |labels[i]| <= MAX_LABEL
  }

  /** What is left after the first label and its dot. */
  function Rest(s: seq<byte>): (r: seq<byte>)
    ensures s != [] ==> |r| < |s|
  {
    if First(s, DOT) < |s| then s[First(s, DOT) + 1..] else []
  }

  /** The labels of a name; one dot at the end makes no label. */
  function Split(s: seq<byte>): seq<seq<byte>>
    decreases |s|
  {
    if s == [] then [] else [s[..First(s, DOT)]] + Split(Rest(s))
  }

  function WithoutLastDot(s: seq<byte>): seq<byte> {
    if s != [] && s[|s| - 1] == DOT then s[..|s| - 1] else s
  }

  lemma LastDot(s: seq<byte>)
    requires s != []
    ensures Rest(s) == [] ==> WithoutLastDot(s) == s[..First(s, DOT)]
    ensures Rest(s) != [] ==> WithoutLastDot(s) == s[..First(s, DOT)] + [DOT] + WithoutLastDot(Rest(s))
  {
    var d := First(s, DOT);
    hide First;
    if d < |s| {
      SplitLast(s, d);
    } else {
      assert s[..d] == s;
    }
  }

  lemma SplitLast(s: seq<byte>, d: nat)
    requires d < |s| && s[d] == DOT
    ensures WithoutLastDot(s) == if d + 1 == |s| then s[..d] else s[..d] + [DOT] + WithoutLastDot(s[d + 1..])
  {
    var r := s[d + 1..];
    if r != [] {
      assert r[|r| - 1] == s[|s| - 1];
      assert s[..|s| - 1] == s[..d] + [DOT] + r[..|r| - 1];
      assert s == s[..d] + [DOT] + r;
    }
  }

  lemma {:induction false} DottedSplit(s: seq<byte>)
    ensures Dotted(Split(s)) == WithoutLastDot(s)
    decreases |s|
  {
    if s != [] {
      hide First, WithoutLastDot;
      LastDot(s);
      DottedSplit(Rest(s));
      hide Rest;
      assert Split(s)[1..] == Split(Rest(s));
      assert Rest(s) != [] ==> Split(Rest(s)) != [];
    }
  }

  /** Everything but the last byte. */
  function Chop(s: seq<byte>): seq<byte>
    requires s != []
  {
    s[..|s| - 1]
  }

  lemma ChopAppend(a: seq<byte>, b: seq<byte>, c: seq<byte>)
    requires b != []
    ensures a + (Chop(b) + c) == Chop(a + b) + c
  {
  }

  lemma {:induction false} WireAppend(a: seq<seq<byte>>, b: seq<seq<byte>>)
    requires Proper(a) && Proper(b)
    ensures Proper(a + b) && Wire(a) != [] && Wire(a + b) == Chop(Wire(a)) + Wire(b)
  {
    if a == [] {
      assert a + b == b && Chop([ZERO]) == [];
    } else {
      assert (a + b)[1..] == a[1..] + b;
      WireAppend(a[1..], b);
      hide Counted, Chop;
      ChopAppend(Counted(a[0]), Wire(a[1..]), Wire(b));
    }
  }

  // ------------------------------------------------------------- encoder

  lemma WireGrows(a: seq<seq<byte>>, b: seq<seq<byte>>)
    requires Proper(a)
    ensures Proper(a + b) ==> |Wire(a + b)| >= |Wire(a)|
  {
    if Proper(a + b) {
      forall i | 0 <= i < |b| ensures 0 < |b[i]| <= MAX_LABEL { assert b[i] == (a + b)[|a| + i]; }
      WireAppend(a, b);
    }
  }

  lemma WireSnoc(a: seq<seq<byte>>, part: seq<byte>)
    requires Proper(a) && 0 < |part| <= MAX_LABEL
    ensures Proper(a + [part]) && Wire(a) != []
    ensures Wire(a + [part]) == Chop(Wire(a)) + Counted(part) + [ZERO]
  {
    assert [part][1..] == [];
    assert Wire([part]) == Counted(part) + [ZERO];
    hide Wire, Counted, Chop;
    WireAppend(a, [part]);
    assert Chop(Wire(a)) + (Counted(part) + [ZERO]) == Chop(Wire(a)) + Counted(part) + [ZERO];
  }

  lemma SplitStep(s: seq<byte>)
    ensures s != [] ==> Split(s) == [s[..First(s, DOT)]] + Split(Rest(s))
    ensures s == [] ==> Split(s) == []
    ensures Wire([]) == [ZERO]
  {
  }

  /** dns_encode_name: None where it returns -1. */
  method Encode(name: seq<byte>, room: nat) returns (r: Option<seq<byte>>)
    ensures r.Some? <==> Proper(Split(name)) && |Wire(Split(name))| < room
    ensures r.Some? ==> r.value == Wire(Split(name))
  {
    hide Wire, Split, First, Rest, Counted;
    if room < 2 {
      WireGrows([], Split(name));
      SplitStep([]);
      assert [] + Split(name) == Split(name);
      return None;
    }
    var src: seq<byte>, out: seq<byte> := name, [];
    var end := room - 1;
    ghost var done: seq<seq<byte>> := [];
    SplitStep([]);
    while src != [] && |out| < end
      invariant |out| < end
      invariant done + Split(src) == Split(name) && Proper(done) && out + [ZERO] == Wire(done)
      decreases |src|
    {
      SplitStep(src);
      var dot := First(src, DOT);
      var part := src[..dot];
      assert done + [part] + Split(Rest(src)) == Split(name);
      assert (done + [part] + Split(Rest(src)))[|done|] == part;
      if dot > MAX_LABEL || dot == 0 { return None; }
      WireSnoc(done, part);
      WireGrows(done + [part], Split(Rest(src)));
      assert Chop(Wire(done)) == out;
      if |out| + dot + 1 >= end { return None; }
      out := out + Counted(part);
      done := done + [part];
      src := Rest(src);
    }
    assert done == Split(name);
    r := Some(out + [ZERO]);
  }

  // ------------------------------------------------------------- decoder

  /** A packet in memory. The decoder looks at most one byte beyond it, the byte `after`. */
  datatype Packet = Packet(bytes: seq<byte>, after: byte)

  function At(p: Packet, i: nat): byte { if i < |p.bytes| then p.bytes[i] else p.after }

  /** The place a pointer points to: the low 14 bits of its two bytes. */
  function Target(p: Packet, i: nat): nat
    requires i + 1 < |p.bytes|
  {
    256 * (p.bytes[i] as int % 64) + p.bytes[i + 1] as int
  }

  function Joined(out: seq<byte>, part: seq<byte>): seq<byte> {
    if out == [] then part else out + [DOT] + part
  }

  /** Where the decoder is, what it has put out, the jumps made and the bytes used. */
  datatype Scan = Scan(at: nat, out: seq<byte>, jumps: nat, used: nat)

  datatype Decoded = Decoded(name: seq<byte>, used: nat)

  predicate Fine(p: Packet, s: Scan, end: nat) {
    s.at <= |p.bytes| && |s.out| <= end && s.jumps <= MAX_JUMPS
  }

  predicate Ends(p: Packet, s: Scan, end: nat) { At(p, s.at) == 0 || |s.out| >= end }

  function Finish(s: Scan): Decoded { Decoded(s.out, if s.jumps > 0 then s.used else s.used + 1) }

  function Use(s: Scan, n: nat): nat { if s.jumps > 0 then s.used else s.used + n }

  /** A pointer: the decoder goes on elsewhere. */
  function Jump(p: Packet, s: Scan): Option<Scan> {
    if s.at + 1 >= |p.bytes| || Target(p, s.at) >= |p.bytes| || s.jumps + 1 > MAX_JUMPS then None
    else Some(Scan(Target(p, s.at), s.out, s.jumps + 1, Use(s, 2)))
  }

  /** A label of c bytes. */
  function Take(p: Packet, s: Scan, c: nat, end: nat): Option<Scan> {
    if c > MAX_LABEL || s.at + 1 + c > |p.bytes| then None
    else
      var more := Joined(s.out, p.bytes[s.at + 1..s.at + 1 + c]);
      if |more| > end then None else Some(Scan(s.at + 1 + c, more, s.jumps, Use(s, 1 + c)))
  }

  /** One turn of the loop of dns_decode_name. */
  function Step(p: Packet, s: Scan, end: nat): (r: Option<Scan>)
    requires Fine(p, s, end) && !Ends(p, s, end)
    ensures r.Some? ==> Fine(p, r.value, end)
    ensures r.Some? ==> r.value.jumps > s.jumps || (r.value.jumps == s.jumps && |r.value.out| > |s.out|)
  {
    if At(p, s.at) >= 0xC0 then Jump(p, s) else Take(p, s, At(p, s.at), end)
  }

  /** The loop from one state on. It ends on every packet: a jump uses up one of ten, a
      label some of the room. */
  function Continue(p: Packet, s: Scan, end: nat): Option<Decoded>
    requires Fine(p, s, end)
    decreases MAX_JUMPS - s.jumps, end - |s.out|
  {
    if Ends(p, s, end) then Some(Finish(s))
    else
      var r := Step(p, s, end);
      if r.None? then None else Continue(p, r.value, end)
  }

  function Start(src: nat): Scan { Scan(src, [], 0, 0) }

  /** dns_decode_name at `src` of the packet, into a buffer of the given size. */
  method Decode(p: Packet, src: nat, size: nat) returns (r: Option<Decoded>)
    requires src <= |p.bytes|
    ensures r == if size < 2 then None else Continue(p, Start(src), size - 1)
  {
    if size < 2 { return None; }
    var end := size - 1;
    var s := Start(src);
    hide Step, Ends;
    while !Ends(p, s, end)
      invariant Fine(p, s, end) && Continue(p, Start(src), end) == Continue(p, s, end)
      decreases MAX_JUMPS - s.jumps, end - |s.out|
    {
      var t := Turn(p, s, end);
      if t.None? { return None; }
      s := t.value;
    }
    r := Some(Finish(s));
  }

  /** The body of the loop. */
  method Turn(p: Packet, s: Scan, end: nat) returns (r: Option<Scan>)
    requires Fine(p, s, end) && !Ends(p, s, end)
    ensures r == Step(p, s, end)
  {
    var c := At(p, s.at);
    if c >= 0xC0 {
      if s.at + 1 >= |p.bytes| { return None; }
      var offset := Target(p, s.at);
      if offset >= |p.bytes| { return None; }
      if s.jumps + 1 > MAX_JUMPS { return None; }
      return Some(Scan(offset, s.out, s.jumps + 1, Use(s, 2)));
    }
    if c > MAX_LABEL { return None; }
    if s.at + 1 + c > |p.bytes| { return None; }
    var out := s.out;
    if out != [] { out := out + [DOT]; }
    if |out| + c > end { return None; }
    out := out + p.bytes[s.at + 1..s.at + 1 + c];
    assert out == Joined(s.out, p.bytes[s.at + 1..s.at + 1 + c]);
    return Some(Scan(s.at + 1 + c, out, s.jumps, Use(s, 1 + c)));
  }

  // ------------------------------------------------------------- what a packet says

  /** At `src` the packet holds these labels, reached through this many pointers. */
  ghost predicate Holds(p: Packet, src: nat, labels: seq<seq<byte>>, jumps: nat)
    decreases jumps, |labels|
  {
    src <= |p.bytes| &&
    var c := At(p, src);
    if c == 0 then labels == [] && jumps == 0
    else if c >= 0xC0 then
      && jumps > 0 && src + 1 < |p.bytes| && Target(p, src) < |p.bytes|
      && Holds(p, Target(p, src), labels, jumps - 1)
    else
      && labels != [] && c <= MAX_LABEL && src + 1 + c <= |p.bytes| && labels[0] == p.bytes[src + 1..src + 1 + c]
      && Holds(p, src + 1 + c, labels[1..], jumps)
  }

  /** How many bytes at `src` the name takes: to the zero, or to the first pointer. */
  ghost function Extent(p: Packet, src: nat, labels: seq<seq<byte>>): nat
    decreases |labels|
  {
    var c := At(p, src);
    if c == 0 || labels == [] then (if c == 0 then 1 else 2)
    else if c >= 0xC0 then 2
    else 1 + c + Extent(p, src + 1 + c, labels[1..])
  }

  function JoinAll(out: seq<byte>, labels: seq<seq<byte>>): (r: seq<byte>)
    ensures |r| >= |out|
    decreases |labels|
  {
    if labels == [] then out else JoinAll(Joined(out, labels[0]), labels[1..])
  }

  lemma {:induction false} JoinAllDotted(out: seq<byte>, labels: seq<seq<byte>>)
    requires Proper(labels)
    ensures JoinAll(out, labels) == if labels == [] then out else Joined(out, Dotted(labels))
    decreases |labels|
  {
    if labels != [] {
      assert |labels[0]| > 0;
      JoinAllDotted(Joined(out, labels[0]), labels[1..]);
    }
  }

  lemma {:induction false} HoldsProper(p: Packet, src: nat, labels: seq<seq<byte>>, jumps: nat)
    requires Holds(p, src, labels, jumps)
    ensures Proper(labels)
    decreases jumps, |labels|
  {
    var c := At(p, src);
    if c >= 0xC0 {
      HoldsProper(p, Target(p, src), labels, jumps - 1);
    } else if c != 0 {
      HoldsProper(p, src + 1 + c, labels[1..], jumps);
    }
  }

  lemma JumpStep(p: Packet, s: Scan, end: nat)
    requires Fine(p, s, end) && |s.out| < end && At(p, s.at) >= 0xC0
    requires s.at + 1 < |p.bytes| && Target(p, s.at) < |p.bytes|
    ensures Continue(p, s, end) ==
      if s.jumps == MAX_JUMPS then None else Continue(p, Scan(Target(p, s.at), s.out, s.jumps + 1, Use(s, 2)), end)
  {
  }

  lemma TakeStep(p: Packet, s: Scan, end: nat)
    requires Fine(p, s, end) && 0 < At(p, s.at) <= MAX_LABEL && s.at + 1 + At(p, s.at) <= |p.bytes|
    requires |Joined(s.out, p.bytes[s.at + 1..s.at + 1 + At(p, s.at)])| <= end
    ensures var c := At(p, s.at);
      Continue(p, s, end) ==
      Continue(p, Scan(s.at + 1 + c, Joined(s.out, p.bytes[s.at + 1..s.at + 1 + c]), s.jumps, Use(s, 1 + c)), end)
  {
  }

  /** From any state of the loop: a name that fits is found exactly when it needs no more
      jumps than are left. */
  lemma {:induction false} ContinueHolds(p: Packet, s: Scan, labels: seq<seq<byte>>, more: nat, end: nat)
    requires Holds(p, s.at, labels, more) && s.jumps <= MAX_JUMPS
    requires |JoinAll(s.out, labels)| < end || (more == 0 && |JoinAll(s.out, labels)| <= end)
    ensures Fine(p, s, end)
    ensures Continue(p, s, end) ==
      if s.jumps + more > MAX_JUMPS then None
      else Some(Decoded(JoinAll(s.out, labels), Use(s, Extent(p, s.at, labels))))
    decreases more, |labels|
  {
    hide Holds, Extent, JoinAll, Continue, Target, Joined, At;
    HoldsCases(p, s.at, labels, more);
    JoinAllStep(s.out, labels);
    var c := At(p, s.at);
    if c == 0 {
      EndStep(p, s, end);
    } else if c >= 0xC0 {
      JumpStep(p, s, end);
      if s.jumps < MAX_JUMPS {
        ContinueHolds(p, Scan(Target(p, s.at), s.out, s.jumps + 1, Use(s, 2)), labels, more - 1, end);
      }
    } else {
      TakeStep(p, s, end);
      ContinueHolds(p, Scan(s.at + 1 + c, Joined(s.out, labels[0]), s.jumps, Use(s, 1 + c)), labels[1..], more, end);
    }
  }

  lemma EndStep(p: Packet, s: Scan, end: nat)
    requires Fine(p, s, end) && At(p, s.at) == 0
    ensures Continue(p, s, end) == Some(Decoded(s.out, Use(s, 1)))
  {
  }

  lemma HoldsCases(p: Packet, src: nat, labels: seq<seq<byte>>, more: nat)
    requires Holds(p, src, labels, more)
    ensures src <= |p.bytes|
    ensures var c := At(p, src);
      if c == 0 then labels == [] && more == 0 && Extent(p, src, labels) == 1
      else if c >= 0xC0 then
        && more > 0 && src + 1 < |p.bytes| && Target(p, src) < |p.bytes| && Extent(p, src, labels) == 2
        && Holds(p, Target(p, src), labels, more - 1)
      else
        && labels != [] && c <= MAX_LABEL && src + 1 + c <= |p.bytes| && labels[0] == p.bytes[src + 1..src + 1 + c]
        && Holds(p, src + 1 + c, labels[1..], more)
        && Extent(p, src, labels) == 1 + c + Extent(p, src + 1 + c, labels[1..])
  {
  }

  lemma JoinAllStep(out: seq<byte>, labels: seq<seq<byte>>)
    ensures labels == [] ==> JoinAll(out, labels) == out
    ensures labels != [] ==> JoinAll(out, labels) == JoinAll(Joined(out, labels[0]), labels[1..])
    ensures labels != [] ==> |Joined(out, labels[0])| >= |out| + |labels[0]|
  {
  }

  /** A name in a packet, compressed or not, decodes to its labels with dots between and
      uses the bytes up to its end or its first pointer; with more than ten pointers on
      the way it is refused. */
  lemma DecodeExact(p: Packet, src: nat, labels: seq<seq<byte>>, jumps: nat, size: nat)
    requires Holds(p, src, labels, jumps) && |Dotted(labels)| + 1 < size
    ensures src <= |p.bytes|
    ensures Continue(p, Start(src), size - 1) ==
      if jumps > MAX_JUMPS then None else Some(Decoded(Dotted(labels), Extent(p, src, labels)))
  {
    HoldsProper(p, src, labels, jumps);
    JoinAllDotted([], labels);
    ContinueHolds(p, Start(src), labels, jumps, size - 1);
  }

  // ------------------------------------------------------------- a name that fills the buffer

  /** At `src` the packet begins with these labels, the last of them reached through this
      many pointers, whatever follows. */
  ghost predicate Reads(p: Packet, src: nat, labels: seq<seq<byte>>, jumps: nat)
    decreases jumps, |labels|
  {
    src <= |p.bytes| &&
    if labels == [] then jumps == 0
    else
      var c := At(p, src);
      if c >= 0xC0 then
        && jumps > 0 && src + 1 < |p.bytes| && Target(p, src) < |p.bytes|
        && Reads(p, Target(p, src), labels, jumps - 1)
      else
        && 0 < c <= MAX_LABEL && src + 1 + c <= |p.bytes| && labels[0] == p.bytes[src + 1..src + 1 + c]
        && Reads(p, src + 1 + c, labels[1..], jumps)
  }

  /** The length reported when the decoder stops behind these labels: one byte more than
      they take, or up to the first pointer. */
  ghost function Reported(p: Packet, src: nat, labels: seq<seq<byte>>): nat
    decreases |labels|
  {
    if labels == [] then 1
    else if At(p, src) >= 0xC0 then 2
    else 1 + At(p, src) + Reported(p, src + 1 + At(p, src), labels[1..])
  }

  /** How many pointers lead to the end of the first j labels of a name. */
  ghost function PointersTo(p: Packet, src: nat, labels: seq<seq<byte>>, jumps: nat, j: nat): nat
    requires Holds(p, src, labels, jumps) && j <= |labels|
    decreases jumps, |labels|
  {
    if j == 0 then 0
    else if At(p, src) >= 0xC0 then 1 + PointersTo(p, Target(p, src), labels, jumps - 1, j)
    else PointersTo(p, src + 1 + At(p, src), labels[1..], jumps, j - 1)
  }

  lemma {:induction false} HoldsReads(p: Packet, src: nat, labels: seq<seq<byte>>, jumps: nat, j: nat)
    requires Holds(p, src, labels, jumps) && j <= |labels|
    ensures Reads(p, src, labels[..j], PointersTo(p, src, labels, jumps, j))
    decreases jumps, |labels|
  {
    var c := At(p, src);
    if j > 0 {
      if c >= 0xC0 {
        HoldsReads(p, Target(p, src), labels, jumps - 1, j);
      } else {
        HoldsReads(p, src + 1 + c, labels[1..], jumps, j - 1);
        assert labels[..j][1..] == labels[1..][..j - 1];
      }
    }
  }

  lemma FullStep(p: Packet, s: Scan, end: nat)
    requires Fine(p, s, end) && |s.out| >= end
    ensures Continue(p, s, end) == Some(Decoded(s.out, Use(s, 1)))
  {
  }

  lemma ReadsCases(p: Packet, src: nat, labels: seq<seq<byte>>, more: nat)
    requires Reads(p, src, labels, more)
    ensures src <= |p.bytes|
    ensures labels == [] ==> more == 0 && Reported(p, src, labels) == 1
    ensures var c := At(p, src);
      labels != [] ==>
      if c >= 0xC0 then
        && more > 0 && src + 1 < |p.bytes| && Target(p, src) < |p.bytes| && Reported(p, src, labels) == 2
        && Reads(p, Target(p, src), labels, more - 1)
      else
        && 0 < c <= MAX_LABEL && src + 1 + c <= |p.bytes| && labels[0] == p.bytes[src + 1..src + 1 + c]
        && Reads(p, src + 1 + c, labels[1..], more)
        && Reported(p, src, labels) == 1 + c + Reported(p, src + 1 + c, labels[1..])
  {
  }

  lemma TakeRefused(p: Packet, s: Scan, end: nat)
    requires Fine(p, s, end) && |s.out| < end
    requires 0 < At(p, s.at) <= MAX_LABEL && s.at + 1 + At(p, s.at) <= |p.bytes|
    requires |Joined(s.out, p.bytes[s.at + 1..s.at + 1 + At(p, s.at)])| > end
    ensures Continue(p, s, end) == None
  {
  }

  /** From any state of the loop: labels that end exactly at the end of the buffer are the
      result, and labels of which the last does not fit are refused. */
  lemma {:induction false} ContinueReads(p: Packet, s: Scan, labels: seq<seq<byte>>, more: nat, end: nat)
    requires Reads(p, s.at, labels, more) && Proper(labels) && s.jumps <= MAX_JUMPS && |s.out| <= end
    requires |JoinAll(s.out, labels)| == end ||
             (labels != [] && |JoinAll(s.out, labels[..|labels| - 1])| < end < |JoinAll(s.out, labels)|)
    ensures Fine(p, s, end)
    ensures Continue(p, s, end) ==
      if |JoinAll(s.out, labels)| > end || s.jumps + more > MAX_JUMPS then None
      else Some(Decoded(JoinAll(s.out, labels), Use(s, Reported(p, s.at, labels))))
    decreases more, |labels|
  {
    hide Reads, Reported, JoinAll, Continue, Target, Joined, At;
    ReadsCases(p, s.at, labels, more);
    JoinAllStep(s.out, labels);
    var c := At(p, s.at);
    if labels == [] {
      FullStep(p, s, end);
    } else {
      var short := labels[..|labels| - 1];
      JoinAllStep(s.out, short);
      JoinAllShort(s.out, labels);
      if c >= 0xC0 {
        JumpStep(p, s, end);
        if s.jumps < MAX_JUMPS {
          ContinueReads(p, Scan(Target(p, s.at), s.out, s.jumps + 1, Use(s, 2)), labels, more - 1, end);
        }
      } else if |Joined(s.out, labels[0])| > end {
        TakeRefused(p, s, end);
      } else {
        TakeStep(p, s, end);
        assert |labels| > 1 ==> short[0] == labels[0] && short[1..] == labels[1..][..|labels| - 2];
        JoinAllStep(Joined(s.out, labels[0]), labels[1..]);
        ContinueReads(p, Scan(s.at + 1 + c, Joined(s.out, labels[0]), s.jumps, Use(s, 1 + c)), labels[1..], more, end);
      }
    }
  }

  lemma JoinAllShort(out: seq<byte>, labels: seq<seq<byte>>)
    requires labels != []
    ensures |JoinAll(out, labels)| >= |out| + |labels[0]|
    ensures |labels| == 1 ==> JoinAll(out, labels[..0]) == out
  {
  }

  lemma {:induction false} DottedGrows(labels: seq<seq<byte>>, j: nat)
    requires Proper(labels) && j < |labels|
    ensures Proper(labels[..j]) && Proper(labels[..j + 1]) && |Dotted(labels[..j])| < |Dotted(labels[..j + 1])|
  {
    if j == 0 {
      assert labels[..1] == [labels[0]];
    } else {
      assert labels[..j][1..] == labels[1..][..j - 1] && labels[..j + 1][1..] == labels[1..][..j];
      DottedGrows(labels[1..], j - 1);
      assert |labels[..j]| == 1 ==> labels[1..][..j - 1] == [];
    }
  }

  lemma {:induction false} DottedOrder(labels: seq<seq<byte>>, i: nat, j: nat)
    requires Proper(labels) && i < j <= |labels|
    ensures |Dotted(labels[..i])| < |Dotted(labels[..j])|
    decreases j
  {
    DottedGrows(labels, j - 1);
    if i < j - 1 { DottedOrder(labels, i, j - 1); }
  }

  /** The first label at which the buffer is full or overrun. */
  lemma {:induction false} FirstFull(labels: seq<seq<byte>>, end: nat, from: nat) returns (j: nat)
    requires Proper(labels) && 0 < end <= |Dotted(labels)| && from < |labels| && |Dotted(labels[..from])| < end
    ensures from < j <= |labels| && |Dotted(labels[..j - 1])| < end <= |Dotted(labels[..j])|
    decreases |labels| - from
  {
    assert labels[..|labels|] == labels;
    if from + 1 == |labels| || |Dotted(labels[..from + 1])| >= end {
      j := from + 1;
    } else {
      j := FirstFull(labels, end, from + 1);
    }
  }

  lemma DecodePrefix(p: Packet, src: nat, labels: seq<seq<byte>>, jumps: nat, size: nat, j: nat)
    requires Holds(p, src, labels, jumps) && Proper(labels) && 2 <= size && 0 < j <= |labels|
    requires |Dotted(labels[..j - 1])| < size - 1 <= |Dotted(labels[..j])|
    ensures src <= |p.bytes|
    ensures Continue(p, Start(src), size - 1) ==
      if |Dotted(labels[..j])| > size - 1 || PointersTo(p, src, labels, jumps, j) > MAX_JUMPS then None
      else Some(Decoded(Dotted(labels[..j]), Reported(p, src, labels[..j])))
  {
    hide Holds, Reads, Dotted, JoinAll, Continue, PointersTo, Reported, Proper;
    HoldsReads(p, src, labels, jumps, j);
    CutPrefix(labels, j);
    ContinueReads(p, Start(src), labels[..j], PointersTo(p, src, labels, jumps, j), size - 1);
  }

  lemma CutPrefix(labels: seq<seq<byte>>, j: nat)
    requires Proper(labels) && 0 < j <= |labels|
    ensures Proper(labels[..j]) && labels[..j][..j - 1] == labels[..j - 1]
    ensures JoinAll([], labels[..j]) == Dotted(labels[..j]) && JoinAll([], labels[..j - 1]) == Dotted(labels[..j - 1])
  {
    assert Proper(labels[..j - 1]);
    JoinAllDotted([], labels[..j]);
    JoinAllDotted([], labels[..j - 1]);
    assert Dotted([]) == [];
  }

  /** A name in a packet with at least as many bytes as the buffer has room for decodes if
      and only if some of its labels, from the first on, fill the buffer exactly and at most
      ten pointers lead there. The result is then cut short to them. */
  lemma DecodeFull(p: Packet, src: nat, labels: seq<seq<byte>>, jumps: nat, size: nat)
    requires Holds(p, src, labels, jumps) && 2 <= size <= |Dotted(labels)| + 1
    ensures src <= |p.bytes|
    ensures Continue(p, Start(src), size - 1).Some? <==>
      exists j :: 0 <= j <= |labels| && |Dotted(labels[..j])| == size - 1
                  && PointersTo(p, src, labels, jumps, j) <= MAX_JUMPS
    ensures forall j :: 0 <= j <= |labels| && |Dotted(labels[..j])| == size - 1 &&
                        PointersTo(p, src, labels, jumps, j) <= MAX_JUMPS ==>
      Continue(p, Start(src), size - 1) == Some(Decoded(Dotted(labels[..j]), Reported(p, src, labels[..j])))
  {
    HoldsProper(p, src, labels, jumps);
    assert Dotted(labels[..0]) == [];
    assert labels != [];
    var f := FirstFull(labels, size - 1, 0);
    DecodePrefix(p, src, labels, jumps, size, f);
    forall j | 0 <= j <= |labels| && |Dotted(labels[..j])| == size - 1 ensures j == f {
      if j < f - 1 { DottedOrder(labels, j, f - 1); }
      if j > f { DottedOrder(labels, f, j); }
    }
    hide Holds, Continue, PointersTo, Reported, Dotted;
  }

  /** The packet holds abc.d, and into four bytes it decodes as abc. */
  lemma CutShort(after: byte)
    ensures var p := Packet([3, 97, 98, 99, 1, 100, 0], after);
      && Holds(p, 0, [[97, 98, 99], [100]], 0)
      && Continue(p, Start(0), 3) == Some(Decoded([97, 98, 99], 5))
  {
    var p := Packet([3, 97, 98, 99, 1, 100, 0], after);
    var labels: seq<seq<byte>> := [[97, 98, 99], [100]];
    assert labels[1..] == [[100]] && labels[1..][1..] == [];
    assert p.bytes[1..4] == [97, 98, 99] && p.bytes[5..6] == [100];
    assert Holds(p, 6, [], 0);
    assert Holds(p, 4, [[100]], 0);
    assert Holds(p, 0, labels, 0);
    var t := Scan(4, [97, 98, 99], 0, 4);
    assert Step(p, Start(0), 3) == Some(t);
    assert Continue(p, t, 3) == Some(Decoded([97, 98, 99], 5));
  }

  lemma HoldsPart(p: Packet, src: nat, labels: seq<seq<byte>>, jumps: nat, out: seq<byte>)
    requires src <= |p.bytes| && 0 < At(p, src) <= MAX_LABEL && src + 1 + At(p, src) <= |p.bytes|
    requires Holds(p, src + 1 + At(p, src), labels, jumps)
    ensures var part := p.bytes[src + 1..src + 1 + At(p, src)];
      && Holds(p, src, [part] + labels, jumps)
      && JoinAll(out, [part] + labels) == JoinAll(Joined(out, part), labels)
  {
    var part := p.bytes[src + 1..src + 1 + At(p, src)];
    assert ([part] + labels)[1..] == labels;
  }

  /** And nothing else decodes: a result that left room in the buffer is a name the packet
      holds, and one that fills it is made of labels the packet holds. */
  lemma {:induction false} DecodedIsHeld(p: Packet, s: Scan, end: nat) returns (labels: seq<seq<byte>>, more: nat)
    requires Fine(p, s, end) && Continue(p, s, end).Some?
    ensures var name := Continue(p, s, end).value.name;
      && name == JoinAll(s.out, labels) && s.jumps + more <= MAX_JUMPS
      && if |name| < end then Holds(p, s.at, labels, more) else Reads(p, s.at, labels, more)
    decreases MAX_JUMPS - s.jumps, end - |s.out|
  {
    hide Continue, Step, Holds, Reads, JoinAll, Joined, Target, At;
    var c := At(p, s.at);
    if |s.out| >= end {
      labels, more := [], 0;
      FullStep(p, s, end);
      ReadsEnd(p, s.at, s.out);
    } else if c == 0 {
      labels, more := [], 0;
      EndStep(p, s, end);
      HoldsEnd(p, s.at, s.out);
    } else {
      StepCases(p, s, end);
      var t := Step(p, s, end).value;
      labels, more := DecodedIsHeld(p, t, end);
      if c >= 0xC0 {
        if |Continue(p, s, end).value.name| < end {
          HoldsJump(p, s.at, labels, more);
        } else {
          assert labels != [] by { JoinAllStep(t.out, labels); }
          ReadsJump(p, s.at, labels, more);
        }
        more := more + 1;
      } else {
        var part := p.bytes[s.at + 1..s.at + 1 + c];
        if |Continue(p, s, end).value.name| < end {
          HoldsPart(p, s.at, labels, more, s.out);
        } else {
          ReadsPart(p, s.at, labels, more, s.out);
        }
        labels := [part] + labels;
      }
    }
  }

  lemma StepCases(p: Packet, s: Scan, end: nat)
    requires Fine(p, s, end) && At(p, s.at) != 0 && |s.out| < end && Continue(p, s, end).Some?
    ensures !Ends(p, s, end) && Step(p, s, end).Some?
    ensures var c, t := At(p, s.at), Step(p, s, end).value;
      && Continue(p, s, end) == Continue(p, t, end)
      && (c >= 0xC0 ==> s.at + 1 < |p.bytes| && Target(p, s.at) < |p.bytes| && t.at == Target(p, s.at) &&
                        t.out == s.out && t.jumps == s.jumps + 1)
      && (c < 0xC0 ==> c <= MAX_LABEL && s.at + 1 + c <= |p.bytes| && t.at == s.at + 1 + c &&
                       t.out == Joined(s.out, p.bytes[s.at + 1..s.at + 1 + c]) && t.jumps == s.jumps)
  {
  }

  lemma HoldsEnd(p: Packet, src: nat, out: seq<byte>)
    requires src <= |p.bytes| && At(p, src) == 0
    ensures Holds(p, src, [], 0) && JoinAll(out, []) == out
  {
  }

  lemma ReadsEnd(p: Packet, src: nat, out: seq<byte>)
    requires src <= |p.bytes|
    ensures Reads(p, src, [], 0) && JoinAll(out, []) == out
  {
  }

  lemma ReadsJump(p: Packet, src: nat, labels: seq<seq<byte>>, jumps: nat)
    requires src + 1 < |p.bytes| && At(p, src) >= 0xC0 && Target(p, src) < |p.bytes| && labels != []
    requires Reads(p, Target(p, src), labels, jumps)
    ensures Reads(p, src, labels, jumps + 1)
  {
  }

  lemma ReadsPart(p: Packet, src: nat, labels: seq<seq<byte>>, jumps: nat, out: seq<byte>)
    requires src <= |p.bytes| && 0 < At(p, src) <= MAX_LABEL && src + 1 + At(p, src) <= |p.bytes|
    requires Reads(p, src + 1 + At(p, src), labels, jumps)
    ensures var part := p.bytes[src + 1..src + 1 + At(p, src)];
      && Reads(p, src, [part] + labels, jumps)
      && JoinAll(out, [part] + labels) == JoinAll(Joined(out, part), labels)
  {
    var part := p.bytes[src + 1..src + 1 + At(p, src)];
    assert ([part] + labels)[1..] == labels;
  }

  lemma HoldsJump(p: Packet, src: nat, labels: seq<seq<byte>>, jumps: nat)
    requires src + 1 < |p.bytes| && At(p, src) >= 0xC0 && Target(p, src) < |p.bytes|
    requires Holds(p, Target(p, src), labels, jumps)
    ensures Holds(p, src, labels, jumps + 1)
  {
  }

  // ------------------------------------------------------------- round trip

  /** The bytes w stand in the packet from src on. */
  ghost predicate Stands(packet: seq<byte>, src: nat, w: seq<byte>) {
    src + |w| <= |packet| && packet[src..src + |w|] == w
  }

  lemma SliceOf<T>(s: seq<T>, from: nat, n: nat, i: nat, j: nat)
    requires from + n <= |s| && i <= j <= n
    ensures s[from..from + n][i..j] == s[from + i..from + j]
  {
    var a, b := s[from..from + n][i..j], s[from + i..from + j];
    assert |a| == |b|;
    forall k | 0 <= k < |a| ensures a[k] == b[k] { }
  }

  lemma StandsParts(packet: seq<byte>, src: nat, part: seq<byte>, rest: seq<byte>)
    requires |part| <= MAX_LABEL && Stands(packet, src, Counted(part) + rest)
    ensures var c := |part|;
      && src + 1 + c <= |packet| && packet[src] == c && packet[src + 1..src + 1 + c] == part
      && Stands(packet, src + 1 + c, rest)
  {
    var w, c := Counted(part) + rest, |part|;
    assert w[0] == c && w[1..1 + c] == part && w[1 + c..|w|] == rest;
    assert packet[src] == packet[src..src + |w|][0];
    SliceOf(packet, src, |w|, 1, 1 + c);
    SliceOf(packet, src, |w|, 1 + c, |w|);
  }

  lemma HoldsLabel(p: Packet, src: nat, labels: seq<seq<byte>>)
    requires labels != [] && 0 < |labels[0]| <= MAX_LABEL && src + 1 + |labels[0]| <= |p.bytes|
    requires p.bytes[src] == |labels[0]| && p.bytes[src + 1..src + 1 + |labels[0]|] == labels[0]
    requires Holds(p, src + 1 + |labels[0]|, labels[1..], 0)
    ensures Holds(p, src, labels, 0)
    ensures Extent(p, src, labels) == 1 + |labels[0]| + Extent(p, src + 1 + |labels[0]|, labels[1..])
  {
  }

  lemma {:induction false} WireHolds(p: Packet, src: nat, labels: seq<seq<byte>>)
    requires Proper(labels) && Stands(p.bytes, src, Wire(labels))
    ensures Holds(p, src, labels, 0) && Extent(p, src, labels) == |Wire(labels)|
    decreases |labels|
  {
    if labels == [] {
      assert p.bytes[src] == p.bytes[src..src + 1][0];
    } else {
      var part := labels[0];
      hide Stands, Counted, Holds, Extent;
      StandsParts(p.bytes, src, part, Wire(labels[1..]));
      WireHolds(p, src + 1 + |part|, labels[1..]);
      HoldsLabel(p, src, labels);
    }
  }

  lemma RoundTripLabels(p: Packet, src: nat, labels: seq<seq<byte>>, size: nat)
    requires Proper(labels) && Stands(p.bytes, src, Wire(labels)) && 2 <= size && |Dotted(labels)| < size
    ensures src <= |p.bytes|
    ensures Continue(p, Start(src), size - 1) == Some(Decoded(Dotted(labels), |Wire(labels)|))
  {
    hide *;
    StartFacts(p, src, Wire(labels));
    WireHolds(p, src, labels);
    JoinAllDotted([], labels);
    JoinedNone(Dotted(labels));
    ContinueHolds(p, Start(src), labels, 0, size - 1);
  }

  lemma StartFacts(p: Packet, src: nat, w: seq<byte>)
    requires Stands(p.bytes, src, w)
    ensures src <= |p.bytes| && Dotted([]) == [] && Use(Start(src), |w|) == |w|
    ensures Start(src).out == [] && Start(src).at == src && Start(src).jumps == 0 <= MAX_JUMPS
  {
  }

  lemma JoinedNone(s: seq<byte>)
    ensures Joined([], s) == s
  {
  }

  /** An encoded name, anywhere in a packet, decodes to the name without its last dot, and
      exactly the encoded bytes are used. */
  lemma RoundTrip(p: Packet, src: nat, name: seq<byte>, size: nat)
    requires Proper(Split(name)) && Stands(p.bytes, src, Wire(Split(name)))
    requires 2 <= size && |WithoutLastDot(name)| < size
    ensures src <= |p.bytes|
    ensures Continue(p, Start(src), size - 1) == Some(Decoded(WithoutLastDot(name), |Wire(Split(name))|))
  {
    hide *;
    StartFacts(p, src, Wire(Split(name)));
    DottedSplit(name);
    RoundTripLabels(p, src, Split(name), size);
  }

  // ------------------------------------------------------------- bytes on the wire

  /** Where label i of an uncompressed name starts: behind the lengths and bytes of those
      before it. */
  ghost function StartOf(labels: seq<seq<byte>>, i: nat): nat
    requires i <= |labels|
  {
    if i == 0 then 0 else StartOf(labels, i - 1) + 1 + |labels[i - 1]|
  }

  lemma WireStep(labels: seq<seq<byte>>)
    requires Proper(labels) && labels != []
    ensures Proper(labels[1..]) && Wire(labels) == Counted(labels[0]) + Wire(labels[1..])
  {
  }

  lemma {:induction false} WireLength(labels: seq<seq<byte>>)
    requires Proper(labels)
    ensures |Wire(labels)| == StartOf(labels, |labels|) + 1 && Wire(labels)[|Wire(labels)| - 1] == 0
  {
    if labels != [] {
      WireStep(labels);
      WireLength(labels[1..]);
      StartShift(labels, |labels|);
    }
  }

  /** An encoded name holds each label at its place, behind its length, and ends in a zero. */
  lemma {:induction false} WireBytes(labels: seq<seq<byte>>, i: nat)
    requires Proper(labels) && i < |labels|
    ensures |Wire(labels)| == StartOf(labels, |labels|) + 1 && Wire(labels)[|Wire(labels)| - 1] == 0
    ensures var x := StartOf(labels, i);
      && x + 1 + |labels[i]| < |Wire(labels)| && Wire(labels)[x] == |labels[i]|
      && Wire(labels)[x + 1..x + 1 + |labels[i]|] == labels[i]
  {
    hide Wire, Counted;
    WireLength(labels);
    WireStep(labels);
    var rest := Wire(labels[1..]);
    if i > 0 {
      StartShift(labels, i);
      WireBytes(labels[1..], i - 1);
      Behind(Counted(labels[0]), rest, StartOf(labels[1..], i - 1), |labels[i]|);
    } else {
      WireLength(labels[1..]);
      assert (Counted(labels[0]) + rest)[1..1 + |labels[0]|] == Counted(labels[0])[1..];
    }
  }

  lemma Behind(a: seq<byte>, b: seq<byte>, x: nat, n: nat)
    requires x + 1 + n <= |b|
    ensures (a + b)[|a| + x] == b[x] && (a + b)[|a| + x + 1..|a| + x + 1 + n] == b[x + 1..x + 1 + n]
  {
  }

  lemma {:induction false} StartShift(labels: seq<seq<byte>>, i: nat)
    requires 0 < i <= |labels|
    ensures StartOf(labels, i) == 1 + |labels[0]| + StartOf(labels[1..], i - 1)
  {
    if i > 1 { StartShift(labels, i - 1); }
  }

  /** The bytes a name takes where it stands: without a pointer those of its encoding, up to
      the zero; otherwise its own labels up to the first pointer, and that. */
  lemma {:induction false} ExtentExact(p: Packet, src: nat, labels: seq<seq<byte>>, jumps: nat) returns (j: nat)
    requires Holds(p, src, labels, jumps)
    ensures j <= |labels|
    ensures jumps == 0 ==> j == |labels| && Extent(p, src, labels) == StartOf(labels, j) + 1
    ensures jumps > 0 ==> Extent(p, src, labels) == StartOf(labels, j) + 2
    ensures var c := At(p, src + StartOf(labels, j)); if jumps == 0 then c == 0 else c >= 0xC0
    decreases |labels|
  {
    var c := At(p, src);
    if c == 0 || c >= 0xC0 {
      j := 0;
    } else {
      j := ExtentExact(p, src + 1 + c, labels[1..], jumps);
      j := j + 1;
      StartShift(labels, j);
    }
  }

  /** A pointer names a place with the low six bits of its first byte and its second. */
  lemma TargetExact(p: Packet, i: nat)
    requires i + 1 < |p.bytes| && p.bytes[i] >= 0xC0
    ensures Target(p, i) == (p.bytes[i] as int - 0xC0) * 256 + p.bytes[i + 1] as int
  {
  }
}
