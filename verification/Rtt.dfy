/** The round-trip estimator of src/net/tcp.c, the scaled form of section 2 of RFC 6298:
    srtt holds eight times the mean, rttvar four times the deviation. The C code mixes
    uint32_t and int32_t; both widths are explicit here. */
module Rtt {
  import opened Common

  const RTO_MIN := 200
  const RTO_MAX := 120000
  const RTO_DEFAULT := 1000

  type u32 = x: int | 0 <= x < 0x1_0000_0000

  /** (int32_t) of a uint32_t, and back. */
  function Signed(x: u32): int { if x < TWO31 then x else x - TWO32 }

  function Unsigned(x: int): u32 { x % TWO32 }

  lemma UnsignedSame(x: int)
    ensures 0 <= x < TWO32 ==> Unsigned(x) == x
  {
  }

  function AtLeastOne(x: u32): u32 { if x == 0 then 1 else x }

  /** The result of an int32_t operation is defined only in this range. */
  predicate Fits(x: int) { -TWO31 <= x < TWO31 }

  datatype State = State(srtt: u32, rttvar: u32, rto: u32)

  function Clamp(x: int): u32 {
    if x < RTO_MIN then RTO_MIN else if x > RTO_MAX then RTO_MAX else x
  }

  function Abs(x: int): nat { if x < 0 then -x else x }

  /** The estimator over the integers. */
  function Estimate(s: State, m: nat): (int, int) { Estimated(s.srtt, s.rttvar, m) }

  function Estimated(srtt: int, rttvar: int, m: nat): (int, int) {
    if srtt == 0 then (8 * m, 2 * m)
    else (srtt + m - Eighth(srtt), rttvar + Abs(m - Eighth(srtt)) - Quarter(rttvar))
  }

  function Eighth(x: int): int { x / 8 }

  function Quarter(x: int): int { x / 4 }

  lemma Parts(x: u32, y: u32)
    ensures 0 <= Eighth(x) <= x && 0 <= Quarter(y) <= y
  {
  }

  class Estimator {
    var srtt: u32
    var rttvar: u32
    var rto: u32

    function Now(): State
      reads this
    {
      State(srtt, rttvar, rto)
    }

    constructor ()
      ensures Now() == State(0, 0, RTO_DEFAULT)
    {
      srtt, rttvar, rto := 0, 0, RTO_DEFAULT;
    }

    /** tcp_calc_rto. */
    method CalcRto() returns (r: u32)
      ensures srtt / 8 + rttvar < TWO32 ==> r == Clamp(srtt / 8 + rttvar)
      ensures RTO_MIN <= r <= RTO_MAX
    {
      r := Unsigned(srtt / 8 + rttvar);
      if r < RTO_MIN { r := RTO_MIN; }
      if r > RTO_MAX { r := RTO_MAX; }
    }

    /** tcp_update_rtt: with samples of at most `bound`, eight of which are below 2^31, no
        int32_t operation overflows and the result is the estimate over the integers. */
    method Update(m: u32, ghost bound: nat)
      requires m <= bound && 1 <= bound && 8 * bound < TWO31 && Within(Now(), bound)
      modifies this
      ensures Within(Now(), bound) && (old(srtt) != 0 || m != 0 ==> srtt > 0)
      ensures (srtt, rttvar) == Estimate(old(Now()), m) && rto == Clamp(srtt / 8 + rttvar)
    {
      Bounded(Now(), m, bound);
      if srtt == 0 {
        srtt := Unsigned(m * 8);
        rttvar := Unsigned(m * 2);
      } else {
        Smooth(m, bound);
      }
      rto := CalcRto();
    }

    method Smooth(m: u32, ghost bound: nat)
      requires m <= bound && 1 <= bound && 8 * bound < TWO31 && srtt != 0 && Within(Now(), bound)
      modifies this`srtt, this`rttvar
      ensures (srtt, rttvar) == Estimate(old(Now()), m)
    {
      InRange(Now(), m, bound);
      hide Eighth, Quarter, Unsigned, Within, Signed, Fits;
      var mean: u32, quarter: u32 := Eighth(srtt), Quarter(rttvar);
      assert Fits(Signed(m) - Signed(mean));
      var delta := Signed(m) - Signed(mean);
      assert Fits(Signed(srtt) + delta);
      UnsignedSame(Signed(srtt) + delta);
      srtt := AtLeastOne(Unsigned(Signed(srtt) + delta));
      assert Fits(-delta);
      if delta < 0 { delta := -delta; }
      assert Fits(delta - Signed(quarter)) && Fits(Signed(rttvar) + (delta - Signed(quarter)));
      UnsignedSame(Signed(rttvar) + (delta - Signed(quarter)));
      rttvar := AtLeastOne(Unsigned(Signed(rttvar) + (delta - Signed(quarter))));
    }
  }

  /** Nothing measured yet, or a mean of at most `bound` and a deviation of at most `bound`. */
  predicate Within(s: State, bound: nat) {
    || (s.srtt == 0 && s.rttvar == 0)
    || (1 <= s.srtt <= 8 * bound && 1 <= s.rttvar <= 4 * bound)
  }

  /** One sample keeps the estimate within bounds; after the first the two values never
      reach zero, so the code's guards against zero are never needed. */
  lemma Bounded(s: State, m: nat, bound: nat)
    requires m <= bound && 1 <= bound && Within(s, bound)
    ensures var (a, v) := Estimate(s, m);
      0 <= a <= 8 * bound && 0 <= v <= 4 * bound && (s.srtt != 0 || m != 0 ==> a >= 1 && v >= 1)
  {
    if s.srtt != 0 {
      Shrinks(s.srtt, 8, bound);
      Shrinks(s.rttvar, 4, bound);
      assert Eighth(s.srtt) <= bound;
    }
  }

  lemma Shrinks(x: nat, k: nat, bound: nat)
    requires 1 <= x <= k * bound && (k == 4 || k == 8)
    ensures 1 <= x - x / k <= (k - 1) * bound
  {
  }

  /** None of the int32_t operations on one sample overflows. */
  lemma InRange(s: State, m: u32, bound: nat)
    requires m <= bound && 1 <= bound && 8 * bound < TWO31 && s.srtt != 0 && Within(s, bound)
    ensures var mean, quarter := Eighth(s.srtt), Quarter(s.rttvar);
      && Signed(m) == m && Signed(mean) == mean && Signed(quarter) == quarter
      && Signed(s.srtt) == s.srtt && Signed(s.rttvar) == s.rttvar
      && Fits(m - mean) && Fits(mean - m) && Fits(Abs(m - mean) - quarter)
      && Fits(s.srtt + (m - mean)) && Fits(s.rttvar + (Abs(m - mean) - quarter))
      && s.srtt + (m - mean) >= 1 && s.rttvar + (Abs(m - mean) - quarter) >= 1
      && s.srtt + (m - mean) < TWO32 && s.rttvar + (Abs(m - mean) - quarter) < TWO32
  {
    Bounded(s, m, bound);
    Parts(s.srtt, s.rttvar);
    hide Eighth, Quarter;
  }

  /** The estimates over the integers after a list of samples. */
  ghost function Folded(srtt: int, rttvar: int, samples: seq<u32>): (int, int) {
    if samples == [] then (srtt, rttvar)
    else
      var last := |samples| - 1;
      var (s, v) := Folded(srtt, rttvar, samples[..last]);
      Estimated(s, v, samples[last])
  }

  /** Feeding a list of samples. */
  method Feed(e: Estimator, samples: seq<u32>, bound: nat)
    requires 1 <= bound && 8 * bound < TWO31 && Within(e.Now(), bound)
    requires forall i :: 0 <= i < |samples| ==> samples[i] <= bound
    modifies e
    ensures Within(e.Now(), bound) && (e.srtt, e.rttvar) == Folded(old(e.srtt), old(e.rttvar), samples)
    ensures old(e.srtt) != 0 || (exists i :: 0 <= i < |samples| && samples[i] != 0) ==> e.srtt >= 1 && e.rttvar >= 1
    ensures samples != [] ==> RTO_MIN <= e.rto <= RTO_MAX && e.rto == Clamp(e.srtt / 8 + e.rttvar)
  {
    for i := 0 to |samples|
      invariant Within(e.Now(), bound)
      invariant (e.srtt, e.rttvar) == Folded(old(e.srtt), old(e.rttvar), samples[..i])
      invariant old(e.srtt) != 0 || (exists j :: 0 <= j < i && samples[j] != 0) ==> e.srtt >= 1
      invariant i > 0 ==> e.rto == Clamp(e.srtt / 8 + e.rttvar)
    {
      assert samples[..i + 1][..i] == samples[..i];
      e.Update(samples[i], bound);
    }
    assert samples[..|samples|] == samples;
  }

  /** The bound is sharp: a first sample of 2^28 makes srtt 2^31, and the next update
      with a small sample leaves the range of int32_t. */
  lemma BoundSharp(m: u32)
    requires m < 0x1000_0000
    ensures Unsigned(0x1000_0000 * 8) == TWO31 && !Fits(Signed(TWO31) + (Signed(m) - Signed(TWO31 / 8)))
  {
  }

  // ------------------------------------------------------------- RFC 6298

  /** The first sample is the mean, and half of it the deviation. */
  lemma FirstSample(s: State, m: nat)
    requires s.srtt == 0
    ensures var (a, v) := Estimate(s, m); a as real / 8.0 == m as real && v as real / 4.0 == m as real / 2.0
  {
  }

  /** A later one moves the mean by an eighth of the difference and the deviation by a quarter
      of it, each rounded up by less than an eighth or a quarter. */
  lemma LaterSample(s: State, m: nat)
    requires s.srtt != 0
    ensures var (a, v) := Estimate(s, m); var mean, dev := s.srtt as real / 8.0, s.rttvar as real / 4.0;
      && mean * 7.0 / 8.0 + m as real / 8.0 <= a as real / 8.0 < mean * 7.0 / 8.0 + m as real / 8.0 + 0.125
      && var diff := Abs(m - s.srtt / 8) as real;
         dev * 3.0 / 4.0 + diff / 4.0 <= v as real / 4.0 < dev * 3.0 / 4.0 + diff / 4.0 + 0.25
  {
    var q, r := s.srtt / 8, s.srtt % 8;
    var q4, r4 := s.rttvar / 4, s.rttvar % 4;
    assert s.srtt == 8 * q + r && s.rttvar == 4 * q4 + r4;
  }

  /** The timeout is the estimate itself between 200 ms and 120 s, and else the nearer limit. */
  lemma ClampExact(x: int)
    ensures 200 <= Clamp(x) <= 120000 && (200 <= x <= 120000 ==> Clamp(x) == x)
    ensures (x < 200 ==> Clamp(x) == 200) && (x > 120000 ==> Clamp(x) == 120000)
  {
  }
}
