/** The Internet checksum of src/net/checksum.c (RFC 1071). 16-bit words are read as the
    processor does, low byte first; the accumulator is 32 bits wide. */
module Checksum {
  import opened Common

  const WORD := 65536
  const ONES := 65535

  /** The sum of the words; an odd last byte counts as a word with a zero behind it. */
  function Sum(data: seq<byte>): nat {
    if data == [] then 0
    else if |data| == 1 then data[0]
    else data[0] + 256 * data[1] + Sum(data[2..])
  }

  /** One's complement value: the remainder by 65535, with 65535 instead of 0 except for 0. */
  function Folded(s: nat): nat {
    if s == 0 then 0 else (s - 1) % ONES + 1
  }

  /** checksum_partial. */
  method Partial(sum: nat, data: seq<byte>) returns (r: nat)
    requires sum < TWO32
    ensures r == (sum + Sum(data)) % TWO32
  {
    r := sum;
    var i := 0;
    while |data| - i > 1
      invariant 0 <= i <= |data| && r < TWO32
      invariant (r + Sum(data[i..])) % TWO32 == (sum + Sum(data)) % TWO32
    {
      var w := data[i] as int + 256 * data[i + 1] as int;
      assert data[i..][2..] == data[i + 2..];
      AddWraps(r + w, Sum(data[i + 2..]));
      r := (r + w) % TWO32;
      i := i + 2;
    }
    if |data| - i == 1 {
      r := (r + data[i] as int) % TWO32;
    }
  }

  lemma AddWraps(a: nat, b: nat)
    ensures (a % TWO32 + b) % TWO32 == (a + b) % TWO32
  {
  }

  /** The folding loop. */
  method Fold(sum: nat) returns (r: nat)
    requires sum < TWO32
    ensures r == Folded(sum)
  {
    r := sum;
    while r / WORD != 0
      invariant r < TWO32 && Folded(r) == Folded(sum)
      decreases r
    {
      FoldStep(r);
      r := r % WORD + r / WORD;
    }
    assert r <= ONES;
  }

  lemma FoldStep(s: nat)
    ensures s >= WORD ==> s % WORD + s / WORD < s
    ensures Folded(s % WORD + s / WORD) == Folded(s)
  {
    var q, r := s / WORD, s % WORD;
    assert s == ONES * q + (q + r);
    if s > 0 { Shift(q + r - 1, q); }
  }

  lemma Shift(x: nat, q: nat)
    ensures (ONES * q + x) % ONES == x % ONES
  {
  }

  /** The longest data whose sum cannot leave 32 bits. */
  const SAFE := 131074

  /** checksum. */
  method Compute(data: seq<byte>) returns (c: nat)
    ensures c == ONES - Folded(Sum(data) % TWO32) && c <= ONES
    ensures |data| <= SAFE ==> c == ONES - Folded(Sum(data))
  {
    NoOverflow(data);
    var s := Partial(0, data);
    var f := Fold(s);
    c := ONES - f;
  }

  /** checksum_verify. */
  method Verify(data: seq<byte>) returns (ok: bool)
    ensures |data| <= SAFE ==> (ok <==> Sum(data) != 0 && Sum(data) % ONES == 0)
    ensures ok <==> Sum(data) % TWO32 != 0 && Sum(data) % TWO32 % ONES == 0
  {
    NoOverflow(data);
    var s := Partial(0, data);
    var f := Fold(s);
    ok := f == ONES;
    assert s > 0 && s % ONES == 0 ==> (s - 1) % ONES == ONES - 1;
  }

  // ------------------------------------------------------------- properties

  /** The accumulator does not overflow on any packet with a pseudo-header in front. */
  lemma {:induction false} NoOverflow(data: seq<byte>)
    ensures Sum(data) <= ONES * ((|data| + 1) / 2)
    ensures |data| <= SAFE ==> Sum(data) < TWO32
  {
    if |data| > 1 {
      NoOverflow(data[2..]);
      assert (|data| + 1) / 2 == 1 + (|data[2..]| + 1) / 2;
    }
  }

  /** Summing an even piece and then the rest is summing the whole. */
  lemma {:induction false} SumAppend(a: seq<byte>, b: seq<byte>)
    requires |a| % 2 == 0
    ensures Sum(a + b) == Sum(a) + Sum(b)
  {
    if a == [] {
      assert a + b == b;
    } else {
      assert (a + b)[2..] == a[2..] + b;
      SumAppend(a[2..], b);
    }
  }

  /** A word of the data. */
  function WordAt(data: seq<byte>, k: nat): nat
    requires k + 1 < |data|
  {
    data[k] as int + 256 * data[k + 1] as int
  }

  function Replace(data: seq<byte>, k: nat, w: nat): seq<byte>
    requires k + 1 < |data| && w < WORD
  {
    data[k := w % 256][k + 1 := w / 256]
  }

  lemma {:induction false} SumReplace(data: seq<byte>, k: nat, w: nat)
    requires k % 2 == 0 && k + 1 < |data| && w < WORD
    ensures Sum(Replace(data, k, w)) + WordAt(data, k) == Sum(data) + w
  {
    var d := Replace(data, k, w);
    if k == 0 {
      assert d[2..] == data[2..];
    } else {
      SumReplace(data[2..], k - 2, w);
      assert d[2..] == Replace(data[2..], k - 2, w);
    }
  }

  /** Storing the checksum of data whose checksum field is zero makes it verify. */
  lemma StoredVerifies(data: seq<byte>, k: nat)
    requires k % 2 == 0 && k + 1 < |data| && WordAt(data, k) == 0
    ensures var s := Sum(Replace(data, k, ONES - Folded(Sum(data)))); s != 0 && s % ONES == 0
  {
    SumReplace(data, k, ONES - Folded(Sum(data)));
    hide Sum, Folded;
    Complement(Sum(data));
  }

  lemma Complement(s: nat)
    ensures s + (ONES - Folded(s)) > 0 && (s + (ONES - Folded(s))) % ONES == 0
  {
    if s > 0 {
      var q := (s - 1) / ONES;
      assert s + (ONES - Folded(s)) == ONES * (q + 1);
      Shift(0, q + 1);
    }
  }

  /** Changing one word of data that verifies is noticed, unless the new word has the same
      one's complement value; then it is not. */
  lemma ChangeNoticed(data: seq<byte>, k: nat, w: nat)
    requires k % 2 == 0 && k + 1 < |data| && w < WORD && Sum(data) != 0 && Sum(data) % ONES == 0
    ensures var s := Sum(Replace(data, k, w));
      s != 0 && s % ONES == 0 <==> s != 0 && w % ONES == WordAt(data, k) % ONES
  {
    SumReplace(data, k, w);
    var s, x := Sum(data), WordAt(data, k);
    Congruent(s, w, x);
  }

  lemma Congruent(s: nat, w: nat, x: nat)
    requires s % ONES == 0 && s + w >= x
    ensures (s + w - x) % ONES == 0 <==> w % ONES == x % ONES
  {
    var q := s / ONES;
    assert s == ONES * q;
  }

  /** The checksum over a pseudo-header and a segment, summed one after the other. */
  method WithPseudoHeader(pseudo: seq<byte>, segment: seq<byte>) returns (c: nat)
    requires |pseudo| == 12 && |segment| <= ONES
    ensures c == ONES - Folded(Sum(pseudo + segment))
  {
    SumAppend(pseudo, segment);
    NoOverflow(pseudo);
    NoOverflow(segment);
    hide Sum, Folded;
    var s := Partial(0, pseudo);
    assert s == Sum(pseudo);
    s := Partial(s, segment);
    assert s == Sum(pseudo + segment);
    var f := Fold(s);
    c := ONES - f;
  }

  /** What a byte counts at its place: once at an even one, 256 times at an odd one. */
  function Counts(place: nat, b: byte): nat { if place % 2 == 0 then b as int else 256 * b as int }

  /** The sum by places, the last one included. */
  ghost function ByPlace(data: seq<byte>): nat {
    if data == [] then 0 else ByPlace(data[..|data| - 1]) + Counts(|data| - 1, data[|data| - 1])
  }

  lemma {:induction false} SumByPlace(data: seq<byte>)
    ensures Sum(data) == ByPlace(data)
    decreases |data|
  {
    if |data| == 1 {
      assert ByPlace(data[..0]) == 0;
    } else if |data| > 1 {
      SumByPlace(data[2..]);
      FirstTwo(data);
      ByPlaceShift(data[..2], data[2..]);
      assert data == data[..2] + data[2..];
    }
  }

  lemma FirstTwo(data: seq<byte>)
    requires |data| >= 2
    ensures ByPlace(data[..2]) == data[0] as int + 256 * data[1] as int
  {
    assert data[..2][..1] == data[..1] && data[..1][..0] == [];
    assert ByPlace(data[..1]) == data[0] as int;
  }

  lemma {:induction false} ByPlaceShift(a: seq<byte>, b: seq<byte>)
    requires |a| % 2 == 0
    ensures ByPlace(a + b) == ByPlace(a) + ByPlace(b)
    decreases |b|
  {
    hide Counts;
    if b == [] {
      assert a + b == a;
    } else {
      var last := |b| - 1;
      ByPlaceShift(a, b[..last]);
      assert (a + b)[..|a| + last] == a + b[..last];
      SamePlace(|a|, last, b[last]);
    }
  }

  lemma SamePlace(n: nat, place: nat, b: byte)
    requires n % 2 == 0
    ensures Counts(n + place, b) == Counts(place, b)
  {
  }

  /** Folding keeps the remainder by 65535 and gives 0 for 0 only. */
  lemma FoldedExact(s: nat)
    ensures Folded(s) % ONES == s % ONES && Folded(s) <= ONES && (Folded(s) == 0 <==> s == 0)
  {
    if s > 0 {
      var q, r := (s - 1) / ONES, (s - 1) % ONES;
      assert s == ONES * q + (r + 1);
      Shift(r + 1, q);
    }
  }
}
