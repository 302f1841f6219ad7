/** What the other modules share: sizes, bytes, optional values, searching, counting and
    memcpy. */
module Common {

  const INT_MAX := 0x7FFF_FFFF
  const TWO31 := 0x8000_0000
  const TWO32 := 0x1_0000_0000
  const PAGE := 4096       // bytes of a page
  const MAX_TASKS := 256   // slots of the task pool

  type byte = b: int | 0 <= b < 256

  datatype Option<+T> = None | Some(value: T)

  function One(b: bool): nat { if b then 1 else 0 }

  /** The first place of x, or the length. */
  function First<T(==)>(s: seq<T>, x: T): (i: nat)
    ensures i <= |s| && (i < |s| ==> s[i] == x) && forall j :: 0 <= j < i ==> s[j] != x
  {
    if s == [] || s[0] == x then 0 else 1 + First(s[1..], x)
  }

  /** Two sets that agree but for t. */
  lemma Differ(a: set<nat>, b: set<nat>, t: nat)
    requires a - {t} == b - {t}
    ensures |a| + One(t in b) == |b| + One(t in a)
  {
    assert |a - {t}| == |a| - One(t in a);
    assert |b - {t}| == |b| - One(t in b);
  }

  /** memcpy into a buffer. */
  method CopyIn(buf: array<byte>, at: nat, data: seq<byte>)
    requires at + |data| <= buf.Length
    modifies buf
    ensures forall j :: 0 <= j < buf.Length ==>
              buf[j] == if at <= j < at + |data| then data[j - at] else old(buf[j])
  {
    for k := 0 to |data|
      invariant forall j :: 0 <= j < buf.Length ==>
                  buf[j] == if at <= j < at + k then data[j - at] else old(buf[j])
    {
      buf[at + k] := data[k];
    }
  }
}
