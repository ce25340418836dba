/** The block copies of the codec. They write in strides of 8, 16 or 32 bytes and so run past
    the end they are given; what they promise is what lies below that end. Every store is an
    array store, so Dafny checks that none leaves the buffer, and `Move` demands of its
    callers what memcpy demands: the two ranges do not overlap. */
module Lz4Copy {
  import opened Lz4Format

  /** The first `n` bytes are as they were. */
  twostate predicate Below(dst: array<byte>, n: nat)
    requires n <= dst.Length
    reads dst
  {
    dst[..n] == old(dst[..n])
  }

  /** memcpy inside one buffer. */
  method Move(dst: array<byte>, d: nat, s: nat, n: nat)
    requires d + n <= dst.Length && s + n <= dst.Length
    requires s + n <= d || d + n <= s
    modifies dst
    ensures forall k :: 0 <= k < dst.Length && !(d <= k < d + n) ==> dst[k] == old(dst[k])
    ensures forall k :: d <= k < d + n ==> dst[k] == old(dst[k - d + s])
  {
    forall k | 0 <= k < n {
      dst[d + k] := dst[s + k];
    }
  }

  /** memcpy from another buffer. */
  method Load(dst: array<byte>, d: nat, src: seq<byte>, s: nat, n: nat)
    requires d + n <= dst.Length && s + n <= |src|
    modifies dst
    ensures forall k :: 0 <= k < dst.Length && !(d <= k < d + n) ==> dst[k] == old(dst[k])
    ensures forall k :: d <= k < d + n ==> dst[k] == src[k - d + s]
    ensures dst[d..d + n] == src[s..s + n]
  {
    forall k | 0 <= k < n {
      dst[d + k] := src[s + k];
    }
    assert forall k :: d <= k < d + n ==> dst[k] == src[k - d + s];
  }

  /** LZ4_wildCopy8 and LZ4_wildCopy32 from another buffer: at least one stride, then on
      until `e` is reached. The stores end before `e + stride`. */
  method WildLoad(dst: array<byte>, d0: nat, src: seq<byte>, s0: nat, e: nat, stride: nat)
    requires stride == 8 || stride == 32
    requires d0 <= e && d0 + stride <= dst.Length && e + stride - 1 <= dst.Length
    requires s0 + stride <= |src| && s0 + (e - d0) + stride - 1 <= |src|
    modifies dst
    ensures Below(dst, d0)
    ensures dst[d0..e] == src[s0..s0 + (e - d0)]
  {
    var d, s := d0, s0;
    Load(dst, d, src, s, stride);
    d, s := d + stride, s + stride;
    while d < e
      invariant d0 + stride <= d < e + stride || d == d0 + stride
      invariant s - s0 == d - d0
      invariant d <= dst.Length && s <= |src|
      invariant Below(dst, d0)
      invariant forall k :: d0 <= k < d ==> dst[k] == src[k - d0 + s0]
    {
      Load(dst, d, src, s, stride);
      d, s := d + stride, s + stride;
    }
  }

  /** From `from` up to `upto`, every byte equals the one `dist` before it. */
  ghost predicate Repeats(a: seq<byte>, from: nat, upto: nat, dist: nat) {
    dist <= from && upto <= |a| && forall k :: from <= k < upto ==> a[k] == a[k - dist]
  }

  /** LZ4_wildCopy8 inside one buffer. */
  method WildMove(dst: array<byte>, d0: nat, s0: nat, e: nat)
    requires s0 + 8 <= d0 && d0 + 8 <= dst.Length && e + 7 <= dst.Length
    modifies dst
    ensures Below(dst, d0)
    ensures Repeats(dst[..], d0, if e <= d0 then d0 else e, d0 - s0)
  {
    var d, s := d0, s0;
    Move(dst, d, s, 8);
    d, s := d + 8, s + 8;
    while d < e
      invariant d0 + 8 <= d <= dst.Length && (d < e + 8 || d == d0 + 8)
      invariant d - s == d0 - s0
      invariant Below(dst, d0)
      invariant Repeats(dst[..], d0, d, d0 - s0)
    {
      Move(dst, d, s, 8);
      d, s := d + 8, s + 8;
    }
  }

  /** LZ4_wildCopy32 inside one buffer: two 16-byte copies a stride. */
  method WildMove32(dst: array<byte>, d0: nat, s0: nat, e: nat)
    requires s0 + 16 <= d0 && d0 + 32 <= dst.Length && e + 31 <= dst.Length
    modifies dst
    ensures Below(dst, d0)
    ensures Repeats(dst[..], d0, if e <= d0 then d0 else e, d0 - s0)
  {
    var d, s := d0, s0;
    Move(dst, d, s, 16);
    Move(dst, d + 16, s + 16, 16);
    d, s := d + 32, s + 32;
    while d < e
      invariant d0 + 32 <= d <= dst.Length && (d < e + 32 || d == d0 + 32)
      invariant d - s == d0 - s0
      invariant Below(dst, d0)
      invariant Repeats(dst[..], d0, d, d0 - s0)
    {
      Move(dst, d, s, 16);
      Move(dst, d + 16, s + 16, 16);
      d, s := d + 32, s + 32;
    }
  }

  /** One byte at a time, the order in which overlapping bytes come out right. */
  method ByteMove(dst: array<byte>, d0: nat, s0: nat, e: nat)
    requires s0 <= d0 <= e <= dst.Length
    modifies dst
    ensures Below(dst, d0)
    ensures Repeats(dst[..], d0, e, d0 - s0)
    ensures forall k :: e <= k < dst.Length ==> dst[k] == old(dst[k])
  {
    var d, s := d0, s0;
    while d < e
      invariant d0 <= d <= e && d - s == d0 - s0
      invariant Below(dst, d0)
      invariant Repeats(dst[..], d0, d, d0 - s0)
      invariant forall k :: d <= k < dst.Length ==> dst[k] == old(dst[k])
    {
      dst[d] := dst[s];
      d, s := d + 1, s + 1;
    }
  }

  // ---------------------------------------------------------------- overlap tables

  /** inc32table */
  function Inc32(off: nat): (r: nat)
    requires off < 8
  {
    [0, 1, 2, 1, 0, 4, 4, 4][off]
  }

  /** dec64table */
  function Dec64(off: nat): (r: int)
    requires off < 8
  {
    [0, 0, 0, -1, -4, 1, 2, 3][off]
  }

  /** The distance between destination and source once eight bytes are out. */
  function Stretched(off: nat): int
    requires off < 8
  {
    8 + off - Inc32(off) + Dec64(off)
  }

  /** `dist` is `off`, or `off` more than a multiple of `off`. */
  predicate IsMultiple(dist: nat, off: nat)
    requires 1 <= off
  {
    dist == off || (dist > off && IsMultiple(dist - off, off))
  }

  /** What the two tables are for: the stretched distance is at least a word, and a
      multiple of the offset that leaves the first eight bytes reachable. */
  lemma {:induction false} StretchedIsPeriodic(off: nat)
    requires 1 <= off < 8
    ensures IsMultiple(Stretched(off), off) && IsMultiple(4 + off - Inc32(off), off)
    ensures 8 <= Stretched(off) <= 8 + off && off <= 4 + off - Inc32(off) <= 4 + off
  {
    if
    case off == 1 =>
    case off == 2 =>
    case off == 3 =>
    case off == 4 =>
    case off == 5 =>
    case off == 6 =>
    case off == 7 =>
  }

  /** A stretch that repeats at distance `off` repeats at every multiple of it. */
  lemma {:induction false} RepeatsMultiple(a: seq<byte>, from: nat, upto: nat, off: nat, k: nat, dist: nat)
    requires 1 <= off && Repeats(a, from, upto, off) && from <= k < upto
    requires IsMultiple(dist, off) && from + dist <= k + off
    ensures dist <= k && a[k] == a[k - dist]
    decreases dist
  {
    if dist > off {
      RepeatsMultiple(a, from, upto, off, k - off, dist - off);
    }
  }

  /** A stretch that repeats at distance `off`, continued at a multiple `dist` of that
      distance, repeats at distance `off` throughout. */
  lemma {:induction false} RepeatsShorter(a: seq<byte>, from: nat, mid: nat, upto: nat, off: nat, dist: nat)
    requires 1 <= off && IsMultiple(dist, off) && mid <= upto && from + dist <= mid + off
    requires Repeats(a, from, mid, off) && Repeats(a, mid, upto, dist)
    ensures Repeats(a, from, upto, off)
    decreases upto
  {
    if mid < upto {
      RepeatsShorter(a, from, mid, upto - 1, off, dist);
      var k := upto - 1;
      assert a[k] == a[k - dist];
      if dist > off {
        RepeatsMultiple(a, from, k, off, k - off, dist - off);
      }
    }
  }

  /** Four bytes copied one after the other. */
  method FirstFour(dst: array<byte>, op: nat, off: nat)
    requires off <= op && op + 8 <= dst.Length
    modifies dst
    ensures Below(dst, op)
    ensures forall k :: op + 4 <= k < dst.Length ==> dst[k] == old(dst[k])
    ensures Repeats(dst[..], op, op + 4, off)
  {
    var match0 := op - off;
    dst[op], dst[op + 1], dst[op + 2], dst[op + 3] := 0, 0, 0, 0;
    dst[op] := dst[match0];
    dst[op + 1] := dst[match0 + 1];
    dst[op + 2] := dst[match0 + 2];
    dst[op + 3] := dst[match0 + 3];
  }

  /** The second word of a short match is taken from a whole number of periods before. */
  lemma FirstEightRepeat(a: seq<byte>, op: nat, off: nat)
    requires 1 <= off < 8
    requires Repeats(a, op, op + 4, off) && Repeats(a, op + 4, op + 8, 4 + off - Inc32(off))
    ensures Repeats(a, op, op + 8, off)
  {
    StretchedIsPeriodic(off);
    RepeatsShorter(a, op, op + 4, op + 8, off, 4 + off - Inc32(off));
  }

  /** The first eight bytes of a match: byte by byte and by the table below a distance of
      eight, as one word from there on. Returns the source position that goes with `op + 8`.
      With a distance of 0 it only has to stay inside the buffer. */
  method FirstEight(dst: array<byte>, op: nat, off: nat) returns (match': nat)
    requires off <= op && op + 8 <= dst.Length
    modifies dst
    ensures Below(dst, op)
    ensures forall k :: op + 8 <= k < dst.Length ==> dst[k] == old(dst[k])
    ensures match' == op + 8 - if off < 8 then Stretched(off) else off
    ensures match' <= op
    ensures off >= 1 ==> Repeats(dst[..], op, op + 8, off)
  {
    if off < 8 {
      FirstFour(dst, op, off);
      var from := op - off + Inc32(off);
      Move(dst, op + 4, from, 4);
      match' := from - Dec64(off);
      if off >= 1 {
        assert Repeats(dst[..], op, op + 4, off);
        FirstEightRepeat(dst[..], op, off);
      }
    } else {
      Move(dst, op, op - off, 8);
      match' := op - off + 8;
    }
  }
}
