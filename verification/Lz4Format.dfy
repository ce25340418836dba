/** The LZ4 block format: a byte-at-a-time reference decoder, the encoding of one
    sequence, and the lemma that ties the two together. Everything that compresses or
    decompresses in this project is proved against this module. */
module Lz4Format {
  import Bytes

  type byte = Bytes.byte

  const MINMATCH := 4
  const LASTLITERALS := 5
  const MFLIMIT := 12
  const RUN_MASK := 15
  const DISTANCE_MAX := 65535
  const MAX_INPUT_SIZE := 0x7E000000
  const U32_SIZE := 0x1_0000_0000

  function Min(a: int, b: int): int {
    if a <= b then a else b
  }

  // ---------------------------------------------------------------- length fields

  /** A length read from a block: its value, where reading stopped, and whether a
      closing byte was seen before the block ended. */
  datatype Run = Run(sum: nat, next: nat, complete: bool)

  function LengthRun(src: seq<byte>, ip: nat): (r: Run)
    requires ip <= |src|
    ensures ip <= r.next <= |src|
    ensures r.complete ==> ip < r.next
    decreases |src| - ip
  {
    if ip == |src| then Run(0, ip, false)
    else if src[ip] < 255 then Run(src[ip], ip + 1, true)
    else
      var r := LengthRun(src, ip + 1);
      Run(255 + r.sum, r.next, r.complete)
  }

  function LengthField(src: seq<byte>, ip: nat, nibble: nat): (r: Run)
    requires ip <= |src|
    ensures ip <= r.next <= |src|
  {
    if nibble < RUN_MASK then Run(nibble, ip, true)
    else
      var r := LengthRun(src, ip);
      Run(RUN_MASK + r.sum, r.next, r.complete)
  }

  /** `count` bytes of 255 and one byte `last` below that: the extension of a length. */
  lemma {:induction false} LengthRunReads(src: seq<byte>, ip: nat, count: nat, last: byte)
    requires ip + count < |src| && last < 255
    requires forall k :: ip <= k < ip + count ==> src[k] == 255
    requires src[ip + count] == last
    ensures LengthRun(src, ip) == Run(255 * count + last, ip + count + 1, true)
    decreases count
  {
    if count > 0 {
      LengthRunReads(src, ip + 1, count - 1, last);
    }
  }

  /** A complete length reads the same whatever follows it. */
  lemma {:induction false} LengthRunStable(src: seq<byte>, tail: seq<byte>, ip: nat)
    requires ip <= |src| && LengthRun(src, ip).complete
    ensures LengthRun(src + tail, ip) == LengthRun(src, ip)
    decreases |src| - ip
  {
    if src[ip] == 255 {
      LengthRunStable(src, tail, ip + 1);
    }
  }

  // ---------------------------------------------------------------- match copy

  /** Extends `out` by `len` bytes, each one copied from `off` bytes before it. */
  function CopyMatch(out: seq<byte>, off: nat, len: nat): (r: seq<byte>)
    requires 1 <= off <= |out|
    ensures |r| == |out| + len
    decreases len
  {
    if len == 0 then out
    else
      var p := CopyMatch(out, off, len - 1);
      p + [p[|p| - off]]
  }

  /** A sequence that extends `out` and repeats itself at distance `off` from there on
      is what copying byte by byte produces. */
  lemma {:induction false} CopyMatchUnique(out: seq<byte>, off: nat, len: nat, r: seq<byte>)
    requires 1 <= off <= |out|
    requires |r| == |out| + len && r[..|out|] == out
    requires forall k :: |out| <= k < |r| ==> r[k] == r[k - off]
    ensures r == CopyMatch(out, off, len)
    decreases len
  {
    if len == 0 {
      assert r == r[..|out|];
    } else {
      var p := r[..|r| - 1];
      assert p[..|out|] == r[..|out|];
      CopyMatchUnique(out, off, len - 1, p);
      assert r == p + [r[|r| - 1]];
    }
  }

  lemma {:induction false} CopyMatchShorter(out: seq<byte>, off: nat, len: nat, less: nat)
    requires 1 <= off <= |out| && less <= len
    ensures CopyMatch(out, off, less) == CopyMatch(out, off, len)[..|out| + less]
    decreases len
  {
    var r := CopyMatch(out, off, len);
    if less < len {
      CopyMatchShorter(out, off, len - 1, less);
      var p := CopyMatch(out, off, len - 1);
      assert r[..|p|] == p;
      assert p[..|out| + less] == r[..|out| + less];
    } else {
      assert r == r[..|out| + less];
    }
  }

  // ---------------------------------------------------------------- reference decoder

  /** What decoding a block gives. `Done` carries the decoded bytes, the position at which
      the last match starts (-1 without a match) and the length of the last literal run.
      `Excluded` marks the two inputs on which the 32-bit decoder is allowed to differ
      from the format: a match at offset 0 and a length whose extension reaches 2^32. */
  datatype Outcome =
    | Done(out: seq<byte>, lastMatch: int, lastRun: nat)
    | Malformed
    | Excluded

  /** The decoder at a token; `m` is the start of the last match so far. */
  function Decode(src: seq<byte>, ip: nat, out: seq<byte>, m: int): Outcome
    requires ip <= |src|
    decreases |src| - ip, 3
  {
    if ip == |src| then Malformed
    else
      var f := LengthField(src, ip + 1, src[ip] / 16);
      if f.sum >= RUN_MASK + U32_SIZE then Excluded
      else if !f.complete then Malformed
      else DecodeLiterals(src, src[ip] % 16, f.next, f.sum, out, m)
  }

  /** The decoder in front of `len` literals. */
  function DecodeLiterals(src: seq<byte>, nibble: nat, ip: nat, len: nat, out: seq<byte>, m: int): Outcome
    requires ip <= |src|
    decreases |src| - ip, 2
  {
    if ip + len > |src| then Malformed
    else if ip + len == |src| then Done(out + src[ip..], m, len)
    else DecodeOffset(src, nibble, ip + len, out + src[ip..ip + len])
  }

  /** A little-endian 16-bit read. */
  function Read16(src: seq<byte>, ip: nat): (r: nat)
    requires ip + 2 <= |src|
    ensures r <= DISTANCE_MAX
  {
    var low: int := src[ip];
    var high: int := src[ip + 1];
    low + 256 * high
  }

  /** The decoder in front of a two-byte offset. */
  function DecodeOffset(src: seq<byte>, nibble: nat, ip: nat, out: seq<byte>): Outcome
    requires ip <= |src|
    decreases |src| - ip, 1
  {
    if ip + 2 > |src| then Malformed
    else DecodeMatch(src, nibble, ip + 2, Read16(src, ip), out)
  }

  /** The decoder in front of a match length. */
  function DecodeMatch(src: seq<byte>, nibble: nat, ip: nat, off: nat, out: seq<byte>): Outcome
    requires ip <= |src|
    decreases |src| - ip, 5
  {
    var f := LengthField(src, ip, nibble);
    if f.sum >= RUN_MASK + U32_SIZE then Excluded
    else if !f.complete then Malformed
    else DecodeCopy(src, f.next, off, f.sum + MINMATCH, out)
  }

  /** The decoder in front of the copy of a match. */
  function DecodeCopy(src: seq<byte>, ip: nat, off: nat, len: nat, out: seq<byte>): Outcome
    requires ip <= |src|
    decreases |src| - ip, 4
  {
    if off == 0 then Excluded
    else if off > |out| then Malformed
    else Decode(src, ip, CopyMatch(out, off, len), |out|)
  }

  function DecodeBlock(src: seq<byte>): Outcome {
    Decode(src, 0, [], -1)
  }

  /** The end-of-block restrictions of the format: with a match in the block, the last five
      bytes are literals and the last match starts at least twelve bytes before the end. */
  predicate EndRules(d: Outcome)
    requires d.Done?
  {
    d.lastMatch >= 0 ==> d.lastRun >= LASTLITERALS && d.lastMatch + MFLIMIT <= |d.out|
  }

  /** A block that decodes past `q` has a well-formed match there. */
  lemma DecodedMatch(src: seq<byte>, nibble: nat, q: nat, lits: seq<byte>) returns (off: nat, g: Run)
    requires q <= |src|
    requires DecodeOffset(src, nibble, q, lits).Done?
    ensures q + 2 <= |src| && off == Read16(src, q) && 1 <= off <= |lits|
    ensures g == LengthField(src, q + 2, nibble) && g.complete && g.sum < RUN_MASK + U32_SIZE
    ensures DecodeOffset(src, nibble, q, lits) == Decode(src, g.next, CopyMatch(lits, off, g.sum + MINMATCH), |lits|)
  {
    off := Read16(src, q);
    g := LengthField(src, q + 2, nibble);
    assert DecodeOffset(src, nibble, q, lits) == DecodeMatch(src, nibble, q + 2, off, lits);
    assert DecodeMatch(src, nibble, q + 2, off, lits) == DecodeCopy(src, g.next, off, g.sum + MINMATCH, lits);
  }

  /** Decoding only ever appends. */
  lemma {:induction false} DecodeAppends(src: seq<byte>, ip: nat, out: seq<byte>, m: int)
    requires ip <= |src|
    requires Decode(src, ip, out, m).Done?
    ensures out <= Decode(src, ip, out, m).out
    decreases |src| - ip
  {
    var nibble := src[ip] % 16;
    var f := LengthField(src, ip + 1, src[ip] / 16);
    assert Decode(src, ip, out, m) == DecodeLiterals(src, nibble, f.next, f.sum, out, m);
    var q := f.next + f.sum;
    if q < |src| {
      var lits := out + src[f.next..q];
      var off, g := DecodedMatch(src, nibble, q, lits);
      CopyMatchShorter(lits, off, g.sum + MINMATCH, 0);
      var next := CopyMatch(lits, off, g.sum + MINMATCH);
      assert next[..|lits|] == lits;
      assert lits[..|out|] == out;
      DecodeAppends(src, g.next, next, |lits|);
      assert next <= Decode(src, g.next, next, |lits|).out;
    }
  }

  /** In a block that meets the end-of-block restrictions, a token that follows a match
      still has a token and five literals in front of it. */
  lemma {:induction false} TailRoom(src: seq<byte>, ip: nat, out: seq<byte>, m: int)
    requires ip <= |src| && 0 <= m <= |out|
    requires Decode(src, ip, out, m).Done? && EndRules(Decode(src, ip, out, m))
    ensures ip + 1 + LASTLITERALS <= |src|
    ensures |out| + LASTLITERALS <= |Decode(src, ip, out, m).out|
    ensures m + MFLIMIT <= |Decode(src, ip, out, m).out|
    decreases |src| - ip
  {
    var nibble := src[ip] % 16;
    var f := LengthField(src, ip + 1, src[ip] / 16);
    assert Decode(src, ip, out, m) == DecodeLiterals(src, nibble, f.next, f.sum, out, m);
    var q := f.next + f.sum;
    if q < |src| {
      var lits := out + src[f.next..q];
      var off, g := DecodedMatch(src, nibble, q, lits);
      TailRoom(src, g.next, CopyMatch(lits, off, g.sum + MINMATCH), |lits|);
    }
  }

  // ---------------------------------------------------------------- encoding

  /** The number of extension bytes that a length needs. */
  function Extension(n: nat): nat {
    if n < RUN_MASK then 0 else (n - RUN_MASK) / 255 + 1
  }

  /** The bytes from `ip` to `next` are one sequence: a token, a literal length that ends
      at `p`, literals from `p` to `q`, the offset, and a match length that ends at `next`. */
  predicate SequenceAt(b: seq<byte>, ip: nat, p: nat, q: nat, next: nat, off: nat, len: nat) {
    && ip < p <= q && q + 2 <= next <= |b| && len >= MINMATCH
    && LengthField(b, ip + 1, b[ip] / 16) == Run(q - p, p, true)
    && Read16(b, q) == off
    && LengthField(b, q + 2, b[ip] % 16) == Run(len - MINMATCH, next, true)
  }

  /** The bytes from `ip` to the end are a literal run that starts at `p`. */
  predicate LastSequenceAt(b: seq<byte>, ip: nat, p: nat) {
    && ip < p <= |b|
    && LengthField(b, ip + 1, b[ip] / 16) == Run(|b| - p, p, true)
  }

  /** The reference decoder in front of a sequence. */
  lemma DecodeSequence(src: seq<byte>, ip: nat, p: nat, q: nat, next: nat, off: nat, len: nat, out: seq<byte>, m: int)
    requires SequenceAt(src, ip, p, q, next, off, len)
    requires q - p < RUN_MASK + U32_SIZE && len - MINMATCH < RUN_MASK + U32_SIZE && 1 <= off <= |out| + (q - p)
    ensures Decode(src, ip, out, m)
            == Decode(src, next, CopyMatch(out + src[p..q], off, len), |out| + (q - p))
  {
    var nibble := src[ip] % 16;
    var lits := out + src[p..q];
    assert Decode(src, ip, out, m) == DecodeLiterals(src, nibble, p, q - p, out, m);
    assert DecodeLiterals(src, nibble, p, q - p, out, m) == DecodeOffset(src, nibble, q, lits);
    assert DecodeOffset(src, nibble, q, lits) == DecodeMatch(src, nibble, q + 2, off, lits);
    assert DecodeMatch(src, nibble, q + 2, off, lits) == DecodeCopy(src, next, off, len, lits);
  }

  /** And in front of the last literals. */
  lemma {:induction false} DecodeLast(src: seq<byte>, ip: nat, p: nat, out: seq<byte>, m: int)
    requires LastSequenceAt(src, ip, p) && |src| - p < RUN_MASK + U32_SIZE
    ensures Decode(src, ip, out, m) == Done(out + src[p..], m, |src| - p)
  {
    assert Decode(src, ip, out, m) == DecodeLiterals(src, src[ip] % 16, p, |src| - p, out, m);
  }

  lemma SequenceStable(b: seq<byte>, tail: seq<byte>, ip: nat, p: nat, q: nat, next: nat, off: nat, len: nat)
    requires SequenceAt(b, ip, p, q, next, off, len)
    ensures SequenceAt(b + tail, ip, p, q, next, off, len)
    ensures (b + tail)[p..q] == b[p..q]
  {
    if b[ip] / 16 == RUN_MASK {
      LengthRunStable(b, tail, ip + 1);
    }
    if b[ip] % 16 == RUN_MASK {
      LengthRunStable(b, tail, q + 2);
    }
  }

  /** Whatever follows the bytes `b`, the reference decoder passes through them having
      produced `out`, with its last match at `m`. */
  ghost predicate Reaches(b: seq<byte>, out: seq<byte>, m: int) {
    forall tail: seq<byte> :: Decode(b + tail, 0, [], -1) == Decode(b + tail, |b|, out, m)
  }

  lemma {:induction false} ReachesStart()
    ensures Reaches([], [], -1)
  {
    forall tail: seq<byte>
      ensures Decode([] + tail, 0, [], -1) == Decode([] + tail, 0, [], -1)
    {
    }
  }

  lemma {:induction false} PassSequence(b: seq<byte>, b': seq<byte>, p: nat, q: nat, off: nat, len: nat, out: seq<byte>,
                                        m: int, tail: seq<byte>)
    requires b <= b' && SequenceAt(b', |b|, p, q, |b'|, off, len)
    requires q - p < U32_SIZE && len < U32_SIZE && 1 <= off <= |out| + (q - p)
    requires Reaches(b, out, m)
    ensures Decode(b' + tail, 0, [], -1)
            == Decode(b' + tail, |b'|, CopyMatch(out + b'[p..q], off, len), |out| + (q - p))
  {
    assert b' + tail == b + (b'[|b|..] + tail);
    SequenceStable(b', tail, |b|, p, q, |b'|, off, len);
    DecodeSequence(b' + tail, |b|, p, q, |b'|, off, len, out, m);
  }

  /** Appending a sequence that stands for a true match to an encoded prefix of `data`. */
  lemma ReachesNext(b: seq<byte>, b': seq<byte>, p: nat, q: nat, data: seq<byte>, anchor: nat, start: nat, off: nat,
                    len: nat, m: int)
    requires b <= b' && SequenceAt(b', |b|, p, q, |b'|, off, len)
    requires anchor <= start && start + len <= |data| < U32_SIZE
    requires b'[p..q] == data[anchor..start]
    requires 1 <= off <= start
    requires forall k :: start <= k < start + len ==> data[k] == data[k - off]
    requires Reaches(b, data[..anchor], m)
    ensures Reaches(b', data[..start + len], start)
  {
    CopyMatchUnique(data[..start], off, len, data[..start + len]);
    assert data[..anchor] + data[anchor..start] == data[..start];
    forall tail: seq<byte>
      ensures Decode(b' + tail, 0, [], -1) == Decode(b' + tail, |b'|, data[..start + len], start)
    {
      PassSequence(b, b', p, q, off, len, data[..anchor], m, tail);
    }
  }

  /** Closing a block. */
  lemma ReachesLast(b: seq<byte>, b': seq<byte>, p: nat, data: seq<byte>, anchor: nat, end: nat, m: int)
    requires b <= b' && LastSequenceAt(b', |b|, p)
    requires anchor <= end <= |data| < U32_SIZE
    requires b'[p..] == data[anchor..end]
    requires Reaches(b, data[..anchor], m)
    ensures DecodeBlock(b') == Done(data[..end], m, end - anchor)
  {
    assert b' == b + b'[|b|..];
    DecodeLast(b', |b|, p, data[..anchor], m);
    assert data[..anchor] + data[anchor..end] == data[..end];
  }
}
