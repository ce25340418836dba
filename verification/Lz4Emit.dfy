/** Writing one sequence of a block, as both compressors do it: the token, a literal length
    with its extension, a wild copy of the literals, an offset, a match length. The bytes are
    described where they lie in the output buffer; `SequenceEmitted` shows that the reference
    decoder reads them back. */
module Lz4Emit {
  import opened Lz4Format
  import opened Lz4Copy

  /** The extension of the length `n` stands at `s`. */
  ghost predicate LengthAt(d: seq<byte>, s: nat, n: nat) {
    n >= RUN_MASK ==>
      var count := (n - RUN_MASK) / 255;
      s + count < |d| && d[s + count] == (n - RUN_MASK) % 255 && forall k :: s <= k < s + count ==> d[k] == 255
  }

  lemma LengthAtReads(d: seq<byte>, s: nat, n: nat)
    requires s + Extension(n) <= |d| && LengthAt(d, s, n)
    ensures LengthField(d, s, Min(n, 15)) == Run(n, s + Extension(n), true)
  {
    if n >= RUN_MASK {
      LengthRunReads(d, s, (n - RUN_MASK) / 255, (n - RUN_MASK) % 255);
    }
  }

  /** A length survives everything that leaves its bytes alone. */
  lemma LengthAtSame(d: seq<byte>, d': seq<byte>, s: nat, n: nat)
    requires s + Extension(n) <= |d| && s + Extension(n) <= |d'| && LengthAt(d, s, n)
    requires forall k :: s <= k < s + Extension(n) ==> d[k] == d'[k]
    ensures LengthAt(d', s, n)
  {
  }

  /** A token at `token` whose literal half is written: literals `data[anchor..start]` with
      their length in front of them, ending at `q`. */
  ghost predicate LiteralsAt(d: seq<byte>, token: nat, q: nat, data: seq<byte>, anchor: nat, start: nat) {
    && anchor <= start <= |data|
    && var ll := start - anchor;
       var p := token + 1 + Extension(ll);
       && q == p + ll && q <= |d|
       && d[token] == 16 * Min(ll, 15)
       && LengthAt(d, token + 1, ll)
       && d[p..q] == data[anchor..start]
  }

  /** All five parts of a sequence, from `token` to `next`. */
  ghost predicate SequenceParts(d: seq<byte>, token: nat, q: nat, next: nat, data: seq<byte>, anchor: nat, start: nat,
                                off: nat, mc: nat)
  {
    && anchor <= start <= |data|
    && var ll := start - anchor;
       var p := token + 1 + Extension(ll);
       && q == p + ll && next == q + 2 + Extension(mc) && next <= |d|
       && d[token] == 16 * Min(ll, 15) + Min(mc, 15)
       && LengthAt(d, token + 1, ll)
       && d[p..q] == data[anchor..start]
       && Read16(d, q) == off
       && LengthAt(d, q + 2, mc)
  }

  /** Completing the token and the match length behind literals and an offset. */
  lemma {:induction false} PartsComplete(d0: seq<byte>, d: seq<byte>, token: nat, q: nat, data: seq<byte>,
                                         anchor: nat, start: nat, off: nat, mc: nat)
    requires LiteralsAt(d0, token, q, data, anchor, start)
    requires q + 2 + Extension(mc) <= |d| == |d0| && Read16(d0, q) == off
    requires forall k :: 0 <= k < q + 2 && k != token ==> d[k] == d0[k]
    requires d[token] == d0[token] + Min(mc, 15) && LengthAt(d, q + 2, mc)
    ensures SequenceParts(d, token, q, q + 2 + Extension(mc), data, anchor, start, off, mc)
  {
    LengthAtSame(d0, d, token + 1, start - anchor);
    var p := token + 1 + Extension(start - anchor);
    assert d[p..q] == d0[p..q];
  }

  /** The `for (; len >= 255; ...)` loop that writes a length. */
  method WriteLength(dst: array<byte>, op0: nat, n: nat) returns (op: nat)
    requires n >= RUN_MASK && op0 + Extension(n) <= dst.Length
    modifies dst
    ensures op == op0 + Extension(n)
    ensures LengthAt(dst[..], op0, n)
    ensures forall k :: 0 <= k < dst.Length && !(op0 <= k < op) ==> dst[k] == old(dst[k])
  {
    var len := n - RUN_MASK;
    op := op0;
    while len >= 255
      invariant op0 <= op && 255 * (op - op0) + len == n - RUN_MASK && 0 <= len
      invariant forall k :: op0 <= k < op ==> dst[k] == 255
      invariant forall k :: 0 <= k < dst.Length && !(op0 <= k < op) ==> dst[k] == old(dst[k])
    {
      dst[op] := 255;
      op, len := op + 1, len - 255;
    }
    assert op - op0 == (n - RUN_MASK) / 255 && len == (n - RUN_MASK) % 255;
    dst[op] := len;
    op := op + 1;
  }

  /** The literal half of a token and the literal length. */
  method EmitRunLength(dst: array<byte>, token: nat, ll: nat) returns (op: nat)
    requires token + 1 + Extension(ll) <= dst.Length
    modifies dst
    ensures op == token + 1 + Extension(ll)
    ensures dst[token] == 16 * Min(ll, 15) && LengthAt(dst[..], token + 1, ll)
    ensures Below(dst, token)
  {
    op := token + 1;
    if ll >= RUN_MASK {
      dst[token] := 16 * RUN_MASK;
      op := WriteLength(dst, op, ll);
    } else {
      dst[token] := 16 * ll;
    }
  }

  /** Literals behind their length. */
  lemma {:induction false} LiteralsBehind(d0: seq<byte>, d: seq<byte>, token: nat, p: nat, q: nat, data: seq<byte>,
                                          anchor: nat, start: nat)
    requires anchor <= start <= |data| && p == token + 1 + Extension(start - anchor) && q == p + (start - anchor)
    requires p <= |d0| && q <= |d|
    requires d0[token] == 16 * Min(start - anchor, 15) && LengthAt(d0, token + 1, start - anchor)
    requires d[..p] == d0[..p] && d[p..q] == data[anchor..start]
    ensures LiteralsAt(d, token, q, data, anchor, start)
  {
    assert forall k :: 0 <= k < p ==> d[k] == d[..p][k] == d0[k];
    LengthAtSame(d0, d, token + 1, start - anchor);
  }

  /** Token, literal length and literals of a sequence. The wild copy of the literals may store
      up to eight bytes too many. */
  method EmitLiterals(dst: array<byte>, token: nat, data: seq<byte>, anchor: nat, start: nat) returns (op: nat)
    requires anchor <= start && start + 8 <= |data|
    requires token + 1 + Extension(start - anchor) + 8 <= dst.Length
    requires token + 1 + Extension(start - anchor) + (start - anchor) + 7 <= dst.Length
    modifies dst
    ensures op == token + 1 + Extension(start - anchor) + (start - anchor)
    ensures LiteralsAt(dst[..], token, op, data, anchor, start)
    ensures Below(dst, token)
  {
    var ll := start - anchor;
    op := EmitRunLength(dst, token, ll);
    ghost var d0 := dst[..];
    WildLoad(dst, op, data, anchor, op + ll, 8);
    assert dst[..token] == dst[..op][..token];
    LiteralsBehind(d0, dst[..], token, op, op + ll, data, anchor, start);
    op := op + ll;
  }

  /** Token, literal length and an exact copy of the literals that close a block. */
  method EmitLastLiterals(dst: array<byte>, token: nat, data: seq<byte>, anchor: nat, end: nat) returns (op: nat)
    requires anchor <= end <= |data|
    requires token + 1 + Extension(end - anchor) + (end - anchor) <= dst.Length
    modifies dst
    ensures op == token + 1 + Extension(end - anchor) + (end - anchor)
    ensures LiteralsAt(dst[..], token, op, data, anchor, end)
    ensures Below(dst, token)
  {
    var run := end - anchor;
    op := EmitRunLength(dst, token, run);
    ghost var d0 := dst[..];
    Load(dst, op, data, anchor, run);
    assert dst[..op] == d0[..op];
    assert dst[..token] == dst[..op][..token];
    LiteralsBehind(d0, dst[..], token, op, op + run, data, anchor, end);
    op := op + run;
  }

  /** LZ4_writeLE16 of an offset. */
  method EmitOffset(dst: array<byte>, op: nat, off: nat)
    requires op + 2 <= dst.Length && off <= DISTANCE_MAX
    modifies dst
    ensures dst[op] == off % 256 && dst[op + 1] == off / 256 && Read16(dst[..], op) == off
    ensures forall k :: 0 <= k < dst.Length && !(op <= k < op + 2) ==> dst[k] == old(dst[k])
  {
    dst[op], dst[op + 1] := off % 256, off / 256;
  }

  /** The five parts of a sequence, once they are all in place, are read back by the
      reference decoder. */
  lemma SequenceEmitted(d: seq<byte>, token: nat, q: nat, next: nat, data: seq<byte>, anchor: nat, start: nat,
                        off: nat, mc: nat)
    requires SequenceParts(d, token, q, next, data, anchor, start, off, mc)
    ensures var p := token + 1 + Extension(start - anchor);
            SequenceAt(d[..next], token, p, q, next, off, mc + MINMATCH) && d[..next][p..q] == data[anchor..start]
  {
    var b := d[..next];
    var ll := start - anchor;
    LengthAtSame(d, b, token + 1, ll);
    LengthAtSame(d, b, q + 2, mc);
    LengthAtReads(b, token + 1, ll);
    LengthAtReads(b, q + 2, mc);
  }

  lemma LastEmitted(d: seq<byte>, token: nat, q: nat, data: seq<byte>, anchor: nat, end: nat)
    requires LiteralsAt(d, token, q, data, anchor, end)
    ensures var p := token + 1 + Extension(end - anchor);
            LastSequenceAt(d[..q], token, p) && d[..q][p..] == data[anchor..end]
  {
    var b := d[..q];
    LengthAtSame(d, b, token + 1, end - anchor);
    LengthAtReads(b, token + 1, end - anchor);
  }

  // ---------------------------------------------------------------- true matches

  /** `data` has, at `start`, a match of `len` bytes `off` bytes back. */
  predicate TrueMatch(data: seq<byte>, start: nat, off: nat, len: nat) {
    1 <= off <= Min(DISTANCE_MAX, start) && start + len <= |data|
    && forall k :: start <= k < start + len ==> data[k] == data[k - off]
  }

  /** Where a compressor stands between two sequences: `op` bytes of output that decode to
      the first `anchor` bytes of the input, the last match having started at `m`. */
  ghost predicate Encoded(d: seq<byte>, op: nat, data: seq<byte>, anchor: nat, m: int) {
    op <= |d| && anchor <= |data| && -1 <= m <= anchor && Reaches(d[..op], data[..anchor], m)
  }

  /** One more sequence. */
  lemma EncodedNext(d0: seq<byte>, d: seq<byte>, token: nat, q: nat, next: nat, data: seq<byte>,
                    anchor: nat, start: nat, off: nat, mc: nat, m: int)
    requires Encoded(d0, token, data, anchor, m) && |data| < U32_SIZE
    requires token <= |d| && d[..token] == d0[..token]
    requires TrueMatch(data, start, off, mc + MINMATCH)
    requires SequenceParts(d, token, q, next, data, anchor, start, off, mc)
    ensures Encoded(d, next, data, start + mc + MINMATCH, start)
  {
    SequenceEmitted(d, token, q, next, data, anchor, start, off, mc);
    var p := token + 1 + Extension(start - anchor);
    assert d[..token] <= d[..next];
    ReachesNext(d[..token], d[..next], p, q, data, anchor, start, off, mc + MINMATCH, m);
  }

  /** The closing literals. */
  lemma EncodedLast(d0: seq<byte>, d: seq<byte>, token: nat, q: nat, data: seq<byte>, anchor: nat, end: nat, m: int)
    requires Encoded(d0, token, data, anchor, m) && |data| < U32_SIZE
    requires token <= |d| && d[..token] == d0[..token]
    requires LiteralsAt(d, token, q, data, anchor, end)
    ensures DecodeBlock(d[..q]) == Done(data[..end], m, end - anchor)
  {
    LastEmitted(d, token, q, data, anchor, end);
    assert d[..token] <= d[..q];
    ReachesLast(d[..token], d[..q], token + 1 + Extension(end - anchor), data, anchor, end, m);
  }

  // ---------------------------------------------------------------- sizes

  /** The bytes that one sequence takes. */
  function SequenceSize(ll: nat, mc: nat): nat {
    3 + Extension(ll) + ll + Extension(mc)
  }

  /** LZ4_compressBound, for inputs the codec supports. */
  function CompressBound(n: nat): nat {
    if n > MAX_INPUT_SIZE then 0 else n + n / 255 + 16
  }

  /** A sequence never takes more than 256/255 of the input it covers. */
  lemma SequenceIsSmall(ll: nat, mc: nat)
    ensures 255 * SequenceSize(ll, mc) <= 256 * (ll + mc + MINMATCH)
  {
  }

  /** So a block that kept this ratio up to `anchor` stays within LZ4_compressBound. */
  lemma LastRunFits(op: nat, anchor: nat, n: nat)
    requires anchor <= n <= MAX_INPUT_SIZE && 255 * op <= 256 * anchor
    ensures op + 1 + Extension(n - anchor) + (n - anchor) <= CompressBound(n)
  {
  }
}
