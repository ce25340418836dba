/** LZ4HC_encodeSequence and the closing literals of the high-compression encoder. */
module Lz4hcEncode {
  import opened Lz4Format
  import opened Lz4Copy
  import opened Lz4Emit
  import Fast = Lz4Fast

  /** The input, the output mode, and the end of the output the sequences may use. In
      fill-output mode this end lies five bytes before the real one. */
  datatype Job = Job(src: seq<byte>, mode: Fast.OutputMode, oend: int)

  function RealEnd(j: Job): int {
    if j.mode == Fast.FillOutput then j.oend + LASTLITERALS else j.oend
  }

  /** Where the encoder stands between two sequences. */
  ghost predicate Head(d: seq<byte>, op: nat, j: Job, anchor: nat, m: int) {
    && |j.src| <= MAX_INPUT_SIZE
    && Encoded(d, op, j.src, anchor, m)
    && 255 * op <= 256 * anchor
    && (m >= 0 ==> j.mode == Fast.NotLimited || op + LASTLITERALS <= j.oend)
    && (m < 0 ==> anchor == 0 && op == 0)
    && Fast.LegalSoFar(|j.src|, anchor, m)
    && (if j.mode == Fast.NotLimited then CompressBound(|j.src|) <= |d| else RealEnd(j) <= |d|)
  }

  /** A match of the input: where it starts, where its source starts, and its length. */
  datatype Match = Match(start: nat, ref: nat, len: nat) {
    function End(): nat {
      start + len
    }
  }

  /** What LZ4HC_encodeSequence asserts of its arguments, and what the end of a block asks for:
      a true match of at least four bytes at a distance of 1 to 65535 that starts no later than
      mflimit and ends no later than matchlimit. */
  ghost predicate Legal(src: seq<byte>, t: Match) {
    && t.len >= MINMATCH && t.ref < t.start && TrueMatch(src, t.start, t.start - t.ref, t.len)
    && t.start + MFLIMIT <= |src| && t.End() + LASTLITERALS <= |src|
  }

  /** When a sequence of so many literals and a match of this code is refused behind `op`: for want of room for
      the literals with their length, an offset, and the last literals with their token, or, behind
      the offset, for the length of the match and the last literals with their token. */
  predicate NoRoom(j: Job, op: nat, literals: nat, code: nat) {
    && j.mode != Fast.NotLimited
    && (op + 1 + literals + literals / 255 + 2 + 1 + 5 > j.oend
        || op + 1 + Extension(literals) + literals + 2 + code / 255 + 1 + 5 > j.oend)
  }

  /** No room for the last literals. */
  predicate LastTooLong(op: nat, literals: nat, end: int) {
    op + 1 + literals + (literals + 240) / 255 > end
  }

  /** The match length: pairs of 255s, at most one more, and the remainder. */
  method WriteMatchLength(dst: array<byte>, token: nat, op0: nat, mc: nat) returns (op: nat)
    requires token < op0 && op0 + Extension(mc) <= dst.Length && dst[token] % 16 == 0
    modifies dst
    ensures op == op0 + Extension(mc)
    ensures dst[token] == old(dst[token]) + Min(mc, 15)
    ensures LengthAt(dst[..], op0, mc)
    ensures forall k :: 0 <= k < op0 && k != token ==> dst[k] == old(dst[k])
  {
    var length: nat := mc;
    op := op0;
    if length >= RUN_MASK {
      dst[token] := dst[token] + RUN_MASK;
      length := length - RUN_MASK;
      while length >= 510
        invariant op0 <= op <= dst.Length && 255 * (op - op0) + length == mc - RUN_MASK
        invariant forall k :: op0 <= k < op ==> dst[k] == 255
        invariant forall k :: 0 <= k < op0 ==> dst[k] == if k == token then old(dst[k]) + 15 else old(dst[k])
      {
        dst[op], dst[op + 1] := 255, 255;
        op, length := op + 2, length - 510;
      }
      if length >= 255 {
        dst[op] := 255;
        op, length := op + 1, length - 255;
      }
      assert op - op0 == (mc - RUN_MASK) / 255 && length == (mc - RUN_MASK) % 255;
      dst[op] := length;
      op := op + 1;
    } else {
      dst[token] := dst[token] + length;
    }
  }

  lemma RoomForLiterals(op: nat, j: Job, anchor: nat, start: nat, length: nat)
    requires anchor <= start && start + MFLIMIT <= |j.src| <= MAX_INPUT_SIZE && 255 * op <= 256 * anchor
    requires if j.mode == Fast.NotLimited then CompressBound(|j.src|) <= length else RealEnd(j) <= length
    requires var ll := start - anchor; j.mode != Fast.NotLimited ==> op + 1 + ll / 255 + ll + 8 <= j.oend
    ensures var ll := start - anchor; var p := op + 1 + Extension(ll);
            p + 8 <= length && p + ll + 7 <= length && (j.mode != Fast.NotLimited ==> p + ll + 7 <= j.oend)
  {
  }

  lemma {:induction false} RoomForLength(op: nat, j: Job, anchor: nat, start: nat, mc: nat, length: nat)
    requires anchor <= start && start + mc + MINMATCH + LASTLITERALS <= |j.src| <= MAX_INPUT_SIZE
    requires 255 * op <= 256 * anchor
    requires if j.mode == Fast.NotLimited then CompressBound(|j.src|) <= length else RealEnd(j) <= length
    requires var q := op + 1 + Extension(start - anchor) + (start - anchor);
             j.mode != Fast.NotLimited ==> q + 2 + mc / 255 + 6 <= j.oend
    ensures var next := op + SequenceSize(start - anchor, mc);
            next <= length && (j.mode != Fast.NotLimited ==> next + LASTLITERALS <= j.oend)
            && 255 * next <= 256 * (start + mc + MINMATCH)
  {
    SequenceIsSmall(start - anchor, mc);
  }

  /** LZ4HC_encodeSequence. On overflow everything in front of the token is as it was. */
  method EncodeSequence(dst: array<byte>, op0: nat, j: Job, anchor: nat, t: Match, ghost m: int)
    returns (overflow: bool, op: nat)
    requires Head(dst[..], op0, j, anchor, m) && Legal(j.src, t) && anchor <= t.start
    modifies dst
    ensures overflow <==> NoRoom(j, op0, t.start - anchor, t.len - MINMATCH)
    ensures overflow ==> Head(dst[..], op0, j, anchor, m)
    ensures !overflow ==> Head(dst[..], op, j, t.End(), t.start)
    ensures !overflow ==> op == op0 + SequenceSize(t.start - anchor, t.len - MINMATCH)
  {
    ghost var d0 := dst[..];
    var token := op0;
    op := op0 + 1;
    var length := t.start - anchor;
    if j.mode != Fast.NotLimited && op + length / 255 + length + (2 + 1 + LASTLITERALS) > j.oend {
      return true, op;
    }
    RoomForLiterals(op0, j, anchor, t.start, dst.Length);
    op := EmitLiterals(dst, token, j.src, anchor, t.start);
    overflow, op := FinishSequence(dst, op0, op, j, anchor, t, m, d0);
  }

  /** Offset and match length of a sequence whose literals are written. */
  method FinishSequence(dst: array<byte>, token: nat, q: nat, j: Job, anchor: nat, t: Match, ghost m: int,
                        ghost d0: seq<byte>)
    returns (overflow: bool, op: nat)
    requires Head(d0, token, j, anchor, m) && |d0| == dst.Length && d0[..token] == dst[..token]
    requires Legal(j.src, t) && LiteralsAt(dst[..], token, q, j.src, anchor, t.start) && q + 2 <= dst.Length
    modifies dst
    ensures overflow <==> j.mode != Fast.NotLimited && q + 2 + (t.len - MINMATCH) / 255 + 1 + 5 > j.oend
    ensures overflow ==> Head(dst[..], token, j, anchor, m)
    ensures !overflow ==> Head(dst[..], op, j, t.End(), t.start) && op == q + 2 + Extension(t.len - MINMATCH)
  {
    ghost var d1 := dst[..];
    EmitOffset(dst, q, t.start - t.ref);
    Fast.LiteralsStay(d1, dst[..], token, q, j.src, anchor, t.start);
    assert dst[..token] == d1[..token];
    overflow, op := PutLength(dst, token, q, j, anchor, t, m, d0);
  }

  lemma HeadNext(d0: seq<byte>, d: seq<byte>, token: nat, q: nat, next: nat, j: Job, anchor: nat, t: Match, m: int)
    requires Head(d0, token, j, anchor, m) && |d0| == |d| && d0[..token] == d[..token]
    requires Legal(j.src, t)
    requires SequenceParts(d, token, q, next, j.src, anchor, t.start, t.start - t.ref, t.len - MINMATCH)
    requires 255 * next <= 256 * t.End() && (j.mode != Fast.NotLimited ==> next + LASTLITERALS <= j.oend)
    ensures Head(d, next, j, t.End(), t.start)
  {
    EncodedNext(d0, d, token, q, next, j.src, anchor, t.start, t.start - t.ref, t.len - MINMATCH, m);
  }

  method CompleteParts(dst: array<byte>, token: nat, q: nat, src: seq<byte>, anchor: nat, start: nat, ghost off: nat,
                       mc: nat)
    returns (op: nat)
    requires LiteralsAt(dst[..], token, q, src, anchor, start)
    requires q + 2 + Extension(mc) <= dst.Length && Read16(dst[..], q) == off
    modifies dst
    ensures Below(dst, token)
    ensures op == q + 2 + Extension(mc)
    ensures SequenceParts(dst[..], token, q, op, src, anchor, start, off, mc)
  {
    ghost var d := dst[..];
    op := WriteMatchLength(dst, token, q + 2, mc);
    PartsComplete(d, dst[..], token, q, src, anchor, start, off, mc);
  }

  method PutLength(dst: array<byte>, token: nat, q: nat, j: Job, anchor: nat, t: Match, ghost m: int,
                   ghost d0: seq<byte>)
    returns (overflow: bool, op: nat)
    requires Head(d0, token, j, anchor, m) && |d0| == dst.Length && d0[..token] == dst[..token]
    requires Legal(j.src, t) && LiteralsAt(dst[..], token, q, j.src, anchor, t.start)
    requires q + 2 <= dst.Length && Read16(dst[..], q) == t.start - t.ref
    modifies dst
    ensures overflow <==> j.mode != Fast.NotLimited && q + 2 + (t.len - MINMATCH) / 255 + 1 + 5 > j.oend
    ensures overflow ==> Head(dst[..], token, j, anchor, m)
    ensures !overflow ==> Head(dst[..], op, j, t.End(), t.start) && op == q + 2 + Extension(t.len - MINMATCH)
  {
    op := q + 2;
    var mc := t.len - MINMATCH;
    if j.mode != Fast.NotLimited && op + mc / 255 + (1 + LASTLITERALS) > j.oend {
      return true, op;
    }
    RoomForLength(token, j, anchor, t.start, mc, dst.Length);
    op := CompleteParts(dst, token, q, j.src, anchor, t.start, t.start - t.ref, mc);
    HeadNext(d0, dst[..], token, q, op, j, anchor, t, m);
    overflow := false;
  }

  // ---------------------------------------------------------------- the closing literals

  /** A finished block: it decodes to what was consumed, meets the end-of-block restrictions,
      and keeps to the budget and to LZ4_compressBound. */
  ghost predicate Block(b: seq<byte>, j: Job, consumed: nat) {
    && consumed <= |j.src| && |b| <= CompressBound(|j.src|)
    && (j.mode != Fast.FillOutput ==> consumed == |j.src|)
    && (j.mode != Fast.NotLimited ==> |b| <= RealEnd(j))
    && (|j.src| == 0 ==> b == [0])
    && (consumed < |j.src| ==> RealEnd(j) >= 0 && |b| + Fast.Slack(RealEnd(j)) >= RealEnd(j))
    && var d := DecodeBlock(b);
       d.Done? && d.out == j.src[..consumed] && EndRules(d)
  }

  /** The length of the last run. */
  method LastRun(j: Job, op: nat, anchor: nat, ghost m: int) returns (ok: bool, lastRun: nat)
    requires |j.src| <= MAX_INPUT_SIZE && anchor <= |j.src| && -1 <= m <= anchor && 255 * op <= 256 * anchor
    requires m >= 0 && j.mode != Fast.NotLimited ==> op + LASTLITERALS <= j.oend
    requires m < 0 ==> op == 0
    requires Fast.LegalSoFar(|j.src|, anchor, m) && (j.mode == Fast.FillOutput ==> RealEnd(j) >= 1)
    ensures !ok <==> j.mode == Fast.LimitedOutput && LastTooLong(op, |j.src| - anchor, RealEnd(j))
    ensures ok && anchor + lastRun < |j.src| ==>
              RealEnd(j) >= 0 && op + 1 + Extension(lastRun) + lastRun + Fast.Slack(RealEnd(j)) >= RealEnd(j)
    ensures ok ==> anchor + lastRun <= |j.src| && (j.mode != Fast.FillOutput ==> anchor + lastRun == |j.src|)
    ensures ok ==> op + 1 + Extension(lastRun) + lastRun <= CompressBound(|j.src|)
    ensures ok && j.mode != Fast.NotLimited ==> op + 1 + Extension(lastRun) + lastRun <= RealEnd(j)
    ensures ok && m >= 0 ==> lastRun >= LASTLITERALS && m + MFLIMIT <= anchor + lastRun
  {
    var n := |j.src|;
    lastRun := n - anchor;
    var litLength := (lastRun + 255 - RUN_MASK) / 255;
    LastRunFits(op, anchor, n);
    Fast.ExtensionFormula(lastRun);
    if j.mode != Fast.NotLimited && op + 1 + litLength + lastRun > RealEnd(j) {
      if j.mode == Fast.LimitedOutput {
        return false, 0;
      }
      Fast.ShrunkRun(op, lastRun, RealEnd(j));
      lastRun := RealEnd(j) - op - 1;
      litLength := (lastRun + 255 - RUN_MASK) / 255;
      lastRun := lastRun - litLength;
      Fast.ExtensionMonotone(lastRun, n - anchor);
    }
    ok := true;
  }

  /** _last_literals */
  method EncodeLast(dst: array<byte>, j: Job, op: nat, anchor: nat, ghost m: int) returns (r: nat, consumed: nat)
    requires Head(dst[..], op, j, anchor, m) && (j.mode == Fast.FillOutput ==> RealEnd(j) >= 1)
    modifies dst
    ensures r == 0 <==> j.mode == Fast.LimitedOutput && LastTooLong(op, |j.src| - anchor, RealEnd(j))
    ensures r == 0 ==> dst[..] == old(dst[..])
    ensures r > 0 ==> r <= dst.Length && Block(dst[..r], j, consumed)
    ensures r > 0 ==> anchor <= consumed && DecodeBlock(dst[..r]).lastRun == consumed - anchor
    ensures r > 0 ==> r == op + 1 + Extension(consumed - anchor) + (consumed - anchor)
  {
    var ok, lastRun := LastRun(j, op, anchor, m);
    if !ok {
      return 0, 0;
    }
    r := Fast.CloseBlock(dst, op, j.src, anchor, anchor + lastRun, m);
    consumed := anchor + lastRun;
  }
}
