/** LZ4_decompress_generic on the path of LZ4_decompress_safe and LZ4_decompress_safe_partial
    (endOnInputSize, noDict, LZ4_FAST_DEC_LOOP = 1): two loops, the first of which leaves by
    jumping into the middle of the second, shortcuts, and copies that overshoot.

    The points between which the code jumps are the constructors of `Point`; what is left to
    decode at each of them is a continuation of the reference decoder, and every step is
    proved to keep the reference's answer. `dst.Length` is the output size, so the bounds
    checks of the array are the statement that nothing is stored outside of it. */
module Lz4Decompress {
  import opened Lz4Format
  import opened Lz4Copy

  const FASTLOOP_SAFE_DISTANCE := 64
  const MATCH_SAFEGUARD_DISTANCE := 12
  const WILDCOPYLENGTH := 8

  datatype LengthError = NoError | InitialError | LoopError

  /** `acc` is what the bytes of a length from `ip0` to `ip` add up to, all of them being 255. */
  ghost predicate ReadSoFar(src: seq<byte>, ip0: nat, ip: nat, acc: nat) {
    && ip0 <= ip <= |src|
    && var r := LengthRun(src, ip); LengthRun(src, ip0) == Run(acc + r.sum, r.next, r.complete)
  }

  lemma {:induction false} OneMoreByte(src: seq<byte>, ip0: nat, ip: nat, acc: nat)
    requires ReadSoFar(src, ip0, ip, acc) && ip < |src|
    ensures var s: int := src[ip];
            && (if s < 255 then LengthRun(src, ip0) == Run(acc + s, ip + 1, true)
                else ReadSoFar(src, ip0, ip + 1, acc + s))
            && acc + s <= LengthRun(src, ip0).sum && ip + 1 <= LengthRun(src, ip0).next
            && (acc % U32_SIZE + s) % U32_SIZE == (acc + s) % U32_SIZE
            && (LengthRun(src, ip0).sum < U32_SIZE ==> (acc + s) % U32_SIZE == acc + s)
  {
  }

  /** read_variable_length, with loop_check set. The sum is kept in 32 bits. */
  method ReadVariableLength(src: seq<byte>, ip0: nat, lencheck: int, initialCheck: bool)
    returns (length: nat, ip: nat, error: LengthError)
    requires lencheck <= |src| && (initialCheck || ip0 < |src|) && ip0 <= |src|
    ensures error.InitialError? <==> initialCheck && ip0 >= lencheck
    ensures !error.InitialError? ==> ip0 < ip <= |src| && length < U32_SIZE
    ensures error.NoError? ==> ip < lencheck && LengthRun(src, ip0).complete
                               && ip == LengthRun(src, ip0).next && length == LengthRun(src, ip0).sum % U32_SIZE
    ensures error.LoopError? ==>
              var r := LengthRun(src, ip0);
              && lencheck <= ip <= r.next
              && (r.sum < U32_SIZE ==> if src[ip - 1] < 255 then r == Run(length, ip, true) else 255 <= length <= r.sum)
  {
    length, ip, error := 0, ip0, NoError;
    if initialCheck && ip >= lencheck {
      return 0, ip, InitialError;
    }
    ghost var acc: nat := 0;
    while true
      invariant ip < |src| && length == acc % U32_SIZE && ReadSoFar(src, ip0, ip, acc)
      decreases |src| - ip
    {
      var s: int := src[ip];
      OneMoreByte(src, ip0, ip, acc);
      ip := ip + 1;
      acc := acc + s;
      length := (length + s) % U32_SIZE;
      if ip >= lencheck {
        return length, ip, LoopError;
      }
      if s != 255 {
        return;
      }
    }
  }

  // ---------------------------------------------------------------- points and what holds there

  datatype Point =
    | AtToken(ip: nat, op: nat)
    | AtLiterals(ip: nat, op: nat, nibble: nat, len: nat)
    | AtOffset(ip: nat, op: nat, nibble: nat)
    | AtMatchLength(ip: nat, op: nat, nibble: nat, off: nat)
    | AtCopy(ip: nat, op: nat, off: nat, len: nat)
    | Finished(op: nat)
    | Failed(ip: nat)

  /** A block this decoder has to accept. */
  ghost predicate Acceptable(ref: Outcome, cap: nat, partial: bool) {
    ref.Done? && EndRules(ref) && (partial || |ref.out| <= cap)
  }

  ghost predicate Tracks(ref: Outcome, rest: Outcome) {
    ref.Excluded? || ref == rest
  }

  /** The state invariant: `ref` is the reference decoding of the whole block, `d` the output
      buffer, `m` where the last match started. Past the literals of a sequence a full
      decoding keeps twelve bytes of room. */
  ghost predicate Inv(src: seq<byte>, d: seq<byte>, ref: Outcome, m: int, partial: bool, pt: Point) {
    match pt
    case AtToken(ip, op) =>
      ip < |src| && op <= |d| && -1 <= m <= op && Tracks(ref, Decode(src, ip, d[..op], m))
    case AtLiterals(ip, op, nibble, len) =>
      ip <= |src| && op <= |d| && nibble < 16 && -1 <= m <= op
      && Tracks(ref, DecodeLiterals(src, nibble, ip, len, d[..op], m))
    case AtOffset(ip, op, nibble) =>
      ip + 2 < |src| && Room(op, d, partial) && nibble < 16 && Tracks(ref, DecodeOffset(src, nibble, ip, d[..op]))
    case AtMatchLength(ip, op, nibble, off) =>
      ip < |src| && Room(op, d, partial) && nibble < 16 && off <= DISTANCE_MAX
      && Tracks(ref, DecodeMatch(src, nibble, ip, off, d[..op]))
    case AtCopy(ip, op, off, len) =>
      ip < |src| && Room(op, d, partial) && len >= MINMATCH && Tracks(ref, DecodeCopy(src, ip, off, len, d[..op]))
    case Finished(op) =>
      op <= |d|
      && (if partial then Acceptable(ref, |d|, partial) ==> op == Min(|d|, |ref.out|) && d[..op] == ref.out[..op]
          else ref.Excluded? || (ref.Done? && d[..op] == ref.out))
    case Failed(_) =>
      !Acceptable(ref, |d|, partial)
  }

  ghost predicate Room(op: nat, d: seq<byte>, partial: bool) {
    op + (if partial then 0 else MFLIMIT) <= |d|
  }

  // ---------------------------------------------------------------- what an acceptable block looks like

  /** Literals that are not the last ones leave room for an offset, a token and five
      literals in the block, and for twelve bytes in the output. */
  lemma {:induction false} RoomAfterLiterals(src: seq<byte>, nibble: nat, ip: nat, len: nat, out: seq<byte>, m: int)
    requires ip + len < |src|
    requires DecodeLiterals(src, nibble, ip, len, out, m).Done?
    requires EndRules(DecodeLiterals(src, nibble, ip, len, out, m))
    ensures ip + len + 2 + 1 + LASTLITERALS <= |src|
    ensures |out| + len + MFLIMIT <= |DecodeLiterals(src, nibble, ip, len, out, m).out|
  {
    var lits := out + src[ip..ip + len];
    var off, g := DecodedMatch(src, nibble, ip + len, lits);
    TailRoom(src, g.next, CopyMatch(lits, off, g.sum + MINMATCH), |lits|);
  }

  lemma {:induction false} RoomAfterCopy(src: seq<byte>, ip: nat, off: nat, len: nat, out: seq<byte>)
    requires ip <= |src| && DecodeCopy(src, ip, off, len, out).Done? && EndRules(DecodeCopy(src, ip, off, len, out))
    ensures 1 <= off <= |out| && ip + 1 + LASTLITERALS <= |src|
    ensures |out| + len + LASTLITERALS <= |DecodeCopy(src, ip, off, len, out).out|
  {
    TailRoom(src, ip, CopyMatch(out, off, len), |out|);
  }

  lemma {:induction false} RoomAfterMatchLength(src: seq<byte>, nibble: nat, ip: nat, off: nat, out: seq<byte>)
    requires ip <= |src| && DecodeMatch(src, nibble, ip, off, out).Done?
    requires EndRules(DecodeMatch(src, nibble, ip, off, out))
    ensures LengthField(src, ip, nibble).next + 1 + LASTLITERALS <= |src|
  {
    var f := LengthField(src, ip, nibble);
    assert DecodeMatch(src, nibble, ip, off, out) == DecodeCopy(src, f.next, off, f.sum + MINMATCH, out);
    RoomAfterCopy(src, f.next, off, f.sum + MINMATCH, out);
  }

  lemma {:induction false} LateMatchLength(src: seq<byte>, nibble: nat, ip: nat, ip': nat, off: nat, out: seq<byte>,
                                           ref: Outcome)
    requires ip <= |src| && nibble == RUN_MASK && |src| - LASTLITERALS + 1 <= ip' <= LengthRun(src, ip).next
    requires Tracks(ref, DecodeMatch(src, nibble, ip, off, out))
    ensures !(ref.Done? && EndRules(ref))
  {
    if ref.Done? && EndRules(ref) {
      RoomAfterMatchLength(src, nibble, ip, off, out);
    }
  }

  lemma {:induction false} LiteralsAreDecoded(src: seq<byte>, nibble: nat, ip: nat, len: nat, out: seq<byte>, m: int)
    requires ip <= |src| && DecodeLiterals(src, nibble, ip, len, out, m).Done?
    ensures ip + len <= |src| && out + src[ip..ip + len] <= DecodeLiterals(src, nibble, ip, len, out, m).out
  {
    if ip + len < |src| {
      var lits := out + src[ip..ip + len];
      var off, g := DecodedMatch(src, nibble, ip + len, lits);
      CopyIsDecoded(src, g.next, off, g.sum + MINMATCH, lits);
      CopyMatchShorter(lits, off, g.sum + MINMATCH, 0);
    }
  }

  lemma {:induction false} CopyIsDecoded(src: seq<byte>, ip: nat, off: nat, len: nat, out: seq<byte>)
    requires ip <= |src| && DecodeCopy(src, ip, off, len, out).Done?
    ensures 1 <= off <= |out| && CopyMatch(out, off, len) <= DecodeCopy(src, ip, off, len, out).out
  {
    DecodeAppends(src, ip, CopyMatch(out, off, len), |out|);
  }

  /** A stretch that repeats at distance `off` is a decoded match. */
  lemma {:induction false} CopiedMatch(d: seq<byte>, out: seq<byte>, off: nat, len: nat)
    requires 1 <= off <= |out| && |out| + len <= |d| && d[..|out|] == out
    requires Repeats(d, |out|, |out| + len, off)
    ensures d[..|out| + len] == CopyMatch(out, off, len)
  {
    assert d[..|out| + len][..|out|] == out;
    CopyMatchUnique(out, off, len, d[..|out| + len]);
  }

  // ---------------------------------------------------------------- fast loop

  /** The literal half of one round of the fast loop. */
  method FastLiterals(src: seq<byte>, dst: array<byte>, ip0: nat, op: nat, partial: bool, ghost ref: Outcome,
                      ghost m: int)
    returns (pt: Point)
    requires Inv(src, dst[..], ref, m, partial, AtToken(ip0, op))
    requires op + FASTLOOP_SAFE_DISTANCE <= dst.Length
    modifies dst
    ensures Inv(src, dst[..], ref, m, partial, pt)
    ensures pt.Failed? || pt.AtLiterals? || (pt.AtOffset? && pt.op + 32 <= dst.Length)
    ensures !pt.Failed? ==> pt.ip > ip0
  {
    var iend, oend := |src|, dst.Length;
    ghost var out := dst[..op];
    var token := src[ip0];
    var nibble := token % 16;
    var length, ip, failed := ReadLiteralLength(src, ip0, out, ref, m);
    if failed {
      return Failed(ip);
    }
    var cpy := op + length;
    if token / 16 == RUN_MASK {
      if cpy > oend - 32 || ip + length > iend - 32 {
        return AtLiterals(ip, op, nibble, length);
      }
      WildLoad(dst, op, src, ip, cpy, 32);
    } else {
      if ip > iend - (16 + 1) {
        return AtLiterals(ip, op, nibble, length);
      }
      Load(dst, op, src, ip, 16);
    }
    LiteralsCopied(src, dst[..], ref, nibble, ip, length, out, m);
    pt := AtOffset(ip + length, cpy, nibble);
  }

  /** The literal length of a token, with its extension. */
  method ReadLiteralLength(src: seq<byte>, ip0: nat, ghost out: seq<byte>, ghost ref: Outcome, ghost m: int)
    returns (length: nat, ip: nat, failed: bool)
    requires ip0 < |src| && Tracks(ref, Decode(src, ip0, out, m))
    ensures failed ==> !ref.Done?
    ensures !failed && src[ip0] / 16 != RUN_MASK ==> ip == ip0 + 1 && length == src[ip0] / 16
    ensures !failed ==> ip0 < ip <= |src| && Tracks(ref, DecodeLiterals(src, src[ip0] % 16, ip, length, out, m))
  {
    length, ip, failed := src[ip0] / 16, ip0 + 1, false;
    if length == RUN_MASK {
      var more, ip', error := ReadVariableLength(src, ip, |src| - RUN_MASK, true);
      if error.InitialError? {
        NoLongRunAtEnd(src, ip0, out, m);
        return 0, ip', true;
      }
      LiteralLength(src, ip0, ip', out, m, more, error);
      ip, length := ip', RUN_MASK + more;
    }
  }

  lemma {:induction false} LiteralsCopied(src: seq<byte>, d: seq<byte>, ref: Outcome, nibble: nat, ip: nat, len: nat,
                                          out: seq<byte>, m: int)
    requires ip + len < |src| && |out| + len <= |d| && d[..|out|] == out
    requires forall k :: |out| <= k < |out| + len ==> d[k] == src[k - |out| + ip]
    requires Tracks(ref, DecodeLiterals(src, nibble, ip, len, out, m))
    ensures Tracks(ref, DecodeOffset(src, nibble, ip + len, d[..|out| + len]))
  {
    assert d[..|out| + len] == out + src[ip..ip + len];
  }

  /** Fifteen literals do not fit behind a length byte this close to the end. */
  lemma {:induction false} NoLongRunAtEnd(src: seq<byte>, ip0: nat, out: seq<byte>, m: int)
    requires ip0 < |src| && src[ip0] / 16 == RUN_MASK && ip0 + 1 >= |src| - RUN_MASK
    ensures !Decode(src, ip0, out, m).Done?
  {
    var f := LengthField(src, ip0 + 1, RUN_MASK);
    assert f.complete ==> f.next + f.sum > |src|;
  }

  /** What the reference decoder makes of the literal length just read: the same literals,
      or, when reading stopped early on an unfinished run, no valid block. */
  lemma {:induction false} LiteralLength(src: seq<byte>, ip0: nat, ip: nat, out: seq<byte>, m: int, more: nat,
                                         error: LengthError)
    requires ip0 < |src| && src[ip0] / 16 == RUN_MASK && ip0 + 1 < ip <= |src| && more < U32_SIZE
    requires !error.InitialError?
    requires error.NoError? ==> LengthRun(src, ip0 + 1).complete
                                && ip == LengthRun(src, ip0 + 1).next && more == LengthRun(src, ip0 + 1).sum % U32_SIZE
    requires error.LoopError? ==>
               var r := LengthRun(src, ip0 + 1);
               && |src| - RUN_MASK <= ip <= r.next
               && (r.sum < U32_SIZE ==> if src[ip - 1] < 255 then r == Run(more, ip, true) else 255 <= more <= r.sum)
    ensures Tracks(Decode(src, ip0, out, m), DecodeLiterals(src, src[ip0] % 16, ip, RUN_MASK + more, out, m))
  {
  }

  /** LZ4_memcpy_using_offset: a match whose distance is below 16. */
  method CopyUsingOffset(dst: array<byte>, op: nat, off: nat, len: nat)
    requires off <= op && off < 16 && len >= MINMATCH
    requires op + 16 <= dst.Length && op + len + 7 <= dst.Length
    modifies dst
    ensures Below(dst, op)
    ensures off >= 1 ==> Repeats(dst[..], op, op + len, off)
  {
    dst[op], dst[op + 1], dst[op + 2], dst[op + 3] := 0, 0, 0, 0;
    if off == 1 || off == 2 || off == 4 {
      CopyPattern(dst, op, off, len);
    } else {
      CopyUsingOffsetBase(dst, op, off, len);
    }
  }

  /** The default case: LZ4_memcpy_using_offset_base. */
  method CopyUsingOffsetBase(dst: array<byte>, op: nat, off: nat, len: nat)
    requires off <= op && len >= MINMATCH
    requires op + 16 <= dst.Length && op + len + 7 <= dst.Length
    modifies dst
    ensures Below(dst, op)
    ensures off >= 1 ==> Repeats(dst[..], op, op + len, off)
  {
    var match' := FirstEight(dst, op, off);
    ghost var first := dst[..op + 8];
    WildMove(dst, op + 8, match', op + len);
    ContinuedMatch(first, dst[..], op, off, op + 8 - match', if len <= 8 then op + 8 else op + len);
  }

  /** The first eight bytes of a match and its continuation at the stretched distance. */
  lemma ContinuedMatch(first: seq<byte>, d: seq<byte>, op: nat, off: nat, dist: nat, end: nat)
    requires |first| == op + 8 <= end <= |d| && d[..op + 8] == first
    requires dist == if off < 8 then Stretched(off) else off
    requires off >= 1 ==> Repeats(first, op, op + 8, off)
    requires Repeats(d, op + 8, end, dist)
    ensures off >= 1 ==> Repeats(d, op, end, off)
  {
    if off >= 1 {
      forall k | op <= k < op + 8
        ensures d[k] == d[k - off]
      {
        assert d[k] == first[k] && d[k - off] == first[k - off];
      }
      if off < 8 {
        StretchedIsPeriodic(off);
        RepeatsShorter(d, op, op + 8, end, off, dist);
      }
    }
  }

  /** The eight bytes that a match at distance 1, 2 or 4 starts with. */
  ghost predicate IsPattern(v: seq<byte>, d: seq<byte>, s: nat, off: nat) {
    && |v| == 8 && 1 <= off <= 8 && s + off <= |d|
    && (forall i :: 0 <= i < off ==> v[i] == d[s + i])
    && (forall i :: off <= i < 8 ==> v[i] == v[i - off])
  }

  lemma PatternStays(v: seq<byte>, d: seq<byte>, d': seq<byte>, s: nat, off: nat)
    requires IsPattern(v, d, s, off) && s + off <= |d'|
    requires forall k :: s <= k < s + off ==> d'[k] == d[k]
    ensures IsPattern(v, d', s, off)
  {
  }

  lemma {:induction false} PatternRepeats(v: seq<byte>, d: seq<byte>, op: nat, off: nat)
    requires off <= op && (off == 1 || off == 2 || off == 4) && op + 8 <= |d|
    requires IsPattern(v, d, op - off, off)
    requires forall k :: op <= k < op + 8 ==> d[k] == v[k - op]
    ensures Repeats(d, op, op + 8, off)
  {
    forall k | op <= k < op + 8
      ensures d[k] == d[k - off]
    {
      assert d[k] == v[k - op];
    }
  }

  method BuildPattern(dst: array<byte>, s: nat, off: nat) returns (v: seq<byte>)
    requires (off == 1 || off == 2 || off == 4) && s + off <= dst.Length
    ensures IsPattern(v, dst[..], s, off)
  {
    if off == 1 {
      v := [dst[s], dst[s], dst[s], dst[s], dst[s], dst[s], dst[s], dst[s]];
    } else if off == 2 {
      v := [dst[s], dst[s + 1], dst[s], dst[s + 1], dst[s], dst[s + 1], dst[s], dst[s + 1]];
    } else {
      v := [dst[s], dst[s + 1], dst[s + 2], dst[s + 3], dst[s], dst[s + 1], dst[s + 2], dst[s + 3]];
    }
  }

  method FirstPattern(dst: array<byte>, op: nat, off: nat) returns (v: seq<byte>)
    requires off <= op && (off == 1 || off == 2 || off == 4) && op + 8 <= dst.Length
    modifies dst
    ensures Below(dst, op)
    ensures |v| == 8 && Repeats(dst[..], op, op + 8, off)
    ensures forall k :: op <= k < op + 8 ==> dst[k] == v[k - op]
  {
    v := BuildPattern(dst, op - off, off);
    ghost var before := dst[..];
    Load(dst, op, v, 0, 8);
    assert forall k :: 0 <= k < op ==> dst[..][k] == before[k];
    PatternStays(v, before, dst[..], op - off, off);
    PatternRepeats(v, dst[..], op, off);
  }

  /** Distances 1, 2 and 4: an eight-byte pattern stored over and over. */
  method CopyPattern(dst: array<byte>, op: nat, off: nat, len: nat)
    requires off <= op && (off == 1 || off == 2 || off == 4)
    requires op + 8 <= dst.Length && op + len + 7 <= dst.Length
    modifies dst
    ensures Below(dst, op)
    ensures Repeats(dst[..], op, op + len, off)
  {
    var v := FirstPattern(dst, op, off);
    ghost var end := if len <= 8 then op + 8 else op + len;
    ghost var first := dst[..op + 8];
    assert Repeats(first, op, op + 8, off);
    StorePattern(dst, op + 8, v, op + len);
    assert dst[..op + 8] == first;
    ContinuedMatch(first, dst[..], op, off, 8, end);
  }

  method StorePattern(dst: array<byte>, d0: nat, v: seq<byte>, e: nat)
    requires |v| == 8 && 8 <= d0 <= dst.Length && e + 7 <= dst.Length
    requires forall k :: d0 - 8 <= k < d0 ==> dst[k] == v[k - (d0 - 8)]
    modifies dst
    ensures Below(dst, d0)
    ensures Repeats(dst[..], d0, if e <= d0 then d0 else e, 8)
  {
    var d := d0;
    while d < e
      invariant d0 <= d <= dst.Length && (d < e + 8 || d == d0)
      invariant Below(dst, d0)
      invariant Repeats(dst[..], d0, d, 8)
      invariant forall k :: d - 8 <= k < d ==> dst[k] == v[k - (d - 8)]
    {
      Load(dst, d, v, 0, 8);
      d := d + 8;
    }
  }

  /** The extension of a match length. Failure means the block is not acceptable. */
  method ReadMatchLength(src: seq<byte>, ip0: nat, nibble: nat, ghost off: nat, ghost out: seq<byte>,
                         ghost ref: Outcome)
    returns (length: nat, ip: nat, failed: bool)
    requires ip0 < |src| && nibble < 16 && Tracks(ref, DecodeMatch(src, nibble, ip0, off, out))
    ensures failed ==> !(ref.Done? && EndRules(ref))
    ensures !failed && nibble != RUN_MASK ==> ip == ip0 && length == nibble + MINMATCH
    ensures !failed ==> ip0 <= ip < |src| && length >= MINMATCH && Tracks(ref, DecodeCopy(src, ip, off, length, out))
  {
    length, ip, failed := nibble + MINMATCH, ip0, false;
    if nibble == RUN_MASK {
      var more, ip', error := ReadVariableLength(src, ip0, |src| - LASTLITERALS + 1, false);
      if !error.NoError? {
        LateMatchLength(src, nibble, ip0, ip', off, out, ref);
        return 0, ip', true;
      }
      length, ip := RUN_MASK + more + MINMATCH, ip';
      assert DecodeMatch(src, nibble, ip0, off, out).Excluded?
          || DecodeMatch(src, nibble, ip0, off, out) == DecodeCopy(src, ip, off, length, out);
    }
  }

  /** Once the bytes of a match are in place the decoder is at the next token. */
  lemma {:induction false} MatchCopied(src: seq<byte>, d: seq<byte>, ref: Outcome, ip: nat, off: nat, len: nat,
                                       out: seq<byte>)
    requires ip <= |src| && off <= |out| && |out| + len <= |d| && d[..|out|] == out
    requires off >= 1 ==> Repeats(d, |out|, |out| + len, off)
    requires Tracks(ref, DecodeCopy(src, ip, off, len, out))
    ensures Tracks(ref, Decode(src, ip, d[..|out| + len], |out|))
  {
    if off >= 1 {
      CopiedMatch(d, out, off, len);
    }
  }

  /** The match half of one round of the fast loop. */
  method FastMatch(src: seq<byte>, dst: array<byte>, ip0: nat, op: nat, nibble: nat, partial: bool,
                   ghost ref: Outcome, ghost m: int)
    returns (pt: Point)
    requires Inv(src, dst[..], ref, m, partial, AtOffset(ip0, op, nibble))
    requires op + 32 <= dst.Length
    modifies dst
    ensures Inv(src, dst[..], ref, op, partial, pt)
    ensures pt.Failed? || pt.AtCopy? || (pt.AtToken? && pt.op + FASTLOOP_SAFE_DISTANCE <= dst.Length)
    ensures !pt.Failed? ==> pt.ip > ip0
  {
    var oend := dst.Length;
    ghost var out := dst[..op];
    var offset := Read16(src, ip0);
    assert Tracks(ref, DecodeMatch(src, nibble, ip0 + 2, offset, out));
    if nibble == RUN_MASK && offset > op {
      OffsetOutside(src, nibble, ip0 + 2, offset, out);
      return Failed(ip0 + 2);
    }
    var length, ip, failed := ReadMatchLength(src, ip0 + 2, nibble, offset, out, ref);
    if failed {
      return Failed(ip);
    }
    if op + length >= oend - FASTLOOP_SAFE_DISTANCE {
      return AtCopy(ip, op, offset, length);
    }
    if offset > op {
      return Failed(ip);
    }
    FastCopy(dst, op, offset, length, nibble != RUN_MASK);
    MatchCopied(src, dst[..], ref, ip, offset, length, out);
    pt := AtToken(ip, op + length);
  }

  lemma {:induction false} OffsetOutside(src: seq<byte>, nibble: nat, ip: nat, off: nat, out: seq<byte>)
    requires ip <= |src| && off > |out|
    ensures !DecodeMatch(src, nibble, ip, off, out).Done?
  {
    var f := LengthField(src, ip, nibble);
    assert !DecodeCopy(src, f.next, off, f.sum + MINMATCH, out).Done?;
  }

  /** The three ways in which the fast loop copies a match: 18 bytes at once when the length
      fits its nibble, the overlap cases, and strides of 32. */
  method FastCopy(dst: array<byte>, op: nat, off: nat, len: nat, short: bool)
    requires off <= op && MINMATCH <= len && (short ==> len <= 18)
    requires op + len + FASTLOOP_SAFE_DISTANCE <= dst.Length
    modifies dst
    ensures Below(dst, op)
    ensures off >= 1 ==> Repeats(dst[..], op, op + len, off)
  {
    var match0 := op - off;
    if short && off >= 8 {
      CopyEighteen(dst, op, off);
    } else if off < 16 {
      CopyUsingOffset(dst, op, off, len);
    } else {
      WildMove32(dst, op, match0, op + len);
    }
  }

  method CopyEighteen(dst: array<byte>, op: nat, off: nat)
    requires 8 <= off <= op && op + 18 <= dst.Length
    modifies dst
    ensures Below(dst, op)
    ensures Repeats(dst[..], op, op + 18, off)
  {
    var match0 := op - off;
    Move(dst, op, match0, 8);
    Move(dst, op + 8, match0 + 8, 8);
    Move(dst, op + 16, match0 + 16, 2);
  }

  // ---------------------------------------------------------------- main loop

  /** A token in the main loop, with the two-stage shortcut for short sequences. */
  method SafeToken(src: seq<byte>, dst: array<byte>, ip0: nat, op0: nat, partial: bool, ghost ref: Outcome,
                   ghost m: int)
    returns (pt: Point, ghost m': int)
    requires Inv(src, dst[..], ref, m, partial, AtToken(ip0, op0))
    modifies dst
    ensures Inv(src, dst[..], ref, m', partial, pt)
    ensures pt.Failed? || pt.AtLiterals? || pt.AtMatchLength? || pt.AtToken?
    ensures !pt.Failed? ==> pt.ip > ip0
  {
    var iend, oend := |src|, dst.Length;
    var shortiend := iend - 14 - 2;
    var shortoend := oend - 14 - 18;
    ghost var out := dst[..op0];
    m' := m;
    var token := src[ip0];
    var ip := ip0 + 1;
    var nibble := token % 16;
    if token / 16 != RUN_MASK && ip < shortiend && op0 <= shortoend {
      var length: nat := token / 16;
      Load(dst, op0, src, ip, 16);
      LiteralsCopied(src, dst[..], ref, nibble, ip, length, out, m);
      pt, m' := ShortcutMatch(src, dst, ip + length, op0 + length, nibble, partial, ref);
      return;
    }
    var length, ip', failed := ReadLiteralLength(src, ip0, out, ref, m);
    if failed {
      return Failed(ip'), m;
    }
    pt := AtLiterals(ip', op0, nibble, length);
  }

  /** A match that the shortcut copies. */
  method CopyShortMatch(src: seq<byte>, dst: array<byte>, ip: nat, op: nat, off: nat, len: nat, ghost ref: Outcome)
    returns (pt: Point)
    requires ip <= |src| && 8 <= off <= op && op + 18 <= dst.Length && len <= 18
    requires Tracks(ref, DecodeCopy(src, ip, off, len, dst[..op]))
    modifies dst
    ensures pt == AtToken(ip, op + len) && Tracks(ref, Decode(src, ip, dst[..op + len], op))
  {
    ghost var out := dst[..op];
    CopyEighteen(dst, op, off);
    MatchCopied(src, dst[..], ref, ip, off, len, out);
    assert dst[..][..op + len] == dst[..op + len];
    pt := AtToken(ip, op + len);
  }

  /** What the reference decoder does behind an offset and a match length of one nibble. */
  lemma {:induction false} ShortMatch(src: seq<byte>, nibble: nat, ip: nat, out: seq<byte>, ref: Outcome)
    requires ip + 2 < |src| && nibble < 16 && Tracks(ref, DecodeOffset(src, nibble, ip, out))
    ensures Tracks(ref, DecodeMatch(src, nibble, ip + 2, Read16(src, ip), out))
    ensures nibble != RUN_MASK ==> Tracks(ref, DecodeCopy(src, ip + 2, Read16(src, ip), nibble + MINMATCH, out))
  {
    var off := Read16(src, ip);
    assert nibble != RUN_MASK ==>
        DecodeMatch(src, nibble, ip + 2, off, out) == DecodeCopy(src, ip + 2, off, nibble + MINMATCH, out);
  }

  /** The second stage of the shortcut. */
  method ShortcutMatch(src: seq<byte>, dst: array<byte>, ip0: nat, op: nat, nibble: nat, partial: bool,
                       ghost ref: Outcome)
    returns (pt: Point, ghost m: int)
    requires Inv(src, dst[..], ref, -1, partial, AtOffset(ip0, op, nibble)) && op + 18 <= dst.Length
    modifies dst
    ensures Inv(src, dst[..], ref, m, partial, pt)
    ensures (pt.AtMatchLength? || pt.AtToken?) && pt.ip > ip0
  {
    ghost var out := dst[..op];
    var offset := Read16(src, ip0);
    var ip := ip0 + 2;
    m := op;
    ShortMatch(src, nibble, ip0, out, ref);
    if nibble != RUN_MASK && offset >= 8 && offset <= op {
      pt := CopyShortMatch(src, dst, ip, op, offset, nibble + MINMATCH, ref);
      return;
    }
    pt := AtMatchLength(ip, op, nibble, offset);
  }

  /** The literals of the main loop; near either end they must be the last ones. */
  method SafeLiterals(src: seq<byte>, dst: array<byte>, ip: nat, op: nat, nibble: nat, len: nat, partial: bool,
                      ghost ref: Outcome, ghost m: int)
    returns (pt: Point)
    requires Inv(src, dst[..], ref, m, partial, AtLiterals(ip, op, nibble, len))
    modifies dst
    ensures Inv(src, dst[..], ref, m, partial, pt)
    ensures pt.Failed? || pt.Finished? || (pt.AtOffset? && pt.ip >= ip)
  {
    var iend, oend := |src|, dst.Length;
    ghost var out := dst[..op];
    var cpy := op + len;
    if cpy > oend - MFLIMIT || ip + len > iend - (2 + 1 + LASTLITERALS) {
      if partial {
        pt := PartialLiterals(src, dst, ip, op, nibble, len, ref, m);
        return;
      }
      if ip + len != iend || cpy > oend {
        if Acceptable(ref, oend, partial) && ip + len < iend {
          RoomAfterLiterals(src, nibble, ip, len, out, m);
        }
        return Failed(ip);
      }
      Load(dst, op, src, ip, len);
      assert dst[..cpy] == out + src[ip..];
      return Finished(cpy);
    }
    WildLoad(dst, op, src, ip, cpy, 8);
    LiteralsCopied(src, dst[..], ref, nibble, ip, len, out, m);
    pt := AtOffset(ip + len, cpy, nibble);
  }

  /** Literals close to an end when only part of the block is wanted: they may be cut. */
  method PartialLiterals(src: seq<byte>, dst: array<byte>, ip: nat, op: nat, nibble: nat, len: nat,
                         ghost ref: Outcome, ghost m: int)
    returns (pt: Point)
    requires Inv(src, dst[..], ref, m, true, AtLiterals(ip, op, nibble, len))
    modifies dst
    ensures Inv(src, dst[..], ref, m, true, pt)
    ensures pt.Finished? || (pt.AtOffset? && pt.ip >= ip)
  {
    var iend, oend := |src|, dst.Length;
    ghost var out := dst[..op];
    var length, cpy := len, op + len;
    if ip + length > iend {
      length := iend - ip;
      cpy := op + length;
    }
    if cpy > oend {
      cpy := oend;
      length := oend - op;
    }
    Load(dst, op, src, ip, length);
    assert dst[..cpy] == out + src[ip..ip + length];
    if cpy == oend || ip + length >= iend - 2 {
      if Acceptable(ref, oend, true) {
        LiteralsAreDecoded(src, nibble, ip, len, out, m);
        assert src[ip..ip + length] <= src[ip..ip + len];
        if ip + len < iend {
          RoomAfterLiterals(src, nibble, ip, len, out, m);
        }
      }
      return Finished(cpy);
    }
    LiteralsCopied(src, dst[..], ref, nibble, ip, len, out, m);
    pt := AtOffset(ip + len, cpy, nibble);
  }

  /** The copy of a match in the main loop. */
  method SafeCopy(src: seq<byte>, dst: array<byte>, ip: nat, op: nat, off: nat, len: nat, partial: bool,
                  ghost ref: Outcome, ghost m: int)
    returns (pt: Point)
    requires Inv(src, dst[..], ref, m, partial, AtCopy(ip, op, off, len))
    modifies dst
    ensures Inv(src, dst[..], ref, op, partial, pt)
    ensures pt.Failed? || pt.Finished? || (pt.AtToken? && pt.ip == ip)
  {
    var oend := dst.Length;
    ghost var out := dst[..op];
    if off > op {
      return Failed(ip);
    }
    var cpy := op + len;
    if partial && cpy > oend - MATCH_SAFEGUARD_DISTANCE {
      var mlen := Min(len, oend - op);
      PartialCopy(dst, op, off, mlen);
      if op + mlen == oend {
        if Acceptable(ref, oend, true) {
          CopyIsDecoded(src, ip, off, len, out);
          CopyMatchShorter(out, off, len, mlen);
          CopiedMatch(dst[..], out, off, mlen);
        }
        return Finished(oend);
      }
      MatchCopied(src, dst[..], ref, ip, off, len, out);
      return AtToken(ip, op + len);
    }
    if cpy > oend - LASTLITERALS {
      if Acceptable(ref, oend, partial) {
        RoomAfterCopy(src, ip, off, len, out);
      }
    }
    var inside := CopyNearEnd(dst, op, off, len);
    if !inside {
      return Failed(ip);
    }
    MatchCopied(src, dst[..], ref, ip, off, len, out);
    pt := AtToken(ip, cpy);
  }

  /** A match cut at the end of the output: byte by byte when it overlaps itself. */
  method PartialCopy(dst: array<byte>, op: nat, off: nat, mlen: nat)
    requires off <= op && op + mlen <= dst.Length
    modifies dst
    ensures Below(dst, op)
    ensures off >= 1 ==> Repeats(dst[..], op, op + mlen, off)
  {
    var match0 := op - off;
    if match0 + mlen > op {
      ByteMove(dst, op, match0, op + mlen);
    } else {
      Move(dst, op, match0, mlen);
    }
  }

  /** A whole match; refused when it would reach into the last five bytes. */
  method CopyNearEnd(dst: array<byte>, op0: nat, off: nat, len: nat) returns (inside: bool)
    requires off <= op0 && op0 + MATCH_SAFEGUARD_DISTANCE <= dst.Length && len >= MINMATCH
    modifies dst
    ensures inside <==> op0 + len <= dst.Length - LASTLITERALS
    ensures Below(dst, op0)
    ensures inside && off >= 1 ==> Repeats(dst[..], op0, op0 + len, off)
  {
    var oend, cpy := dst.Length, op0 + len;
    var match0 := FirstEight(dst, op0, off);
    ghost var first := dst[..op0 + 8];
    var op := op0 + 8;
    if cpy > oend - MATCH_SAFEGUARD_DISTANCE {
      if cpy > oend - LASTLITERALS {
        return false;
      }
      FinishExactly(dst, op, match0, cpy);
    } else {
      FinishRoomy(dst, op, match0, cpy);
    }
    ContinuedMatch(first, dst[..], op0, off, op - match0, if cpy <= op then op else cpy);
    inside := true;
  }

  /** The rest of a match with room behind it: a word, and words up to the end. */
  method FinishRoomy(dst: array<byte>, op: nat, match0: nat, cpy: nat)
    requires match0 + 8 <= op && op + 8 <= dst.Length && cpy + MATCH_SAFEGUARD_DISTANCE <= dst.Length
    modifies dst
    ensures Below(dst, op)
    ensures Repeats(dst[..], op, if cpy <= op then op else cpy, op - match0)
  {
    Move(dst, op, match0, 8);
    ghost var word := dst[..op + 8];
    assert Repeats(word, op, op + 8, op - match0);
    if cpy > op + 8 {
      WildMove(dst, op + 8, match0 + 8, cpy);
      assert dst[..op + 8] == word;
      assert forall k :: 0 <= k < op + 8 ==> dst[..][k] == word[k];
    }
  }

  /** The rest of a match that ends close to the end of the output: whole words as long as
      they fit, then single bytes. */
  method FinishExactly(dst: array<byte>, op0: nat, match0: nat, cpy: nat)
    requires match0 + 8 <= op0 <= dst.Length && cpy + LASTLITERALS <= dst.Length
    modifies dst
    ensures Below(dst, op0)
    ensures Repeats(dst[..], op0, if cpy <= op0 then op0 else cpy, op0 - match0)
  {
    var oend := dst.Length;
    var oCopyLimit := oend - (WILDCOPYLENGTH - 1);
    var op, from := op0, match0;
    if op < oCopyLimit {
      WildMove(dst, op, from, oCopyLimit);
      from := from + (oCopyLimit - op);
      op := oCopyLimit;
    }
    ghost var words := dst[..op];
    if op < cpy {
      ByteMove(dst, op, from, cpy);
    }
  }

  // ---------------------------------------------------------------- the decoder

  /** The number of decoded bytes, or a negative number. Of the three promises, the first says
      what success means on any input whatsoever; the second that every block meeting the
      format's end-of-block restrictions is decoded when it fits; the third that a partial
      decoding of such a block stops exactly at the end of the output.

      An empty output is a special case of the code: there only the block that consists of a
      single zero byte is accepted, although the reference decoder also takes a token whose
      unused low nibble is not zero. */
  method DecompressGeneric(src: seq<byte>, dst: array<byte>, partial: bool) returns (r: int)
    modifies dst
    ensures r <= dst.Length
    ensures r >= 0 && !partial && !DecodeBlock(src).Excluded? ==>
              DecodeBlock(src).Done? && dst[..r] == DecodeBlock(src).out
    ensures !partial && Acceptable(DecodeBlock(src), dst.Length, false) && (dst.Length > 0 || src == [0]) ==>
              r == |DecodeBlock(src).out|
    ensures !partial && dst.Length == 0 ==> (r >= 0 <==> src == [0])
    ensures partial && Acceptable(DecodeBlock(src), dst.Length, true) ==>
              r == Min(dst.Length, |DecodeBlock(src).out|) && dst[..r] == DecodeBlock(src).out[..r]
  {
    var oend := dst.Length;
    if oend == 0 {
      if partial {
        return 0;
      }
      if |src| == 1 && src[0] == 0 {
        assert DecodeBlock(src) == DecodeLiterals(src, 0, 1, 0, [], -1);
        return 0;
      }
      return -1;
    }
    if |src| == 0 {
      return -1;
    }
    ghost var ref := DecodeBlock(src);
    var pt := AtToken(0, 0);
    ghost var m := -1;
    assert dst[..0] == [];
    if oend >= FASTLOOP_SAFE_DISTANCE {
      pt, m := FastLoop(src, dst, partial);
    }
    while !pt.Finished? && !pt.Failed?
      invariant Inv(src, dst[..], ref, m, partial, pt)
      decreases if pt.Finished? || pt.Failed? then 0 else 1 + |src| - pt.ip,
                match pt case AtToken(_, _) => 0 case AtCopy(_, _, _, _) => 1 case AtMatchLength(_, _, _, _) => 2
                         case AtOffset(_, _, _) => 3 case _ => 4
    {
      match pt {
        case AtToken(ip, op) =>
          pt, m := SafeToken(src, dst, ip, op, partial, ref, m);
        case AtLiterals(ip, op, nibble, len) =>
          pt := SafeLiterals(src, dst, ip, op, nibble, len, partial, ref, m);
        case AtOffset(ip, op, nibble) =>
          pt := AtMatchLength(ip + 2, op, nibble, Read16(src, ip));
        case AtMatchLength(ip, op, nibble, off) =>
          var length, ip', failed := ReadMatchLength(src, ip, nibble, off, dst[..op], ref);
          pt := if failed then Failed(ip') else AtCopy(ip', op, off, length);
        case AtCopy(ip, op, off, len) =>
          pt := SafeCopy(src, dst, ip, op, off, len, partial, ref, m);
          m := op;
      }
    }
    if pt.Finished? {
      return pt.op;
    }
    r := -1 - pt.ip;
  }

  method FastLoop(src: seq<byte>, dst: array<byte>, partial: bool) returns (pt: Point, ghost m: int)
    requires |src| > 0 && dst.Length >= FASTLOOP_SAFE_DISTANCE
    modifies dst
    ensures Inv(src, dst[..], DecodeBlock(src), m, partial, pt)
  {
    ghost var ref := DecodeBlock(src);
    pt, m := AtToken(0, 0), -1;
    assert dst[..0] == [];
    while pt.AtToken?
      invariant Inv(src, dst[..], ref, m, partial, pt)
      invariant pt.AtToken? ==> pt.op + FASTLOOP_SAFE_DISTANCE <= dst.Length
      decreases if pt.AtToken? then 1 + |src| - pt.ip else 0
    {
      ghost var before := pt.ip;
      pt := FastLiterals(src, dst, pt.ip, pt.op, partial, ref, m);
      if pt.AtOffset? {
        ghost var start := pt.op;
        pt := FastMatch(src, dst, pt.ip, pt.op, pt.nibble, partial, ref, m);
        m := start;
      }
    }
  }

  /** LZ4_decompress_safe */
  method DecompressSafe(src: seq<byte>, dst: array<byte>) returns (r: int)
    modifies dst
    ensures r <= dst.Length
    ensures r >= 0 && !DecodeBlock(src).Excluded? ==> DecodeBlock(src).Done? && dst[..r] == DecodeBlock(src).out
    ensures Acceptable(DecodeBlock(src), dst.Length, false) && (dst.Length > 0 || src == [0]) ==>
              r == |DecodeBlock(src).out|
    ensures dst.Length == 0 ==> (r >= 0 <==> src == [0])
  {
    r := DecompressGeneric(src, dst, false);
  }

  /** A block that an empty output refuses, although it meets the rules and decodes to nothing. */
  lemma {:induction false} RefusedByEmptyOutput()
    ensures [5] != [0] && Acceptable(DecodeBlock([5]), 0, false) && DecodeBlock([5]).out == []
  {
    var src: seq<byte> := [5];
    assert LengthField(src, 1, 0) == Run(0, 1, true);
    assert DecodeBlock(src) == DecodeLiterals(src, 5, 1, 0, [], -1);
  }

  /** LZ4_decompress_safe_partial, `dst.Length` being the smaller of target and capacity. */
  method DecompressSafePartial(src: seq<byte>, dst: array<byte>) returns (r: int)
    modifies dst
    ensures r <= dst.Length
    ensures Acceptable(DecodeBlock(src), dst.Length, true) ==>
              r == Min(dst.Length, |DecodeBlock(src).out|) && dst[..r] == DecodeBlock(src).out[..r]
  {
    r := DecompressGeneric(src, dst, true);
  }
}
