/** LZ4_compress_generic without a dictionary, for the table types byU16 and byU32 and all
    three output modes, with the entry points that share one table over many calls. */
module Lz4Fast {
  import opened Lz4Format
  import opened Lz4Copy
  import opened Lz4Count
  import opened Lz4Emit

  const SLOTS := 8192                       // LZ4_HASHTABLESIZE bytes seen as 16-bit entries
  const LZ4_64KLIMIT := 65536 + (MFLIMIT - 1)
  const LZ4_MINLENGTH := MFLIMIT + 1
  const GB := 0x4000_0000

  datatype OutputMode = NotLimited | LimitedOutput | FillOutput
  datatype TableType = ClearedTable | ByU32 | ByU16

  /** A hash of the eight bytes that are read at a position. Nothing depends on its choice. */
  type Hash = seq<byte> -> nat

  /** What one call works on: the input, the hash, the table type, the index of the first
      input byte, whether candidates from before it are rejected by index (dictSmall), the
      output mode and the output budget. */
  datatype Job = Job(src: seq<byte>, hash: Hash, t: TableType, start: nat, small: bool, mode: OutputMode, limit: nat)

  /** The slot of a position: an entry has 16 bits or 32. */
  function Slot(j: Job, p: nat): (h: nat)
    requires p + 8 <= |j.src|
    ensures h < SLOTS
  {
    if j.t == ByU16 then j.hash(j.src[p..p + 8]) % 8192 else j.hash(j.src[p..p + 8]) % 4096
  }

  // ---------------------------------------------------------------- room in the output

  /** What holds of the output position between two sequences. `limit` is the caller's budget,
      `m` the start of the last match. The first line gives LZ4_compressBound; the others are
      what the space checks of the loop leave behind for the code that does not check. */
  ghost predicate RoomInv(mode: OutputMode, op: nat, anchor: nat, limit: nat, m: int) {
    && 255 * op <= 256 * anchor
    && (mode != NotLimited && m >= 0 ==> op + 1 + LASTLITERALS <= limit)
    && (mode == FillOutput && 0 <= m && anchor - m < 19 ==> op + 9 <= limit)
    && (m < 0 ==> anchor == 0 && op == 0)
  }

  /** The buffer is as large as the mode demands. */
  ghost predicate Buffer(mode: OutputMode, n: nat, limit: nat, length: nat) {
    if mode == NotLimited then CompressBound(n) <= length else limit <= length
  }

  /** The positions a sequence may take in an input of `n` bytes. */
  ghost predicate LegalSoFar(n: nat, anchor: nat, m: int) {
    m >= 0 ==> m + MINMATCH <= anchor <= n - LASTLITERALS && m + MFLIMIT <= n
  }

  /** Where the compressor stands between two sequences. */
  ghost predicate Head(d: seq<byte>, op: nat, j: Job, anchor: nat, m: int) {
    && |j.src| <= MAX_INPUT_SIZE
    && Encoded(d, op, j.src, anchor, m)
    && RoomInv(j.mode, op, anchor, j.limit, m)
    && LegalSoFar(|j.src|, anchor, m)
    && Buffer(j.mode, |j.src|, j.limit, |d|)
  }

  /** Where it stands inside a sequence, with token and literals written: `d0` is the buffer as
      it was in front of the token. */
  ghost predicate Pending(d0: seq<byte>, d: seq<byte>, token: nat, op: nat, j: Job, anchor: nat, ip: nat, m: int) {
    && Head(d0, token, j, anchor, m)
    && |d0| == |d| && d0[..token] == d[..token]
    && LiteralsAt(d, token, op, j.src, anchor, ip)
    && (j.mode == LimitedOutput ==> op + 5 <= j.limit)
    && ip + MFLIMIT <= |j.src|
  }

  datatype Status = Emitted | NoSpace | Rewind

  function AfterLiterals(token: nat, literals: nat): nat {
    token + 1 + Extension(literals) + literals
  }

  /** Behind the token no room for the literals with their length, an offset, and the last literals with
      their token. */
  predicate LiteralsTooLong(token: nat, literals: nat, limit: nat) {
    token + 1 + literals + literals / 255 + 2 + 1 + 5 > limit
  }

  /** Behind the offset no room for the length of the match and the last literals with their token. */
  predicate LengthTooLong(op: nat, matchCode: nat, limit: nat) {
    op + (matchCode + 240) / 255 + 1 + 5 > limit
  }

  /** No room for the last literals. */
  predicate LastTooLong(op: nat, literals: nat, limit: nat) {
    op + 1 + literals + (literals + 240) / 255 > limit
  }

  /** The literals of a sequence, with the space checks in front of them. */
  method EncodeLiterals(dst: array<byte>, token: nat, j: Job, anchor: nat, ip: nat, ghost m: int)
    returns (status: Status, op: nat)
    requires Head(dst[..], token, j, anchor, m) && anchor <= ip && ip + MFLIMIT <= |j.src|
    modifies dst
    ensures Below(dst, token)
    ensures status.NoSpace? <==> j.mode == LimitedOutput && LiteralsTooLong(token, ip - anchor, j.limit)
    ensures status.Rewind? ==> j.mode == FillOutput
    ensures if status.Emitted? then op == AfterLiterals(token, ip - anchor) else dst[..] == old(dst[..])
    ensures status.Emitted? ==> Pending(old(dst[..]), dst[..], token, op, j, anchor, ip, m)
    ensures status.Emitted? && j.mode == FillOutput ==> op + 11 <= j.limit
  {
    var litLength := ip - anchor;
    op := token + 1;
    if j.mode == LimitedOutput && op + litLength + (2 + 1 + LASTLITERALS) + litLength / 255 > j.limit {
      return NoSpace, op;
    }
    if j.mode == FillOutput && op + (litLength + 240) / 255 + litLength + 2 + 1 + MFLIMIT - MINMATCH > j.limit {
      return Rewind, op;
    }
    op := EmitLiterals(dst, token, j.src, anchor, ip);
    status := Emitted;
  }

  /** The match length: stores of four 255s at a time, then the remainder. */
  method WriteMatchLength(dst: array<byte>, token: nat, op0: nat, mc0: nat) returns (op: nat)
    requires token < op0 && op0 + Extension(mc0) <= dst.Length && dst[token] % 16 == 0
    requires mc0 >= 15 ==> op0 + Extension(mc0) + 3 <= dst.Length
    modifies dst
    ensures op == op0 + Extension(mc0)
    ensures dst[token] == old(dst[token]) + Min(mc0, 15)
    ensures LengthAt(dst[..], op0, mc0)
    ensures forall k :: 0 <= k < op0 && k != token ==> dst[k] == old(dst[k])
  {
    var mc := mc0;
    op := op0;
    if mc >= RUN_MASK {
      dst[token] := dst[token] + RUN_MASK;
      mc := mc - RUN_MASK;
      Store4(dst, op);
      while mc >= 4 * 255
        invariant op0 <= op && 255 * (op - op0) + mc == mc0 - RUN_MASK
        invariant op + 4 <= dst.Length
        invariant forall k :: op0 <= k < op + 4 ==> dst[k] == 255
        invariant forall k :: 0 <= k < op0 ==> dst[k] == if k == token then old(dst[k]) + 15 else old(dst[k])
      {
        op := op + 4;
        Store4(dst, op);
        mc := mc - 4 * 255;
      }
      op := op + mc / 255;
      assert op - op0 == (mc0 - RUN_MASK) / 255 && mc % 255 == (mc0 - RUN_MASK) % 255;
      dst[op] := mc % 255;
      op := op + 1;
    } else {
      dst[token] := dst[token] + mc;
    }
  }

  /** LZ4_write32 of 0xFFFFFFFF. */
  method Store4(dst: array<byte>, op: nat)
    requires op + 4 <= dst.Length
    modifies dst
    ensures forall k :: op <= k < op + 4 ==> dst[k] == 255
    ensures forall k :: 0 <= k < dst.Length && !(op <= k < op + 4) ==> dst[k] == old(dst[k])
  {
    dst[op], dst[op + 1], dst[op + 2], dst[op + 3] := 255, 255, 255, 255;
  }

  /** A match that starts as `len` equal bytes is counted at least that long. */
  lemma {:induction false} CountReaches(src: seq<byte>, ip: nat, off: nat, len: nat, limit: nat)
    requires TrueMatch(src, ip, off, len) && len >= MINMATCH && ip + len <= limit <= |src|
    ensures len <= MINMATCH + Common(src, ip + MINMATCH, ip - off + MINMATCH, limit)
    ensures TrueMatch(src, ip, off, MINMATCH + Common(src, ip + MINMATCH, ip - off + MINMATCH, limit))
  {
    var c := Common(src, ip + MINMATCH, ip - off + MINMATCH, limit);
    CommonIsLongest(src, ip + MINMATCH, ip - off + MINMATCH, limit);
    forall k | ip <= k < ip + MINMATCH + c
      ensures src[k] == src[k - off]
    {
    }
  }

  lemma ShorterMatch(src: seq<byte>, start: nat, off: nat, len: nat, less: nat)
    requires TrueMatch(src, start, off, len) && less <= len
    ensures TrueMatch(src, start, off, less)
  {
  }

  /** The fill-output case of a match that does not fit: its code is cut so that its extension
      ends exactly six bytes before the budget. */
  lemma {:induction false} CutMatch(op: nat, mc: nat, limit: nat)
    requires op + 9 <= limit && op + 1 + LASTLITERALS + (mc + 240) / 255 > limit
    ensures var cut := 14 + (limit - op - 1 - LASTLITERALS) * 255;
            cut < mc && op + Extension(cut) + 1 + LASTLITERALS == limit
  {
    var k := limit - op - 1 - LASTLITERALS;
    assert (255 * k - 1) / 255 == k - 1;
  }

  /** In fill-output mode: a match was cut, and only a last run of five literals still fits. */
  ghost predicate Full(j: Job, op: int) {
    j.mode == FillOutput && op + 1 + LASTLITERALS >= j.limit
  }

  /** A match length that is true, legal at the end of a block, and within the budget. */
  ghost predicate LengthChosen(j: Job, op: nat, ip: nat, off: nat, mc: nat) {
    && TrueMatch(j.src, ip, off, mc + MINMATCH) && ip + mc + MINMATCH + LASTLITERALS <= |j.src|
    && (j.mode != NotLimited ==> op + Extension(mc) + 1 + LASTLITERALS <= j.limit)
  }

  lemma ExtensionFormula(n: nat)
    ensures Extension(n) == (n + 240) / 255
  {
  }

  method CutLength(j: Job, op: nat, ip: nat, off: nat, mc: nat) returns (cut: nat)
    requires TrueMatch(j.src, ip, off, mc + MINMATCH) && ip + mc + MINMATCH + LASTLITERALS <= |j.src|
    requires op + 9 <= j.limit && op + (1 + LASTLITERALS) + (mc + 240) / 255 > j.limit && j.mode == FillOutput
    ensures LengthChosen(j, op, ip, off, cut) && Full(j, op + Extension(cut))
  {
    cut := 14 + (j.limit - op - 1 - LASTLITERALS) * 255;
    CutMatch(op, mc, j.limit);
    ShorterMatch(j.src, ip, off, mc + MINMATCH, cut + MINMATCH);
  }

  /** The code of the longest match at `ip` that leaves the last literals alone. */
  ghost function Longest(j: Job, ip: nat, mtch: nat): nat
    requires mtch < ip && ip + MFLIMIT <= |j.src|
  {
    Common(j.src, ip + MINMATCH, mtch + MINMATCH, |j.src| - LASTLITERALS)
  }

  /** The length of a match, cut in fill-output mode when its extension does not fit. The match
      is known to reach past `top`. */
  method ChooseLength(j: Job, op: nat, ip: nat, mtch: nat, ghost top: nat)
    returns (status: Status, matchCode: nat, cut: bool)
    requires mtch < ip <= top && top + MFLIMIT <= |j.src| && TrueMatch(j.src, ip, ip - mtch, top + MINMATCH - ip)
    requires j.mode == FillOutput ==> op + 9 <= j.limit
    ensures !status.Rewind?
    ensures status.NoSpace? <==> j.mode == LimitedOutput && LengthTooLong(op, Longest(j, ip, mtch), j.limit)
    ensures status.Emitted? && !cut ==> matchCode == Longest(j, ip, mtch)
    ensures status.Emitted? ==> LengthChosen(j, op, ip, ip - mtch, matchCode)
    ensures cut ==> status.Emitted? && j.mode == FillOutput && Full(j, op + Extension(matchCode))
    ensures status.Emitted? && !cut ==> top < ip + matchCode + MINMATCH
  {
    var matchlimit := |j.src| - LASTLITERALS;
    cut := false;
    matchCode := Count(j.src, ip + MINMATCH, mtch + MINMATCH, matchlimit);
    CountReaches(j.src, ip, ip - mtch, top + MINMATCH - ip, matchlimit);
    if j.mode != NotLimited && op + (1 + LASTLITERALS) + (matchCode + 240) / 255 > j.limit {
      if j.mode != FillOutput {
        return NoSpace, matchCode, false;
      }
      matchCode := CutLength(j, op, ip, ip - mtch, matchCode);
      cut := true;
    }
    ExtensionFormula(matchCode);
    status := Emitted;
  }

  /** The match length of a sequence, with which the sequence is complete. */
  method FinishSequence(dst: array<byte>, j: Job, token: nat, q: nat, anchor: nat, ip: nat, off: nat, mc: nat,
                        ghost m: int, ghost d0: seq<byte>)
    returns (op: nat)
    requires Pending(d0, dst[..], token, q, j, anchor, ip, m) && q + 2 <= dst.Length && Read16(dst[..], q) == off
    requires LengthChosen(j, q + 2, ip, off, mc)
    requires j.mode == FillOutput ==> q + 11 <= j.limit
    modifies dst
    ensures Below(dst, token)
    ensures op == q + 2 + Extension(mc)
    ensures Head(dst[..], op, j, ip + mc + MINMATCH, ip)
  {
    ghost var d1 := dst[..];
    RoomForLength(q, token, anchor, ip, mc, |j.src|, j.mode, j.limit, dst.Length);
    op := WriteMatchLength(dst, token, q + 2, mc);
    assert dst[..token] == d0[..token];
    PartsComplete(d1, dst[..], token, q, j.src, anchor, ip, off, mc);
    EncodedNext(d0, dst[..], token, q, op, j.src, anchor, ip, off, mc, m);
    SequenceIsSmall(ip - anchor, mc);
  }

  lemma RoomForOffset(op: nat, token: nat, anchor: nat, ip: nat, n: nat, mode: OutputMode, limit: nat, length: nat)
    requires anchor <= ip && ip + MFLIMIT <= n <= MAX_INPUT_SIZE
    requires op == token + 1 + Extension(ip - anchor) + (ip - anchor)
    requires 255 * token <= 256 * anchor && Buffer(mode, n, limit, length)
    requires mode == LimitedOutput ==> op + 5 <= limit
    requires mode == FillOutput ==> op + 11 <= limit
    ensures op + 2 <= length
  {
  }

  lemma {:induction false} RoomForLength(op: nat, token: nat, anchor: nat, ip: nat, mc: nat, n: nat,
                                         mode: OutputMode, limit: nat, length: nat)
    requires anchor <= ip && ip + mc + MINMATCH + LASTLITERALS <= n <= MAX_INPUT_SIZE
    requires op == token + 1 + Extension(ip - anchor) + (ip - anchor)
    requires 255 * token <= 256 * anchor && Buffer(mode, n, limit, length)
    requires mode != NotLimited ==> op + 2 + Extension(mc) + 1 + LASTLITERALS <= limit
    ensures op + 2 + Extension(mc) + 3 <= length
  {
    SequenceIsSmall(ip - anchor, mc);
  }

  lemma {:induction false} LiteralsStay(d: seq<byte>, d': seq<byte>, token: nat, q: nat, data: seq<byte>,
                                        anchor: nat, start: nat)
    requires LiteralsAt(d, token, q, data, anchor, start) && |d'| == |d|
    requires forall k :: 0 <= k < q ==> d[k] == d'[k]
    ensures LiteralsAt(d', token, q, data, anchor, start)
  {
    LengthAtSame(d, d', token + 1, start - anchor);
    var p := token + 1 + Extension(start - anchor);
    assert d'[p..q] == d[p..q];
  }

  /** The offset of a sequence. */
  method PutOffset(dst: array<byte>, j: Job, token: nat, q: nat, anchor: nat, ip: nat, off: nat, ghost m: int,
                   ghost d0: seq<byte>)
    requires Pending(d0, dst[..], token, q, j, anchor, ip, m) && off <= DISTANCE_MAX
    requires j.mode == FillOutput ==> q + 11 <= j.limit
    modifies dst
    ensures Pending(d0, dst[..], token, q, j, anchor, ip, m) && q + 2 <= dst.Length && Read16(dst[..], q) == off
    ensures Below(dst, token)
  {
    RoomForOffset(q, token, anchor, ip, |j.src|, j.mode, j.limit, dst.Length);
    ghost var d1 := dst[..];
    EmitOffset(dst, q, off);
    LiteralsStay(d1, dst[..], token, q, j.src, anchor, ip);
    assert dst[..token] == d1[..token];
  }

  lemma {:induction false} HeadStart(d: seq<byte>, j: Job)
    requires |j.src| <= MAX_INPUT_SIZE && Buffer(j.mode, |j.src|, j.limit, |d|)
    ensures Head(d, 0, j, 0, -1)
  {
    ReachesStart();
    assert d[..0] == [] && j.src[..0] == [];
  }

  /** A token without literals, written right behind a match. */
  method EmptyLiterals(dst: array<byte>, token: nat, j: Job, anchor: nat, ghost m: int)
    requires Head(dst[..], token, j, anchor, m) && m >= 0 && anchor + MFLIMIT <= |j.src|
    modifies dst
    ensures Pending(old(dst[..]), dst[..], token, token + 1, j, anchor, anchor, m)
  {
    dst[token] := 0;
    assert dst[..token] == old(dst[..])[..token];
  }

  /** Extending a match backwards over the literals that also agree, as far as they do. */
  method CatchUp(src: seq<byte>, anchor: nat, ip0: nat, mtch0: nat) returns (ip: nat, mtch: nat)
    requires anchor <= ip0 && mtch0 < ip0 && TrueMatch(src, ip0, ip0 - mtch0, MINMATCH)
    ensures anchor <= ip <= ip0 && mtch < ip && ip - mtch == ip0 - mtch0
    ensures TrueMatch(src, ip, ip - mtch, ip0 + MINMATCH - ip)
    ensures ip == anchor || mtch == 0 || src[ip - 1] != src[mtch - 1]
  {
    ip, mtch := ip0, mtch0;
    while ip > anchor && mtch > 0 && src[ip - 1] == src[mtch - 1]
      invariant anchor <= ip <= ip0 && mtch < ip && ip - mtch == ip0 - mtch0
      invariant TrueMatch(src, ip, ip - mtch, ip0 + MINMATCH - ip)
      decreases ip
    {
      ip, mtch := ip - 1, mtch - 1;
    }
  }

  // ---------------------------------------------------------------- the closing literals

  /** What a finished block is: it decodes to the consumed input, meets the end-of-block
      restrictions, and keeps to both the budget and LZ4_compressBound. */
  ghost predicate Block(b: seq<byte>, j: Job, consumed: nat) {
    && consumed <= |j.src| && |b| <= CompressBound(|j.src|)
    && (j.mode != FillOutput ==> consumed == |j.src|)
    && (j.mode != NotLimited ==> |b| <= j.limit)
    && (|j.src| == 0 ==> b == [0])
    && (consumed < |j.src| ==> |b| + 1 + (j.limit + 240) / 65025 >= j.limit)
    && var d := DecodeBlock(b);
       d.Done? && d.out == j.src[..consumed] && EndRules(d)
  }

  /** Shrinking the last run to what the budget leaves. */
  lemma ShrunkRun(op: nat, run: nat, limit: nat)
    requires op + 1 <= limit < op + run + 1 + (run + 240) / 255
    ensures var r := limit - op - 1; var shrunk := r - (r + 240) / 255;
            && 0 <= shrunk <= run && op + 1 + Extension(shrunk) + shrunk <= limit
            && (r >= 5 ==> shrunk >= 5) && (r >= 8 ==> shrunk >= 8)
            && op + 1 + Extension(shrunk) + shrunk + Slack(limit) >= limit
  {
    var r := limit - op - 1;
    var q := (r + 240) / 255;
    ExtensionFormula(r - q);
    assert (r - q + 240) / 255 >= q - 1 - q / 255;
    assert q / 255 <= (limit + 240) / 65025;
  }

  /** How much of a budget may stay unused when the last run is shrunk to what it leaves: one byte, and one
      more for every 65025 bytes. */
  function Slack(limit: nat): nat {
    1 + (limit + 240) / 65025
  }

  /** The length of the last run, or that a limited output has no room for it. */
  method LastRun(j: Job, op: nat, anchor: nat, ghost m: int) returns (ok: bool, lastRun: nat)
    requires |j.src| <= MAX_INPUT_SIZE && anchor <= |j.src| && -1 <= m <= anchor
    requires RoomInv(j.mode, op, anchor, j.limit, m) && LegalSoFar(|j.src|, anchor, m)
    requires j.mode == FillOutput ==> j.limit >= 1
    ensures !ok <==> j.mode == LimitedOutput && LastTooLong(op, |j.src| - anchor, j.limit)
    ensures ok && anchor + lastRun < |j.src| ==> op + 1 + Extension(lastRun) + lastRun + Slack(j.limit) >= j.limit
    ensures ok ==> anchor + lastRun <= |j.src| && (j.mode != FillOutput ==> anchor + lastRun == |j.src|)
    ensures ok ==> op + 1 + Extension(lastRun) + lastRun <= CompressBound(|j.src|)
    ensures ok && j.mode != NotLimited ==> op + 1 + Extension(lastRun) + lastRun <= j.limit
    ensures ok && m >= 0 ==> lastRun >= LASTLITERALS && m + MFLIMIT <= anchor + lastRun
  {
    var n := |j.src|;
    lastRun := n - anchor;
    LastRunFits(op, anchor, n);
    ExtensionFormula(lastRun);
    if j.mode != NotLimited && op + lastRun + 1 + (lastRun + 255 - RUN_MASK) / 255 > j.limit {
      if j.mode != FillOutput {
        return false, 0;
      }
      ShrunkRun(op, lastRun, j.limit);
      lastRun := j.limit - op - 1;
      lastRun := lastRun - (lastRun + 240) / 255;
      ExtensionMonotone(lastRun, n - anchor);
    }
    ok := true;
  }

  /** _last_literals */
  method EncodeLast(dst: array<byte>, j: Job, op: nat, anchor: nat, ghost m: int) returns (r: nat, consumed: nat)
    requires Head(dst[..], op, j, anchor, m) && (j.mode == FillOutput ==> j.limit >= 1)
    modifies dst
    ensures r == 0 <==> j.mode == LimitedOutput && LastTooLong(op, |j.src| - anchor, j.limit)
    ensures r == 0 ==> dst[..] == old(dst[..])
    ensures r > 0 ==> r <= dst.Length && Block(dst[..r], j, consumed)
    ensures r > 0 ==> DecodeBlock(dst[..r]).lastRun == consumed - anchor
    ensures r > 0 ==> r == op + 1 + Extension(consumed - anchor) + (consumed - anchor)
  {
    var ok, lastRun := LastRun(j, op, anchor, m);
    if !ok {
      return 0, 0;
    }
    r := CloseBlock(dst, op, j.src, anchor, anchor + lastRun, m);
    consumed := anchor + lastRun;
  }

  method CloseBlock(dst: array<byte>, op: nat, src: seq<byte>, anchor: nat, end: nat, ghost m: int) returns (r: nat)
    requires Encoded(dst[..], op, src, anchor, m) && anchor <= end <= |src| <= MAX_INPUT_SIZE
    requires op + 1 + Extension(end - anchor) + (end - anchor) <= dst.Length
    modifies dst
    ensures r == op + 1 + Extension(end - anchor) + (end - anchor)
    ensures DecodeBlock(dst[..r]) == Done(src[..end], m, end - anchor)
    ensures op == 0 && end == anchor ==> dst[..r] == [0]
  {
    ghost var d0 := dst[..];
    r := EmitLastLiterals(dst, op, src, anchor, end);
    EncodedLast(d0, dst[..], op, r, src, anchor, end, m);
  }

  lemma ExtensionMonotone(a: nat, b: nat)
    requires a <= b
    ensures Extension(a) <= Extension(b)
  {
  }

  // ---------------------------------------------------------------- the hash table

  /** Every entry names a position below `bound`, entries from before this input cannot be
      taken for matches, and in fill-output mode every entry of this input stands in the
      slot of its own hash. */
  ghost predicate Table(tbl: seq<nat>, j: Job, bound: nat) {
    && |tbl| == SLOTS
    && (forall h :: 0 <= h < SLOTS ==> tbl[h] < j.start + bound)
    && (j.start > 0 && !j.small ==>
          j.t == ByU32 && forall h :: 0 <= h < SLOTS ==> tbl[h] < j.start ==> tbl[h] + DISTANCE_MAX < j.start)
    && (j.mode == FillOutput ==> j.start == 0 && forall h :: 0 <= h < SLOTS ==> Filed(tbl[h], h, j))
  }

  ghost predicate Filed(entry: nat, h: nat, j: Job) {
    entry > j.start ==> entry - j.start + 8 <= |j.src| && Slot(j, entry - j.start) == h
  }

  /** Indices of this input fit the entries they are stored in. */
  ghost predicate IndicesFit(j: Job) {
    && j.t != ClearedTable
    && (j.t == ByU16 ==> j.start + |j.src| < LZ4_64KLIMIT)
    && (j.t == ByU32 ==> j.start + |j.src| < U32_SIZE)
  }

  /** A match at `ip` that is known to reach past `top`, the last position in the table. */
  ghost predicate MatchAt(j: Job, ip: nat, mtch: nat, top: nat) {
    mtch < ip <= top && top + MFLIMIT <= |j.src| && TrueMatch(j.src, ip, ip - mtch, top + MINMATCH - ip)
  }

  /** Storing a position in the slot of its hash keeps the table. */
  lemma TablePut(tbl: seq<nat>, j: Job, bound: nat, pos: nat, h: nat)
    requires Table(tbl, j, bound) && pos + MFLIMIT <= |j.src| && h == Slot(j, pos)
    ensures Table(tbl[h := j.start + pos], j, if pos < bound then bound else pos + 1)
  {
  }

  // ---------------------------------------------------------------- what a search does

  /** What makes a candidate a match: it lies in this input, near enough, and starts with four equal
      bytes. */
  predicate Passes(j: Job, index: nat, ip: nat)
    requires ip + MFLIMIT <= |j.src|
  {
    && j.start <= index < j.start + ip && (j.t == ByU16 || j.start + ip - index <= DISTANCE_MAX)
    && j.src[index - j.start..index - j.start + 4] == j.src[ip..ip + 4]
  }

  lemma FourBytesMatch(src: seq<byte>, ip: nat, mtch: nat)
    requires mtch < ip <= mtch + DISTANCE_MAX && ip + 4 <= |src| && src[mtch..mtch + 4] == src[ip..ip + 4]
    ensures TrueMatch(src, ip, ip - mtch, 4)
  {
    forall k | ip <= k < ip + 4
      ensures src[k] == src[k - (ip - mtch)]
    {
      assert src[k] == src[ip..ip + 4][k - ip] && src[k - (ip - mtch)] == src[mtch..mtch + 4][k - ip];
    }
  }

  /** How far the position behind `k` probes lies behind the one before it. */
  function Gap(acceleration: nat, k: nat): (g: nat)
    ensures acceleration >= 1 ==> g >= 1
  {
    if k == 0 then 1 else (acceleration * 64 + k - 1) / 64
  }

  /** The gap is 1 behind the first probe, then 64 times the acceleration, 64 times one more, and so on. */
  lemma GapWidens(acceleration: nat, i: nat, k: nat)
    requires 1 <= k <= 64
    ensures Gap(acceleration, 0) == 1 && Gap(acceleration, 64 * i + k) == acceleration + i
  {
  }

  /** The position that follows the probes. */
  function NextProbe(from: nat, acceleration: nat, probes: seq<nat>): nat {
    if probes == [] then from else probes[|probes| - 1] + Gap(acceleration, |probes| - 1)
  }

  /** Positions that have been probed one after the other. */
  ghost predicate Probed(j: Job, from: nat, acceleration: nat, probes: seq<nat>) {
    probes != [] ==>
      var front, last := probes[..|probes| - 1], probes[|probes| - 1];
      Probed(j, from, acceleration, front) && last == NextProbe(from, acceleration, front) && last + MFLIMIT <= |j.src|
  }

  /** Positions whose hash can be taken. */
  predicate Hashable(j: Job, probes: seq<nat>) {
    forall k :: 0 <= k < |probes| ==> probes[k] + MFLIMIT <= |j.src|
  }

  lemma {:induction false} ProbedIsHashable(j: Job, from: nat, acceleration: nat, probes: seq<nat>)
    requires Probed(j, from, acceleration, probes)
    ensures Hashable(j, probes)
  {
    if probes != [] {
      ProbedIsHashable(j, from, acceleration, probes[..|probes| - 1]);
    }
  }

  /** The table with the positions stored, each in the slot of its hash. */
  ghost function Filled(j: Job, tbl: seq<nat>, probes: seq<nat>): (t: seq<nat>)
    requires |tbl| == SLOTS && Hashable(j, probes)
    ensures |t| == SLOTS
  {
    if probes == [] then tbl
    else
      var last := probes[|probes| - 1];
      Filled(j, tbl, probes[..|probes| - 1])[Slot(j, last) := j.start + last]
  }

  /** A slot then holds the last of the positions with its hash, or what it held before. */
  lemma {:induction false} FilledHolds(j: Job, tbl: seq<nat>, probes: seq<nat>, h: nat)
    requires |tbl| == SLOTS && h < SLOTS && Hashable(j, probes)
    ensures (forall k :: 0 <= k < |probes| ==> Slot(j, probes[k]) != h) ==> Filled(j, tbl, probes)[h] == tbl[h]
    ensures forall i :: 0 <= i < |probes| && Slot(j, probes[i]) == h
                        && (forall k :: i < k < |probes| ==> Slot(j, probes[k]) != h) ==>
              Filled(j, tbl, probes)[h] == j.start + probes[i]
  {
    if probes != [] {
      FilledHolds(j, tbl, probes[..|probes| - 1], h);
    }
  }

  /** The candidates of all the probes fail the tests. */
  ghost predicate Missed(j: Job, tbl: seq<nat>, probes: seq<nat>)
    requires |tbl| == SLOTS && Hashable(j, probes)
  {
    probes != [] ==>
      var front, last := probes[..|probes| - 1], probes[|probes| - 1];
      Missed(j, tbl, front) && !Passes(j, Filled(j, tbl, front)[Slot(j, last)], last)
  }

  /** The search has come to the end of the input. */
  ghost predicate InVain(j: Job, from: nat, acceleration: nat, probes: seq<nat>) {
    NextProbe(from, acceleration, probes) + Gap(acceleration, |probes|) + MFLIMIT - 1 > |j.src|
  }

  /** What a search has done so far: probed positions in order, without success. */
  ghost predicate Searched(j: Job, from: nat, acceleration: nat, tbl: seq<nat>, probes: seq<nat>) {
    |tbl| == SLOTS && Hashable(j, probes) && Probed(j, from, acceleration, probes) && Missed(j, tbl, probes)
  }

  /** A search under way: the position that comes next, and the table with all the probes stored. */
  ghost predicate Probing(j: Job, from: nat, acceleration: nat, tbl: seq<nat>, probes: seq<nat>, next: nat,
                          final: seq<nat>) {
    && Searched(j, from, acceleration, tbl, probes) && next == NextProbe(from, acceleration, probes)
    && final == Filled(j, tbl, probes)
  }

  /** The search ends at the position that follows the probes: the candidate in its slot passes. */
  ghost predicate Hit(j: Job, from: nat, acceleration: nat, tbl: seq<nat>, probes: seq<nat>, ip: nat, mtch: nat,
                      final: seq<nat>)
    requires |tbl| == SLOTS && Hashable(j, probes)
  {
    && ip == NextProbe(from, acceleration, probes) && ip + Gap(acceleration, |probes|) + MFLIMIT - 1 <= |j.src|
    && ip + MFLIMIT <= |j.src|
    && var filled := Filled(j, tbl, probes);
       && Passes(j, filled[Slot(j, ip)], ip) && mtch == filled[Slot(j, ip)] - j.start
       && final == filled[Slot(j, ip) := j.start + ip]
  }

  lemma {:induction false} FilledMore(j: Job, tbl: seq<nat>, probes: seq<nat>, more: seq<nat>, ip: nat)
    requires |tbl| == SLOTS && Hashable(j, probes) && ip + MFLIMIT <= |j.src| && more == probes + [ip]
    ensures Hashable(j, more) && Filled(j, tbl, more) == Filled(j, tbl, probes)[Slot(j, ip) := j.start + ip]
  {
    assert more[..|more| - 1] == probes && more[|more| - 1] == ip;
  }

  lemma {:induction false} SearchedMore(j: Job, from: nat, acceleration: nat, tbl: seq<nat>, probes: seq<nat>, ip: nat)
    requires Searched(j, from, acceleration, tbl, probes)
    requires ip == NextProbe(from, acceleration, probes) && ip + MFLIMIT <= |j.src|
    requires !Passes(j, Filled(j, tbl, probes)[Slot(j, ip)], ip)
    ensures Searched(j, from, acceleration, tbl, probes + [ip])
    ensures NextProbe(from, acceleration, probes + [ip]) == ip + Gap(acceleration, |probes|)
  {
    assert (probes + [ip])[..|probes|] == probes;
    FilledMore(j, tbl, probes, probes + [ip], ip);
  }

  // ---------------------------------------------------------------- how a run ends

  /** The last search: the table in front of it, and the positions probed. */
  datatype Search = Search(tbl: seq<nat>, probes: seq<nat>)

  /** Behind the last match either the last search, which starts right behind it, has found nothing, or
      there is no position left to search. `final` is the table that the run leaves behind. */
  ghost predicate Ended(j: Job, acceleration: nat, anchor: nat, final: seq<nat>, last: Search) {
    || (|j.src| < LZ4_MINLENGTH && anchor == 0)
    || anchor + MFLIMIT > |j.src|
    || (Searched(j, anchor + 1, acceleration, last.tbl, last.probes)
        && InVain(j, anchor + 1, acceleration, last.probes) && final == Filled(j, last.tbl, last.probes))
  }

  /** Where a limited output was given up: what had been written, and the match that was next. */
  datatype Why = Why(op: nat, anchor: nat, m: int, start: nat, mtch: nat)

  /** What has been written encodes the input up to the anchor, and the sequence that is next does not fit. */
  ghost predicate SequenceTooLong(d: seq<byte>, j: Job, w: Why) {
    && Encoded(d, w.op, j.src, w.anchor, w.m)
    && w.anchor <= w.start && w.mtch < w.start && w.start + MFLIMIT <= |j.src|
    && TrueMatch(j.src, w.start, w.start - w.mtch, MINMATCH)
    && var literals := w.start - w.anchor;
       || LiteralsTooLong(w.op, literals, j.limit)
       || LengthTooLong(w.op + 1 + Extension(literals) + literals + 2, Longest(j, w.start, w.mtch), j.limit)
  }

  lemma GivenUp(d: seq<byte>, j: Job, op: nat, w: Why, top: nat)
    requires Encoded(d, w.op, j.src, w.anchor, w.m) && w.anchor <= w.start && MatchAt(j, w.start, w.mtch, top)
    requires op == w.op + 1 + Extension(w.start - w.anchor) + (w.start - w.anchor)
    requires LengthTooLong(op + 2, Longest(j, w.start, w.mtch), j.limit)
    ensures SequenceTooLong(d, j, w)
  {
  }

  lemma GivenUpEarly(d: seq<byte>, j: Job, w: Why, top: nat)
    requires Head(d, w.op, j, w.anchor, w.m) && w.anchor <= w.start && MatchAt(j, w.start, w.mtch, top)
    requires LiteralsTooLong(w.op, w.start - w.anchor, j.limit)
    ensures SequenceTooLong(d, j, w)
  {
  }

  /** What has been written encodes the input up to the anchor, and the rest of it does not fit. */
  ghost predicate RestTooLong(d: seq<byte>, j: Job, w: Why) {
    && w.anchor <= |j.src| && Encoded(d, w.op, j.src, w.anchor, w.m)
    && LastTooLong(w.op, |j.src| - w.anchor, j.limit)
  }

  /** A match that reaches the end and whose length fits behind `op`. */
  ghost predicate LastOne(j: Job, op: nat, ip: nat, mtch: nat)
    requires mtch < ip && ip + MFLIMIT <= |j.src|
  {
    var code := Longest(j, ip, mtch);
    && j.mode != FillOutput && ip + MINMATCH + code + MFLIMIT > |j.src|
    && (j.mode == LimitedOutput ==> !LengthTooLong(op + 2, code, j.limit))
  }

  /** The candidate of the second byte is the first byte, and their match is the only sequence. */
  ghost predicate AtOnce(j: Job, tbl: seq<nat>) {
    && |tbl| == SLOTS && |j.src| >= LZ4_MINLENGTH && tbl[Slot(j, 1)] == j.start && Passes(j, j.start, 1)
    && LastOne(j, 2, 1, 0) && (j.mode == LimitedOutput ==> !LiteralsTooLong(0, 1, j.limit))
  }

  /** Then the search that starts there finds it at once. */
  lemma FoundAtOnce(j: Job, tbl: seq<nat>, acceleration: nat, probes: seq<nat>, found: bool, ip: nat, mtch: nat,
                    final: seq<nat>)
    requires AtOnce(j, tbl) && Searched(j, 1, acceleration, tbl, probes)
    requires if found then Hit(j, 1, acceleration, tbl, probes, ip, mtch, final) else InVain(j, 1, acceleration, probes)
    ensures found && ip == 1 && mtch == 0
  {
    if probes != [] {
      FirstFails(j, 1, acceleration, tbl, probes);
    }
  }

  lemma {:induction false} FirstFails(j: Job, from: nat, acceleration: nat, tbl: seq<nat>, probes: seq<nat>)
    requires Searched(j, from, acceleration, tbl, probes) && probes != []
    ensures from + MFLIMIT <= |j.src| && !Passes(j, tbl[Slot(j, from)], from)
  {
    var front := probes[..|probes| - 1];
    if front != [] {
      FirstFails(j, from, acceleration, tbl, front);
    }
  }

  /** An input of one byte over and over. */
  predicate OneByte(src: seq<byte>) {
    forall k :: 0 <= k < |src| ==> src[k] == src[0]
  }

  /** Such an input at the start of a table that is empty, with room enough. */
  ghost predicate EasyStart(j: Job, tbl: seq<nat>) {
    && OneByte(j.src) && |j.src| >= LZ4_MINLENGTH && j.start == 0 && j.mode != FillOutput
    && (j.mode == LimitedOutput ==> j.limit >= |j.src| / 255 + 16)
    && |tbl| == SLOTS && forall h :: 0 <= h < SLOTS ==> tbl[h] == 0
  }

  /** Its second byte is a match for its first one, as long as a match may be. */
  lemma EasyMatch(j: Job, tbl: seq<nat>)
    requires EasyStart(j, tbl)
    ensures AtOnce(j, tbl) && Longest(j, 1, 0) == |j.src| - 10
    ensures j.mode == LimitedOutput ==> !LastTooLong(4 + Extension(|j.src| - 10), 5, j.limit)
    ensures 10 + Extension(|j.src| - 10) <= |j.src| / 255 + 16
  {
    assert j.src[0..4] == j.src[1..5];
    AllCommon(j.src, 5, 4, |j.src| - 5);
    ExtensionFormula(|j.src| - 10);
  }

  lemma {:induction false} AllCommon(src: seq<byte>, p: nat, q: nat, limit: nat)
    requires OneByte(src) && q <= p <= limit <= |src|
    ensures Common(src, p, q, limit) == limit - p
    decreases limit - p
  {
    if p < limit {
      assert src[p] == src[0] && src[q] == src[0];
      AllCommon(src, p + 1, q + 1, limit);
    }
  }

  class FastState {
    var hashTable: array<nat>
    var currentOffset: nat
    var tableType: TableType

    /** LZ4_putIndexOnHash: the index is stored in 16 or 32 bits. */
    method Put(pos: nat, h: nat, j: Job)
      requires hashTable.Length == SLOTS && pos + MFLIMIT <= |j.src| && h < SLOTS && IndicesFit(j)
      modifies hashTable
      ensures hashTable[..] == old(hashTable[..])[h := j.start + pos]
    {
      hashTable[h] := if j.t == ByU16 then (j.start + pos) % 65536 else (j.start + pos) % U32_SIZE;
    }

    /** The tests a candidate has to pass; they make it a match inside this input. */
    method IsMatch(matchIndex: nat, ip: nat, j: Job, ghost tbl: seq<nat>, ghost h: nat) returns (found: bool)
      requires Table(tbl, j, ip) && h < SLOTS && matchIndex == tbl[h]
      requires ip + MFLIMIT <= |j.src| && IndicesFit(j)
      ensures found <==> Passes(j, matchIndex, ip)
      ensures found <==>
                && j.start <= matchIndex && (j.t == ByU16 || j.start + ip - matchIndex <= 65535)
                && j.src[matchIndex - j.start..matchIndex - j.start + 4] == j.src[ip..ip + 4]
      ensures found ==> j.start <= matchIndex && MatchAt(j, ip, matchIndex - j.start, ip)
    {
      var current := j.start + ip;
      if j.small && matchIndex < j.start {
        return false;
      }
      if j.t != ByU16 && matchIndex + DISTANCE_MAX < current {
        return false;
      }
      var mtch := matchIndex - j.start;
      found := j.src[mtch..mtch + 4] == j.src[ip..ip + 4];
      if found {
        FourBytesMatch(j.src, ip, mtch);
      }
    }

    /** A position is stored in its slot, and the candidate that the slot held is tested. */
    method Probe(j: Job, ip: nat, h: nat) returns (found: bool, mtch: nat)
      requires ip + MFLIMIT <= |j.src| && h == Slot(j, ip) && IndicesFit(j) && Table(hashTable[..], j, ip)
      modifies hashTable
      ensures hashTable[..] == old(hashTable[..])[h := j.start + ip] && Table(hashTable[..], j, ip + 1)
      ensures found <==> Passes(j, old(hashTable[..])[h], ip)
      ensures found ==> mtch == old(hashTable[..])[h] - j.start && MatchAt(j, ip, mtch, ip)
    {
      var matchIndex := hashTable[h];
      ghost var before := hashTable[..];
      TablePut(before, j, ip, ip, h);
      Put(ip, h, j);
      found := IsMatch(matchIndex, ip, j, before, h);
      mtch := if found then matchIndex - j.start else 0;
    }

    /** The search for the next match: it ends at the first position probed whose candidate passes. The
        step widens the longer nothing is found. */
    method FindMatch(j: Job, ip0: nat, h0: nat, acceleration: nat)
      returns (found: bool, ip: nat, mtch: nat, ghost probes: seq<nat>)
      requires 1 <= ip0 && ip0 + MFLIMIT - 1 <= |j.src| && h0 == Slot(j, ip0) && acceleration >= 1
      requires Table(hashTable[..], j, ip0) && IndicesFit(j)
      modifies hashTable
      ensures found ==> ip0 <= ip && MatchAt(j, ip, mtch, ip) && Table(hashTable[..], j, ip + 1)
      ensures Table(hashTable[..], j, |j.src|)
      ensures Searched(j, ip0, acceleration, old(hashTable[..]), probes)
      ensures found ==> Hit(j, ip0, acceleration, old(hashTable[..]), probes, ip, mtch, hashTable[..])
      ensures !found ==> InVain(j, ip0, acceleration, probes) && hashTable[..] == Filled(j, old(hashTable[..]), probes)
    {
      var mflimitPlusOne := |j.src| - MFLIMIT + 1;
      var forwardIp, forwardH := ip0, h0;
      var step, searchMatchNb := 1, acceleration * 64;
      probes := [];
      ghost var tbl := hashTable[..];
      while true
        invariant ip0 <= forwardIp <= mflimitPlusOne && forwardH == Slot(j, forwardIp)
        invariant step == Gap(acceleration, |probes|) >= 1 && searchMatchNb == acceleration * 64 + |probes|
        invariant Table(hashTable[..], j, forwardIp)
        invariant Probing(j, ip0, acceleration, tbl, probes, forwardIp, hashTable[..])
        decreases |j.src| - forwardIp
      {
        var h := forwardH;
        ip := forwardIp;
        forwardIp := forwardIp + step;
        step := searchMatchNb / 64;
        searchMatchNb := searchMatchNb + 1;
        if forwardIp > mflimitPlusOne {
          return false, ip, 0, probes;
        }
        forwardH := Slot(j, forwardIp);
        found, mtch, probes := ProbeNext(j, ip0, ip, h, acceleration, tbl, probes);
        if found {
          return;
        }
      }
    }

    /** One more probe of a search. */
    method ProbeNext(j: Job, ghost ip0: nat, ip: nat, h: nat, ghost acceleration: nat, ghost tbl: seq<nat>,
                     ghost probes0: seq<nat>)
      returns (found: bool, mtch: nat, ghost probes: seq<nat>)
      requires ip + MFLIMIT <= |j.src| && h == Slot(j, ip) && IndicesFit(j) && Table(hashTable[..], j, ip)
      requires Probing(j, ip0, acceleration, tbl, probes0, ip, hashTable[..])
      requires ip + Gap(acceleration, |probes0|) + MFLIMIT - 1 <= |j.src|
      modifies hashTable
      ensures Table(hashTable[..], j, ip + 1)
      ensures Searched(j, ip0, acceleration, tbl, probes)
      ensures found ==> MatchAt(j, ip, mtch, ip) && Hit(j, ip0, acceleration, tbl, probes, ip, mtch, hashTable[..])
      ensures !found ==> |probes| == |probes0| + 1
      ensures !found ==>
                Probing(j, ip0, acceleration, tbl, probes, ip + Gap(acceleration, |probes0|), hashTable[..])
    {
      found, mtch := Probe(j, ip, h);
      probes := probes0;
      if !found {
        SearchedMore(j, ip0, acceleration, tbl, probes, ip);
        FilledMore(j, tbl, probes, probes + [ip], ip);
        probes := probes + [ip];
      }
    }

    /** The test at the position right behind a match, after the position two bytes before it has been
        stored. */
    method TestNext(j: Job, ip: nat) returns (found: bool, mtch: nat)
      requires 2 <= ip && ip + MFLIMIT <= |j.src| && IndicesFit(j)
      requires Table(hashTable[..], j, ip)
      modifies hashTable
      ensures found ==> MatchAt(j, ip, mtch, ip)
      ensures Table(hashTable[..], j, ip + 1)
      ensures var tbl := old(hashTable[..])[Slot(j, ip - 2) := j.start + ip - 2];
              && (found <==> Passes(j, tbl[Slot(j, ip)], ip)) && (found ==> mtch == tbl[Slot(j, ip)] - j.start)
              && hashTable[..] == tbl[Slot(j, ip) := j.start + ip]
    {
      TablePut(hashTable[..], j, ip, ip - 2, Slot(j, ip - 2));
      Put(ip - 2, Slot(j, ip - 2), j);
      found, mtch := Probe(j, ip, Slot(j, ip));
    }

    /** Positions beyond the end of a match that was cut are taken out of the table. */
    method ClearPositions(j: Job, from: nat, filled: nat)
      requires 1 <= from <= filled && filled + 8 <= |j.src| && j.mode == FillOutput
      requires Table(hashTable[..], j, filled + 1)
      modifies hashTable
      ensures Table(hashTable[..], j, from)
    {
      var ptr := from;
      while ptr <= filled
        invariant from <= ptr <= filled + 1
        invariant Table(hashTable[..], j, filled + 1)
        invariant forall h :: 0 <= h < SLOTS ==> hashTable[h] < from || ptr <= hashTable[h]
      {
        hashTable[Slot(j, ptr)] := 0;
        ptr := ptr + 1;
      }
    }

    method ForgetBeyond(j: Job, ip: nat, filledIp: nat, ghost top: nat)
      requires 1 <= ip && top + 8 <= |j.src| && (top == filledIp || (filledIp < ip && top < ip)) && j.mode == FillOutput
      requires Table(hashTable[..], j, top + 1)
      modifies hashTable
      ensures Table(hashTable[..], j, ip)
    {
      if ip <= filledIp {
        ClearPositions(j, ip, filledIp);
      }
    }

    /** From a match that was found to the end of the sequence: rewind when the budget is
        nearly spent, write the offset, measure the match, and write its length. */
    method EncodeMatch(dst: array<byte>, j: Job, token: nat, op0: nat, anchor: nat, ip0: nat, mtch: nat, filledIp: nat,
                       ghost m: int, ghost d0: seq<byte>, ghost top: nat)
      returns (status: Status, op: nat, ip: nat)
      requires Pending(d0, dst[..], token, op0, j, anchor, ip0, m) && MatchAt(j, ip0, mtch, top)
      requires top == filledIp || (filledIp < ip0 && top == ip0) || Full(j, op0 - 1)
      requires Table(hashTable[..], j, top + 1)
      modifies dst, hashTable
      ensures var code := Longest(j, ip0, mtch);
              && (status.NoSpace? <==> j.mode == LimitedOutput && LengthTooLong(op0 + 2, code, j.limit))
              && (status.Emitted? && j.mode != FillOutput ==>
                    op == op0 + 2 + Extension(code) && ip == ip0 + MINMATCH + code)
      ensures status.Rewind? ==> j.mode == FillOutput && Head(dst[..], token, j, anchor, m)
      ensures status.NoSpace? ==> Encoded(dst[..], token, j.src, anchor, m)
      ensures j.mode != FillOutput ==> hashTable[..] == old(hashTable[..])
      ensures Table(hashTable[..], j, |j.src|)
      ensures status.Emitted? ==> ip0 + MINMATCH <= ip && Head(dst[..], op, j, ip, ip0) && Table(hashTable[..], j, ip)
                                  && (top < ip || Full(j, op)) && !Full(j, op0 - 1)
    {
      op, ip := op0, ip0;
      if j.mode == FillOutput && op + 2 + 1 + MFLIMIT - MINMATCH > j.limit {
        return Rewind, op, ip;
      }
      PutOffset(dst, j, token, op, anchor, ip, ip - mtch, m, d0);
      var matchCode, cut;
      status, matchCode, cut := ChooseLength(j, op + 2, ip, mtch, top);
      if cut {
        ForgetBeyond(j, ip + matchCode + MINMATCH, filledIp, top);
      }
      if status.Emitted? {
        op := FinishSequence(dst, j, token, op0, anchor, ip0, ip - mtch, matchCode, m, d0);
        ip := ip + matchCode + MINMATCH;
      }
    }

    /** One sequence, and whether the position behind it starts a match again: then its token stands there,
        without literals. */
    method OneSequence(dst: array<byte>, j: Job, token: nat, op0: nat, anchor: nat, ip0: nat, mtch: nat, filledIp: nat,
                       ghost m: int, ghost d0: seq<byte>, ghost top: nat)
      returns (status: Status, again: bool, op: nat, ip: nat, next: nat, ghost d: seq<byte>)
      requires Pending(d0, dst[..], token, op0, j, anchor, ip0, m) && MatchAt(j, ip0, mtch, top)
      requires top == filledIp || (filledIp < ip0 && top == ip0) || Full(j, op0 - 1)
      requires Table(hashTable[..], j, top + 1) && IndicesFit(j)
      modifies dst, hashTable
      ensures status.NoSpace? ==>
                j.mode == LimitedOutput && SequenceTooLong(dst[..], j, Why(token, anchor, m, ip0, mtch))
      ensures status.Rewind? ==> j.mode == FillOutput && Head(dst[..], token, j, anchor, m)
      ensures status.Emitted? ==> ip0 < ip && (filledIp < ip || Full(j, op))
      ensures status.Emitted? && !again ==> Head(dst[..], op, j, ip, ip0)
      ensures status.Emitted? && ip + MFLIMIT <= |j.src| ==> Table(hashTable[..], j, ip + 1)
      ensures Table(hashTable[..], j, |j.src|)
      ensures again ==> status.Emitted? && ip + MFLIMIT <= |j.src| && MatchAt(j, ip, next, ip)
                        && Pending(d, dst[..], op, op + 1, j, ip, ip, ip0)
      ensures LastOne(j, op0, ip0, mtch) ==>
                && status.Emitted? && !again && op == op0 + 2 + Extension(Longest(j, ip0, mtch))
                && ip == ip0 + MINMATCH + Longest(j, ip0, mtch) && ip + MFLIMIT > |j.src|
    {
      status, op, ip := EncodeMatch(dst, j, token, op0, anchor, ip0, mtch, filledIp, m, d0, top);
      again, next, d := false, 0, dst[..];
      if status.NoSpace? {
        GivenUp(dst[..], j, op0, Why(token, anchor, m, ip0, mtch), top);
      } else if status.Emitted? && ip < |j.src| - MFLIMIT + 1 {
        again, next := TestNext(j, ip);
        if again {
          EmptyLiterals(dst, op, j, ip, ip0);
        }
      }
    }

    /** Everything from a match that was found up to the next search: one sequence after the
        other as long as the position behind a match starts a match again. */
    method MatchRun(dst: array<byte>, j: Job, token0: nat, op0: nat, anchor0: nat, ip0: nat, mtch0: nat, filledIp: nat,
                    ghost m0: int, ghost d0: seq<byte>)
      returns (failed: bool, stop: bool, op: nat, anchor: nat, ghost m: int, ghost why: Why)
      requires Pending(d0, dst[..], token0, op0, j, anchor0, ip0, m0) && MatchAt(j, ip0, mtch0, filledIp)
      requires Table(hashTable[..], j, filledIp + 1) && IndicesFit(j)
      modifies dst, hashTable
      ensures failed ==> j.mode == LimitedOutput && SequenceTooLong(dst[..], j, why)
      ensures !failed ==> Head(dst[..], op, j, anchor, m)
      ensures !failed && stop && j.mode != FillOutput ==> anchor + MFLIMIT > |j.src|
      ensures !failed && !stop ==> filledIp < anchor || Full(j, op)
      ensures !failed && !stop ==> anchor + MFLIMIT <= |j.src| && Table(hashTable[..], j, anchor + 1)
      ensures Table(hashTable[..], j, |j.src|)
      ensures LastOne(j, op0, ip0, mtch0) ==>
                && !failed && stop && op == op0 + 2 + Extension(Longest(j, ip0, mtch0))
                && anchor == ip0 + MINMATCH + Longest(j, ip0, mtch0)
    {
      var token: nat, q: nat, ip: nat, mtch: nat := token0, op0, ip0, mtch0;
      anchor, m := anchor0, m0;
      ghost var d: seq<byte>, top: nat := d0, filledIp;
      ghost var alone := LastOne(j, op0, ip0, mtch0);
      while true
        invariant Pending(d, dst[..], token, q, j, anchor, ip, m) && MatchAt(j, ip, mtch, top)
        invariant top == filledIp || (filledIp < ip && top == ip) || Full(j, q - 1)
        invariant Table(hashTable[..], j, top + 1)
        invariant alone ==> q == op0 && ip == ip0 && mtch == mtch0
        decreases |j.src| - ip
      {
        var status, again, end, next;
        why := Why(token, anchor, m, ip, mtch);
        status, again, op, end, next, d := OneSequence(dst, j, token, q, anchor, ip, mtch, filledIp, m, d, top);
        failed, stop := status.NoSpace?, true;
        if !status.Emitted? {
          op := token;
          return;
        }
        anchor, m := end, ip;
        if !again {
          stop := end >= |j.src| - MFLIMIT + 1;
          return;
        }
        token, q, ip, mtch, top := op, op + 1, end, next, end;
      }
    }

    /** From a match that the search has found to the next search: the literals in front of it, and the
        sequences that follow one another from there. */
    method Sequences(dst: array<byte>, j: Job, token: nat, anchor0: nat, ip: nat, mtch: nat, filledIp: nat,
                     ghost m0: int)
      returns (failed: bool, stop: bool, op: nat, anchor: nat, ghost m: int, ghost why: Why)
      requires Head(dst[..], token, j, anchor0, m0) && anchor0 <= ip && MatchAt(j, ip, mtch, filledIp)
      requires Table(hashTable[..], j, filledIp + 1) && IndicesFit(j)
      modifies dst, hashTable
      ensures failed ==> j.mode == LimitedOutput && SequenceTooLong(dst[..], j, why)
      ensures !failed ==> Head(dst[..], op, j, anchor, m)
      ensures !failed && stop && j.mode != FillOutput ==> anchor + MFLIMIT > |j.src|
      ensures !failed && !stop ==> !Full(j, token) && (filledIp < anchor || Full(j, op))
      ensures !failed && !stop ==> anchor + MFLIMIT <= |j.src| && Table(hashTable[..], j, anchor + 1)
      ensures Table(hashTable[..], j, |j.src|)
      ensures LastOne(j, AfterLiterals(token, ip - anchor0), ip, mtch)
              && (j.mode == LimitedOutput ==> !LiteralsTooLong(token, ip - anchor0, j.limit)) ==>
                && !failed && stop && anchor == ip + MINMATCH + Longest(j, ip, mtch)
                && op == AfterLiterals(token, ip - anchor0) + 2 + Extension(Longest(j, ip, mtch))
    {
      ghost var d := dst[..];
      why := Why(token, anchor0, m0, ip, mtch);
      var status, q := EncodeLiterals(dst, token, j, anchor0, ip, m0);
      if status.Emitted? {
        failed, stop, op, anchor, m, why := MatchRun(dst, j, token, q, anchor0, ip, mtch, filledIp, m0, d);
      } else {
        failed, stop, op, anchor, m := status.NoSpace?, true, token, anchor0, m0;
        if failed {
          GivenUpEarly(d, j, why, filledIp);
        }
      }
    }

    /** One search, and what follows from a match that it finds. */
    method Round(dst: array<byte>, j: Job, acceleration: nat, token: nat, anchor0: nat, h: nat, ghost m0: int)
      returns (failed: bool, stop: bool, op: nat, anchor: nat, ghost m: int, ghost why: Why, ghost last: Search)
      requires acceleration >= 1 && Head(dst[..], token, j, anchor0, m0) && anchor0 + MFLIMIT <= |j.src|
      requires h == Slot(j, anchor0 + 1) && Table(hashTable[..], j, anchor0 + 1) && IndicesFit(j)
      modifies dst, hashTable
      ensures failed ==> j.mode == LimitedOutput && SequenceTooLong(dst[..], j, why)
      ensures !failed ==> Head(dst[..], op, j, anchor, m)
      ensures !failed && stop && j.mode != FillOutput ==> Ended(j, acceleration, anchor, hashTable[..], last)
      ensures !failed && !stop ==> !Full(j, token) && (anchor0 < anchor || Full(j, op))
      ensures !failed && !stop ==> anchor + MFLIMIT <= |j.src| && Table(hashTable[..], j, anchor + 1)
      ensures Table(hashTable[..], j, |j.src|)
      ensures token == anchor0 == 0 && AtOnce(j, old(hashTable[..])) ==>
                !failed && stop && anchor == 5 + Longest(j, 1, 0) && op == 4 + Extension(Longest(j, 1, 0))
    {
      ghost var tbl := hashTable[..];
      var found, filledIp, mtch, probes := FindMatch(j, anchor0 + 1, h, acceleration);
      last, why := Search(tbl, probes), Why(token, anchor0, m0, 0, 0);
      if token == anchor0 == 0 && AtOnce(j, tbl) {
        FoundAtOnce(j, tbl, acceleration, probes, found, filledIp, mtch, hashTable[..]);
      }
      if found {
        var ip;
        ip, mtch := CatchUp(j.src, anchor0, filledIp, mtch);
        failed, stop, op, anchor, m, why := Sequences(dst, j, token, anchor0, ip, mtch, filledIp, m0);
      } else {
        failed, stop, op, anchor, m := false, true, token, anchor0, m0;
      }
    }

    /** The loop of LZ4_compress_generic, up to the closing literals. */
    method MainLoop(dst: array<byte>, j: Job, acceleration: nat)
      returns (failed: bool, op: nat, anchor: nat, ghost m: int, ghost why: Why, ghost last: Search)
      requires LZ4_MINLENGTH <= |j.src| <= MAX_INPUT_SIZE && acceleration >= 1
      requires Buffer(j.mode, |j.src|, j.limit, dst.Length)
      requires Table(hashTable[..], j, 1) && IndicesFit(j)
      modifies dst, hashTable
      ensures failed ==> j.mode == LimitedOutput && SequenceTooLong(dst[..], j, why)
      ensures !failed ==> Head(dst[..], op, j, anchor, m)
      ensures !failed && j.mode != FillOutput ==> Ended(j, acceleration, anchor, hashTable[..], last)
      ensures AtOnce(j, old(hashTable[..])) ==>
                !failed && anchor == 5 + Longest(j, 1, 0) && op == 4 + Extension(Longest(j, 1, 0))
      ensures Table(hashTable[..], j, |j.src|)
    {
      var ip := 1;
      var forwardH := Slot(j, ip);
      op, anchor, m := 0, 0, -1;
      HeadStart(dst[..], j);
      while true
        invariant Head(dst[..], op, j, anchor, m)
        invariant ip == anchor + 1 && anchor + MFLIMIT <= |j.src| && forwardH == Slot(j, ip)
        invariant Table(hashTable[..], j, ip)
        invariant AtOnce(j, old(hashTable[..])) ==> op == anchor == 0 && hashTable[..] == old(hashTable[..])
        decreases if Full(j, op) then 0 else 1, |j.src| - ip
      {
        var stop;
        failed, stop, op, anchor, m, why, last := Round(dst, j, acceleration, op, anchor, forwardH, m);
        if failed || stop {
          return;
        }
        ip := anchor + 1;
        forwardH := Slot(j, ip);
      }
    }

    // ---------------------------------------------------------------- one table, many calls

    /** The invariant of a state over its whole life: entries name positions of past inputs,
        and the table is empty as long as it has no type. */
    ghost predicate Valid()
      reads this, hashTable
    {
      && hashTable.Length == SLOTS
      && (forall h :: 0 <= h < SLOTS ==> hashTable[h] == 0 || hashTable[h] < currentOffset)
      && (tableType == ClearedTable ==> currentOffset == 0)
      && (tableType == ByU16 ==> currentOffset < LZ4_64KLIMIT)
      && currentOffset < U32_SIZE
    }

    /** A state in which an input of `n` bytes may be compressed with tables of type `t`. */
    ghost predicate Ready(n: nat, t: TableType, small: bool, mode: OutputMode)
      reads this, hashTable
    {
      && Valid() && t != ClearedTable && (tableType == t || tableType == ClearedTable)
      && (currentOffset > 0 && !small ==>
            t == ByU32 && forall h :: 0 <= h < SLOTS ==> hashTable[h] + DISTANCE_MAX < currentOffset)
      && (t == ByU16 && n < LZ4_64KLIMIT ==> currentOffset + n < LZ4_64KLIMIT)
      && (n <= MAX_INPUT_SIZE ==> currentOffset + n < U32_SIZE)
      && (mode == FillOutput ==> currentOffset == 0)
    }

    ghost predicate Cleared()
      reads this, hashTable
    {
      hashTable.Length == SLOTS && currentOffset == 0 && forall h :: 0 <= h < SLOTS ==> hashTable[h] == 0
    }

    /** LZ4_createStream */
    constructor ()
      ensures Valid() && fresh(hashTable) && currentOffset == 0 && tableType == ClearedTable
    {
      hashTable := new nat[SLOTS](_ => 0);
      currentOffset, tableType := 0, ClearedTable;
    }

    /** LZ4_initStream */
    method InitStream()
      requires hashTable.Length == SLOTS
      modifies this, hashTable
      ensures Valid() && Cleared() && hashTable == old(hashTable) && tableType == ClearedTable
    {
      ClearTable();
      currentOffset, tableType := 0, ClearedTable;
    }

    method ClearTable()
      modifies hashTable
      ensures forall h :: 0 <= h < hashTable.Length ==> hashTable[h] == 0
    {
      forall h | 0 <= h < hashTable.Length {
        hashTable[h] := 0;
      }
    }

    /** LZ4_prepareTable: keeps the table of the previous call where that is safe. */
    method PrepareTable(inputSize: nat, t: TableType)
      requires Valid() && t != ClearedTable
      modifies this, hashTable
      ensures hashTable == old(hashTable)
      ensures Ready(inputSize, t, t == ByU16 && currentOffset > 0, NotLimited)
      ensures var start := old(currentOffset);
              if old(tableType) != ClearedTable
                 && (old(tableType) != t || inputSize >= 4096 || (t == ByU16 && start + inputSize >= 65535)
                     || (t == ByU32 && start > 0x4000_0000))
              then Cleared() && tableType == ClearedTable
              else hashTable[..] == old(hashTable[..]) && tableType == old(tableType)
                   && currentOffset == if start > 0 && t == ByU32 then start + 65536 else start
    {
      if tableType != ClearedTable {
        if tableType != t
           || (t == ByU16 && currentOffset + inputSize >= 0xFFFF)
           || (t == ByU32 && currentOffset > GB)
           || inputSize >= 4096
        {
          ClearTable();
          currentOffset, tableType := 0, ClearedTable;
        }
      }
      if currentOffset != 0 && t == ByU32 {
        currentOffset := currentOffset + 65536;
      }
    }

    /** LZ4_resetStream_fast */
    method ResetStreamFast()
      requires Valid()
      modifies this, hashTable
      ensures Valid() && hashTable == old(hashTable)
    {
      PrepareTable(0, ByU32);
    }

    /** LZ4_compress_generic. A result of 0 means that the input is not supported or, with a
        limited output, that a sequence or the last literals that were reached do not fit. */
    method CompressGeneric(dst: array<byte>, j: Job, acceleration: nat)
      returns (r: nat, consumed: nat, ghost tail: nat, ghost why: Why, ghost last: Search)
      requires Ready(|j.src|, j.t, j.small, j.mode) && j.start == currentOffset && acceleration >= 1
      requires |j.src| <= MAX_INPUT_SIZE ==> Buffer(j.mode, |j.src|, j.limit, dst.Length)
      modifies dst, this`currentOffset, this`tableType, hashTable
      ensures Valid()
      ensures r > 0 ==> r <= dst.Length && Block(dst[..r], j, consumed)
      ensures r == 0 ==>
                || (j.mode == FillOutput && j.limit < 1) || |j.src| > MAX_INPUT_SIZE
                || (j.t == ByU16 && |j.src| >= LZ4_64KLIMIT)
                || (j.mode == LimitedOutput && SequenceTooLong(dst[..], j, why))
                || (j.mode == LimitedOutput && RestTooLong(dst[..], j, why)
                    && Ended(j, acceleration, why.anchor, hashTable[..], last))
      ensures r > 0 && j.mode != FillOutput ==>
                && tail + DecodeBlock(dst[..r]).lastRun == |j.src|
                && Ended(j, acceleration, tail, hashTable[..], last)
      ensures |j.src| <= MAX_INPUT_SIZE && (j.t == ByU16 ==> |j.src| < LZ4_64KLIMIT) ==>
                EasyStart(j, old(hashTable[..])) ==> 0 < r <= |j.src| / 255 + 16
    {
      var n := |j.src|;
      r, consumed, tail, why, last := 0, 0, 0, Why(0, 0, -1, 0, 0), Search([], []);
      if j.mode == FillOutput && j.limit < 1 {
        return;
      }
      if n > MAX_INPUT_SIZE {
        return;
      }
      if j.t == ByU16 && n >= LZ4_64KLIMIT {
        return;
      }
      currentOffset := currentOffset + n;
      tableType := j.t;
      r, consumed, tail, why, last := CompressAndClose(dst, j, acceleration);
    }

    /** The sequences and the last literals. */
    method CompressAndClose(dst: array<byte>, j: Job, acceleration: nat)
      returns (r: nat, consumed: nat, ghost tail: nat, ghost why: Why, ghost last: Search)
      requires |j.src| <= MAX_INPUT_SIZE && acceleration >= 1 && Buffer(j.mode, |j.src|, j.limit, dst.Length)
      requires (j.mode == FillOutput ==> j.limit >= 1) && IndicesFit(j) && Table(hashTable[..], j, 1)
      modifies dst, hashTable
      ensures r > 0 ==> r <= dst.Length && Block(dst[..r], j, consumed)
      ensures r == 0 ==>
                && j.mode == LimitedOutput
                && (SequenceTooLong(dst[..], j, why)
                    || (RestTooLong(dst[..], j, why) && Ended(j, acceleration, why.anchor, hashTable[..], last)))
      ensures r > 0 && j.mode != FillOutput ==>
                && tail + DecodeBlock(dst[..r]).lastRun == |j.src|
                && Ended(j, acceleration, tail, hashTable[..], last)
      ensures EasyStart(j, old(hashTable[..])) ==> 0 < r <= |j.src| / 255 + 16
      ensures |j.src| >= LZ4_MINLENGTH ==> Table(hashTable[..], j, |j.src|)
      ensures |j.src| < LZ4_MINLENGTH ==> hashTable[..] == old(hashTable[..])
    {
      var op, anchor, failed := 0, 0, false;
      ghost var m := -1;
      r, consumed, tail, why, last := 0, 0, 0, Why(0, 0, -1, 0, 0), Search([], []);
      if |j.src| >= LZ4_MINLENGTH {
        ghost var tbl := hashTable[..];
        TablePut(tbl, j, 1, 0, Slot(j, 0));
        Put(0, Slot(j, 0), j);
        if EasyStart(j, tbl) {
          assert EasyStart(j, hashTable[..]);
          EasyMatch(j, hashTable[..]);
        }
        failed, op, anchor, m, why, last := MainLoop(dst, j, acceleration);
        if failed {
          return;
        }
      } else {
        HeadStart(dst[..], j);
      }
      r, consumed := EncodeLast(dst, j, op, anchor, m);
      why, tail := Why(op, anchor, m, 0, 0), anchor;
    }
  }
}
