/** LZ4HC_InsertAndGetWiderMatch without a dictionary: the search along the hash chain, with
    the jump to a better chain, the shortcut for repeated patterns, and the distances that are
    passed over in favour of decompression speed. What is passed over without being compared
    is proved to be no wider than what is found. */
module Lz4hcSearch {
  import opened Lz4Format
  import opened Lz4Count
  import opened Lz4Emit
  import opened Lz4hcIndex
  import opened Lz4hcMatch

  /** The directives of a search. */
  datatype Effort = Effort(maxNbAttempts: nat, patternAnalysis: bool, chainSwap: bool, favorDecSpeed: bool)

  // ---------------------------------------------------------------- what has been looked at

  /** How far back a match counts: behind the shortcut for patterns only what lies ahead does. */
  function From(q: Query, e: Effort): nat {
    if e.patternAnalysis then q.ip else q.iLow
  }

  /** The length of the widest match of a candidate. */
  function WidthOf(q: Query, e: Effort, c: nat): nat
    requires Sound(q) && c <= q.ip
  {
    Width(q.j.src, q.ip, c, From(q, e), q.iHigh)
  }

  lemma LookingBackIsWider(q: Query, e: Effort, c: nat)
    requires Sound(q) && c <= q.ip
    ensures WidthOf(q, e, c) <= Width(q.j.src, q.ip, c, q.iLow, q.iHigh)
  {
  }

  /** A candidate is too near when decompression speed is favoured. */
  predicate TooNear(q: Query, e: Effort, c: nat)
    requires c <= q.ip
  {
    e.favorDecSpeed && q.ip - c < 8
  }

  /** A candidate is no wider than `longest`, or too near. */
  ghost predicate Considered(q: Query, e: Effort, c: nat, longest: nat)
    requires Sound(q) && c <= q.ip
  {
    TooNear(q, e, c) || WidthOf(q, e, c) <= longest
  }

  /** Everything of the window from index `m` on has been considered. */
  ghost predicate Tried(q: Query, e: Effort, m: nat, longest: nat)
    requires Sound(q)
  {
    forall c :: Lowest(q.ip) <= c < q.ip && q.j.base + c >= m ==> Considered(q, e, c, longest)
  }

  /** The same above index `m`, but for candidates that are no wider than the one at `m`. */
  ghost predicate Covered(q: Query, e: Effort, m: nat, longest: nat)
    requires Sound(q)
  {
    forall c :: Lowest(q.ip) <= c < q.ip && q.j.base + c > m ==>
      Considered(q, e, c, longest)
      || (m >= q.j.base + Lowest(q.ip) && WidthOf(q, e, c) <= WidthOf(q, e, m - q.j.base))
  }

  /** Index `m` is on the chain of the position `pos` bytes behind `ip`, seen from there, or out of
      the window. */
  ghost predicate OnChain(q: Query, m: nat, pos: nat)
    requires Sound(q)
  {
    m >= q.j.base + Lowest(q.ip) ==>
      && m + pos < q.j.base + q.ip && q.ip + pos + 4 <= |q.j.src|
      && Slot(q.j, m - q.j.base + pos) == Slot(q.j, q.ip + pos)
  }

  /** A position whose four bytes every match wider than `longest` covers. */
  ghost predicate Inside(q: Query, pos: nat, longest: nat) {
    pos == 0 || (q.ip == q.iLow && pos + MINMATCH <= longest)
  }

  /** Behind the candidate at `m` nothing from there on is left. */
  lemma VisitedIsTried(q: Query, e: Effort, m: nat, before: nat, longest: nat)
    requires Sound(q) && Covered(q, e, m, before) && before <= longest
    requires q.j.base + Lowest(q.ip) <= m < q.j.base + q.ip && Considered(q, e, m - q.j.base, longest)
    ensures Tried(q, e, m, longest)
  {
  }

  // ---------------------------------------------------------------- following a chain

  /** Between a position and the one its stored distance leads to there is none with its hash. */
  lemma StoredSkips(j: Input, p: nat, r: nat)
    requires p + 4 <= |j.src| && r < p < r + StoredDelta(j, p)
    ensures Slot(j, r) != Slot(j, p)
  {
  }

  lemma StoredReaches(j: Input, p: nat)
    requires p + 4 <= |j.src| && StoredDelta(j, p) < DISTANCE_MAX
    ensures StoredDelta(j, p) <= p && Slot(j, p - StoredDelta(j, p)) == Slot(j, p)
  {
  }

  /** A match that covers the four bytes behind `ip + pos` has the hash that is found there. */
  lemma {:induction false} WideHasSlot(q: Query, e: Effort, c: nat, pos: nat)
    requires Sound(q) && c < q.ip && pos + MINMATCH <= WidthOf(q, e, c) && (pos == 0 || q.ip == q.iLow)
    ensures q.ip + pos + 4 <= |q.j.src| && Slot(q.j, c + pos) == Slot(q.j, q.ip + pos)
  {
    if pos > 0 {
      WidthCoversFour(q.j.src, q.ip, c, q.ip, q.iHigh, q.ip + pos);
    }
  }

  /** And one with another hash there is no wider than the best match. */
  lemma {:induction false} OtherHashIsNarrow(q: Query, e: Effort, c: nat, pos: nat, longest: nat)
    requires Sound(q) && c < q.ip && Inside(q, pos, longest) && q.ip + pos + 4 <= |q.j.src|
    requires Slot(q.j, c + pos) != Slot(q.j, q.ip + pos)
    ensures WidthOf(q, e, c) <= longest
  {
    if WidthOf(q, e, c) > longest {
      WideHasSlot(q, e, c, pos);
    }
  }

  /** What one step of a chain passes over is no wider than the best match. */
  lemma {:induction false} ChainSkips(q: Query, e: Effort, ct: seq<nat>, m: nat, pos: nat, longest: nat)
    requires Sound(q) && Links(ct, q.j, q.ip) && q.j.base >= MAXD
    requires q.j.base + Lowest(q.ip) <= m < q.j.base + q.ip
    requires OnChain(q, m, pos) && Inside(q, pos, longest) && Tried(q, e, m, longest)
    ensures var d := ct[(m + pos) % MAXD];
            1 <= d <= DISTANCE_MAX && Covered(q, e, m - d, longest) && OnChain(q, m - d, pos)
  {
    var p := m - q.j.base + pos;
    assert m + pos == q.j.base + p;
    var d := ct[(m + pos) % MAXD];
    assert d == StoredDelta(q.j, p);
    forall c | Lowest(q.ip) <= c < q.ip && q.j.base + c > m - d
      ensures Considered(q, e, c, longest)
    {
      if q.j.base + c < m {
        StoredSkips(q.j, p, c + pos);
        OtherHashIsNarrow(q, e, c, pos, longest);
      }
    }
    if m - d >= q.j.base + Lowest(q.ip) {
      StoredReaches(q.j, p);
    }
  }

  /** The index at which a search starts: that of the newest candidate, when the window has one. */
  ghost predicate Started(q: Query, e: Effort, m: nat)
    requires Sound(q)
  {
    && m < q.j.base + q.ip && OnChain(q, m, 0) && Covered(q, e, m, q.given)
    && var r := Previous(q.j, q.ip, Slot(q.j, q.ip));
       r >= Lowest(q.ip) ==> m == q.j.base + r
  }

  lemma {:induction false} ChainStarts(q: Query, e: Effort, ht: seq<nat>)
    requires Sound(q) && Heads(ht, q.j, q.ip) && q.j.base >= MAXD
    ensures Started(q, e, ht[Slot(q.j, q.ip)])
  {
    var h := Slot(q.j, q.ip);
    var r := Previous(q.j, q.ip, h);
    forall c | Lowest(q.ip) <= c < q.ip && q.j.base + c > ht[h]
      ensures Considered(q, e, c, q.given)
    {
      assert c > r;
      OtherHashIsNarrow(q, e, c, 0, q.given);
    }
  }

  // ---------------------------------------------------------------- the shortcut for patterns

  /** LZ4HC_protectDictEnd, in 32-bit arithmetic. */
  predicate ProtectDictEnd(dictLimit: nat, matchIndex: nat) {
    (dictLimit - 1 - matchIndex) % U32_SIZE >= 3
  }

  /** Without an external dictionary no index is refused. */
  lemma {:induction false} NothingIsProtected(dictLimit: nat, matchIndex: nat)
    requires dictLimit <= matchIndex < U32_SIZE - 4
    ensures ProtectDictEnd(dictLimit, matchIndex)
  {
    assert dictLimit - 1 - matchIndex + U32_SIZE == (dictLimit - 1 - matchIndex) % U32_SIZE;
  }

  /** The repeated pattern at `ip`, once it is known to repeat: `length` bytes of `b` and no more. */
  ghost predicate Repetition(q: Query, length: nat, b: byte) {
    && MINMATCH <= length && q.ip + length <= q.iHigh && AllBytes(q.j.src, q.ip, q.ip + length, b)
    && q.iHigh <= |q.j.src| && (q.ip + length < q.iHigh ==> q.j.src[q.ip + length] != b)
  }

  /** A stretch of `length` bytes of `b` at `c`, up to another byte or to the limit of a match. */
  ghost predicate Stretch(q: Query, c: nat, length: nat, b: byte) {
    && MINMATCH <= length && c + length <= q.iHigh <= |q.j.src| && AllBytes(q.j.src, c, c + length, b)
    && (c + length < q.iHigh ==> q.j.src[c + length] != b)
  }

  /** Within a stretch that is shorter or longer than the repetition, no candidate reaches further
      than the shorter of the two. */
  lemma {:induction false} StretchIsNoWider(q: Query, e: Effort, c: nat, length: nat, n: nat, b: byte)
    requires Sound(q) && c < q.ip && Stretch(q, c, length, b) && Repetition(q, n, b)
    requires length != n && From(q, e) == q.ip
    ensures WidthOf(q, e, c) <= Min(length, n)
  {
    if WidthOf(q, e, c) > Min(length, n) {
      WidthCovers(q.j.src, q.ip, c, q.ip, q.iHigh, q.ip + Min(length, n));
    }
  }

  /** A candidate in front of as many equal bytes reaches at least as far. */
  lemma {:induction false} StretchIsAsWide(q: Query, e: Effort, c: nat, n: nat, b: byte)
    requires Sound(q) && c < q.ip && MINMATCH <= n && q.ip + n <= q.iHigh
    requires AllBytes(q.j.src, q.ip, q.ip + n, b) && AllBytes(q.j.src, c, c + n, b)
    ensures WidthOf(q, e, c) >= n && Slot(q.j, c) == Slot(q.j, q.ip)
  {
    var src := q.j.src;
    assert src[c..c + 4] == src[q.ip..q.ip + 4];
    CommonIsLongest(src, q.ip + MINMATCH, c + MINMATCH, q.iHigh);
  }

  /** Where the shortcut goes on: at the beginning of the stretch, or where exactly as many equal bytes
      follow as at `ip`. Nothing it passes over is wider. */
  lemma {:induction false} StretchCovered(q: Query, e: Effort, m: nat, next: nat, forward: nat, n: nat, b: byte,
                                          longest: nat)
    requires Sound(q) && Repetition(q, n, b) && From(q, e) == q.ip && Tried(q, e, m, longest)
    requires q.j.base + Lowest(q.ip) <= next < m < q.j.base + q.ip && Stretch(q, m - 1 - q.j.base, forward, b)
    requires var s := next - q.j.base; var length := m - 1 - next + forward;
             && AllBytes(q.j.src, s, s + length, b)
             && (length < n || n < forward || length == n)
    ensures Covered(q, e, next, longest) && OnChain(q, next, 0)
    ensures var length := m - 1 - next + forward; length != n ==> WidthOf(q, e, next - q.j.base) <= Min(length, n)
  {
    var s, length := next - q.j.base, m - 1 - next + forward;
    StretchIsAsWide(q, e, s, Min(length, n), b);
    if length != n {
      StretchIsNoWider(q, e, s, length, n, b);
    }
    forall c | Lowest(q.ip) <= c < q.ip && q.j.base + c > next
      ensures Considered(q, e, c, longest) || WidthOf(q, e, c) <= WidthOf(q, e, s)
    {
      if q.j.base + c < m {
        StretchIsNoWider(q, e, c, length - (c - s), n, b);
      }
    }
  }

  datatype Move = Proceed | Jump(m: nat) | Stop

  /** What a shortcut does to the search: a true match is kept, and the candidates it passes over are no
      wider. It never stops the search, since no stored distance reaches below index 0. */
  ghost predicate Sparing(q: Query, e: Effort, m: nat, pos: nat, move: Move, before: nat, best: Best)
    requires Sound(q)
  {
    && Found(q, best) && before <= best.longest && !move.Stop?
    && (move.Jump? ==> move.m < m && Covered(q, e, move.m, best.longest) && OnChain(q, move.m, pos))
  }

  /** The pattern stands at an index that a match may have. */
  ghost predicate PatternAt(q: Query, m: int, lowest: nat, b: byte) {
    q.j.base <= lowest <= m && AllBytes(q.j.src, m - q.j.base, m - q.j.base + 4, b)
  }

  /** The stretch around a position where the pattern stands, back to the lowest index a match may have. */
  method MeasureStretch(q: Query, cand: nat, lowest: nat, b: byte) returns (forwardLength: nat, backLength: nat)
    requires Sound(q) && q.j.base >= MAXD && q.j.base <= lowest <= cand && cand + 1 < q.j.base + q.ip
    requires q.j.src[cand - q.j.base..cand - q.j.base + 4] == seq(4, _ => b)
    ensures Stretch(q, cand - q.j.base, forwardLength, b) && lowest + backLength <= cand
    ensures AllBytes(q.j.src, cand - backLength - q.j.base, cand - q.j.base + forwardLength, b)
  {
    var c, pattern := cand - q.j.base, seq(4, _ => b);
    WordOfByte(q.j.src, c, 4, b);
    forwardLength := CountPattern(q.j.src, c + 4, q.iHigh, pattern);
    OneByteRepeats(q.j.src, c + 4, forwardLength, pattern, b);
    assert pattern[forwardLength % 4] == b;
    forwardLength := forwardLength + 4;
    backLength := ReverseCountPattern(q.j.src, c, 0, pattern);
    OneByteRepeatsBack(q.j.src, c, backLength, pattern, b);
    backLength := cand - if cand - backLength < lowest then lowest else cand - backLength;
  }

  /** An input that begins with a 9, six 1s, a 5, another 9, seven 1s and a 2. */
  predicate TwoStretches(src: seq<byte>) {
    |src| == 22 && src[..17] == [9, 1, 1, 1, 1, 1, 1, 5, 9, 1, 1, 1, 1, 1, 1, 1, 2]
  }

  /** A search at position 10 that looks backwards too, down to the second 9. */
  function BackwardQuery(src: seq<byte>, hash: Hash): Query {
    Query(Input(src, hash, MAXD), 10, 8, 17, 3)
  }

  /** There the shortcut goes from candidate 3 to candidate 1 and passes over candidate 2, which looking
      backwards is the widest of all. */
  lemma {:induction false} LookingBackLoses(src: seq<byte>, hash: Hash)
    requires TwoStretches(src)
    ensures var q := BackwardQuery(src, hash);
            && Sound(q) && Stretch(q, 2, 5, 1) && Repetition(q, 6, 1) && AllBytes(src, 1, 7, 1)
            && Width(src, 10, 2, 8, 17) == 7
            && Width(src, 10, 1, 8, 17) == 6 && Width(src, 10, 3, 8, 17) == 5 && Width(src, 10, 9, 8, 17) == 6
  {
    var a := src[..17];
    forall k | 0 <= k < 17
      ensures src[k] == a[k]
    {
    }
    assert AllBytes(src, 1, 7, 1) && AllBytes(src, 9, 16, 1) && src[0] == src[8] == 9 && src[7] == 5 && src[16] == 2;
    WidthIs(src, 10, 2, 8, 17, 5, 2);
    WidthIs(src, 10, 1, 8, 17, 6, 0);
    WidthIs(src, 10, 3, 8, 17, 4, 1);
    WidthIs(src, 10, 9, 8, 17, 6, 0);
  }

  /** The width of a candidate, from where the agreement ends on both sides. */
  lemma {:induction false} WidthIs(src: seq<byte>, ip: nat, c: nat, iLow: nat, iHigh: nat, ahead: nat, back: nat)
    requires c < ip && iLow + back <= ip && ip + MINMATCH <= iHigh <= |src| && back <= c
    requires MINMATCH <= ahead && ip + ahead <= iHigh && Equal(src, ip, c, ahead)
    requires ip + ahead < iHigh ==> src[ip + ahead] != src[c + ahead]
    requires Equal(src, ip - back, c - back, back)
    requires back < c && iLow + back < ip ==> src[ip - back - 1] != src[c - back - 1]
    ensures Width(src, ip, c, iLow, iHigh) == ahead + back
  {
    assert src[c..c + 4] == src[ip..ip + 4];
    CommonIs(src, ip + MINMATCH, c + MINMATCH, iHigh, ahead - MINMATCH);
    BackIs(src, ip, c, iLow, back);
  }

  lemma {:induction false} CommonIs(src: seq<byte>, p: nat, q: nat, limit: nat, n: nat)
    requires q <= p && p + n <= limit <= |src| && Equal(src, p, q, n)
    requires p + n < limit ==> src[p + n] != src[q + n]
    ensures Common(src, p, q, limit) == n
    decreases n
  {
    if n > 0 {
      assert src[p] == src[p - p + q];
      CommonIs(src, p + 1, q + 1, limit, n - 1);
    }
  }

  lemma {:induction false} BackIs(src: seq<byte>, ip: nat, c: nat, iLow: nat, n: nat)
    requires c <= ip <= |src| && n <= c && iLow + n <= ip && Equal(src, ip - n, c - n, n)
    requires n < c && iLow + n < ip ==> src[ip - n - 1] != src[c - n - 1]
    ensures Back(src, ip, c, iLow) == n
    decreases n
  {
    if n > 0 {
      assert src[ip - 1] == src[ip - 1 - (ip - n) + (c - n)];
      BackIs(src, ip - 1, c - 1, iLow, n - 1);
    }
  }

  /** The shortcut for repeated patterns at a candidate that follows another one at distance 1.
      It places the next candidate at an end of the stretch of equal bytes, and may take a
      length for granted without comparing anything. */
  method PatternShortcut(q: Query, ct: seq<nat>, m: nat, lowest: nat, e: Effort, b: byte, srcLength: nat, best0: Best)
    returns (move: Move, best: Best)
    requires Sound(q) && Found(q, best0) && Repetition(q, srcLength, b) && Links(ct, q.j, q.ip) && e.patternAnalysis
    requires q.j.base >= MAXD && q.j.base + |q.j.src| < U32_SIZE - 4 && Tried(q, e, m, best0.longest)
    requires lowest == q.j.base + Lowest(q.ip) && lowest <= m < q.j.base + q.ip
    ensures Sparing(q, e, m, 0, move, best0.longest, best) && (move.Proceed? ==> best == best0)
    ensures move.Jump? <==> PatternAt(q, m - 1, lowest, b)
  {
    var base, src := q.j.base, q.j.src;
    best := best0;
    var cand := m - 1;
    if cand < lowest {
      return Proceed, best;
    }
    NothingIsProtected(base, cand);
    WordOfByte(src, cand - base, 4, b);
    if !ProtectDictEnd(base, cand) || src[cand - base..cand - base + 4] != seq(4, _ => b) {
      return Proceed, best;
    }
    var forwardLength, backLength := MeasureStretch(q, cand, lowest, b);
    move, best := PlaceNext(q, ct, m, lowest, e, forwardLength, backLength, b, srcLength, best0);
  }

  method PlaceNext(q: Query, ct: seq<nat>, m: nat, lowest: nat, e: Effort, forwardLength: nat, backLength: nat, b: byte,
                   srcLength: nat, best0: Best)
    returns (move: Move, best: Best)
    requires Sound(q) && Found(q, best0) && Repetition(q, srcLength, b) && Links(ct, q.j, q.ip) && e.patternAnalysis
    requires q.j.base >= MAXD && q.j.base + |q.j.src| < U32_SIZE - 4 && Tried(q, e, m, best0.longest)
    requires lowest == q.j.base + Lowest(q.ip) && lowest + backLength < m < q.j.base + q.ip
    requires Stretch(q, m - 1 - q.j.base, forwardLength, b)
    requires AllBytes(q.j.src, m - 1 - backLength - q.j.base, m - 1 - q.j.base + forwardLength, b)
    ensures Sparing(q, e, m, 0, move, best0.longest, best) && move.Jump?
    ensures var length, start := backLength + forwardLength, m - 1 - backLength;
            if length >= srcLength && forwardLength <= srcLength then
              move.m == m - 1 + forwardLength - srcLength && best == best0
            else if q.ip != q.iLow then move.m == start && best == best0
            else move.m == start - ct[start % MAXD] && Min(length, srcLength) <= best.longest
  {
    var base, cand, segment := q.j.base, m - 1, backLength + forwardLength;
    best := best0;
    if segment >= srcLength && forwardLength <= srcLength {
      var newMatchIndex := cand + forwardLength - srcLength;
      NothingIsProtected(base, newMatchIndex);
      StretchCovered(q, e, m, newMatchIndex, forwardLength, srcLength, b, best.longest);
      return Jump(if ProtectDictEnd(base, newMatchIndex) then newMatchIndex else base), best;
    }
    move, best := PlaceAtStart(q, ct, m, lowest, e, forwardLength, backLength, b, srcLength, best0);
  }

  /** The next candidate is the beginning of the stretch, or the one behind it. */
  method PlaceAtStart(q: Query, ct: seq<nat>, m: nat, lowest: nat, e: Effort, forwardLength: nat, backLength: nat,
                      b: byte, srcLength: nat, best0: Best)
    returns (move: Move, best: Best)
    requires Sound(q) && Found(q, best0) && Repetition(q, srcLength, b) && Links(ct, q.j, q.ip) && e.patternAnalysis
    requires q.j.base >= MAXD && q.j.base + |q.j.src| < U32_SIZE - 4 && Tried(q, e, m, best0.longest)
    requires lowest == q.j.base + Lowest(q.ip) && lowest + backLength < m < q.j.base + q.ip
    requires Stretch(q, m - 1 - q.j.base, forwardLength, b)
    requires AllBytes(q.j.src, m - 1 - backLength - q.j.base, m - 1 - q.j.base + forwardLength, b)
    requires backLength + forwardLength < srcLength || srcLength < forwardLength
    ensures Sparing(q, e, m, 0, move, best0.longest, best) && move.Jump?
    ensures var length, start := backLength + forwardLength, m - 1 - backLength;
            if q.ip != q.iLow then move.m == start && best == best0
            else move.m == start - ct[start % MAXD] && Min(length, srcLength) <= best.longest
  {
    var newMatchIndex := m - 1 - backLength;
    NothingIsProtected(q.j.base, newMatchIndex);
    if !ProtectDictEnd(q.j.base, newMatchIndex) {
      return Jump(q.j.base), best0;
    }
    move, best := TakeRepetition(q, ct, newMatchIndex, backLength + forwardLength, b, srcLength, best0);
    StartCovered(q, e, ct, m, newMatchIndex, forwardLength, srcLength, b, best0.longest, best.longest);
  }

  /** Nothing that is passed over at the beginning of a stretch is wider. */
  lemma {:induction false} StartCovered(q: Query, e: Effort, ct: seq<nat>, m: nat, start: nat, forward: nat, n: nat,
                                        b: byte, before: nat, longest: nat)
    requires Sound(q) && Repetition(q, n, b) && Links(ct, q.j, q.ip) && q.j.base >= MAXD && e.patternAnalysis
    requires q.j.base + Lowest(q.ip) <= start < m < q.j.base + q.ip && Stretch(q, m - 1 - q.j.base, forward, b)
    requires Tried(q, e, m, before) && before <= longest
    requires var length := m - 1 - start + forward;
             && AllBytes(q.j.src, start - q.j.base, start - q.j.base + length, b)
             && (length < n || n < forward) && (q.ip == q.iLow ==> Min(length, n) <= longest)
    ensures var next := if q.ip == q.iLow then start - ct[start % MAXD] else start;
            0 <= next < m && Covered(q, e, next, longest) && OnChain(q, next, 0)
  {
    TriedForMore(q, e, m, before, longest);
    StretchCovered(q, e, m, start, forward, n, b, longest);
    if q.ip == q.iLow {
      ChainGoesOn(q, e, ct, start, longest, longest);
    }
  }

  lemma TriedForMore(q: Query, e: Effort, m: nat, before: nat, longest: nat)
    requires Sound(q) && Tried(q, e, m, before) && before <= longest
    ensures Tried(q, e, m, longest)
  {
    forall c | Lowest(q.ip) <= c < q.ip && q.j.base + c >= m
      ensures Considered(q, e, c, longest)
    {
      assert Considered(q, e, c, before);
    }
  }

  /** Looking forward only, the stretch itself is a match as long as the shorter of the two. */
  method TakeRepetition(q: Query, ct: seq<nat>, m: nat, segment: nat, b: byte, srcLength: nat, best0: Best)
    returns (move: Move, best: Best)
    requires Sound(q) && Found(q, best0) && Repetition(q, srcLength, b) && |ct| == MAXD && q.j.base >= MAXD
    requires q.j.base + Lowest(q.ip) <= m < q.j.base + q.ip && MINMATCH <= segment
    requires AllBytes(q.j.src, m - q.j.base, m - q.j.base + segment, b)
    requires 1 <= ct[m % MAXD] <= DISTANCE_MAX
    ensures Found(q, best) && best0.longest <= best.longest
    ensures q.ip == q.iLow ==> Min(segment, srcLength) <= best.longest && move == Jump(m - ct[m % MAXD])
    ensures q.ip != q.iLow ==> move == Jump(m) && best == best0
  {
    best := best0;
    if q.ip == q.iLow {
      var maxML := Min(segment, srcLength);
      if best.longest < maxML {
        if q.j.base + q.ip - m > DISTANCE_MAX {
          return Stop, best;
        }
        best := Best(maxML, m - q.j.base, q.ip);
        RepetitionIsMatch(q.j.src, q.ip, m - q.j.base, maxML, b);
      }
      var distToNextPattern := ct[m % MAXD];
      if distToNextPattern > m {
        return Stop, best;
      }
      return Jump(m - distToNextPattern), best;
    }
    move := Jump(m);
  }

  /** Behind a length that is taken for granted the chain goes on. */
  lemma ChainGoesOn(q: Query, e: Effort, ct: seq<nat>, m: nat, before: nat, longest: nat)
    requires Sound(q) && Links(ct, q.j, q.ip) && q.j.base >= MAXD
    requires q.j.base + Lowest(q.ip) <= m < q.j.base + q.ip && OnChain(q, m, 0)
    requires Covered(q, e, m, before) && before <= longest && WidthOf(q, e, m - q.j.base) <= longest
    ensures var next := m - ct[m % MAXD]; next < m && Covered(q, e, next, longest) && OnChain(q, next, 0)
  {
    VisitedIsTried(q, e, m, before, longest);
    ChainSkips(q, e, ct, m, 0, longest);
  }

  lemma {:induction false} RepetitionIsMatch(src: seq<byte>, ip: nat, c: nat, len: nat, b: byte)
    requires c < ip && ip - c <= DISTANCE_MAX
    requires AllBytes(src, ip, ip + len, b) && AllBytes(src, c, c + len, b)
    ensures TrueMatch(src, ip, ip - c, len)
  {
    forall k | ip <= k < ip + len
      ensures src[k] == src[k - (ip - c)]
    {
      assert src[k] == b && src[k - (ip - c)] == b;
    }
  }

  /** The positions below `upTo` that are looked at: the first 17 are among them. */
  ghost predicate Examined(seen: set<nat>, upTo: nat) {
    && (forall k :: k in seen ==> k < upTo)
    && forall k :: 0 <= k <= 16 && k < upTo ==> k in seen
  }

  /** No chain makes a larger step, and the chain of `chainPos` makes this one. */
  ghost predicate LargestStep(ct: seq<nat>, m: nat, seen: set<nat>, distance: nat, chainPos: nat)
    requires |ct| == MAXD
  {
    && distance >= 1 && (forall k :: k in seen ==> ct[(m + k) % MAXD] <= distance)
    && if distance > 1 then chainPos in seen && distance == ct[(m + chainPos) % MAXD] else chainPos == 0
  }

  /** The jump to a better chain: of the positions looked at inside the match just found, which are
      the first 17 and, in growing steps, others behind them, the one whose chain makes the largest
      next step. Returns that step and the position. */
  method BetterChain(ct: seq<nat>, m: nat, longest: nat)
    returns (distance: nat, chainPos: nat, ghost seen: set<nat>)
    requires |ct| == MAXD && longest >= MINMATCH
    ensures Examined(seen, longest - MINMATCH + 1) && LargestStep(ct, m, seen, distance, chainPos)
  {
    distance, chainPos, seen := 1, 0, {};
    var end := longest - MINMATCH + 1;
    var step, accel := 1, 16;
    var pos := 0;
    while pos < end
      invariant step >= 1 && accel >= 16 && (pos <= 16 ==> accel <= 16 + pos)
      invariant (forall k :: k in seen ==> k < end) && forall k :: 0 <= k <= 16 && k < pos ==> k in seen
      invariant LargestStep(ct, m, seen, distance, chainPos)
      decreases end - pos
    {
      var candidateDist := ct[(m + pos) % MAXD];
      step := accel / 16;
      accel := accel + 1;
      seen := seen + {pos};
      if candidateDist > distance {
        distance, chainPos := candidateDist, pos;
        accel := 16;
      }
      pos := pos + step;
    }
  }

  // ---------------------------------------------------------------- the search

  /** One candidate of the search: try it, or pass it over when it is too close. */
  method Visit(q: Query, m: nat, e: Effort, best0: Best) returns (matchLength: nat, best: Best)
    requires Sound(q) && Found(q, best0) && q.j.base + Lowest(q.ip) <= m < q.j.base + q.ip
    ensures Found(q, best) && best0.longest <= best.longest && Considered(q, e, m - q.j.base, best.longest)
    ensures matchLength == 0 || MINMATCH <= matchLength == Width(q.j.src, q.ip, m - q.j.base, q.iLow, q.iHigh)
    ensures var w := Width(q.j.src, q.ip, m - q.j.base, q.iLow, q.iHigh);
            if TooNear(q, e, m - q.j.base) || w <= best0.longest then best == best0
            else matchLength == best.longest == w
  {
    if e.favorDecSpeed && q.j.base + q.ip - m < 8 {
      return 0, best0;
    }
    matchLength, best := TryCandidate(q, m - q.j.base, best0);
    LookingBackIsWider(q, e, m - q.j.base);
  }

  /** The four bytes at `ip` are equal. */
  predicate PatternRepeats(src: seq<byte>, ip: nat)
    requires ip + 4 <= |src|
  {
    src[ip..ip + 2] == src[ip + 2..ip + 4] && src[ip] == src[ip + 3]
  }

  /** The length of the repetition at `ip`, counted on first use. */
  method MeasureRepetition(q: Query) returns (length: nat)
    requires Sound(q) && PatternRepeats(q.j.src, q.ip)
    ensures Repetition(q, length, q.j.src[q.ip])
  {
    var src, ip := q.j.src, q.ip;
    PatternIsOneByte(src, ip);
    length := CountPattern(src, ip + 4, q.iHigh, src[ip..ip + 4]);
    OneByteRepeats(src, ip + 4, length, src[ip..ip + 4], src[ip]);
    assert length % 4 < 4 && src[ip..ip + 4][length % 4] == src[ip];
    length := length + 4;
  }

  predicate OneByte(pattern: seq<byte>, b: byte) {
    forall i :: 0 <= i < |pattern| ==> pattern[i] == b
  }

  lemma PatternIsOneByte(src: seq<byte>, ip: nat)
    requires ip + 4 <= |src| && PatternRepeats(src, ip)
    ensures AllBytes(src, ip, ip + 4, src[ip]) && OneByte(src[ip..ip + 4], src[ip])
  {
    assert src[ip] == src[ip..ip + 2][0] == src[ip + 2..ip + 4][0] == src[ip + 2];
    assert src[ip + 1] == src[ip..ip + 2][1] == src[ip + 2..ip + 4][1] == src[ip + 3];
  }

  lemma OneByteRepeats(src: seq<byte>, p: nat, n: nat, pattern: seq<byte>, b: byte)
    requires p + n <= |src| && |pattern| == 4 && Repeats(src, p, n, pattern)
    requires OneByte(pattern, b)
    ensures AllBytes(src, p, p + n, b)
  {
  }

  lemma OneByteRepeatsBack(src: seq<byte>, p: nat, n: nat, pattern: seq<byte>, b: byte)
    requires n <= p <= |src| && |pattern| == 4 && RepeatsBack(src, p, n, pattern)
    requires OneByte(pattern, b)
    ensures AllBytes(src, p - n, p, b)
  {
  }

  datatype RepeatState = Undecided | Not | Confirmed

  /** What the loop remembers besides the candidate: the position whose chain it follows, and
      whether `ip` starts a repetition. */
  datatype Memory = Memory(chainPos: nat, repeat: RepeatState, srcLength: nat)

  ghost predicate Remembered(q: Query, mem: Memory)
    requires Sound(q)
  {
    && (mem.repeat.Confirmed? ==> Repetition(q, mem.srcLength, q.j.src[q.ip]))
    && (!mem.repeat.Undecided? ==> (mem.repeat.Confirmed? <==> PatternRepeats(q.j.src, q.ip)))
  }

  /** The next candidate lies at least as far away as any chain leads that starts at one of the first 17
      positions of a match of this length. */
  ghost predicate LargeStep(ct: seq<nat>, m: nat, length: nat, next: int)
    requires |ct| == MAXD
  {
    forall k :: 0 <= k <= 16 && k + MINMATCH <= length ==> next + StepOf(ct, m, k) <= m
  }

  function StepOf(ct: seq<nat>, m: nat, k: nat): nat
    requires |ct| == MAXD
  {
    ct[(m + k) % MAXD]
  }

  /** Behind a candidate: the jump to a better chain, or the shortcut for repeated patterns. */
  method Shortcuts(q: Query, ct: seq<nat>, m: nat, lowest: nat, e: Effort, matchLength: nat, best0: Best, mem0: Memory)
    returns (move: Move, best: Best, mem: Memory)
    requires Sound(q) && Found(q, best0) && Remembered(q, mem0) && Links(ct, q.j, q.ip)
    requires q.j.base >= MAXD && q.j.base + |q.j.src| < U32_SIZE - 4
    requires lowest == q.j.base + Lowest(q.ip) && lowest <= m < q.j.base + q.ip
    requires e.chainSwap ==> q.ip == q.iLow
    requires matchLength == 0 || MINMATCH <= matchLength == Width(q.j.src, q.ip, m - q.j.base, q.iLow, q.iHigh)
    requires Tried(q, e, m, best0.longest) && OnChain(q, m, mem0.chainPos) && Inside(q, mem0.chainPos, best0.longest)
    ensures Remembered(q, mem) && Sparing(q, e, m, mem.chainPos, move, best0.longest, best)
    ensures Inside(q, mem.chainPos, best.longest) && (move.Proceed? ==> best == best0 && mem.chainPos == mem0.chainPos)
    ensures !e.chainSwap ==> mem.chainPos == mem0.chainPos
    ensures e.chainSwap && matchLength == best0.longest && m + matchLength <= q.j.base + q.ip ==>
              LargeStep(ct, m, matchLength, if move.Jump? then move.m else m - 1)
    ensures e.patternAnalysis && ct[m % MAXD] == 1 && mem0.chainPos == 0 && PatternRepeats(q.j.src, q.ip) ==>
              PatternAt(q, m - 1, lowest, q.j.src[q.ip]) ==> move.Jump?
  {
    best, mem := best0, mem0;
    if e.chainSwap && matchLength == best.longest && m + best.longest <= q.j.base + q.ip {
      var pos;
      move, pos := SwapChain(q, ct, m, e, best.longest);
      if !move.Proceed? {
        mem := mem.(chainPos := pos);
        return;
      }
    }
    move := Proceed;
    if e.patternAnalysis && ct[m % MAXD] == 1 && mem.chainPos == 0 {
      mem := Recognise(q, mem);
      if mem.repeat.Confirmed? {
        move, best := PatternShortcut(q, ct, m, lowest, e, q.j.src[q.ip], mem.srcLength, best);
      }
    }
  }

  /** The jump to a better chain, if its step is larger than 1. */
  method SwapChain(q: Query, ct: seq<nat>, m: nat, e: Effort, longest: nat) returns (move: Move, pos: nat)
    requires Sound(q) && Links(ct, q.j, q.ip) && q.j.base >= MAXD && q.ip == q.iLow
    requires q.j.base + Lowest(q.ip) <= m && m + longest <= q.j.base + q.ip
    requires MINMATCH <= longest == Width(q.j.src, q.ip, m - q.j.base, q.iLow, q.iHigh) && Tried(q, e, m, longest)
    ensures Inside(q, pos, longest) && !move.Stop?
    ensures move.Jump? ==> move.m < m && Covered(q, e, move.m, longest) && OnChain(q, move.m, pos)
    ensures LargeStep(ct, m, longest, if move.Jump? then move.m else m - 1)
  {
    var distance;
    ghost var seen;
    distance, pos, seen := BetterChain(ct, m, longest);
    StepsExamined(ct, m, longest, seen, distance, pos);
    if distance <= 1 {
      return Proceed, pos;
    }
    WideHasSlot(q, e, m - q.j.base, pos);
    ChainSkips(q, e, ct, m, pos, longest);
    move := if distance > m then Stop else Jump(m - distance);
  }

  lemma StepsExamined(ct: seq<nat>, m: nat, length: nat, seen: set<nat>, distance: nat, pos: nat)
    requires |ct| == MAXD && length >= MINMATCH
    requires Examined(seen, length - MINMATCH + 1) && LargestStep(ct, m, seen, distance, pos)
    ensures LargeStep(ct, m, length, m - distance)
  {
    forall k | 0 <= k <= 16 && k + MINMATCH <= length
      ensures StepOf(ct, m, k) <= distance
    {
      assert k in seen;
    }
  }

  /** Whether the pattern at `ip` repeats, found out on first use. */
  method Recognise(q: Query, mem0: Memory) returns (mem: Memory)
    requires Sound(q) && Remembered(q, mem0)
    ensures Remembered(q, mem) && mem.chainPos == mem0.chainPos && !mem.repeat.Undecided?
    ensures mem.repeat.Confirmed? <==> PatternRepeats(q.j.src, q.ip)
    ensures !mem0.repeat.Undecided? ==> mem == mem0
  {
    mem := mem0;
    if mem.repeat.Undecided? {
      if PatternRepeats(q.j.src, q.ip) {
        var length := MeasureRepetition(q);
        mem := mem.(repeat := Confirmed, srcLength := length);
      } else {
        mem := mem.(repeat := Not);
      }
    }
  }

  // ---------------------------------------------------------------- the loop

  /** How many positions from `from` on have the hash of `ip`. */
  ghost function SameHash(q: Query, from: nat): nat
    requires Sound(q)
  {
    |Scan(q.j, q.ip, Slot(q.j, q.ip), from)|
  }

  lemma {:induction false} ScanGrows(j: Input, p: nat, h: nat, low: nat, high: nat)
    requires p + 3 <= |j.src| && low < high && low < p && low + 4 <= |j.src|
    ensures |Scan(j, p, h, low)| >= |Scan(j, p, h, high)| + if Slot(j, low) == h then 1 else 0
    decreases p
  {
    if p - 1 > low {
      ScanGrows(j, p - 1, h, low, high);
    }
  }

  /** What a search has seen when it has visited `n` candidates, the last of them at index `seen`:
      nothing from there on is left, and each of them was a position further on, or another one of
      those with the hash of `ip` as long as there is one chain to follow. */
  ghost predicate Seen(q: Query, e: Effort, n: nat, seen: nat, longest: nat)
    requires Sound(q)
  {
    && q.j.base <= seen <= q.j.base + q.ip - n && Tried(q, e, seen, longest)
    && (!e.chainSwap ==> n <= SameHash(q, seen - q.j.base))
  }

  /** One more. */
  lemma {:induction false} SeenMore(q: Query, e: Effort, n: nat, seen: nat, before: nat, m: nat, longest: nat)
    requires Sound(q) && Seen(q, e, n, seen, before) && q.j.base + Lowest(q.ip) <= m < seen && Tried(q, e, m, longest)
    requires !e.chainSwap ==> OnChain(q, m, 0)
    ensures Seen(q, e, n + 1, m, longest)
  {
    if !e.chainSwap {
      ScanGrows(q.j, q.ip, Slot(q.j, q.ip), m - q.j.base, seen - q.j.base);
    }
  }

  /** What every search considers: the newest candidate, in both directions; with `n` attempts the last
      `n` positions; and unless it jumps between chains, every position of the window that has
      less than `n` newer ones with its hash. */
  ghost predicate Thorough(q: Query, e: Effort, longest: nat)
    requires Sound(q)
  {
    && (e.maxNbAttempts >= 1 ==> NewestTried(q, e, longest))
    && (forall c :: Lowest(q.ip) <= c < q.ip && q.ip - c <= e.maxNbAttempts ==> Considered(q, e, c, longest))
    && (!e.chainSwap ==>
          forall c :: Lowest(q.ip) <= c < q.ip && SameHash(q, c + 1) < e.maxNbAttempts ==> Considered(q, e, c, longest))
  }

  /** The newest position with the hash of `ip`. */
  ghost predicate NewestTried(q: Query, e: Effort, longest: nat)
    requires Sound(q)
  {
    var r := Previous(q.j, q.ip, Slot(q.j, q.ip));
    r >= Lowest(q.ip) ==> TooNear(q, e, r) || Width(q.j.src, q.ip, r, q.iLow, q.iHigh) <= longest
  }

  /** What the loop has done when it has visited `n` candidates, the last one at index `seen`. */
  ghost predicate Progress(q: Query, e: Effort, m0: nat, n: nat, seen: nat, m: nat, longest: nat)
    requires Sound(q)
  {
    && Seen(q, e, n, seen, longest) && m < seen
    && if n == 0 then m == m0 && longest == q.given else NewestTried(q, e, longest)
  }

  lemma {:induction false} Progresses(q: Query, e: Effort, m0: nat, n: nat, seen: nat, m: nat, before: nat, next: nat,
                                      longest: nat)
    requires Sound(q) && Progress(q, e, m0, n, seen, m, before) && q.j.base + Lowest(q.ip) <= m && next < m
    requires before <= longest && Tried(q, e, m, longest) && Started(q, e, m0) && (!e.chainSwap ==> OnChain(q, m, 0))
    requires TooNear(q, e, m - q.j.base) || Width(q.j.src, q.ip, m - q.j.base, q.iLow, q.iHigh) <= longest
    ensures Progress(q, e, m0, n + 1, m, next, longest)
  {
    SeenMore(q, e, n, seen, before, m, longest);
  }

  lemma {:induction false} EndsThorough(q: Query, e: Effort, m0: nat, n: nat, seen: nat, m: nat, longest: nat)
    requires Sound(q) && Progress(q, e, m0, n, seen, m, longest) && Started(q, e, m0)
    requires if m < q.j.base + Lowest(q.ip) then Covered(q, e, m, longest) else n == e.maxNbAttempts
    ensures Thorough(q, e, longest)
  {
    if m >= q.j.base + Lowest(q.ip) && !e.chainSwap {
      forall c | Lowest(q.ip) <= c < q.ip && SameHash(q, c + 1) < e.maxNbAttempts
        ensures Considered(q, e, c, longest)
      {
        if c + 1 <= seen - q.j.base {
          ScanShrinks(q.j, q.ip, Slot(q.j, q.ip), c + 1, seen - q.j.base);
        }
      }
    }
  }

  lemma {:induction false} ScanShrinks(j: Input, p: nat, h: nat, low: nat, high: nat)
    requires p + 3 <= |j.src| && low <= high
    ensures |Scan(j, p, h, low)| >= |Scan(j, p, h, high)|
    decreases p
  {
    if p > low {
      ScanShrinks(j, p - 1, h, low, high);
    }
  }

  /** No position of the window has a wider match than `longest` bytes. */
  ghost predicate NothingWider(q: Query, longest: nat)
    requires Sound(q)
  {
    forall c :: Lowest(q.ip) <= c < q.ip ==> Width(q.j.src, q.ip, c, q.iLow, q.iHigh) <= longest
  }

  /** With an attempt for every position of the window a search that favours nothing finds the widest
      match, with the shortcuts or without them. */
  lemma WidestOfWindow(q: Query, e: Effort, longest: nat)
    requires Sound(q) && Thorough(q, e, longest) && From(q, e) == q.iLow
    requires e.maxNbAttempts >= q.ip - Lowest(q.ip) && !e.favorDecSpeed
    ensures NothingWider(q, longest)
  {
    forall c | Lowest(q.ip) <= c < q.ip
      ensures Width(q.j.src, q.ip, c, q.iLow, q.iHigh) <= longest
    {
      assert Considered(q, e, c, longest);
    }
  }

  /** The loop of LZ4HC_InsertAndGetWiderMatch over the candidates from index `m0` on. */
  method Search(q: Query, ct: seq<nat>, m0: nat, e: Effort) returns (best: Best)
    requires Sound(q) && Links(ct, q.j, q.ip) && Started(q, e, m0) && (e.chainSwap ==> q.ip == q.iLow)
    requires q.j.base >= MAXD && q.j.base + |q.j.src| < U32_SIZE - 4
    ensures Found(q, best) && Thorough(q, e, best.longest)
  {
    var ipIndex := q.j.base + q.ip;
    var lowest := if q.j.base + DISTANCE_MAX + 1 > ipIndex then q.j.base else ipIndex - DISTANCE_MAX;
    var m: nat, nbAttempts: nat, mem := m0, e.maxNbAttempts, Memory(0, Undecided, 0);
    best := Best(q.given, 0, 0);
    ghost var n: nat, seen: nat := 0, ipIndex;
    while m >= lowest && nbAttempts > 0
      invariant Found(q, best) && Remembered(q, mem) && Along(q, e, m, mem.chainPos, best.longest)
      invariant n + nbAttempts == e.maxNbAttempts && Progress(q, e, m0, n, seen, m, best.longest)
      decreases nbAttempts
    {
      ghost var before := best.longest;
      nbAttempts := nbAttempts - 1;
      var next;
      next, best, mem := Round(q, ct, m, lowest, e, best, mem);
      if next.Stop? {
        break;
      }
      Progresses(q, e, m0, n, seen, m, before, next.m, best.longest);
      n, seen, m := n + 1, m, next.m;
    }
    EndsThorough(q, e, m0, n, seen, m, best.longest);
  }

  /** The candidate that comes next: nothing above it is left, and it is on the chain that is followed. */
  ghost predicate Along(q: Query, e: Effort, m: nat, chainPos: nat, longest: nat)
    requires Sound(q)
  {
    && Covered(q, e, m, longest) && OnChain(q, m, chainPos) && Inside(q, chainPos, longest)
    && (!e.chainSwap ==> chainPos == 0)
  }

  /** One round: the candidate, the shortcuts behind it, or else the next one on the chain. */
  method Round(q: Query, ct: seq<nat>, m: nat, lowest: nat, e: Effort, best0: Best, mem0: Memory)
    returns (next: Move, best: Best, mem: Memory)
    requires Sound(q) && Links(ct, q.j, q.ip) && Found(q, best0) && Remembered(q, mem0)
    requires q.j.base >= MAXD && q.j.base + |q.j.src| < U32_SIZE - 4 && (e.chainSwap ==> q.ip == q.iLow)
    requires lowest == q.j.base + Lowest(q.ip) && lowest <= m < q.j.base + q.ip
    requires Along(q, e, m, mem0.chainPos, best0.longest)
    ensures next.Jump? && next.m < m && Found(q, best) && Remembered(q, mem) && best0.longest <= best.longest
    ensures Tried(q, e, m, best.longest) && Along(q, e, next.m, mem.chainPos, best.longest)
    ensures var w := Width(q.j.src, q.ip, m - q.j.base, q.iLow, q.iHigh);
            && (TooNear(q, e, m - q.j.base) || w <= best.longest)
            && (e.chainSwap && w > best0.longest && !TooNear(q, e, m - q.j.base) && m + w <= q.j.base + q.ip ==>
                  LargeStep(ct, m, w, next.m))
  {
    var matchLength;
    matchLength, best := Visit(q, m, e, best0);
    VisitedIsTried(q, e, m, best0.longest, best.longest);
    ghost var visited := best.longest;
    next, best, mem := Onwards(q, ct, m, lowest, e, matchLength, best, mem0);
    TriedForMore(q, e, m, visited, best.longest);
  }

  /** From a candidate to the next one. */
  method Onwards(q: Query, ct: seq<nat>, m: nat, lowest: nat, e: Effort, matchLength: nat, best0: Best, mem0: Memory)
    returns (next: Move, best: Best, mem: Memory)
    requires Sound(q) && Found(q, best0) && Remembered(q, mem0) && Links(ct, q.j, q.ip)
    requires q.j.base >= MAXD && q.j.base + |q.j.src| < U32_SIZE - 4 && (e.chainSwap ==> q.ip == q.iLow)
    requires lowest == q.j.base + Lowest(q.ip) && lowest <= m < q.j.base + q.ip
    requires matchLength == 0 || MINMATCH <= matchLength == Width(q.j.src, q.ip, m - q.j.base, q.iLow, q.iHigh)
    requires Tried(q, e, m, best0.longest) && OnChain(q, m, mem0.chainPos) && Inside(q, mem0.chainPos, best0.longest)
    requires !e.chainSwap ==> mem0.chainPos == 0
    ensures next.Jump? && next.m < m && Found(q, best) && Remembered(q, mem) && best0.longest <= best.longest
    ensures Along(q, e, next.m, mem.chainPos, best.longest)
    ensures e.chainSwap && matchLength == best0.longest && m + matchLength <= q.j.base + q.ip ==>
              LargeStep(ct, m, matchLength, next.m)
  {
    next, best, mem := Shortcuts(q, ct, m, lowest, e, matchLength, best0, mem0);
    if next.Proceed? {
      next := FollowChain(q, ct, m, e, mem.chainPos, best.longest);
      LargerStep(ct, m, matchLength, m - 1, next.m);
    }
  }

  lemma LargerStep(ct: seq<nat>, m: nat, length: nat, next: int, further: int)
    requires |ct| == MAXD && further <= next
    ensures LargeStep(ct, m, length, next) ==> LargeStep(ct, m, length, further)
  {
  }

  /** The next candidate on the chain of the position that is followed. */
  method FollowChain(q: Query, ct: seq<nat>, m: nat, e: Effort, chainPos: nat, ghost longest: nat) returns (next: Move)
    requires Sound(q) && Links(ct, q.j, q.ip) && q.j.base >= MAXD
    requires q.j.base + Lowest(q.ip) <= m < q.j.base + q.ip
    requires OnChain(q, m, chainPos) && Inside(q, chainPos, longest) && Tried(q, e, m, longest)
    ensures next.Jump? && next.m < m && Covered(q, e, next.m, longest) && OnChain(q, next.m, chainPos)
  {
    ChainSkips(q, e, ct, m, chainPos, longest);
    next := Jump(m - ct[(m + chainPos) % MAXD]);
  }

  /** LZ4HC_InsertAndGetWiderMatch. It returns the length it was given, or a longer one that stands for a
      true match around `ip`; nothing that its attempts reach is wider. */
  method InsertAndGetWiderMatch(hc: HcState, q: Query, e: Effort) returns (best: Best)
    requires Sound(q) && hc.Ready(q.j) && hc.nextToUpdate <= q.j.base + q.ip && q.j.base + |q.j.src| < U32_SIZE - 4
    requires e.chainSwap ==> q.ip == q.iLow
    modifies hc`nextToUpdate, hc.hashTable, hc.chainTable
    ensures hc.Ready(q.j) && hc.nextToUpdate == q.j.base + q.ip
    ensures Found(q, best) && Thorough(q, e, best.longest)
  {
    hc.Insert(q.j, q.ip);
    var m := hc.hashTable[Slot(q.j, q.ip)];
    ChainStarts(q, e, hc.hashTable[..]);
    best := Search(q, hc.chainTable[..], m, e);
  }
}
