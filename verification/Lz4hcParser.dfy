/** LZ4HC_compress_hashChain: the lazy parser that weighs up to three overlapping matches before
    it writes one. The labels of the code are the constructors of `Point`, and `Inv` is what
    holds at each of them. */
module Lz4hcParser {
  import opened Lz4Format
  import opened Lz4Emit
  import opened Lz4hcIndex
  import opened Lz4hcMatch
  import opened Lz4hcSearch
  import opened Lz4hcEncode
  import Fast = Lz4Fast

  const OPTIMAL_ML := 18

  datatype Point =
    | AtMain(ip: nat)
    | AtSearch2(m1: Match, m0: Match)
    | AtSearch3(m1: Match, m2: Match)
    | Finished

  /** `last` is the last position that was searched. In front of _Search3 the two matches cover
      at least eight bytes together, so that both can be given four; the second one starts no
      more than one byte behind the first. */
  ghost predicate Inv(src: seq<byte>, last: int, anchor: nat, pt: Point) {
    match pt
    case AtMain(ip) =>
      anchor <= ip <= |src| && last <= ip
    case AtSearch2(m1, m0) =>
      && Legal(src, m1) && Legal(src, m0)
      && anchor <= m0.start <= m1.start <= m0.start + 2
      && (m0 == m1 || m0.End() + MFLIMIT <= |src|)
      && last <= m1.End() - 2
    case AtSearch3(m1, m2) =>
      && Legal(src, m1) && Legal(src, m2)
      && anchor <= m1.start < m2.start
      && m1.End() + MFLIMIT <= |src|
      && m1.start + 2 * MINMATCH <= m2.End()
      && m2.start <= m1.End() + 1 && (m2.start == m1.End() + 1 ==> m2.len >= 5)
      && last <= m2.End() - 3
    case Finished =>
      true
  }

  /** The end of the furthest match. It grows with every search that finds something. */
  function Furthest(pt: Point): nat {
    match pt
    case AtMain(ip) => ip
    case AtSearch2(m1, m0) => m1.End()
    case AtSearch3(m1, m2) => m2.End()
    case Finished => 0
  }

  predicate Searching(pt: Point) {
    pt.AtSearch2? || pt.AtSearch3?
  }

  /** What every step of the parser does to the furthest end. */
  predicate Advances(from: Point, next: Point) {
    next.Finished? || Furthest(next) > Furthest(from)
    || (Furthest(next) == Furthest(from) && Searching(from) && next.AtMain?)
  }

  /** A match without its first `c` bytes. */
  function Later(t: Match, c: nat): Match
    requires c <= t.len
  {
    Match(t.start + c, t.ref + c, t.len - c)
  }

  lemma LaterIsLegal(src: seq<byte>, t: Match, c: nat)
    requires Legal(src, t) && c + MINMATCH <= t.len && t.start + c + MFLIMIT <= |src|
    ensures Legal(src, Later(t, c))
  {
  }

  lemma ShorterIsLegal(src: seq<byte>, t: Match, len: nat)
    requires Legal(src, t) && MINMATCH <= len <= t.len
    ensures Legal(src, Match(t.start, t.ref, len))
  {
  }

  /** A match without what lies in front of `start`. */
  function CutTo(t: Match, start: int): Match {
    if t.start < start <= t.End() then Later(t, start - t.start) else t
  }

  /** The most that the first match keeps: 18 bytes, and no more than leaves four bytes to the second. */
  function RoomForFirst(m1: Match, m2: Match): int {
    Min(Min(m1.len, 18), m2.End() - 4 - m1.start)
  }

  /** The correction in front of the third search: the second match gives up its beginning where
      the first one reaches further, down to four bytes. */
  method Correct(src: seq<byte>, m1: Match, m2: Match) returns (m2': Match)
    requires Legal(src, m1) && Legal(src, m2) && m1.start < m2.start
    requires m1.End() + MFLIMIT <= |src| && m1.start + 2 * MINMATCH <= m2.End()
    ensures Legal(src, m2') && m2'.End() == m2.End() && m1.start + MINMATCH <= m2'.start
    ensures m2' == m2 || m2'.start <= m1.End()
    ensures m2' == CutTo(m2, if m2.start - m1.start < 18 then m1.start + RoomForFirst(m1, m2) else m2.start)
  {
    m2' := m2;
    if m2.start - m1.start < OPTIMAL_ML {
      var newMl := Min(m1.len, OPTIMAL_ML);
      if m1.start + newMl > m2.End() - MINMATCH {
        newMl := m2.start - m1.start + m2.len - MINMATCH;
      }
      var correction := newMl - (m2.start - m1.start);
      if correction > 0 {
        LaterIsLegal(src, m2, correction);
        m2' := Later(m2, correction);
      }
    }
  }

  /** A search that found more than it was given found a legal match that ends further on. */
  lemma FoundIsLegal(q: Query, best: Best)
    requires Sound(q) && Found(q, best) && best.longest > q.given
    requires q.ip + MFLIMIT <= |q.j.src| && q.iHigh == |q.j.src| - LASTLITERALS
    ensures Legal(q.j.src, Match(best.spos, best.mpos, best.longest)) || best.longest < MINMATCH
    ensures q.iLow <= best.spos <= q.ip && best.spos + best.longest >= q.ip + MINMATCH
  {
  }

  /** A search around `ip` that had to beat `len` bytes has left nothing wider than `longest`. */
  ghost predicate Looked(j: Input, e: Effort, ip: nat, iLow: nat, len: nat, longest: nat) {
    && |j.src| >= LASTLITERALS
    && var q := Query(j, ip, iLow, |j.src| - LASTLITERALS, len); Sound(q) && Thorough(q, e, longest)
  }

  /** One search of the parser: `len` is the length that has to be beaten. */
  method FindWider(hc: HcState, j: Input, ip: nat, iLow: nat, len: nat, e: Effort) returns (longest: nat, t: Match)
    requires hc.Ready(j) && hc.nextToUpdate <= j.base + ip && j.base + |j.src| < U32_SIZE - 4
    requires iLow <= ip && ip + MFLIMIT <= |j.src| && 1 <= len && ip - iLow < len
    requires iLow + len + LASTLITERALS <= |j.src| && (e.chainSwap ==> ip == iLow)
    modifies hc`nextToUpdate, hc.hashTable, hc.chainTable
    ensures hc.Ready(j) && hc.nextToUpdate == j.base + ip
    ensures longest >= len && Looked(j, e, ip, iLow, len, longest)
    ensures longest > len ==> Legal(j.src, t) && t.len == longest && iLow <= t.start <= ip && ip + MINMATCH <= t.End()
  {
    var q := Query(j, ip, iLow, |j.src| - LASTLITERALS, len);
    var best := InsertAndGetWiderMatch(hc, q, e);
    longest, t := best.longest, Match(best.spos, best.mpos, best.longest);
    if longest > len {
      FoundIsLegal(q, best);
    }
  }

  /** The input of the parser, and how many candidates its searches may visit. */
  datatype Parse = Parse(j: Input, job: Job, nbSearches: nat)

  /** From 129 candidates on, which means level 9, patterns are analysed. */
  function Directives(p: Parse): Effort {
    Effort(p.nbSearches, p.nbSearches > 128, false, false)
  }

  ghost predicate Consistent(p: Parse) {
    p.job.src == p.j.src && p.j.base + |p.j.src| < U32_SIZE - 4
  }

  /** No four bytes at `k` are those of a candidate: of the positions of the window with fewer than `attempts`
      newer ones of the same hash none has them. */
  ghost predicate Unmatched(j: Input, attempts: nat, k: nat) {
    k + MFLIMIT <= |j.src| ==>
      forall c :: Lowest(k) <= c < k && |Scan(j, k, Slot(j, k), c + 1)| < attempts ==> !SameFour(j.src, c, k)
  }

  predicate SameFour(src: seq<byte>, c: nat, k: nat)
    requires c <= k && k + 4 <= |src|
  {
    src[c..c + 4] == src[k..k + 4]
  }

  ghost predicate Quiet(p: Parse, from: nat, to: nat) {
    forall k :: from <= k < to ==> Unmatched(p.j, p.nbSearches, k)
  }

  lemma {:induction false} NothingFound(j: Input, e: Effort, k: nat, longest: nat)
    requires Looked(j, e, k, k, MINMATCH - 1, longest) && longest < MINMATCH && !e.chainSwap && !e.favorDecSpeed
    ensures Unmatched(j, e.maxNbAttempts, k)
  {
    var q := Query(j, k, k, |j.src| - LASTLITERALS, MINMATCH - 1);
    forall c | Lowest(k) <= c < k && |Scan(j, k, Slot(j, k), c + 1)| < e.maxNbAttempts
      ensures !SameFour(j.src, c, k)
    {
      assert SameHash(q, c + 1) < e.maxNbAttempts;
      assert Considered(q, e, c, longest);
    }
  }

  /** The main loop: the first match at `ip`, or one byte further. */
  method FirstSearch(hc: HcState, p: Parse, ip: nat, ghost anchor: nat) returns (pt: Point)
    requires Consistent(p) && hc.Ready(p.j) && Inv(p.j.src, hc.nextToUpdate - p.j.base, anchor, AtMain(ip))
    requires ip + MFLIMIT <= |p.j.src|
    modifies hc`nextToUpdate, hc.hashTable, hc.chainTable
    ensures hc.Ready(p.j) && Inv(p.j.src, hc.nextToUpdate - p.j.base, anchor, pt) && Advances(AtMain(ip), pt)
    ensures pt == AtMain(ip + 1) || (pt.AtSearch2? && pt.m0 == pt.m1 && pt.m1.start == ip)
    ensures pt.AtMain? ==> Unmatched(p.j, p.nbSearches, ip)
    ensures Looked(p.j, Directives(p), ip, ip, MINMATCH - 1, if pt.AtSearch2? then pt.m1.len else 3)
  {
    var longest, t := FindWider(hc, p.j, ip, ip, MINMATCH - 1, Directives(p));
    if longest < MINMATCH {
      NothingFound(p.j, Directives(p), ip, longest);
      return AtMain(ip + 1);
    }
    pt := AtSearch2(t, t);
  }

  /** Nothing overlaps the last `back` bytes of a match and is wider, as far as a search looks; or a match may
      not start there any more. */
  ghost predicate Settled(p: Parse, t: Match, back: nat) {
    || t.End() + MFLIMIT > |p.j.src|
    || (back <= t.End() && Looked(p.j, Directives(p), t.End() - back, t.start, t.len, t.len))
  }

  /** A search for a wider match that overlaps the last `back` bytes of `t`. */
  method FindBehind(hc: HcState, p: Parse, t: Match, back: nat) returns (longest: nat, next: Match)
    requires Consistent(p) && hc.Ready(p.j) && Legal(p.j.src, t) && 2 <= back <= 3
    requires hc.nextToUpdate + back <= p.j.base + t.End()
    modifies hc`nextToUpdate, hc.hashTable, hc.chainTable
    ensures hc.Ready(p.j) && hc.nextToUpdate + back <= p.j.base + t.End()
    ensures longest >= t.len && (longest == t.len ==> Settled(p, t, back))
    ensures longest > t.len ==>
              && t.End() + MFLIMIT <= |p.j.src| && Legal(p.j.src, next) && next.len == longest
              && t.start <= next.start && next.start + back <= t.End() && t.End() + MINMATCH <= next.End() + back
  {
    longest, next := t.len, t;
    if t.End() + MFLIMIT <= |p.j.src| {
      longest, next := FindWider(hc, p.j, t.End() - back, t.start, t.len, Directives(p));
    }
  }

  /** _Search2 up to the point where a match is written or a third one is looked for: the second
      match, if a search may still start and finds one. */
  method Search2(hc: HcState, p: Parse, m1: Match, m0: Match, ghost anchor: nat) returns (write: bool, pt: Point)
    requires Consistent(p) && hc.Ready(p.j) && Inv(p.j.src, hc.nextToUpdate - p.j.base, anchor, AtSearch2(m1, m0))
    modifies hc`nextToUpdate, hc.hashTable, hc.chainTable
    ensures hc.Ready(p.j) && hc.nextToUpdate - p.j.base <= m1.End()
    ensures (write ==> Settled(p, m1, 2)) && (m1.End() + MFLIMIT > |p.j.src| ==> write)
    ensures !write ==> Inv(p.j.src, hc.nextToUpdate - p.j.base, anchor, pt) && Advances(AtSearch2(m1, m0), pt)
    ensures !write ==> Searching(pt)
  {
    var longest, m2 := FindBehind(hc, p, m1, 2);
    if longest == m1.len {
      return true, Finished;
    }
    var cur := m1;
    if m0.start < m1.start {
      if m2.start < m1.start + m0.len {
        cur := m0;
      }
    }
    write := false;
    if m2.start - cur.start < 3 {
      return false, AtSearch2(m2, m0);
    }
    pt := AtSearch3(cur, m2);
  }

  datatype Decision =
    | WriteBoth(m1: Match, m2: Match)                   // no third match
    | WriteFirst(m1: Match, next: Point)                // the first one is settled
    | Replace(next: Point)                              // the third one takes the place of the second

  ghost predicate Sane(src: seq<byte>, last: int, anchor: nat, m2End: nat, d: Decision) {
    match d
    case WriteBoth(a, b) =>
      Legal(src, a) && Legal(src, b) && anchor <= a.start && a.End() <= b.start && b.End() == m2End && last <= m2End
    case WriteFirst(a, next) =>
      Legal(src, a) && anchor <= a.start && Searching(next) && Inv(src, last, a.End(), next) && Furthest(next) > m2End
    case Replace(next) =>
      Searching(next) && Inv(src, last, anchor, next) && Furthest(next) > m2End
  }

  /** _Search3: the second match is corrected and a third one is looked for. */
  method Search3(hc: HcState, p: Parse, m1: Match, m20: Match, ghost anchor: nat) returns (d: Decision)
    requires Consistent(p) && hc.Ready(p.j) && Inv(p.j.src, hc.nextToUpdate - p.j.base, anchor, AtSearch3(m1, m20))
    modifies hc`nextToUpdate, hc.hashTable, hc.chainTable
    ensures hc.Ready(p.j) && Sane(p.j.src, hc.nextToUpdate - p.j.base, anchor, m20.End(), d)
    ensures d.WriteBoth? ==> Settled(p, d.m2, 3)
  {
    var m2 := Correct(p.j.src, m1, m20);
    d := WithSecond(hc, p, m1, m2, anchor);
  }

  /** The third search, and what is decided when it finds nothing. */
  method WithSecond(hc: HcState, p: Parse, m1: Match, m2: Match, ghost anchor: nat) returns (d: Decision)
    requires Consistent(p) && hc.Ready(p.j) && hc.nextToUpdate + 3 <= p.j.base + m2.End()
    requires Legal(p.j.src, m1) && Legal(p.j.src, m2) && anchor <= m1.start && m1.End() + MFLIMIT <= |p.j.src|
    requires m1.start + MINMATCH <= m2.start <= m1.End() + 1 && (m2.start == m1.End() + 1 ==> m2.len >= 5)
    modifies hc`nextToUpdate, hc.hashTable, hc.chainTable
    ensures hc.Ready(p.j) && Sane(p.j.src, hc.nextToUpdate - p.j.base, anchor, m2.End(), d)
    ensures d.WriteBoth? ==>
              d.m2 == m2 && Settled(p, m2, 3) && d.m1 == Match(m1.start, m1.ref, Min(m1.len, m2.start - m1.start))
  {
    var longest, m3 := FindBehind(hc, p, m2, 3);
    if longest == m2.len {
      var ml := if m2.start < m1.End() then m2.start - m1.start else m1.len;
      ShorterIsLegal(p.j.src, m1, ml);
      return WriteBoth(Match(m1.start, m1.ref, ml), m2);
    }
    d := WithThird(p.j.src, m1, m2, m3, hc.nextToUpdate - p.j.base, anchor);
  }

  /** Three matches: whether the second one has enough room between the other two. */
  method WithThird(src: seq<byte>, m1: Match, m2: Match, m3: Match, ghost last: int, ghost anchor: nat)
    returns (d: Decision)
    requires Legal(src, m1) && Legal(src, m2) && Legal(src, m3) && anchor <= m1.start
    requires m1.start + MINMATCH <= m2.start <= m3.start <= m2.End() - 3
    requires m1.End() + MFLIMIT <= |src| && m2.End() + MFLIMIT <= |src|
    requires m2.start <= m1.End() + 1 && (m2.start == m1.End() + 1 ==> m2.len >= 5)
    requires m3.len > m2.len && m3.End() > m2.End() && last <= m2.End() - 3
    ensures Sane(src, last, anchor, m2.End(), d)
    ensures if m3.start < m1.End() then d == Replace(AtSearch3(m1, m3))
            else d.WriteFirst? && if m3.start < m1.End() + 3 then d.m1 == m1 && d.next.AtSearch2? && d.next.m1 == m3
                                  else d.next.AtSearch3? && d.next.m2 == m3
  {
    if m3.start < m1.End() + 3 {
      if m3.start >= m1.End() {
        var m0 := Remainder(src, m1, m2, m3);
        return WriteFirst(m1, AtSearch2(m3, m0));
      }
      return Replace(AtSearch3(m1, m3));
    }
    d := ThreeAscending(src, m1, m2, m3, last, anchor);
  }

  /** What is left of the second match behind the first, or the third one in its place. */
  method Remainder(src: seq<byte>, m1: Match, m2: Match, m3: Match) returns (m0: Match)
    requires Legal(src, m1) && Legal(src, m2) && Legal(src, m3)
    requires m1.End() <= m3.start < m1.End() + 3 && m2.start <= m3.start
    requires m1.End() + MFLIMIT <= |src| && m2.End() + MFLIMIT <= |src|
    ensures Legal(src, m0) && m1.End() <= m0.start <= m3.start <= m0.start + 2
    ensures m0 == m3 || m0.End() + MFLIMIT <= |src|
  {
    m0 := m2;
    if m2.start < m1.End() {
      var correction := m1.End() - m2.start;
      if correction > m2.len || m2.len - correction < MINMATCH {
        m0 := m3;
      } else {
        LaterIsLegal(src, m2, correction);
        m0 := Later(m2, correction);
      }
    }
  }

  /** Three ascending matches: the first one is cut where the second starts or is to start. */
  method ThreeAscending(src: seq<byte>, m1: Match, m2: Match, m3: Match, ghost last: int, ghost anchor: nat)
    returns (d: Decision)
    requires Legal(src, m1) && Legal(src, m2) && Legal(src, m3) && anchor <= m1.start
    requires m1.start + MINMATCH <= m2.start && m1.End() + 3 <= m3.start && m2.start <= m3.start
    requires m1.End() + MFLIMIT <= |src| && m2.End() + MFLIMIT <= |src|
    requires m2.start <= m1.End() + 1 && (m2.start == m1.End() + 1 ==> m2.len >= 5)
    requires m3.len > m2.len && m3.start <= m2.End() - 3 && m3.End() > m2.End() && last <= m2.End() - 3
    ensures Sane(src, last, anchor, m2.End(), d)
    ensures var near := m2.start < m1.End() && m2.start - m1.start < 18;
            var kept := if near then RoomForFirst(m1, m2) else Min(m1.len, m2.start - m1.start);
            d == WriteFirst(Match(m1.start, m1.ref, kept),
                            AtSearch3(if near then CutTo(m2, m1.start + kept) else m2, m3))
            || (m2.start == m1.End() + 1 && d == WriteFirst(m1, AtSearch3(m2, m3)))
  {
    var ml, m2' := m1.len, m2;
    if m2.start < m1.End() {
      if m2.start - m1.start < OPTIMAL_ML {
        ml := Min(ml, OPTIMAL_ML);
        if m1.start + ml > m2.End() - MINMATCH {
          ml := m2.start - m1.start + m2.len - MINMATCH;
        }
        var correction := ml - (m2.start - m1.start);
        if correction > 0 {
          LaterIsLegal(src, m2, correction);
          m2' := Later(m2, correction);
        }
      } else {
        ml := m2.start - m1.start;
      }
    }
    ShorterIsLegal(src, m1, ml);
    d := WriteFirst(Match(m1.start, m1.ref, ml), AtSearch3(m2', m3));
  }

  /** Where the output stands: bytes written, and input covered. */
  datatype Written = Written(op: nat, anchor: nat)

  /** A match of the input behind the anchor is refused for want of room. */
  ghost predicate Refused(j: Job, w: Written) {
    exists t: Match :: Legal(j.src, t) && w.anchor <= t.start
                       && NoRoom(j, w.op, t.start - w.anchor, t.len - MINMATCH)
  }

  /** LZ4HC_compress_hashChain without a dictionary. `w` is where the last literals begin. */
  method HashChain(hc: HcState, dst: array<byte>, p: Parse) returns (r: nat, consumed: nat, ghost w: Written)
    requires Consistent(p) && hc.Ready(p.j) && hc.nextToUpdate == p.j.base && |p.j.src| <= MAX_INPUT_SIZE
    requires if p.job.mode == Fast.NotLimited then CompressBound(|p.j.src|) <= dst.Length
             else 0 <= RealEnd(p.job) <= dst.Length
    requires p.job.mode == Fast.FillOutput ==> RealEnd(p.job) >= 1
    modifies dst, hc`nextToUpdate, hc.hashTable, hc.chainTable
    ensures hc.Ready(p.j)
    ensures r > 0 ==> r <= dst.Length && Block(dst[..r], p.job, consumed)
    ensures r > 0 ==> w.anchor + DecodeBlock(dst[..r]).lastRun == consumed
    ensures r > 0 ==> Quiet(p, w.anchor, |p.j.src|) || (p.job.mode == Fast.FillOutput && Refused(p.job, w))
    ensures r == 0 ==> GivenUp(dst[..], p.job, w, Quiet(p, w.anchor, |p.j.src|))
    ensures EasyRun(p) ==> 0 < r <= |p.j.src| / 255 + 16
  {
    var at := Written(0, 0);
    ghost var m := -1;
    HeadStart(dst[..], p.job);
    var overflow := false;
    if |p.j.src| >= Fast.LZ4_MINLENGTH {
      overflow, at, m := ParseAll(hc, dst, p);
    }
    w := at;
    if EasyRun(p) {
      EasyFits(p);
    }
    r, consumed := Close(dst, p.job, overflow, at, m, Quiet(p, at.anchor, |p.j.src|));
  }

  /** The end of a block, or the result 0. `silent` stands for what is known when nothing was refused. */
  method Close(dst: array<byte>, job: Job, overflow: bool, w: Written, ghost m: int, ghost silent: bool)
    returns (r: nat, consumed: nat)
    requires Head(dst[..], w.op, job, w.anchor, m) && (job.mode == Fast.FillOutput ==> RealEnd(job) >= 1)
    requires if overflow then Refused(job, w) else silent
    modifies dst
    ensures r > 0 ==> r <= dst.Length && Block(dst[..r], job, consumed)
    ensures r > 0 ==> w.anchor + DecodeBlock(dst[..r]).lastRun == consumed
    ensures r > 0 ==> silent || (job.mode == Fast.FillOutput && Refused(job, w))
    ensures r == 0 ==> GivenUp(dst[..], job, w, silent)
    ensures var rest := |job.src| - w.anchor;
            !overflow && job.mode != Fast.FillOutput
            && (job.mode == Fast.LimitedOutput ==> !LastTooLong(w.op, rest, RealEnd(job))) ==>
              r == w.op + 1 + Extension(rest) + rest
  {
    if overflow && job.mode != Fast.FillOutput {
      return 0, 0;
    }
    r, consumed := EncodeLast(dst, job, w.op, w.anchor, m);
  }

  /** Where a limited output was given up, which is the only way to fail: what had been written encodes the input
      up to the anchor, and the match that comes next, or behind the last one the rest, does not fit. */
  ghost predicate GivenUp(d: seq<byte>, job: Job, w: Written, silent: bool) {
    && job.mode == Fast.LimitedOutput && w.anchor <= |job.src|
    && (exists m :: Encoded(d, w.op, job.src, w.anchor, m))
    && (Refused(job, w) || (silent && LastTooLong(w.op, |job.src| - w.anchor, RealEnd(job))))
  }

  // ---------------------------------------------------------------- one byte over and over

  /** An input of one byte over and over, with room enough. */
  ghost predicate EasyRun(p: Parse) {
    && Fast.OneByte(p.j.src) && Fast.LZ4_MINLENGTH <= |p.j.src| && p.nbSearches >= 1 && p.job.src == p.j.src
    && p.job.mode != Fast.FillOutput && (p.job.mode == Fast.LimitedOutput ==> p.job.oend >= |p.j.src| / 255 + 16)
  }

  /** Its only match, and what is written then. */
  function RunMatch(n: nat): Match
    requires n >= Fast.LZ4_MINLENGTH
  {
    Match(1, 0, n - 6)
  }

  function RunWritten(n: nat): Written
    requires n >= Fast.LZ4_MINLENGTH
  {
    Written(4 + Extension(n - 10), n - 5)
  }

  lemma EasyFits(p: Parse)
    requires EasyRun(p)
    ensures !NoRoom(p.job, 0, 1, |p.j.src| - 10) && RunWritten(|p.j.src|).op == SequenceSize(1, |p.j.src| - 10)
    ensures !LastTooLong(RunWritten(|p.j.src|).op, 5, p.job.oend) || p.job.mode == Fast.NotLimited
    ensures 10 + Extension(|p.j.src| - 10) <= |p.j.src| / 255 + 16
  {
    Fast.ExtensionFormula(|p.j.src| - 10);
  }

  /** The search at the second byte finds it. */
  lemma {:induction false} RunIsFound(j: Input, e: Effort, t: Match, longest: nat)
    requires Fast.OneByte(j.src) && Fast.LZ4_MINLENGTH <= |j.src| && e.maxNbAttempts >= 1 && !e.favorDecSpeed
    requires Looked(j, e, 1, 1, MINMATCH - 1, longest)
    requires longest >= MINMATCH ==> Legal(j.src, t) && t.start == 1 && t.len == longest
    ensures longest >= MINMATCH && t == RunMatch(|j.src|)
  {
    var n := |j.src|;
    assert j.src[0..4] == j.src[1..5];
    assert Slot(j, 0) == Slot(j, 1) && Previous(j, 1, Slot(j, 1)) == 0;
    Fast.AllCommon(j.src, 5, 4, n - LASTLITERALS);
    assert Width(j.src, 1, 0, 1, n - LASTLITERALS) == n - 6;
  }

  /** How far the parser gets with such an input: nothing is found at its first byte, the match at the second,
      and behind it no other one is looked for. */
  ghost predicate EasyWay(p: Parse, w: Written, pt: Point)
    requires EasyRun(p)
  {
    var n := |p.j.src|;
    || (w == Written(0, 0) && (pt == AtMain(0) || pt == AtMain(1) || pt == AtSearch2(RunMatch(n), RunMatch(n))))
    || (w == RunWritten(n) && (pt == AtMain(n - 5) || pt.Finished?))
  }

  lemma {:induction false} HeadStart(d: seq<byte>, j: Job)
    requires |j.src| <= MAX_INPUT_SIZE
    requires if j.mode == Fast.NotLimited then CompressBound(|j.src|) <= |d| else RealEnd(j) <= |d|
    ensures Head(d, 0, j, 0, -1)
  {
    ReachesStart();
    assert d[..0] == [] && j.src[..0] == [];
  }

  /** The parser proper. With an overflow it stops at the last complete sequence. */
  method ParseAll(hc: HcState, dst: array<byte>, p: Parse) returns (overflow: bool, w: Written, ghost m: int)
    requires Consistent(p) && hc.Ready(p.j) && hc.nextToUpdate == p.j.base
    requires Fast.LZ4_MINLENGTH <= |p.j.src| && Head(dst[..], 0, p.job, 0, -1)
    modifies dst, hc`nextToUpdate, hc.hashTable, hc.chainTable
    ensures hc.Ready(p.j) && Head(dst[..], w.op, p.job, w.anchor, m)
    ensures if overflow then Refused(p.job, w) else Quiet(p, w.anchor, |p.j.src|)
    ensures EasyRun(p) ==> !overflow && w == RunWritten(|p.j.src|)
  {
    w, m := Written(0, 0), -1;
    overflow := false;
    var pt := AtMain(0);
    while !pt.Finished?
      invariant Parsing(hc, dst[..], p, w, m) && !overflow
      invariant Inv(p.j.src, hc.nextToUpdate - p.j.base, w.anchor, pt) && Silent(p, w.anchor, pt)
      invariant EasyRun(p) ==> EasyWay(p, w, pt)
      decreases if pt.Finished? then 0 else 1 + |p.j.src| - Furthest(pt), if Searching(pt) then 1 else 0
    {
      ghost var before := pt;
      overflow, w, m, pt := ParseStep(hc, dst, p, w, pt, m);
      if overflow {
        return;
      }
      assert Advances(before, pt);
    }
  }

  /** What the main loop has passed since the last match. */
  ghost predicate Silent(p: Parse, anchor: nat, pt: Point) {
    match pt
    case AtMain(ip) => Quiet(p, anchor, ip)
    case Finished => Quiet(p, anchor, |p.j.src|)
    case _ => true
  }

  /** From one label to the next. */
  method ParseStep(hc: HcState, dst: array<byte>, p: Parse, w0: Written, pt0: Point, ghost g: int)
    returns (overflow: bool, w: Written, ghost m: int, pt: Point)
    requires Parsing(hc, dst[..], p, w0, g) && !pt0.Finished?
    requires Inv(p.j.src, hc.nextToUpdate - p.j.base, w0.anchor, pt0) && Silent(p, w0.anchor, pt0)
    modifies dst, hc`nextToUpdate, hc.hashTable, hc.chainTable
    ensures Parsing(hc, dst[..], p, w, m)
    ensures overflow ==> Refused(p.job, w)
    ensures !overflow ==> Inv(p.j.src, hc.nextToUpdate - p.j.base, w.anchor, pt) && Advances(pt0, pt)
    ensures !overflow ==> Silent(p, w.anchor, pt)
    ensures EasyRun(p) && EasyWay(p, w0, pt0) ==> !overflow && EasyWay(p, w, pt)
  {
    overflow, w, m, pt := false, w0, g, Finished;
    match pt0 {
      case AtMain(ip) =>
        pt := AtMainStep(hc, p, ip, w);
      case AtSearch2(m1, m0) =>
        overflow, w, m, pt := AfterSearch2(hc, dst, p, w, m1, m0, m);
      case AtSearch3(m1, m2) =>
        overflow, w, m, pt := AfterSearch3(hc, dst, p, w, m1, m2, m);
    }
  }

  lemma EasyEnd(p: Parse, w: Written, pt: Point)
    ensures EasyRun(p) && pt.AtSearch2? && EasyWay(p, w, pt) ==>
              && pt.m1 == RunMatch(|p.j.src|) && pt.m1.End() + MFLIMIT > |p.j.src| && w.anchor == 0
              && !NoRoom(p.job, w.op, 1, pt.m1.len - MINMATCH) && After(w, pt.m1) == RunWritten(|p.j.src|)
  {
    if EasyRun(p) {
      EasyFits(p);
    }
  }

  /** The condition of the main loop and its search. */
  method AtMainStep(hc: HcState, p: Parse, ip: nat, ghost w: Written) returns (pt: Point)
    requires Consistent(p) && hc.Ready(p.j) && Inv(p.j.src, hc.nextToUpdate - p.j.base, w.anchor, AtMain(ip))
    requires Quiet(p, w.anchor, ip)
    modifies hc`nextToUpdate, hc.hashTable, hc.chainTable
    ensures hc.Ready(p.j) && Inv(p.j.src, hc.nextToUpdate - p.j.base, w.anchor, pt) && Advances(AtMain(ip), pt)
    ensures Silent(p, w.anchor, pt)
    ensures EasyRun(p) && EasyWay(p, w, AtMain(ip)) ==> EasyWay(p, w, pt)
  {
    pt := Finished;
    if ip + MFLIMIT <= |p.j.src| {
      pt := FirstSearch(hc, p, ip, w.anchor);
      if EasyRun(p) && ip == 1 {
        RunIsFound(p.j, Directives(p), if pt.AtSearch2? then pt.m1 else Match(1, 0, 3),
                   if pt.AtSearch2? then pt.m1.len else 3);
      }
    }
  }

  /** The state of the parse: the index, and where the output stands. */
  ghost predicate Parsing(hc: HcState, d: seq<byte>, p: Parse, w: Written, m: int)
    reads hc, hc.hashTable, hc.chainTable
  {
    Consistent(p) && hc.Ready(p.j) && Head(d, w.op, p.job, w.anchor, m)
  }

  method AfterSearch2(hc: HcState, dst: array<byte>, p: Parse, w0: Written, m1: Match, m0: Match, ghost g: int)
    returns (overflow: bool, w: Written, ghost m: int, pt: Point)
    requires Parsing(hc, dst[..], p, w0, g) && Inv(p.j.src, hc.nextToUpdate - p.j.base, w0.anchor, AtSearch2(m1, m0))
    modifies dst, hc`nextToUpdate, hc.hashTable, hc.chainTable
    ensures Parsing(hc, dst[..], p, w, m)
    ensures overflow ==> Refused(p.job, w)
    ensures !overflow ==> Inv(p.j.src, hc.nextToUpdate - p.j.base, w.anchor, pt) && Advances(AtSearch2(m1, m0), pt)
    ensures !overflow ==> Silent(p, w.anchor, pt)
    ensures EasyRun(p) && EasyWay(p, w0, AtSearch2(m1, m0)) ==> !overflow && EasyWay(p, w, pt)
  {
    EasyEnd(p, w0, AtSearch2(m1, m0));
    var write;
    write, pt := Search2(hc, p, m1, m0, w0.anchor);
    overflow, w, m := false, w0, g;
    if write {
      overflow, w, m := Write(dst, p.job, w0, m1, g);
      pt := AtMain(m1.End());
    }
  }

  method AfterSearch3(hc: HcState, dst: array<byte>, p: Parse, w0: Written, m1: Match, m2: Match, ghost g: int)
    returns (overflow: bool, w: Written, ghost m: int, pt: Point)
    requires Parsing(hc, dst[..], p, w0, g) && Inv(p.j.src, hc.nextToUpdate - p.j.base, w0.anchor, AtSearch3(m1, m2))
    modifies dst, hc`nextToUpdate, hc.hashTable, hc.chainTable
    ensures Parsing(hc, dst[..], p, w, m)
    ensures overflow ==> Refused(p.job, w)
    ensures !overflow ==> Inv(p.j.src, hc.nextToUpdate - p.j.base, w.anchor, pt) && Advances(AtSearch3(m1, m2), pt)
    ensures !overflow ==> Silent(p, w.anchor, pt)
  {
    var d := Search3(hc, p, m1, m2, w0.anchor);
    overflow, w, m, pt := Carry(dst, p, w0, d, g, hc.nextToUpdate - p.j.base, m2.End());
  }

  /** Where the output stands behind a match. */
  function After(w: Written, t: Match): Written
    requires w.anchor <= t.start && t.len >= MINMATCH
  {
    Written(w.op + SequenceSize(t.start - w.anchor, t.len - MINMATCH), t.End())
  }

  /** Writing one match. */
  method Write(dst: array<byte>, job: Job, w0: Written, t: Match, ghost m0: int)
    returns (overflow: bool, w: Written, ghost m: int)
    requires Head(dst[..], w0.op, job, w0.anchor, m0) && Legal(job.src, t) && w0.anchor <= t.start
    modifies dst
    ensures Head(dst[..], w.op, job, w.anchor, m)
    ensures overflow <==> NoRoom(job, w0.op, t.start - w0.anchor, t.len - MINMATCH)
    ensures if overflow then w == w0 && m == m0 && Refused(job, w) else w == After(w0, t) && m == t.start
  {
    var op;
    overflow, op := EncodeSequence(dst, w0.op, job, w0.anchor, t, m0);
    if overflow {
      return true, w0, m0;
    }
    w, m := Written(op, t.End()), t.start;
  }

  /** Carrying out a decision of the third search. */
  method Carry(dst: array<byte>, p: Parse, w0: Written, d: Decision, ghost m0: int, ghost last: int, ghost m2End: nat)
    returns (overflow: bool, w: Written, ghost m: int, pt: Point)
    requires p.job.src == p.j.src && Head(dst[..], w0.op, p.job, w0.anchor, m0)
    requires Sane(p.j.src, last, w0.anchor, m2End, d)
    modifies dst
    ensures Head(dst[..], w.op, p.job, w.anchor, m)
    ensures overflow ==> Refused(p.job, w)
    ensures !overflow ==> Searching(pt) || pt == AtMain(w.anchor)
    ensures !overflow ==> Inv(p.j.src, last, w.anchor, pt)
    ensures !overflow ==> (Searching(pt) && Furthest(pt) > m2End) || (pt.AtMain? && Furthest(pt) == m2End)
  {
    overflow, w, m := false, w0, m0;
    match d {
      case Replace(next) =>
        pt := next;
      case WriteFirst(a, next) =>
        pt := next;
        overflow, w, m := Write(dst, p.job, w0, a, m0);
      case WriteBoth(a, b) =>
        pt := AtMain(b.End());
        overflow, w, m := Write(dst, p.job, w0, a, m0);
        if !overflow {
          overflow, w, m := Write(dst, p.job, w, b, m);
        }
    }
  }
}
