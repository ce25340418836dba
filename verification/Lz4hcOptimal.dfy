/** LZ4HC_compress_optimal: a table of the cheapest way to reach every position of a region,
    filled forwards, reversed in place, and written out. Every entry stands for literals or a true
    match that ends where the entry stands, and the path that is written tiles the region. A price
    is the size of what is written, every position that is explored weighs all its choices, and what
    is written is a path of the table that the exploration ends with. */
module Lz4hcOptimal {
  import opened Lz4Format
  import opened Lz4Emit
  import opened Lz4hcIndex
  import opened Lz4hcMatch
  import opened Lz4hcSearch
  import opened Lz4hcEncode
  import opened Lz4hcParser
  import Fast = Lz4Fast

  const OPT_NUM := 4096
  const TRAILING_LITERALS := 3

  /** An entry of the table: `mlen` is 1 for a literal. */
  datatype Opt = Opt(price: int, off: nat, mlen: nat, litlen: nat)

  function LiteralsPrice(litlen: nat): nat {
    litlen + if litlen >= RUN_MASK then 1 + (litlen - RUN_MASK) / 255 else 0
  }

  function SequencePrice(litlen: nat, mlen: nat): nat
    requires mlen >= MINMATCH
  {
    1 + 2 + LiteralsPrice(litlen) + if mlen >= 15 + MINMATCH then 1 + (mlen - 15 - MINMATCH) / 255 else 0
  }

  /** The prices are the bytes that are written. */
  lemma PriceIsSize(litlen: nat, mlen: nat)
    requires mlen >= MINMATCH
    ensures LiteralsPrice(litlen) == Extension(litlen) + litlen
    ensures SequencePrice(litlen, mlen) == SequenceSize(litlen, mlen - MINMATCH)
  {
    assert Extension(litlen) == if litlen >= 15 then 1 + (litlen - 15) / 255 else 0;
  }

  // ---------------------------------------------------------------- paths

  /** One step of a path: a literal, or a match of `mlen` bytes at distance `off`. */
  datatype Step = Step(mlen: nat, off: nat)

  /** A step that may be taken at position `at` of the input. */
  ghost predicate StepAt(src: seq<byte>, at: nat, s: Step) {
    s.mlen == 1 || (s.mlen >= MINMATCH && s.off <= at && Legal(src, Match(at, at - s.off, s.mlen)))
  }

  /** An entry at position `i` of the table whose region starts at `ip`: the step it stands for
      ends at `i`. */
  ghost predicate Entry(src: seq<byte>, ip: nat, o: Opt, i: nat) {
    o.mlen == 1 || (o.mlen <= i && StepAt(src, ip + i - o.mlen, Step(o.mlen, o.off)))
  }

  /** All entries up to `upto` are initialised and true. */
  ghost predicate Filled(o: seq<Opt>, src: seq<byte>, ip: nat, upto: nat) {
    && |o| == OPT_NUM + TRAILING_LITERALS && upto < |o|
    && o[0].mlen == 1
    && forall i :: 0 <= i <= upto ==> Entry(src, ip, o[i], i)
  }

  /** The path that the entries describe backwards, from `c` to 0. */
  ghost function BackPath(o: seq<Opt>, c: nat): seq<Step>
    requires c < |o| && forall i :: 1 <= i <= c ==> 1 <= o[i].mlen <= i
    decreases c
  {
    if c == 0 then [] else BackPath(o, c - o[c].mlen) + [Step(o[c].mlen, o[c].off)]
  }

  /** The path that the entries describe forwards, from `r` until `end` is reached. */
  ghost function ForwardPath(o: seq<Opt>, r: nat, end: nat): seq<Step>
    decreases end - r
  {
    if r >= end || r >= |o| || o[r].mlen == 0 then []
    else [Step(o[r].mlen, o[r].off)] + ForwardPath(o, r + o[r].mlen, end)
  }

  /** The steps follow one another without gap or overlap from `r` to `end`, and each of them may
      be taken where it stands. */
  ghost predicate Tiles(src: seq<byte>, ip: nat, r: nat, steps: seq<Step>, end: nat)
    decreases |steps|
  {
    if steps == [] then r == end
    else StepAt(src, ip + r, steps[0]) && Tiles(src, ip, r + steps[0].mlen, steps[1..], end)
  }

  /** A path with a match on it. */
  predicate HasMatch(steps: seq<Step>)
    decreases |steps|
  {
    steps != [] && (steps[0].mlen >= MINMATCH || HasMatch(steps[1..]))
  }

  lemma {:induction false} HasMatchAppend(steps: seq<Step>, s: Step)
    ensures HasMatch(steps + [s]) <==> HasMatch(steps) || s.mlen >= MINMATCH
    decreases |steps|
  {
    if steps == [] {
      assert (steps + [s])[1..] == [];
    } else {
      HasMatchAppend(steps[1..], s);
      assert (steps + [s])[1..] == steps[1..] + [s];
    }
  }

  lemma {:induction false} TilesAppend(src: seq<byte>, ip: nat, r: nat, steps: seq<Step>, mid: nat, s: Step)
    requires Tiles(src, ip, r, steps, mid) && StepAt(src, ip + mid, s)
    ensures Tiles(src, ip, r, steps + [s], mid + s.mlen)
    decreases |steps|
  {
    if steps == [] {
      assert (steps + [s])[1..] == [];
    } else {
      TilesAppend(src, ip, r + steps[0].mlen, steps[1..], mid, s);
      assert (steps + [s])[1..] == steps[1..] + [s];
    }
  }

  /** Valid entries describe a tiling. */
  lemma {:induction false} BackPathTiles(o: seq<Opt>, src: seq<byte>, ip: nat, c: nat)
    requires Filled(o, src, ip, c)
    ensures Tiles(src, ip, 0, BackPath(o, c), c)
    decreases c
  {
    if c > 0 {
      assert Entry(src, ip, o[c], c);
      var p := c - o[c].mlen;
      BackPathTiles(o, src, ip, p);
      TilesAppend(src, ip, 0, BackPath(o, p), p, Step(o[c].mlen, o[c].off));
    }
  }

  /** The first entries of a region: literals, and at position 4 a match of four bytes, which is cheaper than
      any four literals are. */
  ghost predicate Rooted(o: seq<Opt>) {
    && |o| > MINMATCH && o[MINMATCH].mlen == MINMATCH && o[MINMATCH].price == LiteralsPrice(o[0].litlen) + 3
    && forall i :: 1 <= i < MINMATCH ==> o[i] == Opt(LiteralsPrice(o[0].litlen + i), 0, 1, o[0].litlen + i)
  }

  lemma FourLiteralsAreDearer(litlen: nat)
    ensures LiteralsPrice(litlen + 4) >= LiteralsPrice(litlen) + 4
  {
  }

  /** Every path that comes from behind position 3 has a match on it. */
  lemma {:induction false} RootedHasMatch(o: seq<Opt>, src: seq<byte>, ip: nat, c: nat)
    requires Filled(o, src, ip, c) && Rooted(o) && c >= MINMATCH
    ensures HasMatch(BackPath(o, c))
    decreases c
  {
    assert Entry(src, ip, o[c], c);
    var p := c - o[c].mlen;
    HasMatchAppend(BackPath(o, p), Step(o[c].mlen, o[c].off));
    if o[c].mlen == 1 {
      RootedHasMatch(o, src, ip, c - 1);
    }
  }

  /** Only entries from `r` on matter for the path from `r`. */
  lemma {:induction false} ForwardPathSame(o: seq<Opt>, o': seq<Opt>, r: nat, end: nat)
    requires |o| == |o'| && forall i :: r <= i < |o| ==> o[i] == o'[i]
    ensures ForwardPath(o, r, end) == ForwardPath(o', r, end)
    decreases end - r
  {
    if r < end && r < |o| && o[r].mlen > 0 {
      ForwardPathSame(o, o', r + o[r].mlen, end);
    }
  }

  lemma BackPathUnfolds(o: seq<Opt>, c: nat, rest: seq<Step>)
    requires 0 < c < |o| && forall i :: 1 <= i <= c ==> 1 <= o[i].mlen <= i
    ensures BackPath(o, c) + rest == BackPath(o, c - o[c].mlen) + ([Step(o[c].mlen, o[c].off)] + rest)
  {
  }

  /** Storing the step that is taken at `c`. */
  method Overwrite(opt: array<Opt>, c: nat, s: Step, ghost last: nat)
    requires c < opt.Length && c < last && s.mlen >= 1
    modifies opt
    ensures forall i :: 0 <= i < opt.Length && i != c ==> opt[i] == old(opt[i])
    ensures ForwardPath(opt[..], c, last) == [s] + old(ForwardPath(opt[..], c + s.mlen, last))
  {
    ghost var o := opt[..];
    opt[c] := opt[c].(mlen := s.mlen, off := s.off);
    ForwardPathSame(o, opt[..], c + s.mlen, last);
  }

  /** The reverse traversal: every entry on the path from `cur` back to 0 is overwritten with the
      step that follows it. Walking forwards afterwards visits exactly that path, and then the
      step it was given. */
  method Reverse(opt: array<Opt>, cur: nat, mlen: nat, off: nat, ghost last: nat)
    requires cur < opt.Length && cur < last <= cur + mlen && opt[0].mlen == 1
    requires forall i :: 1 <= i <= cur ==> 1 <= opt[i].mlen <= i
    modifies opt
    ensures ForwardPath(opt[..], 0, last) == BackPath(old(opt[..]), cur) + [Step(mlen, off)]
  {
    ghost var before := opt[..];
    ghost var rest := [Step(mlen, off)];
    var candidate: nat, selectedLength: nat, selectedOffset: nat := cur, mlen, off;
    while true
      invariant candidate <= cur && candidate < last && selectedLength >= 1
      invariant forall i :: 0 <= i <= candidate ==> opt[i] == before[i]
      invariant rest == [Step(selectedLength, selectedOffset)] + ForwardPath(opt[..], candidate + selectedLength, last)
      invariant BackPath(before, candidate) + rest == BackPath(before, cur) + [Step(mlen, off)]
      decreases candidate
    {
      var nextLength, nextOffset := opt[candidate].mlen, opt[candidate].off;
      Overwrite(opt, candidate, Step(selectedLength, selectedOffset), last);
      selectedLength, selectedOffset := nextLength, nextOffset;
      if nextLength > candidate {
        break;
      }
      BackPathUnfolds(before, candidate, rest);
      rest := [Step(nextLength, nextOffset)] + rest;
      candidate := candidate - nextLength;
    }
  }

  // ---------------------------------------------------------------- filling the table

  /** The input of the parser, and what the compression level asks for. */
  datatype Plan = Plan(j: Input, job: Job, nbSearches: nat, sufficient: nat, fullUpdate: bool, favorDecSpeed: bool)

  ghost predicate Consistent(p: Plan) {
    p.job.src == p.j.src && p.j.base + |p.j.src| < U32_SIZE - 4 && p.sufficient < OPT_NUM
  }

  /** Patterns are analysed and chains are left for better ones. */
  function Directives(p: Plan): Effort {
    Effort(p.nbSearches, true, true, p.favorDecSpeed)
  }

  /** No four bytes at `k` are those of the newest candidate or of one of the last positions, as many as may be
      visited, but for candidates that are too near when decompression speed is favoured. */
  ghost predicate Missed(j: Input, e: Effort, k: nat) {
    k + MFLIMIT <= |j.src| ==>
      forall c :: Lowest(k) <= c < k && Reached(j, e, c, k) ==> !SameFour(j.src, c, k)
  }

  ghost predicate Reached(j: Input, e: Effort, c: nat, k: nat)
    requires c < k && k + 4 <= |j.src|
  {
    && (k - c <= e.maxNbAttempts || (e.maxNbAttempts >= 1 && |Scan(j, k, Slot(j, k), c + 1)| == 0))
    && !(e.favorDecSpeed && k - c < 8)
  }

  lemma {:induction false} NothingLonger(j: Input, e: Effort, k: nat)
    requires Looked(j, e, k, k, MINMATCH - 1, MINMATCH - 1)
    ensures Missed(j, e, k)
  {
    var q := Query(j, k, k, |j.src| - LASTLITERALS, MINMATCH - 1);
    forall c | Lowest(k) <= c < k && Reached(j, e, c, k)
      ensures !SameFour(j.src, c, k)
    {
      if k - c <= e.maxNbAttempts {
        assert Considered(q, e, c, MINMATCH - 1);
      } else if Slot(j, c) == Slot(j, k) {
        ScanContains(j, k, Slot(j, k), c + 1);
        assert c == Previous(j, k, Slot(j, k));
      }
    }
  }

  /** What has been looked at may be looked at for less. */
  lemma {:induction false} LookedForMore(j: Input, e: Effort, ip: nat, iLow: nat, len: nat, longest: nat, more: nat)
    requires Looked(j, e, ip, iLow, len, longest) && longest <= more
    ensures Looked(j, e, ip, iLow, len, more)
  {
    var q := Query(j, ip, iLow, |j.src| - LASTLITERALS, len);
    forall c | Lowest(ip) <= c < ip && Considered(q, e, c, longest)
      ensures Considered(q, e, c, more)
    {
    }
  }

  /** Everything below `upto` is searched at most. */
  ghost predicate Searched(hc: HcState, p: Plan, upto: nat)
    reads hc, hc.hashTable, hc.chainTable
  {
    Consistent(p) && hc.Ready(p.j) && hc.nextToUpdate <= p.j.base + upto
  }

  /** LZ4HC_FindLongerMatch: a match of more than `minLen` bytes at `ip`, before the long ones are
      cut in favour of decompression speed; length 0 without one. */
  method FindLongerMatch(hc: HcState, p: Plan, ip: nat, minLen: nat) returns (t: Match)
    requires Searched(hc, p, ip) && ip + MFLIMIT <= |p.j.src|
    requires 1 <= minLen && ip + minLen + LASTLITERALS <= |p.j.src|
    modifies hc`nextToUpdate, hc.hashTable, hc.chainTable
    ensures Searched(hc, p, ip)
    ensures t.len > 0 ==> Legal(p.j.src, t) && t.start == ip
    ensures t.len == 0 ==> Looked(p.j, Directives(p), ip, ip, minLen, minLen)
    ensures t.len > 0 && !p.favorDecSpeed ==> t.len > minLen && Looked(p.j, Directives(p), ip, ip, minLen, t.len)
    ensures t.len > 0 && p.favorDecSpeed ==>
              Looked(p.j, Directives(p), ip, ip, minLen, if t.len == 18 then 36 else t.len)
  {
    var longest;
    longest, t := FindWider(hc, p.j, ip, ip, minLen, Directives(p));
    if longest <= minLen {
      return Match(ip, ip, 0);
    }
    if p.favorDecSpeed && 18 <= t.len <= 36 {
      LookedForMore(p.j, Directives(p), ip, ip, minLen, t.len, 36);
    }
    if p.favorDecSpeed && 18 < t.len <= 36 {
      ShorterIsLegal(p.j.src, t, 18);
      t := t.(len := 18);
    }
  }

  /** What is known of the table while the region at `ip` is explored: the entries up to the
      trailing literals behind `last` are true, and the region keeps off the last literals. */
  ghost predicate Explored(o: seq<Opt>, src: seq<byte>, ip: nat, last: nat) {
    && MINMATCH <= last < OPT_NUM && ip + last + LASTLITERALS <= |src|
    && Filled(o, src, ip, last + TRAILING_LITERALS) && Rooted(o)
  }

  /** Overwriting an entry, or adding the next one. */
  method Put(opt: array<Opt>, pos: nat, o: Opt, ghost src: seq<byte>, ghost ip: nat, ghost upto: nat)
    requires Filled(opt[..], src, ip, upto) && 1 <= pos <= upto + 1 && pos < opt.Length && Entry(src, ip, o, pos)
    modifies opt
    ensures Filled(opt[..], src, ip, if pos <= upto then upto else pos)
    ensures opt[pos] == o && forall i :: 0 <= i < opt.Length && i != pos ==> opt[i] == old(opt[i])
  {
    opt[pos] := o;
  }

  /** `n` literals behind the last match, at their price. */
  ghost predicate Trailing(o: seq<Opt>, last: nat, n: nat) {
    last + n < |o| && forall i :: last < i <= last + n ==>
                        o[i] == Opt(o[last].price + LiteralsPrice(i - last), 0, 1, i - last)
  }

  /** The literals behind the last match. */
  method CompleteWithLiterals(opt: array<Opt>, last: nat, ghost src: seq<byte>, ghost ip: nat)
    requires last < OPT_NUM && Filled(opt[..], src, ip, last)
    modifies opt
    ensures Filled(opt[..], src, ip, last + TRAILING_LITERALS)
    ensures forall i :: 0 <= i <= last ==> opt[i] == old(opt[i])
    ensures Trailing(opt[..], last, TRAILING_LITERALS)
  {
    for addLit := 1 to TRAILING_LITERALS + 1
      invariant Filled(opt[..], src, ip, last + addLit - 1) && forall i :: 0 <= i <= last ==> opt[i] == old(opt[i])
      invariant Trailing(opt[..], last, addLit - 1)
    {
      Put(opt, last + addLit, Opt(opt[last].price + LiteralsPrice(addLit), 0, 1, addLit), src, ip, last + addLit - 1);
    }
  }

  /** The entry for the first `mlen` bytes of a match. */
  lemma {:induction false} EntryOfMatch(src: seq<byte>, ip: nat, cur: nat, t: Match, o: Opt)
    requires Legal(src, t) && t.start == ip + cur && MINMATCH <= o.mlen <= t.len && o.off == t.start - t.ref
    ensures Entry(src, ip, o, cur + o.mlen)
  {
    ShorterIsLegal(src, t, o.mlen);
  }

  /** The table of a region at first: literals, then the first match in all its lengths, and literals behind it. */
  ghost predicate FirstTable(o: seq<Opt>, llen: nat, first: Match) {
    && first.len < |o| && first.ref <= first.start && o[0] == Opt(LiteralsPrice(llen), 0, 1, llen)
    && FirstEntries(o, llen, first, first.len) && Trailing(o, first.len, TRAILING_LITERALS)
  }

  ghost predicate FirstEntries(o: seq<Opt>, llen: nat, first: Match, upto: nat)
    requires first.ref <= first.start && upto < |o|
  {
    && (forall i :: 1 <= i < MINMATCH && i <= upto ==> o[i] == Opt(LiteralsPrice(llen + i), 0, 1, llen + i))
    && forall i :: MINMATCH <= i <= upto ==> o[i] == Opt(SequencePrice(llen, i), first.start - first.ref, i, llen)
  }

  /** The prices of the first positions. */
  method FirstPrices(opt: array<Opt>, src: seq<byte>, ip: nat, llen: nat, first: Match)
    requires opt.Length == OPT_NUM + TRAILING_LITERALS
    requires Legal(src, first) && first.start == ip && first.len < OPT_NUM
    modifies opt
    ensures Explored(opt[..], src, ip, first.len) && FirstTable(opt[..], llen, first)
  {
    opt[0] := Opt(LiteralsPrice(llen), 0, 1, llen);
    for rPos := 1 to MINMATCH
      invariant Filled(opt[..], src, ip, rPos - 1) && opt[0] == Opt(LiteralsPrice(llen), 0, 1, llen)
      invariant FirstEntries(opt[..], llen, first, rPos - 1)
    {
      Put(opt, rPos, Opt(LiteralsPrice(llen + rPos), 0, 1, llen + rPos), src, ip, rPos - 1);
    }
    for mlen := MINMATCH to first.len + 1
      invariant Filled(opt[..], src, ip, mlen - 1) && opt[0] == Opt(LiteralsPrice(llen), 0, 1, llen)
      invariant FirstEntries(opt[..], llen, first, mlen - 1)
    {
      var o := Opt(SequencePrice(llen, mlen), first.start - first.ref, mlen, llen);
      EntryOfMatch(src, ip, 0, first, o);
      Put(opt, mlen, o, src, ip, mlen - 1);
    }
    CompleteWithLiterals(opt, first.len, src, ip);
  }

  /** Up to `upto` no price has risen. */
  ghost predicate NoDearer(o: seq<Opt>, o': seq<Opt>, upto: nat) {
    upto < |o| == |o'| && forall i :: 0 <= i <= upto ==> o'[i].price <= o[i].price
  }

  /** Where an entry comes from: it was there, or it stands for up to three literals behind `cur`, or for a length
      of the match there. */
  ghost predicate Sourced(o: seq<Opt>, entry: Opt, cur: nat, t: Match, i: nat)
    requires cur < |o|
  {
    || (i < |o| && entry == o[i])
    || (cur < i <= cur + 3 && entry == LiteralsEntry(o, cur, i - cur))
    || (cur + MINMATCH <= i <= cur + t.len && entry == MatchEntry(o, cur, t, i - cur))
  }

  ghost predicate AllSourced(o: seq<Opt>, o': seq<Opt>, cur: nat, t: Match, upto: nat)
    requires cur < |o|
  {
    upto < |o'| == |o| && forall i :: 0 <= i <= upto ==> Sourced(o, o'[i], cur, t, i)
  }

  function LiteralsEntry(o: seq<Opt>, cur: nat, l: nat): Opt
    requires cur < |o|
  {
    Opt(PriceOfLiterals(o, cur, l), 0, 1, o[cur].litlen + l)
  }

  function MatchEntry(o: seq<Opt>, cur: nat, t: Match, ml: nat): Opt
    requires cur < |o| && ml >= MINMATCH
  {
    Opt(MatchPrice(o, cur, ml), if t.ref <= t.start then t.start - t.ref else 0, ml, LiteralsBefore(o, cur))
  }

  /** Up to `upto` nothing has changed. */
  ghost predicate SameUpTo(o: seq<Opt>, o': seq<Opt>, upto: nat) {
    upto < |o| == |o'| && forall i :: 0 <= i <= upto ==> o'[i] == o[i]
  }

  /** The price of the way to `cur` with `l` literals there. */
  function PriceOfLiterals(o: seq<Opt>, cur: nat, l: nat): int
    requires cur < |o|
  {
    o[cur].price - LiteralsPrice(o[cur].litlen) + LiteralsPrice(o[cur].litlen + l)
  }

  /** Less than `n` literals behind `cur` cost no more than the way to `cur` and the literals. */
  ghost predicate LiteralsWeighed(o: seq<Opt>, o': seq<Opt>, cur: nat, n: nat, last: nat)
    requires cur < |o| == |o'| && last < |o|
  {
    forall l :: 1 <= l < n && cur + l <= last ==> o'[cur + l].price <= PriceOfLiterals(o, cur, l)
  }

  /** Cheaper literals behind position `cur`. */
  method PriceLiterals(opt: array<Opt>, cur: nat, last: nat, ghost src: seq<byte>, ghost ip: nat)
    requires 1 <= cur < last && Explored(opt[..], src, ip, last)
    modifies opt
    ensures Explored(opt[..], src, ip, last)
    ensures NoDearer(old(opt[..]), opt[..], last + TRAILING_LITERALS) && SameUpTo(old(opt[..]), opt[..], cur)
    ensures LiteralsWeighed(old(opt[..]), opt[..], cur, MINMATCH, last)
    ensures AllSourced(old(opt[..]), opt[..], cur, Match(0, 0, 0), opt.Length - 1)
  {
    var baseLitlen := opt[cur].litlen;
    ghost var o := opt[..];
    for litlen := 1 to MINMATCH
      invariant Explored(opt[..], src, ip, last) && SameUpTo(o, opt[..], cur)
      invariant NoDearer(o, opt[..], last + TRAILING_LITERALS) && LiteralsWeighed(o, opt[..], cur, litlen, last)
      invariant AllSourced(o, opt[..], cur, Match(0, 0, 0), |o| - 1)
    {
      ghost var o1 := opt[..];
      var price := opt[cur].price - LiteralsPrice(baseLitlen) + LiteralsPrice(baseLitlen + litlen);
      PriceLiteral(opt, cur, last, litlen, price, baseLitlen, src, ip);
      LiteralsNext(o, o1, opt[..], cur, litlen, last);
    }
  }

  /** At most the entry at `pos` has changed, and then to `entry`. */
  ghost predicate Replaced(o: seq<Opt>, o': seq<Opt>, pos: nat, entry: Opt) {
    pos < |o| && (o' == o || o' == o[pos := entry])
  }

  lemma {:induction false} LiteralsNext(o: seq<Opt>, o1: seq<Opt>, o2: seq<Opt>, cur: nat, l: nat, last: nat)
    requires 1 <= l < MINMATCH && cur < last && last + TRAILING_LITERALS < |o| == |o1|
    requires Replaced(o1, o2, cur + l, LiteralsEntry(o1, cur, l)) && SameUpTo(o, o1, cur)
    requires NoDearer(o, o1, last + TRAILING_LITERALS) && LiteralsWeighed(o, o1, cur, l, last)
    requires AllSourced(o, o1, cur, Match(0, 0, 0), |o| - 1)
    requires o2[cur + l].price <= PriceOfLiterals(o1, cur, l) && o2[cur + l].price <= o1[cur + l].price
    ensures SameUpTo(o, o2, cur) && NoDearer(o, o2, last + TRAILING_LITERALS)
    ensures LiteralsWeighed(o, o2, cur, l + 1, last)
    ensures AllSourced(o, o2, cur, Match(0, 0, 0), |o| - 1)
  {
    forall i | 0 <= i < |o|
      ensures Sourced(o, o2[i], cur, Match(0, 0, 0), i)
    {
      assert Sourced(o, o1[i], cur, Match(0, 0, 0), i);
    }
  }

  /** The entry for so many literals, if it is cheaper. */
  method PriceLiteral(opt: array<Opt>, cur: nat, last: nat, litlen: nat, price: int, baseLitlen: nat,
                      ghost src: seq<byte>, ghost ip: nat)
    requires 1 <= cur < last && Explored(opt[..], src, ip, last) && 1 <= litlen < MINMATCH
    requires baseLitlen == opt[cur].litlen && price == PriceOfLiterals(opt[..], cur, litlen)
    modifies opt
    ensures Explored(opt[..], src, ip, last)
    ensures Replaced(old(opt[..]), opt[..], cur + litlen, LiteralsEntry(old(opt[..]), cur, litlen))
    ensures opt[cur + litlen].price <= price && opt[cur + litlen].price <= old(opt[cur + litlen].price)
  {
    FourLiteralsAreDearer(opt[0].litlen);
    var pos := cur + litlen;
    if price < opt[pos].price {
      Put(opt, pos, Opt(price, 0, 1, baseLitlen + litlen), src, ip, last + TRAILING_LITERALS);
    }
  }

  /** The literals in front of a match at `cur`. */
  function LiteralsBefore(o: seq<Opt>, cur: nat): nat
    requires cur < |o|
  {
    if o[cur].mlen == 1 then o[cur].litlen else 0
  }

  /** The price of the way to `cur` with the first `ml` bytes of a match there. */
  function MatchPrice(o: seq<Opt>, cur: nat, ml: nat): int
    requires cur < |o| && ml >= MINMATCH
  {
    var ll := LiteralsBefore(o, cur);
    SequencePrice(ll, ml) + if o[cur].mlen != 1 then o[cur].price else if cur > ll then o[cur - ll].price else 0
  }

  /** The price of the first `ml` bytes of a match at `cur`, and the literals in front of it. */
  method PriceOfMatch(opt: array<Opt>, cur: nat, ml: nat) returns (price: int, ll: nat)
    requires cur < opt.Length && ml >= MINMATCH
    ensures price == MatchPrice(opt[..], cur, ml) && ll == LiteralsBefore(opt[..], cur)
  {
    if opt[cur].mlen == 1 {
      ll := opt[cur].litlen;
      price := (if cur > ll then opt[cur - ll].price else 0) + SequencePrice(ll, ml);
    } else {
      ll := 0;
      price := opt[cur].price + SequencePrice(0, ml);
    }
  }

  lemma SamePrice(o: seq<Opt>, o': seq<Opt>, cur: nat, ml: nat)
    requires SameUpTo(o, o', cur) && ml >= MINMATCH
    ensures MatchPrice(o, cur, ml) == MatchPrice(o', cur, ml) && LiteralsBefore(o, cur) == LiteralsBefore(o', cur)
  {
  }

  /** Every length of the match at `cur` costs no more than the way to `cur` and the match. */
  ghost predicate MatchWeighed(o: seq<Opt>, o': seq<Opt>, cur: nat, len: nat, last: nat)
    requires cur < |o| == |o'| && last < |o|
  {
    forall ml :: MINMATCH <= ml <= len && cur + ml <= last ==> o'[cur + ml].price <= MatchPrice(o, cur, ml)
  }

  /** One length of a match: its entry, if it is a new one or no dearer. */
  method PriceLength(opt: array<Opt>, p: Plan, ip: nat, cur: nat, last0: nat, t: Match, ml: nat, ghost upto0: nat)
    returns (last: nat, ghost upto: nat)
    requires Filled(opt[..], p.j.src, ip, upto0) && Rooted(opt[..]) && upto0 >= last0 + TRAILING_LITERALS
    requires 1 <= cur < last0 && Legal(p.j.src, t) && t.start == ip + cur && t.len + cur < OPT_NUM
    requires MINMATCH <= ml <= t.len && upto0 + 1 >= cur + ml
    modifies opt
    ensures Filled(opt[..], p.j.src, ip, upto) && Rooted(opt[..])
    ensures upto == if cur + ml <= upto0 then upto0 else cur + ml
    ensures Replaced(old(opt[..]), opt[..], cur + ml, MatchEntry(old(opt[..]), cur, t, ml))
    ensures cur + ml > last0 + TRAILING_LITERALS ==> opt[cur + ml] == MatchEntry(old(opt[..]), cur, t, ml)
    ensures opt[cur + ml].price <= MatchPrice(old(opt[..]), cur, ml)
    ensures cur + ml <= last0 + TRAILING_LITERALS ==> opt[cur + ml].price <= old(opt[cur + ml].price)
    ensures last == last0 || (ml == t.len && last == cur + ml > last0)
    ensures ml == t.len ==> cur + ml <= last + TRAILING_LITERALS
  {
    var pos := cur + ml;
    last, upto := last0, upto0;
    var price, ll := PriceOfMatch(opt, cur, ml);
    if pos > last + TRAILING_LITERALS || price <= opt[pos].price - if p.favorDecSpeed then 1 else 0 {
      if ml == t.len && last < pos {
        last := pos;
      }
      var o := Opt(price, t.start - t.ref, ml, ll);
      EntryOfMatch(p.j.src, ip, cur, t, o);
      Put(opt, pos, o, p.j.src, ip, upto);
      upto := if pos <= upto then upto else pos;
    }
  }

  /** The prices that the match `t` at position `cur` gives, and the literals behind. The table
      grows when the whole match reaches beyond the last position. */
  method PriceMatch(opt: array<Opt>, p: Plan, ip: nat, cur: nat, last0: nat, t: Match) returns (last: nat)
    requires 1 <= cur < last0 && Explored(opt[..], p.j.src, ip, last0)
    requires Legal(p.j.src, t) && t.start == ip + cur && t.len + cur < OPT_NUM
    modifies opt
    ensures last0 <= last && Explored(opt[..], p.j.src, ip, last)
    ensures (last == last0 || last == cur + t.len) && cur + t.len <= last + TRAILING_LITERALS
    ensures NoDearer(old(opt[..]), opt[..], last0) && MatchWeighed(old(opt[..]), opt[..], cur, t.len, last)
    ensures AllSourced(old(opt[..]), opt[..], cur, t, last) && Trailing(opt[..], last, TRAILING_LITERALS)
  {
    ghost var o, upto := opt[..], 0;
    last, upto := PriceLengths(opt, p, ip, cur, last0, t);
    CompleteWithLiterals(opt, last, p.j.src, ip);
    assert forall i :: 0 <= i <= last ==> opt[..][i] == opt[i];
  }

  lemma {:induction false} LengthsNext(o: seq<Opt>, o1: seq<Opt>, o2: seq<Opt>, cur: nat, ml: nat, last0: nat, t: Match)
    requires MINMATCH <= ml <= t.len && cur + ml < |o| == |o1| && last0 < |o|
    requires Replaced(o1, o2, cur + ml, MatchEntry(o1, cur, t, ml))
    requires SameUpTo(o, o1, cur) && NoDearer(o, o1, last0) && MatchWeighed(o, o1, cur, ml - 1, |o| - 1)
    requires AllSourced(o, o1, cur, t, |o| - 1)
    requires o2[cur + ml].price <= MatchPrice(o1, cur, ml)
    requires cur + ml <= last0 ==> o2[cur + ml].price <= o1[cur + ml].price
    ensures SameUpTo(o, o2, cur) && NoDearer(o, o2, last0) && MatchWeighed(o, o2, cur, ml, |o| - 1)
    ensures AllSourced(o, o2, cur, t, |o| - 1)
  {
    SamePrice(o, o1, cur, ml);
    forall i | 0 <= i < |o|
      ensures Sourced(o, o2[i], cur, t, i)
    {
      assert Sourced(o, o1[i], cur, t, i);
    }
  }

  method PriceLengths(opt: array<Opt>, p: Plan, ip: nat, cur: nat, last0: nat, t: Match)
    returns (last: nat, ghost upto: nat)
    requires 1 <= cur < last0 && Explored(opt[..], p.j.src, ip, last0)
    requires Legal(p.j.src, t) && t.start == ip + cur && t.len + cur < OPT_NUM
    modifies opt
    ensures last0 <= last <= upto && Filled(opt[..], p.j.src, ip, upto) && Rooted(opt[..])
    ensures (last == last0 || last == cur + t.len) && cur + t.len <= last + TRAILING_LITERALS
    ensures NoDearer(old(opt[..]), opt[..], last0) && MatchWeighed(old(opt[..]), opt[..], cur, t.len, opt.Length - 1)
    ensures AllSourced(old(opt[..]), opt[..], cur, t, opt.Length - 1)
  {
    last := last0;
    ghost var o := opt[..];
    upto := last0 + TRAILING_LITERALS;
    for ml := MINMATCH to t.len + 1
      invariant Filled(opt[..], p.j.src, ip, upto) && Rooted(opt[..])
      invariant upto >= last0 + TRAILING_LITERALS && upto >= cur + ml - 1
      invariant last == last0 || (ml == t.len + 1 && last == cur + t.len > last0)
      invariant ml == t.len + 1 ==> cur + t.len <= last + TRAILING_LITERALS
      invariant SameUpTo(o, opt[..], cur) && NoDearer(o, opt[..], last0)
      invariant MatchWeighed(o, opt[..], cur, ml - 1, |o| - 1) && AllSourced(o, opt[..], cur, t, |o| - 1)
    {
      ghost var o1 := opt[..];
      last, upto := PriceLength(opt, p, ip, cur, last, t, ml, upto);
      LengthsNext(o, o1, opt[..], cur, ml, last0, t);
    }
  }

  /** Whether a search at `cur` is worth while: the next position is dearer, or with a full update the fourth
      one is by at least three bytes. */
  predicate Worthwhile(o: seq<Opt>, p: Plan, cur: nat)
    requires cur + MINMATCH < |o|
  {
    o[cur].price < o[cur + 1].price || (p.fullUpdate && o[cur].price + 3 <= o[cur + MINMATCH].price)
  }

  /** Whether a search at `cur` is worth while. */
  method Worth(opt: array<Opt>, p: Plan, cur: nat) returns (worth: bool)
    requires cur + MINMATCH < opt.Length
    ensures worth == Worthwhile(opt[..], p, cur)
  {
    worth := opt[cur + 1].price > opt[cur].price
             || (p.fullUpdate && opt[cur + MINMATCH].price >= opt[cur].price + 3);
  }

  /** Literals and then a match. */
  lemma {:induction false} WeighedAll(o: seq<Opt>, o1: seq<Opt>, o2: seq<Opt>, cur: nat, last0: nat, t: Match,
                                      last: nat)
    requires cur < last0 <= last < |o2| && SameUpTo(o, o1, cur) && |o2| == |o|
    requires NoDearer(o, o1, last0) && NoDearer(o1, o2, last0)
    requires LiteralsWeighed(o, o1, cur, 4, last0) && MatchWeighed(o1, o2, cur, t.len, last)
    requires AllSourced(o, o1, cur, Match(0, 0, 0), |o| - 1) && AllSourced(o1, o2, cur, t, last)
    ensures NoDearer(o, o2, last0) && LiteralsWeighed(o, o2, cur, 4, last0) && MatchWeighed(o, o2, cur, t.len, last)
    ensures AllSourced(o, o2, cur, t, last)
  {
    forall ml | MINMATCH <= ml <= t.len && cur + ml <= last
      ensures o2[cur + ml].price <= MatchPrice(o, cur, ml)
    {
      SamePrice(o, o1, cur, ml);
    }
    forall i | 0 <= i <= last
      ensures Sourced(o, o2[i], cur, t, i)
    {
      assert Sourced(o1, o2[i], cur, t, i) && Sourced(o, o1[i], cur, Match(0, 0, 0), i);
      if cur + MINMATCH <= i {
        SamePrice(o, o1, cur, i - cur);
      }
    }
  }

  /** Three literals and all lengths of a match. */
  method Weigh(opt: array<Opt>, p: Plan, ip: nat, cur: nat, last0: nat, t: Match) returns (last: nat)
    requires 1 <= cur < last0 && Explored(opt[..], p.j.src, ip, last0)
    requires Legal(p.j.src, t) && t.start == ip + cur && t.len + cur < OPT_NUM
    modifies opt
    ensures last0 <= last && Explored(opt[..], p.j.src, ip, last)
    ensures (last == last0 || last == cur + t.len) && cur + t.len <= last + TRAILING_LITERALS
    ensures NoDearer(old(opt[..]), opt[..], last0) && LiteralsWeighed(old(opt[..]), opt[..], cur, 4, last0)
    ensures MatchWeighed(old(opt[..]), opt[..], cur, t.len, last) && AllSourced(old(opt[..]), opt[..], cur, t, last)
    ensures Trailing(opt[..], last, TRAILING_LITERALS)
  {
    ghost var o := opt[..];
    PriceLiterals(opt, cur, last0, p.j.src, ip);
    ghost var o1 := opt[..];
    assert NoDearer(o, o1, last0);
    last := PriceMatch(opt, p, ip, cur, last0, t);
    WeighedAll(o, o1, opt[..], cur, last0, t, last);
  }

  /** What a position of the region adds: nothing unless a search is worth while and finds something. A match
      that is long is taken at once; any other one is weighed in all its lengths, and so are three literals. */
  ghost predicate Weighed(o: seq<Opt>, o': seq<Opt>, p: Plan, ip: nat, cur: nat, last0: nat, jump: bool, t: Match,
                          last: nat)
    requires cur < last0 <= last && cur + MINMATCH < |o| == |o'| && last < |o|
  {
    var minLen := if p.fullUpdate then 3 else last0 - cur;
    if !Worthwhile(o, p, cur) then o' == o && !jump && last == last0
    else if t.len == 0 then
      o' == o && !jump && last == last0 && Looked(p.j, Directives(p), ip + cur, ip + cur, minLen, minLen)
    else if t.len > p.sufficient || t.len + cur >= OPT_NUM then jump && o' == o && last == last0
    else
      && !jump && (last == last0 || last == cur + t.len) && cur + t.len <= last + TRAILING_LITERALS
      && NoDearer(o, o', last0) && LiteralsWeighed(o, o', cur, 4, last0) && MatchWeighed(o, o', cur, t.len, last)
      && AllSourced(o, o', cur, t, last) && Trailing(o', last, TRAILING_LITERALS)
  }

  /** The table of a region and its last position, and the match that has made them so. */
  datatype Stage = Stage(table: seq<Opt>, last: nat, t: Match)

  /** The exploration of a region, one position after the other. */
  ghost predicate Trail(p: Plan, ip: nat, llen: nat, first: Match, trail: seq<Stage>)
    decreases |trail|
  {
    && trail != []
    && if |trail| == 1 then FirstTable(trail[0].table, llen, first) && trail[0].last == first.len
       else
         var cur := |trail| - 1;
         var a, b := trail[cur - 1], trail[cur];
         && Trail(p, ip, llen, first, trail[..cur])
         && cur < a.last <= b.last < |b.table| && cur + MINMATCH < |a.table| == |b.table|
         && ip + cur + MFLIMIT <= |p.j.src|
         && Weighed(a.table, b.table, p, ip, cur, a.last, false, b.t, b.last)
  }

  /** The trail has come to this table and this last position. */
  ghost predicate Reaches(p: Plan, ip: nat, llen: nat, first: Match, trail: seq<Stage>, o: seq<Opt>, last: nat) {
    Trail(p, ip, llen, first, trail) && trail[|trail| - 1].table == o && trail[|trail| - 1].last == last
  }

  lemma TrailGrows(p: Plan, ip: nat, llen: nat, first: Match, trail: seq<Stage>, o: seq<Opt>, last0: nat, b: Stage)
    requires Reaches(p, ip, llen, first, trail, o, last0) && ip + |trail| + MFLIMIT <= |p.j.src|
    requires |trail| < last0 <= b.last < |b.table| && |trail| + MINMATCH < |o| == |b.table|
    requires Weighed(o, b.table, p, ip, |trail|, last0, false, b.t, b.last)
    ensures Reaches(p, ip, llen, first, trail + [b], b.table, b.last)
  {
    assert (trail + [b])[..|trail|] == trail;
  }

  /** How the exploration ends: with a match that is taken at once, behind the cheapest path to it that is known; or
      at the last position, or where no match may start any more, with the path to the last position. */
  ghost predicate Outcome(p: Plan, ip: nat, trail: seq<Stage>, jump: bool, t: Match, path: seq<Step>)
    requires trail != []
  {
    var o, last, cur := trail[|trail| - 1].table, trail[|trail| - 1].last, |trail|;
    if jump then
      && cur < last < |o| && cur + MINMATCH < |o| && Weighed(o, o, p, ip, cur, last, true, t, last)
      && t.ref <= t.start && Walkable(o, cur) && path == BackPath(o, cur) + [Step(t.len, t.start - t.ref)]
    else
      && (cur >= last || ip + cur + MFLIMIT > |p.j.src|) && Walkable(o, last) && path == BackPath(o, last)
  }

  ghost predicate Walkable(o: seq<Opt>, c: nat) {
    c < |o| && forall i :: 1 <= i <= c ==> 1 <= o[i].mlen <= i
  }

  /** A path that an exploration of the region leads to. */
  ghost predicate Decided(p: Plan, ip: nat, llen: nat, first: Match, path: seq<Step>) {
    exists e :: Ends(p, ip, llen, first, e, path)
  }

  /** The end of an exploration: its trail, and a match that is taken at once. */
  datatype End = End(trail: seq<Stage>, jump: bool, t: Match)

  ghost predicate Ends(p: Plan, ip: nat, llen: nat, first: Match, e: End, path: seq<Step>) {
    Trail(p, ip, llen, first, e.trail) && Outcome(p, ip, e.trail, e.jump, e.t, path)
  }

  /** One position of the region: whether a match is found that is encoded at once, and
      otherwise what it adds to the table. */
  method Explore(hc: HcState, opt: array<Opt>, p: Plan, ip: nat, cur: nat, last0: nat)
    returns (jump: bool, t: Match, last: nat)
    requires Searched(hc, p, ip + cur) && 1 <= cur < last0 && Explored(opt[..], p.j.src, ip, last0)
    requires ip + cur + MFLIMIT <= |p.j.src|
    modifies opt, hc`nextToUpdate, hc.hashTable, hc.chainTable
    ensures Searched(hc, p, ip + cur)
    ensures last0 <= last && Explored(opt[..], p.j.src, ip, last)
    ensures jump ==> Legal(p.j.src, t) && t.start == ip + cur
    ensures Weighed(old(opt[..]), opt[..], p, ip, cur, last0, jump, t, last)
  {
    jump, last := false, last0;
    t := Seek(hc, opt, p, ip, cur, last);
    if t.len == 0 {
      return;
    }
    if t.len > p.sufficient || t.len + cur >= OPT_NUM {
      return true, t, last;
    }
    last := Weigh(opt, p, ip, cur, last, t);
  }

  /** The search at a position, if it is worth while. */
  method Seek(hc: HcState, opt: array<Opt>, p: Plan, ip: nat, cur: nat, last: nat) returns (t: Match)
    requires Searched(hc, p, ip + cur) && 1 <= cur < last && last + MINMATCH <= opt.Length
    requires ip + cur + MFLIMIT <= |p.j.src| && ip + last + LASTLITERALS <= |p.j.src|
    modifies hc`nextToUpdate, hc.hashTable, hc.chainTable
    ensures Searched(hc, p, ip + cur) && opt[..] == old(opt[..])
    ensures t.len > 0 ==> Worthwhile(opt[..], p, cur) && Legal(p.j.src, t) && t.start == ip + cur
    ensures t.len == 0 && Worthwhile(opt[..], p, cur) ==>
              var minLen := if p.fullUpdate then 3 else last - cur;
              Looked(p.j, Directives(p), ip + cur, ip + cur, minLen, minLen)
  {
    t := Match(0, 0, 0);
    var worth := Worth(opt, p, cur);
    if worth {
      t := FindLongerMatch(hc, p, ip + cur, if p.fullUpdate then MINMATCH - 1 else last - cur);
    }
  }

  /** What is to be written of a region: a path of steps, up to the first position that is not
      below `last`. */
  ghost predicate Chosen(o: seq<Opt>, src: seq<byte>, ip: nat, last: nat, end: nat) {
    && 1 <= last <= end && last < |o|
    && Tiles(src, ip, 0, ForwardPath(o, 0, last), end) && HasMatch(ForwardPath(o, 0, last))
  }

  /** The exploration of a region, and the choice: the path to the last position, or, when a match
      is found that is encoded at once, the path to that match and the match. */
  method Choose(hc: HcState, opt: array<Opt>, p: Plan, ip: nat, llen: nat, first: Match)
    returns (last: nat, ghost end: nat, ghost path: seq<Step>)
    requires Searched(hc, p, ip) && opt.Length == OPT_NUM + TRAILING_LITERALS
    requires Legal(p.j.src, first) && first.start == ip && first.len < OPT_NUM
    modifies opt, hc`nextToUpdate, hc.hashTable, hc.chainTable
    ensures Chosen(opt[..], p.j.src, ip, last, end) && Searched(hc, p, ip + end) && ip + end <= |p.j.src|
    ensures path == ForwardPath(opt[..], 0, last) && Decided(p, ip, llen, first, path)
  {
    var jump, t, cur;
    jump, t, cur, last, path := ExploreAll(hc, opt, p, ip, llen, first);
    last, end := Take(opt, p.j.src, ip, jump, t, cur, last, path);
  }

  /** What is taken of a table: the path to a match that is encoded at once, and the match, or the path to the last
      position. */
  ghost predicate Taken(o: seq<Opt>, jump: bool, t: Match, cur: nat, last: nat, path: seq<Step>) {
    if jump then t.ref <= t.start && Walkable(o, cur) && path == BackPath(o, cur) + [Step(t.len, t.start - t.ref)]
    else Walkable(o, last) && path == BackPath(o, last)
  }

  /** The label encode, up to the reversed table. */
  method Take(opt: array<Opt>, ghost src: seq<byte>, ghost ip: nat, jump: bool, t: Match, cur: nat, last0: nat,
              ghost path: seq<Step>)
    returns (last: nat, ghost end: nat)
    requires Explored(opt[..], src, ip, last0) && 1 <= cur <= last0 && Taken(opt[..], jump, t, cur, last0, path)
    requires jump ==> Legal(src, t) && t.start == ip + cur && cur < last0
    modifies opt
    ensures Chosen(opt[..], src, ip, last, end) && ip + end <= |src| && cur <= end
    ensures path == ForwardPath(opt[..], 0, last)
  {
    if jump {
      TakePath(opt, src, ip, cur, Step(t.len, t.start - t.ref), cur + 1);
      last, end := cur + 1, cur + t.len;
    } else {
      TakeLast(opt, src, ip, last0);
      last, end := last0, last0;
    }
  }

  /** The path to the last position. */
  method TakeLast(opt: array<Opt>, ghost src: seq<byte>, ghost ip: nat, last: nat)
    requires Explored(opt[..], src, ip, last)
    modifies opt
    ensures Chosen(opt[..], src, ip, last, last)
    ensures Walkable(old(opt[..]), last) && ForwardPath(opt[..], 0, last) == BackPath(old(opt[..]), last)
  {
    var best := opt[last];
    assert forall i :: 1 <= i <= last ==> Entry(src, ip, opt[..][i], i);
    TakePath(opt, src, ip, last - best.mlen, Step(best.mlen, best.off), last);
  }

  /** The table of a region, with every position explored that is worth while. */
  method ExploreAll(hc: HcState, opt: array<Opt>, p: Plan, ip: nat, llen: nat, first: Match)
    returns (jump: bool, t: Match, cur: nat, last: nat, ghost path: seq<Step>)
    requires Searched(hc, p, ip) && opt.Length == OPT_NUM + TRAILING_LITERALS
    requires Legal(p.j.src, first) && first.start == ip && first.len < OPT_NUM
    modifies opt, hc`nextToUpdate, hc.hashTable, hc.chainTable
    ensures Searched(hc, p, ip + cur) && 1 <= cur <= last && Explored(opt[..], p.j.src, ip, last)
    ensures jump ==> Legal(p.j.src, t) && t.start == ip + cur && cur < last
    ensures Taken(opt[..], jump, t, cur, last, path) && Decided(p, ip, llen, first, path)
  {
    FirstPrices(opt, p.j.src, ip, llen, first);
    jump, t, cur, last := false, first, 1, first.len;
    ghost var trail := [Stage(opt[..], last, first)];
    while cur < last && ip + cur + MFLIMIT <= |p.j.src|
      invariant 1 <= cur <= last && Explored(opt[..], p.j.src, ip, last) && Searched(hc, p, ip + cur - 1)
      invariant Reaches(p, ip, llen, first, trail, opt[..], last) && |trail| == cur && !jump
      decreases OPT_NUM - cur
    {
      ghost var o, last0 := opt[..], last;
      jump, t, last := Explore(hc, opt, p, ip, cur, last);
      if jump {
        path := JumpOutcome(p, ip, llen, first, trail, opt[..], last, t);
        return;
      }
      TrailGrows(p, ip, llen, first, trail, o, last0, Stage(opt[..], last, t));
      trail := trail + [Stage(opt[..], last, t)];
      cur := cur + 1;
    }
    path := LastOutcome(p, ip, llen, first, trail, opt[..], last);
  }

  lemma WalkableTable(o: seq<Opt>, src: seq<byte>, ip: nat, c: nat)
    requires Filled(o, src, ip, c)
    ensures Walkable(o, c)
  {
    assert forall i :: 1 <= i <= c ==> Entry(src, ip, o[i], i);
  }

  lemma {:induction false} JumpOutcome(p: Plan, ip: nat, llen: nat, first: Match, trail: seq<Stage>, o: seq<Opt>,
                                       last: nat, t: Match)
    returns (path: seq<Step>)
    requires Reaches(p, ip, llen, first, trail, o, last) && Explored(o, p.j.src, ip, last) && Legal(p.j.src, t)
    requires |trail| < last < |o| && |trail| + MINMATCH < |o|
    requires Weighed(o, o, p, ip, |trail|, last, true, t, last)
    ensures Taken(o, true, t, |trail|, last, path) && Decided(p, ip, llen, first, path)
  {
    WalkableTable(o, p.j.src, ip, |trail|);
    path := BackPath(o, |trail|) + [Step(t.len, t.start - t.ref)];
    assert Ends(p, ip, llen, first, End(trail, true, t), path);
  }

  lemma {:induction false} LastOutcome(p: Plan, ip: nat, llen: nat, first: Match, trail: seq<Stage>, o: seq<Opt>,
                                       last: nat)
    returns (path: seq<Step>)
    requires Reaches(p, ip, llen, first, trail, o, last) && Explored(o, p.j.src, ip, last)
    requires |trail| >= last || ip + |trail| + MFLIMIT > |p.j.src|
    ensures forall t, cur :: Taken(o, false, t, cur, last, path)
    ensures Decided(p, ip, llen, first, path)
  {
    WalkableTable(o, p.j.src, ip, last);
    path := BackPath(o, last);
    assert Ends(p, ip, llen, first, End(trail, false, first), path);
  }

  /** The path to `cur`, and a step from there. */
  method TakePath(opt: array<Opt>, ghost src: seq<byte>, ghost ip: nat, cur: nat, s: Step, last: nat)
    requires Filled(opt[..], src, ip, cur) && StepAt(src, ip + cur, s) && cur < last <= cur + s.mlen && last < |opt[..]|
    requires s.mlen >= MINMATCH || (cur >= MINMATCH && Rooted(opt[..]))
    modifies opt
    ensures Chosen(opt[..], src, ip, last, cur + s.mlen)
    ensures Walkable(old(opt[..]), cur) && ForwardPath(opt[..], 0, last) == BackPath(old(opt[..]), cur) + [s]
  {
    ghost var o := opt[..];
    assert forall i :: 1 <= i <= cur ==> Entry(src, ip, o[i], i);
    BackPathTiles(o, src, ip, cur);
    TilesAppend(src, ip, 0, BackPath(o, cur), cur, s);
    HasMatchAppend(BackPath(o, cur), s);
    if s.mlen == 1 {
      RootedHasMatch(o, src, ip, cur);
    }
    Reverse(opt, cur, s.mlen, s.off, last);
  }

  // ---------------------------------------------------------------- writing

  /** Where the output stands behind the matches of a path from position `at` on. */
  ghost function PathWritten(w: Written, at: nat, path: seq<Step>): Written
    decreases |path|
  {
    if path == [] then w
    else if path[0].mlen == 1 || path[0].mlen < MINMATCH || at < w.anchor then PathWritten(w, at + 1, path[1..])
    else PathWritten(After(w, Match(at, 0, path[0].mlen)), at + path[0].mlen, path[1..])
  }

  /** What is left of the path from `r` on: a tiling up to `end`, with a match on it unless one is written, which
      leads to `whole`. */
  ghost predicate Left(o: seq<Opt>, src: seq<byte>, ip: nat, r: nat, last: nat, end: nat, w: Written, whole: Written) {
    var path := ForwardPath(o, r, last);
    && w.anchor <= ip + r && Tiles(src, ip, r, path, end) && (w.anchor > ip || HasMatch(path))
    && whole == PathWritten(w, ip + r, path)
  }

  lemma {:induction false} NextStep(o: seq<Opt>, src: seq<byte>, ip: nat, r: nat, last: nat, end: nat, w: Written,
                                    whole: Written)
    requires r < last <= end && last < |o| && Left(o, src, ip, r, last, end, w, whole)
    ensures o[r].mlen == 1 ==> Left(o, src, ip, r + 1, last, end, w, whole)
    ensures o[r].mlen != 1 ==>
              && o[r].off <= ip + r
              && var t := Match(ip + r, ip + r - o[r].off, o[r].mlen);
                 Legal(src, t) && Left(o, src, ip, r + o[r].mlen, last, end, After(w, t), whole)
  {
    assert ForwardPath(o, r, last)[1..] == ForwardPath(o, r + o[r].mlen, last);
  }

  /** Encoding all recorded sequences in order: the region is covered without gap or overlap, at least one match is
      written, and what is written are the matches of the path. */
  method WritePath(dst: array<byte>, opt: array<Opt>, job: Job, ip0: nat, last: nat, ghost end: nat, w0: Written,
                   ghost m0: int, ghost path: seq<Step>)
    returns (overflow: bool, w: Written, ip: nat, ghost m: int)
    requires Head(dst[..], w0.op, job, w0.anchor, m0) && w0.anchor <= ip0
    requires Chosen(opt[..], job.src, ip0, last, end) && path == ForwardPath(opt[..], 0, last)
    modifies dst
    ensures Head(dst[..], w.op, job, w.anchor, m)
    ensures overflow ==> Refused(job, w)
    ensures !overflow ==> ip == ip0 + end && ip0 < w.anchor <= ip
    ensures !overflow ==> w == PathWritten(w0, ip0, path)
  {
    ghost var whole := PathWritten(w0, ip0, path);
    var rPos: nat := 0;
    overflow, w, ip, m := false, w0, ip0, m0;
    while rPos < last
      invariant Head(dst[..], w.op, job, w.anchor, m) && ip == ip0 + rPos
      invariant Left(opt[..], job.src, ip0, rPos, last, end, w, whole)
    {
      var ml, offset := opt[rPos].mlen, opt[rPos].off;
      overflow, w, ip, m := WriteStep(dst, job, ip0, ip, ml, offset, w, m, rPos, last, end, opt[..], whole);
      if overflow {
        return;
      }
      rPos := rPos + ml;
    }
  }

  /** One step of the path: a literal is passed, a match is written. */
  method WriteStep(dst: array<byte>, job: Job, ghost ip0: nat, at: nat, ml: nat, offset: nat, w0: Written,
                   ghost m0: int, ghost r: nat, ghost last: nat, ghost end: nat, ghost o: seq<Opt>,
                   ghost whole: Written)
    returns (overflow: bool, w: Written, ip: nat, ghost m: int)
    requires Head(dst[..], w0.op, job, w0.anchor, m0) && at == ip0 + r && r < last <= end && last < |o|
    requires Left(o, job.src, ip0, r, last, end, w0, whole) && ml == o[r].mlen && offset == o[r].off
    modifies dst
    ensures Head(dst[..], w.op, job, w.anchor, m)
    ensures overflow ==> Refused(job, w)
    ensures !overflow ==> ml >= 1 && ip == at + ml && Left(o, job.src, ip0, r + ml, last, end, w, whole)
  {
    NextStep(o, job.src, ip0, r, last, end, w0, whole);
    overflow, w, ip, m := false, w0, at + 1, m0;
    if ml != 1 {
      overflow, w, m := Write(dst, job, w0, Match(at, at - offset, ml), m0);
      ip := w.anchor;
    }
  }

  // ---------------------------------------------------------------- the parser

  /** One round of the main loop. With an overflow it stops at the last complete sequence. */
  method ParseOnce(hc: HcState, dst: array<byte>, opt: array<Opt>, p: Plan, ip0: nat, w0: Written, ghost m0: int)
    returns (overflow: bool, w: Written, ip: nat, ghost m: int, ghost first: Match, ghost path: seq<Step>)
    requires Searched(hc, p, ip0) && opt.Length == OPT_NUM + TRAILING_LITERALS && ip0 + MFLIMIT <= |p.j.src|
    requires Head(dst[..], w0.op, p.job, w0.anchor, m0) && w0.anchor <= ip0
    modifies dst, opt, hc`nextToUpdate, hc.hashTable, hc.chainTable
    ensures hc.Ready(p.j) && Head(dst[..], w.op, p.job, w.anchor, m)
    ensures overflow ==> Refused(p.job, w)
    ensures !overflow ==> ip0 < ip <= |p.j.src| && w.anchor <= ip && Searched(hc, p, ip)
    ensures !overflow ==> (w == w0 && ip == ip0 + 1 && Missed(p.j, Directives(p), ip0)) || ip0 < w.anchor
    ensures !overflow && w != w0 ==>
              && Legal(p.j.src, first) && first.start == ip0
              && if first.len > p.sufficient then w == After(w0, first)
                 else Decided(p, ip0, ip0 - w0.anchor, first, path) && w == PathWritten(w0, ip0, path)
    ensures EasyPlan(p) && w0 == Written(0, 0) && ip0 <= 1 ==>
              !overflow && if ip0 == 0 then ip == 1 && w == w0 else ip == w.anchor && w == RunWritten(|p.j.src|)
  {
    overflow, w, ip, m, path := false, w0, ip0, m0, [];
    EasyRoom(p, w0);
    var t := FindFirst(hc, p, ip);
    first := t;
    if t.len == 0 {
      ip := ip + 1;
    } else if t.len > p.sufficient {
      overflow, w, m := Write(dst, p.job, w, t, m);
      ip := w.anchor;
    } else {
      overflow, w, ip, m, path := Region(hc, dst, opt, p, ip, t, w, m);
    }
  }

  /** The first match of a region. */
  method FindFirst(hc: HcState, p: Plan, ip: nat) returns (first: Match)
    requires Searched(hc, p, ip) && ip + MFLIMIT <= |p.j.src|
    modifies hc`nextToUpdate, hc.hashTable, hc.chainTable
    ensures Searched(hc, p, ip)
    ensures if first.len == 0 then Missed(p.j, Directives(p), ip) else Legal(p.j.src, first) && first.start == ip
    ensures EasyPlan(p) && ip == 0 ==> first.len == 0
    ensures EasyPlan(p) && ip == 1 ==> first == RunMatch(|p.j.src|)
  {
    first := FindLongerMatch(hc, p, ip, MINMATCH - 1);
    if EasyPlan(p) && ip == 1 {
      RunIsFound(p.j, Directives(p), first, if first.len == 0 then 3 else first.len);
    }
    if first.len == 0 {
      NothingLonger(p.j, Directives(p), ip);
    }
  }

  lemma EasyRoom(p: Plan, w: Written)
    ensures EasyPlan(p) && w == Written(0, 0) ==>
              var n := |p.j.src|;
              !NoRoom(p.job, 0, 1, n - 10) && After(w, RunMatch(n)) == RunWritten(n) && RunMatch(n).len > p.sufficient
  {
    if EasyPlan(p) {
      EasyFits(Parse(p.j, p.job, p.nbSearches));
    }
  }

  /** A region: the choice of a path and its sequences. At least one match is written. */
  method Region(hc: HcState, dst: array<byte>, opt: array<Opt>, p: Plan, ip0: nat, first: Match, w0: Written,
                ghost m0: int)
    returns (overflow: bool, w: Written, ip: nat, ghost m: int, ghost path: seq<Step>)
    requires Searched(hc, p, ip0) && opt.Length == OPT_NUM + TRAILING_LITERALS
    requires Legal(p.j.src, first) && first.start == ip0 && first.len < OPT_NUM
    requires Head(dst[..], w0.op, p.job, w0.anchor, m0) && w0.anchor <= ip0
    modifies dst, opt, hc`nextToUpdate, hc.hashTable, hc.chainTable
    ensures hc.Ready(p.j) && Head(dst[..], w.op, p.job, w.anchor, m)
    ensures overflow ==> Refused(p.job, w)
    ensures !overflow ==> ip0 < w.anchor <= ip <= |p.j.src| && Searched(hc, p, ip)
    ensures Decided(p, ip0, ip0 - w0.anchor, first, path) && (!overflow ==> w == PathWritten(w0, ip0, path))
  {
    var last;
    ghost var end;
    last, end, path := Choose(hc, opt, p, ip0, ip0 - w0.anchor, first);
    overflow, w, ip, m := WritePath(dst, opt, p.job, ip0, last, end, w0, m0, path);
  }

  /** An input of one byte over and over whose match is too long to be weighed. */
  ghost predicate EasyPlan(p: Plan) {
    EasyRun(Parse(p.j, p.job, p.nbSearches)) && |p.j.src| - 6 > p.sufficient && !p.favorDecSpeed
  }

  /** How the parser ends: nothing is found from `from` on, which is where the last region ends; and when none
      was explored at all, it is the beginning. */
  ghost predicate Over(j: Input, e: Effort, w: Written, from: nat) {
    && w.anchor <= from && (w.anchor == 0 ==> from == 0)
    && MissedTo(j, e, from, |j.src|)
  }

  ghost predicate MissedTo(j: Input, e: Effort, from: nat, to: nat) {
    forall k :: from <= k < to ==> Missed(j, e, k)
  }

  /** LZ4HC_compress_optimal without a dictionary. `w` is where the last literals begin. */
  method Optimal(hc: HcState, dst: array<byte>, p: Plan)
    returns (r: nat, consumed: nat, ghost w: Written, ghost from: nat)
    requires Consistent(p.(sufficient := 0)) && hc.Ready(p.j) && hc.nextToUpdate == p.j.base
    requires |p.j.src| <= MAX_INPUT_SIZE
    requires if p.job.mode == Fast.NotLimited then CompressBound(|p.j.src|) <= dst.Length
             else 0 <= RealEnd(p.job) <= dst.Length
    requires p.job.mode == Fast.FillOutput ==> RealEnd(p.job) >= 1
    modifies dst, hc`nextToUpdate, hc.hashTable, hc.chainTable
    ensures hc.Ready(p.j)
    ensures r > 0 ==> r <= dst.Length && Block(dst[..r], p.job, consumed)
    ensures r > 0 ==> w.anchor + DecodeBlock(dst[..r]).lastRun == consumed
    ensures r > 0 ==> Over(p.j, Directives(p), w, from) || (p.job.mode == Fast.FillOutput && Refused(p.job, w))
    ensures r == 0 ==> GivenUp(dst[..], p.job, w, Over(p.j, Directives(p), w, from))
    ensures EasyPlan(p) ==> 0 < r <= |p.j.src| / 255 + 16
  {
    var plan := p.(sufficient := if p.sufficient >= OPT_NUM then OPT_NUM - 1 else p.sufficient);
    HeadStart(dst[..], p.job);
    var overflow, at;
    ghost var m;
    overflow, at, m, from := Regions(hc, dst, plan);
    w := at;
    if EasyPlan(p) {
      EasyFits(Parse(p.j, p.job, p.nbSearches));
    }
    r, consumed := Close(dst, p.job, overflow, at, m, Over(p.j, Directives(p), at, from));
  }

  /** The main loop. With an overflow it stops at the last complete sequence. */
  method Regions(hc: HcState, dst: array<byte>, p: Plan)
    returns (overflow: bool, w: Written, ghost m: int, ghost from: nat)
    requires Searched(hc, p, 0) && Head(dst[..], 0, p.job, 0, -1)
    modifies dst, hc`nextToUpdate, hc.hashTable, hc.chainTable
    ensures hc.Ready(p.j) && Head(dst[..], w.op, p.job, w.anchor, m)
    ensures if overflow then Refused(p.job, w) else Over(p.j, Directives(p), w, from)
    ensures EasyPlan(p) ==> !overflow && w == RunWritten(|p.j.src|)
  {
    var opt := new Opt[OPT_NUM + TRAILING_LITERALS];
    var ip: nat := 0;
    overflow, w, m, from := false, Written(0, 0), -1, 0;
    while ip + MFLIMIT <= |p.j.src|
      invariant Searched(hc, p, ip) && Head(dst[..], w.op, p.job, w.anchor, m) && !overflow
      invariant w.anchor <= from <= ip && (w.anchor == 0 ==> from == 0) && MissedTo(p.j, Directives(p), from, ip)
      invariant EasyPlan(p) ==> (w == Written(0, 0) && ip <= 1) || (w == RunWritten(|p.j.src|) && ip == |p.j.src| - 5)
      decreases |p.j.src| - ip
    {
      ghost var ip0 := ip;
      ghost var first, path;
      overflow, w, ip, m, first, path := ParseOnce(hc, dst, opt, p, ip, w, m);
      if overflow {
        return;
      }
      from := if w.anchor > ip0 then ip else from;
    }
  }
}
