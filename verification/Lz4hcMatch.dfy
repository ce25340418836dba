/** One candidate of LZ4HC_InsertAndGetWiderMatch: the widest match it stands for, the filter in
    front of the comparison, and the lengths of repeated patterns. */
module Lz4hcMatch {
  import opened Lz4Format
  import opened Lz4Count
  import opened Lz4Emit
  import opened Lz4hcIndex

  // ---------------------------------------------------------------- lengths around a candidate

  /** How far `ip` and `c` agree going backwards, staying above `iLow` and the input's start. */
  function Back(src: seq<byte>, ip: nat, c: nat, iLow: nat): (n: nat)
    requires c <= ip && iLow <= ip <= |src|
    ensures n <= c && iLow + n <= ip
    decreases ip
  {
    if ip == iLow || c == 0 || src[ip - 1] != src[c - 1] then 0 else 1 + Back(src, ip - 1, c - 1, iLow)
  }

  /** They agree, and no further. */
  lemma {:induction false} BackIsLongest(src: seq<byte>, ip: nat, c: nat, iLow: nat)
    requires c <= ip && iLow <= ip <= |src|
    ensures var n := Back(src, ip, c, iLow);
            && (forall k :: ip - n <= k < ip ==> src[k] == src[k - (ip - c)])
            && (n < c && iLow + n < ip ==> src[ip - n - 1] != src[c - n - 1])
    decreases ip
  {
    if !(ip == iLow || c == 0 || src[ip - 1] != src[c - 1]) {
      BackIsLongest(src, ip - 1, c - 1, iLow);
    }
  }

  /** The length of the widest match between `ip` and `c`: 0 unless four bytes agree. */
  function Width(src: seq<byte>, ip: nat, c: nat, iLow: nat, iHigh: nat): nat
    requires c <= ip && iLow <= ip && ip + MINMATCH <= iHigh <= |src|
  {
    if src[c..c + 4] == src[ip..ip + 4] then
      MINMATCH + Common(src, ip + MINMATCH, c + MINMATCH, iHigh) + Back(src, ip, c, iLow)
    else 0
  }

  /** LZ4HC_countBack */
  method CountBack(src: seq<byte>, ip: nat, c: nat, iLow: nat) returns (back: nat)
    requires c <= ip && iLow <= ip <= |src|
    ensures back == Back(src, ip, c, iLow)
  {
    back := 0;
    while ip - back > iLow && c - back > 0 && src[ip - back - 1] == src[c - back - 1]
      invariant back <= c && iLow + back <= ip
      invariant Back(src, ip, c, iLow) == back + Back(src, ip - back, c - back, iLow)
      decreases ip - back
    {
      back := back + 1;
    }
  }

  /** The match a candidate of the given width stands for. */
  lemma {:induction false} WidthIsMatch(src: seq<byte>, ip: nat, c: nat, iLow: nat, iHigh: nat, back: nat, common: nat)
    requires c < ip && iLow <= ip && ip + MINMATCH <= iHigh <= |src| && ip - c <= DISTANCE_MAX
    requires src[c..c + 4] == src[ip..ip + 4]
    requires back == Back(src, ip, c, iLow) && common == Common(src, ip + MINMATCH, c + MINMATCH, iHigh)
    ensures back <= c && iLow + back <= ip
    ensures TrueMatch(src, ip - back, ip - c, MINMATCH + common + back) && ip + MINMATCH + common <= iHigh
  {
    BackIsLongest(src, ip, c, iLow);
    CommonIsLongest(src, ip + MINMATCH, c + MINMATCH, iHigh);
    forall k | ip - back <= k < ip + MINMATCH + common
      ensures src[k] == src[k - (ip - c)]
    {
      if ip <= k < ip + 4 {
        assert src[k] == src[ip..ip + 4][k - ip] && src[k - (ip - c)] == src[c..c + 4][k - ip];
      }
    }
  }

  lemma {:induction false} WidthCovers(src: seq<byte>, ip: nat, c: nat, iLow: nat, iHigh: nat, k: nat)
    requires c < ip && iLow <= ip && ip + MINMATCH <= iHigh <= |src|
    requires ip <= k < iLow + Width(src, ip, c, iLow, iHigh)
    ensures k < iHigh && src[k] == src[k - (ip - c)]
  {
    BackIsLongest(src, ip, c, iLow);
    CommonIsLongest(src, ip + MINMATCH, c + MINMATCH, iHigh);
    if k < ip + 4 {
      assert src[k] == src[ip..ip + 4][k - ip] && src[k - (ip - c)] == src[c..c + 4][k - ip];
    }
  }

  /** Four bytes that a match covers. */
  lemma {:induction false} WidthCoversFour(src: seq<byte>, ip: nat, c: nat, iLow: nat, iHigh: nat, k: nat)
    requires c < ip && iLow <= ip && ip + MINMATCH <= iHigh <= |src|
    requires ip <= k && k + 4 <= iLow + Width(src, ip, c, iLow, iHigh)
    ensures k + 4 <= |src| && src[k - (ip - c)..k - (ip - c) + 4] == src[k..k + 4]
  {
    WidthCovers(src, ip, c, iLow, iHigh, k);
    WidthCovers(src, ip, c, iLow, iHigh, k + 1);
    WidthCovers(src, ip, c, iLow, iHigh, k + 2);
    WidthCovers(src, ip, c, iLow, iHigh, k + 3);
  }

  /** A candidate wider than `longest` agrees with `ip` in the two bytes that the filter reads. */
  lemma FilterPasses(src: seq<byte>, ip: nat, c: nat, iLow: nat, iHigh: nat, longest: nat)
    requires c < ip && iLow <= ip && ip + MINMATCH <= iHigh <= |src|
    requires 1 <= longest && ip - iLow <= longest - 1
    requires Width(src, ip, c, iLow, iHigh) > longest
    ensures var k := iLow + longest - 1; var at := c + longest - 1 - (ip - iLow);
            k + 2 <= |src| && at + 2 <= |src| && src[k..k + 2] == src[at..at + 2]
  {
    var k := iLow + longest - 1;
    WidthCovers(src, ip, c, iLow, iHigh, k);
    WidthCovers(src, ip, c, iLow, iHigh, k + 1);
  }

  /** A search: the input, the position, the limits of a match around it, and the length that
      has to be beaten. */
  datatype Query = Query(j: Input, ip: nat, iLow: nat, iHigh: nat, given: nat)

  /** The length to beat, and once something was found where the match and its source start. */
  datatype Best = Best(longest: nat, mpos: nat, spos: nat)

  ghost predicate Sound(q: Query) {
    && q.iLow <= q.ip && q.ip + MINMATCH <= q.iHigh < |q.j.src|
    && 1 <= q.given && q.ip - q.iLow <= q.given - 1 && q.iLow + q.given <= q.iHigh
  }

  /** What a search has found so far: nothing better than the length it was given, or a true
      match around `ip` that is wider. */
  ghost predicate Found(q: Query, best: Best) {
    && q.given <= best.longest && q.iLow + best.longest <= q.iHigh
    && (best.longest > q.given ==>
          && q.iLow <= best.spos <= q.ip && best.mpos < best.spos
          && q.ip + MINMATCH <= best.spos + best.longest <= q.iHigh
          && TrueMatch(q.j.src, best.spos, best.spos - best.mpos, best.longest))
  }

  /** The counts in both directions, for a candidate whose first four bytes agree. */
  method Measure(src: seq<byte>, ip: nat, c: nat, iLow: nat, iHigh: nat) returns (matchLength: nat, back: nat)
    requires c < ip && ip - c <= DISTANCE_MAX && iLow <= ip && ip + MINMATCH <= iHigh <= |src|
    requires src[c..c + 4] == src[ip..ip + 4]
    ensures matchLength == Width(src, ip, c, iLow, iHigh) && back <= c && iLow + back <= ip
    ensures TrueMatch(src, ip - back, ip - c, matchLength)
    ensures ip + MINMATCH <= ip - back + matchLength <= iHigh
  {
    back := LookBack(src, ip, c, iLow);
    var common := Count(src, ip + MINMATCH, c + MINMATCH, iHigh);
    matchLength := MINMATCH + common + back;
    WidthIsMatch(src, ip, c, iLow, iHigh, back, common);
  }

  method LookBack(src: seq<byte>, ip: nat, c: nat, iLow: nat) returns (back: nat)
    requires c <= ip && iLow <= ip <= |src|
    ensures back == Back(src, ip, c, iLow)
  {
    back := 0;
    if ip - iLow != 0 {
      back := CountBack(src, ip, c, iLow);
    }
  }

  /** The two bytes around the end of the best match so far. */
  predicate PassesFilter(src: seq<byte>, ip: nat, c: nat, iLow: nat, longest: nat)
    requires c < ip && iLow <= ip && 1 <= longest && ip - iLow <= longest - 1 && iLow + longest + 1 <= |src|
  {
    var k := iLow + longest - 1;
    var at := c + longest - 1 - (ip - iLow);
    src[k..k + 2] == src[at..at + 2]
  }

  /** What the filter turns away could not have been wider. */
  lemma FilterIsSound(src: seq<byte>, ip: nat, c: nat, iLow: nat, iHigh: nat, longest: nat)
    requires c < ip && iLow <= ip && ip + MINMATCH <= iHigh < |src|
    requires 1 <= longest && ip - iLow <= longest - 1 && iLow + longest <= iHigh
    ensures !PassesFilter(src, ip, c, iLow, longest) ==> Width(src, ip, c, iLow, iHigh) <= longest
  {
    if Width(src, ip, c, iLow, iHigh) > longest {
      FilterPasses(src, ip, c, iLow, iHigh, longest);
    }
  }

  /** A candidate whose first four bytes agree. */
  method MeasureCandidate(q: Query, c: nat, best0: Best) returns (matchLength: nat, best: Best)
    requires Sound(q) && Found(q, best0) && c < q.ip && q.ip - c <= DISTANCE_MAX
    requires q.j.src[c..c + 4] == q.j.src[q.ip..q.ip + 4]
    ensures Found(q, best) && matchLength == Width(q.j.src, q.ip, c, q.iLow, q.iHigh)
    ensures if matchLength > best0.longest then best.longest == matchLength else best == best0
  {
    best := best0;
    var back;
    matchLength, back := Measure(q.j.src, q.ip, c, q.iLow, q.iHigh);
    if matchLength > best.longest {
      best := Best(matchLength, c - back, q.ip - back);
    }
  }

  /** A candidate inside the prefix: the filter on two bytes, the four bytes of the hash, and
      the counts in both directions. */
  method TryCandidate(q: Query, c: nat, best0: Best) returns (matchLength: nat, best: Best)
    requires Sound(q) && Found(q, best0) && c < q.ip && q.ip - c <= DISTANCE_MAX
    ensures Found(q, best)
    ensures matchLength == 0 || MINMATCH <= matchLength == Width(q.j.src, q.ip, c, q.iLow, q.iHigh)
    ensures var w := Width(q.j.src, q.ip, c, q.iLow, q.iHigh);
            if w > best0.longest then matchLength == best.longest == w else best == best0
    ensures best0.longest <= best.longest && Width(q.j.src, q.ip, c, q.iLow, q.iHigh) <= best.longest
  {
    matchLength, best := 0, best0;
    var src, ip := q.j.src, q.ip;
    FilterIsSound(src, ip, c, q.iLow, q.iHigh, best.longest);
    var passes := PassesFilter(src, ip, c, q.iLow, best.longest);
    if passes && src[c..c + 4] == src[ip..ip + 4] {
      matchLength, best := MeasureCandidate(q, c, best0);
    }
  }

  // ---------------------------------------------------------------- repeated patterns

  /** The bytes from `p` to `q` are all `b`. */
  ghost predicate AllBytes(src: seq<byte>, p: nat, q: nat, b: byte) {
    q <= |src| && forall k :: p <= k < q ==> src[k] == b
  }

  lemma {:induction false} WordOfByte(src: seq<byte>, p: nat, w: nat, b: byte)
    requires p + w <= |src|
    ensures AllBytes(src, p, p + w, b) <==> src[p..p + w] == seq(w, _ => b)
  {
    var a := src[p..p + w];
    if a == seq(w, _ => b) {
      forall k | p <= k < p + w
        ensures src[k] == b
      {
        assert src[k] == a[k - p];
      }
    }
  }

  /** The four bytes of the pattern, over and over, from `p` on. */
  ghost predicate Repeats(src: seq<byte>, p: nat, n: nat, pattern: seq<byte>)
    requires p + n <= |src| && |pattern| == 4
  {
    forall k :: p <= k < p + n ==> src[k] == pattern[(k - p) % 4]
  }

  /** The same from `p` backwards. */
  ghost predicate RepeatsBack(src: seq<byte>, p: nat, n: nat, pattern: seq<byte>)
    requires n <= p <= |src| && |pattern| == 4
  {
    forall k :: p - n <= k < p ==> src[k] == pattern[3 - (p - 1 - k) % 4]
  }

  /** A word behind whole patterns. */
  lemma RepeatsOn(src: seq<byte>, p: nat, n: nat, pattern: seq<byte>)
    requires |pattern| == 4 && n % 4 == 0 && p + n + 8 <= |src| && Repeats(src, p, n, pattern)
    requires src[p + n..p + n + 8] == pattern + pattern
    ensures Repeats(src, p, n + 8, pattern) && (n + 8) % 4 == 0
  {
    forall k | p + n <= k < p + n + 8
      ensures src[k] == pattern[(k - p) % 4]
    {
      assert src[k] == src[p + n..p + n + 8][k - p - n];
    }
  }

  /** And where such a word breaks off. */
  lemma WordBreaks(src: seq<byte>, p: nat, n: nat, d: nat, pattern: seq<byte>)
    requires |pattern| == 4 && n % 4 == 0 && d < 8 && p + n + 8 <= |src| && Repeats(src, p, n, pattern)
    requires src[p + n..p + n + 8][..d] == (pattern + pattern)[..d]
    requires src[p + n..p + n + 8][d] != (pattern + pattern)[d]
    ensures Repeats(src, p, n + d, pattern) && src[p + n + d] != pattern[(n + d) % 4]
  {
    var a, word := src[p + n..p + n + 8], pattern + pattern;
    forall k | p + n <= k < p + n + d
      ensures src[k] == pattern[(k - p) % 4]
    {
      assert src[k] == a[..d][k - p - n] == word[..d][k - p - n];
    }
    assert (pattern + pattern)[d] == pattern[d % 4] && (n + d) % 4 == d % 4;
  }

  lemma RepeatsBackOn(src: seq<byte>, p: nat, n: nat, pattern: seq<byte>)
    requires |pattern| == 4 && n % 4 == 0 && n + 4 <= p <= |src| && RepeatsBack(src, p, n, pattern)
    requires src[p - n - 4..p - n] == pattern
    ensures RepeatsBack(src, p, n + 4, pattern)
  {
    forall k | p - n - 4 <= k < p - n
      ensures src[k] == pattern[3 - (p - 1 - k) % 4]
    {
      assert src[k] == src[p - n - 4..p - n][k - (p - n - 4)];
    }
  }

  /** LZ4HC_countPattern: how far the pattern goes on repeating from `p`. */
  method CountPattern(src: seq<byte>, p: nat, iEnd: nat, pattern: seq<byte>) returns (n: nat)
    requires p <= iEnd <= |src| && |pattern| == 4
    ensures p + n <= iEnd && Repeats(src, p, n, pattern)
    ensures p + n < iEnd ==> src[p + n] != pattern[n % 4]
  {
    n := 0;
    var word := pattern + pattern;
    while p + n + 7 < iEnd
      invariant p + n <= iEnd && Repeats(src, p, n, pattern) && n % 4 == 0
    {
      var a := src[p + n..p + n + 8];
      if a != word {
        var d := FirstDifference(a, word);
        WordBreaks(src, p, n, d, pattern);
        return n + d;
      }
      RepeatsOn(src, p, n, pattern);
      n := n + 8;
    }
    while p + n < iEnd && src[p + n] == pattern[n % 4]
      invariant p + n <= iEnd && Repeats(src, p, n, pattern)
    {
      n := n + 1;
    }
  }

  /** LZ4HC_reverseCountPattern: the same going backwards. */
  method ReverseCountPattern(src: seq<byte>, p: nat, iLow: nat, pattern: seq<byte>) returns (n: nat)
    requires iLow <= p <= |src| && |pattern| == 4
    ensures iLow + n <= p && RepeatsBack(src, p, n, pattern)
    ensures iLow + n < p ==> src[p - 1 - n] != pattern[3 - n % 4]
  {
    n := 0;
    while p - n >= iLow + 4 && src[p - n - 4..p - n] == pattern
      invariant iLow + n <= p && RepeatsBack(src, p, n, pattern) && n % 4 == 0
      decreases p - n
    {
      RepeatsBackOn(src, p, n, pattern);
      n := n + 4;
    }
    while p - n > iLow && src[p - n - 1] == pattern[3 - n % 4]
      invariant iLow + n <= p && RepeatsBack(src, p, n, pattern)
      decreases p - n
    {
      n := n + 1;
    }
  }
}
