/** LZ4_count: how far two positions of the input agree. */
module Lz4Count {
  import opened Lz4Format

  /** The number of equal bytes in front of the first difference (LZ4_NbCommonBytes). */
  function FirstDifference(a: seq<byte>, b: seq<byte>): (n: nat)
    requires |a| == |b| && a != b
    ensures n < |a| && a[..n] == b[..n] && a[n] != b[n]
  {
    if a[0] != b[0] then 0
    else
      assert a == [a[0]] + a[1..] && b == [b[0]] + b[1..];
      1 + FirstDifference(a[1..], b[1..])
  }

  ghost predicate Equal(src: seq<byte>, p: nat, q: nat, n: nat) {
    p + n <= |src| && q + n <= |src| && forall k :: p <= k < p + n ==> src[k] == src[k - p + q]
  }

  /** The length of the longest common run below `limit`. */
  function Common(src: seq<byte>, p: nat, q: nat, limit: nat): (n: nat)
    requires q <= p <= limit <= |src|
    ensures p + n <= limit
    decreases limit - p
  {
    if p == limit || src[p] != src[q] then 0 else 1 + Common(src, p + 1, q + 1, limit)
  }

  /** It is common, and it cannot be longer. */
  lemma {:induction false} CommonIsLongest(src: seq<byte>, p: nat, q: nat, limit: nat)
    requires q <= p <= limit <= |src|
    ensures var n := Common(src, p, q, limit);
            Equal(src, p, q, n) && (p + n < limit ==> src[p + n] != src[q + n])
    decreases limit - p
  {
    if p < limit && src[p] == src[q] {
      CommonIsLongest(src, p + 1, q + 1, limit);
      var n := Common(src, p + 1, q + 1, limit);
      forall k | p <= k < p + 1 + n
        ensures src[k] == src[k - p + q]
      {
        assert k > p ==> src[k] == src[k - (p + 1) + (q + 1)];
      }
    }
  }

  /** A word at offset `n` of the run compares equal just when it lies inside the run. */
  lemma {:induction false} WordInside(src: seq<byte>, p: nat, q: nat, limit: nat, n: nat, w: nat)
    requires q <= p <= limit <= |src| && p + n + w <= limit && n <= Common(src, p, q, limit) && w > 0
    ensures src[q + n..q + n + w] == src[p + n..p + n + w] <==> n + w <= Common(src, p, q, limit)
  {
    var c := Common(src, p, q, limit);
    CommonIsLongest(src, p, q, limit);
    if n + w <= c {
      var a, b := src[q + n..q + n + w], src[p + n..p + n + w];
      forall k | 0 <= k < w
        ensures a[k] == b[k]
      {
        assert src[p + n + k] == src[p + n + k - p + q];
      }
    } else {
      assert src[p + c] != src[q + c];
      assert src[q + n..q + n + w][c - n] != src[p + n..p + n + w][c - n];
    }
  }

  /** LZ4_count: the length of the common run, in words as long as a word fits, then by 4, 2
      and 1 bytes. */
  method Count(src: seq<byte>, pIn: nat, pMatch: nat, limit: nat) returns (n: nat)
    requires pMatch <= pIn <= limit <= |src|
    ensures n == Common(src, pIn, pMatch, limit)
  {
    n := 0;
    while pIn + n + 7 < limit
      invariant n <= Common(src, pIn, pMatch, limit)
    {
      var a := src[pMatch + n..pMatch + n + 8];
      var b := src[pIn + n..pIn + n + 8];
      WordInside(src, pIn, pMatch, limit, n, 8);
      if a != b {
        var common := FirstDifference(a, b);
        WordDiffers(src, pIn, pMatch, limit, n, common);
        return n + common;
      }
      n := n + 8;
    }
    n := CountTail(src, pIn, pMatch, limit, n);
  }

  lemma {:induction false} WordDiffers(src: seq<byte>, p: nat, q: nat, limit: nat, n: nat, common: nat)
    requires q <= p <= limit <= |src| && p + n + 8 <= limit && n <= Common(src, p, q, limit)
    requires common < 8 && src[q + n..q + n + 8][..common] == src[p + n..p + n + 8][..common]
    requires src[q + n..q + n + 8][common] != src[p + n..p + n + 8][common]
    ensures n + common == Common(src, p, q, limit)
  {
    if common > 0 {
      assert src[q + n..q + n + common] == src[q + n..q + n + 8][..common];
      assert src[p + n..p + n + common] == src[p + n..p + n + 8][..common];
      WordInside(src, p, q, limit, n, common);
    }
    assert src[q + n..q + n + common + 1][common] == src[q + n..q + n + 8][common];
    assert src[p + n..p + n + common + 1][common] == src[p + n..p + n + 8][common];
    WordInside(src, p, q, limit, n, common + 1);
  }

  /** One word-sized step of the count: taken when the word fits and is equal. */
  method Step(src: seq<byte>, pIn: nat, pMatch: nat, limit: nat, n: nat, w: nat) returns (n': nat)
    requires pMatch <= pIn <= limit <= |src| && n <= Common(src, pIn, pMatch, limit) && w > 0
    ensures n' == if n + w <= Common(src, pIn, pMatch, limit) then n + w else n
  {
    n' := n;
    if pIn + n + w <= limit {
      WordInside(src, pIn, pMatch, limit, n, w);
      if src[pMatch + n..pMatch + n + w] == src[pIn + n..pIn + n + w] {
        n' := n + w;
      }
    }
  }

  method CountTail(src: seq<byte>, pIn: nat, pMatch: nat, limit: nat, n0: nat) returns (n: nat)
    requires pMatch <= pIn && pIn + n0 <= limit <= |src| && limit < pIn + n0 + 8
    requires n0 <= Common(src, pIn, pMatch, limit)
    ensures n == Common(src, pIn, pMatch, limit)
  {
    n := Step(src, pIn, pMatch, limit, n0, 4);
    n := Step(src, pIn, pMatch, limit, n, 2);
    n := Step(src, pIn, pMatch, limit, n, 1);
  }
}
