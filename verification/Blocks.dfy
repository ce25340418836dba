/** Folding a function over the blocks of a byte string, and the state of an incremental form of it:
    the fold over the whole blocks seen so far, and a buffer with the bytes behind them. */
module Blocks {
  import opened Bytes

  /** The size of a block, and how one is taken in. */
  datatype Folder<!S> = Folder(size: nat, absorb: (S, seq<byte>) -> S)

  predicate Sized<S>(a: Folder<S>) {
    a.size >= 1
  }

  /** How many of `n` bytes do not fill a block. */
  function Left<S>(a: Folder<S>, n: nat): (k: nat)
    requires Sized(a)
    ensures k <= n && k < a.size
  {
    if n < a.size then n else Left(a, n - a.size)
  }

  lemma {:induction false} LeftNext<S>(a: Folder<S>, n: nat)
    requires Sized(a)
    ensures Left(a, n + a.size) == Left(a, n)
  {
  }

  /** Whole blocks do not count. */
  lemma {:induction false} LeftSum<S>(a: Folder<S>, m: nat, n: nat, total: nat)
    requires Sized(a) && Left(a, m) == 0 && total == m + n
    ensures Left(a, total) == Left(a, n)
    decreases m
  {
    if m > 0 {
      LeftSum(a, m - a.size, n, total - a.size);
    }
  }

  lemma {:induction false} WholeBlocks<S>(a: Folder<S>, n: nat)
    requires Sized(a)
    ensures Left(a, n - Left(a, n)) == 0
  {
    if n >= a.size {
      WholeBlocks(a, n - a.size);
      LeftNext(a, n - a.size - Left(a, n));
    }
  }

  lemma LeftMore<S>(a: Folder<S>, n: nat, k: nat)
    requires Sized(a) && Left(a, n) + k < a.size
    ensures Left(a, n + k) == Left(a, n) + k
  {
    WholeBlocks(a, n);
    LeftSum(a, n - Left(a, n), Left(a, n) + k, n + k);
  }

  lemma LeftOfSum<S>(a: Folder<S>, n: nat, m: nat, p: nat, k: nat, total: nat)
    requires Sized(a) && m == Left(a, n) && Left(a, m + p) == 0 && k < a.size && total == n + p + k
    ensures Left(a, total) == k
  {
    WholeBlocks(a, n);
    LeftSum(a, n - m, m + p, n + p);
    LeftSum(a, n + p, k, total);
  }

  lemma {:induction false} CutIs<S>(a: Folder<S>, n: nat, p: nat)
    requires Sized(a) && p <= n && n - p < a.size && Left(a, p) == 0
    ensures p == n - Left(a, n)
  {
    LeftSum(a, p, n - p, n);
  }

  /** For the block sizes in use, what is left is the remainder. */
  lemma {:induction false} Left16<S>(a: Folder<S>, n: nat)
    requires a.size == 16
    ensures Left(a, n) == n % 16
  {
    if n >= 16 {
      Left16(a, n - 16);
      assert n % 16 == (n - 16) % 16;
    }
  }

  lemma {:induction false} Left32<S>(a: Folder<S>, n: nat)
    requires a.size == 32
    ensures Left(a, n) == n % 32
  {
    if n >= 32 {
      Left32(a, n - 32);
      assert n % 32 == (n - 32) % 32;
    }
  }

  lemma {:induction false} Left64<S>(a: Folder<S>, n: nat)
    requires a.size == 64
    ensures Left(a, n) == n % 64
  {
    if n >= 64 {
      Left64(a, n - 64);
      assert n % 64 == (n - 64) % 64;
    }
  }

  /** The fold over a whole number of blocks. */
  function Fold<S>(a: Folder<S>, v: S, data: seq<byte>): S
    requires Sized(a)
    decreases |data|
  {
    if |data| < a.size then v
    else
      var n := |data| - a.size;
      a.absorb(Fold(a, v, data[..n]), data[n..])
  }

  lemma {:induction false} FoldNext<S>(a: Folder<S>, v: S, data: seq<byte>, b: seq<byte>)
    requires Sized(a) && |b| == a.size
    ensures Fold(a, v, data + b) == a.absorb(Fold(a, v, data), b)
  {
    assert (data + b)[..|data|] == data && (data + b)[|data|..] == b;
  }

  // ---------------------------------------------------------------- the fold over given pieces

  predicate AllOfSize(pieces: seq<seq<byte>>, n: nat) {
    forall k :: 0 <= k < |pieces| ==> |pieces[k]| == n
  }

  /** The pieces are taken in one after the other, the first one first. */
  function FoldPieces<S>(absorb: (S, seq<byte>) -> S, v: S, pieces: seq<seq<byte>>): S {
    if pieces == [] then v
    else absorb(FoldPieces(absorb, v, pieces[..|pieces| - 1]), pieces[|pieces| - 1])
  }

  lemma FoldOfOne<S>(absorb: (S, seq<byte>) -> S, v: S, piece: seq<byte>)
    ensures Concat([piece]) == piece && FoldPieces(absorb, v, [piece]) == absorb(v, piece)
  {
    assert [piece][..0] == [];
    assert Concat([piece]) == Concat([]) + piece == piece;
  }

  /** The fold over the blocks of a byte string is the one over the pieces it consists of. */
  lemma {:induction false} FoldOfPieces<S>(a: Folder<S>, v: S, pieces: seq<seq<byte>>)
    requires Sized(a) && AllOfSize(pieces, a.size)
    ensures Fold(a, v, Concat(pieces)) == FoldPieces(a.absorb, v, pieces) && Left(a, |Concat(pieces)|) == 0
  {
    if pieces != [] {
      var front, last := pieces[..|pieces| - 1], pieces[|pieces| - 1];
      FoldOfPieces(a, v, front);
      FoldNext(a, v, Concat(front), last);
      LeftNext(a, |Concat(front)|);
    }
  }

  lemma {:induction false} NextBlock<S>(a: Folder<S>, start: S, before: seq<byte>, data: seq<byte>, p: nat)
    requires Sized(a) && p + a.size <= |data|
    ensures Fold(a, start, before + data[..p + a.size]) ==
            a.absorb(Fold(a, start, before + data[..p]), data[p..p + a.size])
  {
    var b := data[p..p + a.size];
    FoldNext(a, start, before + data[..p], b);
    assert before + data[..p] + b == before + data[..p + a.size];
  }

  // ---------------------------------------------------------------- the incremental form

  /** What the value and the buffer are after the bytes `fed`: the whole blocks are taken in, the
      rest is in the buffer. */
  ghost predicate Holds<S>(a: Folder<S>, start: S, fed: seq<byte>, v: S, mem: seq<byte>) {
    && Sized(a)
    && |mem| == Left(a, |fed|)
    && mem == fed[|fed| - |mem|..]
    && v == Fold(a, start, fed[..|fed| - |mem|])
  }

  /** What fits the buffer. */
  lemma FillsBuffer<S>(a: Folder<S>, start: S, fed: seq<byte>, v: S, mem: seq<byte>, input: seq<byte>)
    requires Holds(a, start, fed, v, mem) && |mem| + |input| < a.size
    ensures Holds(a, start, fed + input, v, mem + input)
  {
    var all := fed + input;
    LeftMore(a, |fed|, |input|);
    assert all[..|all| - |mem + input|] == fed[..|fed| - |mem|];
  }

  /** The bytes of an update behind those that the buffer holds: the first `p` of them end with a
      block. */
  lemma {:induction false} Consumes<S>(a: Folder<S>, start: S, fed: seq<byte>, mem: seq<byte>, input: seq<byte>,
                                       v: S, p: nat)
    requires Sized(a) && |mem| == Left(a, |fed|) && mem == fed[|fed| - |mem|..]
    requires p <= |input| && |input| - p < a.size && Left(a, |mem| + p) == 0
    requires v == Fold(a, start, fed[..|fed| - |mem|] + mem + input[..p])
    ensures Holds(a, start, fed + input, v, input[p..])
  {
    LeftOfSum(a, |fed|, |mem|, p, |input| - p, |fed + input|);
    CutOfSum(fed, |fed| - |mem|, mem, input, p);
    HoldsAt(a, start, fed + input, v, input[p..], |fed| + p, fed[..|fed| - |mem|] + mem + input[..p]);
  }

  lemma {:induction false} HoldsAt<S>(a: Folder<S>, start: S, fed: seq<byte>, v: S, mem: seq<byte>, cut: nat,
                                      whole: seq<byte>)
    requires Sized(a) && cut <= |fed| && Left(a, |fed|) == |fed| - cut
    requires whole == fed[..cut] && mem == fed[cut..] && v == Fold(a, start, whole)
    ensures Holds(a, start, fed, v, mem)
  {
  }

  lemma {:induction false} CutOfSum(fed: seq<byte>, whole: nat, mem: seq<byte>, input: seq<byte>, p: nat)
    requires whole + |mem| == |fed| && mem == fed[whole..] && p <= |input|
    ensures (fed + input)[..|fed| + p] == fed[..whole] + mem + input[..p]
    ensures (fed + input)[|fed| + p..] == input[p..]
  {
    assert fed == fed[..whole] + mem;
  }

  // ---------------------------------------------------------------- loops

  /** The loop over blocks, from `p0` on. In front of the data lie the bytes `before`, of which `m`
      do not fill a block. */
  method BlockLoop<S>(a: Folder<S>, v0: S, data: seq<byte>, p0: nat, ghost before: seq<byte>, ghost m: nat,
                      ghost start: S)
    returns (v: S, p: nat)
    requires Sized(a) && p0 <= |data| && Left(a, m + p0) == 0
    requires v0 == Fold(a, start, before + data[..p0])
    ensures p0 <= p <= |data| && |data| - p < a.size && Left(a, m + p) == 0
    ensures v == Fold(a, start, before + data[..p])
  {
    v, p := v0, p0;
    while p + a.size <= |data|
      invariant p0 <= p <= |data| && Left(a, m + p) == 0
      invariant v == Fold(a, start, before + data[..p])
    {
      NextBlock(a, start, before, data, p);
      LeftNext(a, m + p);
      v := a.absorb(v, data[p..p + a.size]);
      p := p + a.size;
    }
  }

  /** A memcpy into a buffer. */
  method Fill(mem: array<byte>, at: nat, b: seq<byte>)
    requires at + |b| <= mem.Length
    modifies mem
    ensures mem[..at + |b|] == old(mem[..at]) + b
    ensures forall k :: at + |b| <= k < mem.Length ==> mem[k] == old(mem[k])
  {
    forall k | at <= k < at + |b| {
      mem[k] := b[k - at];
    }
  }
}
