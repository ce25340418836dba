/** XXH32 and XXH64: hashing in one call, and hashing in any number of pieces. The arithmetic of
    the rounds is a parameter. What is proved is that the state of the incremental form is
    exactly what the one-call form computes on the bytes seen so far. */
module XxHash {
  import opened Bytes
  import opened Blocks

  const U32_SIZE := 0x1_0000_0000
  const U64_SIZE := 0x1_0000_0000_0000_0000

  datatype Lanes = Lanes(v1: nat, v2: nat, v3: nat, v4: nat)

  /** The arithmetic of one of the two algorithms. `word` is 4 for XXH32 and 8 for XXH64, and
      `absorb` takes in a stripe of four words. The third lane starts with the seed itself. */
  datatype Algorithm = Algorithm(
    word: nat,
    first: nat -> nat, second: nat -> nat, fourth: nat -> nat,
    absorb: (Lanes, seq<byte>) -> Lanes,
    converge: Lanes -> nat, short: nat -> nat, addLength: (nat, nat) -> nat,
    tailWord: (nat, seq<byte>) -> nat, tailHalf: (nat, seq<byte>) -> nat, tailByte: (nat, byte) -> nat,
    avalanche: nat -> nat)

  predicate Known(a: Algorithm) {
    a.word == 4 || a.word == 8
  }

  function Stripe(a: Algorithm): nat {
    4 * a.word
  }

  /** The fold over stripes. */
  function Stripes(a: Algorithm): Folder<Lanes> {
    Folder(4 * a.word, a.absorb)
  }

  function Begin(a: Algorithm, seed: nat): Lanes {
    Lanes(a.first(seed), a.second(seed), seed, a.fourth(seed))
  }

  /** The bytes behind the last stripe: words, at most one half word, and single bytes. */
  function Tail(a: Algorithm, h: nat, rest: seq<byte>): nat
    requires Known(a)
    decreases |rest|
  {
    if |rest| >= a.word then Tail(a, a.tailWord(h, rest[..a.word]), rest[a.word..])
    else if a.word == 8 && |rest| >= 4 then Tail(a, a.tailHalf(h, rest[..4]), rest[4..])
    else if rest != [] then Tail(a, a.tailByte(h, rest[0]), rest[1..])
    else h
  }

  /** The length as it enters the hash: 32 bits of it in XXH32, 64 bits in XXH64. */
  function Length(a: Algorithm, n: nat): nat {
    if a.word == 4 then n % U32_SIZE else n % U64_SIZE
  }

  function Finish(a: Algorithm, h: nat, n: nat, rest: seq<byte>): nat
    requires Known(a)
  {
    a.avalanche(Tail(a, a.addLength(h, Length(a, n)), rest))
  }

  /** The lanes of the whole stripes, converged. */
  function Converged(a: Algorithm, data: seq<byte>, seed: nat): nat
    requires Known(a)
  {
    if |data| >= Stripe(a) then
      a.converge(Fold(Stripes(a), Begin(a, seed), data[..|data| - Left(Stripes(a), |data|)]))
    else a.short(seed)
  }

  /** The hash of `data`: all whole stripes, then the length, then the rest. */
  function Hash(a: Algorithm, data: seq<byte>, seed: nat): nat
    requires Known(a)
  {
    Finish(a, Converged(a, data, seed), |data|, data[|data| - Left(Stripes(a), |data|)..])
  }

  // ---------------------------------------------------------------- loops that both forms share

  /** The loops over the bytes behind the last stripe. */
  method TailLoops(a: Algorithm, h0: nat, rest: seq<byte>) returns (h: nat)
    requires Known(a)
    ensures h == Tail(a, h0, rest)
  {
    h := h0;
    var p := 0;
    while p + a.word <= |rest|
      invariant 0 <= p <= |rest| && Tail(a, h, rest[p..]) == Tail(a, h0, rest)
    {
      assert rest[p..][..a.word] == rest[p..p + a.word] && rest[p..][a.word..] == rest[p + a.word..];
      h := a.tailWord(h, rest[p..p + a.word]);
      p := p + a.word;
    }
    if a.word == 8 && p + 4 <= |rest| {
      assert rest[p..][..4] == rest[p..p + 4] && rest[p..][4..] == rest[p + 4..];
      h := a.tailHalf(h, rest[p..p + 4]);
      p := p + 4;
    }
    while p < |rest|
      invariant 0 <= p <= |rest| && |rest| - p < 4 && Tail(a, h, rest[p..]) == Tail(a, h0, rest)
    {
      assert rest[p..][0] == rest[p] && rest[p..][1..] == rest[p + 1..];
      h := a.tailByte(h, rest[p]);
      p := p + 1;
    }
  }

  method StripeLoop(a: Algorithm, data: seq<byte>, seed: nat) returns (h: nat, p: nat)
    requires Known(a)
    ensures p == |data| - Left(Stripes(a), |data|) && h == Converged(a, data, seed)
  {
    p := 0;
    if |data| >= Stripe(a) {
      var v;
      v, p := BlockLoop(Stripes(a), Begin(a, seed), data, 0, [], 0, Begin(a, seed));
      assert [] + data[..p] == data[..p];
      CutIs(Stripes(a), |data|, p);
      assert data[..|data| - Left(Stripes(a), |data|)] == data[..p];
      h := a.converge(v);
    } else {
      h := a.short(seed);
    }
  }

  /** XXH32_endian_align and XXH64_endian_align */
  method OneShot(a: Algorithm, data: seq<byte>, seed: nat) returns (h: nat)
    requires Known(a)
    ensures h == Hash(a, data, seed)
  {
    var p;
    h, p := StripeLoop(a, data, seed);
    h := a.addLength(h, Length(a, |data|));
    h := TailLoops(a, h, data[p..]);
    h := a.avalanche(h);
  }

  // ---------------------------------------------------------------- the incremental form

  /** The hash of what has been fed. */
  lemma HoldsIsHash(a: Algorithm, seed: nat, fed: seq<byte>, v: Lanes, mem: seq<byte>)
    requires Known(a) && Holds(Stripes(a), Begin(a, seed), fed, v, mem)
    ensures Hash(a, fed, seed)
            == Finish(a, if |fed| >= Stripe(a) then a.converge(v) else a.short(seed), |fed|, mem)
    ensures |fed| < Stripe(a) ==> v.v3 == seed
  {
  }

  /** The lanes behind what the buffer held and the first `p` bytes of the input, `p` being 0 or as
      many as fill the buffer. */
  method UseBuffer(a: Algorithm, v0: Lanes, mem: array<byte>, memsize: nat, input: seq<byte>, ghost start: Lanes,
                   ghost whole: seq<byte>)
    returns (v: Lanes, p: nat)
    requires Known(a) && mem.Length == Stripe(a) && memsize < mem.Length <= memsize + |input|
    requires v0 == Fold(Stripes(a), start, whole)
    modifies mem
    ensures p <= |input| && memsize + p == (if memsize > 0 then Stripe(a) else 0)
    ensures v == Fold(Stripes(a), start, whole + old(mem[..memsize]) + input[..p])
  {
    ghost var held := mem[..memsize];
    v, p := v0, 0;
    if memsize > 0 {
      p := Stripe(a) - memsize;
      Fill(mem, memsize, input[..p]);
      assert mem[..] == mem[..memsize + p];
      v := a.absorb(v, mem[..]);
      FoldNext(Stripes(a), start, whole, held + input[..p]);
      assert whole + held + input[..p] == whole + (held + input[..p]);
    } else {
      assert whole + held + input[..p] == whole;
    }
  }

  /** The part of an update that both algorithms share. */
  method UpdateLanes(a: Algorithm, v0: Lanes, mem: array<byte>, memsize: nat, input: seq<byte>, ghost seed: nat,
                     ghost fed: seq<byte>)
    returns (v: Lanes, memsize': nat)
    requires Known(a) && mem.Length == Stripe(a) && memsize < mem.Length
    requires Holds(Stripes(a), Begin(a, seed), fed, v0, mem[..memsize])
    modifies mem
    ensures memsize' < mem.Length && Holds(Stripes(a), Begin(a, seed), fed + input, v, mem[..memsize'])
  {
    if memsize + |input| < Stripe(a) {
      FillsBuffer(Stripes(a), Begin(a, seed), fed, v0, mem[..memsize], input);
      Fill(mem, memsize, input);
      return v0, memsize + |input|;
    }
    var p;
    v, p := UpdateStripes(a, v0, mem, memsize, input, seed, fed);
    memsize' := |input| - p;
    Fill(mem, 0, input[p..]);
    assert mem[..memsize'] == input[p..];
  }

  /** An update that fills at least one stripe. */
  method UpdateStripes(a: Algorithm, v0: Lanes, mem: array<byte>, memsize: nat, input: seq<byte>, ghost seed: nat,
                       ghost fed: seq<byte>)
    returns (v: Lanes, p: nat)
    requires Known(a) && mem.Length == Stripe(a) && memsize < mem.Length <= memsize + |input|
    requires Holds(Stripes(a), Begin(a, seed), fed, v0, mem[..memsize])
    modifies mem
    ensures p <= |input| && Holds(Stripes(a), Begin(a, seed), fed + input, v, input[p..])
  {
    ghost var held := mem[..memsize];
    ghost var start, whole := Begin(a, seed), fed[..|fed| - memsize];
    var p0;
    v, p0 := UseBuffer(a, v0, mem, memsize, input, start, whole);
    v, p := BlockLoop(Stripes(a), v, input, p0, whole + held, memsize, start);
    Consumes(Stripes(a), Begin(a, seed), fed, held, input, v, p);
  }

  /** The 32-bit total, and the flag that says that a stripe has been absorbed. */
  ghost predicate Totals32(total: nat, large: bool, n: nat) {
    total == n % U32_SIZE && (large <==> n >= 16)
  }

  /** The flag is set at the moment at which the first stripe is full, before the total can wrap. */
  method AddToTotals32(total0: nat, large0: bool, k: nat, ghost n: nat, ghost sum: nat)
    returns (total: nat, large: bool)
    requires Totals32(total0, large0, n) && sum == n + k
    ensures Totals32(total, large, sum)
  {
    WrappedSum32(n, k);
    total := (total0 + k % U32_SIZE) % U32_SIZE;
    large := large0 || k >= 16 || total >= 16;
    if n < 16 && k < 16 {
      assert sum % U32_SIZE == sum;
    }
  }

  lemma WrappedSum32(n: nat, k: nat)
    ensures (n % U32_SIZE + k % U32_SIZE) % U32_SIZE == (n + k) % U32_SIZE
  {
  }

  ghost predicate Total64(total: nat, n: nat) {
    total == n % U64_SIZE
  }

  method AddToTotal64(total0: nat, k: nat, ghost n: nat, ghost sum: nat) returns (total: nat)
    requires Total64(total0, n) && sum == n + k
    ensures Total64(total, sum)
  {
    total := (total0 + k) % U64_SIZE;
  }

  class XXH32State {
    const a: Algorithm
    var totalLen32: nat
    var largeLen: bool
    var v: Lanes
    const mem: array<byte>
    var memsize: nat
    ghost var seed: nat
    ghost var fed: seq<byte>

    /** The state stands for the bytes fed so far, and `largeLen` says that a stripe has been
        absorbed even when the 32-bit total has wrapped. */
    ghost predicate Valid()
      reads this, mem
    {
      && a.word == 4 && mem.Length == 16 && memsize < 16
      && Totals32(totalLen32, largeLen, |fed|)
      && Holds(Stripes(a), Begin(a, seed), fed, v, mem[..memsize])
    }

    constructor (a: Algorithm, seed: nat)
      requires a.word == 4
      ensures Valid() && fed == [] && this.seed == seed && this.a == a && fresh(mem)
    {
      this.a := a;
      mem := new byte[16](_ => 0);
      totalLen32, largeLen, memsize := 0, false, 0;
      v := Begin(a, seed);
      this.seed, fed := seed, [];
    }

    method Reset(seed: nat)
      requires a.word == 4 && mem.Length == 16
      modifies this
      ensures Valid() && fed == [] && this.seed == seed
    {
      totalLen32, largeLen, memsize := 0, false, 0;
      v := Begin(a, seed);
      this.seed, fed := seed, [];
    }

    method Update(input: seq<byte>)
      requires Valid()
      modifies this, mem
      ensures Valid() && fed == old(fed) + input && seed == old(seed)
    {
      totalLen32, largeLen := AddToTotals32(totalLen32, largeLen, |input|, |fed|, |fed + input|);
      v, memsize := UpdateLanes(a, v, mem, memsize, input, seed, fed);
      fed := fed + input;
    }

    /** The buffer holds as many bytes as the total length leaves over. */
    lemma BufferedBytes()
      requires Valid()
      ensures memsize == |fed| % 16
    {
      Left16(Stripes(a), |fed|);
    }

    /** Hashing in pieces gives the hash of the whole. */
    method Digest() returns (h: nat)
      requires Valid()
      ensures h == Hash(a, fed, seed)
    {
      HoldsIsHash(a, seed, fed, v, mem[..memsize]);
      h := if largeLen then a.converge(v) else a.short(v.v3);
      h := a.addLength(h, totalLen32);
      h := TailLoops(a, h, mem[..memsize]);
      h := a.avalanche(h);
    }
  }

  class XXH64State {
    const a: Algorithm
    var totalLen: nat
    var v: Lanes
    const mem: array<byte>
    var memsize: nat
    ghost var seed: nat
    ghost var fed: seq<byte>

    ghost predicate Valid()
      reads this, mem
    {
      && a.word == 8 && mem.Length == 32 && memsize < 32
      && Total64(totalLen, |fed|)
      && Holds(Stripes(a), Begin(a, seed), fed, v, mem[..memsize])
    }

    constructor (a: Algorithm, seed: nat)
      requires a.word == 8
      ensures Valid() && fed == [] && this.seed == seed && this.a == a && fresh(mem)
    {
      this.a := a;
      mem := new byte[32](_ => 0);
      totalLen, memsize := 0, 0;
      v := Begin(a, seed);
      this.seed, fed := seed, [];
    }

    method Reset(seed: nat)
      requires a.word == 8 && mem.Length == 32
      modifies this
      ensures Valid() && fed == [] && this.seed == seed
    {
      totalLen, memsize := 0, 0;
      v := Begin(a, seed);
      this.seed, fed := seed, [];
    }

    method Update(input: seq<byte>)
      requires Valid()
      modifies this, mem
      ensures Valid() && fed == old(fed) + input && seed == old(seed)
    {
      v, memsize := UpdateLanes(a, v, mem, memsize, input, seed, fed);
      totalLen := AddToTotal64(totalLen, |input|, |fed|, |fed + input|);
      fed := fed + input;
    }

    lemma BufferedBytes()
      requires Valid()
      ensures memsize == |fed| % 32
    {
      Left32(Stripes(a), |fed|);
    }

    /** Hashing in pieces gives the hash of the whole, for every length that one call can hash. A
        64-bit total that has wrapped to less than 32 would be taken for a short input. */
    method Digest() returns (h: nat)
      requires Valid()
      ensures |fed| < U64_SIZE || |fed| % U64_SIZE >= 32 ==> h == Hash(a, fed, seed)
      ensures |fed| >= U64_SIZE && |fed| % U64_SIZE < 32 ==> h == Finish(a, a.short(v.v3), |fed|, mem[..memsize])
    {
      HoldsIsHash(a, seed, fed, v, mem[..memsize]);
      h := if totalLen >= 32 then a.converge(v) else a.short(v.v3);
      h := a.addLength(h, totalLen);
      h := TailLoops(a, h, mem[..memsize]);
      h := a.avalanche(h);
    }
  }

  /** Any number of updates, one after the other. */
  method UpdateAll32(state: XXH32State, chunks: seq<seq<byte>>)
    requires state.Valid() && state.fed == []
    modifies state, state.mem
    ensures state.Valid() && state.fed == Concat(chunks) && state.seed == old(state.seed)
    decreases |chunks|
  {
    if chunks != [] {
      UpdateAll32(state, chunks[..|chunks| - 1]);
      state.Update(chunks[|chunks| - 1]);
    }
  }

  method UpdateAll64(state: XXH64State, chunks: seq<seq<byte>>)
    requires state.Valid() && state.fed == []
    modifies state, state.mem
    ensures state.Valid() && state.fed == Concat(chunks) && state.seed == old(state.seed)
    decreases |chunks|
  {
    if chunks != [] {
      UpdateAll64(state, chunks[..|chunks| - 1]);
      state.Update(chunks[|chunks| - 1]);
    }
  }

  /** XXH32 of any split of any input, on a state that has been used before. */
  method Hash32InPieces(state: XXH32State, chunks: seq<seq<byte>>, seed: nat) returns (streamed: nat, direct: nat)
    requires state.a.word == 4 && state.mem.Length == 16
    modifies state, state.mem
    ensures streamed == direct == Hash(state.a, Concat(chunks), seed)
  {
    state.Reset(seed);
    UpdateAll32(state, chunks);
    streamed := state.Digest();
    direct := OneShot(state.a, Concat(chunks), seed);
  }

  /** XXH64 of any split of any input. */
  method Hash64InPieces(state: XXH64State, chunks: seq<seq<byte>>, seed: nat) returns (streamed: nat, direct: nat)
    requires state.a.word == 8 && state.mem.Length == 32 && |Concat(chunks)| < U64_SIZE
    modifies state, state.mem
    ensures streamed == direct == Hash(state.a, Concat(chunks), seed)
  {
    state.Reset(seed);
    UpdateAll64(state, chunks);
    streamed := state.Digest();
    direct := OneShot(state.a, Concat(chunks), seed);
  }
}
