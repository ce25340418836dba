/** MD5 as RFC 1321 defines it, and the incremental form: a bit count in two 32-bit words, a buffer
    for the bytes that do not fill a block, and the padding at the end. The function that takes in
    a block is a parameter. */
module Md5 {
  import opened Bytes
  import opened Blocks

  const U29_SIZE := 0x2000_0000
  const U32_SIZE := 0x1_0000_0000
  const U64_SIZE := 0x1_0000_0000_0000_0000
  const INT_MAX := 0x7FFF_FFFF

  datatype Words = Words(a: nat, b: nat, c: nat, d: nat)

  const START := Words(0x67452301, 0xefcdab89, 0x98badcfe, 0x10325476)

  type Process = (Words, seq<byte>) -> Words

  function Folding(process: Process): Folder<Words> {
    Folder(64, process)
  }

  // ---------------------------------------------------------------- the definition

  /** Section 3.1: one bit, and zeros until the length is 56 modulo 64. */
  function Padding(n: nat): (p: seq<byte>)
    ensures 1 <= |p| <= 64 && (n + |p|) % 64 == 56
  {
    [0x80] + Zeros((55 - n) % 64)
  }

  function Zeros(n: nat): (z: seq<byte>)
    ensures |z| == n
  {
    seq(n, _ => 0)
  }

  /** Sections 3.1 and 3.2: the message, the padding, and the length in bits modulo 2^64. */
  function Padded(message: seq<byte>): seq<byte> {
    message + Padding(|message|) + Store(8 * |message| % U64_SIZE, 8)
  }

  function Output(w: Words): seq<byte> {
    Store(w.a, 4) + Store(w.b, 4) + Store(w.c, 4) + Store(w.d, 4)
  }

  function Md5(process: Process, message: seq<byte>): seq<byte> {
    Output(Fold(Folding(process), START, Padded(message)))
  }

  // ---------------------------------------------------------------- the bit count

  /** The two words are the length in bits, up to multiples of 2^64. */
  ghost predicate Counts(count0: nat, count1: nat, wraps: nat, n: nat) {
    count0 < U32_SIZE && count1 < U32_SIZE && 8 * n == count0 + U32_SIZE * count1 + U64_SIZE * wraps
  }

  lemma CountsModulo(count0: nat, count1: nat, wraps: nat, n: nat)
    requires Counts(count0, count1, wraps, n)
    ensures 8 * n % U64_SIZE == count0 + U32_SIZE * count1
  {
  }

  /** The number of buffered bytes, from the low word alone. */
  lemma {:induction false} Offset(process: Process, count0: nat, count1: nat, wraps: nat, n: nat)
    requires Counts(count0, count1, wraps, n)
    ensures count0 / 8 % 64 == n % 64 == Left(Folding(process), n)
  {
    Left64(Folding(process), n);
    var k := count1 + U32_SIZE * wraps;
    LowWord(count0, k, n);
    Modulo64(n, -0x80_0000 * k);
  }

  /** The update of the count, across both carries. */
  method AddLength(count0: nat, count1: nat, nbytes: nat, ghost wraps: nat, ghost n: nat)
    returns (count0': nat, count1': nat, ghost wraps': nat)
    requires Counts(count0, count1, wraps, n) && nbytes <= INT_MAX
    ensures Counts(count0', count1', wraps', n + nbytes)
  {
    var nbits := nbytes * 8 % U32_SIZE;
    count1' := (count1 + nbytes / U29_SIZE) % U32_SIZE;
    count0' := (count0 + nbits) % U32_SIZE;
    ghost var carry0 := (count0 + nbits) / U32_SIZE;
    ghost var carry1 := (count1 + nbytes / U29_SIZE) / U32_SIZE;
    if count0' < nbits {
      carry1 := carry1 + (count1' + 1) / U32_SIZE;
      count1' := (count1' + 1) % U32_SIZE;
    }
    wraps' := wraps + carry1;
    assert nbytes * 8 == nbits + U32_SIZE * (nbytes / U29_SIZE);
    assert carry0 == if count0' < nbits then 1 else 0;
  }

  class Md5State {
    const process: Process
    var count0: nat
    var count1: nat
    var abcd: Words
    const buf: array<byte>
    ghost var fed: seq<byte>
    ghost var wraps: nat

    ghost predicate Valid()
      reads this, buf
    {
      && buf.Length == 64 && Counts(count0, count1, wraps, |fed|)
      && Holds(Folding(process), START, fed, abcd, buf[..Left(Folding(process), |fed|)])
    }

    /** md5_init */
    constructor (process: Process)
      ensures Valid() && fed == [] && this.process == process && fresh(buf)
    {
      this.process := process;
      buf := new byte[64](_ => 0);
      count0, count1, abcd := 0, 0, START;
      fed, wraps := [], 0;
    }

    /** md5_append. The sum of what is buffered and the length has to fit an int. */
    method Append(data: seq<byte>)
      requires Valid() && |fed| % 64 + |data| <= INT_MAX
      modifies this, buf
      ensures Valid() && fed == old(fed) + data
    {
      var nbytes := |data|;
      var offset := count0 / 8 % 64;
      Offset(process, count0, count1, wraps, |fed|);
      if nbytes <= 0 {
        assert fed + data == fed;
        return;
      }
      count0, count1, wraps := AddLength(count0, count1, nbytes, wraps, |fed|);
      abcd := AppendBlocks(process, abcd, buf, offset, data, fed);
      fed := fed + data;
    }
  }

  /** The part of md5_append behind the update of the length. */
  method AppendBlocks(process: Process, v0: Words, buf: array<byte>, offset: nat, data: seq<byte>,
                      ghost fed: seq<byte>)
    returns (v: Words)
    requires buf.Length == 64 && offset < 64 && Holds(Folding(process), START, fed, v0, buf[..offset])
    modifies buf
    ensures Holds(Folding(process), START, fed + data, v, buf[..Left(Folding(process), |fed + data|)])
  {
    ghost var held, whole := buf[..offset], fed[..|fed| - offset];
    var p: nat := 0;
    v := v0;
    if offset > 0 {
      var copy := if offset + |data| > 64 then 64 - offset else |data|;
      Fill(buf, offset, data[..copy]);
      if offset + copy < 64 {
        assert data[..copy] == data;
        FillsBuffer(Folding(process), START, fed, v0, held, data);
        return;
      }
      p := copy;
      v := process(v, buf[..]);
      BufferIsBlock(process, v0, whole, held, data, p, buf[..]);
    } else {
      assert whole + held + data[..p] == whole;
    }
    v, p := BlockLoop(Folding(process), v, data, p, whole + held, offset, START);
    Consumes(Folding(process), START, fed, held, data, v, p);
    if p < |data| {
      Fill(buf, 0, data[p..]);
    }
    assert buf[..|data| - p] == data[p..];
  }

  /** The buffer, filled up, is the next block. */
  lemma {:induction false} BufferIsBlock(process: Process, v: Words, whole: seq<byte>, held: seq<byte>, data: seq<byte>,
                                         p: nat, buf: seq<byte>)
    requires v == Fold(Folding(process), START, whole) && p <= |data| && buf == held + data[..p] && |buf| == 64
    ensures process(v, buf) == Fold(Folding(process), START, whole + held + data[..p])
  {
    FoldNext(Folding(process), START, whole, buf);
    assert whole + held + data[..p] == whole + buf;
  }

  /** The first bytes of the constant `pad`, and as many of them as md5_finish takes. */
  method PaddingBytes(count0: nat, ghost count1: nat, ghost wraps: nat, ghost n: nat) returns (p: seq<byte>)
    requires Counts(count0, count1, wraps, n)
    ensures p == Padding(n)
  {
    var pad := [0x80] + seq(63, _ => 0);
    p := pad[..(55 - count0 / 8) % U32_SIZE % 64 + 1];
    PaddingLength(count0, count1, wraps, n);
  }

  lemma {:induction false} PaddingLength(count0: nat, count1: nat, wraps: nat, n: nat)
    requires Counts(count0, count1, wraps, n)
    ensures (55 - count0 / 8) % U32_SIZE % 64 == (55 - n) % 64
  {
    var k := count1 + U32_SIZE * wraps;
    LowWord(count0, k, n);
    var x := 55 - count0 / 8;
    var q := x / U32_SIZE;
    assert x % U32_SIZE == x + 64 * (-0x400_0000 * q);
    Modulo64(x, -0x400_0000 * q);
    Modulo64(55 - n, 0x80_0000 * k);
  }

  lemma Modulo64(x: int, k: int)
    ensures (x + 64 * k) % 64 == x % 64
  {
  }

  /** Eight times a number, modulo 2^32. */
  lemma {:induction false} LowWord(count0: nat, k: nat, n: nat)
    requires 8 * n == count0 + U32_SIZE * k
    ensures count0 / 8 == n - 64 * (0x80_0000 * k)
  {
    assert count0 == 8 * (n - U29_SIZE * k);
  }

  /** md5_finish */
  method Finish(state: Md5State) returns (digest: seq<byte>)
    requires state.Valid()
    modifies state, state.buf
    ensures digest == Md5(state.process, old(state.fed))
  {
    ghost var message := state.fed;
    var data := Store(state.count0, 4) + Store(state.count1, 4);
    LengthBytes(state.count0, state.count1, state.wraps, |message|);
    var pad := PaddingBytes(state.count0, state.count1, state.wraps, |message|);
    state.Append(pad);
    state.Append(data);
    assert state.fed == Padded(message);
    NothingLeft(state, message);
    digest := Output(state.abcd);
  }

  /** Behind the padding and the length nothing is left in the buffer. */
  lemma NothingLeft(state: Md5State, message: seq<byte>)
    requires state.Valid() && state.fed == Padded(message)
    ensures state.abcd == Fold(Folding(state.process), START, Padded(message))
  {
    PaddedIsWhole(state.process, message);
    assert state.fed[..|state.fed|] == state.fed;
  }

  lemma {:induction false} LengthBytes(count0: nat, count1: nat, wraps: nat, n: nat)
    requires Counts(count0, count1, wraps, n)
    ensures Store(count0, 4) + Store(count1, 4) == Store(8 * n % U64_SIZE, 8)
  {
    CountsModulo(count0, count1, wraps, n);
    assert Power256(4) == U32_SIZE by {
      assert Power256(2) == 65536;
    }
    StoreSplit(count0, count1, 4, 4);
  }

  lemma PaddedIsWhole(process: Process, message: seq<byte>)
    ensures Left(Folding(process), |Padded(message)|) == 0
  {
    Left64(Folding(process), |Padded(message)|);
    var n := |message| + |Padding(|message|)|;
    assert |Padded(message)| == n + 8 && n % 64 == 56;
    Modulo64(0, (n + 8) / 64);
  }

  /** Pieces whose length fits an int together with what is buffered when they come. */
  predicate EachFitsInt(chunks: seq<seq<byte>>) {
    chunks != [] ==>
      var front, last := chunks[..|chunks| - 1], chunks[|chunks| - 1];
      |Concat(front)| % 64 + |last| <= INT_MAX && EachFitsInt(front)
  }

  method AppendAll(state: Md5State, chunks: seq<seq<byte>>)
    requires state.Valid() && state.fed == [] && EachFitsInt(chunks)
    modifies state, state.buf
    ensures state.Valid() && state.fed == Concat(chunks)
    decreases |chunks|
  {
    if chunks != [] {
      AppendAll(state, chunks[..|chunks| - 1]);
      state.Append(chunks[|chunks| - 1]);
    }
  }

  /** MD5 of a message does not depend on how it is cut into pieces. */
  method DigestOfPieces(process: Process, chunks: seq<seq<byte>>) returns (digest: seq<byte>)
    requires EachFitsInt(chunks)
    ensures digest == Md5(process, Concat(chunks))
  {
    var state := new Md5State(process);
    AppendAll(state, chunks);
    digest := Finish(state);
  }
}
