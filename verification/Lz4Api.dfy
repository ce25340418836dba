/** The entry points of the fast compressor, and what they promise together with the decoder:
    a block decodes to its input, whatever the table held before. */
module Lz4Api {
  import opened Lz4Format
  import opened Lz4Emit
  import opened Lz4Fast
  import Lz4Decompress

  const ACCELERATION_DEFAULT := 1
  const ACCELERATION_MAX := 65537

  function Clamped(acceleration: int): nat {
    if acceleration < 1 then ACCELERATION_DEFAULT
    else if acceleration > ACCELERATION_MAX then ACCELERATION_MAX
    else acceleration
  }

  /** A whole input in a block. */
  ghost predicate Compressed(b: seq<byte>, src: seq<byte>) {
    && |b| <= CompressBound(|src|)
    && (src == [] ==> b == [0])
    && var d := DecodeBlock(b);
       d.Done? && d.out == src && EndRules(d)
  }

  /** The table type that goes with an input size on a 64-bit machine. */
  function TypeFor(n: nat): TableType {
    if n < LZ4_64KLIMIT then ByU16 else ByU32
  }

  /** LZ4_compress_fast_extState: starts from a cleared state. */
  method CompressFastExtState(ctx: FastState, src: seq<byte>, dst: array<byte>, acceleration: int, hash: Hash)
    returns (r: nat)
    requires ctx.hashTable.Length == SLOTS
    modifies ctx, ctx.hashTable, dst
    ensures ctx.Valid() && ctx.hashTable == old(ctx.hashTable)
    ensures r > 0 ==> r <= dst.Length && Compressed(dst[..r], src)
    ensures |src| <= MAX_INPUT_SIZE && dst.Length >= CompressBound(|src|) ==> r > 0
    ensures OneByte(src) && 13 <= |src| <= MAX_INPUT_SIZE && dst.Length >= |src| / 255 + 16 ==>
              0 < r <= |src| / 255 + 16
  {
    ctx.InitStream();
    assert ctx.Cleared();
    r := CompressWith(ctx, src, dst, acceleration, hash, false);
  }

  /** LZ4_compress_fast_extState_fastReset: goes on with the table of the previous calls. */
  method CompressFastReset(ctx: FastState, src: seq<byte>, dst: array<byte>, acceleration: int, hash: Hash)
    returns (r: nat)
    requires ctx.Valid()
    modifies ctx, ctx.hashTable, dst
    ensures ctx.Valid() && ctx.hashTable == old(ctx.hashTable)
    ensures r > 0 ==> r <= dst.Length && Compressed(dst[..r], src)
    ensures |src| <= MAX_INPUT_SIZE && dst.Length >= CompressBound(|src|) ==> r > 0
  {
    ctx.PrepareTable(|src|, TypeFor(|src|));
    r := CompressWith(ctx, src, dst, acceleration, hash, TypeFor(|src|) == ByU16 && ctx.currentOffset > 0);
  }

  /** The choice of directives that both entry points make. */
  method CompressWith(ctx: FastState, src: seq<byte>, dst: array<byte>, acceleration: int, hash: Hash, small: bool)
    returns (r: nat)
    requires ctx.Ready(|src|, TypeFor(|src|), small, NotLimited)
    modifies ctx`currentOffset, ctx`tableType, ctx.hashTable, dst
    ensures ctx.Valid()
    ensures r > 0 ==> r <= dst.Length && Compressed(dst[..r], src)
    ensures |src| <= MAX_INPUT_SIZE && dst.Length >= CompressBound(|src|) ==> r > 0
    ensures old(ctx.Cleared()) && OneByte(src) && 13 <= |src| <= MAX_INPUT_SIZE && dst.Length >= |src| / 255 + 16 ==>
              0 < r <= |src| / 255 + 16
  {
    var n := |src|;
    var mode := if dst.Length >= CompressBound(n) then NotLimited else LimitedOutput;
    var limit := if mode == NotLimited then 0 else dst.Length;
    var j := Job(src, hash, TypeFor(n), ctx.currentOffset, small, mode, limit);
    var size, consumed, _, _, _ := ctx.CompressGeneric(dst, j, Clamped(acceleration));
    r := size;
    assert src[..n] == src;
  }

  /** LZ4_compress_destSize_extState: as much of the input as fits `dst`; if that is not all of it, all but
      one byte in 65025 is used, and one more. */
  method CompressDestSize(ctx: FastState, src: seq<byte>, dst: array<byte>, hash: Hash) returns (r: nat, consumed: nat)
    requires ctx.hashTable.Length == SLOTS
    modifies ctx, ctx.hashTable, dst
    ensures ctx.Valid()
    ensures consumed <= |src| && r <= dst.Length
    ensures r > 0 ==> r <= CompressBound(|src|)
    ensures r > 0 ==> var d := DecodeBlock(dst[..r]); d.Done? && d.out == src[..consumed] && EndRules(d)
    ensures dst.Length >= 1 && |src| <= MAX_INPUT_SIZE ==> r > 0
    ensures r > 0 && consumed < |src| ==> r + 1 + (dst.Length + 240) / 65025 >= dst.Length
  {
    var n := |src|;
    consumed := n;
    if dst.Length >= CompressBound(n) {
      r := CompressFastExtState(ctx, src, dst, 1, hash);
      assert src[..n] == src;
    } else {
      ctx.InitStream();
      var j := Job(src, hash, TypeFor(n), 0, false, FillOutput, dst.Length);
      var size, c, _, _, _ := ctx.CompressGeneric(dst, j, 1);
      r := size;
      consumed := if r > 0 then c else n;
    }
  }

  /** Compressing with the fast compressor and decompressing into a buffer that is at least as
      large as the input gives the input back. */
  method RoundTrip(ctx: FastState, src: seq<byte>, packed: array<byte>, unpacked: array<byte>, acceleration: int,
                   hash: Hash)
    returns (r: nat)
    requires ctx.Valid() && |src| <= unpacked.Length && packed != unpacked
    modifies ctx, ctx.hashTable, packed, unpacked
    ensures ctx.Valid()
    ensures |src| <= MAX_INPUT_SIZE && packed.Length >= CompressBound(|src|) ==> r > 0
    ensures r > 0 ==> unpacked[..|src|] == src
  {
    r := CompressFastReset(ctx, src, packed, acceleration, hash);
    if r > 0 {
      var length := Lz4Decompress.DecompressSafe(packed[..r], unpacked);
      assert length == |src|;
    }
  }

  datatype Request = Request(src: seq<byte>, capacity: nat, acceleration: int, hash: Hash, reset: bool)

  /** A request with the space that LZ4_compressBound asks for. */
  predicate Guaranteed(q: Request) {
    |q.src| <= MAX_INPUT_SIZE && q.capacity >= CompressBound(|q.src|)
  }

  /** A whole life of one state: any number of inputs, of any size, into buffers that may be too
      small, with LZ4_resetStream_fast in between or not. Every block that comes out decodes to
      the input that went in. */
  method CompressAll(requests: seq<Request>) returns (blocks: seq<seq<byte>>)
    ensures |blocks| == |requests|
    ensures forall i :: 0 <= i < |requests| && |blocks[i]| > 0 ==> Compressed(blocks[i], requests[i].src)
    ensures forall i :: 0 <= i < |requests| && Guaranteed(requests[i]) ==> |blocks[i]| > 0
  {
    var ctx := new FastState();
    blocks := [];
    for i := 0 to |requests|
      invariant ctx.Valid() && fresh(ctx) && fresh(ctx.hashTable)
      invariant |blocks| == i
      invariant forall k :: 0 <= k < i && |blocks[k]| > 0 ==> Compressed(blocks[k], requests[k].src)
      invariant forall k :: 0 <= k < i && Guaranteed(requests[k]) ==> |blocks[k]| > 0
    {
      var q := requests[i];
      if q.reset {
        ctx.ResetStreamFast();
      }
      var dst := new byte[q.capacity];
      var r := CompressFastReset(ctx, q.src, dst, q.acceleration, q.hash);
      blocks := blocks + [dst[..r]];
    }
  }
}
