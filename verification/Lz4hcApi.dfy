/** The entry points of the high-compression encoder: the compression levels, and what they
    promise together with the decoder for any history of one state. */
module Lz4hcApi {
  import opened Lz4Format
  import opened Lz4Emit
  import opened Lz4hcIndex
  import opened Lz4hcMatch
  import opened Lz4hcSearch
  import opened Lz4hcEncode
  import Parser = Lz4hcParser
  import Optimal = Lz4hcOptimal
  import Fast = Lz4Fast
  import Api = Lz4Api
  import Lz4Decompress

  const CLEVEL_DEFAULT := 9
  const CLEVEL_OPT_MIN := 10
  const CLEVEL_MAX := 12

  function Level(cLevel: int): nat {
    if cLevel < 1 then CLEVEL_DEFAULT else if cLevel > CLEVEL_MAX then CLEVEL_MAX else cLevel
  }

  /** The number of searches of a level. */
  function Searches(level: nat): nat {
    if level <= 2 then 2
    else if level == 3 then 4
    else if level == 4 then 8
    else if level == 5 then 16
    else if level == 6 then 32
    else if level == 7 then 64
    else if level == 8 then 128
    else if level == 9 then 256
    else if level == 10 then 96
    else if level == 11 then 512
    else 16384
  }

  /** The length that the optimal parser takes without looking any further. */
  function TargetLength(level: nat): nat {
    if level <= 10 then 64 else if level == 11 then 128 else Optimal.OPT_NUM
  }

  /** What is left of the input when the parser of a level ends, from `from` on: no match that its searches
      find. */
  ghost predicate NoneLeft(j: Input, job: Job, level: nat, favor: bool, w: Parser.Written, from: nat) {
    if level < CLEVEL_OPT_MIN then
      from == w.anchor && Parser.Quiet(Parser.Parse(j, job, Searches(level)), from, |j.src|)
    else Optimal.Over(j, Effort(Searches(level), true, true, favor), w, from)
  }

  /** One byte over and over, and a level that takes the only match without weighing it. */
  predicate EasyInput(src: seq<byte>, level: nat, favor: bool) {
    && Fast.OneByte(src) && Fast.LZ4_MINLENGTH <= |src| <= MAX_INPUT_SIZE
    && (level < CLEVEL_OPT_MIN || (|src| - 6 > TargetLength(level) && !favor))
  }

  /** The strategy of a level. The last literals begin at `w.anchor`. */
  method RunParser(hc: HcState, dst: array<byte>, j: Input, job: Job, level: nat)
    returns (r: nat, consumed: nat, ghost w: Parser.Written, ghost from: nat)
    requires j.src == job.src && hc.Ready(j) && hc.nextToUpdate == j.base && |j.src| <= MAX_INPUT_SIZE
    requires j.base + |j.src| < U32_SIZE - 4
    requires if job.mode == Fast.NotLimited then CompressBound(|j.src|) <= dst.Length
             else 0 <= RealEnd(job) <= dst.Length
    requires job.mode == Fast.FillOutput ==> RealEnd(job) >= 1
    modifies dst, hc`nextToUpdate, hc.hashTable, hc.chainTable
    ensures hc.Ready(j)
    ensures r > 0 ==> r <= dst.Length && Block(dst[..r], job, consumed)
    ensures r > 0 ==>
              && w.anchor + DecodeBlock(dst[..r]).lastRun == consumed
              && (NoneLeft(j, job, level, hc.favorDecSpeed, w, from)
                  || (job.mode == Fast.FillOutput && Parser.Refused(job, w)))
    ensures r == 0 ==> Parser.GivenUp(dst[..], job, w, NoneLeft(j, job, level, hc.favorDecSpeed, w, from))
    ensures EasyInput(j.src, level, hc.favorDecSpeed) && job.mode != Fast.FillOutput ==>
              (job.mode == Fast.LimitedOutput ==> job.oend >= |j.src| / 255 + 16) ==> 0 < r <= |j.src| / 255 + 16
  {
    var nbSearches := Searches(level);
    if level < CLEVEL_OPT_MIN {
      r, consumed, w := Parser.HashChain(hc, dst, Parser.Parse(j, job, nbSearches));
      from := w.anchor;
    } else {
      var p := Optimal.Plan(j, job, nbSearches, TargetLength(level), level == CLEVEL_MAX, hc.favorDecSpeed);
      r, consumed, w, from := Optimal.Optimal(hc, dst, p);
    }
  }

  function JobOf(src: seq<byte>, mode: Fast.OutputMode, capacity: nat): Job {
    Job(src, mode, if mode == Fast.FillOutput then capacity - LASTLITERALS else capacity)
  }

  /** LZ4HC_compress_generic_internal without a dictionary, for an input whose first byte has the
      index `hc.endOffset`. A result of 0 means that the input is too long, that there is no room for one byte,
      or, with a limited output, that a sequence or the last literals that were reached do not fit. */
  method CompressGeneric(hc: HcState, src: seq<byte>, dst: array<byte>, cLevel: int, mode: Fast.OutputMode, hash: Hash)
    returns (r: nat, consumed: nat, ghost w: Parser.Written, ghost from: nat)
    requires hc.Valid() && MAXD <= hc.endOffset <= GB + MAXD && hc.nextToUpdate == hc.endOffset
    requires hc.endOffset + |src| < U32_SIZE ==> hc.Ready(Input(src, hash, hc.endOffset))
    requires mode == Fast.NotLimited ==> CompressBound(|src|) <= dst.Length
    modifies hc`nextToUpdate, hc`endOffset, hc`dirty, hc.hashTable, hc.chainTable, dst
    ensures hc.Valid()
    ensures r > 0 ==> r <= dst.Length && Finished(dst[..r], src, consumed, mode)
    ensures r > 0 && consumed < |src| ==> r + Fast.Slack(dst.Length) >= dst.Length
    ensures var none := NoneLeft(Input(src, hash, old(hc.endOffset)), JobOf(src, mode, dst.Length), Level(cLevel),
                                 hc.favorDecSpeed, w, from);
            && (r > 0 ==>
                  && w.anchor + DecodeBlock(dst[..r]).lastRun == consumed
                  && (none || (mode == Fast.FillOutput && Parser.Refused(JobOf(src, mode, dst.Length), w))))
            && (r == 0 ==>
                  || |src| > MAX_INPUT_SIZE || (mode == Fast.FillOutput && dst.Length == 0)
                  || Parser.GivenUp(dst[..], JobOf(src, mode, dst.Length), w, none))
    ensures EasyInput(src, Level(cLevel), hc.favorDecSpeed) && mode != Fast.FillOutput ==>
              dst.Length >= |src| / 255 + 16 ==> 0 < r <= |src| / 255 + 16
  {
    w, from := Parser.Written(0, 0), 0;
    if mode == Fast.FillOutput && dst.Length < 1 {
      return 0, 0, w, from;
    }
    if |src| > MAX_INPUT_SIZE {
      return 0, 0, w, from;
    }
    var j := Input(src, hash, hc.endOffset);
    r, consumed, w, from := CompressInput(hc, dst, j, JobOf(src, mode, dst.Length), Level(cLevel));
  }

  /** The parser, and what it leaves of the state for the next input. */
  method CompressInput(hc: HcState, dst: array<byte>, j: Input, job: Job, level: nat)
    returns (r: nat, consumed: nat, ghost w: Parser.Written, ghost from: nat)
    requires hc.Valid() && j.src == job.src && |j.src| <= MAX_INPUT_SIZE
    requires MAXD <= j.base <= GB + MAXD && hc.nextToUpdate == hc.endOffset == j.base && hc.Ready(j)
    requires if job.mode == Fast.NotLimited then CompressBound(|j.src|) <= dst.Length
             else 0 <= RealEnd(job) <= dst.Length
    requires job.mode == Fast.FillOutput ==> RealEnd(job) >= 1
    modifies dst, hc`nextToUpdate, hc`endOffset, hc`dirty, hc.hashTable, hc.chainTable
    ensures hc.Valid()
    ensures r > 0 ==> r <= dst.Length && Block(dst[..r], job, consumed)
    ensures r > 0 ==>
              && w.anchor + DecodeBlock(dst[..r]).lastRun == consumed
              && (NoneLeft(j, job, level, hc.favorDecSpeed, w, from)
                  || (job.mode == Fast.FillOutput && Parser.Refused(job, w)))
    ensures r == 0 ==> Parser.GivenUp(dst[..], job, w, NoneLeft(j, job, level, hc.favorDecSpeed, w, from))
    ensures EasyInput(j.src, level, hc.favorDecSpeed) && job.mode != Fast.FillOutput ==>
              (job.mode == Fast.LimitedOutput ==> job.oend >= |j.src| / 255 + 16) ==> 0 < r <= |j.src| / 255 + 16
    ensures r == 0 ==> hc.dirty
  {
    hc.endOffset := hc.endOffset + |j.src|;
    r, consumed, w, from := RunParser(hc, dst, j, job, level);
    if r == 0 {
      hc.dirty := true;
    }
    hc.IndexedIsBelow(j);
  }

  /** A block that decodes to the consumed part of the input, all of it unless the output is to be
      filled, and that meets the end-of-block restrictions. */
  ghost predicate Finished(b: seq<byte>, src: seq<byte>, consumed: nat, mode: Fast.OutputMode) {
    && consumed <= |src| && (mode != Fast.FillOutput ==> consumed == |src|)
    && |b| <= CompressBound(|src|)
    && (src == [] ==> b == [0])
    && var d := DecodeBlock(b);
       d.Done? && d.out == src[..consumed] && EndRules(d)
  }

  /** LZ4_compress_HC_extStateHC_fastReset */
  method CompressFastReset(hc: HcState, src: seq<byte>, dst: array<byte>, cLevel: int, hash: Hash) returns (r: nat)
    requires hc.Valid()
    modifies hc`nextToUpdate, hc`endOffset, hc`dirty, hc`favorDecSpeed, hc.hashTable, hc.chainTable, dst
    ensures hc.Valid()
    ensures r > 0 ==> r <= dst.Length && Api.Compressed(dst[..r], src)
    ensures |src| <= MAX_INPUT_SIZE && dst.Length >= CompressBound(|src|) ==> r > 0
    ensures EasyInput(src, Level(cLevel), old(hc.favorDecSpeed)) && dst.Length >= |src| / 255 + 16 ==>
              0 < r <= |src| / 255 + 16
  {
    hc.ResetStreamFast();
    var base := hc.InitInternal();
    var mode := if dst.Length < CompressBound(|src|) then Fast.LimitedOutput else Fast.NotLimited;
    var consumed;
    ghost var w, from;
    r, consumed, w, from := CompressGeneric(hc, src, dst, cLevel, mode, hash);
    assert src[..|src|] == src;
  }

  /** LZ4_compress_HC_extStateHC: starts from an initialised state. */
  method CompressExtState(hc: HcState, src: seq<byte>, dst: array<byte>, cLevel: int, hash: Hash) returns (r: nat)
    requires hc.hashTable != hc.chainTable && hc.hashTable.Length == HASHTABLESIZE && hc.chainTable.Length == MAXD
    modifies hc`nextToUpdate, hc`endOffset, hc`dirty, hc`favorDecSpeed, hc.hashTable, hc.chainTable, dst
    ensures hc.Valid()
    ensures r > 0 ==> r <= dst.Length && Api.Compressed(dst[..r], src)
    ensures |src| <= MAX_INPUT_SIZE && dst.Length >= CompressBound(|src|) ==> r > 0
    ensures EasyInput(src, Level(cLevel), false) && dst.Length >= |src| / 255 + 16 ==> 0 < r <= |src| / 255 + 16
  {
    hc.InitStream();
    r := CompressFastReset(hc, src, dst, cLevel, hash);
  }

  /** LZ4_compress_HC_destSize: as much of the input as fits `dst`. */
  method CompressDestSize(hc: HcState, src: seq<byte>, dst: array<byte>, cLevel: int, hash: Hash)
    returns (r: nat, consumed: nat)
    requires hc.hashTable != hc.chainTable && hc.hashTable.Length == HASHTABLESIZE && hc.chainTable.Length == MAXD
    modifies hc`nextToUpdate, hc`endOffset, hc`dirty, hc`favorDecSpeed, hc.hashTable, hc.chainTable, dst
    ensures hc.Valid()
    ensures r > 0 ==> r <= dst.Length && Finished(dst[..r], src, consumed, Fast.FillOutput)
    ensures r > 0 && consumed < |src| ==> r + 1 + (dst.Length + 240) / 65025 >= dst.Length
    ensures dst.Length >= 1 && |src| <= MAX_INPUT_SIZE ==> r > 0
  {
    hc.InitStream();
    var base := hc.InitInternal();
    ghost var w, from;
    r, consumed, w, from := CompressGeneric(hc, src, dst, cLevel, Fast.FillOutput, hash);
  }

  /** `anew` asks for LZ4_compress_HC_extStateHC, which initialises the state first. */
  datatype Request = Request(src: seq<byte>, capacity: nat, cLevel: int, favorDecSpeed: bool, anew: bool, hash: Hash)

  /** A request with the space that LZ4_compressBound asks for. */
  predicate Guaranteed(q: Request) {
    |q.src| <= MAX_INPUT_SIZE && q.capacity >= CompressBound(|q.src|)
  }

  /** A whole life of one state: any number of inputs at any levels, into buffers that may be too
      small. Every block that comes out gives its input back when it is decompressed into a buffer
      of exactly the size of the input. */
  method CompressAll(requests: seq<Request>) returns (blocks: seq<seq<byte>>, restored: seq<seq<byte>>)
    ensures |blocks| == |restored| == |requests|
    ensures forall i :: 0 <= i < |requests| && |blocks[i]| > 0 ==>
              Api.Compressed(blocks[i], requests[i].src) && restored[i] == requests[i].src
    ensures forall i :: 0 <= i < |requests| && Guaranteed(requests[i]) ==> |blocks[i]| > 0
  {
    var hc := new HcState();
    blocks, restored := [], [];
    for i := 0 to |requests|
      invariant hc.Valid() && fresh(hc) && fresh(hc.hashTable) && fresh(hc.chainTable)
      invariant |blocks| == |restored| == i
      invariant forall k :: 0 <= k < i && |blocks[k]| > 0 ==>
                  Api.Compressed(blocks[k], requests[k].src) && restored[k] == requests[k].src
      invariant forall k :: 0 <= k < i && Guaranteed(requests[k]) ==> |blocks[k]| > 0
    {
      var b, out := Serve(hc, requests[i]);
      blocks, restored := blocks + [b], restored + [out];
    }
  }

  /** One request, and the way back. */
  method Serve(hc: HcState, q: Request) returns (b: seq<byte>, out: seq<byte>)
    requires hc.Valid()
    modifies hc`nextToUpdate, hc`endOffset, hc`dirty, hc`favorDecSpeed, hc.hashTable, hc.chainTable
    ensures hc.Valid()
    ensures |b| > 0 ==> Api.Compressed(b, q.src) && out == q.src
    ensures Guaranteed(q) ==> |b| > 0
  {
    hc.FavorDecompressionSpeed(q.favorDecSpeed);
    var dst := new byte[q.capacity];
    var r;
    if q.anew {
      r := CompressExtState(hc, q.src, dst, q.cLevel, q.hash);
    } else {
      r := CompressFastReset(hc, q.src, dst, q.cLevel, q.hash);
    }
    b, out := dst[..r], [];
    if r > 0 {
      var unpacked := new byte[|q.src|];
      var length := Lz4Decompress.DecompressSafe(b, unpacked);
      assert length == |q.src|;
      out := unpacked[..|q.src|];
    }
  }
}
