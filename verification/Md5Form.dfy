/** What the definition of MD5 comes to in bytes. */
module Md5Form {
  import opened Bytes
  import opened Blocks
  import opened Digests = Md5

  /** The message, one bit, zeros, and the length in bits modulo 2^64: its low word and its high word,
      each with its lowest byte first. */
  function Filled(message: seq<byte>, zeros: nat): seq<byte> {
    var bits := 8 * |message| % 0x1_0000_0000_0000_0000;
    var low, high := bits % 0x1_0000_0000, bits / 0x1_0000_0000;
    message + [0x80] + seq(zeros, _ => 0)
    + [low % 256, low / 0x100 % 256, low / 0x1_0000 % 256, low / 0x100_0000 % 256]
    + [high % 256, high / 0x100 % 256, high / 0x1_0000 % 256, high / 0x100_0000 % 256]
  }

  lemma {:induction false} LengthInBytes(bits: nat)
    ensures var low, high := bits % 0x1_0000_0000, bits / 0x1_0000_0000;
            Store(bits, 8) ==
            [low % 256, low / 0x100 % 256, low / 0x1_0000 % 256, low / 0x100_0000 % 256]
            + [high % 256, high / 0x100 % 256, high / 0x1_0000 % 256, high / 0x100_0000 % 256]
  {
    StoreEight(bits);
    StoreFour(bits % 0x1_0000_0000);
    StoreFour(bits / 0x1_0000_0000);
  }

  /** The digest starts with the lowest byte of the first word. */
  lemma OutputInBytes(w: Words)
    ensures Output(w) ==
            [w.a % 256, w.a / 0x100 % 256, w.a / 0x1_0000 % 256, w.a / 0x100_0000 % 256,
             w.b % 256, w.b / 0x100 % 256, w.b / 0x1_0000 % 256, w.b / 0x100_0000 % 256,
             w.c % 256, w.c / 0x100 % 256, w.c / 0x1_0000 % 256, w.c / 0x100_0000 % 256,
             w.d % 256, w.d / 0x100 % 256, w.d / 0x1_0000 % 256, w.d / 0x100_0000 % 256]
  {
    StoreFour(w.a);
    StoreFour(w.b);
    StoreFour(w.c);
    StoreFour(w.d);
  }

  /** The digest of a message: its blocks, filled up in this way, are taken in in order. */
  lemma {:induction false} DigestOfBlocks(process: Process, message: seq<byte>, zeros: nat, blocks: seq<seq<byte>>)
    requires zeros < 64 && AllOfSize(blocks, 64) && Concat(blocks) == Filled(message, zeros)
    ensures Md5(process, message) ==
            Output(FoldPieces(process, Words(0x67452301, 0xefcdab89, 0x98badcfe, 0x10325476), blocks))
  {
    FoldOfPieces(Folding(process), START, blocks);
    WholeBlocks(process, blocks);
    PaddedIsFilled(message, zeros);
  }

  lemma {:induction false} WholeBlocks(process: Process, blocks: seq<seq<byte>>)
    requires AllOfSize(blocks, 64)
    ensures |Concat(blocks)| % 64 == 0
  {
    FoldOfPieces(Folding(process), START, blocks);
    Left64(Folding(process), |Concat(blocks)|);
  }

  lemma PaddedIsFilled(message: seq<byte>, zeros: nat)
    requires zeros < 64 && |Filled(message, zeros)| % 64 == 0
    ensures Padded(message) == Filled(message, zeros)
  {
    ZerosAre(|message|, zeros);
    LengthInBytes(8 * |message| % U64_SIZE);
  }

  lemma ZerosAre(n: nat, zeros: nat)
    requires zeros < 64 && (n + 1 + zeros + 8) % 64 == 0
    ensures Padding(n) == [0x80] + seq(zeros, _ => 0)
  {
    assert (55 - n) % 64 == zeros;
  }

  /** A message of at most 55 bytes, written out. */
  lemma DigestOfShort(process: Process, message: seq<byte>)
    requires |message| <= 55
    ensures Md5(process, message) ==
            Output(process(Words(0x67452301, 0xefcdab89, 0x98badcfe, 0x10325476), Filled(message, 55 - |message|)))
  {
    var block := Filled(message, 55 - |message|);
    FoldOfOne(process, START, block);
    DigestOfBlocks(process, message, 55 - |message|, [block]);
  }
}
