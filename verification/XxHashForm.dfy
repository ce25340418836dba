/** What the definition of the hash comes to, piece by piece: the stripes in order, the length, and of
    the bytes behind them the words, at most one half word, and at most three single bytes. */
module XxHashForm {
  import opened Bytes
  import opened Blocks
  import opened XxHash

  // ---------------------------------------------------------------- the bytes behind the last stripe

  function FoldBytes(a: Algorithm, h: nat, bytes: seq<byte>): nat
    decreases |bytes|
  {
    if bytes == [] then h else FoldBytes(a, a.tailByte(h, bytes[0]), bytes[1..])
  }

  /** A word in front. */
  lemma {:induction false} TailOfWord(a: Algorithm, h: nat, word: seq<byte>, rest: seq<byte>)
    requires Known(a) && |word| == a.word
    ensures Tail(a, h, word + rest) == Tail(a, a.tailWord(h, word), rest)
  {
    assert (word + rest)[..a.word] == word && (word + rest)[a.word..] == rest;
  }

  /** At most three bytes. */
  lemma {:induction false} TailOfBytes(a: Algorithm, h: nat, bytes: seq<byte>)
    requires Known(a) && |bytes| < 4
    ensures Tail(a, h, bytes) == FoldBytes(a, h, bytes)
    decreases |bytes|
  {
    if bytes != [] {
      TailOfBytes(a, a.tailByte(h, bytes[0]), bytes[1..]);
    }
  }

  lemma {:induction false} TailOfWords(a: Algorithm, h: nat, words: seq<seq<byte>>, rest: seq<byte>)
    requires Known(a) && AllOfSize(words, a.word)
    ensures Tail(a, h, Concat(words) + rest) == Tail(a, FoldPieces(a.tailWord, h, words), rest)
    decreases |words|
  {
    if words == [] {
      assert Concat(words) + rest == rest;
    } else {
      var front, last := words[..|words| - 1], words[|words| - 1];
      assert Concat(words) + rest == Concat(front) + (last + rest);
      TailOfWords(a, h, front, last + rest);
      TailOfWord(a, FoldPieces(a.tailWord, h, front), last, rest);
    }
  }

  /** XXH64: words of eight bytes, then four bytes at once if there are as many, then single bytes. */
  lemma {:induction false} Tail64(a: Algorithm, h: nat, words: seq<seq<byte>>, half: seq<byte>, bytes: seq<byte>)
    requires a.word == 8 && AllOfSize(words, 8) && (|half| == 0 || |half| == 4) && |bytes| < 4
    ensures var h' := FoldPieces(a.tailWord, h, words);
            Tail(a, h, Concat(words) + half + bytes) ==
            FoldBytes(a, if half == [] then h' else a.tailHalf(h', half), bytes)
  {
    var h' := FoldPieces(a.tailWord, h, words);
    assert Concat(words) + half + bytes == Concat(words) + (half + bytes);
    TailOfWords(a, h, words, half + bytes);
    if half == [] {
      assert half + bytes == bytes;
      TailOfBytes(a, h', bytes);
    } else {
      assert (half + bytes)[..4] == half && (half + bytes)[4..] == bytes;
      TailOfBytes(a, a.tailHalf(h', half), bytes);
    }
  }

  /** XXH32: words of four bytes, then single bytes. */
  lemma {:induction false} Tail32(a: Algorithm, h: nat, words: seq<seq<byte>>, bytes: seq<byte>)
    requires a.word == 4 && AllOfSize(words, 4) && |bytes| < 4
    ensures Tail(a, h, Concat(words) + bytes) == FoldBytes(a, FoldPieces(a.tailWord, h, words), bytes)
  {
    TailOfWords(a, h, words, bytes);
    TailOfBytes(a, FoldPieces(a.tailWord, h, words), bytes);
  }

  /** The folds written out: fifteen bytes behind the stripes of XXH64, and seven behind those of XXH32. */
  lemma {:induction false} TailsWrittenOut(a: Algorithm, h: nat, word: seq<byte>, half: seq<byte>, x: byte, y: byte,
                                           z: byte)
    requires Known(a) && |word| == a.word && |half| == 4
    ensures a.word == 8 ==> Tail(a, h, word + half + [x, y, z]) ==
                            a.tailByte(a.tailByte(a.tailByte(a.tailHalf(a.tailWord(h, word), half), x), y), z)
    ensures a.word == 4 ==> Tail(a, h, word + [x, y, z]) ==
                            a.tailByte(a.tailByte(a.tailByte(a.tailWord(h, word), x), y), z)
  {
    BytesWrittenOut(a, a.tailHalf(a.tailWord(h, word), half), x, y, z);
    BytesWrittenOut(a, a.tailWord(h, word), x, y, z);
    FoldOfOne(a.tailWord, h, word);
    if a.word == 8 {
      Tail64(a, h, [word], half, [x, y, z]);
    } else {
      Tail32(a, h, [word], [x, y, z]);
    }
  }

  lemma {:induction false} BytesWrittenOut(a: Algorithm, h: nat, x: byte, y: byte, z: byte)
    ensures FoldBytes(a, h, [x, y, z]) == a.tailByte(a.tailByte(a.tailByte(h, x), y), z)
  {
    assert [x, y, z][1..] == [y, z] && [y, z][1..] == [z] && [z][1..] == [];
    assert FoldBytes(a, h, [x, y, z]) == FoldBytes(a, a.tailByte(h, x), [y, z]);
    assert FoldBytes(a, a.tailByte(h, x), [y, z]) == FoldBytes(a, a.tailByte(a.tailByte(h, x), y), [z]);
  }

  // ---------------------------------------------------------------- the whole hash

  /** An input that does not fill a stripe. */
  lemma {:induction false} HashOfShort(a: Algorithm, data: seq<byte>, seed: nat)
    requires Known(a) && |data| < 4 * a.word
    ensures Hash(a, data, seed) == a.avalanche(Tail(a, a.addLength(a.short(seed), |data|), data))
  {
    assert data[0..] == data;
  }

  lemma LengthOfStripes(a: Algorithm, stripes: seq<seq<byte>>, k: nat)
    requires Known(a) && AllOfSize(stripes, 4 * a.word) && k < 4 * a.word
    ensures Left(Stripes(a), |Concat(stripes)| + k) == k
  {
    FoldOfPieces(Stripes(a), Begin(a, 0), stripes);
    LeftSum(Stripes(a), |Concat(stripes)|, k, |Concat(stripes)| + k);
  }

  /** An input of at least one stripe: the lanes start from the seed, the third with the seed itself,
      take in the stripes in order, and converge; then come the length and the rest. */
  lemma {:induction false} HashOfStripes(a: Algorithm, stripes: seq<seq<byte>>, rest: seq<byte>, seed: nat)
    requires Known(a) && stripes != [] && AllOfSize(stripes, 4 * a.word) && |rest| < 4 * a.word
    ensures var n := |Concat(stripes) + rest|;
            var v := FoldPieces(a.absorb, Lanes(a.first(seed), a.second(seed), seed, a.fourth(seed)), stripes);
            Hash(a, Concat(stripes) + rest, seed) ==
            a.avalanche(Tail(a, a.addLength(a.converge(v), n % if a.word == 4 then 0x1_0000_0000 else
                                                               0x1_0000_0000_0000_0000), rest))
  {
    var whole := Concat(stripes);
    var data := whole + rest;
    LengthOfStripes(a, stripes, |rest|);
    assert |whole| >= |stripes[|stripes| - 1]|;
    assert data[..|whole|] == whole && data[|whole|..] == rest;
    FoldOfPieces(Stripes(a), Begin(a, seed), stripes);
  }

  /** One stripe and nothing else, written out. */
  lemma HashOfOneStripe(a: Algorithm, stripe: seq<byte>, seed: nat)
    requires Known(a) && |stripe| == 4 * a.word
    ensures var v := a.absorb(Lanes(a.first(seed), a.second(seed), seed, a.fourth(seed)), stripe);
            Hash(a, stripe, seed) == a.avalanche(a.addLength(a.converge(v), 4 * a.word))
  {
    HashOfStripes(a, [stripe], [], seed);
    FoldOfOne(a.absorb, Lanes(a.first(seed), a.second(seed), seed, a.fourth(seed)), stripe);
    assert Concat([stripe]) + [] == stripe;
  }
}
