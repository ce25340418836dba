/** The layout of a block in bytes, and the theorem that the reference decoder accepts exactly the
    blocks that are laid out like this, with exactly this meaning. */
module Lz4Layout {
  import opened Lz4Format

  /** Literals, and behind them a match. */
  datatype Sequence = Sequence(literals: seq<byte>, off: nat, len: nat)

  /** The four bits of a token for a length. */
  function Nibble(n: nat): (r: nat)
    ensures r <= 15
  {
    if n < 15 then n else 15
  }

  /** What is left of a length: 255 in every byte but the last. */
  function Extra(n: nat): (b: seq<byte>)
    ensures b != []
  {
    if n < 255 then [n] else [255] + Extra(n - 255)
  }

  /** The bytes of a length that does not fit its four bits. */
  function LengthBytes(n: nat): seq<byte> {
    if n < 15 then [] else Extra(n - 15)
  }

  predicate Possible(s: Sequence) {
    && s.len >= 4 && s.off <= DISTANCE_MAX
    && |s.literals| < 15 + U32_SIZE && s.len - 4 < 15 + U32_SIZE
  }

  /** The token, the length of the literals, the literals, the offset with its low byte first, and the
      length of the match. */
  function SequenceBytes(s: Sequence): seq<byte>
    requires Possible(s)
  {
    [16 * Nibble(|s.literals|) + Nibble(s.len - 4)] + LengthBytes(|s.literals|) + s.literals
    + [s.off % 256, s.off / 256] + LengthBytes(s.len - 4)
  }

  /** The last literals; the low bits of their token mean nothing. */
  function LastBytes(literals: seq<byte>, low: nat): seq<byte>
    requires low < 16
  {
    [16 * Nibble(|literals|) + low] + LengthBytes(|literals|) + literals
  }

  /** A block: sequences, and the last literals. */
  datatype Block = Last(literals: seq<byte>, low: nat) | Next(s: Sequence, rest: Block)

  /** Lengths within the range of the decoder, and every match behind what it repeats. */
  predicate Valid(b: Block, before: nat) {
    match b
    case Last(literals, low) => low < 16 && |literals| < 15 + U32_SIZE
    case Next(s, rest) =>
      Possible(s) && 1 <= s.off <= before + |s.literals| && Valid(rest, before + |s.literals| + s.len)
  }

  function BlockBytes(b: Block, before: nat): seq<byte>
    requires Valid(b, before)
  {
    match b
    case Last(literals, low) => LastBytes(literals, low)
    case Next(s, rest) => SequenceBytes(s) + BlockBytes(rest, before + |s.literals| + s.len)
  }

  /** What a block stands for, behind `out`. */
  function Meaning(out: seq<byte>, b: Block, m: int): (d: Outcome)
    requires Valid(b, |out|)
    ensures d.Done?
    decreases b
  {
    match b
    case Last(literals, _) => Done(out + literals, m, |literals|)
    case Next(s, rest) =>
      var lits := out + s.literals;
      Meaning(CopyMatch(lits, s.off, s.len), rest, |lits|)
  }

  // ---------------------------------------------------------------- lengths

  lemma {:induction false} ExtraIsRead(src: seq<byte>, ip: nat, n: nat)
    requires ip + |Extra(n)| <= |src| && src[ip..ip + |Extra(n)|] == Extra(n)
    ensures LengthRun(src, ip) == Run(n, ip + |Extra(n)|, true)
    decreases n
  {
    var b := Extra(n);
    assert src[ip] == src[ip..ip + |b|][0];
    if n >= 255 {
      assert src[ip + 1..ip + |b|] == src[ip..ip + |b|][1..] == Extra(n - 255);
      ExtraIsRead(src, ip + 1, n - 255);
    }
  }

  lemma LengthIsRead(src: seq<byte>, ip: nat, n: nat)
    requires ip + |LengthBytes(n)| <= |src| && src[ip..ip + |LengthBytes(n)|] == LengthBytes(n)
    ensures LengthField(src, ip, Nibble(n)) == Run(n, ip + |LengthBytes(n)|, true)
  {
    if n >= 15 {
      ExtraIsRead(src, ip, n - 15);
    }
  }

  lemma {:induction false} RunIsWritten(src: seq<byte>, ip: nat)
    requires ip <= |src| && LengthRun(src, ip).complete
    ensures var r := LengthRun(src, ip); src[ip..r.next] == Extra(r.sum)
    decreases |src| - ip
  {
    if src[ip] == 255 {
      RunIsWritten(src, ip + 1);
      var r := LengthRun(src, ip + 1);
      assert src[ip..r.next] == [255] + src[ip + 1..r.next];
    }
  }

  lemma LengthIsWritten(src: seq<byte>, ip: nat, nibble: nat)
    requires ip <= |src| && nibble <= 15 && LengthField(src, ip, nibble).complete
    ensures var f := LengthField(src, ip, nibble); nibble == Nibble(f.sum) && src[ip..f.next] == LengthBytes(f.sum)
  {
    if nibble == 15 {
      RunIsWritten(src, ip);
    }
  }

  // ---------------------------------------------------------------- what is laid out is decoded

  /** From the front of what is there to the rest. */
  lemma Take(src: seq<byte>, ip: nat, x: seq<byte>, y: seq<byte>)
    requires ip <= |src| && src[ip..] == x + y
    ensures ip + |x| <= |src| && src[ip..ip + |x|] == x && src[ip + |x|..] == y
  {
    assert src[ip..ip + |x|] == src[ip..][..|x|];
    assert src[ip + |x|..] == src[ip..][|x|..];
  }

  lemma Nested(a: seq<byte>, b: seq<byte>, c: seq<byte>, d: seq<byte>, e: seq<byte>, f: seq<byte>)
    ensures a + b + c + d + e + f == a + (b + (c + (d + (e + f))))
  {
  }

  lemma PartsAreThere(src: seq<byte>, ip: nat, token: byte, b: seq<byte>, c: seq<byte>, low: byte, high: byte,
                      e: seq<byte>, rest: seq<byte>)
    returns (p: nat, q: nat, next: nat)
    requires ip <= |src| && src[ip..] == [token] + b + c + [low, high] + e + rest
    ensures p == ip + 1 + |b| && q == p + |c| && next == q + 2 + |e| <= |src|
    ensures src[ip] == token && src[ip + 1..p] == b && src[p..q] == c && src[q] == low && src[q + 1] == high
    ensures src[q + 2..next] == e && src[next..] == rest
  {
    p := ip + 1 + |b|;
    q := p + |c|;
    next := q + 2 + |e|;
    var a, d := [token], [low, high];
    Nested(a, b, c, d, e, rest);
    Take(src, ip, a, b + (c + (d + (e + rest))));
    Take(src, ip + 1, b, c + (d + (e + rest)));
    Take(src, p, c, d + (e + rest));
    Take(src, q, d, e + rest);
    Take(src, q + 2, e, rest);
    assert src[ip] == src[ip..ip + 1][0] && src[q] == src[q..q + 2][0] && src[q + 1] == src[q..q + 2][1];
  }

  lemma {:induction false} TokenHalves(high: nat, low: nat)
    requires low < 16
    ensures (16 * high + low) / 16 == high && (16 * high + low) % 16 == low
  {
  }

  /** The lengths, read where they stand. */
  lemma LengthsAreThere(src: seq<byte>, ip: nat, p: nat, q: nat, next: nat, n: nat, l: nat)
    requires ip < p <= q && q + 2 <= next <= |src| && src[ip] == 16 * Nibble(n) + Nibble(l)
    requires src[ip + 1..p] == LengthBytes(n) && src[q + 2..next] == LengthBytes(l)
    ensures LengthField(src, ip + 1, src[ip] / 16) == Run(n, p, true)
    ensures LengthField(src, q + 2, src[ip] % 16) == Run(l, next, true)
  {
    TokenHalves(Nibble(n), Nibble(l));
    LengthIsRead(src, ip + 1, n);
    LengthIsRead(src, q + 2, l);
  }

  /** The five parts of a sequence where they stand. */
  lemma SequenceIsThere(src: seq<byte>, ip: nat, s: Sequence, rest: seq<byte>) returns (p: nat, q: nat, next: nat)
    requires Possible(s) && ip <= |src| && src[ip..] == SequenceBytes(s) + rest
    ensures SequenceAt(src, ip, p, q, next, s.off, s.len)
    ensures q == p + |s.literals| && src[p..q] == s.literals && src[next..] == rest
  {
    var n, l := |s.literals|, s.len - 4;
    p, q, next := PartsAreThere(src, ip, 16 * Nibble(n) + Nibble(l), LengthBytes(n), s.literals, s.off % 256,
                                s.off / 256, LengthBytes(l), rest);
    LengthsAreThere(src, ip, p, q, next, n, l);
    OffsetIsThere(src, q, s.off);
  }

  lemma OffsetIsThere(src: seq<byte>, q: nat, off: nat)
    requires q + 2 <= |src| && off <= DISTANCE_MAX && src[q] == off % 256 && src[q + 1] == off / 256
    ensures Read16(src, q) == off
  {
  }

  lemma LastIsThere(src: seq<byte>, ip: nat, literals: seq<byte>, low: nat)
    requires low < 16 && ip <= |src| && src[ip..] == LastBytes(literals, low)
    ensures var p := ip + 1 + |LengthBytes(|literals|)|;
            LastSequenceAt(src, ip, p) && src[p..] == literals
  {
    var n := |literals|;
    var a, b := [16 * Nibble(n) + low], LengthBytes(n);
    assert a + b + literals == a + (b + literals);
    Take(src, ip, a, b + literals);
    Take(src, ip + 1, b, literals);
    assert src[ip] == src[ip..ip + 1][0];
    TokenHalves(Nibble(n), low);
    LengthIsRead(src, ip + 1, n);
  }

  lemma SequenceDecodes(src: seq<byte>, ip: nat, s: Sequence, rest: seq<byte>, out: seq<byte>, m: int)
    returns (next: nat)
    requires Possible(s) && 1 <= s.off <= |out| + |s.literals| && ip <= |src| && src[ip..] == SequenceBytes(s) + rest
    ensures next <= |src| && src[next..] == rest
    ensures Decode(src, ip, out, m) ==
            Decode(src, next, CopyMatch(out + s.literals, s.off, s.len), |out| + |s.literals|)
  {
    var p, q;
    p, q, next := SequenceIsThere(src, ip, s, rest);
    DecodeSequence(src, ip, p, q, next, s.off, s.len, out, m);
  }

  lemma {:induction false} LaidOutDecodes(src: seq<byte>, ip: nat, b: Block, out: seq<byte>, m: int)
    requires Valid(b, |out|) && ip <= |src| && src[ip..] == BlockBytes(b, |out|)
    ensures Decode(src, ip, out, m) == Meaning(out, b, m)
    decreases b
  {
    match b {
      case Last(literals, low) =>
        LastIsThere(src, ip, literals, low);
        DecodeLast(src, ip, ip + 1 + |LengthBytes(|literals|)|, out, m);
      case Next(s, rest) =>
        var out' := CopyMatch(out + s.literals, s.off, s.len);
        var next := SequenceDecodes(src, ip, s, BlockBytes(rest, |out'|), out, m);
        LaidOutDecodes(src, next, rest, out', |out| + |s.literals|);
    }
  }

  // ---------------------------------------------------------------- and nothing else is

  lemma FivePieces(src: seq<byte>, i: nat, j: nat, k: nat, l: nat)
    requires i < j <= k && k + 2 <= l <= |src|
    ensures src[i..l] == [src[i]] + src[i + 1..j] + src[j..k] + [src[k], src[k + 1]] + src[k + 2..l]
  {
  }

  lemma {:induction false} OffsetIsNext(src: seq<byte>, ip: nat, f: Run, out: seq<byte>, m: int)
    requires ip < |src| && Decode(src, ip, out, m).Done?
    requires f == LengthField(src, ip + 1, src[ip] / 16) && f.complete && f.next + f.sum < |src|
    ensures f.sum < 15 + U32_SIZE
    ensures var q := f.next + f.sum;
            Decode(src, ip, out, m) == DecodeOffset(src, src[ip] % 16, q, out + src[f.next..q])
  {
    assert Decode(src, ip, out, m) == DecodeLiterals(src, src[ip] % 16, f.next, f.sum, out, m);
  }

  lemma DecodedSequence(src: seq<byte>, ip: nat, out: seq<byte>, m: int) returns (s: Sequence, next: nat)
    requires ip < |src| && Decode(src, ip, out, m).Done?
    requires var f := LengthField(src, ip + 1, src[ip] / 16); f.complete && f.next + f.sum < |src|
    ensures ip < next <= |src| && Possible(s) && 1 <= s.off <= |out| + |s.literals|
    ensures src[ip..next] == SequenceBytes(s)
    ensures Decode(src, ip, out, m) ==
            Decode(src, next, CopyMatch(out + s.literals, s.off, s.len), |out| + |s.literals|)
  {
    var nibble, f := src[ip] % 16, LengthField(src, ip + 1, src[ip] / 16);
    var q := f.next + f.sum;
    OffsetIsNext(src, ip, f, out, m);
    var off, g := DecodedMatch(src, nibble, q, out + src[f.next..q]);
    s, next := Sequence(src[f.next..q], off, g.sum + MINMATCH), g.next;
    WrittenSequence(src, ip, f, q, off, g);
  }

  lemma WrittenSequence(src: seq<byte>, ip: nat, f: Run, q: nat, off: nat, g: Run)
    requires ip < |src| && f == LengthField(src, ip + 1, src[ip] / 16) && f.complete && f.sum < 15 + U32_SIZE
    requires q == f.next + f.sum && q + 2 <= |src| && off == Read16(src, q)
    requires g == LengthField(src, q + 2, src[ip] % 16) && g.complete && g.sum < 15 + U32_SIZE
    ensures var s := Sequence(src[f.next..q], off, g.sum + MINMATCH);
            Possible(s) && src[ip..g.next] == SequenceBytes(s)
  {
    LengthIsWritten(src, ip + 1, src[ip] / 16);
    LengthIsWritten(src, q + 2, src[ip] % 16);
    OffsetHalves(src, q);
    FivePieces(src, ip, f.next, q, g.next);
    Sequenced(Sequence(src[f.next..q], off, g.sum + 4), src[ip], src[ip + 1..f.next], [src[q], src[q + 1]],
              src[q + 2..g.next]);
  }

  lemma OffsetHalves(src: seq<byte>, q: nat)
    requires q + 2 <= |src|
    ensures Read16(src, q) % 256 == src[q] && Read16(src, q) / 256 == src[q + 1]
  {
  }

  lemma Sequenced(s: Sequence, token: byte, b: seq<byte>, d: seq<byte>, e: seq<byte>)
    requires Possible(s) && token / 16 == Nibble(|s.literals|) && token % 16 == Nibble(s.len - 4)
    requires b == LengthBytes(|s.literals|) && d == [s.off % 256, s.off / 256] && e == LengthBytes(s.len - 4)
    ensures [token] + b + s.literals + d + e == SequenceBytes(s)
  {
    assert token == 16 * Nibble(|s.literals|) + Nibble(s.len - 4);
  }

  lemma LastIsWritten(src: seq<byte>, ip: nat, f: Run)
    requires ip < |src| && f == LengthField(src, ip + 1, src[ip] / 16) && f.complete && f.next + f.sum == |src|
    ensures src[ip..] == LastBytes(src[f.next..], src[ip] % 16)
  {
    LengthIsWritten(src, ip + 1, src[ip] / 16);
    assert src[ip..] == [src[ip]] + src[ip + 1..f.next] + src[f.next..];
  }

  lemma Joined(src: seq<byte>, i: nat, j: nat)
    requires i <= j <= |src|
    ensures src[i..] == src[i..j] + src[j..]
  {
  }

  /** Where the decoder gets to from a token: the end, or the next token. */
  lemma FirstLength(src: seq<byte>, ip: nat, out: seq<byte>, m: int) returns (f: Run)
    requires ip <= |src| && Decode(src, ip, out, m).Done?
    ensures ip < |src| && f == LengthField(src, ip + 1, src[ip] / 16)
    ensures f.complete && f.sum < 15 + U32_SIZE && f.next + f.sum <= |src|
  {
    f := LengthField(src, ip + 1, src[ip] / 16);
    assert Decode(src, ip, out, m) == DecodeLiterals(src, src[ip] % 16, f.next, f.sum, out, m);
  }

  lemma Behind(src: seq<byte>, ip: nat, next: nat, s: Sequence, rest: Block, before: nat) returns (b: Block)
    requires ip <= next <= |src| && Possible(s) && 1 <= s.off <= before + |s.literals|
    requires src[ip..next] == SequenceBytes(s) && Valid(rest, before + |s.literals| + s.len)
    requires src[next..] == BlockBytes(rest, before + |s.literals| + s.len)
    ensures Valid(b, before) && src[ip..] == BlockBytes(b, before)
  {
    b := Next(s, rest);
    Joined(src, ip, next);
  }

  /** From a token to the end of the block, or to the next token. */
  lemma DecodedStep(src: seq<byte>, ip: nat, out: seq<byte>, m: int)
    returns (last: bool, s: Sequence, low: nat, next: nat)
    requires ip <= |src| && Decode(src, ip, out, m).Done?
    ensures last ==> low < 16 && |s.literals| < 15 + U32_SIZE && src[ip..] == LastBytes(s.literals, low)
    ensures !last ==> ip < next <= |src| && Possible(s) && 1 <= s.off <= |out| + |s.literals|
    ensures !last ==> src[ip..next] == SequenceBytes(s)
    ensures !last ==> Decode(src, next, CopyMatch(out + s.literals, s.off, s.len), |out| + |s.literals|).Done?
  {
    var f := FirstLength(src, ip, out, m);
    last := f.next + f.sum == |src|;
    if last {
      LastIsWritten(src, ip, f);
      s, low, next := Sequence(src[f.next..], 0, 0), src[ip] % 16, |src|;
    } else {
      s, next := DecodedSequence(src, ip, out, m);
      low := 0;
    }
  }

  lemma {:induction false} DecodedIsLaidOut(src: seq<byte>, ip: nat, out: seq<byte>, m: int) returns (b: Block)
    requires ip <= |src| && Decode(src, ip, out, m).Done?
    ensures Valid(b, |out|) && src[ip..] == BlockBytes(b, |out|)
    decreases |src| - ip
  {
    var last, s, low, next := DecodedStep(src, ip, out, m);
    if last {
      b := Last(s.literals, low);
    } else {
      var rest := DecodedIsLaidOut(src, next, CopyMatch(out + s.literals, s.off, s.len), |out| + |s.literals|);
      b := Behind(src, ip, next, s, rest, |out|);
    }
  }

  /** The decoder gives a result exactly for the blocks that are laid out in this way, and the result is
      what they stand for. */
  lemma DecodesExactlyTheLayout(src: seq<byte>)
    ensures DecodeBlock(src).Done? <==> exists b :: Valid(b, 0) && src == BlockBytes(b, 0)
    ensures forall b :: Valid(b, 0) && src == BlockBytes(b, 0) ==> DecodeBlock(src) == Meaning([], b, -1)
  {
    forall b | Valid(b, 0) && src == BlockBytes(b, 0)
      ensures DecodeBlock(src) == Meaning([], b, -1)
    {
      LaidOutDecodes(src, 0, b, [], -1);
    }
    if DecodeBlock(src).Done? {
      var b := DecodedIsLaidOut(src, 0, [], -1);
    }
  }

  // ---------------------------------------------------------------- written out

  /** One sequence with lengths that fit the token, byte by byte. */
  lemma {:induction false} ShortForm(literals: seq<byte>, off: nat, len: nat, last: seq<byte>)
    requires 1 <= |literals| <= 14 && 4 <= len <= 18 && 1 <= off <= |literals| && |last| <= 14
    ensures DecodeBlock([16 * |literals| + len - 4] + literals + [off % 256, off / 256] + [16 * |last|] + last)
            == Done(CopyMatch(literals, off, len) + last, |literals|, |last|)
  {
    var s := Sequence(literals, off, len);
    assert [16 * |literals| + len - 4] + literals + [off % 256, off / 256] + [16 * |last|] + last
        == SequenceBytes(s) + LastBytes(last, 0);
    OneSequence(s, last);
  }

  lemma Regrouped(a: seq<byte>, b: seq<byte>, c: seq<byte>, d: seq<byte>, e: seq<byte>, f: seq<byte>, g: seq<byte>,
                  h: seq<byte>, i: seq<byte>, j: seq<byte>, k: seq<byte>)
    ensures a + b + c + d + e + f + g + h + i + j + k == (a + (b + c) + d + e + (f + g)) + (h + (i + j) + k)
  {
  }

  /** And with lengths of any size: `i`, `j` and `k` bytes of 255 and one byte below. */
  lemma LongForm(literals: seq<byte>, i: nat, x: byte, off: nat, j: nat, y: byte, last: seq<byte>, k: nat, z: byte)
    requires x < 255 && y < 255 && z < 255 && 255 * i < U32_SIZE - 255 && 255 * j < U32_SIZE - 255
    requires 255 * k < U32_SIZE - 255
    requires |literals| == 15 + 255 * i + x && |last| == 15 + 255 * k + z
    requires 1 <= off <= |literals| && off <= 65535
    ensures DecodeBlock([255] + seq(i, _ => 255) + [x] + literals + [off % 256, off / 256] + seq(j, _ => 255) + [y]
                        + [240] + seq(k, _ => 255) + [z] + last)
            == Done(CopyMatch(literals, off, 19 + 255 * j + y) + last, |literals|, |last|)
  {
    var s := Sequence(literals, off, 19 + 255 * j + y);
    LengthInBytes(i, x);
    LengthInBytes(j, y);
    LengthInBytes(k, z);
    Regrouped([255], seq(i, _ => 255), [x], literals, [off % 256, off / 256], seq(j, _ => 255), [y],
              [240], seq(k, _ => 255), [z], last);
    OneSequence(s, last);
  }

  lemma OneSequence(s: Sequence, last: seq<byte>)
    requires Possible(s) && 1 <= s.off <= |s.literals| && |last| < 15 + U32_SIZE
    ensures DecodeBlock(SequenceBytes(s) + LastBytes(last, 0)) ==
            Done(CopyMatch(s.literals, s.off, s.len) + last, |s.literals|, |last|)
  {
    var src := SequenceBytes(s) + LastBytes(last, 0);
    LaidOutDecodes(src, 0, Next(s, Last(last, 0)), [], -1);
    assert [] + s.literals == s.literals;
  }

  lemma {:induction false} LengthInBytes(count: nat, low: byte)
    requires low < 255
    ensures LengthBytes(15 + 255 * count + low) == seq(count, _ => 255) + [low]
  {
    if count > 0 {
      LengthInBytes(count - 1, low);
      assert seq(count, _ => 255) == [255] + seq(count - 1, _ => 255);
      assert Extra(255 * count + low) == [255] + Extra(255 * (count - 1) + low);
    }
  }
}
