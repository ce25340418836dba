/** Bytes, and numbers stored in them with the lowest byte first. */
module Bytes {
  type byte = x: int | 0 <= x < 256

  function Power256(n: nat): (p: nat)
    ensures p >= 1
  {
    if n == 0 then 1 else 256 * Power256(n - 1)
  }

  /** The `n` lowest bytes of `w`. */
  function Store(w: nat, n: nat): (b: seq<byte>)
    ensures |b| == n
  {
    if n == 0 then [] else [w % 256] + Store(w / 256, n - 1)
  }

  function Load(b: seq<byte>): nat {
    if b == [] then 0
    else
      var low: int := b[0];
      low + 256 * Load(b[1..])
  }

  lemma {:induction false} StoreLoad(w: nat, n: nat)
    requires w < Power256(n)
    ensures Load(Store(w, n)) == w
  {
    if n > 0 {
      StoreLoad(w / 256, n - 1);
      assert Store(w, n)[1..] == Store(w / 256, n - 1);
    }
  }

  /** The number that is loaded is the one whose bytes these are. */
  lemma {:induction false} LoadStore(b: seq<byte>)
    ensures Store(Load(b), |b|) == b
  {
    if b != [] {
      LoadStore(b[1..]);
      var low: int := b[0];
      assert Load(b) % 256 == low && Load(b) / 256 == Load(b[1..]);
      assert b == [b[0]] + b[1..];
    }
  }

  /** The lowest byte comes first. */
  lemma {:induction false} StoreFour(w: nat)
    ensures Store(w, 4) == [w % 256, w / 0x100 % 256, w / 0x1_0000 % 256, w / 0x100_0000 % 256]
  {
    assert Store(w, 4) == [w % 256] + Store(w / 0x100, 3);
    assert Store(w / 0x100, 3) == [w / 0x100 % 256] + Store(w / 0x1_0000, 2);
    assert Store(w / 0x1_0000, 2) == [w / 0x1_0000 % 256] + Store(w / 0x100_0000, 1);
    assert Store(w / 0x100_0000, 1) == [w / 0x100_0000 % 256] + Store(w / 0x1_0000_0000, 0);
  }

  lemma {:induction false} StoreEight(w: nat)
    ensures Store(w, 8) == Store(w % 0x1_0000_0000, 4) + Store(w / 0x1_0000_0000, 4)
  {
    assert Power256(4) == 0x1_0000_0000 by {
      assert Power256(2) == 0x1_0000;
    }
    StoreSplit(w % 0x1_0000_0000, w / 0x1_0000_0000, 4, 4);
  }

  /** A number in two parts. */
  lemma {:induction false} StoreSplit(lo: nat, hi: nat, m: nat, n: nat)
    requires lo < Power256(m)
    ensures Store(lo + Power256(m) * hi, m + n) == Store(lo, m) + Store(hi, n)
  {
    if m == 0 {
      assert Store(lo, m) + Store(hi, n) == Store(hi, n);
    } else {
      var q := Power256(m - 1) * hi;
      assert Power256(m) * hi == 256 * q;
      StoreSplit(lo / 256, hi, m - 1, n);
      assert (lo + 256 * q) % 256 == lo % 256 && (lo + 256 * q) / 256 == lo / 256 + q;
      assert [lo % 256] + (Store(lo / 256, m - 1) + Store(hi, n)) == [lo % 256] + Store(lo / 256, m - 1) + Store(hi, n);
    }
  }

  /** A byte string that comes in pieces. */
  function Concat(chunks: seq<seq<byte>>): seq<byte> {
    if chunks == [] then [] else Concat(chunks[..|chunks| - 1]) + chunks[|chunks| - 1]
  }
}
