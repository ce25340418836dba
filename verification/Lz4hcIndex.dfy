/** The match index of the high-compression encoder: the newest position of every hash value,
    and for every position of the last 64 KB the distance to the previous position with the
    same hash, kept modulo 65536. `Indexed` says that it is the linear scan it stands for. */
module Lz4hcIndex {
  import opened Lz4Format

  const HASHTABLESIZE := 32768
  const MAXD := 65536
  const GB := 0x4000_0000
  const U64_SIZE := 0x1_0000_0000_0000_0000

  /** A hash of the four bytes at a position. */
  type Hash = seq<byte> -> nat

  /** The input, its hash, and the index of its first byte. Indices start at 64 KB, so that no
      distance that can be stored takes one below zero. */
  datatype Input = Input(src: seq<byte>, hash: Hash, base: nat)

  function Slot(j: Input, p: nat): (h: nat)
    requires p + 4 <= |j.src|
    ensures h < HASHTABLESIZE
  {
    j.hash(j.src[p..p + 4]) % HASHTABLESIZE
  }

  /** The last position before `p` with hash `h`, or -1: a linear scan. */
  function Previous(j: Input, p: nat, h: nat): (q: int)
    requires p == 0 || p + 3 <= |j.src|
    ensures -1 <= q < p
    ensures q >= 0 ==> Slot(j, q) == h
    ensures forall r :: q < r < p ==> Slot(j, r) != h
  {
    if p == 0 then -1
    else if Slot(j, p - 1) == h then p - 1
    else Previous(j, p - 1, h)
  }

  /** The distance that is stored for position `p`. */
  function StoredDelta(j: Input, p: nat): (d: nat)
    requires p + 4 <= |j.src|
    ensures 1 <= d <= DISTANCE_MAX
  {
    var q := Previous(j, p, Slot(j, p));
    if q >= 0 && p - q <= DISTANCE_MAX then p - q else DISTANCE_MAX
  }

  ghost predicate Heads(ht: seq<nat>, j: Input, count: nat) {
    && |ht| == HASHTABLESIZE && (count == 0 || count + 3 <= |j.src|)
    && forall h :: 0 <= h < HASHTABLESIZE ==>
         var q := Previous(j, count, h);
         if q >= 0 then ht[h] == j.base + q else ht[h] + DISTANCE_MAX < j.base
  }

  ghost predicate Links(ct: seq<nat>, j: Input, count: nat) {
    && |ct| == MAXD && (count == 0 || count + 3 <= |j.src|)
    && (forall k :: 0 <= k < MAXD ==> 1 <= ct[k] <= DISTANCE_MAX)
    && forall p :: 0 <= p < count <= p + MAXD ==> ct[(j.base + p) % MAXD] == StoredDelta(j, p)
  }

  /** The index holds exactly the first `count` positions of the input. */
  ghost predicate Indexed(ht: seq<nat>, ct: seq<nat>, j: Input, count: nat) {
    Heads(ht, j, count) && Links(ct, j, count)
  }

  lemma HeadsNext(ht: seq<nat>, j: Input, p: nat)
    requires Heads(ht, j, p) && p + 4 <= |j.src|
    ensures Heads(ht[Slot(j, p) := j.base + p], j, p + 1)
  {
  }

  /** The distance to the newest position with the same hash, as it is computed and stored. */
  lemma DeltaIsStored(ht: seq<nat>, j: Input, p: nat)
    requires Heads(ht, j, p) && p + 4 <= |j.src|
    ensures var delta := j.base + p - ht[Slot(j, p)];
            StoredDelta(j, p) == if delta > DISTANCE_MAX then DISTANCE_MAX else delta
  {
  }

  lemma SlotsDiffer(x: nat, y: nat)
    ensures 0 < y - x < MAXD ==> x % MAXD != y % MAXD
  {
  }

  /** Slots of the chain are not reused inside the window. */
  lemma {:induction false} LinksNext(ct: seq<nat>, j: Input, p: nat)
    requires Links(ct, j, p) && p + 4 <= |j.src|
    ensures Links(ct[(j.base + p) % MAXD := StoredDelta(j, p)], j, p + 1)
  {
    var ct' := ct[(j.base + p) % MAXD := StoredDelta(j, p)];
    forall q | 0 <= q < p + 1 <= q + MAXD
      ensures ct'[(j.base + q) % MAXD] == StoredDelta(j, q)
    {
      SlotsDiffer(j.base + q, j.base + p);
    }
  }

  class HcState {
    var hashTable: array<nat>
    var chainTable: array<nat>
    var nextToUpdate: nat
    var endOffset: nat              // end - base
    var dirty: bool
    var favorDecSpeed: bool

    /** Between two inputs: unless the tables are about to be cleared, everything they hold lies
        below the end of the last input. */
    ghost predicate Valid()
      reads this, hashTable, chainTable
    {
      && hashTable != chainTable && hashTable.Length == HASHTABLESIZE && chainTable.Length == MAXD
      && (endOffset <= GB ==>
            && (forall h :: 0 <= h < HASHTABLESIZE ==> hashTable[h] <= endOffset)
            && (forall k :: 0 <= k < MAXD ==> 1 <= chainTable[k] <= DISTANCE_MAX))
    }

    /** Everything below `nextToUpdate` is indexed. */
    ghost predicate Ready(j: Input)
      reads this, hashTable, chainTable
    {
      && hashTable != chainTable
      && j.base >= MAXD && j.base + |j.src| < U32_SIZE
      && j.base <= nextToUpdate
      && Indexed(hashTable[..], chainTable[..], j, nextToUpdate - j.base)
    }

    /** LZ4_createStreamHC: the tables may hold anything. */
    constructor ()
      ensures Valid() && fresh(hashTable) && fresh(chainTable)
    {
      hashTable := new nat[HASHTABLESIZE];
      chainTable := new nat[MAXD];
      nextToUpdate, endOffset, dirty, favorDecSpeed := 0, U64_SIZE - 1, false, false;
    }

    /** LZ4_initStreamHC: the next input clears the tables, end - base being out of bounds. */
    method InitStream()
      requires hashTable != chainTable && hashTable.Length == HASHTABLESIZE && chainTable.Length == MAXD
      modifies this`endOffset, this`dirty, this`favorDecSpeed
      ensures Valid() && !dirty && !favorDecSpeed && endOffset == U64_SIZE - 1
    {
      endOffset, dirty, favorDecSpeed := U64_SIZE - 1, false, false;
    }

    /** LZ4_resetStreamHC_fast */
    method ResetStreamFast()
      requires Valid()
      modifies this`endOffset, this`dirty, this`favorDecSpeed
      ensures Valid() && !dirty && favorDecSpeed == (old(favorDecSpeed) && !old(dirty))
      ensures endOffset == if old(dirty) then U64_SIZE - 1 else old(endOffset)
    {
      if dirty {
        InitStream();
      }
    }

    /** LZ4_favorDecompressionSpeed */
    method FavorDecompressionSpeed(favor: bool)
      modifies this`favorDecSpeed
      ensures favorDecSpeed == favor
    {
      favorDecSpeed := favor;
    }

    /** LZ4HC_clearTables */
    method ClearTables()
      requires hashTable != chainTable && hashTable.Length == HASHTABLESIZE && chainTable.Length == MAXD
      modifies hashTable, chainTable
      ensures forall h :: 0 <= h < HASHTABLESIZE ==> hashTable[h] == 0
      ensures forall k :: 0 <= k < MAXD ==> chainTable[k] == 0xFFFF
    {
      for i := 0 to HASHTABLESIZE
        invariant forall h :: 0 <= h < i ==> hashTable[h] == 0
      {
        hashTable[i] := 0;
      }
      for i := 0 to MAXD
        invariant forall h :: 0 <= h < HASHTABLESIZE ==> hashTable[h] == 0
        invariant forall k :: 0 <= k < i ==> chainTable[k] == 0xFFFF
      {
        chainTable[i] := 0xFFFF;
      }
    }

    /** LZ4HC_init_internal: the index of the first byte of the next input lies 64 KB above
        everything that was indexed before, so that no stale entry is within reach of it. */
    method InitInternal() returns (base: nat)
      requires Valid()
      modifies this`nextToUpdate, this`endOffset, hashTable, chainTable
      ensures Valid() && MAXD <= base <= GB + MAXD && nextToUpdate == endOffset == base
      ensures if old(endOffset) > 0x4000_0000 then base == 65536
              else base == old(endOffset) + 65536 && hashTable[..] == old(hashTable[..])
                   && chainTable[..] == old(chainTable[..])
      ensures forall j: Input :: j.base == base && base + |j.src| < U32_SIZE ==> Ready(j)
    {
      var startingOffset := endOffset;
      if startingOffset > GB {
        ClearTables();
        startingOffset := 0;
      }
      base := startingOffset + MAXD;
      nextToUpdate, endOffset := base, base;
    }

    /** What was indexed lies below the end of the input. */
    lemma IndexedIsBelow(j: Input)
      requires Ready(j) && hashTable.Length == HASHTABLESIZE && endOffset == j.base + |j.src|
      ensures Valid()
    {
    }

    /** One round of LZ4HC_Insert. */
    method InsertOne(j: Input, idx: nat)
      requires hashTable != chainTable && j.base >= MAXD && j.base <= idx && idx - j.base + 4 <= |j.src|
      requires Indexed(hashTable[..], chainTable[..], j, idx - j.base)
      modifies hashTable, chainTable
      ensures Indexed(hashTable[..], chainTable[..], j, idx - j.base + 1)
    {
      var p := idx - j.base;
      var h := Slot(j, p);
      var delta := idx - hashTable[h];
      if delta > DISTANCE_MAX {
        delta := DISTANCE_MAX;
      }
      ghost var ht, ct := hashTable[..], chainTable[..];
      DeltaIsStored(ht, j, p);
      HeadsNext(ht, j, p);
      LinksNext(ct, j, p);
      chainTable[idx % MAXD] := delta;
      hashTable[h] := idx;
      assert hashTable[..] == ht[h := idx];
      assert chainTable[..] == ct[(j.base + p) % MAXD := StoredDelta(j, p)];
    }

    /** LZ4HC_Insert: index everything below `ip`. */
    method Insert(j: Input, ip: nat)
      requires Ready(j) && nextToUpdate <= j.base + ip && ip + 3 <= |j.src|
      modifies this`nextToUpdate, hashTable, chainTable
      ensures Ready(j) && nextToUpdate == j.base + ip
    {
      var target := j.base + ip;
      var idx := nextToUpdate;
      while idx < target
        invariant nextToUpdate <= idx <= target
        invariant Indexed(hashTable[..], chainTable[..], j, idx - j.base)
      {
        InsertOne(j, idx);
        idx := idx + 1;
      }
      nextToUpdate := target;
    }
  }

  // ---------------------------------------------------------------- walking the chain

  /** The lowest position a match for `ip` may have. */
  function Lowest(ip: nat): nat {
    if ip < MAXD then 0 else ip - DISTANCE_MAX
  }

  /** Following the stored distances from index `m` as long as they stay in the window. */
  ghost function Walk(ct: seq<nat>, m: nat, lowest: nat): seq<nat>
    requires |ct| == MAXD && lowest >= MAXD
    requires forall k :: 0 <= k < MAXD ==> 1 <= ct[k] <= DISTANCE_MAX
    decreases m
  {
    if m < lowest then [] else [m] + Walk(ct, m - ct[m % MAXD], lowest)
  }

  /** All positions of the window with the hash of `ip`, newest first: the linear scan. */
  ghost function Scan(j: Input, p: nat, h: nat, lowest: nat): seq<nat>
    requires p + 3 <= |j.src|
    decreases p
  {
    if p <= lowest then []
    else if Slot(j, p - 1) == h then [j.base + p - 1] + Scan(j, p - 1, h, lowest)
    else Scan(j, p - 1, h, lowest)
  }

  /** One step along the chain leads to the previous position with the same hash, or out of
      the window. */
  lemma {:induction false} ChainStep(ct: seq<nat>, j: Input, ip: nat, p: nat)
    requires Links(ct, j, ip) && j.base >= MAXD && Lowest(ip) <= p < ip
    ensures var q := Previous(j, p, Slot(j, p));
            var m := j.base + p - ct[(j.base + p) % MAXD];
            if q >= Lowest(ip) then m == j.base + q else m < j.base + Lowest(ip)
  {
    var d := StoredDelta(j, p);
    assert ct[(j.base + p) % MAXD] == d;
  }

  /** The linear scan skips to the newest position with the hash. */
  lemma {:induction false} ScanSkips(j: Input, p: nat, h: nat, lowest: nat)
    requires p + 3 <= |j.src|
    ensures var q := Previous(j, p, h);
            Scan(j, p, h, lowest) == if q >= lowest then [j.base + q] + Scan(j, q, h, lowest) else []
    decreases p
  {
    if p > 0 && Slot(j, p - 1) != h {
      ScanSkips(j, p - 1, h, lowest);
    }
  }

  lemma {:induction false} WalkScans(ct: seq<nat>, j: Input, ip: nat, m: nat, p: nat, h: nat)
    requires Links(ct, j, ip) && j.base >= MAXD && p <= ip && ip + 3 <= |j.src|
    requires var q := Previous(j, p, h);
             if q >= Lowest(ip) then m == j.base + q else m < j.base + Lowest(ip)
    ensures Walk(ct, m, j.base + Lowest(ip)) == Scan(j, p, h, Lowest(ip))
    decreases p
  {
    ScanSkips(j, p, h, Lowest(ip));
    var q := Previous(j, p, h);
    if q >= Lowest(ip) {
      ChainStep(ct, j, ip, q);
      WalkScans(ct, j, ip, m - ct[m % MAXD], q, h);
    }
  }

  /** The index agrees with the linear scan: from the head of the hash of `ip`, the chain
      visits, newest first, exactly the positions of the window that have this hash. */
  lemma {:induction false} IndexIsScan(ht: seq<nat>, ct: seq<nat>, j: Input, ip: nat)
    requires Indexed(ht, ct, j, ip) && j.base >= MAXD && ip + 4 <= |j.src|
    ensures Walk(ct, ht[Slot(j, ip)], j.base + Lowest(ip)) == Scan(j, ip, Slot(j, ip), Lowest(ip))
  {
    WalkScans(ct, j, ip, ht[Slot(j, ip)], ip, Slot(j, ip));
  }

  /** What the scan contains. */
  lemma {:induction false} ScanContains(j: Input, p: nat, h: nat, lowest: nat)
    requires p + 3 <= |j.src|
    ensures forall q :: lowest <= q < p ==> (Slot(j, q) == h <==> j.base + q in Scan(j, p, h, lowest))
    ensures forall x :: x in Scan(j, p, h, lowest) ==> j.base + lowest <= x < j.base + p
    ensures forall a, b :: 0 <= a < b < |Scan(j, p, h, lowest)| ==> Scan(j, p, h, lowest)[a] > Scan(j, p, h, lowest)[b]
    decreases p
  {
    if p > lowest {
      ScanContains(j, p - 1, h, lowest);
      var rest := Scan(j, p - 1, h, lowest);
      assert forall b :: 0 <= b < |rest| ==> rest[b] in rest;
    }
  }
}
