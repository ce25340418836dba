/** The consistent-hash ring: how many points every server gets, and the search for the server of
    a key. The points themselves come from MD5, which is a parameter here; and so is the share of a
    server, which is computed in floating point: all that is known of it is how far the roundings can
    take it from the exact one. */
module Ketama {
  import opened Bytes

  /** A point on the circle, and the server it belongs to. */
  datatype Point = Point(point: nat, server: string)

  datatype ServerInfo = ServerInfo(addr: string, memory: nat)

  predicate SortedPoints(ring: seq<Point>) {
    forall i, j :: 0 <= i < j < |ring| ==> ring[i].point <= ring[j].point
  }

  // ---------------------------------------------------------------- looking up a key

  /** The first point that is not below `h`, or the number of points: a linear search. */
  function First(ring: seq<Point>, h: nat): (f: nat)
    ensures f <= |ring|
    ensures forall i :: 0 <= i < f ==> ring[i].point < h
    ensures f < |ring| ==> ring[f].point >= h
  {
    if ring == [] || ring[0].point >= h then 0 else 1 + First(ring[1..], h)
  }

  /** Behind the last point comes the first one again. */
  function Successor(ring: seq<Point>, h: nat): Point
    requires ring != []
  {
    var f := First(ring, h);
    if f < |ring| then ring[f] else ring[0]
  }

  /** Point `i` is not below `h`, and there is none in front of it, or one that is. */
  predicate NotBelow(ring: seq<Point>, h: nat, i: nat) {
    i < |ring| && ring[i].point >= h && (i == 0 || ring[i - 1].point < h)
  }

  lemma SuccessorAt(ring: seq<Point>, h: nat, i: nat)
    requires SortedPoints(ring) && NotBelow(ring, h, i)
    ensures Successor(ring, h) == ring[i]
  {
    forall j | 0 <= j < i
      ensures ring[j].point < h
    {
      assert ring[j].point <= ring[i - 1].point;
    }
    FirstAt(ring, h, i);
  }

  lemma {:induction false} FirstAt(ring: seq<Point>, h: nat, i: nat)
    requires i < |ring| && ring[i].point >= h && forall j :: 0 <= j < i ==> ring[j].point < h
    ensures First(ring, h) == i
  {
    if i > 0 {
      assert ring[0].point < h;
      FirstAt(ring[1..], h, i - 1);
    }
  }

  /** Above every point the first one follows; otherwise the first one that is not below. */
  lemma SuccessorIs(ring: seq<Point>, h: nat)
    requires ring != [] && SortedPoints(ring)
    ensures (forall i :: 0 <= i < |ring| ==> ring[i].point < h) ==> Successor(ring, h) == ring[0]
    ensures forall i: nat :: NotBelow(ring, h, i) ==> Successor(ring, h) == ring[i]
  {
    forall i: nat | NotBelow(ring, h, i)
      ensures Successor(ring, h) == ring[i]
    {
      SuccessorAt(ring, h, i);
    }
  }

  /** ketama_get_server: it ends, and it finds the successor, on every sorted ring, with or without
      points that occur twice. */
  method GetServer(ring: array<Point>, h: nat) returns (p: Point)
    requires ring.Length > 0 && SortedPoints(ring[..])
    ensures p == Successor(ring[..], h)
    ensures (forall i :: 0 <= i < ring.Length ==> ring[..][i].point < h) ==> p == ring[0]
    ensures forall i: nat :: NotBelow(ring[..], h, i) ==> p == ring[..][i]
  {
    SuccessorIs(ring[..], h);
    ghost var f := First(ring[..], h);
    var lowp: int, highp: int := 0, ring.Length;
    while true
      invariant 0 <= lowp <= f <= highp <= ring.Length
      decreases highp - lowp
    {
      var midp := (lowp + highp) / 2;
      if midp == ring.Length {
        return ring[0];
      }
      var midval := ring[midp].point;
      var midval1 := if midp == 0 then 0 else ring[midp - 1].point;
      ghost var points := ring[..];
      assert points[midp] == ring[midp] && (midp > 0 ==> points[midp - 1] == ring[midp - 1]);
      assert f < ring.Length ==> points[f] == ring[f];
      if h <= midval && h > midval1 {
        return ring[midp];
      }
      if midval < h {
        lowp := midp + 1;
      } else {
        highp := midp - 1;
      }
      if lowp > highp {
        return ring[0];
      }
    }
  }

  /** A ring without the points of one server. */
  function Without(ring: seq<Point>, server: string): seq<Point> {
    if ring == [] then []
    else (if ring[0].server == server then [] else [ring[0]]) + Without(ring[1..], server)
  }

  lemma {:induction false} WithoutContains(ring: seq<Point>, server: string)
    ensures forall p :: p in Without(ring, server) <==> p in ring && p.server != server
  {
    if ring != [] {
      WithoutContains(ring[1..], server);
      assert ring == [ring[0]] + ring[1..];
    }
  }

  lemma {:induction false} WithoutKeepsOrder(ring: seq<Point>, server: string)
    requires SortedPoints(ring)
    ensures SortedPoints(Without(ring, server))
  {
    if ring != [] {
      var rest := Without(ring[1..], server);
      WithoutKeepsOrder(ring[1..], server);
      WithoutContains(ring[1..], server);
      forall i | 0 <= i < |rest|
        ensures ring[0].point <= rest[i].point
      {
        assert rest[i] in rest;
        var k :| 0 <= k < |ring[1..]| && ring[1..][k] == rest[i];
        assert ring[k + 1] == rest[i];
      }
    }
  }

  /** What the search finds stays, unless it belongs to the server that goes. */
  lemma {:induction false} FirstWithout(ring: seq<Point>, server: string, h: nat)
    ensures First(ring, h) == |ring| ==> First(Without(ring, server), h) == |Without(ring, server)|
    ensures First(ring, h) < |ring| && ring[First(ring, h)].server != server ==>
              First(Without(ring, server), h) < |Without(ring, server)|
              && Without(ring, server)[First(Without(ring, server), h)] == ring[First(ring, h)]
  {
    if ring == [] {
    } else if ring[0].server == server && ring[0].point >= h {
    } else {
      FirstWithout(ring[1..], server, h);
      FirstBehind(ring[0], ring[1..], h);
      assert ring == [ring[0]] + ring[1..];
      var rest := Without(ring[1..], server);
      FirstBehind(ring[0], rest, h);
      assert Without(ring, server) == if ring[0].server == server then rest else [ring[0]] + rest;
    }
  }

  lemma {:induction false} FirstBehind(p: Point, rest: seq<Point>, h: nat)
    ensures First([p] + rest, h) == if p.point >= h then 0 else 1 + First(rest, h)
  {
    assert ([p] + rest)[1..] == rest;
  }

  /** Taking away one server changes the answer only for the keys that belonged to it. */
  lemma {:induction false} OnlyItsKeysMove(ring: seq<Point>, server: string, h: nat)
    requires ring != [] && Successor(ring, h).server != server
    ensures Without(ring, server) != [] && Successor(Without(ring, server), h) == Successor(ring, h)
  {
    FirstWithout(ring, server, h);
  }

  /** And a key that belonged to it goes to another server, the next one on the circle. */
  lemma {:induction false} ItsKeysGoToOthers(ring: seq<Point>, server: string, h: nat)
    requires Without(ring, server) != []
    ensures Successor(Without(ring, server), h) in ring && Successor(Without(ring, server), h).server != server
  {
    WithoutContains(ring, server);
    var rest := Without(ring, server);
    var f := First(rest, h);
    assert (if f < |rest| then rest[f] else rest[0]) in rest;
  }

  // ---------------------------------------------------------------- generating the points

  function TotalMemory(servers: seq<ServerInfo>): int {
    if servers == [] then 0 else TotalMemory(servers[..|servers| - 1]) + servers[|servers| - 1].memory
  }

  const UNSIGNED_LONG_SIZE := 0x1_0000_0000_0000_0000

  /** The roundings in the share of a server: two conversions to a 24-bit significand, the quotient,
      the product and its conversion change it by less than one part in 2^21. */
  const ACCURACY := 0x20_0000

  /** `k` is the integer part of a number that is that near to the exact share: 40 digests for every
      server, times the server's part of the memory. */
  ghost predicate Near(k: nat, memory: nat, servers: nat, total: nat) {
    && (total * ACCURACY) * k <= (40 * servers * (ACCURACY + 1)) * memory
    && (40 * servers * (ACCURACY - 1)) * memory < (total * ACCURACY) * (k + 1)
  }

  /** How many digests a server gets, from its memory, the number of servers, and the total memory. */
  type Share = (nat, nat, nat) -> nat

  ghost predicate Accurate(share: Share) {
    forall memory: nat, servers: nat, total: nat ::
      0 < total < UNSIGNED_LONG_SIZE && memory <= total && 40 * servers < ACCURACY ==>
        Near(share(memory, servers, total), memory, servers, total)
  }

  /** The share without roundings is one of those. */
  lemma {:induction false} ExactIsNear(k: nat, memory: nat, servers: nat, total: nat)
    requires total > 0 && k == 40 * servers * memory / total
    ensures Near(k, memory, servers, total)
  {
    var x := 40 * servers * memory;
    Quotient(x, total);
    assert total * k <= x < total * (k + 1) by {
      Distribute(total, k, 1);
    }
    assert (total * ACCURACY) * k == ACCURACY * (total * k) <= ACCURACY * x;
    assert (40 * servers * (ACCURACY + 1)) * memory == ACCURACY * x + x;
    assert (40 * servers * (ACCURACY - 1)) * memory == ACCURACY * x - x;
    assert (total * ACCURACY) * (k + 1) == ACCURACY * (total * (k + 1));
  }

  lemma Quotient(x: nat, y: nat)
    requires y > 0
    ensures y * (x / y) <= x < y * (x / y) + y
  {
  }

  /** What the sum of the shares needs: servers whose memory, in all, fits an unsigned long, and not
      more of them than leave the roundings below one digest. */
  predicate Servers(servers: seq<ServerInfo>) {
    0 < TotalMemory(servers) < UNSIGNED_LONG_SIZE && 40 * |servers| < ACCURACY
  }

  lemma {:induction false} MemoryIsPart(servers: seq<ServerInfo>, i: nat)
    requires i < |servers|
    ensures servers[i].memory <= TotalMemory(servers)
    decreases |servers|
  {
    var front := servers[..|servers| - 1];
    if i < |front| {
      MemoryIsPart(front, i);
    } else {
      TotalIsNat(front);
    }
  }

  lemma {:induction false} TotalIsNat(servers: seq<ServerInfo>)
    ensures TotalMemory(servers) >= 0
  {
    if servers != [] {
      TotalIsNat(servers[..|servers| - 1]);
    }
  }

  lemma {:induction false} ShareIsNear(share: Share, servers: seq<ServerInfo>, i: nat)
    requires Accurate(share) && Servers(servers) && i < |servers|
    ensures var total := TotalMemory(servers);
            Near(share(servers[i].memory, |servers|, total), servers[i].memory, |servers|, total)
  {
    MemoryIsPart(servers, i);
  }

  /** The digests of the first `i` servers. */
  function DigestsBelow(share: Share, servers: seq<ServerInfo>, i: nat, total: nat): nat
    requires i <= |servers|
  {
    if i == 0 then 0
    else DigestsBelow(share, servers, i - 1, total) + share(servers[i - 1].memory, |servers|, total)
  }

  lemma {:induction false} SharesBelow(share: Share, servers: seq<ServerInfo>, i: nat)
    requires Accurate(share) && Servers(servers) && i <= |servers|
    ensures var total := TotalMemory(servers);
            (total * ACCURACY) * DigestsBelow(share, servers, i, total)
            <= (40 * |servers| * (ACCURACY + 1)) * TotalMemory(servers[..i])
  {
    if i > 0 {
      var total := TotalMemory(servers);
      SharesBelow(share, servers, i - 1);
      ShareIsNear(share, servers, i - 1);
      assert servers[..i][..i - 1] == servers[..i - 1];
      Distribute(total * ACCURACY, DigestsBelow(share, servers, i - 1, total),
                 share(servers[i - 1].memory, |servers|, total));
      Distribute(40 * |servers| * (ACCURACY + 1), TotalMemory(servers[..i - 1]), servers[i - 1].memory);
    }
  }

  lemma Distribute(x: int, y: int, z: int)
    ensures x * (y + z) == x * y + x * z
  {
  }

  lemma Scale(x: nat, y: nat, z: nat)
    ensures y <= z ==> x * y <= x * z
  {
  }

  /** The points never exceed 160 for every server, which is the size of the array. */
  lemma {:induction false} PointsFit(share: Share, servers: seq<ServerInfo>)
    requires Accurate(share) && Servers(servers)
    ensures 4 * DigestsBelow(share, servers, |servers|, TotalMemory(servers)) <= 160 * |servers|
  {
    var n, total := |servers|, TotalMemory(servers);
    var digests := DigestsBelow(share, servers, n, total);
    SharesBelow(share, servers, n);
    assert servers[..n] == servers;
    RoundingsAreSmall(total, digests, 40 * n);
  }

  /** Less than one digest, in all. */
  lemma {:induction false} RoundingsAreSmall(total: nat, digests: nat, all: nat)
    requires total > 0 && all < ACCURACY && (total * ACCURACY) * digests <= (all * (ACCURACY + 1)) * total
    ensures digests <= all
  {
    var x, y := ACCURACY * digests, all * (ACCURACY + 1);
    assert (total * ACCURACY) * digests == total * x;
    Cancel(total, x, y);
    assert x <= y < ACCURACY * (all + 1);
  }

  lemma {:induction false} Cancel(x: nat, y: nat, z: nat)
    requires x > 0 && x * y <= z * x
    ensures y <= z
  {
    Scale(x, z + 1, y);
    Distribute(x, z, 1);
    assert z * x == x * z;
  }

  lemma {:induction false} DigestsGrow(share: Share, servers: seq<ServerInfo>, i: nat, j: nat, total: nat)
    requires i <= j <= |servers|
    ensures DigestsBelow(share, servers, i, total) <= DigestsBelow(share, servers, j, total)
    decreases j
  {
    if i < j {
      DigestsGrow(share, servers, i, j - 1, total);
    }
  }

  type Digest = d: seq<byte> | |d| == 16 witness seq(16, _ => 0)

  /** The digest of a server's address and a number. */
  type Hash = (string, nat) -> Digest

  /** A digest is four numbers of four bytes. */
  function PointOf(hash: Hash, addr: string, k: nat, h: nat): nat
    requires h < 4
  {
    Load(hash(addr, k)[4 * h..4 * h + 4])
  }

  /** They are its bytes in order, the lowest one of each number first. */
  lemma FourNumbers(hash: Hash, addr: string, k: nat)
    ensures Store(PointOf(hash, addr, k, 0), 4) + Store(PointOf(hash, addr, k, 1), 4)
            + Store(PointOf(hash, addr, k, 2), 4) + Store(PointOf(hash, addr, k, 3), 4) == hash(addr, k)
  {
    NumberIn(hash, addr, k, 0, 0);
    NumberIn(hash, addr, k, 1, 4);
    NumberIn(hash, addr, k, 2, 8);
    NumberIn(hash, addr, k, 3, 12);
    Quarters(hash(addr, k), Store(PointOf(hash, addr, k, 0), 4), Store(PointOf(hash, addr, k, 1), 4),
             Store(PointOf(hash, addr, k, 2), 4), Store(PointOf(hash, addr, k, 3), 4));
  }

  lemma {:induction false} NumberIn(hash: Hash, addr: string, k: nat, h: nat, at: nat)
    requires h < 4 && at == 4 * h
    ensures at + 4 <= 16 && Store(PointOf(hash, addr, k, h), 4) == hash(addr, k)[at..at + 4]
  {
    LoadStore(hash(addr, k)[4 * h..4 * h + 4]);
  }

  lemma Quarters(d: seq<byte>, a: seq<byte>, b: seq<byte>, c: seq<byte>, e: seq<byte>)
    requires |d| == 16 && a == d[0..4] && b == d[4..8] && c == d[8..12] && e == d[12..16]
    ensures a + b + c + e == d
  {
  }

  /** The points of one server, in the order in which they are generated. */
  function PointsOf(hash: Hash, addr: string, n: nat): (p: seq<Point>)
    ensures |p| == n
  {
    if n == 0 then []
    else PointsOf(hash, addr, n - 1) + [Point(PointOf(hash, addr, (n - 1) / 4, (n - 1) % 4), addr)]
  }

  /** The points of the first `i` servers. */
  function AllPoints(hash: Hash, share: Share, servers: seq<ServerInfo>, i: nat, total: nat): (p: seq<Point>)
    requires i <= |servers|
    ensures |p| == 4 * DigestsBelow(share, servers, i, total)
  {
    if i == 0 then []
    else AllPoints(hash, share, servers, i - 1, total)
         + PointsOf(hash, servers[i - 1].addr, 4 * share(servers[i - 1].memory, |servers|, total))
  }

  /** A sort, in place of the library's. */
  function Insert(p: Point, ring: seq<Point>): seq<Point> {
    if ring == [] || p.point <= ring[0].point then [p] + ring else [ring[0]] + Insert(p, ring[1..])
  }

  function Sort(points: seq<Point>): seq<Point> {
    if points == [] then [] else Insert(points[0], Sort(points[1..]))
  }

  lemma {:induction false} InsertAdds(p: Point, ring: seq<Point>)
    ensures multiset(Insert(p, ring)) == multiset(ring) + multiset{p}
  {
    if ring != [] && p.point > ring[0].point {
      InsertAdds(p, ring[1..]);
      assert ring == [ring[0]] + ring[1..];
    }
  }

  lemma {:induction false} InsertKeepsOrder(p: Point, ring: seq<Point>)
    requires SortedPoints(ring)
    ensures SortedPoints(Insert(p, ring))
  {
    if ring != [] && p.point > ring[0].point {
      InsertKeepsOrder(p, ring[1..]);
      InsertAdds(p, ring[1..]);
      var rest := Insert(p, ring[1..]);
      forall i | 0 <= i < |rest|
        ensures ring[0].point <= rest[i].point
      {
        assert rest[i] in multiset(rest);
        assert rest[i] == p || rest[i] in ring[1..];
      }
    }
  }

  lemma {:induction false} SortSorts(points: seq<Point>)
    ensures SortedPoints(Sort(points)) && multiset(Sort(points)) == multiset(points)
  {
    if points != [] {
      SortSorts(points[1..]);
      InsertKeepsOrder(points[0], Sort(points[1..]));
      InsertAdds(points[0], Sort(points[1..]));
      assert points == [points[0]] + points[1..];
    }
  }

  lemma {:induction false} PointAt(hash: Hash, addr: string, n: nat, i: nat)
    requires i < n
    ensures PointsOf(hash, addr, n)[i] == Point(PointOf(hash, addr, i / 4, i % 4), addr)
  {
    if i < n - 1 {
      PointAt(hash, addr, n - 1, i);
    }
  }

  lemma {:induction false} PointIn(hash: Hash, addr: string, digests: nat, k: nat, h: nat)
    requires k < digests && h < 4
    ensures Point(PointOf(hash, addr, k, h), addr) in PointsOf(hash, addr, 4 * digests)
  {
    PointAt(hash, addr, 4 * digests, 4 * k + h);
  }

  /** A number of one of the digests of one of the servers. */
  ghost predicate Generated(hash: Hash, share: Share, servers: seq<ServerInfo>, n: nat, total: nat, p: Point)
    requires n <= |servers|
  {
    exists i, k, h ::
      && 0 <= i < n && 0 <= k < share(servers[i].memory, |servers|, total) && 0 <= h < 4
      && p == Point(PointOf(hash, servers[i].addr, k, h), servers[i].addr)
  }

  lemma {:induction false} OnlyGenerated(hash: Hash, share: Share, servers: seq<ServerInfo>, n: nat, total: nat,
                                         p: Point)
    requires n <= |servers| && p in AllPoints(hash, share, servers, n, total)
    ensures Generated(hash, share, servers, n, total, p)
  {
    var addr, ks := servers[n - 1].addr, share(servers[n - 1].memory, |servers|, total);
    var last := PointsOf(hash, addr, 4 * ks);
    if p in last {
      var i :| 0 <= i < 4 * ks && last[i] == p;
      PointAt(hash, addr, 4 * ks, i);
      var k, h := i / 4, i % 4;
      assert k < ks && p == Point(PointOf(hash, servers[n - 1].addr, k, h), servers[n - 1].addr);
    } else {
      OnlyGenerated(hash, share, servers, n - 1, total, p);
    }
  }

  lemma {:induction false} EveryGenerated(hash: Hash, share: Share, servers: seq<ServerInfo>, n: nat, total: nat,
                                          i: nat, k: nat, h: nat)
    requires i < n <= |servers| && k < share(servers[i].memory, |servers|, total) && h < 4
    ensures Point(PointOf(hash, servers[i].addr, k, h), servers[i].addr) in AllPoints(hash, share, servers, n, total)
    decreases n
  {
    if i == n - 1 {
      PointIn(hash, servers[i].addr, share(servers[i].memory, |servers|, total), k, h);
    } else {
      EveryGenerated(hash, share, servers, n - 1, total, i, k, h);
    }
  }

  /** Each of the four numbers of each digest of each server is a point, and there is no other. */
  lemma {:induction false} AllAreGenerated(hash: Hash, share: Share, servers: seq<ServerInfo>, n: nat, total: nat)
    requires n <= |servers|
    ensures forall p :: p in AllPoints(hash, share, servers, n, total) <==>
                        Generated(hash, share, servers, n, total, p)
  {
    forall p | p in AllPoints(hash, share, servers, n, total)
      ensures Generated(hash, share, servers, n, total, p)
    {
      OnlyGenerated(hash, share, servers, n, total, p);
    }
    forall p | Generated(hash, share, servers, n, total, p)
      ensures p in AllPoints(hash, share, servers, n, total)
    {
      var i, k, h :| 0 <= i < n && 0 <= k < share(servers[i].memory, |servers|, total) && 0 <= h < 4
                     && p == Point(PointOf(hash, servers[i].addr, k, h), servers[i].addr);
      EveryGenerated(hash, share, servers, n, total, i, k, h);
    }
  }

  /** The ring of these servers: sorted, between 156 points and 160 for each server, and with the points of all
      of them, each as often as it is generated, and no others. */
  ghost predicate Continuum(hash: Hash, share: Share, servers: seq<ServerInfo>, ring: seq<Point>) {
    && SortedPoints(ring) && 156 <= |ring| <= 160 * |servers| && TotalMemory(servers) >= 0
    && multiset(ring) == multiset(AllPoints(hash, share, servers, |servers|, TotalMemory(servers)))
    && forall p :: p in ring <==> Generated(hash, share, servers, |servers|, TotalMemory(servers), p)
  }

  /** ketama_create_continuum, from the servers to the sorted points. Every point is stored inside
      the array. */
  method CreateContinuum(hash: Hash, share: Share, servers: seq<ServerInfo>) returns (ring: seq<Point>)
    requires Accurate(share) && Servers(servers)
    ensures Continuum(hash, share, servers, ring)
  {
    PointsFit(share, servers);
    RingIsNotEmpty(share, servers);
    var points := Generate(hash, share, servers, TotalMemory(servers));
    ring := Sort(points);
    SortSorts(points);
    assert |multiset(ring)| == |ring| && |multiset(points)| == |points|;
    AllAreGenerated(hash, share, servers, |servers|, TotalMemory(servers));
    assert forall p :: p in ring <==> p in multiset(ring);
    assert forall p :: p in points <==> p in multiset(points);
  }

  /** The loops over the servers and their digests. */
  method Generate(hash: Hash, share: Share, servers: seq<ServerInfo>, total: nat) returns (points: seq<Point>)
    requires 4 * DigestsBelow(share, servers, |servers|, total) <= 160 * |servers|
    ensures points == AllPoints(hash, share, servers, |servers|, total)
  {
    var continuum := new Point[|servers| * 160](_ => Point(0, ""));
    var cont: nat := 0;
    for i := 0 to |servers|
      invariant cont <= continuum.Length && continuum[..cont] == AllPoints(hash, share, servers, i, total)
    {
      DigestsGrow(share, servers, i + 1, |servers|, total);
      cont := AddServer(hash, servers[i].addr, share(servers[i].memory, |servers|, total), continuum, cont);
    }
    points := continuum[..cont];
  }

  lemma {:induction false} PointsOfNext(hash: Hash, addr: string, k: nat, h: nat)
    requires h < 4
    ensures PointsOf(hash, addr, 4 * k + h + 1) ==
            PointsOf(hash, addr, 4 * k + h) + [Point(PointOf(hash, addr, k, h), addr)]
  {
    var n := 4 * k + h;
    assert n / 4 == k && n % 4 == h;
  }

  /** The four points of one digest. */
  method AddDigest(hash: Hash, addr: string, k: nat, continuum: array<Point>, cont0: nat, ghost before: seq<Point>)
    returns (cont: nat)
    requires cont0 + 4 <= continuum.Length && continuum[..cont0] == before + PointsOf(hash, addr, 4 * k)
    modifies continuum
    ensures cont == cont0 + 4 && continuum[..cont] == before + PointsOf(hash, addr, 4 * k + 4)
  {
    cont := cont0;
    for h := 0 to 4
      invariant cont == cont0 + h && continuum[..cont] == before + PointsOf(hash, addr, 4 * k + h)
    {
      PointsOfNext(hash, addr, k, h);
      ghost var so := continuum[..cont];
      continuum[cont] := Point(PointOf(hash, addr, k, h), addr);
      cont := cont + 1;
      assert continuum[..cont] == so + [Point(PointOf(hash, addr, k, h), addr)];
    }
  }

  /** The points of one server. */
  method AddServer(hash: Hash, addr: string, ks: nat, continuum: array<Point>, cont0: nat) returns (cont: nat)
    requires cont0 + 4 * ks <= continuum.Length
    modifies continuum
    ensures cont == cont0 + 4 * ks
    ensures continuum[..cont] == old(continuum[..cont0]) + PointsOf(hash, addr, 4 * ks)
  {
    cont := cont0;
    for k := 0 to ks
      invariant cont == cont0 + 4 * k
      invariant continuum[..cont] == old(continuum[..cont0]) + PointsOf(hash, addr, 4 * k)
    {
      cont := AddDigest(hash, addr, k, continuum, cont, old(continuum[..cont0]));
    }
  }

  /** Some server has at least the average share. */
  lemma {:induction false} SomeServerIsLarge(servers: seq<ServerInfo>, i: nat, n: nat, total: int)
    requires i <= |servers| && forall k :: 0 <= k < i ==> servers[k].memory * n < total
    ensures i > 0 ==> TotalMemory(servers[..i]) * n < total * i
  {
    if i > 0 {
      SomeServerIsLarge(servers, i - 1, n, total);
      assert servers[..i][..i - 1] == servers[..i - 1];
      Distribute(n, TotalMemory(servers[..i - 1]), servers[i - 1].memory);
      Distribute(total, i - 1, 1);
    }
  }

  /** So the ring is never empty: that server has at least 39 digests, with 156 points. */
  lemma {:induction false} RingIsNotEmpty(share: Share, servers: seq<ServerInfo>)
    requires Accurate(share) && Servers(servers)
    ensures DigestsBelow(share, servers, |servers|, TotalMemory(servers)) >= 39
  {
    var n, total := |servers|, TotalMemory(servers);
    assert servers[..n] == servers;
    if forall k :: 0 <= k < n ==> servers[k].memory * n < total {
      SomeServerIsLarge(servers, n, n, total);
    } else {
      var k :| 0 <= k < n && servers[k].memory * n >= total;
      ShareIsNear(share, servers, k);
      LargeShare(share(servers[k].memory, n, total), servers[k].memory, n, total);
      DigestsGrow(share, servers, k + 1, n, total);
    }
  }

  lemma {:induction false} LargeShare(k: nat, memory: nat, n: nat, total: nat)
    requires Near(k, memory, n, total) && total > 0 && memory * n >= total
    ensures k >= 39
  {
    var x := memory * n;
    assert (40 * n * (ACCURACY - 1)) * memory == (40 * (ACCURACY - 1)) * x;
    Scale(40 * (ACCURACY - 1), total, x);
    assert (total * ACCURACY) * (k + 1) == total * (ACCURACY * (k + 1));
    assert (40 * (ACCURACY - 1)) * total == total * (40 * (ACCURACY - 1));
    if ACCURACY * (k + 1) <= 40 * (ACCURACY - 1) {
      Scale(total, ACCURACY * (k + 1), 40 * (ACCURACY - 1));
    }
  }
}
