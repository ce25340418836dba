/** The whole protocol as a state machine: one pump, a group of engines that may crash between any
    two sends, any number of nuzzles, and connections that deliver in order. Subscriptions do not
    change during a run. What is guaranteed is guaranteed for the topics that have one consumer at a
    nuzzle; DisseminationExact shows that it fails for every other. */
module DisseminationRuns {
  import opened Dissemination

  /** The group: its engines, its nuzzles, the nuzzles that an engine lists for a topic, and the
      consumers that a nuzzle lists for a topic. */
  datatype Group = Group(size: nat, nuzzles: nat, nuzzlesOf: (nat, nat) -> seq<nat>,
                         consumersOf: (nat, nat) -> seq<nat>)

  /** What the subscription handlers bring about: an engine lists a nuzzle for a topic as often as
      the nuzzle lists a consumer for it. */
  ghost predicate Subscribed(g: Group) {
    && g.size >= 1
    && forall e, z, t :: 0 <= e < g.size && 0 <= z < g.nuzzles ==>
         Listings(g.nuzzlesOf(e, t), z) == |g.consumersOf(z, t)|
  }

  /** The nuzzle has received one subscription for the topic. */
  predicate Once(g: Group, z: nat, t: nat) {
    |g.consumersOf(z, t)| == 1
  }

  /** The state, and as history the requests the pump has numbered, how many of them each engine
      has stored, and how far nuzzle z has received from engine e, and has delivered, of the topics
      with one subscription. */
  datatype Sys = Sys(pump: PumpState, engines: seq<EngineState>, up: seq<bool>, nuzzles: seq<NuzzleState>,
                     published: seq<Request>, stored: seq<nat>, got: map<(nat, nat), nat>, delivered: seq<nat>)

  const NO_REQUEST := Request(0, 0, 0, "")
  const NO_STATE := EngineState(map[], [], NO_REQUEST, false, [], map[])

  function Start(g: Group): Sys {
    Sys(PumpState(0, NO_REQUEST, g.size, seq(g.size, _ => [])),
        seq(g.size, _ => NO_STATE), seq(g.size, _ => true),
        seq(g.nuzzles, _ => NuzzleState(map[], map[])),
        [], seq(g.size, _ => 0), map[], seq(g.nuzzles, _ => 0))
  }

  predicate Shaped(g: Group, s: Sys) {
    && |s.pump.out| == |s.engines| == |s.up| == |s.stored| == g.size
    && |s.nuzzles| == |s.delivered| == g.nuzzles
  }

  datatype Step =
    | Publish(r: Request)              // the pump numbers a request
    | SendPrepare                      // the pump sends it to the next engine
    | Prepare(e: nat)                  // engine e stores the next request
    | Confirm(e: nat)                  // engine e acknowledges it
    | Pass(e: nat)                     // engine e passes its request on to the next nuzzle
    | Receive(e: nat, z: nat)          // nuzzle z receives from engine e
    | Crash(e: nat)                    // engine e stops for good
    | Lose(e: nat, z: nat)             // the last thing a crashed engine had sent is lost

  /** The engine has finished with its request. */
  predicate Free(s: EngineState) {
    !s.unacked && s.remaining == []
  }

  predicate Enabled(g: Group, s: Sys, st: Step)
    requires Shaped(g, s)
  {
    match st
    case Publish(r) => s.pump.next == g.size
    case SendPrepare => s.pump.next < g.size
    case Prepare(e) => e < g.size && s.up[e] && Free(s.engines[e]) && s.pump.out[e] != []
    case Confirm(e) => e < g.size && s.up[e] && s.engines[e].unacked
    case Pass(e) => e < g.size && s.up[e] && !s.engines[e].unacked && s.engines[e].remaining != []
    case Receive(e, z) => e < g.size && z < g.nuzzles && Queue(s.engines[e].out, z) != []
    case Crash(e) => e < g.size && s.up[e]
    case Lose(e, z) => e < g.size && z < g.nuzzles && !s.up[e] && Queue(s.engines[e].out, z) != []
  }

  function Taken(s: EngineState, z: nat): EngineState
    requires Queue(s.out, z) != []
  {
    s.(out := s.out[z := Queue(s.out, z)[1..]])
  }

  function Lost(s: EngineState, z: nat): EngineState
    requires Queue(s.out, z) != []
  {
    s.(out := s.out[z := Queue(s.out, z)[..|Queue(s.out, z)| - 1]])
  }

  function Apply(g: Group, s: Sys, st: Step): Sys
    requires Shaped(g, s) && Enabled(g, s, st)
  {
    match st
    case Publish(r) =>
      var p := Accept(s.pump, r);
      s.(pump := p, published := s.published + [p.current])
    case SendPrepare =>
      s.(pump := SendNext(s.pump))
    case Prepare(e) =>
      var r := s.pump.out[e][0];
      s.(pump := s.pump.(out := s.pump.out[e := s.pump.out[e][1..]]),
         engines := s.engines[e := Store(s.engines[e], r, g.nuzzlesOf(e, r.topicId))],
         stored := s.stored[e := s.stored[e] + 1])
    case Confirm(e) =>
      s.(engines := s.engines[e := Acknowledge(s.engines[e])])
    case Pass(e) =>
      s.(engines := s.engines[e := Forward(s.engines[e])])
    case Receive(e, z) =>
      var r := Queue(s.engines[e].out, z)[0];
      var once := Once(g, z, r.topicId);
      var full := |VotesFor(s.nuzzles[z], KeyOf(r))| + 1 == Majority(g.size);
      s.(engines := s.engines[e := Taken(s.engines[e], z)],
         nuzzles := s.nuzzles[z := Count(s.nuzzles[z], g.size, g.consumersOf(z, r.topicId), e, r)],
         got := if once then s.got[(e, z) := r.globalId + 1] else s.got,
         delivered := if once && full then s.delivered[z := r.globalId + 1] else s.delivered)
    case Crash(e) =>
      s.(up := s.up[e := false])
    case Lose(e, z) =>
      s.(engines := s.engines[e := Lost(s.engines[e], z)])
  }

  ghost predicate Next(g: Group, s: Sys, s': Sys) {
    Shaped(g, s) && exists st :: Enabled(g, s, st) && s' == Apply(g, s, st)
  }

  /** A run: the states it goes through. */
  ghost predicate Run(g: Group, run: seq<Sys>) {
    run != [] && run[0] == Start(g) && forall i :: 0 < i < |run| ==> Next(g, run[i - 1], run[i])
  }

  // ---------------------------------------------------------------- parts of the published requests

  /** The requests from `a` to `b` that are wanted, in order. */
  ghost function Pick(pub: seq<Request>, a: nat, b: nat, wanted: Request -> bool): (p: seq<Request>)
    requires b <= |pub|
    decreases b
  {
    if b <= a then []
    else Pick(pub, a, b - 1, wanted) + if wanted(pub[b - 1]) then [pub[b - 1]] else []
  }

  /** The requests of topics with one subscription at nuzzle `z`. */
  ghost function ForNuzzle(g: Group, z: nat): Request -> bool {
    (r: Request) => Once(g, z, r.topicId)
  }

  /** Those that it delivers to consumer `c`. */
  ghost function ForConsumer(g: Group, z: nat, c: nat): Request -> bool {
    (r: Request) => Once(g, z, r.topicId) && c in g.consumersOf(z, r.topicId)
  }

  /** The wanted ones of a sequence. */
  ghost function Filter(q: seq<Request>, wanted: Request -> bool): seq<Request> {
    if q == [] then []
    else Filter(q[..|q| - 1], wanted) + if wanted(q[|q| - 1]) then [q[|q| - 1]] else []
  }

  lemma {:induction false} FilterSplit(a: seq<Request>, b: seq<Request>, wanted: Request -> bool)
    ensures Filter(a + b, wanted) == Filter(a, wanted) + Filter(b, wanted)
    decreases |b|
  {
    if b == [] {
      assert a + b == a;
    } else {
      assert (a + b)[..|a + b| - 1] == a + b[..|b| - 1];
      FilterSplit(a, b[..|b| - 1], wanted);
    }
  }

  /** A queue is its head and what follows. */
  lemma {:induction false} FilterHead(q: seq<Request>, wanted: Request -> bool)
    requires q != []
    ensures Filter(q, wanted) == (if wanted(q[0]) then [q[0]] else []) + Filter(q[1..], wanted)
  {
    assert q == [q[0]] + q[1..];
    assert [q[0]][..0] == [];
    FilterSplit([q[0]], q[1..], wanted);
  }

  lemma {:induction false} FilterOfWanted(q: seq<Request>, wanted: Request -> bool)
    ensures (forall r :: r in q ==> wanted(r)) ==> Filter(q, wanted) == q
    ensures (forall r :: r in q ==> !wanted(r)) ==> Filter(q, wanted) == []
    ensures forall r :: r in Filter(q, wanted) <==> r in q && wanted(r)
  {
    if q != [] {
      FilterOfWanted(q[..|q| - 1], wanted);
      assert q == q[..|q| - 1] + [q[|q| - 1]];
    }
  }

  ghost predicate Numbered(pub: seq<Request>) {
    forall i :: 0 <= i < |pub| ==> pub[i].globalId == i
  }

  lemma {:induction false} PickGrows(pub: seq<Request>, pub': seq<Request>, a: nat, b: nat, wanted: Request -> bool)
    requires b <= |pub| && pub <= pub'
    ensures Pick(pub', a, b, wanted) == Pick(pub, a, b, wanted)
    decreases b
  {
    if b > a {
      PickGrows(pub, pub', a, b - 1, wanted);
    }
  }

  /** The first of the wanted requests. */
  lemma {:induction false} PickHead(pub: seq<Request>, a: nat, b: nat, wanted: Request -> bool)
    requires Numbered(pub) && b <= |pub| && Pick(pub, a, b, wanted) != []
    ensures var j := Pick(pub, a, b, wanted)[0].globalId;
            && a <= j < b && wanted(pub[j]) && Pick(pub, a, b, wanted) == [pub[j]] + Pick(pub, j + 1, b, wanted)
            && forall i :: a <= i < j ==> !wanted(pub[i])
    decreases b
  {
    var front := Pick(pub, a, b - 1, wanted);
    var end := if wanted(pub[b - 1]) then [pub[b - 1]] else [];
    assert Pick(pub, a, b, wanted) == front + end;
    if front != [] {
      PickHead(pub, a, b - 1, wanted);
      var j := front[0].globalId;
      assert Pick(pub, j + 1, b, wanted) == Pick(pub, j + 1, b - 1, wanted) + end;
    } else {
      PickNothing(pub, a, b - 1, wanted);
      assert Pick(pub, b, b, wanted) == [];
    }
  }

  lemma {:induction false} PickNothing(pub: seq<Request>, a: nat, b: nat, wanted: Request -> bool)
    requires b <= |pub|
    ensures Pick(pub, a, b, wanted) == [] <==> forall i :: a <= i < b ==> !wanted(pub[i])
    decreases b
  {
    if b > a {
      PickNothing(pub, a, b - 1, wanted);
      var front := Pick(pub, a, b - 1, wanted);
      if wanted(pub[b - 1]) {
        assert Pick(pub, a, b, wanted) == front + [pub[b - 1]] != [];
      } else {
        assert Pick(pub, a, b, wanted) == front;
      }
    }
  }

  /** Skipping what is not wanted. */
  lemma {:induction false} PickSkips(pub: seq<Request>, a: nat, m: nat, b: nat, wanted: Request -> bool)
    requires a <= m <= b <= |pub| && forall i :: m <= i < b ==> !wanted(pub[i])
    ensures Pick(pub, a, b, wanted) == Pick(pub, a, m, wanted)
    decreases b
  {
    if b > m {
      PickSkips(pub, a, m, b - 1, wanted);
    }
  }

  /** The buffer of an engine that has stored the first `n` requests. */
  ghost function Stored(pub: seq<Request>, n: nat): map<Key, Request>
    requires n <= |pub|
  {
    if n == 0 then map[] else Stored(pub, n - 1)[KeyOf(pub[n - 1]) := pub[n - 1]]
  }

  lemma {:induction false} StoredGrows(pub: seq<Request>, pub': seq<Request>, n: nat)
    requires n <= |pub| && pub <= pub'
    ensures Stored(pub', n) == Stored(pub, n)
  {
    if n > 0 {
      StoredGrows(pub, pub', n - 1);
    }
  }

  /** It holds exactly those requests. */
  lemma {:induction false} StoredHolds(pub: seq<Request>, n: nat)
    requires n <= |pub| && Numbered(pub)
    ensures forall i :: 0 <= i < n ==> KeyOf(pub[i]) in Stored(pub, n) && Stored(pub, n)[KeyOf(pub[i])] == pub[i]
    ensures forall k :: k in Stored(pub, n) ==> k.1 < n && k == KeyOf(pub[k.1])
  {
    if n > 0 {
      StoredHolds(pub, n - 1);
    }
  }

  // ---------------------------------------------------------------- the invariant

  ghost predicate PumpOk(g: Group, p: PumpState, pub: seq<Request>) {
    && p.seed == |pub| % U64_SIZE && p.next <= g.size
    && (p.next < g.size ==> pub != [] && p.current == pub[|pub| - 1])
    && Numbered(pub)
  }

  /** How many requests the pump has sent to engine `e`. */
  ghost function Sent(p: PumpState, pub: seq<Request>, e: nat): int {
    if e < p.next then |pub| else |pub| - 1
  }

  ghost predicate EngineOk(g: Group, e: nat, s: EngineState, stored: nat, inbound: seq<Request>, pub: seq<Request>,
                           sent: int) {
    && stored <= sent <= |pub| && inbound == pub[stored..sent] && s.buffer == Stored(pub, stored)
    && (!Free(s) ==> stored > 0 && s.current == pub[stored - 1])
    && (s.remaining != [] ==>
          forall z :: Listings(s.remaining, z) <= Listings(g.nuzzlesOf(e, s.current.topicId), z))
  }

  /** How far the engine is with nuzzle `z`. */
  ghost function Passed(s: EngineState, stored: nat, z: nat): int {
    if z in s.remaining then stored - 1 else stored
  }

  /** On the way from an engine to nuzzle `z` is what the engine has passed on and `z` has not
      received; of a crashed engine the end of it may be lost. */
  ghost predicate LinkOk(g: Group, s: EngineState, up: bool, stored: nat, pub: seq<Request>, got: nat, z: nat)
    requires stored <= |pub|
  {
    && got <= Passed(s, stored, z)
    && var due := Pick(pub, got, Passed(s, stored, z), ForNuzzle(g, z));
       var queued := Filter(Queue(s.out, z), ForNuzzle(g, z));
       if up then queued == due else queued <= due
  }

  ghost function Got(got: map<(nat, nat), nat>, e: nat, z: nat): nat {
    if (e, z) in got then got[(e, z)] else 0
  }

  /** The engines from which nuzzle `z` has received request `i`. */
  ghost function Voters(g: Group, got: map<(nat, nat), nat>, z: nat, i: nat): set<nat> {
    set e | 0 <= e < g.size && Got(got, e, z) > i
  }

  ghost predicate Lists(l: seq<nat>, v: set<nat>) {
    |l| == |v| && forall x :: x in l <==> x in v
  }

  /** What nuzzle `z` remembers of request `r`, which is number `i`: its voters, from the first to
      the last but one; and it has delivered `r` when they are a majority. */
  ghost predicate Counted(g: Group, n: NuzzleState, z: nat, r: Request, i: nat, got: map<(nat, nat), nat>,
                          delivered: nat) {
    var v := Voters(g, got, z, i);
    && (KeyOf(r) in n.buffer <==> 1 <= |v| < g.size)
    && (KeyOf(r) in n.buffer ==> Lists(n.buffer[KeyOf(r)], v))
    && (i < delivered <==> 2 * |v| > g.size)
  }

  ghost predicate NuzzleOk(g: Group, n: NuzzleState, z: nat, pub: seq<Request>, got: map<(nat, nat), nat>,
                           delivered: nat) {
    && delivered <= |pub|
    && (forall k :: k in n.buffer && Once(g, z, k.0) ==> k.1 < |pub| && k == KeyOf(pub[k.1]))
    && (forall i :: 0 <= i < |pub| && ForNuzzle(g, z)(pub[i]) ==> Counted(g, n, z, pub[i], i, got, delivered))
    && forall c :: InboxOk(g, Queue(n.out, c), z, pub, delivered, c)
  }

  /** A consumer has been sent the delivered requests it has subscribed to, and possibly others of
      topics with several subscriptions. */
  ghost predicate InboxOk(g: Group, q: seq<Request>, z: nat, pub: seq<Request>, delivered: nat, c: nat)
    requires delivered <= |pub|
  {
    && Filter(q, ForNuzzle(g, z)) == Pick(pub, 0, delivered, ForConsumer(g, z, c))
    && forall r :: r in q ==> c in g.consumersOf(z, r.topicId)
  }

  ghost predicate Links(g: Group, s: Sys, e: nat)
    requires Shaped(g, s) && e < g.size && s.stored[e] <= |s.published|
  {
    forall z :: 0 <= z < g.nuzzles ==>
      LinkOk(g, s.engines[e], s.up[e], s.stored[e], s.published, Got(s.got, e, z), z)
  }

  ghost predicate EngineFits(g: Group, s: Sys, e: nat)
    requires Shaped(g, s) && e < g.size
  {
    EngineOk(g, e, s.engines[e], s.stored[e], s.pump.out[e], s.published, Sent(s.pump, s.published, e))
  }

  ghost predicate Engines(g: Group, s: Sys)
    requires Shaped(g, s)
  {
    forall e :: 0 <= e < g.size ==>
      EngineFits(g, s, e) && Links(g, s, e)
  }

  ghost predicate Nuzzles(g: Group, s: Sys)
    requires Shaped(g, s)
  {
    forall z :: 0 <= z < g.nuzzles ==> NuzzleOk(g, s.nuzzles[z], z, s.published, s.got, s.delivered[z])
  }

  /** What every state of a run satisfies, as long as no number has been given twice. */
  ghost predicate Inv(g: Group, s: Sys) {
    && Shaped(g, s)
    && (|s.published| <= U64_SIZE ==> PumpOk(g, s.pump, s.published) && Engines(g, s) && Nuzzles(g, s))
  }

  lemma {:induction false} StartKeeps(g: Group)
    requires Subscribed(g)
    ensures Inv(g, Start(g))
  {
    forall z: nat, i: nat
      ensures Voters(g, map[], z, i) == {}
    {
    }
  }

  // ---------------------------------------------------------------- the steps of the pump

  lemma EngineGrows(g: Group, e: nat, s: EngineState, up: bool, stored: nat, inbound: seq<Request>,
                    pub: seq<Request>, sent: int, pub': seq<Request>)
    requires EngineOk(g, e, s, stored, inbound, pub, sent) && pub <= pub'
    ensures EngineOk(g, e, s, stored, inbound, pub', sent)
    ensures forall got, z :: LinkOk(g, s, up, stored, pub, got, z) ==> LinkOk(g, s, up, stored, pub', got, z)
  {
    StoredGrows(pub, pub', stored);
    assert pub'[stored..sent] == pub[stored..sent];
    forall got, z | LinkOk(g, s, up, stored, pub, got, z)
      ensures LinkOk(g, s, up, stored, pub', got, z)
    {
      PickGrows(pub, pub', got, Passed(s, stored, z), ForNuzzle(g, z));
    }
  }

  lemma NuzzleGrows(g: Group, n: NuzzleState, z: nat, pub: seq<Request>, got: map<(nat, nat), nat>,
                    delivered: nat, r: Request)
    requires NuzzleOk(g, n, z, pub, got, delivered) && r.globalId == |pub| && g.size >= 1
    requires forall e :: 0 <= e < g.size ==> Got(got, e, z) <= |pub|
    ensures NuzzleOk(g, n, z, pub + [r], got, delivered)
  {
    assert Voters(g, got, z, |pub|) == {};
    forall c
      ensures InboxOk(g, Queue(n.out, c), z, pub + [r], delivered, c)
    {
      assert InboxOk(g, Queue(n.out, c), z, pub, delivered, c);
      PickGrows(pub, pub + [r], 0, delivered, ForConsumer(g, z, c));
    }
  }

  lemma PublishKeepsEngines(g: Group, s: Sys, r: Request)
    requires Shaped(g, s) && Engines(g, s) && Enabled(g, s, Publish(r))
    ensures Engines(g, Apply(g, s, Publish(r)))
  {
    var s' := Apply(g, s, Publish(r));
    forall e | 0 <= e < g.size
      ensures EngineFits(g, s', e)
      ensures Links(g, s', e)
    {
      assert EngineFits(g, s, e) && Links(g, s, e);
      EngineGrows(g, e, s.engines[e], s.up[e], s.stored[e], s.pump.out[e], s.published, |s.published|, s'.published);
    }
  }

  lemma PublishKeepsNuzzles(g: Group, s: Sys, r: Request, req: Request)
    requires Subscribed(g) && Shaped(g, s) && Engines(g, s) && Nuzzles(g, s) && Enabled(g, s, Publish(r))
    requires req == Accept(s.pump, r).current && req.globalId == |s.published|
    ensures Nuzzles(g, Apply(g, s, Publish(r)))
  {
    var s' := Apply(g, s, Publish(r));
    forall z | 0 <= z < g.nuzzles
      ensures NuzzleOk(g, s'.nuzzles[z], z, s'.published, s'.got, s'.delivered[z])
    {
      forall e | 0 <= e < g.size
        ensures Got(s.got, e, z) <= |s.published|
      {
        assert EngineFits(g, s, e) && Links(g, s, e);
      }
      NuzzleGrows(g, s.nuzzles[z], z, s.published, s.got, s.delivered[z], req);
    }
  }

  lemma PublishKeeps(g: Group, s: Sys, r: Request)
    requires Subscribed(g) && Inv(g, s) && Enabled(g, s, Publish(r))
    ensures Inv(g, Apply(g, s, Publish(r)))
  {
    if |s.published| + 1 <= U64_SIZE {
      PublishKeepsEngines(g, s, r);
      PublishKeepsNuzzles(g, s, r, Accept(s.pump, r).current);
    }
  }

  lemma {:induction false} SendPrepareKeeps(g: Group, s: Sys)
    requires Subscribed(g) && Inv(g, s) && Enabled(g, s, SendPrepare)
    ensures Inv(g, Apply(g, s, SendPrepare))
  {
    var s' := Apply(g, s, SendPrepare);
    if |s'.published| <= U64_SIZE {
      forall e | 0 <= e < g.size
        ensures EngineFits(g, s', e)
        ensures Links(g, s', e)
      {
        assert EngineFits(g, s, e) && Links(g, s, e);
      }
      assert Nuzzles(g, s);
    }
  }

  // ---------------------------------------------------------------- the steps of an engine

  lemma {:induction false} PrepareEngine(g: Group, e: nat, s: EngineState, stored: nat, inbound: seq<Request>,
                                         pub: seq<Request>, sent: int)
    requires EngineOk(g, e, s, stored, inbound, pub, sent) && inbound != []
    ensures stored < |pub| && inbound[0] == pub[stored]
    ensures EngineOk(g, e, Store(s, inbound[0], g.nuzzlesOf(e, inbound[0].topicId)), stored + 1, inbound[1..], pub,
                     sent)
  {
    assert Stored(pub, stored + 1) == Stored(pub, stored)[KeyOf(pub[stored]) := pub[stored]];
  }

  lemma PrepareLink(g: Group, e: nat, s: EngineState, stored: nat, pub: seq<Request>, got: nat, z: nat)
    requires Subscribed(g) && e < g.size && z < g.nuzzles
    requires stored < |pub| && s.remaining == [] && LinkOk(g, s, true, stored, pub, got, z)
    ensures LinkOk(g, Store(s, pub[stored], g.nuzzlesOf(e, pub[stored].topicId)), true, stored + 1, pub, got, z)
  {
    var s' := Store(s, pub[stored], g.nuzzlesOf(e, pub[stored].topicId));
    var listed := Listings(s'.remaining, z);
    assert listed == |g.consumersOf(z, pub[stored].topicId)| && Passed(s, stored, z) == stored;
    if listed == 0 {
      assert Passed(s', stored + 1, z) == stored + 1;
      PickSkips(pub, got, stored, stored + 1, ForNuzzle(g, z));
    } else {
      assert Passed(s', stored + 1, z) == stored;
    }
  }

  lemma {:induction false} PrepareKeeps(g: Group, s: Sys, e: nat)
    requires Subscribed(g) && Inv(g, s) && Enabled(g, s, Prepare(e))
    ensures Inv(g, Apply(g, s, Prepare(e)))
  {
    if |s.published| <= U64_SIZE {
      PrepareKeepsEngines(g, s, e);
      assert Nuzzles(g, s);
    }
  }

  lemma {:induction false} PrepareKeepsEngines(g: Group, s: Sys, e: nat)
    requires Subscribed(g) && Shaped(g, s) && Engines(g, s) && Enabled(g, s, Prepare(e))
    ensures Engines(g, Apply(g, s, Prepare(e)))
  {
    var s' := Apply(g, s, Prepare(e));
    assert EngineFits(g, s, e) && Links(g, s, e);
    PrepareEngine(g, e, s.engines[e], s.stored[e], s.pump.out[e], s.published, Sent(s.pump, s.published, e));
    forall z | 0 <= z < g.nuzzles
      ensures LinkOk(g, s'.engines[e], s'.up[e], s'.stored[e], s'.published, Got(s'.got, e, z), z)
    {
      PrepareLink(g, e, s.engines[e], s.stored[e], s.published, Got(s.got, e, z), z);
    }
    OtherEnginesStay(g, s, s', e);
  }

  /** Engines that a step does not touch. */
  lemma {:induction false} OtherEnginesStay(g: Group, s: Sys, s': Sys, e: nat)
    requires Shaped(g, s) && Shaped(g, s') && Engines(g, s) && e < g.size
    requires s'.published == s.published && s'.pump.next == s.pump.next
    requires forall i, z :: i != e ==> Got(s'.got, i, z) == Got(s.got, i, z)
    requires forall i :: 0 <= i < g.size && i != e ==>
               && s'.engines[i] == s.engines[i] && s'.up[i] == s.up[i] && s'.stored[i] == s.stored[i]
               && s'.pump.out[i] == s.pump.out[i]
    requires EngineFits(g, s', e) && Links(g, s', e)
    ensures Engines(g, s')
  {
    forall i | 0 <= i < g.size
      ensures EngineFits(g, s', i)
      ensures Links(g, s', i)
    {
      assert EngineFits(g, s, i) && Links(g, s, i);
    }
  }

  /** What passing on to the head of the list changes for a nuzzle: its queue, and how far the
      engine is with it. */
  lemma {:induction false} ForwardChanges(s: EngineState, stored: nat, z: nat)
    requires !s.unacked && s.remaining != []
    ensures Queue(Forward(s).out, z) == Queue(s.out, z) + if s.remaining[0] == z then [s.current] else []
    ensures s.remaining[0] != z ==> Passed(Forward(s), stored, z) == Passed(s, stored, z)
    ensures s.remaining[0] == z ==> Passed(s, stored, z) == stored - 1
    ensures s.remaining[0] == z && Listings(s.remaining, z) == 1 ==> Passed(Forward(s), stored, z) == stored
  {
    assert Listings(s.remaining, z) == Listings(s.remaining[1..], z) + if s.remaining[0] == z then 1 else 0;
  }

  lemma PassedOn(pub: seq<Request>, got: nat, stored: nat, q: seq<Request>, wanted: Request -> bool)
    requires got < stored <= |pub| && Filter(q, wanted) == Pick(pub, got, stored - 1, wanted)
    ensures Filter(q + [pub[stored - 1]], wanted) == Pick(pub, got, stored, wanted)
    ensures !wanted(pub[stored - 1]) ==> Pick(pub, got, stored, wanted) == Pick(pub, got, stored - 1, wanted)
  {
    assert (q + [pub[stored - 1]])[..|q|] == q;
  }

  lemma {:induction false} PassLink(g: Group, e: nat, s: EngineState, stored: nat, pub: seq<Request>, got: nat, z: nat)
    requires Subscribed(g) && e < g.size && z < g.nuzzles
    requires 0 < stored <= |pub| && !s.unacked && s.remaining != [] && s.current == pub[stored - 1]
    requires Listings(s.remaining, z) <= Listings(g.nuzzlesOf(e, s.current.topicId), z)
    requires LinkOk(g, s, true, stored, pub, got, z)
    ensures LinkOk(g, Forward(s), true, stored, pub, got, z)
  {
    ForwardChanges(s, stored, z);
    if s.remaining[0] == z {
      PassedOn(pub, got, stored, Queue(s.out, z), ForNuzzle(g, z));
      assert Passed(Forward(s), stored, z) == stored || !ForNuzzle(g, z)(s.current) by {
        assert Listings(s.remaining, z) <= |g.consumersOf(z, s.current.topicId)|;
      }
      assert Passed(Forward(s), stored, z) == stored || Passed(Forward(s), stored, z) == stored - 1;
    }
  }

  lemma {:induction false} ConfirmKeeps(g: Group, s: Sys, e: nat)
    requires Subscribed(g) && Inv(g, s) && Enabled(g, s, Confirm(e))
    ensures Inv(g, Apply(g, s, Confirm(e)))
  {
    var s' := Apply(g, s, Confirm(e));
    if |s'.published| <= U64_SIZE {
      assert EngineFits(g, s, e) && Links(g, s, e);
      forall z | 0 <= z < g.nuzzles
        ensures LinkOk(g, s'.engines[e], s'.up[e], s'.stored[e], s'.published, Got(s'.got, e, z), z)
      {
      }
      OtherEnginesStay(g, s, s', e);
      assert Nuzzles(g, s);
    }
  }

  lemma {:induction false} PassKeeps(g: Group, s: Sys, e: nat)
    requires Subscribed(g) && Inv(g, s) && Enabled(g, s, Pass(e))
    ensures Inv(g, Apply(g, s, Pass(e)))
  {
    var s' := Apply(g, s, Pass(e));
    if |s'.published| <= U64_SIZE {
      var t := s.engines[e];
      assert EngineFits(g, s, e) && Links(g, s, e);
      assert forall z :: Listings(t.remaining[1..], z) <= Listings(t.remaining, z);
      forall z | 0 <= z < g.nuzzles
        ensures LinkOk(g, s'.engines[e], s'.up[e], s'.stored[e], s'.published, Got(s'.got, e, z), z)
      {
        PassLink(g, e, t, s.stored[e], s.published, Got(s.got, e, z), z);
      }
      OtherEnginesStay(g, s, s', e);
      assert Nuzzles(g, s);
    }
  }

  lemma {:induction false} CrashKeeps(g: Group, s: Sys, e: nat)
    requires Subscribed(g) && Inv(g, s) && Enabled(g, s, Crash(e))
    ensures Inv(g, Apply(g, s, Crash(e)))
  {
    var s' := Apply(g, s, Crash(e));
    if |s'.published| <= U64_SIZE {
      assert EngineFits(g, s, e) && Links(g, s, e);
      OtherEnginesStay(g, s, s', e);
      assert Nuzzles(g, s);
    }
  }

  lemma LoseLink(g: Group, s: EngineState, stored: nat, pub: seq<Request>, got: nat, z: nat, y: nat)
    requires stored <= |pub| && LinkOk(g, s, false, stored, pub, got, y) && Queue(s.out, z) != []
    ensures LinkOk(g, Lost(s, z), false, stored, pub, got, y)
  {
    if y == z {
      var q := Queue(s.out, z);
      assert Filter(q[..|q| - 1], ForNuzzle(g, z)) <= Filter(q, ForNuzzle(g, z));
    }
  }

  lemma {:induction false} LoseKeeps(g: Group, s: Sys, e: nat, z: nat)
    requires Subscribed(g) && Inv(g, s) && Enabled(g, s, Lose(e, z))
    ensures Inv(g, Apply(g, s, Lose(e, z)))
  {
    var s' := Apply(g, s, Lose(e, z));
    if |s'.published| <= U64_SIZE {
      assert EngineFits(g, s, e) && Links(g, s, e);
      forall y | 0 <= y < g.nuzzles
        ensures LinkOk(g, s'.engines[e], s'.up[e], s'.stored[e], s'.published, Got(s'.got, e, y), y)
      {
        LoseLink(g, s.engines[e], s.stored[e], s.published, Got(s.got, e, y), z, y);
      }
      OtherEnginesStay(g, s, s', e);
      assert Nuzzles(g, s);
    }
  }

  // ---------------------------------------------------------------- the step of a nuzzle

  lemma {:induction false} BoundedSet(v: set<nat>, n: nat)
    requires forall x :: x in v ==> x < n
    ensures |v| <= n
  {
    if n == 0 {
      assert v == {};
    } else {
      BoundedSet(v - {n - 1}, n - 1);
    }
  }

  lemma SubsetIsSmaller(a: set<nat>, b: set<nat>)
    requires a <= b
    ensures |a| <= |b|
  {
    assert b == a + (b - a);
  }

  /** A vote for request `j` is a new one. */
  lemma NewVote(g: Group, got: map<(nat, nat), nat>, z: nat, e: nat, j: nat)
    requires e < g.size && Got(got, e, z) <= j
    ensures var v := Voters(g, got, z, j);
            e !in v && Voters(g, got[(e, z) := j + 1], z, j) == v + {e} && |v| < g.size
  {
    var v := Voters(g, got, z, j);
    var v' := Voters(g, got[(e, z) := j + 1], z, j);
    assert forall x :: x in v' <==> x == e || x in v;
    assert v' == v + {e};
    BoundedSet(v', g.size);
  }

  /** The only votes that it changes are for requests that the nuzzle does not want. */
  lemma {:induction false} OldVotes(g: Group, got: map<(nat, nat), nat>, z: nat, e: nat, j: nat, i: nat)
    requires e < g.size && Got(got, e, z) <= j && (i > j || i < Got(got, e, z))
    ensures Voters(g, got[(e, z) := j + 1], z, i) == Voters(g, got, z, i)
  {
    assert forall x :: x in Voters(g, got[(e, z) := j + 1], z, i) <==> x in Voters(g, got, z, i);
  }

  /** Earlier requests have no fewer voters. */
  lemma EarlierVoters(g: Group, got: map<(nat, nat), nat>, z: nat, i: nat, j: nat)
    requires i <= j
    ensures |Voters(g, got, z, j)| <= |Voters(g, got, z, i)|
  {
    SubsetIsSmaller(Voters(g, got, z, j), Voters(g, got, z, i));
  }

  /** Request `j` is the one that nuzzle `z` receives next from engine `e`. */
  ghost predicate Arrives(g: Group, z: nat, pub: seq<Request>, got: map<(nat, nat), nat>, e: nat, j: nat) {
    && Numbered(pub) && e < g.size && j < |pub| && ForNuzzle(g, z)(pub[j]) && Got(got, e, z) <= j
    && forall i :: Got(got, e, z) <= i < j ==> !ForNuzzle(g, z)(pub[i])
  }

  /** The votes that the nuzzle finds for it are those it has really received. */
  lemma VotesAreVoters(g: Group, n: NuzzleState, z: nat, pub: seq<Request>, got: map<(nat, nat), nat>,
                       delivered: nat, e: nat, j: nat)
    requires NuzzleOk(g, n, z, pub, got, delivered) && Arrives(g, z, pub, got, e, j)
    ensures Lists(VotesFor(n, KeyOf(pub[j])), Voters(g, got, z, j))
    ensures Lists(VotesFor(n, KeyOf(pub[j])) + [e], Voters(g, got[(e, z) := j + 1], z, j))
  {
    assert Counted(g, n, z, pub[j], j, got, delivered);
    NewVote(g, got, z, e, j);
  }

  ghost function Delivered(g: Group, votes: nat, j: nat, delivered: nat): nat {
    if votes == Majority(g.size) then j + 1 else delivered
  }

  /** The request itself is counted after the vote as it should be. */
  lemma CountedNow(g: Group, n: NuzzleState, z: nat, pub: seq<Request>, got: map<(nat, nat), nat>, delivered: nat,
                   e: nat, j: nat, consumers: seq<nat>)
    requires NuzzleOk(g, n, z, pub, got, delivered) && Arrives(g, z, pub, got, e, j)
    ensures Counted(g, Count(n, g.size, consumers, e, pub[j]), z, pub[j], j, got[(e, z) := j + 1],
                    Delivered(g, |VotesFor(n, KeyOf(pub[j]))| + 1, j, delivered))
  {
    assert Counted(g, n, z, pub[j], j, got, delivered);
    VotesAreVoters(g, n, z, pub, got, delivered, e, j);
    NewVote(g, got, z, e, j);
  }

  /** And so are the others. */
  lemma CountedStill(g: Group, n: NuzzleState, z: nat, pub: seq<Request>, got: map<(nat, nat), nat>, delivered: nat,
                     e: nat, j: nat, consumers: seq<nat>, i: nat)
    requires NuzzleOk(g, n, z, pub, got, delivered) && Arrives(g, z, pub, got, e, j)
    requires i < |pub| && i != j && ForNuzzle(g, z)(pub[i])
    ensures Counted(g, Count(n, g.size, consumers, e, pub[j]), z, pub[i], i, got[(e, z) := j + 1],
                    Delivered(g, |VotesFor(n, KeyOf(pub[j]))| + 1, j, delivered))
  {
    var n' := Count(n, g.size, consumers, e, pub[j]);
    assert KeyOf(pub[i]) != KeyOf(pub[j]);
    assert KeyOf(pub[i]) in n'.buffer <==> KeyOf(pub[i]) in n.buffer;
    assert KeyOf(pub[i]) in n.buffer ==> n'.buffer[KeyOf(pub[i])] == n.buffer[KeyOf(pub[i])];
    OldVotes(g, got, z, e, j, i);
    assert Counted(g, n, z, pub[i], i, got, delivered);
    if |VotesFor(n, KeyOf(pub[j]))| + 1 == Majority(g.size) {
      DeliveredUpTo(g, n, z, pub, got, delivered, e, j, i);
    }
  }

  /** With a majority for request `j`, the earlier ones have one too, and the later ones do not. */
  lemma DeliveredUpTo(g: Group, n: NuzzleState, z: nat, pub: seq<Request>, got: map<(nat, nat), nat>, delivered: nat,
                      e: nat, j: nat, i: nat)
    requires NuzzleOk(g, n, z, pub, got, delivered) && Arrives(g, z, pub, got, e, j)
    requires |VotesFor(n, KeyOf(pub[j]))| + 1 == Majority(g.size)
    requires i < |pub| && i != j && ForNuzzle(g, z)(pub[i])
    ensures 2 * |Voters(g, got, z, i)| > g.size <==> i < j + 1
  {
    VotesAreVoters(g, n, z, pub, got, delivered, e, j);
    NewVote(g, got, z, e, j);
    if i < j {
      OldVotes(g, got, z, e, j, i);
      EarlierVoters(g, got[(e, z) := j + 1], z, i, j);
    } else {
      EarlierVoters(g, got, z, j, i);
    }
  }

  /** A request is delivered in its place: right behind what has been delivered before. */
  lemma DeliveredInOrder(g: Group, n: NuzzleState, z: nat, pub: seq<Request>, got: map<(nat, nat), nat>,
                         delivered: nat, e: nat, j: nat)
    requires NuzzleOk(g, n, z, pub, got, delivered) && Arrives(g, z, pub, got, e, j)
    requires |VotesFor(n, KeyOf(pub[j]))| + 1 == Majority(g.size)
    ensures delivered <= j && forall i :: delivered <= i < j ==> !ForNuzzle(g, z)(pub[i])
  {
    assert Counted(g, n, z, pub[j], j, got, delivered);
    VotesAreVoters(g, n, z, pub, got, delivered, e, j);
    NewVote(g, got, z, e, j);
    forall i | delivered <= i < j
      ensures !ForNuzzle(g, z)(pub[i])
    {
      if ForNuzzle(g, z)(pub[i]) {
        assert Counted(g, n, z, pub[i], i, got, delivered);
        DeliveredUpTo(g, n, z, pub, got, delivered, e, j, i);
      }
    }
  }

  lemma PlaceOfDelivery(g: Group, z: nat, c: nat, pub: seq<Request>, delivered: nat, j: nat)
    requires delivered <= j < |pub| && ForNuzzle(g, z)(pub[j])
    requires forall i :: delivered <= i < j ==> !ForNuzzle(g, z)(pub[i])
    ensures Pick(pub, 0, j + 1, ForConsumer(g, z, c)) ==
            Pick(pub, 0, delivered, ForConsumer(g, z, c)) + if ForConsumer(g, z, c)(pub[j]) then [pub[j]] else []
  {
    assert forall i :: delivered <= i < j ==> !ForConsumer(g, z, c)(pub[i]);
    PickSkips(pub, 0, delivered, j, ForConsumer(g, z, c));
  }

  /** And to those consumers that have subscribed to it. */
  lemma DeliveredToConsumers(g: Group, n: NuzzleState, z: nat, pub: seq<Request>, got: map<(nat, nat), nat>,
                             delivered: nat, e: nat, j: nat, c: nat)
    requires NuzzleOk(g, n, z, pub, got, delivered) && Arrives(g, z, pub, got, e, j)
    ensures InboxOk(g, Queue(Count(n, g.size, g.consumersOf(z, pub[j].topicId), e, pub[j]).out, c), z, pub,
                    Delivered(g, |VotesFor(n, KeyOf(pub[j]))| + 1, j, delivered), c)
  {
    var consumers := g.consumersOf(z, pub[j].topicId);
    var full := |VotesFor(n, KeyOf(pub[j]))| + 1 == Majority(g.size);
    assert Count(n, g.size, consumers, e, pub[j]).out == if full then SendAll(n.out, consumers, pub[j]) else n.out;
    assert InboxOk(g, Queue(n.out, c), z, pub, delivered, c);
    if full {
      DeliveredInOrder(g, n, z, pub, got, delivered, e, j);
      InboxGrows(g, n.out, z, pub, delivered, j, c);
    }
  }

  lemma {:induction false} InboxGrows(g: Group, out: Queues, z: nat, pub: seq<Request>, delivered: nat, j: nat, c: nat)
    requires delivered <= j < |pub| && ForNuzzle(g, z)(pub[j]) && InboxOk(g, Queue(out, c), z, pub, delivered, c)
    requires forall i :: delivered <= i < j ==> !ForNuzzle(g, z)(pub[i])
    ensures InboxOk(g, Queue(SendAll(out, g.consumersOf(z, pub[j].topicId), pub[j]), c), z, pub, j + 1, c)
  {
    PlaceOfDelivery(g, z, c, pub, delivered, j);
    SentOnce(out, g.consumersOf(z, pub[j].topicId), pub[j], c, ForNuzzle(g, z));
  }

  lemma {:induction false} SentOnce(q: Queues, cs: seq<nat>, r: Request, c: nat, wanted: Request -> bool)
    requires |cs| == 1 && wanted(r)
    ensures var sent := if c in cs then [r] else [];
            && Queue(SendAll(q, cs, r), c) == Queue(q, c) + sent
            && Filter(Queue(q, c) + sent, wanted) == Filter(Queue(q, c), wanted) + sent
  {
    assert cs == [cs[0]] && SendAll(q, cs, r) == Send(q, cs[0], r);
    assert (Queue(q, c) + [r])[..|Queue(q, c)|] == Queue(q, c);
  }

  lemma CountKeeps(g: Group, n: NuzzleState, z: nat, pub: seq<Request>, got: map<(nat, nat), nat>,
                   delivered: nat, e: nat, j: nat)
    requires NuzzleOk(g, n, z, pub, got, delivered) && Arrives(g, z, pub, got, e, j)
    ensures NuzzleOk(g, Count(n, g.size, g.consumersOf(z, pub[j].topicId), e, pub[j]), z, pub, got[(e, z) := j + 1],
                     Delivered(g, |VotesFor(n, KeyOf(pub[j]))| + 1, j, delivered))
  {
    assert Counted(g, n, z, pub[j], j, got, delivered);
    var consumers := g.consumersOf(z, pub[j].topicId);
    var n' := Count(n, g.size, consumers, e, pub[j]);
    var delivered' := Delivered(g, |VotesFor(n, KeyOf(pub[j]))| + 1, j, delivered);
    forall i | 0 <= i < |pub| && ForNuzzle(g, z)(pub[i])
      ensures Counted(g, n', z, pub[i], i, got[(e, z) := j + 1], delivered')
    {
      if i == j {
        CountedNow(g, n, z, pub, got, delivered, e, j, consumers);
      } else {
        CountedStill(g, n, z, pub, got, delivered, e, j, consumers, i);
      }
    }
    forall c
      ensures InboxOk(g, Queue(n'.out, c), z, pub, delivered', c)
    {
      DeliveredToConsumers(g, n, z, pub, got, delivered, e, j, c);
    }
  }

  /** A request of a topic with several subscriptions changes nothing for the others. */
  lemma CountOfOther(g: Group, n: NuzzleState, z: nat, pub: seq<Request>, got: map<(nat, nat), nat>,
                     delivered: nat, e: nat, r: Request)
    requires NuzzleOk(g, n, z, pub, got, delivered) && !Once(g, z, r.topicId)
    ensures NuzzleOk(g, Count(n, g.size, g.consumersOf(z, r.topicId), e, r), z, pub, got, delivered)
  {
    var consumers := g.consumersOf(z, r.topicId);
    var n' := Count(n, g.size, consumers, e, r);
    forall i | 0 <= i < |pub| && ForNuzzle(g, z)(pub[i])
      ensures Counted(g, n', z, pub[i], i, got, delivered)
    {
      assert Counted(g, n, z, pub[i], i, got, delivered);
      assert KeyOf(pub[i]) != KeyOf(r);
    }
    forall c
      ensures InboxOk(g, Queue(n'.out, c), z, pub, delivered, c)
    {
      assert InboxOk(g, Queue(n.out, c), z, pub, delivered, c);
      SendAllReaches(n.out, consumers, r, c);
      FilterSplit(Queue(n.out, c), Copies(r, Listings(consumers, c)), ForNuzzle(g, z));
      FilterOfWanted(Copies(r, Listings(consumers, c)), ForNuzzle(g, z));
    }
  }

  /** The next request on the way from an engine, when its topic has one subscription. */
  lemma LinkHead(g: Group, s: EngineState, up: bool, stored: nat, pub: seq<Request>, got: map<(nat, nat), nat>,
                 e: nat, z: nat)
    requires stored <= |pub| && LinkOk(g, s, up, stored, pub, Got(got, e, z), z) && Queue(s.out, z) != []
    requires Numbered(pub) && e < g.size && ForNuzzle(g, z)(Queue(s.out, z)[0])
    ensures var j := Queue(s.out, z)[0].globalId;
            && Arrives(g, z, pub, got, e, j) && Queue(s.out, z)[0] == pub[j]
            && LinkOk(g, Taken(s, z), up, stored, pub, j + 1, z)
  {
    var q := Queue(s.out, z);
    var due := Pick(pub, Got(got, e, z), Passed(s, stored, z), ForNuzzle(g, z));
    FilterHead(q, ForNuzzle(g, z));
    assert q[0] == due[0];
    PickHead(pub, Got(got, e, z), Passed(s, stored, z), ForNuzzle(g, z));
    assert Filter(q, ForNuzzle(g, z))[1..] == Filter(q[1..], ForNuzzle(g, z));
    assert Filter(q[1..], ForNuzzle(g, z)) <= due[1..];
  }

  lemma {:induction false} ReceiveKeeps(g: Group, s: Sys, e: nat, z: nat)
    requires Subscribed(g) && Inv(g, s) && Enabled(g, s, Receive(e, z))
    ensures Inv(g, Apply(g, s, Receive(e, z)))
  {
    if |s.published| <= U64_SIZE {
      if Once(g, z, Queue(s.engines[e].out, z)[0].topicId) {
        ReceiveOnce(g, s, e, z);
      } else {
        ReceiveOther(g, s, e, z);
      }
    }
  }

  lemma ReceiveOnce(g: Group, s: Sys, e: nat, z: nat)
    requires Shaped(g, s) && Engines(g, s) && Nuzzles(g, s) && Numbered(s.published) && Enabled(g, s, Receive(e, z))
    requires Once(g, z, Queue(s.engines[e].out, z)[0].topicId)
    ensures Engines(g, Apply(g, s, Receive(e, z))) && Nuzzles(g, Apply(g, s, Receive(e, z)))
  {
    var j := Queue(s.engines[e].out, z)[0].globalId;
    assert s.stored[e] <= |s.published| && Arrives(g, z, s.published, s.got, e, j) &&
           Queue(s.engines[e].out, z)[0] == s.published[j] &&
           LinkOk(g, Taken(s.engines[e], z), s.up[e], s.stored[e], s.published, j + 1, z)
    by {
      assert EngineFits(g, s, e) && Links(g, s, e);
      LinkHead(g, s.engines[e], s.up[e], s.stored[e], s.published, s.got, e, z);
    }
    ReceiveKeepsEngines(g, s, e, z, j + 1);
    ReceiveKeepsNuzzles(g, s, e, z, j);
  }

  lemma ReceiveOther(g: Group, s: Sys, e: nat, z: nat)
    requires Shaped(g, s) && Engines(g, s) && Nuzzles(g, s) && Enabled(g, s, Receive(e, z))
    requires !Once(g, z, Queue(s.engines[e].out, z)[0].topicId)
    ensures Engines(g, Apply(g, s, Receive(e, z))) && Nuzzles(g, Apply(g, s, Receive(e, z)))
  {
    assert s.stored[e] <= |s.published| &&
           LinkOk(g, Taken(s.engines[e], z), s.up[e], s.stored[e], s.published, Got(s.got, e, z), z)
    by {
      assert EngineFits(g, s, e) && Links(g, s, e);
      FilterHead(Queue(s.engines[e].out, z), ForNuzzle(g, z));
    }
    ReceiveKeepsEngines(g, s, e, z, Got(s.got, e, z));
    OtherKeepsNuzzles(g, s, e, z);
  }

  lemma ReceiveKeepsEngines(g: Group, s: Sys, e: nat, z: nat, upTo: nat)
    requires Shaped(g, s) && Engines(g, s) && Enabled(g, s, Receive(e, z)) && s.stored[e] <= |s.published|
    requires var r := Queue(s.engines[e].out, z)[0];
             upTo == if Once(g, z, r.topicId) then r.globalId + 1 else Got(s.got, e, z)
    requires LinkOk(g, Taken(s.engines[e], z), s.up[e], s.stored[e], s.published, upTo, z)
    ensures Engines(g, Apply(g, s, Receive(e, z)))
  {
    var s' := Apply(g, s, Receive(e, z));
    assert EngineFits(g, s, e) && Links(g, s, e);
    forall y | 0 <= y < g.nuzzles
      ensures LinkOk(g, s'.engines[e], s'.up[e], s'.stored[e], s'.published, Got(s'.got, e, y), y)
    {
      assert LinkOk(g, s.engines[e], s.up[e], s.stored[e], s.published, Got(s.got, e, y), y);
      if y == z {
        assert Got(s'.got, e, y) == upTo && s'.engines[e] == Taken(s.engines[e], z);
      } else {
        OtherLinkStays(g, s.engines[e], s.up[e], s.stored[e], s.published, Got(s.got, e, y), z, y);
      }
    }
    OtherEnginesStay(g, s, s', e);
  }

  lemma OtherLinkStays(g: Group, s: EngineState, up: bool, stored: nat, pub: seq<Request>, got: nat, z: nat, y: nat)
    requires stored <= |pub| && LinkOk(g, s, up, stored, pub, got, y) && y != z && Queue(s.out, z) != []
    ensures LinkOk(g, Taken(s, z), up, stored, pub, got, y)
  {
    assert Queue(Taken(s, z).out, y) == Queue(s.out, y);
  }

  lemma ReceiveChanges(g: Group, s: Sys, e: nat, z: nat, j: nat)
    requires Shaped(g, s) && Enabled(g, s, Receive(e, z)) && j < |s.published|
    requires Queue(s.engines[e].out, z)[0] == s.published[j] && s.published[j].globalId == j
    requires Once(g, z, s.published[j].topicId)
    ensures var s' := Apply(g, s, Receive(e, z));
            var n := s.nuzzles[z];
            var r := s.published[j];
            && s'.published == s.published && s'.got == s.got[(e, z) := j + 1]
            && s'.nuzzles == s.nuzzles[z := Count(n, g.size, g.consumersOf(z, r.topicId), e, r)]
            && s'.delivered == s.delivered[z := Delivered(g, |VotesFor(n, KeyOf(r))| + 1, j, s.delivered[z])]
  {
  }

  lemma ReceiveKeepsNuzzles(g: Group, s: Sys, e: nat, z: nat, j: nat)
    requires Shaped(g, s) && Nuzzles(g, s) && Enabled(g, s, Receive(e, z))
    requires Arrives(g, z, s.published, s.got, e, j) && Queue(s.engines[e].out, z)[0] == s.published[j]
    ensures Nuzzles(g, Apply(g, s, Receive(e, z)))
  {
    var s' := Apply(g, s, Receive(e, z));
    ReceiveChanges(g, s, e, z, j);
    forall y | 0 <= y < g.nuzzles
      ensures NuzzleOk(g, s'.nuzzles[y], y, s'.published, s'.got, s'.delivered[y])
    {
      if y == z {
        CountKeeps(g, s.nuzzles[z], z, s.published, s.got, s.delivered[z], e, j);
      } else {
        OthersStay(g, s.nuzzles[y], y, s.published, s.got, s.delivered[y], e, z, j);
      }
    }
  }

  lemma OtherKeepsNuzzles(g: Group, s: Sys, e: nat, z: nat)
    requires Shaped(g, s) && Nuzzles(g, s) && Enabled(g, s, Receive(e, z))
    requires !Once(g, z, Queue(s.engines[e].out, z)[0].topicId)
    ensures Nuzzles(g, Apply(g, s, Receive(e, z)))
  {
    var s' := Apply(g, s, Receive(e, z));
    forall y | 0 <= y < g.nuzzles
      ensures NuzzleOk(g, s'.nuzzles[y], y, s'.published, s'.got, s'.delivered[y])
    {
      if y == z {
        CountOfOther(g, s.nuzzles[z], z, s.published, s.got, s.delivered[z], e, Queue(s.engines[e].out, z)[0]);
      }
    }
  }

  lemma OthersStay(g: Group, n: NuzzleState, y: nat, pub: seq<Request>, got: map<(nat, nat), nat>,
                   delivered: nat, e: nat, z: nat, j: nat)
    requires NuzzleOk(g, n, y, pub, got, delivered) && y != z
    ensures NuzzleOk(g, n, y, pub, got[(e, z) := j + 1], delivered)
  {
    var got' := got[(e, z) := j + 1];
    forall i | 0 <= i < |pub| && ForNuzzle(g, y)(pub[i])
      ensures Counted(g, n, y, pub[i], i, got', delivered)
    {
      assert Voters(g, got', y, i) == Voters(g, got, y, i);
    }
  }

  // ---------------------------------------------------------------- whole runs

  lemma StepKeeps(g: Group, s: Sys, s': Sys)
    requires Subscribed(g) && Inv(g, s) && Next(g, s, s')
    ensures Inv(g, s')
  {
    var st :| Enabled(g, s, st) && s' == Apply(g, s, st);
    match st {
      case Publish(r) => PublishKeeps(g, s, r);
      case SendPrepare => SendPrepareKeeps(g, s);
      case Prepare(e) => PrepareKeeps(g, s, e);
      case Confirm(e) => ConfirmKeeps(g, s, e);
      case Pass(e) => PassKeeps(g, s, e);
      case Receive(e, z) => ReceiveKeeps(g, s, e, z);
      case Crash(e) => CrashKeeps(g, s, e);
      case Lose(e, z) => LoseKeeps(g, s, e, z);
    }
  }

  lemma {:induction false} RunKeeps(g: Group, run: seq<Sys>, i: nat)
    requires Subscribed(g) && Run(g, run) && i < |run|
    ensures Inv(g, run[i])
  {
    if i == 0 {
      StartKeeps(g);
    } else {
      RunKeeps(g, run, i - 1);
      StepKeeps(g, run[i - 1], run[i]);
    }
  }

  /** A state of some run in which no number has been given twice. */
  ghost predicate Reachable(g: Group, s: Sys) {
    |s.published| <= U64_SIZE && exists run :: Run(g, run) && s in run
  }

  lemma ReachableIsOk(g: Group, s: Sys)
    requires Subscribed(g) && Reachable(g, s)
    ensures Inv(g, s)
  {
    var run :| Run(g, run) && s in run;
    var i :| 0 <= i < |run| && run[i] == s;
    RunKeeps(g, run, i);
  }

  // ---------------------------------------------------------------- what the protocol guarantees

  /** What consumer `c` of nuzzle `z` has been sent. */
  function Inbox(s: Sys, z: nat, c: nat): seq<Request>
    requires z < |s.nuzzles|
  {
    Queue(s.nuzzles[z].out, c)
  }

  /** Wanted requests below `b`, as they were published, with strictly increasing numbers. */
  ghost predicate InOrder(q: seq<Request>, pub: seq<Request>, b: nat, wanted: Request -> bool)
    requires b <= |pub|
  {
    && (forall k :: 0 <= k < |q| ==> q[k].globalId < b)
    && (forall k :: 0 <= k < |q| ==> q[k] == pub[q[k].globalId])
    && (forall k :: 0 <= k < |q| ==> wanted(q[k]))
    && (forall i, k :: 0 <= i < k < |q| ==> q[i].globalId < q[k].globalId)
  }

  lemma {:induction false} PickIsInOrder(pub: seq<Request>, b: nat, wanted: Request -> bool)
    requires b <= |pub| && Numbered(pub)
    ensures InOrder(Pick(pub, 0, b, wanted), pub, b, wanted)
  {
    if b > 0 {
      PickIsInOrder(pub, b - 1, wanted);
    }
  }

  lemma {:induction false} PickContains(pub: seq<Request>, b: nat, wanted: Request -> bool, i: nat)
    requires i < b <= |pub| && wanted(pub[i])
    ensures pub[i] in Pick(pub, 0, b, wanted)
    decreases b
  {
    if i < b - 1 {
      PickContains(pub, b - 1, wanted, i);
    }
  }

  /** Of the topics with one subscription at the nuzzle. */
  ghost function Clean(g: Group, s: Sys, z: nat, c: nat): seq<Request>
    requires z < |s.nuzzles|
  {
    Filter(Inbox(s, z, c), ForNuzzle(g, z))
  }

  /** That is everything when all the topics of the consumer have one subscription. */
  lemma CleanIsAll(g: Group, s: Sys, z: nat, c: nat)
    requires Subscribed(g) && Reachable(g, s) && z < |s.nuzzles|
    requires forall t :: c in g.consumersOf(z, t) ==> Once(g, z, t)
    ensures Clean(g, s, z, c) == Inbox(s, z, c)
  {
    ReachableIsOk(g, s);
    assert NuzzleOk(g, s.nuzzles[z], z, s.published, s.got, s.delivered[z]);
    assert InboxOk(g, Inbox(s, z, c), z, s.published, s.delivered[z], c);
    FilterOfWanted(Inbox(s, z, c), ForNuzzle(g, z));
  }

  lemma CleanIsPicked(g: Group, s: Sys, z: nat, c: nat)
    requires Subscribed(g) && Reachable(g, s) && z < |s.nuzzles|
    ensures Inv(g, s) && NuzzleOk(g, s.nuzzles[z], z, s.published, s.got, s.delivered[z])
    ensures Clean(g, s, z, c) == Pick(s.published, 0, s.delivered[z], ForConsumer(g, z, c))
    ensures InOrder(Clean(g, s, z, c), s.published, s.delivered[z], ForConsumer(g, z, c))
  {
    ReachableIsOk(g, s);
    assert NuzzleOk(g, s.nuzzles[z], z, s.published, s.got, s.delivered[z]);
    assert InboxOk(g, Inbox(s, z, c), z, s.published, s.delivered[z], c);
    PickIsInOrder(s.published, s.delivered[z], ForConsumer(g, z, c));
  }

  /** In order and at most once: a consumer gets requests it has subscribed to, as they were
      published, with strictly increasing numbers, and without leaving one out. */
  lemma InOrderAtMostOnce(g: Group, s: Sys, z: nat, c: nat)
    requires Subscribed(g) && Reachable(g, s) && z < |s.nuzzles|
    ensures InOrder(Clean(g, s, z, c), s.published, |s.published|, ForConsumer(g, z, c))
    ensures var q := Clean(g, s, z, c);
            forall i, k :: 0 <= k < |q| && 0 <= i < q[k].globalId && ForConsumer(g, z, c)(s.published[i]) ==>
              s.published[i] in q
  {
    CleanIsPicked(g, s, z, c);
    var d := s.delivered[z];
    forall i | 0 <= i < d && ForConsumer(g, z, c)(s.published[i])
      ensures s.published[i] in Clean(g, s, z, c)
    {
      PickContains(s.published, d, ForConsumer(g, z, c), i);
    }
  }

  /** The engines that hold a request. */
  ghost function Holders(g: Group, s: Sys, r: Request): set<nat>
    requires Shaped(g, s)
  {
    set e | 0 <= e < g.size && KeyOf(r) in s.engines[e].buffer && s.engines[e].buffer[KeyOf(r)] == r
  }

  /** Whoever has sent a request to a nuzzle holds it. */
  lemma VotersHold(g: Group, s: Sys, z: nat, i: nat)
    requires Inv(g, s) && |s.published| <= U64_SIZE && z < g.nuzzles && i < |s.published|
    ensures Voters(g, s.got, z, i) <= Holders(g, s, s.published[i])
  {
    forall e | e in Voters(g, s.got, z, i)
      ensures e in Holders(g, s, s.published[i])
    {
      assert EngineFits(g, s, e) && Links(g, s, e);
      assert LinkOk(g, s.engines[e], s.up[e], s.stored[e], s.published, Got(s.got, e, z), z);
      StoredHolds(s.published, s.stored[e]);
    }
  }

  lemma MajoritiesMeet(g: Group, a: set<nat>, b: set<nat>)
    requires forall e :: e in a || e in b ==> e < g.size
    requires 2 * |a| > g.size && 2 * |b| > g.size
    ensures exists e :: e in a && e in b
  {
    if a * b == {} {
      BoundedSet(a + b, g.size);
    } else {
      var e :| e in a * b;
    }
  }

  /** Majority durability: what has been delivered is held by a majority of the engines, so that
      every majority contains one that holds it. */
  lemma MajorityDurability(g: Group, s: Sys, z: nat, c: nat, r: Request, others: set<nat>)
    requires Subscribed(g) && Reachable(g, s) && z < |s.nuzzles| && r in Clean(g, s, z, c)
    ensures Shaped(g, s) && 2 * |Holders(g, s, r)| > g.size
    ensures (forall e :: e in others ==> e < g.size) && 2 * |others| > g.size ==>
              exists e :: e in others && e in Holders(g, s, r)
  {
    CleanIsPicked(g, s, z, c);
    var q := Clean(g, s, z, c);
    var k :| 0 <= k < |q| && q[k] == r;
    assert r.globalId < s.delivered[z] && s.published[r.globalId] == r && ForConsumer(g, z, c)(r);
    assert Counted(g, s.nuzzles[z], z, r, r.globalId, s.got, s.delivered[z]);
    VotersHold(g, s, z, r.globalId);
    SubsetIsSmaller(Voters(g, s.got, z, r.globalId), Holders(g, s, r));
    if (forall e :: e in others ==> e < g.size) && 2 * |others| > g.size {
      MajoritiesMeet(g, others, Holders(g, s, r));
    }
  }

  /** The buffer of a nuzzle holds, of the topics with one subscription, exactly the requests that
      have come from some of the engines and not from all, with the engines they have come from. */
  lemma BufferIsExact(g: Group, s: Sys, z: nat, k: Key)
    requires Subscribed(g) && Reachable(g, s) && z < |s.nuzzles| && Once(g, z, k.0)
    ensures k in s.nuzzles[z].buffer <==>
              && k.1 < |s.published| && k == KeyOf(s.published[k.1])
              && 1 <= |Voters(g, s.got, z, k.1)| < g.size
    ensures k in s.nuzzles[z].buffer ==> Lists(s.nuzzles[z].buffer[k], Voters(g, s.got, z, k.1))
  {
    ReachableIsOk(g, s);
    assert NuzzleOk(g, s.nuzzles[z], z, s.published, s.got, s.delivered[z]);
    if k.1 < |s.published| && k == KeyOf(s.published[k.1]) {
      assert ForNuzzle(g, z)(s.published[k.1]);
      assert Counted(g, s.nuzzles[z], z, s.published[k.1], k.1, s.got, s.delivered[z]);
    }
  }

  lemma {:induction false} PickIsPrefix(pub: seq<Request>, a: nat, b: nat, wanted: Request -> bool)
    requires a <= b <= |pub|
    ensures Pick(pub, 0, a, wanted) <= Pick(pub, 0, b, wanted)
    decreases b
  {
    if a < b {
      PickIsPrefix(pub, a, b - 1, wanted);
    }
  }

  lemma {:induction false} PickSame(pub: seq<Request>, b: nat, wanted: Request -> bool, wanted': Request -> bool)
    requires b <= |pub| && forall r :: wanted(r) == wanted'(r)
    ensures Pick(pub, 0, b, wanted) == Pick(pub, 0, b, wanted')
  {
    if b > 0 {
      PickSame(pub, b - 1, wanted, wanted');
    }
  }

  /** Consumers with the same subscriptions, at any two nuzzles, agree on the order: what one of
      them has been sent is the beginning of what the other one has been sent. */
  lemma ConsumersAgree(g: Group, s: Sys, z: nat, c: nat, z': nat, c': nat)
    requires Subscribed(g) && Reachable(g, s) && z < |s.nuzzles| && z' < |s.nuzzles|
    requires forall r :: ForConsumer(g, z, c)(r) == ForConsumer(g, z', c')(r)
    ensures Clean(g, s, z, c) <= Clean(g, s, z', c') || Clean(g, s, z', c') <= Clean(g, s, z, c)
  {
    CleanIsPicked(g, s, z, c);
    CleanIsPicked(g, s, z', c');
    var d, d' := s.delivered[z], s.delivered[z'];
    PickSame(s.published, d, ForConsumer(g, z, c), ForConsumer(g, z', c'));
    if d <= d' {
      PickIsPrefix(s.published, d, d', ForConsumer(g, z', c'));
    } else {
      PickIsPrefix(s.published, d', d, ForConsumer(g, z', c'));
    }
  }

  // ---------------------------------------------------------------- acknowledgements

  ghost predicate Promised(s: Sys) {
    forall e :: 0 <= e < |s.engines| ==> KeepsPromises(s.engines[e])
  }

  lemma StepKeepsPromises(g: Group, s: Sys, s': Sys)
    requires Promised(s) && Next(g, s, s')
    ensures Promised(s')
  {
    var st :| Enabled(g, s, st) && s' == Apply(g, s, st);
    if !(st.Publish? || st.SendPrepare? || st.Crash?) {
      EngineKeepsPromises(g, s, st);
      forall e | 0 <= e < |s'.engines|
        ensures KeepsPromises(s'.engines[e])
      {
        assert e != st.e ==> s'.engines[e] == s.engines[e];
      }
    }
  }

  lemma EngineKeepsPromises(g: Group, s: Sys, st: Step)
    requires Shaped(g, s) && Promised(s) && Enabled(g, s, st) && !(st.Publish? || st.SendPrepare? || st.Crash?)
    ensures KeepsPromises(Apply(g, s, st).engines[st.e])
  {
    var s0 := s.engines[st.e];
    assert KeepsPromises(s0);
    match st {
      case Prepare(e) =>
        StoreKeepsPromises(s0, s.pump.out[e][0], g.nuzzlesOf(e, s.pump.out[e][0].topicId));
      case Confirm(e) => AcknowledgeKeepsPromises(s0);
      case Pass(e) => ForwardKeepsPromises(s0);
      case Receive(e, z) => ShorterKeepsPromises(s0, z, Queue(s0.out, z)[1..]);
      case Lose(e, z) => ShorterKeepsPromises(s0, z, Queue(s0.out, z)[..|Queue(s0.out, z)| - 1]);
    }
  }

  lemma ShorterKeepsPromises(s: EngineState, z: nat, q: seq<Request>)
    requires KeepsPromises(s) && forall r :: r in q ==> r in Queue(s.out, z)
    ensures KeepsPromises(s.(out := s.out[z := q]))
  {
    var s' := s.(out := s.out[z := q]);
    forall y, r | r in Queue(s'.out, y)
      ensures KeyOf(r) in s'.acked
    {
      assert r in Queue(s.out, y);
    }
  }

  lemma {:induction false} RunKeepsPromises(g: Group, run: seq<Sys>, i: nat)
    requires Run(g, run) && i < |run|
    ensures Promised(run[i])
  {
    if i > 0 {
      RunKeepsPromises(g, run, i - 1);
      StepKeepsPromises(g, run[i - 1], run[i]);
    }
  }

  /** In every state of every run, whatever the subscriptions: an engine holds what it has
      acknowledged, and has acknowledged what is on its way from it to a nuzzle. */
  lemma AcknowledgedIsHeld(g: Group, run: seq<Sys>, i: nat, e: nat, k: Key)
    requires Run(g, run) && i < |run| && e < |run[i].engines|
    ensures k in run[i].engines[e].acked ==> k in run[i].engines[e].buffer
    ensures forall z, r :: r in Queue(run[i].engines[e].out, z) ==> KeyOf(r) in run[i].engines[e].acked
  {
    RunKeepsPromises(g, run, i);
  }
}
