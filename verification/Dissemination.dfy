/** The three processes of the dissemination protocol: the pump numbers requests and sends them to
    every engine, an engine stores them and passes them on, and a nuzzle counts how many engines
    have passed a request on and delivers it at a majority. Connections are queues. */
module Dissemination {

  const U64_SIZE := 0x1_0000_0000_0000_0000

  datatype Request = Request(topicId: nat, globalId: nat, timestamp: nat, message: string)

  type Key = (nat, nat)

  function KeyOf(r: Request): Key {
    (r.topicId, r.globalId)
  }

  // ---------------------------------------------------------------- lists of connections

  /** How often a list contains a connection. */
  function Listings(s: seq<nat>, c: nat): (n: nat)
    ensures n > 0 <==> c in s
  {
    if s == [] then 0 else Listings(s[1..], c) + if s[0] == c then 1 else 0
  }

  lemma {:induction false} ListingsAppend(s: seq<nat>, x: nat, c: nat)
    ensures Listings(s + [x], c) == Listings(s, c) + if x == c then 1 else 0
  {
    if s == [] {
    } else {
      assert (s + [x])[1..] == s[1..] + [x];
      ListingsAppend(s[1..], x, c);
    }
  }

  // ---------------------------------------------------------------- connections

  /** What has been sent and not yet received, for every connection. */
  type Queues = map<nat, seq<Request>>

  function Queue(q: Queues, c: nat): seq<Request> {
    if c in q then q[c] else []
  }

  function Send(q: Queues, c: nat, r: Request): Queues {
    q[c := Queue(q, c) + [r]]
  }

  function SendAll(q: Queues, cs: seq<nat>, r: Request): Queues
    decreases |cs|
  {
    if cs == [] then q else SendAll(Send(q, cs[0], r), cs[1..], r)
  }

  function Copies(r: Request, n: nat): (q: seq<Request>)
    ensures |q| == n && forall i :: 0 <= i < n ==> q[i] == r
  {
    if n == 0 then [] else [r] + Copies(r, n - 1)
  }

  /** A connection gets the request exactly as often as it is listed. */
  lemma {:induction false} SendAllReaches(q: Queues, cs: seq<nat>, r: Request, c: nat)
    ensures Queue(SendAll(q, cs, r), c) == Queue(q, c) + Copies(r, Listings(cs, c))
    decreases |cs|
  {
    if cs != [] {
      SendAllReaches(Send(q, cs[0], r), cs[1..], r, c);
      assert cs[0] == c ==> Copies(r, Listings(cs, c)) == [r] + Copies(r, Listings(cs[1..], c));
    }
  }

  /** The connections that a subscription table lists for a topic. */
  function Listed(subscriptions: map<nat, seq<nat>>, topic: nat): seq<nat> {
    if topic in subscriptions then subscriptions[topic] else []
  }

  // ---------------------------------------------------------------- the pump

  /** `next` is the engine to which `current` goes next; all are served when it is the number of
      engines. */
  datatype PumpState = PumpState(seed: nat, current: Request, next: nat, out: seq<seq<Request>>)

  function Accept(p: PumpState, r: Request): PumpState {
    PumpState((p.seed + 1) % U64_SIZE, r.(globalId := p.seed), 0, p.out)
  }

  function SendNext(p: PumpState): PumpState
    requires p.next < |p.out|
  {
    p.(next := p.next + 1, out := p.out[p.next := p.out[p.next] + [p.current]])
  }

  function Broadcast(p: PumpState): PumpState
    decreases |p.out| - p.next
  {
    if p.next >= |p.out| then p else Broadcast(SendNext(p))
  }

  class Pump {
    var globalRequestIdSeed: nat
    var engineConnections: seq<seq<Request>>

    function State(current: Request, next: nat): PumpState
      reads this
    {
      PumpState(globalRequestIdSeed, current, next, engineConnections)
    }

    /** Every engine gets the request, under the next number. */
    method OnPublishReceive(request: Request)
      modifies this
      ensures globalRequestIdSeed == (old(globalRequestIdSeed) + 1) % U64_SIZE
      ensures |engineConnections| == old(|engineConnections|)
      ensures var req := request.(globalId := old(globalRequestIdSeed));
              && (forall e :: 0 <= e < |engineConnections| ==>
                    engineConnections[e] == old(engineConnections[e]) + [req])
              && State(req, |engineConnections|) == Broadcast(Accept(old(State(request, 0)), request))
    {
      ghost var start := Accept(State(request, 0), request);
      var req := request.(globalId := globalRequestIdSeed);
      globalRequestIdSeed := (globalRequestIdSeed + 1) % U64_SIZE;
      var e := 0;
      while e < |engineConnections|
        invariant 0 <= e <= |engineConnections| == old(|engineConnections|)
        invariant globalRequestIdSeed == (old(globalRequestIdSeed) + 1) % U64_SIZE
        invariant forall i :: 0 <= i < |engineConnections| ==>
                    engineConnections[i] == old(engineConnections[i]) + if i < e then [req] else []
        invariant Broadcast(State(req, e)) == Broadcast(start)
      {
        engineConnections := engineConnections[e := engineConnections[e] + [req]];
        e := e + 1;
      }
    }
  }

  // ---------------------------------------------------------------- an engine

  /** The requests stored and the keys acknowledged; whether `current` has still to be acknowledged,
      and the nuzzles to which it has still to be sent. */
  datatype EngineState = EngineState(buffer: map<Key, Request>, acked: seq<Key>, current: Request, unacked: bool,
                                     remaining: seq<nat>, out: Queues)

  function Store(s: EngineState, r: Request, nuzzles: seq<nat>): EngineState {
    EngineState(s.buffer[KeyOf(r) := r], s.acked, r, true, nuzzles, s.out)
  }

  function Acknowledge(s: EngineState): EngineState
    requires s.unacked
  {
    s.(acked := s.acked + [KeyOf(s.current)], unacked := false)
  }

  function Forward(s: EngineState): EngineState
    requires !s.unacked && s.remaining != []
  {
    s.(remaining := s.remaining[1..], out := Send(s.out, s.remaining[0], s.current))
  }

  function ForwardAll(s: EngineState): EngineState
    requires !s.unacked
    decreases |s.remaining|
  {
    if s.remaining == [] then s else ForwardAll(Forward(s))
  }

  /** What is acknowledged is in the buffer, and what is passed on has been acknowledged before. */
  ghost predicate KeepsPromises(s: EngineState) {
    && (forall k :: k in s.acked ==> k in s.buffer)
    && (forall z, r :: r in Queue(s.out, z) ==> KeyOf(r) in s.acked)
    && (s.unacked ==> KeyOf(s.current) in s.buffer)
    && (!s.unacked && s.remaining != [] ==> KeyOf(s.current) in s.acked)
  }

  lemma StoreKeepsPromises(s: EngineState, r: Request, nuzzles: seq<nat>)
    requires KeepsPromises(s)
    ensures KeepsPromises(Store(s, r, nuzzles))
  {
  }

  lemma AcknowledgeKeepsPromises(s: EngineState)
    requires KeepsPromises(s) && s.unacked
    ensures KeepsPromises(Acknowledge(s))
  {
  }

  lemma ForwardKeepsPromises(s: EngineState)
    requires KeepsPromises(s) && !s.unacked && s.remaining != []
    ensures KeepsPromises(Forward(s))
  {
    var s' := Forward(s);
    forall z, r | r in Queue(s'.out, z)
      ensures KeyOf(r) in s'.acked
    {
      assert r in Queue(s.out, z) || r == s.current;
    }
  }

  /** The clients that a nuzzle has named for a topic. */
  function Clients(named: map<nat, map<nat, seq<nat>>>, topic: nat, connection: nat): seq<nat> {
    if topic in named && connection in named[topic] then named[topic][connection] else []
  }

  ghost predicate ListedPerClient(listed: map<nat, seq<nat>>, named: map<nat, map<nat, seq<nat>>>) {
    forall t, z :: Listings(Listed(listed, t), z) == |Clients(named, t, z)|
  }

  ghost predicate Subscribes(listed: map<nat, seq<nat>>, named: map<nat, map<nat, seq<nat>>>,
                             listed': map<nat, seq<nat>>, named': map<nat, map<nat, seq<nat>>>,
                             topic: nat, connection: nat, client: nat) {
    && (forall t :: Listed(listed', t) == if t == topic then Listed(listed, t) + [connection] else Listed(listed, t))
    && (forall t, z ::
          Clients(named', t, z) ==
          if t == topic && z == connection then Clients(named, t, z) + [client] else Clients(named, t, z))
  }

  lemma SubscribeKeepsClients(listed: map<nat, seq<nat>>, named: map<nat, map<nat, seq<nat>>>,
                              listed': map<nat, seq<nat>>, named': map<nat, map<nat, seq<nat>>>,
                              topic: nat, connection: nat, client: nat)
    requires ListedPerClient(listed, named)
    requires Subscribes(listed, named, listed', named', topic, connection, client)
    ensures ListedPerClient(listed', named')
  {
    forall t, z
      ensures Listings(Listed(listed', t), z) == |Clients(named', t, z)|
    {
      assert Listings(Listed(listed, t), z) == |Clients(named, t, z)|;
      if t == topic {
        ListingsAppend(Listed(listed, t), connection, z);
      }
    }
  }

  class Engine {
    var messageBuffer: map<Key, Request>
    var subscriptions: map<nat, seq<nat>>
    var clientSubscriptions: map<nat, map<nat, seq<nat>>>
    var nuzzleConnections: Queues
    var acknowledged: seq<Key>

    function State(current: Request, remaining: seq<nat>): EngineState
      reads this
    {
      EngineState(messageBuffer, acknowledged, current, false, remaining, nuzzleConnections)
    }

    /** The request is stored before it is acknowledged, and acknowledged before it is passed on
        to the nuzzles that subscribe to its topic. */
    method OnPrepareReceive(request: Request)
      requires KeepsPromises(State(request, []))
      modifies this
      ensures messageBuffer == old(messageBuffer)[KeyOf(request) := request]
      ensures acknowledged == old(acknowledged) + [KeyOf(request)]
      ensures forall t :: Listed(subscriptions, t) == old(Listed(subscriptions, t))
      ensures clientSubscriptions == old(clientSubscriptions)
      ensures nuzzleConnections == SendAll(old(nuzzleConnections), Listed(subscriptions, request.topicId), request)
      ensures var nuzzles := old(Listed(subscriptions, request.topicId));
              State(request, []) == ForwardAll(Acknowledge(Store(old(State(request, [])), request, nuzzles)))
      ensures KeepsPromises(State(request, []))
    {
      ghost var start := Store(State(request, []), request, Listed(subscriptions, request.topicId));
      StoreKeepsPromises(State(request, []), request, Listed(subscriptions, request.topicId));
      AcknowledgeKeepsPromises(start);
      messageBuffer := messageBuffer[KeyOf(request) := request];
      acknowledged := acknowledged + [KeyOf(request)];
      if request.topicId !in subscriptions {
        subscriptions := subscriptions[request.topicId := []];
      }
      var rest := subscriptions[request.topicId];
      while rest != []
        invariant messageBuffer == start.buffer && acknowledged == Acknowledge(start).acked
        invariant forall t :: Listed(subscriptions, t) == old(Listed(subscriptions, t))
        invariant clientSubscriptions == old(clientSubscriptions)
        invariant ForwardAll(State(request, rest)) == ForwardAll(Acknowledge(start))
        invariant KeepsPromises(State(request, rest))
        invariant SendAll(nuzzleConnections, rest, request) == SendAll(start.out, start.remaining, request)
        decreases |rest|
      {
        ForwardKeepsPromises(State(request, rest));
        nuzzleConnections := Send(nuzzleConnections, rest[0], request);
        rest := rest[1..];
      }
    }

    /** A nuzzle is listed for a topic as often as it has named a client. */
    ghost predicate Valid()
      reads this
    {
      ListedPerClient(subscriptions, clientSubscriptions)
    }

    constructor ()
      ensures Valid() && KeepsPromises(State(Request(0, 0, 0, ""), []))
    {
      messageBuffer, subscriptions, clientSubscriptions, nuzzleConnections := map[], map[], map[], map[];
      acknowledged := [];
    }

    /** A subscription lists the nuzzle once more, also when it is listed already. */
    method OnUpdateSubscriptionReceive(connection: nat, topic: nat, client: nat)
      requires Valid()
      modifies this`subscriptions, this`clientSubscriptions
      ensures Valid()
      ensures Subscribes(old(subscriptions), old(clientSubscriptions), subscriptions, clientSubscriptions,
                         topic, connection, client)
    {
      ghost var listed, named := subscriptions, clientSubscriptions;
      if topic !in subscriptions {
        assert forall z :: |Clients(named, topic, z)| == Listings(Listed(listed, topic), z);
        subscriptions := subscriptions[topic := []];
        var none: map<nat, seq<nat>> := map[connection := []];
        clientSubscriptions := clientSubscriptions[topic := none];
      }
      var nuzzles: map<nat, seq<nat>> := if topic in clientSubscriptions then clientSubscriptions[topic] else map[];
      var clients := if connection in nuzzles then nuzzles[connection] else [];
      subscriptions := subscriptions[topic := subscriptions[topic] + [connection]];
      clientSubscriptions := clientSubscriptions[topic := nuzzles[connection := clients + [client]]];
      SubscribeKeepsClients(listed, named, subscriptions, clientSubscriptions, topic, connection, client);
    }
  }

  // ---------------------------------------------------------------- a nuzzle

  datatype NuzzleState = NuzzleState(buffer: map<Key, seq<nat>>, out: Queues)

  /** The least number of engines that is more than half of them. */
  function Majority(groupSize: nat): (m: nat)
    ensures 2 * m > groupSize && 2 * (m - 1) <= groupSize
  {
    1 + groupSize / 2
  }

  function VotesFor(n: NuzzleState, k: Key): seq<nat> {
    if k in n.buffer then n.buffer[k] else []
  }

  /** A request from an engine: delivered by the majority, forgotten with the last engine. */
  function Count(n: NuzzleState, groupSize: nat, consumers: seq<nat>, engine: nat, r: Request): NuzzleState {
    var votes := VotesFor(n, KeyOf(r)) + [engine];
    NuzzleState(
      if |votes| == groupSize then n.buffer - {KeyOf(r)} else n.buffer[KeyOf(r) := votes],
      if |votes| == Majority(groupSize) then SendAll(n.out, consumers, r) else n.out)
  }

  class Nuzzle {
    const groupSize: nat
    var engineConnections: seq<seq<nat>>    // the topics of the updates sent to each engine
    var messageBuffer: map<Key, seq<nat>>
    var subscriptions: map<nat, seq<nat>>
    var consumerConnections: Queues

    function State(): NuzzleState
      reads this
    {
      NuzzleState(messageBuffer, consumerConnections)
    }

    method OnPublishReceive(connection: nat, request: Request)
      modifies this
      ensures var consumers := old(Listed(subscriptions, request.topicId));
              State() == Count(old(State()), groupSize, consumers, connection, request)
      ensures forall t :: Listed(subscriptions, t) == old(Listed(subscriptions, t))
    {
      var k := KeyOf(request);
      if k !in messageBuffer {
        messageBuffer := messageBuffer[k := []];
      }
      messageBuffer := messageBuffer[k := messageBuffer[k] + [connection]];
      var received := |messageBuffer[k]|;
      if received == Majority(groupSize) {
        DeliverAll(request);
      }
      if received == groupSize {
        messageBuffer := messageBuffer - {k};
      }
      assert messageBuffer == Count(old(State()), groupSize, [], connection, request).buffer;
    }

    method DeliverAll(request: Request)
      modifies this`subscriptions, this`consumerConnections
      ensures var consumers := old(Listed(subscriptions, request.topicId));
              consumerConnections == SendAll(old(consumerConnections), consumers, request)
      ensures forall t :: Listed(subscriptions, t) == old(Listed(subscriptions, t))
    {
      if request.topicId !in subscriptions {
        subscriptions := subscriptions[request.topicId := []];
      }
      var rest := subscriptions[request.topicId];
      while rest != []
        invariant SendAll(consumerConnections, rest, request)
               == SendAll(old(consumerConnections), old(Listed(subscriptions, request.topicId)), request)
        invariant forall t :: Listed(subscriptions, t) == old(Listed(subscriptions, t))
        decreases |rest|
      {
        consumerConnections := Send(consumerConnections, rest[0], request);
        rest := rest[1..];
      }
    }

    /** Every subscription sends an update to every engine, also when the topic has a consumer
        already, and lists the consumer once more. */
    method OnUpdateSubscriptionReceive(connection: nat, topic: nat)
      modifies this`subscriptions, this`engineConnections
      ensures |engineConnections| == old(|engineConnections|)
      ensures forall e :: 0 <= e < |engineConnections| ==>
                engineConnections[e] == old(engineConnections[e]) + [topic]
      ensures forall t :: Listed(subscriptions, t) ==
                          old(Listed(subscriptions, t)) + if t == topic then [connection] else []
    {
      if topic !in subscriptions || |subscriptions[topic]| == 0 {
        subscriptions := subscriptions[topic := []];
      }
      var e := 0;
      while e < |engineConnections|
        invariant 0 <= e <= |engineConnections| == old(|engineConnections|)
        invariant topic in subscriptions && forall t :: Listed(subscriptions, t) == old(Listed(subscriptions, t))
        invariant forall i :: 0 <= i < |engineConnections| ==>
                    engineConnections[i] == old(engineConnections[i]) + if i < e then [topic] else []
      {
        engineConnections := engineConnections[e := engineConnections[e] + [topic]];
        e := e + 1;
      }
      subscriptions := subscriptions[topic := subscriptions[topic] + [connection]];
    }
  }
}
