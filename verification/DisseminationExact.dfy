/** When exactly the guarantees hold. A nuzzle sends an update to every engine for every subscription,
    and every update lists it once more, so that a topic with two subscriptions at a nuzzle reaches it
    twice from every engine, and the nuzzle counts both. */
module DisseminationExact {
  import opened Dissemination
  import opened DisseminationRuns
  import opened DisseminationProgress

  ghost function OfTopic(t: nat): Request -> bool {
    (r: Request) => r.topicId == t
  }

  /** What consumer `c` has been sent of topic `t` is in order, at most once, and held by a majority
      of the engines. */
  ghost predicate Kept(g: Group, s: Sys, z: nat, c: nat, t: nat) {
    Shaped(g, s) && z < g.nuzzles &&
    var q := Filter(Inbox(s, z, c), OfTopic(t));
    && InOrder(q, s.published, |s.published|, OfTopic(t))
    && forall r :: r in q ==> 2 * |Holders(g, s, r)| > g.size
  }

  // ---------------------------------------------------------------- one subscription is enough

  lemma {:induction false} FilterFiner(q: seq<Request>, w: Request -> bool, finer: Request -> bool)
    requires forall r :: finer(r) ==> w(r)
    ensures Filter(Filter(q, w), finer) == Filter(q, finer)
  {
    if q != [] {
      var front, last := q[..|q| - 1], q[|q| - 1];
      FilterFiner(front, w, finer);
      if w(last) {
        assert Filter(q, w) == Filter(front, w) + [last];
        assert (Filter(front, w) + [last])[..|Filter(front, w)|] == Filter(front, w);
      } else {
        assert !finer(last) && Filter(q, w) == Filter(front, w) && Filter(q, finer) == Filter(front, finer);
      }
    }
  }

  lemma {:induction false} FilterInOrder(q: seq<Request>, pub: seq<Request>, b: nat, w: Request -> bool,
                                         finer: Request -> bool)
    requires b <= |pub| && InOrder(q, pub, b, w)
    ensures InOrder(Filter(q, finer), pub, b, finer)
  {
    if q != [] {
      var front, last := q[..|q| - 1], q[|q| - 1];
      FilterInOrder(front, pub, b, w, finer);
      if finer(last) {
        FilterOfWanted(front, finer);
        LastInOrder(Filter(front, finer), last, front, pub, b, finer);
      }
    }
  }

  lemma LastInOrder(p: seq<Request>, last: Request, front: seq<Request>, pub: seq<Request>, b: nat,
                    w: Request -> bool)
    requires b <= |pub| && InOrder(p, pub, b, w) && forall r :: r in p ==> r in front
    requires w(last) && last.globalId < b && pub[last.globalId] == last
    requires forall r :: r in front ==> r.globalId < last.globalId
    ensures InOrder(p + [last], pub, b, w)
  {
    assert forall i :: 0 <= i < |p| ==> p[i] in front;
  }

  lemma OnceIsKept(g: Group, s: Sys, z: nat, c: nat, t: nat)
    requires Subscribed(g) && Reachable(g, s) && z < g.nuzzles && Once(g, z, t)
    ensures Kept(g, s, z, c, t)
  {
    ReachableIsOk(g, s);
    InOrderAtMostOnce(g, s, z, c);
    var q := Filter(Inbox(s, z, c), OfTopic(t));
    FilterFiner(Inbox(s, z, c), ForNuzzle(g, z), OfTopic(t));
    FilterInOrder(Clean(g, s, z, c), s.published, |s.published|, ForConsumer(g, z, c), OfTopic(t));
    FilterOfWanted(Clean(g, s, z, c), OfTopic(t));
    forall r | r in q
      ensures 2 * |Holders(g, s, r)| > g.size
    {
      MajorityDurability(g, s, z, c, r, {});
    }
  }

  // ---------------------------------------------------------------- two are too many

  function First(t: nat): Request {
    Request(t, 0, 0, "")
  }

  /** The pump has sent the one request of topic `t` to the first `k` engines, and they have passed
      it on. */
  ghost predicate Fed(g: Group, s: Sys, t: nat, z: nat, k: nat) {
    && Reachable(g, s) && Shaped(g, s) && z < g.nuzzles
    && s.published == [First(t)] && s.pump.current == First(t) && s.pump.next == k <= g.size
    && (forall e :: 0 <= e < g.size ==> s.pump.out[e] == [] && s.up[e] && Free(s.engines[e]))
    && (forall e :: 0 <= e < k ==> Queue(s.engines[e].out, z) == Copies(First(t), |g.consumersOf(z, t)|))
    && (forall e :: k <= e < g.size ==> s.engines[e] == NO_STATE)
    && s.nuzzles[z] == NuzzleState(map[], map[])
  }

  lemma Starting(g: Group, t: nat, z: nat) returns (s: Sys)
    requires z < g.nuzzles
    ensures Fed(g, s, t, z, 0)
  {
    assert Run(g, [Start(g)]);
    s := Apply(g, Start(g), Publish(First(t)));
    ReachableNext(g, Start(g), Publish(First(t)));
  }

  lemma {:induction false} ForwardsAll(s: EngineState)
    requires !s.unacked
    ensures ForwardAll(s) == s.(remaining := [], out := SendAll(s.out, s.remaining, s.current))
    decreases |s.remaining|
  {
    if s.remaining != [] {
      ForwardsAll(Forward(s));
    }
  }

  lemma {:induction false} PassAll(g: Group, s: Sys, e: nat) returns (s': Sys)
    requires Shaped(g, s) && Reachable(g, s) && e < g.size && s.up[e] && !s.engines[e].unacked
    ensures Reachable(g, s') && s' == s.(engines := s.engines[e := ForwardAll(s.engines[e])])
    decreases |s.engines[e].remaining|
  {
    if s.engines[e].remaining == [] {
      s' := s;
      assert s.engines == s.engines[e := s.engines[e]];
    } else {
      var s1 := Apply(g, s, Pass(e));
      ReachableNext(g, s, Pass(e));
      s' := PassAll(g, s1, e);
      assert s'.engines == s.engines[e := ForwardAll(s.engines[e])];
    }
  }

  /** The engine stores, acknowledges and passes on: as often as it lists the nuzzle. */
  lemma PrepareAll(g: Group, s: Sys, e: nat, z: nat) returns (s': Sys)
    requires Subscribed(g) && Shaped(g, s) && Reachable(g, s) && e < g.size && z < g.nuzzles
    requires s.up[e] && s.engines[e] == NO_STATE && |s.pump.out[e]| == 1
    ensures Reachable(g, s') && Shaped(g, s')
    ensures var r := s.pump.out[e][0];
            && s' == s.(pump := s'.pump, engines := s.engines[e := s'.engines[e]], stored := s'.stored)
            && s'.pump == s.pump.(out := s.pump.out[e := []])
            && Free(s'.engines[e]) && Queue(s'.engines[e].out, z) == Copies(r, |g.consumersOf(z, r.topicId)|)
  {
    var r := s.pump.out[e][0];
    var s1 := Apply(g, s, Prepare(e));
    ReachableNext(g, s, Prepare(e));
    var s2 := Apply(g, s1, Confirm(e));
    ReachableNext(g, s1, Confirm(e));
    s' := PassAll(g, s2, e);
    ForwardsAll(s2.engines[e]);
    SendAllReaches(map[], g.nuzzlesOf(e, r.topicId), r, z);
    assert s.pump.out[e][1..] == [];
  }

  lemma FeedNext(g: Group, s: Sys, t: nat, z: nat, k: nat) returns (s': Sys)
    requires Subscribed(g) && Fed(g, s, t, z, k) && k < g.size
    ensures Fed(g, s', t, z, k + 1)
  {
    var s1 := Apply(g, s, SendPrepare);
    ReachableNext(g, s, SendPrepare);
    assert s1.pump.out[k] == [First(t)];
    s' := PrepareAll(g, s1, k, z);
  }

  lemma {:induction false} FeedUpTo(g: Group, t: nat, z: nat, k: nat) returns (s: Sys)
    requires Subscribed(g) && z < g.nuzzles && k <= g.size
    ensures Fed(g, s, t, z, k)
  {
    if k == 0 {
      s := Starting(g, t, z);
    } else {
      s := FeedUpTo(g, t, z, k - 1);
      s := FeedNext(g, s, t, z, k - 1);
    }
  }

  /** Of the `k` engines that have the request, the nuzzle has received it once from the first `j`. */
  ghost predicate Voting(g: Group, s: Sys, t: nat, z: nat, k: nat, j: nat) {
    && Reachable(g, s) && Shaped(g, s) && z < g.nuzzles && j <= k <= g.size
    && s.published == [First(t)]
    && (forall e :: 0 <= e < j ==> Queue(s.engines[e].out, z) != [] && Queue(s.engines[e].out, z)[0] == First(t))
    && (forall e :: j <= e < k ==> Queue(s.engines[e].out, z) == Copies(First(t), |g.consumersOf(z, t)|))
    && (forall e :: k <= e < g.size ==> s.engines[e].buffer == map[])
    && |VotesFor(s.nuzzles[z], KeyOf(First(t)))| == j
  }

  lemma {:induction false} VoteUpTo(g: Group, t: nat, z: nat, k: nat, j: nat) returns (s: Sys)
    requires Subscribed(g) && z < g.nuzzles && |g.consumersOf(z, t)| >= 2 && j <= k < Majority(g.size) && k <= g.size
    ensures Voting(g, s, t, z, k, j)
  {
    if j == 0 {
      s := FeedUpTo(g, t, z, k);
    } else {
      var s0 := VoteUpTo(g, t, z, k, j - 1);
      s := Apply(g, s0, Receive(j - 1, z));
      ReachableNext(g, s0, Receive(j - 1, z));
    }
  }

  lemma {:induction false} Delivers(n: NuzzleState, size: nat, consumers: seq<nat>, e: nat, r: Request, c: nat)
    requires |VotesFor(n, KeyOf(r))| + 1 == Majority(size)
    ensures Queue(Count(n, size, consumers, e, r).out, c) == Queue(n.out, c) + Copies(r, Listings(consumers, c))
  {
    SendAllReaches(n.out, consumers, r, c);
  }

  /** With two engines or more: the first engine's second copy makes up the majority. */
  lemma MinorityIsDelivered(g: Group, z: nat, c: nat, t: nat) returns (s: Sys)
    requires Subscribed(g) && z < g.nuzzles && c in g.consumersOf(z, t) && !Once(g, z, t) && g.size >= 2
    ensures Reachable(g, s) && !Kept(g, s, z, c, t)
  {
    var k := Majority(g.size) - 1;
    var r := First(t);
    var s0 := VoteUpTo(g, t, z, k, k);
    s := Apply(g, s0, Receive(0, z));
    ReachableNext(g, s0, Receive(0, z));
    Delivers(s0.nuzzles[z], g.size, g.consumersOf(z, t), 0, r, c);
    assert forall e :: k <= e < g.size ==> s.engines[e].buffer == map[];
    FewHold(g, s, r, k);
    assert Inbox(s, z, c)[|Inbox(s, z, c)| - 1] == r;
    HeldByTooFew(g, s, z, c, t, r);
  }

  lemma HeldByTooFew(g: Group, s: Sys, z: nat, c: nat, t: nat, r: Request)
    requires Shaped(g, s) && z < g.nuzzles && r in Inbox(s, z, c) && r.topicId == t
    requires 2 * |Holders(g, s, r)| <= g.size
    ensures !Kept(g, s, z, c, t)
  {
    FilterOfWanted(Inbox(s, z, c), OfTopic(t));
  }

  lemma FewHold(g: Group, s: Sys, r: Request, k: nat)
    requires Shaped(g, s) && forall e :: k <= e < g.size ==> s.engines[e].buffer == map[]
    ensures 2 * |Holders(g, s, r)| <= 2 * k
  {
    BoundedSet(Holders(g, s, r), k);
  }

  /** With a single engine: both copies are delivered. */
  lemma DeliveredTwice(g: Group, z: nat, c: nat, t: nat) returns (s: Sys)
    requires Subscribed(g) && z < g.nuzzles && c in g.consumersOf(z, t) && !Once(g, z, t) && g.size == 1
    ensures Reachable(g, s) && !Kept(g, s, z, c, t)
  {
    var r := First(t);
    var consumers := g.consumersOf(z, t);
    var s0 := FeedUpTo(g, t, z, 1);
    var s1 := Apply(g, s0, Receive(0, z));
    ReachableNext(g, s0, Receive(0, z));
    Delivers(s0.nuzzles[z], 1, consumers, 0, r, c);
    assert Queue(s1.engines[0].out, z)[0] == r;
    s := Apply(g, s1, Receive(0, z));
    ReachableNext(g, s1, Receive(0, z));
    Delivers(s1.nuzzles[z], 1, consumers, 0, r, c);
    var q := Inbox(s, z, c);
    assert q == Copies(r, Listings(consumers, c)) + Copies(r, Listings(consumers, c));
    FilterOfWanted(q, OfTopic(t));
    assert q[0] == r && q[1] == r;
  }

  /** The guarantees hold for a consumer of a topic, in every state of every run, exactly when the
      nuzzle has received one subscription for the topic. */
  lemma ExactCondition(g: Group, z: nat, c: nat, t: nat)
    requires Subscribed(g) && z < g.nuzzles && c in g.consumersOf(z, t)
    ensures (forall s :: Reachable(g, s) ==> Kept(g, s, z, c, t)) <==> Once(g, z, t)
  {
    if Once(g, z, t) {
      forall s | Reachable(g, s)
        ensures Kept(g, s, z, c, t)
      {
        OnceIsKept(g, s, z, c, t);
      }
    } else if g.size == 1 {
      var s := DeliveredTwice(g, z, c, t);
    } else {
      var s := MinorityIsDelivered(g, z, c, t);
    }
  }
}
