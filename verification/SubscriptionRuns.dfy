/** How the subscriptions of a group come about: any sequence of subscriptions at the nuzzles, with the
    updates to the engines received in any order that keeps the order of each connection. */
module SubscriptionRuns {
  import opened Dissemination
  import opened DisseminationRuns
  import opened DisseminationExact

  datatype Subscription = Subscription(nuzzle: nat, consumer: nat, topic: nat)

  /** The tables of the engines and of the nuzzles, and the topics in the updates on their way from
      nuzzle z to engine e; as history the subscriptions received. */
  datatype Tables = Tables(engines: seq<map<nat, seq<nat>>>, nuzzles: seq<map<nat, seq<nat>>>,
                           updates: seq<seq<seq<nat>>>, history: seq<Subscription>)

  predicate Shaped(s: Tables) {
    && |s.updates| == |s.nuzzles| && |s.engines| >= 1
    && forall z :: 0 <= z < |s.updates| ==> |s.updates[z]| == |s.engines|
  }

  function Empty(size: nat, nuzzles: nat): Tables {
    Tables(seq(size, _ => map[]), seq(nuzzles, _ => map[]), seq(nuzzles, _ => seq(size, _ => [])), [])
  }

  datatype Change =
    | Subscribe(z: nat, c: nat, t: nat)   // nuzzle z receives a subscription
    | Update(e: nat, z: nat)              // engine e receives an update from nuzzle z

  function Add(table: map<nat, seq<nat>>, t: nat, c: nat): map<nat, seq<nat>> {
    table[t := Listed(table, t) + [c]]
  }

  predicate Possible(s: Tables, ch: Change)
    requires Shaped(s)
  {
    match ch
    case Subscribe(z, c, t) => z < |s.nuzzles|
    case Update(e, z) => e < |s.engines| && z < |s.nuzzles| && s.updates[z][e] != []
  }

  function After(s: Tables, ch: Change): Tables
    requires Shaped(s) && Possible(s, ch)
  {
    match ch
    case Subscribe(z, c, t) =>
      var sent := seq(|s.engines|, e requires 0 <= e < |s.engines| => s.updates[z][e] + [t]);
      s.(nuzzles := s.nuzzles[z := Add(s.nuzzles[z], t, c)], updates := s.updates[z := sent],
         history := s.history + [Subscription(z, c, t)])
    case Update(e, z) =>
      s.(engines := s.engines[e := Add(s.engines[e], s.updates[z][e][0], z)],
         updates := s.updates[z := s.updates[z][e := s.updates[z][e][1..]]])
  }

  ghost predicate Follows(s: Tables, s': Tables) {
    Shaped(s) && exists ch :: Possible(s, ch) && s' == After(s, ch)
  }

  ghost predicate Run(size: nat, nuzzles: nat, run: seq<Tables>) {
    && size >= 1 && run != [] && run[0] == Empty(size, nuzzles)
    && forall i :: 0 < i < |run| ==> Follows(run[i - 1], run[i])
  }

  /** The consumers that have subscribed to a topic at a nuzzle, in order and with repetitions. */
  function Subscribers(history: seq<Subscription>, z: nat, t: nat): seq<nat> {
    if history == [] then []
    else
      var last := history[|history| - 1];
      Subscribers(history[..|history| - 1], z, t) + if last.nuzzle == z && last.topic == t then [last.consumer] else []
  }

  ghost predicate Balanced(s: Tables, e: nat, z: nat, t: nat)
    requires Shaped(s) && e < |s.engines| && z < |s.nuzzles|
  {
    Listings(Listed(s.engines[e], t), z) + Listings(s.updates[z][e], t) == |Subscribers(s.history, z, t)|
  }

  ghost predicate Inv(s: Tables) {
    && Shaped(s)
    && (forall z, t :: 0 <= z < |s.nuzzles| ==> Listed(s.nuzzles[z], t) == Subscribers(s.history, z, t))
    && forall e, z, t :: 0 <= e < |s.engines| && 0 <= z < |s.nuzzles| ==> Balanced(s, e, z, t)
  }

  lemma {:induction false} SubscribersGrow(history: seq<Subscription>, z: nat, c: nat, t: nat, y: nat, u: nat)
    ensures Subscribers(history + [Subscription(z, c, t)], y, u) ==
            Subscribers(history, y, u) + if y == z && u == t then [c] else []
  {
    assert (history + [Subscription(z, c, t)])[..|history|] == history;
  }

  lemma SubscribeKeeps(s: Tables, z: nat, c: nat, t: nat)
    requires Inv(s) && Possible(s, Subscribe(z, c, t))
    ensures Inv(After(s, Subscribe(z, c, t)))
  {
    var s' := After(s, Subscribe(z, c, t));
    forall y, u | 0 <= y < |s'.nuzzles|
      ensures Listed(s'.nuzzles[y], u) == Subscribers(s'.history, y, u)
    {
      SubscribersGrow(s.history, z, c, t, y, u);
    }
    forall e, y, u | 0 <= e < |s'.engines| && 0 <= y < |s'.nuzzles|
      ensures Balanced(s', e, y, u)
    {
      assert Balanced(s, e, y, u);
      SubscribersGrow(s.history, z, c, t, y, u);
      ListingsAppend(s.updates[z][e], t, u);
    }
  }

  lemma UpdateKeeps(s: Tables, e: nat, z: nat)
    requires Inv(s) && Possible(s, Update(e, z))
    ensures Inv(After(s, Update(e, z)))
  {
    var s' := After(s, Update(e, z));
    forall i, y, u | 0 <= i < |s'.engines| && 0 <= y < |s'.nuzzles|
      ensures Balanced(s', i, y, u)
    {
      assert Balanced(s, i, y, u);
      if i == e {
        ListingsAppend(Listed(s.engines[e], u), z, y);
      }
    }
  }

  lemma EmptyIsBalanced(size: nat, nuzzles: nat)
    requires size >= 1
    ensures Inv(Empty(size, nuzzles))
  {
    var s := Empty(size, nuzzles);
    forall e, z, t | 0 <= e < size && 0 <= z < nuzzles
      ensures Balanced(s, e, z, t)
    {
    }
  }

  lemma ChangeKeeps(s: Tables, s': Tables)
    requires Inv(s) && Follows(s, s')
    ensures Inv(s') && |s'.engines| == |s.engines| && |s'.nuzzles| == |s.nuzzles|
  {
    var ch :| Possible(s, ch) && s' == After(s, ch);
    match ch {
      case Subscribe(z, c, t) => SubscribeKeeps(s, z, c, t);
      case Update(e, z) => UpdateKeeps(s, e, z);
    }
  }

  lemma {:induction false} RunKeeps(size: nat, nuzzles: nat, run: seq<Tables>, i: nat)
    requires Run(size, nuzzles, run) && i < |run|
    ensures Inv(run[i]) && |run[i].engines| == size && |run[i].nuzzles| == nuzzles
  {
    if i == 0 {
      EmptyIsBalanced(size, nuzzles);
    } else {
      RunKeeps(size, nuzzles, run, i - 1);
      ChangeKeeps(run[i - 1], run[i]);
    }
  }

  /** At any time: an engine lists a nuzzle for a topic as often as the nuzzle has received a
      subscription for it, less the updates that are still on their way. */
  lemma {:induction false} ListedAsOftenAsSubscribed(size: nat, nuzzles: nat, run: seq<Tables>, i: nat, e: nat, z: nat,
                                                     t: nat)
    requires Run(size, nuzzles, run) && i < |run| && e < size && z < nuzzles
    ensures Inv(run[i]) && |run[i].engines| == size && |run[i].nuzzles| == nuzzles
    ensures Listings(Listed(run[i].engines[e], t), z) ==
            |Subscribers(run[i].history, z, t)| - Listings(run[i].updates[z][e], t)
    ensures Listed(run[i].nuzzles[z], t) == Subscribers(run[i].history, z, t)
  {
    RunKeeps(size, nuzzles, run, i);
    assert Balanced(run[i], e, z, t);
  }

  /** All updates have been received. */
  predicate Arrived(s: Tables)
    requires Shaped(s)
  {
    forall z, e :: 0 <= z < |s.nuzzles| && 0 <= e < |s.engines| ==> s.updates[z][e] == []
  }

  ghost function GroupOf(s: Tables): Group
    requires Shaped(s)
  {
    Group(|s.engines|, |s.nuzzles|,
          (e: nat, t: nat) => if e < |s.engines| then Listed(s.engines[e], t) else [],
          (z: nat, t: nat) => if z < |s.nuzzles| then Listed(s.nuzzles[z], t) else [])
  }

  lemma SubscriptionsAgree(s: Tables)
    requires Inv(s) && Arrived(s)
    ensures Subscribed(GroupOf(s))
  {
    var g := GroupOf(s);
    forall e, z, t | 0 <= e < g.size && 0 <= z < g.nuzzles
      ensures Listings(g.nuzzlesOf(e, t), z) == |g.consumersOf(z, t)|
    {
      assert Balanced(s, e, z, t);
    }
  }

  /** The condition under which the guarantees hold, as a caller can check it: with every history of
      subscriptions, once its updates have arrived, what a consumer of a topic is sent is in order, at
      most once and held by a majority, in every state of every run, exactly when the nuzzle of the
      consumer has received one subscription for the topic. */
  lemma {:induction false} OneSubscriptionExactly(size: nat, nuzzles: nat, run: seq<Tables>, i: nat, z: nat, c: nat,
                                                  t: nat)
    requires Run(size, nuzzles, run) && i < |run| && z < nuzzles && c in Subscribers(run[i].history, z, t)
    requires Shaped(run[i]) && Arrived(run[i])
    ensures var g := GroupOf(run[i]);
            && Subscribed(g)
            && ((forall s :: Reachable(g, s) ==> Kept(g, s, z, c, t)) <==> |Subscribers(run[i].history, z, t)| == 1)
  {
    RunKeeps(size, nuzzles, run, i);
    SubscriptionsAgree(run[i]);
    ExactCondition(GroupOf(run[i]), z, c, t);
  }
}
