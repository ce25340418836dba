/** Progress: what is left to be done gets less with every step, and when no step is left a majority
    of engines that are up is enough for everything to have been delivered. */
module DisseminationProgress {
  import opened Dissemination
  import opened DisseminationRuns

  // ---------------------------------------------------------------- the work that is left

  /** For each nuzzle that an engine lists there is a send and a receive, and before that the
      request is received, stored and acknowledged. */
  ghost function Cost(g: Group, e: nat, r: Request): nat {
    2 + 2 * |g.nuzzlesOf(e, r.topicId)|
  }

  ghost function Inbound(g: Group, e: nat, q: seq<Request>): nat {
    if q == [] then 0 else Cost(g, e, q[0]) + Inbound(g, e, q[1..])
  }

  /** On the way to the first `n` nuzzles. */
  ghost function Outbound(out: Queues, n: nat): nat {
    if n == 0 then 0 else Outbound(out, n - 1) + |Queue(out, n - 1)|
  }

  ghost function EngineWork(g: Group, s: Sys, e: nat): nat
    requires Shaped(g, s) && e < g.size
  {
    var engine := s.engines[e];
    Inbound(g, e, s.pump.out[e]) + (if engine.unacked then 1 else 0) + 2 * |engine.remaining|
    + Outbound(engine.out, g.nuzzles)
  }

  /** Of the first `n` engines. */
  ghost function EnginesWork(g: Group, s: Sys, n: nat): nat
    requires Shaped(g, s) && n <= g.size
  {
    if n == 0 then 0 else EnginesWork(g, s, n - 1) + EngineWork(g, s, n - 1)
  }

  /** The sends that the pump has before it, from engine `e` on. */
  ghost function PumpWork(g: Group, r: Request, e: nat): nat
    decreases g.size - e
  {
    if e >= g.size then 0 else 1 + Cost(g, e, r) + PumpWork(g, r, e + 1)
  }

  ghost function Work(g: Group, s: Sys): nat
    requires Shaped(g, s)
  {
    PumpWork(g, s.pump.current, s.pump.next) + EnginesWork(g, s, g.size)
  }

  lemma {:induction false} InboundAppend(g: Group, e: nat, q: seq<Request>, r: Request)
    ensures Inbound(g, e, q + [r]) == Inbound(g, e, q) + Cost(g, e, r)
  {
    if q == [] {
      assert ([r])[1..] == [];
    } else {
      assert (q + [r])[1..] == q[1..] + [r];
      InboundAppend(g, e, q[1..], r);
    }
  }

  lemma {:induction false} OutboundChange(out: Queues, z: nat, q: seq<Request>, n: nat)
    ensures Outbound(out[z := q], n) == Outbound(out, n) + if z < n then |q| - |Queue(out, z)| else 0
  {
    if n > 0 {
      OutboundChange(out, z, q, n - 1);
    }
  }

  /** A step that touches one engine. */
  lemma {:induction false} EnginesWorkChange(g: Group, s: Sys, s': Sys, e: nat, n: nat)
    requires Shaped(g, s) && Shaped(g, s') && e < g.size && n <= g.size
    requires forall i :: 0 <= i < g.size && i != e ==> s'.engines[i] == s.engines[i] && s'.pump.out[i] == s.pump.out[i]
    ensures EnginesWork(g, s', n) - EnginesWork(g, s, n) ==
            if e < n then EngineWork(g, s', e) - EngineWork(g, s, e) else 0
  {
    if n > 0 {
      EnginesWorkChange(g, s, s', e, n - 1);
    }
  }

  /** The steps that nobody outside causes. */
  predicate Internal(st: Step) {
    !st.Publish? && !st.Crash?
  }

  lemma EngineWorkShrinks(g: Group, s: Sys, st: Step)
    requires Shaped(g, s) && Enabled(g, s, st) && Internal(st) && !st.SendPrepare?
    ensures Shaped(g, Apply(g, s, st)) && EngineWork(g, Apply(g, s, st), st.e) < EngineWork(g, s, st.e)
  {
    var s0 := s.engines[st.e];
    match st {
      case Prepare(e) =>
      case Confirm(e) =>
      case Pass(e) =>
        OutboundChange(s0.out, s0.remaining[0], Queue(s0.out, s0.remaining[0]) + [s0.current], g.nuzzles);
      case Receive(e, z) => OutboundChange(s0.out, z, Queue(s0.out, z)[1..], g.nuzzles);
      case Lose(e, z) => OutboundChange(s0.out, z, Queue(s0.out, z)[..|Queue(s0.out, z)| - 1], g.nuzzles);
    }
  }

  /** Every internal step leaves less to be done. */
  lemma {:induction false} WorkShrinks(g: Group, s: Sys, st: Step)
    requires Shaped(g, s) && Enabled(g, s, st) && Internal(st)
    ensures Shaped(g, Apply(g, s, st)) && Work(g, Apply(g, s, st)) < Work(g, s)
  {
    var s' := Apply(g, s, st);
    if st.SendPrepare? {
      var e := s.pump.next;
      EnginesWorkChange(g, s, s', e, g.size);
      InboundAppend(g, e, s.pump.out[e], s.pump.current);
    } else {
      EngineWorkShrinks(g, s, st);
      EnginesWorkChange(g, s, s', st.e, g.size);
    }
  }

  // ---------------------------------------------------------------- when nothing is left

  /** Nothing can happen but a publish or a crash. */
  ghost predicate Quiet(g: Group, s: Sys)
    requires Shaped(g, s)
  {
    forall st :: Internal(st) ==> !Enabled(g, s, st)
  }

  /** The engines `m` are up and have nothing left to do for nuzzle `z`. */
  ghost predicate Drained(g: Group, s: Sys, m: set<nat>, z: nat)
    requires Shaped(g, s)
  {
    && s.pump.next == g.size
    && forall e :: e in m ==>
         e < g.size && s.up[e] && s.pump.out[e] == [] && Free(s.engines[e]) && Queue(s.engines[e].out, z) == []
  }

  ghost predicate AllUp(g: Group, s: Sys, m: set<nat>)
    requires Shaped(g, s)
  {
    forall e :: e in m ==> e < g.size && s.up[e]
  }

  lemma QuietIsDrained(g: Group, s: Sys, m: set<nat>, z: nat)
    requires Subscribed(g) && Reachable(g, s) && Shaped(g, s) && z < g.nuzzles
    requires Quiet(g, s) && AllUp(g, s, m)
    ensures Drained(g, s, m, z)
  {
    ReachableIsOk(g, s);
    assert !Enabled(g, s, SendPrepare);
    forall e | e in m
      ensures s.pump.out[e] == [] && Free(s.engines[e]) && Queue(s.engines[e].out, z) == []
    {
      assert !Enabled(g, s, Confirm(e)) && !Enabled(g, s, Pass(e));
      assert !Enabled(g, s, Prepare(e)) && !Enabled(g, s, Receive(e, z));
    }
  }

  lemma DrainedHasVoted(g: Group, s: Sys, m: set<nat>, z: nat, i: nat)
    requires Inv(g, s) && |s.published| <= U64_SIZE && z < g.nuzzles && Drained(g, s, m, z)
    requires i < |s.published| && ForNuzzle(g, z)(s.published[i])
    ensures m <= Voters(g, s.got, z, i)
  {
    forall e | e in m
      ensures e in Voters(g, s.got, z, i)
    {
      assert EngineFits(g, s, e) && Links(g, s, e);
      assert LinkOk(g, s.engines[e], s.up[e], s.stored[e], s.published, Got(s.got, e, z), z);
      assert |s.pump.out[e]| == |s.published| - s.stored[e];
      PickNothing(s.published, Got(s.got, e, z), s.stored[e], ForNuzzle(g, z));
    }
  }

  /** Everything is delivered: as soon as a majority of the engines is up and its connections have
      drained, a consumer has been sent exactly the published requests of its topics. */
  lemma EverythingDelivered(g: Group, s: Sys, m: set<nat>, z: nat, c: nat)
    requires Subscribed(g) && Reachable(g, s) && Shaped(g, s) && z < g.nuzzles
    requires 2 * |m| > g.size && Drained(g, s, m, z)
    ensures Clean(g, s, z, c) == Pick(s.published, 0, |s.published|, ForConsumer(g, z, c))
  {
    CleanIsPicked(g, s, z, c);
    var d := s.delivered[z];
    forall i | d <= i < |s.published|
      ensures !ForConsumer(g, z, c)(s.published[i])
    {
      if ForNuzzle(g, z)(s.published[i]) {
        assert Counted(g, s.nuzzles[z], z, s.published[i], i, s.got, d);
        DrainedHasVoted(g, s, m, z, i);
        SubsetIsSmaller(m, Voters(g, s.got, z, i));
      }
    }
    PickSkips(s.published, 0, d, |s.published|, ForConsumer(g, z, c));
  }

  // ---------------------------------------------------------------- runs without publishes and crashes

  ghost predicate InternalNext(g: Group, s: Sys, s': Sys) {
    Shaped(g, s) && exists st :: Internal(st) && Enabled(g, s, st) && s' == Apply(g, s, st)
  }

  lemma InternalStep(g: Group, s: Sys, s': Sys)
    requires Reachable(g, s) && InternalNext(g, s, s')
    ensures Shaped(g, s) && Shaped(g, s') && Reachable(g, s') && Work(g, s') < Work(g, s)
    ensures s'.published == s.published && s'.up == s.up
  {
    var st :| Internal(st) && Enabled(g, s, st) && s' == Apply(g, s, st);
    WorkShrinks(g, s, st);
    ReachableNext(g, s, st);
  }

  lemma {:induction false} InternalRun(g: Group, run: seq<Sys>, i: nat)
    requires i < |run| && Shaped(g, run[0]) && Reachable(g, run[0])
    requires forall i :: 0 < i < |run| ==> InternalNext(g, run[i - 1], run[i])
    ensures Shaped(g, run[i]) && Reachable(g, run[i]) && Work(g, run[i]) + i <= Work(g, run[0])
    ensures run[i].published == run[0].published && run[i].up == run[0].up
  {
    if i > 0 {
      InternalRun(g, run, i - 1);
      InternalStep(g, run[i - 1], run[i]);
    }
  }

  lemma ReachableNext(g: Group, s: Sys, st: Step)
    requires Shaped(g, s) && Reachable(g, s) && Enabled(g, s, st) && |Apply(g, s, st).published| <= U64_SIZE
    ensures Reachable(g, Apply(g, s, st))
  {
    var s' := Apply(g, s, st);
    var run :| Run(g, run) && s in run;
    var i :| 0 <= i < |run| && run[i] == s;
    var run' := run[..i + 1] + [s'];
    assert Next(g, s, s');
    assert Run(g, run') by {
      forall j | 0 < j < |run'|
        ensures Next(g, run'[j - 1], run'[j])
      {
        assert j <= i ==> Next(g, run[j - 1], run[j]);
      }
    }
    assert s' == run'[i + 1];
  }

  /** Nothing goes on for ever, and what has been published arrives: without further publishes and
      crashes a run has only so many steps, and when no more are left, the engines that are up being
      a majority, every consumer has been sent exactly the published requests of its topics. */
  lemma EndsDelivered(g: Group, run: seq<Sys>, m: set<nat>, z: nat, c: nat)
    requires Subscribed(g) && run != [] && Shaped(g, run[0]) && Reachable(g, run[0])
    requires forall i :: 0 < i < |run| ==> InternalNext(g, run[i - 1], run[i])
    requires 2 * |m| > g.size && AllUp(g, run[0], m) && z < g.nuzzles
    ensures |run| <= Work(g, run[0]) + 1
    ensures var last := run[|run| - 1];
            Shaped(g, last) && (Quiet(g, last) ==>
              Clean(g, last, z, c) == Pick(run[0].published, 0, |run[0].published|, ForConsumer(g, z, c)))
  {
    InternalRun(g, run, |run| - 1);
    var last := run[|run| - 1];
    if Quiet(g, last) {
      QuietIsDrained(g, last, m, z);
      EverythingDelivered(g, last, m, z, c);
    }
  }
}
