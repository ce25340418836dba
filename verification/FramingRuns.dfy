/** One connection as a state machine: threads that enqueue messages and post a try_send in two
    separate steps, the event loop of the sender, a byte stream that takes what is written in
    pieces of any size, and the receiver. */
module FramingRuns {
  import opened Bytes
  import opened Framing

  /** `pushing` threads have put a message into the queue and not yet posted their try_send.
      As history, the messages in the order in which they were enqueued, and those started. */
  datatype Conn = Conn(tx: SenderState, pushing: nat, posted: nat, wire: seq<byte>, rx: ReceiverState,
                       enqueued: seq<Message>, started: seq<Sent>)

  function Start(): Conn {
    Conn(SenderState([], Idle, [], [], [], 0, 0), 0, 0, [],
         ReceiverState(ReadingPreHeader, [], [], [], 0, []), [], [])
  }

  datatype Step =
    | Push(m: Message)                       // send_message, first half
    | Post                                   // send_message, second half
    | RunTrySend(now: nat, delta: nat)
    | Transmit(k: nat)                       // the stream takes k bytes
    | WriteDone                              // a completion handler of the sender
    | Release(now: nat, delta: nat)          // the end of next_body_seg, under the lock
    | ReadDone(room: nat)                    // a completion handler of the receiver

  predicate Enabled(c: Conn, st: Step) {
    match st
    case Push(m) => Fits(m)
    case Post => c.pushing > 0
    case RunTrySend(_, _) => c.posted > 0
    case Transmit(k) => 1 <= k <= |c.tx.writing|
    case WriteDone => InFlight(c.tx) && c.tx.writing == []
    case Release(_, _) => c.tx.flight.Completed?
    case ReadDone(_) => RxShaped(c.rx) && !c.rx.reading.Closed? && Wanted(c.rx) <= |c.wire|
  }

  /** What starts when the sender's lock is taken. */
  function Starting(c: Conn, now: nat, delta: nat): seq<Sent> {
    if c.tx.queue == [] then [] else [Sent(c.tx.queue[0], now, delta)]
  }

  function Apply(c: Conn, st: Step): Conn
    requires Enabled(c, st)
  {
    match st
    case Push(m) =>
      c.(tx := c.tx.(queue := c.tx.queue + [m]), pushing := c.pushing + 1, enqueued := c.enqueued + [m])
    case Post =>
      c.(pushing := c.pushing - 1, posted := c.posted + 1)
    case RunTrySend(now, delta) =>
      c.(tx := AfterTrySend(c.tx, now, delta), posted := c.posted - 1,
         started := c.started + if c.tx.flight.Idle? then Starting(c, now, delta) else [])
    case Transmit(k) =>
      c.(tx := c.tx.(writing := c.tx.writing[k..]), wire := c.wire + c.tx.writing[..k])
    case WriteDone =>
      c.(tx := WriteCompleted(c.tx))
    case Release(now, delta) =>
      c.(tx := AfterSendNext(c.tx, now, delta), started := c.started + Starting(c, now, delta))
    case ReadDone(room) =>
      c.(rx := ReadCompleted(c.rx, c.wire[..Wanted(c.rx)], room), wire := c.wire[Wanted(c.rx)..])
  }

  ghost predicate Next(c: Conn, c': Conn) {
    exists st :: Enabled(c, st) && c' == Apply(c, st)
  }

  ghost predicate Run(run: seq<Conn>) {
    run != [] && run[0] == Start() && forall i :: 0 < i < |run| ==> Next(run[i - 1], run[i])
  }

  // ---------------------------------------------------------------- the byte stream

  ghost function Stream(started: seq<Sent>): seq<byte> {
    if started == [] then [] else Stream(started[..|started| - 1]) + Frame(started[|started| - 1])
  }

  lemma {:induction false} FrameInStream(started: seq<Sent>, r: nat)
    requires r < |started|
    ensures Stream(started[..r]) + Frame(started[r]) <= Stream(started)
    decreases |started|
  {
    var front := started[..|started| - 1];
    if r < |front| {
      FrameInStream(front, r);
      assert front[..r] == started[..r];
      assert Stream(front) <= Stream(started);
    } else {
      assert front == started[..r];
    }
  }

  // ---------------------------------------------------------------- the invariant

  /** The order of the queue, and no lost wakeup. */
  ghost predicate QueueOk(c: Conn) {
    && |c.started| <= |c.enqueued| && c.tx.queue == c.enqueued[|c.started|..]
    && (forall i :: 0 <= i < |c.started| ==> c.started[i].m == c.enqueued[i])
    && (forall i :: 0 <= i < |c.enqueued| ==> Fits(c.enqueued[i]))
    && (c.tx.flight.Idle? && c.tx.queue != [] ==> c.pushing + c.posted > 0)
  }

  /** The bytes that were ever to be written are those the receiver has, those on the way, and
      those the sender has still to write. No two messages mix. */
  ghost predicate BytesOk(c: Conn) {
    && |c.rx.completed| <= |c.started|
    && Balanced(Stream(c.started), Stream(c.started[..|c.rx.completed|]), Partial(c.rx), c.wire, Unsent(c.tx))
  }

  ghost predicate Balanced(all: seq<byte>, done: seq<byte>, part: seq<byte>, wire: seq<byte>, unsent: seq<byte>) {
    all == done + part + wire + unsent
  }

  lemma {:induction false} BalanceStarts(all: seq<byte>, done: seq<byte>, part: seq<byte>, wire: seq<byte>,
                                         frame: seq<byte>)
    requires Balanced(all, done, part, wire, [])
    ensures Balanced(all + frame, done, part, wire, frame)
  {
    assert done + part + wire + [] == done + part + wire;
  }

  lemma {:induction false} BalanceTransmits(all: seq<byte>, done: seq<byte>, part: seq<byte>, wire: seq<byte>,
                                            unsent: seq<byte>, x: seq<byte>, unsent': seq<byte>)
    requires Balanced(all, done, part, wire, unsent) && unsent == x + unsent'
    ensures Balanced(all, done, part, wire + x, unsent')
  {
    var p := done + part + wire;
    assert p + (x + unsent') == (p + x) + unsent';
    assert p + x == done + part + (wire + x);
  }

  lemma BalanceReads(all: seq<byte>, done: seq<byte>, part: seq<byte>, wire: seq<byte>, unsent: seq<byte>,
                     part': seq<byte>, wire': seq<byte>)
    requires Balanced(all, done, part, wire, unsent) && part + wire == part' + wire'
    ensures Balanced(all, done, part', wire', unsent)
  {
    assert done + part + wire == done + (part + wire);
    assert done + part' + wire' == done + (part' + wire');
  }

  lemma BalanceCompletes(all: seq<byte>, done: seq<byte>, part: seq<byte>, wire: seq<byte>, unsent: seq<byte>,
                         frame: seq<byte>, wire': seq<byte>)
    requires Balanced(all, done, part, wire, unsent) && part + wire == frame + wire'
    ensures Balanced(all, done + frame, [], wire', unsent)
  {
    BalanceReads(all, done, part, wire, unsent, frame, wire');
    assert done + frame + [] == done + frame;
  }

  /** What lies behind the completed messages. */
  lemma BalanceFront(all: seq<byte>, done: seq<byte>, part: seq<byte>, wire: seq<byte>, unsent: seq<byte>,
                     frame: seq<byte>)
    requires Balanced(all, done, part, wire, unsent) && done + frame <= all
    ensures frame <= part + wire + unsent
  {
    assert done + part + wire + unsent == done + (part + wire + unsent);
    assert all[|done|..] == part + wire + unsent;
    assert (done + frame)[|done|..] == frame;
  }

  /** What the receiver has completed is what was sent. */
  ghost predicate ReceivedOk(c: Conn)
    requires |c.rx.completed| <= |c.started|
  {
    forall i :: 0 <= i < |c.rx.completed| ==> c.rx.completed[i] == Content(c.started[i].m)
  }

  ghost predicate Inv(c: Conn) {
    QueueOk(c) && TxOk(c.tx) && BytesOk(c) && RxOk(c.rx) && ReceivedOk(c)
  }

  // ---------------------------------------------------------------- the steps of the sender

  lemma SameBytes(c: Conn, c': Conn)
    requires BytesOk(c) && ReceivedOk(c)
    requires c'.started == c.started && c'.rx == c.rx && c'.wire == c.wire && Unsent(c'.tx) == Unsent(c.tx)
    ensures BytesOk(c') && ReceivedOk(c')
  {
  }

  lemma SendNextQueue(c: Conn, now: nat, delta: nat, c': Conn)
    requires QueueOk(c) && c.tx.queue != []
    requires c'.tx == AfterSendNext(c.tx, now, delta) && c'.started == c.started + [Sent(c.tx.queue[0], now, delta)]
    requires c'.enqueued == c.enqueued
    ensures QueueOk(c') && TxOk(c'.tx) && Unsent(c'.tx) == Frame(Sent(c.tx.queue[0], now, delta))
  {
  }

  lemma SendNextBytes(c: Conn, s: Sent, c': Conn)
    requires BytesOk(c) && ReceivedOk(c) && Unsent(c.tx) == []
    requires c'.started == c.started + [s] && c'.wire == c.wire && c'.rx == c.rx && Unsent(c'.tx) == Frame(s)
    ensures BytesOk(c') && ReceivedOk(c')
  {
    StreamGrows(c.started, s, |c.rx.completed|);
    BalanceStarts(Stream(c.started), Stream(c.started[..|c.rx.completed|]), Partial(c.rx), c.wire, Frame(s));
  }

  /** Starting the next message. */
  lemma SendNextKeeps(c: Conn, now: nat, delta: nat, c': Conn)
    requires Inv(c) && (c.tx.flight.Idle? || c.tx.flight.Completed?)
    requires c'.tx == AfterSendNext(c.tx, now, delta) && c'.started == c.started + Starting(c, now, delta)
    requires c'.wire == c.wire && c'.rx == c.rx && c'.enqueued == c.enqueued
    ensures Inv(c')
  {
    if c.tx.queue != [] {
      SendNextQueue(c, now, delta, c');
      SendNextBytes(c, Sent(c.tx.queue[0], now, delta), c');
    } else {
      assert c'.started == c.started;
    }
  }

  lemma {:induction false} PushQueue(c: Conn, m: Message, c': Conn)
    requires QueueOk(c) && Fits(m) && c'.started == c.started && c'.enqueued == c.enqueued + [m]
    requires c'.tx == c.tx.(queue := c.tx.queue + [m]) && c'.pushing > 0
    ensures QueueOk(c')
  {
    assert c'.enqueued[|c.started|..] == c.enqueued[|c.started|..] + [m];
  }

  lemma {:induction false} PushKeeps(c: Conn, m: Message)
    requires Inv(c) && Enabled(c, Push(m))
    ensures Inv(Apply(c, Push(m)))
  {
    var c' := Apply(c, Push(m));
    PushQueue(c, m, c');
    assert Unsent(c'.tx) == Unsent(c.tx);
    SameBytes(c, c');
  }

  lemma PostKeeps(c: Conn)
    requires Inv(c) && Enabled(c, Post)
    ensures Inv(Apply(c, Post))
  {
  }

  lemma {:induction false} TrySendKeeps(c: Conn, now: nat, delta: nat)
    requires Inv(c) && Enabled(c, RunTrySend(now, delta))
    ensures Inv(Apply(c, RunTrySend(now, delta)))
  {
    var c' := Apply(c, RunTrySend(now, delta));
    if c.tx.flight.Idle? {
      SendNextKeeps(c, now, delta, c');
    } else {
      assert c'.started == c.started;
    }
  }

  lemma {:induction false} StreamGrows(started: seq<Sent>, s: Sent, r: nat)
    requires r <= |started|
    ensures Stream(started + [s]) == Stream(started) + Frame(s) && (started + [s])[..r] == started[..r]
  {
    var t := started + [s];
    assert t[..|t| - 1] == started && t[|t| - 1] == s;
    assert t[..r] == started[..r];
  }

  lemma {:induction false} TransmitKeeps(c: Conn, k: nat)
    requires Inv(c) && Enabled(c, Transmit(k))
    ensures Inv(Apply(c, Transmit(k)))
  {
    var c' := Apply(c, Transmit(k));
    var x := c.tx.writing[..k];
    assert c.tx.writing == x + c'.tx.writing;
    UnsentSplits(c.tx, x, c'.tx.writing);
    BalanceTransmits(Stream(c.started), Stream(c.started[..|c.rx.completed|]), Partial(c.rx), c.wire, Unsent(c.tx),
                     x, Unsent(c'.tx));
  }

  lemma UnsentSplits(tx: SenderState, x: seq<byte>, rest: seq<byte>)
    requires tx.writing == x + rest && !tx.flight.Idle? && !tx.flight.Completed?
    ensures Unsent(tx) == x + Unsent(tx.(writing := rest))
  {
  }

  lemma {:induction false} WriteDoneKeeps(c: Conn)
    requires Inv(c) && Enabled(c, WriteDone)
    ensures Inv(Apply(c, WriteDone))
  {
    var c' := Apply(c, WriteDone);
    UnsentStays(c.tx);
    SameBytes(c, c');
  }

  // ---------------------------------------------------------------- the steps of the receiver

  /** In front of the receiver lies the frame of the next message. */
  lemma NextFrame(c: Conn)
    requires Inv(c) && |c.rx.completed| < |c.started|
    ensures Frame(c.started[|c.rx.completed|]) <= Partial(c.rx) + c.wire + Unsent(c.tx)
  {
    var r := |c.rx.completed|;
    FrameInStream(c.started, r);
    BalanceFront(Stream(c.started), Stream(c.started[..r]), Partial(c.rx), c.wire, Unsent(c.tx), Frame(c.started[r]));
  }

  /** Bytes that the receiver has not completed belong to a message that has started. */
  lemma HasFrame(c: Conn)
    requires Inv(c) && |Partial(c.rx) + c.wire| > 0
    ensures |c.rx.completed| < |c.started|
  {
    assert c.started[..|c.started|] == c.started;
    assert |Stream(c.started)| == |Stream(c.started[..|c.rx.completed|])| + |Partial(c.rx) + c.wire| + |Unsent(c.tx)|;
  }

  predicate Announces(p: seq<byte>, m: Message) {
    |p| == PRE_HEADER_LEN && Word(p, 1) == |Body(m.segments)| && Word(p, 2) == m.msgType && Word(p, 3) == m.id
  }

  /** The parts of a frame, read from its beginning. */
  lemma FrameParts(s: Sent, rest: seq<byte>, p: seq<byte>, h: seq<byte>)
    requires Fits(s.m) && Frame(s) <= rest && p <= rest && |p| == PRE_HEADER_LEN
    ensures Word(p, 0) == |s.m.header| && Announces(p, s.m)
    ensures p + h <= rest && |h| == Word(p, 0) ==> h == s.m.header
    ensures p == PreHeader(s.m, s.now, s.delta)
  {
    var f := Frame(s);
    assert p == rest[..PRE_HEADER_LEN] == f[..PRE_HEADER_LEN] == PreHeader(s.m, s.now, s.delta);
    PreHeaderReads(s.m, s.now, s.delta);
    if p + h <= rest && |h| == Word(p, 0) {
      assert h == (p + h)[PRE_HEADER_LEN..] == rest[PRE_HEADER_LEN..PRE_HEADER_LEN + |h|];
      assert f[PRE_HEADER_LEN..PRE_HEADER_LEN + |h|] == s.m.header;
    }
  }

  lemma BodyPart(s: Sent, rest: seq<byte>, b: seq<byte>)
    requires Frame(s) <= rest && PreHeader(s.m, s.now, s.delta) + s.m.header + b <= rest
    requires |b| == |Body(s.m.segments)|
    ensures b == Body(s.m.segments)
  {
    var at := PRE_HEADER_LEN + |s.m.header|;
    assert b == (PreHeader(s.m, s.now, s.delta) + s.m.header + b)[at..] == rest[at..at + |b|];
    assert Frame(s)[at..at + |b|] == Body(s.m.segments);
  }

  lemma CompletedPart(started: seq<Sent>, r: nat)
    requires r < |started|
    ensures Stream(started[..r + 1]) == Stream(started[..r]) + Frame(started[r])
  {
    assert started[..r + 1] == started[..r] + [started[r]];
    StreamGrows(started[..r], started[r], r);
  }

  lemma BytesDone(c: Conn, c': Conn)
    requires BytesOk(c) && |c.rx.completed| < |c.started|
    requires c'.started == c.started && c'.tx == c.tx
    requires |c'.rx.completed| == |c.rx.completed| + 1 && c'.rx.reading.ReadingPreHeader?
    requires Partial(c.rx) + c.wire == Frame(c.started[|c.rx.completed|]) + c'.wire
    ensures BytesOk(c')
  {
    var r := |c.rx.completed|;
    CompletedPart(c.started, r);
    BalanceCompletes(Stream(c.started), Stream(c.started[..r]), Partial(c.rx), c.wire, Unsent(c.tx),
                     Frame(c.started[r]), c'.wire);
  }

  /** A message is complete: its frame has been read to the end. */
  lemma MessageDone(c: Conn, c': Conn)
    requires Inv(c) && |c.rx.completed| < |c.started|
    requires c' == c.(rx := c'.rx, wire := c'.wire) && c'.rx.reading.ReadingPreHeader?
    requires c'.rx.completed == c.rx.completed + [Content(c.started[|c.rx.completed|].m)]
    requires Partial(c.rx) + c.wire == Frame(c.started[|c.rx.completed|]) + c'.wire
    ensures Inv(c')
  {
    BytesDone(c, c');
  }

  /** Between two parts of a message only the split between what is read and what is not moves. */
  lemma PartRead(c: Conn, c': Conn)
    requires Inv(c) && c' == c.(rx := c'.rx, wire := c'.wire) && RxOk(c'.rx)
    requires c'.rx.completed == c.rx.completed && Partial(c.rx) + c.wire == Partial(c'.rx) + c'.wire
    ensures Inv(c')
  {
    BalanceReads(Stream(c.started), Stream(c.started[..|c.rx.completed|]), Partial(c.rx), c.wire, Unsent(c.tx),
                 Partial(c'.rx), c'.wire);
  }

  lemma PreHeaderIsRight(c: Conn)
    requires Inv(c) && c.rx.reading.ReadingPreHeader? && PRE_HEADER_LEN <= |c.wire|
    ensures Word(c.wire[..PRE_HEADER_LEN], 0) <= MAX_HEADER_LEN
  {
    HasFrame(c);
    NextFrame(c);
    var s := c.started[|c.rx.completed|];
    assert Fits(s.m);
    var b := c.wire[..PRE_HEADER_LEN];
    assert c.wire == b + c.wire[PRE_HEADER_LEN..];
    FrameParts(s, Partial(c.rx) + c.wire + Unsent(c.tx), b, []);
  }

  lemma PreReadKeeps(c: Conn, room: nat)
    requires Inv(c) && Enabled(c, ReadDone(room)) && c.rx.reading.ReadingPreHeader?
    ensures Inv(Apply(c, ReadDone(room)))
  {
    var c' := Apply(c, ReadDone(room));
    PreHeaderIsRight(c);
    assert Partial(c.rx) + c.wire == c.wire[..PRE_HEADER_LEN] + c'.wire;
    PartRead(c, c');
  }

  lemma {:induction false} HeaderIsRight(c: Conn, room: nat) returns (s: Sent)
    requires Inv(c) && Enabled(c, ReadDone(room)) && c.rx.reading.ReadingHeader?
    ensures |c.rx.completed| < |c.started| && s == c.started[|c.rx.completed|]
    ensures c.rx.preHeader == PreHeader(s.m, s.now, s.delta) && c.wire[..Wanted(c.rx)] == s.m.header
    ensures Announces(c.rx.preHeader, s.m)
  {
    HasFrame(c);
    NextFrame(c);
    s := c.started[|c.rx.completed|];
    assert Fits(s.m);
    var p, b := c.rx.preHeader, c.wire[..Wanted(c.rx)];
    assert c.wire == b + c.wire[Wanted(c.rx)..];
    assert p + b <= Partial(c.rx) + c.wire + Unsent(c.tx);
    FrameParts(s, Partial(c.rx) + c.wire + Unsent(c.tx), p, b);
  }

  lemma HeaderReadKeeps(c: Conn, room: nat)
    requires Inv(c) && Enabled(c, ReadDone(room)) && c.rx.reading.ReadingHeader?
    ensures Inv(Apply(c, ReadDone(room)))
  {
    var c' := Apply(c, ReadDone(room));
    var s := HeaderIsRight(c, room);
    var p, b := c.rx.preHeader, c.wire[..Wanted(c.rx)];
    assert Partial(c.rx) + c.wire == p + b + c'.wire;
    if Word(p, 1) > 0 {
      assert Partial(c'.rx) == p + b;
      PartRead(c, c');
    } else {
      assert Body(s.m.segments) == [];
      assert Frame(s) == p + b;
      MessageDone(c, c');
    }
  }

  lemma BodyIsRight(c: Conn, room: nat) returns (s: Sent)
    requires Inv(c) && Enabled(c, ReadDone(room)) && c.rx.reading.ReadingBody?
    ensures |c.rx.completed| < |c.started| && s == c.started[|c.rx.completed|]
    ensures Announces(c.rx.preHeader, s.m)
    ensures c.rx.preHeader == PreHeader(s.m, s.now, s.delta) && c.rx.header == s.m.header
    ensures c.rx.bodyLeft == Wanted(c.rx) ==> c.rx.body + c.wire[..Wanted(c.rx)] == Body(s.m.segments)
  {
    HasFrame(c);
    NextFrame(c);
    s := c.started[|c.rx.completed|];
    assert Fits(s.m);
    var p, h, b := c.rx.preHeader, c.rx.header, c.rx.body + c.wire[..Wanted(c.rx)];
    var rest := Partial(c.rx) + c.wire + Unsent(c.tx);
    BodyFront(c.rx, c.wire, Wanted(c.rx));
    assert p + h <= p + h + b <= rest;
    FrameParts(s, rest, p, h);
    if c.rx.bodyLeft == Wanted(c.rx) {
      BodyPart(s, rest, b);
    }
  }

  lemma {:induction false} BodyFront(rx: ReceiverState, wire: seq<byte>, k: nat)
    requires rx.reading.ReadingBody? && k <= |wire|
    ensures Partial(rx) + wire == rx.preHeader + rx.header + (rx.body + wire[..k]) + wire[k..]
  {
    assert wire == wire[..k] + wire[k..];
  }

  lemma BodyReadKeeps(c: Conn, room: nat)
    requires Inv(c) && Enabled(c, ReadDone(room)) && c.rx.reading.ReadingBody?
    ensures Inv(Apply(c, ReadDone(room)))
  {
    var c' := Apply(c, ReadDone(room));
    var s := BodyIsRight(c, room);
    BodyFront(c.rx, c.wire, Wanted(c.rx));
    if c.rx.bodyLeft > Wanted(c.rx) {
      PartRead(c, c');
    } else {
      MessageDone(c, c');
    }
  }

  lemma ReadKeeps(c: Conn, room: nat)
    requires Inv(c) && Enabled(c, ReadDone(room))
    ensures Inv(Apply(c, ReadDone(room)))
  {
    match c.rx.reading {
      case ReadingPreHeader => PreReadKeeps(c, room);
      case ReadingHeader => HeaderReadKeeps(c, room);
      case ReadingBody(_) => BodyReadKeeps(c, room);
    }
  }

  // ---------------------------------------------------------------- whole runs

  lemma {:induction false} StepKeeps(c: Conn, c': Conn)
    requires Inv(c) && Next(c, c')
    ensures Inv(c')
  {
    var st :| Enabled(c, st) && c' == Apply(c, st);
    match st {
      case Push(m) => PushKeeps(c, m);
      case Post => PostKeeps(c);
      case RunTrySend(now, delta) => TrySendKeeps(c, now, delta);
      case Transmit(k) => TransmitKeeps(c, k);
      case WriteDone => WriteDoneKeeps(c);
      case Release(now, delta) => SendNextKeeps(c, now, delta, c');
      case ReadDone(room) => ReadKeeps(c, room);
    }
  }

  lemma {:induction false} RunKeeps(run: seq<Conn>, i: nat)
    requires Run(run) && i < |run|
    ensures Inv(run[i])
  {
    if i == 0 {
      assert run[0] == Start();
    } else {
      RunKeeps(run, i - 1);
      StepKeeps(run[i - 1], run[i]);
    }
  }

  ghost predicate Reachable(c: Conn) {
    exists run :: Run(run) && c in run
  }

  lemma ReachableIsOk(c: Conn)
    requires Reachable(c)
    ensures Inv(c)
  {
    var run :| Run(run) && c in run;
    var i :| 0 <= i < |run| && run[i] == c;
    RunKeeps(run, i);
  }

  /** Lossless and in order: what has been received is the beginning of what was enqueued, every
      message with its type, id, header and body; and the receiver never closes the connection. */
  lemma ReceivedInOrder(c: Conn)
    requires Reachable(c)
    ensures |c.rx.completed| <= |c.enqueued| && !c.rx.reading.Closed?
    ensures forall i :: 0 <= i < |c.rx.completed| ==> c.rx.completed[i] == Content(c.enqueued[i])
  {
    ReachableIsOk(c);
    assert forall i :: 0 <= i < |c.rx.completed| ==> c.started[i].m == c.enqueued[i];
  }

  /** No lost wakeup: with a message in the queue and none in flight, a try_send is on its way. */
  lemma NoLostWakeup(c: Conn)
    requires Reachable(c) && c.tx.queue != [] && c.tx.flight.Idle?
    ensures c.pushing + c.posted > 0
  {
    ReachableIsOk(c);
  }

  /** The steps that are not up to the application. */
  ghost predicate Stuck(c: Conn) {
    forall st: Step :: !st.Push? ==> !Enabled(c, st)
  }

  /** The connection never gets stuck half way: when it has nothing left to do by itself, all that
      was enqueued has been received. */
  lemma StuckMeansDone(c: Conn)
    requires Reachable(c) && Stuck(c)
    ensures |c.rx.completed| == |c.enqueued|
    ensures forall i :: 0 <= i < |c.enqueued| ==> c.rx.completed[i] == Content(c.enqueued[i])
  {
    ReachableIsOk(c);
    assert !Enabled(c, Post) && !Enabled(c, RunTrySend(0, 0)) && !Enabled(c, WriteDone) && !Enabled(c, Release(0, 0));
    assert !Enabled(c, Transmit(1)) && !Enabled(c, ReadDone(0));
    assert c.tx.flight.Idle? && Unsent(c.tx) == [];
    if |c.rx.completed| < |c.started| {
      FrameIsThere(c);
    }
    ReceivedInOrder(c);
  }

  /** With nothing left to be written, a message that has started can be read on. */
  lemma {:induction false} FrameIsThere(c: Conn)
    requires Inv(c) && Unsent(c.tx) == [] && |c.rx.completed| < |c.started|
    ensures Wanted(c.rx) <= |c.wire|
  {
    NextFrame(c);
    var s := c.started[|c.rx.completed|];
    assert Fits(s.m);
    var rest := Partial(c.rx) + c.wire;
    assert rest == Partial(c.rx) + c.wire + Unsent(c.tx);
    if !c.rx.reading.ReadingPreHeader? {
      FrameParts(s, rest, c.rx.preHeader, []);
    }
  }

  // ---------------------------------------------------------------- progress

  function Length(m: Message): nat {
    PRE_HEADER_LEN + |m.header| + |Body(m.segments)|
  }

  ghost function QueueWork(queue: seq<Message>): nat {
    if queue == [] then 0 else 3 * Length(queue[0]) + |queue[0].segments| + 6 + QueueWork(queue[1..])
  }

  /** The handlers that have still to run for the message in flight. */
  ghost function FlightWork(tx: SenderState): nat {
    match tx.flight
    case SendingPreHeader => |tx.segments| + 5
    case SendingHeader => |tx.segments| + 4
    case SendingBody => |tx.segments| + 3
    case Completed => 2
    case Idle => 0
  }

  /** The reads that may be over without a byte. */
  ghost function ReadWork(rx: ReceiverState): nat {
    match rx.reading
    case ReadingHeader => 3
    case ReadingBody(want) => if want == 0 then 2 else 1
    case _ => 0
  }

  /** What is left to be done: every byte has still to be written and to be read. */
  ghost function Work(c: Conn): nat {
    2 * c.pushing + c.posted + QueueWork(c.tx.queue) + FlightWork(c.tx) + 3 * |Unsent(c.tx)|
    + 2 * |c.wire| + ReadWork(c.rx)
  }

  /** The steps that are not up to the application, with messages that have room for their body. */
  predicate Internal(st: Step) {
    !st.Push? && (st.ReadDone? ==> st.room > 0)
  }

  /** Every such step leaves less to be done. */
  lemma {:induction false} WorkShrinks(c: Conn, st: Step)
    requires Inv(c) && Enabled(c, st) && Internal(st)
    ensures Work(Apply(c, st)) < Work(c)
  {
    match st {
      case Post =>
      case RunTrySend(now, delta) => StartWork(c.tx, now, delta);
      case Transmit(k) => UnsentSplits(c.tx, c.tx.writing[..k], c.tx.writing[k..]);
      case WriteDone => UnsentStays(c.tx);
      case Release(now, delta) => StartWork(c.tx, now, delta);
      case ReadDone(room) => ReadShrinks(c, room);
    }
  }

  lemma StartWork(tx: SenderState, now: nat, delta: nat)
    ensures var tx' := AfterSendNext(tx, now, delta);
            QueueWork(tx'.queue) + FlightWork(tx') + 3 * |Unsent(tx')| <= QueueWork(tx.queue)
  {
    if tx.queue != [] {
      assert |Frame(Sent(tx.queue[0], now, delta))| == Length(tx.queue[0]);
    }
  }

  lemma ReadShrinks(c: Conn, room: nat)
    requires Inv(c) && Enabled(c, ReadDone(room)) && room > 0
    ensures var c' := Apply(c, ReadDone(room)); 2 * |c'.wire| + ReadWork(c'.rx) < 2 * |c.wire| + ReadWork(c.rx)
  {
  }

  ghost predicate InternalNext(c: Conn, c': Conn) {
    exists st :: Internal(st) && Enabled(c, st) && c' == Apply(c, st)
  }

  lemma ReachableNext(c: Conn, st: Step)
    requires Reachable(c) && Enabled(c, st)
    ensures Reachable(Apply(c, st))
  {
    var c' := Apply(c, st);
    var run :| Run(run) && c in run;
    var i :| 0 <= i < |run| && run[i] == c;
    var run' := run[..i + 1] + [c'];
    assert Next(c, c');
    assert Run(run') by {
      forall j | 0 < j < |run'|
        ensures Next(run'[j - 1], run'[j])
      {
        assert j <= i ==> Next(run[j - 1], run[j]);
      }
    }
    assert c' == run'[i + 1];
  }

  lemma InternalStep(c: Conn, c': Conn)
    requires Reachable(c) && InternalNext(c, c')
    ensures Reachable(c') && Work(c') < Work(c) && c'.enqueued == c.enqueued
  {
    var st :| Internal(st) && Enabled(c, st) && c' == Apply(c, st);
    ReachableIsOk(c);
    WorkShrinks(c, st);
    ReachableNext(c, st);
  }

  lemma {:induction false} InternalRun(run: seq<Conn>, i: nat)
    requires i < |run| && Reachable(run[0])
    requires forall i :: 0 < i < |run| ==> InternalNext(run[i - 1], run[i])
    ensures Reachable(run[i]) && Work(run[i]) + i <= Work(run[0]) && run[i].enqueued == run[0].enqueued
  {
    if i > 0 {
      InternalRun(run, i - 1);
      InternalStep(run[i - 1], run[i]);
    }
  }

  /** Everything arrives: left to itself, with messages that have room for their body, the connection
      has only so many steps, and when no more are left, all that was enqueued has been received. */
  lemma EverythingArrives(run: seq<Conn>)
    requires run != [] && Reachable(run[0])
    requires forall i :: 0 < i < |run| ==> InternalNext(run[i - 1], run[i])
    ensures |run| <= Work(run[0]) + 1
    ensures var last := run[|run| - 1];
            Stuck(last) ==>
              && |last.rx.completed| == |run[0].enqueued|
              && forall i :: 0 <= i < |run[0].enqueued| ==> last.rx.completed[i] == Content(run[0].enqueued[i])
  {
    InternalRun(run, |run| - 1);
    if Stuck(run[|run| - 1]) {
      StuckMeansDone(run[|run| - 1]);
    }
  }
}
