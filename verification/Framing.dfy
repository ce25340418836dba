/** The framed message layer of one connection: the sender with its queue, which any thread may
    fill, and the receiver at the other end. A message travels as a 48-byte pre-header, a header
    and the segments of a body. */
module Framing {
  import opened Bytes

  const MAX_HEADER_LEN := 10 * 1024 * 1024
  const PRE_HEADER_LEN := 48
  const U64_SIZE := 0x1_0000_0000_0000_0000

  /** A message as it is handed to the sender. Its body is asked for segment by segment. */
  datatype Message = Message(msgType: nat, id: nat, header: seq<byte>, segments: seq<seq<byte>>)

  function Body(segments: seq<seq<byte>>): seq<byte> {
    if segments == [] then [] else segments[0] + Body(segments[1..])
  }

  /** What fits the fields of the pre-header and the header buffer. */
  predicate Fits(m: Message) {
    && m.msgType < U64_SIZE && m.id < U64_SIZE && |Body(m.segments)| < U64_SIZE
    && |m.header| <= MAX_HEADER_LEN
  }

  /** A message as it is received. */
  datatype Received = Received(msgType: nat, id: nat, header: seq<byte>, body: seq<byte>)

  function Content(m: Message): Received {
    Received(m.msgType, m.id, m.header, Body(m.segments))
  }

  // ---------------------------------------------------------------- the format

  /** The lengths, the type, the id, the time of sending, and the sender's clock offset. */
  function PreHeader(m: Message, now: nat, delta: nat): (b: seq<byte>)
    ensures |b| == PRE_HEADER_LEN
  {
    Store(|m.header|, 8) + Store(|Body(m.segments)|, 8) + Store(m.msgType, 8) + Store(m.id, 8) + Store(now, 8)
    + Store(delta, 8)
  }

  function Word(preHeader: seq<byte>, i: nat): nat
    requires 8 * i + 8 <= |preHeader|
  {
    Load(preHeader[8 * i..8 * i + 8])
  }

  lemma PreHeaderReads(m: Message, now: nat, delta: nat)
    requires Fits(m)
    ensures var p := PreHeader(m, now, delta);
            && Word(p, 0) == |m.header| && Word(p, 1) == |Body(m.segments)|
            && Word(p, 2) == m.msgType && Word(p, 3) == m.id
            && (now < U64_SIZE ==> Word(p, 4) == now) && (delta < U64_SIZE ==> Word(p, 5) == delta)
  {
    var p := PreHeader(m, now, delta);
    assert Power256(8) == U64_SIZE by {
      assert Power256(4) == 0x1_0000_0000;
    }
    assert p[0..8] == Store(|m.header|, 8);
    assert p[8..16] == Store(|Body(m.segments)|, 8);
    assert p[16..24] == Store(m.msgType, 8);
    assert p[24..32] == Store(m.id, 8);
    StoreLoad(|m.header|, 8);
    StoreLoad(|Body(m.segments)|, 8);
    StoreLoad(m.msgType, 8);
    StoreLoad(m.id, 8);
    TimesRead(m, now, delta);
  }

  lemma TimesRead(m: Message, now: nat, delta: nat)
    ensures var p := PreHeader(m, now, delta);
            (now < U64_SIZE ==> Word(p, 4) == now) && (delta < U64_SIZE ==> Word(p, 5) == delta)
  {
    var p := PreHeader(m, now, delta);
    assert Power256(8) == U64_SIZE by {
      assert Power256(4) == 0x1_0000_0000;
    }
    assert p[32..40] == Store(now, 8) && p[40..48] == Store(delta, 8);
    if now < U64_SIZE {
      StoreLoad(now, 8);
    }
    if delta < U64_SIZE {
      StoreLoad(delta, 8);
    }
  }

  /** A message whose transmission has started, with the values of its time fields. */
  datatype Sent = Sent(m: Message, now: nat, delta: nat)

  function Frame(s: Sent): (b: seq<byte>)
    ensures |b| >= PRE_HEADER_LEN
  {
    PreHeader(s.m, s.now, s.delta) + s.m.header + Body(s.m.segments)
  }

  /** The bytes are a pre-header and the header and body that it announces, and they say this message. */
  ghost predicate Says(f: seq<byte>, m: Received) {
    && |f| >= PRE_HEADER_LEN && f == f[..PRE_HEADER_LEN] + m.header + m.body
    && Word(f, 0) == |m.header| && Word(f, 1) == |m.body| && Word(f, 2) == m.msgType && Word(f, 3) == m.id
  }

  /** A frame says the message it was made from, and no other. */
  lemma FrameSays(s: Sent, m: Received)
    requires Fits(s.m)
    ensures Says(Frame(s), m) <==> m == Content(s.m)
  {
    var f, p := Frame(s), PreHeader(s.m, s.now, s.delta);
    PreHeaderReads(s.m, s.now, s.delta);
    assert f[..PRE_HEADER_LEN] == p;
    assert forall i :: 0 <= i < 4 ==> f[8 * i..8 * i + 8] == p[8 * i..8 * i + 8];
    var h := PRE_HEADER_LEN + |s.m.header|;
    assert f[PRE_HEADER_LEN..h] == s.m.header && f[h..] == Body(s.m.segments);
    if Says(f, m) {
      assert f == p + m.header + m.body;
      assert f[PRE_HEADER_LEN..h] == m.header && f[h..] == m.body;
    } else if m == Content(s.m) {
      assert f == p + m.header + m.body;
      assert Says(f, m);
    }
  }

  // ---------------------------------------------------------------- the sender

  /** What the asynchronous write under way belongs to. `Completed` is the moment between the
      completion of a message and the lock that lets the next one start. */
  datatype Flight = Idle | SendingPreHeader | SendingHeader | SendingBody | Completed

  /** `writing` is what the socket has still to take of the write under way, `segments` what the
      message has not been asked for. */
  datatype SenderState = SenderState(queue: seq<Message>, flight: Flight, header: seq<byte>,
                                     segments: seq<seq<byte>>, writing: seq<byte>, bodyLeft: nat, bodySegSent: nat)

  /** What the sender has still to write of the message in flight. */
  ghost function Unsent(s: SenderState): seq<byte> {
    match s.flight
    case SendingPreHeader => s.writing + s.header + Body(s.segments)
    case SendingHeader => s.writing + Body(s.segments)
    case SendingBody => s.writing + Body(s.segments)
    case _ => []
  }

  /** The sender knows how much of the body is left. */
  ghost predicate TxOk(s: SenderState) {
    match s.flight
    case SendingBody => s.bodyLeft == s.bodySegSent + |Body(s.segments)|
    case Idle => s.writing == []
    case Completed => s.writing == []
    case _ => true
  }

  function StartSend(s: SenderState, m: Message, now: nat, delta: nat): SenderState {
    s.(flight := SendingPreHeader, header := m.header, segments := m.segments, writing := PreHeader(m, now, delta))
  }

  function AfterSendNext(s: SenderState, now: nat, delta: nat): SenderState {
    if s.queue == [] then s.(flight := Idle)
    else StartSend(s.(queue := s.queue[1..]), s.queue[0], now, delta)
  }

  function AfterTrySend(s: SenderState, now: nat, delta: nat): SenderState {
    if s.flight.Idle? then AfterSendNext(s, now, delta) else s
  }

  function AfterNextSeg(s: SenderState): SenderState {
    if s.bodyLeft > 0 && s.segments != [] then
      s.(flight := SendingBody, writing := s.segments[0], bodySegSent := |s.segments[0]|, segments := s.segments[1..])
    else s.(flight := Completed, writing := [])
  }

  predicate InFlight(s: SenderState) {
    s.flight.SendingPreHeader? || s.flight.SendingHeader? || s.flight.SendingBody?
  }

  /** The completion handlers. */
  function WriteCompleted(s: SenderState): SenderState
    requires InFlight(s)
  {
    match s.flight
    case SendingPreHeader => s.(flight := SendingHeader, writing := s.header)
    case SendingHeader => AfterNextSeg(s.(bodyLeft := |Body(s.segments)|))
    case SendingBody =>
      AfterNextSeg(s.(bodyLeft := if s.bodySegSent <= s.bodyLeft then s.bodyLeft - s.bodySegSent else 0))
  }

  /** A completed write leaves what has still to be written as it is; in particular a message is
      complete only when all of its frame has been written. */
  lemma {:induction false} UnsentStays(s: SenderState)
    requires TxOk(s) && s.writing == [] && InFlight(s)
    ensures Unsent(WriteCompleted(s)) == Unsent(s) && TxOk(WriteCompleted(s)) && !WriteCompleted(s).flight.Idle?
  {
    if s.segments != [] {
      assert Body(s.segments) == s.segments[0] + Body(s.segments[1..]);
    }
  }

  class MessageSender {
    var txQueue: seq<Message>
    var posted: nat                 // try_send calls that the event loop has still to make
    var flight: Flight
    var headerBuf: seq<byte>
    var segments: seq<seq<byte>>
    var writing: seq<byte>
    var bodyLeft: nat
    var bodySegSent: nat

    function State(): SenderState
      reads this
    {
      SenderState(txQueue, flight, headerBuf, segments, writing, bodyLeft, bodySegSent)
    }

    constructor ()
      ensures TxOk(State()) && flight.Idle? && txQueue == [] && posted == 0
    {
      txQueue, posted, flight := [], 0, Idle;
      headerBuf, segments, writing, bodyLeft, bodySegSent := [], [], [], 0, 0;
    }

    method SendMessage(m: Message)
      modifies this
      ensures State() == old(State()).(queue := old(txQueue) + [m]) && posted == old(posted) + 1
    {
      txQueue := txQueue + [m];
      posted := posted + 1;
    }

    method TrySend(now: nat, delta: nat)
      requires TxOk(State()) && posted > 0
      modifies this
      ensures State() == AfterTrySend(old(State()), now, delta) && posted == old(posted) - 1
      ensures TxOk(State()) && (flight.Idle? ==> txQueue == [])
      ensures !old(flight).Idle? ==> State() == old(State())
    {
      posted := posted - 1;
      if flight.Idle? {
        SendNextMessage(now, delta);
      }
    }

    /** The frame of the oldest message is what has now to be written. */
    method SendNextMessage(now: nat, delta: nat)
      requires TxOk(State()) && (flight.Idle? || flight.Completed?)
      modifies this
      ensures State() == AfterSendNext(old(State()), now, delta) && posted == old(posted)
      ensures TxOk(State()) && (flight.Idle? <==> old(txQueue) == [])
      ensures old(txQueue) == [] ==> Unsent(State()) == [] && txQueue == []
      ensures old(txQueue) != [] ==>
                Unsent(State()) == Frame(Sent(old(txQueue)[0], now, delta)) && txQueue == old(txQueue)[1..]
    {
      if txQueue == [] {
        flight := Idle;
        return;
      }
      var m := txQueue[0];
      txQueue := txQueue[1..];
      headerBuf, segments := m.header, m.segments;
      flight, writing := SendingPreHeader, PreHeader(m, now, delta);
    }

    method HandlePrehdrSent()
      requires flight.SendingPreHeader? && TxOk(State()) && writing == []
      modifies this
      ensures State() == WriteCompleted(old(State())) && posted == old(posted)
      ensures TxOk(State()) && Unsent(State()) == old(Unsent(State())) && flight.SendingHeader?
    {
      flight, writing := SendingHeader, headerBuf;
    }

    /** The body follows; a message without one is complete, with nothing left to be written. */
    method HandleHdrSent()
      requires flight.SendingHeader? && TxOk(State()) && writing == []
      modifies this
      ensures State() == WriteCompleted(old(State())) && posted == old(posted)
      ensures TxOk(State()) && Unsent(State()) == old(Unsent(State()))
      ensures flight == if |old(Unsent(State()))| > 0 then SendingBody else Completed
    {
      UnsentStays(State());
      bodyLeft := |Body(segments)|;
      NextBodySeg();
    }

    /** The next segment follows; the message is complete when nothing is left to be written. */
    method HandleBodySegSent()
      requires flight.SendingBody? && TxOk(State()) && writing == []
      modifies this
      ensures State() == WriteCompleted(old(State())) && posted == old(posted)
      ensures TxOk(State()) && Unsent(State()) == old(Unsent(State()))
      ensures flight == if |old(Unsent(State()))| > 0 then SendingBody else Completed
    {
      UnsentStays(State());
      bodyLeft := bodyLeft - bodySegSent;
      NextBodySeg();
    }

    method NextBodySeg()
      requires bodyLeft == |Body(segments)|
      modifies this
      ensures State() == AfterNextSeg(old(State())) && posted == old(posted)
      ensures TxOk(State()) && Unsent(State()) == old(Body(segments))
    {
      if bodyLeft > 0 {
        assert Body(segments) == segments[0] + Body(segments[1..]);
        writing, bodySegSent := segments[0], |segments[0]|;
        flight, segments := SendingBody, segments[1..];
      } else {
        flight, writing := Completed, [];
      }
    }
  }

  // ---------------------------------------------------------------- the receiver

  datatype Reading = ReadingPreHeader | ReadingHeader | ReadingBody(want: nat) | Closed

  datatype ReceiverState = ReceiverState(reading: Reading, preHeader: seq<byte>, header: seq<byte>,
                                         body: seq<byte>, bodyLeft: nat, completed: seq<Received>)

  /** What the receiver has of the message it is reading. */
  ghost function Partial(r: ReceiverState): seq<byte> {
    match r.reading
    case ReadingHeader => r.preHeader
    case ReadingBody(_) => r.preHeader + r.header + r.body
    case _ => []
  }

  /** How many bytes the read under way waits for. */
  function Wanted(r: ReceiverState): nat
    requires !r.reading.Closed? && (r.reading.ReadingHeader? ==> |r.preHeader| == PRE_HEADER_LEN)
  {
    match r.reading
    case ReadingPreHeader => PRE_HEADER_LEN
    case ReadingHeader => Word(r.preHeader, 0)
    case ReadingBody(want) => want
  }

  /** `room` is the size of the buffer that the message offers for its next segment. */
  function NextRxSeg(r: ReceiverState, room: nat): ReceiverState
    requires |r.preHeader| == PRE_HEADER_LEN
  {
    if r.bodyLeft > 0 then r.(reading := ReadingBody(if room <= r.bodyLeft then room else r.bodyLeft))
    else r.(reading := ReadingPreHeader,
            completed := r.completed + [Received(Word(r.preHeader, 2), Word(r.preHeader, 3), r.header, r.body)])
  }

  predicate RxShaped(r: ReceiverState) {
    && (r.reading.ReadingHeader? || r.reading.ReadingBody? ==> |r.preHeader| == PRE_HEADER_LEN)
    && (r.reading.ReadingBody? ==> r.reading.want <= r.bodyLeft)
  }

  /** The receiver has not given up, and knows how much of the message is missing. */
  ghost predicate RxOk(r: ReceiverState) {
    && RxShaped(r) && !r.reading.Closed?
    && (r.reading.ReadingHeader? ==> Word(r.preHeader, 0) <= MAX_HEADER_LEN)
    && (r.reading.ReadingBody? ==>
          && 0 < r.bodyLeft && |r.header| == Word(r.preHeader, 0) <= MAX_HEADER_LEN
          && |r.body| + r.bodyLeft == Word(r.preHeader, 1))
  }

  /** The bytes are added to what the receiver has of the message; and when that is all of it, the
      message it says is completed. */
  ghost predicate Adds(r: ReceiverState, b: seq<byte>, r': ReceiverState) {
    && RxOk(r')
    && if r'.completed == r.completed then Partial(r') == Partial(r) + b
       else
         && |r'.completed| == |r.completed| + 1 && r'.completed[..|r.completed|] == r.completed
         && Says(Partial(r) + b, r'.completed[|r.completed|]) && r'.reading.ReadingPreHeader?
  }

  function ReadCompleted(r: ReceiverState, b: seq<byte>, room: nat): ReceiverState
    requires RxShaped(r) && !r.reading.Closed? && |b| == Wanted(r)
  {
    match r.reading
    case ReadingPreHeader =>
      if Word(b, 0) > MAX_HEADER_LEN then r.(reading := Closed) else r.(reading := ReadingHeader, preHeader := b)
    case ReadingHeader =>
      NextRxSeg(r.(header := b, body := [], bodyLeft := Word(r.preHeader, 1)), room)
    case ReadingBody(_) =>
      NextRxSeg(r.(body := r.body + b, bodyLeft := r.bodyLeft - |b|), room)
  }

  class MessageReceiver {
    var reading: Reading
    var preHeader: seq<byte>
    var header: seq<byte>
    var body: seq<byte>
    var bodyLeft: nat
    var completed: seq<Received>

    function State(): ReceiverState
      reads this
    {
      ReceiverState(reading, preHeader, header, body, bodyLeft, completed)
    }

    constructor ()
      ensures RxOk(State()) && reading.ReadingPreHeader? && completed == []
    {
      reading, preHeader, header, body, bodyLeft, completed := ReadingPreHeader, [], [], [], 0, [];
    }

    /** A header longer than the buffer ends the connection. */
    method HandlePreRead(b: seq<byte>)
      requires reading.ReadingPreHeader? && |b| == PRE_HEADER_LEN
      modifies this
      ensures State() == ReadCompleted(old(State()), b, 0)
      ensures completed == old(completed)
      ensures if Word(b, 0) > MAX_HEADER_LEN then reading.Closed? else Adds(old(State()), b, State())
    {
      if Word(b, 0) > MAX_HEADER_LEN {
        reading := Closed;
        return;
      }
      reading, preHeader := ReadingHeader, b;
    }

    /** The message is complete when the pre-header announces no body. */
    method HandleHeaderRead(b: seq<byte>, room: nat)
      requires reading.ReadingHeader? && RxOk(State()) && |b| == Word(preHeader, 0)
      modifies this
      ensures State() == ReadCompleted(old(State()), b, room)
      ensures Adds(old(State()), b, State())
      ensures completed == old(completed) <==> Word(old(preHeader), 1) > 0
    {
      ghost var f := preHeader + b;
      assert f[..PRE_HEADER_LEN] == preHeader;
      assert forall i :: 0 <= i < 4 ==> f[8 * i..8 * i + 8] == preHeader[8 * i..8 * i + 8];
      header, body := b, [];
      bodyLeft := Word(preHeader, 1);
      NextBodySeg(room);
    }

    /** The message is complete when the last of the announced bytes has come. */
    method HandleBodySegRead(b: seq<byte>, room: nat)
      requires reading.ReadingBody? && RxOk(State()) && |b| == reading.want
      modifies this
      ensures State() == ReadCompleted(old(State()), b, room)
      ensures Adds(old(State()), b, State())
      ensures completed == old(completed) <==> |b| < old(bodyLeft)
    {
      ghost var f := Partial(State()) + b;
      assert f == preHeader + header + (body + b);
      assert f[..PRE_HEADER_LEN] == preHeader;
      assert forall i :: 0 <= i < 4 ==> f[8 * i..8 * i + 8] == preHeader[8 * i..8 * i + 8];
      body := body + b;
      bodyLeft := bodyLeft - |b|;
      NextBodySeg(room);
    }

    method NextBodySeg(room: nat)
      requires |preHeader| == PRE_HEADER_LEN
      modifies this
      ensures State() == NextRxSeg(old(State()), room)
    {
      if bodyLeft > 0 {
        reading := ReadingBody(if room <= bodyLeft then room else bodyLeft);
      } else {
        completed := completed + [Received(Word(preHeader, 2), Word(preHeader, 3), header, body)];
        reading := ReadingPreHeader;
      }
    }
  }
}
