// Reading frames from a socket that delivers them in arbitrary pieces: the
// state kept between readable events (sway/ipc-server.c), and the proof that
// the pieces make no difference.
module IpcReassembly {
  import opened IpcFrames
  import opened Sequences

  // pendingLength is non-zero exactly while a header has been taken from the
  // socket and its payload is awaited.
  datatype Reader = Reader(inbox: seq<Byte>, pendingLength: Uint32, pendingKind: Uint32,
                           connected: bool, handled: seq<Message>)

  const FRESH := Reader([], 0, 0, true, [])

  datatype Event = Arrive(bytes: seq<Byte>) | Readable | Hangup

  // Take the first n bytes of the socket as the payload of a message of the
  // given kind and hand it to the command handler.
  function Handle(r: Reader, n: Uint32, kind: Uint32): (s: Reader)
    requires n <= |r.inbox|
  {
    r.(inbox := r.inbox[n..], pendingLength := 0, handled := r.handled + [Message(kind, r.inbox[..n])])
  }

  function OnReadable(r: Reader): (s: Reader) {
    if !r.connected then r
    else if r.pendingLength > 0 then
      if |r.inbox| >= r.pendingLength then Handle(r, r.pendingLength, r.pendingKind) else r
    else if |r.inbox| < HEADER_SIZE then r
    else
      var taken := r.(inbox := r.inbox[HEADER_SIZE..]);
      if r.inbox[..6] != MAGIC then taken.(connected := false)
      else
        var n, kind := HeaderLength(r.inbox), HeaderKind(r.inbox);
        if |taken.inbox| >= n then Handle(taken.(pendingKind := kind), n, kind)
        else taken.(pendingLength := n, pendingKind := kind)
  }

  function Step(r: Reader, e: Event): (s: Reader) {
    match e
    case Arrive(bytes) => if r.connected then r.(inbox := r.inbox + bytes) else r
    case Readable => OnReadable(r)
    case Hangup => r.(connected := false)
  }

  function Run(r: Reader, events: seq<Event>): (s: Reader)
    decreases |events|
  {
    if events == [] then r else Run(Step(r, events[0]), events[1..])
  }

  // All bytes the peer has sent during the run.
  function Arrived(events: seq<Event>): (b: seq<Byte>) {
    if events == [] then [] else Sent(events[0]) + Arrived(events[1..])
  }

  function Sent(e: Event): (b: seq<Byte>) {
    if e.Arrive? then e.bytes else []
  }

  function Readables(k: nat): (events: seq<Event>)
    ensures |events| == k
    ensures forall e :: e in events ==> e == Readable
  {
    if k == 0 then [] else [Readable] + Readables(k - 1)
  }

  function Awaited(r: Reader): (b: seq<Byte>) {
    if r.pendingLength > 0 then Header(r.pendingLength, r.pendingKind) else []
  }

  predicate AllEncodable(ms: seq<Message>) {
    forall m :: m in ms ==> m.Encodable()
  }

  // The byte account: everything received so far is the handled messages, the
  // header being waited on and the socket contents, in this order; after a
  // disconnect the handled messages are still the beginning of the stream.
  ghost predicate Accounts(r: Reader, stream: seq<Byte>) {
    && AllEncodable(r.handled)
    && (r.connected ==> stream == FrameAll(r.handled) + (Awaited(r) + r.inbox))
    && (!r.connected ==> FrameAll(r.handled) <= stream)
  }

  // Bad input is the only reason, apart from a hangup, to drop a client, and it
  // is found exactly behind the last good message.
  ghost predicate StoppedAtBadHeader(r: Reader, stream: seq<Byte>) {
    Parse(stream) == Parsed(r.handled, true)
  }

  lemma AccountsPrefix(r: Reader, stream: seq<Byte>)
    requires Accounts(r, stream)
    ensures r.handled <= Parse(stream).messages
    ensures r.connected ==>
      && Parse(stream).messages == r.handled + Parse(Awaited(r) + r.inbox).messages
      && Parse(stream).bad == Parse(Awaited(r) + r.inbox).bad
  {
    var tail := stream[|FrameAll(r.handled)|..];
    assert stream == FrameAll(r.handled) + tail;
    ParseFrames(r.handled, tail);
    assert r.connected ==> tail == Awaited(r) + r.inbox;
  }

  lemma HandleAccounts(r: Reader, stream: seq<Byte>, n: Uint32, kind: Uint32)
    requires n <= |r.inbox| && AllEncodable(r.handled) && r.connected
    requires stream == FrameAll(r.handled) + (Header(n, kind) + r.inbox)
    ensures Accounts(Handle(r, n, kind), stream)
  {
    var m, rest := Message(kind, r.inbox[..n]), r.inbox[n..];
    FrameAllAppend(r.handled, m);
    assert r.inbox == r.inbox[..n] + rest;
    FrameBehind(FrameAll(r.handled), Header(n, kind), r.inbox[..n], rest);
  }

  lemma FrameBehind(front: seq<Byte>, header: seq<Byte>, payload: seq<Byte>, rest: seq<Byte>)
    ensures front + (header + (payload + rest)) == front + (header + payload) + ([] + rest)
  {
  }

  // What one readable event must achieve on a stream received so far: lose and
  // repeat nothing, drop the client only for a bad header, and make progress
  // whenever the stream holds an unhandled message.
  ghost predicate GoodReadable(r: Reader, stream: seq<Byte>) {
    && Accounts(OnReadable(r), stream)
    && (!OnReadable(r).connected ==> StoppedAtBadHeader(OnReadable(r), stream))
    && if r.handled == Parse(stream).messages
       then OnReadable(r).handled == r.handled && OnReadable(r).connected == !Parse(stream).bad
       else |OnReadable(r).handled| == |r.handled| + 1
  }

  lemma PendingReadable(r: Reader, stream: seq<Byte>)
    requires Accounts(r, stream) && r.connected && r.pendingLength > 0
    ensures GoodReadable(r, stream)
  {
    AccountsPrefix(r, stream);
    if |r.inbox| >= r.pendingLength {
      HandleAccounts(r, stream, r.pendingLength, r.pendingKind);
      AccountsPrefix(OnReadable(r), stream);
    } else {
      ParseIncomplete(r.pendingLength, r.pendingKind, r.inbox);
    }
  }

  lemma HeaderReadable(r: Reader, stream: seq<Byte>)
    requires Accounts(r, stream) && r.connected && r.pendingLength == 0
    requires |r.inbox| >= HEADER_SIZE && r.inbox[..6] == MAGIC
    ensures GoodReadable(r, stream)
  {
    AccountsPrefix(r, stream);
    assert Awaited(r) + r.inbox == r.inbox;
    var n, kind, rest := HeaderLength(r.inbox), HeaderKind(r.inbox), r.inbox[HEADER_SIZE..];
    HeaderCanonical(r.inbox);
    if |rest| >= n {
      HandleAccounts(r.(inbox := rest, pendingKind := kind), stream, n, kind);
      AccountsPrefix(OnReadable(r), stream);
    } else {
      ParseIncomplete(n, kind, rest);
    }
  }

  lemma ReadableAccounts(r: Reader, stream: seq<Byte>)
    requires Accounts(r, stream) && r.connected
    ensures GoodReadable(r, stream)
  {
    if r.pendingLength > 0 {
      PendingReadable(r, stream);
    } else if |r.inbox| >= HEADER_SIZE && r.inbox[..6] == MAGIC {
      HeaderReadable(r, stream);
    } else {
      AccountsPrefix(r, stream);
      assert Awaited(r) + r.inbox == r.inbox;
    }
  }

  lemma StepAccounts(r: Reader, stream: seq<Byte>, e: Event)
    requires Accounts(r, stream)
    ensures Accounts(Step(r, e), stream + Sent(e))
  {
    match e
    case Arrive(bytes) =>
      if r.connected {
        var front := FrameAll(r.handled);
        Associative(front, Awaited(r) + r.inbox, bytes);
        Associative(Awaited(r), r.inbox, bytes);
      }
    case Readable =>
      assert stream + [] == stream;
      if r.connected { ReadableAccounts(r, stream); }
    case Hangup =>
      assert stream + [] == stream;
  }

  lemma {:induction false} RunAccounts(r: Reader, events: seq<Event>, stream: seq<Byte>)
    requires Accounts(r, stream)
    ensures Accounts(Run(r, events), stream + Arrived(events))
    decreases |events|
  {
    if events == [] {
      assert stream + Arrived(events) == stream;
    } else {
      StepAccounts(r, stream, events[0]);
      RunAccounts(Step(r, events[0]), events[1..], stream + Sent(events[0]));
      Associative(stream, Sent(events[0]), Arrived(events[1..]));
    }
  }

  // Safety.  However the stream is cut up and whenever the events come, the
  // handled commands are a prefix of the messages in it.
  lemma HandledIsPrefix(events: seq<Event>)
    ensures Run(FRESH, events).handled <= Parse(Arrived(events)).messages
  {
    RunAccounts(FRESH, events, []);
    assert [] + Arrived(events) == Arrived(events);
    AccountsPrefix(Run(FRESH, events), Arrived(events));
  }

  // The same, while only a part of the peer's messages has arrived.
  lemma HandledIsPrefixOfSent(events: seq<Event>, ms: seq<Message>)
    requires AllEncodable(ms) && Arrived(events) <= FrameAll(ms)
    ensures Run(FRESH, events).handled <= ms
  {
    var r, stream := Run(FRESH, events), FrameAll(ms);
    RunAccounts(FRESH, events, []);
    assert [] + Arrived(events) == Arrived(events);
    AccountsPrefix(r.(connected := false), stream) by {
      assert FrameAll(r.handled) <= stream;
    }
    ParseInvertsFrameAll(ms);
  }

  lemma {:induction false} RunAppend(r: Reader, first: seq<Event>, second: seq<Event>)
    ensures Run(r, first + second) == Run(Run(r, first), second)
    decreases |first|
  {
    if first == [] {
      assert first + second == second;
    } else {
      assert (first + second)[1..] == first[1..] + second;
      RunAppend(Step(r, first[0]), first[1..], second);
    }
  }

  lemma {:induction false} DisconnectedStays(r: Reader, events: seq<Event>)
    requires !r.connected
    ensures Run(r, events).handled == r.handled && !Run(r, events).connected
    decreases |events|
  {
    if events != [] {
      DisconnectedStays(Step(r, events[0]), events[1..]);
    }
  }

  // A hangup disconnects for good.
  lemma {:induction false} HangupDisconnects(r: Reader, events: seq<Event>)
    requires Hangup in events
    ensures !Run(r, events).connected
    decreases |events|
  {
    if events[0] == Hangup {
      DisconnectedStays(Step(r, Hangup), events[1..]);
    } else {
      HangupDisconnects(Step(r, events[0]), events[1..]);
    }
  }

  // Without a hangup a client is only dropped for a bad header, after all the
  // messages in front of it have been handled; what arrives later is ignored.
  ghost predicate NoHangup(events: seq<Event>) {
    Hangup !in events
  }

  lemma {:induction false} DroppedOnlyForBadHeader(r: Reader, events: seq<Event>, stream: seq<Byte>)
    requires Accounts(r, stream) && r.connected && NoHangup(events)
    requires !Run(r, events).connected
    ensures StoppedAtBadHeader(Run(r, events), stream + Arrived(events))
    decreases |events|
  {
    var s, now := Step(r, events[0]), stream + Sent(events[0]);
    StepAccounts(r, stream, events[0]);
    Associative(stream, Sent(events[0]), Arrived(events[1..]));
    if s.connected {
      DroppedOnlyForBadHeader(s, events[1..], now);
    } else {
      DropStep(r, stream, events[0], Arrived(events[1..]));
      DisconnectedStays(s, events[1..]);
    }
  }

  lemma DropStep(r: Reader, stream: seq<Byte>, e: Event, more: seq<Byte>)
    requires Accounts(r, stream) && r.connected && !e.Hangup? && !Step(r, e).connected
    ensures StoppedAtBadHeader(Step(r, e), stream + Sent(e) + more)
  {
    ReadableAccounts(r, stream);
    BadStaysBad(stream, more);
    assert stream + Sent(e) == stream;
  }

  // More input does not change the verdict on a bad header.
  lemma {:induction false} BadStaysBad(b: seq<Byte>, more: seq<Byte>)
    requires Parse(b).bad
    ensures Parse(b + more) == Parse(b)
    decreases |b|
  {
    assert (b + more)[..6] == b[..6];
    if b[..6] == MAGIC {
      assert (b + more)[6..10] == b[6..10] && (b + more)[10..14] == b[10..14];
      var n := HeaderLength(b);
      assert (b + more)[HEADER_SIZE..HEADER_SIZE + n] == b[HEADER_SIZE..HEADER_SIZE + n];
      assert (b + more)[HEADER_SIZE + n..] == b[HEADER_SIZE + n..] + more;
      BadStaysBad(b[HEADER_SIZE + n..], more);
    }
  }

  lemma {:induction false} Drain(r: Reader, stream: seq<Byte>, k: nat)
    requires Accounts(r, stream) && r.connected
    requires |Parse(stream).messages| - |r.handled| < k
    ensures Run(r, Readables(k)).handled == Parse(stream).messages
    ensures Run(r, Readables(k)).connected == !Parse(stream).bad
    decreases k
  {
    AccountsPrefix(r, stream);
    ReadableAccounts(r, stream);
    var s := OnReadable(r);
    assert Readables(k)[1..] == Readables(k - 1);
    AccountsPrefix(s, stream);
    if !s.connected {
      DisconnectedStays(s, Readables(k - 1));
    } else if k > 1 {
      Drain(s, stream, k - 1);
    }
  }

  // Liveness.  Once the whole stream has arrived, one readable event per
  // outstanding message and one more bring the client to exactly what the
  // stream means, read as a whole.
  lemma EverythingIsHandled(events: seq<Event>, k: nat)
    requires NoHangup(events)
    requires k > |Parse(Arrived(events)).messages|
    ensures var r := Run(FRESH, events + Readables(k));
      && r.handled == Parse(Arrived(events)).messages
      && r.connected == !Parse(Arrived(events)).bad
  {
    var r, stream := Run(FRESH, events), Arrived(events);
    RunAppend(FRESH, events, Readables(k));
    RunAccounts(FRESH, events, []);
    assert [] + stream == stream;
    if r.connected {
      AccountsPrefix(r, stream);
      Drain(r, stream, k);
    } else {
      DroppedOnlyForBadHeader(FRESH, events, []);
      DisconnectedStays(r, Readables(k));
    }
  }

  // The sender's side of the same statement.
  lemma SentMessagesAreHandled(events: seq<Event>, ms: seq<Message>, k: nat)
    requires NoHangup(events) && AllEncodable(ms)
    requires Arrived(events) == FrameAll(ms) && k > |ms|
    ensures Run(FRESH, events + Readables(k)).handled == ms
    ensures Run(FRESH, events + Readables(k)).connected
  {
    ParseInvertsFrameAll(ms);
    EverythingIsHandled(events, k);
  }

  // The kernel's receive queue is bounded, and a payload is only taken once it
  // is there as a whole.
  ghost predicate WithinCapacity(r: Reader, events: seq<Event>, capacity: nat)
    decreases |events|
  {
    events != [] ==>
      && (r.connected && events[0].Arrive? ==> |r.inbox| + |events[0].bytes| <= capacity)
      && WithinCapacity(Step(r, events[0]), events[1..], capacity)
  }

  lemma {:induction false} HandledFitsSocket(r: Reader, events: seq<Event>, capacity: nat)
    requires WithinCapacity(r, events, capacity) && |r.inbox| <= capacity
    requires forall m :: m in r.handled ==> |m.payload| <= capacity
    ensures forall m :: m in Run(r, events).handled ==> |m.payload| <= capacity
    decreases |events|
  {
    if events != [] {
      HandledFitsSocket(Step(r, events[0]), events[1..], capacity);
    }
  }

  // A delivery that never needs more room than the header or one payload.
  function Delivery(m: Message): (events: seq<Event>)
    requires m.Encodable()
  {
    [Arrive(Header(|m.payload|, m.kind)), Readable, Arrive(m.payload), Readable]
  }

  function Schedule(ms: seq<Message>): (events: seq<Event>)
    requires AllEncodable(ms)
  {
    if ms == [] then [] else assert ms[0] in ms; Delivery(ms[0]) + Schedule(ms[1..])
  }

  ghost predicate Idle(r: Reader) {
    r.connected && r.inbox == [] && r.pendingLength == 0
  }

  // The header alone is either a complete message or puts the reader in wait.
  lemma HeaderTaken(r: Reader, m: Message)
    requires Idle(r) && m.Encodable()
    ensures var header := Header(|m.payload|, m.kind);
      OnReadable(r.(inbox := header)) ==
        if m.payload == [] then r.(pendingKind := m.kind, handled := r.handled + [m])
        else r.(pendingLength := |m.payload|, pendingKind := m.kind)
  {
    var header := Header(|m.payload|, m.kind);
    HeaderRoundTrip(|m.payload|, m.kind, []);
    assert header + [] == header && header[HEADER_SIZE..] == [];
  }

  lemma DeliverOne(r: Reader, m: Message, capacity: nat)
    requires Idle(r) && m.Encodable() && HEADER_SIZE <= capacity && |m.payload| <= capacity
    ensures Idle(Run(r, Delivery(m))) && Run(r, Delivery(m)).handled == r.handled + [m]
    ensures WithinCapacity(r, Delivery(m), capacity)
    ensures Arrived(Delivery(m)) == Frame(m)
  {
    var header, e := Header(|m.payload|, m.kind), Delivery(m);
    HeaderTaken(r, m);
    var r1 := Step(r, e[0]);
    assert r1 == r.(inbox := header);
    var r2 := OnReadable(r1);
    var r3 := Step(r2, e[2]);
    assert r3.inbox == m.payload;
    var r4 := OnReadable(r3);
    assert Idle(r4) && r4.handled == r.handled + [m] by {
      assert m.payload[|m.payload|..] == [] && m.payload[..|m.payload|] == m.payload;
    }
    FourEvents(r, r1, r2, r3, r4, e, capacity);
    assert header + ([] + (m.payload + ([] + []))) == Frame(m);
  }

  lemma FourEvents(r: Reader, r1: Reader, r2: Reader, r3: Reader, r4: Reader, e: seq<Event>, capacity: nat)
    requires |e| == 4 && r1 == Step(r, e[0]) && r2 == Step(r1, e[1]) && r3 == Step(r2, e[2]) && r4 == Step(r3, e[3])
    requires !e[0].Arrive? || |r.inbox| + |e[0].bytes| <= capacity
    requires !e[1].Arrive? || |r1.inbox| + |e[1].bytes| <= capacity
    requires !e[2].Arrive? || |r2.inbox| + |e[2].bytes| <= capacity
    requires !e[3].Arrive? || |r3.inbox| + |e[3].bytes| <= capacity
    ensures Run(r, e) == r4 && WithinCapacity(r, e, capacity)
    ensures Arrived(e) == Sent(e[0]) + (Sent(e[1]) + (Sent(e[2]) + (Sent(e[3]) + [])))
  {
    var e1 := e[1..];
    var e2 := e1[1..];
    var e3 := e2[1..];
    assert e1[0] == e[1] && e2[0] == e[2] && e3[0] == e[3] && e3[1..] == [];
    assert Run(r3, e3) == r4 && Run(r2, e2) == r4 && Run(r1, e1) == r4;
    assert WithinCapacity(r4, [], capacity) && WithinCapacity(r3, e3, capacity);
    assert WithinCapacity(r2, e2, capacity);
    assert WithinCapacity(r1, e1, capacity);
    assert Arrived(e3) == Sent(e[3]) + [] && Arrived(e2) == Sent(e[2]) + Arrived(e3);
    assert Arrived(e1) == Sent(e[1]) + Arrived(e2);
  }

  lemma {:induction false} CapacityAppend(r: Reader, first: seq<Event>, second: seq<Event>, capacity: nat)
    requires WithinCapacity(r, first, capacity) && WithinCapacity(Run(r, first), second, capacity)
    ensures WithinCapacity(r, first + second, capacity)
    ensures Arrived(first + second) == Arrived(first) + Arrived(second)
    decreases |first|
  {
    if first == [] {
      assert first + second == second;
    } else {
      assert (first + second)[1..] == first[1..] + second;
      CapacityAppend(Step(r, first[0]), first[1..], second, capacity);
      Associative(Sent(first[0]), Arrived(first[1..]), Arrived(second));
    }
  }

  lemma {:induction false} ScheduleDelivers(r: Reader, ms: seq<Message>, capacity: nat)
    requires Idle(r) && AllEncodable(ms) && HEADER_SIZE <= capacity
    requires forall m :: m in ms ==> |m.payload| <= capacity
    ensures Run(r, Schedule(ms)).handled == r.handled + ms
    ensures Arrived(Schedule(ms)) == FrameAll(ms)
    ensures WithinCapacity(r, Schedule(ms), capacity)
    decreases |ms|
  {
    if ms != [] {
      assert ms[0] in ms;
      var first, rest := Delivery(ms[0]), Schedule(ms[1..]);
      DeliverOne(r, ms[0], capacity);
      ScheduleDelivers(Run(r, first), ms[1..], capacity);
      RunAppend(r, first, rest);
      CapacityAppend(r, first, rest, capacity);
      Associative(r.handled, [ms[0]], ms[1..]);
      assert [ms[0]] + ms[1..] == ms;
    }
  }

  // Exactly the messages whose payload fits the socket's receive queue can be
  // delivered at all; a larger one stalls its connection for good.
  lemma DeliverableIffPayloadsFit(ms: seq<Message>, capacity: nat)
    requires AllEncodable(ms) && HEADER_SIZE <= capacity
    ensures (exists events :: WithinCapacity(FRESH, events, capacity)
                           && Arrived(events) == FrameAll(ms) && Run(FRESH, events).handled == ms)
            <==> forall m :: m in ms ==> |m.payload| <= capacity
  {
    forall events | WithinCapacity(FRESH, events, capacity) && Run(FRESH, events).handled == ms
      ensures forall m :: m in ms ==> |m.payload| <= capacity
    {
      HandledFitsSocket(FRESH, events, capacity);
    }
    if forall m :: m in ms ==> |m.payload| <= capacity {
      ScheduleDelivers(FRESH, ms, capacity);
      assert [] + ms == ms;
      var events := Schedule(ms);
      assert WithinCapacity(FRESH, events, capacity);
      assert Arrived(events) == FrameAll(ms) && Run(FRESH, events).handled == ms;
    }
  }
}
