// The reply queue of one IPC client (sway/ipc-server.c): frames are appended
// to a doubling buffer and drained by partial writes.
module IpcQueue {
  import opened IpcFrames
  import opened IpcReassembly
  import opened Sequences

  const INITIAL_SIZE := 128
  // Buffers beyond 4 MB get the client disconnected.
  const MAX_SIZE := 4_000_000
  // The largest buffer size that stays below that is 2^21.
  const LIMIT := 0x20_0000

  // written and accepted record the bytes the peer has been given and the
  // messages whose frames were queued.
  datatype Queue = Queue(queued: seq<Byte>, size: nat, registered: bool, connected: bool,
                         written: seq<Byte>, accepted: seq<Message>)

  const EMPTY := Queue([], INITIAL_SIZE, false, true, [], [])

  // What write(2) reports: nothing taken for now, an error, or n bytes.
  datatype WriteResult = Again | Failed | Wrote(n: nat)

  datatype Event = Send(message: Message) | Writable(result: WriteResult) | Hangup

  function Grow(size: nat, need: nat): (r: nat)
    requires size > 0
    decreases need + 1 - size
  {
    if need >= size then Grow(2 * size, need) else size
  }

  function OnSend(q: Queue, m: Message): (r: Queue)
    requires m.Encodable() && q.size > 0
  {
    if !q.connected then q
    else
      var size := Grow(q.size, |q.queued| + HEADER_SIZE + |m.payload|);
      if size > MAX_SIZE then q.(size := size, connected := false)
      else q.(queued := q.queued + Frame(m), size := size, registered := true, accepted := q.accepted + [m])
  }

  function OnWritable(q: Queue, result: WriteResult): (r: Queue)
    requires result.Wrote? ==> result.n <= |q.queued|
  {
    if !q.connected || q.queued == [] then q
    else match result
      case Again => q
      case Failed => q.(connected := false)
      case Wrote(n) =>
        q.(queued := q.queued[n..], written := q.written + q.queued[..n],
           registered := q.registered && n < |q.queued|)
  }

  ghost predicate Enabled(q: Queue, e: Event) {
    match e
    case Send(m) => m.Encodable() && q.size > 0
    case Writable(result) => result.Wrote? ==> result.n <= |q.queued|
    case Hangup => true
  }

  function Step(q: Queue, e: Event): (r: Queue)
    requires Enabled(q, e)
  {
    match e
    case Send(m) => OnSend(q, m)
    case Writable(result) => OnWritable(q, result)
    case Hangup => q.(connected := false)
  }

  // The initial size doubled some number of times.
  ghost predicate IsDoubled(n: nat) {
    n == INITIAL_SIZE || (n > INITIAL_SIZE && n % 2 == 0 && IsDoubled(n / 2))
  }

  ghost predicate Conserves(q: Queue) {
    && AllEncodable(q.accepted)
    && q.written + q.queued == FrameAll(q.accepted)
  }

  // What holds of a connected client's queue between any two events.
  ghost predicate QueueOk(q: Queue) {
    && Conserves(q)
    && (q.connected ==>
        && |q.queued| < q.size <= LIMIT
        && IsDoubled(q.size)
        && (q.registered <==> q.queued != []))
    && q.size > 0
  }

  lemma {:induction false} DoubledSizesAreApart(m: nat, n: nat)
    requires IsDoubled(m) && IsDoubled(n) && m < n
    ensures 2 * m <= n
  {
    if m > INITIAL_SIZE {
      DoubledSizesAreApart(m / 2, n / 2);
    }
  }

  lemma {:induction false} GrowIsLeast(size: nat, need: nat)
    requires IsDoubled(size)
    ensures var r := Grow(size, need); IsDoubled(r) && need < r && size <= r && (r == size || r / 2 <= need)
    decreases need + 1 - size
  {
    if need >= size {
      GrowIsLeast(2 * size, need);
      if Grow(size, need) > 2 * size {
        DoubledSizesAreApart(2 * size, Grow(size, need));
      }
    }
  }

  lemma LimitIsDoubled()
    ensures IsDoubled(LIMIT)
  {
    assert IsDoubled(0x100) && IsDoubled(0x200) && IsDoubled(0x400);
    assert IsDoubled(0x800) && IsDoubled(0x1000) && IsDoubled(0x2000);
    assert IsDoubled(0x4000) && IsDoubled(0x8000) && IsDoubled(0x1_0000);
    assert IsDoubled(0x2_0000) && IsDoubled(0x4_0000) && IsDoubled(0x8_0000);
    assert IsDoubled(0x10_0000);
  }

  // The size test of the code is a test against 2^21.
  lemma GrowthWithinLimit(size: nat, need: nat)
    requires IsDoubled(size) && size <= LIMIT
    ensures var r := Grow(size, need);
      IsDoubled(r) && need < r && (r <= MAX_SIZE <==> need < LIMIT) && (r <= MAX_SIZE ==> r <= LIMIT)
  {
    GrowIsLeast(size, need);
    LimitIsDoubled();
    if Grow(size, need) > LIMIT {
      DoubledSizesAreApart(LIMIT, Grow(size, need));
    }
  }

  // A reply is refused exactly when the queue with it would reach 2^21 bytes.
  lemma RefusedIffTooLong(q: Queue, m: Message)
    requires QueueOk(q) && q.connected && m.Encodable()
    ensures OnSend(q, m).connected <==> |q.queued| + HEADER_SIZE + |m.payload| < LIMIT
  {
    GrowthWithinLimit(q.size, |q.queued| + HEADER_SIZE + |m.payload|);
  }

  lemma SendKeepsQueueOk(q: Queue, m: Message)
    requires QueueOk(q) && m.Encodable()
    ensures QueueOk(OnSend(q, m))
  {
    if q.connected {
      GrowthWithinLimit(q.size, |q.queued| + HEADER_SIZE + |m.payload|);
      FrameAllAppend(q.accepted, m);
      Associative(q.written, q.queued, Frame(m));
    }
  }

  lemma WritableKeepsQueueOk(q: Queue, result: WriteResult)
    requires QueueOk(q) && Enabled(q, Writable(result))
    ensures QueueOk(OnWritable(q, result))
  {
    if result.Wrote? {
      Associative(q.written, q.queued[..result.n], q.queued[result.n..]);
      assert q.queued[..result.n] + q.queued[result.n..] == q.queued;
    }
  }

  // A run is a chain of states, one for each event and the last one.
  ghost predicate IsRun(states: seq<Queue>, events: seq<Event>) {
    && |states| == |events| + 1 && states[0] == EMPTY
    && forall i :: 0 <= i < |events| ==> Enabled(states[i], events[i]) && states[i + 1] == Step(states[i], events[i])
  }

  lemma {:induction false} QueueOkAlways(states: seq<Queue>, events: seq<Event>, i: nat)
    requires IsRun(states, events) && i <= |events|
    ensures QueueOk(states[i])
  {
    if i == 0 {
      assert [] + [] == FrameAll([]);
    } else {
      QueueOkAlways(states, events, i - 1);
      match events[i - 1] {
        case Send(m) => SendKeepsQueueOk(states[i - 1], m);
        case Writable(result) => WritableKeepsQueueOk(states[i - 1], result);
        case Hangup =>
      }
    }
  }

  // ---- Told by the events ----

  // What the socket took at an event: as many bytes off the front of the queue as
  // the write reported.
  function TakenAt(q: Queue, e: Event): (b: seq<Byte>) {
    if q.connected && e.Writable? && e.result.Wrote? && e.result.n <= |q.queued| then q.queued[..e.result.n] else []
  }

  // The reply that an event adds: one with which the queue stays below the limit.
  function AddedAt(q: Queue, e: Event): (ms: seq<Message>) {
    if q.connected && e.Send? && |q.queued| + HEADER_SIZE + |e.message.payload| < LIMIT then [e.message] else []
  }

  function Taken(states: seq<Queue>, events: seq<Event>, i: nat): (b: seq<Byte>)
    requires i <= |states| && i <= |events|
  {
    if i == 0 then [] else Taken(states, events, i - 1) + TakenAt(states[i - 1], events[i - 1])
  }

  function Added(states: seq<Queue>, events: seq<Event>, i: nat): (ms: seq<Message>)
    requires i <= |states| && i <= |events|
  {
    if i == 0 then [] else Added(states, events, i - 1) + AddedAt(states[i - 1], events[i - 1])
  }

  // The events that cost a client its connection.
  predicate EndsConnection(q: Queue, e: Event) {
    match e
    case Hangup => true
    case Send(m) => |q.queued| + HEADER_SIZE + |m.payload| >= LIMIT
    case Writable(result) => q.queued != [] && result == Failed
  }

  // At every event the records grow by what it takes and adds, the queue is what is
  // left between the two, and the connection lasts unless the event ends it.
  lemma StepTold(q: Queue, e: Event)
    requires QueueOk(q) && Enabled(q, e)
    ensures Step(q, e).written == q.written + TakenAt(q, e)
    ensures Step(q, e).accepted == q.accepted + AddedAt(q, e)
    ensures Step(q, e).connected <==> q.connected && !EndsConnection(q, e)
  {
    if e.Send? && q.connected { RefusedIffTooLong(q, e.message); }
    assert q.written + [] == q.written && q.accepted + [] == q.accepted;
  }

  lemma {:induction false} RunTold(states: seq<Queue>, events: seq<Event>, i: nat)
    requires IsRun(states, events) && i <= |events|
    ensures states[i].written == Taken(states, events, i) && states[i].accepted == Added(states, events, i)
    ensures states[i].connected <==> forall j :: 0 <= j < i ==> !EndsConnection(states[j], events[j])
  {
    if i > 0 {
      RunTold(states, events, i - 1);
      QueueOkAlways(states, events, i - 1);
      StepTold(states[i - 1], events[i - 1]);
    }
  }

  // Conservation, told by the events alone: while a client is connected, what the
  // socket took and what is queued are the frames of the replies that were added,
  // each byte once and in order; and what the socket took always is their beginning.
  lemma EveryByteOnce(states: seq<Queue>, events: seq<Event>, i: nat)
    requires IsRun(states, events) && i <= |events|
    ensures AllEncodable(Added(states, events, i))
    ensures Taken(states, events, i) + states[i].queued == FrameAll(Added(states, events, i))
    ensures states[i].connected <==> forall j :: 0 <= j < i ==> !EndsConnection(states[j], events[j])
    ensures states[i].connected ==>
      (states[i].registered <==> Taken(states, events, i) != FrameAll(Added(states, events, i)))
  {
    RunTold(states, events, i);
    QueueOkAlways(states, events, i);
    var q := states[i];
    assert q.queued == [] ==> q.written + q.queued == q.written;
  }

  // What the peer reads.  At any moment of any run the bytes the socket took hold,
  // in order, a prefix of the replies that were added, and all of them once it took
  // as many bytes as their frames have.
  lemma PeerReadsAcceptedReplies(states: seq<Queue>, events: seq<Event>, i: nat)
    requires IsRun(states, events) && i <= |events|
    ensures AllEncodable(Added(states, events, i))
    ensures var taken, added := Taken(states, events, i), Added(states, events, i);
      && Parse(taken).messages <= added
      && (|taken| == |FrameAll(added)| ==> Parse(taken) == Parsed(added, false))
  {
    var taken, added := Taken(states, events, i), Added(states, events, i);
    EveryByteOnce(states, events, i);
    ParseInvertsFrameAll(added);
    ParsePrefixOf(taken, states[i].queued);
    assert |taken| == |FrameAll(added)| ==> states[i].queued == [] && taken + states[i].queued == taken;
  }

  // More bytes never take back a message.
  lemma {:induction false} ParsePrefixOf(b: seq<Byte>, more: seq<Byte>)
    ensures Parse(b).messages <= Parse(b + more).messages
    decreases |b|
  {
    if |b| >= HEADER_SIZE && b[..6] == MAGIC && |b| - HEADER_SIZE >= HeaderLength(b) {
      assert (b + more)[..6] == b[..6];
      assert (b + more)[6..10] == b[6..10] && (b + more)[10..14] == b[10..14];
      var n := HeaderLength(b);
      assert (b + more)[HEADER_SIZE..HEADER_SIZE + n] == b[HEADER_SIZE..HEADER_SIZE + n];
      assert (b + more)[HEADER_SIZE + n..] == b[HEADER_SIZE + n..] + more;
      ParsePrefixOf(b[HEADER_SIZE + n..], more);
    }
  }
}
