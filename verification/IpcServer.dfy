// sway/ipc-server.c: the connected IPC clients and their event handlers.
module IpcServer {
  import opened Memory
  import opened IpcFrames
  import R = IpcReassembly
  import Q = IpcQueue
  import opened Wrappers

  // The conditions the event loop reports with a file descriptor.
  datatype Mask = Error | HungUp | Ready

  class IpcClient {
    // Numbers of the events the client has subscribed to.
    var subscribedEvents: set<nat>
    var pendingLength: Uint32
    var pendingKind: Uint32
    var writeBuffer: array<Byte>
    var writeBufferLen: nat
    var writeBufferSize: nat
    // Whether the writable event source exists.
    var writableSource: bool
    // The kernel's side of the connection: bytes ready to be received, and
    // whether the socket is open.
    var inbox: seq<Byte>
    var open: bool

    // The two directions of the connection as values, with their history.
    ghost var reader: R.Reader
    ghost var queue: Q.Queue

    ghost predicate Valid()
      reads this, writeBuffer
    {
      && reader == R.Reader(inbox, pendingLength, pendingKind, open, reader.handled)
      && writeBuffer.Length == writeBufferSize
      && writeBufferLen <= writeBuffer.Length
      && queue ==
         Q.Queue(writeBuffer[..writeBufferLen], writeBufferSize, writableSource, open, queue.written, queue.accepted)
      && Q.QueueOk(queue)
      && open
    }

    // The bytes that wait to be written.
    ghost function Waiting(): (b: seq<Byte>)
      reads this, writeBuffer
    {
      if writeBufferLen <= writeBuffer.Length then writeBuffer[..writeBufferLen] else []
    }

    constructor (inbox: seq<Byte>)
      ensures Valid() && fresh(writeBuffer)
      ensures reader == R.FRESH.(inbox := inbox)
      ensures queue == Q.EMPTY && subscribedEvents == {}
      ensures Waiting() == [] && writeBuffer.Length == 128 && !writableSource && pendingLength == 0 && open
    {
      this.inbox := inbox;
      pendingLength, pendingKind := 0, 0;
      open := true;
      subscribedEvents := {};
      writableSource := false;
      writeBufferSize := Q.INITIAL_SIZE;
      writeBufferLen := 0;
      writeBuffer := new Byte[Q.INITIAL_SIZE];
      reader, queue := R.FRESH.(inbox := inbox), Q.EMPTY;
      new;
      assert [] + [] == FrameAll([]);
    }

    // Takes a header or a payload from the socket if it is there as a whole.
    method TryReceive() returns (command: Option<Message>, bad: bool)
      requires Valid()
      modifies `inbox, `pendingLength, `pendingKind, `reader
      ensures reader.(connected := !bad) == R.OnReadable(old(reader))
      ensures reader.handled == old(reader.handled) + (if command.Some? then [command.value] else [])
      ensures Valid()
    {
      var readAvailable := |inbox|;
      if pendingLength > 0 {
        if readAvailable >= pendingLength {
          var m := Receive(pendingLength, pendingKind);
          return Some(m), false;
        }
        return None, false;
      }
      if readAvailable < HEADER_SIZE {
        return None, false;
      }
      var buf := inbox[..HEADER_SIZE];
      assert buf[6..10] == inbox[6..10] && buf[10..14] == inbox[10..14] && buf[..6] == inbox[..6];
      inbox := inbox[HEADER_SIZE..];
      reader := reader.(inbox := inbox);
      if buf[..6] != MAGIC {
        return None, true;
      }
      pendingLength := DecodeUint32(buf[6..10]);
      pendingKind := DecodeUint32(buf[10..14]);
      reader := reader.(pendingLength := pendingLength, pendingKind := pendingKind);
      if readAvailable - HEADER_SIZE >= pendingLength {
        var m := Receive(pendingLength, pendingKind);
        return Some(m), false;
      }
      return None, false;
    }

    // The receiving part of handling a command; what the command then does and
    // replies is not modelled here.
    method Receive(payloadLength: Uint32, payloadKind: Uint32) returns (m: Message)
      requires payloadLength <= |inbox| && Valid()
      modifies `inbox, `reader, `pendingLength
      ensures Valid()
      ensures m == Message(payloadKind, old(inbox)[..payloadLength])
      ensures reader == R.Handle(old(reader), payloadLength, payloadKind)
    {
      pendingLength := 0;
      m := Message(payloadKind, inbox[..payloadLength]);
      inbox := inbox[payloadLength..];
      reader := R.Handle(reader, payloadLength, payloadKind);
    }

    // Queues one frame, unless the buffer would get too big.
    method Enqueue(m: Message) returns (ok: bool)
      requires Valid() && m.Encodable()
      modifies `writeBuffer, `writeBufferLen, `writeBufferSize, `writableSource, `queue
      ensures ok <==> |old(queue).queued| + HEADER_SIZE + |m.payload| < Q.LIMIT
      ensures queue.(connected := ok) == Q.OnSend(old(queue), m)
      ensures ok ==> Valid() && fresh(writeBuffer)
      ensures !ok ==> writeBuffer == old(writeBuffer)
    {
      Q.RefusedIffTooLong(queue, m);
      Q.SendKeepsQueueOk(queue, m);
      GrowSize(writeBufferLen + HEADER_SIZE + |m.payload|);
      queue := queue.(size := writeBufferSize);
      if writeBufferSize > Q.MAX_SIZE {
        return false;
      }
      ghost var sent := Q.OnSend(old(queue), m);
      Append(Frame(m));
      if !writableSource {
        writableSource := true;
      }
      queue := sent;
      return true;
    }

    method GrowSize(need: nat)
      requires 0 < writeBufferSize
      modifies `writeBufferSize
      ensures writeBufferSize == Q.Grow(old(writeBufferSize), need)
    {
      while need >= writeBufferSize
        invariant 0 < writeBufferSize && Q.Grow(writeBufferSize, need) == Q.Grow(old(writeBufferSize), need)
        decreases need + 1 - writeBufferSize
      {
        writeBufferSize := writeBufferSize * 2;
      }
    }

    // Reallocates the buffer to the client's new size and copies the bytes
    // behind its contents.
    method Append(bytes: seq<Byte>)
      requires writeBufferLen <= writeBuffer.Length
      requires writeBufferLen + |bytes| <= writeBufferSize
      modifies `writeBuffer, `writeBufferLen
      ensures fresh(writeBuffer) && writeBuffer.Length == writeBufferSize
      ensures writeBufferLen == old(writeBufferLen) + |bytes| <= writeBuffer.Length
      ensures writeBuffer[..writeBufferLen] == old(writeBuffer[..writeBufferLen]) + bytes
    {
      var grown := new Byte[writeBufferSize];
      forall i | 0 <= i < writeBufferLen {
        grown[i] := writeBuffer[i];
      }
      forall i | 0 <= i < |bytes| {
        grown[writeBufferLen + i] := bytes[i];
      }
      writeBuffer := grown;
      writeBufferLen := writeBufferLen + |bytes|;
    }

    // Hands the queue to the socket; the result says how much of it was taken.
    method WriteOut(result: Q.WriteResult) returns (failed: bool)
      requires Valid()
      requires result.Wrote? ==> result.n <= writeBufferLen
      modifies `writeBufferLen, `writableSource, `queue, writeBuffer
      ensures queue.(connected := !failed) == Q.OnWritable(old(queue), result)
      ensures !failed ==> Valid()
      ensures failed <==> result == Q.Failed && old(writeBufferLen) > 0
      ensures Waiting() == if result.Wrote? then old(Waiting())[result.n..] else old(Waiting())
      ensures !failed ==> (writableSource <==> Waiting() != [])
    {
      Q.WritableKeepsQueueOk(queue, result);
      if writeBufferLen <= 0 {
        return false;
      }
      match result {
        case Again => return false;
        case Failed => return true;
        case Wrote(n) =>
          MoveToFront(n);
          if writeBufferLen == 0 && writableSource {
            writableSource := false;
          }
          queue := queue.(
            queued := queue.queued[n..], written := queue.written + queue.queued[..n], registered := writableSource);
          return false;
      }
    }

    method MoveToFront(n: nat)
      requires n <= writeBufferLen <= writeBuffer.Length
      modifies `writeBufferLen, writeBuffer
      ensures writeBufferLen == old(writeBufferLen) - n
      ensures writeBuffer[..writeBufferLen] == old(writeBuffer[..writeBufferLen])[n..]
    {
      MemMove(writeBuffer, 0, n, writeBufferLen - n);
      writeBufferLen := writeBufferLen - n;
    }
  }

  // The list without the first occurrence of c.
  ghost function Minus(s: seq<IpcClient>, c: IpcClient): (r: seq<IpcClient>) {
    if s == [] then []
    else if s[0] == c then s[1..]
    else [s[0]] + Minus(s[1..], c)
  }

  lemma {:induction false} MinusAt(s: seq<IpcClient>, c: IpcClient, i: nat)
    requires i < |s| && s[i] == c && c !in s[..i]
    ensures Minus(s, c) == s[..i] + s[i + 1..]
  {
    if i > 0 {
      assert s[..i] == [s[0]] + s[1..][..i - 1];
      MinusAt(s[1..], c, i - 1);
    }
  }

  ghost predicate Distinct(s: seq<IpcClient>) {
    forall i, j :: 0 <= i < j < |s| ==> s[i] != s[j]
  }

  // The effect of an event on one client's queue: a subscriber is sent the
  // message once, the others see nothing.
  ghost function Notified(subscribed: bool, queue: Q.Queue, m: Message): (r: Q.Queue)
    requires m.Encodable() && queue.size > 0
  {
    if subscribed then Q.OnSend(queue, m) else queue
  }

  predicate Subscribes(events: set<nat>, event: Uint32) {
    event % 0x80 in events
  }

  class IpcServer {
    var clients: seq<IpcClient>

    ghost predicate Valid()
      reads this, clients, set c | c in clients :: c.writeBuffer
    {
      && (forall c :: c in clients ==> c.Valid())
      && Distinct(clients)
      && (forall c, d :: c in clients && d in clients && c != d ==> c.writeBuffer != d.writeBuffer)
    }

    constructor ()
      ensures Valid() && clients == []
    {
      clients := [];
    }

    method HandleConnection(inbox: seq<Byte>) returns (client: IpcClient)
      requires Valid()
      modifies this
      ensures Valid() && fresh(client) && fresh(client.writeBuffer)
      ensures clients == old(clients) + [client]
      ensures client.reader == R.FRESH.(inbox := inbox) && client.queue == Q.EMPTY
    {
      client := new IpcClient(inbox);
      clients := clients + [client];
    }

    // Closes the connection and takes the client out of the list.
    method Disconnect(client: IpcClient)
      requires client in clients && Distinct(clients)
      modifies this, client`open, client`reader, client`queue
      ensures !client.open && clients == Minus(old(clients), client)
      ensures client.reader == old(client.reader).(connected := false)
      ensures client.queue == old(client.queue).(connected := false)
      ensures Distinct(clients) && client !in clients
      ensures forall c :: c in clients ==> c in old(clients)
      ensures forall c :: c in old(clients) && c != client ==> c in clients
    {
      client.open := false;
      client.reader := client.reader.(connected := false);
      client.queue := client.queue.(connected := false);
      var i := 0;
      while i < |clients| && clients[i] != client
        invariant i <= |clients|
        invariant client !in clients[..i]
      {
        i := i + 1;
      }
      MinusAt(clients, client, i);
      clients := clients[..i] + clients[i + 1..];
    }

    // The end of every handler: a client that has to go is disconnected.
    method Settle(client: IpcClient, drop: bool)
      requires client in clients && Distinct(clients) && client.open
      requires forall c, d :: c in clients && d in clients && c != d ==> c.writeBuffer != d.writeBuffer
      requires forall c :: c in clients && (c != client || !drop) ==> c.Valid()
      modifies this, client`open, client`reader, client`queue
      ensures Valid() && client.open == !drop
      ensures clients == if drop then Minus(old(clients), client) else old(clients)
      ensures client.reader == if drop then old(client.reader).(connected := false) else old(client.reader)
      ensures client.queue == if drop then old(client.queue).(connected := false) else old(client.queue)
    {
      if drop {
        Disconnect(client);
      }
    }

    // Returns the command that is to be executed, if one is complete.
    method HandleReadable(client: IpcClient, mask: Mask) returns (command: Option<Message>)
      requires Valid() && client in clients
      modifies this, client
      ensures Valid()
      ensures clients == if client.reader.connected then old(clients) else Minus(old(clients), client)
      ensures client.reader == R.Step(old(client.reader), if mask == Ready then R.Readable else R.Hangup)
      ensures client.reader.handled == old(client.reader.handled) + (if command.Some? then [command.value] else [])
      ensures client.queue == old(client.queue).(connected := client.reader.connected)
      ensures client.subscribedEvents == old(client.subscribedEvents)
    {
      var drop := true;
      command := None;
      if mask == Ready {
        command, drop := client.TryReceive();
      }
      Settle(client, drop);
    }

    // Queues one frame, or disconnects the client if its buffer gets too big.
    method SendReply(client: IpcClient, m: Message) returns (ok: bool)
      requires Valid() && client in clients && m.Encodable()
      modifies this, client
      ensures Valid()
      ensures ok <==> |old(client.queue).queued| + HEADER_SIZE + |m.payload| < Q.LIMIT
      ensures clients == if ok then old(clients) else Minus(old(clients), client)
      ensures client.queue == Q.OnSend(old(client.queue), m) && client.queue.connected == ok
      ensures ok ==> client.Waiting() == old(client.Waiting()) + Frame(m) && client.writableSource
      ensures client.reader == old(client.reader).(connected := ok)
      ensures client.subscribedEvents == old(client.subscribedEvents)
    {
      ok := client.Enqueue(m);
      Settle(client, !ok);
    }

    // Writes as much of the queue as the socket takes.
    method HandleWritable(client: IpcClient, mask: Mask, result: Q.WriteResult)
      requires Valid() && client in clients
      requires result.Wrote? ==> result.n <= client.writeBufferLen
      modifies this, client, client.writeBuffer
      ensures Valid()
      ensures clients == if client.queue.connected then old(clients) else Minus(old(clients), client)
      ensures client.queue == Q.Step(old(client.queue), if mask == Ready then Q.Writable(result) else Q.Hangup)
      ensures client.open <==> mask == Ready && (result == Q.Failed ==> old(client.writeBufferLen) == 0)
      ensures mask == Ready ==>
        client.Waiting() == if result.Wrote? then old(client.Waiting())[result.n..] else old(client.Waiting())
      ensures client.open ==> (client.writableSource <==> client.Waiting() != [])
      ensures client.reader == old(client.reader).(connected := client.queue.connected)
      ensures client.subscribedEvents == old(client.subscribedEvents)
    {
      var drop := true;
      if mask == Ready {
        drop := client.WriteOut(result);
      }
      Settle(client, drop);
    }

    // Sends an event to every subscriber.  The list shrinks under the loop when
    // a client overflows; still every client that was connected is treated
    // exactly once, and the others keep their order.
    method SendEvent(json: seq<Byte>, event: Uint32)
      requires Valid() && Message(event, json).Encodable()
      modifies this, clients
      ensures Valid()
      ensures clients == old(Staying(clients, Message(event, json)))
      ensures forall c :: c in old(clients) ==>
        c.queue == Notified(old(Subscribes(c.subscribedEvents, event)), old(c.queue), Message(event, json))
      ensures forall c :: c in old(clients) ==>
        c.reader == old(c.reader).(connected := c.queue.connected) && c.subscribedEvents == old(c.subscribedEvents)
    {
      ghost var m := Message(event, json);
      ghost var subscribed := map c | c in clients :: Subscribes(c.subscribedEvents, event);
      ghost var queues := map c | c in clients :: c.queue;
      StayingIsSurvivors(clients, subscribed, queues, m);
      ghost var was := map c | c in clients :: (c.reader, c.subscribedEvents);
      assert forall c :: c in clients ==> c.Valid();
      NotifyAll(Message(event, json), subscribed, queues, was);
    }

    // The loop of SendEvent, for clients with these subscriptions and queues.
    method NotifyAll(m: Message, ghost subscribed: map<IpcClient, bool>, ghost queues: map<IpcClient, Q.Queue>,
                     ghost was: map<IpcClient, (R.Reader, set<nat>)>)
      requires Valid() && m.Encodable() && AllKeep(clients, was)
      requires forall c :: c in clients ==>
        && c in subscribed && Subscribes(c.subscribedEvents, m.kind) == subscribed[c]
        && c in queues && c.queue == queues[c] && queues[c].size > 0
      modifies this, clients
      ensures Valid()
      ensures clients == Survivors(old(clients), subscribed, queues, m)
      ensures forall c :: c in old(clients) ==> c.queue == Notified(subscribed[c], queues[c], m)
      ensures AllKeep(old(clients), was)
    {
      ghost var front, rest, before := [], clients, clients;
      ghost var todo := set c | c in clients;
      ghost var goal := Survivors(clients, subscribed, queues, m);
      var i := 0;
      while i < |clients|
        invariant Valid() && clients == front + rest && |front| == i
        invariant forall c :: c in todo <==> c in rest
        invariant front + Survivors(rest, subscribed, queues, m) == goal
        invariant HalfNotified(before, todo, subscribed, queues, m)
        invariant AllKeep(before, was)
        decreases |rest|
      {
        ghost var client := rest[0];
        assert client in rest;
        SurvivorsStep(front, rest, subscribed, queues, m);
        var ok := NotifyAt(i, m, front, rest, before, todo, subscribed, queues, was);
        if ok {
          front := front + [client];
        } else {
          i := i - 1;
        }
        rest := rest[1..];
        todo := todo - {client};
        i := i + 1;
      }
    }

    method HasListeners(event: Uint32) returns (r: bool)
      ensures r <==> exists c :: c in clients && Subscribes(c.subscribedEvents, event)
    {
      var i := 0;
      while i < |clients|
        invariant i <= |clients|
        invariant forall k :: 0 <= k < i ==> !Subscribes(clients[k].subscribedEvents, event)
      {
        if Subscribes(clients[i].subscribedEvents, event) {
          return true;
        }
        i := i + 1;
      }
      return false;
    }

    // A client sends a tick: its subscribers, of which it may be one itself, are
    // sent the event before the client is sent its reply.  There is a client to
    // reply to if and only if the event has not overflown its queue, and the reply
    // is accepted if and only if that has room for it behind the event.
    method HandleSendTick(client: IpcClient, json: seq<Byte>, tick: Uint32, m: Message)
      returns (there: bool, ok: bool)
      requires Valid() && client in clients && Message(tick, json).Encodable() && m.Encodable()
      modifies this, clients
      ensures Valid()
      ensures there == old(Stays(client, Message(tick, json)))
      ensures there ==>
        var queue := Notified(old(Subscribes(client.subscribedEvents, tick)), old(client.queue), Message(tick, json));
        && queue.size > 0
        && (ok <==> |queue.queued| + HEADER_SIZE + |m.payload| < Q.LIMIT)
        && client.queue == Q.OnSend(queue, m)
      ensures !there ==> !ok && !client.queue.connected
      ensures clients == var rest := old(Staying(clients, Message(tick, json)));
        if there && !ok then Minus(rest, client) else rest
      ensures forall c :: c in old(clients) && c != client ==>
        && c.queue == Notified(old(Subscribes(c.subscribedEvents, tick)), old(c.queue), Message(tick, json))
        && c.reader == old(c.reader).(connected := c.queue.connected) && c.subscribedEvents == old(c.subscribedEvents)
    {
      ghost var e := Message(tick, json);
      StaysIff(clients, client, e);
      assert client.Valid();
      Q.RefusedIffTooLong(client.queue, e);
      ok := false;
      there := Tell(client, json, tick);
      if there {
        ok := SendReply(client, m);
      }
    }

    // A subscription to ticks is answered with two messages: there is a client for the
    // second one if and only if the first one has been accepted.
    method AnswerTickSubscription(client: IpcClient, m: Message, tick: Message) returns (there: bool, ok: bool)
      requires Valid() && client in clients && m.Encodable() && tick.Encodable()
      modifies this, client
      ensures Valid()
      ensures there <==> |old(client.queue).queued| + HEADER_SIZE + |m.payload| < Q.LIMIT
      ensures ok <==>
        |old(client.queue).queued| + HEADER_SIZE + |m.payload| + HEADER_SIZE + |tick.payload| < Q.LIMIT
      ensures ok ==> client.queue.accepted == old(client.queue).accepted + [m, tick]
      ensures clients == if ok then old(clients) else Minus(old(clients), client)
    {
      assert client.Valid();
      ok := false;
      there := SendReply(client, m);
      if there {
        ok := SendReply(client, tick);
      }
    }

    // The event of a tick, if anyone listens, and whether the client that sent the
    // tick is left.
    method Tell(client: IpcClient, json: seq<Byte>, tick: Uint32) returns (there: bool)
      requires Valid() && client in clients && Message(tick, json).Encodable()
      modifies this, clients
      ensures Valid() && there == (client in clients)
      ensures clients == old(Staying(clients, Message(tick, json)))
      ensures forall c :: c in old(clients) ==>
        c.queue == Notified(old(Subscribes(c.subscribedEvents, tick)), old(c.queue), Message(tick, json))
      ensures forall c :: c in old(clients) ==>
        c.reader == old(c.reader).(connected := c.queue.connected) && c.subscribedEvents == old(c.subscribedEvents)
    {
      var listeners := HasListeners(tick);
      if listeners {
        SendEvent(json, tick);
      } else {
        AllStay(clients, Message(tick, json));
      }
      there := client in clients;
    }

    // The shutdown of the server closes every connection.
    method HandleDisplayDestroy()
      requires Valid()
      modifies this, clients
      ensures clients == [] && forall c :: c in old(clients) ==> !c.open
    {
      ghost var before := clients;
      while |clients| > 0
        invariant Valid()
        invariant forall c :: c in clients ==> c in before
        invariant forall c :: c in before ==> c in clients || !c.open
        decreases |clients|
      {
        var last := clients[|clients| - 1];
        assert last in clients && last in before;
        MinusAt(clients, last, |clients| - 1);
        Disconnect(last);
      }
    }

    // One turn of the loop above.
    method NotifyAt(i: nat, m: Message, ghost front: seq<IpcClient>, ghost rest: seq<IpcClient>,
                    ghost before: seq<IpcClient>, ghost todo: set<IpcClient>,
                    ghost subscribed: map<IpcClient, bool>, ghost queues: map<IpcClient, Q.Queue>,
                    ghost was: map<IpcClient, (R.Reader, set<nat>)>)
      returns (ok: bool)
      requires Valid() && m.Encodable()
      requires clients == front + rest && |front| == i && rest != []
      requires rest[0] in todo && HalfNotified(before, todo, subscribed, queues, m) && AllKeep(before, was)
      modifies this, clients[i]
      ensures Valid()
      ensures rest[0] !in rest[1..] && forall c :: c in rest ==> c == rest[0] || c in rest[1..]
      ensures ok == !Drops(rest[0], subscribed, queues, m)
      ensures clients == (if ok then front + [rest[0]] else front) + rest[1..]
      ensures HalfNotified(before, todo - {rest[0]}, subscribed, queues, m)
      ensures AllKeep(before, was)
    {
      var client := clients[i];
      assert client.Valid();
      SplitAt(front, rest);
      MinusAt(clients, client, i);
      ok := NotifyClient(client, m);
    }

    // One client is sent the event if it has subscribed to it.
    method NotifyClient(client: IpcClient, m: Message) returns (ok: bool)
      requires Valid() && client in clients && m.Encodable()
      modifies this, client
      ensures Valid()
      ensures ok == old(Stays(client, m))
      ensures clients == if ok then old(clients) else Minus(old(clients), client)
      ensures client.queue == Notified(old(Subscribes(client.subscribedEvents, m.kind)), old(client.queue), m)
      ensures client.reader == old(client.reader).(connected := ok) && client.queue.connected == ok
      ensures client.subscribedEvents == old(client.subscribedEvents)
    {
      assert client.Valid();
      ok := true;
      if Subscribes(client.subscribedEvents, m.kind) {
        ok := SendReply(client, m);
      }
    }
  }

  // An event leaves what a client sends and has subscribed to alone, unless it drops it.
  ghost predicate AllKeep(before: seq<IpcClient>, was: map<IpcClient, (R.Reader, set<nat>)>)
    reads before
  {
    forall c :: c in before ==>
      && c in was && c.reader == was[c].0.(connected := c.queue.connected)
      && c.subscribedEvents == was[c].1
  }

  // The clients in todo are as they were, the others have been notified.
  ghost predicate HalfNotified(before: seq<IpcClient>, todo: set<IpcClient>, subscribed: map<IpcClient, bool>,
                               queues: map<IpcClient, Q.Queue>, m: Message)
    reads before, todo
  {
    && m.Encodable()
    && (forall c :: c in before ==> c in subscribed && c in queues && queues[c].size > 0)
    && (forall c :: c in todo ==>
          c in before && c.queue == queues[c] && Subscribes(c.subscribedEvents, m.kind) == subscribed[c])
    && (forall c :: c in before && c !in todo ==> c.queue == Notified(subscribed[c], queues[c], m))
  }

  // An event drops a subscriber whose queue it would overflow.
  ghost predicate Drops(c: IpcClient, subscribed: map<IpcClient, bool>, queues: map<IpcClient, Q.Queue>, m: Message) {
    && c in subscribed && subscribed[c]
    && c in queues && |queues[c].queued| + HEADER_SIZE + |m.payload| >= Q.LIMIT
  }

  // The clients that an event leaves connected.
  ghost function Survivors(clients: seq<IpcClient>, subscribed: map<IpcClient, bool>, queues: map<IpcClient,
          Q.Queue>, m: Message): (r: seq<IpcClient>) {
    if clients == [] then []
    else
      (if Drops(clients[0], subscribed, queues, m) then [] else [clients[0]])
      + Survivors(clients[1..], subscribed, queues, m)
  }

  // The same, as it is before the event.
  ghost function Staying(clients: seq<IpcClient>, m: Message): (r: seq<IpcClient>)
    reads clients
  {
    if clients == [] then []
    else
      var c := clients[0];
      (if Stays(c, m) then [c] else []) + Staying(clients[1..], m)
  }

  // A client that an event leaves connected.
  ghost predicate Stays(c: IpcClient, m: Message)
    reads c
  {
    !(Subscribes(c.subscribedEvents, m.kind) && |c.queue.queued| + HEADER_SIZE + |m.payload| >= Q.LIMIT)
  }

  lemma {:induction false} StaysIff(clients: seq<IpcClient>, c: IpcClient, m: Message)
    ensures c in Staying(clients, m) <==> c in clients && Stays(c, m)
  {
    if clients != [] { StaysIff(clients[1..], c, m); }
  }

  lemma {:induction false} AllStay(clients: seq<IpcClient>, m: Message)
    requires forall c :: c in clients ==> !Subscribes(c.subscribedEvents, m.kind)
    ensures Staying(clients, m) == clients
  {
    if clients != [] { AllStay(clients[1..], m); }
  }

  lemma {:induction false} StayingIsSurvivors(clients: seq<IpcClient>, subscribed: map<IpcClient, bool>,
          queues: map<IpcClient, Q.Queue>, m: Message)
    requires forall c :: c in clients ==>
      && c in subscribed && subscribed[c] == Subscribes(c.subscribedEvents, m.kind)
      && c in queues && queues[c] == c.queue
    ensures Staying(clients, m) == Survivors(clients, subscribed, queues, m)
  {
    if clients != [] {
      assert clients[0] in clients && forall c :: c in clients[1..] ==> c in clients;
      StayingIsSurvivors(clients[1..], subscribed, queues, m);
    }
  }

  lemma SurvivorsStep(front: seq<IpcClient>, rest: seq<IpcClient>, subscribed: map<IpcClient, bool>,
          queues: map<IpcClient, Q.Queue>, m: Message)
    requires rest != []
    ensures var kept := if Drops(rest[0], subscribed, queues, m) then front else front + [rest[0]];
      front + Survivors(rest, subscribed, queues, m) == kept + Survivors(rest[1..], subscribed, queues, m)
  {
  }

  lemma SplitAt(front: seq<IpcClient>, rest: seq<IpcClient>)
    requires rest != [] && Distinct(front + rest)
    ensures var s := front + rest;
      && s[|front|] == rest[0] && rest[0] !in s[..|front|]
      && s[..|front|] + s[|front| + 1..] == front + rest[1..]
      && s == (front + [rest[0]]) + rest[1..]
    ensures rest[0] !in rest[1..] && forall c :: c in rest ==> c == rest[0] || c in rest[1..]
  {
    var s := front + rest;
    HeadIsNew(front, rest);
    assert s[..|front|] == front && s[|front| + 1..] == rest[1..];
    assert rest == [rest[0]] + rest[1..];
  }

  lemma HeadIsNew(front: seq<IpcClient>, rest: seq<IpcClient>)
    requires rest != [] && Distinct(front + rest)
    ensures rest[0] !in front && rest[0] !in rest[1..]
  {
    var s, n := front + rest, |front|;
    assert s[n] == rest[0];
    forall k | 0 <= k < n ensures front[k] != rest[0] {
      assert s[k] == front[k];
    }
    forall k | 1 <= k < |rest| ensures rest[k] != rest[0] {
      assert s[n + k] == rest[k];
    }
  }
}
