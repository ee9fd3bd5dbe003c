// common/ipc-client.c: sending one message and waiting for its reply.
module IpcPeer {
  import opened IpcFrames
  import opened Wrappers

  // ---- The loop that reads a payload ----

  // What has been received of the payload, and what the connection still has.
  datatype Reading = Reading(payload: seq<Byte>, incoming: seq<Byte>)

  // One turn of the loop.  A receive returns some of what is there, or nothing
  // once the server has closed the connection; the loop takes both alike.
  ghost predicate Turn(size: nat, s: Reading, n: Reading) {
    && |s.payload| < size
    && s.payload <= n.payload && |n.payload| <= size
    && n.payload + n.incoming == s.payload + s.incoming
    && (n.payload == s.payload <==> s.incoming == [])
  }

  // The states of the loop, turn by turn, for a reply whose header has been read.
  ghost predicate IsRun(size: nat, incoming: seq<Byte>, run: seq<Reading>) {
    && run != [] && run[0] == Reading([], incoming)
    && forall i :: 0 < i < |run| ==> Turn(size, run[i - 1], run[i])
  }

  function Last(run: seq<Reading>): (s: Reading)
    requires run != []
  {
    run[|run| - 1]
  }

  // Each turn takes at least one byte as long as there are any.
  lemma {:induction false} RunAccounts(size: nat, incoming: seq<Byte>, run: seq<Reading>)
    requires IsRun(size, incoming, run)
    ensures Last(run).payload + Last(run).incoming == incoming
    ensures |Last(run).payload| <= size
    ensures |Last(run).payload| >= |run| - 1 || Last(run).incoming == []
    decreases |run|
  {
    if |run| > 1 {
      var before := run[..|run| - 1];
      RunAccounts(size, incoming, before);
      assert Turn(size, run[|run| - 2], run[|run| - 1]) && Last(before) == run[|run| - 2];
    }
  }

  // While the payload is not complete the loop goes on, so a payload that is
  // all there is complete after at most one turn for each of its bytes.
  lemma WholePayloadIsRead(size: nat, incoming: seq<Byte>, run: seq<Reading>)
    requires IsRun(size, incoming, run) && size <= |incoming|
    ensures |run| - 1 <= size
    ensures |run| - 1 == size ==> Last(run) == Reading(incoming[..size], incoming[size..])
    ensures |Last(run).payload| < size ==> exists n :: IsRun(size, incoming, run + [n])
  {
    RunAccounts(size, incoming, run);
    var s := Last(run);
    if |run| > 1 {
      var before := run[..|run| - 1];
      RunAccounts(size, incoming, before);
      assert Turn(size, Last(before), s);
    }
    if |s.payload| < size {
      var n := Reading(s.payload + s.incoming[..1], s.incoming[1..]);
      assert Turn(size, s, n) by {
        assert s.incoming == s.incoming[..1] + s.incoming[1..];
      }
      assert IsRun(size, incoming, run + [n]);
    }
  }

  // If the connection ends inside the payload, the loop never ends: it has runs
  // of every length, and the payload is complete in none of them.
  lemma {:induction false} TruncatedPayloadIsNeverRead(size: nat, incoming: seq<Byte>, turns: nat)
    requires |incoming| < size
    ensures exists run :: IsRun(size, incoming, run) && |run| == turns + 1
    ensures forall run :: IsRun(size, incoming, run) ==> |Last(run).payload| < size
  {
    forall run | IsRun(size, incoming, run) ensures |Last(run).payload| < size {
      RunAccounts(size, incoming, run);
    }
    if turns == 0 {
      assert IsRun(size, incoming, [Reading([], incoming)]);
    } else {
      TruncatedPayloadIsNeverRead(size, incoming, turns - 1);
      var run :| IsRun(size, incoming, run) && |run| == turns;
      RunAccounts(size, incoming, run);
      var n := Reading(incoming, []);
      assert Last(run).payload <= incoming;
      assert Turn(size, Last(run), n);
      assert IsRun(size, incoming, run + [n]);
    }
  }

  // ---- What the client makes of the bytes it is sent ----

  // The payload that the header in front of the stream announces is there.
  predicate PayloadIsThere(b: seq<Byte>)
    requires |b| >= HEADER_SIZE
  {
    HeaderLength(b) <= |b| - HEADER_SIZE
  }

  // A finite number of turns completes the payload if and only if it is there.
  lemma PayloadIsReadIff(b: seq<Byte>)
    requires |b| >= HEADER_SIZE
    ensures (exists run :: IsRun(HeaderLength(b), b[HEADER_SIZE..], run) && |Last(run).payload| == HeaderLength(b))
      <==> PayloadIsThere(b)
  {
    var size, incoming := HeaderLength(b), b[HEADER_SIZE..];
    if PayloadIsThere(b) {
      var start, end := Reading([], incoming), Reading(incoming[..size], incoming[size..]);
      var run := if size == 0 then [start] else [start, end];
      assert incoming[..size] + incoming[size..] == incoming;
      assert size > 0 ==> Turn(size, start, end);
      assert IsRun(size, incoming, run);
    } else {
      TruncatedPayloadIsNeverRead(size, incoming, 0);
    }
  }

  // A header that announces one byte, and then the end of the connection.
  lemma TruncatedReply(kind: Uint32, turns: nat)
    ensures var b := Header(1, kind);
      && HeaderLength(b) == 1
      && (exists run :: IsRun(1, b[HEADER_SIZE..], run) && |run| == turns + 1)
      && (forall run :: IsRun(1, b[HEADER_SIZE..], run) ==> Last(run).payload == [])
  {
    var b := Header(1, kind);
    assert b + [] == b && b[HEADER_SIZE..] == [];
    HeaderRoundTrip(1, kind, []);
    TruncatedPayloadIsNeverRead(1, [], turns);
  }

  function FirstMessage(b: seq<Byte>): (m: Message)
    requires |b| >= HEADER_SIZE && PayloadIsThere(b)
  {
    Message(HeaderKind(b), b[HEADER_SIZE..HEADER_SIZE + HeaderLength(b)])
  }

  // The message the client returns; none if it aborts or never returns.
  function Returned(b: seq<Byte>): (r: Option<Message>) {
    if |b| >= HEADER_SIZE && PayloadIsThere(b) then Some(FirstMessage(b)) else None
  }

  // The client does not look at the magic.  What it returns is the first
  // message of the stream just if the magic is right and the payload is there;
  // with a wrong magic it returns a message where the stream has none.
  lemma ReturnedIsFirstMessageIff(b: seq<Byte>)
    requires |b| >= HEADER_SIZE
    ensures Returned(b).Some? && Parse(b).messages != [] && Returned(b).value == Parse(b).messages[0]
      <==> b[..6] == MAGIC && PayloadIsThere(b)
    ensures Returned(b).Some? && Parse(b) == Parsed([], true) <==> b[..6] != MAGIC && PayloadIsThere(b)
  {
    if b[..6] == MAGIC && PayloadIsThere(b) {
      assert Parse(b).messages == [FirstMessage(b)] + Parse(b[HEADER_SIZE + HeaderLength(b)..]).messages;
    }
  }

  lemma WrongMagicIsAccepted(kind: Uint32, payload: seq<Byte>, later: seq<Byte>)
    requires |payload| < 0x1_0000_0000
    ensures var b := Frame(Message(kind, payload))[0 := 0] + later;
      Returned(b) == Some(Message(kind, payload)) && Parse(b) == Parsed([], true)
  {
    var m := Message(kind, payload);
    var good, b := Frame(m) + later, Frame(m)[0 := 0] + later;
    ReplyIsReadBack(m, later);
    assert good[6..10] == b[6..10] && good[10..14] == b[10..14];
    assert good[HEADER_SIZE..] == b[HEADER_SIZE..];
    var end := HEADER_SIZE + |payload|;
    assert good[HEADER_SIZE..end] == good[HEADER_SIZE..][..|payload|] == b[HEADER_SIZE..end];
    assert b[..6][0] == 0;
  }

  // A reply framed by the server is read back unchanged, and what follows it
  // is left for the next call.
  lemma ReplyIsReadBack(m: Message, later: seq<Byte>)
    requires m.Encodable()
    ensures var b := Frame(m) + later;
      && |b| >= HEADER_SIZE && PayloadIsThere(b)
      && Returned(b) == Some(m)
      && b[HEADER_SIZE + HeaderLength(b)..] == later
      && Parse(b).messages == [m] + Parse(later).messages
  {
    var b := Frame(m) + later;
    assert b == Header(|m.payload|, m.kind) + (m.payload + later);
    HeaderRoundTrip(|m.payload|, m.kind, m.payload + later);
    ParseFrame(m, later);
  }

  // How a call ends, if it does while it is watched.
  datatype Outcome = Aborted | Received(message: Message) | StillReading(payload: seq<Byte>)

  class Connection {
    // Everything the server has sent or is still going to send before it
    // closes the connection, and everything sent to it.
    var incoming: seq<Byte>
    var outgoing: seq<Byte>

    constructor (incoming: seq<Byte>)
      ensures this.incoming == incoming && outgoing == []
    {
      this.incoming := incoming;
      outgoing := [];
    }

    // A blocking receive: it waits for at least one byte and returns whatever
    // part of the request is there, or nothing once the server has closed.
    method Recv(max: nat) returns (chunk: seq<Byte>)
      requires max > 0
      modifies `incoming
      ensures old(incoming) == chunk + incoming && |chunk| <= max
      ensures chunk == [] <==> old(incoming) == []
    {
      var n :| 0 <= n <= |incoming| && n <= max && (n == 0 <==> incoming == []);
      chunk := incoming[..n];
      incoming := incoming[n..];
    }

    // Fills the header chunk by chunk; false if the connection ends first.
    method Receive(buf: array<Byte>) returns (ok: bool)
      modifies `incoming, buf
      ensures ok <==> buf.Length <= |old(incoming)|
      ensures ok ==> buf[..] == old(incoming)[..buf.Length] && incoming == old(incoming)[buf.Length..]
      ensures !ok ==> incoming == []
    {
      var total := 0;
      while total < buf.Length
        invariant 0 <= total <= buf.Length
        invariant buf[..total] + incoming == old(incoming)
        decreases buf.Length - total
      {
        ghost var filled := buf[..total];
        var received := Recv(buf.Length - total);
        if received == [] {
          return false;
        }
        forall i | 0 <= i < |received| {
          buf[total + i] := received[i];
        }
        assert buf[..total + |received|] == filled + received;
        total := total + |received|;
      }
      return true;
    }

    // The payload loop, which has no such test; it is watched for a number of
    // turns, in which it follows a run of the loop above.
    method ReceivePayload(buf: array<Byte>, turns: nat) returns (total: nat, ghost run: seq<Reading>)
      modifies `incoming, buf
      ensures total <= buf.Length
      ensures IsRun(buf.Length, old(incoming), run) && Last(run) == Reading(buf[..total], incoming)
      ensures |run| - 1 <= turns && (total < buf.Length ==> |run| - 1 == turns)
    {
      total := 0;
      run := [Reading([], incoming)];
      var i := 0;
      while total < buf.Length && i < turns
        invariant 0 <= total <= buf.Length && 0 <= i <= turns
        invariant |run| == i + 1 && IsRun(buf.Length, old(incoming), run)
        invariant Last(run) == Reading(buf[..total], incoming)
        decreases turns - i
      {
        ghost var filled := buf[..total];
        var received := Recv(buf.Length - total);
        forall k | 0 <= k < |received| {
          buf[total + k] := received[k];
        }
        assert buf[..total + |received|] == filled + received;
        total := total + |received|;
        run := run + [Reading(buf[..total], incoming)];
        i := i + 1;
      }
    }

    // Reads one reply.  A connection that ends inside a header is an error.  If
    // it ends inside a payload the call does not return, however long it is
    // watched; otherwise one turn for each byte of the payload is enough.
    method RecvResponse(turns: nat) returns (outcome: Outcome)
      modifies `incoming
      ensures outcome == Aborted <==> |old(incoming)| < HEADER_SIZE
      ensures outcome == Aborted ==> incoming == []
      ensures outcome.Received? ==>
        && Some(outcome.message) == Returned(old(incoming))
        && incoming == old(incoming)[HEADER_SIZE + HeaderLength(old(incoming))..]
      ensures Returned(old(incoming)).Some? && HeaderLength(old(incoming)) <= turns ==> outcome.Received?
      ensures outcome.StillReading? ==>
        && |outcome.payload| < HeaderLength(old(incoming))
        && old(incoming) == old(incoming)[..HEADER_SIZE] + outcome.payload + incoming
        && (turns <= |outcome.payload| || incoming == [])
    {
      var data := new Byte[HEADER_SIZE];
      var ok := Receive(data);
      if !ok {
        return Aborted;
      }
      ghost var rest := incoming;
      assert data[..][6..10] == old(incoming)[6..10] && data[..][10..14] == old(incoming)[10..14];
      var size, kind := DecodeUint32(data[6..10]), DecodeUint32(data[10..14]);
      var payload := new Byte[size];
      var total;
      ghost var run;
      total, run := ReceivePayload(payload, turns);
      RunAccounts(size, rest, run);
      assert old(incoming) == old(incoming)[..HEADER_SIZE] + rest;
      if total < size {
        if size <= |rest| {
          WholePayloadIsRead(size, rest, run);
        }
        return StillReading(payload[..total]);
      }
      assert payload[..total] == payload[..];
      assert rest[..size] == old(incoming)[HEADER_SIZE..HEADER_SIZE + size];
      return Received(Message(kind, payload[..]));
    }

    // Sends one message and waits for the server's answer to it.
    method SingleCommand(kind: Uint32, payload: seq<Byte>, turns: nat) returns (outcome: Outcome)
      requires Message(kind, payload).Encodable()
      modifies this
      ensures outgoing == old(outgoing) + Frame(Message(kind, payload))
      ensures outcome == Aborted <==> |old(incoming)| < HEADER_SIZE
      ensures outcome.Received? ==> Some(outcome.message) == Returned(old(incoming))
      ensures Returned(old(incoming)).Some? && HeaderLength(old(incoming)) <= turns ==> outcome.Received?
    {
      outgoing := outgoing + Header(|payload|, kind);
      outgoing := outgoing + payload;
      outcome := RecvResponse(turns);
    }
  }
}
