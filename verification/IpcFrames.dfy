// The i3 IPC message format: a magic string, the payload length and the
// message type as 32-bit integers, then the payload.  The integers are in
// native byte order, taken here as least significant byte first.
module IpcFrames {
  import opened Sequences

  type Byte = b: int | 0 <= b < 0x100
  type Uint32 = n: int | 0 <= n < 0x1_0000_0000

  const MAGIC: seq<Byte> := [0x69, 0x33, 0x2d, 0x69, 0x70, 0x63]
  const HEADER_SIZE := 14

  datatype Message = Message(kind: Uint32, payload: seq<Byte>) {
    // The length field has 32 bits.
    predicate Encodable() {
      |payload| < 0x1_0000_0000
    }
  }

  function EncodeUint32(n: Uint32): (r: seq<Byte>)
    ensures |r| == 4
  {
    var i: int := n;
    [i % 0x100, i / 0x100 % 0x100, i / 0x1_0000 % 0x100, i / 0x100_0000]
  }

  function DecodeUint32(b: seq<Byte>): (n: Uint32)
    requires |b| == 4
  {
    var b0: int, b1: int, b2: int, b3: int := b[0], b[1], b[2], b[3];
    b0 + 0x100 * b1 + 0x1_0000 * b2 + 0x100_0000 * b3
  }

  lemma Uint32RoundTrip(n: Uint32)
    ensures DecodeUint32(EncodeUint32(n)) == n
  {
  }

  lemma Uint32Canonical(b: seq<Byte>)
    requires |b| == 4
    ensures EncodeUint32(DecodeUint32(b)) == b
  {
    var n: int := DecodeUint32(b);
    var b1: int, b2: int, b3: int := b[1], b[2], b[3];
    assert n / 0x100 == b1 + 0x100 * b2 + 0x1_0000 * b3;
    assert n / 0x1_0000 == b2 + 0x100 * b3;
    assert n / 0x100_0000 == b3;
  }

  function Header(length: Uint32, kind: Uint32): (r: seq<Byte>)
    ensures |r| == HEADER_SIZE
    ensures r[..6] == MAGIC
  {
    MAGIC + EncodeUint32(length) + EncodeUint32(kind)
  }

  function HeaderLength(b: seq<Byte>): (n: Uint32)
    requires |b| >= HEADER_SIZE
  {
    DecodeUint32(b[6..10])
  }

  function HeaderKind(b: seq<Byte>): (n: Uint32)
    requires |b| >= HEADER_SIZE
  {
    DecodeUint32(b[10..14])
  }

  // A header with the right magic is determined by the two numbers in it.
  lemma HeaderRoundTrip(length: Uint32, kind: Uint32, tail: seq<Byte>)
    ensures HeaderLength(Header(length, kind) + tail) == length
    ensures HeaderKind(Header(length, kind) + tail) == kind
    ensures (Header(length, kind) + tail)[..6] == MAGIC
  {
    var h := Header(length, kind) + tail;
    assert h[6..10] == EncodeUint32(length);
    assert h[10..14] == EncodeUint32(kind);
    Uint32RoundTrip(length);
    Uint32RoundTrip(kind);
  }

  lemma HeaderCanonical(b: seq<Byte>)
    requires |b| >= HEADER_SIZE && b[..6] == MAGIC
    ensures b == Header(HeaderLength(b), HeaderKind(b)) + b[HEADER_SIZE..]
  {
    Uint32Canonical(b[6..10]);
    Uint32Canonical(b[10..14]);
    assert b == b[..6] + b[6..10] + b[10..14] + b[14..];
  }

  function Frame(m: Message): (r: seq<Byte>)
    requires m.Encodable()
  {
    Header(|m.payload|, m.kind) + m.payload
  }

  // What stands where in a frame: the magic string, the length of the payload and
  // the type, each with its least significant byte first, and the payload.
  lemma FrameBytes(m: Message)
    requires m.Encodable()
    ensures var f: seq<int> := Frame(m);
      && |f| == 14 + |m.payload| && |"i3-ipc"| == 6
      && (forall k :: 0 <= k < 6 ==> f[k] == "i3-ipc"[k] as int)
      && f[6] + 0x100 * f[7] + 0x1_0000 * f[8] + 0x100_0000 * f[9] == |m.payload|
      && f[10] + 0x100 * f[11] + 0x1_0000 * f[12] + 0x100_0000 * f[13] == m.kind
      && f[14..] == m.payload
  {
    var n, f := |m.payload|, Frame(m);
    Uint32RoundTrip(n);
    Uint32RoundTrip(m.kind);
    assert f[6..10] == EncodeUint32(n) && f[10..14] == EncodeUint32(m.kind);
    assert f[..6] == MAGIC && f[14..] == m.payload;
    MagicIsText(f);
  }

  lemma MagicIsText(f: seq<Byte>)
    requires |f| >= 6 && f[..6] == MAGIC
    ensures forall k :: 0 <= k < 6 ==> f[k] == "i3-ipc"[k] as int
  {
    forall k | 0 <= k < 6
      ensures f[k] == "i3-ipc"[k] as int
    {
      assert f[k] == f[..6][k];
    }
  }

  function FrameAll(ms: seq<Message>): (r: seq<Byte>)
    requires forall m :: m in ms ==> m.Encodable()
  {
    if ms == [] then [] else Frame(ms[0]) + FrameAll(ms[1..])
  }

  lemma {:induction false} FrameAllAppend(ms: seq<Message>, m: Message)
    requires forall x :: x in ms ==> x.Encodable()
    requires m.Encodable()
    ensures FrameAll(ms + [m]) == FrameAll(ms) + Frame(m)
  {
    if ms == [] {
      assert ms + [m] == [m];
      assert FrameAll([m]) == Frame(m) + FrameAll([]);
    } else {
      assert (ms + [m])[1..] == ms[1..] + [m];
      FrameAllAppend(ms[1..], m);
    }
  }

  // What a byte stream means, read as a whole: its complete messages, and
  // whether what follows them is a header with the wrong magic.
  datatype Parsed = Parsed(messages: seq<Message>, bad: bool)

  function Parse(b: seq<Byte>): (p: Parsed)
    ensures forall m :: m in p.messages ==> m.Encodable()
    decreases |b|
  {
    if |b| < HEADER_SIZE then Parsed([], false)
    else if b[..6] != MAGIC then Parsed([], true)
    else
      var n := HeaderLength(b);
      if |b| - HEADER_SIZE < n then Parsed([], false)
      else
        var rest := Parse(b[HEADER_SIZE + n..]);
        Parsed([Message(HeaderKind(b), b[HEADER_SIZE..HEADER_SIZE + n])] + rest.messages, rest.bad)
  }

  lemma ParseFrame(m: Message, tail: seq<Byte>)
    requires m.Encodable()
    ensures Parse(Frame(m) + tail) == Parsed([m] + Parse(tail).messages, Parse(tail).bad)
  {
    var n := |m.payload|;
    var b := Frame(m) + tail;
    assert b == Header(n, m.kind) + (m.payload + tail);
    HeaderRoundTrip(n, m.kind, m.payload + tail);
    assert b[HEADER_SIZE..HEADER_SIZE + n] == m.payload;
    assert b[HEADER_SIZE + n..] == tail;
  }

  // Encoded messages are read back, whatever follows them.
  lemma {:induction false} ParseFrames(ms: seq<Message>, tail: seq<Byte>)
    requires forall m :: m in ms ==> m.Encodable()
    ensures Parse(FrameAll(ms) + tail).messages == ms + Parse(tail).messages
    ensures Parse(FrameAll(ms) + tail).bad == Parse(tail).bad
  {
    if ms == [] {
      assert FrameAll(ms) + tail == tail;
    } else {
      var rest := FrameAll(ms[1..]) + tail;
      ParseFrames(ms[1..], tail);
      ParseFrame(ms[0], rest);
      Associative(Frame(ms[0]), FrameAll(ms[1..]), tail);
      Associative([ms[0]], ms[1..], Parse(tail).messages);
      assert ms == [ms[0]] + ms[1..];
    }
  }

  lemma ParseInvertsFrameAll(ms: seq<Message>)
    requires forall m :: m in ms ==> m.Encodable()
    ensures Parse(FrameAll(ms)) == Parsed(ms, false)
  {
    ParseFrames(ms, []);
    assert FrameAll(ms) + [] == FrameAll(ms);
    assert ms + [] == ms;
  }

  // A header whose payload has not arrived completely yields nothing yet.
  lemma ParseIncomplete(length: Uint32, kind: Uint32, tail: seq<Byte>)
    requires |tail| < length
    ensures Parse(Header(length, kind) + tail) == Parsed([], false)
  {
    HeaderRoundTrip(length, kind, tail);
  }
}
