/** The BLE link: message frames, the bounded queue and the sequence counter. */
module BleProtocol {
  import opened Bytes
  import opened BigEndian
  import opened Fields
  import opened Utf8
  import Positional

  const MAX_QUEUE_SIZE: nat := 100

  datatype MessageType = Text | FileChunk | ContactExchange | Ping | Ack

  datatype Message = Message(
    kind: MessageType, senderId: seq<byte>, payload: seq<byte>, sequence: u32, timestamp: u64, needsAck: bool)

  // ------------------------------------------------------------------
  // Frames
  // ------------------------------------------------------------------

  function TypeByte(kind: MessageType): byte {
    match kind
    case Text => 0
    case FileChunk => 1
    case ContactExchange => 2
    case Ping => 3
    case Ack => 4
  }

  function TypeOf(b: byte): Option<MessageType> {
    match b
    case 0 => Some(Text)
    case 1 => Some(FileChunk)
    case 2 => Some(ContactExchange)
    case 3 => Some(Ping)
    case 4 => Some(Ack)
    case _ => None
  }

  /** The 28 bytes before the payload: the type, a 12-byte id field, sequence, timestamp,
      the acknowledge flag, and the payload length cast to a u16. */
  function Head(m: Message): (h: seq<byte>)
    ensures |h| == 28
  {
    [TypeByte(m.kind)] + Pad(m.senderId, 12) + Encode(m.sequence, 4) + Encode(m.timestamp, 8)
    + [Flag(m.needsAck)] + Encode(|m.payload| % U16, 2)
  }

  function Frame(m: Message): seq<byte> {
    Head(m) + m.payload
  }

  /** `serialize_message`. */
  method SerializeMessage(m: Message) returns (data: seq<byte>)
    ensures data == Frame(m)
  {
    data := [TypeByte(m.kind)];
    data := data + Pad(m.senderId, 12);
    data := data + Encode(m.sequence, 4);
    data := data + Encode(m.timestamp, 8);
    data := data + [Flag(m.needsAck)];
    var payloadLen := |m.payload| % U16;
    data := data + Encode(payloadLen, 2);
    data := data + m.payload;
  }

  /** `deserialize_message`, with the panic of its unchecked slices made explicit. */
  function Deserialize(data: seq<byte>): Decoded<Message> {
    if |data| < 24 then Rejected
    else if TypeOf(data[0]).None? then Rejected
    else if |data| < 28 then Panicked
    else
      var len := Word16(data[26..28]);
      if |data| < 28 + len then Rejected
      else Parsed(Message(TypeOf(data[0]).value, ReadId(data[1..13]), data[28..28 + len],
                          Word32(data[13..17]), Word64(data[17..25]), data[25] != 0))
  }

  /** The fields of a 28-byte head, cut apart. */
  predicate Parts(h: seq<byte>, b: byte, id: seq<byte>, s: seq<byte>, t: seq<byte>, f: byte, n: seq<byte>)
    requires |h| == 28
  {
    h[0] == b && h[1..13] == id && h[13..17] == s && h[17..25] == t && h[25] == f && h[26..28] == n
  }

  lemma HeadParts(h: seq<byte>, b: byte, id: seq<byte>, s: seq<byte>, t: seq<byte>, f: byte, n: seq<byte>)
    requires |id| == 12 && |s| == 4 && |t| == 8 && |n| == 2
    requires h == [b] + id + s + t + [f] + n
    ensures |h| == 28 && Parts(h, b, id, s, t, f, n)
  {}

  lemma PartsOfPrefix(data: seq<byte>, h: seq<byte>)
    requires |h| == 28 <= |data| && data[..28] == h
    ensures data[0] == h[0] && data[1..13] == h[1..13] && data[13..17] == h[13..17]
    ensures data[17..25] == h[17..25] && data[25] == h[25] && data[26..28] == h[26..28]
  {}

  lemma FrameSplits(m: Message, tail: seq<byte>)
    ensures var d := Frame(m) + tail;
      |d| == 28 + |m.payload| + |tail| && d[..28] == Head(m) && d[28..28 + |m.payload|] == m.payload
  {}

  lemma HeadSlices(m: Message, data: seq<byte>)
    requires |data| >= 28 && data[..28] == Head(m)
    ensures data[0] == TypeByte(m.kind) && data[1..13] == Pad(m.senderId, 12)
    ensures data[13..17] == Encode(m.sequence, 4) && data[17..25] == Encode(m.timestamp, 8)
    ensures data[25] == Flag(m.needsAck) && data[26..28] == Encode(|m.payload| % U16, 2)
  {
    HeadParts(Head(m), TypeByte(m.kind), Pad(m.senderId, 12), Encode(m.sequence, 4), Encode(m.timestamp, 8),
              Flag(m.needsAck), Encode(|m.payload| % U16, 2));
    PartsOfPrefix(data, Head(m));
  }

  lemma Words(m: Message, s: seq<byte>, t: seq<byte>, n: seq<byte>)
    requires s == Encode(m.sequence, 4) && t == Encode(m.timestamp, 8) && n == Encode(|m.payload| % U16, 2)
    ensures |s| == 4 && |t| == 8 && |n| == 2
    ensures Word32(s) == m.sequence && Word64(t) == m.timestamp && Word16(n) == |m.payload| % U16
  {
    WordOf32(m.sequence);
    WordOf64(m.timestamp);
    WordOf16(|m.payload| % U16);
  }

  lemma HeadFields(m: Message, data: seq<byte>)
    requires |data| >= 28 && data[..28] == Head(m)
    ensures TypeOf(data[0]) == Some(m.kind) && data[1..13] == Pad(m.senderId, 12)
    ensures Word32(data[13..17]) == m.sequence && Word64(data[17..25]) == m.timestamp
    ensures (data[25] != 0 <==> m.needsAck) && Word16(data[26..28]) == |m.payload| % U16
  {
    HeadSlices(m, data);
    Words(m, data[13..17], data[17..25], data[26..28]);
  }

  /** What survives the wire: what the id field keeps of the id, and the first (payload
      length mod 65536) payload bytes. */
  function Carried(m: Message): Message {
    m.(senderId := KeptId(m.senderId, 12), payload := m.payload[..|m.payload| % U16])
  }

  lemma PayloadPrefix(d: seq<byte>, p: seq<byte>, n: nat)
    requires 28 + |p| <= |d| && d[28..28 + |p|] == p && n <= |p|
    ensures d[28..28 + n] == p[..n]
  {}

  lemma Low16(n: nat)
    ensures n % U16 <= n
  {}

  lemma FrameReads(m: Message, tail: seq<byte>)
    ensures var d := Frame(m) + tail;
      Deserialize(d) == Parsed(m.(senderId := ReadId(Pad(m.senderId, 12)), payload := m.payload[..|m.payload| % U16]))
  {
    FrameSplits(m, tail);
    HeadFields(m, Frame(m) + tail);
    Low16(|m.payload|);
    PayloadPrefix(Frame(m) + tail, m.payload, |m.payload| % U16);
  }

  /** The id of a message is a `String`, so well-formed UTF-8. */
  lemma FrameDecodes(m: Message, tail: seq<byte>)
    requires WellFormed(m.senderId)
    ensures Deserialize(Frame(m) + tail) == Parsed(Carried(m))
  {
    FrameReads(m, tail);
    ReadPad(m.senderId, 12);
  }

  lemma CarriedIff(m: Message)
    requires WellFormed(m.senderId)
    ensures Carried(m) == m <==> |m.payload| < U16 && FitsField(m.senderId, 12)
  {
    ReadPad(m.senderId, 12);
    PadLossless(m.senderId, 12);
    Small16(|m.payload|);
    if |m.payload| < U16 { assert m.payload[..|m.payload|] == m.payload; }
  }

  /** A message round-trips exactly when its payload length fits a u16 and its id fits the
      field. */
  lemma FrameRoundTrip(m: Message, tail: seq<byte>)
    requires WellFormed(m.senderId)
    ensures Deserialize(Frame(m) + tail) == Parsed(m) <==> |m.payload| < U16 && FitsField(m.senderId, 12)
  {
    FrameDecodes(m, tail);
    CarriedIff(m);
  }

  /** For an ASCII id: its first 12 bytes, trailing NULs trimmed. */
  lemma AsciiFrameDecodes(m: Message, tail: seq<byte>)
    requires Ascii(m.senderId)
    ensures Deserialize(Frame(m) + tail) ==
      Parsed(m.(senderId := Trim(Cut(m.senderId, 12)), payload := m.payload[..|m.payload| % U16]))
  {
    AsciiWellFormed(m.senderId);
    FrameDecodes(m, tail);
    ReadPad(m.senderId, 12);
    AsciiKept(m.senderId, 12);
  }

  lemma AcceptedFields(data: seq<byte>)
    requires Deserialize(data).Parsed?
    ensures var m := Deserialize(data).value;
      && |data| >= 28 + |m.payload| && data[28..28 + |m.payload|] == m.payload
      && TypeByte(m.kind) == data[0] && m.senderId == ReadId(data[1..13])
      && m.sequence == Word32(data[13..17]) && m.timestamp == Word64(data[17..25])
      && |m.payload| == Word16(data[26..28]) && (m.needsAck <==> data[25] != 0)
  {}

  lemma HeadIs(m: Message, id: seq<byte>, s: seq<byte>, t: seq<byte>, n: seq<byte>)
    requires Pad(m.senderId, 12) == id && Encode(m.sequence, 4) == s && Encode(m.timestamp, 8) == t
    requires Encode(|m.payload| % U16, 2) == n
    ensures Head(m) == [TypeByte(m.kind)] + id + s + t + [Flag(m.needsAck)] + n
  {}

  lemma AcceptedParts(data: seq<byte>, m: Message)
    requires Deserialize(data) == Parsed(m)
    ensures Head(m) == [data[0]] + Pad(ReadId(data[1..13]), 12) + data[13..17] + data[17..25]
                       + [Flag(m.needsAck)] + data[26..28]
  {
    AcceptedFields(data);
    OfWord32(data[13..17]);
    OfWord64(data[17..25]);
    OfWord16(data[26..28]);
    Small16(|m.payload|);
    HeadIs(m, Pad(ReadId(data[1..13]), 12), data[13..17], data[17..25], data[26..28]);
  }

  lemma Small16(n: nat)
    ensures n % U16 == n <==> n < U16
  {}

  /** An accepted frame re-serializes to the prefix that was consumed exactly when its
      acknowledge flag was written as 0 or 1 and its id field is UTF-8, but for a final U+FFFD
      cut short. */
  lemma AcceptedFrame(data: seq<byte>)
    requires Deserialize(data).Parsed?
    ensures var m := Deserialize(data).value;
      && 28 + |m.payload| <= |data| && (m.needsAck <==> data[25] != 0)
      && (Frame(m) == data[..28 + |m.payload|] <==> data[25] <= 1 && NearlyWellFormed(data[1..13]))
  {
    var m, id := Deserialize(data).value, Pad(ReadId(data[1..13]), 12);
    AcceptedFields(data);
    AcceptedParts(data, m);
    HeadParts(Head(m), data[0], id, data[13..17], data[17..25], Flag(m.needsAck), data[26..28]);
    Rejoin(data, Head(m), |m.payload|);
    RereadIff(data[1..13]);
  }

  lemma SplitHead(h: seq<byte>)
    requires |h| == 28
    ensures h == [h[0]] + h[1..13] + h[13..17] + h[17..25] + [h[25]] + h[26..28]
  {}

  lemma Rejoin(data: seq<byte>, h: seq<byte>, n: nat)
    requires |h| == 28 && 28 + n <= |data|
    requires Parts(h, data[0], h[1..13], data[13..17], data[17..25], h[25], data[26..28])
    ensures h + data[28..28 + n] == data[..28 + n] <==> h[1..13] == data[1..13] && h[25] == data[25]
  {
    var d := data[..28];
    PartsOfPrefix(data, d);
    SplitHead(h);
    SplitHead(d);
    assert data[..28 + n] == d + data[28..28 + n];
    assert (h + data[28..28 + n])[..28] == h && (d + data[28..28 + n])[..28] == d;
  }

  lemma ShortHead(h: seq<byte>, data: seq<byte>, k: nat)
    requires |h| == 28 && 24 <= k <= |h + data|
    ensures (h + data)[..k][0] == h[0]
    ensures k >= 28 ==> (h + data)[..k][26..28] == h[26..28]
  {}

  /** A frame cut short is refused, except that one cut within the four bytes before its
      payload makes the decoder panic. */
  lemma FrameCutShort(m: Message, k: nat)
    requires |m.payload| < U16 && k < |Frame(m)|
    ensures Deserialize(Frame(m)[..k]) == if 24 <= k < 28 then Panicked else Rejected
  {
    if k >= 24 {
      ShortHead(Head(m), m.payload, k);
      HeadFields(m, Head(m));
      Small16(|m.payload|);
    }
  }

  /** A type byte that names no type is refused, whatever surrounds it. */
  lemma UnknownTypeRefused(data: seq<byte>)
    requires data != [] && data[0] > 4
    ensures Deserialize(data) == Rejected
  {}

  /** The frame of a small message of each type, byte by byte. */
  lemma KnownFrames(kind: MessageType)
    ensures Frame(Message(kind, [0x61, 0x62], [7, 8, 9], 0x0102_0304, 5, true)) ==
      [match kind case Text => 0 case FileChunk => 1 case ContactExchange => 2 case Ping => 3 case Ack => 4]
      + ([0x61, 0x62] + Zeros(10)) + [1, 2, 3, 4] + [0, 0, 0, 0, 0, 0, 0, 5] + [1] + [0, 3] + [7, 8, 9]
  {
    KnownWords();
    SmallWord(3, 1);
  }

  // ------------------------------------------------------------------
  // The queue and the counter
  // ------------------------------------------------------------------

  datatype Node = Node(localId: seq<byte>, queue: seq<Message>, counter: u32)

  /** `create_text_message` and `create_contact_exchange`, which differ in type and payload. */
  function Create(n: Node, kind: MessageType, payload: seq<byte>, now: u64): (Node, Message) {
    var counter := Next32(n.counter);
    (n.(counter := counter), Message(kind, n.localId, payload, counter, now, true))
  }

  function Pushed(queue: seq<Message>, m: Message): seq<Message> {
    (if |queue| >= MAX_QUEUE_SIZE then queue[1..] else queue) + [m]
  }

  datatype Event =
    | CreateText(payload: seq<byte>, now: u64)
    | CreateContact(payload: seq<byte>, now: u64)
    | Enqueue(msg: Message)
    | Dequeue

  /** A node and what it has created, been given to queue, and handed out. */
  datatype Trace = Trace(node: Node, created: seq<Message>, enqueued: seq<Message>, dequeued: seq<Message>)

  function Created(t: Trace, kind: MessageType, payload: seq<byte>, now: u64): Trace {
    var (n, m) := Create(t.node, kind, payload, now);
    t.(node := n, created := t.created + [m])
  }

  function Step(t: Trace, e: Event): Trace {
    match e
    case CreateText(payload, now) => Created(t, Text, payload, now)
    case CreateContact(payload, now) => Created(t, ContactExchange, payload, now)
    case Enqueue(m) => t.(node := t.node.(queue := Pushed(t.node.queue, m)), enqueued := t.enqueued + [m])
    case Dequeue =>
      if t.node.queue == [] then t
      else t.(node := t.node.(queue := t.node.queue[1..]), dequeued := t.dequeued + [t.node.queue[0]])
  }

  function Run(id: seq<byte>, es: seq<Event>): Trace {
    if es == [] then Trace(Node(id, [], 0), [], [], []) else Step(Run(id, es[..|es| - 1]), es[|es| - 1])
  }

  predicate Increasing(at: seq<nat>) {
    forall i, j :: 0 <= i < j < |at| ==> at[i] < at[j]
  }

  /** `part` is the messages of `whole` at the given, increasing positions. */
  predicate Picks(at: seq<nat>, whole: seq<Message>, part: seq<Message>) {
    && Increasing(at) && |at| == |part|
    && (forall i :: 0 <= i < |at| ==> at[i] < |whole| && part[i] == whole[at[i]])
  }

  /** The queue is the newest part of what was enqueued, and what was handed out is an
      ordered selection from the older part. */
  predicate Ordered(t: Trace, at: seq<nat>) {
    var older := |t.enqueued| - |t.node.queue|;
    && |t.node.queue| <= 100 && older >= 0
    && t.node.queue == t.enqueued[older..]
    && Picks(at, t.enqueued, t.dequeued)
    && (forall i :: 0 <= i < |at| ==> at[i] < older)
  }

  lemma EnqueueOrdered(t: Trace, m: Message, at: seq<nat>)
    requires Ordered(t, at)
    ensures Ordered(Step(t, Enqueue(m)), at)
  {}

  lemma DequeueOrdered(t: Trace, at: seq<nat>) returns (more: seq<nat>)
    requires Ordered(t, at)
    ensures Ordered(Step(t, Dequeue), more)
  {
    if t.node.queue == [] {
      more := at;
    } else {
      var k := |t.enqueued| - |t.node.queue|;
      more := at + [k];
      assert t.node.queue[0] == t.enqueued[k];
      assert t.enqueued[k + 1..] == t.enqueued[k..][1..];
    }
  }

  /** Over every run: the queue is a suffix of the enqueued history of length at most 100, and
      what is dequeued is a strictly ordered subsequence of the rest. */
  lemma {:induction false} QueueIsSuffix(id: seq<byte>, es: seq<Event>) returns (at: seq<nat>)
    ensures Ordered(Run(id, es), at)
    decreases |es|
  {
    if es == [] {
      at := [];
    } else {
      var t := Run(id, es[..|es| - 1]);
      at := QueueIsSuffix(id, es[..|es| - 1]);
      match es[|es| - 1]
      case CreateText(_, _) =>
      case CreateContact(_, _) =>
      case Enqueue(m) => EnqueueOrdered(t, m, at);
      case Dequeue => at := DequeueOrdered(t, at);
    }
  }

  /** No message was ever enqueued while the queue was full. */
  predicate NeverOverfull(id: seq<byte>, es: seq<Event>) {
    es == [] || (
      && NeverOverfull(id, es[..|es| - 1])
      && (es[|es| - 1].Enqueue? ==> |Run(id, es[..|es| - 1]).node.queue| < 100))
  }

  lemma StepLoses(t: Trace, e: Event)
    ensures var u := Step(t, e);
      var full := e.Enqueue? && |t.node.queue| >= 100;
      && |u.dequeued| + |u.node.queue| - |u.enqueued|
           == |t.dequeued| + |t.node.queue| - |t.enqueued| - (if full then 1 else 0)
      && (!full && t.dequeued + t.node.queue == t.enqueued ==> u.dequeued + u.node.queue == u.enqueued)
  {}

  lemma {:induction false} RunLoses(id: seq<byte>, es: seq<Event>)
    ensures var t := Run(id, es);
      if NeverOverfull(id, es) then t.dequeued + t.node.queue == t.enqueued
      else |t.dequeued| + |t.node.queue| < |t.enqueued|
    decreases |es|
  {
    if es != [] {
      var front := es[..|es| - 1];
      RunLoses(id, front);
      StepLoses(Run(id, front), es[|es| - 1]);
      if NeverOverfull(id, front) {
        assert |Run(id, front).dequeued + Run(id, front).node.queue| == |Run(id, front).enqueued|;
      }
    }
  }

  /** Nothing is lost, and everything leaves in order, exactly in the runs that never enqueue
      on a full queue. */
  lemma NothingLostIff(id: seq<byte>, es: seq<Event>)
    ensures var t := Run(id, es);
      t.dequeued + t.node.queue == t.enqueued <==> NeverOverfull(id, es)
  {
    RunLoses(id, es);
    var t := Run(id, es);
    assert |t.dequeued + t.node.queue| == |t.dequeued| + |t.node.queue|;
  }

  lemma NextOf(n: nat)
    ensures Next32(n % U32) == (n + 1) % U32
  {}

  lemma {:induction false} CreatedNumbers(id: seq<byte>, es: seq<Event>)
    ensures var t := Run(id, es);
      && t.node.localId == id && t.node.counter == |t.created| % U32
      && (forall i :: 0 <= i < |t.created| ==> t.created[i].sequence == (i + 1) % U32 && t.created[i].senderId == id)
    decreases |es|
  {
    if es != [] {
      CreatedNumbers(id, es[..|es| - 1]);
      NextOf(|Run(id, es[..|es| - 1]).created|);
    }
  }

  /** What was asked to be created, in order. */
  function Asked(es: seq<Event>): seq<(MessageType, seq<byte>, u64)> {
    if es == [] then []
    else match es[|es| - 1]
      case CreateText(text, now) => Asked(es[..|es| - 1]) + [(Text, text, now)]
      case CreateContact(payload, now) => Asked(es[..|es| - 1]) + [(ContactExchange, payload, now)]
      case _ => Asked(es[..|es| - 1])
  }

  /** Over any run, the i-th message created is the i-th asked for: its type, payload and time,
      from this node, with the next number, to be acknowledged. */
  lemma {:induction false} CreatedAsAsked(id: seq<byte>, es: seq<Event>)
    ensures var ms, asked := Run(id, es).created, Asked(es);
      && |ms| == |asked|
      && forall i :: 0 <= i < |ms| ==>
           ms[i] == Message(asked[i].0, id, asked[i].1, (i + 1) % U32, asked[i].2, true)
    decreases |es|
  {
    if es != [] {
      CreatedAsAsked(id, es[..|es| - 1]);
      CreatedNumbers(id, es);
      CreatedNumbers(id, es[..|es| - 1]);
    }
  }

  /** Two messages a node creates have the same number exactly when a multiple of 2^32
      creations lies between them. */
  lemma NumbersRepeatIff(id: seq<byte>, es: seq<Event>, i: nat, j: nat)
    requires i <= j < |Run(id, es).created|
    ensures var c := Run(id, es).created;
      c[i].sequence == c[j].sequence <==> (j - i) % U32 == 0
  {
    CreatedNumbers(id, es);
    ModDifference(i + 1, j + 1);
  }

  lemma ModDifference(x: nat, y: nat)
    requires x <= y
    ensures x % U32 == y % U32 <==> (y - x) % U32 == 0
  {}

  lemma CreatedNumber(id: seq<byte>, es: seq<Event>, i: nat)
    requires i < |Run(id, es).created| < U32
    ensures Run(id, es).created[i].sequence == i + 1
  {
    CreatedNumbers(id, es);
  }

  /** Messages enqueued in the order they were created leave with strictly increasing sequence
      numbers, whatever the queue drops, as long as the u32 counter has not wrapped. */
  lemma LeaveInSequence(id: seq<byte>, es: seq<Event>, made: seq<nat>)
    requires Picks(made, Run(id, es).created, Run(id, es).enqueued) && |Run(id, es).created| < U32
    ensures var out := Run(id, es).dequeued;
      forall i, j :: 0 <= i < j < |out| ==> out[i].sequence < out[j].sequence
  {
    var t := Run(id, es);
    var at := QueueIsSuffix(id, es);
    forall i, j | 0 <= i < j < |t.dequeued| ensures t.dequeued[i].sequence < t.dequeued[j].sequence {
      assert at[i] < at[j] < |made|;
      CreatedNumber(id, es, made[at[i]]);
      CreatedNumber(id, es, made[at[j]]);
    }
  }
}
