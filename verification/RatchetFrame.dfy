/** The wire format of a ratchet message. */
module RatchetFrame {
  import opened Bytes
  import opened BigEndian
  import opened Fields
  import opened Ratchet
  import opened RatchetSystem
  import opened RatchetDelivery
  import RatchetChain

  function SuiteByte(suite: CipherSuite): byte {
    if suite == Aes256Gcm then 0 else 1
  }

  /** The 45 bytes before the ciphertext: the DH public, two u32 counters, the suite, a u32 length. */
  function Head(m: Message): (h: seq<byte>)
    ensures |h| == 45
  {
    m.header.dhPub + Encode(m.header.previousChainLength, 4) + Encode(m.header.number, 4)
    + [SuiteByte(m.suite)] + Encode(|m.ciphertext| % U32, 4)
  }

  function Frame(m: Message): seq<byte> {
    Head(m) + m.ciphertext
  }

  /** `serialize_ratchet_message`: a buffer, filled field by field. */
  method Serialize(m: Message) returns (data: seq<byte>)
    ensures data == Frame(m)
  {
    data := m.header.dhPub;
    data := data + Encode(m.header.previousChainLength, 4);
    data := data + Encode(m.header.number, 4);
    var suiteByte: byte := match m.suite case Aes256Gcm => 0 case ChaCha20Poly1305 => 1;
    data := data + [suiteByte];
    var ciphertextLen := |m.ciphertext| % U32;
    data := data + Encode(ciphertextLen, 4);
    data := data + m.ciphertext;
  }

  /** `deserialize_ratchet_message`, with the panic of its unchecked slice made explicit. */
  function Deserialize(data: seq<byte>): Decoded<Message> {
    if |data| < 41 then Rejected
    else if data[40] > 1 then Rejected
    else if |data| < 45 then Panicked
    else
      var len := Word32(data[41..45]);
      if |data| < 45 + len then Rejected
      else Parsed(Message(Header(data[..32], Word32(data[32..36]), Word32(data[36..40])),
                          data[45..45 + len],
                          if data[40] == 0 then Aes256Gcm else ChaCha20Poly1305))
  }

  lemma HeadFields(m: Message)
    ensures var h := Head(m);
      && h[..32] == m.header.dhPub && h[32..36] == Encode(m.header.previousChainLength, 4)
      && h[36..40] == Encode(m.header.number, 4) && h[40] == SuiteByte(m.suite)
      && h[41..45] == Encode(|m.ciphertext| % U32, 4)
  {}

  lemma FrameParts(m: Message, tail: seq<byte>)
    ensures var d := Frame(m) + tail;
      |d| == 45 + |m.ciphertext| + |tail| && d[..45] == Head(m) && d[45..45 + |m.ciphertext|] == m.ciphertext
  {}

  /** A frame followed by anything decodes to the message with its ciphertext cut to its
      length modulo 2^32, so to the message itself exactly when the length fits a u32. */
  lemma FrameRoundTrip(m: Message, tail: seq<byte>)
    ensures var cut := m.(ciphertext := m.ciphertext[..|m.ciphertext| % U32]);
      && Deserialize(Frame(m) + tail) == Parsed(cut)
      && (Deserialize(Frame(m) + tail) == Parsed(m) <==> |m.ciphertext| < U32)
  {
    var d := Frame(m) + tail;
    var n := |m.ciphertext|;
    FrameParts(m, tail);
    HeadFields(m);
    SliceOfPrefix(d, Head(m), 0, 32);
    SliceOfPrefix(d, Head(m), 32, 36);
    SliceOfPrefix(d, Head(m), 36, 40);
    SliceOfPrefix(d, Head(m), 41, 45);
    WordOf32(m.header.previousChainLength);
    WordOf32(m.header.number);
    WordOf32(n % U32);
    assert n % U32 <= n;
    assert d[45..45 + n % U32] == m.ciphertext[..n % U32];
    assert n < U32 ==> m.ciphertext[..n % U32] == m.ciphertext;
  }

  lemma ShortHead(h: seq<byte>, data: seq<byte>, k: nat)
    requires |h| == 45 && 41 <= k <= |h + data|
    ensures (h + data)[..k][40] == h[40]
    ensures k >= 45 ==> (h + data)[..k][41..45] == h[41..45]
  {}

  lemma LengthWord(w: seq<byte>, n: nat)
    requires n < U32 && w == Encode(n % U32, 4)
    ensures |w| == 4 && Word32(w) == n
  {
    assert n % U32 == n;
    WordOf32(n);
  }

  lemma LengthField(m: Message)
    requires |m.ciphertext| < U32
    ensures Head(m)[40] <= 1 && Word32(Head(m)[41..45]) == |m.ciphertext|
  {
    HeadFields(m);
    LengthWord(Head(m)[41..45], |m.ciphertext|);
  }

  lemma CutFields(m: Message, k: nat)
    requires |m.ciphertext| < U32 && 41 <= k <= |Frame(m)|
    ensures Frame(m)[..k][40] <= 1
    ensures k >= 45 ==> Word32(Frame(m)[..k][41..45]) == |m.ciphertext|
  {
    ShortHead(Head(m), m.ciphertext, k);
    LengthField(m);
  }

  /** A frame cut short is refused, except that one cut within its length field makes the
      decoder panic. */
  lemma FrameCutShort(m: Message, k: nat)
    requires |m.ciphertext| < U32 && k < |Frame(m)|
    ensures Deserialize(Frame(m)[..k]) == if 41 <= k < 45 then Panicked else Rejected
  {
    if k >= 41 { CutFields(m, k); }
  }

  /** A suite byte that names no suite is refused, whatever surrounds it. */
  lemma UnknownSuiteRefused(data: seq<byte>)
    requires |data| > 40 && data[40] > 1
    ensures Deserialize(data) == Rejected
  {}

  /** The frames of two small messages, byte by byte. */
  lemma KnownFrames(pub: Key32)
    ensures Frame(Message(Header(pub, 3, 0x0102_0304), [7, 8, 9], Aes256Gcm)) ==
      pub + [0, 0, 0, 3] + [1, 2, 3, 4] + [0] + [0, 0, 0, 3] + [7, 8, 9]
    ensures Frame(Message(Header(pub, 0x0102_0304, 3), [7, 8, 9], ChaCha20Poly1305)) ==
      pub + [1, 2, 3, 4] + [0, 0, 0, 3] + [1] + [0, 0, 0, 3] + [7, 8, 9]
  {
    KnownWords();
  }

  lemma HeadPrefix(data: seq<byte>, h: seq<byte>)
    requires |data| >= 45
    requires h == data[..32] + data[32..36] + data[36..40] + [data[40]] + data[41..45]
    ensures h == data[..45]
  {}

  lemma AcceptedLength(data: seq<byte>)
    requires Deserialize(data).Parsed?
    ensures var m := Deserialize(data).value;
      |data| >= 45 && |m.ciphertext| == Word32(data[41..45]) && |m.ciphertext| % U32 == |m.ciphertext|
  {}

  lemma HeadParts(m: Message, p: seq<byte>, q: seq<byte>, r: seq<byte>, t: seq<byte>)
    requires Encode(m.header.previousChainLength, 4) == p && Encode(m.header.number, 4) == q
    requires [SuiteByte(m.suite)] == r && Encode(|m.ciphertext| % U32, 4) == t
    ensures Head(m) == m.header.dhPub + p + q + r + t
  {}

  lemma AcceptedHead(data: seq<byte>)
    requires Deserialize(data).Parsed?
    ensures Head(Deserialize(data).value) == data[..45]
  {
    var m := Deserialize(data).value;
    AcceptedLength(data);
    OfWord32(data[32..36]);
    OfWord32(data[36..40]);
    OfWord32(data[41..45]);
    HeadParts(m, data[32..36], data[36..40], [data[40]], data[41..45]);
    HeadPrefix(data, Head(m));
  }

  lemma Join(data: seq<byte>, n: nat)
    requires 45 + n <= |data|
    ensures data[..45] + data[45..45 + n] == data[..45 + n]
  {}

  /** An accepted frame re-serializes to exactly the prefix that was consumed. */
  lemma AcceptedFrame(data: seq<byte>)
    requires Deserialize(data).Parsed?
    ensures var m := Deserialize(data).value;
      45 + |m.ciphertext| <= |data| && Frame(m) == data[..45 + |m.ciphertext|]
  {
    AcceptedHead(data);
    Join(data, |Deserialize(data).value.ciphertext|);
  }

  /** Every message in flight in any run crosses the wire unchanged if its ciphertext is
      shorter than 2^32 bytes, and decrypting what came off the wire is what the delivery
      theorem speaks of. */
  lemma {:induction false} DeliveryOverTheWire(
      c: Primitives, v: Variant, s0: System, es: seq<Event>, to: Party, at: nat, newDh: Key32)
    requires DhCommutes(c) && RatchetChain.OpenInvertsSeal(c) && v.senderHalf
    requires Idle(c, s0) && RunEnabled(c, v, s0, es)
    requires Enabled(c, v, Run(c, v, s0, es), Deliver(to, at, newDh))
    requires |Facing(Run(c, v, s0, es), to).ab[at].msg.ciphertext| < U32
    ensures var s := Facing(Run(c, v, s0, es), to);
      var wire := Deserialize(Frame(s.ab[at].msg));
      wire.Parsed? && Decrypt(c, v, s.b, wire.value, newDh).1 == Some(s.ab[at].plain)
  {
    var m := Facing(Run(c, v, s0, es), to).ab[at].msg;
    FrameRoundTrip(m, []);
    assert Frame(m) + [] == Frame(m);
    DeliveryIffSenderHalf(c, v, s0, es, to, at, newDh);
  }
}
