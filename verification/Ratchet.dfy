/** The state of one Double Ratchet party and its transitions, as values. */
module Ratchet {
  import opened Bytes

  datatype CipherSuite = Aes256Gcm | ChaCha20Poly1305

  datatype MessageKey = MessageKey(key: Key32, nonce: Nonce, number: u32)

  datatype Header = Header(dhPub: Key32, previousChainLength: u32, number: u32)

  datatype Message = Message(header: Header, ciphertext: seq<byte>, suite: CipherSuite)

  datatype ChainKey = ChainKey(key: Key32, index: u32)

  /** The library primitives: X25519, the three HKDF expansions and the AEAD. */
  datatype Primitives = Primitives(
    public: Key32 -> Key32,
    dh: (Key32, Key32) -> Key32,
    kdfRk: (Key32, Key32) -> Key32,
    chainHalves: Key32 -> (Key32, Key32),
    kdfCk: Key32 -> (Key32, Nonce, Key32),
    seal: (CipherSuite, Key32, Nonce, seq<byte>) -> seq<byte>,
    open: (CipherSuite, Key32, Nonce, seq<byte>) -> Option<seq<byte>>)
  {
    /** The key `kdf_ck` yields for one message; its number is always 0. */
    function MessageKeyOf(chain: Key32): MessageKey {
      MessageKey(kdfCk(chain).0, kdfCk(chain).1, 0)
    }

    /** The chain key after n messages. */
    function Advance(chain: Key32, n: nat): Key32 {
      if n == 0 then chain else kdfCk(Advance(chain, n - 1)).2
    }

    function SendHalf(root: Key32): Key32 { chainHalves(root).0 }

    function RecvHalf(root: Key32): Key32 { chainHalves(root).1 }

    function Unseal(suite: CipherSuite, mk: MessageKey, ciphertext: seq<byte>): Option<seq<byte>> {
      open(suite, mk.key, mk.nonce, ciphertext)
    }
  }

  /** The code as written is `Variant(false, false)`.
      senderHalf:  `dh_ratchet_recv` takes the receive chain from the first half of
                   the root after its first DH step, the half the sender used.
      keepSkipped: the fast-forward loop of `ratchet_decrypt` stores the keys it
                   passes, as the loop of `try_skipped_message_keys` does. */
  datatype Variant = Variant(senderHalf: bool, keepSkipped: bool)

  const AS_WRITTEN := Variant(false, false)

  datatype State = State(
    dhSecret: Key32, dhPublic: Key32,
    rootKey: Key32,
    sendChain: Option<ChainKey>, recvChain: Option<ChainKey>,
    sendNumber: u32, recvNumber: u32, previousLength: u32,
    remote: Option<Key32>, suite: CipherSuite,
    skipped: map<(Key32, u32), MessageKey>)

  function Initial(c: Primitives, shared: Key32, secret: Key32, peer: Key32, suite: CipherSuite): State {
    State(secret, c.public(secret), c.kdfRk(shared, c.dh(secret, peer)),
          None, None, 0, 0, 0, Some(peer), suite, map[])
  }

  /** Alice draws her own secret. */
  function AliceInitial(c: Primitives, shared: Key32, bobPublic: Key32, suite: CipherSuite, newDh: Key32): State {
    Initial(c, shared, newDh, bobPublic, suite)
  }

  function BobInitial(c: Primitives, shared: Key32, bobSecret: Key32, alicePublic: Key32, suite: CipherSuite): State {
    Initial(c, shared, bobSecret, alicePublic, suite)
  }

  /** `dh_ratchet_send`, with the secret it draws as an argument. */
  function DhSend(c: Primitives, s: State, newDh: Key32): State {
    var root := if s.remote.Some? then c.kdfRk(s.rootKey, c.dh(newDh, s.remote.value)) else s.rootKey;
    s.(previousLength := s.sendNumber, sendNumber := 0, rootKey := root,
       sendChain := Some(ChainKey(c.SendHalf(root), 0)),
       dhSecret := newDh, dhPublic := c.public(newDh))
  }

  /** Whether the next `ratchet_encrypt` draws a fresh DH key. */
  predicate DrawsOnSend(s: State) {
    s.sendChain.None? || s.sendNumber >= 100
  }

  function Encrypt(c: Primitives, s: State, plain: seq<byte>, newDh: Key32): (State, Message) {
    var s1 := if DrawsOnSend(s) then DhSend(c, s, newDh) else s;
    var chain := s1.sendChain.value.key;
    var mk := c.MessageKeyOf(chain);
    (s1.(sendChain := Some(ChainKey(c.kdfCk(chain).2, s1.sendNumber + 1)), sendNumber := s1.sendNumber + 1),
     Message(Header(s1.dhPublic, s1.previousLength, s1.sendNumber),
             c.seal(s1.suite, mk.key, mk.nonce, plain), s1.suite))
  }

  /** The root after the first DH step of `dh_ratchet_recv`. */
  function FirstRoot(c: Primitives, s: State, theirs: Key32): Key32 {
    c.kdfRk(s.rootKey, c.dh(s.dhSecret, theirs))
  }

  /** `dh_ratchet_recv`, with the secret it draws as an argument. */
  function DhRecv(c: Primitives, v: Variant, s: State, theirs: Key32, newDh: Key32): State {
    var root1 := FirstRoot(c, s, theirs);
    var root2 := c.kdfRk(root1, c.dh(newDh, theirs));
    s.(previousLength := 0, sendNumber := 0, recvNumber := 0, rootKey := root2,
       sendChain := Some(ChainKey(c.SendHalf(root2), 0)),
       recvChain := Some(ChainKey(if v.senderHalf then c.SendHalf(root1) else c.RecvHalf(root2), 0)),
       dhSecret := newDh, dhPublic := c.public(newDh), remote := Some(theirs))
  }

  /** Take the next message key off the receive chain. */
  function TakeKey(c: Primitives, s: State): (State, MessageKey)
    requires s.recvChain.Some?
  {
    var chain := s.recvChain.value.key;
    (s.(recvChain := Some(ChainKey(c.kdfCk(chain).2, s.recvNumber)), recvNumber := Next32(s.recvNumber)),
     c.MessageKeyOf(chain))
  }

  /** One pass of a fast-forward loop, storing the passed key when `keep`. */
  function SkipOne(c: Primitives, keep: bool, s: State): State
    requires s.recvChain.Some? && s.remote.Some?
  {
    var (s1, mk) := TakeKey(c, s);
    if keep then
      s1.(skipped := s1.skipped[(s.remote.value, s.recvNumber) := mk.(number := s.recvNumber)])
    else s1
  }

  function SkipTo(c: Primitives, keep: bool, s: State, n: u32): (t: State)
    requires s.recvChain.Some? && s.remote.Some?
    ensures t.recvChain.Some? && t.remote == s.remote
    decreases n - s.recvNumber
  {
    if s.recvNumber < n then SkipTo(c, keep, SkipOne(c, keep, s), n) else s
  }

  /** `try_skipped_message_keys`. */
  function TrySkipped(c: Primitives, s: State, m: Message): (State, Option<seq<byte>>)
    requires s.recvChain.Some? && s.remote.Some?
  {
    var k := (m.header.dhPub, m.header.number);
    if k in s.skipped then
      (s.(skipped := s.skipped - {k}), c.Unseal(m.suite, s.skipped[k], m.ciphertext))
    else
      var (t, mk) := TakeKey(c, SkipTo(c, true, s, m.header.number));
      (t, c.Unseal(m.suite, mk, m.ciphertext))
  }

  /** Whether `ratchet_decrypt` runs a DH ratchet step, and so draws a fresh DH key. */
  predicate DrawsOnReceive(s: State, m: Message) {
    s.remote != Some(m.header.dhPub)
  }

  /** `ratchet_decrypt` after its DH step. */
  function Receive(c: Primitives, v: Variant, s: State, m: Message): (r: (State, Option<seq<byte>>))
    requires s.remote.Some?
    ensures r.0.remote == s.remote
  {
    if s.recvChain.None? then (s, None)
    else if s.recvNumber > m.header.number then TrySkipped(c, s, m)
    else
      var (t, mk) := TakeKey(c, SkipTo(c, v.keepSkipped, s, m.header.number));
      (t, c.Unseal(m.suite, mk, m.ciphertext))
  }

  function Decrypt(c: Primitives, v: Variant, s: State, m: Message, newDh: Key32): (State, Option<seq<byte>>) {
    Receive(c, v, if DrawsOnReceive(s, m) then DhRecv(c, v, s, m.header.dhPub, newDh) else s, m)
  }
}
