/** The mutable ratchet state, each method proved against the value-level transitions. */
module RatchetStateClass {
  import opened Bytes
  import opened Ratchet

  class RatchetState {
    var dhSecret: Key32
    var dhPublic: Key32
    var rootKey: Key32
    var sendChainKey: Option<ChainKey>
    var recvChainKey: Option<ChainKey>
    var sendMessageNumber: u32
    var recvMessageNumber: u32
    var previousSendChainLength: u32
    var remoteDhPublic: Option<Key32>
    var cipherSuite: CipherSuite
    var skippedMessageKeys: map<(Key32, u32), MessageKey>

    function Value(): State
      reads this
    {
      State(dhSecret, dhPublic, rootKey, sendChainKey, recvChainKey, sendMessageNumber, recvMessageNumber,
            previousSendChainLength, remoteDhPublic, cipherSuite, skippedMessageKeys)
    }

    constructor Alice(c: Primitives, shared: Key32, bobPublic: Key32, suite: CipherSuite, newDh: Key32)
      ensures Value() == AliceInitial(c, shared, bobPublic, suite, newDh)
    {
      dhSecret, dhPublic := newDh, c.public(newDh);
      rootKey := c.kdfRk(shared, c.dh(newDh, bobPublic));
      sendChainKey, recvChainKey := None, None;
      sendMessageNumber, recvMessageNumber, previousSendChainLength := 0, 0, 0;
      remoteDhPublic, cipherSuite, skippedMessageKeys := Some(bobPublic), suite, map[];
    }

    constructor Bob(c: Primitives, shared: Key32, bobSecret: Key32, alicePublic: Key32, suite: CipherSuite)
      ensures Value() == BobInitial(c, shared, bobSecret, alicePublic, suite)
    {
      dhSecret, dhPublic := bobSecret, c.public(bobSecret);
      rootKey := c.kdfRk(shared, c.dh(bobSecret, alicePublic));
      sendChainKey, recvChainKey := None, None;
      sendMessageNumber, recvMessageNumber, previousSendChainLength := 0, 0, 0;
      remoteDhPublic, cipherSuite, skippedMessageKeys := Some(alicePublic), suite, map[];
    }

    method DhRatchetSend(c: Primitives, newDh: Key32)
      modifies this
      ensures Value() == DhSend(c, old(Value()), newDh)
    {
      previousSendChainLength := sendMessageNumber;
      sendMessageNumber := 0;
      if remoteDhPublic.Some? {
        rootKey := c.kdfRk(rootKey, c.dh(newDh, remoteDhPublic.value));
      }
      sendChainKey := Some(ChainKey(c.chainHalves(rootKey).0, 0));
      dhSecret, dhPublic := newDh, c.public(newDh);
    }

    method DhRatchetRecv(c: Primitives, v: Variant, theirs: Key32, newDh: Key32)
      modifies this
      ensures Value() == DhRecv(c, v, old(Value()), theirs, newDh)
    {
      ResetCounters();
      var root1 := c.kdfRk(rootKey, c.dh(dhSecret, theirs));
      var root2 := c.kdfRk(root1, c.dh(newDh, theirs));
      StartChains(root2, c.SendHalf(root2), if v.senderHalf then c.SendHalf(root1) else c.RecvHalf(root2));
      dhSecret, dhPublic, remoteDhPublic := newDh, c.public(newDh), Some(theirs);
    }

    method ResetCounters()
      modifies this`previousSendChainLength, this`sendMessageNumber, this`recvMessageNumber
      ensures Value() == old(Value()).(previousLength := 0, sendNumber := 0, recvNumber := 0)
    {
      previousSendChainLength, sendMessageNumber, recvMessageNumber := 0, 0, 0;
    }

    /** A new root and the two chains it starts. */
    method StartChains(root: Key32, send: Key32, recv: Key32)
      modifies this`rootKey, this`sendChainKey, this`recvChainKey
      ensures Value() == old(Value()).(rootKey := root, sendChain := Some(ChainKey(send, 0)),
                                       recvChain := Some(ChainKey(recv, 0)))
    {
      rootKey := root;
      sendChainKey, recvChainKey := Some(ChainKey(send, 0)), Some(ChainKey(recv, 0));
    }

    method RatchetEncrypt(c: Primitives, plaintext: seq<byte>, newDh: Key32) returns (m: Message)
      modifies this
      ensures (Value(), m) == Encrypt(c, old(Value()), plaintext, newDh)
    {
      if sendChainKey.None? || sendMessageNumber >= 100 {
        DhRatchetSend(c, newDh);
      }
      var okm := c.kdfCk(sendChainKey.value.key);
      sendChainKey := Some(ChainKey(okm.2, sendMessageNumber + 1));
      var messageNumber := sendMessageNumber;
      sendMessageNumber := sendMessageNumber + 1;
      var ciphertext := c.seal(cipherSuite, okm.0, okm.1, plaintext);
      m := Message(Header(dhPublic, previousSendChainLength, messageNumber), ciphertext, cipherSuite);
    }

    /** The step both receive paths end with: one key off the chain. */
    method TakeMessageKey(c: Primitives) returns (mk: MessageKey)
      requires recvChainKey.Some?
      modifies this`recvChainKey, this`recvMessageNumber
      ensures (Value(), mk) == TakeKey(c, old(Value()))
    {
      var okm := c.kdfCk(recvChainKey.value.key);
      recvChainKey := Some(ChainKey(okm.2, recvMessageNumber));
      recvMessageNumber := Next32(recvMessageNumber);
      mk := MessageKey(okm.0, okm.1, 0);
    }

    /** The fast-forward loop of both receive paths. */
    method FastForward(c: Primitives, keep: bool, target: u32)
      requires recvChainKey.Some? && remoteDhPublic.Some?
      modifies this`recvChainKey, this`recvMessageNumber, this`skippedMessageKeys
      ensures Value() == SkipTo(c, keep, old(Value()), target)
    {
      while recvMessageNumber < target
        invariant recvChainKey.Some?
        invariant SkipTo(c, keep, Value(), target) == SkipTo(c, keep, old(Value()), target)
      {
        var number := recvMessageNumber;
        var mk := TakeMessageKey(c);
        if keep {
          skippedMessageKeys := skippedMessageKeys[(remoteDhPublic.value, number) := mk.(number := number)];
        }
      }
    }

    method TrySkippedMessageKeys(c: Primitives, m: Message) returns (plaintext: Option<seq<byte>>)
      requires recvChainKey.Some? && remoteDhPublic.Some?
      modifies this
      ensures (Value(), plaintext) == TrySkipped(c, old(Value()), m)
    {
      var keyRef := (m.header.dhPub, m.header.number);
      if keyRef in skippedMessageKeys {
        var stored := skippedMessageKeys[keyRef];
        skippedMessageKeys := skippedMessageKeys - {keyRef};
        return c.Unseal(m.suite, stored, m.ciphertext);
      }
      FastForward(c, true, m.header.number);
      var msgKey := TakeMessageKey(c);
      plaintext := c.Unseal(m.suite, msgKey, m.ciphertext);
    }

    method RatchetDecrypt(c: Primitives, v: Variant, m: Message, newDh: Key32) returns (plaintext: Option<seq<byte>>)
      modifies this
      ensures (Value(), plaintext) == Decrypt(c, v, old(Value()), m, newDh)
    {
      if remoteDhPublic.None? || m.header.dhPub != remoteDhPublic.value {
        DhRatchetRecv(c, v, m.header.dhPub, newDh);
      }
      if recvChainKey.None? {
        return None;
      }
      if recvMessageNumber > m.header.number {
        plaintext := TrySkippedMessageKeys(c, m);
        return;
      }
      FastForward(c, v.keepSkipped, m.header.number);
      var msgKey := TakeMessageKey(c);
      plaintext := c.Unseal(m.suite, msgKey, m.ciphertext);
    }
  }
}
