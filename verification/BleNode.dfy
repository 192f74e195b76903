/** The BLE node as an object, proved against the value-level queue and counter. */
module BleNodeClass {
  import opened Bytes
  import opened BleProtocol

  class BleNode {
    const localZeroId: seq<byte>
    var messageQueue: seq<Message>
    var sequenceCounter: u32

    function Value(): Node
      reads this
    {
      Node(localZeroId, messageQueue, sequenceCounter)
    }

    constructor (localZeroId: seq<byte>)
      ensures Value() == Run(localZeroId, []).node
    {
      this.localZeroId, messageQueue, sequenceCounter := localZeroId, [], 0;
    }

    method CreateTextMessage(text: seq<byte>, now: u64) returns (m: Message)
      modifies this`sequenceCounter
      ensures (Value(), m) == Create(old(Value()), Text, text, now)
    {
      sequenceCounter := Next32(sequenceCounter);
      m := Message(Text, localZeroId, text, sequenceCounter, now, true);
    }

    /** The payload is the JSON document naming the node. */
    method CreateContactExchange(payload: seq<byte>, now: u64) returns (m: Message)
      modifies this`sequenceCounter
      ensures (Value(), m) == Create(old(Value()), ContactExchange, payload, now)
    {
      sequenceCounter := Next32(sequenceCounter);
      m := Message(ContactExchange, localZeroId, payload, sequenceCounter, now, true);
    }

    method EnqueueMessage(m: Message)
      modifies this`messageQueue
      ensures messageQueue == Pushed(old(messageQueue), m)
    {
      if |messageQueue| >= MAX_QUEUE_SIZE {
        messageQueue := messageQueue[1..];
      }
      messageQueue := messageQueue + [m];
    }

    method DequeueMessage() returns (m: Option<Message>)
      modifies this`messageQueue
      ensures if old(messageQueue) == [] then m == None && messageQueue == []
              else m == Some(old(messageQueue)[0]) && messageQueue == old(messageQueue)[1..]
    {
      if messageQueue == [] {
        return None;
      }
      m := Some(messageQueue[0]);
      messageQueue := messageQueue[1..];
    }
  }
}
