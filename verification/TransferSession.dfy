/** The receiving session as an object, proved against the value-level session. */
module TransferSessionClass {
  import opened Bytes
  import opened FileTransfer

  class TransferSession {
    const metadata: Metadata
    const totalChunks: u32
    var chunks: map<u32, seq<byte>>
    var receivedCount: u32
    var bytesReceived: u64
    var completed: bool

    function Value(): Session
      reads this
    {
      Session(totalChunks, metadata.fileHash, chunks, receivedCount, bytesReceived, completed)
    }

    constructor (metadata: Metadata)
      ensures Value() == NewSession(metadata) && this.metadata == metadata
    {
      this.metadata, totalChunks := metadata, metadata.chunkCount;
      chunks, receivedCount, bytesReceived, completed := map[], 0, 0, false;
    }

    method Add(chunk: Chunk) returns (added: bool)
      modifies this
      ensures (Value(), added) == AddChunk(old(Value()), chunk)
    {
      var index := chunk.header.index;
      if index in chunks {
        return false;
      }
      chunks := chunks[index := chunk.data];
      receivedCount := Next32(receivedCount);
      bytesReceived := (bytesReceived + |chunk.data|) % U64;
      if receivedCount >= totalChunks {
        completed := true;
      }
      added := true;
    }

    method Assemble(sha: Digest) returns (r: Assembled)
      ensures AssembleSpec(sha, Value(), r)
    {
      var data: seq<byte> := [];
      for i := 0 to totalChunks
        invariant AllPresent(Value(), i)
        invariant data == Gather(chunks, i)
      {
        if i in chunks {
          data := data + chunks[i];
        } else {
          return MissingChunk(i);
        }
      }
      if sha(data) != metadata.fileHash {
        return HashMismatch;
      }
      r := Ok(data);
    }
  }
}
