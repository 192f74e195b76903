/** Chunked file transfer: split, frame, unframe, collect, reassemble. */
module FileTransfer {
  import opened Bytes
  import opened BigEndian
  import opened Fields
  import opened Utf8
  import Positional

  const CHUNK_SIZE: nat := 256 * 1024

  type Digest = seq<byte> -> Key32

  datatype Metadata = Metadata(
    fileName: string, fileSize: nat, mimeType: string, chunkCount: u32, chunkSize: nat, fileHash: Key32)

  datatype ChunkHeader = ChunkHeader(transferId: seq<byte>, index: u32, offset: u64, size: u32, isLast: bool)

  datatype Chunk = Chunk(header: ChunkHeader, data: seq<byte>)

  /** How many chunks n bytes need. */
  function ChunksFor(n: nat): nat {
    (n + CHUNK_SIZE - 1) / CHUNK_SIZE
  }

  function CreateFileMetadata(sha: Digest, fileName: string, data: seq<byte>, mimeType: string): (meta: Metadata)
    ensures meta.fileName == fileName && meta.mimeType == mimeType
    ensures meta.fileSize == |data| && meta.fileHash == sha(data) && meta.chunkSize == 262144
  {
    Metadata(fileName, |data|, mimeType, ChunksFor(|data|) % U32, CHUNK_SIZE, sha(data))
  }

  function Min(a: nat, b: nat): nat { if a <= b then a else b }

  /** Whether the slices `split_into_chunks` takes are in range. */
  predicate Covers(total: u32, data: seq<byte>) {
    total == 0 || (total - 1) * CHUNK_SIZE <= |data|
  }

  function ChunkAt(id: seq<byte>, total: u32, data: seq<byte>, i: nat): Chunk
    requires i < total && Covers(total, data)
  {
    var offset := i * CHUNK_SIZE;
    var end := Min(offset + CHUNK_SIZE, |data|);
    Chunk(ChunkHeader(id, i, offset, end - offset, i == total - 1), data[offset..end])
  }

  /** `split_into_chunks`. */
  method SplitIntoChunks(id: seq<byte>, meta: Metadata, data: seq<byte>) returns (chunks: seq<Chunk>)
    requires Covers(meta.chunkCount, data)
    ensures |chunks| == meta.chunkCount
    ensures forall i :: 0 <= i < |chunks| ==> chunks[i] == ChunkAt(id, meta.chunkCount, data, i)
  {
    chunks := [];
    var total := meta.chunkCount;
    for i := 0 to total
      invariant |chunks| == i
      invariant forall j :: 0 <= j < i ==> chunks[j] == ChunkAt(id, total, data, j)
    {
      var offset := i * CHUNK_SIZE;
      var end := Min(offset + CHUNK_SIZE, |data|);
      chunks := chunks + [Chunk(ChunkHeader(id, i, offset, end - offset, i == total - 1), data[offset..end])];
    }
  }

  // ------------------------------------------------------------------
  // Partition
  // ------------------------------------------------------------------

  /** The bytes of the first n chunks, one after another. */
  function Joined(id: seq<byte>, total: u32, data: seq<byte>, n: nat): seq<byte>
    requires n <= total && Covers(total, data)
  {
    if n == 0 then [] else Joined(id, total, data, n - 1) + ChunkAt(id, total, data, n - 1).data
  }

  lemma TakeMore(data: seq<byte>, i: nat, j: nat)
    requires i <= j <= |data|
    ensures data[..i] + data[i..j] == data[..j]
  {}

  lemma {:induction false} JoinedIsPrefix(id: seq<byte>, total: u32, data: seq<byte>, n: nat)
    requires n <= total && Covers(total, data)
    ensures Joined(id, total, data, n) == data[..Min(n * CHUNK_SIZE, |data|)]
    decreases n
  {
    if n > 0 {
      JoinedIsPrefix(id, total, data, n - 1);
      TakeMore(data, (n - 1) * CHUNK_SIZE, Min(n * CHUNK_SIZE, |data|));
    }
  }

  lemma CountBounds(n: nat)
    ensures n <= ChunksFor(n) * CHUNK_SIZE < n + CHUNK_SIZE
    ensures ChunksFor(n) % U32 <= ChunksFor(n)
    ensures Covers(ChunksFor(n) % U32, seq(n, _ => 0))
  {}

  lemma CountFits(count: nat)
    ensures count % U32 <= count
    ensures if count < U32 then count % U32 == count else count % U32 < count
  {}

  /** A number of chunks covers n bytes exactly when it is at least what they need. */
  lemma CoveredIff(total: nat, n: nat)
    ensures Min(total * CHUNK_SIZE, n) == n <==> total >= ChunksFor(n)
  {
    CountBounds(n);
  }

  /** The chunks of a file joined in order are the file exactly when the chunk count fits a
      u32, and a proper prefix of it otherwise. */
  lemma JoinedIsFile(sha: Digest, fileName: string, mimeType: string, id: seq<byte>, data: seq<byte>)
    ensures var total := CreateFileMetadata(sha, fileName, data, mimeType).chunkCount;
      && Covers(total, data)
      && (Joined(id, total, data, total) == data <==> ChunksFor(|data|) < U32)
      && Joined(id, total, data, total) <= data
  {
    var total := ChunksFor(|data|) % U32;
    CountBounds(|data|);
    CountFits(ChunksFor(|data|));
    assert Covers(total, data);
    JoinedIsPrefix(id, total, data, total);
    CoveredIff(total, |data|);
    assert data[..|data|] == data;
  }

  /** Each chunk of a file: its offset is the number of bytes before it; every chunk but the
      last is full, the last is full or ends the file, and it alone is marked last; none is
      empty. */
  lemma {:induction false} ChunkShape(
      sha: Digest, fileName: string, mimeType: string, id: seq<byte>, data: seq<byte>, i: nat)
    requires i < CreateFileMetadata(sha, fileName, data, mimeType).chunkCount
    ensures var total := CreateFileMetadata(sha, fileName, data, mimeType).chunkCount;
      && Covers(total, data)
      && var c := ChunkAt(id, total, data, i);
         && c.header.offset == |Joined(id, total, data, i)|
         && c.header.transferId == id && c.header.index == i && c.header.size == |c.data|
         && (c.header.isLast <==> i == total - 1)
         && 1 <= |c.data| <= 262144
         && (|c.data| < 262144 ==> i == total - 1 && c.header.offset + |c.data| == |data|)
  {
    CountBounds(|data|);
    ChunkRange(|data|, i);
    var total := ChunksFor(|data|) % U32;
    assert Covers(total, data);
    JoinedIsPrefix(id, total, data, i);
  }

  lemma ChunkRange(n: nat, i: nat)
    requires i < ChunksFor(n) % U32
    ensures i * CHUNK_SIZE < n
    ensures i < ChunksFor(n) - 1 ==> i * CHUNK_SIZE + CHUNK_SIZE < n
    ensures ChunksFor(n) - 1 <= i ==> i == ChunksFor(n) % U32 - 1
  {}

  // ------------------------------------------------------------------
  // Frames
  // ------------------------------------------------------------------

  /** The 49 bytes before the data: a 32-byte id field, index, offset, size and the last flag. */
  function Head(h: ChunkHeader): (s: seq<byte>)
    ensures |s| == 49
  {
    Pad(h.transferId, 32) + Encode(h.index, 4) + Encode(h.offset, 8) + Encode(h.size, 4) + [Flag(h.isLast)]
  }

  function Frame(c: Chunk): seq<byte> {
    Head(c.header) + c.data
  }

  /** `serialize_chunk`. */
  method SerializeChunk(c: Chunk) returns (data: seq<byte>)
    ensures data == Frame(c)
  {
    data := Pad(c.header.transferId, 32);
    data := data + Encode(c.header.index, 4);
    data := data + Encode(c.header.offset, 8);
    data := data + Encode(c.header.size, 4);
    data := data + [Flag(c.header.isLast)];
    data := data + c.data;
  }

  /** `deserialize_chunk`, with the panic of its unchecked slice made explicit. */
  function Deserialize(data: seq<byte>): Decoded<Chunk> {
    if |data| < 49 then Rejected
    else
      var size := Word32(data[44..48]);
      if |data| < 49 + size then Panicked
      else Parsed(Chunk(
        ChunkHeader(ReadId(data[..32]), Word32(data[32..36]), Word64(data[36..44]), size, data[48] != 0),
        data[49..49 + size]))
  }

  lemma PartsOf(id: seq<byte>, i: seq<byte>, o: seq<byte>, n: seq<byte>, f: byte)
    requires |id| == 32 && |i| == 4 && |o| == 8 && |n| == 4
    ensures var s := id + i + o + n + [f];
      |s| == 49 && s[..32] == id && s[32..36] == i && s[36..44] == o && s[44..48] == n && s[48] == f
  {}

  lemma HeadParts(h: ChunkHeader)
    ensures var s := Head(h);
      && s[..32] == Pad(h.transferId, 32) && s[32..36] == Encode(h.index, 4)
      && s[36..44] == Encode(h.offset, 8) && s[44..48] == Encode(h.size, 4) && s[48] == Flag(h.isLast)
  {
    PartsOf(Pad(h.transferId, 32), Encode(h.index, 4), Encode(h.offset, 8), Encode(h.size, 4), Flag(h.isLast));
  }

  lemma HeadWords(c: Chunk)
    ensures var d := Frame(c);
      && |d| == 49 + |c.data|
      && d[..32] == Pad(c.header.transferId, 32)
      && Word32(d[32..36]) == c.header.index && Word64(d[36..44]) == c.header.offset
      && Word32(d[44..48]) == c.header.size && (d[48] != 0 <==> c.header.isLast)
  {
    var d, h := Frame(c), Head(c.header);
    assert d[..49] == h;
    HeadParts(c.header);
    SliceOfPrefix(d, h, 0, 32);
    SliceOfPrefix(d, h, 32, 36);
    SliceOfPrefix(d, h, 36, 44);
    SliceOfPrefix(d, h, 44, 48);
    WordOf32(c.header.index);
    WordOf64(c.header.offset);
    WordOf32(c.header.size);
  }

  lemma PayloadAt(h: seq<byte>, data: seq<byte>, n: nat)
    requires |h| == 49 && n <= |data|
    ensures (h + data)[49..49 + n] == data[..n]
  {}

  lemma FrameReads(c: Chunk)
    ensures Deserialize(Frame(c)) ==
      if c.header.size > |c.data| then Panicked
      else Parsed(Chunk(c.header.(transferId := ReadId(Pad(c.header.transferId, 32))), c.data[..c.header.size]))
  {
    HeadWords(c);
    if c.header.size <= |c.data| { PayloadAt(Head(c.header), c.data, c.header.size); }
  }

  /** Decoding a frame panics exactly when the size field exceeds the data; otherwise it
      returns the chunk with what the field keeps of the id and the data cut to `size`. The id
      is a `String`, so well-formed UTF-8. */
  lemma FrameDecodes(c: Chunk)
    requires WellFormed(c.header.transferId)
    ensures Deserialize(Frame(c)) ==
      if c.header.size > |c.data| then Panicked
      else Parsed(Chunk(c.header.(transferId := KeptId(c.header.transferId, 32)), c.data[..c.header.size]))
  {
    FrameReads(c);
    ReadPad(c.header.transferId, 32);
  }

  /** A frame round-trips exactly when size and data agree and the id fits its field. */
  lemma FrameRoundTrip(c: Chunk)
    requires WellFormed(c.header.transferId)
    ensures Deserialize(Frame(c)) == Parsed(c) <==> c.header.size == |c.data| && FitsField(c.header.transferId, 32)
  {
    FrameReads(c);
    PadLossless(c.header.transferId, 32);
    assert c.data[..|c.data|] == c.data;
  }

  lemma ShortHead(h: seq<byte>, data: seq<byte>, k: nat)
    requires |h| == 49 <= k <= |h + data|
    ensures (h + data)[..k][44..48] == (h + data)[44..48]
  {}

  /** A frame cut short is refused before its data, and makes the decoder panic within it. */
  lemma FrameCutShort(c: Chunk, k: nat)
    requires c.header.size == |c.data| && k < |Frame(c)|
    ensures Deserialize(Frame(c)[..k]) == if k < 49 then Rejected else Panicked
  {
    HeadWords(c);
    if k >= 49 { ShortHead(Head(c.header), c.data, k); }
  }

  lemma AcceptedFields(data: seq<byte>)
    requires Deserialize(data).Parsed?
    ensures var c := Deserialize(data).value;
      && |data| >= 49 + |c.data| && data[49..49 + |c.data|] == c.data && c.header.size == |c.data|
      && c.header.transferId == ReadId(data[..32]) && c.header.index == Word32(data[32..36])
      && c.header.offset == Word64(data[36..44]) && c.header.size == Word32(data[44..48])
      && c.header.isLast == (data[48] != 0)
  {}

  lemma HeadIs(h: ChunkHeader, id: seq<byte>, i: seq<byte>, o: seq<byte>, n: seq<byte>)
    requires Pad(h.transferId, 32) == id && Encode(h.index, 4) == i
    requires Encode(h.offset, 8) == o && Encode(h.size, 4) == n
    ensures Head(h) == id + i + o + n + [Flag(h.isLast)]
  {}

  lemma AcceptedHead(data: seq<byte>, h: ChunkHeader)
    requires Deserialize(data).Parsed? && Deserialize(data).value.header == h
    ensures |data| >= 49
    ensures Head(h) == Pad(ReadId(data[..32]), 32) + data[32..36] + data[36..44] + data[44..48] + [Flag(h.isLast)]
  {
    AcceptedFields(data);
    OfWord32(data[32..36]);
    OfWord64(data[36..44]);
    OfWord32(data[44..48]);
    HeadIs(h, Pad(ReadId(data[..32]), 32), data[32..36], data[36..44], data[44..48]);
  }

  lemma SameHead(d: seq<byte>, id: seq<byte>, flag: byte)
    requires |d| == 49 && |id| == 32
    ensures id + d[32..36] + d[36..44] + d[44..48] + [flag] == d <==> id == d[..32] && flag == d[48]
  {
    var h := id + d[32..36] + d[36..44] + d[44..48] + [flag];
    assert h[..32] == id && h[48] == flag;
    if id == d[..32] && flag == d[48] { assert h == d; }
  }

  lemma Rejoin(data: seq<byte>, h: seq<byte>, n: nat)
    requires |h| == 49 && 49 + n <= |data|
    ensures h + data[49..49 + n] == data[..49 + n] <==> h == data[..49]
  {
    assert (h + data[49..49 + n])[..49] == h && data[..49 + n][..49] == data[..49];
    assert data[..49] + data[49..49 + n] == data[..49 + n];
  }

  /** Of every byte string: an accepted frame holds the data it announces, and re-serializes to
      the prefix that was consumed exactly when its last flag was written as 0 or 1 and its id
      field is UTF-8, but for a final U+FFFD cut short. */
  lemma AcceptedFrame(data: seq<byte>)
    requires Deserialize(data).Parsed?
    ensures var c := Deserialize(data).value;
      && 49 + |c.data| <= |data| && c.header.size == |c.data| && (c.header.isLast <==> data[48] != 0)
      && (Frame(c) == data[..49 + |c.data|] <==> data[48] <= 1 && NearlyWellFormed(data[..32]))
  {
    var c, d := Deserialize(data).value, data[..49];
    AcceptedFields(data);
    AcceptedHead(data, c.header);
    HeadSlices(data);
    SameHead(d, Pad(ReadId(data[..32]), 32), Flag(c.header.isLast));
    Rejoin(data, Head(c.header), |c.data|);
    RereadIff(data[..32]);
  }

  lemma HeadSlices(data: seq<byte>)
    requires |data| >= 49
    ensures var d := data[..49];
      && d[..32] == data[..32] && d[32..36] == data[32..36] && d[36..44] == data[36..44]
      && d[44..48] == data[44..48] && d[48] == data[48]
  {}

  // ------------------------------------------------------------------
  // Sessions
  // ------------------------------------------------------------------

  datatype Session = Session(
    total: u32, fileHash: Key32, chunks: map<u32, seq<byte>>, received: u32, bytes: u64, completed: bool)

  function NewSession(meta: Metadata): Session {
    Session(meta.chunkCount, meta.fileHash, map[], 0, 0, false)
  }

  /** `add_chunk`; the counters are a u32 and a u64. */
  function AddChunk(s: Session, c: Chunk): (Session, bool) {
    if c.header.index in s.chunks then (s, false)
    else
      var received := Next32(s.received);
      (s.(chunks := s.chunks[c.header.index := c.data], received := received,
          bytes := (s.bytes + |c.data|) % U64,
          completed := s.completed || received >= s.total), true)
  }

  datatype Assembled = Ok(data: seq<byte>) | MissingChunk(index: u32) | HashMismatch

  /** The chunks 0 to n-1 in order. */
  function Gather(chunks: map<u32, seq<byte>>, n: u32): seq<byte>
    requires forall i: u32 :: i < n ==> i in chunks
  {
    if n == 0 then [] else Gather(chunks, n - 1) + chunks[n - 1]
  }

  predicate AllPresent(s: Session, n: nat) {
    forall i: u32 :: i < n ==> i in s.chunks
  }

  /** What `assemble` returns: the least missing index, or the joined bytes if they hash right. */
  predicate AssembleSpec(sha: Digest, s: Session, r: Assembled) {
    match r
    case MissingChunk(i) => i < s.total && i !in s.chunks && AllPresent(s, i)
    case Ok(data) => AllPresent(s, s.total) && data == Gather(s.chunks, s.total) && sha(data) == s.fileHash
    case HashMismatch => AllPresent(s, s.total) && sha(Gather(s.chunks, s.total)) != s.fileHash
  }

  /** The specification of `assemble` determines its result. */
  lemma AssembleUnique(sha: Digest, s: Session, r: Assembled, q: Assembled)
    requires AssembleSpec(sha, s, r) && AssembleSpec(sha, s, q)
    ensures r == q
  {}

  /** It always has one. */
  lemma {:induction false} AssembleFrom(sha: Digest, s: Session, n: nat) returns (r: Assembled)
    requires n <= s.total && AllPresent(s, n)
    ensures AssembleSpec(sha, s, r)
    decreases s.total - n
  {
    if n == s.total {
      var data := Gather(s.chunks, s.total);
      r := if sha(data) == s.fileHash then Ok(data) else HashMismatch;
    } else if n in s.chunks {
      r := AssembleFrom(sha, s, n + 1);
    } else {
      r := MissingChunk(n);
    }
  }

  function AddAll(s: Session, cs: seq<Chunk>): Session {
    if cs == [] then s else AddChunk(AddAll(s, cs[..|cs| - 1]), cs[|cs| - 1]).0
  }

  function Indices(cs: seq<Chunk>): set<u32> {
    set i | 0 <= i < |cs| :: cs[i].header.index
  }

  /** For arbitrary chunks: the map holds exactly the indices seen, both counters agree with
      it modulo their width, and a session is complete only once as many chunks as the file
      has are held. */
  predicate Consistent(s: Session) {
    && s.received == |s.chunks| % U32
    && (s.completed ==> |s.chunks| >= s.total)
  }

  lemma IndicesSnoc(cs: seq<Chunk>)
    requires cs != []
    ensures Indices(cs) == Indices(cs[..|cs| - 1]) + {cs[|cs| - 1].header.index}
  {}

  lemma ModAdd(a: nat, b: nat, m: nat)
    requires m > 0
    ensures (a % m + b) % m == (a + b) % m
  {
    var q := a / m;
    assert a + b == q * m + (a % m + b);
    Positional.ModShift(m, q, a % m + b);
  }

  lemma AddCounts(s: Session, c: Chunk)
    requires Consistent(s)
    ensures Consistent(AddChunk(s, c).0)
  {}

  lemma AddSums(s: Session, c: Chunk)
    requires s.bytes == TotalLength(s.chunks) % U64
    ensures var t := AddChunk(s, c).0; t.bytes == TotalLength(t.chunks) % U64
  {
    if c.header.index !in s.chunks {
      TotalInsert(s.chunks, c.header.index, c.data);
      ModAdd(TotalLength(s.chunks), |c.data|, U64);
    }
  }

  lemma {:induction false} Bookkeeping(meta: Metadata, cs: seq<Chunk>)
    ensures var s := AddAll(NewSession(meta), cs);
      && Consistent(s) && s.chunks.Keys == Indices(cs)
      && s.bytes == TotalLength(s.chunks) % U64
      && s.total == meta.chunkCount && s.fileHash == meta.fileHash
    decreases |cs|
  {
    if cs != [] {
      Bookkeeping(meta, cs[..|cs| - 1]);
      AddCounts(AddAll(NewSession(meta), cs[..|cs| - 1]), cs[|cs| - 1]);
      AddSums(AddAll(NewSession(meta), cs[..|cs| - 1]), cs[|cs| - 1]);
      IndicesSnoc(cs);
    }
  }

  /** The first chunk added under an index is the one kept. */
  lemma {:induction false} FirstWriteWins(meta: Metadata, cs: seq<Chunk>, k: nat)
    requires k < |cs| && forall j :: 0 <= j < k ==> cs[j].header.index != cs[k].header.index
    ensures var s := AddAll(NewSession(meta), cs);
      cs[k].header.index in s.chunks && s.chunks[cs[k].header.index] == cs[k].data
    decreases |cs|
  {
    var t := cs[..|cs| - 1];
    Bookkeeping(meta, t);
    if k < |t| {
      FirstWriteWins(meta, t, k);
    } else {
      assert t == cs[..k];
      assert cs[k].header.index !in Indices(t);
    }
  }

  lemma CompletesWhen(s: Session, c: Chunk)
    requires Consistent(s) && c.header.index !in s.chunks
    requires s.chunks == map[] || |s.chunks| < s.total
    ensures var t := AddChunk(s, c).0; t.completed <==> s.completed || |t.chunks| >= s.total
  {}

  /** A session is complete, and stays so, exactly once it has been given as many indices as the
      file has chunks, and at least one. */
  lemma {:induction false} CompletedIff(meta: Metadata, cs: seq<Chunk>)
    ensures AddAll(NewSession(meta), cs).completed <==> cs != [] && |Indices(cs)| >= meta.chunkCount
    decreases |cs|
  {
    if cs != [] {
      var front, c := cs[..|cs| - 1], cs[|cs| - 1];
      var s := AddAll(NewSession(meta), front);
      CompletedIff(meta, front);
      Bookkeeping(meta, front);
      Bookkeeping(meta, cs);
      IndicesSnoc(cs);
      SameCard(s.chunks, Indices(front));
      SameCard(AddAll(NewSession(meta), cs).chunks, Indices(cs));
      if c.header.index !in Indices(front) && !s.completed { CompletesWhen(s, c); }
    }
  }

  lemma SameCard(m: map<u32, seq<byte>>, keys: set<u32>)
    requires m.Keys == keys
    ensures |m| == |keys|
  {}

  /** Whether a chunk is taken: exactly when its index is new to the session. */
  lemma AddAnswersNew(meta: Metadata, cs: seq<Chunk>, c: Chunk)
    ensures var s := AddAll(NewSession(meta), cs);
      && (AddChunk(s, c).1 <==> c.header.index !in Indices(cs))
      && (c.header.index in Indices(cs) ==> AddChunk(s, c).0 == s)
  {
    Bookkeeping(meta, cs);
  }

  /** Whatever chunks a session was given, corrupted or forged: what it assembles hashes to the
      file's digest, so it is the file wherever the digest tells the two apart. */
  lemma CorruptionDetected(sha: Digest, fileName: string, data: seq<byte>, mimeType: string, cs: seq<Chunk>,
                           r: Assembled)
    requires AssembleSpec(sha, AddAll(NewSession(CreateFileMetadata(sha, fileName, data, mimeType)), cs), r)
    ensures r.Ok? ==> sha(r.data) == sha(data)
    ensures r.Ok? && (sha(r.data) == sha(data) ==> r.data == data) ==> r == Ok(data)
  {
    Bookkeeping(CreateFileMetadata(sha, fileName, data, mimeType), cs);
  }

  lemma {:induction false} FullByCounting(keys: set<u32>, n: nat)
    requires |keys| >= n && n <= U32 && forall i :: i in keys ==> i < n
    ensures forall i: u32 :: i < n ==> i in keys
    decreases n
  {
    if n > 0 {
      var top: u32 := n - 1;
      if top in keys {
        FullByCounting(keys - {top}, n - 1);
        forall i: u32 | i < n ensures i in keys {
          assert i == top || i in keys - {top};
        }
      } else {
        BoundedCard(keys, n - 1);
      }
    }
  }

  lemma {:induction false} BoundedCard(keys: set<u32>, n: nat)
    requires n <= U32 && forall i :: i in keys ==> i < n
    ensures |keys| <= n
    decreases n
  {
    if n > 0 {
      var top: u32 := n - 1;
      BoundedCard(keys - {top}, n - 1);
    } else {
      assert keys == {};
    }
  }

  /** When every chunk added is in range, a completed session misses no chunk, so `assemble`
      cannot fail for a missing one. */
  lemma {:induction false} CompletionByCounting(sha: Digest, meta: Metadata, cs: seq<Chunk>, r: Assembled)
    requires forall i :: 0 <= i < |cs| ==> cs[i].header.index < meta.chunkCount
    requires AssembleSpec(sha, AddAll(NewSession(meta), cs), r)
    ensures var s := AddAll(NewSession(meta), cs);
      s.completed ==> AllPresent(s, s.total) && !r.MissingChunk?
  {
    var s := AddAll(NewSession(meta), cs);
    Bookkeeping(meta, cs);
    if s.completed {
      assert |s.chunks.Keys| >= s.total;
      FullByCounting(s.chunks.Keys, s.total);
    }
  }

  // ------------------------------------------------------------------
  // End to end
  // ------------------------------------------------------------------

  /** What the receiver does with one frame off the wire. */
  function Accept(s: Session, frame: seq<byte>): Session {
    var d := Deserialize(frame);
    if d.Parsed? then AddChunk(s, d.value).0 else s
  }

  function AcceptAll(s: Session, frames: seq<seq<byte>>): Session {
    if frames == [] then s else Accept(AcceptAll(s, frames[..|frames| - 1]), frames[|frames| - 1])
  }

  /** Every chunk held is the file's chunk of that index. */
  predicate HoldsFile(id: seq<byte>, data: seq<byte>, s: Session) {
    && Covers(s.total, data)
    && (forall i :: i in s.chunks ==> i < s.total && s.chunks[i] == ChunkAt(id, s.total, data, i).data)
  }

  /** The counter counts the chunks held, and the session is complete once it is full. */
  predicate CountsExactly(s: Session) {
    && s.received == |s.chunks| <= s.total
    && (s.completed <==> s.total > 0 && |s.chunks| >= s.total)
  }

  predicate Faithful(id: seq<byte>, data: seq<byte>, s: Session) {
    HoldsFile(id, data, s) && CountsExactly(s)
  }

  lemma FaithfulBound(id: seq<byte>, data: seq<byte>, s: Session, c: Chunk)
    requires Faithful(id, data, s) && c.header.index < s.total && c.header.index !in s.chunks
    ensures |s.chunks| + 1 <= s.total
  {
    var keys := s.chunks.Keys + {c.header.index};
    assert forall i :: i in keys ==> i < s.total;
    BoundedCard(keys, s.total);
    assert |s.chunks.Keys| == |s.chunks|;
  }

  /** Accepting a chunk's frame adds its data under its index. */
  lemma AcceptAdds(s: Session, c: Chunk)
    requires c.header.size == |c.data|
    ensures var id := ReadId(Pad(c.header.transferId, 32));
      Accept(s, Frame(c)) == AddChunk(s, c.(header := c.header.(transferId := id))).0
  {
    FrameReads(c);
    assert c.data[..|c.data|] == c.data;
  }

  lemma AddHolds(id: seq<byte>, data: seq<byte>, s: Session, c: Chunk)
    requires HoldsFile(id, data, s) && c.header.index < s.total
    requires c.data == ChunkAt(id, s.total, data, c.header.index).data
    ensures HoldsFile(id, data, AddChunk(s, c).0)
  {}

  lemma AddCountsExactly(s: Session, c: Chunk)
    requires CountsExactly(s) && (c.header.index !in s.chunks ==> |s.chunks| + 1 <= s.total)
    ensures CountsExactly(AddChunk(s, c).0)
  {}

  lemma AddFaithful(id: seq<byte>, data: seq<byte>, s: Session, c: Chunk)
    requires Faithful(id, data, s) && c.header.index < s.total
    requires c.data == ChunkAt(id, s.total, data, c.header.index).data
    ensures var t := AddChunk(s, c).0;
      && Faithful(id, data, t) && t.total == s.total && t.fileHash == s.fileHash
      && t.chunks.Keys == s.chunks.Keys + {c.header.index}
  {
    if c.header.index !in s.chunks { FaithfulBound(id, data, s, c); }
    AddHolds(id, data, s, c);
    AddCountsExactly(s, c);
  }

  lemma AcceptFaithful(id: seq<byte>, data: seq<byte>, s: Session, i: u32)
    requires Faithful(id, data, s) && i < s.total
    ensures var t := Accept(s, Frame(ChunkAt(id, s.total, data, i)));
      && Faithful(id, data, t) && t.total == s.total && t.fileHash == s.fileHash
      && t.chunks.Keys == s.chunks.Keys + {i}
  {
    var c := ChunkAt(id, s.total, data, i);
    AcceptAdds(s, c);
    AddFaithful(id, data, s, c.(header := c.header.(transferId := ReadId(Pad(id, 32)))));
  }

  /** A frame on the wire: the chunk it carries, and how many of its bytes arrive. */
  datatype Arrival = Arrival(index: u32, kept: nat)

  predicate AllBelow(total: u32, order: seq<Arrival>) {
    forall k :: 0 <= k < |order| ==> order[k].index < total
  }

  function Wire(id: seq<byte>, total: u32, data: seq<byte>, a: Arrival): seq<byte>
    requires Covers(total, data) && a.index < total
  {
    Cut(Frame(ChunkAt(id, total, data, a.index)), a.kept)
  }

  predicate Intact(id: seq<byte>, total: u32, data: seq<byte>, a: Arrival)
    requires Covers(total, data) && a.index < total
  {
    a.kept >= |Frame(ChunkAt(id, total, data, a.index))|
  }

  function FramesOf(id: seq<byte>, total: u32, data: seq<byte>, order: seq<Arrival>): seq<seq<byte>>
    requires Covers(total, data) && AllBelow(total, order)
  {
    seq(|order|, k requires 0 <= k < |order| => Wire(id, total, data, order[k]))
  }

  /** The chunks of which a whole frame arrives. */
  function IntactIndices(id: seq<byte>, total: u32, data: seq<byte>, order: seq<Arrival>): set<u32>
    requires Covers(total, data) && AllBelow(total, order)
  {
    if order == [] then {}
    else
      var front, last := IntactIndices(id, total, data, order[..|order| - 1]), order[|order| - 1];
      if Intact(id, total, data, last) then front + {last.index} else front
  }

  lemma FramesSnoc(id: seq<byte>, total: u32, data: seq<byte>, order: seq<Arrival>)
    requires order != [] && Covers(total, data) && AllBelow(total, order)
    ensures var fs := FramesOf(id, total, data, order);
      && AllBelow(total, order[..|order| - 1])
      && fs[..|fs| - 1] == FramesOf(id, total, data, order[..|order| - 1])
      && fs[|fs| - 1] == Wire(id, total, data, order[|order| - 1])
  {}

  /** The session is the file's, and holds exactly the chunks of these indices. */
  predicate Delivered(id: seq<byte>, data: seq<byte>, meta: Metadata, s: Session, indices: set<u32>) {
    && Faithful(id, data, s) && s.total == meta.chunkCount && s.fileHash == meta.fileHash
    && s.chunks.Keys == indices
  }

  lemma DeliverOne(id: seq<byte>, data: seq<byte>, meta: Metadata, s: Session, indices: set<u32>, a: Arrival)
    requires Delivered(id, data, meta, s, indices) && a.index < meta.chunkCount
    ensures Delivered(id, data, meta, Accept(s, Wire(id, meta.chunkCount, data, a)),
                      if Intact(id, meta.chunkCount, data, a) then indices + {a.index} else indices)
  {
    var c := ChunkAt(id, meta.chunkCount, data, a.index);
    if Intact(id, meta.chunkCount, data, a) {
      AcceptFaithful(id, data, s, a.index);
      assert Frame(c)[..|Frame(c)|] == Frame(c);
    } else {
      FrameCutShort(c, a.kept);
    }
  }

  lemma {:induction false} DeliverFaithful(id: seq<byte>, data: seq<byte>, meta: Metadata, order: seq<Arrival>)
    requires Covers(meta.chunkCount, data) && AllBelow(meta.chunkCount, order)
    ensures Delivered(id, data, meta, AcceptAll(NewSession(meta), FramesOf(id, meta.chunkCount, data, order)),
                      IntactIndices(id, meta.chunkCount, data, order))
    decreases |order|
  {
    if order != [] {
      var front, last := order[..|order| - 1], order[|order| - 1];
      FramesSnoc(id, meta.chunkCount, data, order);
      var s := AcceptAll(NewSession(meta), FramesOf(id, meta.chunkCount, data, front));
      DeliverFaithful(id, data, meta, front);
      DeliverOne(id, data, meta, s, IntactIndices(id, meta.chunkCount, data, front), last);
    }
  }

  lemma {:induction false} GatherIsJoined(id: seq<byte>, data: seq<byte>, s: Session, n: u32)
    requires Faithful(id, data, s) && n <= s.total && AllPresent(s, n)
    ensures Gather(s.chunks, n) == Joined(id, s.total, data, n)
    decreases n
  {
    if n > 0 {
      assert (n - 1) as u32 in s.chunks;
      GatherIsJoined(id, data, s, n - 1);
    }
  }

  lemma MetadataCovers(sha: Digest, fileName: string, mimeType: string, data: seq<byte>)
    ensures var total := CreateFileMetadata(sha, fileName, data, mimeType).chunkCount;
      && Covers(total, data)
      && (ChunksFor(|data|) < U32 ==> total == ChunksFor(|data|) && (total > 0 <==> data != []))
  {
    CountBounds(|data|);
  }

  /** The receiver's session after the frames of `order` have been handed to it; one that does
      not decode leaves it as it is. */
  function Received(sha: Digest, fileName: string, mimeType: string, id: seq<byte>, data: seq<byte>,
                    order: seq<Arrival>): Session
    requires AllBelow(CreateFileMetadata(sha, fileName, data, mimeType).chunkCount, order)
  {
    MetadataCovers(sha, fileName, mimeType, data);
    var meta := CreateFileMetadata(sha, fileName, data, mimeType);
    AcceptAll(NewSession(meta), FramesOf(id, meta.chunkCount, data, order))
  }

  /** Of chunk i a whole frame arrives. */
  predicate Arrives(id: seq<byte>, total: u32, data: seq<byte>, order: seq<Arrival>, i: u32)
    requires Covers(total, data) && AllBelow(total, order)
  {
    exists k :: 0 <= k < |order| && order[k].index == i && Intact(id, total, data, order[k])
  }

  /** So of each of the first `count` chunks. */
  predicate EachIntact(id: seq<byte>, total: u32, data: seq<byte>, count: nat, order: seq<Arrival>)
    requires Covers(total, data) && AllBelow(total, order)
  {
    forall i: u32 :: i < count ==> Arrives(id, total, data, order, i)
  }

  lemma {:induction false} IntactAt(id: seq<byte>, total: u32, data: seq<byte>, order: seq<Arrival>, k: nat)
    requires Covers(total, data) && AllBelow(total, order) && k < |order| && Intact(id, total, data, order[k])
    ensures order[k].index in IntactIndices(id, total, data, order)
    decreases |order|
  {
    if k < |order| - 1 { IntactAt(id, total, data, order[..|order| - 1], k); }
  }

  lemma {:induction false} IntactFrom(id: seq<byte>, total: u32, data: seq<byte>, order: seq<Arrival>, i: u32)
    returns (k: nat)
    requires Covers(total, data) && AllBelow(total, order) && i in IntactIndices(id, total, data, order)
    ensures k < |order| && order[k].index == i && Intact(id, total, data, order[k])
    decreases |order|
  {
    k := |order| - 1;
    if !(order[k].index == i && Intact(id, total, data, order[k])) {
      k := IntactFrom(id, total, data, order[..|order| - 1], i);
    }
  }

  lemma PresentIffIntact(id: seq<byte>, data: seq<byte>, s: Session, order: seq<Arrival>, n: nat)
    requires Covers(s.total, data) && AllBelow(s.total, order)
    requires s.chunks.Keys == IntactIndices(id, s.total, data, order)
    ensures AllPresent(s, n) <==> EachIntact(id, s.total, data, n, order)
  {
    forall i: u32 ensures i in s.chunks <==> Arrives(id, s.total, data, order, i) {
      if i in s.chunks { var k := IntactFrom(id, s.total, data, order, i); }
      if Arrives(id, s.total, data, order, i) {
        var k :| 0 <= k < |order| && order[k].index == i && Intact(id, s.total, data, order[k]);
        IntactAt(id, s.total, data, order, k);
      }
    }
  }

  lemma ReceivedDelivered(sha: Digest, fileName: string, mimeType: string, id: seq<byte>, data: seq<byte>,
                          order: seq<Arrival>)
    requires AllBelow(CreateFileMetadata(sha, fileName, data, mimeType).chunkCount, order)
    ensures var meta := CreateFileMetadata(sha, fileName, data, mimeType);
      && Covers(meta.chunkCount, data)
      && Delivered(id, data, meta, Received(sha, fileName, mimeType, id, data, order),
                   IntactIndices(id, meta.chunkCount, data, order))
  {
    MetadataCovers(sha, fileName, mimeType, data);
    DeliverFaithful(id, data, CreateFileMetadata(sha, fileName, data, mimeType), order);
  }

  lemma AssembleFaithful(sha: Digest, id: seq<byte>, data: seq<byte>, s: Session, r: Assembled)
    requires Faithful(id, data, s) && s.fileHash == sha(data) && AssembleSpec(sha, s, r)
    ensures r == Ok(data) <==> AllPresent(s, s.total) && Joined(id, s.total, data, s.total) == data
    ensures AllPresent(s, s.total) ==> (s.completed <==> s.total > 0)
  {
    if AllPresent(s, s.total) {
      GatherIsJoined(id, data, s, s.total);
      FullCard(s.chunks.Keys, s.total);
      assert |s.chunks.Keys| == |s.chunks|;
    }
  }

  /** For every file and every delivery of its frames, in any order, with any losses, repeats
      and truncations: `assemble` returns exactly the file if and only if its chunk count fits
      a u32 and of each chunk a whole frame arrives. Then the session is complete if and only
      if the file is not empty. */
  lemma TransferEndToEnd(sha: Digest, fileName: string, mimeType: string, id: seq<byte>, data: seq<byte>,
                         order: seq<Arrival>, r: Assembled)
    requires AllBelow(CreateFileMetadata(sha, fileName, data, mimeType).chunkCount, order)
    requires AssembleSpec(sha, Received(sha, fileName, mimeType, id, data, order), r)
    ensures var total := CreateFileMetadata(sha, fileName, data, mimeType).chunkCount;
      && Covers(total, data)
      && (r == Ok(data) <==> ChunksFor(|data|) < U32 && EachIntact(id, total, data, ChunksFor(|data|), order))
    ensures r == Ok(data) ==> (Received(sha, fileName, mimeType, id, data, order).completed <==> data != [])
  {
    var s := Received(sha, fileName, mimeType, id, data, order);
    ReceivedDelivered(sha, fileName, mimeType, id, data, order);
    AssembleFaithful(sha, id, data, s, r);
    JoinedIsFile(sha, fileName, mimeType, id, data);
    MetadataCovers(sha, fileName, mimeType, data);
    PresentIffIntact(id, data, s, order, s.total);
  }

  lemma {:induction false} FullCard(keys: set<u32>, n: u32)
    requires forall i: u32 :: i < n ==> i in keys
    ensures |keys| >= n
    decreases n
  {
    if n > 0 {
      var top: u32 := n - 1;
      FullCard(keys - {top}, n - 1);
    }
  }

  /** The frame of one small chunk, byte by byte. */
  lemma KnownFrame()
    ensures Frame(Chunk(ChunkHeader([0x61, 0x62], 0x0102_0304, 5, 3, true), [7, 8, 9])) ==
      [0x61, 0x62] + Zeros(30) + [1, 2, 3, 4] + [0, 0, 0, 0, 0, 0, 0, 5] + [0, 0, 0, 3] + [1] + [7, 8, 9]
  {
    KnownWords();
  }
}
