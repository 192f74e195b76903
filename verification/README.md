# Verified models of the Zero core engines

This project models, in Dafny 4.11, the stateful engines of Zero's Rust core and the id encoder of
its Flutter client, and proves what they guarantee over whole runs, and exactly where the code
falls short of it.

`dafny verify dfyconfig.toml` checks everything.

## Layout

| files | what they model |
|---|---|
| `Bytes`, `Fields` | machine words, positional notation, big-endian words, NUL-padded id fields |
| `Utf8`, `Utf8Scalars` | UTF-8 and its lossy reading, as ids are read; the same against the encoding of scalar values |
| `Ratchet`, `RatchetState` | one Double Ratchet party: transitions on values, and the mutable state proved against them |
| `RatchetChain` | one chain: closed forms of the fast-forward loops, in-order and out-of-order delivery |
| `RatchetParty` | everything one party sends, over any run and whatever it is handed |
| `RatchetSystem`, `RatchetDelivery` | two parties and two lossy channels: the lead invariant, root agreement, delivery |
| `RatchetAsWritten` | what the code as written delivers, over any network |
| `RatchetFrame` | the wire format |
| `RatchetToy`, `RatchetExamples` | an instance with the assumed laws; concrete runs, good and bad |
| `FileTransfer`, `TransferSession` | chunked transfer from file to file |
| `DasnStore`, `DasnStorage` | the content-addressed store with pinning and eviction |
| `GroupKeys`, `GroupKeyManager` | replicas of a group's keys |
| `GroupSecrecy`, `GroupToy` | when group keys are equal and who is locked out; an instance with concrete histories |
| `Base32` | the base-32 encoder and zero ids |
| `DerivationPath`, `DerivationTree` | derivation paths and key derivation; when two paths give one key |
| `BleProtocol`, `BleNode` | BLE frames, the bounded queue, the sequence counter |

Code that changes fields is a class whose methods are proved equal to functions on values; the
theorems are about those functions. In the table below a method's row says what its result or new
state is, and the lemma rows say what that means.

## Conventions

- **Primitives.** X25519, HKDF, HMAC, SHA, the AEADs and Ed25519 are function parameters. Two laws
  are assumed of all their arguments: DH commutes, and opening inverts sealing. Every other law says
  that keys differ, or that a ciphertext opens only under its own key, and is a precondition about
  the keys, positions and messages of the run in question alone: `HalvesSeparate` and
  `OpensOnlyOwnKey` over the roots and messages a run has seen (kept as history) and the positions
  it can reach, `ChainKeysDistinct` and `OwnKeyOnly` over one chain, `RootStepSeparates` over two
  roots and four DH outputs, `RootTellsInputs` over the inputs of the root steps compared,
  `FirstKeySeparates` over one message and one root, `DigestSeparates` over what SHA-256 is given for
  two group states, `MacSeparates` over what HMAC-SHA512 is given along two paths. Where
  plaintexts are chosen without knowledge of the keys, the runs anyone can reach meet these except
  with negligible probability.
  `RatchetToy`, `GroupToy` and `DerivationTree.MacLaw` give instances in which they hold. Sealing does not
  fail.
- **Integers.** A `u32` or `u64` counter that can pass its maximum wraps, as in a release build.
  Slice lengths fit `usize`.
- **Panics.** A decoder that slices past its own length check has a third outcome, `Panicked`, so no
  input is excluded. A receiver that survives such a panic has added nothing.
- **Inputs.** Random secrets, timestamps and JSON payloads are parameters. Identifiers are the bytes
  of Rust strings, so well-formed UTF-8 where they are written and repaired as
  `String::from_utf8_lossy` does where they are read. The order in which a hash map is iterated is a
  parameter, and theorems hold for every such order.

## Where the code departs from its tests

The ratchet model carries two switches, `Variant(senderHalf, keepSkipped)`. The code as written is
`Variant(false, false)`; each switch changes the lines named.

- `senderHalf`: `dh_ratchet_recv` takes its receive chain from the second half of the root after
  *both* DH steps (`rust/src/crypto/double_ratchet.rs:272-283`), but the sender used the first half
  of the root after one (lines 254-260). Roots agree in every run (`ExactlyOneAhead`,
  `FirstRootIsSenders`), chains never do: with the switch on every delivery returns the plaintext,
  with it off it returns nothing (`DeliveryIffSenderHalf`), even over a network that reorders and
  repeats and with any number of messages on a chain (`NothingDelivered`). `FirstDelivery` is the
  smallest such run. The tests at lines 463-492, 495-518 and 559-582 expect the plaintexts.
- `keepSkipped`: the fast-forward loop (lines 226-234) drops the keys it passes; the loop that
  stores them (369-385) is reached only when its guard is already false. As written the map of
  skipped keys is empty in every reachable state (`SenderCounters`), and a chain's messages all open
  if and only if they arrive in increasing order (`AllOpenIffInOrder`); storing them, any order
  opens each message, once (`OutOfOrder`, `OutOfOrderStep`). `ReversedPair` shows two messages.
- The receive state advances whether or not decryption succeeds (236-244), so a late or repeated
  message spends a fresh key (`LateMessageSpendsAKey`).
- A sender that has sent 100 messages without a reply draws a new DH key (162-164) which the
  receiver cannot follow: one more send keeps exactly one party one step ahead if and only if that
  guard is false (`SendKeepsLeadIff`); where it is true the receiver's first root is not the
  sender's, and even with the sender's half the message does not open (`RefreshNotFollowed`).
  `HundredAndFirst` is such a run.
- Of a file of 2^32 chunks or more the split keeps only a prefix (`JoinedIsFile`), and assembling
  never returns the file (`TransferEndToEnd`). A BLE payload is cut to its length modulo 65536
  (`BleProtocol.FrameDecodes`).
- A store that has evicted once stores whatever room that made, so it can end over its capacity;
  `CapacityIff` says when, and `PinnedStoreOverflows` is such a store.
- A key stored for a late message can be used only while the peer's DH key is the one it was stored
  under: a message under any other key runs a DH step first (207-214) and never reaches the stored
  keys (`StoredKeyNotTried`), which wait unused (`StoredKeysWait`).
- After a DH step on receipt the announced previous chain length is 0, however many messages that
  chain carried (`AnnouncedLengths`).
- A sender key hashes group and member without a separator (`rust/src/p2p/group_e2ee.rs:99-107`), so
  two pairs that concatenate to the same bytes share their keys (`SenderKeysIff`).
- The unhardened spelling of an index of 2^31 or more is accepted and means the hardened index
  (`ParsePartIff`).

## Model

| member | source | states |
|---|---|---|
| `RatchetDelivery.DeliveryIffSenderHalf` | rust/src/crypto/double_ratchet.rs:207-287 | In every run of two matched parties over lossy channels, both sending at will, the next delivery returns exactly the plaintext sealed in the message when the receive chain comes from the sender's half of the root; as written it returns nothing |
| `RatchetDelivery.ExactlyOneAhead` | rust/src/crypto/double_ratchet.rs:247-287 | After the first message of any run, with anything in flight, exactly one party is one root step ahead of the other, for the code as written and every variant |
| `RatchetDelivery.FirstRootIsSenders` | rust/src/crypto/double_ratchet.rs:265-273 | Whenever a delivery would run a DH step, the first root of that step is the root that seeded the sender's chain and is the sender's present root |
| `RatchetDelivery.SendKeepsLeadIff` | rust/src/crypto/double_ratchet.rs:161-164 | One more send by either party leaves exactly one party one step ahead if and only if its sender has a chain that has carried fewer than 100 messages |
| `RatchetDelivery.RefreshNotFollowed` | rust/src/crypto/double_ratchet.rs:161-164 | Where that guard is true, the receiver's first root differs from the sender's and the message, were it the next given to it, returns nothing even with the sender's half |
| `RatchetExamples.FirstDelivery` | rust/src/crypto/double_ratchet.rs:463-492 | A concrete enabled run of one message: nothing is returned as written, the plaintext with the sender's half |
| `RatchetExamples.SendsReach` | rust/src/crypto/double_ratchet.rs:161-175 | From any start up to 100 sends are enabled, all on one chain, and the guard is met exactly at the hundredth |
| `RatchetExamples.HundredAndFirst` | rust/src/crypto/double_ratchet.rs:161-164 | A concrete run of 100 sends whose next send loses the lead, puts its root out of reach and does not open |
| `RatchetExamples.ReversedPair` | rust/src/crypto/double_ratchet.rs:559-582 | Two messages of one chain in reverse: as written the second is lost, with stored keys both open |
| `RatchetDelivery.RunLed` | rust/src/crypto/double_ratchet.rs:161-287 | The inductive invariant of every run: before the first message idle, afterwards led, with every message in flight under the chain and root the receiver will compute |
| `RatchetDelivery.RunWorking` | rust/src/crypto/double_ratchet.rs:207-287 | With the sender's half, every run also keeps each receiver able to open every message in its channel |
| `RatchetAsWritten.NothingDelivered` | rust/src/crypto/double_ratchet.rs:207-287 | As written, whatever the network loses, reorders or repeats, whoever speaks first and however many messages a chain carries, every delivery of every run returns nothing |
| `RatchetAsWritten.RunTraced` | rust/src/crypto/double_ratchet.rs:265-287 | Its invariant: every receive chain and stored key stems from the receive half of a root of the run, at most 100 steps on per event |
| `RatchetAsWritten.ReceiveRecvSide` | rust/src/crypto/double_ratchet.rs:218-245 | One receipt tries a key of the receive half only, whichever of its three paths it takes |
| `RatchetSystem.StartIdle` | rust/src/crypto/double_ratchet.rs:110-158 | The states of `alice_initial` and `bob_initial` from one shared secret and each other's DH publics have equal roots and are a valid start of every run |
| `RatchetSystem.RatchetSwapsLead` | rust/src/crypto/double_ratchet.rs:265-287 | A message under the leader's new DH key hands the lead to its receiver |
| `RatchetSystem.SuitesKept` | rust/src/crypto/double_ratchet.rs:161-205 | From the states of `alice_initial` and `bob_initial`, in every run every message in flight from a party is sealed under, and labelled with, the cipher suite that party was created with |
| `RatchetChain.LossyInOrder` | rust/src/crypto/double_ratchet.rs:218-245 | A receiver in sync with a chain opens any increasing subsequence of its messages, and ends one past the last one with the chain advanced as often, as written and in every variant |
| `RatchetChain.AllOpenIffInOrder` | rust/src/crypto/double_ratchet.rs:222-244 | Keys discarded as written: of one chain's messages, in any order with losses and repeats, all open if and only if each number is above the counter and all before it |
| `RatchetChain.OutOfOrder` | rust/src/crypto/double_ratchet.rs:356-396 | Keys stored: any order of delivery opens each message of the chain, and the map always holds exactly the undelivered numbers below the counter, with the right keys |
| `RatchetChain.OutOfOrderStep` | rust/src/crypto/double_ratchet.rs:356-396 | Keys stored: a single delivery keeps the map exact if and only if the message was not delivered before |
| `RatchetChain.ReceiveAhead` | rust/src/crypto/double_ratchet.rs:226-244 | A message at or above the counter is opened with the chain advanced to its number, and the new chain, counter and index do not depend on whether it opened |
| `RatchetChain.LateMessageSpendsAKey` | rust/src/crypto/double_ratchet.rs:356-396 | A late or repeated message with no stored key is tried with the next fresh key, and chain and counter move one step on |
| `RatchetChain.SkipToSpec` | rust/src/crypto/double_ratchet.rs:226-234 | Closed form of the fast-forward loop: counter at the target, chain advanced by the distance, nothing else changed |
| `RatchetChain.SkipToStores` | rust/src/crypto/double_ratchet.rs:369-385 | The storing loop adds exactly the numbers it passes, each with the key of its position, and leaves every other entry alone |
| `RatchetParty.SenderCounters` | rust/src/crypto/double_ratchet.rs:161-205 | Over any run of one party, whatever it is handed: every message is labelled with the suite it was created with, header numbers are 0 to 99, the announced previous length is 0 or 100, chain key, index and counter agree, and as written no skipped key is ever held |
| `RatchetParty.NoHeaderReuse` | rust/src/crypto/double_ratchet.rs:161-205 | With fresh DH keys no pair of DH public and message number is ever sent twice |
| `RatchetParty.EncryptKeepsSending` | rust/src/crypto/double_ratchet.rs:161-205 | A sent message is sealed under the chain key of its own number counted from the send half of the current root |
| `RatchetParty.AnnouncedLengths` | rust/src/crypto/double_ratchet.rs:161-287 | With fresh DH keys each message announces how many went out under the key owned just before its own if its key was drawn to send; under a key drawn on receipt it announces none, however many went out before |
| `RatchetParty.InitialRootsIff` | rust/src/crypto/double_ratchet.rs:110-158 | Two parties start from equal roots exactly when the shared secrets and the DH outputs are equal |
| `RatchetParty.DhSendRootsIff` | rust/src/crypto/double_ratchet.rs:247-263 | Two sending DH steps end in equal roots exactly when the old roots and the new DH outputs are equal |
| `RatchetParty.DhRecvRootsIff` | rust/src/crypto/double_ratchet.rs:265-287 | Two receiving DH steps end in equal roots exactly when the old roots and both DH outputs, of the old key and the new one, are equal |
| `RatchetParty.StoredKeysWait` | rust/src/crypto/double_ratchet.rs:356-396 | What is stored for a DH key changes only when a message under that key arrives: no send, DH step or other message of any continuation loses it |
| `RatchetParty.StoredKeyNotTried` | rust/src/crypto/double_ratchet.rs:207-245 | A message under any other DH key than the last received is opened as if nothing were stored, even if its own key is, and leaves that key stored |
| `RatchetParty.FirstKeyOpensNothing` | rust/src/crypto/double_ratchet.rs:207-224 | As long as messages arrive only under the peer's DH key a party was created with, over any run, none is decrypted and none changes the state |
| `RatchetFrame.FrameRoundTrip` | rust/src/crypto/double_ratchet.rs:398-450 | A frame followed by anything decodes to the message with its ciphertext cut to its length modulo 2^32, hence to the message exactly when that length fits a u32 |
| `RatchetFrame.AcceptedFrame` | rust/src/crypto/double_ratchet.rs:418-450 | Every accepted frame re-serializes to exactly the prefix that was consumed |
| `RatchetFrame.FrameCutShort` | rust/src/crypto/double_ratchet.rs:418-450 | A frame cut short anywhere is refused, except that a cut within its length field makes the decoder panic |
| `RatchetFrame.KnownFrames` | rust/src/crypto/double_ratchet.rs:398-416 | The frames of two small messages, byte by byte |
| `RatchetFrame.DeliveryOverTheWire` | rust/src/crypto/double_ratchet.rs:398-450 | In any run with the sender's half, a message in flight may be serialized, deserialized and then decrypted to its plaintext |
| `RatchetFrame.Serialize` | rust/src/crypto/double_ratchet.rs:398-416 | The buffer filled field by field is the frame |
| `RatchetToy.BasicLaws` | rust/src/crypto/double_ratchet.rs:337-354 | In one instance DH commutes and opening inverts sealing |
| `RatchetToy.ChainLaws` | rust/src/crypto/double_ratchet.rs:298-321 | In it the keys of any chain differ, and its messages open only under their own |
| `RatchetToy.RunLaws` | rust/src/crypto/double_ratchet.rs:323-335 | In it the laws that separate the halves hold of every run of the code as written |
| `RatchetToy.RootLaws` | rust/src/crypto/double_ratchet.rs:289-296 | In it the laws that separate root steps hold of all roots and DH outputs |
| `RatchetStateClass.RatchetState.Alice` | rust/src/crypto/double_ratchet.rs:110-133 | The state Alice starts from |
| `RatchetStateClass.RatchetState.Bob` | rust/src/crypto/double_ratchet.rs:135-158 | The state Bob starts from |
| `RatchetStateClass.RatchetState.RatchetEncrypt` | rust/src/crypto/double_ratchet.rs:161-205 | New state and message are those of the value-level step, which `EncryptKeepsSending`, `SenderCounters`, `SuitesKept` and `AnnouncedLengths` pin field by field |
| `RatchetStateClass.RatchetState.RatchetDecrypt` | rust/src/crypto/double_ratchet.rs:207-245 | New state and result are those of the value-level step, for every variant |
| `RatchetStateClass.RatchetState.DhRatchetSend` | rust/src/crypto/double_ratchet.rs:247-263 | The whole new state of a sending DH step |
| `RatchetStateClass.RatchetState.DhRatchetRecv` | rust/src/crypto/double_ratchet.rs:265-287 | The whole new state of a receiving DH step |
| `RatchetStateClass.RatchetState.FastForward` | rust/src/crypto/double_ratchet.rs:226-234 | The in-place loop reaches the state whose closed form `SkipToSpec` and `SkipToStores` give |
| `RatchetStateClass.RatchetState.TrySkippedMessageKeys` | rust/src/crypto/double_ratchet.rs:356-396 | New state and result of the late-message path: a stored key is used and removed |
| `FileTransfer.TransferEndToEnd` | rust/src/p2p/transfer.rs:61-190 | For every file and every delivery of its frames, any order, losses, repeats and any frame cut short: assembling returns exactly the file if and only if its chunk count fits a u32 and each frame arrives whole at least once; then the session is complete if and only if the file is not empty |
| `FileTransfer.JoinedIsFile` | rust/src/p2p/transfer.rs:104-142 | The chunks joined in order are the file exactly when the chunk count fits a u32, and otherwise a prefix of it; splitting a file by its own metadata never slices out of range |
| `FileTransfer.ChunkShape` | rust/src/p2p/transfer.rs:119-142 | Each chunk carries the transfer id and its own length, its offset is the number of bytes before it, every chunk but the last is 262144 bytes, the last ends the file, it alone is marked last, none is empty |
| `FileTransfer.CompletionByCounting` | rust/src/p2p/transfer.rs:61-101 | When every chunk added is in range, a completed session holds every index and assembling cannot miss one |
| `FileTransfer.Bookkeeping` | rust/src/p2p/transfer.rs:61-76 | For arbitrary chunks: the map holds exactly the indices seen, the counters are its size and total length modulo their widths |
| `FileTransfer.FirstWriteWins` | rust/src/p2p/transfer.rs:61-67 | The first chunk added under an index is the one kept |
| `FileTransfer.AddAnswersNew` | rust/src/p2p/transfer.rs:61-76 | Whatever was added before, a chunk is taken exactly when its index is new, and changes nothing otherwise |
| `FileTransfer.CompletedIff` | rust/src/p2p/transfer.rs:71-73 | A session is complete, and stays so although its counter wraps, exactly once it was given at least one index and as many as the file has chunks |
| `FileTransfer.CorruptionDetected` | rust/src/p2p/transfer.rs:95-101 | Whatever chunks were added: bytes that assemble hash to the digest announced, so are the file unless they collide with it |
| `FileTransfer.FrameDecodes` | rust/src/p2p/transfer.rs:144-190 | Decoding a chunk's frame panics exactly when its size field exceeds its data, and else returns the chunk with its data cut to the size and its id to the whole characters that fit, then U+FFFD if one is cut through |
| `FileTransfer.FrameRoundTrip` | rust/src/p2p/transfer.rs:144-190 | A chunk round-trips exactly when size and data agree and the id fits its field without a trailing NUL, or loses only the end of a final U+FFFD, which the reader puts back |
| `FileTransfer.AcceptedFrame` | rust/src/p2p/transfer.rs:163-190 | Of every byte string: an accepted frame holds the data it announces, and re-serializes to the prefix consumed exactly when its last flag is 0 or 1 and its id field is UTF-8, but for a final U+FFFD cut short |
| `FileTransfer.FrameCutShort` | rust/src/p2p/transfer.rs:163-190 | A frame cut short is refused before its data and makes the decoder panic within it |
| `FileTransfer.KnownFrame` | rust/src/p2p/transfer.rs:144-161 | The frame of a small chunk, byte by byte |
| `FileTransfer.AssembleUnique` | rust/src/p2p/transfer.rs:85-101 | The specification of assembling, least missing index or hash mismatch or the bytes, determines the result |
| `FileTransfer.AssembleFrom` | rust/src/p2p/transfer.rs:85-101 | The specification of assembling always has a result |
| `FileTransfer.SplitIntoChunks` | rust/src/p2p/transfer.rs:119-142 | The loop returns as many chunks as announced, the i-th being the slice at i times the chunk size |
| `FileTransfer.SerializeChunk` | rust/src/p2p/transfer.rs:144-161 | The buffer filled field by field is the frame |
| `TransferSessionClass.TransferSession.Add` | rust/src/p2p/transfer.rs:61-76 | New session and answer are those of the value-level step |
| `TransferSessionClass.TransferSession.Assemble` | rust/src/p2p/transfer.rs:85-101 | The loop returns the least missing index, or the chunks joined in order if they hash to the announced digest, or a mismatch |
| `DasnStore.RunValid` | rust/src/dasn/storage.rs:48-158 | In every reachable state both maps have the same keys and content ids, each key is the hex hash of its data, and usage is the total stored length, modulo 2^64 |
| `DasnStore.RemoveOneValid` | rust/src/dasn/storage.rs:152-157 | Removing an object keeps the books; while fewer than 2^64 bytes are stored usage is their number and the subtraction does not underflow |
| `DasnStore.EvictionNeverUnderflows` | rust/src/dasn/storage.rs:151-157 | Nor does any of the subtractions of a whole eviction |
| `DasnStore.EvictionChoice` | rust/src/dasn/storage.rs:143-158 | For every iteration order an eviction removes exactly ten unpinned objects, or all if fewer, never a pinned one, none counted higher than an unpinned survivor, and leaves survivors unchanged |
| `DasnStore.RunTells` | rust/src/dasn/storage.rs:48-115 | Over any run every stored object holds the data, type, time and pin flag its operations gave it, and an access count that is, modulo 2^64, the number of retrievals and repeated stores since it was last inserted |
| `DasnStore.EvictsLeastUsed` | rust/src/dasn/storage.rs:143-158 | An eviction after any run, for every iteration order: what goes was not pinned, and was retrieved and stored again no more often than any unpinned object that stays |
| `DasnStore.RetrieveTells` | rust/src/dasn/storage.rs:87-94 | What is retrieved after any run is the data last inserted under the key, if it is held |
| `DasnStore.ApplyKeys` | rust/src/dasn/storage.rs:48-115 | Which keys each operation leaves: a new store adds one and drops those of its eviction, and nothing else changes the keys or the capacity |
| `DasnStore.Answers` | rust/src/dasn/storage.rs:48-108 | Storing answers the content id held, or none exactly above 24 MB; pinning answers whether the object is held |
| `DasnStore.ReplicasAre` | rust/src/dasn/storage.rs:110-115 | Over any run, whatever is stored or evicted, the replicas of a key are those registered for it, in order |
| `DasnStore.PinnedStaysRetrievable` | rust/src/dasn/storage.rs:48-108 | An object pinned and not later unpinned stays retrievable with the same bytes through any run |
| `DasnStore.RetrieveIsContentAddressed` | rust/src/dasn/storage.rs:87-94 | After any run what is retrieved under a hash hashes to it |
| `DasnStore.StoreThenRetrieve` | rust/src/dasn/storage.rs:48-94 | What is stored can be retrieved under the returned hash: the very bytes if new, bytes of equal hash if not |
| `DasnStore.CapacityIff` | rust/src/dasn/storage.rs:61-84 | Storing new data adds its length and frees the lengths of the evicted objects; the store ends within capacity exactly when the data fitted before, or an eviction runs and those lengths cover what is missing |
| `DasnStore.FewUnpinnedCapacityIff` | rust/src/dasn/storage.rs:61-84 | With at most ten unpinned objects, for every iteration order: exactly when it fitted before, or an eviction runs and it fits beside the pinned objects |
| `DasnStore.AllPinnedGrows` | rust/src/dasn/storage.rs:61-84 | With everything pinned nothing is freed, whatever the capacity |
| `DasnStore.PinnedStoreOverflows` | rust/src/dasn/storage.rs:61-84 | A reachable one-megabyte store, filled by a pinned object, that a one-byte store leaves over its capacity |
| `DasnStore.HexInjective` | rust/src/dasn/storage.rs:54 | Distinct digests have distinct keys |
| `DasnStore.KnownHex` | rust/src/dasn/storage.rs:54 | Digits are lower-case, high half first |
| `DasnStorageClass.DasnStorage.StoreData` | rust/src/dasn/storage.rs:48-85 | New store and content id are those of the value-level step, and right books stay right |
| `DasnStorageClass.DasnStorage.RetrieveData` | rust/src/dasn/storage.rs:87-94 | New store and bytes are those of the value-level step, whose access counts `RunTells` pins over runs, and right books stay right |
| `DasnStorageClass.DasnStorage.EvictLru` | rust/src/dasn/storage.rs:143-158 | Collecting, sorting and removing in place gives the value-level eviction, and right books stay right |
| `DasnStorageClass.DasnStorage.Pin` | rust/src/dasn/storage.rs:96-101 | Sets the flag of a stored object and changes nothing else, and says whether it was found |
| `DasnStorageClass.DasnStorage.Unpin` | rust/src/dasn/storage.rs:103-108 | Clears the flag of a stored object and changes nothing else, and says whether it was found |
| `DasnStorageClass.DasnStorage.AddReplica` | rust/src/dasn/storage.rs:110-115 | Appends the peer to the replicas of the content, creating the entry if need be, and changes nothing else |
| `GroupKeys.HistoryDetermines` | rust/src/p2p/group_e2ee.rs:26-97 | A replica's whole state for a group is a function of who created it last, how often it was ratcheted since, and who registered since the last ratchet |
| `GroupKeys.ReplicasAgree` | rust/src/p2p/group_e2ee.rs:79-97 | Replicas with the same creator and equally many ratchets and removals since have equal epochs and current keys |
| `GroupKeys.UnderstandsIff` | rust/src/p2p/group_e2ee.rs:45-77 | Of such replicas one opens what the other seals for a sender if and only if both or neither registered it since the last ratchet, or its own key coincides with the current key |
| `GroupKeys.CreatorUnderstoodAtFirst` | rust/src/p2p/group_e2ee.rs:26-34 | That coincidence is real for the creator before the first ratchet |
| `GroupKeys.OutcomeIff` | rust/src/p2p/group_e2ee.rs:26-97 | After any history an operation, sealing or opening fails for a missing group exactly when the group was never created, and then changes nothing |
| `GroupSecrecy.SenderKeysIff` | rust/src/p2p/group_e2ee.rs:99-107 | Two sender keys are equal if and only if group and member concatenate to the same bytes and the epochs are equal |
| `GroupSecrecy.DerivedKeysIff` | rust/src/p2p/group_e2ee.rs:109-116 | Two ratcheted keys are equal if and only if the keys they were ratcheted from and the epochs are |
| `GroupSecrecy.CurrentKeysIff` | rust/src/p2p/group_e2ee.rs:79-116 | After any numbers of ratchets two current keys are equal if and only if group and creator concatenate to the same bytes and the numbers are equal |
| `GroupSecrecy.RatchetMakesNewKey` | rust/src/p2p/group_e2ee.rs:79-97 | A ratchet or removal makes a current key that differs from every current key and every member's key the group held since it was created, whatever happened in between |
| `GroupSecrecy.UnderstandsByName` | rust/src/p2p/group_e2ee.rs:45-77 | Of any two replicas of a group, whatever their histories, the second opens what the first seals for a sender if and only if both hold for him a key of the same name, and else fails to decrypt |
| `GroupSecrecy.LockedOut` | rust/src/p2p/group_e2ee.rs:79-97 | A replica that stopped before a ratchet or removal fails to decrypt what is sealed after it, for any sender |
| `GroupToy.AeadLaws` | rust/src/p2p/group_e2ee.rs:45-77 | The laws assumed of the AEAD hold together of one instance |
| `GroupToy.DigestLaw` | rust/src/p2p/group_e2ee.rs:99-116 | The law assumed of the digest holds in it of every two histories with one-byte names and fewer than 2^32 ratchets |
| `GroupToy.BenMisunderstood` | rust/src/p2p/group_e2ee.rs:45-77 | Two concrete histories of which one replica seals for a member what the other cannot open |
| `GroupToy.BenLockedOut` | rust/src/p2p/group_e2ee.rs:89-97 | A concrete history in which a removed member cannot open what is sealed afterwards |
| `GroupKeyManagerClass.GroupKeyManager.CreateGroup` | rust/src/p2p/group_e2ee.rs:26-34 | New groups and answer are those of the value-level step |
| `GroupKeyManagerClass.GroupKeyManager.RegisterMember` | rust/src/p2p/group_e2ee.rs:36-43 | New groups and answer are those of the value-level step |
| `GroupKeyManagerClass.GroupKeyManager.RatchetGroup` | rust/src/p2p/group_e2ee.rs:79-87 | New groups and answer are those of the value-level step, whose keys `CurrentKeysIff` and `RatchetMakesNewKey` tell apart |
| `GroupKeyManagerClass.GroupKeyManager.RemoveMember` | rust/src/p2p/group_e2ee.rs:89-97 | Removing and then ratcheting in place is one value-level removal |
| `GroupKeyManagerClass.GroupKeyManager.EncryptGroupMessage` | rust/src/p2p/group_e2ee.rs:45-60 | The sealed bytes, or the missing group, of the value-level function, state unchanged |
| `GroupKeyManagerClass.GroupKeyManager.DecryptGroupMessage` | rust/src/p2p/group_e2ee.rs:62-77 | The opened bytes, or which of the two errors, of the value-level function, state unchanged |
| `Base32.StreamIsDigits` | lib/services/identity_service.dart:140-161 | At every integer width of 12 bits or more the streaming loop writes exactly the base-32 digits of the big-endian integer of the bytes, padded right with zero bits, as laid out in section 6 of RFC 4648 |
| `Base32.WidthIff` | lib/services/identity_service.dart:146-158 | The accumulator that is never masked is harmless for all inputs if and only if it is at least 12 bits wide |
| `Base32.DecodeInvertsEncode` | lib/services/identity_service.dart:140-161 | The positional decoder gives back every byte string |
| `Base32.EncodingInjective` | lib/services/identity_service.dart:140-161 | Byte strings of any lengths with equal encodings are equal |
| `Base32.Base32Encode` | lib/services/identity_service.dart:140-161 | The nested loops write the digits' letters |
| `Base32.ZeroIdIff` | lib/services/identity_service.dart:133-138 | Two hashes give the same zero id if and only if their leading 45 bits agree |
| `Base32.ZeroIdSpells` | lib/services/identity_service.dart:133-138 | A zero id is the letter Z and the nine base-32 letters of the leading 45 bits |
| `DerivationPath.ParsePrint` | rust/src/identity.rs:116-142 | Parsing the canonical printing of any non-empty index list returns that list |
| `DerivationPath.ParsePartIff` | rust/src/identity.rs:124-139 | A part parses to an index if and only if it spells it: its canonical printing or its plain decimal, behind an optional plus sign and leading zeros |
| `DerivationPath.PartErrorIff` | rust/src/identity.rs:124-135 | A refused part gives the overflow error exactly when it spells a hardened number from 2^31 to below 2^32, and else the invalid-index error |
| `DerivationPath.FirstErrorIff` | rust/src/identity.rs:121-142 | A path whose parts all parse is accepted; otherwise the error is that of the first bad part |
| `DerivationPath.PrefixNeeded` | rust/src/identity.rs:117-119 | The missing-prefix error is given exactly to paths that do not start with m and a slash |
| `DerivationPath.ParseDerivationPath` | rust/src/identity.rs:116-142 | The loop returns the indices of all parts or the error of the first bad one |
| `DerivationPath.SplitJoin` | rust/src/identity.rs:121 | Splitting undoes joining for parts without slashes |
| `DerivationPath.ZeroPathParses` | rust/src/identity.rs:69-94 | The hard-coded path parses to the hard-coded indices |
| `DerivationPath.DeriveKeypair` | rust/src/identity.rs:68-95 | Every path but the master's derives along its parsed indices, the hard-coded special case included |
| `DerivationPath.DeriveFromIndices` | rust/src/identity.rs:97-114 | The loop is the fold of child derivation over the indices, which `NodesIff` and `EachStepMacs` pin |
| `DerivationPath.AlongConcat` | rust/src/identity.rs:97-104 | Deriving along a concatenation is deriving in two stages |
| `DerivationPath.PathExtends` | rust/src/identity.rs:68-142 | The keypair of a printed path is reached from the key and chain code derived for any printed prefix of it |
| `DerivationTree.ChildrenIff` | rust/src/identity.rs:157-175 | Two child keys with chain codes are equal if and only if the parents and the indices are |
| `DerivationTree.NodesIff` | rust/src/identity.rs:97-104 | Two derivations from two seeds end in equal keys and chain codes if and only if the seeds and the whole index lists are equal, whatever their lengths |
| `DerivationTree.SameKeypairIff` | rust/src/identity.rs:68-142 | Two accepted paths, however spelled, give equal keypairs if and only if the seeds are equal and the paths stand for the same indices |
| `DerivationTree.PrintedPathsIff` | rust/src/identity.rs:68-142 | Two printed paths give equal keypairs if and only if their index lists are equal |
| `DerivationTree.EachStepMacs` | rust/src/identity.rs:144-175 | The master key and chain code are the halves of the MAC of the seed under its fixed key, and each further index gives, under the chain code, the halves of the MAC of a zero byte, the secret key and the index |
| `DerivationTree.MacLaw` | rust/src/identity.rs:144-175 | The law assumed of the MAC holds of one instance, for any two paths of up to eight indices |
| `BleProtocol.QueueIsSuffix` | rust/src/ble/protocol.rs:173-182 | Over every run the queue is a suffix of the enqueued history, at most 100 long, and what was dequeued is a strictly ordered subsequence of the rest |
| `BleProtocol.NothingLostIff` | rust/src/ble/protocol.rs:173-182 | Dequeued and queued messages together are the enqueued history, in order, exactly in the runs that never enqueue on a full queue |
| `BleProtocol.LeaveInSequence` | rust/src/ble/protocol.rs:63-90 | Messages enqueued in creation order leave with strictly increasing sequence numbers, whatever the queue drops, before the u32 counter wraps |
| `BleProtocol.NumbersRepeatIff` | rust/src/ble/protocol.rs:63-90 | Two created messages share a number if and only if a multiple of 2^32 creations lies between them |
| `BleProtocol.CreatedAsAsked` | rust/src/ble/protocol.rs:63-90 | Over any run the i-th message created has the type, payload and time asked for, this node as sender, number i + 1 modulo 2^32, and asks to be acknowledged |
| `BleProtocol.FrameDecodes` | rust/src/ble/protocol.rs:92-159 | A frame followed by anything decodes to the message with the whole characters of the id that fit 12 bytes, then U+FFFD if one is cut through, trailing NULs trimmed, and the first (length modulo 65536) payload bytes |
| `BleProtocol.AsciiFrameDecodes` | rust/src/ble/protocol.rs:92-159 | For an ASCII id that is its first 12 bytes, trailing NULs trimmed |
| `BleProtocol.FrameRoundTrip` | rust/src/ble/protocol.rs:92-159 | A message round-trips exactly when its payload length fits a u16 and its id fits the field without a trailing NUL, or loses only the end of a final U+FFFD, which the reader puts back |
| `BleProtocol.AcceptedFrame` | rust/src/ble/protocol.rs:121-159 | An accepted frame re-serializes to the prefix consumed exactly when its acknowledge byte is 0 or 1 and its id field is UTF-8, but for a final U+FFFD cut short |
| `BleProtocol.FrameCutShort` | rust/src/ble/protocol.rs:121-159 | A frame cut short is refused, except that a cut within the four bytes before its payload makes the decoder panic |
| `BleProtocol.KnownFrames` | rust/src/ble/protocol.rs:92-119 | The frame of a small message of each type, byte by byte |
| `BleProtocol.SerializeMessage` | rust/src/ble/protocol.rs:92-119 | The buffer filled field by field is the frame |
| `BleNodeClass.BleNode.EnqueueMessage` | rust/src/ble/protocol.rs:173-178 | A full queue loses its oldest message to the new one |
| `BleNodeClass.BleNode.DequeueMessage` | rust/src/ble/protocol.rs:180-182 | The oldest message leaves, or nothing from an empty queue |
| `BleNodeClass.BleNode.CreateTextMessage` | rust/src/ble/protocol.rs:63-73 | New counter and message are those of the value-level step |
| `BleNodeClass.BleNode.CreateContactExchange` | rust/src/ble/protocol.rs:75-90 | New counter and message are those of the value-level step |
| `Fields.PadLossless` | rust/src/p2p/transfer.rs:147-171 | A string written to its field and read back is unchanged exactly when it fits and does not end in NUL, or is cut inside a final U+FFFD |
| `Fields.ReadPad` | rust/src/ble/protocol.rs:104-138 | It reads back as its whole characters that fit, then U+FFFD if one is cut through, without trailing NULs |
| `Fields.RereadIff` | rust/src/ble/protocol.rs:104-138 | A field read and written back is unchanged exactly when it is UTF-8, but for a final U+FFFD cut short |
| `Utf8.RepairIsWellFormed` | rust/src/ble/protocol.rs:136 | What is read is UTF-8 |
| `Utf8.RepairKeeps` | rust/src/ble/protocol.rs:136 | UTF-8 is read unchanged |
| `Utf8.CutTextIff` | rust/src/p2p/transfer.rs:149-171 | Text cut to a number of bytes and read is the text exactly when only a final U+FFFD is cut |
| `Utf8.KnownRepair` | rust/src/ble/protocol.rs:136 | The example of the Unicode standard for replacing maximal ill-formed pieces |
| `Utf8Scalars.WellFormedIff` | rust/src/ble/protocol.rs:136 | The byte strings kept as text are exactly the encodings of lists of Unicode scalar values, as section 3 of RFC 3629 lays them out |
| `Utf8Scalars.IllFormedPiece` | rust/src/ble/protocol.rs:136 | What one U+FFFD replaces is a longest start of some character, or one byte that starts none |

## Left out

- RatchetDelivery.DeliveryIffSenderHalf: for plaintexts to be delivered, channels keep order between
  DH keys, so a message under an old DH key never arrives after one under a newer key; within one
  key they may reorder when skipped keys are kept. `NothingDelivered` has no such bound, and
  `StoredKeyNotTried` says what such a message meets.
- RatchetDelivery.ExactlyOneAhead: both parties may not open with a message at once, and neither
  sends more than 100 messages on one chain; `SendKeepsLeadIff` and `RefreshNotFollowed` say what
  happens past that.
- DasnStorageClass.DasnStorage.EvictLru: Rust's stable library sort is modelled as an insertion sort
  on a sequence, not as the library's algorithm.
- DerivationPath.DeriveKeypair: child derivation is private to private only, the one the code has;
  the HMAC is abstract and a derivation never fails.
- Library code: X25519, Ed25519, HKDF, SHA-256, HMAC, AES-GCM, ChaCha20-Poly1305 and BIP39.
- Ratchet snapshots (`rust/src/crypto/double_ratchet.rs:92-107`): a copy of fields.
- `rust/src/crypto/session.rs`: starts each side from an unrelated throwaway key, so two-party
  agreement cannot start there.
- `rust/src/crypto/x3dh.rs`: the two sides use different salts; only easy algebra would remain.
- Transfer progress, transfer ids and timestamps: floating point, hashing and clocks.
- DASN statistics, listing, replica lookup and the IPFS bridge: projections of the state and HTTP.
- BLE device and mesh-node lists (`rust/src/ble/protocol.rs:161-191`): update or append by id.
- `rust/src/p2p/network.rs`, `rust/src/ffi.rs`, WebRTC signalling, DID, wallet and AI modules:
  plumbing, string building and hash wrappers.
- Mnemonics, JSON and secure storage in the identity code; all Flutter screens and other services.
