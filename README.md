# ofxMocopiReceiver — a Dafny model of the flat receiver

This project models the receiver in `src/ofxMocopiReceiver.h`. It receives mocopi
motion-capture datagrams over UDP and keeps a 27-bone skeleton. The header is the early,
flat form of the receiver:

- `Receiver::update` fills a buffer with the queued bytes.
- For each registered reader, in registration order, it searches the buffer greedily
  for the reader's 4-character chunk name. Each hit goes to the reader's `read`, and the
  search resumes one record length later.
- The only reader, `BoneReader`, casts the 50-byte packed record `BtdtData` onto each
  `btdt` hit. It sets the pose of the bone the record names.
- The bone topology is hard-coded in `constructSkeleton`.
- `ofxMocopiReceiver` wraps all of this with a bind state (`setup`, `isSetup`, `getPort`).

Modules, one per part of the header:

- `Wire`: the byte and port types and `Option`.
- `Fill`: the fill loop at the start of `update`. The socket is an oracle: a peeked size
  and the queue of datagrams the `Receive` calls deliver, one per call. Besides the
  loop's own recursive account, the filled prefix is also stated directly: the
  datagrams concatenated up to the first empty one, cut to the buffer size.
- `Scan`: `std::string::find` and the greedy hit loop. It comes with a loop-free
  characterisation of the hits (leftmost each time, at least one record length apart),
  proved in both directions.
- `Btdt`: the packed record. Each field is extracted at its byte offset, with a bounds
  check. Both encode/decode round trips are proved.
- `Bones`: the bone record, the pose update of `read`, the skeleton topology and the
  class `BoneReader`.
- `Registry`: the class `Receiver`, holding the reader list and `update`.
- `Mocopi`: the class `MocopiReceiver` (`ofxMocopiReceiver`).

Later versions of the receiver parse a nested chunk protocol, with a dispatch tree,
framing validation and a topology rebuilt from the stream. The example application
already calls one of their accessors, `getInfo()` (example/src/ofApp.cpp:27), which
reads header, sender and frame chunks. This header has none of that, so it is not
modelled. The model follows the header:

- the bones come from a fixed table;
- there is no framing check;
- the scan runs over whatever bytes arrived.

## Model

| member | source | states |
|---|---|---|
| `Fill.ReceiveLength` | src/ofxMocopiReceiver.h:66 | a receive into `rest` free bytes never returns more than `rest` |
| `Fill.ReceivedFits` | src/ofxMocopiReceiver.h:63-72 | the loop never writes more bytes than the buffer of peeked size holds |
| `Fill.ReceivedIsTake` | src/ofxMocopiReceiver.h:63-72 | the bytes the loop writes are the queued datagrams, concatenated up to the first empty one, cut to the peeked size |
| `Fill.Receive` | src/ofxMocopiReceiver.h:66 | `Receive(ptr, rest)` writes the first queued datagram, cut to `rest`, at `ptr`, returns the count, consumes that datagram and changes no other byte |
| `Fill.ReceivedFillsWhenEnough` | src/ofxMocopiReceiver.h:65-72 | one receive that delivers at least the peeked size fills the whole buffer with its first bytes |
| `Fill.FillBuffer` | src/ofxMocopiReceiver.h:63-72 | the buffer is exactly the peeked size; its first `filled` bytes are what the receives delivered, in order, the loop stopping when `rest` is 0 or a receive returns 0; every byte after them is still zero |
| `Scan.Find` | src/ofxMocopiReceiver.h:75 | `find` gives an occurrence at or after `from` with no occurrence before it, and `npos` only when no occurrence exists at or after `from` |
| `Scan.Hits` | src/ofxMocopiReceiver.h:75 | every position the loop passes to `read` is an occurrence of the chunk name at or after the search start |
| `Scan.HitsAreGreedy` | src/ofxMocopiReceiver.h:75-77 | every position passed to `read` is an occurrence of the chunk name; the first is the leftmost in the buffer, each next one is the leftmost at or after the previous hit plus the data length, and none exists after the last search start |
| `Scan.GreedyHitsUnique` | src/ofxMocopiReceiver.h:75-77 | any sequence with that greedy property is exactly the loop's sequence of hits |
| `Scan.HitsSpaced` | src/ofxMocopiReceiver.h:75 | successive hits strictly increase, at least one data length apart, so the records read never overlap |
| `Scan.OnlyLastHitTruncated` | src/ofxMocopiReceiver.h:75-76 | every hit but the last has a full data length of bytes before the end of the buffer |
| `Scan.ScanReader` | src/ofxMocopiReceiver.h:75-77 | the loop for one reader terminates for a positive step and returns exactly the greedy hits |
| `Registry.Receiver.Update` | src/ofxMocopiReceiver.h:58-79 | with nothing queued, no reader is called; otherwise the buffer is the filled buffer and the read calls are, reader by reader in registration order, each reader's hits in order |
| `Registry.DispatchesAtOccurrences` | src/ofxMocopiReceiver.h:74-78 | each read call is made by a registered reader, at an occurrence of that reader's own chunk name |
| `Registry.SingleReaderDispatches` | src/ofxMocopiReceiver.h:74-78 | with one registered reader, the read calls are exactly that reader's hits |
| `Registry.Receiver.AddReader` | src/ofxMocopiReceiver.h:42-44 | the reader is appended after all registered ones |
| `Registry.FindReader` | src/ofxMocopiReceiver.h:46 | the first index holding the reader, or the list length when it is absent |
| `Registry.Receiver.RemoveReader` | src/ofxMocopiReceiver.h:45-52 | the warning is given exactly when the reader is not registered; the list becomes the list with its first equal element erased |
| `Registry.RemoveFirstAbsent` | src/ofxMocopiReceiver.h:47-50 | removing an unregistered reader leaves the list unchanged |
| `Registry.RemoveFirstAt` | src/ofxMocopiReceiver.h:51 | removal erases the first occurrence only; the readers before and after it keep their order |
| `Registry.RemoveFirstMultiset` | src/ofxMocopiReceiver.h:45-52 | removal takes exactly one copy of the reader out of the list, or none when there is none |
| `Registry.AddThenRemove` | src/ofxMocopiReceiver.h:42-52 | adding a new reader and removing it restores the previous list |
| `Btdt.Encode` | src/ofxMocopiReceiver.h:85-96 | a well-sized record occupies exactly 50 bytes with no padding |
| `Btdt.EncodeLayout` | src/ofxMocopiReceiver.h:86-94 | the field offsets are name 0, `btdt` 4, `bnid_name` 8, `bnid` 12, `unknown1` 13, `tran_name` 18, orientation 22, position 38 |
| `Btdt.Decode` | src/ofxMocopiReceiver.h:23-25 | the cast at `pos` yields a record exactly when 50 bytes remain at `pos`, and every field then has its declared size |
| `Btdt.DecodeEncode` | src/ofxMocopiReceiver.h:85-96 | a record encoded anywhere in a buffer decodes back to itself |
| `Btdt.EncodeDecode` | src/ofxMocopiReceiver.h:85-96 | a decoded record re-encodes to exactly the 50 bytes it was read from |
| `Btdt.BoneSlotAsWritten` | src/ofxMocopiReceiver.h:90 | the bone index the source computes from the `char` field lies in -128..127 and is congruent to the byte modulo 256, the signed-`char` conversion; `Btdt.CongruentPins` shows that fixes it (the byte itself below 128, the byte minus 256 from 128 on) |
| `Btdt.CongruentPins` | src/ofxMocopiReceiver.h:90 | any index in -128..127 congruent to the byte modulo 256 is the one the source computes |
| `Bones.BoneReader.ChunkName` | src/ofxMocopiReceiver.h:105 | the chunk name is the 4 bytes "btdt" |
| `Bones.BoneReader.DataLength` | src/ofxMocopiReceiver.h:106 | the data length is positive and equals the packed size of every well-sized record |
| `Bones.Posed` | src/ofxMocopiReceiver.h:107-111 | a read replaces a bone's pose and keeps its parent |
| `Bones.OrientationFromWire` | src/ofxMocopiReceiver.h:110 | the orientation read back in wire order x, y, z, w is the wire's four floats, and its scalar part is the wire's fourth float |
| `Bones.PositionFromWire` | src/ofxMocopiReceiver.h:109 | each position component is the matching wire float times `SCENE_SCALE` = 1000 |
| `Bones.BoneReader.Read` | src/ofxMocopiReceiver.h:107-111 | bone `bnid` takes the record's pose and is the only bone that changes |
| `Bones.ApplyHit` | src/ofxMocopiReceiver.h:107-111 | the checked read keeps all 27 bones and every parent link, changes nothing when fewer than 50 bytes remain, and changes only a bone the record names |
| `Bones.ApplyHitLocal` | src/ofxMocopiReceiver.h:107-111 | a read changes at most the one bone its id names, only its pose, only when the id is a bone, and nothing at all when fewer than 50 bytes remain |
| `Bones.ApplyHitWithinRecord` | src/ofxMocopiReceiver.h:23-25 | a read that fits depends only on the 50 bytes of its record |
| `Bones.BoneReader.ReadHit` | src/ofxMocopiReceiver.h:76 | the read at one hit, with the bounds and id checks applied |
| `Bones.BoneReader.ReadHits` | src/ofxMocopiReceiver.h:75-77 | the hits of one datagram are read in order |
| `Bones.ApplyAllKeepsParents` | src/ofxMocopiReceiver.h:107-111 | no sequence of reads changes any parent link |
| `Bones.ApplyAllUntouched` | src/ofxMocopiReceiver.h:75-77 | a bone that no hit of the datagram names is left exactly as it was |
| `Bones.ApplyAllLastWriteWins` | src/ofxMocopiReceiver.h:75-77 | a bone's pose after a datagram is the one from the last record that names it |
| `Bones.BoneReader.constructor` | src/ofxMocopiReceiver.h:114-132 | there are exactly 27 bones, each default-posed, with the parent `Bones.SkeletonParent` gives |
| `Bones.BoneReader.ClearParents` | src/ofxMocopiReceiver.h:116-118 | every bone's parent is cleared and nothing else changes |
| `Bones.BoneReader.LinkChain` | src/ofxMocopiReceiver.h:122-126 | `do_array` sets `parent[indices[i+1]] := indices[i]` for each consecutive pair, in order |
| `Bones.LinkRun` | src/ofxMocopiReceiver.h:122-126 | over a chain `[p, a, a+1, ...]`, `a` is hung off `p`, each later bone off its predecessor, and no other bone changes |
| `Bones.ChainShapes` | src/ofxMocopiReceiver.h:127-131 | each of the five chains is a parent followed by consecutive bones |
| `Bones.ChainsBuildSkeleton` | src/ofxMocopiReceiver.h:127-131 | linking the five chains over cleared bones gives parent(0) = none, parent(11) = parent(15) = 6, parent(19) = parent(23) = 0, and parent(k) = k-1 elsewhere |
| `Bones.ParentPrecedes` | src/ofxMocopiReceiver.h:127-131 | bone 0 alone has no parent; every other bone's parent has a smaller index |
| `Bones.PathEndsAtRoot` | src/ofxMocopiReceiver.h:114-132 | every parent chain ends at bone 0 and strictly descends, so no bone is its own ancestor |
| `Bones.BranchPoints` | src/ofxMocopiReceiver.h:127-131 | bone 0 has children {1, 19, 23}, bone 6 has {7, 11, 15}, every other bone has at most one child, and 10, 14, 18, 22, 26 are leaves |
| `Mocopi.MocopiReceiver.constructor` | src/ofxMocopiReceiver.h:140-143 | the receiver starts unbound on port 0 with exactly the bone reader registered and the skeleton built |
| `Mocopi.MocopiReceiver.Setup` | src/ofxMocopiReceiver.h:144-150 | `close()` is called exactly when already set up; the port is always the requested one, even when binding fails; `isSetup()` and the result equal the outcome of `listen`; the receiver and its bone reader stay valid. A call `setup()` is `Setup(DEFAULT_PORT, …)` with the default port 12351 |
| `Mocopi.MocopiReceiver.IsSetup` | src/ofxMocopiReceiver.h:151 | reports the bind state the last `setup` recorded (false before any) |
| `Mocopi.MocopiReceiver.GetPort` | src/ofxMocopiReceiver.h:152 | reports the port the last `setup` recorded, whether or not it bound (0 before any) |
| `Mocopi.MocopiReceiver.Update` | src/ofxMocopiReceiver.h:153-155 | the bones become every `btdt` hit of the filled buffer applied in order, and the topology is kept |
| `Mocopi.UpdateKeepsTopology` | src/ofxMocopiReceiver.h:153-155 | an update leaves the hard-coded topology in place |
| `Mocopi.TruncatedRecordExample` | src/ofxMocopiReceiver.h:75-76 | a datagram of just the 4 bytes "btdt" is hit at 0 though only 4 of the 50 bytes exist; the model reads nothing |
| `Mocopi.OneRecordHits` | src/ofxMocopiReceiver.h:75 | a datagram that is one record is filled as sent and is hit exactly once, at 0 |
| `Mocopi.OneRecordApplied` | src/ofxMocopiReceiver.h:58-79 | the update for a one-record datagram is the read of that record |
| `Mocopi.OneRecordIgnored` | src/ofxMocopiReceiver.h:108 | a one-record datagram whose id is not a bone changes no bone |
| `Mocopi.OutOfRangeBoneIdExample` | src/ofxMocopiReceiver.h:108 | a record with id byte 200 is hit and decoded, and the index the source computes (-56 for a signed `char`) is not a bone; the model ignores it |
| `Mocopi.OneRecordUpdate` | src/ofxMocopiReceiver.h:107-111 | one record for bone `bnid` poses that bone from the record and leaves the other 26 as they were |

## Left out

- Socket I/O is not modelled. `listen`, `close`, `PeekReceive` and `Receive` (src/ofxMocopiReceiver.h:32-40, 59, 66) are foreign calls. They become parameters: a bool for the outcome of `listen`, a natural number for the peeked size, and a queue of byte sequences, one per `Receive` call.
- Negative socket results are not modelled. The model cannot express a negative `PeekReceive` (which the source would turn into a huge string allocation) or a negative `Receive` (which the source would add to `ptr`).
- A `Receive` call on an empty queue is taken to return 0.
- `ofNode` math is not modelled: transform composition, global positions and scale. A bone is its local position, local orientation and optional parent index.
- Float arithmetic is not modelled. A float field is four opaque bytes. A computed coordinate is a symbolic `Scalar` (a literal, a wire float, or a wire float times an integer), without IEEE-754 rounding.
- The `onRead` event and `ofNotifyEvent` (src/ofxMocopiReceiver.h:21, 24) are observer plumbing and are not modelled.
- `getChunkNameLength` (src/ofxMocopiReceiver.h:13) is not used anywhere in the header.
- The `addReader<T>()` template (src/ofxMocopiReceiver.h:53-57) appears only as the constructor registering the one bone reader.
- Readers are values of their chunk name, data length and a handle. Equality of these values stands for `shared_ptr` identity.
- In the source, each `read` runs during the scan. In the model, `Registry.Receiver.Update` returns the calls in order, and `Mocopi.MocopiReceiver.Update` then applies them to the bone reader in that order. The two agree because only the bone reader holds state, and a reader without a typed `read` does nothing.
- `Mocopi.MocopiReceiver.Update` covers the bone reader only, because `ofxMocopiReceiver` registers no other reader and exposes no way to add one.
- `Registry.Receiver.Update` requires every registered reader to have a positive data length. With a zero step the source's scan loop never ends once the name is found.
- `Bones.BoneReader.Read` requires `bnid < 27`. That is the source's own unchecked precondition; the checked read is `Bones.BoneReader.ReadHit` (see Findings).
- `getBones()` (src/ofxMocopiReceiver.h:112, 156) returns a reference to the bones. The model reads the `bones` array directly.
- `example/src/ofApp.cpp` is user interface and is not modelled. Its `getInfo()` call (line 27) has no definition in the header.

## Findings

| source | as written | input that shows it | evidently intended | confidence | as-written member | corrected member |
|---|---|---|---|---|---|---|
| src/ofxMocopiReceiver.h:75-76 | every hit is passed to `read`, which casts 50 bytes from it; nothing checks that 50 bytes remain in the buffer | a datagram of the 4 bytes "btdt", or any datagram whose last hit starts fewer than 50 bytes before its end (a "btdt" inside the record of an earlier hit is not a hit) | a record that does not fit in the buffer is not read | not executed; the overrun follows from the hit loop alone | `Scan.Hits`, shown by `Mocopi.TruncatedRecordExample` | `Bones.ApplyHit`, proved in `Bones.ApplyHitLocal` and `Bones.ApplyHitWithinRecord` |
| src/ofxMocopiReceiver.h:108 | `bone_[d.bnid]` indexes the 27 bones with the record's `char` id unchecked, and the id is negative for bytes 128..255 where `char` is signed | a `btdt` record whose id byte is 200 (index -56) or 27 | ids outside 0..26 are ignored | not executed; which out-of-range ids occur depends on the sender | `Btdt.BoneSlotAsWritten`, shown by `Mocopi.OutOfRangeBoneIdExample` | `Bones.ApplyHit`, proved in `Bones.ApplyHitLocal` and `Mocopi.OneRecordIgnored` |
