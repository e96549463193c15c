# DFS-over-LAN: coordinator, storage node and integrity codecs

This project models the sequential core of DFS-over-LAN, a small distributed
file store. It has three parts.

- **The coordinator** (`coordinator.dfy`, module `Coordinator`).
  - It keeps a table from file id to the file's ordered chunk list. Each
    chunk holds the ordered list of storage nodes that have a copy.
  - It answers three text commands: `ALLOCATE_CHUNKS`, `LOOKUP_FILE` and
    `REGISTER_CHUNK_REPLICA`.
  - The class `MasterServer` holds the table as a `map` field. Its methods
    are proved against specification functions on the table (`Allocation`,
    `LookupReply`, `Registered`, `Respond`).
- **The storage node** (`storage_node.dfy`, module `StorageNode`).
  - The node splits each datagram at its first newline. The text before it
    is the header; the bytes after it are the payload.
  - It serves `STORE <id> <len>` and `RETRIEVE <id>`, and replies with
    `ACK ...` and `DATA ...` lines.
  - The class `ChunkServer` holds the chunk files as a map from chunk id to
    bytes, and the datagrams it has sent as a sequence. Its methods are proved
    against specification functions on a `NodeState` value (`Stored`,
    `Retrieved`, `Step`, `Run`).
- **The integrity codecs.**
  - `parity_codec.dfy`, module `ParityCodec`: the XOR-parity framing of
    `encodeChunk` and `decodeChunk`. It uses 8-byte zero-padded blocks, each
    followed by one parity byte.
  - `fec_framing.dfy`, module `FecFraming`: the Reed–Solomon framing of
    `NoiseAndFEC::encode` and `decode`. It uses 223 data bytes per 255-byte
    codeword. The Reed–Solomon encoder and decoder are function parameters.
- `common.dfy`, module `Common`, holds the Qt text and number handling the
  three parts share:
  - `QByteArray::split` and `QString::split` with `SkipEmptyParts`;
  - `trimmed`;
  - `QString::number`;
  - `toInt`, `toLongLong` and `toUShort`;
  - `indexOf`;
  - the byte/char conversions.

The wire formats are modelled as the code writes them: space-separated text
header lines, with the raw payload after the header in a datagram.

Bytes are a `byte` newtype 0..255. XOR on them is defined bit by bit on
naturals (`ParityCodec.XorBits`). The source's `char` XOR and `char`
comparison act on the same eight bits, so signedness does not change any
result.

## Model

| member | source | states |
|---|---|---|
| Common.IndexOf | DFS-over-LAN/chunk/chunkServer.cpp:46 | the result is none exactly when the byte is absent; otherwise it is an index holding the byte, with no earlier occurrence |
| Common.IndexOfAfter | DFS-over-LAN/chunk/chunkServer.cpp:46 | the first occurrence of x in `a + [x] + b`, when a lacks x, is at index \|a\| |
| Common.CharsOfBytesOf | DFS-over-LAN/chunk/chunkServer.cpp:52 | single-byte text converted to bytes and back is unchanged |
| Common.BytesOfConcat | DFS-over-LAN/chunk/chunkServer.cpp:111 | the bytes of a concatenation are the concatenation of the bytes |
| Common.TrimUnchanged | DFS-over-LAN/chunk/chunkServer.cpp:52 | `trimmed` leaves text that neither starts nor ends with whitespace unchanged |
| Common.Split | DFS-over-LAN/master/masterserver.cpp:49-50 | `split` always returns at least one part, so the `isEmpty` check never fires, and no part contains the separator |
| Common.JoinOfSplit | DFS-over-LAN/master/masterserver.cpp:49 | rejoining the parts with the separator gives back the line |
| Common.SplitOfJoin | DFS-over-LAN/master/masterserver.cpp:49 | separator-free words joined with the separator split back into exactly those words |
| Common.SplitSkipEmptyOfJoin | DFS-over-LAN/chunk/chunkServer.cpp:54 | non-empty separator-free words joined with single spaces split back, with empty parts skipped, into exactly those words |
| Common.ToIntegral | DFS-over-LAN/master/masterserver.cpp:55 | `toInt`, `toLongLong` and `toUShort` always give a value in the type's range, and 0 for text that is not a decimal number |
| Common.ToIntegralOfIntToString | DFS-over-LAN/master/masterserver.cpp:55 | the decimal text of an in-range number parses back to that number |
| Common.DigitsValueOfNatToString | DFS-over-LAN/master/masterserver.cpp:81 | `QString::number(n)` read back as digits is n |
| Common.NatToStringInjective | DFS-over-LAN/master/masterserver.cpp:81 | distinct naturals have distinct decimal texts |
| Common.IntToStringInjective | DFS-over-LAN/chunk/chunkServer.cpp:18 | distinct integers have distinct decimal texts |
| Common.Pad | DFS-over-LAN/common/encodingUtils.cpp:15-16 | padding keeps the block as a prefix, reaches exactly length n, and fills the rest with the fill byte |
| Common.PadAfter | DFS-over-LAN/common/noiseEcc.h:32-33 | padding commutes with prepending a prefix |
| Coordinator.MasterServer.constructor | DFS-over-LAN/master/masterserver.h:53 | a new coordinator starts with an empty table, which satisfies the invariant |
| Coordinator.SameServerIsEquality | DFS-over-LAN/master/masterserver.h:18-20 | two locations are equal exactly when both ip and port are equal |
| Coordinator.TruncDiv | DFS-over-LAN/master/masterserver.cpp:75 | C++ division: the Euclidean quotient for a non-negative dividend, truncated toward zero for a negative one |
| Coordinator.ToInt32 | DFS-over-LAN/master/masterserver.cpp:75 | narrowing to `int` keeps the value modulo 2^32 in the signed 32-bit range, and is the identity on that range |
| Coordinator.NumChunks | DFS-over-LAN/master/masterserver.cpp:74-75 | for 0 <= size <= 8192 * (2^31 - 1), the count is `(size + 8191) / 8192`, the least n with size <= 8192n; size 0 and every size above -16383 give 0 chunks |
| Coordinator.ParseChunkNameOfChunkName | DFS-over-LAN/master/masterserver.cpp:81 | `<fileId>_chunk_<i>` parses back to exactly fileId and i |
| Coordinator.ChunkNameInjective | DFS-over-LAN/master/masterserver.cpp:81 | distinct (file id, index) pairs, even of different files, get distinct chunk names |
| Coordinator.ChunkIdsUnique | DFS-over-LAN/master/masterserver.cpp:110-112 | in a well-formed table only one chunk has any given id, so the first match the search finds is the only one |
| Coordinator.AllocationShape | DFS-over-LAN/master/masterserver.cpp:76-85 | an allocation of n chunks names the file, has max(n, 0) chunks, and chunk i is `<fileId>_chunk_<i>` with the single location 127.0.0.1:5000, in increasing i |
| Coordinator.AllocationWellFormed | DFS-over-LAN/master/masterserver.cpp:79-85 | a fresh allocation satisfies the table invariant, with one location per chunk and no duplicates |
| Coordinator.MasterServer.AllocateChunks | DFS-over-LAN/master/masterserver.cpp:73-89 | the loop builds the ordered allocation; the entry for fileId is replaced by it, every other entry is kept, the invariant is preserved, and the reply is `OK Allocated <n> chunks\n` |
| Coordinator.ReallocationReplaces | DFS-over-LAN/master/masterserver.cpp:87 | after reallocation a lookup of the file lists exactly the new chunks, and lookups of other files are unchanged |
| Coordinator.AllocateTwentyThousandBytes | DFS-over-LAN/master/masterserver.cpp:53-56 | the line `ALLOCATE_CHUNKS <f> 20000` allocates `<f>_chunk_0` to `<f>_chunk_2` with the placeholder location, replies `OK Allocated 3 chunks\n`, and keeps every other file |
| Coordinator.ThreeChunks | DFS-over-LAN/master/masterserver.cpp:74-88 | 20000 bytes make three chunks with the expected names and the expected reply |
| Coordinator.AppendChunk | DFS-over-LAN/master/masterserver.cpp:96-99 | the inner loop appends ` <chunkId>`, then ` <ip> <port>` for each location in order |
| Coordinator.MasterServer.LookupFile | DFS-over-LAN/master/masterserver.cpp:91-107 | the reply is `FILE_METADATA <name>` followed by each chunk's text in stored order and a newline, or `ERROR File not found\n` for an absent id; the table is not modified |
| Coordinator.LocationsTextIsSeparated | DFS-over-LAN/master/masterserver.cpp:97-99 | the location text is each `ip` and `port` word preceded by one space |
| Coordinator.ChunksTextIsSeparated | DFS-over-LAN/master/masterserver.cpp:95-100 | the chunk text is each chunk id and its location words, each preceded by one space |
| Coordinator.LookupReplyWords | DFS-over-LAN/master/masterserver.cpp:94-101 | for single-word names, a client splitting the reply line on spaces recovers `FILE_METADATA`, the name, and each chunk id followed by its ip and port words, in stored order |
| Coordinator.RegisteredEffect | DFS-over-LAN/master/masterserver.cpp:109-123 | registration keeps every key, name and chunk count; a chunk whose id matches and lacks the location gains it at the end; every other chunk is unchanged |
| Coordinator.RegisteredAt | DFS-over-LAN/master/masterserver.cpp:112-118 | with unique ids, registering at the matching chunk changes only that chunk |
| Coordinator.RegisteredUnchanged | DFS-over-LAN/master/masterserver.cpp:114-122 | if the location is already recorded, or no chunk has the id, the table is unchanged |
| Coordinator.RegisteredWellFormed | DFS-over-LAN/master/masterserver.cpp:113-115 | registration preserves the invariant: locations stay non-empty and free of duplicates |
| Coordinator.RegisteredIdempotent | DFS-over-LAN/master/masterserver.cpp:114-115 | registering the same location twice equals registering it once |
| Coordinator.MasterServer.RegisterChunkReplica | DFS-over-LAN/master/masterserver.cpp:109-123 | the nested search, in any order over the hash, stops at the first chunk with the id; the new table equals `Registered` of the old one, and the invariant is preserved |
| Coordinator.ParseWordsOfRequestWords | DFS-over-LAN/master/masterserver.cpp:52-67 | every well-formed request's words, followed by any extra words, dispatch to that request |
| Coordinator.ParseRequestWords | DFS-over-LAN/master/masterserver.cpp:49-67 | every well-formed request, written as a space-separated line with any extra words, is read back as itself |
| Coordinator.UnknownCommandExactly | DFS-over-LAN/master/masterserver.cpp:53-70 | the reply is `ERROR Unknown command or invalid arguments\n` exactly when the line is no known command with enough words, and then the table is unchanged |
| Coordinator.MasterServer.HandleRequest | DFS-over-LAN/master/masterserver.cpp:48-71 | dispatch by first word and minimum word count (3, 2, 4); the new table and the reply equal `Respond` of the old table and the line |
| StorageNode.ListenPort | DFS-over-LAN/chunk/chunkServer.cpp:17 | the port is 5000 + serverId modulo 2^16, and exactly 5000 + serverId when that fits in 16 bits |
| StorageNode.ListenPortsDistinct | DFS-over-LAN/chunk/main.cpp:10-13 | ids below 60536 get pairwise distinct ports; id 60536 wraps round to port 0 |
| StorageNode.StorageDirInjective | DFS-over-LAN/chunk/chunkServer.cpp:18 | distinct server ids use distinct directory names |
| StorageNode.ChunkServer.constructor | DFS-over-LAN/chunk/chunkServer.cpp:15-25 | the port and directory follow from the id; files start as what the directory already holds; nothing has been sent |
| StorageNode.Left | DFS-over-LAN/chunk/chunkServer.cpp:63 | `left(n)` is the first min(max(n, 0), size) bytes |
| StorageNode.SplitAtNewline | DFS-over-LAN/chunk/chunkServer.cpp:46-54 | a datagram has no header/payload split exactly when it holds no newline byte |
| StorageNode.ParseDatagram | DFS-over-LAN/chunk/chunkServer.cpp:46-50 | a datagram is dropped as malformed exactly when it holds no newline |
| StorageNode.ParseHeaderCases | DFS-over-LAN/chunk/chunkServer.cpp:56-68 | STORE needs exactly 3 words and at least len payload bytes, and stores exactly the first len bytes under the second word; a shorter payload is dropped; RETRIEVE needs exactly 2 words; anything else is unknown |
| StorageNode.LineReadsBack | DFS-over-LAN/chunk/chunkServer.cpp:46-54 | a header line of words, sent as bytes with any payload behind it, splits at its first newline into exactly those words and exactly that payload |
| StorageNode.ParseStore | DFS-over-LAN/chunk/chunkServer.cpp:46-63 | a `STORE <id> <len>` datagram with any trailing bytes is read as a store of exactly its len payload bytes under id |
| StorageNode.ParseRetrieve | DFS-over-LAN/chunk/chunkServer.cpp:46-66 | a `RETRIEVE <id>` datagram is read as a retrieve of id |
| StorageNode.DataReplyReadsBack | DFS-over-LAN/chunk/chunkServer.cpp:109-111 | the DATA reply splits at its first newline into `DATA <id> <flag> <size>` and exactly the payload bytes |
| StorageNode.AckReadsBack | DFS-over-LAN/chunk/chunkServer.cpp:90-92 | the ACK splits into `ACK <id> <ip> <port> <flag>` with nothing after the newline |
| StorageNode.DecodeData | DFS-over-LAN/chunk/chunkServer.cpp:133-136 | the placeholder decoder returns its input and never reports corruption |
| StorageNode.EncodeData | DFS-over-LAN/chunk/chunkServer.cpp:139-141 | the placeholder encoder returns its input |
| StorageNode.StoredEffect | DFS-over-LAN/chunk/chunkServer.cpp:72-93 | a store replaces the bytes under its id when the write succeeds, changes no other chunk, and sends exactly one ACK with flag 0, whether or not the write succeeds |
| StorageNode.ChunkServer.ProcessStore | DFS-over-LAN/chunk/chunkServer.cpp:72-93 | the new files and outbox equal `Stored` of the old ones |
| StorageNode.RetrievedEffect | DFS-over-LAN/chunk/chunkServer.cpp:95-115 | a retrieve never changes the files; it sends nothing exactly when the chunk is absent; otherwise it sends `DATA <id> 0 <size>\n` followed by exactly the stored bytes |
| StorageNode.ChunkServer.ProcessRetrieve | DFS-over-LAN/chunk/chunkServer.cpp:95-115 | the new state equals `Retrieved` of the old one |
| StorageNode.DroppedUnchanged | DFS-over-LAN/chunk/chunkServer.cpp:47-68 | a datagram without a newline, a short STORE, or an unknown header changes nothing and sends nothing |
| StorageNode.StepAppends | DFS-over-LAN/chunk/chunkServer.cpp:56-68 | serving one datagram sends at most one datagram and keeps what was sent before |
| StorageNode.RunAppends | DFS-over-LAN/chunk/chunkServer.cpp:39-69 | serving n datagrams sends at most n replies and only appends to the outbox |
| StorageNode.ChunkServer.OnReadyRead | DFS-over-LAN/chunk/chunkServer.cpp:38-70 | the loop serves the pending datagrams in arrival order; the new state equals `Run` of the old one |
| StorageNode.StoreThenRetrieve | DFS-over-LAN/chunk/chunkServer.cpp:56-112 | STORE then RETRIEVE of one id stores the payload and sends the ACK, then `DATA <id> 0 <len>\n` with exactly the stored payload |
| StorageNode.StoresOverwriteAndCommute | DFS-over-LAN/chunk/chunkServer.cpp:79-84 | a second store to an id leaves only the second payload; stores to different chunk-id keys commute (see Left out on path aliasing) |
| ParityCodec.XorCancels | DFS-over-LAN/common/encodingUtils.cpp:18-20 | `x ^ m == y` exactly when `m == x ^ y` |
| ParityCodec.XorAllConcat | DFS-over-LAN/common/encodingUtils.cpp:18-20 | the XOR of a concatenation is the XOR of the two parts' XORs |
| ParityCodec.WithParityXorsToZero | DFS-over-LAN/common/encodingUtils.cpp:18-23 | a block followed by its parity XORs to zero |
| ParityCodec.XorAllUpdate | DFS-over-LAN/common/encodingUtils.cpp:38-41 | changing one byte by a mask changes the XOR of all bytes by that mask |
| ParityCodec.Checksum | DFS-over-LAN/common/encodingUtils.cpp:18-20 | the accumulating loop computes the XOR of all bytes |
| ParityCodec.NumBlocksIsCeiling | DFS-over-LAN/common/encodingUtils.cpp:9 | the block count is ceil(n / 8): 0 exactly for empty input, and the blocks cover the input with less than one block to spare |
| ParityCodec.EncodeChunk | DFS-over-LAN/common/encodingUtils.cpp:5-26 | the loop over blocks, with padding and the parity of each block, produces `Encoding(data)` |
| ParityCodec.EncodingLength | DFS-over-LAN/common/encodingUtils.cpp:9-25 | the encoding is 9 * ceil(n / 8) bytes, and empty exactly for empty input |
| ParityCodec.EncodingLayout | DFS-over-LAN/common/encodingUtils.cpp:11-23 | nine-byte group i holds input bytes 8i to 8i+7, zero-padded to 8, followed by the XOR of those 8 bytes |
| ParityCodec.StripEncoding | DFS-over-LAN/common/encodingUtils.cpp:11-23 | dropping every ninth byte of the encoding leaves the input zero-padded to 8 * ceil(n / 8) |
| ParityCodec.RecoverInput | DFS-over-LAN/common/encodingUtils.cpp:11-23 | dropping every ninth byte and keeping the first n bytes recovers the input |
| ParityCodec.DecodeChunk | DFS-over-LAN/common/encodingUtils.cpp:28-47 | empty input gives no data and corrupted; otherwise all bytes but the last, corrupted exactly when their XOR differs from the last byte (as `Decoding`) |
| ParityCodec.OneByteErrorDetected | DFS-over-LAN/common/encodingUtils.cpp:38-45 | flipping any bits of any single byte of a cleanly decoding input makes it report corruption |
| ParityCodec.EncodingXorsToZero | DFS-over-LAN/common/encodingUtils.cpp:18-23 | the block parities telescope: the XOR of a whole encoding is 0 |
| ParityCodec.DecodeOfEncodeNotCorrupted | DFS-over-LAN/common/encodingUtils.cpp:38-45 | decoding the encoding of a non-empty input reports no corruption and returns the encoding less its last byte |
| ParityCodec.DecodeOfEncodeOneBlock | DFS-over-LAN/common/encodingUtils.cpp:28-47 | for 1..8 input bytes, decoding the encoding gives the input zero-padded to 8 bytes, with no corruption |
| ParityCodec.DecodeRoundTripOnlyForOneBlock | DFS-over-LAN/common/encodingUtils.cpp:35-46 | the decoder as written returns exactly the input just for 8-byte inputs |
| ParityCodec.EncodingFramesValid | DFS-over-LAN/common/encodingUtils.cpp:11-23 | every nine-byte frame of an encoding carries its block's parity, with nothing left over |
| ParityCodec.BlockwiseRoundTrip | DFS-over-LAN/common/encodingUtils.cpp:9-23 | for every input, the empty one included, frame-by-frame decoding of the encoding reports no corruption, returns the padded input, and its first n bytes are the input |
| FecFraming.FecSizes | DFS-over-LAN/common/noiseEcc.h:12-15 | FEC_N is 255 and FEC_K = 255 - 2 * 16 = 223 |
| FecFraming.NumCodewordsBound | DFS-over-LAN/common/noiseEcc.h:30-37 | codeword j exists exactly when piece j starts inside the input (223j < n) |
| FecFraming.Encode | DFS-over-LAN/common/noiseEcc.h:26-40 | the loop advancing `ptr` by min(remaining, 223) produces `Encoding(enc, input)` |
| FecFraming.EncodingLength | DFS-over-LAN/common/noiseEcc.h:29-39 | the output is 255 * ceil(n / 223) bytes, and empty exactly for empty input |
| FecFraming.EncodingLayout | DFS-over-LAN/common/noiseEcc.h:31-35 | codeword j of the output is the encoder applied to input bytes 223j.. (at most 223 of them) in a zeroed 255-byte buffer |
| FecFraming.Decode | DFS-over-LAN/common/noiseEcc.h:55-73 | the loop over whole codewords, with its early return on failure, produces `Outcome(Decoding(dec, input))` |
| FecFraming.DecodingIgnoresTrailing | DFS-over-LAN/common/noiseEcc.h:60 | a trailing remainder shorter than 255 bytes does not affect decoding |
| FecFraming.DecodingFailsIff | DFS-over-LAN/common/noiseEcc.h:63-66 | decoding fails, with empty output and corrupted in `Outcome`, exactly when some whole codeword is uncorrectable |
| FecFraming.DecodingLength | DFS-over-LAN/common/noiseEcc.h:68-70 | on success the output is 223 * (len / 255) bytes |
| FecFraming.DecodingLayout | DFS-over-LAN/common/noiseEcc.h:61-68 | on success, output bytes 223j.. are the first 223 bytes of the repaired codeword j |
| FecFraming.DecodingCorruptedIff | DFS-over-LAN/common/noiseEcc.h:56-67 | on success, corrupted holds exactly when some codeword needed corrections |
| FecFraming.RoundTrip | DFS-over-LAN/common/noiseEcc.h:26-73 | with a systematic encoder and a decoder that accepts its codewords unchanged, decoding the encoding succeeds uncorrupted with the input zero-padded to 223 * ceil(n / 223) |
| FecFraming.RoundTripRecoversInput | DFS-over-LAN/common/noiseEcc.h:26-73 | under the same assumption, the first n decoded bytes are the input and corrupted is false |

## Left out

- Sockets, Qt signals and bootstrap are not modelled:
  - the TCP server, the client set and `readLine().trimmed()` (`master/masterserver.cpp:5-46`); `HandleRequest` receives the line as `handleRequest` does;
  - the UDP bind in `ChunkServer::start` and `readDatagram`; pending datagrams are a parameter, and sent datagrams are appended to the `sent` field;
  - `main.cpp` of every program.
- Chunk files on disk are a map from chunk id to bytes. The node names a chunk's file by the path `storageDir + "/" + chunkId + ".bin"` and never checks the id, so ids that name one file (`b` and `./b`), or a file of another node (`../CHUNK-1/b`), alias in the source. The model keys by the id string and does not capture that aliasing.
- StoresOverwriteAndCommute: "stores to different ids commute" holds for distinct map keys; for aliasing ids such as `b` and `./b` the source writes one file, which the model does not capture.
- StoredEffect: "changes no other chunk" holds for other map keys; an aliasing id overwrites the same file in the source.
- `writeOk = false` models only a failed `open`, which leaves the old file. A write that fails after a successful `open(WriteOnly)` has already truncated the file and may leave it empty or partial; that case is not modelled.
- A failed open on RETRIEVE is an absent key.
- `master/masterserver.h:60-61` comments out the declaration of `registerChunkReplica`, which `master/masterserver.cpp:66` calls and `:109` defines; the coordinator as shown does not compile, and the model assumes the declaration exists.
- Noise injection (`addNoise`, `NoiseAndFEC::injectNoise`, the commented-out `applyNoiseToData`) is left out, because it uses a global random generator and floating-point probabilities.
- The Reed–Solomon arithmetic of the schifra library is left out, because that library is not part of this model. The encoder is a parameter `Codeword -> Codeword`. The decoder is a parameter `Codeword -> RsOutcome`, which carries the repaired buffer and the `corrected_errors()` count. The round-trip lemmas assume a systematic encoder whose codewords the decoder accepts unchanged.
- Chunk placement is left out: `buildBinaryTree` and `computeDFS` are only declared. Allocation uses the fixed placeholder location, as the code does.
- The client programs are left out: they only forward lines and hold no transfer logic.
- UTF-8 is not modelled. Header and reply text is mapped one byte to one character (`BytesOf`, `CharsOf`). The read-back lemmas assume single-byte words.
- StorageNode.AckLine: the formatting is modelled as plain word joining. `QString::arg` would also rewrite a marker `%1`..`%4` inside an earlier argument, such as a chunk id.
- StorageNode.DataHeader: the same `QString::arg` caveat as for AckLine, for markers `%1`..`%3`.
- `int` overflow of byte counts in the codecs (`numBlocks`, `remaining`, sizes beyond 2^31 - 1 bytes) is not modelled; sizes are unbounded naturals.
- The `int` chunk count is modelled with explicit truncating division and 32-bit narrowing (`Coordinator.NumChunks`). The only precondition is that `size + 8191` does not overflow `qint64`, because that overflow is undefined behaviour.
- The coordinator holds at most one entry per file id because its table is a `map`. The table invariant (`Coordinator.WellFormed`) ties each entry to its key and its chunks to their names.
- The storage node's `parts[0]` on a header with no words is undefined behaviour. `Step`, `Run` and `OnReadyRead` require every datagram's header to have at least one word (`HeaderDefined`).
- `registerChunkReplica` walks the hash in an unspecified order and stops at the first matching chunk. The model picks keys in any order (`:|`). Chunk ids are unique in a well-formed table, so every order gives the same result (`Coordinator.ChunkIdsUnique`).

## Findings

| source | as written | input that shows it | evidently intended | confidence | as-written member | corrected member |
|---|---|---|---|---|---|---|
| DFS-over-LAN/common/encodingUtils.cpp:35-46 | `decodeChunk` treats its whole input as one block: it returns all bytes but the last and checks only that byte | the encoding of any input that is not 8 bytes long, such as the 1-byte input `[7]`: it decodes to `[7,0,0,0,0,0,0,0]`, and a 16-byte input decodes to 17 bytes with the first parity byte inside | decode frame by frame: drop every ninth byte and check each frame's parity (zero frames, so no data and no corruption, for the empty input) | not executed | ParityCodec.DecodeRoundTripOnlyForOneBlock | ParityCodec.BlockwiseRoundTrip |
