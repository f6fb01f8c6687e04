# rpc-js core in Dafny

This project models the core of `rpc-js`, the TypeScript client of the rpccloud RPC system.

- **The binary value codec `RPCStream`** (`src/stream.ts`). It is a growable byte buffer with a read cursor and a write cursor. A 17-byte header holds the version byte and the client callback ID. `write*`/`read*` methods handle null, bool, float64, int64, uint64, string, bytes, array and map values.
- **The 64-bit integer wrappers `RPCInt64` and `RPCUint64`** (`src/types.ts`).
- **`RPCError`** (`src/error.ts`): error kinds and the debug trail.
- **`isUint8ArrayEquals`** (`src/utils.ts`).
- **The `Logger` and `LogSubscription` classes** (`src/logger.ts`): level filtering and routing to subscriber callbacks.
- **The reconnect schedule of `RPCClient`** (`src/client.ts`).

Modules, one file each:

- `Wrappers`: `Option`.
- `Bytes`: a byte as an integer in `0..255`, little-endian digits, and the source's `>>> 8`.
- `Utf8`: a concrete UTF-8 encoder and a strict decoder, with both round trips proved.
- `Types`: `Int64`/`Uint64` as `Safe | Raw | Invalid`. Includes `fromBytes` as a function and as the source's copy-loop method.
- `Codec`: the encoding of every value, and one decoder per `read*` method.
  - The encoding is `Encode(v)`, a pure specification.
  - Each decoder is a pure function of the buffer, the write cursor and the read cursor. It returns the value, the `ok` flag and the new read cursor.
- `CodecLemmas`: properties of the encoding and the decoders, listed below.
  - The round trip `Decode(Encode(v)) == v`.
  - Extension: a decode that succeeds keeps its result when more bytes follow.
  - Truncation: moving the write cursor anywhere inside an encoding makes the read fail with the read cursor unchanged.
- `Stream`: the class `RPCStream`. Its buffer, cursors and methods follow the source statement by statement.
  - Every `write*` method is proved to append exactly the `Codec` encoding.
  - Every `read*` method is proved to return exactly what the `Codec` decoder returns.
  - `WrittenRoundTrip` and `WrittenTruncated` join the two halves.
- `Errors`: the class `RPCError`, with the debug trail as a function and its join/split laws.
- `Utils`: `IsUint8ArrayEquals`, a loop proved equal to sequence equality.
- `Logging`: the classes `Logger` and `LogSubscription`.
  - The level test is modelled bit by bit.
  - A message's destination is returned as a list of sinks, one per receiver, rather than printed.
- `Client`: the class `RPCClient`, with the timer tick as an explicit method that takes the transport status.

JavaScript numbers that these files treat as integers are Dafny `int`s. A `Uint8Array` store keeps `value mod 256`, and this is modelled explicitly (`ToByte`).

## Model

| member | source | states |
|---|---|---|
| Stream.RPCStream.constructor | src/stream.ts:10-15 | a new stream has both cursors at 17, a 1024-byte buffer, version byte 1 followed by zeros, so the readable header is `[1, 0 × 16]` |
| Stream.RPCStream.Enlarge | src/stream.ts:17-23 | the buffer becomes `Enlarged(old, size)`: unchanged when it already holds `size` bytes, otherwise the old bytes followed by zeros up to `size + 1024`; cursors unchanged |
| Stream.RPCStream.PutByte | src/stream.ts:25-29 | stores `value mod 256` at the write cursor (growing the buffer first), advances the cursor by one, and the written bytes gain exactly that byte |
| Stream.RPCStream.PutBytes | src/stream.ts:31-37 | grows once for the whole run, then the written bytes gain exactly `value` and the cursor advances by its length |
| Stream.RPCStream.PutUint32 | src/stream.ts:306-311 | the recurring four-`putByte` sequence with `>>>= 8` appends the four little-endian bytes of the value modulo 2^32 |
| Stream.RPCStream.PutEach | src/stream.ts:218-220 | the raw-escape copy loop appends exactly the given bytes |
| Stream.RPCStream.PutSteps53 | src/stream.ts:195-211 | the eight `putByte` calls of the 8-byte int branch append `Steps53`, the shifted digits with the top bits set as the sign demands |
| Stream.RPCStream.GetReadPos | src/stream.ts:77-79 | returns the read cursor |
| Stream.RPCStream.SetReadPos | src/stream.ts:81-88 | succeeds iff `0 <= p <= writePos`, and only then moves the read cursor |
| Stream.RPCStream.GetWritePos | src/stream.ts:90-92 | returns the write cursor |
| Stream.RPCStream.SetWritePos | src/stream.ts:94-101 | rejects only negative positions; any other position, even past the buffer, becomes the write cursor |
| Stream.RPCStream.GetBuffer | src/stream.ts:103-105 | the copy stops at the buffer's end: it is the written bytes when the cursor is inside the buffer, else the prefix that exists |
| Stream.RPCStream.Reset | src/stream.ts:107-110 | both cursors back to 17 |
| Stream.RPCStream.GetClientCallbackID | src/stream.ts:112-119 | the little-endian value of bytes 1..4, below 2^32 |
| Stream.RPCStream.SetClientCallbackID | src/stream.ts:121-133 | overwrites only bytes 1..4 with the little-endian id, restores the write cursor, and `GetClientCallbackID` then returns `id mod 2^32` (so `id` itself for every id in `[0, 2^32)`) |
| Stream.RPCStream.CanRead | src/stream.ts:135-137 | true iff `peekByte` would not return -1 |
| Stream.RPCStream.WriteNull | src/stream.ts:139-141 | appends `Encode(Null)` |
| Stream.RPCStream.WriteBool | src/stream.ts:143-149 | appends `Encode(Bool(v))` |
| Stream.RPCStream.WriteFloat64 | src/stream.ts:151-165 | succeeds iff the float is encodable (not NaN); then appends its encoding, else nothing is written and the cursor stays |
| Stream.RPCStream.WriteInt64 | src/stream.ts:167-226 | succeeds iff the value is not the empty NaN marker; then appends `EncodeInt64`: tag `v+21`, or tag 6/7/8 with the biased 2-, 4- or 8-byte form, or tag 8 and the raw bytes; on failure nothing changes |
| Stream.RPCStream.WriteUint64 | src/stream.ts:228-276 | the unsigned counterpart: tag `v+54`, or tags 9/10/11, or tag 11 and the raw bytes |
| Stream.RPCStream.WriteString | src/stream.ts:278-317 | appends `EncodeString(v)`: 128 for "", else the short or long header, the UTF-8 bytes and a 0 terminator |
| Stream.RPCStream.WriteBytes | src/stream.ts:319-348 | appends `EncodeBinary(v)`: 192, or `192+len`, or 255 with a 4-byte length, then the bytes |
| Stream.RPCStream.OpenContainer | src/stream.ts:361-378 | writes the tag, moves the write cursor past four bytes without writing them (their old contents stay, as the ghost `gap`), and for more than 30 elements writes the element count |
| Stream.RPCStream.PatchTotal | src/stream.ts:388-397 | back-patching the total length over the four skipped bytes turns the written bytes into the container encoding and restores the write cursor |
| Stream.RPCStream.WriteArray | src/stream.ts:350-400 | succeeds iff every element is writable; then appends `Encode(Array(items))`, whose length field counts every byte from the tag to the end; otherwise the write cursor is back at its start and the written bytes are as before |
| Stream.RPCStream.WriteItems | src/stream.ts:380-385 | the element loop appends every element's encoding, or stops at the first element `write` refuses |
| Stream.RPCStream.Unwind | src/stream.ts:381-383 | a refused element rewinds the write cursor to the container's start, leaving the bytes before it intact |
| Stream.RPCStream.WriteMap | src/stream.ts:402-453 | as `WriteArray` for maps: entries in insertion order, each its key string then its value |
| Stream.RPCStream.WriteEntries | src/stream.ts:429-438 | the entry loop appends every entry, or stops at the first refused value |
| Stream.RPCStream.WriteEntry | src/stream.ts:429-437 | one entry: the key string, then the value if `write` accepts it |
| Stream.RPCStream.Write | src/stream.ts:455-486 | succeeds iff the value is `Encodable`; then appends `Encode(v)`; otherwise neither cursor nor the written bytes change |
| Stream.RPCStream.PeekByte | src/stream.ts:39-45 | returns `Peek`: -1 at or past the write cursor, else the byte under the read cursor |
| Stream.RPCStream.ReadNBytes | src/stream.ts:47-57 | returns `ReadN`: with `n > 0` bytes left it advances by `n` and returns the slice that exists (short when past the buffer), else an empty slice and no move |
| Stream.RPCStream.ReadNull | src/stream.ts:488-495 | result and new read cursor are exactly `DecodeNull` |
| Stream.RPCStream.ReadBool | src/stream.ts:497-509 | exactly `DecodeBool` |
| Stream.RPCStream.ReadFloat64 | src/stream.ts:511-526 | exactly `DecodeFloat64` |
| Stream.RPCStream.ReadInt64 | src/stream.ts:528-571 | exactly `DecodeInt64` |
| Stream.RPCStream.ReadUint64 | src/stream.ts:573-614 | exactly `DecodeUint64` |
| Stream.RPCStream.ReadString | src/stream.ts:616-656 | exactly `DecodeString` |
| Stream.RPCStream.ReadBytes | src/stream.ts:658-690 | exactly `DecodeBinary` |
| Stream.RPCStream.ReadHeader | src/stream.ts:700-727 | the count, declared total and cursor are exactly `ContainerHeader` |
| Stream.RPCStream.ReadArray | src/stream.ts:692-748 | exactly `DecodeArray` |
| Stream.RPCStream.ReadItems | src/stream.ts:729-740 | the element loop succeeds iff `DecodeItems` does, with the same elements and cursor |
| Stream.RPCStream.ReadMap | src/stream.ts:750-811 | exactly `DecodeMap` |
| Stream.RPCStream.ReadEntries | src/stream.ts:789-802 | the entry loop succeeds iff `DecodeEntries` does, with the same entries and cursor |
| Stream.RPCStream.ReadEntryOf | src/stream.ts:790-801 | one pass of the entry loop is one step of `DecodeEntries`, and it consumes at least one byte |
| Stream.RPCStream.ReadEntry | src/stream.ts:790-801 | a key string then a value, exactly `DecodeEntry` |
| Stream.RPCStream.ReadValue | src/stream.ts:813-859 | exactly `Decode` |
| Stream.WrittenRoundTrip | src/stream.ts:455-486 | once `write(v)` has put `Encode(v)` below the write cursor at position p, `read()` from p returns `(v, true)` and leaves the read cursor at the write cursor |
| Stream.WrittenTruncated | src/stream.ts:813-859 | with the write cursor anywhere inside that encoding, `read()` fails and leaves the read cursor where it was |
| Codec.Peek | src/stream.ts:39-45 | -1 exactly when the cursor is at or past the limit, else a byte (or 256 for a position past the buffer) |
| Codec.ReadN | src/stream.ts:47-57 | `n > 0` bytes left: advance by `n`, return the bytes that exist; otherwise the empty slice and no move |
| Codec.DecodeNull | src/stream.ts:488-495 | success consumes one byte; failure leaves the cursor |
| Codec.DecodeBool | src/stream.ts:497-509 | success consumes one byte; failure returns `(false, false)` with the cursor unchanged |
| Codec.DecodeFloat64 | src/stream.ts:511-526 | success consumes bytes up to the limit; failure leaves the cursor, except a short slice past the buffer |
| Codec.DecodeInt64 | src/stream.ts:528-571 | as for floats |
| Codec.DecodeUint64 | src/stream.ts:573-614 | as for floats |
| Codec.DecodeString | src/stream.ts:616-656 | success consumes bytes up to the limit; every failure returns `("", false)` with the cursor restored (the failures themselves: `ShortStringAccepts`, `BadTerminator`, `ShortLongForm`) |
| Codec.DecodeBinary | src/stream.ts:658-690 | success consumes bytes up to the limit; failure leaves the cursor except for a short slice past the buffer |
| Codec.ContainerHeader | src/stream.ts:700-727 | a declared total means the header was consumed within the limit |
| Codec.Decode | src/stream.ts:813-859 | success consumes bytes up to the limit; tags 12 and 13 are refused without moving the cursor |
| Codec.DecodeTagged | src/stream.ts:816-858 | the same, for the dispatch on the peeked tag |
| Codec.DecodeArray | src/stream.ts:692-748 | success consumes bytes up to the limit; any failure returns `([], false)` with the cursor restored (when it fails: `ArrayAccepts`, `ArrayTotalMismatch`) |
| Codec.DecodeItems | src/stream.ts:729-740 | success yields `n` more elements and a cursor within the limit |
| Codec.DecodeMap | src/stream.ts:750-811 | success consumes bytes up to the limit; any failure returns `([], false)` with the cursor restored (when it fails: `MapAccepts`, `MapTotalMismatch`) |
| Codec.DecodeEntries | src/stream.ts:789-802 | success yields a cursor within the limit |
| Codec.DecodeEntry | src/stream.ts:790-801 | a successful entry consumes at least one byte (this bounds the recursion) |
| CodecLemmas.RoundTrip | src/stream.ts:455-486 | for every encodable, well-formed value whose encoding fits in 2^32 bytes, decoding its encoding at any position returns the value, `ok`, and the cursor just after it |
| CodecLemmas.DecodeEncode | src/stream.ts:813-859 | the same by induction over the value, including nested arrays and maps |
| CodecLemmas.DecodeEncodeInt64 | src/stream.ts:528-571 | `readInt64` inverts `writeInt64` for every safe value and every raw pattern that is not a safe one |
| CodecLemmas.DecodeEncodeUint64 | src/stream.ts:573-614 | `readUint64` inverts `writeUint64` |
| CodecLemmas.DecodeEncodeFloat64 | src/stream.ts:511-526 | `readFloat64` inverts `writeFloat64` for every non-NaN float other than -0 |
| CodecLemmas.DecodeEncodeString | src/stream.ts:616-656 | `readString` inverts `writeString` |
| CodecLemmas.DecodeEncodeBinary | src/stream.ts:658-690 | `readBytes` inverts `writeBytes` |
| CodecLemmas.DecodeEncodeArray | src/stream.ts:692-748 | `readArray` inverts `writeArray` |
| CodecLemmas.DecodeEncodeMap | src/stream.ts:750-811 | `readMap` inverts `writeMap` when the keys are distinct |
| CodecLemmas.MapSetNew | src/stream.ts:797 | `Map.set` with a new key appends the entry at the end |
| CodecLemmas.Int64FormOf | src/stream.ts:167-226 | every int64 encoding is one of the four forms readInt64 accepts, carrying the value |
| CodecLemmas.Uint64FormOf | src/stream.ts:228-276 | the same for uint64 |
| CodecLemmas.DecodeExtend | src/stream.ts:813-859 | a decode that succeeds under a limit gives the same result under any larger limit |
| CodecLemmas.ShortStringAccepts | src/stream.ts:621-632 | a short string is accepted iff its whole encoding lies before the limit and inside the buffer, its terminator byte is 0 and its contents are valid UTF-8 |
| CodecLemmas.BadTerminator | src/stream.ts:624-632 | a short string whose terminator byte is not 0 is refused with `""` and the cursor restored |
| CodecLemmas.ShortLongForm | src/stream.ts:633-653 | the long string form declaring a length of at most 62 is refused with `""` and the cursor restored |
| CodecLemmas.ArrayAccepts | src/stream.ts:729-747 | a non-empty array is accepted iff its header has a positive count and a total above 4, every element reads, and the elements end exactly `total` bytes after the tag |
| CodecLemmas.ArrayTotalMismatch | src/stream.ts:741-745 | elements that all read but end elsewhere than `total` bytes after the tag give `([], false)` with the cursor restored |
| CodecLemmas.MapAccepts | src/stream.ts:786-810 | the same for a non-empty map and its entries |
| CodecLemmas.MapTotalMismatch | src/stream.ts:803-807 | the same total-length refusal for a map |
| CodecLemmas.Truncated | src/stream.ts:813-859 | with the limit anywhere inside an encoding, decoding fails and the cursor stays at its start |
| Types.NewInt64 | src/types.ts:17-24 | keeps `v` iff it is a safe integer, else NaN; bytes empty |
| Types.NewUint64 | src/types.ts:83-90 | keeps `v` iff it is a safe integer and at least 0, else NaN; bytes empty |
| Types.Int64Of | src/types.ts:26-64 | `Invalid` iff the length is not 8; a raw result holds exactly the input; a safe result is non-negative iff byte 7 is 0x80 |
| Types.Int64FromBytes | src/types.ts:26-64 | the method with the raw copy loop returns exactly `Int64Of` of the input |
| Types.Int64OfPositive | src/types.ts:29-37 | byte 7 = 0x80 and byte 6 < 0x20 give the little-endian value of bytes 0..6 |
| Types.Int64OfNegative | src/types.ts:40-53 | byte 7 = 0x7F and byte 6 >= 0xE0 give `-c-1` for the complement `c` of the low 53 bits when `c < 2^53-1`; the pattern `00…00 E0 7F` (that is, -2^53) stays raw |
| Types.Int64OfOther | src/types.ts:55-63 | any other 8 bytes give NaN with an exact copy of the input; any other length gives NaN with no bytes |
| Types.Int64Bytes | src/stream.ts:189-212 | the top byte of the writer's 8-byte form is 0x7F for negatives and 0x80 otherwise |
| Types.Int64OfBytes | src/stream.ts:189-212 | `fromBytes` inverts the writer's 8-byte form on the whole safe range |
| Types.Int64BytesOf | src/types.ts:26-53 | conversely, the only bytes that decode to a safe value are the writer's bytes for that value |
| Types.Uint64Of | src/types.ts:92-114 | `UInvalid` iff the length is not 8; a raw result holds the input; a safe result has byte 7 = 0 |
| Types.Uint64FromBytes | src/types.ts:92-114 | the method with the copy loop returns exactly `Uint64Of` |
| Types.Uint64OfPositive | src/types.ts:95-103 | byte 7 = 0 and byte 6 < 0x20 give the little-endian value of bytes 0..6 |
| Types.Uint64Bytes | src/stream.ts:248-275 | the writer's 8-byte unsigned form ends with 0 |
| Types.Uint64OfBytes | src/stream.ts:248-275 | `fromBytes` inverts the writer's unsigned 8-byte form |
| Types.Uint64BytesOf | src/types.ts:92-114 | decoding succeeds iff byte 7 = 0 and byte 6 < 0x20, and only the writer's bytes decode to a given value |
| Bytes.LE4RoundTrip | src/stream.ts:112-133 | the four bytes of `putByte(n); n >>>= 8; …` read back with the source's arithmetic give `n mod 2^32` |
| Bytes.LEValueOfLEBytes | src/types.ts:30-35 | little-endian digits that cover a number read back as that number |
| Bytes.LEBytesOfLEValue | src/types.ts:30-35 | a byte string is the digits of its own value |
| Utf8.DecodeEncode | src/stream.ts:288 | decoding the UTF-8 bytes of a string gives back the string |
| Utf8.EncodeDecode | src/stream.ts:626 | the decoder accepts only encodings: whatever decodes to `s` is the encoding of `s` |
| Errors.Kinds | src/error.ts:2-9 | the kind codes are 0..7 in declaration order |
| Errors.NewProtocolError | src/error.ts:11-13 | kind 1, the message, debug `""` |
| Errors.NewTransportError | src/error.ts:15-17 | kind 2, the message, debug `""` |
| Errors.NewReplyError | src/error.ts:19-21 | kind 3, the message, debug `""` |
| Errors.NewReplyPanic | src/error.ts:23-25 | kind 4, the message, debug `""` |
| Errors.NewRuntimePanic | src/error.ts:27-29 | kind 5, the message, debug `""` |
| Errors.NewKernelPanic | src/error.ts:31-33 | kind 6, the message, debug `""` |
| Errors.NewSecurityLimitError | src/error.ts:35-37 | kind 7, the message, debug `""` |
| Errors.RPCError.constructor | src/error.ts:43-48 | stores kind, message and debug as given |
| Errors.RPCError.GetKind | src/error.ts:50-52 | returns the kind |
| Errors.RPCError.GetMessage | src/error.ts:54-56 | returns the message |
| Errors.RPCError.GetDebug | src/error.ts:58-60 | returns the debug trail |
| Errors.AppendDebug | src/error.ts:63-70 | an absent or empty line leaves the trail unchanged; a present line always leaves a present trail |
| Errors.RPCError.AddDebug | src/error.ts:62-73 | returns the same object; the trail becomes `AppendDebug(old, d)`; kind and message are constants |
| Errors.TrailJoins | src/error.ts:62-73 | repeated `addDebug` leaves the first trail (when present) and every non-empty line, joined by newlines |
| Errors.SplitJoin | src/error.ts:67-68 | lines without newlines are recovered from the trail by cutting at newlines |
| Utils.IsUint8ArrayEquals | src/utils.ts:2-12 | true iff the two arrays hold the same bytes (so different lengths or one differing byte give false) |
| Logging.LevelAnd | src/logger.ts:110 | `level & mask` lies between 0 and `level` |
| Logging.SeverityBit | src/logger.ts:110 | a severity mask fires iff its bit is set in the level |
| Logging.LevelIsItsSeverities | src/logger.ts:3-14 | every level in 0..31 is the sum of the masks it lets through, so exactly the severities whose bit it holds fire |
| Logging.NamedLevels | src/logger.ts:3-14 | Off emits nothing; Fatal, Error, Warn, Info and All each let through their own severity and those above it, and nothing below |
| Logging.IndexOf | src/logger.ts:69-71 | the first position holding the id, or the length when it is absent |
| Logging.GoneAfterRemove | src/logger.ts:68-76 | with increasing ids, removing the first match leaves no subscription with that id |
| Logging.AppendKeepsIncreasing | src/logger.ts:78-83 | appending a larger id keeps the ids increasing |
| Logging.RemoveKeepsIncreasing | src/logger.ts:71 | removing one entry keeps the ids increasing |
| Logging.Deliver | src/logger.ts:139-143 | one sink per subscription: its callback when set, else the console |
| Logging.DeliverSnoc | src/logger.ts:118-144 | one more subscription adds exactly its own sink at the end |
| Logging.LogSubscription.constructor | src/logger.ts:18-25 | id 0, no logger, no callbacks |
| Logging.LogSubscription.HandlerFor | src/logger.ts:119-138 | a mask that matches no severity selects no callback |
| Logging.LogSubscription.Close | src/logger.ts:27-42 | false when unlinked; otherwise the result of removing its id from the logger, and it is then unlinked with id 0 and no callbacks, so a second close returns false |
| Logging.Logger.constructor | src/logger.ts:50-54 | level 31, no subscriptions, seed 1 |
| Logging.Logger.SetLevel | src/logger.ts:56-66 | succeeds iff the level is in `[0, 31]`; otherwise the level is unchanged |
| Logging.Logger.RemoveSubscription | src/logger.ts:68-76 | true iff the id is registered; then exactly the first entry with that id is removed, else the list is unchanged |
| Logging.Logger.Splice | src/logger.ts:71 | removes exactly the entry at position i and keeps the ids increasing |
| Logging.Logger.Subscribe | src/logger.ts:78-85 | increments the seed and appends a fresh subscription whose id is the new seed and which is linked to this logger |
| Logging.Logger.Push | src/logger.ts:83 | appending the new subscription keeps the registry's invariant (ids increasing, between 1 and the seed) |
| Logging.Logger.Routes | src/logger.ts:110-144 | a message not let through by the level goes nowhere; with no subscriptions it goes to the console once; otherwise to each subscription's callback or the console |
| Logging.Logger.Log | src/logger.ts:107-147 | the text is timestamp, tag, message and newline, and its sinks are `Routes(mask)` |
| Logging.Logger.Fanout | src/logger.ts:118-144 | the loop over subscriptions delivers to exactly `Deliver` of their handlers |
| Logging.Logger.Debug | src/logger.ts:87-89 | logs with mask 16 and tag " Debug: " |
| Logging.Logger.Info | src/logger.ts:91-93 | logs with mask 8 and tag " Info: " |
| Logging.Logger.Warn | src/logger.ts:95-97 | logs with mask 4 and tag " Warn: " |
| Logging.Logger.Error | src/logger.ts:99-101 | logs with mask 2 and tag " Error: " |
| Logging.Logger.Fatal | src/logger.ts:103-105 | logs with mask 1 and tag " Fatal: " |
| Client.HasTransport | src/client.ts:102 | a transport is created iff the URL starts with "ws" (the "wss" test adds nothing) |
| Client.NextReconnect | src/client.ts:118-133 | the next counter value at which a closed transport is reconnected is never more than 29 ticks away, and none comes before it |
| Client.ClosedRun | src/client.ts:117-134 | while closed, the counter advances once per tick and tick k reconnects exactly when the schedule says so at `t + k` |
| Client.ReconnectsWithin30 | src/client.ts:107-138 | after `open`, a transport that stays closed is reconnected at the first tick and then within every 30 ticks |
| Client.ConnectedResets | src/client.ts:115-116 | a tick that finds the transport connected resets the counter, whatever happened before |
| Client.RPCClient.constructor | src/client.ts:98-105 | no timer, counter 0, and a transport iff the URL starts with "ws" |
| Client.RPCClient.Open | src/client.ts:107-143 | succeeds iff no timer is armed; then resets the counter, connects the transport if there is one and arms the timer; a second `open` returns false |
| Client.RPCClient.Tick | src/client.ts:114-138 | connected resets the counter; closed reconnects at 0, 2, 5, 8, 15 and 30 below 60 and at multiples of 30 from then on, and then increments the counter; any other status changes nothing; a connect call is recorded iff it reconnects |
| Client.RPCClient.Close | src/client.ts:145-154 | succeeds iff there is a transport and an armed timer; then disarms it and disconnects; so without a transport an armed timer is never cleared |

## Left out

- `Ieee754.read`/`write` are not part of this model. A float64 is its eight little-endian IEEE-754 bytes. `IsNaN` and `IsZero` are predicates on that bit pattern, and no arithmetic value is attached.
- The bodies of `stringToUTF8` and `utf8ToString` are not part of this model. `Utf8` stands in for them as standard UTF-8. A Dafny `char` is a Unicode scalar value, so strings holding lone UTF-16 surrogates cannot be expressed.
- `WebSocketNetClient`, `src/adapter_websocket.ts` and `src/deferred.ts` are not modelled: they are WebSocket, FileReader, Promise and console plumbing.
  - `RPCClient` records the calls it makes on its transport as a trace (`calls`).
  - What the transport reports to a tick is a parameter.
- Timers: `setInterval` and `clearTimeout` are not modelled. The timer is the flag `timerArmed`, and each firing is an explicit call to `Tick`.
- Client.RPCClient.Tick: requires an armed timer, because only an armed timer fires it.
- The counter `timeIndex` is an unbounded `nat`. The source's loss of precision past 2^53 ticks is not modelled.
- Logging.Logger.Log: the timestamp (`convertToIsoDateString(new Date())`) is a parameter `now`, and `console.log` output is not modelled.
  - The returned sinks say where each copy of the message goes.
  - Callbacks are opaque `Handler` identities.
- Logging.Logger.SetLevel: takes an integer. Its `Number.isSafeInteger` test is modelled as `IsSafeInteger`, so an integer beyond 2^53 - 1 in magnitude is refused. Non-integer numbers and non-numbers cannot be passed, so that part of the refusal has no counterpart.
- Logging.Logger.Log: the mask is an integer. Its safe-integer test is modelled by `IsSafeInteger`, as in `Emits`; only a non-integer mask has no counterpart.
- `null` and `undefined` arguments (`writeString(null)`, `writeBytes(null)`, a `null` array element, `setLevel(undefined)`) cannot be expressed. The value type `Codec.Value` has `Null` and `Other` for what `write` accepts or refuses.
  - Stream.RPCStream.WriteString always succeeds. This is because the source's `length <= 0` branch after `stringToUTF8` of a non-empty string cannot be taken with standard UTF-8.
  - Stream.RPCStream.WriteBytes always succeeds, because its `null` check cannot be expressed.
- The buffer `data` is a `seq<byte>` that the methods reassign, not a `Uint8Array`. `getBuffer` returns a copy in the source too, so no aliasing is observable. The model does not capture in-place update of a shared array.
- Peek: past the buffer's end but before the write cursor, the source's `data[readPos]` is `undefined`. The model represents it as 256, which compares unequal to every tag and so falls through every test of the dispatcher exactly as `undefined` does.
- CodecLemmas.RoundTrip: proved for well-formed values only:
  - map keys distinct (a later duplicate key overwrites an earlier one on reading, so such a map does not round-trip);
  - a raw `Int64`/`Uint64` not holding a safe pattern;
  - no negative-zero float (written as tag 4 and read back as positive zero);
  - an encoding shorter than 2^32 bytes, since lengths are written as 32-bit fields.
- Stream.RPCStream.Write: does not model `write` called on JavaScript values outside `Codec.Value`. Such values map to `Other`, which is refused without writing.
- `RPCFloat64`, `RPCInt64.valueOf` and the `toNumber`/`getBytes` accessors are datatype members without contracts of their own. They are used by the contracts above.
- Session handshake, callback-ID admission, pending-call queues and timeouts are not modelled. None of the modelled files implements them.
