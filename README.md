# MeshProxy core, modelled in Dafny

MeshProxy is a TCP proxy for a Meshtastic radio node. Network clients connect
to the proxy, the proxy connects to the radio, and bytes flow both ways. Each
chunk coming back from the radio may hold a framed `FromRadio` protobuf
message. When that message is a text message, the proxy works out which node
sent it. It then decides whether to pass the chunk on or to drop the
connection. The decision follows a whitelist, a blacklist and a per-node rate
limiter, whose state sits in an SQLite table.

This project models that decision core of `meshproxy.py` and proves
properties about it:

- **`PyText`**: Python's `str.strip()` as a pure function. `IsSpace` follows
  the code points that `str.isspace` accepts.
- **`NodeId`**: `int_to_node_id` (`!` plus at least eight lowercase hex
  digits) and `node_id_to_int` (an optional `!`, then Python's `int(s, 16)`:
  the surrounding white space that `int()` skips, an optional sign, an
  optional `0x` prefix, and single underscores between digits). `int()`
  skips less white space than `str.strip()`: it rejects the separators
  U+001C..U+001F, which `str.strip()` removes. The round trip is proved in
  both directions: `NodeIdToInt(IntToNodeId(x)) == Some(x)`, and canonical
  text `!xxxxxxxx` parses to a 32-bit number whose text it is.
- **`ListFilter`**: the line filter that builds `WHITELIST` and `BLACKLIST`.
  It drops lines that start with `#` and strips the others.
- **`Frame`**: the header check and payload slice of `decodeNodeId`, and the
  classification of the parsed message. The protobuf parser plus the JSON
  field lookups form the `decoder` parameter.
- **`RateLimit`**: the table that `is_node_blocked`, `check_rate_limit` and
  `block_node` read and update. The table is a `map` from node number to
  record, and each operation is a pure transition function that also returns
  the new table.
- **`Policy`**: the decision chain of `forward_data` for one chunk:
  whitelist, then blacklist, then block check, then rate check, then block.
  It comes with lemmas about bursts of messages and block expiry.
- **`Proxy`**: the relay loop of `forward_data` as a pure reference
  function `Relay`. It also holds a class `MeshProxy`, whose field `table` is
  the rate-limit store. The class's methods (`IsNodeBlocked`,
  `CheckRateLimit`, `BlockNode`, `InspectChunk`, `ForwardData`) update that
  field in place. Each method is proved equal to its transition function.

The reader's chunks are a sequence of `Arrival`s: the bytes of one
`read(512)`, paired with the clock reading for that chunk. The writer's output
is the sequence of chunks written.

Behaviour kept as `meshproxy.py` has it:

- A rate window resets after a fixed 60 seconds, not after
  `RATE_LIMIT_TIMEFRAME`.
- A block lasts `RATE_LIMIT_TIMEFRAME * 60` seconds.
- Each chunk is inspected on its own: no frame is reassembled across reads,
  and a frame cut short by the end of a chunk is parsed truncated.
- The broadcast test at `meshproxy.py:170` compares the packet object with
  numbers, so it never excludes anything.
- An accepted message after a window reset stores the old count plus one,
  not one (`RateLimit.StaleCountAfterReset`).

Three functions have no contract of their own; lemmas state their meaning.
`ListFilter.LoadList` (lines 101 and 106) is covered by the `ListFilter`
rows. `NodeId.ParseHexInt` (line 113) is covered by `NodeId.NodeIdToInt`,
`NodeId.RoundTrip`, `NodeId.DoubleBangRejected` and
`NodeId.SeparatorRejected`. `Proxy.Relay` (lines 179-205) is covered by
`Proxy.RelayWritesPrefix`, `Proxy.UninspectedTrafficPassesThrough` and
`Proxy.OtherNodesUntouched`.

The store is keyed by the node number. SQLite's TEXT column stores the
number's decimal text, and that mapping is injective, so the two keys are
equivalent.

## Model

| member | source | states |
|---|---|---|
| PyText.Strip | meshproxy.py:101 | the stripped line is no longer than the line, and neither of its ends is whitespace |
| PyText.StripCharacterization | meshproxy.py:101 | the stripped line is a contiguous slice of the line; everything cut off on either side is whitespace; the slice's ends are not whitespace |
| PyText.StripSurrounded | meshproxy.py:101 | whitespace before and after a core that neither starts nor ends with whitespace is removed exactly, leaving the core |
| NodeId.Hex | meshproxy.py:116 | the hex rendering is non-empty, lowercase, has no leading zero, and reads back as the number |
| NodeId.ZeroPad | meshproxy.py:116 | padding to the `08` width gives the larger of the width and the digit count, keeps the digits at the end and fills the front with `0` |
| NodeId.IntToNodeId | meshproxy.py:115-117 | the node ID is `!` followed by at least eight lowercase hex digits whose value is the number; exactly eight for a 32-bit number |
| NodeId.NodeIdToInt | meshproxy.py:109-113 | canonical text, `!` and eight lower-case digits, parses to a 32-bit number whose `int_to_node_id` text is that input |
| NodeId.CanonicalDigits | meshproxy.py:109-117 | eight lower-case digits parse to their value, which is below 2^32 and is rendered back as `!` and those same digits, leading zeros included |
| NodeId.RoundTrip | meshproxy.py:109-117 | parsing a rendered node ID gives back the number |
| NodeId.IntToNodeIdInjective | meshproxy.py:115-117 | distinct node numbers render as distinct node IDs, so list lookups by ID cannot confuse two nodes |
| NodeId.BangOptional | meshproxy.py:110-113 | text with one leading `!` parses exactly as the same text without it |
| NodeId.DoubleBangRejected | meshproxy.py:110-113 | only one `!` is dropped: an ID with two leading `!` is a parse error |
| NodeId.SeparatorRejected | meshproxy.py:113 | any separator U+001C..U+001F right after the `!` makes the parse fail, whatever follows: `int()` does not skip it |
| NodeId.SeparatorStripped | meshproxy.py:101 | `str.strip()` removes a leading separator U+001C..U+001F from any line, so list lines and `int()` treat those separators differently |
| ListFilter.LoadListConcat | meshproxy.py:101 | the set loaded from a file cut into two pieces is the union of the pieces' sets: each line contributes on its own |
| ListFilter.LoadListOrderFree | meshproxy.py:106 | swapping two parts of a file does not change the loaded set |
| ListFilter.CommentLineIgnored | meshproxy.py:106 | removing a line that starts with `#` leaves the loaded list unchanged |
| ListFilter.IndentedHashLineKept | meshproxy.py:101 | a `#` after leading whitespace does not make a comment: the line is kept, `#` included |
| ListFilter.BlankLineKept | meshproxy.py:101 | a blank or whitespace-only line adds the empty entry |
| ListFilter.CanonicalLinesLoad | meshproxy.py:101 | a file of one `!`-ID per line loads exactly the set of those IDs |
| ListFilter.StripTrailingNewline | meshproxy.py:101 | the newline kept by file iteration is removed by the strip |
| Frame.DeclaredLength | meshproxy.py:164 | the big-endian length field is below 65536 |
| Frame.FramePayload | meshproxy.py:163-167 | a payload exists exactly when the magic pair is present and the declared length is at most 512; it is the chunk's bytes from offset 4, of the declared length cut at the chunk's end |
| Frame.Classify | meshproxy.py:169-177 | a parsed message is attributed exactly when it is a packet, its port is `TEXT_MESSAGE_APP` and its sender is present, and then to that sender |
| Frame.DecodeNodeId | meshproxy.py:161-177 | a chunk is attributed to a node exactly when the header is valid and its parsed payload is a text-message packet with a nonzero sender; otherwise it is `False` |
| Frame.TrailingBytesIgnored | meshproxy.py:164-167 | bytes after a complete frame do not change the attribution |
| Frame.PartialFrameParsedTruncated | meshproxy.py:167 | a frame longer than the chunk is parsed from what the chunk holds |
| Frame.BadHeaderNotAttributable | meshproxy.py:161-165 | a short chunk, a wrong magic pair or an oversized length is never attributed |
| Frame.BroadcastStillAttributed | meshproxy.py:170 | a text message sent to the broadcast address or to 0 is still attributed to its sender |
| RateLimit.BlockCheck | meshproxy.py:146-159 | blocked exactly when the node has a record whose expiry is in the future; otherwise an existing record's expiry is reset to 0; other nodes and the key set do not change |
| RateLimit.RateCheck | meshproxy.py:119-139 | accepted exactly when the node is new or its count, reset after 60 seconds, is below the limit; a refusal changes nothing; a new node gets count 1; an accepted known node gets stored count plus one and the new time; nothing else changes |
| RateLimit.BlockUpdate | meshproxy.py:141-144 | an existing record's expiry becomes now plus timeframe times 60; a missing record is not created; nothing else changes |
| RateLimit.StaleCountAfterReset | meshproxy.py:126-133 | the reset count is not written back: a node whose stored count has reached the limit gets one message through after a quiet minute, and its next message within 60 seconds is refused |
| Policy.Decide | meshproxy.py:189-202 | a whitelisted ID is allowed and the table is untouched; otherwise a blacklisted ID is rejected untouched; otherwise rejected as blocked exactly when a live block exists; otherwise rejected as rate-limited exactly when the rate check refuses, and then the node is blocked; rejected as blacklisted exactly when the ID is blacklisted and not whitelisted; an allowed unlisted node's record becomes count 1 when new, or stored count plus one, with the new time and expiry 0; only the node's own record can change |
| Policy.Inspect | meshproxy.py:186-202 | an unattributed chunk is allowed with the table untouched; an attributed chunk is decided for its sender |
| Policy.ExpiredBlockCleared | meshproxy.py:151-157 | a node whose block has expired is never refused as blocked: it is allowed or rate-limited, and when allowed its record holds the stored count plus one, the new time and expiry 0 |
| Policy.RefusedNodeStaysBlocked | meshproxy.py:141-154 | after a rate-limit refusal at time `now`, the node is refused as blocked at every later time before the block's end |
| Policy.BurstInOneWindow | meshproxy.py:119-144 | when `RATE_LIMIT_TIMEFRAME` is at least 2, a new unlisted node's messages within one 60-second window are allowed up to the limit (at least one), the next is rate-limited, and all after it are refused as blocked |
| Policy.DefaultLimitsSixthRejected | meshproxy.py:119-139 | with the default limits, five messages in one minute are allowed and the sixth is rate-limited |
| Proxy.StreamData | meshproxy.py:181-184 | the chunks read before the first empty read, in order |
| Proxy.RelayWritesPrefix | meshproxy.py:179-205 | the chunks written are a prefix of the stream; the stream ends normally exactly when all of it was written; a rejection happens only on the radio side, carries a non-allow verdict, and falls on the chunk after the last one written, which is attributed to a node that is not whitelisted, so a chunk decoding to `False` is always written; the client side relays everything and leaves the table untouched |
| Proxy.UninspectedTrafficPassesThrough | meshproxy.py:186-204 | on the radio side, a stream with no attributable chunk is relayed whole and leaves the table untouched |
| Proxy.OtherNodesUntouched | meshproxy.py:186-202 | a stream that never carries a message from node `n` leaves `n`'s record as it was |
| Proxy.MeshProxy.constructor | meshproxy.py:66 | the proxy starts with an empty rate-limit table |
| Proxy.MeshProxy.IsNodeBlocked | meshproxy.py:146-159 | the answer and the new table are those of `BlockCheck` |
| Proxy.MeshProxy.CheckRateLimit | meshproxy.py:119-139 | the answer and the new table are those of `RateCheck` |
| Proxy.MeshProxy.BlockNode | meshproxy.py:141-144 | the new table is that of `BlockUpdate` |
| Proxy.MeshProxy.InspectChunk | meshproxy.py:186-202 | the verdict and the new table are those of `Inspect` |
| Proxy.MeshProxy.ForwardData | meshproxy.py:179-205 | the chunks written, how the loop ended and the new table are those of `Relay` |

## Left out

- The protobuf parser and the JSON rendering (`ParseFromString`, `MessageToJson`, the field lookups) are a foreign library. They are the `decoder` parameter, which returns `None` where they raise.
- Sockets and asyncio are not modelled: `reader.read`, `writer.write`, `drain`, `close`, `handle_client` and `start_proxy`. The two directions of one connection would run concurrently, but only the radio-side direction touches the table (`Proxy.RelayWritesPrefix`), so their interleaving does not affect it. Several connections sharing one table are not modelled.
- Exceptions while reading, writing or using the database end the loop in the source; the model has no error path for them.
- `load_config`, `setup_logging`, file opening and all logging and printing are left out. The limits are the parameter `Limits`, and `DEFAULT_LIMITS` holds the source's defaults.
- Creating the SQLite table is left out; the constructor starts from the empty table that the `DELETE` leaves.
- `time.time()` is not modelled: each chunk carries one clock reading (`Arrival.now`). The source reads the clock up to three times per chunk.
- NodeId.NodeIdToInt: its contract states only the canonical-text direction; other accepted texts (upper case, `0x`, signs, underscores, white space) are described by `NodeId.ParseHexInt`'s definition, not by a contract.
- NodeId.ParseHexInt: rejects the non-ASCII digits that Python's `int()` also accepts, because the model only knows ASCII hex digits.
- NodeId.IntToNodeId: takes only non-negative numbers, because the sender field is an unsigned 32-bit number and Python's `-` rendering of negative numbers never arises.
- Frame.DecodeNodeId: the decoder's `None` stands for every failure of the parse and the field lookups together; the model does not tell them apart.
