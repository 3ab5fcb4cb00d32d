# Communication: a verified model of the node messaging core

`src/communication.py` implements small nodes that exchange messages.
Each message is a frame:

- a little-endian signed 32-bit header length;
- the UTF-8 header `host/port/datatype`;
- a little-endian signed 32-bit payload length;
- the payload.

A unicast `Node` sends each outbox entry at most once over a stream connection. It
first announces the frame length in decimal text. The receiving side reads
that many bytes in chunks of at most 2048 and unpacks them into its inbox.
A `multicastNode` is either a broadcaster or a receiver. The broadcaster
sends the outbox head as a datagram and puts the entry back at the end of
the outbox. The receiver puts the message of every datagram that decodes
in its inbox. It stops after the first one whose header has at least three
fields. The report printed after each message reads the second and third
header fields; for a shorter header that raises, the error is caught and
the loop reads on. All nodes share a `kill` flag that every evaluation flips, an
outbox that `Send` appends to, and a registry of worker threads.

The model has one Dafny module per piece:

- `Bytes`: the `<i` integer format.
- `Utf8`: the UTF-8 codec, with the well-formedness rules of section 3.9 of the Unicode Standard.
- `Decimal`: `str(int)`, `int(str)` and the length announcement.
- `Header`: `"/".join` and `str.split("/")`.
- `Frame`: `Pack` and `unPack`.
- `Receive`: the chunked receive loop.
- `Communication`: the shared node state, a class.
- `Unicast`: `Node`.
- `Multicast`: `multicastNode`.
- `Wrappers` and `Seqs`: small helpers.

The shared state is a `class` with `seq` fields that the methods reassign.
`push` and `pull` are methods with loops. Each one is proved against a
function that describes a whole run: `DispatchAll`, `ServedAll`, `Run` and
`Kept`. The lemmas about those functions state what the source
promises.

Sockets, threads and timers are replaced by what they deliver:

- whether a destination could be reached, or whether a send succeeded;
- the bytes a peer sent on each accepted connection;
- how many bytes each `recv` hands over;
- the datagrams that arrived.

A run of `push` or `pull` is at most one loop iteration per element of
these inputs; the multicast receiver stops at the first message whose
header has three or more fields. A node that was already killed runs no
iterations.

Some consequences of the code as written:

- The receiver does not check how many fields the header splits into. A
  `/` in the host or the data type gives more than three fields, and the
  message is still delivered (`Frame.PackUnPackExtraFields`).
- A peer that closes early does not yield a short frame. The loop closes
  the socket and calls `recv` on it again, which raises, so the message is
  dropped (`Receive.ReceiveFrame`).
- The tail slice in `unPack` does not notice a frame cut short inside its
  payload, as long as at least as many bytes arrived as the payload has
  (`Frame.UnPackTruncatedPayload`).
- `unPack` rejects an empty payload (see Findings). Both inbound workers call
  it, so an entry sent with empty data never reaches an inbox
  (`Unicast.DeliveryDropsEmpty`, `Multicast.MulticastDropsEmpty`). The
  corrected decoder `Frame.UnPackFixed` and its round trip are modelled beside
  it, but the nodes use the decoder as written.

## Model

| member | source | states |
|---|---|---|
| Bytes.EncodeInt32 | src/communication.py:47-48 | a value in the signed 32-bit range packs to four bytes; `Bytes.DecodeEncodeInt32` reads them back |
| Bytes.DecodeInt32 | src/communication.py:53 | four bytes read as `<i` give a value in the signed 32-bit range |
| Bytes.DecodeEncodeInt32 | src/communication.py:47-48 | reading back a packed 32-bit length gives that length, negative ones included |
| Bytes.EncodeDecodeInt32 | src/communication.py:53-55 | every four bytes are the `<i` packing of the value they read as, so the format is a bijection |
| Utf8.Encode | src/communication.py:43 | `str.encode("utf-8")` gives at least one byte per character; `Utf8.DecodeEncode` inverts it |
| Utf8.Decode | src/communication.py:54 | `bytes.decode("utf-8")` yields at most one character per byte; `Utf8.EncodeDecode` shows it accepts exactly the encodings |
| Utf8.DecodeEncode | src/communication.py:43 | decoding the UTF-8 encoding of any string gives the string back |
| Utf8.EncodeDecode | src/communication.py:54 | bytes that decode without error are exactly the encoding of the decoded text |
| Utf8.DecodeFirstEncodeChar | src/communication.py:54 | the first scalar value decodes from its own 1 to 4 byte encoding, whatever follows it |
| Utf8.EncodeCharDecodeFirst | src/communication.py:54 | a well-formed leading sequence is the shortest-form encoding of the value it decodes to |
| Utf8.EncodeAscii | src/communication.py:113 | ASCII text encodes to one byte per character, the character's code |
| Decimal.NatText | src/communication.py:113 | `str(n)` of a natural number is a non-empty run of digits with no leading zero unless n is 0 |
| Decimal.IntText | src/communication.py:43 | `str(port)` is non-empty and starts with '-' exactly when the port is negative; `Decimal.ParseIntText` reads it back |
| Decimal.Announcement | src/communication.py:113 | the announcement `str(len(frame)).encode()` is a non-empty run of ASCII digit bytes |
| Decimal.ParseAnnouncement | src/communication.py:165 | `int(data.decode())`; `Decimal.AnnouncementRoundTrip` shows it recovers every announced length |
| Decimal.ParseInt | src/communication.py:165 | `int()` succeeds exactly on an optional sign followed by one or more digits |
| Decimal.DigitsValueNatText | src/communication.py:113 | the digits of `str(n)` have the value n |
| Decimal.NatTextDigitsValue | src/communication.py:165 | a digit run without a leading zero is the text of its value |
| Decimal.ParseIntText | src/communication.py:165 | `int(str(n)) == n` for every integer the model meets (ports and frame lengths), negative ones included |
| Decimal.TextParseInt | src/communication.py:165 | canonical decimal text is exactly `str` of the value `int` reads from it |
| Decimal.AnnouncementRoundTrip | src/communication.py:165 | the receiver parses the length announcement that line 113 sends for any frame length back to that length |
| Decimal.AnnouncementLength | src/communication.py:113 | a length below 10^k is announced in at most k bytes, one per digit |
| Header.HeaderText | src/communication.py:42-43 | the header text; `Header.SplitHeaderText` and `Header.SplitHeaderTextExtra` state when it splits back into its three fields |
| Header.HeaderTextIsJoin | src/communication.py:43 | the header line 43 builds is the '/'-join of host, port text and data type, so `Header.JoinSplit` and `Header.SplitCount` apply to it |
| Header.Split | src/communication.py:57 | `split("/")` always gives at least one piece |
| Header.SplitCount | src/communication.py:57 | the number of pieces is one more than the number of separators |
| Header.JoinSplit | src/communication.py:43 | joining the pieces of a split with the separator gives back the text |
| Header.SplitField | src/communication.py:57 | a field free of '/' followed by '/' splits off as exactly one piece |
| Header.SplitWhole | src/communication.py:57 | a text free of '/' splits into itself alone |
| Header.NoSeparatorInIntText | src/communication.py:42-43 | the port's decimal text never contains '/' |
| Header.SplitHeaderText | src/communication.py:42-43 | a header whose host and data type are free of '/' splits into exactly host, port text and data type |
| Header.SplitHeaderTextExtra | src/communication.py:57 | a '/' inside host or data type makes the header split into more than three pieces |
| Frame.Pack | src/communication.py:40-49 | packing fails exactly when the header or payload length exceeds 2^31-1, and a frame is 8 bytes longer than header and payload together |
| Frame.PackLayout | src/communication.py:41-48 | bytes [0,4) read as the header length, then the header, then 4 bytes that read as the payload length, then the payload |
| Frame.ReadHeader | src/communication.py:53-55 | reading the header fails on any buffer shorter than 8 bytes, and on success the header has at least one field |
| Frame.UnPack | src/communication.py:51-58 | `unPack` as written: it fails on buffers shorter than 8 bytes, and a payload it returns is non-empty and is the tail of the frame |
| Frame.UnPackOutcome | src/communication.py:51-58 | on any buffer, `unPack` succeeds exactly when the header length h is not negative, 8 + h bytes are there, the header is valid UTF-8, and the declared payload length p satisfies 0 < p <= len(frame); the result is then the split header and exactly the last p bytes |
| Frame.UnPackFixed | src/communication.py:51-58 | the corrected `unPack`: a payload it returns, possibly empty, is the tail of the frame |
| Frame.UnPackFixedOutcome | src/communication.py:51-58 | the same characterization for the corrected decoder, with 0 <= p |
| Frame.ReadPackedHeader | src/communication.py:53-55 | on a packed frame the header reads back as the split header text and the payload length as the payload's length |
| Frame.ReadHeaderPrefix | src/communication.py:53-55 | reading the header looks at no byte after the payload-length field |
| Frame.PackUnPack | src/communication.py:40-58 | `unPack(Pack(d, p))` is `([host, str(port), d], p)` for a non-empty p when host and d are free of '/' |
| Frame.UnPackRejectsEmptyPayload | src/communication.py:56 | a packed frame with an empty payload always fails to unpack |
| Frame.PackUnPackFixed | src/communication.py:40-58 | with the corrected tail slice the round trip holds for every payload, the empty one included |
| Frame.UnPackFixedExtends | src/communication.py:56 | the correction agrees with `unPack` wherever `unPack` succeeds, and otherwise only adds empty payloads |
| Frame.PackUnPackExtraFields | src/communication.py:43-57 | with a '/' inside host or data type the frame still unpacks, into more than three header fields |
| Frame.UnPackSkipsPadding | src/communication.py:55-56 | bytes inserted between the payload-length field and the payload are ignored |
| Frame.UnPackRejectsTruncatedHeader | src/communication.py:53-55 | a frame cut anywhere before its payload fails to unpack, with or without the correction |
| Frame.UnPackRejectsShortPayload | src/communication.py:55-56 | a packed frame cut inside its payload to fewer bytes than the payload has fails to unpack, with or without the correction |
| Frame.UnPackTruncatedPayload | src/communication.py:56 | a frame cut inside its payload, but still no shorter than the payload, unpacks to the last bytes that arrived |
| Receive.Recv | src/communication.py:169 | one `recv(n)` returns at most n of the unread bytes, in order, and is empty only when the peer has closed with nothing left |
| Receive.ConcatAppend | src/communication.py:172 | extending the frame by a chunk appends the chunk |
| Receive.RequestsExtend | src/communication.py:168 | a further request for what is still missing, capped at 2048, keeps the record of requests: each asked for what was missing when it was made, between 1 and 2048 bytes, and no chunk exceeded its request |
| Receive.ReceiveFrame | src/communication.py:166-172 | each request is min(size - received, 2048) and between 1 and 2048; the loop succeeds exactly when the peer sent at least size bytes, and then the frame is the chunks in order and exactly the first size bytes sent; otherwise the one empty chunk is the last and the message is lost |
| Communication.Communication.constructor | src/communication.py:12-19 | a new node is not killed and has an empty inbox, outbox and thread registry |
| Communication.Communication.Kill | src/communication.py:28-33 | `kill` negates the flag and joins the registered threads only when the flag becomes true |
| Communication.Communication.Send | src/communication.py:36-37 | `Send` appends exactly one `(destination, datatype, data)` entry at the back of the outbox |
| Communication.KillTwice | src/communication.py:29-33 | two evaluations of `kill` restore the flag, exactly one of them joins the threads, and the queues are untouched |
| Unicast.Dispatch | src/communication.py:97-116 | an entry is sent exactly when it packs and its destination is reachable, to its own destination, with an announcement that reads back as the frame's length |
| Unicast.DispatchAll | src/communication.py:94-128 | the transmissions of successive passes; `Unicast.DispatchAllBounds` states their bounds |
| Unicast.DispatchAllBounds | src/communication.py:94-128 | successive passes send at most one transmission per entry, and every transmission is exactly what the pass over one of the entries sends: that entry's frame, to that entry's destination |
| Unicast.DispatchAllPresent | src/communication.py:94-128 | a run sends exactly the transmissions of the passes that send, in outbox order, and nothing else |
| Unicast.DispatchAllComplete | src/communication.py:94-128 | nothing is lost: when every entry packs and every destination is reachable, a run sends one transmission per entry, the i-th being entry i's |
| Unicast.Served | src/communication.py:159-179 | one accepted connection adds at most one message, and never one with an empty payload |
| Unicast.ServedAll | src/communication.py:156-183 | the messages of successive connections; `Unicast.ServedAllBounds` states their bounds |
| Unicast.ServedAllBounds | src/communication.py:156-183 | successive connections add at most one message each, none with an empty payload |
| Unicast.Delivery | src/communication.py:113-176 | a frame with a non-empty payload that `push` sends to a listening `pull` arrives as exactly `[host, str(port), datatype]` and the payload, however the network cuts it into chunks |
| Unicast.DeliveryDropsEmpty | src/communication.py:175 | a frame with an empty payload is sent, but the receiver's `unPack` raises and the inbox gains nothing |
| Unicast.AnnouncementFits | src/communication.py:161 | the length announcement of every frame `Pack` can build fits the receiver's first 1024-byte read |
| Unicast.Node.constructor | src/communication.py:70-71 | a new unicast node starts with the shared empty state |
| Unicast.Node.Start | src/communication.py:187-205 | `Start` registers the inbound worker, then the outbound one |
| Unicast.Node.PushStep | src/communication.py:94-128 | an empty outbox changes nothing; otherwise the head is removed for good and is sent exactly when it packs and its destination is reachable |
| Unicast.Node.Push | src/communication.py:87-128 | `push` sends the outbox entries at most once each, in order, one pass per reachability outcome, and removes exactly the entries it went through |
| Unicast.Node.ServeConnection | src/communication.py:159-179 | one accepted connection adds the message `unPack` decodes to the inbox, or nothing when any step fails |
| Unicast.Node.Pull | src/communication.py:145-184 | `pull` adds the messages of the accepted connections in order, and nothing if the port cannot be bound |
| Multicast.Step | src/communication.py:236-254 | one pass: an empty outbox is a timeout that changes nothing; a datagram goes out exactly when the head packs and the send succeeds, and it carries the head's frame to the head's destination; a sent entry moves from the head of the outbox to the back; an entry that does not pack or whose send fails is dropped |
| Multicast.StepSent | src/communication.py:247-252 | a successful pass sends the head's frame to its destination and moves the head to the back |
| Multicast.Rotated | src/communication.py:238-252 | turning the outbox keeps its length and its contents as a multiset |
| Multicast.Run | src/communication.py:236-254 | successive passes; `Multicast.RunBounds`, `Multicast.RunAppend` and `Multicast.BroadcastRounds` state its properties |
| Multicast.RunBounds | src/communication.py:236-254 | the outbox only keeps or loses entries (as a multiset), and each pass sends at most one datagram |
| Multicast.StepBounds | src/communication.py:238-252 | one pass keeps or loses entries and sends at most one datagram |
| Multicast.RunAppend | src/communication.py:236-254 | two runs of passes one after the other are one run over both outcome sequences |
| Multicast.BroadcastPrefix | src/communication.py:234-254 | within the first round of successful passes, pass j sends entry j and the outbox is turned by the number of passes |
| Multicast.BroadcastRounds | src/communication.py:234-254 | r rounds of |q| successful passes send every entry once per round in outbox order and leave the outbox as it started |
| Multicast.Received | src/communication.py:265 | `recv(1024)` keeps at most the first 1024 bytes of a datagram, and all of a datagram that fits |
| Multicast.Kept | src/communication.py:259-275 | every kept message but the last has fewer than three header fields, so at most one has three or more and it is the last one read; no kept payload is empty |
| Multicast.KeptEmpty | src/communication.py:263-275 | the receiver gets nothing exactly when no datagram decodes |
| Multicast.KeptAt | src/communication.py:263-275 | when datagram i is the first that decodes to a header of at least three fields, the receiver keeps the messages of the decodable datagrams before it, then its message, and reads nothing after it |
| Multicast.KeptAll | src/communication.py:259-275 | with no such datagram the receiver keeps, in arrival order, the decoded message of every datagram that decodes and nothing else |
| Multicast.Decodable | src/communication.py:265-266 | a datagram is listed exactly when it arrived and decodes; no more of them than arrived |
| Multicast.MulticastDelivery | src/communication.py:247-271 | a broadcast frame with a non-empty payload that fits the 1024-byte read reaches the receiver as `[host, str(port), datatype]` and the payload, and ends its loop |
| Multicast.MulticastDropsEmpty | src/communication.py:266 | a broadcast frame with an empty payload is skipped: `unPack` raises and the receiver reads on |
| Multicast.MulticastNode.constructor | src/communication.py:208-216 | a new multicast node keeps its mode and group and starts with the shared empty state |
| Multicast.MulticastNode.Start | src/communication.py:297-309 | a receiver registers its inbound worker, a broadcaster its outbound one, and any other mode neither |
| Multicast.MulticastNode.PushStep | src/communication.py:236-254 | one broadcaster pass is `Step`, and a successful send keeps the outbox's contents as a multiset |
| Multicast.MulticastNode.Push | src/communication.py:234-254 | `push` is `Run` over the send outcomes, and nothing once the node is killed |
| Multicast.MulticastNode.Pull | src/communication.py:256-277 | `pull` adds `Kept` of the datagrams to the inbox, and nothing if the socket could not be set up |

## Left out

- Sockets are not modelled: creation, bind, listen, accept, connect, timeouts, `sendto` and `recv`. Each is replaced by the outcome it delivers.
- The acknowledgement texts the peers send each other (`okay` and `received … bytes`) are not modelled. Nothing reads them.
- Threads and `join` are not modelled. `Kill` returns the registered workers it would join.
- The locking of the queues is not modelled; the queues are plain sequences.
- `task_done` is not modelled, because it changes no observable state.
- `time.sleep` is not modelled, and a timeout is one pass that does nothing.
- Lazy host resolution (`socket.gethostname`, `gethostbyname`) is a foreign call. The host is a given string.
- Coloured printing and the no-op `Communication.Start` are left out. The one effect of printing that is modelled: after `inbox.put`, the receivers' reports read the second and third header fields, which raises for a header with fewer than three fields. In unicast `pull` that only ends the connection's handling, after the message was put. In multicast `pull` it skips the `break` (`Multicast.Kept`).
- Multicast group membership is left out. The `IP_ADD_MEMBERSHIP` option is commented out in the source and never applied.
- The TTL option of the broadcaster's socket is left out.
- Decimal.ParseInt: Python's `int()` also accepts surrounding whitespace, underscores between digits and non-ASCII digits. None of these appears in an announcement `push` sends, so the model rejects them.
- Unicast.Served: the announcement is taken to be the whole first `recv(1024)`. The case where it arrives split across reads, or joined with frame bytes, is not modelled.
- Frame.Pack: strings are sequences of Unicode scalar values, so a host or data type holding a lone surrogate (legal in a Python `str`) cannot be expressed. The `UnicodeEncodeError` line 43 raises on one, after which `push` drops the entry, is not modelled.
- Unicast.Node.Push: any failure after connecting counts as an unreachable destination. This covers a send that raises or a peer that closes. Either way the entry is dropped, as in the source.
- Multicast.MulticastNode.Push: the broadcaster's own socket setup failing is a send that fails on every pass.
- Multicast.MulticastNode.Pull: when the socket cannot be set up, the source keeps looping until the node is killed, because each pass raises `AttributeError` at line 264 and line 274 catches it. The model returns at once. Either way the inbox is unchanged.
- Decimal.ParseIntText: CPython by default refuses to convert between `str` and `int` for numbers of more than 4300 digits. That limit is not modelled. Ports and frame lengths are far below it.
- Entries whose data is not a byte string, where `struct.pack` would raise for another reason, are not modelled. The data is always `seq<byte>`.

## Findings

| source | as written | input that shows it | evidently intended | confidence | as-written member | corrected member |
|---|---|---|---|---|---|---|
| src/communication.py:56 | the payload is `frame[-payloadsize:]`, and for a payload size of 0 that is the whole frame, so `struct.unpack("<0s", …)` raises | `Pack("t", b"")` on any node, then `unPack` of the result | an empty payload unpacks as `b""`, e.g. by slicing `frame[len(frame) - payloadsize:]` | high (not executed) | Frame.UnPackRejectsEmptyPayload | Frame.PackUnPackFixed |
