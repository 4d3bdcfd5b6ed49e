# TensorMQ broker core in Dafny

TensorMQ is a publish/subscribe broker for tensors. Clients speak TMQP over
TCP. Every frame is a fixed 32-byte header followed by a topic, an opaque
metadata blob and the tensor bytes. This project models the broker's core
and proves properties of the model:

- `Protocol` (protocol.dfy): the header codec. It covers the message-type
  enumeration and its `TryFrom<u8>`, the big-endian `encode` into a growable
  buffer, and the validating `decode` that advances a read cursor. The
  buffers are the classes `Bytes.WriteBuf` and `Bytes.ByteReader` (bytes.dfy).
- `Broadcast` and `TopicTable` (broadcast.dfy): the bounded broadcast channel
  both brokers store, as a value. Each live receiver has a backlog of at most
  `capacity` messages and a lag counter. The "insert a channel if the key is
  absent, then subscribe" idiom both brokers share is also modelled here.
- `Routing` (routing.dfy): the routing engine. It has the segment-wise topic
  matcher, and a broker with two namespaces: exact topics and wildcard
  patterns. A key goes to the pattern namespace exactly when it contains
  `*`. Publish fans a message out to the exact entry and to every matching
  pattern, and adds up the receivers reached.
- `DraftBroker` (draft_broker.dfy): the earlier broker with one exact-only
  topic map, which the connection handler uses.
- `Connection` (connection.dfy): `handle_connection`. The socket is a class
  with an input byte sequence consumed from the front and an output byte
  sequence appended to. What `rx.recv()` returns while a subscriber is
  forwarding is a sequence of receive results, given as an input.
  `HandleConnection` is proved against `Serve`, a functional definition of
  the frame loop. The lemmas about `Serve` state the end-to-end properties:
  - forwarded bytes read back as frames;
  - a connection forwards a prefix of what was delivered, in order;
  - topics persist.

Bytes are integers `0..255`. Fixed-width integers are subset types of
`int`, and every wrap-around or truncating cast in the code is written out
with `%`, except the payload size in the frame loop (see Left out and
Findings). Topics are byte strings: `/` and `*` are ASCII, so splitting a
UTF-8 string on them is the same as splitting its bytes.

## Model

| member | source | states |
|---|---|---|
| Bytes.FromToBigEndian | broker/src/protocol.rs:64-71 | reading back the n big-endian bytes written for a value below 256^n gives that value |
| Bytes.ToFromBigEndian | broker/src/protocol.rs:83-94 | writing the value read from a byte string gives the same byte string back, so the layout is a bijection |
| Bytes.WriteBuf.PutByte | broker/src/protocol.rs:66-67 | `put_u8` appends exactly that one byte |
| Bytes.WriteBuf.PutUint | broker/src/protocol.rs:64-71 | `put_u16`/`put_u32`/`put_u64` append the value's n bytes, most significant first |
| Bytes.ByteReader.GetUint | broker/src/protocol.rs:83-94 | `get_uN` consumes n bytes from the front and returns their big-endian value |
| Protocol.Code | broker/src/protocol.rs:19-30 | every discriminant lies in 1..8 |
| Protocol.TryFrom | broker/src/protocol.rs:32-48 | succeeds exactly on 1..8, naming the variant with that discriminant, otherwise fails with `UnknownMsgType(value)` |
| Protocol.TryFromCode | broker/src/protocol.rs:21-47 | `try_from(t as u8) == Ok(t)` for every variant |
| Protocol.HeaderBytes | broker/src/protocol.rs:63-72 | an encoded header is exactly 32 bytes |
| Protocol.MagicBytes | broker/src/protocol.rs:6 | the magic number is the bytes "TMQP" on the wire |
| Protocol.HeaderSlices | broker/src/protocol.rs:63-72 | each field's big-endian bytes sit at offsets 0/4/6/7/8/16/20/24 |
| Protocol.HeaderLayout | broker/src/protocol.rs:63-72 | the magic comes first, and each field can be read back from its own offset |
| Protocol.RoundTrip | broker/src/protocol.rs:63-101 | decoding `encode(h)` followed by any bytes gives `Ok(h)` and consumes exactly 32 bytes |
| Protocol.ParseReadsOnlyHeader | broker/src/protocol.rs:88-100 | bytes after the first 32 never affect a decode |
| Protocol.ParseInverse | broker/src/protocol.rs:75-101 | a successful decode consumes 32 bytes, and those bytes are exactly the encoding of the decoded header, so the codec is a bijection |
| Protocol.ParseAccepts | broker/src/protocol.rs:75-101 | decode succeeds iff there are at least 32 bytes, the magic comes first and the type byte is in 1..8; version, flags, stream id and lengths are never checked |
| Protocol.ParseErrors | broker/src/protocol.rs:76-96 | the three errors in checking order: `Incomplete{32, available}` consuming nothing, `InvalidMagic(value)` after 4 bytes, `UnknownMsgType(byte)` after all 32 |
| Protocol.InvalidMagicIgnoresRest | broker/src/protocol.rs:83-86 | a wrong magic is reported with its own value whatever the other 28 bytes hold |
| Protocol.Encode | broker/src/protocol.rs:63-72 | appends exactly the 32 header bytes to whatever the buffer already held |
| Protocol.Decode | broker/src/protocol.rs:75-101 | the result and the cursor advance are those of `ParseHeader`, on every input including the error paths |
| Broadcast.NewChannel | broker/src/broker.rs:53 | a new channel has the given capacity and no receiver |
| Broadcast.AddReceiver | broker/src/broker.rs:56 | `subscribe` adds one fresh receiver with an empty backlog and leaves the others alone |
| Broadcast.DropReceiver | src/connection.rs:103-105 | dropping a receiver removes exactly that one |
| Broadcast.Push | broker/src/broker.rs:70 | a receiver's backlog keeps the newest `capacity` messages and counts each one pushed off |
| Broadcast.Send | broker/src/broker.rs:70-72 | a send succeeds iff there is a receiver; a failed send changes nothing; otherwise each receiver's backlog takes the message |
| Broadcast.TryRecv | src/connection.rs:81-106 | a pending lag is reported and reset before anything else; otherwise the oldest held message is delivered and removed; with nothing held the receive yields nothing and changes nothing; other receivers are untouched |
| Broadcast.SendAllBacklog | src/connection.rs:81-102 | after any run of sends, a receiver holds the newest `capacity` messages of its backlog plus the sends, and has counted all the others as skipped |
| Broadcast.FanOutInOrder | src/connection.rs:81-98 | a receiver that keeps up receives every message in send order with no lag, the same for every receiver |
| Broadcast.RecvInOrder | src/connection.rs:81-99 | a receiver with no lag receives exactly its backlog, oldest first, one message per receive |
| Broadcast.SendThenRecvInOrder | src/connection.rs:81-99 | a receiver that starts level and keeps up receives every sent message in send order, with no lag reported |
| Broadcast.OverflowReportsLag | src/connection.rs:100-102 | more than `capacity` sends make the next receive report the exact number missed, and the sender never waits |
| TopicTable.Register | broker/src/broker.rs:52-56 | a channel is created only if the key is absent; an existing channel keeps its receivers; exactly one receiver is added; other keys are untouched |
| TopicTable.Release | src/connection.rs:103-105 | dropping a receiver keeps the key and every other entry |
| Routing.Split | broker/src/broker.rs:27-28 | `split('/')` gives one more piece than there are slashes, no piece has a slash, and joining the pieces gives the string back |
| Routing.SplitInjective | broker/src/broker.rs:27-28 | two topics with the same segments are equal |
| Routing.SplitWords | broker/src/broker.rs:27-28 | splitting slash-joined slash-free words gives the words back |
| Routing.MatchesPattern | broker/src/broker.rs:26-39 | the early-return loop decides exactly the matching rule: equal segment counts, and each pattern segment is `*` or equal |
| Routing.MatchesReflexive | broker/src/broker.rs:33-35 | every topic matches itself |
| Routing.DepthMismatch | broker/src/broker.rs:30-32 | topics and patterns with different numbers of `/` never match |
| Routing.LiteralPatternMatchesOnlyItself | broker/src/broker.rs:33-35 | a pattern with no segment that is exactly `*` matches only itself, so `a*` is literal |
| Routing.ExactKeyMatchesOnlyItself | broker/src/broker.rs:51-63 | a key without `*` matches exactly the topic equal to it |
| Routing.WildcardExamples | broker/src/broker.rs:26-39 | `a/*/c` matches `a/b/c` and `a/x/c` |
| Routing.DepthExamples | broker/src/broker.rs:30-32 | `a/*/c` matches neither `a/b/c/d` nor `a/c` |
| Routing.LiteralExamples | broker/src/broker.rs:33-35 | `a` does not match `a/*`, and `ab` does not match `a*` |
| Routing.SumCountsRemove | broker/src/broker.rs:75-82 | the receiver total over a set of channels does not depend on visiting order |
| Routing.SumCountsZero | broker/src/broker.rs:84-88 | the total is 0 iff every channel counted has no receiver |
| Routing.CountStep | broker/src/broker.rs:77-80 | visiting one more pattern adds its receivers exactly when the topic matches it |
| Routing.DeliverExact | broker/src/broker.rs:69-73 | the exact namespace keeps its keys and well-formed channels |
| Routing.DeliverPatterns | broker/src/broker.rs:75-82 | the pattern namespace keeps its keys |
| Routing.Route | broker/src/broker.rs:77-81 | a pattern channel after a publish stays well formed with its capacity |
| Routing.PartialStep | broker/src/broker.rs:75-82 | routing one more pattern is one map update, a send exactly when it matches |
| Routing.PartialDone | broker/src/broker.rs:75-82 | with every pattern visited, the table is the published one; with none visited, it is unchanged |
| Routing.HitsAll | broker/src/broker.rs:75-82 | once every key is visited, the matched keys are all the matching keys |
| Routing.DeliveryKeepsValid | broker/src/broker.rs:66-89 | publishing keeps both tables well formed at the broker's capacity |
| Routing.SendChanges | broker/src/broker.rs:70 | a send changes a channel exactly when it has a receiver |
| Routing.DeliveryTargets | broker/src/broker.rs:69-82 | the channels a publish changes are exactly the exact entry keyed by the topic and the matching pattern entries, of those only the ones with a receiver |
| Routing.PatternReceiversGetMessage | broker/src/broker.rs:77-79 | every receiver of a matching pattern finds the message as the newest entry of its backlog |
| Routing.SendToPatterns | broker/src/broker.rs:75-82 | the loop over the pattern map, in any order, leaves exactly the published pattern table and counts the receivers of every matching pattern |
| Routing.Broker.constructor | broker/src/broker.rs:42-48 | both namespaces start empty |
| Routing.Broker.Subscribe | broker/src/broker.rs:50-64 | a key with `*` is registered only in the pattern map, any other key only in the exact map, and the namespaces stay disjoint |
| Routing.Broker.Publish | broker/src/broker.rs:66-89 | the exact entry and every matching pattern are sent to, no key set changes, and the count is the receivers of the exact entry plus those of the matching patterns |
| Routing.NamespacesDisjoint | broker/src/broker.rs:51-63 | no key is ever in both maps |
| Routing.DroppedIffNoReceiver | broker/src/broker.rs:84-88 | the count is 0, the "Dropped" branch, exactly when neither the exact entry nor any matching pattern has a receiver |
| DraftBroker.Published | src/broker.rs:36-47 | only the entry keyed by the topic is sent to; no key is added or removed; each of the three log branches is characterised |
| DraftBroker.PublishedKeepsValid | src/broker.rs:36-47 | publishing keeps the table well formed |
| DraftBroker.Broker.constructor | src/broker.rs:21-26 | the topic map starts empty |
| DraftBroker.Broker.Subscribe | src/broker.rs:28-34 | insert-if-absent and then subscribe, with `*` an ordinary byte |
| DraftBroker.Broker.Publish | src/broker.rs:36-47 | the table and the log branch are those of `Published` |
| DraftBroker.Broker.Release | src/connection.rs:103-105 | dropping a subscriber's receiver keeps its topic entry |
| DraftBroker.KeysOnlyGrow | src/broker.rs:15-48 | publish and release keep the key set, subscribe adds only its key, and subscribing twice is the same as once |
| DraftBroker.SubscribeThenPublish | src/broker.rs:28-43 | after subscribing, a publish on that topic takes the "Broadcasted" branch and lands in the new receiver's backlog; other topics leave the channel alone |
| Connection.Socket.constructor | src/connection.rs:30 | a fresh connection has all its input ahead and has written nothing |
| Connection.Socket.ReadExact | src/connection.rs:33-41 | n bytes from the front, or the stream's end error when fewer are left |
| Connection.Socket.WriteAll | src/connection.rs:95-98 | appends the bytes to the output |
| Connection.WrappingPayloadSizeDesyncs | src/connection.rs:54 | for topic length 2^32-1 and meta length 1, the size as written is 0 where the announced payload is 2^32 bytes |
| Connection.ReadFrame | src/connection.rs:33-64 | a frame that is read consumes at least its 32 header bytes, so the frame loop makes progress |
| Connection.ReadBody | src/connection.rs:54-64 | reading a payload never grows the input |
| Connection.BodyLayout | src/connection.rs:56-64 | a payload that was read is topic, meta and tensor of the announced lengths, followed by the rest of the stream |
| Connection.BodyReadsBack | src/connection.rs:57-64 | a payload laid out as announced is read back piece by piece |
| Connection.FrameLayout | src/connection.rs:33-64 | a frame that was read is its header's encoding, then topic, meta and tensor of exactly the announced lengths |
| Connection.ShortHeaderEnds | src/connection.rs:33-41 | a stream that ends cleanly before a full header closes the connection without error, even after some bytes; a failing one aborts it |
| Connection.DecodeNeverIncomplete | src/connection.rs:31-49 | `Incomplete` never reaches the connection, because decode always gets 32 bytes |
| Connection.ForwardHeader | src/connection.rs:84-92 | a forwarded header is `Publish`, version 2, flags 0, stream 0, with the actual lengths whenever they fit |
| Connection.ForwardedFrameReadsBack | src/connection.rs:83-98 | what a subscriber is sent for one message reads back as that message's frame, whatever follows |
| Connection.SplitPayload | src/connection.rs:62-64 | the three `split_to`/`freeze` pieces have the announced lengths and concatenate to the payload |
| Connection.ConcatAppend | src/connection.rs:93-98 | the wire bytes of two runs of messages are the bytes of each, in order |
| Connection.WireReadsBack | src/connection.rs:80-99 | a peer reading back what was forwarded gets one frame per message, in order, each with that message's topic, meta and tensor |
| Connection.DeliveredAppend | src/connection.rs:81-99 | the messages among two runs of receive results are those of each, in order |
| Connection.Forward | src/connection.rs:80-107 | the forward loop stops only on `Closed` or when the results run out |
| Connection.ForwardTakesPrefix | src/connection.rs:80-107 | the forward loop consumes a prefix of the receive results and writes exactly its messages in order |
| Connection.ForwardStopsAtClosed | src/connection.rs:100-105 | a lag never ends the loop; it ends at the first `Closed`, and runs out only when there is none |
| Connection.WriteFrame | src/connection.rs:83-98 | writes the encoded forward header, then topic, meta and tensor |
| Connection.ForwardLoop | src/connection.rs:80-107 | the loop run on the socket writes the frames of the forwarded messages and leaves as `Forward` says |
| Connection.NextFrame | src/connection.rs:33-64 | header read, decode, payload read and slicing give exactly `ReadFrame`, and consume the frame |
| Connection.ActTable | src/connection.rs:66-108 | dispatching a frame keeps the table well formed and never removes a key |
| Connection.ListenTakesPrefix | src/connection.rs:75-107 | a frame consumes a prefix of the receive results and forwards its messages; it waits only once all have been consumed |
| Connection.ActOn | src/connection.rs:66-108 | an empty payload or another type does nothing; Publish publishes the lossily decoded topic; Subscribe registers, forwards, and drops the receiver on `Closed` |
| Connection.Serve | src/connection.rs:30-111 | the frame loop keeps the table well formed, and what it forwards depends only on the input and the receive results |
| Connection.HandleConnection | src/connection.rs:30-111 | the outcome, the broker's table and the bytes written are those of `Serve` |
| Connection.ServeKeepsKeys | src/connection.rs:30-111 | every topic in the table before a connection is still there after it |
| Connection.SentIsDelivered | src/connection.rs:80-107 | a connection forwards a prefix of what its receivers delivered, in delivery order, with nothing invented, repeated or reordered |
| Connection.PublishersWriteNothing | src/connection.rs:68-74 | a connection whose receivers deliver nothing, such as a pure publisher, writes nothing |
| Connection.NothingDelivered | src/connection.rs:100-105 | receive results without a message deliver nothing |

## Left out

- `start_server` (src/connection.rs:11-27) and src/main.rs are left out. They bind the listener, accept connections and spawn tasks, which is bootstrap and I/O.
- async/await, `Arc` and `DashMap` locking are left out. Each broker is a single-threaded object whose maps the methods reassign.
- The internals of `tokio::sync::broadcast` are left out: the ring buffer, capacity rounded up to a power of two, and `receiver_count` under races. A channel is a value holding a bounded backlog per receiver.
- `Connection.HandleConnection` does not tie `rx.recv()` results to the broker's channel state. The receive results are an input sequence standing for what other connections publish meanwhile. When they run out, the connection is left waiting (`AwaitingMessage`).
- The model allows `Closed` in those results. The broker never drops a sender, so in the running system it cannot occur.
- `String::from_utf8_lossy` is the function parameter `lossy` of the handler. UTF-8 replacement is not specified.
- All `println!`/`eprintln!` output and the `Display` text of `ProtocolError` are left out. The routing broker's "Routed"/"Dropped" choice is stated by `Routing.DroppedIffNoReceiver`. The draft broker's three log lines are the `PublishOutcome` its publish returns.
- The `msg_type`, `flags` and `stream_id` fields of broker/src/broker.rs's `TensorMessage` are left out. They are pass-through data, and the connection handler builds the draft broker's message, which lacks them.
- Write failures on the socket are left out. `write_all` always succeeds in the model.
- Allocation failure of `BytesMut::zeroed(payload_size)` for huge announced sizes is left out.
- `Connection.ForwardHeader` writes lengths with `as` casts (`% 2^32`, `% 2^64`). `Connection.WireReadsBack` therefore requires that each message fits those widths. Longer messages are truncated on the wire, and the model does not describe how they read back.
- The handler models the frame loop with the corrected payload size (`Connection.PayloadSize`), not the wrapping sum (see Findings). In a debug build the sum panics instead of wrapping, and that is not modelled either.
- One might expect only a read of zero bytes to be a clean close, and any other short header read to be fatal. The code maps every `UnexpectedEof` from `read_exact` on the header to `Ok(())`, even after a partial header, and the model does the same (`Connection.ShortHeaderEnds`). A short read of a payload is fatal.

## Findings

| source | as written | input that shows it | evidently intended | confidence | as-written member | corrected member |
|---|---|---|---|---|---|---|
| src/connection.rs:54 | `topic_len + meta_len` is added as `u32` before widening, so it wraps in a release build | header with `topic_len = 0xFFFF_FFFF`, `meta_len = 1`, `data_len = 0`: the size is 0, no payload is read, and the 2^32 payload bytes are then parsed as headers | the payload is `topic_len + meta_len + data_len` bytes, computed without overflow | high, by inspection; not executed | Connection.WrappingPayloadSizeDesyncs | Connection.FrameLayout |
