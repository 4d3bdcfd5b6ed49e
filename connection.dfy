/** Per-connection frame processing (src/connection.rs, `handle_connection`).

    The socket is an input byte sequence consumed from the front, with a note
    of how the stream ends after its last byte, and an output byte sequence
    appended to. What `rx.recv()` returns while the connection forwards is
    an input too: a sequence of receive results, standing for whatever the
    other connections publish meanwhile. */
module Connection {
  import opened Wrappers
  import opened Bytes
  import opened Protocol
  import opened Message
  import opened Broadcast
  import opened TopicTable
  import DraftBroker

  /** What the peer's stream does after its last byte. */
  datatype StreamEnd = CleanClose | Failure

  datatype IoError =
    | UnexpectedEof               // `ErrorKind::UnexpectedEof` from `read_exact`
    | Transport                   // any other I/O failure
    | InvalidData(cause: ProtocolError)

  /** How `handle_connection` ends: `Ok(())`, `Err(e)`, or still parked in
      `rx.recv()` when the modelled receive results run out. */
  datatype Outcome = Disconnected | Aborted(error: IoError) | AwaitingMessage

  /** The error `read_exact` reports when the stream ends too early. */
  function EndError(end: StreamEnd): IoError
  {
    if end == CleanClose then UnexpectedEof else Transport
  }

  /** The TCP stream. */
  class Socket {
    var input: seq<u8>
    const end: StreamEnd
    var output: seq<u8>

    constructor (input: seq<u8>, end: StreamEnd)
      ensures this.input == input && this.end == end && output == []
    {
      this.input := input;
      this.end := end;
      output := [];
    }

    /** `read_exact`: n bytes, or the stream's end error when fewer are left
        (the bytes that were there are consumed either way). */
    method ReadExact(n: nat) returns (r: Result<seq<u8>, IoError>)
      modifies this
      ensures output == old(output)
      ensures n <= |old(input)| ==> r == Ok(old(input)[..n]) && input == old(input)[n..]
      ensures n > |old(input)| ==> r == Err(EndError(end)) && input == []
    {
      if n <= |input| {
        r := Ok(input[..n]);
        input := input[n..];
      } else {
        r := Err(EndError(end));
        input := [];
      }
    }

    /** `write_all` */
    method WriteAll(bytes: seq<u8>)
      modifies this
      ensures output == old(output) + bytes && input == old(input)
    {
      output := output + bytes;
    }
  }

  /** The payload length a header announces: topic, meta and tensor bytes,
      added without overflow. */
  function PayloadSize(h: Header): nat
  {
    h.topicLen + h.metaLen + h.dataLen
  }

  /** The payload length as src/connection.rs:54 computes it: `topic_len +
      meta_len` as a `u32` addition, wrapping as a release build does, then
      widened and added to `data_len` in a 64-bit `usize`. */
  function WrappingPayloadSize(h: Header): nat
  {
    ((h.topicLen + h.metaLen) % 0x1_0000_0000 + h.dataLen) % 0x1_0000_0000_0000_0000
  }

  /** A frame whose topic and meta lengths add up to 2^32: the code as
      written computes a payload of 0, reads none of the 2^32 bytes that
      follow, and goes on to parse them as headers. */
  lemma WrappingPayloadSizeDesyncs()
    ensures var h := Header(1, Publish, 0, 0, 0xFFFF_FFFF, 1, 0);
      WrappingPayloadSize(h) == 0 && PayloadSize(h) == 0x1_0000_0000
  {
  }

  datatype Frame = Frame(header: Header, topic: seq<u8>, meta: seq<u8>, tensor: seq<u8>)

  /** The result of reading one frame from the front of the input. */
  datatype FrameRead = EndOfStream | Broken(error: IoError) | Got(frame: Frame, rest: seq<u8>)

  /** One pass of the outer loop up to dispatch: read 32 bytes (a short read
      that ends cleanly is the end of the connection), decode them (any
      protocol error becomes `InvalidData`), then read the payload. */
  function ReadFrame(input: seq<u8>, end: StreamEnd): (r: FrameRead)
    ensures r.Got? ==> |r.rest| + HEADER_SIZE <= |input|
  {
    if |input| < HEADER_SIZE then
      if EndError(end) == UnexpectedEof then EndOfStream else Broken(EndError(end))
    else
      match ParseHeader(input[..HEADER_SIZE]).result
      case Err(e) => Broken(InvalidData(e))
      case Ok(h) => ReadBody(h, input[HEADER_SIZE..], end)
  }

  /** The payload half: nothing to read when the announced size is 0;
      otherwise read that many bytes and cut them into topic, meta and
      tensor. */
  function ReadBody(h: Header, body: seq<u8>, end: StreamEnd): (r: FrameRead)
    ensures r.Got? ==> |r.rest| <= |body|
  {
    var size := PayloadSize(h);
    if size == 0 then Got(Frame(h, [], [], []), body)
    else if |body| < size then Broken(EndError(end))
    else
      var tl: nat, ml: nat := h.topicLen, h.metaLen;
      Got(Frame(h, body[..tl], body[tl..tl + ml], body[tl + ml..size]), body[size..])
  }

  /** A payload that was read holds exactly `topic_len`, `meta_len` and
      `data_len` bytes of topic, meta and tensor, and the stream goes on
      right after them. */
  lemma BodyLayout(h: Header, body: seq<u8>, end: StreamEnd)
    requires ReadBody(h, body, end).Got?
    ensures var r := ReadBody(h, body, end);
      && r.frame.header == h
      && |r.frame.topic| == h.topicLen && |r.frame.meta| == h.metaLen && |r.frame.tensor| == h.dataLen
      && body == r.frame.topic + r.frame.meta + r.frame.tensor + r.rest
  {
    var size := PayloadSize(h);
    if size > 0 {
      var tl: nat, ml: nat := h.topicLen, h.metaLen;
      FourSlices(body, tl, tl + ml, size);
    } else {
      assert [] + [] + [] + body == body;
    }
  }

  /** Conversely, a payload laid out as its header announces is read back
      piece by piece. */
  lemma BodyReadsBack(h: Header, topic: seq<u8>, meta: seq<u8>, tensor: seq<u8>,
                      following: seq<u8>, end: StreamEnd)
    requires |topic| == h.topicLen && |meta| == h.metaLen && |tensor| == h.dataLen
    ensures ReadBody(h, topic + meta + tensor + following, end)
      == Got(Frame(h, topic, meta, tensor), following)
  {
    var body := topic + meta + tensor + following;
    if PayloadSize(h) > 0 {
      ThreeParts(topic, meta, tensor);
      assert body[..PayloadSize(h)] == topic + meta + tensor;
      assert body[PayloadSize(h)..] == following;
    }
  }

  /** A frame that was read is laid out as announced: its header's 32 bytes,
      then exactly `topic_len`, `meta_len` and `data_len` bytes of topic,
      meta and tensor, then the rest of the stream. */
  lemma FrameLayout(input: seq<u8>, end: StreamEnd)
    requires ReadFrame(input, end).Got?
    ensures var f := ReadFrame(input, end).frame;
      && |f.topic| == f.header.topicLen && |f.meta| == f.header.metaLen
      && |f.tensor| == f.header.dataLen
      && input[..HEADER_SIZE] == HeaderBytes(f.header)
      && input[HEADER_SIZE..] == f.topic + f.meta + f.tensor + ReadFrame(input, end).rest
  {
    var head := input[..HEADER_SIZE];
    var h := ParseHeader(head).result.value;
    assert ReadFrame(input, end) == ReadBody(h, input[HEADER_SIZE..], end);
    ParseInverse(head);
    assert head[..HEADER_SIZE] == head;
    BodyLayout(h, input[HEADER_SIZE..], end);
  }

  /** Where a header is expected, any stream that ends cleanly before 32
      bytes, after none of them or after some, closes the connection without
      an error; a failing stream aborts it. */
  lemma ShortHeaderEnds(input: seq<u8>, end: StreamEnd)
    requires |input| < HEADER_SIZE
    ensures end == CleanClose ==> ReadFrame(input, end) == EndOfStream
    ensures end == Failure ==> ReadFrame(input, end) == Broken(Transport)
  {
  }

  /** `decode` is handed exactly 32 bytes, so `Incomplete` never reaches the
      connection: a frame fails only on its magic, its type code or I/O. */
  lemma DecodeNeverIncomplete(input: seq<u8>, end: StreamEnd)
    ensures !ReadFrame(input, end).Broken? || !ReadFrame(input, end).error.InvalidData?
      || !ReadFrame(input, end).error.cause.Incomplete?
  {
  }

  /** The header written in front of a forwarded message: version 2,
      `Publish`, no flags, stream 0, and the actual lengths, cast with `as`
      as the source does. */
  function ForwardHeader(msg: TensorMessage): (h: Header)
    ensures h.msgType == Publish && h.version == 2 && h.flags == 0 && h.streamId == 0
    ensures |msg.topic| < 0x1_0000_0000 ==> h.topicLen == |msg.topic|
    ensures |msg.meta| < 0x1_0000_0000 ==> h.metaLen == |msg.meta|
    ensures |msg.tensor| < 0x1_0000_0000_0000_0000 ==> h.dataLen == |msg.tensor|
  {
    Header(2, Publish, 0, 0, |msg.topic| % 0x1_0000_0000, |msg.meta| % 0x1_0000_0000,
           |msg.tensor| % 0x1_0000_0000_0000_0000)
  }

  /** The bytes one forwarded message puts on the wire. */
  function ForwardBytes(msg: TensorMessage): seq<u8>
  {
    HeaderBytes(ForwardHeader(msg)) + msg.topic + msg.meta + msg.tensor
  }

  /** A message is within the lengths a header can announce. */
  predicate Fits(msg: TensorMessage)
  {
    |msg.topic| < 0x1_0000_0000 && |msg.meta| < 0x1_0000_0000
      && |msg.tensor| < 0x1_0000_0000_0000_0000
  }

  /** The frame a reader sees for a forwarded message. */
  function FrameOf(msg: TensorMessage): Frame
  {
    Frame(ForwardHeader(msg), msg.topic, msg.meta, msg.tensor)
  }

  /** What a subscriber's connection writes is itself a well-formed frame:
      a peer running the same frame reader gets the message back. */
  lemma ForwardedFrameReadsBack(msg: TensorMessage, following: seq<u8>, end: StreamEnd)
    requires Fits(msg)
    ensures ReadFrame(ForwardBytes(msg) + following, end) == Got(FrameOf(msg), following)
  {
    var h := ForwardHeader(msg);
    var payload := msg.topic + msg.meta + msg.tensor;
    var input := ForwardBytes(msg) + following;
    AppendAssoc(HeaderBytes(h) + msg.topic, msg.meta, msg.tensor);
    AppendAssoc(HeaderBytes(h), msg.topic, msg.meta + msg.tensor);
    AppendAssoc(msg.topic, msg.meta, msg.tensor);
    assert ForwardBytes(msg) == HeaderBytes(h) + payload;
    AppendAssoc(HeaderBytes(h), payload, following);
    assert input[..HEADER_SIZE] == HeaderBytes(h);
    assert input[HEADER_SIZE..] == payload + following;
    RoundTrip(h, []);
    assert HeaderBytes(h) + [] == HeaderBytes(h);
    BodyReadsBack(h, msg.topic, msg.meta, msg.tensor, following, end);
  }

  /** `split_to(topic_len)`, `split_to(meta_len)`, `freeze()`: consecutive,
      non-overlapping pieces of the payload of the announced lengths, the
      tensor taking the remainder. */
  method SplitPayload(payload: seq<u8>, topicLen: nat, metaLen: nat)
    returns (topic: seq<u8>, meta: seq<u8>, tensor: seq<u8>)
    requires topicLen + metaLen <= |payload|
    ensures |topic| == topicLen && |meta| == metaLen
    ensures topic + meta + tensor == payload
  {
    var buf := payload;
    topic := buf[..topicLen];
    buf := buf[topicLen..];
    meta := buf[..metaLen];
    buf := buf[metaLen..];
    tensor := buf;
    assert topic + meta + tensor == payload;
  }

  /** The encodings of a run of items, one after the other. */
  function Concat<T>(items: seq<T>, encode: T -> seq<u8>): seq<u8>
  {
    if items == [] then [] else encode(items[0]) + Concat(items[1..], encode)
  }

  lemma {:induction false} ConcatAppend<T>(a: seq<T>, b: seq<T>, encode: T -> seq<u8>)
    ensures Concat(a + b, encode) == Concat(a, encode) + Concat(b, encode)
  {
    if a == [] {
      assert a + b == b;
    } else {
      ConcatAppend(a[1..], b, encode);
      assert (a + b)[0] == a[0];
      assert (a + b)[1..] == a[1..] + b;
      AppendAssoc(encode(a[0]), Concat(a[1..], encode), Concat(b, encode));
    }
  }

  /** The bytes a run of forwarded messages puts on the wire, one frame each,
      in order. */
  function Wire(msgs: seq<TensorMessage>): seq<u8>
  {
    Concat(msgs, ForwardBytes)
  }

  /** Reading frames until the stream stops yielding them. */
  function ReadFrames(input: seq<u8>, end: StreamEnd): seq<Frame>
    decreases |input|
  {
    match ReadFrame(input, end)
    case Got(f, rest) => [f] + ReadFrames(rest, end)
    case _ => []
  }

  /** A peer that reads back what a subscriber's connection wrote gets one
      frame per forwarded message, in order, each with the message's own
      topic, meta and tensor bytes. */
  lemma {:induction false} WireReadsBack(msgs: seq<TensorMessage>, end: StreamEnd)
    requires forall i :: 0 <= i < |msgs| ==> Fits(msgs[i])
    ensures |ReadFrames(Wire(msgs), end)| == |msgs|
    ensures forall i :: 0 <= i < |msgs| ==> ReadFrames(Wire(msgs), end)[i] == FrameOf(msgs[i])
  {
    if msgs != [] {
      WireReadsBack(msgs[1..], end);
      ForwardedFrameReadsBack(msgs[0], Wire(msgs[1..]), end);
      assert Wire(msgs) == ForwardBytes(msgs[0]) + Wire(msgs[1..]);
      var fs := ReadFrames(Wire(msgs), end);
      assert fs == [FrameOf(msgs[0])] + ReadFrames(Wire(msgs[1..]), end);
      forall i | 0 <= i < |msgs|
        ensures fs[i] == FrameOf(msgs[i])
      {
        if i > 0 {
          assert fs[i] == ReadFrames(Wire(msgs[1..]), end)[i - 1];
          assert msgs[i] == msgs[1..][i - 1];
        }
      }
    }
  }

  /** The messages among a run of receive results, in order. */
  function Delivered(events: seq<RecvResult<TensorMessage>>): seq<TensorMessage>
  {
    if events == [] then [] else Carried(events[0]) + Delivered(events[1..])
  }

  /** The message one receive result carries, if any. */
  function Carried(e: RecvResult<TensorMessage>): seq<TensorMessage>
  {
    if e.Received? then [e.msg] else []
  }

  lemma {:induction false} DeliveredAppend(a: seq<RecvResult<TensorMessage>>, b: seq<RecvResult<TensorMessage>>)
    ensures Delivered(a + b) == Delivered(a) + Delivered(b)
  {
    if a == [] {
      assert a + b == b;
    } else {
      DeliveredAppend(a[1..], b);
      assert (a + b)[0] == a[0];
      assert (a + b)[1..] == a[1..] + b;
      AppendAssoc(Carried(a[0]), Delivered(a[1..]), Delivered(b));
    }
  }

  /** The forward loop's effect: the messages it wrote, whether it ended on
      `Closed`, and the receive results left after it. */
  datatype Forwarded = Forwarded(sent: seq<TensorMessage>, closed: bool, rest: seq<RecvResult<TensorMessage>>)

  /** The inner loop: each message is written as a frame, a lag is skipped
      over, `Closed` leaves the loop. */
  function Forward(events: seq<RecvResult<TensorMessage>>): (r: Forwarded)
    ensures r.closed ==> |r.rest| < |events|
    ensures !r.closed ==> r.rest == []
    decreases |events|
  {
    if events == [] then Forwarded([], false, [])
    else
      match events[0]
      case Received(msg) =>
        var r := Forward(events[1..]);
        r.(sent := [msg] + r.sent)
      case Lagged(_) => Forward(events[1..])
      case Closed => Forwarded([], true, events[1..])
  }

  /** The forward loop takes a prefix of the receive results and writes
      exactly the messages in it, in order. */
  lemma {:induction false} ForwardTakesPrefix(events: seq<RecvResult<TensorMessage>>)
    ensures var r := Forward(events);
      var taken := |events| - |r.rest|;
      r.rest == events[taken..] && r.sent == Delivered(events[..taken])
    decreases |events|
  {
    if events != [] {
      ForwardTakesPrefix(events[1..]);
      var r := Forward(events);
      var taken := |events| - |r.rest|;
      if events[0] == Closed {
        assert events[..taken] == [Closed];
      } else {
        assert events[..taken] == [events[0]] + events[1..][..taken - 1];
        assert events[taken..] == events[1..][taken - 1..];
        DeliveredAppend([events[0]], events[1..][..taken - 1]);
      }
    }
  }

  /** A lag never ends the forward loop: it stops on the first `Closed`, and
      only runs out of results when there is none. */
  lemma {:induction false} ForwardStopsAtClosed(events: seq<RecvResult<TensorMessage>>)
    ensures var r := Forward(events);
      var taken := |events| - |r.rest|;
      && (r.closed <==> Closed in events)
      && (r.closed ==> 0 < taken && events[taken - 1] == Closed && Closed !in events[..taken - 1])
    decreases |events|
  {
    if events != [] {
      ForwardStopsAtClosed(events[1..]);
      var r := Forward(events);
      var taken := |events| - |r.rest|;
      assert events == [events[0]] + events[1..];
      if events[0] != Closed && r.closed {
        assert events[..taken - 1] == [events[0]] + events[1..][..taken - 2];
      }
    }
  }

  /** Writing one forwarded message: the encoded header, then topic, meta and
      tensor. */
  method WriteFrame(socket: Socket, msg: TensorMessage)
    modifies socket
    ensures socket.input == old(socket.input)
    ensures socket.output == old(socket.output) + Wire([msg])
  {
    var outHeader := new WriteBuf();
    Encode(ForwardHeader(msg), outHeader);
    ghost var before := socket.output;
    ghost var head := HeaderBytes(ForwardHeader(msg));
    assert outHeader.data == head;
    socket.WriteAll(outHeader.data);
    socket.WriteAll(msg.topic);
    AppendAssoc(before, head, msg.topic);
    socket.WriteAll(msg.meta);
    AppendAssoc(before, head + msg.topic, msg.meta);
    socket.WriteAll(msg.tensor);
    AppendAssoc(before, head + msg.topic + msg.meta, msg.tensor);
    assert socket.output == before + ForwardBytes(msg);
    assert [msg][1..] == [];
    assert Wire([msg]) == ForwardBytes(msg) + Concat([], ForwardBytes);
  }

  /** The forward loop run against the socket. */
  method ForwardLoop(socket: Socket, events: seq<RecvResult<TensorMessage>>)
    returns (closed: bool, rest: seq<RecvResult<TensorMessage>>)
    modifies socket
    ensures socket.input == old(socket.input)
    ensures var fw := Forward(events);
      closed == fw.closed && rest == fw.rest && socket.output == old(socket.output) + Wire(fw.sent)
  {
    rest := events;
    ghost var sent: seq<TensorMessage> := [];
    while rest != []
      invariant socket.input == old(socket.input)
      invariant socket.output == old(socket.output) + Wire(sent)
      invariant Forward(events).closed == Forward(rest).closed
      invariant Forward(events).rest == Forward(rest).rest
      invariant Forward(events).sent == sent + Forward(rest).sent
      decreases |rest|
    {
      var event := rest[0];
      rest := rest[1..];
      match event
      case Received(msg) =>
        WriteFrame(socket, msg);
        ConcatAppend(sent, [msg], ForwardBytes);
        AppendAssoc(old(socket.output), Wire(sent), Wire([msg]));
        AppendAssoc(sent, [msg], Forward(rest).sent);
        sent := sent + [msg];
      case Lagged(_) =>
      case Closed =>
        assert sent + [] == sent;
        return true, rest;
    }
    assert sent + [] == sent;
    return false, [];
  }

  /** The reading half of one pass of the outer loop: the header, its
      decoding, the payload and its three slices. */
  method NextFrame(socket: Socket) returns (r: FrameRead)
    modifies socket
    ensures r == ReadFrame(old(socket.input), socket.end)
    ensures r.Got? ==> socket.input == r.rest
    ensures socket.output == old(socket.output)
  {
    ghost var input := socket.input;
    var headerBuf := socket.ReadExact(HEADER_SIZE);
    if headerBuf.Err? {
      if headerBuf.error == UnexpectedEof {
        return EndOfStream;
      }
      return Broken(headerBuf.error);
    }
    var cursor := new ByteReader(headerBuf.value);
    var decoded := Decode(cursor);
    if decoded.Err? {
      return Broken(InvalidData(decoded.error));
    }
    var header := decoded.value;
    var payloadSize := PayloadSize(header);
    if payloadSize == 0 {
      return Got(Frame(header, [], [], []), socket.input);
    }
    var payload := socket.ReadExact(payloadSize);
    if payload.Err? {
      return Broken(payload.error);
    }
    var topic, meta, tensor := SplitPayload(payload.value, header.topicLen, header.metaLen);
    ghost var body := input[HEADER_SIZE..];
    ghost var tl: nat, ml: nat := header.topicLen, header.metaLen;
    ghost var whole := body[..payloadSize];
    assert payload.value == whole;
    ThreeParts(topic, meta, tensor);
    assert whole[..tl] == body[..tl];
    assert whole[tl..tl + ml] == body[tl..tl + ml];
    assert whole[tl + ml..] == body[tl + ml..payloadSize];
    return Got(Frame(header, topic, meta, tensor), socket.input);
  }

  /** A frame that subscribes: a non-empty payload of type Subscribe. */
  predicate Subscribes(f: Frame)
  {
    PayloadSize(f.header) > 0 && f.header.msgType == Subscribe
  }

  /** The receive results one frame consumes: a subscribing frame runs the
      forward loop, any other frame takes none and forwards nothing. */
  function Listen(f: Frame, events: seq<RecvResult<TensorMessage>>): Forwarded
  {
    if Subscribes(f) then Forward(events) else Forwarded([], false, events)
  }

  /** The table after one frame: an empty payload and an unknown type change
      nothing; a Publish frame is published under the decoded topic; a
      Subscribe frame registers a receiver and, once the forward loop has
      ended on `Closed`, drops it again. */
  function ActTable(f: Frame, events: seq<RecvResult<TensorMessage>>, t: Table, capacity: nat,
                    lossy: seq<u8> -> seq<u8>): (r: Table)
    requires capacity > 0 && TopicTable.Valid(t, capacity)
    ensures TopicTable.Valid(r, capacity)
    ensures t.Keys <= r.Keys
  {
    var h := f.header;
    if PayloadSize(h) == 0 then t
    else
      var key := lossy(f.topic);
      if h.msgType == Publish then
        var msg := TensorMessage(key, f.meta, f.tensor);
        DraftBroker.PublishedKeepsValid(t, msg, capacity);
        DraftBroker.Published(t, msg).0
      else if h.msgType == Subscribe then
        var (t1, id) := Register(t, key, capacity);
        if Forward(events).closed then Release(t1, key, id) else t1
      else t
  }

  /** A frame consumes a prefix of the receive results and forwards exactly
      the messages in it; it leaves the handler waiting only once they have
      all been consumed. */
  lemma ListenTakesPrefix(f: Frame, events: seq<RecvResult<TensorMessage>>)
    ensures var fw := Listen(f, events);
      var taken := |events| - |fw.rest|;
      && 0 <= taken && fw.rest == events[taken..] && fw.sent == Delivered(events[..taken])
      && (Subscribes(f) && !fw.closed ==> fw.rest == [])
  {
    if Subscribes(f) {
      ForwardTakesPrefix(events);
    } else {
      assert events[..0] == [];
    }
  }

  /** The dispatch of one frame run against the broker and the socket. */
  method ActOn(socket: Socket, broker: DraftBroker.Broker, f: Frame,
               events: seq<RecvResult<TensorMessage>>, lossy: seq<u8> -> seq<u8>)
    returns (waiting: bool, pending: seq<RecvResult<TensorMessage>>)
    requires broker.Valid() && broker.channelCapacity > 0
    modifies socket, broker
    ensures broker.Valid()
    ensures var fw := Listen(f, events);
      && waiting == (Subscribes(f) && !fw.closed) && pending == fw.rest
      && broker.topics == ActTable(f, events, old(broker.topics), broker.channelCapacity, lossy)
      && socket.output == old(socket.output) + Wire(fw.sent)
    ensures socket.input == old(socket.input)
  {
    var header := f.header;
    if PayloadSize(header) == 0 {
      return false, events;
    }
    var topic := lossy(f.topic);
    if header.msgType == Publish {
      var _ := broker.Publish(TensorMessage(topic, f.meta, f.tensor));
      return false, events;
    } else if header.msgType == Subscribe {
      var rx := broker.Subscribe(topic);
      var closed, rest := ForwardLoop(socket, events);
      if !closed {
        return true, [];
      }
      broker.Release(topic, rx);
      return false, rest;
    }
    return false, events;
  }

  /** The messages a connection forwards, which depend only on its input and
      on what its receivers deliver, never on the broker's table. */
  function Sent(input: seq<u8>, end: StreamEnd, events: seq<RecvResult<TensorMessage>>): seq<TensorMessage>
    decreases |input|
  {
    match ReadFrame(input, end)
    case Got(f, rest) =>
      var fw := Listen(f, events);
      if Subscribes(f) && !fw.closed then fw.sent else fw.sent + Sent(rest, end, fw.rest)
    case _ => []
  }

  /** A whole connection's effect: how it ends, the topic table after it,
      and the messages it forwarded to its peer. */
  datatype Run = Run(outcome: Outcome, table: Table, sent: seq<TensorMessage>)

  /** The meaning of `handle_connection` on the remaining input, the
      remaining receive results and the broker's table: frame after frame
      until the input ends cleanly, an error ends the connection, or it is
      left waiting for a message. */
  function Serve(input: seq<u8>, end: StreamEnd, events: seq<RecvResult<TensorMessage>>,
                 t: Table, capacity: nat, lossy: seq<u8> -> seq<u8>): (r: Run)
    requires capacity > 0 && TopicTable.Valid(t, capacity)
    ensures TopicTable.Valid(r.table, capacity)
    ensures r.sent == Sent(input, end, events)
    decreases |input|
  {
    match ReadFrame(input, end)
    case EndOfStream => Run(Disconnected, t, [])
    case Broken(e) => Run(Aborted(e), t, [])
    case Got(f, rest) =>
      var fw := Listen(f, events);
      var t1 := ActTable(f, events, t, capacity, lossy);
      if Subscribes(f) && !fw.closed then Run(AwaitingMessage, t1, fw.sent)
      else
        var r := Serve(rest, end, fw.rest, t1, capacity, lossy);
        r.(sent := fw.sent + r.sent)
  }

  /** `handle_connection`, driving the draft broker. */
  method HandleConnection(socket: Socket, broker: DraftBroker.Broker,
                          events: seq<RecvResult<TensorMessage>>, lossy: seq<u8> -> seq<u8>)
    returns (outcome: Outcome)
    requires broker.Valid() && broker.channelCapacity > 0
    modifies socket, broker
    ensures broker.Valid()
    ensures var run := Serve(old(socket.input), socket.end, events, old(broker.topics),
                             broker.channelCapacity, lossy);
      && outcome == run.outcome && broker.topics == run.table
      && socket.output == old(socket.output) + Wire(run.sent)
  {
    var pending := events;
    ghost var sent: seq<TensorMessage> := [];
    ghost var whole := Serve(socket.input, socket.end, events, broker.topics, broker.channelCapacity, lossy);
    while true
      invariant broker.Valid()
      invariant socket.output == old(socket.output) + Wire(sent)
      invariant var run := Serve(socket.input, socket.end, pending, broker.topics, broker.channelCapacity, lossy);
        whole == run.(sent := sent + run.sent)
      decreases |socket.input|
    {
      ghost var input := socket.input;
      ghost var table := broker.topics;
      ghost var output := socket.output;
      var frame := NextFrame(socket);
      if !frame.Got? {
        assert sent + [] == sent;
        return if frame.EndOfStream? then Disconnected else Aborted(frame.error);
      }
      ghost var fw := Listen(frame.frame, pending);
      var waiting, rest := ActOn(socket, broker, frame.frame, pending, lossy);
      ConcatAppend(sent, fw.sent, ForwardBytes);
      AppendAssoc(old(socket.output), Wire(sent), Wire(fw.sent));
      if waiting {
        return AwaitingMessage;
      }
      ghost var run := Serve(socket.input, socket.end, rest, broker.topics, broker.channelCapacity, lossy);
      AppendAssoc(sent, fw.sent, run.sent);
      sent := sent + fw.sent;
      pending := rest;
    }
  }

  /** Topics persist across a connection: every key in the table before is
      still there after, whatever the connection did. */
  lemma {:induction false} ServeKeepsKeys(input: seq<u8>, end: StreamEnd, events: seq<RecvResult<TensorMessage>>,
                                          t: Table, capacity: nat, lossy: seq<u8> -> seq<u8>)
    requires capacity > 0 && TopicTable.Valid(t, capacity)
    ensures t.Keys <= Serve(input, end, events, t, capacity, lossy).table.Keys
    decreases |input|
  {
    match ReadFrame(input, end)
    case EndOfStream =>
    case Broken(e) =>
    case Got(f, rest) =>
      var fw := Listen(f, events);
      var t1 := ActTable(f, events, t, capacity, lossy);
      if !(Subscribes(f) && !fw.closed) {
        ServeKeepsKeys(rest, end, fw.rest, t1, capacity, lossy);
      }
  }

  /** Everything a connection forwards is a prefix of what its receivers
      delivered, in delivery order: no message is invented, reordered,
      repeated or skipped over. */
  lemma {:induction false} SentIsDelivered(input: seq<u8>, end: StreamEnd,
                                           events: seq<RecvResult<TensorMessage>>)
    ensures exists k :: 0 <= k <= |events| && Sent(input, end, events) == Delivered(events[..k])
    decreases |input|
  {
    match ReadFrame(input, end)
    case Got(f, rest) =>
      var fw := Listen(f, events);
      ListenTakesPrefix(f, events);
      var taken := |events| - |fw.rest|;
      if Subscribes(f) && !fw.closed {
        assert Sent(input, end, events) == Delivered(events[..taken]);
      } else {
        SentIsDelivered(rest, end, fw.rest);
        var j :| 0 <= j <= |fw.rest| && Sent(rest, end, fw.rest) == Delivered(fw.rest[..j]);
        DeliveredAppend(events[..taken], fw.rest[..j]);
        PrefixJoin(events, taken, j);
        assert Sent(input, end, events) == Delivered(events[..taken]) + Delivered(fw.rest[..j]);
      }
    case _ =>
      assert Sent(input, end, events) == Delivered(events[..0]);
  }

  /** A connection whose receivers deliver no message writes nothing; in
      particular a connection that only publishes never writes. */
  lemma PublishersWriteNothing(input: seq<u8>, end: StreamEnd,
                               events: seq<RecvResult<TensorMessage>>,
                               t: Table, capacity: nat, lossy: seq<u8> -> seq<u8>)
    requires capacity > 0 && TopicTable.Valid(t, capacity)
    requires forall i :: 0 <= i < |events| ==> !events[i].Received?
    ensures Wire(Serve(input, end, events, t, capacity, lossy).sent) == []
  {
    SentIsDelivered(input, end, events);
    var k :| 0 <= k <= |events| && Sent(input, end, events) == Delivered(events[..k]);
    NothingDelivered(events[..k]);
  }

  lemma {:induction false} NothingDelivered(events: seq<RecvResult<TensorMessage>>)
    requires forall i :: 0 <= i < |events| ==> !events[i].Received?
    ensures Delivered(events) == []
  {
    if events != [] {
      NothingDelivered(events[1..]);
    }
  }
}
