/** The routed message and the bounded broadcast channel that carries it.

    A `tokio::sync::broadcast` channel is modelled as a value: a capacity and,
    per live receiver, a backlog of messages sent but not yet received plus a
    count of messages discarded because the backlog was full (the "lag"). */
module Message {
  import opened Bytes

  /** A topic or pattern: the UTF-8 bytes of a Rust `String`. '/' and '*' are
      ASCII, so they never occur inside a multi-byte character and splitting or
      searching the bytes is the same as splitting or searching the string. */
  type Topic = seq<u8>

  const SLASH: u8 := 0x2F
  const STAR: u8 := 0x2A

  datatype TensorMessage = TensorMessage(topic: Topic, meta: seq<u8>, tensor: seq<u8>)
}

module Broadcast {
  import opened Wrappers

  datatype Backlog<T> = Backlog(pending: seq<T>, skipped: nat)

  datatype Channel<T> = Channel(capacity: nat, receivers: map<nat, Backlog<T>>, nextId: nat)
  {
    /** Capacity is positive (the library panics otherwise), receiver ids are
        below the next id to hand out, and no backlog exceeds the capacity. */
    ghost predicate Valid() {
      && capacity > 0
      && forall id :: id in receivers ==> id < nextId && |receivers[id].pending| <= capacity
    }
  }

  /** What `Receiver::recv` yields. */
  datatype RecvResult<T> = Received(msg: T) | Lagged(skipped: nat) | Closed

  function Min(a: nat, b: nat): nat { if a <= b then a else b }

  /** `broadcast::channel(capacity)`, keeping only the sender. */
  function NewChannel<T>(capacity: nat): (ch: Channel<T>)
    requires capacity > 0
    ensures ch.Valid() && ch.capacity == capacity && ReceiverCount(ch) == 0
  {
    Channel(capacity, map[], 0)
  }

  /** `Sender::receiver_count` */
  function ReceiverCount<T>(ch: Channel<T>): nat
  {
    |ch.receivers|
  }

  /** `Sender::subscribe`: a new receiver, with an empty backlog, so it sees
      only the messages sent after it was created. The other receivers are
      untouched. */
  function AddReceiver<T>(ch: Channel<T>): (r: (Channel<T>, nat))
    requires ch.Valid()
    ensures r.0.Valid() && r.0.capacity == ch.capacity
    ensures r.1 !in ch.receivers
    ensures r.0.receivers == ch.receivers[r.1 := Backlog([], 0)]
    ensures ReceiverCount(r.0) == ReceiverCount(ch) + 1
  {
    (ch.(receivers := ch.receivers[ch.nextId := Backlog([], 0)], nextId := ch.nextId + 1), ch.nextId)
  }

  /** Dropping a receiver: it no longer counts and no longer gets messages. */
  function DropReceiver<T>(ch: Channel<T>, id: nat): (r: Channel<T>)
    requires ch.Valid()
    ensures r.Valid() && r.capacity == ch.capacity
    ensures r.receivers == ch.receivers - {id}
    ensures ReceiverCount(r) == if id in ch.receivers then ReceiverCount(ch) - 1 else ReceiverCount(ch)
  {
    ch.(receivers := ch.receivers - {id})
  }

  /** One receiver's view of a send: the backlog keeps the newest `capacity`
      messages, and each message that falls off the front is counted. */
  function Push<T>(b: Backlog<T>, msg: T, capacity: nat): (r: Backlog<T>)
    requires 0 < capacity && |b.pending| <= capacity
    ensures |r.pending| == Min(|b.pending| + 1, capacity)
    ensures r.pending == (b.pending + [msg])[|b.pending| + 1 - |r.pending|..]
    ensures r.skipped == b.skipped + (|b.pending| + 1 - |r.pending|)
  {
    if |b.pending| < capacity then Backlog(b.pending + [msg], b.skipped)
    else Backlog(b.pending[1..] + [msg], b.skipped + 1)
  }

  datatype Sent<T> = Sent(ok: bool, channel: Channel<T>)

  /** `Sender::send`: fails, changing nothing, when there is no receiver;
      otherwise every receiver's backlog takes the message. */
  function Send<T>(ch: Channel<T>, msg: T): (r: Sent<T>)
    requires ch.Valid()
    ensures r.channel.Valid() && r.channel.capacity == ch.capacity
    ensures r.ok <==> ReceiverCount(ch) > 0
    ensures !r.ok ==> r.channel == ch
    ensures r.channel.receivers.Keys == ch.receivers.Keys
    ensures ReceiverCount(r.channel) == ReceiverCount(ch)
    ensures forall id :: id in ch.receivers ==>
      r.channel.receivers[id] == Push(ch.receivers[id], msg, ch.capacity)
  {
    if |ch.receivers| == 0 then Sent(false, ch)
    else
      var rs := map id | id in ch.receivers :: Push(ch.receivers[id], msg, ch.capacity);
      assert rs.Keys == ch.receivers.Keys;
      Sent(true, ch.(receivers := rs))
  }

  /** A sequence of sends with no receive in between. */
  function SendAll<T>(ch: Channel<T>, msgs: seq<T>): (r: Channel<T>)
    requires ch.Valid()
    ensures r.Valid() && r.capacity == ch.capacity && r.receivers.Keys == ch.receivers.Keys
    decreases |msgs|
  {
    if msgs == [] then ch else SendAll(Send(ch, msgs[0]).channel, msgs[1..])
  }

  datatype Polled<T> = Polled(result: Option<RecvResult<T>>, channel: Channel<T>)

  /** `Receiver::try_recv` for receiver `id` (None: nothing to receive yet,
      where `recv` would wait). A lag is reported, and reset, before the
      oldest message still held is delivered. */
  function TryRecv<T>(ch: Channel<T>, id: nat): (r: Polled<T>)
    requires ch.Valid() && id in ch.receivers
    ensures r.channel.Valid() && r.channel.capacity == ch.capacity
    ensures r.channel.receivers.Keys == ch.receivers.Keys
    ensures forall other :: other in ch.receivers && other != id ==>
      r.channel.receivers[other] == ch.receivers[other]
    ensures var b := ch.receivers[id];
      b.skipped > 0 ==>
        r.result == Some(Lagged(b.skipped)) && r.channel.receivers[id] == Backlog(b.pending, 0)
    ensures var b := ch.receivers[id];
      b.skipped == 0 && b.pending != [] ==>
        r.result == Some(Received(b.pending[0])) && r.channel.receivers[id] == Backlog(b.pending[1..], 0)
    ensures var b := ch.receivers[id];
      b.skipped == 0 && b.pending == [] ==> r.result == None && r.channel == ch
  {
    var b := ch.receivers[id];
    if b.skipped > 0 then
      Polled(Some(Lagged(b.skipped)), ch.(receivers := ch.receivers[id := Backlog(b.pending, 0)]))
    else if b.pending != [] then
      Polled(Some(Received(b.pending[0])), ch.(receivers := ch.receivers[id := Backlog(b.pending[1..], 0)]))
    else
      Polled(None, ch)
  }

  /** What `n` receives in a row by receiver `id` return. */
  function RecvAll<T>(ch: Channel<T>, id: nat, n: nat): (r: seq<Option<RecvResult<T>>>)
    requires ch.Valid() && id in ch.receivers
    ensures |r| == n
    decreases n
  {
    if n == 0 then []
    else
      var p := TryRecv(ch, id);
      [p.result] + RecvAll(p.channel, id, n - 1)
  }

  /** A receiver with no lag and backlog `msgs` receives exactly `msgs`,
      oldest first. */
  lemma {:induction false} RecvInOrder<T>(ch: Channel<T>, id: nat, msgs: seq<T>)
    requires ch.Valid() && id in ch.receivers && ch.receivers[id] == Backlog(msgs, 0)
    ensures forall i :: 0 <= i < |msgs| ==> RecvAll(ch, id, |msgs|)[i] == Some(Received(msgs[i]))
    decreases |msgs|
  {
    if msgs != [] {
      var p := TryRecv(ch, id);
      assert p.channel.receivers[id] == Backlog(msgs[1..], 0);
      RecvInOrder(p.channel, id, msgs[1..]);
      var r := RecvAll(ch, id, |msgs|);
      assert r == [Some(Received(msgs[0]))] + RecvAll(p.channel, id, |msgs| - 1);
      forall i | 0 <= i < |msgs|
        ensures r[i] == Some(Received(msgs[i]))
      {
        if i > 0 {
          assert r[i] == RecvAll(p.channel, id, |msgs| - 1)[i - 1];
          assert msgs[i] == msgs[1..][i - 1];
        }
      }
    }
  }

  /** The backlog a receiver holding `b` should have once `msgs` are sent:
      the newest `capacity` of everything pending plus everything sent, and
      every message that did not fit counted as skipped. */
  function Survivors<T>(b: Backlog<T>, msgs: seq<T>, capacity: nat): Backlog<T>
  {
    var all := b.pending + msgs;
    var kept := Min(|all|, capacity);
    Backlog(all[|all| - kept..], b.skipped + (|all| - kept))
  }

  /** One send seen from the end of the stream: pushing `m` first changes
      nothing about what survives `m` followed by `rest`. */
  lemma PushKeepsNewest<T>(b: Backlog<T>, m: T, rest: seq<T>, capacity: nat)
    requires 0 < capacity && |b.pending| <= capacity
    ensures Survivors(Push(b, m, capacity), rest, capacity) == Survivors(b, [m] + rest, capacity)
  {
    var b1 := Push(b, m, capacity);
    var all := b.pending + ([m] + rest);
    var cut := |b.pending| + 1 - |b1.pending|;
    assert all == (b.pending + [m]) + rest;
    assert b1.pending + rest == all[cut..];
  }

  /** A receiver's backlog after a run of sends is exactly its Survivors. */
  lemma {:induction false} SendAllBacklog<T>(ch: Channel<T>, msgs: seq<T>, id: nat)
    requires ch.Valid() && id in ch.receivers
    ensures SendAll(ch, msgs).receivers[id] == Survivors(ch.receivers[id], msgs, ch.capacity)
    decreases |msgs|
  {
    var b := ch.receivers[id];
    if msgs == [] {
      assert b.pending + msgs == b.pending;
    } else {
      var next := Send(ch, msgs[0]).channel;
      assert next.receivers[id] == Push(b, msgs[0], ch.capacity);
      SendAllBacklog(next, msgs[1..], id);
      PushKeepsNewest(b, msgs[0], msgs[1..], ch.capacity);
      assert msgs == [msgs[0]] + msgs[1..];
    }
  }

  /** Every receiver that starts level and keeps up (at most `capacity` sends
      before it reads) holds every message, in send order, with no lag: two
      receivers of one channel see the same stream. */
  lemma FanOutInOrder<T>(ch: Channel<T>, msgs: seq<T>, id: nat)
    requires ch.Valid() && id in ch.receivers && ch.receivers[id] == Backlog([], 0)
    requires |msgs| <= ch.capacity
    ensures SendAll(ch, msgs).receivers[id] == Backlog(msgs, 0)
  {
    SendAllBacklog(ch, msgs, id);
    assert [] + msgs == msgs;
  }

  /** Send and receive together: a receiver that starts level and keeps up
      receives, one receive per send, every message in the order it was
      sent, with no lag reported. */
  lemma SendThenRecvInOrder<T>(ch: Channel<T>, msgs: seq<T>, id: nat)
    requires ch.Valid() && id in ch.receivers && ch.receivers[id] == Backlog([], 0)
    requires |msgs| <= ch.capacity
    ensures var after := SendAll(ch, msgs);
      id in after.receivers &&
      forall i :: 0 <= i < |msgs| ==> RecvAll(after, id, |msgs|)[i] == Some(Received(msgs[i]))
  {
    FanOutInOrder(ch, msgs, id);
    RecvInOrder(SendAll(ch, msgs), id, msgs);
  }

  /** A receiver that falls more than `capacity` messages behind is told, on
      its next receive, exactly how many it missed; the sender never waits. */
  lemma OverflowReportsLag<T>(ch: Channel<T>, msgs: seq<T>, id: nat)
    requires ch.Valid() && id in ch.receivers && ch.receivers[id] == Backlog([], 0)
    requires |msgs| > ch.capacity
    ensures var after := SendAll(ch, msgs);
      id in after.receivers &&
      TryRecv(after, id).result == Some(Lagged(|msgs| - ch.capacity))
  {
    var after := SendAll(ch, msgs);
    SendAllBacklog(ch, msgs, id);
    var b := after.receivers[id];
    assert b == Survivors(Backlog([], 0), msgs, ch.capacity);
    assert [] + msgs == msgs;
    assert Min(|msgs|, ch.capacity) == ch.capacity;
    assert b.skipped == |msgs| - ch.capacity > 0;
  }
}

/** A topic table: the `DashMap<String, broadcast::Sender<TensorMessage>>`
    both brokers keep, with the entry-or-insert-then-subscribe idiom they share. */
module TopicTable {
  import opened Message
  import opened Broadcast

  type Table = map<Topic, Channel<TensorMessage>>

  ghost predicate ChannelsValid(t: Table) {
    forall k :: k in t ==> t[k].Valid()
  }

  /** Every channel is well formed and was made with the broker's capacity. */
  ghost predicate Valid(t: Table, capacity: nat) {
    ChannelsValid(t) && forall k :: k in t ==> t[k].capacity == capacity
  }

  /** `t.entry(key).or_insert_with(|| broadcast::channel(capacity).0).subscribe()`:
      the channel is created only if the key is absent; an existing channel is
      kept with all its receivers; one new receiver is added; no other key is
      touched. */
  function Register(t: Table, key: Topic, capacity: nat): (r: (Table, nat))
    requires capacity > 0 && Valid(t, capacity)
    ensures Valid(r.0, capacity)
    ensures r.0.Keys == t.Keys + {key}
    ensures forall k :: k in t && k != key ==> r.0[k] == t[k]
    ensures key in t ==>
      r.1 !in t[key].receivers && r.0[key].receivers == t[key].receivers[r.1 := Backlog([], 0)]
    ensures key !in t ==> r.0[key].receivers == map[r.1 := Backlog([], 0)]
  {
    var ch := if key in t then t[key] else NewChannel(capacity);
    var (ch', id) := AddReceiver(ch);
    (t[key := ch'], id)
  }

  /** Dropping receiver `id` of the channel under `key`; the entry itself
      stays, even when no receiver is left. */
  function Release(t: Table, key: Topic, id: nat): (r: Table)
    requires ChannelsValid(t)
    ensures r.Keys == t.Keys
    ensures forall k :: k in t && k != key ==> r[k] == t[k]
    ensures key in t ==> r[key].receivers == t[key].receivers - {id}
    ensures forall c :: Valid(t, c) ==> Valid(r, c)
  {
    if key in t then t[key := DropReceiver(t[key], id)] else t
  }
}
