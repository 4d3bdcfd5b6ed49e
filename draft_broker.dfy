/** The earlier, exact-only broker (src/broker.rs): one topic map, no
    wildcards. This is the broker the connection handler drives. */
module DraftBroker {
  import opened Message
  import opened Broadcast
  import opened TopicTable

  /** Which of the three log lines a publish prints. */
  datatype PublishOutcome =
    | Broadcasted(subscribers: nat)   // "Broadcasted to N subscriber(s)"
    | NoActiveSubscribers             // "Dropped message (no active subscribers)"
    | NoSuchTopic                     // "Dropped message (Topic .. does not exist)"

  /** The table and log line after publishing `msg`: only the entry whose key
      equals the topic is sent to; an absent topic is dropped without being
      created; no key is added or removed. */
  function Published(t: Table, msg: TensorMessage): (r: (Table, PublishOutcome))
    requires ChannelsValid(t)
    ensures r.0.Keys == t.Keys
    ensures forall k :: k in t && k != msg.topic ==> r.0[k] == t[k]
    ensures r.1 == NoSuchTopic <==> msg.topic !in t
    ensures r.1 == NoActiveSubscribers <==> msg.topic in t && ReceiverCount(t[msg.topic]) == 0
    ensures r.1.Broadcasted? ==> r.1.subscribers == ReceiverCount(t[msg.topic]) > 0
    ensures msg.topic in t ==> r.0[msg.topic] == Send(t[msg.topic], msg).channel
  {
    if msg.topic in t then
      var active := ReceiverCount(t[msg.topic]);
      var sent := Send(t[msg.topic], msg);
      (t[msg.topic := sent.channel], if sent.ok then Broadcasted(active) else NoActiveSubscribers)
    else
      (t, NoSuchTopic)
  }

  /** Publishing keeps the table well formed. */
  lemma PublishedKeepsValid(t: Table, msg: TensorMessage, capacity: nat)
    requires TopicTable.Valid(t, capacity)
    ensures TopicTable.Valid(Published(t, msg).0, capacity)
  {
  }

  class Broker {
    var topics: Table
    const channelCapacity: nat

    ghost predicate Valid()
      reads this
    {
      TopicTable.Valid(topics, channelCapacity)
    }

    /** `Broker::new`: no topics. */
    constructor (channelCapacity: nat)
      ensures Valid() && topics == map[] && this.channelCapacity == channelCapacity
    {
      topics := map[];
      this.channelCapacity := channelCapacity;
    }

    /** `subscribe`: insert a channel for `topic` if absent, then add a
        receiver to it. '*' has no special meaning here. */
    method Subscribe(topic: Topic) returns (id: nat)
      requires Valid() && channelCapacity > 0
      modifies this
      ensures Valid()
      ensures (topics, id) == Register(old(topics), topic, channelCapacity)
    {
      var (t, rx) := Register(topics, topic, channelCapacity);
      topics, id := t, rx;
    }

    /** `publish`: read the receiver count, send, and report which branch
        was taken. */
    method Publish(msg: TensorMessage) returns (outcome: PublishOutcome)
      requires Valid()
      modifies this
      ensures Valid()
      ensures (topics, outcome) == Published(old(topics), msg)
    {
      PublishedKeepsValid(topics, msg, channelCapacity);
      if msg.topic in topics {
        var activeSubscribers := ReceiverCount(topics[msg.topic]);
        var sent := Send(topics[msg.topic], msg);
        topics := topics[msg.topic := sent.channel];
        if sent.ok {
          outcome := Broadcasted(activeSubscribers);
        } else {
          outcome := NoActiveSubscribers;
        }
      } else {
        outcome := NoSuchTopic;
      }
    }

    /** Dropping the receiver handle `subscribe` returned. The topic entry
        stays. */
    method Release(topic: Topic, id: nat)
      requires Valid()
      modifies this
      ensures Valid()
      ensures topics == TopicTable.Release(old(topics), topic, id)
    {
      topics := TopicTable.Release(topics, topic, id);
    }
  }

  /** Topics persist: no operation of the draft broker removes a key, and
      subscribing twice to one topic leaves the key set as one subscribe
      does. */
  lemma KeysOnlyGrow(t: Table, msg: TensorMessage, key: Topic, id: nat, capacity: nat)
    requires capacity > 0 && TopicTable.Valid(t, capacity)
    ensures Published(t, msg).0.Keys == t.Keys
    ensures Release(t, key, id).Keys == t.Keys
    ensures Register(t, key, capacity).0.Keys == t.Keys + {key}
    ensures Register(Register(t, key, capacity).0, key, capacity).0.Keys == t.Keys + {key}
  {
  }

  /** A subscriber to a topic that has just subscribed (and so is live) makes
      the next publish on that topic take the "Broadcasted" branch, and the
      message lands in its backlog; a publish on any other topic leaves its
      channel alone. */
  lemma SubscribeThenPublish(t: Table, key: Topic, capacity: nat, msg: TensorMessage)
    requires capacity > 0 && TopicTable.Valid(t, capacity)
    ensures var (t1, id) := Register(t, key, capacity);
      var (t2, outcome) := Published(t1, msg);
      && (msg.topic == key ==> outcome.Broadcasted? && t2[key].receivers[id].pending == [msg])
      && (msg.topic != key ==> t2[key] == t1[key])
  {
    var (t1, id) := Register(t, key, capacity);
    if msg.topic == key {
      assert id in t1[key].receivers;
      assert t1[key].receivers[id] == Backlog([], 0);
    }
  }
}
