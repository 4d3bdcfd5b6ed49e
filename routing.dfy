/** The routing engine (broker/src/broker.rs): the segment-wise topic matcher
    and the broker with its two disjoint namespaces, exact topics and
    wildcard patterns. */
module Routing {
  import opened Bytes
  import opened Message
  import opened Broadcast
  import opened TopicTable

  /** Number of occurrences of byte `c` in `s`. */
  function Occurrences(s: seq<u8>, c: u8): nat
  {
    if s == [] then 0 else (if s[0] == c then 1 else 0) + Occurrences(s[1..], c)
  }

  /** The segments re-joined with '/' between them. */
  function Join(parts: seq<Topic>): Topic
    requires |parts| >= 1
  {
    if |parts| == 1 then parts[0] else parts[0] + [SLASH] + Join(parts[1..])
  }

  /** `str::split('/')`: the maximal '/'-free pieces, empty ones included, so
      there is always one more piece than there are slashes and joining the
      pieces gives the string back. */
  function Split(s: Topic): (parts: seq<Topic>)
    ensures |parts| == Occurrences(s, SLASH) + 1
    ensures forall i :: 0 <= i < |parts| ==> SLASH !in parts[i]
    ensures Join(parts) == s
  {
    if s == [] then [[]]
    else
      var tail := Split(s[1..]);
      if s[0] == SLASH then
        assert s == [] + [SLASH] + Join(tail);
        [[]] + tail
      else
        var parts := [[s[0]] + tail[0]] + tail[1..];
        assert parts[1..] == tail[1..];
        assert s == [s[0]] + Join(tail);
        parts
  }

  /** Two topics with the same segments are the same topic. */
  lemma SplitInjective(a: Topic, b: Topic)
    requires Split(a) == Split(b)
    ensures a == b
  {
  }

  /** The matching rule: the same number of segments, and every pattern
      segment is the single byte '*' or equal to the topic's segment there. */
  predicate Matches(topic: Topic, pattern: Topic)
  {
    var t, p := Split(topic), Split(pattern);
    |t| == |p| && forall i :: 0 <= i < |p| ==> p[i] == [STAR] || p[i] == t[i]
  }

  /** `matches_pattern`: split both, compare the counts, then walk the pairs
      and stop at the first pattern segment that is neither '*' nor equal. */
  method MatchesPattern(topic: Topic, pattern: Topic) returns (b: bool)
    ensures b <==> Matches(topic, pattern)
  {
    var tParts := Split(topic);
    var pParts := Split(pattern);
    if |tParts| != |pParts| {
      return false;
    }
    var i := 0;
    while i < |pParts|
      invariant 0 <= i <= |pParts|
      invariant forall j :: 0 <= j < i ==> pParts[j] == [STAR] || pParts[j] == tParts[j]
    {
      if pParts[i] != [STAR] && tParts[i] != pParts[i] {
        return false;
      }
      i := i + 1;
    }
    return true;
  }

  /** Every topic matches itself. */
  lemma MatchesReflexive(t: Topic)
    ensures Matches(t, t)
  {
  }

  /** Topics at different depths (a different number of '/') never match,
      whatever the segments hold. */
  lemma DepthMismatch(topic: Topic, pattern: Topic)
    requires Occurrences(topic, SLASH) != Occurrences(pattern, SLASH)
    ensures !Matches(topic, pattern)
  {
  }

  /** A pattern with no segment that is exactly '*' matches only itself: a
      '*' inside a longer segment, as in "a*", is an ordinary byte. */
  lemma {:induction false} LiteralPatternMatchesOnlyItself(topic: Topic, pattern: Topic)
    requires forall i :: 0 <= i < |Split(pattern)| ==> Split(pattern)[i] != [STAR]
    ensures Matches(topic, pattern) <==> topic == pattern
  {
    if Matches(topic, pattern) {
      var t, p := Split(topic), Split(pattern);
      assert forall i :: 0 <= i < |p| ==> p[i] == t[i];
      assert t == p;
      SplitInjective(topic, pattern);
    }
  }

  /** A segment that is exactly '*' puts a '*' into the joined string. */
  lemma {:induction false} StarSegmentShows(parts: seq<Topic>, i: nat)
    requires i < |parts| && parts[i] == [STAR]
    ensures STAR in Join(parts)
  {
    if |parts| > 1 {
      if i == 0 {
        assert Join(parts)[0] == STAR;
      } else {
        StarSegmentShows(parts[1..], i - 1);
        var j :| 0 <= j < |Join(parts[1..])| && Join(parts[1..])[j] == STAR;
        assert Join(parts)[|parts[0]| + 1 + j] == STAR;
      }
    }
  }

  /** A key without any '*' (one the broker files as an exact topic) matches
      exactly the topic equal to it. */
  lemma ExactKeyMatchesOnlyItself(topic: Topic, key: Topic)
    requires STAR !in key
    ensures Matches(topic, key) <==> topic == key
  {
    forall i | 0 <= i < |Split(key)|
      ensures Split(key)[i] != [STAR]
    {
      if Split(key)[i] == [STAR] {
        StarSegmentShows(Split(key), i);
      }
    }
    LiteralPatternMatchesOnlyItself(topic, key);
  }

  /** A '/'-free string is a single segment. */
  lemma {:induction false} SplitPlain(a: Topic)
    requires SLASH !in a
    ensures Split(a) == [a]
  {
    if a != [] {
      SplitPlain(a[1..]);
      assert [a[0]] + a[1..] == a;
    }
  }

  /** A '/'-free prefix followed by '/' is the first segment. */
  lemma {:induction false} SplitFirst(a: Topic, rest: Topic)
    requires SLASH !in a
    ensures Split(a + [SLASH] + rest) == [a] + Split(rest)
  {
    if a == [] {
      assert a + [SLASH] + rest == [SLASH] + rest;
      assert ([SLASH] + rest)[1..] == rest;
    } else {
      var s := a + [SLASH] + rest;
      assert s[1..] == a[1..] + [SLASH] + rest;
      SplitFirst(a[1..], rest);
      assert [a[0]] + a[1..] == a;
    }
  }

  /** The segments of a '/'-separated list of '/'-free words. */
  lemma SplitWords(words: seq<Topic>)
    requires |words| >= 1 && forall i :: 0 <= i < |words| ==> SLASH !in words[i]
    ensures Split(Join(words)) == words
  {
    if |words| == 1 {
      SplitPlain(words[0]);
    } else {
      SplitFirst(words[0], Join(words[1..]));
      SplitWords(words[1..]);
    }
  }

  /** Worked examples: a pattern whose middle segment is the wildcard
      matches "a/b/c" and "a/x/c". */
  lemma WildcardExamples()
    ensures Matches(Join([[0x61], [0x62], [0x63]]), Join([[0x61], [STAR], [0x63]]))
    ensures Matches(Join([[0x61], [0x78], [0x63]]), Join([[0x61], [STAR], [0x63]]))
  {
    SplitWords([[0x61], [0x62], [0x63]]);
    SplitWords([[0x61], [0x78], [0x63]]);
    SplitWords([[0x61], [STAR], [0x63]]);
  }

  /** Worked examples: the same pattern matches neither "a/b/c/d"
      nor "a/c". */
  lemma DepthExamples()
    ensures !Matches(Join([[0x61], [0x62], [0x63], [0x64]]), Join([[0x61], [STAR], [0x63]]))
    ensures !Matches(Join([[0x61], [0x63]]), Join([[0x61], [STAR], [0x63]]))
  {
    SplitWords([[0x61], [0x62], [0x63], [0x64]]);
    SplitWords([[0x61], [0x63]]);
    SplitWords([[0x61], [STAR], [0x63]]);
  }

  /** "a" does not match the pattern "a/" + "*", and "ab" does not match
      "a*": a star inside a segment is literal. */
  lemma LiteralExamples()
    ensures !Matches([0x61], Join([[0x61], [STAR]]))
    ensures !Matches([0x61, 0x62], [0x61, STAR])
  {
    SplitWords([[0x61], [STAR]]);
    SplitPlain([0x61]);
    SplitPlain([0x61, 0x62]);
    SplitPlain([0x61, STAR]);
    assert Split([0x61, STAR])[0] != [STAR];
  }

  /** A receive handle: which namespace, which key, which receiver. */
  datatype Receiver = Receiver(inPatterns: bool, key: Topic, id: nat)

  /** Receivers reached by one send to each channel in `keys`. */
  ghost function SumCounts(t: Table, keys: set<Topic>): nat
    requires keys <= t.Keys
    decreases keys
  {
    if keys == {} then 0
    else
      var k :| k in keys;
      ReceiverCount(t[k]) + SumCounts(t, keys - {k})
  }

  /** The sum does not depend on which key is taken first. */
  lemma {:induction false} SumCountsRemove(t: Table, keys: set<Topic>, k: Topic)
    requires keys <= t.Keys && k in keys
    ensures SumCounts(t, keys) == ReceiverCount(t[k]) + SumCounts(t, keys - {k})
    decreases keys
  {
    var j :| j in keys && SumCounts(t, keys) == ReceiverCount(t[j]) + SumCounts(t, keys - {j});
    if j != k {
      SumCountsRemove(t, keys - {j}, k);
      SumCountsRemove(t, keys - {k}, j);
      assert keys - {j} - {k} == keys - {k} - {j};
    }
  }

  /** Nothing is reached exactly when every channel in `keys` has no receiver. */
  lemma {:induction false} SumCountsZero(t: Table, keys: set<Topic>)
    requires keys <= t.Keys
    ensures SumCounts(t, keys) == 0 <==> forall k :: k in keys ==> ReceiverCount(t[k]) == 0
    decreases keys
  {
    if keys != {} {
      var k :| k in keys;
      SumCountsRemove(t, keys, k);
      SumCountsZero(t, keys - {k});
    }
  }

  /** Two tables with the same keys and the same channel under each key are
      the same table. */
  lemma SameEntries(a: Table, b: Table)
    requires a.Keys == b.Keys && forall k :: k in a ==> a[k] == b[k]
    ensures a == b
  {
  }

  /** The pattern keys a topic matches. */
  ghost function MatchingKeys(t: Table, topic: Topic): (r: set<Topic>)
    ensures r <= t.Keys
  {
    set p | p in t && Matches(topic, p)
  }

  /** The keys among `done` that a topic matches. */
  ghost function Hits(done: set<Topic>, topic: Topic): (r: set<Topic>)
    ensures r <= done
  {
    set q | q in done && Matches(topic, q)
  }

  lemma HitsStep(done: set<Topic>, p: Topic, topic: Topic)
    ensures Hits(done + {p}, topic) == if Matches(topic, p) then Hits(done, topic) + {p} else Hits(done, topic)
  {
  }

  /** Visiting one more pattern adds its receivers to the count exactly when
      the topic matches it. */
  lemma CountStep(t: Table, done: set<Topic>, p: Topic, topic: Topic)
    requires done <= t.Keys && p in t && p !in done
    ensures SumCounts(t, Hits(done + {p}, topic))
      == SumCounts(t, Hits(done, topic)) + (if Matches(topic, p) then ReceiverCount(t[p]) else 0)
  {
    HitsStep(done, p, topic);
    if Matches(topic, p) {
      SumCountsRemove(t, Hits(done, topic) + {p}, p);
      assert Hits(done, topic) + {p} - {p} == Hits(done, topic);
    }
  }

  /** The exact namespace after a publish: only the entry keyed by the topic
      is sent to. */
  function DeliverExact(t: Table, msg: TensorMessage): (r: Table)
    requires ChannelsValid(t)
    ensures r.Keys == t.Keys && ChannelsValid(r)
    ensures forall k :: k in t ==> r[k].capacity == t[k].capacity
  {
    if msg.topic in t then t[msg.topic := Send(t[msg.topic], msg).channel] else t
  }

  /** The pattern namespace after a publish: every matching entry is sent to. */
  function DeliverPatterns(t: Table, msg: TensorMessage): (r: Table)
    requires ChannelsValid(t)
    ensures r.Keys == t.Keys
  {
    map p | p in t :: Route(t, msg, p)
  }

  /** One pattern entry after a publish. */
  function Route(t: Table, msg: TensorMessage, p: Topic): (ch: Channel<TensorMessage>)
    requires ChannelsValid(t) && p in t
    ensures ch.Valid() && ch.capacity == t[p].capacity
  {
    if Matches(msg.topic, p) then Send(t[p], msg).channel else t[p]
  }

  /** The pattern table part-way through a publish: the patterns in `done`
      have been routed, the others are untouched. */
  ghost function Partial(t: Table, msg: TensorMessage, done: set<Topic>): (r: Table)
    requires ChannelsValid(t)
    ensures r.Keys == t.Keys && ChannelsValid(r)
  {
    map q | q in t :: if q in done then Route(t, msg, q) else t[q]
  }

  /** Routing one more pattern is one map update: a send when the pattern
      matches, nothing otherwise. */
  lemma PartialStep(t: Table, msg: TensorMessage, done: set<Topic>, p: Topic)
    requires ChannelsValid(t) && p in t && p !in done
    ensures Partial(t, msg, done)[p] == t[p]
    ensures Matches(msg.topic, p) ==>
      Partial(t, msg, done + {p}) == Partial(t, msg, done)[p := Send(t[p], msg).channel]
    ensures !Matches(msg.topic, p) ==> Partial(t, msg, done + {p}) == Partial(t, msg, done)
  {
    SameEntries(Partial(t, msg, done + {p}), Partial(t, msg, done)[p := Route(t, msg, p)]);
    if !Matches(msg.topic, p) {
      SameEntries(Partial(t, msg, done + {p}), Partial(t, msg, done));
    }
  }

  /** Once every key is visited, the hits are the matching keys. */
  lemma HitsAll(t: Table, topic: Topic)
    ensures Hits(t.Keys, topic) == MatchingKeys(t, topic)
  {
  }

  /** With every pattern routed, the table is the published one. */
  lemma PartialDone(t: Table, msg: TensorMessage)
    requires ChannelsValid(t)
    ensures Partial(t, msg, t.Keys) == DeliverPatterns(t, msg)
    ensures Partial(t, msg, {}) == t
  {
    SameEntries(Partial(t, msg, t.Keys), DeliverPatterns(t, msg));
    SameEntries(Partial(t, msg, {}), t);
  }

  /** Publishing keeps both tables well formed at the broker's capacity. */
  lemma DeliveryKeepsValid(t: Table, msg: TensorMessage, capacity: nat)
    requires TopicTable.Valid(t, capacity)
    ensures TopicTable.Valid(DeliverExact(t, msg), capacity)
    ensures TopicTable.Valid(DeliverPatterns(t, msg), capacity)
  {
  }

  /** Receivers reached in the exact namespace. */
  function ExactReach(t: Table, topic: Topic): nat
  {
    if topic in t then ReceiverCount(t[topic]) else 0
  }

  /** A send changes a channel exactly when it has a receiver: each receiver's
      backlog either grows or counts one more skipped message. */
  lemma SendChanges(ch: Channel<TensorMessage>, msg: TensorMessage)
    requires ch.Valid()
    ensures Send(ch, msg).channel != ch <==> ReceiverCount(ch) > 0
  {
    if ReceiverCount(ch) > 0 {
      var id :| id in ch.receivers;
      var b := ch.receivers[id];
      var b1 := Send(ch, msg).channel.receivers[id];
      assert b1 == Push(b, msg, ch.capacity);
      assert b1 != b by {
        if |b1.pending| == |b.pending| {
          assert b1.skipped == b.skipped + 1;
        }
      }
    }
  }

  /** Fan-out set of a publish: the channels whose state changes are exactly
      the exact entry keyed by the topic and the pattern entries that match
      it, and of those only the ones that have a receiver. */
  lemma {:induction false} DeliveryTargets(exact: Table, patterns: Table, msg: TensorMessage)
    requires ChannelsValid(exact) && ChannelsValid(patterns)
    ensures forall k :: k in exact ==>
      (DeliverExact(exact, msg)[k] != exact[k] <==> k == msg.topic && ReceiverCount(exact[k]) > 0)
    ensures forall p :: p in patterns ==>
      (DeliverPatterns(patterns, msg)[p] != patterns[p] <==> Matches(msg.topic, p) && ReceiverCount(patterns[p]) > 0)
  {
    forall k | k in exact
      ensures DeliverExact(exact, msg)[k] != exact[k] <==> k == msg.topic && ReceiverCount(exact[k]) > 0
    {
      SendChanges(exact[k], msg);
    }
    forall p | p in patterns
      ensures DeliverPatterns(patterns, msg)[p] != patterns[p] <==> Matches(msg.topic, p) && ReceiverCount(patterns[p]) > 0
    {
      SendChanges(patterns[p], msg);
    }
  }

  /** Every receiver of a matching pattern channel finds the message as the
      newest entry of its backlog. */
  lemma PatternReceiversGetMessage(t: Table, msg: TensorMessage, p: Topic, id: nat)
    requires ChannelsValid(t) && p in t && Matches(msg.topic, p) && id in t[p].receivers
    ensures var b := DeliverPatterns(t, msg)[p].receivers[id];
      b.pending != [] && b.pending[|b.pending| - 1] == msg
  {
  }

  /** The loop of `publish` over `pattern_topics`: visit every entry once, in
      no particular order, send to the ones whose pattern matches the topic,
      and add up the receivers of each send that succeeded. */
  method SendToPatterns(patterns: Table, msg: TensorMessage) returns (delivered: Table, sentCount: nat)
    requires ChannelsValid(patterns)
    ensures delivered == DeliverPatterns(patterns, msg)
    ensures sentCount == SumCounts(patterns, MatchingKeys(patterns, msg.topic))
  {
    delivered, sentCount := patterns, 0;
    ghost var done: set<Topic> := {};
    var remaining := patterns.Keys;
    PartialDone(patterns, msg);
    while remaining != {}
      invariant remaining !! done && remaining + done == patterns.Keys
      invariant delivered == Partial(patterns, msg, done)
      invariant sentCount == SumCounts(patterns, Hits(done, msg.topic))
      decreases remaining
    {
      var p :| p in remaining;
      var matched := MatchesPattern(msg.topic, p);
      CountStep(patterns, done, p, msg.topic);
      PartialStep(patterns, msg, done, p);
      assert delivered[p] == patterns[p];
      if matched {
        var sent := Send(delivered[p], msg);
        delivered := delivered[p := sent.channel];
        if sent.ok {
          sentCount := sentCount + ReceiverCount(sent.channel);
        }
      }
      remaining := remaining - {p};
      done := done + {p};
    }
    HitsAll(patterns, msg.topic);
  }

  /** The broker: two maps from key to channel, one for keys without '*'
      (exact topics) and one for keys with '*' (patterns). */
  class Broker {
    var exactTopics: Table
    var patternTopics: Table
    const channelCapacity: nat

    /** A key is filed under the namespace its '*' decides, so the two key
        sets are disjoint, and every channel has the broker's capacity. */
    ghost predicate Valid()
      reads this
    {
      && TopicTable.Valid(exactTopics, channelCapacity)
      && TopicTable.Valid(patternTopics, channelCapacity)
      && (forall k :: k in exactTopics ==> STAR !in k)
      && (forall k :: k in patternTopics ==> STAR in k)
    }

    /** `Broker::new`: both namespaces empty. */
    constructor (channelCapacity: nat)
      ensures Valid()
      ensures exactTopics == map[] && patternTopics == map[]
      ensures this.channelCapacity == channelCapacity
    {
      exactTopics := map[];
      patternTopics := map[];
      this.channelCapacity := channelCapacity;
    }

    /** `subscribe`: a key containing '*' is registered in the pattern map and
        leaves the exact map alone; any other key the other way round. */
    method Subscribe(key: Topic) returns (rx: Receiver)
      requires Valid() && channelCapacity > 0
      modifies this
      ensures Valid()
      ensures rx.key == key && rx.inPatterns == (STAR in key)
      ensures STAR in key ==>
        && exactTopics == old(exactTopics)
        && (patternTopics, rx.id) == Register(old(patternTopics), key, channelCapacity)
      ensures STAR !in key ==>
        && patternTopics == old(patternTopics)
        && (exactTopics, rx.id) == Register(old(exactTopics), key, channelCapacity)
    {
      if STAR in key {
        var (t, id) := Register(patternTopics, key, channelCapacity);
        patternTopics := t;
        rx := Receiver(true, key, id);
      } else {
        var (t, id) := Register(exactTopics, key, channelCapacity);
        exactTopics := t;
        rx := Receiver(false, key, id);
      }
    }

    /** `publish`: send to the exact entry keyed by the topic, if any, then to
        every matching pattern entry, in whatever order the map yields them,
        adding up the receivers of every send that succeeded. */
    method Publish(msg: TensorMessage) returns (sentCount: nat)
      requires Valid()
      modifies this
      ensures Valid()
      ensures exactTopics == DeliverExact(old(exactTopics), msg)
      ensures patternTopics == DeliverPatterns(old(patternTopics), msg)
      ensures sentCount == ExactReach(old(exactTopics), msg.topic)
        + SumCounts(old(patternTopics), MatchingKeys(old(patternTopics), msg.topic))
    {
      sentCount := 0;
      if msg.topic in exactTopics {
        var sent := Send(exactTopics[msg.topic], msg);
        exactTopics := exactTopics[msg.topic := sent.channel];
        if sent.ok {
          sentCount := sentCount + ReceiverCount(sent.channel);
        }
      }
      var delivered, reached := SendToPatterns(patternTopics, msg);
      DeliveryKeepsValid(old(exactTopics), msg, channelCapacity);
      DeliveryKeepsValid(patternTopics, msg, channelCapacity);
      patternTopics := delivered;
      sentCount := sentCount + reached;
    }
  }

  /** No key is ever in both namespaces. */
  lemma NamespacesDisjoint(b: Broker)
    requires b.Valid()
    ensures b.exactTopics.Keys !! b.patternTopics.Keys
  {
  }

  /** The "Dropped" branch of publish is taken exactly when neither the exact
      entry nor any matching pattern entry has a receiver. */
  lemma {:induction false} DroppedIffNoReceiver(exact: Table, patterns: Table, topic: Topic)
    ensures ExactReach(exact, topic) + SumCounts(patterns, MatchingKeys(patterns, topic)) == 0 <==>
      && (topic in exact ==> ReceiverCount(exact[topic]) == 0)
      && (forall p :: p in patterns && Matches(topic, p) ==> ReceiverCount(patterns[p]) == 0)
  {
    SumCountsZero(patterns, MatchingKeys(patterns, topic));
  }
}
