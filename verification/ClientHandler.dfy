/** What the agent's client makes of the topics it is created with, and of the messages it gets. */
module ClientHandler {
  import opened Bytes
  import opened Protocol
  import opened StreamParser
  import opened Registration
  import opened FieldTree
  import opened MicroCdr
  import opened Serde
  import opened GeneratedCode
  import opened Publishing
  import opened SessionTheorems
  import opened TopicIds
  import Framing
  import SizeAnalysis

  datatype Reliability = Unspecified | Reliable | BestEffort

  /** A quality of service as ROS is asked for it: one of its named profiles, or a history depth and what
      is said beyond it. */
  datatype Profile = SensorDataQoS | SystemDefaultsQoS
    | KeepLast(depth: nat, reliability: Reliability, transientLocal: bool)

  const DEFAULT_PROFILE := KeepLast(10, Unspecified, false)

  /** qos_from_wire */
  function QosFromWire(qos: byte): Profile {
    match qos
    case 1 => SensorDataQoS
    case 2 => KeepLast(10, Reliable, false)
    case 3 => KeepLast(10, BestEffort, false)
    case 4 => KeepLast(1, Reliable, true)
    case 5 => SystemDefaultsQoS
    case _ => DEFAULT_PROFILE
  }

  /** The qualities of service the generator knows by name. */
  datatype QosName = DefaultQos | SensorDataQos | ReliableQos | BestEffortQos | TransientLocalQos | SystemDefaultQos

  /** The number the board registers for one. */
  function WireQos(name: QosName): byte {
    match name
    case DefaultQos => 0
    case SensorDataQos => 1
    case ReliableQos => 2
    case BestEffortQos => 3
    case TransientLocalQos => 4
    case SystemDefaultQos => 5
  }

  /** What the generator's user names is known to the agent, and is what ROS is asked for: a history of ten
      unless the last message is to be kept for latecomers, reliable or best effort as the name says. */
  lemma {:induction false} NamedQosKept(name: QosName)
    ensures WireQos(name) as nat < QOS_COUNT
    ensures var p := QosFromWire(WireQos(name));
            && (name.SensorDataQos? <==> p.SensorDataQoS?) && (name.SystemDefaultQos? <==> p.SystemDefaultsQoS?)
            && (p.KeepLast? ==>
                  && p.depth == (if name.TransientLocalQos? then 1 else 10)
                  && (p.transientLocal <==> name.TransientLocalQos?)
                  && (p.reliability.Reliable? <==> name.ReliableQos? || name.TransientLocalQos?)
                  && (p.reliability.BestEffort? <==> name.BestEffortQos?))
  {
  }

  /** A topic on the ROS side: published for the board, or subscribed to for it. */
  datatype Handle = Handle(topic: Topic, direction: Direction, profile: Profile)

  function HandleOf(t: Topic): Handle {
    Handle(t, DirectionOf(t.id as nat), QosFromWire(t.qos))
  }

  /** The client's table of topics has an entry for every number but the last. */
  const TABLE_SIZE: nat := 255

  function Connect(handles: map<nat, Handle>, topics: seq<Topic>): map<nat, Handle> {
    if topics == [] then handles
    else
      var n := |topics| - 1;
      var before := Connect(handles, topics[..n]);
      if Beyond(topics[n]) then before else before[topics[n].id as nat := HandleOf(topics[n])]
  }

  /** The topic's entry would lie behind the table. */
  predicate Beyond(t: Topic): (beyond: bool)
    ensures beyond <==> t.id == 0xFF
  {
    t.id as nat >= TABLE_SIZE
  }

  /** The client has a subscription with that number. */
  predicate Subscribed(handles: map<nat, Handle>, id: byte) {
    id as nat in handles && handles[id as nat].direction.Subscriber?
  }

  /** The frame the callback queues for a message long enough to have an encapsulation header. */
  function Forwarded(topicId: byte, message: seq<byte>): (f: Frame)
    requires |message| >= SizeAnalysis.ENCAP_HEADER_LEN
    ensures f.kind == 0x02 && f.topicId == topicId && f.payload == message[4..]
  {
    Frame(DATA, topicId, message[SizeAnalysis.ENCAP_HEADER_LEN..])
  }

  class ClientHandlerNode {
    var topics: map<nat, Handle>
    /** Frames for the board, in the order the callbacks queued them. */
    var queue: seq<Frame>
    /** A topic was written behind the table; what that hits is not modelled. */
    var overran: bool

    constructor ()
      ensures topics == map[] && queue == [] && !overran
    {
      topics, queue, overran := map[], [], false;
    }

    method OnClientConnect(newTopics: seq<Topic>)
      modifies this`topics, this`overran
      ensures topics == Connect(old(topics), newTopics)
      ensures overran <==> old(overran) || exists i | 0 <= i < |newTopics| :: Beyond(newTopics[i])
    {
      hide Connect, QosFromWire, Beyond;
      ConnectNone(topics);
      for i := 0 to |newTopics|
        invariant topics == Connect(old(topics), newTopics[..i])
        invariant overran <==> old(overran) || exists j | 0 <= j < i :: Beyond(newTopics[j])
      {
        ConnectNext(old(topics), newTopics, i);
        BeyondNext(newTopics, i);
        var t := newTopics[i];
        var direction := if t.id as nat >= PUBLISHER_START then Publisher else Subscriber;
        if t.id as nat < TABLE_SIZE {
          topics := topics[t.id as nat := Handle(t, direction, QosFromWire(t.qos))];
        } else {
          overran := true;
        }
      }
      assert newTopics[..|newTopics|] == newTopics;
    }

    /** A message from ROS loses its encapsulation header on the way to the board. */
    method ClientSubscriptionCallback(topicId: byte, message: seq<byte>)
      modifies this`queue
      ensures queue == old(queue) + if |message| < SizeAnalysis.ENCAP_HEADER_LEN then []
                                    else [Forwarded(topicId, message)]
    {
      if |message| < SizeAnalysis.ENCAP_HEADER_LEN {
        return;
      }
      var bytes := message[SizeAnalysis.ENCAP_HEADER_LEN..];
      queue := queue + [Frame(DATA, topicId, bytes)];
    }
  }

  lemma ConnectNone(handles: map<nat, Handle>)
    ensures Connect(handles, []) == handles
  {
  }

  lemma ConnectNext(handles: map<nat, Handle>, topics: seq<Topic>, i: nat)
    requires i < |topics|
    ensures var before, t := Connect(handles, topics[..i]), topics[i];
            Connect(handles, topics[..i + 1]) ==
            if t.id as nat >= TABLE_SIZE then before
            else before[t.id as nat := Handle(t, if t.id as nat >= PUBLISHER_START then Publisher else Subscriber,
                                              QosFromWire(t.qos))]
  {
    hide QosFromWire;
    assert topics[..i + 1][..i] == topics[..i];
  }

  lemma BeyondNext(topics: seq<Topic>, i: nat)
    requires i < |topics|
    ensures (exists j | 0 <= j < i + 1 :: Beyond(topics[j])) <==>
            ((exists j | 0 <= j < i :: Beyond(topics[j])) || topics[i].id as nat >= TABLE_SIZE)
  {
  }

  lemma {:induction false} ConnectDistinct(handles: map<nat, Handle>, topics: seq<Topic>, i: nat)
    requires i < |topics| && !Beyond(topics[i])
    requires forall j, k | 0 <= j < k < |topics| :: topics[j].id as nat != topics[k].id as nat
    ensures topics[i].id as nat in Connect(handles, topics)
    ensures Connect(handles, topics)[topics[i].id as nat] == HandleOf(topics[i])
    decreases topics
  {
    hide HandleOf, Beyond;
    var n := |topics| - 1;
    if i < n {
      ConnectDistinct(handles, topics[..n], i);
      assert topics[..n][i] == topics[i];
    }
  }

  /** The board numbered its topics with the generator's ids. */
  predicate Numbered(directions: seq<Direction>, topics: seq<Topic>) {
    && |topics| == |directions| && Fits(directions)
    && forall j | 0 <= j < |topics| :: topics[j].id as nat == IdOf(directions, j)
  }

  /** When the client is created with what a session delivers, every accepted topic of the board is
      connected, as the topic it is, with the direction the board gave it and with the quality of service it
      asked for: different ones are told apart, and no topic falls back to the default. None lies behind the
      client's table. */
  lemma {:induction false} EveryTopicConnected(directions: seq<Direction>, topics: seq<Topic>, i: nat)
    requires Numbered(directions, topics) && i < |topics| && topics[i].qos as nat < QOS_COUNT
    ensures !Beyond(topics[i])
    ensures topics[i].id as nat in Connect(map[], Accepted(topics))
    ensures var handle := Connect(map[], Accepted(topics))[topics[i].id as nat];
            && handle == Handle(topics[i], directions[i], QosFromWire(topics[i].qos))
            && (forall q: byte | QosFromWire(q) == handle.profile && q as nat < QOS_COUNT :: q == topics[i].qos)
  {
    hide Accepted, IdOf, Fits, Connect, DirectionOf;
    var at := AcceptedExactly(topics);
    var accepted := Accepted(topics);
    assert i in at;
    var k :| 0 <= k < |at| && at[k] == i;
    assert accepted[k] == topics[i];
    forall j, l | 0 <= j < l < |accepted|
      ensures accepted[j].id as nat != accepted[l].id as nat
    {
      NumbersDiffer(directions, topics, at[j], at[l]);
    }
    IdRanges(directions, i);
    ConnectDistinct(map[], accepted, k);
    DirectionRecovered(directions, i);
  }

  /** What the client subscribes to is an accepted topic of the board, and one the board subscribes to. */
  lemma {:induction false} SubscribedIsSubscriber(directions: seq<Direction>, topics: seq<Topic>, id: byte)
    returns (i: nat)
    requires Numbered(directions, topics) && Subscribed(Connect(map[], Accepted(topics)), id)
    ensures i < |topics| && topics[i].id == id && topics[i].qos as nat < QOS_COUNT && directions[i].Subscriber?
  {
    hide Accepted, IdOf, Fits, Connect, DirectionOf;
    var k := ConnectFrom(Accepted(topics), id as nat);
    var at := AcceptedExactly(topics);
    i := at[k];
    assert i in at;
    DirectionRecovered(directions, i);
  }

  /** A handle is that of a topic with its number. */
  lemma {:induction false} ConnectFrom(topics: seq<Topic>, id: nat) returns (k: nat)
    requires id in Connect(map[], topics)
    ensures k < |topics| && topics[k].id as nat == id && Connect(map[], topics)[id] == HandleOf(topics[k])
    decreases topics
  {
    hide HandleOf, Beyond;
    var n := |topics| - 1;
    if topics[n].id as nat == id && !Beyond(topics[n]) {
      k := n;
    } else {
      k := ConnectFrom(topics[..n], id);
    }
  }

  lemma NumbersDiffer(directions: seq<Direction>, topics: seq<Topic>, i: nat, j: nat)
    requires Numbered(directions, topics) && i < j < |topics|
    ensures topics[i].id as nat != topics[j].id as nat
  {
    hide IdOf, Fits;
    IdsDistinct(directions, i, j);
  }

  // ---- a message from board to board ----

  /** A message one board publishes, the agent's parser p receives, ROS passes on and the agent forwards to
      a board with parser q, is what the subscriber's generated deserializer reads there. */
  lemma {:induction false} MessageArrives(fields: seq<Field>, msg: seq<Value>, stale: seq<byte>, before: seq<Stale>,
                       pubId: byte, subId: byte, p: Parser, q: Parser)
    requires Writable(fields, msg) && |stale| == BUFFER_SIZE && PayloadSize(fields, msg) <= MAX_PAYLOAD
    requires |before| == |Leaves(fields)| && p.phase.Hunt? && q.phase.Hunt?
    ensures var up := Frame(DATA, pubId, DataPayload(fields, msg, stale));
            var down := Forwarded(subId, up.payload);
            var b := InitBuffer(down.payload, |down.payload|, [], 0, 0);
            && Run(p, Encode(up)).calls == p.calls + [up]
            && Run(q, Encode(down)).calls == q.calls + [down]
            && b.Valid() && b.Aligned()
            && var r := ReadLeaves(b, Leaves(fields), before);
               r.ok && r.contents == Flatten(msg) && !r.buf.error
  {
    hide Encode, Run, DataPayload, ReadLeaves, Writable, Buffer.Valid, Buffer.Aligned;
    var up := Frame(DATA, pubId, DataPayload(fields, msg, stale));
    PayloadReadsBack(fields, msg, stale, before);
    Framing.FeedFrame(p, up);
    Framing.FeedFrame(q, Forwarded(subId, up.payload));
  }
}
