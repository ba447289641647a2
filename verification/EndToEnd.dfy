/** Messages over whole sessions: from the application that publishes, over the agent and its client, to
    the callback of a subscriber on the same or another board. */
module EndToEnd {
  import opened Bytes
  import opened Protocol
  import opened Registration
  import opened Options
  import opened FieldTree
  import opened MicroCdr
  import opened Serde
  import opened GeneratedCode
  import opened Publishing
  import opened SizeAnalysis
  import opened Board
  import opened Session
  import opened SessionTheorems
  import opened Traffic
  import opened TopicIds
  import opened ClientHandler
  import A = AgentNode

  /** A message of a type, and what the board's payload buffer held before it was written. */
  datatype Message = Message(fields: seq<Field>, value: seq<Value>, stale: seq<byte>) {
    predicate Valid() {
      && Writable(fields, value) && |stale| == BUFFER_SIZE && PayloadSize(fields, value) <= MAX_PAYLOAD
    }

    function Payload(): (payload: seq<byte>)
      requires Valid()
      ensures |payload| >= ENCAP_HEADER_LEN
    {
      DataPayload(fields, value, stale)
    }
  }

  /** Whatever was in memory before, the generated deserializer reads the message from these bytes, without
      error and to their end. */
  ghost predicate Decodes(cdr: seq<byte>, m: Message)
    requires m.Valid()
  {
    var b := InitBuffer(cdr, |cdr|, [], 0, 0);
    && b.Valid() && b.Aligned()
    && forall before: seq<Stale> | |before| == |Leaves(m.fields)| ::
         var r := ReadLeaves(b, Leaves(m.fields), before);
         r.ok && r.contents == Flatten(m.value) && View(r.buf) == Cursor(|cdr|, |cdr|, false)
  }

  lemma {:induction false} PayloadDecodes(m: Message)
    requires m.Valid()
    ensures m.Payload()[..ENCAP_HEADER_LEN] == ENCAP_HEADER && Decodes(m.Payload()[ENCAP_HEADER_LEN..], m)
  {
    hide DataPayload, ReadLeaves, Leaf.Valid, LeavesConform, PayloadSize, Buffer.Valid, Buffer.Aligned, Leaves, Flatten;
    var zeros := seq(|Leaves(m.fields)|, i => Stale(0, []));
    PayloadReadsBack(m.fields, m.value, m.stale, zeros);
    forall before: seq<Stale> | |before| == |Leaves(m.fields)|
      ensures var cdr := m.Payload()[ENCAP_HEADER_LEN..];
              var b := InitBuffer(cdr, |cdr|, [], 0, 0);
              b.Valid() && b.Aligned() &&
              var r := ReadLeaves(b, Leaves(m.fields), before);
              r.ok && r.contents == Flatten(m.value) && View(r.buf) == Cursor(|cdr|, |cdr|, false)
    {
      PayloadReadsBack(m.fields, m.value, m.stale, before);
    }
  }

  /** When all an application publishes are messages of its types, the client is given a prefix of them,
      each one readable. */
  lemma {:induction false} PublishedDecode(topics: seq<Topic>, actions: seq<Action>, t: Session, messages: seq<Message>)
    requires Topics(topics) && Leads(Start(topics), topics, actions, t)
    requires |messages| == |Publishes(Start(topics), topics, actions, t)|
    requires forall k | 0 <= k < |messages| ::
               messages[k].Valid() && Publishes(Start(topics), topics, actions, t)[k].payload == messages[k].Payload()
    ensures |t.agent.published| <= |messages|
    ensures forall k | 0 <= k < |t.agent.published| ::
              var f := t.agent.published[k];
              && f == Publishes(Start(topics), topics, actions, t)[k] && f.payload == messages[k].Payload()
              && Decodes(f.payload[ENCAP_HEADER_LEN..], messages[k])
  {
    hide Leads, Publishes, Forwards, Topics, Decodes, Message.Valid, Message.Payload;
    MessagesInOrder(topics, actions, t);
    forall k | 0 <= k < |t.agent.published|
      ensures Decodes(messages[k].Payload()[ENCAP_HEADER_LEN..], messages[k])
    {
      PayloadDecodes(messages[k]);
    }
  }

  /** The callback a numbered topic has. */
  function Callback(directions: seq<Direction>, i: nat): Option<nat>
    requires i < |directions|
  {
    if directions[i].Subscriber? then Some(i) else None
  }

  /** What the client forwards for a numbered topic reaches the callback of just that topic, and a null
      pointer if the board publishes it. */
  lemma {:induction false} ForwardedArrives(directions: seq<Direction>, topics: seq<Topic>, actions: seq<Action>,
                                            t: Session, k: nat, i: nat)
    requires Topics(topics) && Leads(Start(topics), topics, actions, t)
    requires Numbered(directions, topics) && i < |topics|
    requires k < |t.mcu.delivered| && k < |Forwards(Start(topics), topics, actions, t)|
    requires Forwards(Start(topics), topics, actions, t)[k].topicId == topics[i].id
    ensures t.mcu.delivered[k] ==
            Delivery(Callback(directions, i), Forwards(Start(topics), topics, actions, t)[k].payload)
  {
    hide Leads, Publishes, Forwards, Topics, Fits, IdOf, LastWith, DirectionOf;
    MessagesInOrder(topics, actions, t);
    IndexAgrees(directions, Ids(topics), i);
    DirectionRecovered(directions, i);
  }

  /** When the agent forwards only what its client has subscribed to, every message ends in the callback of
      a topic of that number which the board subscribes to. */
  lemma {:induction false} OnlySubscribersCalled(directions: seq<Direction>, topics: seq<Topic>, actions: seq<Action>,
                                                 t: Session, k: nat) returns (i: nat)
    requires Topics(topics) && Leads(Start(topics), topics, actions, t) && Numbered(directions, topics)
    requires forall j | 0 <= j < |Forwards(Start(topics), topics, actions, t)| ::
               Subscribed(Connect(map[], Accepted(topics)), Forwards(Start(topics), topics, actions, t)[j].topicId)
    requires k < |t.mcu.delivered|
    ensures k < |Forwards(Start(topics), topics, actions, t)|
    ensures var f := Forwards(Start(topics), topics, actions, t)[k];
            && i < |topics| && topics[i].id == f.topicId && directions[i].Subscriber?
            && t.mcu.delivered[k] == Delivery(Some(i), f.payload)
  {
    hide Leads, Publishes, Forwards, Numbered, Connect, Accepted, Subscribed;
    MessagesInOrder(topics, actions, t);
    i := SubscribedIsSubscriber(directions, topics, Forwards(Start(topics), topics, actions, t)[k].topicId);
    NumberedFits(directions, topics);
    ForwardedArrives(directions, topics, actions, t, k, i);
  }

  lemma NumberedFits(directions: seq<Direction>, topics: seq<Topic>)
    requires Numbered(directions, topics)
    ensures |topics| == |directions|
  {
  }

  /** From board to board: the agent of the one session passes a message on to ROS, and the client of the
      other queues what ROS hands it for topic i. When the board dispatches it, topic i's callback is called if
      it has one, and reads the message that was published. */
  lemma {:induction false} BoardToBoard(topics: seq<Topic>, actions: seq<Action>, t: Session, j: nat, m: Message,
                                        directions: seq<Direction>, others: seq<Topic>, moves: seq<Action>,
                                        u: Session, k: nat, i: nat)
    requires Topics(topics) && Leads(Start(topics), topics, actions, t)
    requires Topics(others) && Leads(Start(others), others, moves, u) && Numbered(directions, others) && i < |others|
    requires m.Valid() && j < |t.agent.published| && j < |Publishes(Start(topics), topics, actions, t)|
    requires Publishes(Start(topics), topics, actions, t)[j].payload == m.Payload()
    requires k < |u.mcu.delivered| && k < |Forwards(Start(others), others, moves, u)|
    requires |t.agent.published[j].payload| >= ENCAP_HEADER_LEN
    requires Forwards(Start(others), others, moves, u)[k] == Forwarded(others[i].id, t.agent.published[j].payload)
    ensures u.mcu.delivered[k].topic == Callback(directions, i) && Decodes(u.mcu.delivered[k].payload, m)
  {
    hide Leads, Publishes, Forwards, Topics, Numbered, Decodes, Message.Valid, Message.Payload;
    NumberedFits(directions, others);
    MessagesInOrder(topics, actions, t);
    ForwardedArrives(directions, others, moves, u, k, i);
    PayloadDecodes(m);
  }

  /** What the client's callback queues, the agent may forward once its client exists. */
  lemma {:induction false} QueuedMayGo(s: Session, n: nat, topicId: byte, message: seq<byte>)
    requires s.Valid() && Legal(s, AgentTurns(n, None)) && |message| >= ENCAP_HEADER_LEN
    requires A.Handle(A.Receive(s.agent, s.toAgent[..n])).client.Some?
    ensures Legal(s, AgentTurns(n, Some(Forwarded(topicId, message))))
  {
    hide A.Handle, A.Receive;
  }

  /** And a board on which nros_init succeeded makes of it just one call, to the topic with that id and with
      what followed the encapsulation header. */
  lemma {:induction false} QueuedIsDelivered(directions: seq<Direction>, topics: seq<Topic>, m: Mcu, i: nat,
                                             message: seq<byte>)
    requires Topics(topics) && Numbered(directions, topics) && i < |topics| && m.topicMap == Index(topics)
    requires |message| >= ENCAP_HEADER_LEN
    ensures Board.Dispatch(m, topics, Forwarded(topics[i].id, message)) ==
            m.(delivered := m.delivered + [Delivery(Callback(directions, i), message[4..])])
  {
    hide Topics, Fits, IdOf, LastWith, DirectionOf, Acknowledge, RegisterStart;
    TopicsSome(topics);
    IndexAgrees(directions, Ids(topics), i);
    DirectionRecovered(directions, i);
  }

  lemma TopicsSome(topics: seq<Topic>)
    requires Topics(topics)
    ensures topics != []
  {
  }
}
