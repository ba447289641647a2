/** The messages of a run: those the application published and those the client queued, against what
    arrives on the other side. */
module Traffic {
  import opened Bytes
  import opened Protocol
  import opened StreamParser
  import opened Registration
  import opened Options
  import opened Board
  import opened Channel
  import opened AgentNode
  import opened Session
  import opened SessionTheorems
  import A = AgentNode

  // ---- the data frames among others ----

  function DataOf(frames: seq<Frame>): seq<Frame> {
    if frames == [] then [] else DataOf(frames[..|frames| - 1]) + Only(frames[|frames| - 1])
  }

  function Only(f: Frame): seq<Frame> {
    if f.kind == DATA then [f] else []
  }

  lemma NoFrames()
    ensures DataOf([]) == []
  {
  }

  lemma LastOf(frames: seq<Frame>)
    requires frames != []
    ensures DataOf(frames) == DataOf(frames[..|frames| - 1]) + Only(frames[|frames| - 1])
  {
    hide Only;
  }

  lemma ButLast<T>(s: seq<T>)
    requires s != []
    ensures s == s[..|s| - 1] + [s[|s| - 1]]
  {
  }

  lemma {:induction false} DataConcat(a: seq<Frame>, b: seq<Frame>)
    ensures DataOf(a + b) == DataOf(a) + DataOf(b)
    decreases b
  {
    hide DataOf;
    if b == [] {
      NoFrames();
      assert a + b == a;
    } else {
      var n := |b| - 1;
      DataConcat(a, b[..n]);
      LastOf(b);
      LastOf(a + b);
      assert (a + b)[..|a| + n] == a + b[..n];
    }
  }

  lemma DataOfOne(f: Frame)
    ensures DataOf([f]) == if f.kind == DATA then [f] else []
  {
    assert [f][..0] == [];
  }

  lemma {:induction false} AllData(frames: seq<Frame>)
    requires OnlyData(frames)
    ensures DataOf(frames) == frames
  {
    hide DataOf;
    if frames == [] {
      NoFrames();
    } else {
      AllData(frames[..|frames| - 1]);
      ButLast(frames);
      LastOf(frames);
    }
  }

  lemma {:induction false} NoData(frames: seq<Frame>)
    requires forall j | 0 <= j < |frames| :: frames[j].kind != DATA
    ensures DataOf(frames) == []
  {
    hide DataOf;
    if frames == [] {
      NoFrames();
    } else {
      NoData(frames[..|frames| - 1]);
      ButLast(frames);
      LastOf(frames);
    }
  }

  // ---- the messages of a run ----

  /** The frame a publish attempt puts on its way, if it succeeds. */
  function PublishedBy(s: Session, action: Action): seq<Frame> {
    match action
    case BoardPublishes(id, payload) =>
      if s.mcu.sending || !s.mcu.registrationComplete || |payload| > MAX_PAYLOAD then []
      else [Frame(DATA, id, payload)]
    case _ => []
  }

  /** The frame from the client's queue that a turn sends; one too large is dropped. */
  function ForwardedBy(action: Action): seq<Frame> {
    match action
    case AgentTurns(_, outbound) => DataResponse(outbound)
    case _ => []
  }

  /** All successful publishes on the way from s to t. */
  function Publishes(s: Session, topics: seq<Topic>, actions: seq<Action>, t: Session): seq<Frame>
    requires topics != [] && Leads(s, topics, actions, t)
    decreases actions
  {
    if actions == [] then []
    else PublishedBy(s, actions[0]) + Publishes(Next(s, topics, actions[0]), topics, actions[1..], t)
  }

  /** All messages the agent forwards on the way from s to t. */
  function Forwards(s: Session, topics: seq<Topic>, actions: seq<Action>, t: Session): seq<Frame>
    requires topics != [] && Leads(s, topics, actions, t)
    decreases actions
  {
    if actions == [] then []
    else ForwardedBy(actions[0]) + Forwards(Next(s, topics, actions[0]), topics, actions[1..], t)
  }

  function Deliveries(topics: seq<Topic>, frames: seq<Frame>): (ds: seq<Delivery>)
    ensures |ds| == |frames|
  {
    var index := Index(topics);
    seq(|frames|, i requires 0 <= i < |frames| => DeliveryOf(topics, index[frames[i].topicId as nat], frames[i]))
  }

  // ---- what a step does to the logs ----

  lemma OneMore(frames: seq<Frame>, f: Frame)
    ensures DataOf(frames + [f]) == if f.kind == DATA then DataOf(frames) + [f] else DataOf(frames)
  {
    DataOfOne(f);
    DataConcat(frames, [f]);
  }

  /** Registration loads no data frame. */
  lemma LoadNextLogs(m: Mcu, topics: seq<Topic>)
    requires m.sendingDone || m.index < |topics|
    ensures var next := LoadNext(m, topics);
            DataOf(next.loaded) == DataOf(m.loaded) && next.delivered == m.delivered && next.topicMap == m.topicMap
  {
    hide Encode, DataOf;
    if m.sendingDone {
      OneMore(m.loaded, DONE_FRAME);
    } else if topics[m.index].Announceable() {
      OneMore(m.loaded, RegisterFrame(topics[m.index]));
    }
  }

  lemma DispatchLogs(m: Mcu, topics: seq<Topic>, f: Frame)
    requires topics != [] && m.topicMap == Index(topics)
    ensures var next := Board.Dispatch(m, topics, f);
            && DataOf(next.loaded) == DataOf(m.loaded)
            && next.topicMap == m.topicMap
            && next.delivered == m.delivered + Deliveries(topics, DataOf([f]))
  {
    hide LoadNext, DataOf, DeliveryOf, Index;
    DataOfOne(f);
    forall n: Mcu | n.sendingDone || n.index < |topics|
      ensures DataOf(LoadNext(n, topics).loaded) == DataOf(n.loaded)
      ensures LoadNext(n, topics).delivered == n.delivered && LoadNext(n, topics).topicMap == n.topicMap
    {
      LoadNextLogs(n, topics);
    }
    assert m.delivered + [] == m.delivered;
  }

  lemma DeliveriesConcat(topics: seq<Topic>, a: seq<Frame>, b: seq<Frame>)
    ensures Deliveries(topics, a + b) == Deliveries(topics, a) + Deliveries(topics, b)
  {
    hide DeliveryOf;
  }

  lemma {:induction false} DispatchAllLogs(m: Mcu, topics: seq<Topic>, frames: seq<Frame>)
    requires topics != [] && m.topicMap == Index(topics)
    ensures var next := DispatchAll(m, topics, frames);
            && DataOf(next.loaded) == DataOf(m.loaded)
            && next.delivered == m.delivered + Deliveries(topics, DataOf(frames))
            && next.parser == m.parser && next.topicMap == m.topicMap
    decreases frames
  {
    hide Board.Dispatch, Deliveries, DataOf, Index;
    if frames == [] {
      NothingLogged(topics);
    } else {
      var n := |frames| - 1;
      assert frames == frames[..n] + [frames[n]];
      DataConcat(frames[..n], [frames[n]]);
      DeliveriesConcat(topics, DataOf(frames[..n]), DataOf([frames[n]]));
      var middle := DispatchAll(m, topics, frames[..n]);
      DispatchAllLogs(m, topics, frames[..n]);
      DispatchLogs(middle, topics, frames[n]);
      DispatchKeepsParser(middle, topics, frames[n]);
    }
  }

  lemma {:induction false} BoardLogs(s: Session, topics: seq<Topic>, action: Action)
    requires topics != [] && s.Valid() && Legal(s, action)
    requires s.mcu.topicMap == Index(topics) && s.mcu.delivered == Deliveries(topics, DataOf(s.mcu.parser.calls))
    ensures var m := Next(s, topics, action).mcu;
            && DataOf(m.loaded) == DataOf(s.mcu.loaded) + PublishedBy(s, action)
            && m.topicMap == Index(topics) && m.delivered == Deliveries(topics, DataOf(m.parser.calls))
  {
    hide DataOf, Deliveries, Board.Receive, Transmit, Publish, A.Turn, Mcu.Unsent;
    match action
    case BoardWrites(n) => TransmitLogs(s, n);
    case BoardReads(n) => ReceiveLogs(s.mcu, topics, s.toMcu[..n]);
    case BoardPublishes(id, payload) => PublishLogs(s, id, payload);
    case AgentTurns(_, _) =>
  }

  lemma TransmitLogs(s: Session, n: nat)
    requires n <= |s.mcu.Unsent()|
    ensures var m := Transmit(s.mcu, n);
            && m.loaded == s.mcu.loaded && m.delivered == s.mcu.delivered
            && m.parser == s.mcu.parser && m.topicMap == s.mcu.topicMap
    ensures PublishedBy(s, BoardWrites(n)) == []
  {
    hide Mcu.Unsent;
  }

  lemma PublishLogs(s: Session, id: byte, payload: seq<byte>)
    requires |payload| <= BUFFER_SIZE
    ensures var m := Publish(s.mcu, Frame(DATA, id, payload));
            && DataOf(m.loaded) == DataOf(s.mcu.loaded) + PublishedBy(s, BoardPublishes(id, payload))
            && m.delivered == s.mcu.delivered && m.parser == s.mcu.parser && m.topicMap == s.mcu.topicMap
  {
    hide Encode, DataOf;
    OneMore(s.mcu.loaded, Frame(DATA, id, payload));
  }

  lemma ReceiveLogs(m: Mcu, topics: seq<Topic>, chunk: seq<byte>)
    requires topics != [] && m.parser.Valid() && m.topicMap == Index(topics)
    requires m.delivered == Deliveries(topics, DataOf(m.parser.calls))
    ensures var next := Board.Receive(m, topics, chunk);
            && DataOf(next.loaded) == DataOf(m.loaded) && next.topicMap == Index(topics)
            && next.delivered == Deliveries(topics, DataOf(next.parser.calls))
  {
    hide DataOf, Deliveries, Run, DispatchAll, Parser.Valid;
    var p := Run(m.parser, chunk);
    CallsGrow(m.parser, chunk);
    var frames := p.calls[|m.parser.calls|..];
    assert p.calls == m.parser.calls + frames;
    DispatchAllLogs(m.(parser := p), topics, frames);
    DataConcat(m.parser.calls, frames);
    DeliveriesConcat(topics, DataOf(m.parser.calls), DataOf(frames));
  }

  lemma {:induction false} AgentLogs(s: Session, topics: seq<Topic>, action: Action)
    requires topics != [] && s.Valid() && Legal(s, action)
    ensures DataOf(Next(s, topics, action).agent.sent) == DataOf(s.agent.sent) + ForwardedBy(action)
  {
    hide Encode, Wire, DataOf, DeliveryOf, Run, DispatchAll, A.Receive, Handle;
    match action
    case AgentTurns(n, outbound) => TurnLogs(s.agent, s.toAgent[..n], outbound);
    case _ =>
  }

  lemma TurnLogs(a: Agent, read: seq<byte>, outbound: Option<Frame>)
    requires a.parser.Valid() && (outbound.Some? ==> outbound.value.kind == DATA)
    ensures DataOf(Turn(a, read, outbound).0.sent) == DataOf(a.sent) + DataResponse(outbound)
  {
    hide Encode, Wire, DataOf, Run;
    var b := Handle(A.Receive(a, read));
    assert b.sent == a.sent;
    OneMore(b.sent, Frame(DISCOVER, 0, b.frame.payload));
    var (c, _) := SendDiscover(b);
    var (d, _) := SendOutbound(c, outbound);
    if outbound.Some? {
      OneMore(c.sent, outbound.value);
    }
    if b.ack.Some? {
      OneMore(d.sent, AckFrame(b.ack.value.id, b.ack.value.status));
    }
  }

  // ---- whole runs ----

  lemma {:induction false} RunLogs(s: Session, topics: seq<Topic>, actions: seq<Action>, t: Session)
    requires topics != [] && Leads(s, topics, actions, t)
    requires s.mcu.topicMap == Index(topics) && s.mcu.delivered == Deliveries(topics, DataOf(s.mcu.parser.calls))
    ensures DataOf(t.mcu.loaded) == DataOf(s.mcu.loaded) + Publishes(s, topics, actions, t)
    ensures DataOf(t.agent.sent) == DataOf(s.agent.sent) + Forwards(s, topics, actions, t)
    ensures t.mcu.delivered == Deliveries(topics, DataOf(t.mcu.parser.calls))
    decreases actions
  {
    hide Legal, Next, DataOf, Deliveries, PublishedBy, ForwardedBy;
    if actions != [] {
      BoardLogs(s, topics, actions[0]);
      AgentLogs(s, topics, actions[0]);
      RunLogs(Next(s, topics, actions[0]), topics, actions[1..], t);
    }
  }

  /** The data frames among those a side sends are the ones behind its part in the registration. */
  lemma DataAfter(script: seq<Frame>, frames: seq<Frame>)
    requires forall j | 0 <= j < |script| :: script[j].kind != DATA
    requires script <= frames && OnlyData(frames[|script|..])
    ensures DataOf(frames) == frames[|script|..]
  {
    hide DataOf;
    NoData(script);
    AllData(frames[|script|..]);
    DataConcat(script, frames[|script|..]);
    assert frames == script + frames[|script|..];
  }

  lemma LoadedData(topics: seq<Topic>, m: Mcu, h: nat)
    requires Topics(topics) && BoardStory(topics, m, h)
    ensures DataOf(m.loaded) == if |m.loaded| > |topics| then m.loaded[|topics| + 1..] else []
  {
    hide DataOf, Script;
    forall j | 0 <= j < |Script(topics)|
      ensures Script(topics)[j].kind != DATA
    {
      ScriptAt(topics, j);
    }
    if h <= |topics| {
      NoData(m.loaded);
    } else {
      DataAfter(Script(topics), m.loaded);
    }
  }

  /** In every first session the client is given exactly what the application published, in order, up to
      where the agent has got, and the callbacks get exactly what the client queued, up to where the board
      has got. Nothing is missing once nothing is on the way. */
  lemma {:induction false} MessagesInOrder(topics: seq<Topic>, actions: seq<Action>, t: Session)
    requires Topics(topics) && Leads(Start(topics), topics, actions, t)
    ensures var published := Publishes(Start(topics), topics, actions, t);
            && t.agent.published <= published
            && (t.toAgent == [] && t.mcu.Unsent() == [] && t.agent.completed == [] ==> t.agent.published == published)
    ensures var delivered := Deliveries(topics, Forwards(Start(topics), topics, actions, t));
            && t.mcu.delivered <= delivered
            && (t.toMcu == [] ==> t.mcu.delivered == delivered)
  {
    hide Leads, DataOf, Publishes, Forwards, Inv, Deliveries;
    NothingLogged(topics);
    RunLogs(Start(topics), topics, actions, t);
    InvStart(topics);
    RunInv(Start(topics), topics, actions, t);
    PublishedIsData(t, topics);
    DeliveredIsData(t, topics);
    assert [] + Forwards(Start(topics), topics, actions, t) == Forwards(Start(topics), topics, actions, t);
  }

  lemma NothingLogged(topics: seq<Topic>)
    ensures DataOf([]) == [] && Deliveries(topics, []) == []
  {
  }

  lemma PublishedIsData(t: Session, topics: seq<Topic>)
    requires Topics(topics) && Inv(t, topics)
    ensures t.agent.published <= DataOf(t.mcu.loaded)
    ensures t.toAgent == [] && t.mcu.Unsent() == [] && t.agent.completed == [] ==>
              t.agent.published == DataOf(t.mcu.loaded)
  {
    hide DataOf, InFlight, BoardStory, Answers, Accepted, OnlyData, Downstream;
    var n, d := |topics| + 1, Dispatched(t.agent);
    LoadedData(topics, t.mcu, |t.mcu.parser.calls|);
    Delivered(t.agent.parser, t.toAgent + t.mcu.Unsent(), t.mcu.loaded);
    if d >= n {
      assert t.mcu.loaded[n..d] == t.mcu.loaded[n..][..d - n];
    }
  }

  lemma DeliveredIsData(t: Session, topics: seq<Topic>)
    requires Topics(topics) && Inv(t, topics)
    requires t.mcu.delivered == Deliveries(topics, DataOf(t.mcu.parser.calls))
    ensures t.mcu.delivered <= Deliveries(topics, DataOf(t.agent.sent))
    ensures t.toMcu == [] ==> t.mcu.delivered == Deliveries(topics, DataOf(t.agent.sent))
  {
    hide DataOf, InFlight, BoardStory, AgentStory, Upstream, DeliveryOf;
    var calls, sent := t.mcu.parser.calls, t.agent.sent;
    Delivered(t.mcu.parser, t.toMcu, sent);
    assert sent == calls + sent[|calls|..];
    DataConcat(calls, sent[|calls|..]);
  }
}
