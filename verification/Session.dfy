/** Board and agent joined by two byte channels, from power-up on. Every read and write moves as many
    bytes as the transport pleases, and the steps come in any order. */
module Session {
  import opened Bytes
  import opened Protocol
  import opened StreamParser
  import opened Registration
  import opened Options
  import opened Board
  import opened Channel
  import A = AgentNode
  import opened AgentNode

  datatype Session = Session(mcu: Mcu, agent: Agent, toAgent: seq<byte>, toMcu: seq<byte>) {
    predicate Valid() {
      mcu.parser.Valid() && agent.parser.Valid()
    }
  }

  /** Both sides are up, and no byte is on the way. */
  function Start(topics: seq<Topic>): Session {
    Session(Ready(topics), AGENT_INIT, [], [])
  }

  /** The transport takes n bytes from the board, or gives it n; the application publishes; the agent goes
      through its loop once, reads n bytes and finds a message in the client's queue or not. */
  datatype Action =
    | BoardWrites(n: nat)
    | BoardReads(n: nat)
    | BoardPublishes(topicId: byte, payload: seq<byte>)
    | AgentTurns(n: nat, outbound: Option<Frame>)

  /** The agent reads only when no completed frame waits, and the queue is filled by the client. */
  predicate Legal(s: Session, action: Action)
    requires s.Valid()
  {
    match action
    case BoardWrites(n) => n <= |s.mcu.Unsent()|
    case BoardReads(n) => n <= RX_CHUNK && n <= |s.toMcu|
    case BoardPublishes(_, payload) => |payload| <= BUFFER_SIZE
    case AgentTurns(n, outbound) =>
      && n <= |s.toAgent|
      && (s.agent.completed != [] ==> n == 0)
      && (outbound.Some? ==>
            && Handle(A.Receive(s.agent, s.toAgent[..n])).client.Some?
            && outbound.value.kind == DATA)
  }

  function Next(s: Session, topics: seq<Topic>, action: Action): Session
    requires s.Valid() && topics != [] && Legal(s, action)
  {
    match action
    case BoardWrites(n) => s.(mcu := Transmit(s.mcu, n), toAgent := s.toAgent + s.mcu.Unsent()[..n])
    case BoardReads(n) => s.(mcu := Board.Receive(s.mcu, topics, s.toMcu[..n]), toMcu := s.toMcu[n..])
    case BoardPublishes(id, payload) => s.(mcu := Publish(s.mcu, Frame(DATA, id, payload)))
    case AgentTurns(n, outbound) =>
      var (agent, written) := Turn(s.agent, s.toAgent[..n], outbound);
      s.(agent := agent, toAgent := s.toAgent[n..], toMcu := s.toMcu + written)
  }

  // ---- what each side should send ----

  /** The board registers its topics in order, then says it is done. */
  function Script(topics: seq<Topic>): (frames: seq<Frame>)
    requires Topics(topics)
    ensures |frames| == |topics| + 1
  {
    seq(|topics|, i requires 0 <= i < |topics| && topics[i].Announceable() => RegisterFrame(topics[i])) + [DONE_FRAME]
  }

  /** The agent asks, then answers each of the first d registrations. */
  function Answers(topics: seq<Topic>, d: nat): (frames: seq<Frame>)
    requires d <= |topics|
    ensures |frames| == d + 1
  {
    [DISCOVER_FRAME] + seq(d, i requires 0 <= i < |topics| => AckFrame(topics[i].id, Status(topics[i])))
  }

  lemma ScriptAt(topics: seq<Topic>, i: nat)
    requires Topics(topics) && i <= |topics|
    ensures Script(topics)[i] == if i < |topics| then RegisterFrame(topics[i]) else DONE_FRAME
    ensures Script(topics)[i].Sendable()
  {
  }

  lemma AnswersAt(topics: seq<Topic>, d: nat, i: nat)
    requires i <= d <= |topics|
    ensures Answers(topics, d)[i] ==
            if i == 0 then DISCOVER_FRAME else AckFrame(topics[i - 1].id, Status(topics[i - 1]))
  {
  }

  lemma AnswersNext(topics: seq<Topic>, d: nat)
    requires d < |topics|
    ensures Answers(topics, d + 1) == Answers(topics, d) + [AckFrame(topics[d].id, Status(topics[d]))]
  {
  }

  predicate OnlyData(frames: seq<Frame>) {
    forall j | 0 <= j < |frames| :: frames[j].kind == DATA
  }

  // ---- the invariant ----

  /** The board has acted on h frames of the agent: it asks for one topic after the other, sends the next
      one only when the last is acknowledged, and publishes only when all are registered. */
  predicate BoardStory(topics: seq<Topic>, m: Mcu, h: nat)
    requires Topics(topics)
  {
    var n := |topics|;
    && !m.overwrote
    && (h == 0 ==> !m.sending && !m.registrationComplete)
    && (h <= n ==> m.loaded == Script(topics)[..h] && m.awaitingAck == (h > 0) && !m.registrationComplete)
    && (0 < h <= n ==> m.index == h - 1 && m.isRegistration && !m.sendingDone)
    && (h > n ==>
          && Script(topics) <= m.loaded && OnlyData(m.loaded[n + 1..])
          && !m.awaitingAck && m.sendingDone
          && (m.registrationComplete || (m.sending && |m.loaded| == n + 1 && m.isRegistration)))
  }

  /** The agent has acted on d of the frames the board loaded. */
  predicate AgentStory(topics: seq<Topic>, a: Agent, loaded: seq<Frame>, d: nat)
    requires Topics(topics)
  {
    var n := |topics|;
    && !a.fault && a.ack.None? && d <= |loaded|
    && (a.needDiscover ==> d == 0 && a.frame.payload == [])
    && (d <= n ==>
          && a.newTopics == Accepted(topics[..d]) && a.client.None? && a.published == []
          && a.sent == (if a.needDiscover then [] else Answers(topics, d)))
    && (d > n ==>
          && a.newTopics == Accepted(topics) && a.client == Some(Accepted(topics))
          && Answers(topics, n) <= a.sent && OnlyData(a.sent[n + 1..])
          && a.published == loaded[n + 1..d])
  }

  /** Bytes on the way to the agent, including those the board still has to write. */
  predicate Upstream(m: Mcu, a: Agent, toAgent: seq<byte>, d: nat) {
    && InFlight(a.parser, toAgent + m.Unsent(), m.loaded)
    && (m.sending ==> m.Unsent() != [])
    && d <= |a.parser.calls| && a.parser.calls[d..] == a.completed
  }

  predicate Downstream(m: Mcu, a: Agent, toMcu: seq<byte>) {
    InFlight(m.parser, toMcu, a.sent)
  }

  /** During registration no frame waits between two turns. */
  predicate Drained(topics: seq<Topic>, a: Agent) {
    Dispatched(a) <= |topics| ==> a.completed == []
  }

  function Dispatched(a: Agent): int {
    |a.parser.calls| - |a.completed|
  }

  predicate Inv(s: Session, topics: seq<Topic>)
    requires Topics(topics)
  {
    var d := Dispatched(s.agent);
    && d >= 0 && Drained(topics, s.agent)
    && BoardStory(topics, s.mcu, |s.mcu.parser.calls|)
    && AgentStory(topics, s.agent, s.mcu.loaded, d)
    && Upstream(s.mcu, s.agent, s.toAgent, d)
    && Downstream(s.mcu, s.agent, s.toMcu)
  }

  lemma {:induction false} InvStart(topics: seq<Topic>)
    requires Topics(topics)
    ensures Inv(Start(topics), topics)
  {
    hide InFlight, Step;
    Empty();
    assert Script(topics)[..0] == [] && topics[..0] == [];
    assert Start(topics).toAgent + Start(topics).mcu.Unsent() == [];
  }

  // ---- the board writes ----

  lemma {:induction false} InvWrites(s: Session, topics: seq<Topic>, n: nat)
    requires Topics(topics) && s.Valid() && Inv(s, topics) && Legal(s, BoardWrites(n))
    ensures Inv(Next(s, topics, BoardWrites(n)), topics)
  {
    hide InFlight, Script, AgentStory, OnlyData;
    var m, u := s.mcu, s.mcu.Unsent();
    assert (s.toAgent + u[..n]) + u[n..] == s.toAgent + u;
    if m.sending {
      assert m.frame[m.sent..][n..] == m.frame[m.sent + n..];
    }
  }

  // ---- the board reads ----

  /** The invariant while the board works through frames it just received, h of them so far. */
  predicate Midway(topics: seq<Topic>, m: Mcu, a: Agent, toAgent: seq<byte>, h: nat)
    requires Topics(topics)
  {
    var d := Dispatched(a);
    d >= 0 && BoardStory(topics, m, h) && AgentStory(topics, a, m.loaded, d) && Upstream(m, a, toAgent, d)
  }

  /** An idle transmitter takes a frame. */
  lemma Loaded(m: Mcu, a: Agent, toAgent: seq<byte>, d: nat, f: Frame, next: Mcu)
    requires Upstream(m, a, toAgent, d) && !m.sending && f.Sendable()
    requires next.sending && next.frame == Encode(f) && next.sent == 0 && next.loaded == m.loaded + [f]
    ensures Upstream(next, a, toAgent, d)
  {
    hide InFlight, Encode;
    assert toAgent + m.Unsent() == toAgent;
    Send(a.parser, toAgent, m.loaded, f);
    assert Encode(f)[0..] == Encode(f);
  }

  lemma MoreLoaded(topics: seq<Topic>, a: Agent, loaded: seq<Frame>, d: nat, f: Frame)
    requires Topics(topics) && AgentStory(topics, a, loaded, d)
    ensures AgentStory(topics, a, loaded + [f], d)
  {
    hide Answers, Accepted;
    if d > |topics| {
      assert (loaded + [f])[|topics| + 1..d] == loaded[|topics| + 1..d];
    }
  }

  /** The agent asks for the topics. */
  lemma Asked(topics: seq<Topic>, m: Mcu, a: Agent, toAgent: seq<byte>)
    requires Topics(topics) && Midway(topics, m, a, toAgent, 0) && a.sent != []
    ensures Midway(topics, Board.Dispatch(m, topics, a.sent[0]), a, toAgent, 1)
  {
    hide Upstream, AgentStory, Script, Encode, OnlyData;
    FirstSent(topics, a, m.loaded);
    ScriptAt(topics, 0);
    var f := RegisterFrame(topics[0]);
    var next := Board.Dispatch(m, topics, a.sent[0]);
    Loaded(m, a, toAgent, Dispatched(a), f, next);
    MoreLoaded(topics, a, m.loaded, Dispatched(a), f);
    assert Script(topics)[..1] == Script(topics)[..0] + [f];
  }

  lemma FirstSent(topics: seq<Topic>, a: Agent, loaded: seq<Frame>)
    requires Topics(topics) && a.sent != [] && Dispatched(a) >= 0 && AgentStory(topics, a, loaded, Dispatched(a))
    ensures a.sent[0] == DISCOVER_FRAME
  {
    hide Answers;
    var d := Dispatched(a);
    if d <= |topics| {
      AnswersAt(topics, d, 0);
    } else {
      AnswersAt(topics, |topics|, 0);
    }
  }

  /** When an acknowledgement reaches the board during registration, the frame it answers was dispatched
      by the agent, so its last byte is out and the transmitter is idle. */
  lemma {:induction false} AckFindsIdle(topics: seq<Topic>, m: Mcu, a: Agent, toAgent: seq<byte>, h: nat)
    requires Topics(topics) && Midway(topics, m, a, toAgent, h) && 0 < h <= |topics| && h < |a.sent|
    ensures !m.sending && Dispatched(a) == h
    ensures m.awaitingAck && m.isRegistration && m.index == h - 1 && !m.sendingDone && |m.loaded| == h
    ensures a.sent[h] == AckFrame(topics[h - 1].id, Status(topics[h - 1]))
  {
    hide InFlight, Script, Accepted, Answers;
    Delivered(a.parser, toAgent + m.Unsent(), m.loaded);
    AnswersAt(topics, h, h);
  }

  /** What an acknowledgement makes of a waiting board: the next frame of the script is loaded. */
  lemma {:induction false} AckLoads(topics: seq<Topic>, m: Mcu, f: Frame, h: nat)
    requires Topics(topics) && 0 < h <= |topics| && f.kind == ACK
    requires m.awaitingAck && m.isRegistration && m.index == h - 1 && !m.sendingDone
    ensures Script(topics)[h].Sendable()
    ensures Board.Dispatch(m, topics, f) ==
            Load(m, Script(topics)[h]).(index := h, awaitingAck := h < |topics|, sendingDone := h == |topics|)
  {
    hide Encode, Script;
    ScriptAt(topics, h);
  }

  lemma NextLoaded(topics: seq<Topic>, m: Mcu, next: Mcu, h: nat)
    requires Topics(topics) && BoardStory(topics, m, h) && 0 < h <= |topics| && !m.sending
    requires Script(topics)[h].Sendable()
    requires next == Load(m, Script(topics)[h]).(index := h, awaitingAck := h < |topics|, sendingDone := h == |topics|)
    ensures BoardStory(topics, next, h + 1)
  {
    hide Encode, Script;
    assert Script(topics)[..h + 1] == Script(topics)[..h] + [Script(topics)[h]];
    if h == |topics| {
      assert Script(topics)[..h + 1] == Script(topics);
    }
  }

  lemma Acknowledged(topics: seq<Topic>, m: Mcu, a: Agent, toAgent: seq<byte>, h: nat)
    requires Topics(topics) && Midway(topics, m, a, toAgent, h) && 0 < h <= |topics| && h < |a.sent|
    ensures Midway(topics, Board.Dispatch(m, topics, a.sent[h]), a, toAgent, h + 1)
  {
    hide Upstream, AgentStory, BoardStory, Script, Encode, Board.Dispatch;
    AckFindsIdle(topics, m, a, toAgent, h);
    AckLoads(topics, m, a.sent[h], h);
    var f := Script(topics)[h];
    var next := Board.Dispatch(m, topics, a.sent[h]);
    NextLoaded(topics, m, next, h);
    Loaded(m, a, toAgent, Dispatched(a), f, next);
    MoreLoaded(topics, a, m.loaded, Dispatched(a), f);
  }

  /** After registration the agent sends nothing but data. */
  lemma LaterSent(topics: seq<Topic>, a: Agent, loaded: seq<Frame>, h: nat)
    requires Topics(topics) && Dispatched(a) >= 0 && AgentStory(topics, a, loaded, Dispatched(a))
    requires |topics| < h < |a.sent|
    ensures a.sent[h].kind == DATA
  {
    hide Answers, Accepted;
    assert a.sent[h] == a.sent[|topics| + 1..][h - |topics| - 1];
  }

  lemma DispatchInv(topics: seq<Topic>, m: Mcu, a: Agent, toAgent: seq<byte>, h: nat)
    requires Topics(topics) && Midway(topics, m, a, toAgent, h) && h < |a.sent|
    ensures Midway(topics, Board.Dispatch(m, topics, a.sent[h]), a, toAgent, h + 1)
  {
    hide Script, OnlyData, Acknowledge, RegisterStart, DeliveryOf, Accepted, Answers, InFlight;
    if h == 0 {
      Asked(topics, m, a, toAgent);
    } else if h <= |topics| {
      Acknowledged(topics, m, a, toAgent, h);
    } else {
      LaterSent(topics, a, m.loaded, h);
    }
  }

  lemma DispatchKeepsParser(m: Mcu, topics: seq<Topic>, f: Frame)
    requires topics != []
    ensures Board.Dispatch(m, topics, f).parser == m.parser
  {
    hide LoadNext, DeliveryOf;
    forall n: Mcu | n.sendingDone || n.index < |topics|
      ensures LoadNext(n, topics).parser == n.parser
    {
      LoadKeepsParser(n, topics);
    }
  }

  lemma LoadKeepsParser(m: Mcu, topics: seq<Topic>)
    requires m.sendingDone || m.index < |topics|
    ensures LoadNext(m, topics).parser == m.parser
  {
    hide Encode, DONE_FRAME, RegisterFrame, Topic.Announceable;
  }

  lemma {:induction false} DispatchAllInv(topics: seq<Topic>, m: Mcu, a: Agent, toAgent: seq<byte>, h: nat,
                                          frames: seq<Frame>)
    requires Topics(topics) && Midway(topics, m, a, toAgent, h)
    requires h + |frames| <= |a.sent| && frames == a.sent[h..h + |frames|]
    ensures Midway(topics, DispatchAll(m, topics, frames), a, toAgent, h + |frames|)
    ensures DispatchAll(m, topics, frames).parser == m.parser
    decreases frames
  {
    hide Midway, Board.Dispatch;
    if frames != [] {
      var k := |frames| - 1;
      DispatchAllInv(topics, m, a, toAgent, h, frames[..k]);
      var middle := DispatchAll(m, topics, frames[..k]);
      DispatchInv(topics, middle, a, toAgent, h + k);
      DispatchKeepsParser(middle, topics, frames[k]);
    }
  }

  lemma {:induction false} InvReads(s: Session, topics: seq<Topic>, n: nat)
    requires Topics(topics) && s.Valid() && Inv(s, topics) && Legal(s, BoardReads(n))
    ensures Inv(Next(s, topics, BoardReads(n)), topics)
  {
    hide InFlight, BoardStory, AgentStory, Run;
    var m, chunk := s.mcu, s.toMcu[..n];
    var h, p := |m.parser.calls|, Run(m.parser, chunk);
    assert chunk + s.toMcu[n..] == s.toMcu;
    Consume(m.parser, chunk, s.toMcu[n..], s.agent.sent);
    CallsGrow(m.parser, chunk);
    Delivered(p, s.toMcu[n..], s.agent.sent);
    var frames := p.calls[h..];
    assert frames == s.agent.sent[h..h + |frames|];
    OtherParser(topics, m, m.(parser := p), h);
    DispatchAllInv(topics, m.(parser := p), s.agent, s.toAgent, h, frames);
  }

  lemma OtherParser(topics: seq<Topic>, m: Mcu, other: Mcu, h: nat)
    requires Topics(topics) && BoardStory(topics, m, h) && other == m.(parser := other.parser)
    ensures BoardStory(topics, other, h)
  {
  }

  // ---- the application publishes ----

  lemma PublishedStory(topics: seq<Topic>, m: Mcu, f: Frame, h: nat)
    requires Topics(topics) && BoardStory(topics, m, h) && f.kind == DATA && f.Sendable()
    ensures BoardStory(topics, Publish(m, f), h)
  {
    hide Encode, Script;
    var n := |topics|;
    if h > n {
      assert (m.loaded + [f])[n + 1..] == m.loaded[n + 1..] + [f];
    }
  }

  lemma StillUpstream(m: Mcu, next: Mcu, a: Agent, toAgent: seq<byte>, d: nat)
    requires Upstream(m, a, toAgent, d) && next.loaded == m.loaded && next.sending == m.sending
    requires m.sending ==> next == m
    ensures Upstream(next, a, toAgent, d)
  {
    hide InFlight;
  }

  lemma {:induction false} InvPublishes(s: Session, topics: seq<Topic>, id: byte, payload: seq<byte>)
    requires Topics(topics) && s.Valid() && Inv(s, topics) && Legal(s, BoardPublishes(id, payload))
    ensures Inv(Next(s, topics, BoardPublishes(id, payload)), topics)
  {
    hide InFlight, Encode, BoardStory, AgentStory, Upstream;
    var m, f := s.mcu, Frame(DATA, id, payload);
    PublishedStory(topics, m, f, |m.parser.calls|);
    if m.sending || !m.registrationComplete || |payload| > MAX_PAYLOAD {
      StillUpstream(m, Publish(m, f), s.agent, s.toAgent, Dispatched(s.agent));
    } else {
      Loaded(m, s.agent, s.toAgent, Dispatched(s.agent), f, Publish(m, f));
      MoreLoaded(topics, s.agent, m.loaded, Dispatched(s.agent), f);
    }
  }

  // ---- the agent takes its turn ----

  function DiscoverResponse(a: Agent): seq<Frame> {
    if a.needDiscover then [DISCOVER_FRAME] else []
  }

  function DataResponse(outbound: Option<Frame>): seq<Frame> {
    if outbound.Some? && |outbound.value.payload| <= MAX_PAYLOAD then [outbound.value] else []
  }

  function AckResponse(a: Agent): seq<Frame> {
    if a.ack.Some? then [AckFrame(a.ack.value.id, a.ack.value.status)] else []
  }

  /** What a turn sends, given what the agent holds after dispatching. */
  function Responses(a: Agent, outbound: Option<Frame>): seq<Frame> {
    DiscoverResponse(a) + DataResponse(outbound) + AckResponse(a)
  }

  lemma DiscoverSends(a: Agent)
    requires a.needDiscover ==> a.frame.payload == []
    ensures var x := DiscoverResponse(a);
            AllSendable(x) && SendDiscover(a) == (a.(needDiscover := false, sent := a.sent + x), EncodeAll(x))
  {
    hide Encode, EncodeRaw, EncodeAll;
    EncodeAtMostOne(DiscoverResponse(a));
    SameEncoding(DISCOVER_FRAME);
    assert a.sent + [] == a.sent;
  }

  lemma DataSends(a: Agent, outbound: Option<Frame>)
    ensures var x := DataResponse(outbound);
            AllSendable(x) && SendOutbound(a, outbound) == (a.(sent := a.sent + x), EncodeAll(x))
  {
    hide Encode, EncodeAll;
    EncodeAtMostOne(DataResponse(outbound));
    assert a.sent + [] == a.sent;
  }

  lemma AckSends(a: Agent)
    ensures var x := AckResponse(a);
            AllSendable(x) && SendAck(a) == (a.(ack := None, sent := a.sent + x), EncodeAll(x))
  {
    hide Encode, EncodeAll;
    EncodeAtMostOne(AckResponse(a));
    assert a.sent + [] == a.sent;
  }

  lemma RespondSends(a: Agent, outbound: Option<Frame>)
    requires a.needDiscover ==> a.frame.payload == []
    ensures var fs := Responses(a, outbound);
            && AllSendable(fs)
            && Respond(a, outbound) == (a.(needDiscover := false, ack := None, sent := a.sent + fs), EncodeAll(fs))
  {
    var x, y, z := DiscoverResponse(a), DataResponse(outbound), AckResponse(a);
    var (b, discover) := SendDiscover(a);
    var (c, data) := SendOutbound(b, outbound);
    var (d, ack) := SendAck(c);
    DiscoverSends(a);
    DataSends(b, outbound);
    AckSends(c);
    RespondParts(a, outbound, b, c, d, x, y, z);
  }

  lemma RespondParts(a: Agent, outbound: Option<Frame>, b: Agent, c: Agent, d: Agent,
                     x: seq<Frame>, y: seq<Frame>, z: seq<Frame>)
    requires AllSendable(x) && AllSendable(y) && AllSendable(z)
    requires x == DiscoverResponse(a) && y == DataResponse(outbound) && z == AckResponse(a) == AckResponse(c)
    requires SendDiscover(a) == (b, EncodeAll(x)) && b == a.(needDiscover := false, sent := a.sent + x)
    requires SendOutbound(b, outbound) == (c, EncodeAll(y)) && c == b.(sent := b.sent + y)
    requires SendAck(c) == (d, EncodeAll(z)) && d == c.(ack := None, sent := c.sent + z)
    ensures var fs := Responses(a, outbound);
            && AllSendable(fs)
            && Respond(a, outbound) == (a.(needDiscover := false, ack := None, sent := a.sent + fs), EncodeAll(fs))
  {
    hide Encode, EncodeAll, SendDiscover, SendOutbound, SendAck, Frame.Sendable;
    hide DiscoverResponse, DataResponse, AckResponse;
    EncodeTwo(x, y);
    EncodeTwo(x + y, z);
    assert a.sent + x + y + z == a.sent + (x + y + z);
  }

  lemma EncodeAtMostOne(x: seq<Frame>)
    requires AllSendable(x) && |x| <= 1
    ensures EncodeAll(x) == if x == [] then [] else Encode(x[0])
  {
    hide Encode;
  }

  lemma {:induction false} EncodeTwo(x: seq<Frame>, y: seq<Frame>)
    requires AllSendable(x) && AllSendable(y)
    ensures AllSendable(x + y) && EncodeAll(x + y) == EncodeAll(x) + EncodeAll(y)
    decreases x
  {
    hide Encode;
    if x == [] {
      assert x + y == y;
    } else {
      EncodeTwo(x[1..], y);
      assert (x + y)[1..] == x[1..] + y;
    }
  }

  /** Up to its end the board's frames follow the script. */
  lemma Scripted(topics: seq<Topic>, m: Mcu, h: nat, d: nat)
    requires Topics(topics) && BoardStory(topics, m, h) && d < |m.loaded|
    ensures d <= |topics| ==> h > 0 && m.loaded[d] == Script(topics)[d]
    ensures d > |topics| ==> m.loaded[d].kind == DATA
  {
    hide Script;
    if d > |topics| {
      assert m.loaded[d] == m.loaded[|topics| + 1..][d - |topics| - 1];
    }
  }

  /** The agent after a turn in which b is what it held when it began to answer. */
  function Answered(b: Agent, outbound: Option<Frame>): Agent {
    b.(needDiscover := false, ack := None, sent := b.sent + Responses(b, outbound))
  }

  lemma QuietTurn(topics: seq<Topic>, a: Agent, loaded: seq<Frame>, d: nat, outbound: Option<Frame>)
    requires Topics(topics) && AgentStory(topics, a, loaded, d) && d <= |topics| && outbound.None?
    ensures AgentStory(topics, Answered(a, outbound), loaded, d)
  {
    hide Accepted;
    if a.needDiscover {
      assert Answers(topics, 0) == [DISCOVER_FRAME];
    }
    assert a.sent + Responses(a, outbound) == a.sent + DiscoverResponse(a);
  }

  lemma RegisterHandled(topics: seq<Topic>, a: Agent, loaded: seq<Frame>, d: nat)
    requires Topics(topics) && AgentStory(topics, a, loaded, d) && d < |topics|
    requires a.completed != [] && a.completed[0] == Script(topics)[d]
    ensures Handle(a) == a.(completed := a.completed[1..], frame := a.completed[0],
                            ack := Some(Ack(topics[d].id, Status(topics[d]))), newTopics := Accepted(topics[..d + 1]))
  {
    hide Script, DecodeRegistration, RegistrationPayload, Answers;
    ScriptAt(topics, d);
    RegistrationRoundTrip(topics[d]);
    assert topics[..d + 1][..d] == topics[..d];
  }

  lemma RegisterTurn(topics: seq<Topic>, a: Agent, loaded: seq<Frame>, d: nat, outbound: Option<Frame>)
    requires Topics(topics) && AgentStory(topics, a, loaded, d) && d < |topics| && d < |loaded| && outbound.None?
    requires a.completed != [] && a.completed[0] == Script(topics)[d] && !a.needDiscover
    ensures AgentStory(topics, Answered(Handle(a), outbound), loaded, d + 1)
  {
    hide Script, Answers, Accepted, DecodeRegistration, Handle;
    RegisterHandled(topics, a, loaded, d);
    AnswersNext(topics, d);
  }

  /** The client comes to life with exactly the accepted topics. */
  lemma DoneHandled(topics: seq<Topic>, a: Agent, loaded: seq<Frame>)
    requires Topics(topics) && AgentStory(topics, a, loaded, |topics|) && |topics| < |loaded|
    requires a.completed != [] && a.completed[0] == Script(topics)[|topics|]
    ensures AgentStory(topics, Handle(a), loaded, |topics| + 1) && !a.needDiscover
    ensures Handle(a).completed == a.completed[1..] && Handle(a).sent == a.sent && !Handle(a).needDiscover
    ensures Handle(a).parser == a.parser
  {
    hide Script, Answers, Accepted;
    ScriptAt(topics, |topics|);
    assert topics[..|topics|] == topics;
    assert a.sent[|topics| + 1..] == [] && loaded[|topics| + 1..|topics| + 1] == [];
  }

  lemma DataHandled(topics: seq<Topic>, a: Agent, loaded: seq<Frame>, d: nat)
    requires Topics(topics) && AgentStory(topics, a, loaded, d) && |topics| < d < |loaded|
    requires a.completed != [] && a.completed[0] == loaded[d] && loaded[d].kind == DATA
    ensures AgentStory(topics, Handle(a), loaded, d + 1)
    ensures Handle(a).completed == a.completed[1..] && Handle(a).sent == a.sent && !Handle(a).needDiscover
    ensures Handle(a).parser == a.parser
  {
    hide Answers, Accepted;
    var n := |topics| + 1;
    assert loaded[n..d + 1] == loaded[n..d] + [loaded[d]];
  }

  lemma LaterTurn(topics: seq<Topic>, b: Agent, loaded: seq<Frame>, d: nat, outbound: Option<Frame>)
    requires Topics(topics) && AgentStory(topics, b, loaded, d) && d > |topics|
    requires outbound.Some? ==> outbound.value.kind == DATA
    ensures AgentStory(topics, Answered(b, outbound), loaded, d)
  {
    hide Answers, Accepted;
    var n, x := |topics| + 1, DataResponse(outbound);
    assert b.sent + Responses(b, outbound) == b.sent + x;
    assert (b.sent + x)[n..] == b.sent[n..] + x;
  }

  /** During registration the board is at most one frame ahead of what the agent has dispatched. */
  lemma {:induction false} OneAhead(topics: seq<Topic>, m: Mcu, a: Agent, h: nat, d: nat)
    requires Topics(topics) && BoardStory(topics, m, h) && AgentStory(topics, a, m.loaded, d)
    requires h <= |a.sent| && d < |topics|
    ensures |m.loaded| <= d + 1
  {
    hide Script, Answers, Accepted, OnlyData;
  }

  /** What a turn leaves behind, as far as the story goes. */
  predicate TurnDone(topics: seq<Topic>, a: Agent, b: Agent, c: Agent, loaded: seq<Frame>)
    requires Topics(topics)
  {
    var d := Dispatched(c);
    && 0 <= d && c.parser == a.parser && c.parser.calls[d..] == c.completed
    && AgentStory(topics, c, loaded, d) && Drained(topics, c)
    && (b.needDiscover ==> b.frame.payload == []) && b.sent == a.sent
  }

  /** The agent has received but not dispatched, and d frames were dispatched in earlier turns. */
  predicate Heard(topics: seq<Topic>, m: Mcu, a: Agent, h: nat, d: nat)
    requires Topics(topics)
  {
    && AgentStory(topics, a, m.loaded, d) && BoardStory(topics, m, h) && h <= |a.sent|
    && a.parser.calls <= m.loaded && d <= |a.parser.calls| && a.completed == a.parser.calls[d..]
  }

  lemma Settled(topics: seq<Topic>, a: Agent, b: Agent, c: Agent, loaded: seq<Frame>, d: nat)
    requires Topics(topics) && AgentStory(topics, c, loaded, d) && d <= |a.parser.calls|
    requires d > |topics| || c.completed == []
    requires c.parser == a.parser && c.completed == a.parser.calls[d..] && b.sent == a.sent
    requires b.needDiscover ==> b.frame.payload == []
    ensures TurnDone(topics, a, b, c, loaded)
  {
    hide AgentStory;
  }

  lemma NothingCompleted(topics: seq<Topic>, m: Mcu, a: Agent, h: nat, d: nat, outbound: Option<Frame>)
    requires Topics(topics) && Heard(topics, m, a, h, d) && a.completed == []
    requires outbound.Some? ==> Handle(a).client.Some? && outbound.value.kind == DATA
    ensures TurnDone(topics, a, Handle(a), Answered(Handle(a), outbound), m.loaded)
  {
    hide AgentStory, BoardStory, Responses;
    NeedsEmpty(topics, a, m.loaded, d);
    if d <= |topics| {
      QuietTurn(topics, a, m.loaded, d, outbound);
    } else {
      LaterTurn(topics, a, m.loaded, d, outbound);
    }
    Settled(topics, a, Handle(a), Answered(Handle(a), outbound), m.loaded, d);
  }

  lemma NeedsEmpty(topics: seq<Topic>, a: Agent, loaded: seq<Frame>, d: nat)
    requires Topics(topics) && AgentStory(topics, a, loaded, d)
    ensures a.needDiscover ==> a.frame.payload == [] && a.sent == []
    ensures d <= |topics| ==> a.client.None?
  {
  }

  /** The first completed frame is the next one of those the board loaded. */
  lemma NextHeard(topics: seq<Topic>, m: Mcu, a: Agent, h: nat, d: nat)
    requires Topics(topics) && Heard(topics, m, a, h, d) && a.completed != []
    ensures d < |m.loaded| && a.completed[0] == m.loaded[d] && a.completed[1..] == a.parser.calls[d + 1..]
    ensures d <= |topics| ==> a.completed[0] == Script(topics)[d] && !a.needDiscover
    ensures d > |topics| ==> a.completed[0].kind == DATA
  {
    hide AgentStory, BoardStory, Script;
    assert a.completed[0] == m.loaded[d] && a.completed[1..] == a.parser.calls[d + 1..];
    Scripted(topics, m, h, d);
    NeedsEmpty(topics, a, m.loaded, d);
  }

  lemma RegisterCompleted(topics: seq<Topic>, m: Mcu, a: Agent, h: nat, d: nat, outbound: Option<Frame>)
    requires Topics(topics) && Heard(topics, m, a, h, d) && a.completed != [] && d < |topics|
    requires outbound.Some? ==> Handle(a).client.Some?
    ensures TurnDone(topics, a, Handle(a), Answered(Handle(a), outbound), m.loaded)
  {
    hide AgentStory, BoardStory, Handle, Script, Responses, Accepted;
    NextHeard(topics, m, a, h, d);
    OneAhead(topics, m, a, h, d);
    NeedsEmpty(topics, a, m.loaded, d);
    RegisterHandled(topics, a, m.loaded, d);
    RegisterTurn(topics, a, m.loaded, d, outbound);
    assert |a.completed| == 1;
    Settled(topics, a, Handle(a), Answered(Handle(a), outbound), m.loaded, d + 1);
  }

  lemma LaterCompleted(topics: seq<Topic>, m: Mcu, a: Agent, h: nat, d: nat, outbound: Option<Frame>)
    requires Topics(topics) && Heard(topics, m, a, h, d) && a.completed != [] && d >= |topics|
    requires outbound.Some? ==> outbound.value.kind == DATA
    ensures TurnDone(topics, a, Handle(a), Answered(Handle(a), outbound), m.loaded)
  {
    hide AgentStory, BoardStory, Script, Responses, Handle;
    NextHeard(topics, m, a, h, d);
    if d == |topics| {
      DoneHandled(topics, a, m.loaded);
    } else {
      DataHandled(topics, a, m.loaded, d);
    }
    LaterTurn(topics, Handle(a), m.loaded, d + 1, outbound);
    Settled(topics, a, Handle(a), Answered(Handle(a), outbound), m.loaded, d + 1);
  }

  lemma {:induction false} InvTurns(s: Session, topics: seq<Topic>, n: nat, outbound: Option<Frame>)
    requires Topics(topics) && s.Valid() && Inv(s, topics) && Legal(s, AgentTurns(n, outbound))
    ensures Inv(Next(s, topics, AgentTurns(n, outbound)), topics)
  {
    hide InFlight, BoardStory, AgentStory, Run, Handle, Respond, EncodeAll, Responses;
    var m, read, rest, d := s.mcu, s.toAgent[..n], s.toAgent[n..], Dispatched(s.agent);
    var a := A.Receive(s.agent, read);
    HearInv(s, topics, n);
    if a.completed == [] {
      NothingCompleted(topics, m, a, |m.parser.calls|, d, outbound);
    } else if d < |topics| {
      RegisterCompleted(topics, m, a, |m.parser.calls|, d, outbound);
    } else {
      LaterCompleted(topics, m, a, |m.parser.calls|, d, outbound);
    }
    RespondSends(Handle(a), outbound);
    SendAll(m.parser, s.toMcu, s.agent.sent, Responses(Handle(a), outbound));
  }

  lemma HearInv(s: Session, topics: seq<Topic>, n: nat)
    requires Topics(topics) && s.Valid() && Inv(s, topics) && n <= |s.toAgent|
    ensures var a := A.Receive(s.agent, s.toAgent[..n]);
            && Heard(topics, s.mcu, a, |s.mcu.parser.calls|, Dispatched(s.agent))
            && InFlight(a.parser, s.toAgent[n..] + s.mcu.Unsent(), s.mcu.loaded)
            && a.sent == s.agent.sent
  {
    hide InFlight, BoardStory, Run, OnlyData, Answers, Accepted;
    var m, read, rest := s.mcu, s.toAgent[..n], s.toAgent[n..];
    assert read + (rest + m.Unsent()) == s.toAgent + m.Unsent();
    Consume(s.agent.parser, read, rest + m.Unsent(), m.loaded);
    CallsGrow(s.agent.parser, read);
    Delivered(Run(s.agent.parser, read), rest + m.Unsent(), m.loaded);
    Delivered(m.parser, s.toMcu, s.agent.sent);
  }
}
