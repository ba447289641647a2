/** Registration always goes forward: every byte moved brings its end one byte nearer, and until then some
    byte can be moved. */
module Progress {
  import opened Bytes
  import opened Protocol
  import opened StreamParser
  import opened Registration
  import opened Options
  import opened Board
  import opened Channel
  import opened AgentNode
  import opened Session
  import opened SessionTheorems
  import A = AgentNode

  /** Bytes of the frames on the wire. */
  function WireBytes(frames: seq<Frame>): nat {
    if frames == [] then 0 else HEADER_LEN + |frames[0].payload| + CRC_LEN + WireBytes(frames[1..])
  }

  const ACK_BYTES: nat := HEADER_LEN + 2 + CRC_LEN

  /** What the board has not loaded of its script yet. */
  function Unloaded(topics: seq<Topic>, m: Mcu): nat
    requires Topics(topics)
  {
    if |m.loaded| <= |topics| then WireBytes(Script(topics)[|m.loaded|..]) else 0
  }

  function Unanswered(topics: seq<Topic>, a: Agent): nat {
    if |a.sent| <= |topics| then (|topics| + 1 - |a.sent|) * ACK_BYTES else 0
  }

  /** Bytes still to be moved: each one of the board's crosses two hands, each one of the agent's one. */
  function Measure(s: Session, topics: seq<Topic>): nat
    requires Topics(topics)
  {
    2 * |s.mcu.Unsent()| + |s.toAgent| + |s.toMcu| + 2 * Unloaded(topics, s.mcu) + Unanswered(topics, s.agent)
  }

  /** Bytes an action moves. */
  function Moved(action: Action): nat {
    match action
    case BoardWrites(n) => n
    case BoardReads(n) => n
    case BoardPublishes(_, _) => 0
    case AgentTurns(n, _) => n
  }

  /** The agent has asked, and the board may not publish yet. */
  predicate Registering(s: Session) {
    !s.agent.needDiscover && !s.mcu.registrationComplete
  }

  /** While registering, the agent has not seen the end of the script. */
  lemma StillRegistering(s: Session, topics: seq<Topic>)
    requires Topics(topics) && Inv(s, topics) && Registering(s)
    ensures 0 <= Dispatched(s.agent) <= |topics| && |s.agent.sent| == Dispatched(s.agent) + 1
    ensures |s.mcu.parser.calls| <= |s.agent.sent| && |s.mcu.loaded| == |s.mcu.parser.calls|
  {
    hide InFlight, Script, OnlyData, Accepted, Answers;
    Delivered(s.agent.parser, s.toAgent + s.mcu.Unsent(), s.mcu.loaded);
    Delivered(s.mcu.parser, s.toMcu, s.agent.sent);
  }

  // ---- some byte can always move ----

  /** Until registration is over there is an action that moves at least one byte. */
  lemma {:induction false} SomethingMoves(s: Session, topics: seq<Topic>) returns (action: Action)
    requires Topics(topics) && Inv(s, topics) && s.Valid() && Registering(s)
    ensures Legal(s, action) && Moved(action) > 0
  {
    hide InFlight, Script, OnlyData, Accepted, Answers, BoardStory, AgentStory, Handle;
    StillRegistering(s, topics);
    var out := s.mcu.Unsent();
    Delivered(s.agent.parser, s.toAgent + out, s.mcu.loaded);
    Delivered(s.mcu.parser, s.toMcu, s.agent.sent);
    if out != [] {
      action := BoardWrites(1);
    } else if s.toMcu != [] {
      action := BoardReads(1);
    } else {
      assert s.toAgent + out == s.toAgent;
      action := AgentTurns(1, None);
    }
  }

  // ---- every byte counts ----

  lemma ScriptTail(topics: seq<Topic>, h: nat)
    requires Topics(topics) && h <= |topics|
    ensures Script(topics)[h].Sendable()
    ensures WireBytes(Script(topics)[h..]) == |Encode(Script(topics)[h])| + WireBytes(Script(topics)[h + 1..])
  {
    hide Script, Encode;
    ScriptAt(topics, h);
    assert Script(topics)[h..][1..] == Script(topics)[h + 1..];
  }

  /** Loading the next frame of the script moves its bytes from one account to the other. */
  lemma LoadConserves(topics: seq<Topic>, m: Mcu, next: Mcu)
    requires Topics(topics) && |m.loaded| <= |topics| && !m.sending && Script(topics)[|m.loaded|].Sendable()
    requires next.sending && next.frame == Encode(Script(topics)[|m.loaded|]) && next.sent == 0
    requires |next.loaded| == |m.loaded| + 1
    ensures |next.Unsent()| + Unloaded(topics, next) == |m.Unsent()| + Unloaded(topics, m)
  {
    hide Script, Encode;
    ScriptTail(topics, |m.loaded|);
    if |m.loaded| == |topics| {
      assert Script(topics)[|m.loaded| + 1..] == [];
    }
  }

  lemma AskLoads(topics: seq<Topic>, m: Mcu)
    requires Topics(topics) && !m.sending
    ensures Script(topics)[0].Sendable()
    ensures Board.Dispatch(m, topics, DISCOVER_FRAME) ==
            Load(m.(isRegistration := true, index := 0, sendingDone := false), Script(topics)[0]).(awaitingAck := true)
  {
    hide Encode;
    ScriptAt(topics, 0);
  }

  lemma AskConserves(topics: seq<Topic>, m: Mcu, a: Agent, toAgent: seq<byte>)
    requires Topics(topics) && Midway(topics, m, a, toAgent, 0) && a.sent != []
    ensures var next := Board.Dispatch(m, topics, a.sent[0]);
            |next.Unsent()| + Unloaded(topics, next) == |m.Unsent()| + Unloaded(topics, m)
  {
    hide Script, Encode, Unloaded, Mcu.Unsent, Board.Dispatch, Upstream, AgentStory;
    FirstSent(topics, a, m.loaded);
    AskLoads(topics, m);
    LoadConserves(topics, m, Board.Dispatch(m, topics, a.sent[0]));
  }

  lemma AckConserves(topics: seq<Topic>, m: Mcu, a: Agent, toAgent: seq<byte>, h: nat)
    requires Topics(topics) && Midway(topics, m, a, toAgent, h) && 0 < h <= |topics| && h < |a.sent|
    ensures var next := Board.Dispatch(m, topics, a.sent[h]);
            |next.Unsent()| + Unloaded(topics, next) == |m.Unsent()| + Unloaded(topics, m)
  {
    hide Script, Encode, Unloaded, Mcu.Unsent, Board.Dispatch, Midway;
    AckFindsIdle(topics, m, a, toAgent, h);
    AckLoads(topics, m, a.sent[h], h);
    LoadConserves(topics, m, Board.Dispatch(m, topics, a.sent[h]));
  }

  lemma DispatchConserves(topics: seq<Topic>, m: Mcu, a: Agent, toAgent: seq<byte>, h: nat)
    requires Topics(topics) && Midway(topics, m, a, toAgent, h) && h < |a.sent|
    ensures var next := Board.Dispatch(m, topics, a.sent[h]);
            |next.Unsent()| + Unloaded(topics, next) == |m.Unsent()| + Unloaded(topics, m)
  {
    hide Unloaded, Mcu.Unsent, Acknowledge, RegisterStart, BoardStory, AgentStory, Upstream;
    if h == 0 {
      AskConserves(topics, m, a, toAgent);
    } else if h <= |topics| {
      AckConserves(topics, m, a, toAgent, h);
    } else {
      LaterSent(topics, a, m.loaded, h);
      SameAccounts(topics, m, Board.Dispatch(m, topics, a.sent[h]));
    }
  }

  lemma {:induction false} DispatchAllConserves(topics: seq<Topic>, m: Mcu, a: Agent, toAgent: seq<byte>, h: nat,
                                                frames: seq<Frame>)
    requires Topics(topics) && Midway(topics, m, a, toAgent, h)
    requires h + |frames| <= |a.sent| && frames == a.sent[h..h + |frames|]
    ensures var next := DispatchAll(m, topics, frames);
            |next.Unsent()| + Unloaded(topics, next) == |m.Unsent()| + Unloaded(topics, m)
    decreases frames
  {
    hide Midway, Board.Dispatch, Unloaded, Mcu.Unsent;
    if frames != [] {
      var k := |frames| - 1;
      DispatchAllConserves(topics, m, a, toAgent, h, frames[..k]);
      DispatchAllInv(topics, m, a, toAgent, h, frames[..k]);
      DispatchConserves(topics, DispatchAll(m, topics, frames[..k]), a, toAgent, h + k);
    }
  }

  lemma WritesMeasured(s: Session, topics: seq<Topic>, n: nat)
    requires Topics(topics) && s.Valid() && Inv(s, topics) && Legal(s, BoardWrites(n))
    ensures Measure(Next(s, topics, BoardWrites(n)), topics) == Measure(s, topics) - n
  {
    hide Inv, InFlight, Unloaded, Unanswered, Transmit;
    UnsentUnlessIdle(s, topics);
    TransmitMeasured(topics, s.mcu, n);
  }

  lemma UnsentUnlessIdle(s: Session, topics: seq<Topic>)
    requires Topics(topics) && Inv(s, topics)
    ensures s.mcu.sending ==> s.mcu.Unsent() != []
  {
    hide InFlight, AgentStory, BoardStory, Drained, Downstream, Mcu.Unsent;
  }

  lemma TransmitMeasured(topics: seq<Topic>, m: Mcu, n: nat)
    requires Topics(topics) && n <= |m.Unsent()| && (m.sending ==> m.Unsent() != [])
    ensures var next := Transmit(m, n);
            |next.Unsent()| == |m.Unsent()| - n && Unloaded(topics, next) == Unloaded(topics, m)
  {
    hide Script, WireBytes;
  }

  lemma ReadsMeasured(s: Session, topics: seq<Topic>, n: nat)
    requires Topics(topics) && s.Valid() && Inv(s, topics) && Legal(s, BoardReads(n))
    ensures Measure(Next(s, topics, BoardReads(n)), topics) == Measure(s, topics) - n
  {
    hide InFlight, BoardStory, AgentStory, Run, Unloaded, Mcu.Unsent, DispatchAll;
    var m, chunk := s.mcu, s.toMcu[..n];
    var h, p := |m.parser.calls|, Run(m.parser, chunk);
    assert chunk + s.toMcu[n..] == s.toMcu;
    Consume(m.parser, chunk, s.toMcu[n..], s.agent.sent);
    CallsGrow(m.parser, chunk);
    Delivered(p, s.toMcu[n..], s.agent.sent);
    var frames := p.calls[h..];
    assert frames == s.agent.sent[h..h + |frames|];
    var other := m.(parser := p);
    OtherParser(topics, m, other, h);
    SameAccounts(topics, m, other);
    DispatchAllConserves(topics, other, s.agent, s.toAgent, h, frames);
  }

  lemma SameAccounts(topics: seq<Topic>, m: Mcu, other: Mcu)
    requires Topics(topics) && other == m.(parser := other.parser, delivered := other.delivered)
    ensures other.Unsent() == m.Unsent() && Unloaded(topics, other) == Unloaded(topics, m)
  {
  }

  /** While registering, a turn handles nothing or a registration, and sends nothing or its answer. */
  lemma TurnWhileRegistering(s: Session, topics: seq<Topic>, n: nat, outbound: Option<Frame>)
    requires Topics(topics) && s.Valid() && Inv(s, topics) && Registering(s) && Legal(s, AgentTurns(n, outbound))
    ensures var a := A.Receive(s.agent, s.toAgent[..n]);
            var fs := Responses(Handle(a), outbound);
            && Handle(a).sent == s.agent.sent && !Handle(a).needDiscover
            && (fs == [] || (|s.agent.sent| <= |topics| && |fs| == 1 && |fs[0].payload| == 2))
  {
    hide InFlight, Script, OnlyData, Accepted, Answers, Handle, Responses, WireBytes;
    StillRegistering(s, topics);
    HearInv(s, topics, n);
    var m, d, rest := s.mcu, Dispatched(s.agent), s.toAgent[n..];
    var a := A.Receive(s.agent, s.toAgent[..n]);
    Delivered(a.parser, rest + m.Unsent(), m.loaded);
    NeedsEmpty(topics, a, m.loaded, d);
    if a.completed == [] {
      IdleResponses(a, outbound);
    } else {
      NextHeard(topics, m, a, |m.parser.calls|, d);
      assert d < |topics|;
      RegisterHandled(topics, a, m.loaded, d);
      AckResponses(Handle(a), outbound);
    }
  }

  lemma IdleResponses(a: Agent, outbound: Option<Frame>)
    requires a.completed == [] && !a.needDiscover && a.ack.None? && a.client.None?
    requires outbound.Some? ==> Handle(a).client.Some?
    ensures Handle(a) == a && Responses(a, outbound) == []
  {
  }

  lemma AckResponses(b: Agent, outbound: Option<Frame>)
    requires !b.needDiscover && b.ack.Some? && b.client.None? && (outbound.Some? ==> b.client.Some?)
    ensures Responses(b, outbound) == [AckFrame(b.ack.value.id, b.ack.value.status)]
  {
  }

  lemma TurnsMeasured(s: Session, topics: seq<Topic>, n: nat, outbound: Option<Frame>)
    requires Topics(topics) && s.Valid() && Inv(s, topics) && Registering(s) && Legal(s, AgentTurns(n, outbound))
    ensures var t := Next(s, topics, AgentTurns(n, outbound));
            Measure(t, topics) == Measure(s, topics) - n && !t.agent.needDiscover && t.mcu == s.mcu
  {
    hide Inv, Handle, Respond, Responses, EncodeAll, Encode, Measure, Mcu.Unsent, A.Receive;
    var b := Handle(A.Receive(s.agent, s.toAgent[..n]));
    TurnWhileRegistering(s, topics, n, outbound);
    RespondSends(b, outbound);
    TurnAccounts(s, topics, n, Responses(b, outbound), Next(s, topics, AgentTurns(n, outbound)));
  }

  lemma TurnAccounts(s: Session, topics: seq<Topic>, n: nat, fs: seq<Frame>, t: Session)
    requires Topics(topics) && t.mcu == s.mcu && n <= |s.toAgent| && AllSendable(fs)
    requires fs == [] || (|s.agent.sent| <= |topics| && |fs| == 1 && |fs[0].payload| == 2)
    requires |t.toAgent| == |s.toAgent| - n && |t.toMcu| == |s.toMcu| + |EncodeAll(fs)|
    requires |t.agent.sent| == |s.agent.sent| + |fs|
    ensures Measure(t, topics) == Measure(s, topics) - n
  {
    hide EncodeAll, Encode, Unloaded, Mcu.Unsent;
    EncodeAtMostOne(fs);
  }

  /** Each action brings registration nearer to its end by exactly the bytes it moves. */
  lemma {:induction false} EveryByteCounts(s: Session, topics: seq<Topic>, action: Action)
    requires Topics(topics) && s.Valid() && Inv(s, topics) && Registering(s) && Legal(s, action)
    ensures var t := Next(s, topics, action);
            Measure(t, topics) == Measure(s, topics) - Moved(action) && !t.agent.needDiscover
  {
    hide Inv, Measure, Turn, Transmit, Board.Receive;
    match action
    case BoardWrites(n) => WritesMeasured(s, topics, n);
    case BoardReads(n) => ReadsMeasured(s, topics, n);
    case BoardPublishes(_, _) =>
    case AgentTurns(n, outbound) => TurnsMeasured(s, topics, n, outbound);
  }

  // ---- registration ends ----

  lemma {:induction false} DispatchAllKeepsComplete(m: Mcu, topics: seq<Topic>, frames: seq<Frame>)
    requires topics != [] && m.registrationComplete
    ensures DispatchAll(m, topics, frames).registrationComplete
    decreases frames
  {
    hide Encode;
    if frames != [] {
      DispatchAllKeepsComplete(m, topics, frames[..|frames| - 1]);
    }
  }

  lemma {:induction false} StaysComplete(s: Session, topics: seq<Topic>, actions: seq<Action>, t: Session)
    requires topics != [] && Leads(s, topics, actions, t) && s.mcu.registrationComplete
    ensures t.mcu.registrationComplete
    decreases actions
  {
    hide Run, Encode, DispatchAll, Turn, Session.Valid;
    if actions != [] {
      NextComplete(s, topics, actions[0]);
      StaysComplete(Next(s, topics, actions[0]), topics, actions[1..], t);
    }
  }

  lemma NextComplete(s: Session, topics: seq<Topic>, action: Action)
    requires topics != [] && s.Valid() && Legal(s, action) && s.mcu.registrationComplete
    ensures Next(s, topics, action).mcu.registrationComplete
  {
    hide Run, Encode, DispatchAll, Turn;
    if action.BoardReads? {
      var m, p := s.mcu, Run(s.mcu.parser, s.toMcu[..action.n]);
      CallsGrow(m.parser, s.toMcu[..action.n]);
      DispatchAllKeepsComplete(m.(parser := p), topics, p.calls[|m.parser.calls|..]);
    }
  }

  /** However the bytes are cut up and whoever goes first, registration takes no more productive actions
      than there are bytes to move. */
  lemma {:induction false} EndsInTime(s: Session, topics: seq<Topic>, actions: seq<Action>, t: Session)
    requires Topics(topics) && Inv(s, topics) && Registering(s) && Leads(s, topics, actions, t)
    requires forall j | 0 <= j < |actions| :: Moved(actions[j]) > 0
    ensures !t.mcu.registrationComplete ==> |actions| + Measure(t, topics) <= Measure(s, topics)
    decreases actions
  {
    hide Inv, Measure, Next, Legal;
    if actions != [] && !t.mcu.registrationComplete {
      var next := Next(s, topics, actions[0]);
      EveryByteCounts(s, topics, actions[0]);
      InvNext(s, topics, actions[0]);
      if next.mcu.registrationComplete {
        StaysComplete(next, topics, actions[1..], t);
      }
      EndsInTime(next, topics, actions[1..], t);
    }
  }

  lemma TurnAsks(a: Agent, outbound: Option<Frame>)
    ensures !Respond(a, outbound).0.needDiscover
  {
    hide Encode, Wire;
  }

  lemma IdleTurnLegal(s: Session)
    requires s.Valid()
    ensures Legal(s, AgentTurns(0, None))
  {
  }

  /** From wherever a first session has got to, registration can be brought to its end. */
  lemma {:induction false} CanFinish(s: Session, topics: seq<Topic>) returns (actions: seq<Action>, t: Session)
    requires Topics(topics) && Inv(s, topics)
    ensures Leads(s, topics, actions, t) && t.mcu.registrationComplete
    decreases if s.agent.needDiscover then 1 else 0, Measure(s, topics)
  {
    hide Inv, Measure, Legal, Respond, Handle;
    InvValid(s, topics);
    if s.mcu.registrationComplete {
      actions, t := [], s;
      return;
    }
    var action := AgentTurns(0, None);
    if s.agent.needDiscover {
      IdleTurnLegal(s);
      TurnAsks(Handle(A.Receive(s.agent, s.toAgent[..0])), None);
    } else {
      action := SomethingMoves(s, topics);
      EveryByteCounts(s, topics, action);
    }
    InvNext(s, topics, action);
    actions, t := CanFinish(Next(s, topics, action), topics);
    assert ([action] + actions)[1..] == actions;
    actions := [action] + actions;
  }
}
