/** The agent's side of the protocol: one turn of its loop takes at most one frame from the board and
    answers it. */
module AgentNode {
  import opened Bytes
  import opened Protocol
  import opened StreamParser
  import opened Registration
  import opened Options
  import Framing

  datatype Ack = Ack(id: byte, status: byte)

  /** completed are frames received but not dispatched, frame is the last one dispatched. sent logs the
      frames handed to the transport, published those handed to the client, and fault records a use of
      the client before it exists. */
  datatype Agent = Agent(parser: Parser, completed: seq<Frame>, frame: Frame, needDiscover: bool,
                         ack: Option<Ack>, newTopics: seq<Topic>, client: Option<seq<Topic>>,
                         sent: seq<Frame>, published: seq<Frame>, fault: bool)

  const AGENT_INIT := Agent(INIT, [], Frame(0, 0, []), true, None, [], None, [], [], false)

  /** frame_dispatch */
  function Dispatch(a: Agent, f: Frame): Agent {
    if f.kind == DATA then
      if a.client.None? then a.(fault := true) else a.(published := a.published + [f])
    else if f.kind == REGISTER then
      var (status, t) := DecodeRegistration(f);
      a.(ack := Some(Ack(f.topicId, status)),
         newTopics := if status == ACK_OK then a.newTopics + [t] else a.newTopics)
    else if f.kind == REGISTER_DONE then a.(client := Some(a.newTopics))
    else a
  }

  /** recv_frame after the bytes read are fed, and the dispatch of what it returns. */
  function Handle(a: Agent): Agent {
    if a.completed == [] then a
    else
      var f := a.completed[0];
      Dispatch(a.(completed := a.completed[1..], frame := f), f)
  }

  function Receive(a: Agent, read: seq<byte>): Agent
    requires a.parser.Valid()
  {
    var p := Run(a.parser, read);
    CallsGrow(a.parser, read);
    a.(parser := p, completed := a.completed + p.calls[|a.parser.calls|..])
  }

  /** What send_frame puts on the wire: nothing when the frame is larger than its buffer. */
  function Wire(h: Header, payload: seq<byte>): seq<byte> {
    if |payload| > MAX_PAYLOAD then [] else EncodeRaw(h, payload)
  }

  function SendDiscover(a: Agent): (Agent, seq<byte>) {
    if !a.needDiscover then (a, [])
    else
      (a.(needDiscover := false, sent := a.sent + [Frame(DISCOVER, 0, a.frame.payload)]),
       Wire(Header(DISCOVER, 0, 0), a.frame.payload))
  }

  /** A message from the client's queue. */
  function SendOutbound(a: Agent, outbound: Option<Frame>): (Agent, seq<byte>)
  {
    if outbound.None? || |outbound.value.payload| > MAX_PAYLOAD then (a, [])
    else (a.(sent := a.sent + [outbound.value]), Encode(outbound.value))
  }

  function SendAck(a: Agent): (Agent, seq<byte>) {
    if a.ack.None? then (a, [])
    else
      var f := AckFrame(a.ack.value.id, a.ack.value.status);
      (a.(ack := None, sent := a.sent + [f]), Encode(f))
  }

  /** The second half of a turn: everything the agent has to say, in this order. */
  function Respond(a: Agent, outbound: Option<Frame>): (Agent, seq<byte>)
  {
    var (b, discover) := SendDiscover(a);
    var (c, data) := SendOutbound(b, outbound);
    var (d, ack) := SendAck(c);
    (d, discover + data + ack)
  }

  /** One turn of the run loop: what it reads, and the message the client has queued if any. */
  function Turn(a: Agent, read: seq<byte>, outbound: Option<Frame>): (Agent, seq<byte>)
    requires a.parser.Valid()
  {
    Respond(Handle(Receive(a, read)), outbound)
  }

  // ---- as the agent keeps it ----

  class AgentLoop {
    const parser: NrosStreamParser
    const buf: array<byte>
    var completedFrames: seq<Frame>
    var frame: Frame
    var needRegistration: bool
    var ack: Option<Ack>
    var newTopics: seq<Topic>
    var client: Option<seq<Topic>>
    var sent: seq<Frame>
    var published: seq<Frame>
    var fault: bool

    predicate Valid()
      reads this, parser, parser.headerBuf, parser.payloadBuf, parser.crcBuf
    {
      && parser.Valid() && buf.Length == BUFFER_SIZE
      && buf !in {parser.headerBuf, parser.payloadBuf, parser.crcBuf}
    }

    function Abs(): Agent
      requires Valid()
      reads this, parser, parser.headerBuf, parser.payloadBuf, parser.crcBuf
    {
      Agent(parser.Abs(), completedFrames, frame, needRegistration, ack, newTopics, client, sent, published, fault)
    }

    constructor ()
      ensures Valid() && Abs() == AGENT_INIT
    {
      parser := new NrosStreamParser();
      buf := new byte[BUFFER_SIZE](_ => 0);
      completedFrames, frame, needRegistration, ack, newTopics := [], Frame(0, 0, []), true, None, [];
      client, sent, published, fault := None, [], [], false;
    }

    /** Decoding fills t and says what to answer. */
    method DecodeRegistrationFrame(f: Frame) returns (status: byte, t: Topic)
      ensures (status, t) == DecodeRegistration(f)
    {
      status, t := ACK_MALFORMED, Topic(0, 0, [], []);
      if |f.payload| < REGISTRATION_LEN {
        return;
      }
      var typeNameLen, topicNameLen := f.payload[2] as nat, f.payload[3] as nat;
      if |f.payload| < REGISTRATION_LEN + typeNameLen + topicNameLen {
        return;
      }
      status, t := AssignNames(f, typeNameLen, topicNameLen);
    }

    method AssignNames(f: Frame, typeNameLen: nat, topicNameLen: nat) returns (status: byte, t: Topic)
      requires REGISTRATION_LEN + typeNameLen + topicNameLen <= |f.payload|
      ensures (status, t) == DecodeNames(f, typeNameLen, topicNameLen)
    {
      var cursor := REGISTRATION_LEN;
      var msgType := f.payload[cursor..cursor + typeNameLen];
      cursor := cursor + typeNameLen;
      t := Topic(f.topicId, f.payload[1], msgType, f.payload[cursor..cursor + topicNameLen]);
      status := if t.qos as nat >= QOS_COUNT then ACK_UNSUPPORTED_QOS else ACK_OK;
    }

    method FrameDispatch(f: Frame)
      requires Valid()
      modifies this
      ensures Valid() && Abs() == Dispatch(old(Abs()), f)
    {
      hide NrosStreamParser.Valid, NrosStreamParser.Abs, DecodeRegistration;
      match f.kind {
        case DATA =>
          if client == None {
            fault := true;
          } else {
            published := published + [f];
          }
        case REGISTER =>
          var status, t := DecodeRegistrationFrame(f);
          ack := Some(Ack(f.topicId, status));
          if status != ACK_OK {
            return;
          }
          newTopics := newTopics + [t];
        case REGISTER_DONE =>
          SpawnClient();
        case _ =>
      }
    }

    method SpawnClient()
      requires Valid()
      modifies this`client
      ensures Valid() && Abs() == old(Abs()).(client := Some(newTopics))
    {
      hide NrosStreamParser.Valid, NrosStreamParser.Abs;
      client := Some(newTopics);
    }

    method RecvFrame(read: seq<byte>) returns (got: bool)
      requires Valid()
      modifies this, parser, parser.headerBuf, parser.payloadBuf, parser.crcBuf
      ensures Valid()
      ensures var a := Receive(old(Abs()), read);
              if a.completed == [] then !got && Abs() == a
              else got && Abs() == a.(completed := a.completed[1..], frame := a.completed[0])
    {
      hide NrosStreamParser.Valid, Run;
      ghost var p := parser.Abs();
      var before := |parser.calls|;
      CallsGrow(parser.Abs(), read);
      parser.Feed(read);
      completedFrames := completedFrames + parser.calls[before..];
      got := completedFrames != [];
      if got {
        frame, completedFrames := completedFrames[0], completedFrames[1..];
      }
    }

    /** The bytes written, in the end all of them. */
    method SendFrame(h: Header, payload: seq<byte>) returns (written: seq<byte>)
      requires Valid()
      modifies buf
      ensures Valid() && Abs() == old(Abs()) && written == Wire(h, payload)
    {
      hide NrosStreamParser.Valid, NrosStreamParser.Abs, EncodeRaw;
      var n := Framing.EncodeFrame(h, payload, buf);
      written := buf[..n];
    }

    method AckClient() returns (written: seq<byte>)
      requires Valid() && ack.Some?
      modifies this`ack, this`sent, buf
      ensures Valid() && (Abs(), written) == SendAck(old(Abs()))
    {
      hide NrosStreamParser.Valid, NrosStreamParser.Abs, Encode;
      var f := AckFrame(ack.value.id, ack.value.status);
      SameEncoding(f);
      written := SendFrame(f.Hdr(), f.payload);
      ack, sent := None, sent + [f];
    }

    /** One turn of the loop in run. */
    method RunTurn(read: seq<byte>, outbound: Option<Frame>) returns (written: seq<byte>)
      requires Valid()
      modifies this, buf, parser, parser.headerBuf, parser.payloadBuf, parser.crcBuf
      ensures Valid() && (Abs(), written) == Turn(old(Abs()), read, outbound)
    {
      hide NrosStreamParser.Valid, NrosStreamParser.Abs, Run, Dispatch, Receive, Respond;
      var got := RecvFrame(read);
      if got {
        FrameDispatch(frame);
      }
      written := Answer(outbound);
    }

    method Answer(outbound: Option<Frame>) returns (written: seq<byte>)
      requires Valid()
      modifies this, buf
      ensures Valid() && (Abs(), written) == Respond(old(Abs()), outbound)
    {
      hide NrosStreamParser.Valid, NrosStreamParser.Abs, Encode, EncodeRaw, SendAck, Wire;
      var discover, data, acknowledgement := [], [], [];
      if needRegistration {
        needRegistration := false;
        sent := sent + [Frame(DISCOVER, 0, frame.payload)];
        discover := SendFrame(Header(DISCOVER, 0, 0), frame.payload);
      }
      if outbound.Some? {
        data := SendQueued(outbound.value);
      }
      NothingToAck(Abs());
      if ack.Some? {
        acknowledgement := AckClient();
      }
      written := discover + data + acknowledgement;
    }

    /** The header's length is cut to 16 bits, but a frame that needs more is never sent. */
    method SendQueued(f: Frame) returns (written: seq<byte>)
      requires Valid()
      modifies this`sent, buf
      ensures Valid() && (Abs(), written) == SendOutbound(old(Abs()), Some(f))
    {
      hide NrosStreamParser.Valid, NrosStreamParser.Abs, Encode, EncodeRaw;
      written := SendFrame(Header(f.kind, f.topicId, |f.payload| % 0x1_0000), f.payload);
      if |f.payload| <= MAX_PAYLOAD {
        SameEncoding(f);
        sent := sent + [f];
      }
    }
  }

  lemma NothingToAck(a: Agent)
    ensures a.ack.None? ==> SendAck(a) == (a, [])
  {
  }
}
