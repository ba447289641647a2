/** The board's side of the protocol: one transmitter, one parser, and the registration it runs when the
    agent asks for it. Mcu says what the library does; NanoRos keeps the static state of the C file. */
module Board {
  import opened Bytes
  import opened Protocol
  import opened StreamParser
  import opened Registration
  import opened FieldTree
  import opened GeneratedCode
  import opened Publishing
  import opened SizeAnalysis
  import opened SizeTheorems
  import opened Options
  import opened TopicIds
  import Framing

  const RX_CHUNK: nat := 64
  const ID_COUNT: nat := 256

  /** A message handed to the callback of the topic its number stands for. The library follows a null
      pointer when there is none: no topic with that number, or one the board publishes. */
  datatype Delivery = Delivery(topic: Option<nat>, payload: seq<byte>)

  function Ids(topics: seq<Topic>): (ids: seq<nat>)
    ensures |ids| == |topics| && forall j | 0 <= j < |ids| :: ids[j] < ID_COUNT
  {
    seq(|topics|, i requires 0 <= i < |topics| => topics[i].id as nat)
  }

  /** The index once all topics are entered. */
  function Index(topics: seq<Topic>): (index: seq<Option<nat>>)
    ensures |index| == ID_COUNT
  {
    seq(ID_COUNT, k requires 0 <= k < ID_COUNT => LastWith(Ids(topics), k))
  }

  /** The callback behind an entry of the index: the generated table has one for every topic the board
      subscribes to and null for the others. */
  function CallbackOf(topics: seq<Topic>, entry: Option<nat>): Option<nat> {
    if entry.Some? && entry.value < |topics| && DirectionOf(topics[entry.value].id as nat).Subscriber? then entry
    else None
  }

  function DeliveryOf(topics: seq<Topic>, entry: Option<nat>, f: Frame): Delivery {
    Delivery(CallbackOf(topics, entry), f.payload)
  }

  /** loaded logs every frame handed to the transmitter; overwrote records whether one of them replaced a
      frame that was still being sent; delivered logs the callbacks made. frame holds the
      bytes of the last one, sent of which are written. topicMap leads from a number to its topic. */
  datatype Mcu = Mcu(sending: bool, frame: seq<byte>, sent: nat, isRegistration: bool, index: nat,
                     sendingDone: bool, awaitingAck: bool, registrationComplete: bool,
                     parser: Parser, loaded: seq<Frame>, overwrote: bool, delivered: seq<Delivery>,
                     topicMap: seq<Option<nat>>)
  {
    /** Bytes of the current frame the transport has not taken yet. */
    function Unsent(): seq<byte> {
      if sending && sent <= |frame| then frame[sent..] else []
    }

    function Entry(id: byte): Option<nat> {
      if id as nat < |topicMap| then topicMap[id as nat] else None
    }
  }

  const MCU_INIT := Mcu(false, [], 0, false, 0, false, false, false, INIT, [], false, [], NoTopics())

  function NoTopics(): seq<Option<nat>> {
    seq(ID_COUNT, _ => None)
  }

  /** The board once nros_init has returned true. */
  function Ready(topics: seq<Topic>): Mcu {
    MCU_INIT.(topicMap := Index(topics))
  }

  predicate Topics(topics: seq<Topic>) {
    0 < |topics| < 0x100 && forall j | 0 <= j < |topics| :: topics[j].Announceable()
  }

  function Reindexed(index: seq<Option<nat>>, topics: seq<Topic>): seq<Option<nat>> {
    seq(|index|, k requires 0 <= k < |index| => Entered(index[k], Ids(topics), k))
  }

  /** nros_init, which says ok when the transport is ready. */
  function Initialised(m: Mcu, topics: seq<Topic>, ok: bool): Mcu {
    m.(parser := INIT, topicMap := if ok then Reindexed(m.topicMap, topics) else m.topicMap)
  }

  lemma {:induction false} InitialisedReady(topics: seq<Topic>)
    ensures Initialised(MCU_INIT, topics, true) == Ready(topics)
    ensures forall m: Mcu, ok: bool :: Initialised(m, topics, ok).parser == INIT
  {
    hide LastWith;
    assert Initialised(MCU_INIT, topics, true).topicMap == Index(topics);
  }

  /** A frame goes into the transmit buffer, whatever was there. */
  function Load(m: Mcu, f: Frame): Mcu
    requires f.Sendable()
  {
    m.(sending := true, frame := Encode(f), sent := 0, loaded := m.loaded + [f],
       overwrote := m.overwrote || m.sending)
  }

  /** load_next_registration_frame: a topic with too long a name is dropped without a word. */
  function LoadNext(m: Mcu, topics: seq<Topic>): Mcu
    requires m.sendingDone || m.index < |topics|
  {
    if m.sendingDone then Load(m, DONE_FRAME)
    else
      var t := topics[m.index];
      if !t.Announceable() then m else Load(m, RegisterFrame(t)).(awaitingAck := true)
  }

  function RegisterStart(m: Mcu, topics: seq<Topic>): Mcu
    requires topics != []
  {
    if m.sending then m
    else LoadNext(m.(isRegistration := true, index := 0, sendingDone := false), topics)
  }

  /** An acknowledgement nobody waits for is ignored; during registration it brings the next topic on. */
  function Acknowledge(m: Mcu, topics: seq<Topic>): Mcu
    requires topics != []
  {
    if !m.awaitingAck then m
    else if !m.isRegistration then m.(awaitingAck := false)
    else
      var index := (m.index + 1) % 0x100;
      var done := m.sendingDone || index >= |topics|;
      LoadNext(m.(awaitingAck := false, index := index, sendingDone := done), topics)
  }

  /** What the board does with a frame from the agent. */
  function Dispatch(m: Mcu, topics: seq<Topic>, f: Frame): Mcu
    requires topics != []
  {
    if f.kind == ACK then Acknowledge(m, topics)
    else if f.kind == DISCOVER then RegisterStart(m, topics)
    else if f.kind == DATA then m.(delivered := m.delivered + [DeliveryOf(topics, m.Entry(f.topicId), f)])
    else m
  }

  function DispatchAll(m: Mcu, topics: seq<Topic>, frames: seq<Frame>): Mcu
    requires topics != []
    decreases frames
  {
    if frames == [] then m
    else
      var n := |frames| - 1;
      Dispatch(DispatchAll(m, topics, frames[..n]), topics, frames[n])
  }

  /** A read: the parser takes the chunk, and the callbacks it makes are dispatched in order. */
  function Receive(m: Mcu, topics: seq<Topic>, chunk: seq<byte>): Mcu
    requires topics != [] && m.parser.Valid()
  {
    var p := Run(m.parser, chunk);
    CallsGrow(m.parser, chunk);
    DispatchAll(m.(parser := p), topics, p.calls[|m.parser.calls|..])
  }

  function TxComplete(m: Mcu): Mcu {
    if m.isRegistration && m.sendingDone then m.(sending := false, registrationComplete := true)
    else m.(sending := false)
  }

  /** The transport takes n of the bytes it is offered. */
  function Transmit(m: Mcu, n: nat): Mcu
    requires n <= |m.Unsent()|
  {
    if !m.sending then m
    else if m.sent + n < |m.frame| then m.(sent := m.sent + n)
    else TxComplete(m.(sent := m.sent + n))
  }

  /** nros_publish from where the payload stands: when the frame is too large for the buffer, the length
      of the last one is lost. */
  function Publish(m: Mcu, f: Frame): Mcu
    requires f.Sendable()
  {
    if m.sending || !m.registrationComplete then m
    else if |f.payload| > MAX_PAYLOAD then m.(frame := [])
    else Load(m, f).(isRegistration := false)
  }

  // ---- as the library keeps it ----

  class NanoRos {
    const topics: seq<Topic>
    const parser: NrosStreamParser
    const buffer: array<byte>
    const payloadBuffer: array<byte>
    const topicMap: array<Option<nat>>
    var sending: bool
    var frameLen: nat
    var bytesSent: nat
    var isRegistration: bool
    var topicRegistrationIdx: nat
    var sendingRegDoneFrame: bool
    var awaitingAck: bool
    var registrationComplete: bool
    /** Every frame loaded so far, and whether one replaced another. */
    var loaded: seq<Frame>
    var overwrote: bool
    /** Every callback made so far. */
    var delivered: seq<Delivery>

    predicate Valid()
      reads this, buffer, payloadBuffer, parser, parser.headerBuf, parser.payloadBuf, parser.crcBuf
    {
      && parser.Valid() && topics != []
      && buffer.Length == BUFFER_SIZE && payloadBuffer.Length == BUFFER_SIZE && Apart()
      && topicMap.Length == ID_COUNT
      && frameLen <= BUFFER_SIZE && (sending ==> bytesSent <= frameLen)
    }

    /** No two of the arrays are the same. */
    predicate Apart()
    {
      && buffer != payloadBuffer
      && buffer !in {parser.headerBuf, parser.payloadBuf, parser.crcBuf}
      && payloadBuffer !in {parser.headerBuf, parser.payloadBuf, parser.crcBuf}
      && var others: set<object> := {buffer, payloadBuffer, parser.headerBuf, parser.payloadBuf, parser.crcBuf};
         topicMap !in others
    }

    function Abs(): Mcu
      requires Valid()
      reads this, buffer, topicMap, payloadBuffer, parser, parser.headerBuf, parser.payloadBuf, parser.crcBuf
    {
      Mcu(sending, buffer[..frameLen], bytesSent, isRegistration, topicRegistrationIdx, sendingRegDoneFrame,
          awaitingAck, registrationComplete, parser.Abs(), loaded, overwrote, delivered, topicMap[..])
    }

    /** The static state before anything runs. */
    constructor (topics: seq<Topic>)
      requires topics != []
      ensures Valid() && this.topics == topics && Abs() == MCU_INIT
    {
      this.topics := topics;
      parser := new NrosStreamParser();
      buffer := new byte[BUFFER_SIZE](_ => 0);
      payloadBuffer := new byte[BUFFER_SIZE](_ => 0);
      topicMap := new Option<nat>[ID_COUNT](_ => None);
      sending, frameLen, bytesSent, isRegistration, topicRegistrationIdx := false, 0, 0, false, 0;
      sendingRegDoneFrame, awaitingAck, registrationComplete, loaded, overwrote := false, false, false, [], false;
      delivered := [];
      new;
      assert buffer[..0] == [] && topicMap[..] == NoTopics();
    }

    /** initOk and open are what the transport answers. The parser starts over in any case; the topics are
        entered iff the transport is ready. */
    method NrosInit(initOk: bool, open: bool) returns (ok: bool)
      requires Valid()
      modifies parser, parser.headerBuf, parser.payloadBuf, parser.crcBuf, topicMap
      ensures Valid() && ok == (initOk && open)
      ensures Abs() == Initialised(old(Abs()), topics, ok)
    {
      hide NrosStreamParser.Valid, NrosStreamParser.Abs;
      parser.Init();
      if !open || !initOk {
        return false;
      }
      InitTopicMap(Ids(topics), topicMap);
      ok := true;
    }

    /** Frames f into the transmit buffer if it fits there. */
    method EncodeInto(f: Frame)
      requires Valid() && f.Sendable() && (sending ==> bytesSent == 0)
      modifies this, buffer
      ensures Valid()
      ensures Abs() == old(Abs()).(frame := if |f.payload| <= MAX_PAYLOAD then Encode(f) else [])
    {
      hide Encode, EncodeRaw, NrosStreamParser.Valid, NrosStreamParser.Abs;
      frameLen := Framing.EncodeFrame(f.Hdr(), f.payload, buffer);
      assert buffer[..0] == [];
      SameEncoding(f);
    }

    /** A registration frame goes to the transmitter. */
    method LoadFrame(f: Frame)
      requires Valid() && f.Sendable() && |f.payload| <= MAX_PAYLOAD
      modifies this, buffer
      ensures Valid() && Abs() == Load(old(Abs()), f)
    {
      hide Encode, NrosStreamParser.Valid, NrosStreamParser.Abs, Apart, Frame.Sendable;
      bytesSent := 0;
      EncodeInto(f);
      loaded, overwrote := loaded + [f], overwrote || sending;
      sending := true;
    }

    method LoadNextRegistrationFrame()
      requires Valid() && (sendingRegDoneFrame || topicRegistrationIdx < |topics|)
      modifies this, buffer
      ensures Valid() && Abs() == LoadNext(old(Abs()), topics)
    {
      hide Encode, Load, NrosStreamParser.Valid;
      if sendingRegDoneFrame {
        LoadFrame(DONE_FRAME);
      } else {
        var topic := topics[topicRegistrationIdx];
        if |topic.msgType| > MAX_STR_SIZE || |topic.name| > MAX_STR_SIZE {
          return;
        }
        LoadFrame(RegisterFrame(topic));
        awaitingAck := true;
      }
    }

    method RegisterTopicsStart() returns (started: bool)
      requires Valid()
      modifies this, buffer
      ensures Valid() && Abs() == RegisterStart(old(Abs()), topics) && started == !old(sending)
    {
      hide LoadNext, NrosStreamParser.Valid;
      if sending {
        return false;
      }
      isRegistration, topicRegistrationIdx, sendingRegDoneFrame := true, 0, false;
      LoadNextRegistrationFrame();
      started := true;
    }

    method TxFrameComplete()
      requires Valid()
      modifies this
      ensures Valid() && Abs() == TxComplete(old(Abs()))
    {
      hide NrosStreamParser.Valid;
      if !isRegistration {
        sending := false;
        return;
      }
      if sendingRegDoneFrame {
        sending := false;
        registrationComplete := true;
        return;
      }
      sending := false;
    }

    method HostAck()
      requires Valid()
      modifies this, buffer
      ensures Valid() && Abs() == Acknowledge(old(Abs()), topics)
    {
      hide LoadNext, NrosStreamParser.Valid, NrosStreamParser.Abs;
      if !awaitingAck {
        return;
      }
      awaitingAck := false;
      if !isRegistration {
        return;
      }
      topicRegistrationIdx := (topicRegistrationIdx + 1) % 0x100;
      if topicRegistrationIdx >= |topics| {
        sendingRegDoneFrame := true;
      }
      LoadNextRegistrationFrame();
    }

    method NrosDispatch(f: Frame)
      requires Valid()
      modifies this, buffer
      ensures Valid() && Abs() == Dispatch(old(Abs()), topics, f)
    {
      hide Acknowledge, RegisterStart, Ids, LastWith, NrosStreamParser.Valid, NrosStreamParser.Abs;
      match f.kind {
        case ACK =>
          HostAck();
        case DISCOVER =>
          var started := RegisterTopicsStart();
        case DATA =>
          delivered := delivered + [DeliveryOf(topics, topicMap[f.topicId], f)];
        case _ =>
      }
    }

    /** The transport accepts n bytes of what it is offered; written are those bytes. */
    method TxPoll(n: nat) returns (written: seq<byte>)
      requires Valid() && n <= |Abs().Unsent()|
      modifies this
      ensures Valid() && Abs() == Transmit(old(Abs()), n) && written == old(Abs()).Unsent()[..n]
    {
      hide NrosStreamParser.Valid, TxComplete;
      if !sending {
        return [];
      }
      written := buffer[bytesSent..bytesSent + n];
      assert buffer[..frameLen][bytesSent..][..n] == written;
      bytesSent := bytesSent + n;
      if bytesSent < frameLen {
        return;
      }
      TxFrameComplete();
    }

    /** A publish succeeds iff the transmitter is idle, registration is over, and message and frame fit;
        a topic that passed the generated size check always fits. When the frame alone is too large the
        transmit buffer's length is already reset. */
    method NrosPublish(topicId: byte, fields: seq<Field>, msg: seq<Value>) returns (ok: bool)
      requires Valid() && Writable(fields, msg)
      modifies this, buffer, payloadBuffer
      ensures Valid()
      ensures ok <==> !old(sending) && old(registrationComplete) && PayloadSize(fields, msg) <= MAX_PAYLOAD
      ensures !old(sending) && old(registrationComplete) && Checked(fields) ==> ok
      ensures ok ==>
                var f := Frame(DATA, topicId, DataPayload(fields, msg, old(payloadBuffer[..])));
                Abs() == Publish(old(Abs()), f) && |Abs().frame| == HEADER_LEN + PayloadSize(fields, msg) + CRC_LEN
      ensures !ok ==> Abs() == old(Abs()) || Abs() == old(Abs()).(frame := [])
    {
      hide Encode, EncodeRaw, NrosStreamParser.Valid, Writable, DataPayload, PayloadSize, Checked;
      if Checked(fields) {
        CheckedTopicFits(fields, msg);
      }
      if sending || !registrationComplete {
        return false;
      }
      var len;
      ok, len := WritePayload(fields, msg, payloadBuffer);
      if !ok {
        return false;
      }
      ok := PublishFrame(Header(DATA, topicId, len), payloadBuffer[..len]);
    }

    /** The rest of nros_publish, once the payload stands. */
    method PublishFrame(header: Header, payload: seq<byte>) returns (ok: bool)
      requires Valid() && !sending && registrationComplete && |payload| == header.length <= BUFFER_SIZE
      modifies this, buffer
      ensures Valid()
      ensures ok <==> |payload| <= MAX_PAYLOAD
      ensures Abs() == Publish(old(Abs()), Frame(header.kind, header.topicId, payload))
    {
      hide Encode, NrosStreamParser.Valid, NrosStreamParser.Abs;
      var f := Frame(header.kind, header.topicId, payload);
      EncodeInto(f);
      ok := frameLen != 0;
      if !ok {
        return;
      }
      loaded := loaded + [f];
      bytesSent := 0;
      isRegistration := false;
      sending := true;
    }

    method RxPoll(chunk: seq<byte>)
      requires Valid() && |chunk| <= RX_CHUNK
      modifies this, buffer, parser, parser.headerBuf, parser.payloadBuf, parser.crcBuf
      ensures Valid() && Abs() == Receive(old(Abs()), topics, chunk)
    {
      hide NrosStreamParser.Valid, Dispatch, Run;
      if |chunk| > 0 {
        var before := |parser.calls|;
        CallsGrow(parser.Abs(), chunk);
        parser.Feed(chunk);
        ghost var start, frames := Abs(), parser.calls[before..];
        for i := before to |parser.calls|
          invariant Valid() && parser.Abs() == start.parser
          invariant Abs() == DispatchAll(start, topics, frames[..i - before])
        {
          NrosDispatch(parser.calls[i]);
          assert frames[..i + 1 - before][..i - before] == frames[..i - before];
        }
        assert frames[..|frames|] == frames;
      } else {
        NothingReceived(Abs(), topics, chunk);
      }
    }
  }

  lemma NothingReceived(m: Mcu, topics: seq<Topic>, chunk: seq<byte>)
    requires topics != [] && m.parser.Valid() && chunk == []
    ensures Receive(m, topics, chunk) == m
  {
    CallsGrow(m.parser, chunk);
  }
}
