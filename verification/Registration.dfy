/** What a board says about a topic on the wire, and what the agent makes of it. */
module Registration {
  import opened Bytes
  import opened Protocol

  datatype Topic = Topic(id: byte, qos: byte, msgType: seq<byte>, name: seq<byte>) {
    /** The generated build checks hold for both names. */
    predicate Announceable() {
      |msgType| <= MAX_STR_SIZE && |name| <= MAX_STR_SIZE
    }
  }

  const REGISTRATION_LEN: nat := 4

  /** The packed registration struct, then the type name, then the topic name. */
  function RegistrationPayload(t: Topic): (s: seq<byte>)
    requires t.Announceable()
    ensures |s| == REGISTRATION_LEN + |t.msgType| + |t.name|
  {
    [t.id, t.qos, ByteOf(|t.msgType|), ByteOf(|t.name|)] + t.msgType + t.name
  }

  function RegisterFrame(t: Topic): (f: Frame)
    requires t.Announceable()
    ensures |f.payload| <= MAX_PAYLOAD
  {
    Frame(REGISTER, t.id, RegistrationPayload(t))
  }

  /** The agent refuses a quality of service it does not know. */
  function Status(t: Topic): byte {
    if t.qos as nat >= QOS_COUNT then ACK_UNSUPPORTED_QOS else ACK_OK
  }

  /** The agent's verdict on a registration frame; the topic counts only when the verdict is ok. */
  function DecodeRegistration(f: Frame): (byte, Topic) {
    if |f.payload| < REGISTRATION_LEN then (ACK_MALFORMED, Topic(0, 0, [], []))
    else DecodeNames(f, f.payload[2] as nat, f.payload[3] as nat)
  }

  function DecodeNames(f: Frame, typeLen: nat, nameLen: nat): (byte, Topic)
    requires |f.payload| >= REGISTRATION_LEN
  {
    if |f.payload| < REGISTRATION_LEN + typeLen + nameLen then (ACK_MALFORMED, Topic(0, 0, [], []))
    else
      var nameStart := REGISTRATION_LEN + typeLen;
      var t := Topic(f.topicId, f.payload[1],
                     f.payload[REGISTRATION_LEN..nameStart], f.payload[nameStart..nameStart + nameLen]);
      (Status(t), t)
  }

  /** The agent decodes exactly what the board encoded. */
  lemma {:induction false} RegistrationRoundTrip(t: Topic)
    requires t.Announceable()
    ensures DecodeRegistration(RegisterFrame(t)) == (Status(t), t)
  {
    hide ByteOf, RegistrationPayload, Status, DecodeNames;
    PayloadHead(t);
    NamesDecoded(t);
  }

  lemma PayloadHead(t: Topic)
    requires t.Announceable()
    ensures var p := RegistrationPayload(t);
            p[0] == t.id && p[1] == t.qos && p[2] as nat == |t.msgType| && p[3] as nat == |t.name|
  {
    hide ByteOf;
  }

  lemma NamesDecoded(t: Topic)
    requires t.Announceable()
    ensures DecodeNames(RegisterFrame(t), |t.msgType|, |t.name|) == (Status(t), t)
  {
    hide RegistrationPayload, Status;
    PayloadHead(t);
    PayloadParts(t);
  }

  lemma PayloadParts(t: Topic)
    requires t.Announceable()
    ensures var p, nameStart := RegistrationPayload(t), REGISTRATION_LEN + |t.msgType|;
            p[REGISTRATION_LEN..nameStart] == t.msgType && p[nameStart..nameStart + |t.name|] == t.name
  {
    hide ByteOf;
    ThreeParts([t.id, t.qos, ByteOf(|t.msgType|), ByteOf(|t.name|)], t.msgType, t.name);
  }

  lemma ThreeParts<T>(a: seq<T>, b: seq<T>, c: seq<T>)
    ensures var s, k := a + b + c, |a| + |b|;
            s[|a|..k] == b && s[k..k + |c|] == c
  {
  }

  function AckFrame(id: byte, status: byte): (f: Frame)
    ensures |f.payload| == 2
  {
    Frame(ACK, id, [id, status])
  }

  const DONE_FRAME := Frame(REGISTER_DONE, 0, [])
  const DISCOVER_FRAME := Frame(DISCOVER, 0, [])

  /** The topics the agent keeps, in the board's order. */
  function Accepted(topics: seq<Topic>): seq<Topic> {
    if topics == [] then []
    else
      var n := |topics| - 1;
      Accepted(topics[..n]) + if Status(topics[n]) == ACK_OK then [topics[n]] else []
  }
}
