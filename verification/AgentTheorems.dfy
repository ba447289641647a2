/** What any agent does with any frame and in any turn, whatever happened before. */
module AgentTheorems {
  import opened Bytes
  import opened Protocol
  import opened StreamParser
  import opened Registration
  import opened Options
  import opened AgentNode

  /** A registration is decoded and its verdict noted, data goes to the client, the end of the registration
      makes one of the topics collected; data without a client is a fault, and other frames do nothing. */
  lemma {:induction false} DispatchDoes(a: Agent, f: Frame)
    ensures var b := Dispatch(a, f);
            var (status, t) := DecodeRegistration(f);
            && b.ack == (if f.kind == 0x01 then Some(Ack(f.topicId, status)) else a.ack)
            && b.newTopics == a.newTopics + (if f.kind == 0x01 && status == 0x00 then [t] else [])
            && b.published == a.published + (if f.kind == 0x02 && a.client.Some? then [f] else [])
            && (b.fault <==> a.fault || (f.kind == 0x02 && a.client.None?))
            && b.client == (if f.kind == 0x04 then Some(a.newTopics) else a.client)
            && b.sent == a.sent && b.needDiscover == a.needDiscover && b.completed == a.completed
            && b.frame == a.frame && b.parser == a.parser
  {
    hide DecodeRegistration;
    assert a.newTopics + [] == a.newTopics && a.published + [] == a.published;
  }

  /** The bytes a turn writes: the question once, a queued message that fits, and the answer to a
      registration. The question's header announces no payload, but what was received last goes with it. */
  lemma {:induction false} TurnWrites(a: Agent, outbound: Option<Frame>)
    ensures var (b, written) := Respond(a, outbound);
            var fits := outbound.Some? && |outbound.value.payload| <= 1016;
            && !b.needDiscover && b.ack.None? && b.published == a.published
            && written ==
               (if a.needDiscover && |a.frame.payload| <= 1016 then EncodeRaw(Header(0x05, 0, 0), a.frame.payload)
                else [])
               + (if fits then Encode(outbound.value) else [])
               + (if a.ack.Some? then Encode(AckFrame(a.ack.value.id, a.ack.value.status)) else [])
            && b.sent ==
               a.sent + (if a.needDiscover then [Frame(0x05, 0, a.frame.payload)] else [])
               + (if fits then [outbound.value] else [])
               + (if a.ack.Some? then [AckFrame(a.ack.value.id, a.ack.value.status)] else [])
  {
    hide Encode, EncodeRaw;
    assert forall s: seq<Frame> :: s + [] == s;
    assert forall s: seq<byte> :: s + [] == s;
  }

  /** Every registration is answered, well-formed or not: the turn that takes it ends with an
      acknowledgement of its id with the verdict, and the topic is kept iff that is ok. */
  lemma {:induction false} RegistrationAnswered(a: Agent, outbound: Option<Frame>)
    requires a.completed != [] && a.completed[0].kind == REGISTER
    ensures var f := a.completed[0];
            var (status, t) := DecodeRegistration(f);
            var (b, written) := Respond(Handle(a), outbound);
            var answer := Encode(AckFrame(f.topicId, status));
            && |answer| <= |written| && written[|written| - |answer|..] == answer
            && b.sent != [] && b.sent[|b.sent| - 1] == AckFrame(f.topicId, status)
            && b.newTopics == a.newTopics + (if status == 0x00 then [t] else []) && b.completed == a.completed[1..]
  {
    hide Encode, DecodeRegistration, Wire, SendDiscover, SendOutbound;
    AskedOnly(Handle(a));
    ForwardedOnly(SendDiscover(Handle(a)).0, outbound);
  }

  lemma AskedOnly(a: Agent)
    ensures var b := SendDiscover(a).0;
            b.ack == a.ack && b.newTopics == a.newTopics && b.completed == a.completed
  {
  }

  lemma ForwardedOnly(a: Agent, outbound: Option<Frame>)
    ensures var b := SendOutbound(a, outbound).0;
            b.ack == a.ack && b.newTopics == a.newTopics && b.completed == a.completed
  {
  }
}
