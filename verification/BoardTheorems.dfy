/** What any board does with any frame, whatever happened before. */
module BoardTheorems {
  import opened Bytes
  import opened Protocol
  import opened StreamParser
  import opened Registration
  import opened Options
  import opened TopicIds
  import opened Board

  /** The name of the type or the topic is longer than 128 bytes. */
  predicate TooLong(t: Topic) {
    |t.msgType| > 128 || |t.name| > 128
  }

  /** The registration of topic k, or the end of them; nothing for a topic with too long a name. */
  function Announcement(topics: seq<Topic>, k: nat): seq<Frame> {
    if k >= |topics| then [DONE_FRAME] else if TooLong(topics[k]) then [] else [RegisterFrame(topics[k])]
  }

  /** What a frame from the agent makes the board send: the first registration when it is asked for topics
      and idle, the next one when the last is acknowledged. */
  function SentFor(m: Mcu, topics: seq<Topic>, f: Frame): seq<Frame> {
    if f.kind == 0x05 && !m.sending then Announcement(topics, 0)
    else if f.kind == 0x03 && m.awaitingAck && m.isRegistration then
      Announcement(topics, if m.sendingDone then |topics| else (m.index + 1) % 256)
    else []
  }

  /** next is m once x, at most one frame, is loaded. */
  predicate Loaded(m: Mcu, x: seq<Frame>, next: Mcu) {
    && next.loaded == m.loaded + x && |x| <= 1 && next.registrationComplete == m.registrationComplete
    && (x != [] ==> x[0].Sendable() && next.sending && next.frame == Encode(x[0]) && next.sent == 0)
    && (x == [] ==> next.sending == m.sending && next.frame == m.frame && next.sent == m.sent)
    && (next.overwrote <==> m.overwrote || (m.sending && x != []))
  }

  lemma LoadNextSends(m: Mcu, topics: seq<Topic>)
    requires m.sendingDone || m.index < |topics|
    ensures var next := LoadNext(m, topics);
            var x := Announcement(topics, if m.sendingDone then |topics| else m.index);
            && Loaded(m, x, next)
            && (next.awaitingAck <==> m.awaitingAck || (x != [] && x[0].kind == 0x01))
  {
    hide Encode;
    assert m.loaded + [] == m.loaded;
  }

  lemma NoneSent(m: Mcu)
    ensures Loaded(m, [], m)
  {
    hide Encode;
  }

  /** Just that is loaded, and it takes the place of a frame still being sent iff there is one: only an
      acknowledgement can do that. Nothing else of the transmitter changes, nor whether registration is
      complete. From when it sends a registration until an acknowledgement comes the board waits for one. */
  lemma {:induction false} DispatchSends(m: Mcu, topics: seq<Topic>, f: Frame)
    requires topics != []
    ensures var next, x := Dispatch(m, topics, f), SentFor(m, topics, f);
            && Loaded(m, x, next) && (m.sending && x != [] ==> f.kind == 0x03)
            && (next.awaitingAck <==>
                if x != [] && x[0].kind == 0x01 then true else m.awaitingAck && f.kind != 0x03)
  {
    hide LoadNext, Announcement, Encode, DeliveryOf;
    NoneSent(m);
    forall n: Mcu | n.sendingDone || n.index < |topics|
      ensures var next := LoadNext(n, topics);
              var x := Announcement(topics, if n.sendingDone then |topics| else n.index);
              && Loaded(n, x, next)
              && (next.awaitingAck <==> n.awaitingAck || (x != [] && x[0].kind == 0x01))
    {
      LoadNextSends(n, topics);
    }
    LastIsDone(topics);
  }

  lemma LastIsDone(topics: seq<Topic>)
    ensures forall k | k >= |topics| :: Announcement(topics, k) == Announcement(topics, |topics|)
  {
  }

  /** A frame is published iff it fits, the board is idle and registration is complete. */
  lemma {:induction false} PublishIff(m: Mcu, f: Frame)
    requires f.Sendable()
    ensures var next, ok := Publish(m, f), !m.sending && m.registrationComplete && |f.payload| <= 1016;
            && next.loaded == (if ok then m.loaded + [f] else m.loaded) && next.overwrote == m.overwrote
            && (next.sending <==> m.sending || ok) && (ok ==> next.frame == Encode(f) && next.sent == 0)
            && (m.sending ==> next.frame == m.frame && next.sent == m.sent)
            && next.registrationComplete == m.registrationComplete && next.awaitingAck == m.awaitingAck
  {
    hide Encode;
  }
}
