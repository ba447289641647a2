/** What goes over the wire, byte by byte, with every constant written out. */
module WireFormat {
  import opened Bytes
  import opened Protocol
  import opened StreamParser
  import opened Registration
  import opened Framing
  import Crc

  // ---- integers ----

  /** A length: the remainder first, then the quotient. */
  lemma {:induction false} LengthBytes(n: nat)
    requires n < 0x1_0000
    ensures PutLength(n)[0] as nat == n % 256 && PutLength(n)[1] as nat == n / 256
  {
    hide ByteOf;
  }

  /** A register: its low eight bits first. */
  lemma {:induction false} RegisterBytes(v: bv16)
    ensures PutU16(v)[0] as bv16 == v & 0xFF && PutU16(v)[1] as bv16 == v >> 8
  {
  }

  /** Four bytes, from the least to the most significant. */
  lemma {:induction false} WordBytes(n: nat)
    requires n < 0x1_0000_0000
    ensures var s := PutU32(n);
            n == s[0] as nat + 0x100 * s[1] as nat + 0x1_0000 * s[2] as nat + 0x100_0000 * s[3] as nat
  {
    hide ByteOf, PutLength, GetLength;
    LengthValue(n % 0x1_0000);
    LengthValue(n / 0x1_0000);
  }

  lemma LengthValue(n: nat)
    requires n < 0x1_0000
    ensures n == PutLength(n)[0] as nat + 0x100 * PutLength(n)[1] as nat
  {
    hide ByteOf;
  }

  // ---- frames ----

  /** Magic, type, topic, length low byte first, payload, and the CRC of all that, low byte first. */
  lemma {:induction false} FrameBytes(f: Frame)
    requires f.Sendable()
    ensures var w, n := Encode(f), |f.payload|;
            && |w| == n + 8
            && w[0] == 0xAA && w[1] == 0x55 && w[2] == f.kind && w[3] == f.topicId
            && w[4] as nat == n % 256 && w[5] as nat == n / 256
            && w[6..n + 6] == f.payload
            && w[n + 6] as bv16 == Crc.Of(w[..n + 6]) & 0xFF && w[n + 7] as bv16 == Crc.Of(w[..n + 6]) >> 8
  {
    hide PutLength, PutU16, Crc.Of;
    var n := |f.payload|;
    var body := HeaderBytes(f.Hdr()) + f.payload;
    LengthBytes(n);
    RegisterBytes(Crc.Of(body));
    assert Encode(f)[..n + 6] == body;
  }

  /** A frame without payload, when the CRC of its header is known. */
  lemma Short(kind: byte, crc: bv16, lo: byte, hi: byte)
    requires Crc.Of([0xAA, 0x55, kind, 0, 0, 0]) == crc && crc & 0xFF == lo as bv16 && crc >> 8 == hi as bv16
    ensures Encode(Frame(kind, 0, [])) == [0xAA, 0x55, kind, 0, 0, 0, lo, hi]
  {
    hide Encode, Crc.Of;
    var w := Encode(Frame(kind, 0, []));
    FrameBytes(Frame(kind, 0, []));
    ZeroBytes(w[4], w[5]);
    assert w[..6] == [0xAA, 0x55, kind, 0, 0, 0];
    SameLow(w[6], lo);
    SameLow(w[7], hi);
    assert w == [w[0], w[1], w[2], w[3], w[4], w[5], w[6], w[7]];
  }

  lemma ZeroBytes(a: byte, b: byte)
    requires a as nat == 0 && b as nat == 0
    ensures a == 0 && b == 0
  {
  }

  lemma SameLow(a: byte, b: byte)
    requires a as bv16 == b as bv16
    ensures a == b
  {
  }

  /** The agent's question, and the board's last word in the registration. */
  lemma {:induction false} DiscoverBytes()
    ensures Encode(DISCOVER_FRAME) == [0xAA, 0x55, 0x05, 0x00, 0x00, 0x00, 0x1A, 0xE3]
  {
    hide Encode, Crc.Of;
    HeaderCrc(0x05, 0x172E, 0x4CD6, 0x5F48, 0xE31A);
    Short(0x05, 0xE31A, 0x1A, 0xE3);
  }

  lemma {:induction false} DoneBytes()
    ensures Encode(DONE_FRAME) == [0xAA, 0x55, 0x04, 0x00, 0x00, 0x00, 0xAE, 0x95]
  {
    hide Encode, Crc.Of;
    HeaderCrc(0x04, 0x070F, 0x7FE7, 0x6878, 0x95AE);
    Short(0x04, 0x95AE, 0xAE, 0x95);
  }

  /** The registers behind the bytes of a header with zeros for topic and length. */
  lemma HeaderCrc(kind: byte, c: bv16, d: bv16, e: bv16, f: bv16)
    requires Crc.Turned(0xE5EA, kind, c) && Crc.Turned(c, 0, d) && Crc.Turned(d, 0, e) && Crc.Turned(e, 0, f)
    ensures Crc.Of([0xAA, 0x55, kind, 0, 0, 0]) == f
  {
    hide Crc.Of, Crc.Turned;
    var d1 := [] + [0xAA];
    var d2 := d1 + [0x55];
    var d3 := d2 + [kind];
    var d4 := d3 + [0];
    var d5 := d4 + [0];
    Crc.Nothing(0xFFFF);
    Magic();
    Crc.Next([], 0xFFFF, 0xAA, 0xF550);
    Crc.Next(d1, 0xF550, 0x55, 0xE5EA);
    Crc.Next(d2, 0xE5EA, kind, c);
    Crc.Next(d3, c, 0, d);
    Crc.Next(d4, d, 0, e);
    Crc.Next(d5, e, 0, f);
    assert d5 + [0] == [0xAA, 0x55, kind, 0, 0, 0];
  }

  lemma Magic()
    ensures Crc.Turned(0xFFFF, 0xAA, 0xF550) && Crc.Turned(0xF550, 0x55, 0xE5EA)
  {
  }

  // ---- registration ----

  /** A registration carries id, quality of service and the lengths of the two names, then type and topic. */
  lemma {:induction false} RegistrationBytes(t: Topic)
    requires t.Announceable()
    ensures var f, n := RegisterFrame(t), |t.msgType|;
            && f.kind == 0x01 && f.topicId == t.id && |f.payload| == 4 + n + |t.name|
            && f.payload[0] == t.id && f.payload[1] == t.qos
            && f.payload[2] as nat == n && f.payload[3] as nat == |t.name|
            && f.payload[4..n + 4] == t.msgType && f.payload[n + 4..] == t.name
  {
    hide ByteOf, RegistrationPayload;
    PayloadHead(t);
    PayloadParts(t);
  }

  /** An acknowledgement: the id twice, and the status. */
  lemma {:induction false} AckBytes(id: byte, status: byte)
    ensures Encode(AckFrame(id, status))[..8] == [0xAA, 0x55, 0x03, id, 0x02, 0x00, id, status]
  {
    hide Encode, Crc.Of;
    var w := Encode(AckFrame(id, status));
    FrameBytes(AckFrame(id, status));
    TwoAndZero(w[4], w[5]);
    assert w[6..8][0] == w[6] && w[6..8][1] == w[7];
    assert w[..8] == [w[0], w[1], w[2], w[3], w[4], w[5], w[6], w[7]];
  }

  lemma TwoAndZero(a: byte, b: byte)
    requires a as nat == 2 && b as nat == 0
    ensures a == 2 && b == 0
  {
  }

  /** The lengths a registration announces are within it. */
  predicate WellFormed(payload: seq<byte>) {
    4 <= |payload| && 4 + payload[2] as nat + payload[3] as nat <= |payload|
  }

  /** The agent's verdict on any registration at all: malformed when it is too short for what it
      announces, else refused for a quality of service above five, else the topic it spells out. */
  lemma {:induction false} RegistrationDecoded(f: Frame)
    ensures var (status, t) := DecodeRegistration(f);
            && status == (if !WellFormed(f.payload) then 0x02 else if f.payload[1] as nat > 5 then 0x01 else 0x00)
            && (WellFormed(f.payload) ==>
                  var n := 4 + f.payload[2] as nat;
                  && t.id == f.topicId && t.qos == f.payload[1]
                  && t.msgType == f.payload[4..n] && t.name == f.payload[n..n + f.payload[3] as nat])
  {
  }

  // ---- the window behind an oversize header ----

  /** A header that announces more than 1024 bytes is dropped, but a sync that starts with its last byte
      is found: the frame behind it is delivered. */
  lemma {:induction false} SyncInLastByte(p: Parser, kind: byte, id: byte, lo: byte, f: Frame)
    requires p.phase.Hunt? && f.Sendable()
    ensures var q := Run(p, [0xAA, 0x55, kind, id, lo] + Encode(f));
            && q.phase == Hunt(0x55) && q.calls == p.calls + [f]
            && q.resyncs == p.resyncs + 1 && q.crcFails == p.crcFails
  {
    hide Encode, Run, Step, Crc.Of;
    var w := Encode(f);
    FrameBytes(f);
    OversizeDropped(p, kind, id, lo);
    var head := [0xAA, 0x55, kind, id, lo, 0xAA];
    assert [0xAA, 0x55, kind, id, lo] + w == head + w[1..] by {
      assert w == [0xAA] + w[1..];
    }
    RunConcat(p, head, w[1..]);
    var dropped := p.(phase := Hunt(0xAA), resyncs := p.resyncs + 1);
    SameFromWindow(dropped, f);
  }

  lemma OversizeDropped(p: Parser, kind: byte, id: byte, lo: byte)
    requires p.phase.Hunt?
    ensures Run(p, [0xAA, 0x55, kind, id, lo, 0xAA]) == p.(phase := Hunt(0xAA), resyncs := p.resyncs + 1)
  {
    hide Run;
    var d1: seq<byte> := [] + [0xAA];
    var d2 := d1 + [0x55];
    var d3 := d2 + [kind];
    var d4 := d3 + [id];
    var d5 := d4 + [lo];
    RunSnoc(p, [], 0xAA);
    RunSnoc(p, d1, 0x55);
    RunSnoc(p, d2, kind);
    RunSnoc(p, d3, id);
    RunSnoc(p, d4, lo);
    RunSnoc(p, d5, 0xAA);
    assert d5 + [0xAA] == [0xAA, 0x55, kind, id, lo, 0xAA];
  }

  lemma RunSnoc(p: Parser, data: seq<byte>, b: byte)
    requires p.Valid()
    ensures Run(p, data + [b]) == Step(Run(p, data), b) && Run(p, []) == p
  {
    hide Step;
    assert (data + [b])[..|data|] == data;
  }

  /** With the first magic byte in the window, the rest of a frame is as good as all of it. */
  lemma SameFromWindow(p: Parser, f: Frame)
    requires p.phase == Hunt(0xAA) && f.Sendable()
    ensures Run(p, Encode(f)[1..]) == p.(phase := Hunt(0x55), calls := p.calls + [f])
  {
    hide Encode, Run, Crc.Of;
    FrameBytes(f);
    FeedFrame(p, f);
    RunCons(p, Encode(f));
  }
}
