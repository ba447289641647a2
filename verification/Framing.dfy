/** Encoder and parser together: what arrives when frames cross a channel that adds noise and damage. */
module Framing {
  import opened Bytes
  import opened Protocol
  import opened StreamParser
  import Crc

  method EncodeFrame(header: Header, payload: seq<byte>, out: array<byte>) returns (n: nat)
    modifies out
    ensures var total := HEADER_LEN + |payload| + CRC_LEN;
            if out.Length < total then n == 0 && out[..] == old(out[..])
            else n == total && out[..n] == EncodeRaw(header, payload) && out[n..] == old(out[n..])
  {
    hide HeaderBytes, PutU16, Crc.Of, EncodeRaw;
    var total := HEADER_LEN + |payload| + CRC_LEN;
    if out.Length < total {
      return 0;
    }
    n := total;
    var head := HeaderBytes(header);
    forall j | 0 <= j < HEADER_LEN {
      out[j] := head[j];
    }
    forall j | 0 <= j < |payload| {
      out[HEADER_LEN + j] := payload[j];
    }
    var covered := HEADER_LEN + |payload|;
    assert out[..covered] == head + payload;
    var crc := Crc.Crc16Buf(out[..covered]);
    out[covered], out[covered + 1] := PutU16(crc)[0], PutU16(crc)[1];
    assert out[..n] == out[..covered] + PutU16(crc);
    assert out[..covered] == head + payload;
    RawParts(header, payload);
  }

  lemma RawParts(h: Header, payload: seq<byte>)
    ensures EncodeRaw(h, payload) == HeaderBytes(h) + payload + PutU16(Crc.Of(HeaderBytes(h) + payload))
  {
  }

  // ---- one frame ----

  /** A header and so much of its payload. */
  function Body(h: Header, payload: seq<byte>): Phase {
    if |payload| < h.length then InPayload(h, payload) else InCrc(h, payload, [])
  }

  lemma FeedHeader(p: Parser, h: Header)
    requires p.phase.Hunt? && h.length <= BUFFER_SIZE
    ensures Run(p, HeaderBytes(h)) == p.(phase := Body(h, []))
  {
    hide PutLength, GetLength, Step;
    var len := PutLength(h.length);
    FeedMagic(p, h);
    var q := Run(p, [MAGIC0, MAGIC1, h.kind, h.topicId]);
    RunConcat(p, [MAGIC0, MAGIC1, h.kind, h.topicId], len);
    RunCons(q, len);
    RunOne(Step(q, len[0]), len[1]);
    assert len[1..] == [len[1]];
    FeedLength(q, h);
  }

  lemma FeedLength(q: Parser, h: Header)
    requires q.phase == InHeader([MAGIC0, MAGIC1, h.kind, h.topicId]) && h.length <= BUFFER_SIZE
    ensures var len := PutLength(h.length);
            Step(Step(q, len[0]), len[1]) == q.(phase := Body(h, []))
  {
    hide PutLength, GetLength;
  }

  lemma FeedMagic(p: Parser, h: Header)
    requires p.phase.Hunt?
    ensures Run(p, [MAGIC0, MAGIC1, h.kind, h.topicId]) == p.(phase := InHeader([MAGIC0, MAGIC1, h.kind, h.topicId]))
  {
    hide Run;
    var d := [MAGIC0, MAGIC1, h.kind, h.topicId];
    RunCons(p, d);
    assert d[1..] == [MAGIC1, h.kind, h.topicId];
    RunCons(Step(p, MAGIC0), d[1..]);
    assert d[1..][1..] == [h.kind, h.topicId];
    RunCons(Step(Step(p, MAGIC0), MAGIC1), [h.kind, h.topicId]);
    assert [h.kind, h.topicId][1..] == [h.topicId];
    var q := Step(Step(Step(p, MAGIC0), MAGIC1), h.kind);
    RunOne(q, h.topicId);
    assert [MAGIC0, MAGIC1] + [h.kind] + [h.topicId] == d;
  }

  lemma {:induction false} FeedBody(p: Parser, h: Header, payload: seq<byte>)
    requires p.phase.Hunt? && |payload| <= h.length <= BUFFER_SIZE
    ensures Run(p, HeaderBytes(h) + payload) == p.(phase := Body(h, payload))
  {
    hide HeaderBytes, Run, Step, Body;
    if payload == [] {
      FeedHeader(p, h);
      assert HeaderBytes(h) + payload == HeaderBytes(h);
    } else {
      var n := |payload| - 1;
      FeedBody(p, h, payload[..n]);
      RunConcat(p, HeaderBytes(h) + payload[..n], [payload[n]]);
      RunOne(Run(p, HeaderBytes(h) + payload[..n]), payload[n]);
      BodyNext(p, h, payload[..n], payload[n]);
      assert HeaderBytes(h) + payload[..n] + [payload[n]] == HeaderBytes(h) + payload;
      assert payload[..n] + [payload[n]] == payload;
    }
  }

  lemma BodyNext(p: Parser, h: Header, payload: seq<byte>, b: byte)
    requires p.Valid() && |payload| < h.length <= BUFFER_SIZE
    ensures p.(phase := Body(h, payload)).Valid()
    ensures Step(p.(phase := Body(h, payload)), b) == p.(phase := Body(h, payload + [b]))
  {
    hide HeaderBytes, Crc.Of, GetU16;
  }

  /** What the CRC bytes decide. */
  function Verdict(p: Parser, h: Header, payload: seq<byte>, lo: byte, hi: byte): Parser {
    if GetU16(lo, hi) == Crc.Of(HeaderBytes(h) + payload) then
      p.(phase := Hunt(MAGIC1), calls := p.calls + [Frame(h.kind, h.topicId, payload)])
    else
      p.(phase := Hunt(MAGIC1), crcFails := p.crcFails + 1)
  }

  lemma FeedRaw(p: Parser, h: Header, payload: seq<byte>, lo: byte, hi: byte)
    requires p.phase.Hunt? && |payload| == h.length <= BUFFER_SIZE
    ensures Run(p, HeaderBytes(h) + payload + [lo]) == p.(phase := InCrc(h, payload, [lo]))
    ensures Run(p, HeaderBytes(h) + payload + [lo, hi]) == Verdict(p, h, payload, lo, hi)
  {
    hide HeaderBytes, Crc.Of, GetU16;
    var body := HeaderBytes(h) + payload;
    FeedBody(p, h, payload);
    RunConcat(p, body, [lo]);
    RunOne(Run(p, body), lo);
    RunConcat(p, body + [lo], [hi]);
    RunOne(Run(p, body + [lo]), hi);
    assert body + [lo] + [hi] == body + [lo, hi];
  }

  /** A frame sent undamaged is delivered by its last byte, and not before. */
  lemma {:induction false} FeedFrame(p: Parser, f: Frame)
    requires p.phase.Hunt? && f.Sendable()
    ensures var wire := Encode(f);
            && Run(p, wire) == p.(phase := Hunt(MAGIC1), calls := p.calls + [f])
            && Run(p, wire[..|wire| - 1]).calls == p.calls
  {
    hide PutU16, GetU16, HeaderBytes, Crc.Of;
    var h := f.Hdr();
    var crc := PutU16(Crc.Of(HeaderBytes(h) + f.payload));
    GetPutU16(Crc.Of(HeaderBytes(h) + f.payload));
    var wire := Encode(f);
    assert crc == [crc[0], crc[1]];
    FeedRaw(p, h, f.payload, crc[0], crc[1]);
    assert wire[..|wire| - 1] == HeaderBytes(h) + f.payload + [crc[0]];
  }

  // ---- damage ----

  /** bad is f's encoding with at most the bytes i and i + 1 changed, leaving magic and length alone. */
  predicate Damaged(f: Frame, bad: seq<byte>, i: nat)
    requires f.Sendable()
  {
    && (i == 2 || HEADER_LEN <= i)
    && Crc.AgreeOutside(Encode(f), bad, i)
  }

  /** f's encoding with its last payload byte and the low CRC byte changed. */
  function Disguise(f: Frame): (bad: seq<byte>)
    requires f.Sendable() && f.payload != []
    ensures |bad| == |Encode(f)|
  {
    var good := Encode(f);
    var n := |good|;
    good[..n - 3] + [Flip(good[n - 3], 0x89), Flip(good[n - 2], 0xA1), good[n - 1]]
  }

  /** The one damage of two adjacent bytes the CRC misses. */
  predicate Escapes(f: Frame, bad: seq<byte>)
    requires f.Sendable()
  {
    f.payload != [] && bad == Disguise(f)
  }

  /** The wire bytes split where the parser splits them. */
  lemma WireParts(f: Frame, bad: seq<byte>, i: nat) returns (h: Header, payload: seq<byte>)
    requires f.Sendable() && Damaged(f, bad, i)
    ensures |payload| == h.length == |f.payload|
    ensures bad == HeaderBytes(h) + payload + [bad[|bad| - 2], bad[|bad| - 1]]
  {
    hide PutLength, PutU16, Crc.Of;
    var good, n := Encode(f), |bad|;
    h := Header(bad[2], bad[3], |f.payload|);
    payload := bad[HEADER_LEN..n - 2];
    assert good[..HEADER_LEN] == HeaderBytes(f.Hdr());
    forall j | 0 <= j < HEADER_LEN
      ensures bad[j] == HeaderBytes(h)[j]
    {
      assert good[j] == HeaderBytes(f.Hdr())[j];
    }
    assert bad[..HEADER_LEN] == HeaderBytes(h);
  }

  /** What a damaged frame does to a hunting parser: it is delivered iff it was not damaged after
      all or the damage is the one that escapes; otherwise one CRC failure is counted. */
  lemma {:induction false} DamagedFrame(p: Parser, f: Frame, bad: seq<byte>, i: nat)
    requires p.phase.Hunt? && f.Sendable() && Damaged(f, bad, i)
    ensures var q := Run(p, bad);
            && q.phase == Hunt(MAGIC1) && q.resyncs == p.resyncs
            && (if bad == Encode(f) then q.calls == p.calls + [f] && q.crcFails == p.crcFails
                else if Escapes(f, bad) then |q.calls| == |p.calls| + 1 && q.calls != p.calls + [f]
                else q.calls == p.calls && q.crcFails == p.crcFails + 1)
  {
    hide HeaderBytes, PutU16, GetU16, Crc.Of, Escapes, Damaged, Encode;
    var h, payload := WireParts(f, bad, i);
    var good, n := Encode(f), |bad|;
    var lo, hi := bad[n - 2], bad[n - 1];
    FeedRaw(p, h, payload, lo, hi);
    DamageDetected(f, h, payload, bad, i);
    if bad == good {
      FeedFrame(p, f);
    } else if Escapes(f, bad) {
      EscapedPayload(f, h, payload, bad);
      assert Run(p, bad).calls[|p.calls|].payload == payload;
      assert (p.calls + [f])[|p.calls|] == f;
    }
  }

  /** Every frame with a payload can be damaged so that another one is delivered in its place: the last
      byte of the payload is a different one. */
  lemma {:induction false} SomeDamageEscapes(p: Parser, f: Frame)
    requires p.phase.Hunt? && f.Sendable() && f.payload != []
    ensures var bad, last := Disguise(f), |f.payload| - 1;
            var g := f.(payload := f.payload[..last] + [Flip(f.payload[last], 0x89)]);
            && Damaged(f, bad, |bad| - 3) && Escapes(f, bad)
            && g != f && Run(p, bad).calls == p.calls + [g]
  {
    hide PutU16, GetU16, HeaderBytes, Crc.Of, Flip, Encode, Disguise, Escapes, Damaged;
    var bad, last := Disguise(f), |f.payload| - 1;
    var n := |bad|;
    var payload := f.payload[..last] + [Flip(f.payload[last], 0x89)];
    FlipChanges(f.payload[last], 0x89);
    assert payload[last] != f.payload[last];
    DisguiseEscapes(f);
    DisguiseParts(f);
    FeedRaw(p, f.Hdr(), payload, bad[n - 2], bad[n - 1]);
    DamageDetected(f, f.Hdr(), payload, bad, n - 3);
  }

  lemma DisguiseEscapes(f: Frame)
    requires f.Sendable() && f.payload != []
    ensures var bad := Disguise(f); Damaged(f, bad, |bad| - 3) && Escapes(f, bad)
  {
    hide Encode, Flip;
  }

  lemma DisguiseParts(f: Frame)
    requires f.Sendable() && f.payload != []
    ensures var bad, last := Disguise(f), |f.payload| - 1;
            bad == HeaderBytes(f.Hdr()) + (f.payload[..last] + [Flip(f.payload[last], 0x89)])
                   + [bad[|bad| - 2], bad[|bad| - 1]]
  {
    hide HeaderBytes, PutU16, Crc.Of, Flip;
    var good, last := Encode(f), |f.payload| - 1;
    assert good[|good| - 3] == f.payload[last];
    assert good[..|good| - 3] == HeaderBytes(f.Hdr()) + f.payload[..last];
  }

  lemma EscapedPayload(f: Frame, h: Header, payload: seq<byte>, bad: seq<byte>)
    requires f.Sendable() && |bad| == |Encode(f)| && Escapes(f, bad)
    requires |payload| == h.length == |f.payload|
    requires bad == HeaderBytes(h) + payload + [bad[|bad| - 2], bad[|bad| - 1]]
    ensures payload != f.payload
  {
    hide HeaderBytes, PutU16, Crc.Of;
    var good, n := Encode(f), |bad|;
    assert bad[n - 3] == payload[|payload| - 1];
    assert good[n - 3] == f.payload[|payload| - 1];
    FlipChanges(good[n - 3], 0x89);
  }

  lemma FlipChanges(x: byte, e: byte)
    requires e != 0
    ensures Flip(x, e) != x
  {
  }

  lemma {:induction false} DamageDetected(f: Frame, h: Header, payload: seq<byte>, bad: seq<byte>, i: nat)
    requires f.Sendable() && Damaged(f, bad, i)
    requires |payload| == h.length == |f.payload|
    requires bad == HeaderBytes(h) + payload + [bad[|bad| - 2], bad[|bad| - 1]]
    ensures var n := |bad|;
            (GetU16(bad[n - 2], bad[n - 1]) == Crc.Of(HeaderBytes(h) + payload)) <==>
            (bad == Encode(f) || Escapes(f, bad))
  {
    hide HeaderBytes, PutU16, GetU16, Crc.Of;
    var good, n := Encode(f), |bad|;
    var body, body' := HeaderBytes(f.Hdr()) + f.payload, HeaderBytes(h) + payload;
    var crc := PutU16(Crc.Of(body));
    assert good[..n - 2] == body && bad[..n - 2] == body';
    assert good[n - 2] == crc[0] && good[n - 1] == crc[1];
    if i != n - 3 {
      SeparateDamage(body, body', bad[n - 2], bad[n - 1], i);
      assert bad == body' + [bad[n - 2], bad[n - 1]] && good == body + crc;
      if Escapes(f, bad) {
        FlipChanges(good[n - 3], 0x89);
        FlipChanges(good[n - 2], 0xA1);
      }
    } else {
      StraddlingDamage(f, bad, body, body');
    }
  }

  /** Damage to the body alone or to the CRC alone. */
  lemma SeparateDamage(body: seq<byte>, body': seq<byte>, lo: byte, hi: byte, i: nat)
    requires Crc.AgreeOutside(body + PutU16(Crc.Of(body)), body' + [lo, hi], i)
    requires |body| == |body'| && i + 1 != |body|
    ensures (GetU16(lo, hi) == Crc.Of(body')) <==> (body' + [lo, hi] == body + PutU16(Crc.Of(body)))
  {
    hide PutU16, GetU16, Crc.Of;
    var crc := PutU16(Crc.Of(body));
    GetPutU16(Crc.Of(body));
    PutGetU16(lo, hi);
    var good, bad := body + crc, body' + [lo, hi];
    assert body == good[..|body|] && body' == bad[..|body|];
    assert crc == good[|body|..] && [lo, hi] == bad[|body|..];
    if i < |body| {
      assert good[|body|] == bad[|body|] && good[|body| + 1] == bad[|body| + 1];
      assert [lo, hi] == crc;
      Crc.WindowDetected(body, body', i);
    } else {
      assert body == body';
    }
  }

  lemma StraddlingDamage(f: Frame, bad: seq<byte>, body: seq<byte>, body': seq<byte>)
    requires f.Sendable() && 3 <= |bad| && Damaged(f, bad, |bad| - 3)
    requires body == HeaderBytes(f.Hdr()) + f.payload && body' == bad[..|bad| - 2]
    ensures var n := |bad|;
            (GetU16(bad[n - 2], bad[n - 1]) == Crc.Of(body')) <==> (bad == Encode(f) || Escapes(f, bad))
  {
    hide HeaderBytes, PutU16, GetU16, Crc.Of;
    var good, n := Encode(f), |bad|;
    assert good == body + PutU16(Crc.Of(body));
    var data, x, x' := body[..n - 3], body[n - 3], body'[n - 3];
    assert body == data + [x];
    assert body' == data + [x'] by {
      assert forall j | 0 <= j < n - 3 :: good[j] == bad[j];
    }
    Crc.StraddleDetected(data, x, x', bad[n - 2]);
    StraddleShape(f, data, x, x', good, bad);
  }

  lemma {:induction false} StraddleShape(f: Frame, data: seq<byte>, x: byte, x': byte, good: seq<byte>, bad: seq<byte>)
    requires f.Sendable() && f.payload != [] && good == Encode(f) && |bad| == |good| && |data| == |good| - 3
    requires good[..|good| - 2] == data + [x] && bad[..|bad| - 2] == data + [x']
    requires good[|good| - 1] == bad[|good| - 1]
    ensures Crc.Escapes(x, x', good[|good| - 2], bad[|good| - 2]) <==> (bad == good || Escapes(f, bad))
  {
    hide Encode, Flip;
    var n := |bad|;
    assert x == good[..n - 2][n - 3];
    assert good[..n - 3] == good[..n - 2][..n - 3] == data;
    assert good == data + [x, good[n - 2], good[n - 1]];
    LastThree(data, x', bad, x, good[n - 2]);
    LastThree(data, x', bad, Flip(x, 0x89), Flip(good[n - 2], 0xA1));
  }

  lemma LastThree(data: seq<byte>, x': byte, bad: seq<byte>, y: byte, z: byte)
    requires |bad| == |data| + 3 && bad[..|bad| - 2] == data + [x']
    ensures var n := |bad|; (bad == data + [y, z, bad[n - 1]]) <==> (x' == y && bad[n - 2] == z)
  {
    var n := |bad|;
    var other := data + [y, z, bad[n - 1]];
    assert bad == data + [x', bad[n - 2], bad[n - 1]];
    assert other[n - 3] == y && other[n - 2] == z;
  }
}
