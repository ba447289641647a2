/** Whole streams: noise, damage and arbitrary chunking, and what any input at all can do. */
module Delivery {
  import opened Bytes
  import opened Protocol
  import opened StreamParser
  import opened Framing
  import Crc

  // ---- chunking ----

  function Join(chunks: seq<seq<byte>>): seq<byte> {
    if chunks == [] then [] else chunks[0] + Join(chunks[1..])
  }

  /** One call of the feed function for each chunk. */
  function FeedAll(p: Parser, chunks: seq<seq<byte>>): (q: Parser)
    requires p.Valid()
    ensures q.Valid()
    decreases chunks
  {
    if chunks == [] then p else FeedAll(Run(p, chunks[0]), chunks[1..])
  }

  lemma {:induction false} ChunkingIrrelevant(p: Parser, chunks: seq<seq<byte>>)
    requires p.Valid()
    ensures FeedAll(p, chunks) == Run(p, Join(chunks))
    decreases chunks
  {
    if chunks != [] {
      ChunkingIrrelevant(Run(p, chunks[0]), chunks[1..]);
      RunConcat(p, chunks[0], Join(chunks[1..]));
    }
  }

  // ---- noise and damage ----

  /** No two adjacent bytes look like a sync. */
  predicate NoSync(noise: seq<byte>) {
    forall j | 0 <= j < |noise| - 1 :: noise[j] == MAGIC0 ==> noise[j + 1] != MAGIC1
  }

  lemma {:induction false} FeedNoise(p: Parser, noise: seq<byte>)
    requires p.phase.Hunt? && NoSync(noise)
    requires p.phase.last == MAGIC0 && noise != [] ==> noise[0] != MAGIC1
    ensures Run(p, noise) == p.(phase := if noise == [] then p.phase else Hunt(noise[|noise| - 1]))
  {
    if noise != [] {
      FeedNoise(p, noise[..|noise| - 1]);
    }
  }

  /** Noise, then the wire bytes of a frame, of which the two at position at may be damaged. */
  datatype Item = Item(noise: seq<byte>, frame: Frame, wire: seq<byte>, at: nat) {
    predicate Valid() {
      NoSync(noise) && frame.Sendable() && Damaged(frame, wire, at) && (Intact() || !Escapes(frame, wire))
    }

    predicate Intact()
      requires frame.Sendable()
    {
      wire == Encode(frame)
    }
  }

  predicate ValidItems(items: seq<Item>) {
    forall j | 0 <= j < |items| :: items[j].Valid()
  }

  function Stream(items: seq<Item>): seq<byte> {
    if items == [] then [] else items[0].noise + items[0].wire + Stream(items[1..])
  }

  function IntactFrames(items: seq<Item>): seq<Frame>
    requires ValidItems(items)
  {
    if items == [] then []
    else (if items[0].Intact() then [items[0].frame] else []) + IntactFrames(items[1..])
  }

  function DamagedCount(items: seq<Item>): nat
    requires ValidItems(items)
  {
    if items == [] then 0 else (if items[0].Intact() then 0 else 1) + DamagedCount(items[1..])
  }

  /** Exactly the undamaged frames arrive, in order, and every damaged one is counted. */
  lemma {:induction false} StreamDelivery(p: Parser, items: seq<Item>, tail: seq<byte>)
    requires p.phase.Hunt? && p.phase.last != MAGIC0 && ValidItems(items) && NoSync(tail)
    ensures var q := Run(p, Stream(items) + tail);
            && q.phase.Hunt?
            && q.calls == p.calls + IntactFrames(items)
            && q.crcFails == p.crcFails + DamagedCount(items)
            && q.resyncs == p.resyncs
    decreases items
  {
    hide Escapes, Damaged, Encode, Run, NoSync;
    if items == [] {
      assert Stream(items) + tail == tail;
      FeedNoise(p, tail);
    } else {
      var item := items[0];
      var first := item.noise + item.wire;
      StreamUnfold(items, tail);
      RunConcat(p, first, Stream(items[1..]) + tail);
      FeedItem(p, item);
      StreamDelivery(Run(p, first), items[1..], tail);
      FramesUnfold(p.calls, items);
    }
  }

  lemma StreamUnfold(items: seq<Item>, tail: seq<byte>)
    requires items != []
    ensures Stream(items) + tail == (items[0].noise + items[0].wire) + (Stream(items[1..]) + tail)
  {
  }

  lemma FramesUnfold(calls: seq<Frame>, items: seq<Item>)
    requires items != [] && ValidItems(items)
    ensures calls + IntactFrames(items) ==
            (if items[0].Intact() then calls + [items[0].frame] else calls) + IntactFrames(items[1..])
  {
    hide Encode, Escapes, Damaged, NoSync;
  }

  lemma FeedItem(p: Parser, item: Item)
    requires p.phase.Hunt? && p.phase.last != MAGIC0 && item.Valid()
    ensures var q := Run(p, item.noise + item.wire);
            q == if item.Intact() then p.(phase := Hunt(MAGIC1), calls := p.calls + [item.frame])
                 else p.(phase := Hunt(MAGIC1), crcFails := p.crcFails + 1)
  {
    hide Escapes, Damaged, Encode, Run;
    FeedNoise(p, item.noise);
    RunConcat(p, item.noise, item.wire);
    DamagedFrame(Run(p, item.noise), item.frame, item.wire, item.at);
  }

  /** The same for a fresh parser fed in any chunks. */
  lemma {:induction false} CorruptionTolerance(chunks: seq<seq<byte>>, items: seq<Item>, tail: seq<byte>)
    requires ValidItems(items) && NoSync(tail) && Join(chunks) == Stream(items) + tail
    ensures var q := FeedAll(INIT, chunks);
            && q.calls == IntactFrames(items)
            && q.crcFails == DamagedCount(items)
            && q.resyncs == 0 && q.phase.Hunt?
  {
    ChunkingIrrelevant(INIT, chunks);
    StreamDelivery(INIT, items, tail);
  }

  // ---- any input ----

  /** gaps[0], the first frame, gaps[1], the second frame and so on up to the last gap. */
  function Interleave(gaps: seq<seq<byte>>, frames: seq<Frame>): seq<byte>
    requires |gaps| == |frames| + 1 && forall f | f in frames :: f.Sendable()
  {
    if frames == [] then gaps[0]
    else
      var n := |frames| - 1;
      Interleave(gaps[..n + 1], frames[..n]) + Encode(frames[n]) + gaps[n + 1]
  }

  predicate EndsWith(data: seq<byte>, suffix: seq<byte>) {
    |suffix| <= |data| && data[|data| - |suffix|..] == suffix
  }

  /** What the hunting window or the frame in progress says about the bytes after the last frame. */
  predicate Explains(gap: seq<byte>, phase: Phase) {
    && EndsWith(gap, phase.Pending())
    && (phase.Hunt? && phase.last == MAGIC0 ==> gap != [] && gap[|gap| - 1] == MAGIC0)
  }

  /** The input is the delivered frames with gaps between them, and the last gap holds what the
      parser is in the middle of. */
  predicate Parsed(data: seq<byte>, gaps: seq<seq<byte>>, q: Parser) {
    && (forall f | f in q.calls :: f.Sendable())
    && |gaps| == |q.calls| + 1
    && data == Interleave(gaps, q.calls)
    && Explains(gaps[|gaps| - 1], q.phase)
  }

  /** Delivered frames are encodings found in the input, in order and without overlap. */
  lemma {:induction false} Soundness(data: seq<byte>) returns (gaps: seq<seq<byte>>)
    ensures Parsed(data, gaps, Run(INIT, data))
  {
    hide Step, Parsed;
    if data == [] {
      gaps := [[]];
      ParsedStart();
    } else {
      var n := |data| - 1;
      gaps := Soundness(data[..n]);
      gaps := ParsedStep(data[..n], data[n], gaps, Run(INIT, data[..n]));
      assert data == data[..n] + [data[n]];
    }
  }

  lemma ParsedStart()
    ensures Parsed([], [[]], INIT)
  {
  }

  lemma ParsedStep(data: seq<byte>, b: byte, before: seq<seq<byte>>, p: Parser) returns (gaps: seq<seq<byte>>)
    requires p.Valid() && Parsed(data, before, p)
    ensures Parsed(data + [b], gaps, Step(p, b))
  {
    hide Encode, Step, Explains, EndsWith;
    var m := |before| - 1;
    var gap := before[m];
    StepExplained(p, b, gap);
    var q := Step(p, b);
    assert before == before[..m] + [gap];
    InterleaveLast(before[..m], gap, [b], p.calls);
    if q.calls == p.calls {
      gaps := before[..m] + [gap + [b]];
    } else {
      gaps := CompleteGap(before[..m], gap + [b], p.calls, q.calls[|p.calls|]);
      assert q.calls == p.calls + [q.calls[|p.calls|]];
    }
  }

  lemma {:induction false} CompleteGap(gaps: seq<seq<byte>>, gap: seq<byte>, frames: seq<Frame>, f: Frame)
    returns (more: seq<seq<byte>>)
    requires |gaps| == |frames| && (forall g | g in frames :: g.Sendable())
    requires f.Sendable() && EndsWith(gap, Encode(f))
    ensures |more| == |frames| + 2 && more[|more| - 1] == []
    ensures forall g | g in frames + [f] :: g.Sendable()
    ensures Interleave(more, frames + [f]) == Interleave(gaps + [gap], frames)
  {
    hide Encode;
    var pre := gap[..|gap| - |Encode(f)|];
    more := gaps + [pre] + [[]];
    assert gap == pre + Encode(f);
    InterleaveLast(gaps, pre, Encode(f), frames);
    assert more[..|frames| + 1] == gaps + [pre];
    assert (frames + [f])[..|frames|] == frames;
    assert Interleave(more, frames + [f]) == Interleave(gaps + [pre], frames) + Encode(f) + [];
  }

  lemma InterleaveLast(gaps: seq<seq<byte>>, gap: seq<byte>, more: seq<byte>, frames: seq<Frame>)
    requires |gaps| == |frames| && forall f | f in frames :: f.Sendable()
    ensures Interleave(gaps + [gap + more], frames) == Interleave(gaps + [gap], frames) + more
  {
    if frames != [] {
      var n := |frames| - 1;
      assert (gaps + [gap + more])[..n + 1] == gaps == (gaps + [gap])[..n + 1];
    }
  }

  /** A byte that turns p into q either extends the explained gap or completes a frame at its end. */
  predicate Progress(p: Parser, q: Parser, gap: seq<byte>) {
    if q.calls == p.calls then Explains(gap, q.phase)
    else
      && |q.calls| == |p.calls| + 1 && q.calls[..|p.calls|] == p.calls
      && q.calls[|p.calls|].Sendable() && EndsWith(gap, Encode(q.calls[|p.calls|]))
      && Explains([], q.phase)
  }

  lemma StepExplained(p: Parser, b: byte, gap: seq<byte>)
    requires p.Valid() && Explains(gap, p.phase)
    ensures Progress(p, Step(p, b), gap + [b])
  {
    hide Encode, HeaderBytes, GetU16, Crc.Of, GetLength;
    match p.phase
    case Hunt(last) =>
      if last == MAGIC0 && b == MAGIC1 {
        assert (gap + [b])[|gap| - 1..] == [MAGIC0, MAGIC1];
      }
    case InHeader(got) => HeaderExplained(p, b, gap);
    case InPayload(h, payload) =>
      EndsWithMore(gap, p.phase.Pending(), b);
      assert HeaderBytes(h) + payload + [b] == HeaderBytes(h) + (payload + [b]);
      assert HeaderBytes(h) + (payload + [b]) == HeaderBytes(h) + (payload + [b]) + [];
    case InCrc(h, payload, got) => CrcExplained(p, b, gap);
  }

  lemma HeaderExplained(p: Parser, b: byte, gap: seq<byte>)
    requires p.Valid() && p.phase.InHeader? && Explains(gap, p.phase)
    ensures Progress(p, Step(p, b), gap + [b])
  {
    hide HeaderBytes, GetLength;
    var got := p.phase.got;
    EndsWithMore(gap, got, b);
    if |got| + 1 == HEADER_LEN {
      var raw := got + [b];
      assert raw[..2] == got[..2];
      HeaderRoundTrip(raw);
      assert raw + [] == raw && raw + [] + [] == raw;
      assert gap + [b] != [] && (gap + [b])[|gap + [b]| - 1] == b;
    }
  }

  lemma {:induction false} CrcExplained(p: Parser, b: byte, gap: seq<byte>)
    requires p.Valid() && p.phase.InCrc? && Explains(gap, p.phase)
    ensures Progress(p, Step(p, b), gap + [b])
  {
    hide PutU16, GetU16, HeaderBytes, Crc.Of;
    var InCrc(h, payload, got) := p.phase;
    EndsWithMore(gap, p.phase.Pending(), b);
    if got == [] {
      assert HeaderBytes(h) + payload + [] + [b] == HeaderBytes(h) + payload + [b];
    } else {
      PutGetU16(got[0], b);
      assert p.phase.Pending() + [b] == HeaderBytes(h) + payload + [got[0], b];
    }
  }

  lemma EndsWithMore(data: seq<byte>, suffix: seq<byte>, b: byte)
    requires EndsWith(data, suffix)
    ensures EndsWith(data + [b], suffix + [b])
  {
    assert (data + [b])[|data| - |suffix|..] == data[|data| - |suffix|..] + [b];
  }

  /** When the callback fires, the bytes consumed so far end with the frame it delivers. */
  lemma {:induction false} CallbackSound(data: seq<byte>, b: byte)
    requires |Run(INIT, data + [b]).calls| != |Run(INIT, data).calls|
    ensures var calls := Run(INIT, data + [b]).calls;
            && calls != [] && calls[..|calls| - 1] == Run(INIT, data).calls
            && calls[|calls| - 1].Sendable() && EndsWith(data + [b], Encode(calls[|calls| - 1]))
  {
    hide Encode, Step, EndsWith;
    var gaps := Soundness(data);
    var q := Run(INIT, data);
    var gap := gaps[|gaps| - 1];
    assert (data + [b])[..|data|] == data;
    StepExplained(q, b, gap);
    LastGap(gaps, q.calls);
    var f := Step(q, b).calls[|q.calls|];
    SuffixOfSuffix(data, gap, b, Encode(f));
  }

  lemma LastGap(gaps: seq<seq<byte>>, frames: seq<Frame>)
    requires |gaps| == |frames| + 1 && forall f | f in frames :: f.Sendable()
    ensures EndsWith(Interleave(gaps, frames), gaps[|gaps| - 1])
  {
    hide Encode;
  }

  lemma SuffixOfSuffix(data: seq<byte>, gap: seq<byte>, b: byte, wire: seq<byte>)
    requires EndsWith(data, gap) && EndsWith(gap + [b], wire)
    ensures EndsWith(data + [b], wire)
  {
    EndsWithMore(data, gap, b);
    var all := data + [b];
    assert all[|all| - |wire|..] == all[|all| - |gap + [b]|..][|gap + [b]| - |wire|..];
  }

  // ---- conservation and bounds ----

  /** Syncs found while reading data. */
  function Syncs(p: Parser, data: seq<byte>): nat
    requires p.Valid()
  {
    if data == [] then 0
    else
      var q := Run(p, data[..|data| - 1]);
      Syncs(p, data[..|data| - 1]) + if q.phase.Hunt? && !Step(q, data[|data| - 1]).phase.Hunt? then 1 else 0
  }

  /** Every sync ends in a callback, a CRC failure or a resync, unless its frame is in progress. */
  lemma {:induction false} SyncsConserved(data: seq<byte>)
    ensures var q := Run(INIT, data);
            Syncs(INIT, data) == |q.calls| + q.crcFails + q.resyncs + if q.phase.Hunt? then 0 else 1
  {
    hide Step;
    if data != [] {
      SyncsConserved(data[..|data| - 1]);
      StepConserves(Run(INIT, data[..|data| - 1]), data[|data| - 1]);
    }
  }

  lemma StepConserves(p: Parser, b: byte)
    requires p.Valid()
    ensures var q := Step(p, b);
            |q.calls| + q.crcFails + q.resyncs + (if q.phase.Hunt? then 0 else 1) ==
            |p.calls| + p.crcFails + p.resyncs + (if p.phase.Hunt? && q.phase.Hunt? then 0 else 1)
  {
    hide HeaderBytes, Crc.Of, GetU16, GetLength;
  }

  /** At most this many more bytes until the parser hunts again. */
  function Remaining(phase: Phase): nat
    requires phase.Valid()
  {
    match phase
    case Hunt(_) => 0
    case InHeader(got) => HEADER_LEN - |got| + BUFFER_SIZE + CRC_LEN
    case InPayload(h, payload) => h.length - |payload| + CRC_LEN
    case InCrc(h, payload, got) => CRC_LEN - |got|
  }

  lemma RemainingDrops(p: Parser, b: byte)
    requires p.Valid() && !p.phase.Hunt?
    ensures Remaining(Step(p, b).phase) < Remaining(p.phase)
  {
    hide HeaderBytes, Crc.Of, GetU16, GetLength;
  }

  /** Back in the hunt, the window holds the byte just read, or one that starts no sync. */
  lemma LeavesWindow(p: Parser, b: byte)
    requires p.Valid() && !p.phase.Hunt?
    ensures Step(p, b).phase.Hunt? ==> Step(p, b).phase.last in {MAGIC1, b}
  {
    hide HeaderBytes, Crc.Of, GetU16, GetLength;
  }

  lemma {:induction false} BackToHunt(p: Parser, data: seq<byte>) returns (k: nat)
    requires p.Valid() && Remaining(p.phase) <= |data|
    ensures k <= Remaining(p.phase) && Run(p, data[..k]).phase.Hunt? && (k == 0 <==> p.phase.Hunt?)
    ensures k > 0 ==> Run(p, data[..k]).phase.last in {MAGIC1, data[k - 1]}
    decreases data
  {
    hide Step;
    if p.phase.Hunt? {
      k := 0;
    } else {
      RemainingDrops(p, data[0]);
      LeavesWindow(p, data[0]);
      k := BackToHunt(Step(p, data[0]), data[1..]);
      k := k + 1;
      RunCons(p, data[..k]);
      assert data[..k][1..] == data[1..][..k - 1];
    }
  }

  /** 1030 bytes after any sync the parser has been back to hunting. */
  lemma {:induction false} HuntingWithin1030(p: Parser, data: seq<byte>) returns (k: nat)
    requires p.phase == InHeader([MAGIC0, MAGIC1]) && |data| == 1030
    ensures k <= 1030 && Run(p, data[..k]).phase.Hunt?
  {
    k := BackToHunt(p, data);
  }

  lemma RemainingAtMost(p: Parser)
    requires p.Valid()
    ensures Remaining(p.phase) <= 1030
  {
  }

  /** Bytes that can be noise after what p has read. */
  predicate Quiet(p: Parser, noise: seq<byte>) {
    NoSync(noise) && (p.phase.Hunt? && p.phase.last == MAGIC0 && noise != [] ==> noise[0] != MAGIC1)
  }

  /** Whatever frame the parser thinks it is in, 1030 bytes without a sync bring it back to the hunt. */
  lemma {:induction false} NoiseHunts(p: Parser, noise: seq<byte>)
    requires p.Valid() && Quiet(p, noise) && |noise| >= 1030
    ensures Run(p, noise).phase.Hunt?
  {
    hide Run, Step;
    RemainingAtMost(p);
    var k := BackToHunt(p, noise);
    assert noise == noise[..k] + noise[k..];
    RunConcat(p, noise[..k], noise[k..]);
    if k == 0 {
      assert noise[..0] == [];
      RunNothing(p);
    }
    FeedNoise(Run(p, noise[..k]), noise[k..]);
  }

  lemma RunNothing(p: Parser)
    requires p.Valid()
    ensures Run(p, []) == p
  {
  }

  /** Whatever the parser has read before, any damage included, the frame behind 1031 bytes without a sync
      is delivered, and the parser hunts again. */
  lemma {:induction false} Recovers(p: Parser, noise: seq<byte>, f: Frame)
    requires p.Valid() && NoSync(noise) && |noise| >= 1031 && f.Sendable()
    ensures var q := Run(p, noise + Encode(f));
            q.phase == Hunt(MAGIC1) && q.calls == Run(p, noise).calls + [f]
  {
    hide Run, Step, Encode;
    if Quiet(p, noise) {
      NoiseHunts(p, noise);
    } else {
      LateSync(p, noise);
    }
    RunConcat(p, noise, Encode(f));
    FeedFrame(Run(p, noise), f);
  }

  /** The byte before the noise and its first make a sync. */
  lemma LateSync(p: Parser, noise: seq<byte>)
    requires p.Valid() && NoSync(noise) && |noise| >= 1031 && !Quiet(p, noise)
    ensures Run(p, noise).phase.Hunt?
  {
    hide Run;
    SyncLeavesHunt(p);
    RunCons(p, noise);
    NoiseHunts(Step(p, noise[0]), noise[1..]);
  }

  lemma SyncLeavesHunt(p: Parser)
    requires p.Valid() && p.phase.Hunt? && p.phase.last == MAGIC0
    ensures !Step(p, MAGIC1).phase.Hunt?
  {
  }
}
