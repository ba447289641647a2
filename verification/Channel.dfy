/** A parser at the end of a byte channel: what it has delivered, what is still on the way. */
module Channel {
  import opened Bytes
  import opened Protocol
  import opened StreamParser
  import opened Framing

  /** rest are the bytes the parser has not read yet. Once it reads them all it will have delivered frames
      and be between two of them, and the last frame needs the last byte. */
  predicate InFlight(p: Parser, rest: seq<byte>, frames: seq<Frame>) {
    && p.Valid()
    && Run(p, rest).phase.Hunt? && Run(p, rest).calls == frames
    && (rest != [] ==> frames != [] && Run(p, rest[..|rest| - 1]).calls == frames[..|frames| - 1])
  }

  /** What was delivered is a prefix of what was sent, and proper exactly while bytes are on the way. */
  lemma {:induction false} Delivered(p: Parser, rest: seq<byte>, frames: seq<Frame>)
    requires InFlight(p, rest, frames)
    ensures p.calls <= frames
    ensures rest == [] <==> p.calls == frames
  {
    hide Step;
    if rest != [] {
      CallsGrow(p, rest[..|rest| - 1]);
      assert p.calls <= frames[..|frames| - 1];
    }
  }

  lemma {:induction false} Consume(p: Parser, read: seq<byte>, rest: seq<byte>, frames: seq<Frame>)
    requires InFlight(p, read + rest, frames)
    ensures InFlight(Run(p, read), rest, frames)
  {
    hide Run, Step, Parser.Valid;
    RunConcat(p, read, rest);
    if rest != [] {
      RunConcat(p, read, rest[..|rest| - 1]);
      ButLast(read, rest);
    }
  }

  lemma ButLast<T>(a: seq<T>, b: seq<T>)
    requires b != []
    ensures a + b != [] && (a + b)[..|a + b| - 1] == a + b[..|b| - 1]
  {
  }

  lemma {:induction false} Send(p: Parser, rest: seq<byte>, frames: seq<Frame>, f: Frame)
    requires InFlight(p, rest, frames) && f.Sendable()
    ensures InFlight(p, rest + Encode(f), frames + [f])
  {
    hide Run, Encode;
    var wire := Encode(f);
    FeedFrame(Run(p, rest), f);
    RunConcat(p, rest, wire);
    RunConcat(p, rest, wire[..|wire| - 1]);
    var all := rest + wire;
    assert all[..|all| - 1] == rest + wire[..|wire| - 1];
    assert (frames + [f])[..|frames|] == frames;
  }

  lemma Empty()
    ensures InFlight(INIT, [], [])
  {
  }

  predicate AllSendable(frames: seq<Frame>) {
    forall j | 0 <= j < |frames| :: frames[j].Sendable()
  }

  function EncodeAll(frames: seq<Frame>): seq<byte>
    requires AllSendable(frames)
  {
    if frames == [] then [] else Encode(frames[0]) + EncodeAll(frames[1..])
  }

  lemma {:induction false} SendAll(p: Parser, rest: seq<byte>, frames: seq<Frame>, more: seq<Frame>)
    requires InFlight(p, rest, frames) && AllSendable(more)
    ensures InFlight(p, rest + EncodeAll(more), frames + more)
    decreases more
  {
    hide InFlight, Encode;
    if more == [] {
      assert rest + EncodeAll(more) == rest && frames + more == frames;
    } else {
      Send(p, rest, frames, more[0]);
      SendAll(p, rest + Encode(more[0]), frames + [more[0]], more[1..]);
      assert frames + [more[0]] + more[1..] == frames + more;
      assert rest + Encode(more[0]) + EncodeAll(more[1..]) == rest + EncodeAll(more);
    }
  }
}
