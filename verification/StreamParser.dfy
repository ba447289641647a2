/** The byte-at-a-time frame parser. Step and Run say what the parser does; the class keeps its
    buffers, counters and running CRC the way the C struct does and refines them. */
module StreamParser {
  import opened Bytes
  import opened Protocol
  import Crc

  /** Where the parser is. Hunt remembers the newer byte of its two-byte window. */
  datatype Phase =
    | Hunt(last: byte)
    | InHeader(got: seq<byte>)
    | InPayload(header: Header, payload: seq<byte>)
    | InCrc(header: Header, payload: seq<byte>, got: seq<byte>)
  {
    predicate Valid() {
      match this
      case Hunt(_) => true
      case InHeader(got) => 2 <= |got| < HEADER_LEN && got[..2] == [MAGIC0, MAGIC1]
      case InPayload(h, payload) => |payload| < h.length <= BUFFER_SIZE
      case InCrc(h, payload, got) => |payload| == h.length <= BUFFER_SIZE && |got| < CRC_LEN
    }

    /** The bytes of the frame in progress. */
    function Pending(): seq<byte> {
      match this
      case Hunt(_) => []
      case InHeader(got) => got
      case InPayload(h, payload) => HeaderBytes(h) + payload
      case InCrc(h, payload, got) => HeaderBytes(h) + payload + got
    }
  }

  /** The parser with the log of its callbacks. */
  datatype Parser = Parser(phase: Phase, resyncs: nat, crcFails: nat, calls: seq<Frame>) {
    predicate Valid() {
      phase.Valid()
    }
  }

  const INIT := Parser(Hunt(0), 0, 0, [])

  function Step(p: Parser, b: byte): (q: Parser)
    requires p.Valid()
    ensures q.Valid()
  {
    match p.phase
    case Hunt(last) =>
      p.(phase := if last == MAGIC0 && b == MAGIC1 then InHeader([MAGIC0, MAGIC1]) else Hunt(b))
    case InHeader(got) =>
      var got := got + [b];
      if |got| < HEADER_LEN then p.(phase := InHeader(got))
      else HeaderDone(got, p.resyncs, p.crcFails, p.calls)
    case InPayload(h, payload) =>
      var payload := payload + [b];
      p.(phase := if |payload| < h.length then InPayload(h, payload) else InCrc(h, payload, []))
    case InCrc(h, payload, got) =>
      if got == [] then p.(phase := InCrc(h, payload, [b]))
      else if GetU16(got[0], b) != Crc.Of(HeaderBytes(h) + payload) then
        p.(phase := Hunt(MAGIC1), crcFails := p.crcFails + 1)
      else
        p.(phase := Hunt(MAGIC1), calls := p.calls + [Frame(h.kind, h.topicId, payload)])
  }

  /** Six header bytes are in: a length beyond the buffer sends the parser back to hunting. */
  function HeaderDone(got: seq<byte>, resyncs: nat, crcFails: nat, calls: seq<Frame>): (q: Parser)
    requires |got| == HEADER_LEN
    ensures q.Valid()
  {
    var h := Header(got[2], got[3], GetLength(got[4], got[5]));
    if h.length > BUFFER_SIZE then Parser(Hunt(got[5]), resyncs + 1, crcFails, calls)
    else Parser(if h.length == 0 then InCrc(h, [], []) else InPayload(h, []), resyncs, crcFails, calls)
  }

  /** The parser after data. */
  function Run(p: Parser, data: seq<byte>): (q: Parser)
    requires p.Valid()
    ensures q.Valid()
  {
    if data == [] then p else Step(Run(p, data[..|data| - 1]), data[|data| - 1])
  }

  lemma {:induction false} RunConcat(p: Parser, a: seq<byte>, b: seq<byte>)
    requires p.Valid()
    ensures Run(p, a + b) == Run(Run(p, a), b)
  {
    hide Step, Parser.Valid;
    if b == [] {
      assert a + b == a;
    } else {
      RunConcat(p, a, b[..|b| - 1]);
      assert (a + b)[..|a + b| - 1] == a + b[..|b| - 1];
    }
  }

  lemma RunOne(p: Parser, b: byte)
    requires p.Valid()
    ensures Run(p, [b]) == Step(p, b)
  {
    assert [b][..0] == [];
  }

  lemma {:induction false} RunCons(p: Parser, data: seq<byte>)
    requires p.Valid() && data != []
    ensures Run(p, data) == Run(Step(p, data[0]), data[1..])
  {
    RunConcat(p, data[..1], data[1..]);
    RunOne(p, data[0]);
    assert data == data[..1] + data[1..] && data[..1] == [data[0]];
  }

  /** Callbacks made are never taken back. */
  lemma {:induction false} CallsGrow(p: Parser, data: seq<byte>)
    requires p.Valid()
    ensures p.calls <= Run(p, data).calls
  {
    hide GetU16, GetLength, HeaderBytes;
    if data != [] {
      CallsGrow(p, data[..|data| - 1]);
      StepGrows(Run(p, data[..|data| - 1]), data[|data| - 1]);
    }
  }

  lemma StepGrows(p: Parser, b: byte)
    requires p.Valid()
    ensures p.calls <= Step(p, b).calls
  {
    hide GetU16, GetLength, HeaderBytes;
  }

  datatype State = HUNT_SYNC | WAIT_HEADER | WAIT_PAYLOAD | WAIT_CRC

  method Clear(a: array<byte>)
    modifies a
    ensures forall j | 0 <= j < a.Length :: a[j] == 0
  {
    forall j | 0 <= j < a.Length {
      a[j] := 0;
    }
  }

  class NrosStreamParser {
    var state: State
    const headerBuf: array<byte>
    var headerBytesHave: nat
    var header: Header
    var runningCrc: bv16
    const payloadBuf: array<byte>
    var payloadBytesHave: nat
    const crcBuf: array<byte>
    var crcBytesHave: nat
    var resyncCount: nat
    var crcFailCount: nat
    /** Every invocation of the frame callback so far. */
    var calls: seq<Frame>

    /** Buffer indices stay in range, and the running CRC covers what was read. */
    predicate Valid()
      reads this, headerBuf, payloadBuf, crcBuf
    {
      && headerBuf.Length == HEADER_LEN && payloadBuf.Length == BUFFER_SIZE && crcBuf.Length == CRC_LEN
      && headerBuf != payloadBuf && headerBuf != crcBuf && payloadBuf != crcBuf
      && payloadBytesHave <= BUFFER_SIZE && crcBytesHave <= CRC_LEN && headerBytesHave <= HEADER_LEN
      && Phase().Valid()
      && (state != HUNT_SYNC ==> headerBuf[0] == MAGIC0 && headerBuf[1] == MAGIC1)
      && (state == WAIT_PAYLOAD || state == WAIT_CRC ==>
            runningCrc == Crc.Of(HeaderBytes(header) + payloadBuf[..payloadBytesHave]))
    }

    function Phase(): Phase
      requires headerBuf.Length == HEADER_LEN && payloadBuf.Length == BUFFER_SIZE && crcBuf.Length == CRC_LEN
      requires payloadBytesHave <= BUFFER_SIZE && crcBytesHave <= CRC_LEN && headerBytesHave <= HEADER_LEN
      reads this, headerBuf, payloadBuf, crcBuf
    {
      match state
      case HUNT_SYNC => Hunt(headerBuf[1])
      case WAIT_HEADER => InHeader(headerBuf[..headerBytesHave])
      case WAIT_PAYLOAD => InPayload(header, payloadBuf[..payloadBytesHave])
      case WAIT_CRC => InCrc(header, payloadBuf[..payloadBytesHave], crcBuf[..crcBytesHave])
    }

    function Abs(): (p: Parser)
      requires Valid()
      reads this, headerBuf, payloadBuf, crcBuf
      ensures p.Valid()
    {
      Parser(Phase(), resyncCount, crcFailCount, calls)
    }

    constructor ()
      ensures Valid() && Abs() == INIT
      ensures fresh(headerBuf) && fresh(payloadBuf) && fresh(crcBuf)
    {
      state, headerBytesHave, header, runningCrc := HUNT_SYNC, 0, Header(0, 0, 0), 0;
      headerBuf := new byte[HEADER_LEN](_ => 0);
      payloadBuf := new byte[BUFFER_SIZE](_ => 0);
      crcBuf := new byte[CRC_LEN](_ => 0);
      payloadBytesHave, crcBytesHave, resyncCount, crcFailCount, calls := 0, 0, 0, 0, [];
    }

    /** nros_stream_parser_init */
    method Init()
      requires Valid()
      modifies this, headerBuf, payloadBuf, crcBuf
      ensures Valid() && Abs() == INIT
    {
      hide HeaderBytes, Crc.Of;
      Clear(headerBuf);
      Clear(payloadBuf);
      Clear(crcBuf);
      state, headerBytesHave, header, runningCrc := HUNT_SYNC, 0, Header(0, 0, 0), 0;
      payloadBytesHave, crcBytesHave, resyncCount, crcFailCount, calls := 0, 0, 0, 0, [];
    }

    method ResetToHunt(countAsResync: bool)
      modifies this`state, this`headerBytesHave, this`resyncCount
      ensures state == HUNT_SYNC && headerBytesHave == 0
      ensures resyncCount == old(resyncCount) + if countAsResync then 1 else 0
    {
      if countAsResync {
        resyncCount := resyncCount + 1;
      }
      state := HUNT_SYNC;
      headerBytesHave := 0;
    }

    method Feed(data: seq<byte>)
      requires Valid()
      modifies this, headerBuf, payloadBuf, crcBuf
      ensures Valid() && Abs() == Run(old(Abs()), data)
    {
      var i := 0;
      while i < |data|
        invariant 0 <= i <= |data|
        invariant Valid() && Abs() == Run(old(Abs()), data[..i])
      {
        assert data[..i + 1][..i] == data[..i];
        FeedByte(data[i]);
        i := i + 1;
      }
      assert data[..i] == data;
    }

    /** The body of the feed loop. */
    method FeedByte(b: byte)
      requires Valid()
      modifies this, headerBuf, payloadBuf, crcBuf
      ensures Valid() && Abs() == Step(old(Abs()), b)
    {
      match state {
        case HUNT_SYNC => HuntByte(b);
        case WAIT_HEADER => HeaderByte(b);
        case WAIT_PAYLOAD => PayloadByte(b);
        case WAIT_CRC => CrcByte(b);
      }
    }

    method HuntByte(b: byte)
      requires Valid() && state == HUNT_SYNC
      modifies this, headerBuf
      ensures Valid() && Abs() == Step(old(Abs()), b)
    {
      headerBuf[0] := headerBuf[1];
      headerBuf[1] := b;
      if headerBuf[0] == MAGIC0 && headerBuf[1] == MAGIC1 {
        headerBytesHave := 2;
        state := WAIT_HEADER;
        assert headerBuf[..2] == [MAGIC0, MAGIC1];
      }
    }

    method PayloadByte(b: byte)
      requires Valid() && state == WAIT_PAYLOAD
      modifies this, payloadBuf
      ensures Valid() && Abs() == Step(old(Abs()), b)
    {
      hide Crc.Of, Crc.Update, HeaderBytes, GetU16;
      ghost var before := payloadBuf[..payloadBytesHave];
      payloadBuf[payloadBytesHave] := b;
      payloadBytesHave := payloadBytesHave + 1;
      runningCrc := Crc.Crc16Update(runningCrc, b);
      assert payloadBuf[..payloadBytesHave] == before + [b];
      CrcNext(HeaderBytes(header) + before, b);
      assert HeaderBytes(header) + before + [b] == HeaderBytes(header) + (before + [b]);
      if payloadBytesHave >= header.length {
        crcBytesHave := 0;
        state := WAIT_CRC;
      }
    }

    method CrcByte(b: byte)
      requires Valid() && state == WAIT_CRC
      modifies this, crcBuf
      ensures Valid() && Abs() == Step(old(Abs()), b)
    {
      hide Crc.Of, HeaderBytes, GetU16;
      crcBuf[crcBytesHave] := b;
      crcBytesHave := crcBytesHave + 1;
      if crcBytesHave < 2 {
        assert crcBuf[..crcBytesHave] == [b];
        return;
      }
      var receivedCrc := GetU16(crcBuf[0], crcBuf[1]);
      if receivedCrc != runningCrc {
        crcFailCount := crcFailCount + 1;
        ResetToHunt(false);
        return;
      }
      calls := calls + [Frame(header.kind, header.topicId, payloadBuf[..header.length])];
      ResetToHunt(false);
    }

    method HeaderByte(b: byte)
      requires Valid() && state == WAIT_HEADER
      modifies this, headerBuf
      ensures Valid() && Abs() == Step(old(Abs()), b)
    {
      hide Crc.Of, HeaderBytes, GetU16, GetLength;
      ghost var before := headerBuf[..headerBytesHave];
      headerBuf[headerBytesHave] := b;
      headerBytesHave := headerBytesHave + 1;
      assert headerBuf[..headerBytesHave] == before + [b];
      if headerBytesHave >= headerBuf.Length {
        assert headerBuf[..] == before + [b];
        HeaderComplete(b);
      }
    }

    /** The sync checked out but the length is trash: the window for the next sync is seeded again. */
    method Reseed(b: byte)
      requires headerBuf.Length == HEADER_LEN && payloadBuf.Length == BUFFER_SIZE && crcBuf.Length == CRC_LEN
      requires headerBuf != payloadBuf && headerBuf != crcBuf && payloadBuf != crcBuf
      requires headerBytesHave == HEADER_LEN && crcBytesHave <= CRC_LEN && payloadBytesHave <= BUFFER_SIZE
      modifies this, headerBuf
      ensures Valid() && Abs() == Parser(Hunt(b), old(resyncCount) + 1, old(crcFailCount), old(calls))
    {
      hide Crc.Of, HeaderBytes;
      forall j | 0 <= j < HEADER_LEN - 1 {
        headerBuf[j] := headerBuf[j + 1];
      }
      ResetToHunt(true);
      headerBuf[0] := headerBuf[HEADER_LEN - 2];
      headerBuf[1] := b;
    }

    /** All six header bytes are in. */
    method HeaderComplete(b: byte)
      requires headerBuf.Length == HEADER_LEN && payloadBuf.Length == BUFFER_SIZE && crcBuf.Length == CRC_LEN
      requires headerBuf != payloadBuf && headerBuf != crcBuf && payloadBuf != crcBuf
      requires headerBuf[0] == MAGIC0 && headerBuf[1] == MAGIC1 && headerBuf[5] == b
      requires headerBytesHave == HEADER_LEN && crcBytesHave <= CRC_LEN && payloadBytesHave <= BUFFER_SIZE
      modifies this, headerBuf
      ensures Valid() && Abs() == HeaderDone(old(headerBuf[..]), old(resyncCount), old(crcFailCount), old(calls))
    {
      hide Crc.Of, GetU16, GetLength, PutLength;
      hide HeaderBytes;
      header := Header(headerBuf[2], headerBuf[3], GetLength(headerBuf[4], headerBuf[5]));
      if header.length > BUFFER_SIZE {
        Reseed(b);
        return;
      }
      HeaderRoundTrip(headerBuf[..]);
      runningCrc := Crc.Crc16Buf(headerBuf[..]);
      payloadBytesHave := 0;
      crcBytesHave := 0;
      state := if header.length == 0 then WAIT_CRC else WAIT_PAYLOAD;
      assert payloadBuf[..0] == [] && crcBuf[..0] == [];
      assert HeaderBytes(header) + payloadBuf[..0] == headerBuf[..];
    }
  }

  lemma CrcNext(data: seq<byte>, b: byte)
    ensures Crc.Of(data + [b]) == Crc.Update(Crc.Of(data), b)
  {
    assert (data + [b])[..|data|] == data;
  }

  /** Six header bytes with the magic are the bytes of the header they decode to. */
  lemma {:induction false} HeaderRoundTrip(raw: seq<byte>)
    requires |raw| == HEADER_LEN && raw[..2] == [MAGIC0, MAGIC1]
    ensures HeaderBytes(Header(raw[2], raw[3], GetLength(raw[4], raw[5]))) == raw
  {
    PutGetLength(raw[4], raw[5]);
    assert raw[0] == raw[..2][0] && raw[1] == raw[..2][1];
  }
}
