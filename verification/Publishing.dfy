/** The payload of a published message: the encapsulation header and the message's CDR form, which
    starts its own stream behind the header. */
module Publishing {
  import opened Bytes
  import opened Protocol
  import opened FieldTree
  import opened MicroCdr
  import opened Slots
  import opened UcdrBuffer
  import opened Serde
  import opened GeneratedCode
  import opened SizeAnalysis
  import opened SizeTheorems
  import opened LongestMessages
  import Cdr

  /** CDR_LE of section 10.2 of DDSI-RTPS 2.2. */
  const ENCAP_HEADER: seq<byte> := [0x00, 0x01, 0x00, 0x00]

  function PayloadSize(fields: seq<Field>, msg: seq<Value>): nat
    requires Writable(fields, msg)
  {
    ENCAP_HEADER_LEN + Cdr.Size(MessageOps(fields, msg), 0)
  }

  /** The bytes published; padding keeps what the payload buffer held before. */
  function DataPayload(fields: seq<Field>, msg: seq<Value>, stale: seq<byte>): (payload: seq<byte>)
    requires Writable(fields, msg) && |stale| == BUFFER_SIZE && PayloadSize(fields, msg) <= BUFFER_SIZE
    ensures |payload| == PayloadSize(fields, msg) && payload[..4] == [0x00, 0x01, 0x00, 0x00]
  {
    var ops := MessageOps(fields, msg);
    ENCAP_HEADER + Cdr.Image(ops, stale[ENCAP_HEADER_LEN..], 0, 0)[..Cdr.Size(ops, 0)]
  }

  /** What nros_publish does before it frames: nothing useful is left when the message does not fit. */
  method WritePayload(fields: seq<Field>, msg: seq<Value>, data: array<byte>) returns (ok: bool, len: nat)
    requires data.Length == BUFFER_SIZE && Writable(fields, msg)
    modifies data
    ensures ok <==> PayloadSize(fields, msg) <= BUFFER_SIZE
    ensures ok ==> len == PayloadSize(fields, msg) && data[..len] == DataPayload(fields, msg, old(data[..]))
    ensures ok ==> len >= 4 && data[..4] == [0x00, 0x01, 0x00, 0x00]
  {
    hide Cdr.Image, Cdr.Size, PutAll, Writable, MessageOps, Sum, Cdr.ValidOps, Around, Gather, Elsewhere;
    hide Buffer.Valid, Buffer.Aligned, Returned, Ucdr.Placed, Buffer.Room;
    forall j | 0 <= j < ENCAP_HEADER_LEN {
      data[j] := ENCAP_HEADER[j];
    }
    var ub := new Ucdr.FromStart(data, ENCAP_HEADER_LEN);
    ghost var start, header := ub.Abs(), data[..];
    assert header[..ENCAP_HEADER_LEN] == ENCAP_HEADER;
    assert header[ENCAP_HEADER_LEN..] == old(data[..])[ENCAP_HEADER_LEN..];
    FreshSlot(start);
    ub.MemoryIs();
    ok := SerializeFields(fields, msg, ub);
    ub.MemoryIs();
    ub.Seen(0);
    SerializerExact(start, fields, msg, ub.Abs(), ok);
    PutAllSlot(start, MessageOps(fields, msg));
    TailWritten(header, data[..], ENCAP_HEADER_LEN);
    len := 0;
    if ok {
      len := ub.Length();
      FirstOfTwo(ENCAP_HEADER, ub.Abs().mem, len);
      len := ENCAP_HEADER_LEN + len;
      assert data[..len][..4] == data[..4];
    }
  }

  lemma FirstOfTwo(a: seq<byte>, b: seq<byte>, n: nat)
    requires n <= |b|
    ensures (a + b)[..|a| + n] == a + b[..n]
  {
  }

  /** A memory whose one slot is everything from start on: what is before it stays. */
  lemma TailWritten(before: seq<byte>, after: seq<byte>, start: nat)
    requires |before| == |after| && start <= |after|
    requires var slots := [Slot(start, |after| - start)]; Around(after, slots) == Around(before, slots)
    ensures var slots := [Slot(start, |after| - start)];
            Apart(slots, |after|) && after == before[..start] + Gather(after, slots)
  {
    hide Gather;
    var slots := [Slot(start, |after| - start)];
    GatherTail(after, start);
    forall a: nat | a < start
      ensures after[a] == before[a]
    {
      assert Elsewhere(slots, a);
      assert Around(after, slots).bytes[a] == Around(before, slots).bytes[a];
    }
    assert after[..start] == before[..start];
  }

  lemma FreshSlot(b: Buffer)
    requires |b.mem| == BUFFER_SIZE - ENCAP_HEADER_LEN && b == InitBuffer(b.mem, |b.mem|, [], 0, 0)
    ensures b.Valid() && b.Aligned() && b.Room() == BUFFER_SIZE - ENCAP_HEADER_LEN
  {
  }

  /** The type passed the generated size check, and the bound checked is one. */
  predicate Checked(fields: seq<Field>) {
    LongestFits(fields) && MaxPayloadSize(fields) <= MAX_PAYLOAD
  }

  /** A topic that passed the generated size check always fits, with its frame, in one buffer. */
  lemma {:induction false} CheckedTopicFits(fields: seq<Field>, msg: seq<Value>)
    requires Writable(fields, msg) && Checked(fields)
    ensures PayloadSize(fields, msg) <= MAX_PAYLOAD
    ensures HEADER_LEN + PayloadSize(fields, msg) + CRC_LEN <= BUFFER_SIZE
  {
    hide Cdr.Size, MaxSize, Conforms, Leaves, Flatten;
    BoundExact(fields);
  }

  /** What is published is the encapsulation header and a stream from which the generated deserializer
      reads the message back, using all of it. */
  lemma {:induction false} PayloadReadsBack(fields: seq<Field>, msg: seq<Value>, stale: seq<byte>, before: seq<Stale>)
    requires Writable(fields, msg) && |stale| == BUFFER_SIZE && PayloadSize(fields, msg) <= BUFFER_SIZE
    requires |before| == |Leaves(fields)|
    ensures var payload := DataPayload(fields, msg, stale);
            var cdr := payload[ENCAP_HEADER_LEN..];
            var b := InitBuffer(cdr, |cdr|, [], 0, 0);
            && payload[..4] == [0x00, 0x01, 0x00, 0x00]
            && b.Valid() && b.Aligned()
            && var r := ReadLeaves(b, Leaves(fields), before);
               r.ok && r.contents == Flatten(msg) && View(r.buf) == Cursor(|cdr|, |cdr|, false)
  {
    hide Cdr.Image, Cdr.Size, Cdr.Holds, Cdr.Op.Valid, Leaf.Valid, LeafConforms, ReadLeaves, Leaves, Flatten;
    var ops, n := MessageOps(fields, msg), Cdr.Size(MessageOps(fields, msg), 0);
    var mem := stale[ENCAP_HEADER_LEN..];
    var image := Cdr.Image(ops, mem, 0, 0);
    var cdr := DataPayload(fields, msg, stale)[ENCAP_HEADER_LEN..];
    assert cdr == image[0..n];
    Cdr.ImageHolds(ops, mem, 0, 0);
    Cdr.HoldsInPart(ops, image, 0, 0, 0, n);
    InitAligned(cdr, |cdr|, [], 0, 0);
    ReadLeavesBack(InitBuffer(cdr, |cdr|, [], 0, 0), Leaves(fields), Flatten(msg), before);
  }

  /** The header declares little-endian CDR, and that is what follows: a message that starts with a string
      starts with its length, terminator included, least significant byte first, then the characters. */
  lemma {:induction false} LeadingString(fields: seq<Field>, msg: seq<Value>, stale: seq<byte>)
    requires Writable(fields, msg) && |stale| == BUFFER_SIZE && PayloadSize(fields, msg) <= BUFFER_SIZE
    requires fields != [] && fields[0].ty == Primitive(String)
    ensures msg != [] && msg[0].Leaf? && |msg[0].content| < 256
    ensures var payload, text := DataPayload(fields, msg, stale), msg[0].content;
            var n := |text| + 1;
            && |payload| >= 8 + n && payload[..4] == [0x00, 0x01, 0x00, 0x00]
            && payload[4] as nat == n % 256 && payload[5] as nat == n / 256 && payload[6] == 0 && payload[7] == 0
            && payload[8..8 + |text|] == text && payload[8 + |text|] == 0
  {
    hide Cdr.Image, Cdr.Size, Cdr.Holds, Writable, PutU32, Cdr.Op.Valid;
    StringFirst(fields, msg);
    var ops, n := MessageOps(fields, msg), Cdr.Size(MessageOps(fields, msg), 0);
    var mem := stale[ENCAP_HEADER_LEN..];
    var image := Cdr.Image(ops, mem, 0, 0);
    Cdr.ImageHolds(ops, mem, 0, 0);
    StringHeld(ops, image, msg[0].content);
    SmallWord(|msg[0].content| + 1);
    StringPlaced(DataPayload(fields, msg, stale), image[..n], image, msg[0].content);
  }

  lemma StringPlaced(payload: seq<byte>, cdr: seq<byte>, image: seq<byte>, text: seq<byte>)
    requires 5 + |text| <= |cdr| && cdr <= image && |payload| == 4 + |cdr| && payload[4..] == cdr
    requires image[4..5 + |text|] == text + [0]
    ensures forall j | 0 <= j < 4 :: payload[4 + j] == image[0..4][j]
    ensures payload[8..8 + |text|] == text && payload[8 + |text|] == 0
  {
    assert forall j | 0 <= j < |cdr| :: payload[4 + j] == cdr[j] == image[j];
    assert forall j | 0 <= j < |text| :: payload[8 + j] == image[4..5 + |text|][j] == text[j];
    assert payload[8 + |text|] == image[4..5 + |text|][|text|];
  }

  /** The calls for a string at the front. */
  lemma StringFirst(fields: seq<Field>, msg: seq<Value>)
    requires Writable(fields, msg) && fields != [] && fields[0].ty == Primitive(String)
    ensures msg != [] && msg[0].Leaf? && LeafConforms(One(String), msg[0].content)
    ensures 2 <= |MessageOps(fields, msg)| && MessageOps(fields, msg)[..2] == LeafOps(One(String), msg[0].content)
  {
    hide Writable, PutU32, ValidLeaves;
    WritableCons(fields, msg);
    var v := msg[0];
    assert FlattenOf(v)[0] == v.content && LeavesOf(fields[0].ty) == [One(String)];
    OpsCons([One(String)], FlattenOf(v));
    assert Ops([One(String)][1..], FlattenOf(v)[1..]) == [];
  }

  lemma StringHeld(ops: seq<Cdr.Op>, mem: seq<byte>, text: seq<byte>)
    requires Cdr.ValidOps(ops) && Cdr.Holds(ops, mem, 0, 0)
    requires LeafConforms(One(String), text) && 2 <= |ops| && ops[..2] == LeafOps(One(String), text)
    ensures 5 + |text| <= Cdr.Size(ops, 0) <= |mem|
    ensures mem[0..4] == PutU32(|text| + 1) && mem[4..5 + |text|] == text + [0]
  {
    hide Cdr.Holds, Cdr.Size, Cdr.Pad, Cdr.ValidOps, PutU32;
    assert ops[0] == ops[..2][0] && ops[1] == ops[..2][1];
    Cdr.SizeCons(ops, 0);
    FirstHeld(ops, mem, 0);
    FirstHeld(ops[1..], mem, 4);
  }

  /** An operation that needs no padding stands at the front. */
  lemma FirstHeld(ops: seq<Cdr.Op>, mem: seq<byte>, at: nat)
    requires ops != [] && Cdr.ValidOps(ops) && Cdr.Holds(ops, mem, at, at)
    requires (at == 0 && ops[0].align == 4) || (at == 4 && ops[0].align == 1)
    ensures Cdr.ValidOps(ops[1..])
    ensures var n := |ops[0].content|;
            && Cdr.Size(ops, at) == n + Cdr.Size(ops[1..], at + n) && at + Cdr.Size(ops, at) <= |mem|
            && mem[at..at + n] == ops[0].content && Cdr.Holds(ops[1..], mem, at + n, at + n)
  {
    hide Cdr.Holds, Cdr.Size, Cdr.Pad;
    NoPadding();
    Cdr.HoldsCons(ops, mem, at, at);
    Cdr.SizeCons(ops, at);
  }

  lemma NoPadding()
    ensures Cdr.Pad(0, 4) == 0 && Cdr.Pad(4, 1) == 0
  {
  }

  lemma SmallWord(n: nat)
    requires n <= 256
    ensures var s := PutU32(n);
            s[0] as nat == n % 256 && s[1] as nat == n / 256 && s[2] == 0 && s[3] == 0
  {
    hide ByteOf;
    ZeroLength();
  }

  lemma ZeroLength()
    ensures PutLength(0) == [0, 0]
  {
  }
}
