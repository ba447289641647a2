/** A message cut off before its end: when the generated deserializer returns true although the error
    flag is set, told from the message, the number of bytes that arrived, and the type. */
module Truncation {
  import opened Bytes
  import opened Cdr
  import opened FieldTree
  import opened MicroCdr
  import opened Serde

  // ---- types that do not end in a string ----

  /** When the last leaf is no string, true means that nothing failed. */
  lemma {:induction false} LastLeafTells(b: Buffer, leaves: seq<Leaf>, stale: seq<Stale>)
    requires b.Valid() && b.Aligned() && !b.error && ValidLeaves(leaves) && |stale| == |leaves|
    requires leaves == [] || leaves[|leaves| - 1] != One(String)
    ensures var r := ReadLeaves(b, leaves, stale); r.ok <==> !r.buf.error
  {
    hide ReadLeaf, ReadLeaves, Leaf.Valid, Buffer.Valid, Buffer.Aligned;
    TrueDespiteError(b, leaves, stale);
    NoTailToCut(b, leaves, stale);
  }

  lemma {:induction false} NoTailToCut(b: Buffer, leaves: seq<Leaf>, stale: seq<Stale>)
    requires b.Valid() && b.Aligned() && ValidLeaves(leaves) && |stale| == |leaves|
    requires leaves == [] || leaves[|leaves| - 1] != One(String)
    ensures !CutInTail(b, leaves, stale)
    decreases leaves
  {
    hide ReadLeaf, Leaf.Valid, Buffer.Valid, Buffer.Aligned;
    if leaves != [] {
      NoTailToCut(ReadLeaf(b, leaves[0], stale[0]).buf, leaves[1..], stale[1..]);
    }
  }

  // ---- reading from the front part of a message ----

  /** b holds the first bytes of full, and ops start in full where b's cursor is. */
  predicate Front(b: Buffer, full: seq<byte>, ops: seq<Op>)
    requires ValidOps(ops)
  {
    && b.Valid() && b.Aligned() && !b.error
    && b.mem <= full && Holds(ops, full, b.iter, b.offset)
  }

  /** When a leaf is there completely it is read back. */
  lemma {:induction false} FrontRead(b: Buffer, full: seq<byte>, leaf: Leaf, content: seq<byte>, stale: Stale,
                                     rest: seq<Op>)
    requires leaf.Valid() && LeafConforms(leaf, content) && ValidOps(rest)
    requires Front(b, full, LeafOps(leaf, content) + rest)
    requires Size(LeafOps(leaf, content), b.offset) <= b.Room()
    ensures var r := ReadLeaf(b, leaf, stale);
            var n := Size(LeafOps(leaf, content), b.offset);
            && r.ok && r.content == content && Front(r.buf, full, rest)
            && r.buf.offset == b.offset + n && r.buf.Room() == b.Room() - n
  {
    hide Sum, Mod, Pad, Get, Holds, Size, Op.Valid, LeafOps, ReadLeaf, LeafConforms;
    var ops := LeafOps(leaf, content);
    HoldsParts(ops, rest, full, b.iter, b.offset);
    assert full[0..|b.mem|] == b.mem;
    HoldsInPart(ops, full, b.iter, b.offset, 0, |b.mem|);
    assert ops + [] == ops;
    ReadLeafBack(b, leaf, content, stale, []);
  }

  /** When it is cut off the call fails, and the flag is set. */
  lemma {:induction false} CutRead(b: Buffer, full: seq<byte>, leaf: Leaf, content: seq<byte>, stale: Stale)
    requires leaf.Valid() && LeafConforms(leaf, content) && Front(b, full, LeafOps(leaf, content))
    requires Size(LeafOps(leaf, content), b.offset) > b.Room()
    ensures ReadLeaf(b, leaf, stale).buf.error
  {
    hide Sum, Mod, Pad, Get, Holds, Size, Op.Valid, PutU32, GetU32;
    var ops := LeafOps(leaf, content);
    SizeCons(ops, b.offset);
    if leaf == One(String) {
      CutString(b, full, content, stale);
    } else {
      NoSize(ops, b.offset + ops[0].Shp().Size(b.offset));
      LeafShapeValid(leaf);
      GetExact(b, LeafShape(leaf));
    }
  }

  lemma {:induction false} CutString(b: Buffer, full: seq<byte>, content: seq<byte>, stale: Stale)
    requires LeafConforms(One(String), content) && Front(b, full, LeafOps(One(String), content))
    requires Size(LeafOps(One(String), content), b.offset) > b.Room()
    ensures GetString(b, stale).buf.error
  {
    hide Sum, Mod, Pad, Get, Holds, Size, PutU32, GetU32;
    var ops := LeafOps(One(String), content);
    ScalarShape(4);
    GetExact(b, Shape(Scalar, 4, 4));
    var (c, raw) := Get(b, Shape(Scalar, 4, 4));
    if c.error {
      ReadStringTail(c, stale.length);
    } else {
      assert ops == [ops[0]] + [ops[1]];
      HoldsParts([ops[0]], [ops[1]], full, b.iter, b.offset);
      assert full[0..|b.mem|] == b.mem;
      SizeOfOne(ops[0], b.offset);
      SizeOfTwo(ops[0], ops[1], b.offset);
      HoldsInPart([ops[0]], full, b.iter, b.offset, 0, |b.mem|);
      GetHeld(b, [ops[0]]);
      GetExact(c, Shape(Block, 1, |content| + 1));
    }
  }

  // ---- whole messages ----

  /** Bytes of the message, padding included, before its leaf j. */
  function StartOf(leaves: seq<Leaf>, contents: seq<seq<byte>>, pos: nat, j: nat): nat
    requires ValidLeaves(leaves) && LeavesConform(leaves, contents) && j <= |leaves|
  {
    Size(Ops(leaves[..j], contents[..j]), pos)
  }

  /** Of the message room bytes arrived, and they end in the padding or the four bytes of the length
      that a string at leaf j would start with. */
  predicate CutAt(leaves: seq<Leaf>, contents: seq<seq<byte>>, pos: nat, room: nat, j: nat)
    requires ValidLeaves(leaves) && LeavesConform(leaves, contents) && j < |leaves|
  {
    var start := StartOf(leaves, contents, pos, j);
    start <= room < start + Shape(Scalar, 4, 4).Size(pos + start)
  }

  lemma StartOfFirst(leaves: seq<Leaf>, contents: seq<seq<byte>>, pos: nat)
    requires ValidLeaves(leaves) && LeavesConform(leaves, contents)
    ensures StartOf(leaves, contents, pos, 0) == 0
  {
    assert leaves[..0] == [] && contents[..0] == [];
  }

  lemma StartOfNext(leaves: seq<Leaf>, contents: seq<seq<byte>>, pos: nat, j: nat)
    requires ValidLeaves(leaves) && LeavesConform(leaves, contents) && j < |leaves|
    ensures leaves[0].Valid() && LeafConforms(leaves[0], contents[0])
    ensures ValidLeaves(leaves[1..]) && LeavesConform(leaves[1..], contents[1..])
    ensures var n := Size(LeafOps(leaves[0], contents[0]), pos);
            StartOf(leaves, contents, pos, j + 1) == n + StartOf(leaves[1..], contents[1..], pos + n, j)
  {
    hide LeafOps, Leaf.Valid, LeafConforms, Size, ValidOps;
    assert leaves[..j + 1][1..] == leaves[1..][..j] && contents[..j + 1][1..] == contents[1..][..j];
    SizeConcat(LeafOps(leaves[0], contents[0]), Ops(leaves[1..][..j], contents[1..][..j]), pos);
  }

  lemma CutAtNext(leaves: seq<Leaf>, contents: seq<seq<byte>>, pos: nat, room: nat, j: nat)
    requires ValidLeaves(leaves) && LeavesConform(leaves, contents) && j + 1 < |leaves|
    ensures leaves[0].Valid() && LeafConforms(leaves[0], contents[0])
    ensures ValidLeaves(leaves[1..]) && LeavesConform(leaves[1..], contents[1..])
    ensures var n := Size(LeafOps(leaves[0], contents[0]), pos);
            CutAt(leaves, contents, pos, room, j + 1) <==>
            (n <= room && CutAt(leaves[1..], contents[1..], pos + n, room - n, j))
  {
    hide StartOf, Shape.Size, LeafOps, Leaf.Valid, LeafConforms, Size;
    StartOfNext(leaves, contents, pos, j);
  }

  /** The cut is at the length of one of the strings at the message's end, and the stale lengths from
      there on are all zero. */
  predicate Unnoticed(leaves: seq<Leaf>, contents: seq<seq<byte>>, stale: seq<Stale>, pos: nat, room: nat)
    requires ValidLeaves(leaves) && LeavesConform(leaves, contents) && |stale| == |leaves|
  {
    exists j | 0 <= j < |leaves| :: CutAt(leaves, contents, pos, room, j) && AllStale(leaves[j..], stale[j..])
  }

  /** The first leaf arrived: the cut, if any, is in the rest. */
  lemma UnnoticedLater(leaves: seq<Leaf>, contents: seq<seq<byte>>, stale: seq<Stale>, pos: nat, room: nat)
    requires ValidLeaves(leaves) && LeavesConform(leaves, contents) && |stale| == |leaves| > 0
    ensures leaves[0].Valid() && LeafConforms(leaves[0], contents[0])
    ensures ValidLeaves(leaves[1..]) && LeavesConform(leaves[1..], contents[1..])
    ensures var n := Size(LeafOps(leaves[0], contents[0]), pos);
            n <= room ==>
              (Unnoticed(leaves, contents, stale, pos, room) <==>
               Unnoticed(leaves[1..], contents[1..], stale[1..], pos + n, room - n))
  {
    hide CutAt, AllStale, StartOf, LeafOps, Leaf.Valid, LeafConforms, Size, Shape.Size;
    var n := Size(LeafOps(leaves[0], contents[0]), pos);
    if n <= room {
      forall j | 0 <= j < |leaves| - 1
        ensures CutAt(leaves, contents, pos, room, j + 1) <==>
                CutAt(leaves[1..], contents[1..], pos + n, room - n, j)
        ensures leaves[1..][j..] == leaves[j + 1..] && stale[1..][j..] == stale[j + 1..]
      {
        CutAtNext(leaves, contents, pos, room, j);
      }
      NotCutAtFirst(leaves, contents, stale, pos, room);
      if Unnoticed(leaves, contents, stale, pos, room) {
        var j :| 0 <= j < |leaves| && CutAt(leaves, contents, pos, room, j) && AllStale(leaves[j..], stale[j..]);
        assert j > 0;
        CutAtNext(leaves, contents, pos, room, j - 1);
        assert leaves[1..][j - 1..] == leaves[j..] && stale[1..][j - 1..] == stale[j..];
      }
      if Unnoticed(leaves[1..], contents[1..], stale[1..], pos + n, room - n) {
        var j :| 0 <= j < |leaves| - 1 && CutAt(leaves[1..], contents[1..], pos + n, room - n, j)
          && AllStale(leaves[1..][j..], stale[1..][j..]);
        assert CutAt(leaves, contents, pos, room, j + 1);
      }
    }
  }

  lemma NotCutAtFirst(leaves: seq<Leaf>, contents: seq<seq<byte>>, stale: seq<Stale>, pos: nat, room: nat)
    requires ValidLeaves(leaves) && LeavesConform(leaves, contents) && |stale| == |leaves| > 0
    requires leaves[0].Valid() && LeafConforms(leaves[0], contents[0])
    ensures CutAt(leaves, contents, pos, room, 0) <==> room < Shape(Scalar, 4, 4).Size(pos)
    ensures Size(LeafOps(leaves[0], contents[0]), pos) <= room && CutAt(leaves, contents, pos, room, 0) ==>
              !AllStale(leaves[0..], stale[0..])
  {
    hide Pad, Mod, StartOf, Size, PutU32;
    StartOfFirst(leaves, contents, pos);
    if leaves[0] == One(String) {
      var ops := LeafOps(leaves[0], contents[0]);
      SizeOfTwo(ops[0], ops[1], pos);
    }
  }

  /** The first leaf did not arrive: the cut is there or nowhere. */
  lemma UnnoticedNow(leaves: seq<Leaf>, contents: seq<seq<byte>>, stale: seq<Stale>, pos: nat, room: nat)
    requires ValidLeaves(leaves) && LeavesConform(leaves, contents) && |stale| == |leaves| > 0
    requires leaves[0].Valid() && LeafConforms(leaves[0], contents[0])
    requires Size(LeafOps(leaves[0], contents[0]), pos) > room
    ensures Unnoticed(leaves, contents, stale, pos, room) <==>
            (room < Shape(Scalar, 4, 4).Size(pos) && AllStale(leaves, stale))
  {
    hide CutAt, AllStale, StartOf, LeafOps, Leaf.Valid, LeafConforms, Size, Shape.Size;
    NotCutAtFirst(leaves, contents, stale, pos, room);
    assert leaves[0..] == leaves && stale[0..] == stale;
    forall j | 0 < j < |leaves|
      ensures !CutAt(leaves, contents, pos, room, j)
    {
      CutAtNext(leaves, contents, pos, room, j - 1);
    }
  }

  /** From the first bytes of a message the deserializer reads without error iff all of it is there; it
      returns true in spite of an error iff the cut is unnoticed. */
  lemma {:induction false} CutExact(b: Buffer, full: seq<byte>, leaves: seq<Leaf>, contents: seq<seq<byte>>,
                                    stale: seq<Stale>)
    requires ValidLeaves(leaves) && LeavesConform(leaves, contents) && |stale| == |leaves|
    requires Front(b, full, Ops(leaves, contents))
    ensures var r := ReadLeaves(b, leaves, stale);
            && (!r.buf.error <==> Size(Ops(leaves, contents), b.offset) <= b.Room())
            && (r.ok && r.buf.error <==> Unnoticed(leaves, contents, stale, b.offset, b.Room()))
    decreases leaves
  {
    hide Size, ReadLeaf, LeafOps, LeafConforms, Leaf.Valid, Buffer.Room, AllStale, CutAt, Shape.Size;
    hide Buffer.Valid, Buffer.Aligned, Holds;
    if leaves == [] {
      NothingCut(b, full);
    } else {
      hide Unnoticed;
      var first := LeafOps(leaves[0], contents[0]);
      var rest := Ops(leaves[1..], contents[1..]);
      SizeConcat(first, rest, b.offset);
      UnnoticedLater(leaves, contents, stale, b.offset, b.Room());
      LeafTrueDespiteError(b, leaves[0], stale[0]);
      AllStaleCons(leaves, stale);
      var r := ReadLeaf(b, leaves[0], stale[0]);
      if Size(first, b.offset) <= b.Room() {
        FrontRead(b, full, leaves[0], contents[0], stale[0], rest);
        CutExact(r.buf, full, leaves[1..], contents[1..], stale[1..]);
      } else {
        UnnoticedNow(leaves, contents, stale, b.offset, b.Room());
        FirstPart(b, full, first, rest);
        CutRead(b, full, leaves[0], contents[0], stale[0]);
        ReadLeavesStick(r.buf, leaves[1..], stale[1..]);
      }
    }
  }

  lemma NothingCut(b: Buffer, full: seq<byte>)
    requires Front(b, full, [])
    ensures b.Valid() && !b.error && Size([], b.offset) == 0 <= b.Room()
  {
  }

  lemma FirstPart(b: Buffer, full: seq<byte>, x: seq<Op>, y: seq<Op>)
    requires ValidOps(x) && ValidOps(y) && Front(b, full, x + y)
    ensures Front(b, full, x)
  {
    hide Holds;
    HoldsParts(x, y, full, b.iter, b.offset);
  }

  predicate OnlyStrings(leaves: seq<Leaf>) {
    forall j | 0 <= j < |leaves| :: leaves[j] == One(String)
  }

  /** Some stale lengths make the deserializer return true on a buffer it put into the error state. */
  ghost predicate CanMislead(b: Buffer, leaves: seq<Leaf>)
    requires b.Valid() && b.Aligned() && ValidLeaves(leaves)
  {
    exists stale: seq<Stale> | |stale| == |leaves| ::
      var r := ReadLeaves(b, leaves, stale); r.ok && r.buf.error
  }

  /** Told before the call: iff the message was cut at the length of a string that has only strings
      behind it. */
  lemma {:induction false} MisleadsIff(b: Buffer, full: seq<byte>, leaves: seq<Leaf>, contents: seq<seq<byte>>)
    requires ValidLeaves(leaves) && LeavesConform(leaves, contents) && Front(b, full, Ops(leaves, contents))
    ensures CanMislead(b, leaves) <==>
            exists j | 0 <= j < |leaves| :: CutAt(leaves, contents, b.offset, b.Room(), j) && OnlyStrings(leaves[j..])
  {
    hide Front, ReadLeaves, CutAt, Ops, LeavesConform, ValidLeaves, Buffer.Valid, Buffer.Aligned, Buffer.Room;
    FrontValid(b, full, Ops(leaves, contents));
    if CanMislead(b, leaves) {
      var stale: seq<Stale> :| |stale| == |leaves| &&
        var r := ReadLeaves(b, leaves, stale); r.ok && r.buf.error;
      CutExact(b, full, leaves, contents, stale);
    }
    if j :| 0 <= j < |leaves| && CutAt(leaves, contents, b.offset, b.Room(), j) && OnlyStrings(leaves[j..]) {
      var zeros := seq(|leaves|, i => Stale(0, []));
      CutExact(b, full, leaves, contents, zeros);
      assert AllStale(leaves[j..], zeros[j..]);
      assert var r := ReadLeaves(b, leaves, zeros); r.ok && r.buf.error;
    }
  }

  lemma FrontValid(b: Buffer, full: seq<byte>, ops: seq<Op>)
    requires ValidOps(ops) && Front(b, full, ops)
    ensures b.Valid() && b.Aligned() && !b.error
  {
  }

  /** Nothing arrived for a type with one string: with a zero where the length would be read, what the
      destination held is passed on as the message. */
  lemma {:induction false} NothingMisleads(b: Buffer, chars: seq<byte>)
    requires b.Valid() && b.Aligned() && !b.error && b.Room() == 0
    ensures var r := ReadLeaves(b, [One(String)], [Stale(0, chars)]);
            r.ok && r.buf.error && r.contents == [chars]
  {
    hide Get, GetString, Buffer.Valid, Buffer.Aligned, Buffer.Room, Pad, Mod;
    assert [One(String)][1..] == [] && [Stale(0, chars)][1..] == [];
    StringTrueDespiteError(b, Stale(0, chars));
    StaleChars(b, chars);
  }

  lemma StaleChars(b: Buffer, chars: seq<byte>)
    requires b.Valid() && b.Aligned() && !b.error && b.Room() == 0
    ensures GetString(b, Stale(0, chars)).content == chars
  {
    hide Get, Sum, Pad, Mod;
    ScalarShape(4);
    GetExact(b, Shape(Scalar, 4, 4));
  }

  /** Such is the buffer over an empty payload. */
  lemma EmptyPayload()
    ensures var b := InitBuffer([], 0, [], 0, 0); b.Valid() && b.Aligned() && !b.error && b.Room() == 0
  {
  }
}
