/** The generated serializer and deserializer, which walk a message type field by field and make one
    Micro-CDR call for each leaf. */
module Serde {
  import opened Bytes
  import opened Cdr
  import opened FieldTree
  import opened MicroCdr
  import opened UcdrBuffer

  // ---- what a deserialize call yields ----

  /** The buffer afterwards, the bytes read, and what the call returned. */
  datatype Reading = Reading(buf: Buffer, content: seq<byte>, ok: bool)

  /** The characters before the first terminator. */
  function Chars(bytes: seq<byte>): (s: seq<byte>)
    ensures 0 !in s && s <= bytes
  {
    if bytes == [] || bytes[0] == 0 then [] else [bytes[0]] + Chars(bytes[1..])
  }

  /** What is in memory before a string is read: in the local for the length, which nobody
      initialises, and in the destination. */
  datatype Stale = Stale(length: nat, chars: seq<byte>)

  /** ucdr_deserialize_string. When the read of the length fails the local keeps its stale value; a
      string of length zero leaves the destination alone. */
  function GetString(b: Buffer, stale: Stale): (r: Reading)
    requires b.Valid() && b.Aligned()
    ensures r.buf.Valid() && r.buf.Aligned()
  {
    GetValid(b, Shape(Scalar, 4, 4));
    var (c, raw) := Get(b, Shape(Scalar, 4, 4));
    var length := if c.error then stale.length else GetU32(raw);
    var d := if length > STRING_CAPACITY then c.(error := true) else c;
    if length == 0 then Reading(d, stale.chars, true)
    else
      GetValid(d, Shape(Block, 1, length));
      var (e, bytes) := Get(d, Shape(Block, 1, length));
      Reading(e, Chars(bytes), !e.error)
  }

  function ReadLeaf(b: Buffer, leaf: Leaf, stale: Stale): (r: Reading)
    requires b.Valid() && b.Aligned() && leaf.Valid()
    ensures r.buf.Valid() && r.buf.Aligned()
  {
    if leaf == One(String) then GetString(b, stale)
    else
      LeafShapeValid(leaf);
      GetValid(b, LeafShape(leaf));
      var (c, bytes) := Get(b, LeafShape(leaf));
      Reading(c, if leaf == One(Bool) && !c.error then [Truth(bytes[0])] else bytes, !c.error)
  }

  /** What a C bool holds after any nonzero byte was assigned to it. */
  function Truth(b: byte): byte {
    if b == 0 then 0 else 1
  }

  function LeafShape(leaf: Leaf): Shape
    requires leaf.Valid() && leaf != One(String)
  {
    match leaf
    case One(p) => Shape(Scalar, p.Size(), p.Size())
    case Many(p, n) => Shape(Block, p.Size(), Span(n, p.Size()))
  }

  lemma LeafShapeValid(leaf: Leaf)
    requires leaf.Valid() && leaf != One(String)
    ensures LeafShape(leaf).Valid()
  {
    match leaf
    case One(p) => ScalarShape(p.Size());
    case Many(p, n) => SpanDivides(n, p.Size());
  }

  /** The leaves in order; what is returned is the conjunction, and no call is skipped. */
  datatype Readings = Readings(buf: Buffer, contents: seq<seq<byte>>, ok: bool)

  function ReadLeaves(b: Buffer, leaves: seq<Leaf>, stale: seq<Stale>): (r: Readings)
    requires b.Valid() && b.Aligned() && ValidLeaves(leaves) && |stale| == |leaves|
    ensures r.buf.Valid() && r.buf.Aligned() && |r.contents| == |leaves|
    decreases leaves
  {
    if leaves == [] then Readings(b, [], true)
    else
      var first := ReadLeaf(b, leaves[0], stale[0]);
      var rest := ReadLeaves(first.buf, leaves[1..], stale[1..]);
      Readings(rest.buf, [first.content] + rest.contents, first.ok && rest.ok)
  }

  // ---- reading back what was written ----

  /** The buffer has read the first operation of those that follow it in memory. */
  lemma GetHeld(b: Buffer, ops: seq<Op>)
    requires b.Valid() && b.Aligned() && !b.error && ops != [] && ValidOps(ops)
    requires Holds(ops, b.mem, b.iter, b.offset)
    ensures var (c, bytes) := Get(b, ops[0].Shp());
            var n := ops[0].Shp().Size(b.offset);
            && c.Valid() && c.Aligned() && c.mem == b.mem && View(c) == Cursor(b.iter + n, b.offset + n, false)
            && bytes == ops[0].content && Holds(ops[1..], c.mem, c.iter, c.offset)
  {
    hide Sum, Mod, Pad, Get;
    GetExact(b, ops[0].Shp());
    SizeCons(ops, b.offset);
  }

  /** Behind the operations ops the memory holds rest, and c is the cursor there. */
  predicate ReadPast(b: Buffer, ops: seq<Op>, rest: seq<Op>, c: Buffer)
    requires ValidOps(ops) && ValidOps(rest)
  {
    var n := Size(ops, b.offset);
    && c.Valid() && c.Aligned() && c.mem == b.mem && View(c) == Cursor(b.iter + n, b.offset + n, false)
    && Holds(rest, c.mem, c.iter, c.offset)
  }

  lemma {:induction false} ReadLeafBack(b: Buffer, leaf: Leaf, content: seq<byte>, stale: Stale, rest: seq<Op>)
    requires b.Valid() && b.Aligned() && !b.error && leaf.Valid() && LeafConforms(leaf, content) && ValidOps(rest)
    requires Holds(LeafOps(leaf, content) + rest, b.mem, b.iter, b.offset)
    ensures var r := ReadLeaf(b, leaf, stale);
            r.ok && r.content == content && ReadPast(b, LeafOps(leaf, content), rest, r.buf)
  {
    hide Sum, Mod, Pad, Get, GetString, Holds, Size, Chars, PutU32, GetU32, Buffer.Valid, Buffer.Aligned;
    if leaf == One(String) {
      StringBack(b, content, stale, rest);
    } else {
      var ops := LeafOps(leaf, content);
      GetHeld(b, ops + rest);
      SizeOfOne(ops[0], b.offset);
      assert (ops + rest)[1..] == rest;
    }
  }

  lemma {:induction false} StringBack(b: Buffer, content: seq<byte>, stale: Stale, rest: seq<Op>)
    requires b.Valid() && b.Aligned() && !b.error && LeafConforms(One(String), content) && ValidOps(rest)
    requires Holds(LeafOps(One(String), content) + rest, b.mem, b.iter, b.offset)
    ensures var r := GetString(b, stale);
            r.ok && r.content == content && ReadPast(b, LeafOps(One(String), content), rest, r.buf)
  {
    hide Sum, Mod, Pad, Get, Holds, Size, PutU32, GetU32, Buffer.Valid, Buffer.Aligned;
    var ops := LeafOps(One(String), content);
    GetHeld(b, ops + rest);
    assert (ops + rest)[1..] == [ops[1]] + rest;
    var c := Get(b, ops[0].Shp()).0;
    GetHeld(c, [ops[1]] + rest);
    SizeOfTwo(ops[0], ops[1], b.offset);
    assert ([ops[1]] + rest)[1..] == rest;
    CharsTerminated(content);
  }

  lemma NoSize(ops: seq<Op>, pos: nat)
    ensures ops[|ops|..] == [] && Size([], pos) == 0
  {
  }

  lemma {:induction false} CharsTerminated(s: seq<byte>)
    requires 0 !in s
    ensures Chars(s + [0]) == s
  {
    if s != [] {
      assert (s + [0])[1..] == s[1..] + [0];
      CharsTerminated(s[1..]);
    }
  }

  lemma {:induction false} ReadLeavesBack(b: Buffer, leaves: seq<Leaf>, contents: seq<seq<byte>>, stale: seq<Stale>)
    requires b.Valid() && b.Aligned() && !b.error && ValidLeaves(leaves) && |stale| == |leaves|
    requires LeavesConform(leaves, contents) && Holds(Ops(leaves, contents), b.mem, b.iter, b.offset)
    ensures var r := ReadLeaves(b, leaves, stale);
            r.ok && r.contents == contents && ReadPast(b, Ops(leaves, contents), [], r.buf)
    decreases leaves
  {
    hide Buffer.Valid, Buffer.Aligned, Holds, ReadLeaf, LeafOps, LeafConforms, Leaf.Valid, ValidOps, ReadPast;
    if leaves == [] {
      PastNothing(b);
    } else {
      OpsCons(leaves, contents);
      var rest := Ops(leaves[1..], contents[1..]);
      var first := LeafOps(leaves[0], contents[0]);
      ReadLeafBack(b, leaves[0], contents[0], stale[0], rest);
      var r := ReadLeaf(b, leaves[0], stale[0]);
      PastFirst(b, first, rest, r.buf);
      ReadLeavesBack(r.buf, leaves[1..], contents[1..], stale[1..]);
      PastBoth(b, first, rest, r.buf, ReadLeaves(r.buf, leaves[1..], stale[1..]).buf);
    }
  }

  lemma PastNothing(b: Buffer)
    requires b.Valid() && b.Aligned() && !b.error && Holds([], b.mem, b.iter, b.offset)
    ensures ReadPast(b, [], [], b)
  {
    hide Sum;
  }

  lemma PastFirst(b: Buffer, ops: seq<Op>, rest: seq<Op>, c: Buffer)
    requires ValidOps(ops) && ValidOps(rest) && ReadPast(b, ops, rest, c)
    ensures c.Valid() && c.Aligned() && !c.error && Holds(rest, c.mem, c.iter, c.offset)
  {
  }

  lemma PastBoth(b: Buffer, first: seq<Op>, rest: seq<Op>, c: Buffer, d: Buffer)
    requires ValidOps(first) && ValidOps(rest) && ReadPast(b, first, rest, c) && ReadPast(c, rest, [], d)
    ensures ValidOps(first + rest) && ReadPast(b, first + rest, [], d)
  {
    hide Sum, Mod, Pad, Holds, Size;
    SizeConcat(first, rest, b.offset);
  }

  // ---- sequences of calls in two parts ----

  lemma {:induction false} PutAllConcat(b: Buffer, x: seq<Op>, y: seq<Op>)
    requires b.Valid() && b.Aligned() && ValidOps(x) && ValidOps(y)
    ensures ValidOps(x + y) && PutAll(b, x + y) == PutAll(PutAll(b, x), y)
    decreases x
  {
    hide Put, Op.Valid, Buffer.Valid, Buffer.Aligned;
    if x == [] {
      assert x + y == y;
    } else {
      PutValid(b, x[0]);
      PutAllConcat(Put(b, x[0]), x[1..], y);
      assert (x + y)[1..] == x[1..] + y;
    }
  }

  lemma {:induction false} ReadLeavesConcat(b: Buffer, x: seq<Leaf>, y: seq<Leaf>, s: seq<Stale>, t: seq<Stale>)
    requires b.Valid() && b.Aligned() && ValidLeaves(x) && ValidLeaves(y) && |s| == |x| && |t| == |y|
    ensures var p := ReadLeaves(b, x, s);
            var q := ReadLeaves(p.buf, y, t);
            ReadLeaves(b, x + y, s + t) == Readings(q.buf, p.contents + q.contents, p.ok && q.ok)
    decreases x
  {
    hide ReadLeaf, Leaf.Valid, Buffer.Valid, Buffer.Aligned;
    if x == [] {
      assert x + y == y && s + t == t;
    } else {
      ReadLeavesConcat(ReadLeaf(b, x[0], s[0]).buf, x[1..], y, s[1..], t);
      assert (x + y)[1..] == x[1..] + y && (s + t)[1..] == s[1..] + t;
    }
  }

  // ---- errors ----

  lemma GetStringSticks(b: Buffer, stale: Stale)
    requires b.Valid() && b.Aligned() && b.error
    ensures var r := GetString(b, stale); Same(r.buf, b) && r.ok == (stale.length == 0)
  {
    hide Sum, Get, Move;
    MoveSticks(b, Shape(Scalar, 4, 4));
    var c := Get(b, Shape(Scalar, 4, 4)).0;
    var d := if stale.length > STRING_CAPACITY then c.(error := true) else c;
    if stale.length != 0 {
      MoveSticks(d, Shape(Block, 1, stale.length));
    }
  }

  lemma MoveSticks(b: Buffer, s: Shape)
    requires b.Valid() && b.Aligned() && b.error && s.Valid()
    ensures var (c, bytes) := Get(b, s); c.Valid() && c.Aligned() && Same(c, b)
  {
    hide Sum, Move, Pad, Mod;
    MoveRefines(b, s);
  }

  lemma ReadLeafSticks(b: Buffer, leaf: Leaf, stale: Stale)
    requires b.Valid() && b.Aligned() && b.error && leaf.Valid()
    ensures var r := ReadLeaf(b, leaf, stale);
            Same(r.buf, b) && r.ok == (leaf == One(String) && stale.length == 0)
  {
    hide Sum, Get, GetString, Buffer.Valid, Buffer.Aligned;
    if leaf == One(String) {
      GetStringSticks(b, stale);
    } else {
      LeafShapeValid(leaf);
      MoveSticks(b, LeafShape(leaf));
    }
  }

  /** Every leaf is a string and every stale length is zero. */
  predicate AllStale(leaves: seq<Leaf>, stale: seq<Stale>)
    requires |stale| == |leaves|
  {
    forall j | 0 <= j < |leaves| :: leaves[j] == One(String) && stale[j].length == 0
  }

  lemma AllStaleCons(leaves: seq<Leaf>, stale: seq<Stale>)
    requires |stale| == |leaves| > 0
    ensures AllStale(leaves, stale) <==>
            (leaves[0] == One(String) && stale[0].length == 0 && AllStale(leaves[1..], stale[1..]))
  {
    if leaves[0] == One(String) && stale[0].length == 0 && AllStale(leaves[1..], stale[1..]) {
      forall j | 0 < j < |leaves|
        ensures leaves[j] == One(String) && stale[j].length == 0
      {
        assert leaves[1..][j - 1] == leaves[j] && stale[1..][j - 1] == stale[j];
      }
    }
  }

  lemma NoneStale()
    ensures AllStale([], [])
  {
  }

  /** Once the error flag is set the deserializer reads on without moving, and the flag stays. */
  lemma {:induction false} ReadLeavesStick(b: Buffer, leaves: seq<Leaf>, stale: seq<Stale>)
    requires b.Valid() && b.Aligned() && b.error && ValidLeaves(leaves) && |stale| == |leaves|
    ensures var r := ReadLeaves(b, leaves, stale);
            Same(r.buf, b) && (r.ok <==> AllStale(leaves, stale))
    decreases leaves
  {
    hide ReadLeaf, Leaf.Valid, Buffer.Valid, Buffer.Aligned, AllStale;
    if leaves == [] {
      NoneStale();
    } else {
      ReadLeafSticks(b, leaves[0], stale[0]);
      ReadLeavesStick(ReadLeaf(b, leaves[0], stale[0]).buf, leaves[1..], stale[1..]);
      AllStaleCons(leaves, stale);
    }
  }

  /** A string call claims success on a buffer it put into the error state iff its length is cut off
      and the stale length happens to be zero. */
  lemma {:induction false} StringTrueDespiteError(b: Buffer, stale: Stale)
    requires b.Valid() && b.Aligned() && !b.error
    ensures var r := GetString(b, stale);
            && (r.ok && r.buf.error <==> Shape(Scalar, 4, 4).Size(b.offset) > b.Room() && stale.length == 0)
            && (!r.buf.error ==> r.ok)
  {
    hide Sum, Get, Shape.Size, GetU32;
    GetExact(b, Shape(Scalar, 4, 4));
    if Get(b, Shape(Scalar, 4, 4)).0.error {
      ReadStringTail(Get(b, Shape(Scalar, 4, 4)).0, stale.length);
    } else {
      ReadStringTail(Get(b, Shape(Scalar, 4, 4)).0, GetU32(Get(b, Shape(Scalar, 4, 4)).1));
    }
  }

  lemma ReadStringTail(c: Buffer, length: nat)
    requires c.Valid() && c.Aligned() && Shape(Block, 1, length).Valid()
    ensures var d := if length > STRING_CAPACITY then c.(error := true) else c;
            && d.Valid() && d.Aligned()
            && ((c.error || length > STRING_CAPACITY) ==> Get(d, Shape(Block, 1, length)).0.error)
  {
    hide Sum, Get;
    var d := if length > STRING_CAPACITY then c.(error := true) else c;
    if d.error {
      MoveSticks(d, Shape(Block, 1, length));
    }
  }

  /** The first call that fails is a string whose length is cut off, only strings follow, and all their
      stale lengths are zero. */
  predicate CutInTail(b: Buffer, leaves: seq<Leaf>, stale: seq<Stale>)
    requires b.Valid() && b.Aligned() && ValidLeaves(leaves) && |stale| == |leaves|
    decreases leaves
  {
    leaves != [] &&
    var c := ReadLeaf(b, leaves[0], stale[0]).buf;
    if c.error then AllStale(leaves, stale) && Shape(Scalar, 4, 4).Size(b.offset) > b.Room()
    else CutInTail(c, leaves[1..], stale[1..])
  }

  /** When the generated deserializer returns true the buffer may still be in the error state: exactly
      if the message is cut off at the length of one of the strings at its end. */
  lemma {:induction false} TrueDespiteError(b: Buffer, leaves: seq<Leaf>, stale: seq<Stale>)
    requires b.Valid() && b.Aligned() && !b.error && ValidLeaves(leaves) && |stale| == |leaves|
    ensures var r := ReadLeaves(b, leaves, stale);
            && (!r.buf.error ==> r.ok)
            && (r.ok && r.buf.error <==> CutInTail(b, leaves, stale))
    decreases leaves
  {
    hide ReadLeaf, Leaf.Valid, Buffer.Valid, Buffer.Aligned, Shape.Size, Buffer.Room, AllStale;
    if leaves != [] {
      var first := ReadLeaf(b, leaves[0], stale[0]);
      LeafTrueDespiteError(b, leaves[0], stale[0]);
      AllStaleCons(leaves, stale);
      if first.buf.error {
        ReadLeavesStick(first.buf, leaves[1..], stale[1..]);
      } else {
        TrueDespiteError(first.buf, leaves[1..], stale[1..]);
      }
    }
  }

  lemma LeafTrueDespiteError(b: Buffer, leaf: Leaf, stale: Stale)
    requires b.Valid() && b.Aligned() && !b.error && leaf.Valid()
    ensures var r := ReadLeaf(b, leaf, stale);
            && (!r.buf.error ==> r.ok)
            && (r.ok && r.buf.error <==>
                leaf == One(String) && stale.length == 0 && Shape(Scalar, 4, 4).Size(b.offset) > b.Room())
  {
    hide Sum, GetString, Get, Shape.Size, Buffer.Valid, Buffer.Aligned;
    if leaf == One(String) {
      StringTrueDespiteError(b, stale);
    }
  }
}
