/** Types with arrays of length zero. The analysis adds nothing for such an array, while the call the
    serializer makes for it still pads; here is what that does to the bound. */
module EmptyArrays {
  import opened Bytes
  import opened Cdr
  import opened FieldTree
  import opened SizeAnalysis
  import opened SizeTheorems
  import opened LongestMessages

  /** The leaves that are not empty arrays, and their contents. */
  function Kept(leaves: seq<Leaf>): seq<Leaf> {
    if leaves == [] then []
    else (if Empty(leaves[0]) then [] else [leaves[0]]) + Kept(leaves[1..])
  }

  function KeptContents(leaves: seq<Leaf>, contents: seq<seq<byte>>): seq<seq<byte>>
    requires |contents| == |leaves|
    decreases leaves
  {
    if leaves == [] then []
    else (if Empty(leaves[0]) then [] else [contents[0]]) + KeptContents(leaves[1..], contents[1..])
  }

  lemma {:induction false} KeptConform(leaves: seq<Leaf>, contents: seq<seq<byte>>)
    requires ValidLeaves(leaves) && LeavesConform(leaves, contents)
    ensures ValidLeaves(Kept(leaves)) && NoneEmpty(Kept(leaves)) && Strings(Kept(leaves)) == Strings(leaves)
    ensures LeavesConform(Kept(leaves), KeptContents(leaves, contents))
    decreases leaves
  {
    hide LeafConforms, Leaf.Valid;
    if leaves != [] {
      hide Kept, KeptContents;
      KeptConform(leaves[1..], contents[1..]);
      KeptCons(leaves, contents);
    }
  }

  /** The analysis does not see empty arrays. */
  lemma {:induction false} EmptiesUnseen(leaves: seq<Leaf>, pos: Pos)
    requires pos.Valid()
    ensures MaxSize(leaves, pos) == MaxSize(Kept(leaves), pos)
    decreases leaves
  {
    hide AddPrim;
    if leaves != [] {
      EmptiesUnseen(leaves[1..], AddLeaf(pos, leaves[0]).0);
      if Empty(leaves[0]) {
        assert AddLeaf(pos, leaves[0]) == (pos, 0) && Kept(leaves) == Kept(leaves[1..]);
      } else {
        assert Kept(leaves)[0] == leaves[0] && Kept(leaves)[1..] == Kept(leaves[1..]);
      }
    }
  }

  // ---- sizes ----

  /** Leaving out empty arrays never makes a message longer. */
  lemma {:induction false} KeptShorter(leaves: seq<Leaf>, contents: seq<seq<byte>>, p: nat, q: nat)
    requires ValidLeaves(leaves) && LeavesConform(leaves, contents) && p <= q
    ensures ValidLeaves(Kept(leaves)) && LeavesConform(Kept(leaves), KeptContents(leaves, contents))
    ensures p + Size(Ops(Kept(leaves), KeptContents(leaves, contents)), p) <= q + Size(Ops(leaves, contents), q)
    decreases leaves
  {
    hide Pad, Mod, Op.Valid, LeafOps, LeafConforms, Leaf.Valid, Kept, KeptContents, Size, Ops;
    KeptConform(leaves, contents);
    if leaves == [] {
      NothingKept();
    } else {
      KeptCons(leaves, contents);
      var first := LeafOps(leaves[0], contents[0]);
      var rest := Ops(leaves[1..], contents[1..]);
      OpsCons(leaves, contents);
      SizeConcat(first, rest, q);
      if Empty(leaves[0]) {
        KeptShorter(leaves[1..], contents[1..], p, q + Size(first, q));
      } else {
        OpsCons(Kept(leaves), KeptContents(leaves, contents));
        SizeConcat(first, Ops(Kept(leaves[1..]), KeptContents(leaves[1..], contents[1..])), p);
        EndMonotone(first, p, q);
        KeptShorter(leaves[1..], contents[1..], p + Size(first, p), q + Size(first, q));
      }
    }
  }

  lemma NothingKept()
    ensures Kept([]) == [] && KeptContents([], []) == [] && Ops([], []) == [] && forall p: nat :: Size([], p) == 0
  {
  }

  lemma KeptCons(leaves: seq<Leaf>, contents: seq<seq<byte>>)
    requires leaves != [] && |contents| == |leaves|
    ensures if Empty(leaves[0]) then
              && Kept(leaves) == Kept(leaves[1..])
              && KeptContents(leaves, contents) == KeptContents(leaves[1..], contents[1..])
            else
              && Kept(leaves) == [leaves[0]] + Kept(leaves[1..])
              && KeptContents(leaves, contents) == [contents[0]] + KeptContents(leaves[1..], contents[1..])
              && Kept(leaves)[1..] == Kept(leaves[1..])
              && KeptContents(leaves, contents)[1..] == KeptContents(leaves[1..], contents[1..])
  {
  }

  // ---- the bound ----

  /** With empty arrays in the type the bound still holds for a message that is as long as it would be
      without them; for a type without strings it holds for no other, so for all messages or none, and the
      type decides. */
  lemma {:induction false} BoundWithEmptyArrays(fields: seq<Field>, msg: seq<Value>)
    requires ValidLeaves(Leaves(fields)) && Conforms(fields, msg)
    ensures var leaves, contents := Leaves(fields), Flatten(msg);
            var payload := ENCAP_HEADER_LEN + MessageSize(fields, msg);
            && ValidLeaves(Kept(leaves)) && LeavesConform(Kept(leaves), KeptContents(leaves, contents))
            && var without := Size(Ops(Kept(leaves), KeptContents(leaves, contents)), 0);
            && without <= MessageSize(fields, msg)
            && (MessageSize(fields, msg) == without ==> payload <= MaxPayloadSize(fields))
            && (Strings(leaves) == 0 ==>
                  && Strings(Kept(leaves)) == 0
                  && (payload <= MaxPayloadSize(fields) <==> Longest(leaves, 0) == Longest(Kept(leaves), 0)))
  {
    hide Size, Ops, MaxSize, Kept, KeptContents, Strings, LeafConforms, Leaf.Valid, TotalCredit, Shaped;
    var leaves, contents := Leaves(fields), Flatten(msg);
    KeptConform(leaves, contents);
    KeptShorter(leaves, contents, 0, 0);
    EmptiesUnseen(leaves, MESSAGE_START);
    MaxSizeSound(Kept(leaves), KeptContents(leaves, contents), MESSAGE_START, 0);
    if Strings(leaves) == 0 {
      SizeIsLongest(leaves, contents, 0);
      SizeIsLongest(Kept(leaves), KeptContents(leaves, contents), 0);
      CreditSplit(Kept(leaves), KeptContents(leaves, contents));
      NothingUnused(Kept(leaves), KeptContents(leaves, contents));
    }
  }

  // ---- types with an empty array ----

  const OCTET := Field("flags", Primitive(Uint8))
  const NO_SAMPLES := Field("samples", PrimArray(Float64, 0))
  const STAMP := Field("stamp", Primitive(Float64))
  const TEXT := Field("text", Primitive(String))

  /** A primitive or array member in front of the others; strings are full. */
  lemma Prepend(field: Field, leaf: Leaf, content: seq<byte>, fields: seq<Field>, msg: seq<Value>)
    requires (field.ty.Primitive? || field.ty.PrimArray?) && LeavesOf(field.ty) == [leaf] && leaf.Valid()
    requires LeafConforms(leaf, content) && (leaf == One(String) ==> |content| == STRING_CAPACITY - 1)
    requires ValidLeaves(Leaves(fields)) && Conforms(fields, msg) && FullStrings(Leaves(fields), Flatten(msg))
    ensures var more, longer := [field] + fields, [Value.Leaf(content)] + msg;
            && Leaves(more) == [leaf] + Leaves(fields) && Flatten(longer) == [content] + Flatten(msg)
            && ValidLeaves(Leaves(more)) && Conforms(more, longer) && FullStrings(Leaves(more), Flatten(longer))
  {
    hide LeafConforms, Leaf.Valid;
    var more, longer := [field] + fields, [Value.Leaf(content)] + msg;
    assert more[1..] == fields && longer[1..] == msg;
    assert Leaves(more) == [leaf] + Leaves(fields);
    assert FlattenOf(longer[0]) == [content] && ShapedOf(more[0].ty, longer[0]);
    assert Shaped(more, longer);
  }

  lemma LongestCons(leaf: Leaf, leaves: seq<Leaf>, pos: nat)
    ensures var n := Pad(pos, leaf.prim.Align()) + LongestLeaf(leaf);
            Longest([leaf] + leaves, pos) == n + Longest(leaves, pos + n)
  {
    hide Pad, LongestLeaf;
    assert ([leaf] + leaves)[1..] == leaves;
  }

  lemma MaxCons(leaf: Leaf, leaves: seq<Leaf>, pos: Pos)
    requires pos.Valid()
    ensures var (p, k) := AddLeaf(pos, leaf);
            var (q, rest) := MaxSize(leaves, p);
            MaxSize([leaf] + leaves, pos) == (q, k + rest)
  {
    hide AddLeaf;
    assert ([leaf] + leaves)[1..] == leaves;
  }

  lemma NoneLeft()
    ensures Leaves([]) == [] && ValidLeaves([]) && Conforms([], []) && FullStrings([], []) && Flatten([]) == []
    ensures forall pos: nat :: Longest([], pos) == 0
    ensures forall pos: Pos | pos.Valid() :: MaxSize([], pos) == (pos, 0)
  {
  }

  /** A byte and an empty array of doubles: twelve bytes are written where the generator promises five. */
  lemma {:induction false} EmptyArrayCounts(flags: byte)
    ensures var fields, msg := [OCTET, NO_SAMPLES], [Value.Leaf([flags]), Value.Leaf([])];
            && ValidLeaves(Leaves(fields)) && Conforms(fields, msg)
            && ENCAP_HEADER_LEN + MessageSize(fields, msg) == 12 && MaxPayloadSize(fields) == 5
  {
    hide MaxSize, Longest, LongestLeaf, Size, Ops, Pad, AddLeaf, Leaves, Shaped, Flatten, FullStrings;
    hide Leaf.Valid, LeafConforms;
    NoneLeft();
    Members([flags], [], []);
    var rest: seq<Leaf> := [Many(Float64, 0)] + [];
    FullIsLongest([One(Uint8)] + rest, [[flags]] + ([[]] + []), 0);
    LongestCons(One(Uint8), rest, 0);
    LongestCons(Many(Float64, 0), [], 1);
    MaxCons(One(Uint8), rest, MESSAGE_START);
    MaxCons(Many(Float64, 0), [], Pos(1, 8));
    Numbers();
    assert [OCTET] + ([NO_SAMPLES] + []) == [OCTET, NO_SAMPLES];
    assert [Value.Leaf([flags])] + ([Value.Leaf([])] + []) == [Value.Leaf([flags]), Value.Leaf([])];
  }

  lemma Members(flags: seq<byte>, fields: seq<Field>, msg: seq<Value>)
    requires |flags| == 1 && ValidLeaves(Leaves(fields)) && Conforms(fields, msg)
    requires FullStrings(Leaves(fields), Flatten(msg))
    ensures var more, longer := [OCTET] + ([NO_SAMPLES] + fields), [Value.Leaf(flags)] + ([Value.Leaf([])] + msg);
            && Leaves(more) == [One(Uint8)] + ([Many(Float64, 0)] + Leaves(fields))
            && Flatten(longer) == [flags] + ([[]] + Flatten(msg))
            && ValidLeaves(Leaves(more)) && Conforms(more, longer) && FullStrings(Leaves(more), Flatten(longer))
  {
    hide Leaves, Shaped, Flatten, ValidLeaves, Conforms, FullStrings;
    Prepend(NO_SAMPLES, Many(Float64, 0), [], fields, msg);
    Prepend(OCTET, One(Uint8), flags, [NO_SAMPLES] + fields, [Value.Leaf([])] + msg);
  }

  lemma Numbers()
    ensures Pad(0, 1) == 0 && Pad(1, 8) == 7 && Pad(8, 8) == 0 && Pad(0, 4) == 0 && Pad(260, 8) == 4
    ensures LongestLeaf(One(Uint8)) == 1 && LongestLeaf(Many(Float64, 0)) == 0 && LongestLeaf(One(Float64)) == 8
    ensures LongestLeaf(One(String)) == 260
    ensures AddLeaf(MESSAGE_START, One(Uint8)) == (Pos(1, 8), 1)
    ensures AddLeaf(Pos(1, 8), Many(Float64, 0)) == (Pos(1, 8), 0)
    ensures AddLeaf(Pos(1, 8), One(Float64)).1 == 15
    ensures AddLeaf(MESSAGE_START, One(String)) == (Pos(0, 1), 260)
    ensures AddLeaf(Pos(0, 1), Many(Float64, 0)) == (Pos(0, 1), 0)
  {
    hide Pad, Mod, MaxPad, Ratio, PadFrom, AddPrim;
    Paddings();
    AddOctet();
    AddDouble();
    AddText();
  }

  lemma Paddings()
    ensures Mod(0, 1) == 0 && Mod(1, 8) == 1 && Mod(8, 8) == 0 && Mod(0, 4) == 0 && Mod(260, 8) == 4
    ensures Pad(0, 1) == 0 && Pad(1, 8) == 7 && Pad(8, 8) == 0 && Pad(0, 4) == 0 && Pad(260, 8) == 4
  {
  }

  lemma AddOctet()
    ensures AddPrim(MESSAGE_START, Uint8) == (Pos(1, 8), 1)
  {
    hide Pad, Mod, MaxPad, Ratio, PadFrom;
    Paddings();
    assert Uint8.Align() == Uint8.Size() == 1;
  }

  lemma AddDouble()
    ensures AddPrim(Pos(1, 8), Float64).1 == 15
  {
    hide Pad, Mod, MaxPad, Ratio, PadFrom;
    Paddings();
  }

  lemma AddText()
    ensures AddPrim(MESSAGE_START, String) == (Pos(0, 1), 260)
  {
    hide Pad, Mod, MaxPad, Ratio, PadFrom;
    Paddings();
  }

  /** With a double behind it the same array costs nothing: the double needs that padding anyway. */
  lemma {:induction false} EmptyArrayFree(flags: byte, stamp: seq<byte>)
    requires |stamp| == 8
    ensures var fields := [OCTET, NO_SAMPLES, STAMP];
            var msg := [Value.Leaf([flags]), Value.Leaf([]), Value.Leaf(stamp)];
            && ValidLeaves(Leaves(fields)) && Conforms(fields, msg)
            && ENCAP_HEADER_LEN + MessageSize(fields, msg) == 20 == MaxPayloadSize(fields)
  {
    hide MaxSize, Longest, LongestLeaf, Size, Ops, Pad, AddLeaf, Leaves, Shaped, Flatten, FullStrings;
    NoneLeft();
    Prepend(STAMP, One(Float64), stamp, [], []);
    Members([flags], [STAMP] + [], [Value.Leaf(stamp)] + []);
    var last: seq<Leaf> := [One(Float64)] + [];
    var rest := [Many(Float64, 0)] + last;
    FullIsLongest([One(Uint8)] + rest, [[flags]] + ([[]] + ([stamp] + [])), 0);
    LongestCons(One(Uint8), rest, 0);
    LongestCons(Many(Float64, 0), last, 1);
    LongestCons(One(Float64), [], 8);
    MaxCons(One(Uint8), rest, MESSAGE_START);
    MaxCons(Many(Float64, 0), last, Pos(1, 8));
    MaxCons(One(Float64), [], Pos(1, 8));
    Numbers();
    assert [OCTET] + ([NO_SAMPLES] + ([STAMP] + [])) == [OCTET, NO_SAMPLES, STAMP];
    assert [Value.Leaf([flags])] + ([Value.Leaf([])] + ([Value.Leaf(stamp)] + [])) ==
           [Value.Leaf([flags]), Value.Leaf([]), Value.Leaf(stamp)];
  }

  /** A full string and an empty array of doubles: 268 bytes are written where 264 are promised. */
  lemma {:induction false} EmptyArrayBehindString(text: seq<byte>)
    requires |text| == STRING_CAPACITY - 1 && 0 !in text
    ensures var fields, msg := [TEXT, NO_SAMPLES], [Value.Leaf(text), Value.Leaf([])];
            && ValidLeaves(Leaves(fields)) && Conforms(fields, msg)
            && ENCAP_HEADER_LEN + MessageSize(fields, msg) == 268 && MaxPayloadSize(fields) == 264
  {
    hide MaxSize, Longest, LongestLeaf, Size, Ops, Pad, AddLeaf, Leaves, Shaped, Flatten, FullStrings;
    NoneLeft();
    Prepend(NO_SAMPLES, Many(Float64, 0), [], [], []);
    Prepend(TEXT, One(String), text, [NO_SAMPLES] + [], [Value.Leaf([])] + []);
    var rest: seq<Leaf> := [Many(Float64, 0)] + [];
    FullIsLongest([One(String)] + rest, [text] + ([[]] + []), 0);
    LongestCons(One(String), rest, 0);
    LongestCons(Many(Float64, 0), [], 260);
    MaxCons(One(String), rest, MESSAGE_START);
    MaxCons(Many(Float64, 0), [], Pos(0, 1));
    Numbers();
    assert [TEXT] + ([NO_SAMPLES] + []) == [TEXT, NO_SAMPLES];
    assert [Value.Leaf(text)] + ([Value.Leaf([])] + []) == [Value.Leaf(text), Value.Leaf([])];
  }
}
