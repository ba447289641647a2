/** The longest message of a type, and with it when the generator's bound holds: for every type, with or
    without arrays of length zero. */
module LongestMessages {
  import opened Bytes
  import opened Cdr
  import opened FieldTree
  import opened SizeAnalysis
  import opened SizeTheorems

  // ---- later starts ----

  /** A value that may start later is placed no earlier. */
  lemma PadMonotone(p: nat, q: nat, w: nat)
    requires Width(w) && p <= q
    ensures p + Pad(p, w) <= q + Pad(q, w)
  {
    match w
    case 1 =>
    case 2 => NextEven(p, q);
    case 4 => NextFour(p, q);
    case 8 => NextEight(p, q);
  }

  lemma NextEven(p: nat, q: nat)
    requires p <= q
    ensures p + Pad(p, 2) <= q + Pad(q, 2)
  {
    CeilTwos(p / 2, p % 2, q / 2, q % 2);
  }

  lemma CeilTwos(k: nat, r: nat, l: nat, s: nat)
    requires r < 2 && s < 2 && 2 * k + r <= 2 * l + s
    ensures 2 * k + (if r == 0 then 0 else 2) <= 2 * l + (if s == 0 then 0 else 2)
  {
  }

  lemma NextFour(p: nat, q: nat)
    requires p <= q
    ensures p + Pad(p, 4) <= q + Pad(q, 4)
  {
    CeilFours(p / 4, p % 4, q / 4, q % 4);
  }

  lemma CeilFours(k: nat, r: nat, l: nat, s: nat)
    requires r < 4 && s < 4 && 4 * k + r <= 4 * l + s
    ensures 4 * k + (if r == 0 then 0 else 4) <= 4 * l + (if s == 0 then 0 else 4)
  {
  }

  lemma NextEight(p: nat, q: nat)
    requires p <= q
    ensures p + Pad(p, 8) <= q + Pad(q, 8)
  {
    CeilEights(p / 8, p % 8, q / 8, q % 8);
  }

  lemma CeilEights(k: nat, r: nat, l: nat, s: nat)
    requires r < 8 && s < 8 && 8 * k + r <= 8 * l + s
    ensures 8 * k + (if r == 0 then 0 else 8) <= 8 * l + (if s == 0 then 0 else 8)
  {
  }

  /** Behind the operations, a stream that starts later ends later. */
  lemma {:induction false} EndMonotone(ops: seq<Op>, p: nat, q: nat)
    requires ValidOps(ops) && p <= q
    ensures p + Size(ops, p) <= q + Size(ops, q)
    decreases ops
  {
    hide Pad, Mod;
    if ops != [] {
      SizeCons(ops, p);
      SizeCons(ops, q);
      PadMonotone(p, q, ops[0].align);
      EndMonotone(ops[1..], p + ops[0].Shp().Size(p), q + ops[0].Shp().Size(q));
    }
  }

  // ---- the longest message ----

  /** Bytes a leaf takes behind its padding, strings at their full length. */
  function LongestLeaf(leaf: Leaf): nat {
    match leaf
    case One(p) => if p.String? then 4 + STRING_CAPACITY else p.Size()
    case Many(p, n) => Span(n, p.Align())
  }

  /** Bytes the leaves take from a position on when every string is full: known from the type alone. */
  function Longest(leaves: seq<Leaf>, pos: nat): nat {
    if leaves == [] then 0
    else
      var n := Pad(pos, leaves[0].prim.Align()) + LongestLeaf(leaves[0]);
      n + Longest(leaves[1..], pos + n)
  }

  /** One leaf: no content is longer than a full string. */
  lemma LeafLongest(leaf: Leaf, content: seq<byte>, pos: nat)
    requires leaf.Valid() && LeafConforms(leaf, content)
    ensures var n := Pad(pos, leaf.prim.Align()) + LongestLeaf(leaf);
            var used := Size(LeafOps(leaf, content), pos);
            && used <= n
            && ((leaf == One(String) ==> |content| == STRING_CAPACITY - 1) ==> used == n)
  {
    hide Pad, Mod, Span, Size, PutU32;
    var ops := LeafOps(leaf, content);
    if leaf == One(String) {
      SizeOfTwo(ops[0], ops[1], pos);
      NoPad(pos + ops[0].Shp().Size(pos));
    } else {
      SizeOfOne(ops[0], pos);
    }
  }

  /** No message from p on ends behind the longest one from a later q on. */
  lemma {:induction false} NoneLonger(leaves: seq<Leaf>, contents: seq<seq<byte>>, p: nat, q: nat)
    requires ValidLeaves(leaves) && LeavesConform(leaves, contents) && p <= q
    ensures p + Size(Ops(leaves, contents), p) <= q + Longest(leaves, q)
    decreases leaves
  {
    hide Pad, Mod, Size, Ops, LeafOps, Leaf.Valid, LeafConforms, LongestLeaf, ValidOps;
    if leaves == [] {
      NothingWritten();
    } else {
      OpsCons(leaves, contents);
      var first := LeafOps(leaves[0], contents[0]);
      SizeConcat(first, Ops(leaves[1..], contents[1..]), p);
      LeafLongest(leaves[0], contents[0], p);
      PadMonotone(p, q, leaves[0].prim.Align());
      var n := Pad(q, leaves[0].prim.Align()) + LongestLeaf(leaves[0]);
      NoneLonger(leaves[1..], contents[1..], p + Size(first, p), q + n);
    }
  }

  lemma NothingWritten()
    ensures Ops([], []) == [] && forall pos: nat :: Size([], pos) == 0
  {
  }

  /** A message whose strings are full is a longest one. */
  lemma {:induction false} FullIsLongest(leaves: seq<Leaf>, contents: seq<seq<byte>>, pos: nat)
    requires ValidLeaves(leaves) && LeavesConform(leaves, contents) && FullStrings(leaves, contents)
    ensures Size(Ops(leaves, contents), pos) == Longest(leaves, pos)
    decreases leaves
  {
    hide Pad, Mod, Size, Ops, LeafOps, Leaf.Valid, LeafConforms, LongestLeaf, ValidOps;
    if leaves == [] {
      NothingWritten();
    } else {
      OpsCons(leaves, contents);
      var first := LeafOps(leaves[0], contents[0]);
      SizeConcat(first, Ops(leaves[1..], contents[1..]), pos);
      LeafLongest(leaves[0], contents[0], pos);
      FullIsLongest(leaves[1..], contents[1..], pos + Size(first, pos));
    }
  }

  /** Without strings every message is. */
  lemma {:induction false} StringFree(leaves: seq<Leaf>)
    requires Strings(leaves) == 0
    ensures forall j | 0 <= j < |leaves| :: leaves[j] != One(String)
  {
    if leaves != [] {
      StringFree(leaves[1..]);
      forall j | 0 < j < |leaves|
        ensures leaves[j] != One(String)
      {
        assert leaves[j] == leaves[1..][j - 1];
      }
    }
  }

  lemma {:induction false} SizeIsLongest(leaves: seq<Leaf>, contents: seq<seq<byte>>, pos: nat)
    requires ValidLeaves(leaves) && LeavesConform(leaves, contents) && Strings(leaves) == 0
    ensures Size(Ops(leaves, contents), pos) == Longest(leaves, pos)
  {
    hide Size, Ops, Longest, Strings, ValidLeaves, LeafConforms;
    StringFree(leaves);
    FullIsLongest(leaves, contents, pos);
  }

  // ---- there is one ----

  function FullContent(leaf: Leaf): seq<byte> {
    match leaf
    case One(p) => if p.String? then seq(STRING_CAPACITY - 1, _ => 1) else seq(p.Size(), _ => 0)
    case Many(p, n) => seq(Span(n, p.Align()), _ => 0)
  }

  function FullContents(leaves: seq<Leaf>): (contents: seq<seq<byte>>)
    ensures |contents| == |leaves|
  {
    seq(|leaves|, j requires 0 <= j < |leaves| => FullContent(leaves[j]))
  }

  function FullOf(ty: FieldType): Value
    decreases ty, 0
  {
    match ty
    case Primitive(p) => Value.Leaf(FullContent(One(p)))
    case PrimArray(p, n) => Value.Leaf(FullContent(Many(p, n)))
    case Nested(_, fields) => Struct(Full(fields))
    case NestedArray(_, fields, n) => Array(FullTimes(fields, n))
  }

  /** The message with 255 characters in each of its strings, and zeros elsewhere. */
  function Full(fields: seq<Field>): seq<Value>
    decreases fields, 0
  {
    if fields == [] then [] else [FullOf(fields[0].ty)] + Full(fields[1..])
  }

  function FullTimes(fields: seq<Field>, n: nat): seq<Value>
    decreases fields, 1, n
  {
    if n == 0 then [] else [Struct(Full(fields))] + FullTimes(fields, n - 1)
  }

  lemma FullConcat(x: seq<Leaf>, y: seq<Leaf>)
    ensures FullContents(x + y) == FullContents(x) + FullContents(y)
  {
    hide FullContent;
  }

  lemma {:induction false} FullShapedOf(ty: FieldType)
    ensures ShapedOf(ty, FullOf(ty)) && FlattenOf(FullOf(ty)) == FullContents(LeavesOf(ty))
    decreases ty, 0
  {
    hide FullContent;
    match ty
    case Primitive(_) =>
    case PrimArray(_, _) =>
    case Nested(_, fields) => FullShaped(fields);
    case NestedArray(_, fields, n) => FullShapedTimes(fields, n);
  }

  lemma {:induction false} FullShaped(fields: seq<Field>)
    ensures Shaped(fields, Full(fields)) && Flatten(Full(fields)) == FullContents(Leaves(fields))
    decreases fields, 0
  {
    hide FullContent, FullContents;
    if fields == [] {
      NoneFull();
    } else {
      FullShapedOf(fields[0].ty);
      FullShaped(fields[1..]);
      FullConcat(LeavesOf(fields[0].ty), Leaves(fields[1..]));
    }
  }

  lemma {:induction false} FullShapedTimes(fields: seq<Field>, n: nat)
    ensures ShapedTimes(fields, n, FullTimes(fields, n))
    ensures Flatten(FullTimes(fields, n)) == FullContents(LeavesTimes(fields, n))
    decreases fields, 1, n
  {
    hide FullContent, FullContents;
    if n == 0 {
      NoneFull();
    } else {
      FullShaped(fields);
      FullShapedTimes(fields, n - 1);
      FullConcat(Leaves(fields), LeavesTimes(fields, n - 1));
    }
  }

  lemma NoneFull()
    ensures FullContents([]) == []
  {
  }

  lemma {:induction false} FullConforms(fields: seq<Field>)
    requires ValidLeaves(Leaves(fields))
    ensures Conforms(fields, Full(fields)) && FullStrings(Leaves(fields), Flatten(Full(fields)))
  {
    hide Leaves, Flatten, Shaped, LeafConforms, Leaf.Valid, FullContent;
    FullShaped(fields);
    var leaves := Leaves(fields);
    forall j | 0 <= j < |leaves|
      ensures LeafConforms(leaves[j], FullContents(leaves)[j])
      ensures leaves[j] == One(String) ==> |FullContents(leaves)[j]| == STRING_CAPACITY - 1
    {
      assert leaves[j].Valid();
      FullLeaf(leaves[j]);
    }
  }

  lemma FullLeaf(leaf: Leaf)
    requires leaf.Valid()
    ensures LeafConforms(leaf, FullContent(leaf))
    ensures leaf == One(String) ==> |FullContent(leaf)| == STRING_CAPACITY - 1
  {
  }

  // ---- the bound ----

  /** No message of the type is larger than the generator says. */
  ghost predicate BoundHolds(fields: seq<Field>)
    requires ValidLeaves(Leaves(fields))
  {
    forall msg: seq<Value> | Conforms(fields, msg) ::
      ENCAP_HEADER_LEN + MessageSize(fields, msg) <= MaxPayloadSize(fields)
  }

  /** The same, told from the type. */
  predicate LongestFits(fields: seq<Field>) {
    ENCAP_HEADER_LEN + Longest(Leaves(fields), 0) <= MaxPayloadSize(fields)
  }

  lemma {:induction false} BoundExact(fields: seq<Field>)
    requires ValidLeaves(Leaves(fields))
    ensures BoundHolds(fields) <==> LongestFits(fields)
  {
    hide Size, Ops, Longest, MaxPayloadSize, Leaves, Flatten, Full, Shaped, ValidLeaves, LeavesConform;
    FullConforms(fields);
    FullIsLongest(Leaves(fields), Flatten(Full(fields)), 0);
    forall msg: seq<Value> | Conforms(fields, msg)
      ensures MessageSize(fields, msg) <= Longest(Leaves(fields), 0)
    {
      NoneLonger(Leaves(fields), Flatten(msg), 0, 0);
    }
    assert MessageSize(fields, Full(fields)) == Longest(Leaves(fields), 0);
  }

  /** Without arrays of length zero it always does. */
  lemma {:induction false} BoundWithoutEmpties(fields: seq<Field>)
    requires ValidLeaves(Leaves(fields)) && NoneEmpty(Leaves(fields))
    ensures LongestFits(fields)
  {
    hide Size, Ops, Longest, MaxPayloadSize, Leaves, Flatten, Full, Shaped, ValidLeaves, LeavesConform;
    FullConforms(fields);
    FullIsLongest(Leaves(fields), Flatten(Full(fields)), 0);
    SizeSound(fields, Full(fields));
  }
}
