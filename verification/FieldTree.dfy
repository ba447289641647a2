/** Message types as the code generator resolves them, the messages of a type, and the calls a
    message turns into. Trees flatten to their leaves in the order the generated code visits them. */
module FieldTree {
  import opened Bytes
  import opened Cdr

  datatype Prim =
    | Bool | Byte | Char | Float32 | Float64
    | Int8 | Int16 | Int32 | Int64 | Uint8 | Uint16 | Uint32 | Uint64
    | String
  {
    function Align(): (n: nat)
      ensures Width(n)
    {
      match this
      case Bool | Byte | Char | Int8 | Uint8 => 1
      case Int16 | Uint16 => 2
      case Float32 | Int32 | Uint32 => 4
      case Float64 | Int64 | Uint64 => 8
      case String => 4
    }

    /** A string has no fixed size. */
    function Size(): nat {
      if String? then 0 else Align()
    }
  }

  datatype FieldType =
    | Primitive(prim: Prim)
    | PrimArray(prim: Prim, len: nat)
    | Nested(cType: string, fields: seq<Field>)
    | NestedArray(cType: string, fields: seq<Field>, len: nat)

  datatype Field = Field(name: string, ty: FieldType)

  // ---- leaves ----

  datatype Leaf = One(prim: Prim) | Many(prim: Prim, len: nat) {
    /** Arrays of strings have no serialize call of their own. */
    predicate Valid() {
      Many? ==> !prim.String?
    }
  }

  function LeavesOf(ty: FieldType): seq<Leaf>
    decreases ty, 0
  {
    match ty
    case Primitive(p) => [One(p)]
    case PrimArray(p, n) => [Many(p, n)]
    case Nested(_, fields) => Leaves(fields)
    case NestedArray(_, fields, n) => LeavesTimes(fields, n)
  }

  function Leaves(fields: seq<Field>): seq<Leaf>
    decreases fields, 0
  {
    if fields == [] then [] else LeavesOf(fields[0].ty) + Leaves(fields[1..])
  }

  function LeavesTimes(fields: seq<Field>, n: nat): seq<Leaf>
    decreases fields, 1, n
  {
    if n == 0 then [] else Leaves(fields) + LeavesTimes(fields, n - 1)
  }

  lemma {:induction false} LeavesSnoc(fields: seq<Field>, i: nat)
    requires i < |fields|
    ensures Leaves(fields[..i + 1]) == Leaves(fields[..i]) + LeavesOf(fields[i].ty)
  {
    if i == 0 {
      assert fields[..1][1..] == [] && fields[..1][0] == fields[0];
    } else {
      LeavesSnoc(fields[1..], i - 1);
      assert fields[..i + 1][1..] == fields[1..][..i] && fields[..i][1..] == fields[1..][..i - 1];
    }
  }

  lemma {:induction false} LeavesTimesSnoc(fields: seq<Field>, n: nat)
    ensures LeavesTimes(fields, n + 1) == LeavesTimes(fields, n) + Leaves(fields)
  {
    if n > 0 {
      LeavesTimesSnoc(fields, n - 1);
    }
  }

  predicate ValidLeaves(leaves: seq<Leaf>) {
    forall j | 0 <= j < |leaves| :: leaves[j].Valid()
  }

  // ---- messages ----

  /** A struct member: the bytes of a primitive or of an array of primitives, the characters of a
      string without the terminator, a nested struct, or an array of nested structs. */
  datatype Value = Leaf(content: seq<byte>) | Struct(members: seq<Value>) | Array(items: seq<Value>)

  /** The members have the layout the type asks for. */
  predicate ShapedOf(ty: FieldType, v: Value)
    decreases ty, 0
  {
    match ty
    case Primitive(_) => v.Leaf?
    case PrimArray(_, _) => v.Leaf?
    case Nested(_, fields) => v.Struct? && Shaped(fields, v.members)
    case NestedArray(_, fields, n) => v.Array? && ShapedTimes(fields, n, v.items)
  }

  predicate Shaped(fields: seq<Field>, msg: seq<Value>)
    decreases fields, 0
  {
    |msg| == |fields| && (fields != [] ==> ShapedOf(fields[0].ty, msg[0]) && Shaped(fields[1..], msg[1..]))
  }

  predicate ShapedTimes(fields: seq<Field>, n: nat, items: seq<Value>)
    decreases fields, 1, n
  {
    |items| == n &&
    (n > 0 ==> items[0].Struct? && Shaped(fields, items[0].members) && ShapedTimes(fields, n - 1, items[1..]))
  }

  function FlattenOf(v: Value): seq<seq<byte>>
    decreases v, 0
  {
    match v
    case Leaf(content) => [content]
    case Struct(members) => Flatten(members)
    case Array(items) => Flatten(items)
  }

  function Flatten(msg: seq<Value>): seq<seq<byte>>
    decreases msg, 0
  {
    if msg == [] then [] else FlattenOf(msg[0]) + Flatten(msg[1..])
  }

  lemma {:induction false} FlattenCountOf(ty: FieldType, v: Value)
    requires ShapedOf(ty, v)
    ensures |FlattenOf(v)| == |LeavesOf(ty)|
    decreases ty, 0
  {
    match ty
    case Primitive(_) =>
    case PrimArray(_, _) =>
    case Nested(_, fields) => FlattenCount(fields, v.members);
    case NestedArray(_, fields, n) => FlattenCountTimes(fields, n, v.items);
  }

  lemma {:induction false} FlattenCount(fields: seq<Field>, msg: seq<Value>)
    requires Shaped(fields, msg)
    ensures |Flatten(msg)| == |Leaves(fields)|
    decreases fields, 0
  {
    if fields != [] {
      FlattenCountOf(fields[0].ty, msg[0]);
      FlattenCount(fields[1..], msg[1..]);
    }
  }

  lemma {:induction false} FlattenCountTimes(fields: seq<Field>, n: nat, items: seq<Value>)
    requires ShapedTimes(fields, n, items)
    ensures |Flatten(items)| == |LeavesTimes(fields, n)|
    decreases fields, 1, n
  {
    if n > 0 {
      FlattenCount(fields, items[0].members);
      FlattenCountTimes(fields, n - 1, items[1..]);
    }
  }

  /** A message is determined by its leaves. */
  lemma {:induction false} FlattenInjectiveOf(ty: FieldType, v: Value, w: Value)
    requires ShapedOf(ty, v) && ShapedOf(ty, w) && FlattenOf(v) == FlattenOf(w)
    ensures v == w
    decreases ty, 0
  {
    match ty
    case Primitive(_) => assert FlattenOf(v)[0] == FlattenOf(w)[0];
    case PrimArray(_, _) => assert FlattenOf(v)[0] == FlattenOf(w)[0];
    case Nested(_, fields) => FlattenInjective(fields, v.members, w.members);
    case NestedArray(_, fields, n) => FlattenInjectiveTimes(fields, n, v.items, w.items);
  }

  lemma {:induction false} FlattenInjective(fields: seq<Field>, v: seq<Value>, w: seq<Value>)
    requires Shaped(fields, v) && Shaped(fields, w) && Flatten(v) == Flatten(w)
    ensures v == w
    decreases fields, 0
  {
    if fields != [] {
      FlattenCountOf(fields[0].ty, v[0]);
      FlattenCountOf(fields[0].ty, w[0]);
      SplitSame(FlattenOf(v[0]), Flatten(v[1..]), FlattenOf(w[0]), Flatten(w[1..]));
      FlattenInjectiveOf(fields[0].ty, v[0], w[0]);
      FlattenInjective(fields[1..], v[1..], w[1..]);
      assert v == [v[0]] + v[1..] && w == [w[0]] + w[1..];
    }
  }

  lemma {:induction false} FlattenInjectiveTimes(fields: seq<Field>, n: nat, v: seq<Value>, w: seq<Value>)
    requires ShapedTimes(fields, n, v) && ShapedTimes(fields, n, w) && Flatten(v) == Flatten(w)
    ensures v == w
    decreases fields, 1, n
  {
    if n > 0 {
      FlattenCount(fields, v[0].members);
      FlattenCount(fields, w[0].members);
      SplitSame(FlattenOf(v[0]), Flatten(v[1..]), FlattenOf(w[0]), Flatten(w[1..]));
      FlattenInjective(fields, v[0].members, w[0].members);
      FlattenInjectiveTimes(fields, n - 1, v[1..], w[1..]);
      assert v == [v[0]] + v[1..] && w == [w[0]] + w[1..];
    }
  }

  lemma SplitSame<T>(a: seq<T>, b: seq<T>, c: seq<T>, d: seq<T>)
    requires a + b == c + d && |a| == |c|
    ensures a == c && b == d
  {
    assert a == (a + b)[..|a|] && b == (a + b)[|a|..];
    assert c == (c + d)[..|c|] && d == (c + d)[|c|..];
  }

  // ---- the calls of a message ----

  /** n elements of width w. */
  function Span(n: nat, w: nat): nat
    requires Width(w)
  {
    match w
    case 1 => n
    case 2 => 2 * n
    case 4 => 4 * n
    case _ => 8 * n
  }

  lemma SpanDivides(n: nat, w: nat)
    requires Width(w)
    ensures Mod(Span(n, w), w) == 0
  {
  }

  const STRING_CAPACITY: nat := 256

  /** What a conforming message holds at a leaf. */
  predicate LeafConforms(leaf: Leaf, content: seq<byte>) {
    match leaf
    case One(p) =>
      if p.String? then |content| < STRING_CAPACITY && 0 !in content
      else |content| == p.Size() && (p.Bool? ==> content[0] == 0 || content[0] == 1)
    case Many(p, n) => !p.String? && |content| == Span(n, p.Size())
  }

  predicate LeavesConform(leaves: seq<Leaf>, contents: seq<seq<byte>>) {
    |contents| == |leaves| && forall j | 0 <= j < |leaves| :: LeafConforms(leaves[j], contents[j])
  }

  predicate Conforms(fields: seq<Field>, msg: seq<Value>) {
    Shaped(fields, msg) && LeavesConform(Leaves(fields), Flatten(msg))
  }

  /** The serialize calls for one leaf: a string is its length with the terminator, then its bytes. */
  function LeafOps(leaf: Leaf, content: seq<byte>): (ops: seq<Op>)
    requires leaf.Valid() && LeafConforms(leaf, content)
    ensures ValidOps(ops)
  {
    match leaf
    case One(p) =>
      if p.String? then [Op(Scalar, 4, PutU32(|content| + 1)), Op(Block, 1, content + [0])]
      else [Op(Scalar, p.Size(), content)]
    case Many(p, n) =>
      SpanDivides(n, p.Size());
      [Op(Block, p.Size(), content)]
  }

  function Ops(leaves: seq<Leaf>, contents: seq<seq<byte>>): (ops: seq<Op>)
    requires ValidLeaves(leaves) && LeavesConform(leaves, contents)
    ensures ValidOps(ops)
    decreases leaves
  {
    if leaves == [] then [] else LeafOps(leaves[0], contents[0]) + Ops(leaves[1..], contents[1..])
  }

  lemma OpsCons(leaves: seq<Leaf>, contents: seq<seq<byte>>)
    requires leaves != [] && ValidLeaves(leaves) && LeavesConform(leaves, contents)
    ensures leaves[0].Valid() && LeafConforms(leaves[0], contents[0])
    ensures ValidLeaves(leaves[1..]) && LeavesConform(leaves[1..], contents[1..])
    ensures Ops(leaves, contents) == LeafOps(leaves[0], contents[0]) + Ops(leaves[1..], contents[1..])
  {
    hide LeafOps, LeafConforms, Leaf.Valid;
  }

  lemma {:induction false} OpsConcat(a: seq<Leaf>, x: seq<seq<byte>>, b: seq<Leaf>, y: seq<seq<byte>>)
    requires ValidLeaves(a) && ValidLeaves(b) && LeavesConform(a, x) && LeavesConform(b, y)
    ensures ValidLeaves(a + b) && LeavesConform(a + b, x + y)
    ensures Ops(a + b, x + y) == Ops(a, x) + Ops(b, y)
    decreases a
  {
    hide LeafOps, Leaf.Valid, LeafConforms, Ops, ValidOps;
    ConformConcat(a, x, b, y);
    if a == [] {
      assert a + b == b && x + y == y;
      NoOps();
    } else {
      OpsCons(a, x);
      OpsCons(a + b, x + y);
      OpsConcat(a[1..], x[1..], b, y);
      assert (a + b)[1..] == a[1..] + b && (x + y)[1..] == x[1..] + y;
    }
  }

  lemma NoOps()
    ensures Ops([], []) == []
  {
  }

  lemma ConformConcat(a: seq<Leaf>, x: seq<seq<byte>>, b: seq<Leaf>, y: seq<seq<byte>>)
    requires ValidLeaves(a) && ValidLeaves(b) && LeavesConform(a, x) && LeavesConform(b, y)
    ensures ValidLeaves(a + b) && LeavesConform(a + b, x + y)
  {
    hide Leaf.Valid, LeafConforms;
  }
}
