/** The generated serializer and deserializer as procedures on a Micro-CDR buffer, one call per field,
    and what they promise about whole messages. */
module GeneratedCode {
  import opened Bytes
  import opened Cdr
  import opened FieldTree
  import opened MicroCdr
  import opened UcdrBuffer
  import opened Serde

  // ---- messages that can be serialized ----

  predicate WritableOf(ty: FieldType, v: Value) {
    ValidLeaves(LeavesOf(ty)) && ShapedOf(ty, v) && LeavesConform(LeavesOf(ty), FlattenOf(v))
  }

  predicate Writable(fields: seq<Field>, msg: seq<Value>) {
    ValidLeaves(Leaves(fields)) && Conforms(fields, msg)
  }

  predicate WritableTimes(fields: seq<Field>, n: nat, items: seq<Value>) {
    ValidLeaves(LeavesTimes(fields, n)) && ShapedTimes(fields, n, items)
    && LeavesConform(LeavesTimes(fields, n), Flatten(items))
  }

  function MessageOps(fields: seq<Field>, msg: seq<Value>): (ops: seq<Op>)
    requires Writable(fields, msg)
    ensures ValidOps(ops)
  {
    Ops(Leaves(fields), Flatten(msg))
  }

  function FieldOps(ty: FieldType, v: Value): (ops: seq<Op>)
    requires WritableOf(ty, v)
    ensures ValidOps(ops)
  {
    Ops(LeavesOf(ty), FlattenOf(v))
  }

  function ItemsOps(fields: seq<Field>, n: nat, items: seq<Value>): (ops: seq<Op>)
    requires WritableTimes(fields, n, items)
    ensures ValidOps(ops)
  {
    Ops(LeavesTimes(fields, n), Flatten(items))
  }

  lemma Split(a: seq<Leaf>, b: seq<Leaf>, x: seq<seq<byte>>, y: seq<seq<byte>>)
    requires ValidLeaves(a + b) && LeavesConform(a + b, x + y) && |a| == |x|
    ensures ValidLeaves(a) && ValidLeaves(b) && LeavesConform(a, x) && LeavesConform(b, y)
    ensures Ops(a + b, x + y) == Ops(a, x) + Ops(b, y)
  {
    hide Leaf.Valid, LeafConforms, Ops;
    SplitLeft(a, b, x, y);
    SplitRight(a, b, x, y);
    OpsConcat(a, x, b, y);
  }

  lemma SplitLeft(a: seq<Leaf>, b: seq<Leaf>, x: seq<seq<byte>>, y: seq<seq<byte>>)
    requires ValidLeaves(a + b) && LeavesConform(a + b, x + y) && |a| == |x|
    ensures ValidLeaves(a) && LeavesConform(a, x)
  {
    hide Leaf.Valid, LeafConforms;
    forall j | 0 <= j < |a|
      ensures a[j].Valid() && LeafConforms(a[j], x[j])
    {
      assert (a + b)[j] == a[j] && (x + y)[j] == x[j];
    }
  }

  lemma SplitRight(a: seq<Leaf>, b: seq<Leaf>, x: seq<seq<byte>>, y: seq<seq<byte>>)
    requires ValidLeaves(a + b) && LeavesConform(a + b, x + y) && |a| == |x|
    ensures ValidLeaves(b) && LeavesConform(b, y)
  {
    hide Leaf.Valid, LeafConforms;
    forall j | 0 <= j < |b|
      ensures b[j].Valid() && LeafConforms(b[j], y[j])
    {
      assert (a + b)[|a| + j] == b[j] && (x + y)[|a| + j] == y[j];
    }
  }

  lemma WritableCons(fields: seq<Field>, msg: seq<Value>)
    requires Writable(fields, msg) && fields != []
    ensures msg != [] && WritableOf(fields[0].ty, msg[0]) && Writable(fields[1..], msg[1..])
    ensures MessageOps(fields, msg) == FieldOps(fields[0].ty, msg[0]) + MessageOps(fields[1..], msg[1..])
  {
    hide ValidLeaves, LeavesConform, Ops, LeavesOf, FlattenOf;
    FlattenCountOf(fields[0].ty, msg[0]);
    Split(LeavesOf(fields[0].ty), Leaves(fields[1..]), FlattenOf(msg[0]), Flatten(msg[1..]));
  }

  lemma WritableTimesCons(fields: seq<Field>, n: nat, items: seq<Value>)
    requires WritableTimes(fields, n, items) && n > 0
    ensures Writable(fields, items[0].members) && WritableTimes(fields, n - 1, items[1..])
    ensures ItemsOps(fields, n, items) == MessageOps(fields, items[0].members) + ItemsOps(fields, n - 1, items[1..])
  {
    hide ValidLeaves, LeavesConform, Ops, Leaves;
    FlattenCount(fields, items[0].members);
    assert FlattenOf(items[0]) == Flatten(items[0].members);
    Split(Leaves(fields), LeavesTimes(fields, n - 1), Flatten(items[0].members), Flatten(items[1..]));
  }

  // ---- the serializer ----

  /** What a generated function returns: the conjunction of what its calls returned. Each of them
      returns whether the buffer is free of errors afterwards. */
  predicate Returned(ok: bool, ops: seq<Op>, b: Buffer) {
    ok == (ops == [] || !b.error)
  }

  lemma TwoParts(b: Buffer, x: seq<Op>, y: seq<Op>, okX: bool, okY: bool)
    requires b.Valid() && b.Aligned() && ValidOps(x) && ValidOps(y)
    requires Returned(okX, x, PutAll(b, x)) && Returned(okY, y, PutAll(PutAll(b, x), y))
    ensures ValidOps(x + y) && PutAll(b, x + y) == PutAll(PutAll(b, x), y)
    ensures Returned(okX && okY, x + y, PutAll(b, x + y))
  {
    hide PutAll, Buffer.Valid, Buffer.Aligned, Op.Valid;
    PutAllConcat(b, x, y);
    if PutAll(b, x).error {
      PutAllSticks(PutAll(b, x), y);
    }
    NothingPut(PutAll(b, x));
  }

  lemma OneOp(b: Buffer, op: Op)
    requires b.Valid() && b.Aligned() && op.Valid()
    ensures PutAll(b, [op]) == Put(b, op)
  {
    hide Put, Buffer.Valid, Buffer.Aligned;
    PutValid(b, op);
  }

  method SerializePrim(prim: Prim, content: seq<byte>, ub: Ucdr) returns (ok: bool)
    requires ub.Valid() && LeafConforms(One(prim), content)
    modifies ub, ub.memory
    ensures ub.surroundings == old(ub.surroundings)
    ensures ub.Valid() && ub.Abs() == PutAll(old(ub.Abs()), LeafOps(One(prim), content)) && ok == !ub.error
  {
    hide Ucdr.Placed, Put, Buffer.Valid, Buffer.Aligned, PutAll;
    if prim.String? {
      ok := SerializeString(content, ub);
    } else {
      OneOp(ub.Abs(), LeafOps(One(prim), content)[0]);
      if prim.Size() == 1 {
        assert content == [content[0]];
        ok := ub.SerializeByte(content[0]);
      } else {
        ok := ub.SerializeWord(content);
      }
    }
  }

  /** ucdr_serialize_sequence_char with the terminator: what the length call returns is ignored. */
  method SerializeString(content: seq<byte>, ub: Ucdr) returns (ok: bool)
    requires ub.Valid() && LeafConforms(One(String), content)
    modifies ub, ub.memory
    ensures ub.surroundings == old(ub.surroundings)
    ensures ub.Valid() && ub.Abs() == PutAll(old(ub.Abs()), LeafOps(One(String), content)) && ok == !ub.error
  {
    hide Ucdr.Placed, Put, Buffer.Valid, Buffer.Aligned, PutAll;
    ghost var ops := LeafOps(One(String), content);
    OneOp(ub.Abs(), ops[0]);
    PutValid(ub.Abs(), ops[0]);
    OneOp(Put(ub.Abs(), ops[0]), ops[1]);
    PutAllConcat(ub.Abs(), [ops[0]], [ops[1]]);
    assert ops == [ops[0]] + [ops[1]];
    var lengthOk := ub.SerializeWord(PutU32(|content| + 1));
    ok := ub.SerializeArray(content + [0], 1);
  }

  /** The generated serialize function of a struct. */
  method SerializeFields(fields: seq<Field>, msg: seq<Value>, ub: Ucdr) returns (ok: bool)
    requires ub.Valid() && Writable(fields, msg)
    modifies ub, ub.memory
    ensures ub.surroundings == old(ub.surroundings)
    ensures ub.Valid() && ub.Abs() == PutAll(old(ub.Abs()), MessageOps(fields, msg))
    ensures Returned(ok, MessageOps(fields, msg), ub.Abs())
    decreases fields, 0
  {
    hide Ucdr.Placed, Buffer.Valid, Buffer.Aligned, PutAll, Writable, WritableOf, MessageOps, FieldOps, Returned;
    if fields == [] {
      NoFields(msg);
      NothingPut(ub.Abs());
      return true;
    }
    WritableCons(fields, msg);
    var first := SerializeField(fields[0].ty, msg[0], ub);
    var rest := SerializeFields(fields[1..], msg[1..], ub);
    TwoParts(old(ub.Abs()), FieldOps(fields[0].ty, msg[0]), MessageOps(fields[1..], msg[1..]), first, rest);
    ok := first && rest;
  }

  lemma NoFields(msg: seq<Value>)
    requires Writable([], msg)
    ensures MessageOps([], msg) == [] && forall b: Buffer :: Returned(true, [], b)
  {
  }

  lemma NothingPut(b: Buffer)
    requires b.Valid() && b.Aligned()
    ensures PutAll(b, []) == b
  {
  }

  method SerializeField(ty: FieldType, v: Value, ub: Ucdr) returns (ok: bool)
    requires ub.Valid() && WritableOf(ty, v)
    modifies ub, ub.memory
    ensures ub.surroundings == old(ub.surroundings)
    ensures ub.Valid() && ub.Abs() == PutAll(old(ub.Abs()), FieldOps(ty, v))
    ensures Returned(ok, FieldOps(ty, v), ub.Abs())
    decreases ty, 1
  {
    hide Ucdr.Placed, Buffer.Valid, Buffer.Aligned, PutAll, Put;
    match ty {
      case Primitive(prim) =>
        OneLeaf(ty, v, One(prim));
        ok := SerializePrim(prim, v.content, ub);
      case PrimArray(prim, n) =>
        OneLeaf(ty, v, Many(prim, n));
        OneOp(ub.Abs(), LeafOps(Many(prim, n), v.content)[0]);
        ok := ub.SerializeArray(v.content, prim.Size());
      case Nested(_, fields) =>
        ok := SerializeFields(fields, v.members, ub);
      case NestedArray(_, fields, n) =>
        ok := SerializeItems(fields, n, v.items, ub);
    }
  }

  lemma OneLeaf(ty: FieldType, v: Value, leaf: Leaf)
    requires WritableOf(ty, v) && LeavesOf(ty) == [leaf] && v.Leaf?
    ensures leaf.Valid() && LeafConforms(leaf, v.content)
    ensures Ops(LeavesOf(ty), FlattenOf(v)) == LeafOps(leaf, v.content) != []
  {
    hide Leaf.Valid, LeafConforms, LeafOps;
    assert LeavesOf(ty)[0] == leaf && FlattenOf(v)[0] == v.content;
    assert [leaf][1..] == [] && [v.content][1..] == [];
    OpsOfLeaf(leaf, v.content);
  }

  lemma OpsOfLeaf(leaf: Leaf, content: seq<byte>)
    requires leaf.Valid() && LeafConforms(leaf, content)
    ensures LeafOps(leaf, content) != []
  {
  }

  /** How far the loop over the elements of an array of structs has come. */
  predicate ItemsDone(start: Buffer, fields: seq<Field>, items: seq<Value>, rest: seq<Value>, done: seq<Op>,
                      b: Buffer, ok: bool)
    requires start.Valid() && start.Aligned()
  {
    && WritableTimes(fields, |items|, items) && WritableTimes(fields, |rest|, rest)
    && ValidOps(done) && done + ItemsOps(fields, |rest|, rest) == ItemsOps(fields, |items|, items)
    && b == PutAll(start, done) && Returned(ok, done, b)
  }

  lemma ItemsStart(start: Buffer, fields: seq<Field>, items: seq<Value>)
    requires start.Valid() && start.Aligned() && WritableTimes(fields, |items|, items)
    ensures ItemsDone(start, fields, items, items, [], start, true)
  {
    hide Buffer.Valid, Buffer.Aligned, WritableTimes, ItemsOps;
  }

  lemma ItemsNext(start: Buffer, fields: seq<Field>, items: seq<Value>, rest: seq<Value>, done: seq<Op>, b: Buffer,
                  ok: bool)
    requires start.Valid() && start.Aligned() && ItemsDone(start, fields, items, rest, done, b, ok) && rest != []
    ensures rest[0].Struct? && Writable(fields, rest[0].members)
    ensures b.Valid() && b.Aligned()
    ensures var ops := MessageOps(fields, rest[0].members);
            forall c: Buffer, itemOk: bool | c == PutAll(b, ops) && Returned(itemOk, ops, c) ::
              ItemsDone(start, fields, items, rest[1..], done + ops, c, ok && itemOk)
  {
    hide Buffer.Valid, Buffer.Aligned, PutAll, Returned, ItemsOps, MessageOps, Op.Valid;
    WritableTimesCons(fields, |rest|, rest);
    var ops := MessageOps(fields, rest[0].members);
    forall c: Buffer, itemOk: bool | c == PutAll(b, ops) && Returned(itemOk, ops, c)
      ensures ItemsDone(start, fields, items, rest[1..], done + ops, c, ok && itemOk)
    {
      TwoParts(start, done, ops, ok, itemOk);
      OneMoreDone(start, fields, items, rest, done, ops, c, ok && itemOk);
    }
  }

  lemma {:induction false} OneMoreDone(start: Buffer, fields: seq<Field>, items: seq<Value>, rest: seq<Value>,
                                       done: seq<Op>, ops: seq<Op>, c: Buffer, ok: bool)
    requires start.Valid() && start.Aligned() && rest != []
    requires WritableTimes(fields, |items|, items) && WritableTimes(fields, |rest| - 1, rest[1..])
    requires ValidOps(done + ops) && c == PutAll(start, done + ops) && Returned(ok, done + ops, c)
    requires done + (ops + ItemsOps(fields, |rest| - 1, rest[1..])) == ItemsOps(fields, |items|, items)
    ensures ItemsDone(start, fields, items, rest[1..], done + ops, c, ok)
  {
    hide Buffer.Valid, Buffer.Aligned, PutAll, Returned, WritableTimes, ItemsOps, Op.Valid;
  }

  lemma ItemsEnd(start: Buffer, fields: seq<Field>, items: seq<Value>, done: seq<Op>, b: Buffer, ok: bool)
    requires start.Valid() && start.Aligned() && ItemsDone(start, fields, items, [], done, b, ok)
    ensures b == PutAll(start, ItemsOps(fields, |items|, items)) && Returned(ok, ItemsOps(fields, |items|, items), b)
  {
    hide Buffer.Valid, Buffer.Aligned, PutAll;
    assert done + [] == done;
  }

  lemma ItemsCount(fields: seq<Field>, n: nat, items: seq<Value>)
    requires WritableTimes(fields, n, items)
    ensures |items| == n
  {
  }

  /** The loop over the elements of an array of structs. */
  method SerializeItems(fields: seq<Field>, n: nat, items: seq<Value>, ub: Ucdr) returns (ok: bool)
    requires ub.Valid() && WritableTimes(fields, n, items)
    modifies ub, ub.memory
    ensures ub.surroundings == old(ub.surroundings)
    ensures ub.Valid() && ub.Abs() == PutAll(old(ub.Abs()), ItemsOps(fields, n, items))
    ensures Returned(ok, ItemsOps(fields, n, items), ub.Abs())
    decreases fields, 1
  {
    hide Ucdr.Placed, Buffer.Valid, Buffer.Aligned, PutAll, Writable, MessageOps, ItemsOps, Returned, ItemsDone;
    hide WritableTimes;
    ok := true;
    ghost var start, done: seq<Op> := ub.Abs(), [];
    ItemsCount(fields, n, items);
    assert items[0..] == items;
    ItemsStart(start, fields, items);
    for i := 0 to n
      invariant ub.surroundings == old(ub.surroundings)
      invariant ub.Valid() && ItemsDone(start, fields, items, items[i..], done, ub.Abs(), ok)
    {
      ItemsNext(start, fields, items, items[i..], done, ub.Abs(), ok);
      var itemOk := SerializeFields(fields, items[i].members, ub);
      done := done + MessageOps(fields, items[i].members);
      ok := ok && itemOk;
      assert items[i..][1..] == items[i + 1..];
    }
    assert items[n..] == [];
    ItemsEnd(start, fields, items, done, ub.Abs(), ok);
  }

  // ---- the deserializer ----

  /** b, contents and ok are what reading the leaves from start on gives; contents are only promised
      when nothing failed. */
  predicate ReadAs(start: Buffer, leaves: seq<Leaf>, stale: seq<Stale>, b: Buffer, contents: seq<seq<byte>>, ok: bool)
    requires start.Valid() && start.Aligned() && ValidLeaves(leaves) && |stale| == |leaves|
  {
    var r := ReadLeaves(start, leaves, stale);
    b == r.buf && ok == r.ok && (!b.error ==> contents == r.contents)
  }

  lemma ReadNothing(start: Buffer)
    requires start.Valid() && start.Aligned()
    ensures ReadAs(start, [], [], start, [], true)
  {
  }

  lemma ReadBoth(start: Buffer, x: seq<Leaf>, s: seq<Stale>, b: Buffer, p: seq<seq<byte>>, okX: bool,
                 y: seq<Leaf>, t: seq<Stale>, c: Buffer, q: seq<seq<byte>>, okY: bool)
    requires start.Valid() && start.Aligned() && ValidLeaves(x) && ValidLeaves(y) && |s| == |x| && |t| == |y|
    requires ReadAs(start, x, s, b, p, okX) && b.Valid() && b.Aligned() && ReadAs(b, y, t, c, q, okY)
    ensures ReadAs(start, x + y, s + t, c, p + q, okX && okY)
  {
    hide Buffer.Valid, Buffer.Aligned, Leaf.Valid, ReadLeaves;
    ReadLeavesConcat(start, x, y, s, t);
    if b.error {
      ReadLeavesStick(b, y, t);
    }
  }

  lemma ReadOne(start: Buffer, leaf: Leaf, stale: seq<Stale>)
    requires start.Valid() && start.Aligned() && leaf.Valid() && |stale| == 1
    ensures ReadLeaf(start, leaf, stale[0]).buf.Valid() && ReadLeaf(start, leaf, stale[0]).buf.Aligned()
    ensures var r := ReadLeaf(start, leaf, stale[0]);
            ReadLeaves(start, [leaf], stale) == Readings(r.buf, [r.content], r.ok)
  {
    hide ReadLeaf, Leaf.Valid, Buffer.Valid, Buffer.Aligned;
    assert [leaf][1..] == [] && stale[1..] == [];
  }

  method DeserializePrim(prim: Prim, ub: Ucdr, stale: Stale) returns (ok: bool, content: seq<byte>)
    requires ub.Valid()
    modifies ub
    ensures ub.Valid()
    ensures var r := ReadLeaf(old(ub.Abs()), One(prim), stale);
            ub.Abs() == r.buf && ok == r.ok && (!ub.error ==> content == r.content)
  {
    hide Ucdr.Placed, Get, Buffer.Valid, Buffer.Aligned, GetString, Shape.Valid;
    if prim.String? {
      ok, content := DeserializeString(ub, stale);
    } else {
      LeafShapeValid(One(prim));
      if prim.Size() == 1 {
        var value;
        ok, value := ub.DeserializeByte();
        content := [if prim.Bool? then Truth(value) else value];
      } else {
        ok, content := ub.DeserializeWord(prim.Size());
      }
    }
  }

  method DeserializeString(ub: Ucdr, stale: Stale) returns (ok: bool, chars: seq<byte>)
    requires ub.Valid()
    modifies ub
    ensures ub.Valid()
    ensures var r := GetString(old(ub.Abs()), stale);
            ub.Abs() == r.buf && ok == r.ok && (!ub.error ==> chars == r.content)
  {
    hide Ucdr.Placed, Get, Buffer.Valid;
    ScalarShape(4);
    var length := stale.length;
    var lengthOk, raw := ub.DeserializeWord(4);
    if lengthOk {
      length := GetU32(raw);
    }
    if length > STRING_CAPACITY {
      ub.Reject();
    }
    if length == 0 {
      return true, stale.chars;
    }
    var bytes;
    ok, bytes := ub.DeserializeArray(length, 1);
    chars := Chars(bytes);
  }

  /** The generated deserialize function of a struct. */
  method DeserializeFields(fields: seq<Field>, ub: Ucdr, stale: seq<Stale>) returns (ok: bool, msg: seq<Value>)
    requires ub.Valid() && ValidLeaves(Leaves(fields)) && |stale| == |Leaves(fields)|
    modifies ub
    ensures ub.Valid() && Shaped(fields, msg)
    ensures ReadAs(old(ub.Abs()), Leaves(fields), stale, ub.Abs(), Flatten(msg), ok)
    decreases fields, 0
  {
    hide Ucdr.Placed, Buffer.Valid, Buffer.Aligned, ReadAs, Leaf.Valid;
    if fields == [] {
      ReadNothing(ub.Abs());
      assert stale == [];
      return true, [];
    }
    var x, y := LeavesOf(fields[0].ty), Leaves(fields[1..]);
    LeavesValid(x, y);
    var first, v := DeserializeField(fields[0].ty, ub, stale[..|x|]);
    ghost var middle := ub.Abs();
    var rest, others := DeserializeFields(fields[1..], ub, stale[|x|..]);
    ReadBoth(old(ub.Abs()), x, stale[..|x|], middle, FlattenOf(v), first,
             y, stale[|x|..], ub.Abs(), Flatten(others), rest);
    ok, msg := first && rest, [v] + others;
    assert msg[1..] == others && stale[..|x|] + stale[|x|..] == stale;
  }

  lemma LeavesValid(x: seq<Leaf>, y: seq<Leaf>)
    requires ValidLeaves(x + y)
    ensures ValidLeaves(x) && ValidLeaves(y)
  {
    hide Leaf.Valid;
    forall j | 0 <= j < |x|
      ensures x[j].Valid()
    {
      assert (x + y)[j] == x[j];
    }
    forall j | 0 <= j < |y|
      ensures y[j].Valid()
    {
      assert (x + y)[|x| + j] == y[j];
    }
  }

  method DeserializeField(ty: FieldType, ub: Ucdr, stale: seq<Stale>) returns (ok: bool, v: Value)
    requires ub.Valid() && ValidLeaves(LeavesOf(ty)) && |stale| == |LeavesOf(ty)|
    modifies ub
    ensures ub.Valid() && ShapedOf(ty, v)
    ensures ReadAs(old(ub.Abs()), LeavesOf(ty), stale, ub.Abs(), FlattenOf(v), ok)
    decreases ty, 1
  {
    hide Ucdr.Placed, Buffer.Valid, Buffer.Aligned, Get;
    match ty {
      case Primitive(prim) =>
        assert LeavesOf(ty)[0] == One(prim);
        ReadOne(ub.Abs(), One(prim), stale);
        var content;
        ok, content := DeserializePrim(prim, ub, stale[0]);
        v := Value.Leaf(content);
      case PrimArray(prim, n) =>
        var leaf := Many(prim, n);
        assert LeavesOf(ty)[0] == leaf;
        ReadOne(ub.Abs(), leaf, stale);
        LeafShapeValid(leaf);
        var content;
        ok, content := ub.DeserializeArray(Span(n, prim.Size()), prim.Size());
        v := Value.Leaf(content);
      case Nested(_, fields) =>
        var members;
        ok, members := DeserializeFields(fields, ub, stale);
        v := Struct(members);
      case NestedArray(_, fields, n) =>
        var items;
        ok, items := DeserializeItems(fields, n, ub, stale);
        v := Array(items);
    }
  }

  method DeserializeItems(fields: seq<Field>, n: nat, ub: Ucdr, stale: seq<Stale>) returns (ok: bool, items: seq<Value>)
    requires ub.Valid() && ValidLeaves(LeavesTimes(fields, n)) && |stale| == |LeavesTimes(fields, n)|
    modifies ub
    ensures ub.Valid() && ShapedTimes(fields, n, items)
    ensures ReadAs(old(ub.Abs()), LeavesTimes(fields, n), stale, ub.Abs(), Flatten(items), ok)
    decreases fields, 1
  {
    hide Ucdr.Placed, Buffer.Valid, Buffer.Aligned, ReadAs, Leaf.Valid, ShapedTimes;
    ok, items := true, [];
    var at, per := 0, |Leaves(fields)|;
    ReadNothing(ub.Abs());
    NoItems(fields);
    assert stale[..0] == [];
    for i := 0 to n
      invariant ub.Valid() && ShapedTimes(fields, i, items)
      invariant ValidLeaves(LeavesTimes(fields, i)) && at == |LeavesTimes(fields, i)| <= |stale|
      invariant ReadAs(old(ub.Abs()), LeavesTimes(fields, i), stale[..at], ub.Abs(), Flatten(items), ok)
    {
      MoreItems(fields, i, n);
      ghost var before := ub.Abs();
      var itemOk, members := DeserializeFields(fields, ub, stale[at..at + per]);
      ReadBoth(old(ub.Abs()), LeavesTimes(fields, i), stale[..at], before, Flatten(items), ok,
               Leaves(fields), stale[at..at + per], ub.Abs(), Flatten(members), itemOk);
      ItemAppended(fields, i, items, members);
      assert stale[..at] + stale[at..at + per] == stale[..at + per];
      ok, items, at := ok && itemOk, items + [Struct(members)], at + per;
    }
    assert stale[..at] == stale;
  }

  lemma NoItems(fields: seq<Field>)
    ensures ShapedTimes(fields, 0, [])
  {
  }

  /** The leaves of one more element are among those of all n. */
  lemma {:induction false} MoreItems(fields: seq<Field>, i: nat, n: nat)
    requires i < n && ValidLeaves(LeavesTimes(fields, n))
    ensures ValidLeaves(Leaves(fields)) && ValidLeaves(LeavesTimes(fields, i + 1))
    ensures LeavesTimes(fields, i + 1) == LeavesTimes(fields, i) + Leaves(fields)
    ensures |LeavesTimes(fields, i + 1)| <= |LeavesTimes(fields, n)|
    decreases n
  {
    hide Leaf.Valid;
    LeavesTimesSnoc(fields, i);
    LeavesTimesSnoc(fields, n - 1);
    LeavesValid(LeavesTimes(fields, n - 1), Leaves(fields));
    if i + 1 < n {
      MoreItems(fields, i, n - 1);
    }
  }

  lemma {:induction false} ItemAppended(fields: seq<Field>, n: nat, items: seq<Value>, members: seq<Value>)
    requires ShapedTimes(fields, n, items) && Shaped(fields, members)
    ensures ShapedTimes(fields, n + 1, items + [Struct(members)])
    ensures Flatten(items + [Struct(members)]) == Flatten(items) + Flatten(members)
    decreases n
  {
    hide Shaped;
    var more := items + [Struct(members)];
    if n == 0 {
      assert more == [Struct(members)] && more[1..] == [];
    } else {
      ItemAppended(fields, n - 1, items[1..], members);
      assert more[1..] == items[1..] + [Struct(members)];
    }
  }

  // ---- whole messages ----

  /** On one buffer or many, the serializer returns true iff the message fits in what is left; then the
      memory is the standard's layout and the cursor has advanced by the message's CDR size. */
  lemma {:induction false} SerializerExact(b: Buffer, fields: seq<Field>, msg: seq<Value>, c: Buffer, ok: bool)
    requires b.Valid() && b.Aligned() && !b.error && Writable(fields, msg)
    requires c == PutAll(b, MessageOps(fields, msg)) && Returned(ok, MessageOps(fields, msg), c)
    ensures var n := Size(MessageOps(fields, msg), b.offset);
            && (ok <==> n <= b.Room())
            && (ok ==> !c.error && c.iter == b.iter + n && c.offset == b.offset + n
                       && c.mem == Image(MessageOps(fields, msg), b.mem, b.iter, b.offset))
  {
    hide Image, Size, PutAll, Sum;
    hide MessageOps;
    PutAllExact(b, MessageOps(fields, msg));
    if MessageOps(fields, msg) == [] {
      NothingPut(b);
      NoSize([], b.offset);
    }
    RoomLeft(b);
  }

  /** What the serializer wrote through buffer a, the deserializer reads back through buffer b over the
      same memory: the same message, ending at the same position, whatever the slots of either. */
  lemma {:induction false} CodecRoundTrip(fields: seq<Field>, msg: seq<Value>, a: Buffer, b: Buffer, stale: seq<Stale>,
                                          back: seq<Value>, end: Buffer, ok: bool)
    requires Writable(fields, msg) && |stale| == |Leaves(fields)|
    requires a.Valid() && a.Aligned() && !a.error && b.Valid() && b.Aligned() && !b.error
    requires Size(MessageOps(fields, msg), a.offset) <= a.Room()
    requires b.mem == PutAll(a, MessageOps(fields, msg)).mem && b.iter == a.iter && b.offset == a.offset
    requires Shaped(fields, back) && ReadAs(b, Leaves(fields), stale, end, Flatten(back), ok)
    ensures ok && back == msg && View(end) == View(PutAll(a, MessageOps(fields, msg)))
  {
    hide Sum, Image, Holds, Size, PutAll, ReadLeaves, Shaped, Flatten, Leaves, Leaf.Valid, LeafConforms, Buffer.Room;
    hide Buffer.Valid, Buffer.Aligned, Op.Valid, Ops, ValidLeaves, LeavesConform;
    var ops := MessageOps(fields, msg);
    PutAllExact(a, ops);
    RoomIs(a);
    ImageHolds(ops, a.mem, a.iter, a.offset);
    ReadLeavesBack(b, Leaves(fields), Flatten(msg), stale);
    FlattenInjective(fields, back, msg);
  }

  lemma RoomIs(b: Buffer)
    requires b.Valid()
    ensures b.Room() == |b.mem| - b.iter
  {
  }
}
