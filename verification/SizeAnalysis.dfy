/** The generator's worst-case size of a message type, and what it promises about every message the
    generated serializer writes. The analysis tracks the write position as a residue r modulo m. */
module SizeAnalysis {
  import opened Cdr
  import opened FieldTree

  const ENCAP_HEADER_LEN: nat := 4
  const STRING_MAX_BYTES: nat := 256

  datatype Pos = Pos(r: nat, m: nat) {
    predicate Valid() {
      Width(m) && r < m
    }

    /** The position the analysis describes may be pos. */
    predicate Covers(pos: nat)
      requires Valid()
    {
      Mod(pos, m) == r
    }
  }

  const MESSAGE_START := Pos(0, 8)

  /** (n - x % n) % n */
  function PadFrom(x: nat, n: nat): (pad: nat)
    requires Width(n)
    ensures pad == Pad(x, n)
  {
    Mod(n - Mod(x, n), n)
  }

  /** The largest padding among the first count residues r, r + m, r + 2m and so on. */
  function MaxPad(r: nat, m: nat, align: nat, count: nat): nat
    requires Width(align) && Width(m)
  {
    if count == 0 then 0
    else
      var pad := PadFrom(r + Span(count - 1, m), align);
      var rest := MaxPad(r, m, align, count - 1);
      if pad > rest then pad else rest
  }

  /** align / m for align at least m. */
  function Ratio(align: nat, m: nat): nat
    requires Width(align) && Width(m)
  {
    match m
    case 1 => align
    case 2 => align / 2
    case 4 => align / 4
    case _ => align / 8
  }

  function Add(pos: Pos, align: nat, size: nat): (r: (Pos, nat))
    requires pos.Valid() && Width(align)
    ensures r.0.Valid()
  {
    if align <= pos.m then
      var pad := PadFrom(pos.r, align);
      (Pos(Mod(pos.r + pad + size, pos.m), pos.m), pad + size)
    else
      (Pos(Mod(size, align), align), MaxPad(pos.r, pos.m, align, Ratio(align, pos.m)) + size)
  }

  function AddPrim(pos: Pos, prim: Prim): (r: (Pos, nat))
    requires pos.Valid()
    ensures r.0.Valid()
  {
    if prim.String? then (Pos(0, 1), Add(pos, 4, 4).1 + STRING_MAX_BYTES)
    else Add(pos, prim.Align(), prim.Size())
  }

  function AddMany(pos: Pos, prim: Prim, n: nat): (r: (Pos, nat))
    requires pos.Valid()
    ensures r.0.Valid()
    decreases n
  {
    if n == 0 then (pos, 0)
    else
      var (p, k) := AddPrim(pos, prim);
      var (q, rest) := AddMany(p, prim, n - 1);
      (q, k + rest)
  }

  function AddLeaf(pos: Pos, leaf: Leaf): (r: (Pos, nat))
    requires pos.Valid()
    ensures r.0.Valid()
  {
    match leaf
    case One(p) => AddPrim(pos, p)
    case Many(p, n) => AddMany(pos, p, n)
  }

  /** The analysis of the leaves in order. */
  function MaxSize(leaves: seq<Leaf>, pos: Pos): (r: (Pos, nat))
    requires pos.Valid()
    ensures r.0.Valid()
    decreases leaves
  {
    if leaves == [] then (pos, 0)
    else
      var (p, k) := AddLeaf(pos, leaves[0]);
      var (q, rest) := MaxSize(leaves[1..], p);
      (q, k + rest)
  }

  lemma {:induction false} MaxSizeConcat(a: seq<Leaf>, b: seq<Leaf>, pos: Pos)
    requires pos.Valid()
    ensures var (p, k) := MaxSize(a, pos);
            var (q, l) := MaxSize(b, p);
            MaxSize(a + b, pos) == (q, k + l)
    decreases a
  {
    hide AddLeaf;
    if a == [] {
      assert a + b == b;
    } else {
      MaxSizeConcat(a[1..], b, AddLeaf(pos, a[0]).0);
      assert (a + b)[1..] == a[1..] + b;
    }
  }

  function MaxPayloadSize(fields: seq<Field>): nat {
    ENCAP_HEADER_LEN + MaxSize(Leaves(fields), MESSAGE_START).1
  }

  // ---- as the generator computes it ----

  class CdrPos {
    var r: nat
    var m: nat

    constructor (r: nat, m: nat)
      ensures this.r == r && this.m == m
    {
      this.r, this.m := r, m;
    }

    function Abs(): Pos
      reads this
    {
      Pos(r, m)
    }

    method AddField(align: nat, size: nat) returns (n: nat)
      requires Abs().Valid() && Width(align)
      modifies this
      ensures (Abs(), n) == Add(old(Abs()), align, size)
    {
      hide Mod, Pad, PadFrom, Span, Ratio;
      var pad := 0;
      if align <= m {
        pad := PadFrom(r, align);
      } else {
        for k := 0 to Ratio(align, m)
          invariant pad == MaxPad(r, m, align, k)
        {
          var p := PadFrom(r + Span(k, m), align);
          if p > pad {
            pad := p;
          }
        }
      }
      if align > m {
        r, m := Mod(size, align), align;
      } else {
        r := Mod(r + pad + size, m);
      }
      n := pad + size;
    }

    method AddPrimitive(prim: Prim) returns (n: nat)
      requires Abs().Valid()
      modifies this
      ensures (Abs(), n) == AddPrim(old(Abs()), prim)
    {
      hide Add;
      if prim.String? {
        var lenPrefix := AddField(4, 4);
        r, m := 0, 1;
        n := lenPrefix + STRING_MAX_BYTES;
      } else {
        n := AddField(prim.Align(), prim.Size());
      }
    }
  }

  method MaxCdrSize(fields: seq<Field>, pos: CdrPos) returns (total: nat)
    requires pos.Abs().Valid()
    modifies pos
    ensures (pos.Abs(), total) == MaxSize(Leaves(fields), old(pos.Abs()))
    decreases fields, 0
  {
    hide MaxSize, Pos.Valid, Leaves, LeavesOf;
    total := 0;
    NoLeaves(pos.Abs());
    ghost var start := pos.Abs();
    assert fields[..0] == [];
    for i := 0 to |fields|
      invariant pos.Abs().Valid() && (pos.Abs(), total) == MaxSize(Leaves(fields[..i]), start)
    {
      ghost var before := pos.Abs();
      var n := MaxFieldSize(fields[i].ty, pos);
      total := total + n;
      MaxSizeConcat(Leaves(fields[..i]), LeavesOf(fields[i].ty), start);
      LeavesSnoc(fields, i);
    }
    assert fields[..|fields|] == fields;
  }

  lemma NoLeaves(pos: Pos)
    requires pos.Valid()
    ensures Leaves([]) == [] && MaxSize([], pos) == (pos, 0)
  {
  }

  method MaxFieldSize(ty: FieldType, pos: CdrPos) returns (n: nat)
    requires pos.Abs().Valid()
    modifies pos
    ensures (pos.Abs(), n) == MaxSize(LeavesOf(ty), old(pos.Abs()))
    decreases ty, 1
  {
    hide AddPrim, MaxSize, AddLeaf, Leaves, Pos.Valid;
    ghost var start := pos.Abs();
    NoLeaves(start);
    match ty {
      case Primitive(prim) =>
        n := pos.AddPrimitive(prim);
        MaxSizeOne(One(prim), start);
      case PrimArray(prim, len) =>
        n := 0;
        for i := 0 to len
          invariant pos.Abs().Valid() && (pos.Abs(), n) == AddMany(start, prim, i)
        {
          var k := pos.AddPrimitive(prim);
          n := n + k;
          AddManySnoc(start, prim, i);
        }
        MaxSizeOne(Many(prim, len), start);
      case Nested(_, nested) =>
        n := MaxCdrSize(nested, pos);
      case NestedArray(_, nested, len) =>
        n := 0;
        for i := 0 to len
          invariant pos.Abs().Valid() && (pos.Abs(), n) == MaxSize(LeavesTimes(nested, i), start)
        {
          var k := MaxCdrSize(nested, pos);
          n := n + k;
          MaxSizeConcat(LeavesTimes(nested, i), Leaves(nested), start);
          LeavesTimesSnoc(nested, i);
        }
    }
  }

  lemma MaxSizeOne(leaf: Leaf, pos: Pos)
    requires pos.Valid()
    ensures MaxSize([leaf], pos) == AddLeaf(pos, leaf)
    ensures AddLeaf(pos, leaf) == if leaf.One? then AddPrim(pos, leaf.prim) else AddMany(pos, leaf.prim, leaf.len)
  {
    hide AddPrim;
  }

  lemma {:induction false} AddManySnoc(pos: Pos, prim: Prim, n: nat)
    requires pos.Valid()
    ensures var (p, k) := AddMany(pos, prim, n);
            var (q, l) := AddPrim(p, prim);
            AddMany(pos, prim, n + 1) == (q, k + l)
    decreases n
  {
    hide AddPrim;
    if n > 0 {
      AddManySnoc(AddPrim(pos, prim).0, prim, n - 1);
    }
  }
}
