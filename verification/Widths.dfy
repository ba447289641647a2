/** How wide the primitive types are on the stream: just wide enough for the values their names promise. */
module Widths {
  import opened Bytes
  import opened Cdr
  import opened FieldTree
  import opened SizeAnalysis
  import opened SizeTheorems
  import opened LongestMessages
  import opened EmptyArrays

  /** How many values, or bit patterns, a type has. */
  function Patterns(p: Prim): nat
    requires !p.String?
  {
    match p
    case Bool => 2
    case Byte | Char | Int8 | Uint8 => 0x100
    case Int16 | Uint16 => 0x1_0000
    case Int32 | Uint32 | Float32 => 0x1_0000_0000
    case Int64 | Uint64 | Float64 => 0x1_0000_0000_0000_0000
  }

  /** How many values n bytes have. */
  function Power(n: nat): nat {
    if n == 0 then 1 else 256 * Power(n - 1)
  }

  lemma Powers()
    ensures Power(1) == 0x100 && Power(2) == 0x1_0000
    ensures Power(4) == 0x1_0000_0000 && Power(8) == 0x1_0000_0000_0000_0000
  {
    PowerNext(1);
    PowerNext(2);
    PowerNext(3);
    PowerNext(4);
    PowerNext(5);
    PowerNext(6);
    PowerNext(7);
    PowerNext(8);
  }

  lemma PowerNext(n: nat)
    requires n > 0
    ensures Power(0) == 1 && Power(n) == 256 * Power(n - 1)
  {
  }

  // ---- numbers and their bytes ----

  /** The number the bytes are, least significant first. */
  function Number(s: seq<byte>): nat {
    if s == [] then 0 else s[0] as nat + 256 * Number(s[1..])
  }

  function Spread(v: nat, n: nat): (s: seq<byte>)
    ensures |s| == n
  {
    if n == 0 then [] else [ByteOf(v % 256)] + Spread(v / 256, n - 1)
  }

  lemma {:induction false} NumberBound(s: seq<byte>)
    ensures Number(s) < Power(|s|)
  {
    if s != [] {
      NumberBound(s[1..]);
      PowerNext(|s|);
    }
  }

  lemma {:induction false} SpreadNumber(v: nat, n: nat)
    requires v < Power(n)
    ensures Number(Spread(v, n)) == v
  {
    hide ByteOf;
    if n > 0 {
      PowerNext(n);
      SpreadNumber(v / 256, n - 1);
      assert Spread(v, n)[1..] == Spread(v / 256, n - 1);
    }
  }

  lemma {:induction false} NumberInjective(s: seq<byte>, t: seq<byte>)
    requires |s| == |t| && Number(s) == Number(t)
    ensures s == t
  {
    if s != [] {
      LowDigits(s[0] as nat, Number(s[1..]), t[0] as nat, Number(t[1..]));
      SameByte(s[0], t[0]);
      NumberInjective(s[1..], t[1..]);
      assert s == [s[0]] + s[1..] && t == [t[0]] + t[1..];
    }
  }

  lemma LowDigits(a: nat, x: nat, b: nat, y: nat)
    requires a < 256 && b < 256 && a + 256 * x == b + 256 * y
    ensures a == b && x == y
  {
  }

  // ---- the types ----

  lemma SizePower(p: Prim)
    requires !p.String?
    ensures Power(p.Size()) == if p.Bool? then 256 else Patterns(p)
  {
    hide Power;
    Powers();
  }

  /** A conforming content is one of the type's values, and each value has just one. */
  lemma {:induction false} EveryValueOnce(p: Prim, v: nat)
    requires !p.String? && v < Patterns(p)
    ensures var content := Spread(v, p.Size());
            && LeafConforms(One(p), content) && Number(content) == v
            && forall other: seq<byte> | LeafConforms(One(p), other) && Number(other) == v :: other == content
  {
    hide Power, Number, Spread;
    SizePower(p);
    var content := Spread(v, p.Size());
    SpreadNumber(v, p.Size());
    if p.Bool? {
      OneByte(content);
    }
    forall other: seq<byte> | LeafConforms(One(p), other) && Number(other) == v
      ensures other == content
    {
      NumberInjective(other, content);
    }
  }

  lemma OneByte(s: seq<byte>)
    requires |s| == 1
    ensures Number(s) == s[0] as nat && (Number(s) < 2 <==> s[0] == 0 || s[0] == 1)
  {
    assert s[1..] == [];
    SmallByte(s[0]);
  }

  lemma SmallByte(b: byte)
    ensures b as nat < 2 <==> b == 0 || b == 1
  {
  }

  lemma {:induction false} NoOtherValue(p: Prim, content: seq<byte>)
    requires !p.String? && LeafConforms(One(p), content)
    ensures Number(content) < Patterns(p)
  {
    hide Power, Number;
    SizePower(p);
    NumberBound(content);
    if p.Bool? {
      OneByte(content);
    }
  }

  /** Alone in a message a value takes as many bytes as tell its type's values apart, and behind a single
      byte twice as many: it is aligned to its size. The generator promises the same numbers. */
  lemma {:induction false} ValueSize(p: Prim, name: string, content: seq<byte>, flags: byte)
    requires !p.String? && LeafConforms(One(p), content)
    ensures var fields, msg := [Field(name, Primitive(p))], [Value.Leaf(content)];
            && ValidLeaves(Leaves(fields)) && Conforms(fields, msg)
            && Power(MessageSize(fields, msg)) == (if p.Bool? then 256 else Patterns(p))
            && MaxPayloadSize(fields) == 4 + MessageSize(fields, msg)
            && var more, longer := [OCTET] + fields, [Value.Leaf([flags])] + msg;
               && ValidLeaves(Leaves(more)) && Conforms(more, longer)
               && MessageSize(more, longer) == 2 * MessageSize(fields, msg)
               && MaxPayloadSize(more) == 4 + MessageSize(more, longer)
  {
    hide Longest, Leaves, Shaped, Flatten, FullStrings, Power, Strings, MessageSize, MaxPayloadSize, NoneEmpty;
    hide Leaf.Valid, LeafConforms, Conforms, ValidLeaves;
    var field, leaf, value := Field(name, Primitive(p)), One(p), Value.Leaf(content);
    NoneLeft();
    ValueLeaf(p, name);
    Prepend(field, leaf, content, [], []);
    assert [field] + [] == [field] && [value] + [] == [value] && [leaf] + [] == [leaf];
    Prepend(OCTET, One(Uint8), [flags], [field], [value]);
    SizePower(p);
    Places(p);
    ExactSize([field], [value]);
    ExactSize([OCTET] + [field], [Value.Leaf([flags])] + [value]);
  }

  lemma ValueLeaf(p: Prim, name: string)
    requires !p.String?
    ensures LeavesOf(Field(name, Primitive(p)).ty) == [One(p)] && One(p).Valid()
    ensures LeavesOf(OCTET.ty) == [One(Uint8)] && One(Uint8).Valid()
    ensures forall flags: byte :: LeafConforms(One(Uint8), [flags])
    ensures Strings([One(p)]) == 0 && Strings([One(Uint8)] + [One(p)]) == 0
    ensures NoneEmpty([One(p)]) && NoneEmpty([One(Uint8)] + [One(p)])
  {
    assert [One(p)][1..] == [] && ([One(Uint8)] + [One(p)])[1..] == [One(p)];
  }

  /** Where the values stand. */
  lemma Places(p: Prim)
    requires !p.String?
    ensures Longest([One(p)], 0) == p.Size() && Longest([One(Uint8)] + [One(p)], 0) == 2 * p.Size()
  {
    hide Longest, Pad;
    NoneLeft();
    assert [One(p)] + [] == [One(p)];
    LongestCons(One(p), [], 0);
    LongestCons(One(p), [], 1);
    LongestCons(One(Uint8), [One(p)], 0);
    NextPlace(p.Size());
  }

  lemma NextPlace(w: nat)
    requires Width(w)
    ensures Pad(0, w) == 0 && 1 + Pad(1, w) == w && Pad(0, 1) == 0
  {
  }

  /** Without strings and arrays the promised size is the size. */
  lemma ExactSize(fields: seq<Field>, msg: seq<Value>)
    requires ValidLeaves(Leaves(fields)) && Conforms(fields, msg)
    requires Strings(Leaves(fields)) == 0 && NoneEmpty(Leaves(fields))
    ensures MessageSize(fields, msg) == Longest(Leaves(fields), 0)
    ensures MaxPayloadSize(fields) == 4 + MessageSize(fields, msg)
  {
    hide Size, Ops, Longest, Strings, Leaves, Flatten, Shaped, ValidLeaves, MaxSize, NoneEmpty, Unused;
    SizeIsLongest(Leaves(fields), Flatten(msg), 0);
    SizePrecise(fields, msg);
  }
}
