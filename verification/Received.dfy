/** What is read from any bytes at all, and that no string is longer than its destination. */
module Received {
  import opened Bytes
  import opened Cdr
  import opened FieldTree
  import opened MicroCdr
  import opened Serde

  /** The four bytes of a length arrived. */
  predicate LengthArrived(b: Buffer)
    requires b.Valid()
  {
    Pad(b.offset, 4) + 4 <= b.Room()
  }

  /** Four bytes of memory, least significant first. */
  function Word(mem: seq<byte>, at: nat): nat
    requires at + 4 <= |mem|
  {
    mem[at] as nat + 0x100 * mem[at + 1] as nat + 0x1_0000 * mem[at + 2] as nat + 0x100_0000 * mem[at + 3] as nat
  }

  /** The length they spell. */
  function WireLength(b: Buffer): nat
    requires b.Valid() && LengthArrived(b)
  {
    Word(b.mem, b.iter + Pad(b.offset, 4))
  }

  /** Bytes that follow the length. */
  function Behind(b: Buffer): nat
    requires b.Valid() && LengthArrived(b)
  {
    b.Room() - Pad(b.offset, 4) - 4
  }

  lemma WordAt(mem: seq<byte>, at: nat)
    requires at + 4 <= |mem|
    ensures GetU32(mem[at..at + 4]) == Word(mem, at)
  {
  }

  /** What a string call makes of any buffer in which the length arrived: refused when it is above 256, or
      when fewer bytes follow; else the bytes up to the first terminator. */
  lemma {:induction false} StringRead(b: Buffer, stale: Stale)
    requires b.Valid() && b.Aligned() && !b.error && LengthArrived(b)
    ensures var r, n := GetString(b, stale), WireLength(b);
            && (n > 256 ==> !r.ok && r.buf.error)
            && (n == 0 ==> r.ok && !r.buf.error && r.content == stale.chars)
            && (0 < n <= 256 ==>
                  && (r.ok <==> n <= Behind(b)) && (r.ok <==> !r.buf.error)
                  && (r.ok ==>
                        var at := b.iter + Pad(b.offset, 4) + 4;
                        && r.content == Chars(b.mem[at..at + n]) && |r.content| <= n && r.buf.mem == b.mem
                        && View(r.buf) == Cursor(at + n, b.offset + Pad(b.offset, 4) + 4 + n, false)))
  {
    hide Sum, Get, GetU32, Mod, Pad, Chars, WireLength, Behind, LengthArrived;
    hide Buffer.Valid, Buffer.Aligned, Buffer.Room;
    LengthRead(b);
    var n := WireLength(b);
    var c := Get(b, Shape(Scalar, 4, 4)).0;
    ReadStringTail(c, n);
    if 0 < n <= 256 {
      BytesRead(c, n);
    }
  }

  lemma LengthRead(b: Buffer)
    requires b.Valid() && b.Aligned() && !b.error && LengthArrived(b)
    ensures Shape(Scalar, 4, 4).Valid()
    ensures var (c, raw) := Get(b, Shape(Scalar, 4, 4));
            && c.Valid() && c.Aligned() && c.mem == b.mem && c.Room() == Behind(b)
            && View(c) == Cursor(b.iter + Pad(b.offset, 4) + 4, b.offset + Pad(b.offset, 4) + 4, false)
            && |raw| == 4 && GetU32(raw) == WireLength(b)
  {
    hide Sum, Get, GetU32, Mod, Pad;
    ScalarShape(4);
    GetExact(b, Shape(Scalar, 4, 4));
    WordAt(b.mem, b.iter + Pad(b.offset, 4));
  }

  lemma BytesRead(c: Buffer, n: nat)
    requires c.Valid() && c.Aligned() && !c.error && n > 0
    ensures Shape(Block, 1, n).Valid()
    ensures var (d, bytes) := Get(c, Shape(Block, 1, n));
            && (!d.error <==> n <= c.Room())
            && (!d.error ==> d.mem == c.mem && View(d) == Cursor(c.iter + n, c.offset + n, false)
                             && bytes == c.mem[c.iter..c.iter + n])
  {
    hide Sum, Get, Mod;
    GetExact(c, Shape(Block, 1, n));
  }

  lemma NoLength(b: Buffer, stale: Stale)
    requires b.Valid() && b.Aligned() && !b.error && !LengthArrived(b)
    ensures GetString(b, stale).buf.error
  {
    hide Sum, Get, GetU32, Mod, Pad, Chars;
    ScalarShape(4);
    GetExact(b, Shape(Scalar, 4, 4));
    ReadStringTail(Get(b, Shape(Scalar, 4, 4)).0, stale.length);
  }

  // ---- other leaves ----

  /** What a leaf that is no string takes, padding included. */
  function Needs(b: Buffer, leaf: Leaf): nat
    requires leaf.Valid() && leaf != One(String)
  {
    Pad(b.offset, leaf.prim.Align()) + (if leaf.One? then leaf.prim.Size() else Span(leaf.len, leaf.prim.Size()))
  }

  /** It is read iff all of it arrived: the bytes behind the padding, of which a bool keeps only whether
      its byte is zero. */
  lemma {:induction false} LeafRead(b: Buffer, leaf: Leaf, stale: Stale)
    requires b.Valid() && b.Aligned() && !b.error && leaf.Valid() && leaf != One(String)
    ensures var r, n := ReadLeaf(b, leaf, stale), Needs(b, leaf);
            && (r.ok <==> n <= b.Room()) && (r.ok <==> !r.buf.error)
            && (r.ok ==>
                  var bytes := b.mem[b.iter + Pad(b.offset, leaf.prim.Align())..b.iter + n];
                  && r.buf.mem == b.mem && View(r.buf) == Cursor(b.iter + n, b.offset + n, false)
                  && (leaf != One(Bool) ==> r.content == bytes)
                  && (leaf == One(Bool) ==> |bytes| == 1 && r.content == [if bytes[0] == 0 then 0 else 1]))
  {
    hide Sum, Get, Mod, Pad, Span;
    LeafShapeValid(leaf);
    GetExact(b, LeafShape(leaf));
  }

  // ---- whole messages ----

  /** From c a string was read that its destination of 256 bytes can hold, or whose length is zero: then
      the destination keeps what it held. */
  predicate Held(c: Buffer, stale: Stale, content: seq<byte>)
    requires c.Valid()
  {
    && LengthArrived(c) && WireLength(c) <= 256
    && (if WireLength(c) == 0 then content == stale.chars else |content| <= WireLength(c))
  }

  /** The buffer when leaf j is read. */
  function Before(b: Buffer, leaves: seq<Leaf>, stale: seq<Stale>, j: nat): (c: Buffer)
    requires b.Valid() && b.Aligned() && ValidLeaves(leaves) && |stale| == |leaves| && j <= |leaves|
    ensures c.Valid() && c.Aligned()
  {
    ReadLeaves(b, leaves[..j], stale[..j]).buf
  }

  lemma BeforeNext(b: Buffer, leaves: seq<Leaf>, stale: seq<Stale>, j: nat)
    requires b.Valid() && b.Aligned() && ValidLeaves(leaves) && |stale| == |leaves| && j < |leaves|
    ensures var first := ReadLeaf(b, leaves[0], stale[0]).buf;
            Before(b, leaves, stale, j + 1) == Before(first, leaves[1..], stale[1..], j)
    ensures Before(b, leaves, stale, 0) == b
  {
    hide ReadLeaf, Buffer.Valid, Buffer.Aligned, Leaf.Valid;
    assert leaves[..j + 1][1..] == leaves[1..][..j] && stale[..j + 1][1..] == stale[1..][..j];
  }

  /** Whatever bytes arrive: when the deserializer ends without an error, no string overran its
      destination. */
  lemma {:induction false} NoneOverruns(b: Buffer, leaves: seq<Leaf>, stale: seq<Stale>, j: nat)
    requires b.Valid() && b.Aligned() && !b.error && ValidLeaves(leaves) && |stale| == |leaves|
    requires j < |leaves| && leaves[j] == One(String)
    ensures var r := ReadLeaves(b, leaves, stale);
            !r.buf.error ==> Held(Before(b, leaves, stale, j), stale[j], r.contents[j])
    decreases leaves
  {
    hide ReadLeaf, Leaf.Valid, Buffer.Valid, Buffer.Aligned, Held, Before;
    var first := ReadLeaf(b, leaves[0], stale[0]);
    if first.buf.error {
      ReadLeavesStick(first.buf, leaves[1..], stale[1..]);
    } else if j == 0 {
      BeforeNext(b, leaves, stale, 0);
      FirstHeld(b, leaves, stale);
    } else {
      BeforeNext(b, leaves, stale, j - 1);
      NoneOverruns(first.buf, leaves[1..], stale[1..], j - 1);
    }
  }

  lemma FirstHeld(b: Buffer, leaves: seq<Leaf>, stale: seq<Stale>)
    requires b.Valid() && b.Aligned() && !b.error && |stale| == |leaves| > 0 && leaves[0] == One(String)
    requires !ReadLeaf(b, leaves[0], stale[0]).buf.error
    ensures Held(b, stale[0], ReadLeaf(b, leaves[0], stale[0]).content)
  {
    hide GetString, Buffer.Valid, Buffer.Aligned, WireLength, LengthArrived, Behind;
    if LengthArrived(b) {
      StringRead(b, stale[0]);
    } else {
      NoLength(b, stale[0]);
    }
  }

  /** A string longer than its destination is refused, and so is its message. */
  lemma {:induction false} OverlongRefused(b: Buffer, leaves: seq<Leaf>, stale: seq<Stale>, j: nat)
    requires b.Valid() && b.Aligned() && !b.error && ValidLeaves(leaves) && |stale| == |leaves|
    requires j < |leaves| && leaves[j] == One(String) && !Before(b, leaves, stale, j).error
    requires LengthArrived(Before(b, leaves, stale, j)) && WireLength(Before(b, leaves, stale, j)) > 256
    ensures var r := ReadLeaves(b, leaves, stale); !r.ok && r.buf.error
    decreases leaves
  {
    hide ReadLeaf, Leaf.Valid, Buffer.Valid, Buffer.Aligned, Before, WireLength, LengthArrived;
    var first := ReadLeaf(b, leaves[0], stale[0]);
    if j == 0 {
      BeforeNext(b, leaves, stale, 0);
      FirstRefused(b, stale[0]);
      ReadLeavesStick(first.buf, leaves[1..], stale[1..]);
    } else {
      BeforeNext(b, leaves, stale, j - 1);
      StillGood(first.buf, leaves[1..], stale[1..], j - 1);
      OverlongRefused(first.buf, leaves[1..], stale[1..], j - 1);
    }
  }

  lemma FirstRefused(b: Buffer, stale: Stale)
    requires b.Valid() && b.Aligned() && !b.error && LengthArrived(b) && WireLength(b) > 256
    ensures var r := ReadLeaf(b, One(String), stale); !r.ok && r.buf.error
  {
    hide GetString, Buffer.Valid, Buffer.Aligned, WireLength, LengthArrived, Behind;
    StringRead(b, stale);
  }

  lemma StillGood(b: Buffer, leaves: seq<Leaf>, stale: seq<Stale>, j: nat)
    requires b.Valid() && b.Aligned() && ValidLeaves(leaves) && |stale| == |leaves| && j <= |leaves|
    requires !Before(b, leaves, stale, j).error
    ensures !b.error
  {
    hide ReadLeaves, Buffer.Valid, Buffer.Aligned, Leaf.Valid;
    if b.error {
      ReadLeavesStick(b, leaves[..j], stale[..j]);
    }
  }
}
