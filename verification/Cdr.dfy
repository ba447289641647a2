/** CDR as the standard lays it out: every primitive is aligned to its own size, counted from the
    start of the stream (CORBA 3.0 GIOP, section 15.3.1.1). This is the reference the buffer machine
    and the size analysis are compared with. */
module Cdr {
  import opened Bytes

  predicate Width(n: nat) {
    n == 1 || n == 2 || n == 4 || n == 8
  }

  /** x modulo a width. The cases keep the arithmetic linear. */
  function Mod(x: nat, n: nat): (r: nat)
    requires Width(n)
    ensures r < n
  {
    match n
    case 1 => x % 1
    case 2 => x % 2
    case 4 => x % 4
    case _ => x % 8
  }

  /** Bytes of padding that bring pos to a multiple of n. */
  function Pad(pos: nat, n: nat): (pad: nat)
    requires Width(n)
    ensures pad < n && Mod(pos + pad, n) == 0
  {
    if Mod(pos, n) == 0 then 0 else n - Mod(pos, n)
  }

  lemma ModSum(at: nat, x: nat, m: nat)
    requires Width(m)
    ensures Mod(Mod(at, m) + x, m) == Mod(at + x, m)
  {
    match m
    case 1 =>
    case 2 => SumOfTwos(at, x);
    case 4 => SumOfFours(at, x);
    case 8 => SumOfEights(at, x);
  }

  lemma SumOfTwos(at: nat, x: nat)
    ensures (at % 2 + x) % 2 == (at + x) % 2
  {
  }

  lemma SumOfFours(at: nat, x: nat)
    ensures (at % 4 + x) % 4 == (at + x) % 4
  {
  }

  lemma SumOfEights(at: nat, x: nat)
    ensures (at % 8 + x) % 8 == (at + x) % 8
  {
  }

  lemma ModAligned(at: nat, size: nat, align: nat)
    requires Width(align) && Mod(at, align) == 0
    ensures Mod(at + size, align) == Mod(size, align)
  {
    hide Mod;
    ModSum(at, size, align);
  }

  /** It is the shortest padding that does. */
  lemma {:induction false} PadLeast(pos: nat, n: nat, k: nat)
    requires Width(n)
    ensures (pos + Pad(pos, n)) % n == 0
    ensures k < Pad(pos, n) ==> (pos + k) % n != 0
  {
    match n
    case 1 =>
    case 2 => LeastOfTwo(pos, k);
    case 4 => LeastOfFour(pos, k);
    case 8 => LeastOfEight(pos, k);
  }

  lemma LeastOfTwo(pos: nat, k: nat)
    ensures (pos + Pad(pos, 2)) % 2 == 0
    ensures k < Pad(pos, 2) ==> (pos + k) % 2 != 0
  {
  }

  lemma LeastOfFour(pos: nat, k: nat)
    ensures (pos + Pad(pos, 4)) % 4 == 0
    ensures k < Pad(pos, 4) ==> (pos + k) % 4 != 0
  {
  }

  lemma LeastOfEight(pos: nat, k: nat)
    ensures (pos + Pad(pos, 8)) % 8 == 0
    ensures k < Pad(pos, 8) ==> (pos + k) % 8 != 0
  {
  }

  /** A single value, or a run of them written by one array call. */
  datatype Kind = Scalar | Block

  /** What one serialize call puts on the stream: values of width align, alignment and size alike. */
  datatype Op = Op(kind: Kind, align: nat, content: seq<byte>) {
    predicate Valid() {
      Shp().Valid()
    }

    function Shp(): Shape {
      Shape(kind, align, |content|)
    }
  }

  /** An operation without its content: as much as a deserialize call knows beforehand. */
  datatype Shape = Shape(kind: Kind, align: nat, len: nat) {
    predicate Valid() {
      Width(align) && Mod(len, align) == 0 && (kind.Scalar? ==> len == align)
    }

    /** Bytes it takes on a stream of which pos bytes are already there. */
    function Size(pos: nat): nat
      requires Width(align)
    {
      Pad(pos, align) + len
    }
  }

  predicate ValidOps(ops: seq<Op>) {
    forall j | 0 <= j < |ops| :: ops[j].Valid()
  }

  /** Bytes the operations take together, starting at stream position pos. */
  function Size(ops: seq<Op>, pos: nat): nat
    requires ValidOps(ops)
  {
    if ops == [] then 0
    else var n := ops[0].Shp().Size(pos); n + Size(ops[1..], pos + n)
  }

  lemma SizeCons(ops: seq<Op>, pos: nat)
    requires ops != [] && ValidOps(ops)
    ensures ValidOps(ops[1..]) && ops[0].Valid()
    ensures var n := ops[0].Shp().Size(pos); Size(ops, pos) == n + Size(ops[1..], pos + n)
  {
  }

  lemma SizeOfOne(op: Op, pos: nat)
    requires op.Valid()
    ensures Size([op], pos) == op.Shp().Size(pos)
  {
    hide Pad, Mod;
    assert [op][1..] == [];
  }

  lemma SizeOfTwo(a: Op, b: Op, pos: nat)
    requires a.Valid() && b.Valid()
    ensures var n := a.Shp().Size(pos); Size([a, b], pos) == n + b.Shp().Size(pos + n)
  {
    hide Pad, Mod;
    assert [a, b][1..] == [b];
    SizeOfOne(b, pos + a.Shp().Size(pos));
  }

  lemma {:induction false} SizeConcat(a: seq<Op>, b: seq<Op>, pos: nat)
    requires ValidOps(a) && ValidOps(b)
    ensures ValidOps(a + b)
    ensures Size(a + b, pos) == Size(a, pos) + Size(b, pos + Size(a, pos))
    decreases a
  {
    hide Pad, Mod;
    if a == [] {
      assert a + b == b;
    } else {
      SizeConcat(a[1..], b, pos + a[0].Shp().Size(pos));
      assert (a + b)[1..] == a[1..] + b;
    }
  }

  // ---- bytes in memory ----

  /** The two memories agree except perhaps at indices lo to hi - 1. */
  predicate SameOutside(a: seq<byte>, b: seq<byte>, lo: nat, hi: nat) {
    |a| == |b| && forall j | 0 <= j < |a| && !(lo <= j < hi) :: a[j] == b[j]
  }

  function Write(mem: seq<byte>, at: nat, bytes: seq<byte>): (r: seq<byte>)
    requires at + |bytes| <= |mem|
    ensures |r| == |mem| && r[at..at + |bytes|] == bytes && SameOutside(r, mem, at, at + |bytes|)
  {
    mem[..at] + bytes + mem[at + |bytes|..]
  }

  /** mem with the operations laid out from index at on; padding bytes stay as they are. */
  function Image(ops: seq<Op>, mem: seq<byte>, at: nat, pos: nat): (r: seq<byte>)
    requires ValidOps(ops) && at + Size(ops, pos) <= |mem|
    ensures |r| == |mem|
    decreases ops
  {
    if ops == [] then mem
    else
      var s := ops[0].Shp();
      Image(ops[1..], Write(mem, at + Pad(pos, s.align), ops[0].content), at + s.Size(pos), pos + s.Size(pos))
  }

  /** mem holds the operations from index at on; nothing is said about padding. */
  predicate Holds(ops: seq<Op>, mem: seq<byte>, at: nat, pos: nat)
    requires ValidOps(ops)
    decreases ops
  {
    at + Size(ops, pos) <= |mem| &&
    (ops != [] ==>
      var s := ops[0].Shp();
      var start := at + Pad(pos, s.align);
      && mem[start..start + s.len] == ops[0].content
      && Holds(ops[1..], mem, at + s.Size(pos), pos + s.Size(pos)))
  }

  /** Laying out operations touches only the bytes they span. */
  lemma {:induction false} ImageFrame(ops: seq<Op>, mem: seq<byte>, at: nat, pos: nat)
    requires ValidOps(ops) && at + Size(ops, pos) <= |mem|
    ensures SameOutside(Image(ops, mem, at, pos), mem, at, at + Size(ops, pos))
    decreases ops
  {
    hide Pad, Mod, Write, SameOutside, ValidOps;
    OutsideNothing(mem, at, at + Size(ops, pos));
    if ops != [] {
      hide Image;
      SizeCons(ops, pos);
      var s := ops[0].Shp();
      var start, end, stop := at + Pad(pos, s.align), at + s.Size(pos), at + Size(ops, pos);
      var w := Write(mem, start, ops[0].content);
      ImageCons(ops, mem, at, pos);
      ImageFrame(ops[1..], w, end, pos + s.Size(pos));
      OutsideBoth(Image(ops, mem, at, pos), w, mem, start, end, stop, at);
    }
  }

  lemma OutsideNothing(mem: seq<byte>, lo: nat, hi: nat)
    ensures SameOutside(mem, mem, lo, hi)
  {
  }

  lemma OutsideBoth(a: seq<byte>, b: seq<byte>, c: seq<byte>, start: nat, end: nat, stop: nat, at: nat)
    requires at <= start <= end <= stop && SameOutside(a, b, end, stop) && SameOutside(b, c, start, end)
    ensures SameOutside(a, c, at, stop)
  {
  }

  lemma {:induction false} ImageHolds(ops: seq<Op>, mem: seq<byte>, at: nat, pos: nat)
    requires ValidOps(ops) && at + Size(ops, pos) <= |mem|
    ensures Holds(ops, Image(ops, mem, at, pos), at, pos)
    decreases ops
  {
    hide Pad, Mod, Write, Image;
    if ops != [] {
      var s := ops[0].Shp();
      var start, end := at + Pad(pos, s.align), at + s.Size(pos);
      var w := Write(mem, start, ops[0].content);
      ImageHolds(ops[1..], w, end, pos + s.Size(pos));
      ImageFrame(ops[1..], w, end, pos + s.Size(pos));
      ImageCons(ops, mem, at, pos);
      SameSlice(Image(ops, mem, at, pos), w, start, end);
    }
  }

  lemma ImageCons(ops: seq<Op>, mem: seq<byte>, at: nat, pos: nat)
    requires ops != [] && ValidOps(ops) && at + Size(ops, pos) <= |mem|
    ensures var s := ops[0].Shp();
            Image(ops, mem, at, pos) ==
            Image(ops[1..], Write(mem, at + Pad(pos, s.align), ops[0].content), at + s.Size(pos), pos + s.Size(pos))
  {
    hide Pad, Mod, Write;
  }

  lemma SameSlice(a: seq<byte>, b: seq<byte>, lo: nat, hi: nat)
    requires |a| == |b| && lo <= hi <= |a| && forall j | lo <= j < hi :: a[j] == b[j]
    ensures a[lo..hi] == b[lo..hi]
  {
  }

  lemma HoldsCons(ops: seq<Op>, mem: seq<byte>, at: nat, pos: nat)
    requires ops != [] && ValidOps(ops)
    ensures var s := ops[0].Shp();
            var start := at + Pad(pos, s.align);
            Holds(ops, mem, at, pos) <==>
            && at + Size(ops, pos) <= |mem|
            && mem[start..start + s.len] == ops[0].content
            && Holds(ops[1..], mem, at + s.Size(pos), pos + s.Size(pos))
  {
    hide Pad, Mod;
  }

  /** What memory holds is held in two parts. */
  lemma {:induction false} HoldsParts(x: seq<Op>, y: seq<Op>, mem: seq<byte>, at: nat, pos: nat)
    requires ValidOps(x) && ValidOps(y) && Holds(x + y, mem, at, pos)
    ensures Holds(x, mem, at, pos) && Holds(y, mem, at + Size(x, pos), pos + Size(x, pos))
    decreases x
  {
    hide Pad, Mod, Size, Holds;
    SizeConcat(x, y, pos);
    HoldsFits(x + y, mem, at, pos);
    if x == [] {
      assert x + y == y;
      HoldsNothing(mem, at, pos);
    } else {
      var n := x[0].Shp().Size(pos);
      assert (x + y)[1..] == x[1..] + y;
      SizeCons(x, pos);
      HoldsCons(x + y, mem, at, pos);
      HoldsCons(x, mem, at, pos);
      HoldsParts(x[1..], y, mem, at + n, pos + n);
    }
  }

  lemma HoldsFits(ops: seq<Op>, mem: seq<byte>, at: nat, pos: nat)
    requires ValidOps(ops) && Holds(ops, mem, at, pos)
    ensures at + Size(ops, pos) <= |mem|
  {
  }

  lemma HoldsNothing(mem: seq<byte>, at: nat, pos: nat)
    ensures Size([], pos) == 0 && (Holds([], mem, at, pos) <==> at <= |mem|)
  {
  }

  /** What memory holds, a copy of the part it stands in holds too. */
  lemma {:induction false} HoldsInPart(ops: seq<Op>, mem: seq<byte>, at: nat, pos: nat, lo: nat, hi: nat)
    requires ValidOps(ops) && Holds(ops, mem, at, pos) && lo <= at && at + Size(ops, pos) <= hi <= |mem|
    ensures Holds(ops, mem[lo..hi], at - lo, pos)
    decreases ops
  {
    hide Pad, Mod;
    if ops != [] {
      var s := ops[0].Shp();
      var start := at + Pad(pos, s.align);
      HoldsInPart(ops[1..], mem, at + s.Size(pos), pos + s.Size(pos), lo, hi);
      PartOfPart(mem, lo, hi, start, start + s.len);
    }
  }

  lemma PartOfPart(mem: seq<byte>, lo: nat, hi: nat, start: nat, end: nat)
    requires lo <= start <= end <= hi <= |mem|
    ensures mem[lo..hi][start - lo..end - lo] == mem[start..end]
  {
    var part := mem[lo..hi][start - lo..end - lo];
    assert forall j | 0 <= j < |part| :: part[j] == mem[start..end][j];
  }
}
