/** CRC-16 with polynomial 0x1021 and initial value 0xFFFF, and which damage it detects. */
module Crc {
  import opened Bytes

  const INIT: bv16 := 0xFFFF
  const BITS: nat := 8

  /** One turn of the bit loop. */
  function Shift(crc: bv16): bv16 {
    if crc & 0x8000 != 0 then (crc << 1) ^ 0x1021 else crc << 1
  }

  function Shifts(crc: bv16, n: nat): bv16 {
    if n == 0 then crc else Shift(Shifts(crc, n - 1))
  }

  function Update(crc: bv16, b: byte): bv16 {
    Shifts(crc ^ ((b as bv16) << 8), BITS)
  }

  /** The register after data, starting from crc. */
  function Fold(crc: bv16, data: seq<byte>): bv16 {
    if data == [] then crc else Update(Fold(crc, data[..|data| - 1]), data[|data| - 1])
  }

  function Of(data: seq<byte>): bv16 {
    Fold(INIT, data)
  }

  method Crc16Update(crc: bv16, b: byte) returns (r: bv16)
    ensures r == Update(crc, b)
  {
    hide Shift, Shifts;
    r := crc ^ ((b as bv16) << 8);
    ghost var start := r;
    NoShifts(start);
    for i := 0 to BITS
      invariant r == Shifts(start, i)
    {
      ghost var before := r;
      if r & 0x8000 != 0 {
        r := (r << 1) ^ 0x1021;
      } else {
        r := r << 1;
      }
      OneShift(before, r);
      ShiftsNext(start, i, before, r);
    }
  }

  method Crc16Buf(data: seq<byte>) returns (crc: bv16)
    ensures crc == Of(data)
  {
    crc := INIT;
    for i := 0 to |data|
      invariant crc == Fold(INIT, data[..i])
    {
      assert data[..i + 1][..i] == data[..i];
      crc := Crc16Update(crc, data[i]);
    }
    assert data[..|data|] == data;
  }

  lemma {:induction false} FoldConcat(crc: bv16, a: seq<byte>, b: seq<byte>)
    ensures Fold(crc, a + b) == Fold(Fold(crc, a), b)
  {
    if b == [] {
      assert a + b == a;
    } else {
      FoldConcat(crc, a, b[..|b| - 1]);
      assert (a + b)[..|a + b| - 1] == a + b[..|b| - 1];
    }
  }

  lemma NoShifts(start: bv16)
    ensures Shifts(start, 0) == start
  {
  }

  lemma OneShift(before: bv16, after: bv16)
    requires after == if before & 0x8000 != 0 then (before << 1) ^ 0x1021 else before << 1
    ensures after == Shift(before)
  {
  }

  lemma ShiftsNext(start: bv16, n: nat, before: bv16, after: bv16)
    requires before == Shifts(start, n) && after == Shift(before)
    ensures after == Shifts(start, n + 1)
  {
  }

  // ---- the register as a polynomial ----

  /** Shift without the branch: a sum of two linear maps. */
  function BranchFree(a: bv16): bv16 {
    (a << 1) ^ (((a >> 15) & 1) * 0x1021)
  }

  lemma ShiftXor(a: bv16)
    ensures Shift(a) == BranchFree(a)
  {
    if a & 0x8000 != 0 {
      assert (a >> 15) & 1 == 1;
    } else {
      assert (a >> 15) & 1 == 0;
    }
  }

  predicate IsSum(c: bv16, a: bv16, b: bv16) {
    c == a ^ b
  }

  lemma ShiftLinear(c: bv16, a: bv16, b: bv16)
    requires IsSum(c, a, b)
    ensures IsSum(Shift(c), Shift(a), Shift(b))
  {
    hide Shift, BranchFree;
    BranchFreeLinear(c, a, b);
    ShiftXor(a);
    ShiftXor(b);
    ShiftXor(c);
  }

  lemma BranchFreeLinear(c: bv16, a: bv16, b: bv16)
    requires c == a ^ b
    ensures BranchFree(c) == BranchFree(a) ^ BranchFree(b)
  {
  }

  lemma ShiftInjective(a: bv16, b: bv16)
    requires Shift(a) == Shift(b)
    ensures a == b
  {
    ShiftXor(a);
    ShiftXor(b);
  }

  lemma {:induction false} ShiftsLinear(c: bv16, a: bv16, b: bv16, n: nat)
    requires IsSum(c, a, b)
    ensures IsSum(Shifts(c, n), Shifts(a, n), Shifts(b, n))
  {
    hide Shift, IsSum;
    if n > 0 {
      ShiftsLinear(c, a, b, n - 1);
      ShiftLinear(Shifts(c, n - 1), Shifts(a, n - 1), Shifts(b, n - 1));
    }
  }

  lemma {:induction false} ShiftsInjective(a: bv16, b: bv16, n: nat)
    requires Shifts(a, n) == Shifts(b, n)
    ensures a == b
  {
    if n > 0 {
      ShiftInjective(Shifts(a, n - 1), Shifts(b, n - 1));
      ShiftsInjective(a, b, n - 1);
    }
  }

  function Remainder(e: byte): bv16 {
    Shifts((e as bv16) << 8, BITS)
  }

  lemma ByteRemainder(e: byte)
    ensures Remainder(e) & 0xFF == 0 <==> e == 0
    ensures Remainder(e) & 0xFF00 == 0 <==> e == 0 || e == 0x89
    ensures Remainder(0x89) == 0xA1 && Remainder(0) == 0
  {
    ClosedForm(e);
    ClosedForm(0x89);
    ClosedForm(0);
  }

  /** The remainder in closed form: with q = e + (e >> 4), it is q * (x^12 + x^5 + 1). */
  lemma {:induction false} ClosedForm(e: byte)
    ensures var q := (e ^ (e >> 4)) as bv16;
            Remainder(e) == q ^ (q << 5) ^ (q << 12)
  {
    hide Shift, Shifts, FourTurns;
    var a := (e as bv16) << 8;
    EightTurns(a);
    EightShifts(e);
  }

  lemma EightTurns(a: bv16)
    ensures Shifts(a, 8) == FourTurns(FourTurns(a))
  {
    hide Shift, Shifts, FourTurns;
    TwoShifts(a, 0);
    TwoShifts(a, 2);
    TwoShifts(a, 4);
    TwoShifts(a, 6);
    FourShifts(a);
    FourShifts(FourTurns(a));
  }

  /** Four turns at once: the bits shifted out come back as three copies. */
  function FourTurns(a: bv16): bv16 {
    (a << 4) ^ (a >> 12) ^ ((a >> 12) << 5) ^ ((a >> 12) << 12)
  }

  lemma FourShifts(a: bv16)
    ensures Shift(Shift(Shift(Shift(a)))) == FourTurns(a)
  {
    hide Shift;
    var b := BranchFree(a);
    var c := BranchFree(b);
    var d := BranchFree(c);
    ShiftXor(a);
    ShiftXor(b);
    ShiftXor(c);
    ShiftXor(d);
  }

  lemma EightShifts(e: byte)
    ensures var q := (e ^ (e >> 4)) as bv16;
            FourTurns(FourTurns((e as bv16) << 8)) == q ^ (q << 5) ^ (q << 12)
  {
  }

  lemma TwoShifts(a: bv16, n: nat)
    ensures Shifts(a, 0) == a
    ensures Shifts(a, n + 2) == Shift(Shift(Shifts(a, n)))
  {
    assert Shifts(a, n + 1) == Shift(Shifts(a, n));
  }

  /** Two bytes fed to the same register leave registers that differ by the remainder of their sum. */
  lemma UpdateDifference(crc: bv16, x: byte, y: byte)
    ensures Update(crc, x) ^ Update(crc, y) == Remainder(x ^ y)
  {
    hide Shift, Shifts;
    var a, b := crc ^ ((x as bv16) << 8), crc ^ ((y as bv16) << 8);
    ShiftsLinear(((x ^ y) as bv16) << 8, a, b, BITS);
  }

  /** The register after a byte tells both the register and the byte's effect before it. */
  lemma {:induction false} UpdateInjective(c: bv16, d: bv16, x: byte, y: byte)
    requires Update(c, x) == Update(d, y)
    ensures c ^ d == ((x ^ y) as bv16) << 8
  {
    hide Shift, Shifts;
    ShiftsInjective(c ^ ((x as bv16) << 8), d ^ ((y as bv16) << 8), BITS);
  }

  lemma {:induction false} FoldInjective(c: bv16, d: bv16, data: seq<byte>)
    requires Fold(c, data) == Fold(d, data)
    ensures c == d
  {
    if data != [] {
      var n := |data| - 1;
      UpdateInjective(Fold(c, data[..n]), Fold(d, data[..n]), data[n], data[n]);
      FoldInjective(c, d, data[..n]);
    }
  }

  /** Two adjacent bytes cannot be swapped for two others unnoticed. */
  lemma {:induction false} PairInjective(crc: bv16, x: byte, y: byte, x': byte, y': byte)
    requires Update(Update(crc, x), y) == Update(Update(crc, x'), y')
    ensures x == x' && y == y'
  {
    hide Update, Remainder, Shifts;
    UpdateInjective(Update(crc, x), Update(crc, x'), y, y');
    UpdateDifference(crc, x, x');
    ByteRemainder(x ^ x');
    LowByte(Remainder(x ^ x'), y ^ y');
    XorZero(x, x');
    XorZero(y, y');
  }

  lemma LowByte(r: bv16, e: byte)
    ensures r == (e as bv16) << 8 ==> r & 0xFF == 0
    ensures (e as bv16) << 8 == 0 ==> e == 0
  {
  }

  lemma XorZero(x: byte, y: byte)
    ensures x ^ y == 0 <==> x == y
  {
  }

  // ---- what the CRC detects ----

  /** The two strings agree outside positions i and i + 1. */
  predicate AgreeOutside(good: seq<byte>, bad: seq<byte>, i: nat) {
    |good| == |bad| && forall j | 0 <= j < |good| && j != i && j != i + 1 :: good[j] == bad[j]
  }

  /** Any damage to one byte or to two adjacent bytes changes the CRC, whatever the length. */
  lemma {:induction false} WindowDetected(good: seq<byte>, bad: seq<byte>, i: nat)
    requires AgreeOutside(good, bad, i)
    ensures Of(good) == Of(bad) <==> good == bad
  {
    hide Update, Remainder, Shifts;
    if Of(good) == Of(bad) && i < |good| {
      var h := if i + 2 <= |good| then i + 2 else i + 1;
      var c := Fold(INIT, good[..i]);
      assert bad[..i] == good[..i] && bad[h..] == good[h..];
      Split(good, i, h);
      Split(bad, i, h);
      FoldInjective(Fold(c, good[i..h]), Fold(c, bad[i..h]), good[h..]);
      if h == i + 2 {
        FoldPair(c, good[i..h]);
        FoldPair(c, bad[i..h]);
        PairInjective(c, good[i], good[i + 1], bad[i], bad[i + 1]);
      } else {
        FoldOne(c, good[i..h]);
        FoldOne(c, bad[i..h]);
        ByteInjective(c, good[i], bad[i]);
      }
    }
  }

  lemma Split(data: seq<byte>, i: nat, h: nat)
    requires i <= h <= |data|
    ensures Of(data) == Fold(Fold(Fold(INIT, data[..i]), data[i..h]), data[h..])
  {
    assert data == data[..i] + data[i..h] + data[h..];
    FoldConcat(INIT, data[..i] + data[i..h], data[h..]);
    FoldConcat(INIT, data[..i], data[i..h]);
  }

  lemma FoldOne(c: bv16, w: seq<byte>)
    requires |w| == 1
    ensures Fold(c, w) == Update(c, w[0])
  {
    assert w[..0] == [];
  }

  lemma FoldPair(c: bv16, w: seq<byte>)
    requires |w| == 2
    ensures Fold(c, w) == Update(Update(c, w[0]), w[1])
  {
    FoldOne(c, w[..1]);
  }

  lemma ByteInjective(c: bv16, x: byte, y: byte)
    requires Update(c, x) == Update(c, y)
    ensures x == y
  {
    hide Update, Remainder;
    UpdateDifference(c, x, y);
    ByteRemainder(x ^ y);
    XorZero(x, y);
  }

  /** What turns x into y: nothing, or the one error pair that escapes. */
  predicate Escapes(x: byte, x': byte, lo: byte, lo': byte) {
    (x' == x && lo' == lo) || (x' == Flip(x, 0x89) && lo' == Flip(lo, 0xA1))
  }

  /** Damage that straddles the data and its CRC: the last data byte becomes x', the low byte of the
      CRC becomes lo'. The pair still matches in exactly one way besides being untouched. */
  lemma {:induction false} StraddleDetected(data: seq<byte>, x: byte, x': byte, lo': byte)
    ensures var crc := PutU16(Of(data + [x]));
            (GetU16(lo', crc[1]) == Of(data + [x'])) <==> Escapes(x, x', crc[0], lo')
  {
    hide Update, GetU16, PutU16, Escapes;
    assert (data + [x])[..|data|] == data && (data + [x'])[..|data|] == data;
    StraddleBits(Of(data), x, x', PutU16(Update(Of(data), x))[0], lo');
  }

  lemma StraddleBits(c: bv16, x: byte, x': byte, lo: byte, lo': byte)
    requires lo == PutU16(Update(c, x))[0]
    ensures (GetU16(lo', PutU16(Update(c, x))[1]) == Update(c, x')) <==> Escapes(x, x', lo, lo')
  {
    hide Update, Remainder, GetU16, PutU16, Escapes;
    var f := lo ^ lo';
    UpdateDifference(c, x, x');
    LowByteReplaced(Update(c, x), Update(c, x'), Remainder(x ^ x'), lo, lo', f);
    RemainderIsByte(x ^ x', f);
    SumIs(x, x', lo, lo');
  }

  predicate IsByteSum(c: byte, a: byte, b: byte) {
    c == a ^ b
  }

  /** Registers that differ by d match once the low byte is replaced iff d is what was replaced. */
  lemma LowByteReplaced(r: bv16, r': bv16, d: bv16, lo: byte, lo': byte, f: byte)
    requires IsSum(d, r, r') && lo == PutU16(r)[0] && IsByteSum(f, lo, lo')
    ensures (GetU16(lo', PutU16(r)[1]) == r') <==> (d == f as bv16)
  {
    hide GetU16, PutU16, IsSum, IsByteSum;
    var z, e := GetU16(lo', PutU16(r)[1]), f as bv16;
    ReplaceLow(r, lo, lo', f);
    SameSum(r, z, r', d, e);
  }

  lemma SameSum(r: bv16, z: bv16, r': bv16, d: bv16, e: bv16)
    requires IsSum(z, r, e) && IsSum(d, r, r')
    ensures (z == r') <==> (d == e)
  {
    hide IsSum;
    if d == e {
      SameTarget(r, z, r', d);
    }
    if z == r' {
      SameDifference(r, z, d, e);
    }
  }

  lemma SameTarget(r: bv16, z: bv16, r': bv16, d: bv16)
    requires IsSum(z, r, d) && IsSum(d, r, r')
    ensures z == r'
  {
    Cancel(r, r');
  }

  lemma SameDifference(r: bv16, z: bv16, d: bv16, e: bv16)
    requires IsSum(z, r, e) && IsSum(d, r, z)
    ensures d == e
  {
    Cancel(r, e);
  }

  lemma Cancel(r: bv16, f: bv16)
    ensures r ^ (r ^ f) == f
  {
  }

  lemma ReplaceLow(r: bv16, lo: byte, lo': byte, f: byte)
    requires lo == PutU16(r)[0] && IsByteSum(f, lo, lo')
    ensures IsSum(GetU16(lo', PutU16(r)[1]), r, f as bv16)
  {
  }

  lemma RemainderIsByte(e: byte, f: byte)
    ensures (Remainder(e) == f as bv16) <==> (e == 0 && f == 0) || (e == 0x89 && f == 0xA1)
  {
    hide Remainder;
    ByteRemainder(e);
    assert (f as bv16) & 0xFF00 == 0;
  }

  lemma SumIs(x: byte, x': byte, lo: byte, lo': byte)
    ensures Escapes(x, x', lo, lo') <==>
            (x ^ x' == 0 && lo ^ lo' == 0) || (x ^ x' == 0x89 && lo ^ lo' == 0xA1)
  {
    hide Flip;
    XorZero(x, x');
    XorZero(lo, lo');
    Flip89(x, x');
    FlipA1(lo, lo');
  }

  lemma Flip89(x: byte, x': byte)
    ensures x' == Flip(x, 0x89) <==> x ^ x' == 0x89
  {
  }

  lemma FlipA1(x: byte, x': byte)
    ensures x' == Flip(x, 0xA1) <==> x ^ x' == 0xA1
  {
  }

  // ---- the start value ----

  lemma {:induction false} ShiftsAdd(a: bv16, m: nat, n: nat)
    ensures Shifts(Shifts(a, m), n) == Shifts(a, m + n)
    decreases n
  {
    hide Shift;
    if n > 0 {
      ShiftsAdd(a, m, n - 1);
    }
  }

  /** Registers that differ by d before the data differ by d, shifted once for every bit, behind it. */
  lemma {:induction false} FoldLinear(e: bv16, c: bv16, d: bv16, data: seq<byte>)
    requires IsSum(e, c, d)
    ensures IsSum(Fold(e, data), Fold(c, data), Shifts(d, 8 * |data|))
  {
    hide Update, Shifts, IsSum;
    if data == [] {
      NoShifts(d);
    } else {
      var n := |data| - 1;
      FoldLinear(e, c, d, data[..n]);
      UpdateLinear(Fold(e, data[..n]), Fold(c, data[..n]), Shifts(d, 8 * n), data[n]);
      ShiftsAdd(d, 8 * n, 8);
    }
  }

  lemma UpdateLinear(e: bv16, c: bv16, d: bv16, b: byte)
    requires IsSum(e, c, d)
    ensures IsSum(Update(e, b), Update(c, b), Shifts(d, 8))
  {
    hide Update, Shifts, IsSum;
    var x, y := BeforeShifts(e, c, d, b);
    ShiftsLinear(x, y, d, 8);
  }

  lemma BeforeShifts(e: bv16, c: bv16, d: bv16, b: byte) returns (x: bv16, y: bv16)
    requires IsSum(e, c, d)
    ensures Update(e, b) == Shifts(x, 8) && Update(c, b) == Shifts(y, 8) && IsSum(x, y, d)
  {
    hide Shifts, IsSum, Update;
    var w := (b as bv16) << 8;
    x := ByteIn(e, b, w);
    y := ByteIn(c, b, w);
    BothShifted(e, c, d, w, x, y);
  }

  lemma ByteIn(c: bv16, b: byte, w: bv16) returns (x: bv16)
    requires w == (b as bv16) << 8
    ensures IsSum(x, c, w) && Update(c, b) == Shifts(x, 8)
  {
    hide Shifts;
    x := c ^ w;
  }

  lemma BothShifted(e: bv16, c: bv16, d: bv16, w: bv16, x: bv16, y: bv16)
    requires IsSum(e, c, d) && IsSum(x, e, w) && IsSum(y, c, w)
    ensures IsSum(x, y, d)
  {
  }

  /** What the start value contributes: sixteen ones, shifted once for every bit of the data. */
  lemma {:induction false} StartContributes(data: seq<byte>)
    ensures Of(data) == Fold(0, data) ^ Shifts(0xFFFF, 8 * |data|)
  {
    hide Fold, Shifts;
    FoldLinear(0xFFFF, 0, 0xFFFF, data);
  }

  lemma UpdateIs(c: bv16, b: byte)
    ensures Update(c, b) == FourTurns(FourTurns(c ^ ((b as bv16) << 8)))
  {
    hide Shift, Shifts, FourTurns;
    var a := c ^ ((b as bv16) << 8);
    EightTurns(a);
  }

  /** So zero bytes in front of the data do not go unseen. */
  lemma {:induction false} LeadingZeroSeen(data: seq<byte>)
    ensures Of([0] + data) != Of(data)
  {
    hide Update, Fold;
    FoldConcat(INIT, [0], data);
    FoldOne(INIT, [0]);
    ZeroMoves();
    if Of([0] + data) == Of(data) {
      FoldInjective(Fold(INIT, [0]), INIT, data);
    }
  }

  lemma ZeroMoves()
    ensures Update(0xFFFF, 0) == 0xE1F0
  {
    hide Update;
    UpdateIs(0xFFFF, 0);
  }

  /** The check value of this CRC: that of the digits one to nine. */
  lemma {:induction false} CheckValue()
    ensures Of([0x31, 0x32, 0x33, 0x34, 0x35, 0x36, 0x37, 0x38, 0x39]) == 0x29B1
  {
    hide Update, Fold;
    Nothing(0xFFFF);
    var d1 := [] + [0x31];
    var d2 := d1 + [0x32];
    var d3 := d2 + [0x33];
    var d4 := d3 + [0x34];
    var d5 := d4 + [0x35];
    var d6 := d5 + [0x36];
    var d7 := d6 + [0x37];
    var d8 := d7 + [0x38];
    Next([], 0xFFFF, 0x31, 0xC782);
    Next(d1, 0xC782, 0x32, 0x3DBA);
    Next(d2, 0x3DBA, 0x33, 0x5BCE);
    Next(d3, 0x5BCE, 0x34, 0x5349);
    Next(d4, 0x5349, 0x35, 0x4560);
    Next(d5, 0x4560, 0x36, 0x2EF4);
    Next(d6, 0x2EF4, 0x37, 0x7718);
    Next(d7, 0x7718, 0x38, 0xA12B);
    Next(d8, 0xA12B, 0x39, 0x29B1);
    assert d8 + [0x39] == [0x31, 0x32, 0x33, 0x34, 0x35, 0x36, 0x37, 0x38, 0x39];
  }

  lemma Nothing(c: bv16)
    ensures Fold(c, []) == c && Of([]) == 0xFFFF
  {
  }

  predicate Turned(before: bv16, b: byte, after: bv16) {
    after == FourTurns(FourTurns(before ^ ((b as bv16) << 8)))
  }

  /** One byte more, by the closed form. */
  lemma Next(data: seq<byte>, before: bv16, b: byte, after: bv16)
    requires Of(data) == before && Turned(before, b, after)
    ensures Of(data + [b]) == after
  {
    hide Update, FourTurns;
    UpdateIs(before, b);
    assert (data + [b])[..|data|] == data;
  }
}
