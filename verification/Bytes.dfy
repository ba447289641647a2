/** Bytes, and the little-endian 16-bit integers the wire format is built from. */
module Bytes {

  type byte = bv8

  /** The byte whose value is n: what a C cast of a small integer to uint8_t yields. */
  function ByteOf(n: nat): (b: byte)
    requires n < 0x100
    ensures b as nat == n
  {
    if n == 0 then 0 else ByteOf(n - 1) + 1
  }

  /** b with the bits of e inverted. */
  function Flip(b: byte, e: byte): byte {
    b ^ e
  }

  /** A length on the wire: low byte first. */
  function PutLength(n: nat): (s: seq<byte>)
    requires n < 0x1_0000
    ensures |s| == 2 && GetLength(s[0], s[1]) == n
  {
    [ByteOf(n % 0x100), ByteOf(n / 0x100)]
  }

  function GetLength(lo: byte, hi: byte): (n: nat)
    ensures n < 0x1_0000
  {
    (lo as nat) + 0x100 * (hi as nat)
  }

  lemma PutGetLength(lo: byte, hi: byte)
    ensures PutLength(GetLength(lo, hi)) == [lo, hi]
  {
    hide ByteOf;
    PutLengthOf(lo as nat, hi as nat);
    ByteOfNat(lo);
    ByteOfNat(hi);
  }

  lemma PutLengthOf(lo: nat, hi: nat)
    requires lo < 0x100 && hi < 0x100
    ensures PutLength(lo + 0x100 * hi) == [ByteOf(lo), ByteOf(hi)]
  {
    hide ByteOf;
    SplitLength(lo + 0x100 * hi, lo, hi);
    PutLengthParts(lo + 0x100 * hi, lo, hi);
  }

  lemma PutLengthParts(n: nat, lo: nat, hi: nat)
    requires n < 0x1_0000 && lo == n % 0x100 && hi == n / 0x100
    ensures PutLength(n) == [ByteOf(lo), ByteOf(hi)]
  {
    hide ByteOf;
  }

  lemma SplitLength(n: nat, lo: nat, hi: nat)
    requires lo < 0x100 && n == lo + 0x100 * hi
    ensures n % 0x100 == lo && n / 0x100 == hi
  {
  }

  lemma ByteOfNat(b: byte)
    ensures ByteOf(b as nat) == b
  {
    SameByte(ByteOf(b as nat), b);
  }

  lemma SameByte(a: byte, b: byte)
    requires a as nat == b as nat
    ensures a == b
  {
  }

  /** A 32-bit integer in memory: low byte first. */
  function PutU32(n: nat): (s: seq<byte>)
    requires n < 0x1_0000_0000
    ensures |s| == 4 && GetU32(s) == n
  {
    PutLength(n % 0x1_0000) + PutLength(n / 0x1_0000)
  }

  function GetU32(s: seq<byte>): nat
    requires |s| == 4
  {
    GetLength(s[0], s[1]) + 0x1_0000 * GetLength(s[2], s[3])
  }

  /** A CRC register on the wire: low byte first. */
  function PutU16(v: bv16): (s: seq<byte>)
    ensures |s| == 2
  {
    [(v & 0xFF) as byte, (v >> 8) as byte]
  }

  function GetU16(lo: byte, hi: byte): bv16 {
    (lo as bv16) | ((hi as bv16) << 8)
  }

  lemma {:induction false} GetPutU16(v: bv16)
    ensures GetU16(PutU16(v)[0], PutU16(v)[1]) == v
  {
  }

  lemma {:induction false} PutGetU16(lo: byte, hi: byte)
    ensures PutU16(GetU16(lo, hi)) == [lo, hi]
  {
  }
}
