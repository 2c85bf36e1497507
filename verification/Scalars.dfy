/** Fixed-width integers as the C code casts them, ZigZag, and little-endian words. */
module Scalars {
  import opened Basics

  /** (uint64_t) v for a 64-bit signed v. */
  function Unsigned64(v: int): (u: nat)
    requires -TWO_63 <= v < TWO_63
  {
    if v < 0 then v + TWO_64 else v
  }

  /** (int64_t) u and (int32_t) u. */
  function Signed64(u: nat): int
    requires u < TWO_64
  {
    if u < TWO_63 then u else u - TWO_64
  }

  function Signed32(u: nat): int
    requires u < TWO_32
  {
    if u < TWO_31 then u else u - TWO_32
  }

  /** The values of a signed and of an unsigned integer of n bytes. */
  predicate SignedFits(n: nat, v: int) {
    match n
    case 1 => -0x80 <= v < 0x80
    case 2 => -0x8000 <= v < 0x8000
    case 4 => -0x8000_0000 <= v < 0x8000_0000
    case 8 => -0x8000_0000_0000_0000 <= v < 0x8000_0000_0000_0000
    case _ => false
  }

  predicate UnsignedFits(n: nat, v: int) {
    match n
    case 1 => 0 <= v < 0x100
    case 2 => 0 <= v < 0x1_0000
    case 4 => 0 <= v < 0x1_0000_0000
    case 8 => 0 <= v < 0x1_0000_0000_0000_0000
    case _ => false
  }

  /** The cast of a 64-bit value to an integer of n bytes (two's complement truncation). */
  function UnsignedCast(n: nat, v: nat): (r: nat)
    requires n in {1, 2, 4, 8} && v < TWO_64
    ensures UnsignedFits(n, r)
    ensures r == v <==> UnsignedFits(n, v)
  {
    match n
    case 1 => v % 0x100
    case 2 => v % 0x1_0000
    case 4 => v % 0x1_0000_0000
    case _ => v
  }

  function SignedCast(n: nat, v: int): (r: int)
    requires n in {1, 2, 4, 8} && SignedFits(8, v)
    ensures SignedFits(n, r)
    ensures r == v <==> SignedFits(n, v)
  {
    match n
    case 1 => (v + 0x80) % 0x100 - 0x80
    case 2 => (v + 0x8000) % 0x1_0000 - 0x8000
    case 4 => (v + 0x8000_0000) % 0x1_0000_0000 - 0x8000_0000
    case _ => v
  }

  lemma UnsignedFitsWord(n: nat, v: int)
    requires UnsignedFits(n, v)
    ensures n in {1, 2, 4, 8} && 0 <= v < TWO_64
  {
  }

  // ---------- ZigZag ----------

  /** Complement of the shifted value for negative numbers, the shifted value otherwise, in 64 bits. */
  function ZigZag(v: int): (u: nat)
    requires -TWO_63 <= v < TWO_63
    ensures u < TWO_64
    ensures u == if v < 0 then -2 * v - 1 else 2 * v
  {
    if v < 0 then TWO_64 - 1 - Low64(2 * Unsigned64(v)) else Low64(2 * Unsigned64(v))
  }

  function UnZigZag(u: nat): (v: int)
    requires u < TWO_64
    ensures -TWO_63 <= v < TWO_63
  {
    if u % 2 == 1 then Signed64(TWO_64 - 1 - u / 2) else Signed64(u / 2)
  }

  /** ZigZag is a bijection between the signed and the unsigned 64-bit integers, the minimum included. */
  lemma ZigZagInverse(v: int, u: nat)
    requires -TWO_63 <= v < TWO_63 && u < TWO_64
    ensures UnZigZag(u) == v <==> ZigZag(v) == u
  {
  }

  // ---------- Little-endian words ----------

  function Little(v: nat, n: nat): (b: bytes)
    ensures |b| == n
  {
    if n == 0 then [] else [v % 256] + Little(v / 256, n - 1)
  }

  function FromLittle(b: bytes): nat {
    if b == [] then 0 else b[0] + 256 * FromLittle(b[1..])
  }

  function Pow256(n: nat): nat {
    if n == 0 then 1 else 256 * Pow256(n - 1)
  }

  lemma {:induction false} LittleInverse(v: nat, n: nat)
    ensures FromLittle(Little(v, n)) < Pow256(n)
    ensures v < Pow256(n) ==> FromLittle(Little(v, n)) == v
  {
    if n > 0 {
      LittleInverse(v / 256, n - 1);
      assert Little(v, n)[1..] == Little(v / 256, n - 1);
    }
  }

  lemma {:induction false} FromLittleInverse(b: bytes)
    ensures Little(FromLittle(b), |b|) == b
    ensures FromLittle(b) < Pow256(|b|)
  {
    if b != [] {
      FromLittleInverse(b[1..]);
      assert FromLittle(b) % 256 == b[0] && FromLittle(b) / 256 == FromLittle(b[1..]);
    }
  }

  lemma DivDiv(v: nat)
    ensures v / 0x100 / 0x100 == v / 0x1_0000
    ensures v / 0x1_0000 / 0x100 == v / 0x100_0000
    ensures v / 0x100_0000 / 0x100 == v / 0x1_0000_0000
  {
  }

  /** The four low bytes of a number, as shifts pick them. */
  function LowBytes(v: nat): bytes {
    [v % 256, v / 0x100 % 256, v / 0x1_0000 % 256, v / 0x100_0000 % 256]
  }

  lemma LittleFour(v: nat, n: nat)
    ensures Little(v, n + 4) == LowBytes(v) + Little(v / 0x1_0000_0000, n)
  {
    hide Little;
    DivDiv(v);
    LittleNext(v, n + 3);
    LittleNext(v / 0x100, n + 2);
    LittleNext(v / 0x1_0000, n + 1);
    LittleNext(v / 0x100_0000, n);
  }

  lemma LittleNext(v: nat, n: nat)
    ensures Little(v, n + 1) == [v % 256] + Little(v / 256, n)
  {
  }

  /** The number that four bytes stand for, the lowest first. */
  function WordOf(w: bytes): nat
    requires |w| == 4
  {
    var a: nat, b: nat, c: nat, d: nat := w[0], w[1], w[2], w[3];
    a + 0x100 * b + 0x1_0000 * c + 0x100_0000 * d
  }

  lemma LowBytesWord(v: nat)
    ensures WordOf(LowBytes(v)) == v % 0x1_0000_0000
  {
    DivDiv(v);
  }

  lemma Words()
    ensures Pow256(4) == TWO_32 && Pow256(8) == TWO_64
  {
  }
}
