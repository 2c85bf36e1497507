/** Bytes, parse results and the integer arithmetic behind shifts and bitwise or. */
module Basics {

  type byte = b: int | 0 <= b < 256
  type bytes = seq<byte>

  const TWO_29: int := 0x2000_0000
  const TWO_31: int := 0x8000_0000
  const TWO_32: int := 0x1_0000_0000
  const TWO_63: int := 0x8000_0000_0000_0000
  const TWO_64: int := 0x1_0000_0000_0000_0000

  datatype Option<+T> = None | Some(value: T)

  /** The outcome of reading from the front of a byte string: a value and what is left, or an error. */
  datatype Parsed<+T> = Bad | Got(v: T, rest: bytes)

  /** The integer part of a number: towards zero, as Float#to_i of Ruby and int of Python. */
  function Trunc(r: real): int {
    if r >= 0.0 then r.Floor else -((-r).Floor)
  }

  lemma TruncExact(r: real, n: int)
    ensures r >= 0.0 ==> (Trunc(r) == n <==> n as real <= r < n as real + 1.0)
    ensures r < 0.0 ==> (Trunc(r) == n <==> n as real - 1.0 < r <= n as real)
  {
  }

  /** Truncation to an unsigned 32-bit and 64-bit integer. */
  function Low32(n: nat): (r: nat)
    ensures r < TWO_32
  {
    n % 0x1_0000_0000
  }

  function Low64(n: nat): (r: nat)
    ensures r < TWO_64
  {
    n % 0x1_0000_0000_0000_0000
  }

  /** n shifted left by k bits. */
  function Shl(n: nat, k: nat): nat {
    if k == 0 then n else 2 * Shl(n, k - 1)
  }

  function Pow2(n: nat): (p: nat)
    ensures p > 0
  {
    if n == 0 then 1 else 2 * Pow2(n - 1)
  }

  /** Bitwise or on natural numbers. */
  function Or(a: nat, b: nat): nat {
    if a == 0 then b
    else if b == 0 then a
    else 2 * Or(a / 2, b / 2) + if a % 2 == 1 || b % 2 == 1 then 1 else 0
  }

  /** Bit i of a natural number. */
  predicate Bit(a: nat, i: nat) {
    if i == 0 then a % 2 == 1 else Bit(a / 2, i - 1)
  }

  lemma {:induction false} Pow2Plus7(n: nat)
    ensures Pow2(n + 7) == 128 * Pow2(n)
  {
    assert Pow2(n + 7) == 2 * Pow2(n + 6) == 4 * Pow2(n + 5);
    assert Pow2(n + 5) == 2 * Pow2(n + 4) == 4 * Pow2(n + 3);
    assert Pow2(n + 3) == 2 * Pow2(n + 2) == 4 * Pow2(n + 1);
  }

  /** The powers of two that bound varint groups. */
  lemma {:induction false} Pow2Sevens(n: nat)
    ensures n == 0 ==> Pow2(n) == 1
    ensures n == 7 ==> Pow2(n) == 0x80
    ensures n == 14 ==> Pow2(n) == 0x4000
    ensures n == 21 ==> Pow2(n) == 0x20_0000
    ensures n == 28 ==> Pow2(n) == 0x1000_0000
    ensures n == 35 ==> Pow2(n) == 0x8_0000_0000
    ensures n == 42 ==> Pow2(n) == 0x400_0000_0000
    ensures n == 49 ==> Pow2(n) == 0x2_0000_0000_0000
    ensures n == 56 ==> Pow2(n) == 0x100_0000_0000_0000
    ensures n == 63 ==> Pow2(n) == TWO_63
  {
    hide Pow2;
    if n == 0 {
      AtZero(n);
    } else if n >= 7 && n % 7 == 0 {
      Pow2Plus7(n - 7);
      Pow2Sevens(n - 7);
    }
  }

  /** The powers of two that bound varint groups and machine words. */
  lemma Pow2Value(n: nat)
    ensures n == 0 ==> Pow2(n) == 1
    ensures n == 4 ==> Pow2(n) == 16
    ensures n == 7 ==> Pow2(n) == 0x80
    ensures n == 28 ==> Pow2(n) == 0x1000_0000
    ensures n == 32 ==> Pow2(n) == TWO_32
    ensures n == 35 ==> Pow2(n) == 0x8_0000_0000
    ensures n == 63 ==> Pow2(n) == TWO_63
    ensures n == 64 ==> Pow2(n) == TWO_64
  {
    Pow2Sevens(n);
    if n == 32 {
      Pow2Sevens(n - 4);
      assert Pow2(n) == 2 * Pow2(n - 1) == 4 * Pow2(n - 2);
      assert Pow2(n - 2) == 2 * Pow2(n - 3) == 4 * Pow2(n - 4);
    } else if n == 64 {
      Pow2Sevens(n - 1);
    }
  }

  lemma {:induction false} Pow2Monotone(m: nat, n: nat)
    requires m <= n
    ensures Pow2(m) <= Pow2(n)
  {
    if m < n {
      Pow2Monotone(m, n - 1);
    }
  }

  lemma {:induction false} ShlAdd(a: nat, b: nat, k: nat)
    ensures Shl(a + b, k) == Shl(a, k) + Shl(b, k)
  {
    if k > 0 {
      ShlAdd(a, b, k - 1);
    }
  }

  /** Nothing is shifted at bit position 0. */
  lemma AtZero(n: nat)
    ensures Shl(n, 0) == n && Pow2(0) == 1
  {
  }

  lemma {:induction false} ShlTwice(n: nat, j: nat, k: nat)
    ensures Shl(Shl(n, j), k) == Shl(n, j + k)
  {
    if k > 0 {
      ShlTwice(n, j, k - 1);
    }
  }

  lemma {:induction false} ShlBound(n: nat, j: nat, k: nat)
    ensures n < Pow2(j) <==> Shl(n, k) < Pow2(j + k)
    ensures n == 0 <==> Shl(n, k) == 0
    ensures Shl(n, k) >= n
  {
    if k > 0 {
      ShlBound(n, j, k - 1);
    }
  }

  /** Or-ing a value below 2^k with one shifted left by k adds them: how a varint group is put in place. */
  lemma {:induction false} OrDisjoint(a: nat, k: nat, c: nat)
    requires a < Pow2(k)
    ensures Or(a, Shl(c, k)) == a + Shl(c, k)
  {
    if k == 0 {
      assert a == 0;
    } else {
      var b := Shl(c, k - 1);
      OrDisjoint(a / 2, k - 1, c);
      if a != 0 && b != 0 {
        assert Or(a, 2 * b) == 2 * Or(a / 2, b) + a % 2;
      }
    }
  }

  lemma {:induction false} BitOr(a: nat, b: nat, i: nat)
    ensures Bit(Or(a, b), i) == (Bit(a, i) || Bit(b, i))
  {
    BitZero(i);
    if a != 0 && b != 0 {
      var h := Or(a / 2, b / 2);
      var low := if a % 2 == 1 || b % 2 == 1 then 1 else 0;
      assert Or(a, b) == 2 * h + low;
      if i > 0 {
        assert Or(a, b) / 2 == h;
        BitOr(a / 2, b / 2, i - 1);
      }
    }
  }

  lemma {:induction false} BitZero(i: nat)
    ensures !Bit(0, i)
  {
    if i > 0 {
      BitZero(i - 1);
    }
  }

  lemma {:induction false} BitPow2(k: nat, i: nat)
    ensures Bit(Pow2(k), i) == (i == k)
  {
    if k == 0 {
      if i > 0 {
        BitZero(i - 1);
      }
    } else if i > 0 {
      assert Pow2(k) / 2 == Pow2(k - 1);
      BitPow2(k - 1, i - 1);
    }
  }

  lemma {:induction false} BitAllOnes(k: nat, i: nat)
    ensures Bit(Pow2(k) - 1, i) == (i < k)
  {
    if k == 0 {
      BitZero(i);
    } else if i > 0 {
      assert (Pow2(k) - 1) / 2 == Pow2(k - 1) - 1;
      BitAllOnes(k - 1, i - 1);
    }
  }

  /** A number below 2^n is determined by its low n bits. */
  lemma {:induction false} BitsDetermine(a: nat, b: nat, n: nat)
    requires a < Pow2(n) && b < Pow2(n)
    requires forall i: nat :: i < n ==> Bit(a, i) == Bit(b, i)
    ensures a == b
  {
    if n > 0 {
      assert Bit(a, 0) == Bit(b, 0);
      forall i: nat | i < n - 1 ensures Bit(a / 2, i) == Bit(b / 2, i) {
        assert Bit(a, i + 1) == Bit(b, i + 1);
      }
      BitsDetermine(a / 2, b / 2, n - 1);
    }
  }

  lemma {:induction false} OrBound(a: nat, b: nat, n: nat)
    requires a < Pow2(n) && b < Pow2(n)
    ensures Or(a, b) < Pow2(n)
  {
    if n > 0 && a != 0 && b != 0 {
      assert a / 2 < Pow2(n - 1) && b / 2 < Pow2(n - 1);
      OrBound(a / 2, b / 2, n - 1);
    }
  }

  /** Or-ing machine words gives a machine word. */
  lemma OrWords(a: nat, b: nat)
    ensures a < TWO_32 && b < TWO_32 ==> Or(a, b) < TWO_32
    ensures a < TWO_64 && b < TWO_64 ==> Or(a, b) < TWO_64
  {
    var half, word := 32, 64;
    Pow2Value(half);
    Pow2Value(word);
    if a < TWO_32 && b < TWO_32 {
      OrBound(a, b, half);
    }
    if a < TWO_64 && b < TWO_64 {
      OrBound(a, b, word);
    }
  }
}
