/**
  Base 128 varints: the minimal encoding, the 64-bit decoder, the 32-bit decoder
  that also accepts sign-extended negative numbers, and ZigZag.
  (Protocol Buffers Encoding, "Base 128 Varints" and "Signed Integers".)
 */
module Varint {
  import opened Basics

  /** The minimal varint of v: 7-bit groups, least significant first. */
  function EncVarint(v: nat): bytes {
    if v < 128 then [v] else [v % 128 + 128] + EncVarint(v / 128)
  }

  /** Every byte but the last has its continuation bit set. */
  predicate IsVarint(w: bytes) {
    |w| > 0 && if |w| == 1 then w[0] < 128 else w[0] >= 128 && IsVarint(w[1..])
  }

  /** The number spelled by the 7-bit groups of w. */
  function GroupSum(w: bytes): nat {
    if w == [] then 0 else w[0] % 128 + 128 * GroupSum(w[1..])
  }

  /** One run of the 64-bit decoding loop from bit position bitpos with acc collected so far. */
  function Varint64From(b: bytes, bitpos: nat, acc: nat): (r: Parsed<nat>)
    requires acc < TWO_64
    ensures r.Got? ==> |r.rest| < |b| && r.v < TWO_64
  {
    if bitpos >= 64 || b == [] then Bad
    else
      var group := Low64(Shl(b[0] % 128, bitpos));
      var acc' := Or(acc, group);
      OrWords(acc, group);
      if b[0] < 128 then Got(acc', b[1..]) else Varint64From(b[1..], bitpos + 7, acc')
  }

  function Varint64(b: bytes): (r: Parsed<nat>)
    ensures r.Got? ==> |r.rest| < |b| && r.v < TWO_64
  {
    Varint64From(b, 0, 0)
  }

  /**
    One run of the multi-byte loop of the 32-bit decoder. The bit position is an 8-bit
    counter; bits from position 32 on are dropped, but only zero groups or the
    sign extension of a negative number are let through there.
   */
  function Varint32From(b: bytes, bitpos: nat, acc: nat): (r: Parsed<nat>)
    requires acc < TWO_32
    ensures r.Got? ==> |r.rest| < |b| && r.v < TWO_32
  {
    if b == [] then Bad
    else
      var signExtension := if bitpos < 63 then 0xFF else 0x01;
      if bitpos >= 32 && b[0] % 128 != 0 && (acc < TWO_31 || b[0] != signExtension) then Bad
      else
        var group := Low32(Shl(b[0] % 128, bitpos));
        var acc' := if bitpos >= 32 then acc else Or(acc, group);
        OrWords(acc, group);
        var bitpos' := (bitpos + 7) % 256;
        if b[0] >= 128 then Varint32From(b[1..], bitpos', acc')
        else if bitpos' == 35 && b[0] >= 16 then Bad
        else Got(acc', b[1..])
  }

  function Varint32(b: bytes): (r: Parsed<nat>)
    ensures r.Got? ==> |r.rest| < |b| && r.v < TWO_32
  {
    if b == [] then Bad
    else if b[0] < 128 then Got(b[0], b[1..])
    else Varint32From(b[1..], 7, b[0] % 128)
  }

  // ---------- The minimal encoding ----------

  lemma {:induction false} EncVarintSpells(v: nat)
    ensures IsVarint(EncVarint(v)) && GroupSum(EncVarint(v)) == v
  {
    if v < 128 {
      assert EncVarint(v)[1..] == [];
    } else {
      EncVarintSpells(v / 128);
      assert EncVarint(v)[1..] == EncVarint(v / 128);
    }
  }

  /** No varint of v is shorter than EncVarint(v). */
  lemma {:induction false} EncVarintMinimal(w: bytes)
    requires IsVarint(w)
    ensures |EncVarint(GroupSum(w))| <= |w|
  {
    if |w| > 1 {
      EncVarintMinimal(w[1..]);
      assert GroupSum(w) / 128 == GroupSum(w[1..]);
    } else {
      assert GroupSum(w[1..]) == 0;
    }
  }

  /** EncVarint(v) takes at most n bytes exactly when v fits in 7n bits. */
  lemma {:induction false} EncVarintLength(v: nat, n: nat)
    requires n > 0
    ensures |EncVarint(v)| <= n <==> v < Pow2(7 * n)
  {
    Pow2Plus7(7 * (n - 1));
    if n == 1 {
      assert Pow2(0) == 1;
    } else if v >= 128 {
      EncVarintLength(v / 128, n - 1);
    }
  }

  lemma EncVarintAtMostTen(v: nat)
    requires v < TWO_64
    ensures |EncVarint(v)| <= 10
  {
    var ten := 10;
    EncVarintLength(v, ten);
    Pow2Value(64);
    Pow2Monotone(64, 7 * ten);
  }

  // ---------- The 64-bit decoder ----------

  lemma ShlNext(n: nat, k: nat)
    ensures Shl(n, k + 1) == 2 * Shl(n, k)
  {
  }

  lemma Shl128(n: nat, k: nat)
    ensures Shl(n, k + 7) == 128 * Shl(n, k)
  {
    hide Shl;
    ShlNext(n, k);
    ShlNext(n, k + 1);
    ShlNext(n, k + 2);
    ShlNext(n, k + 3);
    ShlNext(n, k + 4);
    ShlNext(n, k + 5);
    ShlNext(n, k + 6);
  }

  lemma ShlSeven(n: nat, k: nat)
    ensures Shl(128 * n, k) == Shl(n, k + 7)
  {
    hide Shl;
    AtZero(n);
    Shl128(n, 0);
    assert Shl(n, 7) == 128 * n;
    ShlTwice(n, 7, k);
  }

  /** Splitting off the lowest group of a number placed at bit k. */
  lemma ShlSplit(c: nat, g: nat, k: nat)
    ensures Shl(c + 128 * g, k) == Shl(c, k) + Shl(g, k + 7)
  {
    ShlAdd(c, 128 * g, k);
    ShlSeven(g, k);
  }

  /** A number shifted past bit n, which is 2^j below, keeps only its low j bits mod 2^n. */
  lemma {:induction false} ShlMod(c: nat, j: nat, k: nat)
    ensures Shl(c, k) % Pow2(j + k) == Shl(c % Pow2(j), k)
  {
    if k > 0 {
      ShlMod(c, j, k - 1);
      DoubleMod(Shl(c, k - 1), Pow2(j + k - 1));
    }
  }

  lemma DoubleMod(n: nat, m: nat)
    requires m > 0
    ensures 2 * n % (2 * m) == 2 * (n % m)
  {
    var q, r := n / m, n % m;
    assert n == q * m + r;
    assert 2 * n == q * (2 * m) + 2 * r;
    ModUnique(2 * n, q, 2 * m, 2 * r);
  }

  lemma ModUnique(n: nat, q: nat, m: nat, r: nat)
    requires m > 0 && n == q * m + r && r < m
    ensures n % m == r
  {
    var d := n / m - q;
    assert n == (n / m) * m + n % m;
    assert d * m == r - n % m;
    MultipleWithin(d, m);
  }

  lemma MultipleWithin(d: int, m: nat)
    requires -(m as int) < d * m < m
    ensures d == 0
  {
  }

  lemma {:induction false} ShlTop(c: nat, j: nat, k: nat)
    requires c < Pow2(j)
    ensures Shl(c, k) <= Pow2(j + k) - Pow2(k)
  {
    if k > 0 {
      ShlTop(c, j, k - 1);
    }
  }

  /** A truncated group: only its low j bits survive when j + k is the word size. */
  lemma ShlCut(c: nat, j: nat, k: nat)
    ensures j + k == 64 ==> Low64(Shl(c, k)) == Shl(c % Pow2(j), k) <= TWO_64 - Pow2(k)
    ensures j + k == 32 ==> Low32(Shl(c, k)) == Shl(c % Pow2(j), k) <= TWO_32 - Pow2(k)
  {
    Pow2Value(j + k);
    ShlMod(c, j, k);
    ShlTop(c % Pow2(j), j, k);
  }

  /** Or-ing group c into place at bit k adds it, with what does not fit in 64 bits cut off. */
  lemma GroupFits64(acc: nat, c: nat, k: nat)
    requires k <= 56 && acc < Pow2(k) && c < 128
    ensures Or(acc, Low64(Shl(c, k))) == Low64(acc + Shl(c, k)) == acc + Shl(c, k) < Pow2(k + 7)
  {
    hide Or, Shl, Pow2;
    var seven := 7;
    Pow2Value(seven);
    Pow2Value(63);
    Pow2Monotone(k + seven, 63);
    ShlTop(c, seven, k);
    OrDisjoint(acc, k, c);
  }

  lemma GroupCut64(acc: nat, c: nat, k: nat)
    requires 56 < k <= 63 && acc < Pow2(k)
    ensures Or(acc, Low64(Shl(c, k))) == Low64(acc + Shl(c, k))
  {
    hide Or, Shl, Pow2;
    var j := 64 - k;
    ShlCut(c, j, k);
    OrDisjoint(acc, k, c % Pow2(j));
  }

  lemma Group64(acc: nat, c: nat, k: nat)
    requires k <= 63 && acc < Pow2(k) && c < 128
    ensures Or(acc, Low64(Shl(c, k))) == Low64(acc + Shl(c, k))
    ensures k <= 56 ==> Low64(acc + Shl(c, k)) == acc + Shl(c, k) < Pow2(k + 7)
  {
    hide Or, Shl, Pow2, Low64;
    if k <= 56 {
      GroupFits64(acc, c, k);
    } else {
      GroupCut64(acc, c, k);
    }
  }

  /** On a terminated varint the loop returns the sum of its groups mod 2^64 and leaves the suffix. */
  lemma {:induction false} Varint64On(w: bytes, x: bytes, k: nat, acc: nat)
    requires IsVarint(w) && k + |w| <= 10 && acc < Pow2(7 * k) && acc < TWO_64
    ensures Varint64From(w + x, 7 * k, acc) == Got(Low64(acc + Shl(GroupSum(w), 7 * k)), x)
  {
    hide Or, Shl, Pow2;
    var c := w[0] % 128;
    Group64(acc, c, 7 * k);
    assert (w + x)[1..] == w[1..] + x;
    if |w| == 1 {
      assert GroupSum(w) == c;
    } else {
      Varint64On(w[1..], x, k + 1, acc + Shl(c, 7 * k));
      ShlSplit(c, GroupSum(w[1..]), 7 * k);
    }
  }

  /** The 64-bit decoder accepts only by reading a terminated varint of at most 10 bytes. */
  lemma {:induction false} Varint64Reads(b: bytes, k: nat, acc: nat) returns (w: bytes)
    requires acc < TWO_64 && Varint64From(b, 7 * k, acc).Got?
    ensures IsVarint(w) && k + |w| <= 10 && b == w + Varint64From(b, 7 * k, acc).rest
  {
    hide Or, Shl, Pow2, EncVarint;
    if b[0] < 128 {
      w := [b[0]];
    } else {
      var acc' := Or(acc, Low64(Shl(b[0] % 128, 7 * k)));
      OrWords(acc, Low64(Shl(b[0] % 128, 7 * k)));
      assert 7 * (k + 1) == 7 * k + 7;
      var w' := Varint64Reads(b[1..], k + 1, acc');
      w := [b[0]] + w';
      assert w[1..] == w';
    }
  }

  /** w is a terminated varint of at most ten bytes with group sum v mod 2^64. */
  predicate Spells64(w: bytes, v: nat) {
    IsVarint(w) && |w| <= 10 && v == Low64(GroupSum(w))
  }

  /**
    Exactly which byte strings the 64-bit decoder accepts, and with what result: those that
    start with a terminated varint of at most ten bytes, whose groups are summed mod 2^64.
   */
  lemma Varint64Exact(b: bytes, v: nat, rest: bytes)
    ensures Varint64(b) == Got(v, rest) <==> exists w :: b == w + rest && Spells64(w, v)
  {
    hide Varint64From, IsVarint, GroupSum, Shl, Pow2;
    AtZero(0);
    if Varint64(b) == Got(v, rest) {
      var w := Varint64Reads(b, 0, 0);
      Varint64On(w, rest, 0, 0);
      AtZero(GroupSum(w));
      assert b == w + rest && Spells64(w, v);
    }
    if w :| b == w + rest && Spells64(w, v) {
      Varint64On(w, rest, 0, 0);
      AtZero(GroupSum(w));
    }
  }

  /** Decoding a minimal encoding gives the value back and leaves whatever follows. */
  lemma Varint64RoundTrip(v: nat, x: bytes)
    requires v < TWO_64
    ensures Varint64(EncVarint(v) + x) == Got(v, x)
  {
    hide Or, Shl, Pow2, EncVarint;
    EncVarintSpells(v);
    EncVarintAtMostTen(v);
    AtZero(v);
    Varint64On(EncVarint(v), x, 0, 0);
  }

  lemma {:induction false} Varint64Frame(b: bytes, x: bytes, bitpos: nat, acc: nat)
    requires acc < TWO_64 && Varint64From(b, bitpos, acc).Got?
    ensures Varint64From(b + x, bitpos, acc) ==
            Got(Varint64From(b, bitpos, acc).v, Varint64From(b, bitpos, acc).rest + x)
  {
    hide Or, Shl, Pow2;
    assert (b + x)[1..] == b[1..] + x;
    if b[0] >= 128 {
      OrWords(acc, Low64(Shl(b[0] % 128, bitpos)));
      Varint64Frame(b[1..], x, bitpos + 7, Or(acc, Low64(Shl(b[0] % 128, bitpos))));
    }
  }

  // ---------- The 32-bit decoder ----------

  lemma {:induction false} Varint32Frame(b: bytes, x: bytes, bitpos: nat, acc: nat)
    requires acc < TWO_32 && Varint32From(b, bitpos, acc).Got?
    ensures Varint32From(b + x, bitpos, acc) ==
            Got(Varint32From(b, bitpos, acc).v, Varint32From(b, bitpos, acc).rest + x)
  {
    hide Or, Shl, Pow2;
    assert (b + x)[1..] == b[1..] + x;
    if b[0] >= 128 {
      OrWords(acc, Low32(Shl(b[0] % 128, bitpos)));
      var acc' := if bitpos >= 32 then acc else Or(acc, Low32(Shl(b[0] % 128, bitpos)));
      Varint32Frame(b[1..], x, (bitpos + 7) % 256, acc');
    }
  }

  lemma Varint32Extends(b: bytes, x: bytes)
    requires Varint32(b).Got?
    ensures Varint32(b + x) == Got(Varint32(b).v, Varint32(b).rest + x)
  {
    assert (b + x)[1..] == b[1..] + x;
    if b[0] >= 128 {
      Varint32Frame(b[1..], x, 7, b[0] % 128);
    }
  }

  lemma GroupFits(acc: nat, c: nat, k: nat)
    requires k <= 21 && acc < Pow2(k) && c < 128
    ensures Or(acc, Low32(Shl(c, k))) == Low32(acc + Shl(c, k)) == acc + Shl(c, k) < Pow2(k + 7)
  {
    hide Or, Shl, Pow2;
    var seven := 7;
    Pow2Value(seven);
    Pow2Value(28);
    Pow2Monotone(k + seven, 28);
    ShlTop(c, seven, k);
    OrDisjoint(acc, k, c);
  }

  lemma GroupCut(acc: nat, c: nat, k: nat)
    requires k < 32 && acc < Pow2(k)
    ensures Or(acc, Low32(Shl(c, k))) == Low32(acc + Shl(c, k))
  {
    hide Or, Shl, Pow2;
    var j := 32 - k;
    ShlCut(c, j, k);
    OrDisjoint(acc, k, c % Pow2(j));
  }

  lemma Group32(acc: nat, c: nat, k: nat)
    requires k < 32 && acc < Pow2(k) && c < 128
    ensures Or(acc, Low32(Shl(c, k))) == Low32(acc + Shl(c, k))
    ensures k <= 21 ==> Low32(acc + Shl(c, k)) == acc + Shl(c, k) < Pow2(k + 7)
  {
    hide Or, Shl, Pow2, Low32;
    GroupCut(acc, c, k);
    if k <= 21 {
      GroupFits(acc, c, k);
    }
  }

  /** One round of the 32-bit loop below bit 32. */
  lemma GroupStep(w: bytes, x: bytes, k: nat, acc: nat)
    requires 1 <= k <= 4 && acc < Pow2(7 * k) && acc < TWO_32 && |w| > 0 && w[0] >= 128
    ensures Low32(acc + Shl(w[0] % 128, 7 * k)) < TWO_32
    ensures Varint32From(w + x, 7 * k, acc) ==
            Varint32From(w[1..] + x, 7 * (k + 1), Low32(acc + Shl(w[0] % 128, 7 * k)))
    ensures k < 4 ==> Low32(acc + Shl(w[0] % 128, 7 * k)) == acc + Shl(w[0] % 128, 7 * k) < Pow2(7 * (k + 1))
  {
    hide Or, Shl, Pow2;
    assert (w + x)[1..] == w[1..] + x && (w + x)[0] == w[0];
    Group32(acc, w[0] % 128, 7 * k);
  }

  /** A group at or above bit 32 does not change a sum mod 2^32. */
  lemma HighGroups(acc: nat, g: nat, k: nat)
    requires 32 <= k && acc < TWO_32
    ensures Low32(acc + Shl(g, k)) == acc
  {
    hide Shl, Pow2;
    var j, word := k - 32, 32;
    ShlTwice(g, j, word);
    assert Shl(g, k) == Shl(Shl(g, j), word);
    ShlMultiplies(Shl(g, j), word);
    Pow2Value(word);
    Low32Shift(acc, Shl(g, j));
    Low32Small(acc);
  }

  /** From bit 32 on the 32-bit loop only checks the groups. */
  lemma {:induction false} Varint32OnHigh(w: bytes, x: bytes, k: nat, acc: nat)
    requires IsVarint(w) && 5 <= k && k + |w| <= 10 && acc < TWO_32
    requires Varint32From(w + x, 7 * k, acc).Got?
    ensures Varint32From(w + x, 7 * k, acc) == Got(acc, x)
  {
    hide Or, Shl, Pow2, Low32;
    assert (w + x)[1..] == w[1..] + x && (w + x)[0] == w[0];
    if |w| > 1 {
      Varint32OnHigh(w[1..], x, k + 1, acc);
    }
  }

  lemma Varint32OnLast(w: bytes, x: bytes, k: nat, acc: nat)
    requires |w| == 1 && w[0] < 128 && 1 <= k <= 4 && acc < Pow2(7 * k) && acc < TWO_32
    requires Varint32From(w + x, 7 * k, acc).Got?
    ensures Varint32From(w + x, 7 * k, acc) == Got(Low32(acc + Shl(w[0], 7 * k)), x)
  {
    hide Or, Shl, Pow2, Low32;
    assert (w + x)[1..] == x && (w + x)[0] == w[0];
    Group32(acc, w[0], 7 * k);
  }

  /** Whatever the 32-bit loop accepts, it returns as the group sum mod 2^32 and leaves the suffix. */
  lemma {:induction false} Varint32On(w: bytes, x: bytes, k: nat, acc: nat)
    requires IsVarint(w) && 1 <= k && k + |w| <= 10 && acc < TWO_32 && (k <= 4 ==> acc < Pow2(7 * k))
    requires Varint32From(w + x, 7 * k, acc).Got?
    ensures Varint32From(w + x, 7 * k, acc) == Got(Low32(acc + Shl(GroupSum(w), 7 * k)), x)
  {
    hide Or, Shl, Pow2, Low32, Varint32From, IsVarint, GroupSum;
    FirstGroup(w);
    if k >= 5 {
      HighGroups(acc, GroupSum(w), 7 * k);
      Varint32OnHigh(w, x, k, acc);
    } else if |w| == 1 {
      Varint32OnLast(w, x, k, acc);
    } else {
      var c, g := w[0] % 128, GroupSum(w[1..]);
      GroupStep(w, x, k, acc);
      ShlSplit(c, g, 7 * k);
      Low32Sum(acc + Shl(c, 7 * k), Shl(g, 7 * k + 7));
      Varint32On(w[1..], x, k + 1, Low32(acc + Shl(c, 7 * k)));
    }
  }

  lemma Low32Sum(a: nat, b: nat)
    ensures Low32(Low32(a) + b) == Low32(a + b)
    ensures Low32(a) < TWO_32
  {
    var q := a / 0x1_0000_0000;
    assert a == Low32(a) + 0x1_0000_0000 * q;
    Low32Shift(Low32(a) + b, q);
  }

  lemma Low32Shift(n: nat, q: nat)
    ensures Low32(n + 0x1_0000_0000 * q) == Low32(n)
  {
  }

  /**
    The 32-bit decoder refines the 64-bit one: on a terminated varint of at most ten bytes
    that it accepts, both read the same bytes and it returns the other's result mod 2^32.
   */
  lemma Varint32Refines64(w: bytes, x: bytes)
    requires IsVarint(w) && |w| <= 10
    requires Varint32(w + x).Got?
    ensures Varint64(w + x).Got? && Varint64(w + x).rest == x
    ensures Varint32(w + x) == Got(Low32(Varint64(w + x).v), x)
  {
    hide Or, Shl, Pow2, Varint32From, Varint64From, Low32, Low64, IsVarint, GroupSum;
    Varint64On(w, x, 0, 0);
    AtZero(GroupSum(w));
    ModMod(GroupSum(w));
    FirstGroup(w);
    assert (w + x)[1..] == w[1..] + x && (w + x)[0] == w[0];
    if |w| > 1 {
      var one := 1;
      Pow2Value(7 * one);
      Varint32On(w[1..], x, one, w[0] % 128);
      ShlSeven(GroupSum(w[1..]), 7 * one - 7);
      AtZero(128 * GroupSum(w[1..]));
    }
  }

  lemma FirstGroup(w: bytes)
    requires IsVarint(w)
    ensures |w| == 1 ==> GroupSum(w) == w[0] == Low32(w[0]) && w[0] < 128 && w[1..] == []
    ensures |w| > 1 ==> w[0] >= 128 && IsVarint(w[1..]) && GroupSum(w) == w[0] % 128 + 128 * GroupSum(w[1..])
    ensures Pow2(0) == 1 && |w| > 0
  {
  }

  lemma ModMod(n: nat)
    ensures Low32(Low64(n)) == Low32(n)
  {
  }

  /** A group at position j, which starts at bit 7j >= 35, that the 32-bit decoder lets through with result v. */
  predicate HighGroup(c: byte, j: nat, v: nat) {
    c % 128 == 0 || (v >= 0x8000_0000 && c == if j < 9 then 0xFF else 0x01)
  }

  /** The varint w from its k-th group on is let through: the fifth group, if it is the last one, has four bits. */
  predicate Allowed(w: bytes, k: nat, v: nat) {
    (|w| > 0 && k + |w| == 5 ==> w[|w| - 1] < 16) &&
    forall j | 0 <= j < |w| && k + j >= 5 :: HighGroup(w[j], k + j, v)
  }

  lemma AllowedNext(w: bytes, k: nat, v: nat)
    requires |w| > 1
    ensures Allowed(w, k, v) <==> (k >= 5 ==> HighGroup(w[0], k, v)) && Allowed(w[1..], k + 1, v)
  {
    hide HighGroup;
    var t := w[1..];
    assert forall j | 0 <= j < |t| :: t[j] == w[j + 1];
    assert t[|t| - 1] == w[|w| - 1];
    if Allowed(w, k, v) {
      forall j | 0 <= j < |t| && k + 1 + j >= 5 ensures HighGroup(t[j], k + 1 + j, v) {
        assert HighGroup(w[j + 1], k + (j + 1), v);
      }
    }
    if (k >= 5 ==> HighGroup(w[0], k, v)) && Allowed(t, k + 1, v) {
      forall j | 0 <= j < |w| && k + j >= 5 ensures HighGroup(w[j], k + j, v) {
        if j > 0 {
          assert HighGroup(t[j - 1], k + 1 + (j - 1), v);
        }
      }
    }
  }

  lemma AllowedLast(w: bytes, k: nat, v: nat)
    requires |w| == 1
    ensures Allowed(w, k, v) <==> (k == 4 ==> w[0] < 16) && (k >= 5 ==> HighGroup(w[0], k, v))
  {
    hide HighGroup;
  }

  lemma HighRound(w: bytes, x: bytes, k: nat, acc: nat)
    requires IsVarint(w) && 5 <= k && k + |w| <= 10 && acc < TWO_32
    ensures Varint32From(w + x, 7 * k, acc).Got? <==>
            HighGroup(w[0], k, acc) && (|w| > 1 ==> Varint32From(w[1..] + x, 7 * (k + 1), acc).Got?)
  {
    hide Or, Shl, Pow2, Low32;
    assert (w + x)[1..] == w[1..] + x && (w + x)[0] == w[0];
  }

  lemma {:induction false} HighExact(w: bytes, x: bytes, k: nat, acc: nat)
    requires IsVarint(w) && 5 <= k && k + |w| <= 10 && acc < TWO_32
    ensures Varint32From(w + x, 7 * k, acc).Got? <==> Allowed(w, k, acc)
  {
    hide Varint32From, HighGroup, Allowed, IsVarint, GroupSum;
    FirstGroup(w);
    HighRound(w, x, k, acc);
    if |w| > 1 {
      AllowedNext(w, k, acc);
      HighExact(w[1..], x, k + 1, acc);
    } else {
      AllowedLast(w, k, acc);
    }
  }

  lemma LastRound(w: bytes, x: bytes, k: nat, acc: nat)
    requires |w| == 1 && w[0] < 128 && 1 <= k <= 4 && acc < TWO_32
    ensures Varint32From(w + x, 7 * k, acc).Got? <==> (k == 4 ==> w[0] < 16)
  {
    hide Or, Shl, Pow2, Low32;
    assert (w + x)[1..] == x && (w + x)[0] == w[0];
  }

  lemma {:induction false} LoopExact(w: bytes, x: bytes, k: nat, acc: nat)
    requires IsVarint(w) && 1 <= k && k + |w| <= 10 && acc < TWO_32 && (k <= 4 ==> acc < Pow2(7 * k))
    ensures Varint32From(w + x, 7 * k, acc).Got? <==> Allowed(w, k, Low32(acc + Shl(GroupSum(w), 7 * k)))
  {
    hide Or, Shl, Pow2, Low32, Varint32From, HighGroup, Allowed, IsVarint, GroupSum;
    FirstGroup(w);
    var v := Low32(acc + Shl(GroupSum(w), 7 * k));
    if k >= 5 {
      HighGroups(acc, GroupSum(w), 7 * k);
      HighExact(w, x, k, acc);
    } else if |w| == 1 {
      AllowedLast(w, k, v);
      LastRound(w, x, k, acc);
    } else {
      var c, g := w[0] % 128, GroupSum(w[1..]);
      GroupStep(w, x, k, acc);
      ShlSplit(c, g, 7 * k);
      Low32Sum(acc + Shl(c, 7 * k), Shl(g, 7 * k + 7));
      AllowedNext(w, k, v);
      LoopExact(w[1..], x, k + 1, Low32(acc + Shl(c, 7 * k)));
    }
  }

  /**
    Exactly which terminated varints of at most ten bytes the 32-bit decoder accepts: a fifth byte that is the
    last one has four bits, and later groups are zero or the sign extension of a result with bit 31 set.
   */
  lemma Varint32Exact(w: bytes, x: bytes)
    requires IsVarint(w) && |w| <= 10
    ensures Varint32(w + x).Got? <==> Allowed(w, 0, Low32(GroupSum(w)))
  {
    hide Or, Shl, Pow2, Low32, Varint32From, HighGroup, Allowed, IsVarint, GroupSum;
    FirstGroup(w);
    assert (w + x)[1..] == w[1..] + x && (w + x)[0] == w[0];
    var v := Low32(GroupSum(w));
    if |w| == 1 {
      AllowedLast(w, 0, v);
    } else {
      var one := 1;
      AllowedNext(w, 0, v);
      Pow2Value(7 * one);
      LoopExact(w[1..], x, one, w[0] % 128);
      ShlSeven(GroupSum(w[1..]), 7 * one - 7);
      AtZero(128 * GroupSum(w[1..]));
    }
  }

  /** The last group, when the whole number fits in 32 bits. */
  lemma LastGroup(v: nat, x: bytes, k: nat, acc: nat)
    requires 1 <= k <= 4 && acc < Pow2(7 * k) && v < 128 && (k == 4 ==> v < 16)
    requires acc + Shl(v, 7 * k) < TWO_32
    ensures Varint32From([v] + x, 7 * k, acc) == Got(acc + Shl(v, 7 * k), x)
  {
    hide Or, Shl, Pow2, Low32;
    var w: bytes := [v];
    assert (w + x)[1..] == x && (w + x)[0] == v;
    Group32(acc, v, 7 * k);
    Low32Small(acc + Shl(v, 7 * k));
  }

  lemma {:induction false} Varint32Accepts(v: nat, x: bytes, k: nat, acc: nat)
    requires 1 <= k <= 4 && acc < Pow2(7 * k) && acc + Shl(v, 7 * k) < TWO_32
    ensures Varint32From(EncVarint(v) + x, 7 * k, acc) == Got(acc + Shl(v, 7 * k), x)
  {
    hide Or, Shl, Pow2, Low32, Varint32From;
    if k == 4 {
      var j, word := 32 - 7 * k, 32;
      ShlBound(v, j, 7 * k);
      Pow2Value(word);
      Pow2Value(j);
    }
    if v >= 128 {
      OneGroup(v, x, k, acc);
      ShlSplit(v % 128, v / 128, 7 * k);
      Varint32Accepts(v / 128, x, k + 1, acc + Shl(v % 128, 7 * k));
    } else {
      LastGroup(v, x, k, acc);
    }
  }

  /** Every number below 2^32 survives the 32-bit decoder. */
  lemma Varint32RoundTrip(v: nat, x: bytes)
    requires v < TWO_32
    ensures Varint32(EncVarint(v) + x) == Got(v, x)
  {
    hide Or, Shl, Pow2, Varint32From;
    var w := EncVarint(v);
    assert (w + x)[0] == w[0] && (w + x)[1..] == w[1..] + x;
    if v >= 128 {
      var one := 1;
      Pow2Value(7 * one);
      assert w[1..] == EncVarint(v / 128);
      ShlSeven(v / 128, 7 * one - 7);
      AtZero(128 * (v / 128));
      Varint32Accepts(v / 128, x, one, v % 128);
    } else {
      assert w[1..] == [];
    }
  }

  lemma OneGroup(v: nat, x: bytes, k: nat, acc: nat)
    requires 1 <= k <= 4 && acc < Pow2(7 * k) && acc < TWO_32 && v >= 128
    ensures Low32(acc + Shl(v % 128, 7 * k)) < TWO_32
    ensures Varint32From(EncVarint(v) + x, 7 * k, acc) ==
            Varint32From(EncVarint(v / 128) + x, 7 * (k + 1), Low32(acc + Shl(v % 128, 7 * k)))
    ensures k < 4 ==> Low32(acc + Shl(v % 128, 7 * k)) == acc + Shl(v % 128, 7 * k) < Pow2(7 * (k + 1))
  {
    hide Or, Shl, Pow2, Low32, Varint32From;
    var w := EncVarint(v);
    assert w[0] == v % 128 + 128 && w[1..] == EncVarint(v / 128);
    GroupStep(w, x, k, acc);
  }

  /** The 32-bit decoder runs through the groups below bit 7t of lo + (h << ...) and meets h there. */
  lemma {:induction false} LowGroups(lo: nat, h: nat, x: bytes, k: nat, t: nat, acc: nat)
    requires 1 <= k <= t <= 5 && h > 0 && lo < Pow2(7 * t - 7 * k)
    requires acc < TWO_32 && (k <= 4 ==> acc < Pow2(7 * k))
    ensures Varint32From(EncVarint(lo + Shl(h, 7 * t - 7 * k)) + x, 7 * k, acc) ==
            Varint32From(EncVarint(h) + x, 7 * t, Low32(acc + Shl(lo, 7 * k)))
    decreases t - k
  {
    hide Or, Shl, Pow2, Low32, EncVarint, Varint32From;
    if k == t {
      AtZero(h);
      ShlBound(lo, 0, 7 * k);
      Low32Small(acc);
    } else {
      var j := 7 * t - 7 * (k + 1);
      var c, lo', g := lo % 128, lo / 128, lo + Shl(h, j + 7);
      ShlAdd128(h, j);
      Split128(lo, Shl(h, j));
      OneGroup(g, x, k, acc);
      ShlSplit(c, lo', 7 * k);
      var sum := acc + Shl(c, 7 * k);
      Low32Sum(sum, Shl(lo', 7 * k + 7));
      Pow2Plus7(j);
      LowGroups(lo', h, x, k + 1, t, Low32(sum));
    }
  }

  lemma Low32Small(n: nat)
    ensures n < TWO_32 ==> Low32(n) == n
  {
  }

  lemma Split128(lo: nat, s: nat)
    ensures (lo + 128 * s) % 128 == lo % 128 && (lo + 128 * s) / 128 == lo / 128 + s
    ensures lo == lo % 128 + 128 * (lo / 128)
  {
  }

  lemma ShlAdd128(h: nat, j: nat)
    requires h > 0
    ensures Shl(h, j + 7) == 128 * Shl(h, j) && Shl(h, j) > 0
  {
    hide Shl;
    Shl128(h, j);
    ShlBound(h, 0, j);
  }

  /** The encoding of v from its lowest group on: the rest starts at bit 7t with h = v >> 7t. */
  lemma Varint32Reaches(lo: nat, h: nat, x: bytes, t: nat)
    requires 1 <= t <= 5 && h > 0 && lo < Pow2(7 * t)
    ensures Varint32(EncVarint(lo + Shl(h, 7 * t)) + x) == Varint32From(EncVarint(h) + x, 7 * t, Low32(lo))
  {
    hide Or, Shl, Pow2, Low32, Varint32From, EncVarint, Varint32;
    var one, j := 1, 7 * t - 7;
    var c, lo', v := lo % 128, lo / 128, lo + Shl(h, j + 7);
    ShlAdd128(h, j);
    Split128(lo, Shl(h, j));
    FirstByte(v, x);
    Pow2Value(7 * one);
    Pow2Plus7(j);
    LowGroups(lo', h, x, one, t, c);
    ShlSplit(c, lo', 7 * one - 7);
    AtZero(c);
    AtZero(lo);
  }

  /** The 32-bit decoder after the first byte of a longer varint. */
  lemma FirstByte(v: nat, x: bytes)
    requires v >= 128
    ensures Varint32(EncVarint(v) + x) == Varint32From(EncVarint(v / 128) + x, 7, v % 128)
  {
    hide Varint32From;
    var w := EncVarint(v);
    assert w[0] == v % 128 + 128 && w[1..] == EncVarint(v / 128);
    assert (w + x)[1..] == w[1..] + x && (w + x)[0] == w[0];
  }

  /** A non-zero number below bit 63 that starts at bit 35 or later is refused. */
  lemma {:induction false} HighRefused(h: nat, x: bytes, k: nat, acc: nat)
    requires 5 <= k <= 8 && 0 < h < Pow2(7 * (9 - k)) && acc < TWO_32
    ensures Varint32From(EncVarint(h) + x, 7 * k, acc) == Bad
    decreases 9 - k
  {
    hide Or, Shl, Pow2;
    var w := EncVarint(h);
    assert (w + x)[1..] == w[1..] + x && (w + x)[0] == w[0];
    var m := 7 * (9 - k) - 7;
    Pow2Plus7(m);
    if h >= 128 {
      assert w[1..] == EncVarint(h / 128);
      if k == 8 {
        Pow2Value(m);
      } else {
        HighRefused(h / 128, x, k + 1, acc);
        assert 7 * (9 - (k + 1)) == m && 7 * k + 7 == 7 * (k + 1);
      }
    }
  }

  /** The 32-bit decoder refuses the minimal encoding of every number from 2^32 up to 2^63. */
  lemma Varint32RefusesWide(v: nat, x: bytes)
    requires TWO_32 <= v < TWO_63
    ensures Varint32(EncVarint(v) + x) == Bad
  {
    hide Or, Shl, Pow2;
    var t := if v < 0x8_0000_0000 then 4 else 5;
    Pow2Value(7 * t);
    var p := if t == 4 then 0x1000_0000 else 0x8_0000_0000;
    var lo, h := if t == 4 then v % 0x1000_0000 else v % 0x8_0000_0000,
                 if t == 4 then v / 0x1000_0000 else v / 0x8_0000_0000;
    ShlOf(h, 7 * t);
    assert v == lo + Shl(h, 7 * t);
    Varint32Reaches(lo, h, x, t);
    if t == 4 {
      var w := EncVarint(h);
      assert h < 128 && w == [h] && (w + x)[0] == h;
    } else {
      Pow2Value(7 * (9 - t));
      HighRefused(h, x, t, Low32(lo));
    }
  }

  lemma {:induction false} ShlMultiplies(h: nat, k: nat)
    ensures Shl(h, k) == h * Pow2(k)
  {
    if k > 0 {
      ShlMultiplies(h, k - 1);
      TimesTwice(h, Pow2(k - 1));
    }
  }

  lemma TimesTwice(h: nat, p: nat)
    ensures h * (2 * p) == 2 * (h * p)
  {
  }

  lemma ShlOf(h: nat, k: nat)
    ensures k == 28 ==> Shl(h, k) == h * 0x1000_0000
    ensures k == 35 ==> Shl(h, k) == h * 0x8_0000_0000
  {
    ShlMultiplies(h, k);
    Pow2Value(k);
  }

  /** A negative 32-bit number, sign-extended to 64 bits as every encoder writes it, is read as its low 32 bits. */
  lemma Varint32AcceptsNegative(n: nat, x: bytes)
    requires 0 < n <= TWO_31
    ensures Varint32(EncVarint(TWO_64 - n) + x) == Got(TWO_32 - n, x)
  {
    hide Or, Shl, Pow2;
    var t, h := 5, 0x1FFF_FFFF;
    var lo := 0x8_0000_0000 - n;
    Pow2Value(7 * t);
    ShlOf(h, 7 * t);
    assert TWO_64 - n == lo + Shl(h, 7 * t);
    Varint32Reaches(lo, h, x, t);
    assert Low32(lo) == TWO_32 - n;
    SignTail(x, Low32(lo));
  }

  /** One byte of sign extension. */
  lemma SignByte(b: bytes, bitpos: nat, acc: nat)
    requires TWO_31 <= acc < TWO_32 && 35 <= bitpos < 63
    ensures Varint32From([0xFF] + b, bitpos, acc) == Varint32From(b, bitpos + 7, acc)
  {
    hide Or, Shl, Low32;
    var w: bytes := [0xFF] + b;
    assert w[0] == 0xFF && w[1..] == b;
  }

  lemma SignTail(x: bytes, acc: nat)
    requires TWO_31 <= acc < TWO_32
    ensures Varint32From(EncVarint(0x1FFF_FFFF) + x, 35, acc) == Got(acc, x)
  {
    hide Or, Shl, Low32, Varint32From;
    var b1: bytes := [1] + x;
    var b2: bytes := [0xFF] + b1;
    var b3: bytes := [0xFF] + b2;
    var b4: bytes := [0xFF] + b3;
    assert EncVarint(0x1FFF_FFFF) == [0xFF] + EncVarint(0x3F_FFFF);
    assert EncVarint(0x3F_FFFF) == [0xFF] + EncVarint(0x7FFF);
    assert EncVarint(0x7FFF) == [0xFF] + EncVarint(0xFF);
    assert EncVarint(0xFF) == [0xFF] + EncVarint(1);
    assert EncVarint(0x1FFF_FFFF) + x == [0xFF] + b4;
    SignByte(b4, 35, acc);
    SignByte(b3, 42, acc);
    SignByte(b2, 49, acc);
    SignByte(b1, 56, acc);
    SignEnd(x, acc);
  }

  lemma SignEnd(x: bytes, acc: nat)
    requires TWO_31 <= acc < TWO_32
    ensures Varint32From([1] + x, 63, acc) == Got(acc, x)
  {
    hide Or, Shl, Low32;
    var w: bytes := [1] + x;
    assert w[0] == 1 && w[1..] == x;
  }
}
