/** Unsigned 32-bit words as numbers, with the C operators on them spelled out: shifts as
    multiplication and division by powers of two, `|` and `&` bit by bit. */
module Bits {
  import opened Arith

  function Pow2(n: nat): (p: nat)
    ensures p >= 1
  {
    if n == 0 then 1 else 2 * Pow2(n - 1)
  }

  const WORD := 0x1_0000_0000

  type Word = x: int | 0 <= x < WORD

  function Or(a: nat, b: nat): nat {
    if a == 0 then b
    else if b == 0 then a
    else (if a % 2 == 1 || b % 2 == 1 then 1 else 0) + 2 * Or(a / 2, b / 2)
  }

  function And(a: nat, b: nat): nat {
    if a == 0 || b == 0 then 0
    else (if a % 2 == 1 && b % 2 == 1 then 1 else 0) + 2 * And(a / 2, b / 2)
  }

  /** The bits that leave a word at the top are lost. */
  function Shl(x: Word, k: nat): Word {
    (x * Pow2(k)) % WORD
  }

  function Shr(x: Word, k: nat): Word {
    DivShrinks(x, Pow2(k));
    x / Pow2(k)
  }

  function Not(x: Word): Word {
    WORD - 1 - x
  }

  lemma {:induction false} Pow2Add(a: nat, b: nat)
    ensures Pow2(a + b) == Pow2(a) * Pow2(b)
  {
    if a > 0 {
      Pow2Add(a - 1, b);
      var p, q := Pow2(a - 1), Pow2(b);
      assert Pow2(a + b) == 2 * (p * q);
      assert (2 * p) * q == 2 * (p * q);
    }
  }

  lemma Pow2Monotone(a: nat, b: nat)
    requires a <= b
    ensures Pow2(a) <= Pow2(b)
  {
    Pow2Add(a, b - a);
    MulGrows(Pow2(a), Pow2(b - a));
  }

  lemma MulGrows(a: nat, b: nat)
    requires b >= 1
    ensures a <= a * b
  {
  }

  lemma Pow2Word()
    ensures Pow2(32) == WORD && Pow2(31) == 0x8000_0000
  {
    assert Pow2(8) == 256 by {
      assert Pow2(4) == 16;
      Pow2Add(4, 4);
    }
    Pow2Add(8, 8);
    Pow2Add(16, 16);
  }

  lemma DivOfMultiple(d: nat, q: nat, r: nat)
    requires d >= 1 && r < d
    ensures (d * q + r) / d == q && (d * q + r) % d == r
    ensures (q * d + r) / d == q && (q * d + r) % d == r
  {
    DivModUnique(d, q, r);
    assert d * q == q * d;
  }

  /** Dividing off the low bit. */
  lemma HalfMod(x: nat, k: nat)
    requires k >= 1
    ensures x % Pow2(k) == x % 2 + 2 * ((x / 2) % Pow2(k - 1))
  {
    var p, h := Pow2(k - 1), x / 2;
    var q, r := h / p, h % p;
    assert h == p * q + r;
    assert x == 2 * (p * q + r) + x % 2;
    assert 2 * (p * q) == (2 * p) * q;
    DivOfMultiple(2 * p, q, 2 * r + x % 2);
  }

  lemma AndOdd(x: nat, m: nat)
    ensures And(x, 2 * m + 1) == x % 2 + 2 * And(x / 2, m)
  {
  }

  lemma ModOne(x: nat)
    ensures Pow2(0) == 1 && x % Pow2(0) == 0 && And(x, 0) == 0 && And(x, 1) == x % 2
  {
  }

  /** `x & ((1 << k) - 1)` keeps the low k bits. */
  lemma {:induction false} AndMask(x: nat, k: nat)
    ensures And(x, Pow2(k) - 1) == x % Pow2(k)
  {
    hide Pow2, And;
    if k == 0 {
      ModOne(x);
    } else {
      Pow2Next(k - 1);
      AndOdd(x, Pow2(k - 1) - 1);
      AndMask(x / 2, k - 1);
      HalfMod(x, k);
    }
  }

  lemma Pow2Next(k: nat)
    ensures Pow2(k + 1) == 2 * Pow2(k)
  {
  }

  lemma AndEven(x: nat, m: nat)
    requires m >= 1
    ensures And(x, 2 * m) == 2 * And(x / 2, m)
  {
    assert (2 * m) / 2 == m && (2 * m) % 2 == 0;
    if x == 0 {
      assert And(x / 2, m) == 0;
    }
  }

  /** `x & (1 << k)` tests one bit; below the top bit of a (k + 1)-bit number it is a comparison. */
  lemma {:induction false} AndBit(x: nat, k: nat)
    requires x < Pow2(k + 1)
    ensures And(x, Pow2(k)) != 0 <==> x >= Pow2(k)
  {
    hide Pow2, And;
    ModOne(x);
    Pow2Next(k);
    if k > 0 {
      Pow2Next(k - 1);
      AndEven(x, Pow2(k - 1));
      AndBit(x / 2, k - 1);
    }
  }

  /** `|` of numbers that share no bit position is addition. */
  lemma {:induction false} OrDisjoint(a: nat, b: nat, k: nat)
    requires a < Pow2(k) && b % Pow2(k) == 0
    ensures Or(a, b) == a + b
  {
    if k > 0 && a != 0 && b != 0 {
      HalfMod(b, k);
      OrDisjoint(a / 2, b / 2, k - 1);
    }
  }

  /** Bit k of a number. */
  ghost predicate Bit(x: nat, k: nat) {
    (x / Pow2(k)) % 2 == 1
  }

  lemma DivTwice(x: nat, p: nat)
    requires p >= 1
    ensures x / (2 * p) == (x / 2) / p
  {
    var h := x / 2;
    var q, r := h / p, h % p;
    assert h == p * q + r;
    assert x == 2 * (p * q + r) + x % 2;
    assert 2 * (p * q) == (2 * p) * q;
    DivOfMultiple(2 * p, q, 2 * r + x % 2);
  }

  lemma BitOfHalf(x: nat, k: nat)
    requires k >= 1
    ensures Bit(x, k) <==> Bit(x / 2, k - 1)
  {
    DivTwice(x, Pow2(k - 1));
  }

  lemma BitZero(x: nat)
    ensures Bit(x, 0) <==> x % 2 == 1
  {
  }

  /** `&` is the logical and, bit by bit. */
  lemma {:induction false} AndBits(a: nat, b: nat, k: nat)
    ensures Bit(And(a, b), k) <==> Bit(a, k) && Bit(b, k)
  {
    hide Bit;
    BitZero(a);
    BitZero(b);
    BitZero(And(a, b));
    AndHalf(a, b);
    if k > 0 {
      BitOfHalf(a, k);
      BitOfHalf(b, k);
      BitOfHalf(And(a, b), k);
      AndBits(a / 2, b / 2, k - 1);
    }
  }

  lemma AndHalf(a: nat, b: nat)
    ensures And(a, b) % 2 == (if a % 2 == 1 && b % 2 == 1 then 1 else 0)
    ensures And(a, b) / 2 == And(a / 2, b / 2)
  {
  }

  /** Numbers of n bits are equal when all their bits are. */
  lemma {:induction false} SameBits(a: nat, b: nat, n: nat)
    requires a < Pow2(n) && b < Pow2(n)
    requires forall k: nat :: k < n ==> (Bit(a, k) <==> Bit(b, k))
    ensures a == b
  {
    hide Bit;
    if n > 0 {
      forall k: nat | k < n - 1
        ensures Bit(a / 2, k) <==> Bit(b / 2, k)
      {
        BitOfHalf(a, k + 1);
        BitOfHalf(b, k + 1);
      }
      SameBits(a / 2, b / 2, n - 1);
      BitZero(a);
      BitZero(b);
    }
  }

  lemma AndBelow(a: nat, b: nat)
    ensures And(a, b) <= a
  {
    if a != 0 && b != 0 {
      AndBelow(a / 2, b / 2);
    }
  }

  /** The bits of a number above some position, and those below. */
  function HighPart(x: nat, at: nat): nat {
    DivShrinks(x, Pow2(at));
    x / Pow2(at)
  }

  lemma {:induction false} BitsAbove(x: nat, at: nat, k: nat)
    ensures Bit(x, at + k) <==> Bit(HighPart(x, at), k)
  {
    hide Bit;
    if at > 0 {
      BitOfHalf(x, at + k);
      BitsAbove(x / 2, at - 1, k);
      DivTwice(x, Pow2(at - 1));
    }
  }

  lemma {:induction false} BitsBelow(x: nat, w: nat, k: nat)
    requires k < w
    ensures Bit(x % Pow2(w), k) <==> Bit(x, k)
  {
    hide Bit;
    var low := x % Pow2(w);
    HalfMod(x, w);
    assert low % 2 == x % 2 && low / 2 == (x / 2) % Pow2(w - 1);
    if k == 0 {
      BitZero(x);
      BitZero(low);
    } else {
      BitOfHalf(x, k);
      BitOfHalf(low, k);
      BitsBelow(x / 2, w - 1, k - 1);
    }
  }
}
