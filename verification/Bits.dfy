/**
 Bit operations on natural numbers, and the identities by which the other modules write masks, shifts
 and the joining of disjoint bits as division, remainder and addition.
 */
module Bits {

  type byte = b: int | 0 <= b < 0x100

  /** a * 2^n */
  function Shl(a: nat, n: nat): nat {
    if n == 0 then a else 2 * Shl(a, n - 1)
  }

  /** floor(a / 2^n) */
  function Shr(a: nat, n: nat): nat {
    if n == 0 then a else Shr(a, n - 1) / 2
  }

  lemma {:induction false} ShlAdd(a: nat, b: nat, n: nat)
    ensures Shl(a + b, n) == Shl(a, n) + Shl(b, n)
  {
    if n > 0 {
      ShlAdd(a, b, n - 1);
    }
  }

  lemma {:induction false} ShlOrder(a: nat, b: nat, n: nat)
    ensures a < b <==> Shl(a, n) < Shl(b, n)
    ensures a == b <==> Shl(a, n) == Shl(b, n)
  {
    if n > 0 {
      ShlOrder(a, b, n - 1);
    }
  }

  lemma {:induction false} ShlShl(a: nat, k: nat, n: nat)
    ensures Shl(a, n + k) == Shl(Shl(a, k), n)
  {
    if n > 0 {
      ShlShl(a, k, n - 1);
    }
  }

  lemma ShlBy7(a: nat, n: nat)
    ensures Shl(a, n + 7) == 128 * Shl(a, n)
  {
    assert Shl(a, n + 2) == 4 * Shl(a, n);
    assert Shl(a, n + 4) == 4 * Shl(a, n + 2);
    assert Shl(a, n + 6) == 4 * Shl(a, n + 4);
  }

  lemma {:induction false} ShrBounds(a: nat, n: nat)
    ensures Shl(Shr(a, n), n) <= a < Shl(Shr(a, n) + 1, n)
  {
    if n > 0 {
      ShrBounds(a, n - 1);
      var t, q := Shr(a, n - 1), Shr(a, n);
      ShlAdd(q, q, n - 1);
      ShlAdd(q + 1, q + 1, n - 1);
      ShlOrder(t, q + q, n - 1);
      ShlOrder(q + 1 + (q + 1), t + 1, n - 1);
    }
  }

  function And(x: nat, y: nat): nat {
    if x == 0 || y == 0 then 0 else 2 * And(x / 2, y / 2) + (if x % 2 == 1 && y % 2 == 1 then 1 else 0)
  }

  function Or(x: nat, y: nat): nat {
    if x == 0 then y else if y == 0 then x else 2 * Or(x / 2, y / 2) + (if x % 2 == 1 || y % 2 == 1 then 1 else 0)
  }

  lemma ShlOdd(a: nat, n: nat)
    requires n > 0
    ensures Shl(a, n) == 2 * Shl(a, n - 1) && Shl(a, n) / 2 == Shl(a, n - 1) && Shl(a, n) % 2 == 0
  {}

  /** Or of disjoint bits is addition. */
  lemma {:induction false} OrOfDisjoint(x: nat, y: nat, n: nat)
    requires x < Shl(1, n)
    ensures Or(x, Shl(y, n)) == x + Shl(y, n) == Or(Shl(y, n), x)
  {
    if n > 0 {
      ShlOdd(y, n);
      ShlOdd(1, n);
      OrOfDisjoint(x / 2, y, n - 1);
    }
  }

  /** And with a mask of the low n bits keeps the low bits. */
  lemma {:induction false} AndOfLowMask(high: nat, low: nat, n: nat)
    requires low < Shl(1, n)
    ensures And(Shl(high, n) + low, Shl(1, n) - 1) == low
  {
    if n > 0 {
      ShlOdd(high, n);
      ShlOdd(1, n);
      AndOfLowMask(high, low / 2, n - 1);
    }
  }

  /** And with a mask above the low n bits drops the low bits. */
  lemma {:induction false} AndOfHighMask(high: nat, low: nat, mask: nat, n: nat)
    requires low < Shl(1, n)
    ensures And(Shl(high, n) + low, Shl(mask, n)) == Shl(And(high, mask), n)
  {
    if n > 0 {
      ShlOdd(high, n);
      ShlOdd(mask, n);
      ShlOdd(1, n);
      AndOfHighMask(high, low / 2, mask, n - 1);
    }
  }

  lemma {:induction false} ShlPositive(n: nat)
    ensures Shl(1, n) > 0 && Shl(0, n) == 0
  {
    if n > 0 {
      ShlPositive(n - 1);
    }
  }

  lemma ShlGrows(n: nat, w: nat)
    ensures Shl(1, n) <= Shl(1, n + w)
  {
    ShlPositive(w);
    ShlShl(1, w, n);
    ShlOrder(Shl(1, w), 1, n);
  }

  /** `round_to_power_of_two` on words of n + w bits: the power of two is 2^n; the sum may not overflow. */
  function RoundToPowerOfTwo(value: nat, n: nat, w: nat): nat
    requires value + Shl(1, n) - 1 < Shl(1, n + w)
  {
    ShlPositive(n);
    ShlGrows(n, w);
    var mask := Shl(1, n) - 1;
    And(value + mask, Shl(1, n + w) - 1 - mask)
  }

  /** It gives the smallest multiple of the power of two that is not below the value. */
  lemma RoundsToPowerOfTwo(value: nat, n: nat, w: nat)
    requires value + Shl(1, n) - 1 < Shl(1, n + w)
    ensures exists k: nat :: RoundToPowerOfTwo(value, n, w) == Shl(k, n)
    ensures value <= RoundToPowerOfTwo(value, n, w) < value + Shl(1, n)
  {
    ShlPositive(n);
    ShlPositive(w);
    var sum := value + Shl(1, n) - 1;
    var high := Shr(sum, n);
    ShrBounds(sum, n);
    ShlAdd(high, 1, n);
    var low := sum - Shl(high, n);
    ShlShl(1, w, n);
    ShlAdd(Shl(1, w) - 1, 1, n);
    ShlOrder(high, Shl(1, w), n);
    AndOfHighMask(high, low, Shl(1, w) - 1, n);
    AndOfLowMask(0, high, w);
    assert RoundToPowerOfTwo(value, n, w) == Shl(high, n);
  }
}
