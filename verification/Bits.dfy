/** The machine's bitwise operators on natural numbers, defined bit by bit,
    and the arithmetic they amount to when masks and shifts line up. */
module Bits {
  import opened Arithmetic

  predicate Bit(x: nat, i: nat) {
    (x / Pow2(i)) % 2 == 1
  }

  function And(x: nat, y: nat): nat {
    if x == 0 || y == 0 then 0
    else 2 * And(x / 2, y / 2) + if x % 2 == 1 && y % 2 == 1 then 1 else 0
  }

  function Or(x: nat, y: nat): nat {
    if x == 0 then y
    else if y == 0 then x
    else 2 * Or(x / 2, y / 2) + if x % 2 == 1 || y % 2 == 1 then 1 else 0
  }

  function Xor(x: nat, y: nat): nat {
    if x == 0 then y
    else if y == 0 then x
    else 2 * Xor(x / 2, y / 2) + if x % 2 != y % 2 then 1 else 0
  }

  /** The number of significant bits: `width - leading_zeros()` on a word. */
  function BitLength(x: nat): nat {
    if x == 0 then 0 else 1 + BitLength(x / 2)
  }

  lemma {:induction false} BitLengthBounds(x: nat)
    ensures x < Pow2(BitLength(x))
    ensures x > 0 ==> BitLength(x) > 0 && Pow2(BitLength(x) - 1) <= x
  {
    if x > 0 {
      BitLengthBounds(x / 2);
    }
  }

  lemma BitLengthUnique(x: nat, n: nat)
    requires n > 0 && Pow2(n - 1) <= x < Pow2(n)
    ensures BitLength(x) == n
  {
    BitLengthBounds(x);
    if BitLength(x) < n {
      Pow2Monotone(BitLength(x), n - 1);
    } else if BitLength(x) > n {
      Pow2Monotone(n, BitLength(x) - 1);
    }
  }

  // ----- one bit at a time -----

  lemma AndStep(x: nat, y: nat)
    ensures And(x, y) / 2 == And(x / 2, y / 2)
    ensures And(x, y) % 2 == if x % 2 == 1 && y % 2 == 1 then 1 else 0
  {
  }

  lemma OrStep(x: nat, y: nat)
    ensures Or(x, y) / 2 == Or(x / 2, y / 2)
    ensures Or(x, y) % 2 == if x % 2 == 1 || y % 2 == 1 then 1 else 0
  {
  }

  lemma XorStep(x: nat, y: nat)
    ensures Xor(x, y) / 2 == Xor(x / 2, y / 2)
    ensures Xor(x, y) % 2 == if x % 2 != y % 2 then 1 else 0
  {
  }

  lemma {:induction false} AndBits(x: nat, y: nat, i: nat)
    ensures Bit(And(x, y), i) <==> Bit(x, i) && Bit(y, i)
    decreases i
  {
    AndStep(x, y);
    if i == 0 {
      LowestBits(x, y, And(x, y));
    } else {
      AndBits(x / 2, y / 2, i - 1);
      HigherBits(x, y, And(x, y), i);
    }
  }

  lemma {:induction false} OrBits(x: nat, y: nat, i: nat)
    ensures Bit(Or(x, y), i) <==> Bit(x, i) || Bit(y, i)
    decreases i
  {
    OrStep(x, y);
    if i == 0 {
      LowestBits(x, y, Or(x, y));
    } else {
      OrBits(x / 2, y / 2, i - 1);
      HigherBits(x, y, Or(x, y), i);
    }
  }

  lemma {:induction false} XorBits(x: nat, y: nat, i: nat)
    ensures Bit(Xor(x, y), i) <==> Bit(x, i) != Bit(y, i)
    decreases i
  {
    XorStep(x, y);
    if i == 0 {
      LowestBits(x, y, Xor(x, y));
    } else {
      XorBits(x / 2, y / 2, i - 1);
      HigherBits(x, y, Xor(x, y), i);
    }
  }

  lemma LowestBits(x: nat, y: nat, z: nat)
    ensures Bit(x, 0) == (x % 2 == 1) && Bit(y, 0) == (y % 2 == 1) && Bit(z, 0) == (z % 2 == 1)
  {
    LowestBit(x);
    LowestBit(y);
    LowestBit(z);
  }

  lemma HigherBits(x: nat, y: nat, z: nat, i: nat)
    requires i > 0
    ensures Bit(x, i) == Bit(x / 2, i - 1) && Bit(y, i) == Bit(y / 2, i - 1) && Bit(z, i) == Bit(z / 2, i - 1)
  {
    BitOfHalf(x, i);
    BitOfHalf(y, i);
    BitOfHalf(z, i);
  }

  // ----- masks -----

  /** `x & (2^k - 1)` keeps the low k bits. */
  lemma {:induction false} AndMask(x: nat, k: nat)
    ensures And(x, Pow2(k) - 1) == x % Pow2(k)
  {
    if k > 0 {
      var p := Pow2(k - 1);
      AndMask(x / 2, k - 1);
      AndStep(x, 2 * p - 1);
      HalfMask(p, 0);
      ModHalves(x, p);
    }
  }

  lemma HalfMask(a: int, b: int)
    ensures (2 * a - 1 - 2 * b) / 2 == a - 1 - b && (2 * a - 1 - 2 * b) % 2 == 1
  {
  }

  lemma ModHalves(x: nat, p: nat)
    requires p > 0
    ensures x % (2 * p) == 2 * ((x / 2) % p) + x % 2
  {
    var q := (x / 2) / p;
    assert x / 2 == q * p + (x / 2) % p;
    assert x == q * (2 * p) + (2 * ((x / 2) % p) + x % 2);
    DivModUnique(x, 2 * p, q, 2 * ((x / 2) % p) + x % 2);
  }

  /** `x | y` with the bits of y strictly below those of x is addition. */
  lemma {:induction false} OrDisjoint(h: nat, y: nat, k: nat)
    requires y < Pow2(k)
    ensures Or(h * Pow2(k), y) == h * Pow2(k) + y
  {
    if k > 0 {
      var x := h * Pow2(k);
      MulAssoc(2, h, Pow2(k - 1));
      MulAssoc(h, 2, Pow2(k - 1));
      OrDisjoint(h, y / 2, k - 1);
      OrStep(x, y);
      assert x / 2 == h * Pow2(k - 1) && x % 2 == 0;
    }
  }

  /** `(high << k) | low`, for a low part below the shift. */
  method Join(high: nat, low: nat, k: nat) returns (x: nat)
    requires low < Pow2(k)
    ensures x == high * Pow2(k) + low
  {
    OrDisjoint(high, low, k);
    x := Or(high * Pow2(k), low);
  }

  /** `x & (2^k - 1)` */
  method LowBits(x: nat, k: nat) returns (low: nat)
    ensures low == x % Pow2(k) && low < Pow2(k)
  {
    AndMask(x, k);
    low := And(x, Pow2(k) - 1);
  }

  lemma {:induction false} OrCommutes(x: nat, y: nat)
    ensures Or(x, y) == Or(y, x)
  {
    if x > 0 && y > 0 {
      OrCommutes(x / 2, y / 2);
    }
  }

  /** `x | 2^k` sets bit k. */
  lemma {:induction false} OrSetsBit(x: nat, k: nat)
    ensures Or(x, Pow2(k)) == if Bit(x, k) then x else x + Pow2(k)
  {
    OrStep(x, Pow2(k));
    if k == 0 {
      assert Or(x / 2, 0) == x / 2;
      LowestBit(x);
    } else {
      OrSetsBit(x / 2, k - 1);
      BitOfHalf(x, k);
      assert Pow2(k) / 2 == Pow2(k - 1) && Pow2(k) % 2 == 0;
    }
  }

  lemma LowestBit(x: nat)
    ensures Bit(x, 0) == (x % 2 == 1)
  {
    DivModUnique(x, 1, x, 0);
  }

  /** `x & !2^k` clears bit k, for a word of w bits. */
  lemma {:induction false} AndClearsBit(x: nat, k: nat, w: nat, mask: nat)
    requires k < w && x < Pow2(w)
    requires mask == Pow2(w) - 1 - Pow2(k)
    ensures And(x, mask) == if Bit(x, k) then x - Pow2(k) else x
  {
    if k == 0 {
      AndClearsLowest(x, w);
      LowestBit(x);
    } else {
      var half: nat := Pow2(w - 1) - 1 - Pow2(k - 1);
      AndClearsBit(x / 2, k - 1, w - 1, half);
      BitOfHalf(x, k);
      AndOddMask(x, half);
    }
  }

  lemma AndOddMask(x: nat, m: nat)
    ensures And(x, 2 * m + 1) == 2 * And(x / 2, m) + x % 2
  {
    var y := 2 * m + 1;
    assert y / 2 == m && y % 2 == 1;
    assert x == 0 || And(x, y) == 2 * And(x / 2, y / 2) + x % 2;
  }

  lemma AndClearsLowest(x: nat, w: nat)
    requires w > 0 && x < Pow2(w)
    ensures And(x, Pow2(w) - 2) == x - x % 2
  {
    var a := Pow2(w - 1);
    AndStep(x, 2 * a - 2);
    assert (2 * a - 2) / 2 == a - 1 && (2 * a - 2) % 2 == 0;
    AndMask(x / 2, w - 1);
    DivModUnique(x / 2, a, 0, x / 2);
  }

  lemma BitOfHalf(x: nat, k: nat)
    requires k > 0
    ensures Bit(x, k) == Bit(x / 2, k - 1)
  {
    DivDiv(x, 2, Pow2(k - 1));
  }

  /** A power of two has one bit. */
  lemma {:induction false} OnlyBit(k: nat, i: nat)
    ensures Bit(Pow2(k), i) <==> i == k
    decreases i
  {
    if i == 0 {
      LowestBit(Pow2(k));
    } else {
      BitOfHalf(Pow2(k), i);
      if k == 0 {
        NoBits(i - 1);
      } else {
        OnlyBit(k - 1, i - 1);
      }
    }
  }

  lemma NoBits(i: nat)
    ensures !Bit(0, i)
  {
    DivModUnique(0, Pow2(i), 0, 0);
  }

  /** `x & 2^k` isolates bit k. */
  lemma {:induction false} AndBit(x: nat, k: nat)
    ensures And(x, Pow2(k)) == if Bit(x, k) then Pow2(k) else 0
  {
    AndStep(x, Pow2(k));
    if k == 0 {
    } else {
      AndBit(x / 2, k - 1);
      BitOfHalf(x, k);
    }
  }

  // ----- exclusive or -----

  lemma {:induction false} XorBound(x: nat, y: nat, k: nat)
    requires x < Pow2(k) && y < Pow2(k)
    ensures Xor(x, y) < Pow2(k)
  {
    if x > 0 && y > 0 {
      XorBound(x / 2, y / 2, k - 1);
    }
  }

  lemma {:induction false} XorTwice(x: nat, y: nat)
    ensures Xor(Xor(x, y), y) == x
    decreases x + y
  {
    if x == 0 {
      XorSelf(y);
    } else if y > 0 {
      XorTwice(x / 2, y / 2);
      XorStep(x, y);
      XorStep(Xor(x, y), y);
    }
  }

  lemma {:induction false} XorSelf(x: nat)
    ensures Xor(x, x) == 0
  {
    if x > 0 {
      XorSelf(x / 2);
    }
  }
}
