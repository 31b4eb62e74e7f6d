/** Long division: a limb at a time for a one-limb divisor, a bit at a time otherwise. */
module Division {
  import opened Arithmetic
  import opened Bits
  import opened Limbs
  import opened LimbSteps
  import opened BigUints
  import opened Shifts

  /** Quotient and remainder, by their defining equation. */
  ghost predicate IsDivMod(a: nat, b: nat, q: nat, r: nat) {
    a == q * b + r && r < b
  }

  lemma DivModMeaning(a: nat, b: nat, q: nat, r: nat)
    requires IsDivMod(a, b, q, r)
    ensures a / b == q && a % b == r
  {
    DivModUnique(a, b, q, r);
  }

  // ----- one-limb divisor -----

  /** `(remainder << 64) | limb` divided by b: the digit fits a word. */
  method DivideLimb(rem: nat, x: Limb, b: Limb) returns (digit: Limb, rem': nat)
    requires rem < b
    ensures rem' < b && digit * b + rem' == rem * BASE + x
  {
    var dividend := Or(rem * BASE, x);
    BaseIsPow2();
    OrDisjoint(rem, x, 64);
    DigitsBound(rem, b, x, BASE);
    DivLess(dividend, b, BASE);
    DivModIdentity(dividend, b);
    digit, rem' := dividend / b, dividend % b;
  }

  /** The quotient limbs from i up, and the remainder carried below them. */
  lemma DivideStep(s: seq<Limb>, q: seq<Limb>, i: nat, b: nat, digit: Limb, rem: nat, rem': nat)
    requires i < |s| == |q|
    requires Val(s[i + 1..]) == Val(q[i + 1..]) * b + rem
    requires digit * b + rem' == rem * BASE + s[i]
    requires q[i] == digit
    ensures Val(s[i..]) == Val(q[i..]) * b + rem'
  {
    assert s[i..][1..] == s[i + 1..] && q[i..][1..] == q[i + 1..];
    DivideArithmetic(s[i], Val(q[i + 1..]), b, rem, digit, rem');
  }

  lemma DivideArithmetic(x: int, v: int, b: int, rem: int, digit: int, rem': int)
    requires digit * b + rem' == rem * BASE + x
    ensures x + BASE * (v * b + rem) == (digit + BASE * v) * b + rem'
  {
    calc {
      x + BASE * (v * b + rem);
      BASE * (v * b) + (rem * BASE + x);
      BASE * (v * b) + digit * b + rem';
      { MulAssoc(BASE, v, b); MulDistributes(digit, BASE * v, b); }
      (digit + BASE * v) * b + rem';
    }
  }

  method DivModSingle(a: BigUint, b: Limb) returns (q: BigUint, r: BigUint)
    requires a.Valid() && b > 0
    ensures fresh(q) && fresh(r) && q.Valid() && r.Valid()
    ensures IsDivMod(a.Value(), b, q.Value(), r.Value())
  {
    var s := a.limbs;
    var result := new Limb[|s|](_ => 0);
    var rem: nat := 0;
    var i := |s|;
    while i > 0
      invariant 0 <= i <= |s| && rem < b
      invariant Val(s[i..]) == Val(result[i..]) * b + rem
    {
      i := i - 1;
      var digit, rem' := DivideLimb(rem, s[i], b);
      ghost var above := result[i + 1..];
      result[i] := digit;
      assert result[..][i + 1..] == above == result[i + 1..];
      DivideStep(s, result[..], i, b, digit, rem, rem');
      assert result[..][i..] == result[i..];
      rem := rem';
    }
    assert s[0..] == s && result[0..] == result[..];
    q := new BigUint.FromLimbs(result[..]);
    q.Normalize();
    r := new BigUint.FromU64(rem);
  }

  // ----- any divisor -----

  /** Bringing down bit i: what is left of a, the remainder and the quotient all double. */
  lemma BringDown(a: nat, i: nat, b: nat, qh: nat, r: nat, bit: nat)
    requires a / Pow2(i + 1) == qh * b + r
    requires bit == if Bit(a, i) then 1 else 0
    ensures a / Pow2(i) == (2 * qh) * b + (2 * r + bit)
  {
    var x := a / Pow2(i);
    DivDiv(a, Pow2(i), 2);
    assert x == 2 * (x / 2) + x % 2;
    DoubleProduct(qh, b);
  }

  lemma DoubleProduct(q: int, b: int)
    ensures 2 * (q * b) == (2 * q) * b
    ensures (2 * q + 1) * b == (2 * q) * b + b
  {
  }

  lemma EvenHighPart(q: nat, h: nat, i: nat)
    requires q == (2 * h) * Pow2(i)
    ensures !Bit(q, i)
  {
    DivModUnique(q, Pow2(i), 2 * h, 0);
  }

  lemma NextWeight(qh: nat, i: nat)
    ensures qh * Pow2(i + 1) == (2 * qh) * Pow2(i)
    ensures (2 * qh + 1) * Pow2(i) == (2 * qh) * Pow2(i) + Pow2(i)
  {
    MulAssoc(qh, 2, Pow2(i));
    MulDistributes(2 * qh, 1, Pow2(i));
  }

  /** Long division after the bits of a from i up: q holds the quotient digits
      found so far, r what is left. */
  ghost predicate Divided(a: nat, b: nat, i: nat, q: nat, r: nat) {
    r < b && exists qh: nat :: q == qh * Pow2(i) && a / Pow2(i) == qh * b + r
  }

  lemma DividedStart(a: nat, b: nat)
    requires b > 0
    ensures Divided(a, b, BitLength(a), 0, 0)
  {
    var p := Pow2(BitLength(a));
    BitLengthBounds(a);
    DivModUnique(a, p, 0, a);
    assert 0 == 0 * p && a / p == 0 * b + 0;
  }

  /** Where the trial subtraction succeeds the quotient gains bit i, which was clear. */
  lemma DividedStep(a: nat, b: nat, i: nat, q: nat, r: nat, bit: nat)
    requires Divided(a, b, i + 1, q, r)
    requires bit == if Bit(a, i) then 1 else 0
    ensures !Bit(q, i)
    ensures 2 * r + bit >= b ==> Divided(a, b, i, q + Pow2(i), 2 * r + bit - b)
    ensures 2 * r + bit < b ==> Divided(a, b, i, q, 2 * r + bit)
  {
    var qh: nat :| q == qh * Pow2(i + 1) && a / Pow2(i + 1) == qh * b + r;
    NextWeight(qh, i);
    DoubleProduct(qh, b);
    BringDown(a, i, b, qh, r, bit);
    EvenHighPart(q, qh, i);
    if 2 * r + bit >= b {
      assert q + Pow2(i) == (2 * qh + 1) * Pow2(i);
      assert a / Pow2(i) == (2 * qh + 1) * b + (2 * r + bit - b);
    }
  }

  lemma DividedEnd(a: nat, b: nat, q: nat, r: nat)
    requires Divided(a, b, 0, q, r)
    ensures IsDivMod(a, b, q, r)
  {
    DivModUnique(a, 1, a, 0);
  }

  /** remainder = (remainder << 1) + bit i of a. */
  method ShiftIn(remainder: BigUint, a: BigUint, i: nat) returns (r: BigUint, ghost bit: nat)
    requires remainder.Valid() && a.Valid()
    ensures fresh(r) && r.Valid()
    ensures bit == if Bit(a.Value(), i) then 1 else 0
    ensures r.Value() == 2 * remainder.Value() + bit
  {
    Pow2Small();
    r := Shl(remainder, 1);
    bit := 0;
    var on := a.GetBit(i);
    if on {
      bit := 1;
      var one := new BigUint.FromU64(1);
      r := r.Add(one);
    }
  }

  method DivMod(a: BigUint, b: BigUint) returns (q: BigUint, r: BigUint)
    requires a.Valid() && b.Valid()
    requires b.Value() != 0
    ensures fresh(q) && fresh(r) && q.Valid() && r.Valid()
    ensures IsDivMod(a.Value(), b.Value(), q.Value(), r.Value())
  {
    var order := a.Compare(b);
    if order == Less {
      q := new BigUint.FromU64(0);
      r := new BigUint.FromLimbs(a.limbs);
      return;
    }
    if |b.limbs| == 1 && b.limbs[0] != 0 {
      ValSingle(b.limbs[0]);
      assert b.limbs == [b.limbs[0]];
      q, r := DivModSingle(a, b.limbs[0]);
      return;
    }
    q, r := DivModBits(a, b);
  }

  /** Where b fits, subtracts it and sets the quotient bit, which was clear. */
  method TrialSubtract(remainder: BigUint, b: BigUint, quotient: BigUint, i: nat) returns (r: BigUint)
    requires remainder.Valid() && b.Valid() && quotient.Valid()
    requires quotient != remainder && quotient != b
    requires !Bit(quotient.Value(), i)
    modifies quotient
    ensures quotient.Valid() && r.Valid() && (fresh(r) || r == remainder)
    ensures remainder.Value() < b.Value() ==>
              r.Value() == remainder.Value() && quotient.Value() == old(quotient.Value())
    ensures remainder.Value() >= b.Value() ==>
              r.Value() == remainder.Value() - b.Value() && quotient.Value() == old(quotient.Value()) + Pow2(i)
  {
    r := remainder;
    var order := remainder.Compare(b);
    if order != Less {
      r := remainder.Sub(b);
      quotient.SetBit(i, true);
    }
  }

  method DivModBits(a: BigUint, b: BigUint) returns (quotient: BigUint, remainder: BigUint)
    requires a.Valid() && b.Valid()
    requires b.Value() != 0
    ensures fresh(quotient) && fresh(remainder) && quotient.Valid() && remainder.Valid()
    ensures IsDivMod(a.Value(), b.Value(), quotient.Value(), remainder.Value())
  {
    ghost var av, bv := a.Value(), b.Value();
    var i := a.BitCount();
    DividedStart(av, bv);
    quotient := new BigUint.FromU64(0);
    remainder := new BigUint.FromU64(0);
    while i > 0
      invariant fresh(quotient) && fresh(remainder) && quotient != remainder
      invariant quotient.Valid() && remainder.Valid()
      invariant Divided(av, bv, i, quotient.Value(), remainder.Value())
    {
      i := i - 1;
      ghost var bit;
      ghost var rv := remainder.Value();
      remainder, bit := ShiftIn(remainder, a, i);
      DividedStep(av, bv, i, quotient.Value(), rv, bit);
      remainder := TrialSubtract(remainder, b, quotient, i);
    }
    DividedEnd(av, bv, quotient.Value(), remainder.Value());
    quotient.Normalize();
    remainder.Normalize();
  }

  method Rem(a: BigUint, b: BigUint) returns (r: BigUint)
    requires a.Valid() && b.Valid()
    requires b.Value() != 0
    ensures fresh(r) && r.Valid()
    ensures r.Value() == a.Value() % b.Value()
  {
    var q;
    q, r := DivMod(a, b);
    DivModMeaning(a.Value(), b.Value(), q.Value(), r.Value());
  }
}
