/** The variable-width unsigned integer: a mutable limb vector kept in normal
    form, and its operators as the loops over limbs that compute them. */
module BigUints {
  import opened Arithmetic
  import opened Bits
  import opened Limbs
  import opened LimbSteps

  datatype Ordering = Less | Equal | Greater

  class BigUint {
    var limbs: seq<Limb>

    ghost predicate Valid()
      reads this
    {
      Normal(limbs)
    }

    ghost function Value(): nat
      reads this
    {
      Val(limbs)
    }

    constructor FromLimbs(limbs: seq<Limb>)
      ensures this.limbs == limbs
    {
      this.limbs := limbs;
    }

    constructor FromU64(v: Limb)
      ensures Valid() && Value() == v
    {
      limbs := [v];
      assert Val([v]) == v;
    }

    // ----- normal form -----

    method Normalize()
      modifies this
      ensures Value() == old(Value())
      ensures old(limbs) != [] ==> Valid()
    {
      while |limbs| > 1 && limbs[|limbs| - 1] == 0
        invariant Val(limbs) == Val(old(limbs))
        invariant old(limbs) != [] ==> limbs != []
        decreases |limbs|
      {
        ValTrailingZero(limbs);
        limbs := limbs[..|limbs| - 1];
      }
    }

    method IsZero() returns (zero: bool)
      ensures zero <==> Value() == 0
    {
      zero := forall x :: x in limbs ==> x == 0;
      if zero {
        assert forall i :: 0 <= i < |limbs| ==> limbs[i] in limbs;
        ValZeros(limbs);
      } else if Value() == 0 {
        ValZeroOnlyIfZeros(limbs);
      }
    }

    // ----- bits -----

    method GetBit(i: nat) returns (on: bool)
      ensures on == Bit(Value(), i)
    {
      hide Pow2, And, Bit;
      var limbIdx, bitIdx := i / 64, i % 64;
      BitOfLimb(limbs, i);
      if limbIdx >= |limbs| {
        on := false;
        NoBit(bitIdx);
      } else {
        DivModIdentity(limbs[limbIdx], Pow2(bitIdx));
        var shifted: nat := limbs[limbIdx] / Pow2(bitIdx);
        on := And(shifted, 1) == 1;
        LimbBit(limbs[limbIdx], bitIdx, shifted);
      }
    }

    /** The position just above the highest set bit; `leading_zeros()` of a
        64-bit word is 64 - BitLength of it. */
    method BitCount() returns (n: nat)
      requires Valid()
      ensures n == BitLength(Value())
    {
      var zero := IsZero();
      if zero {
        return 0;
      }
      var top := |limbs| - 1;
      var leadingZeros := 64 - BitLength(limbs[top]);
      var topBits := 64 - leadingZeros;
      n := top * 64 + topBits;
      BitLengthOfNormal(limbs);
    }

    method GrowTo(n: nat)
      modifies this
      ensures |limbs| >= n && |limbs| >= |old(limbs)|
      ensures Value() == old(Value())
      ensures forall i: nat :: At(limbs, i) == At(old(limbs), i)
    {
      while |limbs| < n
        invariant Val(limbs) == Val(old(limbs)) && |limbs| >= |old(limbs)|
        invariant forall i: nat :: At(limbs, i) == At(old(limbs), i)
        decreases n - |limbs|
      {
        ValSnoc(limbs, 0);
        limbs := limbs + [0];
      }
    }

    method SetBit(i: nat, val: bool)
      requires Valid()
      modifies this
      ensures Valid()
      ensures val && !Bit(old(Value()), i) ==> Value() == old(Value()) + Pow2(i)
      ensures !val && Bit(old(Value()), i) ==> Value() == old(Value()) - Pow2(i)
      ensures val == Bit(old(Value()), i) ==> Value() == old(Value())
    {
      var limbIdx, bitIdx := i / 64, i % 64;
      GrowTo(limbIdx + 1);
      SetBitValue(limbs, i, val);
      limbs := limbs[limbIdx := SetLimbBit(limbs[limbIdx], bitIdx, val)];
      Normalize();
    }

    method ClearBit(i: nat)
      requires Valid()
      modifies this
      ensures Valid()
      ensures Value() == if Bit(old(Value()), i) then old(Value()) - Pow2(i) else old(Value())
    {
      SetBit(i, false);
    }

    // ----- comparison -----

    method Compare(other: BigUint) returns (o: Ordering)
      requires Valid() && other.Valid()
      ensures o == if Value() < other.Value() then Less
                   else if Value() == other.Value() then Equal else Greater
    {
      var a, b := limbs, other.limbs;
      var aBits := BitCount();
      var bBits := other.BitCount();
      if aBits != bBits {
        if aBits < bBits {
          BitLengthMonotone(Value(), other.Value());
          return Less;
        }
        BitLengthMonotone(other.Value(), Value());
        return Greater;
      }
      SameBitLengthSameLimbs(a, b);
      var i := |a|;
      while i > 0
        invariant 0 <= i <= |a| == |b|
        invariant a[i..] == b[i..]
      {
        i := i - 1;
        if a[i] < b[i] {
          ValDecidedAt(a, b, i);
          return Less;
        } else if a[i] > b[i] {
          ValDecidedAt(b, a, i);
          return Greater;
        }
        assert a[i..] == [a[i]] + a[i + 1..] && b[i..] == [b[i]] + b[i + 1..];
      }
      assert a == a[0..] && b == b[0..];
      o := Equal;
    }

    /** Equality of the normalized copies. */
    method Equals(other: BigUint) returns (eq: bool)
      requires limbs != [] && other.limbs != []
      ensures eq <==> Value() == other.Value()
    {
      var a := new BigUint.FromLimbs(limbs);
      a.Normalize();
      var b := new BigUint.FromLimbs(other.limbs);
      b.Normalize();
      eq := a.limbs == b.limbs;
      if a.Value() == b.Value() {
        NormalFormUnique(a.limbs, b.limbs);
      }
    }

    // ----- addition and subtraction -----

    method Add(rhs: BigUint) returns (r: BigUint)
      requires limbs != []
      ensures fresh(r) && r.Valid()
      ensures r.Value() == Value() + rhs.Value()
    {
      var maxLen := if |limbs| > |rhs.limbs| then |limbs| else |rhs.limbs|;
      var result: seq<Limb> := [];
      var carry: Limb := 0;
      for i := 0 to maxLen
        invariant |result| == i && carry <= 1
        invariant Val(result) + carry * Pow(BASE, i) == Val(Take(limbs, i)) + Val(Take(rhs.limbs, i))
      {
        var (sum, carry') := AddLimbs(At(limbs, i), At(rhs.limbs, i), carry);
        AddStep(limbs, rhs.limbs, result, sum, carry, carry');
        result := result + [sum];
        carry := carry';
      }
      assert Take(limbs, maxLen) == limbs && Take(rhs.limbs, maxLen) == rhs.limbs;
      if carry > 0 {
        ValSnoc(result, carry);
        result := result + [carry];
      }
      r := new BigUint.FromLimbs(result);
      r.Normalize();
    }

    method Sub(rhs: BigUint) returns (r: BigUint)
      requires Valid() && rhs.Valid()
      requires Value() >= rhs.Value()
      ensures fresh(r) && r.Valid()
      ensures r.Value() == Value() - rhs.Value()
    {
      var result: seq<Limb> := [];
      var borrow := 0;
      if |limbs| < |rhs.limbs| {
        NormalLengths(limbs, rhs.limbs);
      }
      for i := 0 to |limbs|
        invariant |result| == i && 0 <= borrow <= 1
        invariant Val(result) + Val(Take(rhs.limbs, i)) == Val(Take(limbs, i)) + borrow * Pow(BASE, i)
      {
        var a, b := limbs[i], At(rhs.limbs, i);
        var diff := a - b - borrow;
        var digit := if diff < 0 then diff + BASE else diff;
        var borrow' := if diff < 0 then 1 else 0;
        SubStep(limbs, rhs.limbs, result, digit, borrow, borrow');
        result := result + [digit];
        borrow := borrow';
      }
      assert Take(limbs, |limbs|) == limbs && Take(rhs.limbs, |limbs|) == rhs.limbs;
      NoFinalBorrow(result, borrow);
      r := new BigUint.FromLimbs(result);
      r.Normalize();
    }
  }

  // ----- supporting facts -----

  lemma LimbBit(x: Limb, b: nat, shifted: nat)
    requires shifted == x / Pow2(b)
    ensures Bit(x, b) <==> And(shifted, 1) == 1
  {
    hide And, Pow2;
    Pow2Small();
    AndMask(shifted, 1);
  }

  lemma NoBit(b: nat)
    ensures !Bit(0, b)
  {
    hide Pow2;
    DivModUnique(0, Pow2(b), 0, 0);
  }

  /** Two `overflowing_add`s and the sum of their overflow flags. */
  function AddLimbs(a: Limb, b: Limb, carry: Limb): (r: (Limb, Limb))
    requires carry <= 1
    ensures r.1 <= 1 && r.0 + r.1 * BASE == a + b + carry
  {
    var (sum1, c1) := ((a + b) % BASE, a + b >= BASE);
    var (sum2, c2) := ((sum1 + carry) % BASE, sum1 + carry >= BASE);
    (sum2, (if c1 then 1 else 0) + (if c2 then 1 else 0))
  }

  lemma AddStep(s: seq<Limb>, t: seq<Limb>, result: seq<Limb>, digit: Limb, carry: int, carry': int)
    requires var i := |result|;
             && Val(result) + carry * Pow(BASE, i) == Val(Take(s, i)) + Val(Take(t, i))
             && digit + carry' * BASE == At(s, i) + At(t, i) + carry
    ensures var i := |result| + 1;
            Val(result + [digit]) + carry' * Pow(BASE, i) == Val(Take(s, i)) + Val(Take(t, i))
  {
    var i := |result|;
    TakeNext(s, i);
    TakeNext(t, i);
    ValSnoc(result, digit);
    SumStep(Val(Take(s, i)), Val(Take(t, i)), Val(result), At(s, i), At(t, i), digit, carry, carry', Pow(BASE, i));
  }

  lemma SubStep(s: seq<Limb>, t: seq<Limb>, result: seq<Limb>, digit: Limb, borrow: int, borrow': int)
    requires var i := |result|;
             && Val(result) + Val(Take(t, i)) == Val(Take(s, i)) + borrow * Pow(BASE, i)
             && digit + At(t, i) + borrow == At(s, i) + borrow' * BASE
    ensures var i := |result| + 1;
            Val(result + [digit]) + Val(Take(t, i)) == Val(Take(s, i)) + borrow' * Pow(BASE, i)
  {
    var i := |result|;
    TakeNext(s, i);
    TakeNext(t, i);
    ValSnoc(result, digit);
    SumStep(Val(result), Val(Take(t, i)), Val(Take(s, i)), digit, At(t, i), At(s, i), borrow, borrow', Pow(BASE, i));
  }

  lemma NoFinalBorrow(result: seq<Limb>, borrow: nat)
    requires Val(result) >= borrow * Pow(BASE, |result|)
    ensures borrow == 0
  {
    ValBound(result);
    if borrow > 0 {
      MulMonotone(1, borrow, Pow(BASE, |result|));
    }
  }

  function SetLimbBit(x: Limb, b: nat, val: bool): (y: Limb)
    requires b < 64
    ensures val && !Bit(x, b) ==> y == x + Pow2(b)
    ensures !val && Bit(x, b) ==> y == x - Pow2(b)
    ensures val == Bit(x, b) ==> y == x
  {
    BaseIsPow2();
    OrSetsBit(x, b);
    Pow2Monotone(b + 1, 64);
    AndClearsBit(x, b, 64, BASE - 1 - Pow2(b));
    SetBitFits(x, b);
    if val then Or(x, Pow2(b)) else And(x, BASE - 1 - Pow2(b))
  }

  lemma SetBitFits(x: Limb, b: nat)
    requires b < 64
    ensures !Bit(x, b) ==> x + Pow2(b) < BASE
  {
    ShiftFactors(b);
    EvenQuotientFits(x, Pow2(b), Pow2(63 - b));
  }

  /** An even quotient leaves room for one more divisor below an even multiple of it. */
  lemma EvenQuotientFits(x: nat, p: nat, r: nat)
    requires p > 0 && x < p * (2 * r)
    ensures (x / p) % 2 == 0 ==> x + p < p * (2 * r)
  {
    DivLess(x, p, 2 * r);
    if (x / p) % 2 == 0 {
      MulMonotone(x / p + 2, 2 * r, p);
      assert x == (x / p) * p + x % p;
      assert (x / p + 2) * p == (x / p) * p + 2 * p;
    }
  }

  /** Rewriting one limb sets or clears one bit of the whole number. */
  lemma SetBitValue(s: seq<Limb>, i: nat, val: bool)
    requires i / 64 < |s|
    ensures var t := s[i / 64 := SetLimbBit(s[i / 64], i % 64, val)];
            && (val && !Bit(Val(s), i) ==> Val(t) == Val(s) + Pow2(i))
            && (!val && Bit(Val(s), i) ==> Val(t) == Val(s) - Pow2(i))
            && (val == Bit(Val(s), i) ==> Val(t) == Val(s))
  {
    var k, b := i / 64, i % 64;
    var y := SetLimbBit(s[k], b, val);
    BitOfLimb(s, i);
    ValUpdate(s, k, y);
    BitWeight(s[k], y, k, b);
    assert i == 64 * k + b;
  }

  lemma BitWeight(x: int, y: int, k: nat, b: nat)
    ensures y == x + Pow2(b) ==> (y - x) * Pow(BASE, k) == Pow2(64 * k + b)
    ensures y == x - Pow2(b) ==> (y - x) * Pow(BASE, k) == 0 - Pow2(64 * k + b)
  {
    BasePow(k);
    Pow2Add(b, 64 * k);
    NegateProduct(Pow2(b), Pow(BASE, k));
  }

  lemma NegateProduct(a: int, b: int)
    ensures (-a) * b == -(a * b)
  {
  }

  lemma BitLengthMonotone(x: nat, y: nat)
    requires BitLength(x) < BitLength(y)
    ensures x < y
  {
    BitLengthBounds(x);
    BitLengthBounds(y);
    Pow2Monotone(BitLength(x), BitLength(y) - 1);
  }

  lemma TopLimbPositive(s: seq<Limb>)
    requires Normal(s) && Val(s) > 0
    ensures 1 <= BitLength(s[|s| - 1]) <= 64
  {
    var x := s[|s| - 1];
    if |s| == 1 {
      assert Val(s) == x;
    }
    BitLengthBounds(x);
    BaseIsPow2();
    if BitLength(x) > 64 {
      Pow2Monotone(64, BitLength(x) - 1);
    }
  }

  lemma BitLengthOfNormal(s: seq<Limb>)
    requires Normal(s) && Val(s) > 0
    ensures var top := |s| - 1;
            1 <= BitLength(s[top]) <= 64 && BitLength(Val(s)) == top * 64 + BitLength(s[top])
  {
    var top := |s| - 1;
    TopLimbPositive(s);
    DropIsDiv(s, top);
    assert s[top..] == [s[top]];
    BitLengthShifted(Val(s), 64 * top, s[top]);
  }

  lemma BitLengthShifted(v: nat, e: nat, x: nat)
    requires v / Pow2(e) == x > 0
    ensures BitLength(v) == e + BitLength(x)
  {
    var n := BitLength(x);
    BitLengthBounds(x);
    Pow2Add(n, e);
    Pow2Add(n - 1, e);
    QuotientBounds(v, Pow2(e), Pow2(n - 1), Pow2(n));
    BitLengthUnique(v, e + n);
  }

  lemma QuotientBounds(v: nat, w: nat, lo: nat, hi: nat)
    requires w > 0 && lo <= v / w < hi
    ensures lo * w <= v < hi * w
  {
    assert v == (v / w) * w + v % w;
    MulMonotone(lo, v / w, w);
    MulMonotone(v / w + 1, hi, w);
  }

  lemma SameBitLengthSameLimbs(s: seq<Limb>, t: seq<Limb>)
    requires Normal(s) && Normal(t)
    requires BitLength(Val(s)) == BitLength(Val(t))
    ensures |s| == |t|
  {
    if Val(s) == 0 || Val(t) == 0 {
      assert Val(s) == 0 && Val(t) == 0;
      ValZeroOnlyIfZeros(s);
      ValZeroOnlyIfZeros(t);
    } else {
      BitLengthOfNormal(s);
      BitLengthOfNormal(t);
    }
  }
}
