/** Schoolbook multiplication: one row per limb of the left factor, each added
    in place into the result with its carry pushed upward. */
module Multiplication {
  import opened Arithmetic
  import opened Limbs
  import opened LimbSteps
  import opened BigUints

  /** Pushes a carry upward from limb k. The total fits, so nothing is left over
      when the loop reaches the end of the result. */
  method PropagateCarry(result: array<Limb>, k: nat, carry: Limb)
    requires k <= result.Length
    requires Val(result[..]) + carry * Pow(BASE, k) < Pow(BASE, result.Length)
    modifies result
    ensures Val(result[..]) == old(Val(result[..])) + carry * Pow(BASE, k)
  {
    var c: nat, k': nat := carry, k;
    while c > 0 && k' < result.Length
      invariant c < BASE && k' <= result.Length
      invariant Val(result[..]) + c * Pow(BASE, k') == old(Val(result[..])) + carry * Pow(BASE, k)
    {
      var sum := result[k'] + c;
      WriteCell(result, k', sum % BASE, sum / BASE, c);
      c := sum / BASE;
      k' := k' + 1;
    }
    if c > 0 {
      MulMonotone(1, c, Pow(BASE, result.Length));
    }
  }

  /** One product cell, with its carry in and its carry out; the u128 sum fits. */
  method ProductCell(result: array<Limb>, k: nat, x: Limb, d: Limb, carry: Limb) returns (carry': Limb)
    requires k < result.Length
    modifies result
    ensures Val(result[..]) + carry' * Pow(BASE, k + 1)
         == old(Val(result[..])) + (x * d + carry) * Pow(BASE, k)
  {
    ProductFits(x, d, result[k], carry);
    var prod := x * d + result[k] + carry;
    DivLess(prod, BASE, BASE);
    carry' := prod / BASE;
    WriteCell(result, k, prod % BASE, carry', x * d + carry);
  }

  /** Adds x * b into the result at limb i. */
  method AddRow(result: array<Limb>, i: nat, x: Limb, b: seq<Limb>)
    requires i + |b| <= result.Length
    requires Val(result[..]) + Row(x, b, i) < Pow(BASE, result.Length)
    modifies result
    ensures Val(result[..]) == old(Val(result[..])) + Row(x, b, i)
  {
    var carry: Limb := 0;
    for j := 0 to |b|
      invariant Val(result[..]) + carry * Pow(BASE, i + j) == old(Val(result[..])) + Row(x, b[..j], i)
    {
      RowStep(b, j, x, i, carry);
      carry := ProductCell(result, i + j, x, b[j], carry);
    }
    assert b[..|b|] == b;
    PropagateCarry(result, i + |b|, carry);
  }

  lemma NextPartialProduct(a: seq<Limb>, i: nat, b: seq<Limb>)
    requires i < |a|
    ensures Val(a[..i]) * Val(b) + Row(a[i], b, i) == Val(a[..i + 1]) * Val(b)
  {
    ValPrefixNext(a, i);
    ScaleColumn(Val(a[..i]), a[i], Pow(BASE, i), Val(b));
  }

  lemma ScaleColumn(v: int, x: int, w: int, y: int)
    ensures v * y + (x * y) * w == (v + x * w) * y
  {
    assert (x * y) * w == (x * w) * y;
  }

  lemma PartialProductFits(a: seq<Limb>, b: seq<Limb>, i: nat)
    requires i <= |a|
    ensures Val(a[..i]) * Val(b) < Pow(BASE, |a| + |b|)
  {
    ValBound(a[..i]);
    ValBound(b);
    BasePow(i);
    BasePow(|a|);
    Pow2Monotone(64 * i, 64 * |a|);
    PowAdd(BASE, |a|, |b|);
    ProductBelow(Val(a[..i]), Val(b), Pow(BASE, |a|), Pow(BASE, |b|));
  }

  lemma ProductBelow(x: nat, y: nat, u: nat, w: nat)
    requires x < u && y < w
    ensures x * y < u * w
  {
    MulMonotone(x, u, y);
    MulMonotone(y + 1, w, u);
  }

  method Mul(a: BigUint, b: BigUint) returns (r: BigUint)
    ensures fresh(r) && r.Valid()
    ensures r.Value() == a.Value() * b.Value()
  {
    var aZero := a.IsZero();
    var bZero := b.IsZero();
    if aZero || bZero {
      r := new BigUint.FromU64(0);
      return;
    }
    var x, y := a.limbs, b.limbs;
    var result := new Limb[|x| + |y|](_ => 0);
    ValZeros(result[..]);
    for i := 0 to |x|
      invariant Val(result[..]) == Val(x[..i]) * Val(y)
    {
      NextPartialProduct(x, i, y);
      PartialProductFits(x, y, i + 1);
      AddRow(result, i, x[i], y);
    }
    assert x[..|x|] == x;
    r := new BigUint.FromLimbs(result[..]);
    r.Normalize();
  }
}
