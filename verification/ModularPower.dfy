/** Modular exponentiation by repeated squaring, and the inverse modulo a prime. */
module ModularPower {
  import opened Arithmetic
  import opened Bits
  import opened Fermat
  import opened BigUints
  import opened Multiplication
  import opened Division

  /** Bit i of the exponent splits it off the bits below. */
  lemma LowBitsNext(e: nat, i: nat)
    ensures e % Pow2(i + 1) == e % Pow2(i) + (if Bit(e, i) then Pow2(i) else 0)
  {
    var p := Pow2(i);
    var x := e / p;
    DivModIdentity(e, p);
    assert x == 2 * (x / 2) + x % 2;
    LowBitsArithmetic(e, p, x, e % p);
  }

  lemma LowBitsArithmetic(e: nat, p: nat, x: nat, r: nat)
    requires p > 0 && e == x * p + r && r < p
    ensures e % (2 * p) == r + (if x % 2 == 1 then p else 0)
  {
    var h, low := x / 2, if x % 2 == 1 then p else 0;
    assert x * p == h * (2 * p) + low by {
      if x % 2 == 1 {
        assert (2 * h + 1) * p == h * (2 * p) + p;
      } else {
        assert (2 * h) * p == h * (2 * p);
      }
    }
    DivModUnique(e, 2 * p, h, r + low);
  }

  lemma ProductOfResidues(x: nat, y: nat, m: nat)
    requires m > 0
    ensures ((x % m) * (y % m)) % m == (x * y) % m
  {
    ModModSame(x, m);
    ModModSame(y, m);
    CongruentMul(x % m, x, y % m, y, m);
  }

  /** The two running values of square-and-multiply after i bits of the exponent. */
  ghost predicate Running(b: nat, e: nat, m: nat, i: nat, result: nat, square: nat)
    requires m > 0
  {
    result == Pow(b, e % Pow2(i)) % m && square == Pow(b, Pow2(i)) % m
  }

  lemma RunningStart(b: nat, e: nat, m: nat)
    requires m > 1
    ensures Running(b, e, m, 0, 1, b % m)
  {
    DivModUnique(e, 1, e, 0);
    DivModUnique(1, m, 0, 1);
  }

  lemma RunningStep(b: nat, e: nat, m: nat, i: nat, result: nat, square: nat)
    requires m > 0 && Running(b, e, m, i, result, square)
    ensures Running(b, e, m, i + 1, if Bit(e, i) then (result * square) % m else result, (square * square) % m)
  {
    var p := Pow2(i);
    LowBitsNext(e, i);
    PowAdd(b, e % p, p);
    PowAdd(b, p, p);
    ProductOfResidues(Pow(b, e % p), Pow(b, p), m);
    ProductOfResidues(Pow(b, p), Pow(b, p), m);
  }

  lemma RunningEnd(b: nat, e: nat, m: nat, result: nat, square: nat)
    requires m > 0 && Running(b, e, m, BitLength(e), result, square)
    ensures result == Pow(b, e) % m
  {
    BitLengthBounds(e);
    DivModUnique(e, Pow2(BitLength(e)), 0, e);
  }

  method MulMod(x: BigUint, y: BigUint, m: BigUint) returns (r: BigUint)
    requires x.Valid() && y.Valid() && m.Valid() && m.Value() != 0
    ensures fresh(r) && r.Valid()
    ensures r.Value() == (x.Value() * y.Value()) % m.Value()
  {
    var product := Mul(x, y);
    r := Rem(product, m);
  }

  method ModPow(base: BigUint, exp: BigUint, modulus: BigUint) returns (result: BigUint)
    requires base.Valid() && exp.Valid() && modulus.Valid()
    requires modulus.Value() != 0
    ensures fresh(result) && result.Valid()
    ensures result.Value() == Pow(base.Value(), exp.Value()) % modulus.Value()
  {
    var one := new BigUint.FromU64(1);
    var isOne := modulus.Equals(one);
    if isOne {
      result := new BigUint.FromU64(0);
      return;
    }
    ghost var b, e, m := base.Value(), exp.Value(), modulus.Value();
    result := one;
    var square := Rem(base, modulus);
    var expBits := exp.BitCount();
    RunningStart(b, e, m);
    for i := 0 to expBits
      invariant fresh(result) && fresh(square)
      invariant result.Valid() && square.Valid()
      invariant Running(b, e, m, i, result.Value(), square.Value())
    {
      RunningStep(b, e, m, i, result.Value(), square.Value());
      var on := exp.GetBit(i);
      if on {
        result := MulMod(result, square, modulus);
      }
      square := MulMod(square, square, modulus);
    }
    RunningEnd(b, e, m, result.Value(), square.Value());
  }

  /** a^(p-2) is the inverse of a modulo a prime p exactly when p does not divide a:
      their product is a^(p-1), and a multiple of p stays one. */
  lemma InverseByFermat(a: nat, p: nat)
    requires Prime(p)
    ensures (a * (Pow(a, p - 2) % p)) % p == if a % p != 0 then 1 else 0
  {
    if a % p != 0 {
      LittleTheorem(p, a);
      ModModSame(Pow(a, p - 2), p);
      CongruentMul(a, a, Pow(a, p - 2) % p, Pow(a, p - 2), p);
    } else {
      var x := Pow(a, p - 2) % p;
      ModModSame(0, p);
      CongruentMul(a, 0, x, x, p);
    }
  }

  /** For a modulus below 2 the subtraction underflows and panics. For a prime
      modulus the result is the inverse of a exactly when there is one. */
  method ModInv(a: BigUint, p: BigUint) returns (inv: BigUint)
    requires a.Valid() && p.Valid()
    requires p.Value() >= 2
    ensures fresh(inv) && inv.Valid() && inv.Value() < p.Value()
    ensures inv.Value() == Pow(a.Value(), p.Value() - 2) % p.Value()
    ensures Prime(p.Value()) ==>
              ((a.Value() * inv.Value()) % p.Value() == 1 <==> a.Value() % p.Value() != 0)
  {
    var two := new BigUint.FromU64(2);
    var exp := p.Sub(two);
    inv := ModPow(a, exp, p);
    DivModIdentity(Pow(a.Value(), exp.Value()), p.Value());
    if Prime(p.Value()) {
      InverseByFermat(a.Value(), p.Value());
    }
  }
}
