/** One-limb steps of the multi-limb algorithms, each an equation between
    integers: what a single pass of a loop adds to the running total. */
module LimbSteps {
  import opened Arithmetic
  import opened Bits
  import opened Limbs

  /** The low i limbs; a vector shorter than that is taken whole. */
  function Take(s: seq<Limb>, i: nat): seq<Limb> {
    if i < |s| then s[..i] else s
  }

  lemma TakeNext(s: seq<Limb>, i: nat)
    ensures Val(Take(s, i + 1)) == Val(Take(s, i)) + At(s, i) * Pow(BASE, i)
  {
    if i < |s| {
      ValPrefixNext(s, i);
      assert i + 1 == |s| ==> s[..i + 1] == s;
    }
  }

  /** One column of a sum: the digit and carry produced account for the two limbs
      and the carry consumed. */
  lemma SumStep(s: int, t: int, sum: int, a: int, b: int, digit: int, carry: int, carry': int, w: int)
    requires sum + carry * w == s + t
    requires digit + carry' * BASE == a + b + carry
    ensures sum + digit * w + carry' * (BASE * w) == s + a * w + (t + b * w)
  {
    calc {
      sum + digit * w + carry' * (BASE * w);
      sum + (digit + carry' * BASE) * w;
      sum + (a + b + carry) * w;
      sum + carry * w + a * w + b * w;
    }
  }

  /** Overwrites one cell: the digit written and the carry taken out account for
      what was added. */
  method WriteCell(result: array<Limb>, k: nat, y: Limb, ghost carry: nat, ghost z: nat)
    requires k < result.Length && y + carry * BASE == result[k] + z
    modifies result
    ensures result[..] == old(result[..])[k := y]
    ensures Val(result[..]) + carry * Pow(BASE, k + 1) == old(Val(result[..])) + z * Pow(BASE, k)
  {
    ghost var s := result[..];
    CellArithmetic(y, s[k], carry, z, Pow(BASE, k));
    ValUpdate(s, k, y);
    result[k] := y;
    assert result[..] == s[k := y];
  }

  lemma CellArithmetic(y: int, x: int, carry: int, z: int, w: int)
    requires y + carry * BASE == x + z
    ensures (y - x) * w + carry * (BASE * w) == z * w
  {
    assert (y - x) * w + (carry * BASE) * w == (y - x + carry * BASE) * w;
  }

  /** What a row contributes: x * b, i limbs up. */
  ghost function Row(x: Limb, b: seq<Limb>, i: nat): nat {
    (x * Val(b)) * Pow(BASE, i)
  }

  /** The next cell of row i: its product joins the partial row, its carry moves on. */
  lemma RowStep(b: seq<Limb>, j: nat, x: Limb, i: nat, carry: nat)
    requires j < |b|
    ensures (x * b[j] + carry) * Pow(BASE, i + j) + Row(x, b[..j], i)
         == carry * Pow(BASE, i + j) + Row(x, b[..j + 1], i)
  {
    ValPrefixNext(b, j);
    PowAdd(BASE, i, j);
    RowArithmetic(x, b[j], carry, Val(b[..j]), Pow(BASE, i), Pow(BASE, j));
  }

  lemma RowArithmetic(x: int, d: int, c: int, v: int, u: int, w: int)
    ensures (x * d + c) * (u * w) + (x * v) * u == c * (u * w) + (x * (v + d * w)) * u
  {
    calc {
      (x * d + c) * (u * w) + (x * v) * u;
      (x * d) * (u * w) + c * (u * w) + (x * v) * u;
      { assert (x * d) * (u * w) == (x * (d * w)) * u; }
      c * (u * w) + (x * (d * w)) * u + (x * v) * u;
      { assert (x * (d * w)) * u + (x * v) * u == (x * (d * w) + x * v) * u;
        assert x * (d * w) + x * v == x * (v + d * w); }
      c * (u * w) + (x * (v + d * w)) * u;
    }
  }

  lemma ProductFits(a: Limb, b: Limb, r: Limb, c: Limb)
    ensures a * b + r + c < BASE * BASE
  {
    MulMonotone(a, BASE - 1, b);
    MulMonotone(b, BASE - 1, BASE - 1);
  }

  /** For BASE == p * q, shifting a limb left by log2(p) splits it into a high part
      below p and a low part that is a multiple of p. */
  lemma ShiftSplit(x: Limb, p: nat, q: nat)
    requires p > 0 && q > 0 && p * q == BASE
    ensures (x * p) / BASE == x / q < p
    ensures (x * p) % BASE == (x % q) * p
  {
    var h, l := x / q, x % q;
    assert h < p by {
      DivLess(x, q, p);
    }
    assert l * p < BASE by {
      MulStrict(l, q, p);
    }
    calc {
      x * p;
      (h * q + l) * p;
      h * (q * p) + l * p;
    }
    DivModUnique(x * p, BASE, h, l * p);
  }

  lemma ShiftFactors(b: nat)
    requires b < 64
    ensures Pow2(b) * Pow2(64 - b) == BASE
  {
    BaseIsPow2();
    Pow2Add(b, 64 - b);
  }

  lemma DigitsBound(h: nat, q: nat, c: nat, p: nat)
    requires h < q && c < p
    ensures h * p + c < q * p
  {
    MulMonotone(h + 1, q, p);
  }

  /** `shifted as u64 | carry`: the low part of the shifted limb has its b low bits free. */
  lemma ShlLimb(x: Limb, v: nat, carry: Limb, b: nat, p: nat, q: nat)
    requires 0 < b < 64 && p == Pow2(b) && q == Pow2(64 - b)
    requires carry < p && v == x * p
    ensures v / BASE < p < BASE
    ensures Or(v % BASE, carry) == v % BASE + carry < BASE
  {
    ShiftFactors(b);
    ShiftSplit(x, p, q);
    OrDisjoint(x % q, carry, b);
    DigitsBound(x % q, q, carry, p);
    BaseIsPow2();
    Pow2Monotone(b + 1, 64);
  }

  /** `(x >> b) | (next << (64 - b))`: the low bits of the next limb fill the top. */
  lemma ShrLimb(x: Limb, next: Limb, h: nat, v: nat, b: nat, p: nat, q: nat)
    requires 0 < b < 64 && p == Pow2(b) && q == Pow2(64 - b)
    requires h == x / p && v == next * q
    ensures Or(h, v % BASE) == h + (next % p) * q < BASE
  {
    ShiftFactors(b);
    assert q * p == BASE;
    DivLess(x, p, q);
    ShiftSplit(next, q, p);
    OrDisjoint(next % p, x / p, 64 - b);
    OrCommutes(x / p, (next % p) * q);
    DigitsBound(next % p, p, x / p, q);
  }

  /** One step of the telescoping sum behind the right shift. */
  lemma ShrStep(p: nat, q: nat, r: nat, t: nat, w: nat, x: nat, y: nat, low: nat)
    requires p > 0 && p * q == BASE
    requires p * r + low == t + w * (x % p)
    ensures p * (r + (x / p + (y % p) * q) * w) + low == t + x * w + (BASE * w) * (y % p)
  {
    var z := y % p;
    calc {
      p * (r + (x / p + z * q) * w) + low;
      p * r + low + (p * (x / p)) * w + (p * q) * (z * w);
      t + w * (x % p) + (p * (x / p)) * w + BASE * (z * w);
      { assert p * (x / p) + x % p == x;
        assert w * (x % p) + (p * (x / p)) * w == x * w; }
      t + x * w + BASE * (z * w);
      { assert BASE * (z * w) == (BASE * w) * z; }
      t + x * w + (BASE * w) * z;
    }
  }
}
