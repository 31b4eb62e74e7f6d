/** Shifts by whole limbs and by bits within a limb. */
module Shifts {
  import opened Arithmetic
  import opened Bits
  import opened Limbs
  import opened LimbSteps
  import opened BigUints

  lemma ShiftWeight(shift: nat)
    ensures Pow2(shift) == Pow2(shift % 64) * Pow(BASE, shift / 64)
  {
    BasePow(shift / 64);
    Pow2Add(shift % 64, 64 * (shift / 64));
  }

  method Shl(a: BigUint, shift: nat) returns (r: BigUint)
    requires a.Valid()
    ensures fresh(r) && r.Valid()
    ensures r.Value() == a.Value() * Pow2(shift)
  {
    var zero := a.IsZero();
    if zero || shift == 0 {
      r := new BigUint.FromLimbs(a.limbs);
      return;
    }
    var ws, bs := shift / 64, shift % 64;
    var result := new Limb[|a.limbs| + ws + 1](_ => 0);
    ValZeros(result[..]);
    if bs == 0 {
      ShlWords(a.limbs, result, ws);
    } else {
      ShlBits(a.limbs, result, ws, bs);
    }
    ShlTotal(a.limbs, shift);
    r := new BigUint.FromLimbs(result[..]);
    r.Normalize();
  }

  method ShlWords(s: seq<Limb>, result: array<Limb>, ws: nat)
    requires result.Length == |s| + ws + 1 && Val(result[..]) == 0
    modifies result
    ensures Val(result[..]) == Row(1, s, ws)
  {
    ValZeroOnlyIfZeros(result[..]);
    for i := 0 to |s|
      invariant forall k :: ws + i <= k < result.Length ==> result[k] == 0
      invariant Val(result[..]) == Row(1, s[..i], ws)
    {
      RowStep(s, i, 1, ws, 0);
      assert result[ws + i] == 0;
      WriteCell(result, ws + i, s[i], 0, s[i]);
    }
    assert s[..|s|] == s;
  }

  /** `shifted as u64 | carry` and the bits pushed out of the top. */
  method ShlParts(x: Limb, carry: Limb, bs: nat) returns (y: Limb, carry': Limb)
    requires 0 < bs < 64 && carry < Pow2(bs)
    ensures carry' < Pow2(bs)
    ensures y + carry' * BASE == Pow2(bs) * x + carry
  {
    var p := Pow2(bs);
    var shifted := x * p;
    ShlLimb(x, shifted, carry, bs, p, Pow2(64 - bs));
    y, carry' := Or(shifted % BASE, carry), shifted / BASE;
  }

  method ShlCell(result: array<Limb>, k: nat, x: Limb, carry: Limb, bs: nat) returns (carry': Limb)
    requires 0 < bs < 64 && carry < Pow2(bs)
    requires k < result.Length && result[k] == 0
    modifies result
    ensures carry' < Pow2(bs)
    ensures forall j :: k < j < result.Length ==> result[j] == old(result[j])
    ensures Val(result[..]) + carry' * Pow(BASE, k + 1)
         == old(Val(result[..])) + (Pow2(bs) * x + carry) * Pow(BASE, k)
  {
    var y;
    y, carry' := ShlParts(x, carry, bs);
    WriteCell(result, k, y, carry', Pow2(bs) * x + carry);
    assert forall j :: k < j < result.Length ==> result[j] == result[..][j] == old(result[..])[j];
  }

  method ShlBits(s: seq<Limb>, result: array<Limb>, ws: nat, bs: nat)
    requires 0 < bs < 64
    requires result.Length == |s| + ws + 1 && Val(result[..]) == 0
    modifies result
    ensures Pow2(bs) < BASE && Val(result[..]) == Row(Pow2(bs), s, ws)
  {
    ValZeroOnlyIfZeros(result[..]);
    var p := Pow2(bs);
    ShiftFits(bs);
    var carry: Limb := 0;
    for i := 0 to |s|
      invariant carry < p
      invariant forall k :: ws + i <= k < result.Length ==> result[k] == 0
      invariant Val(result[..]) + carry * Pow(BASE, ws + i) == Row(p, s[..i], ws)
    {
      RowStep(s, i, p, ws, carry);
      carry := ShlCell(result, ws + i, s[i], carry, bs);
    }
    assert s[..|s|] == s;
    if carry > 0 {
      WriteCell(result, ws + |s|, carry, 0, carry);
    }
  }

  lemma ShiftFits(b: nat)
    requires b < 64
    ensures Pow2(b) < BASE
  {
    BaseIsPow2();
    Pow2Monotone(b + 1, 64);
  }

  /** Both ways of filling the result leave the value times 2^shift. */
  lemma ShlTotal(s: seq<Limb>, shift: nat)
    ensures Pow2(shift % 64) < BASE
    ensures Row(Pow2(shift % 64), s, shift / 64) == Val(s) * Pow2(shift)
    ensures shift % 64 == 0 ==> Pow2(shift % 64) == 1
  {
    ShiftFits(shift % 64);
    ShiftWeight(shift);
    ScaledProduct(Pow2(shift % 64), Val(s), Pow(BASE, shift / 64));
  }

  lemma ScaledProduct(p: int, v: int, w: int)
    ensures (p * v) * w == v * (p * w)
  {
  }

  // ----- right -----

  /** The low `from` limbs dropped, then every limb joined with the low bits of the next. */
  method Shr(a: BigUint, shift: nat) returns (r: BigUint)
    requires a.Valid()
    ensures fresh(r) && r.Valid()
    ensures r.Value() == a.Value() / Pow2(shift)
  {
    var zero := a.IsZero();
    if zero || shift == 0 {
      if zero {
        DivModUnique(0, Pow2(shift), 0, 0);
      }
      r := new BigUint.FromLimbs(a.limbs);
      return;
    }
    var ws, bs := shift / 64, shift % 64;
    ShrTotal(a.limbs, ws, bs);
    assert shift == 64 * ws + bs;
    if ws >= |a.limbs| {
      r := new BigUint.FromU64(0);
      return;
    }
    var result: array<Limb>;
    if bs == 0 {
      result := ShrWords(a.limbs, ws);
      DivModUnique(Val(result[..]), 1, Val(result[..]), 0);
    } else {
      result := ShrBits(a.limbs, ws, bs);
    }
    r := new BigUint.FromLimbs(result[..]);
    r.Normalize();
  }

  method ShrWords(s: seq<Limb>, ws: nat) returns (result: array<Limb>)
    requires ws < |s|
    ensures fresh(result) && result[..] == s[ws..]
  {
    var newLen := |s| - ws;
    result := new Limb[newLen](_ => 0);
    for i := 0 to newLen
      invariant result[..i] == s[ws..ws + i]
    {
      result[i] := s[i + ws];
      assert result[..i + 1] == result[..i] + [s[ws + i]];
    }
  }

  /** `x >> bs | next << (64 - bs)`. */
  method ShrParts(x: Limb, next: Limb, bs: nat) returns (limb: Limb)
    requires 0 < bs < 64
    ensures limb == x / Pow2(bs) + (next % Pow2(bs)) * Pow2(64 - bs)
  {
    hide Pow2, Or;
    var q := Pow2(64 - bs);
    var high, shifted := x / Pow2(bs), next * q;
    ShrLimb(x, next, high, shifted, bs, Pow2(bs), q);
    limb := Or(high, shifted % BASE);
  }

  lemma NothingShiftedIn(x: Limb, p: nat, q: nat)
    requires p > 0
    ensures 0 <= x / p < BASE && x / p + (0 % p) * q == x / p
  {
    DivModUnique(0, p, 0, 0);
    assert 0 * q == 0;
  }

  /** Limb k of a right shift by bs bits. */
  ghost function ShrDigit(t: seq<Limb>, k: nat, bs: nat): int
    requires bs < 64
  {
    At(t, k) / Pow2(bs) + (At(t, k + 1) % Pow2(bs)) * Pow2(64 - bs)
  }

  method ShrCell(s: seq<Limb>, k: nat, bs: nat) returns (limb: Limb)
    requires k < |s| && 0 < bs < 64
    ensures limb == ShrDigit(s, k, bs)
  {
    if k + 1 < |s| {
      limb := ShrParts(s[k], s[k + 1], bs);
    } else {
      NothingShiftedIn(s[k], Pow2(bs), Pow2(64 - bs));
      limb := s[k] / Pow2(bs);
    }
  }

  method ShrBits(s: seq<Limb>, ws: nat, bs: nat) returns (result: array<Limb>)
    requires ws < |s| && 0 < bs < 64
    ensures fresh(result) && result.Length == |s| - ws
    ensures Val(result[..]) == Val(s[ws..]) / Pow2(bs)
  {
    var newLen := |s| - ws;
    result := new Limb[newLen](_ => 0);
    for i := 0 to newLen
      invariant forall k :: 0 <= k < i ==> result[k] == ShrDigit(s, k + ws, bs)
    {
      result[i] := ShrCell(s, i + ws, bs);
    }
    ShrValue(s[ws..], result[..], bs);
  }

  /** One limb of the right shift extends a telescoping sum. */
  lemma ShrColumn(t: seq<Limb>, r: seq<Limb>, i: nat, bs: nat, p: nat)
    requires i < |t| == |r| && 0 < bs < 64 && p == Pow2(bs)
    requires r[i] == ShrDigit(t, i, bs)
    requires p * Val(r[..i]) + t[0] % p == Val(t[..i]) + Pow(BASE, i) * (t[i] % p)
    ensures p * Val(r[..i + 1]) + t[0] % p == Val(t[..i + 1]) + Pow(BASE, i + 1) * (At(t, i + 1) % p)
  {
    ValPrefixNext(r, i);
    ValPrefixNext(t, i);
    ShiftFactors(bs);
    ShrStep(p, Pow2(64 - bs), Val(r[..i]), Val(t[..i]), Pow(BASE, i), t[i], At(t, i + 1), t[0] % p);
  }

  lemma {:induction false} ShrPrefix(t: seq<Limb>, r: seq<Limb>, i: nat, bs: nat, p: nat)
    requires 1 <= i <= |t| == |r| && 0 < bs < 64 && p == Pow2(bs)
    requires forall k :: 0 <= k < |t| ==> r[k] == ShrDigit(t, k, bs)
    ensures p * Val(r[..i]) + t[0] % p == Val(t[..i]) + Pow(BASE, i) * (At(t, i) % p)
  {
    if i == 1 {
      assert p * Val(r[..0]) == 0 && Pow(BASE, 0) * (t[0] % p) == t[0] % p;
    } else {
      ShrPrefix(t, r, i - 1, bs, p);
    }
    ShrColumn(t, r, i - 1, bs, p);
  }

  lemma ShrValue(t: seq<Limb>, r: seq<Limb>, bs: nat)
    requires 1 <= |t| == |r| && 0 < bs < 64
    requires forall k :: 0 <= k < |t| ==> r[k] == ShrDigit(t, k, bs)
    ensures Val(r) == Val(t) / Pow2(bs)
  {
    var p := Pow2(bs);
    ShrPrefix(t, r, |t|, bs, p);
    assert t[..|t|] == t && r[..|r|] == r;
    DivModUnique(0, p, 0, 0);
    QuotientFromSum(Val(t), p, Val(r), t[0] % p, Pow(BASE, |t|));
  }

  lemma QuotientFromSum(v: nat, p: nat, q: nat, low: nat, w: nat)
    requires low < p && p * q + low == v + w * 0
    ensures v / p == q
  {
    DivModUnique(v, p, q, low);
  }

  lemma DivPow2Twice(v: nat, a: nat, b: nat)
    ensures (v / Pow2(a)) / Pow2(b) == v / Pow2(a + b)
  {
    Pow2Add(a, b);
    DivDiv(v, Pow2(a), Pow2(b));
  }

  lemma ShrTotal(s: seq<Limb>, ws: nat, bs: nat)
    ensures ws < |s| ==> Val(s[ws..]) / Pow2(bs) == Val(s) / Pow2(64 * ws + bs)
    ensures ws >= |s| ==> Val(s) / Pow2(64 * ws + bs) == 0
  {
    if ws >= |s| {
      AboveAllLimbs(s, 64 * ws + bs);
    } else {
      DropIsDiv(s, ws);
      DivPow2Twice(Val(s), 64 * ws, bs);
    }
  }

  lemma AboveAllLimbs(s: seq<Limb>, shift: nat)
    requires shift >= 64 * |s|
    ensures Val(s) / Pow2(shift) == 0
  {
    ValBound(s);
    BasePow(|s|);
    Pow2Monotone(64 * |s|, shift);
    DivModUnique(Val(s), Pow2(shift), 0, Val(s));
  }
}
