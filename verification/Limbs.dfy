/** Little-endian vectors of 64-bit limbs and the natural number they denote. */
module Limbs {
  import opened Arithmetic
  import opened Bits

  const BASE: nat := 0x1_0000_0000_0000_0000

  type Limb = x: int | 0 <= x < BASE

  /** The number a limb vector stands for; limb 0 is the least significant. */
  function Val(s: seq<Limb>): nat {
    if s == [] then 0 else s[0] + BASE * Val(s[1..])
  }

  /** The normal form: at least one limb, and no leading zero limb beyond the first. */
  predicate Normal(s: seq<Limb>) {
    |s| >= 1 && (|s| > 1 ==> s[|s| - 1] != 0)
  }

  /** The limb read past the end of a vector is zero. */
  function At(s: seq<Limb>, i: nat): Limb {
    if i < |s| then s[i] else 0
  }

  lemma BaseIsPow2()
    ensures Pow2(64) == BASE
  {
    Pow2Words();
  }

  lemma {:induction false} BasePow(n: nat)
    ensures Pow(BASE, n) == Pow2(64 * n) >= 1
  {
    if n > 0 {
      BasePow(n - 1);
      Pow2Add(64, 64 * (n - 1));
      BaseIsPow2();
    }
  }

  lemma {:induction false} ValAppend(s: seq<Limb>, t: seq<Limb>)
    ensures Val(s + t) == Val(s) + Pow(BASE, |s|) * Val(t)
  {
    if s == [] {
      assert s + t == t;
    } else {
      ValAppend(s[1..], t);
      assert (s + t)[1..] == s[1..] + t;
      MulAssoc(BASE, Pow(BASE, |s| - 1), Val(t));
    }
  }

  lemma ValSingle(x: Limb)
    ensures Val([x]) == x
  {
  }

  lemma ValSnoc(s: seq<Limb>, x: Limb)
    ensures Val(s + [x]) == Val(s) + x * Pow(BASE, |s|)
  {
    ValAppend(s, [x]);
    ValSingle(x);
    MulEqual(Pow(BASE, |s|), Val([x]), x, Pow(BASE, |s|));
  }

  lemma ValPrefixNext(s: seq<Limb>, i: nat)
    requires i < |s|
    ensures Val(s[..i + 1]) == Val(s[..i]) + s[i] * Pow(BASE, i)
  {
    assert s[..i + 1] == s[..i] + [s[i]];
    ValSnoc(s[..i], s[i]);
  }

  lemma ValSplit(s: seq<Limb>, i: nat)
    requires i <= |s|
    ensures Val(s) == Val(s[..i]) + Pow(BASE, i) * Val(s[i..])
  {
    assert s == s[..i] + s[i..];
    ValAppend(s[..i], s[i..]);
  }

  lemma {:induction false} ValBound(s: seq<Limb>)
    ensures Val(s) < Pow(BASE, |s|)
  {
    if s != [] {
      ValBound(s[1..]);
      assert BASE * (Val(s[1..]) + 1) <= BASE * Pow(BASE, |s| - 1);
    }
  }

  lemma ValLowerBound(s: seq<Limb>)
    requires |s| >= 1 && s[|s| - 1] != 0
    ensures Val(s) >= Pow(BASE, |s| - 1)
  {
    ValPrefixNext(s, |s| - 1);
    assert s[..|s|] == s;
    MulMonotone(1, s[|s| - 1], Pow(BASE, |s| - 1));
  }

  /** Overwriting one limb changes the value by the difference at its weight. */
  lemma ValUpdate(s: seq<Limb>, i: nat, x: Limb)
    requires i < |s|
    ensures Val(s[i := x]) == Val(s) + (x - s[i]) * Pow(BASE, i)
  {
    var t := s[i := x];
    ValSplit(s, i);
    ValSplit(t, i);
    assert t[..i] == s[..i] && t[i..][1..] == s[i..][1..];
    ScaledDifference(Pow(BASE, i), s[i], x, BASE * Val(s[i..][1..]));
  }

  lemma ScaledDifference(w: int, a: int, b: int, h: int)
    ensures w * (b + h) == w * (a + h) + (b - a) * w
  {
  }

  lemma {:induction false} ValZeros(s: seq<Limb>)
    requires forall i :: 0 <= i < |s| ==> s[i] == 0
    ensures Val(s) == 0
  {
    if s != [] {
      ValZeros(s[1..]);
    }
  }

  lemma {:induction false} ValZeroOnlyIfZeros(s: seq<Limb>)
    requires Val(s) == 0
    ensures forall i :: 0 <= i < |s| ==> s[i] == 0
  {
    if s != [] {
      ValZeroOnlyIfZeros(s[1..]);
    }
  }

  lemma ValTrailingZero(s: seq<Limb>)
    requires |s| >= 1 && s[|s| - 1] == 0
    ensures Val(s[..|s| - 1]) == Val(s)
  {
    ValPrefixNext(s, |s| - 1);
    assert s[..|s|] == s;
  }

  lemma {:induction false} ValInjective(s: seq<Limb>, t: seq<Limb>)
    requires |s| == |t| && Val(s) == Val(t)
    ensures s == t
  {
    if s != [] {
      DivModUnique(Val(s), BASE, Val(s[1..]), s[0]);
      DivModUnique(Val(t), BASE, Val(t[1..]), t[0]);
      ValInjective(s[1..], t[1..]);
      assert s == [s[0]] + s[1..] && t == [t[0]] + t[1..];
    }
  }

  lemma NormalLengths(s: seq<Limb>, t: seq<Limb>)
    requires Normal(s) && Normal(t) && |s| < |t|
    ensures Val(s) < Val(t)
  {
    ValBound(s);
    ValLowerBound(t);
    BasePow(|s|);
    BasePow(|t| - 1);
    Pow2Monotone(64 * |s|, 64 * (|t| - 1));
  }

  /** Every number has one normal form. */
  lemma NormalFormUnique(s: seq<Limb>, t: seq<Limb>)
    requires Normal(s) && Normal(t) && Val(s) == Val(t)
    ensures s == t
  {
    if |s| < |t| {
      NormalLengths(s, t);
    } else if |t| < |s| {
      NormalLengths(t, s);
    } else {
      ValInjective(s, t);
    }
  }

  lemma PrefixDecides(s: seq<Limb>, t: seq<Limb>, i: nat)
    requires i < |s| == |t| && s[i] < t[i]
    ensures Val(s[..i + 1]) < Val(t[..i + 1])
  {
    ValPrefixNext(s, i);
    ValPrefixNext(t, i);
    ValBound(s[..i]);
    LeadingDigitDecides(Val(s[..i]), Val(t[..i]), s[i], t[i], Pow(BASE, i));
  }

  lemma LeadingDigitDecides(v: nat, v': nat, a: nat, b: nat, w: nat)
    requires v < w && a < b
    ensures v + a * w < v' + b * w
  {
    MulMonotone(a + 1, b, w);
  }

  /** The value decides at the most significant limb where two vectors differ. */
  lemma ValDecidedAt(s: seq<Limb>, t: seq<Limb>, i: nat)
    requires i < |s| == |t|
    requires s[i + 1..] == t[i + 1..] && s[i] < t[i]
    ensures Val(s) < Val(t)
  {
    hide Val, Pow;
    ValSplit(s, i + 1);
    ValSplit(t, i + 1);
    PrefixDecides(s, t, i);
  }

  lemma DivRecovers(v: nat, w: nat, h: nat)
    requires v < w
    ensures (v + w * h) / w == h && (v + w * h) % w == v
  {
    DivModUnique(v + w * h, w, h, v);
  }

  /** Dropping k limbs is dividing by BASE^k. */
  lemma DropIsDivWeight(s: seq<Limb>, k: nat, w: nat)
    requires k <= |s| && w == Pow(BASE, k)
    ensures w > 0 && Val(s) / w == Val(s[k..])
  {
    ValSplit(s, k);
    ValBound(s[..k]);
    DivRecovers(Val(s[..k]), w, Val(s[k..]));
  }

  lemma DropIsDiv(s: seq<Limb>, k: nat)
    requires k <= |s|
    ensures Val(s) / Pow2(64 * k) == Val(s[k..])
  {
    BasePow(k);
    DropIsDivWeight(s, k, Pow2(64 * k));
  }

  /** Bit i of the number is bit i % 64 of limb i / 64. */
  lemma BitOfLimb(s: seq<Limb>, i: nat)
    ensures Bit(Val(s), i) == Bit(At(s, i / 64), i % 64)
  {
    var k, b := i / 64, i % 64;
    if k >= |s| {
      ValBound(s);
      BasePow(|s|);
      Pow2Monotone(64 * |s|, i);
      DivModUnique(Val(s), Pow2(i), 0, Val(s));
      DivModUnique(0, Pow2(b), 0, 0);
    } else {
      DropIsDiv(s, k);
      Pow2Add(64 * k, b);
      DivDiv(Val(s), Pow2(64 * k), Pow2(b));
      LowBitIgnoresHigh(s[k], Val(s[k..][1..]), b);
    }
  }

  lemma LowBitIgnoresHigh(x: Limb, h: nat, b: nat)
    requires b < 64
    ensures Bit(x + BASE * h, b) == Bit(x, b)
  {
    BaseIsPow2();
    Pow2Add(b, 64 - b);
    EvenQuotient(x, h, Pow2(b), Pow2(63 - b));
  }

  lemma EvenQuotient(x: nat, h: nat, p: nat, r: nat)
    requires p > 0
    ensures ((x + p * (2 * r) * h) / p) % 2 == (x / p) % 2
  {
    var u := r * h;
    MulAssoc(p, 2 * r, h);
    MulAssoc(2, r, h);
    MulEqual(p, 2 * u, 2 * u, p);
    DivModIdentity(x, p);
    MulDistributes(x / p, 2 * u, p);
    DivModUnique(x + p * (2 * r) * h, p, x / p + 2 * u, x % p);
  }
}
