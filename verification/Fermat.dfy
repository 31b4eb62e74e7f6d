/** Fermat's little theorem, which `mod_inv` rests on: Euclid's lemma by the
    remainder recursion, the binomial theorem, and induction on the base. */
module Fermat {
  import opened Arithmetic

  ghost predicate Divides(d: nat, x: int) {
    exists k: int :: x == k * d
  }

  ghost predicate Prime(p: nat) {
    p >= 2 && forall d: nat :: 2 <= d < p ==> !Divides(d, p)
  }

  lemma DividesIsZeroRemainder(d: nat, x: int)
    requires d > 0
    ensures Divides(d, x) <==> x % d == 0
  {
    if Divides(d, x) {
      var k: int :| x == k * d;
      DivModUnique(x, d, k, 0);
    }
    if x % d == 0 {
      assert x == (x / d) * d;
    }
  }

  lemma DividesCombination(d: nat, x: int, y: int, c: int)
    requires Divides(d, x) && Divides(d, y)
    ensures Divides(d, x - c * y)
  {
    var i: int :| x == i * d;
    var j: int :| y == j * d;
    assert x - c * y == (i - c * j) * d;
  }

  // ----- Euclid's lemma -----

  /** Replacing `a` by `p % a` keeps `p | a * b` and shrinks `a` until it is 1. */
  lemma {:induction false} EuclidBelow(p: nat, a: nat, b: int)
    requires Prime(p) && 1 <= a < p
    requires Divides(p, a * b)
    ensures Divides(p, b)
    decreases a
  {
    if a > 1 {
      var q, r := p / a, p % a;
      assert r != 0 by {
        if r == 0 {
          DividesIsZeroRemainder(a, p);
          assert false;
        }
      }
      assert Divides(p, b * p);
      DividesCombination(p, b * p, a * b, q);
      assert b * p - q * (a * b) == r * b by {
        assert p == q * a + r;
        assert b * (q * a + r) == q * (a * b) + r * b;
      }
      EuclidBelow(p, r, b);
    }
  }

  lemma Euclid(p: nat, a: nat, b: int)
    requires Prime(p)
    requires Divides(p, a * b)
    ensures Divides(p, a) || Divides(p, b)
  {
    if a % p != 0 {
      assert Divides(p, b * p);
      DividesCombination(p, a * b, b * p, a / p);
      assert a * b - (a / p) * (b * p) == (a % p) * b by {
        assert a == (a / p) * p + a % p;
        assert ((a / p) * p + a % p) * b == (a / p) * (b * p) + (a % p) * b;
      }
      EuclidBelow(p, a % p, b);
    } else {
      DividesIsZeroRemainder(p, a);
    }
  }

  // ----- binomial coefficients -----

  function Choose(n: nat, k: nat): nat {
    if k == 0 then 1
    else if n == 0 then 0
    else Choose(n - 1, k) + Choose(n - 1, k - 1)
  }

  lemma {:induction false} ChooseAbove(n: nat, k: nat)
    requires k > n
    ensures Choose(n, k) == 0
  {
    if n > 0 {
      ChooseAbove(n - 1, k);
      ChooseAbove(n - 1, k - 1);
    }
  }

  lemma {:induction false} ChooseSelf(n: nat)
    ensures Choose(n, n) == 1
  {
    if n > 0 {
      ChooseSelf(n - 1);
      ChooseAbove(n - 1, n);
    }
  }

  lemma AbsorptionStep(n: int, k: int, a: int, c: int, d: int, e: int)
    requires k * a == (n - 1) * d
    requires (k - 1) * c == (n - 1) * e
    requires c == d + e
    ensures k * (a + c) == n * c
  {
    calc {
      k * (a + c);
      k * a + (k - 1) * c + c;
      (n - 1) * d + (n - 1) * e + c;
      (n - 1) * (d + e) + c;
      n * c;
    }
  }

  /** k * C(n, k) == n * C(n - 1, k - 1). */
  lemma {:induction false} Absorption(n: nat, k: nat)
    requires n >= 1 && k >= 1
    ensures k * Choose(n, k) == n * Choose(n - 1, k - 1)
  {
    if n == 1 {
      if k > 1 {
        ChooseAbove(1, k);
        ChooseAbove(0, k - 1);
      }
    } else if k == 1 {
      Absorption(n - 1, 1);
    } else {
      Absorption(n - 1, k);
      Absorption(n - 1, k - 1);
      AbsorptionStep(n, k, Choose(n - 1, k), Choose(n - 1, k - 1), Choose(n - 2, k - 1), Choose(n - 2, k - 2));
    }
  }

  function Term(n: nat, x: nat, m: nat): nat {
    Choose(n, m) * Pow(x, m)
  }

  /** The first m + 1 terms of the expansion of (x + 1)^n. */
  function Terms(n: nat, x: nat, m: nat): nat
    decreases m
  {
    Term(n, x, m) + if m == 0 then 0 else Terms(n, x, m - 1)
  }

  lemma PascalStep(a: int, b: int, x: int, w: int)
    ensures (a + b) * (x * w) == a * (x * w) + x * (b * w)
  {
    calc {
      (a + b) * (x * w);
      a * (x * w) + b * (x * w);
      { assert b * (x * w) == x * (b * w); }
      a * (x * w) + x * (b * w);
    }
  }

  lemma TermPascal(n: nat, x: nat, m: nat)
    requires m >= 1
    ensures Term(n + 1, x, m) == Term(n, x, m) + x * Term(n, x, m - 1)
  {
    PascalStep(Choose(n, m), Choose(n, m - 1), x, Pow(x, m - 1));
  }

  lemma TermZero(n: nat, x: nat)
    ensures Terms(n, x, 0) == Term(n, x, 0) == 1
  {
  }

  lemma {:induction false} TermsPascal(n: nat, x: nat, m: nat)
    requires m >= 1
    ensures Terms(n + 1, x, m) == Terms(n, x, m) + x * Terms(n, x, m - 1)
    decreases m
  {
    TermPascal(n, x, m);
    if m == 1 {
      TermZero(n, x);
      TermZero(n + 1, x);
    } else {
      TermsPascal(n, x, m - 1);
      SplitTail(x, Terms(n, x, m - 1), Term(n, x, m - 1), Terms(n, x, m - 2));
    }
  }

  lemma SplitTail(x: int, t: int, head: int, tail: int)
    requires t == head + tail
    ensures x * t == x * head + x * tail
  {
  }

  lemma {:induction false} Binomial(n: nat, x: nat)
    ensures Terms(n, x, n) == Pow(x + 1, n)
  {
    if n > 0 {
      Binomial(n - 1, x);
      TermsPascal(n - 1, x, n);
      ChooseAbove(n - 1, n);
      var t := Terms(n - 1, x, n - 1);
      assert Terms(n - 1, x, n) == 0 * Pow(x, n) + t;
      assert t + x * t == (x + 1) * t;
    }
  }

  // ----- modulo a prime -----

  lemma MiddleChooseDivisible(p: nat, k: nat)
    requires Prime(p) && 1 <= k < p
    ensures Divides(p, Choose(p, k))
  {
    Absorption(p, k);
    assert k * Choose(p, k) == Choose(p - 1, k - 1) * p;
    EuclidBelow(p, k, Choose(p, k));
  }

  lemma {:induction false} TermsModPrime(p: nat, x: nat, m: nat)
    requires Prime(p) && m < p
    ensures Congruent(Terms(p, x, m), 1, p)
    decreases m
  {
    hide Choose, Pow, Prime, Congruent;
    PrimePositive(p);
    if m == 0 {
      TermZero(p, x);
      CongruentIfMultiple(1, 1, p, 0);
    } else {
      TermsModPrime(p, x, m - 1);
      MiddleChooseDivisible(p, m);
      MultipleVanishes(p, Choose(p, m), Pow(x, m));
      CongruentAdd(Term(p, x, m), 0, Terms(p, x, m - 1), 1, p);
    }
  }

  lemma PrimePositive(p: nat)
    requires Prime(p)
    ensures p > 0
  {
  }

  lemma MultipleVanishes(p: nat, c: nat, w: nat)
    requires p > 0 && Divides(p, c)
    ensures Congruent(c * w, 0, p)
  {
    hide Congruent;
    var k: int :| c == k * p;
    MulAssoc(k, p, w);
    MulAssoc(k, w, p);
    MulEqual(p, w, w, p);
    CongruentIfMultiple(c * w, 0, p, k * w);
  }

  lemma {:induction false} FermatPower(p: nat, a: nat)
    requires Prime(p)
    ensures Congruent(Pow(a, p), a, p)
  {
    if a > 0 {
      FermatPower(p, a - 1);
      Binomial(p, a - 1);
      ChooseSelf(p);
      TermsModPrime(p, a - 1, p - 1);
      assert Pow(a, p) == Pow(a - 1, p) + Terms(p, a - 1, p - 1);
      CongruentAdd(Pow(a - 1, p), a - 1, Terms(p, a - 1, p - 1), 1, p);
    }
  }

  /** a^(p-1) is 1 modulo p when the prime p does not divide a. */
  lemma LittleTheorem(p: nat, a: nat)
    requires Prime(p) && a % p != 0
    ensures Pow(a, p - 1) % p == 1
  {
    FermatPower(p, a);
    var w: int := Pow(a, p - 1);
    var k := CongruentMultiple(Pow(a, p), a, p);
    assert a * (w - 1) == k * p;
    DividesIsZeroRemainder(p, a);
    Euclid(p, a, w - 1);
    var j: int :| w - 1 == j * p;
    DivModUnique(w, p, j, 1);
  }
}
