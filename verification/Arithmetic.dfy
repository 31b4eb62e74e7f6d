/** Integer facts every other module leans on: division with an explicit
    quotient and remainder, congruence, and powers. */
module Arithmetic {

  // ----- products -----

  lemma MulAssoc(a: int, b: int, c: int)
    ensures a * (b * c) == (a * b) * c
  {
  }

  lemma NonNegative(a: nat, b: nat)
    ensures a * b >= 0
  {
  }

  lemma MulDistributes(a: int, b: int, c: int)
    ensures (a + b) * c == a * c + b * c
    ensures (a - b) * c == a * c - b * c
  {
  }

  lemma MulEqual(a: int, b: int, c: int, d: int)
    requires a == d && b == c
    ensures a * b == c * d
  {
  }

  // ----- division -----

  lemma SmallMultipleIsZero(k: int, d: int)
    requires -d < k * d < d
    ensures k == 0
  {
  }

  lemma DivModUnique(x: int, d: int, q: int, r: int)
    requires 0 <= r < d
    requires x == q * d + r
    ensures x / d == q && x % d == r
  {
    assert x == (x / d) * d + x % d;
    assert (q - x / d) * d == x % d - r;
    SmallMultipleIsZero(q - x / d, d);
  }

  lemma DivModIdentity(x: nat, d: nat)
    requires d > 0
    ensures x / d >= 0 && 0 <= x % d < d && (x / d) * d + x % d == x
  {
  }

  lemma MulMonotone(a: nat, b: nat, c: nat)
    requires a <= b
    ensures a * c <= b * c
  {
  }

  lemma MulStrict(a: nat, b: nat, c: nat)
    requires a < b && c > 0
    ensures a * c < b * c
  {
    MulMonotone(a + 1, b, c);
  }

  lemma DivLess(x: nat, d: nat, q: nat)
    requires d > 0
    requires x < q * d
    ensures x / d < q
  {
    if x / d >= q {
      MulMonotone(q, x / d, d);
    }
  }

  lemma DivAtLeast(x: nat, d: nat, q: nat)
    requires d > 0
    requires x >= q * d
    ensures x / d >= q
  {
    if x / d < q {
      MulMonotone(x / d + 1, q, d);
    }
  }

  lemma DivDiv(x: nat, a: nat, b: nat)
    requires a > 0 && b > 0
    ensures a * b > 0 && (x / a) / b == x / (a * b)
  {
    var q := x / a;
    var q2 := q / b;
    assert x == q * a + x % a;
    assert q == q2 * b + q % b;
    var r := (q % b) * a + x % a;
    assert r < a * b by {
      MulMonotone(q % b + 1, b, a);
    }
    assert x == q2 * (a * b) + r by {
      assert (q2 * b + q % b) * a == q2 * (a * b) + (q % b) * a;
    }
    DivModUnique(x, a * b, q2, r);
  }

  // ----- congruence -----

  predicate Congruent(x: int, y: int, m: nat)
    requires m > 0
  {
    x % m == y % m
  }

  /** A difference that is a multiple of the modulus is a congruence. */
  lemma CongruentIfMultiple(x: int, y: int, m: nat, k: int)
    requires m > 0
    requires x == y + k * m
    ensures Congruent(x, y, m)
  {
    var q, r := y / m, y % m;
    assert x == (q + k) * m + r;
    DivModUnique(x, m, q + k, r);
  }

  lemma CongruentMultiple(x: int, y: int, m: nat) returns (k: int)
    requires m > 0
    requires Congruent(x, y, m)
    ensures x == y + k * m
  {
    k := x / m - y / m;
    assert x == (x / m) * m + x % m;
    assert y == (y / m) * m + y % m;
  }

  lemma CongruentMul(x: int, x': int, y: int, y': int, m: nat)
    requires m > 0
    requires Congruent(x, x', m) && Congruent(y, y', m)
    ensures Congruent(x * y, x' * y', m)
  {
    var i := CongruentMultiple(x, x', m);
    var j := CongruentMultiple(y, y', m);
    calc {
      x * y;
      (x' + i * m) * y;
      x' * y + (i * y) * m;
      x' * (y' + j * m) + (i * y) * m;
      x' * y' + (x' * j) * m + (i * y) * m;
      x' * y' + (x' * j + i * y) * m;
    }
    CongruentIfMultiple(x * y, x' * y', m, x' * j + i * y);
  }

  lemma CongruentAdd(x: int, x': int, y: int, y': int, m: nat)
    requires m > 0
    requires Congruent(x, x', m) && Congruent(y, y', m)
    ensures Congruent(x + y, x' + y', m)
  {
    var i := CongruentMultiple(x, x', m);
    var j := CongruentMultiple(y, y', m);
    CongruentIfMultiple(x + y, x' + y', m, i + j);
  }

  lemma ModModSame(x: int, m: nat)
    requires m > 0
    ensures Congruent(x % m, x, m)
  {
    DivModUnique(x % m, m, 0, x % m);
  }

  // ----- powers -----

  function Pow(b: nat, e: nat): nat
    decreases e
  {
    if e == 0 then 1 else b * Pow(b, e - 1)
  }

  lemma {:induction false} PowPositive(b: nat, e: nat)
    requires b > 0
    ensures Pow(b, e) > 0
  {
    if e > 0 {
      PowPositive(b, e - 1);
    }
  }

  lemma {:induction false} PowAdd(b: nat, d: nat, e: nat)
    ensures Pow(b, d + e) == Pow(b, d) * Pow(b, e)
  {
    if d > 0 {
      PowAdd(b, d - 1, e);
      assert Pow(b, d + e) == b * Pow(b, d - 1 + e);
      MulAssoc(b, Pow(b, d - 1), Pow(b, e));
    }
  }

  function Pow2(n: nat): (p: nat)
    ensures p >= 1
  {
    if n == 0 then 1 else 2 * Pow2(n - 1)
  }

  lemma {:induction false} Pow2Add(a: nat, b: nat)
    ensures Pow2(a + b) == Pow2(a) * Pow2(b)
  {
    if a > 0 {
      Pow2Add(a - 1, b);
      assert Pow2(a + b) == 2 * Pow2(a - 1 + b);
      MulAssoc(2, Pow2(a - 1), Pow2(b));
    }
  }

  lemma {:induction false} Pow2Monotone(a: nat, b: nat)
    requires a <= b
    ensures Pow2(a) <= Pow2(b)
  {
    if a < b {
      Pow2Monotone(a, b - 1);
    }
  }

  lemma {:induction false} PowPow2(k: nat, n: nat)
    ensures k * n >= 0 && Pow(Pow2(k), n) == Pow2(k * n)
    decreases n
  {
    if n > 0 {
      PowPow2(k, n - 1);
      MulDistributes(n, 1, k);
      assert k * n == k + k * (n - 1);
      Pow2Add(k, k * (n - 1));
    }
  }

  lemma Pow2Small()
    ensures Pow2(1) == 2 && Pow2(2) == 4 && Pow2(3) == 8 && Pow2(4) == 16
    ensures Pow2(5) == 32 && Pow2(6) == 64 && Pow2(7) == 128 && Pow2(8) == 256
  {
    assert Pow2(4) == 16;
    assert Pow2(6) == 64;
  }

  lemma Pow2Words()
    ensures Pow2(16) == 0x1_0000
    ensures Pow2(32) == 0x1_0000_0000
    ensures Pow2(64) == 0x1_0000_0000_0000_0000
  {
    Pow2Small();
    Pow2Add(8, 8);
    Pow2Add(16, 16);
    Pow2Add(32, 32);
  }
}
