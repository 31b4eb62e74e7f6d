/** Bytes, and the fixed-width little- and big-endian integers read from them
    and written to them. */
module Bytes {
  import opened Arithmetic

  type byte = x: int | 0 <= x < 256

  function LeVal(s: seq<byte>): nat {
    if s == [] then 0 else s[0] + 256 * LeVal(s[1..])
  }

  function LeBytes(v: nat, n: nat): (s: seq<byte>)
    ensures |s| == n
    decreases n
  {
    if n == 0 then [] else [v % 256] + LeBytes(v / 256, n - 1)
  }

  function BeVal(s: seq<byte>): nat {
    if s == [] then 0 else 256 * BeVal(s[..|s| - 1]) + s[|s| - 1]
  }

  function BeBytes(v: nat, n: nat): (s: seq<byte>)
    ensures |s| == n
    decreases n
  {
    if n == 0 then [] else BeBytes(v / 256, n - 1) + [v % 256]
  }

  function Reverse(s: seq<byte>): (r: seq<byte>)
    ensures |r| == |s|
  {
    if s == [] then [] else Reverse(s[1..]) + [s[0]]
  }

  // ----- little endian -----

  lemma {:induction false} LeValAppend(s: seq<byte>, t: seq<byte>)
    ensures LeVal(s + t) == LeVal(s) + Pow(256, |s|) * LeVal(t)
  {
    if s == [] {
      assert s + t == t;
    } else {
      LeValAppend(s[1..], t);
      assert (s + t)[1..] == s[1..] + t;
      MulAssoc(256, Pow(256, |s| - 1), LeVal(t));
    }
  }

  lemma {:induction false} LeValBound(s: seq<byte>)
    ensures LeVal(s) < Pow(256, |s|)
  {
    if s != [] {
      LeValBound(s[1..]);
    }
  }

  lemma {:induction false} LeValOfBytes(v: nat, n: nat)
    ensures Pow(256, n) > 0 && LeVal(LeBytes(v, n)) == v % Pow(256, n)
    decreases n
  {
    PowPositive(256, n);
    if n > 0 {
      LeValOfBytes(v / 256, n - 1);
      assert LeBytes(v, n)[1..] == LeBytes(v / 256, n - 1);
      ModDigit(v, 256, Pow(256, n - 1));
    } else {
      DivModUnique(v, 1, v, 0);
    }
  }

  lemma ModDigit(v: nat, b: nat, p: nat)
    requires b > 0 && p > 0
    ensures b * p > 0 && v % (b * p) == v % b + b * ((v / b) % p)
  {
    var u := v / b;
    var q, r := u / p, v % b + b * (u % p);
    assert r < b * p by {
      assert u % p + 1 <= p;
      assert b * (u % p + 1) <= b * p;
    }
    calc {
      v;
      b * u + v % b;
      { assert u == q * p + u % p; }
      b * (q * p + u % p) + v % b;
      { assert b * (q * p) == q * (b * p); }
      q * (b * p) + r;
    }
    DivModUnique(v, b * p, q, r);
  }

  lemma {:induction false} LeValInjective(s: seq<byte>, t: seq<byte>)
    requires |s| == |t| && LeVal(s) == LeVal(t)
    ensures s == t
  {
    if s != [] {
      LeValInjective(s[1..], t[1..]);
      assert s == [s[0]] + s[1..] && t == [t[0]] + t[1..];
    }
  }

  lemma {:induction false} LeValZeros(s: seq<byte>)
    requires forall i :: 0 <= i < |s| ==> s[i] == 0
    ensures LeVal(s) == 0
  {
    if s != [] {
      LeValZeros(s[1..]);
    }
  }

  // ----- big endian -----

  lemma Pow256Words()
    ensures Pow(256, 1) == 0x100 && Pow(256, 2) == 0x1_0000
    ensures Pow(256, 4) == 0x1_0000_0000 && Pow(256, 8) == 0x1_0000_0000_0000_0000
  {
    PowAdd(256, 1, 1);
    PowAdd(256, 2, 2);
    PowAdd(256, 4, 4);
  }

  lemma Pow256IsPow2(n: nat)
    ensures Pow(256, n) == Pow2(8 * n)
  {
    Pow2Small();
    PowPow2(8, n);
  }

  lemma {:induction false} BeValBound(s: seq<byte>)
    ensures BeVal(s) < Pow(256, |s|)
  {
    if s != [] {
      BeValBound(s[..|s| - 1]);
    }
  }

  lemma {:induction false} BeValOfBytes(v: nat, n: nat)
    requires v < Pow(256, n)
    ensures BeVal(BeBytes(v, n)) == v
    decreases n
  {
    if n > 0 {
      BeValOfBytes(v / 256, n - 1);
      assert BeBytes(v, n)[..n - 1] == BeBytes(v / 256, n - 1);
    }
  }

  lemma {:induction false} BeValInjective(s: seq<byte>, t: seq<byte>)
    requires |s| == |t| && BeVal(s) == BeVal(t)
    ensures s == t
  {
    if s != [] {
      var n := |s| - 1;
      BeValInjective(s[..n], t[..n]);
      assert s == s[..n] + [s[n]] && t == t[..n] + [t[n]];
    }
  }

  /** Reversing exchanges the two byte orders. */
  lemma {:induction false} ReverseLeIsBe(s: seq<byte>)
    ensures LeVal(Reverse(s)) == BeVal(s)
  {
    if s != [] {
      var n := |s| - 1;
      ReverseSnoc(s[..n], s[n]);
      assert s == s[..n] + [s[n]];
      ReverseLeIsBe(s[..n]);
      assert ([s[n]] + Reverse(s[..n]))[1..] == Reverse(s[..n]);
    }
  }

  lemma {:induction false} ReverseSnoc(s: seq<byte>, x: byte)
    ensures Reverse(s + [x]) == [x] + Reverse(s)
  {
    if s == [] {
      assert s + [x] == [x];
      assert Reverse([x]) == Reverse([x][1..]) + [x];
    } else {
      ReverseSnoc(s[1..], x);
      assert (s + [x])[1..] == s[1..] + [x];
    }
  }

  lemma {:induction false} ReverseTwice(s: seq<byte>)
    ensures Reverse(Reverse(s)) == s
  {
    if s != [] {
      ReverseTwice(s[1..]);
      ReverseSnoc(Reverse(s[1..]), s[0]);
    }
  }

  // ----- two's complement -----

  /** Reading an unsigned word as the two's complement number of the same width. */
  function Signed(w: nat, modulus: nat): int {
    if w < modulus / 2 then w else w - modulus
  }

  /** Casting a number that fits to an unsigned word is taking it modulo the word, and
      casting it back restores it. */
  lemma SignedCast(v: int, m: nat)
    requires m > 0 && m % 2 == 0 && -(m / 2) <= v < m / 2
    ensures 0 <= v % m < m && Signed(v % m, m) == v
    ensures v < 0 ==> v % m == v + m
  {
    if v >= 0 {
      DivModUnique(v, m, 0, v);
    } else {
      DivModUnique(v, m, -1, v + m);
    }
  }
}
