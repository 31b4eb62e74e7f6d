/** Bytes regrouped into digits of k bits, as RFC 4648 does for base 16, 32 and 64: the
    bytes are one long number, padded with zero bits to a whole number of digits. */
module RadixText {
  import opened Arithmetic
  import opened Bits
  import opened Bytes
  import opened Options

  /** The number whose digits to base b these are. */
  function Val(ds: seq<nat>, b: nat): nat {
    if ds == [] then 0 else Val(ds[..|ds| - 1], b) * b + ds[|ds| - 1]
  }

  function Digits(v: nat, n: nat, b: nat): (ds: seq<nat>)
    requires b > 0
    ensures |ds| == n && forall i :: 0 <= i < n ==> ds[i] < b
    decreases n
  {
    if n == 0 then [] else Digits(v / b, n - 1, b) + [v % b]
  }

  lemma ValAppend(ds: seq<nat>, d: nat, b: nat)
    ensures Val(ds + [d], b) == Val(ds, b) * b + d
  {
    assert (ds + [d])[..|ds|] == ds;
  }

  lemma BeValStep(s: seq<byte>, x: byte)
    ensures BeVal(s + [x]) == 256 * BeVal(s) + x
  {
    assert (s + [x])[..|s|] == s;
  }

  lemma {:induction false} ValOfDigits(v: nat, n: nat, b: nat)
    requires b > 0 && v < Pow(b, n)
    ensures Val(Digits(v, n, b), b) == v
    decreases n
  {
    if n > 0 {
      DivLess(v, b, Pow(b, n - 1));
      ValOfDigits(v / b, n - 1, b);
      ValAppend(Digits(v / b, n - 1, b), v % b, b);
      DivModIdentity(v, b);
    }
  }

  lemma {:induction false} DigitsOfVal(ds: seq<nat>, b: nat)
    requires b > 0 && forall i :: 0 <= i < |ds| ==> ds[i] < b
    ensures Digits(Val(ds, b), |ds|, b) == ds
  {
    if ds != [] {
      var init, d := ds[..|ds| - 1], ds[|ds| - 1];
      DigitsOfVal(init, b);
      DivModUnique(Val(ds, b), b, Val(init, b), d);
      assert ds == init + [d];
    }
  }

  lemma {:induction false} ValBound(ds: seq<nat>, b: nat)
    requires b > 0 && forall i :: 0 <= i < |ds| ==> ds[i] < b
    ensures Val(ds, b) < Pow(b, |ds|)
  {
    if ds != [] {
      var init, d := ds[..|ds| - 1], ds[|ds| - 1];
      ValBound(init, b);
      NextDigit(Val(init, b), Pow(b, |init|), d, b);
    }
  }

  lemma NextDigit(v: nat, p: nat, d: nat, b: nat)
    requires v < p && d < b
    ensures v * b + d < b * p
  {
    MulMonotone(v + 1, p, b);
    MulDistributes(v, 1, b);
  }

  // ----- the two directions -----

  type Width = k: int | 1 <= k <= 8 witness 1

  /** The zero bits that fill up the last digit of n bytes. */
  function PadBits(k: Width, n: nat): (p: nat)
    ensures p < k && (8 * n + p) % k == 0
  {
    var r := (8 * n) % k;
    DivModIdentity(8 * n, k);
    if r == 0 then 0
    else
      MulDistributes(8 * n / k, 1, k);
      DivModUnique(8 * n + (k - r), k, 8 * n / k + 1, 0);
      k - r
  }

  function DigitCount(k: Width, n: nat): nat {
    (8 * n + PadBits(k, n)) / k
  }

  lemma DigitBits(k: Width, n: nat)
    ensures k * DigitCount(k, n) == 8 * n + PadBits(k, n)
  {
    DivModIdentity(8 * n + PadBits(k, n), k);
  }

  /** The digits of a byte string. */
  function ToDigits(k: Width, data: seq<byte>): (ds: seq<nat>)
    ensures |ds| == DigitCount(k, |data|) && forall i :: 0 <= i < |ds| ==> ds[i] < Pow2(k)
  {
    Digits(BeVal(data) * Pow2(PadBits(k, |data|)), DigitCount(k, |data|), Pow2(k))
  }

  /** The whole bytes in a string of digits; the bits left over are dropped. */
  function FromDigits(k: Width, ds: seq<nat>): seq<byte> {
    NonNegative(k, |ds|);
    var bits: nat := k * |ds|;
    var v, d := Val(ds, Pow2(k)), Pow2(bits % 8);
    DivModIdentity(v, d);
    BeBytes(v / d, bits / 8)
  }

  /** Digits are those of a byte string when they say so as one number. */
  lemma DigitsAre(k: Width, data: seq<byte>, ds: seq<nat>)
    requires |ds| == DigitCount(k, |data|) && forall i :: 0 <= i < |ds| ==> ds[i] < Pow2(k)
    requires Val(ds, Pow2(k)) == BeVal(data) * Pow2(PadBits(k, |data|))
    ensures ds == ToDigits(k, data)
  {
    hide Val, Digits;
    DigitsOfVal(ds, Pow2(k));
  }

  lemma BytesAre(s: seq<byte>, v: nat)
    requires BeVal(s) == v
    ensures s == BeBytes(v, |s|)
  {
    BeValBound(s);
    BeValOfBytes(v, |s|);
    BeValInjective(s, BeBytes(v, |s|));
  }

  lemma ShiftedBound(v: nat, n: nat, p: nat)
    requires v < Pow(256, n)
    ensures v * Pow2(p) < Pow2(8 * n + p)
  {
    Pow256IsPow2(n);
    Pow2Add(8 * n, p);
    MulStrict(v, Pow2(8 * n), Pow2(p));
  }

  lemma ToDigitsVal(k: Width, data: seq<byte>)
    ensures Val(ToDigits(k, data), Pow2(k)) == BeVal(data) * Pow2(PadBits(k, |data|))
  {
    hide Val, Digits, BeVal, Pow2, PadBits, DigitCount;
    var n, p, c := |data|, PadBits(k, |data|), DigitCount(k, |data|);
    DigitBits(k, n);
    BeValBound(data);
    ShiftedBound(BeVal(data), n, p);
    PowPow2(k, c);
    ValOfDigits(BeVal(data) * Pow2(p), c, Pow2(k));
  }

  /** Decoding undoes encoding, for every byte string and every digit width. */
  lemma RoundTrip(k: Width, data: seq<byte>)
    ensures FromDigits(k, ToDigits(k, data)) == data
  {
    hide Val, Digits, BeVal, BeBytes, Pow2, PadBits, DigitCount, ToDigits;
    var n, p := |data|, PadBits(k, |data|);
    DigitBits(k, n);
    ToDigitsVal(k, data);
    DivModUnique(8 * n + p, 8, n, p);
    DivModUnique(BeVal(data) * Pow2(p), Pow2(p), BeVal(data), 0);
    BytesAre(data, BeVal(data));
  }

  // ----- which digits are encodings -----

  /** Digits that some byte string has: no whole digit is left over, and the bits left
      over are zero. */
  predicate Canonical(k: Width, ds: seq<nat>) {
    && (k * |ds|) % 8 < k
    && Val(ds, Pow2(k)) % Pow2((k * |ds|) % 8) == 0
  }

  lemma PadUnique(k: Width, n: nat, c: nat, r: nat)
    requires k * c == 8 * n + r && r < k
    ensures PadBits(k, n) == r && DigitCount(k, n) == c
  {
    hide DigitCount, PadBits;
    var p, d := PadBits(k, n), DigitCount(k, n);
    DigitBits(k, n);
    DivModUnique(8 * n + r + (p - r), k, d, 0);
    MulDistributes(d, c, k);
    assert (d - c) * k == p - r;
    SmallMultipleIsZero(d - c, k);
    DivModUnique(8 * n + p, k, d, 0);
  }

  /** Encoding undoes decoding exactly on the canonical digits. */
  lemma CanonicalIff(k: Width, ds: seq<nat>)
    requires forall i :: 0 <= i < |ds| ==> ds[i] < Pow2(k)
    ensures ToDigits(k, FromDigits(k, ds)) == ds <==> Canonical(k, ds)
  {
    hide Val, Digits, BeVal, BeBytes, Pow2, PadBits, DigitCount, ToDigits;
    var v, r, n := Val(ds, Pow2(k)), (k * |ds|) % 8, k * |ds| / 8;
    DivModIdentity(k * |ds|, 8);
    DivModIdentity(v, Pow2(r));
    if ToDigits(k, FromDigits(k, ds)) == ds {
      DigitBits(k, n);
      assert r == PadBits(k, n);
      var data := FromDigits(k, ds);
      ToDigitsVal(k, data);
      DivModUnique(v, Pow2(r), BeVal(data), 0);
    }
    if Canonical(k, ds) {
      PadUnique(k, n, |ds|, r);
      QuotientFits(k, ds);
      BeValOfBytes(v / Pow2(r), n);
      DigitsAre(k, FromDigits(k, ds), ds);
    }
  }

  /** The whole bytes of n digits are enough for what is left of their number. */
  lemma QuotientFits(k: Width, ds: seq<nat>)
    requires forall i :: 0 <= i < |ds| ==> ds[i] < Pow2(k)
    ensures Val(ds, Pow2(k)) / Pow2((k * |ds|) % 8) < Pow(256, k * |ds| / 8)
  {
    hide Val, Pow2, Pow;
    var v, r, n := Val(ds, Pow2(k)), (k * |ds|) % 8, k * |ds| / 8;
    ValBound(ds, Pow2(k));
    PowPow2(k, |ds|);
    DivModIdentity(k * |ds|, 8);
    Pow2Add(r, 8 * n);
    Pow256IsPow2(n);
    DivLess(v, Pow2(r), Pow2(8 * n));
  }

  // ----- text -----

  /** A text form of digits: a symbol for each, and `=` up to a multiple of `group`. */
  datatype Codec = Codec(k: Width, symbol: nat -> char, value: char -> Option<nat>, group: nat)

  ghost predicate Lawful(c: Codec) {
    && c.group > 0
    && c.value('=').None?
    && (forall v: nat :: v < Pow2(c.k) ==> c.value(c.symbol(v)) == Some(v))
    && (forall x :: c.value(x).Some? ==> c.value(x).value < Pow2(c.k))
  }

  function Text(c: Codec, ds: seq<nat>): (t: string)
    ensures |t| == |ds|
  {
    seq(|ds|, i requires 0 <= i < |ds| => c.symbol(ds[i]))
  }

  function Fill(group: nat, n: nat): nat
    requires group > 0
  {
    (group - n % group) % group
  }

  function Padded(c: Codec, t: string): string
    requires c.group > 0
  {
    t + seq(Fill(c.group, |t|), _ => '=')
  }

  function Trim(s: string): string {
    if s != [] && s[|s| - 1] == '=' then Trim(s[..|s| - 1]) else s
  }

  predicate Valid(c: Codec, s: string) {
    forall i :: 0 <= i < |s| ==> c.value(s[i]).Some?
  }

  function DigitsIn(c: Codec, s: string): (ds: seq<nat>)
    requires Valid(c, s)
    ensures |ds| == |s|
  {
    seq(|s|, i requires 0 <= i < |s| => c.value(s[i]).value)
  }

  function Encoded(c: Codec, data: seq<byte>): string
    requires c.group > 0
  {
    Padded(c, Text(c, ToDigits(c.k, data)))
  }

  function Decoded(c: Codec, s: string): Option<seq<byte>> {
    var t := Trim(s);
    if Valid(c, t) then Some(FromDigits(c.k, DigitsIn(c, t))) else None
  }

  lemma TextReadBack(c: Codec, ds: seq<nat>)
    requires Lawful(c) && forall i :: 0 <= i < |ds| ==> ds[i] < Pow2(c.k)
    ensures Valid(c, Text(c, ds)) && DigitsIn(c, Text(c, ds)) == ds
  {
  }

  lemma {:induction false} TrimPadded(c: Codec, t: string, n: nat)
    requires Lawful(c) && Valid(c, t)
    ensures Trim(t + seq(n, _ => '=')) == t
  {
    var s := t + seq(n, _ => '=');
    if n > 0 {
      TrimPadded(c, t, n - 1);
      assert s[..|s| - 1] == t + seq(n - 1, _ => '=');
    } else {
      assert s == t;
    }
  }

  /** Decoding an encoding gives the bytes back, for every byte string. */
  lemma TextRoundTrip(c: Codec, data: seq<byte>)
    requires Lawful(c)
    ensures Decoded(c, Encoded(c, data)) == Some(data)
  {
    hide ToDigits, FromDigits, Pow2, Trim, Text, DigitsIn;
    var ds := ToDigits(c.k, data);
    var t := Text(c, ds);
    TextReadBack(c, ds);
    TrimPadded(c, t, Fill(c.group, |t|));
    RoundTrip(c.k, data);
  }

  /** A text that decodes is the encoding of its bytes exactly when it uses the symbols of
      the encoder, is padded as it would be, and has canonical digits. */
  lemma ReencodedIff(c: Codec, s: string)
    requires Lawful(c) && Valid(c, Trim(s))
    ensures Encoded(c, FromDigits(c.k, DigitsIn(c, Trim(s)))) == s
       <==> (&& Text(c, DigitsIn(c, Trim(s))) == Trim(s)
             && Padded(c, Trim(s)) == s
             && Canonical(c.k, DigitsIn(c, Trim(s))))
  {
    hide ToDigits, FromDigits, Pow2, Trim, Text, DigitsIn, Canonical;
    var t := Trim(s);
    var ds := DigitsIn(c, t);
    DigitsBounded(c, t);
    CanonicalIff(c.k, ds);
    var ds' := ToDigits(c.k, FromDigits(c.k, ds));
    TextReadBack(c, ds');
    TrimPadded(c, Text(c, ds'), Fill(c.group, |Text(c, ds')|));
  }

  /** Texts that read alike symbol by symbol decode alike. */
  lemma ReadAlike(c: Codec, s: string, t: string)
    requires |s| == |t|
    requires forall i :: 0 <= i < |s| ==> (s[i] == '=' <==> t[i] == '=') && c.value(s[i]) == c.value(t[i])
    ensures Decoded(c, s) == Decoded(c, t)
  {
    hide FromDigits, Trim;
    TrimAlike(s, t);
    var a, b := Trim(s), Trim(t);
    TrimPrefix(s);
    TrimPrefix(t);
    assert forall i :: 0 <= i < |a| ==> a[i] == s[i] && b[i] == t[i];
    if Valid(c, a) {
      assert Valid(c, b);
      assert DigitsIn(c, a) == DigitsIn(c, b);
    }
  }

  lemma {:induction false} TrimPrefix(s: string)
    ensures Trim(s) <= s
  {
    if s != [] && s[|s| - 1] == '=' {
      TrimPrefix(s[..|s| - 1]);
    }
  }

  lemma {:induction false} TrimAlike(s: string, t: string)
    requires |s| == |t| && forall i :: 0 <= i < |s| ==> (s[i] == '=' <==> t[i] == '=')
    ensures |Trim(s)| == |Trim(t)|
  {
    if s != [] && s[|s| - 1] == '=' {
      TrimAlike(s[..|s| - 1], t[..|t| - 1]);
    }
  }

  /** A letter in lower case. */
  function Lower(c: char): char {
    if 'A' <= c <= 'Z' then (c as int + 32) as char else c
  }

  lemma DigitsBounded(c: Codec, t: string)
    requires Lawful(c) && Valid(c, t)
    ensures forall i :: 0 <= i < |t| ==> DigitsIn(c, t)[i] < Pow2(c.k)
  {
  }

  lemma TextAppend(c: Codec, ds: seq<nat>, d: nat)
    ensures Text(c, ds + [d]) == Text(c, ds) + [c.symbol(d)]
  {
  }

  // ----- a 32-bit accumulator -----

  const WORD: nat := 0x1_0000_0000

  /** The low nb bits of the accumulator are what is taken in (t) but not yet put out (o). */
  ghost predicate Held(t: nat, o: nat, bits: nat, nb: nat) {
    t == o * Pow2(nb) + bits % Pow2(nb)
  }

  /** Bits above the m low ones may be lost. */
  lemma HighBitsLost(y: nat, m: nat)
    requires m <= 32
    ensures (y % WORD) % Pow2(m) == y % Pow2(m)
  {
    hide Pow2;
    Pow2Words();
    Pow2Add(m, 32 - m);
    var p, q := Pow2(m), Pow2(32 - m);
    ModDigit(y, p, q);
    DivModUnique(y % WORD, p, (y / p) % q, y % p);
  }

  lemma ShiftedWord(bits: nat, x: nat, w: nat)
    requires w <= 32 && x < Pow2(w)
    ensures var h := bits % Pow2(32 - w);
            (bits * Pow2(w)) % WORD == h * Pow2(w) && (bits * Pow2(w) + x) % WORD == h * Pow2(w) + x
  {
    hide Pow2;
    Pow2Words();
    Pow2Add(w, 32 - w);
    ShiftedMod(bits, 0, Pow2(w), Pow2(32 - w), WORD);
    ShiftedMod(bits, x, Pow2(w), Pow2(32 - w), WORD);
  }

  lemma ShiftedMod(bits: nat, x: nat, p: nat, q: nat, m: nat)
    requires x < p && q > 0 && m == p * q
    ensures m > 0 && (bits * p + x) % m == (bits % q) * p + x
  {
    DivModUnique(bits * p + x, p, bits, x);
    ModDigit(bits * p + x, p, q);
    MulEqual(p, bits % q, bits % q, p);
  }

  /** `(bits << w) | x` in 32 bits. */
  method ShiftIn(bits: nat, x: nat, w: nat) returns (word: nat)
    requires w <= 32 && x < Pow2(w)
    ensures word == (bits * Pow2(w) + x) % WORD
  {
    ShiftedWord(bits, x, w);
    OrDisjoint(bits % Pow2(32 - w), x, w);
    word := Or((bits * Pow2(w)) % WORD, x);
  }

  lemma TakenIn(bits: nat, x: nat, w: nat, nb: nat)
    requires x < Pow2(w) && nb + w <= 32
    ensures ((bits * Pow2(w) + x) % WORD) % Pow2(nb + w) == (bits % Pow2(nb)) * Pow2(w) + x
  {
    hide Pow2;
    HighBitsLost(bits * Pow2(w) + x, nb + w);
    Pow2Add(w, nb);
    ShiftedMod(bits, x, Pow2(w), Pow2(nb), Pow2(nb + w));
  }

  lemma HeldIn(t: nat, o: nat, bits: nat, nb: nat, x: nat, w: nat)
    requires Held(t, o, bits, nb) && x < Pow2(w) && nb + w <= 32
    ensures Held(t * Pow2(w) + x, o, (bits * Pow2(w) + x) % WORD, nb + w)
  {
    hide Pow2;
    TakenIn(bits, x, w, nb);
    Pow2Add(nb, w);
    MulDistributes(o * Pow2(nb), bits % Pow2(nb), Pow2(w));
    MulAssoc(o, Pow2(nb), Pow2(w));
  }

  /** The top w bits of those held are put out. */
  lemma HeldOut(t: nat, o: nat, bits: nat, nb: nat, w: nat)
    requires Held(t, o, bits, nb) && nb >= w
    ensures var d := (bits / Pow2(nb - w)) % Pow2(w);
            d < Pow2(w) && Held(t, o * Pow2(w) + d, bits, nb - w)
  {
    hide Pow2;
    var p, q := Pow2(nb - w), Pow2(w);
    var d := (bits / p) % q;
    Pow2Add(nb - w, w);
    ModDigit(bits, p, q);
    MulDistributes(o * q, d, p);
    MulAssoc(o, p, q);
    MulAssoc(o, q, p);
    MulEqual(p, q, q, p);
  }

  /** The last bits held are put out with zero bits behind them. */
  lemma HeldLast(t: nat, o: nat, bits: nat, nb: nat, w: nat)
    requires Held(t, o, bits, nb) && nb <= w <= 32
    ensures var d := ((bits * Pow2(w - nb)) % WORD) % Pow2(w);
            d < Pow2(w) && o * Pow2(w) + d == t * Pow2(w - nb)
  {
    hide Pow2;
    var z := w - nb;
    assert 0 < Pow2(z);
    TakenIn(bits, 0, z, nb);
    Pow2Add(nb, z);
    MulDistributes(o * Pow2(nb), bits % Pow2(nb), Pow2(z));
    MulAssoc(o, Pow2(nb), Pow2(z));
  }
}
