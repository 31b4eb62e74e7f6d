/** Base 64 (section 4 of RFC 4648) in blocks of three bytes and four symbols, and
    hexadecimal. Text is characters; the code walks UTF-8 bytes, but a character that is
    more than one byte has none of them in either alphabet. */
module Encodings {
  import opened Arithmetic
  import opened Bits
  import opened Bytes
  import opened Options
  import opened RadixText

  // ----- base 64 -----

  function Symbol64(v: nat): char {
    if v < 26 then ('A' as int + v) as char
    else if v < 52 then ('a' as int + (v - 26)) as char
    else if v < 62 then ('0' as int + (v - 52)) as char
    else if v == 62 then '+'
    else if v == 63 then '/'
    else '?'
  }

  function Value64(c: char): Option<nat> {
    if 'A' <= c <= 'Z' then Some(c as int - 'A' as int)
    else if 'a' <= c <= 'z' then Some(c as int - 'a' as int + 26)
    else if '0' <= c <= '9' then Some(c as int - '0' as int + 52)
    else if c == '+' then Some(62)
    else if c == '/' then Some(63)
    else None
  }

  const BASE64: Codec := Codec(6, Symbol64, Value64, 4)

  lemma Base64Lawful()
    ensures Lawful(BASE64)
  {
    Pow2Small();
  }

  /** Decoding undoes encoding for every byte string. */
  lemma Base64RoundTrip(data: seq<byte>)
    ensures Decoded(BASE64, Encoded(BASE64, data)) == Some(data)
  {
    Base64Lawful();
    TextRoundTrip(BASE64, data);
  }

  /** A text that decodes is the encoding of its bytes exactly when it is padded to a
      multiple of four and nothing else, has one of the lengths that whole bytes need, and
      has no bit set beyond them. */
  lemma Base64EncodeDecodeIff(s: string)
    requires Valid(BASE64, Trim(s))
    ensures Encoded(BASE64, Decoded(BASE64, s).value) == s
       <==> Padded(BASE64, Trim(s)) == s && Canonical(6, DigitsIn(BASE64, Trim(s)))
  {
    hide FromDigits, ToDigits, Encoded, Canonical, Trim;
    Base64Lawful();
    ReencodedIff(BASE64, s);
    OneSymbolEach(Trim(s));
  }

  lemma OneSymbolEach(t: string)
    requires Valid(BASE64, t)
    ensures Text(BASE64, DigitsIn(BASE64, t)) == t
  {
    var u := Text(BASE64, DigitsIn(BASE64, t));
    forall i | 0 <= i < |t|
      ensures u[i] == t[i]
    {
      assert Symbol64(Value64(t[i]).value) == t[i];
    }
  }

  /** Whole blocks need no padding. */
  lemma WholeBlocks(data: seq<byte>)
    requires |data| % 3 == 0
    ensures PadBits(6, |data|) == 0 && DigitCount(6, |data|) == |data| / 3 * 4
    ensures Val(ToDigits(6, data), 64) == BeVal(data)
  {
    hide Val, BeVal, ToDigits, PadBits, DigitCount;
    Pow2Small();
    PadUnique(6, |data|, |data| / 3 * 4, 0);
    ToDigitsVal(6, data);
  }

  lemma ValAppend2(ds: seq<nat>, a: nat, b: nat)
    ensures Val(ds + [a, b], 64) == Val(ds, 64) * 4096 + a * 64 + b
  {
    assert ds + [a, b] == (ds + [a]) + [b];
    ValAppend(ds, a, 64);
    ValAppend(ds + [a], b, 64);
  }

  lemma ValAppend3(ds: seq<nat>, a: nat, b: nat, c: nat)
    ensures Val(ds + [a, b, c], 64) == Val(ds, 64) * 262144 + a * 4096 + b * 64 + c
  {
    assert ds + [a, b, c] == (ds + [a, b]) + [c];
    ValAppend2(ds, a, b);
    ValAppend(ds + [a, b], c, 64);
  }

  lemma ValAppend4(ds: seq<nat>, a: nat, b: nat, c: nat, d: nat)
    ensures Val(ds + [a, b, c, d], 64) == Val(ds, 64) * 16777216 + a * 262144 + b * 4096 + c * 64 + d
  {
    assert ds + [a, b, c, d] == (ds + [a, b, c]) + [d];
    ValAppend3(ds, a, b, c);
    ValAppend(ds + [a, b, c], d, 64);
  }

  lemma BeValAppend2(s: seq<byte>, a: byte, b: byte)
    ensures BeVal(s + [a, b]) == BeVal(s) * 65536 + a * 256 + b
  {
    assert s + [a, b] == (s + [a]) + [b];
    BeValStep(s, a);
    BeValStep(s + [a], b);
  }

  lemma BeValAppend3(s: seq<byte>, a: byte, b: byte, c: byte)
    ensures BeVal(s + [a, b, c]) == BeVal(s) * 16777216 + a * 65536 + b * 256 + c
  {
    assert s + [a, b, c] == (s + [a, b]) + [c];
    BeValAppend2(s, a, b);
    BeValStep(s + [a, b], c);
  }

  /** The four 6-bit groups of a 24-bit block. */
  lemma Groups(b0: nat, b1: nat, b2: nat)
    requires b0 < 256 && b1 < 256 && b2 < 256
    ensures var t := b0 * 65536 + b1 * 256 + b2;
            && (t / 262144) % 64 == b0 / 4
            && (t / 4096) % 64 == b0 % 4 * 16 + b1 / 16
            && (t / 64) % 64 == b1 % 16 * 4 + b2 / 64
            && t % 64 == b2 % 64
  {
    var t := b0 * 65536 + b1 * 256 + b2;
    Group(t, 262144, b0 / 4, b0 % 4 * 65536 + b1 * 256 + b2, 0, b0 / 4);
    Group(t, 4096, b0 * 16 + b1 / 16, b1 % 16 * 256 + b2, b0 / 4, b0 % 4 * 16 + b1 / 16);
    Group(t, 64, b0 * 1024 + b1 * 4 + b2 / 64, b2 % 64, b0 * 16 + b1 / 16, b1 % 16 * 4 + b2 / 64);
  }

  lemma Group(t: nat, d: nat, q: nat, r: nat, q': nat, g: nat)
    requires t == q * d + r && r < d && q == q' * 64 + g && g < 64
    ensures t % d == r && (t / d) % 64 == g
  {
    DivModUnique(t, d, q, r);
    DivModUnique(q, 64, q', g);
  }

  lemma Block3(done: seq<byte>, b0: byte, b1: byte, b2: byte)
    requires |done| % 3 == 0
    ensures var t := b0 * 65536 + b1 * 256 + b2;
            ToDigits(6, done + [b0, b1, b2])
              == ToDigits(6, done) + [(t / 262144) % 64, (t / 4096) % 64, (t / 64) % 64, t % 64]
  {
    hide Val, BeVal, ToDigits, PadBits, DigitCount;
    var t := b0 * 65536 + b1 * 256 + b2;
    var ds, data := ToDigits(6, done), done + [b0, b1, b2];
    Pow2Small();
    WholeBlocks(done);
    WholeBlocks(data);
    Groups(b0, b1, b2);
    ValAppend4(ds, (t / 262144) % 64, (t / 4096) % 64, (t / 64) % 64, t % 64);
    BeValAppend3(done, b0, b1, b2);
    DigitsAre(6, data, ds + [(t / 262144) % 64, (t / 4096) % 64, (t / 64) % 64, t % 64]);
  }

  lemma Block2(done: seq<byte>, b0: byte, b1: byte)
    requires |done| % 3 == 0
    ensures var t := b0 * 65536 + b1 * 256;
            ToDigits(6, done + [b0, b1]) == ToDigits(6, done) + [(t / 262144) % 64, (t / 4096) % 64, (t / 64) % 64]
  {
    hide Val, BeVal, ToDigits, PadBits, DigitCount;
    var t := b0 * 65536 + b1 * 256;
    var ds, data := ToDigits(6, done), done + [b0, b1];
    Pow2Small();
    WholeBlocks(done);
    PadUnique(6, |data|, |ds| + 3, 2);
    Groups(b0, b1, 0);
    ValAppend3(ds, (t / 262144) % 64, (t / 4096) % 64, (t / 64) % 64);
    BeValAppend2(done, b0, b1);
    DigitsAre(6, data, ds + [(t / 262144) % 64, (t / 4096) % 64, (t / 64) % 64]);
  }

  lemma Block1(done: seq<byte>, b0: byte)
    requires |done| % 3 == 0
    ensures var t := b0 * 65536;
            ToDigits(6, done + [b0]) == ToDigits(6, done) + [(t / 262144) % 64, (t / 4096) % 64]
  {
    hide Val, BeVal, ToDigits, PadBits, DigitCount;
    var t := b0 * 65536;
    var ds, data := ToDigits(6, done), done + [b0];
    Pow2Small();
    WholeBlocks(done);
    PadUnique(6, |data|, |ds| + 2, 4);
    Groups(b0, 0, 0);
    ValAppend2(ds, (t / 262144) % 64, (t / 4096) % 64);
    BeValStep(done, b0);
    DigitsAre(6, data, ds + [(t / 262144) % 64, (t / 4096) % 64]);
  }

  lemma FillBlock(blocks: nat, m: nat)
    requires 1 < m <= 4
    ensures Fill(4, blocks * 4) == 0 && Fill(4, blocks * 4 + m) == 4 - m
  {
    DivModUnique(blocks * 4 + m, 4, if m == 4 then blocks + 1 else blocks, m % 4);
  }

  lemma EncodedBlock(done: seq<byte>, chunk: seq<byte>, ds: seq<nat>)
    requires |done| % 3 == 0 && 1 <= |chunk| <= 3 && |ds| == |chunk| + 1
    requires ToDigits(6, done + chunk) == ToDigits(6, done) + ds
    ensures Encoded(BASE64, done + chunk) == Encoded(BASE64, done) + (Text(BASE64, ds) + seq(3 - |chunk|, _ => '='))
  {
    hide ToDigits, DigitCount, PadBits;
    WholeBlocks(done);
    var n := |done| / 3 * 4;
    FillBlock(|done| / 3, |ds|);
    assert Text(BASE64, ToDigits(6, done) + ds) == Text(BASE64, ToDigits(6, done)) + Text(BASE64, ds);
  }

  /** One chunk's digits; those of the bytes it lacks are the zeros that are not sent. */
  lemma ChunkDigits(done: seq<byte>, chunk: seq<byte>, b0: nat, b1: nat, b2: nat, triple: nat)
    requires |done| % 3 == 0 && 1 <= |chunk| <= 3 && triple == b0 * 65536 + b1 * 256 + b2
    requires b0 == chunk[0] && b1 == (if |chunk| > 1 then chunk[1] else 0)
    requires b2 == (if |chunk| > 2 then chunk[2] else 0)
    ensures var ds := [(triple / 262144) % 64, (triple / 4096) % 64, (triple / 64) % 64, triple % 64];
            ToDigits(6, done + chunk) == ToDigits(6, done) + ds[..|chunk| + 1]
  {
    hide ToDigits;
    var ds := [(triple / 262144) % 64, (triple / 4096) % 64, (triple / 64) % 64, triple % 64];
    if |chunk| == 1 {
      assert chunk == [chunk[0]] && ds[..2] == [ds[0], ds[1]];
      Block1(done, chunk[0]);
    } else if |chunk| == 2 {
      assert chunk == [chunk[0], chunk[1]] && ds[..3] == [ds[0], ds[1], ds[2]];
      Block2(done, chunk[0], chunk[1]);
    } else {
      assert chunk == [chunk[0], chunk[1], chunk[2]] && ds[..4] == ds;
      Block3(done, chunk[0], chunk[1], chunk[2]);
    }
  }

  /** `(b0 << 16) | (b1 << 8) | b2` */
  method Triple(b0: nat, b1: nat, b2: nat) returns (triple: nat)
    requires b1 < 256 && b2 < 256
    ensures triple == b0 * 65536 + b1 * 256 + b2
  {
    Pow2Small();
    Pow2Words();
    triple := Join(b0, b1 * 256, 16);
    assert triple == (b0 * 256 + b1) * 256;
    triple := Join(b0 * 256 + b1, b2, 8);
  }

  /** The groups of six bits, each shifted down and masked. */
  method SixBits(triple: nat) returns (groups: seq<nat>)
    ensures groups == [(triple / 262144) % 64, (triple / 4096) % 64, (triple / 64) % 64, triple % 64]
  {
    Pow2Small();
    var g0 := LowBits(triple / 262144, 6);
    var g1 := LowBits(triple / 4096, 6);
    var g2 := LowBits(triple / 64, 6);
    var g3 := LowBits(triple, 6);
    groups := [g0, g1, g2, g3];
  }

  /** One chunk's symbols, with `=` for the bytes it lacks. */
  method ChunkSymbols(ghost done: seq<byte>, chunk: seq<byte>) returns (out: string)
    requires |done| % 3 == 0 && 1 <= |chunk| <= 3
    ensures Encoded(BASE64, done) + out == Encoded(BASE64, done + chunk)
  {
    hide ToDigits, Encoded, Text;
    var b0: nat := chunk[0];
    var b1: nat := if |chunk| > 1 then chunk[1] else 0;
    var b2: nat := if |chunk| > 2 then chunk[2] else 0;
    var triple := Triple(b0, b1, b2);
    ChunkDigits(done, chunk, b0, b1, b2, triple);
    var groups := SixBits(triple);
    EncodedBlock(done, chunk, groups[..|chunk| + 1]);
    out := Symbols(groups, |chunk|);
  }

  method Symbols(groups: seq<nat>, n: nat) returns (out: string)
    requires |groups| == 4 && 1 <= n <= 3
    ensures out == Text(BASE64, groups[..n + 1]) + seq(3 - n, _ => '=')
  {
    out := [Symbol64(groups[0])];
    out := out + [Symbol64(groups[1])];
    if n > 1 {
      out := out + [Symbol64(groups[2])];
    } else {
      out := out + ['='];
    }
    if n > 2 {
      out := out + [Symbol64(groups[3])];
    } else {
      out := out + ['='];
    }
  }

  method ToBase64(data: seq<byte>) returns (out: string)
    ensures out == Encoded(BASE64, data)
  {
    hide Encoded;
    out := [];
    EncodedNothing();
    var i := 0;
    while i < |data|
      invariant i <= |data| && (i < |data| ==> i % 3 == 0)
      invariant out == Encoded(BASE64, data[..i])
    {
      var end := if |data| - i < 3 then |data| else i + 3;
      var symbols := ChunkSymbols(data[..i], data[i..end]);
      out := out + symbols;
      assert data[..i] + data[i..end] == data[..end];
      i := end;
    }
    assert data[..i] == data;
  }

  lemma EncodedNothing()
    ensures Encoded(BASE64, []) == []
  {
    WholeBlocks([]);
  }

  // ----- decoding base 64 -----

  /** The whole bytes of digits, as one number. */
  lemma WholeBytes(ds: seq<nat>, out: seq<byte>, r: nat, rest: nat)
    requires 8 * |out| + r == 6 * |ds| && r < 8
    requires Val(ds, 64) == BeVal(out) * Pow2(r) + rest && rest < Pow2(r)
    ensures out == FromDigits(6, ds)
  {
    hide Val, BeVal, BeBytes, Pow2;
    Pow2Small();
    DivModUnique(6 * |ds|, 8, |out|, r);
    DivModUnique(Val(ds, 64), Pow2(r), BeVal(out), rest);
    BytesAre(out, BeVal(out));
  }

  lemma WholeDigits(ds: seq<nat>)
    requires |ds| % 4 == 0 && forall i :: 0 <= i < |ds| ==> ds[i] < 64
    ensures |FromDigits(6, ds)| == |ds| / 4 * 3 && BeVal(FromDigits(6, ds)) == Val(ds, 64)
  {
    hide Val, BeVal, BeBytes, Pow;
    Pow2Small();
    QuotientFits(6, ds);
    assert Pow2(0) == 1;
    DivModUnique(6 * |ds|, 8, |ds| / 4 * 3, 0);
    BeValOfBytes(Val(ds, 64), |ds| / 4 * 3);
  }

  /** The bytes of up to four digits; a single digit has no whole byte. */
  function Unblocked(v: seq<nat>): seq<byte>
    requires |v| <= 4
  {
    (if |v| >= 2 then [(v[0] * 4 + v[1] / 16) % 256] else [])
    + (if |v| >= 3 then [(v[1] * 16 + v[2] / 4) % 256] else [])
    + (if |v| >= 4 then [(v[2] * 64 + v[3]) % 256] else [])
  }

  lemma Unblock4(ds: seq<nat>, a: nat, b: nat, c: nat, d: nat)
    requires |ds| % 4 == 0 && (forall i :: 0 <= i < |ds| ==> ds[i] < 64)
    requires a < 64 && b < 64 && c < 64 && d < 64
    ensures FromDigits(6, ds + [a, b, c, d]) == FromDigits(6, ds) + Unblocked([a, b, c, d])
  {
    hide Val, BeVal, FromDigits;
    var out := FromDigits(6, ds);
    var x, y, z := (a * 4 + b / 16) % 256, (b * 16 + c / 4) % 256, (c * 64 + d) % 256;
    assert Unblocked([a, b, c, d]) == [x, y, z];
    WholeDigits(ds);
    ValAppend4(ds, a, b, c, d);
    BeValAppend3(out, x, y, z);
    Bits4(a, b, c, d);
    WholeBytes(ds + [a, b, c, d], out + [x, y, z], 0, 0);
  }

  lemma Bits4(a: nat, b: nat, c: nat, d: nat)
    requires a < 64 && b < 64 && c < 64 && d < 64
    ensures (a * 4 + b / 16) % 256 == a * 4 + b / 16
    ensures (b * 16 + c / 4) % 256 == b % 16 * 16 + c / 4
    ensures (c * 64 + d) % 256 == c % 4 * 64 + d
  {
    DivModUnique(a * 4 + b / 16, 256, 0, a * 4 + b / 16);
    DivModUnique(b * 16 + c / 4, 256, b / 16, b % 16 * 16 + c / 4);
    DivModUnique(c * 64 + d, 256, c / 4, c % 4 * 64 + d);
  }

  lemma Unblock3(ds: seq<nat>, a: nat, b: nat, c: nat)
    requires |ds| % 4 == 0 && (forall i :: 0 <= i < |ds| ==> ds[i] < 64)
    requires a < 64 && b < 64 && c < 64
    ensures FromDigits(6, ds + [a, b, c]) == FromDigits(6, ds) + Unblocked([a, b, c])
  {
    hide Val, BeVal, FromDigits;
    var out := FromDigits(6, ds);
    var x, y := (a * 4 + b / 16) % 256, (b * 16 + c / 4) % 256;
    assert Unblocked([a, b, c]) == [x, y];
    Pow2Small();
    WholeDigits(ds);
    ValAppend3(ds, a, b, c);
    BeValAppend2(out, x, y);
    Bits4(a, b, c, 0);
    WholeBytes(ds + [a, b, c], out + [x, y], 2, c % 4);
  }

  lemma Unblock2(ds: seq<nat>, a: nat, b: nat)
    requires |ds| % 4 == 0 && (forall i :: 0 <= i < |ds| ==> ds[i] < 64)
    requires a < 64 && b < 64
    ensures FromDigits(6, ds + [a, b]) == FromDigits(6, ds) + Unblocked([a, b])
  {
    hide Val, BeVal, FromDigits;
    var out := FromDigits(6, ds);
    var x := (a * 4 + b / 16) % 256;
    assert Unblocked([a, b]) == [x];
    Pow2Small();
    WholeDigits(ds);
    ValAppend2(ds, a, b);
    BeValStep(out, x);
    Bits4(a, b, 0, 0);
    WholeBytes(ds + [a, b], out + [x], 4, b % 16);
  }

  lemma Unblock1(ds: seq<nat>, a: nat)
    requires |ds| % 4 == 0 && (forall i :: 0 <= i < |ds| ==> ds[i] < 64)
    requires a < 64
    ensures FromDigits(6, ds + [a]) == FromDigits(6, ds) + Unblocked([a])
  {
    hide Val, BeVal, FromDigits;
    var out := FromDigits(6, ds);
    Pow2Small();
    WholeDigits(ds);
    ValAppend(ds, a, 64);
    WholeBytes(ds + [a], out, 6, a);
    assert out + [] == out;
  }

  lemma Unblock(ds: seq<nat>, v: seq<nat>)
    requires |ds| % 4 == 0 && (forall i :: 0 <= i < |ds| ==> ds[i] < 64)
    requires 1 <= |v| <= 4 && (forall i :: 0 <= i < |v| ==> v[i] < 64)
    ensures FromDigits(6, ds + v) == FromDigits(6, ds) + Unblocked(v)
  {
    hide FromDigits, Unblocked;
    if |v| == 1 {
      assert v == [v[0]];
      Unblock1(ds, v[0]);
    } else if |v| == 2 {
      assert v == [v[0], v[1]];
      Unblock2(ds, v[0], v[1]);
    } else if |v| == 3 {
      assert v == [v[0], v[1], v[2]];
      Unblock3(ds, v[0], v[1], v[2]);
    } else {
      assert v == [v[0], v[1], v[2], v[3]];
      Unblock4(ds, v[0], v[1], v[2], v[3]);
    }
  }

  /** The values of a chunk's symbols, unless one has none. */
  method ChunkValues(chunk: string) returns (r: Option<seq<nat>>)
    requires |chunk| <= 4
    ensures r == if Valid(BASE64, chunk) then Some(DigitsIn(BASE64, chunk)) else None
  {
    var vals := new nat[4](_ => 0);
    var n := |chunk|;
    for i := 0 to n
      invariant forall j :: 0 <= j < i ==> Value64(chunk[j]) == Some(vals[j])
    {
      var v := Value64(chunk[i]);
      if v.None? {
        assert BASE64.value(chunk[i]).None?;
        return None;
      }
      vals[i] := v.value;
    }
    assert Valid(BASE64, chunk) && vals[..n] == DigitsIn(BASE64, chunk);
    r := Some(vals[..n]);
  }

  method FromBase64(text: string) returns (r: Option<seq<byte>>)
    ensures r == Decoded(BASE64, text)
  {
    hide Trim, FromDigits, Pow2, Unblocked;
    var s := Trim(text);
    var out: seq<byte> := [];
    DecodedNothing();
    assert DigitsIn(BASE64, s[..0]) == [];
    var i := 0;
    while i < |s|
      invariant i <= |s| && (i < |s| ==> i % 4 == 0)
      invariant Valid(BASE64, s[..i]) && out == FromDigits(6, DigitsIn(BASE64, s[..i]))
    {
      var end := if |s| - i < 4 then |s| else i + 4;
      var vals := ChunkValues(s[i..end]);
      if vals.None? {
        NotValid(s, i, end);
        return None;
      }
      DigitsJoin(s, i, end);
      out := Extended(DigitsIn(BASE64, s[..i]), vals.value, out);
      i := end;
    }
    assert s[..i] == s;
    r := Some(out);
  }

  method Extended(ghost ds: seq<nat>, vals: seq<nat>, before: seq<byte>) returns (out: seq<byte>)
    requires |ds| % 4 == 0 && (forall i :: 0 <= i < |ds| ==> ds[i] < 64)
    requires 1 <= |vals| <= 4 && (forall i :: 0 <= i < |vals| ==> vals[i] < 64)
    requires before == FromDigits(6, ds)
    ensures out == FromDigits(6, ds + vals)
  {
    hide FromDigits;
    var n := |vals|;
    out := before;
    Pow2Small();
    if n >= 2 {
      var x := Join(vals[0], vals[1] / 16, 2);
      out := out + [x % 256];
    }
    if n >= 3 {
      var x := Join(vals[1], vals[2] / 4, 4);
      out := out + [x % 256];
    }
    if n >= 4 {
      var x := Join(vals[2], vals[3], 6);
      out := out + [x % 256];
    }
    Unblock(ds, vals);
  }

  lemma DecodedNothing()
    ensures FromDigits(6, []) == []
  {
  }

  lemma NotValid(s: string, i: nat, end: nat)
    requires i <= end <= |s| && !Valid(BASE64, s[i..end])
    ensures !Valid(BASE64, s)
  {
    var j :| 0 <= j < end - i && Value64(s[i..end][j]).None?;
    assert s[i + j] == s[i..end][j];
  }

  lemma DigitsJoin(s: string, i: nat, end: nat)
    requires i <= end <= |s| && Valid(BASE64, s[..i]) && Valid(BASE64, s[i..end])
    ensures Valid(BASE64, s[..end])
    ensures DigitsIn(BASE64, s[..end]) == DigitsIn(BASE64, s[..i]) + DigitsIn(BASE64, s[i..end])
    ensures forall j :: 0 <= j < i ==> DigitsIn(BASE64, s[..i])[j] < 64
    ensures forall j :: 0 <= j < end - i ==> DigitsIn(BASE64, s[i..end])[j] < 64
  {
    assert s[..end] == s[..i] + s[i..end];
  }

  // ----- hexadecimal -----

  function HexSymbol(v: nat): char {
    if v < 10 then ('0' as int + v) as char else if v < 16 then ('a' as int + (v - 10)) as char else '?'
  }

  function HexValue(c: char): Option<nat> {
    if '0' <= c <= '9' then Some(c as int - '0' as int)
    else if 'a' <= c <= 'f' then Some(c as int - 'a' as int + 10)
    else if 'A' <= c <= 'F' then Some(c as int - 'A' as int + 10)
    else None
  }

  const HEX: Codec := Codec(4, HexSymbol, HexValue, 1)

  function HexDecoded(s: string): Option<seq<byte>> {
    if |s| % 2 != 0 || !Valid(HEX, s) then None else Some(FromDigits(4, DigitsIn(HEX, s)))
  }

  /** Two digits to a byte, in either direction. */
  lemma HexDigits(data: seq<byte>, x: byte)
    ensures ToDigits(4, data + [x]) == ToDigits(4, data) + [x / 16, x % 16]
  {
    hide Val, BeVal, ToDigits, PadBits, DigitCount;
    var ds := ToDigits(4, data);
    Pow2Small();
    PadUnique(4, |data|, 2 * |data|, 0);
    PadUnique(4, |data| + 1, 2 * |data| + 2, 0);
    ToDigitsVal(4, data);
    ValAppend(ds, x / 16, 16);
    ValAppend(ds + [x / 16], x % 16, 16);
    assert ds + [x / 16, x % 16] == ds + [x / 16] + [x % 16];
    BeValStep(data, x);
    assert Pow2(0) == 1;
    DigitsAre(4, data + [x], ds + [x / 16, x % 16]);
  }

  lemma HexLawful()
    ensures Lawful(HEX)
  {
    Pow2Small();
  }

  lemma HexRoundTrip(data: seq<byte>)
    ensures HexDecoded(Text(HEX, ToDigits(4, data))) == Some(data)
  {
    hide ToDigits, FromDigits, Text, DigitsIn;
    HexLawful();
    TextReadBack(HEX, ToDigits(4, data));
    PadUnique(4, |data|, 2 * |data|, 0);
    RoundTrip(4, data);
  }

  /** What decodes is an even number of digits, of either case. */
  lemma HexDecodesIff(s: string)
    ensures HexDecoded(s).Some? <==>
              && |s| % 2 == 0
              && forall i :: 0 <= i < |s| ==> '0' <= s[i] <= '9' || 'a' <= s[i] <= 'f' || 'A' <= s[i] <= 'F'
  {
    hide FromDigits;
  }

  lemma HexEitherCase(s: string, t: string)
    requires |s| == |t| && forall i :: 0 <= i < |s| ==> Lower(s[i]) == Lower(t[i])
    ensures HexDecoded(s) == HexDecoded(t)
  {
    hide FromDigits;
    assert forall i :: 0 <= i < |s| ==> HexValue(s[i]) == HexValue(t[i]);
    if Valid(HEX, s) {
      assert Valid(HEX, t);
      assert DigitsIn(HEX, s) == DigitsIn(HEX, t);
    } else {
      assert !Valid(HEX, t);
    }
  }

  /** A text that decodes is the encoding of its bytes exactly when it has no capital. */
  lemma HexEncodeDecodeIff(s: string)
    requires HexDecoded(s).Some?
    ensures Text(HEX, ToDigits(4, HexDecoded(s).value)) == s <==> forall i :: 0 <= i < |s| ==> !('A' <= s[i] <= 'F')
  {
    hide FromDigits, ToDigits;
    var ds := DigitsIn(HEX, s);
    HexCanonical(ds);
    forall i | 0 <= i < |s|
      ensures Text(HEX, ds)[i] == s[i] <==> !('A' <= s[i] <= 'F')
    {
      HexSymbolOfValue(s[i]);
    }
  }

  lemma HexSymbolOfValue(c: char)
    requires HexValue(c).Some?
    ensures HexSymbol(HexValue(c).value) == c <==> !('A' <= c <= 'F')
  {
  }

  method ToHex(data: seq<byte>) returns (s: string)
    ensures s == Text(HEX, ToDigits(4, data))
  {
    hide ToDigits;
    s := [];
    PadUnique(4, 0, 0, 0);
    for i := 0 to |data|
      invariant s == Text(HEX, ToDigits(4, data[..i]))
    {
      HexDigits(data[..i], data[i]);
      assert data[..i + 1] == data[..i] + [data[i]];
      Pow2Small();
      var low := LowBits(data[i], 4);
      s := s + [HexSymbol(data[i] / 16)];
      s := s + [HexSymbol(low)];
    }
    assert data[..|data|] == data;
  }

  lemma HexBytes(ds: seq<nat>, a: nat, b: nat)
    requires |ds| % 2 == 0 && a < 16 && b < 16 && (forall i :: 0 <= i < |ds| ==> ds[i] < 16)
    ensures FromDigits(4, ds + [a, b]) == FromDigits(4, ds) + [a * 16 + b]
  {
    hide Val, BeVal, FromDigits, ToDigits;
    Pow2Small();
    HexCanonical(ds);
    var data := FromDigits(4, ds);
    DivModUnique(a * 16 + b, 16, a, b);
    HexDigits(data, a * 16 + b);
    assert ToDigits(4, data + [a * 16 + b]) == ds + [a, b];
    RoundTrip(4, data + [a * 16 + b]);
  }

  /** An even number of hexadecimal digits is whole bytes. */
  lemma HexCanonical(ds: seq<nat>)
    requires |ds| % 2 == 0 && (forall i :: 0 <= i < |ds| ==> ds[i] < 16)
    ensures ToDigits(4, FromDigits(4, ds)) == ds
  {
    hide Val, FromDigits, ToDigits;
    Pow2Small();
    assert Pow2(0) == 1;
    assert (4 * |ds|) % 8 == 0;
    CanonicalIff(4, ds);
  }

  method FromHex(s: string) returns (r: Option<seq<byte>>)
    ensures r == HexDecoded(s)
  {
    hide FromDigits;
    if |s| % 2 != 0 {
      return None;
    }
    var out: seq<byte> := [];
    var i := 0;
    HexNothing();
    while i < |s|
      invariant i <= |s| && i % 2 == 0 && Valid(HEX, s[..i])
      invariant out == FromDigits(4, DigitsIn(HEX, s[..i]))
    {
      var hi := HexValue(s[i]);
      if hi.None? {
        return None;
      }
      var lo := HexValue(s[i + 1]);
      if lo.None? {
        return None;
      }
      HexBytes(DigitsIn(HEX, s[..i]), hi.value, lo.value);
      assert DigitsIn(HEX, s[..i + 2]) == DigitsIn(HEX, s[..i]) + [hi.value, lo.value];
      Pow2Small();
      var x := Join(hi.value, lo.value, 4);
      out := out + [x];
      i := i + 2;
    }
    assert s[..i] == s;
    r := Some(out);
  }

  lemma HexNothing()
    ensures FromDigits(4, []) == [] && DigitsIn(HEX, []) == []
  {
  }
}
