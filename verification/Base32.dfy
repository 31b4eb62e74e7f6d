/** Base 32 (section 6 of RFC 4648), as loops over a 32-bit accumulator. */
module Base32 {
  import opened Arithmetic
  import opened Bits
  import opened Bytes
  import opened Options
  import opened RadixText

  function Symbol(v: nat): char {
    if v < 26 then ('A' as int + v) as char else if v < 32 then ('2' as int + (v - 26)) as char else '?'
  }

  function Value(c: char): Option<nat> {
    if 'A' <= c <= 'Z' then Some(c as int - 'A' as int)
    else if 'a' <= c <= 'z' then Some(c as int - 'a' as int)
    else if '2' <= c <= '7' then Some(c as int - '2' as int + 26)
    else None
  }

  const CODEC: Codec := Codec(5, Symbol, Value, 8)

  lemma CodecLawful()
    ensures Lawful(CODEC)
  {
    Pow2Small();
  }

  /** Decoding undoes encoding for every byte string. */
  lemma DecodeEncode(data: seq<byte>)
    ensures Decoded(CODEC, Encoded(CODEC, data)) == Some(data)
  {
    CodecLawful();
    TextRoundTrip(CODEC, data);
  }

  /** A text that decodes is the encoding of its bytes exactly when it is in upper case,
      padded with `=` to a multiple of eight and nothing else, has one of the lengths that
      whole bytes need, and has no bit set beyond them. */
  lemma EncodeDecodeIff(s: string)
    requires Valid(CODEC, Trim(s))
    ensures Encoded(CODEC, Decoded(CODEC, s).value) == s
       <==> (&& (forall i :: 0 <= i < |Trim(s)| ==> !('a' <= Trim(s)[i] <= 'z'))
             && Padded(CODEC, Trim(s)) == s
             && Canonical(5, DigitsIn(CODEC, Trim(s))))
  {
    hide FromDigits, ToDigits, Encoded, Canonical, Trim;
    CodecLawful();
    ReencodedIff(CODEC, s);
    UpperIff(Trim(s));
  }

  lemma UpperIff(t: string)
    requires Valid(CODEC, t)
    ensures Text(CODEC, DigitsIn(CODEC, t)) == t <==> forall i :: 0 <= i < |t| ==> !('a' <= t[i] <= 'z')
  {
    var u := Text(CODEC, DigitsIn(CODEC, t));
    forall i | 0 <= i < |t|
      ensures u[i] == t[i] <==> !('a' <= t[i] <= 'z')
    {
      SymbolOfValue(t[i]);
    }
  }

  /** What decodes, up to the padding, is letters of either case and the digits from 2 to 7. */
  lemma DecodesIff(s: string)
    ensures Decoded(CODEC, s).Some? <==>
              forall i :: 0 <= i < |Trim(s)| ==>
                var c := Trim(s)[i]; 'A' <= c <= 'Z' || 'a' <= c <= 'z' || '2' <= c <= '7'
  {
    hide FromDigits, Trim;
  }

  /** Case does not matter. */
  lemma EitherCase(s: string, t: string)
    requires |s| == |t| && forall i :: 0 <= i < |s| ==> Lower(s[i]) == Lower(t[i])
    ensures Decoded(CODEC, s) == Decoded(CODEC, t)
  {
    ReadAlike(CODEC, s, t);
  }

  lemma SymbolOfValue(c: char)
    requires Value(c).Some?
    ensures Symbol(Value(c).value) == c <==> !('a' <= c <= 'z')
  {
  }

  /** Encoding so far: the digits put out, and the bits still held. */
  ghost predicate Encoding(done: seq<byte>, ds: seq<nat>, bits: nat, nb: nat) {
    && bits < WORD
    && 5 * |ds| + nb == 8 * |done|
    && (forall i :: 0 <= i < |ds| ==> ds[i] < 32)
    && Held(BeVal(done), Val(ds, 32), bits, nb)
  }

  lemma EncodingByte(done: seq<byte>, ds: seq<nat>, bits: nat, nb: nat, x: byte)
    requires Encoding(done, ds, bits, nb) && nb < 5
    ensures Encoding(done + [x], ds, (bits * 256 + x) % WORD, nb + 8)
  {
    hide Held, Val, BeVal;
    Pow2Small();
    BeValStep(done, x);
    HeldIn(BeVal(done), Val(ds, 32), bits, nb, x, 8);
  }

  lemma EncodingSymbol(done: seq<byte>, ds: seq<nat>, bits: nat, nb: nat)
    requires Encoding(done, ds, bits, nb) && nb >= 5
    ensures var d := (bits / Pow2(nb - 5)) % 32;
            Encoding(done, ds + [d], bits, nb - 5)
  {
    hide Held, Val, BeVal;
    Pow2Small();
    HeldOut(BeVal(done), Val(ds, 32), bits, nb, 5);
    ValAppend(ds, (bits / Pow2(nb - 5)) % 32, 32);
  }

  lemma EncodingWhole(data: seq<byte>, ds: seq<nat>, bits: nat)
    requires Encoding(data, ds, bits, 0)
    ensures ds == ToDigits(5, data)
  {
    hide Val, BeVal, ToDigits, PadBits, DigitCount;
    Pow2Small();
    PadUnique(5, |data|, |ds|, 0);
    assert bits % 1 == 0;
    DigitsAre(5, data, ds);
  }

  lemma EncodingRest(data: seq<byte>, ds: seq<nat>, bits: nat, nb: nat)
    requires Encoding(data, ds, bits, nb) && 0 < nb < 5
    ensures var d := ((bits * Pow2(5 - nb)) % WORD) % 32;
            ds + [d] == ToDigits(5, data) && d < 32
  {
    hide Held, Val, BeVal, ToDigits, PadBits, DigitCount;
    var d := ((bits * Pow2(5 - nb)) % WORD) % 32;
    Pow2Small();
    HeldLast(BeVal(data), Val(ds, 32), bits, nb, 5);
    ValAppend(ds, d, 32);
    PadUnique(5, |data|, |ds| + 1, 5 - nb);
    DigitsAre(5, data, ds + [d]);
  }

  lemma EncodingStart()
    ensures Encoding([], [], 0, 0)
  {
  }

  method ByteIn(bits: nat, x: byte) returns (word: nat)
    ensures word == (bits * 256 + x) % WORD
  {
    Pow2Small();
    word := ShiftIn(bits, x, 8);
  }

  method SymbolIn(bits: nat, d: nat) returns (word: nat)
    requires d < 32
    ensures word == (bits * 32 + d) % WORD
  {
    Pow2Small();
    word := ShiftIn(bits, d, 5);
  }

  method TopSymbol(bits: nat, nb: nat) returns (d: nat)
    ensures d == (bits / Pow2(nb)) % 32
  {
    Pow2Small();
    d := LowBits(bits / Pow2(nb), 5);
  }

  method LastSymbol(bits: nat, nb: nat) returns (d: nat)
    requires nb <= 5
    ensures d == ((bits * Pow2(5 - nb)) % WORD) % 32
  {
    Pow2Small();
    d := LowBits((bits * Pow2(5 - nb)) % WORD, 5);
  }

  /** What is shifted out of the accumulator never counts. */
  method Encode(data: seq<byte>) returns (result: string)
    ensures result == Encoded(CODEC, data)
  {
    hide Encoding, Text, Pow2, ToDigits;
    result := [];
    var bits: nat, numBits: nat := 0, 0;
    ghost var ds: seq<nat> := [];
    EncodingStart();
    assert result == Text(CODEC, ds);
    for i := 0 to |data|
      invariant numBits < 5 && result == Text(CODEC, ds) && Encoding(data[..i], ds, bits, numBits)
    {
      EncodingByte(data[..i], ds, bits, numBits, data[i]);
      assert data[..i + 1] == data[..i] + [data[i]];
      bits := ByteIn(bits, data[i]);
      numBits := numBits + 8;
      while numBits >= 5
        invariant result == Text(CODEC, ds) && Encoding(data[..i + 1], ds, bits, numBits)
      {
        EncodingSymbol(data[..i + 1], ds, bits, numBits);
        numBits := numBits - 5;
        var d := TopSymbol(bits, numBits);
        TextAppend(CODEC, ds, d);
        result := result + [Symbol(d)];
        ds := ds + [d];
      }
    }
    assert data[..|data|] == data;
    if numBits > 0 {
      EncodingRest(data, ds, bits, numBits);
      var d := LastSymbol(bits, numBits);
      TextAppend(CODEC, ds, d);
      result := result + [Symbol(d)];
    } else {
      EncodingWhole(data, ds, bits);
    }
    result := Pad(result);
  }

  method Pad(text: string) returns (result: string)
    ensures result == Padded(CODEC, text)
  {
    result := text;
    ghost var n := 0;
    while |result| % 8 != 0
      invariant n <= Fill(8, |text|) && result == text + seq(n, _ => '=')
      decreases Fill(8, |text|) - n
    {
      result := result + ['='];
      n := n + 1;
    }
  }

  /** Decoding so far: the bytes put out, and the bits still held. */
  ghost predicate Decoding(ds: seq<nat>, done: seq<byte>, bits: nat, nb: nat) {
    && bits < WORD
    && 8 * |done| + nb == 5 * |ds|
    && Held(Val(ds, 32), BeVal(done), bits, nb)
  }

  lemma DecodingSymbol(ds: seq<nat>, done: seq<byte>, bits: nat, nb: nat, d: nat)
    requires Decoding(ds, done, bits, nb) && nb < 8 && d < 32
    ensures Decoding(ds + [d], done, (bits * 32 + d) % WORD, nb + 5)
  {
    hide Held, Val, BeVal;
    Pow2Small();
    ValAppend(ds, d, 32);
    HeldIn(Val(ds, 32), BeVal(done), bits, nb, d, 5);
  }

  lemma DecodingByte(ds: seq<nat>, done: seq<byte>, bits: nat, nb: nat)
    requires Decoding(ds, done, bits, nb) && nb >= 8
    ensures var x := (bits / Pow2(nb - 8)) % 256;
            Decoding(ds, done + [x], bits, nb - 8)
  {
    hide Held, Val, BeVal;
    Pow2Small();
    HeldOut(Val(ds, 32), BeVal(done), bits, nb, 8);
    BeValStep(done, (bits / Pow2(nb - 8)) % 256);
  }

  lemma DecodingEnd(ds: seq<nat>, done: seq<byte>, bits: nat, nb: nat)
    requires Decoding(ds, done, bits, nb) && nb < 8
    ensures done == FromDigits(5, ds)
  {
    hide Val, BeVal, BeBytes, Pow2;
    Pow2Small();
    DivModUnique(5 * |ds|, 8, |done|, nb);
    var p := Pow2(nb);
    DivModUnique(Val(ds, 32), p, BeVal(done), bits % p);
    BytesAre(done, BeVal(done));
  }

  lemma DecodingStart()
    ensures Decoding([], [], 0, 0)
  {
  }

  method Decode(text: string) returns (r: Option<seq<byte>>)
    ensures r == Decoded(CODEC, text)
  {
    hide Decoding, Trim, FromDigits, Pow2;
    var s := Trim(text);
    var result: seq<byte> := [];
    var bits: nat, numBits: nat := 0, 0;
    DecodingStart();
    for i := 0 to |s|
      invariant numBits < 8 && Valid(CODEC, s[..i])
      invariant Decoding(DigitsIn(CODEC, s[..i]), result, bits, numBits)
    {
      var val := Value(s[i]);
      if val.None? {
        return None;
      }
      ghost var ds := DigitsIn(CODEC, s[..i]);
      assert DigitsIn(CODEC, s[..i + 1]) == ds + [val.value];
      DecodingSymbol(ds, result, bits, numBits, val.value);
      bits := SymbolIn(bits, val.value);
      numBits := numBits + 5;
      if numBits >= 8 {
        DecodingByte(ds + [val.value], result, bits, numBits);
        numBits := numBits - 8;
        result := result + [(bits / Pow2(numBits)) % 256];
      }
    }
    assert s[..|s|] == s;
    DecodingEnd(DigitsIn(CODEC, s), result, bits, numBits);
    r := Some(result);
  }
}
