/** Headers written are the headers read, and a header read depends on its own bytes only. */
module MsgpackHeads {
  import opened Arithmetic
  import opened Bytes
  import opened MsgpackFormat

  /** The width of the header behind a head; 0 for a bad one. */
  function HeadSize(h: Head): nat {
    match h
    case Scalar(_, n) => n
    case BadHead(_) => 0
    case _ => h.start
  }

  lemma HeadSizeInData(p: Platform, data: seq<byte>)
    requires data != []
    ensures var h := ReadHead(p, data);
            !h.BadHead? ==> 1 <= HeadSize(h) == 1 + FieldWidth(data[0]) <= |data|
  {
  }

  /** The same header bytes give the same head, whatever follows them. */
  lemma HeadStable(p: Platform, data: seq<byte>, other: seq<byte>)
    requires data != [] && !ReadHead(p, data).BadHead?
    requires |other| >= HeadSize(ReadHead(p, data))
    requires other[..HeadSize(ReadHead(p, data))] == data[..HeadSize(ReadHead(p, data))]
    ensures other != [] && ReadHead(p, other) == ReadHead(p, data)
  {
    HeadSizeInData(p, data);
    var n := FieldWidth(data[0]);
    assert other[0] == other[..1 + n][0] == data[..1 + n][0];
    assert other[1..1 + n] == other[..1 + n][1..] == data[..1 + n][1..] == data[1..1 + n];
  }

  /** A format byte followed by a big-endian field. */
  lemma FieldReadBack(tag: byte, v: nat, n: nat, rest: seq<byte>)
    requires v < Pow(256, n)
    ensures var data := [tag] + BeBytes(v, n) + rest;
            |data| >= 1 + n && data[0] == tag && Word(data, n) == v
  {
    var data := [tag] + BeBytes(v, n) + rest;
    assert data[1..1 + n] == BeBytes(v, n);
    BeValOfBytes(v, n);
  }

  lemma ByteReadBack(tag: byte, v: byte, rest: seq<byte>)
    ensures var data := [tag, v] + rest;
            |data| >= 2 && data[0] == tag && Word(data, 1) == v
  {
    var data := [tag, v] + rest;
    assert data[1..2] == [v];
    assert BeVal([v]) == v;
  }

  lemma AtomHeads(p: Platform, rest: seq<byte>)
    ensures ReadHead(p, [0xc0] + rest) == Scalar(Nil, 1)
    ensures ReadHead(p, [0xc2] + rest) == Scalar(Bool(false), 1)
    ensures ReadHead(p, [0xc3] + rest) == Scalar(Bool(true), 1)
  {
  }

  lemma UIntHead(p: Platform, v: u64, rest: seq<byte>)
    ensures ReadHead(p, EncodeUInt(v) + rest) == Scalar(UInt(v), |EncodeUInt(v)|)
  {
    Pow256Words();
    if v <= 127 {
    } else if v <= 0xFF {
      ByteReadBack(0xcc, v, rest);
    } else if v <= 0xFFFF {
      FieldReadBack(0xcd, v, 2, rest);
    } else if v <= 0xFFFF_FFFF {
      FieldReadBack(0xce, v, 4, rest);
    } else {
      FieldReadBack(0xcf, v, 8, rest);
    }
  }

  /** A non-negative signed value comes back as an unsigned one. */
  lemma IntHead(p: Platform, v: i64, rest: seq<byte>)
    ensures ReadHead(p, EncodeInt(v) + rest)
         == Scalar(if v >= 0 then UInt(v) else Int(v), |EncodeInt(v)|)
  {
    Pow256Words();
    if v >= 0 {
      UIntHead(p, v, rest);
    } else if v >= -32 {
      SignedCast(v, 0x100);
    } else if v >= -128 {
      SignedCast(v, 0x100);
      ByteReadBack(0xd0, v % 0x100, rest);
    } else if v >= -32768 {
      SignedCast(v, 0x1_0000);
      FieldReadBack(0xd1, v % 0x1_0000, 2, rest);
    } else if v >= -2_147_483_648 {
      SignedCast(v, 0x1_0000_0000);
      FieldReadBack(0xd2, v % 0x1_0000_0000, 4, rest);
    } else {
      SignedCast(v, 0x1_0000_0000_0000_0000);
      FieldReadBack(0xd3, v % 0x1_0000_0000_0000_0000, 8, rest);
    }
  }

  lemma FloatHead(p: Platform, bits: u64, rest: seq<byte>)
    ensures ReadHead(p, [0xcb] + BeBytes(bits, 8) + rest) == Scalar(Float(bits), 9)
  {
    Pow256Words();
    FieldReadBack(0xcb, bits, 8, rest);
  }

  /** The encoder writes no 32-bit float; one is read as what the platform widens it to. */
  lemma Float32Head(p: Platform, bits: u32, rest: seq<byte>)
    ensures ReadHead(p, [0xca] + BeBytes(bits, 4) + rest) == Scalar(Float(p.widen(bits)), 5)
  {
    Pow256Words();
    FieldReadBack(0xca, bits, 4, rest);
  }

  // ----- a number or a length is read from every width that holds it, chosen or not -----

  lemma UIntWidths(p: Platform, v: u64, rest: seq<byte>)
    ensures v < 0x100 ==> ReadHead(p, [0xcc] + BeBytes(v, 1) + rest) == Scalar(UInt(v), 2)
    ensures v < 0x1_0000 ==> ReadHead(p, [0xcd] + BeBytes(v, 2) + rest) == Scalar(UInt(v), 3)
    ensures v < U32 ==> ReadHead(p, [0xce] + BeBytes(v, 4) + rest) == Scalar(UInt(v), 5)
    ensures ReadHead(p, [0xcf] + BeBytes(v, 8) + rest) == Scalar(UInt(v), 9)
  {
    hide Word, BeBytes, Pow, Signed;
    Pow256Words();
    if v < 0x100 { FieldReadBack(0xcc, v, 1, rest); }
    if v < 0x1_0000 { FieldReadBack(0xcd, v, 2, rest); }
    if v < U32 { FieldReadBack(0xce, v, 4, rest); }
    FieldReadBack(0xcf, v, 8, rest);
  }

  lemma IntWidths(p: Platform, v: i64, rest: seq<byte>)
    ensures -0x80 <= v < 0x80 ==> ReadHead(p, [0xd0] + BeBytes(v % 0x100, 1) + rest) == Scalar(Int(v), 2)
    ensures -0x8000 <= v < 0x8000 ==> ReadHead(p, [0xd1] + BeBytes(v % 0x1_0000, 2) + rest) == Scalar(Int(v), 3)
    ensures -0x8000_0000 <= v < 0x8000_0000 ==>
              ReadHead(p, [0xd2] + BeBytes(v % U32, 4) + rest) == Scalar(Int(v), 5)
    ensures ReadHead(p, [0xd3] + BeBytes(v % 0x1_0000_0000_0000_0000, 8) + rest) == Scalar(Int(v), 9)
  {
    hide Word, BeBytes, Pow, Signed;
    Pow256Words();
    if -0x80 <= v < 0x80 {
      SignedCast(v, 0x100);
      FieldReadBack(0xd0, v % 0x100, 1, rest);
    }
    if -0x8000 <= v < 0x8000 {
      SignedCast(v, 0x1_0000);
      FieldReadBack(0xd1, v % 0x1_0000, 2, rest);
    }
    if -0x8000_0000 <= v < 0x8000_0000 {
      SignedCast(v, U32);
      FieldReadBack(0xd2, v % U32, 4, rest);
    }
    SignedCast(v, 0x1_0000_0000_0000_0000);
    FieldReadBack(0xd3, v % 0x1_0000_0000_0000_0000, 8, rest);
  }

  lemma ByteCountWidths(p: Platform, len: u32, rest: seq<byte>)
    ensures len < 0x100 ==> ReadHead(p, [0xc4] + BeBytes(len, 1) + rest) == BinHead(2, len)
    ensures len < 0x1_0000 ==> ReadHead(p, [0xc5] + BeBytes(len, 2) + rest) == BinHead(3, len)
    ensures ReadHead(p, [0xc6] + BeBytes(len, 4) + rest) == BinHead(5, len)
    ensures len < 0x100 ==> ReadHead(p, [0xd9] + BeBytes(len, 1) + rest) == StrHead(2, len)
    ensures len < 0x1_0000 ==> ReadHead(p, [0xda] + BeBytes(len, 2) + rest) == StrHead(3, len)
    ensures ReadHead(p, [0xdb] + BeBytes(len, 4) + rest) == StrHead(5, len)
  {
    hide Word, BeBytes, Pow, Signed;
    Pow256Words();
    if len < 0x100 {
      FieldReadBack(0xc4, len, 1, rest);
      FieldReadBack(0xd9, len, 1, rest);
    }
    if len < 0x1_0000 {
      FieldReadBack(0xc5, len, 2, rest);
      FieldReadBack(0xda, len, 2, rest);
    }
    FieldReadBack(0xc6, len, 4, rest);
    FieldReadBack(0xdb, len, 4, rest);
  }

  lemma ItemCountWidths(p: Platform, len: u32, rest: seq<byte>)
    ensures len < 0x1_0000 ==> ReadHead(p, [0xdc] + BeBytes(len, 2) + rest) == ArrayHead(3, len)
    ensures ReadHead(p, [0xdd] + BeBytes(len, 4) + rest) == ArrayHead(5, len)
    ensures len < 0x1_0000 ==> ReadHead(p, [0xde] + BeBytes(len, 2) + rest) == MapHead(3, len)
    ensures ReadHead(p, [0xdf] + BeBytes(len, 4) + rest) == MapHead(5, len)
  {
    hide Word, BeBytes, Pow, Signed;
    Pow256Words();
    if len < 0x1_0000 {
      FieldReadBack(0xdc, len, 2, rest);
      FieldReadBack(0xde, len, 2, rest);
    }
    FieldReadBack(0xdd, len, 4, rest);
    FieldReadBack(0xdf, len, 4, rest);
  }

  /** A header cut short is an early end of input; the formats without a meaning here are
      refused whatever follows. */
  lemma ShortHead(p: Platform, data: seq<byte>, k: nat)
    requires data != [] && !ReadHead(p, data).BadHead? && 0 < k < HeadSize(ReadHead(p, data))
    ensures k < |data| && ReadHead(p, data[..k]) == BadHead(UnexpectedEof)
  {
    HeadSizeInData(p, data);
  }

  lemma UnsupportedIff(p: Platform, b: byte, rest: seq<byte>)
    ensures ReadHead(p, [b] + rest) == BadHead(UnsupportedFormat(b))
       <==> b == 0xc1 || 0xc7 <= b <= 0xc9 || 0xd4 <= b <= 0xd8
  {
  }

  /** Every length is read back modulo 2^32. */
  lemma BinHeaderHead(p: Platform, len: nat, rest: seq<byte>)
    ensures ReadHead(p, BinHeader(len) + rest) == BinHead(|BinHeader(len)|, len % U32)
  {
    Pow256Words();
    if len <= 0xFF {
      ByteReadBack(0xc4, len, rest);
    } else if len <= 0xFFFF {
      FieldReadBack(0xc5, len, 2, rest);
    } else {
      FieldReadBack(0xc6, len % U32, 4, rest);
    }
  }

  lemma StrHeaderHead(p: Platform, len: nat, rest: seq<byte>)
    ensures ReadHead(p, StrHeader(len) + rest) == StrHead(|StrHeader(len)|, len % U32)
  {
    Pow256Words();
    if 31 < len <= 0xFF {
      ByteReadBack(0xd9, len, rest);
    } else if 0xFF < len <= 0xFFFF {
      FieldReadBack(0xda, len, 2, rest);
    } else if len > 0xFFFF {
      FieldReadBack(0xdb, len % U32, 4, rest);
    }
  }

  lemma ArrayHeaderHead(p: Platform, len: nat, rest: seq<byte>)
    ensures ReadHead(p, ArrayHeader(len) + rest) == ArrayHead(|ArrayHeader(len)|, len % U32)
  {
    Pow256Words();
    if 15 < len <= 0xFFFF {
      FieldReadBack(0xdc, len, 2, rest);
    } else if len > 0xFFFF {
      FieldReadBack(0xdd, len % U32, 4, rest);
    }
  }

  lemma MapHeaderHead(p: Platform, len: nat, rest: seq<byte>)
    ensures ReadHead(p, MapHeader(len) + rest) == MapHead(|MapHeader(len)|, len % U32)
  {
    Pow256Words();
    if 15 < len <= 0xFFFF {
      FieldReadBack(0xde, len, 2, rest);
    } else if len > 0xFFFF {
      FieldReadBack(0xdf, len % U32, 4, rest);
    }
  }

  // ----- no header read is shorter than the one the encoder would write -----

  lemma ScalarShortest(p: Platform, data: seq<byte>)
    requires data != []
    ensures var h := ReadHead(p, data);
            && (h.Scalar? ==> h.used >= 1 && (h.v.Nil? || h.v.Bool? || h.v.UInt? || h.v.Int? || h.v.Float?))
            && (h.Scalar? && h.v.UInt? ==> |EncodeUInt(h.v.u)| <= h.used)
            && (h.Scalar? && h.v.Int? ==> |EncodeInt(h.v.i)| <= h.used)
            && (h.Scalar? && h.v.Float? ==> h.used == if data[0] == 0xca then 5 else 9)
  {
    WordBounds(data);
  }

  lemma LengthShortest(p: Platform, data: seq<byte>)
    requires data != []
    ensures var h := ReadHead(p, data);
            && (h.BinHead? ==> h.len < U32 && |BinHeader(h.len)| <= h.start)
            && (h.StrHead? ==> h.len < U32 && |StrHeader(h.len)| <= h.start)
            && (h.ArrayHead? ==> h.len < U32 && |ArrayHeader(h.len)| <= h.start)
            && (h.MapHead? ==> h.len < U32 && |MapHeader(h.len)| <= h.start)
  {
    hide ReadHead, BinHeader, StrHeader, ArrayHeader, MapHeader;
    BytesShortest(p, data);
    CountShortest(p, data);
  }

  lemma BytesShortest(p: Platform, data: seq<byte>)
    requires data != []
    ensures var h := ReadHead(p, data);
            && (h.BinHead? ==> h.len < U32 && |BinHeader(h.len)| <= h.start)
            && (h.StrHead? ==> h.len < U32 && |StrHeader(h.len)| <= h.start)
  {
    hide Word, BeBytes;
    WordBounds(data);
  }

  lemma CountShortest(p: Platform, data: seq<byte>)
    requires data != []
    ensures var h := ReadHead(p, data);
            && (h.ArrayHead? ==> h.len < U32 && |ArrayHeader(h.len)| <= h.start)
            && (h.MapHead? ==> h.len < U32 && |MapHeader(h.len)| <= h.start)
  {
    hide Word, BeBytes;
    WordBounds(data);
  }
}
