/** The MessagePack formats of the rns-core codec: which header the encoder picks
    for a value, and what the decoder reads back from a header. */
module MsgpackFormat {
  import opened Bytes

  type u64 = x: int | 0 <= x < 0x1_0000_0000_0000_0000
  type u32 = x: int | 0 <= x < 0x1_0000_0000
  type i64 = x: int | -0x8000_0000_0000_0000 <= x < 0x8000_0000_0000_0000

  const U32: nat := 0x1_0000_0000

  /** A float is held as its 64-bit pattern, a string as its UTF-8 bytes. */
  datatype Value =
    | Nil
    | Bool(b: bool)
    | UInt(u: u64)
    | Int(i: i64)
    | Float(bits: u64)
    | Bin(data: seq<byte>)
    | Str(text: seq<byte>)
    | Array(items: seq<Value>)
    | Map(entries: seq<Entry>)

  datatype Entry = Entry(key: Value, val: Value)

  datatype Error = UnexpectedEof | UnsupportedFormat(b: byte) | InvalidUtf8 | TrailingData | MaxDepthExceeded

  /** What the codec takes from its platform: UTF-8 validity and the widening of a
      32-bit float pattern to 64 bits. */
  datatype Platform = Platform(isUtf8: seq<byte> -> bool, widen: u32 -> u64)

  // ----- headers written -----
  //
  // A fix tag such as 0x90 has its low bits free. The code joins tag and length with `|`
  // and splits them with a mask; here that is a sum and a remainder.

  function EncodeUInt(v: u64): (s: seq<byte>)
    ensures 1 <= |s| <= 9
  {
    if v <= 127 then [v]
    else if v <= 0xFF then [0xcc, v]
    else if v <= 0xFFFF then [0xcd] + BeBytes(v, 2)
    else if v <= 0xFFFF_FFFF then [0xce] + BeBytes(v, 4)
    else [0xcf] + BeBytes(v, 8)
  }

  /** Casting a negative number to an unsigned word is taking it modulo the word. */
  function EncodeInt(v: i64): (s: seq<byte>)
    ensures 1 <= |s| <= 9
  {
    if v >= 0 then EncodeUInt(v)
    else if v >= -32 then [v % 0x100]
    else if v >= -128 then [0xd0, v % 0x100]
    else if v >= -32768 then [0xd1] + BeBytes(v % 0x1_0000, 2)
    else if v >= -2_147_483_648 then [0xd2] + BeBytes(v % 0x1_0000_0000, 4)
    else [0xd3] + BeBytes(v % 0x1_0000_0000_0000_0000, 8)
  }

  function BinHeader(len: nat): (s: seq<byte>)
    ensures 2 <= |s| <= 5
  {
    if len <= 0xFF then [0xc4, len]
    else if len <= 0xFFFF then [0xc5] + BeBytes(len, 2)
    else [0xc6] + BeBytes(len % U32, 4)
  }

  function StrHeader(len: nat): (s: seq<byte>)
    ensures 1 <= |s| <= 5
  {
    if len <= 31 then [0xa0 + len]
    else if len <= 0xFF then [0xd9, len]
    else if len <= 0xFFFF then [0xda] + BeBytes(len, 2)
    else [0xdb] + BeBytes(len % U32, 4)
  }

  function ArrayHeader(len: nat): (s: seq<byte>)
    ensures 1 <= |s| <= 5
  {
    if len <= 15 then [0x90 + len]
    else if len <= 0xFFFF then [0xdc] + BeBytes(len, 2)
    else [0xdd] + BeBytes(len % U32, 4)
  }

  function MapHeader(len: nat): (s: seq<byte>)
    ensures 1 <= |s| <= 5
  {
    if len <= 15 then [0x80 + len]
    else if len <= 0xFFFF then [0xde] + BeBytes(len, 2)
    else [0xdf] + BeBytes(len % U32, 4)
  }

  // ----- headers read -----

  /** The first bytes of an item: a whole scalar, or where a payload starts and how
      many bytes, values or pairs of values it has. */
  datatype Head =
    | Scalar(v: Value, used: nat)
    | BinHead(start: nat, len: nat)
    | StrHead(start: nat, len: nat)
    | ArrayHead(start: nat, len: nat)
    | MapHead(start: nat, len: nat)
    | BadHead(e: Error)

  /** The unsigned word in data[1..1 + n], once `ensure_len` has passed. */
  function Word(data: seq<byte>, n: nat): (w: nat)
    requires |data| >= 1 + n
  {
    BeVal(data[1..1 + n])
  }

  lemma WordBounds(data: seq<byte>)
    ensures |data| >= 2 ==> Word(data, 1) < 0x100
    ensures |data| >= 3 ==> Word(data, 2) < 0x1_0000
    ensures |data| >= 5 ==> Word(data, 4) < 0x1_0000_0000
    ensures |data| >= 9 ==> Word(data, 8) < 0x1_0000_0000_0000_0000
  {
    Pow256Words();
    if |data| >= 2 { BeValBound(data[1..2]); }
    if |data| >= 3 { BeValBound(data[1..3]); }
    if |data| >= 5 { BeValBound(data[1..5]); }
    if |data| >= 9 { BeValBound(data[1..9]); }
  }

  function ReadHead(p: Platform, data: seq<byte>): (h: Head)
    requires data != []
  {
    WordBounds(data);
    var b := data[0];
    var eof := BadHead(UnexpectedEof);
    if b <= 0x7f then Scalar(UInt(b), 1)
    else if b <= 0x8f then MapHead(1, b % 0x10)
    else if b <= 0x9f then ArrayHead(1, b % 0x10)
    else if b <= 0xbf then StrHead(1, b % 0x20)
    else if b >= 0xe0 then Scalar(Int(Signed(b, 0x100)), 1)
    else if b == 0xc0 then Scalar(Nil, 1)
    else if b == 0xc2 then Scalar(Bool(false), 1)
    else if b == 0xc3 then Scalar(Bool(true), 1)
    else if |data| < 1 + FieldWidth(b) then eof
    else if b == 0xca then Scalar(Float(p.widen(Word(data, 4))), 5)
    else if b == 0xcb then Scalar(Float(Word(data, 8)), 9)
    else if b == 0xc4 then BinHead(2, Word(data, 1))
    else if b == 0xc5 then BinHead(3, Word(data, 2))
    else if b == 0xc6 then BinHead(5, Word(data, 4))
    else if b == 0xcc then Scalar(UInt(Word(data, 1)), 2)
    else if b == 0xcd then Scalar(UInt(Word(data, 2)), 3)
    else if b == 0xce then Scalar(UInt(Word(data, 4)), 5)
    else if b == 0xcf then Scalar(UInt(Word(data, 8)), 9)
    else if b == 0xd0 then Scalar(Int(Signed(Word(data, 1), 0x100)), 2)
    else if b == 0xd1 then Scalar(Int(Signed(Word(data, 2), 0x1_0000)), 3)
    else if b == 0xd2 then Scalar(Int(Signed(Word(data, 4), 0x1_0000_0000)), 5)
    else if b == 0xd3 then Scalar(Int(Signed(Word(data, 8), 0x1_0000_0000_0000_0000)), 9)
    else if b == 0xd9 then StrHead(2, Word(data, 1))
    else if b == 0xda then StrHead(3, Word(data, 2))
    else if b == 0xdb then StrHead(5, Word(data, 4))
    else if b == 0xdc then ArrayHead(3, Word(data, 2))
    else if b == 0xdd then ArrayHead(5, Word(data, 4))
    else if b == 0xde then MapHead(3, Word(data, 2))
    else if b == 0xdf then MapHead(5, Word(data, 4))
    else BadHead(UnsupportedFormat(b))
  }

  /** The number of bytes that follow the format byte in its header; 0 for the formats
      the decoder does not support, which are refused whatever follows. */
  function FieldWidth(b: byte): (n: nat) {
    if b == 0xc4 || b == 0xcc || b == 0xd0 || b == 0xd9 then 1
    else if b == 0xc5 || b == 0xcd || b == 0xd1 || b == 0xda || b == 0xdc || b == 0xde then 2
    else if b == 0xc6 || b == 0xca || b == 0xce || b == 0xd2 || b == 0xdb || b == 0xdd || b == 0xdf then 4
    else if b == 0xcb || b == 0xcf || b == 0xd3 then 8
    else 0
  }
}
