/** The msgpack codec inside rnsh: a second, smaller one, that reads by position and
    keeps every integer signed. */
module RnshCodec {
  import opened Bytes

  type i64 = x: int | -0x8000_0000_0000_0000 <= x < 0x8000_0000_0000_0000

  const U16: nat := 0x1_0000
  const U32: nat := 0x1_0000_0000
  const U64: nat := 0x1_0000_0000_0000_0000

  /** Strings are held as their UTF-8 bytes. */
  datatype MsgValue =
    | Nil
    | Bool(b: bool)
    | Int(i: i64)
    | String(text: seq<byte>)
    | Bytes(data: seq<byte>)
    | Array(items: seq<MsgValue>)
    | Map(pairs: seq<Pair>)

  datatype Pair = Pair(key: MsgValue, val: MsgValue)

  datatype CodecError =
    | Truncated
    | TruncatedString
    | TruncatedBytes
    | TruncatedInteger
    | InvalidUtf8
    | UnsupportedTag(tag: byte)
    | TrailingData

  datatype Decoded<T> = Ok(value: T, next: nat) | Err(error: CodecError)

  type Utf8 = seq<byte> -> bool

  // ----- packing -----

  function PackInt(v: i64): (s: seq<byte>)
    ensures |s| >= 1
  {
    if 0 <= v <= 0x7f then [v]
    else if -32 <= v < 0 then [v % 0x100]
    else if -0x80 <= v <= 0x7f then [0xd0, v % 0x100]
    else if -0x8000 <= v <= 0x7fff then [0xd1] + BeBytes(v % U16, 2)
    else if -0x8000_0000 <= v <= 0x7fff_ffff then [0xd2] + BeBytes(v % U32, 4)
    else [0xd3] + BeBytes(v % U64, 8)
  }

  function StringHeader(len: nat): (s: seq<byte>)
    ensures |s| >= 1
  {
    if len < 32 then [0xa0 + len]
    else if len <= 0xFF then [0xd9, len]
    else if len <= 0xFFFF then [0xda] + BeBytes(len, 2)
    else [0xdb] + BeBytes(len % U32, 4)
  }

  function BytesHeader(len: nat): (s: seq<byte>)
    ensures |s| >= 1
  {
    if len <= 0xFF then [0xc4, len]
    else if len <= 0xFFFF then [0xc5] + BeBytes(len, 2)
    else [0xc6] + BeBytes(len % U32, 4)
  }

  function ArrayHeader(len: nat): (s: seq<byte>)
    ensures |s| >= 1
  {
    if len < 16 then [0x90 + len]
    else if len <= 0xFFFF then [0xdc] + BeBytes(len, 2)
    else [0xdd] + BeBytes(len % U32, 4)
  }

  /** Unlike the others, a map header has no 32-bit form: the count is cut to 16 bits. */
  function MapHeader(len: nat): (s: seq<byte>)
    ensures |s| >= 1
  {
    if len < 16 then [0x80 + len] else [0xde] + BeBytes(len % U16, 2)
  }

  function Pack(v: MsgValue): (s: seq<byte>)
    ensures |s| >= 1
    decreases v
  {
    match v
    case Nil => [0xc0]
    case Bool(b) => if b then [0xc3] else [0xc2]
    case Int(i) => PackInt(i)
    case String(text) => StringHeader(|text|) + text
    case Bytes(data) => BytesHeader(|data|) + data
    case Array(items) => ArrayHeader(|items|) + PackItems(items)
    case Map(pairs) => MapHeader(|pairs|) + PackPairs(pairs)
  }

  function PackItems(vs: seq<MsgValue>): seq<byte>
    decreases vs
  {
    if vs == [] then [] else Pack(vs[0]) + PackItems(vs[1..])
  }

  function PackPairs(ps: seq<Pair>): seq<byte>
    decreases ps
  {
    if ps == [] then []
    else
      var Pair(k, v) := ps[0];
      assert (ps decreases to ps[0]) && (ps[0] decreases to k) && (ps[0] decreases to v);
      Pack(k) + Pack(v) + PackPairs(ps[1..])
  }

  // ----- reading -----

  datatype Tag =
    | Whole(v: MsgValue, next: nat)
    | StringTag(at: nat, len: nat)
    | BytesTag(at: nat, len: nat)
    | ArrayTag(at: nat, len: nat)
    | MapTag(at: nat, len: nat)
    | BadTag(e: CodecError)

  function FieldWidth(tag: byte): nat {
    if tag == 0xc4 || tag == 0xcc || tag == 0xd0 || tag == 0xd9 then 1
    else if tag == 0xc5 || tag == 0xcd || tag == 0xd1 || tag == 0xda || tag == 0xdc || tag == 0xde then 2
    else if tag == 0xc6 || tag == 0xce || tag == 0xd2 || tag == 0xdb || tag == 0xdd || tag == 0xdf then 4
    else if tag == 0xcf || tag == 0xd3 then 8
    else 0
  }

  /** The n-byte field behind the tag at pos. */
  function Field(raw: seq<byte>, pos: nat, n: nat): nat
    requires pos + 1 + n <= |raw|
  {
    BeVal(raw[pos + 1..pos + 1 + n])
  }

  lemma FieldBounds(raw: seq<byte>, pos: nat)
    requires pos < |raw|
    ensures pos + 2 <= |raw| ==> Field(raw, pos, 1) < 0x100
    ensures pos + 3 <= |raw| ==> Field(raw, pos, 2) < U16
    ensures pos + 5 <= |raw| ==> Field(raw, pos, 4) < U32
    ensures pos + 9 <= |raw| ==> Field(raw, pos, 8) < U64
  {
    Pow256Words();
    if pos + 2 <= |raw| { BeValBound(raw[pos + 1..pos + 2]); }
    if pos + 3 <= |raw| { BeValBound(raw[pos + 1..pos + 3]); }
    if pos + 5 <= |raw| { BeValBound(raw[pos + 1..pos + 5]); }
    if pos + 9 <= |raw| { BeValBound(raw[pos + 1..pos + 9]); }
  }

  function ReadTag(raw: seq<byte>, pos: nat): (t: Tag)
    requires pos < |raw|
    ensures t.Whole? ==> pos < t.next <= |raw|
    ensures t.StringTag? || t.BytesTag? || t.ArrayTag? || t.MapTag? ==> pos < t.at <= |raw|
  {
    FieldBounds(raw, pos);
    var tag := raw[pos];
    if tag <= 0x7f then Whole(Int(tag), pos + 1)
    else if tag <= 0x8f then MapTag(pos + 1, tag % 0x10)
    else if tag <= 0x9f then ArrayTag(pos + 1, tag % 0x10)
    else if tag <= 0xbf then StringTag(pos + 1, tag % 0x20)
    else if tag >= 0xe0 then Whole(Int(Signed(tag, 0x100)), pos + 1)
    else if tag == 0xc0 then Whole(Nil, pos + 1)
    else if tag == 0xc2 then Whole(Bool(false), pos + 1)
    else if tag == 0xc3 then Whole(Bool(true), pos + 1)
    else if pos + 1 + FieldWidth(tag) > |raw| then BadTag(TruncatedInteger)
    else if tag == 0xc4 then BytesTag(pos + 2, Field(raw, pos, 1))
    else if tag == 0xc5 then BytesTag(pos + 3, Field(raw, pos, 2))
    else if tag == 0xc6 then BytesTag(pos + 5, Field(raw, pos, 4))
    else if tag == 0xcc then Whole(Int(Field(raw, pos, 1)), pos + 2)
    else if tag == 0xcd then Whole(Int(Field(raw, pos, 2)), pos + 3)
    else if tag == 0xce then Whole(Int(Field(raw, pos, 4)), pos + 5)
    else if tag == 0xcf then Whole(Int(Signed(Field(raw, pos, 8), U64)), pos + 9)
    else if tag == 0xd0 then Whole(Int(Signed(Field(raw, pos, 1), 0x100)), pos + 2)
    else if tag == 0xd1 then Whole(Int(Signed(Field(raw, pos, 2), U16)), pos + 3)
    else if tag == 0xd2 then Whole(Int(Signed(Field(raw, pos, 4), U32)), pos + 5)
    else if tag == 0xd3 then Whole(Int(Signed(Field(raw, pos, 8), U64)), pos + 9)
    else if tag == 0xd9 then StringTag(pos + 2, Field(raw, pos, 1))
    else if tag == 0xda then StringTag(pos + 3, Field(raw, pos, 2))
    else if tag == 0xdb then StringTag(pos + 5, Field(raw, pos, 4))
    else if tag == 0xdc then ArrayTag(pos + 3, Field(raw, pos, 2))
    else if tag == 0xdd then ArrayTag(pos + 5, Field(raw, pos, 4))
    else if tag == 0xde then MapTag(pos + 3, Field(raw, pos, 2))
    else if tag == 0xdf then MapTag(pos + 5, Field(raw, pos, 4))
    else BadTag(UnsupportedTag(tag))
  }

  /** The value at a position and the position behind it, which is always further on. */
  function UnpackAt(utf8: Utf8, raw: seq<byte>, pos: nat): (r: Decoded<MsgValue>)
    requires pos <= |raw|
    ensures r.Ok? ==> pos < r.next <= |raw|
    decreases |raw| - pos, 0
  {
    if pos == |raw| then Err(Truncated)
    else
      match ReadTag(raw, pos)
      case Whole(v, next) => Ok(v, next)
      case BadTag(e) => Err(e)
      case StringTag(at, len) =>
        if at + len > |raw| then Err(TruncatedString)
        else if !utf8(raw[at..at + len]) then Err(InvalidUtf8)
        else Ok(String(raw[at..at + len]), at + len)
      case BytesTag(at, len) =>
        if at + len > |raw| then Err(TruncatedBytes) else Ok(Bytes(raw[at..at + len]), at + len)
      case ArrayTag(at, len) =>
        (match UnpackItems(utf8, raw, at, len)
         case Err(e) => Err(e)
         case Ok(vs, next) => Ok(Array(vs), next))
      case MapTag(at, len) =>
        (match UnpackPairs(utf8, raw, at, len)
         case Err(e) => Err(e)
         case Ok(ps, next) => Ok(Map(ps), next))
  }

  function UnpackItems(utf8: Utf8, raw: seq<byte>, pos: nat, len: nat): (r: Decoded<seq<MsgValue>>)
    requires pos <= |raw|
    ensures r.Ok? ==> pos + len <= r.next <= |raw| && |r.value| == len
    decreases |raw| - pos, 2
  {
    if len == 0 then Ok([], pos)
    else
      match UnpackAt(utf8, raw, pos)
      case Err(e) => Err(e)
      case Ok(v, next) =>
        (match UnpackItems(utf8, raw, next, len - 1)
         case Err(e) => Err(e)
         case Ok(vs, end) => Ok([v] + vs, end))
  }

  function UnpackPair(utf8: Utf8, raw: seq<byte>, pos: nat): (r: Decoded<Pair>)
    requires pos <= |raw|
    ensures r.Ok? ==> pos < r.next <= |raw|
    decreases |raw| - pos, 1
  {
    match UnpackAt(utf8, raw, pos)
    case Err(e) => Err(e)
    case Ok(k, next) =>
      (match UnpackAt(utf8, raw, next)
       case Err(e) => Err(e)
       case Ok(v, end) => Ok(Pair(k, v), end))
  }

  function UnpackPairs(utf8: Utf8, raw: seq<byte>, pos: nat, len: nat): (r: Decoded<seq<Pair>>)
    requires pos <= |raw|
    ensures r.Ok? ==> pos <= r.next <= |raw| && |r.value| == len
    decreases |raw| - pos, 2
  {
    if len == 0 then Ok([], pos)
    else
      match UnpackPair(utf8, raw, pos)
      case Err(e) => Err(e)
      case Ok(p, next) =>
        (match UnpackPairs(utf8, raw, next, len - 1)
         case Err(e) => Err(e)
         case Ok(ps, end) => Ok([p] + ps, end))
  }

  function Unpack(utf8: Utf8, raw: seq<byte>): Decoded<MsgValue> {
    match UnpackAt(utf8, raw, 0)
    case Err(e) => Err(e)
    case Ok(v, next) => if next != |raw| then Err(TrailingData) else Ok(v, next)
  }
}
