/** Packing and unpacking rnsh values: exact, and exactly when the lengths fit. */
module RnshRoundTrip {
  import opened Arithmetic
  import opened Bytes
  import opened RnshCodec

  /** The bytes s stand at a position. */
  ghost predicate HasAt(raw: seq<byte>, pos: nat, s: seq<byte>) {
    pos + |s| <= |raw| && raw[pos..pos + |s|] == s
  }

  lemma HasAtSplit(raw: seq<byte>, pos: nat, a: seq<byte>, b: seq<byte>)
    requires HasAt(raw, pos, a + b)
    ensures HasAt(raw, pos, a) && HasAt(raw, pos + |a|, b)
  {
    var s := raw[pos..pos + |a + b|];
    assert raw[pos..pos + |a|] == s[..|a|];
    assert raw[pos + |a|..pos + |a| + |b|] == s[|a|..];
  }

  // ----- tags -----

  lemma FieldAt(raw: seq<byte>, pos: nat, tag: byte, v: nat, n: nat)
    requires HasAt(raw, pos, [tag] + BeBytes(v, n)) && v < Pow(256, n)
    ensures raw[pos] == tag && Field(raw, pos, n) == v
  {
    HasAtSplit(raw, pos, [tag], BeBytes(v, n));
    assert raw[pos] == raw[pos..pos + 1][0];
    BeValOfBytes(v, n);
  }

  lemma ByteAt(raw: seq<byte>, pos: nat, tag: byte, v: byte)
    requires HasAt(raw, pos, [tag, v])
    ensures raw[pos] == tag && Field(raw, pos, 1) == v
  {
    assert raw[pos] == raw[pos..pos + 2][0] && raw[pos + 1] == raw[pos..pos + 2][1];
    assert raw[pos + 1..pos + 2] == [v] && BeVal([v]) == v;
  }

  lemma TagAt(raw: seq<byte>, pos: nat, tag: byte)
    requires HasAt(raw, pos, [tag])
    ensures raw[pos] == tag
  {
    assert raw[pos] == raw[pos..pos + 1][0];
  }

  lemma IntTag(raw: seq<byte>, pos: nat, v: i64)
    requires HasAt(raw, pos, PackInt(v))
    ensures ReadTag(raw, pos) == Whole(Int(v), pos + |PackInt(v)|)
  {
    Pow256Words();
    if 0 <= v <= 0x7f {
      TagAt(raw, pos, v);
    } else if -32 <= v < 0 {
      SignedCast(v, 0x100);
      TagAt(raw, pos, v % 0x100);
    } else if -0x80 <= v <= 0x7f {
      SignedCast(v, 0x100);
      ByteAt(raw, pos, 0xd0, v % 0x100);
    } else if -0x8000 <= v <= 0x7fff {
      SignedCast(v, U16);
      FieldAt(raw, pos, 0xd1, v % U16, 2);
    } else if -0x8000_0000 <= v <= 0x7fff_ffff {
      SignedCast(v, U32);
      FieldAt(raw, pos, 0xd2, v % U32, 4);
    } else {
      SignedCast(v, U64);
      FieldAt(raw, pos, 0xd3, v % U64, 8);
    }
  }

  /** The packer writes no unsigned integer; one is read as the number its field holds, of eight
      bytes as the signed number with those bytes. */
  lemma UnsignedTag(raw: seq<byte>, pos: nat, v: nat, n: nat, tag: byte)
    requires (tag == 0xcc && n == 1) || (tag == 0xcd && n == 2) || (tag == 0xce && n == 4)
    requires v < Pow(256, n) && HasAt(raw, pos, [tag] + BeBytes(v, n))
    ensures v < U32 && ReadTag(raw, pos) == Whole(Int(v), pos + 1 + n)
  {
    hide Field, BeBytes, Signed, Pow;
    Pow256Words();
    FieldAt(raw, pos, tag, v, n);
  }

  lemma UnsignedLongTag(raw: seq<byte>, pos: nat, v: i64)
    requires HasAt(raw, pos, [0xcf] + BeBytes(v % U64, 8))
    ensures ReadTag(raw, pos) == Whole(Int(v), pos + 9)
  {
    hide Field, BeBytes, Signed, Pow;
    Pow256Words();
    SignedCast(v, U64);
    FieldAt(raw, pos, 0xcf, v % U64, 8);
  }

  lemma AtomTags(raw: seq<byte>, pos: nat, tag: byte)
    requires HasAt(raw, pos, [tag])
    ensures tag == 0xc0 ==> ReadTag(raw, pos) == Whole(Nil, pos + 1)
    ensures tag == 0xc2 ==> ReadTag(raw, pos) == Whole(Bool(false), pos + 1)
    ensures tag == 0xc3 ==> ReadTag(raw, pos) == Whole(Bool(true), pos + 1)
  {
    TagAt(raw, pos, tag);
  }

  lemma StringTagAt(raw: seq<byte>, pos: nat, len: nat)
    requires HasAt(raw, pos, StringHeader(len))
    ensures ReadTag(raw, pos) == StringTag(pos + |StringHeader(len)|, len % U32)
  {
    hide Field, BeBytes, Signed, Pow;
    Pow256Words();
    if len < 32 {
      TagAt(raw, pos, 0xa0 + len);
    } else if len <= 0xFF {
      ByteAt(raw, pos, 0xd9, len);
    } else if len <= 0xFFFF {
      FieldAt(raw, pos, 0xda, len, 2);
    } else {
      FieldAt(raw, pos, 0xdb, len % U32, 4);
    }
  }

  lemma BytesTagAt(raw: seq<byte>, pos: nat, len: nat)
    requires HasAt(raw, pos, BytesHeader(len))
    ensures ReadTag(raw, pos) == BytesTag(pos + |BytesHeader(len)|, len % U32)
  {
    hide Field, BeBytes, Signed, Pow;
    Pow256Words();
    if len <= 0xFF {
      ByteAt(raw, pos, 0xc4, len);
    } else if len <= 0xFFFF {
      FieldAt(raw, pos, 0xc5, len, 2);
    } else {
      FieldAt(raw, pos, 0xc6, len % U32, 4);
    }
  }

  lemma ArrayTagAt(raw: seq<byte>, pos: nat, len: nat)
    requires HasAt(raw, pos, ArrayHeader(len))
    ensures ReadTag(raw, pos) == ArrayTag(pos + |ArrayHeader(len)|, len % U32)
  {
    hide Field, BeBytes, Signed, Pow;
    Pow256Words();
    if len < 16 {
      TagAt(raw, pos, 0x90 + len);
    } else if len <= 0xFFFF {
      FieldAt(raw, pos, 0xdc, len, 2);
    } else {
      FieldAt(raw, pos, 0xdd, len % U32, 4);
    }
  }

  lemma MapTagAt(raw: seq<byte>, pos: nat, len: nat)
    requires HasAt(raw, pos, MapHeader(len))
    ensures ReadTag(raw, pos) == MapTag(pos + |MapHeader(len)|, len % U16)
  {
    hide Field, BeBytes, Signed, Pow;
    Pow256Words();
    if len < 16 {
      TagAt(raw, pos, 0x80 + len);
    } else {
      FieldAt(raw, pos, 0xde, len % U16, 2);
    }
  }

  // ----- values -----

  /** Lengths the headers can carry, and strings that are UTF-8. A map has only the
      16-bit form, so its limit is lower than an array's. */
  predicate Fits(utf8: Utf8, v: MsgValue)
    decreases v
  {
    match v
    case String(text) => |text| < U32 && utf8(text)
    case Bytes(data) => |data| < U32
    case Array(items) => |items| < U32 && FitsItems(utf8, items)
    case Map(pairs) => |pairs| < U16 && FitsPairs(utf8, pairs)
    case _ => true
  }

  predicate FitsItems(utf8: Utf8, vs: seq<MsgValue>)
    decreases vs
  {
    vs != [] ==> Fits(utf8, vs[0]) && FitsItems(utf8, vs[1..])
  }

  predicate FitsPairs(utf8: Utf8, ps: seq<Pair>)
    decreases ps
  {
    ps != [] ==>
      var Pair(k, v) := ps[0];
      assert (ps decreases to ps[0]) && (ps[0] decreases to k) && (ps[0] decreases to v);
      Fits(utf8, k) && Fits(utf8, v) && FitsPairs(utf8, ps[1..])
  }

  lemma Modulo(n: nat, m: nat)
    requires m > 0
    ensures n % m == n <==> n < m
  {
    DivModIdentity(n, m);
    if n < m {
      DivModUnique(n, m, 0, n);
    }
  }

  lemma {:induction false} RoundTrip(utf8: Utf8, v: MsgValue, raw: seq<byte>, pos: nat)
    requires Fits(utf8, v) && HasAt(raw, pos, Pack(v))
    ensures UnpackAt(utf8, raw, pos) == Ok(v, pos + |Pack(v)|)
    decreases v
  {
    hide ReadTag, UnpackItems, UnpackPairs, PackItems, PackPairs, FitsItems, FitsPairs;
    hide PackInt, StringHeader, BytesHeader, ArrayHeader, MapHeader;
    match v
    case Nil => AtomTags(raw, pos, 0xc0);
    case Bool(b) => AtomTags(raw, pos, if b then 0xc3 else 0xc2);
    case Int(i) => IntTag(raw, pos, i);
    case String(text) => RoundTripString(utf8, text, raw, pos);
    case Bytes(data) => RoundTripBytes(utf8, data, raw, pos);
    case Array(items) =>
      HasAtSplit(raw, pos, ArrayHeader(|items|), PackItems(items));
      ArrayTagAt(raw, pos, |items|);
      Modulo(|items|, U32);
      RoundTripItems(utf8, items, raw, pos + |ArrayHeader(|items|)|);
    case Map(pairs) =>
      HasAtSplit(raw, pos, MapHeader(|pairs|), PackPairs(pairs));
      MapTagAt(raw, pos, |pairs|);
      Modulo(|pairs|, U16);
      RoundTripPairs(utf8, pairs, raw, pos + |MapHeader(|pairs|)|);
  }

  lemma RoundTripString(utf8: Utf8, text: seq<byte>, raw: seq<byte>, pos: nat)
    requires Fits(utf8, String(text)) && HasAt(raw, pos, Pack(String(text)))
    ensures UnpackAt(utf8, raw, pos) == Ok(String(text), pos + |Pack(String(text))|)
  {
    hide ReadTag, StringHeader;
    HasAtSplit(raw, pos, StringHeader(|text|), text);
    StringTagAt(raw, pos, |text|);
    Modulo(|text|, U32);
  }

  lemma RoundTripBytes(utf8: Utf8, data: seq<byte>, raw: seq<byte>, pos: nat)
    requires Fits(utf8, Bytes(data)) && HasAt(raw, pos, Pack(Bytes(data)))
    ensures UnpackAt(utf8, raw, pos) == Ok(Bytes(data), pos + |Pack(Bytes(data))|)
  {
    hide ReadTag, BytesHeader;
    HasAtSplit(raw, pos, BytesHeader(|data|), data);
    BytesTagAt(raw, pos, |data|);
    Modulo(|data|, U32);
  }

  lemma {:induction false} RoundTripItems(utf8: Utf8, vs: seq<MsgValue>, raw: seq<byte>, pos: nat)
    requires FitsItems(utf8, vs) && HasAt(raw, pos, PackItems(vs))
    ensures UnpackItems(utf8, raw, pos, |vs|) == Ok(vs, pos + |PackItems(vs)|)
    decreases vs
  {
    hide UnpackAt, Pack, Fits, HasAt;
    if vs != [] {
      HasAtSplit(raw, pos, Pack(vs[0]), PackItems(vs[1..]));
      HasAtInside(raw, pos, Pack(vs[0]));
      RoundTrip(utf8, vs[0], raw, pos);
      RoundTripItems(utf8, vs[1..], raw, pos + |Pack(vs[0])|);
      assert vs == [vs[0]] + vs[1..];
    } else {
      HasAtInside(raw, pos, []);
    }
  }

  lemma HasAtInside(raw: seq<byte>, pos: nat, s: seq<byte>)
    requires HasAt(raw, pos, s)
    ensures pos + |s| <= |raw|
  {
  }

  lemma {:induction false} RoundTripPairs(utf8: Utf8, ps: seq<Pair>, raw: seq<byte>, pos: nat)
    requires FitsPairs(utf8, ps) && HasAt(raw, pos, PackPairs(ps))
    ensures UnpackPairs(utf8, raw, pos, |ps|) == Ok(ps, pos + |PackPairs(ps)|)
    decreases ps
  {
    hide UnpackAt, Pack, Fits, HasAt;
    HasAtInside(raw, pos, PackPairs(ps));
    if ps != [] {
      var Pair(k, v) := ps[0];
      assert (ps decreases to ps[0]) && (ps[0] decreases to k) && (ps[0] decreases to v);
      HasAtSplit(raw, pos, Pack(k) + Pack(v), PackPairs(ps[1..]));
      HasAtSplit(raw, pos, Pack(k), Pack(v));
      RoundTrip(utf8, k, raw, pos);
      RoundTrip(utf8, v, raw, pos + |Pack(k)|);
      RoundTripPairs(utf8, ps[1..], raw, pos + |Pack(k)| + |Pack(v)|);
      assert ps == [ps[0]] + ps[1..];
    }
  }

  /** A value whose lengths do not fit never comes back from its packing. */
  lemma {:induction false} NoRoundTrip(utf8: Utf8, v: MsgValue, raw: seq<byte>, pos: nat)
    requires !Fits(utf8, v) && HasAt(raw, pos, Pack(v))
    ensures var r := UnpackAt(utf8, raw, pos);
            r.Ok? ==> r.value != v
    decreases v
  {
    hide ReadTag, UnpackItems, UnpackPairs, PackItems, PackPairs, FitsItems, FitsPairs;
    hide PackInt, StringHeader, BytesHeader, ArrayHeader, MapHeader;
    match v
    case String(text) =>
      HasAtSplit(raw, pos, StringHeader(|text|), text);
      StringTagAt(raw, pos, |text|);
      Modulo(|text|, U32);
    case Bytes(data) =>
      HasAtSplit(raw, pos, BytesHeader(|data|), data);
      BytesTagAt(raw, pos, |data|);
      Modulo(|data|, U32);
    case Array(items) =>
      HasAtSplit(raw, pos, ArrayHeader(|items|), PackItems(items));
      ArrayTagAt(raw, pos, |items|);
      Modulo(|items|, U32);
      if |items| < U32 {
        NoRoundTripItems(utf8, items, raw, pos + |ArrayHeader(|items|)|);
      }
    case Map(pairs) =>
      HasAtSplit(raw, pos, MapHeader(|pairs|), PackPairs(pairs));
      MapTagAt(raw, pos, |pairs|);
      Modulo(|pairs|, U16);
      if |pairs| < U16 {
        NoRoundTripPairs(utf8, pairs, raw, pos + |MapHeader(|pairs|)|);
      }
  }

  /** Some item that does not fit is read back as another value. */
  lemma {:induction false} NoRoundTripItems(utf8: Utf8, vs: seq<MsgValue>, raw: seq<byte>, pos: nat)
    requires !FitsItems(utf8, vs) && HasAt(raw, pos, PackItems(vs))
    ensures pos <= |raw|
    ensures var r := UnpackItems(utf8, raw, pos, |vs|);
            r.Ok? ==> exists j :: 0 <= j < |vs| && !Fits(utf8, vs[j]) && r.value[j] != vs[j]
    decreases vs
  {
    hide UnpackAt, Pack, Fits, HasAt;
    HasAtInside(raw, pos, PackItems(vs));
    HasAtSplit(raw, pos, Pack(vs[0]), PackItems(vs[1..]));
    var r := UnpackItems(utf8, raw, pos, |vs|);
    if r.Ok? {
      var first := UnpackAt(utf8, raw, pos);
      if !Fits(utf8, vs[0]) {
        NoRoundTrip(utf8, vs[0], raw, pos);
        assert r.value[0] != vs[0];
      } else {
        RoundTrip(utf8, vs[0], raw, pos);
        NoRoundTripItems(utf8, vs[1..], raw, first.next);
        var rest := UnpackItems(utf8, raw, first.next, |vs| - 1).value;
        var j :| 0 <= j < |vs| - 1 && !Fits(utf8, vs[1..][j]) && rest[j] != vs[1..][j];
        assert r.value[j + 1] == rest[j] && vs[j + 1] == vs[1..][j];
      }
    }
  }

  lemma {:induction false} NoRoundTripPairs(utf8: Utf8, ps: seq<Pair>, raw: seq<byte>, pos: nat)
    requires !FitsPairs(utf8, ps) && HasAt(raw, pos, PackPairs(ps))
    ensures pos <= |raw|
    ensures var r := UnpackPairs(utf8, raw, pos, |ps|);
            r.Ok? ==> r.value != ps
    decreases ps
  {
    hide UnpackAt, Pack, Fits, HasAt;
    var Pair(k, v) := ps[0];
    assert (ps decreases to ps[0]) && (ps[0] decreases to k) && (ps[0] decreases to v);
    HasAtInside(raw, pos, PackPairs(ps));
    HasAtSplit(raw, pos, Pack(k) + Pack(v), PackPairs(ps[1..]));
    HasAtSplit(raw, pos, Pack(k), Pack(v));
    var r := UnpackPairs(utf8, raw, pos, |ps|);
    if r.Ok? && r.value == ps {
      var first := UnpackPair(utf8, raw, pos);
      assert r.value[0] == first.value && r.value[1..] == UnpackPairs(utf8, raw, first.next, |ps| - 1).value;
      if !Fits(utf8, k) {
        NoRoundTrip(utf8, k, raw, pos);
      } else {
        RoundTrip(utf8, k, raw, pos);
        if !Fits(utf8, v) {
          NoRoundTrip(utf8, v, raw, pos + |Pack(k)|);
        } else {
          RoundTrip(utf8, v, raw, pos + |Pack(k)|);
          NoRoundTripPairs(utf8, ps[1..], raw, pos + |Pack(k)| + |Pack(v)|);
        }
      }
    }
  }

  /** `msgpack_unpack(msgpack_pack(v))` is v exactly when the lengths in v fit. */
  lemma RoundTripIff(utf8: Utf8, v: MsgValue)
    ensures Unpack(utf8, Pack(v)) == Ok(v, |Pack(v)|) <==> Fits(utf8, v)
  {
    hide UnpackAt, Pack, Fits;
    var raw := Pack(v);
    assert raw[0..0 + |raw|] == raw;
    if Fits(utf8, v) {
      RoundTrip(utf8, v, raw, 0);
    } else {
      NoRoundTrip(utf8, v, raw, 0);
    }
  }

  /** Of the signed forms of an integer the packer's is the shortest. An unsigned one, which is
      never packed, can be shorter. */
  lemma IntShortest(raw: seq<byte>, pos: nat)
    requires pos < |raw| && ReadTag(raw, pos).Whole? && ReadTag(raw, pos).v.Int?
    requires raw[pos] < 0xcc || raw[pos] > 0xcf
    ensures |PackInt(ReadTag(raw, pos).v.i)| <= ReadTag(raw, pos).next - pos
  {
    hide Field;
    FieldBounds(raw, pos);
  }

  /** And no header read is shorter than the one packed for its length, which for a map is cut to
      sixteen bits. */
  lemma LengthShortest(raw: seq<byte>, pos: nat)
    requires pos < |raw|
    ensures var t := ReadTag(raw, pos);
            && (t.StringTag? ==> |StringHeader(t.len)| <= t.at - pos)
            && (t.BytesTag? ==> |BytesHeader(t.len)| <= t.at - pos)
            && (t.ArrayTag? ==> |ArrayHeader(t.len)| <= t.at - pos)
            && (t.MapTag? ==> |MapHeader(t.len)| <= t.at - pos)
  {
    hide Field, Signed, BeBytes;
    FieldBounds(raw, pos);
  }

  /** The tags without a meaning here, among them the floats, are refused whatever follows. */
  lemma UnsupportedIff(raw: seq<byte>, pos: nat)
    requires pos < |raw|
    ensures var tag := raw[pos];
            ReadTag(raw, pos) == BadTag(UnsupportedTag(tag)) <==>
              tag == 0xc1 || 0xc7 <= tag <= 0xcb || 0xd4 <= tag <= 0xd8
  {
    hide Field, Signed;
  }

  /** A string that is not UTF-8 is refused for that. */
  lemma BadText(utf8: Utf8, text: seq<byte>, raw: seq<byte>, pos: nat)
    requires |text| < U32 && !utf8(text) && HasAt(raw, pos, Pack(String(text)))
    ensures UnpackAt(utf8, raw, pos) == Err(InvalidUtf8)
  {
    hide ReadTag, StringHeader;
    HasAtSplit(raw, pos, StringHeader(|text|), text);
    StringTagAt(raw, pos, |text|);
  }

  // ----- cut short, or followed by more -----

  lemma TagEnd(raw: seq<byte>, pos: nat)
    requires pos < |raw| && !ReadTag(raw, pos).BadTag?
    ensures var t := ReadTag(raw, pos);
            (if t.Whole? then t.next else t.at) == pos + 1 + FieldWidth(raw[pos]) <= |raw|
  {
    hide Field, Signed;
    FieldBounds(raw, pos);
  }

  lemma SameTag(raw: seq<byte>, other: seq<byte>, pos: nat)
    requires pos < |raw| && !ReadTag(raw, pos).BadTag?
    requires pos + 1 + FieldWidth(raw[pos]) <= |raw| && pos + 1 + FieldWidth(raw[pos]) <= |other|
    requires other[..pos + 1 + FieldWidth(raw[pos])] == raw[..pos + 1 + FieldWidth(raw[pos])]
    ensures ReadTag(other, pos) == ReadTag(raw, pos)
  {
    hide Signed;
    var n := FieldWidth(raw[pos]);
    var end := pos + 1 + n;
    assert other[pos] == other[..end][pos] == raw[..end][pos];
    assert other[pos + 1..end] == other[..end][pos + 1..] == raw[..end][pos + 1..] == raw[pos + 1..end];
  }

  /** What is read depends only on the bytes up to its end. */
  lemma {:induction false} SameBytes(utf8: Utf8, raw: seq<byte>, other: seq<byte>, pos: nat)
    requires pos <= |raw| && UnpackAt(utf8, raw, pos).Ok?
    requires var end := UnpackAt(utf8, raw, pos).next; end <= |other| && other[..end] == raw[..end]
    ensures UnpackAt(utf8, other, pos) == UnpackAt(utf8, raw, pos)
    decreases |raw| - pos, 0
  {
    hide ReadTag, UnpackItems, UnpackPairs;
    var end := UnpackAt(utf8, raw, pos).next;
    TagEnd(raw, pos);
    var at := pos + 1 + FieldWidth(raw[pos]);
    PrefixOfPrefix(raw, other, at, end);
    SameTag(raw, other, pos);
    match ReadTag(raw, pos)
    case Whole(_, _) =>
    case StringTag(_, _) => SliceOfPrefix(raw, other, at, end);
    case BytesTag(_, _) => SliceOfPrefix(raw, other, at, end);
    case ArrayTag(_, len) => SameBytesItems(utf8, raw, other, at, len);
    case MapTag(_, len) => SameBytesPairs(utf8, raw, other, at, len);
  }

  lemma PrefixOfPrefix(raw: seq<byte>, other: seq<byte>, k: nat, n: nat)
    requires k <= n <= |raw| && n <= |other| && other[..n] == raw[..n]
    ensures other[..k] == raw[..k]
  {
    assert other[..k] == other[..n][..k] && raw[..k] == raw[..n][..k];
  }

  lemma SliceOfPrefix(raw: seq<byte>, other: seq<byte>, k: nat, n: nat)
    requires k <= n <= |raw| && n <= |other| && other[..n] == raw[..n]
    ensures other[k..n] == raw[k..n]
  {
    assert other[k..n] == other[..n][k..] && raw[k..n] == raw[..n][k..];
  }

  lemma {:induction false} SameBytesItems(utf8: Utf8, raw: seq<byte>, other: seq<byte>, pos: nat, len: nat)
    requires pos <= |raw| && UnpackItems(utf8, raw, pos, len).Ok?
    requires var end := UnpackItems(utf8, raw, pos, len).next; end <= |other| && other[..end] == raw[..end]
    ensures UnpackItems(utf8, other, pos, len) == UnpackItems(utf8, raw, pos, len)
    decreases |raw| - pos, 2
  {
    hide UnpackAt;
    if len > 0 {
      var next := UnpackAt(utf8, raw, pos).next;
      PrefixOfPrefix(raw, other, next, UnpackItems(utf8, raw, pos, len).next);
      SameBytes(utf8, raw, other, pos);
      SameBytesItems(utf8, raw, other, next, len - 1);
    }
  }

  lemma SameBytesPair(utf8: Utf8, raw: seq<byte>, other: seq<byte>, pos: nat)
    requires pos <= |raw| && UnpackPair(utf8, raw, pos).Ok?
    requires var end := UnpackPair(utf8, raw, pos).next; end <= |other| && other[..end] == raw[..end]
    ensures UnpackPair(utf8, other, pos) == UnpackPair(utf8, raw, pos)
    decreases |raw| - pos, 1
  {
    hide UnpackAt;
    var next := UnpackAt(utf8, raw, pos).next;
    PrefixOfPrefix(raw, other, next, UnpackPair(utf8, raw, pos).next);
    SameBytes(utf8, raw, other, pos);
    SameBytes(utf8, raw, other, next);
  }

  lemma {:induction false} SameBytesPairs(utf8: Utf8, raw: seq<byte>, other: seq<byte>, pos: nat, len: nat)
    requires pos <= |raw| && UnpackPairs(utf8, raw, pos, len).Ok?
    requires var end := UnpackPairs(utf8, raw, pos, len).next; end <= |other| && other[..end] == raw[..end]
    ensures UnpackPairs(utf8, other, pos, len) == UnpackPairs(utf8, raw, pos, len)
    decreases |raw| - pos, 2
  {
    hide UnpackPair;
    if len > 0 {
      var next := UnpackPair(utf8, raw, pos).next;
      PrefixOfPrefix(raw, other, next, UnpackPairs(utf8, raw, pos, len).next);
      SameBytesPair(utf8, raw, other, pos);
      SameBytesPairs(utf8, raw, other, next, len - 1);
    }
  }

  predicate EarlyEnd(e: CodecError) {
    e.Truncated? || e.TruncatedString? || e.TruncatedBytes? || e.TruncatedInteger?
  }

  predicate Ends<T>(r: Decoded<T>) {
    r.Err? && EarlyEnd(r.error)
  }

  lemma ShortTag(raw: seq<byte>, pos: nat, k: nat)
    requires pos < k <= |raw| && !ReadTag(raw, pos).BadTag? && k < pos + 1 + FieldWidth(raw[pos])
    ensures ReadTag(raw[..k], pos) == BadTag(TruncatedInteger)
  {
    hide Field, Signed;
    assert raw[..k][pos] == raw[pos];
  }

  /** A value that loses bytes at its end is refused as cut short, wherever the cut falls. */
  lemma {:induction false} CutShort(utf8: Utf8, raw: seq<byte>, pos: nat, k: nat)
    requires pos <= |raw| && UnpackAt(utf8, raw, pos).Ok? && pos <= k < UnpackAt(utf8, raw, pos).next
    ensures Ends(UnpackAt(utf8, raw[..k], pos))
    ensures var header := pos + 1 + FieldWidth(raw[pos]);
            && (k == pos ==> UnpackAt(utf8, raw[..k], pos) == Err(Truncated))
            && (pos < k < header ==> UnpackAt(utf8, raw[..k], pos) == Err(TruncatedInteger))
            && (k >= header && ReadTag(raw, pos).StringTag? ==> UnpackAt(utf8, raw[..k], pos) == Err(TruncatedString))
            && (k >= header && ReadTag(raw, pos).BytesTag? ==> UnpackAt(utf8, raw[..k], pos) == Err(TruncatedBytes))
    decreases |raw| - pos, 0
  {
    hide ReadTag, UnpackItems, UnpackPairs;
    TagEnd(raw, pos);
    var at := pos + 1 + FieldWidth(raw[pos]);
    if k == pos {
    } else if k < at {
      ShortTag(raw, pos, k);
    } else {
      assert raw[..k][..at] == raw[..at];
      SameTag(raw, raw[..k], pos);
      match ReadTag(raw, pos)
      case Whole(_, _) =>
      case StringTag(_, _) =>
      case BytesTag(_, _) =>
      case ArrayTag(_, len) => CutShortItems(utf8, raw, at, len, k);
      case MapTag(_, len) => CutShortPairs(utf8, raw, at, len, k);
    }
  }

  lemma {:induction false} CutShortItems(utf8: Utf8, raw: seq<byte>, pos: nat, len: nat, k: nat)
    requires pos <= |raw| && UnpackItems(utf8, raw, pos, len).Ok? && pos <= k < UnpackItems(utf8, raw, pos, len).next
    ensures Ends(UnpackItems(utf8, raw[..k], pos, len))
    decreases |raw| - pos, 2
  {
    hide UnpackAt;
    var next := UnpackAt(utf8, raw, pos).next;
    if k < next {
      CutShort(utf8, raw, pos, k);
    } else {
      assert raw[..k][..next] == raw[..next];
      SameBytes(utf8, raw, raw[..k], pos);
      CutShortItems(utf8, raw, next, len - 1, k);
    }
  }

  lemma CutShortPair(utf8: Utf8, raw: seq<byte>, pos: nat, k: nat)
    requires pos <= |raw| && UnpackPair(utf8, raw, pos).Ok? && pos <= k < UnpackPair(utf8, raw, pos).next
    ensures Ends(UnpackPair(utf8, raw[..k], pos))
    decreases |raw| - pos, 1
  {
    hide UnpackAt;
    var next := UnpackAt(utf8, raw, pos).next;
    if k < next {
      CutShort(utf8, raw, pos, k);
    } else {
      assert raw[..k][..next] == raw[..next];
      SameBytes(utf8, raw, raw[..k], pos);
      CutShort(utf8, raw, next, k);
    }
  }

  lemma {:induction false} CutShortPairs(utf8: Utf8, raw: seq<byte>, pos: nat, len: nat, k: nat)
    requires pos <= |raw| && UnpackPairs(utf8, raw, pos, len).Ok? && pos <= k < UnpackPairs(utf8, raw, pos, len).next
    ensures Ends(UnpackPairs(utf8, raw[..k], pos, len))
    decreases |raw| - pos, 2
  {
    hide UnpackPair;
    var next := UnpackPair(utf8, raw, pos).next;
    if k < next {
      CutShortPair(utf8, raw, pos, k);
    } else {
      assert raw[..k][..next] == raw[..next];
      SameBytesPair(utf8, raw, raw[..k], pos);
      CutShortPairs(utf8, raw, next, len - 1, k);
    }
  }

  /** What is unpacked is unpacked to the last byte: with more behind it, it is refused as
      trailing data, and with less, as cut short. */
  lemma ExactOnly(utf8: Utf8, raw: seq<byte>, suffix: seq<byte>, k: nat)
    requires Unpack(utf8, raw).Ok? && suffix != [] && k < |raw|
    ensures Unpack(utf8, raw).next == |raw|
    ensures Unpack(utf8, raw + suffix) == Err(TrailingData)
    ensures Ends(Unpack(utf8, raw[..k]))
  {
    hide UnpackAt;
    assert (raw + suffix)[..|raw|] == raw[..|raw|];
    SameBytes(utf8, raw, raw + suffix, 0);
    CutShort(utf8, raw, 0, k);
  }

  /** A map of n pairs of nil. */
  function NilPairs(n: nat): (ps: seq<Pair>)
    ensures |ps| == n
  {
    seq(n, _ => Pair(Nil, Nil))
  }

  lemma {:induction false} NilPairsFit(utf8: Utf8, n: nat)
    ensures FitsPairs(utf8, NilPairs(n))
  {
    if n > 0 {
      NilPairsFit(utf8, n - 1);
      assert NilPairs(n)[1..] == NilPairs(n - 1) && NilPairs(n)[0] == Pair(Nil, Nil);
    }
  }

  /** Even of nil only a map of fewer than 65536 pairs comes back: of the count only sixteen
      bits are written. */
  lemma NilMapIff(utf8: Utf8, n: nat)
    ensures Unpack(utf8, Pack(Map(NilPairs(n)))) == Ok(Map(NilPairs(n)), |Pack(Map(NilPairs(n)))|) <==> n < U16
  {
    hide NilPairs, Pack, Unpack, FitsPairs;
    NilPairsFit(utf8, n);
    RoundTripIff(utf8, Map(NilPairs(n)));
  }
}
