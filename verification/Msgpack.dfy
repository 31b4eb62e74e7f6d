/** The rns-core MessagePack codec as functions on byte strings, and its theorems:
    round trip, self-delimiting input, and shortest output. */
module Msgpack {
  import opened Bytes
  import opened MsgpackFormat
  import opened MsgpackHeads

  const MAX_DEPTH: nat := 32

  datatype Decoded<T> = Ok(value: T, used: nat) | Err(error: Error)

  // ----- encoder -----

  function Encode(v: Value): (s: seq<byte>)
    ensures |s| >= 1
    decreases v
  {
    match v
    case Nil => [0xc0]
    case Bool(b) => if b then [0xc3] else [0xc2]
    case UInt(u) => EncodeUInt(u)
    case Int(i) => EncodeInt(i)
    case Float(bits) => [0xcb] + BeBytes(bits, 8)
    case Bin(data) => BinHeader(|data|) + data
    case Str(text) => StrHeader(|text|) + text
    case Array(items) => ArrayHeader(|items|) + EncodeItems(items)
    case Map(entries) => MapHeader(|entries|) + EncodeEntries(entries)
  }

  function EncodeItems(vs: seq<Value>): (s: seq<byte>)
    ensures |s| >= |vs|
    decreases vs
  {
    if vs == [] then [] else Encode(vs[0]) + EncodeItems(vs[1..])
  }

  function EncodeEntries(es: seq<Entry>): (s: seq<byte>)
    ensures |s| >= 2 * |es|
    decreases es
  {
    if es == [] then []
    else
      var Entry(k, v) := es[0];
      assert (es decreases to es[0]) && (es[0] decreases to k) && (es[0] decreases to v);
      Encode(k) + Encode(v) + EncodeEntries(es[1..])
  }

  // ----- decoder -----

  function Levels(depth: nat): nat {
    if depth > MAX_DEPTH then 0 else MAX_DEPTH + 1 - depth
  }

  function Decode(p: Platform, data: seq<byte>, depth: nat): (r: Decoded<Value>)
    ensures r.Ok? ==> 1 <= r.used <= |data| && depth <= MAX_DEPTH
    decreases Levels(depth), 0
  {
    if data == [] then Err(UnexpectedEof)
    else if depth > MAX_DEPTH then Err(MaxDepthExceeded)
    else
      HeadSizeInData(p, data);
      match ReadHead(p, data)
      case Scalar(v, n) => Ok(v, n)
      case BadHead(e) => Err(e)
      case BinHead(start, len) =>
        if |data| < start + len then Err(UnexpectedEof)
        else Ok(Bin(data[start..start + len]), start + len)
      case StrHead(start, len) =>
        if |data| < start + len then Err(UnexpectedEof)
        else if !p.isUtf8(data[start..start + len]) then Err(InvalidUtf8)
        else Ok(Str(data[start..start + len]), start + len)
      case ArrayHead(start, count) =>
        if count > |data| - start then Err(UnexpectedEof)
        else
          (match DecodeItems(p, data[start..], count, depth + 1)
           case Err(e) => Err(e)
           case Ok(vs, n) => Ok(Array(vs), start + n))
      case MapHead(start, count) =>
        if 2 * count > |data| - start then Err(UnexpectedEof)
        else
          (match DecodeEntries(p, data[start..], count, depth + 1)
           case Err(e) => Err(e)
           case Ok(es, n) => Ok(Map(es), start + n))
  }

  /** `count` values one after the other. The postcondition says that the up-front
      count check of an array rejects nothing this loop would have accepted. */
  function DecodeItems(p: Platform, data: seq<byte>, count: nat, depth: nat): (r: Decoded<seq<Value>>)
    ensures r.Ok? ==> |r.value| == count <= r.used <= |data|
    decreases Levels(depth), 2 + count
  {
    if count == 0 then Ok([], 0)
    else
      match Decode(p, data, depth)
      case Err(e) => Err(e)
      case Ok(v, n) =>
        (match DecodeItems(p, data[n..], count - 1, depth)
         case Err(e) => Err(e)
         case Ok(vs, m) => Ok([v] + vs, n + m))
  }

  function DecodeEntry(p: Platform, data: seq<byte>, depth: nat): (r: Decoded<Entry>)
    ensures r.Ok? ==> 2 <= r.used <= |data|
    decreases Levels(depth), 1
  {
    match Decode(p, data, depth)
    case Err(e) => Err(e)
    case Ok(k, n) =>
      (match Decode(p, data[n..], depth)
       case Err(e) => Err(e)
       case Ok(v, m) => Ok(Entry(k, v), n + m))
  }

  /** `count` keys and values. The same holds of a map's check for two items an entry. */
  function DecodeEntries(p: Platform, data: seq<byte>, count: nat, depth: nat): (r: Decoded<seq<Entry>>)
    ensures r.Ok? ==> |r.value| == count && 2 * count <= r.used <= |data|
    decreases Levels(depth), 2 + count
  {
    if count == 0 then Ok([], 0)
    else
      match DecodeEntry(p, data, depth)
      case Err(e) => Err(e)
      case Ok(entry, n) =>
        (match DecodeEntries(p, data[n..], count - 1, depth)
         case Err(e) => Err(e)
         case Ok(es, m) => Ok([entry] + es, n + m))
  }

  function UnpackExact(p: Platform, data: seq<byte>): Decoded<Value> {
    match Decode(p, data, 0)
    case Err(e) => Err(e)
    case Ok(v, n) => if n != |data| then Err(TrailingData) else Ok(v, n)
  }

  // ----- round trip -----

  /** The value a decoder reports for an encoded one: a non-negative signed integer
      is read back as unsigned. */
  function Canon(v: Value): Value
    decreases v
  {
    match v
    case Int(i) => if i >= 0 then UInt(i) else v
    case Array(items) => Array(CanonItems(items))
    case Map(entries) => Map(CanonEntries(entries))
    case _ => v
  }

  function CanonItems(vs: seq<Value>): (r: seq<Value>)
    ensures |r| == |vs|
    decreases vs
  {
    if vs == [] then [] else [Canon(vs[0])] + CanonItems(vs[1..])
  }

  function CanonEntries(es: seq<Entry>): (r: seq<Entry>)
    ensures |r| == |es|
    decreases es
  {
    if es == [] then []
    else
      var Entry(k, v) := es[0];
      assert (es decreases to es[0]) && (es[0] decreases to k) && (es[0] decreases to v);
      [Entry(Canon(k), Canon(v))] + CanonEntries(es[1..])
  }

  /** Every node at a depth the decoder enters, every length below 2^32, every
      string UTF-8. */
  predicate Fits(p: Platform, v: Value, depth: nat)
    decreases v
  {
    && depth <= MAX_DEPTH
    && match v
       case Bin(data) => |data| < U32
       case Str(text) => |text| < U32 && p.isUtf8(text)
       case Array(items) => |items| < U32 && FitsItems(p, items, depth + 1)
       case Map(entries) => |entries| < U32 && FitsEntries(p, entries, depth + 1)
       case _ => true
  }

  predicate FitsItems(p: Platform, vs: seq<Value>, depth: nat)
    decreases vs
  {
    vs != [] ==> Fits(p, vs[0], depth) && FitsItems(p, vs[1..], depth)
  }

  predicate FitsEntries(p: Platform, es: seq<Entry>, depth: nat)
    decreases es
  {
    es != [] ==>
      var Entry(k, v) := es[0];
      assert (es decreases to es[0]) && (es[0] decreases to k) && (es[0] decreases to v);
      Fits(p, k, depth) && Fits(p, v, depth) && FitsEntries(p, es[1..], depth)
  }

  lemma ShorterModulo(n: nat)
    ensures n % U32 <= n && (n % U32 == n <==> n < U32)
  {
  }

  /** Bytes behind a header are found again at their offset. */
  lemma Payload(header: seq<byte>, body: seq<byte>, suffix: seq<byte>)
    ensures var data := header + body + suffix;
            && data == header + (body + suffix)
            && data[|header|..] == body + suffix
            && data[|header|..|header| + |body|] == body
  {
  }

  /** A value that fits is decoded back from its encoding, whatever follows, and
      decoding stops at its end. */
  lemma {:induction false} RoundTrip(p: Platform, v: Value, depth: nat, suffix: seq<byte>)
    requires Fits(p, v, depth)
    ensures Decode(p, Encode(v) + suffix, depth) == Ok(Canon(v), |Encode(v)|)
    decreases v
  {
    hide ReadHead, DecodeItems, DecodeEntries, EncodeItems, EncodeEntries;
    hide EncodeUInt, EncodeInt, BinHeader, StrHeader, ArrayHeader, MapHeader, BeBytes;
    hide CanonItems, CanonEntries, FitsItems, FitsEntries;
    match v
    case Nil =>
      AtomHeads(p, suffix);
    case Bool(_) =>
      AtomHeads(p, suffix);
    case UInt(u) =>
      UIntHead(p, u, suffix);
    case Int(i) =>
      IntHead(p, i, suffix);
    case Float(bits) =>
      FloatHead(p, bits, suffix);
    case Bin(data) =>
      BinHeaderHead(p, |data|, data + suffix);
      Payload(BinHeader(|data|), data, suffix);
      ShorterModulo(|data|);
    case Str(text) =>
      StrHeaderHead(p, |text|, text + suffix);
      Payload(StrHeader(|text|), text, suffix);
      ShorterModulo(|text|);
    case Array(items) =>
      ArrayHeaderHead(p, |items|, EncodeItems(items) + suffix);
      Payload(ArrayHeader(|items|), EncodeItems(items), suffix);
      ShorterModulo(|items|);
      RoundTripItems(p, items, depth + 1, suffix);
    case Map(entries) =>
      MapHeaderHead(p, |entries|, EncodeEntries(entries) + suffix);
      Payload(MapHeader(|entries|), EncodeEntries(entries), suffix);
      ShorterModulo(|entries|);
      RoundTripEntries(p, entries, depth + 1, suffix);
  }

  lemma {:induction false} RoundTripItems(p: Platform, vs: seq<Value>, depth: nat, suffix: seq<byte>)
    requires FitsItems(p, vs, depth)
    ensures DecodeItems(p, EncodeItems(vs) + suffix, |vs|, depth) == Ok(CanonItems(vs), |EncodeItems(vs)|)
    decreases vs
  {
    hide Decode, Encode, Canon, Fits;
    if vs != [] {
      var first, rest := Encode(vs[0]), EncodeItems(vs[1..]);
      var data := EncodeItems(vs) + suffix;
      Payload(first, rest, suffix);
      RoundTrip(p, vs[0], depth, rest + suffix);
      RoundTripItems(p, vs[1..], depth, suffix);
    }
  }

  lemma {:induction false} RoundTripEntries(p: Platform, es: seq<Entry>, depth: nat, suffix: seq<byte>)
    requires FitsEntries(p, es, depth)
    ensures DecodeEntries(p, EncodeEntries(es) + suffix, |es|, depth) == Ok(CanonEntries(es), |EncodeEntries(es)|)
    decreases es
  {
    hide Decode, Encode, Canon, Fits;
    if es != [] {
      var key, val, rest := Encode(es[0].key), Encode(es[0].val), EncodeEntries(es[1..]);
      TwoPayloads(key, val, rest, suffix);
      assert (es decreases to es[0]) && (es[0] decreases to es[0].key) && (es[0] decreases to es[0].val);
      RoundTrip(p, es[0].key, depth, val + (rest + suffix));
      RoundTrip(p, es[0].val, depth, rest + suffix);
      RoundTripEntries(p, es[1..], depth, suffix);
    }
  }

  lemma TwoPayloads(key: seq<byte>, val: seq<byte>, rest: seq<byte>, suffix: seq<byte>)
    ensures var data := key + val + rest + suffix;
            && data == key + (val + (rest + suffix))
            && data[|key|..] == val + (rest + suffix)
            && data[|key| + |val|..] == rest + suffix
  {
  }

  /** A value that does not fit never comes back: decoding its encoding fails or gives
      another value. The first node that does not fit is refused or read with a
      different length. */
  lemma {:induction false} NoRoundTrip(p: Platform, v: Value, depth: nat, suffix: seq<byte>)
    requires !Fits(p, v, depth)
    ensures var r := Decode(p, Encode(v) + suffix, depth);
            r.Ok? ==> r.value != Canon(v)
    decreases v
  {
    hide ReadHead, DecodeItems, DecodeEntries, EncodeItems, EncodeEntries;
    hide EncodeUInt, EncodeInt, BinHeader, StrHeader, ArrayHeader, MapHeader, BeBytes;
    hide CanonItems, CanonEntries, FitsItems, FitsEntries;
    if depth <= MAX_DEPTH {
      match v
      case Bin(data) =>
        BinHeaderHead(p, |data|, data + suffix);
        Payload(BinHeader(|data|), data, suffix);
        ShorterModulo(|data|);
      case Str(text) =>
        StrHeaderHead(p, |text|, text + suffix);
        Payload(StrHeader(|text|), text, suffix);
        ShorterModulo(|text|);
      case Array(items) =>
        ArrayHeaderHead(p, |items|, EncodeItems(items) + suffix);
        Payload(ArrayHeader(|items|), EncodeItems(items), suffix);
        ShorterModulo(|items|);
        if |items| < U32 {
          NoRoundTripItems(p, items, depth + 1, suffix);
        }
      case Map(entries) =>
        MapHeaderHead(p, |entries|, EncodeEntries(entries) + suffix);
        Payload(MapHeader(|entries|), EncodeEntries(entries), suffix);
        ShorterModulo(|entries|);
        if |entries| < U32 {
          NoRoundTripEntries(p, entries, depth + 1, suffix);
        }
    }
  }

  lemma {:induction false} NoRoundTripItems(p: Platform, vs: seq<Value>, depth: nat, suffix: seq<byte>)
    requires !FitsItems(p, vs, depth)
    ensures var r := DecodeItems(p, EncodeItems(vs) + suffix, |vs|, depth);
            r.Ok? ==> r.value != CanonItems(vs)
    decreases vs
  {
    hide Decode, Encode, Canon, Fits;
    var first, rest := Encode(vs[0]), EncodeItems(vs[1..]);
    Payload(first, rest, suffix);
    var r := DecodeItems(p, first + rest + suffix, |vs|, depth);
    if r.Ok? && r.value == CanonItems(vs) {
      assert r.value[0] == Canon(vs[0]) && r.value[1..] == CanonItems(vs[1..]);
      if !Fits(p, vs[0], depth) {
        NoRoundTrip(p, vs[0], depth, rest + suffix);
      } else {
        RoundTrip(p, vs[0], depth, rest + suffix);
        NoRoundTripItems(p, vs[1..], depth, suffix);
      }
    }
  }

  lemma {:induction false} NoRoundTripEntries(p: Platform, es: seq<Entry>, depth: nat, suffix: seq<byte>)
    requires !FitsEntries(p, es, depth)
    ensures var r := DecodeEntries(p, EncodeEntries(es) + suffix, |es|, depth);
            r.Ok? ==> r.value != CanonEntries(es)
    decreases es
  {
    hide Decode, Encode, Canon, Fits;
    var Entry(k, v) := es[0];
    var key, val, rest := Encode(k), Encode(v), EncodeEntries(es[1..]);
    assert (es decreases to es[0]) && (es[0] decreases to k) && (es[0] decreases to v);
    TwoPayloads(key, val, rest, suffix);
    var r := DecodeEntries(p, key + val + rest + suffix, |es|, depth);
    if r.Ok? && r.value == CanonEntries(es) {
      assert r.value[0] == Entry(Canon(k), Canon(v)) && r.value[1..] == CanonEntries(es[1..]);
      if !Fits(p, k, depth) {
        NoRoundTrip(p, k, depth, val + (rest + suffix));
      } else {
        RoundTrip(p, k, depth, val + (rest + suffix));
        if !Fits(p, v, depth) {
          NoRoundTrip(p, v, depth, rest + suffix);
        } else {
          RoundTrip(p, v, depth, rest + suffix);
          NoRoundTripEntries(p, es[1..], depth, suffix);
        }
      }
    }
  }

  /** `unpack_exact(pack(v))` gives v back exactly when v fits. */
  lemma ExactRoundTripIff(p: Platform, v: Value)
    ensures UnpackExact(p, Encode(v)) == Ok(Canon(v), |Encode(v)|) <==> Fits(p, v, 0)
  {
    hide Decode, Encode, Canon, Fits;
    assert Encode(v) + [] == Encode(v);
    if Fits(p, v, 0) {
      RoundTrip(p, v, 0, []);
    } else {
      NoRoundTrip(p, v, 0, []);
    }
  }

  /** Nil inside n arrays. */
  function Nested(n: nat): Value {
    if n == 0 then Nil else Array([Nested(n - 1)])
  }

  /** Nesting fits to the level the decoder enters. */
  lemma {:induction false} NestedFitsIff(p: Platform, n: nat, depth: nat)
    ensures Fits(p, Nested(n), depth) <==> depth + n <= MAX_DEPTH
    decreases n
  {
    if n > 0 {
      NestedFitsIff(p, n - 1, depth + 1);
      var items := [Nested(n - 1)];
      assert items[1..] == [] && items[0] == Nested(n - 1);
      assert FitsItems(p, items[1..], depth + 1);
      assert FitsItems(p, items, depth + 1) <==> Fits(p, Nested(n - 1), depth + 1);
    }
  }

  lemma {:induction false} NestedRefused(p: Platform, n: nat, depth: nat, suffix: seq<byte>)
    requires depth + n > 32
    ensures Decode(p, Encode(Nested(n)) + suffix, depth) == Err(MaxDepthExceeded)
    decreases n
  {
    hide Encode, ReadHead, Nested, ArrayHeader;
    var data := Encode(Nested(n)) + suffix;
    if depth <= 32 {
      NestedEncoding(n);
      var inner := Encode(Nested(n - 1));
      assert data == ArrayHeader(1) + (inner + suffix);
      ArrayHeaderHead(p, 1, inner + suffix);
      assert |ArrayHeader(1)| == 1 && data[1..] == inner + suffix;
      NestedRefused(p, n - 1, depth + 1, suffix);
    }
  }

  lemma NestedEncoding(n: nat)
    requires n > 0
    ensures Encode(Nested(n)) == ArrayHeader(1) + Encode(Nested(n - 1)) && |ArrayHeader(1)| == 1
  {
    var items := [Nested(n - 1)];
    assert items[1..] == [] && EncodeItems([]) == [];
    assert Encode(items[0]) + [] == Encode(items[0]);
  }

  /** So arrays nested 33 deep pack and do not come back: they are refused for their depth. */
  lemma TooDeep(p: Platform)
    ensures UnpackExact(p, Encode(Nested(33))) == Err(MaxDepthExceeded)
  {
    hide Nested, Encode, Decode;
    NestedRefused(p, 33, 0, []);
    assert Encode(Nested(33)) + [] == Encode(Nested(33));
  }

  /** A string that is not UTF-8 packs too, and is refused for that. */
  lemma BadText(p: Platform, text: seq<byte>, depth: nat, suffix: seq<byte>)
    requires |text| < 0x1_0000_0000 && !p.isUtf8(text) && depth <= 32
    ensures Decode(p, Encode(Str(text)) + suffix, depth) == Err(InvalidUtf8)
  {
    hide ReadHead, StrHeader;
    var header := StrHeader(|text|);
    var data := header + text + suffix;
    assert data == header + (text + suffix);
    StrHeaderHead(p, |text|, text + suffix);
    assert data[|header|..|header| + |text|] == text;
  }

  /** No encoding is a prefix of another, and values that encode alike are alike up to
      the sign type of their integers. */
  lemma EncodingsUnambiguous(p: Platform, v: Value, w: Value, s: seq<byte>, t: seq<byte>)
    requires Fits(p, v, 0) && Fits(p, w, 0)
    requires Encode(v) + s == Encode(w) + t
    ensures Canon(v) == Canon(w) && s == t
  {
    RoundTrip(p, v, 0, s);
    RoundTrip(p, w, 0, t);
    assert s == (Encode(v) + s)[|Encode(v)|..] == (Encode(w) + t)[|Encode(w)|..] == t;
  }

  // ----- self-delimiting -----

  /** A successful decode depends only on the bytes it consumed. */
  lemma {:induction false} SelfDelimiting(p: Platform, data: seq<byte>, depth: nat, rest: seq<byte>)
    requires Decode(p, data, depth).Ok?
    ensures var r := Decode(p, data, depth);
            Decode(p, data[..r.used] + rest, depth) == r
    decreases Levels(depth), 0
  {
    hide ReadHead, DecodeItems, DecodeEntries;
    var n := Decode(p, data, depth).used;
    var other := data[..n] + rest;
    HeadSizeInData(p, data);
    var h := ReadHead(p, data);
    assert other[..HeadSize(h)] == data[..HeadSize(h)];
    HeadStable(p, data, other);
    match h
    case Scalar(_, _) =>
    case BinHead(start, len) =>
      assert other[start..start + len] == data[start..start + len];
    case StrHead(start, len) =>
      assert other[start..start + len] == data[start..start + len];
    case ArrayHead(start, count) =>
      SelfDelimitingItems(p, data[start..], count, depth + 1, rest);
      CutTwice(data, start, n - start, rest);
    case MapHead(start, count) =>
      SelfDelimitingEntries(p, data[start..], count, depth + 1, rest);
      CutTwice(data, start, n - start, rest);
  }

  /** A prefix of n + m bytes cut at n. */
  lemma CutTwice(data: seq<byte>, n: nat, m: nat, rest: seq<byte>)
    requires n + m <= |data|
    ensures data[..n + m] + rest == data[..n] + (data[n..n + m] + rest)
    ensures (data[..n + m] + rest)[n..] == data[n..][..m] + rest
  {
  }

  lemma {:induction false} SelfDelimitingItems(p: Platform, data: seq<byte>, count: nat, depth: nat, rest: seq<byte>)
    requires DecodeItems(p, data, count, depth).Ok?
    ensures var r := DecodeItems(p, data, count, depth);
            DecodeItems(p, data[..r.used] + rest, count, depth) == r
    decreases Levels(depth), 2 + count
  {
    hide Decode;
    if count > 0 {
      var n := Decode(p, data, depth).used;
      var m := DecodeItems(p, data[n..], count - 1, depth).used;
      CutTwice(data, n, m, rest);
      SelfDelimiting(p, data, depth, data[n..n + m] + rest);
      SelfDelimitingItems(p, data[n..], count - 1, depth, rest);
    }
  }

  lemma SelfDelimitingEntry(p: Platform, data: seq<byte>, depth: nat, rest: seq<byte>)
    requires DecodeEntry(p, data, depth).Ok?
    ensures var r := DecodeEntry(p, data, depth);
            DecodeEntry(p, data[..r.used] + rest, depth) == r
    decreases Levels(depth), 1
  {
    hide Decode;
    var n := Decode(p, data, depth).used;
    var m := Decode(p, data[n..], depth).used;
    CutTwice(data, n, m, rest);
    SelfDelimiting(p, data, depth, data[n..n + m] + rest);
    SelfDelimiting(p, data[n..], depth, rest);
  }

  lemma {:induction false} SelfDelimitingEntries(p: Platform, data: seq<byte>, count: nat, depth: nat, rest: seq<byte>)
    requires DecodeEntries(p, data, count, depth).Ok?
    ensures var r := DecodeEntries(p, data, count, depth);
            DecodeEntries(p, data[..r.used] + rest, count, depth) == r
    decreases Levels(depth), 2 + count
  {
    hide DecodeEntry;
    if count > 0 {
      var n := DecodeEntry(p, data, depth).used;
      var m := DecodeEntries(p, data[n..], count - 1, depth).used;
      CutTwice(data, n, m, rest);
      SelfDelimitingEntry(p, data, depth, data[n..n + m] + rest);
      SelfDelimitingEntries(p, data[n..], count - 1, depth, rest);
    }
  }

  // ----- cut short, or followed by more -----

  /** An item that loses bytes at its end is an early end of input, wherever the cut falls. */
  lemma {:induction false} CutShort(p: Platform, data: seq<byte>, depth: nat, k: nat)
    requires Decode(p, data, depth).Ok? && k < Decode(p, data, depth).used
    ensures Decode(p, data[..k], depth) == Err(UnexpectedEof)
    decreases Levels(depth), 0
  {
    hide ReadHead, DecodeItems, DecodeEntries;
    HeadSizeInData(p, data);
    var h := ReadHead(p, data);
    var short := data[..k];
    if k == 0 {
    } else if k < HeadSize(h) {
      ShortHead(p, data, k);
    } else {
      assert short[..HeadSize(h)] == data[..HeadSize(h)];
      HeadStable(p, data, short);
      match h
      case Scalar(_, _) =>
      case BinHead(_, _) =>
      case StrHead(_, _) =>
      case ArrayHead(start, count) =>
        assert short[start..] == data[start..][..k - start];
        CutShortItems(p, data[start..], count, depth + 1, k - start);
      case MapHead(start, count) =>
        assert short[start..] == data[start..][..k - start];
        CutShortEntries(p, data[start..], count, depth + 1, k - start);
    }
  }

  lemma {:induction false} CutShortItems(p: Platform, data: seq<byte>, count: nat, depth: nat, k: nat)
    requires DecodeItems(p, data, count, depth).Ok? && k < DecodeItems(p, data, count, depth).used
    ensures DecodeItems(p, data[..k], count, depth) == Err(UnexpectedEof)
    decreases Levels(depth), 2 + count
  {
    hide Decode;
    var n := Decode(p, data, depth).used;
    if k < n {
      CutShort(p, data, depth, k);
    } else {
      CutKeeps(p, data, depth, k);
      assert data[..k][n..] == data[n..][..k - n];
      CutShortItems(p, data[n..], count - 1, depth, k - n);
    }
  }

  /** A cut behind an item leaves it. */
  lemma CutKeeps(p: Platform, data: seq<byte>, depth: nat, k: nat)
    requires Decode(p, data, depth).Ok? && Decode(p, data, depth).used <= k <= |data|
    ensures Decode(p, data[..k], depth) == Decode(p, data, depth)
  {
    hide Decode;
    var n := Decode(p, data, depth).used;
    SelfDelimiting(p, data, depth, data[n..k]);
    assert data[..n] + data[n..k] == data[..k];
  }

  lemma CutShortEntry(p: Platform, data: seq<byte>, depth: nat, k: nat)
    requires DecodeEntry(p, data, depth).Ok? && k < DecodeEntry(p, data, depth).used
    ensures DecodeEntry(p, data[..k], depth) == Err(UnexpectedEof)
    decreases Levels(depth), 1
  {
    hide Decode;
    var n := Decode(p, data, depth).used;
    if k < n {
      CutShort(p, data, depth, k);
    } else {
      CutKeeps(p, data, depth, k);
      assert data[..k][n..] == data[n..][..k - n];
      CutShort(p, data[n..], depth, k - n);
    }
  }

  lemma {:induction false} CutShortEntries(p: Platform, data: seq<byte>, count: nat, depth: nat, k: nat)
    requires DecodeEntries(p, data, count, depth).Ok? && k < DecodeEntries(p, data, count, depth).used
    ensures DecodeEntries(p, data[..k], count, depth) == Err(UnexpectedEof)
    decreases Levels(depth), 2 + count
  {
    hide DecodeEntry;
    var n := DecodeEntry(p, data, depth).used;
    if k < n {
      CutShortEntry(p, data, depth, k);
    } else {
      SelfDelimitingEntry(p, data, depth, data[n..k]);
      assert data[..n] + data[n..k] == data[..k];
      assert data[..k][n..] == data[n..][..k - n];
      CutShortEntries(p, data[n..], count - 1, depth, k - n);
    }
  }

  /** A count of more items than there are bytes left, or of entries than pairs of bytes, is an
      early end before any of them is looked at, whatever they are. */
  lemma CountTooLarge(p: Platform, count: nat, rest: seq<byte>, depth: nat)
    requires count < U32 && depth <= MAX_DEPTH
    ensures count > |rest| ==> Decode(p, ArrayHeader(count) + rest, depth) == Err(UnexpectedEof)
    ensures 2 * count > |rest| ==> Decode(p, MapHeader(count) + rest, depth) == Err(UnexpectedEof)
  {
    hide ReadHead, ArrayHeader, MapHeader, DecodeItems, DecodeEntries;
    ArrayHeaderHead(p, count, rest);
    MapHeaderHead(p, count, rest);
  }

  /** What `unpack_exact` accepts it accepts to the last byte: with more behind it, it is
      refused as trailing data, and with less, as an early end. */
  lemma ExactOnly(p: Platform, data: seq<byte>, suffix: seq<byte>, k: nat)
    requires UnpackExact(p, data).Ok? && suffix != [] && k < |data|
    ensures UnpackExact(p, data).used == |data|
    ensures UnpackExact(p, data + suffix) == Err(TrailingData)
    ensures UnpackExact(p, data[..k]) == Err(UnexpectedEof)
  {
    hide Decode;
    assert data[..|data|] == data;
    SelfDelimiting(p, data, 0, suffix);
    CutShort(p, data, 0, k);
  }

  /** So the encoding of a value that fits is refused as soon as a byte is added or lost. */
  lemma EncodingExactOnly(p: Platform, v: Value, suffix: seq<byte>, k: nat)
    requires Fits(p, v, 0) && suffix != [] && k < |Encode(v)|
    ensures UnpackExact(p, Encode(v) + suffix) == Err(TrailingData)
    ensures UnpackExact(p, Encode(v)[..k]) == Err(UnexpectedEof)
  {
    hide UnpackExact, Encode, Fits, Canon;
    ExactRoundTripIff(p, v);
    ExactOnly(p, Encode(v), suffix, k);
  }

  // ----- shortest -----

  /** The number of 32-bit floats inside one item; the encoder writes each of them
      back in the 64-bit format, four bytes longer. */
  function Float32s(p: Platform, data: seq<byte>, depth: nat): nat
    decreases Levels(depth), 0
  {
    if data == [] || depth > MAX_DEPTH then 0
    else
      HeadSizeInData(p, data);
      match ReadHead(p, data)
      case Scalar(_, _) => if data[0] == 0xca then 1 else 0
      case ArrayHead(start, count) => Float32sInItems(p, data[start..], count, depth + 1)
      case MapHead(start, count) => Float32sInItems(p, data[start..], 2 * count, depth + 1)
      case _ => 0
  }

  function Float32sInItems(p: Platform, data: seq<byte>, count: nat, depth: nat): nat
    decreases Levels(depth), 2 + count
  {
    if count == 0 then 0
    else
      match Decode(p, data, depth)
      case Err(_) => 0
      case Ok(_, n) => Float32s(p, data, depth) + Float32sInItems(p, data[n..], count - 1, depth)
  }

  /** Whatever encoding a value was read from, the encoder's is no longer, apart
      from four bytes for each 32-bit float. */
  lemma {:induction false} Shortest(p: Platform, data: seq<byte>, depth: nat)
    requires Decode(p, data, depth).Ok?
    ensures var r := Decode(p, data, depth);
            |Encode(r.value)| <= r.used + 4 * Float32s(p, data, depth)
    decreases Levels(depth), 0
  {
    hide ReadHead, DecodeItems, DecodeEntries, Float32sInItems, EncodeItems, EncodeEntries;
    hide EncodeUInt, EncodeInt, BinHeader, StrHeader, ArrayHeader, MapHeader, BeBytes;
    HeadSizeInData(p, data);
    ScalarShortest(p, data);
    LengthShortest(p, data);
    match ReadHead(p, data)
    case ArrayHead(start, count) =>
      ShortestItems(p, data[start..], count, depth + 1);
    case MapHead(start, count) =>
      ShortestEntries(p, data[start..], count, depth + 1);
    case _ =>
  }

  lemma {:induction false} ShortestItems(p: Platform, data: seq<byte>, count: nat, depth: nat)
    requires DecodeItems(p, data, count, depth).Ok?
    ensures var r := DecodeItems(p, data, count, depth);
            |EncodeItems(r.value)| <= r.used + 4 * Float32sInItems(p, data, count, depth)
    decreases Levels(depth), 2 + count
  {
    hide Decode, Float32s, Encode;
    if count > 0 {
      var n := Decode(p, data, depth).used;
      Shortest(p, data, depth);
      ShortestItems(p, data[n..], count - 1, depth);
    }
  }

  lemma {:induction false} ShortestEntries(p: Platform, data: seq<byte>, count: nat, depth: nat)
    requires DecodeEntries(p, data, count, depth).Ok?
    ensures var r := DecodeEntries(p, data, count, depth);
            |EncodeEntries(r.value)| <= r.used + 4 * Float32sInItems(p, data, 2 * count, depth)
    decreases Levels(depth), 2 + count
  {
    hide Decode, Float32s, Encode;
    if count > 0 {
      var n := Decode(p, data, depth).used;
      var m := Decode(p, data[n..], depth).used;
      Shortest(p, data, depth);
      Shortest(p, data[n..], depth);
      assert data[n..][m..] == data[n + m..];
      ShortestEntries(p, data[n + m..], count - 1, depth);
      assert Float32sInItems(p, data, 2 * count, depth)
          == Float32s(p, data, depth) + Float32sInItems(p, data[n..], 2 * count - 1, depth);
      assert Float32sInItems(p, data[n..], 2 * count - 1, depth)
          == Float32s(p, data[n..], depth) + Float32sInItems(p, data[n + m..], 2 * (count - 1), depth);
    }
  }
}
