/** The rnsh codec as the code runs it: packing appends to a growing buffer, and the
    array and map loops of the reader advance a position. */
module RnshBuffers {
  import opened Arithmetic
  import opened Bits
  import opened Bytes
  import opened MsgpackBuffers
  import RnshCodec

  type MsgValue = RnshCodec.MsgValue
  type Pair = RnshCodec.Pair
  type Utf8 = RnshCodec.Utf8

  lemma {:induction false} PackItemsAppend(vs: seq<MsgValue>, v: MsgValue)
    ensures RnshCodec.PackItems(vs + [v]) == RnshCodec.PackItems(vs) + RnshCodec.Pack(v)
  {
    hide RnshCodec.Pack;
    if vs == [] {
      assert (vs + [v])[1..] == [];
    } else {
      PackItemsAppend(vs[1..], v);
      assert (vs + [v])[1..] == vs[1..] + [v];
    }
  }

  lemma {:induction false} PackPairsAppend(ps: seq<Pair>, p: Pair)
    ensures RnshCodec.PackPairs(ps + [p]) == RnshCodec.PackPairs(ps) + RnshCodec.Pack(p.key) + RnshCodec.Pack(p.val)
  {
    hide RnshCodec.Pack;
    if ps == [] {
      assert (ps + [p])[1..] == [];
    } else {
      PackPairsAppend(ps[1..], p);
      assert (ps + [p])[1..] == ps[1..] + [p];
    }
  }

  // ----- tags with a length in their low bits -----

  method WriteStringHeader(len: nat) returns (s: seq<byte>)
    ensures s == RnshCodec.StringHeader(len)
  {
    if len < 32 {
      Pow2Small();
      var tag := Join(5, len, 5);
      s := [tag];
    } else {
      s := RnshCodec.StringHeader(len);
    }
  }

  method WriteArrayHeader(len: nat) returns (s: seq<byte>)
    ensures s == RnshCodec.ArrayHeader(len)
  {
    if len < 16 {
      Pow2Small();
      var tag := Join(9, len, 4);
      s := [tag];
    } else {
      s := RnshCodec.ArrayHeader(len);
    }
  }

  method WriteMapHeader(len: nat) returns (s: seq<byte>)
    ensures s == RnshCodec.MapHeader(len)
  {
    if len < 16 {
      Pow2Small();
      var tag := Join(8, len, 4);
      s := [tag];
    } else {
      s := RnshCodec.MapHeader(len);
    }
  }

  method TagOf(raw: seq<byte>, pos: nat) returns (t: RnshCodec.Tag)
    requires pos < |raw|
    ensures t == RnshCodec.ReadTag(raw, pos)
  {
    hide RnshCodec.Field;
    Pow2Small();
    var tag := raw[pos];
    if 0x80 <= tag <= 0x8f {
      var len := LowBits(tag, 4);
      t := RnshCodec.MapTag(pos + 1, len);
    } else if 0x90 <= tag <= 0x9f {
      var len := LowBits(tag, 4);
      t := RnshCodec.ArrayTag(pos + 1, len);
    } else if 0xa0 <= tag <= 0xbf {
      var len := LowBits(tag, 5);
      t := RnshCodec.StringTag(pos + 1, len);
    } else {
      t := RnshCodec.ReadTag(raw, pos);
    }
  }

  // ----- packing -----

  method PackValue(value: MsgValue, out: Buffer)
    modifies out
    ensures out.bytes == old(out.bytes) + RnshCodec.Pack(value)
    decreases value
  {
    hide RnshCodec.PackInt, RnshCodec.StringHeader, RnshCodec.BytesHeader, RnshCodec.ArrayHeader,
      RnshCodec.MapHeader, RnshCodec.PackItems, RnshCodec.PackPairs;
    match value
    case Nil => out.Extend([0xc0]);
    case Bool(b) => out.Extend(if b then [0xc3] else [0xc2]);
    case Int(i) => out.Extend(RnshCodec.PackInt(i));
    case String(text) =>
      var header := WriteStringHeader(|text|);
      out.ExtendTwice(header, text);
    case Bytes(data) => out.ExtendTwice(RnshCodec.BytesHeader(|data|), data);
    case Array(items) => PackArray(items, out);
    case Map(pairs) => PackMap(pairs, out);
  }

  method PackArray(items: seq<MsgValue>, out: Buffer)
    modifies out
    ensures out.bytes == old(out.bytes) + (RnshCodec.ArrayHeader(|items|) + RnshCodec.PackItems(items))
    decreases items
  {
    hide RnshCodec.Pack, RnshCodec.ArrayHeader;
    var header := WriteArrayHeader(|items|);
    out.Extend(header);
    for i := 0 to |items|
      invariant out.bytes == old(out.bytes) + (RnshCodec.ArrayHeader(|items|) + RnshCodec.PackItems(items[..i]))
    {
      PackItemsAppend(items[..i], items[i]);
      assert items[..i + 1] == items[..i] + [items[i]];
      PackValue(items[i], out);
    }
    assert items[..|items|] == items;
  }

  method PackMap(pairs: seq<Pair>, out: Buffer)
    modifies out
    ensures out.bytes == old(out.bytes) + (RnshCodec.MapHeader(|pairs|) + RnshCodec.PackPairs(pairs))
    decreases pairs
  {
    hide RnshCodec.Pack, RnshCodec.MapHeader;
    var header := WriteMapHeader(|pairs|);
    out.Extend(header);
    for i := 0 to |pairs|
      invariant out.bytes == old(out.bytes) + (RnshCodec.MapHeader(|pairs|) + RnshCodec.PackPairs(pairs[..i]))
    {
      var p := pairs[i];
      assert (pairs decreases to p) && (p decreases to p.key) && (p decreases to p.val);
      PackPairsAppend(pairs[..i], p);
      assert pairs[..i + 1] == pairs[..i] + [p];
      PackValue(p.key, out);
      PackValue(p.val, out);
    }
    assert pairs[..|pairs|] == pairs;
  }

  // ----- reading -----

  /** A result with the values already read put in front of it. */
  function Behind<T>(done: seq<T>, r: RnshCodec.Decoded<seq<T>>): RnshCodec.Decoded<seq<T>> {
    match r
    case Err(e) => RnshCodec.Err(e)
    case Ok(vs, next) => RnshCodec.Ok(done + vs, next)
  }

  lemma BehindStep<T>(done: seq<T>, x: T, r: RnshCodec.Decoded<seq<T>>)
    ensures Behind(done + [x], r) == Behind(done, Behind([x], r))
  {
    if r.Ok? {
      assert done + [x] + r.value == done + ([x] + r.value);
    }
  }

  lemma BehindNothing<T>(r: RnshCodec.Decoded<seq<T>>)
    ensures Behind([], r) == r
  {
    if r.Ok? {
      assert [] + r.value == r.value;
    }
  }

  method UnpackArray(utf8: Utf8, raw: seq<byte>, pos: nat, len: nat)
    returns (r: RnshCodec.Decoded<seq<MsgValue>>)
    requires pos <= |raw|
    ensures r == RnshCodec.UnpackItems(utf8, raw, pos, len)
    decreases |raw| - pos, 2
  {
    hide RnshCodec.UnpackAt;
    var items, at := [], pos;
    BehindNothing(RnshCodec.UnpackItems(utf8, raw, pos, len));
    for i := 0 to len
      invariant pos <= at <= |raw| && |items| == i
      invariant RnshCodec.UnpackItems(utf8, raw, pos, len)
             == Behind(items, RnshCodec.UnpackItems(utf8, raw, at, len - i))
    {
      var v := UnpackValue(utf8, raw, at);
      if v.Err? {
        return RnshCodec.Err(v.error);
      }
      BehindStep(items, v.value, RnshCodec.UnpackItems(utf8, raw, v.next, len - i - 1));
      items, at := items + [v.value], v.next;
    }
    r := RnshCodec.Ok(items, at);
    assert items + [] == items;
  }

  method UnpackMap(utf8: Utf8, raw: seq<byte>, pos: nat, len: nat) returns (r: RnshCodec.Decoded<seq<Pair>>)
    requires pos <= |raw|
    ensures r == RnshCodec.UnpackPairs(utf8, raw, pos, len)
    decreases |raw| - pos, 2
  {
    hide RnshCodec.UnpackAt;
    var pairs, at := [], pos;
    BehindNothing(RnshCodec.UnpackPairs(utf8, raw, pos, len));
    for i := 0 to len
      invariant pos <= at <= |raw| && |pairs| == i
      invariant RnshCodec.UnpackPairs(utf8, raw, pos, len)
             == Behind(pairs, RnshCodec.UnpackPairs(utf8, raw, at, len - i))
    {
      var k := UnpackValue(utf8, raw, at);
      if k.Err? {
        return RnshCodec.Err(k.error);
      }
      var v := UnpackValue(utf8, raw, k.next);
      if v.Err? {
        return RnshCodec.Err(v.error);
      }
      BehindStep(pairs, RnshCodec.Pair(k.value, v.value), RnshCodec.UnpackPairs(utf8, raw, v.next, len - i - 1));
      pairs, at := pairs + [RnshCodec.Pair(k.value, v.value)], v.next;
    }
    r := RnshCodec.Ok(pairs, at);
    assert pairs + [] == pairs;
  }

  method UnpackValue(utf8: Utf8, raw: seq<byte>, pos: nat) returns (r: RnshCodec.Decoded<MsgValue>)
    requires pos <= |raw|
    ensures r == RnshCodec.UnpackAt(utf8, raw, pos)
    decreases |raw| - pos, 0
  {
    hide RnshCodec.ReadTag, RnshCodec.UnpackItems, RnshCodec.UnpackPairs;
    if pos == |raw| {
      return RnshCodec.Err(RnshCodec.Truncated);
    }
    var tag := TagOf(raw, pos);
    match tag
    case Whole(v, next) => r := RnshCodec.Ok(v, next);
    case BadTag(e) => r := RnshCodec.Err(e);
    case StringTag(at, len) =>
      if at + len > |raw| {
        r := RnshCodec.Err(RnshCodec.TruncatedString);
      } else if !utf8(raw[at..at + len]) {
        r := RnshCodec.Err(RnshCodec.InvalidUtf8);
      } else {
        r := RnshCodec.Ok(RnshCodec.String(raw[at..at + len]), at + len);
      }
    case BytesTag(at, len) =>
      if at + len > |raw| {
        r := RnshCodec.Err(RnshCodec.TruncatedBytes);
      } else {
        r := RnshCodec.Ok(RnshCodec.Bytes(raw[at..at + len]), at + len);
      }
    case ArrayTag(at, len) =>
      var vs := UnpackArray(utf8, raw, at, len);
      r := if vs.Err? then RnshCodec.Err(vs.error) else RnshCodec.Ok(RnshCodec.Array(vs.value), vs.next);
    case MapTag(at, len) =>
      var ps := UnpackMap(utf8, raw, at, len);
      r := if ps.Err? then RnshCodec.Err(ps.error) else RnshCodec.Ok(RnshCodec.Map(ps.value), ps.next);
  }
}
