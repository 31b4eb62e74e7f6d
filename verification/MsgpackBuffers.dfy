/** The codec as the code runs it: an encoder that appends to a growing buffer, and a
    decoder whose array and map loops advance an offset. */
module MsgpackBuffers {
  import opened Arithmetic
  import opened Bits
  import opened Bytes
  import opened Msgpack
  import opened MsgpackFormat
  import opened MsgpackHeads

  class Buffer {
    var bytes: seq<byte>

    constructor ()
      ensures bytes == []
    {
      bytes := [];
    }

    method Extend(s: seq<byte>)
      modifies this
      ensures bytes == old(bytes) + s
    {
      bytes := bytes + s;
    }

    method ExtendTwice(s: seq<byte>, t: seq<byte>)
      modifies this
      ensures bytes == old(bytes) + (s + t)
    {
      Extend(s);
      Extend(t);
    }
  }

  lemma {:induction false} EncodeItemsAppend(vs: seq<Value>, v: Value)
    ensures EncodeItems(vs + [v]) == EncodeItems(vs) + Encode(v)
  {
    hide Encode;
    if vs == [] {
      assert (vs + [v])[1..] == [];
    } else {
      EncodeItemsAppend(vs[1..], v);
      assert (vs + [v])[1..] == vs[1..] + [v];
    }
  }

  lemma {:induction false} EncodeEntriesAppend(es: seq<Entry>, e: Entry)
    ensures EncodeEntries(es + [e]) == EncodeEntries(es) + Encode(e.key) + Encode(e.val)
  {
    hide Encode, EncodeEntries;
    var k, v := Encode(e.key), Encode(e.val);
    FirstEntry(es + [e]);
    if es == [] {
      assert (es + [e])[1..] == [];
      NoEntries();
    } else {
      FirstEntry(es);
      EncodeEntriesAppend(es[1..], e);
      assert (es + [e])[1..] == es[1..] + [e];
      Regroup(Encode(es[0].key) + Encode(es[0].val), EncodeEntries(es[1..]), k, v);
    }
  }

  lemma FirstEntry(es: seq<Entry>)
    requires es != []
    ensures EncodeEntries(es) == Encode(es[0].key) + Encode(es[0].val) + EncodeEntries(es[1..])
  {
    hide Encode;
  }

  lemma NoEntries()
    ensures EncodeEntries([]) == []
  {
  }

  lemma Regroup(a: seq<byte>, b: seq<byte>, c: seq<byte>, d: seq<byte>)
    ensures a + (b + c + d) == a + b + c + d
  {
  }

  // ----- tags with a length in their low bits -----

  method WriteStrHeader(len: nat) returns (s: seq<byte>)
    ensures s == StrHeader(len)
  {
    if len < 32 {
      Pow2Small();
      var tag := Join(5, len, 5);
      s := [tag];
    } else {
      s := StrHeader(len);
    }
  }

  method WriteArrayHeader(len: nat) returns (s: seq<byte>)
    ensures s == ArrayHeader(len)
  {
    if len < 16 {
      Pow2Small();
      var tag := Join(9, len, 4);
      s := [tag];
    } else {
      s := ArrayHeader(len);
    }
  }

  method WriteMapHeader(len: nat) returns (s: seq<byte>)
    ensures s == MapHeader(len)
  {
    if len < 16 {
      Pow2Small();
      var tag := Join(8, len, 4);
      s := [tag];
    } else {
      s := MapHeader(len);
    }
  }

  /** The fix tags are taken apart with a mask. */
  method HeadOf(p: Platform, data: seq<byte>) returns (h: Head)
    requires data != []
    ensures h == ReadHead(p, data)
  {
    hide Word;
    Pow2Small();
    var b := data[0];
    if 0x80 <= b <= 0x8f {
      var count := LowBits(b, 4);
      h := MapHead(1, count);
    } else if 0x90 <= b <= 0x9f {
      var count := LowBits(b, 4);
      h := ArrayHead(1, count);
    } else if 0xa0 <= b <= 0xbf {
      var len := LowBits(b, 5);
      h := StrHead(1, len);
    } else {
      h := ReadHead(p, data);
    }
  }

  // ----- encoder -----

  method Pack(value: Value) returns (buf: Buffer)
    ensures fresh(buf) && buf.bytes == Encode(value)
  {
    buf := new Buffer();
    PackInto(value, buf);
  }

  method PackInto(value: Value, buf: Buffer)
    modifies buf
    ensures buf.bytes == old(buf.bytes) + Encode(value)
    decreases value
  {
    hide EncodeUInt, EncodeInt, BinHeader, StrHeader, ArrayHeader, MapHeader, BeBytes, EncodeItems, EncodeEntries;
    match value
    case Nil => buf.Extend([0xc0]);
    case Bool(b) => buf.Extend(if b then [0xc3] else [0xc2]);
    case UInt(u) => buf.Extend(EncodeUInt(u));
    case Int(i) => buf.Extend(EncodeInt(i));
    case Float(bits) => buf.ExtendTwice([0xcb], BeBytes(bits, 8));
    case Bin(data) => buf.ExtendTwice(BinHeader(|data|), data);
    case Str(text) =>
      var header := WriteStrHeader(|text|);
      buf.ExtendTwice(header, text);
    case Array(items) => PackArray(items, buf);
    case Map(entries) => PackMap(entries, buf);
  }

  method PackArray(items: seq<Value>, buf: Buffer)
    modifies buf
    ensures buf.bytes == old(buf.bytes) + (ArrayHeader(|items|) + EncodeItems(items))
    decreases items
  {
    hide Encode, ArrayHeader;
    var header := WriteArrayHeader(|items|);
    buf.Extend(header);
    for i := 0 to |items|
      invariant buf.bytes == old(buf.bytes) + (ArrayHeader(|items|) + EncodeItems(items[..i]))
    {
      EncodeItemsAppend(items[..i], items[i]);
      assert items[..i + 1] == items[..i] + [items[i]];
      PackInto(items[i], buf);
    }
    assert items[..|items|] == items;
  }

  method PackMap(entries: seq<Entry>, buf: Buffer)
    modifies buf
    ensures buf.bytes == old(buf.bytes) + (MapHeader(|entries|) + EncodeEntries(entries))
    decreases entries
  {
    hide Encode, MapHeader;
    var header := WriteMapHeader(|entries|);
    buf.Extend(header);
    for i := 0 to |entries|
      invariant buf.bytes == old(buf.bytes) + (MapHeader(|entries|) + EncodeEntries(entries[..i]))
    {
      var e := entries[i];
      assert (entries decreases to e) && (e decreases to e.key) && (e decreases to e.val);
      EncodeEntriesAppend(entries[..i], e);
      assert entries[..i + 1] == entries[..i] + [e];
      PackInto(e.key, buf);
      PackInto(e.val, buf);
    }
    assert entries[..|entries|] == entries;
  }

  // ----- decoder -----

  /** A result with the items and the bytes already behind it. */
  function After<T>(done: seq<T>, n: nat, r: Decoded<seq<T>>): Decoded<seq<T>> {
    match r
    case Err(e) => Err(e)
    case Ok(vs, m) => Ok(done + vs, n + m)
  }

  lemma AfterStep<T>(done: seq<T>, x: T, n: nat, m: nat, r: Decoded<seq<T>>)
    ensures After(done + [x], n + m, r) == After(done, n, After([x], m, r))
  {
    if r.Ok? {
      assert done + [x] + r.value == done + ([x] + r.value);
    }
  }

  lemma AfterNothing<T>(n: nat, r: Decoded<seq<T>>)
    ensures r.Ok? ==> After([], n, r) == Ok(r.value, n + r.used)
  {
    if r.Ok? {
      assert [] + r.value == r.value;
    }
  }

  lemma FailsAfter<T>(done: seq<T>, n: nat, e: Error)
    ensures After(done, n, Err(e)) == Err(e)
  {
  }

  /** The first of the items still to be read, and the rest. */
  lemma NextItem(p: Platform, data: seq<byte>, offset: nat, count: nat, depth: nat)
    requires offset <= |data| && count > 0
    ensures var v := Decode(p, data[offset..], depth);
            DecodeItems(p, data[offset..], count, depth)
              == if v.Err? then Err(v.error)
                 else After([v.value], v.used, DecodeItems(p, data[offset + v.used..], count - 1, depth))
  {
    hide Decode;
    var v := Decode(p, data[offset..], depth);
    if v.Ok? {
      assert data[offset..][v.used..] == data[offset + v.used..];
    }
  }

  lemma NextEntry(p: Platform, data: seq<byte>, offset: nat, count: nat, depth: nat)
    requires offset <= |data| && count > 0
    ensures var e := DecodeEntry(p, data[offset..], depth);
            DecodeEntries(p, data[offset..], count, depth)
              == if e.Err? then Err(e.error)
                 else After([e.value], e.used, DecodeEntries(p, data[offset + e.used..], count - 1, depth))
  {
    hide Decode, DecodeEntry;
    var e := DecodeEntry(p, data[offset..], depth);
    if e.Ok? {
      assert data[offset..][e.used..] == data[offset + e.used..];
    }
  }

  lemma ItemsDone(p: Platform, data: seq<byte>, depth: nat, items: seq<Value>, offset: nat)
    ensures After(items, offset, DecodeItems(p, data, 0, depth)) == Ok(items, offset)
  {
    assert items + [] == items;
  }

  lemma EntriesDone(p: Platform, data: seq<byte>, depth: nat, entries: seq<Entry>, offset: nat)
    ensures After(entries, offset, DecodeEntries(p, data, 0, depth)) == Ok(entries, offset)
  {
    assert entries + [] == entries;
  }

  method UnpackDepth(p: Platform, data: seq<byte>, depth: nat) returns (r: Decoded<Value>)
    ensures r == Decode(p, data, depth)
    decreases Levels(depth), 0
  {
    hide ReadHead, DecodeItems, DecodeEntries;
    if data == [] {
      return Err(UnexpectedEof);
    }
    if depth > MAX_DEPTH {
      return Err(MaxDepthExceeded);
    }
    HeadSizeInData(p, data);
    var head := HeadOf(p, data);
    match head
    case Scalar(v, n) => r := Ok(v, n);
    case BadHead(e) => r := Err(e);
    case BinHead(start, len) =>
      if |data| < start + len {
        return Err(UnexpectedEof);
      }
      r := Ok(Bin(data[start..start + len]), start + len);
    case StrHead(start, len) => r := UnpackStrBytes(p, data, start, len);
    case ArrayHead(start, count) =>
      var items := UnpackArrayEntries(p, data, start, count, depth);
      AfterNothing(start, DecodeItems(p, data[start..], count, depth + 1));
      r := if items.Err? then Err(items.error) else Ok(Array(items.value), items.used);
    case MapHead(start, count) =>
      var entries := UnpackMapEntries(p, data, start, count, depth);
      AfterNothing(start, DecodeEntries(p, data[start..], count, depth + 1));
      r := if entries.Err? then Err(entries.error) else Ok(Map(entries.value), entries.used);
  }

  method UnpackStrBytes(p: Platform, data: seq<byte>, offset: nat, len: nat) returns (r: Decoded<Value>)
    ensures r == if |data| < offset + len then Err(UnexpectedEof)
                 else if p.isUtf8(data[offset..offset + len]) then Ok(Str(data[offset..offset + len]), offset + len)
                 else Err(InvalidUtf8)
  {
    if |data| < offset + len {
      return Err(UnexpectedEof);
    }
    var bytes := data[offset..offset + len];
    r := if p.isUtf8(bytes) then Ok(Str(bytes), offset + len) else Err(InvalidUtf8);
  }

  method UnpackArrayEntries(p: Platform, data: seq<byte>, start: nat, count: nat, depth: nat)
    returns (r: Decoded<seq<Value>>)
    requires start <= |data| && depth <= MAX_DEPTH
    ensures r == if count > |data| - start then Err(UnexpectedEof)
                 else After([], start, DecodeItems(p, data[start..], count, depth + 1))
    decreases Levels(depth + 1), 2 + count
  {
    hide Decode, DecodeItems, After;
    if count > |data| - start {
      return Err(UnexpectedEof);
    }
    var offset, items := start, [];
    ghost var whole := DecodeItems(p, data[start..], count, depth + 1);
    for i := 0 to count
      invariant start <= offset <= |data|
      invariant After([], start, whole) == After(items, offset, DecodeItems(p, data[offset..], count - i, depth + 1))
    {
      var v := UnpackDepth(p, data[offset..], depth + 1);
      if v.Err? {
        NextItem(p, data, offset, count - i, depth + 1);
        FailsAfter<Value>(items, offset, v.error);
        return Err(v.error);
      }
      AfterStep(items, v.value, offset, v.used, DecodeItems(p, data[offset + v.used..], count - i - 1, depth + 1));
      NextItem(p, data, offset, count - i, depth + 1);
      items := items + [v.value];
      offset := offset + v.used;
    }
    ItemsDone(p, data[offset..], depth + 1, items, offset);
    r := Ok(items, offset);
  }

  /** One key and its value, each read from where the last left off. */
  method UnpackEntry(p: Platform, data: seq<byte>, offset: nat, depth: nat) returns (r: Decoded<Entry>)
    requires offset <= |data|
    ensures r == DecodeEntry(p, data[offset..], depth)
    decreases Levels(depth), 1
  {
    hide Decode;
    var k := UnpackDepth(p, data[offset..], depth);
    if k.Err? {
      return Err(k.error);
    }
    assert data[offset..][k.used..] == data[offset + k.used..];
    var v := UnpackDepth(p, data[offset + k.used..], depth);
    if v.Err? {
      return Err(v.error);
    }
    r := Ok(Entry(k.value, v.value), k.used + v.used);
  }

  method UnpackMapEntries(p: Platform, data: seq<byte>, start: nat, count: nat, depth: nat)
    returns (r: Decoded<seq<Entry>>)
    requires start <= |data| && depth <= MAX_DEPTH
    ensures r == if 2 * count > |data| - start then Err(UnexpectedEof)
                 else After([], start, DecodeEntries(p, data[start..], count, depth + 1))
    decreases Levels(depth + 1), 2 + count
  {
    hide Decode, DecodeEntry, DecodeEntries, After;
    if 2 * count > |data| - start {
      return Err(UnexpectedEof);
    }
    var offset, entries := start, [];
    ghost var whole := DecodeEntries(p, data[start..], count, depth + 1);
    for i := 0 to count
      invariant start <= offset <= |data|
      invariant After([], start, whole)
             == After(entries, offset, DecodeEntries(p, data[offset..], count - i, depth + 1))
    {
      var e := UnpackEntry(p, data, offset, depth + 1);
      NextEntry(p, data, offset, count - i, depth + 1);
      if e.Err? {
        FailsAfter<Entry>(entries, offset, e.error);
        return Err(e.error);
      }
      AfterStep(entries, e.value, offset, e.used, DecodeEntries(p, data[offset + e.used..], count - i - 1, depth + 1));
      entries := entries + [e.value];
      offset := offset + e.used;
    }
    EntriesDone(p, data[offset..], depth + 1, entries, offset);
    r := Ok(entries, offset);
  }
}
