/** The WebSocket base framing (sections 5.2 and 5.3 of RFC 6455): the bytes of a
    frame, the parser over a buffer, and the frames a byte string holds. */
module WebSocketFrames {
  import opened Arithmetic
  import opened Bits
  import opened Bytes
  import opened Options

  datatype Frame = Frame(opcode: byte, payload: seq<byte>)

  datatype Parsed = Parsed(frame: Frame, used: nat)

  // ----- masking -----

  function XorByte(a: byte, b: byte): byte {
    Pow2Small();
    XorBound(a, b, 8);
    Xor(a, b)
  }

  type Key = k: seq<byte> | |k| == 4 witness [0, 0, 0, 0]

  function Masked(s: seq<byte>, key: Key): (r: seq<byte>)
    ensures |r| == |s|
  {
    seq(|s|, i requires 0 <= i < |s| => XorByte(s[i], key[i % 4]))
  }

  /** Bit by bit, what the key holds at that byte, taken round and round, flips the payload. */
  lemma MaskedBits(s: seq<byte>, key: Key, i: nat, b: nat)
    requires i < |s| && b < 8
    ensures Bit(Masked(s, key)[i], b) <==> Bit(s[i], b) != Bit(key[i % 4], b)
  {
    XorBits(s[i], key[i % 4], b);
  }

  /** Masking with the same key undoes itself. */
  lemma MaskedTwice(s: seq<byte>, key: Key)
    ensures Masked(Masked(s, key), key) == s
  {
    forall i | 0 <= i < |s|
      ensures Masked(Masked(s, key), key)[i] == s[i]
    {
      XorTwice(s[i], key[i % 4]);
    }
  }

  // ----- the header bytes -----

  /** `b & 0x0F`, `b & 0x80 != 0` and `b & 0x7F` of a header byte. */
  lemma HeaderBits(b: byte)
    ensures And(b, 0x0F) == b % 16
    ensures And(b, 0x80) != 0 <==> b >= 128
    ensures And(b, 0x7F) == b % 128
  {
    Pow2Small();
    AndMask(b, 4);
    AndMask(b, 7);
    AndBit(b, 7);
  }

  /** How many bytes of extended length follow the second header byte. */
  function ExtendedBytes(b: byte): nat {
    if b % 128 <= 125 then 0 else if b % 128 == 126 then 2 else 8
  }

  function MaskBytes(b: byte): nat {
    if b >= 128 then 4 else 0
  }

  function HeaderSize(b: byte): nat {
    2 + ExtendedBytes(b) + MaskBytes(b)
  }

  function PayloadLength(buf: seq<byte>): nat
    requires |buf| >= 2 && |buf| >= 2 + ExtendedBytes(buf[1])
  {
    var ext := ExtendedBytes(buf[1]);
    if ext == 0 then buf[1] % 128 else BeVal(buf[2..2 + ext])
  }

  /** The first frame of a buffer, if the whole of it has arrived. */
  function Parse(buf: seq<byte>): (r: Option<Parsed>)
    ensures r.Some? ==> 2 <= r.value.used <= |buf|
  {
    if |buf| < 2 || |buf| < HeaderSize(buf[1]) then None
    else
      var start, len := HeaderSize(buf[1]), PayloadLength(buf);
      if |buf| < start + len then None
      else
        var payload := buf[start..start + len];
        var clear := if buf[1] >= 128 then Masked(payload, buf[start - 4..start]) else payload;
        Some(Parsed(Frame(buf[0] % 16, clear), start + len))
  }

  lemma SliceOfPrefix(s: seq<byte>, t: seq<byte>, n: nat, i: nat, j: nat)
    requires n <= |s| && n <= |t| && s[..n] == t[..n]
    requires i <= j <= n
    ensures s[i..j] == t[i..j]
  {
    assert s[i..j] == s[..n][i..j];
    assert t[i..j] == t[..n][i..j];
  }

  lemma LengthOfPrefix(s: seq<byte>, t: seq<byte>, n: nat)
    requires 2 <= n <= |s| && n <= |t| && s[..n] == t[..n]
    requires 2 + ExtendedBytes(s[1]) <= n
    ensures s[0] == t[0] && s[1] == t[1] && PayloadLength(s) == PayloadLength(t)
  {
    hide BeVal;
    assert s[0] == s[..n][0] && s[1] == s[..n][1];
    SliceOfPrefix(s, t, n, 2, 2 + ExtendedBytes(s[1]));
  }

  /** Parsing looks only at the bytes it consumes. */
  lemma ParsePrefix(s: seq<byte>, t: seq<byte>)
    requires Parse(s).Some?
    requires var n := Parse(s).value.used; n <= |t| && s[..n] == t[..n]
    ensures Parse(t) == Parse(s)
  {
    hide BeVal, Masked, PayloadLength;
    var n, start := Parse(s).value.used, HeaderSize(s[1]);
    LengthOfPrefix(s, t, n);
    SliceOfPrefix(s, t, n, start, n);
    if s[1] >= 128 {
      SliceOfPrefix(s, t, n, start - 4, start);
    }
  }

  /** A frame once parsed is parsed the same whatever arrives behind it. */
  lemma ParseStable(buf: seq<byte>, more: seq<byte>)
    requires Parse(buf).Some?
    ensures Parse(buf + more) == Parse(buf)
  {
    ParsePrefix(buf, buf + more);
  }

  // ----- frames on the wire -----

  datatype LengthForm = Short | Medium | Long

  /** A frame as a sender may write it: any first byte, masked or not, and any of the
      three length forms that can hold its length. */
  datatype WireFrame = WireFrame(first: byte, mask: Option<Key>, form: LengthForm, payload: seq<byte>)

  predicate Wellformed(w: WireFrame) {
    match w.form
    case Short => |w.payload| <= 125
    case Medium => |w.payload| < 0x1_0000
    case Long => |w.payload| < 0x1_0000_0000_0000_0000
  }

  function LengthByte(w: WireFrame): (b: nat)
    requires Wellformed(w)
    ensures b < 128
  {
    match w.form
    case Short => |w.payload|
    case Medium => 126
    case Long => 127
  }

  function Extended(w: WireFrame): seq<byte>
    requires Wellformed(w)
  {
    match w.form
    case Short => []
    case Medium => BeBytes(|w.payload|, 2)
    case Long => BeBytes(|w.payload|, 8)
  }

  function Wire(w: WireFrame): (s: seq<byte>)
    requires Wellformed(w)
    ensures |s| >= 2
  {
    match w.mask
    case None => [w.first, LengthByte(w)] + Extended(w) + w.payload
    case Some(key) => [w.first, 128 + LengthByte(w)] + Extended(w) + key + Masked(w.payload, key)
  }

  function FrameOf(w: WireFrame): Frame {
    Frame(w.first % 16, w.payload)
  }

  lemma LengthReadBack(w: WireFrame, b: byte, tail: seq<byte>)
    requires Wellformed(w) && b % 128 == LengthByte(w)
    ensures var buf := [w.first, b] + Extended(w) + tail;
            |Extended(w)| == ExtendedBytes(b) && PayloadLength(buf) == |w.payload|
  {
    var buf := [w.first, b] + Extended(w) + tail;
    assert buf[1] == b;
    Pow256Words();
    assert buf[2..2 + |Extended(w)|] == Extended(w);
    match w.form
    case Short =>
    case Medium => BeValOfBytes(|w.payload|, 2);
    case Long => BeValOfBytes(|w.payload|, 8);
  }

  /** A header, its extended length, its key if any, and a payload, laid end to end. */
  lemma ParseParts(w: WireFrame, b: byte, key: seq<byte>, body: seq<byte>, rest: seq<byte>)
    requires Wellformed(w) && b % 128 == LengthByte(w)
    requires |key| == MaskBytes(b) && |body| == |w.payload|
    ensures var buf := [w.first, b] + Extended(w) + key + body + rest;
            Parse(buf) == Some(Parsed(
              Frame(w.first % 16, if b >= 128 then Masked(body, key) else body),
              2 + |Extended(w)| + |key| + |body|))
  {
    hide BeVal, Masked, PayloadLength, Extended, LengthByte;
    var buf := [w.first, b] + Extended(w) + key + body + rest;
    assert buf == [w.first, b] + Extended(w) + (key + body + rest);
    LengthReadBack(w, b, key + body + rest);
    var start := HeaderSize(b);
    assert buf[1] == b;
    assert buf[start..start + |body|] == body;
    if b >= 128 {
      assert buf[start - 4..start] == key;
    }
  }

  /** Every frame written is the frame parsed, with anything after it left alone. */
  lemma ParseWire(w: WireFrame, rest: seq<byte>)
    requires Wellformed(w)
    ensures Parse(Wire(w) + rest) == Some(Parsed(FrameOf(w), |Wire(w)|))
  {
    hide Parse, Masked, Extended, LengthByte;
    match w.mask
    case None =>
      ParseParts(w, LengthByte(w), [], w.payload, rest);
      assert Wire(w) == [w.first, LengthByte(w)] + Extended(w) + [] + w.payload;
    case Some(key) =>
      ParseParts(w, 128 + LengthByte(w), key, Masked(w.payload, key), rest);
      MaskedTwice(w.payload, key);
  }

  // ----- all the frames of a byte string -----

  /** The frames of a byte string, in order, up to the first that is incomplete. */
  function Frames(s: seq<byte>): seq<Frame>
    decreases |s|
  {
    match Parse(s)
    case None => []
    case Some(Parsed(f, n)) => [f] + Frames(s[n..])
  }

  /** What is left of a byte string when its first m frames are taken off. */
  function Remainder(s: seq<byte>, m: nat): (r: seq<byte>)
    ensures |r| <= |s| && r == s[|s| - |r|..]
    decreases m
  {
    if m == 0 then s
    else
      match Parse(s)
      case None => s
      case Some(Parsed(_, n)) => Remainder(s[n..], m - 1)
  }

  lemma {:induction false} RemainderFrames(s: seq<byte>, m: nat)
    requires m <= |Frames(s)|
    ensures Frames(s) == Frames(s)[..m] + Frames(Remainder(s, m))
    decreases m
  {
    hide Parse;
    if m > 0 {
      var Parsed(f, n) := Parse(s).value;
      RemainderFrames(s[n..], m - 1);
      assert Frames(s)[..m] == [f] + Frames(s[n..])[..m - 1];
    }
  }

  lemma {:induction false} RemainderNext(s: seq<byte>, m: nat)
    requires m < |Frames(s)|
    ensures var r := Parse(Remainder(s, m));
            && r.Some? && r.value.frame == Frames(s)[m]
            && Remainder(s, m + 1) == Remainder(s, m)[r.value.used..]
    decreases m
  {
    hide Parse;
    if m > 0 {
      RemainderNext(s[Parse(s).value.used..], m - 1);
    }
  }

  /** Bytes that arrive later do not disturb the frames already there. */
  lemma {:induction false} LaterBytes(s: seq<byte>, more: seq<byte>, m: nat)
    requires m <= |Frames(s)|
    ensures Frames(s) <= Frames(s + more)
    ensures Remainder(s + more, m) == Remainder(s, m) + more
    decreases |s|, m
  {
    hide Parse;
    match Parse(s)
    case None =>
    case Some(Parsed(f, n)) =>
      ParseStable(s, more);
      assert (s + more)[n..] == s[n..] + more;
      LaterBytes(s[n..], more, if m == 0 then 0 else m - 1);
  }

  function WireAll(ws: seq<WireFrame>): seq<byte>
    requires forall w :: w in ws ==> Wellformed(w)
  {
    if ws == [] then [] else Wire(ws[0]) + WireAll(ws[1..])
  }

  function FramesOf(ws: seq<WireFrame>): (r: seq<Frame>)
    ensures |r| == |ws|
  {
    if ws == [] then [] else [FrameOf(ws[0])] + FramesOf(ws[1..])
  }

  /** A stream of written frames holds exactly those frames and nothing else. */
  lemma {:induction false} FramesOfWire(ws: seq<WireFrame>)
    requires forall w :: w in ws ==> Wellformed(w)
    ensures Frames(WireAll(ws)) == FramesOf(ws)
    ensures Remainder(WireAll(ws), |ws|) == []
  {
    hide Parse;
    if ws != [] {
      var first, rest := Wire(ws[0]), WireAll(ws[1..]);
      ParseWire(ws[0], rest);
      FramesOfWire(ws[1..]);
      assert (first + rest)[|first|..] == rest;
    }
  }
}
