/** The reader and writer as the code runs them: a buffer that is extended and drained,
    a payload unmasked in place, and streams that are read and written. */
module WebSocketStreams {
  import opened Arithmetic
  import opened Bits
  import opened Bytes
  import opened Options
  import opened WebSocketFrames
  import opened WebSocketReader

  // ----- parsing -----

  method Unmask(payload: array<byte>, key: Key)
    modifies payload
    ensures payload[..] == Masked(old(payload[..]), key)
  {
    hide Xor, XorByte;
    for i := 0 to payload.Length
      invariant forall j :: 0 <= j < i ==> payload[j] == XorByte(old(payload[..])[j], key[j % 4])
      invariant forall j :: i <= j < payload.Length ==> payload[j] == old(payload[..])[j]
    {
      payload[i] := XorByte(payload[i], key[i % 4]);
    }
  }

  method Unmasked(body: seq<byte>, key: Key) returns (clear: seq<byte>)
    ensures clear == Masked(body, key)
  {
    hide Masked;
    var payload := new byte[|body|](i requires 0 <= i < |body| => body[i]);
    assert payload[..] == body;
    Unmask(payload, key);
    clear := payload[..];
  }

  method ParseFrameFromBuf(buf: seq<byte>) returns (r: Option<Parsed>)
    ensures r == Parse(buf)
  {
    hide And, BeVal, Masked;
    if |buf| < 2 {
      return None;
    }
    HeaderBits(buf[0]);
    HeaderBits(buf[1]);
    var opcode := And(buf[0], 0x0F);
    var masked := And(buf[1], 0x80) != 0;
    var lenByte := And(buf[1], 0x7F);
    var pos := 2;
    var payloadLen := lenByte;
    if lenByte == 126 {
      if |buf| < pos + 2 {
        return None;
      }
      payloadLen := BeVal(buf[pos..pos + 2]);
      pos := pos + 2;
    } else if lenByte == 127 {
      if |buf| < pos + 8 {
        return None;
      }
      payloadLen := BeVal(buf[pos..pos + 8]);
      pos := pos + 8;
    }
    var key: Key := [0, 0, 0, 0];
    if masked {
      if |buf| < pos + 4 {
        return None;
      }
      assert |buf[pos..pos + 4]| == 4;
      key := buf[pos..pos + 4];
      pos := pos + 4;
    }
    if |buf| < pos + payloadLen {
      return None;
    }
    var payload := buf[pos..pos + payloadLen];
    pos := pos + payloadLen;
    if masked {
      payload := Unmasked(payload, key);
    }
    r := Some(Parsed(Frame(opcode, payload), pos));
  }

  // ----- the buffered reader -----

  /** A stream that answers one read at a time; with nothing queued it would block. */
  class ReadStream {
    var pending: seq<ReadOutcome>

    method Read() returns (o: ReadOutcome)
      modifies this
      ensures old(pending) == [] ==> o == NothingYet && pending == []
      ensures old(pending) != [] ==> o == old(pending)[0] && pending == old(pending)[1..]
    {
      if pending == [] {
        return NothingYet;
      }
      o := pending[0];
      pending := pending[1..];
    }
  }

  class WsBuf {
    var buf: seq<byte>

    constructor ()
      ensures buf == []
    {
      buf := [];
    }

    method TryReadFrame(stream: ReadStream) returns (d: Delivery)
      modifies this, stream
      ensures (d, Reader(buf, stream.pending)) == TryRead(Reader(old(buf), old(stream.pending)))
    {
      hide Parse;
      var parsed := ParseFrameFromBuf(buf);
      if parsed.Some? {
        buf := buf[parsed.value.used..];
        return Delivered(parsed.value.frame);
      }
      var outcome := stream.Read();
      match outcome
      case EndOfStream => return Closed;
      case NothingYet => return Waiting;
      case ReadError => return Broken;
      case Data(bytes) => buf := buf + bytes;
      parsed := ParseFrameFromBuf(buf);
      if parsed.Some? {
        buf := buf[parsed.value.used..];
        return Delivered(parsed.value.frame);
      }
      d := Waiting;
    }
  }

  // ----- the blocking reader -----

  /** A stream read until enough bytes have come; at its end `read_exact` fails. */
  class ByteStream {
    var bytes: seq<byte>

    method ReadExact(n: nat) returns (r: Option<seq<byte>>)
      modifies this
      ensures n <= |old(bytes)| ==> r == Some(old(bytes)[..n]) && bytes == old(bytes)[n..]
      ensures n > |old(bytes)| ==> r.None?
    {
      if n > |bytes| {
        bytes := [];
        return None;
      }
      r := Some(bytes[..n]);
      bytes := bytes[n..];
    }
  }

  /** The extended length, or the length byte itself. */
  method ReadLength(stream: ByteStream, lenByte: nat) returns (len: Option<nat>)
    requires lenByte < 128
    modifies stream
    ensures var ext := if lenByte <= 125 then 0 else if lenByte == 126 then 2 else 8;
            && (ext > |old(stream.bytes)| ==> len.None?)
            && (ext <= |old(stream.bytes)| ==>
                  && len == Some(if ext == 0 then lenByte else BeVal(old(stream.bytes)[..ext]))
                  && stream.bytes == old(stream.bytes)[ext..])
  {
    hide BeVal;
    if lenByte <= 125 {
      return Some(lenByte);
    }
    var field := stream.ReadExact(if lenByte == 126 then 2 else 8);
    len := if field.Some? then Some(BeVal(field.value)) else None;
  }

  datatype Header = Header(opcode: byte, masked: bool, len: nat, key: Key)

  method ReadHeader(stream: ByteStream) returns (h: Option<Header>)
    modifies stream
    ensures var all := old(stream.bytes);
            if |all| < 2 || |all| < HeaderSize(all[1]) then h.None?
            else
              var start := HeaderSize(all[1]);
              && h.Some? && stream.bytes == all[start..]
              && h.value.opcode == all[0] % 16 && h.value.masked == (all[1] >= 128)
              && h.value.len == PayloadLength(all)
              && (h.value.masked ==> h.value.key == all[start - 4..start])
  {
    hide And, BeVal;
    ghost var all := stream.bytes;
    var head := stream.ReadExact(2);
    if head.None? {
      return None;
    }
    HeaderBits(head.value[0]);
    HeaderBits(head.value[1]);
    var opcode := And(head.value[0], 0x0F);
    var masked := And(head.value[1], 0x80) != 0;
    var lenByte := And(head.value[1], 0x7F);
    ghost var ext := ExtendedBytes(all[1]);
    var len := ReadLength(stream, lenByte);
    if len.None? {
      return None;
    }
    assert all[2..][..ext] == all[2..2 + ext] && stream.bytes == all[2 + ext..];
    var key: Key := [0, 0, 0, 0];
    if masked {
      var k := stream.ReadExact(4);
      if k.None? {
        return None;
      }
      key := k.value;
      assert key == all[2 + ext..][..4] == all[2 + ext..2 + ext + 4];
      assert stream.bytes == all[2 + ext + 4..];
    }
    h := Some(Header(opcode, masked, len.value, key));
  }

  /** Agrees with the buffer parser on every stream: the same frame, stopping at the same
      byte, or an error where the stream ends inside the frame. */
  method ReadFrame(stream: ByteStream) returns (r: Option<Frame>)
    modifies stream
    ensures Parse(old(stream.bytes)).Some? ==>
              var Parsed(f, n) := Parse(old(stream.bytes)).value;
              r == Some(f) && stream.bytes == old(stream.bytes)[n..]
    ensures Parse(old(stream.bytes)).None? ==> r.None?
  {
    hide Masked, PayloadLength;
    ghost var all := stream.bytes;
    var header := ReadHeader(stream);
    if header.None? {
      return None;
    }
    var Header(opcode, masked, len, key) := header.value;
    ghost var start := HeaderSize(all[1]);
    var body := stream.ReadExact(len);
    if body.None? {
      return None;
    }
    assert body.value == all[start..start + len] && stream.bytes == all[start + len..];
    var payload := body.value;
    if masked {
      payload := Unmasked(payload, key);
    }
    r := Some(Frame(opcode, payload));
  }

  // ----- the writer -----

  class WriteStream {
    var bytes: seq<byte>

    method WriteAll(s: seq<byte>)
      modifies this
      ensures bytes == old(bytes) + s
    {
      bytes := bytes + s;
    }
  }

  /** The frame `write_frame` produces: FIN set, unmasked, the shortest length form. */
  function Written(opcode: byte, data: seq<byte>): (w: WireFrame)
    requires |data| < 0x1_0000_0000_0000_0000
    ensures Wellformed(w) && FrameOf(w) == Frame(opcode % 16, data)
  {
    LowNibble(opcode);
    WireFrame(128 + opcode % 128, None,
              if |data| <= 125 then Short else if |data| <= 65535 then Medium else Long, data)
  }

  lemma LowNibble(b: byte)
    ensures (128 + b % 128) % 16 == b % 16
  {
  }

  method WriteHeader(stream: WriteStream, opcode: byte, data: seq<byte>)
    requires |data| < 0x1_0000_0000_0000_0000
    modifies stream
    ensures var w := Written(opcode, data);
            stream.bytes == old(stream.bytes) + [w.first] + [LengthByte(w)] + Extended(w)
  {
    hide Or, BeBytes;
    FinBit(opcode);
    stream.WriteAll([Or(0x80, opcode)]);
    var len := |data|;
    if len <= 125 {
      stream.WriteAll([len]);
      assert stream.bytes + [] == stream.bytes;
    } else if len <= 65535 {
      stream.WriteAll([126]);
      stream.WriteAll(BeBytes(len, 2));
    } else {
      stream.WriteAll([127]);
      stream.WriteAll(BeBytes(len, 8));
    }
  }

  method WriteFrame(stream: WriteStream, opcode: byte, data: seq<byte>)
    requires |data| < 0x1_0000_0000_0000_0000
    modifies stream
    ensures stream.bytes == old(stream.bytes) + Wire(Written(opcode, data))
  {
    hide Extended, LengthByte;
    ghost var w := Written(opcode, data);
    WriteHeader(stream, opcode, data);
    stream.WriteAll(data);
    assert Wire(w) == [w.first] + [LengthByte(w)] + Extended(w) + data;
  }

  /** A frame is written with the FIN bit over the bits of the opcode, and no frame a peer could
      write for the same payload is shorter. */
  lemma WrittenBits(opcode: byte, data: seq<byte>, b: nat)
    requires |data| < 0x1_0000_0000_0000_0000 && b < 8
    ensures Bit(Written(opcode, data).first, b) <==> b == 7 || Bit(opcode, b)
  {
    Pow2Small();
    FinBit(opcode);
    OrBits(0x80, opcode, b);
    OnlyBit(7, b);
  }

  lemma WrittenShortest(opcode: byte, data: seq<byte>, w: WireFrame)
    requires |data| < 0x1_0000_0000_0000_0000 && Wellformed(w) && w.payload == data
    ensures |Wire(Written(opcode, data))| <= |Wire(w)|
  {
  }

  lemma FinBit(opcode: byte)
    ensures Or(0x80, opcode) == 128 + opcode % 128
  {
    Pow2Small();
    OrSetsBit(opcode, 7);
    OrCommutes(opcode, 0x80);
  }
}
