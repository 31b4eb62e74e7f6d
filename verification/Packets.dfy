/** The wire format of a Reticulum packet, and the part of it that is hashed. */
module Packets {
  import opened Options

  type u8 = bv8

  type Hash16 = s: seq<u8> | |s| == 16 witness [0, 0, 0, 0, 0, 0, 0, 0, 0, 0, 0, 0, 0, 0, 0, 0]

  /** SHA-256, of which nothing is used but that it is a function. */
  type Sha = seq<u8> -> seq<u8>

  const HEADER_1: u8 := 0
  const HEADER_2: u8 := 1
  const HASH_LEN: nat := 16
  const HEADER_MINSIZE: nat := 2 + 1 + HASH_LEN

  datatype PacketError = TooShort | ExceedsMtu | MissingTransportId | InvalidHeaderType

  // ----- flags -----

  datatype Flags = Flags(headerType: u8, contextFlag: u8, transportType: u8, destinationType: u8, packetType: u8)

  function PackFlags(f: Flags): u8 {
    (f.headerType << 6) | (f.contextFlag << 5) | (f.transportType << 4) | (f.destinationType << 2) | f.packetType
  }

  function UnpackFlags(b: u8): Flags {
    Flags((b & 0x40) >> 6, (b & 0x20) >> 5, (b & 0x10) >> 4, (b & 0x0C) >> 2, b & 0x03)
  }

  /** Each field fits the bits it has. */
  predicate InRange(f: Flags) {
    f.headerType < 2 && f.contextFlag < 2 && f.transportType < 2 && f.destinationType < 4 && f.packetType < 4
  }

  /** Fields are read back as they were packed exactly when each fits its bits. */
  lemma FlagsRoundTripIff(f: Flags)
    ensures UnpackFlags(PackFlags(f)) == f <==> InRange(f)
  {
    UnpackedInRange(PackFlags(f));
    if InRange(f) {
      FieldsReadBack(f.headerType, f.contextFlag, f.transportType, f.destinationType, f.packetType);
    }
  }

  lemma FieldsReadBack(h: u8, c: u8, t: u8, d: u8, p: u8)
    requires h < 2 && c < 2 && t < 2 && d < 4 && p < 4
    ensures var b := (h << 6) | (c << 5) | (t << 4) | (d << 2) | p;
            && (b & 0x40) >> 6 == h && (b & 0x20) >> 5 == c && (b & 0x10) >> 4 == t
            && (b & 0x0C) >> 2 == d && b & 0x03 == p
  {
  }

  lemma UnpackedInRange(b: u8)
    ensures InRange(UnpackFlags(b))
  {
  }

  /** Packing what was unpacked gives the byte back but for its unused top bit. */
  lemma ByteReadBack(b: u8)
    ensures PackFlags(UnpackFlags(b)) == b & 0x7F
  {
  }

  // ----- packets -----

  datatype Fields = Fields(
    flags: Flags, hops: u8, transportId: Option<Hash16>, destination: Hash16, context: u8, data: seq<u8>)

  datatype Packet = Packet(fields: Fields, raw: seq<u8>, hash: seq<u8>)

  /** The bytes of a packet; a transport id is sent only behind a HEADER_2. */
  function Wire(p: Fields): seq<u8>
    requires p.flags.headerType == HEADER_2 ==> p.transportId.Some?
  {
    [PackFlags(p.flags), p.hops] + (if p.flags.headerType == HEADER_2 then p.transportId.value else [])
    + p.destination + [p.context] + p.data
  }

  function HashablePart(headerType: u8, raw: seq<u8>): seq<u8>
    requires |raw| >= 2 && (headerType == HEADER_2 ==> |raw| >= 2 + HASH_LEN)
  {
    [raw[0] & 0x0F] + if headerType == HEADER_2 then raw[2 + HASH_LEN..] else raw[2..]
  }

  function Pack(sha: Sha, p: Fields, maxMtu: nat): Result<(seq<u8>, seq<u8>), PacketError> {
    if p.flags.headerType == HEADER_2 && p.transportId.None? then Failure(MissingTransportId)
    else if |Wire(p)| > maxMtu then Failure(ExceedsMtu)
    else Success((Wire(p), sha(HashablePart(p.flags.headerType, Wire(p)))))
  }

  function Unpack(sha: Sha, raw: seq<u8>): Result<Packet, PacketError> {
    if |raw| < HEADER_MINSIZE then Failure(TooShort)
    else
      var flags := UnpackFlags(raw[0]);
      if flags.headerType == HEADER_2 then
        if |raw| < HEADER_MINSIZE + HASH_LEN then Failure(TooShort)
        else
          var fields := Fields(flags, raw[1], Some(raw[2..18]), raw[18..34], raw[34], raw[35..]);
          Success(Packet(fields, raw, sha(HashablePart(flags.headerType, raw))))
      else if flags.headerType == HEADER_1 then
        var fields := Fields(flags, raw[1], None, raw[2..18], raw[18], raw[19..]);
        Success(Packet(fields, raw, sha(HashablePart(flags.headerType, raw))))
      else Failure(InvalidHeaderType)
  }

  lemma HeaderBit(b: u8)
    ensures UnpackFlags(b).headerType == if b & 0x40 != 0 then HEADER_2 else HEADER_1
  {
  }

  /** The only packets refused are the short ones: every other byte string is a packet. */
  lemma RefusedIff(sha: Sha, raw: seq<u8>)
    ensures Unpack(sha, raw).Failure? <==>
              |raw| < HEADER_MINSIZE || (raw[0] & 0x40 != 0 && |raw| < HEADER_MINSIZE + HASH_LEN)
    ensures Unpack(sha, raw).Failure? ==> Unpack(sha, raw).error == TooShort
  {
    hide UnpackFlags;
    if |raw| > 0 {
      HeaderBit(raw[0]);
    }
  }

  lemma WireParts(p: Fields)
    requires p.flags.headerType == HEADER_2 ==> p.transportId.Some?
    ensures var raw := Wire(p);
            && |raw| == HEADER_MINSIZE + (if p.flags.headerType == HEADER_2 then HASH_LEN else 0) + |p.data|
            && raw[0] == PackFlags(p.flags) && raw[1] == p.hops
            && (p.flags.headerType == HEADER_2 ==>
                  && raw[2..18] == p.transportId.value && raw[18..34] == p.destination
                  && raw[34] == p.context && raw[35..] == p.data)
            && (p.flags.headerType != HEADER_2 ==>
                  raw[2..18] == p.destination && raw[18] == p.context && raw[19..] == p.data)
  {
    hide PackFlags;
  }

  /** What packing refuses, and why: a second header with no transport to name, and a packet of
      19 bytes of header, 16 more for a transport, and its data, longer than the link takes. */
  lemma PackRefusedIff(sha: Sha, p: Fields, maxMtu: nat)
    ensures var unnamed := p.flags.headerType == HEADER_2 && p.transportId.None?;
            && (Pack(sha, p, maxMtu) == Failure(MissingTransportId) <==> unnamed)
            && (Pack(sha, p, maxMtu) == Failure(ExceedsMtu) <==>
                  !unnamed && 19 + (if p.flags.headerType == HEADER_2 then 16 else 0) + |p.data| > maxMtu)
  {
    hide Wire, HashablePart;
    if p.flags.headerType == HEADER_2 ==> p.transportId.Some? {
      WireParts(p);
    }
  }

  /** A packed packet is read back whole, with the hash computed for it, exactly when its
      flags fit their bits and it has a transport id just when its header carries one. */
  lemma RoundTripIff(sha: Sha, p: Fields, maxMtu: nat)
    requires Pack(sha, p, maxMtu).Success?
    ensures var (raw, hash) := Pack(sha, p, maxMtu).value;
            Unpack(sha, raw) == Success(Packet(p, raw, hash))
            <==> InRange(p.flags) && (p.transportId.Some? <==> p.flags.headerType == HEADER_2)
  {
    hide PackFlags, UnpackFlags, Wire, HashablePart;
    var raw := Wire(p);
    WireParts(p);
    FlagsRoundTripIff(p.flags);
    HeaderBit(raw[0]);
  }

  /** Packing what was read gives the same bytes but for the unused top bit. */
  lemma Repacked(sha: Sha, raw: seq<u8>)
    requires Unpack(sha, raw).Success?
    ensures var p := Unpack(sha, raw).value.fields;
            && (p.flags.headerType == HEADER_2 <==> p.transportId.Some?)
            && Wire(p) == raw[0 := raw[0] & 0x7F]
  {
    hide PackFlags, UnpackFlags, HashablePart;
    ByteReadBack(raw[0]);
    HeaderBit(raw[0]);
    if UnpackFlags(raw[0]).headerType == HEADER_2 {
      Joined2(raw, raw[0] & 0x7F);
    } else {
      Joined1(raw, raw[0] & 0x7F);
    }
  }

  lemma Joined1(raw: seq<u8>, b: u8)
    requires |raw| >= 19
    ensures [b, raw[1]] + [] + raw[2..18] + [raw[18]] + raw[19..] == raw[0 := b]
  {
  }

  lemma Joined2(raw: seq<u8>, b: u8)
    requires |raw| >= 35
    ensures [b, raw[1]] + raw[2..18] + raw[18..34] + [raw[34]] + raw[35..] == raw[0 := b]
  {
  }

  // ----- the hashable part -----

  /** What the hash of a packet is a hash of. */
  ghost predicate SameContent(p: Fields, q: Fields) {
    && p.flags.destinationType == q.flags.destinationType
    && p.flags.packetType == q.flags.packetType
    && p.destination == q.destination
    && p.context == q.context
    && p.data == q.data
  }

  lemma LowFlags(b: u8, c: u8)
    ensures b & 0x0F == c & 0x0F <==>
            UnpackFlags(b).destinationType == UnpackFlags(c).destinationType
            && UnpackFlags(b).packetType == UnpackFlags(c).packetType
  {
  }

  function Content(p: Fields): seq<u8> {
    p.destination + [p.context] + p.data
  }

  lemma HashableIsContent(sha: Sha, raw: seq<u8>)
    requires Unpack(sha, raw).Success?
    ensures var p := Unpack(sha, raw).value.fields;
            && |raw| >= 2 && (p.flags.headerType == HEADER_2 ==> |raw| >= 2 + HASH_LEN)
            && HashablePart(p.flags.headerType, raw) == [raw[0] & 0x0F] + Content(p)
            && p.flags == UnpackFlags(raw[0])
  {
    hide UnpackFlags;
    HeaderBit(raw[0]);
    var p := Unpack(sha, raw).value.fields;
    if p.flags.headerType == HEADER_2 {
      assert raw[18..] == raw[18..34] + [raw[34]] + raw[35..];
    } else {
      assert raw[2..] == raw[2..18] + [raw[18]] + raw[19..];
    }
  }

  lemma ContentEqual(d: Hash16, c: u8, data: seq<u8>, d': Hash16, c': u8, data': seq<u8>)
    ensures d + [c] + data == d' + [c'] + data' <==> d == d' && c == c' && data == data'
  {
    var s, s' := d + [c] + data, d' + [c'] + data';
    assert s[..16] == d && s[16] == c && s[17..] == data;
    assert s'[..16] == d' && s'[16] == c' && s'[17..] == data';
  }

  /** Two packets have the same hashable part exactly when they have the same content:
      neither hops, header type, transport id, context flag nor transport type counts,
      and nothing else is left out. */
  lemma HashableIff(sha: Sha, raw: seq<u8>, raw': seq<u8>)
    requires Unpack(sha, raw).Success? && Unpack(sha, raw').Success?
    ensures |raw| >= HEADER_MINSIZE && |raw'| >= HEADER_MINSIZE
    ensures var p, q := Unpack(sha, raw).value.fields, Unpack(sha, raw').value.fields;
            && (p.flags.headerType == HEADER_2 ==> |raw| >= 2 + HASH_LEN)
            && (q.flags.headerType == HEADER_2 ==> |raw'| >= 2 + HASH_LEN)
            && (HashablePart(p.flags.headerType, raw) == HashablePart(q.flags.headerType, raw') <==> SameContent(p, q))
  {
    hide UnpackFlags;
    var p, q := Unpack(sha, raw).value.fields, Unpack(sha, raw').value.fields;
    HashableIsContent(sha, raw);
    HashableIsContent(sha, raw');
    LowFlags(raw[0], raw'[0]);
    ContentEqual(p.destination, p.context, p.data, q.destination, q.context, q.data);
    var u, v := [raw[0] & 0x0F] + Content(p), [raw'[0] & 0x0F] + Content(q);
    assert u[1..] == Content(p) && v[1..] == Content(q);
    assert u == v <==> u[0] == v[0] && u[1..] == v[1..] by {
      assert u == [u[0]] + u[1..] && v == [v[0]] + v[1..];
    }
  }

  /** So a relay may count hops and put the packet in transport, or take it out, and the
      receiver still computes the hash the sender did. */
  lemma HashSurvivesTransport(sha: Sha, p: Fields, q: Fields, maxMtu: nat)
    requires Pack(sha, p, maxMtu).Success? && Pack(sha, q, maxMtu).Success?
    requires InRange(p.flags) && InRange(q.flags) && SameContent(p, q)
    ensures var sent, relayed := Pack(sha, p, maxMtu).value, Pack(sha, q, maxMtu).value;
            Unpack(sha, relayed.0).Success? && Unpack(sha, relayed.0).value.hash == sent.1
  {
    hide PackFlags, UnpackFlags, Wire, Unpack, HashablePart;
    PackedReads(sha, p, maxMtu);
    PackedReads(sha, q, maxMtu);
    HashableIff(sha, Wire(p), Wire(q));
  }

  /** What any packed packet with flags in range is read as. */
  lemma PackedReads(sha: Sha, p: Fields, maxMtu: nat)
    requires Pack(sha, p, maxMtu).Success? && InRange(p.flags)
    ensures var (raw, hash) := Pack(sha, p, maxMtu).value;
            var tid := if p.flags.headerType == HEADER_2 then p.transportId else None;
            raw == Wire(p) && Unpack(sha, raw) == Success(Packet(p.(transportId := tid), raw, hash))
    ensures var raw := Wire(p);
            |raw| >= 18 && Pack(sha, p, maxMtu).value.1 == sha(HashablePart(p.flags.headerType, raw))
            && Unpack(sha, raw).Success? && Unpack(sha, raw).value.hash == Pack(sha, p, maxMtu).value.1
  {
    hide PackFlags, UnpackFlags, Wire, HashablePart;
    WireParts(p);
    FlagsRoundTripIff(p.flags);
  }

  // ----- as the code builds and reads them -----

  method ComputeHashablePart(headerType: u8, raw: seq<u8>) returns (hashable: seq<u8>)
    requires |raw| >= 2 && (headerType == HEADER_2 ==> |raw| >= 2 + HASH_LEN)
    ensures hashable == HashablePart(headerType, raw)
  {
    hashable := [];
    hashable := hashable + [raw[0] & 0x0F];
    if headerType == HEADER_2 {
      hashable := hashable + raw[HASH_LEN + 2..];
    } else {
      hashable := hashable + raw[2..];
    }
  }

  method PackRawWithHash(sha: Sha, p: Fields, maxMtu: nat) returns (r: Result<(seq<u8>, seq<u8>), PacketError>)
    ensures r == Pack(sha, p, maxMtu)
  {
    hide PackFlags, HashablePart;
    if p.flags.headerType == HEADER_2 && p.transportId.None? {
      return Failure(MissingTransportId);
    }
    var raw := [PackFlags(p.flags)];
    raw := raw + [p.hops];
    if p.transportId.Some? {
      if p.flags.headerType == HEADER_2 {
        raw := raw + p.transportId.value;
      }
    }
    raw := raw + p.destination;
    raw := raw + [p.context];
    raw := raw + p.data;
    assert raw == Wire(p);
    if |raw| > maxMtu {
      return Failure(ExceedsMtu);
    }
    var hashable := ComputeHashablePart(p.flags.headerType, raw);
    r := Success((raw, sha(hashable)));
  }
}
