/** The typed messages of rnsh on top of its codec. */
module RnshMessages {
  import Arithmetic
  import opened Bytes
  import opened Options
  import opened RnshCodec
  import opened RnshRoundTrip

  type u16 = x: int | 0 <= x < 0x1_0000
  type u64 = x: int | 0 <= x < 0x1_0000_0000_0000_0000
  type i32 = x: int | -0x8000_0000 <= x < 0x8000_0000

  const MSG_NOOP: u16 := 0xac00
  const MSG_WINDOW_SIZE: u16 := 0xac02
  const MSG_EXECUTE_COMMAND: u16 := 0xac03
  const MSG_STREAM_DATA: u16 := 0xac04
  const MSG_VERSION_INFO: u16 := 0xac05
  const MSG_ERROR: u16 := 0xac06
  const MSG_COMMAND_EXITED: u16 := 0xac07

  datatype MessageError =
    | Codec(e: CodecError)
    | UnexpectedArray
    | ExpectedArray
    | ExpectedString
    | ExpectedOptionalString
    | ExpectedBool
    | ExpectedInt
    | ExpectedOptionalU16
    | InvalidStreamData
    | UnknownType(msgtype: u16)

  datatype WindowSize = WindowSize(rows: Option<u16>, cols: Option<u16>, hpix: Option<u16>, vpix: Option<u16>)

  datatype Command = Command(
    cmdline: seq<seq<byte>>, pipeStdin: bool, pipeStdout: bool, pipeStderr: bool,
    term: Option<seq<byte>>, size: WindowSize)

  datatype Stream = Stream(streamId: u16, data: seq<byte>, eof: bool)

  datatype Message =
    | Noop
    | Resize(size: WindowSize)
    | Execute(command: Command)
    | StreamData(stream: Stream)
    | VersionInfo(swVersion: seq<byte>, protocolVersion: u64)
    | Error(msg: seq<byte>, fatal: bool)
    | CommandExited(code: i32)

  /** UTF-8 validity, and the stream-data framing, which belongs to another module. */
  datatype Env = Env(utf8: Utf8, packStream: Stream -> seq<byte>, unpackStream: seq<byte> -> Option<Stream>)

  function TypeOf(m: Message): u16 {
    match m
    case Noop => MSG_NOOP
    case Resize(_) => MSG_WINDOW_SIZE
    case Execute(_) => MSG_EXECUTE_COMMAND
    case StreamData(_) => MSG_STREAM_DATA
    case VersionInfo(_, _) => MSG_VERSION_INFO
    case Error(_, _) => MSG_ERROR
    case CommandExited(_) => MSG_COMMAND_EXITED
  }

  // ----- packing -----

  function OptU16(v: Option<u16>): MsgValue {
    if v.Some? then Int(v.value) else Nil
  }

  function Strings(ss: seq<seq<byte>>): (vs: seq<MsgValue>) {
    if ss == [] then [] else [String(ss[0])] + Strings(ss[1..])
  }

  /** The fields of a message as a msgpack value. `protocol_version as i64` wraps. */
  function ToValue(m: Message): MsgValue
    requires !m.Noop? && !m.StreamData?
  {
    match m
    case VersionInfo(sw, version) => Array([String(sw), Int(Signed(version, U64))])
    case Resize(size) => Array([OptU16(size.rows), OptU16(size.cols), OptU16(size.hpix), OptU16(size.vpix)])
    case Execute(c) =>
      Array([Array(Strings(c.cmdline)), Bool(c.pipeStdin), Bool(c.pipeStdout), Bool(c.pipeStderr), Nil,
             if c.term.Some? then String(c.term.value) else Nil,
             OptU16(c.size.rows), OptU16(c.size.cols), OptU16(c.size.hpix), OptU16(c.size.vpix)])
    case Error(msg, fatal) => Array([String(msg), Bool(fatal), Nil])
    case CommandExited(code) => Int(code)
  }

  function PackMessage(env: Env, m: Message): seq<byte> {
    match m
    case Noop => []
    case StreamData(s) => env.packStream(s)
    case _ => Pack(ToValue(m))
  }

  // ----- unpacking -----

  function ExpectOptU16(v: MsgValue): Result<Option<u16>, MessageError> {
    match v
    case Nil => Success(None)
    case Int(i) => if 0 <= i < U16 then Success(Some(i)) else Failure(ExpectedOptionalU16)
    case _ => Failure(ExpectedOptionalU16)
  }

  function ExpectSize(a: MsgValue, b: MsgValue, c: MsgValue, d: MsgValue): Result<WindowSize, MessageError> {
    var rows, cols, hpix, vpix := ExpectOptU16(a), ExpectOptU16(b), ExpectOptU16(c), ExpectOptU16(d);
    if rows.Failure? then Failure(rows.error)
    else if cols.Failure? then Failure(cols.error)
    else if hpix.Failure? then Failure(hpix.error)
    else if vpix.Failure? then Failure(vpix.error)
    else Success(WindowSize(rows.value, cols.value, hpix.value, vpix.value))
  }

  /** `iter().map(expect_string).collect()`. */
  function ExpectStrings(vs: seq<MsgValue>): Result<seq<seq<byte>>, MessageError> {
    if vs == [] then Success([])
    else if !vs[0].String? then Failure(ExpectedString)
    else
      match ExpectStrings(vs[1..])
      case Failure(e) => Failure(e)
      case Success(ss) => Success([vs[0].text] + ss)
  }

  function FromExecute(vs: seq<MsgValue>): Result<Message, MessageError>
    requires |vs| == 10
  {
    if !vs[0].Array? then Failure(ExpectedArray)
    else
      var cmdline := ExpectStrings(vs[0].items);
      if cmdline.Failure? then Failure(cmdline.error)
      else if !vs[1].Bool? || !vs[2].Bool? || !vs[3].Bool? then Failure(ExpectedBool)
      else if !vs[5].Nil? && !vs[5].String? then Failure(ExpectedOptionalString)
      else
        var size := ExpectSize(vs[6], vs[7], vs[8], vs[9]);
        if size.Failure? then Failure(size.error)
        else
          Success(Execute(Command(cmdline.value, vs[1].b, vs[2].b, vs[3].b,
                                  if vs[5].Nil? then None else Some(vs[5].text), size.value)))
  }

  function FromValue(msgtype: u16, v: MsgValue): Result<Message, MessageError> {
    if msgtype == MSG_COMMAND_EXITED then
      if v.Int? then Success(CommandExited(Signed(v.i % U32, U32))) else Failure(ExpectedInt)
    else if msgtype == MSG_VERSION_INFO then
      if !v.Array? || |v.items| != 2 then Failure(UnexpectedArray)
      else if !v.items[0].String? then Failure(ExpectedString)
      else if !v.items[1].Int? then Failure(ExpectedInt)
      else Success(VersionInfo(v.items[0].text, v.items[1].i % U64))
    else if msgtype == MSG_WINDOW_SIZE then
      if !v.Array? || |v.items| != 4 then Failure(UnexpectedArray)
      else
        (match ExpectSize(v.items[0], v.items[1], v.items[2], v.items[3])
         case Failure(e) => Failure(e)
         case Success(size) => Success(Resize(size)))
    else if msgtype == MSG_EXECUTE_COMMAND then
      if !v.Array? || |v.items| != 10 then Failure(UnexpectedArray) else FromExecute(v.items)
    else if msgtype == MSG_ERROR then
      if !v.Array? || |v.items| != 3 then Failure(UnexpectedArray)
      else if !v.items[0].String? then Failure(ExpectedString)
      else if !v.items[1].Bool? then Failure(ExpectedBool)
      else Success(Error(v.items[0].text, v.items[1].b))
    else Failure(UnknownType(msgtype))
  }

  predicate HasValue(msgtype: u16) {
    MSG_WINDOW_SIZE <= msgtype <= MSG_COMMAND_EXITED && msgtype != MSG_STREAM_DATA
  }

  function UnpackMessage(env: Env, msgtype: u16, payload: seq<byte>): Result<Message, MessageError> {
    if msgtype == MSG_NOOP then Success(Noop)
    else if msgtype == MSG_STREAM_DATA then
      (match env.unpackStream(payload)
       case None => Failure(InvalidStreamData)
       case Some(s) => Success(StreamData(s)))
    else if !HasValue(msgtype) then Failure(UnknownType(msgtype))
    else
      match Unpack(env.utf8, payload)
      case Err(e) => Failure(Codec(e))
      case Ok(v, _) => FromValue(msgtype, v)
  }

  // ----- round trip -----

  lemma UnsignedCast(v: nat, m: nat)
    requires m > 0 && m % 2 == 0 && v < m
    ensures Signed(v, m) % m == v
  {
    if v >= m / 2 {
      Arithmetic.DivModUnique(v - m, m, -1, v);
    } else {
      Arithmetic.DivModUnique(v, m, 0, v);
    }
  }

  lemma SizeReadBack(s: WindowSize)
    ensures ExpectSize(OptU16(s.rows), OptU16(s.cols), OptU16(s.hpix), OptU16(s.vpix)) == Success(s)
  {
  }

  lemma {:induction false} StringsReadBack(ss: seq<seq<byte>>)
    ensures ExpectStrings(Strings(ss)) == Success(ss)
  {
    if ss != [] {
      StringsReadBack(ss[1..]);
      assert Strings(ss)[1..] == Strings(ss[1..]);
      assert ss == [ss[0]] + ss[1..];
    }
  }

  lemma {:induction false} StringsDetermined(vs: seq<MsgValue>)
    requires ExpectStrings(vs).Success?
    ensures vs == Strings(ExpectStrings(vs).value)
  {
    if vs != [] {
      StringsDetermined(vs[1..]);
      assert ([vs[0].text] + ExpectStrings(vs[1..]).value)[1..] == ExpectStrings(vs[1..]).value;
      assert vs == [vs[0]] + vs[1..];
    }
  }

  /** The fields of every message are read back as they were. */
  lemma ValueReadBack(m: Message)
    requires !m.Noop? && !m.StreamData?
    ensures HasValue(TypeOf(m)) && FromValue(TypeOf(m), ToValue(m)) == Success(m)
  {
    match m
    case VersionInfo(_, version) => UnsignedCast(version, U64);
    case Resize(size) => SizeReadBack(size);
    case Execute(c) =>
      StringsReadBack(c.cmdline);
      SizeReadBack(c.size);
    case Error(_, _) =>
    case CommandExited(code) => SignedCast(code, U32);
  }

  /** Strings and string lists whose lengths the codec can carry. */
  predicate MessageFits(env: Env, m: Message) {
    m.Noop? || m.StreamData? || Fits(env.utf8, ToValue(m))
  }

  lemma MessageRoundTrip(env: Env, m: Message)
    requires !m.StreamData? && MessageFits(env, m)
    ensures UnpackMessage(env, TypeOf(m), PackMessage(env, m)) == Success(m)
  {
    hide Pack, Unpack, Fits, FromValue, ToValue;
    if !m.Noop? {
      ValueReadBack(m);
      RoundTripIff(env.utf8, ToValue(m));
    }
  }

  /** A reader gets the same message only from the same fields: the one field of each
      kind that is skipped is never one that could fail to fit. */
  lemma FieldsDetermined(m: Message, vs: seq<MsgValue>, j: nat)
    requires m.VersionInfo? || m.Execute? || m.Error? || m.Resize?
    requires FromValue(TypeOf(m), Array(vs)) == Success(m)
    requires |vs| == |ToValue(m).items| && j < |vs|
    requires ToValue(m).items[j].String? || ToValue(m).items[j].Array?
    ensures vs[j] == ToValue(m).items[j]
  {
    hide ExpectStrings, Strings;
    if m.Execute? && j == 0 {
      StringsDetermined(vs[0].items);
    }
  }

  lemma MessageNoRoundTrip(env: Env, m: Message)
    requires !MessageFits(env, m)
    ensures UnpackMessage(env, TypeOf(m), PackMessage(env, m)) != Success(m)
  {
    hide Pack, ToValue, FromValue, FitsItems, UnpackItems, PackItems;
    ValueReadBack(m);
    ArrayMessage(env, m);
    var vs := ToValue(m).items;
    var raw := Pack(ToValue(m));
    var r := UnpackAt(env.utf8, raw, 0);
    if r.Ok? && FromValue(TypeOf(m), r.value) == Success(m) {
      DecodedItems(env.utf8, vs, raw);
      SameArity(m, r.value);
      var j :| 0 <= j < |vs| && !Fits(env.utf8, vs[j]) && r.value.items[j] != vs[j];
      FieldsDetermined(m, r.value.items, j);
    }
  }

  /** A message that does not fit is one that packs as a short array. */
  lemma ArrayMessage(env: Env, m: Message)
    requires !MessageFits(env, m)
    ensures m.VersionInfo? || m.Execute? || m.Error? || m.Resize?
    ensures ToValue(m).Array? && |ToValue(m).items| <= 10 && !FitsItems(env.utf8, ToValue(m).items)
    ensures forall j :: 0 <= j < |ToValue(m).items| && !Fits(env.utf8, ToValue(m).items[j]) ==>
              ToValue(m).items[j].String? || ToValue(m).items[j].Array?
  {
    hide FitsItems;
  }

  lemma SameArity(m: Message, v: MsgValue)
    requires m.VersionInfo? || m.Execute? || m.Error? || m.Resize?
    requires FromValue(TypeOf(m), v) == Success(m)
    ensures v.Array? && |v.items| == |ToValue(m).items|
  {
  }

  lemma PackedArray(vs: seq<MsgValue>)
    ensures HasAt(Pack(Array(vs)), 0, ArrayHeader(|vs|) + PackItems(vs))
    ensures Pack(Array(vs)) == ArrayHeader(|vs|) + PackItems(vs)
  {
    hide ArrayHeader, PackItems;
    var raw := Pack(Array(vs));
    assert raw[0..0 + |raw|] == raw;
  }

  lemma DecodedItems(utf8: Utf8, vs: seq<MsgValue>, raw: seq<byte>)
    requires |vs| <= 10 && !FitsItems(utf8, vs) && raw == Pack(Array(vs))
    requires UnpackAt(utf8, raw, 0).Ok?
    ensures var v := UnpackAt(utf8, raw, 0).value;
            && v.Array? && |v.items| == |vs|
            && exists j :: 0 <= j < |vs| && !Fits(utf8, vs[j]) && v.items[j] != vs[j]
  {
    hide ReadTag, UnpackItems, PackItems, FitsItems, ArrayHeader, Pack, HasAt, Fits;
    PackedArray(vs);
    HasAtSplit(raw, 0, ArrayHeader(|vs|), PackItems(vs));
    ArrayTagAt(raw, 0, |vs|);
    NoRoundTripItems(utf8, vs, raw, |ArrayHeader(|vs|)|);
  }

  /** Every message but stream data comes back from its packing exactly when its strings
      fit the codec. */
  lemma MessageRoundTripIff(env: Env, m: Message)
    requires !m.StreamData?
    ensures UnpackMessage(env, TypeOf(m), PackMessage(env, m)) == Success(m) <==> MessageFits(env, m)
  {
    hide MessageFits, UnpackMessage, PackMessage;
    if MessageFits(env, m) {
      MessageRoundTrip(env, m);
    } else {
      MessageNoRoundTrip(env, m);
    }
  }

  /** Of stream data that is so exactly when the framing gives it back. */
  lemma StreamRoundTripIff(env: Env, s: Stream)
    ensures UnpackMessage(env, TypeOf(StreamData(s)), PackMessage(env, StreamData(s))) == Success(StreamData(s))
       <==> env.unpackStream(env.packStream(s)) == Some(s)
  {
  }

  // ----- what is accepted -----

  predicate IsDimension(v: MsgValue) {
    v.Nil? || (v.Int? && 0 <= v.i <= 65535)
  }

  ghost predicate AllStrings(vs: seq<MsgValue>) {
    forall k :: 0 <= k < |vs| ==> vs[k].String?
  }

  /** The values that can be read as a message of a type. The fifth field of a command and the
      third of an error may be anything. */
  ghost predicate Shaped(msgtype: u16, v: MsgValue) {
    if msgtype == 0xac07 then v.Int?
    else
      && v.Array?
      && var vs := v.items;
         || (msgtype == 0xac05 && |vs| == 2 && vs[0].String? && vs[1].Int?)
         || (msgtype == 0xac06 && |vs| == 3 && vs[0].String? && vs[1].Bool?)
         || (msgtype == 0xac02 && |vs| == 4 && Dimensions(vs))
         || (&& msgtype == 0xac03 && |vs| == 10
             && vs[0].Array? && AllStrings(vs[0].items) && vs[1].Bool? && vs[2].Bool? && vs[3].Bool?
             && (vs[5].Nil? || vs[5].String?) && Dimensions(vs[6..]))
  }

  predicate Dimensions(vs: seq<MsgValue>) {
    |vs| == 4 && IsDimension(vs[0]) && IsDimension(vs[1]) && IsDimension(vs[2]) && IsDimension(vs[3])
  }

  lemma {:induction false} StringsIff(vs: seq<MsgValue>)
    ensures ExpectStrings(vs).Success? <==> AllStrings(vs)
  {
    if vs != [] {
      StringsIff(vs[1..]);
      assert AllStrings(vs) ==> AllStrings(vs[1..]);
      if vs[0].String? && AllStrings(vs[1..]) {
        forall k | 0 <= k < |vs|
          ensures vs[k].String?
        {
          if k > 0 {
            assert vs[1..][k - 1].String?;
          }
        }
      }
    }
  }

  lemma SizeIff(a: MsgValue, b: MsgValue, c: MsgValue, d: MsgValue)
    ensures ExpectSize(a, b, c, d).Success? <==> Dimensions([a, b, c, d])
    ensures ExpectSize(a, b, c, d).Success? ==>
              var z := ExpectSize(a, b, c, d).value;
              OptU16(z.rows) == a && OptU16(z.cols) == b && OptU16(z.hpix) == c && OptU16(z.vpix) == d
  {
  }

  lemma ShapedIff(msgtype: u16, v: MsgValue)
    ensures FromValue(msgtype, v).Success? <==> Shaped(msgtype, v)
  {
    hide ExpectStrings, ExpectSize, AllStrings;
    if v.Array? && |v.items| == 4 {
      SizeIff(v.items[0], v.items[1], v.items[2], v.items[3]);
      assert v.items == [v.items[0], v.items[1], v.items[2], v.items[3]];
    } else if v.Array? && |v.items| == 10 {
      SizeIff(v.items[6], v.items[7], v.items[8], v.items[9]);
      assert v.items[6..] == [v.items[6], v.items[7], v.items[8], v.items[9]];
      if v.items[0].Array? {
        StringsIff(v.items[0].items);
      }
    }
  }

  /** A message of a type is accepted exactly when its payload is a value of the shape of that
      type, to the last byte; a keepalive whatever its payload, and no other type at all. */
  lemma AcceptedIff(env: Env, msgtype: u16, payload: seq<byte>)
    ensures UnpackMessage(env, msgtype, payload).Success? <==>
              || msgtype == 0xac00
              || (msgtype == 0xac04 && env.unpackStream(payload).Some?)
              || (Unpack(env.utf8, payload).Ok? && Shaped(msgtype, Unpack(env.utf8, payload).value))
    ensures UnpackMessage(env, msgtype, payload) == Failure(UnknownType(msgtype)) <==>
              msgtype < 0xac00 || msgtype == 0xac01 || msgtype > 0xac07
    ensures UnpackMessage(env, 0xac04, payload) == Failure(InvalidStreamData) <==> env.unpackStream(payload).None?
    ensures 0xac02 <= msgtype <= 0xac07 && msgtype != 0xac04 && Unpack(env.utf8, payload).Err? ==>
              UnpackMessage(env, msgtype, payload) == Failure(Codec(Unpack(env.utf8, payload).error))
  {
    hide FromValue, Unpack;
    if Unpack(env.utf8, payload).Ok? {
      ShapedIff(msgtype, Unpack(env.utf8, payload).value);
      KnownType(msgtype, Unpack(env.utf8, payload).value);
    }
  }

  lemma KnownType(msgtype: u16, v: MsgValue)
    ensures FromValue(msgtype, v).Failure? && HasValue(msgtype) ==> FromValue(msgtype, v).error != UnknownType(msgtype)
  {
    hide ExpectSize, ExpectStrings;
    SizeErrors();
    StringErrors();
  }

  lemma SizeErrors()
    ensures forall a, b, c, d :: ExpectSize(a, b, c, d).Failure? ==> !ExpectSize(a, b, c, d).error.UnknownType?
  {
  }

  lemma StringErrors()
    ensures forall vs :: ExpectStrings(vs).Failure? ==> !ExpectStrings(vs).error.UnknownType?
  {
    forall vs
      ensures ExpectStrings(vs).Failure? ==> !ExpectStrings(vs).error.UnknownType?
    {
      StringError(vs);
    }
  }

  lemma {:induction false} StringError(vs: seq<MsgValue>)
    ensures ExpectStrings(vs).Failure? ==> ExpectStrings(vs).error == ExpectedString
  {
    if vs != [] {
      StringError(vs[1..]);
    }
  }

  /** What is read is what was there: the message has the type it came under, and each of its
      fields is the value at its place. The code of an exit is cut to 32 bits. */
  lemma ReadAsIs(msgtype: u16, v: MsgValue)
    requires FromValue(msgtype, v).Success?
    ensures var m := FromValue(msgtype, v).value;
            && TypeOf(m) == msgtype && !m.Noop? && !m.StreamData?
            && (m.CommandExited? ==> v.Int? && (v.i - m.code) % 0x1_0000_0000 == 0)
            && (!m.CommandExited? ==>
                  && v.Array? && |v.items| == |ToValue(m).items|
                  && forall k :: 0 <= k < |v.items| && !(m.Execute? && k == 4) && !(m.Error? && k == 2) ==>
                       v.items[k] == ToValue(m).items[k])
  {
    hide ExpectStrings, ExpectSize, OptU16;
    if msgtype == MSG_COMMAND_EXITED {
      Truncated32(v.i);
    } else if msgtype == MSG_VERSION_INFO {
      SignedBack(v.items[1].i);
    } else if msgtype == MSG_WINDOW_SIZE {
      SizeIff(v.items[0], v.items[1], v.items[2], v.items[3]);
    } else if msgtype == MSG_EXECUTE_COMMAND {
      SizeIff(v.items[6], v.items[7], v.items[8], v.items[9]);
      StringsDetermined(v.items[0].items);
    }
  }

  /** Whether the field at a place of a message of a type can be read, and what is said of it when
      it cannot. */
  ghost predicate Readable(msgtype: u16, k: nat, v: MsgValue) {
    match msgtype
    case 0xac05 => if k == 0 then v.String? else v.Int?
    case 0xac06 => if k == 0 then v.String? else k == 2 || v.Bool?
    case 0xac02 => IsDimension(v)
    case _ =>
      if k == 0 then v.Array? && AllStrings(v.items)
      else if k < 4 then v.Bool?
      else k == 4 || if k == 5 then v.Nil? || v.String? else IsDimension(v)
  }

  function Complaint(msgtype: u16, k: nat, v: MsgValue): MessageError {
    match msgtype
    case 0xac05 => if k == 0 then ExpectedString else ExpectedInt
    case 0xac06 => if k == 0 then ExpectedString else ExpectedBool
    case 0xac02 => ExpectedOptionalU16
    case _ =>
      if k == 0 then if v.Array? then ExpectedString else ExpectedArray
      else if k < 4 then ExpectedBool
      else if k == 5 then ExpectedOptionalString
      else ExpectedOptionalU16
  }

  function Fields(msgtype: u16): nat {
    match msgtype
    case 0xac05 => 2
    case 0xac06 => 3
    case 0xac02 => 4
    case _ => 10
  }

  /** A value is refused for its first fault: not an array of the right length, and then the first
      field that cannot be read. */
  lemma FirstFault(msgtype: u16, v: MsgValue, k: nat)
    requires msgtype == 0xac02 || msgtype == 0xac03 || msgtype == 0xac05 || msgtype == 0xac06
    ensures !v.Array? || |v.items| != Fields(msgtype) ==> FromValue(msgtype, v) == Failure(UnexpectedArray)
    ensures && v.Array? && k < |v.items| == Fields(msgtype) && !Readable(msgtype, k, v.items[k])
            && (forall j :: 0 <= j < k ==> Readable(msgtype, j, v.items[j])) ==>
              FromValue(msgtype, v) == Failure(Complaint(msgtype, k, v.items[k]))
  {
    hide ExpectStrings, AllStrings;
    if v.Array? && |v.items| == 10 && v.items[0].Array? {
      StringsIff(v.items[0].items);
      StringError(v.items[0].items);
    }
  }

  lemma Truncated32(i: int)
    ensures -0x8000_0000 <= Signed(i % U32, U32) < 0x8000_0000 && (i - Signed(i % U32, U32)) % U32 == 0
  {
    var q := i / U32;
    if i % U32 < U32 / 2 {
      Arithmetic.DivModUnique(i - Signed(i % U32, U32), U32, q, 0);
    } else {
      Arithmetic.DivModUnique(i - Signed(i % U32, U32), U32, q + 1, 0);
    }
  }

  lemma SignedBack(i: i64)
    ensures 0 <= i % U64 < U64 && Signed(i % U64, U64) == i
  {
    SignedCast(i, U64);
  }
}
