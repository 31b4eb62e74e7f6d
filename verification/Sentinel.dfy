/** The sentinel's per-peer record and what one event does to it, as functions on values. */
module Sentinel {
  import opened Arithmetic
  import opened Options

  /** Times and durations are in nanoseconds. */
  type Time = nat

  const SECOND: nat := 1_000_000_000
  const U32: nat := 0x1_0000_0000
  const U64_MAX: nat := 0xFFFF_FFFF_FFFF_FFFF
  const USIZE_MAX: nat := 0xFFFF_FFFF_FFFF_FFFF

  type u8 = x: int | 0 <= x < 256
  type u32 = x: int | 0 <= x < U32
  type u64 = x: int | 0 <= x <= U64_MAX

  datatype Key = Key(serverInterfaceId: u64, ip: seq<int>)

  /** The four kinds of event that are counted, each in its own sliding window. */
  datatype Counter = WriteStalls | IdleTimeouts | Flaps | Connects

  datatype Policy = Policy(
    writeStallThreshold: u32,
    idleTimeoutThreshold: u32,
    writeStallWindow: nat,
    idleTimeoutWindow: nat,
    flapThreshold: u32,
    flapWindow: nat,
    flapMaxConnectionAge: nat,
    connectRateThreshold: u32,
    connectRateWindow: nat,
    baseBlacklistSecs: u64,
    penaltyDecayInterval: Option<nat>)
  {
    function Window(c: Counter): nat {
      match c
      case WriteStalls => writeStallWindow
      case IdleTimeouts => idleTimeoutWindow
      case Flaps => flapWindow
      case Connects => connectRateWindow
    }

    function Threshold(c: Counter): u32 {
      match c
      case WriteStalls => writeStallThreshold
      case IdleTimeouts => idleTimeoutThreshold
      case Flaps => flapThreshold
      case Connects => connectRateThreshold
    }

    /** A zero threshold switches flap and connect-rate detection off. It does not
        switch the other two off: they then fire on every event. */
    predicate Enabled(c: Counter) {
      c == WriteStalls || c == IdleTimeouts || Threshold(c) > 0
    }
  }

  datatype Kind = Connected | Disconnected | IdleTimeout | WriteStall | Penalty | Unknown

  datatype Event = Event(key: Key, interfaceName: string, kind: Kind, connectedForSecs: u64, hadReceivedData: bool)

  /** Which counter an event adds to, if any. */
  function Counted(policy: Policy, e: Event): Option<Counter> {
    match e.kind
    case Connected => Some(Connects)
    case Disconnected =>
      if !e.hadReceivedData && e.connectedForSecs <= policy.flapMaxConnectionAge / SECOND then Some(Flaps) else None
    case IdleTimeout => Some(IdleTimeouts)
    case WriteStall => Some(WriteStalls)
    case Penalty => None
    case Unknown => None
  }

  function Reason(c: Counter): string {
    match c
    case WriteStalls => "repeated write stalls"
    case IdleTimeouts => "repeated idle timeouts"
    case Flaps => "rapid silent reconnect churn"
    case Connects => "connection rate exceeded"
  }

  datatype Record = Record(
    serverInterfaceId: u64,
    events: map<Counter, seq<Time>>,
    level: u8,
    lastBlacklistAt: Option<Time>,
    blacklistedUntil: Option<Time>,
    lastDecayCheckAt: Option<Time>,
    liveConnections: nat,
    interfaceName: string)
  {
    /** The recorded times of one counter. */
    function Times(c: Counter): seq<Time> {
      if c in events then events[c] else []
    }
  }

  datatype Action = Action(
    serverInterfaceId: u64, ip: seq<int>, interfaceName: string, durationSecs: u64, level: u8, reason: string)

  function NewRecord(serverInterfaceId: u64, interfaceName: string): Record {
    Record(serverInterfaceId, NoEvents(), 0, None, None, None, 0, interfaceName)
  }

  function NoEvents(): map<Counter, seq<Time>> {
    map[WriteStalls := [], IdleTimeouts := [], Flaps := [], Connects := []]
  }

  // ----- windows -----

  /** `now.duration_since(t)`, which is zero for a time in the future. */
  function Elapsed(now: Time, t: Time): nat {
    if t <= now then now - t else 0
  }

  /** The times no further back than the window, in order. */
  function Within(ts: seq<Time>, now: Time, window: nat): (r: seq<Time>)
    ensures |r| <= |ts|
  {
    if ts == [] then []
    else
      var last := |ts| - 1;
      Within(ts[..last], now, window) + if Elapsed(now, ts[last]) <= window then [ts[last]] else []
  }

  function Pruned(r: Record, now: Time, policy: Policy): Record {
    r.(events := map[
         WriteStalls := Within(r.Times(WriteStalls), now, policy.writeStallWindow),
         IdleTimeouts := Within(r.Times(IdleTimeouts), now, policy.idleTimeoutWindow),
         Flaps := Within(r.Times(Flaps), now, policy.flapWindow),
         Connects := Within(r.Times(Connects), now, policy.connectRateWindow)])
  }

  // ----- penalties -----

  function DecayAnchor(r: Record): Option<Time> {
    if r.lastDecayCheckAt.Some? then r.lastDecayCheckAt
    else if r.blacklistedUntil.Some? then r.blacklistedUntil
    else r.lastBlacklistAt
  }

  /** Whole steps in the time since the anchor. Both are cut to whole seconds first, and
      a step is at least one second. */
  function LevelsToDrop(since: nat, interval: nat): (n: nat)
    ensures n <= 255
  {
    var elapsed := since / SECOND;
    var step := if interval / SECOND > 1 then interval / SECOND else 1;
    DivModIdentity(elapsed, step);
    if elapsed / step < 255 then elapsed / step else 255
  }

  function Decayed(r: Record, now: Time, policy: Policy): Record {
    if policy.penaltyDecayInterval.None? then r
    else if r.level == 0 || r.liveConnections > 0 then r
    else if r.blacklistedUntil.Some? && now < r.blacklistedUntil.value then r
    else if DecayAnchor(r).None? || now <= DecayAnchor(r).value then r
    else
      var interval, anchor := policy.penaltyDecayInterval.value, DecayAnchor(r).value;
      var levels := LevelsToDrop(now - anchor, interval);
      if levels == 0 then r
      else
        var level := if r.level > levels then r.level - levels else 0;
        r.(level := level, lastDecayCheckAt := if level == 0 then None else Some(anchor + interval * levels))
  }

  /** The ban for a level: doubling from the base, capped at 2^20 and at the word. */
  function BanSecs(level: u8, base: u64): (d: u64)
    requires level >= 1
  {
    var multiplier := Pow2(if level - 1 < 20 then level - 1 else 20);
    NonNegative(base, multiplier);
    if base * multiplier <= U64_MAX then base * multiplier else U64_MAX
  }

  function Blacklisted(r: Record, key: Key, c: Counter, later: Time, policy: Policy): (Record, Action) {
    var level: u8 := if r.level < 255 then r.level + 1 else 255;
    var secs := BanSecs(level, policy.baseBlacklistSecs);
    (r.(level := level,
        lastBlacklistAt := Some(later),
        blacklistedUntil := Some(later + secs * SECOND),
        lastDecayCheckAt := None,
        events := NoEvents()),
     Action(r.serverInterfaceId, key.ip, r.interfaceName, secs, level, Reason(c)))
  }

  // ----- one event -----

  function Reconnected(live: nat, kind: Kind): nat {
    match kind
    case Connected => if live < USIZE_MAX then live + 1 else USIZE_MAX
    case Disconnected => if live > 0 then live - 1 else 0
    case IdleTimeout => if live > 0 then live - 1 else 0
    case WriteStall => if live > 0 then live - 1 else 0
    case Penalty => live
    case Unknown => live
  }

  function Named(r: Record, e: Event): Record {
    r.(serverInterfaceId := e.key.serverInterfaceId,
       interfaceName := if e.interfaceName != "" then e.interfaceName else r.interfaceName)
  }

  /** The record when an event reaches it: identified, pruned, decayed and with its
      connection count brought up to date. */
  function Refreshed(r: Record, e: Event, now: Time, policy: Policy): Record {
    var decayed := Decayed(Pruned(Named(r, e), now, policy), now, policy);
    decayed.(liveConnections := Reconnected(decayed.liveConnections, e.kind))
  }

  /** Counting one event. The code compares the length of the list, cast to u32, with
      the threshold. `later` is the second clock reading, taken when a penalty applies. */
  function Ingested(r: Record, e: Event, now: Time, later: Time, policy: Policy): (Record, Option<Action>) {
    var fresh_ := Refreshed(r, e, now, policy);
    match Counted(policy, e)
    case None => (fresh_, None)
    case Some(c) =>
      var times := fresh_.Times(c) + [now];
      var counted := fresh_.(events := fresh_.events[c := times]);
      if policy.Enabled(c) && |times| % U32 >= policy.Threshold(c) then
        var (punished, action) := Blacklisted(counted, e.key, c, later, policy);
        (punished, Some(action))
      else (counted, None)
  }
}
