/** The tracker as the code runs it: records updated in place behind a map of peers. */
module SentinelTracker {
  import opened Options
  import opened Sentinel
  import opened SentinelHistory

  class PeerRecord {
    var serverInterfaceId: u64
    var writeStallEvents: seq<Time>
    var idleTimeoutEvents: seq<Time>
    var flapEvents: seq<Time>
    var connectEvents: seq<Time>
    var blacklistLevel: u8
    var lastBlacklistAt: Option<Time>
    var blacklistedUntil: Option<Time>
    var lastDecayCheckAt: Option<Time>
    var liveConnections: nat
    var interfaceName: string

    ghost function View(): Record
      reads this
    {
      Record(serverInterfaceId,
             map[WriteStalls := writeStallEvents, IdleTimeouts := idleTimeoutEvents,
                 Flaps := flapEvents, Connects := connectEvents],
             blacklistLevel, lastBlacklistAt, blacklistedUntil, lastDecayCheckAt, liveConnections, interfaceName)
    }

    constructor (serverInterfaceId: u64, interfaceName: string)
      ensures View() == NewRecord(serverInterfaceId, interfaceName)
    {
      this.serverInterfaceId := serverInterfaceId;
      writeStallEvents, idleTimeoutEvents, flapEvents, connectEvents := [], [], [], [];
      blacklistLevel, lastBlacklistAt, blacklistedUntil, lastDecayCheckAt := 0, None, None, None;
      liveConnections := 0;
      this.interfaceName := interfaceName;
    }

    method Prune(now: Time, policy: Policy)
      modifies this
      ensures View() == Pruned(old(View()), now, policy)
    {
      hide Within;
      writeStallEvents := Retain(writeStallEvents, now, policy.writeStallWindow);
      idleTimeoutEvents := Retain(idleTimeoutEvents, now, policy.idleTimeoutWindow);
      flapEvents := Retain(flapEvents, now, policy.flapWindow);
      connectEvents := Retain(connectEvents, now, policy.connectRateWindow);
    }

    method DecayPenalty(now: Time, policy: Policy)
      modifies this`blacklistLevel, this`lastDecayCheckAt
      ensures View() == Decayed(old(View()), now, policy)
    {
      hide LevelsToDrop;
      if policy.penaltyDecayInterval.None? {
        return;
      }
      var interval := policy.penaltyDecayInterval.value;
      if blacklistLevel == 0 || liveConnections > 0 {
        return;
      }
      if blacklistedUntil.Some? && now < blacklistedUntil.value {
        return;
      }
      var anchor := if lastDecayCheckAt.Some? then lastDecayCheckAt
                    else if blacklistedUntil.Some? then blacklistedUntil else lastBlacklistAt;
      if anchor.None? || now <= anchor.value {
        return;
      }
      var levels := LevelsToDrop(now - anchor.value, interval);
      if levels == 0 {
        return;
      }
      blacklistLevel := if blacklistLevel > levels then blacklistLevel - levels else 0;
      lastDecayCheckAt := if blacklistLevel == 0 then None else Some(anchor.value + interval * levels);
    }

    /** Appends to the list of a counter and returns its new length. */
    method Push(c: Counter, now: Time) returns (count: nat)
      modifies this
      ensures View() == old(View()).(events := old(View()).events[c := old(View()).Times(c) + [now]])
      ensures count == |View().Times(c)|
    {
      match c
      case WriteStalls =>
        writeStallEvents := writeStallEvents + [now];
        count := |writeStallEvents|;
      case IdleTimeouts =>
        idleTimeoutEvents := idleTimeoutEvents + [now];
        count := |idleTimeoutEvents|;
      case Flaps =>
        flapEvents := flapEvents + [now];
        count := |flapEvents|;
      case Connects =>
        connectEvents := connectEvents + [now];
        count := |connectEvents|;
    }

    method Punish(key: Key, c: Counter, later: Time, policy: Policy) returns (action: Action)
      modifies this
      ensures (View(), action) == Blacklisted(old(View()), key, c, later, policy)
    {
      hide BanSecs;
      blacklistLevel := if blacklistLevel < 255 then blacklistLevel + 1 else 255;
      var secs := BanSecs(blacklistLevel, policy.baseBlacklistSecs);
      lastBlacklistAt := Some(later);
      blacklistedUntil := Some(later + secs * SECOND);
      lastDecayCheckAt := None;
      writeStallEvents, idleTimeoutEvents, flapEvents, connectEvents := [], [], [], [];
      action := Action(serverInterfaceId, key.ip, interfaceName, secs, blacklistLevel, Reason(c));
    }
  }

  method Retain(ts: seq<Time>, now: Time, window: nat) returns (kept: seq<Time>)
    ensures kept == Within(ts, now, window)
  {
    kept := [];
    for i := 0 to |ts|
      invariant kept == Within(ts[..i], now, window)
    {
      assert ts[..i + 1][..i] == ts[..i];
      if Elapsed(now, ts[i]) <= window {
        kept := kept + [ts[i]];
      } else {
        assert kept + [] == kept;
      }
    }
    assert ts[..|ts|] == ts;
  }

  class PeerTracker {
    var peers: map<Key, PeerRecord>
    const policy: Policy

    ghost predicate Valid()
      reads this
    {
      forall k, k' :: k in peers && k' in peers && k != k' ==> peers[k] != peers[k']
    }

    ghost function Views(): Peers
      reads this, peers.Values
    {
      map k | k in peers :: peers[k].View()
    }

    constructor (policy: Policy)
      ensures Valid() && Views() == map[] && this.policy == policy
    {
      peers := map[];
      this.policy := policy;
    }

    /** `entry(key).or_insert_with(...)`. */
    method RecordOf(e: Event) returns (record: PeerRecord)
      requires Valid()
      modifies this
      ensures Valid() && e.key in peers && peers[e.key] == record
      ensures record in old(peers.Values) || fresh(record)
      ensures peers.Values <= old(peers.Values) + {record}
      ensures Views() == old(Views())[e.key := RecordFor(old(Views()), e)]
    {
      if e.key !in peers {
        record := new PeerRecord(e.key.serverInterfaceId, e.interfaceName);
        peers := peers[e.key := record];
      } else {
        record := peers[e.key];
      }
    }

    /** Updating one record changes one entry of the map and no other. */
    method UpdatePeer(record: PeerRecord, e: Event, now: Time, later: Time) returns (action: Option<Action>)
      requires Valid() && e.key in peers && peers[e.key] == record
      modifies record
      ensures Valid() && e.key in old(Views())
      ensures var (r, a) := Ingested(old(Views())[e.key], e, now, later, policy);
              Views() == old(Views())[e.key := r] && action == a
    {
      hide Ingested;
      action := Update(record, e, now, later, policy);
    }

    /** Events that are not backbone peer events, or do not decode, change nothing. */
    method Ingest(event: Option<Event>, now: Time, later: Time) returns (action: Option<Action>)
      requires Valid()
      modifies this, peers.Values
      ensures Valid()
      ensures event.None? ==> action.None? && Views() == old(Views())
      ensures event.Some? ==> Views() == Step(old(Views()), Timed(event.value, now, later), policy).0
      ensures event.Some? ==> action == Step(old(Views()), Timed(event.value, now, later), policy).1
    {
      if event.None? {
        return None;
      }
      hide Ingested, Views;
      var e := event.value;
      ghost var before := Views();
      var record := RecordOf(e);
      ghost var entered := Views();
      action := UpdatePeer(record, e, now, later);
      Overwritten(before, e.key, RecordFor(before, e), Ingested(RecordFor(before, e), e, now, later, policy).0);
    }
  }

  lemma Overwritten(m: Peers, k: Key, r: Record, r': Record)
    ensures m[k := r][k := r'] == m[k := r'] && m[k := r][k] == r
  {
  }

  /** What `ingest` does to the record it found. */
  method Update(record: PeerRecord, e: Event, now: Time, later: Time, policy: Policy) returns (action: Option<Action>)
    modifies record
    ensures (record.View(), action) == Ingested(old(record.View()), e, now, later, policy)
  {
    hide Within, Decayed, BanSecs;
    record.serverInterfaceId := e.key.serverInterfaceId;
    if e.interfaceName != "" {
      record.interfaceName := e.interfaceName;
    }
    record.Prune(now, policy);
    record.DecayPenalty(now, policy);
    record.liveConnections := Reconnected(record.liveConnections, e.kind);
    assert record.View() == Refreshed(old(record.View()), e, now, policy);
    var counter := Counted(policy, e);
    if counter.None? {
      return None;
    }
    var count := record.Push(counter.value, now);
    if policy.Enabled(counter.value) && count % U32 >= policy.Threshold(counter.value) {
      var a := record.Punish(e.key, counter.value, later, policy);
      return Some(a);
    }
    action := None;
  }
}
