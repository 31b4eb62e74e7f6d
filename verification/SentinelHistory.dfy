/** The tracker's pruned lists against the plain definition over the whole history. */
module SentinelHistory {
  import opened Options
  import opened Sentinel

  /** An event with the clock when it is taken in, and again if a penalty is applied. */
  datatype Timed = Timed(e: Event, now: Time, later: Time)

  type Peers = map<Key, Record>

  function RecordFor(peers: Peers, e: Event): Record {
    if e.key in peers then peers[e.key] else NewRecord(e.key.serverInterfaceId, e.interfaceName)
  }

  function Step(peers: Peers, t: Timed, policy: Policy): (Peers, Option<Action>) {
    var (r, action) := Ingested(RecordFor(peers, t.e), t.e, t.now, t.later, policy);
    (peers[t.e.key := r], action)
  }

  function Run(h: seq<Timed>, policy: Policy): Peers {
    if h == [] then map[] else Step(Run(h[..|h| - 1], policy), h[|h| - 1], policy).0
  }

  /** What the last event of a history makes the tracker do. */
  function LastAction(h: seq<Timed>, policy: Policy): Option<Action>
    requires h != []
  {
    Step(Run(h[..|h| - 1], policy), h[|h| - 1], policy).1
  }

  /** The clock never runs backwards. */
  ghost predicate Monotone(h: seq<Timed>) {
    forall i, j :: 0 <= i < j < |h| ==> h[i].now <= h[j].now
  }

  // ----- the plain definition -----

  predicate Seen(h: seq<Timed>, k: Key) {
    h != [] && (h[|h| - 1].e.key == k || Seen(h[..|h| - 1], k))
  }

  /** The time of a peer's last event of any kind. */
  function LastSeen(h: seq<Timed>, k: Key): Time {
    if h == [] then 0
    else if h[|h| - 1].e.key == k then h[|h| - 1].now
    else LastSeen(h[..|h| - 1], k)
  }

  /** Every time a peer was counted under c since its last penalty, none forgotten. */
  function Since(h: seq<Timed>, k: Key, c: Counter, policy: Policy): seq<Time>
    decreases |h|, 0
  {
    if h == [] then []
    else
      var before, t := h[..|h| - 1], h[|h| - 1];
      if t.e.key != k then Since(before, k, c, policy)
      else if Fires(h, policy) then []
      else Since(before, k, c, policy) + if Counted(policy, t.e) == Some(c) then [t.now] else []
  }

  /** Whether the last event brings its peer's count inside the window to the threshold. */
  predicate Fires(h: seq<Timed>, policy: Policy)
    requires h != []
    decreases |h| - 1, 1
  {
    var before, t := h[..|h| - 1], h[|h| - 1];
    match Counted(policy, t.e)
    case None => false
    case Some(c) =>
      && policy.Enabled(c)
      && |Within(Since(before, t.e.key, c, policy) + [t.now], t.now, policy.Window(c))| >= policy.Threshold(c)
  }

  // ----- windows -----

  /** A window keeps exactly the times no older than it, as often as they occur, and takes a
      list in parts, so in order. */
  lemma {:induction false} WithinExactly(ts: seq<Time>, now: Time, w: nat, t: Time)
    ensures multiset(Within(ts, now, w))[t] == if now - t <= w then multiset(ts)[t] else 0
  {
    if ts != [] {
      var last := |ts| - 1;
      WithinExactly(ts[..last], now, w, t);
      var kept := Within(ts[..last], now, w);
      assert ts == ts[..last] + [ts[last]];
      assert multiset(ts) == multiset(ts[..last]) + multiset([ts[last]]);
      assert multiset(kept + [ts[last]]) == multiset(kept) + multiset([ts[last]]) && kept + [] == kept;
    }
  }

  lemma {:induction false} WithinAppend(a: seq<Time>, b: seq<Time>, now: Time, w: nat)
    ensures Within(a + b, now, w) == Within(a, now, w) + Within(b, now, w)
  {
    if b == [] {
      assert a + b == a;
    } else {
      var last := |b| - 1;
      WithinAppend(a, b[..last], now, w);
      assert (a + b)[..|a + b| - 1] == a + b[..last] && (a + b)[|a + b| - 1] == b[last];
    }
  }

  /** What each counter counts: connections, disconnections that come early and without any
      data received, idle timeouts and write stalls. */
  lemma CountedExactly(policy: Policy, e: Event, c: Counter)
    ensures Counted(policy, e) == Some(c) <==>
              match c
              case Connects => e.kind == Connected
              case Flaps => e.kind == Disconnected && !e.hadReceivedData
                            && e.connectedForSecs * 1_000_000_000 <= policy.flapMaxConnectionAge
              case IdleTimeouts => e.kind == IdleTimeout
              case WriteStalls => e.kind == WriteStall
  {
  }

  /** Pruning twice, at increasing times, is pruning once. */
  lemma {:induction false} WithinTwice(ts: seq<Time>, t0: Time, now: Time, w: nat)
    requires t0 <= now
    ensures Within(Within(ts, t0, w), now, w) == Within(ts, now, w)
  {
    if ts != [] {
      var last := |ts| - 1;
      var kept := Within(ts[..last], t0, w);
      WithinTwice(ts[..last], t0, now, w);
      assert (kept + [ts[last]])[..|kept|] == kept;
      assert kept + [] == kept;
    }
  }

  lemma WithinSnoc(ts: seq<Time>, now: Time, w: nat)
    ensures Within(ts + [now], now, w) == Within(ts, now, w) + [now]
  {
    assert (ts + [now])[..|ts|] == ts;
  }

  // ----- one event -----

  /** A counted list stays below its threshold between events, so its length never
      comes near the width of the cast. */
  ghost predicate Bounded(r: Record, policy: Policy) {
    forall c: Counter :: policy.Enabled(c) ==>
      |r.Times(c)| < if policy.Threshold(c) > 1 then policy.Threshold(c) else 1
  }

  lemma DecayKeepsEvents(r: Record, now: Time, policy: Policy)
    ensures Decayed(r, now, policy).events == r.events
  {
  }

  lemma RefreshedTimes(r: Record, e: Event, now: Time, policy: Policy, c: Counter)
    ensures Refreshed(r, e, now, policy).Times(c) == Within(r.Times(c), now, policy.Window(c))
  {
    hide Decayed, Within;
    DecayKeepsEvents(Pruned(Named(r, e), now, policy), now, policy);
  }

  /** One event on one record, in terms of its lists alone. */
  lemma IngestedTimes(r: Record, e: Event, now: Time, later: Time, policy: Policy)
    requires Bounded(r, policy)
    ensures var (r', action) := Ingested(r, e, now, later, policy);
            var counter := Counted(policy, e);
            && (action.Some? <==>
                  (&& counter.Some?
                   && policy.Enabled(counter.value)
                   && |Within(r.Times(counter.value), now, policy.Window(counter.value))| + 1
                      >= policy.Threshold(counter.value)))
            && (forall c: Counter :: r'.Times(c) ==
                  if action.Some? then []
                  else Within(r.Times(c), now, policy.Window(c)) + if counter == Some(c) then [now] else [])
            && Bounded(r', policy)
  {
    hide Decayed, Within, Refreshed, BanSecs;
    var mid := Refreshed(r, e, now, policy);
    forall c: Counter
      ensures mid.Times(c) == Within(r.Times(c), now, policy.Window(c))
      ensures mid.Times(c) + [] == mid.Times(c)
    {
      RefreshedTimes(r, e, now, policy, c);
    }
  }

  // ----- whole histories -----

  /** Where the tracker stands after a history: for every peer seen, every pruned list
      is the plain list since the last penalty cut to the window. */
  ghost predicate Agrees(peers: Peers, h: seq<Timed>, k: Key, policy: Policy) {
    && (k in peers <==> Seen(h, k))
    && (k in peers ==> Bounded(peers[k], policy))
    && (k in peers ==> forall c: Counter ::
          peers[k].Times(c) == Within(Since(h, k, c, policy), LastSeen(h, k), policy.Window(c)))
  }

  lemma {:induction false} NeverSeen(h: seq<Timed>, k: Key, c: Counter, policy: Policy)
    requires !Seen(h, k)
    ensures Since(h, k, c, policy) == []
  {
    if h != [] {
      NeverSeen(h[..|h| - 1], k, c, policy);
    }
  }

  lemma {:induction false} LastSeenBefore(h: seq<Timed>, k: Key, now: Time)
    requires forall i :: 0 <= i < |h| ==> h[i].now <= now
    ensures LastSeen(h, k) <= now
  {
    if h != [] && h[|h| - 1].e.key != k {
      LastSeenBefore(h[..|h| - 1], k, now);
    }
  }

  /** The pruned list an event meets is the plain list cut to the window at its time. */
  lemma WindowMet(peers: Peers, h: seq<Timed>, t: Timed, c: Counter, policy: Policy)
    requires Agrees(peers, h, t.e.key, policy)
    requires forall i :: 0 <= i < |h| ==> h[i].now <= t.now
    ensures Within(RecordFor(peers, t.e).Times(c), t.now, policy.Window(c))
         == Within(Since(h, t.e.key, c, policy), t.now, policy.Window(c))
  {
    hide Within, Since, Seen, LastSeen;
    if t.e.key in peers {
      LastSeenBefore(h, t.e.key, t.now);
      WithinTwice(Since(h, t.e.key, c, policy), LastSeen(h, t.e.key), t.now, policy.Window(c));
    } else {
      NeverSeen(h, t.e.key, c, policy);
    }
  }

  lemma NewRecordBounded(id: u64, name: string, policy: Policy)
    ensures Bounded(NewRecord(id, name), policy)
  {
  }

  /** One event keeps the agreement for its own peer, and acts exactly when the plain
      count says so. */
  lemma OwnEvent(peers: Peers, h: seq<Timed>, policy: Policy)
    requires h != [] && Monotone(h)
    requires Agrees(peers, h[..|h| - 1], h[|h| - 1].e.key, policy)
    ensures var (peers', action) := Step(peers, h[|h| - 1], policy);
            && Agrees(peers', h, h[|h| - 1].e.key, policy)
            && (action.Some? <==> Fires(h, policy))
  {
    hide Within, Ingested, Bounded, Counted;
    var before, t := h[..|h| - 1], h[|h| - 1];
    var k, r := t.e.key, RecordFor(peers, t.e);
    NewRecordBounded(k.serverInterfaceId, t.e.interfaceName, policy);
    IngestedTimes(r, t.e, t.now, t.later, policy);
    var (peers', action) := Step(peers, t, policy);
    forall c: Counter
      ensures Within(r.Times(c), t.now, policy.Window(c))
           == Within(Since(before, k, c, policy), t.now, policy.Window(c))
    {
      WindowMet(peers, before, t, c, policy);
    }
    if Counted(policy, t.e).Some? {
      var c := Counted(policy, t.e).value;
      WithinSnoc(Since(before, k, c, policy), t.now, policy.Window(c));
    }
    assert action.Some? <==> Fires(h, policy);
    forall c: Counter
      ensures peers'[k].Times(c) == Within(Since(h, k, c, policy), t.now, policy.Window(c))
    {
      WithinNothing(t.now, policy.Window(c));
      WithinSnoc(Since(before, k, c, policy), t.now, policy.Window(c));
      assert Since(before, k, c, policy) + [] == Since(before, k, c, policy);
    }
  }

  lemma WithinNothing(now: Time, w: nat)
    ensures Within([], now, w) == []
  {
  }

  /** Over any interleaved history with a monotone clock. */
  lemma {:induction false} TrackerAgrees(h: seq<Timed>, k: Key, policy: Policy)
    requires Monotone(h)
    ensures Agrees(Run(h, policy), h, k, policy)
  {
    hide Within, Ingested, Bounded, Counted, Fires;
    if h != [] {
      var before, t := h[..|h| - 1], h[|h| - 1];
      TrackerAgrees(before, k, policy);
      if t.e.key == k {
        OwnEvent(Run(before, policy), h, policy);
      }
    }
  }

  /** The tracker penalizes a peer exactly when its plain count reaches the threshold. */
  lemma ActsExactlyWhen(h: seq<Timed>, policy: Policy)
    requires h != [] && Monotone(h)
    ensures LastAction(h, policy).Some? <==> Fires(h, policy)
  {
    hide Within, Ingested, Bounded, Counted, Fires, Agrees, Step;
    var before := h[..|h| - 1];
    TrackerAgrees(before, h[|h| - 1].e.key, policy);
    OwnEvent(Run(before, policy), h, policy);
  }

  /** How many events of a counter the last event of a history makes in a window, itself
      counted, since the peer's last penalty. */
  function Recent(h: seq<Timed>, c: Counter, window: nat, policy: Policy): nat
    requires h != []
  {
    var before, t := h[..|h| - 1], h[|h| - 1];
    |Within(Since(before, t.e.key, c, policy) + [t.now], t.now, window)|
  }

  /** The same in the terms of the configuration: which events are held to which threshold in
      which window, and which thresholds are off at zero. */
  lemma ActsByKind(h: seq<Timed>, policy: Policy)
    requires h != [] && Monotone(h)
    ensures var e := h[|h| - 1].e;
            LastAction(h, policy).Some? <==>
              match e.kind
              case WriteStall =>
                Recent(h, WriteStalls, policy.writeStallWindow, policy) >= policy.writeStallThreshold
              case IdleTimeout =>
                Recent(h, IdleTimeouts, policy.idleTimeoutWindow, policy) >= policy.idleTimeoutThreshold
              case Connected =>
                && policy.connectRateThreshold != 0
                && Recent(h, Connects, policy.connectRateWindow, policy) >= policy.connectRateThreshold
              case Disconnected =>
                && !e.hadReceivedData && e.connectedForSecs * 1_000_000_000 <= policy.flapMaxConnectionAge
                && policy.flapThreshold != 0
                && Recent(h, Flaps, policy.flapWindow, policy) >= policy.flapThreshold
              case _ => false
  {
    hide Within, Since, LastAction;
    ActsExactlyWhen(h, policy);
  }

  // ----- peers do not interfere -----

  /** A history with the events of the other peers taken out. */
  function Only(h: seq<Timed>, k: Key): seq<Timed> {
    if h == [] then []
    else
      var before := Only(h[..|h| - 1], k);
      if h[|h| - 1].e.key == k then before + [h[|h| - 1]] else before
  }

  lemma {:induction false} Isolation(h: seq<Timed>, k: Key, policy: Policy)
    ensures k in Run(h, policy) <==> k in Run(Only(h, k), policy)
    ensures k in Run(h, policy) ==> Run(h, policy)[k] == Run(Only(h, k), policy)[k]
    ensures h != [] && h[|h| - 1].e.key == k ==>
              Only(h, k) != [] && LastAction(h, policy) == LastAction(Only(h, k), policy)
  {
    hide Ingested;
    if h != [] {
      var before, t := h[..|h| - 1], h[|h| - 1];
      Isolation(before, k, policy);
      if t.e.key == k {
        var own := Only(h, k);
        assert own[..|own| - 1] == Only(before, k) && own[|own| - 1] == t;
      }
    }
  }
}
