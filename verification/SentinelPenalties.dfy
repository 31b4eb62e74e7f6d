/** The level of a peer over whole histories: what is left of its last penalty. */
module SentinelPenalties {
  import Arithmetic
  import opened Options
  import opened Sentinel
  import opened SentinelDecay
  import opened SentinelHistory

  /** The peer's live connections, counted over its whole history. */
  function Live(h: seq<Timed>, k: Key): nat {
    if h == [] then 0
    else
      var before, t := h[..|h| - 1], h[|h| - 1];
      if t.e.key == k then Reconnected(Live(before, k), t.e.kind) else Live(before, k)
  }

  lemma IngestedLive(r: Record, e: Event, now: Time, later: Time, policy: Policy)
    ensures Ingested(r, e, now, later, policy).0.liveConnections == Reconnected(r.liveConnections, e.kind)
  {
    DecayedLive(Pruned(Named(r, e), now, policy), now, policy);
  }

  lemma {:induction false} LiveIs(h: seq<Timed>, k: Key, policy: Policy)
    ensures k in Run(h, policy) ==> Run(h, policy)[k].liveConnections == Live(h, k)
    ensures k !in Run(h, policy) ==> Live(h, k) == 0
  {
    hide Ingested, Reconnected;
    if h != [] {
      var before, t := h[..|h| - 1], h[|h| - 1];
      LiveIs(before, k, policy);
      IngestedLive(RecordFor(Run(before, policy), t.e), t.e, t.now, t.later, policy);
    }
  }

  /** Connections made less connections ended. */
  function Balance(h: seq<Timed>, k: Key): int {
    if h == [] then 0
    else
      var t := h[|h| - 1];
      Balance(h[..|h| - 1], k)
      + if t.e.key != k then 0
        else
          match t.e.kind
          case Connected => 1
          case Disconnected => -1
          case IdleTimeout => -1
          case WriteStall => -1
          case _ => 0
  }

  /** The number of live connections, which is never taken below nothing, is the largest balance
      of any stretch up to now. */
  lemma {:induction false} LiveIsLargest(h: seq<Timed>, k: Key)
    requires |h| <= 0xFFFF_FFFF_FFFF_FFFF
    ensures forall n :: 0 <= n <= |h| ==> Balance(h[n..], k) <= Live(h, k)
    ensures exists n :: 0 <= n <= |h| && Balance(h[n..], k) == Live(h, k)
    ensures Live(h, k) <= |h|
  {
    assert h[|h|..] == [];
    assert Balance(h[|h|..], k) == 0;
    if h != [] {
      var last := |h| - 1;
      var before := h[..last];
      LiveIsLargest(before, k);
      forall n | 0 <= n <= last
        ensures Balance(h[n..], k) == Balance(before[n..], k) + Balance([h[last]], k)
      {
        BalanceMore(h, n, k);
      }
      BalanceOne(h[last], k);
      var m :| 0 <= m <= last && Balance(before[m..], k) == Live(before, k);
      assert Live(h, k) == Balance(h[m..], k) || Live(h, k) == Balance(h[|h|..], k);
    }
  }

  lemma BalanceOne(t: Timed, k: Key)
    ensures t.e.key != k ==> Balance([t], k) == 0
    ensures t.e.key == k && t.e.kind == Connected ==> Balance([t], k) == 1
    ensures t.e.key == k && (t.e.kind == Disconnected || t.e.kind == IdleTimeout || t.e.kind == WriteStall) ==>
              Balance([t], k) == -1
    ensures t.e.key == k && (t.e.kind == Penalty || t.e.kind == Unknown) ==> Balance([t], k) == 0
  {
    assert [t][..0] == [];
  }

  lemma BalanceMore(h: seq<Timed>, n: nat, k: Key)
    requires h != [] && n <= |h| - 1
    ensures Balance(h[n..], k) == Balance(h[..|h| - 1][n..], k) + Balance([h[|h| - 1]], k)
  {
    var s := h[n..];
    assert s[..|s| - 1] == h[..|h| - 1][n..] && s[|s| - 1] == h[|h| - 1];
    BalanceOne(h[|h| - 1], k);
  }

  lemma {:induction false} LiveBounded(h: seq<Timed>, k: Key)
    ensures Live(h, k) <= 0xFFFF_FFFF_FFFF_FFFF
  {
    if h != [] {
      LiveBounded(h[..|h| - 1], k);
    }
  }

  /** What every record keeps: a level only behind a ban, whose start and end it then knows, and
      no mark of a decay once the level is gone. */
  ghost predicate Anchored(r: Record) {
    && (r.lastBlacklistAt.Some? <==> r.blacklistedUntil.Some?)
    && (r.level > 0 ==> r.blacklistedUntil.Some?)
    && (r.level == 0 ==> r.lastDecayCheckAt.None?)
  }

  lemma AnchoredStep(r: Record, e: Event, now: Time, later: Time, policy: Policy)
    requires Anchored(r)
    ensures Anchored(Ingested(r, e, now, later, policy).0)
  {
    hide Within, BanSecs, LevelsToDrop;
  }

  lemma {:induction false} EveryRecordAnchored(h: seq<Timed>, k: Key, policy: Policy)
    ensures k in Run(h, policy) ==> Anchored(Run(h, policy)[k])
  {
    hide Ingested;
    if h != [] {
      var before, t := h[..|h| - 1], h[|h| - 1];
      EveryRecordAnchored(before, t.e.key, policy);
      EveryRecordAnchored(before, k, policy);
      AnchoredStep(RecordFor(Run(before, policy), t.e), t.e, t.now, t.later, policy);
    }
  }

  /** A penalty leaves a record as the decay law takes it up. */
  lemma PenaltyLeaves(r: Record, e: Event, now: Time, later: Time, policy: Policy)
    requires Ingested(r, e, now, later, policy).1.Some?
    ensures var (r', action) := Ingested(r, e, now, later, policy);
            Banned(r', action.value.level, later + action.value.durationSecs * SECOND)
  {
    hide BanSecs;
  }

  /** An event without a penalty is a check and no more. */
  lemma EventIsCheck(r: Record, e: Event, now: Time, later: Time, policy: Policy)
    requires Ingested(r, e, now, later, policy).1.None?
    ensures var r' := Ingested(r, e, now, later, policy).0;
            var d := Decayed(Pruned(Named(r, e), now, policy), now, policy);
            && r'.level == d.level && r'.blacklistedUntil == d.blacklistedUntil
            && r'.lastDecayCheckAt == d.lastDecayCheckAt
  {
    hide Decayed, Pruned;
  }

  lemma ScheduleOfFields(r: Record, r': Record, level: nat, until: Time, t: Time, interval: nat)
    requires interval > 0 && OnSchedule(r, level, until, t, interval)
    requires r'.level == r.level && r'.blacklistedUntil == r.blacklistedUntil
    requires r'.lastDecayCheckAt == r.lastDecayCheckAt
    ensures OnSchedule(r', level, until, t, interval)
  {
  }

  lemma PrunedFields(r: Record, e: Event, now: Time, policy: Policy)
    ensures var met := Pruned(Named(r, e), now, policy);
            && met.level == r.level && met.liveConnections == r.liveConnections
            && met.blacklistedUntil == r.blacklistedUntil && met.lastDecayCheckAt == r.lastDecayCheckAt
  {
  }

  lemma ConnectedStays(r: Record, now: Time, policy: Policy)
    requires r.liveConnections > 0
    ensures Decayed(r, now, policy) == r
  {
  }

  /** An event moves the schedule on when it meets the record with no live connection, and
      leaves it when it meets it with one. */
  lemma EventOnSchedule(r: Record, t: Timed, level: nat, until: Time, t0: Time, secs: nat, policy: Policy)
    requires secs >= 1 && policy.penaltyDecayInterval == Some(secs * SECOND)
    requires t0 <= t.now && OnSchedule(r, level, until, t0, secs * SECOND)
    requires Ingested(r, t.e, t.now, t.later, policy).1.None?
    ensures OnSchedule(Ingested(r, t.e, t.now, t.later, policy).0, level, until,
                       if r.liveConnections == 0 then t.now else t0, secs * SECOND)
  {
    hide Ingested, Decayed, Pruned, OnSchedule;
    var interval := secs * SECOND;
    var met := Pruned(Named(r, t.e), t.now, policy);
    PrunedFields(r, t.e, t.now, policy);
    ScheduleOfFields(r, met, level, until, t0, interval);
    if r.liveConnections == 0 {
      StaysOnSchedule(met, level, until, t0, t.now, secs, policy);
    } else {
      ConnectedStays(met, t.now, policy);
    }
    EventIsCheck(r, t.e, t.now, t.later, policy);
    ScheduleOfFields(Decayed(met, t.now, policy), Ingested(r, t.e, t.now, t.later, policy).0,
                     level, until, if r.liveConnections == 0 then t.now else t0, interval);
  }

  lemma BannedOnSchedule(r: Record, level: nat, until: Time, interval: nat)
    requires interval > 0 && Banned(r, level, until)
    ensures OnSchedule(r, level, until, 0, interval)
  {
    if until == 0 {
      Arithmetic.DivModUnique(0, interval, 0, 0);
    }
  }

  /** The time of the peer's last event in b that met it with no live connection, after a. */
  function LastIdle(a: seq<Timed>, b: seq<Timed>, k: Key): Time
    decreases |b|
  {
    if b == [] then 0
    else
      var before, t := b[..|b| - 1], b[|b| - 1];
      if t.e.key == k && Live(a + before, k) == 0 then t.now else LastIdle(a, before, k)
  }

  lemma {:induction false} LastIdleBefore(a: seq<Timed>, b: seq<Timed>, k: Key, now: Time)
    requires forall i :: 0 <= i < |b| ==> b[i].now <= now
    ensures LastIdle(a, b, k) <= now
    decreases |b|
  {
    if b != [] {
      LastIdleBefore(a, b[..|b| - 1], k, now);
    }
  }

  /** The events of b bring the peer no further penalty, after a. */
  ghost predicate Calm(a: seq<Timed>, b: seq<Timed>, k: Key, policy: Policy) {
    forall j :: 0 <= j < |b| && b[j].e.key == k ==> LastAction(a + b[..j + 1], policy).None?
  }

  lemma CalmBefore(a: seq<Timed>, b: seq<Timed>, k: Key, policy: Policy)
    requires b != [] && Calm(a, b, k, policy)
    ensures Calm(a, b[..|b| - 1], k, policy)
    ensures b[|b| - 1].e.key == k ==> LastAction(a + b, policy).None?
  {
    hide LastAction;
    var before := b[..|b| - 1];
    forall j | 0 <= j < |before| && before[j].e.key == k
      ensures LastAction(a + before[..j + 1], policy).None?
    {
      assert before[..j + 1] == b[..j + 1] && before[j] == b[j];
    }
    assert b[..|b|] == b;
  }

  lemma {:induction false} CalmOnSchedule(a: seq<Timed>, b: seq<Timed>, k: Key, level: nat, until: Time, secs: nat,
                                          policy: Policy)
    requires secs >= 1 && policy.penaltyDecayInterval == Some(secs * SECOND)
    requires k in Run(a, policy) && OnSchedule(Run(a, policy)[k], level, until, 0, secs * SECOND)
    requires Monotone(b) && Calm(a, b, k, policy)
    ensures k in Run(a + b, policy)
    ensures OnSchedule(Run(a + b, policy)[k], level, until, LastIdle(a, b, k), secs * SECOND)
    decreases |b|
  {
    hide Ingested, OnSchedule, Calm, Live;
    if b == [] {
      assert a + b == a;
    } else {
      var before, t := b[..|b| - 1], b[|b| - 1];
      CalmBefore(a, b, k, policy);
      CalmOnSchedule(a, before, k, level, until, secs, policy);
      assert (a + b)[..|a + b| - 1] == a + before && (a + b)[|a + b| - 1] == t;
      if t.e.key == k {
        LiveIs(a + before, k, policy);
        LastIdleBefore(a, before, k, t.now);
        EventOnSchedule(Run(a + before, policy)[k], t, level, until, LastIdle(a, before, k), secs, policy);
      }
    }
  }

  /** The decay law over histories: after a penalty for any reason and any interleaved history
      b that brings the peer no further one, its level is that of the penalty less the whole
      intervals between the end of that ban and the peer's last event that met it with no
      live connection. */
  lemma LevelAfterPenalty(a: seq<Timed>, b: seq<Timed>, k: Key, secs: nat, policy: Policy)
    requires secs >= 1 && policy.penaltyDecayInterval == Some(secs * SECOND)
    requires a != [] && a[|a| - 1].e.key == k && LastAction(a, policy).Some?
    requires Monotone(b) && Calm(a, b, k, policy)
    ensures var action := LastAction(a, policy).value;
            var until := a[|a| - 1].later + action.durationSecs * SECOND;
            var n := Intervals(until, LastIdle(a, b, k), secs * SECOND);
            && k in Run(a + b, policy)
            && Run(a + b, policy)[k].level == if n < action.level then action.level - n else 0
  {
    hide Ingested, Calm;
    var before, t := a[..|a| - 1], a[|a| - 1];
    var r, action := RecordFor(Run(before, policy), t.e), LastAction(a, policy).value;
    var until := t.later + action.durationSecs * SECOND;
    PenaltyLeaves(r, t.e, t.now, t.later, policy);
    BannedOnSchedule(Run(a, policy)[k], action.level, until, secs * SECOND);
    CalmOnSchedule(a, b, k, action.level, until, secs, policy);
  }
}
