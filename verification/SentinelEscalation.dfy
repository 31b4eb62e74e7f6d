/** How penalties grow over whole histories: the level and the length of every ban, and what
    the tracker says of the peer it bans. */
module SentinelEscalation {
  import opened Arithmetic
  import opened Options
  import opened Sentinel
  import opened SentinelDecay
  import opened SentinelHistory
  import opened SentinelPenalties

  function Min(a: int, b: int): int {
    if a < b then a else b
  }

  // ----- the length of a ban -----

  /** The ban of a level: the base, doubled for each further level, twenty times at the most,
      and no longer than a word can say. */
  lemma BanIs(level: u8, base: u64)
    requires level >= 1
    ensures BanSecs(level, base) == Min(0xFFFF_FFFF_FFFF_FFFF, base * Pow2(Min(level - 1, 20)))
  {
  }

  // ----- one penalty -----

  /** A penalty raises the level the event met by one, up to the byte. */
  lemma PenaltyIs(r: Record, e: Event, now: Time, later: Time, policy: Policy)
    requires Ingested(r, e, now, later, policy).1.Some?
    ensures var (r', action) := Ingested(r, e, now, later, policy);
            var a := action.value;
            && a.level == r'.level == Min(255, Refreshed(r, e, now, policy).level + 1)
            && a.durationSecs == Min(0xFFFF_FFFF_FFFF_FFFF, policy.baseBlacklistSecs * Pow2(Min(a.level - 1, 20)))
            && r'.lastBlacklistAt == Some(later)
            && r'.blacklistedUntil == Some(later + a.durationSecs * SECOND)
            && Counted(policy, e).Some? && a.reason == Reason(Counted(policy, e).value)
  {
    hide Refreshed, Pow2;
    BanIs(Ingested(r, e, now, later, policy).1.value.level, policy.baseBlacklistSecs);
  }

  lemma NamesKept(r: Record, e: Event, now: Time, later: Time, policy: Policy)
    ensures var (r', action) := Ingested(r, e, now, later, policy);
            && r'.serverInterfaceId == e.key.serverInterfaceId
            && r'.interfaceName == (if e.interfaceName != "" then e.interfaceName else r.interfaceName)
            && (action.Some? ==>
                  && action.value.serverInterfaceId == e.key.serverInterfaceId && action.value.ip == e.key.ip
                  && action.value.interfaceName == r'.interfaceName)
  {
    hide BanSecs, Within;
  }

  // ----- who is banned -----

  /** The last name of its interface that the peer's events gave. */
  function LastName(h: seq<Timed>, k: Key): string {
    if h == [] then ""
    else if h[|h| - 1].e.key == k && h[|h| - 1].e.interfaceName != "" then h[|h| - 1].e.interfaceName
    else LastName(h[..|h| - 1], k)
  }

  lemma {:induction false} NameIs(h: seq<Timed>, k: Key, policy: Policy)
    ensures k in Run(h, policy) ==>
              Run(h, policy)[k].interfaceName == LastName(h, k)
              && Run(h, policy)[k].serverInterfaceId == k.serverInterfaceId
    ensures k !in Run(h, policy) ==> LastName(h, k) == ""
  {
    hide Ingested;
    if h != [] {
      var before, t := h[..|h| - 1], h[|h| - 1];
      NameIs(before, k, policy);
      NamesKept(RecordFor(Run(before, policy), t.e), t.e, t.now, t.later, policy);
    }
  }

  /** Every ban is of the peer whose event it was, under the name last given, for the counter
      that event adds to. */
  lemma BansItsPeer(h: seq<Timed>, policy: Policy)
    requires h != [] && LastAction(h, policy).Some?
    ensures var t, a := h[|h| - 1], LastAction(h, policy).value;
            && a.serverInterfaceId == t.e.key.serverInterfaceId && a.ip == t.e.key.ip
            && a.interfaceName == LastName(h, t.e.key)
            && Counted(policy, t.e).Some? && a.reason == Reason(Counted(policy, t.e).value)
  {
    hide Ingested, Pow2, Counted, Reason, Min, LastName, Refreshed;
    var before, t := h[..|h| - 1], h[|h| - 1];
    var r := RecordFor(Run(before, policy), t.e);
    NameIs(h, t.e.key, policy);
    NamesKept(r, t.e, t.now, t.later, policy);
    PenaltyIs(r, t.e, t.now, t.later, policy);
  }

  /** And it lasts as long as its level says, from when it was applied. */
  lemma BanLasts(h: seq<Timed>, policy: Policy)
    requires h != [] && LastAction(h, policy).Some?
    ensures var t, a := h[|h| - 1], LastAction(h, policy).value;
            && 1 <= a.level
            && a.durationSecs == BanSecs(a.level, policy.baseBlacklistSecs)
            && Run(h, policy)[t.e.key].blacklistedUntil == Some(t.later + a.durationSecs * 1_000_000_000)
  {
    hide Ingested, Pow2, Counted, Reason, Refreshed, BanSecs;
    var before, t := h[..|h| - 1], h[|h| - 1];
    var r := RecordFor(Run(before, policy), t.e);
    PenaltyIs(r, t.e, t.now, t.later, policy);
    BanIs(LastAction(h, policy).value.level, policy.baseBlacklistSecs);
  }

  /** And the reason given tells what its events were. */
  lemma ReasonGiven(h: seq<Timed>, policy: Policy)
    requires h != [] && LastAction(h, policy).Some?
    ensures var kind, reason := h[|h| - 1].e.kind, LastAction(h, policy).value.reason;
            match kind
            case WriteStall => reason == "repeated write stalls"
            case IdleTimeout => reason == "repeated idle timeouts"
            case Disconnected => reason == "rapid silent reconnect churn"
            case Connected => reason == "connection rate exceeded"
            case _ => false
  {
    hide LastAction, Run, Pow2;
    BansItsPeer(h, policy);
  }

  // ----- levels without decay -----

  /** How often the plain count of a peer has reached its threshold. */
  function Reached(h: seq<Timed>, k: Key, policy: Policy): nat {
    if h == [] then 0
    else Reached(h[..|h| - 1], k, policy) + if h[|h| - 1].e.key == k && Fires(h, policy) then 1 else 0
  }

  lemma NoDecay(r: Record, e: Event, now: Time, policy: Policy)
    requires policy.penaltyDecayInterval.None?
    ensures Refreshed(r, e, now, policy).level == r.level
  {
  }

  lemma Unpunished(r: Record, e: Event, now: Time, later: Time, policy: Policy)
    requires Ingested(r, e, now, later, policy).1.None?
    ensures Ingested(r, e, now, later, policy).0.level == Refreshed(r, e, now, policy).level
  {
    hide Refreshed;
  }

  /** Where penalties do not decay, a peer's level is the number of times its count reached the
      threshold, up to 255. */
  lemma {:induction false} LevelCounts(h: seq<Timed>, k: Key, policy: Policy)
    requires Monotone(h) && policy.penaltyDecayInterval.None?
    ensures k in Run(h, policy) ==> Run(h, policy)[k].level == Min(255, Reached(h, k, policy))
    ensures k !in Run(h, policy) ==> Reached(h, k, policy) == 0
  {
    hide Ingested, Fires, Refreshed;
    if h != [] {
      var before, t := h[..|h| - 1], h[|h| - 1];
      LevelCounts(before, k, policy);
      if t.e.key == k {
        var r := RecordFor(Run(before, policy), t.e);
        ActsExactlyWhen(h, policy);
        NoDecay(r, t.e, t.now, policy);
        if Fires(h, policy) {
          PenaltyIs(r, t.e, t.now, t.later, policy);
        } else {
          Unpunished(r, t.e, t.now, t.later, policy);
        }
      }
    }
  }

  /** And so is the level of every ban, which fixes how long it is. */
  lemma BansEscalate(h: seq<Timed>, policy: Policy)
    requires h != [] && Monotone(h) && policy.penaltyDecayInterval.None? && Fires(h, policy)
    ensures var n := Min(255, Reached(h, h[|h| - 1].e.key, policy));
            && n >= 1 && LastAction(h, policy).Some?
            && LastAction(h, policy).value.level == n
            && LastAction(h, policy).value.durationSecs
               == Min(0xFFFF_FFFF_FFFF_FFFF, policy.baseBlacklistSecs * Pow2(Min(n - 1, 20)))
  {
    hide Ingested, Pow2, Fires, Refreshed;
    var before, t := h[..|h| - 1], h[|h| - 1];
    ActsExactlyWhen(h, policy);
    LevelCounts(h, t.e.key, policy);
    PenaltyIs(RecordFor(Run(before, policy), t.e), t.e, t.now, t.later, policy);
  }

  // ----- levels with decay -----

  /** A peer never punished has no level. */
  ghost predicate Spared(h: seq<Timed>, k: Key, policy: Policy) {
    forall j :: 0 <= j < |h| && h[j].e.key == k ==> LastAction(h[..j + 1], policy).None?
  }

  lemma SparedBefore(h: seq<Timed>, k: Key, policy: Policy)
    requires h != [] && Spared(h, k, policy)
    ensures Spared(h[..|h| - 1], k, policy)
    ensures h[|h| - 1].e.key == k ==> LastAction(h, policy).None?
  {
    hide LastAction;
    var before := h[..|h| - 1];
    forall j | 0 <= j < |before| && before[j].e.key == k
      ensures LastAction(before[..j + 1], policy).None?
    {
      assert before[..j + 1] == h[..j + 1] && before[j] == h[j];
    }
    assert h[..|h|] == h;
  }

  lemma ZeroStays(r: Record, e: Event, now: Time, policy: Policy)
    requires r.level == 0
    ensures Refreshed(r, e, now, policy).level == 0
  {
  }

  lemma {:induction false} SparedHasNone(h: seq<Timed>, k: Key, policy: Policy)
    requires Spared(h, k, policy)
    ensures k in Run(h, policy) ==> Run(h, policy)[k].level == 0
  {
    hide Ingested, Spared, Refreshed;
    if h != [] {
      var before, t := h[..|h| - 1], h[|h| - 1];
      SparedBefore(h, k, policy);
      SparedHasNone(before, k, policy);
      if t.e.key == k {
        var r := RecordFor(Run(before, policy), t.e);
        Unpunished(r, t.e, t.now, t.later, policy);
        ZeroStays(r, t.e, t.now, policy);
      }
    }
  }

  /** The first ban of a peer is of level 1, and lasts the base. */
  lemma FirstBan(h: seq<Timed>, policy: Policy)
    requires h != [] && Spared(h[..|h| - 1], h[|h| - 1].e.key, policy) && LastAction(h, policy).Some?
    ensures LastAction(h, policy).value.level == 1
    ensures LastAction(h, policy).value.durationSecs == policy.baseBlacklistSecs
  {
    hide Ingested, Spared, Refreshed;
    var before, t := h[..|h| - 1], h[|h| - 1];
    var r := RecordFor(Run(before, policy), t.e);
    SparedHasNone(before, t.e.key, policy);
    ZeroStays(r, t.e, t.now, policy);
    PenaltyIs(r, t.e, t.now, t.later, policy);
  }

  /** The level an event meets, on schedule. */
  lemma MetOnSchedule(r: Record, t: Timed, level: nat, until: Time, t0: Time, secs: nat, policy: Policy)
    requires secs >= 1 && policy.penaltyDecayInterval == Some(secs * SECOND)
    requires t0 <= t.now && OnSchedule(r, level, until, t0, secs * SECOND)
    ensures var n := Intervals(until, if r.liveConnections == 0 then t.now else t0, secs * SECOND);
            Refreshed(r, t.e, t.now, policy).level == if n < level then level - n else 0
  {
    hide Decayed, Pruned;
    var met := Pruned(Named(r, t.e), t.now, policy);
    PrunedFields(r, t.e, t.now, policy);
    ScheduleOfFields(r, met, level, until, t0, secs * SECOND);
    if r.liveConnections == 0 {
      StaysOnSchedule(met, level, until, t0, t.now, secs, policy);
    } else {
      ConnectedStays(met, t.now, policy);
    }
  }

  /** From one ban of a peer to its next, over any interleaved history: the next is one level
      above what the whole intervals since the end of the ban have left of it. */
  lemma NextBan(a: seq<Timed>, b: seq<Timed>, k: Key, secs: nat, policy: Policy)
    requires secs >= 1 && policy.penaltyDecayInterval == Some(secs * SECOND)
    requires a != [] && a[|a| - 1].e.key == k && LastAction(a, policy).Some?
    requires b != [] && b[|b| - 1].e.key == k && LastAction(a + b, policy).Some?
    requires Monotone(b) && Calm(a, b[..|b| - 1], k, policy)
    ensures var last, next := LastAction(a, policy).value, LastAction(a + b, policy).value;
            var until := a[|a| - 1].later + last.durationSecs * SECOND;
            var n := Intervals(until, LastIdle(a, b, k), secs * SECOND);
            next.level == Min(255, 1 + if n < last.level then last.level - n else 0)
  {
    hide Ingested, Calm, Live, Pow2, Refreshed, OnSchedule;
    var before, t := b[..|b| - 1], b[|b| - 1];
    var last := LastAction(a, policy).value;
    var until := a[|a| - 1].later + last.durationSecs * SECOND;
    Bans(a, k, secs, policy);
    CalmOnSchedule(a, before, k, last.level, until, secs, policy);
    assert (a + b)[..|a + b| - 1] == a + before && (a + b)[|a + b| - 1] == t;
    var r := Run(a + before, policy)[k];
    LiveIs(a + before, k, policy);
    LastIdleBefore(a, before, k, t.now);
    MetOnSchedule(r, t, last.level, until, LastIdle(a, before, k), secs, policy);
    PenaltyIs(r, t.e, t.now, t.later, policy);
  }

  lemma Bans(a: seq<Timed>, k: Key, secs: nat, policy: Policy)
    requires secs >= 1 && a != [] && a[|a| - 1].e.key == k && LastAction(a, policy).Some?
    ensures var action := LastAction(a, policy).value;
            && k in Run(a, policy)
            && OnSchedule(Run(a, policy)[k], action.level,
                          a[|a| - 1].later + action.durationSecs * SECOND, 0, secs * SECOND)
  {
    hide Ingested, OnSchedule;
    var before, t := a[..|a| - 1], a[|a| - 1];
    var action := LastAction(a, policy).value;
    PenaltyLeaves(RecordFor(Run(before, policy), t.e), t.e, t.now, t.later, policy);
    BannedOnSchedule(Run(a, policy)[k], action.level, t.later + action.durationSecs * SECOND, secs * SECOND);
  }
}
