/** Penalties over time: the level depends on how long ago the ban ended, not on when
    anyone looked, exactly when the decay interval is a whole number of seconds. */
module SentinelDecay {
  import opened Arithmetic
  import opened Options
  import opened Sentinel

  /** A record as a penalty leaves it: at a level, and banned until `until`. */
  ghost predicate Banned(r: Record, level: nat, until: Time) {
    1 <= level == r.level && r.blacklistedUntil == Some(until) && r.lastDecayCheckAt == None
  }

  /** And with no live connection. */
  ghost predicate Penalized(r: Record, level: nat, until: Time) {
    Banned(r, level, until) && r.liveConnections == 0
  }

  lemma DecayedLive(r: Record, now: Time, policy: Policy)
    ensures Decayed(r, now, policy).liveConnections == r.liveConnections
  {
  }

  lemma {:induction false} CheckedLive(r: Record, ts: seq<Time>, policy: Policy)
    ensures Checked(r, ts, policy).liveConnections == r.liveConnections
  {
    hide Decayed;
    if ts != [] {
      CheckedLive(r, ts[..|ts| - 1], policy);
      DecayedLive(Checked(r, ts[..|ts| - 1], policy), ts[|ts| - 1], policy);
    }
  }

  /** The record after a run of checks. */
  function Checked(r: Record, ts: seq<Time>, policy: Policy): Record {
    if ts == [] then r else Decayed(Checked(r, ts[..|ts| - 1], policy), ts[|ts| - 1], policy)
  }

  /** Whole intervals between the end of the ban and t. */
  function Intervals(until: Time, t: Time, interval: nat): nat
    requires interval > 0
  {
    if t >= until then (t - until) / interval else 0
  }

  // ----- the law for whole seconds -----

  /** The record at time t, if it lost one level per interval and remembers the end of
      the last whole one. */
  ghost predicate OnSchedule(r: Record, level: nat, until: Time, t: Time, interval: nat)
    requires interval > 0
  {
    var n := Intervals(until, t, interval);
    && level <= 255 && r.blacklistedUntil == Some(until)
    && (n >= level ==> r.level == 0)
    && (n < level ==> r.level == level - n)
    && (n < level ==> r.lastDecayCheckAt == if n == 0 then None else Some(until + n * interval))
  }

  lemma DivDrop(x: nat, n: nat, d: nat)
    requires d > 0 && n <= x / d
    ensures n * d <= x && (x - n * d) / d == x / d - n
  {
    MulMonotone(n, x / d, d);
    DivModIdentity(x, d);
    MulDistributes(x / d, n, d);
    DivModUnique(x - n * d, d, x / d - n, x % d);
  }

  lemma DivMonotone(x: nat, y: nat, d: nat)
    requires d > 0 && x <= y
    ensures x / d <= y / d
  {
    DivModIdentity(x, d);
    DivAtLeast(y, d, x / d);
  }

  lemma WholeSeconds(secs: nat)
    requires secs >= 1
    ensures (secs * SECOND) / SECOND == secs
  {
  }

  /** Elapsed seconds over whole-second steps is elapsed time over the interval. */
  lemma LevelsLost(since: nat, secs: nat)
    requires secs >= 1
    ensures var n := since / (secs * SECOND);
            LevelsToDrop(since, secs * SECOND) == if n < 255 then n else 255
  {
    WholeSeconds(secs);
    DivDiv(since, SECOND, secs);
  }

  lemma StaysOnSchedule(r: Record, level: nat, until: Time, t0: Time, t: Time, secs: nat, policy: Policy)
    requires secs >= 1 && policy.penaltyDecayInterval == Some(secs * SECOND)
    requires t0 <= t && r.liveConnections == 0 && OnSchedule(r, level, until, t0, secs * SECOND)
    ensures OnSchedule(Decayed(r, t, policy), level, until, t, secs * SECOND)
  {
    var interval := secs * SECOND;
    var n0, n := Intervals(until, t0, interval), Intervals(until, t, interval);
    assert n0 <= n by {
      if t0 >= until {
        DivMonotone(t0 - until, t - until, interval);
      }
    }
    if n0 < level && t >= until {
      hide Decayed;
      DecayFrom(r, n0, until, t, secs, policy);
    }
  }

  /** One check m steps past the anchor. */
  lemma DecayBy(r: Record, anchor: Time, m: nat, t: Time, policy: Policy)
    requires policy.penaltyDecayInterval.Some?
    requires r.level >= 1 && r.liveConnections == 0
    requires r.blacklistedUntil.Some? && r.blacklistedUntil.value <= t
    requires DecayAnchor(r) == Some(anchor) && anchor <= t
    requires LevelsToDrop(t - anchor, policy.penaltyDecayInterval.value) == if m < 255 then m else 255
    ensures var r' := Decayed(r, t, policy);
            && r'.level == (if m < r.level then r.level - m else 0)
            && r'.liveConnections == 0 && r'.blacklistedUntil == r.blacklistedUntil
            && (r'.level > 0 && m == 0 ==> r'.lastDecayCheckAt == r.lastDecayCheckAt)
            && (r'.level > 0 && m > 0 ==> r'.lastDecayCheckAt == Some(anchor + policy.penaltyDecayInterval.value * m))
  {
    if t == anchor {
      NothingToDrop(policy.penaltyDecayInterval.value);
    }
    hide LevelsToDrop;
  }

  lemma NothingToDrop(interval: nat)
    ensures LevelsToDrop(0, interval) == 0
  {
    DivModUnique(0, if interval / SECOND > 1 then interval / SECOND else 1, 0, 0);
  }

  lemma NextAnchor(until: nat, n0: nat, n: nat, interval: nat)
    requires n0 <= n
    ensures until + n0 * interval + interval * (n - n0) == until + n * interval
  {
    MulDistributes(n0, n - n0, interval);
  }

  /** One check past the ban, from the end of the last whole interval. */
  lemma DecayFrom(r: Record, n0: nat, until: Time, t: Time, secs: nat, policy: Policy)
    requires secs >= 1 && policy.penaltyDecayInterval == Some(secs * SECOND)
    requires r.level >= 1 && r.liveConnections == 0 && r.blacklistedUntil == Some(until)
    requires r.lastDecayCheckAt == if n0 == 0 then None else Some(until + n0 * (secs * SECOND))
    requires t >= until && n0 <= Intervals(until, t, secs * SECOND)
    ensures var n := Intervals(until, t, secs * SECOND);
            var r' := Decayed(r, t, policy);
            && r'.level == (if n - n0 < r.level then r.level - (n - n0) else 0)
            && r'.liveConnections == 0 && r'.blacklistedUntil == Some(until)
            && (r'.level > 0 ==> r'.lastDecayCheckAt == if n == 0 then None else Some(until + n * (secs * SECOND)))
  {
    hide LevelsToDrop, Decayed;
    var interval := secs * SECOND;
    var n := Intervals(until, t, interval);
    DivDrop(t - until, n0, interval);
    var anchor := until + n0 * interval;
    LevelsLost(t - anchor, secs);
    DecayBy(r, anchor, n - n0, t, policy);
    NextAnchor(until, n0, n, interval);
  }

  lemma {:induction false} ChecksOnSchedule(r: Record, level: nat, until: Time, ts: seq<Time>, secs: nat,
                                            policy: Policy)
    requires secs >= 1 && policy.penaltyDecayInterval == Some(secs * SECOND)
    requires Penalized(r, level, until)
    requires forall i, j :: 0 <= i < j < |ts| ==> ts[i] <= ts[j]
    ensures OnSchedule(Checked(r, ts, policy), level, until, if ts == [] then until else ts[|ts| - 1], secs * SECOND)
  {
    hide Decayed;
    if |ts| == 1 && ts[0] < until {
      FirstCheckDuringBan(r, ts[0], policy);
      assert ts[..0] == [];
    } else if ts != [] {
      var before := ts[..|ts| - 1];
      ChecksOnSchedule(r, level, until, before, secs, policy);
      CheckedLive(r, before, policy);
      var t0 := if before == [] then until else before[|before| - 1];
      StaysOnSchedule(Checked(r, before, policy), level, until, t0, ts[|ts| - 1], secs, policy);
    } else {
      DivModUnique(0, secs * SECOND, 0, 0);
    }
  }

  lemma FirstCheckDuringBan(r: Record, t: Time, policy: Policy)
    requires r.blacklistedUntil.Some? && t < r.blacklistedUntil.value
    ensures Decayed(r, t, policy) == r
  {
  }

  /** For any checks at all, the level at the last of them is the level of the penalty
      less the whole intervals since the ban ended. */
  lemma DecayLaw(r: Record, level: nat, until: Time, ts: seq<Time>, secs: nat, policy: Policy)
    requires secs >= 1 && policy.penaltyDecayInterval == Some(secs * SECOND)
    requires Penalized(r, level, until)
    requires ts != [] && forall i, j :: 0 <= i < j < |ts| ==> ts[i] <= ts[j]
    ensures var n := Intervals(until, ts[|ts| - 1], secs * SECOND);
            Checked(r, ts, policy).level == if n < level then level - n else 0
  {
    ChecksOnSchedule(r, level, until, ts, secs, policy);
  }

  // ----- and only for whole seconds -----

  /** Looking once more, earlier, never changes what is seen. */
  ghost predicate ObservationFree(policy: Policy) {
    forall r: Record, level: nat, until: Time, t: Time, t': Time ::
      Penalized(r, level, until) && until <= t <= t' ==>
        Checked(r, [t, t'], policy).level == Checked(r, [t'], policy).level
  }

  lemma CheckedOnce(r: Record, t: Time, policy: Policy)
    ensures Checked(r, [t], policy) == Decayed(r, t, policy)
  {
    assert [t][..0] == [];
  }

  lemma CheckedTwice(r: Record, t: Time, t': Time, policy: Policy)
    ensures Checked(r, [t, t'], policy) == Decayed(Decayed(r, t, policy), t', policy)
  {
    assert [t, t'][..1] == [t];
    CheckedOnce(r, t, policy);
  }

  /** The record two penalties at time 0 leave: at level 2. */
  function Witness(policy: Policy): Record {
    var key := Key(0, []);
    var once := Blacklisted(NewRecord(0, ""), key, WriteStalls, 0, policy).0;
    Blacklisted(once, key, WriteStalls, 0, policy).0
  }

  function WitnessUntil(policy: Policy): Time {
    BanSecs(2, policy.baseBlacklistSecs) * SECOND
  }

  lemma WitnessPenalized(policy: Policy)
    ensures Penalized(Witness(policy), 2, WitnessUntil(policy))
  {
  }

  /** A longer interval with a fraction of a second: steps are counted in whole seconds
      but the anchor moves by the whole interval, so a check after one step loses the
      fraction and the second level comes late. */
  lemma FractionLost(r: Record, until: Time, secs: nat, f: nat, policy: Policy)
    requires Penalized(r, 2, until)
    requires secs >= 1 && 0 < f < SECOND && policy.penaltyDecayInterval == Some(secs * SECOND + f)
    ensures Decayed(Decayed(r, until + secs * SECOND, policy), until + 2 * secs * SECOND, policy).level == 1
    ensures Decayed(r, until + 2 * secs * SECOND, policy).level == 0
  {
    hide Decayed, LevelsToDrop;
    var interval := secs * SECOND + f;
    StepsWithFraction(secs, f);
    DecayBy(r, until, 1, until + secs * SECOND, policy);
    DecayBy(r, until, 2, until + 2 * secs * SECOND, policy);
    var once := Decayed(r, until + secs * SECOND, policy);
    DecayBy(once, until + interval * 1, 0, until + 2 * secs * SECOND, policy);
  }

  lemma StepsWithFraction(secs: nat, f: nat)
    requires secs >= 1 && 0 < f < SECOND
    ensures var interval := secs * SECOND + f;
            && LevelsToDrop(secs * SECOND, interval) == 1
            && LevelsToDrop(2 * secs * SECOND, interval) == 2
            && interval <= 2 * secs * SECOND && LevelsToDrop(2 * secs * SECOND - interval, interval) == 0
  {
    var interval := secs * SECOND + f;
    DivModUnique(interval, SECOND, secs, f);
    DivModUnique(secs * SECOND, SECOND, secs, 0);
    DivModUnique(2 * secs * SECOND, SECOND, 2 * secs, 0);
    DivModUnique(2 * secs * SECOND - interval, SECOND, secs - 1, SECOND - f);
    DivModUnique(secs, secs, 1, 0);
    DivModUnique(2 * secs, secs, 2, 0);
    DivModUnique(secs - 1, secs, 0, secs - 1);
  }

  /** An interval below one second: steps of a whole second, an anchor that moves by less,
      so time already paid for is counted again. */
  lemma FractionGained(r: Record, until: Time, f: nat, policy: Policy)
    requires Penalized(r, 2, until)
    requires f < SECOND && policy.penaltyDecayInterval == Some(f)
    ensures Decayed(Decayed(r, until + SECOND, policy), until + SECOND + f, policy).level == 0
    ensures Decayed(r, until + SECOND + f, policy).level == 1
  {
    hide Decayed, LevelsToDrop;
    StepsBelowSecond(f);
    DecayBy(r, until, 1, until + SECOND, policy);
    DecayBy(r, until, 1, until + SECOND + f, policy);
    var once := Decayed(r, until + SECOND, policy);
    DecayBy(once, until + f * 1, 1, until + SECOND + f, policy);
  }

  lemma StepsBelowSecond(f: nat)
    requires f < SECOND
    ensures LevelsToDrop(SECOND, f) == 1 && LevelsToDrop(SECOND + f, f) == 1
  {
  }

  /** Decay does not depend on when it is looked at exactly when the interval is a whole
      number of seconds, and not none. */
  lemma ObservationFreeIff(policy: Policy)
    requires policy.penaltyDecayInterval.Some?
    ensures var interval := policy.penaltyDecayInterval.value;
            ObservationFree(policy) <==> (interval >= SECOND && interval % SECOND == 0)
  {
    hide Decayed, Checked, Penalized, Witness, WitnessUntil;
    var interval := policy.penaltyDecayInterval.value;
    var secs, f := interval / SECOND, interval % SECOND;
    var w, u := Witness(policy), WitnessUntil(policy);
    WitnessPenalized(policy);
    if secs >= 1 && f == 0 {
      forall r: Record, level: nat, until: Time, t: Time, t': Time
        | Penalized(r, level, until) && until <= t <= t'
        ensures Checked(r, [t, t'], policy).level == Checked(r, [t'], policy).level
      {
        DecayLaw(r, level, until, [t, t'], secs, policy);
        DecayLaw(r, level, until, [t'], secs, policy);
      }
    } else if secs >= 1 {
      FractionLost(w, u, secs, f, policy);
      CheckedTwice(w, u + secs * SECOND, u + 2 * secs * SECOND, policy);
      CheckedOnce(w, u + 2 * secs * SECOND, policy);
    } else {
      FractionGained(w, u, f, policy);
      CheckedTwice(w, u + SECOND, u + SECOND + f, policy);
      CheckedOnce(w, u + SECOND + f, policy);
    }
  }

  // ----- escalation -----

  /** Each further level doubles the ban, up to the word, for twenty doublings; from
      then on it stays. */
  lemma Escalation(level: u8, base: u64)
    requires 1 <= level < 255
    ensures BanSecs(1, base) == base
    ensures level <= 20 ==>
              var twice := 2 * BanSecs(level, base);
              BanSecs(level + 1, base) == if twice <= U64_MAX then twice else U64_MAX
    ensures level > 20 ==> BanSecs(level + 1, base) == BanSecs(21, base)
  {
    if level <= 20 {
      assert Pow2(level) == 2 * Pow2(level - 1);
      MulAssoc(2, base, Pow2(level - 1));
      MulAssoc(base, 2, Pow2(level - 1));
    }
  }
}
