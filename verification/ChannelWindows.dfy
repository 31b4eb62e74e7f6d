/** The sending window over whole runs: how it grows with acknowledgements, how it shrinks with
    timeouts, which limits the round-trip time sets it, and how often a message is sent. */
module ChannelWindows {
  import opened Channels
  import opened ChannelSenders

  function Min(a: int, b: int): int {
    if a < b then a else b
  }

  function Max(a: int, b: int): int {
    if a < b then b else a
  }

  // ----- the limits -----

  datatype Pace = Stalled | Slow | Medium | Fast

  /** A round-trip time of zero is one not measured. */
  function PaceOf(rtt: real): Pace {
    if rtt > 1.45 then Stalled
    else if rtt > 0.75 || rtt == 0.0 then Slow
    else if rtt > 0.18 then Medium
    else Fast
  }

  /** Whether an event acknowledges a message that is outstanding. */
  predicate Acknowledges(w: World, e: Event) {
    && w.open && e.Acknowledge? && e.i in w.arrivals
    && Position(w.sender.ring, e.i % SEQ_MODULUS) < |w.sender.ring|
  }

  function Acknowledged(rtt: real, events: seq<Event>, linkMdu: nat): nat {
    if events == [] then 0
    else
      var before := events[..|events| - 1];
      Acknowledged(rtt, before, linkMdu)
      + if Acknowledges(Play(Start(rtt), before, linkMdu), events[|events| - 1]) then 1 else 0
  }

  /** The limits after d acknowledgements: up to ten they are those of a slow link, and then a
      medium or a fast one has its own, whose upper one timeouts take back by so much. */
  ghost predicate Paced(s: Sender, rtt: real, d: nat) {
    && s.rtt == rtt
    && s.fastRounds == (if PaceOf(rtt).Fast? then d % 65536 else 0)
    && s.mediumRounds == (if PaceOf(rtt).Medium? then d % 65536 else 0)
    && match PaceOf(rtt)
       case Stalled => s.window == 1 && Limits(s, 1, 1, 1, 1)
       case Slow => 2 <= s.window && Limits(s, 2, 4, 5, 5)
       case Medium => 2 <= s.window && if d < 10 then Limits(s, 2, 4, 5, 5) else Limits(s, 5, 4, 9, 12)
       case Fast => 2 <= s.window && if d < 10 then Limits(s, 2, 4, 5, 5) else Limits(s, 16, 4, 20, 48)
  }

  ghost predicate Limits(s: Sender, low: nat, flexibility: nat, least: nat, most: nat) {
    s.windowMin == low && s.flexibility == flexibility && s.window <= s.windowMax && least <= s.windowMax <= most
  }

  lemma PacedStart(rtt: real)
    ensures Paced(NewSender(rtt), rtt, 0)
  {
  }

  lemma RoundsOnce(d: nat)
    ensures Next(d % 65536) == (d + 1) % 65536
    ensures (d + 1) % 65536 == 10 ==> d + 1 >= 10
    ensures d < 10 ==> (d + 1) % 65536 == d + 1
  {
  }

  lemma PacedDelivered(s: Sender, q: u16, rtt: real, d: nat)
    requires Paced(s, rtt, d) && Position(s.ring, q) < |s.ring|
    ensures Paced(Delivered(s, q), rtt, d + 1)
  {
    hide Position, Without;
    RoundsOnce(d);
  }

  lemma PacedAgain(s: Sender, q: u16, rtt: real, d: nat)
    requires Paced(s, rtt, d) && !TimedOut(s, q).NothingDue?
    ensures Paced(TimedOut(s, q).next, rtt, d)
  {
    hide Position;
  }

  lemma PacedStep(w: World, e: Event, linkMdu: nat, rtt: real, d: nat)
    requires Paced(w.sender, rtt, d)
    ensures Paced(Step(w, e, linkMdu).sender, rtt, d + if Acknowledges(w, e) then 1 else 0)
  {
    hide Paced, Delivered, TimedOut, PackEnvelope;
    match e
    case Send(m) => PacedSent(w.sender, m, linkMdu, rtt, d);
    case Arrive(_) =>
    case Acknowledge(i) =>
      var q := i % SEQ_MODULUS;
      if Position(w.sender.ring, q) < |w.sender.ring| {
        PacedDelivered(w.sender, q, rtt, d);
      } else {
        NoneDelivered(w.sender, q);
      }
    case Timeout(q) =>
      if !TimedOut(w.sender, q).NothingDue? {
        PacedAgain(w.sender, q, rtt, d);
      }
  }

  lemma NoneDelivered(s: Sender, q: u16)
    requires Position(s.ring, q) == |s.ring|
    ensures Delivered(s, q) == s
  {
  }

  lemma PacedSent(s: Sender, m: Message, linkMdu: nat, rtt: real, d: nat)
    requires Paced(s, rtt, d)
    ensures SendOn(s, m, linkMdu).Sent? ==> Paced(SendOn(s, m, linkMdu).next, rtt, d)
  {
    hide PackEnvelope;
  }

  /** In every run the limits are those of the round-trip time and of the number of messages
      acknowledged. */
  lemma {:induction false} EveryRunPaced(rtt: real, events: seq<Event>, linkMdu: nat)
    ensures Paced(Play(Start(rtt), events, linkMdu).sender, rtt, Acknowledged(rtt, events, linkMdu))
  {
    hide Step, Paced, Acknowledges;
    if events == [] {
      PacedStart(rtt);
    } else {
      var before, e := events[..|events| - 1], events[|events| - 1];
      EveryRunPaced(rtt, before, linkMdu);
      PacedStep(Play(Start(rtt), before, linkMdu), e, linkMdu, rtt, Acknowledged(rtt, before, linkMdu));
    }
  }

  /** Only rounds in a row count: one slower than its class starts the count again. */
  lemma SlowerResets(s: Sender, q: u16)
    requires Position(s.ring, q) < |s.ring|
    ensures s.rtt > 0.18 ==> Delivered(s, q).fastRounds == 0
    ensures s.rtt > 0.75 ==> Delivered(s, q).mediumRounds == 0
  {
    hide Position, Without;
  }

  // ----- growth -----

  /** The window after d acknowledgements and no timeout. */
  function Grown(pace: Pace, d: nat): nat {
    match pace
    case Stalled => 1
    case Slow => Min(2 + d, 5)
    case Medium => if d < 10 then Min(2 + d, 5) else Min(d - 5, 12)
    case Fast => if d < 10 then Min(2 + d, 5) else Min(d - 5, 48)
  }

  function MostGrown(pace: Pace, d: nat): nat {
    match pace
    case Stalled => 1
    case Slow => 5
    case Medium => if d < 10 then 5 else 12
    case Fast => if d < 10 then 5 else 48
  }

  ghost predicate Undisturbed(s: Sender, rtt: real, d: nat) {
    && Paced(s, rtt, d)
    && s.window == Grown(PaceOf(rtt), d) && s.windowMax == MostGrown(PaceOf(rtt), d)
  }

  lemma UndisturbedDelivered(s: Sender, q: u16, rtt: real, d: nat)
    requires Undisturbed(s, rtt, d) && Position(s.ring, q) < |s.ring|
    ensures Undisturbed(Delivered(s, q), rtt, d + 1)
  {
    hide Position, Without;
    RoundsOnce(d);
  }

  ghost predicate NoTimeouts(events: seq<Event>) {
    forall t :: 0 <= t < |events| ==> !events[t].Timeout?
  }

  lemma UndisturbedStep(w: World, e: Event, linkMdu: nat, rtt: real, d: nat)
    requires Undisturbed(w.sender, rtt, d) && !e.Timeout?
    ensures Undisturbed(Step(w, e, linkMdu).sender, rtt, d + if Acknowledges(w, e) then 1 else 0)
  {
    hide Delivered, PackEnvelope, Paced, Grown, MostGrown;
    PacedStep(w, e, linkMdu, rtt, d);
    if e.Acknowledge? {
      var q := e.i % SEQ_MODULUS;
      if Position(w.sender.ring, q) < |w.sender.ring| {
        UndisturbedDelivered(w.sender, q, rtt, d);
      } else {
        NoneDelivered(w.sender, q);
      }
    }
  }

  /** Without timeouts the window is this function of the number of messages acknowledged. */
  lemma {:induction false} WindowGrows(rtt: real, events: seq<Event>, linkMdu: nat)
    requires NoTimeouts(events)
    ensures Undisturbed(Play(Start(rtt), events, linkMdu).sender, rtt, Acknowledged(rtt, events, linkMdu))
  {
    hide Step, Undisturbed, Acknowledges;
    if events == [] {
      UndisturbedStart(rtt);
    } else {
      var before, e := events[..|events| - 1], events[|events| - 1];
      WindowGrows(rtt, before, linkMdu);
      UndisturbedStep(Play(Start(rtt), before, linkMdu), e, linkMdu, rtt, Acknowledged(rtt, before, linkMdu));
    }
  }

  lemma UndisturbedStart(rtt: real)
    ensures Undisturbed(NewSender(rtt), rtt, 0)
  {
  }

  // ----- shrinking -----

  function Timeouts(qs: seq<u16>): seq<Event> {
    seq(|qs|, k requires 0 <= k < |qs| => Timeout(qs[k]))
  }

  /** Each of these timeouts has its message sent again. */
  ghost predicate AllAgain(w: World, qs: seq<u16>, linkMdu: nat) {
    forall k :: 0 <= k < |qs| ==> PutsAgain(Play(w, Timeouts(qs[..k]), linkMdu), qs[k])
  }

  predicate PutsAgain(w: World, q: u16) {
    w.open && TimedOut(w.sender, q).Again?
  }

  /** The window after n timeouts, from another. */
  ghost predicate ShrunkBy(s: Sender, t: Sender, n: nat) {
    && t.windowMin == s.windowMin && t.flexibility == s.flexibility
    && t.window == Max(Min(s.window, s.windowMin), s.window - n)
    && t.windowMax == Max(Min(s.windowMax, s.windowMin + s.flexibility), s.windowMax - (s.window - t.window))
  }

  lemma AgainShrinks(s: Sender, q: u16)
    requires TimedOut(s, q).Again?
    ensures ShrunkBy(s, TimedOut(s, q).next, 1)
  {
    hide Position;
  }

  lemma ShrunkMore(s: Sender, t: Sender, u: Sender, n: nat)
    requires ShrunkBy(s, t, n) && ShrunkBy(t, u, 1)
    ensures ShrunkBy(s, u, n + 1)
  {
  }

  /** A run of timeouts takes one off the window for each, down to the lower limit, and off the
      upper limit as much, down to what the flexibility leaves. */
  lemma {:induction false} WindowShrinks(w: World, qs: seq<u16>, linkMdu: nat)
    requires AllAgain(w, qs, linkMdu)
    ensures ShrunkBy(w.sender, Play(w, Timeouts(qs), linkMdu).sender, |qs|)
    decreases |qs|
  {
    hide TimedOut, ShrunkBy;
    if qs == [] {
      ShrunkNone(w.sender);
    } else {
      var n := |qs| - 1;
      var before := qs[..n];
      assert Timeouts(qs)[..n] == Timeouts(before);
      forall k | 0 <= k < n
        ensures PutsAgain(Play(w, Timeouts(before[..k]), linkMdu), before[k])
      {
        assert before[..k] == qs[..k] && before[k] == qs[k];
      }
      WindowShrinks(w, before, linkMdu);
      assert PutsAgain(Play(w, Timeouts(before), linkMdu), qs[n]);
      var t := Play(w, Timeouts(before), linkMdu).sender;
      AgainShrinks(t, qs[n]);
      ShrunkMore(w.sender, t, TimedOut(t, qs[n]).next, n);
    }
  }

  lemma ShrunkNone(s: Sender)
    ensures ShrunkBy(s, s, 0)
  {
  }

  // ----- how often a message is sent -----

  /** Whether an event puts message i on the link, given the messages outstanding. */
  predicate PutsMessage(w: World, idx: seq<nat>, e: Event, linkMdu: nat, i: nat) {
    && w.open
    && (|| (e.Send? && SendOn(w.sender, e.m, linkMdu).Sent? && i == |w.sent|)
        || (e.Timeout? && TimedOut(w.sender, e.sequence).Again?
            && var p := Position(w.sender.ring, e.sequence); p < |idx| && idx[p] == i))
  }

  function Times(rtt: real, events: seq<Event>, linkMdu: nat, i: nat): nat {
    if events == [] then 0
    else
      var before := events[..|events| - 1];
      Times(rtt, before, linkMdu, i)
      + if PutsMessage(Play(Start(rtt), before, linkMdu), Outstanding(rtt, before, linkMdu),
                       events[|events| - 1], linkMdu, i) then 1 else 0
  }

  lemma {:induction false} NotYetSent(rtt: real, events: seq<Event>, linkMdu: nat, i: nat)
    requires i >= |Play(Start(rtt), events, linkMdu).sent|
    ensures Times(rtt, events, linkMdu, i) == 0
  {
    hide SendOn, TimedOut, Delivered, Outstanding;
    if events != [] {
      var before, e := events[..|events| - 1], events[|events| - 1];
      var w, idx := Play(Start(rtt), before, linkMdu), Outstanding(rtt, before, linkMdu);
      EveryRunTracks(rtt, before, linkMdu);
      SentStays(w, e, linkMdu);
      NotYetSent(rtt, before, linkMdu, i);
      if e.Timeout? && Position(w.sender.ring, e.sequence) < |idx| {
        assert idx[Position(w.sender.ring, e.sequence)] < |w.sent|;
      }
    }
  }

  lemma SentStays(w: World, e: Event, linkMdu: nat)
    ensures var n := |Step(w, e, linkMdu).sent|;
            |w.sent| <= n && (w.open && e.Send? && SendOn(w.sender, e.m, linkMdu).Sent? ==> n == |w.sent| + 1)
  {
    hide SendOn, TimedOut, Delivered;
  }

  /** The tries an envelope counts. */
  ghost predicate Counts(w: World, idx: seq<nat>, times: nat -> nat) {
    |idx| == |w.sender.ring| && forall k :: 0 <= k < |idx| ==> w.sender.ring[k].tries == times(idx[k])
  }

  /** How the counts move at an event. */
  ghost predicate CountsOn(w: World, idx: seq<nat>, e: Event, linkMdu: nat, times: nat -> nat, next: nat -> nat) {
    forall i :: next(i) == times(i) + if PutsMessage(w, idx, e, linkMdu, i) then 1 else 0
  }

  lemma CountsSend(w: World, idx: seq<nat>, m: Message, linkMdu: nat, times: nat -> nat, next: nat -> nat)
    requires Tracks(w, idx) && Counts(w, idx, times) && times(|w.sent|) == 0
    requires CountsOn(w, idx, Send(m), linkMdu, times, next)
    ensures Counts(Step(w, Send(m), linkMdu), Holding(w, idx, Send(m), linkMdu), next)
  {
    hide PackEnvelope, Wire, Numbered, TimedOut, Position;
    TracksParts(w, idx);
  }

  lemma CountsAcknowledge(w: World, idx: seq<nat>, i: nat, linkMdu: nat, times: nat -> nat, next: nat -> nat)
    requires Counts(w, idx, times) && CountsOn(w, idx, Acknowledge(i), linkMdu, times, next)
    ensures Counts(Step(w, Acknowledge(i), linkMdu), Holding(w, idx, Acknowledge(i), linkMdu), next)
  {
    hide Cut, Without, Delivered, TimedOut, SendOn, Position;
    var q := i % SEQ_MODULUS;
    DeliveredRing(w.sender, q);
    var p := Position(w.sender.ring, q);
    if w.open && i in w.arrivals && p < |idx| {
      CountsCut(w.sender.ring, idx, p);
      var rest, ring := Cut(idx, p), Without(w.sender.ring, p);
      forall k | 0 <= k < |rest|
        ensures ring[k].tries == next(rest[k])
      {
        var j := if k < p then k else k + 1;
        assert ring[k] == w.sender.ring[j] && rest[k] == idx[j];
      }
    }
  }

  lemma CountsTimeout(w: World, idx: seq<nat>, q: u16, linkMdu: nat, times: nat -> nat, next: nat -> nat)
    requires Tracks(w, idx) && Counts(w, idx, times) && CountsOn(w, idx, Timeout(q), linkMdu, times, next)
    ensures Counts(Step(w, Timeout(q), linkMdu), Holding(w, idx, Timeout(q), linkMdu), next)
  {
    hide Delivered, TimedOut, SendOn, Position, Matches;
    TimedOutTries(w.sender, q);
    TracksParts(w, idx);
  }

  lemma CountsStep(w: World, idx: seq<nat>, e: Event, linkMdu: nat, times: nat -> nat, next: nat -> nat)
    requires Tracks(w, idx) && Counts(w, idx, times) && times(|w.sent|) == 0
    requires CountsOn(w, idx, e, linkMdu, times, next)
    ensures Counts(Step(w, e, linkMdu), Holding(w, idx, e, linkMdu), next)
  {
    hide Tracks, Cut, Without, Delivered, TimedOut, SendOn, Position;
    match e
    case Send(m) => CountsSend(w, idx, m, linkMdu, times, next);
    case Arrive(_) =>
    case Acknowledge(i) => CountsAcknowledge(w, idx, i, linkMdu, times, next);
    case Timeout(q) => CountsTimeout(w, idx, q, linkMdu, times, next);
  }

  lemma CountsCut(ring: seq<TxEnvelope>, idx: seq<nat>, p: nat)
    requires p < |idx| == |ring|
    ensures |Cut(idx, p)| == |Without(ring, p)| == |idx| - 1
    ensures forall k :: 0 <= k < |Cut(idx, p)| ==>
              var j := if k < p then k else k + 1; Cut(idx, p)[k] == idx[j] && Without(ring, p)[k] == ring[j]
  {
  }

  lemma TimedOutTries(s: Sender, q: u16)
    ensures var t, p := TimedOut(s, q), Position(s.ring, q);
            && (t.NothingDue? <==> p == |s.ring|)
            && (t.TornDown? ==> t.next.ring == [])
            && (t.TornDown? <==> p < |s.ring| && s.ring[p].tries >= 5)
            && (t.Again? ==> |t.next.ring| == |s.ring|
                             && forall k :: 0 <= k < |s.ring| ==>
                                  t.next.ring[k].tries == s.ring[k].tries + if k == p then 1 else 0)
  {
    hide Position;
  }

  /** An envelope's tries are the times its message was put on the link. */
  lemma {:induction false} TriesAreTimes(rtt: real, events: seq<Event>, linkMdu: nat)
    ensures Counts(Play(Start(rtt), events, linkMdu), Outstanding(rtt, events, linkMdu),
                   i => Times(rtt, events, linkMdu, i))
  {
    hide Step, Holding, Tracks, PutsMessage;
    if events != [] {
      var before, e := events[..|events| - 1], events[|events| - 1];
      var w := Play(Start(rtt), before, linkMdu);
      TriesAreTimes(rtt, before, linkMdu);
      EveryRunTracks(rtt, before, linkMdu);
      NotYetSent(rtt, before, linkMdu, |w.sent|);
      CountsStep(w, Outstanding(rtt, before, linkMdu), e, linkMdu,
                 i => Times(rtt, before, linkMdu, i), i => Times(rtt, events, linkMdu, i));
    }
  }

  /** In every run a timeout of an outstanding message has it sent again while it was sent fewer
      than five times, and tears the link down when it was sent five; nothing else does. */
  lemma TornDownExactly(rtt: real, events: seq<Event>, e: Event, linkMdu: nat)
    requires Play(Start(rtt), events, linkMdu).open
    ensures var w, idx := Play(Start(rtt), events, linkMdu), Outstanding(rtt, events, linkMdu);
            |idx| == |w.sender.ring|
            && (!Step(w, e, linkMdu).open <==>
                  && e.Timeout? && Position(w.sender.ring, e.sequence) < |idx|
                  && Times(rtt, events, linkMdu, idx[Position(w.sender.ring, e.sequence)]) >= 5)
            && (e.Timeout? && Position(w.sender.ring, e.sequence) < |idx|
                && Times(rtt, events, linkMdu, idx[Position(w.sender.ring, e.sequence)]) < 5 ==>
                  TimedOut(w.sender, e.sequence).Again?)
  {
    hide Delivered, SendOn, Outstanding, Times, TimedOut, Position;
    TriesAreTimes(rtt, events, linkMdu);
    var w := Play(Start(rtt), events, linkMdu);
    if e.Timeout? {
      TimedOutTries(w.sender, e.sequence);
    }
  }

  /** What a send is answered, in every run: not ready when as many messages are outstanding as
      the window has room for, too big when the message and its six bytes of envelope are more
      than the link takes. */
  lemma SendAnswered(rtt: real, events: seq<Event>, m: Message, linkMdu: nat)
    ensures var w := Play(Start(rtt), events, linkMdu);
            var ready := |Outstanding(rtt, events, linkMdu)| < w.sender.window;
            && (SendOn(w.sender, m, linkMdu).NotReady? <==> !ready)
            && (SendOn(w.sender, m, linkMdu).MessageTooBig? <==> ready && 6 + |m.payload| > linkMdu)
  {
    hide Play, Outstanding, Tracks;
    EveryRunTracks(rtt, events, linkMdu);
    TracksParts(Play(Start(rtt), events, linkMdu), Outstanding(rtt, events, linkMdu));
  }
}
