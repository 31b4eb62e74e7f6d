/** The sending end of a channel, and the two ends together: what is sent again, what is
    forgotten once acknowledged, and how far ahead of the receiver a sender gets. */
module ChannelSenders {
  import opened Bytes
  import opened Channels
  import opened Options

  type u8 = x: int | 0 <= x < 0x100

  const WINDOW: u16 := 2
  const WINDOW_MIN: u16 := 2
  const WINDOW_MAX_SLOW: u16 := 5
  const WINDOW_MAX_MEDIUM: u16 := 12
  const WINDOW_MIN_LIMIT_MEDIUM: u16 := 5
  const WINDOW_MIN_LIMIT_FAST: u16 := 16
  const WINDOW_FLEXIBILITY: u16 := 4
  const RTT_FAST: real := 0.18
  const RTT_MEDIUM: real := 0.75
  const RTT_SLOW: real := 1.45
  const FAST_RATE_THRESHOLD: u16 := 10
  const MAX_TRIES: u8 := 5

  datatype TxEnvelope = TxEnvelope(sequence: u16, raw: seq<byte>, tries: u8)

  /** Whether an envelope was delivered is a flag the code never sets, so every one in the
      ring is outstanding. */
  datatype Sender = Sender(
    ring: seq<TxEnvelope>,
    nextSequence: u16,
    window: u16,
    windowMax: u16,
    windowMin: u16,
    flexibility: u16,
    fastRounds: u16,
    mediumRounds: u16,
    rtt: real)

  datatype SendResult = Sent(next: Sender, raw: seq<byte>) | NotReady | MessageTooBig

  function NewSender(rtt: real): Sender {
    if rtt > RTT_SLOW then Sender([], 0, 1, 1, 1, 1, 0, 0, rtt)
    else Sender([], 0, WINDOW, WINDOW_MAX_SLOW, WINDOW_MIN, WINDOW_FLEXIBILITY, 0, 0, rtt)
  }

  function SendOn(s: Sender, m: Message, linkMdu: nat): SendResult {
    var raw := PackEnvelope(m, s.nextSequence);
    if |s.ring| >= s.window then NotReady
    else if |raw| > linkMdu then MessageTooBig
    else Sent(s.(nextSequence := Next(s.nextSequence), ring := s.ring + [TxEnvelope(s.nextSequence, raw, 1)]), raw)
  }

  /** The first envelope with a number, or the length of the ring. */
  function Position(ring: seq<TxEnvelope>, sequence: u16): (p: nat)
    ensures p <= |ring| && (p < |ring| ==> ring[p].sequence == sequence)
    ensures forall k :: 0 <= k < p ==> ring[k].sequence != sequence
  {
    if ring == [] || ring[0].sequence == sequence then 0 else 1 + Position(ring[1..], sequence)
  }

  function Without(ring: seq<TxEnvelope>, p: nat): seq<TxEnvelope>
    requires p < |ring|
  {
    ring[..p] + ring[p + 1..]
  }

  function Adapted(s: Sender): Sender {
    if s.rtt == 0.0 then s
    else if s.rtt > RTT_FAST then
      var t := s.(fastRounds := 0);
      if s.rtt > RTT_MEDIUM then t.(mediumRounds := 0)
      else
        var u := t.(mediumRounds := Next(t.mediumRounds));
        if u.windowMax < WINDOW_MAX_MEDIUM && u.mediumRounds == FAST_RATE_THRESHOLD
        then u.(windowMax := WINDOW_MAX_MEDIUM, windowMin := WINDOW_MIN_LIMIT_MEDIUM)
        else u
    else
      var t := s.(fastRounds := Next(s.fastRounds));
      if t.windowMax < WINDOW_MAX_FAST && t.fastRounds == FAST_RATE_THRESHOLD
      then t.(windowMax := WINDOW_MAX_FAST, windowMin := WINDOW_MIN_LIMIT_FAST)
      else t
  }

  function Delivered(s: Sender, sequence: u16): Sender {
    var p := Position(s.ring, sequence);
    if p == |s.ring| then s
    else
      Adapted(s.(ring := Without(s.ring, p), window := if s.window < s.windowMax then s.window + 1 else s.window))
  }

  function Shrunk(s: Sender): Sender {
    if s.window <= s.windowMin then s
    else
      s.(window := s.window - 1,
         windowMax := if s.windowMax > s.windowMin + s.flexibility then s.windowMax - 1 else s.windowMax)
  }

  datatype Timed = NothingDue | Again(next: Sender, raw: seq<byte>) | TornDown(next: Sender)

  function TimedOut(s: Sender, sequence: u16): Timed {
    var p := Position(s.ring, sequence);
    if p == |s.ring| then NothingDue
    else if s.ring[p].tries >= MAX_TRIES then TornDown(s.(ring := []))
    else
      var e := s.ring[p];
      Again(Shrunk(s.(ring := s.ring[p := e.(tries := e.tries + 1)])), e.raw)
  }

  // ----- what every sender keeps -----

  /** The window is between 1 and 48, no more than 48 messages are outstanding, and none has
      been sent more than five times. */
  ghost predicate Sound(s: Sender) {
    && 1 <= s.windowMin
    && 1 <= s.window <= s.windowMax <= WINDOW_MAX_FAST
    && |s.ring| <= WINDOW_MAX_FAST
    && (forall k :: 0 <= k < |s.ring| ==> 1 <= s.ring[k].tries <= MAX_TRIES)
  }

  lemma NewSound(rtt: real)
    ensures Sound(NewSender(rtt))
  {
  }

  lemma SendSound(s: Sender, m: Message, linkMdu: nat)
    requires Sound(s) && SendOn(s, m, linkMdu).Sent?
    ensures Sound(SendOn(s, m, linkMdu).next)
  {
    hide PackEnvelope;
  }

  lemma DeliveredSound(s: Sender, sequence: u16)
    requires Sound(s)
    ensures Sound(Delivered(s, sequence))
  {
    hide Position;
  }

  lemma TimedOutSound(s: Sender, sequence: u16)
    requires Sound(s)
    ensures TimedOut(s, sequence).Again? ==> Sound(TimedOut(s, sequence).next)
    ensures TimedOut(s, sequence).TornDown? ==> Sound(TimedOut(s, sequence).next)
  {
    hide Position;
  }

  // ----- both ends -----

  /** A sender, all the messages it sent, and the order in which copies of them arrived. The
      receiver is the one those arrivals make. */
  datatype World = World(sender: Sender, sent: seq<Message>, arrivals: seq<nat>, open: bool)

  /** A copy of any message sent may arrive at any time, again or never. The receiving node
      proves every channel packet that arrives, also one its channel ignores, so a message
      may be acknowledged at any time after it arrived. */
  datatype Event = Send(m: Message) | Arrive(i: nat) | Acknowledge(i: nat) | Timeout(sequence: u16)

  function Step(w: World, e: Event, linkMdu: nat): World {
    if !w.open then w
    else
      match e
      case Send(m) =>
        (match SendOn(w.sender, m, linkMdu)
         case Sent(s, _) => w.(sender := s, sent := w.sent + [m])
         case _ => w)
      case Arrive(i) => if i < |w.sent| then w.(arrivals := w.arrivals + [i]) else w
      case Acknowledge(i) => if i in w.arrivals then w.(sender := Delivered(w.sender, i % SEQ_MODULUS)) else w
      case Timeout(q) =>
        (match TimedOut(w.sender, q)
         case NothingDue => w
         case Again(s, _) => w.(sender := s)
         case TornDown(s) => w.(sender := s, open := false))
  }

  function Start(rtt: real): World {
    World(NewSender(rtt), [], [], true)
  }

  function Play(w: World, events: seq<Event>, linkMdu: nat): World {
    if events == [] then w
    else Step(Play(w, events[..|events| - 1], linkMdu), events[|events| - 1], linkMdu)
  }

  /** In every run the window is sound, and messages are numbered in the order sent. */
  ghost predicate Consistent(w: World) {
    && Sound(w.sender)
    && w.sender.nextSequence == |w.sent| % SEQ_MODULUS
    && Numbered(w.sent, w.arrivals)
  }

  lemma StepConsistent(w: World, e: Event, linkMdu: nat)
    requires Consistent(w)
    ensures Consistent(Step(w, e, linkMdu))
  {
    hide Sound, Delivered, TimedOut;
    match e
    case Send(m) =>
      if SendOn(w.sender, m, linkMdu).Sent? {
        SendSound(w.sender, m, linkMdu);
        NextIs(|w.sent|);
      }
    case Arrive(i) =>
    case Acknowledge(i) =>
      DeliveredSound(w.sender, i % SEQ_MODULUS);
      DeliveredNumber(w.sender, i % SEQ_MODULUS);
    case Timeout(q) =>
      TimedOutSound(w.sender, q);
      TimedOutNumber(w.sender, q);
  }

  lemma DeliveredNumber(s: Sender, q: u16)
    ensures Delivered(s, q).nextSequence == s.nextSequence
  {
  }

  lemma TimedOutNumber(s: Sender, q: u16)
    ensures !TimedOut(s, q).NothingDue? ==> TimedOut(s, q).next.nextSequence == s.nextSequence
  {
  }

  /** Every run of both ends keeps at most 48 messages outstanding, sends none more than
      five times, and numbers them in the order sent. */
  lemma {:induction false} EveryRunConsistent(rtt: real, events: seq<Event>, linkMdu: nat)
    ensures Consistent(Play(Start(rtt), events, linkMdu))
  {
    hide Step, Consistent;
    if events == [] {
      StartConsistent(rtt);
    } else {
      var before := events[..|events| - 1];
      EveryRunConsistent(rtt, before, linkMdu);
      StepConsistent(Play(Start(rtt), before, linkMdu), events[|events| - 1], linkMdu);
    }
  }

  lemma StartConsistent(rtt: real)
    ensures Consistent(Start(rtt))
  {
    NewSound(rtt);
  }

  // ----- which messages are outstanding -----

  function Cut(idx: seq<nat>, p: nat): seq<nat>
    requires p < |idx|
  {
    idx[..p] + idx[p + 1..]
  }

  /** The messages the ring holds after an event, given those it held before. */
  function Holding(w: World, idx: seq<nat>, e: Event, linkMdu: nat): seq<nat> {
    if !w.open then idx
    else
      match e
      case Send(m) => if SendOn(w.sender, m, linkMdu).Sent? then idx + [|w.sent|] else idx
      case Arrive(_) => idx
      case Acknowledge(i) =>
        var p := Position(w.sender.ring, i % SEQ_MODULUS);
        if i in w.arrivals && p < |idx| then Cut(idx, p) else idx
      case Timeout(q) => if TimedOut(w.sender, q).TornDown? then [] else idx
  }

  function Outstanding(rtt: real, events: seq<Event>, linkMdu: nat): seq<nat> {
    if events == [] then []
    else
      var before := events[..|events| - 1];
      Holding(Play(Start(rtt), before, linkMdu), Outstanding(rtt, before, linkMdu), events[|events| - 1], linkMdu)
  }

  ghost predicate Rising(idx: seq<nat>) {
    forall j, k :: 0 <= j < k < |idx| ==> idx[j] < idx[k]
  }

  /** The ring holds the envelopes of these messages, in the order sent. */
  ghost predicate Tracks(w: World, idx: seq<nat>) {
    && Rising(idx)
    && (forall k :: 0 <= k < |idx| ==> idx[k] < |w.sent|)
    && Matches(w.sender.ring, w.sent, idx)
  }

  ghost predicate Matches(ring: seq<TxEnvelope>, sent: seq<Message>, idx: seq<nat>) {
    && |idx| == |ring| && Numbered(sent, idx)
    && (forall k :: 0 <= k < |idx| ==> ring[k].sequence == idx[k] % SEQ_MODULUS && ring[k].raw == Wire(sent, idx[k]))
  }

  lemma MatchesLonger(ring: seq<TxEnvelope>, sent: seq<Message>, idx: seq<nat>, m: Message)
    requires Matches(ring, sent, idx)
    ensures Matches(ring, sent + [m], idx)
  {
    hide PackEnvelope;
  }

  lemma MatchesSent(ring: seq<TxEnvelope>, sent: seq<Message>, idx: seq<nat>, e: TxEnvelope)
    requires Matches(ring, sent, idx) && sent != []
    requires e.sequence == (|sent| - 1) % SEQ_MODULUS && e.raw == Wire(sent, |sent| - 1)
    ensures Matches(ring + [e], sent, idx + [|sent| - 1])
  {
    hide Wire;
  }

  lemma MatchesCut(ring: seq<TxEnvelope>, sent: seq<Message>, idx: seq<nat>, p: nat)
    requires Matches(ring, sent, idx) && Rising(idx) && p < |idx|
    ensures Matches(Without(ring, p), sent, Cut(idx, p)) && Rising(Cut(idx, p))
    ensures forall k :: 0 <= k < |idx| - 1 ==> Cut(idx, p)[k] in idx
  {
    hide Wire;
    var rest, r := Cut(idx, p), Without(ring, p);
    forall k | 0 <= k < |rest|
      ensures rest[k] == idx[if k < p then k else k + 1] && r[k] == ring[if k < p then k else k + 1]
    {
    }
  }

  lemma DeliveredRing(s: Sender, q: u16)
    ensures var p := Position(s.ring, q);
            Delivered(s, q).ring == if p == |s.ring| then s.ring else Without(s.ring, p)
  {
  }

  lemma TimedOutRing(s: Sender, q: u16)
    ensures var t := TimedOut(s, q);
            && (t.TornDown? ==> t.next.ring == [])
            && (t.Again? ==> |t.next.ring| == |s.ring|
                             && forall k :: 0 <= k < |s.ring| ==> t.next.ring[k].sequence == s.ring[k].sequence
                                                                  && t.next.ring[k].raw == s.ring[k].raw)
  {
  }

  /** What is sent is the message under its own number. */
  lemma SentIsWire(w: World, m: Message, linkMdu: nat)
    requires Consistent(w) && SendOn(w.sender, m, linkMdu).Sent?
    ensures SendOn(w.sender, m, linkMdu).raw == Wire(w.sent + [m], |w.sent|)
  {
    hide PackEnvelope;
  }

  lemma TracksStep(w: World, idx: seq<nat>, e: Event, linkMdu: nat)
    requires Consistent(w) && Tracks(w, idx)
    ensures Tracks(Step(w, e, linkMdu), Holding(w, idx, e, linkMdu))
  {
    hide Sound, Delivered, TimedOut, PackEnvelope, Position, Cut, Without, Wire;
    match e
    case Send(m) =>
      if w.open && SendOn(w.sender, m, linkMdu).Sent? {
        MatchesLonger(w.sender.ring, w.sent, idx, m);
        SentIsWire(w, m, linkMdu);
        var raw := SendOn(w.sender, m, linkMdu).raw;
        MatchesSent(w.sender.ring, w.sent + [m], idx, TxEnvelope(w.sender.nextSequence, raw, 1));
      }
    case Arrive(i) =>
    case Acknowledge(i) =>
      var p := Position(w.sender.ring, i % SEQ_MODULUS);
      DeliveredRing(w.sender, i % SEQ_MODULUS);
      if p < |idx| {
        MatchesCut(w.sender.ring, w.sent, idx, p);
        CutBelow(idx, p, |w.sent|);
      }
    case Timeout(q) => TimedOutRing(w.sender, q);
  }

  lemma CutBelow(idx: seq<nat>, p: nat, n: nat)
    requires p < |idx| && forall k :: 0 <= k < |idx| ==> idx[k] < n
    ensures forall k :: 0 <= k < |Cut(idx, p)| ==> Cut(idx, p)[k] < n
  {
  }

  /** How far the next message is from the oldest one outstanding. The code has it as the
      distance of its next number from that of the first envelope in the ring. */
  function Span(w: World, idx: seq<nat>): int {
    if idx == [] then 0 else |w.sent| - idx[0]
  }

  lemma SpanRead(w: World, idx: seq<nat>)
    requires Consistent(w) && Tracks(w, idx) && idx != [] && Span(w, idx) < SEQ_MODULUS
    ensures Span(w, idx) == Distance(w.sender.nextSequence, w.sender.ring[0].sequence)
  {
    hide Sound, Distance;
    DistanceIs(|w.sent|, idx[0]);
  }

  // ----- within the window -----

  /** A message is sent only when the oldest one outstanding is at most 48 back, and an
      acknowledgement that finds an envelope is of the message in it. */
  predicate Careful(w: World, idx: seq<nat>, e: Event, linkMdu: nat) {
    w.open ==>
      && (e.Send? && SendOn(w.sender, e.m, linkMdu).Sent? ==> Span(w, idx) <= WINDOW_MAX_FAST)
      && (e.Acknowledge? && e.i in w.arrivals ==>
            var p := Position(w.sender.ring, e.i % SEQ_MODULUS);
            p < |idx| ==> idx[p] == e.i)
  }

  ghost predicate AllCareful(rtt: real, events: seq<Event>, linkMdu: nat) {
    forall t :: 0 <= t < |events| ==>
      Careful(Play(Start(rtt), events[..t], linkMdu), Outstanding(rtt, events[..t], linkMdu), events[t], linkMdu)
  }

  /** Everything not outstanding arrived, what is outstanding is close together, and all
      arrivals are within the window. */
  ghost predicate Steered(w: World, idx: seq<nat>) {
    && Consistent(w)
    && (w.open ==>
          && Tracks(w, idx)
          && (forall k: nat :: k < |w.sent| && k !in idx ==> k in w.arrivals)
          && Span(w, idx) <= WINDOW_MAX_FAST + 1)
    && InWindow(w.arrivals)
  }

  /** The receiver is not behind the oldest message outstanding. */
  lemma NotBehind(w: World, idx: seq<nat>)
    requires Steered(w, idx) && w.open
    ensures |w.sent| - Span(w, idx) <= |IdealFrom(IDEAL_START, w.arrivals).handed|
  {
    hide InWindow, IdealFrom, Filled, Ordered, Consistent;
    var s := IdealFrom(IDEAL_START, w.arrivals);
    SourcesArrived(w.arrivals);
    var n := |s.handed|;
    if n < |w.sent| - Span(w, idx) {
      NotYetOutstanding(idx, n);
      NothingForgotten(w.arrivals, n);
      assert false;
    }
  }

  lemma NotYetOutstanding(idx: seq<nat>, n: nat)
    requires Rising(idx) && (idx == [] || n < idx[0])
    ensures n !in idx
  {
  }

  lemma SteeredArrival(w: World, idx: seq<nat>, i: nat)
    requires Steered(w, idx) && w.open && i < |w.sent|
    ensures InWindow(w.arrivals + [i])
  {
    hide IdealFrom, InWindow, Tracks, Consistent;
    NotBehind(w, idx);
    assert (w.arrivals + [i])[..|w.arrivals|] == w.arrivals;
    InWindowStep(w.arrivals + [i], |w.arrivals|);
  }

  lemma RemovedOnly(idx: seq<nat>, p: nat, k: nat)
    requires p < |idx| && k in idx && k != idx[p]
    ensures k in Cut(idx, p)
  {
    var j :| 0 <= j < |idx| && idx[j] == k;
    var rest := Cut(idx, p);
    assert rest[if j < p then j else j - 1] == k;
  }

  lemma RemovedArrived(w: World, idx: seq<nat>, p: nat)
    requires p < |idx| && idx[p] in w.arrivals
    requires forall k: nat :: k < |w.sent| && k !in idx ==> k in w.arrivals
    ensures forall k: nat :: k < |w.sent| && k !in Cut(idx, p) ==> k in w.arrivals
  {
    hide Cut;
    forall k | k in idx && k != idx[p]
      ensures k in Cut(idx, p)
    {
      RemovedOnly(idx, p, k);
    }
  }

  lemma SpanAfterRemoval(w: World, idx: seq<nat>, p: nat)
    requires Rising(idx) && p < |idx| && idx[0] <= |w.sent| && forall k :: 0 <= k < |idx| ==> idx[k] < |w.sent|
    ensures Span(w, Cut(idx, p)) <= Span(w, idx)
  {
  }

  lemma SteeredStep(w: World, idx: seq<nat>, e: Event, linkMdu: nat)
    requires Steered(w, idx) && Careful(w, idx, e, linkMdu)
    ensures Steered(Step(w, e, linkMdu), Holding(w, idx, e, linkMdu))
  {
    hide Consistent, InWindow, Delivered, TimedOut, PackEnvelope, Tracks, Position, Cut;
    StepConsistent(w, e, linkMdu);
    if w.open {
      TracksStep(w, idx, e, linkMdu);
      TracksParts(w, idx);
      match e
      case Send(m) =>
      case Arrive(i) =>
        if i < |w.sent| {
          SteeredArrival(w, idx, i);
        }
      case Acknowledge(i) =>
        var p := Position(w.sender.ring, i % SEQ_MODULUS);
        if i in w.arrivals && p < |idx| {
          SpanAfterRemoval(w, idx, p);
          RemovedArrived(w, idx, p);
        }
      case Timeout(q) =>
    }
  }

  lemma TracksParts(w: World, idx: seq<nat>)
    requires Tracks(w, idx)
    ensures Rising(idx) && (forall k :: 0 <= k < |idx| ==> idx[k] < |w.sent|) && |idx| == |w.sender.ring|
  {
  }

  lemma SteeredStart(rtt: real)
    ensures Steered(Start(rtt), [])
  {
    NewSound(rtt);
  }

  lemma {:induction false} SteeredRun(rtt: real, events: seq<Event>, linkMdu: nat)
    requires AllCareful(rtt, events, linkMdu)
    ensures Steered(Play(Start(rtt), events, linkMdu), Outstanding(rtt, events, linkMdu))
  {
    hide Step, Steered, Careful, Holding;
    if events == [] {
      SteeredStart(rtt);
    } else {
      var n := |events| - 1;
      var before := events[..n];
      assert AllCareful(rtt, before, linkMdu) by {
        forall t | 0 <= t < n
          ensures Careful(Play(Start(rtt), before[..t], linkMdu), Outstanding(rtt, before[..t], linkMdu),
                          before[t], linkMdu)
        {
          assert before[..t] == events[..t] && before[t] == events[t];
        }
      }
      SteeredRun(rtt, before, linkMdu);
      assert events[..n] == before;
      SteeredStep(Play(Start(rtt), before, linkMdu), Outstanding(rtt, before, linkMdu), events[n], linkMdu);
    }
  }

  /** End to end, where the sender is careful: every arrival is within 48 of the first message
      missing, and if none is mistaken what was handed on is the messages sent up to that
      one, in order and each once. */
  lemma CarefulSender(rtt: real, events: seq<Event>, linkMdu: nat)
    requires AllCareful(rtt, events, linkMdu) && linkMdu < SEQ_MODULUS
    ensures var w := Play(Start(rtt), events, linkMdu);
            && InWindow(w.arrivals) && Numbered(w.sent, w.arrivals)
            && (NoneMistaken(w.arrivals) ==> exists n: nat :: HandsOnUpto(w.sent, w.arrivals, n))
  {
    hide Play, HandsOnUpto, NoneMistaken, InWindow, AllCareful, Sound, Tracks;
    SteeredRun(rtt, events, linkMdu);
    PayloadsFit(rtt, events, linkMdu);
    var w := Play(Start(rtt), events, linkMdu);
    if NoneMistaken(w.arrivals) {
      ReliableDelivery(w.sent, w.arrivals);
    }
  }

  /** And no less careful: while the oldest message outstanding has not arrived, and nothing
      was mistaken, every message sent can arrive within the window exactly when the last one
      was sent at most 48 after the oldest. */
  lemma CarefulIff(w: World, idx: seq<nat>)
    requires Consistent(w) && w.open && Tracks(w, idx) && InWindow(w.arrivals) && NoneMistaken(w.arrivals)
    requires forall k: nat :: k < |w.sent| && k !in idx ==> k in w.arrivals
    requires idx != [] && idx[0] !in w.arrivals
    ensures (forall i: nat :: i < |w.sent| ==> InWindow(w.arrivals + [i])) <==> Span(w, idx) <= WINDOW_MAX_FAST + 1
  {
    hide IdealFrom, InWindow, Consistent, NoneMistaken;
    if Span(w, idx) <= WINDOW_MAX_FAST + 1 {
      forall i: nat | i < |w.sent|
        ensures InWindow(w.arrivals + [i])
      {
        SteeredArrival(w, idx, i);
      }
    } else {
      var last := |w.sent| - 1;
      NotHandedOn(w.arrivals, idx[0]);
      assert (w.arrivals + [last])[..|w.arrivals|] == w.arrivals;
      InWindowStep(w.arrivals + [last], |w.arrivals|);
    }
  }

  /** Over runs: after a careful run whose oldest message outstanding has not arrived, and in
      which nothing was mistaken, a message sent next and arriving is within the window
      exactly when sending it was careful. */
  lemma NextSendIff(rtt: real, events: seq<Event>, m: Message, linkMdu: nat)
    requires AllCareful(rtt, events, linkMdu)
    requires var w, idx := Play(Start(rtt), events, linkMdu), Outstanding(rtt, events, linkMdu);
             && w.open && SendOn(w.sender, m, linkMdu).Sent? && NoneMistaken(w.arrivals)
             && idx != [] && idx[0] !in w.arrivals
    ensures var w, idx := Play(Start(rtt), events, linkMdu), Outstanding(rtt, events, linkMdu);
            var w' := Play(Start(rtt), events + [Send(m)] + [Arrive(|w.sent|)], linkMdu);
            && w'.arrivals == w.arrivals + [|w.sent|]
            && (InWindow(w'.arrivals) <==> Careful(w, idx, Send(m), linkMdu))
  {
    hide Play, IdealFrom, InWindow, Consistent, NoneMistaken, AllCareful, Outstanding;
    var w, idx := Play(Start(rtt), events, linkMdu), Outstanding(rtt, events, linkMdu);
    var w1 := Play(Start(rtt), events + [Send(m)], linkMdu);
    PlayAppend(Start(rtt), events, [Send(m)], linkMdu);
    PlayOne(w, Send(m), linkMdu);
    PlayAppend(Start(rtt), events + [Send(m)], [Arrive(|w.sent|)], linkMdu);
    PlayOne(w1, Arrive(|w.sent|), linkMdu);
    SteeredRun(rtt, events, linkMdu);
    NotBehind(w, idx);
    NotHandedOn(w.arrivals, idx[0]);
    assert (w.arrivals + [|w.sent|])[..|w.arrivals|] == w.arrivals;
    InWindowStep(w.arrivals + [|w.sent|], |w.arrivals|);
  }

  /** Every run has a ring that tracks the messages outstanding, so this is about every run in
      which the other conditions hold. */
  lemma {:induction false} EveryRunTracks(rtt: real, events: seq<Event>, linkMdu: nat)
    ensures Tracks(Play(Start(rtt), events, linkMdu), Outstanding(rtt, events, linkMdu))
  {
    hide Step, Consistent, Tracks, Holding;
    if events == [] {
      TracksStart(rtt);
    } else {
      var before := events[..|events| - 1];
      EveryRunTracks(rtt, before, linkMdu);
      EveryRunConsistent(rtt, before, linkMdu);
      TracksStep(Play(Start(rtt), before, linkMdu), Outstanding(rtt, before, linkMdu), events[|events| - 1], linkMdu);
    }
  }

  // ----- what is on the link -----

  /** The bytes an event puts on the link. */
  function Put(w: World, e: Event, linkMdu: nat): seq<seq<byte>> {
    if !w.open then []
    else if e.Send? && SendOn(w.sender, e.m, linkMdu).Sent? then [SendOn(w.sender, e.m, linkMdu).raw]
    else if e.Timeout? && TimedOut(w.sender, e.sequence).Again? then [TimedOut(w.sender, e.sequence).raw]
    else []
  }

  function OnLink(rtt: real, events: seq<Event>, linkMdu: nat): seq<seq<byte>> {
    if events == [] then []
    else
      var before := events[..|events| - 1];
      OnLink(rtt, before, linkMdu) + Put(Play(Start(rtt), before, linkMdu), events[|events| - 1], linkMdu)
  }

  /** What is sent again is the message that was outstanding under that number. */
  lemma AgainIsWire(w: World, idx: seq<nat>, q: u16)
    requires Tracks(w, idx) && TimedOut(w.sender, q).Again?
    ensures var p := Position(w.sender.ring, q);
            p < |idx| && idx[p] % SEQ_MODULUS == q && TimedOut(w.sender, q).raw == Wire(w.sent, idx[p])
  {
    hide Wire, Shrunk;
  }

  ghost predicate IsWire(sent: seq<Message>, raw: seq<byte>) {
    exists i :: 0 <= i < |sent| && raw == Wire(sent, i)
  }

  lemma WireLonger(sent: seq<Message>, m: Message, i: nat)
    requires i < |sent|
    ensures Wire(sent + [m], i) == Wire(sent, i)
  {
    hide PackEnvelope;
  }

  /** The link carries the wires of the messages sent. */
  ghost predicate Carries(sent: seq<Message>, link: seq<seq<byte>>) {
    && (forall raw :: raw in link ==> IsWire(sent, raw))
    && (forall i :: 0 <= i < |sent| ==> Wire(sent, i) in link)
  }

  lemma CarriesMore(sent: seq<Message>, link: seq<seq<byte>>, m: Message)
    requires Carries(sent, link)
    ensures Carries(sent + [m], link + [Wire(sent + [m], |sent|)])
  {
    hide Wire;
    var all, more := sent + [m], link + [Wire(sent + [m], |sent|)];
    forall raw | raw in more
      ensures IsWire(all, raw)
    {
      if raw in link {
        var i :| 0 <= i < |sent| && raw == Wire(sent, i);
        WireLonger(sent, m, i);
        assert raw == Wire(all, i);
      } else {
        assert raw == Wire(all, |sent|);
      }
    }
    forall i | 0 <= i < |all|
      ensures Wire(all, i) in more
    {
      if i < |sent| {
        WireLonger(sent, m, i);
      }
    }
  }

  /** In every run the bytes put on the link, first or again, are exactly the envelopes of the
      messages sent, each under its own number; so what arrives is one of those. */
  lemma {:induction false} LinkCarries(rtt: real, events: seq<Event>, linkMdu: nat)
    ensures Carries(Play(Start(rtt), events, linkMdu).sent, OnLink(rtt, events, linkMdu))
  {
    hide Wire, SendOn, TimedOut, Delivered, Consistent, Tracks, Carries;
    if events == [] {
      CarriesNothing();
    } else {
      var before, e := events[..|events| - 1], events[|events| - 1];
      LinkCarries(rtt, before, linkMdu);
      EveryRunConsistent(rtt, before, linkMdu);
      EveryRunTracks(rtt, before, linkMdu);
      var w, link := Play(Start(rtt), before, linkMdu), OnLink(rtt, before, linkMdu);
      if w.open && e.Send? && SendOn(w.sender, e.m, linkMdu).Sent? {
        SentIsWire(w, e.m, linkMdu);
        CarriesMore(w.sent, link, e.m);
      } else if w.open && e.Timeout? && TimedOut(w.sender, e.sequence).Again? {
        AgainIsWire(w, Outstanding(rtt, before, linkMdu), e.sequence);
        CarriesAgain(w.sent, link, TimedOut(w.sender, e.sequence).raw,
                     OutstandingAt(w, Outstanding(rtt, before, linkMdu), e.sequence));
      } else {
        assert link + [] == link;
      }
    }
  }

  ghost function OutstandingAt(w: World, idx: seq<nat>, q: u16): (i: nat)
    requires Tracks(w, idx) && Position(w.sender.ring, q) < |idx|
    ensures i < |w.sent|
  {
    idx[Position(w.sender.ring, q)]
  }

  lemma CarriesAgain(sent: seq<Message>, link: seq<seq<byte>>, raw: seq<byte>, i: nat)
    requires Carries(sent, link) && i < |sent| && raw == Wire(sent, i)
    ensures Carries(sent, link + [raw])
  {
    hide Wire;
    assert IsWire(sent, raw);
  }

  lemma CarriesNothing()
    ensures Carries([], [])
  {
  }

  /** And a receiver reads every one of them as the message it is of. */
  lemma WireReadsBack(sent: seq<Message>, i: nat)
    requires Sendable(sent) && i < |sent|
    ensures UnpackEnvelope(Wire(sent, i)) == Some(Delivery(sent[i], i % SEQ_MODULUS))
  {
    hide UnpackEnvelope, PackEnvelope;
    EnvelopeRoundTrip(sent[i], i % SEQ_MODULUS);
  }

  lemma TracksStart(rtt: real)
    ensures Tracks(Start(rtt), [])
  {
  }

  // ----- acknowledged in order -----

  /** An acknowledgement is in order when it is of the oldest message outstanding, or of none
      that is. */
  predicate InOrder(w: World, e: Event) {
    e.Acknowledge? ==>
      e.i == |w.sent| - |w.sender.ring| || Position(w.sender.ring, e.i % SEQ_MODULUS) == |w.sender.ring|
  }

  ghost predicate AllInOrder(rtt: real, events: seq<Event>, linkMdu: nat) {
    forall t :: 0 <= t < |events| ==> InOrder(Play(Start(rtt), events[..t], linkMdu), events[t])
  }

  /** Then the messages outstanding are the last ones sent. */
  ghost predicate LastOnes(w: World, idx: seq<nat>) {
    |idx| <= |w.sent| && idx == Range(|w.sent| - |idx|, |w.sent|)
  }

  lemma LastOnesStep(w: World, idx: seq<nat>, e: Event, linkMdu: nat)
    requires Consistent(w) && Tracks(w, idx) && (w.open ==> LastOnes(w, idx)) && InOrder(w, e)
    ensures Careful(w, idx, e, linkMdu)
    ensures Step(w, e, linkMdu).open ==> LastOnes(Step(w, e, linkMdu), Holding(w, idx, e, linkMdu))
  {
    hide Delivered, TimedOut, PackEnvelope, Position, LastOnes, Tracks;
    TracksParts(w, idx);
    if w.open {
      LastOnesMeans(w, idx);
      match e
      case Send(m) =>
        if SendOn(w.sender, m, linkMdu).Sent? {
          OneMoreSent(w, idx);
          LastOnesOf(w.sent + [m], idx + [|w.sent|], Step(w, e, linkMdu));
        }
      case Arrive(i) => LastOnesOf(w.sent, idx, Step(w, e, linkMdu));
      case Acknowledge(i) =>
        OldestAcknowledged(w, idx, i);
        LastOnesOf(w.sent, Holding(w, idx, e, linkMdu), Step(w, e, linkMdu));
      case Timeout(q) => LastOnesOf(w.sent, idx, Step(w, e, linkMdu));
    }
  }

  lemma LastOnesMeans(w: World, idx: seq<nat>)
    requires LastOnes(w, idx)
    ensures |idx| <= |w.sent| && idx == Range(|w.sent| - |idx|, |w.sent|)
  {
  }

  /** Being the last ones depends on the messages alone. */
  lemma LastOnesOf(sent: seq<Message>, idx: seq<nat>, w: World)
    requires w.sent == sent && |idx| <= |sent| && idx == Range(|sent| - |idx|, |sent|)
    ensures LastOnes(w, idx)
  {
  }

  lemma OneMoreSent(w: World, idx: seq<nat>)
    requires Consistent(w) && Tracks(w, idx) && LastOnes(w, idx) && |w.sender.ring| < w.sender.window
    ensures Span(w, idx) <= WINDOW_MAX_FAST
    ensures idx + [|w.sent|] == Range(|w.sent| - |idx|, |w.sent| + 1)
  {
  }

  lemma OldestAcknowledged(w: World, idx: seq<nat>, i: nat)
    requires Tracks(w, idx) && LastOnes(w, idx) && InOrder(w, Acknowledge(i))
    ensures |idx| <= |w.sent| && idx == Range(|w.sent| - |idx|, |w.sent|)
    ensures var p := Position(w.sender.ring, i % SEQ_MODULUS);
            p < |idx| ==>
              && idx[p] == i
              && Cut(idx, p) == Range(|w.sent| - |idx| + 1, |w.sent|)
  {
    hide Position, Tracks, Wire, Cut, Range;
    var p := Position(w.sender.ring, i % SEQ_MODULUS);
    LastOnesRange(w, idx);
    FirstNumber(w, idx);
    if p < |idx| {
      OldestIs(|w.sent| - |idx|, |w.sent|);
      CutFirst(|w.sent| - |idx|, |w.sent|);
    }
  }

  lemma LastOnesRange(w: World, idx: seq<nat>)
    requires LastOnes(w, idx)
    ensures |idx| <= |w.sent| && idx == Range(|w.sent| - |idx|, |w.sent|)
  {
    hide Range;
  }

  lemma FirstNumber(w: World, idx: seq<nat>)
    requires Tracks(w, idx)
    ensures |idx| == |w.sender.ring| && (idx != [] ==> w.sender.ring[0].sequence == idx[0] % SEQ_MODULUS)
  {
    hide Wire, Numbered;
  }

  lemma OldestIs(a: nat, b: nat)
    requires a < b
    ensures |Range(a, b)| == b - a && Range(a, b)[0] == a
  {
  }

  lemma CutFirst(a: nat, b: nat)
    requires a < b
    ensures |Range(a, b)| > 0 && Cut(Range(a, b), 0) == Range(a + 1, b)
  {
    assert Cut(Range(a, b), 0) == Range(a, b)[1..];
  }

  lemma {:induction false} InOrderIsCareful(rtt: real, events: seq<Event>, linkMdu: nat)
    requires AllInOrder(rtt, events, linkMdu)
    ensures AllCareful(rtt, events, linkMdu)
    ensures var w := Play(Start(rtt), events, linkMdu);
            w.open ==> LastOnes(w, Outstanding(rtt, events, linkMdu))
  {
    hide Step, Careful, Holding, InOrder, Consistent, Tracks, LastOnes;
    if events == [] {
      LastOnesStart(rtt);
    } else {
      var n := |events| - 1;
      var before := events[..n];
      assert AllInOrder(rtt, before, linkMdu) by {
        forall t | 0 <= t < n
          ensures InOrder(Play(Start(rtt), before[..t], linkMdu), before[t])
        {
          assert before[..t] == events[..t] && before[t] == events[t];
        }
      }
      InOrderIsCareful(rtt, before, linkMdu);
      EveryRunConsistent(rtt, before, linkMdu);
      EveryRunTracks(rtt, before, linkMdu);
      var w, idx := Play(Start(rtt), before, linkMdu), Outstanding(rtt, before, linkMdu);
      assert InOrder(Play(Start(rtt), events[..n], linkMdu), events[n]);
      LastOnesStep(w, idx, events[n], linkMdu);
      forall t | 0 <= t < |events|
        ensures Careful(Play(Start(rtt), events[..t], linkMdu), Outstanding(rtt, events[..t], linkMdu),
                        events[t], linkMdu)
      {
        if t < n {
          assert before[..t] == events[..t] && before[t] == events[t];
        }
      }
    }
  }

  lemma LastOnesStart(rtt: real)
    ensures LastOnes(Start(rtt), [])
  {
  }

  /** So a sender whose acknowledgements come in order needs no care of its own. */
  lemma AcknowledgedInOrder(rtt: real, events: seq<Event>, linkMdu: nat)
    requires AllInOrder(rtt, events, linkMdu) && linkMdu < SEQ_MODULUS
    ensures var w := Play(Start(rtt), events, linkMdu);
            && InWindow(w.arrivals) && Numbered(w.sent, w.arrivals)
            && (NoneMistaken(w.arrivals) ==> exists n: nat :: HandsOnUpto(w.sent, w.arrivals, n))
  {
    hide Play, HandsOnUpto, NoneMistaken, InWindow, AllInOrder, AllCareful;
    InOrderIsCareful(rtt, events, linkMdu);
    CarefulSender(rtt, events, linkMdu);
  }

  lemma {:induction false} PayloadsFit(rtt: real, events: seq<Event>, linkMdu: nat)
    requires linkMdu < SEQ_MODULUS
    ensures Sendable(Play(Start(rtt), events, linkMdu).sent)
  {
    hide Delivered, TimedOut;
    if events != [] {
      PayloadsFit(rtt, events[..|events| - 1], linkMdu);
    }
  }

  // ----- acknowledged out of order -----

  const BLANK: Message := Message(0, [])

  function Blanks(n: nat): (ms: seq<Message>)
    ensures |ms| == n
  {
    seq(n, _ => BLANK)
  }

  /** A message sent, arrived and acknowledged. */
  function Round(i: nat): seq<Event> {
    [Send(BLANK), Arrive(i), Acknowledge(i)]
  }

  /** Rounds for the messages from i up to j. */
  function Rounds(i: nat, j: nat): seq<Event>
    requires i <= j
    decreases j
  {
    if i == j then [] else Rounds(i, j - 1) + Round(j - 1)
  }

  lemma {:induction false} PlayAppend(w: World, a: seq<Event>, b: seq<Event>, linkMdu: nat)
    ensures Play(w, a + b, linkMdu) == Play(Play(w, a, linkMdu), b, linkMdu)
  {
    hide Step;
    if b == [] {
      assert a + b == a;
    } else {
      PlayAppend(w, a, b[..|b| - 1], linkMdu);
      assert (a + b)[..|a + b| - 1] == a + b[..|b| - 1];
    }
  }

  lemma PlayOne(w: World, e: Event, linkMdu: nat)
    ensures Play(w, [e], linkMdu) == Step(w, e, linkMdu)
  {
    hide Step;
    assert [e][..0] == [] && Play(w, [], linkMdu) == w;
  }

  lemma PlayRound(w: World, i: nat, linkMdu: nat)
    ensures Play(w, Round(i), linkMdu)
         == Step(Step(Step(w, Send(BLANK), linkMdu), Arrive(i), linkMdu), Acknowledge(i), linkMdu)
  {
    hide Step, Play;
    var a, b, c := Send(BLANK), Arrive(i), Acknowledge(i);
    assert [a] + [b] == [a, b] && [a, b] + [c] == Round(i);
    PlayOne(w, a, linkMdu);
    PlayAppend(w, [a], [b], linkMdu);
    PlayOne(Step(w, a, linkMdu), b, linkMdu);
    PlayAppend(w, [a, b], [c], linkMdu);
    PlayOne(Step(Step(w, a, linkMdu), b, linkMdu), c, linkMdu);
  }

  /** Room for two messages at a time, and at most one of them outstanding, with number q. */
  ghost predicate Waits(w: World, n: nat, arrivals: seq<nat>, outstanding: seq<u16>) {
    && w.open
    && 2 <= w.sender.window <= w.sender.windowMax
    && 2 <= w.sender.windowMin
    && w.sender.nextSequence == n % SEQ_MODULUS
    && w.sent == Blanks(n)
    && w.arrivals == arrivals
    && |outstanding| <= 1
    && |w.sender.ring| == |outstanding|
    && (forall k :: 0 <= k < |outstanding| ==>
          w.sender.ring[k].sequence == outstanding[k] && w.sender.ring[k].tries == 1)
  }

  lemma SendBlank(w: World, n: nat, arrivals: seq<nat>, outstanding: seq<u16>, linkMdu: nat)
    requires Waits(w, n, arrivals, outstanding) && linkMdu >= ENVELOPE_OVERHEAD
    ensures var w' := Step(w, Send(BLANK), linkMdu);
            && w' == w.(sender := w'.sender, sent := Blanks(n + 1))
            && w'.sender == w.sender.(ring := w'.sender.ring, nextSequence := (n + 1) % SEQ_MODULUS)
            && |w'.sender.ring| == |w.sender.ring| + 1
            && w'.sender.ring[..|w.sender.ring|] == w.sender.ring
            && w'.sender.ring[|w.sender.ring|].sequence == n % SEQ_MODULUS
            && w'.sender.ring[|w.sender.ring|].tries == 1
  {
    hide Next, BeBytes;
    NextIs(n);
    assert Blanks(n) + [BLANK] == Blanks(n + 1);
  }

  lemma DeliveredLast(s: Sender, q: u16)
    requires s.ring != [] && s.ring[|s.ring| - 1].sequence == q
    requires forall k :: 0 <= k < |s.ring| - 1 ==> s.ring[k].sequence != q
    requires 2 <= s.window <= s.windowMax && 2 <= s.windowMin
    ensures var t := Delivered(s, q);
            && t.ring == s.ring[..|s.ring| - 1] && t.nextSequence == s.nextSequence
            && 2 <= t.window <= t.windowMax && 2 <= t.windowMin
  {
    assert Position(s.ring, q) == |s.ring| - 1;
  }

  /** A round next to an outstanding message leaves that one outstanding. */
  lemma WaitsRound(w: World, n: nat, arrivals: seq<nat>, outstanding: seq<u16>, linkMdu: nat)
    requires Waits(w, n, arrivals, outstanding) && linkMdu >= ENVELOPE_OVERHEAD
    requires n % SEQ_MODULUS !in outstanding
    ensures Waits(Play(w, Round(n), linkMdu), n + 1, arrivals + [n], outstanding)
  {
    hide Play, Delivered, SendOn, TimedOut;
    PlayRound(w, n, linkMdu);
    SendBlank(w, n, arrivals, outstanding, linkMdu);
    var w1 := Step(w, Send(BLANK), linkMdu);
    DeliveredLast(w1.sender, n % SEQ_MODULUS);
  }

  lemma {:induction false} WaitsRounds(w: World, i: nat, j: nat, arrivals: seq<nat>, outstanding: seq<u16>,
                                       linkMdu: nat)
    requires Waits(w, i, arrivals, outstanding) && linkMdu >= ENVELOPE_OVERHEAD && i <= j
    requires forall n :: i <= n < j ==> n % SEQ_MODULUS !in outstanding
    ensures Waits(Play(w, Rounds(i, j), linkMdu), j, arrivals + Range(i, j), outstanding)
    decreases j
  {
    hide Waits, Play;
    if i == j {
      assert arrivals + Range(i, j) == arrivals;
      PlayNone(w, linkMdu);
    } else {
      WaitsRounds(w, i, j - 1, arrivals, outstanding, linkMdu);
      WaitsRound(Play(w, Rounds(i, j - 1), linkMdu), j - 1, arrivals + Range(i, j - 1), outstanding, linkMdu);
      PlayAppend(w, Rounds(i, j - 1), Round(j - 1), linkMdu);
      assert arrivals + Range(i, j - 1) + [j - 1] == arrivals + Range(i, j);
    }
  }

  lemma PlayNone(w: World, linkMdu: nat)
    ensures Play(w, [], linkMdu) == w
  {
  }

  /** A message sent but not arrived, after any number of faultless rounds. */
  lemma GapOpens(rtt: real, n: nat, linkMdu: nat)
    requires rtt <= RTT_SLOW && linkMdu >= ENVELOPE_OVERHEAD
    ensures Waits(Play(Start(rtt), Rounds(0, n) + [Send(BLANK)], linkMdu), n + 1, Upto(n), [n % SEQ_MODULUS])
  {
    hide Play, Step;
    WaitsStart(rtt);
    WaitsRounds(Start(rtt), 0, n, [], [], linkMdu);
    assert [] + Range(0, n) == Upto(n);
    var w := Play(Start(rtt), Rounds(0, n), linkMdu);
    PlayAppend(Start(rtt), Rounds(0, n), [Send(BLANK)], linkMdu);
    PlayOne(w, Send(BLANK), linkMdu);
    SendBlank(w, n, Upto(n), [], linkMdu);
  }

  lemma WaitsStart(rtt: real)
    requires rtt <= RTT_SLOW
    ensures Waits(Start(rtt), 0, [], [])
  {
    assert Blanks(0) == [];
  }

  /** The events of a run in which message n is lost at first and the k after it are not. */
  function Overtaking(n: nat, k: nat): seq<Event> {
    Rounds(0, n) + [Send(BLANK)] + Rounds(n + 1, n + 1 + k)
  }

  lemma OvertakingWaits(rtt: real, n: nat, k: nat, linkMdu: nat)
    requires rtt <= RTT_SLOW && linkMdu >= ENVELOPE_OVERHEAD && k < SEQ_MODULUS
    ensures Waits(Play(Start(rtt), Overtaking(n, k), linkMdu), n + 1 + k,
                  Upto(n) + Range(n + 1, n + 1 + k), [n % SEQ_MODULUS])
  {
    hide Play, Waits;
    GapOpens(rtt, n, linkMdu);
    var a := Rounds(0, n) + [Send(BLANK)];
    PlayAppend(Start(rtt), a, Rounds(n + 1, n + 1 + k), linkMdu);
    forall i | n + 1 <= i < n + 1 + k
      ensures i % SEQ_MODULUS !in [n % SEQ_MODULUS]
    {
      SameNumber(i, n, n);
    }
    WaitsRounds(Play(Start(rtt), a, linkMdu), n + 1, n + 1 + k, Upto(n), [n % SEQ_MODULUS], linkMdu);
  }

  /** The receiver keeps waiting for message n. */
  lemma {:induction false} WaitsForN(n: nat, k: nat)
    requires k < SEQ_MODULUS
    ensures var arrivals := Upto(n) + Range(n + 1, n + 1 + k);
            |IdealFrom(IDEAL_START, arrivals).handed| == n && NoneMistaken(arrivals)
    decreases k
  {
    hide IdealStep, NoneMistaken, Sourced, Faithful, Upto, Range;
    var arrivals := Upto(n) + Range(n + 1, n + 1 + k);
    AllButN(n, k);
    if k == 0 {
      UptoRun(n);
      UptoFaithful(n);
      FaithfulIff(arrivals);
    } else {
      var before := Upto(n) + Range(n + 1, n + k);
      WaitsForN(n, k - 1);
      NoneMistakenStep(arrivals, |before|);
      assert !Mistaken(IdealFrom(IDEAL_START, before), n + k);
      FaithfulIff(arrivals);
      SourcesArrived(before);
      SteadyOf(IdealFrom(IDEAL_START, before), before);
      StepMeaning(IdealFrom(IDEAL_START, before), n + k);
      NotHandedOn(arrivals, n);
    }
  }

  /** All messages before and k after n. */
  lemma AllButN(n: nat, k: nat)
    ensures var arrivals := Upto(n) + Range(n + 1, n + 1 + k);
            && n !in arrivals && |arrivals| == n + k
            && (k == 0 ==> arrivals == Upto(n))
            && (k > 0 ==> arrivals[..|arrivals| - 1] == Upto(n) + Range(n + 1, n + k)
                          && arrivals[|arrivals| - 1] == n + k)
  {
  }

  lemma UptoFaithful(n: nat)
    ensures Faithful(Ideal(Upto(n), []))
  {
  }

  lemma NotHandedOn(arrivals: seq<nat>, n: nat)
    requires NoneMistaken(arrivals) && n !in arrivals
    ensures |IdealFrom(IDEAL_START, arrivals).handed| <= n
  {
    hide IdealFrom, Sourced, Faithful, NoneMistaken;
    FaithfulIff(arrivals);
    SourcesArrived(arrivals);
    var s := IdealFrom(IDEAL_START, arrivals);
    if |s.handed| > n {
      HandedArrived(s, arrivals, n);
      assert false;
    }
  }

  lemma HandedArrived(s: Ideal, arrivals: seq<nat>, k: nat)
    requires Sourced(s, arrivals) && Faithful(s) && k < |s.handed|
    ensures k in arrivals
  {
    assert s.handed[k] == k;
  }

  /** Out of order the window does not bound how far ahead arrivals get: for any message n
      and any k below 65536 there is a run, without any loss but of the first copy of n, in
      which a message arrives k places ahead of the first one missing. */
  lemma ArrivesAhead(rtt: real, n: nat, k: nat, linkMdu: nat)
    requires rtt <= RTT_SLOW && linkMdu >= ENVELOPE_OVERHEAD && 1 <= k < SEQ_MODULUS
    ensures var w := Play(Start(rtt), Overtaking(n, k - 1), linkMdu);
            var w' := Play(Start(rtt), Overtaking(n, k), linkMdu);
            && w'.arrivals == w.arrivals + [n + k]
            && |IdealFrom(IDEAL_START, w.arrivals).handed| == n
  {
    hide Play, IdealFrom;
    OvertakingWaits(rtt, n, k - 1, linkMdu);
    OvertakingWaits(rtt, n, k, linkMdu);
    WaitsForN(n, k - 1);
    assert Upto(n) + Range(n + 1, n + k) + [n + k] == Upto(n) + Range(n + 1, n + 1 + k);
  }

  // ----- acknowledged and never handed on -----

  /** Message n arrives at last, and is acknowledged. */
  function Recovery(n: nat): seq<Event> {
    [Timeout(n % SEQ_MODULUS), Arrive(n), Acknowledge(n)]
  }

  lemma RecoveryEmpties(w: World, n: nat, total: nat, arrivals: seq<nat>, linkMdu: nat)
    requires Waits(w, total, arrivals, [n % SEQ_MODULUS]) && n < total
    ensures var w' := Play(w, Recovery(n), linkMdu);
            w'.open && w'.sender.ring == [] && w'.sent == Blanks(total) && w'.arrivals == arrivals + [n]
  {
    hide Play;
    var a, b, c := Timeout(n % SEQ_MODULUS), Arrive(n), Acknowledge(n);
    assert [a] + [b] == [a, b] && [a, b] + [c] == Recovery(n);
    PlayOne(w, a, linkMdu);
    PlayAppend(w, [a], [b], linkMdu);
    PlayOne(Step(w, a, linkMdu), b, linkMdu);
    PlayAppend(w, [a, b], [c], linkMdu);
    PlayOne(Step(Step(w, a, linkMdu), b, linkMdu), c, linkMdu);
    TimeoutAgain(w.sender, n % SEQ_MODULUS);
    DeliveredOnly(Step(w, a, linkMdu).sender, n % SEQ_MODULUS);
  }

  lemma TimeoutAgain(s: Sender, q: u16)
    requires |s.ring| == 1 && s.ring[0].sequence == q && s.ring[0].tries == 1
    ensures TimedOut(s, q).Again? && |TimedOut(s, q).next.ring| == 1 && TimedOut(s, q).next.ring[0].sequence == q
  {
  }

  lemma DeliveredOnly(s: Sender, q: u16)
    requires |s.ring| == 1 && s.ring[0].sequence == q
    ensures Delivered(s, q).ring == []
  {
  }

  /** Near the wrap a message 49 places ahead is ignored, and acknowledged all the same. */
  lemma IgnoredAhead(n: nat)
    requires n % SEQ_MODULUS >= SEQ_MODULUS - WINDOW_MAX_FAST - 1
    ensures var arrivals := Upto(n) + Range(n + 1, n + 1 + WINDOW_MAX_FAST);
            IdealFrom(IDEAL_START, arrivals + [n + 1 + WINDOW_MAX_FAST]) == IdealFrom(IDEAL_START, arrivals)
  {
    hide IdealFrom, NoneMistaken;
    var arrivals, i := Upto(n) + Range(n + 1, n + 1 + WINDOW_MAX_FAST), n + 1 + WINDOW_MAX_FAST;
    WaitsForN(n, WINDOW_MAX_FAST);
    IdealAppend(IDEAL_START, arrivals, i);
    PlaceOwn(n, i);
  }

  lemma {:induction false} OvertakingInWindow(n: nat, k: nat)
    requires k <= WINDOW_MAX_FAST
    ensures InWindow(Upto(n) + Range(n + 1, n + 1 + k))
    decreases n + k
  {
    hide InWindow, IdealFrom, NoneMistaken;
    var arrivals := Upto(n) + Range(n + 1, n + 1 + k);
    if k > 0 {
      var before := Upto(n) + Range(n + 1, n + k);
      OvertakingInWindow(n, k - 1);
      WaitsForN(n, k - 1);
      assert arrivals[..|arrivals| - 1] == before && arrivals[|arrivals| - 1] == n + k;
      InWindowStep(arrivals, |before|);
    } else if n > 0 {
      OvertakingInWindow(n - 1, 0);
      assert arrivals == Upto(n) && Upto(n)[..n - 1] == Upto(n - 1) + Range(n, n);
      UptoRun(n - 1);
      assert Upto(n - 1) + Range(n, n) == Upto(n - 1);
      InWindowStep(arrivals, n - 1);
    } else {
      assert arrivals == [];
      InWindowNothing();
    }
  }

  lemma InWindowNothing()
    ensures InWindow([])
  {
  }

  /** When message n arrives at last, the 48 after it are handed on too, and no more. */
  lemma HandedAfterRecovery(n: nat)
    requires n % SEQ_MODULUS >= SEQ_MODULUS - WINDOW_MAX_FAST - 1
    ensures var last := n + 1 + WINDOW_MAX_FAST;
            IdealFrom(IDEAL_START, Upto(n) + Range(n + 1, last + 1) + [n]) == Ideal(Upto(last), [])
  {
    hide IdealFrom, InWindow, NoneMistaken, IdealStep, Faithful, Sourced, Covered;
    var last := n + 1 + WINDOW_MAX_FAST;
    var seen := Upto(n) + Range(n + 1, last);
    var all := seen + [n];
    assert Upto(n) + Range(n + 1, last + 1) == seen + [last];
    IgnoredAhead(n);
    IdealAppend(IDEAL_START, seen + [last], n);
    IdealAppend(IDEAL_START, seen, n);
    WaitsForN(n, WINDOW_MAX_FAST);
    OvertakingInWindow(n, WINDOW_MAX_FAST);
    assert all[..|seen|] == seen && all[|seen|] == n;
    NoneMistakenStep(all, |seen|);
    InWindowStep(all, |seen|);
    FaithfulIff(all);
    SourcesArrived(all);
    var s := IdealFrom(IDEAL_START, all);
    forall k | k in all
      ensures Covered(s, k)
    {
      NothingForgotten(all, k);
    }
    FirstMissing(s, all);
    AllUpto(n, last, |s.handed|);
    NothingWaits(s, all, last);
  }

  lemma NothingWaits(s: Ideal, arrivals: seq<nat>, last: nat)
    requires Sourced(s, arrivals) && Faithful(s) && |s.handed| == last
    requires forall i :: i in arrivals ==> i < last
    ensures s.waiting == []
  {
    if s.waiting != [] {
      HeldArrived(s, arrivals, 0);
      assert false;
    }
  }

  lemma HeldArrived(s: Ideal, arrivals: seq<nat>, k: nat)
    requires Sourced(s, arrivals) && Faithful(s) && k < |s.waiting|
    ensures s.waiting[k].place >= |s.handed| && s.waiting[k].place in arrivals
  {
    assert s.waiting[k] in s.waiting;
  }

  /** The messages before `last`, n at the end. */
  function AtLast(n: nat, last: nat): seq<nat>
    requires n < last
  {
    Upto(n) + Range(n + 1, last) + [n]
  }

  lemma AllUpto(n: nat, last: nat, m: nat)
    requires n < last
    requires m !in AtLast(n, last) && forall k: nat :: k < m ==> k in AtLast(n, last)
    ensures m == last
  {
    hide AtLast;
    Everyone(n, last);
    NoOneElse(n, last);
  }

  lemma NoOneElse(n: nat, last: nat)
    requires n < last
    ensures last !in AtLast(n, last)
  {
  }

  lemma RingEmpty(r: Receiver, sent: seq<Message>, s: Ideal)
    requires StandsFor(r, sent, s) && s.waiting == []
    ensures r.ring == []
  {
  }

  /** So reliable delivery fails at the wrap: there is a run in which every message sent
      arrived and was acknowledged, nothing is outstanding, and the last message is neither
      handed on nor held, so no end will ever bring it forward. It is this way for every
      message n whose number is within 49 of the wrap. */
  lemma AcknowledgedNeverHandedOn(rtt: real, n: nat, linkMdu: nat)
    requires rtt <= RTT_SLOW && linkMdu >= ENVELOPE_OVERHEAD
    requires n % SEQ_MODULUS >= SEQ_MODULUS - WINDOW_MAX_FAST - 1
    ensures var last := n + 1 + WINDOW_MAX_FAST;
            var w := Play(Start(rtt), Overtaking(n, WINDOW_MAX_FAST + 1) + Recovery(n), linkMdu);
            && w.open && w.sender.ring == [] && |w.sent| == last + 1
            && (forall i: nat :: i <= last ==> i in w.arrivals)
            && Numbered(w.sent, w.arrivals)
            && Numbered(w.sent, Upto(last))
            && RunFrom(START, w.sent, w.arrivals).1 == Deliveries(w.sent, Upto(last))
            && RunFrom(START, w.sent, w.arrivals).0.ring == []
  {
    hide Play, IdealFrom, Waits, RunFrom, Deliveries, StandsFor;
    var last := n + 1 + WINDOW_MAX_FAST;
    var arrivals := Upto(n) + Range(n + 1, last + 1);
    OvertakingWaits(rtt, n, WINDOW_MAX_FAST + 1, linkMdu);
    var w1 := Play(Start(rtt), Overtaking(n, WINDOW_MAX_FAST + 1), linkMdu);
    PlayAppend(Start(rtt), Overtaking(n, WINDOW_MAX_FAST + 1), Recovery(n), linkMdu);
    RecoveryEmpties(w1, n, last + 1, arrivals, linkMdu);
    HandedAfterRecovery(n);
    EveryRun(Blanks(last + 1), arrivals + [n]);
    RingEmpty(RunFrom(START, Blanks(last + 1), arrivals + [n]).0, Blanks(last + 1), Ideal(Upto(last), []));
    Everyone(n, last + 1);
    assert arrivals + [n] == AtLast(n, last + 1);
  }

  lemma Everyone(n: nat, last: nat)
    requires n < last
    ensures forall i: nat :: i < last ==> i in AtLast(n, last)
  {
    var all := AtLast(n, last);
    forall i: nat | i < last
      ensures i in all
    {
      if i < n {
        assert all[i] == i;
      } else if i > n {
        assert all[i - 1] == i;
      } else {
        assert all[|all| - 1] == i;
      }
    }
  }

  // ----- as an object -----

  class ChannelSender {
    var txRing: seq<TxEnvelope>
    var nextSequence: u16
    var window: u16
    var windowMax: u16
    var windowMin: u16
    var windowFlexibility: u16
    var fastRateRounds: u16
    var mediumRateRounds: u16
    var rtt: real

    ghost function View(): Sender
      reads this
    {
      Sender(txRing, nextSequence, window, windowMax, windowMin, windowFlexibility,
             fastRateRounds, mediumRateRounds, rtt)
    }

    constructor (initialRtt: real)
      ensures View() == NewSender(initialRtt)
    {
      txRing, nextSequence, fastRateRounds, mediumRateRounds, rtt := [], 0, 0, 0, initialRtt;
      if initialRtt > RTT_SLOW {
        window, windowMax, windowMin, windowFlexibility := 1, 1, 1, 1;
      } else {
        window, windowMax, windowMin, windowFlexibility := WINDOW, WINDOW_MAX_SLOW, WINDOW_MIN, WINDOW_FLEXIBILITY;
      }
    }

    method Send(m: Message, linkMdu: nat) returns (ok: bool, raw: seq<byte>)
      modifies this
      ensures ok <==> SendOn(old(View()), m, linkMdu).Sent?
      ensures !ok ==> View() == old(View())
      ensures ok ==> Sent(View(), raw) == SendOn(old(View()), m, linkMdu)
    {
      hide PackEnvelope, Next;
      if |txRing| >= window {
        return false, [];
      }
      var sequence := nextSequence;
      raw := PackEnvelope(m, sequence);
      if |raw| > linkMdu {
        return false, raw;
      }
      nextSequence := Next(nextSequence);
      txRing := txRing + [TxEnvelope(sequence, raw, 1)];
      ok := true;
    }

    method Find(sequence: u16) returns (p: nat)
      ensures p == Position(txRing, sequence)
    {
      p := 0;
      assert txRing[0..] == txRing;
      while p < |txRing| && txRing[p].sequence != sequence
        invariant p <= |txRing| && Position(txRing, sequence) == p + Position(txRing[p..], sequence)
      {
        assert txRing[p..][1..] == txRing[p + 1..];
        p := p + 1;
      }
    }

    method PacketDelivered(sequence: u16)
      modifies this
      ensures View() == Delivered(old(View()), sequence)
    {
      hide Position, Adapted;
      var p := Find(sequence);
      if p < |txRing| {
        txRing := txRing[..p] + txRing[p + 1..];
        if window < windowMax {
          window := window + 1;
        }
        AdaptWindowOnDelivery();
      }
    }

    method AdaptWindowOnDelivery()
      modifies this
      ensures View() == Adapted(old(View()))
    {
      if rtt == 0.0 {
        return;
      }
      if rtt > RTT_FAST {
        fastRateRounds := 0;
        if rtt > RTT_MEDIUM {
          mediumRateRounds := 0;
        } else {
          mediumRateRounds := Next(mediumRateRounds);
          if windowMax < WINDOW_MAX_MEDIUM && mediumRateRounds == FAST_RATE_THRESHOLD {
            windowMax := WINDOW_MAX_MEDIUM;
            windowMin := WINDOW_MIN_LIMIT_MEDIUM;
          }
        }
      } else {
        fastRateRounds := Next(fastRateRounds);
        if windowMax < WINDOW_MAX_FAST && fastRateRounds == FAST_RATE_THRESHOLD {
          windowMax := WINDOW_MAX_FAST;
          windowMin := WINDOW_MIN_LIMIT_FAST;
        }
      }
    }

    method PacketTimeout(sequence: u16) returns (torn: bool, again: seq<byte>)
      modifies this
      ensures var t := TimedOut(old(View()), sequence);
              && (t.NothingDue? ==> View() == old(View()) && !torn && again == [])
              && (t.Again? ==> View() == t.next && !torn && again == t.raw)
              && (t.TornDown? ==> View() == t.next && torn && again == [])
    {
      hide Position;
      var p := Find(sequence);
      if p == |txRing| {
        return false, [];
      }
      var envelope := txRing[p];
      if envelope.tries >= MAX_TRIES {
        txRing := [];
        return true, [];
      }
      txRing := txRing[p := envelope.(tries := envelope.tries + 1)];
      if window > windowMin {
        window := window - 1;
        if windowMax > windowMin + windowFlexibility {
          windowMax := windowMax - 1;
        }
      }
      return false, envelope.raw;
    }
  }
}
