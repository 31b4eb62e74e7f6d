/** The receiving end of a reliable channel: envelopes numbered modulo 65536 arrive in any
    order, any number of times or never, and messages are handed on in the order sent. */
module Channels {
  import opened Arithmetic
  import opened Bytes
  import opened Options

  type u16 = x: int | 0 <= x < 0x1_0000

  const SEQ_MODULUS: nat := 0x1_0000
  const WINDOW_MAX_FAST: nat := 48
  const ENVELOPE_OVERHEAD: nat := 6

  datatype Message = Message(msgtype: u16, payload: seq<byte>)

  datatype Delivery = Delivery(message: Message, sequence: u16)

  // ----- envelopes -----

  function PackEnvelope(m: Message, sequence: u16): seq<byte> {
    BeBytes(m.msgtype, 2) + BeBytes(sequence, 2) + BeBytes(|m.payload| % SEQ_MODULUS, 2) + m.payload
  }

  function ReadU16(raw: seq<byte>, at: nat): u16
    requires at + 2 <= |raw|
  {
    Pow256Words();
    BeValBound(raw[at..at + 2]);
    BeVal(raw[at..at + 2])
  }

  function UnpackEnvelope(raw: seq<byte>): Option<Delivery> {
    if |raw| < ENVELOPE_OVERHEAD then None
    else
      var length := ReadU16(raw, 4);
      if |raw| - ENVELOPE_OVERHEAD < length then None
      else
        var payload := raw[ENVELOPE_OVERHEAD..ENVELOPE_OVERHEAD + length];
        Some(Delivery(Message(ReadU16(raw, 0), payload), ReadU16(raw, 2)))
  }

  lemma Fields(a: seq<byte>, b: seq<byte>, c: seq<byte>, d: seq<byte>)
    requires |a| == 2 && |b| == 2 && |c| == 2
    ensures var raw := a + b + c + d;
            raw[0..2] == a && raw[2..4] == b && raw[4..6] == c && raw[6..] == d
  {
  }

  /** An envelope is read back with its payload cut to its length modulo 65536, and so as
      it was packed exactly when the payload is shorter than that. */
  lemma EnvelopeRoundTrip(m: Message, sequence: u16)
    ensures var n := |m.payload| % SEQ_MODULUS;
            UnpackEnvelope(PackEnvelope(m, sequence)) == Some(Delivery(Message(m.msgtype, m.payload[..n]), sequence))
    ensures UnpackEnvelope(PackEnvelope(m, sequence)) == Some(Delivery(m, sequence)) <==> |m.payload| < SEQ_MODULUS
  {
    hide BeBytes, BeVal;
    var n := |m.payload| % SEQ_MODULUS;
    Pow256Words();
    BeValOfBytes(m.msgtype, 2);
    BeValOfBytes(sequence, 2);
    BeValOfBytes(n, 2);
    Fields(BeBytes(m.msgtype, 2), BeBytes(sequence, 2), BeBytes(n, 2), m.payload);
    var raw := PackEnvelope(m, sequence);
    assert raw[6..6 + n] == raw[6..][..n];
    if |m.payload| < SEQ_MODULUS {
      assert m.payload[..n] == m.payload;
    }
  }

  // ----- the receiver -----

  datatype Envelope = Envelope(sequence: u16, raw: seq<byte>)

  datatype Receiver = Receiver(ring: seq<Envelope>, next: u16)

  function Next(n: u16): u16 {
    (n + 1) % SEQ_MODULUS
  }

  predicate IsBehind(next: u16, sequence: u16) {
    && sequence < next
    && var overflow := (next + WINDOW_MAX_FAST) % SEQ_MODULUS;
       (overflow < next ==> sequence > overflow)
  }

  /** `sequence.wrapping_sub(next)` */
  function Distance(sequence: u16, next: u16): u16 {
    (sequence - next) % SEQ_MODULUS
  }

  function Emplaced(ring: seq<Envelope>, e: Envelope, next: u16): seq<Envelope> {
    if ring == [] then [e]
    else if e.sequence == ring[0].sequence then ring
    else if Distance(e.sequence, next) < Distance(ring[0].sequence, next) then [e] + ring
    else [ring[0]] + Emplaced(ring[1..], e, next)
  }

  function Reparsed(e: Envelope): seq<Delivery> {
    match UnpackEnvelope(e.raw)
    case None => []
    case Some(d) => [Delivery(d.message, e.sequence)]
  }

  function Collected(ring: seq<Envelope>, next: u16): (Receiver, seq<Delivery>) {
    if ring == [] || ring[0].sequence != next then (Receiver(ring, next), [])
    else
      var (r, ds) := Collected(ring[1..], Next(next));
      (r, Reparsed(ring[0]) + ds)
  }

  function Received(r: Receiver, raw: seq<byte>): (Receiver, seq<Delivery>) {
    match UnpackEnvelope(raw)
    case None => (r, [])
    case Some(d) =>
      if IsBehind(r.next, d.sequence) then (r, [])
      else if exists j :: 0 <= j < |r.ring| && r.ring[j].sequence == d.sequence then (r, [])
      else Collected(Emplaced(r.ring, Envelope(d.sequence, raw), r.next), r.next)
  }

  // ----- numbers without bound -----

  /** A number some places ahead of the next one expected, modulo 65536, is let in. */
  predicate LetIn(next: u16, ahead: u16) {
    ahead < SEQ_MODULUS - next || (next >= SEQ_MODULUS - WINDOW_MAX_FAST && ahead <= WINDOW_MAX_FAST)
  }

  lemma DistanceIs(i: nat, n: nat)
    requires n <= i < n + SEQ_MODULUS
    ensures Distance(i % SEQ_MODULUS, n % SEQ_MODULUS) == i - n
  {
    var q, q' := i / SEQ_MODULUS, n / SEQ_MODULUS;
    DivModUnique(i % SEQ_MODULUS - n % SEQ_MODULUS, SEQ_MODULUS, q' - q, i - n);
  }

  lemma NextIs(n: nat)
    ensures Next(n % SEQ_MODULUS) == (n + 1) % SEQ_MODULUS
  {
    var q, r := n / SEQ_MODULUS, n % SEQ_MODULUS;
    if r + 1 < SEQ_MODULUS {
      DivModUnique(n + 1, SEQ_MODULUS, q, r + 1);
    } else {
      DivModUnique(n + 1, SEQ_MODULUS, q + 1, 0);
    }
  }

  /** The window test depends on the distance alone. */
  lemma BehindIff(next: u16, sequence: u16)
    ensures IsBehind(next, sequence) <==> !LetIn(next, Distance(sequence, next))
  {
    if sequence < next {
      DivModUnique(sequence - next, SEQ_MODULUS, -1, sequence - next + SEQ_MODULUS);
    } else {
      DivModUnique(sequence - next, SEQ_MODULUS, 0, sequence - next);
    }
    if next + WINDOW_MAX_FAST < SEQ_MODULUS {
      DivModUnique(next + WINDOW_MAX_FAST, SEQ_MODULUS, 0, next + WINDOW_MAX_FAST);
    } else {
      DivModUnique(next + WINDOW_MAX_FAST, SEQ_MODULUS, 1, next + WINDOW_MAX_FAST - SEQ_MODULUS);
    }
  }

  /** Whatever is at most 48 ahead is let in, across the wrap too. */
  lemma WindowLetIn(next: u16, ahead: u16)
    requires ahead <= WINDOW_MAX_FAST
    ensures LetIn(next, ahead)
  {
  }

  lemma SameNumber(i: nat, k: nat, n: nat)
    requires n <= i < n + SEQ_MODULUS && n <= k < n + SEQ_MODULUS
    ensures i % SEQ_MODULUS == k % SEQ_MODULUS <==> i == k
  {
    DistanceIs(i, n);
    DistanceIs(k, n);
  }

  /** Where a receiver that handed on n messages takes message i to belong: the one place
      among the next 65536 with the same number. */
  function Place(n: nat, i: nat): (j: nat)
    ensures n <= j < n + SEQ_MODULUS
  {
    n + (i - n) % SEQ_MODULUS
  }

  lemma PlaceNumber(n: nat, i: nat)
    ensures Place(n, i) % SEQ_MODULUS == i % SEQ_MODULUS
    ensures Distance(i % SEQ_MODULUS, n % SEQ_MODULUS) == Place(n, i) - n
  {
    var q := (i - n) / SEQ_MODULUS;
    assert Place(n, i) == i - q * SEQ_MODULUS;
    DivModUnique(Place(n, i), SEQ_MODULUS, i / SEQ_MODULUS - q, i % SEQ_MODULUS);
    DistanceIs(Place(n, i), n);
  }

  /** A message belongs in its own place exactly when it is one of the next 65536. */
  lemma PlaceOwn(n: nat, i: nat)
    ensures Place(n, i) == i <==> n <= i < n + SEQ_MODULUS
  {
    if n <= i < n + SEQ_MODULUS {
      DivModUnique(i - n, SEQ_MODULUS, 0, i - n);
    }
  }

  // ----- what the receiver stands for -----

  /** Messages are sent in envelopes numbered from zero. */
  predicate Sendable(sent: seq<Message>) {
    forall i :: 0 <= i < |sent| ==> |sent[i].payload| < SEQ_MODULUS
  }

  function Wire(sent: seq<Message>, i: nat): seq<byte>
    requires i < |sent|
  {
    PackEnvelope(sent[i], i % SEQ_MODULUS)
  }

  ghost predicate Numbered(sent: seq<Message>, numbers: seq<nat>) {
    forall t :: 0 <= t < |numbers| ==> numbers[t] < |sent|
  }

  /** Message `source`, waiting where message `place` belongs. */
  datatype Held = Held(place: nat, source: nat)

  /** The receiver with numbers that do not wrap: which message it handed on in each place,
      and which it holds. */
  datatype Ideal = Ideal(handed: seq<nat>, waiting: seq<Held>)

  predicate Filled(waiting: seq<Held>, j: nat) {
    exists k :: 0 <= k < |waiting| && waiting[k].place == j
  }

  function Insert(waiting: seq<Held>, h: Held): seq<Held> {
    if waiting == [] || h.place < waiting[0].place then [h] + waiting
    else [waiting[0]] + Insert(waiting[1..], h)
  }

  function Collect(s: Ideal): Ideal
    decreases |s.waiting|
  {
    if s.waiting == [] || s.waiting[0].place != |s.handed| then s
    else Collect(Ideal(s.handed + [s.waiting[0].source], s.waiting[1..]))
  }

  /** Whether an arrival goes in: its number is let in, and its place is free. */
  predicate GoesIn(s: Ideal, i: nat) {
    var n, j := |s.handed|, Place(|s.handed|, i);
    LetIn(n % SEQ_MODULUS, j - n) && !Filled(s.waiting, j)
  }

  function IdealStep(s: Ideal, i: nat): Ideal {
    if !GoesIn(s, i) then s
    else Collect(Ideal(s.handed, Insert(s.waiting, Held(Place(|s.handed|, i), i))))
  }

  ghost predicate Ordered(waiting: seq<Held>) {
    forall j, k :: 0 <= j < k < |waiting| ==> waiting[j].place < waiting[k].place
  }

  /** Waiting in order, from place n on and less than 65536 places ahead. */
  ghost predicate InReach(n: nat, waiting: seq<Held>) {
    && Ordered(waiting)
    && (forall h :: h in waiting ==> n <= h.place < n + SEQ_MODULUS)
    && (forall h :: h in waiting ==> h.source % SEQ_MODULUS == h.place % SEQ_MODULUS)
  }

  ghost predicate Steady(s: Ideal) {
    InReach(|s.handed|, s.waiting) && !Filled(s.waiting, |s.handed|)
  }

  /** The envelope a held message came in. */
  ghost function Kept(sent: seq<Message>, h: Held): Envelope
    requires h.source < |sent|
  {
    Envelope(h.place % SEQ_MODULUS, Wire(sent, h.source))
  }

  ghost predicate Holds(sent: seq<Message>, waiting: seq<Held>, ring: seq<Envelope>) {
    && |ring| == |waiting|
    && (forall h :: h in waiting ==> h.source < |sent|)
    && (forall j :: 0 <= j < |ring| ==> ring[j] == Kept(sent, waiting[j]))
  }

  ghost predicate StandsFor(r: Receiver, sent: seq<Message>, s: Ideal) {
    && r.next == |s.handed| % SEQ_MODULUS
    && Steady(s)
    && Holds(sent, s.waiting, r.ring)
    && Numbered(sent, s.handed)
  }

  /** What was handed on, given which messages went where. */
  function Deliveries(sent: seq<Message>, handed: seq<nat>): (ds: seq<Delivery>)
    requires Numbered(sent, handed)
    ensures |ds| == |handed|
  {
    seq(|handed|, k requires 0 <= k < |handed| => Delivery(sent[handed[k]], k % SEQ_MODULUS))
  }

  // ----- order kept -----

  lemma InReachTail(n: nat, waiting: seq<Held>, n': nat)
    requires InReach(n, waiting) && waiting != [] && n <= n' <= waiting[0].place + 1
    ensures InReach(n', waiting[1..])
    ensures forall h :: h in waiting ==> h == waiting[0] || h in waiting[1..]
    ensures forall h :: h in waiting[1..] ==> h in waiting && waiting[0].place < h.place
  {
    assert waiting == [waiting[0]] + waiting[1..];
    forall h | h in waiting[1..]
      ensures h in waiting && waiting[0].place < h.place
    {
      var j :| 0 <= j < |waiting| - 1 && waiting[1..][j] == h;
      assert waiting[j + 1] == h;
    }
  }

  lemma InReachCons(n: nat, h: Held, waiting: seq<Held>)
    requires InReach(n, waiting) && (forall g :: g in waiting ==> h.place < g.place)
    requires n <= h.place < n + SEQ_MODULUS && h.source % SEQ_MODULUS == h.place % SEQ_MODULUS
    ensures InReach(n, [h] + waiting)
  {
    var t := [h] + waiting;
    forall j, k | 0 <= j < k < |t|
      ensures t[j].place < t[k].place
    {
      assert waiting[k - 1] in waiting;
    }
  }

  lemma FilledIff(waiting: seq<Held>, j: nat)
    ensures Filled(waiting, j) <==> exists h :: h in waiting && h.place == j
  {
    if h :| h in waiting && h.place == j {
      var k :| 0 <= k < |waiting| && waiting[k] == h;
    }
    if k :| 0 <= k < |waiting| && waiting[k].place == j {
      assert waiting[k] in waiting;
    }
  }

  lemma {:induction false} InsertKeeps(n: nat, waiting: seq<Held>, h: Held)
    requires InReach(n, waiting) && !Filled(waiting, h.place)
    requires n <= h.place < n + SEQ_MODULUS && h.source % SEQ_MODULUS == h.place % SEQ_MODULUS
    ensures InReach(n, Insert(waiting, h))
    ensures forall g :: g in Insert(waiting, h) <==> g == h || g in waiting
    decreases |waiting|
  {
    hide InReach, Filled;
    if waiting == [] {
      InReachCons(n, h, waiting);
    } else {
      HeadInReach(n, waiting);
      InReachTail(n, waiting, n);
      FilledIff(waiting, h.place);
      FilledIff(waiting[1..], h.place);
      assert waiting[0] in waiting;
      if h.place < waiting[0].place {
        InReachCons(n, h, waiting);
      } else {
        InsertKeeps(n, waiting[1..], h);
        InReachCons(n, waiting[0], Insert(waiting[1..], h));
      }
    }
  }

  lemma HeadInReach(n: nat, waiting: seq<Held>)
    requires InReach(n, waiting) && waiting != []
    ensures n <= waiting[0].place < n + SEQ_MODULUS
    ensures waiting[0].source % SEQ_MODULUS == waiting[0].place % SEQ_MODULUS
  {
    assert waiting[0] in waiting;
  }

  /** The ring stays in the order sent, also across the wrap. */
  lemma {:induction false} EmplacedHolds(sent: seq<Message>, n: nat, waiting: seq<Held>, ring: seq<Envelope>, h: Held)
    requires InReach(n, waiting) && Holds(sent, waiting, ring) && !Filled(waiting, h.place)
    requires n <= h.place < n + SEQ_MODULUS && h.source < |sent|
    ensures Holds(sent, Insert(waiting, h), Emplaced(ring, Kept(sent, h), n % SEQ_MODULUS))
    decreases |waiting|
  {
    hide Wire, Distance, InReach, Filled;
    if waiting != [] {
      var g := waiting[0];
      assert g in waiting;
      HeadInReach(n, waiting);
      FilledIff(waiting, h.place);
      FilledIff(waiting[1..], h.place);
      SameNumber(h.place, g.place, n);
      DistanceIs(h.place, n);
      DistanceIs(g.place, n);
      if h.place > g.place {
        InReachTail(n, waiting, n);
        EmplacedHolds(sent, n, waiting[1..], ring[1..], h);
      }
    }
  }

  // ----- collecting -----

  lemma {:induction false} CollectMeaning(s: Ideal)
    requires InReach(|s.handed|, s.waiting)
    ensures s.handed <= Collect(s).handed && Steady(Collect(s))
    ensures forall h :: h in Collect(s).waiting ==> h in s.waiting
    ensures forall h :: h in s.waiting ==> h in Collect(s).waiting || At(Collect(s), h)
    ensures forall k :: |s.handed| <= k < |Collect(s).handed| ==> Held(k, Collect(s).handed[k]) in s.waiting
    decreases |s.waiting|
  {
    hide InReach, Filled;
    if s.waiting == [] {
      FilledIff(s.waiting, |s.handed|);
    } else {
      HeadInReach(|s.handed|, s.waiting);
      var g := s.waiting[0];
      if g.place == |s.handed| {
        InReachTail(|s.handed|, s.waiting, |s.handed| + 1);
        var s1 := Ideal(s.handed + [g.source], s.waiting[1..]);
        CollectMeaning(s1);
        assert s1.handed <= Collect(s).handed;
        assert Collect(s).handed[|s.handed|] == s1.handed[|s.handed|] == g.source;
        assert g == Held(|s.handed|, g.source) && g in s.waiting;
      } else {
        InReachTail(|s.handed|, s.waiting, |s.handed|);
        FilledIff(s.waiting, |s.handed|);
      }
    }
  }

  /** A held message has been handed on, in the place it was held for. */
  predicate At(s: Ideal, h: Held) {
    h.place < |s.handed| && s.handed[h.place] == h.source
  }

  lemma DeliveriesSplit(sent: seq<Message>, handed: seq<nat>, i: nat)
    requires Numbered(sent, handed) && i < |sent|
    ensures Deliveries(sent, handed + [i]) == Deliveries(sent, handed) + [Delivery(sent[i], |handed| % SEQ_MODULUS)]
  {
  }

  lemma HoldsParts(sent: seq<Message>, waiting: seq<Held>, ring: seq<Envelope>)
    requires Holds(sent, waiting, ring)
    ensures |ring| == |waiting|
    ensures waiting != [] ==> waiting[0].source < |sent| && ring[0] == Kept(sent, waiting[0])
    ensures waiting != [] ==> Holds(sent, waiting[1..], ring[1..])
  {
    hide Wire;
    if waiting != [] {
      assert waiting[0] in waiting;
    }
  }

  /** The contiguous messages are handed on, in the places they were held for. */
  lemma {:induction false} CollectedHands(sent: seq<Message>, s: Ideal, ring: seq<Envelope>)
    requires Sendable(sent) && InReach(|s.handed|, s.waiting) && Holds(sent, s.waiting, ring)
    requires Numbered(sent, s.handed)
    ensures var (r, ds) := Collected(ring, |s.handed| % SEQ_MODULUS);
            && StandsFor(r, sent, Collect(s))
            && Deliveries(sent, Collect(s).handed) == Deliveries(sent, s.handed) + ds
    decreases |s.waiting|
  {
    hide UnpackEnvelope, PackEnvelope, Next, InReach, Deliveries, Filled, Holds;
    var n := |s.handed|;
    HoldsParts(sent, s.waiting, ring);
    if s.waiting == [] {
      FilledIff(s.waiting, n);
    } else {
      var g := s.waiting[0];
      assert g in s.waiting;
      HeadInReach(n, s.waiting);
      SameNumber(g.place, n, n);
      if g.place == n {
        InReachTail(n, s.waiting, n + 1);
        NextIs(n);
        CollectedHands(sent, Ideal(s.handed + [g.source], s.waiting[1..]), ring[1..]);
        EnvelopeRoundTrip(sent[g.source], g.source % SEQ_MODULUS);
        DeliveriesSplit(sent, s.handed, g.source);
      } else {
        InReachTail(n, s.waiting, n);
        FilledIff(s.waiting, n);
      }
    }
  }

  // ----- one arrival -----

  lemma InRing(sent: seq<Message>, n: nat, waiting: seq<Held>, ring: seq<Envelope>, j: nat)
    requires InReach(n, waiting) && Holds(sent, waiting, ring) && n <= j < n + SEQ_MODULUS
    ensures (exists k :: 0 <= k < |ring| && ring[k].sequence == j % SEQ_MODULUS) <==> Filled(waiting, j)
  {
    hide Wire;
    if k :| 0 <= k < |ring| && ring[k].sequence == j % SEQ_MODULUS {
      assert waiting[k] in waiting;
      SameNumber(waiting[k].place, j, n);
    }
    if k :| 0 <= k < |waiting| && waiting[k].place == j {
      assert ring[k].sequence == j % SEQ_MODULUS;
    }
  }

  /** One arrival of any message at all does to the receiver what it does to the ideal one. */
  lemma ArrivalStep(r: Receiver, sent: seq<Message>, s: Ideal, i: nat)
    requires Sendable(sent) && StandsFor(r, sent, s) && i < |sent|
    ensures var (r', ds) := Received(r, Wire(sent, i));
            && StandsFor(r', sent, IdealStep(s, i))
            && Deliveries(sent, IdealStep(s, i).handed) == Deliveries(sent, s.handed) + ds
    ensures !GoesIn(s, i) ==> Received(r, Wire(sent, i)) == (r, [])
  {
    hide UnpackEnvelope, PackEnvelope, IsBehind, LetIn, Collected, Emplaced, Distance, Collect, Insert, Place, InReach,
      Filled, Deliveries;
    var n, number, j := |s.handed|, i % SEQ_MODULUS, Place(|s.handed|, i);
    EnvelopeRoundTrip(sent[i], number);
    BehindIff(r.next, number);
    PlaceNumber(n, i);
    InRing(sent, n, s.waiting, r.ring, j);
    if GoesIn(s, i) {
      var h := Held(j, i);
      InsertKeeps(n, s.waiting, h);
      EmplacedHolds(sent, n, s.waiting, r.ring, h);
      CollectedHands(sent, Ideal(s.handed, Insert(s.waiting, h)), Emplaced(r.ring, Kept(sent, h), r.next));
    }
  }

  lemma StepMeaning(s: Ideal, i: nat)
    requires Steady(s)
    ensures var s', h := IdealStep(s, i), Held(Place(|s.handed|, i), i);
            && Steady(s') && s.handed <= s'.handed
            && (forall g :: g in s'.waiting ==> g in s.waiting || (GoesIn(s, i) && g == h))
            && (forall g :: g in s.waiting ==> g in s'.waiting || At(s', g))
            && (GoesIn(s, i) ==> h in s'.waiting || At(s', h))
            && (forall k :: |s.handed| <= k < |s'.handed| ==>
                  Held(k, s'.handed[k]) in s.waiting || (GoesIn(s, i) && Held(k, s'.handed[k]) == h))
  {
    hide LetIn, Collect, Insert, Place, InReach, Filled;
    if GoesIn(s, i) {
      var h := Held(Place(|s.handed|, i), i);
      PlaceNumber(|s.handed|, i);
      InsertKeeps(|s.handed|, s.waiting, h);
      CollectMeaning(Ideal(s.handed, Insert(s.waiting, h)));
      assert h in Insert(s.waiting, h);
    }
  }

  /** Any arrival, in any state, leaves the receiver as it is exactly when the number of its
      place is not let in or its place is taken. */
  lemma ArrivalIgnoredIff(r: Receiver, sent: seq<Message>, s: Ideal, i: nat)
    requires Sendable(sent) && StandsFor(r, sent, s) && i < |sent|
    ensures var n, j := |s.handed|, Place(|s.handed|, i);
            Received(r, Wire(sent, i)) == (r, []) <==> !LetIn(n % SEQ_MODULUS, j - n) || Filled(s.waiting, j)
  {
    hide Received, Deliveries, Place, LetIn, Steady, Holds;
    ArrivalStep(r, sent, s, i);
    if GoesIn(s, i) {
      IgnoredMeans(r, sent, s, i);
    }
  }

  lemma IgnoredMeans(r: Receiver, sent: seq<Message>, s: Ideal, i: nat)
    requires Sendable(sent) && StandsFor(r, sent, s) && i < |sent| && GoesIn(s, i)
    ensures Received(r, Wire(sent, i)) != (r, [])
  {
    hide Received, Deliveries, Place, LetIn, InReach, IdealStep, Filled;
    var s', h := IdealStep(s, i), Held(Place(|s.handed|, i), i);
    ArrivalStep(r, sent, s, i);
    StepMeaning(s, i);
    if Received(r, Wire(sent, i)) == (r, []) {
      assert |Deliveries(sent, s'.handed)| == |Deliveries(sent, s.handed)|;
      assert |s'.handed| == |s.handed|;
      assert h in s'.waiting;
      HeldInRing(sent, s'.waiting, r.ring, h);
      PlaceNumber(|s.handed|, i);
      InRing(sent, |s.handed|, s.waiting, r.ring, h.place);
    }
  }

  lemma HeldInRing(sent: seq<Message>, waiting: seq<Held>, ring: seq<Envelope>, h: Held)
    requires Holds(sent, waiting, ring) && h in waiting
    ensures exists k :: 0 <= k < |ring| && ring[k].sequence == h.place % SEQ_MODULUS
  {
    var k :| 0 <= k < |waiting| && waiting[k] == h;
    assert ring[k].sequence == h.place % SEQ_MODULUS;
  }

  /** A message a places back is turned away exactly when its number is not the one expected,
      did not wrap since, and is not so far back that it is in the window again. */
  predicate TurnedAway(next: u16, a: nat) {
    var b := a % SEQ_MODULUS;
    0 < b <= next && (next < SEQ_MODULUS - WINDOW_MAX_FAST || b < SEQ_MODULUS - WINDOW_MAX_FAST)
  }

  lemma StalePlace(n: nat, i: nat)
    requires i < n
    ensures var b := (n - i) % SEQ_MODULUS;
            Place(n, i) == if b == 0 then n else n + SEQ_MODULUS - b
  {
    var a := n - i;
    var q, b := a / SEQ_MODULUS, a % SEQ_MODULUS;
    if b == 0 {
      DivModUnique(i - n, SEQ_MODULUS, -q, 0);
    } else {
      DivModUnique(i - n, SEQ_MODULUS, -q - 1, SEQ_MODULUS - b);
    }
  }

  /** A late copy of any message already handed on, however late, leaves the receiver as it
      is exactly when it is turned away or its place is taken. */
  lemma StaleHarmlessIff(r: Receiver, sent: seq<Message>, s: Ideal, i: nat)
    requires Sendable(sent) && StandsFor(r, sent, s) && i < |s.handed| && i < |sent|
    ensures var n := |s.handed|;
            Received(r, Wire(sent, i)) == (r, []) <==>
              TurnedAway(n % SEQ_MODULUS, n - i) || Filled(s.waiting, Place(n, i))
  {
    hide Received, StandsFor, Filled;
    var n := |s.handed|;
    ArrivalIgnoredIff(r, sent, s, i);
    StalePlace(n, i);
  }

  /** A copy a multiple of 65536 places back is handed on at once in place of the message
      expected. */
  lemma ExpectedNumberHandedOn(r: Receiver, sent: seq<Message>, s: Ideal, i: nat)
    requires Sendable(sent) && StandsFor(r, sent, s) && i < |sent| && i % SEQ_MODULUS == |s.handed| % SEQ_MODULUS
    ensures var ds := Received(r, Wire(sent, i)).1;
            ds != [] && ds[0] == Delivery(sent[i], |s.handed| % SEQ_MODULUS)
  {
    hide Received, Deliveries, InReach, Filled, Collect, Insert, Place, Distance;
    var n := |s.handed|;
    PlaceNumber(n, i);
    SameNumber(Place(n, i), n, n);
    WindowLetIn(n % SEQ_MODULUS, 0);
    ArrivalStep(r, sent, s, i);
    StepMeaning(s, i);
    var s' := IdealStep(s, i);
    HandedNext(s, i);
    DeliveryAt(sent, s'.handed, n);
  }

  lemma HandedNext(s: Ideal, i: nat)
    requires Steady(s) && Place(|s.handed|, i) == |s.handed| && GoesIn(s, i)
    ensures |IdealStep(s, i).handed| > |s.handed| && IdealStep(s, i).handed[|s.handed|] == i
  {
    hide GoesIn, InReach, Place;
    var s' := IdealStep(s, i);
    StepMeaning(s, i);
    FilledIff(s'.waiting, |s.handed|);
  }

  lemma DeliveryAt(sent: seq<Message>, handed: seq<nat>, k: nat)
    requires Numbered(sent, handed) && k < |handed|
    ensures Deliveries(sent, handed)[k] == Delivery(sent[handed[k]], k % SEQ_MODULUS)
  {
  }

  // ----- runs -----

  /** A receiver after the messages with these numbers arrived, and all it handed on since. */
  function RunFrom(r: Receiver, sent: seq<Message>, arrivals: seq<nat>): (Receiver, seq<Delivery>)
    requires Numbered(sent, arrivals)
  {
    if arrivals == [] then (r, [])
    else
      var (r1, ds) := RunFrom(r, sent, arrivals[..|arrivals| - 1]);
      var (r2, more) := Received(r1, Wire(sent, arrivals[|arrivals| - 1]));
      (r2, ds + more)
  }

  function IdealFrom(s: Ideal, arrivals: seq<nat>): Ideal {
    if arrivals == [] then s
    else IdealStep(IdealFrom(s, arrivals[..|arrivals| - 1]), arrivals[|arrivals| - 1])
  }

  const START: Receiver := Receiver([], 0)

  const IDEAL_START: Ideal := Ideal([], [])

  lemma NumberedBefore(sent: seq<Message>, arrivals: seq<nat>, n: nat)
    requires Numbered(sent, arrivals) && n <= |arrivals|
    ensures Numbered(sent, arrivals[..n])
  {
  }

  /** Every run whatever, from any state: the receiver is the ideal one with its numbers cut
      to sixteen bits, and hands on what that one does. */
  lemma {:induction false} RunIsIdeal(r: Receiver, sent: seq<Message>, s: Ideal, arrivals: seq<nat>)
    requires Sendable(sent) && StandsFor(r, sent, s) && Numbered(sent, arrivals)
    ensures var (r', ds) := RunFrom(r, sent, arrivals);
            var s' := IdealFrom(s, arrivals);
            StandsFor(r', sent, s') && Deliveries(sent, s'.handed) == Deliveries(sent, s.handed) + ds
  {
    hide Received, IdealStep, Steady, Holds, Wire, Deliveries;
    if arrivals != [] {
      var before, last := arrivals[..|arrivals| - 1], arrivals[|arrivals| - 1];
      NumberedBefore(sent, arrivals, |before|);
      RunIsIdeal(r, sent, s, before);
      ArrivalStep(RunFrom(r, sent, before).0, sent, IdealFrom(s, before), last);
    }
  }

  lemma StartStands(sent: seq<Message>)
    ensures StandsFor(START, sent, IDEAL_START) && Deliveries(sent, []) == []
  {
  }

  /** So in every run what is handed on in place k is a message that arrived and has the
      number of message k. */
  lemma {:induction false} EveryRun(sent: seq<Message>, arrivals: seq<nat>)
    requires Sendable(sent) && Numbered(sent, arrivals)
    ensures var s := IdealFrom(IDEAL_START, arrivals);
            && StandsFor(RunFrom(START, sent, arrivals).0, sent, s)
            && RunFrom(START, sent, arrivals).1 == Deliveries(sent, s.handed)
            && (forall k :: 0 <= k < |s.handed| ==>
                  s.handed[k] in arrivals && s.handed[k] % SEQ_MODULUS == k % SEQ_MODULUS)
  {
    hide RunFrom, IdealFrom, Deliveries, StandsFor;
    StartStands(sent);
    RunIsIdeal(START, sent, IDEAL_START, arrivals);
    SourcesArrived(arrivals);
    var ds := RunFrom(START, sent, arrivals).1;
    assert [] + ds == ds;
  }

  /** Everything handed on or waiting arrived, and has the number of its place. */
  ghost predicate Sourced(s: Ideal, arrivals: seq<nat>) {
    && Steady(s)
    && (forall k :: 0 <= k < |s.handed| ==> s.handed[k] in arrivals && s.handed[k] % SEQ_MODULUS == k % SEQ_MODULUS)
    && (forall h :: h in s.waiting ==> h.source in arrivals)
  }

  lemma {:induction false} SourcesArrived(arrivals: seq<nat>)
    ensures Sourced(IdealFrom(IDEAL_START, arrivals), arrivals)
  {
    hide IdealStep, Sourced;
    if arrivals == [] {
      SourcedStart();
    } else {
      var before, last := arrivals[..|arrivals| - 1], arrivals[|arrivals| - 1];
      SourcesArrived(before);
      SourcedStep(IdealFrom(IDEAL_START, before), before, last);
      assert before + [last] == arrivals;
    }
  }

  lemma SourcedStart()
    ensures Sourced(IDEAL_START, [])
  {
  }

  lemma SourcedStep(s: Ideal, arrivals: seq<nat>, i: nat)
    requires Sourced(s, arrivals)
    ensures Sourced(IdealStep(s, i), arrivals + [i])
  {
    hide IdealStep, GoesIn, Filled, Ordered, Place;
    var s' := IdealStep(s, i);
    StepMeaning(s, i);
    PlaceNumber(|s.handed|, i);
    forall k | 0 <= k < |s'.handed|
      ensures s'.handed[k] in arrivals + [i] && s'.handed[k] % SEQ_MODULUS == k % SEQ_MODULUS
    {
      if k < |s.handed| {
        assert s'.handed[k] == s.handed[k];
      }
    }
  }

  // ----- in order and once -----

  /** An arrival is mistaken when it goes in where another message belongs: it was handed on
      already, or is 65536 or more ahead. */
  predicate Mistaken(s: Ideal, i: nat) {
    GoesIn(s, i) && !(|s.handed| <= i < |s.handed| + SEQ_MODULUS)
  }

  ghost predicate NoneMistaken(arrivals: seq<nat>) {
    forall t :: 0 <= t < |arrivals| ==> !Mistaken(IdealFrom(IDEAL_START, arrivals[..t]), arrivals[t])
  }

  /** Every message handed on or waiting is in its own place. */
  ghost predicate Faithful(s: Ideal) {
    && (forall k :: 0 <= k < |s.handed| ==> s.handed[k] == k)
    && (forall h :: h in s.waiting ==> h.source == h.place)
  }

  lemma FaithfulStep(s: Ideal, i: nat)
    requires Steady(s)
    ensures Faithful(IdealStep(s, i)) <==> Faithful(s) && !Mistaken(s, i)
  {
    hide IdealStep, InReach, Filled, Place, GoesIn;
    var s', h := IdealStep(s, i), Held(Place(|s.handed|, i), i);
    StepMeaning(s, i);
    PlaceOwn(|s.handed|, i);
    if Faithful(s') {
      assert forall k :: 0 <= k < |s.handed| ==> s.handed[k] == s'.handed[k];
    }
    if Faithful(s) && !Mistaken(s, i) {
      forall k | 0 <= k < |s'.handed|
        ensures s'.handed[k] == k
      {
        if k < |s.handed| {
          assert s'.handed[k] == s.handed[k];
        }
      }
    }
  }

  lemma NoneMistakenStep(arrivals: seq<nat>, n: nat)
    requires |arrivals| == n + 1
    ensures NoneMistaken(arrivals) <==>
              NoneMistaken(arrivals[..n]) && !Mistaken(IdealFrom(IDEAL_START, arrivals[..n]), arrivals[n])
  {
    hide IdealFrom, Mistaken;
    var before := arrivals[..n];
    assert forall t :: 0 <= t < n ==> before[..t] == arrivals[..t] && before[t] == arrivals[t];
    if NoneMistaken(before) && !Mistaken(IdealFrom(IDEAL_START, before), arrivals[n]) {
      forall t | 0 <= t <= n
        ensures !Mistaken(IdealFrom(IDEAL_START, arrivals[..t]), arrivals[t])
      {
        if t < n {
          assert before[..t] == arrivals[..t] && before[t] == arrivals[t];
        }
      }
    }
    if NoneMistaken(arrivals) {
      forall t | 0 <= t < n
        ensures !Mistaken(IdealFrom(IDEAL_START, before[..t]), before[t])
      {
        assert before[..t] == arrivals[..t] && before[t] == arrivals[t];
      }
    }
  }

  /** In every run, what was handed on and what is held is the right messages in the right
      places exactly when no arrival was mistaken. */
  lemma {:induction false} FaithfulIff(arrivals: seq<nat>)
    ensures Faithful(IdealFrom(IDEAL_START, arrivals)) <==> NoneMistaken(arrivals)
  {
    hide IdealStep, Mistaken, Faithful, Sourced, NoneMistaken;
    if arrivals == [] {
      FaithfulStart();
    } else {
      var before, last := arrivals[..|arrivals| - 1], arrivals[|arrivals| - 1];
      FaithfulIff(before);
      SourcesArrived(before);
      SteadyOf(IdealFrom(IDEAL_START, before), before);
      FaithfulStep(IdealFrom(IDEAL_START, before), last);
      NoneMistakenStep(arrivals, |before|);
    }
  }

  lemma SteadyOf(s: Ideal, arrivals: seq<nat>)
    requires Sourced(s, arrivals)
    ensures Steady(s)
  {
  }

  lemma FaithfulStart()
    ensures Faithful(IDEAL_START) && NoneMistaken([])
  {
  }

  function Upto(n: nat): seq<nat> {
    seq(n, i => i)
  }

  lemma UptoWithin(sent: seq<Message>, n: nat)
    requires Numbered(sent, Upto(n))
    ensures n <= |sent|
  {
    if n > 0 {
      assert Upto(n)[n - 1] == n - 1;
    }
  }

  /** Safety: whatever is lost, repeated or reordered, as long as no arrival is mistaken what
      was handed on is the messages sent, from the first, in order, each once. */
  lemma InOrderOnce(sent: seq<Message>, arrivals: seq<nat>)
    requires Sendable(sent) && Numbered(sent, arrivals) && NoneMistaken(arrivals)
    ensures exists n: nat :: n <= |sent| && RunFrom(START, sent, arrivals).1 == Deliveries(sent, Upto(n))
  {
    hide RunFrom, IdealFrom, Deliveries, Steady, Holds, NoneMistaken;
    EveryRun(sent, arrivals);
    FaithfulIff(arrivals);
    var handed := IdealFrom(IDEAL_START, arrivals).handed;
    assert handed == Upto(|handed|);
    UptoWithin(sent, |handed|);
  }

  // ----- within the window -----

  predicate Covered(s: Ideal, k: nat) {
    k < |s.handed| || Filled(s.waiting, k)
  }

  ghost predicate InWindow(arrivals: seq<nat>) {
    forall t :: 0 <= t < |arrivals| ==>
                  arrivals[t] <= |IdealFrom(IDEAL_START, arrivals[..t]).handed| + WINDOW_MAX_FAST
  }

  lemma CoveredStep(s: Ideal, i: nat, k: nat)
    requires Steady(s)
    ensures Covered(s, k) ==> Covered(IdealStep(s, i), k)
    ensures |s.handed| <= i <= |s.handed| + WINDOW_MAX_FAST ==> Covered(IdealStep(s, i), i)
  {
    hide IdealStep, InReach, Filled, LetIn, Place;
    var s' := IdealStep(s, i);
    StepMeaning(s, i);
    FilledIff(s.waiting, k);
    FilledIff(s'.waiting, k);
    if |s.handed| <= i <= |s.handed| + WINDOW_MAX_FAST {
      PlaceOwn(|s.handed|, i);
      WindowLetIn(|s.handed| % SEQ_MODULUS, i - |s.handed|);
      FilledIff(s.waiting, i);
      FilledIff(s'.waiting, i);
    }
  }

  lemma InWindowStep(arrivals: seq<nat>, n: nat)
    requires |arrivals| == n + 1
    ensures InWindow(arrivals) <==>
              InWindow(arrivals[..n]) && arrivals[n] <= |IdealFrom(IDEAL_START, arrivals[..n]).handed| + WINDOW_MAX_FAST
  {
    hide IdealFrom;
    var before := arrivals[..n];
    if InWindow(before) && arrivals[n] <= |IdealFrom(IDEAL_START, before).handed| + WINDOW_MAX_FAST {
      forall t | 0 <= t <= n
        ensures arrivals[t] <= |IdealFrom(IDEAL_START, arrivals[..t]).handed| + WINDOW_MAX_FAST
      {
        if t < n {
          assert before[..t] == arrivals[..t] && before[t] == arrivals[t];
        }
      }
    }
    if InWindow(arrivals) {
      forall t | 0 <= t < n
        ensures before[t] <= |IdealFrom(IDEAL_START, before[..t]).handed| + WINDOW_MAX_FAST
      {
        assert before[..t] == arrivals[..t] && before[t] == arrivals[t];
      }
    }
  }

  /** In a run within the window every message that arrived was handed on or has its place
      taken: nothing the sender may forget is lost. */
  lemma {:induction false} NothingForgotten(arrivals: seq<nat>, k: nat)
    requires InWindow(arrivals) && k in arrivals
    ensures Covered(IdealFrom(IDEAL_START, arrivals), k)
  {
    hide IdealStep, InWindow, Sourced, Covered;
    var before, last := arrivals[..|arrivals| - 1], arrivals[|arrivals| - 1];
    var s := IdealFrom(IDEAL_START, before);
    InWindowStep(arrivals, |before|);
    SourcesArrived(before);
    SteadyOf(s, before);
    CoveredStep(s, last, k);
    if k in before {
      NothingForgotten(before, k);
    } else {
      assert arrivals == before + [last];
      assert k == last;
      HandedCovered(s, k);
    }
  }

  lemma HandedCovered(s: Ideal, k: nat)
    ensures k < |s.handed| ==> Covered(s, k)
  {
  }

  /** What was handed on is the messages up to n, and n is the first that did not arrive. */
  ghost predicate HandsOnUpto(sent: seq<Message>, arrivals: seq<nat>, n: nat)
    requires Numbered(sent, arrivals)
  {
    && n <= |sent|
    && n !in arrivals
    && (forall k: nat :: k < n ==> k in arrivals)
    && RunFrom(START, sent, arrivals).1 == Deliveries(sent, Upto(n))
  }

  lemma FirstMissing(s: Ideal, arrivals: seq<nat>)
    requires Sourced(s, arrivals) && Faithful(s)
    requires forall k :: k in arrivals ==> Covered(s, k)
    ensures s.handed == Upto(|s.handed|) && |s.handed| !in arrivals
    ensures forall k: nat :: k < |s.handed| ==> k in arrivals
  {
    hide InReach, Filled;
    var n := |s.handed|;
    assert Covered(s, n) <==> Filled(s.waiting, n);
    forall k: nat | k < n
      ensures k in arrivals
    {
      assert s.handed[k] == k;
    }
  }

  /** Reliable delivery: in a run within the window without mistakes, what was handed on is
      the messages sent up to the first that did not arrive, in order and each once. */
  lemma ReliableDelivery(sent: seq<Message>, arrivals: seq<nat>)
    requires Sendable(sent) && Numbered(sent, arrivals) && InWindow(arrivals) && NoneMistaken(arrivals)
    ensures HandsOnUpto(sent, arrivals, |IdealFrom(IDEAL_START, arrivals).handed|)
  {
    hide RunFrom, IdealFrom, Deliveries, Holds, Steady, NoneMistaken, InWindow, Covered, Faithful, Sourced, Upto;
    var s := IdealFrom(IDEAL_START, arrivals);
    EveryRun(sent, arrivals);
    FaithfulIff(arrivals);
    SourcesArrived(arrivals);
    forall k | k in arrivals
      ensures Covered(s, k)
    {
      NothingForgotten(arrivals, k);
    }
    FirstMissing(s, arrivals);
    UptoWithin(sent, |s.handed|);
  }

  // ----- what becomes of a mistake -----

  lemma {:induction false} SteadyFrom(s: Ideal, arrivals: seq<nat>)
    requires Steady(s)
    ensures Steady(IdealFrom(s, arrivals)) && s.handed <= IdealFrom(s, arrivals).handed
  {
    hide IdealStep, Steady;
    if arrivals != [] {
      var before := arrivals[..|arrivals| - 1];
      SteadyFrom(s, before);
      StepMeaning(IdealFrom(s, before), arrivals[|arrivals| - 1]);
    }
  }

  /** What is held waits until its place comes up, and is then handed on in it, whatever else
      arrives. */
  lemma {:induction false} HeldUntilHandedOn(s: Ideal, arrivals: seq<nat>, h: Held)
    requires Steady(s) && (h in s.waiting || At(s, h))
    ensures var s' := IdealFrom(s, arrivals);
            h in s'.waiting || At(s', h)
  {
    hide IdealStep, Steady;
    if arrivals != [] {
      var before := arrivals[..|arrivals| - 1];
      SteadyFrom(s, before);
      HeldUntilHandedOn(s, before, h);
      StepMeaning(IdealFrom(s, before), arrivals[|arrivals| - 1]);
    }
  }

  /** The messages from n up to j, in order. */
  function Range(n: nat, j: nat): seq<nat>
    requires n <= j
  {
    seq(j - n, i => n + i)
  }

  lemma OwnGoesIn(s: Ideal)
    requires Steady(s)
    ensures GoesIn(s, |s.handed|) && Place(|s.handed|, |s.handed|) == |s.handed|
  {
    PlaceOwn(|s.handed|, |s.handed|);
    WindowLetIn(|s.handed| % SEQ_MODULUS, 0);
  }

  /** In every state, an arrival i that goes in at place j is handed on in place of message j
      once the messages before j arrive; for a mistaken one that is the wrong message. */
  lemma GoesInIsHandedOn(r: Receiver, sent: seq<Message>, s: Ideal, i: nat)
    requires Sendable(sent) && StandsFor(r, sent, s) && i < |sent| && GoesIn(s, i)
    requires Place(|s.handed|, i) <= |sent|
    ensures var n, j := |s.handed|, Place(|s.handed|, i);
            Numbered(sent, [i] + Range(n, j))
            && var ds := RunFrom(r, sent, [i] + Range(n, j)).1;
               |ds| > j - n && ds[j - n] == Delivery(sent[i], j % SEQ_MODULUS)
  {
    hide RunFrom, IdealStep, Deliveries, Holds, InReach, GoesIn, Filled, IdealFrom, Place;
    var n, j := |s.handed|, Place(|s.handed|, i);
    var arrivals := [i] + Range(n, j);
    RunIsIdeal(r, sent, s, arrivals);
    IdealSplit(s, i, Range(n, j));
    var s1, s' := IdealStep(s, i), IdealFrom(s, arrivals);
    StepMeaning(s, i);
    HeldUntilHandedOn(s1, Range(n, j), Held(j, i));
    ReachesAnyway(s, i, j);
    SteadyFrom(s1, Range(n, j));
    if Held(j, i) in s'.waiting {
      PassedPlace(s', Held(j, i));
    }
    DeliveryAt(sent, s'.handed, j);
    var ds := RunFrom(r, sent, arrivals).1;
    assert (Deliveries(sent, s.handed) + ds)[j] == ds[j - n];
  }

  lemma PassedPlace(s: Ideal, h: Held)
    requires Steady(s) && h in s.waiting
    ensures h.place > |s.handed|
  {
    FilledIff(s.waiting, h.place);
  }

  lemma {:induction false} IdealSplit(s: Ideal, i: nat, more: seq<nat>)
    ensures IdealFrom(s, [i] + more) == IdealFrom(IdealStep(s, i), more)
  {
    hide IdealStep;
    if more == [] {
      assert [i] + more == [i] && [i][..0] == [];
      assert IdealFrom(s, []) == s;
    } else {
      var before := more[..|more| - 1];
      IdealSplit(s, i, before);
      assert ([i] + more)[..|more|] == [i] + before;
    }
  }

  /** The messages from n on reach place j also when an arrival came before them. */
  lemma ReachesAnyway(s: Ideal, i: nat, j: nat)
    requires Steady(s) && |s.handed| <= j
    ensures |IdealFrom(IdealStep(s, i), Range(|s.handed|, j)).handed| >= j
  {
    hide IdealStep, Steady, IdealFrom;
    StepMeaning(s, i);
    ReachesFrom(IdealStep(s, i), |s.handed|, j);
  }

  lemma {:induction false} ReachesFrom(s: Ideal, n: nat, j: nat)
    requires Steady(s) && n <= |s.handed| && n <= j
    ensures |IdealFrom(s, Range(n, j)).handed| >= j
    decreases j
  {
    hide IdealStep, Steady, GoesIn;
    if j > n {
      ReachesFrom(s, n, j - 1);
      assert Range(n, j)[..j - 1 - n] == Range(n, j - 1);
      var s1 := IdealFrom(s, Range(n, j - 1));
      SteadyFrom(s, Range(n, j - 1));
      StepMeaning(s1, j - 1);
      if |s1.handed| == j - 1 {
        OwnGoesIn(s1);
        HandedNext(s1, j - 1);
      }
    }
  }

  // ----- when the numbers wrap -----

  lemma {:induction false} UptoRun(n: nat)
    ensures IdealFrom(IDEAL_START, Upto(n)) == Ideal(Upto(n), [])
  {
    hide LetIn, Place;
    if n == 0 {
      assert Upto(0) == [];
    } else {
      UptoRun(n - 1);
      assert Upto(n)[..n - 1] == Upto(n - 1);
      PlaceOwn(n - 1, n - 1);
      WindowLetIn((n - 1) % SEQ_MODULUS, 0);
      var h, before := Held(n - 1, n - 1), Ideal(Upto(n - 1), []);
      assert GoesIn(before, n - 1) && Insert([], h) == [h] && [h][1..] == [];
      assert Collect(Ideal(Upto(n), [])) == Ideal(Upto(n), []);
      assert Upto(n - 1) + [n - 1] == Upto(n);
      assert Collect(Ideal(Upto(n - 1), [h])) == Ideal(Upto(n), []);
      assert IdealStep(before, n - 1) == Ideal(Upto(n), []);
    }
  }

  /** Such an arrival comes: after a run without any fault up to the wrap, a late copy of
      message 1 is mistaken for message 65537, and is handed on again behind message 65536. */
  lemma NotOnceAtTheWrap(sent: seq<Message>)
    requires Sendable(sent) && |sent| > 65537
    ensures Numbered(sent, Upto(SEQ_MODULUS) + [1] + [65536])
    ensures RunFrom(START, sent, Upto(SEQ_MODULUS) + [1] + [65536]).1 == Deliveries(sent, Upto(65537) + [1])
  {
    hide RunFrom, IdealFrom, Deliveries, StandsFor, IdealStep;
    var a := Upto(SEQ_MODULUS);
    UptoRun(SEQ_MODULUS);
    EveryRun(sent, a + [1] + [65536]);
    IdealAppend(IDEAL_START, a, 1);
    IdealAppend(IDEAL_START, a + [1], 65536);
    MistakenAtTheWrap(a);
    assert Upto(65537) + [1] == a + [65536, 1];
  }

  lemma IdealAppend(s: Ideal, arrivals: seq<nat>, i: nat)
    ensures IdealFrom(s, arrivals + [i]) == IdealStep(IdealFrom(s, arrivals), i)
  {
    hide IdealStep;
    assert (arrivals + [i])[..|arrivals|] == arrivals;
  }

  lemma MistakenAtTheWrap(handed: seq<nat>)
    requires |handed| == SEQ_MODULUS
    ensures IdealStep(IdealStep(Ideal(handed, []), 1), 65536) == Ideal(handed + [65536, 1], [])
  {
    var h1, h0 := Held(65537, 1), Held(65536, 65536);
    assert Insert([], h1) == [h1];
    assert IdealStep(Ideal(handed, []), 1) == Ideal(handed, [h1]);
    assert Insert([h1], h0) == [h0, h1];
    assert [h0, h1][1..] == [h1] && [h1][1..] == [];
    assert handed + [65536] + [1] == handed + [65536, 1];
    assert Collect(Ideal(handed + [65536] + [1], [])) == Ideal(handed + [65536] + [1], []);
    assert Collect(Ideal(handed + [65536], [h1])) == Ideal(handed + [65536] + [1], []);
  }

  // ----- as an object -----

  /** Emplacing from position i on, by what the loop finds there. */
  lemma EmplacedFrom(ring: seq<Envelope>, e: Envelope, next: u16, i: nat)
    requires i < |ring|
    ensures var rest := Emplaced(ring[i..], e, next);
            if e.sequence == ring[i].sequence then ring[..i] + rest == ring
            else if Distance(e.sequence, next) < Distance(ring[i].sequence, next) then rest == [e] + ring[i..]
            else ring[..i] + rest == ring[..i + 1] + Emplaced(ring[i + 1..], e, next)
  {
    hide Distance;
    assert ring[i..][0] == ring[i] && ring[i..][1..] == ring[i + 1..];
    assert ring[..i] + ring[i..] == ring;
    assert ring[..i] + ([ring[i]] + Emplaced(ring[i + 1..], e, next))
        == ring[..i + 1] + Emplaced(ring[i + 1..], e, next);
  }

  lemma EmplacedLast(ring: seq<Envelope>, e: Envelope, next: u16)
    ensures Emplaced(ring[|ring|..], e, next) == [e] && ring[..|ring|] == ring
  {
  }

  class ChannelReceiver {
    var rxRing: seq<Envelope>
    var nextRxSequence: u16

    ghost function View(): Receiver
      reads this
    {
      Receiver(rxRing, nextRxSequence)
    }

    constructor ()
      ensures View() == Receiver([], 0)
    {
      rxRing, nextRxSequence := [], 0;
    }

    method Receive(raw: seq<byte>) returns (actions: seq<Delivery>)
      modifies this
      ensures View() == Received(old(View()), raw).0 && actions == Received(old(View()), raw).1
    {
      hide UnpackEnvelope, Emplaced, Collected;
      var envelope := UnpackEnvelope(raw);
      if envelope.None? {
        return [];
      }
      var sequence := envelope.value.sequence;
      var behind := IsBehindRxWindow(sequence);
      if behind {
        return [];
      }
      if exists j :: 0 <= j < |rxRing| && rxRing[j].sequence == sequence {
        return [];
      }
      EmplaceRx(Envelope(sequence, raw));
      actions := CollectContiguous();
    }

    method IsBehindRxWindow(sequence: u16) returns (behind: bool)
      ensures behind == IsBehind(nextRxSequence, sequence)
    {
      if sequence < nextRxSequence {
        var overflow := (nextRxSequence + WINDOW_MAX_FAST) % SEQ_MODULUS;
        if overflow < nextRxSequence {
          if sequence > overflow {
            return true;
          }
          return false;
        }
        return true;
      }
      return false;
    }

    method EmplaceRx(envelope: Envelope)
      modifies this`rxRing
      ensures rxRing == Emplaced(old(rxRing), envelope, nextRxSequence)
    {
      hide Distance, Emplaced;
      var dist := Distance(envelope.sequence, nextRxSequence);
      var i := 0;
      assert rxRing[0..] == rxRing;
      while i < |rxRing|
        invariant i <= |rxRing| && rxRing == old(rxRing)
        invariant Emplaced(rxRing, envelope, nextRxSequence)
               == rxRing[..i] + Emplaced(rxRing[i..], envelope, nextRxSequence)
      {
        EmplacedFrom(rxRing, envelope, nextRxSequence, i);
        if envelope.sequence == rxRing[i].sequence {
          return;
        }
        if dist < Distance(rxRing[i].sequence, nextRxSequence) {
          rxRing := rxRing[..i] + ([envelope] + rxRing[i..]);
          return;
        }
        i := i + 1;
      }
      EmplacedLast(rxRing, envelope, nextRxSequence);
      rxRing := rxRing + [envelope];
    }

    method CollectContiguous() returns (actions: seq<Delivery>)
      modifies this
      ensures View() == Collected(old(rxRing), old(nextRxSequence)).0
      ensures actions == Collected(old(rxRing), old(nextRxSequence)).1
    {
      hide UnpackEnvelope, Next;
      actions := [];
      while |rxRing| > 0 && rxRing[0].sequence == nextRxSequence
        invariant Collected(old(rxRing), old(nextRxSequence)).0 == Collected(rxRing, nextRxSequence).0
        invariant Collected(old(rxRing), old(nextRxSequence)).1 == actions + Collected(rxRing, nextRxSequence).1
        decreases |rxRing|
      {
        var envelope := rxRing[0];
        rxRing := rxRing[1..];
        actions := actions + Reparsed(envelope);
        nextRxSequence := Next(nextRxSequence);
      }
    }
  }
}
