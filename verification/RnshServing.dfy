/** The rnsh listener's loop over all its links: a table of sessions that is served until a
    message of some process cannot be sent, and what holds of every run of it. */
module RnshServing {
  import opened Bytes
  import opened Options
  import opened RnshMessages
  import opened RnshSession
  import opened RnshStreams

  type LinkId = seq<byte>

  type PeerInput = i: Input | !i.Exited? witness LinkClosed

  /** What the loop receives. `accepted` is how many of the messages that the event makes it
      send the link takes; the loop returns at the first it does not take, and when an
      announcement fails. */
  datatype Event =
    | Established(link: LinkId)
    | Peer(link: LinkId, i: PeerInput)
    | ProcessOutput(link: LinkId, streamId: u16, data: seq<byte>, accepted: nat)
    | ProcessExited(link: LinkId, code: int, accepted: nat)
    | Announcement(ok: bool)

  datatype Serving = Serving(sessions: map<LinkId, Session>, stopped: bool)

  const SERVING: Serving := Serving(map[], false)

  /** The table after an input for a link. */
  function Updated(env: Env, cfg: Config, table: map<LinkId, Session>, link: LinkId, i: Input): map<LinkId, Session> {
    if link !in table then table
    else
      var s' := Step(env, cfg, table[link], i).0;
      if s'.state == Removed then table - {link} else table[link := s']
  }

  function Caused(env: Env, cfg: Config, table: map<LinkId, Session>, link: LinkId, i: Input): seq<Effect> {
    if link in table then Step(env, cfg, table[link], i).1
    else if i.Exited? then [SendEof, SendExited(i.code)]
    else []
  }

  function Streamed(streamId: u16, data: seq<byte>, accepted: nat): seq<Effect> {
    var ms := StreamMessages(streamId, data, false);
    var n := if |ms| <= accepted then |ms| else accepted;
    seq(n, k requires 0 <= k < n => SendStream(ms[k]))
  }

  /** Every message an event makes the loop send is taken. */
  predicate Accepted(e: Event) {
    match e
    case ProcessOutput(_, streamId, data, accepted) => |StreamMessages(streamId, data, false)| <= accepted
    case ProcessExited(_, _, accepted) => |StreamMessages(STREAM_STDOUT, [], true)| <= accepted
    case Announcement(ok) => ok
    case _ => true
  }

  function Serve(env: Env, cfg: Config, v: Serving, e: Event): (Serving, seq<Effect>) {
    if v.stopped then (v, [])
    else
      var next := if Accepted(e) then v else Serving(map[], true);
      match e
      case Established(l) => (if l in v.sessions then v else v.(sessions := v.sessions[l := New(cfg)]), [])
      case Peer(l, i) => (v.(sessions := Updated(env, cfg, v.sessions, l, i)), Caused(env, cfg, v.sessions, l, i))
      case ProcessOutput(_, streamId, data, accepted) => (next, Streamed(streamId, data, accepted))
      case ProcessExited(l, code, _) =>
        if !Accepted(e) then (next, [])
        else
          var i := Exited(code);
          (v.(sessions := Updated(env, cfg, v.sessions, l, i)), Caused(env, cfg, v.sessions, l, i))
      case Announcement(_) => (next, [])
  }

  function Run(env: Env, cfg: Config, events: seq<Event>): Serving {
    if events == [] then SERVING
    else Serve(env, cfg, Run(env, cfg, events[..|events| - 1]), events[|events| - 1]).0
  }

  function EventEffects(env: Env, cfg: Config, events: seq<Event>): seq<Effect>
    requires events != []
  {
    Serve(env, cfg, Run(env, cfg, events[..|events| - 1]), events[|events| - 1]).1
  }

  predicate Concerns(e: Event, l: LinkId) {
    !e.Announcement? && e.link == l
  }

  // ----- as long as it serves -----

  ghost predicate AllAccepted(events: seq<Event>) {
    forall t :: 0 <= t < |events| ==> Accepted(events[t])
  }

  lemma AcceptedStep(events: seq<Event>)
    requires events != []
    ensures AllAccepted(events) <==> AllAccepted(events[..|events| - 1]) && Accepted(events[|events| - 1])
  {
    hide Accepted;
    var n := |events| - 1;
    var before := events[..n];
    assert forall t :: 0 <= t < n ==> before[t] == events[t];
    if AllAccepted(events) {
      forall t | 0 <= t < n
        ensures Accepted(before[t])
      {
        assert Accepted(events[t]);
      }
    }
    if AllAccepted(before) && Accepted(events[n]) {
      forall t | 0 <= t < |events|
        ensures Accepted(events[t])
      {
        if t < n {
          assert Accepted(before[t]);
        }
      }
    }
  }

  lemma ServeStops(env: Env, cfg: Config, v: Serving, e: Event)
    ensures Serve(env, cfg, v, e).0.stopped <==> v.stopped || !Accepted(e)
    ensures Serve(env, cfg, v, e).0.stopped && !v.stopped ==> Serve(env, cfg, v, e).0.sessions == map[]
  {
    hide Updated, Caused, Streamed, StreamMessages;
  }

  /** The loop still serves exactly when every message of every output and of every end of a
      process was taken, and every announcement made. */
  lemma {:induction false} ServingIff(env: Env, cfg: Config, events: seq<Event>)
    ensures !Run(env, cfg, events).stopped <==> AllAccepted(events)
    ensures Run(env, cfg, events).stopped ==> Run(env, cfg, events).sessions == map[]
  {
    hide Serve, AllAccepted, Accepted;
    if events == [] {
      NoneYet();
    } else {
      var before := events[..|events| - 1];
      ServingIff(env, cfg, before);
      ServeStops(env, cfg, Run(env, cfg, before), events[|events| - 1]);
      AcceptedStep(events);
      if Run(env, cfg, before).stopped {
        StoppedStays(env, cfg, Run(env, cfg, before), events[|events| - 1]);
      }
    }
  }

  lemma NoneYet()
    ensures AllAccepted([])
  {
  }

  lemma {:induction false} MessageCount(streamId: u16, data: seq<byte>, n: nat)
    ensures |StreamMessages(streamId, data, false)| <= n <==> |data| <= 423 * n
  {
    hide StreamMessages, FirstChunk;
    LastMessages(streamId, false);
    if data != [] {
      var k := FirstChunk(data);
      ChunkSplit(streamId, data, false);
      FirstChunkIs(data);
      if n > 0 {
        MessageCount(streamId, data[k..], n - 1);
      }
    }
  }

  /** What keeps the loop serving, event by event: output that fits the messages taken at 423
      bytes each, an end of a process of which at least the end of stream is taken, and an
      announcement that is made. */
  lemma KeepsServing(env: Env, cfg: Config, events: seq<Event>, e: Event)
    requires AllAccepted(events)
    ensures !Run(env, cfg, events + [e]).stopped <==>
              match e
              case ProcessOutput(_, _, data, accepted) => |data| <= 423 * accepted
              case ProcessExited(_, _, accepted) => accepted >= 1
              case Announcement(ok) => ok
              case _ => true
  {
    hide AllAccepted, StreamMessages, Serve;
    var all := events + [e];
    assert all[..|events|] == events;
    AcceptedStep(all);
    ServingIff(env, cfg, all);
    LastMessages(STREAM_STDOUT, true);
    if e.ProcessOutput? {
      MessageCount(e.streamId, e.data, e.accepted);
    }
  }

  // ----- what the peers are sent -----

  lemma StillServing(env: Env, cfg: Config, events: seq<Event>, e: Event)
    requires AllAccepted(events)
    ensures EventEffects(env, cfg, events + [e]) == Serve(env, cfg, Run(env, cfg, events), e).1
    ensures !Run(env, cfg, events).stopped
  {
    hide Serve, AllAccepted, Run;
    assert (events + [e])[..|events|] == events;
    ServingIff(env, cfg, events);
  }

  /** While the loop serves, the end of a process is announced when the link takes it, whether
      or not its session is still there, and not otherwise. */
  lemma ExitAnnounced(env: Env, cfg: Config, events: seq<Event>, l: LinkId, code: int, accepted: nat)
    requires AllAccepted(events)
    ensures EventEffects(env, cfg, events + [ProcessExited(l, code, accepted)])
         == if accepted >= 1 then [SendEof, SendExited(code)] else []
  {
    hide AllAccepted, Run, StreamMessages, Updated;
    StillServing(env, cfg, events, ProcessExited(l, code, accepted));
    LastMessages(STREAM_STDOUT, true);
  }

  /** The bytes that effects send on a stream. */
  function Carried(es: seq<Effect>, streamId: u16): seq<byte> {
    if es == [] then []
    else
      var m := es[0];
      (if m.SendStream? && m.m.StreamData? && m.m.stream.streamId == streamId then m.m.stream.data else [])
      + Carried(es[1..], streamId)
  }

  lemma {:induction false} StreamedCarries(streamId: u16, data: seq<byte>, accepted: nat)
    ensures Carried(Streamed(streamId, data, accepted), streamId)
         == if |data| <= 423 * accepted then data else data[..423 * accepted]
    ensures forall e :: e in Streamed(streamId, data, accepted) ==>
              e.SendStream? && e.m.StreamData? && e.m.stream.streamId == streamId && !e.m.stream.eof
    decreases accepted
  {
    hide StreamMessages, FirstChunk;
    LastMessages(streamId, false);
    if accepted > 0 && data != [] {
      var n := FirstChunk(data);
      var first := StreamData(Stream(streamId, data[..n], false));
      ChunkSplit(streamId, data, false);
      StreamedCarries(streamId, data[n..], accepted - 1);
      StreamedSplit(streamId, data, accepted, n);
      var es := Streamed(streamId, data, accepted);
      assert es[0] == SendStream(first) && es[1..] == Streamed(streamId, data[n..], accepted - 1);
      assert data == data[..n] + data[n..];
      FirstChunkIs(data);
      if |data| > 423 * accepted {
        assert data[..423 * accepted] == data[..n] + data[n..][..423 * (accepted - 1)];
      }
    }
  }

  lemma FirstChunkIs(data: seq<byte>)
    ensures FirstChunk(data) == if |data| <= 423 then |data| else 423
  {
  }

  lemma StreamedSplit(streamId: u16, data: seq<byte>, accepted: nat, n: nat)
    requires accepted > 0 && n <= |data|
    requires StreamMessages(streamId, data, false)
          == [StreamData(Stream(streamId, data[..n], false))] + StreamMessages(streamId, data[n..], false)
    ensures Streamed(streamId, data, accepted)
         == [SendStream(StreamData(Stream(streamId, data[..n], false)))] + Streamed(streamId, data[n..], accepted - 1)
  {
    hide StreamMessages;
  }

  /** While the loop serves, output goes out on its own stream, in order and with nothing lost or
      added, as far as the link takes messages of 423 bytes. */
  lemma OutputCarried(env: Env, cfg: Config, events: seq<Event>, l: LinkId, streamId: u16, data: seq<byte>,
                      accepted: nat)
    requires AllAccepted(events)
    ensures var es := EventEffects(env, cfg, events + [ProcessOutput(l, streamId, data, accepted)]);
            && Carried(es, streamId) == (if |data| <= 423 * accepted then data else data[..423 * accepted])
            && (forall e :: e in es ==>
                  e.SendStream? && e.m.StreamData? && e.m.stream.streamId == streamId && !e.m.stream.eof)
  {
    hide AllAccepted, Run, StreamMessages, Carried, Streamed;
    StillServing(env, cfg, events, ProcessOutput(l, streamId, data, accepted));
    StreamedCarries(streamId, data, accepted);
  }

  lemma StoppedStays(env: Env, cfg: Config, v: Serving, e: Event)
    requires v.stopped
    ensures Serve(env, cfg, v, e) == (v, [])
  {
  }

  // ----- one link among others -----

  function Only(events: seq<Event>, l: LinkId): seq<Event> {
    if events == [] then []
    else
      Only(events[..|events| - 1], l)
      + if Concerns(events[|events| - 1], l) then [events[|events| - 1]] else []
  }

  /** What two tables have to agree on for a link to see no difference. */
  ghost predicate Agree(v: Serving, w: Serving, l: LinkId) {
    && !v.stopped && !w.stopped
    && (l in v.sessions <==> l in w.sessions)
    && (l in v.sessions ==> v.sessions[l] == w.sessions[l])
  }

  lemma OwnEvent(env: Env, cfg: Config, v: Serving, w: Serving, l: LinkId, e: Event)
    requires Agree(v, w, l) && Concerns(e, l) && Accepted(e)
    ensures Agree(Serve(env, cfg, v, e).0, Serve(env, cfg, w, e).0, l)
    ensures Serve(env, cfg, v, e).1 == Serve(env, cfg, w, e).1
  {
    hide Step, Streamed, StreamMessages;
  }

  lemma OtherEvent(env: Env, cfg: Config, v: Serving, w: Serving, l: LinkId, e: Event)
    requires Agree(v, w, l) && !Concerns(e, l) && Accepted(e)
    ensures Agree(Serve(env, cfg, v, e).0, w, l)
  {
    hide Step, Streamed, StreamMessages;
  }

  /** While the loop serves, taking out all other links' events changes neither a link's
      session nor what is done for it. */
  lemma {:induction false} LinksApart(env: Env, cfg: Config, events: seq<Event>, l: LinkId)
    requires AllAccepted(events)
    ensures Agree(Run(env, cfg, events), Run(env, cfg, Only(events, l)), l)
    ensures events != [] && Concerns(events[|events| - 1], l) ==>
              Only(events, l) != [] && EventEffects(env, cfg, events) == EventEffects(env, cfg, Only(events, l))
  {
    hide Serve, AllAccepted, Accepted, Agree;
    if events == [] {
      AgreeStart(l);
    } else {
      var before, e := events[..|events| - 1], events[|events| - 1];
      AcceptedStep(events);
      LinksApart(env, cfg, before, l);
      var v, w := Run(env, cfg, before), Run(env, cfg, Only(before, l));
      if Concerns(e, l) {
        OwnEvent(env, cfg, v, w, l, e);
        assert Only(events, l)[..|Only(events, l)| - 1] == Only(before, l);
      } else {
        OtherEvent(env, cfg, v, w, l, e);
        assert Only(events, l) == Only(before, l);
      }
    }
  }

  lemma AgreeStart(l: LinkId)
    ensures Agree(SERVING, SERVING, l)
  {
  }

  // ----- the life of a session -----

  function Appended(life: Option<seq<Input>>, i: Input): Option<seq<Input>> {
    if life.None? || Ends(i) then None else Some(life.value + [i])
  }

  /** The inputs of a link's session since the link was established, if it has one. */
  function Life(events: seq<Event>, l: LinkId): Option<seq<Input>> {
    if events == [] then None
    else
      var before, e := Life(events[..|events| - 1], l), events[|events| - 1];
      match e
      case Established(m) => if m == l && before.None? then Some([]) else before
      case Peer(m, i) => if m == l then Appended(before, i) else before
      case ProcessOutput(_, _, _, _) => before
      case ProcessExited(m, code, _) => if m == l then Appended(before, Exited(code)) else before
      case Announcement(_) => before
  }

  /** A table holds the sessions those inputs make. */
  ghost predicate Lives(env: Env, cfg: Config, v: Serving, l: LinkId, life: Option<seq<Input>>) {
    && (l in v.sessions <==> life.Some?)
    && (life.Some? ==> v.sessions[l] == After(env, cfg, life.value))
    && (life.Some? ==> v.sessions[l].state != Removed)
  }

  lemma LifeInput(env: Env, cfg: Config, v: Serving, l: LinkId, life: Option<seq<Input>>, i: Input)
    requires Lives(env, cfg, v, l, life)
    ensures Lives(env, cfg, v.(sessions := Updated(env, cfg, v.sessions, l, i)), l, Appended(life, i))
    ensures life.Some? ==> Caused(env, cfg, v.sessions, l, i) == LastEffects(env, cfg, life.value + [i])
  {
    hide Step, After;
    if life.Some? {
      AfterOne(env, cfg, life.value, i);
      if Ends(i) {
        EndedByInput(env, cfg, v.sessions[l], i);
      } else {
        StaysInTable(env, cfg, v.sessions[l], i);
      }
    }
  }

  lemma StaysInTable(env: Env, cfg: Config, s: Session, i: Input)
    requires s.state != Removed && !Ends(i)
    ensures Step(env, cfg, s, i).0.state != Removed
  {
    hide UnpackMessage;
  }

  lemma EndedByInput(env: Env, cfg: Config, s: Session, i: Input)
    requires Ends(i)
    ensures Step(env, cfg, s, i).0.state == Removed
  {
  }

  lemma OtherInput(env: Env, cfg: Config, v: Serving, l: LinkId, life: Option<seq<Input>>, m: LinkId, i: Input)
    requires Lives(env, cfg, v, l, life) && m != l
    ensures Lives(env, cfg, v.(sessions := Updated(env, cfg, v.sessions, m, i)), l, life)
  {
    hide Step, After;
  }

  lemma NewLives(env: Env, cfg: Config)
    ensures After(env, cfg, []) == New(cfg) && New(cfg).state != Removed
  {
  }

  /** While the loop serves, every session in the table is the one its inputs make. */
  lemma {:induction false} SessionsLive(env: Env, cfg: Config, events: seq<Event>, l: LinkId)
    requires AllAccepted(events)
    ensures !Run(env, cfg, events).stopped && Lives(env, cfg, Run(env, cfg, events), l, Life(events, l))
  {
    hide AllAccepted, Updated, Caused, After, Streamed, StreamMessages, Appended;
    if events != [] {
      var before, e := events[..|events| - 1], events[|events| - 1];
      AcceptedStep(events);
      SessionsLive(env, cfg, before, l);
      var v := Run(env, cfg, before);
      match e
      case Established(m) => NewLives(env, cfg);
      case Peer(m, i) =>
        if m == l {
          LifeInput(env, cfg, v, l, Life(before, l), i);
        } else {
          OtherInput(env, cfg, v, l, Life(before, l), m, i);
        }
      case ProcessOutput(_, _, _, _) =>
      case ProcessExited(m, code, _) =>
        if m == l {
          LifeInput(env, cfg, v, l, Life(before, l), Exited(code));
        } else {
          OtherInput(env, cfg, v, l, Life(before, l), m, Exited(code));
        }
      case Announcement(_) =>
    }
  }

  // ----- telling a process to terminate -----

  /** Whether the process of a link has been told to terminate, since the link last got a
      session. */
  function Told(env: Env, cfg: Config, events: seq<Event>, l: LinkId): bool {
    if events == [] then false
    else
      var before, e := events[..|events| - 1], events[|events| - 1];
      if e == Established(l) && l !in Run(env, cfg, before).sessions then false
      else Told(env, cfg, before, l) || (Concerns(e, l) && Terminate in EventEffects(env, cfg, events))
  }

  lemma StreamedTellsNone(streamId: u16, data: seq<byte>, accepted: nat)
    ensures Terminate !in Streamed(streamId, data, accepted)
  {
    hide StreamMessages;
  }

  lemma EverStep(env: Env, cfg: Config, inputs: seq<Input>, i: Input)
    ensures EverTerminated(env, cfg, inputs + [i]) <==>
              EverTerminated(env, cfg, inputs) || Terminate in LastEffects(env, cfg, inputs + [i])
  {
    hide LastEffects;
    assert (inputs + [i])[..|inputs|] == inputs;
  }

  lemma {:induction false} ToldIs(env: Env, cfg: Config, events: seq<Event>, l: LinkId)
    requires AllAccepted(events) && Life(events, l).Some?
    ensures Told(env, cfg, events, l) <==> EverTerminated(env, cfg, Life(events, l).value)
  {
    hide AllAccepted, Updated, Caused, After, Streamed, StreamMessages, Run, EverTerminated, LastEffects;
    if events != [] {
      var before, e := events[..|events| - 1], events[|events| - 1];
      AcceptedStep(events);
      SessionsLive(env, cfg, before, l);
      if Life(before, l).None? {
        NothingYet(env, cfg);
      } else {
        ToldIs(env, cfg, before, l);
        var v, life := Run(env, cfg, before), Life(before, l);
        match e
        case Peer(m, i) =>
          if m == l {
            LifeInput(env, cfg, v, l, life, i);
            EverStep(env, cfg, life.value, i);
          }
        case ProcessOutput(_, streamId, data, accepted) => StreamedTellsNone(streamId, data, accepted);
        case _ =>
      }
    }
  }

  lemma NothingYet(env: Env, cfg: Config)
    ensures !EverTerminated(env, cfg, [])
  {
  }

  /** While the loop serves, a process has been told to terminate exactly when the inputs of
      its session since it was started doom it, whatever happens on other links. */
  lemma ToldExactly(env: Env, cfg: Config, events: seq<Event>, l: LinkId, k: nat)
    requires AllAccepted(events) && Life(events, l).Some? && StartedAt(env, cfg, Life(events, l).value, k)
    ensures Told(env, cfg, events, l) <==> Doomed(env, cfg, Life(events, l).value[k..])
  {
    hide AllAccepted, Life, Told, Doomed, EverTerminated;
    ToldIs(env, cfg, events, l);
    TerminatedExactly(env, cfg, Life(events, l).value, k);
  }

  /** A link has a session whose process was started. */
  predicate HasProcess(v: Serving, l: LinkId) {
    l in v.sessions && v.sessions[l].process.Some? && v.sessions[l].state != Removed
  }

  lemma ProcessKept(env: Env, cfg: Config, v: Serving, e: Event, l: LinkId)
    requires !v.stopped && HasProcess(v, l) && Accepted(e)
    requires !(e.ProcessExited? && e.link == l)
    ensures e == Peer(l, LinkClosed) ==> Terminate in Serve(env, cfg, v, e).1
    ensures e != Peer(l, LinkClosed) ==> HasProcess(Serve(env, cfg, v, e).0, l)
  {
    hide Step, Streamed, StreamMessages;
    if e.Peer? && e.link == l {
      if e.i.LinkClosed? {
        ClosingTells(env, cfg, v.sessions[l]);
      } else {
        StaysInTable(env, cfg, v.sessions[l], e.i);
        StepSpawns(env, cfg, v.sessions[l], e.i);
      }
    }
  }

  lemma ClosingTells(env: Env, cfg: Config, s: Session)
    requires s.process.Some? && s.state != Removed
    ensures Terminate in Step(env, cfg, s, LinkClosed).1
  {
  }

  /** Between two moments, a process that did not end by itself was told to terminate if its
      link closed. */
  lemma {:induction false} KeptUntilTold(env: Env, cfg: Config, events: seq<Event>, l: LinkId, t: nat, u: nat)
    requires AllAccepted(events) && t <= u <= |events| && HasProcess(Run(env, cfg, events[..t]), l)
    requires forall j :: t <= j < u ==> !(events[j].ProcessExited? && events[j].link == l)
    ensures HasProcess(Run(env, cfg, events[..u]), l) || ToldBetween(env, cfg, events, l, t, u)
    ensures (exists j :: t <= j < u && events[j] == Peer(l, LinkClosed)) ==> ToldBetween(env, cfg, events, l, t, u)
    decreases u
  {
    hide Serve, AllAccepted, Accepted, HasProcess, Run, EventEffects;
    if t < u {
      KeptUntilTold(env, cfg, events, l, t, u - 1);
      ServedAt(env, cfg, events, u - 1);
      if ToldBetween(env, cfg, events, l, t, u - 1) {
        var j :| t <= j < u - 1 && TellsAt(env, cfg, events, l, j);
        assert ToldBetween(env, cfg, events, l, t, u);
      } else {
        PrefixServes(env, cfg, events, u - 1);
        ProcessKept(env, cfg, Run(env, cfg, events[..u - 1]), events[u - 1], l);
        if events[u - 1] == Peer(l, LinkClosed) {
          assert TellsAt(env, cfg, events, l, u - 1);
        }
      }
    }
  }

  lemma ServedAt(env: Env, cfg: Config, events: seq<Event>, n: nat)
    requires n < |events|
    ensures Run(env, cfg, events[..n + 1]) == Serve(env, cfg, Run(env, cfg, events[..n]), events[n]).0
    ensures EventEffects(env, cfg, events[..n + 1]) == Serve(env, cfg, Run(env, cfg, events[..n]), events[n]).1
  {
    hide Serve;
    assert events[..n + 1][..n] == events[..n];
  }

  predicate TellsAt(env: Env, cfg: Config, events: seq<Event>, l: LinkId, j: nat)
    requires j < |events|
  {
    Concerns(events[j], l) && Terminate in EventEffects(env, cfg, events[..j + 1])
  }

  ghost predicate ToldBetween(env: Env, cfg: Config, events: seq<Event>, l: LinkId, t: nat, u: nat)
    requires t <= u <= |events|
  {
    exists j :: t <= j < u && TellsAt(env, cfg, events, l, j)
  }

  lemma PrefixServes(env: Env, cfg: Config, events: seq<Event>, n: nat)
    requires AllAccepted(events) && n < |events|
    ensures !Run(env, cfg, events[..n]).stopped && Accepted(events[n])
  {
    hide Accepted, Run;
    assert AllAccepted(events[..n]);
    ServingIff(env, cfg, events[..n]);
  }

  /** In every run of the whole table that still serves: a process started on a link whose
      link closed later, before the process ended by itself, was told to terminate. */
  lemma NoneLeftBehindServing(env: Env, cfg: Config, events: seq<Event>, l: LinkId, t: nat, u: nat)
    requires !Run(env, cfg, events).stopped && t < u < |events| && Concerns(events[t], l)
    requires exists e :: e in EventEffects(env, cfg, events[..t + 1]) && e.Spawn?
    requires events[u] == Peer(l, LinkClosed)
    requires forall j :: t < j < u ==> !(events[j].ProcessExited? && events[j].link == l)
    ensures ToldBetween(env, cfg, events, l, t + 1, u + 1)
  {
    hide Run, EventEffects, AllAccepted, HasProcess, ToldBetween;
    ServingIff(env, cfg, events);
    SpawnLeavesProcess(env, cfg, events, l, t);
    KeptUntilTold(env, cfg, events, l, t + 1, u + 1);
  }

  lemma SpawnLeavesProcess(env: Env, cfg: Config, events: seq<Event>, l: LinkId, t: nat)
    requires AllAccepted(events) && t < |events| && Concerns(events[t], l)
    requires exists e :: e in EventEffects(env, cfg, events[..t + 1]) && e.Spawn?
    ensures HasProcess(Run(env, cfg, events[..t + 1]), l)
  {
    hide Step, AllAccepted, Streamed, StreamMessages;
    PrefixServes(env, cfg, events, t);
    var now := events[..t + 1];
    assert now[..t] == events[..t] && now[t] == events[t];
    var v := Run(env, cfg, events[..t]);
    var e :| e in EventEffects(env, cfg, now) && e.Spawn?;
    if events[t].ProcessOutput? {
      StreamedStartsNone(events[t].streamId, events[t].data, events[t].accepted);
    } else if events[t].Peer? && l in v.sessions {
      StepShape(env, cfg, v.sessions[l], events[t].i);
    } else if events[t].ProcessExited? && l in v.sessions {
      StepShape(env, cfg, v.sessions[l], Exited(events[t].code));
    }
  }

  lemma StreamedStartsNone(streamId: u16, data: seq<byte>, accepted: nat)
    ensures forall e :: e in Streamed(streamId, data, accepted) ==> !e.Spawn?
  {
    hide StreamMessages;
  }

  // ----- when it does not -----

  lemma {:induction false} StoppedForGood(env: Env, cfg: Config, events: seq<Event>, more: seq<Event>, l: LinkId)
    requires Run(env, cfg, events).stopped && !Told(env, cfg, events, l)
    ensures Run(env, cfg, events + more).stopped && !Told(env, cfg, events + more, l)
    decreases |more|
  {
    hide Serve;
    if more == [] {
      assert events + more == events;
    } else {
      var n := |more| - 1;
      StoppedForGood(env, cfg, events, more[..n], l);
      assert (events + more)[..|events + more| - 1] == events + more[..n];
      StoppedStays(env, cfg, Run(env, cfg, events + more[..n]), more[n]);
    }
  }

  lemma RefusedTellsNone(env: Env, cfg: Config, v: Serving, e: Event)
    requires !Accepted(e)
    ensures Terminate !in Serve(env, cfg, v, e).1
  {
    hide Streamed, StreamMessages;
    if e.ProcessOutput? {
      StreamedTellsNone(e.streamId, e.data, e.accepted);
    }
  }

  /** In every run, one message that is not taken, on any link, ends the loop for all of them:
      a process that had not been told to terminate never is, whatever comes after. */
  lemma RefusalStrands(env: Env, cfg: Config, events: seq<Event>, e: Event, more: seq<Event>, l: LinkId)
    requires !Told(env, cfg, events, l) && !Accepted(e)
    ensures Run(env, cfg, events + [e] + more).stopped && !Told(env, cfg, events + [e] + more, l)
  {
    hide Serve, Accepted;
    assert (events + [e])[..|events|] == events;
    ServeStops(env, cfg, Run(env, cfg, events), e);
    RefusedTellsNone(env, cfg, Run(env, cfg, events), e);
    StoppedForGood(env, cfg, events + [e], more, l);
  }

  // ----- a run of two links -----

  /** A link established and its handshake received. */
  function Opened(l: LinkId, i0: PeerInput, i1: PeerInput, i2: PeerInput): seq<Event> {
    [Established(l), Peer(l, i0), Peer(l, i1), Peer(l, i2)]
  }

  lemma LifeStep(events: seq<Event>, e: Event, l: LinkId)
    ensures !Concerns(e, l) ==> Life(events + [e], l) == Life(events, l)
    ensures e == Established(l) && Life(events, l).None? ==> Life(events + [e], l) == Some([])
    ensures e.Peer? && e.link == l ==> Life(events + [e], l) == Appended(Life(events, l), e.i)
  {
    hide Appended;
    assert (events + [e])[..|events|] == events;
  }

  lemma OpenedLife(events: seq<Event>, l: LinkId, i0: PeerInput, i1: PeerInput, i2: PeerInput, m: LinkId)
    requires Life(events, l).None? && !Ends(i0) && !Ends(i1) && !Ends(i2)
    ensures Life(events + Opened(l, i0, i1, i2), l) == Some([i0, i1, i2])
    ensures m != l ==> Life(events + Opened(l, i0, i1, i2), m) == Life(events, m)
  {
    hide Life;
    var a := events + [Established(l)];
    var b := a + [Peer(l, i0)];
    var c := b + [Peer(l, i1)];
    LifeStep(events, Established(l), l);
    LifeStep(a, Peer(l, i0), l);
    LifeStep(b, Peer(l, i1), l);
    LifeStep(c, Peer(l, i2), l);
    LifeStep(events, Established(l), m);
    LifeStep(a, Peer(l, i0), m);
    LifeStep(b, Peer(l, i1), m);
    LifeStep(c, Peer(l, i2), m);
    assert [] + [i0] == [i0] && [i0] + [i1] == [i0, i1] && [i0, i1] + [i2] == [i0, i1, i2];
    assert c + [Peer(l, i2)] == events + Opened(l, i0, i1, i2);
  }

  /** Two links, each with a process. The second link closes and its process, told to
      terminate, exits; that end is not taken, the loop returns, and the process of the first
      link, running and never told to terminate, never is. */
  lemma OneLinkStrandsAnother(env: Env, cfg: Config, a: LinkId, b: LinkId, id: Identity, version: Message, c: Command,
                              code: int, more: seq<Event>)
    requires a != b && cfg.Admits(id) && MessageFits(env, version) && MessageFits(env, Execute(c))
    requires version.VersionInfo? && version.protocolVersion == PROTOCOL_VERSION
    requires (cfg.allowRemoteCommand || c.cmdline == []) && ArgvFor(cfg, c.cmdline) != []
    ensures var i0, i1 := Identified(id), Received(TypeOf(version), PackMessage(env, version), true);
            var i2 := Received(TypeOf(Execute(c)), PackMessage(env, Execute(c)), true);
            var events := Opened(a, i0, i1, i2) + Opened(b, i0, i1, i2) + [Peer(b, LinkClosed)];
            var all := events + [ProcessExited(b, code, 0)] + more;
            && !Run(env, cfg, events).stopped
            && HasProcess(Run(env, cfg, events), a) && Run(env, cfg, events).sessions[a].state == Running
            && Told(env, cfg, events, b)
            && Run(env, cfg, all).stopped && !Told(env, cfg, all, a)
  {
    hide Run, Told, Life, After, PackMessage, TypeOf, ArgvFor, Opened, EverTerminated, AllAccepted;
    var i0, i1 := Identified(id), Received(TypeOf(version), PackMessage(env, version), true);
    var i2 := Received(TypeOf(Execute(c)), PackMessage(env, Execute(c)), true);
    var first := Opened(a, i0, i1, i2);
    var both := first + Opened(b, i0, i1, i2);
    var events := both + [Peer(b, LinkClosed)];
    NoLifeYet(a);
    NoLifeYet(b);
    assert [] + first == first;
    OpenedLife([], a, i0, i1, i2, b);
    OpenedLife(first, b, i0, i1, i2, a);
    LifeStep(both, Peer(b, LinkClosed), a);
    HandshakeStarts(env, cfg, id, version, c, true);
    assert [i0, i1] + [i2] == [i0, i1, i2];
    TakenAll(a, b, i0, i1, i2);
    ServingIff(env, cfg, events);
    SessionsLive(env, cfg, events, a);
    ToldIs(env, cfg, events, a);
    assert [i0, i1, i2][..2] == [i0, i1];
    AtMostOneProcess(env, cfg, [i0, i1]);
    NotTerminatedYet(env, cfg, [i0, i1, i2]);
    ClosingToldNow(env, cfg, both, b);
    ExitRefused(b, code);
    RefusalStrands(env, cfg, events, ProcessExited(b, code, 0), more, a);
  }

  lemma NoLifeYet(l: LinkId)
    ensures Life([], l).None?
  {
  }

  lemma ExitRefused(l: LinkId, code: int)
    ensures !Accepted(ProcessExited(l, code, 0))
  {
    hide StreamMessages;
    LastMessages(STREAM_STDOUT, true);
  }

  lemma TakenAll(a: LinkId, b: LinkId, i0: PeerInput, i1: PeerInput, i2: PeerInput)
    ensures AllAccepted(Opened(a, i0, i1, i2) + Opened(b, i0, i1, i2) + [Peer(b, LinkClosed)])
    ensures AllAccepted(Opened(a, i0, i1, i2) + Opened(b, i0, i1, i2))
  {
  }

  lemma ClosingToldNow(env: Env, cfg: Config, events: seq<Event>, l: LinkId)
    requires AllAccepted(events) && Life(events, l).Some? && After(env, cfg, Life(events, l).value).process.Some?
    ensures Told(env, cfg, events + [Peer(l, LinkClosed)], l)
  {
    hide Life, After, AllAccepted, Run;
    SessionsLive(env, cfg, events, l);
    var all := events + [Peer(l, LinkClosed)];
    assert all[..|events|] == events;
    var v := Run(env, cfg, events);
    assert Accepted(Peer(l, LinkClosed));
    ProcessKept(env, cfg, v, Peer(l, LinkClosed), l);
  }
}
