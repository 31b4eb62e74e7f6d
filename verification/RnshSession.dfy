/** The rnsh listener session: a protocol state machine, and what holds of every run of it. */
module RnshSession {
  import opened Bytes
  import opened Options
  import opened RnshMessages

  type Identity = seq<byte>
  type Argv = seq<seq<byte>>

  const PROTOCOL_VERSION: u64 := 1
  const STREAM_STDIN: u16 := 0
  const STREAM_STDOUT: u16 := 1

  datatype Config = Config(
    defaultCommand: Argv,
    allowAll: bool,
    allowed: set<Identity>,
    allowRemoteCommand: bool,
    remoteCommandAsArgs: bool)
  {
    predicate Admits(id: Identity) {
      allowAll || id in allowed
    }
  }

  /** The states of a session; Removed is that of one no longer in the listener's table. */
  datatype State = WaitIdent | WaitVersion | WaitCommand | Running | Closed | Removed

  datatype Session = Session(state: State, remoteIdentity: Option<Identity>, process: Option<Argv>)

  /** Why the peer is sent a fatal error. */
  datatype Reason =
    | IdentityNotAllowed
    | Malformed(e: MessageError)
    | IncompatibleProtocol
    | ExpectedVersion
    | RemoteCommandNotAllowed
    | CannotStart
    | ExpectedExecute
    | UnexpectedWhileRunning

  datatype Effect =
    | Refuse(reason: Reason)
    | SendVersion
    | SendNoop
    | Teardown
    | Spawn(argv: Argv, identity: Option<Identity>)
    | SetWinsize(size: WindowSize)
    | WriteStdin(data: seq<byte>)
    | CloseStdin
    | Terminate
    | SendEof
    | SendExited(code: int)
    | SendStream(m: Message)

  /** An identity proved on the link, a channel message, the end of the process or of the
      link; `canSpawn` is what the operating system would answer to an attempt to start a
      process. */
  datatype Input =
    | Identified(id: Identity)
    | Received(msgtype: u16, payload: seq<byte>, canSpawn: bool)
    | Exited(code: int)
    | LinkClosed

  function New(cfg: Config): Session {
    Session(if cfg.allowAll then WaitVersion else WaitIdent, None, None)
  }

  function ProtocolError(s: Session, reason: Reason): (Session, seq<Effect>) {
    (s.(state := Closed), [Refuse(reason), Teardown] + if s.process.Some? then [Terminate] else [])
  }

  function OnIdentified(cfg: Config, s: Session, id: Identity): (Session, seq<Effect>) {
    if !cfg.Admits(id) then (s.(state := Closed), [Refuse(IdentityNotAllowed), Teardown])
    else
      (s.(remoteIdentity := Some(id), state := if s.state == WaitIdent then WaitVersion else s.state), [])
  }

  /** The command line a remote request leads to. */
  function ArgvFor(cfg: Config, cmdline: Argv): Argv {
    if cmdline == [] then cfg.defaultCommand
    else if cfg.remoteCommandAsArgs then cfg.defaultCommand + cmdline
    else cmdline
  }

  function StartCommand(cfg: Config, s: Session, c: Command, canSpawn: bool): (Session, seq<Effect>) {
    if !cfg.allowRemoteCommand && c.cmdline != [] then
      var (s', es) := ProtocolError(s, CannotStart);
      (s', [Refuse(RemoteCommandNotAllowed)] + es)
    else
      var argv := ArgvFor(cfg, c.cmdline);
      if argv == [] || !canSpawn then ProtocolError(s, CannotStart)
      else (s.(state := Running, process := Some(argv)), [Spawn(argv, s.remoteIdentity), SetWinsize(c.size)])
  }

  function WhileRunning(s: Session, m: Message): (Session, seq<Effect>) {
    match m
    case Resize(size) => (s, if s.process.Some? then [SetWinsize(size)] else [])
    case Noop => (s, [SendNoop])
    case StreamData(d) =>
      if d.streamId != STREAM_STDIN then ProtocolError(s, UnexpectedWhileRunning)
      else if s.process.None? then (s, [])
      else (s, (if d.data != [] then [WriteStdin(d.data)] else []) + (if d.eof then [CloseStdin] else []))
    case _ => ProtocolError(s, UnexpectedWhileRunning)
  }

  function OnDecoded(cfg: Config, s: Session, m: Message, canSpawn: bool): (Session, seq<Effect>)
    requires s.state != WaitIdent
  {
    match s.state
    case WaitVersion =>
      if !m.VersionInfo? then ProtocolError(s, ExpectedVersion)
      else if m.protocolVersion != PROTOCOL_VERSION then ProtocolError(s, IncompatibleProtocol)
      else (s.(state := WaitCommand), [SendVersion])
    case WaitCommand =>
      if m.Execute? then StartCommand(cfg, s, m.command, canSpawn) else ProtocolError(s, ExpectedExecute)
    case Running => WhileRunning(s, m)
    case _ => (s, [])
  }

  function OnMessage(env: Env, cfg: Config, s: Session, msgtype: u16, payload: seq<byte>, canSpawn: bool)
    : (Session, seq<Effect>)
  {
    if s.state == WaitIdent then (s, [])
    else
      match UnpackMessage(env, msgtype, payload)
      case Failure(e) => ProtocolError(s, Malformed(e))
      case Success(m) => OnDecoded(cfg, s, m, canSpawn)
  }

  /** The listener drops a session when its process or its link ends, and passes nothing on
      to a session it does not have. The end of a process is announced in any case; this is
      the step when the link takes the announcement. */
  function Step(env: Env, cfg: Config, s: Session, i: Input): (Session, seq<Effect>) {
    match i
    case Exited(code) => (s.(state := Removed), [SendEof, SendExited(code)])
    case LinkClosed => (s.(state := Removed), if s.state != Removed && s.process.Some? then [Terminate] else [])
    case Identified(id) => if s.state == Removed then (s, []) else OnIdentified(cfg, s, id)
    case Received(t, payload, canSpawn) =>
      if s.state == Removed then (s, []) else OnMessage(env, cfg, s, t, payload, canSpawn)
  }

  // ----- runs -----

  function After(env: Env, cfg: Config, inputs: seq<Input>): Session {
    if inputs == [] then New(cfg)
    else Step(env, cfg, After(env, cfg, inputs[..|inputs| - 1]), inputs[|inputs| - 1]).0
  }

  /** The effects of the last input. */
  function LastEffects(env: Env, cfg: Config, inputs: seq<Input>): seq<Effect>
    requires inputs != []
  {
    Step(env, cfg, After(env, cfg, inputs[..|inputs| - 1]), inputs[|inputs| - 1]).1
  }

  function Spawns(es: seq<Effect>): nat {
    if es == [] then 0 else (if es[0].Spawn? then 1 else 0) + Spawns(es[1..])
  }

  /** How many processes a run has started. */
  function Started(env: Env, cfg: Config, inputs: seq<Input>): nat {
    if inputs == [] then 0
    else Started(env, cfg, inputs[..|inputs| - 1]) + Spawns(LastEffects(env, cfg, inputs))
  }

  function Rank(s: State): nat {
    match s
    case WaitIdent => 0
    case WaitVersion => 1
    case WaitCommand => 2
    case Running => 3
    case Closed => 4
    case Removed => 5
  }

  predicate Alive(s: State) {
    s != Closed && s != Removed
  }

  lemma StepForward(env: Env, cfg: Config, s: Session, i: Input)
    ensures Rank(s.state) <= Rank(Step(env, cfg, s, i).0.state)
  {
    hide UnpackMessage;
  }

  /** The state of a session only moves forward; a closed one never opens again. */
  lemma {:induction false} OnlyForward(env: Env, cfg: Config, inputs: seq<Input>, n: nat)
    requires n <= |inputs|
    ensures Rank(After(env, cfg, inputs[..n]).state) <= Rank(After(env, cfg, inputs).state)
    ensures After(env, cfg, inputs[..n]).state == Closed ==>
              After(env, cfg, inputs).state == Closed || After(env, cfg, inputs).state == Removed
    decreases |inputs| - n
  {
    hide Step;
    if n == |inputs| {
      assert inputs[..n] == inputs;
    } else {
      var next := inputs[..n + 1];
      assert next[..n] == inputs[..n];
      StepForward(env, cfg, After(env, cfg, inputs[..n]), inputs[n]);
      OnlyForward(env, cfg, inputs, n + 1);
    }
  }

  // ----- at most one process -----

  lemma {:induction false} NoSpawns(es: seq<Effect>)
    requires forall e :: e in es ==> !e.Spawn?
    ensures Spawns(es) == 0
  {
    if es != [] {
      NoSpawns(es[1..]);
    }
  }

  lemma OneSpawn(a: Effect, b: Effect)
    requires a.Spawn? && !b.Spawn?
    ensures Spawns([a, b]) == 1
  {
    assert [a, b][1..] == [b];
    NoSpawns([b]);
  }

  /** A step either starts nothing and keeps the process it has, or starts one process on
      the way from WaitCommand to Running. */
  lemma StepShape(env: Env, cfg: Config, s: Session, i: Input)
    ensures var (s', es) := Step(env, cfg, s, i);
            || ((forall e :: e in es ==> !e.Spawn?) && s'.process == s.process
                && (s'.state == Running ==> s.state == Running))
            || (s.state == WaitCommand && s'.state == Running && s'.process.Some?
                && |es| == 2 && es[0].Spawn? && es[1].SetWinsize?)
  {
    hide UnpackMessage;
  }

  lemma StepSpawns(env: Env, cfg: Config, s: Session, i: Input)
    ensures var (s', es) := Step(env, cfg, s, i);
            if s'.state == Running && s.state != Running
            then Spawns(es) == 1 && s.state == WaitCommand && s'.process.Some?
            else Spawns(es) == 0 && s'.process == s.process
  {
    hide Step, Spawns;
    StepShape(env, cfg, s, i);
    var (s', es) := Step(env, cfg, s, i);
    if forall e :: e in es ==> !e.Spawn? {
      NoSpawns(es);
    } else {
      assert es == [es[0], es[1]];
      OneSpawn(es[0], es[1]);
    }
  }

  /** A run starts at most one process, and it has one exactly when it started one. */
  lemma {:induction false} AtMostOneProcess(env: Env, cfg: Config, inputs: seq<Input>)
    ensures var s := After(env, cfg, inputs);
            && Started(env, cfg, inputs) == (if s.process.Some? then 1 else 0)
            && (s.process.Some? ==> Rank(s.state) >= 3)
            && (s.state == Running ==> s.process.Some?)
  {
    hide Step, Spawns;
    if inputs != [] {
      var before, i := inputs[..|inputs| - 1], inputs[|inputs| - 1];
      var s := After(env, cfg, before);
      AtMostOneProcess(env, cfg, before);
      StepSpawns(env, cfg, s, i);
      StepForward(env, cfg, s, i);
    }
  }

  // ----- only for those allowed -----

  predicate Accepts(cfg: Config, i: Input) {
    i.Identified? && cfg.Admits(i.id)
  }

  predicate Agrees(env: Env, i: Input) {
    && i.Received?
    && var m := UnpackMessage(env, i.msgtype, i.payload);
       m.Success? && m.value.VersionInfo? && m.value.protocolVersion == PROTOCOL_VERSION
  }

  /** Some accepted identity came, unless everyone is allowed. */
  ghost predicate Authenticated(cfg: Config, inputs: seq<Input>) {
    cfg.allowAll || exists i :: 0 <= i < |inputs| && Accepts(cfg, inputs[i])
  }

  /** A matching version message came, and was already authenticated then. */
  ghost predicate Negotiated(env: Env, cfg: Config, inputs: seq<Input>) {
    exists j :: 0 <= j < |inputs| && Agrees(env, inputs[j]) && Authenticated(cfg, inputs[..j])
  }

  lemma AuthenticatedLater(cfg: Config, inputs: seq<Input>, n: nat)
    requires n <= |inputs| && Authenticated(cfg, inputs[..n])
    ensures Authenticated(cfg, inputs)
  {
    if !cfg.allowAll {
      var i :| 0 <= i < n && Accepts(cfg, inputs[..n][i]);
      assert inputs[i] == inputs[..n][i];
    }
  }

  lemma NegotiatedLater(env: Env, cfg: Config, inputs: seq<Input>, n: nat)
    requires n <= |inputs| && Negotiated(env, cfg, inputs[..n])
    ensures Negotiated(env, cfg, inputs)
  {
    hide Agrees, Authenticated;
    var j :| 0 <= j < n && Agrees(env, inputs[..n][j]) && Authenticated(cfg, inputs[..n][..j]);
    assert inputs[j] == inputs[..n][j] && inputs[..n][..j] == inputs[..j];
  }

  /** What each step needs to have seen. */
  lemma StepRights(env: Env, cfg: Config, s: Session, i: Input)
    ensures var s' := Step(env, cfg, s, i).0;
            && (s.state == WaitIdent && s'.state != WaitIdent && Alive(s'.state) ==> Accepts(cfg, i))
            && (s.state == WaitIdent && Alive(s'.state) ==> s'.state == WaitIdent || s'.state == WaitVersion)
            && (s.state == WaitVersion && s'.state != WaitVersion && Alive(s'.state) ==>
                  s'.state == WaitCommand && Agrees(env, i))
            && (Alive(s'.state) && s'.remoteIdentity != s.remoteIdentity ==> Accepts(cfg, i))
            && (s'.remoteIdentity.Some? ==>
                  s'.remoteIdentity == s.remoteIdentity || cfg.Admits(s'.remoteIdentity.value))
            && (s.state == WaitIdent && s'.state == WaitVersion ==> s'.remoteIdentity.Some?)
            && (s.remoteIdentity.Some? ==> s'.remoteIdentity.Some?)
  {
    hide UnpackMessage;
  }

  /** A session past WaitIdent is authenticated, and knows an identity it admits; one past
      WaitVersion has negotiated. */
  lemma {:induction false} Rights(env: Env, cfg: Config, inputs: seq<Input>)
    ensures var s := After(env, cfg, inputs);
            && (s.state != WaitIdent && Alive(s.state) ==> Authenticated(cfg, inputs))
            && (s.state == WaitCommand || s.state == Running ==> Negotiated(env, cfg, inputs))
            && (s.remoteIdentity.Some? ==> cfg.Admits(s.remoteIdentity.value))
            && (!cfg.allowAll && s.state != WaitIdent && Alive(s.state) ==> s.remoteIdentity.Some?)
  {
    hide Step, Agrees, Accepts, Authenticated, Negotiated;
    if inputs == [] {
      StartRights(cfg);
    } else {
      var n := |inputs| - 1;
      var before, i := inputs[..n], inputs[n];
      var s, s' := After(env, cfg, before), After(env, cfg, inputs);
      Rights(env, cfg, before);
      StepRights(env, cfg, s, i);
      StepForward(env, cfg, s, i);
      if s.state == WaitIdent && Accepts(cfg, i) {
        JustAccepted(cfg, inputs);
      } else if s.state != WaitIdent && Alive(s.state) {
        AuthenticatedLater(cfg, inputs, n);
        if s.state == WaitVersion && Agrees(env, i) {
          JustNegotiated(env, cfg, inputs);
        } else if s.state == WaitCommand || s.state == Running {
          NegotiatedLater(env, cfg, inputs, n);
        }
      }
    }
  }

  lemma StartRights(cfg: Config)
    ensures cfg.allowAll ==> Authenticated(cfg, [])
  {
  }

  lemma JustAccepted(cfg: Config, inputs: seq<Input>)
    requires inputs != [] && Accepts(cfg, inputs[|inputs| - 1])
    ensures Authenticated(cfg, inputs)
  {
  }

  lemma JustNegotiated(env: Env, cfg: Config, inputs: seq<Input>)
    requires inputs != [] && Agrees(env, inputs[|inputs| - 1])
    requires Authenticated(cfg, inputs[..|inputs| - 1])
    ensures Negotiated(env, cfg, inputs)
  {
  }

  // ----- what is started -----

  /** The process a command message may lead to under a configuration: the default
      command when nothing is asked for, otherwise what is asked for, in the form
      configured, and only where remote commands are allowed. */
  ghost predicate Permitted(cfg: Config, cmdline: Argv, argv: Argv) {
    && argv != []
    && (cmdline == [] ==> argv == cfg.defaultCommand)
    && (cmdline != [] ==> cfg.allowRemoteCommand)
    && (cmdline != [] && cfg.remoteCommandAsArgs ==> argv == cfg.defaultCommand + cmdline)
    && (cmdline != [] && !cfg.remoteCommandAsArgs ==> argv == cmdline)
  }

  ghost predicate Requests(env: Env, i: Input, cmdline: Argv) {
    && i.Received?
    && var m := UnpackMessage(env, i.msgtype, i.payload);
       m.Success? && m.value.Execute? && m.value.command.cmdline == cmdline
  }

  lemma StepSpawned(env: Env, cfg: Config, s: Session, i: Input, e: Effect)
    requires e in Step(env, cfg, s, i).1 && e.Spawn?
    ensures s.state == WaitCommand && e.identity == s.remoteIdentity
    ensures exists cmdline :: Requests(env, i, cmdline) && Permitted(cfg, cmdline, e.argv)
  {
    hide UnpackMessage, WhileRunning;
    StepShape(env, cfg, s, i);
    assert Requests(env, i, UnpackMessage(env, i.msgtype, i.payload).value.command.cmdline);
  }

  /** In every run, a process is started only in answer to a command message that came
      after a matching version, itself after an accepted identity unless all are allowed;
      it is a permitted process, and it is told an identity the configuration admits. */
  lemma SpawnIsAuthorized(env: Env, cfg: Config, inputs: seq<Input>, e: Effect)
    requires inputs != [] && e in LastEffects(env, cfg, inputs) && e.Spawn?
    ensures var before, i := inputs[..|inputs| - 1], inputs[|inputs| - 1];
            && Negotiated(env, cfg, before)
            && (exists cmdline :: Requests(env, i, cmdline) && Permitted(cfg, cmdline, e.argv))
            && (e.identity.Some? ==> cfg.Admits(e.identity.value))
            && (!cfg.allowAll ==> e.identity.Some?)
    ensures !cfg.allowRemoteCommand ==> e.argv == cfg.defaultCommand
  {
    hide Step, Negotiated, Requests;
    var before, i := inputs[..|inputs| - 1], inputs[|inputs| - 1];
    StepSpawned(env, cfg, After(env, cfg, before), i, e);
    Rights(env, cfg, before);
  }

  /** And the other way: an admitted identity, then a matching version and a command, each
      packed as a client packs it, start the process the configuration gives the command. */
  lemma HandshakeStarts(env: Env, cfg: Config, id: Identity, version: Message, c: Command, canSpawn: bool)
    requires cfg.Admits(id) && MessageFits(env, version) && MessageFits(env, Execute(c))
    requires version.VersionInfo? && version.protocolVersion == PROTOCOL_VERSION
    requires (cfg.allowRemoteCommand || c.cmdline == []) && ArgvFor(cfg, c.cmdline) != []
    ensures var first := [Identified(id), Received(TypeOf(version), PackMessage(env, version), canSpawn)];
            var inputs := first + [Received(TypeOf(Execute(c)), PackMessage(env, Execute(c)), true)];
            && After(env, cfg, first).state == WaitCommand
            && After(env, cfg, inputs) == Session(Running, Some(id), Some(ArgvFor(cfg, c.cmdline)))
            && Spawn(ArgvFor(cfg, c.cmdline), Some(id)) in LastEffects(env, cfg, inputs)
  {
    hide UnpackMessage, PackMessage, TypeOf, ArgvFor, After;
    MessageRoundTrip(env, version);
    MessageRoundTrip(env, Execute(c));
    var i0 := Identified(id);
    var i1 := Received(TypeOf(version), PackMessage(env, version), canSpawn);
    var i2 := Received(TypeOf(Execute(c)), PackMessage(env, Execute(c)), true);
    AfterNothing(env, cfg);
    AfterOne(env, cfg, [], i0);
    AfterOne(env, cfg, [i0], i1);
    AfterOne(env, cfg, [i0, i1], i2);
    assert [] + [i0] == [i0] && [i0] + [i1] == [i0, i1];
  }

  /** Where all are allowed, version and command alone do, and the process is told no identity. */
  lemma HandshakeUnidentified(env: Env, cfg: Config, version: Message, c: Command, canSpawn: bool)
    requires cfg.allowAll && MessageFits(env, version) && MessageFits(env, Execute(c))
    requires version.VersionInfo? && version.protocolVersion == PROTOCOL_VERSION
    requires (cfg.allowRemoteCommand || c.cmdline == []) && ArgvFor(cfg, c.cmdline) != []
    ensures var first := [Received(TypeOf(version), PackMessage(env, version), canSpawn)];
            var inputs := first + [Received(TypeOf(Execute(c)), PackMessage(env, Execute(c)), true)];
            && SendVersion in LastEffects(env, cfg, first)
            && After(env, cfg, inputs) == Session(Running, None, Some(ArgvFor(cfg, c.cmdline)))
            && Spawn(ArgvFor(cfg, c.cmdline), None) in LastEffects(env, cfg, inputs)
  {
    hide UnpackMessage, PackMessage, TypeOf, ArgvFor, After;
    MessageRoundTrip(env, version);
    MessageRoundTrip(env, Execute(c));
    var i0 := Received(TypeOf(version), PackMessage(env, version), canSpawn);
    var i1 := Received(TypeOf(Execute(c)), PackMessage(env, Execute(c)), true);
    AfterNothing(env, cfg);
    AfterOne(env, cfg, [], i0);
    AfterOne(env, cfg, [i0], i1);
    assert [] + [i0] == [i0];
  }

  lemma AfterNothing(env: Env, cfg: Config)
    ensures After(env, cfg, []) == New(cfg)
  {
  }

  lemma AfterOne(env: Env, cfg: Config, before: seq<Input>, i: Input)
    ensures After(env, cfg, before + [i]) == Step(env, cfg, After(env, cfg, before), i).0
    ensures LastEffects(env, cfg, before + [i]) == Step(env, cfg, After(env, cfg, before), i).1
  {
    hide Step;
    assert (before + [i])[..|before|] == before;
  }

  // ----- ending -----

  /** An identity that is refused closes a session and leaves its process. */
  predicate Refused(cfg: Config, i: Input) {
    i.Identified? && !cfg.Admits(i.id)
  }

  predicate IsMalformed(env: Env, i: Input) {
    i.Received? && UnpackMessage(env, i.msgtype, i.payload).Failure?
  }

  /** A message that a running session does not take. */
  predicate Unexpected(env: Env, i: Input) {
    && i.Received?
    && var m := UnpackMessage(env, i.msgtype, i.payload);
       m.Success? && !m.value.Resize? && !m.value.Noop?
       && !(m.value.StreamData? && m.value.stream.streamId == STREAM_STDIN)
  }

  predicate Ends(i: Input) {
    i.LinkClosed? || i.Exited?
  }

  predicate Undisturbed(env: Env, cfg: Config, i: Input) {
    !Refused(cfg, i) && !IsMalformed(env, i) && !Unexpected(env, i) && !Ends(i)
  }

  /** How a session that has a process answers each input. */
  lemma EndingStep(env: Env, cfg: Config, s: Session, i: Input)
    requires s.process.Some? && Rank(s.state) >= 3
    ensures var (s', es) := Step(env, cfg, s, i);
            && s'.process == s.process
            && (s.state == Removed ==> Terminate !in es)
            && (s.state != Removed ==>
                  (Terminate in es <==>
                     i.LinkClosed? || IsMalformed(env, i) || (s.state == Running && Unexpected(env, i))))
            && (s'.state == Removed <==> s.state == Removed || Ends(i))
            && (s'.state == Running <==> s.state == Running && Undisturbed(env, cfg, i))
  {
    hide UnpackMessage;
  }

  /** The inputs since a process was started, in terms of which it is decided whether it has
      been told to terminate: the link closed or a malformed message came, or a message not
      expected before any refused identity, and the process had not ended by itself. */
  ghost predicate Doomed(env: Env, cfg: Config, since: seq<Input>) {
    exists j :: 0 <= j < |since| && Dooms(env, cfg, since, j)
  }

  ghost predicate Dooms(env: Env, cfg: Config, since: seq<Input>, j: nat)
    requires j < |since|
  {
    && (forall l :: 0 <= l < j ==> !since[l].Exited?)
    && (|| since[j].LinkClosed?
        || IsMalformed(env, since[j])
        || (Unexpected(env, since[j]) && forall l :: 0 <= l < j ==> !Refused(cfg, since[l])))
  }

  function From(env: Env, cfg: Config, s: Session, inputs: seq<Input>): Session {
    if inputs == [] then s
    else Step(env, cfg, From(env, cfg, s, inputs[..|inputs| - 1]), inputs[|inputs| - 1]).0
  }

  /** Whether some input so far was answered by terminating the process. */
  function Terminated(env: Env, cfg: Config, s: Session, inputs: seq<Input>): bool {
    inputs != []
    && (|| Terminated(env, cfg, s, inputs[..|inputs| - 1])
        || Terminate in Step(env, cfg, From(env, cfg, s, inputs[..|inputs| - 1]), inputs[|inputs| - 1]).1)
  }

  /** Where a session stands that was Running before these inputs. */
  ghost predicate Stands(env: Env, cfg: Config, s: Session, inputs: seq<Input>) {
    var s' := From(env, cfg, s, inputs);
    && s'.process.Some? && Rank(s'.state) >= 3
    && (s'.state == Removed <==> SomeEnds(inputs))
    && (s'.state == Running <==> AllUndisturbed(env, cfg, inputs))
  }

  ghost predicate SomeEnds(inputs: seq<Input>) {
    exists l :: 0 <= l < |inputs| && Ends(inputs[l])
  }

  ghost predicate AllUndisturbed(env: Env, cfg: Config, inputs: seq<Input>) {
    forall l :: 0 <= l < |inputs| ==> Undisturbed(env, cfg, inputs[l])
  }

  lemma OneMore(env: Env, cfg: Config, inputs: seq<Input>, n: nat)
    requires n + 1 == |inputs|
    ensures SomeEnds(inputs) <==> SomeEnds(inputs[..n]) || Ends(inputs[n])
    ensures AllUndisturbed(env, cfg, inputs) <==>
              AllUndisturbed(env, cfg, inputs[..n]) && Undisturbed(env, cfg, inputs[n])
  {
    hide Ends, Undisturbed;
    var before := inputs[..n];
    assert forall l :: 0 <= l < n ==> before[l] == inputs[l];
    if l :| 0 <= l < |before| && Ends(before[l]) {
      assert Ends(inputs[l]);
    }
    if AllUndisturbed(env, cfg, before) && Undisturbed(env, cfg, inputs[n]) {
      forall l | 0 <= l < |inputs|
        ensures Undisturbed(env, cfg, inputs[l])
      {
        if l < n {
          assert Undisturbed(env, cfg, before[l]);
        }
      }
    }
  }

  lemma {:induction false} RunStands(env: Env, cfg: Config, s: Session, inputs: seq<Input>)
    requires s.state == Running && s.process.Some?
    ensures Stands(env, cfg, s, inputs)
  {
    hide Step, Ends, Undisturbed, IsMalformed, Unexpected, SomeEnds, AllUndisturbed;
    if inputs == [] {
      Nothing(env, cfg);
    } else {
      var n := |inputs| - 1;
      RunStands(env, cfg, s, inputs[..n]);
      StepForward(env, cfg, From(env, cfg, s, inputs[..n]), inputs[n]);
      EndingStep(env, cfg, From(env, cfg, s, inputs[..n]), inputs[n]);
      OneMore(env, cfg, inputs, n);
    }
  }

  lemma Nothing(env: Env, cfg: Config)
    ensures !SomeEnds([]) && AllUndisturbed(env, cfg, [])
  {
  }

  lemma DoomedLater(env: Env, cfg: Config, inputs: seq<Input>, n: nat)
    requires n + 1 == |inputs|
    ensures Doomed(env, cfg, inputs) <==> Doomed(env, cfg, inputs[..n]) || Dooms(env, cfg, inputs, n)
  {
    hide IsMalformed, Unexpected, Refused;
    var before := inputs[..n];
    if j :| 0 <= j < |before| && Dooms(env, cfg, before, j) {
      assert Dooms(env, cfg, inputs, j);
    }
    if j :| 0 <= j < |inputs| && Dooms(env, cfg, inputs, j) {
      if j < n {
        assert Dooms(env, cfg, before, j);
      }
    }
  }

  /** The last input dooms the process exactly when it is answered by terminating it, unless
      it was doomed already. */
  lemma LastDooms(env: Env, cfg: Config, s: Session, inputs: seq<Input>, n: nat)
    requires s.state == Running && s.process.Some? && n + 1 == |inputs|
    requires Stands(env, cfg, s, inputs[..n]) && !Doomed(env, cfg, inputs[..n])
    ensures Dooms(env, cfg, inputs, n) <==> Terminate in Step(env, cfg, From(env, cfg, s, inputs[..n]), inputs[n]).1
  {
    hide Step, From, IsMalformed, Unexpected, Refused, SomeEnds, AllUndisturbed;
    var before, i, s' := inputs[..n], inputs[n], From(env, cfg, s, inputs[..n]);
    EndingStep(env, cfg, s', i);
    assert forall l :: 0 <= l < n ==> before[l] == inputs[l];
    EndedByProcess(env, cfg, before);
    if forall l :: 0 <= l < n ==> !before[l].Exited? {
      ClosedByRefusal(env, cfg, before);
    }
  }

  /** Not doomed, an ended session ended because its process did. */
  lemma EndedByProcess(env: Env, cfg: Config, inputs: seq<Input>)
    requires !Doomed(env, cfg, inputs)
    ensures SomeEnds(inputs) <==> exists l :: 0 <= l < |inputs| && inputs[l].Exited?
  {
    hide IsMalformed, Unexpected, Refused;
    if l :| 0 <= l < |inputs| && inputs[l].LinkClosed? {
      assert !Dooms(env, cfg, inputs, l);
    }
    if l :| 0 <= l < |inputs| && inputs[l].Exited? {
      assert Ends(inputs[l]);
    }
  }

  /** Not doomed and not ended, a closed session was closed by a refused identity. */
  lemma ClosedByRefusal(env: Env, cfg: Config, inputs: seq<Input>)
    requires !Doomed(env, cfg, inputs) && forall l :: 0 <= l < |inputs| ==> !inputs[l].Exited?
    ensures AllUndisturbed(env, cfg, inputs) <==> forall l :: 0 <= l < |inputs| ==> !Refused(cfg, inputs[l])
  {
    hide IsMalformed, Unexpected, Refused;
    if AllUndisturbed(env, cfg, inputs) {
      assert forall l :: 0 <= l < |inputs| ==> Undisturbed(env, cfg, inputs[l]);
    }
    if forall l :: 0 <= l < |inputs| ==> !Refused(cfg, inputs[l]) {
      forall l | 0 <= l < |inputs|
        ensures Undisturbed(env, cfg, inputs[l])
      {
        assert !Dooms(env, cfg, inputs, l);
      }
    }
  }

  /** Over every run since a process was started: it has been told to terminate exactly when
      the inputs doom it. */
  lemma {:induction false} TerminatedIff(env: Env, cfg: Config, s: Session, inputs: seq<Input>)
    requires s.state == Running && s.process.Some?
    ensures Terminated(env, cfg, s, inputs) <==> Doomed(env, cfg, inputs)
  {
    hide Step, Stands, Doomed, Dooms;
    if inputs == [] {
      NotDoomedYet(env, cfg);
    } else {
      var n := |inputs| - 1;
      TerminatedIff(env, cfg, s, inputs[..n]);
      DoomedLater(env, cfg, inputs, n);
      RunStands(env, cfg, s, inputs[..n]);
      if !Doomed(env, cfg, inputs[..n]) {
        LastDooms(env, cfg, s, inputs, n);
      }
    }
  }

  lemma NotDoomedYet(env: Env, cfg: Config)
    ensures !Doomed(env, cfg, [])
  {
  }

  /** A run from the start splits where its process was started. */
  lemma {:induction false} AfterSplit(env: Env, cfg: Config, a: seq<Input>, b: seq<Input>)
    ensures After(env, cfg, a + b) == From(env, cfg, After(env, cfg, a), b)
  {
    hide Step;
    if b == [] {
      assert a + b == a;
    } else {
      AfterSplit(env, cfg, a, b[..|b| - 1]);
      assert (a + b)[..|a + b| - 1] == a + b[..|b| - 1];
    }
  }

  /** Whether some input of a run was answered by terminating the process. */
  function EverTerminated(env: Env, cfg: Config, inputs: seq<Input>): bool {
    inputs != []
    && (EverTerminated(env, cfg, inputs[..|inputs| - 1]) || Terminate in LastEffects(env, cfg, inputs))
  }

  lemma {:induction false} TerminatedSplit(env: Env, cfg: Config, a: seq<Input>, b: seq<Input>)
    ensures EverTerminated(env, cfg, a + b) <==>
              EverTerminated(env, cfg, a) || Terminated(env, cfg, After(env, cfg, a), b)
  {
    hide Step, After;
    if b == [] {
      assert a + b == a;
    } else {
      var before := b[..|b| - 1];
      TerminatedSplit(env, cfg, a, before);
      AfterSplit(env, cfg, a, before);
      assert (a + b)[..|a + b| - 1] == a + before;
    }
  }

  lemma NoProcessNoTerminate(env: Env, cfg: Config, s: Session, i: Input)
    requires s.process.None?
    ensures Terminate !in Step(env, cfg, s, i).1
  {
    hide UnpackMessage;
  }

  lemma {:induction false} NotTerminatedYet(env: Env, cfg: Config, inputs: seq<Input>)
    requires inputs != [] ==> After(env, cfg, inputs[..|inputs| - 1]).process.None?
    ensures !EverTerminated(env, cfg, inputs)
  {
    hide Step, After;
    if inputs != [] {
      var before := inputs[..|inputs| - 1];
      NoProcessNoTerminate(env, cfg, After(env, cfg, before), inputs[|inputs| - 1]);
      if before != [] {
        ProcessStays(env, cfg, before);
      }
      NotTerminatedYet(env, cfg, before);
    }
  }

  lemma ProcessStays(env: Env, cfg: Config, inputs: seq<Input>)
    requires inputs != [] && After(env, cfg, inputs).process.None?
    ensures After(env, cfg, inputs[..|inputs| - 1]).process.None?
  {
    hide Step;
    var before, i := inputs[..|inputs| - 1], inputs[|inputs| - 1];
    StepSpawns(env, cfg, After(env, cfg, before), i);
  }

  /** The process was started by input k - 1. */
  predicate StartedAt(env: Env, cfg: Config, inputs: seq<Input>, k: nat) {
    && 0 < k <= |inputs|
    && After(env, cfg, inputs[..k - 1]).state != Running
    && After(env, cfg, inputs[..k]).state == Running
  }

  /** In every run, the process started has been told to terminate exactly when the inputs
      since then doom it. */
  lemma TerminatedExactly(env: Env, cfg: Config, inputs: seq<Input>, k: nat)
    requires StartedAt(env, cfg, inputs, k)
    ensures EverTerminated(env, cfg, inputs) <==> Doomed(env, cfg, inputs[k..])
  {
    hide Step, After, EverTerminated, Terminated, Doomed;
    var a, b := inputs[..k], inputs[k..];
    assert a + b == inputs && a[..k - 1] == inputs[..k - 1] && a[..k] == a;
    TerminatedSplit(env, cfg, a, b);
    AtMostOneProcess(env, cfg, a);
    AtMostOneProcess(env, cfg, a[..k - 1]);
    StartsFromNone(env, cfg, a);
    NotTerminatedYet(env, cfg, a);
    TerminatedIff(env, cfg, After(env, cfg, a), b);
  }

  lemma StartsFromNone(env: Env, cfg: Config, inputs: seq<Input>)
    requires StartedAt(env, cfg, inputs, |inputs|)
    ensures After(env, cfg, inputs[..|inputs| - 1]).process.None?
  {
    hide Step, Started;
    var before, i := inputs[..|inputs| - 1], inputs[|inputs| - 1];
    assert inputs[..|inputs|] == inputs;
    StepSpawns(env, cfg, After(env, cfg, before), i);
    AtMostOneProcess(env, cfg, before);
  }

  lemma {:induction false} SomeStart(env: Env, cfg: Config, inputs: seq<Input>)
    requires After(env, cfg, inputs).process.Some?
    ensures exists k: nat :: StartedAt(env, cfg, inputs, k)
  {
    hide Step;
    if inputs != [] {
      var before, i := inputs[..|inputs| - 1], inputs[|inputs| - 1];
      StepSpawns(env, cfg, After(env, cfg, before), i);
      if After(env, cfg, before).process.Some? {
        SomeStart(env, cfg, before);
        var k: nat :| StartedAt(env, cfg, before, k);
        assert before[..k] == inputs[..k] && before[..k - 1] == inputs[..k - 1];
        assert StartedAt(env, cfg, inputs, k);
      } else {
        assert inputs[..|inputs|] == inputs;
        assert StartedAt(env, cfg, inputs, |inputs|);
      }
    }
  }

  /** Every run that started a process and ends with its link has terminated the process,
      unless it ended by itself. */
  lemma NoneLeftBehind(env: Env, cfg: Config, inputs: seq<Input>)
    requires Started(env, cfg, inputs + [LinkClosed]) > 0
    requires forall l :: 0 <= l < |inputs| ==> !inputs[l].Exited?
    ensures EverTerminated(env, cfg, inputs + [LinkClosed])
  {
    hide After, Started, EverTerminated, IsMalformed, Unexpected, Refused;
    var all := inputs + [LinkClosed];
    AtMostOneProcess(env, cfg, all);
    SomeStart(env, cfg, all);
    var k: nat :| StartedAt(env, cfg, all, k);
    NotByClosing(env, cfg, inputs, k);
    var since := all[k..];
    assert Dooms(env, cfg, since, |since| - 1);
    TerminatedExactly(env, cfg, all, k);
  }

  lemma NotByClosing(env: Env, cfg: Config, inputs: seq<Input>, k: nat)
    requires StartedAt(env, cfg, inputs + [LinkClosed], k)
    ensures k <= |inputs|
  {
    AfterOne(env, cfg, inputs, LinkClosed);
    assert (inputs + [LinkClosed])[..|inputs| + 1] == inputs + [LinkClosed];
  }

  /** Until the link closes it may be left: after a handshake and then an identity that is
      refused, the session is closed and its process has not been told to terminate. */
  lemma RefusalLeavesProcess(env: Env, cfg: Config, id: Identity, other: Identity, version: Message, c: Command)
    requires cfg.Admits(id) && !cfg.Admits(other) && MessageFits(env, version) && MessageFits(env, Execute(c))
    requires version.VersionInfo? && version.protocolVersion == PROTOCOL_VERSION
    requires (cfg.allowRemoteCommand || c.cmdline == []) && ArgvFor(cfg, c.cmdline) != []
    ensures var first := [Identified(id), Received(TypeOf(version), PackMessage(env, version), true)];
            var started := first + [Received(TypeOf(Execute(c)), PackMessage(env, Execute(c)), true)];
            var s := After(env, cfg, started + [Identified(other)]);
            && s.state == Closed && s.process == Some(ArgvFor(cfg, c.cmdline))
            && !EverTerminated(env, cfg, started + [Identified(other)])
  {
    hide UnpackMessage, PackMessage, TypeOf, ArgvFor, After, EverTerminated;
    HandshakeStarts(env, cfg, id, version, c, true);
    var first := [Identified(id), Received(TypeOf(version), PackMessage(env, version), true)];
    var started := first + [Received(TypeOf(Execute(c)), PackMessage(env, Execute(c)), true)];
    AfterOne(env, cfg, started, Identified(other));
    assert started[..|started| - 1] == first;
    HandshakePoint(env, cfg, started, Identified(other));
    TerminatedExactly(env, cfg, started + [Identified(other)], |started|);
    assert (started + [Identified(other)])[|started|..] == [Identified(other)];
  }

  lemma HandshakePoint(env: Env, cfg: Config, started: seq<Input>, i: Input)
    requires started != [] && After(env, cfg, started).state == Running
    requires After(env, cfg, started[..|started| - 1]).state == WaitCommand
    ensures StartedAt(env, cfg, started + [i], |started|)
  {
    hide After;
    assert (started + [i])[..|started|] == started;
    assert (started + [i])[..|started| - 1] == started[..|started| - 1];
  }
}
