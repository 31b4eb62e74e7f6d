/** Where a listener session stands and what it answers, said of the inputs alone: the states
    are the words of a small language, and every answer comes exactly when it should. */
module RnshAnswers {
  import opened Options
  import opened RnshMessages
  import opened RnshSession

  // ----- the words -----

  ghost predicate AllReceived(inputs: seq<Input>) {
    forall l :: 0 <= l < |inputs| ==> inputs[l].Received?
  }

  ghost predicate AllAccepted(cfg: Config, inputs: seq<Input>) {
    forall l :: 0 <= l < |inputs| ==> Accepts(cfg, inputs[l])
  }

  /** Nothing but messages, which go unheard. */
  ghost predicate Unheard(cfg: Config, inputs: seq<Input>) {
    !cfg.allowAll && AllReceived(inputs)
  }

  /** Up to the first identity, which must be one admitted; where all are allowed, nothing. */
  ghost predicate First(cfg: Config, inputs: seq<Input>) {
    if cfg.allowAll then inputs == []
    else inputs != [] && AllReceived(inputs[..|inputs| - 1]) && Accepts(cfg, inputs[|inputs| - 1])
  }

  ghost predicate Introduced(cfg: Config, inputs: seq<Input>) {
    exists m :: 0 <= m <= |inputs| && First(cfg, inputs[..m]) && AllAccepted(cfg, inputs[m..])
  }

  /** Then a version that agrees. */
  ghost predicate Greeted(env: Env, cfg: Config, inputs: seq<Input>) {
    exists j :: 0 <= j < |inputs| && GreetedAt(env, cfg, inputs, j)
  }

  ghost predicate GreetedAt(env: Env, cfg: Config, inputs: seq<Input>, j: nat)
    requires j < |inputs|
  {
    Introduced(cfg, inputs[..j]) && Agrees(env, inputs[j]) && AllAccepted(cfg, inputs[j + 1..])
  }

  /** A command message that leads to a process, this one. */
  ghost predicate Launches(env: Env, cfg: Config, i: Input, argv: Argv) {
    && i.Received? && i.canSpawn
    && var m := UnpackMessage(env, i.msgtype, i.payload);
       m.Success? && m.value.Execute? && Permitted(cfg, m.value.command.cmdline, argv)
  }

  ghost predicate LaunchesSome(env: Env, cfg: Config, i: Input) {
    exists argv :: Launches(env, cfg, i, argv)
  }

  /** Then a command, and nothing since that ends or closes the session. */
  ghost predicate Launched(env: Env, cfg: Config, inputs: seq<Input>) {
    exists k :: 0 <= k < |inputs| && LaunchedAt(env, cfg, inputs, k)
  }

  ghost predicate LaunchedAt(env: Env, cfg: Config, inputs: seq<Input>, k: nat)
    requires k < |inputs|
  {
    Greeted(env, cfg, inputs[..k]) && LaunchesSome(env, cfg, inputs[k]) && AllUndisturbed(env, cfg, inputs[k + 1..])
  }

  // ----- one more input -----

  lemma AcceptedMore(cfg: Config, inputs: seq<Input>, m: nat)
    requires m < |inputs|
    ensures AllAccepted(cfg, inputs[m..]) <==>
              AllAccepted(cfg, inputs[..|inputs| - 1][m..]) && Accepts(cfg, inputs[|inputs| - 1])
  {
    var n := |inputs| - 1;
    var all, before := inputs[m..], inputs[..n][m..];
    assert all == before + [inputs[n]];
    assert all[n - m] == inputs[n];
    assert forall l :: 0 <= l < n - m ==> all[l] == before[l];
  }

  lemma IntroducedMore(cfg: Config, inputs: seq<Input>)
    requires inputs != []
    ensures var n := |inputs| - 1;
            Introduced(cfg, inputs) <==>
              First(cfg, inputs) || (Introduced(cfg, inputs[..n]) && Accepts(cfg, inputs[n]))
  {
    hide First, AllAccepted, Accepts;
    var n := |inputs| - 1;
    var before := inputs[..n];
    if m :| 0 <= m <= |inputs| && First(cfg, inputs[..m]) && AllAccepted(cfg, inputs[m..]) {
      if m <= n {
        AcceptedMore(cfg, inputs, m);
        assert before[..m] == inputs[..m];
      } else {
        assert inputs[..m] == inputs;
      }
    }
    if First(cfg, inputs) {
      assert inputs[..|inputs|] == inputs;
      NoneAccepted(cfg, inputs);
    }
    if Introduced(cfg, before) && Accepts(cfg, inputs[n]) {
      var m :| 0 <= m <= |before| && First(cfg, before[..m]) && AllAccepted(cfg, before[m..]);
      AcceptedMore(cfg, inputs, m);
      assert before[..m] == inputs[..m];
    }
  }

  lemma NoneAccepted(cfg: Config, inputs: seq<Input>)
    ensures AllAccepted(cfg, inputs[|inputs|..])
  {
  }

  lemma GreetedMore(env: Env, cfg: Config, inputs: seq<Input>)
    requires inputs != []
    ensures var n := |inputs| - 1;
            Greeted(env, cfg, inputs) <==>
              || (Introduced(cfg, inputs[..n]) && Agrees(env, inputs[n]))
              || (Greeted(env, cfg, inputs[..n]) && Accepts(cfg, inputs[n]))
  {
    hide Introduced, Agrees, AllAccepted, Accepts;
    var n := |inputs| - 1;
    var before := inputs[..n];
    forall j | 0 <= j < n
      ensures GreetedAt(env, cfg, inputs, j) <==> GreetedAt(env, cfg, before, j) && Accepts(cfg, inputs[n])
    {
      AcceptedMore(cfg, inputs, j + 1);
      assert before[..j] == inputs[..j];
    }
    NoneAccepted(cfg, inputs);
    assert GreetedAt(env, cfg, inputs, n) <==> Introduced(cfg, before) && Agrees(env, inputs[n]);
  }

  lemma UndisturbedMore(env: Env, cfg: Config, inputs: seq<Input>, m: nat)
    requires m < |inputs|
    ensures AllUndisturbed(env, cfg, inputs[m..]) <==>
              AllUndisturbed(env, cfg, inputs[..|inputs| - 1][m..]) && Undisturbed(env, cfg, inputs[|inputs| - 1])
  {
    hide Undisturbed, AllUndisturbed, SomeEnds;
    var n := |inputs| - 1;
    OneMore(env, cfg, inputs[m..], n - m);
    assert inputs[m..][..n - m] == inputs[..n][m..];
  }

  lemma LaunchedMore(env: Env, cfg: Config, inputs: seq<Input>)
    requires inputs != []
    ensures var n := |inputs| - 1;
            Launched(env, cfg, inputs) <==>
              || (Greeted(env, cfg, inputs[..n]) && LaunchesSome(env, cfg, inputs[n]))
              || (Launched(env, cfg, inputs[..n]) && Undisturbed(env, cfg, inputs[n]))
  {
    hide Greeted, LaunchesSome, AllUndisturbed, Undisturbed;
    var n := |inputs| - 1;
    var before := inputs[..n];
    forall k | 0 <= k < n
      ensures LaunchedAt(env, cfg, inputs, k) <==>
                LaunchedAt(env, cfg, before, k) && Undisturbed(env, cfg, inputs[n])
    {
      UndisturbedMore(env, cfg, inputs, k + 1);
      assert before[..k] == inputs[..k];
    }
    Settled(env, cfg, inputs);
    assert LaunchedAt(env, cfg, inputs, n) <==> Greeted(env, cfg, before) && LaunchesSome(env, cfg, inputs[n]);
  }

  lemma Settled(env: Env, cfg: Config, inputs: seq<Input>)
    ensures AllUndisturbed(env, cfg, inputs[|inputs|..])
  {
  }

  lemma FirstMore(cfg: Config, inputs: seq<Input>)
    requires inputs != []
    ensures var n := |inputs| - 1;
            && (Unheard(cfg, inputs) <==> Unheard(cfg, inputs[..n]) && inputs[n].Received?)
            && (First(cfg, inputs) <==> Unheard(cfg, inputs[..n]) && Accepts(cfg, inputs[n]))
  {
    hide Accepts;
    var n := |inputs| - 1;
    assert forall l :: 0 <= l < n ==> inputs[..n][l] == inputs[l];
  }

  // ----- the states are the words -----

  /** What takes a session to each state. */
  lemma StepStates(env: Env, cfg: Config, s: Session, i: Input)
    ensures var s' := Step(env, cfg, s, i).0;
            && (s'.state == WaitIdent <==> s.state == WaitIdent && i.Received?)
            && (s'.state == WaitVersion <==> (s.state == WaitIdent || s.state == WaitVersion) && Accepts(cfg, i))
            && (s'.state == WaitCommand <==>
                  (s.state == WaitVersion && Agrees(env, i)) || (s.state == WaitCommand && Accepts(cfg, i)))
            && (s'.state == Running <==>
                  || (s.state == WaitCommand && LaunchesSome(env, cfg, i))
                  || (s.state == Running && Undisturbed(env, cfg, i)))
            && (s'.state == Removed <==> s.state == Removed || Ends(i))
  {
    hide UnpackMessage, LaunchesSome;
    if LaunchesSome(env, cfg, i) {
      SomeLaunch(env, cfg, i);
    }
    if s.state == WaitCommand && i.Received? {
      LaunchStep(env, cfg, s, i);
    }
  }

  lemma LaunchStep(env: Env, cfg: Config, s: Session, i: Input)
    requires s.state == WaitCommand && i.Received?
    ensures Step(env, cfg, s, i).0.state == Running <==> LaunchesSome(env, cfg, i)
  {
    hide UnpackMessage;
    var m := UnpackMessage(env, i.msgtype, i.payload);
    if m.Success? && m.value.Execute? {
      var argv := ArgvFor(cfg, m.value.command.cmdline);
      assert LaunchesSome(env, cfg, i) <==> Launches(env, cfg, i, argv);
    }
  }

  /** The state after every run, from its inputs alone. */
  lemma {:induction false} StateIs(env: Env, cfg: Config, inputs: seq<Input>)
    ensures var s := After(env, cfg, inputs);
            && (s.state == WaitIdent <==> Unheard(cfg, inputs))
            && (s.state == WaitVersion <==> Introduced(cfg, inputs))
            && (s.state == WaitCommand <==> Greeted(env, cfg, inputs))
            && (s.state == Running <==> Launched(env, cfg, inputs))
            && (s.state == Removed <==> SomeEnds(inputs))
  {
    hide Step, Unheard, First, Introduced, Greeted, Launched, LaunchesSome, Accepts, Agrees;
    hide Undisturbed, AllUndisturbed, SomeEnds, Ends;
    if inputs == [] {
      Empty(env, cfg);
    } else {
      var n := |inputs| - 1;
      StateIs(env, cfg, inputs[..n]);
      StepStates(env, cfg, After(env, cfg, inputs[..n]), inputs[n]);
      FirstMore(cfg, inputs);
      IntroducedMore(cfg, inputs);
      GreetedMore(env, cfg, inputs);
      LaunchedMore(env, cfg, inputs);
      OneMore(env, cfg, inputs, n);
    }
  }

  lemma Empty(env: Env, cfg: Config)
    ensures Unheard(cfg, []) <==> !cfg.allowAll
    ensures Introduced(cfg, []) <==> cfg.allowAll
    ensures !Greeted(env, cfg, []) && !Launched(env, cfg, []) && !SomeEnds([])
  {
    var none: seq<Input> := [];
    assert none[..0] == none[0..] == [];
  }

  /** The identity last admitted. */
  function LastAdmitted(cfg: Config, inputs: seq<Input>): Option<Identity> {
    if inputs == [] then None
    else if Accepts(cfg, inputs[|inputs| - 1]) then Some(inputs[|inputs| - 1].id)
    else LastAdmitted(cfg, inputs[..|inputs| - 1])
  }

  lemma StepIdentity(env: Env, cfg: Config, s: Session, i: Input)
    requires s.state != Removed
    ensures Step(env, cfg, s, i).0.remoteIdentity == if Accepts(cfg, i) then Some(i.id) else s.remoteIdentity
  {
    hide UnpackMessage;
  }

  lemma {:induction false} IdentityIs(env: Env, cfg: Config, inputs: seq<Input>)
    requires After(env, cfg, inputs).state != Removed
    ensures After(env, cfg, inputs).remoteIdentity == LastAdmitted(cfg, inputs)
  {
    hide Step, Accepts;
    if inputs != [] {
      var n := |inputs| - 1;
      StepStates(env, cfg, After(env, cfg, inputs[..n]), inputs[n]);
      IdentityIs(env, cfg, inputs[..n]);
      StepIdentity(env, cfg, After(env, cfg, inputs[..n]), inputs[n]);
    }
  }

  // ----- the answers -----

  ghost predicate Says(env: Env, i: Input, m: Message) {
    i.Received? && UnpackMessage(env, i.msgtype, i.payload) == Success(m)
  }

  /** A message that says something other than what the session waits for. */
  ghost predicate OtherThan(env: Env, i: Input, wanted: Message -> bool) {
    && i.Received?
    && var m := UnpackMessage(env, i.msgtype, i.payload);
       m.Success? && !wanted(m.value)
  }

  lemma StepAnswers(env: Env, cfg: Config, s: Session, i: Input)
    ensures var es := Step(env, cfg, s, i).1;
            && (SendVersion in es <==> s.state == WaitVersion && Agrees(env, i))
            && (SendNoop in es <==> s.state == Running && Says(env, i, Noop))
            && (SendEof in es <==> i.Exited?)
            && (forall code :: SendExited(code) in es <==> i == Exited(code))
            && (i.Exited? ==> es == [SendEof, SendExited(i.code)])
  {
    hide UnpackMessage;
  }

  lemma StepSpawn(env: Env, cfg: Config, s: Session, i: Input, argv: Argv, id: Option<Identity>)
    ensures Spawn(argv, id) in Step(env, cfg, s, i).1 <==>
              s.state == WaitCommand && Launches(env, cfg, i, argv) && id == s.remoteIdentity
  {
    hide UnpackMessage, WhileRunning;
    StepShape(env, cfg, s, i);
  }

  lemma StepWinsize(env: Env, cfg: Config, s: Session, i: Input, z: WindowSize)
    requires s.state == Running ==> s.process.Some?
    ensures SetWinsize(z) in Step(env, cfg, s, i).1 <==>
              || (s.state == Running && Says(env, i, Resize(z)))
              || (s.state == WaitCommand && LaunchesSome(env, cfg, i)
                  && UnpackMessage(env, i.msgtype, i.payload).value.command.size == z)
  {
    hide UnpackMessage, LaunchesSome;
    if s.state == WaitCommand && i.Received? {
      LaunchStep(env, cfg, s, i);
    }
    if LaunchesSome(env, cfg, i) {
      SomeLaunch(env, cfg, i);
    }
  }

  lemma SomeLaunch(env: Env, cfg: Config, i: Input)
    requires LaunchesSome(env, cfg, i)
    ensures i.Received?
    ensures var m := UnpackMessage(env, i.msgtype, i.payload); m.Success? && m.value.Execute?
  {
    hide UnpackMessage;
  }

  /** In every run: the version is answered exactly when a matching one comes after an
      introduction, a noop exactly while the process runs, and the end of the process exactly
      when it ends. */
  lemma Answers(env: Env, cfg: Config, before: seq<Input>, i: Input)
    ensures var es := LastEffects(env, cfg, before + [i]);
            && (SendVersion in es <==> Introduced(cfg, before) && Agrees(env, i))
            && (SendNoop in es <==> Launched(env, cfg, before) && Says(env, i, Noop))
            && (SendEof in es <==> i.Exited?)
            && (forall code :: SendExited(code) in es <==> i == Exited(code))
            && (i.Exited? ==> es == [SendEof, SendExited(i.code)])
  {
    hide Step, After, Introduced, Launched, Greeted, Unheard, SomeEnds, Agrees, Says;
    AfterOne(env, cfg, before, i);
    StateIs(env, cfg, before);
    StepAnswers(env, cfg, After(env, cfg, before), i);
  }

  /** In every run: a process is started exactly by a permitted command after the greeting,
      with the identity last admitted, and its window is set then and at every resize. */
  lemma Starts(env: Env, cfg: Config, before: seq<Input>, i: Input, argv: Argv, id: Option<Identity>, z: WindowSize)
    ensures var es := LastEffects(env, cfg, before + [i]);
            && (Spawn(argv, id) in es <==>
                  Greeted(env, cfg, before) && Launches(env, cfg, i, argv) && id == LastAdmitted(cfg, before))
            && (SetWinsize(z) in es <==>
                  || (Launched(env, cfg, before) && Says(env, i, Resize(z)))
                  || (Greeted(env, cfg, before) && LaunchesSome(env, cfg, i)
                      && UnpackMessage(env, i.msgtype, i.payload).value.command.size == z))
  {
    hide Step, After, Introduced, Launched, Greeted, Unheard, SomeEnds, Launches, LaunchesSome, UnpackMessage, Says;
    AfterOne(env, cfg, before, i);
    StateIs(env, cfg, before);
    var s := After(env, cfg, before);
    AtMostOneProcess(env, cfg, before);
    StepSpawn(env, cfg, s, i, argv, id);
    StepWinsize(env, cfg, s, i, z);
    if s.state != Removed {
      IdentityIs(env, cfg, before);
    }
    if LaunchesSome(env, cfg, i) {
      SomeLaunch(env, cfg, i);
    }
  }

  /** Who is let in: any identity where all are allowed, and otherwise those on the list. */
  lemma LetIn(env: Env, cfg: Config, before: seq<Input>, id: Identity)
    requires Unheard(cfg, before)
    ensures After(env, cfg, before + [Identified(id)]).state == if id in cfg.allowed then WaitVersion else Closed
  {
    hide Step, After, Introduced, Launched, Greeted, SomeEnds;
    AfterOne(env, cfg, before, Identified(id));
    StateIs(env, cfg, before);
    ListDecides(env, cfg, After(env, cfg, before), id);
  }

  lemma ListDecides(env: Env, cfg: Config, s: Session, id: Identity)
    ensures s.state == WaitIdent && !cfg.allowAll ==>
              Step(env, cfg, s, Identified(id)).0.state == if id in cfg.allowed then WaitVersion else Closed
    ensures cfg.allowAll ==> Step(env, cfg, s, Identified(id)).1 == []
  {
  }

  lemma AllLetIn(env: Env, cfg: Config, before: seq<Input>, id: Identity)
    requires cfg.allowAll
    ensures LastEffects(env, cfg, before + [Identified(id)]) == []
  {
    hide Step, After;
    AfterOne(env, cfg, before, Identified(id));
    ListDecides(env, cfg, After(env, cfg, before), id);
  }

  // ----- refusals -----

  /** Heard: some identity was admitted, or all are, and the session is still there. */
  ghost predicate Heard(cfg: Config, inputs: seq<Input>) {
    !Unheard(cfg, inputs) && !SomeEnds(inputs)
  }

  lemma StepRefuses(env: Env, cfg: Config, s: Session, i: Input)
    ensures var es := Step(env, cfg, s, i).1;
            && (Refuse(IdentityNotAllowed) in es <==> s.state != Removed && Refused(cfg, i))
            && (Refuse(UnexpectedWhileRunning) in es <==> s.state == Running && Unexpected(env, i))
  {
    hide UnpackMessage;
  }

  lemma StepRefusesOther(env: Env, cfg: Config, s: Session, i: Input)
    ensures var es := Step(env, cfg, s, i).1;
            && (Refuse(ExpectedVersion) in es <==>
                  s.state == WaitVersion && OtherThan(env, i, (m: Message) => m.VersionInfo?))
            && (Refuse(IncompatibleProtocol) in es <==>
                  && s.state == WaitVersion && !Agrees(env, i) && !IsMalformed(env, i) && i.Received?
                  && !OtherThan(env, i, (m: Message) => m.VersionInfo?))
            && (Refuse(ExpectedExecute) in es <==>
                  s.state == WaitCommand && OtherThan(env, i, (m: Message) => m.Execute?))
  {
    hide UnpackMessage;
  }

  lemma StepMalformed(env: Env, cfg: Config, s: Session, i: Input, e: MessageError)
    ensures Refuse(Malformed(e)) in Step(env, cfg, s, i).1 <==>
              && s.state != WaitIdent && s.state != Removed && i.Received?
              && UnpackMessage(env, i.msgtype, i.payload) == Failure(e)
  {
    hide UnpackMessage;
  }

  lemma StepCannotStart(env: Env, cfg: Config, s: Session, i: Input)
    ensures var es := Step(env, cfg, s, i).1;
            && (Refuse(CannotStart) in es <==> s.state == WaitCommand && Commands(env, i) && !LaunchesSome(env, cfg, i))
            && (Refuse(RemoteCommandNotAllowed) in es <==>
                  && s.state == WaitCommand && Commands(env, i)
                  && exists cmdline :: Requests(env, i, cmdline) && cmdline != [] && !cfg.allowRemoteCommand)
  {
    hide UnpackMessage, LaunchesSome;
    if s.state == WaitCommand && i.Received? {
      LaunchStep(env, cfg, s, i);
    }
    if Commands(env, i) {
      assert Requests(env, i, UnpackMessage(env, i.msgtype, i.payload).value.command.cmdline);
    }
  }

  ghost predicate Commands(env: Env, i: Input) {
    i.Received? && var m := UnpackMessage(env, i.msgtype, i.payload); m.Success? && m.value.Execute?
  }

  /** In every run, the reason the peer is given is that of the first thing wrong. */
  lemma Refusals(env: Env, cfg: Config, before: seq<Input>, i: Input, e: MessageError)
    ensures var es := LastEffects(env, cfg, before + [i]);
            && (Refuse(IdentityNotAllowed) in es <==> !SomeEnds(before) && Refused(cfg, i))
            && (Refuse(Malformed(e)) in es <==>
                  Heard(cfg, before) && i.Received? && UnpackMessage(env, i.msgtype, i.payload) == Failure(e))
            && (Refuse(ExpectedVersion) in es <==>
                  Introduced(cfg, before) && OtherThan(env, i, (m: Message) => m.VersionInfo?))
            && (Refuse(IncompatibleProtocol) in es <==>
                  && Introduced(cfg, before) && !Agrees(env, i) && !IsMalformed(env, i) && i.Received?
                  && !OtherThan(env, i, (m: Message) => m.VersionInfo?))
            && (Refuse(ExpectedExecute) in es <==>
                  Greeted(env, cfg, before) && OtherThan(env, i, (m: Message) => m.Execute?))
            && (Refuse(CannotStart) in es <==>
                  Greeted(env, cfg, before) && Commands(env, i) && !LaunchesSome(env, cfg, i))
            && (Refuse(RemoteCommandNotAllowed) in es <==>
                  && Greeted(env, cfg, before) && Commands(env, i)
                  && exists cmdline :: Requests(env, i, cmdline) && cmdline != [] && !cfg.allowRemoteCommand)
            && (Refuse(UnexpectedWhileRunning) in es <==> Launched(env, cfg, before) && Unexpected(env, i))
  {
    hide Step, After, Introduced, Launched, Greeted, Unheard, SomeEnds, LaunchesSome, UnpackMessage;
    hide Requests, Commands, Unexpected, IsMalformed, Agrees, Refused, OtherThan;
    AfterOne(env, cfg, before, i);
    StateIs(env, cfg, before);
    var s := After(env, cfg, before);
    StepRefuses(env, cfg, s, i);
    StepRefusesOther(env, cfg, s, i);
    StepMalformed(env, cfg, s, i, e);
    StepCannotStart(env, cfg, s, i);
  }

  /** Reasons first, then the teardown, then the word to the process if there is one. */
  ghost predicate TornDown(es: seq<Effect>, at: nat) {
    && 0 < at < |es| && es[at] == Teardown
    && (forall k :: 0 <= k < at ==> es[k].Refuse?)
    && (forall k :: at < k < |es| ==> es[k] == Terminate)
  }

  ghost predicate Refuses(es: seq<Effect>) {
    exists r :: Refuse(r) in es
  }

  lemma ErrorTearsDown(s: Session, reason: Reason)
    ensures var es := ProtocolError(s, reason).1;
            && Refuse(reason) in es && Teardown in es && TornDown(es, 1)
            && TornDown([Refuse(RemoteCommandNotAllowed)] + es, 2)
  {
    var es := ProtocolError(s, reason).1;
    assert es[0] == Refuse(reason) && es[1] == Teardown;
  }

  lemma TwoTornDown(es: seq<Effect>)
    requires |es| == 2 && es[0].Refuse? && es[1] == Teardown
    ensures TornDown(es, 1)
  {
  }

  /** What every answer to a message is like. */
  ghost predicate Closes(s: Session, s': Session, es: seq<Effect>) {
    && (Refuses(es) <==> Teardown in es)
    && (Teardown in es ==> (TornDown(es, 1) || TornDown(es, 2)) && s'.state == Closed)
    && (s'.state == Closed && s.state != Closed ==> Teardown in es)
  }

  lemma ErrorCloses(s: Session, reason: Reason)
    ensures var (s', es) := ProtocolError(s, reason);
            Closes(s, s', es) && Closes(s, s', [Refuse(RemoteCommandNotAllowed)] + es)
  {
    hide TornDown;
    ErrorTearsDown(s, reason);
    var es := ProtocolError(s, reason).1;
    var more := [Refuse(RemoteCommandNotAllowed)] + es;
    assert Refuse(RemoteCommandNotAllowed) in more;
    assert more[2] == Teardown;
  }

  lemma StepCloses(env: Env, cfg: Config, s: Session, i: Input)
    ensures Closes(s, Step(env, cfg, s, i).0, Step(env, cfg, s, i).1)
  {
    hide UnpackMessage, ProtocolError, TornDown;
    forall r
      ensures Closes(s, ProtocolError(s, r).0, ProtocolError(s, r).1)
      ensures Closes(s, ProtocolError(s, r).0, [Refuse(RemoteCommandNotAllowed)] + ProtocolError(s, r).1)
    {
      ErrorCloses(s, r);
    }
    if Refused(cfg, i) {
      TwoTornDown([Refuse(IdentityNotAllowed), Teardown]);
      assert Refuse(IdentityNotAllowed) in [Refuse(IdentityNotAllowed), Teardown];
    }
  }

  /** In every run, the link is torn down exactly when the peer is given a reason, and then the
      session is closed; it is closed no other way. */
  lemma ClosedExactly(env: Env, cfg: Config, before: seq<Input>, i: Input)
    ensures Closes(After(env, cfg, before), After(env, cfg, before + [i]), LastEffects(env, cfg, before + [i]))
  {
    hide Step, After, Closes;
    AfterOne(env, cfg, before, i);
    StepCloses(env, cfg, After(env, cfg, before), i);
  }

  // ----- the version is sent once -----

  function VersionsSent(env: Env, cfg: Config, inputs: seq<Input>): nat {
    if inputs == [] then 0
    else
      VersionsSent(env, cfg, inputs[..|inputs| - 1]) + if SendVersion in LastEffects(env, cfg, inputs) then 1 else 0
  }

  ghost predicate EverGreeted(env: Env, cfg: Config, inputs: seq<Input>) {
    exists n :: 0 <= n <= |inputs| && Greeted(env, cfg, inputs[..n])
  }

  lemma EverMore(env: Env, cfg: Config, inputs: seq<Input>)
    requires inputs != []
    ensures EverGreeted(env, cfg, inputs) <==>
              EverGreeted(env, cfg, inputs[..|inputs| - 1]) || Greeted(env, cfg, inputs)
  {
    hide Greeted;
    var before := inputs[..|inputs| - 1];
    assert inputs[..|inputs|] == inputs;
    assert forall n :: 0 <= n < |inputs| ==> before[..n] == inputs[..n];
  }

  lemma EverPast(env: Env, cfg: Config, inputs: seq<Input>)
    requires EverGreeted(env, cfg, inputs)
    ensures Rank(After(env, cfg, inputs).state) >= 2
  {
    hide Step, After, Greeted, Introduced, Launched, SomeEnds, Unheard;
    var n :| 0 <= n <= |inputs| && Greeted(env, cfg, inputs[..n]);
    StateIs(env, cfg, inputs[..n]);
    OnlyForward(env, cfg, inputs, n);
  }

  /** A run that ever gets to wait for a command has been sent the version once, and no other
      run has been. */
  lemma {:induction false} VersionOnce(env: Env, cfg: Config, inputs: seq<Input>)
    ensures VersionsSent(env, cfg, inputs) == if EverGreeted(env, cfg, inputs) then 1 else 0
  {
    hide Step, After, Greeted, Introduced, Launched, SomeEnds, Unheard, Agrees, Accepts, LastEffects, EverGreeted;
    if inputs == [] {
      Empty(env, cfg);
      NeverYet(env, cfg);
    } else {
      var n := |inputs| - 1;
      var before, i := inputs[..n], inputs[n];
      VersionOnce(env, cfg, before);
      EverMore(env, cfg, inputs);
      GreetedMore(env, cfg, inputs);
      assert before + [i] == inputs;
      Answers(env, cfg, before, i);
      if EverGreeted(env, cfg, before) {
        EverPast(env, cfg, before);
        StateIs(env, cfg, before);
      } else {
        NowOrNever(env, cfg, before);
      }
    }
  }

  lemma NeverYet(env: Env, cfg: Config)
    ensures !EverGreeted(env, cfg, [])
  {
    hide Greeted;
    Empty(env, cfg);
    var none: seq<Input> := [];
    assert none[..0] == none;
  }

  lemma NowOrNever(env: Env, cfg: Config, inputs: seq<Input>)
    requires !EverGreeted(env, cfg, inputs)
    ensures !Greeted(env, cfg, inputs)
  {
    hide Greeted;
    assert inputs[..|inputs|] == inputs;
  }
}
