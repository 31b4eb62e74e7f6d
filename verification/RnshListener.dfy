/** The listener session and the listener's loop over its table of sessions, as objects. */
module RnshListener {
  import opened Bytes
  import opened Options
  import opened RnshMessages
  import opened RnshServing
  import opened RnshSession
  import opened RnshStreams

  class ListenerSession {
    const config: Config
    var state: State
    var remoteIdentity: Option<Identity>
    var process: Option<Argv>

    ghost function View(): Session
      reads this
    {
      Session(state, remoteIdentity, process)
    }

    constructor (config: Config)
      ensures View() == New(config) && this.config == config
    {
      this.config := config;
      state := if config.allowAll then WaitVersion else WaitIdent;
      remoteIdentity := None;
      process := None;
    }

    method RemoteIdentified(id: Identity) returns (effects: seq<Effect>)
      modifies this
      ensures View() == OnIdentified(config, old(View()), id).0 && effects == OnIdentified(config, old(View()), id).1
    {
      if !config.allowAll && id !in config.allowed {
        effects := [Refuse(IdentityNotAllowed), Teardown];
        state := Closed;
        return;
      }
      remoteIdentity := Some(id);
      if state == WaitIdent {
        state := WaitVersion;
      }
      effects := [];
    }

    method HandleMessage(env: Env, msgtype: u16, payload: seq<byte>, canSpawn: bool)
      returns (effects: seq<Effect>)
      modifies this
      ensures View() == OnMessage(env, config, old(View()), msgtype, payload, canSpawn).0
      ensures effects == OnMessage(env, config, old(View()), msgtype, payload, canSpawn).1
    {
      hide UnpackMessage;
      if state == WaitIdent {
        return [];
      }
      var message := UnpackMessage(env, msgtype, payload);
      if message.Failure? {
        effects := Fail(Malformed(message.error));
        return;
      }
      effects := Dispatch(message.value, canSpawn);
    }

    method Dispatch(m: Message, canSpawn: bool) returns (effects: seq<Effect>)
      requires state != WaitIdent
      modifies this
      ensures View() == OnDecoded(config, old(View()), m, canSpawn).0
      ensures effects == OnDecoded(config, old(View()), m, canSpawn).1
    {
      effects := [];
      match state
      case WaitVersion =>
        if m.VersionInfo? && m.protocolVersion == PROTOCOL_VERSION {
          effects := [SendVersion];
          state := WaitCommand;
        } else if m.VersionInfo? {
          effects := Fail(IncompatibleProtocol);
        } else {
          effects := Fail(ExpectedVersion);
        }
      case WaitCommand =>
        if m.Execute? {
          var ok;
          ok, effects := Start(m.command, canSpawn);
          if !ok {
            var more := Fail(CannotStart);
            effects := effects + more;
          } else {
            state := Running;
          }
        } else {
          effects := Fail(ExpectedExecute);
        }
      case Running =>
        effects := Serve(m);
      case _ =>
    }

    method Serve(m: Message) returns (effects: seq<Effect>)
      modifies this
      ensures View() == WhileRunning(old(View()), m).0 && effects == WhileRunning(old(View()), m).1
    {
      effects := [];
      if m.Resize? {
        if process.Some? {
          effects := [SetWinsize(m.size)];
        }
      } else if m.StreamData? && m.stream.streamId == STREAM_STDIN {
        if process.Some? {
          if m.stream.data != [] {
            effects := effects + [WriteStdin(m.stream.data)];
          }
          if m.stream.eof {
            effects := effects + [CloseStdin];
          }
        }
      } else if m.Noop? {
        effects := [SendNoop];
      } else {
        effects := Fail(UnexpectedWhileRunning);
      }
    }

    /** Starts the process, or says why not; the state is the caller's to change. */
    method Start(c: Command, canSpawn: bool) returns (ok: bool, effects: seq<Effect>)
      modifies this
      ensures state == old(state) && remoteIdentity == old(remoteIdentity)
      ensures ok <==> (config.allowRemoteCommand || c.cmdline == []) && ArgvFor(config, c.cmdline) != [] && canSpawn
      ensures ok ==> process == Some(ArgvFor(config, c.cmdline))
      ensures ok ==> effects == [Spawn(ArgvFor(config, c.cmdline), remoteIdentity), SetWinsize(c.size)]
      ensures !ok ==> process == old(process)
      ensures !ok && (config.allowRemoteCommand || c.cmdline == []) ==> effects == []
      ensures !config.allowRemoteCommand && c.cmdline != [] ==> effects == [Refuse(RemoteCommandNotAllowed)]
    {
      if !config.allowRemoteCommand && c.cmdline != [] {
        return false, [Refuse(RemoteCommandNotAllowed)];
      }
      var argv := config.defaultCommand;
      if config.remoteCommandAsArgs && c.cmdline != [] {
        argv := argv + c.cmdline;
      } else if c.cmdline != [] {
        argv := c.cmdline;
      }
      if argv == [] || !canSpawn {
        return false, [];
      }
      process := Some(argv);
      return true, [Spawn(argv, remoteIdentity), SetWinsize(c.size)];
    }

    method Fail(reason: Reason) returns (effects: seq<Effect>)
      modifies this
      ensures View() == ProtocolError(old(View()), reason).0 && effects == ProtocolError(old(View()), reason).1
    {
      effects := [Refuse(reason), Teardown];
      if process.Some? {
        effects := effects + [Terminate];
      }
      state := Closed;
    }
  }

  // ----- the listener -----

  /** The table of sessions, one to a link, and whether the loop has returned. The sessions
      are shared through references, so that no two links have the same one is what keeps
      them apart. */
  class Listener {
    const config: Config
    var sessions: map<LinkId, ListenerSession>
    var stopped: bool

    ghost predicate Valid()
      reads this
    {
      forall k, l :: k in sessions && l in sessions && sessions[k] == sessions[l] ==> k == l
    }

    ghost predicate Ready()
      reads this, sessions.Values
    {
      Valid() && forall l :: l in sessions ==> sessions[l].config == config && sessions[l].state != Removed
    }

    ghost function Views(): map<LinkId, Session>
      reads this, sessions.Values
    {
      map l | l in sessions :: sessions[l].View()
    }

    ghost function View(): Serving
      reads this, sessions.Values
    {
      Serving(Views(), stopped)
    }

    constructor (config: Config)
      ensures Ready() && View() == Serving(map[], false) && this.config == config
    {
      this.config := config;
      sessions := map[];
      stopped := false;
    }

    method LinkEstablished(link: LinkId)
      requires Ready()
      modifies this
      ensures Ready() && fresh(sessions.Values - old(sessions.Values)) && stopped == old(stopped)
      ensures Views() == if link in old(Views()) then old(Views()) else old(Views())[link := New(config)]
    {
      if link !in sessions {
        var session := new ListenerSession(config);
        sessions := sessions[link := session];
      }
    }

    /** Passing an input on changes one session and no other. */
    method Forward(env: Env, link: LinkId, i: Input) returns (effects: seq<Effect>)
      requires Ready() && link in sessions && !Ends(i)
      modifies sessions[link]
      ensures Ready() && link in old(Views())
      ensures Views() == old(Views())[link := Step(env, config, old(Views())[link], i).0]
      ensures effects == Step(env, config, old(Views())[link], i).1
    {
      hide OnMessage, OnIdentified;
      var session := sessions[link];
      StaysInTable(env, config, session.View(), i);
      match i
      case Identified(id) => effects := session.RemoteIdentified(id);
      case Received(msgtype, payload, canSpawn) => effects := session.HandleMessage(env, msgtype, payload, canSpawn);
    }

    method Drop(link: LinkId)
      requires Ready() && link in sessions
      modifies this
      ensures Ready() && Views() == old(Views()) - {link} && sessions.Values <= old(sessions.Values)
      ensures stopped == old(stopped)
    {
      sessions := sessions - {link};
    }

    /** One input for one link: its session takes the step of the model, is dropped when that
        ends it, and no other session changes. */
    method Handle(env: Env, link: LinkId, i: Input) returns (effects: seq<Effect>)
      requires Ready()
      modifies this, sessions.Values
      ensures Ready() && sessions.Values <= old(sessions.Values) && stopped == old(stopped)
      ensures Views() == Updated(env, config, old(Views()), link, i)
      ensures effects == Caused(env, config, old(Views()), link, i)
    {
      hide OnMessage, OnIdentified;
      effects := if i.Exited? then [SendEof, SendExited(i.code)] else [];
      if link in sessions {
        var session := sessions[link];
        if Ends(i) {
          Drop(link);
          if i.LinkClosed? && session.process.Some? {
            effects := [Terminate];
          }
        } else {
          StaysInTable(env, config, session.View(), i);
          effects := Forward(env, link, i);
        }
      }
    }

    /** Returning from the loop drops every session, and tells no process. */
    method Stop()
      requires Ready()
      modifies this
      ensures Ready() && sessions == map[] && View() == Serving(map[], true)
    {
      sessions := map[];
      stopped := true;
    }

    method ForwardOutput(streamId: u16, data: seq<byte>, accepted: nat) returns (effects: seq<Effect>)
      requires Ready()
      modifies this
      ensures Ready() && sessions.Values <= old(sessions.Values)
      ensures |StreamMessages(streamId, data, false)| <= accepted ==> View() == old(View())
      ensures |StreamMessages(streamId, data, false)| > accepted ==> View() == Serving(map[], true)
      ensures effects == Streamed(streamId, data, accepted)
    {
      hide StreamMessages;
      var ok, sent := SendStreamChunks(streamId, data, false, accepted);
      effects := seq(|sent|, k requires 0 <= k < |sent| => SendStream(sent[k]));
      if !ok {
        Stop();
      }
    }

    method AnnounceExit(env: Env, link: LinkId, code: int, accepted: nat) returns (effects: seq<Effect>)
      requires Ready() && !stopped
      modifies this, sessions.Values
      ensures Ready() && sessions.Values <= old(sessions.Values)
      ensures View() == Serve(env, config, old(View()), ProcessExited(link, code, accepted)).0
      ensures effects == Serve(env, config, old(View()), ProcessExited(link, code, accepted)).1
    {
      hide StreamMessages, Updated, Caused;
      var ok, _ := SendStreamChunks(STREAM_STDOUT, [], true, accepted);
      if !ok {
        Stop();
        return [];
      }
      effects := Handle(env, link, Exited(code));
    }

    /** One pass of the loop. */
    method Take(env: Env, e: Event) returns (effects: seq<Effect>)
      requires Ready() && !stopped
      modifies this, sessions.Values
      ensures Ready() && fresh(sessions.Values - old(sessions.Values))
      ensures View() == Serve(env, config, old(View()), e).0
      ensures effects == Serve(env, config, old(View()), e).1
    {
      hide StreamMessages, Updated, Caused, Streamed;
      effects := [];
      match e
      case Established(link) => LinkEstablished(link);
      case Peer(link, i) => effects := Handle(env, link, i);
      case ProcessOutput(_, streamId, data, accepted) => effects := ForwardOutput(streamId, data, accepted);
      case ProcessExited(link, code, accepted) => effects := AnnounceExit(env, link, code, accepted);
      case Announcement(ok) =>
        if !ok {
          Stop();
        }
    }

    /** The loop: it takes events until one makes it return. */
    method Listen(env: Env, events: seq<Event>) returns (taken: nat)
      requires Ready() && View() == Serving(map[], false)
      modifies this, sessions.Values
      ensures taken <= |events|
      ensures View() == Run(env, config, events[..taken])
      ensures stopped || taken == |events|
    {
      hide Serve;
      taken := 0;
      while taken < |events| && !stopped
        invariant taken <= |events| && Ready() && fresh(sessions.Values - old(sessions.Values))
        invariant View() == Run(env, config, events[..taken])
      {
        var _ := Take(env, events[taken]);
        assert events[..taken + 1][..taken] == events[..taken];
        taken := taken + 1;
      }
    }
  }
}
