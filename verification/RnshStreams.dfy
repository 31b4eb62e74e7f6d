/** Streams cut into messages, and what reaches the standard input of a process. */
module RnshStreams {
  import opened Bytes
  import opened RnshMessages
  import opened RnshSession

  const STREAM_CHUNK_MAX: nat := 423

  function Chunks(data: seq<byte>): (cs: seq<seq<byte>>)
    ensures forall c :: c in cs ==> 0 < |c| <= STREAM_CHUNK_MAX
    decreases |data|
  {
    if data == [] then []
    else if |data| <= STREAM_CHUNK_MAX then [data]
    else [data[..STREAM_CHUNK_MAX]] + Chunks(data[STREAM_CHUNK_MAX..])
  }

  /** The messages a stretch of a stream is sent as. */
  function StreamMessages(streamId: u16, data: seq<byte>, eof: bool): seq<Message> {
    var cs := Chunks(data);
    seq(|cs|, i requires 0 <= i < |cs| => StreamData(Stream(streamId, cs[i], false)))
    + if eof then [StreamData(Stream(streamId, [], true))] else []
  }

  /** Sends until the link refuses: `accepted` is how many messages it takes. */
  method SendStreamChunks(streamId: u16, data: seq<byte>, eof: bool, accepted: nat)
    returns (ok: bool, sent: seq<Message>)
    ensures var all := StreamMessages(streamId, data, eof);
            && (ok <==> |all| <= accepted)
            && sent == if ok then all else all[..accepted]
  {
    hide StreamMessages, FirstChunk;
    sent := [];
    var at := 0;
    assert data[at..] == data;
    ghost var all := StreamMessages(streamId, data, eof);
    while at < |data|
      invariant at <= |data| && |sent| <= accepted
      invariant all == sent + StreamMessages(streamId, data[at..], eof)
    {
      var n := FirstChunk(data[at..]);
      ChunkSplit(streamId, data[at..], eof);
      assert data[at..][..n] == data[at..at + n] && data[at..][n..] == data[at + n..];
      if |sent| == accepted {
        return false, sent;
      }
      sent := sent + [StreamData(Stream(streamId, data[at..at + n], false))];
      at := at + n;
    }
    LastMessages(streamId, eof);
    assert data[at..] == [];
    if eof {
      if |sent| == accepted {
        return false, sent;
      }
      sent := sent + [StreamData(Stream(streamId, [], true))];
    }
    ok := true;
  }

  function FirstChunk(data: seq<byte>): (n: nat)
    ensures n <= |data| && n <= STREAM_CHUNK_MAX && (data != [] ==> n > 0)
  {
    if |data| < STREAM_CHUNK_MAX then |data| else STREAM_CHUNK_MAX
  }

  lemma LastMessages(streamId: u16, eof: bool)
    ensures StreamMessages(streamId, [], eof) == if eof then [StreamData(Stream(streamId, [], true))] else []
  {
  }

  lemma ChunkSplit(streamId: u16, data: seq<byte>, eof: bool)
    requires data != []
    ensures var n := FirstChunk(data);
            var first := StreamData(Stream(streamId, data[..n], false));
            StreamMessages(streamId, data, eof) == [first] + StreamMessages(streamId, data[n..], eof)
  {
    var n := FirstChunk(data);
    assert Chunks(data) == [data[..n]] + Chunks(data[n..]) by {
      if |data| <= STREAM_CHUNK_MAX {
        assert data[..n] == data && data[n..] == [];
      }
    }
  }

  // ----- what the process reads -----

  function Fed(e: Effect): seq<byte> {
    if e.WriteStdin? then e.data else []
  }

  function Written(es: seq<Effect>): seq<byte> {
    if es == [] then [] else Fed(es[0]) + Written(es[1..])
  }

  /** The effects of a list of messages on a session, one after the other. */
  function Served(s: Session, ms: seq<Message>): (Session, seq<Effect>)
    decreases ms
  {
    if ms == [] then (s, [])
    else
      var (s1, es1) := WhileRunning(s, ms[0]);
      var (s2, es2) := Served(s1, ms[1..]);
      (s2, es1 + es2)
  }

  lemma {:induction false} WrittenAppend(a: seq<Effect>, b: seq<Effect>)
    ensures Written(a + b) == Written(a) + Written(b)
  {
    hide Written;
    if a == [] {
      assert a + b == b;
      WrittenNothing();
    } else {
      WrittenAppend(a[1..], b);
      assert (a + b)[1..] == a[1..] + b;
      WrittenFirst(a);
      WrittenFirst(a + b);
      Grouped(Fed(a[0]), Written(a[1..]), Written(b));
    }
  }

  lemma WrittenFirst(es: seq<Effect>)
    requires es != []
    ensures Written(es) == Fed(es[0]) + Written(es[1..])
  {
  }

  lemma WrittenNothing()
    ensures Written([]) == []
  {
  }

  lemma Grouped(a: seq<byte>, b: seq<byte>, c: seq<byte>)
    ensures a + (b + c) == a + b + c
  {
  }

  predicate IsStdin(m: Message) {
    m.StreamData? && m.stream.streamId == STREAM_STDIN
  }

  function Joined(ms: seq<Message>): seq<byte>
    requires forall k :: 0 <= k < |ms| ==> IsStdin(ms[k])
  {
    if ms == [] then []
    else
      assert IsStdin(ms[0]);
      ms[0].stream.data + Joined(ms[1..])
  }

  ghost predicate SomeEof(ms: seq<Message>)
    requires forall k :: 0 <= k < |ms| ==> IsStdin(ms[k])
  {
    exists k :: 0 <= k < |ms| && IsStdin(ms[k]) && ms[k].stream.eof
  }

  lemma OneServed(s: Session, m: Message)
    requires s.process.Some? && IsStdin(m)
    ensures var (s', es) := WhileRunning(s, m);
            && s' == s && Written(es) == m.stream.data && (CloseStdin in es <==> m.stream.eof)
            && forall e :: e in es ==> e.WriteStdin? || e.CloseStdin?
  {
    var d := m.stream;
    var first := if d.data != [] then [WriteStdin(d.data)] else [];
    var last := if d.eof then [CloseStdin] else [];
    WrittenAppend(first, last);
    assert WhileRunning(s, m).1 == first + last;
  }

  /** However standard input is cut into messages, the process is fed exactly their bytes in
      order, its input is closed exactly when one of them ends the stream, and the session
      is left as it was. */
  lemma {:induction false} StdinArrives(s: Session, ms: seq<Message>)
    requires s.process.Some? && forall k :: 0 <= k < |ms| ==> IsStdin(ms[k])
    ensures var (s', es) := Served(s, ms);
            && s' == s && Written(es) == Joined(ms) && (CloseStdin in es <==> SomeEof(ms))
            && forall e :: e in es ==> e.WriteStdin? || e.CloseStdin?
    decreases ms
  {
    hide WhileRunning, Written;
    if ms == [] {
      WrittenNothing();
    } else {
      OneServed(s, ms[0]);
      StdinArrives(s, ms[1..]);
      WrittenAppend(WhileRunning(s, ms[0]).1, Served(s, ms[1..]).1);
      EofStep(ms);
    }
  }

  lemma EofStep(ms: seq<Message>)
    requires ms != [] && forall k :: 0 <= k < |ms| ==> IsStdin(ms[k])
    ensures SomeEof(ms) <==> ms[0].stream.eof || SomeEof(ms[1..])
  {
    if k :| 0 <= k < |ms| - 1 && ms[1..][k].stream.eof {
      assert IsStdin(ms[k + 1]) && ms[k + 1].stream.eof;
    }
    if k :| 0 < k < |ms| && ms[k].stream.eof {
      assert IsStdin(ms[1..][k - 1]) && ms[1..][k - 1].stream.eof;
    }
  }

  /** The messages a stretch is sent as are one such cut of it. */
  lemma {:induction false} ChunksJoin(data: seq<byte>, eof: bool)
    ensures var ms := StreamMessages(STREAM_STDIN, data, eof);
            && (forall k :: 0 <= k < |ms| ==> IsStdin(ms[k]))
            && Joined(ms) == data && (SomeEof(ms) <==> eof)
    decreases |data|
  {
    var ms := StreamMessages(STREAM_STDIN, data, eof);
    if data == [] {
      LastMessages(STREAM_STDIN, eof);
      if eof {
        assert IsStdin(ms[0]) && ms[0].stream.eof && ms[1..] == [];
      }
    } else {
      var n := FirstChunk(data);
      ChunkSplit(STREAM_STDIN, data, eof);
      ChunksJoin(data[n..], eof);
      assert ms[1..] == StreamMessages(STREAM_STDIN, data[n..], eof);
      EofStep(ms);
      assert data[..n] + data[n..] == data;
    }
  }

  /** So what a client reads from its terminal is what the process is fed. */
  lemma StretchArrives(s: Session, data: seq<byte>, eof: bool)
    requires s.process.Some?
    ensures var (s', es) := Served(s, StreamMessages(STREAM_STDIN, data, eof));
            s' == s && Written(es) == data && (CloseStdin in es <==> eof)
  {
    hide StreamMessages, Served, Written, Joined, SomeEof;
    ChunksJoin(data, eof);
    StdinArrives(s, StreamMessages(STREAM_STDIN, data, eof));
  }
}
