/** The buffered reader: the frames it delivers do not depend on how the stream is cut
    into reads, and the blocking reader agrees with it. */
module WebSocketReader {
  import opened Bytes
  import opened Options
  import opened WebSocketFrames

  /** What one `read` on the stream gives: up to 4096 bytes, nothing yet (would block or
      timed out), the end of the stream, or another error. */
  datatype ReadOutcome = Data(bytes: seq<byte>) | NothingYet | EndOfStream | ReadError

  datatype Delivery = Delivered(frame: Frame) | Waiting | Closed | Broken

  /** The reader's buffer and the reads the stream has still to give. */
  datatype Reader = Reader(buf: seq<byte>, pending: seq<ReadOutcome>)

  function TryRead(r: Reader): (Delivery, Reader) {
    match Parse(r.buf)
    case Some(Parsed(f, n)) => (Delivered(f), r.(buf := r.buf[n..]))
    case None =>
      if r.pending == [] then (Waiting, r)
      else
        var rest := r.pending[1..];
        match r.pending[0]
        case NothingYet => (Waiting, Reader(r.buf, rest))
        case EndOfStream => (Closed, Reader(r.buf, rest))
        case ReadError => (Broken, Reader(r.buf, rest))
        case Data(bytes) =>
          var buf := r.buf + bytes;
          match Parse(buf)
          case Some(Parsed(f, n)) => (Delivered(f), Reader(buf[n..], rest))
          case None => (Waiting, Reader(buf, rest))
  }

  // ----- runs -----

  function FramesIn(d: Delivery): seq<Frame> {
    if d.Delivered? then [d.frame] else []
  }

  /** The frames delivered by k calls, and the reader after them. */
  function Calls(r: Reader, k: nat): (seq<Frame>, Reader) {
    if k == 0 then ([], r)
    else
      var (ds, r1) := Calls(r, k - 1);
      var (d, r2) := TryRead(r1);
      (ds + FramesIn(d), r2)
  }

  /** All the bytes a list of reads brings. */
  function Arrived(outcomes: seq<ReadOutcome>): seq<byte> {
    if outcomes == [] then []
    else (if outcomes[0].Data? then outcomes[0].bytes else []) + Arrived(outcomes[1..])
  }

  lemma {:induction false} ArrivedAppend(a: seq<ReadOutcome>, b: seq<ReadOutcome>)
    ensures Arrived(a + b) == Arrived(a) + Arrived(b)
  {
    if a == [] {
      assert a + b == b;
    } else {
      ArrivedAppend(a[1..], b);
      assert (a + b)[1..] == a[1..] + b;
    }
  }

  /** Delivered frames and buffer account for every byte received: the frames are the
      first ones of the bytes, the buffer is exactly what is left behind them. */
  ghost predicate Accounts(total: seq<byte>, ds: seq<Frame>, buf: seq<byte>) {
    ds <= Frames(total) && buf == Remainder(total, |ds|)
  }

  lemma AccountsLater(total: seq<byte>, more: seq<byte>, ds: seq<Frame>, buf: seq<byte>)
    requires Accounts(total, ds, buf)
    ensures Accounts(total + more, ds, buf + more)
  {
    hide Frames, Remainder;
    LaterBytes(total, more, |ds|);
  }

  lemma AccountsDelivery(total: seq<byte>, ds: seq<Frame>, buf: seq<byte>)
    requires Accounts(total, ds, buf) && Parse(buf).Some?
    ensures var Parsed(f, n) := Parse(buf).value;
            Accounts(total, ds + [f], buf[n..])
  {
    hide Parse;
    var f := Parse(buf).value.frame;
    RemainderFrames(total, |ds|);
    assert Frames(buf) == [f] + Frames(buf[Parse(buf).value.used..]);
    assert |ds| < |Frames(total)| && Frames(total)[|ds|] == f;
    RemainderNext(total, |ds|);
  }

  lemma ArrivedOne(read: ReadOutcome)
    ensures Arrived([read]) == if read.Data? then read.bytes else []
  {
    assert [read][1..] == [];
    assert read.Data? ==> read.bytes + [] == read.bytes;
  }

  lemma AccountsStep(total: seq<byte>, ds: seq<Frame>, r: Reader)
    requires Accounts(total, ds, r.buf)
    ensures var (d, r') := TryRead(r);
            && |r'.pending| <= |r.pending|
            && r'.pending == r.pending[|r.pending| - |r'.pending|..]
            && Accounts(total + Arrived(r.pending[..|r.pending| - |r'.pending|]), ds + FramesIn(d), r'.buf)
  {
    hide Parse, Accounts;
    var (d, r') := TryRead(r);
    assert ds + [] == ds;
    if Parse(r.buf).Some? {
      AccountsDelivery(total, ds, r.buf);
      assert total + [] == total;
    } else if r.pending == [] {
      assert total + [] == total;
    } else {
      var read := r.pending[0];
      assert r.pending[..1] == [read];
      ArrivedOne(read);
      if read.Data? {
        AccountsLater(total, read.bytes, ds, r.buf);
        if Parse(r.buf + read.bytes).Some? {
          AccountsDelivery(total + read.bytes, ds, r.buf + read.bytes);
        }
      } else {
        assert total + [] == total;
      }
    }
  }

  /** After any number of calls, from a reader with an empty buffer, the frames
      delivered and the buffer account for exactly the reads taken so far. */
  lemma {:induction false} RunAccounts(pending: seq<ReadOutcome>, k: nat)
    ensures var (ds, r) := Calls(Reader([], pending), k);
            && |r.pending| <= |pending|
            && r.pending == pending[|pending| - |r.pending|..]
            && Accounts(Arrived(pending[..|pending| - |r.pending|]), ds, r.buf)
  {
    hide TryRead, Accounts, Arrived;
    if k == 0 {
      AccountsNothing();
      ArrivedNothing();
      assert pending[..0] == [];
    } else {
      RunAccounts(pending, k - 1);
      var (ds, r1) := Calls(Reader([], pending), k - 1);
      var (d, r2) := TryRead(r1);
      var taken := pending[..|pending| - |r1.pending|];
      AccountsStep(Arrived(taken), ds, r1);
      var more := r1.pending[..|r1.pending| - |r2.pending|];
      ArrivedAppend(taken, more);
      assert pending[..|pending| - |r2.pending|] == taken + more;
    }
  }

  lemma AccountsNothing()
    ensures Accounts([], [], [])
  {
  }

  lemma ArrivedNothing()
    ensures Arrived([]) == []
  {
  }

  lemma WholeFrameLeft(total: seq<byte>, ds: seq<Frame>, buf: seq<byte>)
    requires Accounts(total, ds, buf)
    ensures Parse(buf).None? <==> ds == Frames(total)
  {
    hide Parse;
    if Parse(buf).Some? {
      AccountsDelivery(total, ds, buf);
    } else if |ds| < |Frames(total)| {
      RemainderNext(total, |ds|);
    }
  }

  /** What a call answers, in every run: frames that have arrived whole come first, with no
      read; then the end of the stream and an error are reported when the stream gives them,
      and otherwise there is nothing yet, unless the read completes a frame. */
  lemma AnswerExactly(pending: seq<ReadOutcome>, k: nat)
    ensures var (ds, r) := Calls(Reader([], pending), k);
            var (d, r') := TryRead(r);
            && |r.pending| <= |pending|
            && var total := Arrived(pending[..|pending| - |r.pending|]);
               var drained := ds == Frames(total);
               var read := if r.pending == [] then NothingYet else r.pending[0];
               && (d.Closed? <==> drained && read.EndOfStream?)
               && (d.Broken? <==> drained && read.ReadError?)
               && (d.Waiting? <==>
                     drained && (read.NothingYet? || (read.Data? && ds == Frames(total + read.bytes))))
               && (d.Delivered? && drained <==> drained && read.Data? && ds < Frames(total + read.bytes))
               && r'.pending == if drained && r.pending != [] then r.pending[1..] else r.pending
  {
    hide Frames, Remainder, Arrived, Parse, Calls;
    RunAccounts(pending, k);
    var (ds, r) := Calls(Reader([], pending), k);
    var total := Arrived(pending[..|pending| - |r.pending|]);
    WholeFrameLeft(total, ds, r.buf);
    if r.pending != [] && r.pending[0].Data? {
      AccountsLater(total, r.pending[0].bytes, ds, r.buf);
      WholeFrameLeft(total + r.pending[0].bytes, ds, r.buf + r.pending[0].bytes);
    }
  }

  /** A run never delivers a frame that is not in the stream, or out of turn. */
  lemma DeliveredIsPrefix(pending: seq<ReadOutcome>, k: nat)
    ensures Calls(Reader([], pending), k).0 <= Frames(Arrived(pending))
  {
    hide TryRead, Frames, Remainder, Arrived;
    RunAccounts(pending, k);
    var (ds, r) := Calls(Reader([], pending), k);
    var n := |pending| - |r.pending|;
    ArrivedAppend(pending[..n], pending[n..]);
    assert pending == pending[..n] + pending[n..];
    LaterBytes(Arrived(pending[..n]), Arrived(pending[n..]), 0);
  }

  /** A call takes a read or delivers a frame, if there is a read or a whole frame. */
  lemma CallProgress(r: Reader)
    ensures var (d, r') := TryRead(r);
            && |r'.pending| - |FramesIn(d)| <= |r.pending|
            && (Parse(r.buf).Some? || r.pending != [] ==> |r'.pending| - |FramesIn(d)| < |r.pending|)
  {
    hide Parse;
  }

  lemma {:induction false} Progress(pending: seq<ReadOutcome>, k: nat)
    ensures var (ds, r) := Calls(Reader([], pending), k);
            var frames := |Frames(Arrived(pending))|;
            && |ds| <= frames
            && ((r.pending == [] && |ds| == frames) || |r.pending| + frames - |ds| + k <= |pending| + frames)
  {
    hide Frames, Remainder, Arrived, TryRead, Parse, FramesIn;
    DeliveredIsPrefix(pending, k);
    if k > 0 {
      Progress(pending, k - 1);
      var (ds, r) := Calls(Reader([], pending), k - 1);
      CallProgress(r);
      assert |Calls(Reader([], pending), k).0| == |ds| + |FramesIn(TryRead(r).0)|;
      if r.pending == [] && |ds| < |Frames(Arrived(pending))| {
        RunAccounts(pending, k - 1);
        assert pending[..|pending|] == pending;
        RemainderNext(Arrived(pending), |ds|);
      }
    }
  }

  /** Enough calls deliver every frame of the stream, in order and once, however the
      stream was cut into reads, and leave exactly the incomplete tail. */
  lemma DeliversAll(pending: seq<ReadOutcome>, k: nat)
    requires k >= |pending| + |Frames(Arrived(pending))|
    ensures var (ds, r) := Calls(Reader([], pending), k);
            && r.pending == []
            && ds == Frames(Arrived(pending))
            && r.buf == Remainder(Arrived(pending), |ds|)
  {
    hide Frames, Remainder, Arrived, TryRead;
    Progress(pending, k);
    RunAccounts(pending, k);
    assert pending[..|pending|] == pending;
  }

  /** Written frames, cut into reads in any way, come out as they went in. */
  lemma StreamRoundTrip(ws: seq<WireFrame>, pending: seq<ReadOutcome>, k: nat)
    requires forall w :: w in ws ==> Wellformed(w)
    requires Arrived(pending) == WireAll(ws)
    requires k >= |pending| + |ws|
    ensures Calls(Reader([], pending), k) == (FramesOf(ws), Reader([], []))
  {
    hide Frames, Remainder, Arrived, TryRead, Calls, WireAll;
    FramesOfWire(ws);
    DeliversAll(pending, k);
  }

  /** Two ways of cutting the same bytes deliver the same frames. */
  lemma SplittingIrrelevant(a: seq<ReadOutcome>, b: seq<ReadOutcome>, j: nat, k: nat)
    requires Arrived(a) == Arrived(b)
    requires j >= |a| + |Frames(Arrived(a))| && k >= |b| + |Frames(Arrived(b))|
    ensures Calls(Reader([], a), j) == Calls(Reader([], b), k)
  {
    hide Frames, Remainder, Arrived, TryRead, Calls;
    DeliversAll(a, j);
    DeliversAll(b, k);
  }
}
