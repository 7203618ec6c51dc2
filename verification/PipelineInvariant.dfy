/** The invariant of the combined system holds in every reachable state. */
module PipelineInvariant {
  import opened Sequences
  import opened Framing
  import opened ControlSocket
  import opened PortProgram
  import opened PortTheorems
  import opened Encoder
  import opened Decoder
  import opened GenServer
  import opened Pipeline

  // ------------------------------------------------------------------ toward the port

  /** A stream that begins with a frame, of which a prefix already shows a complete frame. */
  lemma FirstOfStream(buffer: Bytes, stdin: Bytes, payload: Bytes, rest: Bytes, cap: nat)
    requires buffer + stdin == Frame(payload) + rest && |payload| < 65536
    requires FirstFrame(buffer, cap).Complete?
    ensures FirstFrame(buffer, cap).message == payload
    ensures buffer[HEADER_SIZE + |payload|..] + stdin == rest
  {
    AnnouncedOfFrame(payload, rest);
    assert (buffer + stdin)[0] == buffer[0] && (buffer + stdin)[1] == buffer[1];
    assert Announced(buffer) == |payload|;
    assert (buffer + stdin)[HEADER_SIZE..HEADER_SIZE + |payload|] == buffer[HEADER_SIZE..HEADER_SIZE + |payload|];
    assert (buffer + stdin)[HEADER_SIZE + |payload|..] == buffer[HEADER_SIZE + |payload|..] + stdin;
  }

  predicate Sends(p: Port, e: Input) {
    e.Advance? && e.sendOk && p.control.Dispatching? && FirstFrame(p.buffer, BUFFER_SIZE).Complete?
  }

  lemma AwaitKeepsUnserved(p: Port)
    requires InputInv(p) && p.control.Awaiting? && p.inbox != []
    ensures Await(p).sent == p.sent && Unserved(Await(p)) == Unserved(p)
  {
  }

  lemma AttachKeepsUnserved(p: Port)
    requires InputInv(p) && p.control.Attaching? && p.inbox != []
    ensures Attach(p).sent == p.sent && Unserved(Attach(p)) == Unserved(p)
  {
  }

  lemma DispatchKeepsUnserved(p: Port, ok: bool)
    requires InputInv(p) && p.control.Dispatching? && !Sends(p, Advance(ok))
    ensures Dispatch(p, ok).sent == p.sent && Unserved(Dispatch(p, ok)) == Unserved(p)
  {
  }

  lemma ProgressKeepsUnserved(p: Port, ok: bool)
    requires InputInv(p) && !Sends(p, Advance(ok))
    ensures Progress(p, ok).sent == p.sent && Unserved(Progress(p, ok)) == Unserved(p)
  {
    match p.control
    case Attaching => if p.inbox != [] { AttachKeepsUnserved(p); }
    case Dispatching(_) => DispatchKeepsUnserved(p, ok);
    case Awaiting(_) => if p.inbox != [] { AwaitKeepsUnserved(p); }
    case _ =>
  }

  lemma StopKeepsUnserved(p: Port, reason: ExitReason)
    requires !p.control.Exited?
    ensures Stop(p, reason).sent == p.sent && Unserved(Stop(p, reason)) == Unserved(p)
  {
  }

  /** Only a read and a send move bytes of the input. */
  lemma UnservedKept(p: Port, e: Input)
    requires InputInv(p) && PortProgram.Enabled(p, e) && !Sends(p, e)
    ensures var q := PortProgram.Step(p, e);
            q.sent == p.sent && Unserved(q) == if e.Poll? then Unserved(p) + e.chunk else Unserved(p)
  {
    match e
    case Advance(ok) => ProgressKeepsUnserved(p, ok);
    case SelectTimeout => StopKeepsUnserved(p, TimedOut);
    case InputClosed => StopKeepsUnserved(p, EndOfInput);
    case AttachUnsent => StopKeepsUnserved(p, SendFailed);
    case SystemFault => StopKeepsUnserved(p, SystemError);
    case _ =>
  }

  lemma PayloadsStep(ps: seq<Pending>, k: nat)
    requires k < |ps|
    ensures Payloads(ps[..k + 1]) == Payloads(ps[..k]) + [Encode(ps[k].command)]
    ensures FrameAll(Payloads(ps[k..])) == Frame(Encode(ps[k].command)) + FrameAll(Payloads(ps[k + 1..]))
  {
    assert Payloads(ps[k..])[1..] == Payloads(ps[k + 1..]);
  }

  /** The next complete frame is the next payload. */
  lemma SendConveyed(sent: seq<Bytes>, buffer: Bytes, stdin: Bytes, accepted: seq<Pending>)
    requires Conveyed(sent, buffer + stdin, accepted) && FirstFrame(buffer, BUFFER_SIZE).Complete?
    ensures Conveyed(sent + [FirstFrame(buffer, BUFFER_SIZE).message], Served(buffer) + stdin, accepted)
  {
    var k, m := |sent| - 1, FirstFrame(buffer, BUFFER_SIZE).message;
    assert |buffer + stdin| >= HEADER_SIZE;
    assert k < |accepted|;
    PayloadsStep(accepted, k);
    FirstOfStream(buffer, stdin, Encode(accepted[k].command), FrameAll(Payloads(accepted[k + 1..])), BUFFER_SIZE);
    assert (sent + [m])[1..] == sent[1..] + [m];
  }

  lemma PollConveyed(sent: seq<Bytes>, unserved: Bytes, chunk: Bytes, stdin: Bytes, accepted: seq<Pending>)
    requires Conveyed(sent, unserved + stdin, accepted) && chunk <= stdin
    ensures Conveyed(sent, unserved + chunk + stdin[|chunk|..], accepted)
  {
    Assoc(unserved, chunk, stdin[|chunk|..]);
    assert stdin == chunk + stdin[|chunk|..];
  }

  /** A step of the port program keeps the commands in order and loses none. */
  lemma PortConveyed(p: Port, e: Input, stdin: Bytes, accepted: seq<Pending>)
    requires InputInv(p) && PortProgram.Enabled(p, e)
    requires Conveyed(p.sent, Unserved(p) + stdin, accepted)
    requires e.Poll? ==> e.chunk <= stdin
    ensures var q := PortProgram.Step(p, e);
            Conveyed(q.sent, Unserved(q) + stdin[if e.Poll? then |e.chunk| else 0..], accepted)
  {
    if Sends(p, e) {
      SendConveyed(p.sent, p.buffer, stdin, accepted);
    } else {
      UnservedKept(p, e);
      if e.Poll? { PollConveyed(p.sent, Unserved(p), e.chunk, stdin, accepted); }
    }
  }

  lemma FrameOctets(m: Bytes)
    requires Octets(m)
    ensures Octets(Frame(m))
  {
  }

  lemma CallConveyed(sent: seq<Bytes>, unsent: Bytes, accepted: seq<Pending>, x: Pending)
    requires Conveyed(sent, unsent, accepted) && |Encode(x.command)| < 65536
    ensures Conveyed(sent, unsent + Frame(Encode(x.command)), accepted + [x])
  {
    var k, m := |sent| - 1, Encode(x.command);
    assert (accepted + [x])[..k] == accepted[..k];
    assert (accepted + [x])[k..] == accepted[k..] + [x];
    assert Payloads(accepted[k..] + [x]) == Payloads(accepted[k..]) + [m];
    FrameAllAppend(Payloads(accepted[k..]), [m]);
    FrameAllOne(m);
  }

  lemma CallStdin(sent: seq<Bytes>, unserved: Bytes, stdin: Bytes, accepted: seq<Pending>, x: Pending)
    requires Conveyed(sent, unserved + stdin, accepted) && Octets(stdin)
    requires |Encode(x.command)| < 65536 && Octets(Encode(x.command))
    ensures Conveyed(sent, unserved + (stdin + Frame(Encode(x.command))), accepted + [x])
    ensures Octets(stdin + Frame(Encode(x.command)))
  {
    FrameOctets(Encode(x.command));
    CallConveyed(sent, unserved + stdin, accepted, x);
    Assoc(unserved, stdin, Frame(Encode(x.command)));
  }

  // ----------------------------------------------------------------------- lock step

  /** While no request is outstanding in the program, the socket holds events only. */
  lemma QuietSocket(p: Port, answers: seq<Datagram>)
    requires LockStep(p, answers) && OutputInv(p) && !MidRequest(p.control)
    ensures AllEvents(p.inbox)
  {
    NonEventsAppend(Datagrams(p.taken), p.inbox);
    NoNonEvents(p.inbox);
  }

  lemma TakeBalanced(taken: seq<Taken>, t: Taken, sent: seq<Bytes>, mid: bool)
    requires Balanced(taken, sent, mid)
    requires IsEvent(t.datagram) || (mid && t.path != Drained)
    ensures Balanced(taken + [t], sent, mid && IsEvent(t.datagram))
  {
    DatagramsAppend(taken, t);
    var ds := Datagrams(taken);
    assert (ds + [t.datagram])[..|ds|] == ds;
  }

  lemma AttachLock(p: Port, answers: seq<Datagram>)
    requires LockStep(p, answers) && p.control.Attaching? && p.inbox != []
    ensures LockStep(Attach(p), answers)
  {
    TakeBalanced(p.taken, Taken(if IsEvent(p.inbox[0]) then AttachDropped else AttachReply, p.inbox[0]), p.sent, true);
  }

  lemma AwaitLock(p: Port, answers: seq<Datagram>)
    requires LockStep(p, answers) && p.control.Awaiting? && p.inbox != []
    ensures LockStep(Await(p), answers)
  {
    TakeBalanced(p.taken, Taken(if IsEvent(p.inbox[0]) then Callback else RequestReply, p.inbox[0]), p.sent, true);
  }

  lemma DrainLock(p: Port, answers: seq<Datagram>)
    requires LockStep(p, answers) && OutputInv(p) && p.control.Receiving? && p.inbox != []
    ensures LockStep(Take(p, Drained).(control := Draining), answers)
  {
    QuietSocket(p, answers);
    TakeBalanced(p.taken, Taken(Drained, p.inbox[0]), p.sent, false);
  }

  lemma ProgressLock(p: Port, answers: seq<Datagram>, ok: bool)
    requires LockStep(p, answers) && OutputInv(p)
    ensures LockStep(Progress(p, ok), answers)
  {
    match p.control
    case Attaching => if p.inbox != [] { AttachLock(p, answers); }
    case Awaiting(_) => if p.inbox != [] { AwaitLock(p, answers); }
    case Receiving => if p.inbox != [] { DrainLock(p, answers); }
    case Dispatching(_) => DispatchLock(p, answers, ok);
    case _ =>
  }

  lemma DispatchLock(p: Port, answers: seq<Datagram>, ok: bool)
    requires LockStep(p, answers) && p.control.Dispatching?
    ensures LockStep(Dispatch(p, ok), answers)
  {
  }

  lemma PortLock(p: Port, answers: seq<Datagram>, e: Input)
    requires LockStep(p, answers) && OutputInv(p) && PortProgram.Enabled(p, e) && !e.Arrive?
    ensures LockStep(PortProgram.Step(p, e), answers)
  {
    if e.Advance? {
      ProgressLock(p, answers, e.sendOk);
    }
  }

  lemma ArriveLock(p: Port, answers: seq<Datagram>, d: Datagram)
    requires LockStep(p, answers)
    requires IsEvent(d) || |answers| < |p.sent|
    ensures LockStep(Queue(p, d), if IsEvent(d) then answers else answers + [d])
  {
    assert (p.arrived + [d])[..|p.arrived|] == p.arrived;
  }

  // ---------------------------------------------------------------- from the port

  lemma TakeGrows(p: Port, path: Path)
    requires p.inbox != []
    ensures Relayed(p.taken) <= Relayed(Take(p, path).taken)
  {
    RelayedAppend(p.taken, Taken(path, p.inbox[0]));
  }

  lemma RelayedGrows(p: Port, e: Input)
    requires PortProgram.Enabled(p, e)
    ensures Relayed(p.taken) <= Relayed(PortProgram.Step(p, e).taken)
  {
    if e.Advance? && p.inbox != [] {
      match p.control
      case Attaching => TakeGrows(p, if IsEvent(p.inbox[0]) then AttachDropped else AttachReply);
      case Awaiting(_) => TakeGrows(p, if IsEvent(p.inbox[0]) then Callback else RequestReply);
      case Receiving => TakeGrows(p, Drained);
      case _ =>
    }
  }

  lemma PortPiped(p: Port, e: Input, handled: seq<Bytes>, pipe: Bytes)
    requires OutputInv(p) && PortProgram.Enabled(p, e) && Piped(Relayed(p.taken), handled, pipe)
    ensures var q := PortProgram.Step(p, e);
            Piped(Relayed(q.taken), handled, pipe + Written(p, q))
  {
    OutputStep(p, e);
    RelayedGrows(p, e);
    var q := PortProgram.Step(p, e);
    GrowPiped(Relayed(p.taken), Relayed(q.taken), handled, pipe);
  }

  lemma GrowPiped(relayed: seq<Bytes>, more: seq<Bytes>, handled: seq<Bytes>, pipe: Bytes)
    requires Piped(relayed, handled, pipe) && relayed <= more
    ensures |FrameAll(relayed)| <= |FrameAll(more)|
    ensures Piped(more, handled, pipe + FrameAll(more)[|FrameAll(relayed)|..])
  {
    var tail := more[|relayed|..];
    assert more == relayed + tail;
    FrameAllAppend(relayed, tail);
    assert FrameAll(more)[|FrameAll(relayed)|..] == FrameAll(tail);
    assert more[|handled|..] == relayed[|handled|..] + tail;
    FrameAllAppend(relayed[|handled|..], tail);
  }

  /** The first message in the pipe is the first frame not handled yet. */
  lemma NextMessage(relayed: seq<Bytes>, handled: seq<Bytes>, pipe: Bytes)
    requires Piped(relayed, handled, pipe) && Framable(relayed, MAX_FRAME) && FirstFrame(pipe, MAX_FRAME).Complete?
    ensures var m := FirstFrame(pipe, MAX_FRAME).message;
            && |handled| < |relayed| && m == relayed[|handled|]
            && Piped(relayed, handled + [m], pipe[HEADER_SIZE + |m|..])
  {
    var rest := relayed[|handled|..];
    assert rest != [];
    FirstOfFrame(rest[0], FrameAll(rest[1..]), MAX_FRAME);
    assert rest[1..] == relayed[|handled| + 1..];
  }

  // ------------------------------------------------------------------- at the server

  lemma {:induction false} RelayedSplit(a: seq<Taken>, b: seq<Taken>)
    ensures Relayed(a + b) == Relayed(a) + Relayed(b)
  {
    if b == [] {
      assert a + b == a;
    } else {
      assert (a + b)[..|a + b| - 1] == a + b[..|b| - 1];
      RelayedSplit(a, b[..|b| - 1]);
      Assoc(Relayed(a), Relayed(b[..|b| - 1]), Relay(b[|b| - 1]));
    }
  }

  function CutAll(ds: seq<Datagram>): seq<Bytes> {
    seq(|ds|, i requires 0 <= i < |ds| => Cut(ds[i], 2048))
  }

  /** A datagram taken after the handshake. */
  predicate Later(t: Taken) {
    !OnAttach(t) && Consistent(t)
  }

  predicate AllLater(ts: seq<Taken>) {
    forall i :: 0 <= i < |ts| ==> Later(ts[i])
  }

  /** Neither test is changed by the cut, and a reply is cut to the whole buffer. */
  lemma ForwardedKeeps(t: Taken)
    requires Later(t)
    ensures Relay(t) == [Forwarded(t)]
    ensures IsNotification(Forwarded(t)) <==> IsNotification(t.datagram)
    ensures IsEvent(Forwarded(t)) <==> IsEvent(t.datagram)
    ensures !IsEvent(t.datagram) ==> Forwarded(t) == Cut(t.datagram, BUFFER_SIZE)
  {
    PatternSurvivesCut(t.datagram, if t.path == Callback then BUFFER_SIZE - 1 else BUFFER_SIZE);
  }

  /** An event is recognised in its frame exactly when it was in its datagram. */
  lemma RelayedRecognised(ts: seq<Taken>)
    requires AllLater(ts)
    ensures Recognised(Relayed(ts)) <==> Recognised(Datagrams(ts))
  {
    RelayedOneForOne(ts, 0);
    forall i | 0 <= i < |ts|
      ensures IsEvent(Relayed(ts)[i]) <==> IsEvent(Datagrams(ts)[i])
      ensures IsNotification(Relayed(ts)[i]) <==> IsNotification(Datagrams(ts)[i])
    {
      assert Relayed(ts)[i - 0] == Forwarded(ts[i]);
      ForwardedKeeps(ts[i]);
    }
  }

  lemma AppendBoth(frames: seq<Bytes>, ds: seq<Datagram>, f: Bytes, d: Datagram)
    requires Responses(frames) == CutAll(NonEvents(ds))
    requires IsNotification(f) <==> IsEvent(d)
    requires !IsEvent(d) ==> f == Cut(d, BUFFER_SIZE)
    ensures Responses(frames + [f]) == CutAll(NonEvents(ds + [d]))
  {
    assert (frames + [f])[..|frames|] == frames;
    assert (ds + [d])[..|ds|] == ds;
    if !IsEvent(d) {
      assert CutAll(NonEvents(ds) + [d]) == CutAll(NonEvents(ds)) + [f];
    }
  }

  /** If every event is recognised, the responses relayed are the replies, each cut to the buffer. */
  lemma {:induction false} RelayedResponses(ts: seq<Taken>)
    requires AllLater(ts) && Recognised(Datagrams(ts))
    ensures Responses(Relayed(ts)) == CutAll(NonEvents(Datagrams(ts)))
  {
    if ts == [] {
      assert CutAll([]) == [];
    } else {
      var front, t := ts[..|ts| - 1], ts[|ts| - 1];
      assert Datagrams(ts) == Datagrams(front) + [t.datagram];
      assert Datagrams(ts)[|front|] == t.datagram;
      FrontRecognised(Datagrams(front), t.datagram);
      RelayedResponses(front);
      ForwardedKeeps(t);
      AppendBoth(Relayed(front), Datagrams(front), Forwarded(t), t.datagram);
    }
  }

  lemma FrontRecognised(ds: seq<Datagram>, d: Datagram)
    requires Recognised(ds + [d])
    ensures Recognised(ds) && (IsEvent(d) ==> IsNotification(d))
  {
    assert (ds + [d])[|ds|] == d;
    assert forall i :: 0 <= i < |ds| ==> (ds + [d])[i] == ds[i];
  }

  /** And only then. */
  lemma OnlyRecognised(ts: seq<Taken>)
    requires AllLater(ts) && Responses(Relayed(ts)) == CutAll(NonEvents(Datagrams(ts)))
    ensures Recognised(Datagrams(ts))
  {
    NonEventsAreReplies(Datagrams(ts));
    NoEventAmongResponses(Relayed(ts));
    RelayedRecognised(ts);
  }

  /** Every event that is not recognised is one response too many. */
  lemma {:induction false} StraysShift(ts: seq<Taken>)
    requires AllLater(ts)
    ensures |Responses(Relayed(ts))| == |NonEvents(Datagrams(ts))| + |Strays(Datagrams(ts))|
  {
    if ts != [] {
      var front, t := ts[..|ts| - 1], ts[|ts| - 1];
      LaterSnoc(ts);
      StraysShift(front);
      ShiftOne(Relayed(front), Datagrams(front), Forwarded(t), t.datagram);
    }
  }

  lemma LaterSnoc(ts: seq<Taken>)
    requires AllLater(ts) && ts != []
    ensures var front, t := ts[..|ts| - 1], ts[|ts| - 1];
            && AllLater(front)
            && Relayed(ts) == Relayed(front) + [Forwarded(t)] && Datagrams(ts) == Datagrams(front) + [t.datagram]
            && (IsNotification(Forwarded(t)) <==> IsNotification(t.datagram))
  {
    ForwardedKeeps(ts[|ts| - 1]);
  }

  lemma ShiftOne(frames: seq<Bytes>, ds: seq<Datagram>, f: Bytes, d: Datagram)
    requires |Responses(frames)| == |NonEvents(ds)| + |Strays(ds)|
    requires IsNotification(f) <==> IsNotification(d)
    ensures |Responses(frames + [f])| == |NonEvents(ds + [d])| + |Strays(ds + [d])|
  {
    assert (frames + [f])[..|frames|] == frames && (ds + [d])[..|ds|] == ds;
  }

  lemma {:induction false} AttachRelaysNothing(ts: seq<Taken>)
    requires forall i :: 0 <= i < |ts| ==> OnAttach(ts[i])
    ensures Relayed(ts) == []
  {
    if ts != [] {
      AttachRelaysNothing(ts[..|ts| - 1]);
    }
  }

  /** The handshake took one reply, the last of its datagrams. */
  lemma HandshakeReplies(ts: seq<Taken>)
    requires RightPaths(ts, |ts|) && ts != []
    ensures NonEvents(Datagrams(ts)) == ["OK\n"]
  {
    var front := Datagrams(ts)[..|ts| - 1];
    assert RightPath(ts[|ts| - 1], |ts| - 1, |ts|);
    forall i | 0 <= i < |front| ensures IsEvent(front[i]) {
      assert RightPath(ts[i], i, |ts|);
    }
    NoNonEvents(front);
  }

  lemma TakenLater(p: Port)
    requires Handshake(p) && p.attachedAt > 0
    ensures AllLater(p.taken[p.attachedAt..])
  {
    forall i | 0 <= i < |p.taken| - p.attachedAt ensures Later(p.taken[p.attachedAt..][i]) {
      assert RightPath(p.taken[p.attachedAt + i], p.attachedAt + i, p.attachedAt);
    }
  }

  /** The responses relayed so far are the answers after the one to ATTACH, each
      cut to the buffer, and there are no more of them than commands sent after it. */
  predicate Due(due: seq<Bytes>, answers: seq<Datagram>, sent: nat) {
    && |due| < sent
    && (due != [] ==> |due| < |answers|)
    && forall i :: 0 <= i < |due| ==> i + 1 < |answers| && due[i] == Cut(answers[i + 1], BUFFER_SIZE)
  }

  lemma RepliesOf(head: seq<Taken>, tail: seq<Taken>)
    requires head != [] && RightPaths(head, |head|)
    ensures NonEvents(Datagrams(head + tail)) == ["OK\n"] + NonEvents(Datagrams(tail))
  {
    HandshakeReplies(head);
    DatagramsSplit(head, tail);
    NonEventsAppend(Datagrams(head), Datagrams(tail));
  }

  lemma RelaysOf(head: seq<Taken>, tail: seq<Taken>)
    requires RightPaths(head, |head|)
    ensures Relayed(head + tail) == Relayed(tail)
  {
    forall i | 0 <= i < |head| ensures OnAttach(head[i]) {
      assert RightPath(head[i], i, |head|);
    }
    AttachRelaysNothing(head);
    RelayedSplit(head, tail);
    assert [] + Relayed(tail) == Relayed(tail);
  }

  /** The datagrams taken after the handshake; none while it lasts. */
  function LaterTaken(p: Port): seq<Taken> {
    if 0 < p.attachedAt <= |p.taken| then p.taken[p.attachedAt..] else []
  }

  /** Behind the handshake: the replies taken are OK and then those taken later. */
  lemma RepliesTaken(p: Port)
    requires Handshake(p)
    ensures AllLater(LaterTaken(p)) && Relayed(p.taken) == Relayed(LaterTaken(p))
    ensures p.attachedAt > 0 ==>
              NonEvents(Datagrams(p.taken)) == ["OK\n"] + NonEvents(Datagrams(LaterTaken(p)))
  {
    if p.attachedAt == 0 {
      NothingRelayed(p);
    } else {
      var head, tail := p.taken[..p.attachedAt], p.taken[p.attachedAt..];
      assert p.taken == head + tail;
      HeadPaths(p.taken, p.attachedAt);
      RepliesOf(head, tail);
      RelaysOf(head, tail);
      TakenLater(p);
    }
  }

  lemma HeadPaths(ts: seq<Taken>, at: nat)
    requires RightPaths(ts, at)
    ensures RightPaths(ts[..at], at)
  {
    forall i | 0 <= i < at ensures RightPath(ts[..at][i], i, at) {
      assert RightPath(ts[i], i, at);
    }
  }

  lemma CutAllDue(later: seq<Datagram>, rest: seq<Datagram>, sent: nat)
    requires |later| < sent
    ensures Due(CutAll(later), ["OK\n"] + later + rest, sent)
  {
  }

  lemma LaterParts(ts: seq<Taken>, n: nat) returns (a: seq<Taken>, b: seq<Taken>)
    requires AllLater(ts) && n <= |ts|
    ensures |a| == n && AllLater(a)
    ensures Relayed(ts) == Relayed(a) + Relayed(b) && Datagrams(ts) == Datagrams(a) + Datagrams(b)
  {
    a, b := ts[..n], ts[n..];
    assert ts == a + b;
    RelayedSplit(a, b);
    DatagramsSplit(a, b);
  }

  lemma DatagramsSplit(a: seq<Taken>, b: seq<Taken>)
    ensures Datagrams(a + b) == Datagrams(a) + Datagrams(b)
  {
  }

  /** The messages handled are those that some first datagrams have caused. */
  lemma HandledPrefix(ts: seq<Taken>, handled: seq<Bytes>) returns (a: seq<Taken>, b: seq<Taken>)
    requires AllLater(ts) && handled <= Relayed(ts)
    ensures AllLater(a) && handled == Relayed(a) && Datagrams(ts) == Datagrams(a) + Datagrams(b)
  {
    RelayedOneForOne(ts, 0);
    a, b := LaterParts(ts, |handled|);
    RelayedOneForOne(a, 0);
    assert handled == Relayed(ts)[..|handled|] == Relayed(a);
  }

  lemma HandledReplies(ts: seq<Taken>, handled: seq<Bytes>) returns (mine: seq<Datagram>, others: seq<Datagram>)
    requires AllLater(ts) && handled <= Relayed(ts) && Recognised(handled)
    ensures Responses(handled) == CutAll(mine) && NonEvents(Datagrams(ts)) == mine + others
  {
    var a, b := HandledPrefix(ts, handled);
    mine, others := NonEvents(Datagrams(a)), NonEvents(Datagrams(b));
    RelayedRecognised(a);
    RelayedResponses(a);
    NonEventsAppend(Datagrams(a), Datagrams(b));
  }

  lemma DueOfParts(mine: seq<Datagram>, others: seq<Datagram>, more: seq<Datagram>, sent: nat)
    requires 1 + |mine| + |others| <= sent
    ensures Due(CutAll(mine), ["OK\n"] + (mine + others) + more, sent)
  {
    CutAllDue(mine, others + more, sent);
    assert ["OK\n"] + (mine + others) + more == ["OK\n"] + mine + (others + more);
  }

  /** If every event handled is recognised, the responses handled are the answers
      after the one to ATTACH, in order. */
  lemma ResponsesDue(p: Port, answers: seq<Datagram>, handled: seq<Bytes>)
    requires p.sent != [] && OutputInv(p) && Handshake(p) && LockStep(p, answers)
    requires handled <= Relayed(p.taken) && Recognised(handled)
    ensures Due(Responses(handled), answers, |p.sent|)
  {
    RepliesTaken(p);
    if p.attachedAt > 0 {
      var mine, others := HandledReplies(LaterTaken(p), handled);
      NonEventsAppend(Datagrams(p.taken), p.inbox);
      DueOfParts(mine, others, NonEvents(p.inbox), |p.sent|);
    }
  }

  /** One response for every command answered after ATTACH and one for every
      event that is not recognised. */
  lemma ResponsesCount(p: Port, answers: seq<Datagram>)
    requires Handshake(p) && LockStep(p, answers) && p.attachedAt > 0
    ensures |Responses(Relayed(p.taken))| + 1 + (if MidRequest(p.control) then 1 else 0)
         == |p.sent| + |Strays(Datagrams(LaterTaken(p)))|
  {
    RepliesTaken(p);
    StraysShift(LaterTaken(p));
  }

  lemma NothingRelayed(p: Port)
    requires Handshake(p) && p.attachedAt == 0
    ensures Relayed(p.taken) == []
  {
    forall i | 0 <= i < |p.taken| ensures OnAttach(p.taken[i]) {
      assert RightPath(p.taken[i], i, 0);
    }
    AttachRelaysNothing(p.taken);
  }

  // ------------------------------------------------------------------ handling a message

  lemma EventHandled(handled: seq<Bytes>, m: Bytes)
    ensures Responses(handled + [m]) == Responses(handled) + if IsNotification(m) then [] else [m]
    ensures Events(handled + [m]) == Events(handled) + if IsNotification(m) then [Body(m)] else []
  {
    assert (handled + [m])[..|handled|] == handled;
  }

  lemma RespondReplied(accepted: seq<Pending>, requests: seq<Pending>, handled: seq<Bytes>, replies: seq<Delivery>,
                       m: Bytes, response: Response)
    requires Replied(accepted, requests, handled, replies)
    requires requests != [] && !IsNotification(m) && Resp(requests[0].command, m) == Success(response)
    ensures Replied(accepted, requests[1..], handled + [m], replies + [Delivery(requests[0].client, response)])
  {
    EventHandled(handled, m);
    var handled', replies' := handled + [m], replies + [Delivery(requests[0].client, response)];
    assert requests[0] == accepted[|replies|];
    forall i | 0 <= i < |replies'| ensures RightReply(accepted, handled', replies', i) {
      if i < |replies| { assert RightReply(accepted, handled, replies, i); }
    }
  }

  lemma PublishReplied(accepted: seq<Pending>, requests: seq<Pending>, handled: seq<Bytes>, replies: seq<Delivery>,
                       m: Bytes)
    requires Replied(accepted, requests, handled, replies) && IsNotification(m)
    ensures Replied(accepted, requests, handled + [m], replies)
  {
    EventHandled(handled, m);
    forall i | 0 <= i < |replies| ensures RightReply(accepted, handled + [m], replies, i) {
      assert RightReply(accepted, handled, replies, i);
    }
  }

  lemma PublishPublished(handled: seq<Bytes>, events: seq<Notification>, m: Bytes, n: Notification)
    requires Published(handled, events) && IsNotification(m) && Notif(Body(m)) == Success(n)
    ensures Published(handled + [m], events + [n])
  {
    EventHandled(handled, m);
  }

  lemma RespondPublished(handled: seq<Bytes>, events: seq<Notification>, m: Bytes)
    requires Published(handled, events) && !IsNotification(m)
    ensures Published(handled + [m], events)
  {
    EventHandled(handled, m);
    assert Events(handled) + [] == Events(handled);
  }

  lemma CallReplied(accepted: seq<Pending>, requests: seq<Pending>, handled: seq<Bytes>, replies: seq<Delivery>,
                    x: Pending)
    requires Replied(accepted, requests, handled, replies)
    ensures Replied(accepted + [x], requests + [x], handled, replies)
  {
    forall i | 0 <= i < |replies| ensures RightReply(accepted + [x], handled, replies, i) {
      assert RightReply(accepted, handled, replies, i);
    }
  }

  /** While every event relayed is recognised, a response in the pipe has its request in the queue. */
  lemma ResponseHasRequest(s: State)
    requires Pipeline.Inv(s) && FirstFrame(s.pipe, MAX_FRAME).Complete?
    requires !IsNotification(FirstFrame(s.pipe, MAX_FRAME).message) && Recognised(Relayed(s.port.taken))
    ensures s.requests != []
  {
    var relayed, m := Relayed(s.port.taken), FirstFrame(s.pipe, MAX_FRAME).message;
    RelayedFramable(s.port.taken);
    NextMessage(relayed, s.handled, s.pipe);
    PrefixRecognised(s.handled + [m], relayed);
    EventHandled(s.handled, m);
    ResponsesDue(s.port, s.answers, s.handled + [m]);
  }

  lemma PrefixRecognised(handled: seq<Bytes>, relayed: seq<Bytes>)
    requires handled <= relayed && Recognised(relayed)
    ensures Recognised(handled)
  {
    assert forall i :: 0 <= i < |handled| ==> handled[i] == relayed[i];
  }
}
