/**
 The port program `wpa_ex` as a machine over values: what it has read, what it
 has sent to the supplicant, what it took from the control socket and what it
 wrote back. One `Progress` is one pass through a branch of the C code between
 two system calls, so every interleaving with the outside world is a run.

 Nothing is assumed here about the bytes on standard input or about the
 datagrams on the socket.
 */
module PortProgram {
  import opened Sequences
  import opened Framing
  import opened ControlSocket

  /** Size of `erl_buffer` and of `wpa_buffer`. */
  const BUFFER_SIZE := 2048

  /** The place in the program at which a datagram is received. */
  datatype Path =
    | AttachDropped   // event while attaching: there is no callback
    | AttachReply     // the answer to ATTACH
    | Callback        // event while a request is outstanding
    | RequestReply           // the answer to a request
    | Drained         // received by process_wpa

  datatype Taken = Taken(path: Path, datagram: Datagram)

  datatype ExitReason =
    | MessageTooLong | SendFailed | TimedOut | RecvFailed | AttachRefused | EndOfInput | SystemError

  /** Where the program is; `wpaReady` is the poll flag of the control socket. */
  datatype Control =
    | Attaching
    | Polling
    | Dispatching(wpaReady: bool)
    | Awaiting(wpaReady: bool)
    | Draining
    | Receiving
    | Exited(reason: ExitReason, midRequest: bool)

  /** `buffer` is `erl_buffer[..erl_buffer_ix]`, `inbox` the socket queue.
      The other fields are logs: bytes read and written, commands sent (the
      ATTACH of a program that starts is counted before it is known to be sent),
      datagrams that arrived, datagrams taken and by which path, and how many
      of those belonged to the attach handshake (0 until it succeeds). */
  datatype Port = Port(
    control: Control, buffer: Bytes, inbox: seq<Datagram>, stdout: Bytes,
    consumed: Bytes, sent: seq<Bytes>, arrived: seq<Datagram>, taken: seq<Taken>, attachedAt: nat)

  const INITIAL := Port(Attaching, [], [], [], [], ["ATTACH"], [], [], 0)

  /** The frames one received datagram causes on standard output. The callback
      path gives up the last byte of a full buffer to a NUL. */
  function Relay(t: Taken): seq<Bytes> {
    match t.path
    case AttachDropped => []
    case AttachReply => []
    case Callback => [Cut(t.datagram, BUFFER_SIZE - 1)]
    case RequestReply => [Cut(t.datagram, BUFFER_SIZE)]
    case Drained => [Cut(t.datagram, BUFFER_SIZE)]
  }

  function Relayed(ts: seq<Taken>): seq<Bytes> {
    if ts == [] then [] else Relayed(ts[..|ts| - 1]) + Relay(ts[|ts| - 1])
  }

  function Datagrams(ts: seq<Taken>): seq<Datagram> {
    seq(|ts|, i requires 0 <= i < |ts| => ts[i].datagram)
  }

  /** Receives the head of the queue and relays it. */
  function Take(p: Port, path: Path): Port
    requires p.inbox != []
  {
    var t := Taken(path, p.inbox[0]);
    p.(inbox := p.inbox[1..], taken := p.taken + [t], stdout := p.stdout + FrameAll(Relay(t)))
  }

  /** Where process_erl returns to. */
  function Idle(wpaReady: bool): Control {
    if wpaReady then Draining else Polling
  }

  /** The buffer once its first frame has been served and moved out. */
  function Served(buffer: Bytes): Bytes {
    match FirstFrame(buffer, BUFFER_SIZE)
    case Complete(m) => buffer[HEADER_SIZE + |m|..]
    case _ => buffer
  }

  predicate Busy(c: Control) {
    c.Attaching? || c.Awaiting?
  }

  function Stop(p: Port, reason: ExitReason): Port {
    p.(control := Exited(reason, if p.control.Exited? then p.control.midRequest else Busy(p.control)))
  }

  /** try_dispatch up to and including the send. */
  function Dispatch(p: Port, sendOk: bool): Port
    requires p.control.Dispatching?
  {
    match FirstFrame(p.buffer, BUFFER_SIZE)
    case Incomplete => p.(control := Idle(p.control.wpaReady))
    case TooLong => Stop(p, MessageTooLong)
    case Complete(m) =>
      if sendOk then p.(sent := p.sent + [m], control := Awaiting(p.control.wpaReady)) else Stop(p, SendFailed)
  }

  /** One receive of the loop in wpa_ctrl_request, for a request from Erlang. */
  function Await(p: Port): Port
    requires p.control.Awaiting? && p.inbox != []
  {
    if IsEvent(p.inbox[0]) then Take(p, Callback)
    else
      var rest := Served(p.buffer);
      Take(p, RequestReply).(buffer := rest,
                      control := if rest == [] then Idle(p.control.wpaReady) else Dispatching(p.control.wpaReady))
  }

  /** One receive of the same loop for ATTACH, which passes no callback and a
      ten-byte buffer. */
  function Attach(p: Port): Port
    requires p.control.Attaching? && p.inbox != []
  {
    if IsEvent(p.inbox[0]) then Take(p, AttachDropped)
    else
      var q := Take(p, AttachReply);
      if Cut(p.inbox[0], 10) == "OK\n" then q.(control := Polling, attachedAt := |q.taken|)
      else q.(control := Exited(AttachRefused, false))
  }

  /** What the program does next of its own accord; a blocked program stays put. */
  function Progress(p: Port, sendOk: bool): Port {
    match p.control
    case Attaching => if p.inbox == [] then p else Attach(p)
    case Dispatching(_) => Dispatch(p, sendOk)
    case Awaiting(_) => if p.inbox == [] then p else Await(p)
    case Draining => p.(control := if p.inbox == [] then Polling else Receiving)
    case Receiving => if p.inbox == [] then Stop(p, RecvFailed) else Take(p, Drained).(control := Draining)
    case _ => p
  }

  /** poll returns, and `chunk` is what read delivers (empty: stdin was not ready). */
  function Wake(p: Port, chunk: Bytes, wpaReady: bool): Port
    requires p.control.Polling?
  {
    p.(buffer := p.buffer + chunk, consumed := p.consumed + chunk,
       control := if chunk != [] then Dispatching(wpaReady) else Idle(wpaReady))
  }

  function Queue(p: Port, d: Datagram): Port {
    p.(inbox := p.inbox + [d], arrived := p.arrived + [d])
  }

  datatype Input =
    | Arrive(datagram: Datagram)
    | Poll(chunk: Bytes, wpaReady: bool)
    | Advance(sendOk: bool)
    | SelectTimeout
    | InputClosed
    | AttachUnsent
    | SystemFault

  predicate Enabled(p: Port, e: Input) {
    match e
    case Arrive(_) => true
    case Poll(chunk, ready) =>
      && p.control.Polling?
      && |chunk| <= BUFFER_SIZE - |p.buffer| && Octets(chunk)
      && (ready ==> p.inbox != [])
    case Advance(_) => true
    case SelectTimeout => Busy(p.control) && p.inbox == []
    case InputClosed => p.control.Polling?
    case AttachUnsent => p.control.Attaching? && p.taken == []
    case SystemFault => !p.control.Exited?
  }

  function Step(p: Port, e: Input): Port
    requires Enabled(p, e)
  {
    match e
    case Arrive(d) => Queue(p, d)
    case Poll(chunk, ready) => Wake(p, chunk, ready)
    case Advance(ok) => Progress(p, ok)
    case SelectTimeout => Stop(p, TimedOut)
    case InputClosed => Stop(p, EndOfInput)
    case AttachUnsent => Stop(p, SendFailed)
    case SystemFault => Stop(p, SystemError)
  }

  // ---------------------------------------------------------------- invariant

  predicate MidRequest(c: Control) {
    Busy(c) || (c.Exited? && c.midRequest)
  }

  /** The bytes read but not yet sent on: the head of the buffer is still there
      while its request is outstanding. */
  function Unserved(p: Port): Bytes {
    if MidRequest(p.control) && |p.sent| > 1 then Served(p.buffer) else p.buffer
  }

  predicate AtRest(c: Control) {
    c.Polling? || c.Draining? || c.Receiving?
  }

  /** What standard input has become: the commands sent, then the unserved
      bytes, the first of which are the command in flight if there is one. */
  predicate InputInv(p: Port) {
    && p.sent != [] && p.sent[0] == "ATTACH"
    && |p.buffer| <= BUFFER_SIZE && Octets(p.buffer)
    && Read(p.consumed, p.sent, Unserved(p))
    && BufferMatches(p.control, p.buffer, p.sent)
  }

  predicate Read(consumed: Bytes, sent: seq<Bytes>, unserved: Bytes)
    requires sent != []
  {
    Framable(sent[1..], BUFFER_SIZE) && consumed == FrameAll(sent[1..]) + unserved
  }

  predicate BufferMatches(c: Control, buffer: Bytes, sent: seq<Bytes>)
    requires sent != []
  {
    var first := FirstFrame(buffer, BUFFER_SIZE);
    && (MidRequest(c) && |sent| > 1 ==> first == Complete(sent[|sent| - 1]))
    && (c.Attaching? ==> |sent| == 1 && buffer == [])
    && (c.Awaiting? ==> |sent| > 1)
    && (AtRest(c) ==> first == Incomplete)
    && (c.Exited? && c.reason == MessageTooLong ==> !c.midRequest && first == TooLong)
  }

  predicate OnAttach(t: Taken) {
    t.path == AttachDropped || t.path == AttachReply
  }

  /** A datagram took a path the event test allows. */
  predicate Consistent(t: Taken) {
    && (t.path == AttachDropped || t.path == Callback ==> IsEvent(t.datagram))
    && (t.path == AttachReply || t.path == RequestReply ==> !IsEvent(t.datagram))
  }

  /** The i-th datagram, when the handshake took `at` of them: events that were
      dropped and then OK, or still none of these. */
  predicate RightPath(t: Taken, i: int, at: nat) {
    && Consistent(t)
    && (OnAttach(t) <==> at == 0 || i < at)
    && (i + 1 == at ==> t == Taken(AttachReply, "OK\n"))
    && (i + 1 < at ==> t.path == AttachDropped)
  }

  predicate RightPaths(ts: seq<Taken>, at: nat) {
    at <= |ts| && forall i :: 0 <= i < |ts| ==> RightPath(ts[i], i, at)
  }

  predicate AllDropped(ts: seq<Taken>) {
    forall i :: 0 <= i < |ts| ==> ts[i].path == AttachDropped
  }

  predicate Handshake(p: Port) {
    && RightPaths(p.taken, p.attachedAt)
    && (p.control.Attaching? ==> p.attachedAt == 0 && AllDropped(p.taken))
    && (p.attachedAt == 0 ==> p.control.Attaching? || p.control.Exited?)
  }

  /** What the control socket has become. */
  predicate Carried(arrived: seq<Datagram>, taken: seq<Taken>, inbox: seq<Datagram>, stdout: Bytes) {
    arrived == Datagrams(taken) + inbox && stdout == FrameAll(Relayed(taken))
  }

  predicate OutputInv(p: Port) {
    Carried(p.arrived, p.taken, p.inbox, p.stdout)
  }

  /** recv is only called on a socket that holds a datagram. */
  predicate RecvInv(p: Port) {
    && (p.control.Receiving? ==> p.inbox != [])
    && !(p.control.Exited? && p.control.reason == RecvFailed)
  }

  predicate Inv(p: Port) {
    InputInv(p) && OutputInv(p) && Handshake(p) && RecvInv(p)
  }

  // --------------------------------------------------------------------- output

  lemma RelayedAppend(ts: seq<Taken>, t: Taken)
    ensures Relayed(ts + [t]) == Relayed(ts) + Relay(t)
  {
    assert (ts + [t])[..|ts|] == ts;
  }

  lemma DatagramsAppend(ts: seq<Taken>, t: Taken)
    ensures Datagrams(ts + [t]) == Datagrams(ts) + [t.datagram]
  {
  }

  lemma TakeCarried(arrived: seq<Datagram>, taken: seq<Taken>, inbox: seq<Datagram>, stdout: Bytes, path: Path)
    requires inbox != [] && Carried(arrived, taken, inbox, stdout)
    ensures var t := Taken(path, inbox[0]);
            Carried(arrived, taken + [t], inbox[1..], stdout + FrameAll(Relay(t)))
  {
    var t := Taken(path, inbox[0]);
    RelayedAppend(taken, t);
    FrameAllAppend(Relayed(taken), Relay(t));
    DatagramsAppend(taken, t);
    MoveHead(Datagrams(taken), inbox);
  }

  lemma TakeOutput(p: Port, path: Path)
    requires p.inbox != [] && OutputInv(p)
    ensures OutputInv(Take(p, path))
  {
    TakeCarried(p.arrived, p.taken, p.inbox, p.stdout, path);
  }

  lemma AttachOutput(p: Port)
    requires OutputInv(p) && p.control.Attaching? && p.inbox != []
    ensures OutputInv(Attach(p))
  {
    TakeOutput(p, if IsEvent(p.inbox[0]) then AttachDropped else AttachReply);
  }

  lemma AwaitOutput(p: Port)
    requires OutputInv(p) && p.control.Awaiting? && p.inbox != []
    ensures OutputInv(Await(p))
  {
    TakeOutput(p, if IsEvent(p.inbox[0]) then Callback else RequestReply);
  }

  lemma OutputProgress(p: Port, ok: bool)
    requires OutputInv(p)
    ensures OutputInv(Progress(p, ok))
  {
    match p.control
    case Attaching => if p.inbox != [] { AttachOutput(p); }
    case Awaiting(_) => if p.inbox != [] { AwaitOutput(p); }
    case Receiving => if p.inbox != [] { TakeOutput(p, Drained); }
    case _ =>
  }

  lemma OutputStep(p: Port, e: Input)
    requires OutputInv(p) && Enabled(p, e)
    ensures OutputInv(Step(p, e))
  {
    match e
    case Arrive(d) => Assoc(Datagrams(p.taken), p.inbox, [d]);
    case Advance(ok) => OutputProgress(p, ok);
    case _ =>
  }

  // ------------------------------------------------------------------- handshake

  lemma PathsAppend(ts: seq<Taken>, t: Taken, at: nat)
    requires RightPaths(ts, at) && Consistent(t)
    requires at == 0 ==> OnAttach(t)
    requires at > 0 ==> !OnAttach(t)
    ensures RightPaths(ts + [t], at)
  {
  }

  lemma AttachHandshake(p: Port)
    requires Handshake(p) && p.control.Attaching? && p.inbox != []
    ensures Handshake(Attach(p))
  {
    var t := Taken(if IsEvent(p.inbox[0]) then AttachDropped else AttachReply, p.inbox[0]);
    var ts := p.taken + [t];
    if t.path == AttachReply && Cut(t.datagram, 10) == "OK\n" {
      forall i | 0 <= i < |ts| ensures RightPath(ts[i], i, |ts|) {
        if i < |p.taken| { assert ts[i] == p.taken[i]; }
      }
    } else {
      PathsAppend(p.taken, t, 0);
    }
  }

  lemma AwaitHandshake(p: Port)
    requires Handshake(p) && p.control.Awaiting? && p.inbox != []
    ensures Handshake(Await(p))
  {
    PathsAppend(p.taken, Taken(if IsEvent(p.inbox[0]) then Callback else RequestReply, p.inbox[0]), p.attachedAt);
  }

  lemma HandshakeProgress(p: Port, ok: bool)
    requires Handshake(p)
    ensures Handshake(Progress(p, ok))
  {
    match p.control
    case Attaching => if p.inbox != [] { AttachHandshake(p); }
    case Awaiting(_) => if p.inbox != [] { AwaitHandshake(p); }
    case Receiving => if p.inbox != [] { PathsAppend(p.taken, Taken(Drained, p.inbox[0]), p.attachedAt); }
    case _ =>
  }

  lemma HandshakeStep(p: Port, e: Input)
    requires Handshake(p) && Enabled(p, e)
    ensures Handshake(Step(p, e))
  {
    if e.Advance? {
      HandshakeProgress(p, e.sendOk);
    }
  }

  // ----------------------------------------------------------------------- input

  lemma SendRead(consumed: Bytes, sent: seq<Bytes>, buffer: Bytes)
    requires sent != [] && Octets(buffer) && FirstFrame(buffer, BUFFER_SIZE).Complete?
    requires Read(consumed, sent, buffer)
    ensures Read(consumed, sent + [FirstFrame(buffer, BUFFER_SIZE).message], Served(buffer))
  {
    var m := FirstFrame(buffer, BUFFER_SIZE).message;
    assert (sent + [m])[1..] == sent[1..] + [m];
    FrameAllAppend(sent[1..], [m]);
    FrameAllOne(m);
    FrameOfFirst(buffer, BUFFER_SIZE);
    Assoc(FrameAll(sent[1..]), Frame(m), Served(buffer));
  }

  lemma ChunkRead(consumed: Bytes, sent: seq<Bytes>, unserved: Bytes, chunk: Bytes)
    requires sent != [] && Read(consumed, sent, unserved)
    ensures Read(consumed + chunk, sent, unserved + chunk)
  {
    Assoc(FrameAll(sent[1..]), unserved, chunk);
  }

  lemma SendInput(p: Port)
    requires InputInv(p) && p.control.Dispatching? && FirstFrame(p.buffer, BUFFER_SIZE).Complete?
    ensures InputInv(Dispatch(p, true))
  {
    SendRead(p.consumed, p.sent, p.buffer);
  }

  lemma ServedOctets(buffer: Bytes)
    requires Octets(buffer)
    ensures Octets(Served(buffer)) && |Served(buffer)| <= |buffer|
  {
  }

  lemma AwaitInput(p: Port)
    requires InputInv(p) && p.control.Awaiting? && p.inbox != []
    ensures InputInv(Await(p))
  {
    ServedOctets(p.buffer);
  }

  lemma DispatchInput(p: Port, ok: bool)
    requires InputInv(p) && p.control.Dispatching?
    ensures InputInv(Dispatch(p, ok))
  {
    match FirstFrame(p.buffer, BUFFER_SIZE)
    case Complete(_) =>
      if ok { SendInput(p); } else { StopInput(p, SendFailed); }
    case _ =>
  }

  lemma AttachInput(p: Port)
    requires InputInv(p) && p.control.Attaching? && p.inbox != []
    ensures InputInv(Attach(p))
  {
  }

  lemma WakeInput(p: Port, chunk: Bytes, ready: bool)
    requires InputInv(p) && p.control.Polling? && |chunk| <= BUFFER_SIZE - |p.buffer| && Octets(chunk)
    ensures InputInv(Wake(p, chunk, ready))
  {
    ChunkRead(p.consumed, p.sent, p.buffer, chunk);
    if chunk == [] { assert p.buffer + chunk == p.buffer; }
  }

  lemma StopInput(p: Port, reason: ExitReason)
    requires InputInv(p) && !p.control.Exited? && reason != MessageTooLong
    ensures InputInv(Stop(p, reason))
  {
  }

  lemma InputProgress(p: Port, ok: bool)
    requires InputInv(p)
    ensures InputInv(Progress(p, ok))
  {
    match p.control
    case Attaching => if p.inbox != [] { AttachInput(p); }
    case Dispatching(_) => DispatchInput(p, ok);
    case Awaiting(_) => if p.inbox != [] { AwaitInput(p); }
    case Receiving => if p.inbox == [] { StopInput(p, RecvFailed); }
    case _ =>
  }

  lemma InputStep(p: Port, e: Input)
    requires InputInv(p) && Enabled(p, e)
    ensures InputInv(Step(p, e))
  {
    match e
    case Poll(chunk, ready) => WakeInput(p, chunk, ready);
    case Advance(ok) => InputProgress(p, ok);
    case SelectTimeout => StopInput(p, TimedOut);
    case InputClosed => StopInput(p, EndOfInput);
    case AttachUnsent => StopInput(p, SendFailed);
    case SystemFault => StopInput(p, SystemError);
    case Arrive(d) => assert Unserved(Step(p, e)) == Unserved(p);
  }

  lemma RecvStep(p: Port, e: Input)
    requires RecvInv(p) && Enabled(p, e)
    ensures RecvInv(Step(p, e))
  {
  }

  lemma InvStep(p: Port, e: Input)
    requires Inv(p) && Enabled(p, e)
    ensures Inv(Step(p, e))
  {
    InputStep(p, e);
    OutputStep(p, e);
    HandshakeStep(p, e);
    RecvStep(p, e);
  }

  lemma WakeInv(p: Port, chunk: Bytes, ready: bool)
    requires Inv(p) && p.control.Polling? && |chunk| <= BUFFER_SIZE - |p.buffer| && Octets(chunk)
    ensures Inv(Wake(p, chunk, ready))
  {
    WakeInput(p, chunk, ready);
  }

  // --------------------------------------------------------------------- runs

  predicate Legal(p: Port, es: seq<Input>)
    decreases |es|
  {
    es == [] || (Enabled(p, es[0]) && Legal(Step(p, es[0]), es[1..]))
  }

  function Run(p: Port, es: seq<Input>): Port
    requires Legal(p, es)
    decreases |es|
  {
    if es == [] then p else Run(Step(p, es[0]), es[1..])
  }

  lemma {:induction false} InvRun(p: Port, es: seq<Input>)
    requires Inv(p) && Legal(p, es)
    ensures Inv(Run(p, es))
    decreases |es|
  {
    if es != [] {
      InvStep(p, es[0]);
      InvRun(Step(p, es[0]), es[1..]);
    }
  }
}
