/**
 The whole system as one state machine: callers and the Elixir server, the two
 pipes, the port program, and the supplicant behind a datagram socket. No message
 carries a request id.

 Assumed of the world: the supplicant answers each command once, in order; its
 replies do not begin with '<' and its events do; the pipes and the socket keep
 order; a payload fits the two-byte length of the pipe to the port. That an event
 has the form the server recognises is not assumed.
 */
module Pipeline {
  import opened Framing
  import opened ControlSocket
  import opened PortProgram
  import opened Encoder
  import opened Decoder
  import opened GenServer

  datatype Status = Running | Crashed(reason: CrashReason) | Stopped

  datatype Delivery = Delivery(client: nat, response: Response)

  /** `stdin` and `pipe` are the bytes in the two pipes. The last five fields are
      logs: calls accepted, answers the supplicant gave (the k-th answers the
      k-th command sent), messages handled, replies and events delivered. */
  datatype State = State(
    requests: seq<Pending>, status: Status, stdin: Bytes, port: Port, pipe: Bytes,
    accepted: seq<Pending>, answers: seq<Datagram>, handled: seq<Bytes>,
    replies: seq<Delivery>, events: seq<Notification>)

  const START := State([], Running, [], INITIAL, [], [], [], [], [], [])

  datatype Label =
    | Call(client: nat, command: Command)
    | PortMoves(input: Input)
    | SupplicantEvent(datagram: Datagram)
    | SupplicantReply(datagram: Datagram)
    | Deliver
    | ExitStatus

  predicate Enabled(s: State, l: Label) {
    match l
    case Call(_, command) => s.status == Running && |Encode(command)| < 65536 && Octets(Encode(command))
    case PortMoves(e) =>
      && !e.Arrive?
      && PortProgram.Enabled(s.port, e)
      && (e.Poll? ==> e.chunk <= s.stdin)
      && (e.InputClosed? ==> s.status != Running && s.stdin == [])
    case SupplicantEvent(d) => IsEvent(d)
    case SupplicantReply(d) => !IsEvent(d) && |s.answers| < |s.port.sent|
    case Deliver => s.status == Running && FirstFrame(s.pipe, MAX_FRAME).Complete?
    case ExitStatus => s.status == Running && s.port.control.Exited?
  }

  /** handle_info on the first message in the pipe from the port. */
  function Receive(s: State): State
    requires FirstFrame(s.pipe, MAX_FRAME).Complete?
  {
    var m := FirstFrame(s.pipe, MAX_FRAME).message;
    var (effect, requests) := HandleWpa(s.requests, m);
    var s' := s.(requests := requests, pipe := s.pipe[HEADER_SIZE + |m|..], handled := s.handled + [m]);
    match effect
    case Publish(n) => s'.(events := s.events + [n])
    case Respond(client, response) => s'.(replies := s.replies + [Delivery(client, response)])
    case Fault(reason) => s.(status := Crashed(reason))
  }

  /** handle_call: the payload goes into the pipe as one frame. */
  function Accept(s: State, client: nat, command: Command): State {
    var (payload, requests) := HandleCall(s.requests, client, command);
    s.(requests := requests, stdin := s.stdin + Frame(payload), accepted := s.accepted + [Pending(client, command)])
  }

  /** The bytes a step of the port program has added to its standard output. */
  function Written(p: Port, q: Port): Bytes {
    if |p.stdout| <= |q.stdout| then q.stdout[|p.stdout|..] else []
  }

  /** The port program moves to `q` and takes `n` bytes out of the pipe. */
  function Move(s: State, q: Port, n: nat): State
    requires n <= |s.stdin|
  {
    s.(port := q, pipe := s.pipe + Written(s.port, q), stdin := s.stdin[n..])
  }

  function Step(s: State, l: Label): State
    requires Enabled(s, l)
  {
    match l
    case Call(client, command) => Accept(s, client, command)
    case PortMoves(e) => Move(s, PortProgram.Step(s.port, e), if e.Poll? then |e.chunk| else 0)
    case SupplicantEvent(d) => s.(port := Queue(s.port, d))
    case SupplicantReply(d) => s.(port := Queue(s.port, d), answers := s.answers + [d])
    case Deliver => Receive(s)
    case ExitStatus => s.(status := Stopped)
  }

  predicate Legal(s: State, ls: seq<Label>)
    decreases |ls|
  {
    ls == [] || (Enabled(s, ls[0]) && Legal(Step(s, ls[0]), ls[1..]))
  }

  function Run(s: State, ls: seq<Label>): State
    requires Legal(s, ls)
    decreases |ls|
  {
    if ls == [] then s else Run(Step(s, ls[0]), ls[1..])
  }

  // --------------------------------------------------------------------- invariant

  function Payloads(ps: seq<Pending>): seq<Bytes> {
    seq(|ps|, i requires 0 <= i < |ps| => Encode(ps[i].command))
  }

  /** The commands sent are the first payloads, and the rest are still on their
      way, whole and in order: unserved in the buffer, then in the pipe. */
  predicate Conveyed(sent: seq<Bytes>, unsent: Bytes, accepted: seq<Pending>) {
    && 1 <= |sent| <= |accepted| + 1
    && (forall i :: 0 <= i < |accepted| ==> |Encode(accepted[i].command)| < 65536)
    && sent[1..] == Payloads(accepted[..|sent| - 1])
    && unsent == FrameAll(Payloads(accepted[|sent| - 1..]))
  }

  predicate StdinInv(s: State) {
    && Octets(s.stdin)
    && Conveyed(s.port.sent, Unserved(s.port) + s.stdin, s.accepted)
  }

  /** Lock step: one command is unanswered in the program exactly while it waits
      inside a request, and nothing else than events is ever drained. */
  predicate LockStep(p: Port, answers: seq<Datagram>) {
    && NonEvents(p.arrived) == answers
    && |answers| <= |p.sent|
    && Balanced(p.taken, p.sent, MidRequest(p.control))
  }

  /** As many replies taken as commands sent, but for the one being waited for;
      and nothing else than events is ever drained. */
  predicate Balanced(taken: seq<Taken>, sent: seq<Bytes>, mid: bool) {
    && |NonEvents(Datagrams(taken))| + (if mid then 1 else 0) == |sent|
    && forall i :: 0 <= i < |taken| && taken[i].path == Drained ==> IsEvent(taken[i].datagram)
  }

  predicate LockInv(s: State) {
    LockStep(s.port, s.answers)
  }

  /** The pipe holds the frames that were relayed and not handled yet. */
  predicate Piped(relayed: seq<Bytes>, handled: seq<Bytes>, pipe: Bytes) {
    handled <= relayed && pipe == FrameAll(relayed[|handled|..])
  }

  predicate PipeInv(s: State) {
    Piped(Relayed(s.port.taken), s.handled, s.pipe)
  }

  /** The i-th reply went to the i-th caller and is the decoding, for its own
      command, of the i-th response handled. */
  predicate RightReply(accepted: seq<Pending>, handled: seq<Bytes>, replies: seq<Delivery>, i: nat)
    requires i < |replies| && i < |accepted| && i < |Responses(handled)|
  {
    && replies[i].client == accepted[i].client
    && Resp(accepted[i].command, Responses(handled)[i]) == Success(replies[i].response)
  }

  predicate Replied(accepted: seq<Pending>, requests: seq<Pending>, handled: seq<Bytes>, replies: seq<Delivery>) {
    && |replies| + |requests| == |accepted|
    && requests == accepted[|replies|..]
    && |replies| == |Responses(handled)|
    && forall i :: 0 <= i < |replies| ==> RightReply(accepted, handled, replies, i)
  }

  predicate Published(handled: seq<Bytes>, events: seq<Notification>) {
    && |events| == |Events(handled)|
    && forall i :: 0 <= i < |events| ==> Notif(Events(handled)[i]) == Success(events[i])
  }

  predicate ServerInv(s: State) {
    && Replied(s.accepted, s.requests, s.handled, s.replies)
    && Published(s.handled, s.events)
  }

  /** Only an event that the server does not recognise can meet an empty queue. */
  predicate RequestInv(s: State) {
    Recognised(Relayed(s.port.taken)) ==> s.status != Crashed(NoRequest)
  }

  predicate Inv(s: State) {
    PortProgram.Inv(s.port) && StdinInv(s) && LockInv(s) && PipeInv(s) && ServerInv(s) && RequestInv(s)
  }
}
