/** No deadlock: from every state in which nothing has gone wrong yet, the system
    can run on until every pending call has its answer. */
module PipelineProgress {
  import opened Framing
  import opened ControlSocket
  import opened Strings
  import opened PortProgram
  import opened PortTheorems
  import opened Encoder
  import opened Decoder
  import opened GenServer
  import opened Pipeline
  import opened PipelineInvariant
  import opened PipelineTheorems
  import opened PipelineStrays
  import ReplyTheorems

  // --------------------------------------------------------------- nothing has gone wrong

  predicate Fits(accepted: seq<Pending>) {
    forall i :: 0 <= i < |accepted| ==> |Encode(accepted[i].command)| <= 2046
  }

  predicate Publishable(m: Bytes) {
    IsNotification(m) && Notif(Body(m)).Success?
  }

  /** The events can be published, on whichever path they are forwarded. */
  predicate EventsDecode(ds: seq<Datagram>) {
    forall i :: 0 <= i < |ds| && IsEvent(ds[i]) ==>
      Publishable(Cut(ds[i], 2048)) && Publishable(Cut(ds[i], 2047))
  }

  /** ATTACH was answered with OK, and the other answers can be decoded for the
      requests they answer. */
  predicate AnswersDecode(accepted: seq<Pending>, answers: seq<Datagram>) {
    && (answers != [] ==> answers[0] == "OK\n")
    && forall k :: 1 <= k < |answers| && k <= |accepted| ==>
         Resp(accepted[k - 1].command, Cut(answers[k], 2048)).Success?
  }

  /** The datagrams that have arrived, without those taken by the handshake. */
  function ArrivedLater(p: Port): seq<Datagram> {
    if p.attachedAt <= |p.arrived| then p.arrived[p.attachedAt..] else []
  }

  /** Both programs run, and nothing on its way will end them. */
  predicate Healthy(s: State) {
    && s.status == Running && !s.port.control.Exited?
    && Fits(s.accepted) && AnswersDecode(s.accepted, s.answers)
    && EventsDecode(ArrivedLater(s.port))
  }

  predicate Alive(s: State) {
    Pipeline.Inv(s) && Healthy(s)
  }

  /** Nothing is left to do. */
  predicate Settled(s: State) {
    s.port.control.Polling? && s.port.inbox == [] && s.stdin == [] && s.pipe == []
  }

  // ------------------------------------------------------------------------- the measure

  function Unsent(s: State): nat {
    |Unserved(s.port)| + |s.stdin|
  }

  function Owed(s: State): nat {
    if |s.answers| <= |s.port.sent| then |s.port.sent| - |s.answers| else 0
  }

  /** How far the port program is from its poll, or from draining what has arrived. */
  function Rank(c: Control, quiet: bool): nat {
    match c
    case Dispatching(_) => 5
    case Polling => if quiet then 0 else 4
    case Draining => if quiet then 1 else 3
    case Receiving => 2
    case _ => 0
  }

  /** `t` is closer to a settled state than `s`: fewer bytes to send, or else fewer
      answers owed, or else fewer datagrams to take, and so on. */
  predicate Closer(t: State, s: State) {
    Unsent(t) < Unsent(s) || (Unsent(t) == Unsent(s) &&
    (Owed(t) < Owed(s) || (Owed(t) == Owed(s) &&
    (|t.port.inbox| < |s.port.inbox| || (|t.port.inbox| == |s.port.inbox| &&
    (|t.pipe| < |s.pipe| || (|t.pipe| == |s.pipe| &&
    (|t.stdin| < |s.stdin| || (|t.stdin| == |s.stdin| &&
    Rank(t.port.control, t.port.inbox == []) < Rank(s.port.control, s.port.inbox == []))))))))))
  }

  /** A step that keeps the system healthy and brings it closer, without a new call. */
  predicate Helps(s: State, l: Label) {
    Pipeline.Enabled(s, l) &&
    var t := Pipeline.Step(s, l);
    Healthy(t) && Closer(t, s) && t.accepted == s.accepted
  }

  // ---------------------------------------------------------------------------- delivery

  lemma LaterArrived(p: Port, k: nat)
    requires OutputInv(p) && 0 < p.attachedAt && p.attachedAt + k < |p.taken|
    ensures LaterTaken(p)[k].datagram == ArrivedLater(p)[k]
  {
  }

  /** The frame relayed for the k-th datagram behind the handshake. */
  lemma FrameOf(p: Port, k: nat)
    requires OutputInv(p) && Handshake(p) && k < |Relayed(p.taken)|
    ensures p.attachedAt > 0 && k < |LaterTaken(p)| && Later(LaterTaken(p)[k])
    ensures Relayed(p.taken)[k] == Forwarded(LaterTaken(p)[k])
    ensures k < |ArrivedLater(p)| && LaterTaken(p)[k].datagram == ArrivedLater(p)[k]
  {
    RepliesTaken(p);
    OneFrame(LaterTaken(p), k);
    LaterArrived(p, k);
  }

  lemma OneFrame(ts: seq<Taken>, k: nat)
    requires AllLater(ts) && k < |Relayed(ts)|
    ensures k < |ts| && Relayed(ts)[k] == Forwarded(ts[k])
  {
    RelayedOneForOne(ts, 0);
    assert Relayed(ts)[k - 0] == Forwarded(ts[k]);
  }

  lemma EventsRecognised(p: Port)
    requires OutputInv(p) && Handshake(p) && EventsDecode(ArrivedLater(p))
    ensures Recognised(Relayed(p.taken))
  {
    forall k | 0 <= k < |Relayed(p.taken)| && IsEvent(Relayed(p.taken)[k]) ensures IsNotification(Relayed(p.taken)[k]) {
      EventDecodes(p, k);
    }
  }

  lemma EventDecodes(p: Port, k: nat)
    requires OutputInv(p) && Handshake(p) && EventsDecode(ArrivedLater(p))
    requires k < |Relayed(p.taken)| && IsEvent(Relayed(p.taken)[k])
    ensures Publishable(Relayed(p.taken)[k])
  {
    FrameOf(p, k);
    ForwardedKeeps(LaterTaken(p)[k]);
  }

  lemma OldestAnswer(accepted: seq<Pending>, requests: seq<Pending>, handled: seq<Bytes>, replies: seq<Delivery>,
                     answers: seq<Datagram>, sent: nat, m: Bytes)
    requires Replied(accepted, requests, handled, replies) && AnswersDecode(accepted, answers)
    requires !IsNotification(m) && sent <= |accepted| + 1 && Due(Responses(handled + [m]), answers, sent)
    ensures requests != [] && Resp(requests[0].command, m).Success?
  {
    EventHandled(handled, m);
    var k := |replies|;
    assert Responses(handled + [m])[k] == m;
    assert requests[0] == accepted[k];
    assert m == Cut(answers[k + 1], BUFFER_SIZE);
    assert Resp(accepted[k + 1 - 1].command, Cut(answers[k + 1], BUFFER_SIZE)).Success?;
  }

  /** A response in the pipe is the answer to the oldest request, and is decoded. */
  lemma ResponseDecodes(s: State, m: Bytes)
    requires Alive(s) && s.handled + [m] <= Relayed(s.port.taken) && !IsNotification(m)
    ensures s.requests != [] && Resp(s.requests[0].command, m).Success?
  {
    EventsRecognised(s.port);
    PrefixRecognised(s.handled + [m], Relayed(s.port.taken));
    ResponsesDue(s.port, s.answers, s.handled + [m]);
    OldestAnswer(s.accepted, s.requests, s.handled, s.replies, s.answers, |s.port.sent|, m);
  }

  lemma FirstInPipe(relayed: seq<Bytes>, handled: seq<Bytes>, pipe: Bytes)
    requires Piped(relayed, handled, pipe) && Framable(relayed, MAX_FRAME) && pipe != []
    ensures FirstFrame(pipe, MAX_FRAME).Complete?
    ensures |handled| < |relayed| && FirstFrame(pipe, MAX_FRAME).message == relayed[|handled|]
    ensures handled + [relayed[|handled|]] <= relayed
  {
    var rest := relayed[|handled|..];
    assert rest != [];
    FirstOfFrame(rest[0], FrameAll(rest[1..]), MAX_FRAME);
  }

  /** The server handles the next message, and goes on. */
  lemma DeliverRuns(s: State) returns (t: State)
    requires Alive(s) && s.pipe != []
    ensures Pipeline.Enabled(s, Deliver) && t == Pipeline.Step(s, Deliver)
    ensures t == s.(requests := t.requests, pipe := t.pipe, handled := t.handled,
                    replies := t.replies, events := t.events)
    ensures |t.pipe| < |s.pipe|
  {
    RelayedFramable(s.port.taken);
    FirstInPipe(Relayed(s.port.taken), s.handled, s.pipe);
    var m := FirstFrame(s.pipe, MAX_FRAME).message;
    if IsNotification(m) {
      EventDecodes(s.port, |s.handled|);
    } else {
      ResponseDecodes(s, m);
    }
    t := Receive(s);
    var n, r := ReceiveCases(s);
  }

  lemma DeliverHelps(s: State)
    requires Alive(s) && s.pipe != []
    ensures Helps(s, Deliver)
  {
    var t := DeliverRuns(s);
  }

  // ------------------------------------------------------------------------ port program

  lemma ArrivedSuffix(p: Port, q: Port)
    requires q.arrived == p.arrived && (q.attachedAt == p.attachedAt || p.attachedAt == 0)
    requires EventsDecode(ArrivedLater(p))
    ensures EventsDecode(ArrivedLater(q))
  {
    if q.attachedAt != p.attachedAt && q.attachedAt <= |p.arrived| {
      forall i | 0 <= i < |ArrivedLater(q)| ensures ArrivedLater(q)[i] == ArrivedLater(p)[q.attachedAt + i] {}
    }
  }

  /** What a step of the port program has to do to help. */
  predicate Moves(s: State, e: Input, q: Port) {
    && s.pipe == [] && q == (if PortProgram.Enabled(s.port, e) then PortProgram.Step(s.port, e) else s.port)
    && !e.Arrive? && !q.control.Exited?
    && q.arrived == s.port.arrived && (q.attachedAt == s.port.attachedAt || s.port.attachedAt == 0)
  }

  lemma MoveHelps(s: State, e: Input, q: Port, n: nat)
    requires Healthy(s) && Moves(s, e, q) && Pipeline.Enabled(s, PortMoves(e))
    requires n == (if e.Poll? then |e.chunk| else 0) && n <= |s.stdin| && Closer(Move(s, q, n), s)
    ensures Helps(s, PortMoves(e))
  {
    ArrivedSuffix(s.port, q);
  }

  /** The reply to ATTACH, when one is there. */
  lemma AttachAnswer(p: Port, answers: seq<Datagram>)
    requires OutputInv(p) && InputInv(p) && LockStep(p, answers) && p.control.Attaching? && p.inbox != []
    requires !IsEvent(p.inbox[0]) && answers != [] ==> answers[0] == "OK\n"
    ensures IsEvent(p.inbox[0]) || p.inbox[0] == "OK\n"
  {
    NonEventsAppend(Datagrams(p.taken), p.inbox);
    if !IsEvent(p.inbox[0]) {
      FirstReply(p.inbox);
      assert NonEvents(Datagrams(p.taken)) == [];
    }
  }

  lemma FirstReply(ds: seq<Datagram>)
    requires ds != [] && !IsEvent(ds[0])
    ensures NonEvents(ds) != [] && NonEvents(ds)[0] == ds[0]
  {
    assert ds == [ds[0]] + ds[1..];
    NonEventsAppend([ds[0]], ds[1..]);
    assert NonEvents([ds[0]]) == [ds[0]];
  }

  /** From `p` to `q` one datagram is taken off the socket. */
  predicate TakesOne(p: Port, q: Port) {
    && !q.control.Exited? && |q.inbox| < |p.inbox| && q.sent == p.sent
    && q.arrived == p.arrived && (q.attachedAt == p.attachedAt || p.attachedAt == 0)
  }

  lemma AttachTakes(p: Port, answers: seq<Datagram>)
    requires OutputInv(p) && InputInv(p) && LockStep(p, answers) && p.control.Attaching? && p.inbox != []
    requires p.attachedAt == 0 && (answers != [] ==> answers[0] == "OK\n")
    ensures TakesOne(p, Progress(p, true))
  {
    AttachAnswer(p, answers);
  }

  lemma OtherTakes(p: Port)
    requires (p.control.Awaiting? || p.control.Receiving?) && p.inbox != []
    ensures TakesOne(p, Progress(p, true))
  {
  }

  lemma TakeHelps(s: State)
    requires Healthy(s) && s.pipe == [] && TakesOne(s.port, Progress(s.port, true))
    requires InputInv(s.port) && !s.port.control.Dispatching?
    ensures Helps(s, PortMoves(Advance(true)))
  {
    ProgressKeepsUnserved(s.port, true);
    MoveHelps(s, Advance(true), Progress(s.port, true), 0);
  }

  /** Poll flags the socket. */
  lemma FlagHelps(s: State)
    requires Healthy(s) && s.pipe == [] && s.port.inbox != [] && s.port.control.Polling? && InputInv(s.port)
    ensures Helps(s, PortMoves(Poll([], true)))
  {
    UnservedKept(s.port, Poll([], true));
    MoveHelps(s, Poll([], true), Wake(s.port, [], true), 0);
  }

  /** What one read can take. */
  function Chunk(s: State): Bytes {
    if |s.port.buffer| <= BUFFER_SIZE && |s.stdin| > BUFFER_SIZE - |s.port.buffer|
    then s.stdin[..BUFFER_SIZE - |s.port.buffer|] else s.stdin
  }

  lemma ReadHelps(s: State)
    requires Healthy(s) && s.pipe == [] && s.port.inbox == [] && s.stdin != [] && s.port.control.Polling?
    requires InputInv(s.port) && Octets(s.stdin)
    ensures Helps(s, PortMoves(Poll(Chunk(s), false)))
  {
    InputReadsAsParsed(s.port);
    UnservedKept(s.port, Poll(Chunk(s), false));
    MoveHelps(s, Poll(Chunk(s), false), Wake(s.port, Chunk(s), false), |Chunk(s)|);
  }

  lemma DrainHelps(s: State)
    requires Healthy(s) && s.pipe == [] && s.port.control.Draining? && InputInv(s.port)
    ensures Helps(s, PortMoves(Advance(true)))
  {
    UnservedKept(s.port, Advance(true));
    MoveHelps(s, Advance(true), Progress(s.port, true), 0);
  }

  /** The next frame is sent, or the dispatch is over. */
  lemma DispatchMoves(p: Port, stdin: Bytes, accepted: seq<Pending>) returns (q: Port)
    requires InputInv(p) && p.control.Dispatching? && Conveyed(p.sent, Unserved(p) + stdin, accepted) && Fits(accepted)
    ensures q == Progress(p, true) && !q.control.Exited? && q.inbox == p.inbox && q.stdout == p.stdout
    ensures q.arrived == p.arrived && q.attachedAt == p.attachedAt
    ensures |Unserved(q)| < |Unserved(p)| || (Unserved(q) == Unserved(p) && q.sent == p.sent && !q.control.Dispatching?)
  {
    q := Progress(p, true);
    match FirstFrame(p.buffer, BUFFER_SIZE)
    case TooLong => LongHead(p.sent, p.buffer, stdin, accepted);
    case _ =>
  }

  lemma DispatchHelps(s: State)
    requires Healthy(s) && s.pipe == [] && s.port.control.Dispatching? && InputInv(s.port) && StdinInv(s)
    ensures Helps(s, PortMoves(Advance(true)))
  {
    var q := DispatchMoves(s.port, s.stdin, s.accepted);
    MoveHelps(s, Advance(true), q, 0);
  }

  // -------------------------------------------------------------------------- supplicant

  /** A reply that any request of this form can take. */
  function ReplyTo(command: Command): Datagram {
    if command == Plain("ADD_NETWORK") then "0" else ""
  }

  lemma ReplyDecodes(command: Command)
    ensures !IsEvent(ReplyTo(command)) && Resp(command, Cut(ReplyTo(command), BUFFER_SIZE)).Success?
  {
    ReplyTheorems.RespExact(command, ReplyTo(command));
    if command == Plain("ADD_NETWORK") {
      assert IsNumeral("0", 10);
    } else {
      assert Strings.Split("", '\n') == [""] && NonEmpty([""]) == [];
    }
  }

  /** The next answer of the supplicant. */
  function Answer(accepted: seq<Pending>, k: nat): Datagram {
    if 0 < k <= |accepted| then ReplyTo(accepted[k - 1].command) else "OK\n"
  }

  lemma AnswerDecodes(accepted: seq<Pending>, answers: seq<Datagram>)
    requires AnswersDecode(accepted, answers) && |answers| <= |accepted|
    ensures var d := Answer(accepted, |answers|);
            !IsEvent(d) && AnswersDecode(accepted, answers + [d])
  {
    if answers != [] { ReplyDecodes(accepted[|answers| - 1].command); }
  }

  lemma ReplyHelps(s: State)
    requires Healthy(s) && s.pipe == [] && s.port.inbox == [] && s.port.attachedAt <= |s.port.arrived|
    requires |s.answers| + 1 == |s.port.sent| <= |s.accepted| + 1
    ensures Helps(s, SupplicantReply(Answer(s.accepted, |s.answers|)))
  {
    var d := Answer(s.accepted, |s.answers|);
    AnswerDecodes(s.accepted, s.answers);
    assert ArrivedLater(Queue(s.port, d)) == ArrivedLater(s.port) + [d];
    assert Unserved(Queue(s.port, d)) == Unserved(s.port);
  }

  // ---------------------------------------------------------------------------- progress

  /** A program that waits for an answer is owed one. */
  lemma WaitsForAnswer(s: State)
    requires Pipeline.Inv(s) && Busy(s.port.control) && s.port.inbox == []
    ensures |s.answers| + 1 == |s.port.sent| <= |s.accepted| + 1 && s.port.attachedAt <= |s.port.arrived|
  {
    InvNoStaleReply(s);
  }

  /** While anything is left to do, some step helps. */
  lemma SomeStepHelps(s: State) returns (l: Label)
    requires Alive(s) && !Settled(s)
    ensures Helps(s, l)
  {
    if s.pipe != [] {
      DeliverHelps(s);
      return Deliver;
    }
    var p := s.port;
    if p.inbox == [] && Busy(p.control) {
      WaitsForAnswer(s);
      ReplyHelps(s);
      return SupplicantReply(Answer(s.accepted, |s.answers|));
    }
    l := PortMoves(Advance(true));
    match p.control
    case Attaching =>
      AttachTakes(p, s.answers);
      TakeHelps(s);
    case Awaiting(_) =>
      OtherTakes(p);
      TakeHelps(s);
    case Receiving =>
      OtherTakes(p);
      TakeHelps(s);
    case Draining => DrainHelps(s);
    case Dispatching(_) => DispatchHelps(s);
    case Polling =>
      if p.inbox != [] {
        FlagHelps(s);
        l := PortMoves(Poll([], true));
      } else {
        ReadHelps(s);
        l := PortMoves(Poll(Chunk(s), false));
      }
  }

  lemma {:induction false} RunsOn(before: seq<Label>, s: State) returns (all: seq<Label>)
    requires Pipeline.Legal(START, before) && s == Pipeline.Run(START, before) && Alive(s)
    ensures Pipeline.Legal(START, all) && before <= all
    ensures var t := Pipeline.Run(START, all); Settled(t) && Healthy(t) && t.accepted == s.accepted
    decreases Unsent(s), Owed(s), |s.port.inbox|, |s.pipe|, |s.stdin|, Rank(s.port.control, s.port.inbox == [])
  {
    if Settled(s) {
      all := before;
    } else {
      var l := SomeStepHelps(s);
      StepInv(s, l);
      RunSnoc(START, before, l);
      all := RunsOn(before + [l], Pipeline.Step(s, l));
    }
  }

  /** From every healthy state that can be reached, the run can go on, without new
      calls, until every pending call has the answer to its own command. */
  lemma EveryCallCanBeAnswered(before: seq<Label>) returns (all: seq<Label>)
    requires Pipeline.Legal(START, before) && Healthy(Pipeline.Run(START, before))
    ensures Pipeline.Legal(START, all) && before <= all
    ensures var s, t := Pipeline.Run(START, before), Pipeline.Run(START, all);
            && t.accepted == s.accepted && t.requests == [] && |t.replies| == |s.accepted| && AllOwn(t)
            && Settled(t) && Healthy(t)
  {
    var s := Reached(before);
    all := RunsOn(before, s);
    QuiescentAllAnswered(all);
  }
}
