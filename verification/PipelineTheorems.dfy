/** What the whole system guarantees over every run. */
module PipelineTheorems {
  import opened Framing
  import opened ControlSocket
  import opened Strings
  import opened PortProgram
  import opened PortTheorems
  import opened Encoder
  import opened Decoder
  import opened GenServer
  import opened Pipeline
  import opened PipelineInvariant

  // ------------------------------------------------------------------ the invariant

  lemma CallInv(s: State, client: nat, command: Command)
    requires Pipeline.Inv(s) && |Encode(command)| < 65536 && Octets(Encode(command))
    ensures Pipeline.Inv(Accept(s, client, command))
  {
    CallStdin(s.port.sent, Unserved(s.port), s.stdin, s.accepted, Pending(client, command));
    CallReplied(s.accepted, s.requests, s.handled, s.replies, Pending(client, command));
  }

  lemma MoveInv(s: State, e: Input)
    requires Pipeline.Inv(s) && Pipeline.Enabled(s, PortMoves(e))
    ensures Pipeline.Inv(Pipeline.Step(s, PortMoves(e)))
  {
    MoveToPort(s, e);
    MoveFromPort(s, e);
  }

  lemma MoveToPort(s: State, e: Input)
    requires PortProgram.Inv(s.port) && StdinInv(s) && LockInv(s) && Pipeline.Enabled(s, PortMoves(e))
    ensures var t := Pipeline.Step(s, PortMoves(e)); PortProgram.Inv(t.port) && StdinInv(t) && LockInv(t)
  {
    PortProgram.InvStep(s.port, e);
    PortConveyed(s.port, e, s.stdin, s.accepted);
    PortLock(s.port, s.answers, e);
  }

  lemma MoveFromPort(s: State, e: Input)
    requires OutputInv(s.port) && PipeInv(s) && ServerInv(s) && RequestInv(s) && Pipeline.Enabled(s, PortMoves(e))
    ensures var t := Pipeline.Step(s, PortMoves(e)); PipeInv(t) && ServerInv(t) && RequestInv(t)
  {
    PortPiped(s.port, e, s.handled, s.pipe);
    if Recognised(Relayed(PortProgram.Step(s.port, e).taken)) { RecognisedBefore(s.port, e); }
  }

  lemma RecognisedBefore(p: Port, e: Input)
    requires PortProgram.Enabled(p, e) && Recognised(Relayed(PortProgram.Step(p, e).taken))
    ensures Recognised(Relayed(p.taken))
  {
    RelayedGrows(p, e);
    PrefixRecognised(Relayed(p.taken), Relayed(PortProgram.Step(p, e).taken));
  }

  lemma ArriveInv(s: State, d: Datagram)
    requires Pipeline.Inv(s)
    requires IsEvent(d) || |s.answers| < |s.port.sent|
    ensures Pipeline.Inv(s.(port := Queue(s.port, d), answers := if IsEvent(d) then s.answers else s.answers + [d]))
  {
    PortProgram.InvStep(s.port, Arrive(d));
    ArriveLock(s.port, s.answers, d);
    assert Unserved(Queue(s.port, d)) == Unserved(s.port);
  }

  /** Publishing the first message of the pipe. */
  lemma PublishInv(s: State, n: Notification)
    requires Pipeline.Inv(s) && FirstFrame(s.pipe, MAX_FRAME).Complete?
    requires var m := FirstFrame(s.pipe, MAX_FRAME).message; IsNotification(m) && Notif(Body(m)) == Success(n)
    ensures var m := FirstFrame(s.pipe, MAX_FRAME).message;
            Pipeline.Inv(s.(pipe := s.pipe[HEADER_SIZE + |m|..], handled := s.handled + [m], events := s.events + [n]))
  {
    var m := FirstFrame(s.pipe, MAX_FRAME).message;
    RelayedFramable(s.port.taken);
    NextMessage(Relayed(s.port.taken), s.handled, s.pipe);
    PublishReplied(s.accepted, s.requests, s.handled, s.replies, m);
    PublishPublished(s.handled, s.events, m, n);
  }

  /** Answering the oldest request with the first message of the pipe. */
  lemma RespondInv(s: State, r: Response)
    requires Pipeline.Inv(s) && FirstFrame(s.pipe, MAX_FRAME).Complete? && s.requests != []
    requires var m := FirstFrame(s.pipe, MAX_FRAME).message;
             !IsNotification(m) && Resp(s.requests[0].command, m) == Success(r)
    ensures var m := FirstFrame(s.pipe, MAX_FRAME).message;
            Pipeline.Inv(s.(requests := s.requests[1..], pipe := s.pipe[HEADER_SIZE + |m|..],
                            handled := s.handled + [m], replies := s.replies + [Delivery(s.requests[0].client, r)]))
  {
    var m := FirstFrame(s.pipe, MAX_FRAME).message;
    RelayedFramable(s.port.taken);
    NextMessage(Relayed(s.port.taken), s.handled, s.pipe);
    RespondReplied(s.accepted, s.requests, s.handled, s.replies, m, r);
    RespondPublished(s.handled, s.events, m);
  }

  /** The things that can become of the first message of the pipe. */
  lemma ReceiveCases(s: State) returns (n: Option<Notification>, r: Option<Response>)
    requires FirstFrame(s.pipe, MAX_FRAME).Complete?
    ensures var m := FirstFrame(s.pipe, MAX_FRAME).message;
            var t := s.(pipe := s.pipe[HEADER_SIZE + |m|..], handled := s.handled + [m]);
            if n.Some? then
              && IsNotification(m) && Notif(Body(m)) == Success(n.value)
              && Receive(s) == t.(events := s.events + [n.value])
            else if r.Some? then
              && !IsNotification(m) && s.requests != [] && Resp(s.requests[0].command, m) == Success(r.value)
              && Receive(s) == t.(requests := s.requests[1..],
                                  replies := s.replies + [Delivery(s.requests[0].client, r.value)])
            else
              var unasked := !IsNotification(m) && s.requests == [];
              Receive(s) == s.(status := Crashed(if unasked then NoRequest else Undecodable))
  {
    var m := FirstFrame(s.pipe, MAX_FRAME).message;
    n, r := None, None;
    if IsNotification(m) {
      if Notif(Body(m)).Success? { n := Some(Notif(Body(m)).value); }
    } else if s.requests != [] && Resp(s.requests[0].command, m).Success? {
      r := Some(Resp(s.requests[0].command, m).value);
    }
  }

  lemma ReceiveInv(s: State, t: State)
    requires Pipeline.Inv(s) && FirstFrame(s.pipe, MAX_FRAME).Complete? && t == Receive(s)
    ensures Pipeline.Inv(t)
  {
    if !IsNotification(FirstFrame(s.pipe, MAX_FRAME).message) && Recognised(Relayed(s.port.taken)) {
      ResponseHasRequest(s);
    }
    var n, r := ReceiveCases(s);
    if n.Some? {
      PublishInv(s, n.value);
    } else if r.Some? {
      RespondInv(s, r.value);
    }
  }

  lemma StepInv(s: State, l: Label)
    requires Pipeline.Inv(s) && Pipeline.Enabled(s, l)
    ensures Pipeline.Inv(Pipeline.Step(s, l))
  {
    match l
    case Call(client, command) => CallInv(s, client, command);
    case PortMoves(e) => MoveInv(s, e);
    case SupplicantEvent(d) => ArriveInv(s, d);
    case SupplicantReply(d) => ArriveInv(s, d);
    case Deliver => ReceiveInv(s, Receive(s));
    case ExitStatus =>
  }

  lemma {:induction false} RunInv(s: State, ls: seq<Label>)
    requires Pipeline.Inv(s) && Pipeline.Legal(s, ls)
    ensures Pipeline.Inv(Pipeline.Run(s, ls))
    decreases |ls|
  {
    if ls != [] {
      StepInv(s, ls[0]);
      RunInv(Pipeline.Step(s, ls[0]), ls[1..]);
    }
  }

  lemma StartInv()
    ensures Pipeline.Inv(START)
  {
    assert Payloads([]) == [];
  }

  /** Every reachable state. */
  lemma Reached(ls: seq<Label>) returns (s: State)
    requires Pipeline.Legal(START, ls)
    ensures s == Pipeline.Run(START, ls) && Pipeline.Inv(s)
  {
    s := Pipeline.Run(START, ls);
    StartInv();
    RunInv(START, ls);
  }

  // ------------------------------------------------------------------------ routing

  /** Calls are answered once each, in the order of acceptance, the queue holds
      exactly the unanswered ones, and a reply is the decoding, for the caller's
      own command, of a response from the port. */
  predicate Conserved(s: State) {
    && |s.accepted| == |s.replies| + |s.requests|
    && s.requests == s.accepted[|s.replies|..]
    && |Responses(s.handled)| == |s.replies|
    && forall i :: 0 <= i < |s.replies| ==>
         && s.replies[i].client == s.accepted[i].client
         && Resp(s.accepted[i].command, Responses(s.handled)[i]) == Success(s.replies[i].response)
  }

  /** The i-th reply was made from the answer to the command that was encoded
      for the caller who got it. */
  predicate OwnAnswer(s: State, i: nat)
    requires i < |s.replies|
  {
    && i < |s.accepted| && i + 1 < |s.port.sent| && i + 1 < |s.answers| && i < |Responses(s.handled)|
    && s.port.sent[i + 1] == Encode(s.accepted[i].command)
    && Responses(s.handled)[i] == Cut(s.answers[i + 1], 2048)
  }

  predicate AllOwn(s: State) {
    forall i :: 0 <= i < |s.replies| ==> OwnAnswer(s, i)
  }

  lemma InvConserved(s: State)
    requires Pipeline.Inv(s)
    ensures Conserved(s)
  {
    forall i | 0 <= i < |s.replies|
      ensures s.replies[i].client == s.accepted[i].client
      ensures Resp(s.accepted[i].command, Responses(s.handled)[i]) == Success(s.replies[i].response)
    {
      assert RightReply(s.accepted, s.handled, s.replies, i);
    }
  }

  /** Conservation of calls, over every run and whatever the supplicant sends. */
  lemma CallsAreConserved(ls: seq<Label>)
    requires Pipeline.Legal(START, ls)
    ensures Conserved(Pipeline.Run(START, ls))
  {
    var s := Reached(ls);
    InvConserved(s);
  }

  lemma SentFor(sent: seq<Bytes>, unsent: Bytes, accepted: seq<Pending>, i: nat)
    requires Conveyed(sent, unsent, accepted) && i + 1 < |sent|
    ensures i < |accepted| && sent[i + 1] == Encode(accepted[i].command)
  {
    assert sent[i + 1] == sent[1..][i] == Payloads(accepted[..|sent| - 1])[i];
  }

  lemma RecognisedRouted(s: State)
    requires Pipeline.Inv(s) && Recognised(s.handled)
    ensures AllOwn(s) && |s.replies| < |s.port.sent|
  {
    ResponsesDue(s.port, s.answers, s.handled);
    forall i | 0 <= i < |s.replies| ensures OwnAnswer(s, i) {
      SentFor(s.port.sent, Unserved(s.port) + s.stdin, s.accepted, i);
    }
  }

  lemma RoutedRecognised(s: State)
    requires Pipeline.Inv(s) && AllOwn(s)
    ensures Recognised(s.handled)
  {
    var rs := Responses(s.handled);
    NonEventsAreReplies(s.port.arrived);
    forall i | 0 <= i < |rs| ensures !IsEvent(rs[i]) {
      assert OwnAnswer(s, i);
    }
    NoEventAmongResponses(s.handled);
  }

  /** Reply routing, over every run: however events, reads and other calls
      interleave, and whether or not the callers still wait, every reply was made
      from the answer to its caller's own command exactly when every event the
      server has handled had the form it recognises. */
  lemma RepliesAreRouted(ls: seq<Label>)
    requires Pipeline.Legal(START, ls)
    ensures var s := Pipeline.Run(START, ls); AllOwn(s) <==> Recognised(s.handled)
  {
    var s := Reached(ls);
    if Recognised(s.handled) { RecognisedRouted(s); }
    if AllOwn(s) { RoutedRecognised(s); }
  }

  /** The same on the wire: the responses relayed since the handshake are the
      replies taken, each cut to the buffer, exactly when every event taken had
      the form the server recognises. Each other event adds one response. */
  lemma ResponsesAreReplies(ls: seq<Label>)
    requires Pipeline.Legal(START, ls)
    ensures var p := Pipeline.Run(START, ls).port;
            var ds := Datagrams(LaterTaken(p));
            && (Responses(Relayed(p.taken)) == CutAll(NonEvents(ds)) <==> Recognised(ds))
            && |Responses(Relayed(p.taken))| == |NonEvents(ds)| + |Strays(ds)|
  {
    var s := Reached(ls);
    var ts := LaterTaken(s.port);
    RepliesTaken(s.port);
    if Recognised(Datagrams(ts)) { RelayedResponses(ts); }
    if Responses(Relayed(ts)) == CutAll(NonEvents(Datagrams(ts))) { OnlyRecognised(ts); }
    StraysShift(ts);
  }

  /** The queue of requests is, in order: the commands sent whose answers have
      not been handled, and those still unsent in the buffer or in the pipe.
      Commands sent and events not recognised are as many as replies given,
      responses in the pipe and, within a request, one. */
  predicate InFlight(s: State) {
    var unsent := Parse(Unserved(s.port) + s.stdin, MAX_FRAME);
    && unsent.rest == [] && !unsent.tooLong
    && |s.port.sent| > 0
    && |s.replies| <= |s.port.sent| - 1 + |unsent.frames|
    && Payloads(s.requests) == (s.port.sent[1..] + unsent.frames)[|s.replies|..]
    && (s.port.attachedAt > 0 ==>
          |s.port.sent| - 1 + |Strays(Datagrams(LaterTaken(s.port)))|
            == |s.replies| + |Responses(Parse(s.pipe, MAX_FRAME).frames)|
               + (if MidRequest(s.port.control) then 1 else 0))
    && (Recognised(s.handled) ==> |s.replies| < |s.port.sent|)
  }

  lemma PayloadsAppend(a: seq<Pending>, b: seq<Pending>)
    ensures Payloads(a + b) == Payloads(a) + Payloads(b)
  {
  }

  lemma SlicePayloads(ps: seq<Pending>, k: nat)
    requires k <= |ps|
    ensures Payloads(ps[k..]) == Payloads(ps)[k..]
  {
  }

  lemma ConveyedFrames(sent: seq<Bytes>, unsent: Bytes, accepted: seq<Pending>)
    requires Conveyed(sent, unsent, accepted)
    ensures Parse(unsent, MAX_FRAME) == Parsed(Payloads(accepted[|sent| - 1..]), [], false)
    ensures Payloads(accepted) == sent[1..] + Payloads(accepted[|sent| - 1..])
  {
    PayloadsFramable(accepted, |sent| - 1);
    FramesRoundTrip(Payloads(accepted[|sent| - 1..]), MAX_FRAME);
    PayloadsParts(accepted, |sent| - 1);
  }

  lemma PayloadsParts(ps: seq<Pending>, k: nat)
    requires k <= |ps|
    ensures Payloads(ps) == Payloads(ps[..k]) + Payloads(ps[k..])
  {
    assert ps == ps[..k] + ps[k..];
    PayloadsAppend(ps[..k], ps[k..]);
  }

  lemma PayloadsFramable(ps: seq<Pending>, k: nat)
    requires k <= |ps| && forall i :: 0 <= i < |ps| ==> |Encode(ps[i].command)| < 65536
    ensures Framable(Payloads(ps[k..]), MAX_FRAME)
  {
  }

  lemma PipedResponses(relayed: seq<Bytes>, handled: seq<Bytes>, pipe: Bytes)
    requires Piped(relayed, handled, pipe) && Framable(relayed, MAX_FRAME)
    ensures |Responses(relayed)| == |Responses(handled)| + |Responses(Parse(pipe, MAX_FRAME).frames)|
  {
    var rest := relayed[|handled|..];
    FramesRoundTrip(rest, MAX_FRAME);
    assert relayed == handled + rest;
    ResponsesAppend(handled, rest);
  }

  lemma InvInFlight(s: State)
    requires Pipeline.Inv(s)
    ensures InFlight(s)
  {
    ConveyedFrames(s.port.sent, Unserved(s.port) + s.stdin, s.accepted);
    SlicePayloads(s.accepted, |s.replies|);
    RelayedFramable(s.port.taken);
    PipedResponses(Relayed(s.port.taken), s.handled, s.pipe);
    if s.port.attachedAt > 0 { ResponsesCount(s.port, s.answers); }
    if Recognised(s.handled) { RecognisedRouted(s); }
  }

  /** Where the pending requests are, over every run. */
  lemma RequestsAreInFlight(ls: seq<Label>)
    requires Pipeline.Legal(START, ls)
    ensures InFlight(Pipeline.Run(START, ls))
  {
    var s := Reached(ls);
    InvInFlight(s);
  }

  lemma RestEmpty(sent: seq<Bytes>, buffer: Bytes, accepted: seq<Pending>)
    requires Conveyed(sent, buffer, accepted) && FirstFrame(buffer, BUFFER_SIZE) == Incomplete
    ensures |accepted| == |sent| - 1
  {
    var k := |sent| - 1;
    if k < |accepted| {
      PayloadsStep(accepted, k);
      AnnouncedOfFrame(Encode(accepted[k].command), FrameAll(Payloads(accepted[k + 1..])));
    }
  }

  /** Nothing is lost: when the program is back in poll and both pipes are
      empty, every accepted call has been answered. And then no event can have
      gone astray, for its response would have found no request. */
  lemma QuiescentAllAnswered(ls: seq<Label>)
    requires Pipeline.Legal(START, ls)
    requires var s := Pipeline.Run(START, ls);
             s.port.control.Polling? && s.stdin == [] && s.pipe == []
    ensures var s := Pipeline.Run(START, ls);
            && s.requests == [] && |s.replies| == |s.accepted|
            && Recognised(Datagrams(LaterTaken(s.port))) && AllOwn(s)
  {
    var s := Reached(ls);
    InvInFlight(s);
    InvConserved(s);
    assert Unserved(s.port) + s.stdin == s.port.buffer;
    RestEmpty(s.port.sent, s.port.buffer, s.accepted);
    NoStrays(Datagrams(LaterTaken(s.port)));
    RepliesTaken(s.port);
    RelayedRecognised(LaterTaken(s.port));
    PrefixRecognised(s.handled, Relayed(s.port.taken));
    RecognisedRouted(s);
  }

  /** The match on the head of the queue meets an empty one only after an event
      that the server does not recognise. */
  lemma NeverWithoutRequest(ls: seq<Label>)
    requires Pipeline.Legal(START, ls)
    requires Recognised(Datagrams(LaterTaken(Pipeline.Run(START, ls).port)))
    ensures Pipeline.Run(START, ls).status != Crashed(NoRequest)
  {
    var s := Reached(ls);
    RepliesTaken(s.port);
    RelayedRecognised(LaterTaken(s.port));
  }

  // ------------------------------------------------------------------- no stale reply

  /** At most one command is unanswered; outside a request the socket holds
      events only; inside one, the only reply it can hold answers that request. */
  predicate NoStaleReply(s: State) {
    && 0 < |s.port.sent| && |s.answers| <= |s.port.sent| <= |s.answers| + 1
    && (!MidRequest(s.port.control) ==> AllEvents(s.port.inbox) && |s.answers| == |s.port.sent|)
    && NonEvents(s.port.inbox)
         == if MidRequest(s.port.control) && |s.answers| == |s.port.sent| then [s.answers[|s.port.sent| - 1]] else []
  }

  lemma InvNoStaleReply(s: State)
    requires Pipeline.Inv(s)
    ensures NoStaleReply(s)
  {
    var p := s.port;
    NonEventsAppend(Datagrams(p.taken), p.inbox);
    NoNonEvents(p.inbox);
  }

  /** No stale reply, over every run: a request that times out or fails ends the
      program inside that request, and then nothing is taken any more. */
  lemma RepliesAreFresh(ls: seq<Label>)
    requires Pipeline.Legal(START, ls)
    ensures NoStaleReply(Pipeline.Run(START, ls))
  {
    var s := Reached(ls);
    InvNoStaleReply(s);
  }

  // --------------------------------------------------------------------------- events

  /** Frame by frame, the server sees an event exactly where it would see one in
      the datagram the port took, and that is where the port saw one exactly if
      the event is recognised. */
  predicate FramesClassified(ts: seq<Taken>, frames: seq<Bytes>) {
    && |frames| == |ts|
    && forall i :: 0 <= i < |frames| ==>
         && (IsNotification(frames[i]) <==> IsNotification(ts[i].datagram))
         && (IsEvent(frames[i]) <==> IsEvent(ts[i].datagram))
         && ((IsNotification(frames[i]) <==> IsEvent(ts[i].datagram)) <==> Recognised([ts[i].datagram]))
  }

  lemma RelayedClassified(ts: seq<Taken>)
    requires AllLater(ts)
    ensures FramesClassified(ts, Relayed(ts))
  {
    RelayedOneForOne(ts, 0);
    forall i | 0 <= i < |ts|
      ensures IsNotification(Relayed(ts)[i]) <==> IsNotification(ts[i].datagram)
      ensures IsEvent(Relayed(ts)[i]) <==> IsEvent(ts[i].datagram)
      ensures (IsNotification(Relayed(ts)[i]) <==> IsEvent(ts[i].datagram)) <==> Recognised([ts[i].datagram])
    {
      assert Relayed(ts)[i - 0] == Forwarded(ts[i]);
      ForwardedKeeps(ts[i]);
      assert [ts[i].datagram][0] == ts[i].datagram;
    }
  }

  /** The two classifiers on every frame written to the server, cut ones included. */
  lemma FramesAreClassified(ls: seq<Label>)
    requires Pipeline.Legal(START, ls)
    ensures var p := Pipeline.Run(START, ls).port;
            FramesClassified(LaterTaken(p), Parse(p.stdout, MAX_FRAME).frames)
  {
    var s := Reached(ls);
    RepliesTaken(s.port);
    RelayedClassified(LaterTaken(s.port));
    RelayedFramable(s.port.taken);
    FramesRoundTrip(Relayed(s.port.taken), MAX_FRAME);
  }

  /** The texts of the recognised events among the datagrams taken, as they are forwarded. */
  function EventTexts(ts: seq<Taken>): seq<Bytes> {
    if ts == [] then []
    else
      var m := Forwarded(ts[|ts| - 1]);
      EventTexts(ts[..|ts| - 1]) + if IsNotification(m) then [Body(m)] else []
  }

  lemma {:induction false} RelayedEvents(ts: seq<Taken>)
    requires AllLater(ts)
    ensures Events(Relayed(ts)) == EventTexts(ts)
  {
    if ts != [] {
      var front, t := ts[..|ts| - 1], ts[|ts| - 1];
      RelayedEvents(front);
      ForwardedKeeps(t);
      EventHandled(Relayed(front), Forwarded(t));
    }
  }

  lemma ThreeKinds(ts: seq<Taken>)
    requires AllLater(ts)
    ensures |EventTexts(ts)| + |Strays(Datagrams(ts))| + |NonEvents(Datagrams(ts))| == |ts|
  {
    RelayedOneForOne(ts, 0);
    RelayedEvents(ts);
    EventOrResponse(Relayed(ts));
    StraysShift(ts);
  }

  /** The published events are the decodings of the recognised events taken since
      the handshake, in order and without a gap; all of them once the pipe is
      empty. A datagram is one of these, an event not recognised, or a reply. */
  predicate EventsPublished(s: State) {
    var ts := LaterTaken(s.port);
    var texts := EventTexts(ts);
    && |s.events| <= |texts|
    && (s.pipe == [] ==> |s.events| == |texts|)
    && (forall i :: 0 <= i < |s.events| ==> Notif(texts[i]) == Success(s.events[i]))
    && |texts| + |Strays(Datagrams(ts))| + |NonEvents(Datagrams(ts))| == |ts|
  }

  lemma HandledEvents(relayed: seq<Bytes>, handled: seq<Bytes>, pipe: Bytes)
    requires Piped(relayed, handled, pipe)
    ensures Events(handled) <= Events(relayed) && (pipe == [] ==> handled == relayed)
  {
    EventsAppend(handled, relayed[|handled|..]);
    assert relayed == handled + relayed[|handled|..];
  }

  lemma InvEventsPublished(s: State)
    requires Pipeline.Inv(s)
    ensures EventsPublished(s)
  {
    HandledEvents(Relayed(s.port.taken), s.handled, s.pipe);
    RepliesTaken(s.port);
    RelayedEvents(LaterTaken(s.port));
    ThreeKinds(LaterTaken(s.port));
  }

  lemma EventsArePublished(ls: seq<Label>)
    requires Pipeline.Legal(START, ls)
    ensures EventsPublished(Pipeline.Run(START, ls))
  {
    var s := Reached(ls);
    InvEventsPublished(s);
  }

  // ------------------------------------------------------------------------------ exit

  /** The over-long exit is taken only for a payload that does not fit the
      buffer, and every payload in front of it has been sent. */
  lemma TooLongPayload(ls: seq<Label>)
    requires Pipeline.Legal(START, ls)
    requires var c := Pipeline.Run(START, ls).port.control; c.Exited? && c.reason == MessageTooLong
    ensures var s := Pipeline.Run(START, ls);
            var k := |s.port.sent| - 1;
            && 0 <= k < |s.accepted| && |Encode(s.accepted[k].command)| > 2046
            && s.port.sent[1..] == Payloads(s.accepted[..k])
            && forall i :: 0 <= i < k ==> |Encode(s.accepted[i].command)| <= 2046
  {
    var s := Reached(ls);
    InvTooLong(s);
  }

  lemma InvTooLong(s: State)
    requires Pipeline.Inv(s) && s.port.control.Exited? && s.port.control.reason == MessageTooLong
    ensures var k := |s.port.sent| - 1;
            && 0 <= k < |s.accepted| && |Encode(s.accepted[k].command)| > 2046
            && s.port.sent[1..] == Payloads(s.accepted[..k])
            && forall i :: 0 <= i < k ==> |Encode(s.accepted[i].command)| <= 2046
  {
    LongHead(s.port.sent, s.port.buffer, s.stdin, s.accepted);
    EarlierFit(s.port.sent, s.port.buffer + s.stdin, s.accepted);
  }

  lemma EarlierFit(sent: seq<Bytes>, unsent: Bytes, accepted: seq<Pending>)
    requires Conveyed(sent, unsent, accepted) && Framable(sent[1..], BUFFER_SIZE)
    ensures forall i :: 0 <= i < |sent| - 1 ==> |Encode(accepted[i].command)| <= BUFFER_SIZE - HEADER_SIZE
  {
    forall i | 0 <= i < |sent| - 1 ensures |Encode(accepted[i].command)| <= BUFFER_SIZE - HEADER_SIZE {
      SentFor(sent, unsent, accepted, i);
      assert sent[1..][i] == sent[i + 1];
    }
  }

  lemma LongHead(sent: seq<Bytes>, buffer: Bytes, stdin: Bytes, accepted: seq<Pending>)
    requires Conveyed(sent, buffer + stdin, accepted) && FirstFrame(buffer, BUFFER_SIZE) == TooLong
    ensures |sent| - 1 < |accepted| && |Encode(accepted[|sent| - 1].command)| > BUFFER_SIZE - HEADER_SIZE
  {
    var k := |sent| - 1;
    assert |buffer + stdin| >= HEADER_SIZE;
    assert k < |accepted|;
    PayloadsStep(accepted, k);
    AnnouncedOfFrame(Encode(accepted[k].command), FrameAll(Payloads(accepted[k + 1..])));
    assert Announced(buffer + stdin) == Announced(buffer);
  }

  // ------------------------------------------------------------------------- stability

  lemma StepGrows(s: State, l: Label)
    requires Pipeline.Enabled(s, l)
    ensures var t := Pipeline.Step(s, l);
            s.replies <= t.replies && s.accepted <= t.accepted && s.events <= t.events
  {
  }

  /** What has been answered or published is never taken back or changed. */
  lemma {:induction false} RunGrows(s: State, ls: seq<Label>)
    requires Pipeline.Legal(s, ls)
    ensures var t := Pipeline.Run(s, ls);
            s.replies <= t.replies && s.accepted <= t.accepted && s.events <= t.events
    decreases |ls|
  {
    if ls != [] {
      StepGrows(s, ls[0]);
      RunGrows(Pipeline.Step(s, ls[0]), ls[1..]);
    }
  }

  /** A server that has stopped or crashed handles nothing any more. */
  lemma {:induction false} StopIsTerminal(s: State, ls: seq<Label>)
    requires s.status != Running && Pipeline.Legal(s, ls)
    ensures var t := Pipeline.Run(s, ls);
            && t.status == s.status && t.replies == s.replies && t.events == s.events
            && t.accepted == s.accepted && t.requests == s.requests && t.handled == s.handled
    decreases |ls|
  {
    if ls != [] {
      StopIsTerminal(Pipeline.Step(s, ls[0]), ls[1..]);
    }
  }

  /** The server stops for good when the port program has exited, and only then. */
  lemma ExitStopsServer(s: State, ls: seq<Label>)
    requires Pipeline.Enabled(s, ExitStatus) && Pipeline.Legal(Pipeline.Step(s, ExitStatus), ls)
    ensures s.port.control.Exited?
    ensures var t := Pipeline.Run(Pipeline.Step(s, ExitStatus), ls);
            t.status == Stopped && t.replies == s.replies && t.events == s.events && t.accepted == s.accepted
  {
    StopIsTerminal(Pipeline.Step(s, ExitStatus), ls);
  }

  /** Any caller is heard while the server runs: the request joins the queue, and
      its text goes into the pipe behind its length. */
  lemma CallIsAccepted(s: State, client: nat, command: Command)
    requires s.status == Running && |Encode(command)| < 65536 && Octets(Encode(command))
    ensures Pipeline.Enabled(s, Call(client, command))
    ensures var t, text := Pipeline.Step(s, Call(client, command)), Encode(command);
            && t.requests == s.requests + [Pending(client, command)]
            && t.accepted == s.accepted + [Pending(client, command)]
            && t.stdin == s.stdin + ([(|text| / 256) as char, (|text| % 256) as char] + text)
            && t.port == s.port && t.pipe == s.pipe && t.replies == s.replies
  {
    FrameExact(Encode(command));
  }

  /** An exit of the port program is noticed. */
  lemma ExitIsNoticed(s: State)
    requires s.status == Running && s.port.control.Exited?
    ensures Pipeline.Enabled(s, ExitStatus) && Pipeline.Step(s, ExitStatus) == s.(status := Stopped)
  {
  }
}
