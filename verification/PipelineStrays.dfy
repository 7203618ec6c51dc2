/** How an event that the server does not recognise goes astray. */
module PipelineStrays {
  import opened Framing
  import opened ControlSocket
  import opened PortProgram
  import opened Strings
  import opened Encoder
  import opened Decoder
  import opened GenServer
  import opened Pipeline
  import opened PipelineTheorems

  /** A run that goes on by one step. */
  lemma {:induction false} RunSnoc(s: State, ls: seq<Label>, l: Label)
    requires Pipeline.Legal(s, ls) && Pipeline.Enabled(Pipeline.Run(s, ls), l)
    ensures Pipeline.Legal(s, ls + [l]) && Pipeline.Run(s, ls + [l]) == Pipeline.Step(Pipeline.Run(s, ls), l)
    decreases |ls|
  {
    if ls == [] {
      assert ls + [l] == [l] && [l][1..] == [];
    } else {
      RunSnoc(Pipeline.Step(s, ls[0]), ls[1..], l);
      assert (ls + [l])[1..] == ls[1..] + [l];
    }
  }

  lemma WrittenFrame(p: Port, q: Port, m: Bytes)
    requires q.stdout == p.stdout + FrameAll([m])
    ensures Written(p, q) == Frame(m)
  {
    FrameAllOne(m);
  }

  /** An event the server does not recognise. */
  predicate IsStray(d: Datagram) {
    IsEvent(d) && !IsNotification(d)
  }

  /** The server waits, and the port program is in poll with nothing to forward. */
  predicate Quiet(s: State) {
    s.status == Running && s.port.control.Polling? && s.port.inbox == [] && s.pipe == []
  }

  /** The four steps of the port program that forward an event from its poll. */
  lemma PortForwards(p: Port, d: Datagram) returns (a: Port, b: Port, c: Port, e: Port)
    requires p.control.Polling? && p.inbox == [] && |p.buffer| <= BUFFER_SIZE
    ensures a == Queue(p, d) && PortProgram.Enabled(a, Poll([], true)) && b == Wake(a, [], true)
    ensures c == Progress(b, true) && e == Progress(c, true)
    ensures a.stdout == b.stdout == c.stdout == p.stdout && Written(c, e) == Frame(Cut(d, BUFFER_SIZE))
    ensures e.sent == p.sent
  {
    a := Queue(p, d);
    assert a.inbox == [d];
    b := Wake(a, [], true);
    c := Progress(b, true);
    e := Progress(c, true);
    WrittenFrame(c, e, Cut(d, BUFFER_SIZE));
  }

  lemma ForwardSteps(s: State, d: Datagram) returns (a: State, b: State, c: State, e: State)
    requires Quiet(s) && |s.port.buffer| <= BUFFER_SIZE && IsEvent(d)
    ensures a == Pipeline.Step(s, SupplicantEvent(d))
    ensures Pipeline.Enabled(a, PortMoves(Poll([], true))) && b == Pipeline.Step(a, PortMoves(Poll([], true)))
    ensures c == Pipeline.Step(b, PortMoves(Advance(true))) && e == Pipeline.Step(c, PortMoves(Advance(true)))
    ensures e == s.(port := e.port, pipe := Frame(Cut(d, BUFFER_SIZE))) && e.port.sent == s.port.sent
  {
    var pa, pb, pc, pe := PortForwards(s.port, d);
    a, b, c := s.(port := pa), s.(port := pb), s.(port := pc);
    e := s.(port := pe, pipe := Frame(Cut(d, BUFFER_SIZE)));
    assert s.stdin[0..] == s.stdin;
    assert [] + Frame(Cut(d, BUFFER_SIZE)) == Frame(Cut(d, BUFFER_SIZE));
  }

  /** In a quiet state that has been reached, the supplicant emits an event and
      the port forwards it. */
  lemma Forward(before: seq<Label>, d: Datagram) returns (ls: seq<Label>)
    requires Pipeline.Legal(START, before) && Quiet(Pipeline.Run(START, before))
    requires IsEvent(d)
    ensures Pipeline.Legal(START, ls) && before <= ls
    ensures var s, t := Pipeline.Run(START, before), Pipeline.Run(START, ls);
            t == s.(port := t.port, pipe := Frame(Cut(d, BUFFER_SIZE))) && t.port.sent == s.port.sent
  {
    var s := Reached(before);
    var a, b, c, e := ForwardSteps(s, d);
    RunSnoc(START, before, SupplicantEvent(d));
    ls := before + [SupplicantEvent(d)];
    RunSnoc(START, ls, PortMoves(Poll([], true)));
    ls := ls + [PortMoves(Poll([], true))];
    RunSnoc(START, ls, PortMoves(Advance(true)));
    ls := ls + [PortMoves(Advance(true))];
    RunSnoc(START, ls, PortMoves(Advance(true)));
    ls := ls + [PortMoves(Advance(true))];
  }

  /** From `s` to `t` the stray `d` was handled and no command was sent. */
  predicate Misrouted(s: State, t: State, d: Datagram) {
    && t.port.sent == s.port.sent
    && if s.requests == [] then t.status == Crashed(NoRequest)
       else match Resp(s.requests[0].command, Cut(d, BUFFER_SIZE))
            case Success(r) =>
              t.replies == s.replies + [Delivery(s.requests[0].client, r)] && t.requests == s.requests[1..]
            case Crash => t.status == Crashed(Undecodable)
  }

  /** From every quiet state that can be reached, any stray goes astray: it is
      given to the oldest pending caller, although nothing has been sent
      meanwhile, or ends the server. */
  lemma StrayIsMisrouted(before: seq<Label>, d: Datagram) returns (ls: seq<Label>)
    requires Pipeline.Legal(START, before) && Quiet(Pipeline.Run(START, before)) && IsStray(d)
    ensures Pipeline.Legal(START, ls) && before <= ls
    ensures Misrouted(Pipeline.Run(START, before), Pipeline.Run(START, ls), d)
  {
    ls := Forward(before, d);
    var m := Cut(d, BUFFER_SIZE);
    PatternSurvivesCut(d, BUFFER_SIZE);
    assert Frame(m) + [] == Frame(m);
    FirstOfFrame(m, [], MAX_FRAME);
    RunSnoc(START, ls, Deliver);
    ls := ls + [Deliver];
  }

  /** The supplicant answers ATTACH and a caller makes its request. */
  lemma PendingCall(client: nat, command: Command) returns (ls: seq<Label>)
    requires |Encode(command)| < 65536 && Octets(Encode(command))
    ensures Pipeline.Legal(START, ls)
    ensures var s := Pipeline.Run(START, ls);
            && Quiet(s) && s.port.sent == ["ATTACH"] && s.replies == []
            && s.accepted == s.requests == [Pending(client, command)]
  {
    var a := Pipeline.Step(START, SupplicantReply("OK\n"));
    assert a.port.inbox == ["OK\n"];
    var b := Pipeline.Step(a, PortMoves(Advance(true)));
    assert b.port.stdout == [] + FrameAll([]);
    RunSnoc(START, [], SupplicantReply("OK\n"));
    ls := [] + [SupplicantReply("OK\n")];
    RunSnoc(START, ls, PortMoves(Advance(true)));
    ls := ls + [PortMoves(Advance(true))];
    RunSnoc(START, ls, Call(client, command));
    ls := ls + [Call(client, command)];
  }

  /** For any caller, any request and any stray there is a run in which the
      caller is answered with the stray, or the server ends, although ATTACH is
      all that was ever sent to the supplicant. */
  lemma StrayAnswersCaller(client: nat, command: Command, d: Datagram) returns (ls: seq<Label>)
    requires |Encode(command)| < 65536 && Octets(Encode(command)) && IsStray(d)
    ensures Pipeline.Legal(START, ls)
    ensures var t := Pipeline.Run(START, ls);
            && t.port.sent == ["ATTACH"]
            && match Resp(command, Cut(d, BUFFER_SIZE))
               case Success(r) => t.replies == [Delivery(client, r)] && t.requests == []
               case Crash => t.status == Crashed(Undecodable)
  {
    var before := PendingCall(client, command);
    ls := StrayIsMisrouted(before, d);
  }

  /** One such run: PING, which was never sent, is answered with `<WPS`. */
  lemma PingIsAnsweredByStray() returns (ls: seq<Label>)
    ensures Pipeline.Legal(START, ls)
    ensures var t := Pipeline.Run(START, ls);
            t.port.sent == ["ATTACH"] && t.replies == [Delivery(1, Reply("<WPS"))]
  {
    assert Encode(Plain("PING")) == "PING";
    var d := "<WPS";
    assert d[1..] == "WPS" && CharSize(d[1..]) == 1;
    assert Strip(d) == d;
    ls := StrayAnswersCaller(1, Plain("PING"), d);
  }
}
