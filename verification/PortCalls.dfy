/**
 Whole C calls of the port program as functions of the machine: the machine left
 to itself until the call returns. In this view the inbox is all that arrives
 before the call returns, so an empty one means that select times out.
 */
module PortCalls {
  import opened Sequences
  import opened Framing
  import opened ControlSocket
  import opened PortProgram

  /** How system calls turn out: whether the k-th send succeeds, and how many
      waits for a datagram succeed in the request it begins. A wait is one select
      and the receive behind it. */
  datatype Luck = Luck(sends: nat -> bool, waits: nat -> nat)

  /** The machine run by itself from inside process_erl until it leaves it: the
      inbox is all that will ever arrive, so an empty one is a select timeout.
      `left` more waits succeed in the request in flight, if there is one. */
  function Serve(p: Port, luck: Luck, left: nat): Port
    decreases |p.inbox|, if p.control.Dispatching? then 1 else 0
  {
    match p.control
    case Dispatching(_) => Serve(Progress(p, luck.sends(|p.sent|)), luck, luck.waits(|p.sent|))
    case Awaiting(_) =>
      if left == 0 then Stop(p, SystemError)
      else if p.inbox == [] then Stop(p, TimedOut)
      else Serve(Progress(p, true), luck, left - 1)
    case _ => p
  }

  /** The same where no request is in flight. */
  function ServeErl(p: Port, luck: Luck): Port {
    Serve(p, luck, 0)
  }

  lemma ServeIdle(p: Port, luck: Luck, left: nat)
    requires !p.control.Awaiting?
    ensures Serve(p, luck, left) == ServeErl(p, luck)
  {
  }

  /** A dispatch that leads to no request, or to the end. */
  lemma ServeDispatch(p: Port, luck: Luck)
    requires p.control.Dispatching?
    ensures var q := Progress(p, luck.sends(|p.sent|));
            && ServeErl(p, luck) == Serve(q, luck, luck.waits(|p.sent|))
            && (!q.control.Awaiting? ==> ServeErl(p, luck) == ServeErl(q, luck))
  {
    var q := Progress(p, luck.sends(|p.sent|));
    if !q.control.Awaiting? { ServeIdle(q, luck, luck.waits(|p.sent|)); }
  }

  /** It is a run, so everything proved of runs holds of it. */
  lemma {:induction false} ServeIsRun(p: Port, luck: Luck, left: nat) returns (es: seq<Input>)
    ensures Legal(p, es) && Run(p, es) == Serve(p, luck, left)
    decreases |p.inbox|, if p.control.Dispatching? then 1 else 0
  {
    match p.control
    case Dispatching(_) =>
      var es' := ServeIsRun(Progress(p, luck.sends(|p.sent|)), luck, luck.waits(|p.sent|));
      es := [Advance(luck.sends(|p.sent|))] + es';
    case Awaiting(_) =>
      if left == 0 {
        es := [SystemFault];
        assert Legal(Stop(p, SystemError), es[1..]);
      } else if p.inbox == [] {
        es := [SelectTimeout];
        assert Legal(Stop(p, TimedOut), es[1..]);
      } else {
        var es' := ServeIsRun(Progress(p, true), luck, left - 1);
        es := [Advance(true)] + es';
      }
    case _ => es := [];
  }

  /** Takes `n` events off the queue on the callback path. */
  function TakeCallbacks(p: Port, n: nat): Port
    requires n <= |p.inbox|
    decreases n
  {
    if n == 0 then p else TakeCallbacks(Take(p, Callback), n - 1)
  }

  lemma CallbackCons(before: Bytes, ds: seq<Datagram>)
    requires ds != []
    ensures before + FrameAll(CallbackTexts(ds, BUFFER_SIZE))
         == before + Frame(Cut(ds[0], BUFFER_SIZE - 1)) + FrameAll(CallbackTexts(ds[1..], BUFFER_SIZE))
  {
    var texts := CallbackTexts(ds, BUFFER_SIZE);
    assert texts[1..] == CallbackTexts(ds[1..], BUFFER_SIZE);
    Assoc(before, Frame(texts[0]), FrameAll(texts[1..]));
  }

  /** All that taking callbacks changes: the queue loses its head and standard
      output gains one frame per event. */
  lemma {:induction false} TakeCallbacksEffect(p: Port, n: nat)
    requires n <= |p.inbox|
    ensures var q := TakeCallbacks(p, n);
            && q == p.(inbox := q.inbox, stdout := q.stdout, taken := q.taken)
            && q.inbox == p.inbox[n..]
            && q.stdout == p.stdout + FrameAll(CallbackTexts(p.inbox[..n], BUFFER_SIZE))
    decreases n
  {
    if n == 0 {
      assert p.stdout + [] == p.stdout;
    } else {
      var p' := Take(p, Callback);
      TakeCallbacksEffect(p', n - 1);
      CallbackCons(p.stdout, p.inbox[..n]);
      FrameAllOne(Cut(p.inbox[0], BUFFER_SIZE - 1));
      assert p.inbox[..n][1..] == p'.inbox[..n - 1];
      assert p'.inbox[n - 1..] == p.inbox[n..];
    }
  }

  /** Where the machine goes from inside a request: the events in front of the
      first reply go out as callbacks in order, then the reply is taken; with no
      reply in sight they go out and the program times out. If a wait fails
      before that, the events received until then have gone out. */
  predicate AwaitsReply(p: Port, luck: Luck, left: nat) {
    var s := SplitAtReply(p.inbox, BUFFER_SIZE);
    && |s.events| <= |p.inbox|
    && if left <= |s.events| then Serve(p, luck, left) == Stop(TakeCallbacks(p, left), SystemError)
       else
         var q := TakeCallbacks(p, |s.events|);
         && q.control.Awaiting?
         && (q.inbox == [] <==> s.NoAnswer?)
         && Serve(p, luck, left)
            == if s.NoAnswer? then Stop(q, TimedOut) else Serve(Await(q), luck, left - |s.events| - 1)
  }

  /** One request of the running machine is the cut at the first reply. */
  lemma {:induction false} AwaitIsSplit(p: Port, luck: Luck, left: nat)
    requires p.control.Awaiting?
    ensures AwaitsReply(p, luck, left)
    decreases |p.inbox|
  {
    if left > 0 && p.inbox != [] && IsEvent(p.inbox[0]) {
      AwaitIsSplit(Take(p, Callback), luck, left - 1);
      AwaitStep(p, luck, left);
    } else {
      AwaitEnds(p, luck, left);
    }
  }

  lemma AwaitEnds(p: Port, luck: Luck, left: nat)
    requires p.control.Awaiting? && (left == 0 || p.inbox == [] || !IsEvent(p.inbox[0]))
    ensures AwaitsReply(p, luck, left)
  {
    SplitShort(p.inbox);
  }

  lemma AwaitStep(p: Port, luck: Luck, left: nat)
    requires p.control.Awaiting? && left > 0 && p.inbox != [] && IsEvent(p.inbox[0])
    requires AwaitsReply(Take(p, Callback), luck, left - 1)
    ensures AwaitsReply(p, luck, left)
  {
    AwaitEvent(p, luck, left);
    var n := |SplitAtReply(p.inbox, BUFFER_SIZE).events|;
    TakeStep(p, if left <= n then left else n);
  }

  /** Taking the event at the head of the queue on the callback path. */
  lemma AwaitEvent(p: Port, luck: Luck, left: nat)
    requires p.control.Awaiting? && left > 0 && p.inbox != [] && IsEvent(p.inbox[0])
    ensures Serve(p, luck, left) == Serve(Take(p, Callback), luck, left - 1)
    ensures var s, s' := SplitAtReply(p.inbox, BUFFER_SIZE), SplitAtReply(p.inbox[1..], BUFFER_SIZE);
            |s.events| == 1 + |s'.events| && (s.NoAnswer? <==> s'.NoAnswer?)
  {
  }

  lemma TakeStep(p: Port, n: nat)
    requires 0 < n <= |p.inbox|
    ensures TakeCallbacks(p, n) == TakeCallbacks(Take(p, Callback), n - 1)
  {
  }

  lemma {:induction false} SplitShort(queue: seq<Datagram>)
    ensures |SplitAtReply(queue, BUFFER_SIZE).events| <= |queue|
  {
    SplitSpec(queue, BUFFER_SIZE);
  }

  /** Where the machine is once a request in flight has been answered. */
  lemma AnswerEffect(p: Port, luck: Luck, left: nat) returns (q: Port)
    requires p.control.Awaiting? && ReceiveUpTo(p.inbox, BUFFER_SIZE, left).Got?
    ensures Serve(p, luck, left) == ServeErl(q, luck)
    ensures var e := ReceiveUpTo(p.inbox, BUFFER_SIZE, left);
            && q == p.(control := q.control, inbox := e.rest, buffer := Served(p.buffer),
                       stdout := q.stdout, taken := q.taken)
            && q.stdout == p.stdout + FrameAll(CallbackTexts(e.events, BUFFER_SIZE)) + Frame(Cut(e.reply, BUFFER_SIZE))
            && q.control == if q.buffer == [] then Idle(p.control.wpaReady) else Dispatching(p.control.wpaReady)
  {
    var s := SplitAtReply(p.inbox, BUFFER_SIZE);
    AwaitIsSplit(p, luck, left);
    SplitSpec(p.inbox, BUFFER_SIZE);
    TakeCallbacksEffect(p, |s.events|);
    var r := TakeCallbacks(p, |s.events|);
    assert p.inbox[..|s.events|] == s.events;
    assert r.inbox == [s.reply] + s.rest;
    q := Await(r);
    ReplyTaken(r, s.reply, s.rest);
    ServeIdle(q, luck, left - |s.events| - 1);
  }

  lemma ReplyTaken(p: Port, reply: Datagram, rest: seq<Datagram>)
    requires p.control.Awaiting? && p.inbox == [reply] + rest && !IsEvent(reply)
    ensures var q := Await(p);
            && q == p.(control := q.control, inbox := rest, buffer := Served(p.buffer),
                       stdout := p.stdout + Frame(Cut(reply, BUFFER_SIZE)), taken := q.taken)
            && q.control == if q.buffer == [] then Idle(p.control.wpaReady) else Dispatching(p.control.wpaReady)
  {
    FrameAllOne(Cut(reply, BUFFER_SIZE));
  }

  /** The events in front of any end of the loop are the head of the queue. */
  lemma EndingIsPrefix(queue: seq<Datagram>, left: nat)
    ensures var e := ReceiveUpTo(queue, BUFFER_SIZE, left);
            |e.events| <= |queue| && e.events == queue[..|e.events|] && (!e.Got? ==> e.rest == queue[|e.events|..])
  {
    SplitSpec(queue, BUFFER_SIZE);
    var s := SplitAtReply(queue, BUFFER_SIZE);
    assert s.events == queue[..|s.events|];
    if left <= |s.events| { assert s.events[..left] == queue[..left]; }
  }

  /** Where the machine is once a request in flight has failed or timed out. */
  lemma FailureEffect(p: Port, luck: Luck, left: nat) returns (q: Port)
    requires p.control.Awaiting? && !ReceiveUpTo(p.inbox, BUFFER_SIZE, left).Got?
    ensures q == Serve(p, luck, left)
    ensures var e := ReceiveUpTo(p.inbox, BUFFER_SIZE, left);
            q == p.(control := Exited(if e.Failed? then SystemError else TimedOut, true), inbox := e.rest,
                    stdout := p.stdout + FrameAll(CallbackTexts(e.events, BUFFER_SIZE)), taken := q.taken)
  {
    var e := ReceiveUpTo(p.inbox, BUFFER_SIZE, left);
    AwaitIsSplit(p, luck, left);
    EndingIsPrefix(p.inbox, left);
    TakeCallbacksEffect(p, |e.events|);
    q := Stop(TakeCallbacks(p, |e.events|), if e.Failed? then SystemError else TimedOut);
  }

  /** One request from dispatch to its end, in one piece: `q` is where the
      machine is afterwards, answered, failed or unsent. */
  lemma RequestEffect(p: Port, luck: Luck) returns (q: Port)
    requires p.control.Dispatching? && FirstFrame(p.buffer, BUFFER_SIZE).Complete?
    ensures ServeErl(p, luck) == ServeErl(q, luck)
    ensures q == p.(control := q.control, buffer := q.buffer, inbox := q.inbox, sent := q.sent,
                    stdout := q.stdout, taken := q.taken)
    ensures var e := ReceiveUpTo(p.inbox, BUFFER_SIZE, luck.waits(|p.sent|));
            var events := p.stdout + FrameAll(CallbackTexts(e.events, BUFFER_SIZE));
            if !luck.sends(|p.sent|) then q == Stop(p, SendFailed)
            else
              && q.sent == p.sent + [FirstFrame(p.buffer, BUFFER_SIZE).message] && q.inbox == e.rest
              && match e
                 case Got(_, _, reply) =>
                   && q.buffer == Served(p.buffer) && q.stdout == events + Frame(Cut(reply, BUFFER_SIZE))
                   && q.control == if q.buffer == [] then Idle(p.control.wpaReady) else Dispatching(p.control.wpaReady)
                 case Failed(_, _) => q.stdout == events && q.control == Exited(SystemError, true)
                 case Silent(_, _) => q.stdout == events && q.control == Exited(TimedOut, true)
  {
    ServeDispatch(p, luck);
    q := Progress(p, luck.sends(|p.sent|));
    if luck.sends(|p.sent|) {
      var waits := luck.waits(|p.sent|);
      if ReceiveUpTo(p.inbox, BUFFER_SIZE, waits).Got? {
        q := AnswerEffect(q, luck, waits);
      } else {
        q := FailureEffect(q, luck, waits);
        ServeIdle(q, luck, 0);
      }
    }
  }

  // ------------------------------------------------------ attach and drain, big steps

  /** The machine at start-up, when `queue` is all that will arrive while it attaches. */
  function Begin(queue: seq<Datagram>): Port {
    INITIAL.(inbox := queue, arrived := queue)
  }

  lemma BeginInv(queue: seq<Datagram>)
    ensures Inv(Begin(queue))
  {
    assert Datagrams([]) + queue == queue;
  }

  /** The machine run by itself until the attach handshake is over, or until
      `left` waits have succeeded and the next one fails. */
  function ServeAttach(p: Port, left: nat): Port
    decreases |p.inbox|
  {
    if !p.control.Attaching? then p
    else if left == 0 then Stop(p, SystemError)
    else if p.inbox == [] then Stop(p, TimedOut)
    else ServeAttach(Progress(p, true), left - 1)
  }

  /** process_wpa: the machine run by itself until the queue is drained, or until
      `left` receives have succeeded and the next one fails. */
  function ServeWpa(p: Port, left: nat): Port
    decreases |p.inbox|, if p.control.Draining? then 1 else 0
  {
    match p.control
    case Draining => ServeWpa(Progress(p, true), left)
    case Receiving =>
      if p.inbox == [] then Stop(p, RecvFailed)
      else if left == 0 then Stop(p, SystemError)
      else ServeWpa(Progress(p, true), left - 1)
    case _ => p
  }

  lemma DrainStep(p: Port, left: nat)
    requires p.control.Draining? && p.inbox != [] && left > 0
    ensures ServeWpa(p, left) == ServeWpa(Progress(Progress(p, true), true), left - 1)
  {
  }

  lemma DrainFails(p: Port)
    requires p.control.Draining? && p.inbox != []
    ensures ServeWpa(p, 0) == p.(control := Exited(SystemError, false))
  {
  }

  lemma DrainEffect(p: Port)
    requires p.control.Draining? && p.inbox != []
    ensures var q := Progress(Progress(p, true), true);
            q == p.(inbox := p.inbox[1..], taken := q.taken, stdout := p.stdout + Frame(Cut(p.inbox[0], BUFFER_SIZE)))
  {
    FrameAllOne(Cut(p.inbox[0], BUFFER_SIZE));
  }

  /** The drain ends the program exactly when it needs more receives than succeed. */
  lemma {:induction false} DrainOutcome(p: Port, left: nat)
    requires p.control.Draining?
    ensures ServeWpa(p, left).control.Exited? <==> left < |p.inbox|
    ensures !ServeWpa(p, left).control.Exited? ==> ServeWpa(p, left).inbox == []
    decreases |p.inbox|
  {
    if p.inbox != [] {
      if left == 0 {
        DrainFails(p);
      } else {
        DrainStep(p, left);
        DrainEffect(p);
        DrainOutcome(Progress(Progress(p, true), true), left - 1);
      }
    } else {
      DrainEnd(p, left);
    }
  }

  lemma DrainEnd(p: Port, left: nat)
    requires p.control.Draining? && p.inbox == []
    ensures ServeWpa(p, left) == p.(control := Polling)
  {
  }

  lemma {:induction false} ServeAttachInv(p: Port, left: nat)
    requires Inv(p)
    ensures Inv(ServeAttach(p, left))
  {
    var es := ServeAttachIsRun(p, left);
    InvRun(p, es);
  }

  /** The handshake drops the events in front of the reply, writes nothing, and
      succeeds exactly when the reply is OK and is reached. */
  lemma {:induction false} AttachIsSplit(p: Port, left: nat)
    requires p.control.Attaching?
    ensures ServeAttach(p, left).stdout == p.stdout && ServeAttach(p, left).sent == p.sent
    ensures ServeAttach(p, left).inbox == ReceiveUpTo(p.inbox, 10, left).rest
    ensures var q, e := ServeAttach(p, left), ReceiveUpTo(p.inbox, 10, left);
            if e.Got? && e.reply == "OK\n" then
              q == p.(control := Polling, inbox := e.rest, taken := q.taken, attachedAt := q.attachedAt)
            else q.control.Exited?
    decreases |p.inbox|
  {
    if left > 0 && p.inbox != [] {
      assert FrameAll([]) == [];
      assert p.stdout + [] == p.stdout;
      if IsEvent(p.inbox[0]) {
        AttachIsSplit(Progress(p, true), left - 1);
      }
    }
  }

  /** The machine from its start until the handshake is over. Without the
      ATTACH sent there is no handshake. */
  function Started(queue: seq<Datagram>, luck: Luck): Port {
    if luck.sends(0) then ServeAttach(Begin(queue), luck.waits(0)) else Stop(Begin(queue), SendFailed)
  }

  /** What a started program can rely on. */
  lemma StartEffect(queue: seq<Datagram>, luck: Luck)
    ensures var q, e := Started(queue, luck), ReceiveUpTo(queue, 10, luck.waits(0));
            && q.stdout == [] && q.sent == ["ATTACH"] && q.inbox == (if luck.sends(0) then e.rest else queue)
            && if luck.sends(0) && e.Got? && e.reply == "OK\n" then
                 Inv(q) && q.control.Polling? && q.buffer == []
               else q.control.Exited?
  {
    BeginInv(queue);
    AttachIsSplit(Begin(queue), luck.waits(0));
    ServeAttachInv(Begin(queue), luck.waits(0));
  }

  lemma {:induction false} ServeErlInv(p: Port, luck: Luck)
    requires Inv(p)
    ensures Inv(ServeErl(p, luck))
  {
    var es := ServeIsRun(p, luck, 0);
    InvRun(p, es);
  }

  // -------------------------------------------------------------- the calls are runs

  lemma {:induction false} RunAppend(p: Port, es: seq<Input>, fs: seq<Input>)
    requires Legal(p, es) && Legal(Run(p, es), fs)
    ensures Legal(p, es + fs) && Run(p, es + fs) == Run(Run(p, es), fs)
    decreases |es|
  {
    if es == [] {
      assert es + fs == fs;
    } else {
      assert (es + fs)[1..] == es[1..] + fs;
      RunAppend(Step(p, es[0]), es[1..], fs);
    }
  }

  lemma {:induction false} ServeWpaIsRun(p: Port, left: nat) returns (es: seq<Input>)
    ensures Legal(p, es) && Run(p, es) == ServeWpa(p, left)
    decreases |p.inbox|, if p.control.Draining? then 1 else 0
  {
    match p.control
    case Draining =>
      var es' := ServeWpaIsRun(Progress(p, true), left);
      es := [Advance(true)] + es';
    case Receiving =>
      if p.inbox == [] {
        es := [Advance(true)];
        assert Run(Progress(p, true), es[1..]) == Progress(p, true);
      } else if left == 0 {
        es := [SystemFault];
        assert Run(Stop(p, SystemError), es[1..]) == Stop(p, SystemError);
      } else {
        var es' := ServeWpaIsRun(Progress(p, true), left - 1);
        es := [Advance(true)] + es';
        assert es[1..] == es';
      }
    case _ => es := [];
  }

  lemma ServeWpaInv(p: Port, left: nat)
    requires Inv(p)
    ensures Inv(ServeWpa(p, left))
  {
    var es := ServeWpaIsRun(p, left);
    InvRun(p, es);
  }

  /** One poll round of the program is a run of the machine. */
  lemma RoundIsRun(p: Port, chunk: Bytes, wpaReady: bool, luck: Luck, drains: nat) returns (es: seq<Input>)
    requires Enabled(p, Poll(chunk, wpaReady))
    ensures Legal(p, es) && Run(p, es) == ServeWpa(ServeErl(Wake(p, chunk, wpaReady), luck), drains)
  {
    var q := Wake(p, chunk, wpaReady);
    var fs := ServeIsRun(q, luck, 0);
    var gs := ServeWpaIsRun(ServeErl(q, luck), drains);
    RunAppend(q, fs, gs);
    es := [Poll(chunk, wpaReady)] + (fs + gs);
    assert es[1..] == fs + gs;
  }

  lemma {:induction false} ArriveAll(p: Port, ds: seq<Datagram>) returns (es: seq<Input>)
    ensures Legal(p, es) && Run(p, es) == p.(inbox := p.inbox + ds, arrived := p.arrived + ds)
    decreases |ds|
  {
    if ds == [] {
      es := [];
      assert p.inbox + ds == p.inbox && p.arrived + ds == p.arrived;
    } else {
      var es' := ArriveAll(Queue(p, ds[0]), ds[1..]);
      es := [Arrive(ds[0])] + es';
      assert es[1..] == es';
      assert p.inbox + ds == p.inbox + [ds[0]] + ds[1..];
      assert p.arrived + ds == p.arrived + [ds[0]] + ds[1..];
    }
  }

  lemma {:induction false} ServeAttachIsRun(p: Port, left: nat) returns (es: seq<Input>)
    ensures Legal(p, es) && Run(p, es) == ServeAttach(p, left)
    decreases |p.inbox|
  {
    if !p.control.Attaching? {
      es := [];
    } else if left == 0 {
      es := [SystemFault];
      assert Run(Stop(p, SystemError), es[1..]) == Stop(p, SystemError);
    } else if p.inbox == [] {
      es := [SelectTimeout];
      assert Run(Stop(p, TimedOut), es[1..]) == Stop(p, TimedOut);
    } else {
      var es' := ServeAttachIsRun(Progress(p, true), left - 1);
      es := [Advance(true)] + es';
      assert es[1..] == es';
    }
  }

  /** The start of the program is a run from the initial state. */
  lemma StartIsRun(queue: seq<Datagram>, luck: Luck) returns (es: seq<Input>)
    ensures Legal(INITIAL, es) && Run(INITIAL, es) == Started(queue, luck)
  {
    var fs := ArriveAll(INITIAL, queue);
    assert [] + queue == queue;
    var gs: seq<Input>;
    if luck.sends(0) {
      gs := ServeAttachIsRun(Begin(queue), luck.waits(0));
    } else {
      gs := [AttachUnsent];
      assert gs[1..] == [];
    }
    RunAppend(INITIAL, fs, gs);
    es := fs + gs;
  }

  // ----------------------------------------------------------------- the whole program

  /** What read reports. */
  datatype ReadResult = Data(bytes: Bytes) | EndOfFile | Interrupted | ReadError

  /** One round of main's loop as the world plays it: the datagrams that arrive,
      whether poll flags standard input and the socket, what there is to read,
      and how many receives of the drain succeed. */
  datatype Turn = Turn(arrivals: seq<Datagram>, erlReady: bool, input: ReadResult, wpaReady: bool, drains: nat)

  /** A read that finds data finds at least one byte. */
  predicate Sound(t: Turn) {
    t.input.Data? ==> t.input.bytes != [] && Octets(t.input.bytes)
  }

  /** read into a buffer that already holds `held` bytes. */
  function ReadInto(t: Turn, held: nat): ReadResult {
    if !t.erlReady then Interrupted
    else if t.input.Data? && held + |t.input.bytes| > BUFFER_SIZE then
      Data(if held <= BUFFER_SIZE then t.input.bytes[..BUFFER_SIZE - held] else [])
    else t.input
  }

  /** process_erl as a whole. */
  function AfterRead(p: Port, input: ReadResult, wpaReady: bool, luck: Luck): Port
    requires p.control.Polling?
  {
    match input
    case Data(chunk) => ServeErl(Wake(p, chunk, wpaReady), luck)
    case EndOfFile => Stop(p, EndOfInput)
    case Interrupted => Wake(p, [], wpaReady)
    case ReadError => Stop(p, SystemError)
  }

  function Arrived(p: Port, ds: seq<Datagram>): Port {
    p.(inbox := p.inbox + ds, arrived := p.arrived + ds)
  }

  /** poll flags the socket only when it holds something. */
  function Flag(p: Port, t: Turn): bool {
    t.wpaReady && p.inbox != []
  }

  function TakeTurn(p: Port, t: Turn, luck: Luck): Port
    requires p.control.Polling?
  {
    var q := Arrived(p, t.arrivals);
    ServeWpa(AfterRead(q, ReadInto(t, |q.buffer|), Flag(q, t), luck), t.drains)
  }

  function TakeTurns(p: Port, ts: seq<Turn>, luck: Luck): Port
    decreases |ts|
  {
    if ts == [] || !p.control.Polling? then p else TakeTurns(TakeTurn(p, ts[0], luck), ts[1..], luck)
  }

  lemma ArrivedInv(p: Port, ds: seq<Datagram>)
    requires Inv(p)
    ensures Inv(Arrived(p, ds))
  {
    var es := ArriveAll(p, ds);
    InvRun(p, es);
  }

  /** A round without data: poll and the drain, or the end. */
  lemma ReadIsRun(p: Port, input: ReadResult, ready: bool, luck: Luck, drains: nat) returns (es: seq<Input>)
    requires p.control.Polling? && |p.buffer| <= BUFFER_SIZE && (ready ==> p.inbox != [])
    requires input.Data? ==> |p.buffer| + |input.bytes| <= BUFFER_SIZE && Octets(input.bytes)
    ensures Legal(p, es) && Run(p, es) == ServeWpa(AfterRead(p, input, ready, luck), drains)
  {
    match input
    case Data(chunk) => es := RoundIsRun(p, chunk, ready, luck, drains);
    case Interrupted => es := RoundIsRun(p, [], ready, luck, drains);
    case EndOfFile =>
      es := [InputClosed];
      assert es[1..] == [];
    case ReadError =>
      es := [SystemFault];
      assert es[1..] == [];
  }

  lemma TurnIsRun(p: Port, t: Turn, luck: Luck) returns (es: seq<Input>)
    requires Inv(p) && p.control.Polling? && Sound(t)
    ensures Legal(p, es) && Run(p, es) == TakeTurn(p, t, luck)
  {
    var fs := ArriveAll(p, t.arrivals);
    var q := Arrived(p, t.arrivals);
    var gs := ReadIsRun(q, ReadInto(t, |q.buffer|), Flag(q, t), luck, t.drains);
    RunAppend(p, fs, gs);
    es := fs + gs;
  }

  lemma {:induction false} TurnsAreRun(p: Port, ts: seq<Turn>, luck: Luck) returns (es: seq<Input>)
    requires Inv(p) && forall i :: 0 <= i < |ts| ==> Sound(ts[i])
    ensures Legal(p, es) && Run(p, es) == TakeTurns(p, ts, luck)
    decreases |ts|
  {
    if ts == [] || !p.control.Polling? {
      es := [];
    } else {
      var fs := TurnIsRun(p, ts[0], luck);
      InvRun(p, fs);
      var gs := TurnsAreRun(TakeTurn(p, ts[0], luck), ts[1..], luck);
      RunAppend(p, fs, gs);
      es := fs + gs;
    }
  }

  /** The program from its start through any rounds is one run from the initial
      state, so every theorem over runs holds of it. */
  lemma ProgramIsRun(queue: seq<Datagram>, ts: seq<Turn>, luck: Luck) returns (es: seq<Input>)
    requires forall i :: 0 <= i < |ts| ==> Sound(ts[i])
    ensures Legal(INITIAL, es) && Run(INITIAL, es) == TakeTurns(Started(queue, luck), ts, luck)
  {
    var fs := StartIsRun(queue, luck);
    assert Inv(INITIAL) by { BeginInv([]); }
    InvRun(INITIAL, fs);
    var gs := TurnsAreRun(Started(queue, luck), ts, luck);
    RunAppend(INITIAL, fs, gs);
    es := fs + gs;
  }
}
