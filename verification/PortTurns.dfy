/** What the rounds of the program do to the world: every byte delivered is read
    once and in order, every datagram is taken, and nothing waits behind a flag. */
module PortTurns {
  import opened Sequences
  import opened Framing
  import opened ControlSocket
  import opened PortProgram
  import opened PortTheorems
  import opened PortCalls

  // ------------------------------------------------------------------- inside one call

  /** Serving reads nothing, and ends in the poll flag's state or at an exit. */
  lemma {:induction false} ServeKeeps(p: Port, luck: Luck, left: nat)
    ensures var q := Serve(p, luck, left);
            && q.consumed == p.consumed && q.arrived == p.arrived && |q.inbox| <= |p.inbox|
            && (if p.control.Dispatching? || p.control.Awaiting?
                then q.control.Exited? || q.control == Idle(p.control.wpaReady)
                else q == p)
    decreases |p.inbox|, if p.control.Dispatching? then 1 else 0
  {
    match p.control
    case Dispatching(_) =>
      ServeKeeps(Progress(p, luck.sends(|p.sent|)), luck, luck.waits(|p.sent|));
    case Awaiting(_) =>
      if left > 0 && p.inbox != [] {
        ServeKeeps(Progress(p, true), luck, left - 1);
      }
    case _ =>
  }

  lemma {:induction false} DrainKeeps(p: Port, left: nat)
    ensures var q := ServeWpa(p, left);
            && q.consumed == p.consumed && q.arrived == p.arrived
            && (!p.control.Draining? && !p.control.Receiving? ==> q == p)
            && (p.control.Draining? || p.control.Receiving? ==> q.control.Exited? || q.control.Polling?)
            && (p.control.Draining? && q.control.Polling? ==> q.inbox == [])
    decreases |p.inbox|, if p.control.Draining? then 1 else 0
  {
    match p.control
    case Draining =>
      DrainKeeps(Progress(p, true), left);
      DrainOutcome(p, left);
    case Receiving =>
      if p.inbox != [] && left > 0 { DrainKeeps(Progress(p, true), left - 1); }
    case _ =>
  }

  lemma {:induction false} AttachKeeps(p: Port, left: nat)
    ensures ServeAttach(p, left).consumed == p.consumed && ServeAttach(p, left).arrived == p.arrived
    decreases |p.inbox|
  {
    if p.control.Attaching? && left > 0 && p.inbox != [] {
      AttachKeeps(Progress(p, true), left - 1);
    }
  }

  /** Where no complete frame is at hand, serving is over: it stops at a length
      that does not fit into 2048 bytes with its two, and waits for more otherwise. */
  lemma ServeRest(p: Port, luck: Luck)
    requires p.control.Dispatching?
    ensures |p.buffer| < 2 ==> ServeErl(p, luck) == p.(control := Idle(p.control.wpaReady))
    ensures |p.buffer| >= 2 ==>
              var n := p.buffer[0] as int * 256 + p.buffer[1] as int;
              && (n + 2 > 2048 ==> ServeErl(p, luck) == p.(control := Exited(MessageTooLong, false)))
              && (n + 2 <= 2048 && n + 2 > |p.buffer| ==> ServeErl(p, luck) == p.(control := Idle(p.control.wpaReady)))
  {
    ServeDispatch(p, luck);
  }

  // ----------------------------------------------------------------------- one round

  /** The bytes a round reads when `held` bytes wait in the buffer: what is there,
      as far as 2048 bytes hold it. */
  function Delivered(t: Turn, held: nat): Bytes {
    if !t.erlReady || !t.input.Data? || held >= 2048 then []
    else if |t.input.bytes| <= 2048 - held then t.input.bytes
    else t.input.bytes[..2048 - held]
  }

  /** From `p` to `q` the round `t` was played. */
  predicate Played(p: Port, t: Turn, q: Port) {
    && q.consumed == p.consumed + Delivered(t, |p.buffer|)
    && q.arrived == p.arrived + t.arrivals
    && (q.control.Polling? || q.control.Exited?)
    && (q.control.Polling? && t.wpaReady ==> q.inbox == [])
  }

  /** Only a round that finds end of file or a read error ends for that reason. */
  predicate EndsWithInput(p: Port, t: Turn, q: Port) {
    var waits := p.(inbox := p.inbox + t.arrivals, arrived := p.arrived + t.arrivals);
    && (t.erlReady && t.input.EndOfFile? ==> q == waits.(control := Exited(EndOfInput, false)))
    && (t.erlReady && t.input.ReadError? ==> q == waits.(control := Exited(SystemError, false)))
    && ((!t.erlReady || t.input.Interrupted?) && !t.wpaReady ==> q == waits)
  }

  lemma AfterReadKeeps(p: Port, input: ReadResult, ready: bool, luck: Luck)
    requires p.control.Polling?
    ensures var q := AfterRead(p, input, ready, luck);
            && q.consumed == p.consumed + (if input.Data? then input.bytes else [])
            && q.arrived == p.arrived && |q.inbox| <= |p.inbox|
            && (q.control.Exited? || q.control == if ready then Draining else Polling)
  {
    assert p.consumed + [] == p.consumed;
    if input.Data? {
      ServeKeeps(Wake(p, input.bytes, ready), luck, 0);
    }
  }

  /** One round: the bytes delivered are read, the arrivals have arrived, and if
      poll flags the socket nothing is left on it. */
  lemma TurnEffect(p: Port, t: Turn, luck: Luck)
    requires p.control.Polling? && |p.buffer| < 2048
    ensures Played(p, t, TakeTurn(p, t, luck))
    ensures EndsWithInput(p, t, TakeTurn(p, t, luck))
  {
    var q := Arrived(p, t.arrivals);
    var input := ReadInto(t, |q.buffer|);
    AfterReadKeeps(q, input, Flag(q, t), luck);
    DrainKeeps(AfterRead(q, input, Flag(q, t), luck), t.drains);
    assert p.buffer + [] == p.buffer && p.consumed + [] == p.consumed;
  }

  // ----------------------------------------------------------------- one round, exactly

  /** What serving a buffer comes to: the program goes on with what is left of the
      buffer and of the socket, having sent `sent` and written `out`, or it ends. */
  datatype Serving =
    | GoesOn(buffer: Bytes, inbox: seq<Datagram>, sent: seq<Bytes>, out: Bytes)
    | Ends

  /** One more command in front. */
  function Then(m: Bytes, out: Bytes, s: Serving): Serving {
    match s
    case Ends => Ends
    case GoesOn(b, ds, ms, more) => GoesOn(b, ds, [m] + ms, out + more)
  }

  /** process_erl behind its read, on plain values: frame by frame, each command is
      sent and waits for its reply; `k` commands were sent before. */
  function ServeFrames(buffer: Bytes, inbox: seq<Datagram>, k: nat, luck: Luck): Serving
    decreases |buffer|
  {
    match FirstFrame(buffer, 2048)
    case Incomplete => GoesOn(buffer, inbox, [], [])
    case TooLong => Ends
    case Complete(m) =>
      if !luck.sends(k) then Ends
      else match ReceiveUpTo(inbox, 2048, luck.waits(k))
           case Got(events, rest, reply) =>
             Then(m, FrameAll(CallbackTexts(events, 2048)) + Frame(Cut(reply, 2048)),
                  ServeFrames(buffer[2 + |m|..], rest, k + 1, luck))
           case _ => Ends
  }

  /** The machine goes on with the state that comes out, or exits. */
  predicate Serves(p: Port, ready: bool, s: Serving, q: Port) {
    match s
    case Ends => q.control.Exited?
    case GoesOn(b, ds, ms, out) =>
      q == p.(control := Idle(ready), buffer := b, inbox := ds, sent := p.sent + ms,
              stdout := p.stdout + out, taken := q.taken)
  }

  lemma ServesThen(p: Port, ready: bool, m: Bytes, out: Bytes, r: Port, s: Serving, q: Port)
    requires r == p.(control := r.control, buffer := r.buffer, inbox := r.inbox, sent := p.sent + [m],
                     stdout := p.stdout + out, taken := r.taken)
    requires Serves(r, ready, s, q)
    ensures Serves(p, ready, Then(m, out, s), q)
  {
    if s.GoesOn? {
      Assoc(p.sent, [m], s.sent);
      Assoc(p.stdout, out, s.out);
    }
  }

  lemma ServesNothing(p: Port)
    ensures Serves(p, p.control.Draining?, GoesOn(p.buffer, p.inbox, [], []), p.(control := Idle(p.control.Draining?)))
    ensures forall ready :: Serves(p, ready, GoesOn(p.buffer, p.inbox, [], []), p.(control := Idle(ready)))
  {
    assert p.sent + [] == p.sent && p.stdout + [] == p.stdout;
  }

  lemma ServeOver(p: Port, luck: Luck)
    requires !p.control.Awaiting? && !p.control.Dispatching?
    ensures ServeErl(p, luck) == p
  {
  }

  /** What follows an answered request. */
  lemma {:induction false} ServeNext(r: Port, ready: bool, luck: Luck)
    requires r.control == if r.buffer == [] then Idle(ready) else Dispatching(ready)
    ensures Serves(r, ready, ServeFrames(r.buffer, r.inbox, |r.sent|, luck), ServeErl(r, luck))
    decreases |r.buffer|, 2
  {
    if r.buffer == [] {
      ServeOver(r, luck);
      ServesNothing(r);
    } else {
      ServeIsFrames(r, luck);
    }
  }

  /** The machine serves the frames of its buffer one by one. */
  lemma {:induction false} ServeIsFrames(p: Port, luck: Luck)
    requires p.control.Dispatching?
    ensures Serves(p, p.control.wpaReady, ServeFrames(p.buffer, p.inbox, |p.sent|, luck), ServeErl(p, luck))
    decreases |p.buffer|, 1
  {
    match FirstFrame(p.buffer, 2048)
    case Incomplete =>
      ServeRest(p, luck);
      ServesNothing(p);
    case TooLong => ServeRest(p, luck);
    case Complete(m) =>
      if luck.sends(|p.sent|) && ReceiveUpTo(p.inbox, 2048, luck.waits(|p.sent|)).Got? {
        ServeAnswered(p, m, luck);
      } else {
        ServeEnds(p, luck);
      }
  }

  lemma ServeEnds(p: Port, luck: Luck)
    requires p.control.Dispatching? && FirstFrame(p.buffer, 2048).Complete?
    requires !luck.sends(|p.sent|) || !ReceiveUpTo(p.inbox, 2048, luck.waits(|p.sent|)).Got?
    ensures ServeErl(p, luck).control.Exited?
  {
    var r := RequestEffect(p, luck);
    ServeOver(r, luck);
  }

  lemma {:induction false} ServeAnswered(p: Port, m: Bytes, luck: Luck)
    requires p.control.Dispatching? && FirstFrame(p.buffer, 2048) == Complete(m) && luck.sends(|p.sent|)
    requires ReceiveUpTo(p.inbox, 2048, luck.waits(|p.sent|)).Got?
    ensures Serves(p, p.control.wpaReady, ServeFrames(p.buffer, p.inbox, |p.sent|, luck), ServeErl(p, luck))
    decreases |p.buffer|, 0
  {
    var r := RequestEffect(p, luck);
    ServeNext(r, p.control.wpaReady, luck);
    AnsweredThen(p, m, r, ServeFrames(r.buffer, r.inbox, |r.sent|, luck), ServeErl(r, luck), luck);
  }

  lemma AnsweredThen(p: Port, m: Bytes, r: Port, s: Serving, q: Port, luck: Luck)
    requires p.control.Dispatching? && Serves(r, p.control.wpaReady, s, q)
    requires ReceiveUpTo(p.inbox, 2048, luck.waits(|p.sent|)).Got?
    requires var e := ReceiveUpTo(p.inbox, 2048, luck.waits(|p.sent|));
             r == p.(control := r.control, buffer := r.buffer, inbox := r.inbox, sent := p.sent + [m], taken := r.taken,
                     stdout := p.stdout + FrameAll(CallbackTexts(e.events, 2048)) + Frame(Cut(e.reply, 2048)))
    ensures var e := ReceiveUpTo(p.inbox, 2048, luck.waits(|p.sent|));
            var out := FrameAll(CallbackTexts(e.events, 2048)) + Frame(Cut(e.reply, 2048));
            Serves(p, p.control.wpaReady, Then(m, out, s), q)
  {
    var e := ReceiveUpTo(p.inbox, 2048, luck.waits(|p.sent|));
    var out := FrameAll(CallbackTexts(e.events, 2048)) + Frame(Cut(e.reply, 2048));
    Assoc(p.stdout, FrameAll(CallbackTexts(e.events, 2048)), Frame(Cut(e.reply, 2048)));
    ServesThen(p, p.control.wpaReady, m, out, r, s, q);
  }

  function Cuts(ds: seq<Datagram>): seq<Bytes> {
    seq(|ds|, i requires 0 <= i < |ds| => Cut(ds[i], 2048))
  }

  /** The drain writes one frame for each datagram, in order. */
  lemma {:induction false} DrainExact(p: Port, left: nat)
    requires p.control.Draining? && |p.inbox| <= left
    ensures var q := ServeWpa(p, left);
            q == p.(control := Polling, inbox := [], stdout := p.stdout + FrameAll(Cuts(p.inbox)), taken := q.taken)
    decreases |p.inbox|
  {
    if p.inbox == [] {
      DrainEnd(p, left);
      assert p.stdout + [] == p.stdout;
    } else {
      DrainStep(p, left);
      DrainEffect(p);
      DrainExact(Progress(Progress(p, true), true), left - 1);
      assert Cuts(p.inbox)[1..] == Cuts(p.inbox[1..]);
      Assoc(p.stdout, Frame(Cut(p.inbox[0], 2048)), FrameAll(Cuts(p.inbox[1..])));
    }
  }

  /** What a round comes to before the drain: the end, or the state served. */
  function RoundServes(p: Port, t: Turn, luck: Luck): Serving {
    var queue, chunk := p.inbox + t.arrivals, Delivered(t, |p.buffer|);
    if t.erlReady && (t.input.EndOfFile? || t.input.ReadError?) then Ends
    else if chunk == [] then GoesOn(p.buffer, queue, [], [])
    else ServeFrames(p.buffer + chunk, queue, |p.sent|, luck)
  }

  /** A round, exactly: the program ends where serving does, or where a flagged
      drain needs more receives than succeed; otherwise it is back in poll with
      the state served, and with the socket drained if it was flagged. */
  predicate RoundExact(p: Port, t: Turn, luck: Luck, q: Port) {
    var flag := t.wpaReady && p.inbox + t.arrivals != [];
    match RoundServes(p, t, luck)
    case Ends => q.control.Exited?
    case GoesOn(b, ds, ms, out) =>
      if flag && t.drains < |ds| then q.control.Exited?
      else
        && q.control == Polling && q.attachedAt == p.attachedAt
        && q.buffer == b && q.sent == p.sent + ms
        && q.inbox == (if flag then [] else ds)
        && q.stdout == p.stdout + out + (if flag then FrameAll(Cuts(ds)) else [])
  }

  lemma ReadServes(p: Port, t: Turn, luck: Luck)
    requires p.control.Polling? && |p.buffer| < 2048
    ensures var q, ready := Arrived(p, t.arrivals), Flag(Arrived(p, t.arrivals), t);
            var chunk := Delivered(t, |p.buffer|);
            Serves(q.(consumed := q.consumed + chunk), ready, RoundServes(p, t, luck),
                   AfterRead(q, ReadInto(t, |q.buffer|), ready, luck))
  {
    var q, ready := Arrived(p, t.arrivals), Flag(Arrived(p, t.arrivals), t);
    var chunk := Delivered(t, |p.buffer|);
    assert q.buffer + [] == q.buffer && q.consumed + [] == q.consumed;
    if chunk == [] {
      ServesNothing(q.(consumed := q.consumed + chunk));
      ServeOver(Wake(q, [], ready), luck);
    } else {
      ServeIsFrames(Wake(q, chunk, ready), luck);
    }
  }

  lemma TurnExact(p: Port, t: Turn, luck: Luck)
    requires p.control.Polling? && |p.buffer| < 2048
    ensures RoundExact(p, t, luck, TakeTurn(p, t, luck))
  {
    var q, ready := Arrived(p, t.arrivals), Flag(Arrived(p, t.arrivals), t);
    var r := AfterRead(q, ReadInto(t, |q.buffer|), ready, luck);
    ReadServes(p, t, luck);
    DrainKeeps(r, t.drains);
    if r.control.Draining? {
      DrainOutcome(r, t.drains);
      if |r.inbox| <= t.drains { DrainExact(r, t.drains); }
    } else {
      assert r.stdout + [] == r.stdout;
    }
  }

  // ----------------------------------------------------------------------- many rounds

  /** All bytes read in the rounds, after the bytes `done`. What a round can read
      depends on what a reader of the stream so far has left unparsed. */
  function BytesRead(done: Bytes, ts: seq<Turn>): Bytes
    decreases |ts|
  {
    if ts == [] then done
    else BytesRead(done + Delivered(ts[0], |Parse(done, 2048).rest|), ts[1..])
  }

  function Arrivals(ts: seq<Turn>): seq<Datagram> {
    if ts == [] then [] else ts[0].arrivals + Arrivals(ts[1..])
  }

  /** From `p` to `q` the first `k` rounds were played: all of them, unless the
      program has exited. */
  predicate PlayedAll(p: Port, ts: seq<Turn>, k: nat, q: Port) {
    && k <= |ts| && (q.control.Polling? ==> k == |ts|)
    && q.consumed == BytesRead(p.consumed, ts[..k])
    && q.arrived == p.arrived + Arrivals(ts[..k])
    && (q.control.Polling? || q.control.Exited?)
    && (q.control.Polling? && k > 0 && ts[k - 1].wpaReady ==> q.inbox == [])
  }

  lemma PlayedCons(p: Port, ts: seq<Turn>, r: Port, k: nat, q: Port)
    requires ts != [] && Played(p, ts[0], r) && PlayedAll(r, ts[1..], k, q)
    requires Parse(p.consumed, 2048).rest == p.buffer
    requires k == 0 ==> q == r
    ensures PlayedAll(p, ts, k + 1, q)
  {
    assert ts[..k + 1][0] == ts[0] && ts[..k + 1][1..] == ts[1..][..k];
    Assoc(p.arrived, ts[0].arrivals, Arrivals(ts[1..][..k]));
  }

  /** The first round, and the parser's view of the buffer in front of it. */
  lemma FirstTurn(p: Port, t: Turn, luck: Luck) returns (r: Port)
    requires Inv(p) && p.control.Polling? && Sound(t)
    ensures r == TakeTurn(p, t, luck) && Inv(r) && Played(p, t, r)
    ensures Parse(p.consumed, 2048).rest == p.buffer
  {
    InputReadsAsParsed(p);
    TurnEffect(p, t, luck);
    r := TakeTurn(p, t, luck);
    var es := TurnIsRun(p, t, luck);
    InvRun(p, es);
  }

  lemma NoTurns(q: Port, ts: seq<Turn>)
    requires if q.control.Polling? then ts == [] else q.control.Exited?
    ensures PlayedAll(q, ts, 0, q)
  {
    assert q.arrived + [] == q.arrived;
    assert ts[..0] == [];
  }

  lemma TurnsStep(p: Port, ts: seq<Turn>, luck: Luck)
    requires p.control.Polling? && ts != []
    ensures TakeTurns(p, ts, luck) == TakeTurns(TakeTurn(p, ts[0], luck), ts[1..], luck)
  {
  }

  lemma TurnsMore(p: Port, ts: seq<Turn>, luck: Luck, r: Port, k: nat)
    requires ts != [] && p.control.Polling? && r == TakeTurn(p, ts[0], luck) && Played(p, ts[0], r)
    requires Parse(p.consumed, 2048).rest == p.buffer
    requires PlayedAll(r, ts[1..], k, TakeTurns(r, ts[1..], luck))
    requires k == 0 ==> TakeTurns(r, ts[1..], luck) == r
    ensures PlayedAll(p, ts, k + 1, TakeTurns(p, ts, luck))
  {
    TurnsStep(p, ts, luck);
    PlayedCons(p, ts, r, k, TakeTurns(r, ts[1..], luck));
  }

  lemma NoMoreTurns(p: Port, ts: seq<Turn>, luck: Luck)
    requires if p.control.Polling? then ts == [] else p.control.Exited?
    ensures TakeTurns(p, ts, luck) == p && PlayedAll(p, ts, 0, p)
  {
    NoTurns(p, ts);
  }

  lemma {:induction false} TurnsEffect(p: Port, ts: seq<Turn>, luck: Luck) returns (k: nat)
    requires p.control.Exited? || (p.control.Polling? && Inv(p))
    requires forall i :: 0 <= i < |ts| ==> Sound(ts[i])
    ensures PlayedAll(p, ts, k, TakeTurns(p, ts, luck))
    ensures k == 0 ==> TakeTurns(p, ts, luck) == p
    decreases |ts|
  {
    if ts == [] || !p.control.Polling? {
      k := 0;
      NoMoreTurns(p, ts, luck);
    } else {
      var r := FirstTurn(p, ts[0], luck);
      var n := TurnsEffect(r, ts[1..], luck);
      TurnsMore(p, ts, luck, r, n);
      k := n + 1;
    }
  }

  /** What the program has done after `k` rounds: it has read what was delivered
      and taken what arrived; at rest the commands sent are the frames of all that
      was delivered, and before only the first of these; what it has written are
      the frames of what it took. */
  predicate Done(queue: seq<Datagram>, ts: seq<Turn>, k: nat, q: Port) {
    && k <= |ts| && (q.control.Polling? ==> k == |ts|) && (q.control.Polling? || q.control.Exited?)
    && q.consumed == BytesRead([], ts[..k])
    && Datagrams(q.taken) + q.inbox == queue + Arrivals(ts[..k])
    && q.stdout == FrameAll(Relayed(q.taken))
    && |q.sent| > 0 && q.sent[0] == "ATTACH" && q.sent[1..] <= Parse(q.consumed, 2048).frames
    && (q.control.Polling? ==> q.sent == ["ATTACH"] + Parse(BytesRead([], ts), 2048).frames)
    && (q.control.Polling? && k > 0 && ts[k - 1].wpaReady ==> q.inbox == [])
  }

  lemma SentParsed(q: Port)
    requires Inv(q)
    ensures |q.sent| > 0 && q.sent[0] == "ATTACH" && q.sent[1..] <= Parse(q.consumed, 2048).frames
    ensures q.control.Polling? ==> q.sent == ["ATTACH"] + Parse(q.consumed, 2048).frames
  {
    InputReadsAsParsed(q);
    assert q.sent == [q.sent[0]] + q.sent[1..];
  }

  /** What has been read and taken, given the invariant. */
  lemma DoneOf(queue: seq<Datagram>, ts: seq<Turn>, k: nat, p: Port, q: Port)
    requires Inv(q) && p.consumed == [] && p.arrived == queue && PlayedAll(p, ts, k, q)
    ensures Done(queue, ts, k, q)
  {
    SentParsed(q);
    assert ts[..|ts|] == ts;
    assert [] + Arrivals(ts[..k]) == Arrivals(ts[..k]);
  }

  /** The whole program, from its start through any rounds. */
  lemma ProgramEffect(queue: seq<Datagram>, ts: seq<Turn>, luck: Luck) returns (k: nat)
    requires forall i :: 0 <= i < |ts| ==> Sound(ts[i])
    ensures Done(queue, ts, k, TakeTurns(Started(queue, luck), ts, luck))
  {
    var p := StartedKeeps(queue, luck);
    k := TurnsEffect(p, ts, luck);
    var es := TurnsAreRun(p, ts, luck);
    InvRun(p, es);
    DoneOf(queue, ts, k, p, TakeTurns(p, ts, luck));
  }

  lemma StartedKeeps(queue: seq<Datagram>, luck: Luck) returns (p: Port)
    ensures p == Started(queue, luck) && Inv(p) && (p.control.Polling? || p.control.Exited?)
    ensures p.consumed == [] && p.arrived == queue
  {
    p := Started(queue, luck);
    AttachKeeps(Begin(queue), luck.waits(0));
    StartEffect(queue, luck);
    var es := StartIsRun(queue, luck);
    BeginInv([]);
    InvRun(INITIAL, es);
  }
}
