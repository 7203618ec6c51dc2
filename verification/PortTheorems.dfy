/** What the port program guarantees over every run, whatever arrives on its pipes and socket. */
module PortTheorems {
  import opened Framing
  import opened ControlSocket
  import opened PortProgram

  /** The frames a pure reader of everything read so far finds are the commands
      sent to the supplicant, then whatever the unserved bytes still hold. */
  lemma CommandsAreParsedFrames(p: Port)
    requires InputInv(p)
    ensures var q := Parse(Unserved(p), BUFFER_SIZE);
            Parse(p.consumed, BUFFER_SIZE) == Parsed(p.sent[1..] + q.frames, q.rest, q.tooLong)
  {
    ParseFrameAll(p.sent[1..], Unserved(p), BUFFER_SIZE);
  }

  /** What reading the stream has led to: `sent` are frames of the stream, at
      rest all of them with the buffer as remainder and room to read, and after
      the over-long exit all of them up to the over-long length. */
  predicate ReadsAsParsed(p: Port) {
    var q := Parse(p.consumed, 2048);
    && p.sent != [] && p.sent[0] == "ATTACH"
    && p.sent[1..] <= q.frames
    && (AtRest(p.control) ==> q == Parsed(p.sent[1..], p.buffer, false) && |p.buffer| < 2048)
    && (p.control.Exited? && p.control.reason == MessageTooLong ==> q == Parsed(p.sent[1..], p.buffer, true))
  }

  lemma InputReadsAsParsed(p: Port)
    requires InputInv(p)
    ensures ReadsAsParsed(p)
  {
    CommandsAreParsedFrames(p);
    assert p.sent[1..] + [] == p.sent[1..];
  }

  /** Chunk independence: for every byte stream, every way `read` splits it and
      every interleaving with the socket. */
  lemma ChunkIndependence(es: seq<Input>)
    requires Legal(INITIAL, es)
    ensures ReadsAsParsed(Run(INITIAL, es))
  {
    InvRun(INITIAL, es);
    InputReadsAsParsed(Run(INITIAL, es));
  }

  /** Two runs that have read the same stream, however split and interleaved,
      have sent the same commands and hold the same remainder when at rest. */
  lemma SameStreamSameCommands(es: seq<Input>, fs: seq<Input>)
    requires Legal(INITIAL, es) && Legal(INITIAL, fs)
    requires Run(INITIAL, es).consumed == Run(INITIAL, fs).consumed
    requires AtRest(Run(INITIAL, es).control) && AtRest(Run(INITIAL, fs).control)
    ensures Run(INITIAL, es).sent == Run(INITIAL, fs).sent
    ensures Run(INITIAL, es).buffer == Run(INITIAL, fs).buffer
  {
    ChunkIndependence(es);
    ChunkIndependence(fs);
    SameParse(Run(INITIAL, es), Run(INITIAL, fs));
  }

  lemma SameParse(p: Port, q: Port)
    requires ReadsAsParsed(p) && ReadsAsParsed(q)
    requires p.consumed == q.consumed && AtRest(p.control) && AtRest(q.control)
    ensures p.sent == q.sent && p.buffer == q.buffer
  {
    assert p.sent == [p.sent[0]] + p.sent[1..];
    assert q.sent == [q.sent[0]] + q.sent[1..];
  }

  /** What is forwarded of a datagram taken after the attach handshake. */
  function Forwarded(t: Taken): Bytes {
    Cut(t.datagram, if t.path == Callback then 2047 else 2048)
  }

  lemma {:induction false} RelayedOneForOne(ts: seq<Taken>, k: nat)
    requires k <= |ts|
    requires forall i :: 0 <= i < |ts| ==> (OnAttach(ts[i]) <==> i < k)
    ensures |Relayed(ts)| == |ts| - k
    ensures forall i :: k <= i < |ts| ==> Relayed(ts)[i - k] == Forwarded(ts[i])
  {
    if ts != [] {
      var front, last := ts[..|ts| - 1], ts[|ts| - 1];
      if k < |ts| {
        RelayedOneForOne(front, k);
        assert Relay(last) == [Forwarded(last)];
        forall i | k <= i < |ts| ensures Relayed(ts)[i - k] == Forwarded(ts[i]) {
          if i < |ts| - 1 { assert front[i] == ts[i]; }
        }
      } else {
        RelayedOneForOne(front, k - 1);
      }
    }
  }

  lemma {:induction false} RelayedFramable(ts: seq<Taken>)
    ensures Framable(Relayed(ts), MAX_FRAME)
  {
    if ts != [] {
      RelayedFramable(ts[..|ts| - 1]);
    }
  }

  /** The frames `frames` carry, one for one and in order, the datagrams taken
      after the handshake, and the handshake dropped nothing but events. */
  predicate ForwardsAll(p: Port, frames: seq<Bytes>) {
    if p.attachedAt == 0 then frames == []
    else
      && p.attachedAt <= |p.taken|
      && |frames| == |p.taken| - p.attachedAt
      && (forall i :: p.attachedAt <= i < |p.taken| ==> frames[i - p.attachedAt] == Forwarded(p.taken[i]))
      && p.taken[p.attachedAt - 1].datagram == "OK\n"
      && (forall i :: 0 <= i < p.attachedAt - 1 ==> IsEvent(p.taken[i].datagram))
  }

  lemma RelayedForwardsAll(p: Port)
    requires Handshake(p)
    ensures ForwardsAll(p, Relayed(p.taken))
  {
    if p.attachedAt == 0 {
      RelayedOneForOne(p.taken, |p.taken|);
    } else {
      RelayedOneForOne(p.taken, p.attachedAt);
    }
  }

  /** Relaying. The socket queue is FIFO and loses nothing, and the frames on
      standard output are, one for one and in order, the datagrams taken after
      the handshake, each cut to the limit of the path that took it. Only
      events are lost, and only before the OK that ends the handshake. */
  lemma OutputIsWhatWasTaken(es: seq<Input>)
    requires Legal(INITIAL, es)
    ensures var p := Run(INITIAL, es);
            && p.arrived == Datagrams(p.taken) + p.inbox
            && Parse(p.stdout, MAX_FRAME).rest == [] && !Parse(p.stdout, MAX_FRAME).tooLong
            && ForwardsAll(p, Parse(p.stdout, MAX_FRAME).frames)
  {
    var p := Run(INITIAL, es);
    InvRun(INITIAL, es);
    RelayedFramable(p.taken);
    FramesRoundTrip(Relayed(p.taken), MAX_FRAME);
    RelayedForwardsAll(p);
  }

  /** The limits are those of the code: a full-buffer event loses one more byte
      on the callback path than on the drain path. */
  lemma FullBufferEvent(d: Datagram)
    ensures |Forwarded(Taken(Callback, d))| == |Forwarded(Taken(Drained, d))| <==> |d| < 2048
    ensures Forwarded(Taken(Callback, d)) == d <==> |d| < 2048
    ensures Forwarded(Taken(Drained, d)) == d <==> |d| <= 2048
  {
  }

  /** process_wpa never calls recv on an empty queue, even when process_erl
      drained the socket in the same poll round. */
  lemma NeverReceivesFromEmptyQueue(es: seq<Input>)
    requires Legal(INITIAL, es)
    ensures var p := Run(INITIAL, es);
            && (p.control.Receiving? ==> p.inbox != [])
            && !(p.control.Exited? && p.control.reason == RecvFailed)
  {
    InvRun(INITIAL, es);
  }

  /** Exit is terminal: nothing is read, sent or written any more. */
  lemma {:induction false} ExitIsTerminal(p: Port, es: seq<Input>)
    requires p.control.Exited? && Legal(p, es)
    ensures var q := Run(p, es);
            && q.control == p.control && q.consumed == p.consumed && q.sent == p.sent
            && q.stdout == p.stdout && q.taken == p.taken && q.buffer == p.buffer
    decreases |es|
  {
    if es != [] {
      ExitIsTerminal(Step(p, es[0]), es[1..]);
    }
  }
}
