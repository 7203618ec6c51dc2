/**
 The port program itself (`wpa_ex.c`): the two fixed 2048-byte arrays, the fill
 index and the loops over them. The ghost field `port` is the value-level machine
 of module PortProgram; every method moves it by steps of that machine.
 */
module WpaEx {
  import opened Framing
  import opened PortProgram
  import opened PortTheorems
  import opened PortCalls
  import opened PortTurns
  import opened SendRetry
  import opened WpaCtrl

  class Program {
    const ctrl: Ctrl
    const out: Pipe
    const erlBuffer: array<char>
    const wpaBuffer: array<char>
    var erlBufferIx: nat
    ghost var port: Port

    ghost function Repr(): set<object> {
      {this, ctrl, out, erlBuffer, wpaBuffer}
    }

    /** The process before main has attached. */
    constructor (ctrl: Ctrl, out: Pipe)
      requires ctrl.cookie == null && ctrl.Valid() && ctrl.sent == [] && out.written == []
      ensures this.ctrl == ctrl && this.out == out && Fresh()
    {
      this.ctrl, this.out := ctrl, out;
      erlBuffer := new char[BUFFER_SIZE];
      wpaBuffer := new char[BUFFER_SIZE];
      erlBufferIx := 0;
      port := Begin(ctrl.inbox);
    }

    ghost predicate Fresh()
      reads Repr()
    {
      && erlBuffer.Length == BUFFER_SIZE && wpaBuffer.Length == BUFFER_SIZE && erlBuffer != wpaBuffer
      && erlBufferIx == 0
      && ctrl.cookie == null && ctrl.Valid() && ctrl.sent == [] && out.written == []
    }

    /** main up to its loop. It goes on exactly when the machine attaches. */
    method Start() returns (exit: bool)
      requires Fresh()
      modifies ctrl`inbox, ctrl`sent, this`port
      ensures port == Started(old(ctrl.inbox), Fate())
      ensures exit <==> port.control.Exited?
      ensures if Fate().sends(0) then Tied()
              else port.inbox == ctrl.inbox && ctrl.sent == [] && port.stdout == out.written
      ensures !exit ==> Valid() && port.control.Polling?
    {
      StartEffect(ctrl.inbox, Fate());
      port := Started(ctrl.inbox, Fate());
      var ok := ctrl.AttachHelper(true);
      exit := !ok;
    }

    /** The outside world and the machine agree. */
    ghost predicate Tied()
      reads this, ctrl, out
    {
      port.inbox == ctrl.inbox && port.sent == ctrl.sent && port.stdout == out.written
    }

    /** The arrays and the machine agree, when the first `done` bytes of the
        buffer have been served but not moved out yet. */
    ghost predicate ValidFrom(done: nat)
      reads Repr()
    {
      && erlBuffer.Length == BUFFER_SIZE && wpaBuffer.Length == BUFFER_SIZE && erlBuffer != wpaBuffer
      && done <= erlBufferIx <= BUFFER_SIZE
      && ctrl.cookie == null && ctrl.Valid()
      && port.buffer == erlBuffer[done..erlBufferIx]
      && Tied()
    }

    ghost predicate Valid()
      reads Repr()
    {
      ValidFrom(0) && Inv(port)
    }

    /** How the system calls of the program turn out. */
    ghost function Fate(): Luck {
      Luck((k: nat) => SendSucceeds(ctrl.world(k)), ctrl.waits)
    }

    /** do_wpa_request, for the command of `len` bytes in the buffer. */
    method DoWpaRequest(len: nat) returns (exit: bool)
      requires ValidFrom(0) && port.control.Dispatching?
      requires HEADER_SIZE + len <= erlBufferIx
      requires FirstFrame(port.buffer, BUFFER_SIZE) == Complete(erlBuffer[HEADER_SIZE..HEADER_SIZE + len])
      modifies ctrl`inbox, ctrl`sent, out, wpaBuffer, this`port
      ensures ServeErl(old(port), Fate()) == ServeErl(port, Fate())
      ensures Tied() && (exit ==> port.control.Exited?)
      ensures !exit ==> ValidFrom(HEADER_SIZE + len)
      ensures !exit ==> port.control == if port.buffer == [] then Idle(old(port).control.wpaReady)
                                        else Dispatching(old(port).control.wpaReady)
    {
      ghost var q := RequestEffect(port, Fate());
      ghost var unserved := erlBuffer[HEADER_SIZE + len..erlBufferIx];
      assert erlBuffer[0..erlBufferIx][HEADER_SIZE + len..] == unserved;
      var status, n := ctrl.Request(erlBuffer, HEADER_SIZE, len, wpaBuffer, BUFFER_SIZE, out);
      if status < 0 {
        exit := true;
      } else {
        out.Send(wpaBuffer, n);
        exit := false;
        assert q.buffer == unserved;
      }
      port := q;
    }

    /** try_dispatch: 0 when the buffer holds no complete frame, otherwise the
        number of bytes served. */
    method TryDispatch() returns (processed: nat, exit: bool)
      requires ValidFrom(0) && port.control.Dispatching?
      modifies ctrl`inbox, ctrl`sent, out, wpaBuffer, this`port
      ensures ServeErl(old(port), Fate()) == ServeErl(port, Fate())
      ensures Tied() && (exit ==> port.control.Exited?)
      ensures !exit ==> ValidFrom(processed)
      ensures !exit && processed == 0 ==> port.control == Idle(old(port).control.wpaReady)
      ensures !exit && processed > 0 ==>
                && processed >= HEADER_SIZE
                && port.control == if port.buffer == [] then Idle(old(port).control.wpaReady)
                                   else Dispatching(old(port).control.wpaReady)
    {
      assert port.buffer == erlBuffer[..erlBufferIx];
      ServeDispatch(port, Fate());
      if erlBufferIx < HEADER_SIZE {
        port := Progress(port, Fate().sends(|port.sent|));
        return 0, false;
      }
      var msglen := erlBuffer[0] as int * 256 + erlBuffer[1] as int;
      assert msglen == Announced(port.buffer);
      if msglen + HEADER_SIZE > BUFFER_SIZE {
        port := Progress(port, Fate().sends(|port.sent|));
        return 0, true;
      }
      if msglen + HEADER_SIZE > erlBufferIx {
        port := Progress(port, Fate().sends(|port.sent|));
        return 0, false;
      }
      assert port.buffer[HEADER_SIZE..HEADER_SIZE + msglen] == erlBuffer[HEADER_SIZE..HEADER_SIZE + msglen];
      exit := DoWpaRequest(msglen);
      processed := HEADER_SIZE + msglen;
    }

    /** memmove of the unserved bytes to the front of the buffer. */
    method Compact(processed: nat)
      requires ValidFrom(processed)
      modifies erlBuffer, this`erlBufferIx
      ensures ValidFrom(0) && erlBufferIx == old(erlBufferIx) - processed
    {
      ghost var rest := erlBuffer[processed..erlBufferIx];
      var m := erlBufferIx - processed;
      forall i | 0 <= i < m { erlBuffer[i] := erlBuffer[processed + i]; }
      erlBufferIx := m;
      assert erlBuffer[0..erlBufferIx] == rest;
    }

    /** The loop of process_erl. Every round but the last removes at least two bytes. */
    method DispatchLoop() returns (exit: bool)
      requires ValidFrom(0) && port.control.Dispatching?
      modifies ctrl`inbox, ctrl`sent, out, wpaBuffer, erlBuffer, this`port, this`erlBufferIx
      ensures port == ServeErl(old(port), Fate()) && Tied()
      ensures exit <==> port.control.Exited?
      ensures !exit ==> ValidFrom(0) && port.control == Idle(old(port).control.wpaReady)
    {
      exit := false;
      while true
        invariant !exit && ValidFrom(0) && port.control == Dispatching(old(port).control.wpaReady)
        invariant ServeErl(port, Fate()) == ServeErl(old(port), Fate())
        decreases erlBufferIx
      {
        var processed, dead := TryDispatch();
        if dead {
          return true;
        } else if processed == 0 {
          return false;
        } else if erlBufferIx > processed {
          Compact(processed);
        } else {
          erlBufferIx := 0;
          return false;
        }
      }
    }

    /** What read does to the buffer behind the bytes it holds. */
    method Append(chunk: Bytes)
      requires erlBufferIx + |chunk| <= erlBuffer.Length
      modifies erlBuffer, this`erlBufferIx
      ensures erlBufferIx == old(erlBufferIx) + |chunk|
      ensures erlBuffer[..erlBufferIx] == old(erlBuffer[..erlBufferIx]) + chunk
    {
      forall i | 0 <= i < |chunk| { erlBuffer[erlBufferIx + i] := chunk[i]; }
      assert erlBuffer[..erlBufferIx] == old(erlBuffer[..erlBufferIx]);
      erlBufferIx := erlBufferIx + |chunk|;
    }

    /** The read at the head of process_erl. It always has room to read into, so
        a result of 0 means end of file. */
    method Fill(chunk: Bytes, ghost wpaReady: bool)
      requires Valid() && port.control.Polling?
      requires 0 < |chunk| <= BUFFER_SIZE - erlBufferIx && Octets(chunk)
      modifies erlBuffer, this`erlBufferIx, this`port
      ensures Valid() && port == Wake(old(port), chunk, wpaReady)
    {
      WakeInv(port, chunk, wpaReady);
      ghost var q := Wake(port, chunk, wpaReady);
      assert port.buffer == erlBuffer[..erlBufferIx];
      Append(chunk);
      assert q.buffer == erlBuffer[..erlBufferIx] == erlBuffer[0..erlBufferIx];
      port := q;
    }

    /** process_erl, when poll has found standard input ready. */
    method ProcessErl(input: ReadResult, ghost wpaReady: bool) returns (exit: bool)
      requires Valid() && port.control.Polling?
      requires input.Data? ==> 0 < |input.bytes| <= BUFFER_SIZE - erlBufferIx && Octets(input.bytes)
      modifies ctrl`inbox, ctrl`sent, out, wpaBuffer, erlBuffer, this`port, this`erlBufferIx
      ensures port == AfterRead(old(port), input, wpaReady, Fate()) && Tied()
      ensures port.consumed == old(port).consumed + (if input.Data? then input.bytes else [])
      ensures input.EndOfFile? ==> port.control == Exited(EndOfInput, false)
      ensures input.ReadError? ==> port.control == Exited(SystemError, false)
      ensures exit <==> port.control.Exited?
      ensures !exit ==> Valid() && port.control == Idle(wpaReady)
    {
      AfterReadKeeps(port, input, wpaReady, Fate());
      match input
      case ReadError =>
        port := Stop(port, SystemError);
        exit := true;
      case Interrupted =>
        WakeInv(port, [], wpaReady);
        assert port.buffer + [] == port.buffer;
        port := Wake(port, [], wpaReady);
        exit := false;
      case EndOfFile =>
        port := Stop(port, EndOfInput);
        exit := true;
      case Data(chunk) =>
        Fill(chunk, wpaReady);
        ServeErlInv(port, Fate());
        exit := DispatchLoop();
    }

    /** One round of process_wpa: a datagram is pending, so recv gets one unless
        the call itself fails, which it does when no good one is `left`. */
    method DrainOne(left: nat) returns (exit: bool)
      requires ValidFrom(0) && port.control.Draining? && ctrl.inbox != []
      modifies ctrl`inbox, out, wpaBuffer, this`port
      ensures exit <==> left == 0
      ensures exit ==> port == ServeWpa(old(port), left) && port.control.Exited? && Tied()
      ensures !exit ==> ValidFrom(0) && port.control.Draining? && ctrl.inbox == old(ctrl.inbox)[1..]
      ensures !exit ==> ServeWpa(port, left - 1) == ServeWpa(old(port), left)
    {
      if left == 0 {
        DrainFails(port);
        port := port.(control := Exited(SystemError, false));
        return true;
      }
      DrainStep(port, left);
      DrainEffect(port);
      var res := ctrl.Recv(wpaBuffer, BUFFER_SIZE);
      exit := res < 0;
      out.Send(wpaBuffer, res);
      port := Progress(Progress(port, true), true);
    }

    /** The loop of process_wpa, up to an empty queue or a failed receive. */
    method DrainLoop(drains: nat) returns (exit: bool, k: nat)
      requires ValidFrom(0) && port.control.Draining?
      modifies ctrl`inbox, out, wpaBuffer, this`port
      ensures exit ==> port == ServeWpa(old(port), drains) && port.control.Exited? && Tied()
      ensures !exit ==> ValidFrom(0) && port.control.Draining? && ctrl.inbox == []
      ensures !exit ==> ServeWpa(port, k) == ServeWpa(old(port), drains)
    {
      ghost var goal := ServeWpa(port, drains);
      exit, k := false, drains;
      var more := ctrl.Pending();
      while more
        invariant !exit && ValidFrom(0) && port.control.Draining? && (more <==> ctrl.inbox != [])
        invariant ServeWpa(port, k) == goal
        decreases k
      {
        exit := DrainOne(k);
        if exit { return; }
        k := k - 1;
        more := ctrl.Pending();
      }
    }

    /** process_wpa: everything pending is forwarded, unless the receive that
        follows `drains` good ones fails. It is never called on an empty queue. */
    method ProcessWpa(drains: nat) returns (exit: bool)
      requires Valid() && port.control.Draining?
      modifies ctrl`inbox, out, wpaBuffer, this`port
      ensures port == ServeWpa(old(port), drains) && Tied()
      ensures exit <==> port.control.Exited?
      ensures exit <==> drains < |old(ctrl.inbox)|
      ensures !exit ==> Valid() && port.control.Polling? && ctrl.inbox == []
    {
      DrainOutcome(port, drains);
      ServeWpaInv(port, drains);
      var k;
      exit, k := DrainLoop(drains);
      if !exit {
        DrainEnd(port, k);
        port := port.(control := Polling);
      }
    }

    /** One round of main's loop: `input` is what read reports if poll flags
        standard input, `wpaReady` the flag of the socket. */
    method PollRound(input: ReadResult, erlReady: bool, wpaReady: bool, drains: nat) returns (exit: bool)
      requires Valid() && port.control.Polling? && (wpaReady ==> ctrl.inbox != [])
      requires input.Data? ==> 0 < |input.bytes| <= BUFFER_SIZE - erlBufferIx && Octets(input.bytes)
      modifies ctrl`inbox, ctrl`sent, out, wpaBuffer, erlBuffer, this`port, this`erlBufferIx
      ensures var read := if erlReady then input else Interrupted;
              port == ServeWpa(AfterRead(old(port), read, wpaReady, Fate()), drains)
      ensures Tied() && (!exit && wpaReady ==> ctrl.inbox == [])
      ensures exit <==> port.control.Exited?
      ensures !exit ==> Valid() && port.control.Polling?
    {
      exit := false;
      if erlReady {
        exit := ProcessErl(input, wpaReady);
        if exit { return; }
      } else {
        assert port.buffer + [] == port.buffer;
        WakeInv(port, [], wpaReady);
        port := Wake(port, [], wpaReady);
      }
      if wpaReady {
        exit := ProcessWpa(drains);
      }
    }

    /** A round as the world plays it. There is always room to read. */
    method PlayRound(t: Turn) returns (exit: bool)
      requires Valid() && port.control.Polling? && Sound(t)
      modifies ctrl`inbox, ctrl`sent, out, wpaBuffer, erlBuffer, this`port, this`erlBufferIx
      ensures port == TakeTurn(old(port), t, Fate()) && Tied()
      ensures exit <==> port.control.Exited?
      ensures !exit ==> Valid() && port.control.Polling?
    {
      ArrivedInv(port, t.arrivals);
      ctrl.Arrive(t.arrivals);
      port := Arrived(port, t.arrivals);
      InputReadsAsParsed(port);
      assert |port.buffer| == erlBufferIx < BUFFER_SIZE;
      exit := PollRound(ReadInto(t, erlBufferIx), t.erlReady, t.wpaReady && ctrl.inbox != [], t.drains);
    }

    /** The same, and exactly what it does to the world. */
    method Round(t: Turn) returns (exit: bool)
      requires Valid() && port.control.Polling? && Sound(t)
      modifies ctrl`inbox, ctrl`sent, out, wpaBuffer, erlBuffer, this`port, this`erlBufferIx
      ensures port == TakeTurn(old(port), t, Fate()) && Tied()
      ensures Played(old(port), t, port) && EndsWithInput(old(port), t, port)
      ensures RoundExact(old(port), t, Fate(), port)
      ensures exit <==> port.control.Exited?
      ensures !exit ==> Valid() && port.control.Polling?
    {
      InputReadsAsParsed(port);
      TurnEffect(port, t, Fate());
      TurnExact(port, t, Fate());
      exit := PlayRound(t);
    }

    /** The loop of main over any rounds, until the program exits. */
    method PlayRounds(ts: seq<Turn>) returns (exit: bool)
      requires Valid() && port.control.Polling? && forall i :: 0 <= i < |ts| ==> Sound(ts[i])
      modifies ctrl`inbox, ctrl`sent, out, wpaBuffer, erlBuffer, this`port, this`erlBufferIx
      ensures port == TakeTurns(old(port), ts, Fate()) && Tied()
      ensures exit <==> port.control.Exited?
    {
      exit := false;
      ghost var goal := TakeTurns(port, ts, Fate());
      var i := 0;
      while i < |ts| && !exit
        invariant i <= |ts| && Tied()
        invariant exit <==> port.control.Exited?
        invariant exit || (Valid() && port.control.Polling?)
        invariant TakeTurns(port, ts[i..], Fate()) == goal
      {
        assert ts[i..][1..] == ts[i + 1..];
        exit := PlayRound(ts[i]);
        i := i + 1;
      }
    }

    /** The same, and what `k` rounds, all of them unless it exits, have done. */
    method Loop(ts: seq<Turn>) returns (exit: bool, ghost k: nat)
      requires Valid() && port.control.Polling? && forall i :: 0 <= i < |ts| ==> Sound(ts[i])
      modifies ctrl`inbox, ctrl`sent, out, wpaBuffer, erlBuffer, this`port, this`erlBufferIx
      ensures port == TakeTurns(old(port), ts, Fate()) && Tied()
      ensures PlayedAll(old(port), ts, k, port)
      ensures exit <==> port.control.Exited?
    {
      k := TurnsEffect(port, ts, Fate());
      exit := PlayRounds(ts);
    }

    /** main: the start and the loop. What it has read are the bytes delivered and
        what it has sent are their frames; what it has written, what it has sent
        and what is left on the socket are what the machine has, exits included. */
    method Execute(ts: seq<Turn>) returns (exit: bool, ghost k: nat)
      requires Fresh() && forall i :: 0 <= i < |ts| ==> Sound(ts[i])
      modifies ctrl`inbox, ctrl`sent, out, wpaBuffer, erlBuffer, this`port, this`erlBufferIx
      ensures port == TakeTurns(Started(old(ctrl.inbox), Fate()), ts, Fate())
      ensures if Fate().sends(0) then Tied()
              else port.inbox == ctrl.inbox && ctrl.sent == [] && port.stdout == out.written
      ensures Done(old(ctrl.inbox), ts, k, port)
      ensures !exit ==> ctrl.sent == ["ATTACH"] + Parse(BytesRead([], ts), 2048).frames
      ensures exit <==> port.control.Exited?
    {
      k := ProgramEffect(ctrl.inbox, ts, Fate());
      exit := Start();
      if !exit { exit := PlayRounds(ts); }
    }
  }
}
