/**
 The control interface library (`wpa_ctrl.c`) over arrays: the request with its
 receive loop, receive, pending and attach.
 */
module WpaCtrl {
  import opened Framing
  import opened ControlSocket
  import opened OsString
  import opened SendRetry

  /** Standard output of the port program. */
  class Pipe {
    var written: Bytes

    constructor ()
      ensures written == []
    {
      written := [];
    }

    /** send_to_erl: one frame, its length narrowed to 16 bits. */
    method Send(msg: array<char>, len: nat)
      requires len <= msg.Length
      modifies this
      ensures written == old(written) + Frame(msg[..len])
    {
      var header := Header(len);
      written := written + (header + msg[..len]);
    }
  }

  class Ctrl {
    /** UDP build: a C string put in front of every command. */
    const cookie: array?<char>
    /** The send outcomes and clock of the request that follows k sent ones. */
    const world: nat -> World
    /** How many waits for a datagram succeed in that request; a wait is one
        select and the receive behind it. */
    const waits: nat -> nat
    /** The datagrams that the socket holds, or that reach it before a select
        on it runs out of time. */
    var inbox: seq<Datagram>
    /** Every datagram sent to the supplicant. */
    var sent: seq<Bytes>

    constructor (cookie: array?<char>, world: nat -> World, waits: nat -> nat)
      ensures this.cookie == cookie && this.world == world && this.waits == waits && inbox == [] && sent == []
    {
      this.cookie, this.world, this.waits := cookie, world, waits;
      inbox, sent := [], [];
    }

    ghost predicate Valid()
      reads cookie
    {
      && (cookie != null ==> Terminated(cookie[..]))
      && forall k :: TimePasses(world(k))
    }

    /** The datagram that carries a command. */
    ghost function Wire(cmd: Bytes): Bytes
      reads cookie
      requires Valid()
    {
      if cookie == null then cmd else CString(cookie[..]) + " " + cmd
    }

    /** Datagrams from the supplicant reach the socket. */
    method Arrive(ds: seq<Datagram>)
      modifies this`inbox
      ensures inbox == old(inbox) + ds
    {
      inbox := inbox + ds;
    }

    /** recv: -1 on an empty queue, otherwise the first datagram cut to `len`. */
    method Recv(buf: array<char>, len: nat) returns (res: int)
      requires len <= buf.Length
      modifies this`inbox, buf
      ensures old(inbox) == [] ==> res == -1 && inbox == [] && buf[..] == old(buf[..])
      ensures old(inbox) != [] ==>
                && res == |Cut(old(inbox)[0], len)| && inbox == old(inbox)[1..]
                && buf[..res] == Cut(old(inbox)[0], len)
                && forall i :: res <= i < buf.Length ==> buf[i] == old(buf[i])
    {
      if inbox == [] { return -1; }
      var d := inbox[0];
      inbox := inbox[1..];
      res := if |d| <= len then |d| else len;
      forall i | 0 <= i < res { buf[i] := d[i]; }
      assert buf[..res] == Cut(d, len);
    }

    /** wpa_ctrl_pending: a select that does not wait. */
    method Pending() returns (ready: bool)
      ensures ready <==> inbox != []
    {
      ready := inbox != [];
    }

    /** The send half of wpa_ctrl_request. */
    method SendCommand(cmd: array<char>, at: nat, cmdLen: nat) returns (ok: bool)
      requires Valid() && at + cmdLen <= cmd.Length
      modifies this`sent
      ensures ok <==> SendSucceeds(world(|old(sent)|))
      ensures sent == if ok then old(sent) + [Wire(cmd[at..at + cmdLen])] else old(sent)
    {
      var wire := cmd[at..at + cmdLen];
      if cookie != null {
        ghost var name := cookie[..];
        var buf := PrefixCookie(cookie, cmd, at, cmdLen);
        assert cookie[..] == name;
        wire := buf[..];
      }
      var sends;
      ok, sends := SendWithRetry(world(|sent|));
      if ok { sent := sent + [wire]; }
    }

    /** Passes a received event on: it is made NUL-terminated first, which costs
        a full buffer its last byte. */
    method Notify(reply: array<char>, got: nat, replyLen: nat, out: Pipe)
      requires 0 < got <= replyLen <= reply.Length
      modifies reply, out
      ensures out.written == old(out.written) + Frame(Cut(old(reply[..got]), replyLen - 1))
      ensures forall i :: replyLen <= i < reply.Length ==> reply[i] == old(reply[i])
    {
      var res := if got == replyLen then replyLen - 1 else got;
      reply[res] := '\0';
      assert reply[..res] == old(reply[..got])[..res];
      out.Send(reply, res);
    }

    /** One round of the receive loop: an event goes to the callback and the
        loop goes on, anything else is the reply. */
    method ReceiveOne(reply: array<char>, replyLen: nat, out: Pipe?) returns (res: nat, again: bool)
      requires inbox != [] && replyLen <= reply.Length
      modifies this`inbox, reply, out
      ensures inbox == old(inbox)[1..]
      ensures again <==> IsEvent(Cut(old(inbox)[0], replyLen))
      ensures !again ==> res == |Cut(old(inbox)[0], replyLen)| && reply[..res] == Cut(old(inbox)[0], replyLen)
      ensures out != null && !again ==> out.written == old(out.written)
      ensures out != null && again ==> out.written == old(out.written) + Frame(Cut(old(inbox)[0], replyLen - 1))
      ensures forall i :: replyLen <= i < reply.Length ==> reply[i] == old(reply[i])
    {
      ghost var d := inbox[0];
      res := Recv(reply, replyLen);
      assert reply[..res] == Cut(d, replyLen);
      again := res > 0 && reply[0] == '<';
      if again && out != null {
        Notify(reply, res, replyLen, out);
        CutTwice(d, replyLen);
      }
    }

    /** The receive loop of wpa_ctrl_request: it cuts the queue at the first
        datagram that does not begin with '<', hands the ones in front of it to
        the callback in order, and writes nothing outside the reply buffer. When
        the wait that follows `left` good ones fails before the reply is in, it
        has handed on the events received until then. */
    method AwaitReply(reply: array<char>, replyLen: nat, out: Pipe?, left: nat) returns (status: int, n: nat)
      requires replyLen <= reply.Length
      modifies this`inbox, reply, out
      ensures var e := ReceiveUpTo(old(inbox), replyLen, left);
              && inbox == e.rest && status == StatusOf(e)
              && (e.Got? ==> n == |Cut(e.reply, replyLen)| && reply[..n] == Cut(e.reply, replyLen))
              && (out != null ==> out.written == old(out.written) + FrameAll(CallbackTexts(e.events, replyLen)))
      ensures forall i :: replyLen <= i < reply.Length ==> reply[i] == old(reply[i])
    {
      ghost var before, seen: seq<Datagram> := if out == null then [] else out.written, [];
      ghost var whole, e := inbox, ReceiveUpTo(inbox, replyLen, left);
      status, n := 0, 0;
      assert Inside(whole, seen, inbox, replyLen);
      var again := true;
      var k: nat := left;
      while again
        invariant again ==> status == 0 && k + |seen| == left && Inside(whole, seen, inbox, replyLen)
        invariant !again ==> seen == e.events && inbox == e.rest && status == StatusOf(e)
        invariant !again && e.Got? ==> n == |Cut(e.reply, replyLen)| && reply[..n] == Cut(e.reply, replyLen)
        invariant out != null ==> out.written == before + FrameAll(CallbackTexts(seen, replyLen))
        invariant forall i :: replyLen <= i < reply.Length ==> reply[i] == old(reply[i])
        decreases |inbox|, again
      {
        if k == 0 {
          status, again := -1, false;
          WaitFails(whole, seen, inbox, replyLen);
        } else if inbox == [] {
          status, again := -2, false;
          NothingLeft(whole, seen, replyLen, left);
        } else {
          ghost var q := inbox;
          n, again := ReceiveOne(reply, replyLen, out);
          k := k - 1;
          if again {
            EventNext(whole, seen, q, replyLen);
            AppendCallback(before, seen, q[0], replyLen);
            seen := seen + [q[0]];
          } else {
            ReplyNext(whole, seen, q, replyLen, left);
          }
        }
      }
    }

    /** wpa_ctrl_request: 0 with the reply, -1 when the command could not be sent
        or a wait failed, -2 when no reply came. */
    method Request(cmd: array<char>, at: nat, cmdLen: nat, reply: array<char>, replyLen: nat, out: Pipe?)
      returns (status: int, n: nat)
      requires Valid() && at + cmdLen <= cmd.Length && replyLen <= reply.Length && reply != cookie
      modifies this`inbox, this`sent, reply, out
      ensures Valid()
      ensures !SendSucceeds(world(|old(sent)|)) ==>
                && status == -1 && inbox == old(inbox) && sent == old(sent)
                && (out != null ==> out.written == old(out.written))
      ensures SendSucceeds(world(|old(sent)|)) ==>
                var e := ReceiveUpTo(old(inbox), replyLen, waits(|old(sent)|));
                && sent == old(sent) + [Wire(old(cmd[at..at + cmdLen]))]
                && inbox == e.rest && status == StatusOf(e)
                && (e.Got? ==> n == |Cut(e.reply, replyLen)| && reply[..n] == Cut(e.reply, replyLen))
                && (out != null ==> out.written == old(out.written) + FrameAll(CallbackTexts(e.events, replyLen)))
      ensures forall i :: replyLen <= i < reply.Length ==> reply[i] == old(reply[i])
    {
      n := 0;
      var left := waits(|sent|);
      var ok := SendCommand(cmd, at, cmdLen);
      if !ok { return -1, 0; }
      status, n := AwaitReply(reply, replyLen, out, left);
    }

    /** wpa_ctrl_attach and wpa_ctrl_detach: without a callback, and with a reply buffer of ten bytes. */
    method AttachHelper(attach: bool) returns (ok: bool)
      requires Valid()
      modifies this`inbox, this`sent
      ensures Valid()
      ensures ok <==>
                && SendSucceeds(world(|old(sent)|))
                && ReceiveUpTo(old(inbox), 10, waits(|old(sent)|)).Got?
                && ReceiveUpTo(old(inbox), 10, waits(|old(sent)|)).reply == "OK\n"
      ensures if SendSucceeds(world(|old(sent)|)) then
                && sent == old(sent) + [Wire(if attach then "ATTACH" else "DETACH")]
                && inbox == ReceiveUpTo(old(inbox), 10, waits(|old(sent)|)).rest
              else sent == old(sent) && inbox == old(inbox)
    {
      var text := if attach then "ATTACH" else "DETACH";
      var cmd := new char[6](i requires 0 <= i < 6 => text[i]);
      assert cmd[0..0 + 6] == text;
      var buf := new char[10];
      var ret, n := Request(cmd, 0, 6, buf, 10, null);
      ok := ret >= 0 && n == 3 && buf[0] == 'O' && buf[1] == 'K' && buf[2] == '\n';
      assert ret >= 0 && n == 3 ==> (buf[..n] == "OK\n" <==> buf[0] == 'O' && buf[1] == 'K' && buf[2] == '\n');
    }
  }

  /** What wpa_ctrl_request reports. */
  function StatusOf(e: Ending): int {
    match e
    case Got(_, _, _) => 0
    case Failed(_, _) => -1
    case Silent(_, _) => -2
  }

  lemma CutTwice(d: Datagram, cap: nat)
    requires cap > 0
    ensures Cut(Cut(d, cap), cap - 1) == Cut(d, cap - 1)
  {
  }

  lemma AppendCallback(before: Bytes, seen: seq<Datagram>, d: Datagram, cap: nat)
    requires cap > 0
    ensures before + FrameAll(CallbackTexts(seen + [d], cap))
         == before + FrameAll(CallbackTexts(seen, cap)) + Frame(Cut(d, cap - 1))
  {
    assert CallbackTexts(seen + [d], cap) == CallbackTexts(seen, cap) + [Cut(d, cap - 1)];
    FrameAllAppend(CallbackTexts(seen, cap), [Cut(d, cap - 1)]);
    FrameAllOne(Cut(d, cap - 1));
  }
}
