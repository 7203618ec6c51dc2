/** The datagrams of the control socket and the cut made in their queue by one request. */
module ControlSocket {
  import opened Sequences
  import opened Framing

  type Datagram = Bytes

  /** What `recv` leaves in a buffer of `n` bytes. */
  function Cut(d: Datagram, n: nat): Bytes {
    if |d| <= n then d else d[..n]
  }

  /** As much of the datagram as fits, from its start. */
  lemma CutExact(d: Datagram, n: nat)
    ensures Cut(d, n) <= d && |Cut(d, n)| == if |d| < n then |d| else n
  {
  }

  /** The C side's test for an unsolicited message. */
  predicate IsEvent(d: Datagram) {
    d != "" && d[0] == '<'
  }

  lemma EventBegins(d: Datagram)
    ensures IsEvent(d) <==> "<" <= d
  {
  }

  /** The queue seen by one request: the events in front of its reply, the reply, and the rest. */
  datatype Split =
    | Answered(events: seq<Datagram>, reply: Datagram, rest: seq<Datagram>)
    | NoAnswer(events: seq<Datagram>)

  /** Splits a queue at the first datagram that, received into `cap` bytes, does not begin with '<'. */
  function SplitAtReply(queue: seq<Datagram>, cap: nat): Split {
    if queue == [] then NoAnswer([])
    else if !IsEvent(Cut(queue[0], cap)) then Answered([], queue[0], queue[1..])
    else match SplitAtReply(queue[1..], cap)
         case NoAnswer(es) => NoAnswer([queue[0]] + es)
         case Answered(es, r, rest) => Answered([queue[0]] + es, r, rest)
  }

  predicate AllEvents(ds: seq<Datagram>) {
    forall i :: 0 <= i < |ds| ==> IsEvent(ds[i])
  }

  /** The split is the queue itself, cut where the first datagram is not an event. */
  predicate IsSplit(queue: seq<Datagram>, s: Split) {
    && AllEvents(s.events)
    && match s
       case NoAnswer(es) => queue == es
       case Answered(es, r, rest) => queue == es + [r] + rest && !IsEvent(r)
  }

  lemma {:induction false} SplitSpec(queue: seq<Datagram>, cap: nat)
    requires cap > 0
    ensures IsSplit(queue, SplitAtReply(queue, cap))
  {
    if queue != [] && IsEvent(queue[0]) {
      SplitSpec(queue[1..], cap);
      assert queue == [queue[0]] + queue[1..];
      match SplitAtReply(queue[1..], cap)
      case NoAnswer(_) =>
      case Answered(es, r, rest) => assert [queue[0]] + (es + [r] + rest) == ([queue[0]] + es) + [r] + rest;
    }
  }

  /** There is only one such cut. */
  lemma SplitIsUnique(queue: seq<Datagram>, cap: nat, s: Split)
    requires cap > 0 && IsSplit(queue, s)
    ensures s == SplitAtReply(queue, cap)
  {
    SplitSpec(queue, cap);
    var t := SplitAtReply(queue, cap);
    if s.Answered? { assert queue[|s.events|] == s.reply; }
    if t.Answered? { assert queue[|t.events|] == t.reply; }
    assert |s.events| == |t.events|;
    assert s.events == queue[..|s.events|] == t.events;
    if s.Answered? { assert s.rest == queue[|s.events| + 1..] == t.rest; }
  }

  /** The datagrams as a callback sees them: the last byte of a full buffer is
      given up to a NUL. */
  function CallbackTexts(ds: seq<Datagram>, cap: nat): seq<Bytes> {
    seq(|ds|, i requires 0 <= i < |ds| => Cut(ds[i], if cap == 0 then 0 else cap - 1))
  }

  /** A split of what follows, with events already taken put back in front. */
  function Behind(events: seq<Datagram>, s: Split): Split {
    match s
    case NoAnswer(es) => NoAnswer(events + es)
    case Answered(es, r, rest) => Answered(events + es, r, rest)
  }

  lemma ConsBehind(events: seq<Datagram>, d: Datagram, more: seq<Datagram>)
    ensures events + ([d] + more) == (events + [d]) + more
  {
  }

  /** Taking one event off the queue moves it in front of the split. */
  lemma BehindStep(events: seq<Datagram>, queue: seq<Datagram>, cap: nat)
    requires queue != [] && IsEvent(Cut(queue[0], cap))
    ensures Behind(events, SplitAtReply(queue, cap)) == Behind(events + [queue[0]], SplitAtReply(queue[1..], cap))
  {
    var s := SplitAtReply(queue[1..], cap);
    ConsBehind(events, queue[0], s.events);
  }

  // ------------------------------------------------------------- waits that may fail

  /** How a receive loop ends: with the reply, because a system call failed, or
      because nothing came any more. It hands on `events` and leaves `rest`. */
  datatype Ending =
    | Got(events: seq<Datagram>, rest: seq<Datagram>, reply: Datagram)
    | Failed(events: seq<Datagram>, rest: seq<Datagram>)
    | Silent(events: seq<Datagram>, rest: seq<Datagram>)

  /** The loop over a queue when `left` waits succeed and the next one fails. */
  function ReceiveUpTo(queue: seq<Datagram>, cap: nat, left: nat): Ending {
    var s := SplitAtReply(queue, cap);
    if left <= |s.events| then Failed(s.events[..left], if left <= |queue| then queue[left..] else [])
    else match s
         case NoAnswer(es) => Silent(es, [])
         case Answered(es, r, rest) => Got(es, rest, r)
  }

  /** The three ends, seen from inside the loop: `seen` has been handed on and
      `queue` is left. */
  predicate Inside(whole: seq<Datagram>, seen: seq<Datagram>, queue: seq<Datagram>, cap: nat) {
    whole == seen + queue && SplitAtReply(whole, cap) == Behind(seen, SplitAtReply(queue, cap))
  }

  lemma WaitFails(whole: seq<Datagram>, seen: seq<Datagram>, queue: seq<Datagram>, cap: nat)
    requires Inside(whole, seen, queue, cap)
    ensures ReceiveUpTo(whole, cap, |seen|) == Failed(seen, queue)
  {
    var es := SplitAtReply(queue, cap).events;
    assert (seen + queue)[|seen|..] == queue;
    assert (seen + es)[..|seen|] == seen;
  }

  lemma NothingLeft(whole: seq<Datagram>, seen: seq<Datagram>, cap: nat, left: nat)
    requires Inside(whole, seen, [], cap) && left > |seen|
    ensures ReceiveUpTo(whole, cap, left) == Silent(seen, [])
  {
    assert seen + [] == seen;
  }

  lemma ReplyNext(whole: seq<Datagram>, seen: seq<Datagram>, queue: seq<Datagram>, cap: nat, left: nat)
    requires Inside(whole, seen, queue, cap) && queue != [] && !IsEvent(Cut(queue[0], cap)) && left > |seen|
    ensures ReceiveUpTo(whole, cap, left) == Got(seen, queue[1..], queue[0])
  {
    assert seen + [] == seen;
  }

  lemma EventNext(whole: seq<Datagram>, seen: seq<Datagram>, queue: seq<Datagram>, cap: nat)
    requires Inside(whole, seen, queue, cap) && queue != [] && IsEvent(Cut(queue[0], cap))
    ensures Inside(whole, seen + [queue[0]], queue[1..], cap)
  {
    BehindStep(seen, queue, cap);
    MoveHead(seen, queue);
  }
}
