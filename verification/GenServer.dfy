/** The callbacks of the Elixir server (`lib/wpa_supplicant.ex`): sends and
    replies are outputs of the callback functions. */
module GenServer {
  import opened Encoder
  import opened Decoder
  import opened Framing
  import opened ControlSocket

  /** A caller waiting for the response to its command. */
  datatype Pending = Pending(client: nat, command: Command)

  datatype CrashReason = NoRequest | Undecodable

  /** What handling one message from the port does. */
  datatype Effect =
    | Publish(event: Notification)
    | Respond(client: nat, response: Response)
    | Fault(reason: CrashReason)

  /** handle_call: the payload sent to the port and the new queue. */
  function HandleCall(requests: seq<Pending>, client: nat, command: Command): (Bytes, seq<Pending>) {
    (Encode(command), requests + [Pending(client, command)])
  }

  /** A continuation byte of UTF-8. */
  predicate Continues(c: char) {
    '\U{0080}' <= c <= '\U{00BF}'
  }

  /** How many bytes the UTF-8 character at the front takes; 0 when there is none. */
  function CharSize(m: Bytes): (n: nat)
    ensures n <= 4 && n <= |m|
  {
    if m == "" then 0
    else if m[0] < '\U{0080}' then 1
    else if |m| >= 2 && '\U{00C2}' <= m[0] <= '\U{00DF}' && Continues(m[1]) then 2
    else if |m| >= 3 && '\U{00E0}' <= m[0] <= '\U{00EF}' && Continues(m[1]) && Continues(m[2])
            && (m[0] == '\U{00E0}' ==> m[1] >= '\U{00A0}') && (m[0] == '\U{00ED}' ==> m[1] < '\U{00A0}') then 3
    else if |m| >= 4 && '\U{00F0}' <= m[0] <= '\U{00F4}' && Continues(m[1]) && Continues(m[2]) && Continues(m[3])
            && (m[0] == '\U{00F0}' ==> m[1] >= '\U{0090}') && (m[0] == '\U{00F4}' ==> m[1] < '\U{0090}') then 4
    else 0
  }

  /** The binary pattern of an event: '<', one character, '>'. */
  predicate IsNotification(m: Bytes) {
    m != "" && m[0] == '<' &&
    var n := CharSize(m[1..]);
    n > 0 && n + 1 < |m| && m[n + 1] == '>'
  }

  /** What follows the pattern. */
  function Body(m: Bytes): Bytes
    requires IsNotification(m)
  {
    m[CharSize(m[1..]) + 2..]
  }

  /** handle_wpa, both clauses. */
  function HandleWpa(requests: seq<Pending>, m: Bytes): (Effect, seq<Pending>) {
    if IsNotification(m) then
      match Notif(Body(m))
      case Success(n) => (Publish(n), requests)
      case Crash => (Fault(Undecodable), requests)
    else if requests == [] then (Fault(NoRequest), requests)
    else
      match Resp(requests[0].command, m)
      case Success(r) => (Respond(requests[0].client, r), requests[1..])
      case Crash => (Fault(Undecodable), requests)
  }

  // ------------------------------------------------------------------ classification

  /** Six bytes are enough for the pattern. */
  lemma PatternSurvivesCut(d: Datagram, n: nat)
    requires n >= 6
    ensures IsNotification(Cut(d, n)) <==> IsNotification(d)
    ensures IsEvent(Cut(d, n)) <==> IsEvent(d)
  {
    if |d| > n {
      assert Cut(d, n)[1..] == d[1..n] == d[1..][..n - 1];
      assert CharSize(d[1..][..n - 1]) == CharSize(d[1..]);
    }
  }

  /** The two sides agree on a datagram, cut to anything that leaves the
      pattern whole, exactly when an event has the form `<c>`. */
  lemma ClassifiersAgree(d: Datagram, n: nat)
    requires n >= 6
    ensures (IsNotification(Cut(d, n)) <==> IsEvent(d)) <==> (IsEvent(d) ==> IsNotification(d))
  {
    PatternSurvivesCut(d, n);
  }

  /** Every event among the messages has the form the server recognises. */
  predicate Recognised(ms: seq<Bytes>) {
    forall i :: 0 <= i < |ms| && IsEvent(ms[i]) ==> IsNotification(ms[i])
  }

  /** The events of any other form, in order. */
  function Strays(ms: seq<Bytes>): seq<Bytes> {
    if ms == [] then []
    else
      var m := ms[|ms| - 1];
      Strays(ms[..|ms| - 1]) + if IsEvent(m) && !IsNotification(m) then [m] else []
  }

  lemma {:induction false} NoStrays(ms: seq<Bytes>)
    ensures Strays(ms) == [] <==> Recognised(ms)
  {
    if ms != [] {
      NoStrays(ms[..|ms| - 1]);
      assert forall i :: 0 <= i < |ms| - 1 ==> ms[..|ms| - 1][i] == ms[i];
    }
  }

  /** The messages that are responses, in order. */
  function Responses(ms: seq<Bytes>): seq<Bytes> {
    if ms == [] then []
    else Responses(ms[..|ms| - 1]) + if IsNotification(ms[|ms| - 1]) then [] else [ms[|ms| - 1]]
  }

  /** The messages that are events, without their `<c>`. */
  function Events(ms: seq<Bytes>): seq<Bytes> {
    if ms == [] then []
    else Events(ms[..|ms| - 1]) + if IsNotification(ms[|ms| - 1]) then [Body(ms[|ms| - 1])] else []
  }

  lemma {:induction false} NoEventAmongResponses(ms: seq<Bytes>)
    ensures (forall i :: 0 <= i < |Responses(ms)| ==> !IsEvent(Responses(ms)[i])) <==> Recognised(ms)
  {
    if ms != [] {
      var front, m := ms[..|ms| - 1], ms[|ms| - 1];
      NoEventAmongResponses(front);
      assert forall i :: 0 <= i < |front| ==> front[i] == ms[i];
      if !IsNotification(m) { assert Responses(ms)[|Responses(front)|] == m; }
      assert forall i :: 0 <= i < |Responses(front)| ==> Responses(ms)[i] == Responses(front)[i];
    }
  }

  /** The datagrams that are replies, in order. */
  function NonEvents(ds: seq<Datagram>): seq<Datagram> {
    if ds == [] then []
    else NonEvents(ds[..|ds| - 1]) + if IsEvent(ds[|ds| - 1]) then [] else [ds[|ds| - 1]]
  }

  lemma {:induction false} ResponsesAppend(a: seq<Bytes>, b: seq<Bytes>)
    ensures Responses(a + b) == Responses(a) + Responses(b)
  {
    if b == [] {
      assert a + b == a;
    } else {
      assert (a + b)[..|a + b| - 1] == a + b[..|b| - 1];
      ResponsesAppend(a, b[..|b| - 1]);
    }
  }

  lemma {:induction false} EventsAppend(a: seq<Bytes>, b: seq<Bytes>)
    ensures Events(a + b) == Events(a) + Events(b)
  {
    if b == [] {
      assert a + b == a;
    } else {
      assert (a + b)[..|a + b| - 1] == a + b[..|b| - 1];
      EventsAppend(a, b[..|b| - 1]);
    }
  }

  lemma {:induction false} EventOrResponse(ms: seq<Bytes>)
    ensures |Events(ms)| + |Responses(ms)| == |ms|
  {
    if ms != [] {
      EventOrResponse(ms[..|ms| - 1]);
    }
  }

  lemma {:induction false} NonEventsAppend(a: seq<Datagram>, b: seq<Datagram>)
    ensures NonEvents(a + b) == NonEvents(a) + NonEvents(b)
  {
    if b == [] {
      assert a + b == a;
    } else {
      assert (a + b)[..|a + b| - 1] == a + b[..|b| - 1];
      NonEventsAppend(a, b[..|b| - 1]);
    }
  }

  lemma {:induction false} NoNonEvents(ds: seq<Datagram>)
    ensures NonEvents(ds) == [] <==> AllEvents(ds)
  {
    if ds != [] {
      NoNonEvents(ds[..|ds| - 1]);
      assert forall i :: 0 <= i < |ds| - 1 ==> ds[..|ds| - 1][i] == ds[i];
    }
  }

  lemma {:induction false} NonEventsAreReplies(ds: seq<Datagram>)
    ensures forall i :: 0 <= i < |NonEvents(ds)| ==> !IsEvent(NonEvents(ds)[i])
  {
    if ds != [] {
      NonEventsAreReplies(ds[..|ds| - 1]);
    }
  }

  lemma {:induction false} StraysAppend(a: seq<Bytes>, b: seq<Bytes>)
    ensures Strays(a + b) == Strays(a) + Strays(b)
  {
    if b == [] {
      assert a + b == a;
    } else {
      assert (a + b)[..|a + b| - 1] == a + b[..|b| - 1];
      StraysAppend(a, b[..|b| - 1]);
    }
  }
}
