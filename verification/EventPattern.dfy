/** The binary pattern of an event, seen from the text that is sent: '<', the
    UTF-8 bytes of one character, '>'. */
module EventPattern {
  import opened Framing
  import opened Decoder
  import opened GenServer

  /** A Unicode code point that is not a surrogate. */
  predicate IsScalar(cp: int) {
    0 <= cp < 0xD800 || 0xE000 <= cp < 0x11_0000
  }

  /** The UTF-8 bytes of a character, section 3 of RFC 3629. */
  function Utf8(cp: int): Bytes
    requires IsScalar(cp)
  {
    if cp < 0x80 then [cp as char]
    else if cp < 0x800 then [(0xC0 + cp / 0x40) as char, (0x80 + cp % 0x40) as char]
    else if cp < 0x1_0000 then
      [(0xE0 + cp / 0x1000) as char, (0x80 + cp / 0x40 % 0x40) as char, (0x80 + cp % 0x40) as char]
    else
      [(0xF0 + cp / 0x4_0000) as char, (0x80 + cp / 0x1000 % 0x40) as char,
       (0x80 + cp / 0x40 % 0x40) as char, (0x80 + cp % 0x40) as char]
  }

  function EventMessage(cp: int, text: Bytes): Bytes
    requires IsScalar(cp)
  {
    "<" + Utf8(cp) + ">" + text
  }

  lemma Utf8Size(cp: int, rest: Bytes)
    requires IsScalar(cp)
    ensures CharSize(Utf8(cp) + rest) == |Utf8(cp)|
  {
  }

  /** A character in brackets is recognised, and what follows it is the text. */
  lemma EventRecognised(cp: int, text: Bytes)
    requires IsScalar(cp)
    ensures IsNotification(EventMessage(cp, text)) && Body(EventMessage(cp, text)) == text
  {
    var m := EventMessage(cp, text);
    assert m[1..] == Utf8(cp) + (">" + text);
    Utf8Size(cp, ">" + text);
  }

  /** The character whose UTF-8 bytes stand at the front. */
  function Scalar(m: Bytes): int
    requires CharSize(m) > 0
  {
    var a := m[0] as int;
    match CharSize(m)
    case 1 => a
    case 2 => (a - 0xC0) * 0x40 + (m[1] as int - 0x80)
    case 3 => (a - 0xE0) * 0x1000 + (m[1] as int - 0x80) * 0x40 + (m[2] as int - 0x80)
    case _ =>
      (a - 0xF0) * 0x4_0000 + (m[1] as int - 0x80) * 0x1000 + (m[2] as int - 0x80) * 0x40 + (m[3] as int - 0x80)
  }

  lemma Digits2(a: int, b: int)
    requires 0 <= a && 0 <= b < 0x40
    ensures (a * 0x40 + b) / 0x40 == a && (a * 0x40 + b) % 0x40 == b
  {
  }

  lemma Digits3(a: int, b: int, c: int)
    requires 0 <= a && 0 <= b < 0x40 && 0 <= c < 0x40
    ensures var n := a * 0x1000 + b * 0x40 + c; n / 0x1000 == a && n / 0x40 % 0x40 == b && n % 0x40 == c
  {
    Digits2(a * 0x40 + b, c);
    Digits2(a, b);
  }

  lemma Digits4(a: int, b: int, c: int, d: int)
    requires 0 <= a && 0 <= b < 0x40 && 0 <= c < 0x40 && 0 <= d < 0x40
    ensures var n := a * 0x4_0000 + b * 0x1000 + c * 0x40 + d;
            n / 0x4_0000 == a && n / 0x1000 % 0x40 == b && n / 0x40 % 0x40 == c && n % 0x40 == d
  {
    Digits3(a * 0x40 + b, c, d);
    Digits2(a, b);
  }

  lemma Front2(m: Bytes)
    requires CharSize(m) == 2
    ensures IsScalar(Scalar(m)) && m[..2] == Utf8(Scalar(m))
  {
    Digits2(m[0] as int - 0xC0, m[1] as int - 0x80);
  }

  lemma Front3(m: Bytes)
    requires CharSize(m) == 3
    ensures IsScalar(Scalar(m)) && m[..3] == Utf8(Scalar(m))
  {
    var a, b, c := m[0] as int - 0xE0, m[1] as int - 0x80, m[2] as int - 0x80;
    assert Scalar(m) == a * 0x1000 + b * 0x40 + c;
    Digits3(a, b, c);
  }

  lemma Front4(m: Bytes)
    requires CharSize(m) == 4
    ensures IsScalar(Scalar(m)) && m[..4] == Utf8(Scalar(m))
  {
    var a, b, c, d := m[0] as int - 0xF0, m[1] as int - 0x80, m[2] as int - 0x80, m[3] as int - 0x80;
    assert Scalar(m) == a * 0x4_0000 + b * 0x1000 + c * 0x40 + d;
    Digits4(a, b, c, d);
  }

  lemma ScalarOfFront(m: Bytes)
    requires CharSize(m) > 0
    ensures IsScalar(Scalar(m)) && m[..CharSize(m)] == Utf8(Scalar(m))
  {
    match CharSize(m)
    case 2 => Front2(m);
    case 3 => Front3(m);
    case 4 => Front4(m);
    case _ =>
  }

  /** Nothing else is recognised: a message is an event exactly when it is a
      character in brackets with a text behind it. */
  lemma EventExact(m: Bytes)
    ensures IsNotification(m) <==> exists cp, text :: IsScalar(cp) && m == EventMessage(cp, text)
  {
    if IsNotification(m) {
      ScalarOfFront(m[1..]);
      var cp, n := Scalar(m[1..]), CharSize(m[1..]);
      assert m == "<" + m[1..][..n] + ">" + m[n + 2..];
      assert m == EventMessage(cp, m[n + 2..]);
    }
    forall cp, text | IsScalar(cp) && m == EventMessage(cp, text) ensures IsNotification(m) {
      EventRecognised(cp, text);
    }
  }

  /** The server publishes the text behind the brackets and keeps its requests. */
  lemma EventIsPublished(requests: seq<Pending>, cp: int, text: Bytes)
    requires IsScalar(cp)
    ensures HandleWpa(requests, EventMessage(cp, text)) ==
              match Notif(text)
              case Success(n) => (Publish(n), requests)
              case Crash => (Fault(Undecodable), requests)
  {
    EventRecognised(cp, text);
  }

  /** Any other message is the response to the oldest request, decoded for it. */
  lemma ResponseIsGiven(first: Pending, others: seq<Pending>, m: Bytes)
    requires forall cp, text | IsScalar(cp) :: m != EventMessage(cp, text)
    ensures HandleWpa([first] + others, m) ==
              match Resp(first.command, m)
              case Success(r) => (Respond(first.client, r), others)
              case Crash => (Fault(Undecodable), [first] + others)
    ensures HandleWpa([], m) == (Fault(NoRequest), [])
  {
    EventExact(m);
    assert ([first] + others)[1..] == others;
  }
}
