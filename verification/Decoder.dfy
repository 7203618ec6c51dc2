/** Decoding of responses and notifications (`lib/decode.ex`). A failed match or
    an exception that nobody rescues is a `Crash`. */
module Decoder {
  import opened Strings
  import opened Encoder

  datatype Result<+T> = Success(value: T) | Crash

  /** The longest atom the Erlang VM makes. */
  const ATOM_LIMIT := 255

  /** A value of a key/value response. */
  datatype Value = Bool(b: bool) | Nil | Integer(n: int) | Text(s: string)

  datatype Response =
    | Pong | Ok | Fail | NoBss
    | Pairs(pairs: map<string, Value>)
    | Interfaces(names: seq<string>)
    | NetworkId(id: int)
    | Reply(text: string)

  datatype Notification =
    | Prompt(name: string, id: int, text: string)
    | Bss(name: string, id: int, bssid: string)
    | Signal(name: string)
    | Station(name: string, mac: string)
    | Info(text: string)

  // -------------------------------------------------------------------- responses

  function Based(s: string, base: nat): Value {
    match ToInteger(s, base)
    case Some(n) => Integer(n)
    case None => Text(s)
  }

  function KvValue(v: string): Value {
    if v == "TRUE" then Bool(true)
    else if v == "FALSE" then Bool(false)
    else if v == "" then Nil
    else if "0x" <= v then Based(v[2..], 16)
    else Based(v, 10)
  }

  /** One line of a key/value response. */
  function KvLine(line: string): Result<(string, Value)> {
    var ps := Split(line, '=');
    if |ps| == 2 && |ps[0]| <= ATOM_LIMIT then Success((ps[0], KvValue(RStrip(ps[1])))) else Crash
  }

  function KvFold(lines: seq<string>, acc: map<string, Value>): Result<map<string, Value>> {
    if lines == [] then Success(acc)
    else match KvLine(lines[0])
         case Crash => Crash
         case Success((key, value)) => KvFold(lines[1..], acc[key := value])
  }

  function KvResp(resp: string): Result<map<string, Value>> {
    KvFold(NonEmpty(Split(resp, '\n')), map[])
  }

  function AsPairs(r: Result<map<string, Value>>): Result<Response> {
    match r
    case Success(m) => Success(Pairs(m))
    case Crash => Crash
  }

  predicate IsBss(req: Command) {
    req.One? && req.cmd == "BSS"
  }

  /** The requests whose whole response is key/value lines. */
  predicate IsKeyValue(req: Command) {
    req == Plain("MIB") || req == Plain("STATUS") || req == Plain("STATUS-VERBOSE") || IsBss(req)
  }

  /** The decoding of a response that has been stripped. */
  function Stripped(req: Command, resp: string): Result<Response> {
    if req == Plain("PING") && resp == "PONG" then Success(Pong)
    else if IsBss(req) && resp == "" then Success(NoBss)
    else if IsKeyValue(req) then AsPairs(KvResp(resp))
    else if req == Plain("INTERFACES") then Success(Interfaces(Split(resp, '\n')))
    else if req == Plain("ADD_NETWORK") then
      match ToInteger(resp, 10) { case Some(n) => Success(NetworkId(n)) case None => Crash }
    else if resp == "OK" then Success(Ok)
    else if resp == "FAIL" then Success(Fail)
    else if "\"" <= resp then Success(Reply(TrimRight(resp[1..], {'"'})))
    else Success(Reply(resp))
  }

  function Resp(req: Command, resp: string): Result<Response> {
    Stripped(req, Strip(resp))
  }

  // ---------------------------------------------------------------- notifications

  function Named(name: string): Result<Notification> {
    if |name| <= ATOM_LIMIT then Success(Signal(name)) else Crash
  }

  function BssEvent(name: string, rest: string): Result<Notification> {
    var ps := NonEmpty(Split(rest, ' '));
    if |ps| != 2 then Crash
    else match ToInteger(ps[0], 10)
         case Some(id) => Success(Bss(name, id, ps[1]))
         case None => Crash
  }

  const PROMPT := "CTRL-REQ-"

  function PromptEvent(rest: string): Result<Notification> {
    var ps := SplitParts(rest, '-', 3);
    if |ps| != 3 || |PROMPT + ps[0]| > ATOM_LIMIT then Crash
    else match ToInteger(ps[1], 10)
         case Some(id) => Success(Prompt(PROMPT + ps[0], id, ps[2]))
         case None => Crash
  }

  function Notif(s: string): Result<Notification> {
    if PROMPT <= s then PromptEvent(s[9..])
    else if "CTRL-EVENT-BSS-ADDED" <= s then BssEvent("CTRL-EVENT-BSS-ADDED", s[20..])
    else if "CTRL-EVENT-BSS-REMOVED" <= s then BssEvent("CTRL-EVENT-BSS-REMOVED", s[22..])
    else if "CTRL-EVENT-CONNECTED" <= s then Success(Signal("CTRL-EVENT-CONNECTED"))
    else if "CTRL-EVENT-DISCONNECTED" <= s then Success(Signal("CTRL-EVENT-DISCONNECTED"))
    else if "CTRL-EVENT-" <= s then Named(RStrip(s))
    else if "WPS-" <= s then Named(RStrip(s))
    else if "AP-STA-CONNECTED " <= s then Success(Station("AP-STA-CONNECTED", RStrip(s[17..])))
    else if "AP-STA-DISCONNECTED " <= s then Success(Station("AP-STA-DISCONNECTED", RStrip(s[20..])))
    else Success(Info(RStrip(s)))
  }
}
