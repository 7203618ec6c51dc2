/** The codecs, said in literal texts: what every form of request is written as,
    and what every form of response and event is read as. */
module CodecTexts {
  import opened Sequences
  import opened Strings
  import opened TextTheorems
  import opened Encoder
  import opened EncoderTheorems
  import opened Decoder
  import opened DecoderTheorems
  import opened ReplyTheorems

  // ---------------------------------------------------------------------- requests

  /** How an argument is written. */
  function ArgumentText(a: Arg): string {
    match a
    case Str(s) => if MacAddress(s) then s else "\"" + s + "\""
    case Atom(name) => if name == "nil" then "" else name
    case Num(n) => IntText(n)
  }

  /** How an argument is written in the answer to a prompt: a string as it is. */
  function PlainText(a: Arg): string {
    match a
    case Str(s) => s
    case Atom(name) => if name == "nil" then "" else name
    case Num(n) => IntText(n)
  }

  predicate AnswersPrompt(cmd: string) {
    || cmd == "CTRL-RSP-IDENTITY" || cmd == "CTRL-RSP-PASSWORD" || cmd == "CTRL-RSP-NEW_PASSWORD"
    || cmd == "CTRL-RSP-PIN" || cmd == "CTRL-RSP-OTP" || cmd == "CTRL-RSP-PASSPHRASE"
  }

  lemma ArgumentExact(a: Arg)
    ensures EncodeArg(a) == ArgumentText(a) && ToString(a) == PlainText(a)
  {
    if a.Str? { MacExact(a.s); }
  }

  /** The text of every request: its words with spaces in between, or the three
      parts of an answer with dashes. */
  lemma RequestText(cmd: string, a: Arg, b: Arg, c: Arg)
    ensures var word := if cmd == "nil" then "" else cmd;
            && Encode(Plain(cmd)) == word
            && Encode(One(cmd, a)) == word + " " + ArgumentText(a)
            && Encode(Two(cmd, a, b)) ==
                 (if AnswersPrompt(cmd) then cmd + "-" + PlainText(a) + "-" + PlainText(b)
                  else word + " " + ArgumentText(a) + " " + ArgumentText(b))
            && Encode(Three(cmd, a, b, c)) ==
                 word + " " + ArgumentText(a) + " " + ArgumentText(b) + " " + ArgumentText(c)
  {
    ArgumentExact(a);
    ArgumentExact(b);
    ArgumentExact(c);
  }

  // ------------------------------------------------------------------------- values

  /** The value of a key: two words, nothing, a number in either base, or a text. */
  lemma ValueExact(v: string)
    ensures KvValue("TRUE") == Bool(true) && KvValue("FALSE") == Bool(false) && KvValue("") == Nil
    ensures KvValue("0x" + v) == match ToInteger(v, 16) { case Some(n) => Integer(n) case None => Text(v) }
    ensures v != "TRUE" && v != "FALSE" && v != "" && !("0x" <= v) ==>
              KvValue(v) == match ToInteger(v, 10) { case Some(n) => Integer(n) case None => Text(v) }
  {
    var s := "0x" + v;
    assert s[..2] == "0x" && s[2..] == v && s[0] == '0';
  }

  /** One line: key and value, the blanks behind the value taken away. */
  lemma LineExact(key: string, value: string)
    requires '=' !in key && '=' !in value
    ensures KvLine(key + "=" + value) == if |key| <= 255 then Success((key, KvValue(RStrip(value)))) else Crash
  {
    IndexAfter(key, '=', value);
    IndexNone(value, '=');
    assert Strings.Split(value, '=') == [value];
    assert Strings.Split(key + "=" + value, '=') == [key] + [value];
  }

  // ---------------------------------------------------------------------- responses

  /** The requests that are answered with lines of keys and values. */
  predicate AsksForPairs(req: Command) {
    req == Plain("MIB") || req == Plain("STATUS") || req == Plain("STATUS-VERBOSE") || (req.One? && req.cmd == "BSS")
  }

  predicate AsksForAnything(req: Command) {
    !AsksForPairs(req) && req != Plain("INTERFACES") && req != Plain("ADD_NETWORK")
  }

  /** A word that stands for itself, for the requests without a form of their own. */
  lemma WordExact(req: Command, resp: string)
    ensures Resp(req, resp) == Success(Ok) <==> AsksForAnything(req) && Strip(resp) == "OK"
    ensures Resp(req, resp) == Success(Fail) <==> AsksForAnything(req) && Strip(resp) == "FAIL"
    ensures Resp(req, resp) == Success(Pong) <==> req == Plain("PING") && Strip(resp) == "PONG"
  {
  }

  /** The requests with a form of their own, and the values they have. */
  lemma FormExact(req: Command, resp: string)
    ensures Resp(req, resp) == Success(NoBss) <==> req.One? && req.cmd == "BSS" && Strip(resp) == ""
    ensures Resp(req, resp).Success? && Resp(req, resp).value.Pairs? ==> AsksForPairs(req)
    ensures Resp(req, resp).Success? && Resp(req, resp).value.Interfaces? <==> req == Plain("INTERFACES")
    ensures forall id :: Resp(req, resp) == Success(NetworkId(id))
                    <==> req == Plain("ADD_NETWORK") && ToInteger(Strip(resp), 10) == Some(id)
  {
  }

  /** One pair, for each of the four requests that ask for pairs. */
  lemma OnePair(req: Command, key: string, n: int)
    requires AsksForPairs(req) && '=' !in key && '\n' !in key && 0 < |key| <= 255 && !Blank(key[0])
    ensures Resp(req, key + "=" + IntText(n) + "\n") == Success(Pairs(map[key := Integer(n)]))
  {
    var e := Entry(key, IntText(n));
    IntHasNoMark(n);
    WhitespaceExact(key[0]);
    RenderRoundTrip(req, [e]);
    RenderOne(e);
    DecimalValue(n);
    LastOfOne((key, Integer(n)));
    IntStays(n);
    assert Decoded([e]) == [(key, Integer(n))];
  }

  lemma RenderOne(e: Entry)
    ensures Render([e]) == e.key + "=" + e.text + "\n"
  {
    assert [e][1..] == [];
    assert Line(e) + "\n" + "" == Line(e) + "\n";
  }

  lemma LastOfOne(p: Pair)
    ensures LastWins([p]) == map[p.0 := p.1]
  {
    assert [p][..0] == [];
  }

  lemma IntHasNoMark(n: int)
    ensures '=' !in IntText(n) && '\n' !in IntText(n) && IntText(n) != ""
    ensures !Blank(IntText(n)[|IntText(n)| - 1])
  {
    NatTextDigits(if n < 0 then -n else n);
  }

  lemma IntStays(n: int)
    ensures RStrip(IntText(n)) == IntText(n)
  {
    IntHasNoMark(n);
    WhitespaceExact(IntText(n)[|IntText(n)| - 1]);
  }

  /** Any other response is given as a text, without the quotes around it. */
  lemma TextExact(req: Command, resp: string)
    requires AsksForAnything(req) && Strip(resp) != "OK" && Strip(resp) != "FAIL"
    requires req != Plain("PING") || Strip(resp) != "PONG"
    ensures var s := Strip(resp);
            Resp(req, resp) == Success(Reply(if s != "" && s[0] == '"' then TrimRight(s[1..], {'"'}) else s))
  {
  }
}
