/** Round trips of the remaining responses and notifications. */
module ReplyTheorems {
  import opened Strings
  import opened Encoder
  import opened Decoder
  import opened Framing
  import opened GenServer
  import DecoderTheorems

  lemma StripBlanks(s: string, blanks: string)
    requires s != "" && s[0] !in WHITESPACE && s[|s| - 1] !in WHITESPACE && AllIn(blanks, WHITESPACE)
    ensures Strip(s + blanks) == s
  {
    assert (s + blanks)[0] == s[0];
    assert TrimLeft(s + blanks, WHITESPACE) == s + blanks;
    RStripBlanks(s, blanks);
  }

  lemma RStripBlanks(s: string, blanks: string)
    requires s != "" && s[|s| - 1] !in WHITESPACE && AllIn(blanks, WHITESPACE)
    ensures RStrip(s + blanks) == s
  {
    TrimRightIgnores(s, blanks, WHITESPACE);
  }

  // -------------------------------------------------------------------- responses

  predicate InterfaceName(s: string) {
    s != "" && forall i :: 0 <= i < |s| ==> s[i] !in WHITESPACE
  }

  predicate InterfaceNames(names: seq<string>) {
    names != [] && forall i :: 0 <= i < |names| ==> InterfaceName(names[i])
  }

  lemma {:induction false} JoinEnds(names: seq<string>)
    requires InterfaceNames(names)
    ensures var s := Join(names, '\n'); s != "" && s[0] !in WHITESPACE && s[|s| - 1] !in WHITESPACE
  {
    if |names| > 1 {
      JoinEnds(names[1..]);
      var rest := Join(names[1..], '\n');
      var s := Join(names, '\n');
      assert s == names[0] + "\n" + rest;
      assert s[0] == names[0][0] && s[|s| - 1] == rest[|rest| - 1];
    }
  }

  /** A printed list of interfaces decodes to that list. */
  lemma InterfacesRoundTrip(names: seq<string>, blanks: string)
    requires InterfaceNames(names)
    requires AllIn(blanks, WHITESPACE)
    ensures Resp(Plain("INTERFACES"), Join(names, '\n') + blanks) == Success(Interfaces(names))
  {
    JoinEnds(names);
    StripBlanks(Join(names, '\n'), blanks);
    SplitNames(names);
    InterfacesDispatch(Join(names, '\n') + blanks, Join(names, '\n'));
  }

  lemma InterfacesDispatch(resp: string, s: string)
    requires Strip(resp) == s
    ensures Resp(Plain("INTERFACES"), resp) == Success(Interfaces(Split(s, '\n')))
  {
  }

  lemma SplitNames(names: seq<string>)
    requires InterfaceNames(names)
    ensures Split(Join(names, '\n'), '\n') == names
  {
    forall i | 0 <= i < |names| ensures '\n' !in names[i] {
      assert InterfaceName(names[i]);
    }
    SplitJoin(names, '\n');
  }

  /** For any response: it decodes to the lines of the stripped text and to
      nothing else. */
  lemma InterfacesExact(resp: string, names: seq<string>)
    ensures Resp(Plain("INTERFACES"), resp) == Success(Interfaces(names))
       <==> names != [] && (forall i :: 0 <= i < |names| ==> '\n' !in names[i]) && Join(names, '\n') == Strip(resp)
  {
    InterfacesDispatch(resp, Strip(resp));
    JoinSplit(Strip(resp), '\n');
    if names != [] && (forall i :: 0 <= i < |names| ==> '\n' !in names[i]) {
      SplitJoin(names, '\n');
    }
  }

  /** A printed network id decodes to that id. */
  lemma NetworkIdRoundTrip(id: nat, blanks: string)
    requires AllIn(blanks, WHITESPACE)
    ensures Resp(Plain("ADD_NETWORK"), IntText(id) + blanks) == Success(NetworkId(id))
  {
    NatTextDigits(id);
    IntTextValue(id);
    StripBlanks(IntText(id), blanks);
  }

  // ---------------------------------------------------------------- notifications

  /** Whatever follows a connection event is dropped. */
  lemma ConnectionSignal(name: string, rest: string)
    requires name == "CTRL-EVENT-CONNECTED" || name == "CTRL-EVENT-DISCONNECTED"
    ensures Notif(name + rest) == Success(Signal(name))
  {
    var s := name + rest;
    assert name <= s;
    assert s[5] == 'E' && s[11] == name[11];
    DecoderTheorems.DiffersAt(s, PROMPT, 5);
    DecoderTheorems.DiffersAt(s, "CTRL-EVENT-BSS-ADDED", 11);
    DecoderTheorems.DiffersAt(s, "CTRL-EVENT-BSS-REMOVED", 11);
    if name[11] == 'D' { DecoderTheorems.DiffersAt(s, "CTRL-EVENT-CONNECTED", 11); }
  }

  /** Round trip of the two station events. */
  lemma StationRoundTrip(name: string, mac: string, blanks: string)
    requires name == "AP-STA-CONNECTED" || name == "AP-STA-DISCONNECTED"
    requires mac != "" && mac[|mac| - 1] !in WHITESPACE && AllIn(blanks, WHITESPACE)
    ensures Notif(name + " " + (mac + blanks)) == Success(Station(name, mac))
  {
    RStripBlanks(mac, blanks);
    StationDispatch(name, mac + blanks);
  }

  lemma StationDispatch(name: string, rest: string)
    requires name == "AP-STA-CONNECTED" || name == "AP-STA-DISCONNECTED"
    ensures Notif(name + " " + rest) == Success(Station(name, RStrip(rest)))
  {
    if name == "AP-STA-CONNECTED" {
      assert name + " " == "AP-STA-CONNECTED ";
      Connected(rest);
    } else {
      assert name + " " == "AP-STA-DISCONNECTED ";
      Disconnected(rest);
    }
  }

  lemma Connected(rest: string)
    ensures Notif("AP-STA-CONNECTED " + rest) == Success(Station("AP-STA-CONNECTED", RStrip(rest)))
  {
    var s := "AP-STA-CONNECTED " + rest;
    assert s[17..] == rest && s[0] == 'A' && "AP-STA-CONNECTED " <= s;
    StationOrInfo(s);
  }

  lemma Disconnected(rest: string)
    ensures Notif("AP-STA-DISCONNECTED " + rest) == Success(Station("AP-STA-DISCONNECTED", RStrip(rest)))
  {
    var s := "AP-STA-DISCONNECTED " + rest;
    assert s[20..] == rest && s[0] == 'A' && s[7] == 'D' && "AP-STA-DISCONNECTED " <= s;
    DecoderTheorems.DiffersAt(s, "AP-STA-CONNECTED ", 7);
    StationOrInfo(s);
  }

  lemma StationOrInfo(s: string)
    requires s != "" && s[0] == 'A'
    ensures Notif(s) ==
              if "AP-STA-CONNECTED " <= s then Success(Station("AP-STA-CONNECTED", RStrip(s[17..])))
              else if "AP-STA-DISCONNECTED " <= s then Success(Station("AP-STA-DISCONNECTED", RStrip(s[20..])))
              else Success(Info(RStrip(s)))
  {
    DecoderTheorems.DiffersAt(s, PROMPT, 0);
    NotEvent(s, 0);
    DecoderTheorems.DiffersAt(s, "WPS-", 0);
  }

  const EVENT := "CTRL-EVENT-"

  /** No event word begins a line that differs from all of them. */
  lemma NotEvent(s: string, i: nat)
    requires i < |EVENT| && (i < |s| ==> s[i] != EVENT[i])
    ensures !(EVENT <= s) && !("CTRL-EVENT-BSS-ADDED" <= s) && !("CTRL-EVENT-BSS-REMOVED" <= s)
    ensures !("CTRL-EVENT-CONNECTED" <= s) && !("CTRL-EVENT-DISCONNECTED" <= s)
  {
    DecoderTheorems.DiffersAt(s, EVENT, i);
    NotLongerEvent(s);
  }

  lemma NotLongerEvent(s: string)
    requires !(EVENT <= s)
    ensures !("CTRL-EVENT-BSS-ADDED" <= s) && !("CTRL-EVENT-BSS-REMOVED" <= s)
    ensures !("CTRL-EVENT-CONNECTED" <= s) && !("CTRL-EVENT-DISCONNECTED" <= s)
  {
    DecoderTheorems.NoLonger(s, EVENT, "CTRL-EVENT-BSS-ADDED");
    DecoderTheorems.NoLonger(s, EVENT, "CTRL-EVENT-BSS-REMOVED");
    DecoderTheorems.NoLonger(s, EVENT, "CTRL-EVENT-CONNECTED");
    DecoderTheorems.NoLonger(s, EVENT, "CTRL-EVENT-DISCONNECTED");
  }

  /** The line begins with a word that gives it a meaning of its own. */
  predicate HasMeaning(line: string) {
    PROMPT <= line || EVENT <= line || "WPS-" <= line || "AP-STA-CONNECTED " <= line || "AP-STA-DISCONNECTED " <= line
  }

  predicate IsInfo(r: Result<Notification>) {
    r.Success? && r.value.Info?
  }

  /** Exactly the other lines are passed on as they are, without trailing whitespace. */
  lemma InfoExact(line: string)
    ensures IsInfo(Notif(line)) <==> !HasMeaning(line)
    ensures IsInfo(Notif(line)) ==> Notif(line).value.text == RStrip(line)
  {
    if !(EVENT <= line) { NotLongerEvent(line); }
  }

  // ------------------------------------------------------- messages that end the server

  /** A response that can be decoded for its request: key/value lines, an
      integer, or for any other request anything at all. */
  predicate Answers(req: Command, resp: string) {
    var text := Strip(resp);
    if IsKeyValue(req) then (IsBss(req) && text == "") || DecoderTheorems.GoodLines(NonEmpty(Split(text, '\n')))
    else req == Plain("ADD_NETWORK") ==> ToInteger(text, 10).Some?
  }

  /** For every request and every response: decoding fails on no others. */
  lemma RespExact(req: Command, resp: string)
    ensures Resp(req, resp).Success? <==> Answers(req, resp)
  {
    if IsKeyValue(req) && !(IsBss(req) && Strip(resp) == "") {
      DecoderTheorems.KeyValueSpec(req, resp);
    }
  }

  /** The response FAIL is decoded, or read as one interface, except for the
      requests whose response has a form: it ends the server then. */
  lemma FailEndsServer(req: Command)
    ensures Resp(req, "FAIL\n") == if IsKeyValue(req) || req == Plain("ADD_NETWORK") then Crash
                                   else if req == Plain("INTERFACES") then Success(Interfaces(["FAIL"]))
                                   else Success(Fail)
  {
    assert "FAIL\n" == "FAIL" + "\n";
    StripBlanks("FAIL", "\n");
    IndexNone("FAIL", '\n');
    assert Split("FAIL", '\n') == ["FAIL"];
    FailIsNoLine();
    RespExact(req, "FAIL\n");
  }

  lemma FailIsNoLine()
    ensures !DecoderTheorems.GoodLines(NonEmpty(["FAIL"])) && ToInteger("FAIL", 10) == None
  {
    IndexNone("FAIL", '=');
    CountFrom("FAIL", '=');
    assert NonEmpty(["FAIL"]) == ["FAIL"];
    assert !DecoderTheorems.GoodLine(["FAIL"][0]);
    assert DigitValue("FAIL"[0]) == 15;
  }

  /** What is printed behind `CTRL-REQ-`. */
  ghost predicate IsPrompt(rest: string) {
    exists a, field, b, idText, text ::
      && DecoderTheorems.Piece(field) && DecoderTheorems.Piece(idText) && text != ""
      && rest == DecoderTheorems.PromptText(a, field, b, idText, text)
      && DecoderTheorems.PromptOf(field, idText, text).Success?
  }

  /** Two words, the first an integer. */
  predicate IsBssText(rest: string) {
    var ws := NonEmpty(Split(rest, ' '));
    |ws| == 2 && ToInteger(ws[0], 10).Some?
  }

  /** The events that are passed on under their own text. */
  predicate IsNamed(line: string) {
    && (EVENT <= line || "WPS-" <= line)
    && !("CTRL-EVENT-BSS-ADDED" <= line) && !("CTRL-EVENT-BSS-REMOVED" <= line)
    && !("CTRL-EVENT-CONNECTED" <= line) && !("CTRL-EVENT-DISCONNECTED" <= line)
  }

  ghost predicate Notifies(line: string) {
    && (PROMPT <= line ==> IsPrompt(line[|PROMPT|..]))
    && ("CTRL-EVENT-BSS-ADDED" <= line ==> IsBssText(line[20..]))
    && ("CTRL-EVENT-BSS-REMOVED" <= line ==> IsBssText(line[22..]))
    && (IsNamed(line) ==> |RStrip(line)| <= 255)
  }

  /** For every text of an event: decoding fails on no others. */
  lemma NotifExact(line: string)
    ensures Notif(line).Success? <==> Notifies(line)
  {
    if PROMPT <= line {
      PromptLine(line);
    } else if "CTRL-EVENT-BSS-ADDED" <= line || "CTRL-EVENT-BSS-REMOVED" <= line {
      BssLine(line);
    }
  }

  lemma PromptLine(line: string)
    requires PROMPT <= line
    ensures Notif(line).Success? <==> IsPrompt(line[|PROMPT|..])
    ensures !(EVENT <= line) && !("WPS-" <= line)
    ensures !("CTRL-EVENT-BSS-ADDED" <= line) && !("CTRL-EVENT-BSS-REMOVED" <= line)
  {
    var rest := line[|PROMPT|..];
    assert line == PROMPT + rest;
    DecoderTheorems.PromptExact(rest);
    assert line[5] == PROMPT[5] && line[0] == PROMPT[0];
    NotEvent(line, 5);
    DecoderTheorems.DiffersAt(line, "WPS-", 0);
  }

  lemma BssLine(line: string)
    requires "CTRL-EVENT-BSS-ADDED" <= line || "CTRL-EVENT-BSS-REMOVED" <= line
    requires !(PROMPT <= line)
    ensures "CTRL-EVENT-BSS-ADDED" <= line ==> (Notif(line).Success? <==> IsBssText(line[20..]))
    ensures "CTRL-EVENT-BSS-REMOVED" <= line ==> (Notif(line).Success? <==> IsBssText(line[22..]))
    ensures !("CTRL-EVENT-BSS-ADDED" <= line && "CTRL-EVENT-BSS-REMOVED" <= line)
  {
    assert line[15] == 'A' || line[15] == 'R';
  }

  /** The server ends on a message from the port exactly when it is an event
      whose text cannot be decoded, or a response that finds no request or does
      not decode for the oldest one. */
  lemma ServerEnds(requests: seq<Pending>, m: Bytes)
    ensures HandleWpa(requests, m).0.Fault?
       <==> if IsNotification(m) then !Notifies(Body(m)) else requests == [] || !Answers(requests[0].command, m)
  {
    if IsNotification(m) {
      NotifExact(Body(m));
    } else if requests != [] {
      RespExact(requests[0].command, m);
    }
  }
}
