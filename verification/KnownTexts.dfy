/** The examples of the repository's own tests hold of the model. */
module KnownTexts {
  import opened Sequences
  import opened Strings
  import opened TextTheorems
  import opened Encoder
  import opened EncoderTheorems
  import opened Decoder
  import opened DecoderTheorems
  import opened ReplyTheorems
  import opened CodecTexts

  lemma SmallNumbers()
    ensures IntText(0) == "0" && IntText(1) == "1" && IntText(4) == "4" && IntText(5) == "5" && IntText(34) == "34"
  {
    assert NatText(3, 10, LOWER) == "3";
    assert IntText(34) == NatText(3, 10, LOWER) + "4";
  }

  // ---------------------------------------------------------------------- requests

  lemma Answers(cmd: string)
    requires AnswersPrompt(cmd)
    ensures Encode(Two(cmd, Num(1), Str("response text"))) == cmd + "-" + "1" + "-" + "response text"
  {
    SmallNumbers();
    RequestText(cmd, Num(1), Str("response text"), Num(0));
  }

  const MAC := "00:09:5b:95:e0:4e"

  lemma MacIsMac()
    ensures MacAddress(MAC) && |MAC| == 17
  {
  }

  lemma Commands()
    ensures Encode(Plain("PING")) == "PING" && Encode(Plain("STATUS-VERBOSE")) == "STATUS-VERBOSE"
    ensures Encode(One("LEVEL", Num(4))) == "LEVEL" + " " + "4" && Encode(One("BSS", Num(4))) == "BSS" + " " + "4"
  {
    SmallNumbers();
    RequestText("PING", Num(0), Num(0), Num(0));
    RequestText("STATUS-VERBOSE", Num(0), Num(0), Num(0));
    RequestText("LEVEL", Num(4), Num(0), Num(0));
    RequestText("BSS", Num(4), Num(0), Num(0));
  }

  lemma MacCommands()
    ensures Encode(One("PREAUTH", Str(MAC))) == "PREAUTH" + " " + MAC
    ensures Encode(Two("BSSID", Num(1), Str(MAC))) == "BSSID" + " " + "1" + " " + MAC
  {
    SmallNumbers();
    MacIsMac();
    RequestText("PREAUTH", Str(MAC), Num(0), Num(0));
    RequestText("BSSID", Num(1), Str(MAC), Num(0));
  }

  lemma Settings()
    ensures Encode(Two("SET", Atom("int_variable"), Num(5))) == "SET" + " " + "int_variable" + " " + "5"
    ensures Encode(Two("SET", Atom("string_variable"), Str("string")))
         == "SET" + " " + "string_variable" + " " + ("\"" + "string" + "\"")
  {
    SmallNumbers();
    RequestText("SET", Atom("int_variable"), Num(5), Num(0));
    RequestText("SET", Atom("string_variable"), Str("string"), Num(0));
  }

  lemma Networks()
    ensures Encode(Two("GET_NETWORK", Num(1), Atom("ssid"))) == "GET_NETWORK" + " " + "1" + " " + "ssid"
    ensures Encode(Three("SET_NETWORK", Num(1), Atom("ssid"), Str("SSID")))
         == "SET_NETWORK" + " " + "1" + " " + "ssid" + " " + ("\"" + "SSID" + "\"")
  {
    SmallNumbers();
    RequestText("GET_NETWORK", Num(1), Atom("ssid"), Num(0));
    RequestText("SET_NETWORK", Num(1), Atom("ssid"), Str("SSID"));
  }

  // --------------------------------------------------------------------- responses

  lemma Words()
    ensures Resp(Plain("PING"), "PONG  ") == Success(Pong)
    ensures Resp(Three("SET_NETWORK", Num(0), Atom("ssid"), Str("MySSID")), "FAIL") == Success(Fail)
    ensures Resp(Three("SET_NETWORK", Num(0), Atom("ssid"), Str("MySSID")), "OK") == Success(Ok)
    ensures Resp(Plain("SCAN"), "OK\n") == Success(Ok)
  {
    assert "PONG  " == "PONG" + "  " && "OK\n" == "OK" + "\n";
    StripBlanks("PONG", "  ");
    StripBlanks("OK", "\n");
    StripKeeps("FAIL");
    StripKeeps("OK");
  }

  lemma Quoted()
    ensures Resp(Two("GET_NETWORK", Num(0), Atom("ssid")), "\"MySSID\"") == Success(Reply("MySSID"))
  {
    ArgRoundTripExact(Two("GET_NETWORK", Num(0), Atom("ssid")), "MySSID");
    assert "\"MySSID\"" == "\"" + "MySSID" + "\"";
    MacExact("MySSID");
  }

  lemma InterfaceNames()
    ensures Resp(Plain("INTERFACES"), "wlan0" + "\n" + "eth0" + "\n") == Success(Interfaces(["wlan0", "eth0"]))
  {
    InterfacesRoundTrip(["wlan0", "eth0"], "\n");
    JoinPair("wlan0", "eth0", '\n');
  }

  lemma JoinPair(a: string, b: string, c: char)
    ensures Join([a, b], c) == a + [c] + b
  {
    assert [a, b][1..] == [b];
  }

  lemma Forms()
    ensures Resp(Plain("ADD_NETWORK"), "0") == Success(NetworkId(0))
    ensures Resp(One("BSS", Num(100)), "\n") == Success(NoBss)
  {
    SmallNumbers();
    NetworkIdRoundTrip(0, "");
    assert "0" + "" == "0";
    FormExact(One("BSS", Num(100)), "\n");
    assert "\n"[1..] == "";
  }

  // ------------------------------------------------------------------------ events

  lemma Prompts(field: string)
    requires field in {"IDENTITY", "PASSWORD", "NEW_PASSWORD", "PIN", "OTP", "PASSPHRASE"}
    ensures Notif("CTRL-REQ-" + field + "-" + "1" + "-" + "Human readable text")
         == Success(Prompt("CTRL-REQ-" + field, 1, "Human readable text"))
  {
    SmallNumbers();
    FieldIsPiece(field);
    PromptRoundTrip(field, 1, "Human readable text");
  }

  lemma FieldIsPiece(field: string)
    requires field in {"IDENTITY", "PASSWORD", "NEW_PASSWORD", "PIN", "OTP", "PASSPHRASE"}
    ensures Piece(field) && |field| < 20
  {
  }

  lemma Signals()
    ensures Notif("CTRL-EVENT-CONNECTED  ") == Success(Signal("CTRL-EVENT-CONNECTED"))
    ensures Notif("CTRL-EVENT-DISCONNECTED\n") == Success(Signal("CTRL-EVENT-DISCONNECTED"))
  {
    ConnectionSignal("CTRL-EVENT-CONNECTED", "  ");
    ConnectionSignal("CTRL-EVENT-DISCONNECTED", "\n");
    assert "CTRL-EVENT-CONNECTED" + "  " == "CTRL-EVENT-CONNECTED  ";
    assert "CTRL-EVENT-DISCONNECTED" + "\n" == "CTRL-EVENT-DISCONNECTED\n";
  }

  lemma Scan()
    ensures Notif("CTRL-EVENT-SCAN-RESULTS") == Success(Signal("CTRL-EVENT-SCAN-RESULTS"))
    ensures Notif("WPS-OVERLAP-DETECTED") == Success(Signal("WPS-OVERLAP-DETECTED"))
  {
    var name := "CTRL-EVENT-SCAN-RESULTS";
    assert name[11] == 'S';
    DiffersAt(name, "CTRL-EVENT-BSS-", 11);
    DiffersAt(name, "CTRL-EVENT-CONNECTED", 11);
    DiffersAt(name, "CTRL-EVENT-DISCONNECTED", 11);
    SignalRoundTrip(name, "");
    assert name + "" == name;
    WpsSignal("WPS-OVERLAP-DETECTED");
  }

  lemma WpsSignal(name: string)
    requires "WPS-" <= name && |name| < 255 && name[|name| - 1] !in WHITESPACE
    ensures Notif(name) == Success(Signal(name))
  {
    assert name[0] == 'W';
    DiffersAt(name, "CTRL-EVENT-BSS-", 0);
    DiffersAt(name, "CTRL-EVENT-CONNECTED", 0);
    DiffersAt(name, "CTRL-EVENT-DISCONNECTED", 0);
    SignalRoundTrip(name, "");
    assert name + "" == name;
  }

  const ADDRESS := "00:11:22:33:44:55"

  lemma Addresses()
    ensures Notif("CTRL-EVENT-BSS-ADDED" + (" " + "34" + " " + ADDRESS))
         == Success(Bss("CTRL-EVENT-BSS-ADDED", 34, ADDRESS))
    ensures Notif("CTRL-EVENT-BSS-REMOVED" + (" " + "34" + " " + ADDRESS))
         == Success(Bss("CTRL-EVENT-BSS-REMOVED", 34, ADDRESS))
  {
    SmallNumbers();
    BssRoundTrip("CTRL-EVENT-BSS-ADDED", 34, ADDRESS);
    BssRoundTrip("CTRL-EVENT-BSS-REMOVED", 34, ADDRESS);
  }

  lemma Stations()
    ensures Notif("AP-STA-CONNECTED" + " " + (ADDRESS + "")) == Success(Station("AP-STA-CONNECTED", ADDRESS))
    ensures Notif("AP-STA-DISCONNECTED" + " " + (ADDRESS + "")) == Success(Station("AP-STA-DISCONNECTED", ADDRESS))
  {
    StationRoundTrip("AP-STA-CONNECTED", ADDRESS, "");
    StationRoundTrip("AP-STA-DISCONNECTED", ADDRESS, "");
  }
}
