/** The wire text of a request determines the request. */
module EncoderTheorems {
  import opened Sequences
  import opened Strings
  import opened Encoder

  /** On strings of length 17 the unanchored search can only match the whole string. */
  lemma MacIsWhole(s: string)
    ensures LooksLikeMac(s) <==> |s| == 17 && MacAt(s, 0)
  {
    if LooksLikeMac(s) {
      var at :| 0 <= at <= |s| && MacAt(s, at);
      assert at == 0;
    }
  }

  /** A hexadecimal digit, as it is typed. */
  predicate HexChar(c: char) {
    '0' <= c <= '9' || 'a' <= c <= 'f' || 'A' <= c <= 'F'
  }

  /** Six pairs of hexadecimal digits with colons in between. */
  predicate MacAddress(s: string) {
    && |s| == 17
    && s[2] == s[5] == s[8] == s[11] == s[14] == ':'
    && HexChar(s[0]) && HexChar(s[1]) && HexChar(s[3]) && HexChar(s[4]) && HexChar(s[6]) && HexChar(s[7])
    && HexChar(s[9]) && HexChar(s[10]) && HexChar(s[12]) && HexChar(s[13]) && HexChar(s[15]) && HexChar(s[16])
  }

  lemma HexExact(c: char)
    ensures IsHex(c) <==> HexChar(c)
  {
  }

  lemma LooksExact(s: string)
    ensures LooksLikeMac(s) <==> MacAddress(s)
  {
    MacIsWhole(s);
    if MacAddress(s) {
      forall j | 0 <= j < 17 ensures if j % 3 == 2 then s[0 + j] == ':' else IsHex(s[0 + j]) {
        HexExact(s[j]);
      }
    } else if |s| == 17 {
      forall j | 0 <= j < 17 ensures IsHex(s[j]) <==> HexChar(s[j]) {
        HexExact(s[j]);
      }
      if MacAt(s, 0) {
        forall j | 0 <= j < 17 ensures if j % 3 == 2 then s[j] == ':' else HexChar(s[j]) {
          assert s[0 + j] == s[j];
        }
      }
    }
  }

  /** Exactly the MAC addresses are written as they are; any other string is put
      between quotes. */
  lemma MacExact(s: string)
    ensures EncodeArg(Str(s)) == s <==> MacAddress(s)
    ensures !MacAddress(s) ==> EncodeArg(Str(s)) == "\"" + s + "\""
  {
    LooksExact(s);
    assert |"\"" + s + "\""| == |s| + 2;
  }

  lemma MacHasNoQuote(s: string)
    requires LooksLikeMac(s)
    ensures s != "" && '"' !in s && ' ' !in s
    ensures forall i :: 0 <= i < |s| && i % 3 != 2 ==> IsHex(s[i])
  {
    MacIsWhole(s);
    forall i | 0 <= i < |s| ensures s[i] != '"' && s[i] != ' ' && (i % 3 != 2 ==> IsHex(s[i])) {
      assert if i % 3 == 2 then s[0 + i] == ':' else IsHex(s[0 + i]);
    }
  }

  /** A string argument can always be read back from its rendering, quotes and all. */
  lemma StringArgInjective(s: string, t: string)
    requires EncodeArg(Str(s)) == EncodeArg(Str(t))
    ensures s == t
  {
    if LooksLikeMac(s) { MacHasNoQuote(s); }
    if LooksLikeMac(t) { MacHasNoQuote(t); }
    if !LooksLikeMac(s) && !LooksLikeMac(t) {
      assert s == EncodeArg(Str(s))[1..|s| + 1];
      assert t == EncodeArg(Str(t))[1..|t| + 1];
    }
  }

  // ------------------------------------------------------------------------- a reader

  /** What a reader of the wire can hope to recover of a request: the texts of
      its command and of its arguments. */
  datatype Shape =
    | Tuple(cmd: string, args: seq<string>)
    | Answer(cmd: string, id: string, text: string)

  /** The tuples that are written as the answer to a prompt. */
  predicate IsAnswer(c: Command) {
    c.Two? && c.cmd in RESPONSES
  }

  /** The texts of which a request is made, if it is not an answer. */
  function Words(c: Command): (ws: seq<string>)
    ensures ws != []
  {
    match c
    case Plain(cmd) => [AtomText(cmd)]
    case One(cmd, a) => [AtomText(cmd), EncodeArg(a)]
    case Two(cmd, a, b) => [AtomText(cmd), EncodeArg(a), EncodeArg(b)]
    case Three(cmd, a, b, d) => [AtomText(cmd), EncodeArg(a), EncodeArg(b), EncodeArg(d)]
  }

  function ShapeOf(c: Command): Shape {
    if IsAnswer(c) then Answer(c.cmd, ToString(c.a), ToString(c.b)) else Tuple(Words(c)[0], Words(c)[1..])
  }

  /** A quote that ends a quoted token: nothing or a space follows it. */
  predicate Closes(s: string, i: nat)
    requires i < |s|
  {
    s[i] == '"' && (i + 1 == |s| || s[i + 1] == ' ')
  }

  /** The index of the first quote that ends a token, or the length. */
  function QuoteEnd(s: string): (i: nat)
    ensures i <= |s| && (i < |s| ==> Closes(s, i)) && forall j :: 0 <= j < i ==> !Closes(s, j)
  {
    if s == "" || Closes(s, 0) then 0
    else
      assert forall j :: 1 <= j < |s| ==> (Closes(s, j) <==> Closes(s[1..], j - 1));
      1 + QuoteEnd(s[1..])
  }

  /** Where the token at the start of `s` ends. A token that begins with a quote
      may hold spaces; one that is never closed is no token. */
  function TokenEnd(s: string): (n: nat)
    ensures n <= |s|
  {
    if s != "" && s[0] == '"' then
      var k := QuoteEnd(s[1..]);
      if k + 1 == |s| then 0 else k + 2
    else Index(s, ' ')
  }

  function Tokens(s: string): (ts: seq<string>)
    ensures ts != []
  {
    if TokenEnd(s) == |s| then [s] else [s[..TokenEnd(s)]] + Tokens(s[TokenEnd(s) + 1..])
  }

  const RSP := "CTRL-RSP-"

  /** Reads a request back from its wire text. */
  function Read(text: string): Option<Shape> {
    if RSP <= text then ReadFields(text[|RSP|..]) else Some(Tuple(Tokens(text)[0], Tokens(text)[1..]))
  }

  /** Reads `FIELD-ID-TEXT`. */
  function ReadFields(rest: string): Option<Shape> {
    var i := Index(rest, '-');
    if i == |rest| then None
    else
      var tail := rest[i + 1..];
      var j := Index(tail, '-');
      if j == |tail| then None else Some(Answer(RSP + rest[..i], tail[..j], tail[j + 1..]))
  }

  // --------------------------------------------------------- what the reader can read

  /** Some quote is followed by a space. */
  predicate QuoteSpace(s: string) {
    exists i :: 0 <= i < |s| - 1 && s[i] == '"' && s[i + 1] == ' '
  }

  predicate IsToken(t: string) {
    if t != "" && t[0] == '"' then
      |t| >= 2 && t[|t| - 1] == '"' && !QuoteSpace(t[1..|t| - 1])
    else ' ' !in t
  }

  predicate AllTokens(ts: seq<string>) {
    forall i :: 0 <= i < |ts| ==> IsToken(ts[i])
  }

  /** A request the reader can read. */
  predicate Readable(c: Command) {
    if IsAnswer(c) then '-' !in ToString(c.a)
    else !(RSP <= AtomText(c.cmd)) && AllTokens(Words(c))
  }

  /** Strings are readable unless a quote in them is followed by a space; other
      quotes do no harm. */
  lemma StringReadable(s: string)
    ensures IsToken(EncodeArg(Str(s))) <==> !QuoteSpace(s)
  {
    if LooksLikeMac(s) {
      MacHasNoQuote(s);
    } else {
      QuotedReadable(s);
    }
  }

  predicate PlainAtom(name: string) {
    ' ' !in name && (name == "" || name[0] != '"')
  }

  /** Atoms are readable exactly when they are plain, or quoted texts themselves. */
  lemma AtomReadable(name: string)
    ensures IsToken(EncodeArg(Atom(name)))
       <==> PlainAtom(name) || exists s :: name == "\"" + s + "\"" && !QuoteSpace(s)
  {
    if !PlainAtom(name) && IsToken(name) {
      assert name == "\"" + name[1..|name| - 1] + "\"";
    }
    forall s | name == "\"" + s + "\"" && !QuoteSpace(s) ensures IsToken(name) {
      QuotedReadable(s);
    }
  }

  lemma QuotedReadable(s: string)
    ensures IsToken("\"" + s + "\"") <==> !QuoteSpace(s)
  {
    var t := "\"" + s + "\"";
    assert t[1..|t| - 1] == s;
  }

  /** Integers are readable. */
  lemma IntReadable(n: int)
    ensures IsToken(EncodeArg(Num(n)))
    ensures n >= 0 ==> '-' !in EncodeArg(Num(n))
  {
    NatTextDigits(if n < 0 then -n else n);
  }

  // ------------------------------------------------------------------ tokens, exactly

  lemma QuoteEndUnique(s: string, i: nat)
    requires i < |s| && Closes(s, i) && forall j :: 0 <= j < i ==> !Closes(s, j)
    ensures QuoteEnd(s) == i
  {
  }

  /** What follows a token: nothing, or a space and the next one. */
  predicate EndsToken(tail: string) {
    tail == "" || tail[0] == ' '
  }

  lemma QuotedEnd(inner: string, tail: string)
    requires EndsToken(tail)
    ensures QuoteEnd(inner + "\"" + tail) == |inner| <==> !QuoteSpace(inner)
  {
    var s := inner + "\"" + tail;
    assert Closes(s, |inner|);
    forall j | 0 <= j < |inner|
      ensures Closes(s, j) <==> j + 1 < |inner| && inner[j] == '"' && inner[j + 1] == ' '
    {
      assert s[j] == inner[j] && s[j + 1] == if j + 1 < |inner| then inner[j + 1] else '"';
    }
    if QuoteSpace(inner) {
      var i :| 0 <= i < |inner| - 1 && inner[i] == '"' && inner[i + 1] == ' ';
      assert Closes(s, i);
    } else {
      QuoteEndUnique(s, |inner|);
    }
  }

  /** A text is cut off as one token exactly when it is one. */
  lemma TokenEndExact(t: string, tail: string)
    requires EndsToken(tail)
    ensures TokenEnd(t + tail) == |t| <==> IsToken(t)
  {
    var s := t + tail;
    if t != "" && t[0] == '"' {
      assert s[1..] == t[1..] + tail;
      if |t| >= 2 && t[|t| - 1] == '"' {
        var inner := t[1..|t| - 1];
        assert t[1..] == inner + "\"";
        QuotedEnd(inner, tail);
      } else {
        NotClosed(t, tail);
      }
    } else {
      PlainEnd(t, tail);
    }
  }

  lemma NotClosed(t: string, tail: string)
    requires t != "" && t[0] == '"' && (|t| == 1 || t[|t| - 1] != '"')
    ensures TokenEnd(t + tail) != |t|
  {
    var s := t + tail;
    var k := QuoteEnd(s[1..]);
    if k < |s| - 1 {
      assert Closes(s[1..], k) && s[1..][k] == s[k + 1];
    }
  }

  lemma PlainEnd(t: string, tail: string)
    requires EndsToken(tail) && (t == "" || t[0] != '"')
    ensures TokenEnd(t + tail) == |t| <==> ' ' !in t
  {
    var s := t + tail;
    if ' ' !in t {
      IndexUnique(s, ' ', |t|);
    } else {
      var i :| 0 <= i < |t| && t[i] == ' ';
      assert s[i] == ' ';
    }
  }

  /** The first token is right exactly when it is a token, and then the others are read on their own. */
  lemma FirstToken(t: string, tail: string)
    requires EndsToken(tail)
    ensures Tokens(t + tail)[0] == t <==> IsToken(t)
    ensures IsToken(t) ==> Tokens(t + tail) == if tail == "" then [t] else [t] + Tokens(tail[1..])
  {
    TokenEndExact(t, tail);
    TokensOf(t, tail);
  }

  lemma TokensOf(t: string, tail: string)
    requires EndsToken(tail)
    ensures Tokens(t + tail)[0] == t <==> TokenEnd(t + tail) == |t|
    ensures TokenEnd(t + tail) == |t| ==> Tokens(t + tail) == if tail == "" then [t] else [t] + Tokens(tail[1..])
  {
    var s := t + tail;
    assert s[..|t|] == t;
    if tail != "" { assert s[|t| + 1..] == tail[1..]; }
  }

  /** Joined texts are read back one by one exactly when all of them are tokens. */
  lemma {:induction false} TokensExact(ts: seq<string>)
    requires ts != []
    ensures Tokens(Join(ts, ' ')) == ts <==> AllTokens(ts)
  {
    if |ts| == 1 {
      OneToken(ts);
    } else {
      TokensExact(ts[1..]);
      NextTokens(ts[0], Join(ts[1..], ' '), ts[1..]);
      TokensCons(ts);
    }
  }

  lemma OneToken(ts: seq<string>)
    requires |ts| == 1
    ensures Tokens(ts[0]) == ts <==> AllTokens(ts)
  {
    FirstToken(ts[0], "");
    assert ts[0] + "" == ts[0];
    assert ts == [ts[0]];
  }

  lemma TokensCons(ts: seq<string>)
    requires ts != []
    ensures AllTokens(ts) <==> IsToken(ts[0]) && AllTokens(ts[1..])
    ensures ts == [ts[0]] + ts[1..]
  {
    if IsToken(ts[0]) && AllTokens(ts[1..]) {
      forall i | 0 <= i < |ts| ensures IsToken(ts[i]) {
        if i > 0 { assert ts[1..][i - 1] == ts[i]; }
      }
    }
  }

  lemma NextTokens(t: string, rest: string, ts: seq<string>)
    ensures Tokens(t + " " + rest) == [t] + ts <==> IsToken(t) && Tokens(rest) == ts
  {
    FirstToken(t, " " + rest);
    assert t + " " + rest == t + (" " + rest);
    assert (" " + rest)[1..] == rest;
    var read := Tokens(t + " " + rest);
    assert read == [t] + ts <==> read[0] == t && read[1..] == ts;
    assert IsToken(t) ==> read[1..] == Tokens(rest);
  }

  lemma JoinCons(t: string, ts: seq<string>)
    requires ts != []
    ensures Join([t] + ts, ' ') == t + " " + Join(ts, ' ')
  {
    assert ([t] + ts)[1..] == ts;
  }

  lemma JoinThree(a: string, b: string, c: string)
    ensures Join([a, b], ' ') == a + " " + b
    ensures Join([a, b, c], ' ') == a + " " + b + " " + c
  {
    JoinCons(b, [c]);
    JoinCons(a, [b, c]);
    JoinCons(a, [b]);
    Assoc(a + " ", b + " ", c);
    Assoc(a + " ", b, " ");
  }

  lemma EncodeIsJoin(c: Command)
    requires !IsAnswer(c)
    ensures Encode(c) == Join(Words(c), ' ')
  {
    match c
    case Plain(cmd) =>
    case One(cmd, a) => JoinThree(AtomText(cmd), EncodeArg(a), "");
    case Two(cmd, a, b) => JoinThree(AtomText(cmd), EncodeArg(a), EncodeArg(b));
    case Three(cmd, a, b, d) =>
      JoinThree(EncodeArg(a), EncodeArg(b), EncodeArg(d));
      JoinCons(AtomText(cmd), [EncodeArg(a), EncodeArg(b), EncodeArg(d)]);
      Regroup4(AtomText(cmd) + " ", EncodeArg(a), EncodeArg(b), EncodeArg(d));
  }

  lemma Regroup4(head: string, a: string, b: string, c: string)
    ensures head + (a + " " + b + " " + c) == head + a + " " + b + " " + c
  {
  }

  /** A text begins with `CTRL-RSP-` only if its first word does. */
  lemma BeginsResponse(word: string, tail: string)
    requires EndsToken(tail)
    ensures RSP <= word + tail <==> RSP <= word
  {
    assert forall i :: 0 <= i < |RSP| ==> RSP[i] != ' ';
    if tail != "" { assert (word + tail)[|word|] == ' '; }
  }

  lemma JoinTail(ws: seq<string>) returns (tail: string)
    requires ws != []
    ensures EndsToken(tail) && Join(ws, ' ') == ws[0] + tail
  {
    if |ws| == 1 {
      tail := "";
    } else {
      tail := " " + Join(ws[1..], ' ');
      Assoc(ws[0], " ", Join(ws[1..], ' '));
    }
  }

  // ----------------------------------------------------------------- answers, exactly

  lemma ResponseNames(cmd: string)
    requires cmd in RESPONSES
    ensures RSP <= cmd && '-' !in cmd[|RSP|..]
  {
  }

  lemma FieldsExact(field: string, id: string, text: string)
    requires '-' !in field
    ensures ReadFields(field + "-" + (id + "-" + text)) == Some(Answer(RSP + field, id, text)) <==> '-' !in id
  {
    IndexAfter(field, '-', id + "-" + text);
    var tail := id + "-" + text;
    if '-' !in id {
      IndexAfter(id, '-', text);
    } else {
      var i :| 0 <= i < |id| && id[i] == '-';
      assert tail[i] == '-';
    }
  }

  lemma ReadPrefixed(rest: string)
    ensures Read(RSP + rest) == ReadFields(rest)
  {
    assert (RSP + rest)[|RSP|..] == rest;
  }

  /** An answer splits back into field, id and text exactly when there is no dash
      in the id, whatever the text holds. */
  lemma AnswerExact(cmd: string, id: string, text: string)
    requires RSP <= cmd && '-' !in cmd[|RSP|..]
    ensures Read(cmd + "-" + id + "-" + text) == Some(Answer(cmd, id, text)) <==> '-' !in id
  {
    var field := cmd[|RSP|..];
    assert cmd == RSP + field;
    FieldsExact(field, id, text);
    ReadPrefixed(field + "-" + (id + "-" + text));
    Assoc(RSP, field + "-", id + "-" + text);
    Assoc(RSP, field, "-");
    Assoc(cmd + "-", id + "-", text);
    Assoc(cmd + "-", id, "-");
  }

  /** A natural id is read back as the number it was. */
  lemma ReadAnswer(cmd: string, id: nat, text: string)
    requires cmd in RESPONSES
    ensures Read(Encode(Two(cmd, Num(id), Str(text)))) == Some(Answer(cmd, IntText(id), text))
    ensures ToInteger(IntText(id), 10) == Some(id)
  {
    ResponseNames(cmd);
    IntReadable(id);
    IntTextValue(id);
    AnswerExact(cmd, IntText(id), text);
  }

  // ------------------------------------------------------------ unique decodability

  /** For every request: a reader that knows nothing of it recovers its command
      and its rendered arguments exactly when it is readable. */
  lemma ReadExact(c: Command)
    ensures Read(Encode(c)) == Some(ShapeOf(c)) <==> Readable(c)
  {
    if IsAnswer(c) {
      ResponseNames(c.cmd);
      AnswerExact(c.cmd, ToString(c.a), ToString(c.b));
    } else {
      EncodeIsJoin(c);
      var tail := JoinTail(Words(c));
      BeginsResponse(AtomText(c.cmd), tail);
      TokensExact(Words(c));
      TupleExact(Encode(c), Words(c));
    }
  }

  lemma TupleExact(text: string, words: seq<string>)
    requires words != []
    ensures Read(text) == Some(Tuple(words[0], words[1..])) <==> !(RSP <= text) && Tokens(text) == words
  {
    var ts := Tokens(text);
    assert ts == [ts[0]] + ts[1..] && words == [words[0]] + words[1..];
  }

  /** Unique decodability. */
  lemma EncodeInjective(c: Command, d: Command)
    requires Readable(c) && Readable(d) && Encode(c) == Encode(d)
    ensures ShapeOf(c) == ShapeOf(d)
  {
    ReadExact(c);
    ReadExact(d);
  }

  // ------------------------------------------------------------------------ collisions

  /** Requests that are not told apart on the wire. */
  predicate Collide(c: Command, d: Command) {
    Encode(c) == Encode(d) && ShapeOf(c) != ShapeOf(d)
  }

  lemma Quoted(s: string)
    requires '"' in s
    ensures EncodeArg(Str(s)) == "\"" + s + "\""
  {
    if LooksLikeMac(s) { MacHasNoQuote(s); }
  }

  /** What stands between the outer quotes of two rendered strings with `mid` in between. */
  function Merged(a: string, mid: string, b: string): string {
    a + ("\" " + mid + "\"") + b
  }

  /** Such a string reads like the two. */
  lemma QuotedMerge(a: string, mid: string, b: string)
    requires !LooksLikeMac(a) && !LooksLikeMac(b)
    ensures EncodeArg(Str(Merged(a, mid, b))) == EncodeArg(Str(a)) + (" " + mid) + EncodeArg(Str(b))
  {
    var s := Merged(a, mid, b);
    assert s[|a|] == '"';
    Quoted(s);
    assert "\"" + s + "\"" == ("\"" + a + "\"") + (" " + mid) + ("\"" + b + "\"");
  }

  /** Two strings collide with one that holds both, whatever they are. */
  lemma QuoteCollides(cmd: string, a: string, b: string)
    requires cmd !in RESPONSES && !LooksLikeMac(a) && !LooksLikeMac(b)
    ensures Collide(One(cmd, Str(Merged(a, "", b))), Two(cmd, Str(a), Str(b)))
  {
    QuotedMerge(a, "", b);
    assert " " + "" == " ";
    Regroup2(AtomText(cmd) + " ", EncodeArg(Str(a)), EncodeArg(Str(b)));
  }

  lemma Regroup2(head: string, a: string, b: string)
    ensures head + (a + " " + b) == head + a + " " + b
  {
  }

  lemma Regroup3(head: string, a: string, mid: string, b: string)
    ensures head + (a + " " + (mid + " " + b)) == head + a + " " + mid + " " + b
  {
    Regroup2(head, a, mid + " " + b);
    Assoc(head + a + " ", mid + " ", b);
    Assoc(head + a + " ", mid, " ");
  }

  lemma MiddleOut(a: string, mid: string, b: string)
    ensures a + (" " + (mid + " ")) + b == a + " " + (mid + " " + b)
  {
    Assoc(a, " ", mid + " ");
    Assoc(a + " ", mid + " ", b);
  }

  /** And so do two strings around any argument. */
  lemma QuotesCollide(cmd: string, a: string, mid: Arg, b: string)
    requires !LooksLikeMac(a) && !LooksLikeMac(b)
    ensures Collide(One(cmd, Str(Merged(a, EncodeArg(mid) + " ", b))), Three(cmd, Str(a), mid, Str(b)))
  {
    QuotedMerge(a, EncodeArg(mid) + " ", b);
    MiddleOut(EncodeArg(Str(a)), EncodeArg(mid), EncodeArg(Str(b)));
    Regroup3(AtomText(cmd) + " ", EncodeArg(Str(a)), EncodeArg(mid), EncodeArg(Str(b)));
  }

  // -------------------------------------------------------- ambiguity of a single string

  /** The atoms of the request are texts the reader can read. Its strings may hold anything. */
  predicate TokenAtoms(c: Command) {
    IsAnswer(c) ||
    (IsToken(AtomText(c.cmd)) &&
     match c
     case Plain(_) => true
     case One(_, a) => TokenAtom(a)
     case Two(_, a, b) => TokenAtom(a) && TokenAtom(b)
     case Three(_, a, b, d) => TokenAtom(a) && TokenAtom(b) && TokenAtom(d))
  }

  predicate TokenAtom(a: Arg) {
    a.Atom? ==> IsToken(EncodeArg(a))
  }

  /** A text between quotes, or one without spaces. The atom nil does not print as `nil`. */
  predicate ArgText(t: string) {
    if t != "" && t[0] == '"' then |t| >= 2 && t[|t| - 1] == '"' else ' ' !in t && t != "nil"
  }

  predicate TwoArgTexts(t: string) {
    exists j :: 0 <= j < |t| && t[j] == ' ' && ArgText(t[..j]) && ArgText(t[j + 1..])
  }

  /** Behind some quote and space, the string goes on with the texts of one or two
      arguments, the closing quote included. */
  predicate Ambiguous(s: string) {
    exists i :: 0 <= i < |s| - 1 && s[i] == '"' && s[i + 1] == ' '
                && (ArgText(s[i + 2..] + "\"") || TwoArgTexts(s[i + 2..] + "\""))
  }

  /** These are the texts of arguments. */
  lemma ArgTextOf(a: Arg)
    requires TokenAtom(a)
    ensures ArgText(EncodeArg(a))
  {
    match a
    case Str(s) => if LooksLikeMac(s) { MacHasNoQuote(s); }
    case Atom(name) =>
    case Num(n) => IntIsPlain(n);
  }

  lemma IntIsPlain(n: int)
    ensures IntText(n) != "" && IntText(n)[0] != '"' && IntText(n)[0] != 'n' && ' ' !in IntText(n)
  {
    NatTextDigits(if n < 0 then -n else n);
  }

  /** And no others. */
  lemma ArgOf(t: string) returns (a: Arg)
    requires ArgText(t)
    ensures TokenAtom(a) && EncodeArg(a) == t
  {
    if t != "" && t[0] == '"' {
      var s := t[1..|t| - 1];
      assert t == "\"" + s + "\"";
      if LooksLikeMac(s) {
        MacHasNoQuote(s);
        a := Atom(t);
      } else {
        a := Str(s);
      }
    } else {
      a := Atom(t);
    }
  }

  /** Requests with the same text have the same command and the same text behind it. */
  lemma SameHead(u: string, v: string, q: string, tail: string)
    requires IsToken(u) && IsToken(v) && EndsToken(tail) && u + (" " + q) == v + tail
    ensures u == v && tail == " " + q
  {
    FirstToken(u, " " + q);
    FirstToken(v, tail);
    assert (u + (" " + q))[|u|..] == " " + q && (v + tail)[|v|..] == tail;
  }

  /** A quoted string that is also a text, a space and something else. */
  lemma CutInside(s: string, a: string, rest: string)
    requires "\"" + s + "\"" == a + " " + rest && ArgText(a)
    requires ArgText(rest) || TwoArgTexts(rest)
    ensures Ambiguous(s)
  {
    OuterQuotes(s, a, rest);
    var x, r := a[1..|a| - 1], rest[..|rest| - 1];
    assert a == "\"" + x + "\"" && rest == r + "\"";
    assert "\"" + s + "\"" == "\"" + (x + "\" " + r) + "\"";
    SameInside(s, x + "\" " + r);
    assert s[|x|] == '"' && s[|x| + 1] == ' ' && s[|x| + 2..] == r;
  }

  lemma OuterQuotes(s: string, a: string, rest: string)
    requires "\"" + s + "\"" == a + " " + rest && ArgText(a)
    requires ArgText(rest) || TwoArgTexts(rest)
    ensures |a| >= 2 && a[0] == '"' && a[|a| - 1] == '"' && |rest| > 1 && rest[|rest| - 1] == '"'
  {
    var q := "\"" + s + "\"";
    assert q[0] == '"' && q[|q| - 1] == '"' && q[|a|] == ' ';
    assert |a| != 0 && |a| != |q| - 1;
    assert q[0] == a[0] && q[|q| - 1] == rest[|rest| - 1];
  }

  lemma SameInside(s: string, t: string)
    requires "\"" + s + "\"" == "\"" + t + "\""
    ensures s == t
  {
    assert s == ("\"" + s + "\"")[1..|s| + 1];
    assert t == ("\"" + t + "\"")[1..|t| + 1];
  }

  /** A rendered string with a space in it is quoted. */
  lemma SpaceMeansQuoted(s: string, a: string, rest: string)
    requires EncodeArg(Str(s)) == a + " " + rest
    ensures EncodeArg(Str(s)) == "\"" + s + "\""
  {
    assert (a + " " + rest)[|a|] == ' ';
    if LooksLikeMac(s) { MacHasNoQuote(s); }
  }

  lemma SameRest(u: string, v: string, q: string, rest: string)
    requires IsToken(u) && IsToken(v) && u + " " + q == v + " " + rest
    ensures u == v && q == rest
  {
    Assoc(u, " ", q);
    Assoc(v, " ", rest);
    SameHead(u, v, q, " " + rest);
    assert (" " + rest)[1..] == rest && (" " + q)[1..] == q;
  }

  lemma CutByTwo(u: string, v: string, s: string, a: Arg, b: Arg)
    requires IsToken(u) && IsToken(v) && TokenAtom(a) && TokenAtom(b)
    requires u + " " + EncodeArg(Str(s)) == v + " " + EncodeArg(a) + " " + EncodeArg(b)
    ensures Ambiguous(s)
  {
    Regroup2(v + " ", EncodeArg(a), EncodeArg(b));
    SameRest(u, v, EncodeArg(Str(s)), EncodeArg(a) + " " + EncodeArg(b));
    SpaceMeansQuoted(s, EncodeArg(a), EncodeArg(b));
    ArgTextOf(a);
    ArgTextOf(b);
    CutInside(s, EncodeArg(a), EncodeArg(b));
  }

  lemma CutByThree(u: string, v: string, s: string, a: Arg, m: Arg, b: Arg)
    requires IsToken(u) && IsToken(v) && TokenAtom(a) && TokenAtom(m) && TokenAtom(b)
    requires u + " " + EncodeArg(Str(s)) == v + " " + EncodeArg(a) + " " + EncodeArg(m) + " " + EncodeArg(b)
    ensures Ambiguous(s)
  {
    var rest := EncodeArg(m) + " " + EncodeArg(b);
    Regroup3(v + " ", EncodeArg(a), EncodeArg(m), EncodeArg(b));
    SameRest(u, v, EncodeArg(Str(s)), EncodeArg(a) + " " + rest);
    SpaceMeansQuoted(s, EncodeArg(a), rest);
    ArgTextOf(a);
    ArgTextOf(m);
    ArgTextOf(b);
    assert rest[..|EncodeArg(m)|] == EncodeArg(m) && rest[|EncodeArg(m)| + 1..] == EncodeArg(b);
    assert rest[|EncodeArg(m)|] == ' ';
    CutInside(s, EncodeArg(a), rest);
  }

  /** If the text of a single string is also that of another request, the string
      holds the texts of its arguments. */
  lemma CollisionInside(cmd: string, s: string, d: Command)
    requires IsToken(AtomText(cmd)) && !(RSP <= AtomText(cmd)) && TokenAtoms(d)
    requires Collide(One(cmd, Str(s)), d)
    ensures Ambiguous(s)
  {
    var u, v := AtomText(cmd), AtomText(d.cmd);
    NotAnswer(u, EncodeArg(Str(s)), d);
    match d
    case Plain(_) => SameHead(u, v, EncodeArg(Str(s)), "");
    case One(_, a) => SameRest(u, v, EncodeArg(Str(s)), EncodeArg(a));
    case Two(_, a, b) => CutByTwo(u, v, s, a, b);
    case Three(_, a, m, b) => CutByThree(u, v, s, a, m, b);
  }

  lemma NotAnswer(u: string, q: string, d: Command)
    requires !(RSP <= u) && Encode(d) == u + " " + q
    ensures !IsAnswer(d)
  {
    Assoc(u, " ", q);
    BeginsResponse(u, " " + q);
    if IsAnswer(d) {
      ResponseNames(d.cmd);
      BeginsLonger(d.cmd, "-" + ToString(d.a) + "-" + ToString(d.b));
    }
  }

  lemma BeginsLonger(cmd: string, more: string)
    requires RSP <= cmd
    ensures RSP <= cmd + more
  {
  }

  /** A request with two arguments that has the text of the string. */
  lemma ColliderOfTwo(cmd: string, s: string, first: string, rest: string) returns (d: Command)
    requires IsToken(AtomText(cmd)) && cmd !in RESPONSES
    requires EncodeArg(Str(s)) == first + " " + rest && ArgText(first) && ArgText(rest)
    ensures TokenAtoms(d) && Collide(One(cmd, Str(s)), d)
  {
    var a := ArgOf(first);
    var b := ArgOf(rest);
    d := Two(cmd, a, b);
    Regroup2(AtomText(cmd) + " ", first, rest);
  }

  lemma TwoTextsOf(t: string) returns (x: string, y: string)
    requires TwoArgTexts(t)
    ensures ArgText(x) && ArgText(y) && t == x + " " + y
  {
    var j :| 0 <= j < |t| && t[j] == ' ' && ArgText(t[..j]) && ArgText(t[j + 1..]);
    x, y := t[..j], t[j + 1..];
  }

  /** A request with three arguments that has the text of the string. */
  lemma ColliderOfThree(cmd: string, s: string, first: string, rest: string) returns (d: Command)
    requires IsToken(AtomText(cmd))
    requires EncodeArg(Str(s)) == first + " " + rest && ArgText(first) && TwoArgTexts(rest)
    ensures TokenAtoms(d) && Collide(One(cmd, Str(s)), d)
  {
    var x, y := TwoTextsOf(rest);
    var a := ArgOf(first);
    var m := ArgOf(x);
    var b := ArgOf(y);
    d := Three(cmd, a, m, b);
    Assoc(x, " ", y);
    Regroup3(AtomText(cmd) + " ", first, x, y);
  }

  lemma CutOfQuoted(s: string, i: nat)
    requires i < |s| - 1 && s[i] == '"' && s[i + 1] == ' '
    ensures EncodeArg(Str(s)) == ("\"" + s[..i] + "\"") + " " + (s[i + 2..] + "\"")
  {
    Quoted(s);
  }

  lemma Collider(cmd: string, s: string) returns (d: Command)
    requires IsToken(AtomText(cmd)) && cmd !in RESPONSES && Ambiguous(s)
    ensures TokenAtoms(d) && Collide(One(cmd, Str(s)), d)
  {
    var i :| 0 <= i < |s| - 1 && s[i] == '"' && s[i + 1] == ' '
             && (ArgText(s[i + 2..] + "\"") || TwoArgTexts(s[i + 2..] + "\""));
    CutOfQuoted(s, i);
    if ArgText(s[i + 2..] + "\"") {
      d := ColliderOfTwo(cmd, s, "\"" + s[..i] + "\"", s[i + 2..] + "\"");
    } else {
      d := ColliderOfThree(cmd, s, "\"" + s[..i] + "\"", s[i + 2..] + "\"");
    }
  }

  /** The text of a single string is ambiguous, among all requests whose atoms the
      reader can read, exactly when the string goes on behind some quote and space
      with the texts of one or two arguments. */
  lemma StringAmbiguous(cmd: string, s: string)
    requires IsToken(AtomText(cmd)) && !(RSP <= AtomText(cmd))
    ensures (exists d :: TokenAtoms(d) && Collide(One(cmd, Str(s)), d)) <==> Ambiguous(s)
    ensures Ambiguous(s) ==> QuoteSpace(s)
  {
    if d :| TokenAtoms(d) && Collide(One(cmd, Str(s)), d) {
      CollisionInside(cmd, s, d);
    }
    if Ambiguous(s) {
      if cmd in RESPONSES { ResponseNames(cmd); }
      var d := Collider(cmd, s);
    }
  }

  /** Every answer to a prompt collides with the atom that spells it. */
  lemma ResponseAtomCollides(cmd: string, id: Arg, text: Arg)
    requires cmd in RESPONSES
    ensures Collide(Plain(cmd + "-" + ToString(id) + "-" + ToString(text)), Two(cmd, id, text))
  {
    ResponseNames(cmd);
    var name := cmd + "-" + ToString(id) + "-" + ToString(text);
    assert name[0] == cmd[0] == RSP[0];
  }

  /** A dash in an id may as well belong to the text. */
  lemma DashCollides(cmd: string, id: string, more: string, text: string)
    requires cmd in RESPONSES
    ensures Collide(Two(cmd, Str(id + "-" + more), Str(text)), Two(cmd, Str(id), Str(more + "-" + text)))
  {
    assert cmd + "-" + (id + "-" + more) + "-" + text == cmd + "-" + id + "-" + (more + "-" + text);
    assert |id + "-" + more| > |id|;
  }

  /** An atom with a space collides with two atoms. */
  lemma SpacedAtomCollides(cmd: string, a: string, b: string)
    requires cmd !in RESPONSES && a != "nil" && b != "nil"
    ensures Collide(One(cmd, Atom(a + " " + b)), Two(cmd, Atom(a), Atom(b)))
  {
    var s := a + " " + b;
    assert s[|a|] == ' ' && "nil"[0] != ' ' && "nil"[1] != ' ' && "nil"[2] != ' ';
    assert s != "nil";
    Assoc(AtomText(cmd) + " ", a + " ", b);
    Assoc(AtomText(cmd) + " ", a, " ");
  }

  /** The text of an atom determines it, except that nil and the empty atom both print as nothing. */
  lemma AtomTextExact(a: string, b: string)
    ensures AtomText(a) == AtomText(b) <==> a == b || (a in {"", "nil"} && b in {"", "nil"})
  {
  }
}
