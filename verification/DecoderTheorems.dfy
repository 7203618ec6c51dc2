/** What decoding recovers, for every input. */
module DecoderTheorems {
  import opened Sequences
  import opened Strings
  import opened Encoder
  import opened EncoderTheorems
  import opened Decoder

  // ---------------------------------------------------------------------- numbers

  /** Every integer is decoded from its decimal text. */
  lemma DecimalValue(n: int)
    ensures KvValue(IntText(n)) == Integer(n)
  {
    IntTextValue(n);
    var s := IntText(n);
    if n < 0 {
      assert s[0] == '-';
    } else {
      NatTextDigits(n);
      assert s[0] != 'T' && s[0] != 'F';
      if |s| > 1 { assert s[1] != 'x'; }
    }
  }

  function Zeros(k: nat): string {
    if k == 0 then "" else "0" + Zeros(k - 1)
  }

  lemma {:induction false} LeadingZeros(k: nat, s: string, base: nat)
    requires base > 0
    ensures NumeralValue(Zeros(k) + s, base) == NumeralValue(s, base)
    ensures IsNumeral(s, base) ==> IsNumeral(Zeros(k) + s, base)
  {
    if k == 0 {
      assert "" + s == s;
    } else {
      LeadingZeros(k - 1, s, base);
      Assoc("0", Zeros(k - 1), s);
      LeadingZero(Zeros(k - 1) + s, base);
    }
  }

  /** Two numerals with the same digit values, whatever the case of their letters. */
  predicate SameDigits(s: string, t: string) {
    |s| == |t| && forall i :: 0 <= i < |s| ==> DigitValue(s[i]) == DigitValue(t[i])
  }

  lemma {:induction false} SameDigitsSameValue(s: string, t: string, base: nat)
    requires SameDigits(s, t)
    ensures NumeralValue(s, base) == NumeralValue(t, base) && (IsNumeral(s, base) <==> IsNumeral(t, base))
  {
    if s != "" {
      SameDigitsSameValue(s[..|s| - 1], t[..|t| - 1], base);
    }
  }

  lemma HexNumeral(digits: string, n: nat)
    requires IsNumeral(digits, 16) && NumeralValue(digits, 16) == n
    ensures KvValue("0x" + digits) == Integer(n)
  {
    assert ("0x" + digits)[2..] == digits;
    assert ("0x" + digits)[0] == '0';
  }

  /** Every natural number is decoded from its `0x` text, with any number of
      leading zeros and its letters in any mixture of cases. */
  lemma HexValue(n: nat, zeros: nat, digits: string)
    requires SameDigits(digits, Zeros(zeros) + NatText(n, 16, LOWER))
    ensures KvValue("0x" + digits) == Integer(n)
  {
    var text := NatText(n, 16, LOWER);
    NatTextValue(n, 16, LOWER);
    LeadingZeros(zeros, text, 16);
    SameDigitsSameValue(digits, Zeros(zeros) + text, 16);
    HexNumeral(digits, n);
  }

  /** Exactly the other values are returned as they are; a `0x` value that is
      not hexadecimal loses its prefix. */
  lemma UnchangedValues(v: string)
    ensures KvValue(v) == Text(v)
       <==> v !in {"TRUE", "FALSE", ""} && !("0x" <= v) && ToInteger(v, 10) == None
    ensures "0x" <= v && ToInteger(v[2..], 16) == None ==> KvValue(v) == Text(v[2..])
  {
    if "0x" <= v { assert v[0] == '0'; }
  }

  // ------------------------------------------------------------- string arguments

  /** The requests whose responses have no decoding of their own. */
  predicate IsGeneric(req: Command) {
    !IsKeyValue(req) && req != Plain("INTERFACES") && req != Plain("ADD_NETWORK")
  }

  lemma StripKeeps(s: string)
    requires s != "" && s[0] !in WHITESPACE && s[|s| - 1] !in WHITESPACE
    ensures Strip(s) == s
  {
  }

  /** A string argument comes back from the response that repeats it, without its trailing quotes. */
  lemma ArgRoundTrip(req: Command, s: string)
    requires IsGeneric(req)
    ensures Resp(req, EncodeArg(Str(s))) == Success(Reply(TrimRight(s, {'"'})))
  {
    if LooksLikeMac(s) { MacReply(req, s); } else { QuotedReply(req, s); }
  }

  /** So the argument comes back exactly when it does not end in a quote. */
  lemma ArgRoundTripExact(req: Command, s: string)
    requires IsGeneric(req)
    ensures Resp(req, EncodeArg(Str(s))) == Success(Reply(s)) <==> s == "" || s[|s| - 1] != '"'
  {
    ArgRoundTrip(req, s);
    TrimsNothing(s, {'"'});
  }

  lemma TrimsNothing(s: string, cs: set<char>)
    ensures TrimRight(s, cs) == s <==> s == "" || s[|s| - 1] !in cs
  {
    TrimRightSpec(s, cs);
  }

  lemma HexKeeps(s: string)
    requires |s| == 17 && IsHex(s[0]) && IsHex(s[16]) && '"' !in s
    ensures Strip(s) == s && s[0] != '"' && TrimRight(s, {'"'}) == s
  {
    StripKeeps(s);
  }

  lemma MacReply(req: Command, s: string)
    requires IsGeneric(req) && LooksLikeMac(s)
    ensures Resp(req, s) == Success(Reply(s)) && TrimRight(s, {'"'}) == s
  {
    MacHasNoQuote(s);
    HexKeeps(s);
  }

  lemma StripQuoted(s: string)
    ensures var text := "\"" + s + "\"";
            Strip(text) == text && text[0] == '"' && text[1..] == s + "\""
  {
    var text := "\"" + s + "\"";
    StripKeeps(text);
    assert text[1..] == s + "\"";
  }

  lemma QuotedReply(req: Command, s: string)
    requires IsGeneric(req)
    ensures Resp(req, "\"" + s + "\"") == Success(Reply(TrimRight(s, {'"'})))
  {
    StripQuoted(s);
    TrimRightIgnores(s, "\"", {'"'});
  }

  // ---------------------------------------------------------- key/value responses

  type Pair = (string, Value)

  /** `m` maps every key to the value of its last pair, and nothing else. */
  ghost predicate IsLastWins(m: map<string, Value>, pairs: seq<Pair>) {
    && (forall k :: k in m <==> HasKey(pairs, k))
    && (forall i :: 0 <= i < |pairs| && (forall j :: i < j < |pairs| ==> pairs[j].0 != pairs[i].0)
          ==> pairs[i].0 in m && m[pairs[i].0] == pairs[i].1)
  }

  predicate HasKey(pairs: seq<Pair>, k: string) {
    exists i :: 0 <= i < |pairs| && pairs[i].0 == k
  }

  function LastWins(pairs: seq<Pair>): map<string, Value> {
    if pairs == [] then map[] else LastWins(pairs[..|pairs| - 1])[pairs[|pairs| - 1].0 := pairs[|pairs| - 1].1]
  }

  lemma {:induction false} LastWinsSpec(pairs: seq<Pair>)
    ensures IsLastWins(LastWins(pairs), pairs)
  {
    if pairs == [] {
      assert LastWins(pairs) == map[];
    } else {
      LastWinsSpec(pairs[..|pairs| - 1]);
      LastWinsStep(LastWins(pairs[..|pairs| - 1]), pairs);
    }
  }

  lemma LastWinsStep(m: map<string, Value>, pairs: seq<Pair>)
    requires pairs != [] && IsLastWins(m, pairs[..|pairs| - 1])
    ensures IsLastWins(m[pairs[|pairs| - 1].0 := pairs[|pairs| - 1].1], pairs)
  {
    LastWinsAppend(m, pairs[..|pairs| - 1], pairs[|pairs| - 1]);
    assert pairs[..|pairs| - 1] + [pairs[|pairs| - 1]] == pairs;
  }

  lemma LastWinsAppend(m: map<string, Value>, front: seq<Pair>, last: Pair)
    requires IsLastWins(m, front)
    ensures IsLastWins(m[last.0 := last.1], front + [last])
  {
    var pairs, m' := front + [last], m[last.0 := last.1];
    assert forall i :: 0 <= i < |front| ==> pairs[i] == front[i];
    forall k ensures k in m' <==> HasKey(pairs, k) {
      HasKeyAppend(front, last, k);
    }
    forall i | 0 <= i < |pairs| && (forall j :: i < j < |pairs| ==> pairs[j].0 != pairs[i].0)
      ensures pairs[i].0 in m' && m'[pairs[i].0] == pairs[i].1
    {
      if i < |front| {
        assert pairs[|front|].0 != pairs[i].0;
        assert HasKey(front, front[i].0);
      }
    }
  }

  lemma HasKeyAppend(front: seq<Pair>, last: Pair, k: string)
    ensures HasKey(front + [last], k) <==> HasKey(front, k) || k == last.0
  {
    if k == last.0 {
      assert (front + [last])[|front|].0 == k;
    } else if HasKey(front, k) {
      var i :| 0 <= i < |front| && front[i].0 == k;
      assert (front + [last])[i].0 == k;
    }
  }

  /** A line that decodes: one `=`, and a key that can be an atom. */
  predicate GoodLine(line: string) {
    Count(line, '=') == 1 && Index(line, '=') <= 255
  }

  /** The pair a good line stands for. */
  function PairOf(line: string): Pair
    requires GoodLine(line)
  {
    var i := Index(line, '=');
    CountFrom(line, '=');
    (line[..i], KvValue(RStrip(line[i + 1..])))
  }

  lemma LineSpec(line: string)
    ensures KvLine(line).Success? <==> GoodLine(line)
    ensures GoodLine(line) ==> KvLine(line) == Success(PairOf(line))
  {
    SplitCounts(line, '=');
    CountFrom(line, '=');
    var i := Index(line, '=');
    if GoodLine(line) {
      var tail := line[i + 1..];
      CountFrom(tail, '=');
      assert Split(tail, '=') == [tail];
    }
  }

  predicate GoodLines(lines: seq<string>) {
    forall i :: 0 <= i < |lines| ==> GoodLine(lines[i])
  }

  function PairsOf(lines: seq<string>): seq<Pair>
    requires GoodLines(lines)
  {
    seq(|lines|, i requires 0 <= i < |lines| => PairOf(lines[i]))
  }

  lemma GoodCons(lines: seq<string>, done: seq<Pair>)
    requires lines != []
    ensures GoodLines(lines) <==> GoodLine(lines[0]) && GoodLines(lines[1..])
    ensures GoodLines(lines) ==> done + PairsOf(lines) == done + [PairOf(lines[0])] + PairsOf(lines[1..])
  {
    if GoodLine(lines[0]) && GoodLines(lines[1..]) {
      forall i | 0 <= i < |lines| ensures GoodLine(lines[i]) {
        if i > 0 { assert lines[1..][i - 1] == lines[i]; }
      }
    }
  }

  lemma {:induction false} FoldSpec(lines: seq<string>, done: seq<Pair>)
    ensures KvFold(lines, LastWins(done)).Success? <==> GoodLines(lines)
    ensures GoodLines(lines) ==> KvFold(lines, LastWins(done)) == Success(LastWins(done + PairsOf(lines)))
    decreases |lines|
  {
    if lines == [] {
      assert GoodLines(lines) ==> done + PairsOf(lines) == done;
    } else {
      LineSpec(lines[0]);
      GoodCons(lines, done);
      if GoodLine(lines[0]) {
        var pair := PairOf(lines[0]);
        assert (done + [pair])[..|done|] == done;
        FoldSpec(lines[1..], done + [pair]);
      }
    }
  }

  lemma KvSpec(text: string)
    ensures var lines := NonEmpty(Split(text, '\n'));
            && (KvResp(text).Success? <==> GoodLines(lines))
            && (GoodLines(lines) ==> KvResp(text) == Success(LastWins(PairsOf(lines))))
  {
    var lines := NonEmpty(Split(text, '\n'));
    FoldSpec(lines, []);
    if GoodLines(lines) {
      assert [] + PairsOf(lines) == PairsOf(lines);
    }
  }

  lemma KeyValueDispatch(req: Command, resp: string)
    requires IsKeyValue(req) && !(IsBss(req) && Strip(resp) == "")
    ensures Resp(req, resp) == AsPairs(KvResp(Strip(resp)))
  {
  }

  /** For any text: decoding succeeds exactly when every nonempty line has
      exactly one `=` behind a key of at most 255 characters, and then gives the
      last-wins map of the lines. */
  lemma KeyValueSpec(req: Command, resp: string)
    requires IsKeyValue(req) && !(IsBss(req) && Strip(resp) == "")
    ensures var lines := NonEmpty(Split(Strip(resp), '\n'));
            && (Resp(req, resp).Success? <==> GoodLines(lines))
            && (GoodLines(lines) ==>
                  && Resp(req, resp) == Success(Pairs(LastWins(PairsOf(lines))))
                  && IsLastWins(LastWins(PairsOf(lines)), PairsOf(lines)))
  {
    var lines := NonEmpty(Split(Strip(resp), '\n'));
    KeyValueDispatch(req, resp);
    KvSpec(Strip(resp));
    if GoodLines(lines) {
      LastWinsSpec(PairsOf(lines));
    }
  }

  // ------------------------------------------------------- rendered key/value blocks

  /** A key and the text of its value, as they are printed. */
  datatype Entry = Entry(key: string, text: string)

  function Line(e: Entry): string {
    e.key + "=" + e.text
  }

  function Render(es: seq<Entry>): string {
    if es == [] then "" else Line(es[0]) + "\n" + Render(es[1..])
  }

  predicate WellFormedEntry(e: Entry) {
    '=' !in e.key && '\n' !in e.key && |e.key| <= 255 && '=' !in e.text && '\n' !in e.text
  }

  /** The first key is out of reach of stripping the response. */
  predicate WellFormedBlock(es: seq<Entry>) {
    && (forall i :: 0 <= i < |es| ==> WellFormedEntry(es[i]))
    && (es != [] && es[0].key != "" ==> es[0].key[0] !in WHITESPACE)
  }

  /** The pairs a block stands for. */
  function Decoded(es: seq<Entry>): seq<Pair> {
    seq(|es|, i requires 0 <= i < |es| => (es[i].key, KvValue(RStrip(es[i].text))))
  }

  function Lines(es: seq<Entry>): seq<string> {
    seq(|es|, i requires 0 <= i < |es| => Line(es[i]))
  }

  lemma {:induction false} RenderIsJoin(es: seq<Entry>)
    requires es != []
    ensures Render(es) == Join(Lines(es), '\n') + "\n"
  {
    assert Lines(es)[1..] == Lines(es[1..]);
    if |es| > 1 {
      RenderIsJoin(es[1..]);
    }
  }

  /** The end of the last piece is the end of the joined text. */
  lemma {:induction false} JoinEnd(ps: seq<string>, q: string, r: string, c: char)
    requires q != ""
    ensures Join(ps + [q + r], c) == Join(ps + [q], c) + r
    ensures var j := Join(ps + [q], c); j != "" && j[|j| - 1] == q[|q| - 1]
  {
    if ps == [] {
      assert ps + [q + r] == [q + r] && ps + [q] == [q];
    } else {
      JoinEnd(ps[1..], q, r, c);
      assert (ps + [q + r])[1..] == ps[1..] + [q + r];
      assert (ps + [q])[1..] == ps[1..] + [q];
    }
  }

  lemma {:induction false} NonEmptyAll(ps: seq<string>)
    requires forall i :: 0 <= i < |ps| ==> ps[i] != ""
    ensures NonEmpty(ps) == ps
  {
    if ps != [] {
      NonEmptyAll(ps[1..]);
    }
  }

  lemma TrimOnce(s: string, cs: set<char>)
    ensures TrimRight(TrimRight(s, cs), cs) == TrimRight(s, cs)
    ensures forall c :: c !in s ==> c !in TrimRight(s, cs)
  {
    TrimRightSpec(s, cs);
    TrimsNothing(TrimRight(s, cs), cs);
  }

  lemma PairOfLine(e: Entry)
    requires WellFormedEntry(e)
    ensures GoodLine(Line(e)) && PairOf(Line(e)) == (e.key, KvValue(RStrip(e.text)))
    ensures Line(e) != "" && '\n' !in Line(e)
  {
    IndexAfter(e.key, '=', e.text);
    IndexNone(e.text, '=');
    CountFrom(Line(e), '=');
    CountFrom(e.text, '=');
  }

  /** A block whose last value has lost its trailing whitespace. */
  function Trimmed(es: seq<Entry>): (ts: seq<Entry>)
    requires es != []
    ensures |ts| == |es|
  {
    es[|es| - 1 := es[|es| - 1].(text := RStrip(es[|es| - 1].text))]
  }

  /** Stripping a block takes away the last newline and what whitespace precedes it. */
  lemma StripRender(es: seq<Entry>)
    requires es != [] && WellFormedBlock(es)
    ensures Strip(Render(es)) == Join(Lines(Trimmed(es)), '\n')
  {
    var front, last := Lines(es[..|es| - 1]), es[|es| - 1];
    var head := last.key + "=";
    RenderIsJoin(es);
    assert Lines(es) == front + [head + last.text];
    assert Lines(Trimmed(es)) == front + [head + RStrip(last.text)];
    JoinEnd(front, head, last.text, '\n');
    JoinEnd(front, head, RStrip(last.text), '\n');
    var j := Join(front + [head], '\n');
    assert Render(es) == j + (last.text + "\n");
    TrimRightBehind(j, last.text + "\n", WHITESPACE);
    TrimRightIgnores(last.text, "\n", WHITESPACE);
    assert Render(es)[0] == Line(es[0])[0];
  }

  lemma TrimmedBlock(es: seq<Entry>)
    requires es != [] && WellFormedBlock(es)
    ensures WellFormedBlock(Trimmed(es)) && Decoded(Trimmed(es)) == Decoded(es)
  {
    TrimOnce(es[|es| - 1].text, WHITESPACE);
  }

  lemma LinesOfBlock(es: seq<Entry>)
    requires es != [] && WellFormedBlock(es)
    ensures NonEmpty(Split(Join(Lines(es), '\n'), '\n')) == Lines(es)
    ensures GoodLines(Lines(es)) && PairsOf(Lines(es)) == Decoded(es)
  {
    forall i | 0 <= i < |es|
      ensures GoodLine(Lines(es)[i]) && PairOf(Lines(es)[i]) == Decoded(es)[i]
      ensures Lines(es)[i] != "" && '\n' !in Lines(es)[i]
    {
      PairOfLine(es[i]);
    }
    SplitJoin(Lines(es), '\n');
    NonEmptyAll(Lines(es));
  }

  /** Round trip: a printed block of entries decodes to the last-wins map of
      the decoded values, for every list of entries. */
  lemma RenderRoundTrip(req: Command, es: seq<Entry>)
    requires IsKeyValue(req) && es != [] && WellFormedBlock(es)
    ensures Resp(req, Render(es)) == Success(Pairs(LastWins(Decoded(es))))
    ensures IsLastWins(LastWins(Decoded(es)), Decoded(es))
  {
    StripRender(es);
    TrimmedBlock(es);
    LinesOfBlock(Trimmed(es));
    PairOfLine(Trimmed(es)[0]);
    JoinNonEmpty(Lines(Trimmed(es)), '\n');
    KeyValueSpec(req, Render(es));
  }

  lemma JoinNonEmpty(ps: seq<string>, c: char)
    requires ps != [] && ps[0] != ""
    ensures Join(ps, c) != ""
  {
  }

  /** The empty block: an empty map, or no BSS at all. */
  lemma EmptyBlock(req: Command)
    requires IsKeyValue(req)
    ensures Resp(req, Render([])) == Success(if IsBss(req) then NoBss else Pairs(map[]))
  {
    assert Split("", '\n') == [""];
    assert NonEmpty([""]) == [];
  }

  // ---------------------------------------------------------------- notifications

  function Dashes(k: nat): string {
    if k == 0 then "" else "-" + Dashes(k - 1)
  }

  predicate StartsPiece(s: string) {
    s == "" || s[0] != '-'
  }

  lemma {:induction false} TrimDashes(k: nat, s: string)
    requires StartsPiece(s)
    ensures TrimLeft(Dashes(k) + s, {'-'}) == s
  {
    if k == 0 {
      assert "" + s == s;
    } else {
      assert (Dashes(k) + s)[1..] == Dashes(k - 1) + s;
      TrimDashes(k - 1, s);
    }
  }

  lemma {:induction false} LeadingDashes(s: string) returns (k: nat)
    ensures s == Dashes(k) + TrimLeft(s, {'-'}) && StartsPiece(TrimLeft(s, {'-'}))
  {
    if StartsPiece(s) {
      k := 0;
      assert Dashes(0) + s == s;
    } else {
      var k' := LeadingDashes(s[1..]);
      k := k' + 1;
      assert s == "-" + s[1..];
    }
  }

  predicate Piece(s: string) {
    s != "" && '-' !in s
  }

  /** A prompt as it is printed; dashes in front of the field or the id are skipped. */
  function PromptText(a: nat, field: string, b: nat, idText: string, text: string): string {
    Dashes(a) + (field + "-" + (Dashes(b) + (idText + "-" + text)))
  }

  lemma PromptParts(a: nat, field: string, b: nat, idText: string, text: string)
    requires Piece(field) && Piece(idText) && text != ""
    ensures SplitParts(PromptText(a, field, b, idText, text), '-', 3) == [field, idText, text]
  {
    var tail := Dashes(b) + (idText + "-" + text);
    TrimDashes(a, field + "-" + tail);
    IndexAfter(field, '-', tail);
    TrimDashes(b, idText + "-" + text);
    IndexAfter(idText, '-', text);
    assert SplitParts(tail, '-', 2) == [idText, text];
  }

  /** The first of several parts, and what is left behind it. */
  lemma FirstPart(s: string, n: nat) returns (k: nat, piece: string, tail: string)
    requires n > 1 && |SplitParts(s, '-', n)| > 1
    ensures Piece(piece) && s == Dashes(k) + (piece + "-" + tail)
    ensures SplitParts(s, '-', n) == [piece] + SplitParts(tail, '-', n - 1)
  {
    k := LeadingDashes(s);
    var t := TrimLeft(s, {'-'});
    piece, tail := t[..Index(t, '-')], t[Index(t, '-') + 1..];
    CutAtDash(t);
  }

  lemma CutAt(t: string, i: nat)
    requires i < |t|
    ensures t == t[..i] + [t[i]] + t[i + 1..]
  {
  }

  lemma CutAtDash(t: string)
    requires StartsPiece(t) && t != "" && Index(t, '-') < |t|
    ensures var i := Index(t, '-'); Piece(t[..i]) && t == t[..i] + "-" + t[i + 1..]
  {
    var i := Index(t, '-');
    forall j | 0 <= j < i ensures t[..i][j] != '-' {}
    CutAt(t, i);
  }

  /** Only printed prompts split into three parts. */
  lemma PartsArePrompt(rest: string) returns (a: nat, b: nat)
    requires |SplitParts(rest, '-', 3)| == 3
    ensures var ps := SplitParts(rest, '-', 3);
            Piece(ps[0]) && Piece(ps[1]) && ps[2] != "" && rest == PromptText(a, ps[0], b, ps[1], ps[2])
  {
    var field, tail, idText, text;
    a, field, tail := FirstPart(rest, 3);
    b, idText, text := FirstPart(tail, 2);
    assert SplitParts(rest, '-', 3) == [field, idText, text];
  }

  /** The value of a prompt line whose three parts are known. */
  function PromptOf(field: string, idText: string, text: string): Result<Notification> {
    match ToInteger(idText, 10)
    case Some(id) => if |field| <= 246 then Success(Prompt(PROMPT + field, id, text)) else Crash
    case None => Crash
  }

  /** For any text behind `CTRL-REQ-`: it decodes exactly when it is a printed
      prompt with an integer id and a field short enough for an atom, and then
      to the parts of that prompt. */
  lemma PromptExact(rest: string)
    ensures Notif(PROMPT + rest).Success?
       <==> exists a, field, b, idText, text ::
              && Piece(field) && Piece(idText) && text != "" && rest == PromptText(a, field, b, idText, text)
              && PromptOf(field, idText, text).Success?
    ensures forall a, field, b, idText, text {:trigger PromptText(a, field, b, idText, text)}
              | Piece(field) && Piece(idText) && text != "" && rest == PromptText(a, field, b, idText, text)
              :: Notif(PROMPT + rest) == PromptOf(field, idText, text)
  {
    assert (PROMPT + rest)[9..] == rest;
    forall a, field, b, idText, text
      | Piece(field) && Piece(idText) && text != "" && rest == PromptText(a, field, b, idText, text)
      ensures Notif(PROMPT + rest) == PromptOf(field, idText, text)
    {
      PromptParts(a, field, b, idText, text);
    }
    if Notif(PROMPT + rest).Success? {
      var a, b := PartsArePrompt(rest);
      var ps := SplitParts(rest, '-', 3);
      assert rest == PromptText(a, ps[0], b, ps[1], ps[2]);
    }
  }

  /** Round trip of an interactive prompt; its text may itself contain dashes. */
  lemma PromptRoundTrip(field: string, id: nat, text: string)
    requires Piece(field) && text != ""
    ensures Notif("CTRL-REQ-" + field + "-" + IntText(id) + "-" + text)
         == if |field| <= 246 then Success(Prompt("CTRL-REQ-" + field, id, text)) else Crash
  {
    NatTextDigits(id);
    IntTextValue(id);
    var rest := PromptText(0, field, 0, IntText(id), text);
    PlainPrompt(field, IntText(id), text);
    PromptExact(rest);
  }

  lemma PlainPrompt(field: string, idText: string, text: string)
    ensures PROMPT + PromptText(0, field, 0, idText, text) == PROMPT + field + "-" + idText + "-" + text
  {
    var rest := PromptText(0, field, 0, idText, text);
    assert rest == field + "-" + (idText + "-" + text);
    Assoc(PROMPT + field + "-", idText + "-", text);
    Assoc(PROMPT + field + "-", idText, "-");
    Assoc(PROMPT, field + "-", idText + "-" + text);
    Assoc(PROMPT, field, "-");
  }

  lemma BssParts(idText: string, bssid: string)
    requires idText != "" && ' ' !in idText && bssid != "" && ' ' !in bssid
    ensures NonEmpty(Split(" " + idText + " " + bssid, ' ')) == [idText, bssid]
  {
    JoinCons("", [idText, bssid]);
    JoinCons(idText, [bssid]);
    assert " " + idText + " " + bssid == Join([""] + [idText, bssid], ' ');
    SplitJoin([""] + [idText, bssid], ' ');
    NonEmptyAll([idText, bssid]);
    NonEmptyAppend([""], [idText, bssid]);
  }

  /** Round trip of the two BSS events. */
  lemma BssRoundTrip(name: string, id: nat, bssid: string)
    requires name == "CTRL-EVENT-BSS-ADDED" || name == "CTRL-EVENT-BSS-REMOVED"
    requires bssid != "" && ' ' !in bssid
    ensures Notif(name + (" " + IntText(id) + " " + bssid)) == Success(Bss(name, id, bssid))
  {
    var idText := IntText(id);
    NatTextDigits(id);
    IntTextValue(id);
    BssParts(idText, bssid);
    BssDispatch(name, " " + idText + " " + bssid);
  }

  lemma BssDispatch(name: string, rest: string)
    requires name == "CTRL-EVENT-BSS-ADDED" || name == "CTRL-EVENT-BSS-REMOVED"
    ensures Notif(name + rest) == BssEvent(name, rest)
  {
    var s := name + rest;
    assert s[|name|..] == rest && name <= s;
    assert s[5] == 'E' && s[15] == name[15];
    DiffersAt(s, PROMPT, 5);
    if name[15] == 'R' { DiffersAt(s, "CTRL-EVENT-BSS-ADDED", 15); }
  }

  /** A text that differs from a word at one index does not begin with it. */
  lemma DiffersAt(s: string, word: string, i: nat)
    requires i < |word| && (i < |s| ==> s[i] != word[i])
    ensures !(word <= s)
  {
  }

  /** Named events are signalled under their name, without trailing whitespace. */
  lemma SignalRoundTrip(name: string, blanks: string)
    requires "CTRL-EVENT-" <= name || "WPS-" <= name
    requires !("CTRL-EVENT-BSS-" <= name) && !("CTRL-EVENT-CONNECTED" <= name) && !("CTRL-EVENT-DISCONNECTED" <= name)
    requires name[|name| - 1] !in WHITESPACE && AllIn(blanks, WHITESPACE)
    ensures Notif(name + blanks) == if |name| <= 255 then Success(Signal(name)) else Crash
  {
    TrimRightIgnores(name, blanks, WHITESPACE);
    NotSpecial(name, blanks, "CTRL-EVENT-BSS-");
    NotSpecial(name, blanks, "CTRL-EVENT-CONNECTED");
    NotSpecial(name, blanks, "CTRL-EVENT-DISCONNECTED");
    NamedDispatch(name + blanks);
  }

  lemma NamedDispatch(s: string)
    requires "CTRL-EVENT-" <= s || "WPS-" <= s
    requires !("CTRL-EVENT-BSS-" <= s) && !("CTRL-EVENT-CONNECTED" <= s) && !("CTRL-EVENT-DISCONNECTED" <= s)
    ensures Notif(s) == Named(RStrip(s))
  {
    NoLonger(s, "CTRL-EVENT-BSS-", "CTRL-EVENT-BSS-ADDED");
    NoLonger(s, "CTRL-EVENT-BSS-", "CTRL-EVENT-BSS-REMOVED");
    assert s[0] == if "WPS-" <= s then 'W' else 'C';
    if "CTRL-EVENT-" <= s { assert s[5] == 'E' && PROMPT[5] == 'R'; }
    assert !(PROMPT <= s);
  }

  /** Blanks behind a name do not make it begin with a word. */
  lemma NotSpecial(name: string, blanks: string, word: string)
    requires !(word <= name) && AllIn(blanks, WHITESPACE)
    requires word != "" && word[|word| - 1] !in WHITESPACE
    ensures !(word <= name + blanks)
  {
    if |name| < |word| {
      var last := |word| - 1;
      if last < |name + blanks| { assert (name + blanks)[last] == blanks[last - |name|]; }
    } else {
      var i :| 0 <= i < |word| && word[i] != name[i];
      assert (name + blanks)[i] == name[i];
    }
  }

  lemma NoLonger(s: string, a: string, b: string)
    requires a <= b && !(a <= s)
    ensures !(b <= s)
  {
    if |a| <= |s| {
      var i :| 0 <= i < |a| && a[i] != s[i];
      assert b[i] == a[i];
    }
  }
}
