/** The string and integer functions of the Elixir library that the codecs use,
    on ASCII text: a `char` is one byte and one grapheme. */
module Strings {

  datatype Option<+T> = None | Some(value: T)

  // --------------------------------------------------------------------- trimming

  const WHITESPACE: set<char> := {'\t', '\n', '\U{000B}', '\U{000C}', '\r', ' '}

  /** String.rstrip with the characters to remove. */
  function TrimRight(s: string, cs: set<char>): string {
    if s != "" && s[|s| - 1] in cs then TrimRight(s[..|s| - 1], cs) else s
  }

  function TrimLeft(s: string, cs: set<char>): string {
    if s != "" && s[0] in cs then TrimLeft(s[1..], cs) else s
  }

  function RStrip(s: string): string {
    TrimRight(s, WHITESPACE)
  }

  function Strip(s: string): string {
    TrimRight(TrimLeft(s, WHITESPACE), WHITESPACE)
  }

  predicate AllIn(s: string, cs: set<char>) {
    forall i :: 0 <= i < |s| ==> s[i] in cs
  }

  /** The result is the prefix that is followed by characters of `cs` only and does not end in one. */
  lemma {:induction false} TrimRightSpec(s: string, cs: set<char>)
    ensures var r := TrimRight(s, cs);
            && |r| <= |s| && s[..|r|] == r && AllIn(s[|r|..], cs)
            && (r != "" ==> r[|r| - 1] !in cs)
  {
    if s != "" && s[|s| - 1] in cs {
      TrimRightSpec(s[..|s| - 1], cs);
      var r := TrimRight(s, cs);
      assert s[|r|..] == s[..|s| - 1][|r|..] + [s[|s| - 1]];
    }
  }

  /** Characters of `cs` at the end make no difference. */
  lemma {:induction false} TrimRightIgnores(s: string, t: string, cs: set<char>)
    requires AllIn(t, cs)
    ensures TrimRight(s + t, cs) == TrimRight(s, cs)
    decreases |t|
  {
    if t == "" {
      assert s + t == s;
    } else {
      assert (s + t)[..|s + t| - 1] == s + t[..|t| - 1];
      TrimRightIgnores(s, t[..|t| - 1], cs);
    }
  }

  /** What precedes a character that stays is untouched. */
  lemma {:induction false} TrimRightBehind(s: string, t: string, cs: set<char>)
    requires s != "" && s[|s| - 1] !in cs
    ensures TrimRight(s + t, cs) == s + TrimRight(t, cs)
    decreases |t|
  {
    if t == "" {
      assert s + t == s;
    } else if t[|t| - 1] in cs {
      assert (s + t)[..|s + t| - 1] == s + t[..|t| - 1];
      TrimRightBehind(s, t[..|t| - 1], cs);
    }
  }

  // -------------------------------------------------------------------- splitting

  /** The index of the first `c`, or the length. */
  function Index(s: string, c: char): (i: nat)
    ensures i <= |s| && (i < |s| ==> s[i] == c) && forall j :: 0 <= j < i ==> s[j] != c
  {
    if s == "" || s[0] == c then 0 else 1 + Index(s[1..], c)
  }

  /** String.split without options: the pieces between the separators. */
  function Split(s: string, c: char): (ps: seq<string>)
    ensures ps != []
  {
    var i := Index(s, c);
    if i == |s| then [s] else [s[..i]] + Split(s[i + 1..], c)
  }

  function NonEmpty(ps: seq<string>): seq<string> {
    if ps == [] then [] else (if ps[0] == "" then [] else [ps[0]]) + NonEmpty(ps[1..])
  }

  /** String.split(s, c, parts: n, trim: true): separators in front of a piece
      are skipped, but the last part is what is left, as it is. */
  function SplitParts(s: string, c: char, n: nat): seq<string>
    requires n > 0
    decreases n
  {
    if n == 1 then if s == "" then [] else [s]
    else
      var t := TrimLeft(s, {c});
      var i := Index(t, c);
      if t == "" then []
      else if i == |t| then [t]
      else [t[..i]] + SplitParts(t[i + 1..], c, n - 1)
  }

  lemma IndexUnique(s: string, c: char, i: nat)
    requires i <= |s| && (i < |s| ==> s[i] == c) && forall j :: 0 <= j < i ==> s[j] != c
    ensures Index(s, c) == i
  {
  }

  lemma IndexAfter(a: string, c: char, b: string)
    requires c !in a
    ensures Index(a + [c] + b, c) == |a| && (a + [c] + b)[..|a|] == a && (a + [c] + b)[|a| + 1..] == b
  {
    IndexUnique(a + [c] + b, c, |a|);
  }

  lemma IndexNone(a: string, c: char)
    requires c !in a
    ensures Index(a, c) == |a|
  {
    IndexUnique(a, c, |a|);
  }

  function Join(ps: seq<string>, c: char): string
    requires ps != []
  {
    if |ps| == 1 then ps[0] else ps[0] + [c] + Join(ps[1..], c)
  }

  /** Splitting undoes joining of pieces free of the separator. */
  lemma {:induction false} SplitJoin(ps: seq<string>, c: char)
    requires ps != [] && forall i :: 0 <= i < |ps| ==> c !in ps[i]
    ensures Split(Join(ps, c), c) == ps
  {
    if |ps| == 1 {
      IndexNone(ps[0], c);
    } else {
      IndexAfter(ps[0], c, Join(ps[1..], c));
      SplitJoin(ps[1..], c);
    }
  }

  /** Joining undoes splitting, and no piece contains the separator. */
  lemma {:induction false} JoinSplit(s: string, c: char)
    ensures Join(Split(s, c), c) == s
    ensures forall i :: 0 <= i < |Split(s, c)| ==> c !in Split(s, c)[i]
  {
    var i := Index(s, c);
    if i < |s| {
      JoinSplit(s[i + 1..], c);
      assert Split(s, c)[1..] == Split(s[i + 1..], c);
      assert s == s[..i] + [c] + s[i + 1..];
    }
  }

  function Count(s: string, c: char): nat {
    if s == "" then 0 else (if s[0] == c then 1 else 0) + Count(s[1..], c)
  }

  lemma {:induction false} CountFrom(s: string, c: char)
    ensures Index(s, c) == |s| ==> Count(s, c) == 0
    ensures Index(s, c) < |s| ==> Count(s, c) == 1 + Count(s[Index(s, c) + 1..], c)
  {
    if s != "" && s[0] != c {
      CountFrom(s[1..], c);
      var i := Index(s[1..], c);
      if i < |s[1..]| {
        assert s[1..][i + 1..] == s[i + 2..];
      }
    }
  }

  /** One piece more than there are separators. */
  lemma {:induction false} SplitCounts(s: string, c: char)
    ensures |Split(s, c)| == Count(s, c) + 1
  {
    CountFrom(s, c);
    var i := Index(s, c);
    if i < |s| {
      SplitCounts(s[i + 1..], c);
    }
  }

  lemma {:induction false} NonEmptyAppend(ps: seq<string>, qs: seq<string>)
    ensures NonEmpty(ps + qs) == NonEmpty(ps) + NonEmpty(qs)
  {
    if ps == [] {
      assert ps + qs == qs;
    } else {
      assert (ps + qs)[1..] == ps[1..] + qs;
      NonEmptyAppend(ps[1..], qs);
    }
  }

  // --------------------------------------------------------------------- integers

  /** The value of a digit, or 99. */
  function DigitValue(c: char): nat {
    if '0' <= c <= '9' then c as int - '0' as int
    else if 'a' <= c <= 'f' then c as int - 'a' as int + 10
    else if 'A' <= c <= 'F' then c as int - 'A' as int + 10
    else 99
  }

  predicate IsNumeral(s: string, base: nat) {
    s != "" && forall i :: 0 <= i < |s| ==> DigitValue(s[i]) < base
  }

  /** The value of a numeral, most significant digit first. */
  function NumeralValue(s: string, base: nat): nat {
    if s == "" then 0 else NumeralValue(s[..|s| - 1], base) * base + DigitValue(s[|s| - 1])
  }

  /** String.to_integer: one optional sign, then at least one digit. */
  function ToInteger(s: string, base: nat): Option<int> {
    if IsNumeral(s, base) then Some(NumeralValue(s, base))
    else if s != "" && s[0] in "+-" && IsNumeral(s[1..], base) then
      Some(NumeralValue(s[1..], base) as int * if s[0] == '-' then -1 else 1)
    else None
  }

  const LOWER := "0123456789abcdef"
  const UPPER := "0123456789ABCDEF"

  function NatText(n: nat, base: nat, digits: string): string
    requires (base == 10 || base == 16) && |digits| == 16
  {
    if n < base then [digits[n]] else NatText(n / base, base, digits) + [digits[n % base]]
  }

  /** to_string of an integer. */
  function IntText(n: int): string {
    if n < 0 then "-" + NatText(-n, 10, LOWER) else NatText(n, 10, LOWER)
  }

  lemma DigitsHaveValues(d: nat)
    requires d < 16
    ensures DigitValue(LOWER[d]) == d && DigitValue(UPPER[d]) == d
  {
  }

  lemma {:induction false} NatTextValue(n: nat, base: nat, digits: string)
    requires (base == 10 || base == 16) && (digits == LOWER || digits == UPPER)
    ensures IsNumeral(NatText(n, base, digits), base) && NumeralValue(NatText(n, base, digits), base) == n
  {
    if n < base {
      DigitsHaveValues(n);
    } else {
      DigitsHaveValues(n % base);
      NatTextValue(n / base, base, digits);
      assert NatText(n, base, digits)[..|NatText(n, base, digits)| - 1] == NatText(n / base, base, digits);
      assert n == (n / base) * base + n % base;
    }
  }

  /** Leading zeros change nothing. */
  lemma {:induction false} LeadingZero(s: string, base: nat)
    ensures NumeralValue("0" + s, base) == NumeralValue(s, base)
    ensures base > 0 && IsNumeral(s, base) ==> IsNumeral("0" + s, base)
  {
    if s == "" {
      assert "0"[..0] == "";
    } else {
      assert ("0" + s)[..|"0" + s| - 1] == "0" + s[..|s| - 1];
      LeadingZero(s[..|s| - 1], base);
    }
  }

  /** Decimal round trip, for every integer. */
  lemma IntTextValue(n: int)
    ensures ToInteger(IntText(n), 10) == Some(n)
  {
    NatTextValue(if n < 0 then -n else n, 10, LOWER);
    if n < 0 {
      assert IntText(n)[1..] == NatText(-n, 10, LOWER);
      assert DigitValue(IntText(n)[0]) == 99;
    }
  }

  /** Natural numbers print as digits only. */
  lemma NatTextDigits(n: nat)
    ensures IsNumeral(IntText(n), 10)
    ensures forall i :: 0 <= i < |IntText(n)| ==> '0' <= IntText(n)[i] <= '9'
  {
    NatTextValue(n, 10, LOWER);
  }
}
