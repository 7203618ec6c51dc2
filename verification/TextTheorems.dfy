/** What the string and integer functions do, said in characters. */
module TextTheorems {
  import opened Sequences
  import opened Strings

  // --------------------------------------------------------------------- stripping

  predicate Blank(c: char) {
    c == ' ' || '\t' <= c <= '\r'
  }

  predicate Blanks(s: string) {
    forall i :: 0 <= i < |s| ==> Blank(s[i])
  }

  lemma WhitespaceExact(c: char)
    ensures c in WHITESPACE <==> Blank(c)
  {
  }

  lemma {:induction false} TrimLeftSpec(s: string, cs: set<char>) returns (k: nat)
    ensures k <= |s| && TrimLeft(s, cs) == s[k..] && AllIn(s[..k], cs) && (k < |s| ==> s[k] !in cs)
  {
    if s != "" && s[0] in cs {
      var k' := TrimLeftSpec(s[1..], cs);
      k := k' + 1;
      assert s[1..][k'..] == s[k..] && s[..k] == [s[0]] + s[1..][..k'];
    } else {
      k := 0;
    }
  }

  lemma BlanksExact(s: string)
    ensures AllIn(s, WHITESPACE) <==> Blanks(s)
  {
    forall i | 0 <= i < |s| ensures s[i] in WHITESPACE <==> Blank(s[i]) {
      WhitespaceExact(s[i]);
    }
  }

  /** Stripping the end takes away the blanks there and nothing else. */
  lemma RStripSpec(s: string) returns (b: string)
    ensures Blanks(b) && s == RStrip(s) + b
    ensures RStrip(s) != "" ==> !Blank(RStrip(s)[|RStrip(s)| - 1])
  {
    TrimRightSpec(s, WHITESPACE);
    b := s[|RStrip(s)|..];
    BlanksExact(b);
    if RStrip(s) != "" { WhitespaceExact(RStrip(s)[|RStrip(s)| - 1]); }
  }

  lemma LStripSpec(s: string) returns (a: string, t: string)
    ensures t == TrimLeft(s, WHITESPACE) && Blanks(a) && s == a + t && (t != "" ==> !Blank(t[0]))
  {
    var k := TrimLeftSpec(s, WHITESPACE);
    a, t := s[..k], s[k..];
    BlanksExact(a);
    if k < |s| { WhitespaceExact(s[k]); }
  }

  /** Stripping takes away the blanks at both ends and nothing else. */
  lemma StripSpec(s: string) returns (a: string, b: string)
    ensures Blanks(a) && Blanks(b) && s == a + Strip(s) + b
    ensures Strip(s) != "" ==> !Blank(Strip(s)[0]) && !Blank(Strip(s)[|Strip(s)| - 1])
  {
    var t;
    a, t := LStripSpec(s);
    b := RStripSpec(t);
    assert Strip(s) == RStrip(t);
    Assoc(a, RStrip(t), b);
    if RStrip(t) != "" { assert t[0] == RStrip(t)[0]; }
  }

  // -------------------------------------------------------------------- splitting

  /** The pieces that are left are those that are not empty. */
  lemma {:induction false} NonEmptySpec(ps: seq<string>, q: string)
    ensures NonEmpty(ps + [q]) == NonEmpty(ps) + (if |q| == 0 then [] else [q])
    ensures NonEmpty([]) == []
  {
    NonEmptyAppend(ps, [q]);
    assert [q][1..] == [];
    assert [q] + [] == [q];
  }

  // --------------------------------------------------------------------- integers

  predicate Digit(c: char) {
    '0' <= c <= '9'
  }

  predicate Digits(s: string) {
    |s| > 0 && forall i :: 0 <= i < |s| ==> Digit(s[i])
  }

  /** The digits with their values; other characters have none below 16. */
  lemma DigitExact(c: char)
    ensures DigitValue(c) ==
              if '0' <= c <= '9' then c as int - 48
              else if 'a' <= c <= 'f' then c as int - 87
              else if 'A' <= c <= 'F' then c as int - 55
              else 99
  {
  }

  /** The value of a decimal numeral. */
  function Decimal(s: string): int {
    if |s| == 0 then 0 else 10 * Decimal(s[..|s| - 1]) + (s[|s| - 1] as int - 48)
  }

  lemma {:induction false} NumeralIsDecimal(s: string)
    ensures IsNumeral(s, 10) <==> Digits(s)
    ensures |s| == 0 || Digits(s) ==> NumeralValue(s, 10) == Decimal(s)
  {
    forall i | 0 <= i < |s| ensures DigitValue(s[i]) < 10 <==> Digit(s[i]) {
      DigitExact(s[i]);
    }
    if |s| > 0 {
      NumeralIsDecimal(s[..|s| - 1]);
      DigitExact(s[|s| - 1]);
    }
  }

  /** What is read as an integer: digits, or a sign and digits. */
  lemma IntegerExact(s: string)
    ensures ToInteger(s, 10) ==
              if Digits(s) then Some(Decimal(s))
              else if |s| > 0 && s[0] == '-' && Digits(s[1..]) then Some(-Decimal(s[1..]))
              else if |s| > 0 && s[0] == '+' && Digits(s[1..]) then Some(Decimal(s[1..]))
              else None
  {
    NumeralIsDecimal(s);
    if |s| > 0 { NumeralIsDecimal(s[1..]); }
  }

  /** The decimal text of a natural number: no zero in front of another digit. */
  predicate IsDecimalText(s: string, n: int) {
    Digits(s) && Decimal(s) == n && (|s| > 1 ==> s[0] != '0')
  }

  lemma {:induction false} DigitsText(n: nat)
    ensures IsDecimalText(NatText(n, 10, LOWER), n)
    ensures n > 0 ==> NatText(n, 10, LOWER)[0] != '0'
  {
    DigitsAreTyped(n % 10);
    if n >= 10 {
      DigitsText(n / 10);
      var s := NatText(n, 10, LOWER);
      assert s[..|s| - 1] == NatText(n / 10, 10, LOWER);
    } else {
      assert NatText(n, 10, LOWER)[..0] == "";
    }
  }

  lemma DigitsAreTyped(d: nat)
    requires d < 10
    ensures LOWER[d] as int == d + 48
  {
  }

  lemma {:induction false} DecimalIsNatural(s: string)
    requires |s| == 0 || Digits(s)
    ensures Decimal(s) >= 0 && (|s| > 0 && s[0] != '0' ==> Decimal(s) > 0)
  {
    if |s| > 1 {
      DecimalIsNatural(s[..|s| - 1]);
    } else if |s| == 1 {
      assert s[..0] == "";
    }
  }

  /** A number has one decimal text. */
  lemma {:induction false} OneDecimalText(s: string, n: nat)
    requires IsDecimalText(s, n)
    ensures s == NatText(n, 10, LOWER)
  {
    var front, last := s[..|s| - 1], s[|s| - 1] as int - 48;
    assert n == 10 * Decimal(front) + last;
    if |s| == 1 {
      assert Decimal(front) == 0;
      DigitsAreTyped(last);
    } else {
      DecimalIsNatural(front);
      OneDecimalText(front, n / 10);
      DigitsAreTyped(last);
      assert s == front + [s[|s| - 1]];
    }
  }

  /** to_string of an integer: its digits, with a minus in front of a negative one. */
  lemma IntTextExact(n: int, s: string)
    ensures s == IntText(n) <==>
              if n >= 0 then IsDecimalText(s, n)
              else |s| > 0 && s[0] == '-' && IsDecimalText(s[1..], -n)
  {
    var m := if n < 0 then -n else n;
    DigitsText(m);
    if n >= 0 {
      if IsDecimalText(s, n) { OneDecimalText(s, n); }
    } else {
      assert IntText(n)[1..] == NatText(m, 10, LOWER);
      if |s| > 0 && s[0] == '-' && IsDecimalText(s[1..], m) {
        OneDecimalText(s[1..], m);
        assert s == "-" + s[1..];
      }
    }
  }
}
