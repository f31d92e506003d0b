/** parsePointsInput on the input "10,20 abc 30,40". */
module ParserExamples {
  import opened Text
  import opened Layout
  import opened PointsParser

  /** Three words separated by single spaces are three tokens. */
  lemma TokensOfThreeWords(a: string, b: string, c: string)
    requires IsWord(a) && IsWord(b) && IsWord(c)
    ensures Tokens(a + " " + (b + " " + c)) == [a, b, c]
  {
    TokensOfWordThen(a, ' ', b + " " + c);
    TokensSkipSpace(' ', b + " " + c);
    TokensOfWordThen(b, ' ', c);
    TokensSkipSpace(' ', c);
    TokensOfWord(c);
  }

  lemma TokensExample()
    ensures Tokens("10,20 abc 30,40") == ["10,20", "abc", "30,40"]
  {
    assert "10,20 abc 30,40" == "10,20" + " " + ("abc" + " " + "30,40");
    assert IsWord("10,20") && IsWord("abc") && IsWord("30,40");
    TokensOfThreeWords("10,20", "abc", "30,40");
  }

  /** A two-digit token part reads as its decimal value. */
  lemma TwoDigitNumber(s: string, v: nat)
    requires |s| == 2 && IsDigit(s[0]) && IsDigit(s[1])
    requires v == (s[0] as int - '0' as int) * 10 + (s[1] as int - '0' as int)
    ensures ParseNumber(s) == Some(v as real)
  {
    assert s[0] != '-';
    assert Find(s, '.') == 2;
    assert s[..2] == s;
    assert AllDigits(s);
    assert s[..1][..0] == [];
    assert DigitsValue(s[..1]) == s[0] as int - '0' as int;
    assert DigitsValue(s) == v;
    assert DigitsValue([]) == 0 && Pow10(0) == 1;
  }

  lemma FirstPair()
    ensures ParsePair("10,20") == Some(Point(10.0, 20.0))
  {
    var t := "10,20";
    assert Find(t, ',') == 2;
    assert t[..2] == "10" && t[3..] == "20";
    TwoDigitNumber("10", 10);
    TwoDigitNumber("20", 20);
  }

  lemma LastPair()
    ensures ParsePair("30,40") == Some(Point(30.0, 40.0))
  {
    var t := "30,40";
    assert Find(t, ',') == 2;
    assert t[..2] == "30" && t[3..] == "40";
    TwoDigitNumber("30", 30);
    TwoDigitNumber("40", 40);
  }

  lemma WordIsNoPair()
    ensures ParsePair("abc") == None
  {
    assert Find("abc", ',') == 3;
  }

  lemma ParseTokensFirstGood(a: string, pa: Point)
    requires ParsePair(a) == Some(pa) && InRange(pa)
    ensures ParseTokens([a]) == Parsed([pa], [])
  {
    var empty: seq<string> := [];
    ParseTokensAppend(empty, a);
    assert empty + [a] == [a];
    StepAccepts(Parsed([], []), a, 0, pa);
    var noPoints: seq<Point> := [];
    assert noPoints + [pa] == [pa];
  }

  lemma ParseTokensSecondBad(a: string, b: string, pa: Point)
    requires ParsePair(a) == Some(pa) && InRange(pa)
    requires ParsePair(b) == None
    ensures ParseTokens([a, b]) == Parsed([pa], [Malformed(b, 2)])
  {
    ParseTokensFirstGood(a, pa);
    ParseTokensAppend([a], b);
    assert [a] + [b] == [a, b];
    StepRejectsMalformed(Parsed([pa], []), b, 1);
    var noErrors: seq<ParseError> := [];
    assert noErrors + [Malformed(b, 2)] == [Malformed(b, 2)];
  }

  /** Three tokens, the middle one malformed: two points and one error at position 2. */
  lemma ParseTokensMiddleBad(a: string, b: string, c: string, pa: Point, pc: Point)
    requires ParsePair(a) == Some(pa) && InRange(pa)
    requires ParsePair(b) == None
    requires ParsePair(c) == Some(pc) && InRange(pc)
    ensures ParseTokens([a, b, c]) == Parsed([pa, pc], [Malformed(b, 2)])
  {
    ParseTokensSecondBad(a, b, pa);
    ParseTokensAppend([a, b], c);
    assert [a, b] + [c] == [a, b, c];
    StepAccepts(Parsed([pa], [Malformed(b, 2)]), c, 2, pc);
    assert [pa] + [pc] == [pa, pc];
  }

  /**
   * "10,20 abc 30,40": the two valid pairs are returned AND one error names
   * "abc" at position 2; rejecting the whole input is left to the callers.
   */
  lemma ParseExample()
    ensures ParsePoints("10,20 abc 30,40") == Parsed([Point(10.0, 20.0), Point(30.0, 40.0)], [Malformed("abc", 2)])
  {
    var s := "10,20 abc 30,40";
    TokensExample();
    assert !IsBlank(s) by { assert !IsSpace(s[0]); }
    FirstPair();
    WordIsNoPair();
    LastPair();
    ParseTokensMiddleBad("10,20", "abc", "30,40", Point(10.0, 20.0), Point(30.0, 40.0));
  }
}
