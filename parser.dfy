/** parsePointsInput: whitespace-separated "x,y" tokens, validated one by one. */
module PointsParser {
  import opened Text
  import opened Layout

  datatype Option<T> = None | Some(value: T)

  const MaxInputLength: nat := 50000
  const MaxPoints: nat := 1000
  const MaxX: real := 2000.0
  const MaxY: real := 5000.0

  /**
   * The error messages of parsePointsInput, by kind: input over 50000
   * characters, a token beyond the 1000th accepted point, a token that is not
   * a number pair (with its 1-based position), a pair outside the ranges.
   */
  datatype ParseError =
    | TooLong
    | TooManyPoints
    | Malformed(token: string, position: nat)
    | OutOfRange(token: string)

  /** The `{ pts, errors }` object parsePointsInput returns. */
  datatype Parsed = Parsed(pts: seq<Point>, errors: seq<ParseError>)

  // ---------------------------------------------------------------------
  // Tokens

  /** The input is empty or whitespace only. */
  predicate IsBlank(s: string)
  {
    forall i :: 0 <= i < |s| ==> IsSpace(s[i])
  }

  predicate IsWord(t: string)
  {
    t != [] && forall i :: 0 <= i < |t| ==> !IsSpace(t[i])
  }

  /** Length of the run of non-space characters that starts `s`. */
  function WordLength(s: string): (n: nat)
    ensures n <= |s|
    ensures forall i :: 0 <= i < n ==> !IsSpace(s[i])
    ensures n < |s| ==> IsSpace(s[n])
  {
    if s == [] || IsSpace(s[0]) then 0 else 1 + WordLength(s[1..])
  }

  /**
   * `raw.trim().split(/\s+/)` of a non-blank input: the maximal runs of
   * non-space characters, in order.
   */
  function Tokens(s: string): (ts: seq<string>)
    ensures forall k :: 0 <= k < |ts| ==> IsWord(ts[k])
    decreases |s|
  {
    if s == [] then []
    else if IsSpace(s[0]) then Tokens(s[1..])
    else
      var n := WordLength(s);
      [s[..n]] + Tokens(s[n..])
  }

  lemma {:induction false} TokensOfBlank(s: string)
    ensures IsBlank(s) <==> Tokens(s) == []
    decreases |s|
  {
    if s != [] && IsSpace(s[0]) {
      TokensOfBlank(s[1..]);
      assert IsBlank(s) <==> IsBlank(s[1..]) by {
        assert forall i :: 0 < i < |s| ==> s[i] == s[1..][i - 1];
      }
    }
  }

  /** A single word is a single token. */
  lemma TokensOfWord(w: string)
    requires IsWord(w)
    ensures Tokens(w) == [w]
  {
    assert WordLength(w) == |w|;
    assert w[..|w|] == w;
  }

  /** A leading whitespace character is skipped. */
  lemma TokensSkipSpace(c: char, s: string)
    requires IsSpace(c)
    ensures Tokens([c] + s) == Tokens(s)
  {
    assert ([c] + s)[1..] == s;
  }

  /** A word followed by a whitespace character is the first token. */
  lemma TokensOfWordThen(w: string, c: char, s: string)
    requires IsWord(w) && IsSpace(c)
    ensures Tokens(w + [c] + s) == [w] + Tokens([c] + s)
  {
    var t := w + [c] + s;
    assert WordLength(t) == |w| by {
      assert t[|w|] == c;
    }
    assert t[..|w|] == w;
    assert t[|w|..] == [c] + s;
  }

  // ---------------------------------------------------------------------
  // Numbers

  predicate AllDigits(s: string)
  {
    forall i :: 0 <= i < |s| ==> IsDigit(s[i])
  }

  function DigitsValue(s: string): nat
    requires AllDigits(s)
  {
    if s == [] then 0 else DigitsValue(s[..|s| - 1]) * 10 + (s[|s| - 1] as int - '0' as int)
  }

  function Pow10(n: nat): (p: nat)
    ensures p > 0
  {
    if n == 0 then 1 else 10 * Pow10(n - 1)
  }

  /** The value of the decimal with digits `whole` before the point and `frac` after it. */
  function DecimalValue(whole: string, frac: string): real
    requires AllDigits(whole) && AllDigits(frac)
  {
    DigitsValue(whole) as real + DigitsValue(frac) as real / Pow10(|frac|) as real
  }

  /**
   * A token part matching `-?\d+(\.\d+)?`, read as an exact decimal: an
   * optional minus sign, digits, and optionally a dot followed by digits.
   */
  function ParseNumber(s: string): (r: Option<real>)
    ensures r.Some? ==> s != [] && IsDigit(s[|s| - 1])
    ensures r.Some? ==> forall i :: 0 <= i < |s| ==> IsDigit(s[i]) || s[i] == '.' || (i == 0 && s[i] == '-')
    ensures r.Some? && s[0] != '-' ==> r.value >= 0.0
  {
    var neg := |s| > 0 && s[0] == '-';
    var body := if neg then s[1..] else s;
    var dot := Find(body, '.');
    var whole := body[..dot];
    var frac := if dot < |body| then body[dot + 1..] else [];
    if whole == [] || !AllDigits(whole) then None
    else if dot < |body| && (frac == [] || !AllDigits(frac)) then None
    else
      assert forall i :: 0 <= i < |body| ==> IsDigit(body[i]) || body[i] == '.' by {
        forall i | 0 <= i < |body| ensures IsDigit(body[i]) || body[i] == '.' {
          if i < dot {
            assert body[i] == whole[i];
          } else if i > dot {
            assert body[i] == frac[i - dot - 1];
          }
        }
      }
      assert IsDigit(body[|body| - 1]) by {
        if dot < |body| {
          assert body[|body| - 1] == frac[|frac| - 1];
        } else {
          assert body[|body| - 1] == whole[|whole| - 1];
        }
      }
      assert neg ==> forall i :: 1 <= i < |s| ==> s[i] == body[i - 1];
      var magnitude := DecimalValue(whole, frac);
      Some(if neg then -magnitude else magnitude)
  }

  /** A comma with none before it and none in a number after it is the only one. */
  lemma OneComma(t: string, comma: nat)
    requires comma < |t| && t[comma] == ','
    requires forall j :: 0 <= j < comma ==> t[j] != ','
    requires forall j :: comma < j < |t| ==> IsDigit(t[j]) || t[j] == '.' || (j == comma + 1 && t[j] == '-')
    ensures multiset(t)[','] == 1
  {
    assert t == t[..comma] + [','] + t[comma + 1..];
    assert ',' !in t[..comma];
    assert ',' !in t[comma + 1..] by {
      var right := t[comma + 1..];
      forall i | 0 <= i < |right| ensures right[i] != ',' {
        assert right[i] == t[comma + 1 + i];
      }
    }
  }

  /** A token matching `^(-?\d+(\.\d+)?),(-?\d+(\.\d+)?)$`, read as a point. */
  function ParsePair(t: string): (r: Option<Point>)
    ensures r.Some? ==> multiset(t)[','] == 1
  {
    var comma := Find(t, ',');
    if comma == |t| then None
    else
      match (ParseNumber(t[..comma]), ParseNumber(t[comma + 1..]))
      case (Some(x), Some(y)) =>
        OneComma(t, comma);
        Some(Point(x, y))
      case _ => None
  }

  /** Digits alone, and digits after a minus sign, read as that whole number. */
  lemma ParseNumberOfDigits(d: string)
    requires d != [] && AllDigits(d)
    ensures ParseNumber(d) == Some(DigitsValue(d) as real)
    ensures ParseNumber("-" + d) == Some(-(DigitsValue(d) as real))
  {
    UnsignedDigits(d);
    var s := "-" + d;
    assert s[0] == '-' && s[1..] == d;
  }

  /** Digits alone read as their whole number. */
  lemma UnsignedDigits(d: string)
    requires d != [] && AllDigits(d)
    ensures Find(d, '.') == |d| && d[..|d|] == d
    ensures DecimalValue(d, []) == DigitsValue(d) as real
    ensures ParseNumber(d) == Some(DigitsValue(d) as real)
  {
    FindNone(d, '.');
    assert d[..|d|] == d;
    assert DigitsValue([]) == 0 && Pow10(0) == 1;
  }

  /** A character that does not occur is found at the end. */
  lemma FindNone(s: string, c: char)
    requires forall j :: 0 <= j < |s| ==> s[j] != c
    ensures Find(s, c) == |s|
  {
  }

  /** Digits, a dot and digits read as the whole part plus the fraction. */
  lemma ParseNumberOfFraction(w: string, f: string)
    requires w != [] && AllDigits(w) && f != [] && AllDigits(f)
    ensures ParseNumber(w + "." + f) == Some(DecimalValue(w, f))
    ensures DecimalValue(w, f) == DigitsValue(w) as real + DigitsValue(f) as real / Pow10(|f|) as real
  {
    var s := w + "." + f;
    assert s[0] == w[0];
    FindAt(s, '.', |w|);
    assert s[..|w|] == w;
    assert s[|w| + 1..] == f;
  }

  /** The first `c` of `s` is at `k` when `s[k]` is `c` and no earlier character is. */
  lemma FindAt(s: string, c: char, k: nat)
    requires k < |s| && s[k] == c
    requires forall j :: 0 <= j < k ==> s[j] != c
    ensures Find(s, c) == k
  {
  }

  /** Two signless whole numbers around a comma read as that point. */
  lemma ParsePairOfDigits(a: string, b: string)
    requires a != [] && AllDigits(a) && b != [] && AllDigits(b)
    ensures ParsePair(a + "," + b) == Some(Point(DigitsValue(a) as real, DigitsValue(b) as real))
  {
    var t := a + "," + b;
    FindAt(t, ',', |a|);
    assert t[..|a|] == a;
    assert t[|a| + 1..] == b;
    ParseNumberOfDigits(a);
    ParseNumberOfDigits(b);
  }

  /** A minus sign, digits, a dot and digits read as the negated decimal. */
  lemma ParseNumberOfNegFraction(w: string, f: string)
    requires w != [] && AllDigits(w) && f != [] && AllDigits(f)
    ensures ParseNumber("-" + w + "." + f) == Some(-DecimalValue(w, f))
  {
    var s := "-" + w + "." + f;
    assert s[0] == '-' && s[1..] == w + "." + f;
    ParseNumberOfFraction(w, f);
  }

  /**
   * What ParseNumber accepts is `-?\d+(\.\d+)?`: after the optional minus
   * sign the number starts with a digit and holds at most one dot (with the
   * character classes and the final digit of its own contract).
   */
  lemma ParseNumberSound(s: string)
    requires ParseNumber(s).Some?
    ensures var body := if s[0] == '-' then s[1..] else s;
      body != [] && IsDigit(body[0]) && multiset(body)['.'] <= 1
  {
    var body := if s[0] == '-' then s[1..] else s;
    var dot := Find(body, '.');
    var whole := body[..dot];
    assert whole != [] && AllDigits(whole);
    assert body[0] == whole[0];
    if dot < |body| {
      var frac := body[dot + 1..];
      assert AllDigits(frac);
      forall j | 0 <= j < |body| && j != dot ensures IsDigit(body[j]) {
        if j < dot {
          assert body[j] == whole[j];
        } else {
          assert body[j] == frac[j - dot - 1];
        }
      }
      OneDot(body, dot);
    } else {
      FindNoneCount(body, '.');
    }
  }

  /** A dot at `dot` and digits everywhere else make exactly one dot. */
  lemma OneDot(body: string, dot: nat)
    requires dot < |body| && body[dot] == '.'
    requires forall j :: 0 <= j < |body| && j != dot ==> IsDigit(body[j])
    ensures multiset(body)['.'] == 1
  {
    var left, right := body[..dot], body[dot + 1..];
    assert body == left + ['.'] + right;
    assert '.' !in left by {
      forall i | 0 <= i < |left| ensures left[i] != '.' {
        assert left[i] == body[i];
      }
    }
    assert '.' !in right by {
      forall i | 0 <= i < |right| ensures right[i] != '.' {
        assert right[i] == body[dot + 1 + i];
      }
    }
  }

  /** When Find reaches the end, the character does not occur. */
  lemma FindNoneCount(body: string, c: char)
    requires Find(body, c) == |body|
    ensures multiset(body)[c] == 0
  {
    assert c !in body;
  }

  /** A token without a comma is no pair. */
  lemma ParsePairNoComma(t: string)
    requires ',' !in t
    ensures ParsePair(t) == None
  {
    FindNone(t, ',');
  }

  /**
   * Around its first comma, a token is a pair exactly when both sides read
   * as numbers, and the point is those two numbers.
   */
  lemma ParsePairSplit(a: string, b: string)
    requires ',' !in a
    ensures ParsePair(a + "," + b) ==
      if ParseNumber(a).Some? && ParseNumber(b).Some? then Some(Point(ParseNumber(a).value, ParseNumber(b).value))
      else None
  {
    var t := a + "," + b;
    forall j | 0 <= j < |a| ensures t[j] != ',' {
      assert t[j] == a[j];
    }
    FindAt(t, ',', |a|);
    assert t[..|a|] == a;
    assert t[|a| + 1..] == b;
  }

  predicate InRange(p: Point)
  {
    0.0 <= p.x <= MaxX && 0.0 <= p.y <= MaxY
  }

  /**
   * A point the encoder plots on column `idx` and row `row` passes the range
   * check only for the first 50 columns and the first 205 rows.
   */
  lemma PlottedPointInRange(idx: nat, row: nat)
    ensures InRange(Point(ColX(idx), RowY(row))) <==> idx <= 49 && row <= 204
  {
  }

  // ---------------------------------------------------------------------
  // The token loop

  /** What the `forEach` callback does with token `t` at 0-based `index`. */
  function Step(acc: Parsed, t: string, index: nat): Parsed
  {
    if |acc.pts| >= MaxPoints then Parsed(acc.pts, acc.errors + [TooManyPoints])
    else
      match ParsePair(t)
      case None => Parsed(acc.pts, acc.errors + [Malformed(t, index + 1)])
      case Some(p) =>
        if !InRange(p) then Parsed(acc.pts, acc.errors + [OutOfRange(t)])
        else Parsed(acc.pts + [p], acc.errors)
  }

  /** A well-formed in-range token below the cap appends its point. */
  lemma StepAccepts(acc: Parsed, t: string, index: nat, p: Point)
    requires |acc.pts| < MaxPoints && ParsePair(t) == Some(p) && InRange(p)
    ensures Step(acc, t, index) == Parsed(acc.pts + [p], acc.errors)
  {
  }

  /** A malformed token below the cap appends an error with its 1-based position. */
  lemma StepRejectsMalformed(acc: Parsed, t: string, index: nat)
    requires |acc.pts| < MaxPoints && ParsePair(t) == None
    ensures Step(acc, t, index) == Parsed(acc.pts, acc.errors + [Malformed(t, index + 1)])
  {
  }

  /** The result of the `forEach` over `ts`. */
  function ParseTokens(ts: seq<string>): Parsed
  {
    if ts == [] then Parsed([], [])
    else Step(ParseTokens(ts[..|ts| - 1]), ts[|ts| - 1], |ts| - 1)
  }

  /** What parsePointsInput returns for `raw`. */
  function ParsePoints(raw: string): Parsed
  {
    if |raw| > MaxInputLength then Parsed([], [TooLong])
    else if IsBlank(raw) then Parsed([], [])
    else ParseTokens(Tokens(raw))
  }

  /** The points of the tokens that parse and are in range, in token order. */
  function Accepted(ts: seq<string>): seq<Point>
  {
    if ts == [] then []
    else
      var t := ts[|ts| - 1];
      Accepted(ts[..|ts| - 1]) + (if ParsePair(t).Some? && InRange(ParsePair(t).value) then [ParsePair(t).value] else [])
  }

  /** One more token is one more step of the `forEach`. */
  lemma ParseTokensAppend(ts: seq<string>, t: string)
    ensures ParseTokens(ts + [t]) == Step(ParseTokens(ts), t, |ts|)
  {
    assert (ts + [t])[..|ts|] == ts;
  }

  /** Every token gives exactly one point or one error. */
  lemma {:induction false} ParseTokensAccounting(ts: seq<string>)
    ensures |ParseTokens(ts).pts| + |ParseTokens(ts).errors| == |ts|
  {
    if ts != [] {
      ParseTokensAccounting(ts[..|ts| - 1]);
    }
  }

  /** At most 1000 points are accepted, each in range. */
  lemma {:induction false} ParseTokensBounds(ts: seq<string>)
    ensures |ParseTokens(ts).pts| <= MaxPoints
    ensures forall k :: 0 <= k < |ParseTokens(ts).pts| ==> InRange(ParseTokens(ts).pts[k])
  {
    if ts != [] {
      var init := ts[..|ts| - 1];
      ParseTokensBounds(init);
      StepKeepsBounds(ParseTokens(init), ts[|ts| - 1], |ts| - 1);
    }
  }

  /** One step keeps at most 1000 points, all in range. */
  lemma StepKeepsBounds(acc: Parsed, t: string, index: nat)
    requires |acc.pts| <= MaxPoints
    requires forall k :: 0 <= k < |acc.pts| ==> InRange(acc.pts[k])
    ensures |Step(acc, t, index).pts| <= MaxPoints
    ensures forall k :: 0 <= k < |Step(acc, t, index).pts| ==> InRange(Step(acc, t, index).pts[k])
  {
  }

  /** The points are those of the accepted tokens, in token order, cut at 1000. */
  lemma {:induction false} ParseTokensOrder(ts: seq<string>)
    ensures ParseTokens(ts).pts == if |Accepted(ts)| > MaxPoints then Accepted(ts)[..MaxPoints] else Accepted(ts)
  {
    if ts != [] {
      ParseTokensOrder(ts[..|ts| - 1]);
    }
  }

  /**
   * parsePointsInput: over-long input gives one error and no points, blank
   * input gives nothing, otherwise the token facts above hold, and no
   * errors means one point per token.
   */
  lemma ParsePointsFacts(raw: string)
    ensures |raw| > MaxInputLength ==> ParsePoints(raw) == Parsed([], [TooLong])
    ensures |raw| <= MaxInputLength && IsBlank(raw) ==> ParsePoints(raw) == Parsed([], [])
    ensures |ParsePoints(raw).pts| <= MaxPoints
    ensures forall k :: 0 <= k < |ParsePoints(raw).pts| ==> InRange(ParsePoints(raw).pts[k])
    ensures |raw| <= MaxInputLength && ParsePoints(raw).errors == [] ==> |ParsePoints(raw).pts| == |Tokens(raw)|
  {
    TokensOfBlank(raw);
    ParseTokensAccounting(Tokens(raw));
    ParseTokensBounds(Tokens(raw));
  }

  /** The `forEach` callback: one token appends one point or one error. */
  method ProcessToken(pts: seq<Point>, errors: seq<ParseError>, t: string, index: nat)
    returns (pts': seq<Point>, errors': seq<ParseError>)
    ensures Parsed(pts', errors') == Step(Parsed(pts, errors), t, index)
  {
    pts', errors' := pts, errors;
    if |pts| >= MaxPoints {
      errors' := errors + [TooManyPoints];
      return;
    }
    var m := ParsePair(t);
    if m.None? {
      errors' := errors + [Malformed(t, index + 1)];
      return;
    }
    if !InRange(m.value) {
      errors' := errors + [OutOfRange(t)];
      return;
    }
    pts' := pts + [m.value];
  }

  /** The `forEach` over the tokens, written as a loop. */
  method ProcessTokens(tokens: seq<string>) returns (pts: seq<Point>, errors: seq<ParseError>)
    ensures Parsed(pts, errors) == ParseTokens(tokens)
  {
    pts, errors := [], [];
    var index := 0;
    while index < |tokens|
      invariant 0 <= index <= |tokens|
      invariant Parsed(pts, errors) == ParseTokens(tokens[..index])
    {
      pts, errors := ProcessToken(pts, errors, tokens[index], index);
      ParseTokensAppend(tokens[..index], tokens[index]);
      assert tokens[..index + 1] == tokens[..index] + [tokens[index]];
      index := index + 1;
    }
    assert tokens[..|tokens|] == tokens;
  }

  /** parsePointsInput: the length and blank checks, then the token loop. */
  method ParsePointsInput(raw: string) returns (pts: seq<Point>, errors: seq<ParseError>)
    ensures Parsed(pts, errors) == ParsePoints(raw)
  {
    pts, errors := [], [];
    if |raw| > MaxInputLength {
      errors := [TooLong];
      return;
    }
    var tokens := Tokens(raw);
    if IsBlank(raw) {
      return;
    }
    pts, errors := ProcessTokens(tokens);
  }
}
