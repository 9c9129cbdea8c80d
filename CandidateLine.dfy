/**
 * A recommendation line as the catalog formats it, `"- <title> (<year>) <score>"`,
 * and the two local helpers of `RecommendAsync` that read it back:
 * `TitleOnly` (the bare title used for the watched check) and `ParseScore`
 * (the ranking key).
 */
module CandidateLine {
  import opened Wrappers
  import opened Text
  import opened Numbers

  /** The marker a recommendation line starts with. */
  const Marker: string := "- "

  /** The line format the catalog produces. */
  function Format(title: string, year: string, score: string): string {
    Marker + title + " (" + year + ") " + score
  }

  /** `TitleOnly(line)`: for a line starting with "- ", the text after the
      marker up to the first '(', trimmed; any other line unchanged. */
  function TitleOnly(line: string): (title: string)
    ensures !(Marker <= line) ==> title == line
    ensures Marker <= line ==> '(' !in title
    ensures Marker <= line ==> title == [] || (!IsWhiteSpace(title[0]) && !IsWhiteSpace(title[|title| - 1]))
  {
    if Marker <= line then
      var beforeParen := Split(line[|Marker|..], '(')[0];
      assert beforeParen in Split(line[|Marker|..], '(');
      var start := TrimStart(beforeParen, IsWhiteSpace);
      assert '(' !in start by {
        forall i | 0 <= i < |start| ensures start[i] != '(' {
          assert start[i] == beforeParen[|beforeParen| - |start| + i];
        }
      }
      Trim(beforeParen)
    else line
  }

  /** The last `' '`-separated token of a line: `line.Split(' ')[^1]`. */
  function LastToken(line: string): (token: string)
    ensures ' ' !in token
  {
    var parts := Split(line, ' ');
    assert parts[|parts| - 1] in parts;
    parts[|parts| - 1]
  }

  /** `ParseScore(line)`: the last space-separated token as a decimal, or 0
      when it does not parse. */
  function ParseScore(line: string): (score: real)
    ensures score != 0.0 ==> ParseDecimal(LastToken(line)) == Some(score)
  {
    match ParseDecimal(LastToken(line))
    case Some(score) => score
    case None => 0.0
  }

  // ---------------------------------------------------------------------------
  // What the helpers read back from a formatted line
  // ---------------------------------------------------------------------------

  /** The last token is what follows the last space. */
  lemma LastTokenAfterSpace(prefix: string, token: string)
    requires ' ' !in token
    ensures LastToken(prefix + [' '] + token) == token
  {
    SplitConcat(prefix, token, ' ');
    SplitWithoutSep(token, ' ');
  }

  /** Only the text after the last space decides the score. */
  lemma ScoreOfLastToken(prefix: string, token: string)
    requires ' ' !in token
    ensures ParseScore(prefix + [' '] + token) == ParseScore(token)
  {
    LastTokenAfterSpace(prefix, token);
    SplitWithoutSep(token, ' ');
  }

  /** A line whose last token holds no digit (such as "- Title (2014) N/A")
      scores 0. */
  lemma ScoreWithoutDigits(line: string)
    requires NoDigit(LastToken(line))
    ensures ParseScore(line) == 0.0
  {
    ParseDecimalNeedsDigit(LastToken(line));
  }

  /** A formatted line whose score is a whole number scores that number. */
  lemma ScoreOfFormat(title: string, year: string, n: int)
    ensures ParseScore(Format(title, year, IntText(n))) == n as real
  {
    var score := IntText(n);
    IntTextShape(n);
    NatTextValue(if n < 0 then -n else n);
    assert ' ' !in score by {
      if n < 0 {
        assert score == ['-'] + NatText(-n);
      }
    }
    var prefix := Marker + title + " (" + year + ")";
    assert Format(title, year, score) == prefix + [' '] + score;
    LastTokenAfterSpace(prefix, score);
    ParseDecimalOfText(n);
  }

  /** A formatted line whose score is a decimal with a fraction (such as
      "8.6") scores that decimal. */
  lemma ScoreOfDecimalFormat(title: string, year: string, negative: bool, whole: nat, fraction: string)
    requires AllDigits(fraction)
    ensures ParseScore(Format(title, year, DecimalText(negative, whole, fraction)))
      == DecimalValue(negative, whole, fraction)
  {
    var score := DecimalText(negative, whole, fraction);
    var digits := NatText(whole);
    NatTextValue(whole);
    assert ' ' !in score by {
      assert forall i :: 0 <= i < |digits| ==> digits[i] != ' ';
      assert forall i :: 0 <= i < |fraction| ==> fraction[i] != ' ';
      assert score == (if negative then "-" else "") + digits + "." + fraction;
    }
    var prefix := Marker + title + " (" + year + ")";
    assert Format(title, year, score) == prefix + [' '] + score;
    LastTokenAfterSpace(prefix, score);
    ParseDecimalOfDecimalText(negative, whole, fraction);
  }

  /** For a line starting with "- ", `TitleOnly` gives the text between the
      marker and the first '(' (or the end of the line), without the white
      space around it. */
  lemma TitleOfLine(lead: string, t: string, trail: string, rest: string)
    requires forall i :: 0 <= i < |lead| ==> IsWhiteSpace(lead[i])
    requires forall i :: 0 <= i < |trail| ==> IsWhiteSpace(trail[i])
    requires t == [] || (!IsWhiteSpace(t[0]) && !IsWhiteSpace(t[|t| - 1]))
    requires '(' !in lead + t + trail
    requires rest == [] || rest[0] == '('
    ensures TitleOnly(Marker + lead + t + trail + rest) == t
  {
    var line := Marker + lead + t + trail + rest;
    var head := lead + t + trail;
    assert Marker <= line;
    assert line[|Marker|..] == head + rest;
    SplitWithoutSep(head, '(');
    if rest != [] {
      assert head + rest == head + ['('] + rest[1..];
      SplitConcat(head, rest[1..], '(');
    } else {
      assert head + rest == head;
    }
    TrimPadded(lead, t, trail, IsWhiteSpace);
  }

  /** `TitleOnly` recovers the title of a formatted line, when the title holds
      no '(' and has no white space of its own at either end. */
  lemma TitleOfFormat(title: string, year: string, score: string)
    requires '(' !in title
    requires title == [] || (!IsWhiteSpace(title[0]) && !IsWhiteSpace(title[|title| - 1]))
    ensures TitleOnly(Format(title, year, score)) == title
  {
    var rest := "(" + year + ") " + score;
    var line := Format(title, year, score);
    assert line == Marker + title + (" " + rest);
    assert Marker + [] + title + " " + rest == Marker + title + (" " + rest);
    assert '(' !in [] + title + " ";
    TitleOfLine([], title, " ", rest);
  }
}
