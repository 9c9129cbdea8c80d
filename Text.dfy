/**
 * The string operations of .NET that the recommender relies on: white-space
 * tests, ordinal case-insensitive comparison, `Split` on one character, the
 * line splitting done on a lookup's reply, and `Trim`.
 */
module Text {

  // ---------------------------------------------------------------------------
  // White space and case
  // ---------------------------------------------------------------------------

  /** `char.IsWhiteSpace`: U+0009..U+000D, U+0085 and the Unicode space, line
      and paragraph separators. */
  predicate IsWhiteSpace(c: char) {
    || ('\t' <= c <= '\r') || c == ' ' || c == '\U{85}' || c == '\U{A0}' || c == '\U{1680}'
    || ('\U{2000}' <= c <= '\U{200A}') || c == '\U{2028}' || c == '\U{2029}'
    || c == '\U{202F}' || c == '\U{205F}' || c == '\U{3000}'
  }

  /** `string.IsNullOrWhiteSpace` on a non-null string: empty, or white space only. */
  predicate IsBlank(s: string) {
    forall i :: 0 <= i < |s| ==> IsWhiteSpace(s[i])
  }

  /** The character `StringComparer.OrdinalIgnoreCase` compares in place of `c`
      (ASCII letters only). */
  function FoldChar(c: char): char {
    if 'a' <= c <= 'z' then (c as int - 32) as char else c
  }

  /** Two strings are equal under `OrdinalIgnoreCase` exactly when their folds are equal. */
  function Fold(s: string): (f: string)
    ensures |f| == |s|
    ensures forall i :: 0 <= i < |f| ==> !('a' <= f[i] <= 'z')
    ensures forall i :: 0 <= i < |s| && !('a' <= s[i] <= 'z') ==> f[i] == s[i]
  {
    seq(|s|, i requires 0 <= i < |s| => FoldChar(s[i]))
  }

  /** `c` and `d` are the same character, or the lower- and upper-case forms of
      one ASCII letter. */
  predicate SameIgnoringCase(c: char, d: char) {
    c == d
    || ('a' <= c <= 'z' && d as int == c as int - 32)
    || ('A' <= c <= 'Z' && d as int == c as int + 32)
  }

  /** Two strings fold equal exactly when they have the same length and agree
      character by character up to the case of ASCII letters. */
  lemma FoldEq(a: string, b: string)
    ensures Fold(a) == Fold(b) <==> |a| == |b| && forall i :: 0 <= i < |a| ==> SameIgnoringCase(a[i], b[i])
  {
    if |a| == |b| {
      if Fold(a) == Fold(b) {
        forall i | 0 <= i < |a| ensures SameIgnoringCase(a[i], b[i]) {
          assert Fold(a)[i] == Fold(b)[i];
        }
      }
      if forall i :: 0 <= i < |a| ==> SameIgnoringCase(a[i], b[i]) {
        forall i | 0 <= i < |a| ensures Fold(a)[i] == Fold(b)[i] {
          assert SameIgnoringCase(a[i], b[i]);
        }
      }
    } else {
      assert |Fold(a)| != |Fold(b)|;
    }
  }

  // ---------------------------------------------------------------------------
  // Split and Join on one separator character
  // ---------------------------------------------------------------------------

  /** `s.Split(sep)`: the pieces between the occurrences of `sep`, empty pieces included. */
  function Split(s: string, sep: char): (pieces: seq<string>)
    ensures |pieces| >= 1
    ensures forall p :: p in pieces ==> sep !in p
    decreases |s|
  {
    if s == [] then [[]]
    else
      var rest := Split(s[1..], sep);
      if s[0] == sep then [[]] + rest
      else [[s[0]] + rest[0]] + rest[1..]
  }

  /** `string.Join(sep, pieces)`. */
  function Join(pieces: seq<string>, sep: char): string
    requires |pieces| >= 1
    decreases |pieces|
  {
    if |pieces| == 1 then pieces[0] else pieces[0] + [sep] + Join(pieces[1..], sep)
  }

  /** Splitting loses nothing: joining the pieces gives the text back. */
  lemma {:induction false} SplitJoin(s: string, sep: char)
    ensures Join(Split(s, sep), sep) == s
    decreases |s|
  {
    if s != [] {
      var rest := Split(s[1..], sep);
      SplitJoin(s[1..], sep);
      if s[0] == sep {
        assert ([[]] + rest)[1..] == rest;
        assert s == [sep] + s[1..];
      } else if |rest| == 1 {
        assert s == [s[0]] + s[1..];
      } else {
        var pieces := [[s[0]] + rest[0]] + rest[1..];
        assert pieces[1..] == rest[1..];
        assert s == [s[0]] + s[1..];
      }
    }
  }

  /** A piece without the separator is not split further. */
  lemma {:induction false} SplitWithoutSep(s: string, sep: char)
    requires sep !in s
    ensures Split(s, sep) == [s]
    decreases |s|
  {
    if s != [] {
      SplitWithoutSep(s[1..], sep);
      assert s == [s[0]] + s[1..];
    }
  }

  /** Splitting distributes over a separator occurrence. */
  lemma {:induction false} SplitConcat(a: string, b: string, sep: char)
    ensures Split(a + [sep] + b, sep) == Split(a, sep) + Split(b, sep)
    decreases |a|
  {
    var s := a + [sep] + b;
    if a == [] {
      assert s[1..] == b;
    } else {
      assert s[0] == a[0];
      assert s[1..] == a[1..] + [sep] + b;
      SplitConcat(a[1..], b, sep);
    }
  }

  /** Splitting undoes joining pieces that do not hold the separator. */
  lemma {:induction false} JoinSplit(pieces: seq<string>, sep: char)
    requires |pieces| >= 1
    requires forall p :: p in pieces ==> sep !in p
    ensures Split(Join(pieces, sep), sep) == pieces
    decreases |pieces|
  {
    SplitWithoutSep(pieces[0], sep);
    if |pieces| > 1 {
      JoinSplit(pieces[1..], sep);
      SplitConcat(pieces[0], Join(pieces[1..], sep), sep);
      assert pieces == [pieces[0]] + pieces[1..];
    }
  }

  // ---------------------------------------------------------------------------
  // Lines of a lookup's reply
  // ---------------------------------------------------------------------------

  /** `StringSplitOptions.RemoveEmptyEntries`: drops the empty pieces. */
  function NonEmpty(pieces: seq<string>): (kept: seq<string>)
    ensures forall p :: p in kept ==> p in pieces && p != []
    decreases |pieces|
  {
    if pieces == [] then []
    else
      var last := pieces[|pieces| - 1];
      NonEmpty(pieces[..|pieces| - 1]) + (if last != [] then [last] else [])
  }

  /** `Where(l => !string.IsNullOrWhiteSpace(l))`. */
  function NonBlank(pieces: seq<string>): (kept: seq<string>)
    ensures forall p :: p in kept ==> p in pieces && !IsBlank(p)
    decreases |pieces|
  {
    if pieces == [] then []
    else
      var last := pieces[|pieces| - 1];
      NonBlank(pieces[..|pieces| - 1]) + (if !IsBlank(last) then [last] else [])
  }

  /** `text.Split('\n', StringSplitOptions.RemoveEmptyEntries).Where(l => !string.IsNullOrWhiteSpace(l))`. */
  function NonBlankLines(text: string): (lines: seq<string>)
    ensures forall l :: l in lines ==> !IsBlank(l) && '\n' !in l
  {
    NonBlank(NonEmpty(Split(text, '\n')))
  }

  lemma {:induction false} NonEmptyKeeps(pieces: seq<string>)
    ensures forall p :: p in pieces && p != [] ==> p in NonEmpty(pieces)
    decreases |pieces|
  {
    if pieces != [] {
      var init := pieces[..|pieces| - 1];
      NonEmptyKeeps(init);
      assert pieces == init + [pieces[|pieces| - 1]];
    }
  }

  lemma {:induction false} NonBlankKeeps(pieces: seq<string>)
    ensures forall p :: p in pieces && !IsBlank(p) ==> p in NonBlank(pieces)
    decreases |pieces|
  {
    if pieces != [] {
      var init := pieces[..|pieces| - 1];
      NonBlankKeeps(init);
      assert pieces == init + [pieces[|pieces| - 1]];
    }
  }

  lemma {:induction false} NonEmptyConcat(a: seq<string>, b: seq<string>)
    ensures NonEmpty(a + b) == NonEmpty(a) + NonEmpty(b)
    decreases |b|
  {
    if b != [] {
      var init := b[..|b| - 1];
      NonEmptyConcat(a, init);
      assert (a + b)[..|a + b| - 1] == a + init;
    } else {
      assert a + b == a;
    }
  }

  lemma {:induction false} NonBlankConcat(a: seq<string>, b: seq<string>)
    ensures NonBlank(a + b) == NonBlank(a) + NonBlank(b)
    decreases |b|
  {
    if b != [] {
      var init := b[..|b| - 1];
      NonBlankConcat(a, init);
      assert (a + b)[..|a + b| - 1] == a + init;
    } else {
      assert a + b == a;
    }
  }

  /** The lines kept are exactly the non-blank pieces between line breaks. */
  lemma NonBlankLinesMembers(text: string)
    ensures forall l :: l in NonBlankLines(text) <==> l in Split(text, '\n') && !IsBlank(l)
  {
    var pieces := Split(text, '\n');
    NonEmptyKeeps(pieces);
    NonBlankKeeps(NonEmpty(pieces));
  }

  /** The lines of two texts joined by a line break are the lines of the first
      followed by the lines of the second: the order of the reply is kept. */
  lemma NonBlankLinesConcat(a: string, b: string)
    ensures NonBlankLines(a + ['\n'] + b) == NonBlankLines(a) + NonBlankLines(b)
  {
    SplitConcat(a, b, '\n');
    NonEmptyConcat(Split(a, '\n'), Split(b, '\n'));
    NonBlankConcat(NonEmpty(Split(a, '\n')), NonEmpty(Split(b, '\n')));
  }

  // ---------------------------------------------------------------------------
  // Trim
  // ---------------------------------------------------------------------------

  /** Drops the leading characters that satisfy `white`. */
  function TrimStart(s: string, white: char -> bool): (r: string)
    ensures |r| <= |s| && r == s[|s| - |r|..]
    ensures forall i :: 0 <= i < |s| - |r| ==> white(s[i])
    ensures r == [] || !white(r[0])
    decreases |s|
  {
    if s != [] && white(s[0]) then TrimStart(s[1..], white) else s
  }

  /** Drops the trailing characters that satisfy `white`. */
  function TrimEnd(s: string, white: char -> bool): (r: string)
    ensures |r| <= |s| && r == s[..|r|]
    ensures forall i :: |r| <= i < |s| ==> white(s[i])
    ensures r == [] || !white(r[|r| - 1])
    decreases |s|
  {
    if s != [] && white(s[|s| - 1]) then TrimEnd(s[..|s| - 1], white) else s
  }

  /** `Trim` with the given white-space set: the longest infix of `s` that
      neither starts nor ends with a `white` character. */
  function TrimBy(s: string, white: char -> bool): (r: string)
    ensures r == [] || (!white(r[0]) && !white(r[|r| - 1]))
  {
    TrimEnd(TrimStart(s, white), white)
  }

  /** `t` sits at index `i` of `s`, and everything around it is `white`. */
  ghost predicate PaddedAt(s: string, t: string, i: int, white: char -> bool) {
    0 <= i <= |s| - |t| && t == s[i..i + |t|]
    && (forall k :: 0 <= k < i ==> white(s[k]))
    && (forall k :: i + |t| <= k < |s| ==> white(s[k]))
  }

  /** A white-trailed prefix of a white-led suffix sits in the whole text with
      only white characters around it. */
  lemma PrefixOfSuffix(s: string, start: string, t: string, white: char -> bool)
    requires |start| <= |s| && start == s[|s| - |start|..]
    requires forall k :: 0 <= k < |s| - |start| ==> white(s[k])
    requires |t| <= |start| && t == start[..|t|]
    requires forall k :: |t| <= k < |start| ==> white(start[k])
    ensures PaddedAt(s, t, |s| - |start|, white)
  {
    var i := |s| - |start|;
    assert t == s[i..i + |t|];
    forall k | i + |t| <= k < |s| ensures white(s[k]) {
      assert s[k] == start[k - i];
    }
  }

  /** What `TrimBy` cuts off around its result is white. */
  lemma TrimByPadded(s: string, white: char -> bool)
    ensures PaddedAt(s, TrimBy(s, white), |s| - |TrimStart(s, white)|, white)
  {
    var start := TrimStart(s, white);
    var t := TrimEnd(start, white);
    assert TrimBy(s, white) == t;
    assert |start| <= |s| && start == s[|s| - |start|..];
    assert forall k :: 0 <= k < |s| - |start| ==> white(s[k]);
    assert |t| <= |start| && t == start[..|t|];
    assert forall k :: |t| <= k < |start| ==> white(start[k]);
    PrefixOfSuffix(s, start, t, white);
  }

  /** `string.Trim()`. */
  function Trim(s: string): (t: string)
    ensures t == [] || (!IsWhiteSpace(t[0]) && !IsWhiteSpace(t[|t| - 1]))
    ensures exists i :: PaddedAt(s, t, i, IsWhiteSpace)
  {
    TrimByPadded(s, IsWhiteSpace);
    TrimBy(s, IsWhiteSpace)
  }

  /** Trimming removes exactly the white padding around a text that has none of its own. */
  lemma TrimPadded(lead: string, t: string, trail: string, white: char -> bool)
    requires forall i :: 0 <= i < |lead| ==> white(lead[i])
    requires forall i :: 0 <= i < |trail| ==> white(trail[i])
    requires t == [] || (!white(t[0]) && !white(t[|t| - 1]))
    ensures TrimBy(lead + t + trail, white) == t
  {
    if t == [] {
      TrimBlank(lead, trail, white);
    } else {
      var rest := t + trail;
      assert lead + t + trail == lead + rest;
      assert rest[0] == t[0];
      TrimStartPadded(lead, rest, white);
      TrimEndPadded(t, trail, white);
    }
  }

  lemma TrimBlank(lead: string, trail: string, white: char -> bool)
    requires forall i :: 0 <= i < |lead| ==> white(lead[i])
    requires forall i :: 0 <= i < |trail| ==> white(trail[i])
    ensures TrimBy(lead + [] + trail, white) == []
  {
    var pad := lead + trail;
    forall i | 0 <= i < |pad| ensures white(pad[i]) {
      if i >= |lead| { assert pad[i] == trail[i - |lead|]; }
    }
    TrimStartPadded(pad, [], white);
    assert lead + [] + trail == pad + [];
  }

  lemma {:induction false} TrimStartPadded(lead: string, rest: string, white: char -> bool)
    requires forall i :: 0 <= i < |lead| ==> white(lead[i])
    requires rest == [] || !white(rest[0])
    ensures TrimStart(lead + rest, white) == rest
    decreases |lead|
  {
    if lead != [] {
      assert (lead + rest)[1..] == lead[1..] + rest;
      TrimStartPadded(lead[1..], rest, white);
    } else {
      assert lead + rest == rest;
    }
  }

  lemma {:induction false} TrimEndPadded(rest: string, trail: string, white: char -> bool)
    requires forall i :: 0 <= i < |trail| ==> white(trail[i])
    requires rest == [] || !white(rest[|rest| - 1])
    ensures TrimEnd(rest + trail, white) == rest
    decreases |trail|
  {
    if trail != [] {
      var init := trail[..|trail| - 1];
      assert (rest + trail)[..|rest + trail| - 1] == rest + init;
      TrimEndPadded(rest, init, white);
    } else {
      assert rest + trail == rest;
    }
  }
}
