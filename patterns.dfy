/**
 * The four line classifiers of the parser, written out as predicates instead of
 * regular expressions (src/parser.ts:1-4).
 *
 * Under the `i` flag without `u`, a character matches an ASCII letter of the
 * pattern exactly when its ASCII lower-case form equals the letter's, so the
 * case-insensitive literals below compare `LowerChar` against lower-case text.
 */
module Patterns {
  import opened Text

  /** Drops one leading '.', if there is one (what `\.?` consumes). */
  function TrimDot(s: string): string {
    if s != [] && s[0] == '.' then s[1..] else s
  }

  /**
   * The lead-in `\s*\d*\.?\s*` shared by the two header patterns. The character
   * classes are pairwise disjoint and each header literal starts with a letter,
   * so consuming each class greedily finds the only split the regex can use.
   */
  function StripSectionNumber(s: string): (r: string)
    ensures r == [] || !IsWhitespace(r[0])
  {
    TrimStart(TrimDot(TrimDigits(TrimStart(s))))
  }

  /** `s` agrees with `lit` from index `i` to the end of `lit`, ignoring ASCII case. */
  predicate MatchesFrom(s: string, lit: string, i: nat)
    ensures MatchesFrom(s, lit, i) && i < |lit| ==> |lit| <= |s|
    decreases |lit| - i
  {
    i >= |lit| || (i < |s| && LowerChar(s[i]) == lit[i] && MatchesFrom(s, lit, i + 1))
  }

  /** `s` starts with `lit`, a lower-case ASCII literal, ignoring ASCII case. */
  predicate StartsWithIgnoringCase(s: string, lit: string)
    ensures StartsWithIgnoringCase(s, lit) ==> |lit| <= |s|
  {
    MatchesFrom(s, lit, 0)
  }

  /** `MatchesFrom`, character by character. */
  lemma {:induction false} MatchesFromAt(s: string, lit: string, i: nat)
    requires i <= |lit|
    ensures MatchesFrom(s, lit, i) <==> (i == |lit| || |lit| <= |s|) && forall j | i <= j < |lit| :: LowerChar(s[j]) == lit[j]
    decreases |lit| - i
  {
    if i < |lit| {
      MatchesFromAt(s, lit, i + 1);
    }
  }

  /** The same test, character by character. */
  lemma StartsWithIgnoringCaseAt(s: string, lit: string)
    ensures StartsWithIgnoringCase(s, lit) <==> |lit| <= |s| && forall i | 0 <= i < |lit| :: LowerChar(s[i]) == lit[i]
  {
    MatchesFromAt(s, lit, 0);
  }

  /** `\b` right after a literal whose last character is a word character. */
  predicate WordEndsAt(s: string, n: nat)
    requires n <= |s|
  {
    n == |s| || !IsWordChar(s[n])
  }

  const KeywordReference := "keyword reference"
  const EdgeCaseGuidance := "edge case guidance"
  const EdgeCases := "edge cases"

  /** `RE_KEYWORDS`: `/^\s*\d*\.?\s*Keyword Reference/i` */
  predicate IsKeywordsHeader(line: string) {
    StartsWithIgnoringCase(StripSectionNumber(line), KeywordReference)
  }

  /** The `(Edge Case Guidance|Edge Cases)\b` part of `RE_EDGE`, at the start of `r`. */
  predicate StartsWithEdgeTitle(r: string) {
    || (StartsWithIgnoringCase(r, EdgeCaseGuidance) && WordEndsAt(r, |EdgeCaseGuidance|))
    || (StartsWithIgnoringCase(r, EdgeCases) && WordEndsAt(r, |EdgeCases|))
  }

  /** `RE_EDGE`: `/^\s*\d*\.?\s*(Edge Case Guidance|Edge Cases)\b/i` */
  predicate IsEdgeHeader(line: string) {
    StartsWithEdgeTitle(StripSectionNumber(line))
  }

  /**
   * `\s*\d+\.\s+[A-Z]` at the very start of `s`; the `.*$` tail of the
   * pattern always matches under the `m` flag, so it adds no condition.
   */
  predicate NumberedTitleAt(s: string) {
    var a := TrimStart(s);
    var b := TrimDigits(a);
    && |b| < |a| && b != [] && b[0] == '.'
    && var d := TrimStart(b[1..]);
    && |d| < |b| - 1 && d != [] && IsUpper(d[0])
  }

  /**
   * `NumberedTitleAt` right after some line terminator of `s`: a start of line
   * inside the string, as `^` sees it under the `m` flag.
   */
  predicate NumberedTitleAfterTerminator(s: string) {
    s != [] && ((IsLineTerminator(s[0]) && NumberedTitleAt(s[1..])) || NumberedTitleAfterTerminator(s[1..]))
  }

  /**
   * `RE_NEXT_SECTION`: `/^\s*\d+\.\s+[A-Z].*$/m`. With the `m` flag `^` matches
   * at the start and right after every line terminator inside the string.
   */
  predicate IsNextSection(line: string) {
    NumberedTitleAt(line) || NumberedTitleAfterTerminator(line)
  }

  /** The same pattern read off the regex: a match at 0 or after the terminator at some index `i`. */
  lemma {:induction false} NextSectionAnyLineStart(line: string)
    ensures IsNextSection(line) <==>
      NumberedTitleAt(line) || exists i | 0 <= i < |line| :: IsLineTerminator(line[i]) && NumberedTitleAt(line[i + 1..])
  {
    AfterTerminatorAt(line);
  }

  lemma {:induction false} AfterTerminatorAt(s: string)
    ensures NumberedTitleAfterTerminator(s) <==> exists i | 0 <= i < |s| :: IsLineTerminator(s[i]) && NumberedTitleAt(s[i + 1..])
  {
    if s != [] {
      AfterTerminatorAt(s[1..]);
      if NumberedTitleAfterTerminator(s[1..]) {
        var i :| 0 <= i < |s[1..]| && IsLineTerminator(s[1..][i]) && NumberedTitleAt(s[1..][i + 1..]);
        assert s[1..][i + 1..] == s[i + 2..];
        assert IsLineTerminator(s[i + 1]) && NumberedTitleAt(s[i + 1 + 1..]);
      }
      if i :| 0 <= i < |s| && IsLineTerminator(s[i]) && NumberedTitleAt(s[i + 1..]) {
        if i > 0 {
          assert s[1..][i - 1 + 1..] == s[i + 1..];
          assert IsLineTerminator(s[1..][i - 1]);
        }
      }
    }
  }

  /** Index of the first ':' of `s`, or `|s|` when there is none. */
  function FirstColon(s: string): (k: nat)
    ensures k <= |s|
    ensures forall i | 0 <= i < k :: s[i] != ':'
    ensures k < |s| ==> s[k] == ':'
  {
    if s == [] || s[0] == ':' then 0 else 1 + FirstColon(s[1..])
  }

  predicate NoLineTerminator(s: string)
    ensures NoLineTerminator(s) ==> '\n' !in s
  {
    forall i | 0 <= i < |s| :: !IsLineTerminator(s[i])
  }

  /**
   * `\s+.+$` without the `m` flag: a whitespace character, then either a
   * non-empty terminator-free rest reaching the end, or more of the same shape.
   */
  predicate IsValueText(r: string) {
    |r| >= 2 && IsWhitespace(r[0]) && (NoLineTerminator(r[1..]) || IsValueText(r[1..]))
  }

  /** The regex's reading: some split of `r` into whitespace, then a terminator-free non-empty rest. */
  lemma {:induction false} ValueTextSplit(r: string)
    ensures IsValueText(r) <==> exists j | 1 <= j < |r| :: AllWhitespace(r[..j]) && NoLineTerminator(r[j..])
  {
    if |r| >= 2 {
      ValueTextSplit(r[1..]);
      if IsValueText(r) {
        if NoLineTerminator(r[1..]) {
          assert AllWhitespace(r[..1]);
        } else {
          var j :| 1 <= j < |r[1..]| && AllWhitespace(r[1..][..j]) && NoLineTerminator(r[1..][j..]);
          assert r[..j + 1] == [r[0]] + r[1..][..j];
          assert r[j + 1..] == r[1..][j..];
          assert AllWhitespace(r[..j + 1]) && NoLineTerminator(r[j + 1..]);
        }
      }
      if j :| 1 <= j < |r| && AllWhitespace(r[..j]) && NoLineTerminator(r[j..]) {
        assert IsWhitespace(r[..j][0]);
        if j > 1 {
          assert r[1..][..j - 1] == r[..j][1..];
          assert r[1..][j - 1..] == r[j..];
          assert AllWhitespace(r[1..][..j - 1]) && NoLineTerminator(r[1..][j - 1..]);
        } else {
          assert r[1..] == r[j..];
        }
      }
    }
  }

  /**
   * `RE_TOPIC_LINE`: `/^[^\S\r\n]*[^:]+:\s+.+$/`. The leading class is part of
   * `[^:]`, so the head is just a non-empty colon-free run, and the `:` after
   * it is the first colon of the line.
   */
  predicate IsTopicLine(line: string) {
    var k := FirstColon(line);
    1 <= k < |line| && IsValueText(line[k + 1..])
  }

  /** A `label: value` line survives `trim` non-empty and keeps its colon. */
  lemma TopicLineTrim(line: string)
    requires IsTopicLine(line)
    ensures Trim(line) != [] && ':' in Trim(line)
  {
    TrimKeeps(line, FirstColon(line));
  }

  /** No line is both a Keyword Reference header and an Edge header. */
  lemma KeywordsNotEdge(line: string)
    requires IsKeywordsHeader(line)
    ensures !IsEdgeHeader(line)
  {
    var r := StripSectionNumber(line);
    assert LowerChar(r[0]) == 'k';
    assert !StartsWithIgnoringCase(r, EdgeCaseGuidance) && !StartsWithIgnoringCase(r, EdgeCases);
  }

  lemma {:induction false} TrimStartAfterWhitespace(p: string, x: string)
    requires AllWhitespace(p)
    ensures TrimStart(p + x) == TrimStart(x)
  {
    if p != [] {
      assert (p + x)[1..] == p[1..] + x;
      TrimStartAfterWhitespace(p[1..], x);
    } else {
      assert p + x == x;
    }
  }

  lemma {:induction false} TrimStartBeforeWhitespace(x: string, q: string)
    requires AllWhitespace(q)
    ensures TrimStart(x + q) == if TrimStart(x) == [] then [] else TrimStart(x) + q
  {
    if x == [] {
      assert x + q == q;
      TrimStartAfterWhitespace(q, []);
      assert q + [] == q;
    } else if IsWhitespace(x[0]) {
      assert (x + q)[1..] == x[1..] + q;
      TrimStartBeforeWhitespace(x[1..], q);
    }
  }

  lemma {:induction false} TrimDigitsBeforeWhitespace(x: string, q: string)
    requires AllWhitespace(q)
    ensures TrimDigits(x + q) == TrimDigits(x) + q
  {
    if x == [] {
      assert x + q == q;
    } else if IsDigit(x[0]) {
      assert (x + q)[1..] == x[1..] + q;
      TrimDigitsBeforeWhitespace(x[1..], q);
    }
  }

  /** Trailing whitespace passes through the lead-in untouched, unless the lead-in swallows everything. */
  lemma StripBeforeWhitespace(x: string, q: string)
    requires AllWhitespace(q)
    ensures StripSectionNumber(x + q) == if StripSectionNumber(x) == [] then [] else StripSectionNumber(x) + q
  {
    var a := TrimStart(x);
    TrimStartBeforeWhitespace(x, q);
    if a == [] {
      assert TrimStart(x + q) == [];
      assert StripSectionNumber(x + q) == TrimStart(TrimDot(TrimDigits([])));
    } else {
      assert TrimStart(x + q) == a + q;
      var b := TrimDigits(a);
      TrimDigitsBeforeWhitespace(a, q);
      assert TrimDigits(a + q) == b + q;
      var c := TrimDot(b);
      TrimDotBeforeWhitespace(b, q);
      assert TrimDot(b + q) == c + q;
      TrimStartBeforeWhitespace(c, q);
      assert StripSectionNumber(x + q) == TrimStart(c + q);
      assert StripSectionNumber(x) == TrimStart(c);
    }
  }

  lemma TrimDotBeforeWhitespace(b: string, q: string)
    requires AllWhitespace(q)
    ensures TrimDot(b + q) == TrimDot(b) + q
  {
    if b == [] {
      assert b + q == q;
    } else {
      assert (b + q)[0] == b[0];
      if b[0] == '.' {
        assert (b + q)[1..] == b[1..] + q;
      }
    }
  }

  /** Appending whitespace cannot complete or spoil a literal that ends in a letter. */
  lemma LiteralBeforeWhitespace(r: string, q: string, lit: string)
    requires AllWhitespace(q)
    requires lit != [] && IsLower(lit[|lit| - 1])
    ensures StartsWithIgnoringCase(r + q, lit) <==> StartsWithIgnoringCase(r, lit)
    ensures StartsWithIgnoringCase(r, lit) ==> (WordEndsAt(r + q, |lit|) <==> WordEndsAt(r, |lit|))
  {
    StartsWithIgnoringCaseAt(r + q, lit);
    StartsWithIgnoringCaseAt(r, lit);
    if StartsWithIgnoringCase(r, lit) {
      assert forall i | 0 <= i < |lit| :: (r + q)[i] == r[i];
    }
    if |r| < |lit| && |lit| <= |r + q| {
      assert (r + q)[|lit| - 1] == q[|lit| - 1 - |r|];
    }
    if |lit| < |r| {
      assert (r + q)[|lit|] == r[|lit|];
    } else if |lit| == |r| && q != [] {
      assert (r + q)[|lit|] == q[0];
    }
  }

  /** `RE_EDGE` does not care about surrounding whitespace: it matches a line iff it matches its trim. */
  lemma EdgeHeaderTrim(line: string)
    ensures IsEdgeHeader(Trim(line)) <==> IsEdgeHeader(line)
  {
    var start := TrimParts(line);
    var t := Trim(line);
    var p, q := line[..start], line[start + |t|..];
    assert line == p + (t + q);
    assert AllWhitespace(p) && AllWhitespace(q);
    TrimStartAfterWhitespace(p, t + q);
    assert StripSectionNumber(line) == StripSectionNumber(t + q);
    StripBeforeWhitespace(t, q);
    var r := StripSectionNumber(t);
    if r != [] {
      LiteralBeforeWhitespace(r, q, EdgeCaseGuidance);
      LiteralBeforeWhitespace(r, q, EdgeCases);
    }
  }

  /** A Keyword Reference header keeps its letters under `trim`, so it is never a blank line. */
  lemma KeywordsHeaderNotBlank(line: string)
    requires IsKeywordsHeader(line)
    ensures Trim(line) != []
  {
    var a := TrimStart(line);
    assert a != [];
    TrimStartParts(line);
    var k := |line| - |a|;
    assert line[k] == a[0];
    TrimKeeps(line, k);
  }

  /** A line starting with anything but whitespace, a digit or '.' has no lead-in to strip. */
  lemma StripPlainStart(s: string)
    requires s != [] && !IsWhitespace(s[0]) && !IsDigit(s[0]) && s[0] != '.'
    ensures StripSectionNumber(s) == s
  {
    assert TrimStart(s) == s && TrimDigits(s) == s && TrimDot(s) == s;
  }

  /** A one-line string that does not start with digits and '.' is not a numbered section line. */
  lemma PlainLineNotNext(s: string)
    requires s != [] && !IsWhitespace(s[0]) && !IsDigit(s[0])
    requires NoLineTerminator(s)
    ensures !IsNextSection(s)
  {
    assert TrimStart(s) == s && TrimDigits(s) == s;
    AfterTerminatorAt(s);
  }

  /** `FirstColon` finds a colon with none before it. */
  lemma {:induction false} FirstColonAt(s: string, k: nat)
    requires k < |s| && s[k] == ':'
    requires forall i | 0 <= i < k :: s[i] != ':'
    ensures FirstColon(s) == k
  {
    if k > 0 {
      assert forall i | 0 <= i < k - 1 :: s[1..][i] == s[i + 1];
      FirstColonAt(s[1..], k - 1);
    }
  }

  /** A one-line string whose first ':' is at `k >= 1` and is followed by whitespace and more text is a `label: value` line. */
  lemma TopicLineAt(s: string, k: nat)
    requires 1 <= k && k + 2 < |s| && s[k] == ':'
    requires forall i | 0 <= i < k :: s[i] != ':'
    requires IsWhitespace(s[k + 1]) && NoLineTerminator(s)
    ensures IsTopicLine(s)
  {
    FirstColonAt(s, k);
    var r := s[k + 1..];
    assert forall i | 0 <= i < |r| - 1 :: r[1..][i] == s[k + 2 + i];
    assert NoLineTerminator(r[1..]);
  }

  /** A line opening with one digit, '.', and one space: the lead-in is those three characters. */
  lemma NumberedLeadIn(s: string)
    requires |s| >= 4 && IsDigit(s[0]) && s[1] == '.' && s[2] == ' ' && !IsWhitespace(s[3])
    ensures StripSectionNumber(s) == s[3..]
    ensures NumberedTitleAt(s) <==> IsUpper(s[3])
  {
    assert TrimStart(s) == s;
    assert TrimDigits(s[1..]) == s[1..];
    assert s[1..][1..] == s[2..] && s[2..][1..] == s[3..];
    assert TrimStart(s[3..]) == s[3..];
  }
}
