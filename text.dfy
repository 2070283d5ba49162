/**
 * The string primitives the extraction engine borrows from JavaScript:
 * the whitespace class shared by `\s` and `String.prototype.trim`, digits,
 * word characters, ASCII lower-casing, `trim`, and `split('\n')`.
 */
module Text {

  /** ECMAScript WhiteSpace and LineTerminator code points: the set matched by `\s` and removed by `trim`. */
  predicate IsWhitespace(c: char) {
    || c == '\t' || c == '\n' || c == '\U{000B}' || c == '\U{000C}' || c == '\r' || c == ' '
    || c == '\U{00A0}' || c == '\U{1680}' || ('\U{2000}' <= c <= '\U{200A}')
    || c == '\U{2028}' || c == '\U{2029}' || c == '\U{202F}' || c == '\U{205F}'
    || c == '\U{3000}' || c == '\U{FEFF}'
  }

  /** ECMAScript LineTerminator: what `.` refuses and what `^`/`$` see under the `m` flag. */
  predicate IsLineTerminator(c: char) {
    c == '\n' || c == '\r' || c == '\U{2028}' || c == '\U{2029}'
  }

  /** `\d` */
  predicate IsDigit(c: char) { '0' <= c <= '9' }

  predicate IsUpper(c: char) { 'A' <= c <= 'Z' }

  predicate IsLower(c: char) { 'a' <= c <= 'z' }

  /** `\w`, which decides `\b` */
  predicate IsWordChar(c: char) { IsLower(c) || IsUpper(c) || IsDigit(c) || c == '_' }

  /** ASCII lower-casing of one character */
  function LowerChar(c: char): (l: char)
    ensures IsUpper(c) ==> IsLower(l) && l as int == c as int + 32
    ensures !IsUpper(c) ==> l == c
  {
    if IsUpper(c) then (c as int + 32) as char else c
  }

  predicate AllWhitespace(s: string) {
    forall i | 0 <= i < |s| :: IsWhitespace(s[i])
  }

  /** A string with no whitespace at either end, as `trim` leaves it. */
  predicate IsTrimmed(s: string) {
    s == [] || (!IsWhitespace(s[0]) && !IsWhitespace(s[|s| - 1]))
  }

  /** Drops the maximal leading run of whitespace (what `\s*` consumes at the front). */
  function TrimStart(s: string): (r: string)
    ensures |r| <= |s|
    ensures r == [] || !IsWhitespace(r[0])
  {
    if s != [] && IsWhitespace(s[0]) then TrimStart(s[1..]) else s
  }

  /** `TrimStart` removes a whitespace prefix and keeps the rest. */
  lemma {:induction false} TrimStartParts(s: string)
    ensures TrimStart(s) == s[|s| - |TrimStart(s)|..]
    ensures AllWhitespace(s[..|s| - |TrimStart(s)|])
  {
    if s != [] && IsWhitespace(s[0]) {
      TrimStartParts(s[1..]);
      var r := TrimStart(s);
      assert s[..|s| - |r|] == [s[0]] + s[1..][..|s[1..]| - |r|];
    }
  }

  /** Drops the maximal leading run of digits (what `\d*` consumes). */
  function TrimDigits(s: string): (r: string)
    ensures |r| <= |s|
    ensures r == [] || !IsDigit(r[0])
  {
    if s != [] && IsDigit(s[0]) then TrimDigits(s[1..]) else s
  }

  /** `TrimDigits` removes a digit prefix and keeps the rest. */
  lemma {:induction false} TrimDigitsParts(s: string)
    ensures TrimDigits(s) == s[|s| - |TrimDigits(s)|..]
    ensures forall i | 0 <= i < |s| - |TrimDigits(s)| :: IsDigit(s[i])
  {
    if s != [] && IsDigit(s[0]) {
      TrimDigitsParts(s[1..]);
    }
  }

  /** Drops the maximal trailing run of whitespace. */
  function TrimEnd(s: string): (r: string)
    ensures |r| <= |s|
    ensures r == [] || !IsWhitespace(r[|r| - 1])
  {
    if s != [] && IsWhitespace(s[|s| - 1]) then TrimEnd(s[..|s| - 1]) else s
  }

  /** `TrimEnd` removes a whitespace suffix and keeps the rest. */
  lemma {:induction false} TrimEndParts(s: string)
    ensures TrimEnd(s) == s[..|TrimEnd(s)|]
    ensures AllWhitespace(s[|TrimEnd(s)|..])
  {
    if s != [] && IsWhitespace(s[|s| - 1]) {
      TrimEndParts(s[..|s| - 1]);
      var r := TrimEnd(s);
      assert s[|r|..] == s[..|s| - 1][|r|..] + [s[|s| - 1]];
    }
  }

  /** `String.prototype.trim` */
  function Trim(s: string): (r: string)
    ensures IsTrimmed(r)
    ensures |r| <= |s|
  {
    var u := TrimStart(s);
    var r := TrimEnd(u);
    TrimEndParts(u);
    assert r != [] ==> r[0] == u[0];
    r
  }

  /** `TrimStart`, index by index: `start` whitespace characters, then the rest unchanged. */
  lemma TrimStartAt(s: string) returns (start: nat)
    ensures start + |TrimStart(s)| == |s|
    ensures forall i | 0 <= i < |TrimStart(s)| :: TrimStart(s)[i] == s[start + i]
    ensures forall i | 0 <= i < start :: IsWhitespace(s[i])
  {
    TrimStartParts(s);
    start := |s| - |TrimStart(s)|;
    forall i | 0 <= i < start
      ensures IsWhitespace(s[i])
    {
      assert s[..start][i] == s[i];
    }
  }

  /** `TrimEnd`, index by index: a prefix of its input, then whitespace. */
  lemma TrimEndAt(u: string)
    ensures forall i | 0 <= i < |TrimEnd(u)| :: TrimEnd(u)[i] == u[i]
    ensures forall i | |TrimEnd(u)| <= i < |u| :: IsWhitespace(u[i])
  {
    TrimEndParts(u);
    var r := TrimEnd(u);
    forall i | |r| <= i < |u|
      ensures IsWhitespace(u[i])
    {
      assert u[|r|..][i - |r|] == u[i];
    }
  }

  /**
   * Trim cuts a string into a whitespace run, the trimmed text and a whitespace run;
   * `start` is where the trimmed text begins.
   */
  lemma TrimParts(s: string) returns (start: nat)
    ensures start + |Trim(s)| <= |s|
    ensures forall i | 0 <= i < |Trim(s)| :: Trim(s)[i] == s[start + i]
    ensures forall i | 0 <= i < start :: IsWhitespace(s[i])
    ensures forall i | start + |Trim(s)| <= i < |s| :: IsWhitespace(s[i])
  {
    var u := TrimStart(s);
    var r := TrimEnd(u);
    start := TrimStartAt(s);
    TrimEndAt(u);
    assert r == Trim(s);
    forall i | 0 <= i < |r|
      ensures r[i] == s[start + i]
    {
      assert r[i] == u[i];
    }
    forall i | start + |r| <= i < |s|
      ensures IsWhitespace(s[i])
    {
      assert u[i - start] == s[i];
    }
  }

  /** `trim` returns its input exactly when it is already trimmed, and something shorter otherwise. */
  lemma TrimUnchanged(s: string)
    ensures Trim(s) == s <==> IsTrimmed(s)
    ensures Trim(s) != s ==> |Trim(s)| < |s|
  {
    var start := TrimParts(s);
    if IsTrimmed(s) {
      TrimTrimmed(s);
    }
  }

  /** `trim` gives the empty string exactly on blank lines. */
  lemma TrimEmpty(s: string)
    ensures Trim(s) == [] <==> AllWhitespace(s)
  {
    var start := TrimParts(s);
    if Trim(s) != [] {
      assert !IsWhitespace(s[start]);
    }
  }

  /** Every non-whitespace character of a line survives `trim`, so `trim` is empty only on blank lines. */
  lemma TrimKeeps(s: string, k: nat)
    requires k < |s| && !IsWhitespace(s[k])
    ensures Trim(s) != [] && s[k] in Trim(s)
  {
    var start := TrimParts(s);
    assert start <= k < start + |Trim(s)|;
    assert Trim(s)[k - start] == s[k];
  }

  /** `trim` leaves a trimmed string alone; in particular it is idempotent. */
  lemma TrimTrimmed(s: string)
    requires IsTrimmed(s)
    ensures Trim(s) == s
  {
  }

  lemma TrimIdempotent(s: string)
    ensures Trim(Trim(s)) == Trim(s)
  {
    TrimTrimmed(Trim(s));
  }

  /** The lines of `s` joined back with '\n'. */
  function Join(lines: seq<string>): string
    requires |lines| >= 1
  {
    if |lines| == 1 then lines[0] else lines[0] + "\n" + Join(lines[1..])
  }

  /** `s.split('\n')`: the pieces between newlines; the empty string gives `[""]`. */
  function Split(s: string): (lines: seq<string>)
    ensures |lines| >= 1
    ensures forall k | 0 <= k < |lines| :: '\n' !in lines[k]
    ensures Join(lines) == s
  {
    if s == [] then [""]
    else
      var rest := Split(s[1..]);
      if s[0] == '\n' then
        assert [""] + rest == [""] + rest;
        [""] + rest
      else
        var lines := [[s[0]] + rest[0]] + rest[1..];
        assert lines[1..] == rest[1..];
        assert Join(lines) == [s[0]] + Join(rest);
        assert s == [s[0]] + s[1..];
        lines
  }

  /** Splitting what `Join` built gives the lines back. */
  lemma {:induction false} SplitJoin(lines: seq<string>)
    requires |lines| >= 1
    requires forall k | 0 <= k < |lines| :: '\n' !in lines[k]
    ensures Split(Join(lines)) == lines
  {
    if |lines| == 1 {
      SplitOfLine(lines[0]);
    } else {
      SplitJoin(lines[1..]);
      SplitPrefix(lines[0], Join(lines[1..]));
      assert [lines[0]] + lines[1..] == lines;
    }
  }

  lemma {:induction false} SplitOfLine(line: string)
    requires '\n' !in line
    ensures Split(line) == [line]
  {
    if line != [] {
      SplitOfLine(line[1..]);
    }
  }

  lemma {:induction false} SplitPrefix(line: string, rest: string)
    requires '\n' !in line
    ensures Split(line + "\n" + rest) == [line] + Split(rest)
  {
    if line == [] {
      assert line + "\n" + rest == "\n" + rest;
      assert ("\n" + rest)[1..] == rest;
    } else {
      var whole := line + "\n" + rest;
      assert whole[0] == line[0] && whole[1..] == line[1..] + "\n" + rest;
      SplitPrefix(line[1..], rest);
      var tail := Split(whole[1..]);
      assert tail == [line[1..]] + Split(rest);
      assert tail[0] == line[1..] && tail[1..] == Split(rest);
      assert Split(whole) == [[line[0]] + tail[0]] + tail[1..];
      assert [line[0]] + line[1..] == line;
    }
  }
}
