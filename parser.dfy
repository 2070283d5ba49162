/**
 * The three extractors of src/parser.ts. Each splits the document on '\n'
 * and walks the lines once. The two section walks are loops over a
 * three-state machine (outside, inside, stopped), proved equal to
 * index-based specifications: the first header, the first line after it
 * that stops the walk, and the lines in between that the walk keeps.
 */
module Parser {
  import opened Text
  import opened Patterns
  import opened Sections

  // ---------------------------------------------------------------- main topic

  /** The trim of the first line whose trim is non-empty, or "" when every line is blank. */
  function MainTopicOf(lines: seq<string>): (topic: string)
    ensures IsTrimmed(topic)
    ensures topic == [] <==> forall j | 0 <= j < |lines| :: Trim(lines[j]) == []
  {
    if lines == [] then ""
    else if Trim(lines[0]) != "" then Trim(lines[0])
    else
      assert forall j | 1 <= j < |lines| :: lines[j] == lines[1..][j - 1];
      MainTopicOf(lines[1..])
  }

  /** A non-empty main topic is the trim of line `k`, and every line before `k` is blank. */
  lemma {:induction false} MainTopicSource(lines: seq<string>) returns (k: nat)
    requires MainTopicOf(lines) != []
    ensures k < |lines| && MainTopicOf(lines) == Trim(lines[k])
    ensures forall j | 0 <= j < k :: Trim(lines[j]) == []
  {
    if Trim(lines[0]) != "" {
      k := 0;
    } else {
      var k' := MainTopicSource(lines[1..]);
      assert forall j | 1 <= j < |lines| :: lines[j] == lines[1..][j - 1];
      k := k' + 1;
    }
  }

  /** `extractMainTopic`: "" exactly when the whole document is whitespace. */
  function ExtractMainTopic(src: string): (topic: string)
    ensures IsTrimmed(topic)
    ensures topic == [] <==> AllWhitespace(src)
  {
    var lines := Split(src);
    BlankLines(lines);
    MainTopicOf(lines)
  }

  /** A one-line document is its own main topic, once trimmed. */
  lemma MainTopicOfOneLine(s: string)
    requires '\n' !in s
    ensures ExtractMainTopic(s) == Trim(s)
  {
    SplitOfLine(s);
    assert Split(s)[1..] == [];
  }

  /** A joined document is blank exactly when every one of its lines trims to "". */
  lemma {:induction false} BlankLines(lines: seq<string>)
    requires |lines| >= 1
    ensures AllWhitespace(Join(lines)) <==> forall j | 0 <= j < |lines| :: Trim(lines[j]) == []
  {
    TrimEmpty(lines[0]);
    if |lines| > 1 {
      BlankLines(lines[1..]);
      var rest := Join(lines[1..]);
      assert Join(lines) == lines[0] + "\n" + rest;
      assert AllWhitespace(lines[0] + "\n" + rest) <==> AllWhitespace(lines[0]) && AllWhitespace(rest) by {
        var d := lines[0] + "\n" + rest;
        assert forall i | 0 <= i < |lines[0]| :: d[i] == lines[0][i];
        assert forall i | 0 <= i < |rest| :: d[|lines[0]| + 1 + i] == rest[i];
        assert d[|lines[0]|] == '\n';
      }
      assert forall j | 1 <= j < |lines| :: lines[j] == lines[1..][j - 1];
    }
  }

  // ---------------------------------------------------------------- extractSubTopics

  /** An inside line that ends the Keyword Reference walk; header lines re-enter the section instead. */
  predicate EndsKeywordSection(line: string) {
    !IsKeywordsHeader(line) && (IsEdgeHeader(line) || IsNextSection(line))
  }

  /** An inside line the Keyword Reference walk keeps. */
  predicate IsSubTopicLine(line: string) {
    !IsKeywordsHeader(line) && IsTopicLine(line)
  }

  /** The Keyword Reference walk over `lines`, as an index-based description. */
  function KeywordWalk(lines: seq<string>): Walk {
    SectionSpec(lines, IsKeywordsHeader, EndsKeywordSection, IsSubTopicLine)
  }

  /** What `extractSubTopics` returns for these lines. */
  function SubTopicsOf(lines: seq<string>): seq<string> {
    KeywordWalk(lines).items
  }

  /** `extractSubTopics` */
  method ExtractSubTopics(src: string) returns (topics: seq<string>)
    ensures topics == SubTopicsOf(Split(src))
  {
    var lines := Split(src);
    topics := [];
    var state := Outside;
    var i := 0;
    while i < |lines| && state != Stopped
      invariant 0 <= i <= |lines|
      invariant Walk(state, topics) == WalkLines(lines[..i], IsKeywordsHeader, EndsKeywordSection, IsSubTopicLine)
    {
      var line := lines[i];
      WalkLinesNext(lines, i, IsKeywordsHeader, EndsKeywordSection, IsSubTopicLine);
      ghost var before := Walk(state, topics);
      if IsKeywordsHeader(line) {
        state := Inside;
      } else if state == Inside {
        if IsEdgeHeader(line) || (IsNextSection(line) && !IsKeywordsHeader(line)) {
          state := Stopped;
        } else if IsTopicLine(line) {
          var trimmed := Trim(line);
          TopicLineTrim(line);
          if trimmed != "" {
            topics := topics + [trimmed];
          }
        }
      }
      assert Walk(state, topics) == Step(before, line, IsKeywordsHeader, EndsKeywordSection, IsSubTopicLine);
      i := i + 1;
    }
    if state == Stopped {
      WalkStaysStopped(lines, i, IsKeywordsHeader, EndsKeywordSection, IsSubTopicLine);
    } else {
      assert lines[..i] == lines;
    }
    WalkMatchesSpec(lines, IsKeywordsHeader, EndsKeywordSection, IsSubTopicLine);
  }

  /** Without a Keyword Reference header there are no sub-topics. */
  lemma SubTopicsNeedHeader(lines: seq<string>)
    requires forall j | 0 <= j < |lines| :: !IsKeywordsHeader(lines[j])
    ensures SubTopicsOf(lines) == []
  {
    FirstFromUnique(lines, 0, IsKeywordsHeader, |lines|);
  }

  /**
   * With a header, `h` is the first Keyword Reference header and `e` the first
   * later line that is an Edge header or a numbered section (and not itself a
   * Keyword Reference header), or the end. The sub-topics are, in document
   * order, the trims of exactly those lines strictly between `h` and `e` that
   * have the `label: value` shape and are not headers; `ps` lists them.
   */
  lemma SubTopicsProvenance(lines: seq<string>) returns (h: nat, e: nat, ps: seq<nat>)
    requires exists j | 0 <= j < |lines| :: IsKeywordsHeader(lines[j])
    ensures h < e <= |lines| && IsKeywordsHeader(lines[h])
    ensures forall j | 0 <= j < h :: !IsKeywordsHeader(lines[j])
    ensures forall j | h < j < e :: IsKeywordsHeader(lines[j]) || !(IsEdgeHeader(lines[j]) || IsNextSection(lines[j]))
    ensures e < |lines| ==> !IsKeywordsHeader(lines[e]) && (IsEdgeHeader(lines[e]) || IsNextSection(lines[e]))
    ensures |ps| == |SubTopicsOf(lines)|
    ensures forall k | 0 <= k < |ps| ::
      h < ps[k] < e && IsSubTopicLine(lines[ps[k]]) && SubTopicsOf(lines)[k] == Trim(lines[ps[k]])
    ensures forall k, m | 0 <= k < m < |ps| :: ps[k] < ps[m]
    ensures forall j | h < j < e && IsSubTopicLine(lines[j]) :: j in ps
  {
    var j0 :| 0 <= j0 < |lines| && IsKeywordsHeader(lines[j0]);
    FirstFromHitBefore(lines, 0, IsKeywordsHeader, j0);
    h, e, ps := SectionProvenance(lines, IsKeywordsHeader, EndsKeywordSection, IsSubTopicLine);
  }

  /** Every sub-topic is non-empty, trimmed and contains ':'; there are no more of them than lines. */
  lemma SubTopicItemsShape(lines: seq<string>)
    ensures |SubTopicsOf(lines)| <= |lines|
    ensures forall k | 0 <= k < |SubTopicsOf(lines)| ::
      SubTopicsOf(lines)[k] != [] && IsTrimmed(SubTopicsOf(lines)[k]) && ':' in SubTopicsOf(lines)[k]
  {
    var items := SubTopicsOf(lines);
    if exists j | 0 <= j < |lines| :: IsKeywordsHeader(lines[j]) {
      var h, e, ps := SubTopicsProvenance(lines);
      forall k | 0 <= k < |items|
        ensures items[k] != [] && ':' in items[k]
      {
        TopicLineTrim(lines[ps[k]]);
      }
    } else {
      SubTopicsNeedHeader(lines);
    }
  }

  /** Lines before the first Keyword Reference header never contribute. */
  lemma SubTopicsIgnorePrefix(pre: seq<string>, lines: seq<string>)
    requires forall j | 0 <= j < |pre| :: !IsKeywordsHeader(pre[j])
    ensures SubTopicsOf(pre + lines) == SubTopicsOf(lines)
  {
    SectionIgnoresPrefix(pre, lines, IsKeywordsHeader, EndsKeywordSection, IsSubTopicLine);
  }

  /** Once the walk has stopped, nothing after the stopping line is emitted. */
  lemma SubTopicsCut(lines: seq<string>, rest: seq<string>)
    requires KeywordWalk(lines).state == Stopped
    ensures SubTopicsOf(lines + rest) == SubTopicsOf(lines)
  {
    SectionCut(lines, rest, IsKeywordsHeader, EndsKeywordSection, IsSubTopicLine);
  }

  /**
   * A Keyword Reference header after the first one, numbered or not, is
   * skipped: it neither stops the walk nor contributes.
   */
  lemma SubTopicsSkipRepeatedHeader(lines: seq<string>, x: string, more: seq<string>)
    requires exists j | 0 <= j < |lines| :: IsKeywordsHeader(lines[j])
    requires IsKeywordsHeader(x)
    ensures SubTopicsOf(lines + [x] + more) == SubTopicsOf(lines + more)
  {
    var j0 :| 0 <= j0 < |lines| && IsKeywordsHeader(lines[j0]);
    FirstFromHitBefore(lines, 0, IsKeywordsHeader, j0);
    SectionSkipsHeader(lines, x, more, IsKeywordsHeader, EndsKeywordSection, IsSubTopicLine);
  }

  // ---------------------------------------------------------------- extractEdgeCases

  /** An inside line that ends the Edge walk; Edge header lines re-enter the section instead. */
  predicate EndsEdgeSection(line: string) {
    !IsEdgeHeader(line) && IsNextSection(line)
  }

  /** An inside line the Edge walk keeps. */
  predicate IsEdgeCaseLine(line: string) {
    !IsEdgeHeader(line) && Trim(line) != []
  }

  /** The Edge walk over `lines`, as an index-based description. */
  function EdgeWalk(lines: seq<string>): Walk {
    SectionSpec(lines, IsEdgeHeader, EndsEdgeSection, IsEdgeCaseLine)
  }

  /** What `extractEdgeCases` returns for these lines. */
  function EdgeCasesOf(lines: seq<string>): seq<string> {
    EdgeWalk(lines).items
  }

  /** `extractEdgeCases` */
  method ExtractEdgeCases(src: string) returns (cases: seq<string>)
    ensures cases == EdgeCasesOf(Split(src))
  {
    var lines := Split(src);
    cases := [];
    var state := Outside;
    var i := 0;
    while i < |lines| && state != Stopped
      invariant 0 <= i <= |lines|
      invariant Walk(state, cases) == WalkLines(lines[..i], IsEdgeHeader, EndsEdgeSection, IsEdgeCaseLine)
    {
      var line := lines[i];
      WalkLinesNext(lines, i, IsEdgeHeader, EndsEdgeSection, IsEdgeCaseLine);
      ghost var before := Walk(state, cases);
      if IsEdgeHeader(line) {
        state := Inside;
      } else if state == Inside {
        if IsNextSection(line) && !IsEdgeHeader(line) {
          state := Stopped;
        } else {
          var trimmed := Trim(line);
          EdgeHeaderTrim(line);
          if trimmed != "" && !IsEdgeHeader(trimmed) {
            cases := cases + [trimmed];
          }
        }
      }
      assert Walk(state, cases) == Step(before, line, IsEdgeHeader, EndsEdgeSection, IsEdgeCaseLine);
      i := i + 1;
    }
    if state == Stopped {
      WalkStaysStopped(lines, i, IsEdgeHeader, EndsEdgeSection, IsEdgeCaseLine);
    } else {
      assert lines[..i] == lines;
    }
    WalkMatchesSpec(lines, IsEdgeHeader, EndsEdgeSection, IsEdgeCaseLine);
  }

  /** Without an Edge header there are no edge cases. */
  lemma EdgeCasesNeedHeader(lines: seq<string>)
    requires forall j | 0 <= j < |lines| :: !IsEdgeHeader(lines[j])
    ensures EdgeCasesOf(lines) == []
  {
    FirstFromUnique(lines, 0, IsEdgeHeader, |lines|);
  }

  /**
   * With an Edge header, the edge cases are, in document order, the trims of
   * exactly the non-blank non-header lines strictly between the first Edge
   * header `h` and the first later numbered-section line `e` that is not an Edge
   * header (or the end); `ps` lists them. Bullets and quotes are kept.
   */
  lemma EdgeCasesProvenance(lines: seq<string>) returns (h: nat, e: nat, ps: seq<nat>)
    requires exists j | 0 <= j < |lines| :: IsEdgeHeader(lines[j])
    ensures h < e <= |lines| && IsEdgeHeader(lines[h])
    ensures forall j | 0 <= j < h :: !IsEdgeHeader(lines[j])
    ensures forall j | h < j < e :: IsEdgeHeader(lines[j]) || !IsNextSection(lines[j])
    ensures e < |lines| ==> !IsEdgeHeader(lines[e]) && IsNextSection(lines[e])
    ensures |ps| == |EdgeCasesOf(lines)|
    ensures forall k | 0 <= k < |ps| ::
      h < ps[k] < e && IsEdgeCaseLine(lines[ps[k]]) && EdgeCasesOf(lines)[k] == Trim(lines[ps[k]])
    ensures forall k, m | 0 <= k < m < |ps| :: ps[k] < ps[m]
    ensures forall j | h < j < e && IsEdgeCaseLine(lines[j]) :: j in ps
  {
    var j0 :| 0 <= j0 < |lines| && IsEdgeHeader(lines[j0]);
    FirstFromHitBefore(lines, 0, IsEdgeHeader, j0);
    h, e, ps := SectionProvenance(lines, IsEdgeHeader, EndsEdgeSection, IsEdgeCaseLine);
  }

  /** Every edge case is non-empty, trimmed and not itself an Edge header; there are no more of them than lines. */
  lemma EdgeItemsShape(lines: seq<string>)
    ensures |EdgeCasesOf(lines)| <= |lines|
    ensures forall k | 0 <= k < |EdgeCasesOf(lines)| ::
      EdgeCasesOf(lines)[k] != [] && IsTrimmed(EdgeCasesOf(lines)[k]) && !IsEdgeHeader(EdgeCasesOf(lines)[k])
  {
    var items := EdgeCasesOf(lines);
    if exists j | 0 <= j < |lines| :: IsEdgeHeader(lines[j]) {
      var h, e, ps := EdgeCasesProvenance(lines);
      forall k | 0 <= k < |items|
        ensures !IsEdgeHeader(items[k])
      {
        EdgeHeaderTrim(lines[ps[k]]);
      }
    } else {
      EdgeCasesNeedHeader(lines);
    }
  }

  /** Lines before the first Edge header never contribute. */
  lemma EdgeCasesIgnorePrefix(pre: seq<string>, lines: seq<string>)
    requires forall j | 0 <= j < |pre| :: !IsEdgeHeader(pre[j])
    ensures EdgeCasesOf(pre + lines) == EdgeCasesOf(lines)
  {
    SectionIgnoresPrefix(pre, lines, IsEdgeHeader, EndsEdgeSection, IsEdgeCaseLine);
  }

  /** Once the walk has stopped, nothing after the stopping line is emitted. */
  lemma EdgeCasesCut(lines: seq<string>, rest: seq<string>)
    requires EdgeWalk(lines).state == Stopped
    ensures EdgeCasesOf(lines + rest) == EdgeCasesOf(lines)
  {
    SectionCut(lines, rest, IsEdgeHeader, EndsEdgeSection, IsEdgeCaseLine);
  }

  /** An Edge header after the first one is skipped: it neither stops the walk nor is emitted. */
  lemma EdgeCasesSkipRepeatedHeader(lines: seq<string>, x: string, more: seq<string>)
    requires exists j | 0 <= j < |lines| :: IsEdgeHeader(lines[j])
    requires IsEdgeHeader(x)
    ensures EdgeCasesOf(lines + [x] + more) == EdgeCasesOf(lines + more)
  {
    var j0 :| 0 <= j0 < |lines| && IsEdgeHeader(lines[j0]);
    FirstFromHitBefore(lines, 0, IsEdgeHeader, j0);
    SectionSkipsHeader(lines, x, more, IsEdgeHeader, EndsEdgeSection, IsEdgeCaseLine);
  }

  // ---------------------------------------------------------------- the guards

  /**
   * The `!RE_KEYWORDS` and `!RE_EDGE` conjuncts of the two exit tests, and the
   * `!RE_EDGE.test(trimmed)` test on pushed lines, never decide anything: a line
   * reaching them is not a header of its own walk, and `trim` does not change
   * whether a line is an Edge header.
   */
  lemma InsideGuards(line: string)
    ensures EndsKeywordSection(line) <==> IsEdgeHeader(line) || (IsNextSection(line) && !IsKeywordsHeader(line))
    ensures !IsEdgeHeader(line) ==> (EndsEdgeSection(line) <==> IsNextSection(line))
    ensures IsEdgeCaseLine(line) <==> Trim(line) != [] && !IsEdgeHeader(Trim(line))
    ensures !IsKeywordsHeader(line) ==> (IsSubTopicLine(line) <==> IsTopicLine(line) && Trim(line) != [])
  {
    EdgeHeaderTrim(line);
    if IsKeywordsHeader(line) {
      KeywordsNotEdge(line);
    }
    if IsTopicLine(line) {
      TopicLineTrim(line);
    }
  }

  /**
   * Inside the Edge section a Keyword Reference line is content: it is emitted,
   * unless it is also a numbered section line, which ends the Edge walk.
   */
  lemma KeywordLineInEdgeSection(line: string)
    requires IsKeywordsHeader(line)
    ensures !IsEdgeHeader(line)
    ensures EndsEdgeSection(line) <==> IsNextSection(line)
    ensures IsEdgeCaseLine(line)
  {
    KeywordsNotEdge(line);
    KeywordsHeaderNotBlank(line);
  }
}
