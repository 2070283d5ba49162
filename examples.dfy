/**
 * The extractors on small documents, worked through line by line. They show
 * what the code does with typical guide sections, including where it keeps
 * text (a bullet, a label, a whole title line) as it stands.
 *
 * Each fact about one concrete line is its own small lemma; the document
 * lemmas name their lines by parameters and only combine those facts.
 */
module Examples {
  import opened Text
  import opened Patterns
  import opened Sections
  import opened Parser
  import opened Utils

  // ---------------------------------------------------------------- splitting a small document

  lemma SplitThree(a: string, b: string, c: string)
    requires '\n' !in a && '\n' !in b && '\n' !in c
    ensures Split(a + "\n" + b + "\n" + c) == [a, b, c]
  {
    SplitOfLine(c);
    SplitPrefix(b, c);
    assert a + "\n" + b + "\n" + c == a + "\n" + (b + "\n" + c);
    SplitPrefix(a, b + "\n" + c);
    assert [a] + ([b] + [c]) == [a, b, c];
  }

  lemma SplitFour(a: string, b: string, c: string, d: string)
    requires '\n' !in a && '\n' !in b && '\n' !in c && '\n' !in d
    ensures Split(a + "\n" + b + "\n" + c + "\n" + d) == [a, b, c, d]
  {
    var t := b + "\n" + c + "\n" + d;
    assert a + "\n" + b + "\n" + c + "\n" + d == a + "\n" + t by {
      Regroup(a + "\n", b + "\n" + c, "\n" + d);
      Regroup(a + "\n", b, "\n" + c);
    }
    SplitThree(b, c, d);
    SplitPrefix(a, t);
    assert [a] + [b, c, d] == [a, b, c, d];
  }

  // ---------------------------------------------------------------- the header literals

  lemma KeywordReferenceText(r: string)
    requires r == "Keyword Reference"
    ensures StartsWithIgnoringCase(r, KeywordReference)
  {
    StartsWithIgnoringCaseAt(r, KeywordReference);
    assert forall i | 0 <= i < |r| :: LowerChar(r[i]) == KeywordReference[i];
  }

  lemma EdgeCasesText(r: string)
    requires r == "Edge Cases"
    ensures StartsWithEdgeTitle(r)
  {
    StartsWithIgnoringCaseAt(r, EdgeCases);
    assert forall i | 0 <= i < |r| :: LowerChar(r[i]) == EdgeCases[i];
  }

  // ---------------------------------------------------------------- the characters of the example lines

  // Each lemma below checks one literal for line terminators on its own. The
  // document lemmas that use them stay within the solver's resource limit only
  // because these character-by-character facts are proved apart from them.

  lemma OneLineSection3(s: string)
    requires s == "3. Keyword Reference"
    ensures NoLineTerminator(s)
  {
  }

  lemma OneLineCategory(s: string)
    requires s == "A. Category One"
    ensures NoLineTerminator(s) && ':' !in s
  {
  }

  lemma OneLineKeywords(s: string)
    requires s == "Keywords: spark, flame, ignition"
    ensures NoLineTerminator(s)
  {
  }

  lemma OneLineSection4(s: string)
    requires s == "4. Labeling Examples"
    ensures NoLineTerminator(s)
  {
  }

  lemma OneLineSection5(s: string)
    requires s == "5. Edge Cases"
    ensures NoLineTerminator(s)
  {
  }

  lemma OneLineBulletQuote(s: string)
    requires s == "- \"Do not use near water\""
    ensures NoLineTerminator(s)
  {
  }

  lemma OneLineSection6(s: string)
    requires s == "6. Common Pitfalls"
    ensures NoLineTerminator(s)
  {
  }

  lemma OneLineWidget(s: string)
    requires s == "Widget Safety Labeling Instructions"
    ensures NoLineTerminator(s)
  {
  }

  lemma OneLineTopic(s: string)
    requires s == "Topic: Battery Handling"
    ensures NoLineTerminator(s)
  {
  }

  // ---------------------------------------------------------------- the Keyword Reference section

  /** "3. Keyword Reference" is a Keyword Reference header and also a numbered section line. */
  lemma NumberedKeywordHeader(s: string)
    requires s == "3. Keyword Reference"
    ensures IsKeywordsHeader(s) && IsNextSection(s) && !IsEdgeHeader(s)
  {
    NumberedLeadIn(s);
    assert s[3..] == "Keyword Reference";
    KeywordReferenceText(s[3..]);
    KeywordsNotEdge(s);
  }

  /** Inside the Keyword Reference walk "3. Keyword Reference" re-enters the section; inside the Edge walk it stops the walk. */
  lemma NumberedKeywordHeaderInWalks(s: string)
    requires s == "3. Keyword Reference"
    ensures !EndsKeywordSection(s) && !IsSubTopicLine(s)
    ensures EndsEdgeSection(s)
  {
    NumberedKeywordHeader(s);
  }

  /** An unnumbered "Keyword Reference" line inside the Edge section is emitted like any other content. */
  lemma UnnumberedKeywordLineInEdgeSection(s: string)
    requires s == "Keyword Reference"
    ensures IsKeywordsHeader(s)
    ensures !EndsEdgeSection(s) && IsEdgeCaseLine(s)
  {
    StripPlainStart(s);
    KeywordReferenceText(s);
    PlainLineNotNext(s);
    KeywordLineInEdgeSection(s);
  }

  lemma CategoryNotHeader(s: string)
    requires s == "A. Category One"
    ensures !IsKeywordsHeader(s) && !IsEdgeHeader(s)
  {
    StripPlainStart(s);
    assert !MatchesFrom(s, KeywordReference, 0);
    assert !MatchesFrom(s, EdgeCaseGuidance, 0);
    assert !MatchesFrom(s, EdgeCases, 0);
  }

  lemma CategoryNotNext(s: string)
    requires s == "A. Category One"
    ensures !IsNextSection(s) && !IsTopicLine(s) && '\n' !in s
  {
    OneLineCategory(s);
    PlainLineNotNext(s);
  }

  /** A lettered subsection title is neither a header, nor a numbered section, nor a `label: value` line. */
  lemma CategoryTitleLine(s: string)
    requires s == "A. Category One"
    ensures !IsKeywordsHeader(s) && !IsEdgeHeader(s)
    ensures !IsNextSection(s) && !IsTopicLine(s)
  {
    CategoryNotHeader(s);
    CategoryNotNext(s);
  }

  lemma KeywordsNotKeywordsHeader(s: string)
    requires s == "Keywords: spark, flame, ignition"
    ensures !IsKeywordsHeader(s)
  {
    StripPlainStart(s);
    assert !MatchesFrom(s, KeywordReference, 7);
    assert !MatchesFrom(s, KeywordReference, 6);
    assert !MatchesFrom(s, KeywordReference, 5);
    assert !MatchesFrom(s, KeywordReference, 4);
    assert !MatchesFrom(s, KeywordReference, 3);
    assert !MatchesFrom(s, KeywordReference, 2);
    assert !MatchesFrom(s, KeywordReference, 1);
    assert !MatchesFrom(s, KeywordReference, 0);
  }

  lemma KeywordsNotEdgeHeader(s: string)
    requires s == "Keywords: spark, flame, ignition"
    ensures !IsEdgeHeader(s)
  {
    StripPlainStart(s);
    assert !MatchesFrom(s, EdgeCaseGuidance, 0);
    assert !MatchesFrom(s, EdgeCases, 0);
  }

  lemma KeywordsNotNext(s: string)
    requires s == "Keywords: spark, flame, ignition"
    ensures !IsNextSection(s) && '\n' !in s
  {
    OneLineKeywords(s);
    PlainLineNotNext(s);
  }

  lemma KeywordsIsTopic(s: string)
    requires s == "Keywords: spark, flame, ignition"
    ensures IsTopicLine(s)
  {
    OneLineKeywords(s);
    TopicLineAt(s, 8);
  }

  lemma KeywordsTrimmed(s: string)
    requires s == "Keywords: spark, flame, ignition"
    ensures Trim(s) == s
  {
    TrimTrimmed(s);
  }

  /** "Keywords: spark, flame, ignition" has the `label: value` shape, is no header, and `trim` keeps it whole. */
  lemma KeywordsLine(s: string)
    requires s == "Keywords: spark, flame, ignition"
    ensures !IsKeywordsHeader(s) && !IsEdgeHeader(s)
    ensures !IsNextSection(s) && IsTopicLine(s)
    ensures Trim(s) == s
  {
    KeywordsNotKeywordsHeader(s);
    KeywordsNotEdgeHeader(s);
    KeywordsNotNext(s);
    KeywordsIsTopic(s);
    KeywordsTrimmed(s);
  }

  /** "4. Labeling Examples" is a numbered section line and no header. */
  lemma LabelingExamplesLine(s: string)
    requires s == "4. Labeling Examples"
    ensures !IsKeywordsHeader(s) && !IsEdgeHeader(s)
    ensures IsNextSection(s)
  {
    NumberedLeadIn(s);
  }

  /** A header, two lines inside and a closing line, for any recognisers. */
  lemma SectionOfFour(a: string, b: string, c: string, d: string, isHeader: string -> bool, ends: string -> bool, keep: string -> bool)
    requires isHeader(a) && !ends(b) && !ends(c) && ends(d)
    ensures SectionSpec([a, b, c, d], isHeader, ends, keep) == Walk(Stopped, Selected([b, c], keep))
  {
    var lines := [a, b, c, d];
    FirstFromUnique(lines, 0, isHeader, 0);
    FirstFromUnique(lines, 1, ends, 3);
    SpecFromBounds(lines, 0, 3, isHeader, ends, keep);
    assert lines[1..3] == [b, c];
  }

  /** A header, one line inside and a closing line, for any recognisers. */
  lemma SectionOfThree(a: string, b: string, c: string, isHeader: string -> bool, ends: string -> bool, keep: string -> bool)
    requires isHeader(a) && !ends(b) && ends(c)
    ensures SectionSpec([a, b, c], isHeader, ends, keep) == Walk(Stopped, Selected([b], keep))
  {
    var lines := [a, b, c];
    FirstFromUnique(lines, 0, isHeader, 0);
    FirstFromUnique(lines, 1, ends, 2);
    SpecFromBounds(lines, 0, 2, isHeader, ends, keep);
    assert lines[1..2] == [b];
  }

  /** The selection over a two-line window, line by line. */
  lemma SelectedTwo(x: string, y: string, keep: string -> bool)
    ensures Selected([x, y], keep) == (if keep(x) then [Trim(x)] else []) + (if keep(y) then [Trim(y)] else [])
  {
    assert [x, y][..1] == [x] && [x][..0] == [];
  }

  /** A header, a passed-over line, a kept line and a stopping line: the walk keeps the third line only. */
  lemma KeywordWalkOfFour(a: string, b: string, c: string, d: string)
    requires IsKeywordsHeader(a)
    requires !IsKeywordsHeader(b) && !EndsKeywordSection(b) && !IsSubTopicLine(b)
    requires !IsKeywordsHeader(c) && !EndsKeywordSection(c) && IsSubTopicLine(c)
    requires !IsKeywordsHeader(d) && EndsKeywordSection(d)
    ensures SubTopicsOf([a, b, c, d]) == [Trim(c)]
  {
    SectionOfFour(a, b, c, d, IsKeywordsHeader, EndsKeywordSection, IsSubTopicLine);
    SelectedTwo(b, c, IsSubTopicLine);
  }

  /**
   * A numbered Keyword Reference section: the lettered subsection title
   * is passed over, the `Keywords:` line is emitted as it stands (label
   * included), and the numbered section after it stops the walk.
   */
  lemma KeywordSectionExample(a: string, b: string, c: string, d: string)
    requires a == "3. Keyword Reference" && b == "A. Category One"
    requires c == "Keywords: spark, flame, ignition" && d == "4. Labeling Examples"
    ensures SubTopicsOf(Split(a + "\n" + b + "\n" + c + "\n" + d)) == [c]
  {
    OneLineSection3(a);
    CategoryNotNext(b);
    KeywordsNotNext(c);
    OneLineSection4(d);
    SplitFour(a, b, c, d);
    NumberedKeywordHeader(a);
    CategoryTitleLine(b);
    KeywordsLine(c);
    LabelingExamplesLine(d);
    KeywordWalkOfFour(a, b, c, d);
  }

  // ---------------------------------------------------------------- the Edge section

  lemma EdgeCasesHeaderLine(s: string)
    requires s == "5. Edge Cases"
    ensures IsEdgeHeader(s)
  {
    NumberedLeadIn(s);
    assert s[3..] == "Edge Cases";
    EdgeCasesText(s[3..]);
  }

  lemma BulletQuoteNotHeader(s: string)
    requires s == "- \"Do not use near water\""
    ensures !IsEdgeHeader(s)
  {
    StripPlainStart(s);
    assert !MatchesFrom(s, EdgeCaseGuidance, 0);
    assert !MatchesFrom(s, EdgeCases, 0);
  }

  lemma BulletQuoteNotNext(s: string)
    requires s == "- \"Do not use near water\""
    ensures !IsNextSection(s) && '\n' !in s
  {
    OneLineBulletQuote(s);
    PlainLineNotNext(s);
  }

  lemma BulletQuoteTrimmed(s: string)
    requires s == "- \"Do not use near water\""
    ensures Trim(s) == s && s != []
  {
    TrimTrimmed(s);
  }

  /** A bulleted, quoted line is content of the Edge section, and `trim` leaves its bullet and quotes on. */
  lemma BulletQuoteLine(s: string)
    requires s == "- \"Do not use near water\""
    ensures !IsEdgeHeader(s) && !IsNextSection(s)
    ensures IsEdgeCaseLine(s) && Trim(s) == s
  {
    BulletQuoteNotHeader(s);
    BulletQuoteNotNext(s);
    BulletQuoteTrimmed(s);
  }

  lemma CommonPitfallsLine(s: string)
    requires s == "6. Common Pitfalls"
    ensures !IsEdgeHeader(s) && IsNextSection(s)
  {
    NumberedLeadIn(s);
  }

  /** A header, a kept line and a stopping line: the walk keeps the middle line only. */
  lemma EdgeWalkOfThree(a: string, b: string, c: string)
    requires IsEdgeHeader(a)
    requires !IsEdgeHeader(b) && !EndsEdgeSection(b) && IsEdgeCaseLine(b)
    requires !IsEdgeHeader(c) && EndsEdgeSection(c)
    ensures EdgeCasesOf([a, b, c]) == [Trim(b)]
  {
    SectionOfThree(a, b, c, IsEdgeHeader, EndsEdgeSection, IsEdgeCaseLine);
    assert [b][..0] == [];
  }

  /**
   * A numbered Edge Cases section: the bulleted line is emitted with its
   * bullet and its quotes, and the numbered section after it stops the walk.
   */
  lemma EdgeSectionExample(a: string, b: string, c: string)
    requires a == "5. Edge Cases" && b == "- \"Do not use near water\"" && c == "6. Common Pitfalls"
    ensures EdgeCasesOf(Split(a + "\n" + b + "\n" + c)) == [b]
  {
    OneLineSection5(a);
    BulletQuoteNotNext(b);
    OneLineSection6(c);
    SplitThree(a, b, c);
    EdgeCasesHeaderLine(a);
    BulletQuoteLine(b);
    CommonPitfallsLine(c);
    EdgeWalkOfThree(a, b, c);
  }

  // ---------------------------------------------------------------- main topic and the empty document

  lemma WidgetTrimmed(s: string)
    requires s == "Widget Safety Labeling Instructions"
    ensures Trim(s) == s
  {
    TrimTrimmed(s);
  }

  lemma TopicTrimmed(s: string)
    requires s == "Topic: Battery Handling"
    ensures Trim(s) == s
  {
    TrimTrimmed(s);
  }

  /** A title line is returned whole: neither a "Labeling Instructions" suffix nor a "Topic:" label is cut off. */
  lemma TitleLineExample(s: string, t: string)
    requires s == "Widget Safety Labeling Instructions" && t == "Topic: Battery Handling"
    ensures ExtractMainTopic(s) == s
    ensures ExtractMainTopic(t) == t
  {
    OneLineWidget(s);
    MainTopicOfOneLine(s);
    WidgetTrimmed(s);
    OneLineTopic(t);
    MainTopicOfOneLine(t);
    TopicTrimmed(t);
  }

  /** The empty document has one empty line, no topic and no items. */
  lemma EmptyDocument()
    ensures Split("") == [""]
    ensures ExtractMainTopic("") == ""
    ensures SubTopicsOf(Split("")) == [] && EdgeCasesOf(Split("")) == []
  {
    assert !IsKeywordsHeader("") && !IsEdgeHeader("");
    SubTopicsNeedHeader([""]);
    EdgeCasesNeedHeader([""]);
  }

  // ---------------------------------------------------------------- cleanLineItem

  lemma DoubleBulletOuter(s: string)
    requires s == "- - x"
    ensures Trim(s) == s && StripBullet(s) == "- x"
  {
    TrimTrimmed(s);
    assert s[1..] == " - x";
    assert TrimStart(" - x") == TrimStart(" - x"[1..]);
    assert " - x"[1..] == "- x";
  }

  lemma DashXSteps(s: string)
    requires s == "- x"
    ensures Trim(s) == s && StripBullet(s) == "x" && StripQuotes(s) == s && StripNumbering(s) == s
  {
    TrimTrimmed(s);
    assert s[1..] == " x";
    assert TrimStart(" x") == TrimStart(" x"[1..]);
    assert " x"[1..] == "x";
    assert !IsQuoted(s) && !StartsWithNumbering(s);
  }

  lemma XSteps(s: string)
    requires s == "x"
    ensures Trim(s) == s && StripQuotes(s) == s && StripNumbering(s) == s
  {
    TrimTrimmed(s);
    assert !IsQuoted(s) && !StartsWithNumbering(s);
  }

  /** "- - x": one bullet and its space go, the second bullet stays. */
  lemma CleanDoubleBullet(s: string)
    requires s == "- - x"
    ensures CleanLineItem(s) == "- x"
  {
    DoubleBulletOuter(s);
    DashXSteps("- x");
  }

  lemma CleanSingleBullet(s: string)
    requires s == "- x"
    ensures CleanLineItem(s) == "x"
  {
    DashXSteps(s);
    XSteps("x");
  }

  /** Cleaning is not idempotent: a second pass removes the second bullet. */
  lemma CleanNotIdempotent(s: string)
    requires s == "- - x"
    ensures CleanLineItem(CleanLineItem(s)) != CleanLineItem(s)
  {
    CleanDoubleBullet(s);
    CleanSingleBullet("- x");
  }

  lemma QuotedNumberedOuter(s: string)
    requires s == "\"1. x\""
    ensures Trim(s) == s && StripBullet(s) == s && StripQuotes(s) == "1. x"
  {
    TrimTrimmed(s);
    assert !StartsWithBullet(s) && IsQuoted(s) && |s| == 6;
    assert s[1..5] == "1. x";
  }

  /** A one-digit marker, a dot and one space come off, leaving the text after them. */
  lemma NumberedOneDigit(s: string, rest: string)
    requires |s| == |rest| + 3 && IsDigit(s[0]) && s[1] == '.' && s[2] == ' ' && s[3..] == rest
    requires rest != [] && !IsWhitespace(rest[0])
    ensures StripNumbering(s) == rest
  {
    assert TrimDigits(s) == TrimDigits(s[1..]);
    assert TrimDigits(s[1..]) == s[1..];
    assert s[1..][1..] == s[2..];
    assert TrimStart(s[2..]) == TrimStart(s[2..][1..]);
    assert s[2..][1..] == rest;
  }

  lemma NumberedQuotedOuter(s: string)
    requires s == "1. \"x\""
    ensures Trim(s) == s && StripBullet(s) == s && StripQuotes(s) == s
  {
    TrimTrimmed(s);
    assert !IsQuoted(s);
  }

  /** Quotes come off before the numeric marker, so a quoted numbered item is fully cleaned... */
  lemma CleanQuotedNumbered(s: string)
    requires s == "\"1. x\""
    ensures CleanLineItem(s) == "x"
  {
    QuotedNumberedOuter(s);
    NumberedOneDigit("1. x", "x");
    TrimTrimmed("x");
  }

  /** ...while a numbered quoted item keeps its quotes. */
  lemma CleanNumberedQuoted(s: string)
    requires s == "1. \"x\""
    ensures CleanLineItem(s) == "\"x\""
  {
    NumberedQuotedOuter(s);
    NumberedOneDigit(s, "\"x\"");
    TrimTrimmed("\"x\"");
  }
}
