# Line-scanning extraction engine, modelled in Dafny

A model of the text-extraction core of a small labelling-guide converter. The
converter reads a plain-text guide and extracts three things:

- the main topic: the first non-blank line;
- the sub-topics: the `label: value` lines of the "Keyword Reference" section;
- the edge cases: the non-blank lines of the "Edge Cases" / "Edge Case Guidance" section.

It also has two string normalisers: `slugify` and `cleanLineItem`.

The project is organised by the program's structure:

- `text.dfy` (module `Text`): the JavaScript string primitives the code relies on.
  - exact ECMAScript white space (the set `\s` and `trim` share);
  - line terminators, digits, word characters;
  - ASCII lower-casing of one character;
  - `trim`;
  - `split('\n')` with its inverse `Join`.
- `patterns.dfy` (module `Patterns`): the four regular expressions of `src/parser.ts`, written as predicates.
  - `RE_KEYWORDS` and `RE_EDGE` strip the lead-in `\s*\d*\.?\s*` greedily. The lead-in classes are disjoint from each other and from the first letter of the literal, so greedy stripping finds the only split the regex can use.
  - Case-insensitive literals compare ASCII-lowered characters. This is exact for the `i` flag without `u`.
  - `\b` is decided by `[A-Za-z0-9_]`.
  - `RE_NEXT_SECTION` is modelled with its `m` flag: it matches at the start of the line or right after any line terminator inside it.
  - `RE_TOPIC_LINE` holds exactly when the first `:` sits at index ≥ 1 and the text after it can be split into a non-empty white-space run and a non-empty run with no line terminator.
- `sections.dfy` (module `Sections`): the three-state walk (outside, inside, stopped) shared by `extractSubTopics` and `extractEdgeCases`, with the classifiers as parameters. It has two definitions, proved equal:
  - `WalkLines`: a fold of one `Step` over the lines, which is what the loop does;
  - `SectionSpec`: an index-based description. It takes the first header `h`, the first later line `e` that ends the section, and the kept lines strictly between them.
- `parser.dfy` (module `Parser`): the three extractors.
  - `ExtractSubTopics` and `ExtractEdgeCases` are methods with `while` loops over the split lines. Each loop keeps the walk state and the output list. The loop invariant ties them to the fold, and the postcondition ties the result to the index-based description.
  - `extractMainTopic` only searches, so `MainTopicOf` / `ExtractMainTopic` are recursive functions.
- `utils.dfy` (module `Utils`): `slugify` and `cleanLineItem` as functions, each step a function of its own.
- `examples.dfy` (module `Examples`): the extractors and `cleanLineItem` worked through on concrete documents and lines.

Nothing here reads files, touches the network or the clock. Every operation is a total function of its string input.

## What the code does, and what it does not do

The model follows the code of `src/parser.ts` and `src/utils.ts`. Several of its behaviours are simpler than a reader of the guides might expect; each point is proved:

- `cleanLineItem` is **not** idempotent. `"- - x"` cleans to `"- x"`, and that cleans to `"x"` (`Examples.CleanNotIdempotent`).
- `cleanLineItem` strips quotes **before** the numeric marker, not after it.
  - `"\"1. x\""` cleans to `"x"`.
  - `1. "x"` keeps its quotes (`Examples.CleanQuotedNumbered`, `Examples.CleanNumberedQuoted`).
  - Only straight quotes `"` and `'` are recognised; there are no curly quotes.
- `extractMainTopic` returns the whole first non-blank line.
  - It skips no header.
  - It strips no "Labeling Instructions" phrase.
  - It does not reject `label: value` lines (`Examples.TitleLineExample`).
- The edge-case walk keeps bullets and quotes. `- "Do not use near water"` is returned as it stands (`Examples.EdgeSectionExample`).
- The sub-topic walk records every `label: value` line of the section verbatim, after `trim`.
  - It has no `Keywords:` prefix handling and no noise-prefix filtering.
  - A lettered title such as `A. Category One` is passed over only because it has no colon.
- Neither walk looks for a particular next heading. Each one stops at the first numbered section line (`N. Capital…`) that is not a header of its own kind.
  - A numbered header of the walk's own kind is skipped as a repeated header. Examples are `3. Keyword Reference` in the sub-topic walk and `5. Edge Cases` in the edge-case walk (`Parser.SubTopicsSkipRepeatedHeader`, `Parser.EdgeCasesSkipRepeatedHeader`).
  - The sub-topic walk also stops at any Edge header, numbered or not (`Parser.InsideGuards`).
  - A numbered `3. Keyword Reference` inside the edge section ends it (`Examples.NumberedKeywordHeaderInWalks`).
- There is no document-wide fallback scan: without a header the result is empty (`Parser.SubTopicsNeedHeader`, `Parser.EdgeCasesNeedHeader`).
- The edge-case walk strips no quotes, and no line of either walk is filtered as noise.
- Lines that contain `'\r'`, U+2028 or U+2029 are not excluded by a precondition; the `m` flag and `.` are modelled exactly instead.

## Model

| member | source | states |
|---|---|---|
| Text.IsWhitespace | src/parser.ts:1-9 | the characters `\s` matches and `trim` removes: the ECMAScript WhiteSpace and LineTerminator code points |
| Text.Split | src/parser.ts:7 | `split('\n')` gives at least one piece, no piece holds '\n', and joining the pieces with '\n' gives the input back |
| Text.SplitJoin | src/parser.ts:7 | splitting a '\n'-join of newline-free lines gives exactly those lines: split is the inverse of join |
| Text.Trim | src/parser.ts:9 | `trim` returns a string with no white space at either end, never longer than its input |
| Text.TrimParts | src/parser.ts:9 | `trim` keeps a contiguous middle piece of its input and removes only white space before and after it |
| Text.TrimEmpty | src/parser.ts:10 | `trim` gives "" exactly when the line is all white space |
| Text.TrimKeeps | src/parser.ts:9-10 | every non-white-space character of a line survives `trim` |
| Text.TrimIdempotent | src/parser.ts:9 | `trim` applied twice equals `trim` applied once |
| Text.TrimUnchanged | src/utils.ts:13 | `trim` returns its input exactly when the input is already trimmed, and otherwise something strictly shorter |
| Patterns.IsKeywordsHeader | src/parser.ts:1 | `RE_KEYWORDS`: a lead-in of optional white space, optional digits, an optional '.' and optional white space, then "Keyword Reference" in any ASCII case |
| Patterns.IsEdgeHeader | src/parser.ts:2 | `RE_EDGE`: the same lead-in, then "Edge Case Guidance" or "Edge Cases" in any ASCII case, ending at a word boundary |
| Patterns.IsNextSection | src/parser.ts:3 | `RE_NEXT_SECTION` with its `m` flag: at the start or right after a line terminator, optional white space, one or more digits, '.', at least one white-space character and an upper-case letter |
| Patterns.IsTopicLine | src/parser.ts:4 | `RE_TOPIC_LINE`: the first ':' is at index 1 or later, and the rest of the line after it is a non-empty white-space run followed by a non-empty run with no line terminator |
| Patterns.StripSectionNumber | src/parser.ts:1-2 | the lead-in `\s*\d*\.?\s*` of `RE_KEYWORDS` and `RE_EDGE`, taken greedily class by class; what is left does not start with white space |
| Patterns.StartsWithIgnoringCaseAt | src/parser.ts:1-2 | a case-insensitive literal match holds iff the line is long enough and each character lowers to the literal's character |
| Patterns.KeywordsNotEdge | src/parser.ts:1-2 | no line matches both `RE_KEYWORDS` and `RE_EDGE` |
| Patterns.KeywordsHeaderNotBlank | src/parser.ts:1 | a line matching `RE_KEYWORDS` is never blank after `trim` |
| Patterns.EdgeHeaderTrim | src/parser.ts:2 | `RE_EDGE` matches a line iff it matches the line's trim |
| Patterns.StripPlainStart | src/parser.ts:1-2 | a line starting with no white space, digit or '.' has an empty lead-in |
| Patterns.NumberedLeadIn | src/parser.ts:1-3 | on a line opening with one digit, '.', one space and a non-white-space character, the header lead-in is those three characters, and the numbered-title shape of `RE_NEXT_SECTION` matches at index 0 iff index 3 is an upper-case letter; matches after a line terminator are the subject of `Patterns.NextSectionAnyLineStart` |
| Patterns.NextSectionAnyLineStart | src/parser.ts:3 | `RE_NEXT_SECTION` matches iff the numbered-title shape occurs at index 0 or right after some line terminator (the `m` flag) |
| Patterns.PlainLineNotNext | src/parser.ts:3 | a one-line string that opens with neither white space nor a digit never matches `RE_NEXT_SECTION` |
| Patterns.FirstColon | src/parser.ts:4 | returns the index of the first ':' (no ':' before it), or the length when there is none |
| Patterns.FirstColonAt | src/parser.ts:4 | a ':' with no ':' before it is the one `FirstColon` finds |
| Patterns.ValueTextSplit | src/parser.ts:4 | the tail `\s+.+$` holds iff the text splits into a non-empty white-space run and a non-empty run with no line terminator |
| Patterns.TopicLineAt | src/parser.ts:4 | a one-line string whose first ':' is at index ≥ 1 and is followed by white space and more text matches `RE_TOPIC_LINE` |
| Patterns.TopicLineTrim | src/parser.ts:35-38 | a `label: value` line survives `trim` non-empty and keeps its ':' |
| Sections.Step | src/parser.ts:23-41 | one iteration of the loop: a stopped walk stays stopped, a header enters the section, an end line inside stops it, and a kept line inside adds its trim |
| Sections.WalkLines | src/parser.ts:22-42 | the loop over all lines from outside with nothing kept, as a fold of `Step` |
| Sections.SectionSpec | src/parser.ts:22-42 | the index-based description of the loop's result: the first header `h`, the first end line `e` after it, and the trims of the kept lines strictly between |
| Sections.FirstFrom | src/parser.ts:22-28 | returns the first line at or after `from` that satisfies the test, or the end; no earlier line satisfies it |
| Sections.WalkStaysStopped | src/parser.ts:31-33 | after `break` (the stopped state) the remaining lines leave the walk unchanged |
| Sections.WalkMatchesSpec | src/parser.ts:22-42 | the line-by-line walk equals the index-based description: first header, first end after it, kept lines between |
| Sections.WalkLinesAppend | src/parser.ts:22-42 | walking `lines + more` equals walking `lines` and then continuing over `more` |
| Sections.SectionProvenance | src/parser.ts:22-42 | items are, in increasing line order, the trims of exactly the kept lines strictly between the first header and the first end |
| Sections.SectionCut | src/parser.ts:31-33 | once the walk has stopped, appending lines does not change the walk |
| Sections.SectionIgnoresPrefix | src/parser.ts:25-30 | header-free lines in front do not change the walk |
| Sections.SectionSkipsHeader | src/parser.ts:25-28 | after the first header, a further header line changes nothing |
| Parser.MainTopicOf | src/parser.ts:8-14 | the result is trimmed, and it is "" exactly when every line trims to "" |
| Parser.MainTopicSource | src/parser.ts:8-13 | a non-empty topic is the trim of some line `k`, and every line before `k` is blank |
| Parser.MainTopicOfOneLine | src/parser.ts:6-15 | a document with no '\n' has the trim of its only line as main topic |
| Parser.ExtractMainTopic | src/parser.ts:6-15 | the result is trimmed, and it is "" exactly when the whole document is white space (the empty document included) |
| Parser.BlankLines | src/parser.ts:7-14 | a '\n'-joined document is all white space iff each of its lines trims to "" |
| Parser.EndsKeywordSection | src/parser.ts:31 | the exit test of the sub-topic walk: an Edge header, or a numbered section line that is not a Keyword Reference header (`Parser.InsideGuards` states the source's form of it) |
| Parser.IsSubTopicLine | src/parser.ts:35-38 | the line the sub-topic walk keeps: a non-header line matching `RE_TOPIC_LINE` |
| Parser.SubTopicsOf | src/parser.ts:17-45 | the sub-topics of a list of lines: the items of the section description with the Keyword Reference header, `EndsKeywordSection` as exit and `IsSubTopicLine` as the lines kept |
| Parser.ExtractSubTopics | src/parser.ts:17-45 | the loop returns exactly the sub-topics of the index-based description of the split document |
| Parser.SubTopicsNeedHeader | src/parser.ts:20-30 | with no Keyword Reference header there are no sub-topics |
| Parser.SubTopicsProvenance | src/parser.ts:25-39 | sub-topics are, in document order, the trims of exactly the `label: value` non-header lines strictly between the first Keyword Reference header and the first later line that matches `RE_EDGE` or `RE_NEXT_SECTION` without being a Keyword Reference header itself |
| Parser.SubTopicItemsShape | src/parser.ts:35-39 | every sub-topic is non-empty, trimmed and contains ':'; there are no more of them than lines |
| Parser.SubTopicsIgnorePrefix | src/parser.ts:20-30 | lines before the first Keyword Reference header never contribute |
| Parser.SubTopicsCut | src/parser.ts:31-33 | nothing after the line that stops the walk is emitted |
| Parser.SubTopicsSkipRepeatedHeader | src/parser.ts:25-28 | a later Keyword Reference header, numbered or not, is skipped: it neither stops the walk nor contributes |
| Parser.EndsEdgeSection | src/parser.ts:61 | the exit test of the edge-case walk: a numbered section line that is not an Edge header |
| Parser.IsEdgeCaseLine | src/parser.ts:65-66 | the line the edge-case walk keeps: not blank after `trim` and not an Edge header (`Patterns.EdgeHeaderTrim`: testing the trimmed line, as the source does, gives the same answer) |
| Parser.EdgeCasesOf | src/parser.ts:47-73 | the edge cases of a list of lines: the items of the section description with the Edge header, `EndsEdgeSection` as exit and `IsEdgeCaseLine` as the lines kept |
| Parser.ExtractEdgeCases | src/parser.ts:47-73 | the loop returns exactly the edge cases of the index-based description of the split document |
| Parser.EdgeCasesNeedHeader | src/parser.ts:50-60 | with no Edge header there are no edge cases |
| Parser.EdgeCasesProvenance | src/parser.ts:55-68 | edge cases are, in document order, the trims of exactly the non-blank non-Edge-header lines strictly between the first Edge header and the first later line that matches `RE_NEXT_SECTION` without being an Edge header itself |
| Parser.EdgeItemsShape | src/parser.ts:65-68 | every edge case is non-empty, trimmed and not an Edge header; there are no more of them than lines |
| Parser.EdgeCasesIgnorePrefix | src/parser.ts:50-60 | lines before the first Edge header never contribute |
| Parser.EdgeCasesCut | src/parser.ts:61-63 | nothing after the line that stops the walk is emitted |
| Parser.EdgeCasesSkipRepeatedHeader | src/parser.ts:55-58 | a later Edge header is skipped: it neither stops the walk nor is emitted |
| Parser.InsideGuards | src/parser.ts:25-66 | the sub-topic exit is exactly the source's `RE_EDGE || (RE_NEXT_SECTION && !RE_KEYWORDS)`; for a line that is not a header of its own walk the exits reduce to `RE_EDGE ∨ RE_NEXT_SECTION` and `RE_NEXT_SECTION`; the `!RE_EDGE.test(trimmed)` filter is the same test on the untrimmed line |
| Parser.KeywordLineInEdgeSection | src/parser.ts:60-68 | inside the Edge section a Keyword Reference line is emitted, unless it is also a numbered section line, which ends the walk |
| Utils.LowerAscii | src/utils.ts:3 | lower-casing keeps the length and lowers each character |
| Utils.Collapse | src/utils.ts:4 | the result has only `[a-z0-9-]` and no two neighbouring dashes; a leading slug character is kept and a leading run becomes a leading '-' |
| Utils.CollapseRun | src/utils.ts:4 | a run of non-`[a-z0-9]` characters before a slug character becomes exactly one '-' |
| Utils.CollapseSeparators | src/utils.ts:4 | a non-empty string with no `[a-z0-9]` character collapses to a single '-' |
| Utils.CollapseAppend | src/utils.ts:4 | across a slug character the two sides are collapsed independently and concatenated |
| Utils.CollapseSeparates | src/utils.ts:4 | a maximal run of non-`[a-z0-9]` characters between two slug characters becomes exactly one '-' at its place |
| Utils.TrimDashes | src/utils.ts:5 | removing the leading and trailing dashes leaves a string that neither starts nor ends with '-' |
| Utils.TrimDashesParts | src/utils.ts:5 | removing the leading and trailing dashes keeps a contiguous middle piece and drops only dashes |
| Utils.Slugify | src/utils.ts:1-6 | the result is a slug: only `[a-z0-9-]`, no `--`, no leading or trailing '-'; "" maps to "". Where the dashes go is stated by three lemmas. An input with a letter or digit is made of outer separator runs, words and the separator runs between words. `Utils.SlugifyEnds` drops the outer runs, `Utils.SlugifySeparates` turns each inner run into one '-', and `Utils.SlugifyWord` lowers each word with no dash inside. `Utils.SlugifyEmpty` covers an input with no letter or digit |
| Utils.SlugifySeparates | src/utils.ts:1-6 | a word break (a maximal run of characters that do not lower to `[a-z0-9]`, between two that do) becomes exactly one '-' in the slug, and the two sides are slugged independently |
| Utils.SlugifyWord | src/utils.ts:1-6 | a word whose every character lowers to `[a-z0-9]` is slugged to its lower-case form, so no '-' appears inside it |
| Utils.SlugifyEnds | src/utils.ts:1-6 | separators before the first and after the last character that lowers to `[a-z0-9]` leave no trace: `slugify(x + s + y) == slugify(s)` |
| Utils.LowerWordIsSlug | src/utils.ts:3 | a word whose every character lowers to `[a-z0-9]` lowers to a slug with no '-' |
| Utils.CollapseFramedBy | src/utils.ts:4 | separator runs in front of and behind a piece that starts and ends with a slug character collapse to at most one '-' each |
| Utils.TrimDashesFramedBy | src/utils.ts:5 | removing the leading and trailing dashes takes away exactly the runs of dashes around a piece that neither starts nor ends with '-' |
| Utils.SlugifyLetters | src/utils.ts:3-4 | deleting the dashes of the slug gives the lowered letters and digits of the input, in order |
| Utils.SlugifyEmpty | src/utils.ts:1-6 | the slug is "" exactly when the lowered input has no ASCII letter or digit |
| Utils.SlugifyFixed | src/utils.ts:1-6 | `slugify` leaves a string unchanged exactly when it is a slug |
| Utils.SlugifyIdempotent | src/utils.ts:1-6 | `slugify(slugify(s)) == slugify(s)` |
| Utils.IsBullet | src/utils.ts:16 | the bullet class `[•*\-–—]` |
| Utils.StripBullet | src/utils.ts:16 | after a leading bullet exactly that bullet and the maximal white-space run after it are removed: the result is the suffix that follows them and does not start with white space; without a bullet the input is unchanged |
| Utils.IsQuoted | src/utils.ts:19-20 | the string starts and ends with the same straight quote, a lone quote included |
| Utils.StripQuotes | src/utils.ts:19-22 | for a quoted string of two or more characters the result is two shorter, and putting the matching quote back on both ends of it gives the input; a lone quote becomes ""; an unquoted string is unchanged |
| Utils.StartsWithNumbering | src/utils.ts:25 | `^\d+[.)]`: one or more digits, then '.' or ')' |
| Utils.StripNumbering | src/utils.ts:25 | after a numeric marker exactly its maximal digit run, the '.' or ')' and the maximal white-space run after it are removed: the result is the suffix that follows them and does not start with white space; without a marker the input is unchanged |
| Utils.CleanLineItem | src/utils.ts:12-28 | the cleaned item is trimmed and never longer than the line |
| Utils.CleanLineItemPiece | src/utils.ts:13-27 | the cleaned item is a contiguous substring of the line |
| Utils.CleanLineItemUnchanged | src/utils.ts:12-28 | a line comes back unchanged iff it is trimmed, starts with no bullet, is not wrapped in matching straight quotes and starts with no numeric marker |
| Utils.CleanLoneQuote | src/utils.ts:19-21 | a line that trims to a lone `"` or `'` is cleaned to "" |
| Examples.CleanNotIdempotent | src/utils.ts:16-25 | for `"- - x"` a second cleaning gives a different result from the first |
| Examples.CleanDoubleBullet | src/utils.ts:16 | `"- - x"` is cleaned to `"- x"`: only one bullet is removed |
| Examples.CleanQuotedNumbered | src/utils.ts:19-25 | `"\"1. x\""` is cleaned to `"x"`: quotes first, then the marker |
| Examples.CleanNumberedQuoted | src/utils.ts:19-25 | `1. "x"` is cleaned to `"x"` with its quotes, since the quote step came first |
| Examples.KeywordWalkOfFour | src/parser.ts:25-39 | header, passed-over line, kept line, stopping line: the sub-topics are the kept line's trim only |
| Examples.KeywordSectionExample | src/parser.ts:17-45 | a numbered Keyword Reference section with a lettered title and a `Keywords:` line, ended by "4. Labeling Examples", yields exactly the `Keywords:` line |
| Examples.EdgeWalkOfThree | src/parser.ts:55-68 | header, kept line, stopping line: the edge cases are the kept line's trim only |
| Examples.EdgeSectionExample | src/parser.ts:47-73 | "5. Edge Cases", a bulleted quoted line, "6. Common Pitfalls" yields the bulleted line with bullet and quotes |
| Examples.NumberedKeywordHeader | src/parser.ts:1-3 | "3. Keyword Reference" matches `RE_KEYWORDS` and `RE_NEXT_SECTION` but not `RE_EDGE` |
| Examples.NumberedKeywordHeaderInWalks | src/parser.ts:31-61 | "3. Keyword Reference" does not stop the sub-topic walk but does stop the edge walk |
| Examples.UnnumberedKeywordLineInEdgeSection | src/parser.ts:60-68 | "Keyword Reference" inside the Edge section does not stop the walk and is emitted |
| Examples.CategoryTitleLine | src/parser.ts:1-4 | "A. Category One" is no header, no numbered section line and no `label: value` line |
| Examples.KeywordsLine | src/parser.ts:1-4 | "Keywords: spark, flame, ignition" is a `label: value` line, no header and no section line, and `trim` keeps it whole |
| Examples.LabelingExamplesLine | src/parser.ts:1-3 | "4. Labeling Examples" is a numbered section line and no header |
| Examples.BulletQuoteLine | src/parser.ts:2-3 | a bulleted quoted line is Edge content kept whole by `trim` |
| Examples.CommonPitfallsLine | src/parser.ts:2-3 | "6. Common Pitfalls" is a numbered section line and no Edge header |
| Examples.TitleLineExample | src/parser.ts:6-15 | the one-line documents "Widget Safety Labeling Instructions" and "Topic: Battery Handling" are each returned whole as the main topic |
| Examples.EmptyDocument | src/parser.ts:6-15 | the empty document splits to `[""]`, has topic "" and no sub-topics or edge cases |

## Left out

- `src/App.tsx` is not part of this model: React state, rendering, and the webhook `fetch` are UI and network plumbing. Its `conversion`/`isValid` glue only splits, trims and filters.
- `sha256` (src/utils.ts:30-37) is left out: an asynchronous call into Web Crypto.
- `nowIso` (src/utils.ts:39-41) is left out: it reads the wall clock.
- `prettyJson` (src/utils.ts:8-10) is left out: a wrapper over `JSON.stringify`.
- `src/types.ts` holds only type declarations and is not part of this model.
- Utils.LowerAscii: lowers ASCII letters only. JavaScript's `toLowerCase` also maps non-ASCII letters. A few of them land in `[a-z]`: U+212A KELVIN SIGN becomes 'k', and U+0130 becomes 'i' followed by U+0307. The model turns such characters into '-' like any other non-slug character. `Utils.SlugifyLetters` is therefore stated for ASCII lowering.
- Strings are sequences of Unicode scalar values, not of UTF-16 code units. On text outside the Basic Multilingual Plane, `.` and `slice` count differently from JavaScript.
