# Folding ranges for LaTeX documents

This project models LaTeX-Workshop's `FoldingProvider`
(`src/providers/folding.ts`). The provider computes the folding ranges of a
LaTeX document, and it has two parts.

- **Section ranges.** A line that begins with `\section{…}`,
  `\subsection{…}`, `\subsubsection{…}`, … is a heading. Its level is the
  number of `sub` repetitions plus one. Its range runs from its own line to
  the line before the next heading of the same or a higher level. The last
  heading at or above its level has no such heading; its range runs to the
  last line of the document, or to the last line after it that contains
  `\end{document}`. One trailing blank line is then dropped, but never the
  heading's own line.
- **Environment ranges.** A breadth-first worklist runs over spans
  `(text, offset)` of the document. In each span the pattern
  `(\\begin{(.*?)})([\w\W]*)\\end{\2}` is applied repeatedly with the `g`
  flag. Each match yields the range (line of its `\begin`, line of its
  `\end{NAME}` − 1), and its body is queued, with the body's absolute
  offset, for the next round.

The result is the section ranges followed by the environment ranges.

## How the model is organised

- `common.dfy`: `Option` and the `FoldingRange(startLine, endLine)` pair.
- `line_index.dfy` (`LineIndex`): the document string and its lines.
  - `Lines` is `split(/\r?\n/)`.
  - `LineOf(doc, offset)` is `positionAt(offset).line`, counted as the
    number of `'\n'` before the offset.
  - `IsEmptyOrWhitespace` is the host's `isEmptyOrWhitespace`.
  - A line ends at `"\n"` or `"\r\n"`. This one convention serves both the
    split and the host's `lineCount`/`lineAt`/`positionAt`.
- `sections.dfy` (`Sections`): the section-range algorithm as recursive
  functions.
  - `SectionLevel` is the heading regex, checked against the declarative
    `IsSectionLine`.
  - `SectionsFrom`/`AllSections` are the `map`/`filter` pipeline.
  - `FirstClosing` is the forward sibling scan.
  - `EndDocumentScan` is the backward `\end{document}` scan.
  - `PreTrimEnd` and `SectionEnd` give each heading's end line, and
    `SectionRangesOf` gives the ranges.
- `section_properties.dfy` (`SectionProperties`): lemmas on how ranges nest,
  plus a partial-overlap example.
- `environment_match.dfy` (`EnvironmentMatch`): the environment pattern as a
  hand-written matcher.
  - `FindMatch` is one `exec`: the leftmost position where a match
    starts (a `\begin{` without a close is skipped), then the shortest name
    with no line terminator, then the longest body.
  - `MatchesFrom` is the sequence of successive `exec` results.
- `environments.dfy` (`Environments`): the worklist.
  - `EnvironmentFoldingRanges` is a method whose `while` loop runs rounds.
  - `ScanRound` is the `forEach` over one round.
  - `ScanSpan` is the `while (match)` loop over one span.
  - Each method is proved against the function `EnvironmentRanges`, which
    defines the same computation round by round.
- `environment_properties.dfy` (`EnvironmentProperties`):
  - the line arithmetic of a range;
  - the proof that every range lies in the document;
  - the proof that the ranges of one span are line-disjoint and that the
    ranges found in a queued body lie inside the range of the environment
    whose body it is;
  - two worked examples, one showing the greedy body and one showing where
    a range ends.
- `folding.dfy` (`Folding`): `ProvideFoldingRanges`, which concatenates the
  two parts.

### Where the code's behaviour is easy to misread

The model follows the code on these points:

- **An environment range ends on the line above its `\end{NAME}` line, not
  on that line.** The end position is `positionAt(offset + lastIndex).line - 1`.
  Because `\end{NAME}` holds no line break, that is the `\end` line minus
  one. `ItemizeExample` shows the environment on lines 0–2 folding as
  (0, 1). An environment that opens and closes on one line gets
  `endLine = startLine - 1`.
- **A section range is never degenerate.** The blank-line trim requires
  `endLine >= lineNumber + 1`, so `startLine <= endLine` always holds.
  `SectionRangesOf` proves it.
- **Section ranges are guaranteed to nest only when no `\end{document}`
  line lies between the first and the last heading.** The backward scan of
  the last heading at a level stops at an `\end{document}` line. A deeper
  heading above that line can still run past it, to its own sibling.
  `SectionRangesNest` proves that without such a line no two ranges
  partially overlap. With one, they can: `OverlapExample` shows the ranges
  (0, 2) and (1, 3). The condition is sufficient, not necessary: a
  document with an `\end{document}` line among the headings can still nest.

## Model

| member | source | states |
|---|---|---|
| LineIndex.Lines | src/providers/folding.ts:14 | `split(/\r?\n/)`: a line ends at "\n" or "\r\n", and there is always at least one line. LinesJoin, LinesCount and LinesHaveNoNewline state what the split keeps. |
| LineIndex.LinesJoin | src/providers/folding.ts:14 | Joining the lines of `split(/\r?\n/)` with "\n" gives back the document with each "\r\n" written as "\n". The split loses nothing else. |
| LineIndex.LinesCount | src/providers/folding.ts:14 | There is exactly one line more than there are '\n' characters. That count also equals the line of the document's end offset plus one, so line count and `positionAt` agree. |
| LineIndex.LinesHaveNoNewline | src/providers/folding.ts:14 | No line produced by the split contains a '\n'. |
| LineIndex.LineOf | src/providers/folding.ts:71-72 | `positionAt(offset).line` never exceeds the number of the document's last line. |
| LineIndex.LineDistance | src/providers/folding.ts:71-72 | The lines of two offsets differ by the number of '\n' between them. They are equal exactly when there is none. |
| LineIndex.IsEmptyOrWhitespace | src/providers/folding.ts:52 | `lineAt(endLine).isEmptyOrWhitespace`: every character of the line is a space or a tab, the empty line included. |
| Sections.ClosesTitle | src/providers/folding.ts:17 | The `.*}` tail matches from position i exactly when some `}` follows with no line terminator before it. |
| Sections.SectionLevel | src/providers/folding.ts:17-21 | The heading recogniser and `matches[1].length / 3 + 1`. SectionLevelCorrect and SectionLevelNone characterise it against the heading pattern. |
| Sections.SectionLevelCorrect | src/providers/folding.ts:17-21 | The recogniser returns level k + 1 exactly when the line is `\`, k times `sub`, `section{`, characters without a line terminator, and `}`, with the line starting at column 0. |
| Sections.SectionLevelNone | src/providers/folding.ts:18-19 | A line is rejected exactly when it matches for no number of `sub`. |
| Sections.SectionsFrom | src/providers/folding.ts:16-29 | The kept headings are in strictly increasing line order. Each has level ≥ 1 and the level its line carries. Every heading line of the range appears. The list is empty exactly when no line is a heading. |
| Sections.AllSections | src/providers/folding.ts:16-29 | The same guarantee holds for the whole document: every heading, in line order, with its level. |
| Sections.NoHeadingNoSections | src/providers/folding.ts:29 | The filter leaves nothing exactly when no line is a heading. |
| Sections.FirstClosing | src/providers/folding.ts:35-40 | It returns the first later heading whose level is at most heading i's, and every heading before it is deeper. If it returns none, every later heading is deeper. |
| Sections.ContainsEndDocument | src/providers/folding.ts:45 | `/\\end{document}/.test(line)`: the line holds `\end{document}` at some position. |
| Sections.EndDocumentScan | src/providers/folding.ts:44-49 | It returns the highest line in (startLine, e] that contains `\end{document}`, or none when no line in that interval does. |
| Sections.PreTrimEnd | src/providers/folding.ts:33-50 | Before the trim, a heading's end lies between its own line and the last line. |
| Sections.PreTrimEndClosed | src/providers/folding.ts:34-40 | When some later heading has the same or a higher level, the end is the line before the first such heading. |
| Sections.PreTrimEndUnclosed | src/providers/folding.ts:41-49 | Otherwise the end is the last line after the heading that contains `\end{document}`, or the document's last line when no such line exists. |
| Sections.SectionEnd | src/providers/folding.ts:52-54 | The trim moves the end up by one line exactly when that line is blank and is not the heading's own line; otherwise the end stays. The end is never above the heading. |
| Sections.SectionRangesOf | src/providers/folding.ts:29-57 | There is one range per heading, in heading order. Each starts on its heading's line and ends at SectionEnd. Every range satisfies 0 ≤ startLine ≤ endLine < number of lines. Starts strictly increase. |
| Sections.SectionFoldingRanges | src/providers/folding.ts:13-58 | `getSectionFoldingRanges`: SectionRangesOf applied to the document's lines, with the guarantees stated in the SectionRangesOf row. |
| SectionProperties.HeadingNotBlank | src/providers/folding.ts:52 | A heading line is never blank, so the trim never removes it. |
| SectionProperties.PreTrimNest | src/providers/folding.ts:33-50 | With no `\end{document}` among the headings, the pre-trim range of a later heading j starts after heading i's range ends, or ends no later than it. |
| SectionProperties.SectionEndNest | src/providers/folding.ts:29-57 | The same nesting holds after the trim. |
| SectionProperties.SectionRangesNest | src/providers/folding.ts:29-57 | With no `\end{document}` line between the first and the last heading, no two section ranges partially overlap. |
| SectionProperties.OverlapExample | src/providers/folding.ts:34-49 | For `\section{A}`, `\subsection{B}`, `\end{document}`, `x`, `\subsection{C}`, the first two ranges are (0, 2) and (1, 3). Without that condition, ranges can partially overlap. |
| EnvironmentMatch.MatchShape | src/providers/folding.ts:66 | Every match reads `\begin{NAME}`, body, `\end{NAME}`, with the same NAME in both places. |
| EnvironmentMatch.CloseOnOneLine | src/providers/folding.ts:66 | The close `\end{NAME}` of a match contains no '\n'. |
| EnvironmentMatch.LongestBody | src/providers/folding.ts:66 | `[\w\W]*` is greedy. The result is the longest body up to the bound that closes, and no longer body up to the bound closes. If it returns none, no body closes. |
| EnvironmentMatch.NameOfLength | src/providers/folding.ts:66 | For a name of exactly n characters followed by `}`, it returns the match with the longest body, or none when no body closes. |
| EnvironmentMatch.NameStopsAt | src/providers/folding.ts:66 | Once a line terminator appears at name position n, no name of n or more characters matches, because `.` excludes line terminators. |
| EnvironmentMatch.ShortestName | src/providers/folding.ts:66 | `(.*?)` is lazy. The result is the shortest name that closes, with its longest body, and no shorter name closes. If it returns none, no name of that length or more closes. |
| EnvironmentMatch.MatchAt | src/providers/folding.ts:66-67 | An attempt at position s yields the shortest-name, longest-body match starting there. If it yields none, no match starts at s. |
| EnvironmentMatch.FindMatch | src/providers/folding.ts:66-67 | One `exec` from `from` returns a match that starts leftmost at or after `from`, has the shortest name there, and has the longest body for that name. If it returns none, no match starts at or after `from`. |
| EnvironmentMatch.MatchesFrom | src/providers/folding.ts:67-79 | Successive `exec` calls give real matches in order, each starting at or after the previous one's end, so they never overlap. The list is empty exactly when the first `exec` fails. MatchesSuccessive states that each entry is the next `exec` result, and MatchesComplete that the loop stops only when `exec` fails. |
| EnvironmentMatch.MatchesSuccessive | src/providers/folding.ts:67-79 | The first listed match is the `exec` from `from`, and each later one is the `exec` from the end of the one before it, where `lastIndex` then stands. |
| EnvironmentMatch.MatchesComplete | src/providers/folding.ts:67-79 | The loop stops only when `exec` fails: no match starts at or after the end of the last listed match, or at or after `from` when the list is empty. |
| Environments.RangeOf | src/providers/folding.ts:69-74 | The range pushed for one match. MatchRange states its lines: the `\begin` line, and the `\end{NAME}` line minus one. |
| Environments.ChildOf | src/providers/folding.ts:75-78 | The span queued for one match: its body and absolute offset. ChildSpan states that it is the document slice after `\begin{NAME}`. |
| Environments.ChildSpan | src/providers/folding.ts:75-78 | A queued body is the document slice at its offset. That offset is match start + \|`\begin{NAME}`\|. The body is at least 14 characters shorter than its parent span. |
| Environments.RoundChildrenValid | src/providers/folding.ts:64-82 | Every span queued in a round is again a slice of the document at its offset. |
| Environments.RoundShrinks | src/providers/folding.ts:63-83 | Each round strictly decreases the total text length plus the span count, so the `while` loop terminates. |
| Environments.ScanSpan | src/providers/folding.ts:65-81 | The `while (match)` loop over one span appends exactly that span's ranges to `ranges` and that span's bodies to `newTextToMatch`, and keeps the queued spans valid. |
| Environments.ScanRound | src/providers/folding.ts:64-82 | The `forEach` over a round appends that round's ranges, and its `newTextToMatch` holds all the bodies of the round, in order. |
| Environments.EnvironmentRanges | src/providers/folding.ts:60-85 | The worklist as a function, round by round. EnvironmentFoldingRanges is proved equal to it, and EnvironmentRangesInDocument, NoEnvironmentNoRanges and ItemizeExample are proved about it. |
| Environments.EnvironmentFoldingRanges | src/providers/folding.ts:60-85 | The worklist loop returns exactly `EnvironmentRanges(doc)`: round after round, span after span, match after match. |
| EnvironmentProperties.MatchRange | src/providers/folding.ts:69-73 | A match's range runs from the line of its `\begin` to the line of its `\end{NAME}` minus one. So endLine ≥ startLine − 1, with equality exactly when the whole match lies on one line. |
| EnvironmentProperties.SiblingRangesDisjoint | src/providers/folding.ts:69-74 | Of two matches in one span, the first ending before the second starts, the first range ends on a line above the line on which the second range starts. |
| EnvironmentProperties.SpanRangesDisjoint | src/providers/folding.ts:67-79 | The ranges one span contributes are pairwise line-disjoint: each ends above the line on which any later one starts. |
| EnvironmentProperties.NestedRange | src/providers/folding.ts:69-74 | A match whose absolute text lies within another match's text has a range that starts no earlier and ends no later than the other's. |
| EnvironmentProperties.ChildRangeInside | src/providers/folding.ts:69-78 | A match found in the body queued for match m has a range that lies within m's range: it starts no earlier and ends no later. |
| EnvironmentProperties.ChildSpanRangesInside | src/providers/folding.ts:64-82 | Every range the k-th queued body of a span contributes in the next round lies within the k-th range of that span. |
| EnvironmentProperties.EnvironmentRangesInDocument | src/providers/folding.ts:60-85 | Every environment range starts on a line of the document. It ends no earlier than one line above its start and no later than the last line but one. |
| EnvironmentProperties.NoMatchNoOutput | src/providers/folding.ts:67-68 | A span adds no range and queues no body exactly when the first `exec` on it fails. |
| EnvironmentProperties.NoEnvironmentNoRanges | src/providers/folding.ts:60-85 | A document where `exec` fails at once has no environment ranges. |
| EnvironmentProperties.ShapeIsMatch | src/providers/folding.ts:66 | `\begin{NAME}`, any body, then `\end{NAME}`, with NAME free of line terminators, is a match wherever it appears. |
| EnvironmentProperties.FindMatchIs | src/providers/folding.ts:66-67 | An `exec` from a match's start returns that match when no shorter name and no longer body closes there. |
| EnvironmentProperties.GreedyExample | src/providers/folding.ts:66 | In `\begin{a}\end{a}\begin{a}\end{a}` the first `\end{a}` would close a match. Even so, `exec` runs to the last one. The body is `\end{a}\begin{a}`, and the text yields one match, not two. |
| EnvironmentProperties.ItemizeExample | src/providers/folding.ts:60-85 | `\begin{itemize}`, `item`, `\end{itemize}` on lines 0–2 give exactly one range, (0, 1). |
| Folding.FoldingRanges | src/providers/folding.ts:10 | The provider's result as a value. ProvideFoldingRanges returns it, and FoldingRangesInDocument and NoMarkersNoRanges are proved about it. |
| Folding.ProvideFoldingRanges | src/providers/folding.ts:5-11 | The result is the section ranges followed by the environment ranges: its prefix is the one and its suffix is the other. |
| Folding.FoldingRangesInDocument | src/providers/folding.ts:10 | Every returned range starts on a line of the document. It ends on a line of the document, or one line above its start. |
| Folding.NoMarkersNoRanges | src/providers/folding.ts:10 | A document with no heading line and no environment match yields no range. |

## Left out

- VS Code API types: the model uses plain pairs for `vscode.FoldingRange`, and a string for `TextDocument`. The `FoldingContext` and `CancellationToken` parameters are ignored by the provider and are not modelled.
- Host line model: `lineAt`, `lineCount` and `positionAt` share the split's convention, where a line ends at "\n" or "\r\n". The host also treats a lone "\r" as a line break; the split does not. Documents containing a lone "\r" are therefore not modelled faithfully.
- Regex details: `.` excludes only '\n' and '\r'. JavaScript's `.` also excludes U+2028 and U+2029, which are not modelled. Strings are sequences of characters rather than UTF-16 code units.
- Whitespace: `isEmptyOrWhitespace` accepts only spaces and tabs. The host's exact whitespace class is not modelled.
- Performance: the `filter` inside `map` (quadratic in the number of headings) and the regex engine's backtracking are not modelled. Only results are modelled.
- The `--` in `endLine = endLineCopy--` has no effect, because the loop breaks right after it. The model assigns the matching line itself.
- Nesting of the whole environment list: disjointness and containment are stated for two ranges of one span (SpanRangesDisjoint) and for a range and the ranges of its own body (ChildSpanRangesInside). A statement over any two entries of the flattened list, such as ranges from bodies of different environments, is not proved.
- Idempotence: every function is a pure function of the document text, so repeated calls on the same text give equal results without a separate lemma.
