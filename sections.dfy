/**
 * Section folding ranges (`getSectionFoldingRanges`): every line that begins
 * with `\section{...}`, `\subsection{...}`, `\subsubsection{...}`, ... opens a
 * range that runs to just before the next heading of the same or a higher
 * level, or, for the last heading of its level, to the document's last line
 * or its last `\end{document}` line; one trailing blank line is left out.
 */
module Sections {
  import opened Common
  import opened LineIndex

  /** A recognised heading: its level (1 for `\section`) and its line. */
  datatype Section = Section(level: nat, lineNumber: nat)

  /** `sub` repeated k times. */
  function Subs(k: nat): (s: string)
    ensures |s| == 3 * k
  {
    if k == 0 then "" else "sub" + Subs(k - 1)
  }

  /** The fixed part of a heading of level k + 1: `\` `sub`^k `section{`. */
  function MarkerHead(k: nat): (s: string)
    ensures |s| == 3 * k + 9
  {
    "\\" + Subs(k) + "section{"
  }

  /**
   * A line the regular expression `^\\((?:sub)*)section{.*}` matches with k
   * repetitions of `sub`: the head at column 0, then a `}` with no line
   * terminator between the `{` and it.
   */
  ghost predicate IsSectionLine(line: string, k: nat) {
    var h := 3 * k + 9;
    h <= |line| && line[..h] == MarkerHead(k) &&
    exists p :: h <= p < |line| && line[p] == '}' && NoLineBreak(line[h..p])
  }

  /** How many times `sub` occurs back to back from position i. */
  function SubRun(line: string, i: nat): (k: nat)
    ensures i + 3 * k <= |line| || k == 0
    decreases |line| - i
  {
    if i + 3 <= |line| && line[i..i + 3] == "sub" then 1 + SubRun(line, i + 3) else 0
  }

  /** Whether a `}` follows position i before any line terminator: `.*}`. */
  function ClosesTitle(line: string, i: nat): (r: bool)
    ensures r <==> exists p :: i <= p < |line| && line[p] == '}' && NoLineBreak(line[i..p])
    decreases |line| - i
  {
    if i >= |line| then false
    else if line[i] == '}' then
      assert NoLineBreak(line[i..i]);
      true
    else if IsLineTerminator(line[i]) then
      assert forall p :: i < p < |line| ==> line[i..p][0] == line[i];
      false
    else
      var r := ClosesTitle(line, i + 1);
      assert forall p :: i < p <= |line| ==> line[i..p] == [line[i]] + line[i + 1..p];
      r
  }

  /**
   * The heading level of a line, as `matches[1].length / 3 + 1` computes it,
   * or None when the line is not a heading.
   */
  function SectionLevel(line: string): (level: Option<nat>) {
    var k := SubRun(line, 1);
    var h := 3 * k + 9;
    if 1 <= |line| && line[0] == '\\' && h <= |line| && line[h - 8..h] == "section{" && ClosesTitle(line, h)
    then Some(k + 1)
    else None
  }

  /** The `sub` run stops at the first "section{". */
  lemma {:induction false} SubRunOfHead(line: string, i: nat, k: nat)
    requires i + 3 * k + 8 <= |line| && line[i..i + 3 * k + 8] == Subs(k) + "section{"
    ensures SubRun(line, i) == k
    decreases k
  {
    if k == 0 {
      assert line[i..i + 8] == "section{";
      assert line[i + 1] == line[i..i + 8][1] == 'e';
      assert line[i..i + 3][1] == 'e';
    } else {
      assert line[i..i + 3] == line[i..i + 3 * k + 8][..3];
      assert line[i + 3..i + 3 * k + 8] == line[i..i + 3 * k + 8][3..];
      SubRunOfHead(line, i + 3, k - 1);
    }
  }

  /** What SubRun counts is really `sub` repeated. */
  lemma {:induction false} SubRunIsSubs(line: string, i: nat)
    requires i <= |line|
    ensures i + 3 * SubRun(line, i) <= |line|
    ensures line[i..i + 3 * SubRun(line, i)] == Subs(SubRun(line, i))
    decreases |line| - i
  {
    if i + 3 <= |line| && line[i..i + 3] == "sub" {
      SubRunIsSubs(line, i + 3);
      var k := SubRun(line, i);
      assert line[i..i + 3 * k] == line[i..i + 3] + line[i + 3..i + 3 * k];
    }
  }

  /** The recogniser finds exactly the headings, with level = repetitions of `sub` + 1. */
  lemma SectionLevelCorrect(line: string, k: nat)
    ensures SectionLevel(line) == Some(k + 1) <==> IsSectionLine(line, k)
  {
    var h := 3 * k + 9;
    if IsSectionLine(line, k) {
      assert line[1..h] == line[..h][1..];
      assert MarkerHead(k)[1..] == Subs(k) + "section{";
      SubRunOfHead(line, 1, k);
      assert line[h - 8..h] == line[..h][h - 8..];
      assert line[0] == line[..h][0];
    }
    if SectionLevel(line) == Some(k + 1) {
      SubRunIsSubs(line, 1);
      assert line[..h] == [line[0]] + line[1..h - 8] + line[h - 8..h];
    }
  }

  /** A line is no heading exactly when it matches for no number of `sub`. */
  lemma SectionLevelNone(line: string)
    ensures SectionLevel(line).None? <==> forall k: nat :: !IsSectionLine(line, k)
  {
    if SectionLevel(line).Some? {
      var k := SectionLevel(line).value - 1;
      SectionLevelCorrect(line, k);
    } else {
      forall k: nat ensures !IsSectionLine(line, k) {
        SectionLevelCorrect(line, k);
      }
    }
  }

  /** Headings listed in line order, each with the level of its line. */
  ghost predicate ValidSections(lines: seq<string>, secs: seq<Section>) {
    (forall k :: 0 <= k < |secs| ==>
       secs[k].level >= 1 && HeadingAt(lines, secs, k)) &&
    InLineOrder(lines, secs)
  }

  /** Entry k names a line of the document whose level it records. */
  ghost predicate HeadingAt(lines: seq<string>, secs: seq<Section>, k: nat)
    requires k < |secs|
  {
    secs[k].lineNumber < |lines| && SectionLevel(lines[secs[k].lineNumber]) == Some(secs[k].level)
  }

  /** Entries name lines of the document, in strictly increasing order. */
  ghost predicate InLineOrder(lines: seq<string>, secs: seq<Section>) {
    (forall k :: 0 <= k < |secs| ==> secs[k].lineNumber < |lines|) &&
    (forall k, l :: 0 <= k < l < |secs| ==> secs[k].lineNumber < secs[l].lineNumber)
  }

  /** What SectionsFrom promises about the headings on lines i.. . */
  ghost predicate ListsHeadingsFrom(lines: seq<string>, i: nat, secs: seq<Section>) {
    ValidSections(lines, secs) &&
    (forall k :: 0 <= k < |secs| ==> i <= secs[k].lineNumber) &&
    (forall j :: i <= j < |lines| && SectionLevel(lines[j]).Some? ==>
       exists k :: 0 <= k < |secs| && secs[k].lineNumber == j)
  }

  /** One recursion step of SectionsFrom keeps ListsHeadingsFrom. */
  lemma SectionsStep(lines: seq<string>, i: nat, rest: seq<Section>)
    requires i < |lines| && ListsHeadingsFrom(lines, i + 1, rest)
    ensures SectionLevel(lines[i]).None? ==> ListsHeadingsFrom(lines, i, rest)
    ensures SectionLevel(lines[i]).Some? ==>
              ListsHeadingsFrom(lines, i, [Section(SectionLevel(lines[i]).value, i)] + rest)
  {
    if SectionLevel(lines[i]).Some? {
      ConsValid(lines, i, rest);
      ConsCovers(lines, i, rest);
    }
  }

  /** A heading on line i in front of headings from line i + 1 on keeps levels and order. */
  lemma ConsValid(lines: seq<string>, i: nat, rest: seq<Section>)
    requires i < |lines| && SectionLevel(lines[i]).Some?
    requires ValidSections(lines, rest) && forall k :: 0 <= k < |rest| ==> i + 1 <= rest[k].lineNumber
    ensures ValidSections(lines, [Section(SectionLevel(lines[i]).value, i)] + rest)
    ensures forall k :: 0 <= k < |rest| + 1 ==>
              i <= ([Section(SectionLevel(lines[i]).value, i)] + rest)[k].lineNumber
  {
    var secs := [Section(SectionLevel(lines[i]).value, i)] + rest;
    forall k | 1 <= k < |secs|
      ensures secs[k] == rest[k - 1] && HeadingAt(lines, secs, k)
    {
      assert HeadingAt(lines, rest, k - 1);
    }
    assert HeadingAt(lines, secs, 0);
  }

  /** The heading on line i, put in front, completes the coverage of lines i.. . */
  lemma ConsCovers(lines: seq<string>, i: nat, rest: seq<Section>)
    requires i < |lines| && SectionLevel(lines[i]).Some?
    requires forall j :: i + 1 <= j < |lines| && SectionLevel(lines[j]).Some? ==>
               exists k :: 0 <= k < |rest| && rest[k].lineNumber == j
    ensures var secs := [Section(SectionLevel(lines[i]).value, i)] + rest;
      forall j :: i <= j < |lines| && SectionLevel(lines[j]).Some? ==>
        exists k :: 0 <= k < |secs| && secs[k].lineNumber == j
  {
    var secs := [Section(SectionLevel(lines[i]).value, i)] + rest;
    forall j | i <= j < |lines| && SectionLevel(lines[j]).Some?
      ensures exists k :: 0 <= k < |secs| && secs[k].lineNumber == j
    {
      if j == i {
        assert secs[0].lineNumber == j;
      } else {
        var k' :| 0 <= k' < |rest| && rest[k'].lineNumber == j;
        assert secs[k' + 1].lineNumber == j;
      }
    }
  }

  /**
   * The headings on lines i.., in line order, each once with its level: the
   * source's `map` then `filter`. Every heading line appears.
   */
  function SectionsFrom(lines: seq<string>, i: nat): (secs: seq<Section>)
    requires i <= |lines|
    ensures ListsHeadingsFrom(lines, i, secs)
    ensures |secs| == 0 <==> forall j :: i <= j < |lines| ==> SectionLevel(lines[j]).None?
    decreases |lines| - i
  {
    if i == |lines| then []
    else
      var rest := SectionsFrom(lines, i + 1);
      SectionsStep(lines, i, rest);
      if SectionLevel(lines[i]).None? then rest
      else [Section(SectionLevel(lines[i]).value, i)] + rest
  }

  function AllSections(lines: seq<string>): (secs: seq<Section>)
    ensures ListsHeadingsFrom(lines, 0, secs)
  {
    SectionsFrom(lines, 0)
  }

  /** The filter leaves nothing exactly when no line is a heading. */
  lemma NoHeadingNoSections(lines: seq<string>)
    ensures |AllSections(lines)| == 0 <==> forall j :: 0 <= j < |lines| ==> SectionLevel(lines[j]).None?
  {
  }

  /**
   * The forward sibling scan: the first heading j' >= j after heading i whose
   * level is at most i's, if there is one.
   */
  function FirstClosing(secs: seq<Section>, i: nat, j: nat): (r: Option<nat>)
    requires i < j <= |secs|
    ensures r.Some? ==>
              j <= r.value < |secs| && secs[r.value].level <= secs[i].level &&
              forall k :: j <= k < r.value ==> secs[k].level > secs[i].level
    ensures r.None? ==> forall k :: j <= k < |secs| ==> secs[k].level > secs[i].level
    decreases |secs| - j
  {
    if j == |secs| then None
    else if secs[i].level >= secs[j].level then Some(j)
    else FirstClosing(secs, i, j + 1)
  }

  /** The literal `\end{document}`. */
  const EndDocument: string := "\\end{document}"

  /** `\end{document}` starts at position p of the line. */
  predicate EndDocumentAt(line: string, p: nat) {
    p + |EndDocument| <= |line| && line[p..p + |EndDocument|] == EndDocument
  }

  /** `/\\end{document}/.test(line)`. */
  predicate ContainsEndDocument(line: string) {
    exists p: nat :: p < |line| && EndDocumentAt(line, p)
  }

  /**
   * The backward scan from line e down to, but not including, startLine: the
   * highest such line containing `\end{document}`, if there is one.
   */
  function EndDocumentScan(lines: seq<string>, startLine: nat, e: nat): (r: Option<nat>)
    requires e < |lines|
    ensures r.Some? ==>
              startLine < r.value <= e && ContainsEndDocument(lines[r.value]) &&
              forall l :: r.value < l <= e ==> !ContainsEndDocument(lines[l])
    ensures r.None? ==> forall l :: startLine < l <= e ==> !ContainsEndDocument(lines[l])
    decreases e
  {
    if e <= startLine then None
    else if ContainsEndDocument(lines[e]) then Some(e)
    else EndDocumentScan(lines, startLine, e - 1)
  }

  /**
   * Where heading i's range ends before the blank-line trim: the `if` of the
   * sibling test, the forward scan, or the backward `\end{document}` scan.
   */
  function PreTrimEnd(lines: seq<string>, secs: seq<Section>, i: nat): (e: int)
    requires InLineOrder(lines, secs) && i < |secs|
    ensures secs[i].lineNumber <= e < |lines|
  {
    var startLine := secs[i].lineNumber;
    match FirstClosing(secs, i, i + 1)
    case Some(j) => secs[j].lineNumber - 1
    case None =>
      match EndDocumentScan(lines, startLine, |lines| - 1)
      case Some(l) => l
      case None => |lines| - 1
  }

  /**
   * With a later heading of the same or a higher level, heading i's range
   * ends one line before the first such heading.
   */
  lemma PreTrimEndClosed(lines: seq<string>, secs: seq<Section>, i: nat)
    requires InLineOrder(lines, secs) && i < |secs|
    requires exists j :: i < j < |secs| && secs[j].level <= secs[i].level
    ensures exists j :: i < j < |secs| && secs[j].level <= secs[i].level &&
              (forall k :: i < k < j ==> secs[k].level > secs[i].level) &&
              PreTrimEnd(lines, secs, i) == secs[j].lineNumber - 1
  {
    var c := FirstClosing(secs, i, i + 1);
    assert c.Some?;
    assert PreTrimEnd(lines, secs, i) == secs[c.value].lineNumber - 1;
  }

  /**
   * Without one, the range ends at the last line after the heading that
   * contains `\end{document}`, or at the document's last line when there is
   * none.
   */
  lemma PreTrimEndUnclosed(lines: seq<string>, secs: seq<Section>, i: nat)
    requires InLineOrder(lines, secs) && i < |secs|
    requires forall j :: i < j < |secs| ==> secs[j].level > secs[i].level
    ensures var e := PreTrimEnd(lines, secs, i);
      if exists l :: secs[i].lineNumber < l < |lines| && ContainsEndDocument(lines[l])
      then secs[i].lineNumber < e && ContainsEndDocument(lines[e]) &&
           forall l :: e < l < |lines| ==> !ContainsEndDocument(lines[l])
      else e == |lines| - 1
  {
    assert FirstClosing(secs, i, i + 1).None?;
    var scan := EndDocumentScan(lines, secs[i].lineNumber, |lines| - 1);
    if scan.Some? {
      assert PreTrimEnd(lines, secs, i) == scan.value;
    } else {
      assert PreTrimEnd(lines, secs, i) == |lines| - 1;
    }
  }

  /**
   * Where heading i's range ends: the pre-trim end, one line earlier when that
   * line is blank and is not the heading's own line. The trim removes at most
   * one line and never moves the end above the heading.
   */
  function SectionEnd(lines: seq<string>, secs: seq<Section>, i: nat): (e: int)
    requires InLineOrder(lines, secs) && i < |secs|
    ensures secs[i].lineNumber <= e < |lines|
    ensures var pre := PreTrimEnd(lines, secs, i);
      (e == pre - 1 <==> IsEmptyOrWhitespace(lines[pre]) && pre > secs[i].lineNumber) &&
      (e == pre <==> !(IsEmptyOrWhitespace(lines[pre]) && pre > secs[i].lineNumber))
  {
    var pre := PreTrimEnd(lines, secs, i);
    if IsEmptyOrWhitespace(lines[pre]) && pre >= secs[i].lineNumber + 1 then pre - 1 else pre
  }

  /**
   * One range per heading, in line order, from the heading's own line to
   * SectionEnd; every range lies inside the document and is never empty.
   */
  function SectionRangesOf(lines: seq<string>): (ranges: seq<FoldingRange>)
    ensures |ranges| == |AllSections(lines)|
    ensures forall k :: 0 <= k < |ranges| ==>
              ranges[k].startLine == AllSections(lines)[k].lineNumber &&
              ranges[k].endLine == SectionEnd(lines, AllSections(lines), k)
    ensures forall k :: 0 <= k < |ranges| ==>
              0 <= ranges[k].startLine <= ranges[k].endLine < |lines|
    ensures forall k, l :: 0 <= k < l < |ranges| ==> ranges[k].startLine < ranges[l].startLine
  {
    RangesFor(lines, AllSections(lines))
  }

  /** The ranges of a given list of headings, one per heading. */
  function RangesFor(lines: seq<string>, secs: seq<Section>): (ranges: seq<FoldingRange>)
    requires InLineOrder(lines, secs)
    ensures |ranges| == |secs|
    ensures forall k :: 0 <= k < |ranges| ==>
              ranges[k].startLine == secs[k].lineNumber && ranges[k].endLine == SectionEnd(lines, secs, k)
    ensures forall k :: 0 <= k < |ranges| ==>
              0 <= ranges[k].startLine <= ranges[k].endLine < |lines|
    ensures forall k, l :: 0 <= k < l < |ranges| ==> ranges[k].startLine < ranges[l].startLine
  {
    seq(|secs|, k requires 0 <= k < |secs| => FoldingRange(secs[k].lineNumber, SectionEnd(lines, secs, k)))
  }

  /** `getSectionFoldingRanges` on a document. */
  function SectionFoldingRanges(doc: string): (rs: seq<FoldingRange>) {
    SectionRangesOf(Lines(doc))
  }
}
