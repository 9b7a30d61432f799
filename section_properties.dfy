/**
 * What the section ranges promise beyond their definition: ranges of
 * headings nest or are disjoint as long as no `\end{document}` line sits
 * among the headings, and without that condition they can partially
 * overlap.
 */
module SectionProperties {
  import opened Common
  import opened LineIndex
  import opened Sections

  /** No line after the first heading and up to the last one holds `\end{document}`. */
  ghost predicate NoEndDocumentAmongHeadings(lines: seq<string>, secs: seq<Section>)
    requires InLineOrder(lines, secs)
  {
    |secs| > 0 ==>
      forall l :: secs[0].lineNumber < l <= secs[|secs| - 1].lineNumber ==> !ContainsEndDocument(lines[l])
  }

  /** A heading line starts with a backslash, so the trim never removes it. */
  lemma HeadingNotBlank(line: string)
    requires SectionLevel(line).Some?
    ensures !IsEmptyOrWhitespace(line)
  {
    assert line[0] == '\\';
  }

  /** Headings later in the list sit on later lines. */
  lemma HeadingLinesIncrease(lines: seq<string>, secs: seq<Section>, i: nat, j: nat)
    requires InLineOrder(lines, secs) && i <= j < |secs|
    ensures secs[i].lineNumber <= secs[j].lineNumber < |lines|
    ensures i < j ==> secs[i].lineNumber < secs[j].lineNumber
  {
  }

  /**
   * When there is no `\end{document}` in (a, b], the backward scan finds the
   * same line whether it stops above a or above b.
   */
  lemma EndDocumentScanSkip(lines: seq<string>, a: nat, b: nat, e: nat)
    requires a <= b && e < |lines|
    requires forall l :: a < l <= b && l < |lines| ==> !ContainsEndDocument(lines[l])
    ensures EndDocumentScan(lines, a, e) == EndDocumentScan(lines, b, e)
  {
    var ra, rb := EndDocumentScan(lines, a, e), EndDocumentScan(lines, b, e);
    if ra.Some? {
      assert b < ra.value;
      assert rb.Some? && rb.value == ra.value;
    }
  }

  /** Heading i is closed at or before heading j: its range ends above j's line. */
  lemma PreTrimNestClosedBefore(lines: seq<string>, secs: seq<Section>, i: nat, j: nat, c: nat)
    requires InLineOrder(lines, secs) && i < j < |secs|
    requires FirstClosing(secs, i, i + 1) == Some(c) && c <= j
    ensures PreTrimEnd(lines, secs, i) < secs[j].lineNumber
  {
    HeadingLinesIncrease(lines, secs, c, j);
  }

  /** Heading i is closed after heading j: j is closed no later, so j's range ends first. */
  lemma PreTrimNestClosedAfter(lines: seq<string>, secs: seq<Section>, i: nat, j: nat, c: nat)
    requires InLineOrder(lines, secs) && i < j < |secs|
    requires FirstClosing(secs, i, i + 1) == Some(c) && j < c
    ensures PreTrimEnd(lines, secs, j) <= PreTrimEnd(lines, secs, i)
  {
    assert secs[j].level > secs[i].level;
    match FirstClosing(secs, j, j + 1) {
      case Some(c') =>
        assert c' <= c;
        HeadingLinesIncrease(lines, secs, c', c);
      case None =>
    }
  }

  /**
   * Heading i is never closed but j is: j's range ends above a heading, and
   * so above every `\end{document}` line that i's backward scan can find.
   */
  lemma PreTrimNestUnclosedClosed(lines: seq<string>, secs: seq<Section>, i: nat, j: nat, c: nat)
    requires InLineOrder(lines, secs) && i < j < |secs|
    requires FirstClosing(secs, i, i + 1).None? && FirstClosing(secs, j, j + 1) == Some(c)
    requires forall l :: secs[i].lineNumber < l <= secs[|secs| - 1].lineNumber && l < |lines| ==>
               !ContainsEndDocument(lines[l])
    ensures PreTrimEnd(lines, secs, j) <= PreTrimEnd(lines, secs, i)
  {
    var last := |secs| - 1;
    HeadingLinesIncrease(lines, secs, c, last);
    assert PreTrimEnd(lines, secs, j) == secs[c].lineNumber - 1;
    var scan := EndDocumentScan(lines, secs[i].lineNumber, |lines| - 1);
    if scan.Some? {
      assert PreTrimEnd(lines, secs, i) == scan.value;
      assert !(scan.value <= secs[last].lineNumber);
    } else {
      assert PreTrimEnd(lines, secs, i) == |lines| - 1;
    }
  }

  /** Neither heading is closed: both backward scans find the same line. */
  lemma PreTrimNestUnclosedBoth(lines: seq<string>, secs: seq<Section>, i: nat, j: nat)
    requires InLineOrder(lines, secs) && i < j < |secs|
    requires FirstClosing(secs, i, i + 1).None? && FirstClosing(secs, j, j + 1).None?
    requires forall l :: secs[i].lineNumber < l <= secs[|secs| - 1].lineNumber && l < |lines| ==>
               !ContainsEndDocument(lines[l])
    ensures PreTrimEnd(lines, secs, j) == PreTrimEnd(lines, secs, i)
  {
    HeadingLinesIncrease(lines, secs, i, j);
    HeadingLinesIncrease(lines, secs, j, |secs| - 1);
    EndDocumentScanSkip(lines, secs[i].lineNumber, secs[j].lineNumber, |lines| - 1);
  }

  /**
   * Before the trim, the range of a later heading j either starts after the
   * range of heading i ends or ends no later than it.
   */
  lemma PreTrimNest(lines: seq<string>, secs: seq<Section>, i: nat, j: nat)
    requires InLineOrder(lines, secs) && i < j < |secs|
    requires forall l :: secs[i].lineNumber < l <= secs[|secs| - 1].lineNumber && l < |lines| ==>
               !ContainsEndDocument(lines[l])
    ensures PreTrimEnd(lines, secs, i) < secs[j].lineNumber ||
            PreTrimEnd(lines, secs, j) <= PreTrimEnd(lines, secs, i)
  {
    match FirstClosing(secs, i, i + 1) {
      case Some(c) =>
        if c <= j {
          PreTrimNestClosedBefore(lines, secs, i, j, c);
        } else {
          PreTrimNestClosedAfter(lines, secs, i, j, c);
        }
      case None =>
        match FirstClosing(secs, j, j + 1) {
          case Some(c) => PreTrimNestUnclosedClosed(lines, secs, i, j, c);
          case None => PreTrimNestUnclosedBoth(lines, secs, i, j);
        }
    }
  }

  /**
   * After the trim the same holds: a later heading's range is either after
   * heading i's range or inside it.
   */
  lemma SectionEndNest(lines: seq<string>, secs: seq<Section>, i: nat, j: nat)
    requires InLineOrder(lines, secs) && i < j < |secs| && HeadingAt(lines, secs, j)
    requires forall l :: secs[i].lineNumber < l <= secs[|secs| - 1].lineNumber && l < |lines| ==>
               !ContainsEndDocument(lines[l])
    ensures SectionEnd(lines, secs, i) < secs[j].lineNumber ||
            SectionEnd(lines, secs, j) <= SectionEnd(lines, secs, i)
  {
    PreTrimNest(lines, secs, i, j);
    HeadingLinesIncrease(lines, secs, i, j);
    var pi, pj := PreTrimEnd(lines, secs, i), PreTrimEnd(lines, secs, j);
    if pj == pi && pj == secs[j].lineNumber {
      HeadingNotBlank(lines[pj]);
    }
  }

  /**
   * With no `\end{document}` among the headings, no two section ranges
   * partially overlap: each later range lies after or inside an earlier one.
   */
  lemma SectionRangesNest(lines: seq<string>)
    requires NoEndDocumentAmongHeadings(lines, AllSections(lines))
    ensures var r := SectionRangesOf(lines);
      forall i, j :: 0 <= i < j < |r| ==>
        r[i].endLine < r[j].startLine || r[j].endLine <= r[i].endLine
  {
    var secs := AllSections(lines);
    var r := SectionRangesOf(lines);
    assert r == RangesFor(lines, secs);
    forall i, j | 0 <= i < j < |r|
      ensures r[i].endLine < r[j].startLine || r[j].endLine <= r[i].endLine
    {
      assert HeadingAt(lines, secs, j);
      RangesNestPair(lines, secs, i, j);
    }
  }

  /** The nesting of one pair of ranges, for any list of headings in line order. */
  lemma RangesNestPair(lines: seq<string>, secs: seq<Section>, i: nat, j: nat)
    requires InLineOrder(lines, secs) && i < j < |secs| && HeadingAt(lines, secs, j)
    requires NoEndDocumentAmongHeadings(lines, secs)
    ensures var r := RangesFor(lines, secs);
      r[i].endLine < r[j].startLine || r[j].endLine <= r[i].endLine
  {
    HeadingLinesIncrease(lines, secs, 0, i);
    SectionEndNest(lines, secs, i, j);
  }

  /** A line with the head of level k + 1 and a `}` at p on the same line is a heading of that level. */
  lemma HeadingLevel(line: string, k: nat, p: nat)
    requires 3 * k + 9 <= p < |line| && line[..3 * k + 9] == MarkerHead(k)
    requires line[p] == '}' && NoLineBreak(line[3 * k + 9..p])
    ensures SectionLevel(line) == Some(k + 1)
  {
    SectionLevelCorrect(line, k);
  }

  /**
   * Five lines: `\section`, `\subsection`, a line with `\end{document}`, a
   * plain line, and `\subsection` again.
   */
  ghost predicate OverlapShape(lines: seq<string>) {
    |lines| == 5 &&
    SectionLevel(lines[0]) == Some(1) && SectionLevel(lines[1]) == Some(2) &&
    SectionLevel(lines[2]).None? && ContainsEndDocument(lines[2]) &&
    SectionLevel(lines[3]).None? && !ContainsEndDocument(lines[3]) && !IsEmptyOrWhitespace(lines[3]) &&
    SectionLevel(lines[4]) == Some(2) && !ContainsEndDocument(lines[4])
  }

  /** The headings of such lines are on lines 0, 1 and 4. */
  lemma OverlapHeadings(L: seq<string>)
    requires OverlapShape(L)
    ensures AllSections(L) == [Section(1, 0), Section(2, 1), Section(2, 4)]
  {
    assert SectionsFrom(L, 5) == [];
    assert SectionsFrom(L, 4) == [Section(2, 4)];
    assert SectionsFrom(L, 3) == [Section(2, 4)];
    assert SectionsFrom(L, 2) == [Section(2, 4)];
    assert SectionsFrom(L, 1) == [Section(2, 1), Section(2, 4)];
  }

  /**
   * The `\section` stops at the `\end{document}` line 2; the first
   * `\subsection` runs to line 3, the line above the next heading.
   */
  lemma OverlapEnds(L: seq<string>)
    requires OverlapShape(L)
    ensures var secs := [Section(1, 0), Section(2, 1), Section(2, 4)];
      InLineOrder(L, secs) &&
      SectionEnd(L, secs, 0) == 2 && SectionEnd(L, secs, 1) == 3
  {
    var secs := [Section(1, 0), Section(2, 1), Section(2, 4)];
    assert EndDocumentScan(L, 0, 4) == Some(2);
    assert PreTrimEnd(L, secs, 0) == 2;
    assert PreTrimEnd(L, secs, 1) == 3;
    var p: nat :| p < |L[2]| && EndDocumentAt(L[2], p);
    assert L[2][p] == L[2][p..p + |EndDocument|][0] == '\\';
  }

  /**
   * Without the condition of SectionRangesNest the ranges can partially
   * overlap: here the `\section` range (0, 2) stops at the `\end{document}`
   * line while the `\subsection` range (1, 3) runs on to the next heading.
   */
  lemma OverlapExample()
    ensures var r := SectionRangesOf(OverlapLines);
      |r| == 3 && r[0] == FoldingRange(0, 2) && r[1] == FoldingRange(1, 3)
  {
    OverlapShapeHolds();
    OverlapRanges(OverlapLines);
  }

  /** The ranges of any lines of that shape. */
  lemma OverlapRanges(L: seq<string>)
    requires OverlapShape(L)
    ensures var r := SectionRangesOf(L);
      |r| == 3 && r[0] == FoldingRange(0, 2) && r[1] == FoldingRange(1, 3)
  {
    var secs := [Section(1, 0), Section(2, 1), Section(2, 4)];
    OverlapHeadings(L);
    OverlapEnds(L);
    assert SectionRangesOf(L) == RangesFor(L, secs);
  }

  /** The lines of the partial-overlap example. */
  const OverlapLines: seq<string> := ["\\section{A}", "\\subsection{B}", "\\end{document}", "x", "\\subsection{C}"]

  /** The concrete lines have that shape. */
  lemma OverlapShapeHolds()
    ensures OverlapShape(OverlapLines)
  {
    SectionLine();
    SubsectionLine("\\subsection{B}");
    SubsectionLine("\\subsection{C}");
    EndDocumentLine();
    PlainLine();
  }

  /** `\section{A}` is a heading of level 1. */
  lemma SectionLine()
    ensures SectionLevel("\\section{A}") == Some(1)
  {
    HeadingLevel("\\section{A}", 0, 10);
  }

  /** `\subsection{B}` and `\subsection{C}` are headings of level 2 without `\end{document}`. */
  lemma SubsectionLine(line: string)
    requires line == "\\subsection{B}" || line == "\\subsection{C}"
    ensures SectionLevel(line) == Some(2) && !ContainsEndDocument(line)
  {
    assert MarkerHead(1) == "\\subsection{";
    HeadingLevel(line, 1, 13);
    assert !EndDocumentAt(line, 0) by { assert line[1] != EndDocument[1]; }
  }

  /** The line `x` is neither a heading, nor blank, nor `\end{document}`. */
  lemma PlainLine()
    ensures SectionLevel("x").None? && !ContainsEndDocument("x") && !IsEmptyOrWhitespace("x")
  {
    assert "x"[0] == 'x';
  }

  /** `\end{document}` alone on a line is no heading but is found by the backward scan. */
  lemma EndDocumentLine()
    ensures SectionLevel("\\end{document}").None? && ContainsEndDocument("\\end{document}")
  {
    var line := "\\end{document}";
    assert line[1..4] != "sub" && line[1..9] != "section{" by {
      assert line[1..4][0] == line[1..9][0] == line[1] == 'e';
    }
    assert EndDocumentAt(line, 0);
  }
}
