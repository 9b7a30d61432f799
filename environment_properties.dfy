/**
 * What the environment ranges promise beyond their definition: where a
 * range ends relative to its `\begin` line, that every range lies within
 * the document, that the environments of one span fold apart and those
 * found in a body fold inside the enclosing one, that a span without a
 * match contributes nothing, and how the greedy body behaves on a
 * concrete text.
 */
module EnvironmentProperties {
  import opened Common
  import opened LineIndex
  import opened EnvironmentMatch
  import opened Environments

  /** No '\n' in s[a..c] exactly when none in s[a..b] and none in s[b..c]. */
  lemma NoNewlineSplit(s: string, a: nat, b: nat, c: nat)
    requires a <= b <= c <= |s|
    ensures '\n' !in s[a..c] <==> '\n' !in s[a..b] && '\n' !in s[b..c]
  {
    assert s[a..c] == s[a..b] + s[b..c];
  }

  /**
   * A match's range ends one line above its `\end{NAME}` line, and it is
   * degenerate (endLine == startLine - 1) exactly when the whole match
   * `\begin{NAME}...\end{NAME}` lies on one line.
   */
  lemma MatchRange(doc: string, span: Span, m: EnvMatch)
    requires ValidSpan(doc, span) && IsEnvMatch(span.text, m)
    ensures var r := RangeOf(doc, span, m);
      r.startLine == LineOf(doc, span.offset + m.start) &&
      r.endLine == LineOf(doc, span.offset + m.CloseStart()) - 1 &&
      r.startLine - 1 <= r.endLine &&
      (r.endLine == r.startLine - 1 <==> '\n' !in span.text[m.start..m.End()])
  {
    CloseOnOneLine(span.text, m);
    CloseLineRange(doc, span, m);
  }

  /** MatchRange for any candidate whose close holds no '\n'. */
  lemma CloseLineRange(doc: string, span: Span, m: EnvMatch)
    requires ValidSpan(doc, span) && m.End() <= |span.text|
    requires '\n' !in span.text[m.CloseStart()..m.End()]
    ensures var r := RangeOf(doc, span, m);
      r.startLine == LineOf(doc, span.offset + m.start) &&
      r.endLine == LineOf(doc, span.offset + m.CloseStart()) - 1 &&
      r.startLine - 1 <= r.endLine &&
      (r.endLine == r.startLine - 1 <==> '\n' !in span.text[m.start..m.End()])
  {
    MatchLines(doc, span, m.start, m.CloseStart(), m.End());
  }

  /** Line arithmetic for three offsets a <= b <= c of a span with no '\n' between b and c. */
  lemma MatchLines(doc: string, span: Span, a: nat, b: nat, c: nat)
    requires ValidSpan(doc, span) && a <= b <= c <= |span.text|
    requires '\n' !in span.text[b..c]
    ensures LineOf(doc, span.offset + c) == LineOf(doc, span.offset + b) >= LineOf(doc, span.offset + a)
    ensures LineOf(doc, span.offset + c) == LineOf(doc, span.offset + a) <==> '\n' !in span.text[a..c]
  {
    SpanLineDistance(doc, span, b, c);
    SpanLineDistance(doc, span, a, b);
    NoNewlineSplit(span.text, a, b, c);
  }

  /** Two offsets of a span are on the same line exactly when the span has no '\n' between them. */
  lemma SpanLineDistance(doc: string, span: Span, a: nat, b: nat)
    requires ValidSpan(doc, span) && a <= b <= |span.text|
    ensures LineOf(doc, span.offset + a) <= LineOf(doc, span.offset + b)
    ensures LineOf(doc, span.offset + b) == LineOf(doc, span.offset + a) <==> '\n' !in span.text[a..b]
  {
    SpanSlice(doc, span, a, b);
    LineDistance(doc, span.offset + a, span.offset + b);
  }

  /** A range lies in the document: startLine is a line, endLine at most the last but one. */
  predicate InDocument(doc: string, r: FoldingRange) {
    0 <= r.startLine && r.startLine - 1 <= r.endLine && r.endLine + 1 < |Lines(doc)|
  }

  /** Every range of a list of matches of a valid span lies in the document. */
  lemma {:induction false} RangesOfInDocument(doc: string, span: Span, ms: seq<EnvMatch>)
    requires ValidSpan(doc, span)
    requires forall k :: 0 <= k < |ms| ==> ms[k].End() <= |span.text| && IsEnvMatch(span.text, ms[k])
    ensures forall k :: 0 <= k < |ms| ==> InDocument(doc, RangesOf(doc, span, ms)[k])
  {
    LinesCount(doc);
    forall k | 0 <= k < |ms|
      ensures InDocument(doc, RangesOf(doc, span, ms)[k])
    {
      MatchRange(doc, span, ms[k]);
    }
  }

  /** A whole round over valid spans yields ranges inside the document. */
  lemma {:induction false} RoundRangesInDocument(doc: string, spans: seq<Span>)
    requires ValidSpans(doc, spans)
    ensures forall r :: r in RoundRanges(doc, spans) ==> InDocument(doc, r)
    decreases |spans|
  {
    if |spans| > 0 {
      RangesOfInDocument(doc, spans[0], SpanMatches(spans[0]));
      RoundRangesInDocument(doc, spans[1..]);
    }
  }

  /** All rounds of the worklist from valid spans yield ranges inside the document. */
  lemma {:induction false} EnvRangesInDocument(doc: string, spans: seq<Span>)
    requires ValidSpans(doc, spans)
    ensures forall r :: r in EnvRanges(doc, spans) ==> InDocument(doc, r)
    decreases Measure(spans)
  {
    if |spans| > 0 {
      EnvRangesStep(doc, spans);
      RoundRangesInDocument(doc, spans);
      EnvRangesInDocument(doc, RoundChildren(spans));
    }
  }

  /**
   * Every environment range starts on a line of the document and ends no
   * later than its last line but one and no earlier than one line above
   * its start.
   */
  lemma EnvironmentRangesInDocument(doc: string)
    ensures forall r :: r in EnvironmentRanges(doc) ==> InDocument(doc, r)
  {
    assert doc[0..|doc|] == doc;
    EnvRangesInDocument(doc, [Span(doc, 0)]);
  }

  /** Non-overlap of neighbours carries over to any two matches of the list. */
  lemma {:induction false} MatchesApart(ms: seq<EnvMatch>, k: nat, l: nat)
    requires NonOverlapping(ms) && k < l < |ms|
    ensures ms[k].End() <= ms[l].start
    decreases l - k
  {
    if k + 1 < l {
      MatchesApart(ms, k + 1, l);
    }
  }

  /**
   * Two environments of one span, the first ending before the second
   * begins, fold apart: the first range ends on a line above the one on
   * which the second starts.
   */
  lemma SiblingRangesDisjoint(doc: string, span: Span, m1: EnvMatch, m2: EnvMatch)
    requires ValidSpan(doc, span) && m1.End() <= m2.start && m2.End() <= |span.text|
    ensures RangeOf(doc, span, m1).endLine < RangeOf(doc, span, m2).startLine
  {
    SpanLineDistance(doc, span, m1.End(), m2.start);
  }

  /** The ranges one span contributes are pairwise line-disjoint, in order. */
  lemma SpanRangesDisjoint(doc: string, span: Span)
    requires ValidSpan(doc, span)
    ensures forall k, l :: 0 <= k < l < |SpanRanges(doc, span)| ==>
              SpanRanges(doc, span)[k].endLine < SpanRanges(doc, span)[l].startLine
  {
    var ms := SpanMatches(span);
    forall k, l | 0 <= k < l < |ms|
      ensures SpanRanges(doc, span)[k].endLine < SpanRanges(doc, span)[l].startLine
    {
      MatchesApart(ms, k, l);
      SiblingRangesDisjoint(doc, span, ms[k], ms[l]);
    }
  }

  /**
   * An environment found in the body of another folds inside it: its
   * range starts no earlier and ends no later than the enclosing one.
   */
  lemma ChildRangeInside(doc: string, span: Span, m: EnvMatch, c: EnvMatch)
    requires ValidSpan(doc, span) && m.End() <= |span.text|
    requires c.End() <= |ChildOf(span, m).text|
    ensures ValidSpan(doc, ChildOf(span, m))
    ensures RangeOf(doc, span, m).startLine <= RangeOf(doc, ChildOf(span, m), c).startLine
    ensures RangeOf(doc, ChildOf(span, m), c).endLine <= RangeOf(doc, span, m).endLine
  {
    BodySpan(doc, span, m);
    NestedRange(doc, span, m, ChildOf(span, m), c);
  }

  /** A match whose text lies within another's folds within the other's lines. */
  lemma NestedRange(doc: string, outer: Span, m: EnvMatch, inner: Span, c: EnvMatch)
    requires outer.offset + m.End() <= |doc|
    requires outer.offset + m.start <= inner.offset + c.start
    requires inner.offset + c.End() <= outer.offset + m.End()
    ensures RangeOf(doc, outer, m).startLine <= RangeOf(doc, inner, c).startLine
    ensures RangeOf(doc, inner, c).endLine <= RangeOf(doc, outer, m).endLine
  {
    LinesOrdered(doc, outer.offset + m.start, inner.offset + c.start);
    LinesOrdered(doc, inner.offset + c.End(), outer.offset + m.End());
  }

  /** A later offset is on the same line or a later one. */
  lemma LinesOrdered(doc: string, x: nat, y: nat)
    requires x <= y <= |doc|
    ensures LineOf(doc, x) <= LineOf(doc, y)
  {
    LineDistance(doc, x, y);
  }

  /** The queued body is a valid span, `bodyLen` long, at the body's offset. */
  lemma BodySpan(doc: string, span: Span, m: EnvMatch)
    requires ValidSpan(doc, span) && m.End() <= |span.text|
    ensures ValidSpan(doc, ChildOf(span, m))
    ensures ChildOf(span, m).offset == span.offset + m.BodyStart()
    ensures |ChildOf(span, m).text| == m.bodyLen
  {
    SpanSlice(doc, span, m.BodyStart(), m.CloseStart());
  }

  /**
   * The ranges a queued body contributes in a later round all lie inside
   * the range of the environment whose body it is.
   */
  lemma ChildSpanRangesInside(doc: string, span: Span, k: nat)
    requires ValidSpan(doc, span) && k < |SpanRanges(doc, span)|
    ensures k < |SpanChildren(span)| && ValidSpan(doc, SpanChildren(span)[k])
    ensures forall j :: 0 <= j < |SpanRanges(doc, SpanChildren(span)[k])| ==>
              SpanRanges(doc, span)[k].startLine <= SpanRanges(doc, SpanChildren(span)[k])[j].startLine &&
              SpanRanges(doc, SpanChildren(span)[k])[j].endLine <= SpanRanges(doc, span)[k].endLine
  {
    var m := SpanMatches(span)[k];
    SpanEntry(doc, span, k);
    var child := SpanChildren(span)[k];
    BodySpan(doc, span, m);
    forall j | 0 <= j < |SpanRanges(doc, child)|
      ensures SpanRanges(doc, span)[k].startLine <= SpanRanges(doc, child)[j].startLine
      ensures SpanRanges(doc, child)[j].endLine <= SpanRanges(doc, span)[k].endLine
    {
      SpanEntry(doc, child, j);
      ChildRangeInside(doc, span, m, SpanMatches(child)[j]);
    }
  }

  /** The k-th range and the k-th queued body of a span both come from its k-th match. */
  lemma SpanEntry(doc: string, span: Span, k: nat)
    requires ValidSpan(doc, span) && k < |SpanRanges(doc, span)|
    ensures |SpanChildren(span)| == |SpanMatches(span)| == |SpanRanges(doc, span)|
    ensures SpanMatches(span)[k].End() <= |span.text|
    ensures SpanRanges(doc, span)[k] == RangeOf(doc, span, SpanMatches(span)[k])
    ensures SpanChildren(span)[k] == ChildOf(span, SpanMatches(span)[k])
  {
  }

  /** A span in which `exec` fails at once adds no range and queues nothing. */
  lemma NoMatchNoOutput(doc: string, span: Span)
    requires ValidSpan(doc, span)
    ensures FindMatch(span.text, 0).None? <==> SpanRanges(doc, span) == [] && SpanChildren(span) == []
  {
  }

  /** A document in which `exec` fails at once has no environment ranges. */
  lemma NoEnvironmentNoRanges(doc: string)
    requires FindMatch(doc, 0).None?
    ensures EnvironmentRanges(doc) == []
  {
    assert doc[0..|doc|] == doc;
    var spans := [Span(doc, 0)];
    EnvRangesStep(doc, spans);
    assert spans[1..] == [];
    assert RoundChildren(spans) == [];
  }

  /**
   * The converse of MatchShape: `\begin{NAME}`, a body, and `\end{NAME}`
   * with a NAME free of line terminators is a match, wherever it sits.
   */
  lemma ShapeIsMatch(pre: string, name: string, body: string, post: string)
    requires NoLineBreak(name)
    ensures var text := pre + BeginToken + name + "}" + body + EndToken + name + "}" + post;
      IsEnvMatch(text, EnvMatch(|pre|, |name|, |body|))
  {
    var text := pre + BeginToken + name + "}" + body + EndToken + name + "}" + post;
    var m := EnvMatch(|pre|, |name|, |body|);
    var a := pre + BeginToken;
    var b := a + name;
    var c := b + "}";
    var d := c + body;
    var e := d + EndToken;
    var f := e + name;
    var g := f + "}";
    assert text == g + post;
    assert text[m.start..m.NameStart()] == a[|pre|..];
    assert text[m.NameStart()..m.NameStart() + m.nameLen] == b[|a|..] == name;
    assert text[m.BodyStart() - 1] == c[|b|];
    assert text[m.CloseStart()..m.CloseStart() + 5] == e[|d|..];
    assert text[m.CloseStart() + 5..m.End() - 1] == f[|e|..] == name;
    assert text[m.End() - 1] == g[|f|];
  }

  /**
   * `exec` from the start of a match returns that match exactly when no
   * shorter name closes there and no longer body closes with its name.
   */
  lemma FindMatchIs(text: string, m: EnvMatch)
    requires IsEnvMatch(text, m)
    requires forall n: nat, b: nat :: n < m.nameLen ==> !IsEnvMatch(text, EnvMatch(m.start, n, b))
    requires forall b: nat :: m.bodyLen < b ==> !IsEnvMatch(text, EnvMatch(m.start, m.nameLen, b))
    ensures FindMatch(text, m.start) == Some(m)
  {
    var found := FindMatch(text, m.start);
    assert found.Some?;
    var r := found.value;
    assert r == EnvMatch(m.start, r.nameLen, r.bodyLen) by {
      assert !(m.start < r.start);
    }
    assert !(m.nameLen < r.nameLen);
    assert !(r.nameLen < m.nameLen);
    assert !(r.bodyLen < m.bodyLen);
    assert !(m.bodyLen < r.bodyLen);
  }

  /** A text too short for `\begin{}\end{}` after `from` has no further match. */
  lemma NoRoomNoMatch(text: string, from: nat)
    requires |text| < from + 14
    ensures FindMatch(text, from).None? && MatchesFrom(text, from) == []
  {
  }

  /** Two environments of the same name one after the other. */
  const TwinText: string := "\\begin{a}\\end{a}\\begin{a}\\end{a}"

  /** The first `\end{a}` of the twin text closes a match at start 0 with name `a`. */
  lemma TwinNearestMatch()
    ensures IsEnvMatch(TwinText, EnvMatch(0, 1, 0))
  {
    var t := TwinText;
    assert t[0..7] == BeginToken;
    assert t[9..14] == EndToken by {
      assert t[9] == '\\' && t[10] == 'e' && t[11] == 'n' && t[12] == 'd' && t[13] == '{';
    }
    assert t[14..15] == [t[14]] && t[7..8] == [t[7]];
  }

  /** So does the last `\end{a}`. */
  lemma TwinLastMatch()
    ensures IsEnvMatch(TwinText, EnvMatch(0, 1, 16))
  {
    var t := TwinText;
    assert t[0..7] == BeginToken;
    assert t[25..30] == EndToken;
    assert t[30..31] == [t[30]] && t[7..8] == [t[7]];
  }

  /** No match at start 0 has an empty name: `\begin{` is not followed by `}`. */
  lemma TwinNoEmptyName()
    ensures forall b: nat :: !IsEnvMatch(TwinText, EnvMatch(0, 0, b))
  {
    assert TwinText[7] != '}';
  }

  /**
   * The body is greedy: in `\begin{a}\end{a}\begin{a}\end{a}` the first
   * `exec` does not stop at the first `\end{a}` (which would also close a
   * match) but runs to the last one, so the text yields one match, whose
   * body is `\end{a}\begin{a}`, and not two.
   */
  lemma GreedyExample()
    ensures IsEnvMatch(TwinText, EnvMatch(0, 1, 0))
    ensures FindMatch(TwinText, 0) == Some(EnvMatch(0, 1, 16))
    ensures Body(TwinText, EnvMatch(0, 1, 16)) == "\\end{a}\\begin{a}"
    ensures MatchesFrom(TwinText, 0) == [EnvMatch(0, 1, 16)]
  {
    TwinNearestMatch();
    TwinLastMatch();
    TwinNoEmptyName();
    FindMatchIs(TwinText, EnvMatch(0, 1, 16));
    NoRoomNoMatch(TwinText, 32);
  }

  /**
   * The environment of the example: `\begin{itemize}`, a line `item` and
   * `\end{itemize}`, each followed by a line break.
   */
  const ItemizeDoc: string := "" + BeginToken + "itemize" + "}" + "\nitem\n" + EndToken + "itemize" + "}" + "\n"

  /** `\begin{itemize}`, the body "\nitem\n" and `\end{itemize}` make a match at 0. */
  lemma ItemizeIsMatch()
    ensures IsEnvMatch(ItemizeDoc, EnvMatch(0, 7, 6))
  {
    assert NoLineBreak("itemize");
    ShapeIsMatch("", "itemize", "\nitem\n", "\n");
  }

  /** No shorter name and no longer body close at 0. */
  lemma ItemizeNoOtherMatch()
    ensures forall n: nat, b: nat :: n < 7 ==> !IsEnvMatch(ItemizeDoc, EnvMatch(0, n, b))
    ensures forall b: nat :: 6 < b ==> !IsEnvMatch(ItemizeDoc, EnvMatch(0, 7, b))
  {
    var t := ItemizeDoc;
    assert forall k :: 7 <= k < 14 ==> t[k] != '}';
    assert t[22..27][0] == t[22] != '\\';
  }

  /** The document's one match: name `itemize`, body "\nitem\n", close at offset 21. */
  lemma ItemizeMatch()
    ensures FindMatch(ItemizeDoc, 0) == Some(EnvMatch(0, 7, 6))
    ensures MatchesFrom(ItemizeDoc, 0) == [EnvMatch(0, 7, 6)]
  {
    ItemizeIsMatch();
    ItemizeNoOtherMatch();
    FindMatchIs(ItemizeDoc, EnvMatch(0, 7, 6));
    NoRoomNoMatch(ItemizeDoc, 34);
  }

  /** The `\begin` is on line 0 and the `\end` on line 2. */
  lemma ItemizeLines()
    ensures LineOf(ItemizeDoc, 0) == 0 && LineOf(ItemizeDoc, 34) == 2
  {
    var a, b, c := "\\begin{itemize}", "item", "\\end{itemize}";
    assert ItemizeDoc[..34] == a + ("\n" + (b + ("\n" + c)));
    assert ItemizeDoc[..0] == [];
    NewlineCountZero(a);
    NewlineCountZero(b);
    NewlineCountZero(c);
    NewlineCountAppend(a, "\n" + (b + ("\n" + c)));
    NewlineCountAppend("\n", b + ("\n" + c));
    NewlineCountAppend(b, "\n" + c);
    NewlineCountAppend("\n", c);
  }

  /** A round over one span whose text holds exactly one match. */
  lemma SingleMatchRound(doc: string, span: Span, m: EnvMatch)
    requires ValidSpan(doc, span) && MatchesFrom(span.text, 0) == [m]
    ensures ValidSpans(doc, [span])
    ensures m.End() <= |span.text|
    ensures RoundRanges(doc, [span]) == [RangeOf(doc, span, m)]
    ensures RoundChildren([span]) == [ChildOf(span, m)]
  {
    assert [span][1..] == [];
    assert SpanMatches(span)[0] == m;
  }

  /** The first round: one range, and the body "\nitem\n" at offset 15 queued. */
  lemma ItemizeFirstRound()
    ensures ValidSpans(ItemizeDoc, [Span(ItemizeDoc, 0)])
    ensures RoundRanges(ItemizeDoc, [Span(ItemizeDoc, 0)]) == [FoldingRange(0, 1)]
    ensures RoundChildren([Span(ItemizeDoc, 0)]) == [Span(ItemizeDoc[15..21], 15)]
  {
    var doc := ItemizeDoc;
    ItemizeMatch();
    ItemizeLines();
    assert doc[0..|doc|] == doc;
    SingleMatchRound(doc, Span(doc, 0), EnvMatch(0, 7, 6));
  }

  /** The second round: the queued body holds no environment, so the worklist ends. */
  lemma ItemizeSecondRound()
    ensures ValidSpans(ItemizeDoc, [Span(ItemizeDoc[15..21], 15)])
    ensures EnvRanges(ItemizeDoc, [Span(ItemizeDoc[15..21], 15)]) == []
  {
    var child := Span(ItemizeDoc[15..21], 15);
    NoRoomNoMatch(child.text, 0);
    EnvRangesStep(ItemizeDoc, [child]);
    assert [child][1..] == [];
  }

  /**
   * `\begin{itemize}`, a line `item`, `\end{itemize}` on lines 0 to 2 give
   * one range, and it ends on line 1, one line above the `\end`; the body
   * queued for the second round holds no environment.
   */
  lemma ItemizeExample()
    ensures EnvironmentRanges(ItemizeDoc) == [FoldingRange(0, 1)]
  {
    ItemizeFirstRound();
    ItemizeSecondRound();
    EnvRangesStep(ItemizeDoc, [Span(ItemizeDoc, 0)]);
  }
}
