/**
 * Environment folding ranges (`getEnvironmentFoldingRanges`): a breadth-first
 * worklist of spans. In each span every successive match of the environment
 * pattern gives a range (line of `\begin`, line of the matching `\end` - 1)
 * and queues its body, with the body's absolute offset, for the next round.
 */
module Environments {
  import opened Common
  import opened LineIndex
  import opened EnvironmentMatch

  /** A slice of the document and the offset where it starts in it. */
  datatype Span = Span(text: string, offset: nat)

  /** The span really is the slice of the document at its offset. */
  predicate ValidSpan(doc: string, span: Span) {
    span.offset + |span.text| <= |doc| && doc[span.offset..span.offset + |span.text|] == span.text
  }

  predicate ValidSpans(doc: string, spans: seq<Span>) {
    forall k :: 0 <= k < |spans| ==> ValidSpan(doc, spans[k])
  }

  /**
   * The range of one match: `positionAt(offset + start).line` and
   * `positionAt(offset + lastIndex).line - 1`.
   */
  function RangeOf(doc: string, span: Span, m: EnvMatch): (r: FoldingRange)
    requires span.offset + m.End() <= |doc|
  {
    FoldingRange(LineOf(doc, span.offset + m.start), LineOf(doc, span.offset + m.End()) - 1)
  }

  /** The span queued for a match: its body at `offset + start + |\begin{NAME}|`. */
  function ChildOf(span: Span, m: EnvMatch): (child: Span)
    requires m.End() <= |span.text|
  {
    Span(Body(span.text, m), span.offset + m.BodyStart())
  }

  /** Ranges of a list of matches, in order. */
  function RangesOf(doc: string, span: Span, ms: seq<EnvMatch>): (rs: seq<FoldingRange>)
    requires ValidSpan(doc, span) && forall k :: 0 <= k < |ms| ==> ms[k].End() <= |span.text|
    ensures |rs| == |ms|
    ensures forall k :: 0 <= k < |ms| ==> rs[k] == RangeOf(doc, span, ms[k])
  {
    if |ms| == 0 then [] else [RangeOf(doc, span, ms[0])] + RangesOf(doc, span, ms[1..])
  }

  /** Child spans of a list of matches, in order. */
  function ChildrenOf(span: Span, ms: seq<EnvMatch>): (cs: seq<Span>)
    requires forall k :: 0 <= k < |ms| ==> ms[k].End() <= |span.text|
    ensures |cs| == |ms|
    ensures forall k :: 0 <= k < |ms| ==> cs[k] == ChildOf(span, ms[k])
  {
    if |ms| == 0 then [] else [ChildOf(span, ms[0])] + ChildrenOf(span, ms[1..])
  }

  /** Every match the `while (match)` loop finds in a span. */
  function SpanMatches(span: Span): (ms: seq<EnvMatch>)
    ensures forall k :: 0 <= k < |ms| ==> IsEnvMatch(span.text, ms[k])
  {
    MatchesFrom(span.text, 0)
  }

  function SpanRanges(doc: string, span: Span): (rs: seq<FoldingRange>)
    requires ValidSpan(doc, span)
  {
    RangesOf(doc, span, SpanMatches(span))
  }

  function SpanChildren(span: Span): (cs: seq<Span>) {
    ChildrenOf(span, SpanMatches(span))
  }

  /** Ranges of one round over the queued spans, span by span. */
  function RoundRanges(doc: string, spans: seq<Span>): (rs: seq<FoldingRange>)
    requires ValidSpans(doc, spans)
  {
    if |spans| == 0 then [] else SpanRanges(doc, spans[0]) + RoundRanges(doc, spans[1..])
  }

  /** The spans queued by one round: `newTextToMatch`. */
  function RoundChildren(spans: seq<Span>): (cs: seq<Span>) {
    if |spans| == 0 then [] else SpanChildren(spans[0]) + RoundChildren(spans[1..])
  }

  /** Termination measure of the worklist: total text length plus span count. */
  function Measure(spans: seq<Span>): (size: nat) {
    if |spans| == 0 then 0 else |spans[0].text| + 1 + Measure(spans[1..])
  }

  lemma {:induction false} MeasureAppend(a: seq<Span>, b: seq<Span>)
    ensures Measure(a + b) == Measure(a) + Measure(b)
    decreases |a|
  {
    if |a| == 0 {
      assert a + b == b;
    } else {
      assert (a + b)[1..] == a[1..] + b;
      MeasureAppend(a[1..], b);
    }
  }

  /** An offset slice of the document read through the span is the span's own slice. */
  lemma SpanSlice(doc: string, span: Span, a: nat, b: nat)
    requires ValidSpan(doc, span) && a <= b <= |span.text|
    ensures doc[span.offset + a..span.offset + b] == span.text[a..b]
  {
    var o := span.offset;
    forall k | 0 <= k < b - a
      ensures doc[o + a..o + b][k] == span.text[a..b][k]
    {
      assert doc[o + a + k] == doc[o..o + |span.text|][a + k];
    }
  }

  /**
   * A queued body is the document slice at its offset, it starts right after
   * `\begin{NAME}`, and it is strictly shorter than its parent span.
   */
  lemma ChildSpan(doc: string, span: Span, m: EnvMatch)
    requires ValidSpan(doc, span) && IsEnvMatch(span.text, m)
    ensures ValidSpan(doc, ChildOf(span, m))
    ensures ChildOf(span, m).offset == span.offset + m.start + |BeginToken + Name(span.text, m) + "}"|
    ensures |ChildOf(span, m).text| + 14 <= |span.text|
  {
    SpanSlice(doc, span, m.BodyStart(), m.CloseStart());
    assert |Name(span.text, m)| == m.nameLen;
  }

  /** The bodies queued for one span weigh less than the span's own text. */
  lemma {:induction false} ChildrenMeasure(text: string, offset: nat, from: nat)
    requires from <= |text|
    ensures Measure(ChildrenOf(Span(text, offset), MatchesFrom(text, from))) <= |text| - from
    decreases |text| - from
  {
    var ms := MatchesFrom(text, from);
    if |ms| > 0 {
      var m := ms[0];
      assert ms == [m] + MatchesFrom(text, m.End());
      assert ChildrenOf(Span(text, offset), ms)[1..] == ChildrenOf(Span(text, offset), MatchesFrom(text, m.End()));
      ChildrenMeasure(text, offset, m.End());
    }
  }

  /** Each round strictly shrinks the worklist measure: the loop terminates. */
  lemma {:induction false} RoundShrinks(spans: seq<Span>)
    requires |spans| > 0
    ensures Measure(RoundChildren(spans)) < Measure(spans)
    decreases |spans|
  {
    ChildrenMeasure(spans[0].text, spans[0].offset, 0);
    assert Span(spans[0].text, spans[0].offset) == spans[0];
    MeasureAppend(SpanChildren(spans[0]), RoundChildren(spans[1..]));
    if |spans| > 1 {
      RoundShrinks(spans[1..]);
    }
  }

  /** Queued spans stay slices of the document. */
  lemma {:induction false} RoundChildrenValid(doc: string, spans: seq<Span>)
    requires ValidSpans(doc, spans)
    ensures ValidSpans(doc, RoundChildren(spans))
    decreases |spans|
  {
    if |spans| > 0 {
      var span := spans[0];
      var cs := SpanChildren(span);
      forall k | 0 <= k < |cs|
        ensures ValidSpan(doc, cs[k])
      {
        ChildSpan(doc, span, SpanMatches(span)[k]);
      }
      RoundChildrenValid(doc, spans[1..]);
    }
  }

  /** All ranges the worklist produces from `spans` on, round after round. */
  function EnvRanges(doc: string, spans: seq<Span>): (rs: seq<FoldingRange>)
    requires ValidSpans(doc, spans)
    decreases Measure(spans)
  {
    if |spans| == 0 then []
    else
      RoundChildrenValid(doc, spans);
      RoundShrinks(spans);
      RoundRanges(doc, spans) + EnvRanges(doc, RoundChildren(spans))
  }

  /** The environment ranges of a document: the worklist started on the whole text. */
  function EnvironmentRanges(doc: string): (rs: seq<FoldingRange>) {
    assert doc[0..|doc|] == doc;
    EnvRanges(doc, [Span(doc, 0)])
  }

  /** What the `exec` loop of ScanSpan keeps: done + still to find == everything. */
  ghost predicate ScanInvariant(doc: string, span: Span, lastIndex: nat,
                                ranges: seq<FoldingRange>, queued: seq<Span>,
                                ranges': seq<FoldingRange>, queued': seq<Span>)
    requires ValidSpan(doc, span)
  {
    lastIndex <= |span.text| &&
    ValidSpans(doc, queued') &&
    ranges' + RangesOf(doc, span, MatchesFrom(span.text, lastIndex)) == ranges + SpanRanges(doc, span) &&
    queued' + ChildrenOf(span, MatchesFrom(span.text, lastIndex)) == queued + SpanChildren(span)
  }

  /** Concatenation is associative; stated once, generically, for the loop proofs. */
  lemma AppendAssoc<T>(a: seq<T>, b: seq<T>, c: seq<T>)
    ensures a + (b + c) == (a + b) + c
  {
  }

  /** A successful `exec` puts its match in front of the later ones. */
  lemma MatchesUnfold(text: string, from: nat, m: EnvMatch)
    requires FindMatch(text, from) == Some(m)
    ensures from < m.End() <= |text|
    ensures MatchesFrom(text, from) == [m] + MatchesFrom(text, m.End())
  {
  }

  lemma RangesAdvance(doc: string, span: Span, lastIndex: nat, m: EnvMatch,
                      ranges': seq<FoldingRange>, target: seq<FoldingRange>)
    requires ValidSpan(doc, span) && FindMatch(span.text, lastIndex) == Some(m)
    requires ranges' + RangesOf(doc, span, MatchesFrom(span.text, lastIndex)) == target
    ensures m.End() <= |span.text|
    ensures (ranges' + [RangeOf(doc, span, m)]) + RangesOf(doc, span, MatchesFrom(span.text, m.End())) == target
  {
    MatchesUnfold(span.text, lastIndex, m);
    var rest := MatchesFrom(span.text, m.End());
    assert ([m] + rest)[1..] == rest;
    var later := RangesOf(doc, span, rest);
    assert RangesOf(doc, span, [m] + rest) == [RangeOf(doc, span, m)] + later;
    AppendAssoc(ranges', [RangeOf(doc, span, m)], later);
  }

  lemma ChildrenAdvance(doc: string, span: Span, lastIndex: nat, m: EnvMatch,
                        queued': seq<Span>, target: seq<Span>)
    requires ValidSpan(doc, span) && FindMatch(span.text, lastIndex) == Some(m)
    requires queued' + ChildrenOf(span, MatchesFrom(span.text, lastIndex)) == target
    ensures m.End() <= |span.text|
    ensures (queued' + [ChildOf(span, m)]) + ChildrenOf(span, MatchesFrom(span.text, m.End())) == target
  {
    MatchesUnfold(span.text, lastIndex, m);
    var rest := MatchesFrom(span.text, m.End());
    assert ([m] + rest)[1..] == rest;
    var later := ChildrenOf(span, rest);
    assert ChildrenOf(span, [m] + rest) == [ChildOf(span, m)] + later;
    AppendAssoc(queued', [ChildOf(span, m)], later);
  }

  /**
   * One `exec` that succeeds: pushing its range and queuing its body keeps
   * the loop invariant at the new `lastIndex`, which has moved forward.
   */
  lemma ScanAdvance(doc: string, span: Span, lastIndex: nat, m: EnvMatch,
                    ranges: seq<FoldingRange>, queued: seq<Span>,
                    ranges': seq<FoldingRange>, queued': seq<Span>)
    requires ValidSpan(doc, span) && FindMatch(span.text, lastIndex) == Some(m)
    requires ScanInvariant(doc, span, lastIndex, ranges, queued, ranges', queued')
    ensures lastIndex < m.End() <= |span.text|
    ensures ScanInvariant(doc, span, m.End(), ranges, queued,
                          ranges' + [RangeOf(doc, span, m)], queued' + [ChildOf(span, m)])
  {
    MatchesUnfold(span.text, lastIndex, m);
    RangesAdvance(doc, span, lastIndex, m, ranges', ranges + SpanRanges(doc, span));
    ChildrenAdvance(doc, span, lastIndex, m, queued', queued + SpanChildren(span));
    ChildSpan(doc, span, m);
    ValidSpansPush(doc, queued', ChildOf(span, m));
  }

  lemma ValidSpansPush(doc: string, spans: seq<Span>, s: Span)
    requires ValidSpans(doc, spans) && ValidSpan(doc, s)
    ensures ValidSpans(doc, spans + [s])
  {
  }

  /**
   * The `forEach` callback for one span: a fresh regex, `exec` until it
   * fails, pushing a range and queuing a body for every match.
   */
  method ScanSpan(doc: string, span: Span, ranges: seq<FoldingRange>, queued: seq<Span>)
    returns (ranges': seq<FoldingRange>, queued': seq<Span>)
    requires ValidSpan(doc, span) && ValidSpans(doc, queued)
    ensures ranges' == ranges + SpanRanges(doc, span)
    ensures queued' == queued + SpanChildren(span)
    ensures ValidSpans(doc, queued')
  {
    ranges', queued' := ranges, queued;
    var lastIndex := 0;
    var found := FindMatch(span.text, lastIndex);
    while found.Some?
      invariant found == FindMatch(span.text, lastIndex)
      invariant ScanInvariant(doc, span, lastIndex, ranges, queued, ranges', queued')
      decreases |span.text| - lastIndex
    {
      var m := found.value;
      ScanAdvance(doc, span, lastIndex, m, ranges, queued, ranges', queued');
      ranges' := ranges' + [RangeOf(doc, span, m)];
      queued' := queued' + [ChildOf(span, m)];
      lastIndex := m.End();
      found := FindMatch(span.text, lastIndex);
    }
  }

  /** What the `forEach` over one round keeps: done + still to scan == the whole round. */
  ghost predicate RoundInvariant(doc: string, spans: seq<Span>, i: nat,
                                 roundStart: seq<FoldingRange>, ranges: seq<FoldingRange>, queued: seq<Span>)
    requires ValidSpans(doc, spans)
  {
    i <= |spans| &&
    ValidSpans(doc, queued) &&
    ValidSpans(doc, spans[i..]) &&
    ranges + RoundRanges(doc, spans[i..]) == roundStart + RoundRanges(doc, spans) &&
    queued + RoundChildren(spans[i..]) == RoundChildren(spans)
  }

  /** One span of a round: its ranges come first, then those of the spans after it. */
  lemma RoundStep(doc: string, spans: seq<Span>, i: nat)
    requires ValidSpans(doc, spans) && i < |spans|
    ensures ValidSpans(doc, spans[i..]) && ValidSpans(doc, spans[i + 1..])
    ensures RoundRanges(doc, spans[i..]) == SpanRanges(doc, spans[i]) + RoundRanges(doc, spans[i + 1..])
    ensures RoundChildren(spans[i..]) == SpanChildren(spans[i]) + RoundChildren(spans[i + 1..])
  {
    assert spans[i..][1..] == spans[i + 1..];
  }

  /** Scanning span i of the round keeps the round invariant at i + 1. */
  lemma RoundAdvance(doc: string, spans: seq<Span>, i: nat,
                     roundStart: seq<FoldingRange>, ranges: seq<FoldingRange>, queued: seq<Span>)
    requires ValidSpans(doc, spans) && i < |spans|
    requires RoundInvariant(doc, spans, i, roundStart, ranges, queued)
    requires ValidSpans(doc, queued + SpanChildren(spans[i]))
    ensures RoundInvariant(doc, spans, i + 1, roundStart,
                           ranges + SpanRanges(doc, spans[i]), queued + SpanChildren(spans[i]))
  {
    RoundStep(doc, spans, i);
    var here := SpanRanges(doc, spans[i]);
    var later := RoundRanges(doc, spans[i + 1..]);
    AppendAssoc(ranges, here, later);
    var kids := SpanChildren(spans[i]);
    var laterKids := RoundChildren(spans[i + 1..]);
    AppendAssoc(queued, kids, laterKids);
  }

  /** The round invariant at its start. */
  lemma RoundBegin(doc: string, spans: seq<Span>, roundStart: seq<FoldingRange>)
    requires ValidSpans(doc, spans)
    ensures RoundInvariant(doc, spans, 0, roundStart, roundStart, [])
  {
    assert spans[0..] == spans;
  }

  /** A finished round hands its children to the next one. */
  lemma RoundEnd(doc: string, spans: seq<Span>,
                 roundStart: seq<FoldingRange>, ranges: seq<FoldingRange>, queued: seq<Span>)
    requires ValidSpans(doc, spans) && |spans| > 0
    requires ranges == roundStart + RoundRanges(doc, spans) && queued == RoundChildren(spans)
    requires roundStart + EnvRanges(doc, spans) == EnvironmentRanges(doc)
    ensures ValidSpans(doc, queued) && Measure(queued) < Measure(spans)
    ensures ranges + EnvRanges(doc, queued) == EnvironmentRanges(doc)
  {
    EnvRangesStep(doc, spans);
    AppendAssoc(roundStart, RoundRanges(doc, spans), EnvRanges(doc, queued));
  }

  /** A non-empty worklist: this round's ranges, then those of the rounds after it. */
  lemma EnvRangesStep(doc: string, spans: seq<Span>)
    requires ValidSpans(doc, spans) && |spans| > 0
    ensures ValidSpans(doc, RoundChildren(spans))
    ensures Measure(RoundChildren(spans)) < Measure(spans)
    ensures EnvRanges(doc, spans) == RoundRanges(doc, spans) + EnvRanges(doc, RoundChildren(spans))
  {
    RoundChildrenValid(doc, spans);
    RoundShrinks(spans);
  }

  /**
   * The `forEach` over the current `textToMatch`: every span in turn appends
   * its ranges to `ranges` and its bodies to `newTextToMatch`.
   */
  method ScanRound(doc: string, spans: seq<Span>, ranges: seq<FoldingRange>)
    returns (ranges': seq<FoldingRange>, newTextToMatch: seq<Span>)
    requires ValidSpans(doc, spans)
    ensures ranges' == ranges + RoundRanges(doc, spans)
    ensures newTextToMatch == RoundChildren(spans)
    ensures ValidSpans(doc, newTextToMatch)
  {
    ranges', newTextToMatch := ranges, [];
    RoundBegin(doc, spans, ranges);
    for i := 0 to |spans|
      invariant RoundInvariant(doc, spans, i, ranges, ranges', newTextToMatch)
    {
      ghost var before, queuedBefore := ranges', newTextToMatch;
      ranges', newTextToMatch := ScanSpan(doc, spans[i], ranges', newTextToMatch);
      RoundAdvance(doc, spans, i, ranges, before, queuedBefore);
    }
    assert spans[|spans|..] == [];
  }

  /** The worklist invariant before the first round. */
  lemma WorklistBegin(doc: string)
    ensures ValidSpans(doc, [Span(doc, 0)])
    ensures [] + EnvRanges(doc, [Span(doc, 0)]) == EnvironmentRanges(doc)
  {
    assert doc[0..|doc|] == doc;
  }

  /** `getEnvironmentFoldingRanges`: the worklist loop, round by round. */
  method EnvironmentFoldingRanges(doc: string) returns (ranges: seq<FoldingRange>)
    ensures ranges == EnvironmentRanges(doc)
  {
    ranges := [];
    var textToMatch := [Span(doc, 0)];
    WorklistBegin(doc);
    while |textToMatch| > 0
      invariant ValidSpans(doc, textToMatch)
      invariant ranges + EnvRanges(doc, textToMatch) == EnvironmentRanges(doc)
      decreases Measure(textToMatch)
    {
      var roundStart := ranges;
      var newTextToMatch;
      ranges, newTextToMatch := ScanRound(doc, textToMatch, ranges);
      RoundEnd(doc, textToMatch, roundStart, ranges, newTextToMatch);
      textToMatch := newTextToMatch;
    }
  }
}
