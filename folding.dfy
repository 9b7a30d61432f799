/**
 * `provideFoldingRanges`: the section ranges followed by the environment
 * ranges of the same document. The folding context and the cancellation
 * token are ignored by the provider and are not modelled.
 */
module Folding {
  import opened Common
  import opened LineIndex
  import opened Sections
  import opened EnvironmentMatch
  import opened Environments
  import opened EnvironmentProperties

  /** The provider's result as a value: sections first, then environments. */
  function FoldingRanges(doc: string): (rs: seq<FoldingRange>) {
    SectionFoldingRanges(doc) + EnvironmentRanges(doc)
  }

  /**
   * The provider: the section ranges, in heading order, then the environment
   * ranges in worklist order.
   */
  method ProvideFoldingRanges(doc: string) returns (ranges: seq<FoldingRange>)
    ensures ranges == FoldingRanges(doc)
    ensures ranges[..|SectionFoldingRanges(doc)|] == SectionFoldingRanges(doc)
    ensures ranges[|SectionFoldingRanges(doc)|..] == EnvironmentRanges(doc)
  {
    var environments := EnvironmentFoldingRanges(doc);
    ranges := SectionFoldingRanges(doc) + environments;
  }

  /**
   * Every range the provider returns starts on a line of the document and
   * ends on a line of it or, for an environment whose `\begin` and `\end`
   * share a line, one line above its start.
   */
  lemma FoldingRangesInDocument(doc: string)
    ensures forall r :: r in FoldingRanges(doc) ==>
              0 <= r.startLine < |Lines(doc)| && r.startLine - 1 <= r.endLine < |Lines(doc)|
  {
    EnvironmentRangesInDocument(doc);
  }

  /** A document with no heading line and no environment match yields no range at all. */
  lemma NoMarkersNoRanges(doc: string)
    requires forall l :: 0 <= l < |Lines(doc)| ==> SectionLevel(Lines(doc)[l]).None?
    requires FindMatch(doc, 0).None?
    ensures FoldingRanges(doc) == []
  {
    NoHeadingNoSections(Lines(doc));
    NoEnvironmentNoRanges(doc);
  }
}
