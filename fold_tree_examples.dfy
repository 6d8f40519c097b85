/** Worked fold trees on short strings, showing the quirks of the builder. */
module FoldTreeExamples {
  import opened Spans
  import opened Scanner
  import opened GapSpans
  import opened FoldTreeBuilder

  /** The fold tree of a buildable string is built from its spans and their gaps. */
  lemma FoldTreeOf(s: string, spans: seq<Span>, gaps: seq<Span>, tree: seq<Edge>)
    requires HasActive(s) && |s| + 1 < SIZE_LIMIT
    requires Scan(s) == spans && |spans| >= 1 && FitsSize(spans)
    requires Gaps(spans, |s|) == gaps && |gaps| >= 1
    requires Build(spans, gaps, |s|) == tree
    ensures Buildable(s) && FoldTree(s) == tree
  {
  }

  lemma SpanAtStartScan()
    ensures Scan("EE  HH") == [Span(1, 2), Span(5, 6)]
  {
  }

  lemma SpanAtStartGaps()
    ensures Gaps([Span(1, 2), Span(5, 6)], 6) == [Span(3, 4), Span(7, 6)]
  {
  }

  lemma SpanAtStartBuild()
    ensures Build([Span(1, 2), Span(5, 6)], [Span(3, 4), Span(7, 6)], 6)
      == [Edge(1, 5, 1), Edge(1, 2, PEPTIDE), Edge(5, 6, PEPTIDE)]
  {
  }

  /** A string that starts with a span: the gap between the two spans is gap entry 1,
      which neither gap loop visits, so residues 3 and 4 get no jump and no peptide
      edge. The trailing gap is the empty pair (7, 6). */
  lemma SpanAtStartSkipsFirstGap()
    ensures Buildable("EE  HH")
    ensures Gaps(Scan("EE  HH"), 6) == [Span(3, 4), Span(7, 6)]
    ensures FoldTree("EE  HH") == [Edge(1, 5, 1), Edge(1, 2, PEPTIDE), Edge(5, 6, PEPTIDE)]
  {
    SpanAtStartScan();
    SpanAtStartGaps();
    SpanAtStartBuild();
    assert "EE  HH"[0] == 'E';
    FoldTreeOf("EE  HH", [Span(1, 2), Span(5, 6)], [Span(3, 4), Span(7, 6)],
      [Edge(1, 5, 1), Edge(1, 2, PEPTIDE), Edge(5, 6, PEPTIDE)]);
  }

  lemma SingleSpanScan()
    ensures Scan("EEEL") == [Span(1, 3)]
  {
  }

  lemma SingleSpanGaps()
    ensures Gaps([Span(1, 3)], 4) == [Span(4, 4)]
  {
  }

  lemma SingleSpanBuild()
    ensures Build([Span(1, 3)], [Span(4, 4)], 4) == [Edge(2, 1, PEPTIDE), Edge(2, 3, PEPTIDE)]
  {
  }

  /** A string with a single span: only the first-span edges are added, so nothing
      after the span is referenced, and residue 4 (the trailing gap, which is also the
      last gap entry) gets no edge. */
  lemma SingleSpanExample()
    ensures Buildable("EEEL")
    ensures Gaps(Scan("EEEL"), 4) == [Span(4, 4)]
    ensures FoldTree("EEEL") == [Edge(2, 1, PEPTIDE), Edge(2, 3, PEPTIDE)]
  {
    SingleSpanScan();
    SingleSpanGaps();
    SingleSpanBuild();
    assert "EEEL"[0] == 'E';
    FoldTreeOf("EEEL", [Span(1, 3)], [Span(4, 4)], [Edge(2, 1, PEPTIDE), Edge(2, 3, PEPTIDE)]);
  }

  lemma LeadingGapScan()
    ensures Scan("LEEELLHHHL") == [Span(2, 4), Span(7, 9)]
  {
  }

  lemma LeadingGapGaps()
    ensures Gaps([Span(2, 4), Span(7, 9)], 10) == [Span(1, 1), Span(5, 6), Span(10, 10)]
  {
  }

  lemma LeadingGapBuild()
    ensures Build([Span(2, 4), Span(7, 9)], [Span(1, 1), Span(5, 6), Span(10, 10)], 10)
      == [Edge(3, 8, 1), Edge(3, 5, 2),
          Edge(3, 1, PEPTIDE), Edge(3, 4, PEPTIDE), Edge(8, 7, PEPTIDE), Edge(8, 10, PEPTIDE),
          Edge(5, 6, PEPTIDE)]
  {
  }

  /** A string with a leading gap: gap entry 1 is the leading gap (1, 1) and is skipped,
      the gap (5, 6) between the spans gets jump 2 and its peptide edge, and the first
      span reaches back to residue 1 and the last forward to residue 10. */
  lemma LeadingGapExample()
    ensures Buildable("LEEELLHHHL")
    ensures FoldTree("LEEELLHHHL")
      == [Edge(3, 8, 1), Edge(3, 5, 2),
          Edge(3, 1, PEPTIDE), Edge(3, 4, PEPTIDE), Edge(8, 7, PEPTIDE), Edge(8, 10, PEPTIDE),
          Edge(5, 6, PEPTIDE)]
  {
    LeadingGapScan();
    LeadingGapGaps();
    LeadingGapBuild();
    assert "LEEELLHHHL"[1] == 'E';
    FoldTreeOf("LEEELLHHHL", [Span(2, 4), Span(7, 9)], [Span(1, 1), Span(5, 6), Span(10, 10)],
      [Edge(3, 8, 1), Edge(3, 5, 2),
       Edge(3, 1, PEPTIDE), Edge(3, 4, PEPTIDE), Edge(8, 7, PEPTIDE), Edge(8, 10, PEPTIDE),
       Edge(5, 6, PEPTIDE)]);
  }

  /** A one-residue span not at residue 1: its midpoint is its start, so the guard
      `middle != start` also drops the edge back to residue 1, and the single span
      gets no edge at all; neither gap is visited by the gap loops. */
  lemma SingleResidueSpanExample()
    ensures Buildable("LEL")
    ensures Scan("LEL") == [Span(2, 2)]
    ensures Gaps([Span(2, 2)], 3) == [Span(1, 1), Span(3, 3)]
    ensures FoldTree("LEL") == []
  {
    assert "LEL"[1] == 'E';
    FoldTreeOf("LEL", [Span(2, 2)], [Span(1, 1), Span(3, 3)], []);
  }
}
